/** `Personio.Absence`: absence types, absence periods and the per-employee absence
    summary record. */
module PersonioAbsence {
  import opened Nullable
  import opened Decimal
  import PersonioObject
  import PersonioEmployee

  type BasicEmployee = PersonioEmployee.BasicEmployee

  /** The fields of an `AbsenceType`: the inherited object, `Name` and its own private
      `_returnValue`. */
  datatype AbsenceType = AbsenceType(base: PersonioObject.Object, name: NString, cache: NString)

  /** `GetType().Name` of an absence type. */
  const AbsenceTypeName: string := "AbsenceType"

  /** `AbsenceType.ToString()`: a non-empty `Name`, else the type name. Unlike an employee
      it never falls back to `Id`. */
  function TypeToString(t: AbsenceType): (out: Rendered<AbsenceType>)
    ensures !IsNullOrEmpty(t.name) ==> out.text == t.name.value
    ensures IsNullOrEmpty(t.name) ==> out.text == AbsenceTypeName
    ensures out.text != []
    ensures out.after == t.(cache := NonNull(out.text))
  {
    var text := if !IsNullOrEmpty(t.name) then t.name.value else AbsenceTypeName;
    Rendered(t.(cache := NonNull(text)), text)
  }

  /** The `Id` never shows: two absence types with the same name render alike whatever
      their identifiers, and an unnamed one renders as the type name, not as its `Id`. */
  lemma TypeTextIgnoresId(t: AbsenceType, id: Int32)
    ensures TypeToString(t.(base := t.base.(id := id))).text == TypeToString(t).text
    ensures IsNullOrEmpty(t.name) ==> TypeToString(t).text != PersonioObject.ToString(t.base).text
  {
    if IsNullOrEmpty(t.name) {
      PersonioObject.TextIdentifiesId(t.base);
      assert ParseInt(AbsenceTypeName) == Null;
    }
  }

  lemma TypeToStringIdempotent(t: AbsenceType)
    ensures TypeToString(TypeToString(t).after) == TypeToString(t)
  {
  }

  /** The fields of an `AbsencePeriod`: the inherited object, `Type` and `Employee`. It has
      no text form of its own and uses the base class's. */
  datatype AbsencePeriod =
    AbsencePeriod(base: PersonioObject.Object, absenceType: Nullable<AbsenceType>, employee: Nullable<BasicEmployee>)

  /** The inherited `ToString()`: the `Id`, whatever the type and employee are. */
  function PeriodToString(p: AbsencePeriod): (out: Rendered<AbsencePeriod>)
    ensures out.text == IntToString(p.base.id)
    ensures out.after == p.(base := p.base.(cache := NonNull(out.text)))
  {
    var r := PersonioObject.ToString(p.base);
    Rendered(p.(base := r.after), r.text)
  }

  /** The fields of an `AbsenceSummaryRecord`, including its private `_returnValue`, the
      one piece of state a `ToString()` call reads back. */
  datatype AbsenceSummaryRecord = AbsenceSummaryRecord(
    baseObject: Nullable<PersonioObject.Payload>,
    absenceType: Nullable<AbsenceType>,
    employee: Nullable<BasicEmployee>,
    category: Nullable<seq<NString>>,
    balance: Int32,
    cache: NString)

  /** `GetType().Name` of a summary record. */
  const SummaryTypeName: string := "AbsenceSummaryRecord"

  /** `Convert.ToString(Employee)`: the empty string for null, else the employee's
      `ToString()`, which updates the employee's own `_returnValue`. */
  function ConvertEmployee(e: Nullable<BasicEmployee>): (out: Rendered<Nullable<BasicEmployee>>)
    ensures e.Null? ==> out.after.Null? && out.text == []
    ensures e.NonNull? ==> out.after.NonNull? && out.text != []
  {
    match e
    case Null => Rendered(Null, [])
    case NonNull(x) =>
      var r := PersonioEmployee.ToString(x);
      Rendered(NonNull(r.after), r.text)
  }

  /** `Convert.ToString(AbsenceType)`, likewise. */
  function ConvertType(t: Nullable<AbsenceType>): (out: Rendered<Nullable<AbsenceType>>)
    ensures t.Null? ==> out.after.Null? && out.text == []
    ensures t.NonNull? ==> out.after.NonNull? && out.text != []
  {
    match t
    case Null => Rendered(Null, [])
    case NonNull(x) =>
      var r := TypeToString(x);
      Rendered(NonNull(r.after), r.text)
  }

  /** The " - type" part of a summary: present exactly when the type is set. */
  function TypeSegment(t: Nullable<AbsenceType>): (s: string)
    ensures s == [] <==> t.Null?
  {
    if t.NonNull? then " - " + ConvertType(t).text else []
  }

  /** The ": balance" part of a summary. */
  function BalanceSuffix(balance: Int32): (s: string)
    ensures |s| > 2 && s[..2] == ": "
  {
    ": " + IntToString(balance)
  }

  /** The text a summary starts from: the employee's text when there is an employee,
      otherwise whatever the previous call left in `_returnValue`. */
  function SummaryPrefix(rec: AbsenceSummaryRecord): string {
    if rec.employee.NonNull? then ConvertEmployee(rec.employee).text else OrEmpty(rec.cache)
  }

  /** Step 1 of `ToString()`: a non-empty employee text overwrites `_returnValue`
      (`Convert.ToString` is called once to test and once to assign). */
  function EmployeeStep(employee: Nullable<BasicEmployee>, value: NString): (r: (Nullable<BasicEmployee>, NString))
    ensures r.0 == ConvertEmployee(employee).after
    ensures r.1 == if employee.NonNull? then NonNull(ConvertEmployee(employee).text) else value
  {
    var e1 := ConvertEmployee(employee);
    if !IsNullOrEmpty(NonNull(e1.text)) then
      PersonioEmployee.ToStringIdempotent(employee.value);
      var e2 := ConvertEmployee(e1.after);
      (e2.after, NonNull(e2.text))
    else (e1.after, value)
  }

  /** Step 2: a non-empty type text appends " - " and the text. */
  function TypeStep(absenceType: Nullable<AbsenceType>, value: NString): (r: (Nullable<AbsenceType>, NString))
    ensures r.0 == ConvertType(absenceType).after
    ensures r.1 == if absenceType.NonNull? then NonNull(OrEmpty(value) + TypeSegment(absenceType)) else value
  {
    var t1 := ConvertType(absenceType);
    if !IsNullOrEmpty(NonNull(t1.text)) then
      TypeToStringIdempotent(absenceType.value);
      var t2 := ConvertType(t1.after);
      assert OrEmpty(value) + " - " + t2.text == OrEmpty(value) + (" - " + t2.text);
      (t2.after, NonNull(OrEmpty(value) + " - " + t2.text))
    else (t1.after, value)
  }

  /** Step 3: a non-empty balance text appends ": " and the text. */
  function BalanceStep(balance: Int32, value: NString): (r: NString)
    ensures r == NonNull(OrEmpty(value) + BalanceSuffix(balance))
  {
    if !IsNullOrEmpty(NonNull(IntToString(balance))) then
      assert OrEmpty(value) + ": " + IntToString(balance) == OrEmpty(value) + BalanceSuffix(balance);
      NonNull(OrEmpty(value) + ": " + IntToString(balance))
    else value
  }

  /** `AbsenceSummaryRecord.ToString()`, step by step as the class does it: (1) the
      employee's text, (2) " - type", (3) ": balance", (4) the type name if the result is
      still empty. Only step 1 overwrites `_returnValue`; without an employee the later
      steps append to what the previous call left there. */
  function SummaryToString(rec: AbsenceSummaryRecord): (out: Rendered<AbsenceSummaryRecord>)
    ensures out.text == SummaryPrefix(rec) + TypeSegment(rec.absenceType) + BalanceSuffix(rec.balance)
    ensures out.after == rec.(employee := ConvertEmployee(rec.employee).after,
                              absenceType := ConvertType(rec.absenceType).after,
                              cache := NonNull(out.text))
  {
    var (employee, value1) := EmployeeStep(rec.employee, rec.cache);
    var (absenceType, value2) := TypeStep(rec.absenceType, value1);
    var value3 := BalanceStep(rec.balance, value2);
    assert value3.value == OrEmpty(value2) + BalanceSuffix(rec.balance);
    var value4 := if IsNullOrEmpty(value3) then NonNull(SummaryTypeName) else value3;
    Rendered(rec.(employee := employee, absenceType := absenceType, cache := value4), value4.value)
  }

  /** Any text followed by the balance suffix ends with that suffix and with a digit. */
  lemma EndsWithBalance(head: string, balance: Int32)
    ensures var text := head + BalanceSuffix(balance);
            text[|head|..] == BalanceSuffix(balance) && IsDigit(text[|text| - 1])
  {
    var digits := IntToString(balance);
    IntToStringShape(balance);
    var text := head + BalanceSuffix(balance);
    assert text == (head + ": ") + digits;
    assert text[|text| - 1] == digits[|digits| - 1];
  }

  /** The text always ends with ": balance", so it is never empty and the type-name
      fallback is never taken. */
  lemma SummaryEndsWithBalance(rec: AbsenceSummaryRecord)
    ensures var text := SummaryToString(rec).text;
            |text| >= |BalanceSuffix(rec.balance)|
            && text[|text| - |BalanceSuffix(rec.balance)|..] == BalanceSuffix(rec.balance)
            && IsDigit(text[|text| - 1])
            && text != SummaryTypeName
  {
    var head := SummaryPrefix(rec) + TypeSegment(rec.absenceType);
    EndsWithBalance(head, rec.balance);
    assert !IsDigit(SummaryTypeName[|SummaryTypeName| - 1]);
  }

  /** The text of an employee or a type is not changed by a previous `ToString()` call. */
  lemma RenderingKeepsTexts(rec: AbsenceSummaryRecord)
    ensures ConvertEmployee(ConvertEmployee(rec.employee).after).text == ConvertEmployee(rec.employee).text
    ensures ConvertEmployee(ConvertEmployee(rec.employee).after).after == ConvertEmployee(rec.employee).after
    ensures TypeSegment(ConvertType(rec.absenceType).after) == TypeSegment(rec.absenceType)
    ensures ConvertType(ConvertType(rec.absenceType).after).after == ConvertType(rec.absenceType).after
  {
    if rec.employee.NonNull? {
      PersonioEmployee.ToStringIdempotent(rec.employee.value);
    }
    if rec.absenceType.NonNull? {
      TypeToStringIdempotent(rec.absenceType.value);
    }
  }

  /** With an employee the previous `_returnValue` is overwritten first, so the text does
      not depend on it and a second call repeats the first exactly. */
  lemma SummaryStableWithEmployee(rec: AbsenceSummaryRecord, previous: NString)
    requires rec.employee.NonNull?
    ensures SummaryToString(rec.(cache := previous)).text == SummaryToString(rec).text
    ensures SummaryToString(SummaryToString(rec).after) == SummaryToString(rec)
  {
    RenderingKeepsTexts(rec);
  }

  /** Without an employee nothing resets `_returnValue`: each call appends the type
      segment and the balance suffix to the text of the call before. */
  lemma SummaryAccumulatesWithoutEmployee(rec: AbsenceSummaryRecord)
    requires rec.employee.Null?
    ensures var first := SummaryToString(rec);
            SummaryToString(first.after).text
            == first.text + TypeSegment(rec.absenceType) + BalanceSuffix(rec.balance)
  {
    RenderingKeepsTexts(rec);
  }

  /** `Category` and `BaseObject` never influence the text. */
  lemma SummaryIgnoresCategoryAndBaseObject(rec: AbsenceSummaryRecord,
                                           category: Nullable<seq<NString>>,
                                           baseObject: Nullable<PersonioObject.Payload>)
    ensures SummaryToString(rec.(category := category, baseObject := baseObject)).text
            == SummaryToString(rec).text
  {
  }

  /** With a named employee and a named type the text is "employee - type: balance". */
  lemma SummaryOfNamedParts(rec: AbsenceSummaryRecord)
    requires rec.employee.NonNull? && !IsNullOrEmpty(rec.employee.value.name)
    requires rec.absenceType.NonNull? && !IsNullOrEmpty(rec.absenceType.value.name)
    ensures SummaryToString(rec).text
            == rec.employee.value.name.value + " - " + rec.absenceType.value.name.value
               + ": " + IntToString(rec.balance)
  {
    var e := rec.employee.value.name.value;
    var t := rec.absenceType.value.name.value;
    assert SummaryPrefix(rec) == e;
    assert TypeSegment(rec.absenceType) == " - " + t;
  }

  /** A record with an employee "Jane Doe", a type "Vacation" and a balance of 5. */
  lemma SummaryExample(employee: BasicEmployee, absenceType: AbsenceType, rec: AbsenceSummaryRecord)
    requires employee.name == NonNull("Jane Doe")
    requires absenceType.name == NonNull("Vacation")
    requires rec.employee == NonNull(employee) && rec.absenceType == NonNull(absenceType)
    requires rec.balance == 5
    ensures SummaryToString(rec).text == "Jane Doe - Vacation: 5"
  {
    assert IntToString(5) == "5";
    SummaryOfNamedParts(rec);
    assert "Jane Doe" + " - " + "Vacation" + ": " + "5" == "Jane Doe - Vacation: 5";
  }

  /** A fresh record with neither employee nor type and a balance of 5 renders ": 5", and
      then ": 5: 5" on the next call. */
  lemma SummaryAccumulationExample(rec: AbsenceSummaryRecord)
    requires rec.employee.Null? && rec.absenceType.Null? && rec.cache.Null?
    requires rec.balance == 5
    ensures SummaryToString(rec).text == ": 5"
    ensures SummaryToString(SummaryToString(rec).after).text == ": 5: 5"
  {
    assert IntToString(5) == "5";
    var suffix := BalanceSuffix(5);
    assert suffix == ": 5";
    var first := SummaryToString(rec);
    assert first.text == [] + [] + suffix;
    SummaryAccumulatesWithoutEmployee(rec);
    assert SummaryToString(first.after).text == first.text + [] + suffix;
  }

  /** `ToString()` as evidently intended: the text is built afresh on every call, as if
      `_returnValue` were a local variable starting at null. */
  function FreshSummaryToString(rec: AbsenceSummaryRecord): (out: Rendered<AbsenceSummaryRecord>)
    ensures out.text == ConvertEmployee(rec.employee).text + TypeSegment(rec.absenceType) + BalanceSuffix(rec.balance)
    ensures out.after == SummaryToString(rec).after.(cache := NonNull(out.text))
  {
    var out := SummaryToString(rec.(cache := Null));
    Rendered(out.after, out.text)
  }

  /** The corrected text depends on the fields only: it ignores the previous
      `_returnValue`, agrees with the class whenever an employee is set, and repeated
      calls return the same text. */
  lemma FreshSummaryIsStable(rec: AbsenceSummaryRecord, previous: NString)
    ensures FreshSummaryToString(rec.(cache := previous)).text == FreshSummaryToString(rec).text
    ensures FreshSummaryToString(FreshSummaryToString(rec).after).text == FreshSummaryToString(rec).text
    ensures rec.employee.NonNull? ==> FreshSummaryToString(rec).text == SummaryToString(rec).text
  {
    RenderingKeepsTexts(rec);
  }

  /** The record of `SummaryAccumulationExample` renders ": 5" on every call once the text
      is built afresh. */
  lemma FreshSummaryExample(rec: AbsenceSummaryRecord)
    requires rec.employee.Null? && rec.absenceType.Null?
    requires rec.balance == 5
    ensures FreshSummaryToString(rec).text == ": 5"
    ensures FreshSummaryToString(FreshSummaryToString(rec).after).text == ": 5"
  {
    assert IntToString(5) == "5";
    var suffix := BalanceSuffix(5);
    assert suffix == ": 5";
    assert FreshSummaryToString(rec).text == [] + [] + suffix;
    FreshSummaryIsStable(rec, Null);
  }
}

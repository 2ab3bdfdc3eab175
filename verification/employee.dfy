/** `Personio.Employee.BasicEmployee`: an identity and a display name. */
module PersonioEmployee {
  import opened Nullable
  import opened Decimal
  import PersonioObject

  /** The fields of a `BasicEmployee`: the inherited object, `Name`, and the class's own
      private `_returnValue` (distinct from the one of the base class). */
  datatype BasicEmployee = BasicEmployee(base: PersonioObject.Object, name: NString, cache: NString)

  /** `GetType().Name`. */
  const TypeName: string := "BasicEmployee"

  /** `new BasicEmployee()`: every field at its default. */
  function NewEmployee(): (e: BasicEmployee)
    ensures e.base == PersonioObject.NewObject()
    ensures e.name.Null? && e.cache.Null?
  {
    BasicEmployee(PersonioObject.NewObject(), Null, Null)
  }

  /** `new BasicEmployee(Id)`: the `Id` is taken from the argument, the rest is default. */
  function NewEmployeeWithId(id: Int32): (e: BasicEmployee)
    ensures e.base.id == id
    ensures e.base.baseObject.Null? && e.base.cache.Null? && e.name.Null? && e.cache.Null?
  {
    BasicEmployee(PersonioObject.NewObject().(id := id), Null, Null)
  }

  /** `ToString()`: a non-empty `Name`, else the text of `Id`, else the type name. The
      last branch is unreachable, so the result is never empty. */
  function ToString(e: BasicEmployee): (out: Rendered<BasicEmployee>)
    ensures !IsNullOrEmpty(e.name) ==> out.text == e.name.value
    ensures IsNullOrEmpty(e.name) ==> out.text == IntToString(e.base.id)
    ensures out.text != []
    ensures out.after == e.(cache := NonNull(out.text))
  {
    var text :=
      if !IsNullOrEmpty(e.name) then e.name.value
      else if IsNullOrEmpty(e.name) && !IsNullOrEmpty(NonNull(IntToString(e.base.id))) then IntToString(e.base.id)
      else TypeName;
    Rendered(e.(cache := NonNull(text)), text)
  }

  /** Without a name, the text reads back as the `Id`. */
  lemma UnnamedTextIsId(e: BasicEmployee)
    requires IsNullOrEmpty(e.name)
    ensures ParseInt(ToString(e).text) == NonNull(e.base.id as int)
  {
    IntToStringRoundTrip(e.base.id);
  }

  /** A second call returns the same text and changes nothing further. */
  lemma ToStringIdempotent(e: BasicEmployee)
    ensures ToString(ToString(e).after) == ToString(e)
  {
  }

  /** The identifier constructor stores its argument, and an unnamed employee built with it
      renders as that number. */
  lemma ConstructorRoundTrip(id: Int32)
    ensures NewEmployeeWithId(id).base.id == id
    ensures ParseInt(ToString(NewEmployeeWithId(id)).text) == NonNull(id as int)
  {
    UnnamedTextIsId(NewEmployeeWithId(id));
  }

  /** A default employee renders as "0"; one built from 42 renders as "42". */
  lemma ConstructedEmployeesRender()
    ensures ToString(NewEmployee()).text == "0"
    ensures ToString(NewEmployeeWithId(42)).text == "42"
  {
    assert NatToString(42) == NatToString(4) + [DigitChar(2)];
  }
}

# PSPersonio entity layer in Dafny

A model of the data classes behind the PSPersonio PowerShell module for the Personio HR
API: the access token a session holds and the text forms of the entities
(`Personio.Object`, `BasicEmployee`, `AbsenceType`, `AbsencePeriod`,
`AbsenceSummaryRecord`).

- `nullable.dfy` (`Nullable`): C# null references (`Nullable<T>`), `string.IsNullOrEmpty`,
  null as the empty string in concatenation, and `Rendered<T>`. A `ToString()` call is the
  pair of its text and the object it leaves behind.
- `decimal.dfy` (`Decimal`): `Convert.ToString(int)` in the invariant culture and a digit
  reader that inverts it.
- `time.dfy` (`Time`): `DateTime` and `TimeSpan` as 100-nanosecond ticks. It also holds
  the custom format `dd\.hh\:mm\:ss`, the constant format `c` that `Convert.ToString(TimeSpan)`
  uses, and the part of `TimeSpan.Parse` that reads those texts back.
- `object.dfy` (`PersonioObject`), `employee.dfy` (`PersonioEmployee`), `absence.dfy`
  (`PersonioAbsence`), `token.dfy` (`PersonioCore`): one module per source namespace.

Each class's private `_returnValue` is a `cache` field of its datatype, and `ToString` is
a function from the object to `Rendered(after, text)`. The only class that reads its
`_returnValue` back is `AbsenceSummaryRecord`. That field turns its `ToString` into a
small state machine. The wall clock `DateTime.Now` is the parameter `now`.

All the fallback branches for "text of an `int` is empty" are dead. They stay in the
function bodies, and the contracts show they are never taken.

## Model

| member | source | states |
|---|---|---|
| Nullable.OrEmpty | library/PSPersonio/PSPersonio/Absence/Personio.Absence.AbsenceSummaryRecord.cs:53 | In a concatenation, a null string contributes no characters and any other string contributes itself. |
| Nullable.IsNullOrEmpty | library/PSPersonio/PSPersonio/Absence/Personio.Absence.AbsenceSummaryRecord.cs:48 | `string.IsNullOrEmpty` holds exactly when the string contributes no characters to a concatenation. |
| Decimal.IntToString | library/PSPersonio/PSPersonio/Personio.Object.cs:32-33 | `Convert.ToString(int)` is never empty, so every "text of an `int` is empty" fallback is dead. `IntToStringCanonical`, `IntToStringRoundTrip` and `CanonicalIntUnique` together fix every character of it. |
| Decimal.IntToStringShape | library/PSPersonio/PSPersonio/Personio.Object.cs:32-33 | The text of an `int` is never empty. It is all digits exactly when the number is not negative, starts with '-' exactly when it is negative, and always ends in a digit. |
| Decimal.IntToStringRoundTrip | library/PSPersonio/PSPersonio/Personio.Object.cs:32-33 | Reading the decimal text of any integer back gives that integer. |
| Decimal.NoLeadingZero | library/PSPersonio/PSPersonio/Personio.Object.cs:32-33 | Only zero is written with a leading '0'. |
| Decimal.IntToStringCanonical | library/PSPersonio/PSPersonio/Personio.Object.cs:32-33 | The text of an integer has no leading zero, and a negative number's digits never start with '0', so "-0" never appears. |
| Decimal.CanonicalIntUnique | library/PSPersonio/PSPersonio/Personio.Object.cs:32-33 | A text with no leading zero and no "-0" that reads back as an integer is exactly that integer's text. |
| Decimal.IntToStringInjective | library/PSPersonio/PSPersonio/Personio.Object.cs:32-33 | Different integers have different texts. |
| Time.Subtract | library/PSPersonio/PSPersonio/Core/Personio.Core.AccessToken.cs:96 | The difference of two timestamps fits a `TimeSpan`, adds back to the minuend, and is non-negative exactly when the minuend is not earlier. |
| Time.DecomposeRoundTrip | library/PSPersonio/PSPersonio/Core/Personio.Core.AccessToken.cs:110 | Days, hours, minutes, seconds and fraction recombine to the magnitude; without the fraction they give its whole seconds. |
| Time.RecomposeDecompose | library/PSPersonio/PSPersonio/Core/Personio.Core.AccessToken.cs:110 | Splitting the ticks of in-range components gives those components back. |
| Time.Assemble | library/PSPersonio/PSPersonio/Core/Personio.Core.AccessToken.cs:110 | Parsing accepts components exactly when hours < 24, minutes < 60, seconds < 60 and the total fits a `long`. Accepted components give their tick total, a whole number of seconds. |
| Time.FormatConstant | library/PSPersonio/PSPersonio/Core/Personio.Core.AccessToken.cs:151-152 | The constant-format text of a span is never empty and starts with '-' exactly for a negative span. |
| Time.FormatDaysClock | library/PSPersonio/PSPersonio/Core/Personio.Core.AccessToken.cs:110 | The custom-format text is at least two day digits, then '.', then "hh:mm:ss" with two characters per field. `DaysClockRoundTrip` reads it back. |
| Time.ParseSpan | library/PSPersonio/PSPersonio/Core/Personio.Core.AccessToken.cs:110-112 | A parsed span is never negative and is a whole number of seconds. `DaysClockRoundTrip`, `ConstantRoundTrip` and `ZeroLiteral` give its value on the texts the class builds. |
| Time.DaysClockRoundTrip | library/PSPersonio/PSPersonio/Core/Personio.Core.AccessToken.cs:109-110 | The "dd.hh:mm:ss" text of any span parses. It parses to the whole seconds of the span's magnitude. |
| Time.ReparseDaysClock | library/PSPersonio/PSPersonio/Core/Personio.Core.AccessToken.cs:110 | Formatting with "dd.hh:mm:ss" and parsing back truncates the magnitude to whole seconds. |
| Time.ConstantRoundTrip | library/PSPersonio/PSPersonio/Core/Personio.Core.AccessToken.cs:151-152 | The constant-format text of a non-negative whole-second span parses back to that span. |
| Time.ZeroLiteral | library/PSPersonio/PSPersonio/Core/Personio.Core.AccessToken.cs:112 | The literal "0:0:0:0" parses as the zero span. |
| PersonioObject.NewObject | library/PSPersonio/PSPersonio/Personio.Object.cs:14-21 | A new object has `Id` 0, no `BaseObject` and no cached text. |
| PersonioObject.ToString | library/PSPersonio/PSPersonio/Personio.Object.cs:31-38 | The text is the decimal text of `Id`, and `_returnValue` holds it afterwards. The type-name branch is never taken. |
| PersonioObject.TextIdentifiesId | library/PSPersonio/PSPersonio/Personio.Object.cs:32-36 | The text reads back as `Id` and is never the type name "Object". |
| PersonioObject.TextDependsOnlyOnId | library/PSPersonio/PSPersonio/Personio.Object.cs:31-38 | Two objects render alike exactly when their `Id`s are equal, whatever their `BaseObject` and previous `_returnValue`. |
| PersonioObject.ToStringIdempotent | library/PSPersonio/PSPersonio/Personio.Object.cs:31-38 | A second call returns the same text and leaves the object as the first call left it. |
| PersonioObject.DefaultRendersZero | library/PSPersonio/PSPersonio/Personio.Object.cs:19-33 | A default object renders as "0". |
| PersonioEmployee.NewEmployee | library/PSPersonio/PSPersonio/Employee/Personio.Employee.BasicEmployee.cs:44-45 | The parameterless constructor leaves every field at its default: `Id` 0, `Name` null. |
| PersonioEmployee.NewEmployeeWithId | library/PSPersonio/PSPersonio/Employee/Personio.Employee.BasicEmployee.cs:50-52 | The `Id` constructor stores its argument and leaves everything else at the default. |
| PersonioEmployee.ToString | library/PSPersonio/PSPersonio/Employee/Personio.Employee.BasicEmployee.cs:26-36 | A non-empty `Name` is the text. Otherwise the text is the decimal `Id`. It is never empty and the type-name branch is dead. `_returnValue` holds the text afterwards. |
| PersonioEmployee.UnnamedTextIsId | library/PSPersonio/PSPersonio/Employee/Personio.Employee.BasicEmployee.cs:29-30 | Without a name, the text reads back as the `Id`. |
| PersonioEmployee.ToStringIdempotent | library/PSPersonio/PSPersonio/Employee/Personio.Employee.BasicEmployee.cs:26-35 | Repeated calls return the same text and change nothing further. |
| PersonioEmployee.ConstructorRoundTrip | library/PSPersonio/PSPersonio/Employee/Personio.Employee.BasicEmployee.cs:50-52 | An employee built from an `Id` has that `Id`, and its text reads back as that `Id`. |
| PersonioEmployee.ConstructedEmployeesRender | library/PSPersonio/PSPersonio/Employee/Personio.Employee.BasicEmployee.cs:44-52 | A default employee renders as "0", and one built from 42 renders as "42". |
| PersonioAbsence.TypeToString | library/PSPersonio/PSPersonio/Absence/Personio.Absence.AbsenceType.cs:26-34 | A non-empty `Name` is the text. Otherwise the text is "AbsenceType". It is never empty, and `_returnValue` holds it afterwards. |
| PersonioAbsence.TypeTextIgnoresId | library/PSPersonio/PSPersonio/Absence/Personio.Absence.AbsenceType.cs:26-33 | Changing `Id` never changes the text. An unnamed type does not render like its base object, which renders the `Id`. |
| PersonioAbsence.TypeToStringIdempotent | library/PSPersonio/PSPersonio/Absence/Personio.Absence.AbsenceType.cs:26-35 | Repeated calls return the same text and change nothing further. |
| PersonioAbsence.PeriodToString | library/PSPersonio/PSPersonio/Absence/Personio.Absence.AbsencePeriod.cs:9-23 | An absence period renders as its `Id`, whatever its type and employee are. |
| PersonioAbsence.ConvertEmployee | library/PSPersonio/PSPersonio/Absence/Personio.Absence.AbsenceSummaryRecord.cs:48-49 | `Convert.ToString` of an employee is empty exactly when the employee is null. |
| PersonioAbsence.ConvertType | library/PSPersonio/PSPersonio/Absence/Personio.Absence.AbsenceSummaryRecord.cs:52-53 | `Convert.ToString` of an absence type is empty exactly when the type is null. |
| PersonioAbsence.TypeSegment | library/PSPersonio/PSPersonio/Absence/Personio.Absence.AbsenceSummaryRecord.cs:52-54 | The " - type" segment is absent exactly when the type is null. |
| PersonioAbsence.BalanceSuffix | library/PSPersonio/PSPersonio/Absence/Personio.Absence.AbsenceSummaryRecord.cs:56-58 | The balance part starts with ": " and has at least one character after it. |
| PersonioAbsence.EmployeeStep | library/PSPersonio/PSPersonio/Absence/Personio.Absence.AbsenceSummaryRecord.cs:48-50 | A non-null employee replaces `_returnValue` with its text. A null one leaves `_returnValue` as it was. |
| PersonioAbsence.TypeStep | library/PSPersonio/PSPersonio/Absence/Personio.Absence.AbsenceSummaryRecord.cs:52-54 | A non-null type appends " - " and its text to `_returnValue`, with null read as empty. A null type changes nothing. |
| PersonioAbsence.BalanceStep | library/PSPersonio/PSPersonio/Absence/Personio.Absence.AbsenceSummaryRecord.cs:56-58 | ": " and the balance are always appended, with null read as empty. |
| PersonioAbsence.SummaryToString | library/PSPersonio/PSPersonio/Absence/Personio.Absence.AbsenceSummaryRecord.cs:47-65 | The text is the employee's text (or, without an employee, the previous `_returnValue`), then the type segment, then ": balance". `_returnValue`, the employee and the type keep their rendered state. |
| PersonioAbsence.EndsWithBalance | library/PSPersonio/PSPersonio/Absence/Personio.Absence.AbsenceSummaryRecord.cs:56-58 | Any text followed by the balance part ends with that part and with a digit. |
| PersonioAbsence.SummaryEndsWithBalance | library/PSPersonio/PSPersonio/Absence/Personio.Absence.AbsenceSummaryRecord.cs:56-62 | Every summary ends with ": balance" and a digit. It is therefore never the type name, and the type-name fallback is dead. |
| PersonioAbsence.RenderingKeepsTexts | library/PSPersonio/PSPersonio/Absence/Personio.Absence.AbsenceSummaryRecord.cs:48-54 | Rendering the employee or the type again does not change its text or its state. |
| PersonioAbsence.SummaryStableWithEmployee | library/PSPersonio/PSPersonio/Absence/Personio.Absence.AbsenceSummaryRecord.cs:47-65 | With an employee, the text ignores the previous `_returnValue`, and a second call returns the same text and state. |
| PersonioAbsence.SummaryAccumulatesWithoutEmployee | library/PSPersonio/PSPersonio/Absence/Personio.Absence.AbsenceSummaryRecord.cs:37-65 | Without an employee, the second call's text is the first call's text followed again by the type segment and the balance part. |
| PersonioAbsence.SummaryIgnoresCategoryAndBaseObject | library/PSPersonio/PSPersonio/Absence/Personio.Absence.AbsenceSummaryRecord.cs:47-65 | `Category` and `BaseObject` never change the text. |
| PersonioAbsence.SummaryOfNamedParts | library/PSPersonio/PSPersonio/Absence/Personio.Absence.AbsenceSummaryRecord.cs:48-58 | With a named employee and a named type, the text is the employee name, " - ", the type name, ": " and the balance. |
| PersonioAbsence.SummaryExample | library/PSPersonio/PSPersonio/Absence/Personio.Absence.AbsenceSummaryRecord.cs:48-58 | Employee "Jane Doe", type "Vacation" and balance 5 render as "Jane Doe - Vacation: 5". |
| PersonioAbsence.SummaryAccumulationExample | library/PSPersonio/PSPersonio/Absence/Personio.Absence.AbsenceSummaryRecord.cs:37-58 | A fresh record with no employee, no type and balance 5 renders ": 5" and then ": 5: 5". |
| PersonioAbsence.FreshSummaryToString | library/PSPersonio/PSPersonio/Absence/Personio.Absence.AbsenceSummaryRecord.cs:47-65 | The corrected summary: employee text, type segment and balance part, built from the fields alone. |
| PersonioAbsence.FreshSummaryIsStable | library/PSPersonio/PSPersonio/Absence/Personio.Absence.AbsenceSummaryRecord.cs:47-65 | The corrected text ignores the previous `_returnValue` and repeats on a second call. With an employee set, it equals the class's text. |
| PersonioAbsence.FreshSummaryExample | library/PSPersonio/PSPersonio/Absence/Personio.Absence.AbsenceSummaryRecord.cs:56-58 | The corrected summary renders the record of `SummaryAccumulationExample` as ": 5" on every call. |
| PersonioCore.IsValid | library/PSPersonio/PSPersonio/Core/Personio.Core.AccessToken.cs:74-85 | A token is valid exactly when its expiry is not before `now` and both `Token` and `Scope` are set. An expiry equal to `now` is valid, and the null test on the expiry never fires. |
| PersonioCore.AccessTokenLifeTime | library/PSPersonio/PSPersonio/Core/Personio.Core.AccessToken.cs:94-97 | The lifetime added to the creation time gives the expiry exactly. It may be negative and does not involve `now`. |
| PersonioCore.TimeRemaining | library/PSPersonio/PSPersonio/Core/Personio.Core.AccessToken.cs:106-115 | The remaining time is 0 once the expiry is at or before `now`. Otherwise it is the span to the expiry truncated to whole seconds. |
| PersonioCore.RoundHalfEven | library/PSPersonio/PSPersonio/Core/Personio.Core.AccessToken.cs:127 | `Math.Round(x, 0)` is within one half of `x`, and a tie goes to the even integer. |
| PersonioCore.PercentOf | library/PSPersonio/PSPersonio/Core/Personio.Core.AccessToken.cs:127 | A representable percentage is an `Int16` within one half of remaining/lifetime × 100, and a tie goes to the even integer. Whenever the lifetime is not zero and the rounded ratio fits `Int16`, the percentage is representable. It lies between 0 and 100 whenever 0 ≤ remaining ≤ lifetime ≠ 0, and a zero lifetime is never representable. |
| PersonioCore.PercentRemaining | library/PSPersonio/PSPersonio/Core/Personio.Core.AccessToken.cs:124-132 | The percentage is 0 once the expiry is at or before `now`. Before that it is within one half of the ratio of remaining time to lifetime, with ties going to the even integer, and it is representable whenever the lifetime is not zero and the rounded ratio fits `Int16`. |
| PersonioCore.PercentInRange | library/PSPersonio/PSPersonio/Core/Personio.Core.AccessToken.cs:124-132 | Between creation and expiry the percentage is defined and lies in 0..100. |
| PersonioCore.SetIsValid | library/PSPersonio/PSPersonio/Core/Personio.Core.AccessToken.cs:87-88 | Assigning `IsValid` changes no field. |
| PersonioCore.SetAccessTokenLifeTime | library/PSPersonio/PSPersonio/Core/Personio.Core.AccessToken.cs:99-100 | Assigning `AccessTokenLifeTime` changes no field. |
| PersonioCore.SetTimeRemaining | library/PSPersonio/PSPersonio/Core/Personio.Core.AccessToken.cs:117-118 | Assigning `TimeRemaining` changes no field. |
| PersonioCore.SetPercentRemaining | library/PSPersonio/PSPersonio/Core/Personio.Core.AccessToken.cs:134-135 | Assigning `PercentRemaining` changes no field. |
| PersonioCore.AssignmentsAreIgnored | library/PSPersonio/PSPersonio/Core/Personio.Core.AccessToken.cs:87-135 | After all four assignments, every derived view reads as before. |
| PersonioCore.ToString | library/PSPersonio/PSPersonio/Core/Personio.Core.AccessToken.cs:148-159 | With a non-empty `ApiUri`, the text is the URI, " \| " and the constant-format remaining time, and the separator is always written. Otherwise the text is "AccessToken". `_returnValue` holds the text afterwards. |
| PersonioCore.ToStringShowsRemaining | library/PSPersonio/PSPersonio/Core/Personio.Core.AccessToken.cs:149-152 | After the URI and " \| ", the rest of the text parses back to the remaining time. |
| PersonioCore.ValidityMatchesRemainingTime | library/PSPersonio/PSPersonio/Core/Personio.Core.AccessToken.cs:74-115 | Time left, a token and a scope make a token valid. At the instant of expiry it is still valid, though the remaining time and the percentage are 0. |
| PersonioCore.RemainingBounds | library/PSPersonio/PSPersonio/Core/Personio.Core.AccessToken.cs:106-132 | The remaining time is non-negative and falls short of the span to the expiry by less than a second. Once expired, the token is invalid and time and percentage are 0. |
| PersonioCore.HalfHourRemaining | library/PSPersonio/PSPersonio/Core/Personio.Core.AccessToken.cs:106-110 | A one-hour token has exactly 30 minutes left half an hour in. |
| PersonioCore.HalfHourPercent | library/PSPersonio/PSPersonio/Core/Personio.Core.AccessToken.cs:124-128 | A one-hour token has 50 percent left half an hour in. |
| PersonioCore.HalfOfAnHour | library/PSPersonio/PSPersonio/Core/Personio.Core.AccessToken.cs:127 | 30 minutes of a one-hour lifetime is exactly 50 percent. |

## Left out

- `DateTime.Now` is a single parameter `now`. The class reads the clock again for every
  comparison and subtraction, so two reads can differ by a few ticks. A pure model cannot
  reproduce that.
- `SecureString` contents and memory protection: `Token` is only present or absent.
- `Guid`, `ClientId`, `ApplicationId`, `ApplicationPartnerId`, `Issuer`,
  `TimeStampNotBefore` and `TimeStampModified` are carried as fields. No member of the class
  reads them.
- `DateTime.Kind` plays no part. Timestamps compare and subtract by their ticks.
- PercentRemaining: the quotient is taken on the reals rather than in `double`, so binary
  rounding of `TotalMilliseconds` and of the quotient is not modelled. `TotalMilliseconds`
  is ticks / 10000 on both sides, so the factor cancels in the ideal quotient. A zero
  lifetime (NaN or infinity in the class) and a rounded value outside `Int16` give
  `Unrepresentable`. C# leaves the result of such a cast unspecified. Where the two disagree
  this follows the code, which does not guard the zero lifetime, not a "return 0" rule.
- ParseSpan: only the shapes "d.hh:mm:ss", "d:h:m:s" and "hh:mm:ss" are read. That covers
  every text the class parses. Signs, fractions, surrounding white space and the
  culture-specific forms of `TimeSpan.Parse` are not modelled. Neither is its overflow check
  on a single field beyond the `long` total.
- Integer and time-span texts use the invariant culture. A culture with a different minus
  sign or digit set is not modelled.
- `GetType().Name` is a string constant per class, the name of the class whose
  `ToString` is running. `AbsencePeriod` inherits the base `ToString`, so on its
  type-name branch it would report "AbsencePeriod". `PersonioAbsence.PeriodToString`
  reuses `PersonioObject.ToString`, which uses "Object" there. That branch is unreachable,
  so no text differs.
- `[Serializable]` serialization is not modelled. `BaseObject` and `Category` are opaque
  payloads that no member inspects.
- `AbsencePeriod` has no behaviour of its own. It is a datatype whose text form is the
  inherited one.

## Findings

| source | as written | input that shows it | evidently intended | confidence | as-written member | corrected member |
|---|---|---|---|---|---|---|
| library/PSPersonio/PSPersonio/Absence/Personio.Absence.AbsenceSummaryRecord.cs:37-65 | `_returnValue` is a field and is only overwritten when `Employee` is set. Without an employee, each `ToString()` call appends the type segment and the balance to the previous call's text. | A record with no employee, no type and balance 5: the first call gives ": 5", the second ": 5: 5". | Each call builds the text from the fields alone, so repeated calls return the same string. | medium, not executed | PersonioAbsence.SummaryAccumulationExample | PersonioAbsence.FreshSummaryIsStable |

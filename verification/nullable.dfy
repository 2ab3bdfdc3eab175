/** C# reference semantics that the entity classes rely on: a reference that may be
    null, `string.IsNullOrEmpty`, string concatenation (which reads null as the empty
    string), and the result of a `ToString()` call on an object whose private
    `_returnValue` field it overwrites. */
module Nullable {

  /** A C# reference (or nullable value) that is either null or points at a value. */
  datatype Nullable<+T> = Null | NonNull(value: T)

  /** A C# `string`: null or a character sequence. */
  type NString = Nullable<string>

  /** The text a string contributes to a concatenation: `null + "x"` is `"x"` in C#. */
  function OrEmpty(s: NString): (r: string)
    ensures s.NonNull? ==> r == s.value
    ensures s.Null? ==> r == []
  {
    match s
    case Null => []
    case NonNull(v) => v
  }

  /** `string.IsNullOrEmpty(s)`: the string contributes no characters to a concatenation. */
  function IsNullOrEmpty(s: NString): (empty: bool)
    ensures empty <==> OrEmpty(s) == []
  {
    s.Null? || s.value == []
  }

  /** The outcome of a `ToString()` call: the object as it is afterwards (its private
      `_returnValue` field updated) and the text returned. */
  datatype Rendered<+T> = Rendered(after: T, text: string)
}

/** `Personio.Object`, the base class of the entities: an `Id`, an opaque origin-system
    record and a text form keyed on the `Id`. */
module PersonioObject {
  import opened Nullable
  import opened Decimal

  /** The record of the origin system kept in `BaseObject`; nothing here inspects it. */
  datatype Payload = Payload(handle: nat)

  /** The fields of a `Personio.Object`, including its private `_returnValue`. */
  datatype Object = Object(baseObject: Nullable<Payload>, id: Int32, cache: NString)

  /** `GetType().Name` of the base class. */
  const TypeName: string := "Object"

  /** `new Personio.Object()`: every field at its default. */
  function NewObject(): (o: Object)
    ensures o.id == 0 && o.baseObject.Null? && o.cache.Null?
  {
    Object(Null, 0, Null)
  }

  /** `ToString()`: the decimal text of `Id`, else the type name. Since an `int` always
      has a non-empty text, the type name is never chosen. */
  function ToString(o: Object): (out: Rendered<Object>)
    ensures out.text == IntToString(o.id)
    ensures out.after == o.(cache := NonNull(out.text))
  {
    var text := if !IsNullOrEmpty(NonNull(IntToString(o.id))) then IntToString(o.id) else TypeName;
    Rendered(o.(cache := NonNull(text)), text)
  }

  /** The text names the `Id`: reading it back as a number gives the `Id`. */
  lemma TextIdentifiesId(o: Object)
    ensures ParseInt(ToString(o).text) == NonNull(o.id as int)
    ensures ToString(o).text != TypeName
  {
    IntToStringRoundTrip(o.id);
  }

  /** Only `Id` matters: `BaseObject` and the previous `_returnValue` do not. */
  lemma TextDependsOnlyOnId(a: Object, b: Object)
    ensures ToString(a).text == ToString(b).text <==> a.id == b.id
  {
    if ToString(a).text == ToString(b).text {
      IntToStringInjective(a.id, b.id);
    }
  }

  /** A second call returns the same text and leaves the object as the first left it. */
  lemma ToStringIdempotent(o: Object)
    ensures ToString(ToString(o).after) == ToString(o)
  {
  }

  /** A default object renders as "0". */
  lemma DefaultRendersZero()
    ensures ToString(NewObject()).text == "0"
  {
  }
}

/** Value types shared by the model: Java's `Optional<String>` and a Java
    `String` reference, which may be null. */
module Wrappers {

  /** `java.util.Optional<T>`: empty, or holding a non-null value. */
  datatype Option<+T> = None | Some(value: T)

  /** A Java `String` reference: `null`, or a string of characters. */
  datatype JavaString = Null | Str(chars: string)

  /** `Optional.ofNullable`: a null reference gives the empty Optional. */
  function OfNullable(v: JavaString): (r: Option<string>)
    ensures r.None? <==> v.Null?
    ensures r.Some? ==> v == Str(r.value)
  {
    match v
    case Null => None
    case Str(s) => Some(s)
  }
}

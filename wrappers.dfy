/** C# nullable references and values, and the string tests the source applies to them. */
module Wrappers {

  /** A value that may be null: `string?`, `int?`, or a reference that may be null. */
  datatype Nullable<+T> = Null | Some(value: T) {

    /** `x ?? fallback` */
    function GetOr(fallback: T): (r: T)
      ensures Some? ==> r == value
      ensures Null? ==> r == fallback
    {
      match this
      case Some(v) => v
      case Null => fallback
    }
  }

  /** `string.IsNullOrEmpty(s)` */
  predicate IsNullOrEmpty(s: Nullable<string>) {
    s.Null? || s.value == ""
  }
}

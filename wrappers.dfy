/** Small value wrappers for the JavaScript values the model handles. */
module Wrappers {

  /** A value that may be `null`: a nullable database column or a `.nullable()` schema input. */
  datatype Option<+T> = None | Some(value: T)

  /** A JavaScript value that may be `undefined`, `null` or present. Optional chaining
      (`x?.f()`) yields `undefined` on both `undefined` and `null`; when an update payload
      is serialised, an `undefined` field is dropped and a `null` field is written. */
  datatype Nullish<+T> = Undefined | Null | Val(value: T)

  /** The column value after an update whose payload holds `v` for that column. */
  function Written<T>(current: Option<T>, v: Nullish<T>): (r: Option<T>)
    ensures v.Undefined? ==> r == current
    ensures v.Null? ==> r.None?
    ensures v.Val? ==> r == Some(v.value)
  {
    match v
    case Undefined => current
    case Null => None
    case Val(x) => Some(x)
  }
}

/** Small shared vocabulary: an optional value (the source's `null`-able
    values) and the last element of a non-empty sequence (the top of a stack). */
module Base {

  datatype Option<+T> = None | Some(value: T)

  function Last<T>(s: seq<T>): T
    requires |s| > 0
  {
    s[|s| - 1]
  }
}

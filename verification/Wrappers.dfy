/** Values that any module may need. */
module Wrappers {
  /** A file that may not exist, a call that may fail. */
  datatype Option<+T> = None | Some(value: T)

  /** The sequence without the element at `k`: what a shift loop leaves of an array. */
  function Cut<T>(s: seq<T>, k: nat): (r: seq<T>)
    requires k < |s|
    ensures |r| == |s| - 1
    ensures forall j | 0 <= j < |r| :: r[j] == if j < k then s[j] else s[j + 1]
  {
    s[..k] + s[k + 1..]
  }
}

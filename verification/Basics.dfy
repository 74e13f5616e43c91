/** What several parts of the model share. */
module Basics {

  datatype Option<T> = None | Some(value: T)

  /** A sequence with one element taken out. */
  function Without<T>(s: seq<T>, k: nat): (r: seq<T>)
    requires k < |s|
    ensures |r| == |s| - 1
  {
    s[..k] + s[k + 1..]
  }
}

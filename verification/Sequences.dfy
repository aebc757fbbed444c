/** Operations on sequences that several structures share. */
module Sequences {
  /** The sequence without the element at k. */
  function Without<T>(s: seq<T>, k: nat): seq<T>
    requires k < |s|
  {
    s[..k] + s[k + 1..]
  }
}

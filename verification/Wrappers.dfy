/** What the other modules share. */
module Wrappers {
  /** A value that may be missing. */
  datatype Option<+T> = None | Some(value: T)

  /** A sequence without its element `j`. */
  function Without<T>(s: seq<T>, j: nat): seq<T>
    requires j < |s|
  {
    s[..j] + s[j + 1..]
  }

  lemma WithoutAt<T>(s: seq<T>, j: nat, i: nat)
    requires j < |s| && i < |s| - 1
    ensures |Without(s, j)| == |s| - 1 && Without(s, j)[i] == if i < j then s[i] else s[i + 1]
  {
  }
}

/** Small things that several components use. */
module Basics {
  datatype Option<T> = None | Some(value: T)

  function Bit(b: bool): nat {
    if b then 1 else 0
  }

  ghost predicate Distinct(s: seq<int>) {
    forall i, j :: 0 <= i < j < |s| ==> s[i] != s[j]
  }
}

/** Small notions about sequences and counting, shared by the other modules. */
module Sequences {
  /** l without its k-th member. */
  function Drop<T>(l: seq<T>, k: int): seq<T>
    requires 0 <= k < |l|
  {
    l[..k] + l[k + 1..]
  }

  ghost predicate Distinct<T>(l: seq<T>) {
    forall i, j :: 0 <= i < j < |l| ==> l[i] != l[j]
  }

  function Bit(b: bool): nat {
    if b then 1 else 0
  }
}

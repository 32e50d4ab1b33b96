/** What several modules use. */
module Basics {

  datatype Option<T> = None | Some(value: T)

  /** Where user virtual memory ends, and a page's size. */
  const PHYS_BASE: int := 0xc000_0000
  const PGSIZE: nat := 4096

  /** Names a thing at which a quantified invariant is used: the quantifiers that have it as their trigger are
      instantiated at these only. */
  ghost predicate Look(x: int) {
    true
  }

  ghost predicate NoDup<T>(q: seq<T>) {
    forall i, j :: 0 <= i < j < |q| ==> q[i] != q[j]
  }

  function Reversed<T>(s: seq<T>): (r: seq<T>)
    ensures |r| == |s|
  {
    seq(|s|, i requires 0 <= i < |s| => s[|s| - 1 - i])
  }
}

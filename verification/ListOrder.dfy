/** lib/kernel/list.c, what its operations do to the order of the nodes: list_sort(), list_unique() and
    list_insert_ordered() as functions on the sequence of nodes, and what is true of the results. */
module ListOrder {
  import opened Ordering

  class ListElem<K> {
    var prev: ListElem?<K>
    var next: ListElem?<K>
    const key: K

    constructor (k: K)
      ensures key == k && prev == null && next == null
    {
      key := k;
      prev, next := null, null;
    }
  }

  /** `c` with the nodes at [p, q) moved to just before the node at `b`. */
  ghost function Moved<T>(c: seq<T>, b: nat, p: nat, q: nat): seq<T>
    requires p < q <= |c| && (b < p || q <= b < |c|)
  {
    if b < p then c[..b] + c[p..q] + c[b..p] + c[q..]
    else c[..p] + c[q..b] + c[p..q] + c[b..]
  }

  /** Moving a range is taking it out and then putting it back in. */
  lemma MovedTwice<T>(c: seq<T>, b: nat, p: nat, q: nat)
    requires 0 < p < q < |c| && (b < p || q <= b < |c|) && 0 < b
    ensures var rest, b' := c[..p] + c[q..], if b < p then b else b - (q - p);
            && 0 < b' < |rest| && rest[b'] == c[b]
            && Moved(c, b, p, q) == rest[..b'] + c[p..q] + rest[b'..]
  {
    if b < p {
      Rejoin(c[..b], c[b..p], c[q..]);
      assert c[..p] == c[..b] + c[b..p];
    } else {
      Rejoin(c[..p], c[q..b], c[b..]);
      assert c[q..] == c[q..b] + c[b..];
      assert c[..p] + (c[q..b] + c[b..]) == c[..p] + c[q..b] + c[b..];
    }
  }

  lemma Rejoin<T>(u: seq<T>, v: seq<T>, w: seq<T>)
    ensures (u + v + w)[..|u|] == u && (u + v + w)[|u|..] == v + w
    ensures (u + v + w)[..|u| + |v|] == u + v && (u + v + w)[|u| + |v|..] == w
  {
  }

  lemma InteriorInsert<T>(c: seq<T>, b: nat, e: T)
    requires 0 < b < |c|
    ensures Interior(c[..b] + [e] + c[b..]) == Interior(c)[..b - 1] + [e] + Interior(c)[b - 1..]
    ensures forall i :: 0 <= i < |Interior(c)| ==> Interior(c)[i] == c[i + 1]
  {
  }

  lemma SuffixAt<T>(c: seq<T>, d: seq<T>, k: nat)
    requires |c| == |d| && k < |c| && c[k..] == d[k..]
    ensures c[k] == d[k] && c[|c| - 1] == d[|c| - 1]
  {
    assert c[k] == c[k..][0] && d[k] == d[k..][0];
    assert c[|c| - 1] == c[k..][|c| - 1 - k] && d[|c| - 1] == d[k..][|c| - 1 - k];
  }

  // ---- Order, stability and runs -------------------------------------------------------

  /** The nodes at [lo, hi) of `c` carry keys in nondecreasing order. */
  ghost predicate Sorted<K>(less: (K, K) -> bool, c: seq<ListElem<K>>, lo: nat, hi: nat)
    requires hi <= |c|
  {
    forall i, j :: lo <= i < j < hi ==> !less(c[j].key, c[i].key)
  }

  /** The nodes of `s` whose keys are equivalent to `k`, in the order they have in `s`. */
  ghost function ClassOf<K>(less: (K, K) -> bool, s: seq<ListElem<K>>, k: K): seq<ListElem<K>> {
    if s == [] then []
    else (if Equivalent(less, s[0].key, k) then [s[0]] else []) + ClassOf(less, s[1..], k)
  }

  /** `t` is a rearrangement of the nodes of `s` that keeps equivalent nodes in order. */
  ghost predicate StablePermutation<K(!new)>(less: (K, K) -> bool, s: seq<ListElem<K>>, t: seq<ListElem<K>>) {
    multiset(s) == multiset(t) && forall k :: ClassOf(less, s, k) == ClassOf(less, t, k)
  }

  lemma {:induction false} ClassOfConcat<K>(less: (K, K) -> bool, s: seq<ListElem<K>>, t: seq<ListElem<K>>, k: K)
    ensures ClassOf(less, s + t, k) == ClassOf(less, s, k) + ClassOf(less, t, k)
  {
    if s == [] {
      assert s + t == t;
    } else {
      assert (s + t)[1..] == s[1..] + t;
      ClassOfConcat(less, s[1..], t, k);
    }
  }

  lemma {:induction false} ClassOfNone<K>(less: (K, K) -> bool, s: seq<ListElem<K>>, k: K)
    requires forall n :: n in s ==> !Equivalent(less, n.key, k)
    ensures ClassOf(less, s, k) == []
  {
    if s != [] {
      ClassOfNone(less, s[1..], k);
    }
  }

  lemma ClassOfSwap<K(!new)>(less: (K, K) -> bool, m: seq<ListElem<K>>, e: ListElem<K>, k: K)
    requires StrictWeakOrder(less)
    requires forall n :: n in m ==> less(e.key, n.key)
    ensures ClassOf(less, m + [e], k) == ClassOf(less, [e] + m, k)
  {
    ClassOfConcat(less, m, [e], k);
    ClassOfConcat(less, [e], m, k);
    if Equivalent(less, e.key, k) {
      ClassOfNone(less, m, k);
    }
  }

  lemma ClassOfInside<K>(less: (K, K) -> bool, a: seq<ListElem<K>>, s: seq<ListElem<K>>, b: seq<ListElem<K>>, k: K)
    ensures ClassOf(less, a + s + b, k) == ClassOf(less, a, k) + ClassOf(less, s, k) + ClassOf(less, b, k)
  {
    ClassOfConcat(less, a + s, b, k);
    ClassOfConcat(less, a, s, k);
  }

  /** Moving a node ahead of strictly greater ones is a stable rearrangement. */
  lemma MoveAheadIsStable<K(!new)>(less: (K, K) -> bool, a: seq<ListElem<K>>, m: seq<ListElem<K>>,
                                   e: ListElem<K>, b: seq<ListElem<K>>)
    requires StrictWeakOrder(less)
    requires forall n :: n in m ==> less(e.key, n.key)
    ensures StablePermutation(less, a + (m + [e]) + b, a + ([e] + m) + b)
  {
    forall k
      ensures ClassOf(less, a + (m + [e]) + b, k) == ClassOf(less, a + ([e] + m) + b, k)
    {
      ClassOfInside(less, a, m + [e], b, k);
      ClassOfInside(less, a, [e] + m, b, k);
      ClassOfSwap(less, m, e, k);
    }
  }

  /** The number of nodes at (lo, hi) of `c` that are less than the node before them. */
  ghost function Descents<K>(less: (K, K) -> bool, c: seq<ListElem<K>>, lo: nat, hi: nat): nat
    requires hi <= |c|
    decreases hi - lo
  {
    if hi <= lo + 1 then 0
    else (if less(c[lo + 1].key, c[lo].key) then 1 else 0) + Descents(less, c, lo + 1, hi)
  }

  lemma {:induction false} DescentsSplit<K>(less: (K, K) -> bool, c: seq<ListElem<K>>, lo: nat, mid: nat, hi: nat)
    requires lo < mid < hi <= |c|
    ensures Descents(less, c, lo, hi)
         == Descents(less, c, lo, mid) + (if less(c[mid].key, c[mid - 1].key) then 1 else 0)
            + Descents(less, c, mid, hi)
    decreases mid - lo
  {
    if lo + 1 < mid {
      DescentsSplit(less, c, lo + 1, mid, hi);
    }
  }

  lemma {:induction false} DescentsOfRun<K>(less: (K, K) -> bool, c: seq<ListElem<K>>, lo: nat, hi: nat)
    requires hi <= |c| && Sorted(less, c, lo, hi)
    ensures Descents(less, c, lo, hi) == 0
    decreases hi - lo
  {
    if lo + 1 < hi {
      DescentsOfRun(less, c, lo + 1, hi);
    }
  }

  lemma {:induction false} DescentsLocal<K>(less: (K, K) -> bool, c: seq<ListElem<K>>, d: seq<ListElem<K>>, lo: nat,
                                            hi: nat)
    requires hi <= |c| && hi <= |d| && forall i :: lo <= i < hi ==> c[i] == d[i]
    ensures Descents(less, c, lo, hi) == Descents(less, d, lo, hi)
    decreases hi - lo
  {
    if lo + 1 < hi {
      DescentsLocal(less, c, d, lo + 1, hi);
    }
  }

  /** `s` without the nodes equivalent to the last one kept before them, and those nodes. */
  ghost function Uniq<K>(less: (K, K) -> bool, s: seq<ListElem<K>>): (seq<ListElem<K>>, seq<ListElem<K>>)
    decreases |s|
  {
    if |s| < 2 then (s, [])
    else if Equivalent(less, s[0].key, s[1].key) then
      var r := Uniq(less, [s[0]] + s[2..]);
      (r.0, [s[1]] + r.1)
    else
      var r := Uniq(less, s[1..]);
      ([s[0]] + r.0, r.1)
  }

  // ---- list_sort on sequences ----------------------------------------------------------

  /** The nodes of `c` between its two sentinels. */
  ghost function Interior<T>(c: seq<T>): seq<T>
    requires |c| >= 2
  {
    c[1..|c| - 1]
  }

  /** `c` with the node at `y` moved to just before the node at `x`. */
  ghost function Ahead<T>(c: seq<T>, x: nat, y: nat): (d: seq<T>)
    requires x < y < |c|
  {
    seq(|c|, m requires 0 <= m < |c| => if m < x || y < m then c[m] else if m == x then c[y] else c[m - 1])
  }

  lemma AheadIsMoved<T>(c: seq<T>, x: nat, y: nat)
    requires x < y < |c|
    ensures Ahead(c, x, y) == Moved(c, x, y, y + 1)
  {
  }

  /** The end of the run of `c` that starts at `i`: the tail, or the first node less than the one before it. */
  ghost function RunEnd<K>(less: (K, K) -> bool, c: seq<ListElem<K>>, i: nat): (e: nat)
    requires i < |c| - 1
    ensures i < e < |c|
    decreases |c| - i
  {
    if i + 1 == |c| - 1 || less(c[i + 1].key, c[i].key) then i + 1 else RunEnd(less, c, i + 1)
  }

  /** `c` after inplace_merge() of the runs at [x, y) and [y, k). */
  ghost function Merged<K>(less: (K, K) -> bool, c: seq<ListElem<K>>, x: nat, y: nat, k: nat): (d: seq<ListElem<K>>)
    requires x <= y <= k < |c|
    ensures |d| == |c|
    decreases k - x
  {
    if x == y || y == k then c
    else if !less(c[y].key, c[x].key) then Merged(less, c, x + 1, y, k)
    else Merged(less, Ahead(c, x, y), x + 1, y + 1, k)
  }

  /** `c` and the output run count after a pass of list_sort() over the nodes from `p` on. */
  ghost function Pass<K>(less: (K, K) -> bool, c: seq<ListElem<K>>, p: nat): (r: (seq<ListElem<K>>, nat))
    requires p < |c|
    ensures |r.0| == |c|
    decreases |c| - p
  {
    if p == |c| - 1 then (c, 0)
    else
      var a1b0 := RunEnd(less, c, p);
      if a1b0 == |c| - 1 then (c, 1)
      else
        var b1 := RunEnd(less, c, a1b0);
        var r := Pass(less, Merged(less, c, p, a1b0, b1), b1);
        (r.0, r.1 + 1)
  }

  lemma {:induction false} RunEndIsRun<K(!new)>(less: (K, K) -> bool, c: seq<ListElem<K>>, i: nat)
    requires StrictWeakOrder(less) && i < |c| - 1
    ensures Sorted(less, c, i, RunEnd(less, c, i))
    ensures RunEnd(less, c, i) < |c| - 1 ==> less(c[RunEnd(less, c, i)].key, c[RunEnd(less, c, i) - 1].key)
    decreases |c| - i
  {
    if !(i + 1 == |c| - 1 || less(c[i + 1].key, c[i].key)) {
      RunEndIsRun(less, c, i + 1);
      var e := RunEnd(less, c, i + 1);
      forall j | i < j < e
        ensures !less(c[j].key, c[i].key)
      {
        assert j == i + 1 || !less(c[j].key, c[i + 1].key);
      }
    }
  }

  lemma MoveAheadSorts<K(!new)>(less: (K, K) -> bool, d: seq<ListElem<K>>, i: nat, x: nat, y: nat, k: nat)
    requires StrictWeakOrder(less)
    requires i <= x < y < k < |d|
    requires Sorted(less, d, i, y) && Sorted(less, d, y, k) && less(d[y].key, d[x].key)
    requires forall u, v :: i <= u < x && y <= v < k ==> !less(d[v].key, d[u].key)
    ensures var e := Ahead(d, x, y);
            && Sorted(less, e, i, y + 1) && Sorted(less, e, y + 1, k)
            && (forall u, v :: i <= u < x + 1 && y + 1 <= v < k ==> !less(e[v].key, e[u].key))
  {
  }

  /** Merging two sorted runs sorts them. */
  lemma {:induction false} MergedSorts<K(!new)>(less: (K, K) -> bool, c: seq<ListElem<K>>, i: nat, x: nat, y: nat,
                                                k: nat)
    requires StrictWeakOrder(less)
    requires i <= x <= y <= k < |c|
    requires Sorted(less, c, i, y) && Sorted(less, c, y, k)
    requires forall u, v :: i <= u < x && y <= v < k ==> !less(c[v].key, c[u].key)
    ensures Sorted(less, Merged(less, c, x, y, k), i, k)
    decreases k - x
  {
    if x == y || y == k {
    } else if !less(c[y].key, c[x].key) {
      assert forall v :: y <= v < k ==> !less(c[v].key, c[x].key);
      MergedSorts(less, c, i, x + 1, y, k);
    } else {
      MoveAheadSorts(less, c, i, x, y, k);
      MergedSorts(less, Ahead(c, x, y), i, x + 1, y + 1, k);
    }
  }

  /** Merging touches only the two runs. */
  lemma {:induction false} MergedFrame<K>(less: (K, K) -> bool, c: seq<ListElem<K>>, x: nat, y: nat, k: nat)
    requires x <= y <= k < |c|
    ensures Merged(less, c, x, y, k)[..x] == c[..x] && Merged(less, c, x, y, k)[k..] == c[k..]
    decreases k - x
  {
    if x == y || y == k {
    } else if !less(c[y].key, c[x].key) {
      MergedFrame(less, c, x + 1, y, k);
      var r := Merged(less, c, x + 1, y, k);
      assert r[..x] == r[..x + 1][..x] == c[..x + 1][..x] == c[..x];
    } else {
      var d := Ahead(c, x, y);
      MergedFrame(less, d, x + 1, y + 1, k);
      var r := Merged(less, d, x + 1, y + 1, k);
      assert r[..x] == r[..x + 1][..x] == d[..x + 1][..x] == d[..x] == c[..x];
      assert d[k..] == c[k..];
    }
  }

  lemma MoveInsideIsStable<K(!new)>(less: (K, K) -> bool, d: seq<ListElem<K>>, x: nat, y: nat)
    requires StrictWeakOrder(less)
    requires 0 < x < y < |d| - 1
    requires Sorted(less, d, x, y) && less(d[y].key, d[x].key)
    ensures StablePermutation(less, Interior(d), Interior(Ahead(d, x, y)))
  {
    var a, m, n, b := d[1..x], d[x..y], d[y], d[y + 1..|d| - 1];
    assert Interior(d) == a + (m + [n]) + b;
    assert Interior(Ahead(d, x, y)) == a + ([n] + m) + b;
    forall o | o in m
      ensures less(n.key, o.key)
    {
      var t :| 0 <= t < |m| && m[t] == o;
      assert m[t] == d[x + t];
      assert !less(d[x + t].key, d[x].key);
    }
    MoveAheadIsStable(less, a, m, n, b);
  }

  lemma {:induction false} MergedIsStable<K(!new)>(less: (K, K) -> bool, c: seq<ListElem<K>>, x: nat, y: nat, k: nat)
    requires StrictWeakOrder(less)
    requires 0 < x <= y <= k < |c|
    requires Sorted(less, c, x, y)
    ensures StablePermutation(less, Interior(c), Interior(Merged(less, c, x, y, k)))
    decreases k - x
  {
    if x == y || y == k {
    } else if !less(c[y].key, c[x].key) {
      MergedIsStable(less, c, x + 1, y, k);
    } else {
      MoveInsideIsStable(less, c, x, y);
      var d := Ahead(c, x, y);
      MergedIsStable(less, d, x + 1, y + 1, k);
      StableTransitive(less, Interior(c), Interior(d), Interior(Merged(less, d, x + 1, y + 1, k)));
    }
  }

  /** A pass over the nodes from `p` on leaves the nodes before `p` alone and is a stable rearrangement. */
  lemma {:induction false} PassIsStable<K(!new)>(less: (K, K) -> bool, c: seq<ListElem<K>>, p: nat)
    requires StrictWeakOrder(less) && 0 < p < |c|
    ensures Pass(less, c, p).0[..p] == c[..p] && Pass(less, c, p).0[|c| - 1] == c[|c| - 1]
    ensures StablePermutation(less, Interior(c), Interior(Pass(less, c, p).0))
    decreases |c| - p
  {
    if p < |c| - 1 && RunEnd(less, c, p) < |c| - 1 {
      var a1b0 := RunEnd(less, c, p);
      var b1 := RunEnd(less, c, a1b0);
      var d := Merged(less, c, p, a1b0, b1);
      RunEndIsRun(less, c, p);
      MergedIsStable(less, c, p, a1b0, b1);
      MergedFrame(less, c, p, a1b0, b1);
      PassIsStable(less, d, b1);
      var r := Pass(less, d, b1).0;
      assert r[..p] == r[..b1][..p] == d[..b1][..p] == d[..p];
      SuffixAt(c, d, b1);
    }
  }

  /** What a pass that outputs `n` runs over the nodes from `p` on achieves: it leaves at most `n - 1`
      descents there, found at least twice that many, and sorted them if `n` is at most one. */
  ghost predicate MergesRuns<K>(less: (K, K) -> bool, c: seq<ListElem<K>>, d: seq<ListElem<K>>, n: nat, p: nat)
    requires p < |c| == |d|
  {
    && (n == 0 <==> p == |c| - 1)
    && (n > 0 ==> Descents(less, d, p, |c| - 1) <= n - 1 && 2 * (n - 1) <= Descents(less, c, p, |c| - 1))
    && (n <= 1 ==> Sorted(less, d, p, |c| - 1))
  }

  lemma {:induction false} PassMergesRuns<K(!new)>(less: (K, K) -> bool, c: seq<ListElem<K>>, p: nat)
    requires StrictWeakOrder(less) && 0 < p < |c|
    ensures MergesRuns(less, c, Pass(less, c, p).0, Pass(less, c, p).1, p)
    decreases |c| - p
  {
    var end := |c| - 1;
    if p < end {
      var a1b0 := RunEnd(less, c, p);
      RunEndIsRun(less, c, p);
      if a1b0 == end {
        DescentsOfRun(less, c, p, end);
      } else {
        var b1 := RunEnd(less, c, a1b0);
        var d := Merged(less, c, p, a1b0, b1);
        PassMergesRuns(less, d, b1);
        RunEndIsRun(less, c, a1b0);
        MergedPair(less, c, p, a1b0, b1);
        PassIsStable(less, d, b1);
        MergesPair(less, c, d, Pass(less, d, b1).0, Pass(less, d, b1).1, p, a1b0, b1);
      }
    }
  }

  lemma MergedPair<K(!new)>(less: (K, K) -> bool, c: seq<ListElem<K>>, p: nat, a1b0: nat, b1: nat)
    requires StrictWeakOrder(less) && 0 < p < a1b0 < b1 < |c| && Sorted(less, c, p, a1b0) && Sorted(less, c, a1b0, b1)
    ensures Sorted(less, Merged(less, c, p, a1b0, b1), p, b1) && Merged(less, c, p, a1b0, b1)[b1..] == c[b1..]
  {
    MergedSorts(less, c, p, p, a1b0, b1);
    MergedFrame(less, c, p, a1b0, b1);
  }

  /** One merged pair of runs in front of what the rest of the pass achieves. */
  lemma MergesPair<K(!new)>(less: (K, K) -> bool, c: seq<ListElem<K>>, d: seq<ListElem<K>>, r: seq<ListElem<K>>, n: nat,
                            p: nat, a1b0: nat, b1: nat)
    requires 0 < p < a1b0 < b1 < |c| == |d| == |r|
    requires Sorted(less, c, p, a1b0) && Sorted(less, c, a1b0, b1) && less(c[a1b0].key, c[a1b0 - 1].key)
    requires b1 < |c| - 1 ==> less(c[b1].key, c[b1 - 1].key)
    requires Sorted(less, d, p, b1) && d[b1..] == c[b1..] && r[..b1] == d[..b1]
    requires MergesRuns(less, d, r, n, b1)
    ensures MergesRuns(less, c, r, n + 1, p)
  {
    var end := |c| - 1;
    assert forall i :: 0 <= i < b1 ==> r[i] == r[..b1][i] == d[..b1][i] == d[i];
    DescentsOfRun(less, r, p, b1);
    if b1 < end {
      forall i | b1 <= i < end
        ensures c[i] == d[i]
      {
        assert c[i] == c[b1..][i - b1] && d[i] == d[b1..][i - b1];
      }
      DescentsLocal(less, c, d, b1, end);
      DescentsSplit(less, c, p, a1b0, end);
      DescentsSplit(less, c, a1b0, b1, end);
      DescentsSplit(less, r, p, b1, end);
    }
  }

  /** A pass over the whole list is a stable rearrangement; it sorts the list if it outputs at most one run,
      and leaves strictly fewer descents otherwise. `c0` is the list before the first pass. */
  lemma PassProgress<K(!new)>(less: (K, K) -> bool, c0: seq<ListElem<K>>, c: seq<ListElem<K>>)
    requires StrictWeakOrder(less) && |c0| >= 2 && |c| >= 2
    requires StablePermutation(less, Interior(c0), Interior(c))
    ensures var (d, n) := Pass(less, c, 1);
            && d[0] == c[0] && d[|c| - 1] == c[|c| - 1]
            && StablePermutation(less, Interior(c0), Interior(d))
            && (n <= 1 ==> Sorted(less, d, 1, |c| - 1))
            && (n > 1 ==> Descents(less, d, 1, |c| - 1) < Descents(less, c, 1, |c| - 1))
  {
    PassIsStable(less, c, 1);
    PassMergesRuns(less, c, 1);
    var d := Pass(less, c, 1).0;
    assert d[0] == d[..1][0] && c[0] == c[..1][0];
    StableTransitive(less, Interior(c0), Interior(c), Interior(d));
  }

  lemma StableTransitive<K(!new)>(less: (K, K) -> bool, s: seq<ListElem<K>>, t: seq<ListElem<K>>, u: seq<ListElem<K>>)
    requires StablePermutation(less, s, t) && StablePermutation(less, t, u)
    ensures StablePermutation(less, s, u)
  {
  }

  /** What Uniq() yields if it has kept the nodes before `b`, is at `b`, and has set `moved` aside. */
  ghost function UniqRest<K>(less: (K, K) -> bool, c: seq<ListElem<K>>, b: nat, moved: seq<ListElem<K>>)
    : (seq<ListElem<K>>, seq<ListElem<K>>)
    requires 0 < b < |c| - 1
  {
    var r := Uniq(less, c[b..|c| - 1]);
    (c[1..b] + r.0, moved + r.1)
  }

  lemma UniqStart<K>(less: (K, K) -> bool, c: seq<ListElem<K>>)
    requires |c| > 2
    ensures UniqRest(less, c, 1, []) == Uniq(less, Interior(c))
  {
    var r := Uniq(less, Interior(c));
    assert c[1..1] + r.0 == r.0 && [] + r.1 == r.1;
  }

  lemma UniqEnd<K>(less: (K, K) -> bool, c: seq<ListElem<K>>, moved: seq<ListElem<K>>)
    requires |c| > 2
    ensures UniqRest(less, c, |c| - 2, moved) == (Interior(c), moved)
  {
    var b := |c| - 2;
    assert c[b..|c| - 1] == [c[b]];
    assert c[1..b] + [c[b]] == Interior(c) && moved + [] == moved;
  }

  lemma UniqStep<K>(less: (K, K) -> bool, c: seq<ListElem<K>>, b: nat, moved: seq<ListElem<K>>)
    requires 0 < b < |c| - 2
    ensures UniqRest(less, c, b, moved)
         == if Equivalent(less, c[b].key, c[b + 1].key)
            then UniqRest(less, c[..b + 1] + c[b + 2..], b, moved + [c[b + 1]])
            else UniqRest(less, c, b + 1, moved)
  {
    var s := c[b..|c| - 1];
    if Equivalent(less, c[b].key, c[b + 1].key) {
      var d := c[..b + 1] + c[b + 2..];
      assert d[b..|d| - 1] == [s[0]] + s[2..];
      assert d[1..b] == c[1..b];
      assert moved + ([s[1]] + Uniq(less, [s[0]] + s[2..]).1) == moved + [c[b + 1]] + Uniq(less, [s[0]] + s[2..]).1;
    } else {
      assert s[1..] == c[b + 1..|c| - 1];
      assert c[1..b] + ([s[0]] + Uniq(less, s[1..]).0) == c[1..b + 1] + Uniq(less, s[1..]).0;
    }
  }

  lemma ClassOfTwo<K>(less: (K, K) -> bool, a: ListElem<K>, b: ListElem<K>, r: seq<ListElem<K>>, k: K)
    ensures ClassOf(less, [a] + r, k) == ClassOf(less, [a], k) + ClassOf(less, r, k)
    ensures ClassOf(less, [a, b] + r, k) == ClassOf(less, [a], k) + ClassOf(less, [b], k) + ClassOf(less, r, k)
  {
    ClassOfConcat(less, [a], r, k);
    ClassOfConcat(less, [a, b], r, k);
    assert [a, b] == [a] + [b];
    ClassOfConcat(less, [a], [b], k);
  }

  /** On a sorted list, list_unique() keeps exactly the first element of each equivalence class, and the elements
      set aside are the others, in order. */
  lemma {:induction false} UniqKeepsFirsts<K(!new)>(less: (K, K) -> bool, s: seq<ListElem<K>>, k: K)
    requires StrictWeakOrder(less) && Sorted(less, s, 0, |s|)
    ensures ClassOf(less, Uniq(less, s).0, k) == ClassOf(less, s, k)[..if ClassOf(less, s, k) == [] then 0 else 1]
    ensures ClassOf(less, Uniq(less, s).0, k) + ClassOf(less, Uniq(less, s).1, k) == ClassOf(less, s, k)
    decreases |s|
  {
    if |s| < 2 {
    } else if Equivalent(less, s[0].key, s[1].key) {
      var t := [s[0]] + s[2..];
      UniqKeepsFirsts(less, t, k);
      UniqDropsSecond(less, s[0], s[1], s[2..], Uniq(less, t).0, Uniq(less, t).1, k);
      assert s == [s[0], s[1]] + s[2..];
    } else {
      assert forall i :: 0 <= i < |s[1..]| ==> s[1..][i] == s[i + 1];
      UniqKeepsFirsts(less, s[1..], k);
      forall i | 0 <= i < |s[1..]|
        ensures less(s[0].key, s[1..][i].key)
      {
        assert i == 0 || !less(s[i + 1].key, s[1].key);
      }
      UniqKeepsHead(less, s[0], s[1..], Uniq(less, s[1..]).0, Uniq(less, s[1..]).1, k);
      assert s == [s[0]] + s[1..];
    }
  }

  lemma UniqDropsSecond<K(!new)>(less: (K, K) -> bool, a: ListElem<K>, b: ListElem<K>, r: seq<ListElem<K>>,
                                 kept: seq<ListElem<K>>, dups: seq<ListElem<K>>, k: K)
    requires StrictWeakOrder(less) && Equivalent(less, a.key, b.key)
    requires var c := ClassOf(less, [a] + r, k);
             ClassOf(less, kept, k) == c[..if c == [] then 0 else 1]
               && ClassOf(less, kept, k) + ClassOf(less, dups, k) == c
    ensures var c := ClassOf(less, [a, b] + r, k);
            ClassOf(less, kept, k) == c[..if c == [] then 0 else 1]
              && ClassOf(less, kept, k) + ClassOf(less, [b] + dups, k) == c
  {
    ClassOfTwo(less, a, b, r, k);
    ClassOfConcat(less, [b], dups, k);
    if Equivalent(less, a.key, k) {
      assert Equivalent(less, b.key, k);
      assert ClassOf(less, [a] + r, k) == [a] + ClassOf(less, r, k);
      assert ClassOf(less, [a] + r, k)[1..] == ClassOf(less, r, k) == ClassOf(less, dups, k);
    } else {
      assert !Equivalent(less, b.key, k);
    }
  }

  lemma UniqKeepsHead<K(!new)>(less: (K, K) -> bool, a: ListElem<K>, r: seq<ListElem<K>>,
                               kept: seq<ListElem<K>>, dups: seq<ListElem<K>>, k: K)
    requires StrictWeakOrder(less) && forall n :: n in r ==> less(a.key, n.key)
    requires var c := ClassOf(less, r, k);
             ClassOf(less, kept, k) == c[..if c == [] then 0 else 1]
               && ClassOf(less, kept, k) + ClassOf(less, dups, k) == c
    ensures var c := ClassOf(less, [a] + r, k);
            ClassOf(less, [a] + kept, k) == c[..if c == [] then 0 else 1]
              && ClassOf(less, [a] + kept, k) + ClassOf(less, dups, k) == c
  {
    ClassOfConcat(less, [a], r, k);
    ClassOfConcat(less, [a], kept, k);
    if Equivalent(less, a.key, k) {
      ClassOfNone(less, r, k);
    }
  }

  lemma {:induction false} UniqHead<K>(less: (K, K) -> bool, s: seq<ListElem<K>>)
    requires |s| > 0
    ensures |Uniq(less, s).0| > 0 && Uniq(less, s).0[0] == s[0]
    decreases |s|
  {
    if |s| >= 2 && Equivalent(less, s[0].key, s[1].key) {
      UniqHead(less, [s[0]] + s[2..]);
    }
  }

  lemma NodesOfPair<T>(a: seq<T>, b: seq<T>, r: seq<T>, d: seq<T>)
    ensures multiset(a + b + r) == multiset(a + r) + multiset(b)
    ensures multiset(b + d) == multiset(b) + multiset(d)
  {
  }

  lemma {:induction false} UniqKeepsNodes<K>(less: (K, K) -> bool, s: seq<ListElem<K>>)
    ensures multiset(Uniq(less, s).0) + multiset(Uniq(less, s).1) == multiset(s)
    decreases |s|
  {
    if |s| >= 2 {
      if Equivalent(less, s[0].key, s[1].key) {
        UniqKeepsNodes(less, [s[0]] + s[2..]);
        assert s == [s[0]] + [s[1]] + s[2..];
        NodesOfPair([s[0]], [s[1]], s[2..], Uniq(less, [s[0]] + s[2..]).1);
      } else {
        UniqKeepsNodes(less, s[1..]);
        assert s == [s[0]] + s[1..];
      }
    }
  }

  /** The place list_insert_ordered() chooses keeps a sorted list sorted and is behind every equivalent element. */
  lemma InsertKeepsSorted<K(!new)>(less: (K, K) -> bool, s: seq<ListElem<K>>, e: ListElem<K>, p: nat)
    requires StrictWeakOrder(less) && Sorted(less, s, 0, |s|) && p <= |s|
    requires forall i :: 0 <= i < p ==> !less(e.key, s[i].key)
    requires p < |s| ==> less(e.key, s[p].key)
    ensures Sorted(less, s[..p] + [e] + s[p..], 0, |s| + 1)
    ensures ClassOf(less, s[..p] + [e] + s[p..], e.key) == ClassOf(less, s, e.key) + [e]
  {
    forall i | p <= i < |s|
      ensures less(e.key, s[i].key)
    {
      assert i == p || !less(s[i].key, s[p].key);
    }
    InsertSorts(less, s, e, p);
    InsertLastOfClass(less, s[..p], e, s[p..]);
    assert s == s[..p] + s[p..];
  }

  lemma InsertSorts<K(!new)>(less: (K, K) -> bool, s: seq<ListElem<K>>, e: ListElem<K>, p: nat)
    requires StrictWeakOrder(less) && Sorted(less, s, 0, |s|) && p <= |s|
    requires forall i :: 0 <= i < p ==> !less(e.key, s[i].key)
    requires forall i :: p <= i < |s| ==> less(e.key, s[i].key)
    ensures Sorted(less, s[..p] + [e] + s[p..], 0, |s| + 1)
  {
    var t := s[..p] + [e] + s[p..];
    assert forall i :: 0 <= i < |t| ==> t[i] == if i < p then s[i] else if i == p then e else s[i - 1];
  }

  lemma InsertLastOfClass<K(!new)>(less: (K, K) -> bool, a: seq<ListElem<K>>, e: ListElem<K>, b: seq<ListElem<K>>)
    requires StrictWeakOrder(less) && forall i :: 0 <= i < |b| ==> less(e.key, b[i].key)
    ensures ClassOf(less, a + [e] + b, e.key) == ClassOf(less, a + b, e.key) + [e]
  {
    ClassOfNone(less, b, e.key);
    ClassOfInside(less, a, [e], b, e.key);
    ClassOfConcat(less, a, b, e.key);
  }
}

/** lib/kernel/list.c: doubly linked lists with a head and a tail sentinel, on nodes linked in place.

    The functions of list.c take bare nodes, so every method here also takes, as ghosts, the chain of nodes
    that they are part of, head and tail included, and a set of nodes that contains the chain. */
module List {
  import opened Basics
  import opened Ordering
  import opened ListOrder

  /** The nodes of `c` are in `S`, are distinct, and point at each other, whatever the two ends point at. */
  ghost predicate Segment<K>(S: set<ListElem<K>>, c: seq<ListElem<K>>)
    reads S
  {
    && |c| >= 1
    && (forall i :: 0 <= i < |c| ==> c[i] in S)
    && (forall i, j :: 0 <= i < j < |c| ==> c[i] != c[j])
    && (forall i {:trigger c[i].next} :: 0 <= i < |c| - 1 ==> c[i].next == c[i + 1])
    && (forall i {:trigger c[i].prev} :: 0 < i < |c| ==> c[i].prev == c[i - 1])
  }

  /** The nodes of `c`, first to last, are a whole list: a head, the elements and a tail. */
  ghost predicate Linked<K>(S: set<ListElem<K>>, c: seq<ListElem<K>>)
    reads S
  {
    |c| >= 2 && Segment(S, c) && c[0].prev == null && c[|c| - 1].next == null
  }

  method Insert<K>(ghost S: set<ListElem<K>>, ghost c: seq<ListElem<K>>, ghost b: nat,
                   before: ListElem<K>, elem: ListElem<K>)
    returns (ghost c': seq<ListElem<K>>)
    requires Linked(S, c) && 0 < b < |c| && c[b] == before
    requires elem in S && elem !in c
    modifies S
    ensures c' == c[..b] + [elem] + c[b..] && Linked(S, c')
  {
    elem.prev := before.prev;
    elem.next := before;
    before.prev.next := elem;
    before.prev := elem;
    c' := c[..b] + [elem] + c[b..];
  }

  method Remove<K>(ghost S: set<ListElem<K>>, ghost c: seq<ListElem<K>>, ghost p: nat, elem: ListElem<K>)
    returns (next: ListElem<K>, ghost c': seq<ListElem<K>>)
    requires Linked(S, c) && 0 < p < |c| - 1 && c[p] == elem
    modifies S
    ensures c' == c[..p] + c[p + 1..] && Linked(S, c')
    ensures next == c[p + 1]
    ensures elem.prev == old(elem.prev) && elem.next == old(elem.next)
  {
    elem.prev.next := elem.next;
    elem.next.prev := elem.prev;
    c' := c[..p] + c[p + 1..];
    next := elem.next;
  }

  /** First half of list_splice(): cleanly remove FIRST...LAST (inclusive). */
  method Detach<K>(ghost S: set<ListElem<K>>, ghost c: seq<ListElem<K>>, ghost p: nat, ghost q: nat,
                   first: ListElem<K>, last: ListElem<K>)
    requires Linked(S, c) && 0 < p < q < |c| && c[p] == first && c[q - 1] == last
    modifies S
    ensures Linked(S, c[..p] + c[q..]) && Segment(S, c[p..q])
  {
    first.prev.next := last.next;
    last.next.prev := first.prev;
  }

  /** Second half of list_splice(): put FIRST...LAST (inclusive) just before BEFORE. */
  method Attach<K>(ghost S: set<ListElem<K>>, ghost c: seq<ListElem<K>>, ghost s: seq<ListElem<K>>, ghost b: nat,
                   before: ListElem<K>, first: ListElem<K>, last: ListElem<K>)
    requires Linked(S, c) && 0 < b < |c| && c[b] == before
    requires Segment(S, s) && s[0] == first && s[|s| - 1] == last
    requires forall i, j :: 0 <= i < |c| && 0 <= j < |s| ==> c[i] != s[j]
    modifies S
    ensures Linked(S, c[..b] + s + c[b..])
    ensures forall n :: n in S && n !in c && n !in s ==> n.prev == old(n.prev) && n.next == old(n.next)
  {
    first.prev := before.prev;
    last.next := before;
    before.prev.next := first;
    before.prev := last;
  }

  lemma CutApart<T>(c: seq<T>, p: nat, q: nat)
    requires p <= q <= |c| && forall i, j :: 0 <= i < j < |c| ==> c[i] != c[j]
    ensures forall i, j :: 0 <= i < |c[..p] + c[q..]| && 0 <= j < |c[p..q]| ==> (c[..p] + c[q..])[i] != c[p..q][j]
  {
  }

  method Splice<K>(ghost S: set<ListElem<K>>, ghost c: seq<ListElem<K>>, ghost b: nat, ghost p: nat, ghost q: nat,
                   before: ListElem<K>, first: ListElem<K>, last: ListElem<K>)
    returns (ghost c': seq<ListElem<K>>)
    requires Linked(S, c) && 0 < b < |c| && 0 < p <= q < |c|
    requires c[b] == before && c[p] == first && c[q] == last
    requires p < q ==> b < p || q <= b
    modifies S
    ensures c' == (if p == q then c else Moved(c, b, p, q))
    ensures Linked(S, c')
  {
    if first == last {
      return c;
    }
    var lastIn := last.prev;
    MovedTwice(c, b, p, q);
    CutApart(c, p, q);
    Detach(S, c, p, q, first, lastIn);
    ghost var rest, b' := c[..p] + c[q..], if b < p then b else b - (q - p);
    Attach(S, rest, c[p..q], b', before, first, lastIn);
    c' := Moved(c, b, p, q);
  }

  /** list_splice() from another list: FIRST up to LAST, which is not moved, go from `d` to just before BEFORE in
      `c`. */
  method SpliceOther<K>(ghost S: set<ListElem<K>>, ghost D: set<ListElem<K>>, ghost c: seq<ListElem<K>>,
                        ghost d: seq<ListElem<K>>, ghost b: nat, ghost p: nat, ghost q: nat,
                        before: ListElem<K>, first: ListElem<K>, last: ListElem<K>)
    returns (ghost c': seq<ListElem<K>>, ghost d': seq<ListElem<K>>)
    requires Linked(S, c) && Linked(D, d) && S !! D && 0 < b < |c| && 0 < p <= q < |d|
    requires c[b] == before && d[p] == first && d[q] == last
    modifies S, D
    ensures c' == c[..b] + d[p..q] + c[b..] && d' == d[..p] + d[q..]
    ensures Linked(S + D, c') && Linked(S + D, d')
  {
    c', d' := c[..b] + d[p..q] + c[b..], d[..p] + d[q..];
    if first == last {
      assert c' == c && d' == d;
      return;
    }
    var lastIn := last.prev;
    CutApart(d, p, q);
    Detach(D, d, p, q, first, lastIn);
    AttachOther(S, D, c, d', d[p..q], b, before, first, lastIn);
  }

  /** Attach() of nodes that were in another list, whose others are `d`. */
  method AttachOther<K>(ghost S: set<ListElem<K>>, ghost D: set<ListElem<K>>, ghost c: seq<ListElem<K>>,
                        ghost d: seq<ListElem<K>>, ghost s: seq<ListElem<K>>, ghost b: nat,
                        before: ListElem<K>, first: ListElem<K>, last: ListElem<K>)
    requires Linked(S, c) && Linked(D, d) && Segment(D, s) && S !! D && 0 < b < |c| && c[b] == before
    requires s[0] == first && s[|s| - 1] == last
    requires forall i, j :: 0 <= i < |d| && 0 <= j < |s| ==> d[i] != s[j]
    modifies S, D
    ensures Linked(S + D, c[..b] + s + c[b..]) && Linked(S + D, d)
  {
    Attach(S + D, c, s, b, before, first, last);
    assert forall i :: 0 <= i < |d| ==> d[i] in D && d[i] !in c && d[i] !in s;
  }

  // ---- list_sort ---------------------------------------------------------------------------

  method FindEndOfRun<K>(ghost S: set<ListElem<K>>, ghost c: seq<ListElem<K>>, ghost i: nat,
                         a: ListElem<K>, b: ListElem<K>, less: (K, K) -> bool)
    returns (r: ListElem<K>, ghost e: nat)
    requires Linked(S, c) && 0 < i < |c| - 1 && c[i] == a && c[|c| - 1] == b
    ensures e == RunEnd(less, c, i) && c[e] == r
  {
    r, e := a.next, i + 1;
    while r != b && !less(r.key, r.prev.key)
      invariant i < e < |c| && c[e] == r
      invariant RunEnd(less, c, i) == if e == |c| - 1 || less(c[e].key, c[e - 1].key) then e else RunEnd(less, c, e)
      decreases |c| - e
    {
      r, e := r.next, e + 1;
    }
  }

  /** Moves the node R to just before L and returns the node that followed it. */
  method MoveAhead<K>(ghost S: set<ListElem<K>>, ghost c: seq<ListElem<K>>, ghost x: nat, ghost y: nat,
                      l: ListElem<K>, r: ListElem<K>)
    returns (next: ListElem<K>, ghost c': seq<ListElem<K>>)
    requires Linked(S, c) && 0 < x < y < |c| - 1 && c[x] == l && c[y] == r
    modifies S
    ensures Linked(S, c') && c' == Ahead(c, x, y) && next == c[y + 1]
  {
    AheadIsMoved(c, x, y);
    next := r.next;
    assert next == c[y + 1] && next.prev == c[y];
    c' := Splice(S, c, x, y, y + 1, l, next.prev, next);
  }

  method InplaceMerge<K>(ghost S: set<ListElem<K>>, ghost c: seq<ListElem<K>>, ghost i: nat, ghost j: nat, ghost k: nat,
                         a0: ListElem<K>, a1b0: ListElem<K>, b1: ListElem<K>, less: (K, K) -> bool)
    returns (ghost c': seq<ListElem<K>>)
    requires Linked(S, c) && 0 < i < j < k < |c| && c[i] == a0 && c[j] == a1b0 && c[k] == b1
    modifies S
    ensures Linked(S, c') && c' == Merged(less, c, i, j, k)
  {
    c' := c;
    var l, r := a0, a1b0;
    ghost var x, y := i, j;
    while l != r && r != b1
      invariant Linked(S, c') && |c'| == |c|
      invariant 0 < x <= y <= k && c'[x] == l && c'[y] == r && c'[k] == b1
      invariant Merged(less, c', x, y, k) == Merged(less, c, i, j, k)
      decreases k - x
    {
      if !less(r.key, l.key) {
        l, x := l.next, x + 1;
      } else {
        ghost var d;
        r, d := MoveAhead(S, c', x, y, l, r);
        c', x, y := d, x + 1, y + 1;
      }
    }
  }

  /** The body of the inner loop of list_sort(): merges the two runs from A0 on, unless there is only one. */
  method MergeTwoRuns<K>(ghost S: set<ListElem<K>>, ghost c: seq<ListElem<K>>, ghost p: nat,
                         a0: ListElem<K>, tail: ListElem<K>, less: (K, K) -> bool)
    returns (lastRun: bool, b1: ListElem<K>, ghost k: nat, ghost d: seq<ListElem<K>>)
    requires Linked(S, c) && 0 < p < |c| - 1 && c[p] == a0 && c[|c| - 1] == tail
    modifies S
    ensures Linked(S, d) && |d| == |c| && p < k < |d| && d[k] == b1 && d[|d| - 1] == tail
    ensures Pass(less, c, p) == if lastRun then (d, 1) else (Pass(less, d, k).0, 1 + Pass(less, d, k).1)
  {
    var a1b0;
    ghost var j;
    a1b0, j := FindEndOfRun(S, c, p, a0, tail, less);
    if a1b0 == tail {
      return true, tail, |c| - 1, c;
    }
    b1, k := FindEndOfRun(S, c, j, a1b0, tail, less);
    MergedFrame(less, c, p, j, k);
    SuffixAt(c, Merged(less, c, p, j, k), k);
    d := InplaceMerge(S, c, p, j, k, a0, a1b0, b1, less);
    lastRun := false;
  }

  /** One pass of list_sort() over the whole chain. */
  method SortPass<K>(ghost S: set<ListElem<K>>, ghost c: seq<ListElem<K>>,
                     head: ListElem<K>, tail: ListElem<K>, less: (K, K) -> bool)
    returns (outputRunCnt: nat, ghost c': seq<ListElem<K>>)
    requires Linked(S, c) && c[0] == head && c[|c| - 1] == tail
    modifies S
    ensures Linked(S, c') && c' == Pass(less, c, 1).0 && outputRunCnt == Pass(less, c, 1).1
  {
    c', outputRunCnt := c, 0;
    var a0 := head.next;
    ghost var p := 1;
    while a0 != tail
      invariant Linked(S, c') && |c'| == |c|
      invariant 0 < p < |c'| && c'[p] == a0 && c'[|c'| - 1] == tail
      invariant Pass(less, c, 1).0 == Pass(less, c', p).0
      invariant Pass(less, c, 1).1 == outputRunCnt + Pass(less, c', p).1
      decreases |c'| - p
    {
      outputRunCnt := outputRunCnt + 1;
      var lastRun;
      lastRun, a0, p, c' := MergeTwoRuns(S, c', p, a0, tail, less);
      if lastRun {
        return;
      }
    }
  }

  /** The chain `c` in reverse but for its two ends. */
  lemma ReversedLinked<K>(S: set<ListElem<K>>, c: seq<ListElem<K>>, d: seq<ListElem<K>>)
    requires |c| >= 3 && d == [c[0]] + Reversed(Interior(c)) + [c[|c| - 1]]
    requires forall i :: 0 <= i < |c| ==> c[i] in S
    requires forall i, j :: 0 <= i < j < |c| ==> c[i] != c[j]
    requires var n := |c|;
             && c[0].prev == null && c[0].next == c[n - 2] && c[n - 1].next == null && c[n - 1].prev == c[1]
             && (forall i {:trigger c[i].next} :: 0 < i < n - 1 ==> c[i].next == if i == 1 then c[n - 1] else c[i - 1])
             && (forall i {:trigger c[i].prev} :: 0 < i < n - 1 ==> c[i].prev == if i == n - 2 then c[0] else c[i + 1])
    ensures Linked(S, d)
  {
    var n := |c|;
    assert forall i :: 0 <= i < n ==> d[i] == c[Mirrored(i, n)];
    forall i | 0 <= i < n - 1
      ensures d[i].next == d[i + 1]
    {
      assert d[i] == c[Mirrored(i, n)] && d[i + 1] == c[Mirrored(i + 1, n)];
    }
    forall i | 0 < i < n
      ensures d[i].prev == d[i - 1]
    {
      assert d[i] == c[Mirrored(i, n)] && d[i - 1] == c[Mirrored(i - 1, n)];
    }
  }

  ghost function Mirrored(i: int, n: int): int {
    if 0 < i < n - 1 then n - 1 - i else i
  }

  class List<K(!new)> {
    const head: ListElem<K>
    const tail: ListElem<K>
    ghost var nodes: set<ListElem<K>>
    ghost var chain: seq<ListElem<K>>

    ghost predicate Valid()
      reads this, nodes
    {
      Linked(nodes, chain) && chain[0] == head && chain[|chain| - 1] == tail
    }

    /** The elements of the list, front to back. */
    ghost function Elems(): seq<ListElem<K>>
      requires |chain| >= 2
      reads this
    {
      Interior(chain)
    }

    constructor (filler: K)
      ensures Valid() && fresh(nodes) && Elems() == []
    {
      head := new ListElem(filler);
      tail := new ListElem(filler);
      new;
      head.next := tail;
      tail.prev := head;
      chain, nodes := [head, tail], {head, tail};
    }

    method PushBack(elem: ListElem<K>)
      requires Valid() && elem !in nodes
      modifies this, nodes, elem
      ensures Valid() && nodes == old(nodes) + {elem} && Elems() == old(Elems()) + [elem]
    {
      nodes := nodes + {elem};
      chain := Insert(nodes, chain, |chain| - 1, tail, elem);
    }

    method PopFront() returns (front: ListElem<K>)
      requires Valid() && Elems() != []
      modifies this, nodes
      ensures Valid() && nodes == old(nodes) - {front} && [front] + Elems() == old(Elems())
    {
      front := head.next;
      ghost var was := chain;
      var _, c := Remove(nodes, was, 1, front);
      assert [front] + c[1..|c| - 1] == was[1..|was| - 1];
      chain, nodes := c, nodes - {front};
    }

    /** Afterwards ELEM stands after every element before the first one that it is less than. */
    method InsertOrdered(elem: ListElem<K>, less: (K, K) -> bool) returns (ghost p: nat)
      requires Valid() && elem !in nodes
      modifies this, nodes, elem
      ensures Valid() && nodes == old(nodes) + {elem} && p <= |old(Elems())|
      ensures Elems() == old(Elems())[..p] + [elem] + old(Elems())[p..]
      ensures forall i :: 0 <= i < p ==> !less(elem.key, old(Elems())[i].key)
      ensures p < |old(Elems())| ==> less(elem.key, old(Elems())[p].key)
    {
      var e := head.next;
      ghost var b := 1;
      while e != tail && !less(elem.key, e.key)
        invariant 0 < b < |chain| && chain[b] == e
        invariant forall i :: 1 <= i < b ==> !less(elem.key, chain[i].key)
        decreases |chain| - b
      {
        e, b := e.next, b + 1;
      }
      InteriorInsert(chain, b, elem);
      nodes := nodes + {elem};
      chain := Insert(nodes, chain, b, e, elem);
      p := b - 1;
    }

    method Sort(less: (K, K) -> bool)
      requires Valid() && StrictWeakOrder(less)
      modifies this, nodes
      ensures Valid() && nodes == old(nodes)
      ensures Sorted(less, Elems(), 0, |Elems()|)
      ensures StablePermutation(less, old(Elems()), Elems())
    {
      var outputRunCnt := 2;
      while outputRunCnt > 1
        invariant Valid() && nodes == old(nodes)
        invariant StablePermutation(less, Interior(old(chain)), Interior(chain))
        invariant outputRunCnt <= 1 ==> Sorted(less, chain, 1, |chain| - 1)
        decreases outputRunCnt > 1, Descents(less, chain, 1, |chain| - 1)
      {
        outputRunCnt := SortOnce(less, old(chain));
      }
    }

    /** One turn of the loop of list_sort(); `c0` is the chain before the first. */
    method SortOnce(less: (K, K) -> bool, ghost c0: seq<ListElem<K>>) returns (outputRunCnt: nat)
      requires Valid() && StrictWeakOrder(less) && |c0| >= 2 && StablePermutation(less, Interior(c0), Interior(chain))
      modifies this, nodes
      ensures Valid() && nodes == old(nodes) && |chain| == |old(chain)|
      ensures StablePermutation(less, Interior(c0), Interior(chain))
      ensures outputRunCnt <= 1 ==> Sorted(less, chain, 1, |chain| - 1)
      ensures outputRunCnt > 1 ==> Descents(less, chain, 1, |chain| - 1) < Descents(less, old(chain), 1, |chain| - 1)
    {
      PassProgress(less, c0, chain);
      outputRunCnt, chain := SortPass(nodes, chain, head, tail, less);
    }

    /** The loop of list_reverse(). */
    method SwapLinks()
      requires Valid()
      modifies nodes
      ensures var c, n := chain, |chain|;
              && head.prev == null && head.next == c[1] && tail.next == null && tail.prev == c[n - 2]
              && (forall i {:trigger c[i].next} :: 0 < i < n - 1 ==> c[i].next == c[i - 1])
              && (forall i {:trigger c[i].prev} :: 0 < i < n - 1 ==> c[i].prev == c[i + 1])
    {
      ghost var c, n := chain, |chain|;
      var e := head.next;
      ghost var b := 1;
      while e != tail
        invariant 0 < b < n && c[b] == e
        invariant head.prev == null && head.next == c[1] && tail.next == null && tail.prev == c[n - 2]
        invariant forall i {:trigger c[i].next} :: 0 < i < n - 1 ==> c[i].next == if i < b then c[i - 1] else c[i + 1]
        invariant forall i {:trigger c[i].prev} :: 0 < i < n - 1 ==> c[i].prev == if i < b then c[i + 1] else c[i - 1]
        decreases n - b
      {
        e.prev, e.next := e.next, e.prev;
        e, b := e.prev, b + 1;
      }
    }

    /** The rest of list_reverse(). */
    method SwapEnds()
      requires |chain| >= 3 && chain[0] == head && chain[|chain| - 1] == tail
      requires forall i :: 0 <= i < |chain| ==> chain[i] in nodes
      requires forall i, j :: 0 <= i < j < |chain| ==> chain[i] != chain[j]
      requires var c, n := chain, |chain|;
               && head.prev == null && head.next == c[1] && tail.next == null && tail.prev == c[n - 2]
               && (forall i {:trigger c[i].next} :: 0 < i < n - 1 ==> c[i].next == c[i - 1])
               && (forall i {:trigger c[i].prev} :: 0 < i < n - 1 ==> c[i].prev == c[i + 1])
      modifies nodes
      ensures var c, n := chain, |chain|;
              && head.prev == null && head.next == c[n - 2] && tail.next == null && tail.prev == c[1]
              && (forall i {:trigger c[i].next} :: 0 < i < n - 1 ==> c[i].next == if i == 1 then tail else c[i - 1])
              && (forall i {:trigger c[i].prev} :: 0 < i < n - 1 ==> c[i].prev == if i == n - 2 then head else c[i + 1])
    {
      head.next, tail.prev := tail.prev, head.next;
      head.next.prev, tail.prev.next := tail.prev.next, head.next.prev;
    }

    method Reverse()
      requires Valid()
      modifies this, nodes
      ensures Valid() && nodes == old(nodes) && Elems() == Reversed(old(Elems()))
    {
      if head.next != tail {
        ghost var c := chain;
        SwapLinks();
        SwapEnds();
        chain := [head] + Reversed(Interior(c)) + [tail];
        ReversedLinked(nodes, c, chain);
      }
    }

    /** The removal step of list_unique(). */
    method SetAside(ghost p: nat, next: ListElem<K>, duplicates: List?<K>)
      requires Valid() && 0 < p < |chain| - 1 && chain[p] == next
      requires duplicates != null ==> duplicates.Valid() && duplicates != this && nodes !! duplicates.nodes
      modifies this, nodes
      modifies duplicates, if duplicates == null then {} else duplicates.nodes
      ensures Valid() && nodes == old(nodes) - {next} && chain == old(chain)[..p] + old(chain)[p + 1..]
      ensures duplicates != null ==>
                && duplicates.Valid() && duplicates.nodes == old(duplicates.nodes) + {next}
                && duplicates.Elems() == old(duplicates.Elems()) + [next]
    {
      var _, c := Remove(nodes, chain, p, next);
      chain, nodes := c, nodes - {next};
      if duplicates != null {
        duplicates.PushBack(next);
      }
    }

    /** Moves all but the first of each group of adjacent equivalent elements to DUPLICATES, or drops them if
        there is no such list. */
    method Unique(duplicates: List?<K>, less: (K, K) -> bool)
      requires Valid()
      requires duplicates != null ==> duplicates.Valid() && duplicates != this && nodes !! duplicates.nodes
      modifies this, nodes
      modifies duplicates, if duplicates == null then {} else duplicates.nodes
      ensures Valid() && Elems() == Uniq(less, old(Elems())).0
      ensures duplicates != null ==>
                duplicates.Valid() && duplicates.Elems() == old(duplicates.Elems()) + Uniq(less, old(Elems())).1
    {
      if head.next == tail {
        return;
      }
      var elem := head.next;
      ghost var b, moved: seq<ListElem<K>> := 1, [];
      UniqStart(less, chain);
      while elem.next != tail
        invariant Valid() && 0 < b < |chain| - 1 && chain[b] == elem && nodes <= old(nodes)
        invariant Uniq(less, Interior(old(chain))) == UniqRest(less, chain, b, moved)
        invariant duplicates != null ==>
                    && duplicates.Valid() && duplicates.Elems() == old(duplicates.Elems()) + moved
                    && duplicates.nodes <= old(duplicates.nodes) + (old(nodes) - nodes) && nodes !! duplicates.nodes
        decreases |chain| - b
      {
        var next := elem.next;
        UniqStep(less, chain, b, moved);
        if !less(elem.key, next.key) && !less(next.key, elem.key) {
          SetAside(b + 1, next, duplicates);
          moved := moved + [next];
        } else {
          elem, b := next, b + 1;
        }
      }
      UniqEnd(less, chain, moved);
    }
  }
}

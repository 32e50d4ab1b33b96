/** lib/stdlib.c: sort(), which is a heapsort in place, and binary_search(). Elements are numbered from 1, as in the
    heap's arithmetic. */
module Heapsort {
  import opened Basics
  import Arithmetic

  /** What the callers of sort() promise: `compare` returns a strcmp()-type result for one order. */
  ghost predicate TotalPreorder<T(!new)>(compare: (T, T) -> int) {
    && (forall a, b :: compare(a, b) < 0 <==> compare(b, a) > 0)
    && (forall a, b, c :: compare(a, b) <= 0 && compare(b, c) <= 0 ==> compare(a, c) <= 0)
  }

  ghost predicate Sorted<T(!new)>(s: seq<T>, compare: (T, T) -> int) {
    forall i, j :: 0 <= i <= j < |s| ==> compare(s[i], s[j]) <= 0
  }

  /** Element `j` is not above element `p`. */
  ghost predicate Under<T(!new)>(s: seq<T>, j: int, p: int, compare: (T, T) -> int)
    requires 1 <= j <= |s| && 1 <= p <= |s|
  {
    compare(s[j - 1], s[p - 1]) <= 0
  }

  /** From element `lo` on, each of the first `cnt` elements is at least its children. */
  ghost predicate Heap<T(!new)>(s: seq<T>, lo: int, cnt: int, compare: (T, T) -> int)
    requires 1 <= lo && cnt <= |s|
  {
    forall j {:trigger Look(j)} :: lo <= j / 2 && 2 <= j <= cnt ==> Under(s, j, j / 2, compare)
  }

  /** The same except perhaps at element `i`, whose children are still below its parent. */
  ghost predicate HeapButAt<T(!new)>(s: seq<T>, lo: int, cnt: int, compare: (T, T) -> int, i: int)
    requires 1 <= lo && cnt <= |s|
  {
    forall j {:trigger Look(j)} :: lo <= j / 2 && 2 <= j <= cnt ==>
      && (j / 2 != i ==> Under(s, j, j / 2, compare))
      && (j / 2 == i && lo <= i / 2 ==> Under(s, j, i / 2, compare))
  }

  // ---- heapify() -----------------------------------------------------------------------------

  /** The index of the largest among element `i` and its children. */
  function Largest<T(!new)>(s: seq<T>, i: int, cnt: int, compare: (T, T) -> int): (m: int)
    requires 1 <= i <= cnt <= |s|
    ensures m == i || (m / 2 == i && m <= cnt)
  {
    var m := if 2 * i <= cnt && compare(s[2 * i - 1], s[i - 1]) > 0 then 2 * i else i;
    if 2 * i + 1 <= cnt && compare(s[2 * i], s[m - 1]) > 0 then 2 * i + 1 else m
  }

  /** do_swap(). */
  function Swap<T>(s: seq<T>, i: int, j: int): (r: seq<T>)
    requires 1 <= i <= |s| && 1 <= j <= |s|
    ensures |r| == |s| && multiset(r) == multiset(s)
  {
    s[i - 1 := s[j - 1]][j - 1 := s[i - 1]]
  }

  /** heapify(): float element `i` down. */
  function Sift<T(!new)>(s: seq<T>, i: int, cnt: int, compare: (T, T) -> int): (r: seq<T>)
    requires 1 <= i <= cnt <= |s|
    ensures |r| == |s| && multiset(r) == multiset(s) && r[cnt..] == s[cnt..]
    decreases cnt - i
  {
    var m := Largest(s, i, cnt, compare);
    if m == i then s else Sift(Swap(s, i, m), m, cnt, compare)
  }

  lemma LargestIsMax<T(!new)>(s: seq<T>, i: int, cnt: int, compare: (T, T) -> int, j: int)
    requires TotalPreorder(compare) && 1 <= i <= cnt <= |s| && (j == i || (j / 2 == i && j <= cnt))
    ensures Under(s, j, Largest(s, i, cnt, compare), compare)
  {
    var m := if 2 * i <= cnt && compare(s[2 * i - 1], s[i - 1]) > 0 then 2 * i else i;
    assert Under(s, i, m, compare) && (2 * i <= cnt ==> Under(s, 2 * i, m, compare));
  }

  /** Swapping element `i` with its largest child leaves only that child out of order. */
  lemma SwapDown<T(!new)>(s: seq<T>, lo: int, i: int, cnt: int, compare: (T, T) -> int, m: int)
    requires TotalPreorder(compare) && 1 <= lo <= i <= cnt <= |s| && HeapButAt(s, lo, cnt, compare, i)
    requires m == Largest(s, i, cnt, compare) != i
    ensures HeapButAt(Swap(s, i, m), lo, cnt, compare, m)
  {
    var s' := Swap(s, i, m);
    forall j | lo <= j / 2 && 2 <= j <= cnt
      ensures j / 2 != m ==> Under(s', j, j / 2, compare)
      ensures j / 2 == m && lo <= m / 2 ==> Under(s', j, m / 2, compare)
    {
      assert Look(j) && Look(m);
      if j / 2 == i {
        LargestIsMax(s, i, cnt, compare, j);
        LargestIsMax(s, i, cnt, compare, i);
      }
    }
  }

  /** heapify() restores the heap at `i`, given that it holds below. */
  lemma {:induction false} SiftRestores<T(!new)>(s: seq<T>, lo: int, i: int, cnt: int, compare: (T, T) -> int)
    requires TotalPreorder(compare) && 1 <= lo <= i <= cnt <= |s| && HeapButAt(s, lo, cnt, compare, i)
    ensures Heap(Sift(s, i, cnt, compare), lo, cnt, compare)
    decreases cnt - i
  {
    var m := Largest(s, i, cnt, compare);
    if m == i {
      forall j | lo <= j / 2 && 2 <= j <= cnt
        ensures Under(s, j, j / 2, compare)
      {
        assert Look(j);
        if j / 2 == i {
          LargestIsMax(s, i, cnt, compare, j);
        }
      }
    } else {
      SwapDown(s, lo, i, cnt, compare, m);
      SiftRestores(Swap(s, i, m), lo, m, cnt, compare);
    }
  }

  /** What bounds the first `cnt` elements bounds them afterwards. */
  lemma {:induction false} SiftBound<T(!new)>(s: seq<T>, i: int, cnt: int, compare: (T, T) -> int, x: T)
    requires 1 <= i <= cnt <= |s| && forall k :: 0 <= k < cnt ==> compare(s[k], x) <= 0
    ensures forall k :: 0 <= k < cnt ==> compare(Sift(s, i, cnt, compare)[k], x) <= 0
    decreases cnt - i
  {
    var m := Largest(s, i, cnt, compare);
    if m != i {
      SiftBound(Swap(s, i, m), m, cnt, compare, x);
    }
  }

  method DoSwap<T>(a: array<T>, i: int, j: int)
    requires 1 <= i <= a.Length && 1 <= j <= a.Length
    modifies a
    ensures a[..] == Swap(old(a[..]), i, j)
  {
    a[i - 1], a[j - 1] := a[j - 1], a[i - 1];
  }

  /** Bytes as elements of `size` bytes each. */
  ghost function Elements(bytes: seq<int>, size: nat): seq<seq<int>>
    requires 0 < size && |bytes| % size == 0
  {
    seq(|bytes| / size, k requires 0 <= k < |bytes| / size => ElementAt(bytes, size, k))
  }

  ghost function ElementAt(bytes: seq<int>, size: nat, k: int): (e: seq<int>)
    requires 0 < size && 0 <= k < |bytes| / size
    ensures |e| == size
  {
    ElementPlace(|bytes|, size, k, k);
    bytes[k * size..k * size + size]
  }

  lemma ElementPlace(n: nat, size: nat, k: int, l: int)
    requires 0 < size && 0 <= k < n / size
    ensures 0 <= k * size && k * size + size <= n
    ensures k == l || k * size + size <= l * size || l * size + size <= k * size
  {
    Arithmetic.DivideBack(n, size);
    Arithmetic.MulMono(0, k, size);
    Arithmetic.MulMono(k + 1, n / size, size);
    Arithmetic.MulSteps(k, size);
    Arithmetic.MulSteps(l, size);
    if k < l {
      Arithmetic.MulMono(k + 1, l, size);
    } else {
      Arithmetic.MulMono(l + 1, k + 1, size);
      if l < k {
        Arithmetic.MulMono(l + 1, k, size);
      }
    }
  }

  /** The bytes with `size` bytes from `a` on and from `b` on exchanged, as far as `n` of them. */
  ghost predicate Exchanged(was: seq<int>, now: seq<int>, a: int, b: int, n: int) {
    && |now| == |was| && 0 <= a && 0 <= b && 0 <= n && a + n <= |was| && b + n <= |was|
    && forall x {:trigger now[x]} :: 0 <= x < |was| ==>
         now[x] == if a <= x < a + n then was[x - a + b] else if b <= x < b + n then was[x - b + a] else was[x]
  }

  lemma ExchangedMore(was: seq<int>, now: seq<int>, a: int, b: int, n: int, size: int)
    requires Exchanged(was, now, a, b, n) && n < size && a + size <= |was| && b + size <= |was|
    requires a == b || a + size <= b || b + size <= a
    ensures Exchanged(was, now[a + n := now[b + n]][b + n := now[a + n]], a, b, n + 1)
  {
    var now' := now[a + n := now[b + n]][b + n := now[a + n]];
    assert now[a + n] == was[a + n] && now[b + n] == was[b + n];
    forall x | 0 <= x < |was|
      ensures now'[x] == if a <= x < a + n + 1 then was[x - a + b] else if b <= x < b + n + 1 then was[x - b + a]
              else was[x]
    {
      assert now[x] == if a <= x < a + n then was[x - a + b] else if b <= x < b + n then was[x - b + a] else was[x];
    }
  }

  /** do_swap() as it is: byte by byte, on elements of any size. */
  method SwapBytes(bytes: array<int>, i: int, j: int, size: nat)
    requires 0 < size && bytes.Length % size == 0 && 1 <= i <= bytes.Length / size && 1 <= j <= bytes.Length / size
    modifies bytes
    ensures Elements(bytes[..], size) == Swap(old(Elements(bytes[..], size)), i, j)
  {
    var a, b := (i - 1) * size, (j - 1) * size;
    ElementPlace(bytes.Length, size, i - 1, j - 1);
    ElementPlace(bytes.Length, size, j - 1, i - 1);
    ghost var was := bytes[..];
    ExchangeBytes(bytes, a, b, size);
    ExchangedElements(was, bytes[..], i, j, a, b, size);
  }

  method ExchangeBytes(bytes: array<int>, a: int, b: int, size: nat)
    requires 0 <= a && 0 <= b && a + size <= bytes.Length && b + size <= bytes.Length
    requires a == b || a + size <= b || b + size <= a
    modifies bytes
    ensures Exchanged(old(bytes[..]), bytes[..], a, b, size)
  {
    ghost var was := bytes[..];
    var k := 0;
    while k < size
      invariant 0 <= k <= size && Exchanged(was, bytes[..], a, b, k)
    {
      ghost var now := bytes[..];
      ExchangedMore(was, now, a, b, k, size);
      var t := bytes[a + k];
      bytes[a + k] := bytes[b + k];
      bytes[b + k] := t;
      assert bytes[..] == now[a + k := now[b + k]][b + k := now[a + k]];
      k := k + 1;
    }
  }

  /** What is at `c`, a place of its own or one of the two exchanged. */
  lemma PieceExchanged(was: seq<int>, now: seq<int>, a: int, b: int, c: int, size: nat)
    requires Exchanged(was, now, a, b, size) && 0 <= c && c + size <= |was|
    requires a == b || a + size <= b || b + size <= a
    requires (c == a || a + size <= c || c + size <= a) && (c == b || b + size <= c || c + size <= b)
    ensures now[c..c + size] == if c == a then was[b..b + size] else if c == b then was[a..a + size]
            else was[c..c + size]
  {
    var d := if c == a then b else if c == b then a else c;
    forall x | c <= x < c + size
      ensures now[x] == was[x - c + d]
    {
    }
  }

  lemma ExchangedElements(was: seq<int>, now: seq<int>, i: int, j: int, a: int, b: int, size: nat)
    requires 0 < size && |was| % size == 0 && 1 <= i <= |was| / size && 1 <= j <= |was| / size
    requires a == (i - 1) * size && b == (j - 1) * size && Exchanged(was, now, a, b, size)
    ensures Elements(now, size) == Swap(Elements(was, size), i, j)
  {
    forall k | 0 <= k < |was| / size
      ensures ElementAt(now, size, k)
              == ElementAt(was, size, if k == i - 1 then j - 1 else if k == j - 1 then i - 1 else k)
    {
      ElementExchanged(was, now, i, j, a, b, size, k);
    }
  }

  lemma ElementExchanged(was: seq<int>, now: seq<int>, i: int, j: int, a: int, b: int, size: nat, k: int)
    requires 0 < size && 1 <= i <= |was| / size && 1 <= j <= |was| / size && 0 <= k < |was| / size
    requires a == (i - 1) * size && b == (j - 1) * size && Exchanged(was, now, a, b, size)
    ensures ElementAt(now, size, k)
            == ElementAt(was, size, if k == i - 1 then j - 1 else if k == j - 1 then i - 1 else k)
  {
    ElementPlace(|was|, size, k, i - 1);
    ElementPlace(|was|, size, k, j - 1);
    ElementPlace(|was|, size, i - 1, j - 1);
    PieceExchanged(was, now, a, b, k * size, size);
  }

  /** The first half of heapify()'s loop. */
  method FindLargest<T(!new)>(a: array<T>, i: int, cnt: int, compare: (T, T) -> int) returns (max: int)
    requires 1 <= i <= cnt <= a.Length
    ensures max == Largest(a[..], i, cnt, compare)
  {
    var left, right := 2 * i, 2 * i + 1;
    max := i;
    if left <= cnt && compare(a[left - 1], a[max - 1]) > 0 {
      max := left;
    }
    if right <= cnt && compare(a[right - 1], a[max - 1]) > 0 {
      max := right;
    }
  }

  method Heapify<T(!new)>(a: array<T>, start: int, cnt: int, compare: (T, T) -> int)
    requires 1 <= start <= cnt <= a.Length
    modifies a
    ensures a[..] == Sift(old(a[..]), start, cnt, compare)
  {
    ghost var goal := Sift(a[..], start, cnt, compare);
    var i := start;
    while true
      invariant 1 <= i <= cnt && Sift(a[..], i, cnt, compare) == goal
      decreases cnt - i
    {
      var max := FindLargest(a, i, cnt, compare);
      if max == i {
        break;
      }
      DoSwap(a, i, max);
      i := max;
    }
  }

  // ---- sort() --------------------------------------------------------------------------------

  /** The root of a heap is its largest element. */
  lemma {:induction false} RootIsMax<T(!new)>(s: seq<T>, cnt: int, compare: (T, T) -> int, j: int)
    requires TotalPreorder(compare) && 1 <= j <= cnt <= |s| && Heap(s, 1, cnt, compare)
    ensures Under(s, j, 1, compare)
    decreases j
  {
    if j > 1 {
      assert Look(j);
      RootIsMax(s, cnt, compare, j / 2);
    }
  }

  lemma BuildStep<T(!new)>(s: seq<T>, i: int, compare: (T, T) -> int)
    requires TotalPreorder(compare) && 1 <= i <= |s| && Heap(s, i + 1, |s|, compare)
    ensures Heap(Sift(s, i, |s|, compare), i, |s|, compare)
  {
    forall j | i <= j / 2 && 2 <= j <= |s|
      ensures j / 2 != i ==> Under(s, j, j / 2, compare)
    {
      assert Look(j);
    }
    SiftRestores(s, i, i, |s|, compare);
  }

  /** The first `i` elements are a heap and the others are in their final places. */
  ghost predicate Stage<T(!new)>(s: seq<T>, i: int, compare: (T, T) -> int)
    requires 0 <= i <= |s|
  {
    && Heap(s, 1, i, compare)
    && (forall j, k :: 0 <= j <= k < |s| && i <= k ==> compare(s[j], s[k]) <= 0)
  }

  lemma RemoveRootHeap<T(!new)>(s: seq<T>, i: int, compare: (T, T) -> int)
    requires TotalPreorder(compare) && 2 <= i <= |s| && Heap(s, 1, i, compare)
    ensures Heap(Sift(Swap(s, 1, i), 1, i - 1, compare), 1, i - 1, compare)
  {
    var t := Swap(s, 1, i);
    forall j | 1 <= j / 2 && 2 <= j <= i - 1
      ensures j / 2 != 1 ==> Under(t, j, j / 2, compare)
    {
      assert Look(j);
    }
    SiftRestores(t, 1, 1, i - 1, compare);
  }

  lemma RemoveRoot<T(!new)>(s: seq<T>, i: int, compare: (T, T) -> int, s': seq<T>)
    requires TotalPreorder(compare) && 2 <= i <= |s| && Stage(s, i, compare)
    requires s' == Sift(Swap(s, 1, i), 1, i - 1, compare)
    ensures Stage(s', i - 1, compare)
  {
    RemoveRootHeap(s, i, compare);
    forall j, k | 0 <= j <= k < |s| && i - 1 <= k
      ensures compare(s'[j], s'[k]) <= 0
    {
      PlacedMax(s, i, compare, k);
      SiftKeepsMax(Swap(s, 1, i), i - 1, compare, s', j, k);
    }
  }

  /** An element beyond the heap that is at least all before it stays so. */
  lemma SiftKeepsMax<T(!new)>(t: seq<T>, n: int, compare: (T, T) -> int, t': seq<T>, j: int, k: int)
    requires 1 <= n <= |t| && t' == Sift(t, 1, n, compare) && 0 <= j <= k < |t| && n <= k
    requires forall i :: 0 <= i <= k ==> compare(t[i], t[k]) <= 0
    ensures compare(t'[j], t'[k]) <= 0
  {
    assert t'[k] == t'[n..][k - n] == t[n..][k - n];
    if j >= n {
      assert t'[j] == t'[n..][j - n] == t[n..][j - n];
    } else {
      SiftBound(t, 1, n, compare, t[k]);
    }
  }

  /** After the swap, each element from the old heap's last place on is at least all before it. */
  lemma PlacedMax<T(!new)>(s: seq<T>, i: int, compare: (T, T) -> int, k: int)
    requires TotalPreorder(compare) && 2 <= i <= |s| && Stage(s, i, compare) && i - 1 <= k < |s|
    ensures forall j :: 0 <= j <= k ==> compare(Swap(s, 1, i)[j], Swap(s, 1, i)[k]) <= 0
  {
    var t := Swap(s, 1, i);
    forall j | 0 <= j <= k
      ensures compare(t[j], t[k]) <= 0
    {
      var j' := if j == 0 then i - 1 else if j == i - 1 then 0 else j;
      if k == i - 1 {
        RootIsMax(s, i, compare, j' + 1);
      } else {
        assert compare(s[j'], s[k]) <= 0;
      }
    }
  }

  /** sort(). */
  method Sort<T(!new)>(a: array<T>, compare: (T, T) -> int)
    requires TotalPreorder(compare)
    modifies a
    ensures Sorted(a[..], compare) && multiset(a[..]) == multiset(old(a[..]))
  {
    BuildHeap(a, compare);
    var i := a.Length;
    while i > 1
      invariant 0 <= i <= a.Length && Stage(a[..], i, compare) && multiset(a[..]) == multiset(old(a[..]))
    {
      PlaceRoot(a, i, compare);
      i := i - 1;
    }
  }

  method PlaceRoot<T(!new)>(a: array<T>, i: int, compare: (T, T) -> int)
    requires TotalPreorder(compare) && 2 <= i <= a.Length && Stage(a[..], i, compare)
    modifies a
    ensures Stage(a[..], i - 1, compare) && multiset(a[..]) == multiset(old(a[..]))
  {
    ghost var s := a[..];
    DoSwap(a, 1, i);
    Heapify(a, 1, i - 1, compare);
    RemoveRoot(s, i, compare, a[..]);
  }

  method BuildHeap<T(!new)>(a: array<T>, compare: (T, T) -> int)
    requires TotalPreorder(compare)
    modifies a
    ensures Heap(a[..], 1, a.Length, compare) && multiset(a[..]) == multiset(old(a[..]))
  {
    var i := a.Length / 2;
    while i > 0
      invariant 0 <= i <= a.Length / 2 && Heap(a[..], i + 1, a.Length, compare)
      invariant multiset(a[..]) == multiset(old(a[..]))
    {
      BuildStep(a[..], i, compare);
      Heapify(a, i, a.Length, compare);
      i := i - 1;
    }
  }

  // ---- binary_search() -----------------------------------------------------------------------

  /** binary_search(): the result is the index of a match, or -1 when there is none. */
  method BinarySearch<T(!new)>(key: T, a: array<T>, compare: (T, T) -> int) returns (index: int)
    requires TotalPreorder(compare) && Sorted(a[..], compare)
    ensures index == -1 || (0 <= index < a.Length && compare(key, a[index]) == 0)
    ensures index == -1 <==> forall k :: 0 <= k < a.Length ==> compare(key, a[k]) != 0
  {
    var first, last := 0, a.Length;
    while first < last
      invariant 0 <= first <= last <= a.Length
      invariant forall k :: 0 <= k < first ==> compare(key, a[k]) > 0
      invariant forall k :: last <= k < a.Length ==> compare(key, a[k]) < 0
    {
      var range := last - first;
      var middle := first + range / 2;
      var cmp := compare(key, a[middle]);
      if cmp < 0 {
        Beyond(key, a[..], middle, compare);
        last := middle;
      } else if cmp > 0 {
        Beyond(key, a[..], middle, compare);
        first := middle + 1;
      } else {
        return middle;
      }
    }
    return -1;
  }

  /** In a sorted sequence, a key below an element is below all later ones, and one above it above all earlier ones. */
  lemma Beyond<T(!new)>(key: T, s: seq<T>, m: int, compare: (T, T) -> int)
    requires TotalPreorder(compare) && Sorted(s, compare) && 0 <= m < |s|
    ensures compare(key, s[m]) < 0 ==> forall k :: m <= k < |s| ==> compare(key, s[k]) < 0
    ensures compare(key, s[m]) > 0 ==> forall k :: 0 <= k <= m ==> compare(key, s[k]) > 0
  {
    forall k | 0 <= k < |s|
      ensures k >= m && compare(key, s[m]) < 0 ==> compare(key, s[k]) < 0
      ensures k <= m && compare(key, s[m]) > 0 ==> compare(key, s[k]) > 0
    {
      if k >= m {
        assert compare(s[m], s[k]) <= 0;
        assert compare(s[k], key) <= 0 ==> compare(s[m], key) <= 0;
      } else {
        assert compare(s[k], s[m]) <= 0;
        assert compare(key, s[k]) <= 0 ==> compare(key, s[m]) <= 0;
      }
    }
  }
}

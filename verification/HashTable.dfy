/** lib/kernel/hash.c: a hash table of chained buckets that changes its number of buckets as it grows and shrinks. */
module HashTable {
  import opened Basics
  import opened Arithmetic
  import opened Bits
  import opened Ordering

  const MIN_BUCKETS: nat := 4
  const BEST_ELEMS_PER_BUCKET: nat := 2

  /** What the callers promise: `less` is an order, and elements that are equal in it have equal hash values. */
  ghost predicate Consistent<E(!new)>(hash: E -> nat, less: (E, E) -> bool) {
    StrictWeakOrder(less) && forall a, b :: Equivalent(less, a, b) ==> hash(a) == hash(b)
  }

  // ---- Buckets -------------------------------------------------------------------------------

  /** All elements, bucket by bucket. */
  function Flatten<E>(buckets: seq<seq<E>>): seq<E> {
    if buckets == [] then [] else buckets[0] + Flatten(buckets[1..])
  }

  ghost function Bag<E>(buckets: seq<seq<E>>): multiset<E> {
    multiset(Flatten(buckets))
  }

  lemma {:induction false} FlattenSplit<E>(a: seq<seq<E>>, b: seq<seq<E>>)
    ensures Flatten(a + b) == Flatten(a) + Flatten(b)
  {
    if a == [] {
      assert a + b == b;
    } else {
      assert (a + b)[1..] == a[1..] + b;
      FlattenSplit(a[1..], b);
    }
  }

  lemma FlattenAt<E>(buckets: seq<seq<E>>, b: nat)
    requires b < |buckets|
    ensures Flatten(buckets) == Flatten(buckets[..b]) + (buckets[b] + Flatten(buckets[b + 1..]))
  {
    FlattenSplit(buckets[..b], buckets[b..]);
    assert buckets == buckets[..b] + buckets[b..] && buckets[b..][1..] == buckets[b + 1..];
  }

  /** Changing one bucket changes the elements by just what that bucket gains and loses. */
  lemma BagUpdate<E>(buckets: seq<seq<E>>, b: nat, bucket: seq<E>)
    requires b < |buckets|
    ensures Bag(buckets[b := bucket]) + multiset(buckets[b]) == Bag(buckets) + multiset(bucket)
  {
    var buckets' := buckets[b := bucket];
    FlattenAt(buckets, b);
    FlattenAt(buckets', b);
    assert buckets'[..b] == buckets[..b] && buckets'[b + 1..] == buckets[b + 1..];
  }

  lemma Cancel<E>(a: multiset<E>, b: multiset<E>, x: multiset<E>)
    requires a + x == b + x
    ensures a == b
  {
    forall e
      ensures a[e] == b[e]
    {
      assert (a + x)[e] == (b + x)[e];
    }
  }

  lemma PushBag<E>(buckets: seq<seq<E>>, b: nat, e: E)
    requires b < |buckets|
    ensures Bag(buckets[b := [e] + buckets[b]]) == Bag(buckets) + multiset{e}
  {
    BagUpdate(buckets, b, [e] + buckets[b]);
    assert multiset([e] + buckets[b]) == multiset{e} + multiset(buckets[b]);
    Cancel(Bag(buckets[b := [e] + buckets[b]]), Bag(buckets) + multiset{e}, multiset(buckets[b]));
  }

  /** Every element is in the bucket that find_bucket() looks in. */
  ghost predicate Placed<E(!new)>(buckets: seq<seq<E>>, hash: E -> nat) {
    && |buckets| > 0
    && forall b, e {:trigger e in buckets[b]} :: 0 <= b < |buckets| && e in buckets[b] ==> hash(e) % |buckets| == b
  }

  lemma InBag<E(!new)>(buckets: seq<seq<E>>, hash: E -> nat, e: E)
    requires Placed(buckets, hash)
    ensures e in Bag(buckets) <==> e in buckets[hash(e) % |buckets|]
  {
    FlattenMembers(buckets, e);
  }

  lemma {:induction false} FlattenMembers<E>(buckets: seq<seq<E>>, e: E)
    ensures e in Flatten(buckets) <==> exists b :: 0 <= b < |buckets| && e in buckets[b]
  {
    if buckets != [] {
      FlattenMembers(buckets[1..], e);
      if b :| 0 <= b < |buckets| && e in buckets[b] {
        assert b > 0 ==> e in buckets[1..][b - 1];
      }
      if b :| 0 <= b < |buckets[1..]| && e in buckets[1..][b] {
        assert e in buckets[b + 1];
      }
    }
  }

  lemma PlacedUpdate<E(!new)>(buckets: seq<seq<E>>, hash: E -> nat, b: nat, bucket: seq<E>)
    requires Placed(buckets, hash) && b < |buckets|
    requires forall e :: e in bucket ==> hash(e) % |buckets| == b
    ensures Placed(buckets[b := bucket], hash)
  {
  }

  // ---- The number of buckets -----------------------------------------------------------------

  /** The ideal number of buckets for `n` elements: the greatest power of 2 that is at most n / 2, but at least 4. */
  ghost predicate Ideal(n: nat, buckets: nat) {
    var want := if n / BEST_ELEMS_PER_BUCKET < MIN_BUCKETS then MIN_BUCKETS else n / BEST_ELEMS_PER_BUCKET;
    PowerOf2(buckets) && buckets <= want < 2 * buckets
  }

  /** The loop of rehash() that turns off low bits until only the top one is left. */
  method IdealBuckets(n: nat) returns (cnt: nat)
    ensures Ideal(n, cnt) && cnt >= MIN_BUCKETS
  {
    cnt := n / BEST_ELEMS_PER_BUCKET;
    if cnt < MIN_BUCKETS {
      cnt := MIN_BUCKETS;
    }
    ghost var k := TopPower(cnt);
    assert Pow2(2) == 4 && Pow2(1) == 2;
    Pow2AtLeast(k, 2);
    while TurnOffLeast1Bit(cnt) != 0
      invariant Pow2(k) <= cnt < 2 * Pow2(k)
      invariant cnt <= (if n / BEST_ELEMS_PER_BUCKET < MIN_BUCKETS then MIN_BUCKETS else n / BEST_ELEMS_PER_BUCKET)
      decreases cnt
    {
      TurnOffKeepsTop(cnt, k);
      cnt := TurnOffLeast1Bit(cnt);
    }
    TurnOffKeepsTop(cnt, k);
  }

  lemma {:induction false} Pow2AtLeast(k: nat, j: nat)
    requires 2 * Pow2(k) > Pow2(j)
    ensures k >= j && Pow2(k) >= Pow2(j)
    decreases j
  {
    if j > 0 && k > 0 {
      Pow2AtLeast(k - 1, j - 1);
    }
  }

  /** The index in find_bucket(), a bitwise and, is the remainder. */
  lemma BucketIndex(h: nat, cnt: nat)
    requires PowerOf2(cnt)
    ensures cnt > 0 && BitAnd(h, cnt - 1) == h % cnt
  {
    var k: nat :| cnt == Pow2(k);
    AndMask(h, k);
  }

  // ---- Chains --------------------------------------------------------------------------------

  /** find_elem(). */
  method FindElem<E(!new)>(bucket: seq<E>, e: E, less: (E, E) -> bool) returns (r: Option<E>)
    ensures r.Some? ==> r.value in bucket && Equivalent(less, r.value, e)
    ensures r.None? ==> forall x :: x in bucket ==> !Equivalent(less, x, e)
  {
    var i := 0;
    while i < |bucket|
      invariant i <= |bucket| && forall k :: 0 <= k < i ==> !Equivalent(less, bucket[k], e)
    {
      if !less(bucket[i], e) && !less(e, bucket[i]) {
        return Some(bucket[i]);
      }
      i := i + 1;
    }
    return None;
  }

  /** The chain without `e`, list_remove(). */
  function Without<E(==)>(bucket: seq<E>, e: E): (r: seq<E>)
    requires e in bucket
    ensures multiset(r) == multiset(bucket) - multiset{e}
    ensures |r| == |bucket| - 1 && forall x :: x in r ==> x in bucket
  {
    assert bucket == [bucket[0]] + bucket[1..];
    if bucket[0] == e then bucket[1..] else [bucket[0]] + Without(bucket[1..], e)
  }

  /** The inner loop of rehash(): move the elements of one old bucket, each to the front of its new one. */
  method MoveBucket<E(!new)>(bucket: seq<E>, buckets: seq<seq<E>>, hash: E -> nat) returns (r: seq<seq<E>>)
    requires Placed(buckets, hash)
    ensures |r| == |buckets| && Placed(r, hash) && Bag(r) == Bag(buckets) + multiset(bucket)
  {
    r := buckets;
    var i := 0;
    while i < |bucket|
      invariant i <= |bucket| && |r| == |buckets| && Placed(r, hash) && Bag(r) == Bag(buckets) + multiset(bucket[..i])
    {
      var e := bucket[i];
      var b := hash(e) % |r|;
      PushBag(r, b, e);
      PlacedUpdate(r, hash, b, [e] + r[b]);
      assert bucket[..i + 1] == bucket[..i] + [e];
      r := r[b := [e] + r[b]];
      i := i + 1;
    }
    assert bucket[..i] == bucket;
  }

  lemma {:induction false} NoElements<E(!new)>(buckets: seq<seq<E>>)
    requires forall b :: 0 <= b < |buckets| ==> buckets[b] == []
    ensures Flatten(buckets) == []
  {
    if buckets != [] {
      NoElements(buckets[1..]);
    }
  }

  /** The rest of rehash(): no element is lost and none is moved to a wrong bucket. */
  method MoveAll<E(!new)>(from: seq<seq<E>>, cnt: nat, hash: E -> nat) returns (r: seq<seq<E>>)
    requires cnt > 0
    ensures |r| == cnt && Placed(r, hash) && Bag(r) == Bag(from)
  {
    r := seq(cnt, i => []);
    NoElements(r);
    var i := 0;
    while i < |from|
      invariant i <= |from| && |r| == cnt && Placed(r, hash) && Bag(r) == Bag(from[..i])
    {
      FlattenSplit(from[..i], [from[i]]);
      assert from[..i + 1] == from[..i] + [from[i]] && Flatten([from[i]]) == from[i];
      r := MoveBucket(from[i], r, hash);
      i := i + 1;
    }
    assert from[..i] == from;
  }

  // ---- The table -----------------------------------------------------------------------------

  /** No two elements are equal in the order. */
  ghost predicate Distinct<E(!new)>(elems: multiset<E>, less: (E, E) -> bool) {
    && (forall e :: elems[e] <= 1)
    && (forall a, b :: a in elems && b in elems && Equivalent(less, a, b) ==> a == b)
  }

  ghost predicate Absent<E(!new)>(elems: multiset<E>, less: (E, E) -> bool, e: E) {
    forall x :: x in elems ==> !Equivalent(less, x, e)
  }

  lemma AddDistinct<E(!new)>(elems: multiset<E>, less: (E, E) -> bool, e: E)
    requires Distinct(elems, less) && Absent(elems, less, e) && StrictWeakOrder(less)
    ensures Distinct(elems + multiset{e}, less)
  {
    assert Equivalent(less, e, e);
  }

  /** The table's invariant. */
  ghost predicate TableOk<E(!new)>(buckets: seq<seq<E>>, elemCnt: int, hash: E -> nat, less: (E, E) -> bool) {
    && PowerOf2(|buckets|) && |buckets| >= MIN_BUCKETS
    && Placed(buckets, hash)
    && elemCnt == |Flatten(buckets)|
    && Distinct(Bag(buckets), less)
  }

  lemma PushKeeps<E(!new)>(buckets: seq<seq<E>>, n: int, hash: E -> nat, less: (E, E) -> bool, b: nat, e: E)
    requires TableOk(buckets, n, hash, less) && StrictWeakOrder(less) && Absent(Bag(buckets), less, e)
    requires b == hash(e) % |buckets|
    ensures TableOk(buckets[b := [e] + buckets[b]], n + 1, hash, less)
  {
    var buckets' := buckets[b := [e] + buckets[b]];
    PushBag(buckets, b, e);
    PlacedUpdate(buckets, hash, b, [e] + buckets[b]);
    AddDistinct(Bag(buckets), less, e);
    BagSize(buckets);
    BagSize(buckets');
  }

  lemma DropBag<E>(buckets: seq<seq<E>>, b: nat, e: E)
    requires b < |buckets| && e in buckets[b]
    ensures Bag(buckets[b := Without(buckets[b], e)]) == Bag(buckets) - multiset{e}
  {
    var rest := Without(buckets[b], e);
    BagUpdate(buckets, b, rest);
    assert multiset(buckets[b]) == multiset(rest) + multiset{e};
    Cancel(Bag(buckets[b := rest]) + multiset{e}, Bag(buckets), multiset(rest));
  }

  lemma DropKeeps<E(!new)>(buckets: seq<seq<E>>, n: int, hash: E -> nat, less: (E, E) -> bool, b: nat, e: E)
    requires TableOk(buckets, n, hash, less) && b == hash(e) % |buckets| && e in buckets[b]
    ensures TableOk(buckets[b := Without(buckets[b], e)], n - 1, hash, less)
  {
    var buckets' := buckets[b := Without(buckets[b], e)];
    DropBag(buckets, b, e);
    PlacedUpdate(buckets, hash, b, Without(buckets[b], e));
    InBag(buckets, hash, e);
    BagSize(buckets);
    BagSize(buckets');
  }

  lemma BagSize<E>(buckets: seq<seq<E>>)
    ensures |Bag(buckets)| == |Flatten(buckets)|
  {
  }

  class Hash<E(!new,==)> {
    var elemCnt: nat
    var buckets: seq<seq<E>>
    const hash: E -> nat
    const less: (E, E) -> bool

    /** The elements, whatever their buckets. */
    ghost function Elems(): multiset<E>
      reads this
    {
      Bag(buckets)
    }

    ghost predicate Valid()
      reads this
    {
      Consistent(hash, less) && TableOk(buckets, elemCnt, hash, less)
    }

    constructor (hash: E -> nat, less: (E, E) -> bool)
      requires Consistent(hash, less)
      ensures Valid() && Elems() == multiset{} && this.hash == hash && this.less == less
    {
      elemCnt := 0;
      buckets := seq(MIN_BUCKETS, i => []);
      this.hash := hash;
      this.less := less;
      new;
      assert MIN_BUCKETS == Pow2(2);
      NoElements(buckets);
    }

    /** hash_init(): `have` says whether there is memory for the buckets. */
    static method Create(hash: E -> nat, less: (E, E) -> bool, have: bool) returns (h: Hash?<E>)
      requires Consistent(hash, less)
      ensures h == null <==> !have
      ensures h != null ==> fresh(h) && h.Valid() && h.Elems() == multiset{} && h.hash == hash && h.less == less
    {
      if have {
        h := new Hash(hash, less);
      } else {
        h := null;
      }
    }

    /** find_bucket(). */
    method FindBucket(e: E) returns (b: nat)
      requires Valid()
      ensures b == hash(e) % |buckets|
    {
      BucketIndex(hash(e), |buckets|);
      b := BitAnd(hash(e), |buckets| - 1);
    }

    /** hash_find(): an element equal to `e`, if there is one in the whole table. */
    method Find(e: E) returns (r: Option<E>)
      requires Valid()
      ensures r.Some? ==> r.value in Elems() && Equivalent(less, r.value, e)
      ensures r.None? <==> Absent(Elems(), less, e)
    {
      var b := FindBucket(e);
      r := FindElem(buckets[b], e, less);
      forall x | x in Elems() && Equivalent(less, x, e)
        ensures x in buckets[b]
      {
        InBag(buckets, hash, x);
      }
      if r.Some? {
        InBag(buckets, hash, r.value);
      }
    }

    /** insert_elem(). */
    method InsertElem(e: E)
      requires Valid() && Absent(Elems(), less, e)
      modifies this
      ensures Valid() && Elems() == old(Elems()) + multiset{e} && |buckets| == old(|buckets|)
      ensures elemCnt == old(elemCnt) + 1
    {
      var b := FindBucket(e);
      PushKeeps(buckets, elemCnt, hash, less, b, e);
      PushBag(buckets, b, e);
      elemCnt := elemCnt + 1;
      buckets := buckets[b := [e] + buckets[b]];
    }

    /** remove_elem(). */
    method RemoveElem(e: E)
      requires Valid() && e in Elems()
      modifies this
      ensures Valid() && Elems() == old(Elems()) - multiset{e} && |buckets| == old(|buckets|)
      ensures elemCnt == old(elemCnt) - 1
    {
      var b := FindBucket(e);
      InBag(buckets, hash, e);
      DropKeeps(buckets, elemCnt, hash, less, b, e);
      DropBag(buckets, b, e);
      elemCnt := elemCnt - 1;
      buckets := buckets[b := Without(buckets[b], e)];
    }

    /** rehash(): `gotMemory` says whether malloc() succeeds. */
    method Rehash(gotMemory: bool)
      requires Valid()
      modifies `buckets
      ensures Valid() && Elems() == old(Elems())
      ensures if gotMemory then Ideal(elemCnt, |buckets|) else |buckets| == old(|buckets|)
    {
      var cnt := IdealBuckets(elemCnt);
      if cnt == |buckets| || !gotMemory {
        return;
      }
      BagSize(buckets);
      buckets := MoveAll(buckets, cnt, hash);
      BagSize(buckets);
    }

    /** hash_insert(). */
    method Insert(e: E, gotMemory: bool) returns (r: Option<E>)
      requires Valid()
      modifies this
      ensures Valid() && (r.None? <==> Absent(old(Elems()), less, e))
      ensures r.None? ==> Elems() == old(Elems()) + multiset{e}
      ensures r.Some? ==> Elems() == old(Elems()) && r.value in Elems() && Equivalent(less, r.value, e)
      ensures if gotMemory then Ideal(elemCnt, |buckets|) else |buckets| == old(|buckets|)
    {
      r := Find(e);
      if r.None? {
        InsertElem(e);
      }
      Rehash(gotMemory);
    }

    /** hash_replace(). */
    method Replace(e: E, gotMemory: bool) returns (r: Option<E>)
      requires Valid()
      modifies this
      ensures Valid() && (r.None? <==> Absent(old(Elems()), less, e))
      ensures r.None? ==> Elems() == old(Elems()) + multiset{e}
      ensures r.Some? ==> r.value in old(Elems()) && Equivalent(less, r.value, e)
                          && Elems() == old(Elems()) - multiset{r.value} + multiset{e}
      ensures if gotMemory then Ideal(elemCnt, |buckets|) else |buckets| == old(|buckets|)
    {
      r := Find(e);
      if r.Some? {
        OnlyOne(Elems(), less, e, r.value);
        RemoveElem(r.value);
      }
      InsertElem(e);
      Rehash(gotMemory);
    }

    /** hash_delete(). */
    method Delete(e: E, gotMemory: bool) returns (r: Option<E>)
      requires Valid()
      modifies this
      ensures Valid() && (r.None? <==> Absent(old(Elems()), less, e))
      ensures r.None? ==> Elems() == old(Elems()) && buckets == old(buckets)
      ensures r.Some? ==> r.value in old(Elems()) && Equivalent(less, r.value, e) && Absent(Elems(), less, e)
                          && Elems() == old(Elems()) - multiset{r.value}
                          && if gotMemory then Ideal(elemCnt, |buckets|) else |buckets| == old(|buckets|)
    {
      r := Find(e);
      if r.Some? {
        OnlyOne(Elems(), less, e, r.value);
        RemoveElem(r.value);
        Rehash(gotMemory);
      }
    }
  }

  /** Taking out the one element equal to `e` leaves none. */
  lemma OnlyOne<E(!new)>(elems: multiset<E>, less: (E, E) -> bool, e: E, x: E)
    requires StrictWeakOrder(less) && Distinct(elems, less) && x in elems && Equivalent(less, x, e)
    ensures Absent(elems - multiset{x}, less, e)
  {
    forall y | y in elems - multiset{x}
      ensures !Equivalent(less, y, e)
    {
      assert y in elems;
      if Equivalent(less, y, e) {
        assert Equivalent(less, x, y);
      }
    }
  }

  // ---- Iteration -----------------------------------------------------------------------------

  /** What an iterator at place `i` of bucket `b` has still to visit; place -1 is the head of the chain. */
  ghost function Remaining<E>(buckets: seq<seq<E>>, b: nat, i: int): seq<E>
    requires b < |buckets| && -1 <= i < |buckets[b]|
  {
    buckets[b][i + 1..] + Flatten(buckets[b + 1..])
  }

  /** hash_next(). */
  method Next<E>(buckets: seq<seq<E>>, b: nat, i: int) returns (b': nat, i': int, more: bool)
    requires b < |buckets| && -1 <= i < |buckets[b]|
    ensures more <==> Remaining(buckets, b, i) != []
    ensures more ==> b' < |buckets| && 0 <= i' < |buckets[b']|
                     && Remaining(buckets, b, i) == [buckets[b'][i']] + Remaining(buckets, b', i')
  {
    b', i' := b, i + 1;
    while i' == |buckets[b']|
      invariant b' < |buckets| && 0 <= i' <= |buckets[b']|
      invariant Remaining(buckets, b, i) == buckets[b'][i'..] + Flatten(buckets[b' + 1..])
      decreases |buckets| - b'
    {
      b' := b' + 1;
      if b' >= |buckets| {
        return b', 0, false;
      }
      assert buckets[b'..][1..] == buckets[b' + 1..];
      i' := 0;
    }
    return b', i', true;
  }

  /** The iteration idiom visits every element once. */
  method VisitAll<E>(buckets: seq<seq<E>>) returns (visited: seq<E>)
    requires |buckets| > 0
    ensures multiset(visited) == Bag(buckets)
  {
    visited := [];
    var b, i, more := Next(buckets, 0, -1);
    assert Remaining(buckets, 0, -1) == Flatten(buckets);
    while more
      invariant more ==> 0 <= b < |buckets| && 0 <= i < |buckets[b]|
      invariant Flatten(buckets) == if more then visited + [buckets[b][i]] + Remaining(buckets, b, i) else visited
      decreases if more then |Remaining(buckets, b, i)| + 1 else 0
    {
      visited := visited + [buckets[b][i]];
      b, i, more := Next(buckets, b, i);
    }
  }
}

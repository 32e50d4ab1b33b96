/** Queues of threads kept in order by list_insert_ordered(): the ready list and the waiters of a semaphore by
    descending priority, the sleep list by ascending wake-up time. */
module Queue {
  import opened Basics

  type Tid = int

  lemma AnyMember<T>(s: set<T>) returns (t: T)
    requires s != {}
    ensures t in s
  {
    t :| t in s;
  }

  function KeyOf(key: map<Tid, int>, t: Tid): int {
    if t in key then key[t] else 0
  }

  /** The `less` function of the list: cmp_wake_up_time() if `ascending`, cmp_priority() otherwise. */
  predicate Ahead(key: map<Tid, int>, ascending: bool, a: Tid, b: Tid) {
    if ascending then KeyOf(key, a) < KeyOf(key, b) else KeyOf(key, a) > KeyOf(key, b)
  }

  /** list_insert_ordered(): just before the first thread that `t` goes ahead of. */
  function Insert(q: seq<Tid>, t: Tid, key: map<Tid, int>, ascending: bool): (r: seq<Tid>)
    ensures |r| == |q| + 1
  {
    if q == [] || Ahead(key, ascending, t, q[0]) then [t] + q
    else [q[0]] + Insert(q[1..], t, key, ascending)
  }

  method InsertOrdered(q: seq<Tid>, t: Tid, key: map<Tid, int>, ascending: bool) returns (r: seq<Tid>)
    ensures r == Insert(q, t, key, ascending)
  {
    var i := 0;
    while i < |q| && !Ahead(key, ascending, t, q[i])
      invariant 0 <= i <= |q|
      invariant Insert(q, t, key, ascending) == q[..i] + Insert(q[i..], t, key, ascending)
    {
      InsertSkips(q, i, Insert(q[i + 1..], t, key, ascending));
      i := i + 1;
    }
    r := q[..i] + [t] + q[i..];
  }

  lemma InsertSkips(q: seq<Tid>, i: nat, rest: seq<Tid>)
    requires i < |q|
    ensures q[i..][1..] == q[i + 1..] && q[i..][0] == q[i]
    ensures q[..i] + ([q[i]] + rest) == q[..i + 1] + rest
  {
  }

  /** No thread goes ahead of an earlier one. */
  ghost predicate Ordered(q: seq<Tid>, key: map<Tid, int>, ascending: bool) {
    forall i, j :: 0 <= i < j < |q| ==> !Ahead(key, ascending, q[j], q[i])
  }

  /** Where Insert() puts a thread: behind all that it does not go ahead of, up to the first that it does. */
  ghost predicate InsertedAt(q: seq<Tid>, t: Tid, key: map<Tid, int>, ascending: bool, p: nat) {
    && p <= |q|
    && Insert(q, t, key, ascending) == q[..p] + [t] + q[p..]
    && (forall i :: 0 <= i < p ==> !Ahead(key, ascending, t, q[i]))
    && (p < |q| ==> Ahead(key, ascending, t, q[p]))
  }

  lemma {:induction false} InsertPlace(q: seq<Tid>, t: Tid, key: map<Tid, int>, ascending: bool) returns (p: nat)
    ensures InsertedAt(q, t, key, ascending, p)
  {
    if q == [] || Ahead(key, ascending, t, q[0]) {
      p := 0;
    } else {
      var p' := InsertPlace(q[1..], t, key, ascending);
      p := p' + 1;
      ConsSplit(q, t, p);
      forall i | 0 <= i < p
        ensures !Ahead(key, ascending, t, q[i])
      {
        assert i > 0 ==> q[i] == q[1..][i - 1];
      }
    }
  }

  lemma ConsSplit(q: seq<Tid>, t: Tid, p: nat)
    requires 0 < p <= |q|
    ensures [q[0]] + (q[1..][..p - 1] + [t] + q[1..][p - 1..]) == q[..p] + [t] + q[p..]
  {
    assert q[1..][..p - 1] == q[1..p] && q[1..][p - 1..] == q[p..];
    assert [q[0]] + q[1..p] == q[..p];
  }

  lemma {:induction false} InsertMember(q: seq<Tid>, t: Tid, key: map<Tid, int>, ascending: bool, u: Tid)
    ensures u in Insert(q, t, key, ascending) <==> u in q || u == t
  {
    if q == [] || Ahead(key, ascending, t, q[0]) {
    } else {
      InsertMember(q[1..], t, key, ascending, u);
      assert q == [q[0]] + q[1..];
    }
  }

  /** Thread `t` is put into the queue at `k`: behind threads of at least its priority, ahead of one of a lower. */
  ghost predicate QueuedAt(q: seq<Tid>, q': seq<Tid>, t: Tid, prio: map<Tid, int>, k: nat) {
    && k <= |q| && q' == q[..k] + [t] + q[k..]
    && (forall i :: 0 <= i < k ==> KeyOf(prio, q[i]) >= KeyOf(prio, t))
    && (k < |q| ==> KeyOf(prio, q[k]) < KeyOf(prio, t))
  }

  /** In a queue in order, that is behind every thread of at least its priority. */
  lemma QueuedBehindAll(q: seq<Tid>, q': seq<Tid>, t: Tid, prio: map<Tid, int>, k: nat, u: Tid)
    requires QueuedAt(q, q', t, prio, k) && Ordered(q, prio, false) && u in q
    ensures u in q[..k] <==> KeyOf(prio, u) >= KeyOf(prio, t)
  {
    var i :| 0 <= i < |q| && q[i] == u;
    if i < k {
      assert q[..k][i] == u;
    } else {
      assert i == k || !Ahead(prio, false, q[i], q[k]);
    }
  }

  lemma InsertNoDup(q: seq<Tid>, t: Tid, key: map<Tid, int>, ascending: bool)
    requires NoDup(q) && t !in q
    ensures NoDup(Insert(q, t, key, ascending))
  {
    var p := InsertPlace(q, t, key, ascending);
    var r := Insert(q, t, key, ascending);
    assert forall i :: 0 <= i < |r| ==> r[i] == if i < p then q[i] else if i == p then t else q[i - 1];
  }

  /** The new queue holds the old threads and the new one, each once. */
  lemma InsertMembers(q: seq<Tid>, t: Tid, key: map<Tid, int>, ascending: bool)
    requires NoDup(q) && t !in q
    ensures NoDup(Insert(q, t, key, ascending))
    ensures forall u :: u in Insert(q, t, key, ascending) <==> u in q || u == t
  {
    InsertNoDup(q, t, key, ascending);
    forall u
      ensures u in Insert(q, t, key, ascending) <==> u in q || u == t
    {
      InsertMember(q, t, key, ascending, u);
    }
  }

  /** An ordered queue stays ordered, with the new thread behind all its equals. */
  lemma InsertKeepsOrdered(q: seq<Tid>, t: Tid, key: map<Tid, int>, ascending: bool)
    requires Ordered(q, key, ascending)
    ensures Ordered(Insert(q, t, key, ascending), key, ascending)
  {
    var p := InsertPlace(q, t, key, ascending);
    var r := q[..p] + [t] + q[p..];
    assert forall i :: 0 <= i < |r| ==> r[i] == if i < p then q[i] else if i == p then t else q[i - 1];
  }

  /** The front of an ordered queue is a thread that no other goes ahead of. */
  lemma FrontIsFirst(q: seq<Tid>, key: map<Tid, int>, ascending: bool)
    requires Ordered(q, key, ascending) && q != []
    ensures forall t :: t in q ==> !Ahead(key, ascending, t, q[0])
  {
  }

  /** Only the keys of the threads in it matter to a queue. */
  lemma OrderedLocal(q: seq<Tid>, key: map<Tid, int>, key': map<Tid, int>, ascending: bool)
    requires Ordered(q, key, ascending)
    requires forall t :: t in q ==> KeyOf(key, t) == KeyOf(key', t)
    ensures Ordered(q, key', ascending)
  {
  }

  /** Taking the front off. */
  lemma Tail(q: seq<Tid>, key: map<Tid, int>, ascending: bool)
    requires NoDup(q) && Ordered(q, key, ascending) && q != []
    ensures NoDup(q[1..]) && Ordered(q[1..], key, ascending)
    ensures forall u :: u in q[1..] <==> u in q && u != q[0]
  {
    assert q == [q[0]] + q[1..];
  }

  /** The queue that list_sort() makes of `q`: a stable sort, so the one that inserting the threads in order gives. */
  function SortQueue(q: seq<Tid>, key: map<Tid, int>): seq<Tid> {
    if q == [] then [] else Insert(SortQueue(q[..|q| - 1], key), q[|q| - 1], key, false)
  }

  lemma {:induction false} SortOrders(q: seq<Tid>, key: map<Tid, int>)
    ensures Ordered(SortQueue(q, key), key, false)
  {
    if q != [] {
      SortOrders(q[..|q| - 1], key);
      InsertKeepsOrdered(SortQueue(q[..|q| - 1], key), q[|q| - 1], key, false);
    }
  }

  lemma {:induction false} SortMembers(q: seq<Tid>, key: map<Tid, int>)
    requires NoDup(q)
    ensures NoDup(SortQueue(q, key))
    ensures forall u :: u in SortQueue(q, key) <==> u in q
  {
    if q != [] {
      var r, t := q[..|q| - 1], q[|q| - 1];
      SortMembers(r, key);
      assert q == r + [t];
      InsertMembers(SortQueue(r, key), t, key, false);
    }
  }

  /** Threads of equal key keep their order. */
  ghost function Class(q: seq<Tid>, key: map<Tid, int>, k: int): seq<Tid> {
    if q == [] then []
    else Class(q[..|q| - 1], key, k) + if KeyOf(key, q[|q| - 1]) == k then [q[|q| - 1]] else []
  }

  lemma {:induction false} ClassConcat(a: seq<Tid>, b: seq<Tid>, key: map<Tid, int>, k: int)
    ensures Class(a + b, key, k) == Class(a, key, k) + Class(b, key, k)
  {
    if b == [] {
      assert a + b == a;
    } else {
      assert (a + b)[..|a + b| - 1] == a + b[..|b| - 1];
      ClassConcat(a, b[..|b| - 1], key, k);
    }
  }

  lemma {:induction false} ClassNone(q: seq<Tid>, key: map<Tid, int>, k: int)
    requires forall t :: t in q ==> KeyOf(key, t) != k
    ensures Class(q, key, k) == []
  {
    if q != [] {
      ClassNone(q[..|q| - 1], key, k);
    }
  }

  lemma ClassAround(a: seq<Tid>, t: Tid, b: seq<Tid>, key: map<Tid, int>, k: int)
    requires KeyOf(key, t) == k ==> Class(b, key, k) == []
    ensures Class(a + [t] + b, key, k) == Class(a + b, key, k) + if KeyOf(key, t) == k then [t] else []
  {
    ClassConcat(a + [t], b, key, k);
    ClassConcat(a, b, key, k);
    assert (a + [t])[..|a|] == a;
  }

  /** The inserted thread is the last of its class. */
  lemma InsertClass(q: seq<Tid>, t: Tid, key: map<Tid, int>, k: int)
    requires Ordered(q, key, false)
    ensures Class(Insert(q, t, key, false), key, k) == Class(q, key, k) + if KeyOf(key, t) == k then [t] else []
  {
    var p := InsertPlace(q, t, key, false);
    if KeyOf(key, t) == k {
      forall i | p <= i < |q|
        ensures KeyOf(key, q[i]) < k
      {
        assert i == p || !Ahead(key, false, q[i], q[p]);
      }
      ClassNone(q[p..], key, k);
    }
    ClassAround(q[..p], t, q[p..], key, k);
    assert q == q[..p] + q[p..];
  }

  lemma {:induction false} SortIsStable(q: seq<Tid>, key: map<Tid, int>, k: int)
    ensures Class(SortQueue(q, key), key, k) == Class(q, key, k)
  {
    if q != [] {
      SortIsStable(q[..|q| - 1], key, k);
      SortOrders(q[..|q| - 1], key);
      InsertClass(SortQueue(q[..|q| - 1], key), q[|q| - 1], key, k);
    }
  }

  // ---- A stable sort has only one result -----------------------------------------------------

  lemma {:induction false} ClassMember(q: seq<Tid>, key: map<Tid, int>, k: int, t: Tid)
    ensures t in Class(q, key, k) <==> t in q && KeyOf(key, t) == k
  {
    if q != [] {
      ClassMember(q[..|q| - 1], key, k, t);
      assert q == q[..|q| - 1] + [q[|q| - 1]];
    }
  }

  lemma ClassFront(q: seq<Tid>, key: map<Tid, int>, k: int)
    requires q != []
    ensures Class(q, key, k) == (if KeyOf(key, q[0]) == k then [q[0]] else []) + Class(q[1..], key, k)
  {
    assert q == [q[0]] + q[1..];
    ClassConcat([q[0]], q[1..], key, k);
    assert [q[0]][..0] == [];
    assert Class([q[0]], key, k) == Class([], key, k) + if KeyOf(key, q[0]) == k then [q[0]] else [];
  }

  /** The threads of each key are the same, in the same order. */
  ghost predicate SameClasses(a: seq<Tid>, b: seq<Tid>, key: map<Tid, int>) {
    forall k :: Class(a, key, k) == Class(b, key, k)
  }

  lemma FrontOfBoth(a: seq<Tid>, b: seq<Tid>, key: map<Tid, int>)
    requires Ordered(a, key, false) && Ordered(b, key, false) && SameClasses(a, b, key) && a != []
    ensures b != [] && a[0] == b[0]
  {
    var k := KeyOf(key, a[0]);
    ClassMember(a, key, k, a[0]);
    ClassMember(b, key, k, a[0]);
    FrontIsFirst(b, key, false);
    ClassMember(b, key, KeyOf(key, b[0]), b[0]);
    ClassMember(a, key, KeyOf(key, b[0]), b[0]);
    FrontIsFirst(a, key, false);
    assert KeyOf(key, b[0]) == k;
    ClassFront(a, key, k);
    ClassFront(b, key, k);
    assert Class(a, key, k)[0] == a[0] && Class(b, key, k)[0] == b[0];
  }

  /** Two queues in order with the same classes are the same. */
  lemma {:induction false} StableSortIsUnique(a: seq<Tid>, b: seq<Tid>, key: map<Tid, int>)
    requires Ordered(a, key, false) && Ordered(b, key, false) && SameClasses(a, b, key)
    ensures a == b
  {
    if a == [] {
      if b != [] {
        FrontOfBoth(b, a, key);
      }
    } else {
      FrontOfBoth(a, b, key);
      forall k
        ensures Class(a[1..], key, k) == Class(b[1..], key, k)
      {
        ClassFront(a, key, k);
        ClassFront(b, key, k);
        var n := if KeyOf(key, a[0]) == k then 1 else 0;
        assert Class(a, key, k)[n..] == Class(a[1..], key, k) && Class(b, key, k)[n..] == Class(b[1..], key, k);
      }
      StableSortIsUnique(a[1..], b[1..], key);
      assert a == [a[0]] + a[1..] && b == [b[0]] + b[1..];
    }
  }
}

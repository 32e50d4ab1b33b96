/** threads/thread.c: list_sort() of the ready list, by cmp_priority(). */
module ReadySort {
  import opened Ordering
  import opened ListOrder
  import opened List
  import opened Queue

  /** The threads whose list elements these are. */
  ghost function Tids(s: seq<ListElem<Tid>>): (r: seq<Tid>)
    ensures |r| == |s|
  {
    seq(|s|, i requires 0 <= i < |s| => s[i].key)
  }

  ghost function ByPriority(prio: map<Tid, int>): (Tid, Tid) -> bool {
    (a, b) => Queue.Ahead(prio, false, a, b)
  }

  lemma {:induction false} ClassOfTids(prio: map<Tid, int>, s: seq<ListElem<Tid>>, t: Tid)
    ensures Class(Tids(s), prio, KeyOf(prio, t)) == Tids(ClassOf(ByPriority(prio), s, t))
  {
    if s != [] {
      ClassOfTids(prio, s[1..], t);
      assert Tids(s)[1..] == Tids(s[1..]);
      ClassFront(Tids(s), prio, KeyOf(prio, t));
      assert Equivalent(ByPriority(prio), s[0].key, t) <==> KeyOf(prio, s[0].key) == KeyOf(prio, t);
    }
  }

  /** No thread of `s` has key `k`. */
  lemma NoneOfKey(prio: map<Tid, int>, s: seq<ListElem<Tid>>, k: int)
    requires forall n :: n in s ==> KeyOf(prio, n.key) != k
    ensures Class(Tids(s), prio, k) == []
  {
    forall t | t in Tids(s)
      ensures KeyOf(prio, t) != k
    {
      var i :| 0 <= i < |s| && Tids(s)[i] == t;
      assert s[i] in s;
    }
    ClassNone(Tids(s), prio, k);
  }

  lemma SameClassesOf(prio: map<Tid, int>, s: seq<ListElem<Tid>>, t: seq<ListElem<Tid>>)
    requires StablePermutation(ByPriority(prio), s, t)
    ensures SameClasses(Tids(s), Tids(t), prio)
  {
    forall k
      ensures Class(Tids(s), prio, k) == Class(Tids(t), prio, k)
    {
      if n :| n in s && KeyOf(prio, n.key) == k {
        ClassOfTids(prio, s, n.key);
        ClassOfTids(prio, t, n.key);
      } else {
        forall n | n in t
          ensures n in s
        {
          assert n in multiset(t);
        }
        NoneOfKey(prio, s, k);
        NoneOfKey(prio, t, k);
      }
    }
  }

  /** Whatever list_sort() makes of a list, if sorted and stable, is the queue in order that SortQueue() gives. */
  lemma SortIsSortQueue(prio: map<Tid, int>, s: seq<ListElem<Tid>>, t: seq<ListElem<Tid>>)
    requires StablePermutation(ByPriority(prio), s, t) && Sorted(ByPriority(prio), t, 0, |t|)
    ensures Tids(t) == SortQueue(Tids(s), prio)
  {
    SameClassesOf(prio, s, t);
    SortOrders(Tids(s), prio);
    forall k
      ensures Class(Tids(t), prio, k) == Class(SortQueue(Tids(s), prio), prio, k)
    {
      SortIsStable(Tids(s), prio, k);
    }
    StableSortIsUnique(Tids(t), SortQueue(Tids(s), prio), prio);
  }

  lemma PriorityIsWeakOrder(prio: map<Tid, int>)
    ensures StrictWeakOrder(ByPriority(prio))
  {
  }

  /** list_sort() of a list of threads. */
  method SortThreads(list: List<Tid>, prio: map<Tid, int>)
    requires list.Valid()
    modifies list, list.nodes
    ensures list.Valid() && list.nodes == old(list.nodes)
    ensures Tids(list.Elems()) == SortQueue(old(Tids(list.Elems())), prio)
  {
    ghost var s := list.Elems();
    PriorityIsWeakOrder(prio);
    list.Sort((a, b) => Queue.Ahead(prio, false, a, b));
    SortIsSortQueue(prio, s, list.Elems());
  }
}

/** threads/thread.c and threads/synch.c: when a thread gives way to another of higher priority. */
module Preemption {
  import opened Queue
  import opened Scheduler

  /** No thread that is ready has a higher priority than the one that runs. */
  ghost predicate NoneHigher(s: State) {
    forall t :: t in s.core.ready ==> KeyOf(s.books.prio, t) <= KeyOf(s.books.prio, s.core.current)
  }

  /** A thread that is ready has a higher priority than the one that runs. */
  ghost predicate SomeHigher(s: State) {
    exists t :: t in s.core.ready && KeyOf(s.books.prio, t) > KeyOf(s.books.prio, s.core.current)
  }

  // ---- Yielding ------------------------------------------------------------------------------

  /** A switch takes a thread of the highest priority. */
  lemma SwitchTakesHighest(s: State)
    requires Ordered(s.core.ready, s.books.prio, false)
    ensures NoneHigher(Schedule(s))
    ensures Schedule(s).core.current == if s.core.ready == [] then s.core.idle else s.core.ready[0]
  {
    var s' := Schedule(s);
    if s.core.ready != [] {
      FrontIsFirst(s.core.ready, s.books.prio, false);
      forall t | t in s'.core.ready
        ensures t in s.core.ready
      {
      }
    }
  }

  lemma YieldLeavesNoneHigher(s: State)
    requires Inv(s)
    ensures NoneHigher(Yield(s))
  {
    var m := Unblock(s, s.core.current);
    InsertKeepsOrdered(s.core.ready, s.core.current, s.books.prio, false);
    SwitchTakesHighest(m);
  }

  /** A thread that yields runs on exactly if it is not the idle thread and its priority is higher than that of every
      thread that is ready; otherwise the first of these runs, and the thread is ready, unless it is the idle thread. */
  lemma YieldGoesBehindEquals(s: State)
    requires Inv(s)
    ensures var s', cur := Yield(s), s.core.current;
            && NoneHigher(s')
            && (cur != s.core.idle ==>
                  (s'.core.current == cur <==>
                     forall t :: t in s.core.ready ==> KeyOf(s.books.prio, t) < KeyOf(s.books.prio, cur)))
            && (s'.core.current != cur ==>
                  && s.core.ready != [] && s'.core.current == s.core.ready[0]
                  && (cur != s.core.idle ==> cur in s'.core.ready))
  {
    var cur, q := s.core.current, s.core.ready;
    YieldLeavesNoneHigher(s);
    AtThread(s, cur, true);
    if cur != s.core.idle {
      var p := InsertPlace(q, cur, s.books.prio, false);
      if q != [] {
        FrontIsFirst(q, s.books.prio, false);
        assert q[0] in q;
      }
      YieldFrom(s, p);
    }
  }

  lemma YieldFrom(s: State, p: nat)
    requires s.core.current != s.core.idle && InsertedAt(s.core.ready, s.core.current, s.books.prio, false, p)
    ensures p == 0 ==> Yield(s).core.current == s.core.current
    ensures p > 0 ==> Yield(s).core.current == s.core.ready[0] && s.core.current in Yield(s).core.ready
  {
    var q, cur := s.core.ready, s.core.current;
    var r := q[..p] + [cur] + q[p..];
    if p > 0 {
      assert r[1..][p - 1] == cur;
    }
  }

  /** test_max_priority() switches exactly if a ready thread has a higher priority, and then to one of the highest. */
  lemma GivesWayExactly(s: State)
    requires Inv(s)
    ensures NoneHigher(YieldToHigher(s))
    ensures YieldToHigher(s).core.current != s.core.current <==> SomeHigher(s)
    ensures SomeHigher(s) ==> s.core.ready != [] && YieldToHigher(s).core.current == s.core.ready[0]
    ensures YieldToHigher(s).books == s.books && YieldToHigher(s).waiters == s.waiters
  {
    var q, cur := s.core.ready, s.core.current;
    AtThread(s, cur, true);
    if q != [] {
      FrontIsFirst(q, s.books.prio, false);
      assert q[0] in q;
    }
    if SomeHigher(s) {
      YieldGoesBehindEquals(s);
      if cur == s.core.idle {
        SwitchTakesHighest(Unblock(s, cur));
      }
    }
  }

  // ---- The calls that check ------------------------------------------------------------------

  /** The calls that end in test_max_priority(): sema_up(), thread_set_nice(), and thread_set_priority() to a lower
      priority, which only the priority mode heeds. */
  ghost predicate Checks(s: State, step: Step) {
    match step
    case TestMaxPriority => true
    case SemaUp(q) => q in s.waiters
    case SetNice(_) => true
    case SetPriority(p) => s.config.mode.PriorityMode? && p < KeyOf(s.books.prio, s.core.current)
    case _ => false
  }

  /** The state in which such a call checks. */
  ghost function AtCheck(s: State, step: Step): State
    requires Checks(s, step)
  {
    match step
    case TestMaxPriority => s
    case SemaUp(q) => if s.waiters[q] == [] then s else Unblock(PopWaiter(s, q), s.waiters[q][0])
    case SetNice(n) => Renice(s, n)
    case SetPriority(p) => WithPriority(s, p)
  }

  lemma AtCheckInv(s: State, step: Step)
    requires Inv(s) && Checks(s, step)
    ensures Inv(AtCheck(s, step)) && Next(s, step) == YieldToHigher(AtCheck(s, step))
    ensures AtCheck(s, step).core.current == s.core.current
  {
    match step
    case TestMaxPriority =>
    case SemaUp(q) => if s.waiters[q] != [] { PopWaiterKeeps(s, q); }
    case SetNice(n) => ReniceKeeps(s, n);
    case SetPriority(p) => WithPriorityKeeps(s, p);
  }

  /** On every run and in both modes: after such a call no ready thread has a higher priority than the running one. */
  lemma NoneHigherAfter(s: State, step: Step)
    requires Reachable(s) && Checks(s, step)
    ensures NoneHigher(Next(s, step))
  {
    ReachableInv(s);
    AtCheckInv(s, step);
    GivesWayExactly(AtCheck(s, step));
  }

  /** On every run: test_max_priority() and sema_up() switch only to a thread that was ready or that the call woke, and
      whose priority is strictly higher than that of the thread that ran. */
  lemma SwitchesOnlyToHigher(s: State, step: Step)
    requires Reachable(s) && (step.TestMaxPriority? || (step.SemaUp? && step.q in s.waiters))
    requires Next(s, step).core.current != s.core.current
    ensures var t := Next(s, step).core.current;
            && KeyOf(s.books.prio, t) > KeyOf(s.books.prio, s.core.current)
            && (t in s.core.ready || (step.SemaUp? && s.waiters[step.q] != [] && t == s.waiters[step.q][0]))
  {
    ReachableInv(s);
    AtCheckInv(s, step);
    var m := AtCheck(s, step);
    GivesWayExactly(m);
    FrontIsFirst(m.core.ready, m.books.prio, false);
    assert m.core.ready[0] in m.core.ready;
    if step.SemaUp? && s.waiters[step.q] != [] {
      InsertMember(s.core.ready, s.waiters[step.q][0], s.books.prio, false, m.core.ready[0]);
    }
  }
}

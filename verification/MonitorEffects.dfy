/** threads/synch.c: what each call on a lock or a condition variable does, from every reachable state. */
module MonitorEffects {
  import opened Basics
  import opened Queue
  import Semaphore
  import opened Monitor

  /** Thread `t` goes from `p` to `p'`, and no other thread moves. */
  ghost predicate Moves(s: State, s': State, t: Tid, p: Pc, p': Pc) {
    t in s.pc && s.pc[t] == p && s'.pc == s.pc[t := p']
  }

  /** Nothing of the condition variables changes. */
  ghost predicate SameConds(s: State, s': State) {
    s'.conds == s.conds && s'.own == s.own && s'.arrived == s.arrived && s'.freed == s.freed
      && s'.inFlight == s.inFlight
  }

  // ---- lock_acquire() ------------------------------------------------------------------------

  /** The only owner of the lock. */
  ghost predicate OnlyOwner(s: State, t: Tid) {
    Owners(s) == {t}
  }

  /** The test of the lock's semaphore, by a thread at `p`, for a lock that is free. */
  lemma TestTakes(s: State, t: Tid, back: Option<Cond>)
    requires Inv(s) && t in s.pc && !Owner(s.pc[t]) && s.lock.value > 0
    ensures var s' := LockTest(s, t, back);
            && s.lock.value == 1 && s'.lock == Semaphore.Sema(0, s.lock.waiters)
            && OnlyOwner(s', t) && Moves(s, s', t, s.pc[t], LockGot(back)) && SameConds(s, s') && s'.holder == s.holder
  {
    assert Owners(s) == {};
    Moved(s, t, LockGot(back));
    assert Owners(LockTest(s, t, back)) == Owners(At(s, t, LockGot(back)));
  }

  /** And for one that is not. */
  lemma TestQueues(s: State, t: Tid, back: Option<Cond>) returns (k: nat)
    requires Inv(s) && t in s.pc && !Owner(s.pc[t]) && s.lock.value == 0
    ensures var s' := LockTest(s, t, back);
            && s'.lock.value == 0 && QueuedAt(s.lock.waiters, s'.lock.waiters, t, s.prio, k)
            && Moves(s, s', t, s.pc[t], LockBlocked(back)) && SameConds(s, s') && s'.holder == s.holder
  {
    k := InsertPlace(s.lock.waiters, t, s.prio, false);
  }

  /** SetHolder by the thread that got the lock. */
  lemma BecomesHolder(s: State, t: Tid, back: Option<Cond>)
    requires Inv(s) && t in s.pc && s.pc[t] == LockGot(back)
    ensures var s' := Next(s, SetHolder(t));
            s'.holder == Some(t) && Moves(s, s', t, LockGot(back), Held) && s'.lock == s.lock && SameConds(s, s')
  {
    AtThread(s, t);
  }

  /** lock_acquire() of a free lock: the thread then is its one owner, no other thread moves, and the thread becomes the
      holder. */
  lemma AcquireTakesFreeLock(s: State, t: Tid)
    requires Reachable(s) && t in s.pc && s.pc[t].Free? && s.lock.value > 0
    ensures var s1 := Next(s, Acquire(t));
            var s2 := Next(s1, SetHolder(t));
            && s.lock.value == 1 && s1.lock == Semaphore.Sema(0, s.lock.waiters) && OnlyOwner(s1, t)
            && Moves(s, s1, t, Free, LockGot(None)) && SameConds(s, s1)
            && s2.holder == Some(t) && s2.pc == s.pc[t := Held] && s2.lock == s1.lock && SameConds(s, s2)
  {
    ReachableInv(s);
    AtThread(s, t);
    TestTakes(s, t, None);
    NextKeepsInv(s, Acquire(t));
    BecomesHolder(Next(s, Acquire(t)), t, None);
  }

  /** lock_acquire() of a lock that is not free: the thread joins the waiters by its priority, and no other moves. */
  lemma AcquireWaits(s: State, t: Tid) returns (k: nat)
    requires Reachable(s) && t in s.pc && s.pc[t].Free? && s.lock.value == 0
    ensures var s' := Next(s, Acquire(t));
            && s'.lock.value == 0 && QueuedAt(s.lock.waiters, s'.lock.waiters, t, s.prio, k)
            && Moves(s, s', t, Free, LockBlocked(None)) && SameConds(s, s') && s'.holder == s.holder
  {
    ReachableInv(s);
    AtThread(s, t);
    k := TestQueues(s, t, None);
  }

  /** A thread woken from the lock's waiters takes the lock if it is free, and waits again if it is not. */
  lemma RetryTakesOrWaits(s: State, t: Tid, back: Option<Cond>) returns (k: nat)
    requires Reachable(s) && t in s.pc && s.pc[t] == LockRetry(back)
    ensures var s' := Next(s, Retry(t));
            && s'.lock.value == 0 && SameConds(s, s')
            && (s.lock.value > 0 ==>
                  && OnlyOwner(s', t) && Moves(s, s', t, LockRetry(back), LockGot(back))
                  && s'.lock.waiters == s.lock.waiters)
            && (s.lock.value == 0 ==>
                  && QueuedAt(s.lock.waiters, s'.lock.waiters, t, s.prio, k)
                  && Moves(s, s', t, LockRetry(back), LockBlocked(back)))
  {
    ReachableInv(s);
    AtThread(s, t);
    if s.lock.value > 0 {
      TestTakes(s, t, back);
      k := 0;
    } else {
      k := TestQueues(s, t, back);
    }
  }

  lemma RelockIs(s: State, t: Tid, c: Cond)
    requires Ready(s, t) && s.pc[t] == Reacquire(c)
    ensures Next(s, Relock(t)) == LockTest(s, t, Some(c))
  {
  }

  /** The end of cond_wait(), when the lock is free: the thread takes it, and becomes the holder. */
  lemma RelockTakesFreeLock(s: State, t: Tid, c: Cond)
    requires Reachable(s) && t in s.pc && s.pc[t] == Reacquire(c) && s.lock.value > 0
    ensures var s1 := Next(s, Relock(t));
            var s2 := Next(s1, SetHolder(t));
            && s1.lock == Semaphore.Sema(0, s.lock.waiters) && OnlyOwner(s1, t) && SameConds(s, s1)
            && Moves(s, s1, t, Reacquire(c), LockGot(Some(c))) && s2.holder == Some(t) && s2.pc == s.pc[t := Held]
  {
    ReachableInv(s);
    AtThread(s, t);
    TestTakes(s, t, Some(c));
    RelockIs(s, t, c);
    NextKeepsInv(s, Relock(t));
    BecomesHolder(LockTest(s, t, Some(c)), t, Some(c));
  }

  /** And when it is not: the thread joins the lock's waiters. */
  lemma RelockWaits(s: State, t: Tid, c: Cond) returns (k: nat)
    requires Reachable(s) && t in s.pc && s.pc[t] == Reacquire(c) && s.lock.value == 0
    ensures var s' := Next(s, Relock(t));
            && s'.lock.value == 0 && QueuedAt(s.lock.waiters, s'.lock.waiters, t, s.prio, k)
            && Moves(s, s', t, Reacquire(c), LockBlocked(Some(c))) && SameConds(s, s') && s'.holder == s.holder
  {
    ReachableInv(s);
    AtThread(s, t);
    RelockIs(s, t, c);
    k := TestQueues(s, t, Some(c));
  }

  /** lock_try_acquire() takes a free lock, and leaves one that is not free alone. */
  lemma TryAcquireTakesOrFails(s: State, t: Tid)
    requires Reachable(s) && t in s.pc && s.pc[t].Free?
    ensures var s' := Next(s, TryAcquire(t));
            && (s.lock.value == 0 ==> s' == s)
            && (s.lock.value > 0 ==>
                  && s'.lock == Semaphore.Sema(0, s.lock.waiters) && OnlyOwner(s', t)
                  && Moves(s, s', t, Free, LockGot(None)) && SameConds(s, s')
                  && Next(s', SetHolder(t)).holder == Some(t) && Next(s', SetHolder(t)).pc == s.pc[t := Held])
  {
    ReachableInv(s);
    AtThread(s, t);
    if s.lock.value > 0 {
      TestTakes(s, t, None);
      TryAcquireIs(s, t);
      NextKeepsInv(s, TryAcquire(t));
      BecomesHolder(LockTest(s, t, None), t, None);
    }
  }

  lemma TryAcquireIs(s: State, t: Tid)
    requires Ready(s, t) && s.pc[t].Free? && s.lock.value > 0
    ensures Next(s, TryAcquire(t)) == LockTest(s, t, None)
  {
  }

  // ---- lock_release() ------------------------------------------------------------------------

  /** lock_release() starts, by the holder or inside cond_wait(): there is no holder any more, but the thread still has
      the lock's unit. */
  lemma ReleaseClearsHolder(s: State, t: Tid)
    requires Reachable(s) && t in s.pc && (s.pc[t].Held? || s.pc[t].WaitPushed?)
    ensures var s' := Next(s, ClearHolder(t));
            && s.holder == Some(t) && s'.holder == None && s'.lock == s.lock && SameConds(s, s')
            && Moves(s, s', t, s.pc[t], Releasing(if s.pc[t].Held? then None else Some(s.pc[t].c)))
  {
    ReachableInv(s);
    AtThread(s, t);
  }

  /** Its sema_up(): the lock is free, and the first of its waiters, if any, is off the list and on its way to the
      lock; the thread is done, or goes on in cond_wait(). */
  lemma ReleaseFreesLock(s: State, t: Tid, back: Option<Cond>)
    requires Reachable(s) && t in s.pc && s.pc[t] == Releasing(back)
    ensures var s', done := Next(s, ReleaseUp(t)), if back.Some? then WaitDown(back.value) else Free;
            && s'.lock.value == 1 && Owners(s') == {} && SameConds(s, s')
            && (s.lock.waiters == [] ==> s'.lock.waiters == [] && Moves(s, s', t, Releasing(back), done))
            && (s.lock.waiters != [] ==>
                  var w := s.lock.waiters[0];
                  && s'.lock.waiters == s.lock.waiters[1..] && w in s.pc && s.pc[w].LockBlocked? && w != t
                  && s'.pc == s.pc[w := LockRetry(s.pc[w].back)][t := done])
  {
    ReachableInv(s);
    AtThread(s, t);
    NextKeepsInv(s, ReleaseUp(t));
    assert t in Owners(s);
    if s.lock.waiters != [] {
      assert s.lock.waiters[0] in s.lock.waiters && Look(s.lock.waiters[0]);
    }
    ReleaseUpIs(s, t, back);
    NoOwners(Next(s, ReleaseUp(t)));
  }

  lemma ReleaseUpIs(s: State, t: Tid, back: Option<Cond>)
    requires Ready(s, t) && s.pc[t] == Releasing(back)
    ensures Next(s, ReleaseUp(t)) == At(LockUp(s), t, if back.Some? then WaitDown(back.value) else Free)
  {
  }

  lemma NoOwners(s: State)
    requires Inv(s) && s.lock.value >= 1
    ensures s.lock.value == 1 && Owners(s) == {}
  {
  }

  // ---- cond_wait() and its signals -----------------------------------------------------------

  /** cond_wait() by the holder puts it at the end of the condition's list and of no other, with its semaphore at 0; it
      still has the lock. */
  lemma WaitJoinsList(s: State, t: Tid, c: Cond)
    requires Reachable(s) && t in s.pc && s.pc[t].Held? && c in s.conds
    ensures var s' := Next(s, Wait(t, c));
            && c in s.arrived && s'.conds == s.conds[c := s.conds[c] + [t]]
            && s'.arrived == s.arrived[c := s.arrived[c] + [t]] && s'.freed == s.freed && s'.own == s.own[t := 0]
            && Moves(s, s', t, Held, WaitPushed(c)) && s'.lock == s.lock && s'.holder == s.holder == Some(t)
  {
    ReachableInv(s);
    AtThread(s, t);
    AtCond(s, c);
  }

  /** A test of the thread's own semaphore: with a unit it goes on to lock_acquire(), without one it sleeps. */
  lemma WaitTestPassesOrSleeps(s: State, t: Tid, c: Cond)
    requires Reachable(s) && t in s.pc && (s.pc[t] == WaitDown(c) || s.pc[t] == WaitRetry(c))
    ensures t in s.own && t in s.passes
    ensures var s' := Next(s, WaitTest(t));
            && s'.conds == s.conds && s'.lock == s.lock && s'.holder == s.holder
            && (s.own[t] == 0 ==> Moves(s, s', t, s.pc[t], WaitBlocked(c)) && s'.own == s.own && s'.passes == s.passes)
            && (s.own[t] > 0 ==>
                  && Moves(s, s', t, s.pc[t], Reacquire(c))
                  && s'.own == s.own[t := 0] && s'.passes == s.passes[t := s.passes[t] + 1])
  {
    ReachableInv(s);
    AtThread(s, t);
  }

  /** cond_signal() on a condition without waiters does nothing. */
  lemma SignalNobody(s: State, t: Tid, c: Cond)
    requires c in s.conds && s.conds[c] == []
    ensures Next(s, Signal(t, c)) == s
  {
  }

  /** cond_broadcast() by the holder: it is to free all that have arrived. */
  lemma BroadcastBegins(s: State, t: Tid, c: Cond)
    requires Reachable(s) && t in s.pc && s.pc[t].Held? && c in s.conds
    ensures var s' := Next(s, Broadcast(t, c));
            && c in s.arrived && Moves(s, s', t, Held, Broadcasting(c, s.arrived[c]))
            && SameConds(s, s') && s'.lock == s.lock && s'.holder == s.holder
  {
    ReachableInv(s);
    AtThread(s, t);
    AtCond(s, c);
  }

  /** A turn of its loop: it takes the oldest waiter off the list and signals it, or is done when there is none. */
  lemma BroadcastGoesOn(s: State, t: Tid, c: Cond, target: seq<Tid>)
    requires Reachable(s) && t in s.pc && s.pc[t] == Broadcasting(c, target)
    ensures c in s.conds && c in s.freed
    ensures var s' := Next(s, BroadcastTest(t));
            && s'.lock == s.lock && s'.holder == s.holder
            && (s.conds[c] == [] ==> Moves(s, s', t, s.pc[t], Held) && SameConds(s, s'))
            && (s.conds[c] != [] ==>
                  && Moves(s, s', t, s.pc[t], Signalling(s.conds[c][0], c, true, target))
                  && s'.conds == s.conds[c := s.conds[c][1..]]
                  && s'.freed == s.freed[c := s.freed[c] + [s.conds[c][0]]])
  {
    ReachableInv(s);
    AtThread(s, t);
    BroadcastTarget(s, t);
  }

  /** Its sema_up(): the waiter has its unit and is awake, and the broadcaster is back at the test of its loop. */
  lemma BroadcastFrees(s: State, t: Tid, w: Tid, c: Cond, target: seq<Tid>)
    requires Reachable(s) && t in s.pc && s.pc[t] == Signalling(w, c, true, target)
    ensures w in s.own && w in s.pc && w != t
    ensures var s' := Next(s, SignalUp(t));
            && s.own[w] == 0 && s'.own == s.own[w := 1] && s'.conds == s.conds && s'.lock == s.lock
            && s'.pc == s.pc[t := Broadcasting(c, target)]
                            [w := if s.pc[w].WaitBlocked? then WaitRetry(s.pc[w].c) else s.pc[w]]
  {
    ReachableInv(s);
    AtThread(s, t);
    InFlightWaiter(s, t);
    AtThread(s, w);
    SignalUpIs(s, t, w);
    BroadcastUpIs(s, t, w, c, target);
  }

  lemma BroadcastUpIs(s: State, t: Tid, w: Tid, c: Cond, target: seq<Tid>)
    requires t in s.pc && s.pc[t] == Signalling(w, c, true, target) && Ready(s, w) && w != t
    ensures var s' := Signalled(s, t);
            && s'.own == s.own[w := s.own[w] + 1] && s'.conds == s.conds && s'.lock == s.lock
            && s'.pc == s.pc[t := Broadcasting(c, target)]
                            [w := if s.pc[w].WaitBlocked? then WaitRetry(s.pc[w].c) else s.pc[w]]
  {
    var s1 := OwnUp(s, w);
    var w' := if s.pc[w].WaitBlocked? then WaitRetry(s.pc[w].c) else s.pc[w];
    assert s1.pc == s.pc[w := w'];
    SwapUpdates(s.pc, t, Broadcasting(c, target), w, w');
  }

  lemma SwapUpdates(pc: map<Tid, Pc>, t: Tid, p: Pc, w: Tid, p': Pc)
    requires t != w
    ensures pc[w := p'][t := p] == pc[t := p][w := p']
  {
  }

  // ---- Priorities ----------------------------------------------------------------------------

  /** A change of priority moves no thread. */
  lemma PriorityChanges(s: State, t: Tid, p: int)
    ensures var s' := Next(s, SetPriority(t, p)); KeyOf(s'.prio, t) == p && s' == s.(prio := s'.prio)
    ensures forall u :: u != t ==> KeyOf(Next(s, SetPriority(t, p)).prio, u) == KeyOf(s.prio, u)
  {
  }

  /** A run of one more step. */
  lemma {:induction false} RunEnds(s: State, steps: seq<Step>, step: Step)
    ensures Run(s, steps + [step]) == Next(Run(s, steps), step)
    decreases |steps|
  {
    if steps == [] {
      assert Run(Next(s, step), []) == Next(s, step);
    } else {
      RunEnds(Next(s, steps[0]), steps[1..], step);
      assert (steps + [step])[1..] == steps[1..] + [step];
    }
  }
}

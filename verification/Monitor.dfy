/** threads/synch.c: a lock and its condition variables, over every interleaving of any number of threads.

    A step is what a thread does up to the next point at which another can run: interrupts are off inside the
    semaphore operations, and lock_acquire(), lock_release(), cond_wait() and cond_signal() can be preempted
    between any two of their statements. */
module Monitor {
  import opened Basics
  import opened Queue
  import Semaphore

  type Cond = int

  /** Where a thread is. A `back` of Some(c) means inside cond_wait() on `c`. */
  datatype Pc =
    | Free                                        // not in a call, not holding the lock
    | LockBlocked(back: Option<Cond>)             // in lock_acquire(), asleep among the lock's waiters
    | LockRetry(back: Option<Cond>)               // woken there
    | LockGot(back: Option<Cond>)                 // sema_down() is through, holder not yet set
    | Held                                        // owns the lock
    | Releasing(back: Option<Cond>)               // in lock_release(), holder cleared, before sema_up()
    | WaitPushed(c: Cond)                         // in cond_wait(), on the waiters list, still holding the lock
    | WaitDown(c: Cond)                           // lock released, before sema_down() on its own semaphore
    | WaitBlocked(c: Cond)                        // asleep on its own semaphore
    | WaitRetry(c: Cond)                          // woken there
    | Reacquire(c: Cond)                          // past its own semaphore, before lock_acquire()
    | Signalling(w: Tid, c: Cond, all: bool, target: seq<Tid>)  // has taken `w` off the list, before its sema_up()
    | Broadcasting(c: Cond, target: seq<Tid>)     // at the loop test of cond_broadcast()

  /** Holder is set to this thread. */
  predicate Holding(p: Pc) {
    p.Held? || p.WaitPushed? || p.Signalling? || p.Broadcasting?
  }

  /** Has the lock's semaphore unit. */
  predicate Owner(p: Pc) {
    Holding(p) || p.LockGot? || p.Releasing?
  }

  /** The condition in cond_wait() on which the thread has not yet got past its own semaphore. */
  function WaitsFor(p: Pc): Option<Cond> {
    match p
    case WaitPushed(c) => Some(c)
    case Releasing(back) => back
    case WaitDown(c) => Some(c)
    case WaitBlocked(c) => Some(c)
    case WaitRetry(c) => Some(c)
    case _ => None
  }

  /** The lock, the conditions' waiters, and each thread's position, priority and semaphore value in cond_wait().
      The last five fields are history: a waiter off its list but not yet upped, each condition's waiters in
      order of arrival and in order of being taken off the list, and each thread's sema_up()s received and waits
      got through. */
  datatype State = State(
    lock: Semaphore.Sema, holder: Option<Tid>, conds: map<Cond, seq<Tid>>,
    pc: map<Tid, Pc>, own: map<Tid, nat>, prio: map<Tid, int>,
    inFlight: Option<Tid>, arrived: map<Cond, seq<Tid>>, freed: map<Cond, seq<Tid>>,
    signals: map<Tid, nat>, passes: map<Tid, nat>)

  datatype Step =
    | Acquire(t: Tid)             // lock_acquire(), up to its first test
    | TryAcquire(t: Tid)          // lock_try_acquire(), its sema_try_down()
    | Retry(t: Tid)               // a thread woken from the lock's waiters tests again
    | SetHolder(t: Tid)           // lock_acquire() and cond_wait() end
    | ClearHolder(t: Tid)         // lock_release() starts
    | ReleaseUp(t: Tid)           // lock_release(): sema_up()
    | Wait(t: Tid, c: Cond)       // cond_wait() up to pushing the waiter
    | WaitTest(t: Tid)            // cond_wait(): a test of its own semaphore
    | Relock(t: Tid)              // cond_wait(): lock_acquire()
    | Signal(t: Tid, c: Cond)     // cond_signal(): take the oldest waiter off the list
    | SignalUp(t: Tid)            // cond_signal(): sema_up() on the waiter's semaphore
    | Broadcast(t: Tid, c: Cond)  // cond_broadcast() starts
    | BroadcastTest(t: Tid)       // cond_broadcast(): loop test and cond_signal()
    | SetPriority(t: Tid, priority: int)

  function Start(threads: set<Tid>, conds: set<Cond>): State {
    State(Semaphore.Sema(1, []), None, map c | c in conds :: [],
          map t | t in threads :: Free, map t | t in threads :: 0, map[],
          None, map c | c in conds :: [], map c | c in conds :: [],
          map t | t in threads :: 0, map t | t in threads :: 0)
  }

  function At(s: State, t: Tid, p: Pc): State {
    s.(pc := s.pc[t := p])
  }

  /** A test of the lock's semaphore. */
  function LockTest(s: State, t: Tid, back: Option<Cond>): State {
    At(s.(lock := Semaphore.Test(s.lock, t, s.prio)), t, if s.lock.value > 0 then LockGot(back) else LockBlocked(back))
  }

  /** sema_up() on the lock's semaphore. */
  function LockUp(s: State): State {
    var s' := s.(lock := Semaphore.Up(s.lock));
    if s.lock.waiters == [] || s.lock.waiters[0] !in s.pc || !s.pc[s.lock.waiters[0]].LockBlocked? then s'
    else At(s', s.lock.waiters[0], LockRetry(s.pc[s.lock.waiters[0]].back))
  }

  /** cond_signal() up to its sema_up(), for a condition with a waiter. */
  function TakeOff(s: State, t: Tid, c: Cond, all: bool, target: seq<Tid>): State
    requires c in s.conds && s.conds[c] != [] && c in s.freed
  {
    var w := s.conds[c][0];
    At(s.(conds := s.conds[c := s.conds[c][1..]], freed := s.freed[c := s.freed[c] + [w]], inFlight := Some(w)),
       t, Signalling(w, c, all, target))
  }

  /** sema_up() on the semaphore of a thread in cond_wait(). */
  function OwnUp(s: State, w: Tid): State
    requires w in s.own && w in s.signals && w in s.pc
  {
    var s' := s.(own := s.own[w := s.own[w] + 1], signals := s.signals[w := s.signals[w] + 1], inFlight := None);
    if s.pc[w].WaitBlocked? then At(s', w, WaitRetry(s.pc[w].c)) else s'
  }

  predicate Ready(s: State, t: Tid) {
    t in s.pc && t in s.own && t in s.signals && t in s.passes
  }

  /** One step; a step that the thread is not in a position to take changes nothing. */
  function Next(s: State, step: Step): State {
    if step.SetPriority? then s.(prio := s.prio[step.t := step.priority])
    else if !Ready(s, step.t) then s
    else StepOf(s, step)
  }

  function StepOf(s: State, step: Step): State
    requires Ready(s, step.t) && !step.SetPriority?
  {
    var t := step.t;
    var p := s.pc[t];
    match step
    case Acquire(_) => if p.Free? then LockTest(s, t, None) else s
    case TryAcquire(_) =>
      if p.Free? && s.lock.value > 0 then At(s.(lock := s.lock.(value := s.lock.value - 1)), t, LockGot(None)) else s
    case Retry(_) => if p.LockRetry? then LockTest(s, t, p.back) else s
    case SetHolder(_) => if p.LockGot? then At(s.(holder := Some(t)), t, Held) else s
    case ClearHolder(_) =>
      if p.Held? then At(s.(holder := None), t, Releasing(None))
      else if p.WaitPushed? then At(s.(holder := None), t, Releasing(Some(p.c)))
      else s
    case ReleaseUp(_) =>
      if p.Releasing? then At(LockUp(s), t, if p.back.Some? then WaitDown(p.back.value) else Free) else s
    case Wait(_, c) =>
      if p.Held? && c in s.conds && c in s.arrived then
        At(s.(conds := s.conds[c := s.conds[c] + [t]], arrived := s.arrived[c := s.arrived[c] + [t]],
              own := s.own[t := 0]), t, WaitPushed(c))
      else s
    case WaitTest(_) =>
      if p.WaitDown? || p.WaitRetry? then
        if s.own[t] > 0 then
          At(s.(own := s.own[t := s.own[t] - 1], passes := s.passes[t := s.passes[t] + 1]), t, Reacquire(p.c))
        else At(s, t, WaitBlocked(p.c))
      else s
    case Relock(_) => if p.Reacquire? then LockTest(s, t, Some(p.c)) else s
    case Signal(_, c) =>
      if p.Held? && c in s.conds && c in s.freed && s.conds[c] != [] then TakeOff(s, t, c, false, []) else s
    case SignalUp(_) =>
      if p.Signalling? && Ready(s, p.w)
      then At(OwnUp(s, p.w), t, if p.all then Broadcasting(p.c, p.target) else Held)
      else s
    case Broadcast(_, c) =>
      if p.Held? && c in s.arrived then At(s, t, Broadcasting(c, s.arrived[c])) else s
    case BroadcastTest(_) =>
      if !p.Broadcasting? || p.c !in s.conds || p.c !in s.freed then s
      else if s.conds[p.c] == [] then At(s, t, Held)
      else TakeOff(s, t, p.c, true, p.target)
  }

  function Run(s: State, steps: seq<Step>): State
    decreases |steps|
  {
    if steps == [] then s else Run(Next(s, steps[0]), steps[1..])
  }

  // ---- The invariant -------------------------------------------------------------------------

  ghost function Owners(s: State): set<Tid> {
    set t | t in s.pc && Owner(s.pc[t])
  }

  ghost function Retrying(s: State): set<Tid> {
    set t | t in s.pc && s.pc[t].LockRetry?
  }

  ghost predicate Shape(s: State) {
    && s.own.Keys == s.pc.Keys && s.signals.Keys == s.pc.Keys && s.passes.Keys == s.pc.Keys
    && s.arrived.Keys == s.conds.Keys && s.freed.Keys == s.conds.Keys
  }

  /** The semaphore's units: exactly one, with an owner or in the semaphore; and a free unit is never left lying
      while threads sleep unless a woken one is on its way to it. */
  ghost predicate LockInv(s: State) {
    && NoDup(s.lock.waiters)
    && (forall t {:trigger Look(t)} :: t in s.lock.waiters <==> t in s.pc && s.pc[t].LockBlocked?)
    && s.lock.value + |Owners(s)| == 1
    && (s.lock.waiters != [] ==> s.lock.value <= |Retrying(s)|)
  }

  ghost predicate HolderOk(s: State, t: Tid)
    requires t in s.pc
  {
    && (s.holder == Some(t) <==> Holding(s.pc[t]))
    && (s.pc[t].Signalling? ==> s.inFlight == Some(s.pc[t].w))
  }

  ghost predicate HolderInv(s: State) {
    && (forall t {:trigger Look(t)} :: t in s.pc ==> HolderOk(s, t))
    && (s.holder.Some? ==> s.holder.value in s.pc)
    && (s.inFlight.Some? ==> s.inFlight.value in s.pc && s.holder.Some? && s.pc[s.holder.value].Signalling?)
  }

  /** A condition's list holds, in order of arrival, the waiters that no signal has taken off it. */
  ghost predicate CondOk(s: State, c: Cond)
    requires c in s.conds
  {
    && c in s.arrived && c in s.freed
    && NoDup(s.conds[c])
    && s.arrived[c] == s.freed[c] + s.conds[c]
  }

  ghost predicate CondInv(s: State) {
    forall c {:trigger Look(c)} :: c in s.conds ==> CondOk(s, c)
  }

  /** A thread in cond_wait() is on the list, or in the hands of a signaller, or has its unit: exactly one of the
      three. With its unit it is not asleep. Every wait it got past took one signal that was sent to it. And no
      waiter arrives while a thread is in cond_broadcast(). */
  ghost predicate ThreadOk(s: State, t: Tid)
    requires t in s.pc
  {
    && t in s.own && t in s.signals && t in s.passes
    && s.signals[t] == s.passes[t] + s.own[t]
    && (forall c :: c in s.conds && t in s.conds[c] ==> WaitsFor(s.pc[t]) == Some(c))
    && (match WaitsFor(s.pc[t])
        case None => s.own[t] == 0 && s.inFlight != Some(t)
        case Some(c) =>
          && c in s.conds
          && s.own[t] <= 1
          && (t in s.conds[c] ==> s.own[t] == 0 && s.inFlight != Some(t))
          && (s.inFlight == Some(t) ==> s.own[t] == 0)
          && (t in s.conds[c] || s.inFlight == Some(t) || s.own[t] == 1))
    && (s.pc[t].WaitBlocked? ==> s.own[t] == 0)
    && (s.pc[t].WaitRetry? ==> s.own[t] == 1)
    && (s.pc[t].Broadcasting? || (s.pc[t].Signalling? && s.pc[t].all) ==>
          s.pc[t].c in s.conds && s.pc[t].c in s.arrived && s.arrived[s.pc[t].c] == s.pc[t].target)
  }

  /** And the threads on the lists exist. */
  ghost predicate ThreadsInv(s: State) {
    && (forall t {:trigger Look(t)} :: t in s.pc ==> ThreadOk(s, t))
    && (forall c, t :: c in s.conds && t in s.conds[c] ==> t in s.pc)
  }

  /** What does not concern the lock's semaphore. */
  ghost predicate RestInv(s: State) {
    Shape(s) && HolderInv(s) && CondInv(s) && ThreadsInv(s)
  }

  ghost predicate Inv(s: State) {
    LockInv(s) && RestInv(s)
  }

  // ---- Every step keeps it -------------------------------------------------------------------

  /** Where moving one thread leaves the owners and the threads retrying for the lock. */
  lemma Moved(s: State, t: Tid, p: Pc)
    requires t in s.pc
    ensures Owners(At(s, t, p)) == if Owner(p) then Owners(s) + {t} else Owners(s) - {t}
    ensures Retrying(At(s, t, p)) == if p.LockRetry? then Retrying(s) + {t} else Retrying(s) - {t}
  {
  }

  lemma LockTestKeepsLock(s: State, t: Tid, back: Option<Cond>)
    requires LockInv(s) && t in s.pc && !Owner(s.pc[t]) && !s.pc[t].LockBlocked?
    ensures LockInv(LockTest(s, t, back))
  {
    Moved(s, t, if s.lock.value > 0 then LockGot(back) else LockBlocked(back));
    assert Look(t);
    if s.lock.value == 0 {
      InsertMembers(s.lock.waiters, t, s.prio, false);
    }
    var s' := LockTest(s, t, back);
    assert Owners(s') == Owners(At(s, t, s'.pc[t])) && Retrying(s') == Retrying(At(s, t, s'.pc[t]));
    forall u
      ensures u in s'.lock.waiters <==> u in s'.pc && s'.pc[u].LockBlocked?
    {
      assert Look(u);
    }
  }

  /** Outside the lock's semaphore and the priorities, the two states differ in thread `t`'s position only. */
  ghost predicate OnlyMoves(s: State, s': State, t: Tid) {
    && t in s.pc && t in s'.pc && s'.pc == s.pc[t := s'.pc[t]]
    && s' == s.(lock := s'.lock, pc := s'.pc, prio := s'.prio)
  }

  /** A move that neither takes nor gives up the holder's role nor changes what the thread waits for. */
  ghost predicate QuietMove(s: State, s': State, t: Tid) {
    && OnlyMoves(s, s', t)
    && Holding(s.pc[t]) == Holding(s'.pc[t]) && WaitsFor(s.pc[t]) == WaitsFor(s'.pc[t])
    && !s.pc[t].Signalling? && !s'.pc[t].Signalling? && !s'.pc[t].Broadcasting?
    && (s'.pc[t].WaitBlocked? ==> t in s.own && s.own[t] == 0) && !s'.pc[t].WaitRetry?
  }

  lemma QuietMoveKeepsHolder(s: State, s': State, t: Tid)
    requires HolderInv(s) && QuietMove(s, s', t)
    ensures HolderInv(s')
  {
    forall u | u in s'.pc
      ensures HolderOk(s', u)
    {
      assert Look(u);
    }
    assert s.holder.Some? ==> Look(s.holder.value);
  }

  lemma QuietMoveKeepsThreads(s: State, s': State, t: Tid)
    requires ThreadsInv(s) && QuietMove(s, s', t)
    ensures ThreadsInv(s')
  {
    forall u | u in s'.pc
      ensures ThreadOk(s', u)
    {
      assert Look(u);
    }
  }

  lemma QuietMoveKeepsRest(s: State, s': State, t: Tid)
    requires RestInv(s) && QuietMove(s, s', t)
    ensures RestInv(s')
  {
    QuietMoveKeepsHolder(s, s', t);
    QuietMoveKeepsThreads(s, s', t);
    SameCondsKeepCondInv(s, s');
  }

  lemma SameCondsKeepCondInv(s: State, s': State)
    requires CondInv(s) && s'.conds == s.conds && s'.arrived == s.arrived && s'.freed == s.freed
    ensures CondInv(s')
  {
    forall c | c in s'.conds
      ensures CondOk(s', c)
    {
      assert Look(c);
    }
  }

  lemma LockTestKeepsInv(s: State, t: Tid, back: Option<Cond>)
    requires Inv(s) && t in s.pc && (s.pc[t].Free? || s.pc[t].LockRetry? || s.pc[t].Reacquire?)
    ensures Inv(LockTest(s, t, back))
  {
    LockTestKeepsLock(s, t, back);
    QuietMoveKeepsRest(s, LockTest(s, t, back), t);
  }

  lemma TryAcquireKeepsInv(s: State, t: Tid)
    requires Inv(s) && t in s.pc && s.pc[t].Free? && s.lock.value > 0
    ensures Inv(At(s.(lock := s.lock.(value := s.lock.value - 1)), t, LockGot(None)))
  {
    var s' := At(s.(lock := s.lock.(value := s.lock.value - 1)), t, LockGot(None));
    QuietMoveKeepsRest(s, s', t);
    TryAcquireKeepsLock(s, t);
  }

  lemma TryAcquireKeepsLock(s: State, t: Tid)
    requires LockInv(s) && t in s.pc && s.pc[t].Free? && s.lock.value > 0
    ensures LockInv(At(s.(lock := s.lock.(value := s.lock.value - 1)), t, LockGot(None)))
  {
    var s' := At(s.(lock := s.lock.(value := s.lock.value - 1)), t, LockGot(None));
    Moved(s, t, LockGot(None));
    assert Owners(s') == Owners(At(s, t, LockGot(None))) && Retrying(s') == Retrying(At(s, t, LockGot(None)));
    forall u
      ensures u in s'.lock.waiters <==> u in s'.pc && s'.pc[u].LockBlocked?
    {
      assert Look(u);
    }
  }

  // The lock is released.

  lemma LockUpKeepsRest(s: State)
    requires RestInv(s)
    ensures RestInv(LockUp(s))
  {
    if s.lock.waiters == [] || s.lock.waiters[0] !in s.pc || !s.pc[s.lock.waiters[0]].LockBlocked? {
      var s' := LockUp(s);
      LockOnlyKeepsRest(s, s');
    } else {
      QuietMoveKeepsRest(s, LockUp(s), s.lock.waiters[0]);
    }
  }

  lemma LockOnlyKeepsRest(s: State, s': State)
    requires RestInv(s) && s' == s.(lock := s'.lock, prio := s'.prio)
    ensures RestInv(s')
  {
    forall u | u in s'.pc
      ensures HolderOk(s', u) && ThreadOk(s', u)
    {
      assert Look(u);
    }
    SameCondsKeepCondInv(s, s');
  }

  lemma ReleaseUpKeepsLock(s: State, t: Tid, p: Pc)
    requires LockInv(s) && t in s.pc && s.pc[t].Releasing? && (p.Free? || p.WaitDown?)
    ensures LockInv(At(LockUp(s), t, p))
  {
    if s.lock.waiters == [] {
      ReleaseWithoutWaiter(s, At(LockUp(s), t, p), t, p);
    } else {
      assert Look(t) && Look(s.lock.waiters[0]);
      assert s.lock.waiters[0] in s.lock.waiters;
      ReleaseToWaiter(s, At(LockUp(s), t, p), t, p, s.lock.waiters[0]);
    }
  }

  lemma ReleaseWithoutWaiter(s: State, s': State, t: Tid, p: Pc)
    requires LockInv(s) && t in s.pc && s.pc[t].Releasing? && (p.Free? || p.WaitDown?)
    requires s.lock.waiters == [] && s'.lock == Semaphore.Up(s.lock) && s'.pc == s.pc[t := p]
    ensures LockInv(s')
  {
    assert Owners(s') == Owners(s) - {t};
    forall u
      ensures u in s'.lock.waiters <==> u in s'.pc && s'.pc[u].LockBlocked?
    {
      assert Look(u);
    }
  }

  lemma ReleaseToWaiter(s: State, s': State, t: Tid, p: Pc, w: Tid)
    requires LockInv(s) && t in s.pc && s.pc[t].Releasing? && (p.Free? || p.WaitDown?)
    requires s.lock.waiters != [] && w == s.lock.waiters[0] && w in s.pc && s.pc[w].LockBlocked?
    requires s'.lock == Semaphore.Up(s.lock) && s'.pc == s.pc[w := LockRetry(s.pc[w].back)][t := p]
    ensures LockInv(s')
  {
    assert Owners(s') == Owners(s) - {t};
    assert Retrying(s') == Retrying(s) + {w};
    assert w !in Retrying(s);
    assert s.lock.waiters == [w] + s'.lock.waiters;
    forall u
      ensures u in s'.lock.waiters <==> u in s'.pc && s'.pc[u].LockBlocked?
    {
      assert Look(u);
    }
  }

  lemma ReleaseUpKeepsInv(s: State, t: Tid)
    requires Inv(s) && t in s.pc && s.pc[t].Releasing?
    ensures var b := s.pc[t].back; Inv(At(LockUp(s), t, if b.Some? then WaitDown(b.value) else Free))
  {
    var b := s.pc[t].back;
    var p := if b.Some? then WaitDown(b.value) else Free;
    ReleaseUpKeepsRest(s, t, p);
    ReleaseUpKeepsLock(s, t, p);
  }

  lemma ReleaseUpKeepsRest(s: State, t: Tid, p: Pc)
    requires RestInv(s) && t in s.pc && s.pc[t].Releasing? && (p.Free? || p.WaitDown?) && WaitsFor(p) == s.pc[t].back
    ensures RestInv(At(LockUp(s), t, p))
  {
    var m := LockUp(s);
    LockUpKeepsRest(s);
    assert t in m.pc && m.pc[t] == s.pc[t];
    LeaveKeepsRest(m, t, p);
  }

  lemma LeaveKeepsRest(s: State, t: Tid, p: Pc)
    requires RestInv(s) && t in s.pc && s.pc[t].Releasing? && (p.Free? || p.WaitDown?) && WaitsFor(p) == s.pc[t].back
    ensures RestInv(At(s, t, p))
  {
    QuietMoveKeepsRest(s, At(s, t, p), t);
  }

  // The lock's semaphore is not touched.

  /** Every thread has the part in the lock's semaphore that it had. */
  ghost predicate SameLockRoles(s: State, s': State) {
    && s'.lock == s.lock && s'.pc.Keys == s.pc.Keys
    && forall u {:trigger Look(u)} :: u in s.pc ==>
         && Owner(s'.pc[u]) == Owner(s.pc[u])
         && s'.pc[u].LockBlocked? == s.pc[u].LockBlocked?
         && s'.pc[u].LockRetry? == s.pc[u].LockRetry?
  }

  lemma SameRolesKeepLock(s: State, s': State)
    requires LockInv(s) && SameLockRoles(s, s')
    ensures LockInv(s')
  {
    forall u
      ensures u in Owners(s') <==> u in Owners(s)
      ensures u in Retrying(s') <==> u in Retrying(s)
      ensures u in s'.lock.waiters <==> u in s'.pc && s'.pc[u].LockBlocked?
    {
      assert Look(u);
    }
    assert Owners(s') == Owners(s) && Retrying(s') == Retrying(s);
  }

  lemma OneOwner(s: State, t: Tid, u: Tid)
    requires LockInv(s) && t in s.pc && u in s.pc && Owner(s.pc[t]) && Owner(s.pc[u])
    ensures t == u
  {
    if t != u {
      assert {t, u} <= Owners(s);
      SubsetSize({t, u}, Owners(s));
    }
  }

  lemma {:induction false} SubsetSize(a: set<Tid>, b: set<Tid>)
    requires a <= b
    ensures |a| <= |b|
  {
    if a != {} {
      var x := AnyMember(a);
      SubsetSize(a - {x}, b - {x});
    }
  }

  /** An owner that is not the holder: there is no holder, and no waiter in flight. */
  lemma NoHolder(s: State, t: Tid)
    requires Inv(s) && t in s.pc && Owner(s.pc[t]) && !Holding(s.pc[t])
    ensures s.holder == None && s.inFlight == None
  {
    if s.holder.Some? {
      var u := s.holder.value;
      assert Look(u);
      OneOwner(s, t, u);
    }
  }

  lemma MoveKeepsLock(s: State, s': State, t: Tid)
    requires LockInv(s) && t in s.pc && t in s'.pc && s'.lock == s.lock && s'.pc == s.pc[t := s'.pc[t]]
    requires Owner(s'.pc[t]) == Owner(s.pc[t])
    requires !s'.pc[t].LockBlocked? && !s.pc[t].LockBlocked? && !s'.pc[t].LockRetry? && !s.pc[t].LockRetry?
    ensures LockInv(s')
  {
    forall u | u in s.pc
      ensures Owner(s'.pc[u]) == Owner(s.pc[u])
      ensures s'.pc[u].LockBlocked? == s.pc[u].LockBlocked? && s'.pc[u].LockRetry? == s.pc[u].LockRetry?
    {
    }
    SameRolesKeepLock(s, s');
  }

  lemma SetHolderKeepsRest(s: State, t: Tid)
    requires RestInv(s) && t in s.pc && s.pc[t].LockGot? && s.holder == None && s.inFlight == None
    ensures RestInv(At(s.(holder := Some(t)), t, Held))
  {
    var s' := At(s.(holder := Some(t)), t, Held);
    forall u | u in s'.pc
      ensures HolderOk(s', u) && ThreadOk(s', u)
    {
      assert Look(u);
    }
    SameCondsKeepCondInv(s, s');
  }

  lemma SetHolderKeepsInv(s: State, t: Tid)
    requires Inv(s) && t in s.pc && s.pc[t].LockGot?
    ensures Inv(At(s.(holder := Some(t)), t, Held))
  {
    NoHolder(s, t);
    SetHolderKeepsRest(s, t);
    MoveKeepsLock(s, At(s.(holder := Some(t)), t, Held), t);
  }

  lemma ClearHolderKeepsRest(s: State, t: Tid)
    requires RestInv(s) && t in s.pc && (s.pc[t].Held? || s.pc[t].WaitPushed?)
    ensures RestInv(At(s.(holder := None), t, Releasing(WaitsFor(s.pc[t]))))
  {
    var s' := At(s.(holder := None), t, Releasing(WaitsFor(s.pc[t])));
    assert Look(t);
    forall u | u in s'.pc
      ensures HolderOk(s', u) && ThreadOk(s', u)
    {
      assert Look(u);
    }
    SameCondsKeepCondInv(s, s');
  }

  lemma ClearHolderKeepsInv(s: State, t: Tid)
    requires Inv(s) && t in s.pc && (s.pc[t].Held? || s.pc[t].WaitPushed?)
    ensures Inv(At(s.(holder := None), t, Releasing(WaitsFor(s.pc[t]))))
  {
    ClearHolderKeepsRest(s, t);
    MoveKeepsLock(s, At(s.(holder := None), t, Releasing(WaitsFor(s.pc[t]))), t);
  }

  // Waiting and signalling.

  function Waiting(s: State, t: Tid, c: Cond): State
    requires c in s.conds && c in s.arrived
  {
    At(s.(conds := s.conds[c := s.conds[c] + [t]], arrived := s.arrived[c := s.arrived[c] + [t]], own := s.own[t := 0]),
       t, WaitPushed(c))
  }

  lemma WaitKeepsConds(s: State, t: Tid, c: Cond)
    requires CondInv(s) && c in s.conds && c in s.arrived && t !in s.conds[c]
    ensures CondInv(Waiting(s, t, c))
  {
    var s' := Waiting(s, t, c);
    forall d | d in s'.conds
      ensures CondOk(s', d)
    {
      assert Look(d);
      if d == c {
        assert s.freed[c] + s.conds[c] + [t] == s.freed[c] + (s.conds[c] + [t]);
      }
    }
  }

  lemma WaitKeepsThread(s: State, t: Tid, c: Cond, u: Tid)
    requires u in s.pc && t in s.pc && ThreadOk(s, u) && HolderOk(s, u) && ThreadOk(s, t) && HolderOk(s, t)
    requires s.pc[t].Held? && c in s.conds && c in s.arrived
    ensures ThreadOk(Waiting(s, t, c), u)
  {
    var s' := Waiting(s, t, c);
    assert forall d :: d in s'.conds && u in s'.conds[d] ==> (d == c && u == t) || u in s.conds[d];
  }

  lemma WaitKeepsThreads(s: State, t: Tid, c: Cond)
    requires RestInv(s) && t in s.pc && s.pc[t].Held? && c in s.conds && c in s.arrived
    ensures ThreadsInv(Waiting(s, t, c)) && t !in s.conds[c]
  {
    var s' := Waiting(s, t, c);
    assert Look(t);
    forall u | u in s'.pc
      ensures ThreadOk(s', u)
    {
      assert Look(u);
      WaitKeepsThread(s, t, c, u);
    }
  }

  lemma WaitKeepsInv(s: State, t: Tid, c: Cond)
    requires Inv(s) && t in s.pc && s.pc[t].Held? && c in s.conds && c in s.arrived
    ensures Inv(Waiting(s, t, c))
  {
    var s' := Waiting(s, t, c);
    WaitKeepsThreads(s, t, c);
    WaitKeepsConds(s, t, c);
    MoveKeepsLock(s, s', t);
    MoveKeepsHolder(s, s', t);
  }

  lemma MoveKeepsHolder(s: State, s': State, t: Tid)
    requires HolderInv(s) && t in s.pc && t in s'.pc && s'.pc == s.pc[t := s'.pc[t]]
    requires s'.holder == s.holder && s'.inFlight == s.inFlight
    requires Holding(s'.pc[t]) == Holding(s.pc[t]) && !s'.pc[t].Signalling? && !s.pc[t].Signalling?
    ensures HolderInv(s')
  {
    forall u | u in s'.pc
      ensures HolderOk(s', u)
    {
      assert Look(u);
    }
  }

  function Passing(s: State, t: Tid, c: Cond): State
    requires t in s.own && t in s.passes && s.own[t] > 0
  {
    At(s.(own := s.own[t := s.own[t] - 1], passes := s.passes[t := s.passes[t] + 1]), t, Reacquire(c))
  }

  lemma PassKeepsThreads(s: State, t: Tid, c: Cond)
    requires ThreadsInv(s) && Ready(s, t) && WaitsFor(s.pc[t]) == Some(c) && s.own[t] > 0
    ensures ThreadsInv(Passing(s, t, c))
  {
    var s' := Passing(s, t, c);
    assert Look(t);
    forall u | u in s'.pc
      ensures ThreadOk(s', u)
    {
      assert Look(u);
    }
  }

  lemma PassKeepsInv(s: State, t: Tid, c: Cond)
    requires Inv(s) && Ready(s, t) && (s.pc[t] == WaitDown(c) || s.pc[t] == WaitRetry(c)) && s.own[t] > 0
    ensures Inv(Passing(s, t, c))
  {
    var s' := Passing(s, t, c);
    PassKeepsThreads(s, t, c);
    MoveKeepsHolder(s, s', t);
    MoveKeepsLock(s, s', t);
    SameCondsKeepCondInv(s, s');
  }

  lemma BlockKeepsInv(s: State, t: Tid, c: Cond)
    requires Inv(s) && Ready(s, t) && (s.pc[t] == WaitDown(c) || s.pc[t] == WaitRetry(c)) && s.own[t] == 0
    ensures Inv(At(s, t, WaitBlocked(c)))
  {
    QuietMoveKeepsRest(s, At(s, t, WaitBlocked(c)), t);
    MoveKeepsLock(s, At(s, t, WaitBlocked(c)), t);
  }

  /** A holder that is not signalling: no waiter is in flight. */
  lemma NoneInFlight(s: State, t: Tid)
    requires HolderInv(s) && t in s.pc && Holding(s.pc[t]) && !s.pc[t].Signalling?
    ensures s.inFlight == None
  {
    assert Look(t);
  }

  lemma TakeOffKeepsConds(s: State, t: Tid, c: Cond, all: bool, target: seq<Tid>)
    requires CondInv(s) && c in s.conds && s.conds[c] != [] && c in s.freed
    ensures CondInv(TakeOff(s, t, c, all, target))
  {
    var s' := TakeOff(s, t, c, all, target);
    forall d | d in s'.conds
      ensures CondOk(s', d)
    {
      assert Look(d);
      if d == c {
        var w, rest := s.conds[c][0], s.conds[c][1..];
        assert s.conds[c] == [w] + rest;
        assert s.freed[c] + ([w] + rest) == s.freed[c] + [w] + rest;
      }
    }
  }

  lemma TakeOffKeepsThread(s: State, t: Tid, c: Cond, all: bool, target: seq<Tid>, u: Tid)
    requires RestInv(s) && t in s.pc && (s.pc[t].Held? || s.pc[t].Broadcasting?) && s.inFlight == None
    requires c in s.conds && s.conds[c] != [] && c in s.freed && u in s.pc
    requires all ==> c in s.arrived && s.arrived[c] == target
    ensures ThreadOk(TakeOff(s, t, c, all, target), u)
  {
    assert Look(u) && Look(c);
    FrontOff(s.conds[c], u);
  }

  lemma FrontOff(q: seq<Tid>, u: Tid)
    requires NoDup(q) && q != []
    ensures u in q[1..] <==> u in q && u != q[0]
  {
    assert q == [q[0]] + q[1..];
  }

  lemma TakeOffKeepsRest(s: State, t: Tid, c: Cond, all: bool, target: seq<Tid>)
    requires RestInv(s) && t in s.pc && (s.pc[t].Held? || s.pc[t].Broadcasting?)
    requires c in s.conds && s.conds[c] != [] && c in s.freed
    requires all ==> c in s.arrived && s.arrived[c] == target
    ensures RestInv(TakeOff(s, t, c, all, target))
  {
    var s' := TakeOff(s, t, c, all, target);
    NoneInFlight(s, t);
    TakeOffKeepsConds(s, t, c, all, target);
    forall u | u in s'.pc
      ensures ThreadOk(s', u)
    {
      TakeOffKeepsThread(s, t, c, all, target, u);
    }
    TakeOffKeepsHolder(s, t, c, all, target);
    assert forall d, u :: d in s'.conds && u in s'.conds[d] ==> u in s.conds[d];
  }

  lemma TakeOffKeepsHolder(s: State, t: Tid, c: Cond, all: bool, target: seq<Tid>)
    requires RestInv(s) && t in s.pc && (s.pc[t].Held? || s.pc[t].Broadcasting?)
    requires c in s.conds && s.conds[c] != [] && c in s.freed
    ensures HolderInv(TakeOff(s, t, c, all, target))
  {
    var s' := TakeOff(s, t, c, all, target);
    NoneInFlight(s, t);
    assert Look(t);
    assert s.conds[c][0] in s.conds[c];
    forall u | u in s'.pc
      ensures HolderOk(s', u)
    {
      assert Look(u);
    }
  }

  lemma TakeOffKeepsInv(s: State, t: Tid, c: Cond, all: bool, target: seq<Tid>)
    requires Inv(s) && t in s.pc && (s.pc[t].Held? || s.pc[t].Broadcasting?)
    requires c in s.conds && s.conds[c] != [] && c in s.freed
    requires all ==> c in s.arrived && s.arrived[c] == target
    ensures Inv(TakeOff(s, t, c, all, target))
  {
    TakeOffKeepsRest(s, t, c, all, target);
    MoveKeepsLock(s, TakeOff(s, t, c, all, target), t);
  }

  /** The signaller's step after sema_up() on the waiter's semaphore. */
  function Signalled(s: State, t: Tid): State
    requires t in s.pc && s.pc[t].Signalling? && Ready(s, s.pc[t].w)
  {
    At(OwnUp(s, s.pc[t].w), t, if s.pc[t].all then Broadcasting(s.pc[t].c, s.pc[t].target) else Held)
  }

  /** The waiter being signalled is waiting, is off its list and has no unit; so it is not the signaller. */
  lemma InFlightWaiter(s: State, t: Tid)
    requires RestInv(s) && t in s.pc && s.pc[t].Signalling?
    ensures var w := s.pc[t].w;
            w in s.pc && w != t && ThreadOk(s, w) && s.inFlight == Some(w) && WaitsFor(s.pc[w]).Some?
  {
    assert Look(t) && Look(s.pc[t].w);
  }

  lemma SignalUpKeepsWaiter(s: State, t: Tid)
    requires RestInv(s) && t in s.pc && s.pc[t].Signalling? && Ready(s, s.pc[t].w)
    ensures ThreadOk(Signalled(s, t), s.pc[t].w)
  {
    InFlightWaiter(s, t);
  }

  lemma SignalUpKeepsOther(s: State, t: Tid, u: Tid)
    requires RestInv(s) && t in s.pc && s.pc[t].Signalling? && Ready(s, s.pc[t].w) && u in s.pc && u != s.pc[t].w
    ensures ThreadOk(Signalled(s, t), u)
  {
    InFlightWaiter(s, t);
    assert Look(u);
  }

  lemma SignalUpKeepsHolder(s: State, t: Tid)
    requires RestInv(s) && t in s.pc && s.pc[t].Signalling? && Ready(s, s.pc[t].w)
    ensures HolderInv(Signalled(s, t))
  {
    var s' := Signalled(s, t);
    assert Look(t);
    forall u | u in s'.pc
      ensures HolderOk(s', u)
    {
      assert Look(u);
    }
  }

  lemma SignalUpKeepsLock(s: State, t: Tid)
    requires LockInv(s) && t in s.pc && s.pc[t].Signalling? && Ready(s, s.pc[t].w) && s.pc[t].w != t
    ensures LockInv(Signalled(s, t))
  {
    var s' := Signalled(s, t);
    forall u | u in s.pc
      ensures Owner(s'.pc[u]) == Owner(s.pc[u])
      ensures s'.pc[u].LockBlocked? == s.pc[u].LockBlocked? && s'.pc[u].LockRetry? == s.pc[u].LockRetry?
    {
    }
    SameRolesKeepLock(s, s');
  }

  lemma SignalUpKeepsThreads(s: State, t: Tid)
    requires RestInv(s) && t in s.pc && s.pc[t].Signalling? && Ready(s, s.pc[t].w)
    ensures ThreadsInv(Signalled(s, t))
  {
    var s' := Signalled(s, t);
    forall u | u in s'.pc
      ensures ThreadOk(s', u)
    {
      if u == s.pc[t].w {
        SignalUpKeepsWaiter(s, t);
      } else {
        SignalUpKeepsOther(s, t, u);
      }
    }
  }

  lemma SignalUpKeepsInv(s: State, t: Tid)
    requires Inv(s) && t in s.pc && s.pc[t].Signalling? && Ready(s, s.pc[t].w)
    ensures Inv(Signalled(s, t))
  {
    SignalUpKeepsThreads(s, t);
    SignalUpKeepsHolder(s, t);
    SameCondsKeepCondInv(s, Signalled(s, t));
    InFlightWaiter(s, t);
    SignalUpKeepsLock(s, t);
  }

  lemma BroadcastKeepsInv(s: State, t: Tid, c: Cond)
    requires Inv(s) && t in s.pc && s.pc[t].Held? && c in s.arrived
    ensures Inv(At(s, t, Broadcasting(c, s.arrived[c])))
  {
    var s' := At(s, t, Broadcasting(c, s.arrived[c]));
    forall u | u in s'.pc
      ensures ThreadOk(s', u)
    {
      assert Look(u);
    }
    MoveKeepsHolder(s, s', t);
    SameCondsKeepCondInv(s, s');
    MoveKeepsLock(s, s', t);
  }

  lemma BroadcastTarget(s: State, t: Tid)
    requires Inv(s) && t in s.pc && s.pc[t].Broadcasting?
    ensures var p := s.pc[t]; p.c in s.conds && p.c in s.freed && p.c in s.arrived && s.arrived[p.c] == p.target
  {
    assert Look(t);
    assert ThreadOk(s, t);
    assert Look(s.pc[t].c);
  }

  lemma BroadcastEndKeepsInv(s: State, t: Tid)
    requires Inv(s) && t in s.pc && s.pc[t].Broadcasting?
    ensures Inv(At(s, t, Held))
  {
    QuietMoveKeepsRest(s, At(s, t, Held), t);
    MoveKeepsLock(s, At(s, t, Held), t);
  }

  lemma SetPriorityKeepsInv(s: State, t: Tid, priority: int)
    requires Inv(s)
    ensures Inv(s.(prio := s.prio[t := priority]))
  {
    var s' := s.(prio := s.prio[t := priority]);
    LockOnlyKeepsRest(s, s');
    SameRolesKeepLock(s, s');
  }

  lemma NextKeepsInv(s: State, step: Step)
    requires Inv(s)
    ensures Inv(Next(s, step))
  {
    if step.SetPriority? {
      SetPriorityKeepsInv(s, step.t, step.priority);
    } else if Ready(s, step.t) {
      if step.Wait? || step.WaitTest? || step.Signal? || step.SignalUp? || step.Broadcast? || step.BroadcastTest? {
        CondStepKeepsInv(s, step);
      } else {
        LockStepKeepsInv(s, step);
      }
    }
  }

  lemma LockStepKeepsInv(s: State, step: Step)
    requires Inv(s) && Ready(s, step.t)
    requires LockStep(step)
    ensures Inv(StepOf(s, step))
  {
    var t := step.t;
    var p := s.pc[t];
    match step
    case Acquire(_) => if p.Free? { LockTestKeepsInv(s, t, None); }
    case TryAcquire(_) => if p.Free? && s.lock.value > 0 { TryAcquireKeepsInv(s, t); }
    case Retry(_) => if p.LockRetry? { LockTestKeepsInv(s, t, p.back); }
    case SetHolder(_) => if p.LockGot? { SetHolderKeepsInv(s, t); }
    case ClearHolder(_) => if p.Held? || p.WaitPushed? { ClearHolderKeepsInv(s, t); }
    case ReleaseUp(_) => if p.Releasing? { ReleaseUpKeepsInv(s, t); }
    case Relock(_) => if p.Reacquire? { LockTestKeepsInv(s, t, Some(p.c)); }
  }

  lemma CondStepKeepsInv(s: State, step: Step)
    requires Inv(s) && Ready(s, step.t)
    requires step.Wait? || step.WaitTest? || step.Signal? || step.SignalUp? || step.Broadcast? || step.BroadcastTest?
    ensures Inv(StepOf(s, step))
  {
    var t := step.t;
    var p := s.pc[t];
    match step
    case Wait(_, c) => if p.Held? && c in s.conds && c in s.arrived { WaitKeepsInv(s, t, c); }
    case WaitTest(_) =>
      if p.WaitDown? || p.WaitRetry? {
        if s.own[t] > 0 { PassKeepsInv(s, t, p.c); } else { BlockKeepsInv(s, t, p.c); }
      }
    case Signal(_, c) =>
      if p.Held? && c in s.conds && c in s.freed && s.conds[c] != [] { TakeOffKeepsInv(s, t, c, false, []); }
    case SignalUp(_) => if p.Signalling? && Ready(s, p.w) { SignalUpKeepsInv(s, t); }
    case Broadcast(_, c) => if p.Held? && c in s.arrived { BroadcastKeepsInv(s, t, c); }
    case BroadcastTest(_) =>
      if p.Broadcasting? {
        BroadcastTarget(s, t);
        if s.conds[p.c] == [] { BroadcastEndKeepsInv(s, t); } else { TakeOffKeepsInv(s, t, p.c, true, p.target); }
      }
  }

  // ---- Every run -----------------------------------------------------------------------------

  lemma StartInv(threads: set<Tid>, conds: set<Cond>)
    ensures Inv(Start(threads, conds))
  {
    var s := Start(threads, conds);
    assert forall t :: t in s.pc ==> !Owner(s.pc[t]);
    assert Owners(s) == {};
    assert forall t :: t in s.pc ==> ThreadOk(s, t) && HolderOk(s, t);
    assert forall c :: c in s.conds ==> CondOk(s, c);
    assert forall t :: t in s.pc ==> s.pc[t].Free?;
  }

  lemma {:induction false} RunKeepsInv(s: State, steps: seq<Step>)
    requires Inv(s)
    ensures Inv(Run(s, steps))
    decreases |steps|
  {
    if steps != [] {
      NextKeepsInv(s, steps[0]);
      RunKeepsInv(Next(s, steps[0]), steps[1..]);
    }
  }

  ghost predicate Reachable(s: State) {
    exists threads, conds, steps :: s == Run(Start(threads, conds), steps)
  }

  lemma ReachableInv(s: State)
    requires Reachable(s)
    ensures Inv(s)
  {
    var threads, conds, steps :| s == Run(Start(threads, conds), steps);
    StartInv(threads, conds);
    RunKeepsInv(Start(threads, conds), steps);
  }

  lemma AtThread(s: State, t: Tid)
    requires Inv(s) && t in s.pc
    ensures ThreadOk(s, t) && HolderOk(s, t)
  {
    assert Look(t);
  }

  lemma AtCond(s: State, c: Cond)
    requires Inv(s) && c in s.conds
    ensures CondOk(s, c) && forall t :: t in s.conds[c] ==> t in s.pc
  {
    assert Look(c);
  }

  /** The lock's unit is in the semaphore or with one thread, and only that thread can be the holder. */
  lemma MutualExclusion(s: State, t: Tid, u: Tid)
    requires Reachable(s)
    ensures s.lock.value + |Owners(s)| == 1
    ensures t in s.pc && u in s.pc && Owner(s.pc[t]) && Owner(s.pc[u]) ==> t == u
    ensures t in s.pc && s.holder == Some(t) ==> Owner(s.pc[t])
  {
    ReachableInv(s);
    if t in s.pc && u in s.pc && Owner(s.pc[t]) && Owner(s.pc[u]) {
      OneOwner(s, t, u);
    }
    if t in s.pc {
      AtThread(s, t);
    }
  }

  /** If the lock is free and threads sleep on it, a woken thread gets it as soon as it runs. */
  lemma LockIsPassedOn(s: State) returns (t: Tid)
    requires Reachable(s) && s.lock.value > 0 && s.lock.waiters != []
    ensures t in s.pc && s.pc[t].LockRetry?
    ensures t in Next(s, Retry(t)).pc && Next(s, Retry(t)).pc[t] == LockGot(s.pc[t].back)
  {
    ReachableInv(s);
    assert Retrying(s) != {};
    t := AnyMember(Retrying(s));
    AtThread(s, t);
  }

  /** Signals take waiters off a condition in the order in which they arrived. */
  lemma SignalsInOrder(s: State, c: Cond)
    requires Reachable(s) && c in s.conds
    ensures c in s.arrived && c in s.freed && s.arrived[c] == s.freed[c] + s.conds[c] && NoDup(s.conds[c])
  {
    ReachableInv(s);
    AtCond(s, c);
  }

  /** The steps are those of threads other than `t`, or change priorities. */
  ghost predicate NotBy(t: Tid, steps: seq<Step>) {
    forall i :: 0 <= i < |steps| ==> steps[i].t != t || steps[i].SetPriority?
  }

  /** Thread `t` is in cond_signal() between taking `w` off the list, which left the lists `conds`, and its sema_up();
      `w` is asleep on its semaphore or on its way there. */
  ghost predicate Between(s: State, t: Tid, w: Tid, c: Cond, conds: map<Cond, seq<Tid>>) {
    && Inv(s) && t in s.pc && s.pc[t] == Signalling(w, c, false, []) && s.conds == conds
    && w in s.pc && (s.pc[w] == WaitDown(c) || s.pc[w] == WaitBlocked(c)) && w in s.own && s.own[w] == 0
  }

  ghost predicate LockStep(step: Step) {
    step.Acquire? || step.TryAcquire? || step.Retry? || step.SetHolder? || step.ClearHolder? || step.ReleaseUp?
      || step.Relock?
  }

  /** Thread `w` and its semaphore are as they were. */
  ghost predicate Untouched(s: State, s': State, w: Tid) {
    w in s.pc && w in s.own && w in s'.pc && w in s'.own && s'.pc[w] == s.pc[w] && s'.own[w] == s.own[w]
  }

  lemma LockTestUntouched(s: State, t: Tid, back: Option<Cond>, w: Tid)
    requires t != w && w in s.pc && w in s.own
    ensures Untouched(s, LockTest(s, t, back), w)
  {
  }

  lemma LockUpUntouched(s: State, t: Tid, p: Pc, w: Tid)
    requires t != w && w in s.pc && w in s.own && !s.pc[w].LockBlocked?
    ensures Untouched(s, At(LockUp(s), t, p), w)
  {
  }

  lemma LockStepUntouched(s: State, step: Step, w: Tid)
    requires LockStep(step) && Ready(s, step.t) && step.t != w && w in s.pc && w in s.own && !s.pc[w].LockBlocked?
    ensures Untouched(s, StepOf(s, step), w)
  {
    var t, p := step.t, s.pc[step.t];
    match step
    case Acquire(_) => LockTestUntouched(s, t, None, w);
    case TryAcquire(_) =>
    case Retry(_) => if p.LockRetry? { LockTestUntouched(s, t, p.back, w); }
    case SetHolder(_) =>
    case ClearHolder(_) =>
    case ReleaseUp(_) =>
      if p.Releasing? { LockUpUntouched(s, t, if p.back.Some? then WaitDown(p.back.value) else Free, w); }
    case Relock(_) => if p.Reacquire? { LockTestUntouched(s, t, Some(p.c), w); }
  }

  /** Only a signaller that has `w` in its hands changes its semaphore. */
  lemma SignalledUntouched(s: State, t: Tid, w: Tid)
    requires t in s.pc && s.pc[t].Signalling? && Ready(s, s.pc[t].w) && t != w && w != s.pc[t].w && w in s.pc
    requires w in s.own
    ensures Untouched(s, Signalled(s, t), w)
  {
  }

  lemma TakeOffUntouched(s: State, t: Tid, c: Cond, all: bool, target: seq<Tid>, w: Tid)
    requires c in s.conds && s.conds[c] != [] && c in s.freed && t != w && w in s.pc && w in s.own
    ensures Untouched(s, TakeOff(s, t, c, all, target), w)
  {
  }

  lemma CondStepUntouched(s: State, step: Step, w: Tid)
    requires !step.SetPriority? && !LockStep(step) && Ready(s, step.t) && step.t != w && w in s.pc && w in s.own
    requires s.pc[step.t].Signalling? ==> s.pc[step.t].w != w
    ensures Untouched(s, StepOf(s, step), w)
  {
    var t, p := step.t, s.pc[step.t];
    match step
    case Wait(_, _) =>
    case WaitTest(_) =>
    case Signal(_, c) =>
      if p.Held? && c in s.conds && c in s.freed && s.conds[c] != [] { TakeOffUntouched(s, t, c, false, [], w); }
    case SignalUp(_) =>
      if p.Signalling? && Ready(s, p.w) {
        SignalledUntouched(s, t, w);
        assert StepOf(s, step) == Signalled(s, t);
      }
    case Broadcast(_, _) =>
    case BroadcastTest(_) =>
      if p.Broadcasting? && p.c in s.conds && p.c in s.freed && s.conds[p.c] != [] {
        TakeOffUntouched(s, t, p.c, true, p.target, w);
      }
  }

  /** A thread without the lock changes no condition's list. */
  lemma WithoutLock(s: State, step: Step)
    requires !step.SetPriority? && Ready(s, step.t) && !Owner(s.pc[step.t])
    ensures StepOf(s, step).conds == s.conds
  {
  }

  /** A thread on its way to sleep, without a unit, can only go to sleep. */
  lemma WaiterStep(s: State, step: Step, c: Cond)
    requires !step.SetPriority? && Ready(s, step.t) && (s.pc[step.t] == WaitDown(c) || s.pc[step.t] == WaitBlocked(c))
    requires s.own[step.t] == 0
    ensures StepOf(s, step) == s || StepOf(s, step) == At(s, step.t, WaitBlocked(c))
  {
  }

  lemma OthersKeepBetween(s: State, step: Step, t: Tid, w: Tid, c: Cond, conds: map<Cond, seq<Tid>>)
    requires Between(s, t, w, c, conds) && (step.t != t || step.SetPriority?)
    ensures Between(Next(s, step), t, w, c, conds)
  {
    NextKeepsInv(s, step);
    if !step.SetPriority? && Ready(s, step.t) {
      AtThread(s, t);
      if Owner(s.pc[step.t]) {
        OneOwner(s, t, step.t);
      } else {
        WithoutLock(s, step);
        OtherUntouched(s, step, t);
        if step.t == w {
          WaiterStep(s, step, c);
        } else {
          OtherUntouched(s, step, w);
        }
      }
    }
  }

  lemma OtherUntouched(s: State, step: Step, w: Tid)
    requires !step.SetPriority? && Ready(s, step.t) && step.t != w && w in s.pc && w in s.own && !s.pc[w].LockBlocked?
    requires s.pc[step.t].Signalling? ==> s.pc[step.t].w != w
    ensures Untouched(s, StepOf(s, step), w)
  {
    if LockStep(step) {
      LockStepUntouched(s, step, w);
    } else {
      CondStepUntouched(s, step, w);
    }
  }

  lemma {:induction false} RunKeepsBetween(s: State, steps: seq<Step>, t: Tid, w: Tid, c: Cond,
                                           conds: map<Cond, seq<Tid>>)
    requires Between(s, t, w, c, conds) && NotBy(t, steps)
    ensures Between(Run(s, steps), t, w, c, conds)
    decreases |steps|
  {
    if steps != [] {
      OthersKeepBetween(s, steps[0], t, w, c, conds);
      RunKeepsBetween(Next(s, steps[0]), steps[1..], t, w, c, conds);
    }
  }

  /** `w` has the unit of its semaphore and is not asleep. */
  ghost predicate Freed(s: State, w: Tid, c: Cond) {
    Inv(s) && w in s.pc && (s.pc[w] == WaitDown(c) || s.pc[w] == WaitRetry(c)) && w in s.own && s.own[w] == 1
  }

  lemma OthersKeepFreed(s: State, step: Step, w: Tid, c: Cond)
    requires Freed(s, w, c) && (step.t != w || step.SetPriority?)
    ensures Freed(Next(s, step), w, c)
  {
    NextKeepsInv(s, step);
    if !step.SetPriority? && Ready(s, step.t) {
      AtThread(s, w);
      AtThread(s, step.t);
      OtherUntouched(s, step, w);
    }
  }

  lemma {:induction false} RunKeepsFreed(s: State, steps: seq<Step>, w: Tid, c: Cond)
    requires Freed(s, w, c) && NotBy(w, steps)
    ensures Freed(Run(s, steps), w, c)
    decreases |steps|
  {
    if steps != [] {
      OthersKeepFreed(s, steps[0], w, c);
      RunKeepsFreed(Next(s, steps[0]), steps[1..], w, c);
    }
  }

  /** cond_signal() by the holder takes the oldest waiter off the list. Whatever other threads then do before its
      sema_up(), they leave the lists as they are, and the waiter asleep or on its way to sleep; and whatever the
      others do after it, the waiter gets through its semaphore when it next runs. */
  lemma SignalFreesOldest(s: State, t: Tid, c: Cond, between: seq<Step>, after: seq<Step>)
    requires Reachable(s) && t in s.pc && s.pc[t].Held? && c in s.conds && s.conds[c] != []
    requires NotBy(t, between) && NotBy(s.conds[c][0], after)
    ensures var w := s.conds[c][0];
            var s1 := Run(Next(s, Signal(t, c)), between);
            var s2 := Next(s1, SignalUp(t));
            var s3 := Run(s2, after);
            && s1.conds == s.conds[c := s.conds[c][1..]] == s2.conds
            && w in s1.pc && t in s1.pc && w in s3.pc && w in Next(s3, WaitTest(w)).pc
            && s2.pc == s1.pc[t := Held][w := if s1.pc[w].WaitBlocked? then WaitRetry(c) else WaitDown(c)]
            && Next(s3, WaitTest(w)).pc[w] == Reacquire(c)
  {
    ReachableInv(s);
    OldestIsWaiting(s, t, c);
    var w, conds := s.conds[c][0], s.conds[c := s.conds[c][1..]];
    SignalTakesOff(s, t, c, w);
    var s1 := Run(Next(s, Signal(t, c)), between);
    RunKeepsBetween(Next(s, Signal(t, c)), between, t, w, c, conds);
    UpFrees(s1, t, w, c, conds);
    RunKeepsFreed(Next(s1, SignalUp(t)), after, w, c);
    FreedPasses(Run(Next(s1, SignalUp(t)), after), w, c);
  }

  lemma SignalTakesOff(s: State, t: Tid, c: Cond, w: Tid)
    requires Inv(s) && Ready(s, t) && Ready(s, w) && s.pc[t].Held? && c in s.conds && s.conds[c] != []
    requires w == s.conds[c][0]
    requires c in s.freed && s.own[w] == 0 && (s.pc[w] == WaitDown(c) || s.pc[w] == WaitBlocked(c))
    ensures Between(Next(s, Signal(t, c)), t, w, c, s.conds[c := s.conds[c][1..]])
  {
    NextKeepsInv(s, Signal(t, c));
  }

  lemma UpFrees(s: State, t: Tid, w: Tid, c: Cond, conds: map<Cond, seq<Tid>>)
    requires Between(s, t, w, c, conds)
    ensures Freed(Next(s, SignalUp(t)), w, c) && Next(s, SignalUp(t)).conds == conds
    ensures Next(s, SignalUp(t)).pc == s.pc[t := Held][w := if s.pc[w].WaitBlocked? then WaitRetry(c) else WaitDown(c)]
  {
    NextKeepsInv(s, SignalUp(t));
    AtThread(s, t);
    AtThread(s, w);
    SignalUpIs(s, t, w);
    SignalledIs(s, t, w, c);
  }

  lemma SignalUpIs(s: State, t: Tid, w: Tid)
    requires Ready(s, t) && s.pc[t].Signalling? && s.pc[t].w == w && Ready(s, w)
    ensures Next(s, SignalUp(t)) == Signalled(s, t)
  {
  }

  lemma SignalledIs(s: State, t: Tid, w: Tid, c: Cond)
    requires t in s.pc && s.pc[t] == Signalling(w, c, false, []) && Ready(s, w) && w != t
    requires s.pc[w] == WaitDown(c) || s.pc[w] == WaitBlocked(c)
    ensures Signalled(s, t).conds == s.conds && Signalled(s, t).own == s.own[w := s.own[w] + 1]
    ensures Signalled(s, t).pc == s.pc[t := Held][w := if s.pc[w].WaitBlocked? then WaitRetry(c) else WaitDown(c)]
  {
    var s' := OwnUp(s, w);
    assert s'.pc == s.pc[w := if s.pc[w].WaitBlocked? then WaitRetry(c) else WaitDown(c)];
  }

  lemma FreedPasses(s: State, w: Tid, c: Cond)
    requires Freed(s, w, c)
    ensures w in Next(s, WaitTest(w)).pc && Next(s, WaitTest(w)).pc[w] == Reacquire(c)
  {
    AtThread(s, w);
  }

  lemma OldestIsWaiting(s: State, t: Tid, c: Cond)
    requires Inv(s) && t in s.pc && s.pc[t].Held? && c in s.conds && s.conds[c] != []
    ensures var w := s.conds[c][0];
            Ready(s, t) && Ready(s, w) && c in s.freed && s.own[w] == 0
              && (s.pc[w] == WaitDown(c) || s.pc[w] == WaitBlocked(c))
  {
    var w := s.conds[c][0];
    assert w in s.conds[c];
    AtCond(s, c);
    AtThread(s, t);
    AtThread(s, w);
    if Owner(s.pc[w]) {
      OneOwner(s, t, w);
    }
  }

  /** Each time a thread gets past its semaphore in cond_wait() it uses up one signal that was sent to it, at most
      one is outstanding, and a thread with an outstanding signal is not asleep. */
  lemma WaitsMatchSignals(s: State, t: Tid)
    requires Reachable(s) && t in s.pc
    ensures t in s.own && t in s.signals && t in s.passes
    ensures s.signals[t] == s.passes[t] + s.own[t] && s.own[t] <= 1
    ensures s.own[t] == 1 ==> !s.pc[t].WaitBlocked?
    ensures s.pc[t].Reacquire? || s.pc[t].Held? ==> s.signals[t] == s.passes[t]
    ensures s.pc[t].Held? ==> s.holder == Some(t)
  {
    ReachableInv(s);
    AtThread(s, t);
  }

  /** When cond_broadcast() leaves its loop, it has freed exactly the waiters that had arrived when it began. */
  lemma BroadcastFreesAll(s: State, t: Tid, c: Cond, target: seq<Tid>)
    requires Reachable(s) && t in s.pc && s.pc[t] == Broadcasting(c, target)
    requires t in Next(s, BroadcastTest(t)).pc && Next(s, BroadcastTest(t)).pc[t] == Held
    ensures c in s.freed && s.freed[c] == target && s.conds[c] == []
  {
    ReachableInv(s);
    AtThread(s, t);
    AtCond(s, c);
    assert s.freed[c] + [] == s.freed[c];
  }
}

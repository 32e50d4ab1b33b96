/** threads/thread.c and devices/timer.c: what each call and each tick does, from every reachable state. */
module SchedulerEffects {
  import Arithmetic
  import opened FixedPoint
  import opened Queue
  import opened Scheduler
  import opened Preemption

  // ---- Threads come and go -------------------------------------------------------------------

  /** thread_create() up to thread_unblock(): the thread exists and is in no list; in the priority mode it has the
      priority asked for, in the other the niceness and recent_cpu of the thread that made it and the priority that
      goes with them. */
  lemma CreateMakesThread(s: State, t: Tid, priority: int)
    requires Reachable(s) && t !in s.core.threads && t != s.core.idle && PRI_MIN <= priority <= PRI_MAX
    ensures var s', mlfqs, cur := Next(s, Create(t, priority)), s.config.mode.Mlfqs?, s.core.current;
            && s'.core == s.core.(threads := s.core.threads[t := Nascent], status := s.core.status[t := Blocked])
            && s'.alarm == s.alarm && s'.waiters == s.waiters && s'.config == s.config
            && NiceOf(s'.books, t) == (if mlfqs then NiceOf(s.books, cur) else 0)
            && CpuOf(s'.books, t) == (if mlfqs then CpuOf(s.books, cur) else 0)
            && KeyOf(s'.books.prio, t)
               == (if mlfqs then NewPriority(s.config.rules, CpuOf(s'.books, t), NiceOf(s'.books, t)) else priority)
            && forall u :: u != t ==> KeyOf(s'.books.prio, u) == KeyOf(s.books.prio, u)
  {
  }

  /** Its thread_unblock(): the thread is ready, in its place by priority, and the running thread runs on. */
  lemma LaunchMakesReady(s: State, t: Tid) returns (k: nat)
    requires Reachable(s) && t in s.core.threads && s.core.threads[t].Nascent?
    ensures var s' := Next(s, Launch(t));
            && QueuedAt(s.core.ready, s'.core.ready, t, s.books.prio, k) && s'.core.current == s.core.current
            && s'.core.threads == s.core.threads[t := InReadyList] && s'.core.status == s.core.status[t := ReadyToRun]
            && s'.alarm == s.alarm && s'.waiters == s.waiters && s'.books == s.books
  {
    ReachableInv(s);
    k := InsertPlace(s.core.ready, t, s.books.prio, false);
  }

  /** The thread that runs after a switch. */
  function NextUp(s: State): Tid {
    if s.core.ready == [] then s.core.idle else s.core.ready[0]
  }

  /** thread_exit(): the thread is no more, and a ready thread of the highest priority runs. */
  lemma ExitEndsThread(s: State)
    requires Reachable(s) && s.core.current != s.core.idle
    ensures var s', t := Next(s, Exit), s.core.current;
            && t !in s'.core.threads && t !in s'.core.status && t !in s'.core.ready && t !in s'.alarm.sleepers
            && (forall q :: q in s'.waiters ==> t !in s'.waiters[q])
            && s'.core.current == NextUp(s) && NoneHigher(s') && s'.core.threads.Keys == s.core.threads.Keys - {t}
  {
    ReachableInv(s);
    var t := s.core.current;
    AtThread(s, t, true);
    SwitchTakesHighest(Leave(s));
    if s.core.ready != [] {
      AtThread(s, s.core.ready[0], true);
      assert s.core.ready[0] in s.core.ready;
    }
    LeaveKeeps(s);
    ScheduleKeeps(Leave(s));
  }

  // ---- Blocking and waking -------------------------------------------------------------------

  /** sema_down() on a semaphore at 0: the thread is among its waiters, in its place by priority, and a ready thread of
      the highest priority runs. */
  lemma SemaWaitBlocks(s: State, q: Sem) returns (k: nat)
    requires Reachable(s) && s.core.current != s.core.idle && q in s.waiters
    ensures var s', t := Next(s, SemaWait(q)), s.core.current;
            && QueuedAt(s.waiters[q], s'.waiters[q], t, s.books.prio, k) && s'.waiters == s.waiters[q := s'.waiters[q]]
            && t in s'.core.threads && s'.core.threads[t] == Waits(q)
            && s'.core.current == NextUp(s) && NoneHigher(s') && s'.books == s.books && s'.alarm == s.alarm
  {
    ReachableInv(s);
    AtThread(s, s.core.current, true);
    k := InsertPlace(s.waiters[q], s.core.current, s.books.prio, false);
    JoinWaitersKeeps(s, q);
    SwitchTakesHighest(JoinWaiters(s, q));
    if s.core.ready != [] {
      assert s.core.ready[0] in s.core.ready;
    }
  }

  /** sema_up() on a semaphore with waiters: the first is off the list, and is ready or runs. */
  lemma SemaUpWakes(s: State, q: Sem)
    requires Reachable(s) && q in s.waiters && s.waiters[q] != []
    ensures var s', w := Next(s, SemaUp(q)), s.waiters[q][0];
            && s'.waiters == s.waiters[q := s.waiters[q][1..]] && s'.books == s.books && s'.alarm == s.alarm
            && (w in s'.core.ready || w == s'.core.current)
  {
    ReachableInv(s);
    var w := s.waiters[q][0];
    var m := Unblock(PopWaiter(s, q), w);
    assert w in s.waiters[q];
    AtThread(s, w, true);
    PopWaiterKeeps(s, q);
    InsertMember(s.core.ready, w, s.books.prio, false, w);
    GivesWayExactly(m);
    assert w in m.core.ready;
    StaysRunnable(m, w);
  }

  /** test_max_priority() leaves a ready thread ready, or runs it. */
  lemma StaysRunnable(s: State, t: Tid)
    requires Inv(s) && t in s.core.ready
    ensures t in YieldToHigher(s).core.ready || t == YieldToHigher(s).core.current
  {
    AtThread(s, t, true);
    AtThread(s, s.core.current, true);
    InsertMember(s.core.ready, s.core.current, s.books.prio, false, t);
    var q := Unblock(s, s.core.current).core.ready;
    assert q != [] ==> q == [q[0]] + q[1..];
  }

  /** Thread `t` sleeps until `w`, and a ready thread of the highest priority runs. */
  ghost predicate Sleeps(s: State, s': State, t: Tid, w: int) {
    && t in s'.alarm.sleepers && KeyOf(s'.alarm.wake, t) == w
    && t in s'.core.threads && s'.core.threads[t] == InSleepList
    && s'.core.current == NextUp(s) && NoneHigher(s') && s'.books == s.books && s'.waiters == s.waiters
  }

  lemma GoesToSleep(s: State, w: int)
    requires Inv(s) && s.core.current != s.core.idle
    ensures Sleeps(s, Schedule(JoinSleepers(s, w)), s.core.current, w)
  {
    var t := s.core.current;
    AtThread(s, t, true);
    InsertMember(s.alarm.sleepers, t, s.alarm.wake[t := w], true, t);
    JoinSleepersKeeps(s, w);
    SwitchTakesHighest(JoinSleepers(s, w));
    if s.core.ready != [] {
      assert s.core.ready[0] in s.core.ready;
    }
  }

  /** timer_sleep(): the thread is asleep with its time, which is cut to 32 bits, and a ready thread of the highest
      priority runs; for no ticks, or a time that is then not positive, nothing happens. */
  lemma SleepBlocks(s: State, start: int, n: int)
    requires Reachable(s) && s.core.current != s.core.idle && 0 <= start <= s.alarm.ticks
    ensures var s', w := Next(s, TimerSleep(start, n)), Arithmetic.Wrap32(start + n);
            && (start + n <= INT32_MAX && n > 0 ==> w == start + n)
            && (if n > 0 && w > 0 then Sleeps(s, s', s.core.current, w) else s' == s)
  {
    ReachableInv(s);
    GoesToSleep(s, Arithmetic.Wrap32(start + n));
    if start + n <= INT32_MAX && n > 0 {
      WrapFits(start + n);
    }
  }

  /** The idle thread's block: a ready thread of the highest priority runs, if there is one. */
  lemma IdleBlockSwitches(s: State)
    requires Reachable(s) && s.core.current == s.core.idle
    ensures Next(s, IdleBlock).core.current == NextUp(s) && NoneHigher(Next(s, IdleBlock))
    ensures Next(s, IdleBlock).core.threads.Keys == s.core.threads.Keys
  {
    ReachableInv(s);
    SwitchTakesHighest(IdleBlocks(s));
    if s.core.ready != [] {
      assert s.core.ready[0] in s.core.ready;
      AtThread(s, s.core.ready[0], true);
    }
  }

  // ---- Priorities ----------------------------------------------------------------------------

  /** thread_set_priority(): in the priority mode the running thread has the priority asked for and no other changes; in
      the other nothing happens. */
  lemma SetPrioritySets(s: State, p: int)
    ensures var s' := Next(s, SetPriority(p));
            if s.config.mode.Mlfqs? then s' == s
            else s'.books == s.books.(prio := s.books.prio[s.core.current := p])
                 && (p >= KeyOf(s.books.prio, s.core.current) ==> s'.core == s.core)
  {
  }

  /** thread_set_nice(): the running thread has the niceness asked for and the priority that goes with it, and no other
      thread's changes. */
  lemma SetNiceSets(s: State, n: int)
    requires Reachable(s) && s.core.current != s.core.idle
    ensures var s', t := Next(s, SetNice(n)), s.core.current;
            && s'.books.nice == s.books.nice[t := n] && s'.books.cpu == s.books.cpu && s'.books.load == s.books.load
            && s'.books.prio == s.books.prio[t := NewPriority(s.config.rules, CpuOf(s.books, t), n)]
  {
    SameBooks(Renice(s, n));
  }

  lemma SameBooks(s: State)
    ensures YieldToHigher(s).books == s.books
  {
  }

  /** thread_set_scheduling_mode() changes the mode and nothing else. */
  lemma SetModeSets(s: State, mlfqs: bool)
    ensures var s' := Next(s, SetMode(mlfqs));
            s'.config.mode == (if mlfqs then Mlfqs else PriorityMode)
              && s' == s.(config := s.config.(mode := s'.config.mode))
  {
  }

  // ---- The timer interrupt -------------------------------------------------------------------

  lemma {:induction false} AwakeKeeps(s: State)
    ensures var s' := Awake(s);
            && s'.books == s.books && s'.waiters == s.waiters && s'.core.current == s.core.current
            && s'.core.slice == s.core.slice && s'.core.idle == s.core.idle
    decreases |s.alarm.sleepers|
  {
    if s.alarm.sleepers != [] && KeyOf(s.alarm.wake, s.alarm.sleepers[0]) <= s.alarm.ticks {
      AwakeKeeps(Unblock(PopSleeper(s), s.alarm.sleepers[0]));
    }
  }

  /** The interrupt asks for a yield: the time slice is over, or priorities were calculated anew and a ready thread's is
      then higher than that of the running thread. */
  ghost predicate SliceOver(s: State) {
    s.core.slice + 1 >= 4
  }

  ghost predicate Outranked(s: State, prio: map<Tid, int>) {
    && s.config.mode.Mlfqs? && (s.alarm.ticks + 1) % 4 == 0
    && exists t :: t in s.core.ready && KeyOf(prio, t) > KeyOf(prio, s.core.current)
  }

  /** On every run: a tick lets the running thread run on exactly if neither holds; if one does, the thread yields, and
      no ready thread has a higher priority than the one that runs then. */
  lemma TickYieldsExactly(s: State)
    requires Reachable(s)
    ensures var s', prio := Tick(s), Account(s).books.prio;
            && s'.alarm.ticks == s.alarm.ticks + 1
            && (SliceOver(s) || Outranked(s, prio) ==> NoneHigher(s') && s'.core.slice == 0)
            && (!SliceOver(s) && !Outranked(s, prio) ==>
                  s'.core.current == s.core.current && s'.core.slice == s.core.slice + 1)
  {
    ReachableInv(s);
    var s1 := Account(s);
    AccountKeeps(s);
    PreemptsExactly(s, s1);
    WakeUpKeeps(s1);
    AwakeKeeps(if s1.config.aging then Age(s1) else s1);
    AwakeTicks(if s1.config.aging then Age(s1) else s1);
    YieldLeavesNoneHigher(WakeUp(s1));
  }

  lemma {:induction false} AwakeTicks(s: State)
    ensures Awake(s).alarm.ticks == s.alarm.ticks
    decreases |s.alarm.sleepers|
  {
    if s.alarm.sleepers != [] && KeyOf(s.alarm.wake, s.alarm.sleepers[0]) <= s.alarm.ticks {
      AwakeTicks(Unblock(PopSleeper(s), s.alarm.sleepers[0]));
    }
  }

  lemma PreemptsExactly(s: State, s1: State)
    requires Inv(s) && s1 == Account(s) && Inv(s1)
    ensures Preempts(s1) <==> SliceOver(s) || Outranked(s, s1.books.prio)
    ensures s1.core.current == s.core.current && s1.core.slice == s.core.slice + 1
    ensures s1.alarm.ticks == s.alarm.ticks + 1
  {
    SameReady(s, s1);
    if s1.core.ready != [] {
      FrontIsFirst(s1.core.ready, s1.books.prio, false);
      assert s1.core.ready[0] in s1.core.ready;
    }
  }

  lemma SameReady(s: State, s1: State)
    requires Inv(s) && s1 == Account(s)
    ensures forall t :: t in s1.core.ready <==> t in s.core.ready
  {
    if s.config.mode.Mlfqs? && Stamp(s).alarm.ticks % TIME_SLICE == 0 {
      SortMembers(s.core.ready, s1.books.prio);
    }
  }

  /** On every run in the priority mode: a tick raises the priority of each thread that is ready by one, up to the
      highest, if aging is on, and changes none otherwise. */
  lemma TickAges(s: State, t: Tid)
    requires Reachable(s) && s.config.mode.PriorityMode? && t in s.books.prio
    ensures var p := KeyOf(s.books.prio, t);
            KeyOf(Tick(s).books.prio, t) == if s.config.aging && t in s.core.ready && p < 63 then p + 1 else p
  {
    var s1 := Account(s);
    AwakeKeeps(if s1.config.aging then Age(s1) else s1);
  }

  lemma TickBooks(s: State)
    requires !s.config.aging
    ensures Tick(s).books == Account(s).books
  {
    AwakeKeeps(Account(s));
  }

  /** On every run in the multilevel feedback queue mode without aging: a tick that is not the hundredth adds one to
      recent_cpu of the running thread, unless it is the idle thread, and changes nothing else of recent_cpu or
      load_avg. */
  lemma TickCounts(s: State, t: Tid)
    requires Reachable(s) && s.config.mode.Mlfqs? && !s.config.aging && (s.alarm.ticks + 1) % 100 != 0
    ensures var b := Tick(s).books;
            && b.load == s.books.load && b.nice == s.books.nice
            && CpuOf(b, t) == if t == s.core.current != s.core.idle then Arithmetic.Wrap32(CpuOf(s.books, t) + 16384)
                              else CpuOf(s.books, t)
  {
    TickBooks(s);
  }

  /** And every fourth tick each thread has the priority of its recent_cpu and niceness; other ticks change none. */
  lemma TickCalculates(s: State, t: Tid)
    requires Reachable(s) && s.config.mode.Mlfqs? && !s.config.aging && t in s.core.threads
    ensures var b, ticks := Tick(s).books, s.alarm.ticks + 1;
            && b.nice == s.books.nice && (ticks % 4 != 0 ==> b.prio == s.books.prio)
            && (ticks % 4 == 0 ==> KeyOf(b.prio, t) == NewPriority(s.config.rules, CpuOf(b, t), NiceOf(b, t)))
  {
    ReachableInv(s);
    AtThread(s, t, true);
    TickBooks(s);
    CalculatesFor(Stamp(s), t);
  }

  lemma CalculatesFor(s: State, t: Tid)
    requires t in s.core.threads && t in s.books.prio
    ensures var b := MlfqsTick(s).books;
            && b.nice == s.books.nice && (s.alarm.ticks % 4 != 0 ==> b.prio == s.books.prio)
            && (s.alarm.ticks % 4 == 0 ==>
                  KeyOf(b.prio, t) == NewPriority(s.config.rules, CpuOf(b, t), NiceOf(b, t)))
  {
    assert t in UpdateCpu(s).prio;
  }

  /** On every run in that mode: every hundredth tick load_avg is the new average of the old one and the number of
      threads that are ready or run, and each thread's recent_cpu decays by it. */
  lemma TickEverySecond(s: State, t: Tid)
    requires Reachable(s) && s.config.mode.Mlfqs? && !s.config.aging && (s.alarm.ticks + 1) % 100 == 0
    requires t in s.core.threads
    ensures var b, idle := Tick(s).books, s.core.current == s.core.idle;
            && b.load == NewLoad(s.config.rules, s.books.load, |s.core.ready| + if idle then 0 else 1)
            && b.nice == s.books.nice
            && CpuOf(b, t)
               == NewCpu(s.config.rules, b.load,
                         if t == s.core.current then Arithmetic.Wrap32(CpuOf(s.books, t) + 16384)
                         else CpuOf(s.books, t),
                         NiceOf(s.books, t))
  {
    TickBooks(s);
    var m := Stamp(s);
    SecondBooks(CountTick(m.books, m.core), m.core, s.config.rules, t);
    ReachableInv(s);
    AtThread(s, t, true);
  }

  lemma SecondBooks(b: Books, c: Core, rules: Rules, t: Tid)
    requires t in c.threads
    ensures var b' := EverySecond(b, c, rules);
            && b'.load == NewLoad(rules, b.load, |c.ready| + if c.current == c.idle then 0 else 1) && b'.nice == b.nice
            && CpuOf(b', t) == NewCpu(rules, b'.load, CpuOf(b, t), NiceOf(b, t))
  {
  }
}

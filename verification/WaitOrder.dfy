/** threads/synch.c over the scheduler: whom sema_up() wakes. */
module WaitOrder {
  import opened Basics
  import opened Arithmetic
  import opened FixedPoint
  import opened Queue
  import opened Scheduler

  /** Every waiters list is in order of priority. */
  ghost predicate WaitersOrdered(s: State) {
    forall q {:trigger Look(q)} :: q in s.waiters ==> Ordered(s.waiters[q], s.books.prio, false)
  }

  /** No waiting thread's priority differs. */
  ghost predicate SameForWaiters(s: State, prio: map<Tid, int>) {
    forall q, t {:trigger t in s.waiters[q]} :: q in s.waiters && t in s.waiters[q] ==>
      KeyOf(prio, t) == KeyOf(s.books.prio, t)
  }

  lemma OthersChanged(s: State, s': State)
    requires WaitersOrdered(s) && s'.waiters == s.waiters && SameForWaiters(s, s'.books.prio)
    ensures WaitersOrdered(s')
  {
    forall q | q in s'.waiters
      ensures Ordered(s'.waiters[q], s'.books.prio, false)
    {
      assert Look(q);
      OrderedLocal(s.waiters[q], s.books.prio, s'.books.prio, false);
    }
  }

  /** A thread that is not waiting may have any priority. */
  lemma OneChanged(s: State, t: Tid, p: int)
    requires Inv(s) && (t in s.core.threads ==> !s.core.threads[t].Waits?)
    ensures SameForWaiters(s, s.books.prio[t := p])
  {
    AtThread(s, t, true);
  }

  lemma AgeSame(s: State)
    requires Inv(s)
    ensures SameForWaiters(s, Age(s).books.prio)
  {
    forall q, t | q in s.waiters && t in s.waiters[q]
      ensures KeyOf(Age(s).books.prio, t) == KeyOf(s.books.prio, t)
    {
      AtThread(s, t, true);
    }
  }

  lemma {:induction false} AwakeKeepsWaiters(s: State)
    ensures Awake(s).waiters == s.waiters && Awake(s).books == s.books
    decreases |s.alarm.sleepers|
  {
    if s.alarm.sleepers != [] && KeyOf(s.alarm.wake, s.alarm.sleepers[0]) <= s.alarm.ticks {
      AwakeKeepsWaiters(Unblock(PopSleeper(s), s.alarm.sleepers[0]));
    }
  }

  lemma TickKeepsOrder(s: State)
    requires Inv(s) && WaitersOrdered(s) && s.config.mode.PriorityMode?
    ensures WaitersOrdered(Tick(s))
  {
    var s1 := Stamp(s);
    StampKeeps(s);
    OthersChanged(s, s1);
    var s2 := if s.config.aging then Age(s1) else s1;
    AgeSame(s1);
    OthersChanged(s1, s2);
    AwakeKeepsWaiters(s2);
    OthersChanged(s2, Tick(s));
  }

  lemma WaitKeepsOrder(s: State, q: Sem)
    requires WaitersOrdered(s) && q in s.waiters
    ensures WaitersOrdered(JoinWaiters(s, q))
  {
    var s' := JoinWaiters(s, q);
    forall r | r in s'.waiters
      ensures Ordered(s'.waiters[r], s'.books.prio, false)
    {
      assert Look(r);
      InsertKeepsOrdered(s.waiters[r], s.core.current, s.books.prio, false);
    }
  }

  lemma UpKeepsOrder(s: State, q: Sem)
    requires Inv(s) && WaitersOrdered(s) && q in s.waiters && s.waiters[q] != []
    ensures WaitersOrdered(PopWaiter(s, q))
  {
    var s' := PopWaiter(s, q);
    forall r | r in s'.waiters
      ensures Ordered(s'.waiters[r], s'.books.prio, false)
    {
      assert Look(r);
      if r == q {
        Tail(s.waiters[q], s.books.prio, false);
      }
    }
  }

  /** The step in which priorities of waiting threads may change. */
  predicate Recalculates(s: State, step: Step) {
    step.TimerTick? && s.config.mode.Mlfqs?
  }

  lemma ReniceKeepsOrder(s: State, n: int)
    requires Inv(s) && WaitersOrdered(s)
    ensures WaitersOrdered(Renice(s, n))
  {
    AtThread(s, s.core.current, true);
    var b, cur := s.books.(nice := s.books.nice[s.core.current := n]), s.core.current;
    OneChanged(s, cur, NewPriority(s.config.rules, CpuOf(b, cur), n));
    OthersChanged(s, Renice(s, n));
  }

  lemma UpStepKeepsOrder(s: State, q: Sem)
    requires Inv(s) && WaitersOrdered(s)
    ensures WaitersOrdered(Next(s, SemaUp(q)))
  {
    if q in s.waiters && s.waiters[q] != [] {
      UpKeepsOrder(s, q);
      OthersChanged(PopWaiter(s, q), Next(s, SemaUp(q)));
    } else {
      OthersChanged(s, Next(s, SemaUp(q)));
    }
  }

  /** Every step keeps the waiters in order, except the timer interrupt of the multilevel feedback queue. */
  lemma NextKeepsOrder(s: State, step: Step)
    requires Inv(s) && WaitersOrdered(s) && !Recalculates(s, step)
    ensures WaitersOrdered(Next(s, step))
  {
    match step
    case Create(t, priority) =>
      if t !in s.core.threads {
        OneChanged(s, t, NewThread(s, t, priority).books.prio[t]);
      }
      OthersChanged(s, Next(s, step));
    case SemaWait(q) =>
      if q in s.waiters {
        WaitKeepsOrder(s, q);
        OthersChanged(JoinWaiters(s, q), Schedule(JoinWaiters(s, q)));
      }
    case SemaUp(q) => UpStepKeepsOrder(s, q);
    case TimerTick => TickKeepsOrder(s);
    case SetPriority(priority) =>
      AtThread(s, s.core.current, true);
      OneChanged(s, s.core.current, priority);
      OthersChanged(s, Next(s, step));
    case SetNice(n) =>
      ReniceKeepsOrder(s, n);
      OthersChanged(Renice(s, n), Next(s, step));
    case _ =>
      OthersChanged(s, Next(s, step));
  }

  /** The scheduler is in the priority mode, and `steps` do not change that. */
  predicate StaysInPriorityMode(mode: Mode, steps: seq<Step>) {
    mode.PriorityMode? && SetMode(true) !in steps
  }

  lemma ModeStays(s: State, step: Step)
    requires s.config.mode.PriorityMode? && step != SetMode(true)
    ensures Next(s, step).config.mode.PriorityMode?
  {
    if step.TimerTick? {
      AwakeKeepsConfig(if s.config.aging then Age(Stamp(s)) else Stamp(s));
    }
  }

  lemma {:induction false} AwakeKeepsConfig(s: State)
    ensures Awake(s).config == s.config
    decreases |s.alarm.sleepers|
  {
    if s.alarm.sleepers != [] && KeyOf(s.alarm.wake, s.alarm.sleepers[0]) <= s.alarm.ticks {
      AwakeKeepsConfig(Unblock(PopSleeper(s), s.alarm.sleepers[0]));
    }
  }

  lemma {:induction false} RunKeepsOrder(s: State, steps: seq<Step>)
    requires Inv(s) && WaitersOrdered(s) && StaysInPriorityMode(s.config.mode, steps)
    ensures Inv(Run(s, steps)) && WaitersOrdered(Run(s, steps))
    decreases |steps|
  {
    if steps != [] {
      NextKeepsInv(s, steps[0]);
      NextKeepsOrder(s, steps[0]);
      ModeStays(s, steps[0]);
      RunKeepsOrder(Next(s, steps[0]), steps[1..]);
    }
  }

  /** On every run in the priority mode, the thread that sema_up() unblocks has the highest priority of all that wait
      for the semaphore. */
  lemma WakesHighestPriority(main: Tid, idle: Tid, sems: set<Sem>, aging: bool, steps: seq<Step>, q: Sem, t: Tid)
    requires main != idle && SetMode(true) !in steps
    requires var s := Run(Start(main, idle, sems, PriorityMode, aging), steps);
             t in s.core.threads && s.core.threads[t] == Waits(q)
    ensures var s := Run(Start(main, idle, sems, PriorityMode, aging), steps);
            && q in s.waiters && s.waiters[q] != [] && KeyOf(s.books.prio, t) <= KeyOf(s.books.prio, s.waiters[q][0])
            && Next(s, SemaUp(q)).waiters == s.waiters[q := s.waiters[q][1..]]
  {
    var s0 := Start(main, idle, sems, PriorityMode, aging);
    StartInv(main, idle, sems, PriorityMode, aging);
    RunKeepsOrder(s0, steps);
    var s := Run(s0, steps);
    AtThread(s, t, true);
    assert Look(q);
    FrontIsFirst(s.waiters[q], s.books.prio, false);
  }

  // ---- The multilevel feedback queue ---------------------------------------------------------

  /** The idle thread is 0, the semaphore 7, and the mode the multilevel feedback queue; nice and load_avg are 0. */
  function Scene(c: Core, waiting: seq<Tid>, ticks: int, prio: map<Tid, int>, nice: map<Tid, int>,
                 cpu: map<Tid, int>): State
  {
    State(c, map[7 := waiting], Alarm([], map[], ticks), Books(prio, nice, cpu, 0), Config(Mlfqs, false, KernelRules()))
  }

  /** Threads 1, 2 and 3, of the same priority still; thread 1 has used `k` ticks. */
  function Three(c: Core, waiting: seq<Tid>, ticks: int, k: int): State {
    Scene(c, waiting, ticks, Equal(), map[1 := 0, 2 := 0, 3 := 0], Used(k))
  }

  function Equal(): map<Tid, int> {
    map[1 := PRI_MAX, 0 := PRI_MAX, 2 := PRI_MAX, 3 := PRI_MAX]
  }

  function Used(k: int): map<Tid, int> {
    map[1 := k * F, 2 := 0, 3 := 0]
  }

  /** Thread 1 has made thread 2. */
  function WithTwo(): State {
    Scene(Core(map[1 := OnCpu, 2 := InReadyList], map[1 := Running, 0 := Blocked, 2 := ReadyToRun], 1, 0, [2], 0),
          [], 0,
          map[1 := PRI_MAX, 0 := PRI_MAX, 2 := PRI_MAX], map[1 := 0, 2 := 0], map[1 := 0, 2 := 0])
  }

  /** Thread 1 runs, and the others are ready. */
  function AllRunnable(slice: int): Core {
    Core(map[1 := OnCpu, 2 := InReadyList, 3 := InReadyList],
         map[1 := Running, 0 := Blocked, 2 := ReadyToRun, 3 := ReadyToRun], 1, 0, [2, 3], slice)
  }

  /** Thread 1 waits and thread 2 runs; then thread 2 waits as well and thread 3 runs. */
  function OneWaits(): Core {
    Core(map[1 := Waits(7), 2 := OnCpu, 3 := InReadyList],
         map[1 := Blocked, 0 := Blocked, 2 := Running, 3 := ReadyToRun], 2, 0, [3], 0)
  }

  function TwoWait(): Core {
    Core(map[1 := Waits(7), 2 := Waits(7), 3 := OnCpu],
         map[1 := Blocked, 0 := Blocked, 2 := Blocked, 3 := Running], 3, 0, [], 0)
  }

  /** thread_create() by a thread that has used no time and is not nice. */
  lemma MakesThread(s: State, t: Tid)
    requires s.config.mode.Mlfqs? && s.config.rules == KernelRules() && t !in s.core.threads && t != s.core.idle
    requires CpuOf(s.books, s.core.current) == 0 && NiceOf(s.books, s.core.current) == 0
    ensures Next(Next(s, Create(t, PRI_DEFAULT)), Launch(t))
         == Unblock(s.(core := Move(s.core, t, Nascent, Blocked),
                       books := s.books.(prio := s.books.prio[t := PRI_MAX], nice := s.books.nice[t := 0],
                                         cpu := s.books.cpu[t := 0])), t)
  {
    FirstPriority(s.config.rules);
  }

  lemma AfterFirstLaunch(s: State)
    requires s == Start(1, 0, {7}, Mlfqs, false)
    ensures Next(Next(s, Create(2, PRI_DEFAULT)), Launch(2)) == WithTwo()
  {
    MakesThread(s, 2);
    assert s.waiters == map[7 := []];
    FirstCore(s.core, WithTwo().books.prio);
    assert s.books.prio[2 := PRI_MAX] == WithTwo().books.prio;
    assert s.books.nice[2 := 0] == s.books.cpu[2 := 0] == map[1 := 0, 2 := 0];
  }

  lemma FirstCore(c: Core, prio: map<Tid, int>)
    requires c == Core(map[1 := OnCpu], map[1 := Running, 0 := Blocked], 1, 0, [], 0)
    ensures Enqueue(Move(c, 2, Nascent, Blocked), 2, prio) == WithTwo().core
  {
    var c' := Enqueue(Move(c, 2, Nascent, Blocked), 2, prio);
    assert c'.threads == map[1 := OnCpu, 2 := InReadyList];
    assert c'.status == map[1 := Running, 0 := Blocked, 2 := ReadyToRun];
  }

  lemma SecondCore(c: Core, prio: map<Tid, int>)
    requires c == WithTwo().core && prio == Equal()
    ensures Enqueue(Move(c, 3, Nascent, Blocked), 3, prio) == AllRunnable(0)
  {
    var c' := Enqueue(Move(c, 3, Nascent, Blocked), 3, prio);
    BehindItsEqual(2, 3, prio);
    assert c'.threads == AllRunnable(0).threads;
    assert c'.status == AllRunnable(0).status;
  }

  lemma BehindItsEqual(t: Tid, u: Tid, prio: map<Tid, int>)
    requires KeyOf(prio, u) <= KeyOf(prio, t)
    ensures Insert([], t, prio, false) == [t] && Insert([t], u, prio, false) == [t, u]
  {
    assert [t][1..] == [];
    assert Insert([t], u, prio, false) == [t] + Insert([], u, prio, false);
  }

  lemma AfterSecondLaunch()
    ensures Next(Next(WithTwo(), Create(3, PRI_DEFAULT)), Launch(3)) == Three(AllRunnable(0), [], 0, 0)
  {
    MakesThread(WithTwo(), 3);
    SecondCore(WithTwo().core, Equal());
    assert WithTwo().books.prio[3 := PRI_MAX] == Equal();
    assert WithTwo().books.nice[3 := 0] == map[1 := 0, 2 := 0, 3 := 0] == Used(0);
  }

  /** A tick at which nothing happens but that it is counted. */
  lemma QuietTick(s: State)
    requires s.config.mode.Mlfqs? && !s.config.aging && s.alarm.sleepers == [] && s.core.current != s.core.idle
    requires s.core.slice < 3 && (s.alarm.ticks + 1) % TIME_SLICE != 0 && (s.alarm.ticks + 1) % TIMER_FREQ != 0
    ensures Next(s, TimerTick)
         == s.(alarm := s.alarm.(ticks := s.alarm.ticks + 1), core := s.core.(slice := s.core.slice + 1),
               books := s.books.(cpu := s.books.cpu[s.core.current := Wrap32(CpuOf(s.books, s.core.current) + F)]))
  {
  }

  /** A tick that calculates the priorities anew while no thread is ready. */
  lemma RecalculatingTick(s: State)
    requires s.config.mode.Mlfqs? && !s.config.aging && s.alarm.sleepers == [] && s.core.ready == []
    requires s.core.slice < 3 && (s.alarm.ticks + 1) % TIME_SLICE == 0 && (s.alarm.ticks + 1) % TIMER_FREQ != 0
    ensures Next(s, TimerTick).waiters == s.waiters
    ensures Next(s, TimerTick).books.prio == NewPriorities(CountTick(s.books, s.core), s.core, s.config.rules)
  {
    var s1 := Account(s);
    assert s1.core.ready == [];
    assert !Preempts(s1);
  }

  lemma OneTick(k: int)
    requires 0 <= k < 3
    ensures Next(Three(AllRunnable(k), [], k, k), TimerTick) == Three(AllRunnable(k + 1), [], k + 1, k + 1)
  {
    QuietTick(Three(AllRunnable(k), [], k, k));
    UsedMore(k);
  }

  lemma UsedMore(k: int)
    requires 0 <= k < 3
    ensures Used(k)[1 := Wrap32(k * F + F)] == Used(k + 1)
  {
    WrapFits(k * F + F);
  }

  lemma WaitStep(s: State, q: Sem, waiting: seq<Tid>)
    requires s.core.current != s.core.idle && s.waiters == map[q := waiting]
    ensures Next(s, SemaWait(q))
         == s.(waiters := map[q := Insert(waiting, s.core.current, s.books.prio, false)],
               core := Switch(Move(s.core, s.core.current, Waits(q), Blocked)))
  {
  }

  lemma FirstSwitch()
    ensures Switch(Move(AllRunnable(3), 1, Waits(7), Blocked)) == OneWaits()
  {
    assert [2, 3][1..] == [3];
  }

  lemma SecondSwitch()
    ensures Switch(Move(OneWaits(), 2, Waits(7), Blocked)) == TwoWait()
  {
    assert [3][1..] == [];
  }

  lemma TwoGoToWait()
    ensures Next(Three(AllRunnable(3), [], 3, 3), SemaWait(7)) == Three(OneWaits(), [1], 3, 3)
    ensures Next(Three(OneWaits(), [1], 3, 3), SemaWait(7)) == Three(TwoWait(), [1, 2], 3, 3)
  {
    BehindItsEqual(1, 2, Equal());
    FirstSwitch();
    SecondSwitch();
    WaitStep(Three(AllRunnable(3), [], 3, 3), 7, []);
    WaitStep(Three(OneWaits(), [1], 3, 3), 7, [1]);
  }

  lemma Recalculated(b: Books, c: Core, rules: Rules, prio: map<Tid, int>)
    requires {1, 2} <= b.prio.Keys && {1, 2} <= c.threads.Keys && c.current == 3
    requires CpuOf(b, 1) == 3 * F && CpuOf(b, 2) == 0 && NiceOf(b, 1) == NiceOf(b, 2) == 0
    requires NewPriority(rules, 3 * F, 0) == 62 && NewPriority(rules, 0, 0) == 63
    requires prio == NewPriorities(CountTick(b, c), c, rules)
    ensures KeyOf(prio, 1) == 62 && KeyOf(prio, 2) == 63
  {
    RecalculatedAt(b, c, rules, 1);
    RecalculatedAt(b, c, rules, 2);
  }

  lemma RecalculatedAt(b: Books, c: Core, rules: Rules, t: Tid)
    requires t in b.prio && t in c.threads && t != c.current
    ensures KeyOf(NewPriorities(CountTick(b, c), c, rules), t) == NewPriority(rules, CpuOf(b, t), NiceOf(b, t))
  {
  }

  lemma LaterPriority(rules: Rules)
    requires rules == KernelRules()
    ensures NewPriority(rules, 3 * F, 0) == 62
  {
    WrapFits(3 * F);
    PriorityIs(3 * F, 0);
  }

  lemma RunStep(s: State, steps: seq<Step>, s': State)
    requires steps != [] && s' == Next(s, steps[0])
    ensures Run(s, steps) == Run(s', steps[1..])
  {
  }

  /** Two steps at the front of a run. */
  lemma RunTwo(s: State, a: Step, b: Step, s': State, rest: seq<Step>)
    requires s' == Next(Next(s, a), b)
    ensures Run(s, [a, b] + rest) == Run(s', rest)
  {
    var t := [a, b] + rest;
    assert t[1..] == [b] + rest && t[1..][1..] == rest;
    RunStep(s, t, Next(s, a));
    RunStep(Next(s, a), t[1..], s');
  }

  lemma RunTicks(rest: seq<Step>)
    ensures Run(Three(AllRunnable(0), [], 0, 0), [TimerTick, TimerTick] + ([TimerTick] + rest))
         == Run(Three(AllRunnable(3), [], 3, 3), rest)
  {
    OneTick(0);
    OneTick(1);
    RunTwo(Three(AllRunnable(0), [], 0, 0), TimerTick, TimerTick, Three(AllRunnable(2), [], 2, 2), [TimerTick] + rest);
    OneTick(2);
    assert ([TimerTick] + rest)[1..] == rest;
    RunStep(Three(AllRunnable(2), [], 2, 2), [TimerTick] + rest, Three(AllRunnable(3), [], 3, 3));
  }

  lemma UpTakesFirst(s: State, q: Sem, waiting: seq<Tid>)
    requires s.waiters == map[q := waiting] && waiting != []
    ensures Next(s, SemaUp(q)).waiters == map[q := waiting[1..]]
  {
  }

  lemma AfterFourthTick(s: State)
    requires s == Run(Three(TwoWait(), [1, 2], 3, 3), [TimerTick])
    ensures s.waiters == map[7 := [1, 2]] && KeyOf(s.books.prio, 1) == 62 && KeyOf(s.books.prio, 2) == 63
  {
    var s0 := Three(TwoWait(), [1, 2], 3, 3);
    RecalculatingTick(s0);
    FirstPriority(s0.config.rules);
    LaterPriority(s0.config.rules);
    Recalculated(s0.books, s0.core, s0.config.rules, Next(s0, TimerTick).books.prio);
    RunStep(s0, [TimerTick], Next(s0, TimerTick));
  }

  function TickSteps(): seq<Step> {
    [TimerTick, TimerTick] + ([TimerTick] + ([SemaWait(7), SemaWait(7)] + [TimerTick]))
  }

  /** In the multilevel feedback queue mode it need not be so. Thread 1 makes two others, runs for three ticks and
      waits; then thread 2, which has used no time, waits behind it, as their priorities are still the same. The
      fourth tick calculates them anew, and when thread 3 calls sema_up(), that takes thread 1, whose priority is
      lower. */
  lemma MlfqsWakesLower(steps: seq<Step>)
    requires steps == [Create(2, PRI_DEFAULT), Launch(2)] + ([Create(3, PRI_DEFAULT), Launch(3)] + TickSteps())
    ensures var s := Run(Start(1, 0, {7}, Mlfqs, false), steps);
            && s.waiters == map[7 := [1, 2]] && KeyOf(s.books.prio, 1) < KeyOf(s.books.prio, 2)
            && Next(s, SemaUp(7)).waiters == map[7 := [2]]
  {
    var s0 := Start(1, 0, {7}, Mlfqs, false);
    AfterFirstLaunch(s0);
    RunTwo(s0, Create(2, PRI_DEFAULT), Launch(2), WithTwo(), [Create(3, PRI_DEFAULT), Launch(3)] + TickSteps());
    AfterSecondLaunch();
    RunTwo(WithTwo(), Create(3, PRI_DEFAULT), Launch(3), Three(AllRunnable(0), [], 0, 0), TickSteps());
    RunTicks([SemaWait(7), SemaWait(7)] + [TimerTick]);
    TwoGoToWait();
    RunTwo(Three(AllRunnable(3), [], 3, 3), SemaWait(7), SemaWait(7), Three(TwoWait(), [1, 2], 3, 3), [TimerTick]);
    var s := Run(s0, steps);
    AfterFourthTick(s);
    UpTakesFirst(s, 7, [1, 2]);
  }
}

/** threads/thread.c: load_avg and recent_cpu over every run of the multilevel feedback queue. */
module LoadAccounting {
  import opened Basics
  import opened Arithmetic
  import opened FixedPoint
  import opened Queue
  import opened Scheduler

  /** `t` has used at most `k` ticks since the last update of every recent_cpu. */
  ghost predicate CpuOk(b: Books, t: Tid, r: nat, k: int) {
    CpuMin(r) <= CpuOf(b, t) <= CpuMax(r) + k * F && -20 <= NiceOf(b, t) <= 20
  }

  ghost predicate AllOk(b: Books, r: nat, k: int) {
    0 <= b.load <= r * F && forall t {:trigger Look(t)} :: CpuOk(b, t, r, k)
  }

  /** With at most `r` runnable threads: load_avg is at most `r`, and no thread's recent_cpu is above the range that
      the last second's update left it in by more than what it can have run since. */
  ghost predicate CpuInv(s: State, r: nat) {
    s.config.rules == KernelRules() && s.config.mode == Mlfqs && AllOk(s.books, r, s.alarm.ticks % TIMER_FREQ)
  }

  // ---- One tick ------------------------------------------------------------------------------

  lemma CountTickOk(b: Books, c: Core, r: nat, k: int)
    requires AllOk(b, r, k) && 0 <= k < 100 && r <= 545
    ensures AllOk(CountTick(b, c), r, k + 1)
    ensures c.current != c.idle ==> CpuOf(CountTick(b, c), c.current) == CpuOf(b, c.current) + F
  {
    assert Look(c.current);
    var b', k' := CountTick(b, c), k + 1;
    forall t
      ensures CpuOk(b', t, r, k')
    {
      assert Look(t);
    }
  }

  lemma DecayCpuOk(load: Int32, cpu: Int32, nice: Int32, r: nat)
    requires r <= 545 && 0 <= load <= r * F && CpuMin(r) <= cpu <= CpuMax(r) + 100 * F && -20 <= nice <= 20
    ensures CpuMin(r) <= DecayCpu(load, cpu, nice) <= CpuMax(r)
  {
    RecentCpuBounds(load, cpu, nice, r);
  }

  lemma RulesFit(x: Int32, y: Int32, z: Int32)
    ensures NewCpu(KernelRules(), x, y, z) == DecayCpu(x, y, z) && NewLoad(KernelRules(), x, y) == LoadAvg(x, y)
  {
    WrapFits(x);
    WrapFits(y);
    WrapFits(z);
  }

  lemma DecayOk(load: int, cpu: int, nice: int, r: nat)
    requires r <= 545 && 0 <= load <= r * F && CpuMin(r) <= cpu <= CpuMax(r) + 100 * F && -20 <= nice <= 20
    ensures CpuMin(r) <= NewCpu(KernelRules(), load, cpu, nice) <= CpuMax(r)
  {
    DecayCpuOk(load, cpu, nice, r);
    RulesFit(load, cpu, nice);
  }

  lemma LoadOk(load: int, ready: int, r: nat)
    requires r <= 545 && 0 <= load <= r * F && 0 <= ready <= r
    ensures 0 <= NewLoad(KernelRules(), load, ready) <= r * F
  {
    LoadAvgBounds(load, ready, r);
    RulesFit(load, ready, 0);
  }

  lemma DecayedOk(b: Books, c: Core, r: nat, rules: Rules, b': Books)
    requires AllOk(b, r, 100) && r <= 545 && rules == KernelRules() && b' == b.(cpu := Decayed(b, c, rules))
    ensures AllOk(b', r, 0)
  {
    forall t
      ensures CpuOk(b', t, r, 0)
    {
      assert Look(t);
      if t in c.threads {
        DecayOk(b.load, CpuOf(b, t), NiceOf(b, t), r);
      }
    }
  }

  lemma EverySecondOk(b: Books, c: Core, r: nat, rules: Rules)
    requires AllOk(b, r, 100) && r <= 545 && RunnableThreads(c) <= r && rules == KernelRules()
    ensures AllOk(EverySecond(b, c, rules), r, 0)
  {
    var b1 := b.(load := NewLoad(rules, b.load, RunnableThreads(c)));
    LoadOk(b.load, RunnableThreads(c), r);
    forall t
      ensures CpuOk(b1, t, r, 100)
    {
      assert Look(t);
    }
    DecayedOk(b1, c, r, rules, EverySecond(b, c, rules));
  }

  lemma UpdateCpuOk(s: State, r: nat, k: int)
    requires AllOk(s.books, r, k) && s.config.rules == KernelRules() && k == (s.alarm.ticks - 1) % TIMER_FREQ
    requires r <= 545 && RunnableThreads(s.core) <= r
    ensures AllOk(UpdateCpu(s), r, s.alarm.ticks % TIMER_FREQ)
  {
    CountTickOk(s.books, s.core, r, k);
    if s.alarm.ticks % TIMER_FREQ == 0 {
      EverySecondOk(CountTick(s.books, s.core), s.core, r, s.config.rules);
    }
  }

  /** Steps that leave the accounts alone. */
  ghost predicate SameAccounts(s: State, s': State) {
    && s'.books.cpu == s.books.cpu && s'.books.nice == s.books.nice && s'.books.load == s.books.load
    && s'.alarm.ticks == s.alarm.ticks && s'.config == s.config
  }

  lemma SameAccountsOk(s: State, s': State, r: nat)
    requires CpuInv(s, r) && SameAccounts(s, s')
    ensures CpuInv(s', r)
  {
    forall t
      ensures CpuOk(s'.books, t, r, s'.alarm.ticks % TIMER_FREQ)
    {
      assert Look(t);
    }
  }

  lemma {:induction false} AwakeAccounts(s: State)
    ensures SameAccounts(s, Awake(s))
    decreases |s.alarm.sleepers|
  {
    if s.alarm.sleepers != [] && KeyOf(s.alarm.wake, s.alarm.sleepers[0]) <= s.alarm.ticks {
      AwakeAccounts(Unblock(PopSleeper(s), s.alarm.sleepers[0]));
    }
  }

  lemma AccountOk(s: State, r: nat)
    requires CpuInv(s, r) && r <= 545 && RunnableThreads(s.core) <= r
    ensures CpuInv(Account(s), r)
  {
    var s1 := Stamp(s);
    UpdateCpuOk(s1, r, s.alarm.ticks % TIMER_FREQ);
    SameAccountsOk(s1.(books := UpdateCpu(s1)), Account(s), r);
  }

  lemma TickOk(s: State, r: nat)
    requires CpuInv(s, r) && r <= 545 && RunnableThreads(s.core) <= r
    ensures CpuInv(Tick(s), r)
  {
    var s1 := Account(s);
    AccountOk(s, r);
    AwakeAccounts(if s1.config.aging then Age(s1) else s1);
    SameAccountsOk(s1, WakeUp(s1), r);
    SameAccountsOk(WakeUp(s1), Yield(WakeUp(s1)), r);
  }

  // ---- The other steps -----------------------------------------------------------------------

  lemma YieldToHigherAccounts(s: State)
    ensures SameAccounts(s, YieldToHigher(s))
  {
  }

  lemma CreateOk(s: State, t: Tid, priority: int, r: nat)
    requires CpuInv(s, r)
    ensures CpuInv(NewThread(s, t, priority), r)
  {
    var s' := NewThread(s, t, priority);
    assert Look(s.core.current);
    forall u
      ensures CpuOk(s'.books, u, r, s'.alarm.ticks % TIMER_FREQ)
    {
      assert Look(u);
    }
  }

  lemma ReniceOk(s: State, n: int, r: nat)
    requires CpuInv(s, r) && -20 <= n <= 20
    ensures CpuInv(Renice(s, n), r)
  {
    var s' := Renice(s, n);
    forall u
      ensures CpuOk(s'.books, u, r, s'.alarm.ticks % TIMER_FREQ)
    {
      assert Look(u);
    }
  }

  lemma OtherStepsOk(s: State, step: Step, r: nat)
    requires CpuInv(s, r) && !step.TimerTick? && !step.SetMode? && (step.SetNice? ==> -20 <= step.nice <= 20)
    ensures CpuInv(Next(s, step), r)
  {
    match step
    case Create(t, priority) =>
      CreateOk(s, t, priority, r);
    case SetNice(n) =>
      ReniceOk(s, n, r);
      YieldToHigherAccounts(Renice(s, n));
      SameAccountsOk(Renice(s, n), Next(s, step), r);
    case _ =>
      OtherStepsAccounts(s, step);
      SameAccountsOk(s, Next(s, step), r);
  }

  lemma OtherStepsAccounts(s: State, step: Step)
    requires !step.TimerTick? && !step.SetMode? && !step.SetNice? && !step.Create?
    ensures SameAccounts(s, Next(s, step))
  {
    match step
    case SemaUp(q) =>
      if q in s.waiters && s.waiters[q] != [] {
        YieldToHigherAccounts(Unblock(PopWaiter(s, q), s.waiters[q][0]));
      }
      YieldToHigherAccounts(s);
    case SetPriority(priority) => YieldToHigherAccounts(WithPriority(s, priority));
    case TestMaxPriority => YieldToHigherAccounts(s);
    case _ =>
  }

  // ---- Every run -----------------------------------------------------------------------------

  /** A run in the multilevel feedback queue mode, with niceness from -20 to 20 as documented, and at most `r`
      runnable threads at each tick. */
  ghost predicate Within(s: State, steps: seq<Step>, r: nat)
    decreases |steps|
  {
    steps != [] ==>
      && !steps[0].SetMode?
      && (steps[0].SetNice? ==> -20 <= steps[0].nice <= 20)
      && (steps[0].TimerTick? ==> RunnableThreads(s.core) <= r)
      && Within(Next(s, steps[0]), steps[1..], r)
  }

  lemma StepKeepsCpu(s: State, step: Step, r: nat)
    requires CpuInv(s, r) && r <= 545 && !step.SetMode? && (step.SetNice? ==> -20 <= step.nice <= 20)
    requires step.TimerTick? ==> RunnableThreads(s.core) <= r
    ensures CpuInv(Next(s, step), r)
  {
    if step.TimerTick? {
      TickOk(s, r);
    } else {
      OtherStepsOk(s, step, r);
    }
  }

  lemma {:induction false} RunKeepsCpu(s: State, steps: seq<Step>, r: nat)
    requires CpuInv(s, r) && r <= 545 && Within(s, steps, r)
    ensures CpuInv(Run(s, steps), r)
    decreases |steps|
  {
    if steps != [] {
      StepKeepsCpu(s, steps[0], r);
      RunKeepsCpu(Next(s, steps[0]), steps[1..], r);
    }
  }

  /** With at most `r` runnable threads at each tick, load_avg and every recent_cpu stay in range on every run; for
      `r` up to 545 the 32-bit arithmetic never wraps around. */
  lemma AccountsStayInRange(main: Tid, idle: Tid, sems: set<Sem>, aging: bool, steps: seq<Step>, r: nat, t: Tid)
    requires main != idle && r <= 545 && Within(Start(main, idle, sems, Mlfqs, aging), steps, r)
    ensures var b := Run(Start(main, idle, sems, Mlfqs, aging), steps).books;
            0 <= b.load <= r * F && CpuMin(r) <= CpuOf(b, t) <= CpuMax(r) + 99 * F <= INT32_MAX - F
  {
    var s := Start(main, idle, sems, Mlfqs, aging);
    forall u
      ensures CpuOk(s.books, u, r, 0)
    {
    }
    RunKeepsCpu(s, steps, r);
    assert Look(t);
  }

  lemma {:induction false} DistinctCount(q: seq<Tid>, s: set<Tid>)
    requires NoDup(q) && forall t :: t in q ==> t in s
    ensures |q| <= |s|
  {
    if q != [] {
      var t := q[0];
      assert t in q;
      forall u | u in q[1..]
        ensures u in s - {t}
      {
      }
      DistinctCount(q[1..], s - {t});
    }
  }

  /** The runnable threads that load_avg counts are different threads, so their number is at most that of all
      threads. */
  lemma RunnableAreThreads(s: State)
    requires Reachable(s)
    ensures RunnableThreads(s.core) <= |s.core.threads|
  {
    ReachableInv(s);
    var c := s.core.current;
    AtThread(s, c, true);
    var rest := s.core.threads.Keys - {c};
    forall t | t in s.core.ready
      ensures t in rest
    {
      AtThread(s, t, true);
    }
    DistinctCount(s.core.ready, rest);
    assert c != s.core.idle ==> c in s.core.threads.Keys;
    assert |s.core.threads.Keys| == |s.core.threads|;
  }
}

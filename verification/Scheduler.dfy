/** threads/thread.c and devices/timer.c: the scheduler and the alarm clock.

    Interrupts are off whenever the scheduler's lists change, so each step below is one such region: what a system
    call or the timer interrupt does from disabling interrupts until enabling them or switching threads. */
module Scheduler {
  import opened Basics
  import opened Arithmetic
  import opened FixedPoint
  import opened Queue

  type Sem = int

  datatype Mode = PriorityMode | Mlfqs

  datatype Status = Running | ReadyToRun | Blocked

  /** The list a thread's list element is in, if any. A thread is nascent from init_thread() until thread_create()
      unblocks it. */
  datatype Place = OnCpu | InReadyList | InSleepList | Waits(sem: Sem) | Nascent

  /** What a switch changes. `threads` is the list of all threads except the idle thread, with the place of each as
      history. */
  datatype Core = Core(threads: map<Tid, Place>, status: map<Tid, Status>, current: Tid, idle: Tid, ready: seq<Tid>,
                       slice: int)

  /** The sleep list, each thread's wake_up_time, and the tick count. */
  datatype Alarm = Alarm(sleepers: seq<Tid>, wake: map<Tid, int>, ticks: int)

  /** Each thread's priority, nice and recent_cpu, and load_avg. */
  datatype Books = Books(prio: map<Tid, int>, nice: map<Tid, int>, cpu: map<Tid, int>, load: int)

  /** The formulas of the multilevel feedback queue: a new load_avg from the old one and the number of runnable
      threads; a new recent_cpu from load_avg, the old one and nice; a priority from recent_cpu and nice. */
  datatype Rules = Rules(loadAvg: (int, int) -> int, decay: (int, int, int) -> int, priority: (int, int) -> int)

  function NewLoad(rules: Rules, load: int, ready: int): int {
    rules.loadAvg(load, ready)
  }

  function NewCpu(rules: Rules, load: int, cpu: int, nice: int): int {
    rules.decay(load, cpu, nice)
  }

  function NewPriority(rules: Rules, cpu: int, nice: int): int {
    rules.priority(cpu, nice)
  }

  datatype Config = Config(mode: Mode, aging: bool, rules: Rules)

  /** The scheduler; `waiters` holds the waiters list of each semaphore. */
  datatype State = State(core: Core, waiters: map<Sem, seq<Tid>>, alarm: Alarm, books: Books, config: Config)

  const PRI_DEFAULT: nat := 31
  const TIME_SLICE: nat := 4
  const TIMER_FREQ: nat := 100

  /** calculate_recent_cpu(); the processor would trap on a zero divisor, which no bounded run meets. */
  function DecayCpu(load: Int32, cpu: Int32, nice: Int32): Int32 {
    if Operate(AddInt, Operate(MulInt, load, 2, 0), 1, 0) == 0 then cpu else RecentCpu(load, cpu, nice)
  }

  /** The kernel's own formulas, on its 32-bit numbers. */
  function KernelRules(): Rules {
    Rules((load, ready) => LoadAvg(Wrap32(load), Wrap32(ready)),
          (load, cpu, nice) => DecayCpu(Wrap32(load), Wrap32(cpu), Wrap32(nice)),
          (cpu, nice) => Priority(Wrap32(cpu), Wrap32(nice)))
  }

  // ---- Switching -----------------------------------------------------------------------------

  function Move(c: Core, t: Tid, place: Place, status: Status): Core {
    c.(threads := if t == c.idle then c.threads else c.threads[t := place], status := c.status[t := status])
  }

  /** schedule(): the front of the ready list runs next, or the idle thread if there is none. */
  function Switch(c: Core): Core {
    if c.ready == [] then Move(c.(current := c.idle, slice := 0), c.idle, OnCpu, Running)
    else Move(c.(ready := c.ready[1..], current := c.ready[0], slice := 0), c.ready[0], OnCpu, Running)
  }

  function Enqueue(c: Core, t: Tid, prio: map<Tid, int>): Core {
    Move(c.(ready := if t == c.idle then c.ready else Insert(c.ready, t, prio, false)), t, InReadyList, ReadyToRun)
  }

  function Schedule(s: State): State {
    s.(core := Switch(s.core))
  }

  /** thread_unblock(). */
  function Unblock(s: State, t: Tid): State {
    s.(core := Enqueue(s.core, t, s.books.prio))
  }

  /** thread_yield(). */
  function Yield(s: State): State {
    s.(core := Switch(Enqueue(s.core, s.core.current, s.books.prio)))
  }

  /** test_max_priority(). */
  function YieldToHigher(s: State): State {
    if s.core.ready != [] && KeyOf(s.books.prio, s.core.current) < KeyOf(s.books.prio, s.core.ready[0])
    then Yield(s)
    else s
  }

  // ---- The timer interrupt -------------------------------------------------------------------

  function PopSleeper(s: State): State
    requires s.alarm.sleepers != []
  {
    s.(alarm := s.alarm.(sleepers := s.alarm.sleepers[1..]))
  }

  /** thread_awake(): unblock every sleeper at the front of the list whose time has come. */
  function Awake(s: State): State
    decreases |s.alarm.sleepers|
  {
    if s.alarm.sleepers != [] && KeyOf(s.alarm.wake, s.alarm.sleepers[0]) <= s.alarm.ticks then
      Awake(Unblock(PopSleeper(s), s.alarm.sleepers[0]))
    else s
  }

  /** thread_aging(). */
  function Aged(prio: map<Tid, int>, ready: seq<Tid>): map<Tid, int> {
    map t | t in prio :: if t in ready && prio[t] < PRI_MAX then prio[t] + 1 else prio[t]
  }

  function Age(s: State): State {
    s.(books := s.books.(prio := Aged(s.books.prio, s.core.ready)))
  }

  function NiceOf(b: Books, t: Tid): int {
    if t in b.nice then b.nice[t] else 0
  }

  function CpuOf(b: Books, t: Tid): int {
    if t in b.cpu then b.cpu[t] else 0
  }

  function RunnableThreads(c: Core): int {
    |c.ready| + if c.current != c.idle then 1 else 0
  }

  /** update_recent_cpu(), every tick. */
  function CountTick(b: Books, c: Core): Books {
    if c.current == c.idle then b else b.(cpu := b.cpu[c.current := Wrap32(CpuOf(b, c.current) + F)])
  }

  /** thread_foreach(calculate_recent_cpu). */
  function Decayed(b: Books, c: Core, rules: Rules): map<Tid, int> {
    map t | t in c.threads :: NewCpu(rules, b.load, CpuOf(b, t), NiceOf(b, t))
  }

  /** update_load_avg_and_recent_cpu(), every second. */
  function EverySecond(b: Books, c: Core, rules: Rules): Books {
    var b1 := b.(load := NewLoad(rules, b.load, RunnableThreads(c)));
    b1.(cpu := Decayed(b1, c, rules))
  }

  /** The books after thread_tick() up to the priorities. */
  function UpdateCpu(s: State): Books {
    var b := CountTick(s.books, s.core);
    if s.alarm.ticks % TIMER_FREQ == 0 then EverySecond(b, s.core, s.config.rules) else b
  }

  /** thread_foreach(calculate_priority). */
  function NewPriorities(b: Books, c: Core, rules: Rules): map<Tid, int> {
    map t | t in b.prio :: if t in c.threads then NewPriority(rules, CpuOf(b, t), NiceOf(b, t)) else b.prio[t]
  }

  /** New priorities with the ready list sorted by them. */
  function Resort(s: State, prio: map<Tid, int>): State {
    s.(books := s.books.(prio := prio), core := s.core.(ready := SortQueue(s.core.ready, prio)))
  }

  /** thread_tick() in the multilevel feedback queue mode. */
  function MlfqsTick(s: State): State {
    var s1 := s.(books := UpdateCpu(s));
    if s.alarm.ticks % TIME_SLICE == 0 then Resort(s1, NewPriorities(s1.books, s.core, s.config.rules)) else s1
  }

  function Stamp(s: State): State {
    s.(alarm := s.alarm.(ticks := s.alarm.ticks + 1), core := s.core.(slice := s.core.slice + 1))
  }

  /** timer_interrupt() up to aging. */
  function Account(s: State): State {
    if s.config.mode.Mlfqs? then MlfqsTick(Stamp(s)) else Stamp(s)
  }

  /** Whether thread_tick() asks for a yield on return from the interrupt. */
  predicate Preempts(s: State) {
    || s.core.slice >= TIME_SLICE
    || (s.config.mode.Mlfqs? && s.alarm.ticks % TIME_SLICE == 0 && s.core.ready != []
        && KeyOf(s.books.prio, s.core.ready[0]) > KeyOf(s.books.prio, s.core.current))
  }

  /** The rest of timer_interrupt(). */
  function WakeUp(s: State): State {
    Awake(if s.config.aging then Age(s) else s)
  }

  /** timer_interrupt(), and the yield on return from it. */
  function Tick(s: State): State {
    var s1 := Account(s);
    if Preempts(s1) then Yield(WakeUp(s1)) else WakeUp(s1)
  }

  // ---- System calls --------------------------------------------------------------------------

  /** init_thread(). */
  function NewThread(s: State, t: Tid, priority: int): State {
    var b, mlfqs := s.books, s.config.mode.Mlfqs?;
    var nice := if mlfqs then NiceOf(b, s.core.current) else 0;
    var cpu := if mlfqs then CpuOf(b, s.core.current) else 0;
    var p := if mlfqs then NewPriority(s.config.rules, cpu, nice) else priority;
    s.(core := Move(s.core, t, Nascent, Blocked),
       books := b.(prio := b.prio[t := p], nice := b.nice[t := nice], cpu := b.cpu[t := cpu]))
  }

  /** sema_down() on a semaphore whose value is zero, up to schedule(). */
  function JoinWaiters(s: State, q: Sem): State
    requires q in s.waiters
  {
    s.(waiters := s.waiters[q := Insert(s.waiters[q], s.core.current, s.books.prio, false)],
       core := Move(s.core, s.core.current, Waits(q), Blocked))
  }

  function PopWaiter(s: State, q: Sem): State
    requires q in s.waiters && s.waiters[q] != []
  {
    s.(waiters := s.waiters[q := s.waiters[q][1..]])
  }

  /** thread_sleep() up to schedule(). */
  function JoinSleepers(s: State, w: int): State {
    var wake := s.alarm.wake[s.core.current := w];
    s.(alarm := s.alarm.(wake := wake, sleepers := Insert(s.alarm.sleepers, s.core.current, wake, true)),
       core := Move(s.core, s.core.current, InSleepList, Blocked))
  }

  /** The wake-up time timer_sleep() passes on: a 64-bit sum cut to 32 bits. */
  function WakeTime(start: int, n: int): Int32 {
    Wrap32(start + n)
  }

  function WithPriority(s: State, priority: int): State {
    s.(books := s.books.(prio := s.books.prio[s.core.current := priority]))
  }

  /** thread_set_nice() up to the check for preemption. */
  function Renice(s: State, n: int): State {
    var b, cur := s.books.(nice := s.books.nice[s.core.current := n]), s.core.current;
    Resort(s.(books := b),
           if cur == s.core.idle then b.prio else b.prio[cur := NewPriority(s.config.rules, CpuOf(b, cur), n)])
  }

  /** thread_exit() up to schedule(). */
  function Leave(s: State): State {
    s.(core := s.core.(threads := s.core.threads - {s.core.current}, status := s.core.status - {s.core.current}))
  }

  /** The idle thread's thread_block() up to schedule(). */
  function IdleBlocks(s: State): State {
    s.(core := Move(s.core, s.core.idle, OnCpu, Blocked))
  }

  // ---- Steps and runs ------------------------------------------------------------------------

  datatype Step =
    | Create(t: Tid, priority: int)   // thread_create(), init_thread()
    | Launch(t: Tid)                  // thread_create(), thread_unblock()
    | YieldCpu                        // thread_yield(), also at the end of thread_create()
    | TestMaxPriority                 // test_max_priority()
    | SemaWait(q: Sem)                // sema_down() on a semaphore whose value is zero
    | SemaUp(q: Sem)                  // sema_up()
    | TimerSleep(start: int, n: int)  // timer_sleep(n), with the clock read earlier as `start`
    | TimerTick                       // timer_interrupt()
    | SetPriority(priority: int)      // thread_set_priority()
    | SetNice(nice: int)              // thread_set_nice()
    | Exit                            // thread_exit()
    | SetMode(mlfqs: bool)            // thread_set_scheduling_mode()
    | IdleBlock                       // thread_block() of the idle thread

  /** One step; a step that is not possible changes nothing. */
  function Next(s: State, step: Step): State {
    match step
    case Create(t, priority) =>
      if t in s.core.threads || t == s.core.idle || !(PRI_MIN <= priority <= PRI_MAX) then s
      else NewThread(s, t, priority)
    case Launch(t) => if t in s.core.threads && s.core.threads[t].Nascent? then Unblock(s, t) else s
    case TestMaxPriority => YieldToHigher(s)
    case YieldCpu => Yield(s)
    case SemaWait(q) => if s.core.current == s.core.idle || q !in s.waiters then s else Schedule(JoinWaiters(s, q))
    case SemaUp(q) =>
      if q !in s.waiters then s
      else if s.waiters[q] == [] then YieldToHigher(s)
      else YieldToHigher(Unblock(PopWaiter(s, q), s.waiters[q][0]))
    case TimerSleep(start, n) =>
      if n <= 0 || WakeTime(start, n) <= 0 || s.core.current == s.core.idle || !(0 <= start <= s.alarm.ticks) then s
      else Schedule(JoinSleepers(s, WakeTime(start, n)))
    case TimerTick => Tick(s)
    case SetPriority(priority) =>
      if s.config.mode.Mlfqs? then s
      else if priority < KeyOf(s.books.prio, s.core.current) then YieldToHigher(WithPriority(s, priority))
      else WithPriority(s, priority)
    case SetNice(n) => YieldToHigher(Renice(s, n))
    case Exit => if s.core.current == s.core.idle then s else Schedule(Leave(s))
    case SetMode(mlfqs) => s.(config := s.config.(mode := if mlfqs then Mlfqs else PriorityMode))
    case IdleBlock => if s.core.current == s.core.idle then Schedule(IdleBlocks(s)) else s
  }

  function Run(s: State, steps: seq<Step>): State
    decreases |steps|
  {
    if steps == [] then s else Run(Next(s, steps[0]), steps[1..])
  }

  /** After thread_start(): the initial thread runs, and the idle thread has blocked. In the multilevel feedback queue
      mode, which the command line sets before, init_thread() gave both the priority that it calculates. */
  function Start(main: Tid, idle: Tid, sems: set<Sem>, mode: Mode, aging: bool): State {
    State(Core(map[main := OnCpu], map[main := Running, idle := Blocked], main, idle, [], 0),
          map q | q in sems :: [], Alarm([], map[], 0),
          Books(if mode.Mlfqs? then map[main := PRI_MAX, idle := PRI_MAX]
                else map[main := PRI_DEFAULT, idle := PRI_MIN],
                map[main := 0], map[main := 0], 0),
          Config(mode, aging, KernelRules()))
  }

  // ---- Placement -----------------------------------------------------------------------------

  function StatusAt(p: Place): Status {
    match p
    case OnCpu => Running
    case InReadyList => ReadyToRun
    case _ => Blocked
  }

  /** Thread `t` is in the list that its place names and in no other, and its status says the same. While a switch is
      under way (`on` is false) no thread is running. */
  ghost predicate Placed(c: Core, sleepers: seq<Tid>, waiters: map<Sem, seq<Tid>>, t: Tid, on: bool) {
    if t in c.threads then
      && t in c.status && c.status[t] == StatusAt(c.threads[t])
      && (t in c.ready <==> c.threads[t].InReadyList?)
      && (t in sleepers <==> c.threads[t].InSleepList?)
      && (forall q :: q in waiters ==> (t in waiters[q] <==> c.threads[t] == Waits(q)))
      && (c.threads[t].Waits? ==> c.threads[t].sem in waiters)
      && (c.threads[t].OnCpu? <==> on && t == c.current)
    else
      && t !in c.ready && t !in sleepers
      && (forall q :: q in waiters ==> t !in waiters[q])
      && (on && t == c.current ==> t == c.idle)
  }

  ghost predicate AllPlaced(c: Core, sleepers: seq<Tid>, waiters: map<Sem, seq<Tid>>, on: bool) {
    forall t {:trigger Look(t)} :: Placed(c, sleepers, waiters, t, on)
  }

  ghost predicate WaitersNoDup(waiters: map<Sem, seq<Tid>>) {
    forall q {:trigger Look(q)} :: q in waiters ==> NoDup(waiters[q])
  }

  ghost predicate QueueOk(q: seq<Tid>, key: map<Tid, int>, ascending: bool) {
    NoDup(q) && Ordered(q, key, ascending)
  }

  ghost predicate Kept(s: State, on: bool) {
    && s.core.idle !in s.core.threads && s.core.threads.Keys <= s.books.prio.Keys
    && QueueOk(s.core.ready, s.books.prio, false)
    && QueueOk(s.alarm.sleepers, s.alarm.wake, true)
    && WaitersNoDup(s.waiters)
    && AllPlaced(s.core, s.alarm.sleepers, s.waiters, on)
  }

  ghost predicate Inv(s: State) {
    Kept(s, true)
  }

  /** Thread `u` is in the same lists before and after. */
  ghost predicate SameLists(s: State, s': State, u: Tid) {
    && (u in s'.core.ready <==> u in s.core.ready) && (u in s'.alarm.sleepers <==> u in s.alarm.sleepers)
    && s'.waiters.Keys == s.waiters.Keys
    && (forall q :: q in s.waiters ==> (u in s'.waiters[q] <==> u in s.waiters[q]))
  }

  lemma AtThread(s: State, t: Tid, on: bool)
    requires AllPlaced(s.core, s.alarm.sleepers, s.waiters, on)
    ensures Placed(s.core, s.alarm.sleepers, s.waiters, t, on)
  {
    assert Look(t);
  }

  /** A step that moves only thread `t` from list to list keeps every thread placed. */
  lemma Relocated(s: State, s': State, t: Tid, p: Place, on: bool, on': bool)
    requires AllPlaced(s.core, s.alarm.sleepers, s.waiters, on)
    requires t != s.core.idle && s.core.idle !in s.core.threads && s'.core.idle == s.core.idle
    requires s'.core.threads == s.core.threads[t := p] && s'.core.status == s.core.status[t := StatusAt(p)]
    requires forall u {:trigger Look(u)} :: u != t ==> SameLists(s, s', u)
    requires forall u {:trigger Look(u)} :: u != t ==>
               (on && u == s.core.current <==> on' && u == s'.core.current) || u == s.core.idle
    requires (t in s'.core.ready <==> p.InReadyList?) && (t in s'.alarm.sleepers <==> p.InSleepList?)
    requires p.OnCpu? <==> on' && t == s'.core.current
    requires forall q :: q in s'.waiters ==> (t in s'.waiters[q] <==> p == Waits(q))
    requires p.Waits? ==> p.sem in s'.waiters
    ensures AllPlaced(s'.core, s'.alarm.sleepers, s'.waiters, on')
  {
    forall u
      ensures Placed(s'.core, s'.alarm.sleepers, s'.waiters, u, on')
    {
      assert Look(u);
      if u != t {
        assert SameLists(s, s', u) && Placed(s.core, s.alarm.sleepers, s.waiters, u, on);
      }
    }
  }

  /** A step that moves only the idle thread, which is in no list. */
  lemma IdleMoved(s: State, s': State, on: bool, on': bool)
    requires AllPlaced(s.core, s.alarm.sleepers, s.waiters, on)
    requires s.core.idle !in s.core.threads && s'.core.idle == s.core.idle && s'.core.threads == s.core.threads
    requires s.core.idle in s'.core.status
    requires s'.core.status == s.core.status[s.core.idle := s'.core.status[s.core.idle]]
    requires s'.core.ready == s.core.ready && s'.alarm.sleepers == s.alarm.sleepers && s'.waiters == s.waiters
    requires forall u {:trigger Look(u)} :: u != s.core.idle ==>
               (on && u == s.core.current <==> on' && u == s'.core.current)
    ensures AllPlaced(s'.core, s'.alarm.sleepers, s'.waiters, on')
  {
    forall u
      ensures Placed(s'.core, s'.alarm.sleepers, s'.waiters, u, on')
    {
      assert Look(u);
      assert Placed(s.core, s.alarm.sleepers, s.waiters, u, on);
    }
  }

  // ---- Switching keeps it --------------------------------------------------------------------

  lemma ScheduleKeeps(s: State)
    requires Kept(s, false)
    ensures Kept(Schedule(s), true)
  {
    var s' := Schedule(s);
    if s.core.ready == [] {
      IdleMoved(s, s', false, true);
    } else {
      var t := s.core.ready[0];
      assert t in s.core.ready;
      AtThread(s, t, false);
      Tail(s.core.ready, s.books.prio, false);
      forall u | u != t
        ensures SameLists(s, s', u)
      {
        assert u in s'.core.ready <==> u in s.core.ready;
      }
      Relocated(s, s', t, OnCpu, false, true);
    }
  }

  /** A thread that leaves the processor, or one that leaves a list of blocked threads, enters the ready list. `s1` is
      `s` with the thread taken off the list it was in. */
  lemma UnblockKeeps(s: State, s1: State, t: Tid, on: bool)
    requires Kept(s, true) && t in s.core.threads && !s.core.threads[t].InReadyList? && on == (t != s.core.current)
    requires s1.core == s.core && s1.books == s.books && s1.waiters.Keys == s.waiters.Keys
    requires t !in s1.alarm.sleepers && forall q :: q in s1.waiters ==> t !in s1.waiters[q]
    requires forall u {:trigger Look(u)} :: u != t ==> SameLists(s, s1, u)
    requires QueueOk(s1.alarm.sleepers, s1.alarm.wake, true) && WaitersNoDup(s1.waiters)
    ensures Kept(Unblock(s1, t), on)
  {
    var s' := Unblock(s1, t);
    AtThread(s, t, true);
    InsertMembers(s.core.ready, t, s.books.prio, false);
    InsertKeepsOrdered(s.core.ready, t, s.books.prio, false);
    forall u | u != t
      ensures SameLists(s, s', u)
    {
      assert Look(u);
    }
    Relocated(s, s', t, InReadyList, true, on);
  }

  lemma YieldKeeps(s: State)
    requires Inv(s)
    ensures Inv(Yield(s))
  {
    var t := s.core.current;
    var m := Unblock(s, t);
    AtThread(s, t, true);
    if t == s.core.idle {
      IdleMoved(s, m, true, false);
    } else {
      forall u | u != t
        ensures SameLists(s, s, u)
      {
      }
      UnblockKeeps(s, s, t, false);
    }
    ScheduleKeeps(m);
  }

  lemma YieldToHigherKeeps(s: State)
    requires Inv(s)
    ensures Inv(YieldToHigher(s))
  {
    YieldKeeps(s);
  }

  // ---- The timer interrupt keeps it ----------------------------------------------------------

  lemma WakeFirstKeeps(s: State)
    requires Inv(s) && s.alarm.sleepers != []
    ensures Inv(Unblock(PopSleeper(s), s.alarm.sleepers[0]))
  {
    var t := s.alarm.sleepers[0];
    var s1 := PopSleeper(s);
    assert t in s.alarm.sleepers;
    AtThread(s, t, true);
    Tail(s.alarm.sleepers, s.alarm.wake, true);
    forall u | u != t
      ensures SameLists(s, s1, u)
    {
      assert u in s1.alarm.sleepers <==> u in s.alarm.sleepers;
    }
    UnblockKeeps(s, s1, t, true);
  }

  lemma {:induction false} AwakeKeeps(s: State)
    requires Inv(s)
    ensures Inv(Awake(s))
    decreases |s.alarm.sleepers|
  {
    if s.alarm.sleepers != [] && KeyOf(s.alarm.wake, s.alarm.sleepers[0]) <= s.alarm.ticks {
      WakeFirstKeeps(s);
      AwakeKeeps(Unblock(PopSleeper(s), s.alarm.sleepers[0]));
    }
  }

  /** Aging raises priorities without reordering them. */
  lemma AgedOrder(q: seq<Tid>, prio: map<Tid, int>)
    requires Ordered(q, prio, false) && forall t :: t in q ==> t in prio
    ensures Ordered(q, Aged(prio, q), false)
  {
    forall i | 0 <= i < |q|
      ensures KeyOf(Aged(prio, q), q[i]) == (var p := KeyOf(prio, q[i]); if p < PRI_MAX then p + 1 else p)
    {
      assert q[i] in q;
    }
  }

  lemma AgeKeeps(s: State)
    requires Inv(s)
    ensures Inv(Age(s))
  {
    forall t | t in s.core.ready
      ensures t in s.books.prio
    {
      AtThread(s, t, true);
    }
    AgedOrder(s.core.ready, s.books.prio);
  }

  /** Sorting the ready list by new priorities. */
  lemma ResortKeeps(s: State, prio: map<Tid, int>)
    requires Inv(s) && s.core.threads.Keys <= prio.Keys
    ensures Inv(Resort(s, prio))
  {
    var s' := Resort(s, prio);
    SortOrders(s.core.ready, prio);
    SortMembers(s.core.ready, prio);
    forall u
      ensures Placed(s'.core, s'.alarm.sleepers, s'.waiters, u, true)
    {
      assert Look(u);
      assert Placed(s.core, s.alarm.sleepers, s.waiters, u, true);
      assert u in s'.core.ready <==> u in s.core.ready;
    }
  }

  /** Other books with the same priorities. */
  lemma BooksKeep(s: State, b: Books)
    requires Inv(s) && b.prio == s.books.prio
    ensures Inv(s.(books := b))
  {
  }

  lemma MlfqsTickKeeps(s: State)
    requires Inv(s)
    ensures Inv(MlfqsTick(s))
  {
    var s1 := s.(books := UpdateCpu(s));
    BooksKeep(s, UpdateCpu(s));
    ResortKeeps(s1, NewPriorities(s1.books, s.core, s.config.rules));
  }

  lemma StampKeeps(s: State)
    requires Inv(s)
    ensures Inv(Stamp(s))
  {
    var s' := Stamp(s);
    forall u
      ensures Placed(s'.core, s'.alarm.sleepers, s'.waiters, u, true)
    {
      assert Look(u);
      assert Placed(s.core, s.alarm.sleepers, s.waiters, u, true);
    }
  }

  lemma AccountKeeps(s: State)
    requires Inv(s)
    ensures Inv(Account(s))
  {
    StampKeeps(s);
    MlfqsTickKeeps(Stamp(s));
  }

  lemma WakeUpKeeps(s: State)
    requires Inv(s)
    ensures Inv(WakeUp(s))
  {
    AgeKeeps(s);
    AwakeKeeps(if s.config.aging then Age(s) else s);
  }

  lemma TickKeeps(s: State)
    requires Inv(s)
    ensures Inv(Tick(s))
  {
    AccountKeeps(s);
    WakeUpKeeps(Account(s));
    YieldKeeps(WakeUp(Account(s)));
  }

  // ---- The system calls keep it --------------------------------------------------------------

  lemma CreateKeeps(s: State, t: Tid, priority: int)
    requires Inv(s) && t !in s.core.threads && t != s.core.idle
    ensures Inv(NewThread(s, t, priority))
  {
    var s' := NewThread(s, t, priority);
    AtThread(s, t, true);
    forall u | u != t
      ensures SameLists(s, s', u)
    {
    }
    Relocated(s, s', t, Nascent, true, true);
    OrderedLocal(s.core.ready, s.books.prio, s'.books.prio, false);
  }

  lemma LaunchKeeps(s: State, t: Tid)
    requires Inv(s) && t in s.core.threads && s.core.threads[t].Nascent?
    ensures Inv(Unblock(s, t))
  {
    AtThread(s, t, true);
    forall u | u != t
      ensures SameLists(s, s, u)
    {
    }
    UnblockKeeps(s, s, t, true);
  }

  lemma JoinWaitersKeeps(s: State, q: Sem)
    requires Inv(s) && s.core.current != s.core.idle && q in s.waiters
    ensures Kept(JoinWaiters(s, q), false)
  {
    var s', t := JoinWaiters(s, q), s.core.current;
    AtThread(s, t, true);
    assert Look(q);
    InsertMembers(s.waiters[q], t, s.books.prio, false);
    forall u | u != t
      ensures SameLists(s, s', u)
    {
      assert u in s'.waiters[q] <==> u in s.waiters[q];
    }
    Relocated(s, s', t, Waits(q), true, false);
    forall r | r in s'.waiters
      ensures NoDup(s'.waiters[r])
    {
      assert Look(r);
    }
  }

  lemma PopWaiterKeeps(s: State, q: Sem)
    requires Inv(s) && q in s.waiters && s.waiters[q] != []
    ensures Inv(Unblock(PopWaiter(s, q), s.waiters[q][0]))
  {
    var t := s.waiters[q][0];
    var s1 := PopWaiter(s, q);
    assert t in s.waiters[q];
    AtThread(s, t, true);
    assert Look(q);
    TailMembers(s.waiters[q]);
    forall u | u != t
      ensures SameLists(s, s1, u)
    {
      assert u in s1.waiters[q] <==> u in s.waiters[q];
    }
    forall r | r in s1.waiters
      ensures NoDup(s1.waiters[r])
    {
      assert Look(r);
    }
    UnblockKeeps(s, s1, t, true);
  }

  lemma TailMembers(q: seq<Tid>)
    requires NoDup(q) && q != []
    ensures NoDup(q[1..]) && forall u :: u in q[1..] <==> u in q && u != q[0]
  {
    assert q == [q[0]] + q[1..];
  }

  lemma JoinSleepersKeeps(s: State, w: int)
    requires Inv(s) && s.core.current != s.core.idle
    ensures Kept(JoinSleepers(s, w), false)
  {
    var s', t := JoinSleepers(s, w), s.core.current;
    AtThread(s, t, true);
    OrderedLocal(s.alarm.sleepers, s.alarm.wake, s'.alarm.wake, true);
    InsertMembers(s.alarm.sleepers, t, s'.alarm.wake, true);
    InsertKeepsOrdered(s.alarm.sleepers, t, s'.alarm.wake, true);
    forall u | u != t
      ensures SameLists(s, s', u)
    {
      assert u in s'.alarm.sleepers <==> u in s.alarm.sleepers;
    }
    Relocated(s, s', t, InSleepList, true, false);
  }

  lemma LeaveKeeps(s: State)
    requires Inv(s) && s.core.current != s.core.idle
    ensures Kept(Leave(s), false)
  {
    var s' := Leave(s);
    forall u
      ensures Placed(s'.core, s'.alarm.sleepers, s'.waiters, u, false)
    {
      assert Look(u);
      assert Placed(s.core, s.alarm.sleepers, s.waiters, u, true);
    }
  }

  lemma WithPriorityKeeps(s: State, priority: int)
    requires Inv(s)
    ensures Inv(WithPriority(s, priority))
  {
    AtThread(s, s.core.current, true);
    OrderedLocal(s.core.ready, s.books.prio, s.books.prio[s.core.current := priority], false);
  }

  lemma ReniceKeeps(s: State, n: int)
    requires Inv(s)
    ensures Inv(Renice(s, n))
  {
    var b, cur := s.books.(nice := s.books.nice[s.core.current := n]), s.core.current;
    BooksKeep(s, b);
    ResortKeeps(s.(books := b),
                if cur == s.core.idle then b.prio else b.prio[cur := NewPriority(s.config.rules, CpuOf(b, cur), n)]);
  }

  lemma NextKeepsInv(s: State, step: Step)
    requires Inv(s)
    ensures Inv(Next(s, step))
  {
    match step
    case Create(t, priority) =>
      if !(t in s.core.threads || t == s.core.idle) { CreateKeeps(s, t, priority); }
    case Launch(t) =>
      if t in s.core.threads && s.core.threads[t].Nascent? { LaunchKeeps(s, t); }
    case TestMaxPriority => YieldToHigherKeeps(s);
    case YieldCpu => YieldKeeps(s);
    case SemaWait(q) =>
      if s.core.current != s.core.idle && q in s.waiters {
        JoinWaitersKeeps(s, q);
        ScheduleKeeps(JoinWaiters(s, q));
      }
    case SemaUp(q) =>
      if q in s.waiters {
        YieldToHigherKeeps(s);
        if s.waiters[q] != [] {
          PopWaiterKeeps(s, q);
          YieldToHigherKeeps(Unblock(PopWaiter(s, q), s.waiters[q][0]));
        }
      }
    case TimerSleep(start, n) =>
      if s.core.current != s.core.idle {
        JoinSleepersKeeps(s, WakeTime(start, n));
        ScheduleKeeps(JoinSleepers(s, WakeTime(start, n)));
      }
    case TimerTick => TickKeeps(s);
    case SetPriority(priority) =>
      WithPriorityKeeps(s, priority);
      YieldToHigherKeeps(WithPriority(s, priority));
    case SetNice(n) =>
      ReniceKeeps(s, n);
      YieldToHigherKeeps(Renice(s, n));
    case Exit =>
      if s.core.current != s.core.idle {
        LeaveKeeps(s);
        ScheduleKeeps(Leave(s));
      }
    case SetMode(mlfqs) =>
    case IdleBlock =>
      if s.core.current == s.core.idle {
        IdleMoved(s, IdleBlocks(s), true, false);
        ScheduleKeeps(IdleBlocks(s));
      }
  }

  // ---- Every run -----------------------------------------------------------------------------

  lemma StartInv(main: Tid, idle: Tid, sems: set<Sem>, mode: Mode, aging: bool)
    requires main != idle
    ensures Inv(Start(main, idle, sems, mode, aging))
  {
    var s := Start(main, idle, sems, mode, aging);
    assert forall t :: Placed(s.core, s.alarm.sleepers, s.waiters, t, true);
  }

  /** The priority that init_thread() calculates for a thread that has used no time and is not nice. */
  lemma FirstPriority(rules: Rules)
    requires rules == KernelRules()
    ensures NewPriority(rules, 0, 0) == PRI_MAX
  {
    PriorityIs(0, 0);
  }

  lemma {:induction false} RunKeepsInv(s: State, steps: seq<Step>)
    requires Inv(s)
    ensures Inv(Run(s, steps))
    decreases |steps|
  {
    if steps != [] {
      NextKeepsInv(s, steps[0]);
      RunKeepsInv(Next(s, steps[0]), steps[1..]);
    }
  }

  /** A state that some run from the start leads to. */
  ghost predicate Reachable(s: State) {
    exists main, idle, sems, mode, aging, steps ::
      main != idle && s == Run(Start(main, idle, sems, mode, aging), steps)
  }

  lemma ReachableInv(s: State)
    requires Reachable(s)
    ensures Inv(s)
  {
    var main, idle, sems, mode, aging, steps :|
      main != idle && s == Run(Start(main, idle, sems, mode, aging), steps);
    StartInv(main, idle, sems, mode, aging);
    RunKeepsInv(Start(main, idle, sems, mode, aging), steps);
  }

  /** Every thread is in exactly one place: on the processor, or in the ready list, or in the sleep list, or among
      the waiters of one semaphore, or not yet launched; its status agrees, and no list holds a thread twice. */
  lemma EveryThreadInOnePlace(s: State, t: Tid)
    requires Reachable(s) && t in s.core.threads
    ensures t in s.core.status && s.core.status[t] == StatusAt(s.core.threads[t])
    ensures t == s.core.current <==> s.core.threads[t] == OnCpu
    ensures t in s.core.ready <==> s.core.threads[t] == InReadyList
    ensures t in s.alarm.sleepers <==> s.core.threads[t] == InSleepList
    ensures forall q :: q in s.waiters ==> (t in s.waiters[q] <==> s.core.threads[t] == Waits(q))
    ensures NoDup(s.core.ready) && NoDup(s.alarm.sleepers)
    ensures forall q :: q in s.waiters ==> NoDup(s.waiters[q])
  {
    ReachableInv(s);
    AtThread(s, t, true);
    forall q | q in s.waiters
      ensures NoDup(s.waiters[q])
    {
      assert Look(q);
    }
  }

  /** The ready list is in order of priority, so the thread that schedule() takes has the highest priority of all
      threads ready to run. */
  lemma NextToRunIsHighest(s: State, t: Tid)
    requires Reachable(s) && t in s.core.threads && s.core.threads[t] == InReadyList
    ensures s.core.ready != [] && KeyOf(s.books.prio, t) <= KeyOf(s.books.prio, s.core.ready[0])
    ensures Schedule(s).core.current == s.core.ready[0]
  {
    ReachableInv(s);
    AtThread(s, t, true);
    FrontIsFirst(s.core.ready, s.books.prio, false);
  }
}

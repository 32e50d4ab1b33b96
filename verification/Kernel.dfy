/** threads/thread.c and devices/timer.c: the scheduler's functions as they update the kernel's lists and thread
    fields in place, each shown to make the step of module Scheduler. */
module Kernel {
  import opened Basics
  import opened Arithmetic
  import opened FixedPoint
  import opened Queue
  import opened Scheduler

  /** One more step of thread_aging(). */
  lemma AgedOneMore(prio: map<Tid, int>, q: seq<Tid>, i: nat, r: map<Tid, int>)
    requires i < |q| && NoDup(q) && r == Aged(prio, q[..i])
    ensures Aged(prio, q[..i + 1]) == if q[i] in r && r[q[i]] < PRI_MAX then r[q[i] := r[q[i]] + 1] else r
  {
    assert q[..i + 1] == q[..i] + [q[i]] && q[i] !in q[..i];
  }

  /** The loop of thread_aging(). */
  method RaiseAll(prio: map<Tid, int>, q: seq<Tid>) returns (r: map<Tid, int>)
    requires NoDup(q)
    ensures r == Aged(prio, q)
  {
    r := prio;
    assert r == Aged(prio, q[..0]);
    var i := 0;
    while i < |q|
      invariant i <= |q| && r == Aged(prio, q[..i])
    {
      AgedOneMore(prio, q, i, r);
      if q[i] in r && r[q[i]] < PRI_MAX {
        r := r[q[i] := r[q[i]] + 1];
      }
      i := i + 1;
    }
    assert q[..i] == q;
  }

  /** thread_foreach() with calculate_recent_cpu(); the order in which it visits the threads does not matter. */
  method DecayAll(b: Books, c: Core, rules: Rules) returns (cpu: map<Tid, int>)
    ensures cpu == Decayed(b, c, rules)
  {
    var todo := c.threads.Keys;
    cpu := map[];
    while todo != {}
      invariant todo <= c.threads.Keys && cpu.Keys == c.threads.Keys - todo
      invariant forall t :: t in cpu ==> cpu[t] == NewCpu(rules, b.load, CpuOf(b, t), NiceOf(b, t))
      decreases |todo|
    {
      ghost var some := AnyMember(todo);
      var t: Tid :| t in todo;
      cpu := cpu[t := NewCpu(rules, b.load, CpuOf(b, t), NiceOf(b, t))];
      todo := todo - {t};
    }
  }

  /** thread_foreach() with calculate_priority(). */
  method RecalculatePriorities(b: Books, c: Core, rules: Rules) returns (prio: map<Tid, int>)
    ensures prio == NewPriorities(b, c, rules)
  {
    var todo := c.threads.Keys;
    prio := b.prio;
    while todo != {}
      invariant todo <= c.threads.Keys && prio.Keys == b.prio.Keys
      invariant forall t :: t in prio ==>
        prio[t] == if t in c.threads && t !in todo then NewPriority(rules, CpuOf(b, t), NiceOf(b, t)) else b.prio[t]
      decreases |todo|
    {
      ghost var some := AnyMember(todo);
      var t: Tid :| t in todo;
      if t in prio {
        prio := prio[t := NewPriority(rules, CpuOf(b, t), NiceOf(b, t))];
      }
      todo := todo - {t};
    }
    assert prio.Keys == NewPriorities(b, c, rules).Keys;
    assert forall t :: t in prio ==> prio[t] == NewPriorities(b, c, rules)[t];
  }

  class Kernel {
    var core: Core
    var waiters: map<Sem, seq<Tid>>
    var alarm: Alarm
    var books: Books
    var config: Config

    /** The whole state. */
    ghost function Abs(): State
      reads this
    {
      State(core, waiters, alarm, books, config)
    }

    constructor (main: Tid, idle: Tid, sems: set<Sem>, mode: Mode, aging: bool)
      requires main != idle
      ensures Abs() == Start(main, idle, sems, mode, aging) && Inv(Abs())
    {
      var s := Start(main, idle, sems, mode, aging);
      core, waiters, alarm, books, config := s.core, s.waiters, s.alarm, s.books, s.config;
      StartInv(main, idle, sems, mode, aging);
    }

    method SetStatus(t: Tid, place: Place, status: Status)
      modifies `core
      ensures core == Move(old(core), t, place, status)
    {
      core := core.(status := core.status[t := status]);
      if t != core.idle {
        core := core.(threads := core.threads[t := place]);
      }
    }

    /** next_thread_to_run() and schedule(). */
    method Schedule()
      modifies `core
      ensures core == Switch(old(core))
    {
      var next := core.idle;
      if core.ready != [] {
        next := core.ready[0];
        core := core.(ready := core.ready[1..]);
      }
      core := core.(current := next, slice := 0);
      SetStatus(next, OnCpu, Running);
    }

    /** thread_unblock(), and the first half of thread_yield(). */
    method Unblock(t: Tid)
      modifies `core
      ensures core == Enqueue(old(core), t, books.prio)
    {
      if t != core.idle {
        var q := InsertOrdered(core.ready, t, books.prio, false);
        core := core.(ready := q);
      }
      SetStatus(t, InReadyList, ReadyToRun);
    }

    method Yield()
      modifies `core
      ensures Abs() == Scheduler.Yield(old(Abs()))
    {
      Unblock(core.current);
      Schedule();
    }

    method TestMaxPriority()
      modifies `core
      ensures Abs() == YieldToHigher(old(Abs()))
    {
      if core.ready != [] && KeyOf(books.prio, core.current) < KeyOf(books.prio, core.ready[0]) {
        Yield();
      }
    }

    /** thread_awake(). */
    method Awake()
      modifies `core, `alarm
      ensures Abs() == Scheduler.Awake(old(Abs()))
    {
      while alarm.sleepers != [] && KeyOf(alarm.wake, alarm.sleepers[0]) <= alarm.ticks
        invariant Scheduler.Awake(Abs()) == Scheduler.Awake(old(Abs()))
        decreases |alarm.sleepers|
      {
        var t := alarm.sleepers[0];
        alarm := alarm.(sleepers := alarm.sleepers[1..]);
        Unblock(t);
      }
    }

    /** thread_aging(): the ready list holds no thread twice, so each is raised once. */
    method Aging()
      requires NoDup(core.ready)
      modifies `books
      ensures Abs() == Age(old(Abs()))
    {
      var prio := RaiseAll(books.prio, core.ready);
      books := books.(prio := prio);
    }

    /** update_recent_cpu() and update_load_avg_and_recent_cpu(). */
    method UpdateAccounts()
      modifies `books
      ensures books == UpdateCpu(old(Abs()))
    {
      if core.current != core.idle {
        books := books.(cpu := books.cpu[core.current := Wrap32(CpuOf(books, core.current) + F)]);
      }
      if alarm.ticks % TIMER_FREQ == 0 {
        books := books.(load := NewLoad(config.rules, books.load, RunnableThreads(core)));
        var cpu := DecayAll(books, core, config.rules);
        books := books.(cpu := cpu);
      }
    }

    /** The part of thread_tick() for the multilevel feedback queue. */
    method UpdateMlfqs()
      modifies `books, `core
      ensures Abs() == MlfqsTick(old(Abs()))
    {
      UpdateAccounts();
      if alarm.ticks % TIME_SLICE == 0 {
        var prio := RecalculatePriorities(books, core, config.rules);
        books := books.(prio := prio);
        core := core.(ready := SortQueue(core.ready, books.prio));
      }
    }

    /** thread_tick(): whether to yield on return from the interrupt. */
    method ThreadTick() returns (yieldOnReturn: bool)
      modifies `books, `core, `alarm
      ensures Abs() == Account(old(Abs())) && yieldOnReturn == Preempts(Abs())
    {
      alarm := alarm.(ticks := alarm.ticks + 1);
      core := core.(slice := core.slice + 1);
      if config.mode.Mlfqs? {
        UpdateMlfqs();
      }
      yieldOnReturn := core.slice >= TIME_SLICE;
      if config.mode.Mlfqs? && alarm.ticks % TIME_SLICE == 0 && core.ready != []
         && KeyOf(books.prio, core.ready[0]) > KeyOf(books.prio, core.current) {
        yieldOnReturn := true;
      }
    }

    method AgeAndAwake()
      requires NoDup(core.ready)
      modifies `books, `core, `alarm
      ensures Abs() == WakeUp(old(Abs()))
    {
      if config.aging {
        Aging();
      }
      Awake();
    }

    /** timer_interrupt(), and the yield on return from it. */
    method TimerInterrupt()
      requires Inv(Abs())
      modifies this
      ensures Abs() == Tick(old(Abs())) && Inv(Abs())
    {
      ghost var s := Abs();
      var yieldOnReturn := ThreadTick();
      AccountKeeps(s);
      AgeAndAwake();
      if yieldOnReturn {
        Yield();
      }
      TickKeeps(s);
    }

    /** timer_sleep() from the clock's reading on, and thread_sleep(). */
    method TimerSleep(start: int, n: int)
      requires Inv(Abs()) && core.current != core.idle && 0 <= start <= alarm.ticks
      modifies `core, `alarm
      ensures Abs() == Next(old(Abs()), Step.TimerSleep(start, n)) && Inv(Abs())
    {
      NextKeepsInv(Abs(), Step.TimerSleep(start, n));
      if n <= 0 {
        return;
      }
      var w := WakeTime(start, n);
      if w <= 0 {
        return;
      }
      var cur := core.current;
      alarm := alarm.(wake := alarm.wake[cur := w]);
      var q := InsertOrdered(alarm.sleepers, cur, alarm.wake, true);
      alarm := alarm.(sleepers := q);
      SetStatus(cur, InSleepList, Blocked);
      Schedule();
    }

    /** The body of the loop of sema_down(), on a semaphore whose value is zero. */
    method SemaBlock(q: Sem)
      requires Inv(Abs()) && core.current != core.idle && q in waiters
      modifies `core, `waiters
      ensures Abs() == Next(old(Abs()), SemaWait(q)) && Inv(Abs())
    {
      NextKeepsInv(Abs(), SemaWait(q));
      var cur := core.current;
      var w := InsertOrdered(waiters[q], cur, books.prio, false);
      waiters := waiters[q := w];
      SetStatus(cur, Waits(q), Blocked);
      Schedule();
    }

    /** sema_up(), but for the value: the first waiter is unblocked, and runs at once if its priority is higher. */
    method SemaWake(q: Sem)
      requires Inv(Abs()) && q in waiters
      modifies `core, `waiters
      ensures Abs() == Next(old(Abs()), Step.SemaUp(q)) && Inv(Abs())
    {
      NextKeepsInv(Abs(), Step.SemaUp(q));
      if waiters[q] != [] {
        var t := waiters[q][0];
        waiters := waiters[q := waiters[q][1..]];
        Unblock(t);
      }
      TestMaxPriority();
    }
  }
}

/** devices/timer.c and threads/thread.c: what timer_sleep() promises, over every run of the scheduler. */
module AlarmClock {
  import opened FixedPoint
  import opened Queue
  import opened Scheduler

  // ---- The timer interrupt -------------------------------------------------------------------

  lemma {:induction false} AwakeWakesExactly(s: State, t: Tid)
    requires Inv(s)
    ensures Awake(s).alarm.wake == s.alarm.wake && Awake(s).alarm.ticks == s.alarm.ticks
    ensures t in Awake(s).alarm.sleepers <==> t in s.alarm.sleepers && KeyOf(s.alarm.wake, t) > s.alarm.ticks
    decreases |s.alarm.sleepers|
  {
    if s.alarm.sleepers != [] {
      FrontIsFirst(s.alarm.sleepers, s.alarm.wake, true);
      if KeyOf(s.alarm.wake, s.alarm.sleepers[0]) <= s.alarm.ticks {
        WakeFirstKeeps(s);
        Tail(s.alarm.sleepers, s.alarm.wake, true);
        AwakeWakesExactly(Unblock(PopSleeper(s), s.alarm.sleepers[0]), t);
      }
    }
  }

  lemma WakeUpAlarm(s: State, t: Tid)
    requires Inv(s)
    ensures WakeUp(s).alarm.wake == s.alarm.wake && WakeUp(s).alarm.ticks == s.alarm.ticks
    ensures t in WakeUp(s).alarm.sleepers <==> t in s.alarm.sleepers && KeyOf(s.alarm.wake, t) > s.alarm.ticks
  {
    AgeKeeps(s);
    AwakeWakesExactly(if s.config.aging then Age(s) else s, t);
  }

  /** After each timer interrupt, the threads asleep are exactly those that were and whose time has not come: no
      thread sleeps past its time and none is woken early. */
  lemma TickWakesExactly(s: State, t: Tid)
    requires Inv(s)
    ensures Tick(s).alarm.ticks == s.alarm.ticks + 1 && Tick(s).alarm.wake == s.alarm.wake
    ensures t in Tick(s).alarm.sleepers <==> t in s.alarm.sleepers && KeyOf(s.alarm.wake, t) > s.alarm.ticks + 1
  {
    AccountKeeps(s);
    assert Account(s).alarm == Stamp(s).alarm;
    WakeUpAlarm(Account(s), t);
  }

  // ---- The other steps -----------------------------------------------------------------------

  lemma YieldToHigherAlarm(s: State)
    ensures YieldToHigher(s).alarm == s.alarm
  {
  }

  lemma OtherStepsAlarm(s: State, step: Step)
    requires !step.TimerTick? && !step.TimerSleep?
    ensures Next(s, step).alarm == s.alarm
  {
    match step
    case SemaUp(q) =>
      if q in s.waiters && s.waiters[q] != [] {
        YieldToHigherAlarm(Unblock(PopWaiter(s, q), s.waiters[q][0]));
      }
      YieldToHigherAlarm(s);
    case SetPriority(priority) => YieldToHigherAlarm(WithPriority(s, priority));
    case SetNice(n) => YieldToHigherAlarm(Renice(s, n));
    case TestMaxPriority => YieldToHigherAlarm(s);
    case _ =>
  }

  lemma SleepAlarm(s: State, start: int, n: int, t: Tid)
    requires Inv(s) && t in s.alarm.sleepers
    ensures var a := Next(s, TimerSleep(start, n)).alarm;
            t in a.sleepers && KeyOf(a.wake, t) == KeyOf(s.alarm.wake, t) && a.ticks == s.alarm.ticks
  {
    AtThread(s, t, true);
    AtThread(s, s.core.current, true);
    InsertMember(s.alarm.sleepers, s.core.current, s.alarm.wake[s.core.current := WakeTime(start, n) as int], true, t);
  }

  /** Nothing but the timer interrupt wakes a sleeper or moves its time. */
  lemma OnlyTicksWake(s: State, step: Step, t: Tid)
    requires Inv(s) && t in s.alarm.sleepers && !step.TimerTick?
    ensures t in Next(s, step).alarm.sleepers && KeyOf(Next(s, step).alarm.wake, t) == KeyOf(s.alarm.wake, t)
  {
    if step.TimerSleep? {
      SleepAlarm(s, step.start, step.n, t);
    } else {
      OtherStepsAlarm(s, step);
    }
  }

  // ---- Every run -----------------------------------------------------------------------------

  lemma StepTime(s: State, step: Step)
    requires Inv(s)
    ensures Next(s, step).alarm.ticks == s.alarm.ticks + if step.TimerTick? then 1 else 0
  {
    if step.TimerTick? {
      TickWakesExactly(s, 0);
    } else if !step.TimerSleep? {
      OtherStepsAlarm(s, step);
    }
  }

  /** The time never goes back. */
  lemma {:induction false} TimeGoesOn(s: State, steps: seq<Step>)
    requires Inv(s)
    ensures Run(s, steps).alarm.ticks >= s.alarm.ticks
    decreases |steps|
  {
    if steps != [] {
      NextKeepsInv(s, steps[0]);
      StepTime(s, steps[0]);
      TimeGoesOn(Next(s, steps[0]), steps[1..]);
    }
  }

  lemma StepWakeTime(s: State, step: Step, t: Tid)
    requires Inv(s) && t in s.alarm.sleepers && (step.TimerTick? ==> s.alarm.ticks + 1 < KeyOf(s.alarm.wake, t))
    ensures t in Next(s, step).alarm.sleepers && KeyOf(Next(s, step).alarm.wake, t) == KeyOf(s.alarm.wake, t)
  {
    if step.TimerTick? {
      TickWakesExactly(s, t);
    } else {
      OnlyTicksWake(s, step, t);
    }
  }

  /** A sleeping thread stays asleep, whatever happens, until its tick comes. */
  lemma {:induction false} SleepsUntil(s: State, steps: seq<Step>, t: Tid)
    requires Inv(s) && t in s.alarm.sleepers && Run(s, steps).alarm.ticks < KeyOf(s.alarm.wake, t)
    ensures t in Run(s, steps).alarm.sleepers
    decreases |steps|
  {
    if steps != [] {
      var s' := Next(s, steps[0]);
      NextKeepsInv(s, steps[0]);
      TimeGoesOn(s', steps[1..]);
      StepTime(s, steps[0]);
      StepWakeTime(s, steps[0], t);
      SleepsUntil(s', steps[1..], t);
    }
  }

  /** The wake-up time that timer_sleep() computes is not before `start + n` exactly when that fits in 32 bits. */
  lemma WakeTimeFits(start: int, n: int)
    requires 0 <= start && n > 0
    ensures WakeTime(start, n) >= start + n <==> start + n <= INT32_MAX
    ensures start + n <= INT32_MAX ==> WakeTime(start, n) == start + n
  {
  }

  lemma FallsAsleep(s: State, start: int, n: int)
    requires Inv(s) && s.core.current != s.core.idle && 0 <= start <= s.alarm.ticks && n > 0 && start + n <= INT32_MAX
    ensures var a := Next(s, TimerSleep(start, n)).alarm;
            s.core.current in a.sleepers && KeyOf(a.wake, s.core.current) == start + n
  {
    WakeTimeFits(start, n);
    InsertMember(s.alarm.sleepers, s.core.current, s.alarm.wake[s.core.current := start + n], true, s.core.current);
  }

  /** timer_sleep(n) keeps its promise on every run: the thread sleeps until tick `start + n`, also when the clock
      moved on between its reading the clock and its going to sleep. */
  lemma TimerSleepKeepsPromise(s: State, start: int, n: int, s': State, steps: seq<Step>)
    requires Reachable(s) && s.core.current != s.core.idle && 0 <= start <= s.alarm.ticks && n > 0
    requires start + n <= INT32_MAX
    requires s' == Next(s, TimerSleep(start, n)) && Run(s', steps).alarm.ticks < start + n
    ensures s.core.current in Run(s', steps).alarm.sleepers
  {
    ReachableInv(s);
    FallsAsleep(s, start, n);
    NextKeepsInv(s, TimerSleep(start, n));
    SleepsUntil(s', steps, s.core.current);
  }

  /** The tick whose interrupt is to wake the sleeping thread `t`. */
  function WakeTick(a: Alarm, t: Tid): int {
    if KeyOf(a.wake, t) > a.ticks then KeyOf(a.wake, t) else a.ticks + 1
  }

  lemma StepWakesOnTime(s: State, step: Step, t: Tid, a: Alarm)
    requires Inv(s) && t in s.alarm.sleepers && a == Next(s, step).alarm
    ensures a.ticks <= WakeTick(s.alarm, t)
    ensures if a.ticks == WakeTick(s.alarm, t) then t !in a.sleepers
            else t in a.sleepers && WakeTick(a, t) == WakeTick(s.alarm, t)
  {
    StepTime(s, step);
    if step.TimerTick? {
      TickWakesExactly(s, t);
    } else {
      OnlyTicksWake(s, step, t);
    }
  }

  /** A sleeping thread is taken off the sleep list, whatever happens, by the interrupt of its tick, or by the next
      interrupt if it fell asleep when its tick had already passed. */
  lemma {:induction false} WakesOnTime(s: State, steps: seq<Step>, t: Tid, tick: int) returns (k: nat)
    requires Inv(s) && t in s.alarm.sleepers && tick == WakeTick(s.alarm, t) <= Run(s, steps).alarm.ticks
    ensures k <= |steps| && Run(s, steps[..k]).alarm.ticks == tick && t !in Run(s, steps[..k]).alarm.sleepers
    decreases |steps|, 1
  {
    NextKeepsInv(s, steps[0]);
    k := WakesLater(Next(s, steps[0]), s, steps, t, tick);
    RunStep(s, steps, k);
    k := k + 1;
  }

  lemma {:induction false} WakesLater(s': State, s: State, steps: seq<Step>, t: Tid, tick: int) returns (k: nat)
    requires Inv(s) && t in s.alarm.sleepers && tick == WakeTick(s.alarm, t) && steps != []
    requires s' == Next(s, steps[0]) && Inv(s') && Run(s', steps[1..]).alarm.ticks >= tick
    ensures k < |steps| && Run(s', steps[1..][..k]).alarm.ticks == tick && t !in Run(s', steps[1..][..k]).alarm.sleepers
    decreases |steps|, 0
  {
    StepWakesOnTime(s, steps[0], t, s'.alarm);
    if s'.alarm.ticks == tick {
      k := 0;
    } else {
      k := WakesOnTime(s', steps[1..], t, tick);
    }
  }

  lemma RunStep(s: State, steps: seq<Step>, k: nat)
    requires k < |steps|
    ensures Run(s, steps[..k + 1]) == Run(Next(s, steps[0]), steps[1..][..k])
  {
    assert steps[..k + 1][1..] == steps[1..][..k];
  }

  // ---- When the promise fails ----------------------------------------------------------------

  /** `k` timer interrupts. */
  function Ticks(k: nat): seq<Step> {
    seq(k, i => TimerTick)
  }

  lemma {:induction false} TicksPass(s: State, k: nat)
    requires Inv(s)
    ensures Run(s, Ticks(k)).alarm.ticks == s.alarm.ticks + k
    decreases k
  {
    if k > 0 {
      NextKeepsInv(s, TimerTick);
      StepTime(s, TimerTick);
      assert Ticks(k)[1..] == Ticks(k - 1);
      TicksPass(Next(s, TimerTick), k - 1);
    }
  }

  /** A thread that `n` ticks from `start` on take past what 32 bits hold is awake too early on some run: it does not
      fall asleep at all, or its time comes before that tick. */
  lemma WakesEarly(s: State, start: int, n: int, s': State) returns (steps: seq<Step>)
    requires Inv(s) && s.core.current != s.core.idle && 0 <= start <= s.alarm.ticks && n > 0 && start + n > INT32_MAX
    requires s' == Next(s, TimerSleep(start, n)) && s.alarm.ticks + 1 < start + n
    ensures Run(s', steps).alarm.ticks < start + n && s.core.current !in Run(s', steps).alarm.sleepers
  {
    var t, w := s.core.current, WakeTime(start, n);
    if w <= 0 {
      steps := [];
      AtThread(s, t, true);
    } else {
      NextKeepsInv(s, TimerSleep(start, n));
      InsertMember(s.alarm.sleepers, t, s.alarm.wake[t := w as int], true, t);
      assert t in s'.alarm.sleepers && KeyOf(s'.alarm.wake, t) == w < start + n;
      var tick := WakeTick(s'.alarm, t);
      TicksPass(s', tick - s'.alarm.ticks);
      var k := WakesOnTime(s', Ticks(tick - s'.alarm.ticks), t, tick);
      steps := Ticks(tick - s'.alarm.ticks)[..k];
    }
  }

  /** Unless its last tick is already upon it, the thread sleeps until tick `start + n` on every run exactly if that
      fits in 32 bits. */
  lemma PromiseKeptExactly(s: State, start: int, n: int, s': State)
    requires Reachable(s) && s.core.current != s.core.idle && 0 <= start <= s.alarm.ticks && n > 0
    requires s' == Next(s, TimerSleep(start, n)) && s.alarm.ticks + 1 < start + n
    ensures (forall steps :: Run(s', steps).alarm.ticks < start + n ==> s.core.current in Run(s', steps).alarm.sleepers)
            <==> start + n <= INT32_MAX
  {
    if start + n <= INT32_MAX {
      forall steps | Run(s', steps).alarm.ticks < start + n
        ensures s.core.current in Run(s', steps).alarm.sleepers
      {
        TimerSleepKeepsPromise(s, start, n, s', steps);
      }
    } else {
      ReachableInv(s);
      var steps := WakesEarly(s, start, n, s');
    }
  }
}

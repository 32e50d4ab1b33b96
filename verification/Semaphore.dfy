/** threads/synch.c: semaphores. Interrupts are off inside each operation, so what a thread does between two
    switches is one step: sema_down() up to the test that lets it through or puts it to sleep, the same test
    again each time it is woken, sema_try_down(), and sema_up(). */
module Semaphore {
  import opened Basics
  import opened Queue

  datatype Sema = Sema(value: nat, waiters: seq<Tid>)

  /** The loop test of sema_down(): take a unit, or else join the waiters. */
  function Test(s: Sema, t: Tid, prio: map<Tid, int>): Sema {
    if s.value > 0 then s.(value := s.value - 1)
    else s.(waiters := Insert(s.waiters, t, prio, false))
  }

  /** sema_up(): wake the first waiter, if any, and add a unit. */
  function Up(s: Sema): Sema {
    Sema(s.value + 1, if s.waiters == [] then [] else s.waiters[1..])
  }

  /** The semaphore in memory. */
  class KernelSemaphore {
    var value: nat
    var waiters: seq<Tid>

    function Contents(): Sema
      reads this
    {
      Sema(value, waiters)
    }

    constructor (initial: nat)
      ensures Contents() == Sema(initial, [])
    {
      value, waiters := initial, [];
    }

    /** sema_down() from one test of its loop condition up to leaving the loop or blocking. */
    method DownAttempt(t: Tid, prio: map<Tid, int>) returns (taken: bool)
      modifies this
      ensures Contents() == Test(old(Contents()), t, prio) && taken == (old(value) > 0)
    {
      taken := value != 0;
      if value == 0 {
        waiters := InsertOrdered(waiters, t, prio, false);
      } else {
        value := value - 1;
      }
    }

    method TryDown() returns (success: bool)
      modifies this
      ensures success == (old(value) > 0) && waiters == old(waiters)
      ensures value == if success then old(value) - 1 else 0
    {
      success := value > 0;
      if success {
        value := value - 1;
      }
    }

    /** The thread returned is the one to unblock. */
    method SemaUp() returns (woken: set<Tid>)
      modifies this
      ensures Contents() == Up(old(Contents()))
      ensures woken == if old(waiters) == [] then {} else {old(waiters)[0]}
    {
      woken := {};
      if waiters != [] {
        woken := {waiters[0]};
        waiters := waiters[1..];
      }
      value := value + 1;
    }
  }

  /** What a thread is doing with the semaphore: nothing, asleep among its waiters, or woken by sema_up() and
      not yet back at the test. */
  datatype Phase = Outside | Waiting | Woken

  /** A semaphore and its threads, with the history that the guarantees speak of: the initial value, the number
      of ups, and the number of downs that went through. */
  datatype State = State(sema: Sema, phase: map<Tid, Phase>, prio: map<Tid, int>, initial: nat, ups: nat, downs: nat)

  datatype Step =
    | Down(t: Tid)                       // sema_down() starts
    | Resume(t: Tid)                     // a woken thread is scheduled and tests again
    | TryDown                            // sema_try_down(), from a thread or an interrupt handler
    | Post                               // sema_up()
    | SetPriority(t: Tid, priority: int) // the scheduler changes a thread's priority

  function Start(threads: set<Tid>, value: nat): State {
    State(Sema(value, []), map t | t in threads :: Outside, map[], value, 0, 0)
  }

  /** Thread `t` is at the test. */
  function AtTest(s: State, t: Tid): State
    requires t in s.phase
  {
    s.(sema := Test(s.sema, t, s.prio),
       phase := s.phase[t := if s.sema.value > 0 then Outside else Waiting],
       downs := s.downs + if s.sema.value > 0 then 1 else 0)
  }

  /** One step; a step that the thread is not in a position to take changes nothing. */
  function Next(s: State, step: Step): State {
    match step
    case Down(t) =>
      if t in s.phase && s.phase[t].Outside? then AtTest(s, t) else s
    case Resume(t) =>
      if t in s.phase && s.phase[t].Woken? then AtTest(s, t) else s
    case TryDown =>
      if s.sema.value > 0 then s.(sema := s.sema.(value := s.sema.value - 1), downs := s.downs + 1) else s
    case Post =>
      s.(sema := Up(s.sema), ups := s.ups + 1,
         phase := if s.sema.waiters == [] then s.phase else s.phase[s.sema.waiters[0] := Woken])
    case SetPriority(t, p) =>
      s.(prio := s.prio[t := p])
  }

  function Run(s: State, steps: seq<Step>): State
    decreases |steps|
  {
    if steps == [] then s else Run(Next(s, steps[0]), steps[1..])
  }

  ghost function InPhase(s: State, p: Phase): set<Tid> {
    set t | t in s.phase && s.phase[t] == p
  }

  /** The waiters list and the phases say the same. */
  ghost predicate WaitersMatch(s: State) {
    && NoDup(s.sema.waiters)
    && (forall t :: t in s.sema.waiters <==> t in s.phase && s.phase[t].Waiting?)
  }

  /** Units are conserved, and while threads wait there are at least as many woken threads on their way to the
      test as there are units to take: no wake-up is lost. */
  ghost predicate Inv(s: State) {
    && WaitersMatch(s)
    && s.sema.value == s.initial + s.ups - s.downs
    && (s.sema.waiters != [] ==> s.sema.value <= |InPhase(s, Woken)|)
  }

  lemma AtTestKeepsInv(s: State, t: Tid)
    requires Inv(s) && t in s.phase && !s.phase[t].Waiting?
    ensures Inv(AtTest(s, t))
  {
    var s' := AtTest(s, t);
    assert InPhase(s', Woken) == InPhase(s, Woken) - {t};
    if s.sema.value == 0 {
      InsertMembers(s.sema.waiters, t, s.prio, false);
    } else {
      assert s.phase[t].Outside? ==> t !in InPhase(s, Woken);
    }
  }

  lemma PostKeepsInv(s: State)
    requires Inv(s)
    ensures Inv(Next(s, Post))
  {
    var s' := Next(s, Post);
    if s.sema.waiters != [] {
      var w := s.sema.waiters[0];
      assert w in s.sema.waiters;
      assert InPhase(s', Woken) == InPhase(s, Woken) + {w};
      assert s.sema.waiters == [w] + s.sema.waiters[1..];
    }
  }

  lemma NextKeepsInv(s: State, step: Step)
    requires Inv(s)
    ensures Inv(Next(s, step))
  {
    match step
    case Down(t) =>
      if t in s.phase && s.phase[t].Outside? {
        AtTestKeepsInv(s, t);
      }
    case Resume(t) =>
      if t in s.phase && s.phase[t].Woken? {
        AtTestKeepsInv(s, t);
      }
    case TryDown =>
      assert InPhase(Next(s, step), Woken) == InPhase(s, Woken);
    case Post =>
      PostKeepsInv(s);
    case SetPriority(t, p) =>
      assert InPhase(Next(s, step), Woken) == InPhase(s, Woken);
  }

  lemma {:induction false} RunKeepsInv(s: State, steps: seq<Step>)
    requires Inv(s)
    ensures Inv(Run(s, steps))
    decreases |steps|
  {
    if steps != [] {
      NextKeepsInv(s, steps[0]);
      RunKeepsInv(Next(s, steps[0]), steps[1..]);
    }
  }

  /** Semaphore safety, over every interleaving. */
  lemma SemaphoreSafety(threads: set<Tid>, value: nat, steps: seq<Step>)
    ensures var s := Run(Start(threads, value), steps);
            && s.sema.value == s.initial + s.ups - s.downs
            && (s.sema.waiters != [] ==> s.sema.value <= |InPhase(s, Woken)|)
  {
    var s := Start(threads, value);
    RunKeepsInv(s, steps);
  }

  /** While there is a unit to take and a thread waits for one, some woken thread takes it as soon as it runs. */
  lemma NoLostWakeUp(threads: set<Tid>, value: nat, steps: seq<Step>) returns (t: Tid)
    requires Run(Start(threads, value), steps).sema.value > 0
    requires Run(Start(threads, value), steps).sema.waiters != []
    ensures var s := Run(Start(threads, value), steps);
            && t in s.phase && s.phase[t].Woken?
            && Next(s, Resume(t)).phase[t].Outside? && Next(s, Resume(t)).downs == s.downs + 1
  {
    SemaphoreSafety(threads, value, steps);
    var s := Run(Start(threads, value), steps);
    t := AnyMember(InPhase(s, Woken));
  }

  // ---- What each call does -------------------------------------------------------------------

  /** sema_down(), when it starts and each time the thread is woken: it takes a unit and goes on, or joins the waiters
      behind threads of at least its priority and ahead of one of a lower. */
  lemma DownTakesOrWaits(s: State, step: Step, t: Tid) returns (k: nat)
    requires t in s.phase
    requires (step == Down(t) && s.phase[t].Outside?) || (step == Resume(t) && s.phase[t].Woken?)
    ensures var s', q := Next(s, step), s.sema.waiters;
            && s'.ups == s.ups && s'.prio == s.prio
            && (s.sema.value > 0 ==>
                  && s'.sema == Sema(s.sema.value - 1, q) && s'.phase == s.phase[t := Outside]
                  && s'.downs == s.downs + 1)
            && (s.sema.value == 0 ==>
                  && s'.sema.value == 0 && QueuedAt(q, s'.sema.waiters, t, s.prio, k)
                  && s'.phase == s.phase[t := Waiting] && s'.downs == s.downs)
  {
    k := InsertPlace(s.sema.waiters, t, s.prio, false);
  }

  /** sema_up(): one more unit, and the first waiter, if any, is off the list and awake. */
  lemma UpWakesFirst(s: State)
    ensures var s', q := Next(s, Post), s.sema.waiters;
            && s'.sema.value == s.sema.value + 1 && s'.ups == s.ups + 1 && s'.downs == s.downs
            && (q == [] ==> s'.sema.waiters == [] && s'.phase == s.phase)
            && (q != [] ==> [q[0]] + s'.sema.waiters == q && s'.phase == s.phase[q[0] := Woken])
  {
  }

  /** sema_try_down(): a unit is taken exactly if there is one, and no thread moves. */
  lemma TryDownTakesOrFails(s: State)
    ensures var s' := Next(s, TryDown);
            && s'.sema.waiters == s.sema.waiters && s'.phase == s.phase && s'.ups == s.ups
            && (if s.sema.value > 0 then s'.sema.value == s.sema.value - 1 && s'.downs == s.downs + 1 else s' == s)
  {
  }

  /** A change of priority, which moves no thread. */
  lemma PriorityChanges(s: State, t: Tid, p: int)
    ensures var s' := Next(s, SetPriority(t, p)); KeyOf(s'.prio, t) == p && s' == s.(prio := s'.prio)
    ensures forall u :: u != t ==> KeyOf(Next(s, SetPriority(t, p)).prio, u) == KeyOf(s.prio, u)
  {
  }

  /** A run of one more step. */
  lemma {:induction false} RunEnds(s: State, steps: seq<Step>, step: Step)
    ensures Run(s, steps + [step]) == Next(Run(s, steps), step)
    decreases |steps|
  {
    if steps == [] {
      assert Run(Next(s, step), []) == Next(s, step);
    } else {
      RunEnds(Next(s, steps[0]), steps[1..], step);
      assert (steps + [step])[1..] == steps[1..] + [step];
    }
  }
}

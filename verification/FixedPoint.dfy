/** threads/thread.c: 17.14 fixed-point arithmetic in 32-bit integers, and the formulas of the multilevel feedback
    queue scheduler that use it: load_avg, recent_cpu and priority. */
module FixedPoint {
  import opened Arithmetic

  const F: int := 16384           // 1 in 17.14 format
  const PRI_MIN: int := 0
  const PRI_MAX: int := 63
  const INT32_MIN: int := -0x8000_0000
  const INT32_MAX: int := 0x7FFF_FFFF

  datatype Op = Add | Sub | MulInt | DivInt | Mul | Div | AddInt | SubInt | IntPart | Round | Const

  /** fixed_point_operation(). Right shifts round down, division rounds toward zero, and results wrap. */
  function Operate(op: Op, a: Int32, b: Int32, c: Int32): Int32
    requires op.DivInt? ==> b != 0
    requires op.Div? ==> c != 0
  {
    match op
    case Add => Wrap32(a + c)
    case Sub => Wrap32(a - c)
    case MulInt => Wrap32(a * b)
    case DivInt => Wrap32(TruncDiv(a, b))
    case Mul => Wrap32(a * c / F)
    case Div => Wrap32(TruncDiv(a * F, c))
    case AddInt => Wrap32(a + Wrap32(b * F))
    case SubInt => Wrap32(a - Wrap32(b * F))
    case IntPart => a / F
    case Round => if a >= 0 then Wrap32(a + F / 2) / F else Wrap32(a - F / 2) / F
    case Const => Wrap32(a * F)
  }

  lemma WrapFits(x: int)
    requires -0x8000_0000 <= x <= INT32_MAX
    ensures Wrap32(x) == x
  {
  }

  /** Integer `n` is nearest to `a` / 2^14; halfway between two, both are. */
  predicate Nearest(n: int, a: int) {
    2 * Abs(F * n - a) <= F
  }

  /** FP_ROUND gives a nearest integer to A / 2^14 exactly when A is not negative and has room for the half that is
      added, or when A is negative and halfway between two integers: for other negative numbers it rounds down after
      taking the half off. */
  lemma RoundIsNearest(a: Int32)
    ensures Nearest(Operate(Round, a, 0, 0), a) <==> 0 <= a <= INT32_MAX - F / 2 || (a < 0 && a % F == F / 2)
  {
    if 0 <= a <= INT32_MAX - F / 2 {
      WrapFits(a + F / 2);
    } else if INT32_MIN + F / 2 <= a < 0 {
      WrapFits(a - F / 2);
    }
  }

  // ---- load_avg ------------------------------------------------------------------------------

  /** calculate_load_avg(): 59/60 of the old value and 1/60 of the number of runnable threads. */
  function LoadAvg(load: Int32, readyThreads: Int32): Int32 {
    var coef1 := Operate(DivInt, Operate(Const, 59, 0, 0), 60, 0);
    var coef2 := Operate(DivInt, Operate(Const, 1, 0, 0), 60, 0);
    Operate(Add, Operate(Mul, coef1, 0, load), 0, Operate(MulInt, coef2, readyThreads, 0))
  }

  /** With at most `r` runnable threads, nothing overflows and the value stays between 0 and `r`. */
  lemma LoadAvgBounds(load: Int32, ready: Int32, r: nat)
    requires 0 <= load <= r * F && 0 <= ready <= r && r * F <= INT32_MAX
    ensures LoadAvg(load, ready) == 16110 * load / F + 273 * ready
    ensures 0 <= LoadAvg(load, ready) <= r * F
  {
    assert Operate(DivInt, Operate(Const, 59, 0, 0), 60, 0) == 16110;
    assert Operate(DivInt, Operate(Const, 1, 0, 0), 60, 0) == 273;
    assert 0 <= 16110 * load / F <= 16110 * r;
    WrapFits(16110 * load / F);
    WrapFits(273 * ready);
    WrapFits(16110 * load / F + 273 * ready);
  }

  /** load_avg after a number of updates, the first element of `readies` being the latest. */
  function LoadAvgAfter(readies: seq<Int32>): Int32 {
    if readies == [] then 0 else LoadAvg(LoadAvgAfter(readies[1..]), readies[0])
  }

  /** The same in exact arithmetic, in units of 2^-14. */
  ghost function ExactLoadAvgAfter(readies: seq<Int32>): real {
    if readies == [] then 0.0
    else ExactLoadAvgAfter(readies[1..]) * 59.0 / 60.0 + readies[0] as real * 16384.0 / 60.0
  }

  lemma LoadAvgErrorStep(exact: real, load: int, ready: int, r: nat)
    requires 0 <= load <= r * F && 0 <= ready <= r
    requires 0.0 <= exact - load as real <= 60.0 * (r + 1) as real
    ensures var exact' := exact * 59.0 / 60.0 + ready as real * 16384.0 / 60.0;
            var load' := 16110 * load / F + 273 * ready;
            0.0 <= exact' - load' as real <= 60.0 * (r + 1) as real
  {
    var q := 16110 * load / F;
    assert q * F <= 16110 * load < q * F + F;
    assert q as real * 16384.0 <= 16110.0 * load as real < q as real * 16384.0 + 16384.0;
  }

  /** However many updates: load_avg stays in range, and never exceeds the exact average nor falls short of it by
      more than 60 (r + 1) units of 2^-14. */
  lemma {:induction false} LoadAvgAccuracy(readies: seq<Int32>, r: nat)
    requires r * F <= INT32_MAX && forall i :: 0 <= i < |readies| ==> 0 <= readies[i] <= r
    ensures 0 <= LoadAvgAfter(readies) <= r * F
    ensures 0.0 <= ExactLoadAvgAfter(readies) - LoadAvgAfter(readies) as real <= 60.0 * (r + 1) as real
  {
    if readies != [] {
      LoadAvgAccuracy(readies[1..], r);
      LoadAvgBounds(LoadAvgAfter(readies[1..]), readies[0], r);
      LoadAvgErrorStep(ExactLoadAvgAfter(readies[1..]), LoadAvgAfter(readies[1..]), readies[0], r);
    }
  }

  /** thread_get_load_avg() and thread_get_recent_cpu(): 100 times the value, rounded. */
  function Hundredfold(x: Int32): Int32 {
    Operate(Round, Operate(MulInt, x, 100, 0), 0, 0)
  }

  lemma RoundInRange(a: Int32)
    ensures INT32_MIN <= F * Operate(Round, a, 0, 0) <= INT32_MAX - F + 1
  {
  }

  /** They return a nearest integer to 100 times the value exactly in these cases: the product is not negative and has
      room for the half; or it is negative, fits in 32 bits and is halfway between two integers; or it is at most one
      half below what fits, where it wraps and, when the half is added, wraps back. */
  lemma HundredfoldIsNearest(x: Int32)
    ensures Nearest(Hundredfold(x), 100 * x) <==>
              || 0 <= 100 * x <= INT32_MAX - F / 2
              || (INT32_MIN <= 100 * x < 0 && 100 * x % F == F / 2)
              || INT32_MIN - F / 2 <= 100 * x < INT32_MIN
  {
    RoundInRange(Wrap32(100 * x));
    if INT32_MIN <= 100 * x <= INT32_MAX {
      WrapFits(100 * x);
      RoundIsNearest(100 * x);
    } else if INT32_MIN - F / 2 <= 100 * x < INT32_MIN {
      assert Wrap32(100 * x) == 100 * x + W;
      assert Wrap32(100 * x + W + F / 2) == 100 * x + F / 2;
    }
  }

  // ---- recent_cpu ----------------------------------------------------------------------------

  /** calculate_recent_cpu(): the old value times 2 load / (2 load + 1), plus nice. */
  function RecentCpu(load: Int32, cpu: Int32, nice: Int32): Int32
    requires Operate(AddInt, Operate(MulInt, load, 2, 0), 1, 0) != 0
  {
    var coef1 := Operate(MulInt, load, 2, 0);
    var coef2 := Operate(AddInt, coef1, 1, 0);
    var coefficient := Operate(Div, coef1, 0, coef2);
    Operate(AddInt, Operate(Mul, coefficient, 0, cpu), nice, 0)
  }

  function CpuMax(r: nat): int {
    F * (240 * r + 20)
  }

  function CpuMin(r: nat): int {
    -(2 * r + 1) * (20 * F + 1)
  }

  /** The decay factor 2 load / (2 load + 1) is at most 2 r / (2 r + 1). */
  lemma DecayFactor(load: int, r: nat, k: int)
    requires 0 <= load <= r * F && k == 2 * load * F / (2 * load + F)
    ensures 0 <= k < F && k * (2 * r + 1) <= 2 * r * F
  {
    var x := 2 * load;
    Bracket(x * F, x + F);
    MulLess(k, F, x + F);
    assert k * (x + F) == k * x + k * F;
    DecayBound(x, r, k);
  }

  lemma DecayBound(x: int, r: nat, k: int)
    requires 0 <= x <= 2 * r * F && 0 <= k < F && k * x + k * F <= x * F
    ensures k * (2 * r + 1) <= 2 * r * F
  {
    assert x * (F - k) == x * F - k * x;
    MulMono(x, 2 * r * F, F - k);
    assert 2 * r * F * (F - k) == (2 * r * (F - k)) * F;
    MulLess(2 * r * (F - k), k, F);
  }

  /** The decayed value, for a factor `k` in units of 2^-14, stays in range with the nice value still to be added. */
  lemma DecayedBounds(k: int, cpu: int, r: nat)
    requires 0 <= k < F && k * (2 * r + 1) <= 2 * r * F
    requires CpuMin(r) <= cpu <= CpuMax(r) + 100 * F
    ensures -2 * r * (20 * F + 1) <= k * cpu / F <= 240 * r * F
  {
    assert k * cpu <= 240 * r * F * F by {
      MulMono(cpu, 120 * (2 * r + 1) * F, k);
      assert 120 * (2 * r + 1) * F * k == (k * (2 * r + 1)) * (120 * F);
      MulMono(k * (2 * r + 1), 2 * r * F, 120 * F);
    }
    assert k * cpu >= -2 * r * (20 * F + 1) * F by {
      MulMono(CpuMin(r), cpu, k);
      assert -CpuMin(r) * k == (k * (2 * r + 1)) * (20 * F + 1);
      MulMono(k * (2 * r + 1), 2 * r * F, 20 * F + 1);
    }
  }

  /** With at most `r` <= 545 runnable threads and nice from -20 to 20, nothing overflows: the new value is the old one
      times 2 load / (2 load + 1), in units of 2^-14 and rounded down, plus nice; and from the range that one second of
      running can reach, an update leads back to the range it started from. */
  lemma RecentCpuBounds(load: Int32, cpu: Int32, nice: Int32, r: nat)
    requires r <= 545 && 0 <= load <= r * F && -20 <= nice <= 20
    requires CpuMin(r) <= cpu <= CpuMax(r) + 100 * F
    ensures Operate(AddInt, Operate(MulInt, load, 2, 0), 1, 0) == 2 * load + F
    ensures RecentCpu(load, cpu, nice) == 2 * load * F / (2 * load + F) * cpu / F + nice * F
    ensures CpuMin(r) <= RecentCpu(load, cpu, nice) <= CpuMax(r)
  {
    WrapFits(2 * load);
    WrapFits(2 * load + F);
    var k := 2 * load * F / (2 * load + F);
    DecayFactor(load, r, k);
    assert Operate(Div, 2 * load, 0, 2 * load + F) == k by {
      assert TruncDiv(2 * load * F, 2 * load + F) == k;
      WrapFits(k);
    }
    DecayedBounds(k, cpu, r);
    WrapFits(k * cpu / F);
    WrapFits(nice * F);
    WrapFits(k * cpu / F + nice * F);
  }

  // ---- priority ------------------------------------------------------------------------------

  /** calculate_priority(): 63 - recent_cpu / 4 - nice * 2, cut to an integer and to the range of priorities. */
  function Priority(cpu: Int32, nice: Int32): int {
    var temp := Operate(Sub, Operate(Const, PRI_MAX, 0, 0), 0, Operate(DivInt, cpu, 4, 0));
    var p := Operate(IntPart, Operate(SubInt, temp, Wrap32(nice * 2), 0), 0, 0);
    if p > PRI_MAX then PRI_MAX else if p < PRI_MIN then PRI_MIN else p
  }

  /** Priorities are in range, and a thread that used no less CPU and is no less nice has no higher priority. */
  lemma PriorityIsMonotone(cpu: Int32, nice: Int32, cpu': Int32, nice': Int32)
    requires cpu <= cpu' && -20 <= nice <= nice' <= 20
    ensures PRI_MIN <= Priority(cpu', nice') <= Priority(cpu, nice) <= PRI_MAX
  {
    PriorityIs(cpu, nice);
    PriorityIs(cpu', nice');
  }

  lemma PriorityIs(cpu: Int32, nice: Int32)
    requires -20 <= nice <= 20
    ensures var p := (63 * F - TruncDiv(cpu, 4) - 2 * nice * F) / F;
            Priority(cpu, nice) == if p > 63 then 63 else if p < 0 then 0 else p
    ensures TruncDiv(cpu, 4) == if cpu >= 0 then cpu / 4 else 0 - (0 - cpu) / 4
  {
    WrapFits(63 * F);
    WrapFits(TruncDiv(cpu, 4));
    WrapFits(63 * F - TruncDiv(cpu, 4));
    WrapFits(nice * 2);
    WrapFits(nice * 2 * F);
    WrapFits(63 * F - TruncDiv(cpu, 4) - nice * 2 * F);
  }
}

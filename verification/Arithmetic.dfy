/** lib/arithmetic.c: 64-bit division built from the x86 DIVL instruction, which divides a 64-bit number by a
    32-bit one and traps unless the quotient fits in 32 bits. */
module Arithmetic {

  const W: nat := 0x1_0000_0000              // 2^32
  const WW: nat := 0x1_0000_0000_0000_0000   // 2^64
  const INT64_MIN: int := -0x8000_0000_0000_0000
  const INT64_MAX: int := 0x7FFF_FFFF_FFFF_FFFF

  type Uint32 = x: int | 0 <= x < 0x1_0000_0000
  type Uint64 = x: int | 0 <= x < 0x1_0000_0000_0000_0000
  type Int32 = x: int | -0x8000_0000 <= x < 0x8000_0000
  type Int64 = x: int | -0x8000_0000_0000_0000 <= x < 0x8000_0000_0000_0000

  function Pow2(n: nat): (p: nat)
    ensures p > 0
  {
    if n == 0 then 1 else 2 * Pow2(n - 1)
  }

  lemma {:induction false} Pow2Add(m: nat, n: nat)
    ensures Pow2(m + n) == Pow2(m) * Pow2(n)
  {
    if m > 0 {
      Pow2Add(m - 1, n);
      assert Pow2(m + n) == 2 * Pow2((m - 1) + n);
    }
  }

  /** Two's complement: `x` as a 64-bit signed number. */
  function Wrap64(x: int): (r: Int64)
    ensures (x - r) % WW == 0
  {
    var u := x % WW;
    if u <= INT64_MAX then u else u - WW
  }

  /** Two's complement: `x` as a 32-bit signed number. */
  function Wrap32(x: int): (r: Int32)
    ensures (x - r) % W == 0
  {
    var u := x % W;
    if u < 0x8000_0000 then u else u - W
  }

  /** Quotient and remainder with the quotient rounded toward zero, as C defines them. */
  function TruncDiv(n: int, d: int): (q: int)
    requires d != 0
  {
    if n >= 0 then n / d else -((-n) / d)
  }

  function TruncMod(n: int, d: int): (r: int)
    requires d != 0
  {
    n - d * TruncDiv(n, d)
  }

  /** The DIVL instruction. */
  method Divl(n: Uint64, d: Uint32) returns (q: Uint32)
    requires d != 0
    requires n / d < W            // otherwise the processor traps with a divide error
    ensures q == n / d
  {
    q := n / d;
  }

  /** `x` shifted left by `n` bits. */
  ghost function Shl(x: nat, n: nat): nat
    decreases n
  {
    if n == 0 then x else Shl(2 * x, n - 1)
  }

  lemma {:induction false} ShlSteps(x: nat, n: nat)
    ensures Shl(x, n + 1) == 2 * Shl(x, n) && Shl(x, n + 2) == 4 * Shl(x, n) && Shl(x, n + 4) == 0x10 * Shl(x, n)
    ensures Shl(x, n + 8) == 0x100 * Shl(x, n) && Shl(x, n + 16) == 0x10000 * Shl(x, n)
    decreases n
  {
    if n > 0 {
      ShlSteps(2 * x, n - 1);
    } else {
      assert Shl(x, 4) == 0x10 * x;
      assert Shl(x, 8) == Shl(0x10 * x, 4) == 0x100 * x;
      assert Shl(x, 12) == Shl(0x10 * x, 8) == Shl(0x100 * x, 4) == 0x1000 * x;
      assert Shl(x, 16) == Shl(0x10 * x, 12) == Shl(0x100 * x, 8) == Shl(0x1000 * x, 4);
    }
  }

  /** A number whose top bit is bit 31 after being shifted left by `n` has `n` leading zero bits. */
  lemma {:induction false} LeadingZeros(x: nat, n: nat)
    requires n <= 31 && 0x8000_0000 <= Shl(x, n) < W
    ensures Pow2(31 - n) <= x < Pow2(32 - n)
    decreases n
  {
    if n > 0 {
      LeadingZeros(2 * x, n - 1);
    } else {
      Pow2Of32();
    }
  }

  lemma Pow2Of32()
    ensures Pow2(31) == 0x8000_0000 && Pow2(32) == W
  {
    assert Pow2(4) == 0x10;
    Pow2Add(4, 4);
    Pow2Add(8, 8);
    Pow2Add(16, 16);
    assert Pow2(32) == 2 * Pow2(31);
  }

  /** nlz(), the leading zero bytes: afterwards X's top byte is not zero. */
  method NlzBytes(x0: Uint32) returns (x: Uint32, n: nat)
    requires x0 != 0
    ensures n <= 24 && x >= 0x100_0000 && x == Shl(x0, n)
  {
    x := x0;    // a Uint32 throughout: no shift loses a bit
    n := 0;
    ShlSteps(x0, n);
    if x <= 0x0000FFFF {
      n := n + 16;
      x := x * 0x10000;
    }
    assert n <= 16 && x >= 0x10000 && x == Shl(x0, n);
    ShlSteps(x0, n);
    if x <= 0x00FFFFFF {
      n := n + 8;
      x := x * 0x100;
    }
  }

  /** The number of leading zero bits in X. */
  method Nlz(x0: Uint32) returns (n: nat)
    requires x0 != 0
    ensures n <= 31
    ensures Pow2(31 - n) <= x0 < Pow2(32 - n)
  {
    var x;
    x, n := NlzBytes(x0);
    ShlSteps(x0, n);
    if x <= 0x0FFFFFFF {
      n := n + 4;
      x := x * 0x10;
    }
    assert n <= 28 && x >= 0x1000_0000 && x == Shl(x0, n);
    ShlSteps(x0, n);
    if x <= 0x3FFFFFFF {
      n := n + 2;
      x := x * 4;
    }
    assert n <= 30 && x >= 0x4000_0000 && x == Shl(x0, n);
    ShlSteps(x0, n);
    if x <= 0x7FFFFFFF {
      n := n + 1;
    }
    LeadingZeros(x0, n);
  }

  // ---- Division ----------------------------------------------------------------------------

  /** Schoolbook step: dividing the high word first, then what is left of it together with the low word. */
  lemma DivideInTwo(n1: nat, n0: nat, d: nat)
    requires n0 < W && 0 < d
    ensures (n1 * W + n0) / d == (n1 % d * W + n0) / d + n1 / d * W
  {
    var q1, r1 := n1 / d, n1 % d;
    var q0, r0 := (r1 * W + n0) / d, (r1 * W + n0) % d;
    assert n1 * W + n0 == (q0 + q1 * W) * d + r0;
    QuotientIs(n1 * W + n0, d, q0 + q1 * W, r0);
  }

  lemma MulLess(a: int, b: int, c: int)
    requires 0 < c
    ensures a < b <==> a * c < b * c
  {
  }

  lemma MulMono(a: int, b: int, c: nat)
    requires a <= b
    ensures a * c <= b * c
  {
  }

  lemma MulSteps(q: int, d: int)
    ensures (q + 1) * d == q * d + d && (q - 1) * d == q * d - d
  {
  }

  lemma MulMinus(a: int, b: int, d: int)
    ensures (a - b) * d == a * d - b * d
  {
  }

  lemma Bracket(n: nat, m: nat)
    requires 0 < m
    ensures n / m * m <= n < (n / m + 1) * m
    ensures 0 <= n / m <= n
  {
    assert n == n / m * m + n % m;
    MulSteps(n / m, m);
    if n / m < 0 {
      MulMono(n / m, -1, m);
    }
    MulMono(1, m, n / m);
  }

  /** A quotient and remainder are the only ones. */
  lemma QuotientIs(n: int, d: int, q: int, r: int)
    requires 0 <= r < d && n == q * d + r
    ensures n / d == q && n % d == r
  {
    assert n == n / d * d + n % d;
    MulMinus(n / d, q, d);
    MulLess(n / d - q, 1, d);
    MulLess(-1, n / d - q, d);
  }

  /** Halving both the dividend, rounding down, and an even divisor leaves the quotient alone. */
  lemma HalveBoth(n: nat, m: nat)
    requires 0 < m
    ensures n / 2 / m == n / (2 * m)
  {
    var q, r := n / 2 / m, n / 2 % m;
    assert n == q * (2 * m) + (2 * r + n % 2);
    QuotientIs(n, 2 * m, q, 2 * r + n % 2);
  }

  /** Dividing twice is dividing by the product. */
  lemma DivideTwice(n: nat, a: nat, b: nat)
    requires 0 < a && 0 < b
    ensures a * b > 0 && n / a / b == n / (a * b)
  {
    var m, s := n / a, n % a;
    var q, r := m / b, m % b;
    DivideBack(n, a);
    DivideBack(m, b);
    Regroup(n, a, b, q, r, s);
    QuotientIs(n, a * b, q, r * a + s);
  }

  lemma DivideBack(n: nat, d: nat)
    requires 0 < d
    ensures n == n / d * d + n % d && 0 <= n % d < d
  {
  }

  lemma Regroup(n: nat, a: nat, b: nat, q: int, r: nat, s: nat)
    requires n == (q * b + r) * a + s && r < b && s < a
    ensures n == q * (a * b) + (r * a + s) && 0 <= r * a + s < a * b
  {
    MulMono(r + 1, b, a);
    MulSteps(r, a);
    assert (q * b + r) * a == q * (a * b) + r * a;
  }

  /** Shifting D left by its leading zeros keeps it in 64 bits, with the top bit set. */
  lemma NormalizedFits(d: Uint64, k: nat, h: nat)
    requires k * h == 0x8000_0000
    requires h <= d / W < 2 * h
    ensures d * k < WW && 0x8000_0000 <= d * k / W < W
  {
    assert h * W <= d < 2 * h * W;
    assert h * W * k == (k * h) * W;
    assert d * k >= h * W * k;
    MulLess(d, 2 * h * W, k);
    assert 2 * h * W * k == 2 * ((k * h) * W);
  }

  /** Dropping the low word of the shifted D gives a divisor `v * e` a little below D. */
  lemma NormalizedDivisor(d: Uint64, k: nat, e: nat)
    requires k * e == W
    ensures var v := d * k / W; v * e <= d < v * e + e
  {
    var v, r := d * k / W, d * k % W;
    assert (v * e) * k == v * W && d * k == v * W + r;
    assert (d - v * e) * k == r;
    MulLess(d - v * e, e, k);
    MulLess(-1, d - v * e, k);
  }

  /** Dividing by a divisor `m` a little smaller than D overestimates the quotient by at most one. */
  lemma EstimateBounds(n: Uint64, d: Uint64, k: nat, e: nat, m: nat, q: nat)
    requires k * e == W && (e == 2 || 4 <= e) && 0x8000_0000 * e <= m
    requires m <= d < m + e && d <= n && q == n / m
    ensures 1 <= q && (q - 1) * d <= n < (q + 1) * d
  {
    Bracket(n, m);
    if q < 1 {
      MulMono(q + 1, 1, m);
    }
    QuotientSmall(n, k, e, m, q);
    SlackSmall(k, e, m, q, d - m);
    Overestimate(n, d, m, q);
  }

  lemma Overestimate(n: nat, d: nat, m: nat, q: nat)
    requires 1 <= q && m <= d && q * m <= n < (q + 1) * m && (q - 1) * (d - m) <= m
    ensures (q - 1) * d <= n < (q + 1) * d
  {
    MulMono(m, d, q + 1);
    MulMinus(d, m, q - 1);
    MulSteps(q, m);
  }

  lemma QuotientSmall(n: Uint64, k: nat, e: nat, m: nat, q: nat)
    requires k * e == W && 0x8000_0000 * e <= m && q * m <= n
    ensures q < 2 * k
  {
    MulMono(0x8000_0000 * e, m, 2 * k);
    assert 0x8000_0000 * e * (2 * k) == (k * e) * W;
    assert q >= 2 * k ==> q * m >= 2 * k * m;
  }

  lemma SlackSmall(k: nat, e: nat, m: nat, q: nat, slack: nat)
    requires k * e == W && (e == 2 || 4 <= e) && 0x8000_0000 * e <= m
    requires 1 <= q < 2 * k && slack < e
    ensures (q - 1) * slack <= m
  {
    MulMono(q - 1, 2 * k - 2, slack);
    MulMono(slack, e - 1, 2 * k - 2);
    Expand(k, e);
  }

  lemma Expand(k: int, e: int)
    ensures (e - 1) * (2 * k - 2) == 2 * (k * e) - 2 * k - 2 * e + 2
  {
  }

  /** DIVL of N / 2 by the top word V of the shifted D, scaled back, is N / (V * E). */
  lemma ScaledQuotient(n: Uint64, v: nat, h: nat)
    requires 0x8000_0000 <= v && 0 < h
    ensures v * (2 * h) > 0 && n / 2 / v / h == n / (v * (2 * h))
  {
    DivideTwice(n / 2, v, h);
    HalveBoth(n, v * h);
    assert 2 * (v * h) == v * (2 * h);
  }

  /** The estimate N / (V * E) is the quotient N / D or one more than it. */
  lemma EstimateIsClose(n: Uint64, d: Uint64, k: nat, h: nat, v: nat)
    requires k * (2 * h) == W && (h == 1 || 2 <= h) && d <= n
    requires v == d * k / W && 0x8000_0000 <= v
    ensures v * (2 * h) > 0
    ensures var q := n / (v * (2 * h)); 1 <= q && (q - 1) * d <= n < (q + 1) * d
  {
    NormalizedDivisor(d, k, 2 * h);
    MulMono(0x8000_0000, v, 2 * h);
    EstimateBounds(n, d, k, 2 * h, v * (2 * h), n / (v * (2 * h)));
  }

  /** The top word of D shifted left by its S leading zeros. */
  lemma TopWord(d: Uint64, s: nat, v: int)
    requires s <= 31 && Pow2(31 - s) <= d / W < Pow2(32 - s) && v == d * Pow2(s) % WW / W
    ensures v == d * Pow2(s) / W && 0x8000_0000 <= v < W
  {
    PowersOfShift(s);
    NormalizedFits(d, Pow2(s), Pow2(31 - s));
  }

  lemma EstimateOf(n: Uint64, d: Uint64, s: nat, v: nat, q: int)
    requires s <= 31 && d <= n && v == d * Pow2(s) / W && 0x8000_0000 <= v && q == n / 2 / v / Pow2(31 - s)
    ensures 1 <= q && (q - 1) * d <= n < (q + 1) * d
  {
    PowersOfShift(s);
    ScaledQuotient(n, v, Pow2(31 - s));
    EstimateIsClose(n, d, Pow2(s), Pow2(31 - s), v);
  }

  lemma DivlFits(n: Uint64, v: nat)
    requires 0x8000_0000 <= v
    ensures 0 <= n / 2 / v < W
  {
    Bracket(n / 2, v);
    MulMono(0x8000_0000, v, n / 2 / v);
  }

  /** The case of a divisor D with a nonzero high word that has S leading zeros. */
  method UdivLong(n: Uint64, d: Uint64, s: nat) returns (q: Uint64)
    requires s <= 31 && Pow2(31 - s) <= d / W < Pow2(32 - s) && 0 < d <= n
    ensures q == n / d
  {
    var v := d * Pow2(s) % WW / W;
    TopWord(d, s, v);
    DivlFits(n, v);
    var t := Divl(n / 2, v);
    EstimateOf(n, d, s, v, t / Pow2(31 - s));
    Bracket(t, Pow2(31 - s));
    q := CorrectQuotient(n, d, t / Pow2(31 - s));
  }

  method CorrectQuotient(n: Uint64, d: Uint64, estimate: Uint64) returns (q: Uint64)
    requires 0 < d && 1 <= estimate && (estimate - 1) * d <= n < (estimate + 1) * d
    ensures q == n / d
  {
    MulSteps(estimate, d);
    var p := (estimate - 1) * d;
    assert p == estimate * d - d && 0 <= p by {
      MulMono(0, estimate - 1, d);
    }
    CorrectByOne(n, d, estimate, p);
    q := if (n - p) % WW < d then estimate - 1 else estimate;
  }

  lemma PowersOfShift(s: nat)
    requires s <= 31
    ensures Pow2(s) * Pow2(31 - s) == 0x8000_0000 && Pow2(s) * (2 * Pow2(31 - s)) == W
    ensures Pow2(32 - s) == 2 * Pow2(31 - s) && (s < 31 ==> 2 <= Pow2(31 - s))
  {
    Pow2Add(s, 31 - s);
    Pow2Of32();
    TwiceRight(Pow2(s), Pow2(31 - s));
  }

  lemma TwiceRight(a: int, b: int)
    ensures a * (2 * b) == 2 * (a * b)
  {
  }

  /** The case of a divisor that fits in 32 bits. */
  method UdivShort(n: Uint64, d: Uint32) returns (q: Uint64)
    requires d != 0
    ensures q == n / d
  {
    var n1, n0 := n / W, n % W;
    DivideInTwo(n1, n0, d);
    LowQuotientFits(n1 % d, n0, d);
    Bracket(n, d);
    var low := Divl(W * (n1 % d) + n0, d);
    q := low + W * (n1 / d);
  }

  lemma LowQuotientFits(r: nat, n0: nat, d: nat)
    requires r < d < W && n0 < W
    ensures r * W + n0 < WW && (r * W + n0) / d < W
  {
    Bracket(r * W + n0, d);
    MulMono(r, d - 1, W);
    MulLess((r * W + n0) / d, W, d);
  }

  /** Unsigned 64-bit division. */
  method Udiv64(n: Uint64, d: Uint64) returns (q: Uint64)
    requires d != 0
    ensures q == n / d
  {
    if d / W == 0 {
      q := UdivShort(n, d);
    } else if n < d {
      QuotientIs(n, d, 0, n);
      q := 0;
    } else {
      var s := Nlz(d / W);
      q := UdivLong(n, d, s);
    }
  }

  lemma CorrectByOne(n: nat, d: nat, q: int, p: nat)
    requires p == (q - 1) * d && p <= n < p + 2 * d
    ensures n / d == if n - p < d then q - 1 else q
  {
    if n - p < d {
      QuotientIs(n, d, q - 1, n - p);
    } else {
      MulSteps(q, d);
      QuotientIs(n, d, q, n - p - d);
    }
  }

  // ---- Remainder and signed division ---------------------------------------------------------

  /** umod64() returns its 64-bit remainder in 32 bits. */
  method Umod64(n: Uint64, d: Uint64) returns (r: Uint32)
    requires d != 0
    ensures r == LowWord(n, d)
  {
    var q := Udiv64(n, d);
    RestOf(n, d, q);
    r := (n - d * q) % WW % W;
  }

  lemma RestOf(n: Uint64, d: Uint64, q: int)
    requires d != 0 && q == n / d
    ensures (n - d * q) % WW == n % d
  {
    DivideBack(n, d);
    assert n - d * q == n % d < WW;
    QuotientIs(n - d * q, WW, 0, n % d);
  }

  /** The low word of the remainder of N / D. */
  function LowWord(n: Uint64, d: Uint64): Uint32
    requires d != 0
  {
    n % d % W
  }

  /** umod64() is the remainder for every N exactly when D is at most 2^32. */
  lemma Umod64IsRemainder(d: Uint64)
    requires d != 0
    ensures (forall n: Uint64 :: LowWord(n, d) == n % d) <==> d <= W
  {
    if d > W {
      QuotientIs(W, d, 0, W);
      assert LowWord(W, d) == 0 != W % d;
    }
  }

  /** Signed 64-bit division: the quotient rounded toward zero, in two's complement. */
  method Sdiv64(n: Int64, d: Int64) returns (q: Int64)
    requires d != 0
    ensures q == Wrap64(TruncDiv(n, d))
  {
    var nAbs: Uint64, dAbs: Uint64 := Abs(n), Abs(d);
    var qAbs := Udiv64(nAbs, dAbs);
    SignsOfQuotient(n, d);
    q := if (n < 0) == (d < 0) then Wrap64(qAbs) else Wrap64(0 - Wrap64(qAbs));
    WrapNegated(qAbs);
  }

  function Abs(x: int): nat {
    if x >= 0 then x else -x
  }

  lemma SignsOfQuotient(n: int, d: int)
    requires d != 0
    ensures TruncDiv(n, d) == if (n < 0) == (d < 0) then Abs(n) / Abs(d) else -(Abs(n) / Abs(d))
    ensures Abs(n) / Abs(d) <= Abs(n)
  {
    Bracket(Abs(n), Abs(d));
    if d < 0 {
      DivideByNegative(Abs(n), Abs(d));
    }
  }

  lemma DivideByNegative(a: int, b: int)
    requires 0 <= a && 0 < b
    ensures a / (-b) == -(a / b)
  {
    var d := -b;
    assert a == a / d * d + a % d;
    SignedProduct(b, a / d);
    QuotientIs(a, b, -(a / d), a % d);
  }

  lemma WrapNegated(x: nat)
    requires x <= 0x8000_0000_0000_0000
    ensures Wrap64(0 - Wrap64(x)) == Wrap64(0 - x)
  {
  }

  /** The quotient is representable, and sdiv64() returns it, except for INT64_MIN / -1. */
  lemma Sdiv64IsQuotient(n: Int64, d: Int64)
    requires d != 0
    ensures Wrap64(TruncDiv(n, d)) == TruncDiv(n, d) <==> !(n == INT64_MIN && d == -1)
  {
    if d == 1 || d == -1 {
      ByOne(n, d);
    } else {
      HalfAtMost(n, d);
    }
    WrapIsIdentity(TruncDiv(n, d));
  }

  lemma ByOne(n: int, d: int)
    requires d == 1 || d == -1
    ensures TruncDiv(n, d) == if d == 1 then n else 0 - n
  {
  }

  /** Division by anything else at least halves the magnitude. */
  lemma HalfAtMost(n: int, d: int)
    requires Abs(d) >= 2
    ensures 2 * Abs(TruncDiv(n, d)) <= Abs(n)
  {
    var a, b := Abs(n), Abs(d);
    var q: int, t: int := TruncDiv(n, d), a / b;
    assert q == t || q == 0 - t by {
      SignsOfQuotient(n, d);
    }
    HalfQuotient(a, b, t);
  }

  lemma HalfQuotient(a: nat, b: nat, t: int)
    requires b >= 2 && t == a / b
    ensures 2 * t <= a
  {
    Bracket(a, b);
    MulMono(2, b, t);
  }

  lemma WrapIsIdentity(x: int)
    requires Abs(x) <= 0x8000_0000_0000_0000
    ensures Wrap64(x) == x <==> x <= INT64_MAX
  {
  }

  /** smod64() returns its 64-bit remainder in 32 bits. */
  method Smod64(n: Int64, d: Int64) returns (r: Int32)
    requires d != 0
    ensures r == Wrap32(TruncMod(n, d))
  {
    var q := Sdiv64(n, d);
    r := Wrap32(Wrap64(n - Wrap64(d * q)));
    SmodWraps(n, d, q);
  }

  lemma SmodWraps(n: Int64, d: Int64, q: Int64)
    requires d != 0 && q == Wrap64(TruncDiv(n, d))
    ensures Wrap64(n - Wrap64(d * q)) == TruncMod(n, d)
  {
    if n == INT64_MIN && d == -1 {
      assert TruncDiv(n, d) == 0x8000_0000_0000_0000;
    } else {
      Sdiv64IsQuotient(n, d);
      assert d * q == n - TruncMod(n, d);
      TruncModRange(n, d);
      WrapDifference(n, TruncMod(n, d));
    }
  }

  lemma WrapDifference(n: Int64, m: int)
    requires if n >= 0 then 0 <= m <= n else n <= m <= 0
    ensures Wrap64(n - Wrap64(n - m)) == m
  {
  }

  lemma SignedProduct(b: int, t: int)
    ensures (-b) * (-t) == b * t && b * (-t) == -(b * t) && (-b) * t == -(b * t) && b * t == t * b
    ensures t * (-b) == (-t) * b
  {
  }

  /** The remainder is smaller than the divisor and has the sign of the dividend. */
  lemma TruncModRange(n: int, d: int)
    requires d != 0
    ensures TruncMod(n, d) == if n >= 0 then Abs(n) % Abs(d) else -(Abs(n) % Abs(d))
    ensures Abs(TruncMod(n, d)) < Abs(d)
    ensures if n >= 0 then 0 <= TruncMod(n, d) <= n else n <= TruncMod(n, d) <= 0
  {
    SignsOfQuotient(n, d);
    SignedProduct(Abs(d), Abs(n) / Abs(d));
    assert Abs(n) == Abs(n) / Abs(d) * Abs(d) + Abs(n) % Abs(d);
    Bracket(Abs(n), Abs(d));
    MulMono(0, Abs(n) / Abs(d), Abs(d));
  }

  /** smod64() is the remainder for every N exactly when D is at most 2^31 in magnitude. */
  lemma Smod64IsRemainder(d: Int64)
    requires d != 0
    ensures (forall n: Int64 :: Wrap32(TruncMod(n, d)) == TruncMod(n, d)) <==> Abs(d) <= 0x8000_0000
  {
    if Abs(d) <= 0x8000_0000 {
      forall n: Int64
        ensures Wrap32(TruncMod(n, d)) == TruncMod(n, d)
      {
        TruncModRange(n, d);
      }
    } else {
      var n: Int64 := 0x8000_0000;
      SignsOfQuotient(n, d);
      QuotientIs(Abs(n), Abs(d), 0, n);
      assert TruncMod(n, d) == n;
    }
  }
}

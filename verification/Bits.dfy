/** Bitwise operations on unsigned machine words, as arithmetic. */
module Bits {
  import opened Arithmetic

  /** x & y */
  function BitAnd(x: nat, y: nat): nat {
    if x == 0 || y == 0 then 0 else 2 * BitAnd(x / 2, y / 2) + if x % 2 + y % 2 == 2 then 1 else 0
  }

  lemma {:induction false} AndSelf(x: nat)
    ensures BitAnd(x, x) == x
  {
    if x != 0 {
      AndSelf(x / 2);
    }
  }

  lemma AndOdd(x: nat, p: nat)
    requires p > 0
    ensures BitAnd(x, 2 * p - 1) == 2 * BitAnd(x / 2, p - 1) + x % 2
  {
    assert (2 * p - 1) / 2 == p - 1 && (2 * p - 1) % 2 == 1;
  }

  /** A mask of the low `k` bits takes the remainder by 2 to the `k`. */
  lemma {:induction false} AndMask(x: nat, k: nat)
    ensures BitAnd(x, Pow2(k) - 1) == x % Pow2(k)
    decreases k
  {
    if k > 0 {
      AndOdd(x, Pow2(k - 1));
      AndMask(x / 2, k - 1);
      DivDiv(x, Pow2(k - 1));
    }
  }

  ghost predicate PowerOf2(x: int) {
    exists k: nat :: x == Pow2(k)
  }

  /** x & (x - 1) */
  function TurnOffLeast1Bit(x: nat): nat
    requires x > 0
  {
    BitAnd(x, x - 1)
  }

  /** Turning off the least 1 bit makes the number smaller but keeps its top bit, and leaves 0 of a power of 2. */
  lemma {:induction false} TurnOffKeepsTop(x: nat, k: nat)
    requires Pow2(k) <= x < 2 * Pow2(k)
    ensures TurnOffLeast1Bit(x) < x
    ensures x == Pow2(k) ==> TurnOffLeast1Bit(x) == 0
    ensures x > Pow2(k) ==> TurnOffLeast1Bit(x) >= Pow2(k)
    decreases x
  {
    TurnOffIs(x);
    if k > 0 {
      assert Pow2(k) == 2 * Pow2(k - 1);
      TurnOffKeepsTop(x / 2, k - 1);
    }
  }

  lemma TurnOffIs(x: nat)
    requires x > 0
    ensures TurnOffLeast1Bit(x) == if x % 2 == 1 then x - 1 else 2 * TurnOffLeast1Bit(x / 2)
  {
    if x % 2 == 1 {
      AndSelf(x / 2);
      assert (x - 1) / 2 == x / 2;
    } else {
      assert (x - 1) / 2 == x / 2 - 1;
    }
  }

  lemma {:induction false} TopPower(x: nat) returns (k: nat)
    requires x > 0
    ensures Pow2(k) <= x < 2 * Pow2(k)
  {
    if x == 1 {
      k := 0;
    } else {
      k := TopPower(x / 2);
      k := k + 1;
    }
  }

  // ---- Single bits ---------------------------------------------------------------------------

  /** Bit number `j`. */
  predicate Bit(x: nat, j: nat) {
    if j == 0 then x % 2 == 1 else Bit(x / 2, j - 1)
  }

  /** x | y */
  function BitOr(x: nat, y: nat): nat {
    if x == 0 then y else if y == 0 then x else 2 * BitOr(x / 2, y / 2) + if x % 2 + y % 2 > 0 then 1 else 0
  }

  /** ~x, for words of `n` bits. */
  function BitNot(x: nat, n: nat): nat
    requires x < Pow2(n)
  {
    Pow2(n) - 1 - x
  }

  lemma {:induction false} ZeroBit(j: nat)
    ensures !Bit(0, j)
  {
    if j > 0 {
      ZeroBit(j - 1);
    }
  }

  lemma {:induction false} AndBit(x: nat, y: nat, j: nat)
    ensures Bit(BitAnd(x, y), j) <==> Bit(x, j) && Bit(y, j)
    decreases j
  {
    if x == 0 || y == 0 {
      ZeroBit(j);
    } else if j > 0 {
      AndBit(x / 2, y / 2, j - 1);
    }
  }

  lemma {:induction false} OrBit(x: nat, y: nat, j: nat)
    ensures Bit(BitOr(x, y), j) <==> Bit(x, j) || Bit(y, j)
    decreases j
  {
    if x == 0 || y == 0 {
      ZeroBit(j);
    } else if j > 0 {
      OrBit(x / 2, y / 2, j - 1);
    }
  }

  lemma {:induction false} NotBit(x: nat, n: nat, j: nat)
    requires x < Pow2(n) && j < n
    ensures Bit(BitNot(x, n), j) <==> !Bit(x, j)
    decreases j
  {
    var p := Pow2(n - 1);
    assert Pow2(n) == 2 * p;
    if j > 0 {
      NotBit(x / 2, n - 1, j - 1);
      assert (2 * p - 1 - x) / 2 == p - 1 - x / 2;
    }
  }

  /** A power of 2 has one bit. */
  lemma {:induction false} OneBit(k: nat, j: nat)
    ensures Bit(Pow2(k), j) <==> j == k
    decreases j
  {
    if k > 0 && j > 0 {
      OneBit(k - 1, j - 1);
    } else if j > 0 {
      ZeroBit(j - 1);
    }
  }

  /** x & (1 << k) tests bit `k`. */
  lemma {:induction false} TestBit(x: nat, k: nat)
    ensures BitAnd(x, Pow2(k)) != 0 <==> Bit(x, k)
    decreases k
  {
    if x == 0 {
      ZeroBit(k);
    } else if k > 0 {
      TestBit(x / 2, k - 1);
    }
  }

  lemma {:induction false} OrFits(x: nat, y: nat, n: nat)
    requires x < Pow2(n) && y < Pow2(n)
    ensures BitOr(x, y) < Pow2(n)
    decreases n
  {
    if x != 0 && y != 0 {
      assert n > 0 && Pow2(n) == 2 * Pow2(n - 1);
      OrFits(x / 2, y / 2, n - 1);
    }
  }

  lemma {:induction false} AndFits(x: nat, y: nat)
    ensures BitAnd(x, y) <= x
  {
    if x != 0 && y != 0 {
      AndFits(x / 2, y / 2);
    }
  }

  lemma {:induction false} Pow2Less(k: nat, n: nat)
    requires k < n
    ensures Pow2(k) < Pow2(n)
    decreases n
  {
    if k < n - 1 {
      Pow2Less(k, n - 1);
    }
  }

  // ---- Fields of words -----------------------------------------------------------------------

  lemma DivDiv(x: nat, p: nat)
    requires p > 0
    ensures x / (2 * p) == x / 2 / p && x % (2 * p) == 2 * (x / 2 % p) + x % 2
  {
    var q, r := x / 2 / p, x / 2 % p;
    assert x / 2 == q * p + r;
    assert x == q * (2 * p) + (2 * r + x % 2);
    QuotientIs(x, 2 * p, q, 2 * r + x % 2);
  }

  /** x >> k */
  function Shr(x: nat, k: nat): nat {
    if k == 0 then x else Shr(x / 2, k - 1)
  }

  lemma {:induction false} ShrIs(x: nat, k: nat)
    ensures Shr(x, k) == x / Pow2(k)
    decreases k
  {
    if k > 0 {
      ShrIs(x / 2, k - 1);
      DivDiv(x, Pow2(k - 1));
    } else {
      assert x / 1 == x;
    }
  }

  lemma {:induction false} ShrAnd(x: nat, y: nat, k: nat)
    ensures Shr(BitAnd(x, y), k) == BitAnd(Shr(x, k), Shr(y, k))
    decreases k
  {
    if k > 0 {
      AndHalves(x, y);
      ShrAnd(x / 2, y / 2, k - 1);
    }
  }

  lemma AndHalves(x: nat, y: nat)
    ensures BitAnd(x, y) / 2 == BitAnd(x / 2, y / 2)
  {
  }

  lemma {:induction false} ShrOr(x: nat, y: nat, k: nat)
    ensures Shr(BitOr(x, y), k) == BitOr(Shr(x, k), Shr(y, k))
    decreases k
  {
    if k > 0 {
      OrHalves(x, y);
      ShrOr(x / 2, y / 2, k - 1);
    }
  }

  lemma OrHalves(x: nat, y: nat)
    ensures BitOr(x, y) / 2 == BitOr(x / 2, y / 2)
  {
  }

  lemma {:induction false} ShrFits(x: nat, k: nat, n: nat)
    requires x < Pow2(k + n)
    ensures Shr(x, k) < Pow2(n)
    decreases k
  {
    if k > 0 {
      ShrFits(x / 2, k - 1, n);
    }
  }

  lemma {:induction false} BitShr(x: nat, k: nat, j: nat)
    ensures Bit(Shr(x, k), j) == Bit(x, j + k)
    decreases k
  {
    if k > 0 {
      BitShr(x / 2, k - 1, j);
    }
  }

  /** Of a shifted word. */
  lemma {:induction false} Shifted(x: nat, k: nat, j: nat)
    ensures Shr(x * Pow2(k), k) == x
    ensures j < k ==> !Bit(x * Pow2(k), j)
    decreases k
  {
    if k > 0 {
      ShlHalf(x, k);
      Shifted(x, k - 1, if j > 0 then j - 1 else 0);
    }
  }

  lemma ShlHalf(x: nat, k: nat)
    requires k > 0
    ensures x * Pow2(k) == 2 * (x * Pow2(k - 1)) && x * Pow2(k) / 2 == x * Pow2(k - 1)
  {
  }

  /** A mask of the high bits. */
  lemma {:induction false} AndHigh(x: nat, m: nat, k: nat)
    ensures BitAnd(x, m * Pow2(k)) == BitAnd(Shr(x, k), m) * Pow2(k)
    decreases k
  {
    if k > 0 {
      ShlHalf(m, k);
      AndHigh(x / 2, m, k - 1);
      ShlHalf(BitAnd(Shr(x, k), m), k);
      AndEven(x, m * Pow2(k));
    }
  }

  lemma AndEven(x: nat, y: nat)
    requires y % 2 == 0
    ensures BitAnd(x, y) == 2 * BitAnd(x / 2, y / 2)
  {
  }

  /** The bits from `k` on, masked out of a word of `k + n` bits. */
  lemma HighField(x: nat, k: nat, n: nat, m: nat)
    requires x < Pow2(k + n) && m == Pow2(n) - 1
    ensures Shr(x, k) < Pow2(n) && BitAnd(x, m * Pow2(k)) == Shr(x, k) * Pow2(k)
    ensures Shr(BitAnd(x, m * Pow2(k)), k) == Shr(x, k)
  {
    AndHigh(x, m, k);
    ShrFits(x, k, n);
    AndOnes(Shr(x, k), n);
    Shifted(Shr(x, k), k, 0);
  }

  lemma AndOnes(x: nat, n: nat)
    requires x < Pow2(n)
    ensures BitAnd(x, Pow2(n) - 1) == x
  {
    AndMask(x, n);
    SmallMod(x, Pow2(n));
  }

  lemma SmallMod(x: nat, p: nat)
    requires x < p
    ensures x % p == x
  {
  }
}

/** lib/stdio.c, parse_conversion(): what is written in a format is what is parsed from it. */
module ConversionText {
  import opened Basics
  import opened Arithmetic
  import opened Stdio
  import opened Conversions
  import opened FieldLayout

  // ---- Numbers -------------------------------------------------------------------------------

  lemma DigitStep(f: seq<int>, p: nat, q: nat)
    requires p <= q < |f| && IsDigit(f[q])
    ensures Read(f[p..q + 1], 10) == Read(f[p..q], 10) * 10 + f[q] - 48
  {
    assert f[p..q + 1] == f[p..q] + [f[q]];
    ReadStep(f[p..q], f[q], 10);
  }

  lemma {:induction false} MoreDigits(f: seq<int>, p: nat, k: nat, q: nat)
    requires p <= k <= q < |f| && forall i :: p <= i < q ==> IsDigit(f[i])
    ensures 0 <= Read(f[p..k], 10) <= Read(f[p..q], 10)
    decreases q - p
  {
    if p < q {
      DigitStep(f, p, q - 1);
      MoreDigits(f, p, if k < q then k else k - 1, q - 1);
    }
  }

  /** A number that fits in 32 bits is the value of its digits. */
  lemma {:induction false} NumberIsRead(f: seq<int>, p: nat, k: nat, q: nat)
    requires Terminated(f) && p <= k <= q < |f| && !IsDigit(f[q]) && forall i :: p <= i < q ==> IsDigit(f[i])
    requires Read(f[p..q], 10) < 0x8000_0000
    ensures 0 <= Read(f[p..k], 10) < 0x8000_0000 && Number(f, k, Read(f[p..k], 10)) == (Read(f[p..q], 10), q)
    decreases q - k
  {
    MoreDigits(f, p, k, q);
    if k < q {
      NumberIsRead(f, p, k + 1, q);
      DigitStep(f, p, k);
      NumberStep(f, k, Read(f[p..k], 10), Read(f[p..k + 1], 10));
    }
  }

  lemma NumberStep(f: seq<int>, k: nat, n: Int32, n': Int32)
    requires Terminated(f) && k < |f| - 1 && IsDigit(f[k]) && n >= 0 && n' == n * 10 + f[k] - 48
    ensures Number(f, k, n) == Number(f, k + 1, n')
  {
    assert Wrap32(n') == n';
  }

  /** A number in decimal, and nothing for zero. */
  function Decimal(n: nat): seq<int> {
    Reversed(Digits(n, BASE_D, false, 0))
  }

  lemma {:induction false} DecimalDigit(n: int, cnt: int, j: int)
    requires 0 <= j < |Digits(n, BASE_D, false, cnt)|
    ensures IsDigit(Digits(n, BASE_D, false, cnt)[j])
    decreases n
  {
    DivLess(n, 10);
    if j > 0 {
      DecimalDigit(n / 10, cnt + 1, j - 1);
    }
  }

  lemma DecimalIs(n: nat)
    ensures forall j :: 0 <= j < |Decimal(n)| ==> IsDigit(Decimal(n)[j])
    ensures Read(Decimal(n), 10) == n
    ensures Decimal(n) == [] <==> n == 0
    ensures n > 0 ==> Decimal(n)[0] != ZERO_CHAR
  {
    var d := Digits(n, BASE_D, false, 0);
    forall j | 0 <= j < |d|
      ensures IsDigit(d[j])
    {
      DecimalDigit(n, 0, j);
    }
    DigitsReadBack(n, BASE_D, false, 0, 0);
    assert d + ZeroDigits(0) == d;
    CommasBetweenGroups(n, BASE_D, false);
  }

  /** A number in the format, up to something that is no digit. */
  lemma DecimalParsed(f: seq<int>, p: nat, n: Int32, q: nat)
    requires Terminated(f) && n >= 0 && p <= q < |f| && f[p..q] == Decimal(n) && !IsDigit(f[q])
    ensures Number(f, p, 0) == (n, q)
  {
    DecimalIs(n);
    forall i | p <= i < q
      ensures IsDigit(f[i])
    {
      assert f[i] == Decimal(n)[i - p];
    }
    NumberIsRead(f, p, p, q);
  }

  // ---- The whole conversion ------------------------------------------------------------------

  /** Flags, a field width unless it is zero, and a precision. */
  function PrecisionText(precision: Option<Int32>): seq<int>
    requires precision.Some? ==> precision.value >= 0
  {
    if precision.None? then [] else [POINT] + Decimal(precision.value)
  }

  /** What follows ends the conversion: it does not go on with any part of it. */
  ghost predicate Follows(rest: seq<int>) {
    Terminated(rest) && !IsFlag(rest[0]) && !IsDigit(rest[0]) && rest[0] != STAR && rest[0] != POINT
  }

  ghost predicate AreFlags(flags: seq<int>) {
    forall i :: 0 <= i < |flags| ==> IsFlag(flags[i])
  }

  /** The places of the parts. */
  lemma PartsAt(f: seq<int>, p: nat, a: seq<int>, b: seq<int>, c: seq<int>, rest: seq<int>)
    requires p < |f| && f[p..] == a + (b + (c + rest)) && rest != []
    ensures var i, j, k := p + |a|, p + |a| + |b|, p + |a| + |b| + |c|;
            k < |f| && f[p..i] == a && f[i..j] == b && f[j..k] == c && f[k..] == rest
  {
    var t := f[p..];
    assert t[..|a|] == a && t[|a|..] == b + (c + rest);
    assert t[|a|..][..|b|] == b && t[|a| + |b|..] == c + rest;
  }

  lemma FlagsParsed(f: seq<int>, p: nat, flags: seq<int>, q: nat)
    requires Terminated(f) && p <= q < |f| && f[p..q] == flags && AreFlags(flags) && !IsFlag(f[q])
    ensures FlagsEnd(f, p) == q && forall c :: Given(f, p, c) <==> c in flags
  {
    forall i | p <= i < q
      ensures IsFlag(f[i])
    {
      assert f[i] == flags[i - p];
    }
    FlagsEndIs(f, p, q);
  }

  lemma PrecisionParsed(f: seq<int>, j: nat, precision: Option<Int32>, k: nat, star: Int32)
    requires Terminated(f) && j <= k < |f| && (precision.Some? ==> precision.value >= 0)
    requires f[j..k] == PrecisionText(precision) && Follows(f[k..])
    ensures f[j] == POINT <==> precision.Some?
    ensures precision.Some? ==> j + 1 < |f| && Field(f, j + 1, star) == (precision.value, k)
    ensures !IsFlag(f[j]) && !IsDigit(f[j]) && f[j] != STAR
  {
    if precision.Some? {
      var d := Decimal(precision.value);
      assert f[j] == PrecisionText(precision)[0];
      assert f[j + 1..k] == f[j..k][1..] == d;
      DecimalIs(precision.value);
      DecimalParsed(f, j + 1, precision.value, k);
      assert d != [] ==> f[j + 1] == d[0];
    }
  }

  /** The width between the flags and what follows. */
  lemma WidthParsed(f: seq<int>, p: nat, flags: seq<int>, i: nat, width: Int32, j: nat, w: Int32)
    requires Terminated(f) && p <= i <= j < |f| && f[p..i] == flags && AreFlags(flags)
    requires width >= 0 && f[i..j] == Decimal(width) && !IsFlag(f[j]) && !IsDigit(f[j]) && f[j] != STAR
    ensures Width(f, p, w) == (width, j) && forall c :: Given(f, p, c) <==> c in flags
  {
    DecimalIs(width);
    assert width > 0 ==> f[i] == f[i..j][0];
    FlagsParsed(f, p, flags, i);
    DecimalParsed(f, i, width, j);
  }

  /** The conversion that flags, a width and a precision stand for: without the blank next to a plus, and without the
      zeros next to a minus or a precision. */
  ghost function Meant(flags: seq<int>, width: Int32, precision: Option<Int32>): Conversion {
    Conversion(MINUS in flags, PLUS in flags, SPACE in flags && PLUS !in flags, POUND in flags,
               ZERO_CHAR in flags && MINUS !in flags && precision.None?, QUOTE in flags, width,
               if precision.Some? then precision.value else -1)
  }

  lemma PartsParsed(f: seq<int>, p: nat, flags: seq<int>, width: Int32, j: nat, precision: Option<Int32>, k: nat,
                    w: Int32, pr: Int32)
    requires Terminated(f) && p < |f| && AreFlags(flags) && width >= 0 && p + |flags| <= j <= k < |f|
    requires (precision.Some? ==> precision.value >= 0) && Follows(f[k..]) && f[p..p + |flags|] == flags
    requires f[p + |flags|..j] == Decimal(width) && f[j..k] == PrecisionText(precision)
    ensures Parsed(f, p, w, pr) == Meant(flags, width, precision) && Precision(f, p, w, pr).1 == k
  {
    PrecisionParsed(f, j, precision, k, pr);
    WidthParsed(f, p, flags, p + |flags|, width, j, w);
  }

  /** parse_conversion() gives what is written, and leaves what follows. */
  lemma TextIsParsed(f: seq<int>, p: nat, flags: seq<int>, width: Int32, digits: seq<int>, precision: Option<Int32>,
                     text: seq<int>, rest: seq<int>, w: Int32, pr: Int32)
    requires Terminated(f) && p < |f| && AreFlags(flags) && width >= 0 && digits == Decimal(width)
    requires (precision.Some? ==> precision.value >= 0) && text == PrecisionText(precision) && Follows(rest)
    requires f[p..] == flags + (digits + (text + rest))
    ensures Parsed(f, p, w, pr) == Meant(flags, width, precision) && f[Precision(f, p, w, pr).1..] == rest
  {
    PartsAt(f, p, flags, digits, text, rest);
    var j := p + |flags| + |digits|;
    PartsParsed(f, p, flags, width, j, precision, j + |text|, w, pr);
  }
}

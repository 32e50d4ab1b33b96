/** lib/stdio.c: parse_conversion() up to the type, on a format string that ends in a null byte. */
module Conversions {
  import opened Basics
  import opened Arithmetic
  import opened Stdio

  const MINUS: int := 45
  const PLUS: int := 43
  const SPACE: int := 32
  const POUND: int := 35
  const QUOTE: int := 39
  const STAR: int := 42
  const POINT: int := 46

  predicate Terminated(f: seq<int>) {
    f != [] && f[|f| - 1] == 0
  }

  predicate IsFlag(c: int) {
    c == MINUS || c == PLUS || c == SPACE || c == POUND || c == ZERO_CHAR || c == QUOTE
  }

  predicate IsDigit(c: int) {
    48 <= c <= 57
  }

  // ---- What is parsed ------------------------------------------------------------------------

  /** The first place at or after `p` that is not a flag. */
  function FlagsEnd(f: seq<int>, p: nat): (q: nat)
    requires Terminated(f) && p < |f|
    ensures p <= q < |f| && !IsFlag(f[q])
    decreases |f| - p
  {
    if IsFlag(f[p]) then FlagsEnd(f, p + 1) else p
  }

  /** Character `c` is one of the flags at `p`. */
  predicate Given(f: seq<int>, p: nat, c: int)
    requires Terminated(f) && p < |f|
  {
    c in f[p..FlagsEnd(f, p)]
  }

  /** The number at `p`, in 32-bit arithmetic, after digits that make `n`; and where it ends. */
  function Number(f: seq<int>, p: nat, n: Int32): (r: (Int32, nat))
    requires Terminated(f) && p < |f|
    ensures p <= r.1 < |f|
    decreases |f| - p
  {
    if IsDigit(f[p]) then Number(f, p + 1, Wrap32(n * 10 + f[p] - 48)) else (n, p)
  }

  /** A field width or precision: `star` is what va_arg() gives for a `*`. */
  function Field(f: seq<int>, p: nat, star: Int32): (r: (Int32, nat))
    requires Terminated(f) && p < |f|
    ensures p <= r.1 < |f|
  {
    if f[p] == STAR then (star, p + 1) else Number(f, p, 0)
  }

  /** The field width as it is given, and where it ends. */
  function Width(f: seq<int>, p: nat, w: Int32): (r: (Int32, nat))
    requires Terminated(f) && p < |f|
    ensures p <= r.1 < |f|
  {
    Field(f, FlagsEnd(f, p), w)
  }

  /** The precision as it is given, -1 if it is not, and where it ends. */
  function Precision(f: seq<int>, p: nat, w: Int32, pr: Int32): (r: (Int32, nat))
    requires Terminated(f) && p < |f|
    ensures p <= r.1 < |f|
  {
    var q := Width(f, p, w).1;
    if f[q] == POINT then Field(f, q + 1, pr) else (-1, q)
  }

  /** All of it: a negative width stands for its magnitude and '-', a negative precision for none. */
  function Parsed(f: seq<int>, p: nat, w: Int32, pr: Int32): Conversion
    requires Terminated(f) && p < |f|
  {
    var width, precision := Width(f, p, w).0, Precision(f, p, w, pr).0;
    Conversion(Given(f, p, MINUS) || width < 0, Given(f, p, PLUS), Given(f, p, SPACE) && !Given(f, p, PLUS),
               Given(f, p, POUND), Given(f, p, ZERO_CHAR) && !Given(f, p, MINUS) && precision < 0, Given(f, p, QUOTE),
               if width < 0 then Wrap32(0 - width) else width, if precision < 0 then -1 else precision)
  }

  // ---- parse_conversion() --------------------------------------------------------------------

  lemma {:induction false} FlagsEndIs(f: seq<int>, p: nat, q: nat)
    requires Terminated(f) && p <= q < |f| && !IsFlag(f[q]) && forall i :: p <= i < q ==> IsFlag(f[i])
    ensures FlagsEnd(f, p) == q
    decreases q - p
  {
    if p < q {
      FlagsEndIs(f, p + 1, q);
    }
  }

  /** The flags at `p`, with all else left at its start. */
  method ParseFlags(f: seq<int>, p: nat) returns (c: Conversion, q: nat)
    requires Terminated(f) && p < |f|
    ensures q == FlagsEnd(f, p)
    ensures c == Conversion(Given(f, p, MINUS), Given(f, p, PLUS), Given(f, p, SPACE), Given(f, p, POUND),
                            Given(f, p, ZERO_CHAR), Given(f, p, QUOTE), 0, -1)
  {
    c, q := Conversion(false, false, false, false, false, false, 0, -1), p;
    while IsFlag(f[q])
      invariant p <= q < |f| && forall i :: p <= i < q ==> IsFlag(f[i])
      invariant c == Conversion(MINUS in f[p..q], PLUS in f[p..q], SPACE in f[p..q], POUND in f[p..q],
                                ZERO_CHAR in f[p..q], QUOTE in f[p..q], 0, -1)
      decreases |f| - q
    {
      var ch := f[q];
      assert f[p..q + 1] == f[p..q] + [ch];
      if ch == MINUS {
        c := c.(minus := true);
      } else if ch == PLUS {
        c := c.(plus := true);
      } else if ch == SPACE {
        c := c.(space := true);
      } else if ch == POUND {
        c := c.(pound := true);
      } else if ch == ZERO_CHAR {
        c := c.(zero := true);
      } else {
        c := c.(group := true);
      }
      q := q + 1;
    }
    FlagsEndIs(f, p, q);
  }

  method ParseNumber(f: seq<int>, p: nat) returns (n: Int32, q: nat)
    requires Terminated(f) && p < |f|
    ensures (n, q) == Number(f, p, 0)
  {
    n, q := 0, p;
    while IsDigit(f[q])
      invariant p <= q < |f| && Number(f, q, n) == Number(f, p, 0)
      decreases |f| - q
    {
      n := Wrap32(n * 10 + f[q] - 48);
      q := q + 1;
    }
  }

  method ParseField(f: seq<int>, p: nat, star: Int32) returns (n: Int32, q: nat)
    requires Terminated(f) && p < |f|
    ensures (n, q) == Field(f, p, star)
  {
    if f[p] == STAR {
      return star, p + 1;
    }
    n, q := ParseNumber(f, p);
  }

  method ParseConversion(f: seq<int>, p: nat, w: Int32, pr: Int32) returns (c: Conversion, q: nat)
    requires Terminated(f) && p < |f|
    ensures c == Parsed(f, p, w, pr) && q == Precision(f, p, w, pr).1
  {
    c, q := ParseFlags(f, p);
    if c.minus {
      c := c.(zero := false);
    }
    if c.plus {
      c := c.(space := false);
    }
    var width: Int32;
    width, q := ParseField(f, q, w);
    c := c.(width := width);
    if c.width < 0 {
      c := c.(width := Wrap32(0 - c.width), minus := true);
    }
    if f[q] == POINT {
      var precision: Int32;
      precision, q := ParseField(f, q + 1, pr);
      c := c.(precision := if precision < 0 then -1 else precision);
    }
    if c.precision >= 0 {
      c := c.(zero := false);
    }
  }

  // ---- '-' and '0' together ------------------------------------------------------------------

  /** Both flags are left exactly if '0' was given and '-' was not, the width is negative, and the precision too or
      not given. */
  lemma BothFlags(f: seq<int>, p: nat, w: Int32, pr: Int32)
    requires Terminated(f) && p < |f|
    ensures var c := Parsed(f, p, w, pr);
            c.minus && c.zero <==> Given(f, p, ZERO_CHAR) && !Given(f, p, MINUS)
                                   && Width(f, p, w).0 < 0 && Precision(f, p, w, pr).0 < 0
  {
  }

  /** So printf()'s output for an integer is as long as the width or as what is needed, whichever is more, exactly if
      not all of that holds, or the width is not more than what is needed. */
  lemma PrintedLength(f: seq<int>, p: nat, w: Int32, pr: Int32, value: int, isSigned: bool, negative: bool, b: Base)
    requires Terminated(f) && p < |f|
    ensures var c := Parsed(f, p, w, pr);
            var n := Needed(value, isSigned, negative, b, c);
            |Formatted(value, isSigned, negative, b, c)| == (if c.width < n then n else c.width)
            <==> !(Given(f, p, ZERO_CHAR) && !Given(f, p, MINUS) && Width(f, p, w).0 < 0
                   && Precision(f, p, w, pr).0 < 0 && n < c.width)
  {
    FormattedLength(value, isSigned, negative, b, Parsed(f, p, w, pr));
    BothFlags(f, p, w, pr);
  }

  /** For instance "%0*d" with -5 and 42: eight characters, "00042" and three blanks. */
  lemma PaddedTwice(f: seq<int>, c: Conversion)
    requires f == [ZERO_CHAR, STAR, 100, 0] && c == Parsed(f, 0, -5, 0)
    ensures c == Conversion(true, false, false, false, true, false, 5, -1)
    ensures Formatted(42, true, false, BASE_D, c) == [48, 48, 48, 52, 50, 32, 32, 32]
  {
    assert FlagsEnd(f, 0) == FlagsEnd(f, 1) == 1;
    assert f[0..1] == [ZERO_CHAR];
    DigitsOf42(c);
    assert Reversed([50, 52]) == [52, 50];
  }

  lemma DigitsOf42(c: Conversion)
    requires !c.pound && !c.group && c.precision == -1
    ensures DigitBuffer(42, BASE_D, c) == [50, 52]
  {
    assert Digits(42, BASE_D, false, 0) == [50] + Digits(4, BASE_D, false, 1);
    assert Digits(4, BASE_D, false, 1) == [52] + Digits(0, BASE_D, false, 2);
  }
}

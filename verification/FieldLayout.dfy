/** lib/stdio.c, format_integer(): where the characters of the field are, and what each flag asks for. */
module FieldLayout {
  import opened Basics
  import opened Stdio

  const COMMA: int := 44

  // ---- Groups --------------------------------------------------------------------------------

  lemma NextMod(a: int, b: int, g: int)
    requires g >= 1 && a % g == b % g
    ensures (a + 1) % g == (b + 1) % g
  {
    var x := a % g;
    assert a == a / g * g + x && b == b / g * g + x;
    if x + 1 < g {
      ModIs(a + 1, a / g, x + 1, g);
      ModIs(b + 1, b / g, x + 1, g);
    } else {
      ModIs(a + 1, a / g + 1, 0, g);
      ModIs(b + 1, b / g + 1, 0, g);
    }
  }

  lemma ModIs(n: int, q: int, r: int, g: int)
    requires n == q * g + r && 0 <= r < g
    ensures n % g == r
  {
    var d := q - n / g;
    assert d * g == n % g - r by {
      assert n == n / g * g + n % g;
      assert (q - n / g) * g == q * g - n / g * g;
    }
    Multiple(d, g);
  }

  lemma Multiple(d: int, g: int)
    requires g >= 1
    ensures d * g <= -g || d == 0 || g <= d * g
  {
  }

  lemma ModShift(g: int, j: int)
    requires g >= 1 && j >= 1
    ensures (g + j) % (g + 1) == (j - 1) % (g + 1)
  {
    var q, r := (j - 1) / (g + 1), (j - 1) % (g + 1);
    assert j - 1 == q * (g + 1) + r;
    assert (q + 1) * (g + 1) == q * (g + 1) + (g + 1);
    ModIs(g + j, q + 1, r, g + 1);
  }

  /** `r` digits since the last comma, after `cnt` in all. */
  ghost predicate Since(cnt: int, r: int, g: int) {
    g >= 1 && ((cnt == 0 && r == 0) || (cnt > 0 && 1 <= r <= g && r % g == cnt % g))
  }

  lemma SinceNext(cnt: int, r: int, g: int)
    requires Since(cnt, r, g)
    ensures cnt > 0 && cnt % g == 0 <==> r == g
    ensures Since(cnt + 1, if r == g then 1 else r + 1, g)
  {
    ModIs(r, if r == g then 1 else 0, if r == g then 0 else r, g);
    NextMod(cnt, r, g);
    if r == g {
      ModIs(g + 1, if g == 1 then 2 else 1, if g == 1 then 0 else 1, g);
      ModIs(1, if g == 1 then 1 else 0, if g == 1 then 0 else 1, g);
    }
  }

  lemma {:induction false} CommaAt(value: int, b: Base, cnt: int, r: int, j: int)
    requires 2 <= b.base <= 16 && Since(cnt, r, b.group) && 0 <= j < |Digits(value, b, true, cnt)|
    ensures Digits(value, b, true, cnt)[j] == COMMA <==> (r + j) % (b.group + 1) == b.group
    decreases value
  {
    DivLess(value, b.base);
    DigitBack(value % b.base, b.upper);
    SinceNext(cnt, r, b.group);
    var first, rest := if r == b.group then 2 else 1, Digits(value / b.base, b, true, cnt + 1);
    var r' := if r == b.group then 1 else r + 1;
    if j >= first {
      CommaAt(value / b.base, b, cnt + 1, r', j - first);
    }
    CommaStep(DigitChar(value % b.base, b.upper), rest, b.group, r, j);
  }

  /** One digit, with the comma before it if there is one, and what follows. */
  lemma CommaStep(d: int, rest: seq<int>, g: int, r: int, j: int)
    requires 0 <= r <= g && g >= 1 && d != COMMA && 0 <= j < |rest| + if r == g then 2 else 1
    requires r < g && j >= 1 ==> (rest[j - 1] == COMMA <==> (r + 1 + (j - 1)) % (g + 1) == g)
    requires r == g && j >= 2 ==> (rest[j - 2] == COMMA <==> (1 + (j - 2)) % (g + 1) == g)
    ensures ((if r == g then [COMMA] else []) + ([d] + rest))[j] == COMMA <==> (r + j) % (g + 1) == g
  {
    if j == 0 {
      ModIs(r, 0, r, g + 1);
    } else if r == g {
      ModShift(g, j);
      if j == 1 {
        ModIs(0, 0, 0, g + 1);
      }
    }
  }

  lemma {:induction false} NoCommas(value: int, b: Base, cnt: int, j: int)
    requires b.base <= 16 && 0 <= j < |Digits(value, b, false, cnt)|
    ensures Digits(value, b, false, cnt)[j] != COMMA
    decreases value
  {
    DivLess(value, b.base);
    DigitBack(value % b.base, b.upper);
    if j > 0 {
      NoCommas(value / b.base, b, cnt + 1, j - 1);
    }
  }

  lemma {:induction false} TopDigit(value: int, b: Base, commas: bool, cnt: int)
    requires value > 0 && 2 <= b.base <= 16 && b.group >= 1
    ensures var d := Digits(value, b, commas, cnt); d != [] && d[|d| - 1] != COMMA && d[|d| - 1] != ZERO_CHAR
    decreases value
  {
    DivLess(value, b.base);
    DigitBack(value % b.base, b.upper);
    if value / b.base > 0 {
      TopDigit(value / b.base, b, commas, cnt + 1);
    }
  }

  /** Counted from the least significant digit, there is a comma after each group of digits that more follow, if the
      conversion asks for groups, and no other; the most significant digit is not zero. */
  lemma CommasBetweenGroups(value: int, b: Base, commas: bool)
    requires 0 <= value && 2 <= b.base <= 16 && b.group >= 1
    ensures var d := Digits(value, b, commas, 0);
            && (forall j :: 0 <= j < |d| ==> (d[j] == COMMA <==> commas && j % (b.group + 1) == b.group))
            && (value > 0 ==> d != [] && d[|d| - 1] != COMMA && d[|d| - 1] != ZERO_CHAR)
            && (value == 0 ==> d == [])
  {
    var d := Digits(value, b, commas, 0);
    forall j | 0 <= j < |d|
      ensures d[j] == COMMA <==> commas && j % (b.group + 1) == b.group
    {
      if commas {
        CommaAt(value, b, 0, 0, j);
      } else {
        NoCommas(value, b, 0, j);
      }
    }
    if value > 0 {
      TopDigit(value, b, commas, 0);
    }
  }

  // ---- Precision -----------------------------------------------------------------------------

  /** The digits that the precision asks for, as far as the buffer goes; at least one if none is given. */
  function Least(c: Conversion): nat {
    if c.precision < 0 then 1 else if c.precision < BUFFER - 1 then c.precision else BUFFER - 1
  }

  /** The digits are those of the value, and as many zeros as the precision asks for and no more; octal with '#' begins
      with a zero, and has no more than that one for it. */
  lemma PrecisionIsLeast(value: int, b: Base, c: Conversion)
    requires 0 <= value && 2 <= b.base <= 16 && b.group >= 1
    ensures var all, d := DigitBuffer(value, b, c), Digits(value, b, c.group, 0);
            var octal := c.pound && b.base == 8;
            && Least(c) <= |all| && |d| <= |all| && all[..|d|] == d
            && (forall j :: |d| <= j < |all| ==> all[j] == ZERO_CHAR)
            && (octal ==> all != [] && all[|all| - 1] == ZERO_CHAR)
            && (|all| == Least(c) || |all| == |d| || (octal && |all| == |d| + 1))
  {
    var all, d := DigitBuffer(value, b, c), Digits(value, b, c.group, 0);
    var n := BufferIs(value, b, c);
    assert all[..|d|] == d;
    if value > 0 {
      TopDigit(value, b, c.group, 0);
    }
  }

  /** Zero is shown as nothing exactly if the precision is zero, but not in octal with '#'. */
  lemma ZeroIsShown(b: Base, c: Conversion)
    ensures DigitBuffer(0, b, c) == [] <==> c.precision == 0 && !(c.pound && b.base == 8)
  {
    assert Digits(0, b, c.group, 0) == [];
  }

  // ---- The field -----------------------------------------------------------------------------

  /** The character is in the field. */
  ghost predicate Shows(value: int, isSigned: bool, negative: bool, b: Base, c: Conversion, ch: int) {
    ch in Formatted(value, isSigned, negative, b, c)
  }

  lemma OutsideDigits(value: int, isSigned: bool, negative: bool, b: Base, c: Conversion, ch: int)
    requires b.base <= 16 && !DigitLike(ch) && ch != 32
    ensures Shows(value, isSigned, negative, b, c, ch) <==>
              ch in SignChar(isSigned, negative, c) || ch in Prefix(value, b, c)
  {
    NotInDigits(value, b, c, ch);
    PaddingIsPlaced(value, isSigned, negative, b, c);
  }

  lemma NotInDigits(value: int, b: Base, c: Conversion, ch: int)
    requires b.base <= 16 && !DigitLike(ch)
    ensures ch !in Reversed(DigitBuffer(value, b, c))
  {
    var d := Digits(value, b, c.group, 0);
    var n := BufferIs(value, b, c);
    forall i | 0 <= i < |d|
      ensures d[i] != ch
    {
      DigitsAreDigits(value, b, c.group, 0, i);
    }
    NotReversed(d + ZeroDigits(n), ch);
  }

  lemma NotReversed(s: seq<int>, ch: int)
    requires ch !in s
    ensures ch !in Reversed(s)
  {
  }

  /** A minus sign is shown exactly for a negative number and a plus sign exactly for one that is not, when the
      conversion is signed and asks for it. */
  lemma SignIsShown(value: int, isSigned: bool, negative: bool, b: Base, c: Conversion)
    requires b.base <= 16 && b.x != 43 && b.x != 45
    ensures Shows(value, isSigned, negative, b, c, 45) <==> isSigned && negative
    ensures Shows(value, isSigned, negative, b, c, 43) <==> isSigned && !negative && c.plus
  {
    OutsideDigits(value, isSigned, negative, b, c, 45);
    OutsideDigits(value, isSigned, negative, b, c, 43);
  }

  /** The `x' is shown exactly for a number other than zero with '#', in a base that has one. */
  lemma PrefixIsShown(value: int, isSigned: bool, negative: bool, b: Base, c: Conversion)
    requires b.base <= 16 && !DigitLike(b.x) && b.x !in {0, 32, 43, 45}
    ensures Shows(value, isSigned, negative, b, c, b.x) <==> c.pound && value != 0
  {
    OutsideDigits(value, isSigned, negative, b, c, b.x);
  }

  /** Letters among the digits are capital exactly if the base's are. */
  lemma {:induction false} CaseOfDigits(value: int, b: Base, commas: bool, cnt: int, j: int)
    requires b.base <= 16 && 0 <= j < |Digits(value, b, commas, cnt)|
    ensures var ch := Digits(value, b, commas, cnt)[j]; if b.upper then ch <= 70 else !(65 <= ch <= 70)
    decreases value
  {
    DivLess(value, b.base);
    var k := if commas && cnt > 0 && cnt % b.group == 0 then 2 else 1;
    if j >= k {
      CaseOfDigits(value / b.base, b, commas, cnt + 1, j - k);
    }
  }

  /** Where the field's padding is: in front without '-' and '0', behind with '-', and with '0' between the sign and
      the digits. */
  lemma PaddingIsPlaced(value: int, isSigned: bool, negative: bool, b: Base, c: Conversion)
    ensures var out, pad := Formatted(value, isSigned, negative, b, c),
              c.width - Needed(value, isSigned, negative, b, c);
            var lead, digits := SignChar(isSigned, negative, c) + Prefix(value, b, c),
              Reversed(DigitBuffer(value, b, c));
            && (!c.minus && !c.zero ==> out == Repeat(32, pad) + (lead + digits))
            && (c.minus && !c.zero ==> out == (lead + digits) + Repeat(32, pad))
            && (!c.minus && c.zero ==> out == lead + (Repeat(ZERO_CHAR, pad) + digits))
            && (c.minus && c.zero ==> out == lead + (Repeat(ZERO_CHAR, pad) + digits) + Repeat(32, pad))
  {
    var digits, sign, x := Reversed(DigitBuffer(value, b, c)), SignChar(isSigned, negative, c), Prefix(value, b, c);
    var pad := c.width - |digits| - |x| - |sign|;
    assert [] + sign + x == sign + x;
    Assoc(Repeat(32, pad), sign, x, digits);
    assert sign + x + ZeroDigits(pad) + digits == sign + x + (ZeroDigits(pad) + digits);
  }

  lemma Assoc(a: seq<int>, b: seq<int>, c: seq<int>, d: seq<int>)
    ensures a + b + c + d == a + (b + c + d)
  {
  }
}

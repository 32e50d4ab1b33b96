/** lib/stdio.c: integer conversions of printf() and bounded output. Characters are numbers. */
module Stdio {
  import opened Basics
  import opened Arithmetic

  const ZERO_CHAR: int := 48
  const BUFFER: int := 64

  datatype Conversion = Conversion(minus: bool, plus: bool, space: bool, pound: bool, zero: bool, group: bool,
                                   width: int, precision: int)

  /** A base with its `x' character, or 0, and how many digits make a group. */
  datatype Base = Base(base: int, upper: bool, x: int, group: int)

  const BASE_D: Base := Base(10, false, 0, 3)
  const BASE_O: Base := Base(8, false, 0, 3)

  function DigitChar(d: int, upper: bool): int {
    if d < 10 then ZERO_CHAR + d else if upper then 55 + d else 87 + d
  }

  /** The value of a digit, or -1 for any other character. */
  function DigitValue(c: int): int {
    if 48 <= c <= 57 then c - 48 else if 65 <= c <= 70 then c - 55 else if 97 <= c <= 102 then c - 87 else -1
  }

  // ---- The digits ----------------------------------------------------------------------------

  lemma DivLess(v: int, b: int)
    requires v > 0 && b >= 2
    ensures 0 <= v / b < v && v == v / b * b + v % b && 0 <= v % b < b
  {
    var q := v / b;
    assert v == q * b + v % b;
    if q > 0 {
      TwiceAtMost(q, b);
    }
  }

  lemma TwiceAtMost(q: int, b: int)
    requires q > 0 && b >= 2
    ensures q * b >= 2 * q
  {
  }

  /** The digits of `value` with the least significant first, after `cnt` others, with a comma between groups. */
  function Digits(value: int, b: Base, commas: bool, cnt: int): seq<int>
    decreases value
  {
    if value <= 0 || b.base < 2 || b.group < 1 then []
    else DivLess(value, b.base);
         (if commas && cnt > 0 && cnt % b.group == 0 then [44] else [])
         + ([DigitChar(value % b.base, b.upper)] + Digits(value / b.base, b, commas, cnt + 1))
  }

  function Repeat(c: int, n: int): (r: seq<int>)
    ensures |r| == if n < 0 then 0 else n
  {
    seq(if n < 0 then 0 else n, i => c)
  }

  function ZeroDigits(n: int): (r: seq<int>)
    ensures |r| == if n < 0 then 0 else n
  {
    Repeat(ZERO_CHAR, n)
  }

  /** The digit buffer: at least as many digits as the precision asks for, and a leading zero for octal with '#'. */
  function DigitBuffer(value: int, b: Base, c: Conversion): seq<int> {
    var precision := if c.precision < 0 then 1 else c.precision;
    var digits := Digits(value, b, c.group, 0);
    var want := if precision < BUFFER - 1 then precision else BUFFER - 1;
    var padded := digits + ZeroDigits(want - |digits|);
    if c.pound && b.base == 8 && (padded == [] || padded[|padded| - 1] != ZERO_CHAR) then padded + [ZERO_CHAR]
    else padded
  }

  function SignChar(isSigned: bool, negative: bool, c: Conversion): seq<int> {
    if !isSigned then []
    else if c.plus then [if negative then 45 else 43]
    else if c.space then [if negative then 45 else 32]
    else if negative then [45] else []
  }

  function Prefix(value: int, b: Base, c: Conversion): seq<int> {
    if c.pound && value != 0 && b.x != 0 then [ZERO_CHAR, b.x] else []
  }

  /** What comes before the digits: blanks, the sign, `0x', and zeros. */
  function Lead(sign: seq<int>, x: seq<int>, c: Conversion, pad: int): seq<int> {
    var front := (if c.minus || c.zero then [] else Repeat(32, pad)) + sign + x;
    if c.zero then front + ZeroDigits(pad) else front
  }

  /** All that format_integer() puts out. */
  function Formatted(value: int, isSigned: bool, negative: bool, b: Base, c: Conversion): seq<int> {
    var digits, sign, x := DigitBuffer(value, b, c), SignChar(isSigned, negative, c), Prefix(value, b, c);
    var pad := c.width - |digits| - |x| - |sign|;
    var all := Lead(sign, x, c, pad) + Reversed(digits);
    if c.minus then all + Repeat(32, pad) else all
  }

  // ---- Reading them back ---------------------------------------------------------------------

  /** The value of a string of digits, commas ignored. */
  function Read(s: seq<int>, base: int): int {
    if s == [] then 0
    else if s[|s| - 1] == 44 then Read(s[..|s| - 1], base)
    else Read(s[..|s| - 1], base) * base + DigitValue(s[|s| - 1])
  }

  lemma DigitBack(d: int, upper: bool)
    requires 0 <= d < 16
    ensures DigitValue(DigitChar(d, upper)) == d && DigitChar(d, upper) != 44
  {
  }

  lemma ReversedStep(c: int, s: seq<int>)
    ensures Reversed([c] + s) == Reversed(s) + [c]
  {
  }

  lemma ReadStep(s: seq<int>, c: int, base: int)
    ensures Read(s + [c], base) == if c == 44 then Read(s, base) else Read(s, base) * base + DigitValue(c)
  {
    assert (s + [c])[..|s|] == s;
  }

  /** The digits, most significant first, are those of the value; with zeros in front they are still. */
  lemma {:induction false} DigitsReadBack(value: int, b: Base, commas: bool, cnt: int, zeros: int)
    requires 0 <= value && 2 <= b.base <= 16 && b.group >= 1 && zeros >= 0
    ensures Read(Reversed(Digits(value, b, commas, cnt) + ZeroDigits(zeros)), b.base) == value
    decreases value
  {
    if value == 0 {
      ReadZeros(zeros, b.base);
      assert Digits(value, b, commas, cnt) + ZeroDigits(zeros) == ZeroDigits(zeros);
    } else {
      var d := DigitChar(value % b.base, b.upper);
      var rest := Digits(value / b.base, b, commas, cnt + 1);
      DivLess(value, b.base);
      DigitsReadBack(value / b.base, b, commas, cnt + 1, zeros);
      DigitBack(value % b.base, b.upper);
      DigitInFront(value, b.base, d, rest + ZeroDigits(zeros), commas && cnt > 0 && cnt % b.group == 0);
      assert Digits(value, b, commas, cnt) + ZeroDigits(zeros)
          == (if commas && cnt > 0 && cnt % b.group == 0 then [44] else []) + ([d] + (rest + ZeroDigits(zeros)));
    }
  }

  lemma DigitInFront(value: int, base: int, d: int, tail: seq<int>, comma: bool)
    requires value > 0 && base >= 2 && d != 44 && DigitValue(d) == value % base
    requires Read(Reversed(tail), base) == value / base
    ensures Read(Reversed((if comma then [44] else []) + ([d] + tail)), base) == value
  {
    DivLess(value, base);
    ReversedStep(d, tail);
    ReadStep(Reversed(tail), d, base);
    ReversedStep(44, [d] + tail);
    ReadStep(Reversed([d] + tail), 44, base);
    assert [] + ([d] + tail) == [d] + tail;
  }

  lemma {:induction false} ReadZeros(n: int, base: int)
    requires n >= 0
    ensures Read(Reversed(ZeroDigits(n)), base) == 0
  {
    if n > 0 {
      ReadZeros(n - 1, base);
      assert ZeroDigits(n) == [ZERO_CHAR] + ZeroDigits(n - 1);
      ReversedStep(ZERO_CHAR, ZeroDigits(n - 1));
      ReadStep(Reversed(ZeroDigits(n - 1)), ZERO_CHAR, base);
    }
  }

  lemma BufferIs(value: int, b: Base, c: Conversion) returns (n: nat)
    ensures DigitBuffer(value, b, c) == Digits(value, b, c.group, 0) + ZeroDigits(n)
  {
    var digits, all := Digits(value, b, c.group, 0), DigitBuffer(value, b, c);
    n := |all| - |digits|;
  }

  lemma ZerosInFront(digits: seq<int>, n: nat, pad: nat)
    ensures ZeroDigits(pad) + Reversed(digits + ZeroDigits(n)) == Reversed(digits + ZeroDigits(n + pad))
  {
  }

  /** format_integer()'s digits, with the zeros that fill the field, are those of the value. */
  lemma FormattedReadsBack(value: int, b: Base, c: Conversion, pad: nat)
    requires 0 <= value && 2 <= b.base <= 16 && b.group >= 1
    ensures Read(ZeroDigits(pad) + Reversed(DigitBuffer(value, b, c)), b.base) == value
  {
    var n := BufferIs(value, b, c);
    DigitsReadBack(value, b, c.group, 0, n + pad);
    ZerosInFront(Digits(value, b, c.group, 0), n, pad);
  }

  // ---- The whole field -----------------------------------------------------------------------

  /** The characters that the conversion needs without padding. */
  function Needed(value: int, isSigned: bool, negative: bool, b: Base, c: Conversion): nat {
    |SignChar(isSigned, negative, c)| + |Prefix(value, b, c)| + |DigitBuffer(value, b, c)|
  }

  /** The output is as long as the width or as what is needed, whichever is more, exactly if '-' and '0' are not
      together or there is nothing to pad; with both the padding is there twice. */
  lemma FormattedLength(value: int, isSigned: bool, negative: bool, b: Base, c: Conversion)
    ensures var n, out := Needed(value, isSigned, negative, b, c), Formatted(value, isSigned, negative, b, c);
            && |out| == (if c.width <= n then n else if c.minus && c.zero then 2 * c.width - n else c.width)
            && (|out| == (if c.width < n then n else c.width) <==> !(c.minus && c.zero && n < c.width))
  {
  }

  /** Without the blanks in front. */
  function Strip(s: seq<int>): seq<int> {
    if s != [] && s[0] == 32 then Strip(s[1..]) else s
  }

  /** Without the blanks behind. */
  function StripEnd(s: seq<int>): seq<int> {
    if s != [] && s[|s| - 1] == 32 then StripEnd(s[..|s| - 1]) else s
  }

  /** The number that a field shows: blanks, a sign, `0x', and digits. */
  function ReadField(s: seq<int>, b: Base): int {
    var t := StripEnd(Strip(s));
    var u := if t != [] && (t[0] == 43 || t[0] == 45) then t[1..] else t;
    var v := if |u| >= 2 && b.x != 0 && u[1] == b.x then u[2..] else u;
    if t != [] && t[0] == 45 then -Read(v, b.base) else Read(v, b.base)
  }

  predicate DigitLike(c: int) {
    c == 44 || DigitValue(c) >= 0
  }

  lemma {:induction false} DigitsAreDigits(value: int, b: Base, commas: bool, cnt: int, i: int)
    requires b.base <= 16 && 0 <= i < |Digits(value, b, commas, cnt)|
    ensures DigitLike(Digits(value, b, commas, cnt)[i])
    decreases value
  {
    DivLess(value, b.base);
    DigitBack(value % b.base, b.upper);
    var k := if commas && cnt > 0 && cnt % b.group == 0 then 2 else 1;
    if i >= k {
      DigitsAreDigits(value / b.base, b, commas, cnt + 1, i - k);
    }
  }

  /** The digits of the field, with the zeros that fill it. */
  function Body(value: int, b: Base, c: Conversion, pad: int): seq<int> {
    (if c.zero then ZeroDigits(pad) else []) + Reversed(DigitBuffer(value, b, c))
  }

  lemma BodyIsDigits(value: int, b: Base, c: Conversion, pad: int, i: int)
    requires b.base <= 16 && 0 <= i < |Body(value, b, c, pad)|
    ensures DigitLike(Body(value, b, c, pad)[i])
  {
    var n := BufferIs(value, b, c);
    var d := Digits(value, b, c.group, 0);
    var j := |d| + n - 1 - (i - if c.zero then |ZeroDigits(pad)| else 0);
    if 0 <= j < |d| {
      DigitsAreDigits(value, b, c.group, 0, j);
    }
  }

  lemma {:induction false} StripBlanks(k: int, s: seq<int>)
    requires s == [] || s[0] != 32
    ensures Strip(Repeat(32, k) + s) == s
  {
    if k > 0 {
      StripBlanks(k - 1, s);
      assert (Repeat(32, k) + s)[1..] == Repeat(32, k - 1) + s;
    } else {
      assert Repeat(32, k) + s == s;
    }
  }

  lemma {:induction false} StripEndBlanks(s: seq<int>, k: int)
    requires s == [] || s[|s| - 1] != 32
    ensures StripEnd(s + Repeat(32, k)) == s
  {
    if k > 0 {
      StripEndBlanks(s, k - 1);
      assert (s + Repeat(32, k))[..|s| + k - 1] == s + Repeat(32, k - 1);
    } else {
      assert s + Repeat(32, k) == s;
    }
  }

  /** Blanks, then something that is not blank at either end, then blanks. */
  lemma StripBoth(k: int, s: seq<int>, l: int)
    requires s != [] && s[0] != 32 && s[|s| - 1] != 32
    ensures StripEnd(Strip(Repeat(32, k) + (s + Repeat(32, l)))) == s
  {
    StripBlanks(k, s + Repeat(32, l));
    StripEndBlanks(s, l);
  }

  lemma {:induction false} StripAll(k: int)
    ensures StripEnd(Strip(Repeat(32, k))) == []
  {
    StripBlanks(k, []);
    assert Repeat(32, k) + [] == Repeat(32, k);
  }

  /** The sign, unless it is a blank. */
  function Mark(isSigned: bool, negative: bool, c: Conversion): seq<int> {
    if SignChar(isSigned, negative, c) == [32] then [] else SignChar(isSigned, negative, c)
  }

  /** The field is blanks, what is to be read, and blanks. */
  lemma FieldShape(value: int, isSigned: bool, negative: bool, b: Base, c: Conversion) returns (k: nat, pad: int)
    ensures Formatted(value, isSigned, negative, b, c)
         == Repeat(32, k) + (Mark(isSigned, negative, c) + Prefix(value, b, c) + Body(value, b, c, pad)
                             + Repeat(32, if c.minus then pad else 0))
  {
    var sign, x, digits := SignChar(isSigned, negative, c), Prefix(value, b, c), Reversed(DigitBuffer(value, b, c));
    pad := c.width - |digits| - |x| - |sign|;
    k := (if c.minus || c.zero || pad < 0 then 0 else pad) + if sign == [32] then 1 else 0;
    var front := if c.minus || c.zero then [] else Repeat(32, pad);
    MarkAndSign(front, sign, k);
    Rejoined(front, sign, Repeat(32, k), Mark(isSigned, negative, c), x, if c.zero then ZeroDigits(pad) else [], digits,
             Repeat(32, if c.minus then pad else 0));
    assert front + sign + x + [] == front + sign + x;
  }

  lemma MarkAndSign(front: seq<int>, sign: seq<int>, k: nat)
    requires k == |front| + (if sign == [32] then 1 else 0) && front == Repeat(32, |front|)
    ensures Repeat(32, k) + (if sign == [32] then [] else sign) == front + sign
  {
  }

  lemma Rejoined(front: seq<int>, sign: seq<int>, blanks: seq<int>, mark: seq<int>, x: seq<int>, zeros: seq<int>,
                 digits: seq<int>, last: seq<int>)
    requires blanks + mark == front + sign
    ensures front + sign + x + zeros + digits + last == blanks + (mark + x + (zeros + digits) + last)
  {
    assert blanks + (mark + x + (zeros + digits) + last) == (blanks + mark) + x + zeros + digits + last;
  }

  /** Taking the sign and the prefix off leaves the digits. */
  lemma CoreReads(mark: seq<int>, x: seq<int>, body: seq<int>, b: Base, t: seq<int>)
    requires (mark == [] || mark == [43] || mark == [45]) && (x == [] || (b.x != 0 && x == [ZERO_CHAR, b.x]))
    requires (forall i :: 0 <= i < |body| ==> DigitLike(body[i])) && !DigitLike(b.x)
    requires t == mark + x + body
    ensures var u := if t != [] && (t[0] == 43 || t[0] == 45) then t[1..] else t;
            var v := if |u| >= 2 && b.x != 0 && u[1] == b.x then u[2..] else u;
            v == body && (t != [] && t[0] == 45 <==> mark == [45])
  {
    var u := if t != [] && (t[0] == 43 || t[0] == 45) then t[1..] else t;
    assert u == x + body;
    if x == [] {
      assert u == body;
    }
  }

  /** The whole output reads back as the number with its sign. */
  lemma FieldReadsBack(value: int, isSigned: bool, negative: bool, b: Base, c: Conversion)
    requires 0 <= value && 2 <= b.base <= 16 && b.group >= 1 && !DigitLike(b.x) && b.x != 32
    ensures ReadField(Formatted(value, isSigned, negative, b, c), b) == if isSigned && negative then -value else value
  {
    var k, pad := FieldShape(value, isSigned, negative, b, c);
    var mark, x, body := Mark(isSigned, negative, c), Prefix(value, b, c), Body(value, b, c, pad);
    forall i | 0 <= i < |body|
      ensures DigitLike(body[i])
    {
      BodyIsDigits(value, b, c, pad, i);
    }
    BodyReads(value, b, c, pad);
    CoreReads(mark, x, body, b, mark + x + body);
    StripCore(k, mark, x, body, if c.minus then pad else 0, b);
  }

  lemma BodyReads(value: int, b: Base, c: Conversion, pad: int)
    requires 0 <= value && 2 <= b.base <= 16 && b.group >= 1
    ensures Read(Body(value, b, c, pad), b.base) == value
  {
    var n := if c.zero && pad > 0 then pad else 0;
    FormattedReadsBack(value, b, c, n);
    assert Body(value, b, c, pad) == ZeroDigits(n) + Reversed(DigitBuffer(value, b, c));
  }

  lemma StripCore(k: nat, mark: seq<int>, x: seq<int>, body: seq<int>, l: int, b: Base)
    requires (mark == [] || mark == [43] || mark == [45]) && (x == [] || x == [ZERO_CHAR, b.x]) && b.x != 32
    requires forall i :: 0 <= i < |body| ==> DigitLike(body[i])
    ensures StripEnd(Strip(Repeat(32, k) + (mark + x + body + Repeat(32, l)))) == mark + x + body
  {
    var s := mark + x + body;
    if s == [] {
      var n := k + if l < 0 then 0 else l;
      assert Repeat(32, k) + (s + Repeat(32, l)) == Repeat(32, n);
      StripAll(n);
    } else {
      StripBoth(k, s, l);
    }
  }

  // ---- format_integer() ----------------------------------------------------------------------

  /** The digits of a 64-bit number in base 8 or more fit in the buffer, commas and all. */
  lemma {:induction false} DigitsFit(value: int, b: Base, commas: bool, cnt: int, k: nat)
    requires 8 <= b.base && 0 <= value < Pow2(3 * k)
    ensures |Digits(value, b, commas, cnt)| <= 2 * k
    decreases k
  {
    if value > 0 && b.group >= 1 {
      assert k > 0;
      assert Pow2(3 * k) == 8 * Pow2(3 * (k - 1)) by { EightTimes(k); }
      DivAtMost(value, b.base, Pow2(3 * (k - 1)));
      DigitsFit(value / b.base, b, commas, cnt + 1, k - 1);
    }
  }

  lemma EightTimes(k: nat)
    requires k > 0
    ensures Pow2(3 * k) == 8 * Pow2(3 * (k - 1))
  {
    assert Pow2(3 * k) == 2 * Pow2(3 * k - 1) && Pow2(3 * k - 1) == 2 * Pow2(3 * k - 2);
    assert Pow2(3 * k - 2) == 2 * Pow2(3 * k - 3);
  }

  lemma DivAtMost(v: int, b: int, p: int)
    requires 0 < v < 8 * p && b >= 8
    ensures 0 <= v / b < p
  {
    DivLess(v, b);
    if v / b >= p {
      Product(v / b, b, p);
    }
  }

  lemma Product(q: int, b: int, p: int)
    requires q >= p > 0 && b >= 8
    ensures q * b >= 8 * p
  {
    assert q * b >= q * 8;
  }

  method Append(buf: array<int>, cp: int, c: int) returns (cp': int)
    requires 0 <= cp < buf.Length
    modifies buf
    ensures cp' == cp + 1 && buf[..cp'] == old(buf[..cp]) + [c]
  {
    buf[cp] := c;
    cp' := cp + 1;
  }

  /** One round of the first loop. */
  method AccumulateDigit(value: int, b: Base, commas: bool, cnt: int, buf: array<int>, cp0: int) returns (cp: int)
    requires 0 < value && 2 <= b.base && b.group >= 1 && 0 <= cp0 && cp0 + |Digits(value, b, commas, cnt)| <= buf.Length
    modifies buf
    ensures 0 <= cp <= buf.Length
    ensures buf[..cp] + Digits(value / b.base, b, commas, cnt + 1) == old(buf[..cp0]) + Digits(value, b, commas, cnt)
  {
    cp := cp0;
    ghost var before, rest := buf[..cp], Digits(value / b.base, b, commas, cnt + 1);
    var d := DigitChar(value % b.base, b.upper);
    if commas && cnt > 0 && cnt % b.group == 0 {
      assert Digits(value, b, commas, cnt) == [44] + ([d] + rest);
      cp := Append(buf, cp, 44);
      cp := Append(buf, cp, d);
    } else {
      assert Digits(value, b, commas, cnt) == [] + ([d] + rest);
      cp := Append(buf, cp, d);
    }
  }

  /** The first loop of format_integer(), into the buffer. */
  method AccumulateDigits(value0: int, b: Base, commas: bool, buf: array<int>) returns (cp: int)
    requires 0 <= value0 && 2 <= b.base && b.group >= 1 && |Digits(value0, b, commas, 0)| <= buf.Length
    modifies buf
    ensures 0 <= cp <= buf.Length && buf[..cp] == Digits(value0, b, commas, 0)
  {
    ghost var goal := Digits(value0, b, commas, 0);
    var value, cnt := value0, 0;
    cp := 0;
    while value > 0
      invariant 0 <= value && 0 <= cnt && 0 <= cp <= buf.Length && buf[..cp] + Digits(value, b, commas, cnt) == goal
      decreases value
    {
      assert cp + |Digits(value, b, commas, cnt)| == |goal|;
      cp := AccumulateDigit(value, b, commas, cnt, buf, cp);
      DivLess(value, b.base);
      value := value / b.base;
      cnt := cnt + 1;
    }
  }

  /** The second loop: zeros to match the precision. */
  method AppendZeros(precision: int, buf: array<int>, cp0: int, ghost digits: seq<int>) returns (cp: int)
    requires buf.Length == BUFFER && 0 <= cp0 < BUFFER && buf[..cp0] == digits
    modifies buf
    ensures var want := if precision < BUFFER - 1 then precision else BUFFER - 1;
            0 <= cp < BUFFER && buf[..cp] == digits + ZeroDigits(want - |digits|)
  {
    cp := cp0;
    while cp < precision && cp < BUFFER - 1
      invariant |digits| <= cp < BUFFER && buf[..cp] == digits + ZeroDigits(cp - |digits|)
      invariant cp <= precision || cp == |digits|
    {
      cp := Append(buf, cp, ZERO_CHAR);
      assert ZeroDigits(cp - |digits|) == ZeroDigits(cp - 1 - |digits|) + [ZERO_CHAR];
    }
  }

  /** The digit buffer. */
  method FillDigits(value: int, b: Base, c: Conversion, buf: array<int>) returns (cp: int)
    requires buf.Length == BUFFER && 0 <= value && 2 <= b.base && b.group >= 1
    requires |Digits(value, b, c.group, 0)| < BUFFER
    modifies buf
    ensures 0 <= cp <= BUFFER && buf[..cp] == DigitBuffer(value, b, c)
  {
    cp := AccumulateDigits(value, b, c.group, buf);
    cp := AppendZeros(if c.precision < 0 then 1 else c.precision, buf, cp, Digits(value, b, c.group, 0));
    if c.pound && b.base == 8 && (cp == 0 || buf[cp - 1] != ZERO_CHAR) {
      cp := Append(buf, cp, ZERO_CHAR);
    }
  }

  /** output_dup(). */
  method OutputDup(out: seq<int>, ch: int, cnt: int) returns (r: seq<int>)
    ensures r == out + Repeat(ch, cnt)
  {
    r := out;
    var i := 0;
    while i < cnt
      invariant 0 <= i && (i <= cnt || i == 0) && r == out + Repeat(ch, i)
    {
      r := r + [ch];
      i := i + 1;
      assert Repeat(ch, i) == Repeat(ch, i - 1) + [ch];
    }
  }

  /** The last loop: the buffer from its end to its start. */
  method OutputDigits(out: seq<int>, buf: array<int>, cp0: int) returns (r: seq<int>)
    requires 0 <= cp0 <= buf.Length
    ensures r == out + Reversed(buf[..cp0])
  {
    r := out;
    ghost var all := buf[..cp0];
    var cp := cp0;
    while cp > 0
      invariant 0 <= cp <= cp0 && r == out + Reversed(all[cp..])
    {
      cp := cp - 1;
      r := r + [buf[cp]];
      assert all[cp..] == [all[cp]] + all[cp + 1..];
      ReversedStep(all[cp], all[cp + 1..]);
    }
  }

  lemma Pow66()
    ensures WW <= Pow2(66)
  {
    Pow2Of32();
    Pow2Add(32, 34);
    Pow2Add(32, 2);
    assert Pow2(2) == 4;
  }

  method OutputLead(sign: seq<int>, x: seq<int>, c: Conversion, pad: int) returns (out: seq<int>)
    ensures out == Lead(sign, x, c, pad)
  {
    out := [];
    if !c.minus && !c.zero {
      out := OutputDup(out, 32, pad);
    }
    out := out + sign + x;
    if c.zero {
      out := OutputDup(out, ZERO_CHAR, pad);
    }
  }

  /** format_integer(): what it passes to `output`, character by character. */
  method FormatInteger(value: int, isSigned: bool, negative: bool, b: Base, c: Conversion) returns (out: seq<int>)
    requires 0 <= value < WW && 8 <= b.base <= 16 && b.group >= 1
    ensures out == Formatted(value, isSigned, negative, b, c)
  {
    Pow66();
    DigitsFit(value, b, c.group, 0, 22);
    var buf := new int[BUFFER];
    var cp := FillDigits(value, b, c, buf);
    var sign, x := SignChar(isSigned, negative, c), Prefix(value, b, c);
    var pad := c.width - cp - |x| - |sign|;
    out := OutputLead(sign, x, c, pad);
    out := OutputDigits(out, buf, cp);
    if c.minus {
      out := OutputDup(out, 32, pad);
    }
  }

  // ---- vsnprintf() ---------------------------------------------------------------------------

  /** What vsnprintf() leaves in a buffer of `size` bytes when it formats `out`. */
  function Bounded(out: seq<int>, size: nat): (r: seq<int>)
    ensures |r| <= size
  {
    if size == 0 then [] else (if |out| < size then out else out[..size - 1]) + [0]
  }

  /** vsnprintf_helper() for each character, and the null byte at the end: nothing is written beyond the field, and
      the length returned is that of the whole output. */
  method Snprintf(buffer: array<int>, start: nat, size: nat, out: seq<int>) returns (length: int)
    requires start + size <= buffer.Length
    modifies buffer
    ensures length == |out|
    ensures forall i :: 0 <= i < buffer.Length ==>
              buffer[i] == if start <= i < start + |Bounded(out, size)| then Bounded(out, size)[i - start]
                else old(buffer[i])
  {
    length := 0;
    var p, maxLength := start, if size > 0 then size - 1 else 0;
    while length < |out|
      invariant 0 <= length <= |out| && p == start + if length < maxLength then length else maxLength
      invariant forall i :: 0 <= i < buffer.Length ==>
                  buffer[i] == if start <= i < p then out[i - start] else old(buffer[i])
    {
      if length < maxLength {
        buffer[p] := out[length];
        p := p + 1;
      }
      length := length + 1;
    }
    if size > 0 {
      buffer[p] := 0;
    }
  }
}

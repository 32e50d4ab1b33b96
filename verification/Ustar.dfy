/** lib/ustar.c: headers of tape archives, the "ustar Interchange Format" of the POSIX pax utility. */
module Ustar {
  import opened Basics
  import opened Arithmetic
  import opened Bytes
  import opened Stdio

  const SIZE: int := 512
  const REGULAR: int := 48
  const DIRECTORY: int := 53
  const SLASH: int := 47
  const DOT: int := 46
  const INT_MAX: int := 0x7fff_ffff

  datatype Error =
    | NotUstar | BadVersion | CorruptChksum | ChksumMismatch | NameTooLong | BadType | CorruptSize | TooLarge

  datatype Result = EndOfArchive | Entry(name: seq<int>, typ: int, size: int) | Failure(error: Error)

  // ---- Names ---------------------------------------------------------------------------------

  /** Whether a name starts with "/", "./" or "../". */
  predicate StartsBadly(s: seq<int>): (bad: bool)
    ensures bad ==> SLASH in s
  {
    || (|s| >= 1 && s[0] == SLASH)
    || (|s| >= 2 && s[0] == DOT && s[1] == SLASH)
    || (|s| >= 3 && s[0] == DOT && s[1] == DOT && s[2] == SLASH)
  }

  /** What follows the first slash, if there is one. */
  function AfterSlash(s: seq<int>): (r: seq<int>)
    ensures SLASH in s ==> |r| < |s|
  {
    if s == [] then [] else if s[0] == SLASH then s[1..] else AfterSlash(s[1..])
  }

  /** strip_antisocial_prefixes(). */
  function Strip(s: seq<int>): (r: seq<int>)
    decreases |s|
  {
    if StartsBadly(s) then Strip(AfterSlash(s)) else if s == [] || s == [DOT, DOT] then [DOT] else s
  }

  /** A stripped name is not empty, does not start with a prefix that leads elsewhere, and is not the parent. */
  lemma {:induction false} StripIsSafe(s: seq<int>)
    ensures !StartsBadly(Strip(s)) && Strip(s) != [] && Strip(s) != [DOT, DOT]
    decreases |s|
  {
    if StartsBadly(s) {
      StripIsSafe(AfterSlash(s));
    }
  }

  lemma StripIdempotent(s: seq<int>)
    ensures Strip(Strip(s)) == Strip(s)
  {
    StripIsSafe(s);
  }

  lemma {:induction false} StripKeepsChars(s: seq<int>, c: int)
    requires c in Strip(s)
    ensures c in s || c == DOT
    decreases |s|
  {
    if StartsBadly(s) {
      StripKeepsChars(AfterSlash(s), c);
      AfterSlashChars(s, c);
    }
  }

  lemma {:induction false} AfterSlashChars(s: seq<int>, c: int)
    ensures c in AfterSlash(s) ==> c in s
  {
    if s != [] && s[0] != SLASH {
      AfterSlashChars(s[1..], c);
    }
  }

  /** One of "/", "./" and "../". */
  ghost predicate IsPrefix(x: seq<int>) {
    x == [SLASH] || x == [DOT, SLASH] || x == [DOT, DOT, SLASH]
  }

  ghost function Joined(xs: seq<seq<int>>): seq<int> {
    if xs == [] then [] else xs[0] + Joined(xs[1..])
  }

  /** Exactly the prefixes are taken off, as many as there are: what is left is the rest of the name, or "." for an
      empty rest or "..". Every name is such prefixes and a rest that starts with none. */
  lemma {:induction false} StripTakesPrefixes(xs: seq<seq<int>>, rest: seq<int>)
    requires (forall i :: 0 <= i < |xs| ==> IsPrefix(xs[i])) && forall x :: IsPrefix(x) ==> !(x <= rest)
    ensures Strip(Joined(xs) + rest) == if rest == [] || rest == [DOT, DOT] then [DOT] else rest
  {
    if xs == [] {
      assert Joined(xs) + rest == rest;
      GoodStart(rest);
    } else {
      StripTakesPrefixes(xs[1..], rest);
      var more := Joined(xs[1..]) + rest;
      assert Joined(xs) + rest == xs[0] + more;
      TakesOne(xs[0], more);
    }
  }

  lemma TakesOne(x: seq<int>, more: seq<int>)
    requires IsPrefix(x)
    ensures StartsBadly(x + more) && AfterSlash(x + more) == more
  {
    var s := x + more;
    assert s[|x|..] == more && s[|x| - 1] == SLASH;
    if |x| == 3 {
      assert s[1..][1..][1..] == more;
      assert AfterSlash(s) == AfterSlash(s[1..]) == AfterSlash(s[1..][1..]);
    } else if |x| == 2 {
      assert s[1..][1..] == more;
      assert AfterSlash(s) == AfterSlash(s[1..]);
    }
  }

  lemma GoodStart(s: seq<int>)
    requires forall x :: IsPrefix(x) ==> !(x <= s)
    ensures !StartsBadly(s)
  {
    assert IsPrefix([SLASH]) && IsPrefix([DOT, SLASH]) && IsPrefix([DOT, DOT, SLASH]);
  }

  lemma {:induction false} SplitPrefixes(s: seq<int>) returns (xs: seq<seq<int>>, rest: seq<int>)
    ensures s == Joined(xs) + rest
    ensures (forall i :: 0 <= i < |xs| ==> IsPrefix(xs[i])) && forall x :: IsPrefix(x) ==> !(x <= rest)
    decreases |s|
  {
    if x :| IsPrefix(x) && x <= s {
      var ys;
      ys, rest := SplitPrefixes(s[|x|..]);
      xs := [x] + ys;
      assert xs[1..] == ys && s == x + s[|x|..];
      assert x + (Joined(ys) + rest) == (x + Joined(ys)) + rest;
    } else {
      xs, rest := [], s;
    }
  }

  method StripPrefixes(name: seq<int>) returns (r: seq<int>)
    ensures r == Strip(name)
  {
    r := name;
    while StartsBadly(r)
      invariant Strip(r) == Strip(name)
      decreases |r|
    {
      r := AfterSlash(r);
    }
    if r == [] || r == [DOT, DOT] {
      r := [DOT];
    }
  }

  // ---- Octal fields --------------------------------------------------------------------------

  predicate Octal(c: int) {
    48 <= c <= 55
  }

  /** parse_octal_field() from offset `ofs` on. */
  function ParseFrom(s: seq<int>, ofs: int, value: int): Option<int>
    requires 0 <= ofs <= |s|
    decreases |s| - ofs
  {
    if ofs == |s| then None
    else if Octal(s[ofs]) then
      if value > (W - 1) / 8 then None else ParseFrom(s, ofs + 1, s[ofs] - 48 + value * 8)
    else if s[ofs] == 32 || s[ofs] == 0 then if ofs > 0 then Some(value) else None
    else None
  }

  /** The field is digits and then `c`, which is none: it has a value exactly if there is a digit, `c` is a blank or
      null, and the value fits in 32 bits. */
  lemma ParsesExactly(digits: seq<int>, c: int, more: seq<int>)
    requires (forall i :: 0 <= i < |digits| ==> Octal(digits[i])) && !Octal(c)
    ensures ParseFrom(digits + [c] + more, 0, 0)
         == if digits != [] && (c == 32 || c == 0) && Read(digits, 8) < W then Some(Read(digits, 8)) else None
  {
    assert digits[..0] == [];
    ParsesOn(digits, c, more, 0);
    assert digits[..|digits|] == digits;
  }

  lemma {:induction false} ParsesOn(digits: seq<int>, c: int, more: seq<int>, k: nat)
    requires k <= |digits| && (forall i :: 0 <= i < |digits| ==> Octal(digits[i])) && !Octal(c)
    requires 0 <= Read(digits[..k], 8) < W
    ensures ParseFrom(digits + [c] + more, k, Read(digits[..k], 8))
         == if digits != [] && (c == 32 || c == 0) && Read(digits, 8) < W then Some(Read(digits, 8)) else None
    decreases |digits| - k
  {
    var s, v := digits + [c] + more, Read(digits[..k], 8);
    if k == |digits| {
      assert digits[..k] == digits && s[k] == c;
    } else {
      assert s[k] == digits[k] && digits[..k + 1] == digits[..k] + [digits[k]];
      ReadStep(digits[..k], digits[k], 8);
      if v > (W - 1) / 8 {
        assert forall x :: x in digits ==> Octal(x);
        ReadGrows(digits, k + 1);
      } else {
        ParsesOn(digits, c, more, k + 1);
      }
    }
  }

  method ParseOctalField(h: array<int>, start: int, size: int) returns (r: Option<int>)
    requires 0 <= start && 0 <= size && start + size <= h.Length
    ensures r == ParseFrom(h[start..start + size], 0, 0)
  {
    ghost var s := h[start..start + size];
    var value, ofs := 0, 0;
    while ofs < size
      invariant 0 <= ofs <= size && ParseFrom(s, ofs, value) == ParseFrom(s, 0, 0)
    {
      var c := h[start + ofs];
      if '0' as int <= c <= '7' as int {
        if value > (W - 1) / 8 {
          return None;
        }
        value := c - 48 + value * 8;
      } else if c == 32 || c == 0 {
        return if ofs > 0 then Some(value) else None;
      } else {
        return None;
      }
      ofs := ofs + 1;
    }
    return None;
  }

  lemma {:induction false} ReadGrows(s: seq<int>, k: int)
    requires 0 <= k <= |s| && forall c :: c in s ==> Octal(c)
    ensures 0 <= Read(s[..k], 8) <= Read(s, 8)
    decreases |s| - k
  {
    if k < |s| {
      ReadGrows(s, k + 1);
      ReadStep(s[..k], s[k], 8);
      assert s[..k + 1] == s[..k] + [s[k]] && s[k] in s;
      ReadNonNegative(s[..k]);
    } else {
      assert s[..k] == s;
      ReadNonNegative(s);
    }
  }

  lemma {:induction false} ReadNonNegative(s: seq<int>)
    requires forall c :: c in s ==> Octal(c)
    ensures Read(s, 8) >= 0
  {
    if s != [] {
      ReadNonNegative(s[..|s| - 1]);
      assert s[|s| - 1] in s;
    }
  }

  /** Parsing a field of octal digits with a null byte after them gives their value. */
  lemma {:induction false} ParseReads(s: seq<int>, digits: seq<int>, k: int)
    requires |s| == |digits| + 1 && s == digits + [0] && digits != [] && 0 <= k <= |digits|
    requires (forall c :: c in digits ==> Octal(c)) && Read(digits, 8) < W
    ensures ParseFrom(s, k, Read(digits[..k], 8)) == Some(Read(digits, 8))
    decreases |digits| - k
  {
    if k < |digits| {
      assert s[k] == digits[k] && digits[k] in digits;
      assert digits[..k + 1] == digits[..k] + [digits[k]];
      ReadStep(digits[..k], digits[k], 8);
      ReadGrows(digits, k + 1);
      ParseReads(s, digits, k + 1);
    } else {
      assert digits[..k] == digits;
    }
  }

  /** The conversion "%0<w>o". */
  function OctalConversion(w: int): Conversion {
    Conversion(false, false, false, false, true, false, w, -1)
  }

  function OctalText(v: int, w: int): seq<int> {
    Formatted(v, false, false, BASE_O, OctalConversion(w))
  }

  lemma {:induction false} OctalDigits(v: int, k: nat, cnt: int)
    requires 0 <= v < Pow2(3 * k)
    ensures |Digits(v, BASE_O, false, cnt)| <= k
    ensures forall c :: c in Digits(v, BASE_O, false, cnt) ==> Octal(c)
    decreases k
  {
    if v > 0 {
      assert k > 0;
      EightTimes(k);
      OctalDigits(v / 8, k - 1, cnt + 1);
    }
  }

  /** A number below 8 to the `w` makes `w` octal digits, whose value it is. */
  lemma OctalTextIs(v: int, w: nat)
    requires 0 <= v < Pow2(3 * w) && 1 <= w
    ensures |OctalText(v, w)| == w && Read(OctalText(v, w), 8) == v
    ensures forall c :: c in OctalText(v, w) ==> Octal(c)
  {
    var c := OctalConversion(w);
    var digits := DigitBuffer(v, BASE_O, c);
    OctalDigits(v, w, 0);
    var n := BufferIs(v, BASE_O, c);
    assert |digits| <= w;
    FormattedReadsBack(v, BASE_O, c, w - |digits|);
    assert OctalText(v, w) == ZeroDigits(w - |digits|) + Reversed(digits);
    forall x | x in OctalText(v, w)
      ensures Octal(x)
    {
      if x !in ZeroDigits(w - |digits|) {
        var i :| 0 <= i < |Reversed(digits)| && Reversed(digits)[i] == x;
        assert x in digits;
      }
    }
  }

  /** The field that snprintf() fills in `w + 1` bytes. */
  function OctalField(v: int, w: int): seq<int>
    requires w >= 0
  {
    Bounded(OctalText(v, w), w + 1)
  }

  /** parse_octal_field() is the inverse of zero-padded "%o". */
  lemma OctalRoundTrip(v: int, w: nat)
    requires 0 <= v < Pow2(3 * w) && v < W && 1 <= w
    ensures |OctalField(v, w)| == w + 1 && ParseFrom(OctalField(v, w), 0, 0) == Some(v)
    ensures forall i :: 0 <= i < w ==> Octal(OctalField(v, w)[i])
  {
    OctalTextIs(v, w);
    var text := OctalText(v, w);
    ParseReads(OctalField(v, w), text, 0);
    forall i | 0 <= i < w
      ensures Octal(OctalField(v, w)[i])
    {
      assert text[i] in text;
    }
  }

  // ---- The checksum --------------------------------------------------------------------------

  /** The sum of the first `n` bytes, with the checksum field as spaces. */
  function Sum(h: seq<int>, n: int): int
    requires 0 <= n <= |h|
  {
    if n == 0 then 0 else Sum(h, n - 1) + if 148 <= n - 1 < 156 then 32 else h[n - 1]
  }

  function CheckSum(h: seq<int>): int
    requires |h| == SIZE
  {
    Sum(h, SIZE)
  }

  method CalculateChksum(h: array<int>) returns (r: int)
    requires h.Length == SIZE
    ensures r == CheckSum(h[..])
  {
    r := 0;
    var i := 0;
    while i < SIZE
      invariant 0 <= i <= SIZE && r == Sum(h[..], i)
    {
      r := r + if 148 <= i < 156 then 32 else h[i];
      i := i + 1;
    }
  }

  ghost predicate AreBytes(h: seq<int>) {
    forall i :: 0 <= i < |h| ==> 0 <= h[i] < 256
  }

  lemma {:induction false} SumBound(h: seq<int>, n: int)
    requires 0 <= n <= |h| && AreBytes(h)
    ensures 0 <= Sum(h, n) <= 255 * n
  {
    if n > 0 {
      SumBound(h, n - 1);
    }
  }

  /** The checksum does not depend on its own field. */
  lemma {:induction false} SumSame(h: seq<int>, h': seq<int>, n: int)
    requires |h| == |h'| && 0 <= n <= |h| && forall i :: 0 <= i < |h| && !(148 <= i < 156) ==> h'[i] == h[i]
    ensures Sum(h', n) == Sum(h, n)
  {
    if n > 0 {
      SumSame(h, h', n - 1);
    }
  }

  // ---- ustar_make_header() -------------------------------------------------------------------

  const USTAR_MAGIC: seq<int> := [117, 115, 116, 97, 114, 0]
  const ROOT: seq<int> := [114, 111, 111, 116]
  const MTIME: int := 1136102400

  /** The size as the unsigned number that "%o" prints. */
  function Unsigned(size: int): int {
    if size < 0 then size + W else size
  }

  function Mode(typ: int): int {
    if typ == REGULAR then 0x1a4 else 0x1ed
  }

  /** Byte `i` of the header, the checksum field aside; `mode`, `size` and `mtime` are the fields' contents. */
  function HeaderByte(name: seq<int>, mode: seq<int>, size: seq<int>, mtime: seq<int>, typ: int, i: int): int
    requires |mode| == 8 && |size| == 12 && |mtime| == 12 && |name| <= 99
  {
    if 0 <= i < |name| then name[i]
    else if 100 <= i < 108 then mode[i - 100]
    else if 108 <= i < 115 || 116 <= i < 123 then ZERO_CHAR
    else if 124 <= i < 136 then size[i - 124]
    else if 136 <= i < 148 then mtime[i - 136]
    else if i == 156 then typ
    else if 257 <= i < 263 then USTAR_MAGIC[i - 257]
    else if 263 <= i < 265 then ZERO_CHAR
    else if 265 <= i < 269 then ROOT[i - 265]
    else if 297 <= i < 301 then ROOT[i - 297]
    else 0
  }

  /** The contents of the three numeric fields. */
  datatype Numbers = Numbers(mode: seq<int>, size: seq<int>, mtime: seq<int>)

  ghost predicate WellSized(n: Numbers) {
    |n.mode| == 8 && |n.size| == 12 && |n.mtime| == 12
  }

  function NumberFields(typ: int, size: int): Numbers {
    Numbers(OctalField(Mode(typ), 7), OctalField(Unsigned(size), 11), OctalField(MTIME, 11))
  }

  ghost predicate Fields(h: seq<int>, name: seq<int>, n: Numbers, typ: int) {
    && |h| == SIZE && |name| <= 99 && WellSized(n)
    && forall i :: 0 <= i < SIZE && !(148 <= i < 156) ==> h[i] == HeaderByte(name, n.mode, n.size, n.mtime, typ, i)
  }

  /** A header for an entry, with its checksum. */
  ghost predicate IsHeader(h: seq<int>, name: seq<int>, typ: int, size: int) {
    Fields(h, name, NumberFields(typ, size), typ) && h[148..156] == OctalField(CheckSum(h), 7)
  }

  /** strlcpy() and memcpy() into a field. */
  method PutBytes(h: array<int>, start: int, s: seq<int>)
    requires 0 <= start && start + |s| <= h.Length
    modifies h
    ensures forall i :: 0 <= i < h.Length ==> h[i] == if start <= i < start + |s| then s[i - start] else old(h[i])
  {
    var k := 0;
    while k < |s|
      invariant 0 <= k <= |s|
      invariant forall i :: 0 <= i < h.Length ==> h[i] == if start <= i < start + k then s[i - start] else old(h[i])
    {
      h[start + k] := s[k];
      k := k + 1;
    }
  }

  /** snprintf() of one octal number into a field of `w + 1` bytes. */
  method PutOctal(h: array<int>, start: int, w: int, v: int, ghost field: seq<int>)
    requires 0 <= start && 1 <= w && start + w + 1 <= h.Length && 0 <= v < WW && field == OctalField(v, w)
    modifies h
    ensures forall i :: 0 <= i < h.Length ==>
              h[i] == if start <= i < start + |field| then field[i - start] else old(h[i])
  {
    var text := FormatInteger(v, false, false, BASE_O, OctalConversion(w));
    var length := Snprintf(h, start, w + 1, text);
  }

  lemma Powers()
    ensures Pow2(33) == 2 * W && Pow2(21) == 0x20_0000
  {
    Pow2Of32();
    Pow2Add(32, 1);
    Pow2Add(10, 11);
    assert Pow2(10) == 1024;
    assert Pow2(11) == 2 * Pow2(10);
    assert Pow2(1) == 2;
  }

  /** The numeric fields are octal digits that fill them. */
  lemma NumberFieldsOk(typ: int, size: int)
    requires -0x8000_0000 <= size <= 0x7fff_ffff
    ensures var n := NumberFields(typ, size); WellSized(n) && AreBytes(n.mode) && AreBytes(n.size) && AreBytes(n.mtime)
    ensures ParseFrom(NumberFields(typ, size).size, 0, 0) == Some(Unsigned(size))
  {
    Powers();
    FieldBytes(Mode(typ), 7);
    FieldBytes(Unsigned(size), 11);
    FieldBytes(MTIME, 11);
  }

  lemma FieldBytes(v: int, w: nat)
    requires 0 <= v < Pow2(3 * w) && v < W && 1 <= w
    ensures |OctalField(v, w)| == w + 1 && AreBytes(OctalField(v, w)) && ParseFrom(OctalField(v, w), 0, 0) == Some(v)
  {
    OctalTextIs(v, w);
    OctalRoundTrip(v, w);
  }

  /** The first `limit` bytes are as they should be, and the others null. */
  ghost predicate FilledTo(h: seq<int>, name: seq<int>, n: Numbers, typ: int, limit: int) {
    && |h| == SIZE && |name| <= 99 && WellSized(n)
    && forall i :: 0 <= i < SIZE ==> h[i] == if i < limit then HeaderByte(name, n.mode, n.size, n.mtime, typ, i) else 0
  }

  method FillName(name: seq<int>, h: array<int>, ghost n: Numbers, ghost typ: int)
    requires h.Length == SIZE && |name| <= 99 && WellSized(n)
    modifies h
    ensures FilledTo(h[..], name, n, typ, 100)
  {
    Clear(h);
    PutBytes(h, 0, name + [0]);
  }

  method FillOwner(ghost name: seq<int>, h: array<int>, ghost n: Numbers, typ: int)
    requires h.Length == SIZE && FilledTo(h[..], name, n, typ, 100) && n.mode == OctalField(Mode(typ), 7)
    modifies h
    ensures FilledTo(h[..], name, n, typ, 124)
  {
    PutOctal(h, 100, 7, Mode(typ), n.mode);
    PutBytes(h, 108, Repeat(ZERO_CHAR, 7) + [0]);
    PutBytes(h, 116, Repeat(ZERO_CHAR, 7) + [0]);
  }

  method FillSizeAndTime(ghost name: seq<int>, size: int, h: array<int>, ghost n: Numbers, ghost typ: int)
    requires h.Length == SIZE && FilledTo(h[..], name, n, typ, 124) && -0x8000_0000 <= size <= 0x7fff_ffff
    requires n.size == OctalField(Unsigned(size), 11) && n.mtime == OctalField(MTIME, 11)
    modifies h
    ensures FilledTo(h[..], name, n, typ, 148)
  {
    PutOctal(h, 124, 11, Unsigned(size), n.size);
    PutOctal(h, 136, 11, MTIME, n.mtime);
  }

  /** The fields after the checksum. */
  method FillBack(ghost name: seq<int>, typ: int, h: array<int>, ghost n: Numbers)
    requires h.Length == SIZE && FilledTo(h[..], name, n, typ, 148)
    modifies h
    ensures Fields(h[..], name, n, typ)
  {
    h[156] := typ;
    PutBytes(h, 257, USTAR_MAGIC);
    h[263], h[264] := ZERO_CHAR, ZERO_CHAR;
    PutBytes(h, 297, ROOT + [0]);
    PutBytes(h, 265, ROOT + [0]);
  }

  method Clear(h: array<int>)
    modifies h
    ensures forall i :: 0 <= i < h.Length ==> h[i] == 0
  {
    var i := 0;
    while i < h.Length
      invariant 0 <= i <= h.Length && forall j :: 0 <= j < i ==> h[j] == 0
    {
      h[i] := 0;
      i := i + 1;
    }
  }

  ghost predicate IsName(name: seq<int>) {
    forall c :: c in name ==> 0 < c < 256
  }

  lemma HeaderByteRange(name: seq<int>, n: Numbers, typ: int, i: int)
    requires |name| <= 99 && IsName(name) && WellSized(n) && AreBytes(n.mode) && AreBytes(n.size) && AreBytes(n.mtime)
    requires 0 <= typ < 256
    ensures 0 <= HeaderByte(name, n.mode, n.size, n.mtime, typ, i) < 256
  {
    if 0 <= i < |name| {
      assert name[i] in name;
    }
  }

  /** The checksum fits its field. */
  lemma ChksumFits(h: seq<int>, name: seq<int>, n: Numbers, typ: int)
    requires Fields(h, name, n, typ) && IsName(name) && AreBytes(n.mode) && AreBytes(n.size) && AreBytes(n.mtime)
    requires 0 <= typ < 256
    ensures 0 <= CheckSum(h) < 0x20_0000
  {
    var g := seq(SIZE, i requires 0 <= i < SIZE => if 148 <= i < 156 then 0 else h[i]);
    forall i | 0 <= i < SIZE
      ensures 0 <= g[i] < 256
    {
      HeaderByteRange(name, n, typ, i);
    }
    SumSame(h, g, SIZE);
    SumBound(g, SIZE);
  }

  /** ustar_make_header(). */
  method MakeHeader(name: seq<int>, typ: int, size: int, h: array<int>) returns (ok: bool)
    requires h.Length == SIZE && IsName(name) && (typ == REGULAR || typ == DIRECTORY)
    requires -0x8000_0000 <= size <= 0x7fff_ffff
    modifies h
    ensures ok <==> |Strip(name)| <= 99
    ensures ok ==> IsHeader(h[..], Strip(name), typ, size)
    ensures !ok ==> h[..] == old(h[..])
  {
    var stripped := StripPrefixes(name);
    if |stripped| > 99 {
      return false;
    }
    ghost var n := NumberFields(typ, size);
    NumberFieldsOk(typ, size);
    FillName(stripped, h, n, typ);
    FillOwner(stripped, h, n, typ);
    FillSizeAndTime(stripped, size, h, n, typ);
    FillBack(stripped, typ, h, n);
    StrippedIsName(name);
    ChksumFits(h[..], stripped, n, typ);
    PutChksum(h);
    return true;
  }

  method PutChksum(h: array<int>)
    requires h.Length == SIZE && 0 <= CheckSum(h[..]) < 0x20_0000
    modifies h
    ensures h[148..156] == OctalField(CheckSum(h[..]), 7)
    ensures forall i :: 0 <= i < SIZE && !(148 <= i < 156) ==> h[i] == old(h[i])
  {
    ghost var before := h[..];
    var chksum := CalculateChksum(h);
    ghost var field := OctalField(chksum, 7);
    Powers();
    FieldBytes(chksum, 7);
    PutOctal(h, 148, 7, chksum, field);
    SumSame(before, h[..], SIZE);
    assert h[148..156] == field;
  }

  lemma StrippedIsName(name: seq<int>)
    requires IsName(name)
    ensures IsName(Strip(name))
  {
    forall c | c in Strip(name)
      ensures 0 < c < 256
    {
      StripKeepsChars(name, c);
    }
  }

  // ---- ustar_parse_header() ------------------------------------------------------------------

  predicate AllZeros(h: seq<int>) {
    forall i :: 0 <= i < |h| ==> h[i] == 0
  }

  /** The size, for a regular file. */
  function ParsedSize(h: seq<int>): Option<int>
    requires |h| == SIZE
  {
    if h[156] == REGULAR then ParseFrom(h[124..136], 0, 0) else Some(0)
  }

  function Parsed(h: seq<int>): Result
    requires |h| == SIZE
  {
    var chksum, size := ParseFrom(h[148..156], 0, 0), ParsedSize(h);
    if AllZeros(h) then EndOfArchive
    else if h[257..263] != USTAR_MAGIC then Failure(NotUstar)
    else if h[263] != ZERO_CHAR || h[264] != ZERO_CHAR then Failure(BadVersion)
    else if chksum == None then Failure(CorruptChksum)
    else if chksum != Some(CheckSum(h)) then Failure(ChksumMismatch)
    else if h[99] != 0 || h[345] != 0 then Failure(NameTooLong)
    else if h[156] != REGULAR && h[156] != DIRECTORY then Failure(BadType)
    else if size == None then Failure(CorruptSize)
    else if size.value > INT_MAX then Failure(TooLarge)
    else Entry(Strip(CString(h[..100], 0)), h[156], size.value)
  }

  method IsAllZeros(h: array<int>) returns (b: bool)
    ensures b <==> AllZeros(h[..])
  {
    var i := 0;
    while i < h.Length
      invariant 0 <= i <= h.Length && forall j :: 0 <= j < i ==> h[j] == 0
    {
      if h[i] != 0 {
        return false;
      }
      i := i + 1;
    }
    return true;
  }

  method ParseHeader(h: array<int>) returns (r: Result)
    requires h.Length == SIZE
    ensures r == Parsed(h[..])
  {
    var zeros := IsAllZeros(h);
    if zeros {
      return EndOfArchive;
    }
    var chksum := ParseOctalField(h, 148, 8);
    var sum := CalculateChksum(h);
    if h[257..263] != USTAR_MAGIC {
      return Failure(NotUstar);
    } else if h[263] != ZERO_CHAR || h[264] != ZERO_CHAR {
      return Failure(BadVersion);
    } else if chksum.None? {
      return Failure(CorruptChksum);
    } else if chksum.value != sum {
      return Failure(ChksumMismatch);
    } else if h[99] != 0 || h[345] != 0 {
      return Failure(NameTooLong);
    } else if h[156] != REGULAR && h[156] != DIRECTORY {
      return Failure(BadType);
    }
    var size := Some(0);
    if h[156] == REGULAR {
      size := ParseOctalField(h, 124, 12);
      if size.None? {
        return Failure(CorruptSize);
      } else if size.value > INT_MAX {
        return Failure(TooLarge);
      }
    }
    var name := StripPrefixes(CString(h[..100], 0));
    return Entry(name, h[156], size.value);
  }

  // ---- The round trip ------------------------------------------------------------------------

  lemma FieldsBack(h: seq<int>, name: seq<int>, n: Numbers, typ: int)
    requires Fields(h, name, n, typ) && IsName(name)
    ensures h[257..263] == USTAR_MAGIC && h[263] == h[264] == ZERO_CHAR && h[99] == 0 && h[345] == 0 && !AllZeros(h)
    ensures CString(h[..100], 0) == name && h[156] == typ && h[124..136] == n.size
  {
    assert h[257] == 117;
    forall i | 0 <= i < |name|
      ensures name[i] == h[..100][0 + i] != 0
    {
      assert name[i] in name;
    }
    CStringIs(h[..100], 0, name);
  }

  lemma ParsedIs(h: seq<int>, name: seq<int>, typ: int, size: int)
    requires |h| == SIZE && h[257..263] == USTAR_MAGIC && h[263] == h[264] == ZERO_CHAR && h[99] == 0 && h[345] == 0
    requires !AllZeros(h) && CString(h[..100], 0) == name && Strip(name) == name && h[156] == typ
    requires (typ == REGULAR || typ == DIRECTORY) && ParsedSize(h) == Some(size)
    requires ParseFrom(h[148..156], 0, 0) == Some(CheckSum(h))
    ensures Parsed(h) == if size > INT_MAX then Failure(TooLarge) else Entry(name, typ, size)
  {
  }

  lemma FieldsParse(h: seq<int>, name: seq<int>, n: Numbers, typ: int, size: int)
    requires Fields(h, name, n, typ) && IsName(name) && Strip(name) == name && (typ == REGULAR || typ == DIRECTORY)
    requires ParseFrom(n.size, 0, 0) == Some(size) && ParseFrom(h[148..156], 0, 0) == Some(CheckSum(h))
    ensures Parsed(h) == if typ == DIRECTORY then Entry(name, typ, 0)
                         else if size > INT_MAX then Failure(TooLarge) else Entry(name, typ, size)
  {
    FieldsBack(h, name, n, typ);
    ParsedIs(h, name, typ, if typ == DIRECTORY then 0 else size);
  }

  /** The checksum field holds the checksum. */
  lemma ChksumBack(h: seq<int>, name: seq<int>, typ: int, size: int)
    requires IsHeader(h, name, typ, size) && IsName(name) && 0 <= typ < 256 && -0x8000_0000 <= size <= 0x7fff_ffff
    ensures ParseFrom(h[148..156], 0, 0) == Some(CheckSum(h))
  {
    NumberFieldsOk(typ, size);
    ChksumFits(h, name, NumberFields(typ, size), typ);
    Powers();
    FieldBytes(CheckSum(h), 7);
  }

  /** Parsing the header made for an entry gives the stripped name, the type, and the size, which is 0 for a
      directory; exactly if the entry is a directory or the size is not negative. */
  lemma RoundTrip(h: seq<int>, name: seq<int>, typ: int, size: int)
    requires IsHeader(h, Strip(name), typ, size) && IsName(name) && (typ == REGULAR || typ == DIRECTORY)
    requires -0x8000_0000 <= size <= 0x7fff_ffff
    ensures Parsed(h) == (if typ == DIRECTORY then Entry(Strip(name), typ, 0)
                          else if size >= 0 then Entry(Strip(name), typ, size) else Failure(TooLarge))
    ensures Parsed(h) == Entry(Strip(name), typ, if typ == DIRECTORY then 0 else size) <==>
              typ == DIRECTORY || size >= 0
  {
    StrippedIsName(name);
    StripIdempotent(name);
    NumberFieldsOk(typ, size);
    ChksumBack(h, Strip(name), typ, size);
    FieldsParse(h, Strip(name), NumberFields(typ, size), typ, Unsigned(size));
  }
}

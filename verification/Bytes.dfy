/** Numbers and strings as bytes in memory and on disk. A byte is a number from 0 to 255. */
module Bytes {
  import opened Arithmetic

  /** The string that starts at `p` and ends before the next null byte. */
  function CString(s: seq<int>, p: int): (r: seq<int>)
    requires 0 <= p
    ensures p + |r| <= |s| || r == []
    ensures forall i :: 0 <= i < |r| ==> r[i] == s[p + i] != 0
    decreases |s| - p
  {
    if p < |s| && s[p] != 0 then [s[p]] + CString(s, p + 1) else []
  }

  lemma {:induction false} CStringIs(s: seq<int>, p: int, t: seq<int>)
    requires 0 <= p && p + |t| < |s| && s[p + |t|] == 0
    requires forall i :: 0 <= i < |t| ==> t[i] == s[p + i] != 0
    ensures CString(s, p) == t
    decreases |t|
  {
    if t != [] {
      assert s[p] == t[0];
      forall i | 0 <= i < |t[1..]|
        ensures t[1..][i] == s[p + 1 + i] != 0
      {
        assert t[1..][i] == t[i + 1];
      }
      CStringIs(s, p + 1, t[1..]);
    }
  }

  /** A 32-bit number, least byte first. */
  function Word(w: int): (r: seq<int>)
    ensures |r| == 4
  {
    [w % 256, w / 256 % 256, w / 256 / 256 % 256, w / 256 / 256 / 256 % 256]
  }

  function WordAt(s: seq<int>, i: int): int
    requires 0 <= i && i + 4 <= |s|
  {
    s[i] + 0x100 * s[i + 1] + 0x1_0000 * s[i + 2] + 0x100_0000 * s[i + 3]
  }

  lemma WordBack(s: seq<int>, i: int, w: int)
    requires 0 <= i && i + 4 <= |s| && s[i..i + 4] == Word(w) && 0 <= w < W
    ensures WordAt(s, i) == w
  {
    var a := w / 256;
    var b := a / 256;
    var c := b / 256;
    assert w == 256 * a + w % 256 && a == 256 * b + a % 256 && b == 256 * c + b % 256 && c % 256 == c;
    assert s[i] == s[i..i + 4][0] && s[i + 1] == s[i..i + 4][1] && s[i + 2] == s[i..i + 4][2]
      && s[i + 3] == s[i..i + 4][3];
  }
}

/** lib/kernel/bitmap.c: an array of bits packed into machine words. */
module Bitmap {
  import opened Arithmetic
  import opened Bits

  const ELEM_BITS: nat := 32

  type Elem = x: int | 0 <= x < W

  datatype Result = Found(idx: nat) | Error

  function ElemCnt(bitCnt: nat): nat {
    (bitCnt + ELEM_BITS - 1) / ELEM_BITS
  }

  /** The words as bits. */
  function Unpack(words: seq<Elem>, bitCnt: nat): (r: seq<bool>)
    requires |words| == ElemCnt(bitCnt)
    ensures |r| == bitCnt
  {
    seq(bitCnt, i requires 0 <= i < bitCnt => Bit(words[i / ELEM_BITS], i % ELEM_BITS))
  }

  function BitMask(idx: nat): (m: Elem) {
    Pow2Of32();
    Pow2Less(idx % ELEM_BITS, 32);
    Pow2(idx % ELEM_BITS)
  }

  /** bits[idx] |= mask */
  function Marked(w: Elem, idx: nat): Elem {
    Pow2Of32();
    OrFits(w, BitMask(idx), 32);
    BitOr(w, BitMask(idx))
  }

  /** bits[idx] &= ~mask */
  function Cleared(w: Elem, idx: nat): Elem {
    Pow2Of32();
    AndFits(w, BitNot(BitMask(idx), 32));
    BitAnd(w, BitNot(BitMask(idx), 32))
  }

  function Changed(w: Elem, idx: nat, value: bool): Elem {
    if value then Marked(w, idx) else Cleared(w, idx)
  }

  /** Marking or clearing a bit changes no other bit of its word. */
  lemma ChangedBit(w: Elem, idx: nat, value: bool, j: nat)
    requires j < ELEM_BITS
    ensures Bit(Changed(w, idx, value), j) <==> if j == idx % ELEM_BITS then value else Bit(w, j)
  {
    var m := BitMask(idx);
    Pow2Of32();
    OneBit(idx % ELEM_BITS, j);
    if value {
      OrBit(w, m, j);
    } else {
      AndBit(w, BitNot(m, 32), j);
      NotBit(m, 32, j);
    }
  }

  lemma ChangedWord(words: seq<Elem>, bitCnt: nat, idx: nat, value: bool)
    requires |words| == ElemCnt(bitCnt) && idx < bitCnt
    ensures Unpack(words[idx / ELEM_BITS := Changed(words[idx / ELEM_BITS], idx, value)], bitCnt)
            == Unpack(words, bitCnt)[idx := value]
  {
    var e := idx / ELEM_BITS;
    var words' := words[e := Changed(words[e], idx, value)];
    forall i | 0 <= i < bitCnt
      ensures Unpack(words', bitCnt)[i] == Unpack(words, bitCnt)[idx := value][i]
    {
      if i / ELEM_BITS == e {
        ChangedBit(words[e], idx, value, i % ELEM_BITS);
        assert i % ELEM_BITS == idx % ELEM_BITS <==> i == idx;
      }
    }
  }

  /** `cnt` bits from `start` on, all equal to `value`. */
  predicate Uniform(bits: seq<bool>, start: nat, cnt: nat, value: bool)
    requires start + cnt <= |bits|
  {
    forall i :: start <= i < start + cnt ==> bits[i] == value
  }

  /** The bits with `cnt` of them from `start` on set to `value`. */
  function Filled(bits: seq<bool>, start: nat, cnt: nat, value: bool): (r: seq<bool>)
    requires start + cnt <= |bits|
    ensures |r| == |bits| && Uniform(r, start, cnt, value)
    ensures forall i :: 0 <= i < |bits| && !(start <= i < start + cnt) ==> r[i] == bits[i]
  {
    seq(|bits|, i requires 0 <= i < |bits| => if start <= i < start + cnt then value else bits[i])
  }

  /** First fit: the first run of `cnt` bits equal to `value` at or after `start`. */
  predicate FirstFit(bits: seq<bool>, start: nat, cnt: nat, value: bool, r: Result) {
    match r
    case Found(idx) =>
      && start <= idx && idx + cnt <= |bits| && Uniform(bits, idx, cnt, value)
      && (forall i: nat :: start <= i < idx ==> !Uniform(bits, i, cnt, value))
    case Error => forall i: nat :: start <= i && i + cnt <= |bits| ==> !Uniform(bits, i, cnt, value)
  }

  function Search(bits: seq<bool>, start: nat, cnt: nat, value: bool): (r: Result)
    ensures FirstFit(bits, start, cnt, value, r)
    decreases |bits| - start
  {
    if start + cnt > |bits| then Error
    else if Uniform(bits, start, cnt, value) then Found(start)
    else Search(bits, start + 1, cnt, value)
  }

  class Bitmap {
    const bitCnt: nat
    const words: array<Elem>

    ghost predicate Valid()
      reads this
    {
      words.Length == ElemCnt(bitCnt)
    }

    ghost function Bits(): seq<bool>
      requires Valid()
      reads this, words
    {
      Unpack(words[..], bitCnt)
    }

    constructor (bitCnt: nat)
      ensures Valid() && this.bitCnt == bitCnt && fresh(words)
      ensures Uniform(Bits(), 0, bitCnt, false)
    {
      this.bitCnt := bitCnt;
      words := new Elem[ElemCnt(bitCnt)];
      new;
      SetMultiple(0, bitCnt, false);
    }

    /** bitmap_create(): `haveMap` and `haveBits` say which allocations succeed; no bits need no memory. */
    static method Create(bitCnt: nat, haveMap: bool, haveBits: bool) returns (b: Bitmap?)
      ensures b == null <==> !haveMap || (!haveBits && bitCnt > 0)
      ensures b != null ==>
                fresh(b) && fresh(b.words) && b.Valid() && b.bitCnt == bitCnt && Uniform(b.Bits(), 0, bitCnt, false)
    {
      if haveMap && (haveBits || bitCnt == 0) {
        b := new Bitmap(bitCnt);
      } else {
        b := null;
      }
    }

    /** bitmap_test(). */
    method Test(idx: nat) returns (b: bool)
      requires Valid() && idx < bitCnt
      ensures b == Bits()[idx]
    {
      TestBit(words[idx / ELEM_BITS], idx % ELEM_BITS);
      b := BitAnd(words[idx / ELEM_BITS], BitMask(idx)) != 0;
    }

    /** bitmap_set(), with bitmap_mark() and bitmap_reset(). */
    method Set(idx: nat, value: bool)
      requires Valid() && idx < bitCnt
      modifies words
      ensures Bits() == old(Bits())[idx := value]
    {
      ChangedWord(words[..], bitCnt, idx, value);
      var e := idx / ELEM_BITS;
      ghost var ws := words[..];
      words[e] := if value then Marked(words[e], idx) else Cleared(words[e], idx);
      assert words[..] == ws[e := words[e]];
    }

    /** bitmap_set_multiple(). */
    method SetMultiple(start: nat, cnt: nat, value: bool)
      requires Valid() && start + cnt <= bitCnt
      modifies words
      ensures Bits() == Filled(old(Bits()), start, cnt, value)
    {
      var i := 0;
      while i < cnt
        invariant i <= cnt && Bits() == Filled(old(Bits()), start, i, value)
      {
        Set(start + i, value);
        i := i + 1;
      }
    }

    /** bitmap_contains(). */
    method Contains(start: nat, cnt: nat, value: bool) returns (b: bool)
      requires Valid() && start + cnt <= bitCnt
      ensures b <==> !Uniform(Bits(), start, cnt, !value)
    {
      var i := 0;
      while i < cnt
        invariant i <= cnt && Uniform(Bits(), start, i, !value)
      {
        var t := Test(start + i);
        if t == value {
          return true;
        }
        i := i + 1;
      }
      return false;
    }

    /** bitmap_scan(). */
    method Scan(start: nat, cnt: nat, value: bool) returns (r: Result)
      requires Valid() && start <= bitCnt
      ensures r == Search(Bits(), start, cnt, value)
    {
      if cnt <= bitCnt {
        var last := bitCnt - cnt;
        var i := start;
        while i <= last
          invariant Search(Bits(), i, cnt, value) == Search(Bits(), start, cnt, value)
          decreases last - i
        {
          var c := Contains(i, cnt, !value);
          if !c {
            return Found(i);
          }
          i := i + 1;
        }
      }
      return Error;
    }

    /** bitmap_scan_and_flip(). */
    method ScanAndFlip(start: nat, cnt: nat, value: bool) returns (r: Result)
      requires Valid() && start <= bitCnt
      modifies words
      ensures r == Search(old(Bits()), start, cnt, value)
      ensures Bits() == if r.Found? then Filled(old(Bits()), r.idx, cnt, !value) else old(Bits())
    {
      r := Scan(start, cnt, value);
      if r.Found? {
        SetMultiple(r.idx, cnt, !value);
      }
    }
  }
}

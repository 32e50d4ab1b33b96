/** userprog/process.c and lib/string.c: splitting a command line and laying out the arguments on the user stack. A
    byte is a number from 0 to 255. */
module UserStack {
  import opened Basics
  import opened Arithmetic
  import opened Bytes

  const BASE: int := PHYS_BASE - PGSIZE
  const SPACE: int := 32
  const MAX_ARGS: int := 128

  // ---- Strings -------------------------------------------------------------------------------

  /** A buffer that holds a string: its last byte, if no earlier one, is null. */
  predicate Terminated(s: seq<int>) {
    s != [] && s[|s| - 1] == 0
  }

  /** strchr() finds the character in the string of delimiters, and it is not the null byte. */
  predicate Delimiter(c: int, ds: seq<int>) {
    c != 0 && c in ds
  }

  /** The first place at or after `p` that is not a delimiter. */
  function Skip(s: seq<int>, ds: seq<int>, p: int): (q: int)
    requires Terminated(s) && 0 <= p < |s|
    ensures p <= q < |s| && !Delimiter(s[q], ds)
    decreases |s| - p
  {
    if Delimiter(s[p], ds) then Skip(s, ds, p + 1) else p
  }

  /** The first place at or after `p` that is a delimiter or null. */
  function End(s: seq<int>, ds: seq<int>, p: int): (q: int)
    requires Terminated(s) && 0 <= p < |s|
    ensures p <= q < |s| && (Delimiter(s[q], ds) || s[q] == 0)
    ensures forall i :: p <= i < q ==> !Delimiter(s[i], ds) && s[i] != 0
    decreases |s| - p
  {
    if Delimiter(s[p], ds) || s[p] == 0 then p else End(s, ds, p + 1)
  }

  /** The words of the string at `p`, which delimiters separate. */
  function Tokens(s: seq<int>, ds: seq<int>, p: int): seq<seq<int>>
    requires Terminated(s) && 0 <= p < |s|
    decreases |s| - p, 1
  {
    var q := Skip(s, ds, p);
    if s[q] == 0 then [] else [s[q..End(s, ds, q)]] + MoreTokens(s, ds, End(s, ds, q))
  }

  /** The words after one that ends at `e`. */
  function MoreTokens(s: seq<int>, ds: seq<int>, e: int): seq<seq<int>>
    requires Terminated(s) && 0 <= e < |s|
    decreases |s| - e, 0
  {
    if s[e] == 0 then [] else Tokens(s, ds, e + 1)
  }

  lemma {:induction false} TokensHaveNoNull(s: seq<int>, ds: seq<int>, p: int, w: seq<int>)
    requires Terminated(s) && 0 <= p < |s| && w in Tokens(s, ds, p)
    ensures 0 !in w && w != []
    decreases |s| - p
  {
    var q := Skip(s, ds, p);
    var e := End(s, ds, q);
    if w != s[q..e] {
      assert w in MoreTokens(s, ds, e);
      TokensHaveNoNull(s, ds, e + 1, w);
    }
  }

  // ---- strtok_r() ----------------------------------------------------------------------------

  /** The words depend only on what is at and after `p`. */
  lemma {:induction false} TokensLocal(s: seq<int>, s': seq<int>, ds: seq<int>, p: int)
    requires Terminated(s) && Terminated(s') && |s'| == |s| && 0 <= p < |s|
    requires forall i :: p <= i < |s| ==> s'[i] == s[i]
    ensures Tokens(s', ds, p) == Tokens(s, ds, p)
    decreases |s| - p
  {
    SkipLocal(s, s', ds, p);
    var q := Skip(s, ds, p);
    if s[q] != 0 {
      var e := End(s, ds, q);
      EndLocal(s, s', ds, q);
      SliceLocal(s, s', q, e);
      if s[e] != 0 {
        TokensLocal(s, s', ds, e + 1);
      }
      assert MoreTokens(s', ds, e) == MoreTokens(s, ds, e);
    }
  }

  lemma SliceLocal(s: seq<int>, s': seq<int>, p: int, q: int)
    requires 0 <= p <= q <= |s| == |s'| && forall i :: p <= i < |s| ==> s'[i] == s[i]
    ensures s'[p..q] == s[p..q]
  {
  }

  lemma {:induction false} SkipLocal(s: seq<int>, s': seq<int>, ds: seq<int>, p: int)
    requires Terminated(s) && Terminated(s') && |s'| == |s| && 0 <= p < |s|
    requires forall i :: p <= i < |s| ==> s'[i] == s[i]
    ensures Skip(s', ds, p) == Skip(s, ds, p)
    decreases |s| - p
  {
    if Delimiter(s[p], ds) {
      SkipLocal(s, s', ds, p + 1);
    }
  }

  lemma {:induction false} EndLocal(s: seq<int>, s': seq<int>, ds: seq<int>, p: int)
    requires Terminated(s) && Terminated(s') && |s'| == |s| && 0 <= p < |s|
    requires forall i :: p <= i < |s| ==> s'[i] == s[i]
    ensures End(s', ds, p) == End(s, ds, p)
    decreases |s| - p
  {
    if !(Delimiter(s[p], ds) || s[p] == 0) {
      EndLocal(s, s', ds, p + 1);
    }
  }

  /** strtok_r() with the characters of the string `ds` as delimiters, from place `start`: the place of the
      next word, which it ends with a null byte, and where to go on. */
  method StrtokR(a: array<int>, ds: seq<int>, start: int) returns (token: Option<int>, save: int)
    requires Terminated(a[..]) && 0 <= start < a.Length
    modifies a
    ensures Terminated(a[..]) && start <= save < a.Length
    ensures forall i :: 0 <= i < start || save <= i < a.Length ==> a[i] == old(a[i])
    ensures forall i :: 0 <= i < a.Length && old(a[i]) == 0 ==> a[i] == 0
    ensures token.None? ==> Tokens(old(a[..]), ds, start) == []
    ensures token.Some? ==>
      && start <= token.value < save
      && Tokens(old(a[..]), ds, start) == [CString(a[..], token.value)] + Tokens(a[..], ds, save)
      && token.value + |CString(a[..], token.value)| <= save && a[token.value + |CString(a[..], token.value)|] == 0
  {
    ghost var s := a[..];
    var p := start;
    while Delimiter(a[p], ds)
      invariant start <= p < a.Length && Skip(s, ds, p) == Skip(s, ds, start)
      decreases a.Length - p
    {
      p := p + 1;
    }
    if a[p] == 0 {
      return None, p;
    }
    var q := p;
    while !Delimiter(a[q], ds) && a[q] != 0
      invariant p <= q < a.Length && End(s, ds, q) == End(s, ds, p)
      decreases a.Length - q
    {
      q := q + 1;
    }
    if a[q] != 0 {
      a[q] := 0;
      save := q + 1;
    } else {
      save := q;
    }
    token := Some(p);
    AfterToken(s, a[..], ds, start, p, q, save);
  }

  lemma AfterToken(s: seq<int>, s': seq<int>, ds: seq<int>, start: int, p: int, q: int, save: int)
    requires Terminated(s) && 0 <= start < |s| && p == Skip(s, ds, start) && s[p] != 0 && q == End(s, ds, p)
    requires s' == s[q := 0] && save == (if s[q] == 0 then q else q + 1) && save < |s|
    ensures Terminated(s') && CString(s', p) == s[p..q]
    ensures Tokens(s, ds, start) == [CString(s', p)] + Tokens(s', ds, save)
  {
    CStringIs(s', p, s[p..q]);
    if s[q] == 0 {
      assert s' == s;
      assert Skip(s', ds, q) == q;
    } else {
      TokensLocal(s, s', ds, save);
    }
  }

  /** The words of a command line, which spaces separate. */
  function Words(s: seq<int>, p: int): seq<seq<int>>
    requires Terminated(s) && 0 <= p < |s|
  {
    Tokens(s, [SPACE], p)
  }

  // ---- The layout ----------------------------------------------------------------------------

  /** The arguments one after the other, each with its null byte. */
  function Packed(args: seq<seq<int>>): seq<int> {
    if args == [] then [] else args[0] + [0] + Packed(args[1..])
  }

  /** Where argument `i` is, with the arguments packed below PHYS_BASE. */
  function ArgAddress(args: seq<seq<int>>, i: int): int
    requires 0 <= i <= |args|
  {
    PHYS_BASE - |Packed(args[i..])|
  }

  /** The addresses of the arguments from `i` on. */
  function Pointers(args: seq<seq<int>>, i: int): (r: seq<int>)
    requires 0 <= i <= |args|
    ensures |r| == 4 * (|args| - i)
    decreases |args| - i
  {
    if i == |args| then [] else Word(ArgAddress(args, i)) + Pointers(args, i + 1)
  }

  function Padding(n: int): (r: seq<int>)
    ensures (n + |r|) % 4 == 0 && |r| < 4
  {
    if n % 4 == 0 then [] else seq(4 - n % 4, i => 0)
  }

  /** The arguments, padded, and above a null pointer and the pointers. */
  function ArgBlock(args: seq<seq<int>>): (r: seq<int>)
    ensures |r| == 4 * |args| + 4 + |Padding(|Packed(args)|)| + |Packed(args)|
  {
    Pointers(args, 0) + (Word(0) + (Padding(|Packed(args)|) + Packed(args)))
  }

  /** The whole frame: a return address, the number of arguments, the address of the pointers, and the block. */
  function FrameSize(args: seq<seq<int>>): int {
    12 + |ArgBlock(args)|
  }

  function Frame(args: seq<seq<int>>): (r: seq<int>)
    ensures |r| == FrameSize(args)
  {
    Word(0) + (Word(|args|) + (Word(PHYS_BASE - |ArgBlock(args)|) + ArgBlock(args)))
  }

  // ---- Reading it back -----------------------------------------------------------------------

  lemma {:induction false} PackedSplit(args: seq<seq<int>>, i: int)
    requires 0 <= i <= |args|
    ensures Packed(args) == Packed(args[..i]) + Packed(args[i..])
  {
    if i == 0 {
      assert args[..0] == [] && args[0..] == args;
    } else {
      PackedSplit(args[1..], i - 1);
      assert args[..i][1..] == args[1..][..i - 1] && args[1..][i - 1..] == args[i..];
    }
  }

  lemma {:induction false} PointersAt(args: seq<seq<int>>, i: int, j: int)
    requires 0 <= i <= j < |args|
    ensures Pointers(args, i)[4 * (j - i)..4 * (j - i) + 4] == Word(ArgAddress(args, j))
    decreases j - i
  {
    if i < j {
      PointersAt(args, i + 1, j);
      var rest := Pointers(args, i + 1);
      assert (Word(ArgAddress(args, i)) + rest)[4 * (j - i)..4 * (j - i) + 4] == rest[4 * (j - i) - 4..4 * (j - i)];
    }
  }

  /** The frame's words and where the block starts. */
  lemma FrameParts(args: seq<seq<int>>, f: seq<int>)
    requires f == Frame(args)
    ensures f[4..8] == Word(|args|) && f[8..12] == Word(PHYS_BASE - |ArgBlock(args)|) && f[12..] == ArgBlock(args)
  {
  }

  lemma BlockParts(args: seq<seq<int>>, b: seq<int>)
    requires b == ArgBlock(args)
    ensures b[..4 * |args|] == Pointers(args, 0) && b[4 * |args|..4 * |args| + 4] == Word(0)
    ensures b[|b| - |Packed(args)|..] == Packed(args)
  {
  }

  lemma SizeAligned(args: seq<seq<int>>)
    ensures FrameSize(args) % 4 == 0
  {
    StillAligned(|Packed(args)|, |Padding(|Packed(args)|)|, |args|);
  }

  lemma StillAligned(n: int, pad: int, k: int)
    requires (n + pad) % 4 == 0
    ensures (12 + (4 * k + 4 + pad + n)) % 4 == 0
  {
  }

  /** A word of a frame in memory. */
  lemma WordIn(mem: seq<int>, o: int, f: seq<int>, i: int, w: int)
    requires 0 <= o <= |mem| && mem[o..] == f && 0 <= i && i + 4 <= |f| && f[i..i + 4] == Word(w) && 0 <= w < W
    ensures WordAt(mem, o + i) == w
  {
    assert mem[o + i..o + i + 4] == f[i..i + 4];
    WordBack(mem, o + i, w);
  }

  lemma SliceOf(a: seq<int>, n: int, i: int, j: int)
    requires 0 <= i <= j <= n <= |a|
    ensures a[..n][i..j] == a[i..j]
  {
  }

  lemma DropDrop(a: seq<int>, i: int, j: int)
    requires 0 <= i && 0 <= j && i + j <= |a|
    ensures a[i..][j..] == a[i + j..]
  {
  }

  /** The pointers in the block. */
  lemma BlockWords(args: seq<seq<int>>, mem: seq<int>, o: int, b: seq<int>, i: int)
    requires 0 <= o <= |mem| && b == ArgBlock(args) && mem[o..] == b && |b| <= PHYS_BASE && 0 <= i <= |args|
    ensures WordAt(mem, o + 4 * i) == if i < |args| then ArgAddress(args, i) else 0
  {
    BlockParts(args, b);
    if i < |args| {
      PointersAt(args, 0, i);
      SliceOf(b, 4 * |args|, 4 * i, 4 * i + 4);
      PackedSplit(args, i);
      WordIn(mem, o, b, 4 * i, ArgAddress(args, i));
    } else {
      WordIn(mem, o, b, 4 * i, 0);
    }
  }

  lemma HeadWords(args: seq<seq<int>>, mem: seq<int>, o: int, f: seq<int>)
    requires 0 <= o <= |mem| && f == Frame(args) && mem[o..] == f && |f| <= PHYS_BASE
    ensures WordAt(mem, o) == 0
    ensures WordAt(mem, o + 4) == |args| && WordAt(mem, o + 8) == PHYS_BASE - |ArgBlock(args)|
  {
    FrameParts(args, f);
    WordIn(mem, o, f, 0, 0);
    WordIn(mem, o, f, 4, |args|);
    WordIn(mem, o, f, 8, PHYS_BASE - |ArgBlock(args)|);
  }

  lemma BlockInFrame(args: seq<seq<int>>, mem: seq<int>, o: int)
    requires 0 <= o <= |mem| && mem[o..] == Frame(args)
    ensures o + 12 <= |mem| && mem[o + 12..] == ArgBlock(args)
  {
    FrameParts(args, Frame(args));
    DropDrop(mem, o, 12);
  }

  lemma BelowAligned(n: int)
    requires n % 4 == 0
    ensures (PHYS_BASE - n) % 4 == 0
  {
  }

  /** What a program finds on its stack, for any memory that holds the frame up to PHYS_BASE, as bytes from address
      `base` on. */
  lemma ProgramFindsArgs(args: seq<seq<int>>, mem: seq<int>, base: int, esp: int, i: int)
    requires |mem| == PHYS_BASE - base && base <= esp && esp == PHYS_BASE - FrameSize(args) && 0 <= esp
    requires mem[esp - base..] == Frame(args) && 0 <= i <= |args|
    ensures esp % 4 == 0 && WordAt(mem, esp - base) == 0
    ensures WordAt(mem, esp + 4 - base) == |args| && WordAt(mem, esp + 8 - base) == esp + 12
    ensures WordAt(mem, esp + 12 + 4 * i - base) == if i < |args| then ArgAddress(args, i) else 0
  {
    SizeAligned(args);
    BelowAligned(FrameSize(args));
    HeadWords(args, mem, esp - base, Frame(args));
    BlockInFrame(args, mem, esp - base);
    BlockWords(args, mem, esp - base + 12, ArgBlock(args), i);
  }

  lemma SuffixString(mem: seq<int>, t: seq<int>, more: seq<int>, p: int)
    requires 0 <= p <= |mem| && mem[p..] == t + [0] + more && 0 !in t
    ensures CString(mem, p) == t
  {
    forall k | 0 <= k < |t|
      ensures t[k] == mem[p + k] != 0
    {
      assert mem[p..][k] == t[k] && t[k] in t;
    }
    assert mem[p..][|t|] == 0;
    CStringIs(mem, p, t);
  }

  /** The string that argument pointer `i` points to is argument `i`. */
  lemma PointerFindsArg(args: seq<seq<int>>, mem: seq<int>, base: int, esp: int, i: int)
    requires |mem| == PHYS_BASE - base && base <= esp && esp == PHYS_BASE - FrameSize(args)
    requires mem[esp - base..] == Frame(args) && 0 <= i < |args| && 0 !in args[i]
    ensures base <= ArgAddress(args, i) && CString(mem, ArgAddress(args, i) - base) == args[i]
  {
    var b, all, rest := ArgBlock(args), Packed(args), Packed(args[i..]);
    BlockInFrame(args, mem, esp - base);
    BlockParts(args, b);
    PackedSplit(args, i);
    DropDrop(mem, |mem| - |b|, |b| - |all|);
    DropDrop(mem, |mem| - |all|, |all| - |rest|);
    assert all[|all| - |rest|..] == rest;
    assert args[i..][1..] == args[i + 1..];
    SuffixString(mem, args[i], Packed(args[i + 1..]), |mem| - |rest|);
  }

  // ---- setup_user_stack() --------------------------------------------------------------------

  /** The stack page `p` holds `stack` from `esp` on, and below that what `was` holds. */
  ghost predicate Holds(p: seq<int>, was: seq<int>, esp: int, stack: seq<int>) {
    |was| == PGSIZE && BASE <= esp && esp == PHYS_BASE - |stack| && p == was[..esp - BASE] + stack
  }

  /** Moves the stack pointer down, checks it, and stores the bytes there. The stack page is the only page mapped at
      that address, so the check fails just below it. */
  method Push(page: array<int>, esp: int, bytes: seq<int>, ghost was: seq<int>, ghost stack: seq<int>)
    returns (ok: bool, esp': int)
    requires Holds(page[..], was, esp, stack)
    modifies page
    ensures esp' == esp - |bytes| && (ok <==> BASE <= esp')
    ensures ok ==> Holds(page[..], was, esp', bytes + stack)
  {
    esp' := esp - |bytes|;
    if esp' < BASE {
      return false, esp';
    }
    ghost var before := page[..];
    Store(page, esp' - BASE, bytes);
    assert page[..] == before[..esp' - BASE] + bytes + before[esp - BASE..];
    StackGrows(was, esp - BASE, esp' - BASE, bytes, stack);
    return true, esp';
  }

  lemma StackGrows(was: seq<int>, n: int, m: int, bytes: seq<int>, stack: seq<int>)
    requires 0 <= m && m + |bytes| == n <= |was|
    ensures (was[..n] + stack)[..m] + bytes + (was[..n] + stack)[n..] == was[..m] + (bytes + stack)
  {
  }

  /** memcpy(). */
  method Store(page: array<int>, o: int, bytes: seq<int>)
    requires 0 <= o && o + |bytes| <= page.Length
    modifies page
    ensures page[..] == old(page[..o]) + bytes + old(page[o + |bytes|..])
  {
    var k := 0;
    while k < |bytes|
      invariant 0 <= k <= |bytes|
      invariant forall i :: 0 <= i < page.Length ==> page[i] == if o <= i < o + k then bytes[i - o] else old(page[i])
    {
      page[o + k] := bytes[k];
      k := k + 1;
    }
  }

  /** The words found so far are in place, none beyond `limit`. */
  ghost predicate Ended(s: seq<int>, argv: seq<int>, words: seq<seq<int>>, limit: int) {
    && |argv| <= |words| && limit < |s|
    && forall i :: 0 <= i < |argv| ==> EndedAt(s, argv[i], words[i], limit)
  }

  ghost predicate EndedAt(s: seq<int>, p: int, w: seq<int>, limit: int) {
    0 <= p && p + |w| <= limit < |s| && CString(s, p) == w && s[p + |w|] == 0
  }

  /** Later splitting leaves them so. */
  lemma StaysEnded(s: seq<int>, s': seq<int>, p: int, w: seq<int>, limit: int, limit': int)
    requires EndedAt(s, p, w, limit) && |s'| == |s| && limit <= limit' < |s|
    requires forall i :: 0 <= i < limit ==> s'[i] == s[i]
    requires forall i :: 0 <= i < |s| && s[i] == 0 ==> s'[i] == 0
    ensures EndedAt(s', p, w, limit')
  {
    CStringIs(s', p, w);
  }

  lemma AllStayEnded(s: seq<int>, s': seq<int>, argv: seq<int>, words: seq<seq<int>>, limit: int, limit': int)
    requires Ended(s, argv, words, limit) && |s'| == |s| && limit <= limit' < |s|
    requires forall i :: 0 <= i < limit ==> s'[i] == s[i]
    requires forall i :: 0 <= i < |s| && s[i] == 0 ==> s'[i] == 0
    ensures Ended(s', argv, words, limit')
  {
    forall i | 0 <= i < |argv|
      ensures EndedAt(s', argv[i], words[i], limit')
    {
      StaysEnded(s, s', argv[i], words[i], limit, limit');
    }
  }

  /** Where the first loop stands: the words found are in place, and the others come from `save` on. */
  ghost predicate Splitting(s: seq<int>, argv: seq<int>, words: seq<seq<int>>, save: int) {
    Terminated(s) && 0 <= save < |s| && Ended(s, argv, words, save) && words[|argv|..] == Words(s, save)
  }

  /** One round of the first loop. */
  method SplitOne(a: array<int>, argv: seq<int>, start: int, ghost words: seq<seq<int>>)
    returns (token: Option<int>, save: int)
    requires Splitting(a[..], argv, words, start)
    modifies a
    ensures if token.None? then Ended(a[..], argv, words, save) && |argv| == |words|
            else Splitting(a[..], argv + [token.value], words, save) && start < save
  {
    ghost var s := a[..];
    token, save := StrtokR(a, [SPACE], start);
    AllStayEnded(s, a[..], argv, words, start, save);
    if token.Some? {
      NextWord(words, |argv|, CString(a[..], token.value), Words(a[..], save));
    }
  }

  /** The first loop: the places of the words, each ended by a null byte. */
  method Split(a: array<int>) returns (argv: seq<int>)
    requires Terminated(a[..]) && |Words(a[..], 0)| <= MAX_ARGS
    modifies a
    ensures |argv| == |Words(old(a[..]), 0)|
    ensures forall i :: 0 <= i < |argv| ==> 0 <= argv[i] && CString(a[..], argv[i]) == Words(old(a[..]), 0)[i]
  {
    ghost var words := Words(a[..], 0);
    argv := [];
    var token, save := SplitOne(a, argv, 0, words);
    while token.Some?
      invariant if token.Some? then Splitting(a[..], argv + [token.value], words, save)
                else Ended(a[..], argv, words, save) && |argv| == |words|
      decreases if token.Some? then a.Length - save + 1 else 0
    {
      argv := argv + [token.value];
      token, save := SplitOne(a, argv, save, words);
    }
  }

  lemma NextWord(words: seq<seq<int>>, n: int, w: seq<int>, rest: seq<seq<int>>)
    requires 0 <= n <= |words| && words[n..] == [w] + rest
    ensures n < |words| && words[n] == w && words[n + 1..] == rest
  {
    assert words[n..][0] == w && words[n..][1..] == rest;
  }

  lemma PackedStep(args: seq<seq<int>>, i: int)
    requires 0 <= i < |args|
    ensures Packed(args[i..]) == args[i] + [0] + Packed(args[i + 1..])
  {
    assert args[i..][1..] == args[i + 1..];
  }

  lemma PackedLess(args: seq<seq<int>>, i: int)
    requires 0 <= i <= |args|
    ensures |Packed(args[i..])| <= |Packed(args)|
  {
    PackedSplit(args, i);
  }

  /** The second loop: push the arguments, the last one first. */
  method PushStrings(a: array<int>, page: array<int>, argv: seq<int>, ghost was: seq<int>, ghost args: seq<seq<int>>)
    returns (ok: bool, esp: int, addresses: seq<int>)
    requires a != page && page.Length == PGSIZE && page[..] == was && |argv| == |args|
    requires forall i :: 0 <= i < |argv| ==> 0 <= argv[i] && CString(a[..], argv[i]) == args[i]
    modifies page
    ensures ok <==> |Packed(args)| <= PGSIZE
    ensures ok ==> Holds(page[..], was, esp, Packed(args))
    ensures ok ==> |addresses| == |args| && forall j :: 0 <= j < |args| ==> addresses[j] == ArgAddress(args, j)
  {
    esp, addresses := PHYS_BASE, argv;
    var i := |argv|;
    while i > 0
      invariant 0 <= i <= |argv| == |addresses| && Holds(page[..], was, esp, Packed(args[i..]))
      invariant forall j :: i <= j < |args| ==> addresses[j] == ArgAddress(args, j)
    {
      i := i - 1;
      PackedStep(args, i);
      PackedLess(args, i);
      ok, esp := Push(page, esp, CString(a[..], argv[i]) + [0], was, Packed(args[i + 1..]));
      if !ok {
        return;
      }
      addresses := addresses[i := esp];
    }
    assert args[0..] == args;
    ok := true;
  }

  /** The padding and the null pointer that ends the pointers. */
  method PushSentinel(page: array<int>, esp0: int, ghost was: seq<int>, ghost packed: seq<int>)
    returns (ok: bool, esp: int)
    requires Holds(page[..], was, esp0, packed)
    modifies page
    ensures ok <==> 4 + |Padding(|packed|)| + |packed| <= PGSIZE
    ensures ok ==> Holds(page[..], was, esp, Word(0) + (Padding(|packed|) + packed))
  {
    esp := esp0;
    var totalLen := PHYS_BASE - esp0;
    if totalLen % 4 != 0 {
      ok, esp := Push(page, esp, seq(4 - totalLen % 4, i => 0), was, packed);
      if !ok {
        return;
      }
    } else {
      assert Padding(|packed|) + packed == packed;
    }
    ok, esp := Push(page, esp, Word(0), was, Padding(|packed|) + packed);
  }

  lemma PointersStep(args: seq<seq<int>>, i: int, block: seq<int>)
    requires 0 <= i < |args|
    ensures Pointers(args, i) + block == Word(ArgAddress(args, i)) + (Pointers(args, i + 1) + block)
  {
  }

  /** The loop that pushes the addresses of the arguments, the last one first, below `block`. */
  method PushPointers(page: array<int>, esp0: int, addresses: seq<int>,
                      ghost was: seq<int>, ghost args: seq<seq<int>>, ghost block: seq<int>)
    returns (ok: bool, esp: int)
    requires |addresses| == |args| && Holds(page[..], was, esp0, block)
    requires forall j :: 0 <= j < |args| ==> addresses[j] == ArgAddress(args, j)
    modifies page
    ensures ok <==> 4 * |args| + |block| <= PGSIZE
    ensures ok ==> Holds(page[..], was, esp, Pointers(args, 0) + block)
  {
    esp := esp0;
    var i := |addresses|;
    assert Pointers(args, i) + block == block;
    while i > 0
      invariant 0 <= i <= |args| && Holds(page[..], was, esp, Pointers(args, i) + block)
    {
      i := i - 1;
      PointersStep(args, i, block);
      ok, esp := Push(page, esp, Word(addresses[i]), was, Pointers(args, i + 1) + block);
      if !ok {
        return;
      }
    }
    ok := true;
  }

  /** The address of the pointers, the number of arguments, and a return address. */
  method PushHead(page: array<int>, esp0: int, argc: int, ghost was: seq<int>, ghost block: seq<int>)
    returns (ok: bool, esp: int)
    requires Holds(page[..], was, esp0, block)
    modifies page
    ensures ok <==> 12 + |block| <= PGSIZE
    ensures ok ==> Holds(page[..], was, esp, Word(0) + (Word(argc) + (Word(PHYS_BASE - |block|) + block)))
  {
    ok, esp := Push(page, esp0, Word(esp0), was, block);
    if !ok {
      return;
    }
    ok, esp := Push(page, esp, Word(argc), was, Word(esp0) + block);
    if !ok {
      return;
    }
    ok, esp := Push(page, esp, Word(0), was, Word(argc) + (Word(esp0) + block));
  }

  /** setup_user_stack(): the stack page ends at PHYS_BASE. Without room for the whole frame the thread exits;
      otherwise the frame is on the stack and the page below it is as it was. */
  method SetupUserStack(fileName: array<int>, page: array<int>) returns (ok: bool, esp: int)
    requires fileName != page && page.Length == PGSIZE
    requires Terminated(fileName[..]) && |Words(fileName[..], 0)| <= MAX_ARGS
    modifies fileName, page
    ensures ok <==> FrameSize(Words(old(fileName[..]), 0)) <= PGSIZE
    ensures ok ==> Holds(page[..], old(page[..]), esp, Frame(Words(old(fileName[..]), 0)))
  {
    ghost var was, args := page[..], Words(fileName[..], 0);
    var argv := Split(fileName);
    var addresses;
    ok, esp, addresses := PushStrings(fileName, page, argv, was, args);
    if !ok {
      return;
    }
    ok, esp := PushSentinel(page, esp, was, Packed(args));
    if !ok {
      return;
    }
    ghost var below := Word(0) + (Padding(|Packed(args)|) + Packed(args));
    ok, esp := PushPointers(page, esp, addresses, was, args, below);
    if !ok {
      return;
    }
    ok, esp := PushHead(page, esp, |argv|, was, ArgBlock(args));
  }

  lemma StackPart(page: seq<int>, was: seq<int>, esp: int, stack: seq<int>)
    requires Holds(page, was, esp, stack)
    ensures |page| == PGSIZE && page[esp - BASE..] == stack
  {
  }

  /** For every command line whose frame fits the page: the program finds a null return address, the number of its
      words, and as many pointers followed by a null pointer, and the stack pointer is a multiple of 4. */
  lemma ArgumentCount(args: seq<seq<int>>, page: seq<int>, was: seq<int>, esp: int)
    requires Holds(page, was, esp, Frame(args))
    ensures |page| == PGSIZE && esp % 4 == 0 && WordAt(page, esp - BASE) == 0
    ensures WordAt(page, esp + 4 - BASE) == |args| && WordAt(page, esp + 8 - BASE) == esp + 12
    ensures WordAt(page, esp + 12 + 4 * |args| - BASE) == 0
  {
    StackPart(page, was, esp, Frame(args));
    ProgramFindsArgs(args, page, BASE, esp, |args|);
  }

  /** There are only zeros between the null pointer and the words, fewer than four. */
  lemma PaddingIsZero(args: seq<seq<int>>, page: seq<int>, was: seq<int>, esp: int, k: int)
    requires Holds(page, was, esp, Frame(args)) && esp + 16 + 4 * |args| <= k < PHYS_BASE - |Packed(args)|
    ensures |page| == PGSIZE && BASE <= k < esp + 20 + 4 * |args| && page[k - BASE] == 0
  {
    StackPart(page, was, esp, Frame(args));
    BlockInFrame(args, page, esp - BASE);
    var b, i := ArgBlock(args), k - esp - 12;
    assert page[k - BASE] == page[esp - BASE + 12..][i] == b[i];
    PaddingIn(args, b, i);
  }

  lemma PaddingIn(args: seq<seq<int>>, b: seq<int>, i: int)
    requires b == ArgBlock(args) && 4 * |args| + 4 <= i < |b| - |Packed(args)|
    ensures i < 4 * |args| + 8 && b[i] == 0
  {
    assert b[i] == Padding(|Packed(args)|)[i - 4 * |args| - 4];
  }

  /** And each pointer leads to its word of the command line. */
  lemma ArgumentsArrive(line: seq<int>, args: seq<seq<int>>, page: seq<int>, was: seq<int>, esp: int, i: int)
    requires Terminated(line) && args == Words(line, 0) && Holds(page, was, esp, Frame(args)) && 0 <= i < |args|
    ensures |page| == PGSIZE && BASE <= WordAt(page, esp + 12 + 4 * i - BASE)
    ensures CString(page, WordAt(page, esp + 12 + 4 * i - BASE) - BASE) == args[i]
  {
    TokensHaveNoNull(line, [SPACE], 0, args[i]);
    ArgumentFound(args, page, was, esp, i);
  }

  lemma ArgumentFound(args: seq<seq<int>>, page: seq<int>, was: seq<int>, esp: int, i: int)
    requires Holds(page, was, esp, Frame(args)) && 0 <= i < |args| && 0 !in args[i]
    ensures |page| == PGSIZE && BASE <= WordAt(page, esp + 12 + 4 * i - BASE)
    ensures CString(page, WordAt(page, esp + 12 + 4 * i - BASE) - BASE) == args[i]
  {
    StackPart(page, was, esp, Frame(args));
    PointerIs(args, page, esp, i);
    PointerFindsArg(args, page, BASE, esp, i);
  }

  lemma PointerIs(args: seq<seq<int>>, page: seq<int>, esp: int, i: int)
    requires |page| == PGSIZE && BASE <= esp && esp == PHYS_BASE - FrameSize(args) && page[esp - BASE..] == Frame(args)
    requires 0 <= i < |args|
    ensures WordAt(page, esp + 12 + 4 * i - BASE) == ArgAddress(args, i)
  {
    ProgramFindsArgs(args, page, BASE, esp, i);
  }
}

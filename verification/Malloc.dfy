/** threads/malloc.c: the block allocator, on top of the page allocator. */
module Malloc {
  import opened Basics
  import opened Arithmetic
  import opened Bitmap
  import opened Palloc

  /** sizeof (struct arena). */
  const ARENA_HEADER: nat := 12
  const DESC_CNT: nat := 7

  /** A block is one of the equal parts of an arena's page; a big block is block 0 of an arena of several pages. */
  datatype Block = Block(page: int, idx: int)

  datatype Owner = Small(d: int) | Big

  /** An arena's header: for a small arena `freeCnt` counts its free blocks, for a big block its pages. */
  datatype Arena = Arena(owner: Owner, freeCnt: int)

  /** The page pool, the arenas, each descriptor's free list, and, as history, the blocks that callers hold and how
      many bytes each asked for. Pages are numbered from the start of the pool. */
  datatype State = State(used: seq<bool>, extents: Extents, arenas: map<int, Arena>, free: seq<seq<Block>>,
                         live: map<Block, int>)

  // ---- Descriptors ---------------------------------------------------------------------------

  function BlockSize(d: int): (r: int)
    ensures r >= 16
  {
    if d <= 0 then 16 else 2 * BlockSize(d - 1)
  }

  function BlocksPerArena(d: int): int {
    (PGSIZE - ARENA_HEADER) / BlockSize(d)
  }

  lemma Sizes()
    ensures BlockSize(0) == 16 && BlockSize(1) == 32 && BlockSize(2) == 64 && BlockSize(3) == 128
    ensures BlockSize(4) == 256 && BlockSize(5) == 512 && BlockSize(6) == 1024
  {
  }

  lemma SmallSize(d: int)
    requires 0 <= d < DESC_CNT
    ensures BlockSize(d) <= 1024
  {
    Sizes();
  }

  lemma AtLeastThree(d: int)
    requires 0 <= d < DESC_CNT
    ensures BlocksPerArena(d) >= 3 && BlocksPerArena(d) * BlockSize(d) <= PGSIZE - ARENA_HEADER
  {
    Sizes();
  }

  /** malloc_init(): the loop makes one descriptor for each power of 2 from 16 below half a page. */
  method InitDescriptors() returns (sizes: seq<int>, perArena: seq<int>)
    ensures |sizes| == |perArena| == DESC_CNT
    ensures forall d :: 0 <= d < DESC_CNT ==> sizes[d] == BlockSize(d) && perArena[d] == BlocksPerArena(d)
  {
    Sizes();
    sizes, perArena := [], [];
    var size := 16;
    while size < PGSIZE / 2
      invariant |sizes| == |perArena| <= DESC_CNT && size == BlockSize(|sizes|)
      invariant forall d :: 0 <= d < |sizes| ==> sizes[d] == BlockSize(d) && perArena[d] == BlocksPerArena(d)
      decreases DESC_CNT - |sizes|
    {
      sizes, perArena := sizes + [size], perArena + [(PGSIZE - ARENA_HEADER) / size];
      size := size * 2;
    }
  }

  /** The smallest descriptor for a request, or DESC_CNT if it is too big for all. */
  method FindDescriptor(size: int) returns (d: int)
    ensures 0 <= d <= DESC_CNT && (d < DESC_CNT ==> size <= BlockSize(d))
    ensures forall e :: 0 <= e < d ==> BlockSize(e) < size
  {
    d := 0;
    while d < DESC_CNT && BlockSize(d) < size
      invariant 0 <= d <= DESC_CNT && forall e :: 0 <= e < d ==> BlockSize(e) < size
    {
      d := d + 1;
    }
  }

  // ---- Steps ---------------------------------------------------------------------------------

  function Blocks(p: int, n: int): seq<Block> {
    seq(if n < 0 then 0 else n, i => Block(p, i))
  }

  /** A new arena for descriptor `d` on page `p`, all of whose blocks go to the end of the free list. */
  function NewArena(s: State, d: int, p: int): State
    requires 0 <= d < |s.free| && 0 <= p < |s.used|
  {
    s.(used := Filled(s.used, p, 1, true), extents := s.extents[p := 1],
       arenas := s.arenas[p := Arena(Small(d), BlocksPerArena(d))],
       free := s.free[d := s.free[d] + Blocks(p, BlocksPerArena(d))])
  }

  /** Hand out the front block of a free list. */
  function Take(s: State, d: int, size: int): State
    requires 0 <= d < |s.free| && s.free[d] != [] && s.free[d][0].page in s.arenas
  {
    var b := s.free[d][0];
    s.(free := s.free[d := s.free[d][1..]],
       arenas := s.arenas[b.page := s.arenas[b.page].(freeCnt := s.arenas[b.page].freeCnt - 1)],
       live := s.live[b := size])
  }

  /** A big block of `n` pages from page `p` on. */
  function NewBig(s: State, p: int, n: int, size: int): State
    requires 0 <= p && 0 <= n && p + n <= |s.used|
  {
    s.(used := Filled(s.used, p, n, true), extents := s.extents[p := n], arenas := s.arenas[p := Arena(Big, n)],
       live := s.live[Block(p, 0) := size])
  }

  /** Put a block back in front of its free list. */
  function PutBack(s: State, b: Block, d: int): State
    requires 0 <= d < |s.free| && b.page in s.arenas
  {
    s.(free := s.free[d := [b] + s.free[d]],
       arenas := s.arenas[b.page := s.arenas[b.page].(freeCnt := s.arenas[b.page].freeCnt + 1)],
       live := s.live - {b})
  }

  /** The list without the blocks of page `p` whose number is below `n`. */
  function Without(q: seq<Block>, p: int, n: int): seq<Block> {
    if q == [] then []
    else if q[0].page == p && q[0].idx < n then Without(q[1..], p, n)
    else [q[0]] + Without(q[1..], p, n)
  }

  /** Give a page group back to the pool. */
  function FreePages(s: State, p: int): State
    requires p in s.extents && 0 <= p && 0 <= s.extents[p] && p + s.extents[p] <= |s.used|
  {
    s.(used := Filled(s.used, p, s.extents[p], false), extents := s.extents - {p}, arenas := s.arenas - {p})
  }

  /** Take an unused arena's blocks off its free list, and free its page. */
  function DropArena(s: State, p: int, d: int): State
    requires 0 <= d < |s.free| && p in s.extents && 0 <= p && 0 <= s.extents[p] && p + s.extents[p] <= |s.used|
  {
    FreePages(s.(free := s.free[d := Without(s.free[d], p, BlocksPerArena(d))]), p)
  }

  // ---- The pages of a big block --------------------------------------------------------------

  /** DIV_ROUND_UP (size + sizeof *a, PGSIZE), in 32-bit arithmetic. */
  function BigPages(size: int): nat {
    ((size + ARENA_HEADER) % W + PGSIZE - 1) % W / PGSIZE
  }

  /** Up to 2^32 - 4108 bytes, that is as many pages as size and header fill; then it is 0 up to 2^32 - 12 bytes, and
      from there on the sum wraps round and it is 1. */
  lemma BigPagesIs(size: int)
    requires 1 <= size < W
    ensures size <= W - 4108 ==> size + ARENA_HEADER <= BigPages(size) * PGSIZE < size + ARENA_HEADER + PGSIZE
    ensures W - 4107 <= size <= W - ARENA_HEADER ==> BigPages(size) == 0
    ensures W - ARENA_HEADER < size ==> BigPages(size) == 1
  {
  }

  // ---- The invariant -------------------------------------------------------------------------

  ghost predicate Pick(b: Block) {
    true
  }

  /** Block `b` is a part of a small arena of descriptor `d`. */
  ghost predicate PartOf(s: State, b: Block, d: int) {
    b.page in s.arenas && s.arenas[b.page].owner == Small(d) && 0 <= b.idx < BlocksPerArena(d)
  }

  /** A live block is in an arena, of a descriptor that is big enough or of as many pages as malloc() computes; a block
      is on a free list exactly if it is a part of an arena of that descriptor and is not live. */
  ghost predicate BlockOk(s: State, b: Block) {
    && (b in s.live ==>
          && b.page in s.arenas && 1 <= s.live[b] < W
          && match s.arenas[b.page].owner
             case Small(d) => PartOf(s, b, d) && s.live[b] <= BlockSize(d)
             case Big => b.idx == 0 && s.arenas[b.page].freeCnt == BigPages(s.live[b]))
    && (forall d :: 0 <= d < |s.free| ==> (b in s.free[d] <==> PartOf(s, b, d) && b !in s.live))
  }

  ghost function FreeNumbers(live: map<Block, int>, p: int, n: int): set<int> {
    set i | 0 <= i < n && Block(p, i) !in live
  }

  /** A small arena counts its free blocks, and has a block in use, unless its page is `spare`. */
  ghost predicate ArenaOk(s: State, p: int, spare: int)
    requires p in s.arenas
  {
    && p in s.extents
    && match s.arenas[p].owner
       case Small(d) =>
         && 0 <= d < |s.free| && s.extents[p] == 1
         && s.arenas[p].freeCnt == |FreeNumbers(s.live, p, BlocksPerArena(d))|
         && (p != spare ==> s.arenas[p].freeCnt < BlocksPerArena(d))
       case Big => s.arenas[p].freeCnt == s.extents[p] && Block(p, 0) in s.live
  }

  ghost predicate Kept(s: State, spare: int) {
    && |s.free| == DESC_CNT
    && Exact(s.used, s.extents)
    && (forall d :: 0 <= d < |s.free| ==> NoDup(s.free[d]))
    && (forall b {:trigger Pick(b)} :: BlockOk(s, b))
    && (forall p {:trigger Look(p)} :: p in s.arenas ==> ArenaOk(s, p, spare))
  }

  ghost predicate Inv(s: State) {
    Kept(s, -1)
  }

  lemma AtBlock(s: State, b: Block, spare: int)
    requires Kept(s, spare)
    ensures BlockOk(s, b)
  {
    assert Pick(b);
  }

  lemma AtArena(s: State, p: int, spare: int)
    requires Kept(s, spare) && p in s.arenas
    ensures ArenaOk(s, p, spare) && ExtentOk(s.used, s.extents, p)
  {
    assert Look(p);
    assert ArenaOk(s, p, spare);
    AtExtent(s.used, s.extents, p);
  }

  // ---- malloc() keeps it ---------------------------------------------------------------------

  /** No block of a page that is not an arena's is live or free. */
  lemma FreshPage(s: State, p: int, b: Block)
    requires Inv(s) && p !in s.extents && b.page == p
    ensures p !in s.arenas && b !in s.live && forall d :: 0 <= d < |s.free| ==> b !in s.free[d]
  {
    assert Look(p);
    assert p in s.arenas ==> ArenaOk(s, p, -1);
    AtBlock(s, b, -1);
  }

  lemma {:induction false} AllNumbers(live: map<Block, int>, p: int, n: nat)
    requires forall i :: 0 <= i < n ==> Block(p, i) !in live
    ensures |FreeNumbers(live, p, n)| == n
  {
    if n > 0 {
      AllNumbers(live, p, n - 1);
      assert FreeNumbers(live, p, n) == FreeNumbers(live, p, n - 1) + {n - 1};
    } else {
      assert FreeNumbers(live, p, n) == {};
    }
  }

  lemma NewArenaBlocks(s: State, d: int, p: int, b: Block)
    requires Inv(s) && 0 <= d < DESC_CNT && 0 <= p < |s.used| && p !in s.extents
    ensures BlockOk(NewArena(s, d, p), b)
  {
    var n := BlocksPerArena(d);
    AtBlock(s, b, -1);
    assert b in Blocks(p, n) <==> b.page == p && 0 <= b.idx < n by {
      assert 0 <= b.idx < n ==> Blocks(p, n)[b.idx] == Block(p, b.idx);
    }
    if b.page == p {
      FreshPage(s, p, b);
    }
  }

  lemma NewArenaKeeps(s: State, d: int, p: int)
    requires Inv(s) && 0 <= d < DESC_CNT && 0 <= p < |s.used| && Uniform(s.used, p, 1, false)
    ensures Kept(NewArena(s, d, p), p)
  {
    var s', n := NewArena(s, d, p), BlocksPerArena(d);
    GetKeeps(s.used, s.extents, p, 1);
    forall b
      ensures BlockOk(s', b)
    {
      NewArenaBlocks(s, d, p, b);
    }
    forall e | 0 <= e < |s'.free|
      ensures NoDup(s'.free[e])
    {
      forall i | 0 <= i < |s.free[d]|
        ensures s.free[d][i].page != p
      {
        FreshPage(s, p, Block(p, s.free[d][i].idx));
      }
    }
    forall q | q in s'.arenas
      ensures ArenaOk(s', q, p)
    {
      NewArenaArenas(s, d, p, q);
    }
  }

  lemma NewArenaArenas(s: State, d: int, p: int, q: int)
    requires Inv(s) && 0 <= d < DESC_CNT && 0 <= p < |s.used| && p !in s.extents && q in NewArena(s, d, p).arenas
    ensures ArenaOk(NewArena(s, d, p), q, p)
  {
    if q == p {
      AtLeastThree(d);
      forall i | 0 <= i < BlocksPerArena(d)
        ensures Block(p, i) !in s.live
      {
        FreshPage(s, p, Block(p, i));
      }
      AllNumbers(s.live, p, BlocksPerArena(d));
    } else {
      AtArena(s, q, -1);
    }
  }

  lemma TakeBlocks(s: State, d: int, size: int, spare: int, b: Block)
    requires Kept(s, spare) && 0 <= d < DESC_CNT && s.free[d] != [] && 1 <= size <= BlockSize(d)
    requires s.free[d][0].page in s.arenas
    ensures BlockOk(Take(s, d, size), b)
  {
    var front := s.free[d][0];
    SmallSize(d);
    assert front in s.free[d];
    AtBlock(s, front, spare);
    AtBlock(s, b, spare);
    FrontOnce(s.free[d]);
  }

  lemma FrontOnce(q: seq<Block>)
    requires NoDup(q) && q != []
    ensures q[0] !in q[1..] && forall b :: b in q <==> b == q[0] || b in q[1..]
  {
    assert q == [q[0]] + q[1..];
  }

  lemma TakeArenas(s: State, d: int, size: int, spare: int, q: int)
    requires Kept(s, spare) && 0 <= d < DESC_CNT && s.free[d] != [] && s.free[d][0].page in s.arenas
    requires spare == -1 || spare == s.free[d][0].page
    requires q in s.arenas
    ensures ArenaOk(Take(s, d, size), q, -1)
  {
    var front := s.free[d][0];
    var s' := Take(s, d, size);
    assert front in s.free[d];
    AtBlock(s, front, spare);
    AtArena(s, q, spare);
    match s.arenas[q].owner
    case Small(e) =>
      var n := BlocksPerArena(e);
      if q == front.page {
        assert FreeNumbers(s'.live, q, n) == FreeNumbers(s.live, q, n) - {front.idx};
        assert front.idx in FreeNumbers(s.live, q, n);
        NumbersBelow(s.live, q, n);
      } else {
        assert FreeNumbers(s'.live, q, n) == FreeNumbers(s.live, q, n);
      }
    case Big =>
  }

  lemma {:induction false} NumbersBelow(live: map<Block, int>, p: int, n: int)
    requires n >= 0
    ensures |FreeNumbers(live, p, n)| <= n
  {
    if n > 0 {
      NumbersBelow(live, p, n - 1);
      var rest := FreeNumbers(live, p, n - 1);
      assert FreeNumbers(live, p, n) == if Block(p, n - 1) in live then rest else rest + {n - 1};
    } else {
      assert FreeNumbers(live, p, n) == {};
    }
  }

  lemma TakeKeeps(s: State, d: int, size: int, spare: int)
    requires Kept(s, spare) && 0 <= d < DESC_CNT && s.free[d] != [] && 1 <= size <= BlockSize(d)
    requires spare == -1 || spare == s.free[d][0].page
    ensures s.free[d][0].page in s.arenas && s.free[d][0] !in s.live && Inv(Take(s, d, size))
  {
    assert s.free[d][0] in s.free[d];
    AtBlock(s, s.free[d][0], spare);
    var s' := Take(s, d, size);
    forall b
      ensures BlockOk(s', b)
    {
      TakeBlocks(s, d, size, spare, b);
    }
    forall q | q in s'.arenas
      ensures ArenaOk(s', q, -1)
    {
      TakeArenas(s, d, size, spare, q);
    }
    forall e | 0 <= e < |s'.free|
      ensures NoDup(s'.free[e])
    {
      assert NoDup(s.free[e]);
    }
  }

  lemma NewBigKeeps(s: State, p: int, n: int, size: int)
    requires Inv(s) && 0 <= p && 1 <= n && p + n <= |s.used| && Uniform(s.used, p, n, false)
    requires 1 <= size < W && n == BigPages(size)
    ensures Block(p, 0) !in s.live && Inv(NewBig(s, p, n, size))
  {
    var s' := NewBig(s, p, n, size);
    GetKeeps(s.used, s.extents, p, n);
    FreshPage(s, p, Block(p, 0));
    forall b
      ensures BlockOk(s', b)
    {
      AtBlock(s, b, -1);
      if b.page == p {
        FreshPage(s, p, b);
      }
    }
    forall q | q in s'.arenas
      ensures ArenaOk(s', q, -1)
    {
      if q != p {
        AtArena(s, q, -1);
        match s.arenas[q].owner
        case Small(e) => assert FreeNumbers(s'.live, q, BlocksPerArena(e)) == FreeNumbers(s.live, q, BlocksPerArena(e));
        case Big =>
      }
    }
  }

  // ---- free() keeps it -----------------------------------------------------------------------

  lemma PutBackBlocks(s: State, front: Block, d: int, b: Block)
    requires Inv(s) && 0 <= d < DESC_CNT && front in s.live && PartOf(s, front, d)
    ensures BlockOk(PutBack(s, front, d), b)
  {
    AtBlock(s, front, -1);
    AtBlock(s, b, -1);
  }

  lemma PutBackArenas(s: State, front: Block, d: int, q: int)
    requires Inv(s) && 0 <= d < DESC_CNT && front in s.live && PartOf(s, front, d) && q in s.arenas
    ensures ArenaOk(PutBack(s, front, d), q, front.page)
  {
    var s' := PutBack(s, front, d);
    AtArena(s, q, -1);
    match s.arenas[q].owner
    case Small(e) =>
      var n := BlocksPerArena(e);
      if q == front.page {
        assert FreeNumbers(s'.live, q, n) == FreeNumbers(s.live, q, n) + {front.idx};
        assert front.idx !in FreeNumbers(s.live, q, n);
      } else {
        assert FreeNumbers(s'.live, q, n) == FreeNumbers(s.live, q, n);
      }
    case Big =>
  }

  lemma PutBackKeeps(s: State, front: Block, d: int)
    requires Inv(s) && 0 <= d < DESC_CNT && front in s.live && PartOf(s, front, d)
    ensures Kept(PutBack(s, front, d), front.page)
  {
    var s' := PutBack(s, front, d);
    forall b
      ensures BlockOk(s', b)
    {
      PutBackBlocks(s, front, d, b);
    }
    forall q | q in s'.arenas
      ensures ArenaOk(s', q, front.page)
    {
      PutBackArenas(s, front, d, q);
    }
    AtBlock(s, front, -1);
    forall e | 0 <= e < |s'.free|
      ensures NoDup(s'.free[e])
    {
      assert NoDup(s.free[e]);
    }
  }

  /** A page that has a block in use after all need not be spared. */
  lemma NotSpare(s: State, p: int, d: int)
    requires Kept(s, p) && p in s.arenas && s.arenas[p].owner == Small(d) && s.arenas[p].freeCnt < BlocksPerArena(d)
    ensures Inv(s)
  {
    forall b
      ensures BlockOk(s, b)
    {
      AtBlock(s, b, p);
    }
    forall q | q in s.arenas
      ensures ArenaOk(s, q, -1)
    {
      AtArena(s, q, p);
    }
  }

  lemma {:induction false} FullCount(live: map<Block, int>, p: int, n: nat, i: int)
    requires |FreeNumbers(live, p, n)| == n && 0 <= i < n
    ensures Block(p, i) !in live
    decreases n
  {
    var rest := FreeNumbers(live, p, n - 1);
    assert FreeNumbers(live, p, n) == if Block(p, n - 1) in live then rest else rest + {n - 1};
    NumbersBelow(live, p, n - 1);
    if i < n - 1 {
      FullCount(live, p, n - 1, i);
    }
  }

  lemma {:induction false} WithoutMembers(q: seq<Block>, p: int, n: int, b: Block)
    ensures b in Without(q, p, n) <==> b in q && !(b.page == p && b.idx < n)
  {
    if q != [] {
      WithoutMembers(q[1..], p, n, b);
      assert q == [q[0]] + q[1..];
    }
  }

  lemma {:induction false} WithoutNoDup(q: seq<Block>, p: int, n: int)
    requires NoDup(q)
    ensures NoDup(Without(q, p, n))
  {
    if q != [] {
      WithoutNoDup(q[1..], p, n);
      WithoutMembers(q[1..], p, n, q[0]);
    }
  }

  lemma DropBlocks(s: State, p: int, d: int, b: Block)
    requires Kept(s, p) && p in s.arenas && s.arenas[p].owner == Small(d) && s.arenas[p].freeCnt >= BlocksPerArena(d)
    requires 0 <= d < DESC_CNT && 0 <= p < |s.used| && p in s.extents && s.extents[p] == 1
    ensures BlockOk(DropArena(s, p, d), b)
  {
    var n := BlocksPerArena(d);
    AtArena(s, p, p);
    AtBlock(s, b, p);
    WithoutMembers(s.free[d], p, n, b);
    if b.page == p && 0 <= b.idx < n {
      NumbersBelow(s.live, p, n);
      FullCount(s.live, p, n, b.idx);
    }
  }

  lemma DropArenaKeeps(s: State, p: int, d: int)
    requires Kept(s, p) && p in s.arenas && s.arenas[p].owner == Small(d) && s.arenas[p].freeCnt >= BlocksPerArena(d)
    ensures 0 <= d < DESC_CNT && 0 <= p < |s.used| && p in s.extents && s.extents[p] == 1 && Inv(DropArena(s, p, d))
  {
    AtArena(s, p, p);
    var s' := DropArena(s, p, d);
    FreeKeeps(s.used, s.extents, p);
    WithoutNoDup(s.free[d], p, BlocksPerArena(d));
    forall b
      ensures BlockOk(s', b)
    {
      DropBlocks(s, p, d, b);
    }
    forall q | q in s'.arenas
      ensures ArenaOk(s', q, -1)
    {
      AtArena(s, q, p);
    }
  }

  /** free() of a big block. */
  function FreeBig(s: State, p: int): State
    requires p in s.extents && 0 <= p && 0 <= s.extents[p] && p + s.extents[p] <= |s.used|
  {
    FreePages(s.(live := s.live - {Block(p, 0)}), p)
  }

  lemma FreeBigKeeps(s: State, p: int)
    requires Inv(s) && p in s.arenas && s.arenas[p].owner == Big
    ensures p in s.extents && ExtentOk(s.used, s.extents, p) && Inv(FreeBig(s, p))
  {
    AtArena(s, p, -1);
    var s' := FreeBig(s, p);
    FreeKeeps(s.used, s.extents, p);
    forall b
      ensures BlockOk(s', b)
    {
      AtBlock(s, b, -1);
    }
    forall q | q in s'.arenas
      ensures ArenaOk(s', q, -1)
    {
      AtArena(s, q, -1);
      match s.arenas[q].owner
      case Small(e) => assert FreeNumbers(s'.live, q, BlocksPerArena(e)) == FreeNumbers(s.live, q, BlocksPerArena(e));
      case Big =>
    }
  }

  // ---- Every run -----------------------------------------------------------------------------

  datatype Step =
    | Malloc(size: Uint32)
    | Free(b: Block)
    | GetPages(n: int)   // another caller of the page allocator
    | PutPages(p: int)

  function MallocSmall(s: State, d: int, size: int): State
    requires 0 <= d < |s.free|
  {
    var r := Search(s.used, 0, 1, false);
    var s1 := if s.free[d] == [] && r.Found? then NewArena(s, d, r.idx) else s;
    if s1.free[d] != [] && s1.free[d][0].page in s1.arenas then Take(s1, d, size) else s
  }

  /** malloc() for a size too big for any descriptor; palloc_get_multiple() gives nothing for no pages. */
  function MallocBig(s: State, size: int): State {
    var n := BigPages(size);
    match Search(s.used, 0, n, false)
    case Found(p) => if n == 0 then s else NewBig(s, p, n, size)
    case Error => s
  }

  /** The smallest descriptor from `d` on for a request. */
  function DescriptorFor(size: int, d: int): (r: int)
    requires 0 <= d <= DESC_CNT
    ensures d <= r <= DESC_CNT && (r < DESC_CNT ==> size <= BlockSize(r))
    decreases DESC_CNT - d
  {
    if d < DESC_CNT && BlockSize(d) < size then DescriptorFor(size, d + 1) else d
  }

  function MallocStep(s: State, size: Uint32): State {
    if size == 0 then s
    else if DescriptorFor(size, 0) < |s.free| then MallocSmall(s, DescriptorFor(size, 0), size)
    else MallocBig(s, size)
  }

  /** The page group at `p` is inside the pool. */
  predicate Inside(s: State, p: int) {
    p in s.extents && 0 <= p && 1 <= s.extents[p] && p + s.extents[p] <= |s.used|
  }

  function FreeStep(s: State, b: Block): State
    requires b.page in s.arenas && Inside(s, b.page)
  {
    match s.arenas[b.page].owner
    case Small(d) =>
      if 0 <= d < |s.free| then
        var s1 := PutBack(s, b, d);
        if s1.arenas[b.page].freeCnt >= BlocksPerArena(d) then DropArena(s1, b.page, d) else s1
      else s
    case Big => FreeBig(s, b.page)
  }

  /** One step; callers free only what they hold, and a step that is not possible changes nothing. */
  function Next(s: State, step: Step): State {
    match step
    case Malloc(size) => MallocStep(s, size)
    case Free(b) => if b in s.live && b.page in s.arenas && Inside(s, b.page) then FreeStep(s, b) else s
    case GetPages(n) =>
      if n >= 1 && Search(s.used, 0, n, false).Found? then
        var p := Search(s.used, 0, n, false).idx;
        s.(used := Filled(s.used, p, n, true), extents := s.extents[p := n])
      else s
    case PutPages(p) => if p !in s.arenas && Inside(s, p) then FreePages(s, p) else s
  }

  function Run(s: State, steps: seq<Step>): State
    decreases |steps|
  {
    if steps == [] then s else Run(Next(s, steps[0]), steps[1..])
  }

  /** After malloc_init(), with an empty pool of `n` pages. */
  function Start(n: nat): State {
    State(seq(n, i => false), map[], map[], seq(DESC_CNT, i => []), map[])
  }

  lemma MallocSmallKeeps(s: State, d: int, size: int)
    requires Inv(s) && 0 <= d < DESC_CNT && 1 <= size <= BlockSize(d)
    ensures Inv(MallocSmall(s, d, size))
  {
    var r := Search(s.used, 0, 1, false);
    if s.free[d] != [] {
      TakeKeeps(s, d, size, -1);
    } else if r.Found? {
      var s1 := NewArena(s, d, r.idx);
      NewArenaKeeps(s, d, r.idx);
      AtLeastThree(d);
      assert s1.free[d][0] == Blocks(r.idx, BlocksPerArena(d))[0];
      TakeKeeps(s1, d, size, r.idx);
    }
  }

  lemma MallocBigKeeps(s: State, size: int)
    requires Inv(s) && 1 <= size < W
    ensures Inv(MallocBig(s, size))
  {
    var r, n := Search(s.used, 0, BigPages(size), false), BigPages(size);
    if r.Found? && n > 0 {
      NewBigKeeps(s, r.idx, n, size);
    }
  }

  lemma FreeStepKeeps(s: State, b: Block)
    requires Inv(s) && b in s.live && b.page in s.arenas && Inside(s, b.page)
    ensures Inv(FreeStep(s, b))
  {
    AtBlock(s, b, -1);
    AtArena(s, b.page, -1);
    match s.arenas[b.page].owner
    case Small(d) =>
      var s1 := PutBack(s, b, d);
      PutBackKeeps(s, b, d);
      if s1.arenas[b.page].freeCnt >= BlocksPerArena(d) {
        DropArenaKeeps(s1, b.page, d);
      } else {
        NotSpare(s1, b.page, d);
      }
    case Big =>
      FreeBigKeeps(s, b.page);
  }

  /** Pages that other callers get and put back are no arena's. */
  lemma OtherPagesKeep(s: State, used: seq<bool>, extents: Extents)
    requires Inv(s) && Exact(used, extents)
    requires forall p {:trigger Look(p)} :: p in s.arenas ==>
               p in extents && extents[p] == (if p in s.extents then s.extents[p] else 0)
    ensures Inv(s.(used := used, extents := extents))
  {
    var s' := s.(used := used, extents := extents);
    forall b
      ensures BlockOk(s', b)
    {
      AtBlock(s, b, -1);
    }
    forall q | q in s'.arenas
      ensures ArenaOk(s', q, -1)
    {
      AtArena(s, q, -1);
      assert Look(q);
    }
  }

  lemma GetPagesKeeps(s: State, p: nat, n: nat)
    requires Inv(s) && 1 <= n && p + n <= |s.used| && Uniform(s.used, p, n, false)
    ensures Inv(s.(used := Filled(s.used, p, n, true), extents := s.extents[p := n]))
  {
    GetKeeps(s.used, s.extents, p, n);
    forall q | q in s.arenas
      ensures q in s.extents && q != p
    {
      AtArena(s, q, -1);
    }
    OtherPagesKeep(s, Filled(s.used, p, n, true), s.extents[p := n]);
  }

  lemma PutPagesKeeps(s: State, p: int)
    requires Inv(s) && p !in s.arenas && Inside(s, p)
    ensures Inv(FreePages(s, p))
  {
    FreeKeeps(s.used, s.extents, p);
    forall q | q in s.arenas
      ensures q in s.extents && q != p
    {
      AtArena(s, q, -1);
    }
    assert s.arenas - {p} == s.arenas;
    OtherPagesKeep(s, Filled(s.used, p, s.extents[p], false), s.extents - {p});
  }

  lemma NextKeepsInv(s: State, step: Step)
    requires Inv(s)
    ensures Inv(Next(s, step))
  {
    match step
    case Malloc(size) =>
      if size >= 1 {
        if DescriptorFor(size, 0) < DESC_CNT {
          MallocSmallKeeps(s, DescriptorFor(size, 0), size);
        } else {
          MallocBigKeeps(s, size);
        }
      }
    case Free(b) =>
      if b in s.live && b.page in s.arenas && Inside(s, b.page) {
        FreeStepKeeps(s, b);
      }
    case GetPages(n) =>
      if n >= 1 && Search(s.used, 0, n, false).Found? {
        GetPagesKeeps(s, Search(s.used, 0, n, false).idx, n);
      }
    case PutPages(p) =>
      if p !in s.arenas && Inside(s, p) {
        PutPagesKeeps(s, p);
      }
  }

  lemma StartInv(n: nat)
    ensures Inv(Start(n))
  {
    var s := Start(n);
    forall b
      ensures BlockOk(s, b)
    {
    }
  }

  lemma {:induction false} RunKeepsInv(s: State, steps: seq<Step>)
    requires Inv(s)
    ensures Inv(Run(s, steps))
    decreases |steps|
  {
    if steps != [] {
      NextKeepsInv(s, steps[0]);
      RunKeepsInv(Next(s, steps[0]), steps[1..]);
    }
  }

  // ---- Addresses -----------------------------------------------------------------------------

  /** The address of a block, from the start of the pool: a + 1 for a big block, arena_to_block() otherwise. */
  function Address(s: State, b: Block): int
    requires b.page in s.arenas
  {
    b.page * PGSIZE + ARENA_HEADER + match s.arenas[b.page].owner
                                     case Small(d) => b.idx * BlockSize(d)
                                     case Big => 0
  }

  /** How many bytes the caller may use, block_size(). */
  function Capacity(s: State, b: Block): int
    requires b.page in s.arenas
  {
    match s.arenas[b.page].owner
    case Small(d) => BlockSize(d)
    case Big => s.arenas[b.page].freeCnt * PGSIZE - ARENA_HEADER
  }

  lemma Parts(i: int, j: int, size: int, n: int)
    requires 0 <= i < j < n && size >= 1
    ensures 0 <= i * size && i * size + size <= j * size && j * size + size <= n * size
  {
    MulGap(i, j, size);
    MulGap(j, n, size);
    MulGap(0, i, size);
  }

  lemma MulGap(i: int, j: int, size: int)
    requires i <= j && size >= 1
    ensures i * size <= j * size && (i < j ==> i * size + size <= j * size)
  {
    MulMinus(j, i, size);
    MulMinus(j - i, 1, size);
    if i < j {
      NonNegative(j - i - 1, size);
    }
  }

  lemma NonNegative(a: int, b: int)
    requires a >= 0 && b >= 0
    ensures a * b >= 0
  {
  }

  /** A live block lies after its arena's header, inside the pages of the arena. */
  lemma LiveInside(s: State, b: Block)
    requires Inv(s) && b in s.live
    ensures b.page in s.arenas && b.page in s.extents
    ensures b.page * PGSIZE + ARENA_HEADER <= Address(s, b)
    ensures Address(s, b) + Capacity(s, b) <= (b.page + s.extents[b.page]) * PGSIZE
  {
    AtBlock(s, b, -1);
    AtArena(s, b.page, -1);
    match s.arenas[b.page].owner
    case Small(d) =>
      AtLeastThree(d);
      MulGap(0, b.idx, BlockSize(d));
      MulGap(b.idx, BlocksPerArena(d), BlockSize(d));
    case Big =>
  }

  /** block_to_arena(): rounding a live block's address down to a page gives its arena, and the place in the page
      gives its number back. */
  lemma BlockToArena(s: State, b: Block)
    requires Inv(s) && b in s.live
    ensures b.page in s.arenas && Address(s, b) / PGSIZE == b.page
    ensures match s.arenas[b.page].owner
            case Small(d) => (Address(s, b) % PGSIZE - ARENA_HEADER) % BlockSize(d) == 0
                             && (Address(s, b) % PGSIZE - ARENA_HEADER) / BlockSize(d) == b.idx
            case Big => Address(s, b) % PGSIZE == ARENA_HEADER
  {
    LiveInside(s, b);
    AtBlock(s, b, -1);
    AtArena(s, b.page, -1);
    var offset := Address(s, b) - b.page * PGSIZE;
    QuotientIs(Address(s, b), PGSIZE, b.page, offset);
    match s.arenas[b.page].owner
    case Small(d) => QuotientIs(offset - ARENA_HEADER, BlockSize(d), b.idx, 0);
    case Big =>
  }

  /** A live block is at least as big as asked for exactly if that and the header come to at most 2^32 bytes. */
  lemma BigEnough(s: State, b: Block)
    requires Inv(s) && b in s.live
    ensures b.page in s.arenas && (s.live[b] <= Capacity(s, b) <==> s.live[b] <= W - ARENA_HEADER)
  {
    AtBlock(s, b, -1);
    AtArena(s, b.page, -1);
    BigPagesIs(s.live[b]);
    match s.arenas[b.page].owner
    case Small(d) => SmallSize(d);
    case Big =>
  }

  /** Over every run of malloc(), free() and other use of the pages: a live block is inside the pages of its arena,
      which the page bitmap marks as used, and is at least as big as asked for exactly if that is at most 2^32 - 12. */
  lemma LiveBlocksFit(n: nat, steps: seq<Step>, s: State, b: Block)
    requires s == Run(Start(n), steps) && b in s.live
    ensures b.page in s.arenas && b.page in s.extents
    ensures s.live[b] <= Capacity(s, b) <==> s.live[b] <= W - ARENA_HEADER
    ensures b.page * PGSIZE + ARENA_HEADER <= Address(s, b)
    ensures Address(s, b) + Capacity(s, b) <= (b.page + s.extents[b.page]) * PGSIZE
    ensures 0 <= b.page && b.page + s.extents[b.page] <= |s.used|
    ensures forall i :: b.page <= i < b.page + s.extents[b.page] ==> s.used[i]
  {
    StartInv(n);
    RunKeepsInv(Start(n), steps);
    LiveInside(s, b);
    BigEnough(s, b);
    AtArena(s, b.page, -1);
  }

  lemma {:induction false} NoDescriptor(size: int, d: int)
    requires 0 <= d <= DESC_CNT && size > 1024
    ensures DescriptorFor(size, d) == DESC_CNT
    decreases DESC_CNT - d
  {
    Sizes();
    if d < DESC_CNT {
      NoDescriptor(size, d + 1);
    }
  }

  /** A request for 2^32 - 1 bytes gets a block of 4084 bytes whenever a page is free. */
  lemma HugeRequest(s: State, p: nat)
    requires Inv(s) && Search(s.used, 0, 1, false) == Found(p)
    ensures var s' := Next(s, Malloc(0xFFFF_FFFF));
            && Block(p, 0) !in s.live && s'.live == s.live[Block(p, 0) := 0xFFFF_FFFF]
            && p in s'.arenas && Capacity(s', Block(p, 0)) == 4084
  {
    NoDescriptor(0xFFFF_FFFF, 0);
    BigPagesIs(0xFFFF_FFFF);
    NewBigKeeps(s, p, 1, 0xFFFF_FFFF);
  }

  /** Requests from 2^32 - 4107 to 2^32 - 12 bytes fail, however many pages are free. */
  lemma NearlyHugeRequest(s: State, size: Uint32)
    requires Inv(s) && W - 4107 <= size <= W - ARENA_HEADER
    ensures Next(s, Malloc(size)) == s
  {
    NoDescriptor(size, 0);
    BigPagesIs(size);
  }

  /** Over every run, live blocks have no byte in common. */
  lemma LiveBlocksDisjoint(n: nat, steps: seq<Step>, s: State, b: Block, c: Block)
    requires s == Run(Start(n), steps) && b in s.live && c in s.live && b != c
    ensures b.page in s.arenas && c.page in s.arenas
    ensures Address(s, b) + Capacity(s, b) <= Address(s, c) || Address(s, c) + Capacity(s, c) <= Address(s, b)
  {
    StartInv(n);
    RunKeepsInv(Start(n), steps);
    LiveInside(s, b);
    LiveInside(s, c);
    AtBlock(s, b, -1);
    AtBlock(s, c, -1);
    if b.page == c.page {
      var d := s.arenas[b.page].owner.d;
      var i, j := if b.idx < c.idx then b.idx else c.idx, if b.idx < c.idx then c.idx else b.idx;
      Parts(i, j, BlockSize(d), BlocksPerArena(d));
    } else {
      ExtentsDisjoint(s.used, s.extents, b.page, c.page);
    }
  }

  /** Over every run: each free list holds exactly the blocks of its arenas that are not live, each once; an arena's
      count is the number of its blocks that are not live, and at least one block is; the page bitmap marks exactly
      the pages handed out. */
  lemma FreeListsExact(n: nat, steps: seq<Step>, s: State, p: int, d: int)
    requires s == Run(Start(n), steps) && 0 <= d < DESC_CNT
    ensures |s.free| == DESC_CNT && NoDup(s.free[d])
    ensures forall b :: b in s.free[d] <==> PartOf(s, b, d) && b !in s.live
    ensures p in s.arenas && s.arenas[p].owner == Small(d) ==>
              s.arenas[p].freeCnt == |FreeNumbers(s.live, p, BlocksPerArena(d))| < BlocksPerArena(d)
    ensures forall i :: 0 <= i < |s.used| ==> (s.used[i] <==> Covered(s.extents, i))
  {
    StartInv(n);
    RunKeepsInv(Start(n), steps);
    forall b
      ensures b in s.free[d] <==> PartOf(s, b, d) && b !in s.live
    {
      AtBlock(s, b, -1);
    }
    if p in s.arenas {
      AtArena(s, p, -1);
    }
    forall i | 0 <= i < |s.used| && Covered(s.extents, i)
      ensures s.used[i]
    {
      var q :| Look(q) && q in s.extents && q <= i < q + s.extents[q];
      AtExtent(s.used, s.extents, q);
    }
  }

  // ---- The functions, updating the descriptors and arenas in place ---------------------------

  /** The loop of malloc() that adds a new arena's blocks to the end of the free list. */
  method PushBlocks(q: seq<Block>, p: int, n: nat) returns (r: seq<Block>)
    ensures r == q + Blocks(p, n)
  {
    r := q;
    var i := 0;
    while i < n
      invariant 0 <= i <= n && r == q + Blocks(p, i)
    {
      r := r + [Block(p, i)];
      i := i + 1;
    }
  }

  /** list_remove(). */
  function RemoveOne(q: seq<Block>, b: Block): seq<Block>
    requires b in q
  {
    if q[0] == b then q[1..] else [q[0]] + RemoveOne(q[1..], b)
  }

  lemma {:induction false} RemoveNext(q: seq<Block>, p: int, i: int)
    requires NoDup(q) && Block(p, i) in q
    ensures Block(p, i) in Without(q, p, i) && RemoveOne(Without(q, p, i), Block(p, i)) == Without(q, p, i + 1)
  {
    WithoutMembers(q, p, i, Block(p, i));
    if q[0] == Block(p, i) {
      NoMore(q[1..], p, i);
    } else {
      RemoveNext(q[1..], p, i);
    }
  }

  lemma {:induction false} NoMore(q: seq<Block>, p: int, i: int)
    requires Block(p, i) !in q
    ensures Without(q, p, i) == Without(q, p, i + 1)
  {
    if q != [] {
      assert q[0] in q && q[0] == Block(q[0].page, q[0].idx);
      NoMore(q[1..], p, i);
    }
  }

  lemma {:induction false} WithoutNone(q: seq<Block>, p: int)
    requires forall b :: b in q && b.page == p ==> b.idx >= 0
    ensures Without(q, p, 0) == q
  {
    if q != [] {
      WithoutNone(q[1..], p);
    }
  }

  /** The loop of free() that takes an unused arena's blocks off the free list. */
  method RemoveBlocks(q: seq<Block>, p: int, n: nat) returns (r: seq<Block>)
    requires NoDup(q) && forall i :: 0 <= i < n ==> Block(p, i) in q
    requires forall b :: b in q && b.page == p ==> b.idx >= 0
    ensures r == Without(q, p, n)
  {
    r := q;
    WithoutNone(q, p);
    var i := 0;
    while i < n
      invariant 0 <= i <= n && r == Without(q, p, i)
    {
      RemoveNext(q, p, i);
      r := RemoveOne(r, Block(p, i));
      i := i + 1;
    }
  }

  class Heap {
    const pool: Pool
    var arenas: map<int, Arena>
    var free: seq<seq<Block>>
    ghost var live: map<Block, int>

    ghost function Abs(): State
      requires pool.usedMap.Valid()
      reads this, pool, pool.usedMap, pool.usedMap.words
    {
      State(pool.usedMap.Bits(), pool.extents, arenas, free, live)
    }

    ghost predicate Valid()
      reads this, pool, pool.usedMap, pool.usedMap.words
    {
      pool.Valid() && Inv(Abs())
    }

    /** malloc_init(), with a pool from which nothing has been taken. */
    constructor (pool: Pool)
      requires pool.Valid() && pool.extents == map[]
      ensures Valid() && this.pool == pool && live == map[] && arenas == map[]
    {
      this.pool := pool;
      arenas := map[];
      free := seq(DESC_CNT, i => []);
      live := map[];
      new;
      forall b
        ensures BlockOk(Abs(), b)
      {
      }
    }

    /** malloc() for a size that descriptor `d` serves. */
    method MallocFrom(d: int, ghost size: int) returns (r: Option<Block>)
      requires Valid() && 0 <= d < DESC_CNT && 1 <= size <= BlockSize(d)
      modifies this, pool`extents, pool.usedMap.words
      ensures pool.Valid() && Abs() == MallocSmall(old(Abs()), d, size)
      ensures r.None? ==> Abs() == old(Abs())
      ensures r.Some? ==> r.value !in old(live) && live == old(live)[r.value := size]
    {
      ghost var spare: int := -1;
      if free[d] == [] {
        var page := AddArena(d);
        if page.None? {
          return None;
        }
        spare := page.value;
      }
      TakeKeeps(Abs(), d, size, spare);
      var b := free[d][0];
      free := free[d := free[d][1..]];
      arenas := arenas[b.page := arenas[b.page].(freeCnt := arenas[b.page].freeCnt - 1)];
      live := live[b := size];
      return Some(b);
    }

    /** The part of malloc() that makes a new arena for an empty free list. */
    method AddArena(d: int) returns (r: Option<nat>)
      requires Valid() && 0 <= d < DESC_CNT && free[d] == []
      modifies this, pool`extents, pool.usedMap.words
      ensures pool.Valid() && (r.None? <==> Search(old(Abs()).used, 0, 1, false).Error?)
      ensures r.None? ==> Abs() == old(Abs())
      ensures r.Some? ==> Search(old(Abs()).used, 0, 1, false) == Found(r.value)
      ensures r.Some? ==> Abs() == NewArena(old(Abs()), d, r.value) && Kept(Abs(), r.value)
      ensures r.Some? ==> free[d] != [] && free[d][0].page == r.value
    {
      ghost var s := Abs();
      var page := pool.GetMultiple(1);
      if page.None? {
        return None;
      }
      var p := page.value - pool.base;
      arenas := arenas[p := Arena(Small(d), BlocksPerArena(d))];
      AtLeastThree(d);
      var q := PushBlocks(free[d], p, BlocksPerArena(d));
      free := free[d := q];
      NewArenaKeeps(s, d, p);
      assert free[d][0] == Blocks(p, BlocksPerArena(d))[0];
      return Some(p);
    }

    /** malloc() for a size too big for any descriptor. */
    method MallocPages(size: Uint32) returns (r: Option<Block>)
      requires Valid() && size >= 1
      modifies this, pool`extents, pool.usedMap.words
      ensures pool.Valid() && Abs() == MallocBig(old(Abs()), size)
      ensures r.None? ==> Abs() == old(Abs())
      ensures r.Some? ==> r.value !in old(live) && live == old(live)[r.value := size]
    {
      var n := ((size + ARENA_HEADER) % W + PGSIZE - 1) % W / PGSIZE;
      ghost var s := Abs();
      var page := pool.GetMultiple(n);
      if page.None? {
        return None;
      }
      var p := page.value - pool.base;
      NewBigKeeps(s, p, n, size);
      arenas := arenas[p := Arena(Big, n)];
      live := live[Block(p, 0) := size];
      return Some(Block(p, 0));
    }

    /** malloc(): the address of a new block, or None. */
    method Malloc(size: Uint32) returns (r: Option<int>, ghost b: Block)
      requires Valid()
      modifies this, pool`extents, pool.usedMap.words
      ensures Valid() && Abs() == Next(old(Abs()), Step.Malloc(size))
      ensures r.None? ==> Abs() == old(Abs())
      ensures r.Some? ==> b !in old(live) && live == old(live)[b := size] && b.page in arenas
      ensures r.Some? ==> r.value == Address(Abs(), b) && (size <= Capacity(Abs(), b) <==> size <= W - ARENA_HEADER)
    {
      b := Block(0, 0);
      ghost var s := Abs();
      NextKeepsInv(s, Step.Malloc(size));
      if size == 0 {
        return None, b;
      }
      var d := FindDescriptor(size);
      SameDescriptor(size, 0, d);
      var block;
      if d == DESC_CNT {
        block := MallocPages(size);
      } else {
        block := MallocFrom(d, size);
      }
      if block.None? {
        return None, b;
      }
      b := block.value;
      AtBlock(Abs(), b, -1);
      BigEnough(Abs(), b);
      var owner := arenas[block.value.page].owner;
      var offset := if owner.Small? then block.value.idx * BlockSize(owner.d) else 0;
      return Some(block.value.page * PGSIZE + ARENA_HEADER + offset), b;
    }

    /** free() of a block of a small arena. */
    method FreeSmall(b: Block, d: int)
      requires Valid() && b in live && 0 <= d < DESC_CNT && PartOf(Abs(), b, d) && Inside(Abs(), b.page)
      modifies this, pool`extents, pool.usedMap.words
      ensures pool.Valid() && Abs() == FreeStep(old(Abs()), b) && live == old(live) - {b}
    {
      ghost var s := Abs();
      PutBackKeeps(s, b, d);
      free := free[d := [b] + free[d]];
      var a := arenas[b.page].(freeCnt := arenas[b.page].freeCnt + 1);
      arenas := arenas[b.page := a];
      live := live - {b};
      assert Abs() == PutBack(s, b, d);
      if a.freeCnt >= BlocksPerArena(d) {
        DropArenaKeeps(Abs(), b.page, d);
        AllFree(Abs(), b.page, d);
        AtLeastThree(d);
        var q := RemoveBlocks(free[d], b.page, BlocksPerArena(d));
        free := free[d := q];
        pool.FreeMultiple(pool.base + b.page, 1);
        arenas := arenas - {b.page};
      }
    }

    /** free(), of an address that malloc() returned. */
    method Free(p: int, ghost block: Block)
      requires Valid() && block in live && block.page in arenas && p == Address(Abs(), block)
      modifies this, pool`extents, pool.usedMap.words
      ensures Valid() && Abs() == Next(old(Abs()), Step.Free(block)) && live == old(live) - {block}
    {
      ghost var s := Abs();
      BlockToArena(s, block);
      AtBlock(s, block, -1);
      AtArena(s, block.page, -1);
      NextKeepsInv(s, Step.Free(block));
      var page := p / PGSIZE;
      match arenas[page].owner
      case Small(d) =>
        var b := Block(page, (p % PGSIZE - ARENA_HEADER) / BlockSize(d));
        FreeSmall(b, d);
      case Big =>
        live := live - {Block(page, 0)};
        pool.FreeMultiple(pool.base + page, arenas[page].freeCnt);
        arenas := arenas - {page};
    }
  }

  lemma {:induction false} SameDescriptor(size: int, from: int, d: int)
    requires 0 <= from <= d <= DESC_CNT && (d < DESC_CNT ==> size <= BlockSize(d))
    requires forall e :: from <= e < d ==> BlockSize(e) < size
    ensures DescriptorFor(size, from) == d
    decreases d - from
  {
    if from < d {
      SameDescriptor(size, from + 1, d);
    }
  }

  /** All blocks of an arena with as many free blocks as it has blocks are on the free list. */
  lemma AllFree(s: State, p: int, d: int)
    requires Kept(s, p) && p in s.arenas && s.arenas[p].owner == Small(d) && s.arenas[p].freeCnt >= BlocksPerArena(d)
    requires 0 <= d < |s.free|
    ensures forall i :: 0 <= i < BlocksPerArena(d) ==> Block(p, i) in s.free[d]
    ensures forall b :: b in s.free[d] && b.page == p ==> b.idx >= 0
  {
    AtArena(s, p, p);
    var n := BlocksPerArena(d);
    AtLeastThree(d);
    NumbersBelow(s.live, p, n);
    forall i | 0 <= i < n
      ensures Block(p, i) in s.free[d]
    {
      FullCount(s.live, p, n, i);
      AtBlock(s, Block(p, i), p);
    }
    forall b | b in s.free[d]
      ensures b.idx >= 0
    {
      AtBlock(s, b, p);
    }
  }
}

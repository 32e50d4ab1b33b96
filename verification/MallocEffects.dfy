/** threads/malloc.c: what malloc() and free() do, from every reachable state. */
module MallocEffects {
  import opened Basics
  import opened Arithmetic
  import opened Bitmap
  import opened Palloc
  import opened Malloc

  /** Block `c` is live before and after, in the same place. */
  ghost predicate Stays(s: State, s': State, c: Block) {
    && c in s.live && c in s'.live && s'.live[c] == s.live[c] && c.page in s.arenas && c.page in s'.arenas
    && Address(s', c) == Address(s, c) && Capacity(s', c) == Capacity(s, c)
  }

  // ---- free() --------------------------------------------------------------------------------

  /** The arena of live block `b` has no other live block. */
  ghost predicate LastOfArena(s: State, b: Block) {
    forall c :: c in s.live && c.page == b.page ==> c == b
  }

  /** An arena counts as many free blocks as it has exactly if none is live. */
  lemma CountsAll(s: State, p: int, d: int, spare: int)
    requires Kept(s, spare) && p in s.arenas && s.arenas[p].owner == Small(d)
    ensures s.arenas[p].freeCnt >= BlocksPerArena(d) <==> forall c :: c in s.live ==> c.page != p
  {
    AtArena(s, p, spare);
    AtLeastThree(d);
    var n := BlocksPerArena(d);
    NumbersBelow(s.live, p, n);
    if s.arenas[p].freeCnt >= n {
      forall c | c in s.live
        ensures c.page != p
      {
        AtBlock(s, c, spare);
        if c.page == p {
          FullCount(s.live, p, n, c.idx);
        }
      }
    } else if forall c :: c in s.live ==> c.page != p {
      AllNumbers(s.live, p, n);
    }
  }

  lemma FreeSmallEffect(s: State, b: Block, d: int)
    requires Inv(s) && b in s.live && PartOf(s, b, d) && 0 <= d < DESC_CNT && Inside(s, b.page)
    ensures var s' := FreeStep(s, b);
            && s'.live == s.live - {b}
            && (LastOfArena(s, b) ==> s'.extents == s.extents - {b.page} && s'.arenas == s.arenas - {b.page})
            && (!LastOfArena(s, b) ==> s'.extents == s.extents && s'.used == s.used && s'.arenas.Keys == s.arenas.Keys)
            && forall p :: p in s'.arenas ==>
                 s'.arenas[p].owner == s.arenas[p].owner && (p != b.page ==> s'.arenas[p] == s.arenas[p])
  {
    var s1 := PutBack(s, b, d);
    PutBackKeeps(s, b, d);
    CountsAll(s1, b.page, d, b.page);
    assert LastOfArena(s, b) <==> forall c :: c in s1.live ==> c.page != b.page;
  }

  lemma FreeBigEffect(s: State, b: Block)
    requires Inv(s) && b in s.live && b.page in s.arenas && s.arenas[b.page].owner.Big? && Inside(s, b.page)
    ensures var s' := FreeStep(s, b);
            s'.live == s.live - {b} && s'.extents == s.extents - {b.page} && s'.arenas == s.arenas - {b.page}
    ensures LastOfArena(s, b)
  {
    AtBlock(s, b, -1);
    forall c | c in s.live && c.page == b.page
      ensures c == b
    {
      AtBlock(s, c, -1);
    }
  }

  /** free() of a live block takes it out of the live blocks and leaves every other where it is; its arena's pages go
      back exactly if it was the last live block there, and no other pages do. */
  lemma FreeReleases(n: nat, steps: seq<Step>, s: State, b: Block)
    requires s == Run(Start(n), steps) && b in s.live
    ensures var s' := Next(s, Free(b));
            && s'.live == s.live - {b} && (forall c :: c in s.live && c != b ==> Stays(s, s', c))
            && b.page in s.extents
            && s'.extents == if LastOfArena(s, b) then s.extents - {b.page} else s.extents
  {
    StartInv(n);
    RunKeepsInv(Start(n), steps);
    LiveInside(s, b);
    AtArena(s, b.page, -1);
    AtBlock(s, b, -1);
    match s.arenas[b.page].owner {
      case Small(d) => FreeSmallEffect(s, b, d);
      case Big => FreeBigEffect(s, b);
    }
    forall c | c in s.live && c != b
      ensures Stays(s, Next(s, Free(b)), c)
    {
      AtBlock(s, c, -1);
      AtArena(s, c.page, -1);
    }
  }

  /** The pages handed out are exactly the marked ones, so those of the arena are then free again. */
  lemma FreedPagesAreFree(n: nat, steps: seq<Step>, s: State, b: Block, i: int)
    requires s == Run(Start(n), steps) && b in s.live && LastOfArena(s, b)
    requires b.page in s.extents && b.page <= i < b.page + s.extents[b.page]
    ensures var s' := Next(s, Free(b)); 0 <= i < |s'.used| && !s'.used[i]
  {
    StartInv(n);
    RunKeepsInv(Start(n), steps);
    LiveInside(s, b);
    AtArena(s, b.page, -1);
    AtBlock(s, b, -1);
    match s.arenas[b.page].owner {
      case Small(d) =>
        var s1 := PutBack(s, b, d);
        PutBackKeeps(s, b, d);
        CountsAll(s1, b.page, d, b.page);
      case Big =>
    }
  }

  // ---- malloc() ------------------------------------------------------------------------------

  /** `n` free pages lie one after the other. */
  ghost predicate HasRoom(used: seq<bool>, n: nat) {
    exists p: nat :: p + n <= |used| && Uniform(used, p, n, false)
  }

  lemma RoomIsFound(used: seq<bool>, n: nat)
    ensures HasRoom(used, n) <==> Search(used, 0, n, false).Found?
  {
    var r := Search(used, 0, n, false);
    if r.Found? {
      assert Uniform(used, r.idx, n, false);
    }
  }

  /** The power of two that a small request is rounded up to. */
  function Rounded(size: int): int {
    if size <= 16 then 16 else if size <= 32 then 32 else if size <= 64 then 64 else if size <= 128 then 128
    else if size <= 256 then 256 else if size <= 512 then 512 else 1024
  }

  lemma RoundedDescriptor(size: int)
    requires 1 <= size <= 1024
    ensures DescriptorFor(size, 0) < DESC_CNT && BlockSize(DescriptorFor(size, 0)) == Rounded(size)
  {
    Sizes();
    var d := if size <= 16 then 0 else if size <= 32 then 1 else if size <= 64 then 2 else if size <= 128 then 3
             else if size <= 256 then 4 else if size <= 512 then 5 else 6;
    SameDescriptor(size, 0, d);
  }

  /** Some arena has a block of `size` bytes that is not live. */
  ghost predicate HasFreeBlock(s: State, size: int) {
    exists b: Block :: b.page in s.arenas && b !in s.live && s.arenas[b.page].owner.Small? && FreeIn(s, b, size)
  }

  ghost predicate FreeIn(s: State, b: Block, size: int)
    requires b.page in s.arenas && s.arenas[b.page].owner.Small?
  {
    BlockSize(s.arenas[b.page].owner.d) == size && 0 <= b.idx < BlocksPerArena(s.arenas[b.page].owner.d)
  }

  lemma {:induction false} SizesDiffer(d: int, e: int)
    requires 0 <= d < e
    ensures BlockSize(d) < BlockSize(e)
  {
    if d < e - 1 {
      SizesDiffer(d, e - 1);
    }
  }

  lemma FreeBlockIsListed(s: State, d: int)
    requires Inv(s) && 0 <= d < DESC_CNT
    ensures HasFreeBlock(s, BlockSize(d)) <==> s.free[d] != []
  {
    if s.free[d] != [] {
      var b := s.free[d][0];
      assert b in s.free[d];
      AtBlock(s, b, -1);
      assert FreeIn(s, b, BlockSize(d));
    }
    if b: Block :| b.page in s.arenas && b !in s.live && s.arenas[b.page].owner.Small? && FreeIn(s, b, BlockSize(d)) {
      AtBlock(s, b, -1);
      AtArena(s, b.page, -1);
      var e := s.arenas[b.page].owner.d;
      if e < d {
        SizesDiffer(e, d);
      } else if d < e {
        SizesDiffer(d, e);
      }
    }
  }

  /** A request can be met: a small one by a free block of its size or a free page, a big one by as many pages in a row
      as it takes. */
  ghost predicate CanMeet(s: State, size: Uint32) {
    && size > 0
    && (size <= 1024 ==> HasFreeBlock(s, Rounded(size)) || HasRoom(s.used, 1))
    && (size > 1024 ==> BigPages(size) > 0 && HasRoom(s.used, BigPages(size)))
  }

  /** What a request that is met gives: a block that was not live, of the right size; all others are where they were. */
  ghost predicate Gives(s: State, s': State, b: Block, size: Uint32) {
    && b !in s.live && s'.live == s.live[b := size] && b.page in s'.arenas
    && Capacity(s', b) == (if size <= 1024 then Rounded(size) else BigPages(size) * PGSIZE - ARENA_HEADER)
    && (forall c :: c in s.live ==> Stays(s, s', c))
  }

  lemma TakeGives(s: State, s1: State, d: int, size: Uint32, spare: int)
    requires Inv(s) && Kept(s1, spare) && s1.live == s.live && 0 <= d < DESC_CNT && s1.free[d] != []
    requires 1 <= size <= 1024 && BlockSize(d) == Rounded(size) && (spare == -1 || spare == s1.free[d][0].page)
    requires forall p :: p in s.arenas ==> p in s1.arenas && s1.arenas[p] == s.arenas[p]
    ensures s1.free[d][0].page in s1.arenas && Gives(s, Take(s1, d, size), s1.free[d][0], size)
  {
    var b := s1.free[d][0];
    TakeKeeps(s1, d, size, spare);
    assert b in s1.free[d];
    AtBlock(s1, b, spare);
    forall c | c in s.live
      ensures Stays(s, Take(s1, d, size), c)
    {
      AtBlock(s, c, -1);
    }
  }

  lemma SmallRequest(s: State, size: Uint32) returns (b: Block)
    requires Inv(s) && 1 <= size <= 1024
    ensures CanMeet(s, size) ==> Gives(s, Next(s, Malloc(size)), b, size)
    ensures !CanMeet(s, size) ==> Next(s, Malloc(size)) == s
  {
    var d, r := DescriptorFor(size, 0), Search(s.used, 0, 1, false);
    RoundedDescriptor(size);
    FreeBlockIsListed(s, d);
    RoomIsFound(s.used, 1);
    b := Block(0, 0);
    if s.free[d] != [] {
      TakeGives(s, s, d, size, -1);
      b := s.free[d][0];
    } else if r.Found? {
      var s1 := NewArena(s, d, r.idx);
      NewArenaKeeps(s, d, r.idx);
      AtLeastThree(d);
      assert s1.free[d][0] == Blocks(r.idx, BlocksPerArena(d))[0];
      GetKeeps(s.used, s.extents, r.idx, 1);
      FreshPage(s, r.idx, Block(r.idx, 0));
      TakeGives(s, s1, d, size, r.idx);
      b := s1.free[d][0];
    }
  }

  lemma BigRequest(s: State, size: Uint32) returns (b: Block)
    requires Inv(s) && size > 1024
    ensures CanMeet(s, size) ==> Gives(s, Next(s, Malloc(size)), b, size)
    ensures !CanMeet(s, size) ==> Next(s, Malloc(size)) == s
  {
    var n := BigPages(size);
    var r := Search(s.used, 0, n, false);
    NoDescriptor(size, 0);
    RoomIsFound(s.used, n);
    b := Block(0, 0);
    if r.Found? && n > 0 {
      b := Block(r.idx, 0);
      NewBigKeeps(s, r.idx, n, size);
      GetKeeps(s.used, s.extents, r.idx, n);
      FreshPage(s, r.idx, b);
      forall c | c in s.live
        ensures Stays(s, NewBig(s, r.idx, n, size), c)
      {
        AtBlock(s, c, -1);
      }
    }
  }

  /** malloc() gives a block exactly if the request can be met, and changes nothing otherwise. */
  lemma MallocGives(n: nat, steps: seq<Step>, s: State, size: Uint32) returns (b: Block)
    requires s == Run(Start(n), steps)
    ensures CanMeet(s, size) ==> Gives(s, Next(s, Malloc(size)), b, size)
    ensures !CanMeet(s, size) ==> Next(s, Malloc(size)) == s
  {
    StartInv(n);
    RunKeepsInv(Start(n), steps);
    if size == 0 {
      b := Block(0, 0);
    } else if size <= 1024 {
      b := SmallRequest(s, size);
    } else {
      b := BigRequest(s, size);
    }
  }

  /** A run of one more call. */
  lemma {:induction false} RunEnds(s: State, steps: seq<Step>, step: Step)
    ensures Run(s, steps + [step]) == Next(Run(s, steps), step)
    decreases |steps|
  {
    if steps == [] {
      assert Run(Next(s, step), []) == Next(s, step);
    } else {
      RunEnds(Next(s, steps[0]), steps[1..], step);
      assert (steps + [step])[1..] == steps[1..] + [step];
    }
  }
}

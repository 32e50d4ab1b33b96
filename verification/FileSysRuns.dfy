/** What the file system promises over every run. */
module FileSysRuns {
  import opened Basics
  import opened Arithmetic
  import opened Bitmap
  import opened InodeIO
  import opened Directory
  import opened FileSpace
  import opened OpenFiles
  import opened FileSys
  import opened FileContents

  // ---- do_format() ---------------------------------------------------------------------------

  const ROOT_ENTRIES: int := 16

  /** The free map's extent follows the two inodes, and the root directory's extent follows that. */
  function MapInode(n: nat): Inode {
    Inode(2, 4 * ElemCnt(n))
  }

  function RootInode(n: nat): Inode {
    Inode(2 + Sectors(4 * ElemCnt(n)), ROOT_ENTRIES * ENTRY)
  }

  function FormattedOwner(n: nat): map<int, int> {
    var map2, root := MapInode(n), RootInode(n);
    map x | x in Nobody(0, root.start + 1) :: if x == 0 || InExtent(map2, x) then 0 else 1
  }

  function EmptyEntry(): Entry {
    Entry(0, [], false)
  }

  function FormattedSpace(bytes: seq<int>, n: nat): Space {
    Space(Created(Created(bytes, FREE_MAP_SECTOR, MapInode(n)), ROOT_DIR_SECTOR, RootInode(n)),
          seq(n, i => i <= RootInode(n).start),
          map[FREE_MAP_SECTOR := MapInode(n), ROOT_DIR_SECTOR := RootInode(n)],
          seq(ROOT_ENTRIES, k => EmptyEntry()),
          FormattedOwner(n))
  }

  /** The state after filesys_init() with formatting, for a device of `n` sectors that hold `bytes`: the free map's
      inode is open for the free map. */
  function Start(bytes: seq<int>, n: nat): State {
    State(SaveMap(FormattedSpace(bytes, n), true), Table(map[FREE_MAP_SECTOR := Open(1, false, 0, MapInode(n))], map[]))
  }

  /** The device is big enough for formatting not to panic. */
  ghost predicate BigEnough(bytes: seq<int>, n: nat) {
    RootInode(n).start < n < W && |bytes| == SECTOR * n
  }

  lemma {:induction false} NoEntries(f: seq<int>, k: int)
    requires f == Zeros(ROOT_ENTRIES * ENTRY) && 0 <= k < ROOT_ENTRIES
    ensures Slot(f, k) == EmptyEntry()
  {
    var b := f[ENTRY * k..ENTRY * (k + 1)];
    assert forall j :: 0 <= j < ENTRY ==> b[j] == f[ENTRY * k + j] == 0;
    assert b[0] == 0 && b[1] == 0 && b[2] == 0 && b[3] == 0 && b[19] == 0;
    assert b[4..19][0] == 0;
  }

  lemma FormattedOwns(used: seq<bool>, n: nat, owner: map<int, int>, i: int)
    requires owner == FormattedOwner(n) && RootInode(n).start < n == |used| && Special(i)
    ensures InodeOwns(used, owner, if i == FREE_MAP_SECTOR then MapInode(n) else RootInode(n), i)
  {
    var cnt := Sectors(4 * ElemCnt(n));
    var keys := Nobody(0, RootInode(n).start + 1);
    assert cnt >= 0 && Sectors(ROOT_ENTRIES * ENTRY) == 1;
    assert forall x :: x in owner <==> x in keys;
    assert FREE_MAP_SECTOR in keys && ROOT_DIR_SECTOR in keys;
    forall x | InExtent(if i == FREE_MAP_SECTOR then MapInode(n) else RootInode(n), x)
      ensures x in owner && owner[x] == i && x != i
    {
      assert x in keys;
    }
  }

  lemma FormattedOwned(bytes: seq<int>, n: nat)
    requires BigEnough(bytes, n)
    ensures AllOwned(FormattedSpace(bytes, n).used, FormattedSpace(bytes, n).inodes, FormattedOwner(n))
  {
    var p := FormattedSpace(bytes, n);
    assert Sectors(ROOT_ENTRIES * ENTRY) == 1;
    forall i | i in p.inodes
      ensures InodeOwns(p.used, p.owner, p.inodes[i], i)
    {
      FormattedOwns(p.used, n, p.owner, i);
    }
    var keys := Nobody(0, RootInode(n).start + 1);
    forall x
      ensures SectorOk(p.used, p.inodes, p.owner, x)
    {
      assert x in p.owner <==> x in keys;
    }
  }

  lemma FormattedOk(bytes: seq<int>, n: nat)
    requires BigEnough(bytes, n)
    ensures SpaceOk(FormattedSpace(bytes, n))
  {
    var p := FormattedSpace(bytes, n);
    var bytes1 := Created(bytes, FREE_MAP_SECTOR, MapInode(n));
    FormattedOwned(bytes, n);
    assert Sectors(ROOT_ENTRIES * ENTRY) == 1;
    CreatedInode(bytes, FREE_MAP_SECTOR, MapInode(n));
    CreatedKeepsInode(bytes1, ROOT_DIR_SECTOR, RootInode(n), FREE_MAP_SECTOR);
    CreatedInode(bytes1, ROOT_DIR_SECTOR, RootInode(n));
    CreatedIsZero(bytes1, ROOT_DIR_SECTOR, RootInode(n));
    FormattedRoot(p, n);
  }

  lemma FormattedRoot(p: Space, n: nat)
    requires ROOT_DIR_SECTOR in p.inodes && p.inodes[ROOT_DIR_SECTOR] == RootInode(n) && FREE_MAP_SECTOR in p.inodes
    requires Fits(p.bytes, RootInode(n).start, RootInode(n).length) && p.slots == seq(ROOT_ENTRIES, k => EmptyEntry())
    requires FileBytes(p.bytes, RootInode(n).start, RootInode(n).length) == Zeros(ROOT_ENTRIES * ENTRY)
    ensures RootOk(p.bytes, p.inodes, p.slots)
  {
    var f := FileBytes(p.bytes, RootInode(n).start, RootInode(n).length);
    forall k | 0 <= k < ROOT_ENTRIES
      ensures Slots(f)[k] == EmptyEntry()
    {
      NoEntries(f, k);
    }
  }

  lemma StartInv(bytes: seq<int>, n: nat)
    requires BigEnough(bytes, n)
    ensures Inv(Start(bytes, n))
  {
    var s, p := Start(bytes, n), FormattedSpace(bytes, n);
    FormattedOk(bytes, n);
    SaveMapKeeps(p, true);
    assert FilesOf(s.table.files, FREE_MAP_SECTOR) == {} && DeniersOf(s.table.files, FREE_MAP_SECTOR) == {};
    forall j
      ensures SlotOk(p.slots, p.inodes, j) && OpenOk(s.table, p.inodes, p.slots, -1, j)
      ensures LiveOk(s.table, p.inodes, p.slots, -1, j)
      ensures FileOk(s.table, j)
    {
    }
  }

  // ---- The formatted state is what do_format() makes -----------------------------------------

  /** After free_map_init(): nothing is on the device, and the sectors of the two special inodes are marked. */
  function Blank(bytes: seq<int>, n: nat): Space {
    Space(bytes, seq(n, i => i < 2), map[], seq(ROOT_ENTRIES, k => EmptyEntry()),
          map[FREE_MAP_SECTOR := -1, ROOT_DIR_SECTOR := -1])
  }

  /** Which allocations of do_format() succeed: for the two inodes, for opening the free map's file, and for writing the
      free map the first and second time. */
  datatype FormatMem = FormatMem(inode1: bool, file: bool, map1: bool, inode2: bool, map2: bool)

  /** do_format(), or None where it panics: free_map_create() allocates without writing the map, as there is no file for
      it yet, and then writes it; dir_create() makes the root directory's inode. */
  function Format(bytes: seq<int>, n: nat, m: FormatMem): Option<Space> {
    match Search(Blank(bytes, n).used, 0, Sectors(4 * ElemCnt(n)), false)
    case Error => None
    case Found(x) =>
      var p := Adopt(Alloc(Blank(bytes, n), x, Sectors(4 * ElemCnt(n))), FREE_MAP_SECTOR, Inode(x, 4 * ElemCnt(n)));
      if m.inode1 && m.file && MapSaved(p, m.map1) then DirCreate(SaveMap(p, m.map1), m) else None
  }

  function DirCreate(p: Space, m: FormatMem): Option<Space>
    requires FREE_MAP_SECTOR in p.inodes
  {
    var c := InodeCreate(p, ROOT_DIR_SECTOR, ROOT_ENTRIES * ENTRY, m.inode2, m.map2);
    if c.1 then Some(c.0) else None
  }

  /** The allocations that do_format() needs all succeed. */
  predicate Suffices(n: nat, m: FormatMem) {
    m.inode1 && m.file && CanSave(n, m.map1) && m.inode2 && CanSave(n, m.map2)
  }

  /** First fit after a marked part. */
  lemma FirstFree(bits: seq<bool>, k: nat, cnt: nat)
    requires cnt > 0 && k <= |bits| && forall i :: 0 <= i < |bits| ==> bits[i] == (i < k)
    ensures Search(bits, 0, cnt, false) == if k + cnt <= |bits| then Found(k) else Error
  {
    var r := Search(bits, 0, cnt, false);
    if k + cnt <= |bits| {
      assert Uniform(bits, k, cnt, false);
    }
    if r.Found? {
      assert bits[r.idx] == false;
    }
  }

  /** After free_map_create(). */
  function WithMap(bytes: seq<int>, n: nat): Space
    requires 2 + Sectors(4 * ElemCnt(n)) <= n
  {
    Adopt(Alloc(Blank(bytes, n), 2, Sectors(4 * ElemCnt(n))), FREE_MAP_SECTOR, MapInode(n))
  }

  /** The free map file has room for the free map. */
  lemma MapFits(p: Space, n: nat, memory: bool)
    requires FREE_MAP_SECTOR in p.inodes && p.inodes[FREE_MAP_SECTOR] == MapInode(n) && |p.used| == n
    ensures MapSaved(p, memory) <==> CanSave(n, memory)
    ensures CanSave(n, memory) ==> SaveMap(p, memory).bytes == Patch(p.bytes, SECTOR * 2, MapBytes(p.used))
  {
    assert MapBytes(p.used)[..|MapBytes(p.used)|] == MapBytes(p.used);
  }

  lemma RootCreated(p: Space, n: nat, m: FormatMem)
    requires FREE_MAP_SECTOR in p.inodes && p.inodes[FREE_MAP_SECTOR] == MapInode(n) && |p.used| == n
    requires RootInode(n).start <= n
    requires forall i :: 0 <= i < n ==> p.used[i] == (i < RootInode(n).start)
    ensures DirCreate(p, m)
         == if RootInode(n).start < n && m.inode2 && CanSave(n, m.map2) then Some(WithRoot(p, n)) else None
  {
    assert Sectors(ROOT_ENTRIES * ENTRY) == 1;
    FirstFree(p.used, RootInode(n).start, 1);
    if RootInode(n).start < n {
      MapFits(Alloc(p, RootInode(n).start, 1), n, m.map2);
    }
  }

  /** After dir_create(). */
  function WithRoot(p: Space, n: nat): Space
    requires RootInode(n).start < n == |p.used|
  {
    var q := Alloc(p, RootInode(n).start, 1);
    Adopt(q.(bytes := Patch(p.bytes, SECTOR * 2, MapBytes(q.used))), ROOT_DIR_SECTOR, RootInode(n))
  }

  lemma SameOwners(n: nat, withMap: map<int, int>)
    requires var unowned := map[FREE_MAP_SECTOR := -1, ROOT_DIR_SECTOR := -1];
             withMap == Extended(unowned + Nobody(2, Sectors(4 * ElemCnt(n))), FREE_MAP_SECTOR, MapInode(n))
    ensures Extended(withMap + Nobody(RootInode(n).start, 1), ROOT_DIR_SECTOR, RootInode(n)) == FormattedOwner(n)
  {
    var cnt := Sectors(4 * ElemCnt(n));
    assert forall x :: x in withMap <==> 0 <= x < 2 + cnt;
    assert forall x :: x in withMap ==> withMap[x] == if x == 1 then -1 else 0;
    OwnersWithRoot(n, cnt, withMap);
  }

  lemma OwnersWithRoot(n: nat, cnt: nat, withMap: map<int, int>)
    requires cnt == Sectors(4 * ElemCnt(n)) && forall x :: x in withMap <==> 0 <= x < 2 + cnt
    requires forall x :: x in withMap ==> withMap[x] == if x == 1 then -1 else 0
    ensures Extended(withMap + Nobody(2 + cnt, 1), ROOT_DIR_SECTOR, RootInode(n)) == FormattedOwner(n)
  {
    assert Sectors(ROOT_ENTRIES * ENTRY) == 1;
    assert forall x :: x in FormattedOwner(n) <==> x in Nobody(0, 3 + cnt);
  }

  /** The map's last writing comes to the same before and after the root directory's inode is written. */
  lemma SameBytes(bytes: seq<int>, n: nat, map1: seq<int>, map2: seq<int>)
    requires RootInode(n).start < n && |bytes| == SECTOR * n && |map1| == |map2| == 4 * ElemCnt(n)
    ensures var b := Created(bytes, FREE_MAP_SECTOR, MapInode(n));
            Created(Patch(Patch(b, SECTOR * 2, map1), SECTOR * 2, map2), ROOT_DIR_SECTOR, RootInode(n))
            == Patch(Created(b, ROOT_DIR_SECTOR, RootInode(n)), SECTOR * 2, map2)
  {
    assert 4 * ElemCnt(n) <= SECTOR * Sectors(4 * ElemCnt(n));
  }

  /** do_format() succeeds exactly if the device is big enough and so is memory, and leaves the formatted space. */
  lemma FormatMakesStart(bytes: seq<int>, n: nat, m: FormatMem)
    requires n >= 2 && |bytes| == SECTOR * n
    ensures Format(bytes, n, m) == if RootInode(n).start < n && Suffices(n, m) then Some(Start(bytes, n).space)
            else None
  {
    FirstFree(Blank(bytes, n).used, 2, Sectors(4 * ElemCnt(n)));
    if RootInode(n).start <= n {
      var p := WithMap(bytes, n);
      MapFits(p, n, m.map1);
      RootCreated(SaveMap(p, m.map1), n, m);
      if RootInode(n).start < n && Suffices(n, m) {
        FormattedParts(bytes, n, m.map1);
      }
    }
  }

  lemma FormattedParts(bytes: seq<int>, n: nat, memory: bool)
    requires RootInode(n).start < n && |bytes| == SECTOR * n && CanSave(n, memory)
    ensures WithRoot(SaveMap(WithMap(bytes, n), memory), n) == Start(bytes, n).space
  {
    var p := SaveMap(WithMap(bytes, n), memory);
    var q := Alloc(p, RootInode(n).start, 1);
    MapFits(WithMap(bytes, n), n, memory);
    MapFits(FormattedSpace(bytes, n), n, true);
    assert q.used == FormattedSpace(bytes, n).used;
    SameOwners(n, p.owner);
    SameBytes(bytes, n, MapBytes(p.used), MapBytes(q.used));
  }

  // ---- Runs ----------------------------------------------------------------------------------

  /** A call, and which of its memory allocations succeed. */
  datatype Call = Call(step: Step, m: Mem)

  /** Whenever dir_add() runs, it is safe. */
  ghost predicate AllSafe(s: State, calls: seq<Call>)
    requires Inv(s)
    decreases |calls|
  {
    calls != [] ==>
      Safe(s, calls[0].step, calls[0].m) && (NextKeepsInv(s, calls[0].step, calls[0].m);
                                             AllSafe(Next(s, calls[0].step, calls[0].m), calls[1..]))
  }

  ghost function Run(s: State, calls: seq<Call>): (s': State)
    requires Inv(s) && AllSafe(s, calls)
    ensures Inv(s')
    decreases |calls|
  {
    if calls == [] then s
    else NextKeepsInv(s, calls[0].step, calls[0].m); Run(Next(s, calls[0].step, calls[0].m), calls[1..])
  }

  /** A state that some run from a formatted device leads to. */
  ghost predicate Reachable(s: State) {
    exists bytes, n, calls ::
      BigEnough(bytes, n) && (StartInv(bytes, n); AllSafe(Start(bytes, n), calls) && s == Run(Start(bytes, n), calls))
  }

  lemma ReachableInv(s: State)
    requires Reachable(s)
    ensures Inv(s)
  {
  }

  /** On every run, live inodes and their extents have no sector in common, and the free map marks them all. */
  lemma LiveSectorsApart(s: State, i: int, j: int, x: int)
    requires Reachable(s) && i in s.space.inodes && j in s.space.inodes && i != j
    ensures 0 <= i < |s.space.used| && s.space.used[i] && !InExtent(s.space.inodes[j], i)
    ensures !InExtent(s.space.inodes[i], i)
    ensures InExtent(s.space.inodes[i], x) ==>
              0 <= x < |s.space.used| && s.space.used[x] && !InExtent(s.space.inodes[j], x)
  {
    ReachableInv(s);
    AtInode(s.space, i);
    AtSector(s.space, i);
    InodesApart(s.space, i, j, x);
    assert Look(x) && Look(i);
    AtSector(s.space, x);
  }

  /** On every run, the live inodes are those that an entry names, those that are open, and the two that format makes;
      what is on disk agrees. */
  lemma LiveInodes(s: State, i: int)
    requires Reachable(s)
    ensures i in s.space.inodes <==> Special(i) || NamesSector(s.space.slots, i) || i in s.table.open
    ensures i in s.space.inodes ==>
              0 <= i && SECTOR * (i + 1) <= |s.space.bytes| && InodeAt(s.space.bytes, i) == s.space.inodes[i]
  {
    ReachableInv(s);
    At(s.table, s.space.inodes, s.space.slots, -1, -1, i);
    if i in s.space.inodes {
      AtInode(s.space, i);
    }
  }

  /** On every run, no two entries of the directory have the same name. */
  lemma NamesStayUnique(s: State)
    requires Reachable(s)
    ensures UniqueNames(s.space.slots)
  {
    ReachableInv(s);
    var slots := s.space.slots;
    forall i, j | 0 <= i < j < |slots| && slots[i].inUse && slots[j].inUse
      ensures slots[i].name != slots[j].name
    {
      At(s.table, s.space.inodes, slots, -1, -1, i);
      assert Look(j);
    }
  }

  /** On every run, an open inode counts its openers and those who deny writes, and is marked removed exactly if no
      entry names it. */
  lemma OpenCountsExact(s: State, i: int)
    requires Reachable(s) && i in s.table.open && !Special(i)
    ensures s.table.open[i].cnt == Handles(s.table.files, i) >= 1 && s.table.open[i].deny == Deniers(s.table.files, i)
    ensures s.table.open[i].removed <==> !NamesSector(s.space.slots, i)
  {
    ReachableInv(s);
    At(s.table, s.space.inodes, s.space.slots, -1, -1, i);
  }

  // ---- A run that loses a sector -------------------------------------------------------------

  /** Every allocation succeeds. */
  function Plenty(): Mem {
    Mem(true, true, true, true, true, true, Memory(ROOT_ENTRIES, ROOT_ENTRIES, true))
  }

  /** The first `k` sectors of the device are used, and no others. */
  ghost predicate UsedUpTo(p: Space, k: int) {
    && FREE_MAP_SECTOR in p.inodes && p.inodes[FREE_MAP_SECTOR] == MapInode(|p.used|)
    && forall i :: 0 <= i < |p.used| ==> p.used[i] == (i < k)
  }

  lemma AllocatesNext(p: Space, k: nat)
    requires UsedUpTo(p, k) && k < |p.used|
    ensures FreeMapAllocate(p, 1, true).1 == Some(k) && UsedUpTo(FreeMapAllocate(p, 1, true).0, k + 1)
    ensures |FreeMapAllocate(p, 1, true).0.used| == |p.used|
  {
    FirstFree(p.used, k, 1);
    MapFits(Alloc(p, k, 1), |p.used|, true);
  }

  lemma TakesNextTwo(p: Space, k: nat)
    requires SpaceOk(p) && UsedUpTo(p, k) && k + 1 < |p.used|
    ensures GetsInode(p, SECTOR, Plenty()) && DataStart(p, SECTOR, Plenty()) == k + 1
  {
    AllocatesNext(p, k);
    AllocatesNext(FreeMapAllocate(p, 1, true).0, k + 1);
  }

  lemma InodeCreatedAfter(p: Space, i: nat, k: nat)
    requires UsedUpTo(p, k) && k < |p.used| && i != FREE_MAP_SECTOR
    ensures var c := InodeCreate(p, i, SECTOR, true, true); c.1 && UsedUpTo(c.0, k + 1) && |c.0.used| == |p.used|
  {
    AllocatesNext(p, k);
  }

  lemma NamedAfter(p: Space, name: seq<int>, i: nat, k: nat)
    requires SpaceOk(p) && i < |p.used| && !Special(i) && i in p.inodes && 0 !in name && UsedUpTo(p, k)
    requires !Refused(p.slots, name, Plenty().dir)
    ensures var c := NameOrRelease(p, name, i, Plenty()).0;
            UsedUpTo(c, k) && |c.used| == |p.used| && c.slots == Added(p.slots, name, i, Plenty().dir)
  {
    AddEntryKeeps(p, name, i, Plenty().dir);
  }

  lemma CreatedAfter(p: Space, name: seq<int>, k: nat)
    requires SpaceOk(p) && UsedUpTo(p, k) && 1 < k && k + 1 < |p.used| && 0 !in name
    requires !Refused(p.slots, name, Plenty().dir)
    ensures var c := Create(p, name, SECTOR, Plenty()).0;
            UsedUpTo(c, k + 2) && |c.used| == |p.used| && c.slots == Added(p.slots, name, k, Plenty().dir)
  {
    AllocatesNext(p, k);
    AllocateKeeps(p, 1, true);
    FirstAllocated(p, true);
    var a := FreeMapAllocate(p, 1, true).0;
    InodeCreatedAfter(a, k, k + 1);
    InodeCreateKeeps(a, k, SECTOR, true, true);
    NamedAfter(InodeCreate(a, k, SECTOR, true, true).0, name, k, k + 2);
  }

  lemma OneCall(s: State, s': State, calls: seq<Call>)
    requires Inv(s) && calls != [] && Safe(s, calls[0].step, calls[0].m) && s' == Next(s, calls[0].step, calls[0].m)
    requires Inv(s') && AllSafe(s', calls[1..])
    ensures AllSafe(s, calls) && Run(s, calls) == Run(s', calls[1..])
  {
  }

  lemma NoCalls(s: State)
    requires Inv(s)
    ensures AllSafe(s, []) && Run(s, []) == s
  {
  }

  /** Once by a new name, after which the name is in the first entry. */
  lemma FirstCreateAdds(s: State, name: seq<int>, k: nat)
    requires Inv(s) && UsedUpTo(s.space, k) && 1 < k && k + 1 < |s.space.used| && 0 < |name| <= NAME_MAX && 0 !in name
    requires s.space.slots == seq(ROOT_ENTRIES, k => EmptyEntry())
    ensures Safe(s, CreateStep(name, SECTOR), Plenty())
    ensures var s' := Next(s, CreateStep(name, SECTOR), Plenty());
            && Inv(s') && UsedUpTo(s'.space, k + 2) && |s'.space.used| == |s.space.used|
            && FoundAt(s'.space.slots, name, ROOT_ENTRIES) < |s'.space.slots|
  {
    assert !s.space.slots[0].inUse;
    CreatedAfter(s.space, name, k);
    NextKeepsInv(s, CreateStep(name, SECTOR), Plenty());
    assert Added(s.space.slots, name, k, Plenty().dir)[0] == Entry(k, name, true);
  }

  /** No file is there, and the first `k` sectors are used. */
  ghost predicate NoFiles(s: State, k: int) {
    && Inv(s) && UsedUpTo(s.space, k) && s.space.slots == seq(ROOT_ENTRIES, k => EmptyEntry())
    && 1 < k && k + 3 < |s.space.used|
  }

  /** So it is on a freshly formatted device. */
  lemma StartNoFiles(bytes: seq<int>, n: nat)
    requires BigEnough(bytes, n) && RootInode(n).start + 4 < n
    ensures NoFiles(Start(bytes, n), RootInode(n).start + 1)
  {
    StartInv(bytes, n);
  }

  /** The calls are safe and leave sector `x` used and without an owner. */
  ghost predicate LeavesLost(s: State, calls: seq<Call>, x: int) {
    Inv(s) && AllSafe(s, calls) && Lost(Run(s, calls).space, x)
  }

  /** Creating a file of 512 bytes twice by the same name, when there is no file yet: the second call fails, and leaves
      a sector that no file has and that is not free. */
  lemma CreateTwiceLoses(s: State, name: seq<int>, k: nat, call: Call)
    requires NoFiles(s, k) && 0 < |name| <= NAME_MAX && 0 !in name && call == Call(CreateStep(name, SECTOR), Plenty())
    ensures LeavesLost(s, [call, call], k + 3)
  {
    FirstCreateAdds(s, name, k);
    var s1 := Next(s, call.step, call.m);
    var s2 := SecondCreateLoses(s1, name, k + 2);
    NoCalls(s2);
    assert [call, call][1..] == [call] && [call][1..] == [];
    OneCall(s1, s2, [call]);
    OneCall(s, s1, [call, call]);
  }

  lemma SecondCreateLoses(s: State, name: seq<int>, k: nat) returns (s': State)
    requires Inv(s) && UsedUpTo(s.space, k) && k + 1 < |s.space.used| && 0 !in name
    requires FoundAt(s.space.slots, name, ROOT_ENTRIES) < |s.space.slots|
    ensures Safe(s, CreateStep(name, SECTOR), Plenty()) && s' == Next(s, CreateStep(name, SECTOR), Plenty())
    ensures Inv(s') && Lost(s'.space, k + 1)
  {
    NextKeepsInv(s, CreateStep(name, SECTOR), Plenty());
    TakesNextTwo(s.space, k);
    CreateExistingLosesOne(s.space, name, Plenty(), k + 1);
    s' := Next(s, CreateStep(name, SECTOR), Plenty());
  }
}

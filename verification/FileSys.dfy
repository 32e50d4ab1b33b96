/** filesys/filesys.c, over inode.c, directory.c, file.c and free-map.c: the file system as a machine that takes one
    call at a time. */
module FileSys {
  import opened Basics
  import opened Arithmetic
  import opened Bitmap
  import opened InodeIO
  import opened Directory
  import opened FileSpace
  import opened OpenFiles

  datatype State = State(space: Space, table: Table)

  /** Which of a call's memory allocations succeed: for the root directory, for writing the free map the first,
      second and third time, for an inode, for a file, and for the directory's bounce buffers. */
  datatype Mem = Mem(root: bool, map1: bool, map2: bool, map3: bool, inode: bool, file: bool, dir: Memory)

  // ---- The free map --------------------------------------------------------------------------

  /** free_map_allocate(): if the map cannot be written, it is as before. */
  function FreeMapAllocate(p: Space, cnt: int, memory: bool): (Space, Option<int>)
    requires FREE_MAP_SECTOR in p.inodes && cnt >= 0
  {
    match Search(p.used, 0, cnt, false)
    case Error => (p, None)
    case Found(x) =>
      var p1 := Alloc(p, x, cnt);
      if MapSaved(p1, memory) then (SaveMap(p1, memory), Some(x)) else (Unalloc(SaveMap(p1, memory), x, cnt), None)
  }

  /** free_map_release(). */
  function FreeMapRelease(p: Space, start: int, cnt: int, memory: bool): Space
    requires FREE_MAP_SECTOR in p.inodes && 0 <= start && 0 <= cnt && start + cnt <= |p.used|
  {
    SaveMap(Unalloc(p, start, cnt), memory)
  }

  lemma AllocateFails(p: Space, cnt: int, memory: bool)
    requires SpaceOk(p) && cnt >= 0 && FreeMapAllocate(p, cnt, memory).1.None?
    ensures var p' := FreeMapAllocate(p, cnt, memory).0;
            SpaceOk(p') && p' == p.(bytes := p'.bytes) && OnlyIn(p.bytes, p'.bytes, p.inodes[FREE_MAP_SECTOR])
  {
    var r := Search(p.used, 0, cnt, false);
    if r.Found? {
      var p1 := Alloc(p, r.idx, cnt);
      AllocKeeps(p, r.idx, cnt);
      SaveMapWrites(p1, memory);
      SaveMapKeeps(p1, memory);
      UnallocKeeps(SaveMap(p1, memory), r.idx, cnt);
      AllocUndone(p, r.idx, cnt);
    }
  }

  lemma AllocUndone(p: Space, start: int, cnt: int)
    requires SpaceOk(p) && 0 <= start && 0 <= cnt && start + cnt <= |p.used| && Uniform(p.used, start, cnt, false)
    ensures Unalloc(Alloc(p, start, cnt), start, cnt) == p
  {
    forall x | x in Nobody(start, cnt)
      ensures x !in p.owner
    {
      AtSector(p, x);
    }
    assert p.owner + Nobody(start, cnt) - Nobody(start, cnt).Keys == p.owner;
    assert Filled(Filled(p.used, start, cnt, true), start, cnt, false) == p.used;
  }

  lemma AllocateKeeps(p: Space, cnt: int, memory: bool)
    requires SpaceOk(p) && cnt >= 0 && FreeMapAllocate(p, cnt, memory).1.Some?
    ensures var r := FreeMapAllocate(p, cnt, memory);
            && 0 <= r.1.value && r.1.value + cnt <= |p.used| && Uniform(p.used, r.1.value, cnt, false)
            && r.0 == Alloc(p, r.1.value, cnt).(bytes := r.0.bytes)
            && OnlyIn(p.bytes, r.0.bytes, p.inodes[FREE_MAP_SECTOR])
            && SpaceOk(r.0) && Unowned(r.0.owner, r.1.value, cnt)
  {
    var x := Search(p.used, 0, cnt, false).idx;
    AllocKeeps(p, x, cnt);
    SaveMapWrites(Alloc(p, x, cnt), memory);
    SaveMapKeeps(Alloc(p, x, cnt), memory);
  }

  lemma ReleaseKeeps(p: Space, start: int, cnt: int, memory: bool)
    requires SpaceOk(p) && 0 <= start && 0 <= cnt && start + cnt <= |p.used| && Unowned(p.owner, start, cnt)
    ensures SpaceOk(FreeMapRelease(p, start, cnt, memory))
    ensures var p' := FreeMapRelease(p, start, cnt, memory);
            p' == Unalloc(p, start, cnt).(bytes := p'.bytes) && OnlyIn(p.bytes, p'.bytes, p.inodes[FREE_MAP_SECTOR])
  {
    UnallocKeeps(p, start, cnt);
    SaveMapWrites(Unalloc(p, start, cnt), memory);
    SaveMapKeeps(Unalloc(p, start, cnt), memory);
  }

  // ---- filesys_create() ----------------------------------------------------------------------

  /** inode_create(). */
  function InodeCreate(p: Space, i: int, length: int, have: bool, memory: bool): (Space, bool)
    requires FREE_MAP_SECTOR in p.inodes && length >= 0
  {
    if !have then (p, false)
    else
      var a := FreeMapAllocate(p, Sectors(length), memory);
      if a.1.None? then (a.0, false) else (Adopt(a.0, i, Inode(a.1.value, length)), true)
  }

  function RootBytes(p: Space): (f: seq<int>)
    requires RootOk(p.bytes, p.inodes, p.slots)
  {
    FileBytes(p.bytes, p.inodes[ROOT_DIR_SECTOR].start, p.inodes[ROOT_DIR_SECTOR].length)
  }

  /** The root directory with entry `k` overwritten. */
  function WithEntry(p: Space, k: int, b: seq<int>): Space
    requires RootOk(p.bytes, p.inodes, p.slots) && 0 <= k < |p.slots| && |b| == ENTRY
  {
    p.(bytes := Patch(p.bytes, SECTOR * p.inodes[ROOT_DIR_SECTOR].start + ENTRY * k, b),
       slots := p.slots[k := Decode(b)])
  }

  lemma WithEntryKeeps(p: Space, k: int, b: seq<int>)
    requires SpaceOk(p) && 0 <= k < |p.slots| && |b| == ENTRY
    ensures SpaceOk(WithEntry(p, k, b)) && OnlyIn(p.bytes, WithEntry(p, k, b).bytes, p.inodes[ROOT_DIR_SECTOR])
  {
    var n, bytes' := p.inodes[ROOT_DIR_SECTOR], WithEntry(p, k, b).bytes;
    AtInode(p, ROOT_DIR_SECTOR);
    assert ENTRY * k + ENTRY <= n.length;
    PatchOnlyIn(p.bytes, n, ENTRY * k, b);
    WriteChangesFile(p.bytes, bytes', n.start, n.length, ENTRY * k, b);
    SlotWritten(RootBytes(p), FileBytes(bytes', n.start, n.length), k, b);
    FrameKeeps(p, ROOT_DIR_SECTOR, bytes', p.slots[k := Decode(b)]);
  }

  /** dir_add() to the root directory: the entry filled in is the one last read. */
  function AddEntry(p: Space, name: seq<int>, i: int, m: Memory): (Space, bool)
    requires RootOk(p.bytes, p.inodes, p.slots)
  {
    if Refused(p.slots, name, m) then (p, false)
    else (WithEntry(p, Place(p.slots, m.search), Fill(AddBase(RootBytes(p), m.search), name, i)), true)
  }

  lemma AddEntryKeeps(p: Space, name: seq<int>, i: int, m: Memory)
    requires SpaceOk(p) && 0 !in name && 0 <= i < W
    ensures SpaceOk(AddEntry(p, name, i, m).0)
    ensures var r := AddEntry(p, name, i, m);
            && r.1 == !Refused(p.slots, name, m) && r.0 == p.(bytes := r.0.bytes, slots := Added(p.slots, name, i, m))
            && OnlyIn(p.bytes, r.0.bytes, p.inodes[ROOT_DIR_SECTOR])
  {
    if !Refused(p.slots, name, m) {
      var b := AddBase(RootBytes(p), m.search);
      FillDecodes(b, name, i);
      WithEntryKeeps(p, Place(p.slots, m.search), Fill(b, name, i));
    }
  }

  /** The end of filesys_create(): dir_add(), and without success the inode's sector is released; the sectors of its
      data, which nobody then owns, are not. */
  function NameOrRelease(p: Space, name: seq<int>, i: int, m: Mem): (Space, bool)
    requires RootOk(p.bytes, p.inodes, p.slots) && 0 <= i < |p.used| && i != FREE_MAP_SECTOR
  {
    var d := AddEntry(p, name, i, m.dir);
    if d.1 then d else (FreeMapRelease(Disown(p, i), i, 1, m.map3), false)
  }

  /** filesys_create() from inode_create() on. */
  function CreateAt(p: Space, name: seq<int>, size: int, i: int, m: Mem): (Space, bool)
    requires SpaceOk(p) && Unowned(p.owner, i, 1) && 0 <= i < |p.used| && i !in p.inodes && 0 <= size < W
  {
    var c := InodeCreate(p, i, size, m.inode, m.map2);
    InodeCreateKeeps(p, i, size, m.inode, m.map2);
    if c.1 then NameOrRelease(c.0, name, i, m) else (FreeMapRelease(c.0, i, 1, m.map3), false)
  }

  function Create(p: Space, name: seq<int>, size: int, m: Mem): (Space, bool)
    requires SpaceOk(p) && 0 <= size < W
  {
    var a := FreeMapAllocate(p, 1, m.map1);
    if !m.root then (p, false)
    else if a.1.None? then (a.0, false)
    else FirstAllocated(p, m.map1); CreateAt(a.0, name, size, a.1.value, m)
  }

  lemma FirstAllocated(p: Space, memory: bool)
    requires SpaceOk(p) && FreeMapAllocate(p, 1, memory).1.Some?
    ensures var r := FreeMapAllocate(p, 1, memory);
            SpaceOk(r.0) && Unowned(r.0.owner, r.1.value, 1) && 0 <= r.1.value < |r.0.used| && r.1.value !in r.0.inodes
  {
    AllocateKeeps(p, 1, memory);
    var i := FreeMapAllocate(p, 1, memory).1.value;
    NotLive(p, i);
  }

  /** A free sector is no live inode's. */
  lemma NotLive(p: Space, i: int)
    requires SpaceOk(p) && 0 <= i < |p.used| && !p.used[i]
    ensures i !in p.inodes
  {
    AtSector(p, i);
    if i in p.inodes {
      AtInode(p, i);
    }
  }

  lemma StillUnowned(p: Space, i: int, start: int, cnt: int)
    requires SpaceOk(p) && Unowned(p.owner, i, 1) && 0 <= start && 0 <= cnt && start + cnt <= |p.used|
    requires Uniform(p.used, start, cnt, false)
    ensures !(start <= i < start + cnt) && Unowned(Alloc(p, start, cnt).owner, i, 1)
  {
    assert Look(i);
    AtSector(p, i);
  }

  lemma InodeCreateKeeps(p: Space, i: int, length: int, have: bool, memory: bool)
    requires SpaceOk(p) && Unowned(p.owner, i, 1) && 0 <= i < |p.used| && i !in p.inodes && 0 <= length < W
    ensures var r := InodeCreate(p, i, length, have, memory);
            && SpaceOk(r.0) && |r.0.used| == |p.used| && r.0.slots == p.slots
            && (r.1 ==> i in r.0.inodes && r.0.inodes == p.inodes[i := r.0.inodes[i]])
            && (!r.1 ==> r.0 == p.(bytes := r.0.bytes) && OnlyIn(p.bytes, r.0.bytes, p.inodes[FREE_MAP_SECTOR]))
  {
    var a := FreeMapAllocate(p, Sectors(length), memory);
    if have {
      if a.1.None? {
        AllocateFails(p, Sectors(length), memory);
      } else {
        AllocateKeeps(p, Sectors(length), memory);
        StillUnowned(p, i, a.1.value, Sectors(length));
        AdoptKeeps(a.0, i, Inode(a.1.value, length));
      }
    } else {
      assert OnlyIn(p.bytes, p.bytes, p.inodes[FREE_MAP_SECTOR]);
    }
  }

  // ---- What filesys_create() keeps -----------------------------------------------------------

  ghost predicate Inv(s: State) {
    SpaceOk(s.space) && TableOk(s.table, s.space.inodes, s.space.slots, -1, -1)
  }

  /** A new inode that nothing names yet. */
  lemma NewInodeKeeps(t: Table, inodes: map<int, Inode>, slots: seq<Entry>, i: int, n: Inode)
    requires TableOk(t, inodes, slots, -1, -1) && i !in inodes && i >= 0
    ensures TableOk(t, inodes[i := n], slots, i, -1) && i !in t.open && !NamesSector(slots, i) && !Special(i)
  {
    var inodes' := inodes[i := n];
    At(t, inodes, slots, -1, -1, i);
    forall j
      ensures SlotOk(slots, inodes', j) && OpenOk(t, inodes', slots, -1, j) && LiveOk(t, inodes', slots, i, j)
      ensures FileOk(t, j)
    {
      At(t, inodes, slots, -1, -1, j);
    }
  }

  /** filesys_create() comes to dir_add(): the root directory could be opened, and the new inode have its sectors. */
  ghost predicate GetsInode(p: Space, size: int, m: Mem)
    requires SpaceOk(p) && size >= 0
  {
    && m.root && m.inode && FreeMapAllocate(p, 1, m.map1).1.Some?
    && (FirstAllocated(p, m.map1);
        FreeMapAllocate(FreeMapAllocate(p, 1, m.map1).0, Sectors(size), m.map2).1.Some?)
  }

  /** filesys_create() succeeds exactly if it comes to dir_add() and that does not fail. */
  lemma CreateSucceeds(p: Space, name: seq<int>, size: int, m: Mem)
    requires SpaceOk(p) && 0 <= size < W && 0 !in name
    ensures Create(p, name, size, m).1 <==> GetsInode(p, size, m) && !Refused(p.slots, name, m.dir)
  {
    var a := FreeMapAllocate(p, 1, m.map1);
    if m.root && a.1.Some? {
      AllocateKeeps(p, 1, m.map1);
      FirstAllocated(p, m.map1);
      InodeCreateKeeps(a.0, a.1.value, size, m.inode, m.map2);
    }
  }

  lemma NameOrReleaseKeeps(p: Space, t: Table, name: seq<int>, i: int, m: Mem)
    requires SpaceOk(p) && i in p.inodes && !Special(i) && 0 <= i < |p.used| && 0 !in name
    requires SafeToAdd(p.slots, name, m.dir)
    requires TableOk(t, p.inodes, p.slots, i, -1) && i !in t.open && !NamesSector(p.slots, i)
    ensures Inv(State(NameOrRelease(p, name, i, m).0, t))
  {
    var d := AddEntry(p, name, i, m.dir);
    AddEntryKeeps(p, name, i, m.dir);
    if d.1 {
      NameKeeps(t, p.inodes, p.slots, Place(p.slots, m.dir.search), Entry(i, name, true));
    } else {
      DisownKeeps(p, i);
      ReleaseKeeps(Disown(p, i), i, 1, m.map3);
      ForgetKeeps(t, p.inodes, p.slots, i);
    }
  }

  lemma CreateAtKeeps(p: Space, t: Table, name: seq<int>, size: int, i: int, m: Mem)
    requires SpaceOk(p) && Unowned(p.owner, i, 1) && 0 <= i < |p.used| && i !in p.inodes && 0 <= size < W
    requires TableOk(t, p.inodes, p.slots, -1, -1) && 0 !in name
    requires InodeCreate(p, i, size, m.inode, m.map2).1 ==> SafeToAdd(p.slots, name, m.dir)
    ensures Inv(State(CreateAt(p, name, size, i, m).0, t))
  {
    var c := InodeCreate(p, i, size, m.inode, m.map2);
    InodeCreateKeeps(p, i, size, m.inode, m.map2);
    if c.1 {
      NewInodeKeeps(t, p.inodes, p.slots, i, c.0.inodes[i]);
      NameOrReleaseKeeps(c.0, t, name, i, m);
    } else {
      ReleaseKeeps(c.0, i, 1, m.map3);
    }
  }

  lemma CreateKeeps(s: State, name: seq<int>, size: int, m: Mem)
    requires Inv(s) && 0 <= size < W && 0 !in name
    requires GetsInode(s.space, size, m) ==> SafeToAdd(s.space.slots, name, m.dir)
    ensures Inv(State(Create(s.space, name, size, m).0, s.table))
  {
    var a := FreeMapAllocate(s.space, 1, m.map1);
    if m.root {
      if a.1.None? {
        AllocateFails(s.space, 1, m.map1);
      } else {
        AllocateKeeps(s.space, 1, m.map1);
        FirstAllocated(s.space, m.map1);
        CreateAtKeeps(a.0, s.table, name, size, a.1.value, m);
      }
    }
  }

  // ---- filesys_open(), filesys_remove() and file_close() -------------------------------------

  /** inode_close(): the last closing of a removed inode releases its sectors. */
  function CloseInode(s: State, i: int, m: Mem): State
    requires i in s.table.open && FREE_MAP_SECTOR in s.space.inodes && 0 <= i < |s.space.used| && i != FREE_MAP_SECTOR
    requires var n := s.table.open[i].inode;
             0 <= n.start && 0 <= n.length && n.start + Sectors(n.length) <= |s.space.used|
  {
    var n := s.table.open[i].inode;
    State(if Releases(s.table, i)
          then FreeMapRelease(FreeMapRelease(Disown(s.space, i), i, 1, m.map1), n.start, Sectors(n.length), m.map2)
          else s.space,
          DropInode(s.table, i))
  }

  /** What holds while inode `i` is open for the function that runs. */
  ghost predicate Holding(s: State, i: int) {
    && SpaceOk(s.space) && i in s.table.open && !Special(i)
    && TableOk(s.table, s.space.inodes, s.space.slots, -1, i)
  }

  lemma HeldInode(s: State, i: int)
    requires Holding(s, i)
    ensures i in s.space.inodes && s.table.open[i].inode == s.space.inodes[i] && i >= 0
    ensures InodeOwns(s.space.used, s.space.owner, s.space.inodes[i], i)
    ensures s.table.open[i].removed <==> !NamesSector(s.space.slots, i)
  {
    At(s.table, s.space.inodes, s.space.slots, -1, i, i);
    AtInode(s.space, i);
  }

  lemma ReleaseBothKeeps(p: Space, i: int, n: Inode, m: Mem)
    requires SpaceOk(p) && i in p.inodes && !Special(i) && n == p.inodes[i]
    ensures 0 <= i < |p.used| && 0 <= n.start && 0 <= n.length && n.start + Sectors(n.length) <= |p.used|
    ensures var p' := FreeMapRelease(FreeMapRelease(Disown(p, i), i, 1, m.map1), n.start, Sectors(n.length), m.map2);
            SpaceOk(p') && p'.inodes == p.inodes - {i} && p'.slots == p.slots
  {
    AtInode(p, i);
    DisownKeeps(p, i);
    var p1 := FreeMapRelease(Disown(p, i), i, 1, m.map1);
    ReleaseKeeps(Disown(p, i), i, 1, m.map1);
    forall x | n.start <= x < n.start + Sectors(n.length)
      ensures x in p1.owner && p1.owner[x] == -1
    {
      assert Look(x);
    }
    ReleaseKeeps(p1, n.start, Sectors(n.length), m.map2);
  }

  lemma CloseInodeKeeps(s: State, i: int, m: Mem)
    requires Holding(s, i)
    ensures 0 <= i < |s.space.used|
    ensures var n := s.table.open[i].inode;
            0 <= n.start && 0 <= n.length && n.start + Sectors(n.length) <= |s.space.used|
    ensures Inv(CloseInode(s, i, m))
  {
    HeldInode(s, i);
    DropInodeKeeps(s.table, s.space.inodes, s.space.slots, i);
    if Releases(s.table, i) {
      ReleaseBothKeeps(s.space, i, s.space.inodes[i], m);
      ForgetKeeps(DropInode(s.table, i), s.space.inodes, s.space.slots, i);
    }
  }

  /** lookup() in the root directory: the number of the entry, or that of entries. */
  function LookupRoot(p: Space, name: seq<int>, m: Memory): (k: int)
    ensures 0 <= k <= |p.slots| && (k < |p.slots| ==> Named(p.slots[k], name))
  {
    FoundAt(p.slots, name, m.lookup)
  }

  /** An entry in use names a live inode. */
  lemma NamedInode(s: State, k: int)
    requires Inv(s) && 0 <= k < |s.space.slots| && s.space.slots[k].inUse
    ensures var i := s.space.slots[k].sector;
            && i in s.space.inodes && !Special(i) && 0 <= i < |s.space.used|
            && SECTOR * (i + 1) <= |s.space.bytes| && InodeAt(s.space.bytes, i) == s.space.inodes[i]
  {
    At(s.table, s.space.inodes, s.space.slots, -1, -1, k);
    AtInode(s.space, s.space.slots[k].sector);
  }

  /** inode_open() of the inode that entry `k` names, from what is on disk. */
  function OpenNamed(s: State, k: int): State
    requires Inv(s) && 0 <= k < |s.space.slots| && s.space.slots[k].inUse
  {
    var i := s.space.slots[k].sector;
    NamedInode(s, k);
    s.(table := OpenInode(s.table, i, InodeAt(s.space.bytes, i)))
  }

  lemma OpenNamedKeeps(s: State, k: int)
    requires Inv(s) && 0 <= k < |s.space.slots| && s.space.slots[k].inUse
    ensures Holding(OpenNamed(s, k), s.space.slots[k].sector)
  {
    NamedInode(s, k);
    OpenInodeKeeps(s.table, s.space.inodes, s.space.slots, s.space.slots[k].sector);
  }

  /** filesys_open(), to be known as file `h`. */
  function OpenFile(s: State, name: seq<int>, h: int, m: Mem): State
    requires Inv(s)
  {
    var k := LookupRoot(s.space, name, m.dir);
    if !m.root || k == |s.space.slots| || h in s.table.files then s
    else
      var i, s1 := s.space.slots[k].sector, OpenNamed(s, k);
      OpenNamedKeeps(s, k);
      CloseInodeKeeps(s1, i, m);
      if i !in s.table.open && !m.inode then s
      else if !m.file then CloseInode(s1, i, m)
      else s1.(table := AttachFile(s1.table, h, i))
  }

  lemma OpenFileKeeps(s: State, name: seq<int>, h: int, m: Mem)
    requires Inv(s)
    ensures Inv(OpenFile(s, name, h, m))
  {
    var k := LookupRoot(s.space, name, m.dir);
    if k < |s.space.slots| && h !in s.table.files {
      var i, s1 := s.space.slots[k].sector, OpenNamed(s, k);
      OpenNamedKeeps(s, k);
      CloseInodeKeeps(s1, i, m);
      HeldInode(s1, i);
      AttachFileKeeps(s1.table, s.space.inodes, s.space.slots, h, i);
    }
  }

  /** The entry's bytes as dir_remove() writes them back. */
  function ErasedEntry(p: Space, k: int): (b: seq<int>)
    requires RootOk(p.bytes, p.inodes, p.slots) && 0 <= k < |p.slots|
    ensures |b| == ENTRY && Decode(b) == p.slots[k].(inUse := false)
  {
    var b := RootBytes(p)[ENTRY * k..ENTRY * (k + 1)];
    ClearDecodes(b);
    b[19 := 0]
  }

  /** The part of dir_remove() that erases entry `k` and marks its inode, which is open. */
  function Erase(s: State, k: int): State
    requires RootOk(s.space.bytes, s.space.inodes, s.space.slots) && 0 <= k < |s.space.slots|
    requires s.space.slots[k].sector in s.table.open
  {
    State(WithEntry(s.space, k, ErasedEntry(s.space, k)), MarkRemoved(s.table, s.space.slots[k].sector))
  }

  lemma EraseEntryKeeps(s: State, k: int)
    requires 0 <= k < |s.space.slots| && s.space.slots[k].inUse && Holding(s, s.space.slots[k].sector)
    ensures Holding(Erase(s, k), s.space.slots[k].sector)
  {
    WithEntryKeeps(s.space, k, ErasedEntry(s.space, k));
    EraseKeeps(s.table, s.space.inodes, s.space.slots, k);
  }

  /** dir_remove() of entry `k`, whose inode it has opened. */
  function RemoveOpened(s: State, k: int, m: Mem): State
    requires 0 <= k < |s.space.slots| && s.space.slots[k].inUse && Holding(s, s.space.slots[k].sector)
  {
    var s' := if m.dir.write then Erase(s, k) else s;
    EraseEntryKeeps(s, k);
    CloseInodeKeeps(s', s.space.slots[k].sector, m);
    CloseInode(s', s.space.slots[k].sector, m)
  }

  lemma RemoveOpenedKeeps(s: State, k: int, m: Mem)
    requires 0 <= k < |s.space.slots| && s.space.slots[k].inUse && Holding(s, s.space.slots[k].sector)
    ensures Inv(RemoveOpened(s, k, m))
  {
    EraseEntryKeeps(s, k);
    CloseInodeKeeps(if m.dir.write then Erase(s, k) else s, s.space.slots[k].sector, m);
  }

  /** filesys_remove(). */
  function Remove(s: State, name: seq<int>, m: Mem): State
    requires Inv(s)
  {
    var k := LookupRoot(s.space, name, m.dir);
    if !m.root || k == |s.space.slots| || (s.space.slots[k].sector !in s.table.open && !m.inode) then s
    else OpenNamedKeeps(s, k); RemoveOpened(OpenNamed(s, k), k, m)
  }

  /** What filesys_remove() returns. */
  predicate Removed(s: State, name: seq<int>, m: Mem) {
    var k := LookupRoot(s.space, name, m.dir);
    m.root && k < |s.space.slots| && (s.space.slots[k].sector in s.table.open || m.inode) && m.dir.write
  }

  lemma RemoveKeeps(s: State, name: seq<int>, m: Mem)
    requires Inv(s)
    ensures Inv(Remove(s, name, m))
  {
    var k := LookupRoot(s.space, name, m.dir);
    if k < |s.space.slots| {
      OpenNamedKeeps(s, k);
      RemoveOpenedKeeps(OpenNamed(s, k), k, m);
    }
  }

  lemma RemoveOpenedSlots(s: State, k: int, m: Mem)
    requires 0 <= k < |s.space.slots| && s.space.slots[k].inUse && Holding(s, s.space.slots[k].sector)
    ensures var slots := s.space.slots;
            RemoveOpened(s, k, m).space.slots == if m.dir.write then slots[k := slots[k].(inUse := false)] else slots
  {
    EraseEntryKeeps(s, k);
    CloseInodeKeeps(if m.dir.write then Erase(s, k) else s, s.space.slots[k].sector, m);
  }

  lemma ErasedIsGone(t: Table, inodes: map<int, Inode>, slots: seq<Entry>, k: int)
    requires TableOk(t, inodes, slots, -1, -1) && 0 <= k < |slots| && slots[k].inUse
    ensures !HasName(slots[k := slots[k].(inUse := false)], slots[k].name)
  {
    At(t, inodes, slots, -1, -1, k);
    var slots' := slots[k := slots[k].(inUse := false)];
    var j := Find(slots', slots[k].name, 0);
    assert Look(j);
  }

  /** filesys_remove() takes the name out of the directory exactly if it returns true. */
  lemma RemovedIsGone(s: State, name: seq<int>, m: Mem)
    requires Inv(s)
    ensures Removed(s, name, m) ==> HasName(s.space.slots, name) && !HasName(Remove(s, name, m).space.slots, name)
    ensures !Removed(s, name, m) ==> Remove(s, name, m).space.slots == s.space.slots
  {
    var k := LookupRoot(s.space, name, m.dir);
    if k < |s.space.slots| {
      OpenNamedKeeps(s, k);
      RemoveOpenedSlots(OpenNamed(s, k), k, m);
      ErasedIsGone(s.table, s.space.inodes, s.space.slots, k);
    }
  }

  /** The inode of an open file. */
  lemma FileInode(s: State, h: int)
    requires Inv(s) && h in s.table.files
    ensures var f := s.table.files[h];
            && f.pos >= 0 && f.sector in s.table.open && !Special(f.sector) && f.sector in s.space.inodes
            && f.sector >= 0
            && s.table.open[f.sector].inode == s.space.inodes[f.sector]
            && InodeOwns(s.space.used, s.space.owner, s.space.inodes[f.sector], f.sector)
            && Fits(s.space.bytes, s.space.inodes[f.sector].start, s.space.inodes[f.sector].length)
  {
    At(s.table, s.space.inodes, s.space.slots, -1, -1, h);
    At(s.table, s.space.inodes, s.space.slots, -1, -1, s.table.files[h].sector);
    AtInode(s.space, s.table.files[h].sector);
  }

  /** file_close(). */
  function CloseFile(s: State, h: int, m: Mem): State
    requires Inv(s) && h in s.table.files
  {
    FileInode(s, h);
    var s1 := s.(table := DetachFile(s.table, h));
    DetachFileKeeps(s.table, s.space.inodes, s.space.slots, h);
    CloseInodeKeeps(s1, s.table.files[h].sector, m);
    CloseInode(s1, s.table.files[h].sector, m)
  }

  lemma CloseFileKeeps(s: State, h: int, m: Mem)
    requires Inv(s) && h in s.table.files
    ensures Inv(CloseFile(s, h, m))
  {
    FileInode(s, h);
    DetachFileKeeps(s.table, s.space.inodes, s.space.slots, h);
    CloseInodeKeeps(s.(table := DetachFile(s.table, h)), s.table.files[h].sector, m);
  }

  // ---- Reading and writing -------------------------------------------------------------------

  /** file_read(): how many bytes. */
  function ReadFile(s: State, h: int, size: int, memory: bool): State
    requires Inv(s) && h in s.table.files
  {
    FileInode(s, h);
    var f := s.table.files[h];
    s.(table := SetPos(s.table, h, f.pos + Reach(size, f.pos, s.table.open[f.sector].inode.length, memory)))
  }

  /** How many bytes file_write() writes. */
  function Written(s: State, h: int, size: int, memory: bool): (n: int)
    requires Inv(s) && h in s.table.files && size >= 0
    ensures 0 <= n <= size
  {
    FileInode(s, h);
    var f := s.table.files[h];
    if s.table.open[f.sector].deny != 0 then 0 else Reach(size, f.pos, s.table.open[f.sector].inode.length, memory)
  }

  /** file_write(). */
  function WriteFile(s: State, h: int, data: seq<int>, memory: bool): State
    requires Inv(s) && h in s.table.files
  {
    FileInode(s, h);
    var f := s.table.files[h];
    var n, k := s.table.open[f.sector].inode, Written(s, h, |data|, memory);
    State(s.space.(bytes := Patch(s.space.bytes, SECTOR * n.start + f.pos, data[..k])), SetPos(s.table, h, f.pos + k))
  }

  /** A write changes only bytes of the file's own extent. */
  lemma WriteOnlyIn(s: State, h: int, data: seq<int>, memory: bool)
    requires Inv(s) && h in s.table.files
    ensures var i := s.table.files[h].sector;
            i in s.space.inodes && OnlyIn(s.space.bytes, WriteFile(s, h, data, memory).space.bytes, s.space.inodes[i])
  {
    FileInode(s, h);
    var f := s.table.files[h];
    var n, k := s.space.inodes[f.sector], Written(s, h, |data|, memory);
    if k > 0 {
      PatchOnlyIn(s.space.bytes, n, f.pos, data[..k]);
    }
  }

  lemma WriteFileKeeps(s: State, h: int, data: seq<int>, memory: bool)
    requires Inv(s) && h in s.table.files
    ensures Inv(WriteFile(s, h, data, memory))
  {
    FileInode(s, h);
    var f := s.table.files[h];
    WriteOnlyIn(s, h, data, memory);
    FileFrameKeeps(s.space, f.sector, WriteFile(s, h, data, memory).space.bytes);
    SetPosKeeps(s.table, s.space.inodes, s.space.slots, h, f.pos + Written(s, h, |data|, memory));
  }

  lemma ReadFileKeeps(s: State, h: int, size: int, memory: bool)
    requires Inv(s) && h in s.table.files
    ensures Inv(ReadFile(s, h, size, memory))
  {
    FileInode(s, h);
    var f := s.table.files[h];
    SetPosKeeps(s.table, s.space.inodes, s.space.slots, h,
                f.pos + Reach(size, f.pos, s.space.inodes[f.sector].length, memory));
  }

  // ---- Steps and runs ------------------------------------------------------------------------

  datatype Step =
    | CreateStep(name: seq<int>, size: int)
    | OpenStep(name: seq<int>, h: int)
    | RemoveStep(name: seq<int>)
    | ReadStep(h: int, size: int)
    | WriteStep(h: int, data: seq<int>)
    | CloseStep(h: int)
    | SeekStep(h: int, pos: int)
    | DenyStep(h: int, deny: bool)

  /** One call; a call that is not possible changes nothing. */
  function Next(s: State, step: Step, m: Mem): State
    requires Inv(s)
  {
    match step
    case CreateStep(name, size) =>
      if 0 <= size < W && 0 !in name then s.(space := Create(s.space, name, size, m).0) else s
    case OpenStep(name, h) => OpenFile(s, name, h, m)
    case RemoveStep(name) => Remove(s, name, m)
    case ReadStep(h, size) => if h in s.table.files then ReadFile(s, h, size, m.file) else s
    case WriteStep(h, data) => if h in s.table.files then WriteFile(s, h, data, m.file) else s
    case CloseStep(h) => if h in s.table.files then CloseFile(s, h, m) else s
    case SeekStep(h, pos) => if h in s.table.files && pos >= 0 then s.(table := SetPos(s.table, h, pos)) else s
    case DenyStep(h, deny) => if h in s.table.files then FileInode(s, h); s.(table := SetDeny(s.table, h, deny)) else s
  }

  /** When the call comes to dir_add(), that is safe. */
  ghost predicate Safe(s: State, step: Step, m: Mem)
    requires Inv(s)
  {
    step.CreateStep? && 0 <= step.size < W && 0 !in step.name && GetsInode(s.space, step.size, m) ==>
      SafeToAdd(s.space.slots, step.name, m.dir)
  }

  lemma NextKeepsInv(s: State, step: Step, m: Mem)
    requires Inv(s) && Safe(s, step, m)
    ensures Inv(Next(s, step, m))
  {
    match step
    case CreateStep(name, size) => if 0 <= size < W && 0 !in name { CreateKeeps(s, name, size, m); }
    case OpenStep(name, h) => OpenFileKeeps(s, name, h, m);
    case RemoveStep(name) => RemoveKeeps(s, name, m);
    case ReadStep(h, size) => if h in s.table.files { ReadFileKeeps(s, h, size, m.file); }
    case WriteStep(h, data) => if h in s.table.files { WriteFileKeeps(s, h, data, m.file); }
    case CloseStep(h) => if h in s.table.files { CloseFileKeeps(s, h, m); }
    case SeekStep(h, pos) =>
      if h in s.table.files && pos >= 0 { SetPosKeeps(s.table, s.space.inodes, s.space.slots, h, pos); }
    case DenyStep(h, deny) => if h in s.table.files { SetDenyKeeps(s.table, s.space.inodes, s.space.slots, h, deny); }
  }
}

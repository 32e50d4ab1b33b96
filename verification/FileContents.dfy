/** Files as independent flat sequences of bytes, and when their sectors are released. */
module FileContents {
  import opened Basics
  import opened Arithmetic
  import opened InodeIO
  import opened Directory
  import opened FileSpace
  import opened OpenFiles
  import opened FileSys

  /** File `j` is where it was and holds what it held. */
  ghost predicate KeepsFile(p: Space, p': Space, j: int) {
    && j in p.inodes && j in p'.inodes && p'.inodes[j] == p.inodes[j]
    && Fits(p.bytes, p.inodes[j].start, p.inodes[j].length) && Fits(p'.bytes, p.inodes[j].start, p.inodes[j].length)
    && FileBytes(p'.bytes, p.inodes[j].start, p.inodes[j].length)
         == FileBytes(p.bytes, p.inodes[j].start, p.inodes[j].length)
  }

  lemma SameFile(p: Space, j: int)
    requires SpaceOk(p) && j in p.inodes
    ensures KeepsFile(p, p, j)
  {
    AtInode(p, j);
  }

  /** Writing inside another file's extent. */
  lemma ElsewhereKeeps(p: Space, p': Space, i: int, j: int)
    requires SpaceOk(p) && i in p.inodes && j in p.inodes && i != j && OnlyIn(p.bytes, p'.bytes, p.inodes[i])
    requires j in p'.inodes && p'.inodes[j] == p.inodes[j]
    ensures KeepsFile(p, p', j)
  {
    OtherFilesKept(p, p'.bytes, i, j);
  }

  // ---- filesys_create() ----------------------------------------------------------------------

  lemma AllocateKeepsFile(p: Space, cnt: int, memory: bool, j: int)
    requires SpaceOk(p) && cnt >= 0 && j in p.inodes && j != FREE_MAP_SECTOR
    ensures KeepsFile(p, FreeMapAllocate(p, cnt, memory).0, j)
  {
    if FreeMapAllocate(p, cnt, memory).1.None? {
      AllocateFails(p, cnt, memory);
    } else {
      AllocateKeeps(p, cnt, memory);
    }
    ElsewhereKeeps(p, FreeMapAllocate(p, cnt, memory).0, FREE_MAP_SECTOR, j);
  }

  lemma ReleaseKeepsFile(p: Space, start: int, cnt: int, memory: bool, j: int)
    requires SpaceOk(p) && 0 <= start && 0 <= cnt && start + cnt <= |p.used| && Unowned(p.owner, start, cnt)
    requires j in p.inodes && j != FREE_MAP_SECTOR
    ensures KeepsFile(p, FreeMapRelease(p, start, cnt, memory), j)
  {
    ReleaseKeeps(p, start, cnt, memory);
    ElsewhereKeeps(p, FreeMapRelease(p, start, cnt, memory), FREE_MAP_SECTOR, j);
  }

  lemma AdoptKeepsFile(p: Space, i: int, n: Inode, j: int)
    requires SpaceOk(p) && Available(p, i, n) && i !in p.inodes && j in p.inodes
    ensures KeepsFile(p, Adopt(p, i, n), j)
  {
    AtInode(p, j);
    UnownedApart(p, i, n, j);
    CreatedKeepsFile(p.bytes, i, n, p.inodes[j]);
  }

  lemma InodeCreateKeepsFile(p: Space, i: int, length: int, have: bool, memory: bool, j: int)
    requires SpaceOk(p) && Unowned(p.owner, i, 1) && 0 <= i < |p.used| && i !in p.inodes && 0 <= length < W
    requires j in p.inodes && j != FREE_MAP_SECTOR
    ensures KeepsFile(p, InodeCreate(p, i, length, have, memory).0, j)
  {
    SameFile(p, j);
    if have {
      var a := FreeMapAllocate(p, Sectors(length), memory);
      AllocateKeepsFile(p, Sectors(length), memory, j);
      if a.1.Some? {
        AllocateKeeps(p, Sectors(length), memory);
        StillUnowned(p, i, a.1.value, Sectors(length));
        AdoptKeepsFile(a.0, i, Inode(a.1.value, length), j);
      }
    }
  }

  lemma NameOrReleaseKeepsFile(p: Space, name: seq<int>, i: int, m: Mem, j: int)
    requires SpaceOk(p) && i in p.inodes && !Special(i) && 0 <= i < |p.used| && 0 !in name
    requires j in p.inodes && !Special(j) && j != i
    ensures KeepsFile(p, NameOrRelease(p, name, i, m).0, j)
  {
    var d := AddEntry(p, name, i, m.dir);
    AddEntryKeeps(p, name, i, m.dir);
    if d.1 {
      ElsewhereKeeps(p, d.0, ROOT_DIR_SECTOR, j);
    } else {
      DisownKeeps(p, i);
      ReleaseKeepsFile(Disown(p, i), i, 1, m.map3, j);
    }
  }

  lemma CreateAtKeepsFile(p: Space, name: seq<int>, size: int, i: int, m: Mem, j: int)
    requires SpaceOk(p) && Unowned(p.owner, i, 1) && 0 <= i < |p.used| && i !in p.inodes && 0 <= size < W && 0 !in name
    requires j in p.inodes && !Special(j) && !Special(i)
    ensures KeepsFile(p, CreateAt(p, name, size, i, m).0, j)
  {
    var c := InodeCreate(p, i, size, m.inode, m.map2);
    InodeCreateKeeps(p, i, size, m.inode, m.map2);
    InodeCreateKeepsFile(p, i, size, m.inode, m.map2, j);
    if c.1 {
      NameOrReleaseKeepsFile(c.0, name, i, m, j);
    } else {
      ReleaseKeepsFile(c.0, i, 1, m.map3, j);
    }
  }

  lemma CreateKeepsFile(p: Space, name: seq<int>, size: int, m: Mem, j: int)
    requires SpaceOk(p) && 0 <= size < W && 0 !in name && j in p.inodes && !Special(j)
    ensures KeepsFile(p, Create(p, name, size, m).0, j)
  {
    SameFile(p, j);
    var a := FreeMapAllocate(p, 1, m.map1);
    AllocateKeepsFile(p, 1, m.map1, j);
    if m.root && a.1.Some? {
      AllocateKeeps(p, 1, m.map1);
      FirstAllocated(p, m.map1);
      CreateAtKeepsFile(a.0, name, size, a.1.value, m, j);
    }
  }

  // ---- inode_close() -------------------------------------------------------------------------

  /** Sector `x` is `i`'s own or in its extent. */
  ghost predicate Belongs(p: Space, i: int, x: int)
    requires i in p.inodes
  {
    x == i || InExtent(p.inodes[i], x)
  }

  /** The last closing of a removed inode frees all its sectors. */
  lemma ReleaseBothFrees(p: Space, i: int, n: Inode, m: Mem, p': Space, x: int)
    requires SpaceOk(p) && i in p.inodes && !Special(i) && n == p.inodes[i] && Belongs(p, i, x)
    requires 0 <= i < |p.used| && 0 <= n.start && 0 <= n.length && n.start + Sectors(n.length) <= |p.used|
    requires p' == FreeMapRelease(FreeMapRelease(Disown(p, i), i, 1, m.map1), n.start, Sectors(n.length), m.map2)
    ensures 0 <= x < |p'.used| && !p'.used[x]
  {
    assert x == i || n.start <= x < n.start + Sectors(n.length);
  }

  lemma ReleaseBothKeepsFile(p: Space, i: int, n: Inode, m: Mem, p': Space, j: int)
    requires SpaceOk(p) && i in p.inodes && !Special(i) && n == p.inodes[i] && j in p.inodes && !Special(j) && j != i
    requires 0 <= i < |p.used| && 0 <= n.start && 0 <= n.length && n.start + Sectors(n.length) <= |p.used|
    requires p' == FreeMapRelease(FreeMapRelease(Disown(p, i), i, 1, m.map1), n.start, Sectors(n.length), m.map2)
    ensures KeepsFile(p, p', j)
  {
    DisownKeeps(p, i);
    var p1 := FreeMapRelease(Disown(p, i), i, 1, m.map1);
    ReleaseKeeps(Disown(p, i), i, 1, m.map1);
    ReleaseKeepsFile(Disown(p, i), i, 1, m.map1, j);
    AtInode(p, i);
    forall x | n.start <= x < n.start + Sectors(n.length)
      ensures x in p1.owner && p1.owner[x] == -1
    {
      assert Look(x);
    }
    ReleaseKeepsFile(p1, n.start, Sectors(n.length), m.map2, j);
  }

  lemma CloseInodeKeepsFile(s: State, i: int, m: Mem, j: int)
    requires Holding(s, i) && j in s.space.inodes && !Special(j)
    ensures 0 <= i < |s.space.used|
    ensures var n := s.table.open[i].inode;
            0 <= n.start && 0 <= n.length && n.start + Sectors(n.length) <= |s.space.used|
    ensures j != i || !Releases(s.table, i) ==> KeepsFile(s.space, CloseInode(s, i, m).space, j)
    ensures j == i && Releases(s.table, i) ==>
              j !in CloseInode(s, i, m).space.inodes
              && forall x :: Belongs(s.space, j, x) ==> 0 <= x < |s.space.used| && !CloseInode(s, i, m).space.used[x]
  {
    HeldInode(s, i);
    SameFile(s.space, j);
    if Releases(s.table, i) {
      var p' := CloseInode(s, i, m).space;
      ReleaseBothKeeps(s.space, i, s.space.inodes[i], m);
      if j != i {
        ReleaseBothKeepsFile(s.space, i, s.space.inodes[i], m, p', j);
      } else {
        forall x | Belongs(s.space, j, x)
          ensures 0 <= x < |s.space.used| && !p'.used[x]
        {
          ReleaseBothFrees(s.space, i, s.space.inodes[i], m, p', x);
        }
      }
    }
  }

  // ---- Every call ----------------------------------------------------------------------------

  /** The call that releases inode `j`: closing the last file that has it open after it was removed, or removing it
      when no file has it open. */
  ghost predicate ReleaseOf(s: State, step: Step, m: Mem, j: int) {
    match step
    case CloseStep(h) =>
      && h in s.table.files && s.table.files[h].sector == j && j in s.table.open
      && s.table.open[j].cnt == 1 && s.table.open[j].removed
    case RemoveStep(name) =>
      && m.root && m.inode && m.dir.write && j !in s.table.open
      && LookupRoot(s.space, name, m.dir) < |s.space.slots|
      && s.space.slots[LookupRoot(s.space, name, m.dir)].sector == j
    case _ => false
  }

  ghost predicate WritesTo(s: State, step: Step, j: int) {
    step.WriteStep? && step.h in s.table.files && s.table.files[step.h].sector == j
  }

  /** What becomes of inode `j`: it is released with all its sectors, or it and its bytes stay. */
  ghost predicate Outcome(s: State, s': State, j: int, released: bool)
    requires j in s.space.inodes
  {
    if released then
      && j !in s'.space.inodes
      && forall x :: Belongs(s.space, j, x) ==> 0 <= x < |s'.space.used| && !s'.space.used[x]
    else KeepsFile(s.space, s'.space, j)
  }

  lemma CloseOutcome(s: State, h: int, m: Mem, j: int)
    requires Inv(s) && h in s.table.files && j in s.space.inodes && !Special(j)
    ensures Outcome(s, CloseFile(s, h, m), j, ReleaseOf(s, CloseStep(h), m, j))
  {
    FileInode(s, h);
    var s1 := s.(table := DetachFile(s.table, h));
    DetachFileKeeps(s.table, s.space.inodes, s.space.slots, h);
    CloseInodeKeepsFile(s1, s.table.files[h].sector, m, j);
  }

  lemma OpenOutcome(s: State, name: seq<int>, h: int, m: Mem, j: int)
    requires Inv(s) && j in s.space.inodes && !Special(j)
    ensures KeepsFile(s.space, OpenFile(s, name, h, m).space, j)
  {
    SameFile(s.space, j);
    var k := LookupRoot(s.space, name, m.dir);
    if k < |s.space.slots| && h !in s.table.files {
      var i, s1 := s.space.slots[k].sector, OpenNamed(s, k);
      OpenNamedKeeps(s, k);
      HeldInode(s1, i);
      CloseInodeKeepsFile(s1, i, m, j);
    }
  }

  /** dir_remove() once it has opened the inode. */
  lemma EraseOutcome(s: State, k: int, m: Mem, j: int)
    requires 0 <= k < |s.space.slots| && s.space.slots[k].inUse && Holding(s, s.space.slots[k].sector)
    requires j in s.space.inodes && !Special(j)
    ensures Holding(Erase(s, k), s.space.slots[k].sector) && j in Erase(s, k).space.inodes
    ensures KeepsFile(s.space, Erase(s, k).space, j)
  {
    EraseEntryKeeps(s, k);
    WithEntryKeeps(s.space, k, ErasedEntry(s.space, k));
    ElsewhereKeeps(s.space, Erase(s, k).space, ROOT_DIR_SECTOR, j);
  }

  lemma RemoveOpenedOutcome(s: State, k: int, m: Mem, j: int)
    requires 0 <= k < |s.space.slots| && s.space.slots[k].inUse && Holding(s, s.space.slots[k].sector)
    requires j in s.space.inodes && !Special(j)
    ensures Outcome(s, RemoveOpened(s, k, m), j,
                    m.dir.write && j == s.space.slots[k].sector && s.table.open[j].cnt == 1)
  {
    var i := s.space.slots[k].sector;
    HeldInode(s, i);
    if m.dir.write {
      EraseOutcome(s, k, m, j);
      CloseInodeKeepsFile(Erase(s, k), i, m, j);
    } else {
      CloseInodeKeepsFile(s, i, m, j);
    }
  }

  lemma RemoveOutcome(s: State, name: seq<int>, m: Mem, j: int)
    requires Inv(s) && j in s.space.inodes && !Special(j)
    ensures Outcome(s, Remove(s, name, m), j, ReleaseOf(s, RemoveStep(name), m, j))
  {
    SameFile(s.space, j);
    var k := LookupRoot(s.space, name, m.dir);
    if k < |s.space.slots| && m.root {
      var i := s.space.slots[k].sector;
      OpenNamedKeeps(s, k);
      At(s.table, s.space.inodes, s.space.slots, -1, -1, i);
      if i in s.table.open || m.inode {
        RemoveOpenedOutcome(OpenNamed(s, k), k, m, j);
      }
    }
  }

  /** Whatever the call: an inode and its sectors are released exactly by the call that closes it for the last time
      after it was removed, and until then its file keeps its bytes unless the call writes to it. */
  lemma CallOutcome(s: State, step: Step, m: Mem, j: int)
    requires Inv(s) && j in s.space.inodes && !Special(j) && !WritesTo(s, step, j)
    ensures Outcome(s, Next(s, step, m), j, ReleaseOf(s, step, m, j))
  {
    SameFile(s.space, j);
    match step
    case CreateStep(name, size) => if 0 <= size < W && 0 !in name { CreateKeepsFile(s.space, name, size, m, j); }
    case OpenStep(name, h) => OpenOutcome(s, name, h, m, j);
    case RemoveStep(name) => RemoveOutcome(s, name, m, j);
    case CloseStep(h) => if h in s.table.files { CloseOutcome(s, h, m, j); }
    case WriteStep(h, data) =>
      if h in s.table.files {
        WriteOnlyIn(s, h, data, m.file);
        ElsewhereKeeps(s.space, WriteFile(s, h, data, m.file).space, s.table.files[h].sector, j);
      }
    case _ =>
  }

  // ---- Reading and writing -------------------------------------------------------------------

  /** The bytes of an open file. */
  ghost function Contents(s: State, h: int): seq<int>
    requires Inv(s) && h in s.table.files
  {
    FileInode(s, h);
    var n := s.space.inodes[s.table.files[h].sector];
    FileBytes(s.space.bytes, n.start, n.length)
  }

  /** What file_read() puts in its buffer. */
  ghost function BytesRead(s: State, h: int, size: int, memory: bool): (b: seq<int>)
    requires Inv(s) && h in s.table.files
  {
    FileInode(s, h);
    var f, c := s.table.files[h], Contents(s, h);
    var n := Reach(size, f.pos, |c|, memory);
    if n == 0 then [] else c[f.pos..f.pos + n]
  }

  /** file_write() changes exactly the bytes from the file's position on that it reports as written, as many as there
      is room for, or none while somebody denies writes. */
  lemma WriteIsExact(s: State, h: int, data: seq<int>, memory: bool)
    requires Inv(s) && h in s.table.files
    ensures var s', k, f := WriteFile(s, h, data, memory), Written(s, h, |data|, memory), s.table.files[h];
            && Inv(s') && h in s'.table.files && s'.table.files[h] == f.(pos := f.pos + k) && f.sector in s.table.open
            && Put(Contents(s, h), Contents(s', h), f.pos, data[..k])
            && (s.table.open[f.sector].deny != 0 ==> k == 0 && s'.space == s.space)
            && (s.table.open[f.sector].deny == 0 && memory ==> k == Clip(|data|, f.pos, |Contents(s, h)|))
  {
    FileInode(s, h);
    WriteFileKeeps(s, h, data, memory);
    var s', k, f := WriteFile(s, h, data, memory), Written(s, h, |data|, memory), s.table.files[h];
    var n := s.space.inodes[f.sector];
    if k > 0 {
      WriteChangesFile(s.space.bytes, s'.space.bytes, n.start, n.length, f.pos, data[..k]);
    } else {
      assert s'.space.bytes == s.space.bytes;
    }
  }

  /** What is then read from where it was written. */
  lemma ReadsBack(s: State, h: int, data: seq<int>, memory: bool)
    requires Inv(s) && h in s.table.files && Written(s, h, |data|, memory) > 0
    ensures var s', k, pos := WriteFile(s, h, data, memory), Written(s, h, |data|, memory), s.table.files[h].pos;
            && Inv(s') && h in s'.table.files && 0 <= pos && pos + k <= |Contents(s', h)|
            && Contents(s', h)[pos..pos + k] == data[..k]
  {
    FileInode(s, h);
    WriteIsExact(s, h, data, memory);
  }

  // ---- When filesys_create() is safe ---------------------------------------------------------

  lemma CreateSuccess(p: Space, name: seq<int>, size: int, m: Mem) returns (i: int)
    requires SpaceOk(p) && 0 <= size < W && 0 !in name && GetsInode(p, size, m) && !Refused(p.slots, name, m.dir)
    ensures i !in p.inodes
    ensures var p' := Create(p, name, size, m).0;
            p'.slots == Added(p.slots, name, i, m.dir) && i in p'.inodes && p'.inodes == p.inodes[i := p'.inodes[i]]
  {
    var a := FreeMapAllocate(p, 1, m.map1);
    AllocateKeeps(p, 1, m.map1);
    FirstAllocated(p, m.map1);
    i := a.1.value;
    var c := InodeCreate(a.0, i, size, m.inode, m.map2);
    InodeCreateKeeps(a.0, i, size, m.inode, m.map2);
    AddEntryKeeps(c.0, name, i, m.dir);
  }

  /** filesys_create() keeps the invariant exactly if it does not come to dir_add(), or that is safe: otherwise it
      overwrites an entry in use, which loses a file, or gives a name twice. */
  lemma CreateIsSafe(s: State, name: seq<int>, size: int, m: Mem)
    requires Inv(s) && 0 <= size < W && 0 !in name
    ensures Inv(State(Create(s.space, name, size, m).0, s.table)) <==>
              (GetsInode(s.space, size, m) ==> SafeToAdd(s.space.slots, name, m.dir))
  {
    if GetsInode(s.space, size, m) && !SafeToAdd(s.space.slots, name, m.dir) {
      var i := CreateSuccess(s.space, name, size, m);
      var p, slots := Create(s.space, name, size, m).0, s.space.slots;
      var k := Place(slots, m.dir.search);
      if slots[k].inUse {
        LosesFile(s, p, i, name, k);
      } else {
        NamesTwice(s.table, p, slots, Find(slots, name, 0), k);
      }
    } else {
      CreateKeeps(s, name, size, m);
    }
  }

  lemma LosesFile(s: State, p: Space, i: int, name: seq<int>, k: int)
    requires Inv(s) && 0 <= k < |s.space.slots| && s.space.slots[k].inUse && i !in s.space.inodes
    requires p.slots == s.space.slots[k := Entry(i, name, true)] && i in p.inodes
    requires p.inodes == s.space.inodes[i := p.inodes[i]]
    ensures !Inv(State(p, s.table))
  {
    var lost := s.space.slots[k].sector;
    At(s.table, s.space.inodes, s.space.slots, -1, -1, k);
    At(s.table, s.space.inodes, s.space.slots, -1, -1, lost);
    forall j | 0 <= j < |p.slots| && p.slots[j].inUse
      ensures p.slots[j].sector != lost
    {
      assert Look(j);
    }
    assert s.space.slots[k].inUse && NamesSector(s.space.slots, lost);
    if Inv(State(p, s.table)) {
      At(s.table, p.inodes, p.slots, -1, -1, lost);
    }
  }

  lemma NamesTwice(t: Table, p: Space, slots: seq<Entry>, j: int, k: int)
    requires 0 <= k < |slots| == |p.slots| && 0 <= j < |slots| && slots[j].inUse && j != k
    requires p.slots == slots[k := p.slots[k]]
    requires p.slots[k].inUse && p.slots[k].name == slots[j].name
    ensures !Inv(State(p, t))
  {
    if Inv(State(p, t)) {
      DistinctNames(t, p.inodes, p.slots, k, j);
    }
  }

  lemma DistinctNames(t: Table, inodes: map<int, Inode>, slots: seq<Entry>, k: int, j: int)
    requires TableOk(t, inodes, slots, -1, -1) && 0 <= k < |slots| && 0 <= j < |slots| && j != k
    requires slots[k].inUse && slots[j].inUse
    ensures slots[k].name != slots[j].name
  {
    At(t, inodes, slots, -1, -1, k);
    assert Look(j);
  }

  // ---- Sectors that nobody owns --------------------------------------------------------------

  ghost predicate Lost(p: Space, x: int) {
    Nobodys(p.owner, x)
  }

  lemma CloseLosesNone(s: State, i: int, m: Mem, x: int)
    requires Holding(s, i)
    ensures 0 <= i < |s.space.used|
    ensures var n := s.table.open[i].inode;
            0 <= n.start && 0 <= n.length && n.start + Sectors(n.length) <= |s.space.used|
    ensures Lost(CloseInode(s, i, m).space, x) ==> Lost(s.space, x)
  {
    HeldInode(s, i);
    AtSector(s.space, x);
    assert CloseInode(s, i, m).space.owner
        == if Releases(s.table, i)
           then Without(s.space.owner, i) - Nobody(i, 1).Keys
                - Nobody(s.space.inodes[i].start, Sectors(s.space.inodes[i].length)).Keys
           else s.space.owner;
  }

  /** Only filesys_create() loses sectors: every other call leaves each used sector with an owner that it had. */
  lemma OnlyCreateLoses(s: State, step: Step, m: Mem, x: int)
    requires Inv(s) && !step.CreateStep? && Lost(Next(s, step, m).space, x)
    ensures Lost(s.space, x)
  {
    match step
    case OpenStep(name, h) =>
      var k := LookupRoot(s.space, name, m.dir);
      if k < |s.space.slots| {
        OpenNamedKeeps(s, k);
        CloseLosesNone(OpenNamed(s, k), s.space.slots[k].sector, m, x);
      }
    case RemoveStep(name) =>
      var k := LookupRoot(s.space, name, m.dir);
      if k < |s.space.slots| {
        OpenNamedKeeps(s, k);
        EraseEntryKeeps(OpenNamed(s, k), k);
        CloseLosesNone(OpenNamed(s, k), s.space.slots[k].sector, m, x);
        CloseLosesNone(Erase(OpenNamed(s, k), k), s.space.slots[k].sector, m, x);
      }
    case CloseStep(h) =>
      if h in s.table.files {
        FileInode(s, h);
        DetachFileKeeps(s.table, s.space.inodes, s.space.slots, h);
        CloseLosesNone(s.(table := DetachFile(s.table, h)), s.table.files[h].sector, m, x);
      }
    case _ =>
  }

  /** The first of the data sectors that filesys_create() takes. */
  ghost function DataStart(p: Space, size: int, m: Mem): int
    requires SpaceOk(p) && 0 <= size && GetsInode(p, size, m)
  {
    FirstAllocated(p, m.map1);
    FreeMapAllocate(FreeMapAllocate(p, 1, m.map1).0, Sectors(size), m.map2).1.value
  }

  ghost predicate Nobodys(owner: map<int, int>, x: int) {
    x in owner && owner[x] == -1
  }

  /** The owners when the sectors of a new inode are allocated and it owns them. */
  ghost function WithInode(owner: map<int, int>, i: int, n: Inode): map<int, int> {
    Extended(owner + Nobody(i, 1) + Nobody(n.start, Sectors(n.length)), i, n)
  }

  /** Then it is given up, and only its own sector is released. */
  lemma GivenUp(owner: map<int, int>, i: int, n: Inode, x: int)
    requires i >= 0 && !InExtent(n, i) && (x in owner ==> owner[x] != i && x != i && !InExtent(n, x))
    ensures Nobodys(WithInode(owner, i, n), x) <==> Nobodys(owner, x)
    ensures Nobodys(Without(WithInode(owner, i, n), i) - Nobody(i, 1).Keys, x) <==> Nobodys(owner, x) || InExtent(n, x)
  {
  }

  /** The sectors that filesys_create() takes had no owner. */
  lemma TakenSectors(p: Space, size: int, m: Mem, i: int, n: Inode, x: int)
    requires SpaceOk(p) && 0 <= size < W && GetsInode(p, size, m)
    requires i == FreeMapAllocate(p, 1, m.map1).1.value && n == Inode(DataStart(p, size, m), size)
    ensures i >= 0 && !InExtent(n, i) && (x in p.owner ==> p.owner[x] != i && x != i && !InExtent(n, x))
  {
    var a := FreeMapAllocate(p, 1, m.map1);
    AllocateKeeps(p, 1, m.map1);
    FirstAllocated(p, m.map1);
    AllocateKeeps(a.0, Sectors(size), m.map2);
    StillUnowned(a.0, i, n.start, Sectors(size));
    NotLive(p, i);
    AtSector(p, x);
    AtSector(a.0, x);
  }

  lemma InodeCreateOwner(p: Space, size: int, m: Mem, i: int, n: Inode)
    requires SpaceOk(p) && 0 <= size < W && GetsInode(p, size, m)
    requires i == FreeMapAllocate(p, 1, m.map1).1.value && n == Inode(DataStart(p, size, m), size)
    ensures FREE_MAP_SECTOR in FreeMapAllocate(p, 1, m.map1).0.inodes
    ensures InodeCreate(FreeMapAllocate(p, 1, m.map1).0, i, size, true, m.map2).0.owner == WithInode(p.owner, i, n)
  {
    AllocateKeeps(p, 1, m.map1);
    FirstAllocated(p, m.map1);
    AllocateKeeps(FreeMapAllocate(p, 1, m.map1).0, Sectors(size), m.map2);
  }

  lemma CreateOwner(p: Space, name: seq<int>, size: int, m: Mem, i: int, n: Inode)
    requires SpaceOk(p) && 0 <= size < W && GetsInode(p, size, m) && 0 !in name
    requires i == FreeMapAllocate(p, 1, m.map1).1.value && n == Inode(DataStart(p, size, m), size)
    ensures Create(p, name, size, m).0.owner
         == if Refused(p.slots, name, m.dir) then Without(WithInode(p.owner, i, n), i) - Nobody(i, 1).Keys
            else WithInode(p.owner, i, n)
  {
    InodeCreateOwner(p, size, m, i, n);
    AllocateKeeps(p, 1, m.map1);
    FirstAllocated(p, m.map1);
    CreateAtOwner(FreeMapAllocate(p, 1, m.map1).0, name, size, i, m);
  }

  lemma CreateAtOwner(p: Space, name: seq<int>, size: int, i: int, m: Mem)
    requires SpaceOk(p) && Unowned(p.owner, i, 1) && 0 <= i < |p.used| && i !in p.inodes && 0 <= size < W && 0 !in name
    requires InodeCreate(p, i, size, m.inode, m.map2).1
    ensures var owner := InodeCreate(p, i, size, m.inode, m.map2).0.owner;
            CreateAt(p, name, size, i, m).0.owner
            == if Refused(p.slots, name, m.dir) then Without(owner, i) - Nobody(i, 1).Keys else owner
  {
    InodeCreateKeeps(p, i, size, m.inode, m.map2);
    AddEntryKeeps(InodeCreate(p, i, size, m.inode, m.map2).0, name, i, m.dir);
  }

  /** Exactly when filesys_create() loses sectors, and which: if it comes to dir_add() and that fails, the data sectors
      that it took. */
  lemma CreateLoses(p: Space, name: seq<int>, size: int, m: Mem, x: int)
    requires SpaceOk(p) && 0 <= size < W && 0 !in name
    ensures Lost(Create(p, name, size, m).0, x) <==>
              || Lost(p, x)
              || (GetsInode(p, size, m) && Refused(p.slots, name, m.dir)
                  && DataStart(p, size, m) <= x < DataStart(p, size, m) + Sectors(size))
  {
    if GetsInode(p, size, m) {
      var i, n := FreeMapAllocate(p, 1, m.map1).1.value, Inode(DataStart(p, size, m), size);
      TakenSectors(p, size, m, i, n, x);
      CreateOwner(p, name, size, m, i, n);
      GivenUp(p.owner, i, n, x);
    } else {
      EarlyFailLosesNone(p, name, size, m);
    }
  }

  lemma EarlyFailLosesNone(p: Space, name: seq<int>, size: int, m: Mem)
    requires SpaceOk(p) && 0 <= size < W && !GetsInode(p, size, m)
    ensures Create(p, name, size, m).0.owner == p.owner
  {
    var a := FreeMapAllocate(p, 1, m.map1);
    if m.root {
      if a.1.None? {
        AllocateFails(p, 1, m.map1);
      } else {
        AllocateKeeps(p, 1, m.map1);
        FirstAllocated(p, m.map1);
        InodeCreateKeeps(a.0, a.1.value, size, m.inode, m.map2);
        AllocUndone(p, a.1.value, 1);
      }
    }
  }

  /** For instance, a file of 512 bytes with a name that is in use and that lookup() finds: one sector is lost. */
  lemma CreateExistingLosesOne(p: Space, name: seq<int>, m: Mem, x: int)
    requires SpaceOk(p) && 0 !in name && GetsInode(p, SECTOR, m) && FoundAt(p.slots, name, m.dir.lookup) < |p.slots|
    ensures !Create(p, name, SECTOR, m).1
    ensures Lost(Create(p, name, SECTOR, m).0, x) <==> Lost(p, x) || x == DataStart(p, SECTOR, m)
  {
    CreateSucceeds(p, name, SECTOR, m);
    CreateLoses(p, name, SECTOR, m, x);
  }
}

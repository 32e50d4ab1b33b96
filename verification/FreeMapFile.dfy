/** filesys/free-map.c: the free map on disk follows the one in memory. */
module FreeMapFile {
  import opened Basics
  import opened Arithmetic
  import opened Bits
  import opened Bitmap
  import opened InodeIO
  import opened FileSpace
  import opened OpenFiles
  import opened FileSys
  import opened FileContents
  import opened FileSysRuns

  /** The free map file holds the free map. */
  ghost predicate MapOnDisk(p: Space) {
    && FREE_MAP_SECTOR in p.inodes && p.inodes[FREE_MAP_SECTOR].length == |MapBytes(p.used)|
    && Fits(p.bytes, p.inodes[FREE_MAP_SECTOR].start, p.inodes[FREE_MAP_SECTOR].length)
    && FileBytes(p.bytes, p.inodes[FREE_MAP_SECTOR].start, p.inodes[FREE_MAP_SECTOR].length) == MapBytes(p.used)
  }

  /** A file that is written from end to end. */
  lemma WholeFile(bytes: seq<int>, start: int, length: int, b: seq<int>)
    requires Fits(bytes, start, length) && |b| == length
    ensures Fits(Patch(bytes, SECTOR * start, b), start, length)
    ensures FileBytes(Patch(bytes, SECTOR * start, b), start, length) == b
  {
    FileSlice(bytes, start, length, 0, length);
  }

  lemma SaveMapSaves(p: Space, memory: bool)
    requires SpaceOk(p) && p.inodes[FREE_MAP_SECTOR].length == |MapBytes(p.used)| && CanSave(|p.used|, memory)
    ensures MapOnDisk(SaveMap(p, memory)) && MapSaved(p, memory)
  {
    AtInode(p, FREE_MAP_SECTOR);
    var n, b := p.inodes[FREE_MAP_SECTOR], MapBytes(p.used);
    assert b[..|b|] == b;
    WholeFile(p.bytes, n.start, n.length, b);
  }

  lemma ElsewhereKeepsMap(p: Space, p': Space, i: int)
    requires SpaceOk(p) && MapOnDisk(p) && i in p.inodes && i != FREE_MAP_SECTOR
    requires OnlyIn(p.bytes, p'.bytes, p.inodes[i])
    requires p'.used == p.used && FREE_MAP_SECTOR in p'.inodes
    requires p'.inodes[FREE_MAP_SECTOR] == p.inodes[FREE_MAP_SECTOR]
    ensures MapOnDisk(p')
  {
    ElsewhereKeeps(p, p', i, FREE_MAP_SECTOR);
  }

  lemma AllocateSaves(p: Space, cnt: int, memory: bool)
    requires SpaceOk(p) && MapOnDisk(p) && cnt >= 0 && CanSave(|p.used|, memory)
    ensures MapOnDisk(FreeMapAllocate(p, cnt, memory).0)
  {
    var r := Search(p.used, 0, cnt, false);
    if r.Found? {
      AllocKeeps(p, r.idx, cnt);
      SaveMapSaves(Alloc(p, r.idx, cnt), memory);
    }
  }

  lemma ReleaseSaves(p: Space, start: int, cnt: int, memory: bool)
    requires SpaceOk(p) && 0 <= start && 0 <= cnt && start + cnt <= |p.used| && Unowned(p.owner, start, cnt)
    requires p.inodes[FREE_MAP_SECTOR].length == |MapBytes(p.used)| && CanSave(|p.used|, memory)
    ensures MapOnDisk(FreeMapRelease(p, start, cnt, memory))
  {
    UnallocKeeps(p, start, cnt);
    SaveMapSaves(Unalloc(p, start, cnt), memory);
  }

  lemma InodeCreateSaves(p: Space, i: int, length: int, have: bool, memory: bool)
    requires SpaceOk(p) && Unowned(p.owner, i, 1) && 0 <= i < |p.used| && i !in p.inodes && 0 <= length < W
    requires MapOnDisk(p) && CanSave(|p.used|, memory)
    ensures MapOnDisk(InodeCreate(p, i, length, have, memory).0)
    ensures |InodeCreate(p, i, length, have, memory).0.used| == |p.used|
  {
    if have {
      var a := FreeMapAllocate(p, Sectors(length), memory);
      AllocateSaves(p, Sectors(length), memory);
      if a.1.Some? {
        AllocateKeeps(p, Sectors(length), memory);
        StillUnowned(p, i, a.1.value, Sectors(length));
        AdoptKeepsFile(a.0, i, Inode(a.1.value, length), FREE_MAP_SECTOR);
      }
    }
  }

  /** The free map can be written whenever the call writes it. */
  predicate CanWriteMap(n: nat, m: Mem) {
    CanSave(n, m.map1) && CanSave(n, m.map2) && CanSave(n, m.map3)
  }

  lemma CreateAtSaves(p: Space, name: seq<int>, size: int, i: int, m: Mem)
    requires SpaceOk(p) && Unowned(p.owner, i, 1) && 0 <= i < |p.used| && i !in p.inodes && 0 <= size < W && 0 !in name
    requires MapOnDisk(p) && CanWriteMap(|p.used|, m)
    ensures MapOnDisk(CreateAt(p, name, size, i, m).0) && |CreateAt(p, name, size, i, m).0.used| == |p.used|
  {
    var c := InodeCreate(p, i, size, m.inode, m.map2);
    InodeCreateKeeps(p, i, size, m.inode, m.map2);
    InodeCreateSaves(p, i, size, m.inode, m.map2);
    if c.1 {
      var d := AddEntry(c.0, name, i, m.dir);
      AddEntryKeeps(c.0, name, i, m.dir);
      if d.1 {
        ElsewhereKeepsMap(c.0, d.0, ROOT_DIR_SECTOR);
      } else {
        DisownKeeps(c.0, i);
        ReleaseSaves(Disown(c.0, i), i, 1, m.map3);
      }
    } else {
      ReleaseSaves(c.0, i, 1, m.map3);
    }
  }

  lemma CreateSaves(p: Space, name: seq<int>, size: int, m: Mem)
    requires SpaceOk(p) && 0 <= size < W && 0 !in name && MapOnDisk(p) && CanWriteMap(|p.used|, m)
    ensures MapOnDisk(Create(p, name, size, m).0) && |Create(p, name, size, m).0.used| == |p.used|
  {
    var a := FreeMapAllocate(p, 1, m.map1);
    AllocateSaves(p, 1, m.map1);
    if m.root && a.1.Some? {
      AllocateKeeps(p, 1, m.map1);
      FirstAllocated(p, m.map1);
      CreateAtSaves(a.0, name, size, a.1.value, m);
    }
  }

  lemma CloseSaves(s: State, i: int, m: Mem)
    requires Holding(s, i) && MapOnDisk(s.space) && CanWriteMap(|s.space.used|, m)
    ensures 0 <= i < |s.space.used|
    ensures var n := s.table.open[i].inode;
            0 <= n.start && 0 <= n.length && n.start + Sectors(n.length) <= |s.space.used|
    ensures MapOnDisk(CloseInode(s, i, m).space) && |CloseInode(s, i, m).space.used| == |s.space.used|
  {
    HeldInode(s, i);
    if Releases(s.table, i) {
      var p, n := s.space, s.space.inodes[i];
      DisownKeeps(p, i);
      var p1 := FreeMapRelease(Disown(p, i), i, 1, m.map1);
      ReleaseKeeps(Disown(p, i), i, 1, m.map1);
      forall x | n.start <= x < n.start + Sectors(n.length)
        ensures x in p1.owner && p1.owner[x] == -1
      {
        assert Look(x);
      }
      ReleaseSaves(p1, n.start, Sectors(n.length), m.map2);
    }
  }

  /** Whatever the call, with memory to write the free map: the file on disk then holds the free map in memory. */
  lemma CallSavesMap(s: State, step: Step, m: Mem)
    requires Inv(s) && MapOnDisk(s.space) && CanWriteMap(|s.space.used|, m)
    ensures MapOnDisk(Next(s, step, m).space) && |Next(s, step, m).space.used| == |s.space.used|
  {
    match step
    case CreateStep(name, size) => if 0 <= size < W && 0 !in name { CreateSaves(s.space, name, size, m); }
    case OpenStep(name, h) =>
      var k := LookupRoot(s.space, name, m.dir);
      if k < |s.space.slots| {
        OpenNamedKeeps(s, k);
        CloseSaves(OpenNamed(s, k), s.space.slots[k].sector, m);
      }
    case RemoveStep(name) => RemoveSaves(s, name, m);
    case WriteStep(h, data) =>
      if h in s.table.files {
        FileInode(s, h);
        WriteOnlyIn(s, h, data, m.file);
        ElsewhereKeepsMap(s.space, WriteFile(s, h, data, m.file).space, s.table.files[h].sector);
      }
    case CloseStep(h) =>
      if h in s.table.files {
        FileInode(s, h);
        DetachFileKeeps(s.table, s.space.inodes, s.space.slots, h);
        CloseSaves(s.(table := DetachFile(s.table, h)), s.table.files[h].sector, m);
      }
    case _ =>
  }

  lemma RemoveSaves(s: State, name: seq<int>, m: Mem)
    requires Inv(s) && MapOnDisk(s.space) && CanWriteMap(|s.space.used|, m)
    ensures MapOnDisk(Remove(s, name, m).space) && |Remove(s, name, m).space.used| == |s.space.used|
  {
    var k := LookupRoot(s.space, name, m.dir);
    if k < |s.space.slots| {
      var i, s1 := s.space.slots[k].sector, OpenNamed(s, k);
      OpenNamedKeeps(s, k);
      EraseEntryKeeps(s1, k);
      WithEntryKeeps(s1.space, k, ErasedEntry(s1.space, k));
      ElsewhereKeepsMap(s1.space, Erase(s1, k).space, ROOT_DIR_SECTOR);
      CloseSaves(s1, i, m);
      CloseSaves(Erase(s1, k), i, m);
    }
  }

  lemma StartSaves(bytes: seq<int>, n: nat)
    requires BigEnough(bytes, n)
    ensures MapOnDisk(Start(bytes, n).space)
  {
    FormattedOk(bytes, n);
    SaveMapSaves(FormattedSpace(bytes, n), true);
  }

  /** On every run on which the free map can be written, its file holds the free map; so filesys_init() without
      formatting finds it again. */
  lemma {:induction false} MapPersists(s: State, calls: seq<Call>)
    requires Inv(s) && MapOnDisk(s.space) && AllSafe(s, calls)
    requires forall c :: c in calls ==> CanWriteMap(|s.space.used|, c.m)
    ensures MapOnDisk(Run(s, calls).space)
    decreases |calls|
  {
    if calls != [] {
      var c := calls[0];
      NextKeepsInv(s, c.step, c.m);
      CallSavesMap(s, c.step, c.m);
      MapPersists(Next(s, c.step, c.m), calls[1..]);
    }
  }

  /** So it is on every run from a formatted device. */
  lemma MapPersistsFromStart(bytes: seq<int>, n: nat, calls: seq<Call>)
    requires BigEnough(bytes, n) && (StartInv(bytes, n); AllSafe(Start(bytes, n), calls))
    requires forall c :: c in calls ==> CanWriteMap(n, c.m)
    ensures Inv(Start(bytes, n)) && MapOnDisk(Run(Start(bytes, n), calls).space)
  {
    StartInv(bytes, n);
    StartSaves(bytes, n);
    MapPersists(Start(bytes, n), calls);
  }

  /** bitmap_read() of the file gives the free map back. */
  lemma MapIsRead(p: Space, j: nat, k: nat)
    requires MapOnDisk(p) && k < 8 && 8 * j + k < |p.used|
    ensures var f := FileBytes(p.bytes, p.inodes[FREE_MAP_SECTOR].start, p.inodes[FREE_MAP_SECTOR].length);
            j < |f| && f[j] >= 0 && (Bit(f[j], k) <==> p.used[8 * j + k])
  {
    MapReadsBack(p.used, j, k);
  }

  // ---- When the file goes stale --------------------------------------------------------------

  /** How many bytes of a free map of `n` sectors are written without memory for the bounce buffer. */
  function WholePart(n: nat): nat {
    4 * ElemCnt(n) - 4 * ElemCnt(n) % SECTOR
  }

  lemma {:induction false} PackedSame(used: seq<bool>, used': seq<bool>, i: nat, k: nat)
    requires |used'| == |used| && forall x :: i <= x < i + k && x < |used| ==> used'[x] == used[x]
    ensures Packed(used', i, k) == Packed(used, i, k)
    decreases k
  {
    if k > 0 {
      PackedSame(used, used', i + 1, k - 1);
    }
  }

  /** Maps that differ in a bit differ in the byte of that bit. */
  lemma BytesDiffer(used: seq<bool>, used': seq<bool>, x: nat)
    requires |used'| == |used| && x < |used| && used'[x] != used[x]
    ensures x / 8 < |MapBytes(used)| && MapBytes(used')[x / 8] != MapBytes(used)[x / 8]
  {
    MapReadsBack(used, x / 8, x % 8);
    MapReadsBack(used', x / 8, x % 8);
  }

  /** Bytes `lo` up to `hi` of a map have no bit of the `cnt` from `start` on. */
  predicate NoBitIn(start: nat, cnt: nat, lo: nat, hi: nat) {
    cnt == 0 || hi <= lo || start + cnt <= 8 * lo || 8 * hi <= start
  }

  /** Marking or clearing sectors changes bytes of the map exactly if they have a bit of theirs. */
  lemma BytesSame(used: seq<bool>, used': seq<bool>, start: nat, cnt: nat, value: bool, lo: nat, hi: nat)
    requires start + cnt <= |used| && Uniform(used, start, cnt, !value) && lo <= hi <= 4 * ElemCnt(|used|)
    requires used' == Filled(used, start, cnt, value)
    ensures MapBytes(used')[lo..hi] == MapBytes(used)[lo..hi] <==> NoBitIn(start, cnt, lo, hi)
  {
    if NoBitIn(start, cnt, lo, hi) {
      forall j | lo <= j < hi
        ensures MapBytes(used')[j] == MapBytes(used)[j]
      {
        PackedSame(used, used', 8 * j, BYTE_BITS);
      }
    } else {
      var x := if start < 8 * lo then 8 * lo else start;
      BytesDiffer(used, used', x);
      assert MapBytes(used')[lo..hi][x / 8 - lo] == MapBytes(used')[x / 8];
      assert MapBytes(used)[lo..hi][x / 8 - lo] == MapBytes(used)[x / 8];
    }
  }

  /** A file whose first `k` bytes are written. */
  lemma PartWritten(bytes: seq<int>, start: int, length: int, b: seq<int>, k: nat)
    requires Fits(bytes, start, length) && k <= |b| == length
    ensures Fits(Patch(bytes, SECTOR * start, b[..k]), start, length)
    ensures FileBytes(Patch(bytes, SECTOR * start, b[..k]), start, length)
            == b[..k] + FileBytes(bytes, start, length)[k..]
  {
    FileSlice(bytes, start, length, 0, length);
  }

  /** What the file holds when the map `p.used` could not be written whole over the map `was`. */
  lemma PartSaved(p: Space, was: seq<bool>, n: Inode, k: nat, file: seq<int>)
    requires SpaceOk(p) && |was| == |p.used| && !CanSave(|p.used|, false) && k == WholePart(|p.used|)
    requires n == p.inodes[FREE_MAP_SECTOR] && n.length == |MapBytes(p.used)| && Fits(p.bytes, n.start, n.length)
    requires FileBytes(p.bytes, n.start, n.length) == MapBytes(was)
    requires file == MapBytes(p.used)[..k] + MapBytes(was)[k..]
    ensures !MapSaved(p, false) && Fits(SaveMap(p, false).bytes, n.start, n.length)
    ensures FileBytes(SaveMap(p, false).bytes, n.start, n.length) == file
    ensures file == MapBytes(p.used) <==> MapBytes(p.used)[k..] == MapBytes(was)[k..]
    ensures file == MapBytes(was) <==> MapBytes(p.used)[..k] == MapBytes(was)[..k]
  {
    PartWritten(p.bytes, n.start, n.length, MapBytes(p.used), k);
    TwoHalves(MapBytes(p.used), MapBytes(was), k);
  }

  lemma TwoHalves(a: seq<int>, b: seq<int>, k: nat)
    requires k <= |a| == |b|
    ensures a[..k] + b[k..] == a <==> a[k..] == b[k..]
    ensures a[..k] + b[k..] == b <==> a[..k] == b[..k]
  {
    assert a == a[..k] + a[k..] && b == b[..k] + b[k..];
    assert (a[..k] + b[k..])[k..] == b[k..] && (a[..k] + b[k..])[..k] == a[..k];
  }

  lemma UnownedUsed(p: Space, start: int, cnt: int)
    requires SpaceOk(p) && 0 <= start && 0 <= cnt && start + cnt <= |p.used| && Unowned(p.owner, start, cnt)
    ensures Uniform(p.used, start, cnt, true)
  {
    forall x | start <= x < start + cnt
      ensures p.used[x]
    {
      assert Look(x);
      AtSector(p, x);
    }
  }

  /** free_map_release() does not look at the result of writing the map. The file then holds the map exactly if it
      could be written, or no sector is released whose bit is in the part that was not. */
  lemma ReleaseGoesStale(p: Space, start: int, cnt: int, memory: bool)
    requires SpaceOk(p) && MapOnDisk(p) && 0 <= start && 0 <= cnt && start + cnt <= |p.used|
    requires Unowned(p.owner, start, cnt)
    ensures MapOnDisk(FreeMapRelease(p, start, cnt, memory)) <==>
              CanSave(|p.used|, memory) || cnt == 0 || start + cnt <= 8 * WholePart(|p.used|)
  {
    if CanSave(|p.used|, memory) {
      ReleaseSaves(p, start, cnt, memory);
    } else {
      var q, k, n := Unalloc(p, start, cnt), WholePart(|p.used|), p.inodes[FREE_MAP_SECTOR];
      UnallocKeeps(p, start, cnt);
      PartSaved(q, p.used, n, k, MapBytes(q.used)[..k] + MapBytes(p.used)[k..]);
      UnownedUsed(p, start, cnt);
      BytesSame(p.used, q.used, start, cnt, false, k, |MapBytes(p.used)|);
      TailOf(MapBytes(q.used), k);
      TailOf(MapBytes(p.used), k);
    }
  }

  lemma TailOf(a: seq<int>, k: nat)
    requires k <= |a|
    ensures a[k..|a|] == a[k..]
  {
  }

  /** free_map_allocate() takes its sectors back if the map could not be written, but not what it did write. The file
      then holds the map exactly if it could be written, or there was nothing to write in the part that was. */
  lemma AllocateGoesStale(p: Space, cnt: nat, memory: bool)
    requires SpaceOk(p) && MapOnDisk(p)
    ensures var r := Search(p.used, 0, cnt, false);
            MapOnDisk(FreeMapAllocate(p, cnt, memory).0) <==>
              CanSave(|p.used|, memory) || cnt == 0 || r.Error? || 8 * WholePart(|p.used|) <= r.idx
  {
    var r := Search(p.used, 0, cnt, false);
    if CanSave(|p.used|, memory) {
      AllocateSaves(p, cnt, memory);
    } else if r.Found? {
      var q, k, n := Alloc(p, r.idx, cnt), WholePart(|p.used|), p.inodes[FREE_MAP_SECTOR];
      AllocKeeps(p, r.idx, cnt);
      PartSaved(q, p.used, n, k, MapBytes(q.used)[..k] + MapBytes(p.used)[k..]);
      AllocUndone(p, r.idx, cnt);
      BytesSame(p.used, q.used, r.idx, cnt, true, 0, k);
    }
  }

  /** For instance, on a device of at most 4064 sectors, whose map is less than a sector, every release without
      memory for the bounce buffer leaves a file that still has the sectors marked. */
  lemma SmallMapGoesStale(p: Space, start: int, cnt: int)
    requires SpaceOk(p) && MapOnDisk(p) && 0 <= start && 0 < cnt && start + cnt <= |p.used| <= 4064
    requires Unowned(p.owner, start, cnt)
    ensures !MapOnDisk(FreeMapRelease(p, start, cnt, false))
  {
    assert 0 < 4 * ElemCnt(|p.used|) < SECTOR;
    ReleaseGoesStale(p, start, cnt, false);
  }
}

/** filesys/filesys.c and what it calls, as they change the device, the free map and the tables in place; each function
    is shown to make the step of module FileSys. */
module FileSystem {
  import opened Basics
  import opened Arithmetic
  import opened Bitmap
  import opened InodeIO
  import opened Directory
  import opened FileSpace
  import opened OpenFiles
  import opened FileSys
  import opened FileContents

  lemma PutIsPatch(s: seq<int>, s': seq<int>, at: int, data: seq<int>)
    requires Put(s, s', at, data)
    ensures s' == Patch(s, at, data)
  {
  }

  lemma PackedStep(used: seq<bool>, i: int, k: int)
    requires k > 0
    ensures Packed(used, i, k) == (if 0 <= i < |used| && used[i] then 1 else 0) + 2 * Packed(used, i + 1, k - 1)
  {
  }

  method TestOrFalse(b: Bitmap, i: nat) returns (bit: bool)
    requires b.Valid()
    ensures bit <==> i < |b.Bits()| && b.Bits()[i]
  {
    if i < b.bitCnt {
      bit := b.Test(i);
    } else {
      bit := false;
    }
  }

  /** The byte whose bits are the bitmap's from `base` on. */
  method MapByteAt(b: Bitmap, base: nat) returns (v: nat)
    requires b.Valid()
    ensures v == Packed(b.Bits(), base, BYTE_BITS)
  {
    ghost var used := b.Bits();
    v := 0;
    var n, at := 0, base + BYTE_BITS;
    while n < BYTE_BITS
      invariant 0 <= n <= BYTE_BITS && at == base + BYTE_BITS - n && v == Packed(used, at, n)
    {
      n, at := n + 1, at - 1;
      PackedStep(used, at, n);
      var bit := TestOrFalse(b, at);
      v := (if bit then 1 else 0) + 2 * v;
    }
  }

  /** The bytes that bitmap_write() writes. */
  method BytesOfMap(b: Bitmap) returns (r: seq<nat>)
    requires b.Valid()
    ensures r == MapBytes(b.Bits())
  {
    r := [];
    var j := 0;
    while j < 4 * ElemCnt(b.bitCnt)
      invariant 0 <= j <= 4 * ElemCnt(b.bitCnt) && |r| == j
      invariant forall k :: 0 <= k < j ==> r[k] == Packed(b.Bits(), 8 * k, BYTE_BITS)
    {
      var v := MapByteAt(b, 8 * j);
      r := r + [v];
      j := j + 1;
    }
  }

  lemma ZeroMore(bytes: seq<int>, bytes1: seq<int>, bytes2: seq<int>, at: int, k: int)
    requires k >= 0 && bytes1 == Patch(bytes, at, Zeros(SECTOR * k))
    requires Put(bytes1, bytes2, at + SECTOR * k, Zeros(SECTOR))
    ensures bytes2 == Patch(bytes, at, Zeros(SECTOR * (k + 1)))
  {
  }

  /** Zeros to each of `cnt` sectors. */
  method ZeroSectors(dev: Device, start: int, cnt: int)
    requires 0 <= start && 0 <= cnt && SECTOR * (start + cnt) <= |dev.bytes|
    modifies dev
    ensures dev.bytes == Patch(old(dev.bytes), SECTOR * start, Zeros(SECTOR * cnt))
  {
    ghost var bytes := dev.bytes;
    var k := 0;
    while k < cnt
      invariant 0 <= k <= cnt && dev.bytes == Patch(bytes, SECTOR * start, Zeros(SECTOR * k))
    {
      ghost var before := dev.bytes;
      dev.BlockWrite(start + k, Zeros(SECTOR));
      ZeroMore(bytes, before, dev.bytes, SECTOR * start, k);
      k := k + 1;
    }
  }

  /** inode_write_at(). */
  method WriteToInode(dev: Device, o: Open, data: seq<int>, pos: int, memory: bool) returns (n: int)
    requires Fits(dev.bytes, o.inode.start, o.inode.length) && 0 <= pos
    modifies dev
    ensures n == (if o.deny != 0 then 0 else Reach(|data|, pos, o.inode.length, memory)) && 0 <= n <= |data|
    ensures dev.bytes == Patch(old(dev.bytes), SECTOR * o.inode.start + pos, data[..n])
  {
    ghost var before := dev.bytes;
    n := WriteAt(dev, o.inode.start, o.inode.length, data, pos, memory, o.deny);
    PutIsPatch(before, dev.bytes, SECTOR * o.inode.start + pos, data[..n]);
  }

  /** bitmap_write(), to the file with inode `n`. */
  method WriteBitmap(dev: Device, b: Bitmap, n: Inode, memory: bool) returns (ok: bool)
    requires b.Valid() && Fits(dev.bytes, n.start, n.length)
    modifies dev
    ensures var data := MapBytes(b.Bits());
            var k := Reach(|data|, 0, n.length, memory);
            dev.bytes == Patch(old(dev.bytes), SECTOR * n.start, data[..k]) && ok == (k == |data|)
  {
    ghost var before, bits := dev.bytes, b.Bits();
    var data := BytesOfMap(b);
    var k := WriteFromStart(dev, n, data, memory);
    ok := k == |data|;
    assert b.Bits() == bits && data == MapBytes(bits);
    assert dev.bytes == Patch(before, SECTOR * n.start, data[..k]);
  }

  /** file_write_at(), from the start of the file with inode `n`, whose writes nobody denies. */
  method WriteFromStart(dev: Device, n: Inode, data: seq<int>, memory: bool) returns (k: int)
    requires Fits(dev.bytes, n.start, n.length)
    modifies dev
    ensures k == Reach(|data|, 0, n.length, memory) && 0 <= k <= |data|
    ensures dev.bytes == Patch(old(dev.bytes), SECTOR * n.start, data[..k])
  {
    ghost var before := dev.bytes;
    k := WriteAt(dev, n.start, n.length, data, 0, memory, 0);
    PutIsPatch(before, dev.bytes, SECTOR * n.start, data[..k]);
  }

  /** dir_add() to the root directory, whose inode is `n`. */
  method AddToRoot(dev: Device, n: Inode, name: seq<int>, i: nat, m: Memory, ghost p: Space) returns (ok: bool)
    requires SpaceOk(p) && p.bytes == dev.bytes && p.inodes[ROOT_DIR_SECTOR] == n && 0 !in name && i < W
    modifies dev
    ensures ok == AddEntry(p, name, i, m).1 && dev.bytes == AddEntry(p, name, i, m).0.bytes
  {
    AtInode(p, ROOT_DIR_SECTOR);
    ghost var k, b;
    ok, k, b := DirAdd(dev, n.start, n.length, name, i, m);
    if ok {
      PutIsPatch(p.bytes, dev.bytes, SECTOR * n.start + ENTRY * k, Fill(b, name, i));
    }
  }

  /** dir_remove()'s writing of an entry of the root directory, whose inode is `n`. */
  method EraseInRoot(dev: Device, n: Inode, k: nat, b: seq<int>, ghost p: Space)
    requires SpaceOk(p) && p.bytes == dev.bytes && p.inodes[ROOT_DIR_SECTOR] == n && k < |p.slots|
    requires b == RootBytes(p)[ENTRY * k..ENTRY * (k + 1)] && Decode(b) == p.slots[k]
    modifies dev
    ensures dev.bytes == WithEntry(p, k, ErasedEntry(p, k)).bytes
  {
    AtInode(p, ROOT_DIR_SECTOR);
    var ok := DirErase(dev, n.start, n.length, k, b, true);
    PutIsPatch(p.bytes, dev.bytes, SECTOR * n.start + ENTRY * k, b[19 := 0]);
  }

  class FileSystem {
    const dev: Device
    const freeMap: Bitmap
    /** The inode that the free map's file has open. */
    const mapInode: Inode
    /** The root directory's inode. */
    const rootInode: Inode
    /** open_inodes. */
    var open: seq<InCore>
    var files: map<int, File>
    ghost var inodes: map<int, Inode>
    ghost var slots: seq<Entry>
    ghost var owner: map<int, int>

    ghost function SpaceOf(): Space
      requires freeMap.Valid()
      reads this, dev, freeMap, freeMap.words
    {
      Space(dev.bytes, freeMap.Bits(), inodes, slots, owner)
    }

    ghost function Abs(): State
      requires freeMap.Valid()
      reads this, dev, freeMap, freeMap.words
    {
      State(SpaceOf(), Table(MapOf(open), files))
    }

    /** The space is in order, no two elements of open_inodes are for one sector, and the two special inodes are as
        they were. */
    ghost predicate Ready()
      reads this, dev, freeMap, freeMap.words
    {
      && freeMap.Valid() && SpaceOk(SpaceOf()) && Distinct(open)
      && inodes[FREE_MAP_SECTOR] == mapInode && inodes[ROOT_DIR_SECTOR] == rootInode
    }

    ghost predicate Valid()
      reads this, dev, freeMap, freeMap.words
    {
      Ready() && Inv(Abs())
    }

    /** After filesys_init(), for a device and a free map that are in order. */
    constructor (dev: Device, freeMap: Bitmap, mapInode: Inode, rootInode: Inode, ghost s: State, open: seq<InCore>)
      requires freeMap.Valid() && Inv(s) && Distinct(open) && s.table == Table(MapOf(open), map[])
      requires s.space.bytes == dev.bytes && s.space.used == freeMap.Bits()
      requires s.space.inodes[FREE_MAP_SECTOR] == mapInode && s.space.inodes[ROOT_DIR_SECTOR] == rootInode
      ensures Valid() && Abs() == s && this.dev == dev && this.freeMap == freeMap
    {
      this.dev, this.freeMap, this.mapInode, this.rootInode := dev, freeMap, mapInode, rootInode;
      this.open, files := open, map[];
      inodes, slots, owner := s.space.inodes, s.space.slots, s.space.owner;
    }

    /** bitmap_write() of the free map. */
    method WriteMap(memory: bool) returns (ok: bool)
      requires Ready()
      modifies dev
      ensures Ready() && SpaceOf() == SaveMap(old(SpaceOf()), memory) && ok == MapSaved(old(SpaceOf()), memory)
    {
      ghost var p := SpaceOf();
      AtInode(p, FREE_MAP_SECTOR);
      SaveMapKeeps(p, memory);
      ok := WriteBitmap(dev, freeMap, mapInode, memory);
    }

    /** free_map_allocate(). */
    method AllocateSectors(cnt: nat, memory: bool) returns (r: Option<int>)
      requires Ready()
      modifies this`owner, dev, freeMap.words
      ensures Ready() && SpaceOf() == FreeMapAllocate(old(SpaceOf()), cnt, memory).0
      ensures r == FreeMapAllocate(old(SpaceOf()), cnt, memory).1
    {
      ghost var p := SpaceOf();
      var found := freeMap.ScanAndFlip(0, cnt, false);
      if found.Error? {
        return None;
      }
      owner := owner + Nobody(found.idx, cnt);
      AllocKeeps(p, found.idx, cnt);
      var ok := WriteMap(memory);
      if ok {
        return Some(found.idx);
      }
      SaveMapKeeps(Alloc(p, found.idx, cnt), memory);
      UnallocKeeps(SpaceOf(), found.idx, cnt);
      freeMap.SetMultiple(found.idx, cnt, false);
      owner := owner - Nobody(found.idx, cnt).Keys;
      return None;
    }

    /** free_map_release(). */
    method ReleaseSectors(start: nat, cnt: nat, memory: bool)
      requires Ready() && start + cnt <= freeMap.bitCnt && Unowned(owner, start, cnt)
      modifies this`owner, dev, freeMap.words
      ensures Ready() && SpaceOf() == FreeMapRelease(old(SpaceOf()), start, cnt, memory)
    {
      UnallocKeeps(SpaceOf(), start, cnt);
      freeMap.SetMultiple(start, cnt, false);
      owner := owner - Nobody(start, cnt).Keys;
      var ok := WriteMap(memory);
    }

    /** The end of inode_create(): write the inode, and zeros to each sector of its extent. */
    method WriteInode(i: nat, n: Inode)
      requires Ready() && Available(SpaceOf(), i, n) && i !in inodes
      modifies this`inodes, this`owner, dev
      ensures Ready() && SpaceOf() == Adopt(old(SpaceOf()), i, n)
    {
      ghost var p := SpaceOf();
      AdoptKeeps(p, i, n);
      dev.BlockWrite(i, InodeBytes(n));
      PutIsPatch(p.bytes, dev.bytes, SECTOR * i, InodeBytes(n));
      ZeroSectors(dev, n.start, Sectors(n.length));
      inodes := inodes[i := n];
      owner := Extended(owner, i, n);
    }

    /** inode_create(). */
    method CreateInode(i: nat, length: nat, have: bool, memory: bool) returns (ok: bool)
      requires Ready() && Unowned(owner, i, 1) && i < freeMap.bitCnt && i !in inodes && length < W
      modifies this`inodes, this`owner, dev, freeMap.words
      ensures Ready() && SpaceOf() == InodeCreate(old(SpaceOf()), i, length, have, memory).0
      ensures ok == InodeCreate(old(SpaceOf()), i, length, have, memory).1
    {
      if !have {
        return false;
      }
      ghost var p := SpaceOf();
      var start := AllocateSectors(Sectors(length), memory);
      if start.None? {
        return false;
      }
      AllocateKeeps(p, Sectors(length), memory);
      StillUnowned(p, i, start.value, Sectors(length));
      WriteInode(i, Inode(start.value, length));
      return true;
    }

    /** dir_add() to the root directory. */
    method AddName(name: seq<int>, i: nat, m: Memory) returns (ok: bool)
      requires Ready() && 0 !in name && i < W
      modifies this`slots, dev
      ensures Ready() && SpaceOf() == AddEntry(old(SpaceOf()), name, i, m).0
      ensures ok == AddEntry(old(SpaceOf()), name, i, m).1
    {
      ghost var p := SpaceOf();
      AtInode(p, ROOT_DIR_SECTOR);
      AddEntryKeeps(p, name, i, m);
      ok := AddToRoot(dev, rootInode, name, i, m, p);
      slots := Added(slots, name, i, m);
    }

    /** filesys_create() from inode_create() on. */
    method CreateInSector(name: seq<int>, size: nat, i: nat, m: Mem) returns (ok: bool)
      requires Ready() && Unowned(owner, i, 1) && i < freeMap.bitCnt && i !in inodes && size < W && 0 !in name
      modifies this`inodes, this`slots, this`owner, dev, freeMap.words
      ensures Ready() && SpaceOf() == CreateAt(old(SpaceOf()), name, size, i, m).0
      ensures ok == CreateAt(old(SpaceOf()), name, size, i, m).1
    {
      ghost var p := SpaceOf();
      InodeCreateKeeps(p, i, size, m.inode, m.map2);
      ok := CreateInode(i, size, m.inode, m.map2);
      if !ok {
        ReleaseSectors(i, 1, m.map3);
        return;
      }
      ok := NameOrGiveUp(name, i, m);
    }

    /** The end of filesys_create(). */
    method NameOrGiveUp(name: seq<int>, i: nat, m: Mem) returns (ok: bool)
      requires Ready() && 0 !in name && i in inodes && !Special(i) && i < freeMap.bitCnt
      modifies this`inodes, this`slots, this`owner, dev, freeMap.words
      ensures Ready() && SpaceOf() == NameOrRelease(old(SpaceOf()), name, i, m).0
      ensures ok == NameOrRelease(old(SpaceOf()), name, i, m).1
    {
      ghost var p := SpaceOf();
      ok := AddName(name, i, m.dir);
      if !ok {
        DisownKeeps(p, i);
        inodes, owner := inodes - {i}, Without(owner, i);
        ReleaseSectors(i, 1, m.map3);
      }
    }

    /** filesys_create(), whether dir_add() is then safe or not. */
    method CreateFile(name: seq<int>, size: nat, m: Mem) returns (ok: bool)
      requires Valid() && size < W && 0 !in name
      modifies this`inodes, this`slots, this`owner, dev, freeMap.words
      ensures Ready() && Abs() == Next(old(Abs()), CreateStep(name, size), m)
      ensures ok == Create(old(SpaceOf()), name, size, m).1
      ensures Valid() <==> old(Safe(Abs(), CreateStep(name, size), m))
    {
      CreateIsSafe(Abs(), name, size, m);
      ok := CreateInRoot(name, size, m);
    }

    method CreateInRoot(name: seq<int>, size: nat, m: Mem) returns (ok: bool)
      requires Ready() && size < W && 0 !in name
      modifies this`inodes, this`slots, this`owner, dev, freeMap.words
      ensures Ready() && SpaceOf() == Create(old(SpaceOf()), name, size, m).0
      ensures ok == Create(old(SpaceOf()), name, size, m).1
    {
      ghost var p := SpaceOf();
      if !m.root {
        return false;
      }
      var i := AllocateSectors(1, m.map1);
      if i.None? {
        return false;
      }
      FirstAllocated(p, m.map1);
      ok := CreateInSector(name, size, i.value, m);
    }

    /** lookup() in the root directory: the number of the entry, and its bytes. */
    method LookupName(name: seq<int>, m: Memory) returns (k: int, b: seq<int>)
      requires Ready()
      ensures k == LookupRoot(SpaceOf(), name, m) && (k < |slots| <==> k < rootInode.length / ENTRY)
      ensures k < |slots| ==> b == RootBytes(SpaceOf())[ENTRY * k..ENTRY * (k + 1)] && Decode(b) == slots[k]
    {
      AtInode(SpaceOf(), ROOT_DIR_SECTOR);
      k, b := Lookup(dev, rootInode.start, rootInode.length, name, m.lookup);
    }

    /** The element of open_inodes that a pointer to the inode in sector `i` points to. */
    method InodeOf(i: int) returns (o: Open)
      requires i in MapOf(open)
      ensures o == MapOf(open)[i]
    {
      MapHas(open, i);
      var k := FindOpen(open, i);
      o := open[k].open;
    }

    method SetInode(i: int, o: Open)
      requires Distinct(open) && i in MapOf(open)
      modifies this`open
      ensures Distinct(open) && MapOf(open) == old(MapOf(open))[i := o]
    {
      MapHas(open, i);
      MapSet(open, i, o);
      var k := FindOpen(open, i);
      open := open[k := InCore(i, o)];
    }

    method DropFromList(i: int)
      requires Distinct(open) && i in MapOf(open)
      modifies this`open
      ensures Distinct(open) && MapOf(open) == old(MapOf(open)) - {i}
    {
      MapHas(open, i);
      MapDrop(open, i);
      var k := FindOpen(open, i);
      DropDistinct(open, k);
      open := Dropped(open, k);
    }

    /** inode_open() and inode_reopen(): an inode that is in the list already is not read again; one that is not goes
        to the front. `have` says whether there is memory for it. */
    method InodeOpen(i: nat, have: bool) returns (ok: bool)
      requires Ready() && i in inodes
      modifies this`open
      ensures SECTOR * (i + 1) <= |dev.bytes| && Distinct(open)
      ensures ok <==> i in old(MapOf(open)) || have
      ensures Table(MapOf(open), files)
           == if ok then OpenInode(old(Table(MapOf(open), files)), i, InodeAt(dev.bytes, i))
              else old(Table(MapOf(open), files))
    {
      AtInode(SpaceOf(), i);
      MapHas(open, i);
      var k := FindOpen(open, i);
      if k < |open| {
        MapSet(open, i, open[k].open.(cnt := open[k].open.cnt + 1));
        open := open[k := InCore(i, open[k].open.(cnt := open[k].open.cnt + 1))];
        return true;
      }
      if !have {
        return false;
      }
      open := [InCore(i, Open(1, false, 0, InodeAt(dev.bytes, i)))] + open;
      assert open[1..] == old(open);
      return true;
    }

    /** inode_close(). */
    method InodeClose(i: nat, m: Mem)
      requires Ready() && Holding(Abs(), i)
      modifies this`open, this`inodes, this`owner, dev, freeMap.words
      ensures Valid()
      ensures i < |old(SpaceOf()).used|
      ensures var n := old(MapOf(open))[i].inode;
              0 <= n.start && 0 <= n.length && n.start + Sectors(n.length) <= |old(SpaceOf()).used|
      ensures Abs() == CloseInode(old(Abs()), i, m)
    {
      ghost var s := Abs();
      CloseInodeKeeps(s, i, m);
      HeldInode(s, i);
      var inode := InodeOf(i);
      if inode.cnt == 1 {
        DropFromList(i);
        if inode.removed {
          ReleaseInode(i, inode.inode, m);
        }
      } else {
        SetInode(i, inode.(cnt := inode.cnt - 1));
      }
    }

    /** The part of inode_close() that releases the sectors of a removed inode. */
    method ReleaseInode(i: nat, n: Inode, m: Mem)
      requires Ready() && i in inodes && !Special(i) && n == inodes[i]
      modifies this`inodes, this`owner, dev, freeMap.words
      ensures Ready()
      ensures i < |old(SpaceOf()).used| && 0 <= n.start && 0 <= n.length
      ensures n.start + Sectors(n.length) <= |old(SpaceOf()).used|
      ensures SpaceOf()
              == FreeMapRelease(FreeMapRelease(Disown(old(SpaceOf()), i), i, 1, m.map1),
                                n.start, Sectors(n.length), m.map2)
    {
      ghost var p := SpaceOf();
      AtInode(p, i);
      DisownKeeps(p, i);
      inodes, owner := inodes - {i}, Without(owner, i);
      ReleaseKeeps(Disown(p, i), i, 1, m.map1);
      ghost var was := owner;
      ReleaseSectors(i, 1, m.map1);
      forall x | n.start <= x < n.start + Sectors(n.length)
        ensures x in owner && owner[x] == -1
      {
        assert Look(x);
      }
      ReleaseSectors(n.start, Sectors(n.length), m.map2);
    }

    /** filesys_open(). */
    method FilesysOpen(name: seq<int>, h: int, m: Mem) returns (ok: bool)
      requires Valid() && h !in files
      modifies this`open, this`files, this`inodes, this`owner, dev, freeMap.words
      ensures Valid() && Abs() == OpenFile(old(Abs()), name, h, m)
      ensures ok <==> h in files
      ensures ok ==> files[h].pos == 0 && !files[h].deny && Entry(files[h].sector, name, true) in slots
    {
      ghost var s := Abs();
      if !m.root {
        return false;
      }
      var k, b := LookupName(name, m.dir);
      if k >= rootInode.length / ENTRY {
        return false;
      }
      NamedInode(s, k);
      var i := Decode(b).sector;
      var got := InodeOpen(i, m.inode);
      if !got {
        return false;
      }
      OpenNamedKeeps(s, k);
      ok := FileOpen(i, h, m);
    }

    /** file_open(), for an inode that it takes over. */
    method FileOpen(i: nat, h: int, m: Mem) returns (ok: bool)
      requires Ready() && Holding(Abs(), i) && h !in files
      modifies this`open, this`files, this`inodes, this`owner, dev, freeMap.words
      ensures Valid() && (ok <==> h in files) && ok == m.file
      ensures ok ==> Abs() == old(Abs()).(table := AttachFile(old(Abs()).table, h, i)) && files[h] == File(i, 0, false)
      ensures i < |old(SpaceOf()).used|
      ensures var n := old(MapOf(open))[i].inode;
              0 <= n.start && 0 <= n.length && n.start + Sectors(n.length) <= |old(SpaceOf()).used|
      ensures !ok ==> Abs() == CloseInode(old(Abs()), i, m)
    {
      HeldInode(Abs(), i);
      if !m.file {
        InodeClose(i, m);
        return false;
      }
      AttachFileKeeps(Table(MapOf(open), files), inodes, slots, h, i);
      files := files[h := File(i, 0, false)];
      return true;
    }

    /** The part of dir_remove() that erases an entry and marks its inode, which is open. */
    method EraseName(k: nat, b: seq<int>, i: nat)
      requires Ready() && k < |slots| && slots[k].inUse && slots[k].sector == i && Holding(Abs(), i)
      requires b == RootBytes(SpaceOf())[ENTRY * k..ENTRY * (k + 1)] && Decode(b) == slots[k]
      modifies this`open, this`slots, dev
      ensures Ready() && Holding(Abs(), i) && Abs() == Erase(old(Abs()), k)
    {
      ghost var s := Abs();
      EraseEntryKeeps(s, k);
      WithEntryKeeps(s.space, k, ErasedEntry(s.space, k));
      EraseInRoot(dev, rootInode, k, b, s.space);
      slots := slots[k := slots[k].(inUse := false)];
      var inode := InodeOf(i);
      SetInode(i, inode.(removed := true));
    }

    /** dir_remove() of entry `k`, whose inode it has opened. */
    method EraseAndClose(k: nat, b: seq<int>, i: nat, m: Mem)
      requires Ready() && k < |slots| && slots[k].inUse && slots[k].sector == i && Holding(Abs(), i)
      requires b == RootBytes(SpaceOf())[ENTRY * k..ENTRY * (k + 1)] && Decode(b) == slots[k]
      modifies this`open, this`inodes, this`slots, this`owner, dev, freeMap.words
      ensures Valid() && Abs() == RemoveOpened(old(Abs()), k, m)
    {
      RemoveOpenedKeeps(Abs(), k, m);
      if m.dir.write {
        EraseName(k, b, i);
      }
      InodeClose(i, m);
    }

    /** filesys_remove(). */
    method FilesysRemove(name: seq<int>, m: Mem) returns (ok: bool)
      requires Valid()
      modifies this`open, this`inodes, this`slots, this`owner, dev, freeMap.words
      ensures Valid() && Abs() == Remove(old(Abs()), name, m) && ok == Removed(old(Abs()), name, m)
    {
      ghost var s := Abs();
      if !m.root {
        return false;
      }
      var k, b := LookupName(name, m.dir);
      if k >= rootInode.length / ENTRY {
        return false;
      }
      NamedInode(s, k);
      OpenNamedKeeps(s, k);
      var i := Decode(b).sector;
      var got := InodeOpen(i, m.inode);
      if !got {
        return false;
      }
      EraseAndClose(k, b, i, m);
      return m.dir.write;
    }

    /** file_close(). */
    method FileClose(h: int, m: Mem)
      requires Valid() && h in files
      modifies this`open, this`files, this`inodes, this`owner, dev, freeMap.words
      ensures Valid() && Abs() == CloseFile(old(Abs()), h, m)
    {
      ghost var s := Abs();
      FileInode(s, h);
      DetachFileKeeps(s.table, s.space.inodes, s.space.slots, h);
      var f := files[h];
      var inode := InodeOf(f.sector);
      SetInode(f.sector, inode.(deny := inode.deny - if f.deny then 1 else 0));
      files := files - {h};
      InodeClose(f.sector, m);
    }

    /** file_read(): the bytes from the file's position on. */
    method FileRead(h: int, size: int, memory: bool) returns (buffer: seq<int>)
      requires Valid() && h in files
      modifies this`files
      ensures Valid() && Abs() == ReadFile(old(Abs()), h, size, memory)
      ensures buffer == BytesRead(old(Abs()), h, size, memory)
    {
      ghost var s := Abs();
      FileInode(s, h);
      ReadFileKeeps(s, h, size, memory);
      var f := files[h];
      var inode := InodeOf(f.sector);
      var n := inode.inode;
      buffer := ReadAt(dev, n.start, n.length, size, f.pos, memory);
      files := files[h := f.(pos := f.pos + |buffer|)];
    }

    /** file_write(): how many bytes were written. */
    method FileWrite(h: int, data: seq<int>, memory: bool) returns (n: int)
      requires Valid() && h in files
      modifies this`files, dev
      ensures Valid() && Abs() == WriteFile(old(Abs()), h, data, memory) && n == Written(old(Abs()), h, |data|, memory)
    {
      ghost var s := Abs();
      FileInode(s, h);
      WriteFileKeeps(s, h, data, memory);
      var f := files[h];
      var inode := InodeOf(f.sector);
      n := WriteToInode(dev, inode, data, f.pos, memory);
      files := files[h := f.(pos := f.pos + n)];
    }
  }
}

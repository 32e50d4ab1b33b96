/** filesys/filesys.c and filesys/file.c: what each call does, from every state that keeps the invariant. */
module FileEffects {
  import opened Arithmetic
  import opened InodeIO
  import opened Directory
  import opened FileSpace
  import opened OpenFiles
  import opened FileSys
  import opened FileContents

  // ---- filesys_open() ------------------------------------------------------------------------

  /** Entry `k` has the name and is among the first `n`, which can be read. */
  ghost predicate HasEntry(slots: seq<Entry>, name: seq<int>, n: nat, k: int) {
    0 <= k < |slots| && k < n && slots[k].inUse && slots[k].name == name
  }

  lemma EntryIsFound(s: State, name: seq<int>, n: nat, k: int)
    requires Inv(s)
    ensures HasEntry(s.space.slots, name, n, k) <==> k == FoundAt(s.space.slots, name, n) && k < |s.space.slots|
  {
    var slots := s.space.slots;
    if HasEntry(slots, name, n, k) {
      var j := Find(slots, name, 0);
      assert Named(slots[k], name);
      if j != k {
        DistinctNames(s.table, s.space.inodes, slots, k, j);
      }
    }
  }

  /** filesys_open() can succeed: the root directory can be opened and the name read in it, and there is memory for the
      inode, unless it is open, and for the file. */
  ghost predicate CanOpen(s: State, name: seq<int>, m: Mem, k: int) {
    && m.root && m.file && HasEntry(s.space.slots, name, m.dir.lookup, k)
    && (s.space.slots[k].sector in s.table.open || m.inode)
  }

  /** The count of an inode's openers. */
  ghost function Openers(t: Table, i: int): int {
    if i in t.open then t.open[i].cnt else 0
  }

  /** filesys_open() gives a handle exactly if it can: one for the inode that the entry with that name has, at position
      0 and not denying writes. The inode has one more opener, and nothing else changes. Otherwise nothing does. */
  lemma OpenGivesHandle(s: State, name: seq<int>, h: int, m: Mem, k: int)
    requires Inv(s) && h !in s.table.files
    ensures var s' := OpenFile(s, name, h, m);
            && (h in s'.table.files <==> exists j :: CanOpen(s, name, m, j))
            && (CanOpen(s, name, m, k) ==>
                  var i := s.space.slots[k].sector;
                  && s'.space == s.space && s'.table.files == s.table.files[h := File(i, 0, false)]
                  && i in s'.table.open && s'.table.open[i].cnt == Openers(s.table, i) + 1
                  && s'.table.open == s.table.open[i := s'.table.open[i]])
            && (!(exists j :: CanOpen(s, name, m, j)) ==> s' == s)
  {
    var k0 := LookupRoot(s.space, name, m.dir);
    forall j
      ensures HasEntry(s.space.slots, name, m.dir.lookup, j) <==> j == k0 && j < |s.space.slots|
    {
      EntryIsFound(s, name, m.dir.lookup, j);
    }
    if k0 < |s.space.slots| {
      assert CanOpen(s, name, m, k0) <==> m.root && m.file && (s.space.slots[k0].sector in s.table.open || m.inode);
      OpenAndCloseIsNothing(s, k0, m);
    }
  }

  /** Opening an inode and closing it again. */
  lemma OpenAndCloseIsNothing(s: State, k: int, m: Mem)
    requires Inv(s) && 0 <= k < |s.space.slots| && s.space.slots[k].inUse
    ensures var i := s.space.slots[k].sector;
            && Holding(OpenNamed(s, k), i) && 0 <= i < |s.space.used|
            && (var n := OpenNamed(s, k).table.open[i].inode;
                0 <= n.start && 0 <= n.length && n.start + Sectors(n.length) <= |s.space.used|)
            && CloseInode(OpenNamed(s, k), i, m) == s
  {
    var i, s1 := s.space.slots[k].sector, OpenNamed(s, k);
    OpenNamedKeeps(s, k);
    CloseInodeKeeps(s1, i, m);
    HeldInode(s1, i);
    At(s.table, s.space.inodes, s.space.slots, -1, -1, i);
    assert NamesSector(s.space.slots, i);
    assert DropInode(s1.table, i).open == s.table.open;
  }

  // ---- Reading what was opened ---------------------------------------------------------------

  /** The file that entry `k` names. */
  ghost function FileNamed(s: State, k: int): seq<int>
    requires Inv(s) && 0 <= k < |s.space.slots| && s.space.slots[k].inUse
  {
    NamedInode(s, k);
    AtInode(s.space, s.space.slots[k].sector);
    var n := s.space.inodes[s.space.slots[k].sector];
    FileBytes(s.space.bytes, n.start, n.length)
  }

  /** The first `n` of a file's bytes, or all if there are fewer. */
  ghost function FirstBytes(file: seq<int>, n: nat): seq<int> {
    if n < |file| then file[..n] else file
  }

  /** A file just opened is read from its start. */
  lemma OpenThenRead(s: State, name: seq<int>, h: int, m: Mem, k: int, n: nat)
    requires Inv(s) && h !in s.table.files && CanOpen(s, name, m, k)
    ensures var s' := OpenFile(s, name, h, m);
            && Inv(s') && h in s'.table.files && Contents(s', h) == FileNamed(s, k)
            && BytesRead(s', h, n, true) == FirstBytes(FileNamed(s, k), n)
  {
    OpenGivesHandle(s, name, h, m, k);
    OpenFileKeeps(s, name, h, m);
    var s' := OpenFile(s, name, h, m);
    FileInode(s', h);
    assert Contents(s', h) == FileNamed(s, k);
  }

  /** file_read() moves the file's position by as many bytes as it gives, and changes nothing else. With memory for the
      bounce buffer it gives all there are from the position on, up to the size asked for; without, only whole sectors,
      and none from within one. */
  lemma ReadAdvances(s: State, h: int, size: int, memory: bool)
    requires Inv(s) && h in s.table.files
    ensures var s', f, c := ReadFile(s, h, size, memory), s.table.files[h], Contents(s, h);
            var b := BytesRead(s, h, size, memory);
            && s'.space == s.space && s'.table.open == s.table.open
            && s'.table.files == s.table.files[h := f.(pos := f.pos + |b|)]
            && (b != [] ==> 0 <= f.pos && f.pos + |b| <= |c| && b == c[f.pos..f.pos + |b|])
            && (memory ==> |b| == if size <= 0 || f.pos >= |c| then 0
                                  else if size < |c| - f.pos then size else |c| - f.pos)
            && (!memory && f.pos % SECTOR != 0 ==> b == [])
            && (!memory && f.pos % SECTOR == 0 ==>
                  |b| % SECTOR == 0 && |b| <= |BytesRead(s, h, size, true)| < |b| + SECTOR)
  {
    FileInode(s, h);
  }

  /** The bytes of two reads are those of one. */
  lemma ReadsJoin(s: State, h: int, n1: nat, n2: nat)
    requires Inv(s) && h in s.table.files
    ensures var s' := ReadFile(s, h, n1, true);
            && Inv(s') && h in s'.table.files
            && BytesRead(s, h, n1, true) + BytesRead(s', h, n2, true) == BytesRead(s, h, n1 + n2, true)
  {
    FileInode(s, h);
    ReadFileKeeps(s, h, n1, true);
    var s' := ReadFile(s, h, n1, true);
    FileInode(s', h);
    assert Contents(s', h) == Contents(s, h);
  }

  /** What is written to a file is read from its start by whoever opens the name afterwards. */
  lemma WriteThenOpen(s: State, name: seq<int>, h: int, m: Mem, k: int, data: seq<int>, h': int, m': Mem)
    requires Inv(s) && h !in s.table.files && CanOpen(s, name, m, k) && h' !in s.table.files && h' != h
    requires m'.root && m'.file && k < m'.dir.lookup && |data| <= |FileNamed(s, k)|
    requires s.space.slots[k].sector in s.table.open ==> s.table.open[s.space.slots[k].sector].deny == 0
    ensures var s1 := OpenFile(s, name, h, m);
            && Inv(s1) && h in s1.table.files
            && (var s2 := WriteFile(s1, h, data, true);
                && Inv(s2) && h' !in s2.table.files
                && (var s3 := OpenFile(s2, name, h', m');
                    Inv(s3) && h' in s3.table.files && BytesRead(s3, h', |data|, true) == data))
  {
    OpenThenRead(s, name, h, m, k, 0);
    OpenGivesHandle(s, name, h, m, k);
    var s1 := OpenFile(s, name, h, m);
    NotDenied(s, name, h, m, k);
    WriteToNamed(s1, h, data, k);
    OpenThenRead(WriteFile(s1, h, data, true), name, h', m', k, |data|);
  }

  /** Writing all of `data` at the start of the file that entry `k` names. */
  lemma WriteToNamed(s: State, h: int, data: seq<int>, k: int)
    requires Inv(s) && h in s.table.files && 0 <= k < |s.space.slots| && s.space.slots[k].inUse
    requires s.table.files[h] == File(s.space.slots[k].sector, 0, false) && |data| <= |FileNamed(s, k)|
    requires s.table.files[h].sector in s.table.open && s.table.open[s.table.files[h].sector].deny == 0
    ensures var s' := WriteFile(s, h, data, true);
            && Inv(s') && s'.space.slots == s.space.slots && s'.table.files.Keys == s.table.files.Keys
            && s'.table.open == s.table.open && |FileNamed(s', k)| == |FileNamed(s, k)|
            && FileNamed(s', k) == data + FileNamed(s, k)[|data|..]
  {
    FileInode(s, h);
    WriteIsExact(s, h, data, true);
    var s' := WriteFile(s, h, data, true);
    assert FileNamed(s, k) == Contents(s, h);
    assert FileNamed(s', k) == Contents(s', h);
    assert data[..|data|] == data;
  }

  /** Opening does not deny writes. */
  lemma NotDenied(s: State, name: seq<int>, h: int, m: Mem, k: int)
    requires Inv(s) && h !in s.table.files && CanOpen(s, name, m, k)
    ensures var s', i := OpenFile(s, name, h, m), s.space.slots[k].sector;
            i in s'.table.open && s'.table.open[i].deny == if i in s.table.open then s.table.open[i].deny else 0
  {
    EntryIsFound(s, name, m.dir.lookup, k);
    OpenGivesHandle(s, name, h, m, k);
  }

  // ---- file_seek(), file_deny_write(), file_allow_write() and file_close() -------------------

  /** Only file `h` may differ. */
  ghost predicate OthersSame(s: State, s': State, h: int) {
    forall g :: g != h ==> (g in s'.table.files <==> g in s.table.files)
                           && (g in s.table.files ==> s'.table.files[g] == s.table.files[g])
  }

  /** Only inode `i` may differ. */
  ghost predicate OtherInodesSame(s: State, s': State, i: int) {
    forall j :: j != i ==> (j in s'.table.open <==> j in s.table.open)
                           && (j in s.table.open ==> s'.table.open[j] == s.table.open[j])
  }

  lemma SeekSets(s: State, h: int, pos: int, m: Mem)
    requires Inv(s) && h in s.table.files && pos >= 0
    ensures var s', f := Next(s, SeekStep(h, pos), m), s.table.files[h];
            && s'.space == s.space && s'.table.open == s.table.open && OthersSame(s, s', h)
            && h in s'.table.files && s'.table.files[h] == f.(pos := pos)
  {
  }

  /** The file denies writes exactly if it was last told to, however often, and the inode counts it once. Then nobody
      can write to it. */
  lemma DenySets(s: State, h: int, deny: bool, m: Mem)
    requires Inv(s) && h in s.table.files
    ensures var s', f := Next(s, DenyStep(h, deny), m), s.table.files[h];
            && s'.space == s.space && OthersSame(s, s', h) && OtherInodesSame(s, s', f.sector)
            && h in s'.table.files && s'.table.files[h] == f.(deny := deny)
            && f.sector in s.table.open && f.sector in s'.table.open
            && (var o := s.table.open[f.sector];
                s'.table.open[f.sector] == o.(deny := o.deny - (if f.deny then 1 else 0) + if deny then 1 else 0))
    ensures Inv(Next(s, DenyStep(h, deny), m))
    ensures deny ==> forall g, size: nat, memory ::
                       g in s.table.files && s.table.files[g].sector == s.table.files[h].sector ==>
                         Written(Next(s, DenyStep(h, deny), m), g, size, memory) == 0
  {
    FileInode(s, h);
    NextKeepsInv(s, DenyStep(h, deny), m);
    var s', f := Next(s, DenyStep(h, deny), m), s.table.files[h];
    if deny {
      Denies(s', h);
    }
  }

  /** While a file denies writes its inode counts somebody who does. */
  lemma Denies(s: State, h: int)
    requires Inv(s) && h in s.table.files && s.table.files[h].deny
    ensures s.table.files[h].sector in s.table.open && s.table.open[s.table.files[h].sector].deny > 0
  {
    FileInode(s, h);
    var i := s.table.files[h].sector;
    At(s.table, s.space.inodes, s.space.slots, -1, -1, i);
    assert h in DeniersOf(s.table.files, i);
  }

  /** file_close() ends the handle. Its inode has one opener less and no longer counts its denial; after the last it is
      not open. */
  lemma CloseEnds(s: State, h: int, m: Mem)
    requires Inv(s) && h in s.table.files
    ensures var s', f := CloseFile(s, h, m), s.table.files[h];
            && h !in s'.table.files && OthersSame(s, s', h) && OtherInodesSame(s, s', f.sector)
            && f.sector in s.table.open && s'.space.slots == s.space.slots
            && (var o := s.table.open[f.sector];
                && (f.sector in s'.table.open <==> o.cnt > 1)
                && (o.cnt > 1 ==> s'.table.open[f.sector]
                                  == o.(cnt := o.cnt - 1, deny := o.deny - if f.deny then 1 else 0))
                && (o.cnt > 1 || !o.removed ==> s'.space == s.space))
  {
    FileInode(s, h);
    var s1 := s.(table := DetachFile(s.table, h));
    DetachFileKeeps(s.table, s.space.inodes, s.space.slots, h);
    CloseInodeKeeps(s1, s.table.files[h].sector, m);
    At(s.table, s.space.inodes, s.space.slots, -1, -1, s.table.files[h].sector);
  }

  /** Opening a file and closing it. */
  lemma OpenThenClose(s: State, name: seq<int>, h: int, m: Mem, k: int, m': Mem)
    requires Inv(s) && h !in s.table.files && CanOpen(s, name, m, k)
    ensures var s1 := OpenFile(s, name, h, m);
            Inv(s1) && h in s1.table.files && CloseFile(s1, h, m') == s
  {
    OpenGivesHandle(s, name, h, m, k);
    OpenFileKeeps(s, name, h, m);
    EntryIsFound(s, name, m.dir.lookup, k);
    var s1, i := OpenFile(s, name, h, m), s.space.slots[k].sector;
    OpenNamedKeeps(s, k);
    OpenAndCloseIsNothing(s, k, m');
    assert DetachFile(s1.table, h).files == s.table.files;
    assert DetachFile(s1.table, h).open == OpenNamed(s, k).table.open;
  }

  // ---- filesys_create() and filesys_remove() -------------------------------------------------

  lemma InodeCreateZeros(p: Space, i: int, length: int, memory: bool)
    requires SpaceOk(p) && Unowned(p.owner, i, 1) && 0 <= i < |p.used| && i !in p.inodes && 0 <= length < W
    requires InodeCreate(p, i, length, true, memory).1
    ensures var p' := InodeCreate(p, i, length, true, memory).0;
            && i in p'.inodes && p'.inodes[i].length == length && Fits(p'.bytes, p'.inodes[i].start, length)
            && FileBytes(p'.bytes, p'.inodes[i].start, length) == Zeros(length)
  {
    var a := FreeMapAllocate(p, Sectors(length), memory);
    AllocateKeeps(p, Sectors(length), memory);
    StillUnowned(p, i, a.1.value, Sectors(length));
    var n := Inode(a.1.value, length);
    AdoptKeeps(a.0, i, n);
    AtInode(Adopt(a.0, i, n), i);
    CreatedIsZero(a.0.bytes, i, n);
  }

  /** When filesys_create() succeeds, the new inode holds zeros, as many as asked for. */
  lemma CreatedFile(p: Space, name: seq<int>, size: int, m: Mem) returns (i: int)
    requires SpaceOk(p) && 0 <= size < W && 0 !in name && GetsInode(p, size, m) && !Refused(p.slots, name, m.dir)
    ensures i !in p.inodes
    ensures var p' := Create(p, name, size, m).0;
            && p'.slots == Added(p.slots, name, i, m.dir) && i in p'.inodes && p'.inodes[i].length == size
            && Fits(p'.bytes, p'.inodes[i].start, size)
            && FileBytes(p'.bytes, p'.inodes[i].start, size) == Zeros(size)
  {
    var a := FreeMapAllocate(p, 1, m.map1);
    AllocateKeeps(p, 1, m.map1);
    FirstAllocated(p, m.map1);
    i := a.1.value;
    AtInode(p, ROOT_DIR_SECTOR);
    AtInode(p, FREE_MAP_SECTOR);
    var c := InodeCreate(a.0, i, size, m.inode, m.map2);
    InodeCreateKeeps(a.0, i, size, m.inode, m.map2);
    InodeCreateZeros(a.0, i, size, m.map2);
    AddEntryKeeps(c.0, name, i, m.dir);
    ElsewhereKeeps(c.0, AddEntry(c.0, name, i, m.dir).0, ROOT_DIR_SECTOR, i);
  }

  /** A file just created can be opened by its name, and holds zeros. */
  lemma CreateThenOpen(s: State, name: seq<int>, size: int, m: Mem, h: int, m': Mem, n: nat)
    requires Inv(s) && 0 <= size < W && 0 !in name && h !in s.table.files
    requires Create(s.space, name, size, m).1 && SafeToAdd(s.space.slots, name, m.dir)
    requires m'.root && m'.inode && m'.file && m'.dir.lookup >= |s.space.slots|
    ensures var s1 := Next(s, CreateStep(name, size), m);
            && Inv(s1) && s1.table == s.table
            && (var s2 := OpenFile(s1, name, h, m');
                && Inv(s2) && h in s2.table.files && Contents(s2, h) == Zeros(size)
                && BytesRead(s2, h, n, true) == Zeros(if n < size then n else size))
  {
    CreateSucceeds(s.space, name, size, m);
    CreateKeeps(s, name, size, m);
    var i := CreatedFile(s.space, name, size, m);
    var s1, k := Next(s, CreateStep(name, size), m), Place(s.space.slots, m.dir.search);
    assert s1.space.slots[k] == Entry(i, name, true);
    assert CanOpen(s1, name, m', k);
    OpenThenRead(s1, name, h, m', k, n);
  }

  /** filesys_remove() that returns true frees the entry with that name and no other, and leaves every handle as it
      is. */
  lemma RemoveErases(s: State, name: seq<int>, m: Mem, k: int)
    requires Inv(s) && HasEntry(s.space.slots, name, m.dir.lookup, k) && Removed(s, name, m)
    ensures var s', slots := Remove(s, name, m), s.space.slots;
            s'.table.files == s.table.files && s'.space.slots == slots[k := slots[k].(inUse := false)]
  {
    EntryIsFound(s, name, m.dir.lookup, k);
    OpenNamedKeeps(s, k);
    RemoveOpenedSlots(OpenNamed(s, k), k, m);
    EraseEntryKeeps(OpenNamed(s, k), k);
  }
}

/** filesys/inode.c and filesys/free-map.c: who owns which sector of the device. */
module FileSpace {
  import opened Basics
  import opened Arithmetic
  import opened Bytes
  import opened Bits
  import opened Bitmap
  import opened InodeIO
  import opened Directory

  const FREE_MAP_SECTOR: int := 0
  const ROOT_DIR_SECTOR: int := 1
  const BYTE_BITS: int := ELEM_BITS / 4
  const INODE_MAGIC: int := 0x494e_4f44

  /** An inode as it is on disk: its extent's first sector and the file's length in bytes. */
  datatype Inode = Inode(start: int, length: int)

  /** The device and the free map; and as history, the inodes that are live, the entries of the root directory, and
      the owner of every used sector, which is an inode's own sector number, or -1 if nobody owns it. */
  datatype Space = Space(bytes: seq<int>, used: seq<bool>, inodes: map<int, Inode>, slots: seq<Entry>,
                         owner: map<int, int>)

  predicate InExtent(n: Inode, x: int) {
    n.start <= x < n.start + Sectors(n.length)
  }

  function InodeAt(bytes: seq<int>, i: int): Inode
    requires 0 <= i && SECTOR * (i + 1) <= |bytes|
  {
    Inode(WordAt(bytes, SECTOR * i), WordAt(bytes, SECTOR * i + 4))
  }

  // ---- The invariant -------------------------------------------------------------------------

  ghost predicate OwnsExtent(owner: map<int, int>, n: Inode, i: int) {
    forall x {:trigger Look(x)} :: InExtent(n, x) ==> x in owner && owner[x] == i && x != i
  }

  /** Inode `i` owns its sector and all sectors of its extent. */
  ghost predicate InodeOwns(used: seq<bool>, owner: map<int, int>, n: Inode, i: int) {
    && 0 <= i < |used| && i in owner && owner[i] == i
    && 0 <= n.start && 0 <= n.length && n.start + Sectors(n.length) <= |used|
    && OwnsExtent(owner, n, i)
  }

  /** The free map marks sector `x` exactly if it has an owner, whose it then is. */
  ghost predicate SectorOk(used: seq<bool>, inodes: map<int, Inode>, owner: map<int, int>, x: int) {
    && (0 <= x < |used| && used[x] <==> x in owner)
    && (x in owner && owner[x] != -1 ==> owner[x] in inodes && (x == owner[x] || InExtent(inodes[owner[x]], x)))
  }

  ghost predicate AllOwned(used: seq<bool>, inodes: map<int, Inode>, owner: map<int, int>) {
    && (forall i {:trigger Look(i)} :: i in inodes ==> InodeOwns(used, owner, inodes[i], i))
    && (forall x {:trigger Look(x)} :: SectorOk(used, inodes, owner, x))
  }

  /** Every live inode is in its sector on disk. */
  ghost predicate AllOnDisk(bytes: seq<int>, inodes: map<int, Inode>) {
    forall i {:trigger Look(i)} :: i in inodes ==>
      0 <= i && SECTOR * (i + 1) <= |bytes| && InodeAt(bytes, i) == inodes[i]
  }

  /** The root directory's entries are what its file holds. */
  ghost predicate RootOk(bytes: seq<int>, inodes: map<int, Inode>, slots: seq<Entry>) {
    && FREE_MAP_SECTOR in inodes && ROOT_DIR_SECTOR in inodes
    && var n := inodes[ROOT_DIR_SECTOR];
       Fits(bytes, n.start, n.length) && n.length % ENTRY == 0 && Slots(FileBytes(bytes, n.start, n.length)) == slots
  }

  ghost predicate SpaceOk(p: Space) {
    && |p.bytes| == SECTOR * |p.used| && |p.used| < W
    && RootOk(p.bytes, p.inodes, p.slots)
    && AllOwned(p.used, p.inodes, p.owner)
    && AllOnDisk(p.bytes, p.inodes)
  }

  lemma AtInode(p: Space, i: int)
    requires SpaceOk(p) && i in p.inodes
    ensures InodeOwns(p.used, p.owner, p.inodes[i], i) && InodeAt(p.bytes, i) == p.inodes[i]
    ensures Fits(p.bytes, p.inodes[i].start, p.inodes[i].length)
  {
    assert Look(i);
  }

  lemma AtSector(p: Space, x: int)
    requires SpaceOk(p)
    ensures SectorOk(p.used, p.inodes, p.owner, x)
  {
    assert Look(x);
  }

  /** Two live inodes have no sector in common. */
  lemma InodesApart(p: Space, i: int, j: int, x: int)
    requires SpaceOk(p) && i in p.inodes && j in p.inodes && i != j
    ensures !(InExtent(p.inodes[i], x) && InExtent(p.inodes[j], x)) && !InExtent(p.inodes[i], j)
    ensures !InExtent(p.inodes[j], i)
  {
    AtInode(p, i);
    AtInode(p, j);
    assert Look(x) && Look(i) && Look(j);
  }

  // ---- Writing inside an extent --------------------------------------------------------------

  function Patch(s: seq<int>, at: int, data: seq<int>): (r: seq<int>)
    ensures |r| == |s| && Put(s, r, at, data)
  {
    seq(|s|, i requires 0 <= i < |s| => if at <= i < at + |data| then data[i - at] else s[i])
  }

  /** Only bytes of `n`'s extent differ. */
  ghost predicate OnlyIn(bytes: seq<int>, bytes': seq<int>, n: Inode) {
    && |bytes'| == |bytes|
    && forall b {:trigger bytes'[b]} ::
         0 <= b < |bytes| && !(SECTOR * n.start <= b < SECTOR * (n.start + Sectors(n.length))) ==> bytes'[b] == bytes[b]
  }

  lemma PatchOnlyIn(bytes: seq<int>, n: Inode, offset: int, data: seq<int>)
    requires 0 <= offset && offset + |data| <= n.length && 0 <= n.start
    ensures OnlyIn(bytes, Patch(bytes, SECTOR * n.start + offset, data), n)
  {
    assert n.length <= SECTOR * Sectors(n.length);
  }

  /** A file in other sectors is as it was. */
  lemma OthersKept(bytes: seq<int>, bytes': seq<int>, n: Inode, start: int, length: int)
    requires OnlyIn(bytes, bytes', n) && Fits(bytes, start, length)
    requires start + Sectors(length) <= n.start || n.start + Sectors(n.length) <= start || Sectors(length) == 0
    ensures Fits(bytes', start, length) && FileBytes(bytes', start, length) == FileBytes(bytes, start, length)
  {
    assert length <= SECTOR * Sectors(length);
  }

  lemma InodeKept(bytes: seq<int>, bytes': seq<int>, n: Inode, i: int)
    requires OnlyIn(bytes, bytes', n) && 0 <= i && SECTOR * (i + 1) <= |bytes| && !InExtent(n, i)
    ensures InodeAt(bytes', i) == InodeAt(bytes, i)
  {
  }

  /** Extents without a common sector are one after the other. */
  lemma ApartInOrder(p: Space, i: int, j: int)
    requires SpaceOk(p) && i in p.inodes && j in p.inodes && i != j
    ensures var a, b := p.inodes[i], p.inodes[j];
            a.start + Sectors(a.length) <= b.start || b.start + Sectors(b.length) <= a.start
            || Sectors(a.length) == 0 || Sectors(b.length) == 0
  {
    var a, b := p.inodes[i], p.inodes[j];
    AtInode(p, i);
    AtInode(p, j);
    InodesApart(p, i, j, a.start);
    InodesApart(p, i, j, b.start);
  }

  /** Every other live file's bytes are as they were. */
  lemma OtherFilesKept(p: Space, bytes': seq<int>, j: int, i: int)
    requires SpaceOk(p) && j in p.inodes && i in p.inodes && i != j && OnlyIn(p.bytes, bytes', p.inodes[j])
    ensures Fits(p.bytes, p.inodes[i].start, p.inodes[i].length) && Fits(bytes', p.inodes[i].start, p.inodes[i].length)
    ensures FileBytes(bytes', p.inodes[i].start, p.inodes[i].length)
            == FileBytes(p.bytes, p.inodes[i].start, p.inodes[i].length)
  {
    AtInode(p, i);
    AtInode(p, j);
    ApartInOrder(p, i, j);
    if Sectors(p.inodes[j].length) == 0 {
      assert bytes' == p.bytes;
    } else {
      OthersKept(p.bytes, bytes', p.inodes[j], p.inodes[i].start, p.inodes[i].length);
    }
  }

  /** Writing inside one file's extent keeps the invariant, except that the root directory then has the entries
      `slots`. */
  lemma FrameKeeps(p: Space, j: int, bytes': seq<int>, slots: seq<Entry>)
    requires SpaceOk(p) && j in p.inodes && OnlyIn(p.bytes, bytes', p.inodes[j])
    requires Fits(bytes', p.inodes[ROOT_DIR_SECTOR].start, p.inodes[ROOT_DIR_SECTOR].length)
    requires Slots(FileBytes(bytes', p.inodes[ROOT_DIR_SECTOR].start, p.inodes[ROOT_DIR_SECTOR].length)) == slots
    ensures SpaceOk(p.(bytes := bytes', slots := slots))
  {
    AtInode(p, j);
    forall i | i in p.inodes
      ensures 0 <= i && SECTOR * (i + 1) <= |bytes'| && InodeAt(bytes', i) == p.inodes[i]
    {
      AtInode(p, i);
      assert Look(i);
      InodeKept(p.bytes, bytes', p.inodes[j], i);
    }
  }

  /** A file other than the root directory. */
  lemma FileFrameKeeps(p: Space, j: int, bytes': seq<int>)
    requires SpaceOk(p) && j in p.inodes && j != ROOT_DIR_SECTOR && OnlyIn(p.bytes, bytes', p.inodes[j])
    ensures SpaceOk(p.(bytes := bytes'))
  {
    OtherFilesKept(p, bytes', j, ROOT_DIR_SECTOR);
    FrameKeeps(p, j, bytes', p.slots);
  }

  // ---- Allocating and releasing sectors ------------------------------------------------------

  function Nobody(start: int, cnt: int): (r: map<int, int>)
    ensures forall x :: x in r <==> start <= x < start + cnt
    ensures forall x :: x in r ==> r[x] == -1
  {
    if cnt <= 0 then map[] else Nobody(start, cnt - 1)[start + cnt - 1 := -1]
  }

  /** Mark sectors used; nobody owns them yet. */
  function Alloc(p: Space, start: int, cnt: int): Space
    requires 0 <= start && 0 <= cnt && start + cnt <= |p.used|
  {
    p.(used := Filled(p.used, start, cnt, true), owner := p.owner + Nobody(start, cnt))
  }

  /** Mark sectors free that nobody owns. */
  function Unalloc(p: Space, start: int, cnt: int): Space
    requires 0 <= start && 0 <= cnt && start + cnt <= |p.used|
  {
    p.(used := Filled(p.used, start, cnt, false), owner := p.owner - Nobody(start, cnt).Keys)
  }

  /** Sectors from `start` on that are used and that nobody owns. */
  ghost predicate Unowned(owner: map<int, int>, start: int, cnt: int) {
    forall x {:trigger Look(x)} :: start <= x < start + cnt ==> x in owner && owner[x] == -1
  }

  lemma AllocKeeps(p: Space, start: int, cnt: int)
    requires SpaceOk(p) && 0 <= start && 0 <= cnt && start + cnt <= |p.used| && Uniform(p.used, start, cnt, false)
    ensures SpaceOk(Alloc(p, start, cnt)) && Unowned(Alloc(p, start, cnt).owner, start, cnt)
  {
    var p' := Alloc(p, start, cnt);
    forall x
      ensures SectorOk(p'.used, p'.inodes, p'.owner, x)
    {
      AtSector(p, x);
    }
    forall i | i in p.inodes
      ensures InodeOwns(p'.used, p'.owner, p.inodes[i], i)
    {
      AllocKeepsInode(p, start, cnt, i);
    }
  }

  lemma AllocKeepsInode(p: Space, start: int, cnt: int, i: int)
    requires SpaceOk(p) && 0 <= start && 0 <= cnt && start + cnt <= |p.used| && Uniform(p.used, start, cnt, false)
    requires i in p.inodes
    ensures InodeOwns(Alloc(p, start, cnt).used, Alloc(p, start, cnt).owner, p.inodes[i], i)
  {
    AtInode(p, i);
    AtSector(p, i);
    forall x | InExtent(p.inodes[i], x)
      ensures x in p.owner && p.owner[x] == i && x != i && !(start <= x < start + cnt)
    {
      AtSector(p, x);
      assert Look(x);
    }
  }

  lemma UnallocKeeps(p: Space, start: int, cnt: int)
    requires SpaceOk(p) && 0 <= start && 0 <= cnt && start + cnt <= |p.used| && Unowned(p.owner, start, cnt)
    ensures SpaceOk(Unalloc(p, start, cnt))
  {
    var p' := Unalloc(p, start, cnt);
    forall x
      ensures SectorOk(p'.used, p'.inodes, p'.owner, x)
    {
      AtSector(p, x);
    }
    forall i | i in p.inodes
      ensures InodeOwns(p'.used, p'.owner, p.inodes[i], i)
    {
      UnallocKeepsInode(p, start, cnt, i);
    }
  }

  lemma UnallocKeepsInode(p: Space, start: int, cnt: int, i: int)
    requires SpaceOk(p) && 0 <= start && 0 <= cnt && start + cnt <= |p.used| && Unowned(p.owner, start, cnt)
    requires i in p.inodes
    ensures InodeOwns(Unalloc(p, start, cnt).used, Unalloc(p, start, cnt).owner, p.inodes[i], i)
  {
    AtInode(p, i);
    assert Look(i);
    forall x | InExtent(p.inodes[i], x)
      ensures x in p.owner && p.owner[x] == i && x != i && !(start <= x < start + cnt)
    {
      assert Look(x);
    }
  }

  // ---- The free map file ---------------------------------------------------------------------

  /** The number whose bits are `k` bits of the map from `i` on. */
  function Packed(used: seq<bool>, i: int, k: int): nat
    decreases k
  {
    if k <= 0 then 0 else (if 0 <= i < |used| && used[i] then 1 else 0) + 2 * Packed(used, i + 1, k - 1)
  }

  lemma {:induction false} PackedBit(used: seq<bool>, i: int, k: int, j: nat)
    requires j < k
    ensures Bit(Packed(used, i, k), j) <==> 0 <= i + j < |used| && used[i + j]
    decreases k
  {
    if j > 0 {
      PackedBit(used, i + 1, k - 1, j - 1);
    }
  }

  /** The free map as bitmap_write() writes it. */
  function MapBytes(used: seq<bool>): (r: seq<nat>)
    ensures |r| == 4 * ElemCnt(|used|)
  {
    seq(4 * ElemCnt(|used|), j requires 0 <= j < 4 * ElemCnt(|used|) => Packed(used, 8 * j, BYTE_BITS))
  }

  /** Reading the free map file gives back the free map that was written: sector `8 * j + k` is bit `k` of byte `j`. */
  lemma MapReadsBack(used: seq<bool>, j: nat, k: nat)
    requires k < 8 && 8 * j + k < |used|
    ensures j < |MapBytes(used)| && (Bit(MapBytes(used)[j], k) <==> used[8 * j + k])
  {
    var words := ElemCnt(|used|);
    assert |used| <= ELEM_BITS * words;
    PackedBit(used, 8 * j, BYTE_BITS, k);
  }

  /** A free map of `n` sectors can be written: with memory for the bounce buffer, or if the map fills whole sectors,
      which need none. */
  predicate CanSave(n: nat, memory: bool) {
    memory || 4 * ElemCnt(n) % SECTOR == 0
  }

  /** How much of the free map bitmap_write() writes. */
  function MapReach(p: Space, memory: bool): (n: int)
    requires FREE_MAP_SECTOR in p.inodes
    ensures 0 <= n <= |MapBytes(p.used)|
  {
    Reach(|MapBytes(p.used)|, 0, p.inodes[FREE_MAP_SECTOR].length, memory)
  }

  /** bitmap_write() of the free map to its file. */
  function SaveMap(p: Space, memory: bool): Space
    requires FREE_MAP_SECTOR in p.inodes
  {
    p.(bytes := Patch(p.bytes, SECTOR * p.inodes[FREE_MAP_SECTOR].start, MapBytes(p.used)[..MapReach(p, memory)]))
  }

  predicate MapSaved(p: Space, memory: bool)
    requires FREE_MAP_SECTOR in p.inodes
  {
    MapReach(p, memory) == |MapBytes(p.used)|
  }

  lemma SaveMapWrites(p: Space, memory: bool)
    requires SpaceOk(p)
    ensures OnlyIn(p.bytes, SaveMap(p, memory).bytes, p.inodes[FREE_MAP_SECTOR])
  {
    AtInode(p, FREE_MAP_SECTOR);
    PatchOnlyIn(p.bytes, p.inodes[FREE_MAP_SECTOR], 0, MapBytes(p.used)[..MapReach(p, memory)]);
  }

  lemma SaveMapKeeps(p: Space, memory: bool)
    requires SpaceOk(p)
    ensures SpaceOk(SaveMap(p, memory))
  {
    SaveMapWrites(p, memory);
    FileFrameKeeps(p, FREE_MAP_SECTOR, SaveMap(p, memory).bytes);
  }

  // ---- Inodes come and go --------------------------------------------------------------------

  function Zeros(n: int): (r: seq<int>)
    requires n >= 0
    ensures |r| == n
  {
    seq(n, i => 0)
  }

  /** struct inode_disk. */
  function InodeBytes(n: Inode): (r: seq<int>)
    ensures |r| == SECTOR
  {
    Word(n.start) + (Word(n.length) + (Word(INODE_MAGIC) + Zeros(500)))
  }

  /** The rest of inode_create(): the inode is written to its sector and its data are zeroed. */
  function Created(bytes: seq<int>, i: int, n: Inode): (r: seq<int>)
    requires n.length >= 0
    ensures |r| == |bytes|
  {
    Patch(Patch(bytes, SECTOR * i, InodeBytes(n)), SECTOR * n.start, Zeros(SECTOR * Sectors(n.length)))
  }

  function Extended(owner: map<int, int>, i: int, n: Inode): map<int, int> {
    map x | x in owner :: if x == i || InExtent(n, x) then i else owner[x]
  }

  function Adopt(p: Space, i: int, n: Inode): Space
    requires n.length >= 0
  {
    p.(bytes := Created(p.bytes, i, n), inodes := p.inodes[i := n], owner := Extended(p.owner, i, n))
  }

  lemma CreatedInode(bytes: seq<int>, i: int, n: Inode)
    requires 0 <= i && SECTOR * (i + 1) <= |bytes| && 0 <= n.start < W && 0 <= n.length < W && !InExtent(n, i)
    ensures InodeAt(Created(bytes, i, n), i) == n
  {
    var b := InodeBytes(n);
    var bytes1 := Patch(bytes, SECTOR * i, b);
    var bytes2 := Created(bytes, i, n);
    assert bytes2[SECTOR * i..SECTOR * i + 4] == bytes1[SECTOR * i..SECTOR * i + 4] == b[0..4] == Word(n.start);
    WordBack(bytes2, SECTOR * i, n.start);
    assert bytes2[SECTOR * i + 4..SECTOR * i + 8] == bytes1[SECTOR * i + 4..SECTOR * i + 8] == b[4..8]
      == Word(n.length);
    WordBack(bytes2, SECTOR * i + 4, n.length);
  }

  /** Bytes of other sectors are as they were. */
  lemma CreatedOutside(bytes: seq<int>, i: int, n: Inode, b: int)
    requires n.length >= 0 && 0 <= b < |bytes| && b / SECTOR != i && !InExtent(n, b / SECTOR)
    ensures Created(bytes, i, n)[b] == bytes[b]
  {
  }

  lemma CreatedKeepsInode(bytes: seq<int>, i: int, n: Inode, j: int)
    requires n.length >= 0 && 0 <= j && SECTOR * (j + 1) <= |bytes| && j != i && !InExtent(n, j)
    ensures InodeAt(Created(bytes, i, n), j) == InodeAt(bytes, j)
  {
    var bytes' := Created(bytes, i, n);
    forall b | SECTOR * j <= b < SECTOR * j + 8
      ensures bytes'[b] == bytes[b]
    {
      CreatedOutside(bytes, i, n, b);
    }
  }

  /** The extent of `m` has neither sector `i` nor one of `n`'s. */
  ghost predicate ApartFrom(m: Inode, i: int, n: Inode) {
    forall x {:trigger Look(x)} :: InExtent(m, x) ==> x != i && !InExtent(n, x)
  }

  lemma CreatedKeepsFile(bytes: seq<int>, i: int, n: Inode, m: Inode)
    requires n.length >= 0 && Fits(bytes, m.start, m.length) && ApartFrom(m, i, n)
    ensures FileBytes(Created(bytes, i, n), m.start, m.length) == FileBytes(bytes, m.start, m.length)
  {
    var bytes' := Created(bytes, i, n);
    forall b | SECTOR * m.start <= b < SECTOR * m.start + m.length
      ensures bytes'[b] == bytes[b]
    {
      SectorOf(m, b);
      assert Look(b / SECTOR);
      CreatedOutside(bytes, i, n, b);
    }
  }

  lemma SectorOf(m: Inode, b: int)
    requires SECTOR * m.start <= b < SECTOR * m.start + m.length
    ensures InExtent(m, b / SECTOR)
  {
    assert m.length <= SECTOR * Sectors(m.length);
  }

  /** A new file is all zeros. */
  lemma CreatedIsZero(bytes: seq<int>, i: int, n: Inode)
    requires Fits(bytes, n.start, n.length)
    ensures FileBytes(Created(bytes, i, n), n.start, n.length) == Zeros(n.length)
  {
    assert n.length <= SECTOR * Sectors(n.length);
  }

  /** Sectors for a new inode and its extent, which nobody owns yet. */
  ghost predicate Available(p: Space, i: int, n: Inode) {
    && 0 <= i < |p.used| && 0 <= n.start && 0 <= n.length < W && n.start + Sectors(n.length) <= |p.used|
    && !InExtent(n, i)
    && Unowned(p.owner, i, 1) && Unowned(p.owner, n.start, Sectors(n.length))
  }

  /** No live inode is in or has sectors that nobody owns. */
  lemma UnownedApart(p: Space, i: int, n: Inode, j: int)
    requires SpaceOk(p) && Available(p, i, n) && j in p.inodes
    ensures j != i && !InExtent(n, j)
    ensures ApartFrom(p.inodes[j], i, n)
  {
    AtInode(p, j);
    assert Look(j) && Look(i);
    forall x | InExtent(p.inodes[j], x)
      ensures x != i && !InExtent(n, x)
    {
      assert Look(x);
    }
  }

  lemma AdoptOwns(p: Space, i: int, n: Inode, j: int)
    requires SpaceOk(p) && Available(p, i, n) && i !in p.inodes && j in p.inodes[i := n]
    ensures InodeOwns(p.used, Extended(p.owner, i, n), p.inodes[i := n][j], j)
  {
    assert Look(i);
    if j == i {
      forall x | InExtent(n, x)
        ensures x in p.owner && x != i
      {
        assert Look(x);
      }
    } else {
      UnownedApart(p, i, n, j);
      AtInode(p, j);
      forall x | InExtent(p.inodes[j], x)
        ensures x in p.owner && p.owner[x] == j && x != j && x != i && !InExtent(n, x)
      {
        assert Look(x);
      }
    }
  }

  lemma AdoptSector(p: Space, i: int, n: Inode, x: int)
    requires SpaceOk(p) && Available(p, i, n) && i !in p.inodes
    ensures SectorOk(p.used, p.inodes[i := n], Extended(p.owner, i, n), x)
  {
    AtSector(p, x);
  }

  /** inode_create() once its sectors are allocated. */
  lemma AdoptKeeps(p: Space, i: int, n: Inode)
    requires SpaceOk(p) && Available(p, i, n) && i !in p.inodes
    ensures SpaceOk(Adopt(p, i, n))
  {
    var p' := Adopt(p, i, n);
    forall j | j in p'.inodes
      ensures InodeOwns(p'.used, p'.owner, p'.inodes[j], j)
    {
      AdoptOwns(p, i, n, j);
    }
    forall x
      ensures SectorOk(p'.used, p'.inodes, p'.owner, x)
    {
      AdoptSector(p, i, n, x);
    }
    AdoptOnDisk(p, i, n);
    AdoptRoot(p, i, n);
  }

  lemma AdoptRoot(p: Space, i: int, n: Inode)
    requires SpaceOk(p) && Available(p, i, n) && i !in p.inodes
    ensures RootOk(Created(p.bytes, i, n), p.inodes[i := n], p.slots)
  {
    UnownedApart(p, i, n, ROOT_DIR_SECTOR);
    CreatedKeepsFile(p.bytes, i, n, p.inodes[ROOT_DIR_SECTOR]);
  }

  lemma AdoptOnDisk(p: Space, i: int, n: Inode)
    requires SpaceOk(p) && Available(p, i, n) && i !in p.inodes
    ensures AllOnDisk(Created(p.bytes, i, n), p.inodes[i := n])
  {
    forall j | j in p.inodes[i := n]
      ensures 0 <= j && SECTOR * (j + 1) <= |p.bytes| && InodeAt(Created(p.bytes, i, n), j) == p.inodes[i := n][j]
    {
      if j == i {
        assert 0 <= Sectors(n.length) && n.start < W;
        CreatedInode(p.bytes, i, n);
      } else {
        AtInode(p, j);
        UnownedApart(p, i, n, j);
        CreatedKeepsInode(p.bytes, i, n, j);
      }
    }
  }

  // ---- Giving an inode up --------------------------------------------------------------------

  function Without(owner: map<int, int>, i: int): map<int, int> {
    map x | x in owner :: if owner[x] == i then -1 else owner[x]
  }

  /** Inode `i` is no longer live; nobody owns its sectors. */
  function Disown(p: Space, i: int): Space {
    p.(inodes := p.inodes - {i}, owner := Without(p.owner, i))
  }

  lemma DisownKeeps(p: Space, i: int)
    requires SpaceOk(p) && i in p.inodes && i != FREE_MAP_SECTOR && i != ROOT_DIR_SECTOR
    ensures SpaceOk(Disown(p, i)) && Unowned(Disown(p, i).owner, i, 1)
    ensures Unowned(Disown(p, i).owner, p.inodes[i].start, Sectors(p.inodes[i].length))
  {
    var p' := Disown(p, i);
    AtInode(p, i);
    forall j | j in p'.inodes
      ensures InodeOwns(p'.used, p'.owner, p'.inodes[j], j)
    {
      AtInode(p, j);
      forall x | InExtent(p.inodes[j], x)
        ensures x in p'.owner && p'.owner[x] == j && x != j
      {
        assert Look(x);
      }
    }
    forall x
      ensures SectorOk(p'.used, p'.inodes, p'.owner, x)
    {
      AtSector(p, x);
    }
    forall x | InExtent(p.inodes[i], x)
      ensures x in p'.owner && p'.owner[x] == -1
    {
      assert Look(x);
    }
    forall j | j in p'.inodes
      ensures 0 <= j && SECTOR * (j + 1) <= |p.bytes| && InodeAt(p.bytes, j) == p.inodes[j]
    {
      AtInode(p, j);
    }
  }
}

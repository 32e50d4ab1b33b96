/** filesys/inode.c and filesys/file.c: the open inodes and files, and what keeps an inode alive. */
module OpenFiles {
  import opened Basics
  import opened Directory
  import opened FileSpace

  /** What an in-memory inode holds besides its sector. */
  datatype Open = Open(cnt: int, removed: bool, deny: int, inode: Inode)

  datatype File = File(sector: int, pos: int, deny: bool)

  /** The open inodes by sector, and the open files by handle. */
  datatype Table = Table(open: map<int, Open>, files: map<int, File>)

  // ---- The list of open inodes ---------------------------------------------------------------

  /** struct inode, as an element of open_inodes. */
  datatype InCore = InCore(sector: int, open: Open)

  ghost predicate Distinct(list: seq<InCore>) {
    forall j, k :: 0 <= j < k < |list| ==> list[j].sector != list[k].sector
  }

  /** The list as a table by sector; the first of two elements for one sector would count. */
  ghost function MapOf(list: seq<InCore>): map<int, Open> {
    if list == [] then map[] else MapOf(list[1..])[list[0].sector := list[0].open]
  }

  /** The first element for sector `i`, or the length of the list. */
  function Where(list: seq<InCore>, i: int): (k: nat)
    ensures k <= |list| && (k < |list| ==> list[k].sector == i)
    ensures forall j :: 0 <= j < k ==> list[j].sector != i
  {
    if list == [] || list[0].sector == i then 0 else 1 + Where(list[1..], i)
  }

  /** The search of inode_open(). */
  method FindOpen(list: seq<InCore>, i: int) returns (k: nat)
    ensures k == Where(list, i)
  {
    k := 0;
    while k < |list| && list[k].sector != i
      invariant k <= |list| && Where(list, i) == k + Where(list[k..], i)
    {
      assert list[k..][1..] == list[k + 1..];
      k := k + 1;
    }
  }

  lemma {:induction false} MapHas(list: seq<InCore>, i: int)
    ensures i in MapOf(list) <==> Where(list, i) < |list|
    ensures i in MapOf(list) ==> MapOf(list)[i] == list[Where(list, i)].open
  {
    if list != [] && list[0].sector != i {
      MapHas(list[1..], i);
    }
  }

  lemma {:induction false} MapSet(list: seq<InCore>, i: int, o: Open)
    requires Where(list, i) < |list|
    ensures MapOf(list[Where(list, i) := InCore(i, o)]) == MapOf(list)[i := o]
  {
    if list[0].sector != i {
      MapSet(list[1..], i, o);
      var k := Where(list[1..], i);
      assert list[k + 1 := InCore(i, o)] == [list[0]] + list[1..][k := InCore(i, o)];
    } else {
      assert list[0 := InCore(i, o)][1..] == list[1..];
    }
  }

  /** list_remove(). */
  function Dropped(list: seq<InCore>, k: nat): seq<InCore>
    requires k < |list|
  {
    list[..k] + list[k + 1..]
  }

  lemma DropDistinct(list: seq<InCore>, k: nat)
    requires k < |list| && Distinct(list)
    ensures Distinct(Dropped(list, k))
  {
    var list' := Dropped(list, k);
    assert forall j :: 0 <= j < |list'| ==> list'[j] == list[if j < k then j else j + 1];
  }

  lemma DropLater(list: seq<InCore>, k: nat)
    requires 0 < k < |list|
    ensures Dropped(list, k) == [list[0]] + Dropped(list[1..], k - 1)
  {
  }

  lemma MapFront(e: InCore, list: seq<InCore>)
    ensures MapOf([e] + list) == MapOf(list)[e.sector := e.open]
  {
    assert ([e] + list)[1..] == list;
  }

  lemma {:induction false} MapDrop(list: seq<InCore>, i: int)
    requires Where(list, i) < |list| && forall j :: Where(list, i) < j < |list| ==> list[j].sector != i
    ensures MapOf(Dropped(list, Where(list, i))) == MapOf(list) - {i}
  {
    var k, rest := Where(list, i), list[1..];
    if k == 0 {
      assert Dropped(list, 0) == rest;
      MapHas(rest, i);
    } else {
      assert forall j :: k - 1 < j < |rest| ==> rest[j] == list[j + 1];
      MapDrop(rest, i);
      DropLater(list, k);
      MapFront(list[0], Dropped(rest, k - 1));
    }
  }

  /** The table says about each sector what the one element for it says. */
  lemma MapIsExact(list: seq<InCore>, k: nat)
    requires Distinct(list) && k < |list|
    ensures list[k].sector in MapOf(list) && MapOf(list)[list[k].sector] == list[k].open
  {
    MapHas(list, list[k].sector);
  }

  // ---- The invariant -------------------------------------------------------------------------

  ghost predicate NamesSector(slots: seq<Entry>, i: int) {
    exists k :: 0 <= k < |slots| && slots[k].inUse && slots[k].sector == i
  }

  /** The files that have inode `i` open. */
  ghost function FilesOf(files: map<int, File>, i: int): set<int> {
    set h | h in files && files[h].sector == i
  }

  /** Those of them that deny writes. */
  ghost function DeniersOf(files: map<int, File>, i: int): set<int> {
    set h | h in files && files[h].sector == i && files[h].deny
  }

  ghost function Handles(files: map<int, File>, i: int): int {
    |FilesOf(files, i)|
  }

  ghost function Deniers(files: map<int, File>, i: int): int {
    |DeniersOf(files, i)|
  }

  /** Sector `i` is the one meant by `x`, where -1 means none. */
  predicate Is(i: int, x: int) {
    i == x && x != -1
  }

  predicate Special(i: int) {
    i == FREE_MAP_SECTOR || i == ROOT_DIR_SECTOR
  }

  /** Entry `k` names an inode that no other entry names, by a name that no other entry has. */
  ghost predicate SlotOk(slots: seq<Entry>, inodes: map<int, Inode>, k: int) {
    0 <= k < |slots| && slots[k].inUse ==>
      slots[k].sector in inodes && !Special(slots[k].sector) && UniqueAt(slots, k)
  }

  ghost predicate UniqueAt(slots: seq<Entry>, k: int)
    requires 0 <= k < |slots|
  {
    forall j {:trigger Look(j)} :: 0 <= j < |slots| && j != k && slots[j].inUse ==>
      slots[j].name != slots[k].name && slots[j].sector != slots[k].sector
  }

  /** An open inode counts the files that have it open and those of them that deny writes; the free map's inode is
      also open for the free map, and inode `held` for the function that runs. It is marked removed exactly if no
      entry names it. */
  ghost predicate OpenOk(t: Table, inodes: map<int, Inode>, slots: seq<Entry>, held: int, i: int) {
    i in t.open ==>
      && i >= 0 && i in inodes && t.open[i].inode == inodes[i] && t.open[i].cnt >= 1
      && t.open[i].cnt == Handles(t.files, i) + (if i == FREE_MAP_SECTOR then 1 else 0) + (if Is(i, held) then 1 else 0)
      && t.open[i].deny == Deniers(t.files, i)
      && (t.open[i].removed <==> !Special(i) && !NamesSector(slots, i))
  }

  /** An inode is live while an entry names it or it is open; `extra` is live besides. */
  ghost predicate LiveOk(t: Table, inodes: map<int, Inode>, slots: seq<Entry>, extra: int, i: int) {
    i in inodes <==> Special(i) || NamesSector(slots, i) || i in t.open || Is(i, extra)
  }

  /** An open file's inode is open; no file is the free map's or the root directory's. */
  ghost predicate FileOk(t: Table, h: int) {
    h in t.files ==> t.files[h].sector in t.open && !Special(t.files[h].sector) && t.files[h].pos >= 0
  }

  ghost predicate TableOk(t: Table, inodes: map<int, Inode>, slots: seq<Entry>, extra: int, held: int) {
    && (held != -1 ==> held in t.open)
    && (forall k {:trigger Look(k)} :: SlotOk(slots, inodes, k))
    && (forall i {:trigger Look(i)} :: OpenOk(t, inodes, slots, held, i) && LiveOk(t, inodes, slots, extra, i))
    && (forall h {:trigger Look(h)} :: FileOk(t, h))
  }

  lemma At(t: Table, inodes: map<int, Inode>, slots: seq<Entry>, extra: int, held: int, i: int)
    requires TableOk(t, inodes, slots, extra, held)
    ensures SlotOk(slots, inodes, i) && OpenOk(t, inodes, slots, held, i) && LiveOk(t, inodes, slots, extra, i)
    ensures FileOk(t, i)
  {
    assert Look(i);
  }

  // ---- Opening and closing inodes ------------------------------------------------------------

  /** inode_open(), with `n` what is in the sector, and inode_reopen(). */
  function OpenInode(t: Table, i: int, n: Inode): Table {
    if i in t.open then t.(open := t.open[i := t.open[i].(cnt := t.open[i].cnt + 1)])
    else t.(open := t.open[i := Open(1, false, 0, n)])
  }

  lemma NoHandles(t: Table, inodes: map<int, Inode>, slots: seq<Entry>, i: int)
    requires TableOk(t, inodes, slots, -1, -1) && i !in t.open
    ensures Handles(t.files, i) == 0 && Deniers(t.files, i) == 0
  {
    forall h | h in t.files
      ensures t.files[h].sector != i
    {
      At(t, inodes, slots, -1, -1, h);
    }
    assert FilesOf(t.files, i) == {} && DeniersOf(t.files, i) == {};
  }

  lemma OpenInodeKeeps(t: Table, inodes: map<int, Inode>, slots: seq<Entry>, i: int)
    requires TableOk(t, inodes, slots, -1, -1) && i in inodes && i > FREE_MAP_SECTOR
    ensures TableOk(OpenInode(t, i, inodes[i]), inodes, slots, -1, i)
  {
    var t' := OpenInode(t, i, inodes[i]);
    At(t, inodes, slots, -1, -1, i);
    if i !in t.open {
      NoHandles(t, inodes, slots, i);
    }
    forall j
      ensures SlotOk(slots, inodes, j) && OpenOk(t', inodes, slots, i, j) && LiveOk(t', inodes, slots, -1, j)
      ensures FileOk(t', j)
    {
      At(t, inodes, slots, -1, -1, j);
    }
  }

  /** The first half of inode_close(). */
  function DropInode(t: Table, i: int): Table
    requires i in t.open
  {
    if t.open[i].cnt == 1 then t.(open := t.open - {i})
    else t.(open := t.open[i := t.open[i].(cnt := t.open[i].cnt - 1)])
  }

  /** Whether inode_close() is to release the inode's sectors. */
  predicate Releases(t: Table, i: int)
    requires i in t.open
  {
    t.open[i].cnt == 1 && t.open[i].removed
  }

  lemma DropInodeKeeps(t: Table, inodes: map<int, Inode>, slots: seq<Entry>, i: int)
    requires TableOk(t, inodes, slots, -1, i) && i in t.open && i != FREE_MAP_SECTOR && i != -1
    ensures TableOk(DropInode(t, i), inodes, slots, if Releases(t, i) then i else -1, -1)
  {
    var t', extra := DropInode(t, i), if Releases(t, i) then i else -1;
    At(t, inodes, slots, -1, i, i);
    forall j
      ensures SlotOk(slots, inodes, j) && OpenOk(t', inodes, slots, -1, j) && LiveOk(t', inodes, slots, extra, j)
      ensures FileOk(t', j)
    {
      At(t, inodes, slots, -1, i, j);
      assert j in t.files && t.files[j].sector == i ==> j in FilesOf(t.files, i);
    }
  }

  /** What inode_close() then forgets. */
  lemma ForgetKeeps(t: Table, inodes: map<int, Inode>, slots: seq<Entry>, i: int)
    requires TableOk(t, inodes, slots, i, -1) && i !in t.open && !NamesSector(slots, i) && !Special(i)
    ensures TableOk(t, inodes - {i}, slots, -1, -1)
  {
    forall j
      ensures SlotOk(slots, inodes - {i}, j) && OpenOk(t, inodes - {i}, slots, -1, j)
      ensures LiveOk(t, inodes - {i}, slots, -1, j)
      ensures FileOk(t, j)
    {
      At(t, inodes, slots, i, -1, j);
      assert 0 <= j < |slots| && slots[j].inUse ==> slots[j].sector != i;
    }
  }

  // ---- Files ---------------------------------------------------------------------------------

  /** file_open(), for an inode that it takes over. */
  function AttachFile(t: Table, h: int, i: int): Table {
    t.(files := t.files[h := File(i, 0, false)])
  }

  lemma AttachFileKeeps(t: Table, inodes: map<int, Inode>, slots: seq<Entry>, h: int, i: int)
    requires TableOk(t, inodes, slots, -1, i) && i in t.open && h !in t.files && i != -1 && !Special(i)
    ensures TableOk(AttachFile(t, h, i), inodes, slots, -1, -1)
  {
    var t' := AttachFile(t, h, i);
    forall j
      ensures SlotOk(slots, inodes, j) && OpenOk(t', inodes, slots, -1, j) && LiveOk(t', inodes, slots, -1, j)
      ensures FileOk(t', j)
    {
      At(t, inodes, slots, -1, i, j);
      MoreHandles(t.files, t'.files, h, j);
    }
  }

  lemma MoreHandles(files: map<int, File>, files': map<int, File>, h: int, i: int)
    requires h !in files && h in files' && files' == files[h := files'[h]]
    ensures Handles(files', i) == Handles(files, i) + if files'[h].sector == i then 1 else 0
    ensures Deniers(files', i) == Deniers(files, i) + if files'[h].sector == i && files'[h].deny then 1 else 0
  {
    MoreFiles(files, files', h, i);
    MoreDeniers(files, files', h, i);
  }

  lemma MoreFiles(files: map<int, File>, files': map<int, File>, h: int, i: int)
    requires h !in files && h in files' && files' == files[h := files'[h]]
    ensures Handles(files', i) == Handles(files, i) + if files'[h].sector == i then 1 else 0
  {
    var a := FilesOf(files, i);
    if files'[h].sector == i {
      assert FilesOf(files', i) == a + {h};
    } else {
      assert FilesOf(files', i) == a;
    }
  }

  lemma MoreDeniers(files: map<int, File>, files': map<int, File>, h: int, i: int)
    requires h !in files && h in files' && files' == files[h := files'[h]]
    ensures Deniers(files', i) == Deniers(files, i) + if files'[h].sector == i && files'[h].deny then 1 else 0
  {
    var d := DeniersOf(files, i);
    if files'[h].sector == i && files'[h].deny {
      assert DeniersOf(files', i) == d + {h};
    } else {
      assert DeniersOf(files', i) == d;
    }
  }

  /** file_close() up to inode_close(): a file that denied writes no longer does. */
  function DetachFile(t: Table, h: int): Table
    requires h in t.files && t.files[h].sector in t.open
  {
    var i := t.files[h].sector;
    t.(files := t.files - {h},
       open := t.open[i := t.open[i].(deny := t.open[i].deny - if t.files[h].deny then 1 else 0)])
  }

  lemma DetachFileKeeps(t: Table, inodes: map<int, Inode>, slots: seq<Entry>, h: int)
    requires TableOk(t, inodes, slots, -1, -1) && h in t.files
    ensures t.files[h].sector in t.open && TableOk(DetachFile(t, h), inodes, slots, -1, t.files[h].sector)
  {
    At(t, inodes, slots, -1, -1, h);
    var t', i := DetachFile(t, h), t.files[h].sector;
    forall j
      ensures SlotOk(slots, inodes, j) && OpenOk(t', inodes, slots, i, j) && LiveOk(t', inodes, slots, -1, j)
      ensures FileOk(t', j)
    {
      At(t, inodes, slots, -1, -1, j);
      assert t.files == t'.files[h := t.files[h]];
      MoreHandles(t'.files, t.files, h, j);
    }
  }

  /** file_deny_write() and file_allow_write(). */
  function SetDeny(t: Table, h: int, deny: bool): Table
    requires h in t.files && t.files[h].sector in t.open
  {
    var i := t.files[h].sector;
    if t.files[h].deny == deny then t
    else t.(files := t.files[h := t.files[h].(deny := deny)],
            open := t.open[i := t.open[i].(deny := t.open[i].deny + if deny then 1 else -1)])
  }

  lemma SetDenyKeeps(t: Table, inodes: map<int, Inode>, slots: seq<Entry>, h: int, deny: bool)
    requires TableOk(t, inodes, slots, -1, -1) && h in t.files
    ensures t.files[h].sector in t.open && TableOk(SetDeny(t, h, deny), inodes, slots, -1, -1)
  {
    At(t, inodes, slots, -1, -1, h);
    var t' := SetDeny(t, h, deny);
    var rest := t.files - {h};
    forall j
      ensures SlotOk(slots, inodes, j) && OpenOk(t', inodes, slots, -1, j) && LiveOk(t', inodes, slots, -1, j)
      ensures FileOk(t', j)
    {
      At(t, inodes, slots, -1, -1, j);
      assert t.files == rest[h := t.files[h]] && t'.files == rest[h := t'.files[h]];
      MoreHandles(rest, t.files, h, j);
      MoreHandles(rest, t'.files, h, j);
    }
  }

  /** The effect of reads, writes and seeks on the file position. */
  function SetPos(t: Table, h: int, pos: int): Table
    requires h in t.files
  {
    t.(files := t.files[h := t.files[h].(pos := pos)])
  }

  lemma SetPosKeeps(t: Table, inodes: map<int, Inode>, slots: seq<Entry>, h: int, pos: int)
    requires TableOk(t, inodes, slots, -1, -1) && h in t.files && pos >= 0
    ensures TableOk(SetPos(t, h, pos), inodes, slots, -1, -1)
  {
    var t' := SetPos(t, h, pos);
    var rest := t.files - {h};
    forall j
      ensures SlotOk(slots, inodes, j) && OpenOk(t', inodes, slots, -1, j) && LiveOk(t', inodes, slots, -1, j)
      ensures FileOk(t', j)
    {
      At(t, inodes, slots, -1, -1, j);
      At(t, inodes, slots, -1, -1, h);
      assert t.files == rest[h := t.files[h]] && t'.files == rest[h := t'.files[h]];
      MoreHandles(rest, t.files, h, j);
      MoreHandles(rest, t'.files, h, j);
    }
  }

  // ---- Entries -------------------------------------------------------------------------------

  lemma NamesAfter(slots: seq<Entry>, k: int, e: Entry, i: int)
    requires 0 <= k < |slots|
    ensures NamesSector(slots[k := e], i) ==> NamesSector(slots, i) || (e.inUse && e.sector == i)
    ensures e.inUse && e.sector == i ==> NamesSector(slots[k := e], i)
    ensures NamesSector(slots, i) && !(slots[k].inUse && slots[k].sector == i) ==> NamesSector(slots[k := e], i)
  {
    var slots' := slots[k := e];
    if j :| 0 <= j < |slots'| && slots'[j].inUse && slots'[j].sector == i {
      assert j != k ==> slots[j].inUse && slots[j].sector == i;
    }
    if e.inUse && e.sector == i {
      assert slots'[k].inUse && slots'[k].sector == i;
    }
    if j :| 0 <= j < |slots| && slots[j].inUse && slots[j].sector == i && j != k {
      assert slots'[j].inUse && slots'[j].sector == i;
    }
  }

  /** dir_add() names a new inode. */
  lemma NameKeeps(t: Table, inodes: map<int, Inode>, slots: seq<Entry>, k: int, e: Entry)
    requires TableOk(t, inodes, slots, e.sector, -1) && 0 <= k < |slots| && !slots[k].inUse && e.inUse
    requires e.sector in inodes && !Special(e.sector) && e.sector !in t.open && !NamesSector(slots, e.sector)
    requires !HasName(slots, e.name)
    ensures TableOk(t, inodes, slots[k := e], -1, -1)
  {
    var slots' := slots[k := e];
    forall j
      ensures SlotOk(slots', inodes, j) && OpenOk(t, inodes, slots', -1, j) && LiveOk(t, inodes, slots', -1, j)
      ensures FileOk(t, j)
    {
      At(t, inodes, slots, e.sector, -1, j);
      NamesAfter(slots, k, e, j);
      NamedSlot(t, inodes, slots, k, e, j);
    }
  }

  lemma NamedSlot(t: Table, inodes: map<int, Inode>, slots: seq<Entry>, k: int, e: Entry, j: int)
    requires TableOk(t, inodes, slots, e.sector, -1) && 0 <= k < |slots| && e.sector in inodes && !Special(e.sector)
    requires !slots[k].inUse && !NamesSector(slots, e.sector) && !HasName(slots, e.name)
    ensures SlotOk(slots[k := e], inodes, j)
  {
    var slots' := slots[k := e];
    At(t, inodes, slots, e.sector, -1, j);
    if 0 <= j < |slots'| && slots'[j].inUse {
      forall l | 0 <= l < |slots'| && l != j && slots'[l].inUse
        ensures slots'[l].name != slots'[j].name && slots'[l].sector != slots'[j].sector
      {
        assert Look(l);
        var other := if j == k then l else j;
        assert other != k && slots[other].inUse ==> slots[other].sector != e.sector && !Named(slots[other], e.name);
      }
    }
  }

  /** dir_remove() erases an entry and marks the inode, which it has open, as removed. */
  function MarkRemoved(t: Table, i: int): Table
    requires i in t.open
  {
    t.(open := t.open[i := t.open[i].(removed := true)])
  }

  lemma EraseKeeps(t: Table, inodes: map<int, Inode>, slots: seq<Entry>, k: int)
    requires 0 <= k < |slots| && slots[k].inUse && TableOk(t, inodes, slots, -1, slots[k].sector)
    requires slots[k].sector in t.open
    ensures TableOk(MarkRemoved(t, slots[k].sector), inodes, slots[k := slots[k].(inUse := false)], -1, slots[k].sector)
  {
    var i, slots' := slots[k].sector, slots[k := slots[k].(inUse := false)];
    var t' := MarkRemoved(t, i);
    At(t, inodes, slots, -1, i, k);
    ErasedUnnamed(t, inodes, slots, k);
    forall j
      ensures SlotOk(slots', inodes, j) && OpenOk(t', inodes, slots', i, j) && LiveOk(t', inodes, slots', -1, j)
      ensures FileOk(t', j)
    {
      At(t, inodes, slots, -1, i, j);
      NamesAfter(slots, k, slots'[k], j);
      if 0 <= j < |slots'| && slots'[j].inUse {
        forall l | 0 <= l < |slots'| && l != j && slots'[l].inUse
          ensures slots'[l].name != slots'[j].name && slots'[l].sector != slots'[j].sector
        {
          assert Look(l);
        }
      }
    }
  }

  lemma ErasedUnnamed(t: Table, inodes: map<int, Inode>, slots: seq<Entry>, k: int)
    requires 0 <= k < |slots| && slots[k].inUse && TableOk(t, inodes, slots, -1, slots[k].sector)
    ensures !NamesSector(slots[k := slots[k].(inUse := false)], slots[k].sector)
  {
    At(t, inodes, slots, -1, slots[k].sector, k);
    var slots' := slots[k := slots[k].(inUse := false)];
    forall j | 0 <= j < |slots'| && slots'[j].inUse
      ensures slots'[j].sector != slots[k].sector
    {
      assert Look(j);
    }
  }
}

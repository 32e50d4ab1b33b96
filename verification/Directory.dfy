/** filesys/directory.c: a directory is a file of 20-byte entries. */
module Directory {
  import opened Arithmetic
  import opened Bytes
  import opened InodeIO

  const ENTRY: int := 20
  const NAME_MAX: int := 14

  datatype Entry = Entry(sector: int, name: seq<int>, inUse: bool)

  // ---- Entries -------------------------------------------------------------------------------

  function Decode(b: seq<int>): Entry
    requires |b| == ENTRY
  {
    Entry(WordAt(b, 0), CString(b[4..19], 0), b[19] != 0)
  }

  function Slot(f: seq<int>, k: int): Entry
    requires 0 <= k && ENTRY * (k + 1) <= |f|
  {
    Decode(f[ENTRY * k..ENTRY * (k + 1)])
  }

  /** The entries of a directory file. */
  function Slots(f: seq<int>): (r: seq<Entry>)
    requires |f| % ENTRY == 0
    ensures |r| == |f| / ENTRY
  {
    seq(|f| / ENTRY, k requires 0 <= k < |f| / ENTRY => Slot(f, k))
  }

  ghost predicate IsName(name: seq<int>) {
    |name| <= NAME_MAX && 0 !in name
  }

  /** An entry as dir_add() fills it in: what followed the name's null byte stays. */
  function Fill(b: seq<int>, name: seq<int>, sector: int): (r: seq<int>)
    requires |b| == ENTRY && |name| <= NAME_MAX
    ensures |r| == ENTRY
  {
    Word(sector) + name + [0] + b[5 + |name|..19] + [1]
  }

  lemma FillDecodes(b: seq<int>, name: seq<int>, sector: int)
    requires |b| == ENTRY && IsName(name) && 0 <= sector < W
    ensures Decode(Fill(b, name, sector)) == Entry(sector, name, true)
  {
    var r := Fill(b, name, sector);
    assert r[0..4] == Word(sector);
    WordBack(r, 0, sector);
    forall i | 0 <= i < |name|
      ensures name[i] == r[4..19][0 + i] != 0
    {
      assert name[i] in name;
    }
    CStringIs(r[4..19], 0, name);
  }

  /** An entry as dir_remove() clears it. */
  lemma ClearDecodes(b: seq<int>)
    requires |b| == ENTRY
    ensures Decode(b[19 := 0]) == Decode(b).(inUse := false)
  {
    var r := b[19 := 0];
    assert r[4..19] == b[4..19];
  }

  /** Overwriting one entry changes that entry and no other. */
  lemma SlotWritten(f: seq<int>, f': seq<int>, k: int, b: seq<int>)
    requires |f| % ENTRY == 0 && 0 <= k < |f| / ENTRY && |b| == ENTRY && Put(f, f', ENTRY * k, b)
    ensures |f'| % ENTRY == 0 && Slots(f') == Slots(f)[k := Decode(b)]
  {
    forall j | 0 <= j < |f| / ENTRY
      ensures Slot(f', j) == if j == k then Decode(b) else Slot(f, j)
    {
      if j == k {
        assert f'[ENTRY * j..ENTRY * (j + 1)] == b;
      } else {
        assert f'[ENTRY * j..ENTRY * (j + 1)] == f[ENTRY * j..ENTRY * (j + 1)];
      }
    }
  }

  // ---- Searching -----------------------------------------------------------------------------

  predicate Named(e: Entry, name: seq<int>) {
    e.inUse && e.name == name
  }

  /** The first entry from `k` on with a name. */
  function Find(slots: seq<Entry>, name: seq<int>, k: int): (r: int)
    requires 0 <= k <= |slots|
    ensures k <= r <= |slots| && (r < |slots| ==> Named(slots[r], name))
    ensures forall j :: k <= j < r ==> !Named(slots[j], name)
    decreases |slots| - k
  {
    if k == |slots| || Named(slots[k], name) then k else Find(slots, name, k + 1)
  }

  predicate HasName(slots: seq<Entry>, name: seq<int>) {
    Find(slots, name, 0) < |slots|
  }

  /** The first free entry from `k` on. */
  function FindFree(slots: seq<Entry>, k: int): (r: int)
    requires 0 <= k <= |slots|
    ensures k <= r <= |slots| && (r < |slots| ==> !slots[r].inUse)
    decreases |slots| - k
  {
    if k == |slots| || !slots[k].inUse then k else FindFree(slots, k + 1)
  }

  /** Reading an entry: all of it, or nothing at the end of the file or without memory for the bounce buffer. */
  method ReadEntry(dev: Device, start: int, length: int, k: int, memory: bool) returns (b: seq<int>)
    requires Fits(dev.bytes, start, length) && length % ENTRY == 0 && 0 <= k <= length / ENTRY
    ensures b == [] || |b| == ENTRY
    ensures |b| == ENTRY <==> memory && k < length / ENTRY
    ensures |b| == ENTRY ==> b == FileBytes(dev.bytes, start, length)[ENTRY * k..ENTRY * (k + 1)]
    ensures |b| == ENTRY ==> Decode(b) == Slots(FileBytes(dev.bytes, start, length))[k]
  {
    b := ReadAt(dev, start, length, ENTRY, ENTRY * k, memory);
    EntryReach(length, k, memory);
  }

  lemma EntryReach(length: int, k: int, memory: bool)
    requires length % ENTRY == 0 && 0 <= k <= length / ENTRY
    ensures Reach(ENTRY, ENTRY * k, length, memory) == if memory && k < length / ENTRY then ENTRY else 0
  {
    assert length == ENTRY * (length / ENTRY);
  }

  /** What lookup() finds when it can read `n` entries: each takes a bounce buffer, and without one it gives up. */
  function FoundAt(slots: seq<Entry>, name: seq<int>, n: nat): (k: int)
    ensures 0 <= k <= |slots| && (k < |slots| ==> Named(slots[k], name))
  {
    if Find(slots, name, 0) < n then Find(slots, name, 0) else |slots|
  }

  /** lookup(). */
  method Lookup(dev: Device, start: int, length: int, name: seq<int>, n: nat) returns (k: int, b: seq<int>)
    requires Fits(dev.bytes, start, length) && length % ENTRY == 0
    ensures var slots := Slots(FileBytes(dev.bytes, start, length));
            && k == FoundAt(slots, name, n)
            && (k < |slots| ==>
                 b == FileBytes(dev.bytes, start, length)[ENTRY * k..ENTRY * (k + 1)] && Decode(b) == slots[k])
  {
    ghost var slots := Slots(FileBytes(dev.bytes, start, length));
    k := 0;
    while true
      invariant 0 <= k <= |slots| && k <= n && Find(slots, name, k) == Find(slots, name, 0)
      decreases |slots| - k
    {
      b := ReadEntry(dev, start, length, k, k < n);
      if |b| != ENTRY {
        return length / ENTRY, b;
      }
      if Named(Decode(b), name) {
        return;
      }
      k := k + 1;
    }
  }

  /** Where dir_add() puts the entry when it can read `n` entries: in the first that is free, or in the first that it
      cannot read. */
  function Place(slots: seq<Entry>, n: nat): (k: int)
    ensures 0 <= k <= |slots|
  {
    if n < FindFree(slots, 0) then n else FindFree(slots, 0)
  }

  /** The entry that it last read, which it fills in; before any is read, it is taken to be zeros. */
  function AddBase(f: seq<int>, n: nat): (b: seq<int>)
    requires |f| % ENTRY == 0
    ensures |b| == ENTRY
  {
    var k := Place(Slots(f), n);
    if k < n && k < |f| / ENTRY then f[ENTRY * k..ENTRY * (k + 1)]
    else if k > 0 then f[ENTRY * (k - 1)..ENTRY * k]
    else seq(ENTRY, i => 0)
  }

  /** The loop of dir_add() that looks for a free entry; `b` is the last entry read. */
  method LookForFree(dev: Device, start: int, length: int, n: nat) returns (k: int, b: seq<int>)
    requires Fits(dev.bytes, start, length) && length % ENTRY == 0
    ensures k == Place(Slots(FileBytes(dev.bytes, start, length)), n)
    ensures b == AddBase(FileBytes(dev.bytes, start, length), n)
  {
    ghost var f := FileBytes(dev.bytes, start, length);
    ghost var slots := Slots(f);
    k, b := 0, seq(ENTRY, i => 0);
    while true
      invariant 0 <= k <= |slots| && k <= n && FindFree(slots, k) == FindFree(slots, 0)
      invariant b == if k == 0 then seq(ENTRY, i => 0) else f[ENTRY * (k - 1)..ENTRY * k]
      decreases |slots| - k
    {
      var e := ReadEntry(dev, start, length, k, k < n);
      if |e| != ENTRY {
        return;
      }
      b := e;
      if !Decode(b).inUse {
        return;
      }
      k := k + 1;
    }
  }

  // ---- dir_add() and dir_remove() ------------------------------------------------------------

  /** How many entries lookup() and the search for a free entry can read until there is no memory for the bounce
      buffer, and whether there is memory for it in writing the entry. */
  datatype Memory = Memory(lookup: nat, search: nat, write: bool)

  /** dir_add() fails: the name is empty, too long or found in use, the directory is full, or there is no memory. */
  predicate Refused(slots: seq<Entry>, name: seq<int>, m: Memory) {
    || name == [] || |name| > NAME_MAX || FoundAt(slots, name, m.lookup) < |slots|
    || Place(slots, m.search) == |slots| || !m.write
  }

  /** dir_add() on the entries. */
  function Added(slots: seq<Entry>, name: seq<int>, sector: int, m: Memory): (r: seq<Entry>)
    ensures |r| == |slots|
  {
    if Refused(slots, name, m) then slots else slots[Place(slots, m.search) := Entry(sector, name, true)]
  }

  /** The end of dir_add(): find a free entry `k` and write the new one there, over the entry `b` last read. */
  method FillFree(dev: Device, start: int, length: int, name: seq<int>, sector: int, m: Memory)
    returns (ok: bool, ghost k: int, ghost b: seq<int>)
    requires Fits(dev.bytes, start, length) && length % ENTRY == 0 && IsName(name) && 0 <= sector < W
    modifies dev
    ensures var f := FileBytes(old(dev.bytes), start, length);
            && |dev.bytes| == |old(dev.bytes)| && k == Place(Slots(f), m.search) && b == AddBase(f, m.search)
            && (ok <==> m.write && k < |Slots(f)|)
            && Slots(FileBytes(dev.bytes, start, length))
               == if ok then Slots(f)[k := Entry(sector, name, true)] else Slots(f)
    ensures if ok then Put(old(dev.bytes), dev.bytes, SECTOR * start + ENTRY * k, Fill(b, name, sector))
            else dev.bytes == old(dev.bytes)
  {
    var place, last := LookForFree(dev, start, length, m.search);
    FillDecodes(last, name, sector);
    ok := WriteEntry(dev, start, length, place, Fill(last, name, sector), m.write);
    k, b := place, last;
  }

  method DirAdd(dev: Device, start: int, length: int, name: seq<int>, sector: int, m: Memory)
    returns (ok: bool, ghost k: int, ghost b: seq<int>)
    requires Fits(dev.bytes, start, length) && length % ENTRY == 0 && 0 !in name && 0 <= sector < W
    modifies dev
    ensures |dev.bytes| == |old(dev.bytes)|
    ensures var slots := Slots(FileBytes(old(dev.bytes), start, length));
            && ok == !Refused(slots, name, m)
            && Slots(FileBytes(dev.bytes, start, length)) == Added(slots, name, sector, m)
    ensures var f := FileBytes(old(dev.bytes), start, length);
            ok ==> |name| <= NAME_MAX && k == Place(Slots(f), m.search) && b == AddBase(f, m.search)
                   && Put(old(dev.bytes), dev.bytes, SECTOR * start + ENTRY * k, Fill(b, name, sector))
    ensures !ok ==> dev.bytes == old(dev.bytes)
  {
    ok, k, b := false, 0, [];
    if name == [] || |name| > NAME_MAX {
      return;
    }
    var at, found := Lookup(dev, start, length, name, m.lookup);
    if at < length / ENTRY {
      return;
    }
    ok, k, b := FillFree(dev, start, length, name, sector, m);
  }

  /** Writing an entry: all of it, or nothing. */
  method WriteEntry(dev: Device, start: int, length: int, k: int, b: seq<int>, memory: bool) returns (ok: bool)
    requires Fits(dev.bytes, start, length) && length % ENTRY == 0 && 0 <= k <= length / ENTRY && |b| == ENTRY
    modifies dev
    ensures |dev.bytes| == |old(dev.bytes)| && (ok <==> memory && k < length / ENTRY)
    ensures var slots := Slots(FileBytes(old(dev.bytes), start, length));
            Slots(FileBytes(dev.bytes, start, length)) == if ok then slots[k := Decode(b)] else slots
    ensures if ok then Put(old(dev.bytes), dev.bytes, SECTOR * start + ENTRY * k, b) else dev.bytes == old(dev.bytes)
  {
    ghost var disk, f := dev.bytes, FileBytes(dev.bytes, start, length);
    EntryReach(length, k, memory);
    var n := WriteAt(dev, start, length, b, ENTRY * k, memory, 0);
    ok := n == ENTRY;
    if ok {
      assert b[..n] == b;
      WriteChangesFile(disk, dev.bytes, start, length, ENTRY * k, b);
      SlotWritten(f, FileBytes(dev.bytes, start, length), k, b);
    } else {
      assert dev.bytes == disk;
    }
  }

  /** The part of dir_remove() that erases the entry: the sector of the inode that it named. */
  method DirErase(dev: Device, start: int, length: int, k: int, b: seq<int>, memory: bool) returns (ok: bool)
    requires Fits(dev.bytes, start, length) && length % ENTRY == 0 && 0 <= k < length / ENTRY && |b| == ENTRY
    requires Decode(b) == Slots(FileBytes(dev.bytes, start, length))[k]
    modifies dev
    ensures |dev.bytes| == |old(dev.bytes)| && ok == memory
    ensures var slots := Slots(FileBytes(old(dev.bytes), start, length));
            Slots(FileBytes(dev.bytes, start, length)) == if ok then slots[k := slots[k].(inUse := false)] else slots
    ensures if ok then Put(old(dev.bytes), dev.bytes, SECTOR * start + ENTRY * k, b[19 := 0])
            else dev.bytes == old(dev.bytes)
  {
    ClearDecodes(b);
    ok := WriteEntry(dev, start, length, k, b[19 := 0], memory);
  }

  // ---- When dir_add() is safe ----------------------------------------------------------------

  ghost predicate UniqueNames(slots: seq<Entry>) {
    forall i, j :: 0 <= i < j < |slots| && slots[i].inUse && slots[j].inUse ==> slots[i].name != slots[j].name
  }

  ghost predicate KeepsEntries(slots: seq<Entry>, slots': seq<Entry>) {
    forall e :: e in slots && e.inUse ==> e in slots'
  }

  /** The name is in use, in the part of the directory that lookup() could not read. */
  predicate Overlooked(slots: seq<Entry>, name: seq<int>, n: nat) {
    n <= Find(slots, name, 0) < |slots|
  }

  predicate SafeToAdd(slots: seq<Entry>, name: seq<int>, m: Memory) {
    Refused(slots, name, m) || (!slots[Place(slots, m.search)].inUse && !Overlooked(slots, name, m.lookup))
  }

  /** dir_add() loses no entry and keeps names unique exactly if it fails, or the place that it comes to is free and
      the name was not overlooked. */
  lemma AddIsSafe(slots: seq<Entry>, name: seq<int>, sector: int, m: Memory)
    requires UniqueNames(slots) && forall k :: 0 <= k < |slots| && slots[k].inUse ==> slots[k].sector != sector
    ensures var slots' := Added(slots, name, sector, m);
            UniqueNames(slots') && KeepsEntries(slots, slots') <==> SafeToAdd(slots, name, m)
  {
    var slots', k := Added(slots, name, sector, m), Place(slots, m.search);
    if !Refused(slots, name, m) {
      assert slots'[k] == Entry(sector, name, true);
      if slots[k].inUse {
        LosesEntry(slots, slots', k);
      } else {
        ReplacesFree(slots, slots', k);
        AddsName(slots, slots', k, name);
      }
    }
  }

  /** The place is free unless the search ran out of memory before the first free entry. */
  lemma {:induction false} PlaceIsFree(slots: seq<Entry>, n: nat)
    ensures Place(slots, n) < |slots| ==> (slots[Place(slots, n)].inUse <==> n < FindFree(slots, 0))
  {
    if n < FindFree(slots, 0) {
      InUseBefore(slots, 0, n);
    }
  }

  lemma {:induction false} InUseBefore(slots: seq<Entry>, k: int, j: int)
    requires 0 <= k <= j < |slots| && j < FindFree(slots, k)
    ensures slots[j].inUse
    decreases j - k
  {
    if k < j {
      InUseBefore(slots, k + 1, j);
    }
  }

  /** For instance, when memory runs out at the second entry: it is overwritten, though the third is free. */
  lemma AddOverwrites(slots: seq<Entry>)
    requires slots == [Entry(8, [97], true), Entry(9, [98], true), Entry(0, [], false)]
    ensures Added(slots, [99], 10, Memory(3, 1, true))
            == [Entry(8, [97], true), Entry(10, [99], true), Entry(0, [], false)]
    ensures !SafeToAdd(slots, [99], Memory(3, 1, true)) && SafeToAdd(slots, [99], Memory(3, 2, true))
  {
    assert Find(slots, [99], 0) == Find(slots, [99], 1) == Find(slots, [99], 2) == Find(slots, [99], 3) == 3;
    assert FindFree(slots, 0) == FindFree(slots, 1) == FindFree(slots, 2) == 2;
  }

  /** Or when it runs out at the first entry of the lookup: the name is there twice. */
  lemma AddDuplicates(slots: seq<Entry>)
    requires slots == [Entry(8, [97], true), Entry(0, [], false)]
    ensures Added(slots, [97], 9, Memory(0, 2, true)) == [Entry(8, [97], true), Entry(9, [97], true)]
    ensures !SafeToAdd(slots, [97], Memory(0, 2, true))
  {
    assert FindFree(slots, 0) == FindFree(slots, 1) == 1;
  }

  lemma LosesEntry(slots: seq<Entry>, slots': seq<Entry>, k: int)
    requires UniqueNames(slots) && 0 <= k < |slots| && slots[k].inUse && |slots'| == |slots| && slots'[k] != slots[k]
    requires forall j :: 0 <= j < |slots| && j != k ==> slots'[j] == slots[j]
    ensures !KeepsEntries(slots, slots')
  {
    assert slots[k] in slots;
    assert slots[k] !in slots';
  }

  lemma ReplacesFree(slots: seq<Entry>, slots': seq<Entry>, k: int)
    requires 0 <= k < |slots| && !slots[k].inUse && |slots'| == |slots|
    requires forall j :: 0 <= j < |slots| && j != k ==> slots'[j] == slots[j]
    ensures KeepsEntries(slots, slots')
  {
    forall e | e in slots && e.inUse
      ensures e in slots'
    {
      var j :| 0 <= j < |slots| && slots[j] == e;
      assert slots'[j] == e;
    }
  }

  lemma AddsName(slots: seq<Entry>, slots': seq<Entry>, k: int, name: seq<int>)
    requires UniqueNames(slots) && 0 <= k < |slots| && !slots[k].inUse && |slots'| == |slots|
    requires forall j :: 0 <= j < |slots| && j != k ==> slots'[j] == slots[j]
    requires Named(slots'[k], name)
    ensures UniqueNames(slots') <==> !HasName(slots, name)
  {
    var at := Find(slots, name, 0);
    if at < |slots| {
      assert slots'[at].inUse && slots'[at].name == slots'[k].name;
    }
  }
}

/** filesys/inode.c: reading and writing the bytes of a file, sector by sector, with a bounce buffer for parts of
    sectors. The device is a sequence of bytes, of which sector `i` is the 512 from 512 * i on. */
module InodeIO {

  const SECTOR: int := 512

  /** bytes_to_sectors(). */
  function Sectors(length: int): int {
    (length + SECTOR - 1) / SECTOR
  }

  /** An extent of `length` bytes from sector `start` on lies inside the device. */
  predicate Fits(disk: seq<int>, start: int, length: int) {
    0 <= start && 0 <= length && SECTOR * (start + Sectors(length)) <= |disk|
  }

  /** The file as one flat sequence of bytes. */
  function FileBytes(disk: seq<int>, start: int, length: int): (r: seq<int>)
    requires Fits(disk, start, length)
    ensures |r| == length
  {
    disk[SECTOR * start..SECTOR * start + length]
  }

  /** `s'` is `s` with `data` in place of what was at `at`, and otherwise the same. */
  ghost predicate Put(s: seq<int>, s': seq<int>, at: int, data: seq<int>) {
    && |s'| == |s|
    && forall i :: 0 <= i < |s| ==> s'[i] == if at <= i < at + |data| then data[i - at] else s[i]
  }

  /** How many bytes there are to transfer. */
  function Clip(size: int, offset: int, length: int): (n: int)
    ensures 0 <= n
  {
    var left := length - offset;
    if size <= 0 || left <= 0 then 0 else if size < left then size else left
  }

  /** How many bytes are transferred: all, if there is memory for the bounce buffer; otherwise only whole sectors, up
      to the first part of one. */
  function Reach(size: int, offset: int, length: int, memory: bool): (n: int)
    requires 0 <= offset
    ensures 0 <= n <= Clip(size, offset, length)
  {
    var n := Clip(size, offset, length);
    if memory then n else if offset % SECTOR != 0 then 0 else n - n % SECTOR
  }

  class Device {
    var bytes: seq<int>

    constructor (bytes: seq<int>)
      ensures this.bytes == bytes
    {
      this.bytes := bytes;
    }

    method BlockRead(sector: int) returns (b: seq<int>)
      requires 0 <= sector && SECTOR * (sector + 1) <= |bytes|
      ensures b == bytes[SECTOR * sector..SECTOR * (sector + 1)]
    {
      b := bytes[SECTOR * sector..SECTOR * (sector + 1)];
    }

    method BlockWrite(sector: int, b: seq<int>)
      requires 0 <= sector && SECTOR * (sector + 1) <= |bytes| && |b| == SECTOR
      modifies this
      ensures Put(old(bytes), bytes, SECTOR * sector, b)
    {
      bytes := bytes[..SECTOR * sector] + b + bytes[SECTOR * (sector + 1)..];
    }
  }

  // ---- One chunk -----------------------------------------------------------------------------

  /** The number of bytes to copy out of or into the sector of `offset`. */
  function Chunk(size: int, offset: int, length: int): int
    requires 0 <= offset
  {
    var inodeLeft, sectorLeft := length - offset, SECTOR - offset % SECTOR;
    var minLeft := if inodeLeft < sectorLeft then inodeLeft else sectorLeft;
    if size < minLeft then size else minLeft
  }

  /** What a chunk leaves to do. */
  lemma ChunkStep(size: int, offset: int, length: int, memory: bool, chunk: int)
    requires 0 <= offset && chunk == Chunk(size, offset, length)
    ensures chunk <= 0 ==> Clip(size, offset, length) == 0
    ensures chunk > 0 && (memory || chunk == SECTOR) ==>
              Reach(size, offset, length, memory) == chunk + Reach(size - chunk, offset + chunk, length, memory)
    ensures chunk > 0 && !(memory || chunk == SECTOR) ==> Reach(size, offset, length, memory) == 0
  {
    if chunk == SECTOR {
      assert offset % SECTOR == 0 && (offset + SECTOR) % SECTOR == 0;
      assert Clip(size, offset, length) == SECTOR + Clip(size - SECTOR, offset + SECTOR, length);
    }
  }

  /** The chunk lies in one sector, inside the extent. */
  lemma ChunkPlace(disk: seq<int>, start: int, length: int, size: int, offset: int, sector: int, chunk: int)
    requires Fits(disk, start, length) && 0 <= offset && chunk == Chunk(size, offset, length) > 0
    requires sector == start + offset / SECTOR
    ensures 0 <= sector && SECTOR * (sector + 1) <= |disk|
    ensures SECTOR * start + offset == SECTOR * sector + offset % SECTOR
    ensures offset % SECTOR + chunk <= SECTOR && offset + chunk <= length
    ensures chunk == SECTOR ==> offset % SECTOR == 0
  {
    assert offset < length;
    assert offset / SECTOR < Sectors(length);
  }

  lemma SliceSlice(s: seq<int>, a: int, b: int, i: int, j: int)
    requires 0 <= a && 0 <= i <= j && a + j <= b <= |s|
    ensures s[a..b][i..j] == s[a + i..a + j]
  {
    forall k | 0 <= k < j - i
      ensures s[a..b][i..j][k] == s[a + i..a + j][k]
    {
      assert s[a..b][i + k] == s[a + (i + k)];
    }
  }

  lemma FileSlice(disk: seq<int>, start: int, length: int, offset: int, n: int)
    requires Fits(disk, start, length) && 0 <= offset && 0 <= n && offset + n <= length
    ensures SECTOR * start + length <= |disk|
    ensures FileBytes(disk, start, length)[offset..offset + n]
            == disk[SECTOR * start + offset..SECTOR * start + offset + n]
  {
    assert length <= SECTOR * Sectors(length);
    SliceSlice(disk, SECTOR * start, SECTOR * start + length, offset, offset + n);
  }

  // ---- inode_read_at() -----------------------------------------------------------------------

  /** Part of a sector, through the bounce buffer unless it is the whole sector. */
  method LoadChunk(dev: Device, sector: int, ofs: int, n: int) returns (b: seq<int>)
    requires 0 <= sector && SECTOR * (sector + 1) <= |dev.bytes| && 0 <= ofs && 0 < n && ofs + n <= SECTOR
    ensures b == dev.bytes[SECTOR * sector + ofs..SECTOR * sector + ofs + n]
  {
    b := dev.BlockRead(sector);
    if ofs == 0 && n == SECTOR {
      return;
    }
    SliceSlice(dev.bytes, SECTOR * sector, SECTOR * (sector + 1), ofs, ofs + n);
    b := b[ofs..ofs + n];
  }

  /** One round of the loop: the bytes read, or none if the loop is to end. */
  method ReadChunk(dev: Device, start: int, length: int, size: int, offset: int, memory: bool) returns (b: seq<int>)
    requires Fits(dev.bytes, start, length) && 0 <= offset && 0 < size
    ensures b == [] ==> Reach(size, offset, length, memory) == 0
    ensures b != [] ==>
              offset + |b| <= length && |b| <= size && b == FileBytes(dev.bytes, start, length)[offset..offset + |b|]
    ensures Reach(size, offset, length, memory) == |b| + Reach(size - |b|, offset + |b|, length, memory)
  {
    var chunk := Chunk(size, offset, length);
    ChunkStep(size, offset, length, memory, chunk);
    if chunk <= 0 || (!(offset % SECTOR == 0 && chunk == SECTOR) && !memory) {
      return [];
    }
    var sector := start + offset / SECTOR;
    ChunkPlace(dev.bytes, start, length, size, offset, sector, chunk);
    FileSlice(dev.bytes, start, length, offset, chunk);
    b := LoadChunk(dev, sector, offset % SECTOR, chunk);
  }

  lemma SliceJoin(f: seq<int>, i: int, j: int, k: int)
    requires 0 <= i <= j <= k <= |f|
    ensures f[i..j] + f[j..k] == f[i..k]
  {
  }

  method ReadAt(dev: Device, start: int, length: int, size0: int, offset0: int, memory: bool) returns (buffer: seq<int>)
    requires Fits(dev.bytes, start, length) && 0 <= offset0
    ensures |buffer| == Reach(size0, offset0, length, memory)
    ensures buffer != [] ==> buffer == FileBytes(dev.bytes, start, length)[offset0..offset0 + |buffer|]
  {
    ghost var f, total := FileBytes(dev.bytes, start, length), Reach(size0, offset0, length, memory);
    var size, offset := size0, offset0;
    buffer := [];
    while size > 0
      invariant offset == offset0 + |buffer| && size == size0 - |buffer|
      invariant |buffer| + Reach(size, offset, length, memory) == total
      invariant buffer != [] ==> offset <= length && buffer == f[offset0..offset]
      decreases size
    {
      var b := ReadChunk(dev, start, length, size, offset, memory);
      if b == [] {
        break;
      }
      SliceJoin(f, offset0, offset, offset + |b|);
      buffer := buffer + b;
      size, offset := size - |b|, offset + |b|;
    }
  }

  // ---- inode_write_at() ----------------------------------------------------------------------

  /** Part of a sector, through the bounce buffer unless it is the whole sector: the rest of the sector is written
      back as it was. */
  method StoreChunk(dev: Device, sector: int, ofs: int, data: seq<int>)
    requires 0 <= sector && SECTOR * (sector + 1) <= |dev.bytes| && 0 <= ofs && 0 < |data| && ofs + |data| <= SECTOR
    modifies dev
    ensures Put(old(dev.bytes), dev.bytes, SECTOR * sector + ofs, data)
  {
    if ofs == 0 && |data| == SECTOR {
      dev.BlockWrite(sector, data);
      return;
    }
    var bounce := dev.BlockRead(sector);
    bounce := bounce[..ofs] + data + bounce[ofs + |data|..];
    dev.BlockWrite(sector, bounce);
  }

  /** One round of the loop: how many bytes of `data` from `done` on were written. */
  method WriteChunk(dev: Device, start: int, length: int, data: seq<int>, done: int, offset: int, memory: bool)
    returns (k: int)
    requires Fits(dev.bytes, start, length) && 0 <= offset && 0 <= done < |data|
    modifies dev
    ensures 0 <= k && done + k <= |data| && (k > 0 ==> offset + k <= length)
    ensures Put(old(dev.bytes), dev.bytes, SECTOR * start + offset, data[done..done + k])
    ensures Reach(|data| - done, offset, length, memory)
            == k + if k == 0 then 0 else Reach(|data| - done - k, offset + k, length, memory)
  {
    k := Chunk(|data| - done, offset, length);
    ChunkStep(|data| - done, offset, length, memory, k);
    if k <= 0 || (!(offset % SECTOR == 0 && k == SECTOR) && !memory) {
      return 0;
    }
    var sector := start + offset / SECTOR;
    ChunkPlace(dev.bytes, start, length, |data| - done, offset, sector, k);
    StoreChunk(dev, sector, offset % SECTOR, data[done..done + k]);
  }

  lemma PutMore(s: seq<int>, s1: seq<int>, s2: seq<int>, at: int, data: seq<int>, n: int, k: int)
    requires 0 <= n && 0 <= k && n + k <= |data| && Put(s, s1, at, data[..n]) && Put(s1, s2, at + n, data[n..n + k])
    ensures Put(s, s2, at, data[..n + k])
  {
  }

  /** inode_write_at(): `deny` is the count of those who deny writes. */
  method WriteAt(dev: Device, start: int, length: int, data: seq<int>, offset0: int, memory: bool, deny: int)
    returns (n: int)
    requires Fits(dev.bytes, start, length) && 0 <= offset0
    modifies dev
    ensures n == if deny != 0 then 0 else Reach(|data|, offset0, length, memory)
    ensures n <= |data| && Put(old(dev.bytes), dev.bytes, SECTOR * start + offset0, data[..n])
  {
    n := 0;
    if deny != 0 {
      return;
    }
    ghost var disk, at, total := dev.bytes, SECTOR * start + offset0, Reach(|data|, offset0, length, memory);
    while n < |data|
      invariant 0 <= n <= |data| && |dev.bytes| == |disk|
      invariant n + Reach(|data| - n, offset0 + n, length, memory) == total
      invariant Put(disk, dev.bytes, at, data[..n])
      decreases |data| - n
    {
      ghost var before := dev.bytes;
      var k := WriteChunk(dev, start, length, data, n, offset0 + n, memory);
      PutMore(disk, before, dev.bytes, at, data, n, k);
      if k == 0 {
        break;
      }
      n := n + k;
    }
  }

  // ---- Flat files ----------------------------------------------------------------------------

  /** A write changes just the bytes written of the file. */
  lemma WriteChangesFile(disk: seq<int>, disk': seq<int>, start: int, length: int, offset: int, data: seq<int>)
    requires Fits(disk, start, length) && 0 <= offset && offset + |data| <= length
    requires Put(disk, disk', SECTOR * start + offset, data)
    ensures Fits(disk', start, length)
    ensures Put(FileBytes(disk, start, length), FileBytes(disk', start, length), offset, data)
  {
  }

  /** A write to one extent changes no byte elsewhere, be it of another file or the rest of a sector. */
  lemma WriteKeepsOthers(disk: seq<int>, disk': seq<int>, start: int, length: int, offset: int, data: seq<int>,
                         from: int, to: int)
    requires Fits(disk, start, length) && 0 <= offset && offset + |data| <= length && 0 <= from <= to <= |disk|
    requires Put(disk, disk', SECTOR * start + offset, data)
    requires to <= SECTOR * start || SECTOR * (start + Sectors(length)) <= from
    ensures disk'[from..to] == disk[from..to]
  {
    assert length <= SECTOR * Sectors(length);
  }

  /** What was written is what is then read. */
  lemma ReadAfterWrite(disk: seq<int>, disk': seq<int>, start: int, length: int, offset: int, data: seq<int>)
    requires Fits(disk, start, length) && 0 <= offset && offset + |data| <= length
    requires Put(disk, disk', SECTOR * start + offset, data)
    ensures Fits(disk', start, length) && FileBytes(disk', start, length)[offset..offset + |data|] == data
  {
    WriteChangesFile(disk, disk', start, length, offset, data);
  }
}

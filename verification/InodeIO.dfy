/** filesys/inode.c: reading and writing an inode's bytes a sector at a time. */
module InodeIO {
  import opened Bytes
  import opened Machine

  const BLOCK_SECTOR_SIZE := 512

  type Sector = s: seq<Byte> | |s| == BLOCK_SECTOR_SIZE witness seq(512, _ => 0)

  const ZEROS: Sector := seq(512, _ => 0)

  /** The disk as one sequence of bytes. */
  function Flat(disk: seq<Sector>): (f: seq<Byte>)
    ensures |f| == |disk| * BLOCK_SECTOR_SIZE
  {
    seq(|disk| * BLOCK_SECTOR_SIZE, p requires 0 <= p < |disk| * BLOCK_SECTOR_SIZE =>
      disk[p / BLOCK_SECTOR_SIZE][p % BLOCK_SECTOR_SIZE])
  }

  function Max(x: int, y: int): (m: int) { if x < y then y else x }

  /** How many of size bytes from offset on lie inside the inode. */
  function Available(length: nat, size: int, offset: nat): (n: nat) { Max(0, Min(size, length - offset)) }

  function BytesToSectors(size: nat): (n: nat)
    ensures n * BLOCK_SECTOR_SIZE - BLOCK_SECTOR_SIZE < size <= n * BLOCK_SECTOR_SIZE
  {
    (size + BLOCK_SECTOR_SIZE - 1) / BLOCK_SECTOR_SIZE
  }

  /** The inode's first sector and length in bytes, as read from disk when it was opened. */
  datatype Extent = Extent(start: nat, length: nat)

  predicate OnDisk(e: Extent, sectors: nat) { e.start + BytesToSectors(e.length) <= sectors }

  function Base(e: Extent): (p: nat) { e.start * BLOCK_SECTOR_SIZE }

  /** The bytes of the file. */
  function Contents(disk: seq<Sector>, e: Extent): (c: seq<Byte>)
    requires OnDisk(e, |disk|)
    ensures |c| == e.length
  {
    Flat(disk)[Base(e)..Base(e) + e.length]
  }

  function ByteToSector(e: Extent, pos: nat): (sector: int)
  {
    if pos < e.length then e.start + pos / BLOCK_SECTOR_SIZE else -1
  }

  // ---------------------------------------------------------------- sectors and flat bytes

  lemma SectorIsSlice(disk: seq<Sector>, i: nat, from: nat, to: nat)
    requires i < |disk| && from <= to <= BLOCK_SECTOR_SIZE
    ensures disk[i][from..to] == Flat(disk)[i * BLOCK_SECTOR_SIZE + from..i * BLOCK_SECTOR_SIZE + to]
  {
    var f, base := Flat(disk), i * BLOCK_SECTOR_SIZE;
    forall k | from <= k < to
      ensures disk[i][k] == f[base + k]
    {
      assert (base + k) / BLOCK_SECTOR_SIZE == i && (base + k) % BLOCK_SECTOR_SIZE == k;
    }
  }

  lemma FlatIsFaithful(d: seq<Sector>, e: seq<Sector>)
    requires Flat(d) == Flat(e)
    ensures d == e
  {
    assert |d| == |e|;
    forall i | 0 <= i < |d|
      ensures d[i] == e[i]
    {
      SectorIsSlice(d, i, 0, BLOCK_SECTOR_SIZE);
      SectorIsSlice(e, i, 0, BLOCK_SECTOR_SIZE);
      assert d[i] == d[i][0..BLOCK_SECTOR_SIZE] && e[i] == e[i][0..BLOCK_SECTOR_SIZE];
    }
  }

  /** Writing back one sector, patched, patches the flat bytes. */
  lemma SectorWrite(disk: seq<Sector>, i: nat, ofs: nat, c: seq<Byte>)
    requires i < |disk| && ofs + |c| <= BLOCK_SECTOR_SIZE
    ensures Flat(disk[i := Patch(disk[i], ofs, c)]) == Patch(Flat(disk), i * BLOCK_SECTOR_SIZE + ofs, c)
  {
    hide Patch, Flat;
    var g, h := Flat(disk[i := Patch(disk[i], ofs, c)]), Patch(Flat(disk), i * BLOCK_SECTOR_SIZE + ofs, c);
    forall p | 0 <= p < |g|
      ensures g[p] == h[p]
    {
      ByteWritten(disk, i, ofs, c, p);
    }
  }

  lemma ByteWritten(disk: seq<Sector>, i: nat, ofs: nat, c: seq<Byte>, p: nat)
    requires i < |disk| && ofs + |c| <= BLOCK_SECTOR_SIZE && p < |disk| * BLOCK_SECTOR_SIZE
    ensures Flat(disk[i := Patch(disk[i], ofs, c)])[p] == Patch(Flat(disk), i * BLOCK_SECTOR_SIZE + ofs, c)[p]
  {
    hide Patch, Flat;
    FlatAt(disk, p);
    FlatAt(disk[i := Patch(disk[i], ofs, c)], p);
    PatchAt(disk[i], ofs, c, p % BLOCK_SECTOR_SIZE);
    PatchAt(Flat(disk), i * BLOCK_SECTOR_SIZE + ofs, c, p);
    SamePlace(i, ofs, |c|, p);
  }

  /** A byte of the disk lies in a stretch of a sector exactly when it does so inside that sector. */
  lemma SamePlace(i: nat, ofs: nat, n: nat, p: nat)
    requires ofs + n <= BLOCK_SECTOR_SIZE
    ensures var a, j, k := i * BLOCK_SECTOR_SIZE + ofs, p / BLOCK_SECTOR_SIZE, p % BLOCK_SECTOR_SIZE;
      (a <= p < a + n <==> j == i && ofs <= k < ofs + n) && (j == i ==> p - a == k - ofs)
  {
  }

  lemma FlatAt(disk: seq<Sector>, p: nat)
    requires p < |disk| * BLOCK_SECTOR_SIZE
    ensures Flat(disk)[p] == disk[p / BLOCK_SECTOR_SIZE][p % BLOCK_SECTOR_SIZE]
  {
  }

  lemma PatchAt<T>(f: seq<T>, a: nat, d: seq<T>, p: nat)
    requires a + |d| <= |f| && p < |f|
    ensures Patch(f, a, d)[p] == if a <= p < a + |d| then d[p - a] else f[p]
  {
  }

  lemma PatchTwice<T>(f: seq<T>, a: nat, x: seq<T>, y: seq<T>)
    requires a + |x| + |y| <= |f|
    ensures Patch(Patch(f, a, x), a + |x|, y) == Patch(f, a, x + y)
  {
  }

  lemma PatchNothing<T>(f: seq<T>, a: nat)
    ensures Patch(f, a, []) == f
  {
  }

  lemma PatchAll<T>(f: seq<T>, d: seq<T>)
    requires |f| == |d|
    ensures Patch(f, 0, d) == d
  {
  }

  /** A patch leaves every stretch beside it alone. */
  lemma PatchBeside<T>(f: seq<T>, a: nat, x: seq<T>, from: nat, to: nat)
    requires a + |x| <= |f| && from <= to <= |f| && (a + |x| <= from || to <= a)
    ensures Patch(f, a, x)[from..to] == f[from..to]
  {
  }

  /** The whole disk's bytes once d is laid over the file's bytes from offset on. */
  function Overwrite(disk: seq<Sector>, e: Extent, offset: nat, d: seq<Byte>): (f: seq<Byte>)
    requires OnDisk(e, |disk|) && (d == [] || offset + |d| <= e.length)
  {
    Patch(Flat(disk), Base(e) + offset, d)
  }

  // ---------------------------------------------------------------- the loops

  /** The number of bytes moved: all that lie inside the inode when a bounce buffer can be had,
      otherwise only whole aligned sectors. */
  function Moved(length: nat, size: int, offset: nat, memory: bool): (n: nat)
    ensures n <= Available(length, size, offset)
  {
    var n := Available(length, size, offset);
    if memory then n else if offset % BLOCK_SECTOR_SIZE != 0 then 0 else n / BLOCK_SECTOR_SIZE * BLOCK_SECTOR_SIZE
  }

  function Slice(c: seq<Byte>, offset: nat, n: nat): (d: seq<Byte>)
    requires n > 0 ==> offset + n <= |c|
    ensures |d| == n
  {
    if n == 0 then [] else c[offset..offset + n]
  }

  /** What one trip round either loop moves: a chunk that stays inside one sector of the inode. */
  function Chunk(length: nat, size: int, offset: nat): (n: int)
  {
    Min(size, Min(length - offset, BLOCK_SECTOR_SIZE - offset % BLOCK_SECTOR_SIZE))
  }

  lemma ChunkMoves(length: nat, size: int, offset: nat, memory: bool)
    ensures var n := Chunk(length, size, offset);
      && n <= size && (n > 0 ==> offset + n <= length && offset % BLOCK_SECTOR_SIZE + n <= BLOCK_SECTOR_SIZE)
      && Moved(length, size, offset, memory) ==
           if n <= 0 || (!memory && (offset % BLOCK_SECTOR_SIZE != 0 || n != BLOCK_SECTOR_SIZE)) then 0
           else n + Moved(length, size - n, offset + n, memory)
  {
  }

  method ChunkSize(e: Extent, left: int, at: nat) returns (sectorOfs: nat, chunkSize: int)
    ensures sectorOfs == at % BLOCK_SECTOR_SIZE && chunkSize == Chunk(e.length, left, at)
  {
    sectorOfs := at % BLOCK_SECTOR_SIZE;
    var inodeLeft := e.length - at;
    var sectorLeft := BLOCK_SECTOR_SIZE - sectorOfs;
    var minLeft := if inodeLeft < sectorLeft then inodeLeft else sectorLeft;
    chunkSize := if left < minLeft then left else minLeft;
  }

  method BlockRead(disk: array<Sector>, sector: nat, buffer: array<Byte>, at: nat)
    requires sector < disk.Length && at + BLOCK_SECTOR_SIZE <= buffer.Length
    modifies buffer
    ensures buffer[..] == Patch(old(buffer[..]), at, disk[sector])
  {
    forall k | 0 <= k < BLOCK_SECTOR_SIZE {
      buffer[at + k] := disk[sector][k];
    }
  }

  lemma Located(e: Extent, sectors: nat, at: nat)
    requires OnDisk(e, sectors) && at < e.length
    ensures 0 <= ByteToSector(e, at) < sectors
    ensures ByteToSector(e, at) * BLOCK_SECTOR_SIZE + at % BLOCK_SECTOR_SIZE == Base(e) + at
    ensures Base(e) + e.length <= sectors * BLOCK_SECTOR_SIZE
  {
  }

  /** The chunk read in one trip is the next stretch of the file. */
  lemma ReadChunk(disk: seq<Sector>, e: Extent, at: nat, n: nat)
    requires OnDisk(e, |disk|) && at + n <= e.length && n > 0 && at % BLOCK_SECTOR_SIZE + n <= BLOCK_SECTOR_SIZE
    ensures var i, ofs := ByteToSector(e, at), at % BLOCK_SECTOR_SIZE;
      0 <= i < |disk| && disk[i][ofs..ofs + n] == Contents(disk, e)[at..at + n]
  {
    hide Flat;
    var i, ofs := ByteToSector(e, at), at % BLOCK_SECTOR_SIZE;
    Located(e, |disk|, at);
    SectorIsSlice(disk, i, ofs, ofs + n);
    SliceOfSlice(Flat(disk), Base(e), e.length, at, at + n);
  }

  lemma SliceOfSlice<T>(f: seq<T>, a: nat, length: nat, from: nat, to: nat)
    requires from <= to <= length && a + length <= |f|
    ensures f[a..a + length][from..to] == f[a + from..a + to]
  {
    var g := f[a..a + length];
    assert forall k :: from <= k < to ==> g[k] == f[a + k];
  }

  lemma SliceGrows(c: seq<Byte>, f: seq<Byte>, offset: nat, n: nat, m: nat)
    requires offset + n + m <= |c| && n + m <= |f|
    ensures Patch(Patch(f, 0, Slice(c, offset, n)), n, c[offset + n..offset + n + m]) == Patch(f, 0, Slice(c, offset, n + m))
  {
    assert Slice(c, offset, n + m) == Slice(c, offset, n) + c[offset + n..offset + n + m];
    PatchTwice(f, 0, Slice(c, offset, n), c[offset + n..offset + n + m]);
  }

  /** Part of a sector, by way of the bounce buffer. */
  method ReadPart(disk: array<Sector>, sector: nat, bounce: array<Byte>, ofs: nat, buffer: array<Byte>, at: nat, n: nat)
    requires sector < disk.Length && bounce.Length == BLOCK_SECTOR_SIZE && bounce != buffer
    requires ofs + n <= BLOCK_SECTOR_SIZE && at + n <= buffer.Length
    modifies bounce, buffer
    ensures buffer[..] == Patch(old(buffer[..]), at, disk[sector][ofs..ofs + n])
  {
    hide Patch;
    PatchAll(bounce[..], disk[sector]);
    BlockRead(disk, sector, bounce, 0);
    Memcpy(buffer, at, bounce, ofs, n);
  }

  /** A full sector goes straight to the buffer; part of one needs the bounce buffer, made when it is first needed. */
  method Fetch(disk: array<Sector>, sector: nat, ofs: nat, buffer: array<Byte>, at: nat, n: nat, spare: array?<Byte>, memory: bool)
    returns (bounce: array?<Byte>, ok: bool)
    requires sector < disk.Length && ofs + n <= BLOCK_SECTOR_SIZE && at + n <= buffer.Length
    requires spare != null ==> spare.Length == BLOCK_SECTOR_SIZE && spare != buffer && memory
    modifies buffer, spare
    ensures ok <==> memory || (ofs == 0 && n == BLOCK_SECTOR_SIZE)
    ensures buffer[..] == if ok then Patch(old(buffer[..]), at, disk[sector][ofs..ofs + n]) else old(buffer[..])
    ensures bounce == spare || (bounce != null && fresh(bounce) && bounce.Length == BLOCK_SECTOR_SIZE && memory)
  {
    hide Patch;
    bounce, ok := spare, true;
    if ofs == 0 && n == BLOCK_SECTOR_SIZE {
      BlockRead(disk, sector, buffer, at);
      assert disk[sector][0..BLOCK_SECTOR_SIZE] == disk[sector];
    } else {
      if bounce == null {
        if !memory { return null, false; }
        bounce := new Byte[BLOCK_SECTOR_SIZE];
      }
      ReadPart(disk, sector, bounce, ofs, buffer, at, n);
    }
  }

  method ReadAt(disk: array<Sector>, e: Extent, buffer: array<Byte>, size: int, offset: nat, memory: bool)
    returns (bytesRead: nat)
    requires OnDisk(e, disk.Length) && size <= buffer.Length
    modifies buffer
    ensures bytesRead == Moved(e.length, size, offset, memory)
    ensures buffer[..] == Patch(old(buffer[..]), 0, Slice(Contents(disk[..], e), offset, bytesRead))
  {
    hide Flat, Moved, Contents, Patch, Slice, ByteToSector, OnDisk, BytesToSectors, Base, Chunk;
    var left, at := size, offset;
    bytesRead := 0;
    var bounce: array?<Byte> := null;
    ghost var c, f := Contents(disk[..], e), buffer[..];
    PatchNothing(f, 0);
    NoSlice(c, offset);
    while left > 0
      invariant left + bytesRead == size && bytesRead <= Max(0, size)
      invariant at == offset + bytesRead && (bytesRead > 0 ==> at <= e.length)
      invariant Moved(e.length, size, offset, memory) == bytesRead + Moved(e.length, left, at, memory)
      invariant buffer[..] == Patch(f, 0, Slice(c, offset, bytesRead))
      invariant bounce != null ==> fresh(bounce) && bounce.Length == BLOCK_SECTOR_SIZE && memory
    {
      var sectorIdx := ByteToSector(e, at);
      var sectorOfs, chunkSize := ChunkSize(e, left, at);
      ChunkMoves(e.length, left, at, memory);
      if chunkSize <= 0 { break; }
      ReadChunk(disk[..], e, at, chunkSize);
      var ok;
      bounce, ok := Fetch(disk, sectorIdx, sectorOfs, buffer, bytesRead, chunkSize, bounce, memory);
      if !ok { break; }
      SliceGrows(c, f, offset, bytesRead, chunkSize);
      left, at, bytesRead := left - chunkSize, at + chunkSize, bytesRead + chunkSize;
    }
    Finished(e.length, left, at, memory);
  }

  lemma NoSlice(c: seq<Byte>, offset: nat)
    ensures Slice(c, offset, 0) == []
  {
  }

  lemma Finished(length: nat, size: int, offset: nat, memory: bool)
    ensures size <= 0 ==> Moved(length, size, offset, memory) == 0
  {
  }

  method BlockWrite(disk: array<Sector>, sector: nat, buffer: array<Byte>, at: nat)
    requires sector < disk.Length && at + BLOCK_SECTOR_SIZE <= buffer.Length
    modifies disk
    ensures disk[..] == old(disk[..])[sector := buffer[at..at + BLOCK_SECTOR_SIZE]]
  {
    disk[sector] := buffer[at..at + BLOCK_SECTOR_SIZE];
  }

  /** The sector written in one trip extends the stretch of the file already overwritten. */
  lemma WriteChunk(was: seq<Sector>, disk: seq<Sector>, e: Extent, offset: nat, done: seq<Byte>, c: seq<Byte>)
    requires |was| == |disk| && OnDisk(e, |disk|) && offset + |done| + |c| <= e.length && c != []
    requires (offset + |done|) % BLOCK_SECTOR_SIZE + |c| <= BLOCK_SECTOR_SIZE
    requires Flat(disk) == Overwrite(was, e, offset, done)
    ensures var i, ofs := ByteToSector(e, offset + |done|), (offset + |done|) % BLOCK_SECTOR_SIZE;
      0 <= i < |disk| && Flat(disk[i := Patch(disk[i], ofs, c)]) == Overwrite(was, e, offset, done + c)
  {
    hide Flat, Patch;
    var at := offset + |done|;
    var i, ofs := ByteToSector(e, at), at % BLOCK_SECTOR_SIZE;
    Located(e, |disk|, at);
    SectorWrite(disk, i, ofs, c);
    PatchTwice(Flat(was), Base(e) + offset, done, c);
  }

  method Memset(dst: array<Byte>)
    modifies dst
    ensures forall k :: 0 <= k < dst.Length ==> dst[k] == 0
  {
    forall k | 0 <= k < dst.Length {
      dst[k] := 0;
    }
  }

  /** What the bounce buffer holds before the chunk is copied over it. */
  method Prepare(disk: array<Sector>, sector: nat, bounce: array<Byte>, keep: bool)
    requires sector < disk.Length && bounce.Length == BLOCK_SECTOR_SIZE
    modifies bounce
    ensures keep ==> bounce[..] == disk[sector]
    ensures !keep ==> bounce[..] == ZEROS
  {
    if keep {
      PatchAll(bounce[..], disk[sector]);
      BlockRead(disk, sector, bounce, 0);
    } else {
      Memset(bounce);
    }
  }

  /** Part of a sector: what lies around the chunk must survive the write. */
  method WritePart(disk: array<Sector>, sector: nat, bounce: array<Byte>, ofs: nat, buffer: array<Byte>, from: nat, n: nat)
    requires sector < disk.Length && bounce.Length == BLOCK_SECTOR_SIZE && bounce != buffer
    requires ofs + n <= BLOCK_SECTOR_SIZE && from + n <= buffer.Length && n < BLOCK_SECTOR_SIZE
    modifies bounce, disk
    ensures disk[..] == old(disk[..])[sector := Patch(old(disk[sector]), ofs, buffer[from..from + n])]
  {
    hide Patch;
    var sectorLeft := BLOCK_SECTOR_SIZE - ofs;
    Prepare(disk, sector, bounce, ofs > 0 || n < sectorLeft);
    Memcpy(bounce, ofs, buffer, from, n);
    assert bounce[0..BLOCK_SECTOR_SIZE] == bounce[..];
    BlockWrite(disk, sector, bounce, 0);
  }

  lemma NothingYet(disk: seq<Sector>, e: Extent, offset: nat)
    requires OnDisk(e, |disk|)
    ensures Overwrite(disk, e, offset, []) == Flat(disk)
  {
  }

  method WriteAt(disk: array<Sector>, e: Extent, buffer: array<Byte>, size: int, offset: nat, memory: bool)
    returns (bytesWritten: nat)
    requires OnDisk(e, disk.Length) && size <= buffer.Length
    modifies disk
    ensures bytesWritten == Moved(e.length, size, offset, memory)
    ensures Flat(disk[..]) == Overwrite(old(disk[..]), e, offset, buffer[..bytesWritten])
  {
    hide Flat, Moved, Patch, ByteToSector, BytesToSectors, Base, Contents, OnDisk, Overwrite;
    var left, at := size, offset;
    bytesWritten := 0;
    var bounce: array?<Byte> := null;
    ghost var was := disk[..];
    NothingYet(was, e, offset);
    assert buffer[..0] == [];
    while left > 0
      invariant left + bytesWritten == size && bytesWritten <= Max(0, size)
      invariant at == offset + bytesWritten && (bytesWritten > 0 ==> at <= e.length)
      invariant Moved(e.length, size, offset, memory) == bytesWritten + Moved(e.length, left, at, memory)
      invariant Flat(disk[..]) == Overwrite(was, e, offset, buffer[..bytesWritten])
      invariant bounce != null ==> fresh(bounce) && bounce.Length == BLOCK_SECTOR_SIZE && memory
    {
      var sectorIdx := ByteToSector(e, at);
      var sectorOfs, chunkSize := ChunkSize(e, left, at);
      ChunkMoves(e.length, left, at, memory);
      if chunkSize <= 0 { break; }
      ghost var c := buffer[bytesWritten..bytesWritten + chunkSize];
      WriteChunk(was, disk[..], e, offset, buffer[..bytesWritten], c);
      assert buffer[..bytesWritten] + c == buffer[..bytesWritten + chunkSize];
      if sectorOfs == 0 && chunkSize == BLOCK_SECTOR_SIZE {
        PatchAll(disk[sectorIdx], c);
        BlockWrite(disk, sectorIdx, buffer, bytesWritten);
      } else {
        if bounce == null {
          if !memory { break; }
          bounce := new Byte[BLOCK_SECTOR_SIZE];
        }
        WritePart(disk, sectorIdx, bounce, sectorOfs, buffer, bytesWritten, chunkSize);
      }
      left, at, bytesWritten := left - chunkSize, at + chunkSize, bytesWritten + chunkSize;
    }
    Finished(e.length, left, at, memory);
  }

  // ---------------------------------------------------------------- what a write means for the files

  /** The file written reads back as its old bytes with the new ones laid over them. */
  lemma WriteIsOverwrite(was: seq<Sector>, now: seq<Sector>, e: Extent, offset: nat, d: seq<Byte>)
    requires |was| == |now| && OnDisk(e, |was|) && (d == [] || offset + |d| <= e.length)
    requires Flat(now) == Overwrite(was, e, offset, d)
    ensures Contents(now, e) == Patch(Contents(was, e), offset, d)
  {
    hide Flat;
  }

  /** No other file's bytes change, and neither does any other sector. */
  lemma WriteStaysInside(was: seq<Sector>, now: seq<Sector>, e: Extent, offset: nat, d: seq<Byte>)
    requires |was| == |now| && OnDisk(e, |was|) && (d == [] || offset + |d| <= e.length)
    requires Flat(now) == Overwrite(was, e, offset, d)
    ensures forall i :: 0 <= i < |was| && !(e.start <= i < e.start + BytesToSectors(e.length)) ==> now[i] == was[i]
  {
    forall i | 0 <= i < |was| && !(e.start <= i < e.start + BytesToSectors(e.length))
      ensures now[i] == was[i]
    {
      hide Flat;
      SectorIsSlice(was, i, 0, BLOCK_SECTOR_SIZE);
      SectorIsSlice(now, i, 0, BLOCK_SECTOR_SIZE);
      var p := i * BLOCK_SECTOR_SIZE;
      if d != [] { PatchBeside(Flat(was), Base(e) + offset, d, p, p + BLOCK_SECTOR_SIZE); }
      assert now[i] == now[i][0..BLOCK_SECTOR_SIZE] && was[i] == was[i][0..BLOCK_SECTOR_SIZE];
    }
  }
}

/** filesys/filesys.c over inode.c, directory.c and free-map.c: creating, opening, reading, writing, removing and
    closing files, one operation at a time, with memory for the small buffers at hand. */
module FileSystem {
  import opened Bytes
  import opened Options
  import opened InodeIO
  import opened Machine
  import opened Directory
  import opened Bitmaps
  import opened FileState

  const INODE_MAGIC: Word := 0x494e4f44
  /** Sizes from here on are negative as an off_t. */
  const OFF_T_END: nat := 0x8000_0000

  /** struct inode_disk as calloc and inode_create fill it. */
  function InodeSector(start: Word, length: Word): (b: Sector)
  {
    [ByteOf(start, 0), ByteOf(start, 1), ByteOf(start, 2), ByteOf(start, 3)]
    + [ByteOf(length, 0), ByteOf(length, 1), ByteOf(length, 2), ByteOf(length, 3)]
    + [ByteOf(INODE_MAGIC, 0), ByteOf(INODE_MAGIC, 1), ByteOf(INODE_MAGIC, 2), ByteOf(INODE_MAGIC, 3)]
    + seq(500, _ => 0)
  }

  lemma InodeReadsBack(start: Word, length: Word)
    ensures InodeAt(InodeSector(start, length)) == Extent(start, length)
  {
    hide ByteOf, WordOf;
    WordOfItsBytes(start);
    WordOfItsBytes(length);
    var b := InodeSector(start, length);
    assert b[0] == ByteOf(start, 0) && b[1] == ByteOf(start, 1) && b[2] == ByteOf(start, 2) && b[3] == ByteOf(start, 3);
    assert b[4] == ByteOf(length, 0) && b[5] == ByteOf(length, 1) && b[6] == ByteOf(length, 2) && b[7] == ByteOf(length, 3);
  }

  /** The sector of struct inode_disk, byte by byte: start, length and the magic number, least significant bytes first,
      and nothing else. */
  lemma InodeLayout(start: Word, length: Word)
    ensures var b := InodeSector(start, length);
      && start == b[0] as int + 0x100 * (b[1] as int) + 0x1_0000 * (b[2] as int) + 0x100_0000 * (b[3] as int)
      && length == b[4] as int + 0x100 * (b[5] as int) + 0x1_0000 * (b[6] as int) + 0x100_0000 * (b[7] as int)
      && b[8..12] == [0x44, 0x4f, 0x4e, 0x49] && forall k :: 12 <= k < BLOCK_SECTOR_SIZE ==> b[k] == 0
  {
    hide ByteOf;
    var b := InodeSector(start, length);
    WordOfItsBytes(start);
    WordOfItsBytes(length);
    MagicBytes();
    assert b[0] == ByteOf(start, 0) && b[1] == ByteOf(start, 1) && b[2] == ByteOf(start, 2) && b[3] == ByteOf(start, 3);
    assert b[4] == ByteOf(length, 0) && b[5] == ByteOf(length, 1) && b[6] == ByteOf(length, 2) && b[7] == ByteOf(length, 3);
    assert b[8..12] == [ByteOf(INODE_MAGIC, 0), ByteOf(INODE_MAGIC, 1), ByteOf(INODE_MAGIC, 2), ByteOf(INODE_MAGIC, 3)];
  }

  lemma MagicBytes()
    ensures ByteOf(INODE_MAGIC, 0) == 0x44 && ByteOf(INODE_MAGIC, 1) == 0x4f && ByteOf(INODE_MAGIC, 2) == 0x4e && ByteOf(INODE_MAGIC, 3) == 0x49
  {
  }

  function Zeroes(n: nat): (s: seq<Byte>)
    ensures |s| == n
  {
    seq(n, _ => 0)
  }

  lemma ZeroFile(disk: seq<Sector>, e: Extent)
    requires OnDisk(e, |disk|) && forall x: nat :: DataSector(e, x) ==> disk[x] == ZEROS
    ensures Contents(disk, e) == Zeroes(e.length)
  {
    var b := InodeIO.Base(e);
    forall p | b <= p < b + e.length
      ensures Flat(disk)[p] == 0
    {
      FlatAt(disk, p);
      assert DataSector(e, p / BLOCK_SECTOR_SIZE);
    }
  }

  /** Files other than the two of the system keep their place and their bytes. */
  ghost predicate FilesKept(s: State, r: State)
  {
    && Layout(s) && Layout(r)
    && forall i :: i in s.inodes && i > 1 ==> i in r.inodes && r.inodes[i] == s.inodes[i] && Data(r, i) == Data(s, i)
  }

  /** The same inodes, open or not, the same directory, and the same files. */
  ghost predicate Quiet(s: State, r: State)
  {
    Inv(s) && Inv(r) && r.inodes == s.inodes && r.table == s.table && |r.disk| == |s.disk| && Dir(r) == Dir(s) && FilesKept(s, r)
  }

  lemma QuietBoth(s: State, q: State, r: State)
    requires Quiet(s, q) && Quiet(q, r)
    ensures Quiet(s, r)
  {
    hide Inv, Layout, Slots, Contents;
  }

  lemma QuietSelf(s: State)
    requires Inv(s)
    ensures Quiet(s, s)
  {
  }

  /** r is s but for the marks of some sectors that no inode has. */
  ghost predicate Remarked(s: State, r: State, start: nat, cnt: nat, value: bool)
  {
    Quiet(s, r) && start + cnt <= |s.bits| && r.bits == SetRange(s.bits, start, cnt, value)
  }

  class FileSystem {
    const disk: array<Sector>
    const freeMap: Bitmap
    var table: map<nat, Open>
    /** dir_lock is held by nobody between operations, unless dir_add was given a bad name. */
    var dirLock: bool
    ghost var inodes: map<nat, Extent>

    /** filesys_init on a disk to be formatted: the free map in its file, and an empty root directory. */
    constructor (disk: array<Sector>)
      requires BytesToSectors(4 * ElemCnt(disk.Length)) + 3 <= disk.Length < BASE
      modifies disk
      ensures Valid() && this.disk == disk && fresh(freeMap) && fresh(freeMap.bits)
      ensures Fresh(S()) && !dirLock
    {
      this.disk := disk;
      var m := new Bitmap(disk.Length);
      freeMap := m;
      table, dirLock, inodes := map[], false, map[];
      new;
      hide *;
      ghost var s := Format();
      OpenMap(s);
    }

    /** filesys_init on a disk that held the file system s when its last file was closed: everything is there again. */
    constructor Mount(disk: array<Sector>, ghost s: State)
      requires Inv(s) && disk[..] == s.disk && 0 < disk.Length < BASE && s.table.Keys == {FREE_MAP_SECTOR}
      ensures Valid() && this.disk == disk && fresh(freeMap) && fresh(freeMap.bits)
      ensures S() == s.(table := JustOpen(s)) && !dirLock
    {
      this.disk := disk;
      var m := new Bitmap(disk.Length);
      freeMap := m;
      table, dirLock, inodes := map[], false, s.inodes;
      new;
      hide Inv, Contents, FileImage, BitsOf, AllAre, ElemCnt;
      Reopenable(s);
      OpenMap(s.(table := JustOpen(s)));
    }

    /** free_map_open: the map read from its file, whose inode is read from disk. */
    method OpenMap(ghost s: State)
      requires freeMap.Valid() && freeMap.bitCnt == disk.Length < BASE && table == map[]
      requires Inv(s) && s.disk == disk[..] && s.inodes == inodes && s.table == JustOpen(s)
      modifies this`table, freeMap.bits
      ensures Valid() && S() == s
    {
      hide Inv, Contents, FileImage, BitsOf, ElemCnt, InodeAt, Flat, Decoded, BytesToSectors;
      MapSays(s);
      var e := InodeAt(disk[FREE_MAP_SECTOR]);
      table := map[FREE_MAP_SECTOR := Open(e, 1, false)];
      var size := 4 * freeMap.bits.Length;
      var buffer := new Byte[size];
      ghost var was := buffer[..];
      var n := ReadAt(disk, e, buffer, size, 0, true);
      assert n == size;
      PatchAll(was, Contents(disk[..], e));
      freeMap.Read(buffer[..]);
    }

    /** free_map_init, do_format and the closing of the map's file; s is what the disk holds then. */
    method Format() returns (ghost s: State)
      requires freeMap.Valid() && freeMap.bitCnt == disk.Length < BASE && BytesToSectors(4 * ElemCnt(disk.Length)) + 3 <= disk.Length
      requires AllAre(freeMap.Bits(), 0, disk.Length, false)
      modifies this`table, this`inodes, disk, freeMap.bits
      ensures freeMap.Valid() && table == map[]
      ensures Fresh(s) && Inv(s) && s.disk == disk[..] && s.inodes == inodes && s.table == JustOpen(s)
    {
      hide Contents, Flat, Overwrite, FileImage, BitsOf, Inv, Fresh, InodeAt, FirstFit, BytesToSectors, ElemCnt,
        OnDisk, Decoded;
      MapIsSmall(disk.Length);
      freeMap.Mark(FREE_MAP_SECTOR);
      freeMap.Mark(ROOT_DIR_SECTOR);
      ghost var b := freeMap.Bits();
      var e := CreateMap();
      ghost var c := freeMap.Bits();
      var f := CreateRoot(e, b);
      table := map[FREE_MAP_SECTOR := Open(e, 1, false)];
      inodes := map[FREE_MAP_SECTOR := e, ROOT_DIR_SECTOR := f];
      DecodedImage(freeMap.bits[..], freeMap.bitCnt);
      Formatted(S(), b, c, e, f);
      s := S();
      table := map[];
    }

    /** free_map_create, with the two system sectors marked and nothing else. */
    method CreateMap() returns (e: Extent)
      requires freeMap.Valid() && freeMap.bitCnt == disk.Length < BASE && BytesToSectors(4 * ElemCnt(disk.Length)) + 3 <= disk.Length
      requires freeMap.Bits()[0] && freeMap.Bits()[1] && forall x :: 2 <= x < freeMap.bitCnt ==> !freeMap.Bits()[x]
      modifies disk, freeMap.bits
      ensures e == Extent(2, 4 * freeMap.bits.Length) && OnDisk(e, disk.Length) && InodeAt(disk[0]) == e
      ensures freeMap.Bits() == SetRange(old(freeMap.Bits()), 2, BytesToSectors(e.length), true)
      ensures 2 + BytesToSectors(e.length) < disk.Length
    {
      hide Contents, Flat, Overwrite, FileImage, BitsOf, InodeSector, InodeAt, FirstFit;
      var length := 4 * ElemCnt(disk.Length);
      var sectors := BytesToSectors(length);
      MapIsSmall(disk.Length);
      FirstAfterSystem(freeMap.Bits(), sectors);
      var start := freeMap.ScanAndFlip(0, sectors, false);
      e := Extent(start.value, length);
      InodeReadsBack(start.value, length);
      disk[FREE_MAP_SECTOR] := InodeSector(start.value, length);
      ZeroFill(start.value, sectors);
      ghost var d := disk[..];
      var n := PutMap(e);
      WriteStaysInside(d, disk[..], e, 0, FileImage(freeMap.bits[..]));
    }

    /** dir_create of the root directory: its one sector, and the map rewritten. */
    method CreateRoot(e: Extent, ghost b: seq<bool>) returns (f: Extent)
      requires freeMap.Valid() && freeMap.bitCnt == disk.Length < BASE && |b| == disk.Length
      requires e == Extent(2, 4 * freeMap.bits.Length) && OnDisk(e, disk.Length) && InodeAt(disk[0]) == e
      requires b[0] && b[1] && (forall x :: 2 <= x < |b| ==> !b[x]) && 2 + BytesToSectors(e.length) < disk.Length
      requires freeMap.Bits() == SetRange(b, 2, BytesToSectors(e.length), true)
      modifies disk, freeMap.bits
      ensures f.length == DIR_BYTES && f.start < disk.Length && !old(freeMap.Bits())[f.start]
      ensures freeMap.Bits() == SetRange(old(freeMap.Bits()), f.start, 1, true)
      ensures InodeAt(disk[0]) == e && InodeAt(disk[1]) == f && disk[f.start] == ZEROS
      ensures Contents(disk[..], e) == FileImage(freeMap.bits[..])
    {
      hide Contents, Flat, Overwrite, FileImage, BitsOf, InodeSector, InodeAt, FirstFit, BytesToSectors;
      ghost var c := freeMap.Bits();
      OneMoreFree(b, c, BytesToSectors(e.length));
      FirstFitIsLowest(c, 0, 1, false);
      var root := freeMap.ScanAndFlip(0, 1, false);
      ghost var d := disk[..];
      var n := PutMap(e);
      ghost var w := disk[..];
      ghost var image := FileImage(freeMap.bits[..]);
      WriteStaysInside(d, w, e, 0, image);
      WriteIsOverwrite(d, w, e, 0, image);
      PatchAll(Contents(d, e), image);
      f := Extent(root.value, DIR_BYTES);
      InodeReadsBack(root.value, DIR_BYTES);
      disk[ROOT_DIR_SECTOR] := InodeSector(root.value, DIR_BYTES);
      ZeroFill(root.value, 1);
      ghost var g := disk[..];
      forall x: nat | DataSector(e, x)
        ensures x < |w| && w[x] == g[x]
      {
        assert c[x] && x > 1;
      }
      SameSectors(w, g, e);
    }

    /** inode_create's loop over the data sectors. */
    method ZeroFill(start: nat, sectors: nat)
      requires start + sectors <= disk.Length
      modifies disk
      ensures forall x :: 0 <= x < disk.Length ==> disk[x] == if start <= x < start + sectors then ZEROS else old(disk[x])
    {
      var i := 0;
      while i < sectors
        invariant i <= sectors
        invariant forall x :: 0 <= x < disk.Length ==> disk[x] == if start <= x < start + i then ZEROS else old(disk[x])
      {
        disk[start + i] := ZEROS;
        i := i + 1;
      }
    }

    ghost function S(): (s: State)
      requires freeMap.Valid()
      reads this, disk, freeMap.bits
    {
      State(disk[..], freeMap.Bits(), table, inodes)
    }

    ghost predicate Valid()
      reads this, disk, freeMap.bits
    {
      freeMap.Valid() && freeMap.bitCnt == disk.Length < BASE && Inv(S())
    }

    /** bitmap_write to a file with the given extent. */
    method PutMap(e: Extent) returns (n: nat)
      requires freeMap.Valid() && OnDisk(e, disk.Length) && e.length == 4 * freeMap.bits.Length
      modifies disk
      ensures Flat(disk[..]) == Overwrite(old(disk[..]), e, 0, FileImage(freeMap.bits[..]))
    {
      hide Flat, Overwrite, FileImage, BytesToSectors, OnDisk;
      var image := FileImage(freeMap.bits[..]);
      var buffer := new Byte[|image|](k requires 0 <= k < |image| => image[k]);
      assert buffer[..] == image;
      n := WriteAt(disk, e, buffer, |image|, 0, true);
      assert buffer[..n] == image;
    }

    /** The free map written to its own file. */
    method WriteMap(ghost s: State, ghost start: nat, ghost cnt: nat, ghost value: bool)
      requires freeMap.Valid() && freeMap.bitCnt == disk.Length < BASE && Inv(s)
      requires start + cnt <= |s.bits| && forall x :: start <= x < start + cnt ==> Unowned(s, x)
      requires S() == s.(bits := SetRange(s.bits, start, cnt, value))
      modifies disk
      ensures Valid() && Remarked(s, S(), start, cnt, value)
    {
      hide Flat, Overwrite, Contents, FileImage, BitsOf, Inv, Layout, BytesToSectors, OnDisk, DirOk,
        NoneForgotten, Stored;
      MapExtent(s);
      var n := PutMap(table[FREE_MAP_SECTOR].extent);
      DecodedImage(freeMap.bits[..], freeMap.bitCnt);
      BitsChanged(s, disk[..], start, cnt, value, FileImage(freeMap.bits[..]));
      RemarkedNow(s, S(), start, cnt, value);
    }

    /** free_map_allocate: the first free sectors in a row, marked used on disk too. */
    method FreeMapAllocate(cnt: nat) returns (r: Option<nat>)
      requires Valid()
      modifies disk, freeMap.bits
      ensures Valid() && r == FirstFit(old(S()).bits, 0, cnt, false)
      ensures r.None? ==> S() == old(S())
      ensures r.Some? ==> Remarked(old(S()), S(), r.value, cnt, true) && forall x :: r.value <= x < r.value + cnt ==> Unowned(S(), x)
      ensures forall x: nat :: Unowned(old(S()), x) == Unowned(S(), x)
    {
      hide Contents, FileImage, BitsOf, Inv, FirstFit, Remarked, Unowned;
      ghost var s := S();
      FirstFitIsLowest(s.bits, 0, cnt, false);
      var sector := freeMap.ScanAndFlip(0, cnt, false);
      if sector.None? { return None; }
      FreeGroup(s, sector.value, cnt);
      WriteMap(s, sector.value, cnt, true);
      SameOwners(s, S());
      return sector;
    }

    /** free_map_release of sectors that no inode has; its assertion holds because they are all marked. */
    method FreeMapRelease(sector: nat, cnt: nat)
      requires Valid() && sector + cnt <= disk.Length
      requires forall x :: sector <= x < sector + cnt ==> Unowned(S(), x)
      requires AllAre(S().bits, sector, cnt, true)
      modifies disk, freeMap.bits
      ensures Valid() && Remarked(old(S()), S(), sector, cnt, false)
      ensures forall x: nat :: Unowned(old(S()), x) == Unowned(S(), x)
    {
      hide Contents, FileImage, BitsOf, Inv, Remarked, Unowned;
      ghost var s := S();
      freeMap.SetMultiple(sector, cnt, false);
      WriteMap(s, sector, cnt, false);
      SameOwners(s, S());
    }

    /** block_write to a sector that no inode has. */
    method RawWrite(x: nat, b: Sector)
      requires Valid() && x < disk.Length && Unowned(S(), x)
      modifies disk
      ensures Valid() && S() == old(S()).(disk := old(S()).disk[x := b]) && Quiet(old(S()), S())
      ensures forall y: nat :: Unowned(old(S()), y) == Unowned(S(), y)
    {
      hide Contents, FileImage, BitsOf, Inv, Quiet, Unowned;
      ghost var s := S();
      RawQuiet(s, x, b);
      disk[x] := b;
      assert S() == s.(disk := s.disk[x := b]);
      SameOwners(s, S());
    }

    /** inode_create: a length that is negative as an off_t fails its assertion, and the kernel panics. */
    method InodeCreate(sector: nat, length: nat, memory: bool) returns (ok: bool, panic: bool, ghost e: Extent)
      requires Valid() && 1 < sector < disk.Length && Unowned(S(), sector) && S().bits[sector] && length < BASE
      modifies disk, freeMap.bits
      ensures Valid() && Quiet(old(S()), S()) && S().bits[sector]
      ensures forall x: nat :: Unowned(old(S()), x) == Unowned(S(), x)
      ensures panic <==> length >= OFF_T_END
      ensures ok <==> !panic && memory && FirstFit(old(S()).bits, 0, BytesToSectors(length), false) != None
      ensures ok ==> Prepared(S(), sector, e) && e.length == length && Contents(disk[..], e) == Zeroes(length)
      ensures ok ==> var n := BytesToSectors(length);
        && FirstFit(old(S()).bits, 0, n, false) == Some(e.start) && e.start + n <= |old(S()).bits|
        && S().bits == SetRange(old(S()).bits, e.start, n, true)
      ensures !ok ==> S() == old(S())
    {
      hide Contents, FileImage, BitsOf, Inv, Quiet, Unowned, FirstFit, Remarked, InodeSector, InodeAt,
        BytesToSectors, Prepared, Zeroes, AllAre;
      ghost var s := S();
      e := Extent(0, 0);
      QuietSelf(s);
      if length >= OFF_T_END { return false, true, e; }
      panic := false;
      if !memory { return false, false, e; }
      var sectors := BytesToSectors(length);
      FirstFitIsLowest(s.bits, 0, sectors, false);
      var start := FreeMapAllocate(sectors);
      if start.None? { return false, false, e; }
      ghost var q := S();
      MarkedApart(s, q, start.value, sectors, sector);
      RemarkedBits(s, q, start.value, sectors, true);
      e := Extent(start.value, length);
      InodeReadsBack(start.value, length);
      RawWrite(sector, InodeSector(start.value, length));
      ghost var w := S();
      QuietBoth(s, q, w);
      var i := 0;
      QuietSelf(w);
      while i < sectors
        invariant i <= sectors && Valid() && Quiet(w, S()) && S() == w.(disk := S().disk) && |S().disk| == |w.disk|
        invariant forall x: nat :: Unowned(w, x) == Unowned(S(), x)
        invariant disk[sector] == InodeSector(start.value, length)
        invariant forall x :: start.value <= x < start.value + i ==> disk[x] == ZEROS
      {
        ghost var v := S();
        RawWrite(start.value + i, ZEROS);
        QuietBoth(w, v, S());
        i := i + 1;
      }
      QuietBoth(s, w, S());
      UnownedIsNoInode(S(), sector);
      NowPrepared(S(), sector, e);
      ZeroFile(disk[..], e);
      ok := true;
    }

    /** One entry of the directory read into e. */
    method ReadEntry(k: nat, e: array<Byte>) returns (n: nat)
      requires Valid() && ROOT_DIR_SECTOR in table && e.Length == ENTRY_SIZE
      modifies e
      ensures k < ENTRIES ==> n == ENTRY_SIZE && e[..] == EntryAt(Data(S(), ROOT_DIR_SECTOR), k)
      ensures k >= ENTRIES ==> n == 0 && e[..] == old(e[..])
    {
      hide Contents, FileImage, BitsOf, Inv, BytesToSectors;
      RootExtent(S());
      n := ReadAt(disk, table[ROOT_DIR_SECTOR].extent, e, ENTRY_SIZE, ENTRY_SIZE * k, true);
      if k < ENTRIES { PatchAll(old(e[..]), EntryAt(Data(S(), ROOT_DIR_SECTOR), k)); }
    }

    /** lookup: the slot with that name, and its entry. */
    method Lookup(name: Name) returns (r: Option<nat>, entry: seq<Byte>)
      requires Valid() && ROOT_DIR_SECTOR in table
      ensures r == FindFrom(Dir(S()), name, 0)
      ensures r.Some? ==> r.value < ENTRIES && entry == EntryAt(Data(S(), ROOT_DIR_SECTOR), r.value)
    {
      hide Contents, FileImage, BitsOf, Inv, BytesToSectors, UpToNull;
      RootExtent(S());
      var e := new Byte[ENTRY_SIZE];
      var k := 0;
      var n := ReadEntry(k, e);
      while n == ENTRY_SIZE
        modifies e
        invariant k <= ENTRIES && FindFrom(Dir(S()), name, 0) == FindFrom(Dir(S()), name, k)
        invariant if k < ENTRIES then n == ENTRY_SIZE && e[..] == EntryAt(Data(S(), ROOT_DIR_SECTOR), k) else n == 0
        decreases ENTRIES - k
      {
        assert Dir(S())[k] == SlotOf(e[..]);
        if e[19] != 0 && UpToNull(e[4..19]) == name { return Some(k), e[..]; }
        k := k + 1;
        n := ReadEntry(k, e);
      }
      return None, [];
    }

    /** dir_add's search for a free slot, ENTRIES when there is none. */
    method FindFree() returns (k: nat, entry: seq<Byte>)
      requires Valid() && ROOT_DIR_SECTOR in table
      ensures k <= ENTRIES && |entry| == ENTRY_SIZE && FreeFrom(Dir(S()), 0) == if k < ENTRIES then Some(k) else None
    {
      hide Contents, FileImage, BitsOf, Inv, BytesToSectors, UpToNull;
      RootExtent(S());
      var e := new Byte[ENTRY_SIZE];
      k := 0;
      var n := ReadEntry(k, e);
      while n == ENTRY_SIZE
        modifies e
        invariant k <= ENTRIES && FreeFrom(Dir(S()), 0) == FreeFrom(Dir(S()), k)
        invariant if k < ENTRIES then n == ENTRY_SIZE && e[..] == EntryAt(Data(S(), ROOT_DIR_SECTOR), k) else n == 0
        decreases ENTRIES - k
      {
        assert Dir(S())[k] == SlotOf(e[..]);
        if e[19] == 0 { return k, e[..]; }
        k := k + 1;
        n := ReadEntry(k, e);
      }
      entry := e[..];
    }

    method WriteEntry(k: nat, entry: seq<Byte>) returns (n: nat)
      requires Valid() && ROOT_DIR_SECTOR in table && |entry| == ENTRY_SIZE && k <= ENTRIES
      modifies disk
      ensures n == if k < ENTRIES then ENTRY_SIZE else 0
      ensures k < ENTRIES ==> Flat(disk[..]) == Overwrite(old(disk[..]), old(S()).inodes[ROOT_DIR_SECTOR], ENTRY_SIZE * k, entry)
      ensures k == ENTRIES ==> disk[..] == old(disk[..])
    {
      hide Contents, FileImage, BitsOf, Inv, BytesToSectors, Flat;
      RootExtent(S());
      var e := new Byte[ENTRY_SIZE](i requires 0 <= i < ENTRY_SIZE => entry[i]);
      assert e[..] == entry;
      n := WriteAt(disk, table[ROOT_DIR_SECTOR].extent, e, ENTRY_SIZE, ENTRY_SIZE * k, true);
      if k < ENTRIES {
        assert e[..n] == entry;
      } else {
        assert e[..n] == [];
        FlatIsFaithful(disk[..], old(disk[..]));
      }
    }

    /** dir_add: a name that is empty or too long is refused with dir_lock still held. */
    method DirAdd(name: Name, sector: nat, ghost e: Extent) returns (ok: bool)
      requires Valid() && ROOT_DIR_SECTOR in table && NoNull(name) && Prepared(S(), sector, e) && sector < BASE && !dirLock
      modifies disk, this`inodes, this`dirLock
      ensures Valid() && (ok <==> NameOk(name) && Find(Dir(old(S())), name) == None && FreeFrom(Dir(old(S())), 0) != None)
      ensures ok ==> Named(old(S()), S(), name, sector, e)
      ensures !ok ==> S() == old(S())
      ensures dirLock <==> !NameOk(name)
    {
      hide Contents, FileImage, BitsOf, Inv, Flat, Overwrite, Named, Slots, Prepared, NewEntry, SlotOf,
        FindFrom, FreeFrom;
      ghost var s := S();
      dirLock := true;
      if |name| == 0 || |name| > NAME_MAX { return false; }
      RootExtent(s);
      var found, e0 := Lookup(name);
      FoundThere(Dir(s), name, 0);
      if found.Some? {
        dirLock := false;
        return false;
      }
      var k, entry := FindFree();
      FreeThere(Dir(s), 0);
      NewEntryIsUsed(entry, name, sector);
      var n := WriteEntry(k, NewEntry(entry, name, sector));
      ok := n == ENTRY_SIZE;
      if ok {
        inodes := inodes[sector := e];
        NowNamed(s, S(), k, NewEntry(entry, name, sector), name, sector, e);
      }
      dirLock := false;
    }

    /** inode_open: one more opener, or a new entry in the table read from disk. */
    method InodeOpen(i: nat)
      requires Valid() && i in inodes
      modifies this`table
      ensures Valid() && i in table && S() == old(S()).(table := Reopened(old(table), i, inodes[i]))
      ensures Dir(S()) == Dir(old(S())) && FilesKept(old(S()), S())
    {
      hide Contents, FileImage, BitsOf, Inv, Slots, InodeAt, FilesKept;
      ghost var s := S();
      RootExtent(s);
      OpenedOk(s, i);
      if i in table {
        table := table[i := table[i].(cnt := table[i].cnt + 1)];
      } else {
        table := table[i := Open(InodeAt(disk[i]), 1, false)];
      }
    }

    /** inode_close: the last closer of a removed inode gives its sectors back, all of them and only them. */
    method InodeClose(i: nat)
      requires Valid() && i in table && i != FREE_MAP_SECTOR
      modifies this`table, this`inodes, disk, freeMap.bits
      ensures Valid() && Dir(S()) == Dir(old(S()))
      ensures LastOfRemoved(old(table), i) ==> Dropped(old(S()), S(), i)
      ensures !LastOfRemoved(old(table), i) ==> S() == old(S()).(table := Released(old(table), i))
    {
      hide Contents, FileImage, BitsOf, Inv, Slots, FilesKept, Dropped, DataSector, Unowned, Remarked,
        BytesToSectors, AllAre;
      ghost var s := S();
      RootExtent(s);
      var e := table[i].extent;
      if table[i].cnt > 1 {
        ReleasedOk(s, i);
        table := table[i := table[i].(cnt := table[i].cnt - 1)];
        return;
      }
      ReleasedOk(s, i);
      var removed := table[i].removed;
      table := table - {i};
      if removed {
        inodes := inodes - {i};
        ghost var q := S();
        DroppedOk(s, q, i);
        FreeMapRelease(i, 1);
        ghost var w := S();
        StillMarked(s, q, w, i);
        FreeMapRelease(e.start, BytesToSectors(e.length));
        NowDropped(s, q, w, S(), i);
      }
    }

    /** dir_remove: the entry is erased and the inode marked; whoever has it open keeps it until the last close. */
    method DirRemove(name: Name) returns (ok: bool)
      requires Valid() && ROOT_DIR_SECTOR in table && !dirLock
      modifies this`table, this`inodes, disk, freeMap.bits
      ensures Valid() && (ok <==> Find(Dir(old(S())), name) != None)
      ensures ok ==> Unlinked(old(S()), S(), name)
      ensures !ok ==> S() == old(S())
    {
      hide Contents, FileImage, BitsOf, Inv, Flat, Overwrite, Slots, SlotOf, FindFrom, Unlinked, Dropped,
        FilesKept, Reopened, Released;
      ghost var s := S();
      RootExtent(s);
      var k, entry := Lookup(name);
      FoundThere(Dir(s), name, 0);
      if k.None? { return false; }
      EntryFacts(s, k.value);
      var i := WordOf(entry[0], entry[1], entry[2], entry[3]);
      InodeOpen(i);
      ghost var q := S();
      var n := WriteEntry(k.value, entry[19 := 0]);
      ErasedEntry(entry);
      table := table[i := table[i].(removed := true)];
      ghost var w := S();
      NameErased(q, disk[..], k.value, entry[19 := 0], i);
      assert w == q.(disk := disk[..], table := q.table[i := q.table[i].(removed := true)]);
      ReleasedOk(w, i);
      InodeClose(i);
      NowUnlinked(s, q, w, S(), k.value, name, i);
      return true;
    }

    /** filesys_open: what the name stands for, opened once more, or nothing. */
    method OpenFile(name: Name) returns (r: Option<nat>)
      requires Valid()
      modifies this`table, this`inodes, disk, freeMap.bits
      ensures Valid() && Opened(old(S()), S(), name, r)
    {
      hide Contents, FileImage, BitsOf, Inv, Slots, SlotOf, FindFrom, FilesKept, Released, Opened, Reopened,
        LastOfRemoved;
      ghost var s := S();
      RootExtent(s);
      RootTable(s);
      InodeOpen(ROOT_DIR_SECTOR);
      var k, entry := Lookup(name);
      FoundThere(Dir(s), name, 0);
      r := None;
      if k.Some? {
        EntryFacts(S(), k.value);
        r := Some(WordOf(entry[0], entry[1], entry[2], entry[3]));
        InodeOpen(r.value);
      }
      RootClosed(s.table, s.inodes[ROOT_DIR_SECTOR], r, if r.Some? then s.inodes[r.value] else Extent(0, 0));
      InodeClose(ROOT_DIR_SECTOR);
      NowOpened(s, S(), name, k, r);
    }

    /** filesys_create.  A create that fails changes no name and no file; if it got as far as dir_add, the sectors found
        for the data stay marked, and if the name was bad, dir_lock stays held.  A size that is negative as an off_t
        ends in a panic once a sector has been found. */
    method Create(name: Name, size: nat, memory: bool) returns (ok: bool, panic: bool)
      requires Valid() && NoNull(name) && size < BASE && !dirLock
      modifies this, disk, freeMap.bits
      ensures Valid() && (!panic ==> table == old(table)) && (ok <==> CanCreate(old(S()), name, size, memory))
      ensures panic <==> size >= OFF_T_END && FirstFit(old(S()).bits, 0, 1, false) != None
      ensures panic ==> !ok
      ensures ok ==> Created(old(S()), S(), name, size)
      ensures !ok ==> Alike(old(S()), S()) && (!panic ==> S().bits == LeftMarked(old(S()).bits, size, memory))
      ensures dirLock <==> !NameOk(name) && HasRoom(old(S()).bits, size, memory)
    {
      hide Contents, FileImage, BitsOf, Inv, Slots, FilesKept, Released, Reopened, Created, Quiet, Alike,
        LastOfRemoved, Find, FindFrom, FreeFrom, FirstFit, HasRoom, LeftMarked;
      ghost var s := S();
      RootExtent(s);
      RootTable(s);
      RootClosed(s.table, s.inodes[ROOT_DIR_SECTOR], None, Extent(0, 0));
      InodeOpen(ROOT_DIR_SECTOR);
      ghost var q := S();
      ok, panic := CreateIn(name, size, memory);
      ghost var w := S();
      TableAlike(s, q);
      if panic {
        AlikeBoth(s, q, w);
        return;
      }
      InodeClose(ROOT_DIR_SECTOR);
      TableAlike(w, S());
      if ok { CreatedBoth(s, q, w, S(), name, size); } else { AlikeBoth(s, q, w); AlikeBoth(s, w, S()); }
    }

    /** filesys_create with the root directory open. */
    method CreateIn(name: Name, size: nat, memory: bool) returns (ok: bool, panic: bool)
      requires Valid() && NoNull(name) && size < BASE && ROOT_DIR_SECTOR in table && !dirLock
      modifies this`inodes, this`dirLock, disk, freeMap.bits
      ensures Valid() && (!panic ==> table == old(table)) && (ok <==> CanCreate(old(S()), name, size, memory))
      ensures panic <==> size >= OFF_T_END && FirstFit(old(S()).bits, 0, 1, false) != None
      ensures panic ==> !ok
      ensures ok ==> Created(old(S()), S(), name, size)
      ensures !ok ==> Alike(old(S()), S()) && (!panic ==> S().bits == LeftMarked(old(S()).bits, size, memory))
      ensures dirLock <==> !NameOk(name) && HasRoom(old(S()).bits, size, memory)
    {
      hide Contents, FileImage, BitsOf, Inv, Slots, FilesKept, Quiet, Remarked, Unowned, Created, Prepared,
        FirstFit, Named, Alike, AllAre, Find, FindFrom, FreeFrom, SetRange;
      ghost var q := S();
      QuietAlike(q, q);
      FirstFitIsLowest(q.bits, 0, 1, false);
      var sector := FreeMapAllocate(1);
      panic := false;
      if sector.None? { return false, false; }
      ghost var w := S();
      NotASystemSector(q, w, sector.value);
      ghost var e;
      ok, panic, e := InodeCreate(sector.value, size, memory);
      ghost var v := S();
      QuietAlike(q, w);
      QuietAlike(w, v);
      AlikeBoth(q, w, v);
      SameNames(q, v);
      if panic { return; }
      if ok {
        ok := DirAdd(name, sector.value, e);
        if ok { CreatedNow(q, v, S(), name, sector.value, e, size); }
      }
      if !ok && sector.value != 0 {
        OneMarked(v, sector.value);
        FreeMapRelease(sector.value, 1);
        RemarkedAlike(v, S(), sector.value);
        AlikeBoth(q, v, S());
        RemarkedBits(v, S(), sector.value, 1, false);
        GivenBack(q.bits, sector.value, size, memory);
      }
    }

    /** filesys_remove: it fails exactly when there is no such name. */
    method Remove(name: Name) returns (ok: bool)
      requires Valid() && !dirLock
      modifies this`table, this`inodes, disk, freeMap.bits
      ensures Valid() && (ok <==> Find(Dir(old(S())), name) != None)
      ensures ok ==> Unlinked(old(S()), S(), name)
      ensures !ok ==> S() == old(S())
    {
      hide Contents, FileImage, BitsOf, Inv, Slots, FilesKept, Released, Reopened, Unlinked, LastOfRemoved,
        Find, FindFrom;
      ghost var s := S();
      RootExtent(s);
      RootTable(s);
      RootClosed(s.table, s.inodes[ROOT_DIR_SECTOR], None, Extent(0, 0));
      InodeOpen(ROOT_DIR_SECTOR);
      ghost var q := S();
      ok := DirRemove(name);
      ghost var w := S();
      if ok { RootStays(s, q, w, name); }
      InodeClose(ROOT_DIR_SECTOR);
      if ok { UnlinkedAround(s, q, w, S(), name); }
    }

    /** file_read_at: the bytes of the file that lie in the range asked for. */
    method ReadFile(i: nat, buffer: array<Byte>, size: int, offset: nat, memory: bool) returns (n: nat)
      requires Valid() && i in table && size <= buffer.Length
      modifies buffer
      ensures i in inodes && n == Moved(inodes[i].length, size, offset, memory)
      ensures buffer[..] == Patch(old(buffer[..]), 0, Slice(Data(S(), i), offset, n))
    {
      hide Contents, FileImage, BitsOf, Inv, Moved, Patch, Slice;
      OpenExtent(S(), i);
      n := ReadAt(disk, table[i].extent, buffer, size, offset, memory);
    }

    /** file_write_at: the file's bytes change in the range asked for; no other file changes. */
    method WriteFile(i: nat, buffer: array<Byte>, size: int, offset: nat, memory: bool) returns (n: nat)
      requires Valid() && i in table && i > 1 && size <= buffer.Length
      modifies disk
      ensures Valid() && i in inodes && n == Moved(inodes[i].length, size, offset, memory)
      ensures S() == old(S()).(disk := S().disk) && Dir(S()) == Dir(old(S()))
      ensures Data(S(), i) == Patch(Data(old(S()), i), offset, buffer[..n])
      ensures forall j :: j in inodes && j != i ==> Data(S(), j) == Data(old(S()), j)
    {
      hide Contents, FileImage, BitsOf, Inv, Moved, Patch, Slots, Flat, Overwrite;
      ghost var s := S();
      OpenExtent(s, i);
      n := WriteAt(disk, table[i].extent, buffer, size, offset, memory);
      DataWritten(s, disk[..], i, offset, buffer[..n]);
      AllOnDisk(S());
    }
  }

  lemma OpenExtent(s: State, i: nat)
    requires Inv(s) && i in s.table
    ensures i in s.inodes && s.table[i].extent == s.inodes[i] && OnDisk(s.inodes[i], |s.disk|)
    ensures forall j :: j in s.inodes ==> OnDisk(s.inodes[j], |s.disk|)
    ensures ROOT_DIR_SECTOR in s.inodes && s.inodes[ROOT_DIR_SECTOR].length == DIR_BYTES
  {
  }

  lemma AllOnDisk(s: State)
    requires Inv(s)
    ensures forall j :: j in s.inodes ==> OnDisk(s.inodes[j], |s.disk|)
    ensures ROOT_DIR_SECTOR in s.inodes && s.inodes[ROOT_DIR_SECTOR].length == DIR_BYTES
  {
  }

  lemma RootStays(s: State, q: State, w: State, name: Name)
    requires Inv(s) && q == s.(table := Reopened(s.table, ROOT_DIR_SECTOR, s.inodes[ROOT_DIR_SECTOR])) && Unlinked(q, w, name)
    ensures ROOT_DIR_SECTOR in w.table && w.table[ROOT_DIR_SECTOR] == q.table[ROOT_DIR_SECTOR]
  {
    hide Contents, Slots, Layout, Stored, NoneForgotten, Find, DirOk;
    NamedInode(q, name);
  }

  lemma NamedInode(s: State, name: Name)
    requires Inv(s) && Find(Dir(s), name) != None
    ensures Find(Dir(s), name).value > 1 && Find(Dir(s), name).value in s.inodes
  {
    hide Contents, Slots, Layout, Stored, NoneForgotten, FindFrom;
    InvSays(s);
    FoundThere(Dir(s), name, 0);
    EntryFacts(s, FindFrom(Dir(s), name, 0).value);
  }

  lemma UnlinkedAround(s: State, q: State, w: State, r: State, name: Name)
    requires Inv(s) && q == s.(table := Reopened(s.table, ROOT_DIR_SECTOR, s.inodes[ROOT_DIR_SECTOR])) && Unlinked(q, w, name)
    requires ROOT_DIR_SECTOR in w.table && w.table[ROOT_DIR_SECTOR].cnt > 0 && r == w.(table := Released(w.table, ROOT_DIR_SECTOR)) && Inv(r)
    ensures Unlinked(s, r, name)
  {
    hide Contents, Slots, Layout, Stored, NoneForgotten, Find, DirOk, Owns;
    InvSays(s);
    RootTable(s);
    NamedInode(s, name);
    var i := Find(Dir(s), name).value;
    RootClosed(s.table, s.inodes[ROOT_DIR_SECTOR], None, Extent(0, 0));
    assert i in q.table <==> i in s.table;
    assert i in s.table ==> q.table[i] == s.table[i];
    assert r.table == if i in s.table then s.table[i := s.table[i].(removed := true)] else s.table;
  }

  /** The inode the name stands for has one more opener; nothing else has changed. */
  ghost predicate Opened(s: State, r: State, name: Name, i: Option<nat>)
  {
    && Inv(s) && Inv(r) && i == Find(Dir(s), name)
    && match i
       case None => r == s
       case Some(j) => j > 1 && j in s.inodes && r == s.(table := Reopened(s.table, j, s.inodes[j])) && !Gone(r, j)
  }

  lemma NowOpened(s: State, r: State, name: Name, k: Option<nat>, i: Option<nat>)
    requires k.None? ==> i.None? && r == s
    requires k.Some? ==> i.Some? && i.value in s.inodes && r == s.(table := Reopened(s.table, i.value, s.inodes[i.value]))
    requires Inv(s) && k == FindFrom(Dir(s), name, 0)
    requires k.Some? ==> k.value < ENTRIES && Dir(s)[k.value].Used? && i.value == Dir(s)[k.value].sector
    requires Inv(r)
    ensures Opened(s, r, name, i)
  {
    hide Contents, Slots, Layout, Stored, NoneForgotten, FindFrom;
    InvSays(s);
    FoundThere(Dir(s), name, 0);
    if k.Some? { EntryFacts(s, k.value); }
  }

  /** The same inodes, directory and files. */
  ghost predicate Alike(s: State, r: State)
  {
    Inv(s) && Inv(r) && r.inodes == s.inodes && Dir(r) == Dir(s) && FilesKept(s, r)
  }

  lemma AlikeBoth(s: State, q: State, r: State)
    requires Alike(s, q) && Alike(q, r)
    ensures Alike(s, r)
  {
    hide Inv, Layout, Slots, Contents;
  }

  lemma QuietAlike(s: State, r: State)
    requires Quiet(s, r) || (Inv(s) && s == r)
    ensures Alike(s, r)
  {
    hide Layout, Slots, Contents, DirOk, NoneForgotten, Stored;
    if s == r { InvSays(s); }
  }

  lemma SameNames(s: State, r: State)
    requires Alike(s, r)
    ensures Inv(s) && Inv(r) && Dir(r) == Dir(s)
  {
    hide Inv, Slots, Contents, FilesKept;
  }

  lemma RemarkedBits(s: State, r: State, start: nat, cnt: nat, value: bool)
    requires Remarked(s, r, start, cnt, value)
    ensures start + cnt <= |s.bits| && r.bits == SetRange(s.bits, start, cnt, value)
  {
    hide Quiet;
  }

  lemma RemarkedAlike(s: State, r: State, x: nat)
    requires Remarked(s, r, x, 1, false)
    ensures Alike(s, r)
  {
    hide Inv, Layout, Slots, Contents;
  }

  lemma TableAlike(s: State, r: State)
    requires Inv(s) && Inv(r) && r == s.(table := r.table)
    ensures Alike(s, r)
  {
    hide Slots, Contents;
  }

  lemma RootTable(s: State)
    requires Inv(s)
    ensures ROOT_DIR_SECTOR in s.table ==> s.table[ROOT_DIR_SECTOR].cnt > 0 && !s.table[ROOT_DIR_SECTOR].removed
  {
  }

  /** Opening the root directory around something else leaves the table as it was but for that. */
  lemma RootClosed(t: map<nat, Open>, e: Extent, i: Option<nat>, f: Extent)
    requires ROOT_DIR_SECTOR in t ==> t[ROOT_DIR_SECTOR].cnt > 0 && !t[ROOT_DIR_SECTOR].removed
    requires i.Some? ==> i.value != ROOT_DIR_SECTOR
    ensures var u := Reopened(t, ROOT_DIR_SECTOR, e);
      var v := if i.None? then u else Reopened(u, i.value, f);
      && ROOT_DIR_SECTOR in v && v[ROOT_DIR_SECTOR].cnt > 0 && !LastOfRemoved(v, ROOT_DIR_SECTOR)
      && Released(v, ROOT_DIR_SECTOR) == if i.None? then t else Reopened(t, i.value, f)
  {
    var u := Reopened(t, ROOT_DIR_SECTOR, e);
    if i.None? { assert Released(u, ROOT_DIR_SECTOR) == t; }
    else { assert Released(Reopened(u, i.value, f), ROOT_DIR_SECTOR) == Reopened(t, i.value, f); }
  }

  lemma CreatedNow(q: State, v: State, x: State, name: Name, i: nat, e: Extent, size: nat)
    requires Alike(q, v) && Named(v, x, name, i, e) && Find(Dir(v), name) == None && Contents(v.disk, e) == Zeroes(size)
    ensures Created(q, x, name, size)
  {
    hide Contents, Slots, Find, Layout, DirOk, NoneForgotten, Stored, Zeroes;
  }

  lemma CreatedBoth(s: State, q: State, w: State, r: State, name: Name, size: nat)
    requires Alike(s, q) && Created(q, w, name, size) && Alike(w, r)
    ensures Created(s, r, name, size)
  {
    hide Contents, Slots, Find, Inv, Layout, Zeroes;
    CreatedFile(w, r, q, name, size);
  }

  lemma CreatedFile(w: State, r: State, q: State, name: Name, size: nat)
    requires Created(q, w, name, size) && Alike(w, r)
    ensures Find(Dir(w), name).Some? && var i := Find(Dir(w), name).value; i > 1 && Layout(w) && Layout(r) && i in r.inodes && Data(r, i) == Zeroes(size)
  {
    hide Contents, Slots, Find, Zeroes, DirOk, NoneForgotten, Stored, OnDisk, DataSector;
    var i := Find(Dir(w), name).value;
    assert i !in q.inodes;
  }

  lemma OneMarked(s: State, x: nat)
    requires Inv(s) && x < |s.bits| && s.bits[x] && Unowned(s, x)
    ensures AllAre(s.bits, x, 1, true) && forall y :: x <= y < x + 1 ==> Unowned(s, y)
  {
    hide Unowned;
  }

  /** The size is an off_t, and there is memory for the inode, a sector for it and sectors in a row for its data. */
  predicate HasRoom(bits: seq<bool>, size: nat, memory: bool)
  {
    FirstFitIsLowest(bits, 0, 1, false);
    && memory && size < OFF_T_END
    && match FirstFit(bits, 0, 1, false)
       case None => false
       case Some(x) => FirstFit(SetRange(bits, x, 1, true), 0, BytesToSectors(size), false) != None
  }

  /** The map after a create that failed: whoever had room has lost it. */
  function LeftMarked(bits: seq<bool>, size: nat, memory: bool): (r: seq<bool>)
  {
    if !HasRoom(bits, size, memory) then bits
    else
      FirstFitIsLowest(bits, 0, 1, false);
      var taken := SetRange(bits, FirstFit(bits, 0, 1, false).value, 1, true);
      FirstFitIsLowest(taken, 0, BytesToSectors(size), false);
      SetRange(bits, FirstFit(taken, 0, BytesToSectors(size), false).value, BytesToSectors(size), true)
  }

  /** Giving the inode's sector back leaves the data's marked. */
  lemma GivenBack(bits: seq<bool>, x: nat, size: nat, memory: bool)
    requires FirstFit(bits, 0, 1, false) == Some(x) && size < OFF_T_END
    ensures x < |bits|
    ensures var taken := SetRange(bits, x, 1, true);
      && SetRange(taken, x, 1, false) == bits
      && match FirstFit(taken, 0, BytesToSectors(size), false)
         case None => LeftMarked(bits, size, memory) == bits
         case Some(y) =>
           && y + BytesToSectors(size) <= |bits|
           && (memory ==> SetRange(SetRange(taken, y, BytesToSectors(size), true), x, 1, false) == LeftMarked(bits, size, memory))
           && (!memory ==> LeftMarked(bits, size, memory) == bits)
  {
    hide FirstFit, BytesToSectors, SetRange;
    FirstFitIsLowest(bits, 0, 1, false);
    assert !bits[x];
    var taken, n := SetRange(bits, x, 1, true), BytesToSectors(size);
    FirstFitIsLowest(taken, 0, n, false);
    OneUndone(bits, x);
    var f := FirstFit(taken, 0, n, false);
    if f.Some? {
      Apart(taken, x, f.value, n);
      MarkUndone(bits, x, f.value, n);
    }
  }

  lemma OneUndone(bits: seq<bool>, x: nat)
    requires x < |bits| && !bits[x]
    ensures SetRange(SetRange(bits, x, 1, true), x, 1, false) == bits
  {
  }

  lemma Apart(taken: seq<bool>, x: nat, y: nat, n: nat)
    requires x < |taken| && taken[x] && Fits(taken, y, n, false)
    ensures !(y <= x < y + n)
  {
  }

  lemma MarkUndone(bits: seq<bool>, x: nat, y: nat, n: nat)
    requires x < |bits| && !bits[x] && y + n <= |bits| && !(y <= x < y + n)
    ensures SetRange(SetRange(SetRange(bits, x, 1, true), y, n, true), x, 1, false) == SetRange(bits, y, n, true)
  {
    var a, b := SetRange(SetRange(SetRange(bits, x, 1, true), y, n, true), x, 1, false), SetRange(bits, y, n, true);
    assert forall k :: 0 <= k < |bits| ==> a[k] == b[k];
  }

  /** A failed create gives everything back exactly when there was no room in the first place or nothing to store. */
  lemma NothingLostExactly(bits: seq<bool>, size: nat, memory: bool)
    ensures LeftMarked(bits, size, memory) == bits <==> !HasRoom(bits, size, memory) || size == 0
  {
    hide FirstFit;
    if HasRoom(bits, size, memory) {
      FirstFitIsLowest(bits, 0, 1, false);
      var x, n := FirstFit(bits, 0, 1, false).value, BytesToSectors(size);
      var taken := SetRange(bits, x, 1, true);
      FirstFitIsLowest(taken, 0, n, false);
      var y := FirstFit(taken, 0, n, false).value;
      if n > 0 {
        assert !taken[y] && y != x && LeftMarked(bits, size, memory)[y];
      }
    }
  }

  /** It can happen: two free sectors, and a byte to store under a name that is in use already. */
  lemma SectorLost()
    ensures LeftMarked([true, true, false, false], 1, true) == [true, true, false, true]
  {
    var bits := [true, true, false, false];
    FirstFitIsLowest(bits, 0, 1, false);
    assert bits[0] && bits[1];
    assert Fits(bits, 2, 1, false) && !Fits(bits, 0, 1, false) && !Fits(bits, 1, 1, false);
    var taken := SetRange(bits, 2, 1, true);
    FirstFitIsLowest(taken, 0, 1, false);
    assert taken[0] && taken[1] && taken[2];
    assert Fits(taken, 3, 1, false) && !Fits(taken, 0, 1, false) && !Fits(taken, 1, 1, false) && !Fits(taken, 2, 1, false);
    assert BytesToSectors(1) == 1;
  }

  /** There is room, the name is a good one and new, and a slot is free. */
  ghost predicate CanCreate(s: State, name: Name, size: nat, memory: bool)
  {
    Inv(s) && HasRoom(s.bits, size, memory) && NameOk(name) && Find(Dir(s), name) == None && FreeFrom(Dir(s), 0) != None
  }

  /** The name stands for a new file of zeros; every other name and file is as it was. */
  ghost predicate Created(s: State, r: State, name: Name, size: nat)
  {
    && Inv(s) && Inv(r) && FilesKept(s, r) && Find(Dir(s), name) == None
    && (forall n: Name :: n != name ==> Find(Dir(r), n) == Find(Dir(s), n))
    && Find(Dir(r), name).Some? && var i := Find(Dir(r), name).value;
    && i !in s.inodes && i in r.inodes && r.inodes == s.inodes[i := r.inodes[i]] && Data(r, i) == Zeroes(size)
  }

  lemma NotASystemSector(s: State, r: State, x: nat)
    requires Inv(s) && Fits(s.bits, x, 1, false) && Remarked(s, r, x, 1, true)
    ensures x > 1 && x < |r.bits| == |r.disk| && r.bits[x] && Quiet(s, r) && r.bits == SetRange(s.bits, x, 1, true)
  {
    hide Contents, Slots;
    assert Has(s.inodes, 0, 0) && Has(s.inodes, 1, 1);
  }

  lemma EntryFacts(s: State, k: nat)
    requires Inv(s) && k < ENTRIES && Dir(s)[k].Used?
    ensures var e, i := EntryAt(Data(s, ROOT_DIR_SECTOR), k), Dir(s)[k].sector;
      i > 1 && i in s.inodes && !Gone(s, i) && i == WordOf(e[0], e[1], e[2], e[3])
  {
    hide Contents;
    InvSays(s);
    assert EntryOk(s, Dir(s)[k]);
  }

  lemma ErasedEntry(entry: seq<Byte>)
    requires |entry| == ENTRY_SIZE
    ensures SlotOf(entry[19 := 0]) == Free
  {
  }

  /** The name is gone and every other name and file is as it was.  An inode that was open stays, marked for deletion;
      one that was not is gone, and exactly its sectors are free again. */
  ghost predicate Unlinked(s: State, r: State, name: Name)
  {
    && Inv(s) && Inv(r) && Find(Dir(s), name) != None
    && (forall n: Name :: Find(Dir(r), n) == if n == name then None else Find(Dir(s), n))
    && var i := Find(Dir(s), name).value;
    && i in s.inodes && |r.bits| == |s.bits|
    && r.inodes == (if i in s.table then s.inodes else s.inodes - {i})
    && r.table == (if i in s.table then s.table[i := s.table[i].(removed := true)] else s.table)
    && (forall x :: 0 <= x < |s.bits| ==> r.bits[x] == (s.bits[x] && (i in s.table || !Owns(s.inodes[i], i, x))))
    && forall j :: j in r.inodes && j > 1 ==> Data(r, j) == Data(s, j)
  }

  /** r is what is left of s after opening i, erasing the k-th slot and marking i, and closing i again. */
  ghost predicate Cycle(s: State, q: State, w: State, r: State, k: nat, i: nat)
  {
    && Inv(s) && Inv(q) && Inv(w) && Inv(r) && k < ENTRIES && i in s.inodes
    && q == s.(table := Reopened(s.table, i, s.inodes[i])) && Dir(q) == Dir(s)
    && |w.disk| == |q.disk| && w == q.(disk := w.disk, table := q.table[i := q.table[i].(removed := true)])
    && Dir(w) == Dir(q)[k := Free] && (forall j :: j in q.inodes && j != ROOT_DIR_SECTOR ==> Data(w, j) == Data(q, j))
    && Dir(r) == Dir(w) && w.table[i].cnt > 0
    && if LastOfRemoved(w.table, i) then Dropped(w, r, i) else r == w.(table := Released(w.table, i))
  }

  lemma NowUnlinked(s: State, q: State, w: State, r: State, k: nat, name: Name, i: nat)
    requires Cycle(s, q, w, r, k, i) && Dir(s)[k] == Used(name, i)
    ensures Unlinked(s, r, name)
  {
    hide Contents, Slots, Layout, Stored, DirOk, NoneForgotten, Unique, Find, Inv, Cycle, Dropped;
    CycleNames(s, q, w, r, k, name, i);
    CycleTable(s, q, w, r, k, i);
  }

  lemma CycleNames(s: State, q: State, w: State, r: State, k: nat, name: Name, i: nat)
    requires Cycle(s, q, w, r, k, i) && Dir(s)[k] == Used(name, i)
    ensures Inv(s) && Inv(r) && Find(Dir(s), name) == Some(i)
    ensures forall n: Name :: Find(Dir(r), n) == if n == name then None else Find(Dir(s), n)
  {
    hide Contents, Slots, Layout, Stored, DirOk, NoneForgotten, Unique, Find, Inv, Dropped, Reopened, Released;
    InvSays(s);
    InvSays(w);
    InvSays(r);
    FindIs(Dir(s), k);
    NamesAfter(Dir(s), k, Free);
    assert forall n: Name :: Find(Dir(r), n) == After(Dir(s), k, Free, n);
    assert forall n: Name :: After(Dir(s), k, Free, n) == if n == name then None else Find(Dir(s), n);
  }

  lemma CycleTable(s: State, q: State, w: State, r: State, k: nat, i: nat)
    requires Cycle(s, q, w, r, k, i)
    ensures Inv(s) && Inv(r) && i in s.inodes && |r.bits| == |s.bits|
    ensures r.inodes == (if i in s.table then s.inodes else s.inodes - {i})
    ensures r.table == (if i in s.table then s.table[i := s.table[i].(removed := true)] else s.table)
    ensures forall x :: 0 <= x < |s.bits| ==> r.bits[x] == (s.bits[x] && (i in s.table || !Owns(s.inodes[i], i, x)))
    ensures forall j :: j in r.inodes && j > 1 ==> Data(r, j) == Data(s, j)
  {
    hide Contents, Slots, Inv, Dir, Owns, OnDisk;
    InvSays(s);
    InvSays(r);
    OpenCnt(s, i);
    if i in s.table {
      assert !LastOfRemoved(w.table, i);
      assert r.table == s.table[i := s.table[i].(removed := true)];
    } else {
      assert LastOfRemoved(w.table, i);
      assert w.table - {i} == s.table;
    }
  }

  lemma OpenCnt(s: State, i: nat)
    requires Inv(s)
    ensures i in s.table ==> s.table[i].cnt > 0
  {
  }

  /** The name stands for the inode now; every other name and file is as it was. */
  ghost predicate Named(s: State, r: State, name: Name, i: nat, e: Extent)
  {
    && Inv(s) && Inv(r) && r.table == s.table && r.bits == s.bits && OnDisk(e, |s.disk|) && i !in s.inodes && i > 1
    && r.inodes == s.inodes[i := e] && Data(r, i) == Contents(s.disk, e) && FilesKept(s, r)
    && forall n: Name :: Find(Dir(r), n) == if n == name then Some(i) else Find(Dir(s), n)
  }

  lemma NowNamed(s: State, r: State, k: nat, entry: seq<Byte>, name: Name, i: nat, e: Extent)
    requires Inv(s) && k < ENTRIES && Dir(s)[k].Free? && |entry| == ENTRY_SIZE && SlotOf(entry) == Used(name, i)
    requires NameOk(name) && FindFrom(Dir(s), name, 0) == None && Prepared(s, i, e) && |r.disk| == |s.disk|
    requires Flat(r.disk) == Overwrite(s.disk, s.inodes[ROOT_DIR_SECTOR], ENTRY_SIZE * k, entry)
    requires r == s.(disk := r.disk, inodes := s.inodes[i := e])
    ensures Named(s, r, name, i, e) && Inv(r)
  {
    hide Contents, Flat, Overwrite, Slots, SlotOf, Prepared, Inv, Layout, Find, FindFrom, Unique;
    InvSays(s);
    NotNamed(Dir(s), name);
    NameAdded(s, r.disk, k, entry, name, i, e);
    NotAnInode(s, i, e);
    InvSays(r);
    NamesAfter(Dir(s), k, Used(name, i));
    assert r.inodes[i] == e;
    assert FilesKept(s, r);
    assert OnDisk(e, |s.disk|) && Data(r, i) == Contents(s.disk, e);
    assert forall n: Name :: Find(Dir(r), n) == After(Dir(s), k, Used(name, i), n);
    assert forall n: Name :: After(Dir(s), k, Used(name, i), n) == if n == name then Some(i) else Find(Dir(s), n);
  }

  lemma InvSays(s: State)
    requires Inv(s)
    ensures Layout(s) && System(s) && OnDisk(s.inodes[ROOT_DIR_SECTOR], |s.disk|) && Unique(Dir(s))
    ensures forall i :: i in s.inodes ==> OnDisk(s.inodes[i], |s.disk|)
  {
  }

  lemma NotNamed(d: seq<Slot>, name: Name)
    requires FindFrom(d, name, 0) == None
    ensures Find(d, name) == None
  {
  }

  /** What a name stands for once slot k holds x. */
  function After(d: seq<Slot>, k: nat, x: Slot, n: Name): (r: Option<nat>)
    requires k < |d|
  {
    if x.Used? && n == x.name then Some(x.sector) else if d[k].Used? && n == d[k].name then None else Find(d, n)
  }

  lemma NamesAfter(d: seq<Slot>, k: nat, x: Slot)
    requires k < |d| && Unique(d) && Unique(d[k := x]) && x.Used? != d[k].Used?
    ensures forall n: Name :: Find(d[k := x], n) == After(d, k, x, n)
  {
    hide Unique, Find;
    forall n: Name
      ensures Find(d[k := x], n) == After(d, k, x, n)
    {
      FindAfter(d, k, x, n);
    }
  }

  function Reopened(t: map<nat, Open>, i: nat, e: Extent): (u: map<nat, Open>)
    ensures i in u && forall j :: j in t ==> j in u
  {
    if i in t then t[i := t[i].(cnt := t[i].cnt + 1)] else t[i := Open(e, 1, false)]
  }

  function Released(t: map<nat, Open>, i: nat): (u: map<nat, Open>)
    requires i in t && t[i].cnt > 0
  {
    if t[i].cnt > 1 then t[i := t[i].(cnt := t[i].cnt - 1)] else t - {i}
  }

  predicate LastOfRemoved(t: map<nat, Open>, i: nat) { i in t && t[i].cnt == 1 && t[i].removed }

  lemma OpenedOk(s: State, i: nat)
    requires Inv(s) && i in s.inodes
    ensures i < |s.disk| && InodeAt(s.disk[i]) == s.inodes[i]
    ensures var r := s.(table := Reopened(s.table, i, s.inodes[i])); Inv(r) && Dir(r) == Dir(s) && FilesKept(s, r)
  {
    hide Contents, Slots, InodeAt;
    var r := s.(table := Reopened(s.table, i, s.inodes[i]));
    assert forall j :: Gone(r, j) == Gone(s, j);
    TableChanged(s, r);
  }

  lemma ReleasedOk(s: State, i: nat)
    requires Inv(s) && i in s.table && i != FREE_MAP_SECTOR
    ensures s.table[i].cnt > 0 && i in s.inodes && s.table[i].extent == s.inodes[i]
    ensures var r := s.(table := Released(s.table, i)); !LastOfRemoved(s.table, i) ==> Inv(r) && Dir(r) == Dir(s)
  {
    hide Contents, Slots, InodeAt;
    var r := s.(table := Released(s.table, i));
    if !LastOfRemoved(s.table, i) {
      assert forall j :: Gone(r, j) == Gone(s, j);
      TableChanged(s, r);
    }
  }

  /** The inode is gone: its sectors are free again and no other mark, name or file has changed. */
  ghost predicate Dropped(s: State, r: State, i: nat)
  {
    && Inv(s) && Inv(r) && i in s.inodes && i > 1 && r.inodes == s.inodes - {i} && r.table == s.table - {i} && |r.bits| == |s.bits|
    && (forall x :: 0 <= x < |s.bits| ==> r.bits[x] == (s.bits[x] && !Owns(s.inodes[i], i, x)))
    && forall j :: j in r.inodes && j > 1 ==> Data(r, j) == Data(s, j)
  }

  lemma DroppedOk(s: State, q: State, i: nat)
    requires Inv(s) && Gone(s, i) && q == s.(table := s.table - {i}, inodes := s.inodes - {i})
    ensures Inv(q) && Dir(q) == Dir(s) && i < |s.disk| && i in s.inodes
    ensures AllAre(q.bits, i, 1, true) && forall x :: i <= x < i + 1 ==> Unowned(q, x)
  {
    hide Contents, Slots, InodeAt, OnDisk, DataSector;
    InodeDropped(s, i);
    assert Owns(s.inodes[i], i, i);
  }

  lemma StillMarked(s: State, q: State, w: State, i: nat)
    requires Inv(s) && Gone(s, i) && q == s.(table := s.table - {i}, inodes := s.inodes - {i}) && Remarked(q, w, i, 1, false)
    ensures i in s.inodes
    ensures var e, n := s.inodes[i], BytesToSectors(s.inodes[i].length);
      && e.start + n <= |w.disk| && |w.bits| == |w.disk| && AllAre(w.bits, e.start, n, true)
      && forall x :: e.start <= x < e.start + n ==> Unowned(w, x)
  {
    hide Contents, Slots, InodeAt;
    InodeDropped(s, i);
    var e := s.inodes[i];
    assert Placed(i, e, |s.disk|);
    forall x | e.start <= x < e.start + BytesToSectors(e.length)
      ensures Unowned(w, x) && w.bits[x]
    {
      assert Owns(e, i, x);
    }
  }

  lemma NowDropped(s: State, q: State, w: State, r: State, i: nat)
    requires Inv(s) && Gone(s, i) && q == s.(table := s.table - {i}, inodes := s.inodes - {i}) && i in s.inodes
    requires Remarked(q, w, i, 1, false) && Remarked(w, r, s.inodes[i].start, BytesToSectors(s.inodes[i].length), false)
    ensures Dropped(s, r, i) && Dir(r) == Dir(s)
  {
    hide Contents, Slots, InodeAt;
    InodeDropped(s, i);
    QuietBoth(q, w, r);
  }

  // ---------------------------------------------------------------- formatting and mounting

  /** The table of open inodes with the free map's file in it and nothing else. */
  function JustOpen(s: State): (t: map<nat, Open>)
  {
    if FREE_MAP_SECTOR in s.inodes then map[FREE_MAP_SECTOR := Open(s.inodes[FREE_MAP_SECTOR], 1, false)] else map[]
  }

  lemma Reopenable(s: State)
    requires Inv(s) && s.table.Keys == {FREE_MAP_SECTOR}
    ensures Inv(s.(table := JustOpen(s))) && |s.bits| == |s.disk|
  {
    hide Contents, Slots, InodeAt, Decoded, ElemCnt;
    var r := s.(table := JustOpen(s));
    assert forall i :: Gone(r, i) == Gone(s, i);
    TableChanged(s, r);
  }

  lemma MapSays(s: State)
    requires Inv(s)
    ensures FREE_MAP_SECTOR in s.inodes && |s.disk| == |s.bits| > 0 && InodeAt(s.disk[FREE_MAP_SECTOR]) == s.inodes[FREE_MAP_SECTOR]
    ensures var e := s.inodes[FREE_MAP_SECTOR];
      && OnDisk(e, |s.disk|) && e.length == 4 * ElemCnt(|s.bits|)
      && Decoded(Contents(s.disk, e), |s.bits|) == s.bits
  {
    hide Contents, Slots, InodeAt, Decoded;
  }

  lemma MapIsSmall(n: nat)
    requires 0 < n < BASE
    ensures 0 < 4 * ElemCnt(n) < BASE && BytesToSectors(4 * ElemCnt(n)) > 0
  {
  }

  /** With the two system sectors marked, the first free group starts right after them. */
  lemma FirstAfterSystem(b: seq<bool>, cnt: nat)
    requires 0 < cnt && cnt + 3 <= |b| && b[0] && b[1] && forall x :: 2 <= x < |b| ==> !b[x]
    ensures FirstFit(b, 0, cnt, false) == Some(2)
  {
    FirstFitIsLowest(b, 0, cnt, false);
    assert Fits(b, 2, cnt, false);
    assert !AllAre(b, 0, cnt, false) && !AllAre(b, 1, cnt, false);
  }

  lemma OneMoreFree(b: seq<bool>, c: seq<bool>, cnt: nat)
    requires cnt + 3 <= |b| && (forall x :: 2 <= x < |b| ==> !b[x]) && c == SetRange(b, 2, cnt, true)
    ensures FirstFit(c, 0, 1, false) != None
  {
    FirstFitIsLowest(c, 0, 1, false);
    assert Fits(c, 2 + cnt, 1, false);
  }

  /** A file system just formatted: no names, and exactly the system's sectors marked. */
  ghost predicate Fresh(s: State)
  {
    && Inv(s) && s.inodes.Keys == {FREE_MAP_SECTOR, ROOT_DIR_SECTOR} && s.table.Keys == {FREE_MAP_SECTOR}
    && (forall n: Name :: Find(Dir(s), n) == None)
    && forall x: nat :: x < |s.bits| ==> (s.bits[x] <==> !Unowned(s, x))
  }

  lemma Formatted(s: State, b: seq<bool>, c: seq<bool>, e: Extent, f: Extent)
    requires |s.disk| == |b| == |s.bits| && e.start == 2 && e.length == 4 * ElemCnt(|b|) && OnDisk(e, |b|) && b[0] && b[1]
    requires (forall x :: 2 <= x < |b| ==> !b[x]) && 2 + BytesToSectors(e.length) <= |b| && c == SetRange(b, 2, BytesToSectors(e.length), true)
    requires f.length == DIR_BYTES && f.start < |c| && !c[f.start] && s.bits == SetRange(c, f.start, 1, true)
    requires Decoded(Contents(s.disk, e), |b|) == s.bits && InodeAt(s.disk[0]) == e && InodeAt(s.disk[1]) == f && s.disk[f.start] == ZEROS
    requires s.inodes == map[FREE_MAP_SECTOR := e, ROOT_DIR_SECTOR := f] && s.table == map[FREE_MAP_SECTOR := Open(e, 1, false)]
    ensures Fresh(s) && Inv(s)
  {
    hide Contents, Slots, InodeAt, BytesToSectors, Find, Decoded, ElemCnt;
    FormattedLayout(s, b, c, e, f);
    OneSector();
    EmptyRoot(s, f);
  }

  lemma FormattedLayout(s: State, b: seq<bool>, c: seq<bool>, e: Extent, f: Extent)
    requires |s.disk| == |b| == |s.bits| && e.start == 2 && OnDisk(e, |b|) && b[0] && b[1]
    requires (forall x :: 2 <= x < |b| ==> !b[x]) && 2 + BytesToSectors(e.length) <= |b| && c == SetRange(b, 2, BytesToSectors(e.length), true)
    requires f.length == DIR_BYTES && f.start < |c| && !c[f.start] && s.bits == SetRange(c, f.start, 1, true)
    requires s.inodes == map[FREE_MAP_SECTOR := e, ROOT_DIR_SECTOR := f]
    ensures Layout(s) && forall x: nat :: x < |s.bits| ==> (s.bits[x] <==> !Unowned(s, x))
  {
    hide BytesToSectors;
    OneSector();
    forall i: nat, x: nat
      ensures Has(s.inodes, i, x) <==> (i == 0 && (x == 0 || 2 <= x < 2 + BytesToSectors(e.length))) || (i == 1 && (x == 1 || x == f.start))
    {
    }
    forall x: nat | x < |s.bits|
      ensures s.bits[x] <==> !Unowned(s, x)
    {
      if s.bits[x] { assert Has(s.inodes, 0, x) || Has(s.inodes, 1, x); }
    }
  }

  lemma OneSector()
    ensures BytesToSectors(DIR_BYTES) == 1
  {
  }

  lemma EmptyRoot(s: State, f: Extent)
    requires ROOT_DIR_SECTOR in s.inodes && s.inodes[ROOT_DIR_SECTOR] == f && f.length == DIR_BYTES && OnDisk(f, |s.disk|) && s.disk[f.start] == ZEROS
    ensures (forall k :: 0 <= k < ENTRIES ==> Dir(s)[k] == Free) && forall n: Name :: Find(Dir(s), n) == None
  {
    OneSector();
    ZeroFile(s.disk, f);
    forall n: Name
      ensures Find(Dir(s), n) == None
    {
      FoundThere(Dir(s), n, 0);
    }
  }

  lemma RootExtent(s: State)
    requires Inv(s)
    ensures ROOT_DIR_SECTOR in s.inodes && s.inodes[ROOT_DIR_SECTOR].length == DIR_BYTES && OnDisk(s.inodes[ROOT_DIR_SECTOR], |s.disk|)
    ensures ROOT_DIR_SECTOR in s.table ==> s.table[ROOT_DIR_SECTOR].extent == s.inodes[ROOT_DIR_SECTOR]
  {
  }

  lemma RawQuiet(s: State, x: nat, b: Sector)
    requires Inv(s) && x < |s.disk| && Unowned(s, x)
    ensures Quiet(s, s.(disk := s.disk[x := b])) && Inv(s.(disk := s.disk[x := b]))
  {
    hide Contents, Slots;
    FreshWritten(s, x, b);
  }

  lemma MarkedApart(s: State, r: State, start: nat, cnt: nat, sector: nat)
    requires Remarked(s, r, start, cnt, true) && AllAre(s.bits, start, cnt, false) && sector < |s.bits| && s.bits[sector]
    ensures Quiet(s, r) && !(start <= sector < start + cnt) && r.bits[sector] && |r.bits| == |r.disk|
    ensures forall x :: start <= x < start + cnt ==> r.bits[x]
  {
    hide Contents, Slots, DirOk, NoneForgotten, Stored;
  }

  lemma NowPrepared(s: State, sector: nat, e: Extent)
    requires |s.bits| == |s.disk| && 1 < sector < |s.disk| && sector !in s.inodes && InodeAt(s.disk[sector]) == e && OnDisk(e, |s.disk|)
    requires !DataSector(e, sector) && Unowned(s, sector) && s.bits[sector]
    requires forall x: nat :: DataSector(e, x) ==> Unowned(s, x) && x < |s.bits| && s.bits[x]
    ensures Prepared(s, sector, e)
  {
  }

  lemma UnownedIsNoInode(s: State, x: nat)
    requires Unowned(s, x)
    ensures x !in s.inodes
  {
    assert !Has(s.inodes, x, x);
  }

  lemma FreeGroup(s: State, start: nat, cnt: nat)
    requires Inv(s) && Fits(s.bits, start, cnt, false)
    ensures forall x :: start <= x < start + cnt ==> Unowned(s, x)
  {
    hide Contents;
    forall x | start <= x < start + cnt
      ensures Unowned(s, x)
    {
      FreeIsUnowned(s, x);
    }
  }

  lemma SameOwners(s: State, r: State)
    requires r.inodes == s.inodes
    ensures forall x: nat :: Unowned(s, x) == Unowned(r, x)
  {
  }

  lemma MapExtent(s: State)
    requires Inv(s)
    ensures FREE_MAP_SECTOR in s.inodes && FREE_MAP_SECTOR in s.table
    ensures OnDisk(s.inodes[FREE_MAP_SECTOR], |s.disk|) && s.table[FREE_MAP_SECTOR].extent == s.inodes[FREE_MAP_SECTOR]
    ensures s.inodes[FREE_MAP_SECTOR].length == 4 * ElemCnt(|s.bits|)
  {
  }

  lemma RemarkedNow(s: State, r: State, start: nat, cnt: nat, value: bool)
    requires Inv(s) && Inv(r) && start + cnt <= |s.bits| && r.bits == SetRange(s.bits, start, cnt, value)
    requires r.inodes == s.inodes && r.table == s.table && |r.disk| == |s.disk| && Dir(r) == Dir(s)
    requires forall i :: i in s.inodes && i != FREE_MAP_SECTOR ==> Data(r, i) == Data(s, i)
    ensures Remarked(s, r, start, cnt, value)
  {
    hide Contents, Slots;
  }
}

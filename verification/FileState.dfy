/** The state of the file system of filesys/: the disk, the free map in memory and in its file, the table of open
    inodes, and which inodes exist.  An inode is named by the sector that holds it. */
module FileState {
  import opened Bytes
  import opened Options
  import opened InodeIO
  import opened Directory
  import opened Bitmaps

  const FREE_MAP_SECTOR := 0
  const ROOT_DIR_SECTOR := 1

  /** An open inode: its extent as read from disk, how many have it open, and whether it is to be deleted. */
  datatype Open = Open(extent: Extent, cnt: nat, removed: bool)

  /** bits is the free map in memory; inodes holds the system's inodes, those with a name and those removed but still
      open. */
  datatype State = State(disk: seq<Sector>, bits: seq<bool>, table: map<nat, Open>, inodes: map<nat, Extent>)

  predicate DataSector(e: Extent, x: nat) { e.start <= x < e.start + BytesToSectors(e.length) }

  /** The sectors of an inode: its own and its data's. */
  predicate Owns(e: Extent, i: nat, x: nat) { x == i || DataSector(e, x) }

  predicate Has(inodes: map<nat, Extent>, i: nat, x: nat) { i in inodes && Owns(inodes[i], i, x) }

  predicate Placed(i: nat, e: Extent, n: nat) { i < n && OnDisk(e, n) && !DataSector(e, i) }

  /** Every inode's sectors are on the disk and marked used, and no two inodes share one. */
  ghost predicate Layout(s: State)
  {
    && |s.bits| == |s.disk|
    && (forall i :: i in s.inodes ==> Placed(i, s.inodes[i], |s.disk|))
    && (forall i: nat, x: nat :: Has(s.inodes, i, x) ==> x < |s.bits| && s.bits[x])
    && forall i: nat, j: nat, x: nat :: Has(s.inodes, i, x) && Has(s.inodes, j, x) ==> i == j
  }

  /** struct inode_disk: the first data sector and the length. */
  function InodeAt(b: Sector): (e: Extent)
  {
    Extent(WordOf(b[0], b[1], b[2], b[3]), WordOf(b[4], b[5], b[6], b[7]))
  }

  ghost predicate Stored(s: State)
  {
    forall i :: i in s.inodes ==> i < |s.disk| && InodeAt(s.disk[i]) == s.inodes[i]
  }

  predicate System(s: State)
  {
    && FREE_MAP_SECTOR in s.inodes && s.inodes[FREE_MAP_SECTOR].length == 4 * ElemCnt(|s.bits|)
    && ROOT_DIR_SECTOR in s.inodes && s.inodes[ROOT_DIR_SECTOR].length == DIR_BYTES
    && FREE_MAP_SECTOR in s.table && !s.table[FREE_MAP_SECTOR].removed
    && (ROOT_DIR_SECTOR in s.table ==> !s.table[ROOT_DIR_SECTOR].removed)
  }

  ghost predicate OpenOk(s: State)
  {
    forall i :: i in s.table ==> i in s.inodes && s.table[i].extent == s.inodes[i] && s.table[i].cnt > 0
  }

  /** The bytes of an inode. */
  function Data(s: State, i: nat): (c: seq<Byte>)
    requires i in s.inodes && OnDisk(s.inodes[i], |s.disk|)
  {
    Contents(s.disk, s.inodes[i])
  }

  function Dir(s: State): (d: seq<Slot>)
    requires ROOT_DIR_SECTOR in s.inodes && s.inodes[ROOT_DIR_SECTOR].length == DIR_BYTES && OnDisk(s.inodes[ROOT_DIR_SECTOR], |s.disk|)
  {
    Slots(Data(s, ROOT_DIR_SECTOR))
  }

  predicate Gone(s: State, i: nat) { i in s.table && s.table[i].removed }

  predicate EntryOk(s: State, e: Slot)
  {
    e.Used? ==> NameOk(e.name) && e.sector > 1 && e.sector in s.inodes && !Gone(s, e.sector)
  }

  ghost predicate DirOk(s: State, d: seq<Slot>)
  {
    Unique(d) && forall k :: 0 <= k < |d| ==> EntryOk(s, d[k])
  }

  /** An inode exists only as long as it is the system's, has a name, or is removed but open. */
  ghost predicate NoneForgotten(s: State, d: seq<Slot>)
  {
    forall i :: i in s.inodes && i > 1 ==> Lists(d, i) || Gone(s, i)
  }

  /** The free map's file holds the free map. */
  predicate MapFile(s: State)
    requires FREE_MAP_SECTOR in s.inodes && OnDisk(s.inodes[FREE_MAP_SECTOR], |s.disk|)
    requires s.inodes[FREE_MAP_SECTOR].length == 4 * ElemCnt(|s.bits|)
  {
    Decoded(Data(s, FREE_MAP_SECTOR), |s.bits|) == s.bits
  }

  ghost predicate Base(s: State) { Layout(s) && Stored(s) && System(s) && OpenOk(s) }

  ghost predicate Inv(s: State)
  {
    Base(s) && DirOk(s, Dir(s)) && NoneForgotten(s, Dir(s)) && MapFile(s)
  }

  // ---------------------------------------------------------------- changes to the disk

  /** Contents depend on the extent's sectors only. */
  lemma SameSectors(d: seq<Sector>, g: seq<Sector>, e: Extent)
    requires |d| == |g| && OnDisk(e, |d|) && forall x: nat :: DataSector(e, x) ==> d[x] == g[x]
    ensures Contents(d, e) == Contents(g, e)
  {
    var b := InodeIO.Base(e);
    forall p | b <= p < b + e.length
      ensures Flat(d)[p] == Flat(g)[p]
    {
      FlatAt(d, p);
      FlatAt(g, p);
      assert DataSector(e, p / BLOCK_SECTOR_SIZE);
    }
  }

  /** g differs from the disk in data sectors of inode w, or in sectors that belong to no inode. */
  ghost predicate OnlyIn(s: State, g: seq<Sector>, w: nat)
  {
    && |g| == |s.disk|
    && forall i: nat, x: nat :: Has(s.inodes, i, x) && x < |g| && g[x] != s.disk[x] ==> i == w && DataSector(s.inodes[i], x)
  }

  lemma OthersKept(s: State, g: seq<Sector>, w: nat)
    requires Layout(s) && Stored(s) && OnlyIn(s, g, w)
    ensures Layout(s.(disk := g)) && Stored(s.(disk := g))
    ensures forall i :: i in s.inodes && i != w ==> Data(s.(disk := g), i) == Data(s, i)
  {
    hide Contents, Flat, InodeAt, OnDisk, DataSector;
    forall i | i in s.inodes
      ensures InodeAt(g[i]) == s.inodes[i]
    {
      OwnSectorKept(s, g, w, i);
    }
    forall i | i in s.inodes && i != w
      ensures Data(s.(disk := g), i) == Data(s, i)
    {
      DataKept(s, g, w, i);
    }
  }

  lemma OwnSectorKept(s: State, g: seq<Sector>, w: nat, i: nat)
    requires Layout(s) && OnlyIn(s, g, w) && i in s.inodes
    ensures i < |g| && g[i] == s.disk[i]
  {
    assert Placed(i, s.inodes[i], |s.disk|);
    assert Has(s.inodes, i, i);
  }

  lemma DataKept(s: State, g: seq<Sector>, w: nat, i: nat)
    requires Layout(s) && OnlyIn(s, g, w) && i in s.inodes && i != w
    ensures OnDisk(s.inodes[i], |s.disk|) && Contents(g, s.inodes[i]) == Data(s, i)
  {
    hide Contents, Flat;
    assert Placed(i, s.inodes[i], |s.disk|);
    forall x: nat | DataSector(s.inodes[i], x)
      ensures g[x] == s.disk[x]
    {
      assert Has(s.inodes, i, x);
    }
    SameSectors(s.disk, g, s.inodes[i]);
  }

  /** A write through an inode stays in its data sectors. */
  lemma WriteIsOnlyIn(s: State, g: seq<Sector>, w: nat, offset: nat, d: seq<Byte>)
    requires Layout(s) && w in s.inodes && |g| == |s.disk| && (d == [] || offset + |d| <= s.inodes[w].length)
    requires Flat(g) == Overwrite(s.disk, s.inodes[w], offset, d)
    ensures OnlyIn(s, g, w) && Contents(g, s.inodes[w]) == Patch(Data(s, w), offset, d)
  {
    hide Flat, Overwrite, Contents;
    var e := s.inodes[w];
    WriteIsOverwrite(s.disk, g, e, offset, d);
    WriteStaysInside(s.disk, g, e, offset, d);
    forall i: nat, x: nat | Has(s.inodes, i, x) && x < |g| && g[x] != s.disk[x]
      ensures i == w && DataSector(s.inodes[i], x)
    {
      assert DataSector(e, x);
      assert Has(s.inodes, w, x);
    }
  }

  // ---------------------------------------------------------------- the steps operations are made of

  /** No inode has this sector. */
  ghost predicate Unowned(s: State, x: nat) { forall i: nat :: !Has(s.inodes, i, x) }

  lemma FreeIsUnowned(s: State, x: nat)
    requires Layout(s) && x < |s.bits| && !s.bits[x]
    ensures Unowned(s, x)
  {
  }

  /** Bits of sectors that no inode has may change, if the map's file is rewritten to match. */
  lemma BitsChanged(s: State, g: seq<Sector>, start: nat, cnt: nat, value: bool, image: seq<Byte>)
    requires Inv(s) && start + cnt <= |s.bits| && |image| == 4 * ElemCnt(|s.bits|) && |g| == |s.disk|
    requires Decoded(image, |s.bits|) == SetRange(s.bits, start, cnt, value)
    requires forall x :: start <= x < start + cnt ==> Unowned(s, x)
    requires Flat(g) == Overwrite(s.disk, s.inodes[FREE_MAP_SECTOR], 0, image)
    ensures var r := s.(disk := g, bits := SetRange(s.bits, start, cnt, value));
      && Inv(r) && Dir(r) == Dir(s)
      && forall i :: i in s.inodes && i != FREE_MAP_SECTOR ==> Data(r, i) == Data(s, i)
  {
    hide Flat, Overwrite, Contents, Slots, DirOk, NoneForgotten, InodeAt, OnDisk, BytesToSectors, DataSector, Decoded, ElemCnt;
    var r := s.(disk := g, bits := SetRange(s.bits, start, cnt, value));
    WriteIsOnlyIn(s, g, FREE_MAP_SECTOR, 0, image);
    OthersKept(s, g, FREE_MAP_SECTOR);
    PatchAll(Data(s, FREE_MAP_SECTOR), image);
    SameDirOk(s, r, Dir(s));
    LayoutOfBits(s, s.(disk := g), r, start, cnt, value);
    assert Base(r) && Data(r, FREE_MAP_SECTOR) == image;
  }

  lemma LayoutOfBits(s: State, q: State, r: State, start: nat, cnt: nat, value: bool)
    requires Layout(q) && start + cnt <= |q.bits| && q.inodes == s.inodes
    requires forall x :: start <= x < start + cnt ==> Unowned(s, x)
    requires r == q.(bits := SetRange(q.bits, start, cnt, value))
    ensures Layout(r)
  {
    hide DataSector, OnDisk;
    forall i: nat, x: nat | Has(r.inodes, i, x)
      ensures x < |r.bits| && r.bits[x]
    {
      assert start <= x < start + cnt ==> Unowned(s, x);
    }
  }

  lemma SameDirOk(s: State, r: State, d: seq<Slot>)
    requires DirOk(s, d) && NoneForgotten(s, d) && r.inodes == s.inodes && r.table == s.table
    ensures DirOk(r, d) && NoneForgotten(r, d)
  {
    assert forall k :: 0 <= k < |d| ==> EntryOk(r, d[k]) == EntryOk(s, d[k]);
    assert forall i :: Gone(r, i) == Gone(s, i);
  }

  /** A sector that no inode has may be overwritten. */
  lemma FreshWritten(s: State, x: nat, b: Sector)
    requires Inv(s) && x < |s.disk| && Unowned(s, x)
    ensures var r := s.(disk := s.disk[x := b]);
      Inv(r) && Dir(r) == Dir(s) && forall i :: i in s.inodes ==> Data(r, i) == Data(s, i)
  {
    hide Contents, Slots, DirOk, NoneForgotten, InodeAt, OnDisk, BytesToSectors, DataSector;
    var r := s.(disk := s.disk[x := b]);
    var nobody: nat :| nobody !in s.inodes by { SomeoneElse(s.inodes.Keys); }
    OthersKept(s, r.disk, nobody);
    SameDirOk(s, r, Dir(s));
  }

  lemma {:induction false} SomeoneElse(u: set<nat>)
    ensures exists n: nat :: n !in u
  {
    var n := Above(u);
    assert n !in u;
  }

  lemma {:induction false} Above(u: set<nat>) returns (n: nat)
    ensures forall x :: x in u ==> x < n
    decreases |u|
  {
    n := 0;
    if x :| x in u {
      n := Above(u - {x});
      assert forall y :: y in u ==> y == x || y in u - {x};
      n := if n <= x then x + 1 else n;
    }
  }

  /** A file's bytes change; nothing else does. */
  lemma DataWritten(s: State, g: seq<Sector>, w: nat, offset: nat, d: seq<Byte>)
    requires Inv(s) && w in s.inodes && w > 1 && |g| == |s.disk| && (d == [] || offset + |d| <= s.inodes[w].length)
    requires Flat(g) == Overwrite(s.disk, s.inodes[w], offset, d)
    ensures var r := s.(disk := g);
      && Inv(r) && Dir(r) == Dir(s) && Data(r, w) == Patch(Data(s, w), offset, d)
      && forall i :: i in s.inodes && i != w ==> Data(r, i) == Data(s, i)
  {
    hide Flat, Overwrite, Contents, Slots, DirOk, NoneForgotten, InodeAt, OnDisk, BytesToSectors, DataSector;
    WriteIsOnlyIn(s, g, w, offset, d);
    OthersKept(s, g, w);
    SameDirOk(s, s.(disk := g), Dir(s));
  }

  /** The inode is set up on disk in sectors that are marked but belong to none yet. */
  ghost predicate Prepared(s: State, i: nat, e: Extent)
  {
    && i > 1 && i !in s.inodes && Placed(i, e, |s.disk|) && InodeAt(s.disk[i]) == e && |s.bits| == |s.disk|
    && forall x: nat :: Owns(e, i, x) ==> Unowned(s, x) && x < |s.bits| && s.bits[x]
  }

  lemma StillPrepared(s: State, g: seq<Sector>, w: nat, offset: nat, d: seq<Byte>, i: nat, e: Extent)
    requires Layout(s) && Prepared(s, i, e) && w in s.inodes && |g| == |s.disk| && (d == [] || offset + |d| <= s.inodes[w].length)
    requires Flat(g) == Overwrite(s.disk, s.inodes[w], offset, d)
    ensures Prepared(s.(disk := g), i, e) && Contents(g, e) == Contents(s.disk, e)
  {
    hide Flat, Overwrite, Contents, InodeAt;
    WriteStaysInside(s.disk, g, s.inodes[w], offset, d);
    forall x: nat | Owns(e, i, x)
      ensures x < |g| && g[x] == s.disk[x]
    {
      assert Unowned(s, x);
      assert !Has(s.inodes, w, x);
    }
    assert Owns(e, i, i);
    assert forall x: nat :: DataSector(e, x) ==> Owns(e, i, x);
    SameSectors(s.disk, g, e);
    assert forall x: nat :: Unowned(s.(disk := g), x) == Unowned(s, x);
  }

  lemma LayoutAdded(s: State, i: nat, e: Extent)
    requires Layout(s) && Stored(s) && Prepared(s, i, e)
    ensures Layout(s.(inodes := s.inodes[i := e])) && Stored(s.(inodes := s.inodes[i := e]))
  {
    hide DataSector, OnDisk, InodeAt;
    var r := s.(inodes := s.inodes[i := e]);
    forall a: nat, b: nat, x: nat | Has(r.inodes, a, x) && Has(r.inodes, b, x)
      ensures a == b
    {
      assert Has(r.inodes, a, x) == if a == i then Owns(e, i, x) else Has(s.inodes, a, x);
      assert Has(r.inodes, b, x) == if b == i then Owns(e, i, x) else Has(s.inodes, b, x);
      assert Owns(e, i, x) ==> Unowned(s, x);
    }
    forall a: nat, x: nat | Has(r.inodes, a, x)
      ensures x < |r.bits| && r.bits[x]
    {
      assert Has(r.inodes, a, x) == if a == i then Owns(e, i, x) else Has(s.inodes, a, x);
    }
  }

  /** dir_add: the new inode gets its name in a free slot. */
  lemma NameAdded(s: State, g: seq<Sector>, k: nat, entry: seq<Byte>, name: Name, i: nat, e: Extent)
    requires Inv(s) && k < ENTRIES && Dir(s)[k].Free? && |entry| == ENTRY_SIZE && SlotOf(entry) == Used(name, i)
    requires NameOk(name) && Find(Dir(s), name) == None && Prepared(s, i, e) && |g| == |s.disk|
    requires Flat(g) == Overwrite(s.disk, s.inodes[ROOT_DIR_SECTOR], ENTRY_SIZE * k, entry)
    ensures var r := s.(disk := g, inodes := s.inodes[i := e]);
      && Inv(r) && Dir(r) == Dir(s)[k := Used(name, i)] && Data(r, i) == Contents(s.disk, e)
      && forall j :: j in s.inodes && j != ROOT_DIR_SECTOR ==> Data(r, j) == Data(s, j)
  {
    hide Flat, Overwrite, Contents, Slots, Prepared, Layout, Stored, DirOk, NoneForgotten, Find;
    var q, r := s.(disk := g), s.(disk := g, inodes := s.inodes[i := e]);
    LayoutSays(s);
    NotAnInode(s, i, e);
    WriteIsOnlyIn(s, g, ROOT_DIR_SECTOR, ENTRY_SIZE * k, entry);
    OthersKept(s, g, ROOT_DIR_SECTOR);
    StillPrepared(s, g, ROOT_DIR_SECTOR, ENTRY_SIZE * k, entry, i, e);
    LayoutAdded(q, i, e);
    LayoutSays(r);
    SlotWritten(Data(s, ROOT_DIR_SECTOR), k, entry);
    NewNameOk(s, r, Dir(s), k, name, i);
    assert Base(r);
    assert Dir(r) == Dir(s)[k := Used(name, i)];
    assert Data(r, FREE_MAP_SECTOR) == Data(s, FREE_MAP_SECTOR);
  }

  lemma LayoutSays(s: State)
    requires Layout(s)
    ensures forall i :: i in s.inodes ==> OnDisk(s.inodes[i], |s.disk|)
  {
  }

  lemma NotAnInode(s: State, i: nat, e: Extent)
    requires Prepared(s, i, e)
    ensures i !in s.inodes && i > 1
  {
  }

  lemma NewNameOk(s: State, r: State, d: seq<Slot>, k: nat, name: Name, i: nat)
    requires DirOk(s, d) && NoneForgotten(s, d) && OpenOk(s) && k < |d| && d[k].Free? && i > 1 && i !in s.inodes
    requires NameOk(name) && Find(d, name) == None && r.table == s.table && r.inodes.Keys == s.inodes.Keys + {i}
    ensures DirOk(r, d[k := Used(name, i)]) && NoneForgotten(r, d[k := Used(name, i)])
  {
    var t := d[k := Used(name, i)];
    FindNone(d, name);
    assert forall j :: 0 <= j < |d| ==> EntryOk(s, d[j]);
    forall j | j in r.inodes && j > 1
      ensures Lists(t, j) || Gone(r, j)
    {
      if j == i {
        assert t[k].Used? && t[k].sector == i;
      } else if Lists(d, j) {
        var m :| 0 <= m < |d| && d[m].Used? && d[m].sector == j;
        assert t[m] == d[m];
      }
    }
  }

  /** dir_remove: the name goes and the inode, which is open, is marked for deletion. */
  lemma NameErased(s: State, g: seq<Sector>, k: nat, entry: seq<Byte>, i: nat)
    requires Inv(s) && k < ENTRIES && Dir(s)[k].Used? && Dir(s)[k].sector == i && i in s.table
    requires |entry| == ENTRY_SIZE && SlotOf(entry) == Free && |g| == |s.disk|
    requires Flat(g) == Overwrite(s.disk, s.inodes[ROOT_DIR_SECTOR], ENTRY_SIZE * k, entry)
    ensures var r := s.(disk := g, table := s.table[i := s.table[i].(removed := true)]);
      && Inv(r) && Dir(r) == Dir(s)[k := Free]
      && forall j :: j in s.inodes && j != ROOT_DIR_SECTOR ==> Data(r, j) == Data(s, j)
  {
    hide Flat, Overwrite, Contents, Slots, Layout, Stored, DirOk, NoneForgotten;
    var r := s.(disk := g, table := s.table[i := s.table[i].(removed := true)]);
    LayoutSays(s);
    WriteIsOnlyIn(s, g, ROOT_DIR_SECTOR, ENTRY_SIZE * k, entry);
    OthersKept(s, g, ROOT_DIR_SECTOR);
    LayoutKept(s.(disk := g), r);
    LayoutSays(r);
    SlotWritten(Data(s, ROOT_DIR_SECTOR), k, entry);
    ErasedOk(s, r, Dir(s), k, i);
    assert Base(r);
    assert Dir(r) == Dir(s)[k := Free];
    assert Data(r, FREE_MAP_SECTOR) == Data(s, FREE_MAP_SECTOR);
  }

  lemma LayoutKept(s: State, r: State)
    requires Layout(s) && Stored(s) && r.disk == s.disk && r.bits == s.bits && r.inodes == s.inodes
    ensures Layout(r) && Stored(r)
  {
  }

  lemma ErasedOk(s: State, r: State, d: seq<Slot>, k: nat, i: nat)
    requires DirOk(s, d) && NoneForgotten(s, d) && k < |d| && d[k].Used? && d[k].sector == i && i in s.table
    requires r.table == s.table[i := s.table[i].(removed := true)] && r.inodes == s.inodes
    ensures DirOk(r, d[k := Free]) && NoneForgotten(r, d[k := Free]) && i > 1
  {
    var t := d[k := Free];
    assert EntryOk(s, d[k]);
    forall j | 0 <= j < |t|
      ensures EntryOk(r, t[j])
    {
      assert EntryOk(s, d[j]);
    }
    forall j | j in r.inodes && j > 1
      ensures Lists(t, j) || Gone(r, j)
    {
      if j != i && Lists(d, j) {
        var m :| 0 <= m < |d| && d[m].Used? && d[m].sector == j;
        assert t[m] == d[m];
      }
    }
  }

  /** A change to the table of open inodes that neither removes nor brings back any. */
  lemma TableChanged(s: State, r: State)
    requires Inv(s) && r == s.(table := r.table) && OpenOk(r) && FREE_MAP_SECTOR in r.table
    requires forall i :: Gone(r, i) == Gone(s, i)
    ensures Inv(r) && Dir(r) == Dir(s) && forall i :: i in s.inodes ==> Data(r, i) == Data(s, i)
  {
    hide Slots, Contents, Layout, Stored;
    LayoutKept(s, r);
    LayoutSays(s);
    var d := Dir(s);
    assert forall k :: 0 <= k < |d| ==> EntryOk(s, d[k]) ==> EntryOk(r, d[k]);
    assert !Gone(s, FREE_MAP_SECTOR) && !Gone(s, ROOT_DIR_SECTOR);
  }

  /** The last close of a removed inode: it is gone, and its sectors, still marked, are nobody's. */
  lemma InodeDropped(s: State, i: nat)
    requires Inv(s) && Gone(s, i)
    ensures i > 1 && i in s.inodes
    ensures var r := s.(table := s.table - {i}, inodes := s.inodes - {i});
      && Inv(r) && Dir(r) == Dir(s) && (forall j :: j in r.inodes ==> Data(r, j) == Data(s, j))
      && forall x: nat :: Owns(s.inodes[i], i, x) ==> Unowned(r, x) && x < |r.bits| && r.bits[x]
  {
    hide Slots, Contents, Layout, Stored, DirOk, NoneForgotten, Unowned, Owns;
    var r := s.(table := s.table - {i}, inodes := s.inodes - {i});
    assert !Gone(s, FREE_MAP_SECTOR) && !Gone(s, ROOT_DIR_SECTOR);
    LayoutSays(s);
    DroppedLayout(s, r, i);
    LayoutSays(r);
    DroppedDir(s, r, Dir(s), i);
  }

  lemma DroppedLayout(s: State, r: State, i: nat)
    requires Layout(s) && Stored(s) && i in s.inodes && r == s.(table := r.table, inodes := s.inodes - {i})
    ensures Layout(r) && Stored(r)
    ensures forall x: nat :: Owns(s.inodes[i], i, x) ==> Unowned(r, x) && x < |r.bits| && r.bits[x]
  {
    hide Owns, InodeAt;
    assert forall j: nat, x: nat :: Has(r.inodes, j, x) == (j != i && Has(s.inodes, j, x));
    forall x: nat | Owns(s.inodes[i], i, x)
      ensures Unowned(r, x) && x < |r.bits| && r.bits[x]
    {
      assert Has(s.inodes, i, x);
    }
  }

  lemma DroppedDir(s: State, r: State, d: seq<Slot>, i: nat)
    requires DirOk(s, d) && NoneForgotten(s, d) && Gone(s, i) && r.table == s.table - {i} && r.inodes == s.inodes - {i}
    ensures DirOk(r, d) && NoneForgotten(r, d)
  {
    assert forall k :: 0 <= k < |d| ==> EntryOk(s, d[k]) ==> EntryOk(r, d[k]);
    assert forall j :: j != i ==> Gone(r, j) == Gone(s, j);
  }
}

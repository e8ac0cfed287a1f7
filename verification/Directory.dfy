/** filesys/directory.c: the sixteen 20-byte entries of the root directory, as they lie in its file. */
module Directory {
  import opened Bytes
  import opened Options
  import opened InodeIO

  const ENTRY_SIZE := 20
  const ENTRIES := 16
  const DIR_BYTES := 320
  const NAME_MAX := 14

  type Name = seq<Byte>

  predicate NameOk(name: Name) { 0 < |name| <= NAME_MAX && NoNull(name) }

  datatype Slot = Free | Used(name: Name, sector: nat)

  /** An entry: the inode's sector, the name in fifteen bytes, and whether it is in use. */
  function SlotOf(e: seq<Byte>): (s: Slot)
    requires |e| == ENTRY_SIZE
  {
    if e[19] == 0 then Free else Used(UpToNull(e[4..19]), WordOf(e[0], e[1], e[2], e[3]))
  }

  function EntryAt(c: seq<Byte>, k: nat): (e: seq<Byte>)
    requires |c| == DIR_BYTES && k < ENTRIES
    ensures |e| == ENTRY_SIZE
  {
    c[ENTRY_SIZE * k..ENTRY_SIZE * k + ENTRY_SIZE]
  }

  function Slots(c: seq<Byte>): (s: seq<Slot>)
    requires |c| == DIR_BYTES
    ensures |s| == ENTRIES
  {
    seq(ENTRIES, k requires 0 <= k < ENTRIES => SlotOf(EntryAt(c, k)))
  }

  lemma SlotWritten(c: seq<Byte>, k: nat, e: seq<Byte>)
    requires |c| == DIR_BYTES && k < ENTRIES && |e| == ENTRY_SIZE
    ensures Slots(Patch(c, ENTRY_SIZE * k, e)) == Slots(c)[k := SlotOf(e)]
  {
    var d := Patch(c, ENTRY_SIZE * k, e);
    var s, t := Slots(d), Slots(c)[k := SlotOf(e)];
    forall j | 0 <= j < ENTRIES
      ensures s[j] == t[j]
    {
      if j != k { PatchBeside(c, ENTRY_SIZE * k, e, ENTRY_SIZE * j, ENTRY_SIZE * j + ENTRY_SIZE); }
      else { assert EntryAt(d, k) == e; }
    }
  }

  /** The entry dir_add writes over an old one: what strlcpy does not reach of the name stays. */
  function NewEntry(e: seq<Byte>, name: Name, sector: Word): (r: seq<Byte>)
    requires |e| == ENTRY_SIZE && NameOk(name)
    ensures |r| == ENTRY_SIZE
  {
    [ByteOf(sector, 0), ByteOf(sector, 1), ByteOf(sector, 2), ByteOf(sector, 3)] + name + [0] + e[5 + |name|..19] + [1]
  }

  /** struct dir_entry, byte by byte: the inode's sector, the name and its null, and in_use in the last byte. */
  lemma EntryLayout(e: seq<Byte>, name: Name, sector: Word)
    requires |e| == ENTRY_SIZE && NameOk(name)
    ensures var r := NewEntry(e, name, sector);
      && sector == r[0] as int + 0x100 * (r[1] as int) + 0x1_0000 * (r[2] as int) + 0x100_0000 * (r[3] as int)
      && r[4..4 + |name|] == name && r[4 + |name|] == 0 && r[19] == 1
  {
    hide ByteOf;
    WordOfItsBytes(sector);
  }

  lemma NewEntryIsUsed(e: seq<Byte>, name: Name, sector: Word)
    requires |e| == ENTRY_SIZE && NameOk(name)
    ensures SlotOf(NewEntry(e, name, sector)) == Used(name, sector)
  {
    var r := NewEntry(e, name, sector);
    hide UpToNull, ByteOf, WordOf;
    WordOfItsBytes(sector);
    assert r[4..19] == name + [0] + e[5 + |name|..19];
    StringReadsBack(name, e[5 + |name|..19]);
  }

  /** The first slot in use by that name, from the k-th on. */
  function FindFrom(s: seq<Slot>, name: Name, k: nat): (r: Option<nat>)
    requires k <= |s|
    decreases |s| - k
  {
    if k == |s| then None
    else if s[k].Used? && s[k].name == name then Some(k)
    else FindFrom(s, name, k + 1)
  }

  function FreeFrom(s: seq<Slot>, k: nat): (r: Option<nat>)
    requires k <= |s|
    decreases |s| - k
  {
    if k == |s| then None else if s[k].Free? then Some(k) else FreeFrom(s, k + 1)
  }

  /** The inode's sector that the name stands for. */
  function Find(s: seq<Slot>, name: Name): (r: Option<nat>)
  {
    match FindFrom(s, name, 0) case None => None case Some(k) => FoundThere(s, name, 0); Some(s[k].sector)
  }

  lemma {:induction false} FoundThere(s: seq<Slot>, name: Name, k: nat)
    requires k <= |s|
    ensures match FindFrom(s, name, k)
      case None => forall j :: k <= j < |s| && s[j].Used? ==> s[j].name != name
      case Some(i) => k <= i < |s| && s[i].Used? && s[i].name == name
    decreases |s| - k
  {
    if k < |s| { FoundThere(s, name, k + 1); }
  }

  lemma {:induction false} FreeThere(s: seq<Slot>, k: nat)
    requires k <= |s|
    ensures match FreeFrom(s, k) case None => forall j :: k <= j < |s| ==> s[j].Used? case Some(i) => k <= i < |s| && s[i].Free?
    decreases |s| - k
  {
    if k < |s| { FreeThere(s, k + 1); }
  }

  /** No name and no inode appears twice. */
  predicate Unique(s: seq<Slot>)
  {
    forall j, k :: 0 <= j < k < |s| && s[j].Used? && s[k].Used? ==> s[j].name != s[k].name && s[j].sector != s[k].sector
  }

  predicate Lists(s: seq<Slot>, sector: nat) { exists k :: 0 <= k < |s| && s[k].Used? && s[k].sector == sector }

  /** With unique names it does not matter where in the directory a name is. */
  lemma FindIs(s: seq<Slot>, k: nat)
    requires Unique(s) && k < |s| && s[k].Used?
    ensures Find(s, s[k].name) == Some(s[k].sector)
  {
    FoundThere(s, s[k].name, 0);
  }

  lemma FindNone(s: seq<Slot>, name: Name)
    ensures Find(s, name) == None <==> forall j :: 0 <= j < |s| && s[j].Used? ==> s[j].name != name
  {
    FoundThere(s, name, 0);
  }

  lemma FindAfter(s: seq<Slot>, k: nat, x: Slot, n: Name)
    requires k < |s| && Unique(s) && Unique(s[k := x]) && x.Used? != s[k].Used?
    ensures Find(s[k := x], n) ==
      if x.Used? && n == x.name then Some(x.sector) else if s[k].Used? && n == s[k].name then None else Find(s, n)
  {
    var t := s[k := x];
    FindNone(s, n);
    FindNone(t, n);
    assert t[k] == x;
    if j :| 0 <= j < |t| && t[j].Used? && t[j].name == n {
      FindIs(t, j);
      if j != k { FindIs(s, j); }
    } else if j :| 0 <= j < |s| && s[j].Used? && s[j].name == n {
      var u := t[j];
      assert j == k;
    }
  }
}

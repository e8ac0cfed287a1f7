/** userprog/pagedir.c and threads/pte.h: the two-level page tables that the processor walks.
    Physical memory is a map from page-frame numbers to frames; a frame holds either a table of
    1024 entries or 4096 bytes of data.  Virtual pages are named by their number, vaddr / PGSIZE. */
module PageTables {
  import opened Bytes
  import opened Machine
  import opened Options

  const ENTRIES := 1024
  /** All virtual pages, and the page-directory slots and pages below PHYS_BASE, that is 0xc0000000. */
  const PAGES := 1048576
  const USER_SLOTS := 768
  const USER_PAGES := 786432

  type PageData = s: seq<Byte> | |s| == PGSIZE witness seq(4096, _ => 0)

  datatype Frame = Table(entries: seq<nat>) | Data(bytes: PageData)

  datatype Mem = Mem(frames: map<nat, Frame>, pd: nat)

  function PdNo(vp: nat): (d: nat) { vp / ENTRIES }
  function PtNo(vp: nat): (i: nat) ensures i < ENTRIES { vp % ENTRIES }

  /** An entry: the frame's address with the flags present (1), writable (2) and user (4) below it. */
  function PdeCreate(frame: nat): (e: nat)
    ensures e != 0 && FrameOf(e) == frame && Present(e) && Writable(e) && ForUser(e)
  {
    frame * PGSIZE + 7
  }

  function PteCreateUser(frame: nat, writable: bool): (e: nat)
    ensures Present(e) && FrameOf(e) == frame && Writable(e) == writable && ForUser(e)
  {
    frame * PGSIZE + 5 + if writable then 2 else 0
  }

  function FrameOf(e: nat): (f: nat) { e / PGSIZE }
  predicate Present(e: nat) { e % 2 == 1 }
  predicate Writable(e: nat) { e / 2 % 2 == 1 }
  predicate ForUser(e: nat) { e / 4 % 2 == 1 }

  predicate IsTable(m: Mem, f: nat) { f in m.frames && m.frames[f].Table? && |m.frames[f].entries| == ENTRIES }

  function Pde(m: Mem, d: nat): (e: nat)
    requires IsTable(m, m.pd) && d < ENTRIES
  {
    m.frames[m.pd].entries[d]
  }

  /** The directory's slots, the kernel's included, lead to tables of their own. */
  predicate TablesOk(m: Mem)
  {
    && IsTable(m, m.pd)
    && (forall d :: 0 <= d < ENTRIES && Pde(m, d) != 0 ==> IsTable(m, FrameOf(Pde(m, d))) && FrameOf(Pde(m, d)) != m.pd)
    && forall d, d' :: 0 <= d < d' < ENTRIES && Pde(m, d) != 0 && Pde(m, d') != 0 ==> FrameOf(Pde(m, d)) != FrameOf(Pde(m, d'))
  }

  /** The entry for a page, or 0 when its table is missing. */
  function Pte(m: Mem, vp: nat): (e: nat)
    requires TablesOk(m) && vp < PAGES
  {
    if Pde(m, PdNo(vp)) == 0 then 0 else m.frames[FrameOf(Pde(m, PdNo(vp)))].entries[PtNo(vp)]
  }

  predicate IsData(m: Mem, f: nat) { f in m.frames && m.frames[f].Data? }

  /** Below PHYS_BASE, what is mapped is mapped for user code. */
  predicate PagesOk(m: Mem)
    requires TablesOk(m)
  {
    && (forall d :: 0 <= d < USER_SLOTS && Pde(m, d) != 0 ==> Present(Pde(m, d)) && Writable(Pde(m, d)) && ForUser(Pde(m, d)))
    && forall vp :: 0 <= vp < USER_PAGES && Present(Pte(m, vp)) ==> IsData(m, FrameOf(Pte(m, vp))) && ForUser(Pte(m, vp))
  }

  predicate Wf(m: Mem) { TablesOk(m) && PagesOk(m) }

  /** What a user program sees at a page: its bytes and whether it may write them.  The processor lets it through only if
      the entries of both levels are present and for users, and lets it write only if both allow that. */
  datatype Page = Page(bytes: PageData, writable: bool)

  function Seen(m: Mem, vp: nat): (p: Option<Page>)
    requires Wf(m) && vp < USER_PAGES
  {
    var d, e := Pde(m, PdNo(vp)), Pte(m, vp);
    if Present(d) && ForUser(d) && Present(e) && ForUser(e) then Some(Page(m.frames[FrameOf(e)].bytes, Writable(d) && Writable(e)))
    else None
  }

  /** pagedir_get_page, which looks at the present bit only, finds exactly what user code sees. */
  lemma SeenExactly(m: Mem, vp: nat)
    requires Wf(m) && vp < USER_PAGES
    ensures Seen(m, vp) != None <==> Present(Pte(m, vp))
  {
    hide Writable, ForUser, FrameOf;
  }

  /** From m to r the pages in changed, and no others, look different. */
  ghost predicate Sees(m: Mem, r: Mem, changed: map<nat, Page>)
  {
    && Wf(m) && Wf(r)
    && forall vp :: 0 <= vp < USER_PAGES ==> Seen(r, vp) == if vp in changed then Some(changed[vp]) else Seen(m, vp)
  }

  /** Every kernel page is translated as before, by the same table. */
  predicate KernelSame(m: Mem, r: Mem)
  {
    && TablesOk(m) && TablesOk(r)
    && (forall d :: USER_SLOTS <= d < ENTRIES ==> Pde(r, d) == Pde(m, d))
    && forall vp :: USER_PAGES <= vp < PAGES ==> Pte(r, vp) == Pte(m, vp)
  }

  // ---------------------------------------------------------------- the three changes

  function AddData(m: Mem, f: nat, bytes: PageData): (r: Mem) { m.(frames := m.frames[f := Data(bytes)]) }

  function Empty(): (s: seq<nat>)
    ensures |s| == ENTRIES && forall i :: 0 <= i < ENTRIES ==> s[i] == 0
  {
    seq(ENTRIES, _ => 0)
  }

  function AddTable(m: Mem, d: nat, f: nat): (r: Mem)
    requires IsTable(m, m.pd) && d < ENTRIES
  {
    m.(frames := m.frames[f := Table(Empty())][m.pd := Table(m.frames[m.pd].entries[d := PdeCreate(f)])])
  }

  function SetPte(m: Mem, t: nat, i: nat, e: nat): (r: Mem)
    requires IsTable(m, t) && i < ENTRIES
  {
    m.(frames := m.frames[t := Table(m.frames[t].entries[i := e])])
  }

  /** pagedir_create: the directory in use, copied to a frame of its own. */
  function CopyDirectory(m: Mem, f: nat): (r: Mem)
    requires IsTable(m, m.pd)
  {
    Mem(m.frames[f := m.frames[m.pd]], f)
  }

  lemma CopyDirectoryKeeps(m: Mem, f: nat)
    requires Wf(m) && f !in m.frames
    ensures Sees(m, CopyDirectory(m, f), map[]) && KernelSame(m, CopyDirectory(m, f))
  {
    hide Present, Writable, ForUser, FrameOf;
    var r := CopyDirectory(m, f);
    assert forall d :: 0 <= d < ENTRIES ==> Pde(r, d) == Pde(m, d);
    assert TablesOk(r);
    assert forall vp :: 0 <= vp < PAGES ==> Pte(r, vp) == Pte(m, vp);
  }

  lemma AddDataKeeps(m: Mem, f: nat, bytes: PageData)
    requires Wf(m) && f !in m.frames
    ensures Sees(m, AddData(m, f, bytes), map[]) && KernelSame(m, AddData(m, f, bytes))
  {
    hide Present, Writable, ForUser, FrameOf;
    var r := AddData(m, f, bytes);
    assert forall d :: 0 <= d < ENTRIES ==> Pde(r, d) == Pde(m, d);
    assert forall vp :: 0 <= vp < PAGES ==> Pte(r, vp) == Pte(m, vp);
  }

  lemma AddTableKeeps(m: Mem, d: nat, f: nat)
    requires Wf(m) && f !in m.frames && d < USER_SLOTS && Pde(m, d) == 0
    ensures Sees(m, AddTable(m, d, f), map[]) && KernelSame(m, AddTable(m, d, f))
  {
    hide Present, Writable, ForUser, FrameOf;
    var r := AddTable(m, d, f);
    assert forall x :: 0 <= x < ENTRIES ==> Pde(r, x) == if x == d then PdeCreate(f) else Pde(m, x);
    assert TablesOk(r);
    assert forall vp :: 0 <= vp < PAGES ==> Pte(r, vp) == Pte(m, vp);
  }

  /** Writing one entry of the page's own table changes what is seen at that page only. */
  lemma SetPteKeeps(m: Mem, vp: nat, f: nat, writable: bool)
    requires Wf(m) && vp < USER_PAGES && Pde(m, PdNo(vp)) != 0 && IsData(m, f)
    ensures var r := SetPte(m, FrameOf(Pde(m, PdNo(vp))), PtNo(vp), PteCreateUser(f, writable));
      Sees(m, r, map[vp := Page(m.frames[f].bytes, writable)]) && KernelSame(m, r)
  {
    hide Present, Writable, ForUser, FrameOf;
    var r := SetPte(m, FrameOf(Pde(m, PdNo(vp))), PtNo(vp), PteCreateUser(f, writable));
    assert forall x :: 0 <= x < ENTRIES ==> Pde(r, x) == Pde(m, x);
    assert TablesOk(r);
    forall x | 0 <= x < PAGES
      ensures Pte(r, x) == if x == vp then PteCreateUser(f, writable) else Pte(m, x)
    {
      if PdNo(x) == PdNo(vp) && PtNo(x) == PtNo(vp) { assert x == vp; }
    }
  }
}

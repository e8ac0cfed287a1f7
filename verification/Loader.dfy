/** userprog/process.c: loading the segments of an executable into a new address space. */
module Loader {
  import opened Bytes
  import opened Machine
  import opened Options
  import opened PageTables
  import opened Sequences

  const PHYS_BASE: nat := 0xc000_0000
  const PT_LOAD := 1

  /** An ELF program header ([ELF1] 2-2), the fields the loader uses. */
  datatype Phdr = Phdr(ptype: Word, offset: Word, vaddr: Word, filesz: Word, memsz: Word, flags: Word)

  function WordAt(file: seq<Byte>, at: nat): (w: Word)
    requires at + 4 <= |file|
  {
    WordOf(file[at], file[at + 1], file[at + 2], file[at + 3])
  }

  function PhdrAt(file: seq<Byte>, at: nat): (p: Phdr)
    requires at + 32 <= |file|
  {
    Phdr(WordAt(file, at), WordAt(file, at + 4), WordAt(file, at + 8), WordAt(file, at + 16), WordAt(file, at + 20), WordAt(file, at + 24))
  }

  /** validate_segment, with the sums of unsigned 32-bit words. */
  predicate ValidateSegment(p: Phdr, length: nat)
  {
    && p.offset % PGSIZE == p.vaddr % PGSIZE
    && !(p.offset > length)
    && !(p.memsz < p.filesz)
    && p.memsz != 0
    && p.vaddr < PHYS_BASE
    && (p.vaddr + p.memsz) % BASE < PHYS_BASE
    && !((p.vaddr + p.memsz) % BASE < p.vaddr)
    && !(p.vaddr < PGSIZE)
  }

  /** What the tests add up to: a segment that stays between page 1 and the kernel without wrapping around. */
  lemma ValidateMeans(p: Phdr, length: nat)
    ensures ValidateSegment(p, length) <==>
      && p.offset % PGSIZE == p.vaddr % PGSIZE && p.offset <= length && 0 < p.memsz && p.filesz <= p.memsz
      && PGSIZE <= p.vaddr && p.vaddr + p.memsz < PHYS_BASE
  {
  }

  function RoundUp(n: nat): (r: nat)
    ensures r % PGSIZE == 0 && n <= r < n + PGSIZE
  {
    (n + PGSIZE - 1) / PGSIZE * PGSIZE
  }

  /** How load splits a segment: its first page in file and memory, and the bytes to read and to zero. */
  function FilePage(p: Phdr): (n: nat) { p.offset - p.offset % PGSIZE }
  function FirstPage(p: Phdr): (vp: nat) { p.vaddr / PGSIZE }
  function ReadBytes(p: Phdr): (n: nat) { if p.filesz > 0 then p.vaddr % PGSIZE + p.filesz else 0 }
  function ZeroBytes(p: Phdr): (n: int) { RoundUp(p.vaddr % PGSIZE + p.memsz) - ReadBytes(p) }
  function Pages(p: Phdr): (n: nat) { RoundUp(p.vaddr % PGSIZE + p.memsz) / PGSIZE }
  predicate MayWrite(p: Phdr) { p.flags / 2 % 2 == 1 }

  /** The k-th page of a stretch whose first read bytes come from the file and whose rest is zero. */
  function PageOf(file: seq<Byte>, ofs: nat, read: nat, k: nat): (b: PageData)
  {
    seq(PGSIZE, j requires 0 <= j < PGSIZE =>
      if k * PGSIZE + j < read && ofs + k * PGSIZE + j < |file| then file[ofs + k * PGSIZE + j] else 0)
  }

  /** The first n pages of such a stretch, laid out from page first on. */
  function Stretch(file: seq<Byte>, ofs: nat, read: nat, first: nat, n: nat, writable: bool): (s: map<nat, Page>)
    ensures forall vp: nat :: vp in s <==> first <= vp < first + n
    ensures forall vp: nat :: vp in s ==> s[vp] == Page(PageOf(file, ofs, read, vp - first), writable)
  {
    if n == 0 then map[]
    else Stretch(file, ofs, read, first, n - 1, writable)[first + n - 1 := Page(PageOf(file, ofs, read, n - 1), writable)]
  }

  lemma SeesBoth(a: Mem, b: Mem, c: Mem, x: map<nat, Page>, y: map<nat, Page>)
    requires Sees(a, b, x) && Sees(b, c, y)
    ensures Sees(a, c, x + y)
  {
    hide Wf, Seen;
  }

  class AddressSpace {
    var m: Mem
    var kernelPool: seq<nat>
    var userPool: seq<nat>

    /** The tables are in order and free frames are not in use. */
    ghost predicate Valid()
      reads this
    {
      && Wf(m) && Apart(m, kernelPool, userPool)
    }

    /** All frames: those in use and those free. */
    ghost function AllFrames(): (f: set<nat>)
      reads this
    {
      Frames(m, kernelPool, userPool)
    }

    /** lookup_page with a page table made on demand: where the page's entry is. */
    method LookupPage(vp: nat) returns (r: Option<nat>)
      requires Valid() && vp < USER_PAGES
      modifies this`m, this`kernelPool
      ensures Valid() && Sees(old(m), m, map[]) && KernelSame(old(m), m) && old(m).frames.Keys <= m.frames.Keys
      ensures forall f :: IsData(old(m), f) ==> IsData(m, f) && m.frames[f] == old(m).frames[f]
      ensures AllFrames() == old(AllFrames()) && userPool == old(userPool)
      ensures r.None? <==> Pde(old(m), PdNo(vp)) == 0 && old(kernelPool) == []
      ensures r.None? ==> m == old(m) && kernelPool == old(kernelPool)
      ensures r.Some? ==> Pde(m, PdNo(vp)) != 0 && r.value == FrameOf(Pde(m, PdNo(vp)))
    {
      hide Seen, TablesOk, PagesOk, Sees, KernelSame;
      NothingChanges(m);
      var pde := Pde(m, PdNo(vp));
      if pde == 0 {
        if kernelPool == [] { return None; }
        var pt := kernelPool[0];
        AddTableKeeps(m, PdNo(vp), pt);
        kernelPool := kernelPool[1..];
        m := AddTable(m, PdNo(vp), pt);
        SeesWf(old(m), m, map[]);
        FrameTaken(old(m), m, old(kernelPool), userPool);
        pde := Pde(m, PdNo(vp));
      }
      return Some(FrameOf(pde));
    }

    /** install_page: fails when the page is mapped already or no page table can be had. */
    method InstallPage(vp: nat, f: nat, writable: bool) returns (ok: bool)
      requires Valid() && vp < USER_PAGES && IsData(m, f)
      modifies this`m, this`kernelPool
      ensures Valid() && KernelSame(old(m), m) && old(m).frames.Keys <= m.frames.Keys
      ensures AllFrames() == old(AllFrames()) && userPool == old(userPool)
      ensures ok <==> Seen(old(m), vp) == None && (Pde(old(m), PdNo(vp)) != 0 || old(kernelPool) != [])
      ensures ok ==> Sees(old(m), m, map[vp := Page(old(m).frames[f].bytes, writable)])
      ensures !ok ==> m == old(m) && kernelPool == old(kernelPool)
    {
      hide PagesOk, Sees, KernelSame;
      KernelReflexive(m);
      SeenExactly(m, vp);
      if Present(Pte(m, vp)) { return false; }
      ghost var was := m;
      var t := LookupPage(vp);
      if t.None? { return false; }
      ghost var mid := m;
      SetPteKeeps(m, vp, f, writable);
      m := SetPte(m, t.value, PtNo(vp), PteCreateUser(f, writable));
      SeesBoth(was, mid, m, map[], map[vp := Page(was.frames[f].bytes, writable)]);
      assert map[] + map[vp := Page(was.frames[f].bytes, writable)] == map[vp := Page(was.frames[f].bytes, writable)];
      KernelTransitive(was, mid, m);
      SeesWf(mid, m, map[vp := Page(was.frames[f].bytes, writable)]);
      return true;
    }

    /** No frame left in one of the pools. */
    predicate OutOfMemory()
      reads this
    {
      userPool == [] || kernelPool == []
    }

    /** One trip round load_segment's loop: a fresh frame filled with bytes and installed, or nothing at all. */
    method LoadPage(vp: nat, bytes: PageData, writable: bool) returns (ok: bool)
      requires Valid() && vp < USER_PAGES
      modifies this
      ensures Valid() && KernelSame(old(m), m)
      ensures AllFrames() == old(AllFrames()) && (!ok ==> userPool == old(userPool) && kernelPool == old(kernelPool))
      ensures ok ==> Seen(old(m), vp) == None && Sees(old(m), m, map[vp := Page(bytes, writable)])
      ensures !ok ==> m == old(m) && (Seen(m, vp) != None || OutOfMemory())
    {
      hide PagesOk, TablesOk, Sees, KernelSame, Seen;
      KernelReflexive(m);
      if userPool == [] { return false; }
      var kpage := userPool[0];
      ghost var was, pool := m, userPool;
      userPool := userPool[1..];
      AddDataKeeps(m, kpage, bytes);
      m := AddData(m, kpage, bytes);
      FrameTaken(was, m, pool, kernelPool);
      ghost var mid := m;
      SeesWf(was, mid, map[]);
      SeesNothing(was, mid, vp);
      ok := InstallPage(vp, kpage, writable);
      if !ok {
        userPool := [kpage] + userPool;
        m := m.(frames := m.frames - {kpage});
        assert m.frames == was.frames && userPool == pool;
        return;
      }
      SeesBoth(was, mid, m, map[], map[vp := Page(bytes, writable)]);
      assert map[] + map[vp := Page(bytes, writable)] == map[vp := Page(bytes, writable)];
      KernelTransitive(was, mid, m);
    }

    method LoadSegment(file: seq<Byte>, ofs: nat, first: nat, read: nat, zero: nat, writable: bool) returns (ok: bool)
      requires Valid() && (read + zero) % PGSIZE == 0 && first + (read + zero) / PGSIZE <= USER_PAGES && ofs <= |file|
      modifies this
      ensures Valid() && KernelSame(old(m), m)
      ensures AllFrames() == old(AllFrames())
      ensures ok ==> ofs + read <= |file| && Loaded(old(m), m, file, ofs, read, first, (read + zero) / PGSIZE, writable)
      ensures exists n: nat :: n <= (read + zero) / PGSIZE && Loaded(old(m), m, file, ofs, read, first, n, writable)
      ensures !ok ==> ofs + read > |file| || OutOfMemory() || Taken(old(m), first, (read + zero) / PGSIZE)
    {
      hide PagesOk, TablesOk, KernelSame, Seen, Loaded, Sees;
      var readLeft, zeroLeft, upage, pos := read, zero, first, ofs;
      NoneLoaded(m, file, ofs, read, first, writable);
      ghost var n: nat := 0;
      while readLeft > 0 || zeroLeft > 0
        invariant Valid() && AllFrames() == old(AllFrames()) && KernelSame(old(m), m) && upage == first + n
        invariant (readLeft + zeroLeft) % PGSIZE == 0 && n * PGSIZE + readLeft + zeroLeft == read + zero
        invariant readLeft == if n * PGSIZE < read then read - n * PGSIZE else 0
        invariant pos == ofs + read - readLeft <= |file| && zeroLeft >= 0
        invariant Loaded(old(m), m, file, ofs, read, first, n, writable)
        decreases readLeft + zeroLeft
      {
        var pageReadBytes := if readLeft < PGSIZE then readLeft else PGSIZE;
        var pageZeroBytes := PGSIZE - pageReadBytes;
        if pos + pageReadBytes > |file| { return false; }
        var kpage := file[pos..pos + pageReadBytes] + seq(pageZeroBytes, _ => 0);
        assert kpage == PageOf(file, ofs, read, n);
        ghost var mid := m;
        FreeSoFar(old(m), m, file, ofs, read, first, n, (read + zero) / PGSIZE, writable);
        var done := LoadPage(upage, kpage, writable);
        if !done { return false; }
        OneMoreLoaded(old(m), mid, m, file, ofs, read, first, n, writable);
        KernelTransitive(old(m), mid, m);
        readLeft, zeroLeft, upage, pos := readLeft - pageReadBytes, zeroLeft - pageZeroBytes, upage + 1, pos + pageReadBytes;
        n := n + 1;
      }
      assert n == (read + zero) / PGSIZE;
      return true;
    }

    /** What load does about one program header. */
    method LoadHeader(file: seq<Byte>, phdr: Phdr) returns (ok: bool)
      requires Valid() && |file| < 0x8000_0000
      modifies this
      ensures Valid() && KernelSame(old(m), m) && Seen(m, 0) == Seen(old(m), 0)
      ensures AllFrames() == old(AllFrames())
      ensures ok && phdr.ptype == PT_LOAD ==> InMemory(m, file, phdr)
      ensures ok ==> forall q :: InMemory(old(m), file, q) ==> InMemory(m, file, q)
      ensures forall vp :: 0 <= vp < USER_PAGES && !OfSegment(file, phdr, vp) ==> Seen(m, vp) == Seen(old(m), vp)
      ensures !ok ==> OutOfMemory() || Refused(old(m), file, phdr)
      ensures ok ==> !Refused(old(m), file, phdr)
    {
      hide KernelSame, Loaded, Sees, Seen, Wf, InMemory, ValidateSegment, FilePage, FirstPage, ReadBytes,
        ZeroBytes, Pages, MayWrite, OfSegment, Taken;
      KernelReflexive(m);
      if phdr.ptype == 2 || phdr.ptype == 3 || phdr.ptype == 5 { return false; }
      if phdr.ptype == PT_LOAD {
        if !ValidateSegment(phdr, |file|) { return false; }
        Sizes(phdr, |file|);
        ok := LoadSegment(file, FilePage(phdr), FirstPage(phdr), ReadBytes(phdr), ZeroBytes(phdr), MayWrite(phdr));
        PageZeroAsIs(old(m), m, file, phdr);
        OthersAsIs(old(m), m, file, phdr);
        if ok {
          WasFree(old(m), m, file, phdr);
          NowInMemory(old(m), m, file, phdr);
          StaysInMemory(old(m), m, file, phdr);
        }
        return;
      }
      return true;
    }

    /** The loop over the program headers, and then the stack page. */
    method LoadHeaders(file: seq<Byte>, phoff: Word, phnum: nat) returns (ok: bool)
      requires Valid() && |file| < 0x8000_0000
      modifies this
      ensures Valid() && KernelSame(old(m), m) && Seen(m, 0) == Seen(old(m), 0)
      ensures AllFrames() == old(AllFrames())
      ensures ok ==> AllIn(m, file, phoff, phnum) && Seen(m, USER_PAGES - 1) == Some(Page(ZeroPage(), true))
      ensures forall vp :: 0 <= vp < USER_PAGES && !(ok && vp == USER_PAGES - 1) ==> Seen(m, vp) == Seen(old(m), vp) || Covered(file, phoff, phnum, vp)
      ensures !ok ==> OutOfMemory() || Unloadable(old(m), file, phoff, phnum)
      ensures ok ==> !Unloadable(old(m), file, phoff, phnum)
    {
      hide KernelSame, Sees, Seen, Wf, PhdrAt, InMemory, OnlyCovered, Covered, OfSegment, Refused, Unloadable,
        Header, ItemIn, NoneBlocked;
      KernelReflexive(m);
      NothingCovered(m, file, phoff);
      FirstNotBlocked(m, file, phoff);
      var fileOfs: int := if phoff < 0x8000_0000 then phoff else phoff - BASE;
      var i := 0;
      while i < phnum
        invariant i <= phnum && Valid() && AllFrames() == old(AllFrames()) && KernelSame(old(m), m) && Seen(m, 0) == Seen(old(m), 0)
        invariant fileOfs == (if phoff < 0x8000_0000 then phoff else phoff - BASE) + 32 * i && (i > 0 ==> fileOfs >= 32 * i)
        invariant AllIn(m, file, phoff, i) && OnlyCovered(old(m), m, file, phoff, i) && NoneBlocked(old(m), file, phoff, i)
      {
        CoveredSoFar(old(m), m, file, phoff, i, phnum);
        NoHeader(old(m), file, phoff, i, phnum);
        if fileOfs < 0 || fileOfs > |file| { return false; }
        if fileOfs + 32 > |file| { return false; }
        assert fileOfs == phoff + 32 * i;
        var phdr := PhdrAt(file, fileOfs);
        fileOfs := fileOfs + 32;
        ghost var mid := m;
        HeaderThere(file, phoff, i);
        var done := LoadHeader(file, phdr);
        KernelTransitive(old(m), mid, m);
        CoveredNext(old(m), mid, m, file, phoff, i);
        CoveredSoFar(old(m), m, file, phoff, i + 1, phnum);
        if !done {
          if Refused(mid, file, phdr) { RefusedHere(old(m), mid, file, phoff, i, phnum); }
          return false;
        }
        NotBlocked(old(m), mid, file, phoff, i);
        NextIn(mid, m, file, phoff, i);
        i := i + 1;
      }
      ghost var mid := m;
      CoveredSoFar(old(m), m, file, phoff, phnum, phnum);
      ok := LoadPage(USER_PAGES - 1, ZeroPage(), true);
      KernelTransitive(old(m), mid, m);
      if !ok { StackRefused(old(m), m, file, phoff, phnum); }
      if ok {
        Loadable(old(m), mid, file, phoff, phnum);
        StackPage(mid, m, file);
        StillIn(mid, m, file, phoff, phnum);
      }
    }

    /** load, from a copy of the kernel's own directory; no file means that it could not be opened. */
    method Load(file: Option<seq<Byte>>) returns (ok: bool, eip: Word)
      requires Valid() && NoUserPages(m) && (file.Some? ==> |file.value| < 0x8000_0000)
      modifies this
      ensures Valid() && KernelSame(old(m), m) && Seen(m, 0) == None
      ensures AllFrames() == old(AllFrames())
      ensures ok ==> file.Some? && Executable(file.value) && eip == Entry(file.value)
      ensures ok ==> AllIn(m, file.value, Phoff(file.value), Phnum(file.value)) && Seen(m, USER_PAGES - 1) == Some(Page(ZeroPage(), true))
      ensures forall vp :: 0 <= vp < USER_PAGES && !(ok && vp == USER_PAGES - 1) && Seen(m, vp) != None ==>
        file.Some? && Executable(file.value) && Covered(file.value, Phoff(file.value), Phnum(file.value), vp)
      ensures !ok ==>
        || OutOfMemory() || file.None? || !Executable(file.value)
        || Unloadable(old(m), file.value, Phoff(file.value), Phnum(file.value))
      ensures ok ==> !Unloadable(old(m), file.value, Phoff(file.value), Phnum(file.value))
    {
      hide KernelSame, Sees, Seen, Wf, AllIn, Covered, Unloadable, Executable, Phoff, Phnum, CopyDirectory;
      KernelReflexive(m);
      ok, eip := false, 0;
      if kernelPool == [] { return; }
      ghost var was := m;
      CopyDirectoryKeeps(m, kernelPool[0]);
      DirectoryCopied(m, kernelPool, userPool);
      m, kernelPool := CopyDirectory(m, kernelPool[0]), kernelPool[1..];
      FrameTaken(was, m, old(kernelPool), userPool);
      SeesWf(was, m, map[]);
      ghost var mid := m;
      NoUserPagesKept(was, mid);
      if file.None? { return; }
      if !Executable(file.value) { return; }
      var phoff, phnum := Phoff(file.value), Phnum(file.value);
      ok := LoadHeaders(file.value, phoff, phnum);
      KernelTransitive(was, mid, m);
      if ok {
        eip := Entry(file.value);
        if Unloadable(was, file.value, phoff, phnum) { UnloadableAfterCopy(mid, was, file.value, phoff, phnum) by { SeesBack(was, mid); } }
      } else if Unloadable(mid, file.value, phoff, phnum) {
        UnloadableAfterCopy(was, mid, file.value, phoff, phnum);
      }
    }
  }

  /** The executable header ([ELF1] 1-4), the fields load looks at. */
  function HalfAt(file: seq<Byte>, at: nat): (h: nat)
    requires at + 2 <= |file|
  {
    file[at] as int + 0x100 * (file[at + 1] as int)
  }

  /** A file load takes for an executable, by the places of the fields. */
  predicate Executable(file: seq<Byte>)
  {
    && |file| >= 52 && file[..7] == [127, 69, 76, 70, 1, 1, 1]
    && HalfAt(file, 16) == 2 && HalfAt(file, 18) == 3 && WordAt(file, 20) == 1
    && HalfAt(file, 42) == 32 && HalfAt(file, 44) <= 1024
  }

  function Entry(file: seq<Byte>): (w: Word) requires Executable(file) { WordAt(file, 24) }
  function Phoff(file: seq<Byte>): (w: Word) requires Executable(file) { WordAt(file, 28) }
  function Phnum(file: seq<Byte>): (n: nat) requires Executable(file) { HalfAt(file, 44) }

  type Half = h: nat | h < 0x1_0000 witness 0

  /** The executable header ([ELF1] 1-4), field by field. */
  datatype Ehdr = Ehdr(
    ident: seq<Byte>, etype: Half, machine: Half, version: Word,
    entry: Word, phoff: Word, shoff: Word, flags: Word,
    ehsize: Half, phentsize: Half, phnum: Half, shentsize: Half, shnum: Half, shstrndx: Half)

  function HalfBytes(h: Half): (b: seq<Byte>) ensures |b| == 2 { [h % 0x100, h / 0x100] }
  function WordBytes(w: Word): (b: seq<Byte>) ensures |b| == 4 { [ByteOf(w, 0), ByteOf(w, 1), ByteOf(w, 2), ByteOf(w, 3)] }

  /** The structure in the file: its fields one after the other, each at its width. */
  function Encoded(h: Ehdr): (b: seq<Byte>) { h.ident + Kind(h) + Places(h) + Counts(h) }
  function Kind(h: Ehdr): (b: seq<Byte>) { HalfBytes(h.etype) + HalfBytes(h.machine) + WordBytes(h.version) }
  function Places(h: Ehdr): (b: seq<Byte>) { WordBytes(h.entry) + WordBytes(h.phoff) + WordBytes(h.shoff) + WordBytes(h.flags) }
  function Counts(h: Ehdr): (b: seq<Byte>) {
    HalfBytes(h.ehsize) + HalfBytes(h.phentsize) + HalfBytes(h.phnum)
    + HalfBytes(h.shentsize) + HalfBytes(h.shnum) + HalfBytes(h.shstrndx)
  }

  /** A 32-bit little-endian file of type "executable" for the 80386, with program headers of the size load expects. */
  predicate Passes(h: Ehdr)
  {
    && |h.ident| == 16 && h.ident[0] == 0x7f && h.ident[1..4] == [69, 76, 70] && h.ident[4..7] == [1, 1, 1]
    && h.etype == 2 && h.machine == 3 && h.version == 1 && h.phentsize == 32 && h.phnum <= 1024
  }

  /** A word and a half that lie at place i of the part of a file from `lo` to `hi`. */
  lemma WordReadsBack(file: seq<Byte>, lo: nat, hi: nat, i: nat, w: Word)
    requires lo <= hi <= |file| && i + 4 <= hi - lo && file[lo..hi][i..i + 4] == WordBytes(w)
    ensures WordAt(file, lo + i) == w
  {
    WordOfItsBytes(w);
    var part := file[lo..hi];
    assert part[i] == file[lo + i] && part[i + 1] == file[lo + i + 1] && part[i + 2] == file[lo + i + 2] && part[i + 3] == file[lo + i + 3];
    assert part[i..i + 4] == [part[i], part[i + 1], part[i + 2], part[i + 3]];
  }

  lemma HalfReadsBack(file: seq<Byte>, lo: nat, hi: nat, i: nat, h: Half)
    requires lo <= hi <= |file| && i + 2 <= hi - lo && file[lo..hi][i..i + 2] == HalfBytes(h)
    ensures HalfAt(file, lo + i) == h
  {
    var b := file[lo..hi][i..i + 2];
    assert b[0] == file[lo + i] && b[1] == file[lo + i + 1];
  }

  /** In every file that starts with an executable header, load's tests are about that header's fields, the entry point is
      its e_entry, and the table of program headers is at its e_phoff with its e_phnum entries. */
  lemma HeaderReadsBack(h: Ehdr, rest: seq<Byte>)
    requires |h.ident| == 16
    ensures var file := Encoded(h) + rest;
      && (Executable(file) <==> Passes(h))
      && (Executable(file) ==> Entry(file) == h.entry && Phoff(file) == h.phoff && Phnum(file) == h.phnum)
  {
    var file := Encoded(h) + rest;
    assert |Encoded(h)| == 52 && file[..16] == h.ident && file[16..24] == Kind(h) && file[24..40] == Places(h) && file[40..52] == Counts(h);
    hide Encoded;
    KindReadsBack(h, file);
    PlacesReadBack(h, file);
    CountsReadBack(h, file);
    hide Kind, Places, Counts, WordAt, HalfAt;
    IdentReadsBack(h, file);
  }

  lemma IdentReadsBack(h: Ehdr, file: seq<Byte>)
    requires |h.ident| == 16 && |file| >= 52 && file[..16] == h.ident
    ensures file[..7] == [127, 69, 76, 70, 1, 1, 1] <==> h.ident[0] == 0x7f && h.ident[1..4] == [69, 76, 70] && h.ident[4..7] == [1, 1, 1]
  {
    assert forall k :: 0 <= k < 7 ==> file[k] == h.ident[k];
    assert file[..7] == [h.ident[0]] + h.ident[1..4] + h.ident[4..7];
    if file[..7] == [127, 69, 76, 70, 1, 1, 1] {
      assert h.ident[1..4] == file[..7][1..4] && h.ident[4..7] == file[..7][4..7];
    }
  }

  lemma KindReadsBack(h: Ehdr, file: seq<Byte>)
    requires |file| >= 52 && file[16..24] == Kind(h)
    ensures HalfAt(file, 16) == h.etype && HalfAt(file, 18) == h.machine && WordAt(file, 20) == h.version
  {
    hide WordBytes, HalfBytes, WordAt, HalfAt;
    HalfReadsBack(file, 16, 24, 0, h.etype);
    HalfReadsBack(file, 16, 24, 2, h.machine);
    WordReadsBack(file, 16, 24, 4, h.version);
  }

  lemma PlacesReadBack(h: Ehdr, file: seq<Byte>)
    requires |file| >= 52 && file[24..40] == Places(h)
    ensures WordAt(file, 24) == h.entry && WordAt(file, 28) == h.phoff
  {
    hide WordBytes, WordAt;
    WordReadsBack(file, 24, 40, 0, h.entry);
    WordReadsBack(file, 24, 40, 4, h.phoff);
  }

  lemma CountsReadBack(h: Ehdr, file: seq<Byte>)
    requires |file| >= 52 && file[40..52] == Counts(h)
    ensures HalfAt(file, 42) == h.phentsize && HalfAt(file, 44) == h.phnum
  {
    hide HalfBytes, HalfAt;
    HalfReadsBack(file, 40, 52, 2, h.phentsize);
    HalfReadsBack(file, 40, 52, 4, h.phnum);
  }

  /** A program header in the file ([ELF1] 2-2): eight words, of which load looks at all but the fourth and the last. */
  function PhdrBytes(p: Phdr, paddr: Word, align: Word): (b: seq<Byte>)
    ensures |b| == 32
  {
    WordBytes(p.ptype) + WordBytes(p.offset) + WordBytes(p.vaddr) + WordBytes(paddr)
    + WordBytes(p.filesz) + WordBytes(p.memsz) + WordBytes(p.flags) + WordBytes(align)
  }

  lemma PhdrReadsBack(file: seq<Byte>, at: nat, p: Phdr, paddr: Word, align: Word)
    requires at + 32 <= |file| && file[at..at + 32] == PhdrBytes(p, paddr, align)
    ensures PhdrAt(file, at) == p
  {
    hide WordBytes, WordAt;
    var b := PhdrBytes(p, paddr, align);
    assert b[0..4] == WordBytes(p.ptype) && b[4..8] == WordBytes(p.offset) && b[8..12] == WordBytes(p.vaddr);
    assert b[16..20] == WordBytes(p.filesz) && b[20..24] == WordBytes(p.memsz) && b[24..28] == WordBytes(p.flags);
    hide PhdrBytes;
    WordReadsBack(file, at, at + 32, 0, p.ptype);
    WordReadsBack(file, at, at + 32, 4, p.offset);
    WordReadsBack(file, at, at + 32, 8, p.vaddr);
    WordReadsBack(file, at, at + 32, 16, p.filesz);
    WordReadsBack(file, at, at + 32, 20, p.memsz);
    WordReadsBack(file, at, at + 32, 24, p.flags);
  }

  /** p_flags has the execute, write and read flags in its three lowest bits, and the write flag is the one that counts. */
  lemma WriteFlag(p: Phdr, x: bool, w: bool, r: bool, rest: nat)
    requires p.flags == 8 * rest + (if r then 4 else 0) + (if w then 2 else 0) + (if x then 1 else 0)
    ensures MayWrite(p) == w
  {
    var high, middle := 2 * rest + (if r then 1 else 0), if w then 1 else 0;
    Halved(p.flags, 2 * high + middle, if x then 1 else 0);
    Halved(2 * high + middle, high, middle);
  }

  lemma Halved(n: nat, q: nat, bit: nat)
    requires n == 2 * q + bit && bit < 2
    ensures n / 2 == q && n % 2 == bit
  {
  }

  /** No user page is mapped, as in the directory that the kernel starts with. */
  predicate NoUserPages(m: Mem)
  {
    Wf(m) && forall vp :: 0 <= vp < USER_PAGES ==> Seen(m, vp) == None
  }

  lemma NoUserPagesKept(m: Mem, r: Mem)
    requires NoUserPages(m) && Sees(m, r, map[])
    ensures NoUserPages(r)
  {
    hide Wf, Seen;
  }

  lemma UnloadableAfterCopy(m: Mem, r: Mem, file: seq<Byte>, phoff: nat, n: nat)
    requires Sees(m, r, map[]) && Unloadable(r, file, phoff, n)
    ensures Unloadable(m, file, phoff, n)
  {
    hide Wf, Seen, Covered, ValidateSegment, FirstPage, Pages, FilePage, ReadBytes, PhdrAt;
    if i: nat :| i < n && (!Header(file, phoff, i) || Blocked(r, file, phoff, i)) {
      if Header(file, phoff, i) { assert Blocked(m, file, phoff, i) by { BlockedAfterCopy(m, r, file, phoff, i); } }
    } else {
      assert Occupied(m, file, phoff, n, USER_PAGES - 1);
    }
  }

  lemma BlockedAfterCopy(m: Mem, r: Mem, file: seq<Byte>, phoff: nat, i: nat)
    requires Sees(m, r, map[]) && Header(file, phoff, i) && Blocked(r, file, phoff, i)
    ensures Blocked(m, file, phoff, i)
  {
    hide Wf, Seen, Covered, ValidateSegment, FirstPage, Pages, FilePage, ReadBytes, PhdrAt;
    var p := PhdrAt(file, phoff + 32 * i);
    if vp: nat :| FirstPage(p) <= vp < FirstPage(p) + Pages(p) && Occupied(r, file, phoff, i, vp) {
      assert Occupied(m, file, phoff, i, vp);
    }
  }

  /** The page belongs to a loadable segment that passes the tests. */
  predicate OfSegment(file: seq<Byte>, p: Phdr, vp: nat)
  {
    p.ptype == PT_LOAD && ValidateSegment(p, |file|) && FirstPage(p) <= vp < FirstPage(p) + Pages(p)
  }

  /** The page belongs to one of the first n headers' segments. */
  ghost predicate Covered(file: seq<Byte>, phoff: nat, n: nat, vp: nat)
  {
    exists i: nat :: i < n && Header(file, phoff, i) && OfSegment(file, PhdrAt(file, phoff + 32 * i), vp)
  }

  /** Only pages of the first n headers' segments look different. */
  ghost predicate OnlyCovered(m: Mem, r: Mem, file: seq<Byte>, phoff: nat, n: nat)
  {
    Wf(m) && Wf(r) && forall vp :: 0 <= vp < USER_PAGES ==> Seen(r, vp) == Seen(m, vp) || Covered(file, phoff, n, vp)
  }

  /** A header that load does not accept: of a forbidden type, or a loadable segment that fails the tests, reaches past
      the end of the file or needs a page that is mapped. */
  ghost predicate Refused(m: Mem, file: seq<Byte>, p: Phdr)
  {
    || p.ptype == 2 || p.ptype == 3 || p.ptype == 5
    || (p.ptype == PT_LOAD
        && (!ValidateSegment(p, |file|) || FilePage(p) + ReadBytes(p) > |file| || Taken(m, FirstPage(p), Pages(p))))
  }

  /** Why an executable cannot be loaded, whatever the memory: a header missing or refused, where mapped pages are those
      mapped to begin with and those of earlier segments, or the stack's page being one of these. */
  ghost predicate Unloadable(m: Mem, file: seq<Byte>, phoff: nat, n: nat)
  {
    || (exists i: nat :: i < n && (!Header(file, phoff, i) || Blocked(m, file, phoff, i)))
    || Occupied(m, file, phoff, n, USER_PAGES - 1)
  }

  ghost predicate Occupied(m: Mem, file: seq<Byte>, phoff: nat, n: nat, vp: nat)
  {
    Wf(m) && vp < USER_PAGES && (Seen(m, vp) != None || Covered(file, phoff, n, vp))
  }

  ghost predicate Blocked(m: Mem, file: seq<Byte>, phoff: nat, i: nat)
    requires Header(file, phoff, i)
  {
    var p := PhdrAt(file, phoff + 32 * i);
    || p.ptype == 2 || p.ptype == 3 || p.ptype == 5
    || (p.ptype == PT_LOAD
        && (!ValidateSegment(p, |file|) || FilePage(p) + ReadBytes(p) > |file|
            || exists vp :: FirstPage(p) <= vp < FirstPage(p) + Pages(p) && Occupied(m, file, phoff, i, vp)))
  }

  ghost predicate NoneBlocked(m: Mem, file: seq<Byte>, phoff: nat, n: nat)
  {
    forall i: nat :: i < n ==> Header(file, phoff, i) && !Blocked(m, file, phoff, i)
  }

  lemma FirstNotBlocked(m: Mem, file: seq<Byte>, phoff: nat)
    ensures NoneBlocked(m, file, phoff, 0)
  {
  }

  /** A page that is occupied is mapped by the time the earlier segments are in memory. */
  lemma OccupiedIsSeen(m: Mem, q: Mem, file: seq<Byte>, phoff: nat, i: nat, vp: nat)
    requires OnlyCovered(m, q, file, phoff, i) && AllIn(q, file, phoff, i) && Occupied(m, file, phoff, i, vp)
    ensures Wf(q) && Seen(q, vp) != None
  {
    hide Seen, Wf, PhdrAt, ValidateSegment, FirstPage, Pages, FilePage, ReadBytes, MayWrite, PageOf;
    if Covered(file, phoff, i, vp) {
      var j: nat :| j < i && Header(file, phoff, j) && OfSegment(file, PhdrAt(file, phoff + 32 * j), vp);
      assert ItemIn(q, file, phoff, j);
    }
  }

  lemma NotBlocked(m: Mem, q: Mem, file: seq<Byte>, phoff: nat, i: nat)
    requires OnlyCovered(m, q, file, phoff, i) && AllIn(q, file, phoff, i) && NoneBlocked(m, file, phoff, i)
    requires Header(file, phoff, i) && !Refused(q, file, PhdrAt(file, phoff + 32 * i))
    ensures NoneBlocked(m, file, phoff, i + 1)
  {
    hide Seen, Wf, PhdrAt, ValidateSegment, FirstPage, Pages, FilePage, ReadBytes, OnlyCovered, AllIn, Occupied;
    var p := PhdrAt(file, phoff + 32 * i);
    forall vp: nat | FirstPage(p) <= vp < FirstPage(p) + Pages(p) && Occupied(m, file, phoff, i, vp) ensures Taken(q, FirstPage(p), Pages(p)) {
      OccupiedIsSeen(m, q, file, phoff, i, vp);
      OccupiedInUser(m, file, phoff, i, vp);
    }
    assert !Blocked(m, file, phoff, i);
  }

  lemma OccupiedInUser(m: Mem, file: seq<Byte>, phoff: nat, i: nat, vp: nat)
    requires Occupied(m, file, phoff, i, vp)
    ensures vp < USER_PAGES
  {
  }

  lemma Loadable(m: Mem, q: Mem, file: seq<Byte>, phoff: nat, n: nat)
    requires OnlyCovered(m, q, file, phoff, n) && AllIn(q, file, phoff, n) && NoneBlocked(m, file, phoff, n)
    requires Wf(q) && Seen(q, USER_PAGES - 1) == None
    ensures !Unloadable(m, file, phoff, n)
  {
    hide Seen, Wf, PhdrAt, OnlyCovered, AllIn, Occupied, Blocked;
    if Occupied(m, file, phoff, n, USER_PAGES - 1) { OccupiedIsSeen(m, q, file, phoff, n, USER_PAGES - 1); }
  }

  lemma SeesBack(m: Mem, r: Mem)
    requires Sees(m, r, map[])
    ensures Sees(r, m, map[])
  {
    hide Wf, Seen;
  }

  lemma WasFree(m: Mem, r: Mem, file: seq<Byte>, p: Phdr)
    requires ValidateSegment(p, |file|) && FilePage(p) + ReadBytes(p) <= |file| && p.ptype == PT_LOAD
    requires Loaded(m, r, file, FilePage(p), ReadBytes(p), FirstPage(p), Pages(p), MayWrite(p))
    ensures !Refused(m, file, p)
  {
    hide Wf, Seen, PageOf, ValidateSegment, FirstPage, Pages, FilePage, ReadBytes, MayWrite;
  }

  lemma NothingCovered(m: Mem, file: seq<Byte>, phoff: nat)
    requires Wf(m)
    ensures OnlyCovered(m, m, file, phoff, 0)
  {
  }

  lemma CoveredSoFar(m: Mem, r: Mem, file: seq<Byte>, phoff: nat, i: nat, n: nat)
    requires OnlyCovered(m, r, file, phoff, i) && i <= n
    ensures forall vp :: 0 <= vp < USER_PAGES ==> Wf(m) && Wf(r) && (Seen(r, vp) == Seen(m, vp) || Covered(file, phoff, n, vp))
  {
    hide Seen, Wf, OfSegment, PhdrAt;
  }

  lemma CoveredNext(m: Mem, q: Mem, r: Mem, file: seq<Byte>, phoff: nat, i: nat)
    requires OnlyCovered(m, q, file, phoff, i) && Wf(r) && Header(file, phoff, i)
    requires forall vp :: 0 <= vp < USER_PAGES && !OfSegment(file, PhdrAt(file, phoff + 32 * i), vp) ==> Seen(r, vp) == Seen(q, vp)
    ensures OnlyCovered(m, r, file, phoff, i + 1)
  {
    hide Seen, Wf, OfSegment, PhdrAt;
  }

  lemma NoHeader(m: Mem, file: seq<Byte>, phoff: nat, i: nat, n: nat)
    requires i < n
    ensures phoff + 32 * i + 32 > |file| ==> Unloadable(m, file, phoff, n)
  {
    hide Seen, Wf, OfSegment, PhdrAt, Blocked, Occupied;
    assert phoff + 32 * i + 32 > |file| ==> !Header(file, phoff, i);
  }

  lemma HeaderThere(file: seq<Byte>, phoff: nat, i: nat)
    requires phoff + 32 * i + 32 <= |file|
    ensures Header(file, phoff, i)
  {
  }

  lemma RefusedHere(m: Mem, q: Mem, file: seq<Byte>, phoff: nat, i: nat, n: nat)
    requires OnlyCovered(m, q, file, phoff, i) && i < n && Header(file, phoff, i) && Refused(q, file, PhdrAt(file, phoff + 32 * i))
    ensures Unloadable(m, file, phoff, n)
  {
    hide Seen, Wf, OfSegment, PhdrAt, ValidateSegment, FirstPage, Pages, FilePage, ReadBytes, Covered;
    assert Blocked(m, file, phoff, i) by {
      var p := PhdrAt(file, phoff + 32 * i);
      if p.ptype == PT_LOAD && Taken(q, FirstPage(p), Pages(p)) {
        var vp :| FirstPage(p) <= vp < FirstPage(p) + Pages(p) && vp < USER_PAGES && Seen(q, vp) != None;
        assert Occupied(m, file, phoff, i, vp);
      }
    }
  }

  lemma StackRefused(m: Mem, r: Mem, file: seq<Byte>, phoff: nat, n: nat)
    requires OnlyCovered(m, r, file, phoff, n)
    ensures Wf(r) && (Seen(r, USER_PAGES - 1) != None ==> Unloadable(m, file, phoff, n))
  {
    hide Seen, Wf, Covered, Blocked;
    assert Seen(r, USER_PAGES - 1) != None ==> Occupied(m, file, phoff, n, USER_PAGES - 1);
  }

  /** The i-th program header is there, and if it is loadable its segment is in memory. */
  ghost predicate ItemIn(m: Mem, file: seq<Byte>, phoff: nat, i: nat)
  {
    Header(file, phoff, i) && (PhdrAt(file, phoff + 32 * i).ptype == PT_LOAD ==> InMemory(m, file, PhdrAt(file, phoff + 32 * i)))
  }

  ghost predicate AllIn(m: Mem, file: seq<Byte>, phoff: nat, n: nat)
  {
    forall i :: 0 <= i < n ==> ItemIn(m, file, phoff, i)
  }

  lemma StillIn(m: Mem, r: Mem, file: seq<Byte>, phoff: nat, n: nat)
    requires AllIn(m, file, phoff, n) && forall q :: InMemory(m, file, q) ==> InMemory(r, file, q)
    ensures AllIn(r, file, phoff, n)
  {
    hide InMemory, PhdrAt;
    forall i | 0 <= i < n
      ensures ItemIn(r, file, phoff, i)
    {
      assert ItemIn(m, file, phoff, i);
    }
  }

  lemma NextIn(m: Mem, r: Mem, file: seq<Byte>, phoff: nat, n: nat)
    requires AllIn(m, file, phoff, n) && forall q :: InMemory(m, file, q) ==> InMemory(r, file, q)
    requires ItemIn(r, file, phoff, n)
    ensures AllIn(r, file, phoff, n + 1)
  {
    StillIn(m, r, file, phoff, n);
  }

  function ZeroPage(): (b: PageData) { seq(PGSIZE, _ => 0) }

  predicate Header(file: seq<Byte>, phoff: nat, i: nat) { phoff + 32 * i + 32 <= |file| }

  /** Pages that were free now hold the stretch, and nothing else looks different. */
  ghost predicate Loaded(m: Mem, r: Mem, file: seq<Byte>, ofs: nat, read: nat, first: nat, n: nat, writable: bool)
  {
    && first + n <= USER_PAGES && Sees(m, r, Stretch(file, ofs, read, first, n, writable))
    && forall vp :: first <= vp < first + n ==> Seen(m, vp) == None
  }

  /** Some page of the range is mapped already. */
  ghost predicate Taken(m: Mem, first: nat, n: nat)
  {
    exists vp :: first <= vp < first + n && vp < USER_PAGES && Wf(m) && Seen(m, vp) != None
  }

  /** The next page looks as it did before the segment was begun. */
  lemma FreeSoFar(m: Mem, r: Mem, file: seq<Byte>, ofs: nat, read: nat, first: nat, n: nat, all: nat, writable: bool)
    requires Loaded(m, r, file, ofs, read, first, n, writable) && n < all && first + all <= USER_PAGES
    ensures Wf(m) && Wf(r) && Seen(r, first + n) == Seen(m, first + n)
    ensures Seen(r, first + n) != None ==> Taken(m, first, all)
  {
    hide Wf, Seen, PageOf;
  }

  lemma NoneLoaded(m: Mem, file: seq<Byte>, ofs: nat, read: nat, first: nat, writable: bool)
    requires Wf(m) && first <= USER_PAGES
    ensures Loaded(m, m, file, ofs, read, first, 0, writable) && KernelSame(m, m)
  {
    NothingChanges(m);
  }

  lemma OneMoreLoaded(a: Mem, b: Mem, c: Mem, file: seq<Byte>, ofs: nat, read: nat, first: nat, n: nat, writable: bool)
    requires Loaded(a, b, file, ofs, read, first, n, writable) && first + n < USER_PAGES && Seen(b, first + n) == None
    requires Sees(b, c, map[first + n := Page(PageOf(file, ofs, read, n), writable)])
    ensures Loaded(a, c, file, ofs, read, first, n + 1, writable)
  {
    hide PageOf, Wf, Seen;
    var s, t := Stretch(file, ofs, read, first, n, writable), map[first + n := Page(PageOf(file, ofs, read, n), writable)];
    SeesBoth(a, b, c, s, t);
    assert s + t == Stretch(file, ofs, read, first, n + 1, writable);
  }

  lemma SeesNothing(a: Mem, b: Mem, vp: nat)
    requires Sees(a, b, map[]) && vp < USER_PAGES
    ensures Seen(b, vp) == Seen(a, vp)
  {
  }

  ghost function Frames(m: Mem, kernelPool: seq<nat>, userPool: seq<nat>): (s: set<nat>)
  {
    m.frames.Keys + (set f | f in kernelPool) + (set f | f in userPool)
  }

  /** A frame that goes from the front of a pool into use. */
  lemma FrameTaken(m: Mem, r: Mem, pool: seq<nat>, other: seq<nat>)
    requires pool != [] && r.frames.Keys == m.frames.Keys + {pool[0]}
    ensures Frames(r, pool[1..], other) == Frames(m, pool, other) && Frames(r, other, pool[1..]) == Frames(m, other, pool)
  {
    assert pool == [pool[0]] + pool[1..];
  }

  ghost predicate Apart(m: Mem, kernelPool: seq<nat>, userPool: seq<nat>)
  {
    && (forall i :: 0 <= i < |kernelPool| ==> kernelPool[i] !in m.frames && kernelPool[i] !in userPool)
    && (forall i :: 0 <= i < |userPool| ==> userPool[i] !in m.frames)
    && Distinct(kernelPool) && Distinct(userPool)
  }

  lemma DirectoryCopied(m: Mem, kernelPool: seq<nat>, userPool: seq<nat>)
    requires IsTable(m, m.pd) && Apart(m, kernelPool, userPool) && kernelPool != []
    ensures Apart(CopyDirectory(m, kernelPool[0]), kernelPool[1..], userPool)
    ensures CopyDirectory(m, kernelPool[0]).frames.Keys == m.frames.Keys + {kernelPool[0]}
  {
  }

  lemma NothingChanges(m: Mem)
    requires Wf(m)
    ensures Sees(m, m, map[]) && KernelSame(m, m) && IsTable(m, m.pd)
  {
  }

  lemma KernelReflexive(m: Mem)
    requires Wf(m)
    ensures KernelSame(m, m) && IsTable(m, m.pd)
  {
  }

  lemma KernelTransitive(a: Mem, b: Mem, c: Mem)
    requires KernelSame(a, b) && KernelSame(b, c)
    ensures KernelSame(a, c)
  {
  }

  lemma SeesWf(a: Mem, b: Mem, x: map<nat, Page>)
    requires Sees(a, b, x)
    ensures Wf(b)
  {
  }

  // ---------------------------------------------------------------- segments in memory

  /** Every page of the segment is mapped as it should be. */
  ghost predicate InMemory(m: Mem, file: seq<Byte>, p: Phdr)
  {
    && Wf(m) && ValidateSegment(p, |file|) && FirstPage(p) + Pages(p) <= USER_PAGES && FilePage(p) + ReadBytes(p) <= |file|
    && forall vp :: FirstPage(p) <= vp < FirstPage(p) + Pages(p) ==>
         Seen(m, vp) == Some(Page(PageOf(file, FilePage(p), ReadBytes(p), vp - FirstPage(p)), MayWrite(p)))
  }

  /** The counts load computes do not underflow and fill whole pages between page 1 and the kernel. */
  lemma Sizes(p: Phdr, length: nat)
    requires ValidateSegment(p, length)
    ensures ZeroBytes(p) >= 0 && (ReadBytes(p) + ZeroBytes(p)) % PGSIZE == 0 && (ReadBytes(p) + ZeroBytes(p)) / PGSIZE == Pages(p)
    ensures 1 <= FirstPage(p) && FirstPage(p) + Pages(p) <= USER_PAGES && FilePage(p) <= length
  {
    ValidateMeans(p, length);
    var r := RoundUp(p.vaddr % PGSIZE + p.memsz);
    assert FirstPage(p) * PGSIZE + r < PHYS_BASE + PGSIZE;
  }

  lemma PageZeroAsIs(m: Mem, r: Mem, file: seq<Byte>, p: Phdr)
    requires ValidateSegment(p, |file|)
    requires exists n: nat :: n <= Pages(p) && Loaded(m, r, file, FilePage(p), ReadBytes(p), FirstPage(p), n, MayWrite(p))
    ensures Wf(m) && Wf(r) && Seen(r, 0) == Seen(m, 0)
  {
    hide Wf, Seen, PageOf;
    Sizes(p, |file|);
  }

  lemma OthersAsIs(m: Mem, r: Mem, file: seq<Byte>, p: Phdr)
    requires ValidateSegment(p, |file|) && p.ptype == PT_LOAD
    requires exists n: nat :: n <= Pages(p) && Loaded(m, r, file, FilePage(p), ReadBytes(p), FirstPage(p), n, MayWrite(p))
    ensures Wf(m) && Wf(r) && forall vp :: 0 <= vp < USER_PAGES && !OfSegment(file, p, vp) ==> Seen(r, vp) == Seen(m, vp)
  {
    hide Wf, Seen, PageOf, ValidateSegment, FirstPage, Pages, FilePage, ReadBytes;
  }

  lemma NowInMemory(m: Mem, r: Mem, file: seq<Byte>, p: Phdr)
    requires ValidateSegment(p, |file|) && FilePage(p) + ReadBytes(p) <= |file|
    requires Loaded(m, r, file, FilePage(p), ReadBytes(p), FirstPage(p), Pages(p), MayWrite(p))
    ensures InMemory(r, file, p)
  {
    hide Wf, Seen, PageOf;
    Sizes(p, |file|);
  }

  lemma StaysInMemory(m: Mem, r: Mem, file: seq<Byte>, p: Phdr)
    requires Loaded(m, r, file, FilePage(p), ReadBytes(p), FirstPage(p), Pages(p), MayWrite(p))
    ensures forall q :: InMemory(m, file, q) ==> InMemory(r, file, q)
  {
    hide Wf, Seen, PageOf, FilePage, ReadBytes, FirstPage, Pages, ValidateSegment;
    forall q | InMemory(m, file, q)
      ensures InMemory(r, file, q)
    {
      forall vp | FirstPage(q) <= vp < FirstPage(q) + Pages(q)
        ensures Seen(r, vp) == Seen(m, vp)
      {
        assert Seen(m, vp) != None;
      }
    }
  }

  lemma StackPage(m: Mem, r: Mem, file: seq<Byte>)
    requires Sees(m, r, map[USER_PAGES - 1 := Page(ZeroPage(), true)]) && Seen(m, USER_PAGES - 1) == None
    ensures Seen(r, USER_PAGES - 1) == Some(Page(ZeroPage(), true)) && Seen(r, 0) == Seen(m, 0)
    ensures forall vp :: 0 <= vp < USER_PAGES - 1 ==> Seen(r, vp) == Seen(m, vp)
    ensures forall q :: InMemory(m, file, q) ==> InMemory(r, file, q)
  {
    hide Wf, Seen, PageOf;
  }

  /** The byte at a user address and whether the program may write it. */
  function ByteAt(m: Mem, va: nat): (b: Option<(Byte, bool)>)
    requires Wf(m) && va < PHYS_BASE
  {
    match Seen(m, va / PGSIZE) case None => None case Some(page) => Some((page.bytes[va % PGSIZE], page.writable))
  }

  /** A segment in memory shows the file's bytes and then zeros, writable exactly when its header says so. */
  lemma SegmentBytes(m: Mem, file: seq<Byte>, p: Phdr, i: nat)
    requires InMemory(m, file, p) && i < p.memsz
    ensures PGSIZE <= p.vaddr + i < PHYS_BASE && (i < p.filesz ==> p.offset + i < |file|)
    ensures ByteAt(m, p.vaddr + i) == Some((if i < p.filesz then file[p.offset + i] else 0, MayWrite(p)))
  {
    hide Wf, Seen;
    ValidateMeans(p, |file|);
    var o := p.vaddr % PGSIZE;
    var vp, j := (p.vaddr + i) / PGSIZE, (p.vaddr + i) % PGSIZE;
    var k := vp - FirstPage(p);
    assert k * PGSIZE + j == o + i;
    assert FirstPage(p) <= vp < FirstPage(p) + Pages(p);
    assert FilePage(p) + o == p.offset;
  }
}

/** threads/malloc.c: blocks of a power-of-two size cut from one-page arenas, and big blocks of whole pages.
    Addresses are offsets from the base of the page pool, so page a starts at a * PGSIZE. */
module Malloc {
  import opened Bitmaps
  import opened Bytes
  import opened Machine
  import opened Options
  import opened Sequences

  const ARENA := 12

  datatype Desc = Desc(blockSize: nat, blocksPerArena: nat)

  const DESCS: seq<Desc> :=
    [Desc(16, 255), Desc(32, 127), Desc(64, 63), Desc(128, 31), Desc(256, 15), Desc(512, 7), Desc(1024, 3)]

  function BlockSize(d: nat): (n: nat) requires d < 7 { DESCS[d].blockSize }
  function PerArena(d: nat): (n: nat) requires d < 7 { DESCS[d].blocksPerArena }

  /** block_to_arena, as a page number, and the place of a block in its arena. */
  function Page(b: nat): (a: nat) { b / PGSIZE }
  function Index(b: nat, d: nat): (i: int) requires d < 7 { (b % PGSIZE - ARENA) / BlockSize(d) }

  /** arena_to_block.  An arena's blocks lie inside its page and are told apart by their addresses. */
  function BlockAt(a: nat, i: nat, d: nat): (b: nat)
    requires d < 7
    ensures i < PerArena(d) ==> Page(b) == a && Index(b, d) == i && b + BlockSize(d) <= (a + 1) * PGSIZE
  {
    Inside(a, i, d);
    a * PGSIZE + ARENA + i * BlockSize(d)
  }

  lemma Inside(a: nat, i: nat, d: nat)
    requires d < 7
    ensures var ofs := ARENA + i * BlockSize(d);
      i < PerArena(d) ==> ofs + BlockSize(d) <= PGSIZE && Index(a * PGSIZE + ofs, d) == i && Page(a * PGSIZE + ofs) == a
  {
    hide BlockSize, PerArena;
    if i < PerArena(d) {
      var x := i * BlockSize(d);
      Offset(i, d);
      InPage(a, ARENA + x);
      assert ARENA + x - ARENA == x;
    }
  }

  lemma InPage(a: nat, ofs: nat)
    requires ofs < PGSIZE
    ensures (a * PGSIZE + ofs) % PGSIZE == ofs && Page(a * PGSIZE + ofs) == a
  {
  }

  lemma Offset(i: nat, d: nat)
    requires d < 7 && i < PerArena(d)
    ensures BlockSize(d) > 0 && i * BlockSize(d) + BlockSize(d) <= PGSIZE - ARENA && i * BlockSize(d) / BlockSize(d) == i
  {
    if d == 0 { assert i * 16 / 16 == i; }
    else if d == 1 { assert i * 32 / 32 == i; }
    else if d == 2 { assert i * 64 / 64 == i; }
    else if d == 3 { assert i * 128 / 128 == i; }
    else if d == 4 { assert i * 256 / 256 == i; }
    else if d == 5 { assert i * 512 / 512 == i; }
    else { assert i * 1024 / 1024 == i; }
  }

  predicate IsBlock(b: nat, d: nat)
    requires d < 7
  {
    0 <= Index(b, d) < PerArena(d) && b == BlockAt(Page(b), Index(b, d), d)
  }

  /** The address of a big block: just past the header of its first page. */
  function BigBlock(a: nat): (b: nat)
    ensures Page(b) == a
  {
    a * PGSIZE + ARENA
  }

  /** The header at the start of an arena: freeCnt counts free blocks, or the pages of a big block. */
  datatype Arena = Arena(desc: Option<nat>, freeCnt: nat)

  /** used is the page pool's bitmap; live holds the size asked for of every block handed out. */
  datatype Heap = Heap(used: seq<bool>, free: seq<seq<nat>>, arenas: map<nat, Arena>, live: map<nat, nat>)

  // ---------------------------------------------------------------- the four moves malloc and free are made of

  function Blocks(a: nat, d: nat, n: nat): (s: seq<nat>)
    requires d < 7
    ensures |s| == n
  {
    seq(n, i requires 0 <= i < n => BlockAt(a, i, d))
  }

  function AddArena(h: Heap, a: nat, d: nat): (r: Heap)
    requires d < 7 == |h.free| && a < |h.used|
  {
    h.(used := SetRange(h.used, a, 1, true),
       arenas := h.arenas[a := Arena(Some(d), PerArena(d))],
       free := h.free[d := h.free[d] + Blocks(a, d, PerArena(d))])
  }

  predicate Kept(h: Heap, a: nat) { a in h.arenas && h.arenas[a].freeCnt > 0 }

  function Take(h: Heap, d: nat, size: nat): (r: Heap)
    requires d < 7 == |h.free| && h.free[d] != [] && Kept(h, Page(h.free[d][0]))
  {
    var b := h.free[d][0];
    var a := Page(b);
    h.(free := h.free[d := h.free[d][1..]],
       arenas := h.arenas[a := h.arenas[a].(freeCnt := h.arenas[a].freeCnt - 1)],
       live := h.live[b := size])
  }

  function Give(h: Heap, b: nat, d: nat): (r: Heap)
    requires d < 7 == |h.free| && Page(b) in h.arenas
  {
    var a := Page(b);
    h.(free := h.free[d := [b] + h.free[d]],
       arenas := h.arenas[a := h.arenas[a].(freeCnt := h.arenas[a].freeCnt + 1)],
       live := h.live - {b})
  }

  /** The blocks that are not in page a. */
  function Elsewhere(s: seq<nat>, a: nat): (r: seq<nat>)
    ensures forall x :: x in r <==> x in s && Page(x) != a
  {
    if s == [] then [] else if Page(s[0]) == a then Elsewhere(s[1..], a) else [s[0]] + Elsewhere(s[1..], a)
  }

  function DropArena(h: Heap, a: nat, d: nat): (r: Heap)
    requires d < 7 == |h.free| && a < |h.used|
  {
    h.(used := SetRange(h.used, a, 1, false),
       arenas := h.arenas - {a},
       free := h.free[d := Elsewhere(h.free[d], a)])
  }

  function AddBig(h: Heap, a: nat, pages: nat, size: nat): (r: Heap)
    requires a + pages <= |h.used|
  {
    h.(used := SetRange(h.used, a, pages, true),
       arenas := h.arenas[a := Arena(None, pages)],
       live := h.live[BigBlock(a) := size])
  }

  function DropBig(h: Heap, a: nat): (r: Heap)
    requires a in h.arenas && a + h.arenas[a].freeCnt <= |h.used|
  {
    h.(used := SetRange(h.used, a, h.arenas[a].freeCnt, false),
       arenas := h.arenas - {a},
       live := h.live - {BigBlock(a)})
  }

  // ---------------------------------------------------------------- the invariant

  /** Which of the arena's blocks are on the list. */
  function FreeIdx(list: seq<nat>, a: nat, d: nat): (r: set<nat>)
    requires d < 7
  {
    set i: nat | i < PerArena(d) && BlockAt(a, i, d) in list
  }

  predicate ArenaOk(h: Heap, a: nat)
    requires |h.free| == 7 && a in h.arenas
  {
    match h.arenas[a].desc
    case None => h.arenas[a].freeCnt > 0 && BigBlock(a) in h.live
    case Some(d) => d < 7 && |FreeIdx(h.free[d], a, d)| == h.arenas[a].freeCnt
  }

  predicate OnList(h: Heap, b: nat, d: nat)
    requires d < 7
  {
    IsBlock(b, d) && b !in h.live && Page(b) in h.arenas && h.arenas[Page(b)].desc == Some(d)
  }

  predicate Handed(h: Heap, b: nat)
  {
    && Page(b) in h.arenas
    && match h.arenas[Page(b)].desc
       case None => b == BigBlock(Page(b))
       case Some(d) => d < 7 && IsBlock(b, d)
  }

  /** How many pages the arena takes. */
  function Span(x: Arena): (n: nat) { if x.desc.None? then x.freeCnt else 1 }

  predicate Covers(h: Heap, a: nat, p: nat) { a in h.arenas && a <= p < a + Span(h.arenas[a]) }

  ghost predicate ArenasOk(h: Heap) requires |h.free| == 7 { forall a :: a in h.arenas ==> ArenaOk(h, a) }

  ghost predicate ListsOk(h: Heap)
    requires |h.free| == 7
  {
    forall d :: 0 <= d < 7 ==> Distinct(h.free[d]) && forall b :: b in h.free[d] ==> OnList(h, b, d)
  }

  ghost predicate LiveOk(h: Heap) { forall b :: b in h.live ==> Handed(h, b) }

  /** Every block of an arena is either on its list or handed out. */
  predicate Split(h: Heap, a: nat, i: nat)
    requires |h.free| == 7 && a in h.arenas
  {
    h.arenas[a].desc.Some? && h.arenas[a].desc.value < 7 && i < PerArena(h.arenas[a].desc.value) ==>
      var d := h.arenas[a].desc.value;
      BlockAt(a, i, d) in h.free[d] || BlockAt(a, i, d) in h.live
  }

  ghost predicate Whole(h: Heap) requires |h.free| == 7 { forall a: nat, i: nat :: a in h.arenas ==> Split(h, a, i) }

  /** The pool's bitmap marks what was marked to begin with and the pages of the arenas. */
  ghost predicate PagesOk(h: Heap, base: seq<bool>)
  {
    && |base| == |h.used|
    && (forall a: nat, p: nat :: Covers(h, a, p) ==> p < |h.used| && h.used[p] && !base[p])
    && (forall p :: 0 <= p < |h.used| && h.used[p] && !base[p] ==> exists a: nat :: Covers(h, a, p))
    && (forall p :: 0 <= p < |h.used| && base[p] ==> h.used[p])
    && (forall a: nat, a': nat, p: nat :: Covers(h, a, p) && Covers(h, a', p) ==> a == a')
  }

  ghost predicate Sound(h: Heap, base: seq<bool>)
  {
    |h.free| == 7 && ArenasOk(h) && ListsOk(h) && LiveOk(h) && Whole(h) && PagesOk(h, base)
  }

  /** An arena is kept only while one of its blocks is handed out. */
  predicate Busy(h: Heap, a: nat)
    requires a in h.arenas
  {
    h.arenas[a].desc.Some? && h.arenas[a].desc.value < 7 ==> h.arenas[a].freeCnt < PerArena(h.arenas[a].desc.value)
  }

  ghost predicate Inv(h: Heap, base: seq<bool>) { Sound(h, base) && forall a :: a in h.arenas ==> Busy(h, a) }

  // ---------------------------------------------------------------- sets of indices

  function UpTo(n: nat): (s: set<nat>)
    ensures forall i: nat :: i in s <==> i < n
    ensures |s| == n
  {
    if n == 0 then {} else UpTo(n - 1) + {n - 1}
  }

  lemma {:induction false} SubsetSize(s: set<nat>, t: set<nat>)
    requires s <= t
    ensures |s| <= |t| && (|s| == |t| ==> s == t)
    decreases |s|
  {
    if x :| x in s {
      SubsetSize(s - {x}, t - {x});
      assert s == (s - {x}) + {x} && t == (t - {x}) + {x};
    }
  }

  /** The count reaches the number of blocks exactly when every block is on the list. */
  lemma FullArena(list: seq<nat>, a: nat, d: nat)
    requires d < 7
    ensures |FreeIdx(list, a, d)| <= PerArena(d)
    ensures |FreeIdx(list, a, d)| == PerArena(d) <==> forall i: nat :: i < PerArena(d) ==> BlockAt(a, i, d) in list
  {
    var all := UpTo(PerArena(d));
    SubsetSize(FreeIdx(list, a, d), all);
    if forall i: nat :: i < PerArena(d) ==> BlockAt(a, i, d) in list {
      assert FreeIdx(list, a, d) == all;
    } else {
      var i: nat :| i < PerArena(d) && BlockAt(a, i, d) !in list;
      assert i in all && i !in FreeIdx(list, a, d);
    }
  }

  // ---------------------------------------------------------------- what the lists count

  /** Only an arena's own blocks count for it. */
  lemma SameIdx(s: seq<nat>, t: seq<nat>, a: nat, d: nat)
    requires d < 7 && forall b :: Page(b) == a ==> (b in s <==> b in t)
    ensures FreeIdx(s, a, d) == FreeIdx(t, a, d)
  {
  }

  lemma IdxGrows(s: seq<nat>, t: seq<nat>, b: nat, d: nat)
    requires d < 7 && IsBlock(b, d) && b !in s && forall x :: x in t <==> x in s || x == b
    ensures |FreeIdx(t, Page(b), d)| == |FreeIdx(s, Page(b), d)| + 1
  {
    hide BlockAt, Page, Index;
    assert FreeIdx(t, Page(b), d) == FreeIdx(s, Page(b), d) + {Index(b, d)};
  }

  lemma NotYetAnArena(h: Heap, base: seq<bool>, a: nat)
    requires Sound(h, base) && a < |h.used| && !h.used[a]
    ensures a !in h.arenas
    ensures forall b :: Page(b) == a ==> b !in h.live && forall d :: 0 <= d < 7 ==> b !in h.free[d]
  {
    if a in h.arenas {
      assert ArenaOk(h, a);
      assert Covers(h, a, a);
    }
  }

  lemma AddArenaKeeps(h: Heap, base: seq<bool>, a: nat, d: nat)
    requires Sound(h, base) && a < |h.used| && !h.used[a] && d < 7
    ensures Sound(AddArena(h, a, d), base) && a !in h.arenas
  {
    var r := AddArena(h, a, d);
    NotYetAnArena(h, base, a);
    AddedBlocks(h.free[d], a, d);
    AddArenaCounts(h, a, d);
    AddArenaLists(h, a, d);
    AddArenaPages(h, base, a, d);
    assert Whole(r) by {
      hide BlockAt, Page, Index;
      forall x: nat, i: nat | x in r.arenas
        ensures Split(r, x, i)
      {
        if x != a { assert Split(h, x, i); }
      }
    }
  }

  lemma AddedBlocks(list: seq<nat>, a: nat, d: nat)
    requires d < 7
    ensures forall b :: b in list + Blocks(a, d, PerArena(d)) <==> b in list || (Page(b) == a && IsBlock(b, d))
  {
    hide BlockAt, Page, Index;
    var new' := Blocks(a, d, PerArena(d));
    forall b | Page(b) == a && IsBlock(b, d)
      ensures b in new'
    {
      assert new'[Index(b, d)] == b;
    }
    assert forall b :: b in new' ==> Page(b) == a && IsBlock(b, d);
  }

  lemma AddArenaCounts(h: Heap, a: nat, d: nat)
    requires |h.free| == 7 && ArenasOk(h) && a < |h.used| && d < 7 && a !in h.arenas
    requires forall b :: b in h.free[d] + Blocks(a, d, PerArena(d)) <==> b in h.free[d] || (Page(b) == a && IsBlock(b, d))
    ensures ArenasOk(AddArena(h, a, d))
  {
    hide BlockAt, Page, Index;
    var r := AddArena(h, a, d);
    forall x | x in r.arenas
      ensures ArenaOk(r, x)
    {
      if x == a {
        FullArena(r.free[d], a, d);
      } else {
        assert ArenaOk(h, x);
        if r.arenas[x].desc == Some(d) { SameIdx(h.free[d], r.free[d], x, d); }
      }
    }
  }

  lemma AddArenaLists(h: Heap, a: nat, d: nat)
    requires |h.free| == 7 && ListsOk(h) && LiveOk(h) && a < |h.used| && d < 7 && a !in h.arenas
    requires forall b :: b in h.free[d] + Blocks(a, d, PerArena(d)) <==> b in h.free[d] || (Page(b) == a && IsBlock(b, d))
    ensures ListsOk(AddArena(h, a, d)) && LiveOk(AddArena(h, a, d))
  {
    hide BlockAt, Page, Index;
    var r := AddArena(h, a, d);
    forall e, b | 0 <= e < 7 && b in r.free[e]
      ensures OnList(r, b, e)
    {
      if b in h.free[e] { assert OnList(h, b, e); }
    }
    assert Distinct(r.free[d]) by {
      var new' := Blocks(a, d, PerArena(d));
      assert forall i :: 0 <= i < |new'| ==> Index(new'[i], d) == i && Page(new'[i]) == a;
      assert forall b :: b in h.free[d] ==> OnList(h, b, d);
      DistinctJoin(h.free[d], new');
    }
    assert forall b :: b in r.live ==> Handed(h, b);
  }

  lemma DistinctJoin(s: seq<nat>, t: seq<nat>)
    requires Distinct(s) && Distinct(t) && forall x :: x in s ==> x !in t
    ensures Distinct(s + t)
  {
    assert forall i :: 0 <= i < |s| ==> s[i] in s;
    assert forall j :: 0 <= j < |t| ==> t[j] in t;
  }

  lemma AddArenaPages(h: Heap, base: seq<bool>, a: nat, d: nat)
    requires |h.free| == 7 && PagesOk(h, base) && a < |h.used| && d < 7 && a !in h.arenas && !h.used[a]
    ensures PagesOk(AddArena(h, a, d), base)
  {
    hide BlockAt, Page, Index;
    var r := AddArena(h, a, d);
    TakenPages(h, r, base, a, Arena(Some(d), PerArena(d)));
  }

  lemma TakenPages(h: Heap, r: Heap, base: seq<bool>, a: nat, x: Arena)
    requires PagesOk(h, base) && a + Span(x) <= |h.used| && AllAre(h.used, a, Span(x), false) && a !in h.arenas
    requires r.arenas == h.arenas[a := x] && r.used == SetRange(h.used, a, Span(x), true)
    ensures PagesOk(r, base)
  {
    forall c: nat, p: nat
      ensures Covers(r, c, p) <==> Covers(h, c, p) || (c == a && a <= p < a + Span(x))
      ensures Covers(h, c, p) ==> !(a <= p < a + Span(x))
    {
    }
    forall p | 0 <= p < |r.used| && r.used[p] && !base[p]
      ensures exists c: nat :: Covers(r, c, p)
    {
      if a <= p < a + Span(x) {
        assert Covers(r, a, p);
      } else {
        var c: nat :| Covers(h, c, p);
        assert Covers(r, c, p);
      }
    }
  }

  lemma FreedPages(h: Heap, r: Heap, base: seq<bool>, a: nat)
    requires PagesOk(h, base) && a in h.arenas && a + Span(h.arenas[a]) <= |h.used|
    requires r.arenas == h.arenas - {a} && r.used == SetRange(h.used, a, Span(h.arenas[a]), false)
    ensures PagesOk(r, base)
  {
    var n := Span(h.arenas[a]);
    forall c: nat, p: nat
      ensures Covers(r, c, p) <==> Covers(h, c, p) && c != a
      ensures Covers(h, a, p) <==> a <= p < a + n
    {
    }
    assert forall p :: 0 <= p < |base| && base[p] ==> !Covers(h, a, p);
    forall p | 0 <= p < |r.used| && r.used[p] && !base[p]
      ensures exists c: nat :: Covers(r, c, p)
    {
      var c: nat :| Covers(h, c, p);
      assert Covers(r, c, p);
    }
  }

  lemma TakeKeeps(h: Heap, base: seq<bool>, d: nat, size: nat)
    requires Sound(h, base) && d < 7 && h.free[d] != []
    ensures Kept(h, Page(h.free[d][0])) && Sound(Take(h, d, size), base)
    ensures h.free[d][0] !in h.live
  {
    hide BlockAt, Page, Index;
    var b := h.free[d][0];
    assert OnList(h, b, d);
    var a := Page(b);
    assert ArenaOk(h, a);
    assert Index(b, d) in FreeIdx(h.free[d], a, d);
    var r := Take(h, d, size);
    TakeCounts(h, d, size);
    TakeLists(h, d, size);
    SamePages(h, r, base);
  }

  lemma First(s: seq<nat>)
    requires Distinct(s) && s != []
    ensures Distinct(s[1..]) && forall x :: x in s[1..] <==> x in s && x != s[0]
  {
    assert s == [s[0]] + s[1..];
  }

  lemma TakeCounts(h: Heap, d: nat, size: nat)
    requires |h.free| == 7 && ArenasOk(h) && ListsOk(h) && d < 7 && h.free[d] != [] && Kept(h, Page(h.free[d][0]))
    ensures ArenasOk(Take(h, d, size))
  {
    hide BlockAt, Page, Index;
    var b, r := h.free[d][0], Take(h, d, size);
    assert OnList(h, b, d);
    First(h.free[d]);
    forall x | x in r.arenas
      ensures ArenaOk(r, x)
    {
      assert ArenaOk(h, x);
      if x == Page(b) { IdxGrows(r.free[d], h.free[d], b, d); }
      else if r.arenas[x].desc == Some(d) { SameIdx(h.free[d], r.free[d], x, d); }
    }
  }

  lemma TakeLists(h: Heap, d: nat, size: nat)
    requires |h.free| == 7 && ListsOk(h) && LiveOk(h) && Whole(h) && d < 7 && h.free[d] != [] && Kept(h, Page(h.free[d][0]))
    ensures ListsOk(Take(h, d, size)) && LiveOk(Take(h, d, size)) && Whole(Take(h, d, size))
  {
    hide BlockAt, Page, Index;
    var b, r := h.free[d][0], Take(h, d, size);
    assert OnList(h, b, d);
    First(h.free[d]);
    forall e, x | 0 <= e < 7 && x in r.free[e]
      ensures OnList(r, x, e)
    {
      assert OnList(h, x, e);
    }
    forall x | x in r.live
      ensures Handed(r, x)
    {
      if x != b { assert Handed(h, x); }
    }
    forall x: nat, i: nat | x in r.arenas
      ensures Split(r, x, i)
    {
      assert Split(h, x, i);
    }
  }

  lemma SamePages(h: Heap, r: Heap, base: seq<bool>)
    requires PagesOk(h, base) && r.used == h.used && r.arenas.Keys == h.arenas.Keys
    requires forall a :: a in h.arenas ==> Span(r.arenas[a]) == Span(h.arenas[a])
    ensures PagesOk(r, base)
  {
    assert forall a: nat, p: nat :: Covers(r, a, p) == Covers(h, a, p);
    forall p | 0 <= p < |r.used| && r.used[p] && !base[p]
      ensures exists c: nat :: Covers(r, c, p)
    {
      var c: nat :| Covers(h, c, p);
      assert Covers(r, c, p);
    }
  }

  lemma GiveKeeps(h: Heap, base: seq<bool>, b: nat, d: nat)
    requires Sound(h, base) && b in h.live && d < 7 && h.arenas[Page(b)].desc == Some(d)
    ensures Sound(Give(h, b, d), base)
  {
    hide BlockAt, Page, Index;
    assert Handed(h, b);
    var r := Give(h, b, d);
    assert b !in h.free[d] by { assert b in h.free[d] ==> OnList(h, b, d); }
    GiveCounts(h, b, d);
    GiveLists(h, b, d);
    SamePages(h, r, base);
  }

  lemma GiveCounts(h: Heap, b: nat, d: nat)
    requires |h.free| == 7 && ArenasOk(h) && b in h.live && Handed(h, b) && d < 7
    requires h.arenas[Page(b)].desc == Some(d) && b !in h.free[d]
    ensures ArenasOk(Give(h, b, d))
  {
    hide BlockAt, Page, Index;
    var r := Give(h, b, d);
    assert forall x :: x in r.free[d] <==> x in h.free[d] || x == b;
    forall x | x in r.arenas
      ensures ArenaOk(r, x)
    {
      assert ArenaOk(h, x);
      if x == Page(b) { IdxGrows(h.free[d], r.free[d], b, d); }
      else if r.arenas[x].desc == Some(d) { SameIdx(h.free[d], r.free[d], x, d); }
    }
  }

  lemma GiveLists(h: Heap, b: nat, d: nat)
    requires |h.free| == 7 && ListsOk(h) && LiveOk(h) && Whole(h) && b in h.live && Handed(h, b) && d < 7
    requires h.arenas[Page(b)].desc == Some(d) && b !in h.free[d]
    ensures ListsOk(Give(h, b, d)) && LiveOk(Give(h, b, d)) && Whole(Give(h, b, d))
  {
    hide BlockAt, Page, Index;
    var r := Give(h, b, d);
    DistinctJoin([b], h.free[d]);
    forall e, x | 0 <= e < 7 && x in r.free[e]
      ensures OnList(r, x, e)
    {
      if x in h.free[e] { assert OnList(h, x, e); }
    }
    forall x | x in r.live
      ensures Handed(r, x)
    {
      assert Handed(h, x);
    }
    forall x: nat, i: nat | x in r.arenas
      ensures Split(r, x, i)
    {
      assert Split(h, x, i);
    }
  }

  /** An arena all of whose blocks are on the list can go. */
  lemma DropArenaKeeps(h: Heap, base: seq<bool>, a: nat, d: nat)
    requires Sound(h, base) && d < 7 && a in h.arenas && h.arenas[a] == Arena(Some(d), PerArena(d))
    ensures a < |h.used| && Sound(DropArena(h, a, d), base)
  {
    hide BlockAt, Page, Index;
    assert Covers(h, a, a);
    assert ArenaOk(h, a);
    FullArena(h.free[d], a, d);
    var r := DropArena(h, a, d);
    DropLists(h, a, d);
    FreedPages(h, r, base, a);
    forall x | x in r.arenas
      ensures ArenaOk(r, x)
    {
      assert ArenaOk(h, x);
      if r.arenas[x].desc == Some(d) { SameIdx(h.free[d], r.free[d], x, d); }
    }
  }

  lemma DropLists(h: Heap, a: nat, d: nat)
    requires |h.free| == 7 && ListsOk(h) && LiveOk(h) && Whole(h) && d < 7 && a in h.arenas && a < |h.used|
    requires h.arenas[a].desc == Some(d) && forall i: nat :: i < PerArena(d) ==> BlockAt(a, i, d) in h.free[d]
    ensures ListsOk(DropArena(h, a, d)) && LiveOk(DropArena(h, a, d)) && Whole(DropArena(h, a, d))
  {
    hide BlockAt, Page, Index;
    var r := DropArena(h, a, d);
    ElsewhereIsDistinct(h.free[d], a);
    forall e, x | 0 <= e < 7 && x in r.free[e]
      ensures OnList(r, x, e)
    {
      assert OnList(h, x, e);
    }
    forall x | x in r.live
      ensures Handed(r, x)
    {
      assert Handed(h, x);
      assert x in h.free[d] ==> OnList(h, x, d);
    }
    forall x: nat, i: nat | x in r.arenas
      ensures Split(r, x, i)
    {
      assert Split(h, x, i);
    }
  }

  lemma ElsewhereIsDistinct(s: seq<nat>, a: nat)
    requires Distinct(s)
    ensures Distinct(Elsewhere(s, a))
  {
    if s != [] {
      First(s);
      ElsewhereIsDistinct(s[1..], a);
    }
  }

  lemma AddBigKeeps(h: Heap, base: seq<bool>, a: nat, pages: nat, size: nat)
    requires Sound(h, base) && pages > 0 && a + pages <= |h.used| && AllAre(h.used, a, pages, false)
    ensures a !in h.arenas && BigBlock(a) !in h.live && Sound(AddBig(h, a, pages, size), base)
  {
    hide BlockAt, Page, Index;
    NotYetAnArena(h, base, a);
    var r := AddBig(h, a, pages, size);
    TakenPages(h, r, base, a, Arena(None, pages));
    assert forall x: nat :: x in h.arenas ==> ArenaOk(h, x);
    forall x: nat, i: nat | x in r.arenas
      ensures Split(r, x, i)
    {
      if x != a { assert Split(h, x, i); }
    }
    forall e, x | 0 <= e < 7 && x in r.free[e]
      ensures OnList(r, x, e)
    {
      assert OnList(h, x, e);
    }
    assert forall x :: x in h.live ==> Handed(h, x);
  }

  lemma DropBigKeeps(h: Heap, base: seq<bool>, a: nat)
    requires Sound(h, base) && a in h.arenas && h.arenas[a].desc == None
    ensures a + h.arenas[a].freeCnt <= |h.used| && Sound(DropBig(h, a), base)
  {
    hide BlockAt, Page, Index;
    assert ArenaOk(h, a);
    assert Covers(h, a, a + h.arenas[a].freeCnt - 1);
    var r := DropBig(h, a);
    FreedPages(h, r, base, a);
    forall x | x in r.arenas
      ensures ArenaOk(r, x)
    {
      assert ArenaOk(h, x);
    }
    forall x: nat, i: nat | x in r.arenas
      ensures Split(r, x, i)
    {
      assert Split(h, x, i);
      if r.arenas[x].desc.Some? && r.arenas[x].desc.value < 7 && i < PerArena(r.arenas[x].desc.value) {
        assert Page(BlockAt(x, i, r.arenas[x].desc.value)) == x;
      }
    }
    forall e, x | 0 <= e < 7 && x in r.free[e]
      ensures OnList(r, x, e)
    {
      assert OnList(h, x, e);
    }
    forall x | x in r.live
      ensures Handed(r, x)
    {
      assert Handed(h, x);
    }
  }

  // ---------------------------------------------------------------- malloc and free

  /** The smallest descriptor for the size; 7 when there is none. */
  function DescFor(size: nat): (d: nat)
    ensures d <= 7 && (d < 7 ==> size <= BlockSize(d)) && (d > 0 ==> size > BlockSize(d - 1))
  {
    if size <= 16 then 0 else if size <= 32 then 1 else if size <= 64 then 2 else if size <= 128 then 3
    else if size <= 256 then 4 else if size <= 512 then 5 else if size <= 1024 then 6 else 7
  }

  /** The pages for a big block; the sums are of unsigned 32-bit numbers. */
  function PageCnt(size: nat): (n: nat) { (((size + ARENA) % BASE + PGSIZE - 1) % BASE) / PGSIZE }

  function FindPages(used: seq<bool>, n: nat): (r: Option<nat>)
    ensures r.Some? ==> n > 0 && r.value + n <= |used| && AllAre(used, r.value, n, false)
  {
    FirstFitIsLowest(used, 0, n, false);
    if n == 0 then None else FirstFit(used, 0, n, false)
  }

  predicate Ready(h: Heap)
  {
    |h.free| == 7 && forall d :: 0 <= d < 7 && h.free[d] != [] ==> Kept(h, Page(h.free[d][0]))
  }

  function Malloced(h: Heap, size: nat): (r: (Heap, Option<nat>))
    requires Ready(h)
  {
    if size == 0 then (h, None)
    else if DescFor(size) == 7 then
      match FindPages(h.used, PageCnt(size))
      case None => (h, None)
      case Some(a) => (AddBig(h, a, PageCnt(size), size), Some(BigBlock(a)))
    else
      var d := DescFor(size);
      if h.free[d] != [] then (Take(h, d, size), Some(h.free[d][0]))
      else
        match FindPages(h.used, 1)
        case None => (h, None)
        case Some(a) =>
          var g := AddArena(h, a, d);
          assert g.free[d][0] == BlockAt(a, 0, d);
          (Take(g, d, size), Some(g.free[d][0]))
  }

  /** What free demands: a block that malloc handed out. */
  predicate Freeable(h: Heap, b: nat)
  {
    && |h.free| == 7 && b in h.live && Handed(h, b) && Page(b) + Span(h.arenas[Page(b)]) <= |h.used|
  }

  function Freed(h: Heap, b: nat): (r: Heap)
    requires Freeable(h, b)
  {
    var a := Page(b);
    match h.arenas[a].desc
    case None => DropBig(h, a)
    case Some(d) =>
      var g := Give(h, b, d);
      if g.arenas[a].freeCnt >= PerArena(d) then DropArena(g, a, d) else g
  }

  lemma SoundIsReady(h: Heap, base: seq<bool>)
    requires Sound(h, base)
    ensures Ready(h)
  {
    forall d | 0 <= d < 7 && h.free[d] != []
      ensures Kept(h, Page(h.free[d][0]))
    {
      TakeKeeps(h, base, d, 0);
    }
  }

  lemma MallocKeepsInv(h: Heap, base: seq<bool>, size: nat)
    requires Inv(h, base)
    ensures Ready(h)
    ensures Inv(Malloced(h, size).0, base)
    ensures Malloced(h, size).1.Some? ==> Malloced(h, size).1.value !in h.live && Malloced(h, size).0.live == h.live[Malloced(h, size).1.value := size]
    ensures Malloced(h, size).1.None? ==> Malloced(h, size).0 == h
  {
    hide BlockAt, Page, Index, PageCnt, ArenasOk, ListsOk, LiveOk, Whole, PagesOk;
    SoundIsReady(h, base);
    if size == 0 {
    } else if DescFor(size) == 7 {
      var f := FindPages(h.used, PageCnt(size));
      if f.Some? { AddBigKeeps(h, base, f.value, PageCnt(size), size); }
    } else {
      var d := DescFor(size);
      if h.free[d] != [] {
        TakeKeeps(h, base, d, size);
        TakeBusy(h, base, d, size);
      } else {
        var f := FindPages(h.used, 1);
        if f.Some? {
          AddArenaKeeps(h, base, f.value, d);
          var g := AddArena(h, f.value, d);
          assert g.free[d][0] == BlockAt(f.value, 0, d);
          TakeKeeps(g, base, d, size);
        }
      }
    }
  }

  lemma TakeBusy(h: Heap, base: seq<bool>, d: nat, size: nat)
    requires Inv(h, base) && d < 7 && h.free[d] != [] && Kept(h, Page(h.free[d][0]))
    ensures forall a :: a in Take(h, d, size).arenas ==> Busy(Take(h, d, size), a)
  {
    hide BlockAt, Page, Index;
    forall a | a in Take(h, d, size).arenas
      ensures Busy(Take(h, d, size), a)
    {
      assert Busy(h, a);
    }
  }

  lemma LiveIsFreeable(h: Heap, base: seq<bool>, b: nat)
    requires Sound(h, base) && b in h.live
    ensures Freeable(h, b)
  {
    assert Handed(h, b);
    var a: nat := Page(b);
    assert ArenaOk(h, a);
    var n := Span(h.arenas[a]);
    assert Covers(h, a, a + n - 1);
  }

  /** free keeps the invariant, and the count in the header never passes the number of blocks. */
  lemma FreeKeepsInv(h: Heap, base: seq<bool>, b: nat)
    requires Inv(h, base) && b in h.live
    ensures Freeable(h, b) && Inv(Freed(h, b), base) && Freed(h, b).live == h.live - {b}
    ensures h.arenas[Page(b)].desc.Some? ==> h.arenas[Page(b)].freeCnt + 1 <= PerArena(h.arenas[Page(b)].desc.value)
  {
    LiveIsFreeable(h, base, b);
    hide BlockAt, Page, Index;
    var a := Page(b);
    assert Busy(h, a);
    match h.arenas[a].desc
    case None => DropBigKeeps(h, base, a);
    case Some(d) =>
      GiveKeeps(h, base, b, d);
      var g := Give(h, b, d);
      if g.arenas[a].freeCnt >= PerArena(d) {
        DropArenaKeeps(g, base, a, d);
        assert forall x: nat :: x in h.arenas ==> Busy(h, x);
      } else {
        assert forall x: nat :: x in h.arenas ==> Busy(h, x);
      }
  }

  // ---------------------------------------------------------------- what any sequence of calls keeps

  datatype Call = MallocCall(size: nat) | FreeCall(block: nat)

  ghost predicate Runs(h: Heap, calls: seq<Call>, r: Heap)
    decreases |calls|
  {
    if calls == [] then r == h
    else match calls[0]
      case MallocCall(size) => size < BASE && Ready(h) && Runs(Malloced(h, size).0, calls[1..], r)
      case FreeCall(b) => b in h.live && Freeable(h, b) && Runs(Freed(h, b), calls[1..], r)
  }

  predicate Init(h: Heap)
  {
    h.free == [[], [], [], [], [], [], []] && h.arenas == map[] && h.live == map[]
  }

  lemma {:induction false} RunKeepsInv(h: Heap, base: seq<bool>, calls: seq<Call>, r: Heap)
    requires Inv(h, base) && Runs(h, calls, r)
    ensures Inv(r, base)
    decreases |calls|
  {
    if calls != [] {
      match calls[0]
      case MallocCall(size) =>
        MallocKeepsInv(h, base, size);
        RunKeepsInv(Malloced(h, size).0, base, calls[1..], r);
      case FreeCall(b) =>
        FreeKeepsInv(h, base, b);
        RunKeepsInv(Freed(h, b), base, calls[1..], r);
    }
  }

  lemma InvAfter(h: Heap, calls: seq<Call>, r: Heap)
    requires Init(h) && Runs(h, calls, r)
    ensures Inv(r, h.used)
  {
    assert forall a: nat, p: nat :: !Covers(h, a, p);
    RunKeepsInv(h, h.used, calls, r);
  }

  /** The bytes the block's owner may use: block_size. */
  function Room(h: Heap, b: nat): (n: int)
    requires Handed(h, b)
  {
    var x := h.arenas[Page(b)];
    if x.desc.Some? then BlockSize(x.desc.value) else PGSIZE * x.freeCnt - b % PGSIZE
  }

  /** A big request is given enough pages exactly when the sum with the header does not wrap around;
      between BASE - 11 and BASE - 1 bytes it is given a single page. */
  lemma PagesSuffice(size: nat)
    requires 1024 < size < BASE && PageCnt(size) > 0
    ensures PageCnt(size) * PGSIZE - ARENA >= size <==> size <= BASE - ARENA
    ensures size > BASE - ARENA ==> PageCnt(size) == 1
    ensures size <= BASE - ARENA ==> (PageCnt(size) - 1) * PGSIZE - ARENA < size
  {
  }

  /** Whatever the heap's state, the block malloc returns is big enough exactly when size is at most BASE - 12. */
  lemma BigEnoughExactly(h: Heap, base: seq<bool>, size: nat)
    requires Inv(h, base) && size < BASE && Ready(h) && Malloced(h, size).1.Some?
    ensures var (r, b) := Malloced(h, size); Handed(r, b.value) && (Room(r, b.value) >= size <==> size <= BASE - ARENA)
  {
    MallocKeepsInv(h, base, size);
    var (r, b) := Malloced(h, size);
    assert Handed(r, b.value);
    if DescFor(size) == 7 {
      PagesSuffice(size);
    } else {
      SmallBlock(h, base, size);
    }
  }

  /** The class of blocks that a small request is served from: the first that is big enough. */
  predicate ClassOf(size: nat, d: nat) { d < 7 && size <= BlockSize(d) && forall e: nat :: e < d ==> BlockSize(e) < size }

  /** n pages are what a big request asks the pool for: just enough for the size and the header, added up in 32 bits. */
  predicate Wants(size: nat, n: nat) { 0 < n && (n - 1) * PGSIZE < (size + ARENA) % BASE <= n * PGSIZE < BASE }

  /** There is something to give: a listed block of the request's class or a free page, or for a big request a free
      group of the pages it wants. */
  ghost predicate CanGrant(h: Heap, size: nat)
    requires |h.free| == 7
  {
    if size <= 1024 then
      size > 0 && ((exists d: nat :: ClassOf(size, d) && h.free[d] != []) || exists p :: 0 <= p < |h.used| && !h.used[p])
    else
      exists n: nat, a: nat :: Wants(size, n) && Fits(h.used, a, n, false)
  }

  /** malloc returns a block if and only if there is something to give. */
  lemma GrantedExactly(h: Heap, base: seq<bool>, size: nat)
    requires Inv(h, base) && size < BASE
    ensures Ready(h) && (Malloced(h, size).1.Some? <==> CanGrant(h, size))
  {
    SoundIsReady(h, base);
    hide BlockAt, Page, Index, Inv;
    if size > 1024 {
      BigGranted(h, size);
    } else if size > 0 {
      SmallGranted(h, size);
    }
  }

  lemma BigGranted(h: Heap, size: nat)
    requires Ready(h) && 1024 < size < BASE
    ensures Malloced(h, size).1.Some? <==> CanGrant(h, size)
  {
    var m := PageCnt(size);
    assert DescFor(size) == 7;
    forall n: nat ensures Wants(size, n) <==> n == m && n > 0 { WantsIs(size, n); }
    hide PageCnt, Wants, DescFor;
    FirstFitIsLowest(h.used, 0, m, false);
    hide FirstFit, AllAre;
  }

  lemma WantsIs(size: nat, n: nat)
    ensures Wants(size, n) <==> n == PageCnt(size) && n > 0
  {
    var x := (size + ARENA) % BASE;
    if x + PGSIZE - 1 < BASE {
      assert (x + PGSIZE - 1) % BASE == x + PGSIZE - 1;
    } else {
      assert (x + PGSIZE - 1) % BASE == x + PGSIZE - 1 - BASE;
    }
  }

  lemma SmallGranted(h: Heap, size: nat)
    requires Ready(h) && 0 < size <= 1024
    ensures Malloced(h, size).1.Some? <==> CanGrant(h, size)
  {
    var c := DescFor(size);
    assert c < 7 && forall d: nat :: ClassOf(size, d) <==> d == c by { ClassIs(size); }
    hide DescFor, ClassOf, BlockAt;
    FirstFitIsLowest(h.used, 0, 1, false);
    hide FirstFit;
    assert forall p: nat :: Fits(h.used, p, 1, false) <==> p < |h.used| && !h.used[p];
  }

  lemma ClassIs(size: nat)
    requires size <= 1024
    ensures DescFor(size) < 7 && forall d: nat :: ClassOf(size, d) <==> d == DescFor(size)
  {
  }

  lemma SmallBlock(h: Heap, base: seq<bool>, size: nat)
    requires Inv(h, base) && 0 < size && DescFor(size) < 7 && Ready(h) && Malloced(h, size).1.Some?
    ensures var (r, b) := Malloced(h, size); Page(b.value) in r.arenas && r.arenas[Page(b.value)].desc == Some(DescFor(size))
  {
    hide BlockAt, Page, Index;
    var d := DescFor(size);
    if h.free[d] != [] {
      assert OnList(h, h.free[d][0], d);
    } else {
      var a := FindPages(h.used, 1).value;
      assert AddArena(h, a, d).free[d][0] == BlockAt(a, 0, d);
    }
  }

  /** malloc leaves the room of every live block alone. */
  lemma RoomsKept(h: Heap, base: seq<bool>, size: nat, b: nat)
    requires Inv(h, base) && Ready(h) && b in h.live
    ensures Handed(h, b) && Handed(Malloced(h, size).0, b) && Room(Malloced(h, size).0, b) == Room(h, b)
  {
    hide BlockAt, Index, PageCnt;
    MallocKeepsInv(h, base, size);
    assert Handed(h, b);
    assert b in Malloced(h, size).0.live;
    ArenasKept(h, base, size, Page(b));
  }

  /** The arena is still there, for blocks of the same size, or untouched if it is a big block's. */
  predicate ArenaKept(h: Heap, r: Heap, a: nat)
  {
    a in h.arenas && a in r.arenas && r.arenas[a].desc == h.arenas[a].desc && (h.arenas[a].desc.None? ==> r.arenas[a] == h.arenas[a])
  }

  lemma ArenasKept(h: Heap, base: seq<bool>, size: nat, a: nat)
    requires Inv(h, base) && Ready(h) && a in h.arenas
    ensures ArenaKept(h, Malloced(h, size).0, a)
  {
    hide BlockAt, Page, Index, PageCnt, Inv, FindPages;
    var d := DescFor(size);
    if d == 7 {
      var f := FindPages(h.used, PageCnt(size));
      if f.Some? { FreePageIsNoArena(h, base, f.value, PageCnt(size)); }
    } else if h.free[d] != [] {
      TakenFrom(h, base, d);
    } else {
      var f := FindPages(h.used, 1);
      if f.Some? {
        FreePageIsNoArena(h, base, f.value, 1);
        assert AddArena(h, f.value, d).free[d][0] == BlockAt(f.value, 0, d);
      }
    }
  }

  lemma TakenFrom(h: Heap, base: seq<bool>, d: nat)
    requires Inv(h, base) && d < 7 && h.free[d] != []
    ensures Page(h.free[d][0]) in h.arenas && h.arenas[Page(h.free[d][0])].desc == Some(d)
  {
    assert OnList(h, h.free[d][0], d);
  }

  lemma FreePageIsNoArena(h: Heap, base: seq<bool>, a: nat, n: nat)
    requires Inv(h, base) && n > 0 && a + n <= |h.used| && AllAre(h.used, a, n, false)
    ensures a !in h.arenas
  {
    NotYetAnArena(h, base, a);
  }

  /** free leaves the room of every other live block alone. */
  lemma RoomsKeptByFree(h: Heap, base: seq<bool>, b: nat, c: nat)
    requires Inv(h, base) && b in h.live && c in h.live && b != c
    ensures Freeable(h, b) && Handed(h, c) && Handed(Freed(h, b), c) && Room(Freed(h, b), c) == Room(h, c)
  {
    FreeKeepsInv(h, base, b);
    LiveIsFreeable(h, base, c);
    LiveIsFreeable(Freed(h, b), base, c);
  }

  /** A live block has room for the size asked for exactly when that size is at most BASE - 12. */
  ghost predicate Enough(h: Heap)
  {
    forall b :: b in h.live ==> Handed(h, b) && (Room(h, b) >= h.live[b] <==> h.live[b] <= BASE - ARENA)
  }

  lemma MallocKeepsEnough(h: Heap, base: seq<bool>, size: nat)
    requires Inv(h, base) && Enough(h) && size < BASE
    ensures Ready(h) && Enough(Malloced(h, size).0)
  {
    hide Inv, Malloced, Handed, Room;
    MallocKeepsInv(h, base, size);
    var (r, p) := Malloced(h, size);
    if p.Some? {
      BigEnoughExactly(h, base, size);
      forall b | b in h.live
        ensures Handed(h, b) && Handed(r, b) && Room(r, b) == Room(h, b)
      {
        RoomsKept(h, base, size, b);
      }
    }
  }

  lemma FreeKeepsEnough(h: Heap, base: seq<bool>, b: nat)
    requires Inv(h, base) && Enough(h) && b in h.live
    ensures Freeable(h, b) && Enough(Freed(h, b))
  {
    hide Inv, Freed, Handed, Room, Freeable;
    FreeKeepsInv(h, base, b);
    forall c | c in h.live && c != b
      ensures Handed(h, c) && Handed(Freed(h, b), c) && Room(Freed(h, b), c) == Room(h, c)
    {
      RoomsKeptByFree(h, base, b, c);
    }
  }

  lemma {:induction false} RunKeepsEnough(h: Heap, base: seq<bool>, calls: seq<Call>, r: Heap)
    requires Inv(h, base) && Enough(h) && Runs(h, calls, r)
    ensures Enough(r)
    decreases |calls|
  {
    hide Inv, Malloced, Freed, Enough;
    if calls != [] {
      match calls[0]
      case MallocCall(size) =>
        MallocKeepsInv(h, base, size);
        MallocKeepsEnough(h, base, size);
        RunKeepsEnough(Malloced(h, size).0, base, calls[1..], r);
      case FreeCall(b) =>
        FreeKeepsInv(h, base, b);
        FreeKeepsEnough(h, base, b);
        RunKeepsEnough(Freed(h, b), base, calls[1..], r);
    }
  }

  /** However many calls were made since, a block still has room for the size asked for, unless the sum with the
      header wrapped around when it was handed out. */
  lemma LiveBlocksAreBigEnough(h: Heap, calls: seq<Call>, r: Heap, b: nat)
    requires Init(h) && Runs(h, calls, r) && b in r.live
    ensures Handed(r, b) && (Room(r, b) >= r.live[b] <==> r.live[b] <= BASE - ARENA)
  {
    InvAfter(h, [], h);
    RunKeepsEnough(h, h.used, calls, r);
  }

  /** The failing sizes are not ruled out: a page is all there is, and a request for almost 4 GB is granted. */
  lemma HugeRequestGetsOnePage(h: Heap)
    requires Init(h) && h.used == [false]
    ensures Runs(h, [MallocCall(BASE - 11)], Malloced(h, BASE - 11).0)
    ensures var (r, b) := Malloced(h, BASE - 11); b.Some? && Handed(r, b.value) && Room(r, b.value) == PGSIZE - ARENA
  {
    FirstFitIsLowest(h.used, 0, 1, false);
    assert PageCnt(BASE - 11) == 1;
  }

  /** In every run the blocks handed out lie past their header, inside their pages and apart from each other, and
      the bytes asked for are within the room. */
  lemma LiveBlocksAreDisjoint(h: Heap, calls: seq<Call>, r: Heap, b: nat, c: nat)
    requires Init(h) && Runs(h, calls, r) && b in r.live && c in r.live && b != c
    ensures Handed(r, b) && Handed(r, c)
    ensures Page(b) * PGSIZE + ARENA <= b && b + Room(r, b) <= (Page(b) + Span(r.arenas[Page(b)])) * PGSIZE <= |r.used| * PGSIZE
    ensures b + Room(r, b) <= c || c + Room(r, c) <= b
    ensures r.live[b] <= BASE - ARENA ==> b + r.live[b] <= b + Room(r, b)
  {
    InvAfter(h, calls, r);
    LiveBlocksAreBigEnough(h, calls, r, b);
    LiveIsFreeable(r, h.used, b);
    InItsPages(r, b);
    LiveApart(r, h.used, b, c);
  }

  lemma LiveApart(h: Heap, base: seq<bool>, b: nat, c: nat)
    requires Inv(h, base) && b in h.live && c in h.live && b != c
    ensures Handed(h, b) && Handed(h, c) && (b + Room(h, b) <= c || c + Room(h, c) <= b)
  {
    assert Handed(h, b) && Handed(h, c);
    BlocksApart(h, base, b, c);
  }

  /** Two blocks, handed out or not, of arenas that are there. */
  lemma BlocksApart(h: Heap, base: seq<bool>, b: nat, c: nat)
    requires Sound(h, base) && Handed(h, b) && Handed(h, c) && b != c
    ensures b + Room(h, b) <= c || c + Room(h, c) <= b
  {
    if Page(b) == Page(c) {
      SameArena(h, b, c);
    } else {
      RoomInPages(h, b);
      RoomInPages(h, c);
      ApartArenas(h, base, Page(b), Page(c));
    }
  }

  lemma RoomInPages(h: Heap, b: nat)
    requires Handed(h, b)
    ensures Page(b) * PGSIZE + ARENA <= b && b + Room(h, b) <= (Page(b) + Span(h.arenas[Page(b)])) * PGSIZE
  {
  }

  /** The bytes the allocator writes for its own use: the arenas' headers and the links of the blocks on its lists. */
  predicate HeaderByte(h: Heap, a: nat, x: nat) { a in h.arenas && a * PGSIZE <= x < a * PGSIZE + ARENA }

  predicate LinkByte(h: Heap, d: nat, c: nat, x: nat) { d < 7 == |h.free| && c in h.free[d] && c <= x < c + 8 }

  /** In every run none of them is in a block handed out. */
  lemma BookkeepingIsApart(h: Heap, calls: seq<Call>, r: Heap, b: nat, x: nat)
    requires Init(h) && Runs(h, calls, r) && b in r.live
    ensures Handed(r, b)
    ensures (exists a :: HeaderByte(r, a, x)) || (exists d, c :: LinkByte(r, d, c, x)) ==> !(b <= x < b + Room(r, b))
  {
    InvAfter(h, calls, r);
    assert Handed(r, b);
    hide Handed, Room, Inv, HeaderByte, LinkByte;
    if a :| HeaderByte(r, a, x) { HeaderApart(r, h.used, b, a, x); }
    if d, c :| LinkByte(r, d, c, x) { LinkApart(r, h.used, b, d, c, x); }
  }

  lemma HeaderApart(h: Heap, base: seq<bool>, b: nat, a: nat, x: nat)
    requires Inv(h, base) && b in h.live && Handed(h, b) && HeaderByte(h, a, x)
    ensures !(b <= x < b + Room(h, b))
  {
    hide Room;
    RoomInPages(h, b);
    assert ArenaOk(h, a);
    if a != Page(b) { ApartArenas(h, base, Page(b), a); }
  }

  lemma LinkApart(h: Heap, base: seq<bool>, b: nat, d: nat, c: nat, x: nat)
    requires Inv(h, base) && b in h.live && Handed(h, b) && LinkByte(h, d, c, x)
    ensures !(b <= x < b + Room(h, b))
  {
    assert OnList(h, c, d);
    assert c != b && Handed(h, c) && Room(h, c) >= 8;
    hide Room, Handed;
    BlocksApart(h, base, b, c);
  }

  lemma InItsPages(h: Heap, b: nat)
    requires Freeable(h, b)
    ensures Page(b) * PGSIZE + ARENA <= b && b + Room(h, b) <= (Page(b) + Span(h.arenas[Page(b)])) * PGSIZE
    ensures (Page(b) + Span(h.arenas[Page(b)])) * PGSIZE <= |h.used| * PGSIZE
  {
    RoomInPages(h, b);
  }

  lemma SameArena(h: Heap, b: nat, c: nat)
    requires Handed(h, b) && Handed(h, c) && Page(b) == Page(c) && b != c
    ensures b + Room(h, b) <= c || c + Room(h, c) <= b
  {
    var d := h.arenas[Page(b)].desc.value;
    var i, j := Index(b, d), Index(c, d);
    if i < j { Steps(i, j, BlockSize(d)); } else { Steps(j, i, BlockSize(d)); }
  }

  lemma {:induction false} Steps(i: int, j: int, n: nat)
    requires i < j
    ensures i * n + n <= j * n
    decreases j - i
  {
    if i + 1 < j { Steps(i, j - 1, n); }
    assert j * n == (j - 1) * n + n;
  }

  lemma ApartArenas(h: Heap, base: seq<bool>, a: nat, c: nat)
    requires Sound(h, base) && a in h.arenas && c in h.arenas && a != c
    ensures a + Span(h.arenas[a]) <= c || c + Span(h.arenas[c]) <= a
  {
    assert ArenaOk(h, a) && ArenaOk(h, c);
    var p := if a < c then c else a;
    assert !(Covers(h, a, p) && Covers(h, c, p));
  }

  /** In every run, once every block has been given back no arena is left and the page pool is as it was. */
  lemma FreeingAllRestoresThePool(h: Heap, calls: seq<Call>, r: Heap)
    requires Init(h) && Runs(h, calls, r) && r.live == map[]
    ensures r == h
  {
    InvAfter(h, calls, r);
    NoArenaLeft(r, h.used);
    assert forall a: nat, p: nat :: !Covers(r, a, p);
    assert r.used == h.used;
    forall d | 0 <= d < 7
      ensures r.free[d] == []
    {
      ListedHasArena(r, d);
    }
    assert r.free == h.free;
  }

  lemma ListedHasArena(h: Heap, d: nat)
    requires |h.free| == 7 && ListsOk(h) && d < 7
    ensures h.free[d] != [] ==> h.arenas != map[]
  {
    if h.free[d] != [] { assert OnList(h, h.free[d][0], d); }
  }

  /** In every run an arena that is kept has a live block. */
  lemma KeptArenaHasLiveBlock(h: Heap, calls: seq<Call>, r: Heap, a: nat)
    requires Init(h) && Runs(h, calls, r) && a in r.arenas
    ensures exists b :: b in r.live && Page(b) == a
  {
    InvAfter(h, calls, r);
    BusyHasLiveBlock(r, h.used, a);
  }

  lemma BusyHasLiveBlock(h: Heap, base: seq<bool>, a: nat)
    requires Inv(h, base) && a in h.arenas
    ensures exists b :: b in h.live && Page(b) == a
  {
    assert ArenaOk(h, a) && Busy(h, a);
    if h.arenas[a].desc.None? {
      assert Page(BigBlock(a)) == a;
    } else {
      var d := h.arenas[a].desc.value;
      FullArena(h.free[d], a, d);
      var i: nat :| i < PerArena(d) && BlockAt(a, i, d) !in h.free[d];
      assert Split(h, a, i);
      assert Page(BlockAt(a, i, d)) == a;
    }
  }

  lemma NoArenaLeft(h: Heap, base: seq<bool>)
    requires Inv(h, base) && h.live == map[]
    ensures h.arenas == map[]
  {
    forall a | a in h.arenas
      ensures exists b :: b in h.live && Page(b) == a
    {
      BusyHasLiveBlock(h, base, a);
    }
  }

  // ---------------------------------------------------------------- the allocator

  /** list_remove of one block. */
  function Removed(s: seq<nat>, b: nat): (r: seq<nat>)
  {
    if s == [] then [] else if s[0] == b then Removed(s[1..], b) else [s[0]] + Removed(s[1..], b)
  }

  /** The list once the first n blocks of arena a are off it. */
  function Stripped(s: seq<nat>, a: nat, d: nat, n: nat): (r: seq<nat>)
    requires d < 7
  {
    if s == [] then []
    else if Page(s[0]) == a && Index(s[0], d) < n then Stripped(s[1..], a, d, n)
    else [s[0]] + Stripped(s[1..], a, d, n)
  }

  lemma {:induction false} StripOne(s: seq<nat>, a: nat, d: nat, n: nat)
    requires d < 7 && n < PerArena(d) && forall x :: x in s && Page(x) == a ==> IsBlock(x, d)
    ensures Removed(Stripped(s, a, d, n), BlockAt(a, n, d)) == Stripped(s, a, d, n + 1)
  {
    hide BlockAt, Page, Index;
    if s != [] {
      assert s[0] in s && forall x :: x in s[1..] ==> x in s;
      StripOne(s[1..], a, d, n);
    }
  }

  lemma {:induction false} StripNoneOrAll(s: seq<nat>, a: nat, d: nat)
    requires d < 7 && forall x :: x in s && Page(x) == a ==> IsBlock(x, d)
    ensures Stripped(s, a, d, 0) == s && Stripped(s, a, d, PerArena(d)) == Elsewhere(s, a)
  {
    hide BlockAt, Page, Index;
    if s != [] {
      assert s[0] in s && forall x :: x in s[1..] ==> x in s;
      StripNoneOrAll(s[1..], a, d);
    }
  }

  class Allocator {
    const pool: Bitmap
    /** The pool's bytes, as the blocks' owners, realloc and the fill patterns of free change them. */
    const mem: array<Byte>
    var descs: seq<Desc>
    var free: seq<seq<nat>>
    var arenas: map<nat, Arena>
    ghost var live: map<nat, nat>
    ghost var base: seq<bool>

    ghost function H(): (h: Heap)
      requires pool.Valid()
      reads this, pool.bits
    {
      Heap(pool.Bits(), free, arenas, live)
    }

    ghost predicate Valid()
      reads this, pool.bits
    {
      pool.Valid() && descs == DESCS && Inv(H(), base) && mem.Length == pool.bitCnt * PGSIZE
    }

    constructor (pool: Bitmap, mem: array<Byte>)
      requires pool.Valid() && mem.Length == pool.bitCnt * PGSIZE
      ensures Valid() && this.pool == pool && this.mem == mem && base == pool.Bits() && Init(H())
    {
      this.pool, this.mem := pool, mem;
      descs, free, arenas, live, base := [], [], map[], map[], pool.Bits();
      new;
      var blockSize := 16;
      while blockSize < PGSIZE / 2
        invariant |descs| <= 7 && |free| == |descs|
        invariant blockSize == if |descs| == 7 then 2048 else BlockSize(|descs|)
        invariant descs == DESCS[..|descs|] && forall k :: 0 <= k < |free| ==> free[k] == []
        invariant arenas == map[] && live == map[] && base == pool.Bits()
        decreases PGSIZE - blockSize
      {
        descs := descs + [Desc(blockSize, (PGSIZE - ARENA) / blockSize)];
        free := free + [[]];
        blockSize := blockSize * 2;
      }
      assert free == [[], [], [], [], [], [], []];
      InvAfter(H(), [], H());
    }

    /** palloc_get_multiple from the kernel pool. */
    method GetPages(n: nat) returns (r: Option<nat>)
      requires pool.Valid()
      modifies pool.bits
      ensures r == FindPages(old(pool.Bits()), n)
      ensures pool.Bits() == if r.None? then old(pool.Bits()) else SetRange(old(pool.Bits()), r.value, n, true)
    {
      if n == 0 { return None; }
      r := pool.ScanAndFlip(0, n, false);
    }

    method FindDesc(size: nat) returns (d: nat)
      requires descs == DESCS
      ensures d == DescFor(size)
    {
      d := 0;
      while d < |descs| && descs[d].blockSize < size
        invariant d <= 7 && (d > 0 ==> BlockSize(d - 1) < size)
      {
        d := d + 1;
      }
    }

    method BigAlloc(size: nat) returns (r: Option<nat>)
      requires pool.Valid()
      modifies this`arenas, this`live, pool.bits
      ensures r == match FindPages(old(H()).used, PageCnt(size)) case None => None case Some(a) => Some(BigBlock(a))
      ensures H() == match FindPages(old(H()).used, PageCnt(size)) case None => old(H()) case Some(a) => AddBig(old(H()), a, PageCnt(size), size)
    {
      hide PageCnt, FindPages;
      var pageCnt := PageCnt(size);
      var a := GetPages(pageCnt);
      if a.None? { return None; }
      arenas := arenas[a.value := Arena(None, pageCnt)];
      live := live[BigBlock(a.value) := size];
      return Some(BigBlock(a.value));
    }

    method NewArena(d: nat) returns (a: Option<nat>)
      requires pool.Valid() && descs == DESCS && |free| == 7 && d < 7
      modifies this`free, this`arenas, pool.bits
      ensures a == FindPages(old(H()).used, 1)
      ensures H() == if a.None? then old(H()) else AddArena(old(H()), a.value, d)
    {
      hide FindPages, BlockAt;
      a := GetPages(1);
      if a.None? { return; }
      arenas := arenas[a.value := Arena(Some(d), descs[d].blocksPerArena)];
      PushBlocks(a.value, d);
    }

    /** Every block of a new arena goes to the back of the list. */
    method PushBlocks(a: nat, d: nat)
      requires descs == DESCS && |free| == 7 && d < 7
      modifies this`free
      ensures free == old(free)[d := old(free)[d] + Blocks(a, d, PerArena(d))]
    {
      hide BlockAt, Blocks;
      ghost var list := free[d];
      NoBlocks(list, a, d);
      var i := 0;
      while i < descs[d].blocksPerArena
        modifies this`free
        invariant i <= PerArena(d) && |free| == 7 && free == old(free)[d := list + Blocks(a, d, i)]
      {
        OneMoreBlock(list, a, d, i);
        free := free[d := free[d] + [BlockAt(a, i, d)]];
        i := i + 1;
      }
    }

    method PopBlock(d: nat, ghost size: nat) returns (b: nat)
      requires pool.Valid() && d < 7 == |free| && free[d] != [] && Kept(H(), Page(free[d][0]))
      modifies this`free, this`arenas, this`live
      ensures b == old(free[d][0]) && H() == Take(old(H()), d, size)
    {
      hide Page;
      b := free[d][0];
      free := free[d := free[d][1..]];
      arenas := arenas[Page(b) := arenas[Page(b)].(freeCnt := arenas[Page(b)].freeCnt - 1)];
      live := live[b := size];
    }

    method Malloc(size: nat) returns (r: Option<nat>)
      requires Valid() && size < BASE
      modifies this`free, this`arenas, this`live, pool.bits
      ensures Valid() && Ready(old(H())) && (H(), r) == Malloced(old(H()), size)
      ensures r.Some? <==> CanGrant(old(H()), size)
    {
      hide BlockAt, Page, Index, PageCnt, FindPages, Inv, DescFor, CanGrant;
      ghost var h := H();
      MallocKeepsInv(h, base, size);
      GrantedExactly(h, base, size);
      if size == 0 { return None; }
      var d := FindDesc(size);
      if d == |descs| {
        r := BigAlloc(size);
        return;
      }
      if free[d] == [] {
        var a := NewArena(d);
        if a.None? { return None; }
        assert free[d][0] == BlockAt(a.value, 0, d);
      }
      var b := PopBlock(d, size);
      return Some(b);
    }

    /** Takes every block of the arena off the list and gives the page back. */
    method ReleaseArena(a: nat, d: nat)
      requires pool.Valid() && descs == DESCS && |free| == 7 && d < 7 && a < pool.bitCnt
      requires forall x :: x in free[d] && Page(x) == a ==> IsBlock(x, d)
      modifies this`free, this`arenas, pool.bits
      ensures H() == DropArena(old(H()), a, d)
    {
      hide BlockAt, Page, Index;
      StripNoneOrAll(free[d], a, d);
      var i := 0;
      while i < descs[d].blocksPerArena
        modifies this`free
        invariant i <= PerArena(d) && |free| == 7 && free == old(free)[d := Stripped(old(free)[d], a, d, i)]
      {
        StripOne(old(free)[d], a, d, i);
        free := free[d := Removed(free[d], BlockAt(a, i, d))];
        i := i + 1;
      }
      arenas := arenas - {a};
      pool.SetMultiple(a, 1, false);
    }

    method PushBlock(b: nat, d: nat)
      requires pool.Valid() && d < 7 == |free| && Page(b) in arenas
      modifies this`free, this`arenas, this`live
      ensures H() == Give(old(H()), b, d)
    {
      var a := Page(b);
      free := free[d := [b] + free[d]];
      arenas := arenas[a := arenas[a].(freeCnt := arenas[a].freeCnt + 1)];
      live := live - {b};
    }

    /** memset of a stretch to 0xcc. */
    method Fill(at: nat, n: nat)
      requires at + n <= mem.Length
      modifies mem
      ensures Within(old(mem[..]), mem[..], at, at + n) && forall k :: at <= k < at + n ==> mem[k] == 0xcc
    {
      forall k | at <= k < at + n { mem[k] := 0xcc; }
    }

    /** free: besides the heap, only the bytes of the block and of the pages given back change. */
    method Free(p: Option<nat>)
      requires Valid() && (p.Some? ==> p.value in live)
      modifies this`free, this`arenas, this`live, pool.bits, mem
      ensures Valid()
      ensures p.Some? ==> Freeable(old(H()), p.value)
      ensures H() == if p.None? then old(H()) else Freed(old(H()), p.value)
      ensures BytesKept(old(H()), old(mem[..]), mem[..], p)
    {
      hide BlockAt, Page, Index, Inv, Room, Handed, BytesKept, Span, Freeable;
      ghost var h, was := H(), mem[..];
      NoneFreed(h, was);
      if p.None? { return; }
      var b := p.value;
      FreeKeepsInv(h, base, b);
      FreeFacts(h, base, b);
      var a := Page(b);
      if arenas[a].desc.None? {
        Fill(a * PGSIZE, arenas[a].freeCnt * PGSIZE);
        PagesApart(h, base, b, was, mem[..]);
        pool.SetMultiple(a, arenas[a].freeCnt, false);
        arenas := arenas - {a};
        live := live - {b};
        return;
      }
      var d := arenas[a].desc.value;
      Fill(b, descs[d].blockSize);
      FilledApart(h, base, b, was, mem[..]);
      BlocksOnList(h, base, b, d);
      PushBlock(b, d);
      if arenas[a].freeCnt >= descs[d].blocksPerArena {
        assert arenas[a].freeCnt == descs[d].blocksPerArena;
        ReleaseArena(a, d);
        ghost var mid := mem[..];
        Fill(a * PGSIZE, PGSIZE);
        LastOfArena(h, base, b, d, was, mid, mem[..]);
      }
    }

    /** block_size. */
    method BlockRoom(b: nat) returns (n: int)
      requires descs == DESCS && pool.Valid() && Handed(H(), b)
      ensures n == Room(H(), b)
    {
      var x := arenas[Page(b)];
      n := if x.desc.Some? then descs[x.desc.value].blockSize else PGSIZE * x.freeCnt - b % PGSIZE;
    }

    /** The part of realloc where there is an old block p and a new one r, just taken from the heap h. */
    method MoveOver(p: nat, r: nat, newSize: nat, ghost h: Heap) returns (copied: int)
      requires Valid() && Inv(h, base) && Ready(h) && Malloced(h, newSize) == (H(), Some(r)) && newSize < BASE
      requires p in h.live && r !in h.live && live == h.live[r := newSize]
      modifies this`free, this`arenas, this`live, pool.bits, mem
      ensures Valid() && live == (h.live - {p})[r := newSize]
      ensures Handed(h, p) && copied == Min(newSize, Room(h, p))
      ensures Handed(H(), r) && (newSize <= BASE - ARENA ==> 0 <= copied <= Room(H(), r))
      ensures 0 <= copied <= Room(H(), r) ==>
        && r + copied <= mem.Length && p + copied <= mem.Length
        && mem[r..r + copied] == old(mem[p..p + copied]) && BytesKept(h, old(mem[..]), mem[..], Some(p))
    {
      hide BlockAt, Page, Index, Inv, Malloced, Freed, Handed, Room, BytesKept, Freeable;
      ghost var g, was := H(), mem[..];
      BigEnoughExactly(h, base, newSize);
      RoomsKept(h, base, newSize, p);
      RoomOf(g, base, r);
      RoomOf(g, base, p);
      var oldSize := BlockRoom(p);
      copied := if newSize < oldSize then newSize else oldSize;
      if r + copied <= mem.Length {
        PatchedWithin(was, r, was[p..p + copied]);
        Memcpy(mem, r, mem, p, copied);
      }
      ghost var mid := mem[..];
      FreedLive(g, base, Some(p));
      RoomsKeptByFree(g, base, p, r);
      Free(Some(p));
      assert h.live[r := newSize] - {p} == (h.live - {p})[r := newSize];
      if copied <= Room(g, r) { Copied(h, g, base, newSize, p, r, copied, was, mid, mem[..]); }
    }

    /** realloc: the old block goes only once a new one is there.  The bytes the two have room for move over and no other
        live block changes, as long as the copy fits the new block; it does unless malloc's sum wrapped around. */
    method Realloc(p: Option<nat>, newSize: nat) returns (r: Option<nat>, copied: int)
      requires Valid() && (p.Some? ==> p.value in live) && newSize < BASE
      modifies this`free, this`arenas, this`live, pool.bits, mem
      ensures Valid()
      ensures newSize == 0 ==> r.None? && live == Less(old(live), p)
      ensures |old(free)| == 7 && (r.Some? <==> newSize > 0 && CanGrant(old(H()), newSize))
      ensures newSize > 0 && r.None? ==> H() == old(H()) && mem[..] == old(mem[..])
      ensures r.Some? ==> newSize > 0 && r.value !in old(live) && live == Less(old(live), p)[r.value := newSize] && Handed(H(), r.value)
      ensures r.Some? && p.Some? ==> Handed(old(H()), p.value) && copied == Min(newSize, Room(old(H()), p.value))
      ensures r.Some? && p.Some? && newSize <= BASE - ARENA ==> 0 <= copied <= Room(H(), r.value)
      ensures r.Some? && p.Some? && 0 <= copied <= Room(H(), r.value) ==>
        && r.value + copied <= mem.Length && p.value + copied <= mem.Length
        && mem[r.value..r.value + copied] == old(mem[p.value..p.value + copied])
      ensures newSize <= BASE - ARENA ==> BytesKept(old(H()), old(mem[..]), mem[..], p)
    {
      hide BlockAt, Page, Index, Inv, Malloced, Freed, Handed, Room, BytesKept, Freeable, CanGrant;
      ghost var h, was := H(), mem[..];
      copied := 0;
      NoneFreed(h, was);
      MallocKeepsInv(h, base, newSize);
      if newSize == 0 {
        FreedLive(h, base, p);
        Free(p);
        return None, 0;
      }
      r := Malloc(newSize);
      if r.None? { return; }
      BigEnoughExactly(h, base, newSize);
      if p.Some? { copied := MoveOver(p.value, r.value, newSize, h); }
    }
  }

  // ---------------------------------------------------------------- the bytes of live blocks

  /** Every live block but p has its bytes. */
  ghost predicate BytesKept(h: Heap, was: seq<Byte>, now: seq<Byte>, p: Option<nat>)
  {
    && |was| == |now|
    && forall b, k :: b in h.live && Some(b) != p && Handed(h, b) && b <= k < b + Room(h, b) && k < |was| ==> now[k] == was[k]
  }

  lemma NoneFreed(h: Heap, was: seq<Byte>)
    ensures forall p: Option<nat> :: BytesKept(h, was, was, p)
  {
  }

  lemma RoomOf(h: Heap, base: seq<bool>, b: nat)
    requires Inv(h, base) && b in h.live
    ensures Handed(h, b) && 0 <= Room(h, b) && b + Room(h, b) <= |h.used| * PGSIZE
  {
    LiveIsFreeable(h, base, b);
    InItsPages(h, b);
    assert ArenaOk(h, Page(b));
  }

  lemma FreeFacts(h: Heap, base: seq<bool>, b: nat)
    requires Inv(h, base) && b in h.live
    ensures |h.free| == 7 && Page(b) in h.arenas
    ensures var x := h.arenas[Page(b)];
      if x.desc.None? then (Page(b) + x.freeCnt) * PGSIZE <= |h.used| * PGSIZE && Page(b) + x.freeCnt <= |h.used| && b == BigBlock(Page(b))
      else x.desc.value < 7 && b + BlockSize(x.desc.value) <= |h.used| * PGSIZE && Page(b) < |h.used| && (Page(b) + 1) * PGSIZE <= |h.used| * PGSIZE
  {
    LiveIsFreeable(h, base, b);
    InItsPages(h, b);
  }

  /** Only bytes from lo on and before hi are different. */
  ghost predicate Within(was: seq<Byte>, now: seq<Byte>, lo: nat, hi: nat)
  {
    |was| == |now| && forall k :: 0 <= k < |was| && !(lo <= k < hi) ==> now[k] == was[k]
  }

  lemma PatchedWithin(was: seq<Byte>, at: nat, d: seq<Byte>)
    requires at + |d| <= |was|
    ensures Patch(was, at, d)[at..at + |d|] == d && Within(was, Patch(was, at, d), at, at + |d|)
  {
  }

  /** The pages of an arena can change when no other live block is in it. */
  lemma ArenaFilled(h: Heap, base: seq<bool>, b: nat, was: seq<Byte>, mid: seq<Byte>, now: seq<Byte>)
    requires Inv(h, base) && b in h.live && Page(b) in h.arenas && BytesKept(h, was, mid, Some(b))
    requires Within(mid, now, Page(b) * PGSIZE, (Page(b) + Span(h.arenas[Page(b)])) * PGSIZE)
    requires forall c :: c in h.live && c != b ==> Page(c) != Page(b)
    ensures BytesKept(h, was, now, Some(b))
  {
    forall c, k | c in h.live && c != b && Handed(h, c) && c <= k < c + Room(h, c) && k < |was|
      ensures now[k] == was[k]
    {
      hide Handed, Room, Page, Inv;
      assert mid[k] == was[k];
      LiveInOtherPages(h, base, b, c, k);
    }
  }

  lemma LiveInOtherPages(h: Heap, base: seq<bool>, b: nat, c: nat, k: nat)
    requires Inv(h, base) && Page(b) in h.arenas && Handed(h, c) && Page(c) != Page(b) && c <= k < c + Room(h, c)
    ensures !(Page(b) * PGSIZE <= k < (Page(b) + Span(h.arenas[Page(b)])) * PGSIZE)
  {
    hide Room;
    RoomInPages(h, c);
    ApartArenas(h, base, Page(b), Page(c));
  }

  lemma PagesApart(h: Heap, base: seq<bool>, b: nat, was: seq<Byte>, now: seq<Byte>)
    requires Inv(h, base) && b in h.live && Page(b) in h.arenas && h.arenas[Page(b)].desc.None?
    requires Within(was, now, Page(b) * PGSIZE, Page(b) * PGSIZE + h.arenas[Page(b)].freeCnt * PGSIZE)
    ensures BytesKept(h, was, now, Some(b))
  {
    assert forall c :: c in h.live ==> Handed(h, c);
    NoneFreed(h, was);
    hide BytesKept, Inv;
    ArenaFilled(h, base, b, was, was, now);
  }

  lemma FilledApart(h: Heap, base: seq<bool>, b: nat, was: seq<Byte>, now: seq<Byte>)
    requires Inv(h, base) && b in h.live && Page(b) in h.arenas && h.arenas[Page(b)].desc.Some? && h.arenas[Page(b)].desc.value < 7
    requires Within(was, now, b, b + BlockSize(h.arenas[Page(b)].desc.value))
    ensures BytesKept(h, was, now, Some(b))
  {
    RoomOf(h, base, b);
    assert Room(h, b) == BlockSize(h.arenas[Page(b)].desc.value);
    forall c, k | c in h.live && c != b && Handed(h, c) && c <= k < c + Room(h, c) && k < |was|
      ensures now[k] == was[k]
    {
      hide Handed, Room, Page, Inv;
      LiveApart(h, base, b, c);
    }
  }

  lemma LastOfArena(h: Heap, base: seq<bool>, b: nat, d: nat, was: seq<Byte>, mid: seq<Byte>, now: seq<Byte>)
    requires Inv(h, base) && b in h.live && Page(b) in h.arenas && d < 7 && h.arenas[Page(b)].desc == Some(d)
    requires h.arenas[Page(b)].freeCnt + 1 == PerArena(d) && BytesKept(h, was, mid, Some(b))
    requires Within(mid, now, Page(b) * PGSIZE, Page(b) * PGSIZE + PGSIZE)
    ensures BytesKept(h, was, now, Some(b))
  {
    hide BytesKept;
    NoneElseInArena(h, base, b, d);
    hide Inv;
    ArenaFilled(h, base, b, was, mid, now);
  }

  lemma NoneElseInArena(h: Heap, base: seq<bool>, b: nat, d: nat)
    requires Inv(h, base) && b in h.live && Page(b) in h.arenas && d < 7 && h.arenas[Page(b)].desc == Some(d)
    requires h.arenas[Page(b)].freeCnt + 1 == PerArena(d)
    ensures forall c :: c in h.live && c != b ==> Page(c) != Page(b)
  {
    hide BlockAt, Page, Index;
    GiveKeeps(h, base, b, d);
    var g, a := Give(h, b, d), Page(b);
    assert ArenaOk(g, a);
    FullArena(g.free[d], a, d);
    assert forall i: nat :: i < PerArena(d) ==> BlockAt(a, i, d) in g.free[d];
    assert forall x :: x in g.free[d] ==> OnList(g, x, d);
    forall c | c in h.live && c != b
      ensures Page(c) != a
    {
      assert Handed(h, c);
    }
  }

  lemma Copied(h: Heap, g: Heap, base: seq<bool>, size: nat, p: nat, b: nat, n: nat, was: seq<Byte>, mid: seq<Byte>, now: seq<Byte>)
    requires Inv(h, base) && Inv(g, base) && Ready(h) && Malloced(h, size) == (g, Some(b)) && p in h.live && b !in h.live
    requires g.live == h.live[b := size] && Handed(g, b) && Handed(g, p) && n <= Room(g, b)
    requires |was| == |mid| == |now| && b + n <= |was| && p + n <= |was|
    requires mid[b..b + n] == was[p..p + n]
    requires Within(was, mid, b, b + n) && BytesKept(g, mid, now, Some(p))
    ensures now[b..b + n] == was[p..p + n] && BytesKept(h, was, now, Some(p))
  {
    hide Inv, Malloced, Handed, Room;
    assert b in g.live && b != p;
    assert forall k :: b <= k < b + n ==> now[k] == mid[k];
    assert now[b..b + n] == mid[b..b + n];
    forall c, k | c in h.live && c != p && Handed(h, c) && c <= k < c + Room(h, c) && k < |was|
      ensures now[k] == was[k]
    {
      RoomsKept(h, base, size, c);
      LiveApart(g, base, c, b);
      assert now[k] == mid[k];
    }
  }

  function Less(live: map<nat, nat>, p: Option<nat>): (l: map<nat, nat>) { if p.None? then live else live - {p.value} }

  lemma FreedLive(h: Heap, base: seq<bool>, p: Option<nat>)
    requires Inv(h, base) && (p.Some? ==> p.value in h.live)
    ensures p.Some? ==> Freeable(h, p.value) && Freed(h, p.value).live == h.live - {p.value}
  {
    hide Inv, Freed, Freeable;
    if p.Some? { FreeKeepsInv(h, base, p.value); }
  }

  lemma NoBlocks(list: seq<nat>, a: nat, d: nat)
    requires d < 7
    ensures list + Blocks(a, d, 0) == list
  {
  }

  lemma OneMoreBlock(list: seq<nat>, a: nat, d: nat, i: nat)
    requires d < 7
    ensures list + Blocks(a, d, i) + [BlockAt(a, i, d)] == list + Blocks(a, d, i + 1)
  {
    hide BlockAt;
  }

  lemma BlocksOnList(h: Heap, base: seq<bool>, b: nat, d: nat)
    requires Inv(h, base) && b in h.live && d < 7 && h.arenas[Page(b)].desc == Some(d)
    ensures forall x :: x in Give(h, b, d).free[d] ==> IsBlock(x, d)
  {
    GiveKeeps(h, base, b, d);
    var g := Give(h, b, d);
    assert forall x :: x in g.free[d] ==> OnList(g, x, d);
  }
}

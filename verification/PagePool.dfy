/** threads/palloc.c over lib/kernel/bitmap.c: one pool of pages, any number of threads.
    Allocation holds the pool's lock; freeing does not.  A step tests or writes one bit,
    or takes or releases the lock.

    `live` holds the groups of pages handed out and not yet given back. */
module PagePool {
  import opened Bitmaps
  import opened Machine
  import opened Options

  type Tid = nat

  datatype Range = Range(start: nat, cnt: nat)

  datatype Pc =
    | Idle
    | Scan(cnt: nat, i: nat, j: nat)
    | Flip(r: Range, k: nat)
    | Check(r: Range, k: nat)
    | Clear(r: Range, k: nat)
    | Panicked

  datatype Pool = Pool(used: seq<bool>, holder: Option<Tid>, pcs: map<Tid, Pc>, live: map<nat, Range>, next: nat)

  datatype Action = Get(t: Tid, cnt: nat) | Free(t: Tid, id: nat) | Go(t: Tid)

  predicate Enabled(s: Pool, a: Action)
  {
    && a.t in s.pcs
    && match a
       case Get(t, cnt) => s.pcs[t] == Idle && s.holder == None && cnt > 0
       case Free(t, id) => s.pcs[t] == Idle && id in s.live
       case Go(t) => s.pcs[t] != Idle && s.pcs[t] != Panicked
  }

  predicate On(used: seq<bool>, p: nat) { p < |used| && used[p] }

  function SetBit(used: seq<bool>, p: nat, value: bool): (u: seq<bool>)
    ensures |u| == |used|
  {
    if p < |used| then used[p := value] else used
  }

  function At(s: Pool, t: Tid, pc: Pc): (r: Pool) { s.(pcs := s.pcs[t := pc]) }

  /** One bit of bitmap_scan: the bit is tested, and the group accepted, extended or given up. */
  function Scanned(s: Pool, t: Tid, cnt: nat, i: nat, j: nat): (r: Pool)
  {
    if i + cnt > |s.used| then At(s, t, Idle).(holder := None)
    else if j == cnt then At(s, t, Flip(Range(i, cnt), 0))
    else if On(s.used, i + j) then At(s, t, Scan(cnt, i + 1, 0))
    else At(s, t, Scan(cnt, i, j + 1))
  }

  function Flipped(s: Pool, t: Tid, r: Range, k: nat): (q: Pool)
  {
    if k >= r.cnt then At(s, t, Idle).(holder := None, live := s.live[s.next := r], next := s.next + 1)
    else At(s, t, Flip(r, k + 1)).(used := SetBit(s.used, r.start + k, true))
  }

  /** The assertion that every page being freed is in use. */
  function Checked(s: Pool, t: Tid, r: Range, k: nat): (q: Pool)
  {
    if k >= r.cnt then At(s, t, Clear(r, 0))
    else if On(s.used, r.start + k) then At(s, t, Check(r, k + 1))
    else At(s, t, Panicked)
  }

  function Wiped(s: Pool, t: Tid, r: Range, k: nat): (q: Pool)
  {
    if k >= r.cnt then At(s, t, Idle)
    else At(s, t, Clear(r, k + 1)).(used := SetBit(s.used, r.start + k, false))
  }

  function Next(s: Pool, a: Action): (r: Pool)
    requires Enabled(s, a)
  {
    match a
    case Get(t, cnt) => At(s, t, Scan(cnt, 0, 0)).(holder := Some(t))
    case Free(t, id) => At(s, t, Check(s.live[id], 0)).(live := s.live - {id})
    case Go(t) =>
      match s.pcs[t]
      case Scan(cnt, i, j) => Scanned(s, t, cnt, i, j)
      case Flip(r, k) => Flipped(s, t, r, k)
      case Check(r, k) => Checked(s, t, r, k)
      case Clear(r, k) => Wiped(s, t, r, k)
  }

  predicate Init(s: Pool)
  {
    && (forall p :: 0 <= p < |s.used| ==> !s.used[p])
    && s.holder == None && s.live == map[]
    && forall t :: t in s.pcs ==> s.pcs[t] == Idle
  }

  ghost predicate Runs(s: Pool, acts: seq<Action>, r: Pool)
    decreases |acts|
  {
    if acts == [] then r == s else Enabled(s, acts[0]) && Runs(Next(s, acts[0]), acts[1..], r)
  }

  // ---------------------------------------------------------------- who has a claim on which page

  datatype Claimant = Alloc(id: nat) | By(t: Tid)

  predicate In(r: Range, p: nat) { r.start <= p < r.start + r.cnt }

  predicate PcCovers(pc: Pc, p: nat)
  {
    match pc
    case Flip(r, k) => In(r, p)
    case Check(r, k) => In(r, p)
    case Clear(r, k) => In(r, p) && r.start + k <= p
    case _ => false
  }

  predicate Covers(s: Pool, c: Claimant, p: nat)
  {
    match c
    case Alloc(id) => id in s.live && In(s.live[id], p)
    case By(t) => t in s.pcs && PcCovers(s.pcs[t], p)
  }

  /** A page being claimed by an allocation in progress may not be marked yet. */
  predicate Unmarked(s: Pool, c: Claimant, p: nat)
  {
    c.By? && c.t in s.pcs && s.pcs[c.t].Flip? && p >= s.pcs[c.t].r.start + s.pcs[c.t].k
  }

  ghost predicate Exclusive(s: Pool)
  {
    forall c: Claimant, d: Claimant, p: nat :: Covers(s, c, p) && Covers(s, d, p) ==> c == d
  }

  ghost predicate Marks(s: Pool)
  {
    forall c: Claimant, p: nat :: Covers(s, c, p) ==> p < |s.used| && s.used[p] == !Unmarked(s, c, p)
  }

  ghost predicate Accounted(s: Pool)
  {
    forall p: nat :: On(s.used, p) ==> exists c: Claimant :: Covers(s, c, p)
  }

  predicate PcOk(s: Pool, t: Tid, pc: Pc)
  {
    match pc
    case Idle => true
    case Panicked => false
    case Scan(cnt, i, j) =>
      && s.holder == Some(t) && cnt > 0 && j <= cnt && i + j <= |s.used|
      && forall p :: i <= p < i + j ==> !s.used[p]
    case Flip(r, k) => s.holder == Some(t) && k <= r.cnt && r.start + r.cnt <= |s.used|
    case Check(r, k) => k <= r.cnt
    case Clear(r, k) => k <= r.cnt
  }

  ghost predicate PcsOk(s: Pool) { forall t :: t in s.pcs ==> PcOk(s, t, s.pcs[t]) }

  predicate IdsOk(s: Pool) { forall id :: id in s.live ==> id < s.next }

  ghost predicate Inv(s: Pool) { Exclusive(s) && Marks(s) && Accounted(s) && PcsOk(s) && IdsOk(s) }

  // ---------------------------------------------------------------- every step keeps the invariant

  /** Steps that move no claim and write no bit. */
  lemma SameClaims(s: Pool, r: Pool, t: Tid, pc: Pc)
    requires Exclusive(s) && Marks(s) && Accounted(s) && t in s.pcs
    requires r.pcs == s.pcs[t := pc] && r.live == s.live && r.used == s.used
    requires forall p: nat :: PcCovers(pc, p) == PcCovers(s.pcs[t], p)
    requires !s.pcs[t].Flip? && !pc.Flip?
    ensures Exclusive(r) && Marks(r) && Accounted(r)
  {
    assert forall c: Claimant, p: nat :: Covers(r, c, p) == Covers(s, c, p);
    assert forall c: Claimant, p: nat :: Unmarked(r, c, p) == Unmarked(s, c, p);
    forall p: nat | On(r.used, p)
      ensures exists c: Claimant :: Covers(r, c, p)
    {
      var c: Claimant :| Covers(s, c, p);
      assert Covers(r, c, p);
    }
  }

  lemma OthersStillOk(s: Pool, r: Pool, t: Tid, pc: Pc)
    requires PcsOk(s) && r.pcs == s.pcs[t := pc] && |r.used| == |s.used| && PcOk(r, t, pc)
    requires forall u :: u in s.pcs && u != t && (s.pcs[u].Scan? || s.pcs[u].Flip?) ==> r.holder == s.holder
    requires forall p :: 0 <= p < |s.used| && r.used[p] && !s.used[p] ==> s.holder == Some(t)
    ensures PcsOk(r)
  {
    forall u | u in r.pcs
      ensures PcOk(r, u, r.pcs[u])
    {
      if u != t { assert PcOk(s, u, s.pcs[u]); }
    }
  }

  lemma GetKeeps(s: Pool, t: Tid, cnt: nat)
    requires Inv(s) && Enabled(s, Get(t, cnt))
    ensures Inv(Next(s, Get(t, cnt)))
  {
    var r := Next(s, Get(t, cnt));
    SameClaims(s, r, t, Scan(cnt, 0, 0));
    OthersStillOk(s, r, t, Scan(cnt, 0, 0));
  }

  lemma ScanKeeps(s: Pool, t: Tid)
    requires Inv(s) && Enabled(s, Go(t)) && s.pcs[t].Scan?
    ensures Inv(Next(s, Go(t)))
  {
    var r := Next(s, Go(t));
    assert PcOk(s, t, s.pcs[t]);
    OthersStillOk(s, r, t, r.pcs[t]);
    if r.pcs[t].Flip? { Claimed(s, r, t); } else { SameClaims(s, r, t, r.pcs[t]); }
  }

  /** While one thread scans, no other is half way through marking a group. */
  lemma NothingHalfClaimed(s: Pool, t: Tid, c: Claimant, p: nat)
    requires PcsOk(s) && t in s.pcs && s.pcs[t].Scan?
    ensures !Unmarked(s, c, p)
  {
    assert PcOk(s, t, s.pcs[t]);
    if c.By? && c.t in s.pcs { assert PcOk(s, c.t, s.pcs[c.t]); }
  }

  /** A group whose bits are all clear belongs to nobody. */
  lemma Claimed(s: Pool, r: Pool, t: Tid)
    requires Inv(s) && t in s.pcs && s.pcs[t].Scan? && s.pcs[t].j == s.pcs[t].cnt
    requires r == At(s, t, Flip(Range(s.pcs[t].i, s.pcs[t].cnt), 0))
    ensures Exclusive(r) && Marks(r) && Accounted(r)
  {
    var g := Range(s.pcs[t].i, s.pcs[t].cnt);
    assert PcOk(s, t, s.pcs[t]);
    forall c: Claimant, p: nat | Covers(s, c, p)
      ensures s.used[p] && !In(g, p) && Covers(r, c, p) && !Unmarked(r, c, p)
    {
      NothingHalfClaimed(s, t, c, p);
    }
    assert forall c: Claimant, p: nat :: Covers(r, c, p) ==> if c == By(t) then In(g, p) else Covers(s, c, p);
    forall p: nat | On(r.used, p)
      ensures exists c: Claimant :: Covers(r, c, p)
    {
      var c: Claimant :| Covers(s, c, p);
      assert Covers(r, c, p);
    }
  }

  lemma FlipKeeps(s: Pool, t: Tid)
    requires Inv(s) && Enabled(s, Go(t)) && s.pcs[t].Flip? && s.pcs[t].k < s.pcs[t].r.cnt
    ensures Inv(Next(s, Go(t)))
  {
    var r, g, k := Next(s, Go(t)), s.pcs[t].r, s.pcs[t].k;
    assert PcOk(s, t, s.pcs[t]);
    OthersStillOk(s, r, t, r.pcs[t]);
    assert forall c: Claimant, p: nat :: Covers(r, c, p) == Covers(s, c, p);
    assert Covers(s, By(t), g.start + k);
    forall p: nat | On(r.used, p)
      ensures exists c: Claimant :: Covers(r, c, p)
    {
      if p == g.start + k {
        assert Covers(r, By(t), p);
      } else {
        assert On(s.used, p);
        var c: Claimant :| Covers(s, c, p);
        assert Covers(r, c, p);
      }
    }
  }

  lemma GrantKeeps(s: Pool, t: Tid)
    requires Inv(s) && Enabled(s, Go(t)) && s.pcs[t].Flip? && s.pcs[t].k >= s.pcs[t].r.cnt
    ensures Inv(Next(s, Go(t)))
  {
    var r := Next(s, Go(t));
    assert PcOk(s, t, s.pcs[t]);
    OthersStillOk(s, r, t, r.pcs[t]);
    Renamed(s, r, By(t), Alloc(s.next));
  }

  lemma FreeKeeps(s: Pool, t: Tid, id: nat)
    requires Inv(s) && Enabled(s, Free(t, id))
    ensures Inv(Next(s, Free(t, id)))
  {
    var r := Next(s, Free(t, id));
    OthersStillOk(s, r, t, r.pcs[t]);
    Renamed(s, r, Alloc(id), By(t));
  }

  /** A claim that passes whole from one claimant to another. */
  lemma Renamed(s: Pool, r: Pool, from: Claimant, to: Claimant)
    requires Exclusive(s) && Marks(s) && Accounted(s) && r.used == s.used && from != to
    requires forall c: Claimant, p: nat :: c != from && c != to ==> Covers(r, c, p) == Covers(s, c, p) && Unmarked(r, c, p) == Unmarked(s, c, p)
    requires forall p: nat :: !Covers(s, to, p) && !Covers(r, from, p) && Covers(r, to, p) == Covers(s, from, p)
    requires forall p: nat :: Covers(s, from, p) ==> !Unmarked(s, from, p) && !Unmarked(r, to, p)
    ensures Exclusive(r) && Marks(r) && Accounted(r)
  {
    forall p: nat | On(r.used, p)
      ensures exists c: Claimant :: Covers(r, c, p)
    {
      var c: Claimant :| Covers(s, c, p);
      assert Covers(r, if c == from then to else c, p);
    }
    assert forall c: Claimant, p: nat :: Covers(r, c, p) ==> Covers(s, if c == to then from else c, p);
  }

  lemma CheckKeeps(s: Pool, t: Tid)
    requires Inv(s) && Enabled(s, Go(t)) && s.pcs[t].Check?
    ensures Inv(Next(s, Go(t)))
  {
    var r, g, k := Next(s, Go(t)), s.pcs[t].r, s.pcs[t].k;
    assert PcOk(s, t, s.pcs[t]);
    if k < g.cnt { assert Covers(s, By(t), g.start + k) && !Unmarked(s, By(t), g.start + k); }
    OthersStillOk(s, r, t, r.pcs[t]);
    SameClaims(s, r, t, r.pcs[t]);
  }

  lemma ClearKeeps(s: Pool, t: Tid)
    requires Inv(s) && Enabled(s, Go(t)) && s.pcs[t].Clear?
    ensures Inv(Next(s, Go(t)))
  {
    var r, g, k := Next(s, Go(t)), s.pcs[t].r, s.pcs[t].k;
    assert PcOk(s, t, s.pcs[t]);
    OthersStillOk(s, r, t, r.pcs[t]);
    if k >= g.cnt {
      SameClaims(s, r, t, r.pcs[t]);
    } else {
      Released(s, r, t);
    }
  }

  lemma Released(s: Pool, r: Pool, t: Tid)
    requires Inv(s) && t in s.pcs && s.pcs[t].Clear? && s.pcs[t].k < s.pcs[t].r.cnt
    requires r == Wiped(s, t, s.pcs[t].r, s.pcs[t].k)
    ensures Exclusive(r) && Marks(r) && Accounted(r)
  {
    var q := s.pcs[t].r.start + s.pcs[t].k;
    assert Covers(s, By(t), q);
    assert forall c: Claimant :: Covers(s, c, q) ==> c == By(t);
    forall c: Claimant, p: nat
      ensures Covers(r, c, p) == (Covers(s, c, p) && p != q) && Unmarked(r, c, p) == Unmarked(s, c, p)
    {
      if c == By(t) {
        assert Covers(s, c, p) == PcCovers(s.pcs[t], p) && Covers(r, c, p) == PcCovers(r.pcs[t], p);
      } else {
        assert Covers(r, c, p) == Covers(s, c, p);
        assert Covers(s, c, q) ==> c == By(t);
      }
    }
    forall p: nat | On(r.used, p)
      ensures exists c: Claimant :: Covers(r, c, p)
    {
      assert On(s.used, p) && p != q;
      var c: Claimant :| Covers(s, c, p);
      assert Covers(r, c, p);
    }
  }

  lemma StepKeepsInv(s: Pool, a: Action)
    requires Inv(s) && Enabled(s, a)
    ensures Inv(Next(s, a))
  {
    match a
    case Get(t, cnt) => GetKeeps(s, t, cnt);
    case Free(t, id) => FreeKeeps(s, t, id);
    case Go(t) =>
      match s.pcs[t] {
        case Scan(cnt, i, j) => ScanKeeps(s, t);
        case Flip(r, k) => if k < r.cnt { FlipKeeps(s, t); } else { GrantKeeps(s, t); }
        case Check(r, k) => CheckKeeps(s, t);
        case Clear(r, k) => ClearKeeps(s, t);
      }
  }

  lemma InitIsInv(s: Pool)
    requires Init(s)
    ensures Inv(s)
  {
    assert forall c: Claimant, p: nat :: !Covers(s, c, p);
  }

  lemma {:induction false} RunKeepsInv(s: Pool, acts: seq<Action>, r: Pool)
    requires Inv(s) && Runs(s, acts, r)
    ensures Inv(r)
    decreases |acts|
  {
    if acts != [] {
      StepKeepsInv(s, acts[0]);
      RunKeepsInv(Next(s, acts[0]), acts[1..], r);
    }
  }

  // ---------------------------------------------------------------- what holds in every run

  /** The groups handed out are inside the pool, marked used, and no two of them share a page. */
  lemma GroupsAreDisjointInEveryRun(s: Pool, acts: seq<Action>, r: Pool, id: nat, id': nat, p: nat)
    requires Init(s) && Runs(s, acts, r) && id in r.live && id' in r.live && In(r.live[id], p)
    ensures p < |r.used| && r.used[p] && (In(r.live[id'], p) ==> id == id')
  {
    InitIsInv(s);
    RunKeepsInv(s, acts, r);
    assert Covers(r, Alloc(id), p);
    if In(r.live[id'], p) { assert Covers(r, Alloc(id'), p); }
  }

  /** The assertion in palloc_free_multiple never fails. */
  lemma NobodyPanics(s: Pool, acts: seq<Action>, r: Pool, t: Tid)
    requires Init(s) && Runs(s, acts, r) && t in r.pcs
    ensures r.pcs[t] != Panicked
  {
    InitIsInv(s);
    RunKeepsInv(s, acts, r);
    assert PcOk(r, t, r.pcs[t]);
  }

  /** Between calls a page is marked exactly when it is in a group somebody holds, so giving everything back
      leaves the pool as it began. */
  lemma MarkedExactlyWhenHeld(s: Pool, acts: seq<Action>, r: Pool, p: nat)
    requires Init(s) && Runs(s, acts, r) && p < |r.used|
    requires forall t :: t in r.pcs ==> r.pcs[t] == Idle
    ensures r.used[p] <==> exists id :: id in r.live && In(r.live[id], p)
  {
    InitIsInv(s);
    RunKeepsInv(s, acts, r);
    if r.used[p] {
      assert On(r.used, p);
      var c: Claimant :| Covers(r, c, p);
    } else if id :| id in r.live && In(r.live[id], p) {
      assert Covers(r, Alloc(id), p);
    }
  }

  // ---------------------------------------------------------------- a scan nobody interrupts

  /** From s to r only t steps, and up to r it is scanning. */
  ghost predicate ScansTo(s: Pool, steps: nat, r: Pool, t: Tid)
    decreases steps
  {
    if steps == 0 then r == s
    else t in s.pcs && s.pcs[t].Scan? && ScansTo(Next(s, Go(t)), steps - 1, r, t)
  }

  /** Left alone, a scan settles on the lowest group that fits, or gives up only when there is none. */
  lemma UninterruptedScan(s: Pool, t: Tid, cnt: nat, steps: nat, r: Pool)
    requires Enabled(s, Get(t, cnt)) && ScansTo(Next(s, Get(t, cnt)), steps, r, t) && t in r.pcs && !r.pcs[t].Scan?
    ensures r.used == s.used
    ensures r.pcs[t] == match FirstFit(s.used, 0, cnt, false) case None => Idle case Some(i) => Flip(Range(i, cnt), 0)
  {
    ScanSettles(Next(s, Get(t, cnt)), t, cnt, 0, 0, steps, r);
  }

  lemma {:induction false} ScanSettles(s: Pool, t: Tid, cnt: nat, i: nat, j: nat, steps: nat, r: Pool)
    requires t in s.pcs && s.pcs[t] == Scan(cnt, i, j) && j <= cnt && cnt > 0
    requires i + j <= |s.used| && forall p :: i <= p < i + j ==> !s.used[p]
    requires ScansTo(s, steps, r, t) && t in r.pcs && !r.pcs[t].Scan?
    ensures r == match FirstFit(s.used, i, cnt, false) case None => At(s, t, Idle).(holder := None) case Some(k) => At(s, t, Flip(Range(k, cnt), 0))
    decreases steps
  {
    var q := Next(s, Go(t));
    if q.pcs[t].Scan? {
      if On(s.used, i + j) { assert !AllAre(s.used, i, cnt, false); }
      ScanSettles(q, t, cnt, q.pcs[t].i, q.pcs[t].j, steps - 1, r);
    }
  }

  /** It does settle: no bit is tested more often than there are places for the group to start, and one step ends it. */
  lemma UninterruptedScanEnds(s: Pool, t: Tid, cnt: nat)
    requires Enabled(s, Get(t, cnt))
    ensures exists steps: nat, r: Pool ::
      steps <= |s.used| * (cnt + 1) + 1 && ScansTo(Next(s, Get(t, cnt)), steps, r, t) && t in r.pcs && !r.pcs[t].Scan?
  {
    var places := if cnt <= |s.used| then |s.used| - cnt + 1 else 0;
    var steps, r := ScanEnds(Next(s, Get(t, cnt)), t, cnt, 0, 0, places);
    if cnt <= |s.used| { assert |s.used| * (cnt + 1) == places * (cnt + 1) + (cnt - 1) * (cnt + 1); }
  }

  lemma {:induction false} ScanEnds(s: Pool, t: Tid, cnt: nat, i: nat, j: nat, places: nat) returns (steps: nat, r: Pool)
    requires t in s.pcs && s.pcs[t] == Scan(cnt, i, j) && j <= cnt && cnt > 0
    requires places == if i + cnt <= |s.used| then |s.used| - cnt + 1 - i else 0
    ensures ScansTo(s, steps, r, t) && t in r.pcs && !r.pcs[t].Scan?
    ensures steps <= StepsLeft(cnt, places, j)
    decreases places, cnt - j
  {
    var q := Next(s, Go(t));
    OneStepLess(cnt, places, j);
    if !q.pcs[t].Scan? {
      assert ScansTo(q, 0, q, t);
      steps, r := 1, q;
    } else {
      hide StepsLeft;
      var further, last := ScanEnds(q, t, cnt, q.pcs[t].i, q.pcs[t].j, if q.pcs[t].i == i then places else places - 1);
      steps, r := further + 1, last;
    }
  }

  function StepsLeft(cnt: nat, places: nat, j: nat): (n: int) { if places == 0 then 1 else places * (cnt + 1) - j + 1 }

  lemma OneStepLess(cnt: nat, places: nat, j: nat)
    requires j <= cnt
    ensures StepsLeft(cnt, places, j) >= 1
    ensures places > 0 && j < cnt ==>
      StepsLeft(cnt, places - 1, 0) < StepsLeft(cnt, places, j) && StepsLeft(cnt, places, j + 1) < StepsLeft(cnt, places, j)
  {
    if places > 0 { assert places * (cnt + 1) == (places - 1) * (cnt + 1) + cnt + 1; }
  }

  // ---------------------------------------------------------------- calls nobody interrupts

  function Steps(t: Tid, n: nat): (acts: seq<Action>) { seq(n, _ => Go(t)) }

  lemma {:induction false} RunsOn(s: Pool, a: seq<Action>, m: Pool, b: seq<Action>, r: Pool)
    requires Runs(s, a, m) && Runs(m, b, r)
    ensures Runs(s, a + b, r)
    decreases |a|
  {
    hide Next, Enabled;
    if a == [] {
      assert a + b == b;
    } else {
      RunsOn(Next(s, a[0]), a[1..], m, b, r);
      assert (a + b)[1..] == a[1..] + b;
    }
  }

  lemma OneMoreStep(s: Pool, t: Tid, n: nat, r: Pool)
    requires Enabled(s, Go(t)) && Runs(Next(s, Go(t)), Steps(t, n), r)
    ensures Runs(s, Steps(t, n + 1), r)
  {
    hide Next, Enabled;
    assert Steps(t, n + 1)[1..] == Steps(t, n);
  }

  lemma {:induction false} ScanRuns(s: Pool, steps: nat, r: Pool, t: Tid)
    requires ScansTo(s, steps, r, t)
    ensures Runs(s, Steps(t, steps), r)
    decreases steps
  {
    if steps > 0 {
      ScanRuns(Next(s, Go(t)), steps - 1, r, t);
      OneMoreStep(s, t, steps - 1, r);
    }
  }

  /** `now` is `was` with the pages of g marked or cleared. */
  predicate Changed(was: seq<bool>, now: seq<bool>, g: Range, value: bool) {
    |now| == |was| && forall p :: 0 <= p < |was| ==> now[p] == if In(g, p) then value else was[p]
  }

  lemma {:induction false} FlipRuns(s: Pool, t: Tid, g: Range, k: nat) returns (r: Pool)
    requires t in s.pcs && s.pcs[t] == Flip(g, k) && k <= g.cnt && g.start + g.cnt <= |s.used|
    ensures Runs(s, Steps(t, g.cnt - k + 1), r) && Changed(s.used, r.used, Range(g.start + k, g.cnt - k), true)
    ensures r == s.(used := r.used, pcs := s.pcs[t := Idle], holder := None, live := s.live[s.next := g], next := s.next + 1)
    decreases g.cnt - k
  {
    var m := Next(s, Go(t));
    if k == g.cnt {
      r := m;
      assert Runs(m, Steps(t, 0), m);
      OneMoreStep(s, t, 0, m);
    } else {
      r := FlipRuns(m, t, g, k + 1);
      OneMoreStep(s, t, g.cnt - k, r);
    }
  }

  /** palloc_get_multiple: left alone it hands out the lowest free group of the size asked for, with exactly its pages
      marked, and leaves the pool as it was only if there is no such group. */
  lemma GetTakesTheLowestGroup(s: Pool, t: Tid, cnt: nat)
    requires Enabled(s, Get(t, cnt))
    ensures exists n: nat, r: Pool :: Runs(s, [Get(t, cnt)] + Steps(t, n), r) && Got(s, cnt, r)
  {
    var n, r := GetRuns(s, t, cnt);
  }

  ghost predicate Got(s: Pool, cnt: nat, r: Pool) {
    if r == s then forall i: nat :: !Fits(s.used, i, cnt, false)
    else
      && s.next in r.live
      && var g := r.live[s.next];
      && r == s.(used := r.used, live := s.live[s.next := g], next := s.next + 1) && Changed(s.used, r.used, g, true)
      && g.cnt == cnt && Fits(s.used, g.start, cnt, false) && forall i :: 0 <= i < g.start ==> !Fits(s.used, i, cnt, false)
  }

  lemma GetRuns(s: Pool, t: Tid, cnt: nat) returns (n: nat, r: Pool)
    requires Enabled(s, Get(t, cnt))
    ensures Runs(s, [Get(t, cnt)] + Steps(t, n), r) && Got(s, cnt, r)
  {
    var a := Next(s, Get(t, cnt));
    var steps, m := ScanRunsOut(s, t, cnt);
    FirstFitIsLowest(s.used, 0, cnt, false);
    hide FirstFit, AllAre, Next, Changed;
    if FirstFit(s.used, 0, cnt, false) == None {
      n, r := steps, m;
      assert m == s by { assert s.pcs[t := Idle] == s.pcs; }
    } else {
      r := FlipRuns(m, t, m.pcs[t].r, 0);
      n := steps + (cnt + 1);
      RunsOn(a, Steps(t, steps), m, Steps(t, cnt + 1), r);
      assert Steps(t, steps) + Steps(t, cnt + 1) == Steps(t, n);
      assert s.pcs[t := Idle] == s.pcs;
    }
    assert ([Get(t, cnt)] + Steps(t, n))[1..] == Steps(t, n);
  }

  lemma ScanRunsOut(s: Pool, t: Tid, cnt: nat) returns (steps: nat, r: Pool)
    requires Enabled(s, Get(t, cnt))
    ensures Runs(Next(s, Get(t, cnt)), Steps(t, steps), r)
    ensures r == match FirstFit(s.used, 0, cnt, false)
                 case None => s.(pcs := s.pcs[t := Idle])
                 case Some(i) => s.(holder := Some(t), pcs := s.pcs[t := Flip(Range(i, cnt), 0)])
    ensures FirstFit(s.used, 0, cnt, false).Some? ==> FirstFit(s.used, 0, cnt, false).value + cnt <= |s.used|
  {
    var a := Next(s, Get(t, cnt));
    UninterruptedScanEnds(s, t, cnt);
    steps, r :| ScansTo(a, steps, r, t) && t in r.pcs && !r.pcs[t].Scan?;
    ScanSettles(a, t, cnt, 0, 0, steps, r);
    ScanRuns(a, steps, r, t);
    FirstFitIsLowest(s.used, 0, cnt, false);
    hide FirstFit, ScansTo, Runs, AllAre;
  }

  lemma {:induction false} ClearRuns(s: Pool, t: Tid, g: Range, k: nat) returns (r: Pool)
    requires t in s.pcs && s.pcs[t] == Clear(g, k) && k <= g.cnt
    ensures Runs(s, Steps(t, g.cnt - k + 1), r) && Changed(s.used, r.used, Range(g.start + k, g.cnt - k), false)
    ensures r == s.(used := r.used, pcs := s.pcs[t := Idle])
    decreases g.cnt - k
  {
    var m := Next(s, Go(t));
    if k == g.cnt {
      r := m;
      assert Runs(m, Steps(t, 0), m);
      OneMoreStep(s, t, 0, m);
    } else {
      r := ClearRuns(m, t, g, k + 1);
      OneMoreStep(s, t, g.cnt - k, r);
    }
  }

  lemma {:induction false} CheckRuns(s: Pool, t: Tid, g: Range, k: nat)
    requires t in s.pcs && s.pcs[t] == Check(g, k) && k <= g.cnt && forall p :: In(g, p) ==> On(s.used, p)
    ensures Runs(s, Steps(t, g.cnt - k + 1), At(s, t, Clear(g, 0)))
    decreases g.cnt - k
  {
    var m := Next(s, Go(t));
    if k == g.cnt {
      assert Runs(m, Steps(t, 0), m);
      OneMoreStep(s, t, 0, m);
    } else {
      assert In(g, g.start + k);
      CheckRuns(m, t, g, k + 1);
      assert At(m, t, Clear(g, 0)) == At(s, t, Clear(g, 0));
      OneMoreStep(s, t, g.cnt - k, At(s, t, Clear(g, 0)));
    }
  }

  /** palloc_free_multiple: left alone it gives back exactly the pages of the group. */
  lemma FreeGivesThePagesBack(z: Pool, acts: seq<Action>, s: Pool, t: Tid, id: nat)
    requires Init(z) && Runs(z, acts, s) && Enabled(s, Free(t, id))
    ensures exists n: nat, r: Pool :: Runs(s, [Free(t, id)] + Steps(t, n), r) && GivenBack(s, id, r)
  {
    hide Inv, Runs, Init;
    InitIsInv(z);
    RunKeepsInv(z, acts, s);
    var n, r := FreeRuns(s, t, id);
  }

  ghost predicate GivenBack(s: Pool, id: nat, r: Pool)
    requires id in s.live
  {
    r == s.(used := r.used, live := s.live - {id}) && Changed(s.used, r.used, s.live[id], false)
  }

  lemma FreeRuns(s: Pool, t: Tid, id: nat) returns (n: nat, r: Pool)
    requires Inv(s) && Enabled(s, Free(t, id))
    ensures Runs(s, [Free(t, id)] + Steps(t, n), r) && GivenBack(s, id, r)
  {
    var m, g := Next(s, Free(t, id)), s.live[id];
    GroupIsMarked(s, id);
    hide Inv;
    var c := At(m, t, Clear(g, 0));
    CheckRuns(m, t, g, 0);
    r := ClearRuns(c, t, g, 0);
    RunsOn(m, Steps(t, g.cnt + 1), c, Steps(t, g.cnt + 1), r);
    n := 2 * (g.cnt + 1);
    assert Steps(t, g.cnt + 1) + Steps(t, g.cnt + 1) == Steps(t, n);
    assert ([Free(t, id)] + Steps(t, n))[1..] == Steps(t, n);
    assert s.pcs[t := Idle] == s.pcs;
  }

  lemma GroupIsMarked(s: Pool, id: nat)
    requires Inv(s) && id in s.live
    ensures forall p :: In(s.live[id], p) ==> On(s.used, p)
  {
    var g := s.live[id];
    forall p: nat | In(g, p) ensures On(s.used, p) { assert Covers(s, Alloc(id), p) && !Unmarked(s, Alloc(id), p); }
  }

  // ---------------------------------------------------------------- the two pools

  const FREE_START := 256

  /** A pool's pages, by number. */
  predicate PageFromPool(pool: Range, page: nat) { pool.start <= page < pool.start + pool.cnt }

  /** The pages given to a pool, less those its bitmap takes; no pool means a panic.  The number of words is found
      with an unsigned 32-bit sum. */
  function InitPool(base: nat, pageCnt: nat): (r: Option<Range>)
  {
    var elemCnt := (pageCnt + ELEM_BITS - 1) % BASE / ELEM_BITS;
    var bmPages := (8 + 4 * elemCnt + PGSIZE - 1) / PGSIZE;
    if bmPages > pageCnt then None else Some(Range(base + bmPages, pageCnt - bmPages))
  }

  function UserPages(ram: nat, userLimit: nat): (n: nat) requires ram >= FREE_START { Min((ram - FREE_START) / 2, userLimit) }
  function FreePages(ram: nat, freeLimit: nat): (n: nat) requires ram >= FREE_START { Min(ram - FREE_START, freeLimit) }

  /** palloc_init: the kernel's share is a difference of unsigned 32-bit numbers. */
  function PallocInit(ram: nat, userLimit: nat, freeLimit: nat): (r: (Option<Range>, Option<Range>))
    requires ram >= FREE_START
  {
    var kernelPages := (FreePages(ram, freeLimit) - UserPages(ram, userLimit)) % BASE;
    (InitPool(FREE_START, kernelPages), InitPool(FREE_START + kernelPages, UserPages(ram, userLimit)))
  }

  predicate InRam(pool: Range, ram: nat) { FREE_START <= pool.start && pool.start + pool.cnt <= ram }

  /** The kernel pool lies in RAM exactly when the limit on free pages leaves the user pool its share; then so does the
      user pool, and every page is found to be from its own pool only. */
  lemma PoolsInRamExactly(ram: nat, userLimit: nat, freeLimit: nat, page: nat)
    requires FREE_START <= ram <= 0x10_0000
    ensures var (kernel, user) := PallocInit(ram, userLimit, freeLimit);
      && (kernel.Some? ==> (InRam(kernel.value, ram) <==> UserPages(ram, userLimit) <= FreePages(ram, freeLimit)))
      && (kernel.Some? && user.Some? && UserPages(ram, userLimit) <= FreePages(ram, freeLimit) ==>
            InRam(user.value, ram) && !(PageFromPool(kernel.value, page) && PageFromPool(user.value, page)))
  {
    hide InitPool;
    var u, f := UserPages(ram, userLimit), FreePages(ram, freeLimit);
    var k := (f - u) % BASE;
    assert k == if u <= f then f - u else f - u + BASE;
    PoolEnds(FREE_START, k);
    PoolEnds(FREE_START + k, u);
  }

  /** When it does, the two pools share the free pages: the kernel's come first, then at most half of all for the user,
      up to the limits, and the pages in front of each pool hold a bitmap with a bit for every one of its pages. */
  lemma PoolsShareTheRam(ram: nat, userLimit: nat, freeLimit: nat)
    requires FREE_START <= ram <= 0x10_0000 && Min((ram - FREE_START) / 2, userLimit) <= Min(ram - FREE_START, freeLimit)
    ensures match PallocInit(ram, userLimit, freeLimit)
      case (Some(k), Some(u)) =>
        && FREE_START < k.start && k.start + k.cnt < u.start && u.start + u.cnt == FREE_START + Min(ram - FREE_START, freeLimit)
        && u.start + u.cnt - (k.start + k.cnt) == Min((ram - FREE_START) / 2, userLimit)
        && k.cnt <= 8 * ((k.start - FREE_START) * PGSIZE - 8) && u.cnt <= 8 * ((u.start - (k.start + k.cnt)) * PGSIZE - 8)
      case _ => true
  {
    hide InitPool;
    var u, f := UserPages(ram, userLimit), FreePages(ram, freeLimit);
    assert (f - u) % BASE == f - u;
    PoolEnds(FREE_START, f - u);
    PoolEnds(FREE_START + f - u, u);
    BitmapFits(FREE_START, f - u);
    BitmapFits(FREE_START + f - u, u);
  }

  lemma BitmapFits(base: nat, pageCnt: nat)
    requires pageCnt <= 0x10_0000
    ensures match InitPool(base, pageCnt) case None => true case Some(r) => r.cnt <= 8 * ((r.start - base) * PGSIZE - 8)
  {
    assert (pageCnt + ELEM_BITS - 1) % BASE == pageCnt + ELEM_BITS - 1;
  }

  /** The wrapped difference is within reach: a limit of 10 pages on 4 MB leaves the kernel pool past the end of RAM. */
  lemma LowLimitWrapsAround()
    ensures var (kernel, user) := PallocInit(1024, 0xffff_ffff, 10);
      kernel.Some? && kernel.value.start + kernel.value.cnt == BASE - 374 + FREE_START && !InRam(kernel.value, 1024)
  {
    hide InitPool;
    assert UserPages(1024, 0xffff_ffff) == 384 && FreePages(1024, 10) == 10 && (10 - 384) % BASE == BASE - 374;
    PoolEnds(FREE_START, BASE - 374);
    assert InitPool(FREE_START, BASE - 374).Some? by { EnoughForItsBitmap(); }
  }

  lemma EnoughForItsBitmap()
    ensures InitPool(FREE_START, BASE - 374).Some?
  {
  }

  lemma PoolEnds(base: nat, pageCnt: nat)
    ensures match InitPool(base, pageCnt) case None => true case Some(r) => base < r.start && r.start + r.cnt == base + pageCnt
  {
  }
}

/** The readers/writers protocol of one inode (filesys/inode.c): inode_read_at and
    inode_write_at on the two semaphores `readers_lock` and `writers_lock` and the
    counter `current_readers`, run by any number of threads in any interleaving.

    A step is one interrupts-off region of a semaphore operation, one access to the
    counter, or the transfer of one sector; writing part of a sector takes two of them.
    `versions` records the contents of the file after each complete write, oldest first. */
module ReadersWriters {
  import opened Bytes
  import opened InodeIO
  import opened Options
  import opened Semaphores

  type Sectors = seq<Sector>

  /** What one trip of either loop touches: a stretch of one sector; a write has new bytes for it. */
  datatype Trip = Trip(sector: nat, ofs: nat, n: nat)
  datatype Piece = Piece(sector: nat, ofs: nat, bytes: seq<Byte>)

  /** A call of inode_read_at or inode_write_at, and the trips its loop will make on this inode. */
  datatype Read = Read(offset: nat, size: int, trips: seq<Trip>)
  datatype Write = Write(offset: nat, bytes: seq<Byte>, pieces: seq<Piece>)

  function Trips(length: nat, size: int, offset: nat): (trips: seq<Trip>)
    decreases Max(0, size)
  {
    var n := Chunk(length, size, offset);
    if n <= 0 then []
    else [Trip(offset / BLOCK_SECTOR_SIZE, offset % BLOCK_SECTOR_SIZE, n)] + Trips(length, size - n, offset + n)
  }

  function Pieces(length: nat, bytes: seq<Byte>, offset: nat): (pieces: seq<Piece>)
    decreases |bytes|
  {
    var n := Chunk(length, |bytes|, offset);
    if n <= 0 then []
    else [Piece(offset / BLOCK_SECTOR_SIZE, offset % BLOCK_SECTOR_SIZE, bytes[..n])] + Pieces(length, bytes[n..], offset + n)
  }

  datatype Pc =
    | Out
    | ReadEnter(plan: Read)
    | ReadTest(plan: Read)
    | ReadClaim(plan: Read)
    | ReadCount(plan: Read)
    | ReadOpen(plan: Read)
    | Reading(plan: Read, got: seq<seq<Byte>>, version: int)
    | ReadLeave(plan: Read, got: seq<seq<Byte>>, version: int)
    | ReadUncount(plan: Read, got: seq<seq<Byte>>, version: int)
    | ReadLast(plan: Read, got: seq<seq<Byte>>, version: int)
    | ReadClose(plan: Read, got: seq<seq<Byte>>, version: int)
    | WriteEnter(whole: Write)
    | Writing(whole: Write, done: nat)
    | Patching(whole: Write, done: nat, bounce: Sector)

  datatype State = State(
    readersLock: Sema,
    writersLock: Sema,
    readers: int,
    length: nat,
    contents: Sectors,
    versions: seq<Sectors>,
    pcs: map<Tid, Pc>)

  datatype Action = StartRead(t: Tid, offset: nat, size: int) | StartWrite(t: Tid, offset: nat, bytes: seq<Byte>) | Go(t: Tid)

  /** Reading and writing one sector; nothing is there beyond the end of the file. */
  function At(c: Sectors, i: nat): (x: Sector) {
    if i < |c| then c[i] else seq(BLOCK_SECTOR_SIZE, _ => 0)
  }

  function Stored(c: Sectors, i: nat, x: Sector): (r: Sectors)
    ensures |r| == |c|
  {
    if i < |c| then c[i := x] else c
  }

  /** A full sector is written without reading it first. */
  predicate Full(p: Piece) { p.ofs == 0 && |p.bytes| == BLOCK_SECTOR_SIZE }

  /** The sector with the new bytes in place. */
  function Patched(x: Sector, p: Piece): (r: Sector) {
    if p.ofs + |p.bytes| <= BLOCK_SECTOR_SIZE then Patch(x, p.ofs, p.bytes) else x
  }

  /** A write on its own: every piece goes on top of what its sector holds by then. */
  function Applied(c: Sectors, w: seq<Piece>): (r: Sectors)
    ensures |r| == |c|
  {
    if w == [] then c
    else
      var p, before := w[|w| - 1], Applied(c, w[..|w| - 1]);
      Stored(before, p.sector, Patched(At(before, p.sector), p))
  }

  /** What a trip of the read loop takes out of its sector. */
  function Part(c: Sectors, t: Trip): (bytes: seq<Byte>) {
    if t.ofs + t.n <= BLOCK_SECTOR_SIZE then At(c, t.sector)[t.ofs..t.ofs + t.n] else []
  }

  function Fetched(c: Sectors, trips: seq<Trip>): (r: seq<seq<Byte>>) {
    seq(|trips|, i requires 0 <= i < |trips| => Part(c, trips[i]))
  }

  /** A thread can take a step unless it is queued at a semaphore. */
  predicate CanStep(s: State, t: Tid) {
    t in s.pcs && s.pcs[t] != Out && t !in s.readersLock.waiters && t !in s.writersLock.waiters
  }

  predicate Enabled(s: State, a: Action) {
    match a
    case StartRead(t, _, _) => t in s.pcs && s.pcs[t] == Out
    case StartWrite(t, _, _) => t in s.pcs && s.pcs[t] == Out
    case Go(t) => CanStep(s, t)
  }

  /** sema_down by `t`: on to `pc`, or into the queue. */
  function Down(s: Sema, t: Tid, here: Pc, there: Pc): (r: (Sema, Pc)) {
    (Semaphores.Down(s, t), if s.value == 0 then here else there)
  }

  function Next(s: State, a: Action): (r: State)
    requires Enabled(s, a)
  {
    match a
    case StartRead(t, offset, size) => s.(pcs := s.pcs[t := ReadEnter(Read(offset, size, Trips(s.length, size, offset)))])
    case StartWrite(t, offset, bytes) =>
      s.(pcs := s.pcs[t := WriteEnter(Write(offset, bytes, Pieces(s.length, bytes, offset)))])
    case Go(t) =>
      match s.pcs[t]
      case ReadEnter(plan) =>
        var (l, pc) := Down(s.readersLock, t, ReadEnter(plan), ReadTest(plan));
        s.(readersLock := l, pcs := s.pcs[t := pc])
      case ReadTest(plan) =>
        s.(pcs := s.pcs[t := if s.readers == 0 then ReadClaim(plan) else ReadCount(plan)])
      case ReadClaim(plan) =>
        var (l, pc) := Down(s.writersLock, t, ReadClaim(plan), ReadCount(plan));
        s.(writersLock := l, pcs := s.pcs[t := pc])
      case ReadCount(plan) => s.(readers := s.readers + 1, pcs := s.pcs[t := ReadOpen(plan)])
      case ReadOpen(plan) =>
        s.(readersLock := Up(s.readersLock), pcs := s.pcs[t := Reading(plan, [], |s.versions| - 1)])
      case Reading(plan, got, v) =>
        s.(pcs := s.pcs[t :=
             if |got| < |plan.trips| then Reading(plan, got + [Part(s.contents, plan.trips[|got|])], v)
             else ReadLeave(plan, got, v)])
      case ReadLeave(plan, got, v) =>
        var (l, pc) := Down(s.readersLock, t, ReadLeave(plan, got, v), ReadUncount(plan, got, v));
        s.(readersLock := l, pcs := s.pcs[t := pc])
      case ReadUncount(plan, got, v) => s.(readers := s.readers - 1, pcs := s.pcs[t := ReadLast(plan, got, v)])
      case ReadLast(plan, got, v) =>
        s.(writersLock := if s.readers == 0 then Up(s.writersLock) else s.writersLock, pcs := s.pcs[t := ReadClose(plan, got, v)])
      case ReadClose(plan, got, v) => s.(readersLock := Up(s.readersLock), pcs := s.pcs[t := Out])
      case WriteEnter(whole) =>
        var (l, pc) := Down(s.writersLock, t, WriteEnter(whole), Writing(whole, 0));
        s.(writersLock := l, pcs := s.pcs[t := pc])
      case Writing(whole, done) =>
        if done < |whole.pieces| then
          if Full(whole.pieces[done]) then
            s.(contents := Stored(s.contents, whole.pieces[done].sector, whole.pieces[done].bytes), pcs := s.pcs[t := Writing(whole, done + 1)])
          else
            s.(pcs := s.pcs[t := Patching(whole, done, At(s.contents, whole.pieces[done].sector))])
        else
          s.(writersLock := Up(s.writersLock), versions := s.versions + [s.contents], pcs := s.pcs[t := Out])
      case Patching(whole, done, bounce) =>
        if done < |whole.pieces| then
          s.(contents := Stored(s.contents, whole.pieces[done].sector, Patched(bounce, whole.pieces[done])),
             pcs := s.pcs[t := Writing(whole, done + 1)])
        else s
  }

  // ---------------------------------------------------------------- the invariant

  predicate AtReadersLock(pc: Pc) { pc.ReadEnter? || pc.ReadLeave? }

  predicate HoldsReadersLock(pc: Pc) {
    pc.ReadTest? || pc.ReadClaim? || pc.ReadCount? || pc.ReadOpen? || pc.ReadUncount? || pc.ReadLast? || pc.ReadClose?
  }

  predicate AtWritersLock(pc: Pc) { pc.ReadClaim? || pc.WriteEnter? }

  /** Inside inode_write_at's loop. */
  predicate Writes(pc: Pc) { pc.Writing? || pc.Patching? }

  /** Between the increment and the decrement of current_readers. */
  predicate Counted(pc: Pc) { pc.ReadOpen? || pc.Reading? || pc.ReadLeave? || pc.ReadUncount? }

  /** The readers as a group hold writers_lock while this thread is here. */
  predicate KeepsWritersOut(pc: Pc) { pc.ReadCount? || pc.ReadLast? || Counted(pc) }

  ghost function CountedThreads(s: State): (r: set<Tid>) {
    set t | t in s.pcs && Counted(s.pcs[t])
  }

  /** readers_lock is a lock: its value is 1 and nobody holds it, or 0 and one thread does. */
  ghost predicate ReadersLockInv(s: State) {
    && s.readersLock.value <= 1
    && (forall t, u :: t in s.pcs && u in s.pcs && HoldsReadersLock(s.pcs[t]) && HoldsReadersLock(s.pcs[u]) ==> t == u)
    && (s.readersLock.value == 0 <==> exists t :: t in s.pcs && HoldsReadersLock(s.pcs[t]))
  }

  /** writers_lock is held by nobody, by one writer, or by the readers together. */
  ghost predicate WritersLockInv(s: State) {
    && s.writersLock.value <= 1
    && (forall t, u :: t in s.pcs && u in s.pcs && Writes(s.pcs[t]) && Writes(s.pcs[u]) ==> t == u)
    && (forall t, u :: t in s.pcs && u in s.pcs && Writes(s.pcs[t]) ==> !KeepsWritersOut(s.pcs[u]))
    && (s.writersLock.value == 0 <==>
          exists t :: t in s.pcs && (Writes(s.pcs[t]) || KeepsWritersOut(s.pcs[t])))
  }

  ghost predicate CountInv(s: State) {
    && s.readers == |CountedThreads(s)|
    && (forall t :: t in s.pcs && s.pcs[t].ReadClaim? ==> s.readers == 0)
  }

  ghost predicate QueueInv(s: State) {
    && Sound(s.readersLock) && Sound(s.writersLock)
    && (forall t :: t in s.readersLock.waiters || t in s.readersLock.woken ==> t in s.pcs && AtReadersLock(s.pcs[t]))
    && (forall t :: t in s.writersLock.waiters || t in s.writersLock.woken ==> t in s.pcs && AtWritersLock(s.pcs[t]))
  }

  /** What a reader has is a part of one version, the newest for as long as it is
      counted; a writer's changes go on top of the newest version; with no writer
      inside the file is that version. */
  ghost predicate DataInv(s: State) {
    && s.versions != []
    && (forall t :: t in s.pcs ==> PcDataInv(s, s.pcs[t]))
    && ((forall t :: t in s.pcs ==> !Writes(s.pcs[t])) ==> s.contents == s.versions[|s.versions| - 1])
  }

  ghost predicate PcDataInv(s: State, pc: Pc)
    requires s.versions != []
  {
    match pc
    case Reading(plan, got, v) => v == |s.versions| - 1 && |got| <= |plan.trips| && got == Fetched(s.versions[v], plan.trips[..|got|])
    case ReadLeave(plan, got, v) => v == |s.versions| - 1 && got == Fetched(s.versions[v], plan.trips)
    case ReadUncount(plan, got, v) => v == |s.versions| - 1 && got == Fetched(s.versions[v], plan.trips)
    case ReadLast(plan, got, v) => 0 <= v < |s.versions| && got == Fetched(s.versions[v], plan.trips)
    case ReadClose(plan, got, v) => 0 <= v < |s.versions| && got == Fetched(s.versions[v], plan.trips)
    case Writing(whole, done) => done <= |whole.pieces| && s.contents == Applied(s.versions[|s.versions| - 1], whole.pieces[..done])
    case Patching(whole, done, bounce) =>
      && done < |whole.pieces| && s.contents == Applied(s.versions[|s.versions| - 1], whole.pieces[..done])
      && bounce == At(s.contents, whole.pieces[done].sector)
    case _ => true
  }

  ghost predicate Inv(s: State) {
    ReadersLockInv(s) && WritersLockInv(s) && CountInv(s) && QueueInv(s) && DataInv(s)
  }

  ghost predicate Init(s: State) {
    && s.readersLock == Fresh(1) && s.writersLock == Fresh(1) && s.readers == 0
    && |s.contents| == BytesToSectors(s.length) && s.versions == [s.contents] && forall t :: t in s.pcs ==> s.pcs[t] == Out
  }

  lemma InitInv(s: State)
    requires Init(s)
    ensures Inv(s)
  {
    assert CountedThreads(s) == {};
  }

  // ---------------------------------------------------------------- one thread moves

  ghost predicate Moves(s: State, r: State, t: Tid) {
    t in s.pcs && t in r.pcs && r.pcs == s.pcs[t := r.pcs[t]]
  }

  lemma ReadersLockKept(s: State, r: State, t: Tid)
    requires ReadersLockInv(s) && Moves(s, r, t) && r.readersLock.value == s.readersLock.value
    requires HoldsReadersLock(s.pcs[t]) == HoldsReadersLock(r.pcs[t])
    ensures ReadersLockInv(r)
  {
    if r.readersLock.value == 0 {
      var u :| u in s.pcs && HoldsReadersLock(s.pcs[u]);
      assert HoldsReadersLock(r.pcs[u]);
    }
  }

  lemma ReadersLockTaken(s: State, r: State, t: Tid)
    requires ReadersLockInv(s) && Moves(s, r, t) && s.readersLock.value == 1 && r.readersLock.value == 0
    requires HoldsReadersLock(r.pcs[t])
    ensures ReadersLockInv(r)
  {
  }

  lemma ReadersLockGiven(s: State, r: State, t: Tid)
    requires ReadersLockInv(s) && Moves(s, r, t) && r.readersLock.value == s.readersLock.value + 1
    requires HoldsReadersLock(s.pcs[t]) && !HoldsReadersLock(r.pcs[t])
    ensures ReadersLockInv(r)
  {
  }

  lemma WritersLockKept(s: State, r: State, t: Tid)
    requires WritersLockInv(s) && Moves(s, r, t) && r.writersLock.value == s.writersLock.value
    requires Writes(s.pcs[t]) == Writes(r.pcs[t]) && KeepsWritersOut(s.pcs[t]) == KeepsWritersOut(r.pcs[t])
    ensures WritersLockInv(r)
  {
    if r.writersLock.value == 0 {
      var u :| u in s.pcs && (Writes(s.pcs[u]) || KeepsWritersOut(s.pcs[u]));
      assert Writes(r.pcs[u]) || KeepsWritersOut(r.pcs[u]);
    }
  }

  lemma WritersLockTaken(s: State, r: State, t: Tid)
    requires WritersLockInv(s) && Moves(s, r, t) && s.writersLock.value == 1 && r.writersLock.value == 0
    requires Writes(r.pcs[t]) || KeepsWritersOut(r.pcs[t])
    ensures WritersLockInv(r)
  {
  }

  /** `u` keeps the writers out with or without `t`. */
  lemma WritersLockShared(s: State, r: State, t: Tid, u: Tid)
    requires WritersLockInv(s) && Moves(s, r, t) && r.writersLock.value == s.writersLock.value
    requires u in s.pcs && u != t && KeepsWritersOut(s.pcs[u])
    requires !Writes(s.pcs[t]) && !Writes(r.pcs[t])
    ensures WritersLockInv(r)
  {
    assert r.pcs[u] == s.pcs[u];
  }

  lemma WritersLockGiven(s: State, r: State, t: Tid)
    requires WritersLockInv(s) && Moves(s, r, t) && r.writersLock.value == s.writersLock.value + 1
    requires !Writes(r.pcs[t]) && !KeepsWritersOut(r.pcs[t]) && (Writes(s.pcs[t]) || KeepsWritersOut(s.pcs[t]))
    requires forall u :: u in s.pcs && u != t ==> !Writes(s.pcs[u]) && !KeepsWritersOut(s.pcs[u])
    ensures WritersLockInv(r)
  {
  }

  lemma CountKept(s: State, r: State, t: Tid)
    requires CountInv(s) && Moves(s, r, t) && r.readers == s.readers && Counted(s.pcs[t]) == Counted(r.pcs[t])
    requires r.pcs[t].ReadClaim? ==> s.readers == 0
    ensures CountInv(r)
  {
    assert CountedThreads(r) == CountedThreads(s);
  }

  /** Only the holder of readers_lock changes the count, so no other reader is between
      its test of the count and its claim of writers_lock. */
  lemma NoOtherClaims(s: State, t: Tid)
    requires ReadersLockInv(s) && t in s.pcs && HoldsReadersLock(s.pcs[t])
    ensures forall u :: u in s.pcs && u != t ==> !s.pcs[u].ReadClaim?
  {
  }

  lemma CountRaised(s: State, r: State, t: Tid)
    requires CountInv(s) && Moves(s, r, t) && r.readers == s.readers + 1 && !Counted(s.pcs[t]) && Counted(r.pcs[t])
    requires forall u :: u in s.pcs && u != t ==> !s.pcs[u].ReadClaim?
    ensures CountInv(r)
  {
    assert CountedThreads(r) == CountedThreads(s) + {t};
  }

  lemma CountLowered(s: State, r: State, t: Tid)
    requires CountInv(s) && Moves(s, r, t) && r.readers == s.readers - 1 && Counted(s.pcs[t]) && !Counted(r.pcs[t])
    requires !r.pcs[t].ReadClaim? && forall u :: u in s.pcs && u != t ==> !s.pcs[u].ReadClaim?
    ensures CountInv(r)
  {
    assert CountedThreads(r) == CountedThreads(s) - {t};
  }

  lemma QueuesKept(s: State, r: State, t: Tid)
    requires QueueInv(s) && Moves(s, r, t) && r.readersLock == s.readersLock && r.writersLock == s.writersLock
    requires !AtReadersLock(s.pcs[t]) && (AtWritersLock(s.pcs[t]) ==> AtWritersLock(r.pcs[t]))
    ensures QueueInv(r)
  {
    hide Sound;
  }

  lemma QueuesDownReaders(s: State, r: State, t: Tid)
    requires QueueInv(s) && Moves(s, r, t) && t !in s.readersLock.waiters && AtReadersLock(s.pcs[t])
    requires r.readersLock == Semaphores.Down(s.readersLock, t) && r.writersLock == s.writersLock
    requires s.readersLock.value == 0 ==> AtReadersLock(r.pcs[t])
    ensures QueueInv(r)
  {
    DownKeepsSound(s.readersLock, t);
    hide Sound;
  }

  lemma QueuesDownWriters(s: State, r: State, t: Tid)
    requires QueueInv(s) && Moves(s, r, t) && t !in s.writersLock.waiters && AtWritersLock(s.pcs[t])
    requires r.writersLock == Semaphores.Down(s.writersLock, t) && r.readersLock == s.readersLock
    requires s.writersLock.value == 0 ==> AtWritersLock(r.pcs[t])
    ensures QueueInv(r)
  {
    DownKeepsSound(s.writersLock, t);
    hide Sound;
  }

  lemma QueuesUpReaders(s: State, r: State, t: Tid)
    requires QueueInv(s) && Moves(s, r, t) && !AtReadersLock(s.pcs[t]) && !AtWritersLock(s.pcs[t])
    requires r.readersLock == Up(s.readersLock) && r.writersLock == s.writersLock
    ensures QueueInv(r)
  {
    UpKeepsSound(s.readersLock);
    UpWakesAWaiter(s.readersLock);
    hide Sound, Up;
  }

  lemma QueuesUpWriters(s: State, r: State, t: Tid)
    requires QueueInv(s) && Moves(s, r, t) && !AtReadersLock(s.pcs[t]) && !AtWritersLock(s.pcs[t])
    requires r.writersLock == Up(s.writersLock) && r.readersLock == s.readersLock
    ensures QueueInv(r)
  {
    UpKeepsSound(s.writersLock);
    UpWakesAWaiter(s.writersLock);
    hide Sound, Up;
  }

  lemma DataKept(s: State, r: State, t: Tid)
    requires DataInv(s) && Moves(s, r, t) && r.contents == s.contents && r.versions == s.versions
    requires PcDataInv(r, r.pcs[t]) && (Writes(s.pcs[t]) ==> Writes(r.pcs[t]))
    ensures DataInv(r)
  {
    hide Fetched, Applied, At;
    forall u | u in r.pcs ensures PcDataInv(r, r.pcs[u]) { if u != t { assert PcDataInv(s, s.pcs[u]); } }
    if forall u :: u in r.pcs ==> !Writes(r.pcs[u]) {
      forall u | u in s.pcs ensures !Writes(s.pcs[u]) { assert u != t ==> !Writes(r.pcs[u]); }
    }
  }

  lemma NoWriterInside(s: State, t: Tid)
    requires DataInv(s) && WritersLockInv(s) && t in s.pcs && KeepsWritersOut(s.pcs[t])
    ensures s.contents == s.versions[|s.versions| - 1]
  {
    hide PcDataInv;
  }

  lemma FetchesOneMore(c: Sectors, plan: seq<Trip>, n: nat)
    requires n < |plan|
    ensures Fetched(c, plan[..n]) + [Part(c, plan[n])] == Fetched(c, plan[..n + 1])
  {
    assert plan[..n + 1] == plan[..n] + [plan[n]];
  }

  lemma FetchesNothing(c: Sectors, plan: seq<Trip>)
    ensures Fetched(c, plan[..0]) == []
  {
  }

  lemma AppliesOneMore(c: Sectors, w: seq<Piece>, n: nat)
    requires n < |w|
    ensures var before := Applied(c, w[..n]);
      Applied(c, w[..n + 1]) == Stored(before, w[n].sector, Patched(At(before, w[n].sector), w[n]))
  {
    assert w[..n + 1][..n] == w[..n];
  }

  lemma DataWritten(s: State, r: State, t: Tid)
    requires DataInv(s) && WritersLockInv(s) && Moves(s, r, t) && r.versions == s.versions
    requires Writes(s.pcs[t]) && s.pcs[t].done < |s.pcs[t].whole.pieces| && r.pcs[t] == Writing(s.pcs[t].whole, s.pcs[t].done + 1)
    requires var p := s.pcs[t].whole.pieces[s.pcs[t].done];
      r.contents == Stored(s.contents, p.sector, Patched(At(s.contents, p.sector), p))
    ensures DataInv(r)
  {
    hide Fetched, Applied, Stored, Patched, At;
    assert PcDataInv(s, s.pcs[t]);
    AppliesOneMore(s.versions[|s.versions| - 1], s.pcs[t].whole.pieces, s.pcs[t].done);
    forall u | u in r.pcs ensures PcDataInv(r, r.pcs[u]) { if u != t { assert PcDataInv(s, s.pcs[u]); } }
  }

  lemma DataCommitted(s: State, r: State, t: Tid)
    requires DataInv(s) && WritersLockInv(s) && Moves(s, r, t) && Writes(s.pcs[t])
    requires r.contents == s.contents && r.versions == s.versions + [s.contents] && r.pcs[t] == Out
    ensures DataInv(r)
  {
    hide Fetched, Applied;
    forall u | u in r.pcs ensures PcDataInv(r, r.pcs[u]) { if u != t { assert PcDataInv(s, s.pcs[u]) && !KeepsWritersOut(s.pcs[u]); } }
  }

  // ---------------------------------------------------------------- one lemma a step

  lemma StartStep(s: State, a: Action)
    requires Inv(s) && Enabled(s, a) && !a.Go?
    ensures Inv(Next(s, a))
  {
    hide ReadersLockInv, WritersLockInv, CountInv, QueueInv, DataInv;
    var r, t := Next(s, a), a.t;
    ReadersLockKept(s, r, t);
    WritersLockKept(s, r, t);
    CountKept(s, r, t);
    QueuesKept(s, r, t);
    assert s.versions != [] by { VersionsExist(s); }
    DataKept(s, r, t);
  }

  lemma VersionsExist(s: State)
    requires DataInv(s)
    ensures s.versions != []
    ensures forall t :: t in s.pcs ==> PcDataInv(s, s.pcs[t])
  {
    hide PcDataInv;
  }

  /** The steps that end in sema_down or sema_up on readers_lock. */
  lemma ReadersLockStep(s: State, t: Tid)
    requires Inv(s) && CanStep(s, t)
    requires s.pcs[t].ReadEnter? || s.pcs[t].ReadLeave? || s.pcs[t].ReadOpen? || s.pcs[t].ReadClose?
    ensures Inv(Next(s, Go(t)))
  {
    hide ReadersLockInv, WritersLockInv, CountInv, QueueInv, DataInv, Fetched, Applied, Up;
    VersionsExist(s);
    var r := Next(s, Go(t));
    FetchesNothing(s.versions[|s.versions| - 1], s.pcs[t].plan.trips);
    WritersLockKept(s, r, t);
    CountKept(s, r, t);
    DataKept(s, r, t);
    if AtReadersLock(s.pcs[t]) {
      assert s.readersLock.value <= 1 by { LockValues(s); }
      if s.readersLock.value == 0 { ReadersLockKept(s, r, t); } else { ReadersLockTaken(s, r, t); }
      QueuesDownReaders(s, r, t);
    } else {
      UpWakesAWaiter(s.readersLock);
      ReadersLockGiven(s, r, t);
      QueuesUpReaders(s, r, t);
    }
  }

  lemma LockValues(s: State)
    requires ReadersLockInv(s) && WritersLockInv(s)
    ensures s.readersLock.value <= 1 && s.writersLock.value <= 1
  {
  }

  lemma CountStep(s: State, t: Tid)
    requires Inv(s) && CanStep(s, t) && (s.pcs[t].ReadCount? || s.pcs[t].ReadUncount?)
    ensures Inv(Next(s, Go(t)))
  {
    hide ReadersLockInv, WritersLockInv, CountInv, QueueInv, DataInv, Fetched, Applied;
    VersionsExist(s);
    var r := Next(s, Go(t));
    ReadersLockKept(s, r, t);
    WritersLockKept(s, r, t);
    NoOtherClaims(s, t);
    if s.pcs[t].ReadCount? { CountRaised(s, r, t); } else { CountLowered(s, r, t); }
    QueuesKept(s, r, t);
    DataKept(s, r, t);
  }

  /** While somebody is counted, somebody keeps the writers out. */
  lemma ACountedThread(s: State) returns (u: Tid)
    requires CountInv(s) && s.readers != 0
    ensures u in s.pcs && Counted(s.pcs[u])
  {
    assert CountedThreads(s) != {};
    u :| u in CountedThreads(s);
  }

  lemma TestStep(s: State, t: Tid)
    requires Inv(s) && CanStep(s, t) && s.pcs[t].ReadTest?
    ensures Inv(Next(s, Go(t)))
  {
    hide ReadersLockInv, WritersLockInv, CountInv, QueueInv, DataInv;
    VersionsExist(s);
    var r := Next(s, Go(t));
    ReadersLockKept(s, r, t);
    if s.readers == 0 {
      WritersLockKept(s, r, t);
    } else {
      var u := ACountedThread(s);
      WritersLockShared(s, r, t, u);
    }
    CountKept(s, r, t);
    QueuesKept(s, r, t);
    DataKept(s, r, t);
  }

  lemma WritersLockStep(s: State, t: Tid)
    requires Inv(s) && CanStep(s, t) && (s.pcs[t].ReadClaim? || s.pcs[t].WriteEnter?)
    ensures Inv(Next(s, Go(t)))
  {
    hide ReadersLockInv, WritersLockInv, CountInv, QueueInv, DataInv;
    VersionsExist(s);
    LockValues(s);
    var r := Next(s, Go(t));
    ReadersLockKept(s, r, t);
    assert s.pcs[t].ReadClaim? ==> s.readers == 0 by { ClaimsWithNoReaders(s); }
    CountKept(s, r, t);
    QueuesDownWriters(s, r, t);
    if s.writersLock.value == 0 {
      WritersLockKept(s, r, t);
    } else {
      WritersLockTaken(s, r, t);
      FreeMeansCurrent(s);
    }
    DataKept(s, r, t);
  }

  lemma ClaimsWithNoReaders(s: State)
    requires CountInv(s)
    ensures forall t :: t in s.pcs && s.pcs[t].ReadClaim? ==> s.readers == 0
  {
  }

  lemma FreeMeansCurrent(s: State)
    requires WritersLockInv(s) && DataInv(s) && s.writersLock.value == 1
    ensures s.contents == s.versions[|s.versions| - 1]
  {
    hide PcDataInv;
  }

  lemma ReadingStep(s: State, t: Tid)
    requires Inv(s) && CanStep(s, t) && s.pcs[t].Reading?
    ensures Inv(Next(s, Go(t)))
  {
    hide ReadersLockInv, WritersLockInv, CountInv, QueueInv, DataInv, Fetched;
    VersionsExist(s);
    var r := Next(s, Go(t));
    var plan, got, v := s.pcs[t].plan.trips, s.pcs[t].got, s.pcs[t].version;
    NoWriterInside(s, t);
    if |got| < |plan| { FetchesOneMore(s.contents, plan, |got|); } else { assert plan[..|got|] == plan; }
    ReadersLockKept(s, r, t);
    WritersLockKept(s, r, t);
    CountKept(s, r, t);
    QueuesKept(s, r, t);
    DataKept(s, r, t);
  }

  lemma LastStep(s: State, t: Tid)
    requires Inv(s) && CanStep(s, t) && s.pcs[t].ReadLast?
    ensures Inv(Next(s, Go(t)))
  {
    hide ReadersLockInv, WritersLockInv, CountInv, QueueInv, DataInv, Fetched, Up;
    VersionsExist(s);
    var r := Next(s, Go(t));
    ReadersLockKept(s, r, t);
    CountKept(s, r, t);
    DataKept(s, r, t);
    if s.readers == 0 {
      UpWakesAWaiter(s.writersLock);
      LastReaderAlone(s, t);
      WritersLockGiven(s, r, t);
      QueuesUpWriters(s, r, t);
    } else {
      var u := ACountedThread(s);
      WritersLockShared(s, r, t, u);
      QueuesKept(s, r, t);
    }
  }

  lemma LastReaderAlone(s: State, t: Tid)
    requires ReadersLockInv(s) && WritersLockInv(s) && CountInv(s) && s.readers == 0 && t in s.pcs && s.pcs[t].ReadLast?
    ensures forall u :: u in s.pcs && u != t ==> !Writes(s.pcs[u]) && !KeepsWritersOut(s.pcs[u])
  {
    assert CountedThreads(s) == {};
    forall u | u in s.pcs && u != t ensures !Writes(s.pcs[u]) && !KeepsWritersOut(s.pcs[u]) {
      assert u !in CountedThreads(s);
    }
  }

  lemma WritingStep(s: State, t: Tid)
    requires Inv(s) && CanStep(s, t) && s.pcs[t].Writing?
    ensures Inv(Next(s, Go(t)))
  {
    hide ReadersLockInv, WritersLockInv, CountInv, QueueInv, DataInv, Applied, Stored, At, Up, Patched;
    VersionsExist(s);
    var r := Next(s, Go(t));
    ReadersLockKept(s, r, t);
    CountKept(s, r, t);
    if s.pcs[t].done < |s.pcs[t].whole.pieces| {
      WritersLockKept(s, r, t);
      QueuesKept(s, r, t);
      var p := s.pcs[t].whole.pieces[s.pcs[t].done];
      if Full(p) {
        FullPatch(At(s.contents, p.sector), p);
        DataWritten(s, r, t);
      } else {
        DataKept(s, r, t);
      }
    } else {
      UpWakesAWaiter(s.writersLock);
      WriterAlone(s, t);
      WritersLockGiven(s, r, t);
      QueuesUpWriters(s, r, t);
      DataCommitted(s, r, t);
    }
  }

  lemma FullPatch(x: Sector, p: Piece)
    requires Full(p)
    ensures Patched(x, p) == p.bytes
  {
    PatchAll(x, p.bytes);
  }

  /** Nobody has touched the sector since the writer read it. */
  lemma PatchingStep(s: State, t: Tid)
    requires Inv(s) && CanStep(s, t) && s.pcs[t].Patching?
    ensures Inv(Next(s, Go(t)))
  {
    hide ReadersLockInv, WritersLockInv, CountInv, QueueInv, DataInv, Applied, Stored, At, Patched;
    VersionsExist(s);
    var r := Next(s, Go(t));
    ReadersLockKept(s, r, t);
    CountKept(s, r, t);
    WritersLockKept(s, r, t);
    QueuesKept(s, r, t);
    DataWritten(s, r, t);
  }

  lemma WriterAlone(s: State, t: Tid)
    requires WritersLockInv(s) && t in s.pcs && Writes(s.pcs[t])
    ensures forall u :: u in s.pcs && u != t ==> !Writes(s.pcs[u]) && !KeepsWritersOut(s.pcs[u])
  {
  }

  lemma StepKeepsInv(s: State, a: Action)
    requires Inv(s) && Enabled(s, a)
    ensures Inv(Next(s, a))
  {
    hide Inv, Next;
    match a
    case Go(t) =>
      match s.pcs[t] {
        case ReadEnter(_) => ReadersLockStep(s, t);
        case ReadTest(_) => TestStep(s, t);
        case ReadClaim(_) => WritersLockStep(s, t);
        case ReadCount(_) => CountStep(s, t);
        case ReadOpen(_) => ReadersLockStep(s, t);
        case Reading(_, _, _) => ReadingStep(s, t);
        case ReadLeave(_, _, _) => ReadersLockStep(s, t);
        case ReadUncount(_, _, _) => CountStep(s, t);
        case ReadLast(_, _, _) => LastStep(s, t);
        case ReadClose(_, _, _) => ReadersLockStep(s, t);
        case WriteEnter(_) => WritersLockStep(s, t);
        case Writing(_, _) => WritingStep(s, t);
        case Patching(_, _, _) => PatchingStep(s, t);
      }
    case _ => StartStep(s, a);
  }

  // ---------------------------------------------------------------- every run

  ghost predicate Runs(s: State, acts: seq<Action>, r: State)
    decreases |acts|
  {
    if acts == [] then r == s else Enabled(s, acts[0]) && Runs(Next(s, acts[0]), acts[1..], r)
  }

  lemma {:induction false} RunKeepsInv(s: State, acts: seq<Action>, r: State)
    requires Inv(s) && Runs(s, acts, r)
    ensures Inv(r)
    decreases |acts|
  {
    hide Inv, Next, Enabled;
    if acts != [] {
      StepKeepsInv(s, acts[0]);
      RunKeepsInv(Next(s, acts[0]), acts[1..], r);
    }
  }

  /** Inside inode_write_at's loop, or inside inode_read_at's. */
  predicate Inside(pc: Pc) { Writes(pc) || pc.Reading? }

  /** In every state of every run a writer is inside alone, and current_readers counts
      exactly the readers that have been counted in and not yet out. */
  lemma ExclusionInEveryRun(s: State, acts: seq<Action>, r: State)
    requires Init(s) && Runs(s, acts, r)
    ensures forall t, u :: t in r.pcs && u in r.pcs && Writes(r.pcs[t]) && Inside(r.pcs[u]) ==> t == u
    ensures r.readers == |CountedThreads(r)|
  {
    InitInv(s);
    RunKeepsInv(s, acts, r);
    hide QueueInv, DataInv;
  }

  /** The bytes of the file. */
  function FileBytes(c: Sectors, length: nat): (f: seq<Byte>)
    requires |c| == BytesToSectors(length)
    ensures |f| == length
  {
    Contents(c, Extent(0, length))
  }

  function Joined(parts: seq<seq<Byte>>): (f: seq<Byte>) { if parts == [] then [] else parts[0] + Joined(parts[1..]) }

  // ---------------------------------------------------------------- what was asked for

  /** The call that thread t made last, by the list of actions alone. */
  function LastStart(acts: seq<Action>, t: Tid): (a: Option<Action>)
    decreases |acts|
  {
    if acts == [] then None
    else
      var last := acts[|acts| - 1];
      if last.t == t && !last.Go? then Some(last) else LastStart(acts[..|acts| - 1], t)
  }

  /** A thread in the middle of a call works on that call's offset and size or bytes. */
  predicate Obeys(pc: Pc, t: Tid, call: Option<Action>) {
    match pc
    case Out => true
    case WriteEnter(w) => call == Some(StartWrite(t, w.offset, w.bytes))
    case Writing(w, _) => call == Some(StartWrite(t, w.offset, w.bytes))
    case Patching(w, _, _) => call == Some(StartWrite(t, w.offset, w.bytes))
    case _ => call == Some(StartRead(t, pc.plan.offset, pc.plan.size))
  }

  ghost predicate AsCalled(s: State, acts: seq<Action>) {
    forall t :: t in s.pcs ==> Obeys(s.pcs[t], t, LastStart(acts, t))
  }

  lemma StepAsCalled(s: State, before: seq<Action>, a: Action)
    requires AsCalled(s, before) && Enabled(s, a)
    ensures AsCalled(Next(s, a), before + [a])
  {
    hide Up, Stored, Patched, At, Part, Trips, Pieces, AsCalled, LastStart;
    GoesOnAsCalled(s, before, a);
    OthersAsCalled(s, before, a);
  }

  lemma LastStartAfter(before: seq<Action>, a: Action, t: Tid)
    ensures LastStart(before + [a], t) == if a.t == t && !a.Go? then Some(a) else LastStart(before, t)
  {
    assert (before + [a])[..|before|] == before;
  }

  lemma GoesOnAsCalled(s: State, before: seq<Action>, a: Action)
    requires AsCalled(s, before) && Enabled(s, a)
    ensures var r := Next(s, a);
      && a.t in s.pcs && a.t in r.pcs && r.pcs == s.pcs[a.t := r.pcs[a.t]] && Obeys(r.pcs[a.t], a.t, LastStart(before + [a], a.t))
  {
    hide Up, Stored, Patched, At, Part, Trips, Pieces, LastStart, Semaphores.Down;
    LastStartAfter(before, a, a.t);
    assert Obeys(s.pcs[a.t], a.t, LastStart(before, a.t));
    hide AsCalled;
    var call := LastStart(before, a.t);
    if a.Go? {
      assert LastStart(before + [a], a.t) == call;
      SameCall(s, a.t, call);
    }
  }

  lemma SameCall(s: State, t: Tid, call: Option<Action>)
    requires CanStep(s, t) && Obeys(s.pcs[t], t, call)
    ensures var r := Next(s, Go(t)); t in r.pcs && r.pcs == s.pcs[t := r.pcs[t]] && Obeys(r.pcs[t], t, call)
  {
    hide Up, Stored, Patched, At, Part, Full, Semaphores.Down;
  }

  lemma OthersAsCalled(s: State, before: seq<Action>, a: Action)
    requires AsCalled(s, before) && Enabled(s, a)
    requires var r := Next(s, a);
      && a.t in s.pcs && a.t in r.pcs && r.pcs == s.pcs[a.t := r.pcs[a.t]] && Obeys(r.pcs[a.t], a.t, LastStart(before + [a], a.t))
    ensures AsCalled(Next(s, a), before + [a])
  {
    hide Next, Enabled, Obeys, LastStart;
    var r := Next(s, a);
    forall t | t in r.pcs ensures Obeys(r.pcs[t], t, LastStart(before + [a], t)) {
      LastStartAfter(before, a, t);
      if t != a.t { assert Obeys(s.pcs[t], t, LastStart(before, t)); }
    }
  }

  lemma {:induction false} RunAsCalled(s: State, before: seq<Action>, acts: seq<Action>, r: State)
    requires AsCalled(s, before) && Runs(s, acts, r)
    ensures AsCalled(r, before + acts)
    decreases |acts|
  {
    hide Next, Enabled, AsCalled;
    if acts == [] {
      assert before + acts == before;
    } else {
      StepAsCalled(s, before, acts[0]);
      RunAsCalled(Next(s, acts[0]), before + [acts[0]], acts[1..], r);
      assert before + [acts[0]] + acts[1..] == before + acts;
    }
  }

  /** In every run a thread under way is serving the call it made last. */
  lemma ServesItsCall(s: State, acts: seq<Action>, r: State, t: Tid)
    requires Init(s) && Runs(s, acts, r) && t in r.pcs
    ensures Obeys(r.pcs[t], t, LastStart(acts, t))
  {
    hide Runs, LastStart, Obeys;
    assert AsCalled(s, []) by { assert forall t :: t in s.pcs ==> Obeys(Out, t, LastStart([], t)) by { AnyCallWhenOut(); } }
    RunAsCalled(s, [], acts, r);
    assert [] + acts == acts;
  }

  lemma AnyCallWhenOut()
    ensures forall t: Tid, call :: Obeys(Out, t, call)
  {
  }

  /** Every read returns the bytes that one single version of the file holds in the range its caller asked for: the
      version that was the newest when the read was let in, with no later one made before it left the loop. */
  lemma ReadsSeeOneVersion(s: State, acts: seq<Action>, r: State, t: Tid)
    requires Init(s) && Runs(s, acts, r) && t in r.pcs && r.pcs[t].ReadClose?
    ensures var v, call := r.pcs[t].version, LastStart(acts, t);
      && call.Some? && call.value.StartRead?
      && 0 <= v < |r.versions| && |r.versions[v]| == BytesToSectors(r.length)
      && Joined(r.pcs[t].got) ==
           Slice(FileBytes(r.versions[v], r.length), call.value.offset, Available(r.length, call.value.size, call.value.offset))
  {
    hide Runs, FileBytes, BytesToSectors, Fetched, Trips, Available, Slice, LastStart;
    InitInv(s);
    RunKeepsInv(s, acts, r);
    InitShaped(s);
    RunKeepsShaped(s, acts, r);
    ServesItsCall(s, acts, r, t);
    ClosingRead(r, t);
    var v, call := r.pcs[t].version, r.pcs[t].plan;
    TripsRead(r.versions[v], r.length, call.size, call.offset);
  }

  lemma ClosingRead(s: State, t: Tid)
    requires Inv(s) && Shaped(s) && t in s.pcs && s.pcs[t].ReadClose?
    ensures var v, call := s.pcs[t].version, s.pcs[t].plan;
      && 0 <= v < |s.versions| && |s.versions[v]| == BytesToSectors(s.length)
      && s.pcs[t].got == Fetched(s.versions[v], call.trips) && call.trips == Trips(s.length, call.size, call.offset)
  {
    hide ReadersLockInv, WritersLockInv, CountInv, QueueInv, Fetched, Trips;
    assert PcDataInv(s, s.pcs[t]) && Planned(s.length, s.pcs[t]);
  }

  lemma ReadersHaveTheNewest(s: State, acts: seq<Action>, r: State, t: Tid)
    requires Init(s) && Runs(s, acts, r) && t in r.pcs && r.pcs[t].Reading?
    ensures r.versions != [] && r.pcs[t].version == |r.versions| - 1 && r.contents == r.versions[|r.versions| - 1]
  {
    InitInv(s);
    RunKeepsInv(s, acts, r);
    assert PcDataInv(r, r.pcs[t]);
    NoWriterInside(r, t);
  }

  /** Writes take effect one after the other and whole: exactly the last step of a write adds a version, and that is the
      newest one with the bytes its caller passed laid over the range its caller named, as far as that lies in the file. */
  lemma WritesAreWhole(s: State, acts: seq<Action>, r: State, a: Action)
    requires Init(s) && Runs(s, acts, r) && Enabled(r, a)
    ensures a.t in r.pcs && a.t in Next(r, a).pcs
    ensures if WriteEnds(r, a) then LastStart(acts, a.t).Some? && Overwrites(r, Next(r, a), LastStart(acts, a.t).value)
            else Next(r, a).versions == r.versions
  {
    hide Runs, Applied, Inv, Init, Next, Enabled, Shaped, Overwrites, LastStart, WriteEnds;
    InitInv(s);
    RunKeepsInv(s, acts, r);
    InitShaped(s);
    RunKeepsShaped(s, acts, r);
    VersionsKept(r, a);
    ServesItsCall(s, acts, r, a.t);
    if WriteEnds(r, a) {
      WrittenWhole(r, a.t);
      WrittenBytes(r, Next(r, a), a.t);
    }
  }

  /** The step that takes a thread out of inode_write_at. */
  predicate WriteEnds(s: State, a: Action)
    requires Enabled(s, a)
  {
    && a.t in s.pcs && (s.pcs[a.t].WriteEnter? || Writes(s.pcs[a.t]))
    && a.t in Next(s, a).pcs && Next(s, a).pcs[a.t] == Out
  }

  /** r has one version more than s: the newest one overwritten as the call asks. */
  predicate Overwrites(s: State, r: State, call: Action)
  {
    && call.StartWrite?
    && 0 < |s.versions| == |r.versions| - 1 && r.versions[..|s.versions|] == s.versions
    && var was, now := s.versions[|s.versions| - 1], r.versions[|s.versions|];
    && |was| == |now| == BytesToSectors(s.length)
    && var n := Available(s.length, |call.bytes|, call.offset);
    FileBytes(now, s.length) == Patch(FileBytes(was, s.length), call.offset, call.bytes[..n])
  }

  lemma WrittenBytes(s: State, r: State, t: Tid)
    requires Shaped(s) && s.versions != [] && t in s.pcs && s.pcs[t].Writing?
    requires r.versions == s.versions + [Applied(s.versions[|s.versions| - 1], s.pcs[t].whole.pieces)]
    ensures Overwrites(s, r, StartWrite(t, s.pcs[t].whole.offset, s.pcs[t].whole.bytes))
  {
    hide Applied, Pieces, FileBytes, BytesToSectors;
    var was, w := s.versions[|s.versions| - 1], s.pcs[t].whole;
    assert Planned(s.length, s.pcs[t]);
    PiecesWrite(was, s.length, w.bytes, w.offset);
  }

  lemma VersionsKept(s: State, a: Action)
    requires Enabled(s, a)
    ensures a.t in s.pcs && a.t in Next(s, a).pcs
    ensures Next(s, a).versions == if WriteEnds(s, a) then s.versions + [s.contents] else s.versions
    ensures WriteEnds(s, a) ==> s.pcs[a.t].Writing? && s.pcs[a.t].done >= |s.pcs[a.t].whole.pieces|
  {
    hide Up, Stored, Patched, At, Applied, Part, Trips, Pieces;
  }

  // ---------------------------------------------------------------- trips and bytes

  /** A call's trips are those of its range, and every version has the file's sectors. */
  predicate Planned(length: nat, pc: Pc)
  {
    match pc
    case Out => true
    case WriteEnter(w) => w.pieces == Pieces(length, w.bytes, w.offset)
    case Writing(w, _) => w.pieces == Pieces(length, w.bytes, w.offset)
    case Patching(w, _, _) => w.pieces == Pieces(length, w.bytes, w.offset)
    case _ => pc.plan.trips == Trips(length, pc.plan.size, pc.plan.offset)
  }

  ghost predicate Shaped(s: State)
  {
    && |s.contents| == BytesToSectors(s.length)
    && (forall i :: 0 <= i < |s.versions| ==> |s.versions[i]| == BytesToSectors(s.length))
    && forall t :: t in s.pcs ==> Planned(s.length, s.pcs[t])
  }

  lemma InitShaped(s: State)
    requires Init(s)
    ensures Shaped(s)
  {
  }

  lemma StepKeepsShaped(s: State, a: Action)
    requires Shaped(s) && Enabled(s, a)
    ensures Shaped(Next(s, a)) && Next(s, a).length == s.length
  {
    hide Up, Stored, Patched, At, Down, Part, Trips, Pieces, BytesToSectors, Shaped;
    SamePlan(s, a);
    ShapedStep(s, Next(s, a), a.t);
  }

  /** A thread goes on with the call it is in, or starts one. */
  lemma SamePlan(s: State, a: Action)
    requires Shaped(s) && Enabled(s, a)
    ensures var r := Next(s, a);
      && a.t in s.pcs && a.t in r.pcs && r.pcs == s.pcs[a.t := r.pcs[a.t]] && r.length == s.length && |r.contents| == |s.contents|
      && (r.versions == s.versions || r.versions == s.versions + [s.contents]) && Planned(s.length, r.pcs[a.t])
  {
    hide Up, Patched, At, Part, Trips, Pieces, BytesToSectors;
    assert Planned(s.length, s.pcs[a.t]);
  }

  lemma ShapedStep(s: State, r: State, t: Tid)
    requires Shaped(s) && t in r.pcs && r.pcs == s.pcs[t := r.pcs[t]] && r.length == s.length && |r.contents| == |s.contents|
    requires (r.versions == s.versions || r.versions == s.versions + [s.contents]) && Planned(s.length, r.pcs[t])
    ensures Shaped(r)
  {
    hide Planned, BytesToSectors;
  }

  lemma {:induction false} RunKeepsShaped(s: State, acts: seq<Action>, r: State)
    requires Shaped(s) && Runs(s, acts, r)
    ensures Shaped(r)
    decreases |acts|
  {
    hide Shaped, Next, Enabled;
    if acts != [] {
      StepKeepsShaped(s, acts[0]);
      RunKeepsShaped(Next(s, acts[0]), acts[1..], r);
    }
  }

  /** What the read loop's trips take out of the sectors is the file's bytes in the range. */
  lemma {:induction false} TripsRead(c: Sectors, length: nat, size: int, offset: nat)
    requires |c| == BytesToSectors(length)
    ensures Joined(Fetched(c, Trips(length, size, offset))) == Slice(FileBytes(c, length), offset, Available(length, size, offset))
    decreases Max(0, size)
  {
    hide BytesToSectors, Fetched, FileBytes, Slice, Joined, Part;
    var n, f := Chunk(length, size, offset), FileBytes(c, length);
    ChunkMoves(length, size, offset, true);
    NoneFetched(c, f, offset);
    if n > 0 {
      var t := Trip(offset / BLOCK_SECTOR_SIZE, offset % BLOCK_SECTOR_SIZE, n);
      var rest := Trips(length, size - n, offset + n);
      TripsRead(c, length, size - n, offset + n);
      FetchedFirst(c, t, rest);
      FirstPart(c, length, offset, n);
      SliceFirst(f, offset, n, Available(length, size - n, offset + n));
    }
  }

  lemma NoneFetched(c: Sectors, f: seq<Byte>, offset: nat)
    ensures Joined(Fetched(c, [])) == [] == Slice(f, offset, 0)
  {
  }

  lemma SliceFirst(f: seq<Byte>, offset: nat, n: nat, m: nat)
    requires n > 0 && offset + n + m <= |f|
    ensures Slice(f, offset, n + m) == f[offset..offset + n] + Slice(f, offset + n, m)
  {
  }

  lemma FetchedFirst(c: Sectors, t: Trip, rest: seq<Trip>)
    ensures Joined(Fetched(c, [t] + rest)) == Part(c, t) + Joined(Fetched(c, rest))
  {
    var all := Fetched(c, [t] + rest);
    assert all[0] == Part(c, t) && all[1..] == Fetched(c, rest);
  }

  lemma FirstPart(c: Sectors, length: nat, offset: nat, n: nat)
    requires |c| == BytesToSectors(length) && offset + n <= length && n > 0 && offset % BLOCK_SECTOR_SIZE + n <= BLOCK_SECTOR_SIZE
    ensures Part(c, Trip(offset / BLOCK_SECTOR_SIZE, offset % BLOCK_SECTOR_SIZE, n)) == FileBytes(c, length)[offset..offset + n]
  {
    hide Contents, BytesToSectors;
    ReadChunk(c, Extent(0, length), offset, n);
  }

  lemma {:induction false} AppliedFirst(c: Sectors, p: Piece, w: seq<Piece>)
    ensures Applied(c, [p] + w) == Applied(Applied(c, [p]), w)
    decreases |w|
  {
    hide Stored, Patched, At;
    if w == [] {
      assert [p] + w == [p];
    } else {
      var v := w[..|w| - 1];
      AppliedFirst(c, p, v);
      assert ([p] + w)[..|w|] == [p] + v;
    }
  }

  /** The write loop's pieces overwrite the file's bytes in the range. */
  lemma PiecesWrite(c: Sectors, length: nat, bytes: seq<Byte>, offset: nat)
    requires |c| == BytesToSectors(length)
    ensures var n := Available(length, |bytes|, offset);
      FileBytes(Applied(c, Pieces(length, bytes, offset)), length) == Patch(FileBytes(c, length), offset, bytes[..n])
  {
    hide Contents, BytesToSectors, Applied, Pieces, Flat, Patch;
    var n, now := Available(length, |bytes|, offset), Applied(c, Pieces(length, bytes, offset));
    PiecesOverwrite(c, length, bytes, offset);
    WriteIsOverwrite(c, now, Extent(0, length), offset, bytes[..n]);
  }

  lemma {:induction false} PiecesOverwrite(c: Sectors, length: nat, bytes: seq<Byte>, offset: nat)
    requires |c| == BytesToSectors(length)
    ensures var n := Available(length, |bytes|, offset);
      && (n == 0 || offset + n <= length) && OnDisk(Extent(0, length), |c|)
      && Flat(Applied(c, Pieces(length, bytes, offset))) == Overwrite(c, Extent(0, length), offset, bytes[..n])
    decreases |bytes|
  {
    hide BytesToSectors, Applied, Flat, Patch;
    var n, m := Chunk(length, |bytes|, offset), Available(length, |bytes|, offset);
    ChunkMoves(length, |bytes|, offset, true);
    if n > 0 {
      var p := Piece(offset / BLOCK_SECTOR_SIZE, offset % BLOCK_SECTOR_SIZE, bytes[..n]);
      var rest := Pieces(length, bytes[n..], offset + n);
      var first := Applied(c, [p]);
      FirstPiece(c, length, offset, bytes[..n]);
      PiecesOverwrite(first, length, bytes[n..], offset + n);
      AppliedFirst(c, p, rest);
      Twice(c, first, length, offset, bytes, n, m);
    } else {
      NothingApplied(c, length, offset);
      assert bytes[..0] == [];
    }
  }

  lemma NothingApplied(c: Sectors, length: nat, offset: nat)
    requires |c| == BytesToSectors(length)
    ensures OnDisk(Extent(0, length), |c|) && Applied(c, []) == c && Flat(c) == Overwrite(c, Extent(0, length), offset, [])
  {
  }

  lemma FirstPiece(c: Sectors, length: nat, offset: nat, x: seq<Byte>)
    requires |c| == BytesToSectors(length) && x != [] && offset + |x| <= length && offset % BLOCK_SECTOR_SIZE + |x| <= BLOCK_SECTOR_SIZE
    ensures var p := Piece(offset / BLOCK_SECTOR_SIZE, offset % BLOCK_SECTOR_SIZE, x);
      OnDisk(Extent(0, length), |c|) && Flat(Applied(c, [p])) == Overwrite(c, Extent(0, length), offset, x)
  {
    hide BytesToSectors, Flat, Patch;
    var p, e := Piece(offset / BLOCK_SECTOR_SIZE, offset % BLOCK_SECTOR_SIZE, x), Extent(0, length);
    assert [p][..0] == [] && Applied(c, []) == c;
    PatchNothing(Flat(c), offset);
    var none: seq<Byte> := [];
    assert none + x == x;
    WriteChunk(c, c, e, offset, none, x);
  }

  lemma Twice(c: Sectors, first: Sectors, length: nat, offset: nat, bytes: seq<Byte>, n: nat, m: nat)
    requires |c| == |first| && OnDisk(Extent(0, length), |c|) && 0 < n <= m <= |bytes| && offset + m <= length
    requires Flat(first) == Overwrite(c, Extent(0, length), offset, bytes[..n])
    ensures Overwrite(first, Extent(0, length), offset + n, bytes[n..][..m - n]) == Overwrite(c, Extent(0, length), offset, bytes[..m])
  {
    hide Flat, Patch;
    var y := bytes[n..][..m - n];
    assert bytes[..n] + y == bytes[..m];
    PatchTwice(Flat(c), offset, bytes[..n], y);
  }

  lemma WrittenWhole(s: State, t: Tid)
    requires Inv(s) && t in s.pcs && s.pcs[t].Writing?
    ensures s.versions != [] && (s.pcs[t].done >= |s.pcs[t].whole.pieces| ==> s.contents == Applied(s.versions[|s.versions| - 1], s.pcs[t].whole.pieces))
  {
    hide ReadersLockInv, WritersLockInv, CountInv, QueueInv, Applied;
    assert PcDataInv(s, s.pcs[t]);
    var w, n := s.pcs[t].whole.pieces, s.pcs[t].done;
    assert n == |w| ==> w[..n] == w;
  }

  /** The protocol never gets stuck: as long as one thread is under way, some thread
      under way can take a step. */
  lemma SomebodyCanStep(s: State, acts: seq<Action>, r: State)
    requires Init(s) && Runs(s, acts, r) && exists t :: t in r.pcs && r.pcs[t] != Out
    ensures exists t :: CanStep(r, t)
  {
    hide Runs, Inv, Init;
    InitInv(s);
    RunKeepsInv(s, acts, r);
    if forall t :: !CanStep(r, t) {
      var t :| t in r.pcs && r.pcs[t] != Out;
      assert !CanStep(r, t);
      NotAllQueued(r);
    }
  }

  // ---------------------------------------------------------------- calls end

  function Left(n: nat, done: nat): (m: nat) { if done < n then n - done else 0 }

  /** How many steps a call has before it if no semaphore holds it up. */
  function StepsLeft(pc: Pc): (n: nat) {
    match pc
    case Out => 0
    case ReadEnter(p) => |p.trips| + 10
    case ReadTest(p) => |p.trips| + 9
    case ReadClaim(p) => |p.trips| + 8
    case ReadCount(p) => |p.trips| + 7
    case ReadOpen(p) => |p.trips| + 6
    case Reading(p, got, _) => Left(|p.trips|, |got|) + 5
    case ReadLeave(_, _, _) => 4
    case ReadUncount(_, _, _) => 3
    case ReadLast(_, _, _) => 2
    case ReadClose(_, _, _) => 1
    case WriteEnter(w) => 2 * |w.pieces| + 2
    case Writing(w, done) => 2 * Left(|w.pieces|, done) + 1
    case Patching(w, done, _) => 2 * Left(|w.pieces|, done)
  }

  /** Every step brings a call nearer to its end, unless the thread has to queue at a semaphore whose value is 0. */
  lemma StepsMakeProgress(s: State, acts: seq<Action>, r: State, t: Tid)
    requires Init(s) && Runs(s, acts, r) && CanStep(r, t)
    ensures var n := Next(r, Go(t));
      t in n.pcs && (StepsLeft(n.pcs[t]) < StepsLeft(r.pcs[t]) || t in n.readersLock.waiters || t in n.writersLock.waiters)
  {
    hide Runs, Inv, Init, Next, StepsLeft;
    InitInv(s);
    RunKeepsInv(s, acts, r);
    GoesOn(r, t);
  }

  lemma GoesOn(s: State, t: Tid)
    requires Inv(s) && CanStep(s, t)
    ensures var n := Next(s, Go(t));
      && t in n.pcs && n.pcs == s.pcs[t := n.pcs[t]]
      && (StepsLeft(n.pcs[t]) < StepsLeft(s.pcs[t]) || t in n.readersLock.waiters || t in n.writersLock.waiters)
  {
    PatchesExist(s, t);
    hide Inv, Next, StepsLeft;
    OnlyOneMoves(s, t);
    if AtReadersLock(s.pcs[t]) || AtWritersLock(s.pcs[t]) { QueuesOrGoesOn(s, t); } else { NearerTheEnd(s, t); }
  }

  lemma OnlyOneMoves(s: State, t: Tid)
    requires CanStep(s, t)
    ensures var n := Next(s, Go(t)); t in n.pcs && n.pcs == s.pcs[t := n.pcs[t]]
  {
    hide Up, Stored, Patched, At, Part, Full, Semaphores.Down;
  }

  lemma QueuesOrGoesOn(s: State, t: Tid)
    requires CanStep(s, t) && (AtReadersLock(s.pcs[t]) || AtWritersLock(s.pcs[t]))
    ensures var n := Next(s, Go(t));
      t in n.pcs && (StepsLeft(n.pcs[t]) < StepsLeft(s.pcs[t]) || t in n.readersLock.waiters || t in n.writersLock.waiters)
  {
    hide Up, Stored, Patched, At, Part, Full;
  }

  lemma NearerTheEnd(s: State, t: Tid)
    requires CanStep(s, t) && !AtReadersLock(s.pcs[t]) && !AtWritersLock(s.pcs[t])
    requires s.pcs[t].Patching? ==> s.pcs[t].done < |s.pcs[t].whole.pieces|
    ensures var n := Next(s, Go(t)); t in n.pcs && StepsLeft(n.pcs[t]) < StepsLeft(s.pcs[t])
  {
    hide Up, Stored, Patched, At, Part, Full, Semaphores.Down;
  }

  lemma PatchesExist(s: State, t: Tid)
    requires Inv(s) && t in s.pcs
    ensures s.pcs[t].Patching? ==> s.pcs[t].done < |s.pcs[t].whole.pieces|
  {
    hide ReadersLockInv, WritersLockInv, CountInv, QueueInv, Applied;
    assert PcDataInv(s, s.pcs[t]);
  }

  /** t is the only thread under way. */
  ghost predicate Alone(s: State, t: Tid) { t in s.pcs && forall u :: u in s.pcs && u != t ==> s.pcs[u] == Out }

  /** A thread that has the inode to itself is not held up. */
  lemma AloneGoesOn(s: State, t: Tid)
    requires Inv(s) && Alone(s, t) && s.pcs[t] != Out
    ensures CanStep(s, t)
    ensures var n := Next(s, Go(t)); Alone(n, t) && StepsLeft(n.pcs[t]) < StepsLeft(s.pcs[t])
  {
    hide Next, StepsLeft;
    NobodyAhead(s, t);
    GoesOn(s, t);
    StepKeepsInv(s, Go(t));
    var n := Next(s, Go(t));
    hide Inv;
    assert Alone(n, t);
    if StepsLeft(n.pcs[t]) >= StepsLeft(s.pcs[t]) { NotHeldUp(s, t); }
  }

  lemma NobodyAhead(s: State, t: Tid)
    requires Inv(s) && Alone(s, t)
    ensures s.pcs[t] != Out ==> CanStep(s, t)
    ensures AtReadersLock(s.pcs[t]) ==> s.readersLock.value == 1
    ensures AtWritersLock(s.pcs[t]) ==> s.writersLock.value == 1
    ensures s.pcs[t] == Out ==> s.readersLock.value == 1 && s.writersLock.value == 1
  {
    hide CountInv, DataInv;
    LoneThread(s.readersLock, t);
    LoneThread(s.writersLock, t);
    hide Sound;
    assert t in s.readersLock.waiters ==> AtReadersLock(s.pcs[t]);
    assert t in s.writersLock.waiters ==> AtWritersLock(s.pcs[t]);
  }

  lemma NotHeldUp(s: State, t: Tid)
    requires CanStep(s, t) && (AtReadersLock(s.pcs[t]) ==> s.readersLock.value == 1) && (AtWritersLock(s.pcs[t]) ==> s.writersLock.value == 1)
    ensures var n := Next(s, Go(t)); t !in n.readersLock.waiters && t !in n.writersLock.waiters
  {
    hide Stored, Patched, At, Part, Full;
  }

  function Steps(t: Tid, n: nat): (acts: seq<Action>) { seq(n, _ => Go(t)) }

  lemma OneMoreStep(s: State, t: Tid, n: nat, r: State)
    requires CanStep(s, t) && Runs(Next(s, Go(t)), Steps(t, n), r)
    ensures Runs(s, Steps(t, n + 1), r)
  {
    hide Next;
    assert Steps(t, n + 1)[1..] == Steps(t, n);
  }

  lemma {:induction false} RunsOn(s: State, acts: seq<Action>, r: State, a: Action)
    requires Runs(s, acts, r) && Enabled(r, a)
    ensures Runs(s, acts + [a], Next(r, a))
    decreases |acts|
  {
    hide Next, Enabled;
    if acts == [] {
      assert acts + [a] == [a] && Runs(Next(r, a), [], Next(r, a)) && [a][1..] == [];
    } else {
      RunsOn(Next(s, acts[0]), acts[1..], r, a);
      assert (acts + [a])[1..] == acts[1..] + [a];
    }
  }

  predicate InWrite(pc: Pc) { pc.WriteEnter? || Writes(pc) }

  /** Left alone, a write that is under way ends, and the file is overwritten as its caller asked. */
  lemma {:induction false} AloneWrite(z: State, acts: seq<Action>, s: State, t: Tid, call: Action) returns (n: nat, r: State)
    requires Init(z) && Runs(z, acts, s) && Inv(s) && Alone(s, t) && InWrite(s.pcs[t]) && LastStart(acts, t) == Some(call)
    ensures Runs(s, Steps(t, n), r) && Alone(r, t) && r.pcs[t] == Out && Overwrites(s, r, call)
    decreases StepsLeft(s.pcs[t])
  {
    hide Init, Inv, Runs, Next, StepsLeft, LastStart, Overwrites, Obeys;
    assert s.pcs[t] != Out;
    hide InWrite;
    AloneGoesOn(s, t);
    var a, m := Go(t), Next(s, Go(t));
    StepKeepsInv(s, a);
    WritesAreWhole(z, acts, s, a);
    RunsOn(z, acts, s, a);
    LastStartAfter(acts, a, t);
    if WriteEnds(s, a) {
      RunsNowhere(m, t);
      OneMoreStep(s, t, 0, m);
      n, r := 1, m;
    } else {
      StillInWrite(s, t);
      n, r := AloneWrite(z, acts + [a], m, t, call);
      OneMoreStep(s, t, n, r);
      SameOverwrites(s, m, r, call);
      n := n + 1;
    }
  }

  lemma RunsNowhere(s: State, t: Tid)
    ensures Runs(s, Steps(t, 0), s)
  {
  }

  lemma StillInWrite(s: State, t: Tid)
    requires CanStep(s, t) && InWrite(s.pcs[t]) && !WriteEnds(s, Go(t))
    ensures t in Next(s, Go(t)).pcs && InWrite(Next(s, Go(t)).pcs[t]) && Next(s, Go(t)).length == s.length
  {
    hide Up, Stored, Patched, At, Full, Semaphores.Down;
  }

  lemma SameOverwrites(s: State, m: State, r: State, call: Action)
    requires Overwrites(m, r, call) && m.versions == s.versions && m.length == s.length
    ensures Overwrites(s, r, call)
  {
    hide FileBytes, Patch, BytesToSectors;
  }

  /** From r only t moves: it makes the call and takes n steps. */
  ghost predicate RunsAlone(r: State, call: Action, n: nat, q: State) {
    Runs(r, [call] + Steps(call.t, n), q) && q.pcs.Keys == r.pcs.Keys
  }

  lemma Started(s: State, acts: seq<Action>, r: State, a: Action)
    requires Init(s) && Runs(s, acts, r) && a.t in r.pcs && !a.Go? && r.pcs[a.t] == Out
    ensures Enabled(r, a) && Inv(Next(r, a)) && Runs(s, acts + [a], Next(r, a))
    ensures LastStart(acts + [a], a.t) == Some(a)
    ensures var m := Next(r, a);
      && a.t in m.pcs && m.pcs == r.pcs[a.t := m.pcs[a.t]] && m.versions == r.versions && m.length == r.length && m.contents == r.contents
      && AtNewest(m, m.pcs[a.t]) && if a.StartWrite? then InWrite(m.pcs[a.t]) else InRead(m.pcs[a.t])
  {
    hide Inv, Init, Runs, LastStart, Next, AtNewest, InWrite, InRead;
    InitInv(s);
    RunKeepsInv(s, acts, r);
    StepKeepsInv(r, a);
    RunsOn(s, acts, r, a);
    LastStartAfter(acts, a, a.t);
    StartMoves(r, a);
  }

  lemma StartMoves(r: State, a: Action)
    requires a.t in r.pcs && !a.Go? && r.pcs[a.t] == Out
    ensures Enabled(r, a)
    ensures var m := Next(r, a);
      && a.t in m.pcs && m.pcs == r.pcs[a.t := m.pcs[a.t]] && m.versions == r.versions && m.length == r.length && m.contents == r.contents
      && AtNewest(m, m.pcs[a.t]) && if a.StartWrite? then InWrite(m.pcs[a.t]) else InRead(m.pcs[a.t])
  {
    hide Trips, Pieces;
  }

  lemma CallRuns(r: State, a: Action, n: nat, q: State)
    requires Enabled(r, a) && Runs(Next(r, a), Steps(a.t, n), q)
    ensures RunsAlone(r, a, n, q)
  {
    hide Next, Enabled;
    assert ([a] + Steps(a.t, n))[1..] == Steps(a.t, n);
    SameThreads(r, [a] + Steps(a.t, n), q);
  }

  /** A write on an inode that nobody else uses goes through and leaves the file overwritten as asked. */
  lemma WriteTakesEffect(s: State, acts: seq<Action>, r: State, a: Action)
    requires Init(s) && Runs(s, acts, r) && a.StartWrite? && a.t in r.pcs && forall u :: u in r.pcs ==> r.pcs[u] == Out
    ensures exists n: nat, q :: RunsAlone(r, a, n, q) && q.pcs == r.pcs && Overwrites(r, q, a) && q.contents == q.versions[|r.versions|]
  {
    hide Init, Inv, Next, Runs, LastStart, Overwrites, InWrite, AtNewest, Enabled;
    Started(s, acts, r, a);
    var m := Next(r, a);
    var n, q := AloneWrite(s, acts + [a], m, a.t, a);
    SameOverwrites(r, m, q, a);
    NothingHalfWritten(m, Steps(a.t, n), q);
    CallRuns(r, a, n, q);
    AllOut(r, a.t, q);
    OverwritesOne(r, q, a);
  }

  lemma AllOut(r: State, t: Tid, q: State)
    requires q.pcs.Keys == r.pcs.Keys && Alone(q, t) && q.pcs[t] == Out && forall u :: u in r.pcs ==> r.pcs[u] == Out
    ensures q.pcs == r.pcs
  {
    assert forall u :: u in q.pcs ==> u in r.pcs;
    assert forall u :: u in r.pcs ==> u in q.pcs;
  }

  lemma OverwritesOne(s: State, r: State, call: Action)
    requires Overwrites(s, r, call)
    ensures |r.versions| == |s.versions| + 1
  {
    hide FileBytes, Patch, BytesToSectors;
  }

  lemma NothingHalfWritten(s: State, acts: seq<Action>, r: State)
    requires Inv(s) && Runs(s, acts, r)
    ensures r.versions != [] && ((forall u :: u in r.pcs ==> !Writes(r.pcs[u])) ==> r.contents == r.versions[|r.versions| - 1])
  {
    RunKeepsInv(s, acts, r);
    hide ReadersLockInv, WritersLockInv, CountInv, QueueInv, PcDataInv;
  }

  lemma {:induction false} SameThreads(s: State, acts: seq<Action>, r: State)
    requires Runs(s, acts, r)
    ensures r.pcs.Keys == s.pcs.Keys
    decreases |acts|
  {
    if acts != [] {
      MovesOne(s, acts[0]);
      hide Next, Enabled;
      SameThreads(Next(s, acts[0]), acts[1..], r);
    }
  }

  lemma MovesOne(s: State, a: Action)
    requires Enabled(s, a)
    ensures Next(s, a).pcs.Keys == s.pcs.Keys
  {
    hide Up, Stored, Patched, At, Part, Full, Semaphores.Down, Trips, Pieces;
  }

  predicate InRead(pc: Pc) { pc != Out && !InWrite(pc) }

  /** Everybody else is outside or in the loop of inode_read_at. */
  ghost predicate Sharing(s: State, t: Tid) { t in s.pcs && forall u :: u in s.pcs && u != t ==> s.pcs[u] == Out || s.pcs[u].Reading? }

  /** Readers inside do not hold up another one. */
  lemma SharerGoesOn(s: State, t: Tid)
    requires Inv(s) && Sharing(s, t) && InRead(s.pcs[t])
    ensures CanStep(s, t)
    ensures var n := Next(s, Go(t)); Sharing(n, t) && StepsLeft(n.pcs[t]) < StepsLeft(s.pcs[t])
  {
    hide Next, StepsLeft;
    NobodyAheadOfReader(s, t);
    GoesOn(s, t);
    var n := Next(s, Go(t));
    hide Inv;
    assert Sharing(n, t);
    if StepsLeft(n.pcs[t]) >= StepsLeft(s.pcs[t]) { NotHeldUp(s, t); }
  }

  lemma NobodyAheadOfReader(s: State, t: Tid)
    requires Inv(s) && Sharing(s, t) && InRead(s.pcs[t])
    ensures CanStep(s, t)
    ensures AtReadersLock(s.pcs[t]) ==> s.readersLock.value == 1
    ensures AtWritersLock(s.pcs[t]) ==> s.writersLock.value == 1
  {
    hide DataInv;
    assert forall u :: u in s.readersLock.waiters || u in s.readersLock.woken ==> u == t;
    assert forall u :: u in s.writersLock.waiters || u in s.writersLock.woken ==> u == t;
    LoneThread(s.readersLock, t);
    LoneThread(s.writersLock, t);
    hide Sound;
    if s.pcs[t].ReadClaim? { NobodyCounted(s, t); }
  }

  /** A reader past its sema_up has the newest version in mind. */
  predicate AtNewest(s: State, pc: Pc) {
    match pc
    case Reading(_, _, v) => v == |s.versions| - 1
    case ReadLeave(_, _, v) => v == |s.versions| - 1
    case ReadUncount(_, _, v) => v == |s.versions| - 1
    case ReadLast(_, _, v) => v == |s.versions| - 1
    case ReadClose(_, _, v) => v == |s.versions| - 1
    case _ => true
  }

  lemma StillInRead(s: State, t: Tid)
    requires CanStep(s, t) && InRead(s.pcs[t]) && !s.pcs[t].ReadClose? && AtNewest(s, s.pcs[t])
    ensures var r := Next(s, Go(t));
      t in r.pcs && InRead(r.pcs[t]) && AtNewest(r, r.pcs[t]) && r.versions == s.versions && r.contents == s.contents && r.length == s.length
  {
    hide Up, Part, Semaphores.Down;
  }

  /** Among other readers, a read that is under way gets to its end without touching the file. */
  lemma {:induction false} SharedRead(s: State, t: Tid) returns (n: nat, r: State)
    requires Inv(s) && Sharing(s, t) && InRead(s.pcs[t]) && AtNewest(s, s.pcs[t])
    ensures Runs(s, Steps(t, n), r) && CanStep(r, t) && Inv(r) && r.pcs[t].ReadClose? && AtNewest(r, r.pcs[t]) && r.pcs == s.pcs[t := r.pcs[t]]
    ensures r.versions == s.versions && r.contents == s.contents && r.length == s.length
    decreases StepsLeft(s.pcs[t])
  {
    hide Inv, Runs, Next, StepsLeft, AtNewest;
    SharerGoesOn(s, t);
    if s.pcs[t].ReadClose? {
      RunsNowhere(s, t);
      n, r := 0, s;
    } else {
      StepKeepsInv(s, Go(t));
      StillInRead(s, t);
      OnlyOneMoves(s, t);
      n, r := SharedRead(Next(s, Go(t)), t);
      OneMoreStep(s, t, n, r);
      n := n + 1;
    }
  }

  /** In q the read is about to return the bytes that r's file has where the call asks for them; then all is as in r. */
  ghost predicate ReadDone(r: State, call: Action, q: State)
    requires call.StartRead? && |r.contents| == BytesToSectors(r.length)
  {
    && call.t in q.pcs && q.pcs[call.t].ReadClose? && CanStep(q, call.t) && Next(q, Go(call.t)).pcs == r.pcs
    && q.contents == r.contents && q.versions == r.versions
    && Joined(q.pcs[call.t].got) == Slice(FileBytes(r.contents, r.length), call.offset, Available(r.length, call.size, call.offset))
  }

  /** A read goes through, whatever other readers are inside, and returns the file's bytes in the range asked for. */
  lemma ReadTakesEffect(s: State, acts: seq<Action>, r: State, a: Action)
    requires Init(s) && Runs(s, acts, r) && a.StartRead? && a.t in r.pcs && r.pcs[a.t] == Out && Sharing(r, a.t)
    ensures |r.contents| == BytesToSectors(r.length)
    ensures exists n: nat, q :: RunsAlone(r, a, n, q) && ReadDone(r, a, q)
  {
    hide Init, Inv, Next, Runs, LastStart, Enabled, Shaped, Slice, Available, FileBytes, BytesToSectors, Joined;
    Started(s, acts, r, a);
    InitInv(s);
    NothingHalfWritten(s, acts, r);
    SectorsOfFile(s, acts, r);
    var n, q := SharedRead(Next(r, a), a.t);
    CallRuns(r, a, n, q);
    RunsThrough(s, acts, r, [a] + Steps(a.t, n), q);
    ReadsSeeOneVersion(s, acts + ([a] + Steps(a.t, n)), q, a.t);
    LastStartOfSteps(acts, a, a.t, n);
    CloseEnds(q, a.t);
    assert q.pcs[a.t := Out] == r.pcs;
  }

  lemma SectorsOfFile(s: State, acts: seq<Action>, r: State)
    requires Init(s) && Runs(s, acts, r)
    ensures |r.contents| == BytesToSectors(r.length)
  {
    hide Runs, BytesToSectors, Planned;
    InitShaped(s);
    RunKeepsShaped(s, acts, r);
  }

  lemma CloseEnds(s: State, t: Tid)
    requires CanStep(s, t) && s.pcs[t].ReadClose?
    ensures Next(s, Go(t)).pcs == s.pcs[t := Out]
  {
    hide Up;
  }

  lemma {:induction false} LastStartOfSteps(acts: seq<Action>, a: Action, t: Tid, n: nat)
    requires a.t == t && !a.Go?
    ensures LastStart(acts + ([a] + Steps(t, n)), t) == Some(a)
  {
    if n == 0 {
      LastStartAfter(acts, a, t);
      assert [a] + Steps(t, 0) == [a];
    } else {
      LastStartOfSteps(acts, a, t, n - 1);
      LastStartAfter(acts + ([a] + Steps(t, n - 1)), Go(t), t);
      assert acts + ([a] + Steps(t, n - 1)) + [Go(t)] == acts + ([a] + Steps(t, n));
    }
  }

  lemma {:induction false} RunsThrough(s: State, a: seq<Action>, m: State, b: seq<Action>, r: State)
    requires Runs(s, a, m) && Runs(m, b, r)
    ensures Runs(s, a + b, r)
    decreases |a|
  {
    hide Next, Enabled;
    if a == [] {
      assert a + b == b;
    } else {
      RunsThrough(Next(s, a[0]), a[1..], m, b, r);
      assert (a + b)[1..] == a[1..] + b;
    }
  }

  lemma NotAtBoth(s: State, t: Tid)
    requires QueueInv(s) && (t in s.readersLock.woken || t in s.writersLock.woken)
    ensures t in s.readersLock.woken ==> t !in s.writersLock.waiters
    ensures t in s.writersLock.woken ==> t !in s.readersLock.waiters
  {
    hide Sound;
  }

  lemma WokenCanStep(s: State, l: Sema)
    requires Inv(s) && (l == s.readersLock || l == s.writersLock) && l.waiters != [] && l.value > 0
    ensures exists t :: CanStep(s, t)
  {
    NoLostWakeup(l);
    var t :| t in l.woken;
    NotAtBoth(s, t);
    assert CanStep(s, t);
  }

  lemma NotAllQueued(s: State)
    requires Inv(s) && (s.readersLock.waiters != [] || s.writersLock.waiters != [])
    ensures exists t :: CanStep(s, t)
  {
    if s.readersLock.waiters != [] && s.readersLock.value > 0 {
      WokenCanStep(s, s.readersLock);
    } else if s.writersLock.waiters != [] && s.writersLock.value > 0 {
      WokenCanStep(s, s.writersLock);
    } else if s.readersLock.waiters != [] {
      var t :| t in s.pcs && HoldsReadersLock(s.pcs[t]);
      if t in s.writersLock.waiters {
        BarringThreadCanStep(s);
      } else {
        assert CanStep(s, t);
      }
    } else {
      BarringThreadCanStep(s);
    }
  }

  /** Somebody has writers_lock; that thread, or a thread it waits for, can step. */
  lemma BarringThreadCanStep(s: State)
    requires Inv(s) && s.writersLock.waiters != [] && s.writersLock.value == 0
    requires s.readersLock.waiters == [] || exists t :: t in s.writersLock.waiters && HoldsReadersLock(s.pcs[t])
    ensures exists t :: CanStep(s, t)
  {
    hide ReadersLockInv, DataInv;
    var u :| u in s.pcs && (Writes(s.pcs[u]) || KeepsWritersOut(s.pcs[u]));
    hide WritersLockInv;
    if exists t :: t in s.writersLock.waiters && HoldsReadersLock(s.pcs[t]) {
      var t :| t in s.writersLock.waiters && HoldsReadersLock(s.pcs[t]);
      assert s.pcs[t].ReadClaim?;
      NobodyCounted(s, t);
    }
    NotQueued(s, u);
    assert CanStep(s, u);
  }

  lemma NobodyCounted(s: State, t: Tid)
    requires CountInv(s) && t in s.pcs && s.pcs[t].ReadClaim?
    ensures forall u :: u in s.pcs ==> !Counted(s.pcs[u])
  {
    assert CountedThreads(s) == {};
    forall u | u in s.pcs ensures !Counted(s.pcs[u]) { assert u !in CountedThreads(s); }
  }

  lemma NotQueued(s: State, u: Tid)
    requires QueueInv(s) && u in s.pcs && (Writes(s.pcs[u]) || KeepsWritersOut(s.pcs[u]))
    requires s.readersLock.waiters == [] || !Counted(s.pcs[u])
    ensures u !in s.readersLock.waiters && u !in s.writersLock.waiters
  {
    hide Sound;
  }
}

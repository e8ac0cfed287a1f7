/** A lock and a condition variable of threads/synch.c, used by any number of threads in
    any interleaving.  A step is one interrupts-off region of a semaphore operation or
    one access to the lock's holder or to the condition's list.

    `calls` lists every call of cond_wait so far, with the private semaphore that the
    call keeps on its stack; a call is named by its place in that list. */
module Locks {
  import opened Options
  import opened Semaphores

  datatype Call = Call(caller: Tid, sema: Sema)

  datatype Pc =
    | Out
    | Acquiring(call: Option<nat>)
    | Acquired
    | In
    | Broadcasting
    | Signalling(signalled: nat, all: bool)
    | Releasing(call: Option<nat>)
    | Upping(call: Option<nat>)
    | Waiting(waits: nat)

  datatype State = State(
    lock: Sema,
    holder: Option<Tid>,
    queue: seq<nat>,
    calls: seq<Call>,
    pcs: map<Tid, Pc>)

  datatype Action =
    | Acquire(t: Tid)
    | TryAcquire(t: Tid)
    | Release(t: Tid)
    | Wait(t: Tid)
    | Signal(t: Tid)
    | Broadcast(t: Tid)
    | Go(t: Tid)

  predicate Queued(s: State, t: Tid) {
    t in s.lock.waiters || exists w :: 0 <= w < |s.calls| && t in s.calls[w].sema.waiters
  }

  predicate Enabled(s: State, a: Action) {
    && a.t in s.pcs
    && match a
       case Acquire(t) => s.pcs[t] == Out
       case TryAcquire(t) => s.pcs[t] == Out
       case Go(t) => s.pcs[t] != Out && s.pcs[t] != In && !Queued(s, t)
       case _ => s.pcs[a.t] == In
  }

  function At(s: State, t: Tid, pc: Pc): (r: State) {
    s.(pcs := s.pcs[t := pc])
  }

  /** list_empty, list_pop_front and on to the sema_up, or nothing to signal. */
  function Pop(s: State, t: Tid, all: bool): (r: State) {
    if s.queue == [] then At(s, t, In) else At(s.(queue := s.queue[1..]), t, Signalling(s.queue[0], all))
  }

  function Next(s: State, a: Action): (r: State)
    requires Enabled(s, a)
  {
    match a
    case Acquire(t) => At(s, t, Acquiring(None))
    case TryAcquire(t) => At(s.(lock := TryDown(s.lock)), t, if s.lock.value == 0 then Out else Acquired)
    case Release(t) => At(s, t, Releasing(None))
    case Wait(t) =>
      var w := |s.calls|;
      At(s.(calls := s.calls + [Call(t, Fresh(0))], queue := s.queue + [w]), t, Releasing(Some(w)))
    case Signal(t) => Pop(s, t, false)
    case Broadcast(t) => At(s, t, Broadcasting)
    case Go(t) =>
      match s.pcs[t]
      case Acquiring(_) => At(s.(lock := Down(s.lock, t)), t, if s.lock.value == 0 then s.pcs[t] else Acquired)
      case Acquired => At(s.(holder := Some(t)), t, In)
      case Broadcasting => Pop(s, t, true)
      case Signalling(w, all) =>
        if w < |s.calls| then
          At(s.(calls := s.calls[w := s.calls[w].(sema := Up(s.calls[w].sema))]), t, if all then Broadcasting else In)
        else s
      case Releasing(call) => At(s.(holder := None), t, Upping(call))
      case Upping(call) =>
        At(s.(lock := Up(s.lock)), t, match call case None => Out case Some(w) => Waiting(w))
      case Waiting(w) =>
        if w < |s.calls| then
          var v := s.calls[w].sema;
          At(s.(calls := s.calls[w := s.calls[w].(sema := Down(v, t))]), t,
             if v.value == 0 then Waiting(w) else Acquiring(Some(w)))
        else s
  }

  // ---------------------------------------------------------------- the invariant

  /** Past the sema_down of lock_acquire and not yet past the sema_up of lock_release. */
  predicate Owns(pc: Pc) {
    pc.Acquired? || pc.In? || pc.Broadcasting? || pc.Signalling? || pc.Releasing? || pc.Upping?
  }

  /** Between the two assignments to lock->holder. */
  predicate IsHolder(pc: Pc) {
    pc.In? || pc.Broadcasting? || pc.Signalling? || pc.Releasing?
  }

  /** The lock's semaphore is 1 and nobody owns the lock, or 0 and one thread does. */
  ghost predicate OwnerInv(s: State) {
    && s.lock.value <= 1
    && (forall t, u :: t in s.pcs && u in s.pcs && Owns(s.pcs[t]) && Owns(s.pcs[u]) ==> t == u)
    && (s.lock.value == 0 <==> exists t :: t in s.pcs && Owns(s.pcs[t]))
  }

  ghost predicate HolderInv(s: State) {
    && (forall t :: t in s.pcs ==> (IsHolder(s.pcs[t]) <==> s.holder == Some(t)))
    && (s.holder.Some? ==> s.holder.value in s.pcs)
  }

  ghost predicate LockQueueInv(s: State) {
    && Sound(s.lock)
    && (forall t :: t in s.lock.waiters || t in s.lock.woken ==> t in s.pcs && s.pcs[t].Acquiring?)
  }

  ghost predicate LockInv(s: State) {
    OwnerInv(s) && HolderInv(s) && LockQueueInv(s)
  }

  /** The call of cond_wait that this thread is in, up to the end of its private down. */
  function CallOf(pc: Pc): (w: Option<nat>) {
    match pc
    case Releasing(c) => c
    case Upping(c) => c
    case Waiting(w) => Some(w)
    case _ => None
  }

  predicate Popped(s: State, w: nat) {
    w < |s.calls| - |s.queue|
  }

  ghost predicate BeingSignalled(s: State, w: nat) {
    exists t :: t in s.pcs && s.pcs[t].Signalling? && s.pcs[t].signalled == w
  }

  lemma StillBeingSignalled(s: State, r: State, t: Tid, w: nat)
    requires Moves(s, r, t) && BeingSignalled(s, w) && (s.pcs[t].Signalling? && s.pcs[t].signalled == w ==> r.pcs[t] == s.pcs[t])
    ensures BeingSignalled(r, w)
  {
    var u :| u in s.pcs && s.pcs[u].Signalling? && s.pcs[u].signalled == w;
    assert r.pcs[u] == s.pcs[u];
  }

  /** A call's semaphore is upped once, by the thread that popped it, and downed once. */
  ghost predicate CallInv(s: State, w: nat)
    requires w < |s.calls|
  {
    var c, v := s.calls[w].caller, s.calls[w].sema;
    && v.initial == 0 && Sound(v) && v.ups <= 1
    && (v.ups == 1 ==> Popped(s, w))
    && (Popped(s, w) && v.ups == 0 ==> BeingSignalled(s, w))
    && c in s.pcs
    && (v.downs == 0 <==> CallOf(s.pcs[c]) == Some(w))
    && (forall t :: t in v.waiters || t in v.woken ==> t == c && s.pcs[c] == Waiting(w))
  }

  ghost predicate QueueInv(s: State) {
    && |s.queue| <= |s.calls|
    && (forall i :: 0 <= i < |s.queue| ==> s.queue[i] == |s.calls| - |s.queue| + i)
    && (forall t :: t in s.pcs && s.pcs[t].Signalling? ==>
          var w := s.pcs[t].signalled; w < |s.calls| && Popped(s, w) && s.calls[w].sema.ups == 0)
    && (forall t :: t in s.pcs && CallOf(s.pcs[t]).Some? ==>
          var w := CallOf(s.pcs[t]).value; w < |s.calls| && s.calls[w].caller == t)
  }

  ghost predicate CallsInv(s: State) {
    forall w :: 0 <= w < |s.calls| ==> CallInv(s, w)
  }

  ghost predicate Inv(s: State) {
    LockInv(s) && QueueInv(s) && CallsInv(s)
  }

  ghost predicate Init(s: State) {
    && s.lock == Fresh(1) && s.holder == None && s.queue == [] && s.calls == []
    && forall t :: t in s.pcs ==> s.pcs[t] == Out
  }

  lemma InitInv(s: State)
    requires Init(s)
    ensures Inv(s)
  {
  }

  // ---------------------------------------------------------------- one thread moves

  ghost predicate Moves(s: State, r: State, t: Tid) {
    t in s.pcs && t in r.pcs && r.pcs == s.pcs[t := r.pcs[t]]
  }

  lemma OwnerKept(s: State, r: State, t: Tid)
    requires OwnerInv(s) && Moves(s, r, t) && r.lock.value == s.lock.value && Owns(s.pcs[t]) == Owns(r.pcs[t])
    ensures OwnerInv(r)
  {
    if r.lock.value == 0 {
      var u :| u in s.pcs && Owns(s.pcs[u]);
      assert Owns(r.pcs[u]);
    }
  }

  lemma HolderKept(s: State, r: State, t: Tid)
    requires HolderInv(s) && Moves(s, r, t) && r.holder == s.holder && IsHolder(s.pcs[t]) == IsHolder(r.pcs[t])
    ensures HolderInv(r)
  {
  }

  lemma HolderChanged(s: State, r: State, t: Tid)
    requires OwnerInv(s) && HolderInv(s) && Moves(s, r, t) && Owns(s.pcs[t]) && IsHolder(s.pcs[t]) != IsHolder(r.pcs[t])
    requires r.holder == if IsHolder(r.pcs[t]) then Some(t) else None
    ensures HolderInv(r)
  {
    forall u | u in r.pcs ensures IsHolder(r.pcs[u]) <==> r.holder == Some(u) {
      assert u != t ==> !Owns(s.pcs[u]);
    }
  }

  lemma LockKept(s: State, r: State, t: Tid)
    requires LockInv(s) && Moves(s, r, t) && r.lock == s.lock && !s.pcs[t].Acquiring?
    requires Owns(s.pcs[t]) == Owns(r.pcs[t])
    requires if IsHolder(s.pcs[t]) == IsHolder(r.pcs[t]) then r.holder == s.holder
             else Owns(s.pcs[t]) && r.holder == (if IsHolder(r.pcs[t]) then Some(t) else None)
    ensures LockInv(r)
  {
    hide Sound, OwnerInv, HolderInv;
    OwnerKept(s, r, t);
    if IsHolder(s.pcs[t]) == IsHolder(r.pcs[t]) { HolderKept(s, r, t); } else { HolderChanged(s, r, t); }
  }

  lemma OwnerTaken(s: State, r: State, t: Tid)
    requires OwnerInv(s) && Moves(s, r, t) && s.lock.value == 1 && r.lock.value == 0 && Owns(r.pcs[t])
    ensures OwnerInv(r)
  {
  }

  lemma LockDown(s: State, r: State, t: Tid)
    requires LockInv(s) && Moves(s, r, t) && t !in s.lock.waiters && r.holder == s.holder
    requires s.pcs[t].Acquiring? && r.lock == Down(s.lock, t)
    requires r.pcs[t] == if s.lock.value == 0 then s.pcs[t] else Acquired
    ensures LockInv(r)
  {
    assert s.lock.value <= 1;
    hide Sound, OwnerInv, HolderInv, LockQueueInv;
    if s.lock.value == 0 { OwnerKept(s, r, t); } else { OwnerTaken(s, r, t); }
    HolderKept(s, r, t);
    LockQueueDown(s, r, t);
  }

  lemma LockQueueDown(s: State, r: State, t: Tid)
    requires LockQueueInv(s) && Moves(s, r, t) && t !in s.lock.waiters && s.pcs[t].Acquiring? && r.lock == Down(s.lock, t)
    requires s.lock.value == 0 ==> r.pcs[t] == s.pcs[t]
    ensures LockQueueInv(r)
  {
    DownKeepsSound(s.lock, t);
    hide Sound;
  }

  lemma LockTryDown(s: State, r: State, t: Tid)
    requires LockInv(s) && Moves(s, r, t) && s.pcs[t] == Out && r.lock == TryDown(s.lock) && r.holder == s.holder
    requires r.pcs[t] == if s.lock.value == 0 then Out else Acquired
    ensures LockInv(r)
  {
    assert Sound(r.lock) && s.lock.value <= 1;
    hide Sound, OwnerInv, HolderInv;
    if s.lock.value == 0 { OwnerKept(s, r, t); } else { OwnerTaken(s, r, t); }
    HolderKept(s, r, t);
  }

  lemma OwnerGiven(s: State, r: State, t: Tid)
    requires OwnerInv(s) && Moves(s, r, t) && r.lock.value == s.lock.value + 1 && Owns(s.pcs[t]) && !Owns(r.pcs[t])
    ensures OwnerInv(r)
  {
  }

  lemma LockUp(s: State, r: State, t: Tid)
    requires LockInv(s) && Moves(s, r, t) && r.lock == Up(s.lock) && r.holder == s.holder
    requires s.pcs[t].Upping? && !Owns(r.pcs[t]) && !r.pcs[t].Acquiring?
    ensures LockInv(r)
  {
    UpKeepsSound(s.lock);
    UpWakesAWaiter(s.lock);
    hide Sound, Up, OwnerInv, HolderInv;
    OwnerGiven(s, r, t);
    HolderKept(s, r, t);
  }

  /** Nothing happens to any call of cond_wait. */
  lemma CallsKept(s: State, r: State, t: Tid)
    requires QueueInv(s) && CallsInv(s) && Moves(s, r, t) && r.calls == s.calls && r.queue == s.queue
    requires !s.pcs[t].Waiting? && !s.pcs[t].Signalling? && !r.pcs[t].Signalling?
    requires CallOf(s.pcs[t]) == CallOf(r.pcs[t])
    ensures QueueInv(r) && CallsInv(r)
  {
    hide Sound, BeingSignalled;
    forall w | 0 <= w < |r.calls| ensures CallInv(r, w) {
      assert CallInv(s, w);
      if Popped(s, w) && s.calls[w].sema.ups == 0 { StillBeingSignalled(s, r, t, w); }
    }
  }

  lemma CallAdded(s: State, r: State, t: Tid)
    requires QueueInv(s) && CallsInv(s) && Moves(s, r, t) && s.pcs[t] == In
    requires r.calls == s.calls + [Call(t, Fresh(0))] && r.queue == s.queue + [|s.calls|] && r.pcs[t] == Releasing(Some(|s.calls|))
    ensures QueueInv(r) && CallsInv(r)
  {
    hide Sound, BeingSignalled;
    forall w | 0 <= w < |r.calls| ensures CallInv(r, w) {
      if w < |s.calls| {
        assert CallInv(s, w);
        if Popped(s, w) && s.calls[w].sema.ups == 0 { StillBeingSignalled(s, r, t, w); }
      } else {
        FreshIsSound();
      }
    }
  }

  lemma FreshIsSound()
    ensures Sound(Fresh(0))
  {
  }

  lemma CallPopped(s: State, r: State, t: Tid)
    requires QueueInv(s) && CallsInv(s) && Moves(s, r, t) && r.calls == s.calls && s.queue != [] && r.queue == s.queue[1..]
    requires (s.pcs[t] == In || s.pcs[t] == Broadcasting) && r.pcs[t].Signalling? && r.pcs[t].signalled == s.queue[0]
    ensures QueueInv(r) && CallsInv(r)
  {
    hide Sound;
    var x := s.queue[0];
    assert CallInv(s, x);
    forall w | 0 <= w < |r.calls| ensures CallInv(r, w) {
      assert CallInv(s, w);
      if Popped(s, w) && s.calls[w].sema.ups == 0 { StillBeingSignalled(s, r, t, w); }
      assert w == x ==> BeingSignalled(r, w) by { assert r.pcs[t].Signalling? && r.pcs[t].signalled == x; }
    }
  }

  lemma CallUpped(s: State, r: State, t: Tid)
    requires OwnerInv(s) && QueueInv(s) && CallsInv(s) && Moves(s, r, t) && r.queue == s.queue
    requires s.pcs[t].Signalling? && s.pcs[t].signalled < |s.calls| && (r.pcs[t] == In || r.pcs[t] == Broadcasting)
    requires var x := s.pcs[t].signalled; r.calls == s.calls[x := s.calls[x].(sema := Up(s.calls[x].sema))]
    ensures QueueInv(r) && CallsInv(r)
  {
    var x := s.pcs[t].signalled;
    assert forall u :: u in s.pcs && s.pcs[u].Signalling? ==> u == t;
    hide Sound, Up, BeingSignalled;
    forall w | 0 <= w < |r.calls| ensures CallInv(r, w) {
      assert CallInv(s, w);
      if w == x {
        UppedOnce(s, r, t);
      } else if Popped(s, w) && s.calls[w].sema.ups == 0 {
        StillBeingSignalled(s, r, t, w);
      }
    }
  }

  lemma UppedOnce(s: State, r: State, t: Tid)
    requires QueueInv(s) && Moves(s, r, t) && r.queue == s.queue && |r.calls| == |s.calls|
    requires s.pcs[t].Signalling? && s.pcs[t].signalled < |s.calls| && (r.pcs[t] == In || r.pcs[t] == Broadcasting)
    requires var x := s.pcs[t].signalled; CallInv(s, x) && r.calls[x] == s.calls[x].(sema := Up(s.calls[x].sema))
    ensures CallInv(r, s.pcs[t].signalled)
  {
    var v := s.calls[s.pcs[t].signalled].sema;
    UpKeepsSound(v);
    UpWakesAWaiter(v);
    UpCounts(v);
    hide Sound, Up;
  }

  lemma CallDowned(s: State, r: State, t: Tid)
    requires QueueInv(s) && CallsInv(s) && Moves(s, r, t) && r.queue == s.queue
    requires s.pcs[t].Waiting? && s.pcs[t].waits < |s.calls| && t !in s.calls[s.pcs[t].waits].sema.waiters
    requires var x := s.pcs[t].waits;
             && r.calls == s.calls[x := s.calls[x].(sema := Down(s.calls[x].sema, t))]
             && r.pcs[t] == if s.calls[x].sema.value == 0 then s.pcs[t] else Acquiring(Some(x))
    ensures QueueInv(r) && CallsInv(r)
  {
    var x := s.pcs[t].waits;
    hide Sound, BeingSignalled;
    forall w | 0 <= w < |r.calls| ensures CallInv(r, w) {
      assert CallInv(s, w);
      if Popped(s, w) && s.calls[w].sema.ups == 0 { StillBeingSignalled(s, r, t, w); }
      if w == x { DownedOnce(s, r, t); }
    }
  }

  lemma DownedOnce(s: State, r: State, t: Tid)
    requires QueueInv(s) && Moves(s, r, t) && r.queue == s.queue && |r.calls| == |s.calls|
    requires s.pcs[t].Waiting? && s.pcs[t].waits < |s.calls| && t !in s.calls[s.pcs[t].waits].sema.waiters
    requires var x := s.pcs[t].waits;
             && CallInv(s, x) && r.calls[x] == s.calls[x].(sema := Down(s.calls[x].sema, t))
             && r.pcs[t] == (if s.calls[x].sema.value == 0 then s.pcs[t] else Acquiring(Some(x)))
             && (BeingSignalled(s, x) ==> BeingSignalled(r, x))
    ensures CallInv(r, s.pcs[t].waits)
  {
    var v := s.calls[s.pcs[t].waits].sema;
    DownKeepsSound(v, t);
    assert v.value + v.downs == v.initial + v.ups;
    hide Sound, BeingSignalled;
  }

  // ---------------------------------------------------------------- every step

  lemma StepKeepsInv(s: State, a: Action)
    requires Inv(s) && Enabled(s, a)
    ensures Inv(Next(s, a))
  {
    hide OwnerInv, HolderInv, LockQueueInv, QueueInv, CallsInv, Up;
    var r, t := Next(s, a), a.t;
    assert Moves(s, r, t);
    match a
    case TryAcquire(_) =>
      LockTryDown(s, r, t);
      CallsKept(s, r, t);
    case Wait(_) =>
      LockKept(s, r, t);
      CallAdded(s, r, t);
    case Signal(_) => PopStep(s, t, false);
    case Go(_) => GoStep(s, t);
    case _ =>
      LockKept(s, r, t);
      CallsKept(s, r, t);
  }

  lemma PopStep(s: State, t: Tid, all: bool)
    requires Inv(s) && t in s.pcs && (s.pcs[t] == In || s.pcs[t] == Broadcasting)
    ensures Inv(Pop(s, t, all))
  {
    hide OwnerInv, HolderInv, LockQueueInv, QueueInv, CallsInv;
    var r := Pop(s, t, all);
    assert Moves(s, r, t);
    LockKept(s, r, t);
    if s.queue == [] { CallsKept(s, r, t); } else { CallPopped(s, r, t); }
  }

  lemma CallsExist(s: State, t: Tid)
    requires QueueInv(s) && t in s.pcs
    ensures s.pcs[t].Signalling? ==> s.pcs[t].signalled < |s.calls|
    ensures s.pcs[t].Waiting? ==> s.pcs[t].waits < |s.calls|
  {
  }

  lemma GoStep(s: State, t: Tid)
    requires Inv(s) && Enabled(s, Go(t))
    ensures Inv(Next(s, Go(t)))
  {
    hide OwnerInv, HolderInv, LockQueueInv, QueueInv, CallsInv, Up;
    CallsExist(s, t);
    var r := Next(s, Go(t));
    assert Moves(s, r, t);
    match s.pcs[t]
    case Acquiring(_) =>
      LockDown(s, r, t);
      CallsKept(s, r, t);
    case Broadcasting => PopStep(s, t, true);
    case Signalling(w, all) =>
      LockKept(s, r, t);
      CallUpped(s, r, t);
    case Upping(_) =>
      LockUp(s, r, t);
      CallsKept(s, r, t);
    case Waiting(w) =>
      LockKept(s, r, t);
      CallDowned(s, r, t);
    case _ =>
      LockKept(s, r, t);
      CallsKept(s, r, t);
  }

  // ---------------------------------------------------------------- every run

  ghost predicate Runs(s: State, acts: seq<Action>, r: State)
    decreases |acts|
  {
    if acts == [] then r == s else Enabled(s, acts[0]) && Runs(Next(s, acts[0]), acts[1..], r)
  }

  lemma {:induction false} RunKeepsInv(s: State, acts: seq<Action>, r: State)
    requires Inv(s) && Runs(s, acts, r)
    ensures Inv(r)
    decreases |acts|
  {
    hide Inv, Next, Enabled;
    if acts != [] {
      StepKeepsInv(s, acts[0]);
      RunKeepsInv(Next(s, acts[0]), acts[1..], r);
    }
  }

  /** In every state of every run at most one thread is between the acquisition and the
      release of the lock, and a thread that is inside (also one that has returned from
      cond_wait) is the recorded holder; a thread outside is not, as the assertions in
      lock_acquire and lock_release demand. */
  lemma ExclusionInEveryRun(s: State, acts: seq<Action>, r: State)
    requires Init(s) && Runs(s, acts, r)
    ensures forall t, u :: t in r.pcs && u in r.pcs && Owns(r.pcs[t]) && Owns(r.pcs[u]) ==> t == u
    ensures forall t :: t in r.pcs && r.pcs[t] == In ==> r.holder == Some(t)
    ensures forall t :: t in r.pcs && (r.pcs[t] == Out || r.pcs[t].Acquiring? || r.pcs[t].Waiting?) ==> r.holder != Some(t)
  {
    InitInv(s);
    RunKeepsInv(s, acts, r);
  }

  /** Signals are first come, first served: the queue always holds the youngest calls in
      the order they were made, every older call has been popped, and a popped call's
      semaphore is upped exactly once, by the thread that popped it. */
  lemma SignalsAreFifo(s: State, acts: seq<Action>, r: State, w: nat)
    requires Init(s) && Runs(s, acts, r) && w < |r.calls|
    ensures |r.queue| <= |r.calls| && forall i :: 0 <= i < |r.queue| ==> r.queue[i] == |r.calls| - |r.queue| + i
    ensures r.calls[w].sema.ups == if w < |r.calls| - |r.queue| && !BeingSignalled(r, w) then 1 else 0
  {
    InitInv(s);
    RunKeepsInv(s, acts, r);
    assert CallInv(r, w);
    hide Sound, LockInv;
  }

  /** No signal is missed: once a call's semaphore has been upped the caller, wherever it
      has got to in cond_wait, is not queued there, and its next turn at the semaphore
      lets it through; a signaller never ups the semaphore of a call that has returned. */
  lemma NoSignalIsMissed(s: State, acts: seq<Action>, r: State, w: nat)
    requires Init(s) && Runs(s, acts, r) && w < |r.calls| && r.calls[w].sema.ups == 1
    ensures r.calls[w].caller !in r.calls[w].sema.waiters
    ensures var c := r.calls[w].caller;
            c in r.pcs && (r.pcs[c] == Waiting(w) ==> Enabled(r, Go(c)) && Next(r, Go(c)).pcs[c] == Acquiring(Some(w)))
  {
    InitInv(s);
    RunKeepsInv(s, acts, r);
    SignalledIsFree(r, w);
    var c := r.calls[w].caller;
    if r.pcs[c] == Waiting(w) {
      CallerNotQueued(r, w);
    }
  }

  lemma SignalledIsFree(s: State, w: nat)
    requires Inv(s) && w < |s.calls| && s.calls[w].sema.ups == 1
    ensures var v, c := s.calls[w].sema, s.calls[w].caller; c !in v.waiters && c in s.pcs && (s.pcs[c] == Waiting(w) ==> v.value == 1)
  {
    assert CallInv(s, w);
    var v, c := s.calls[w].sema, s.calls[w].caller;
    LoneThread(v, c);
    hide LockInv, QueueInv;
  }

  lemma CallerNotQueued(s: State, w: nat)
    requires Inv(s) && w < |s.calls| && s.calls[w].caller !in s.calls[w].sema.waiters
    requires s.calls[w].caller in s.pcs && s.pcs[s.calls[w].caller] == Waiting(w)
    ensures !Queued(s, s.calls[w].caller)
  {
    var c := s.calls[w].caller;
    forall x | 0 <= x < |s.calls| ensures c !in s.calls[x].sema.waiters {
      assert CallInv(s, x);
    }
  }

  lemma SignallersTouchLiveCalls(s: State, acts: seq<Action>, r: State, t: Tid)
    requires Init(s) && Runs(s, acts, r) && t in r.pcs && r.pcs[t].Signalling?
    ensures var w := r.pcs[t].signalled; w < |r.calls| && r.calls[w].caller in r.pcs && r.pcs[r.calls[w].caller] == Waiting(w)
  {
    InitInv(s);
    RunKeepsInv(s, acts, r);
    var w := r.pcs[t].signalled;
    assert CallInv(r, w);
    var c := r.calls[w].caller;
    assert c != t;
  }

  /** A free lock is never left to sleepers: if somebody waits for it and nobody owns it,
      some thread can take it at its next step. */
  lemma FreeLockIsTakenUp(s: State, acts: seq<Action>, r: State)
    requires Init(s) && Runs(s, acts, r) && r.lock.waiters != [] && forall t :: t in r.pcs ==> !Owns(r.pcs[t])
    ensures exists t :: t in r.pcs && Enabled(r, Go(t)) && Next(r, Go(t)).pcs[t] == Acquired
  {
    InitInv(s);
    RunKeepsInv(s, acts, r);
    assert r.lock.value == 1;
    NoLostWakeup(r.lock);
    var t :| t in r.lock.woken;
    assert t in r.pcs && r.pcs[t].Acquiring?;
    forall w | 0 <= w < |r.calls| ensures t !in r.calls[w].sema.waiters {
      assert CallInv(r, w);
    }
    assert Enabled(r, Go(t));
    assert Next(r, Go(t)).pcs[t] == Acquired;
  }

  // ---------------------------------------------------------------- what each operation is for

  /** Steps of other threads than t. */
  predicate Without(acts: seq<Action>, t: Tid) { forall i :: 0 <= i < |acts| ==> acts[i].t != t }

  /** What other threads leave alone while t owns the lock: t's place, the holder, the condition's list, who waits on it,
      and how often each call was signalled. */
  ghost predicate Undisturbed(s: State, r: State, t: Tid) {
    && t in s.pcs && t in r.pcs && r.pcs[t] == s.pcs[t] && r.holder == s.holder && r.lock.value == s.lock.value && r.queue == s.queue
    && |r.calls| == |s.calls|
    && forall w :: 0 <= w < |s.calls| ==> r.calls[w].caller == s.calls[w].caller && r.calls[w].sema.ups == s.calls[w].sema.ups
  }

  lemma OthersLeaveAlone(s: State, a: Action, t: Tid)
    requires Inv(s) && t in s.pcs && Owns(s.pcs[t]) && Enabled(s, a) && a.t != t
    ensures Undisturbed(s, Next(s, a), t)
  {
    hide HolderInv, LockQueueInv, QueueInv, CallsInv, Up;
    assert s.lock.value == 0 && !Owns(s.pcs[a.t]);
  }

  lemma {:induction false} OwnerUndisturbed(s: State, acts: seq<Action>, r: State, t: Tid)
    requires Inv(s) && t in s.pcs && Owns(s.pcs[t]) && Runs(s, acts, r) && Without(acts, t)
    ensures Inv(r) && Undisturbed(s, r, t) && (r.pcs[t] != In ==> Enabled(r, Go(t)))
    decreases |acts|
  {
    hide Inv, Next, Owns, Enabled;
    if acts == [] {
      OwnerNotQueued(s, t);
    } else {
      OthersLeaveAlone(s, acts[0], t);
      StepKeepsInv(s, acts[0]);
      OwnerUndisturbed(Next(s, acts[0]), acts[1..], r, t);
    }
  }

  /** The owner of the lock sleeps nowhere. */
  lemma OwnerNotQueued(s: State, t: Tid)
    requires Inv(s) && t in s.pcs && Owns(s.pcs[t])
    ensures !Queued(s, t) && (s.pcs[t] != In ==> Enabled(s, Go(t)))
  {
    forall x | 0 <= x < |s.calls| ensures t !in s.calls[x].sema.waiters {
      assert CallInv(s, x);
    }
  }

  /** cond_signal wakes the thread that has waited longest: whatever other threads do before the signaller's next step,
      after that step the front call is off the list and has been signalled, and the signaller is done; with nobody
      waiting a signal changes nothing. */
  lemma SignalWakesTheFront(s: State, acts: seq<Action>, r: State, t: Tid, between: seq<Action>, m: State)
    requires Init(s) && Runs(s, acts, r) && Enabled(r, Signal(t))
    requires r.queue != [] ==> Runs(Next(r, Signal(t)), between, m) && Without(between, t)
    ensures r.queue == [] ==> Next(r, Signal(t)) == r
    ensures r.queue != [] ==> Enabled(m, Go(t)) && Signalled(r, Next(m, Go(t)), t, In)
  {
    hide Runs, Inv, Init, Next, Signalled;
    InitInv(s);
    RunKeepsInv(s, acts, r);
    StepKeepsInv(r, Signal(t));
    SignalPops(r, t);
    if r.queue != [] {
      OwnerUndisturbed(Next(r, Signal(t)), between, m, t);
      UpsTheCall(r, Next(r, Signal(t)), m, t, false);
    }
  }

  /** The front call of s is off the list and has been signalled, no other call was, and t has gone on to `pc`. */
  ghost predicate Signalled(s: State, r: State, t: Tid, pc: Pc) {
    && s.queue != [] && r.queue == s.queue[1..] && t in r.pcs && r.pcs[t] == pc && |r.calls| == |s.calls|
    && s.queue[0] < |s.calls| && s.calls[s.queue[0]].sema.ups == 0 && r.calls[s.queue[0]].sema.ups == 1
    && forall w :: 0 <= w < |s.calls| && w != s.queue[0] ==> r.calls[w].sema.ups == s.calls[w].sema.ups
  }

  lemma SignalPops(s: State, t: Tid)
    requires Enabled(s, Signal(t))
    ensures s.queue == [] ==> Next(s, Signal(t)) == s
    ensures s.queue != [] ==> PopsTo(s, Next(s, Signal(t)), t, false)
  {
  }

  /** t has taken the front call off the list and is about to signal it. */
  ghost predicate PopsTo(s: State, r: State, t: Tid, all: bool) {
    s.queue != [] && t in r.pcs && r.pcs[t] == Signalling(s.queue[0], all) && r.queue == s.queue[1..] && r.calls == s.calls
  }

  lemma UpsTheCall(s: State, p: State, m: State, t: Tid, all: bool)
    requires Inv(m) && PopsTo(s, p, t, all) && Undisturbed(p, m, t) && Enabled(m, Go(t))
    ensures Signalled(s, Next(m, Go(t)), t, if all then Broadcasting else In)
  {
    hide LockInv, CallsInv, Up;
    var w := s.queue[0];
    assert w < |m.calls| && m.calls[w].sema.ups == 0;
    UpCounts(m.calls[w].sema);
  }

  /** A broadcast that has ended has signalled every call that was on the list when it began, in whatever way other
      threads' steps came between. */
  lemma BroadcastWakesAll(s: State, acts: seq<Action>, r: State, t: Tid, after: seq<Action>, m: State, w: nat)
    requires Init(s) && Runs(s, acts, r) && Enabled(r, Broadcast(t)) && Runs(Next(r, Broadcast(t)), after, m)
    requires w in r.queue && t in m.pcs && !InBroadcast(m.pcs[t])
    ensures w < |m.calls| && m.calls[w].sema.ups == 1
  {
    hide Runs, Inv, Init, Next, Reached;
    InitInv(s);
    RunKeepsInv(s, acts, r);
    StepKeepsInv(r, Broadcast(t));
    assert Reached(Next(r, Broadcast(t)), t, w) by { BroadcastBegins(r, t, w); }
    StaysReached(Next(r, Broadcast(t)), after, m, t, w);
    ReachedInTheEnd(m, t, w);
  }

  predicate InBroadcast(pc: Pc) { pc.Broadcasting? || (pc.Signalling? && pc.all) }

  /** The call has been signalled, or t's broadcast is on its way to it. */
  ghost predicate Reached(s: State, t: Tid, w: nat) {
    && t in s.pcs && w < |s.calls|
    && (s.calls[w].sema.ups == 1 || (InBroadcast(s.pcs[t]) && (w in s.queue || s.pcs[t] == Signalling(w, true))))
  }

  lemma BroadcastBegins(s: State, t: Tid, w: nat)
    requires Inv(s) && Enabled(s, Broadcast(t)) && w in s.queue
    ensures Reached(Next(s, Broadcast(t)), t, w)
  {
    hide LockInv, CallsInv;
  }

  lemma ReachedInTheEnd(s: State, t: Tid, w: nat)
    requires Reached(s, t, w) && !InBroadcast(s.pcs[t])
    ensures w < |s.calls| && s.calls[w].sema.ups == 1
  {
  }

  lemma StepStaysReached(s: State, a: Action, t: Tid, w: nat)
    requires Inv(s) && Enabled(s, a) && Reached(s, t, w)
    ensures Reached(Next(s, a), t, w)
  {
    var r := Next(s, a);
    StepKeepsInv(s, a);
    UpsGrow(s, a, w);
    UppedOnceOnly(r, w);
    if s.calls[w].sema.ups != 1 {
      if a.t != t {
        hide Inv, Next, Enabled;
        OthersLeaveAlone(s, a, t);
      } else {
        hide LockInv, CallsInv, Next;
        BroadcastGoesOn(s, t, w);
      }
    }
  }

  lemma UppedOnceOnly(s: State, w: nat)
    requires Inv(s) && w < |s.calls|
    ensures s.calls[w].sema.ups <= 1
  {
    hide LockInv, QueueInv;
    assert CallInv(s, w);
  }

  lemma UpsGrow(s: State, a: Action, w: nat)
    requires Enabled(s, a) && w < |s.calls|
    ensures Next(s, a).pcs.Keys == s.pcs.Keys && w < |Next(s, a).calls| && Next(s, a).calls[w].sema.ups >= s.calls[w].sema.ups
  {
    forall v | 0 <= v < |s.calls| { UpCounts(s.calls[v].sema); }
    hide Up;
  }

  lemma BroadcastGoesOn(s: State, t: Tid, w: nat)
    requires Inv(s) && Enabled(s, Go(t)) && Reached(s, t, w) && s.calls[w].sema.ups == 0
    ensures Reached(Next(s, Go(t)), t, w)
  {
    hide LockInv, CallsInv, Up;
    CallsExist(s, t);
    UpCounts(s.calls[w].sema);
  }

  lemma {:induction false} StaysReached(s: State, acts: seq<Action>, r: State, t: Tid, w: nat)
    requires Inv(s) && Runs(s, acts, r) && Reached(s, t, w)
    ensures Reached(r, t, w)
    decreases |acts|
  {
    hide Inv, Next, Enabled, Reached;
    if acts != [] {
      StepKeepsInv(s, acts[0]);
      StepStaysReached(s, acts[0], t, w);
      StaysReached(Next(s, acts[0]), acts[1..], r, t, w);
    }
  }

  function Steps(t: Tid, n: nat): (acts: seq<Action>) { seq(n, _ => Go(t)) }

  /** A broadcast ends: it takes two steps for each call on the list and one to find the list empty. */
  lemma {:induction false} BroadcastEnds(s: State, t: Tid) returns (r: State)
    requires Inv(s) && t in s.pcs && s.pcs[t] == Broadcasting
    ensures Runs(s, Steps(t, 2 * |s.queue| + 1), r) && t in r.pcs && r.pcs[t] == In && r.queue == []
    decreases |s.queue|
  {
    hide Inv, Up;
    OwnerNotQueued(s, t);
    var m := Next(s, Go(t));
    StepKeepsInv(s, Go(t));
    assert Steps(t, 2 * |s.queue| + 1)[1..] == Steps(t, 2 * |s.queue|);
    if s.queue == [] {
      r := m;
    } else {
      OwnerNotQueued(m, t);
      StepKeepsInv(m, Go(t));
      assert m.pcs[t].signalled < |m.calls| by { SignalledExists(m, t); }
      r := BroadcastEnds(Next(m, Go(t)), t);
      assert Steps(t, 2 * |s.queue|)[1..] == Steps(t, 2 * |m.queue| + 1);
    }
  }

  lemma SignalledExists(s: State, t: Tid)
    requires Inv(s) && t in s.pcs && s.pcs[t].Signalling?
    ensures s.pcs[t].signalled < |s.calls|
  {
    CallsExist(s, t);
  }

  lemma {:induction false} RunsSplit(s: State, a: seq<Action>, b: seq<Action>, r: State) returns (m: State)
    requires Runs(s, a + b, r)
    ensures Runs(s, a, m) && Runs(m, b, r)
    decreases |a|
  {
    hide Next, Enabled;
    if a == [] {
      assert a + b == b;
      m := s;
    } else {
      assert (a + b)[0] == a[0] && (a + b)[1..] == a[1..] + b;
      m := RunsSplit(Next(s, a[0]), a[1..], b, r);
    }
  }

  /** lock_release and the first half of cond_wait give the lock up: after the caller's second step from there, with
      any steps of other threads between, nobody holds the lock and it can be taken; a caller of cond_wait is by then
      last on the condition's list, not signalled yet and about to wait. */
  lemma LockIsGivenUp(s: State, acts: seq<Action>, r: State, a: Action, first: seq<Action>, second: seq<Action>, m: State)
    requires Init(s) && Runs(s, acts, r) && (a.Release? || a.Wait?) && Enabled(r, a)
    requires Without(first, a.t) && Without(second, a.t) && Runs(Next(r, a), first + ([Go(a.t)] + second), m)
    ensures Enabled(m, Go(a.t)) && GivenUp(r, Next(m, Go(a.t)), a)
  {
    hide Inv, Next, Enabled, Runs, Init, GivenUp;
    InitInv(s);
    RunKeepsInv(s, acts, r);
    StepKeepsInv(r, a);
    var n := Next(r, a);
    BeginsToGiveUp(r, a);
    var x := RunsSplit(n, first, [Go(a.t)] + second, m);
    OwnerUndisturbed(n, first, x, a.t);
    var y := RunsSplit(x, [Go(a.t)], second, m);
    RunsOne(x, Go(a.t), y);
    StepKeepsInv(x, Go(a.t));
    GoesOnToUp(x, a.t);
    OwnerUndisturbed(y, second, m, a.t);
    GivesUp(r, n, x, y, m, a);
  }

  lemma RunsOne(s: State, a: Action, r: State)
    requires Runs(s, [a], r)
    ensures Enabled(s, a) && r == Next(s, a)
  {
    hide Next, Enabled;
    assert [a][1..] == [];
  }

  /** Nobody holds or owns the lock any more. */
  ghost predicate GivenUp(s: State, r: State, a: Action) {
    && a.t in r.pcs && r.holder == None && r.lock.value == 1
    && if a.Release? then r.pcs[a.t] == Out && r.queue == s.queue
       else
         && r.pcs[a.t] == Waiting(|s.calls|) && r.queue == s.queue + [|s.calls|]
         && |r.calls| == |s.calls| + 1 && r.calls[|s.calls|].caller == a.t && r.calls[|s.calls|].sema.ups == 0
  }

  /** Where the call of lock_release or cond_wait puts its caller, and what the latter adds. */
  ghost predicate Giving(s: State, r: State, a: Action) {
    && a.t in r.pcs && r.pcs[a.t] == Releasing(if a.Release? then None else Some(|s.calls|))
    && if a.Release? then r.queue == s.queue && r.calls == s.calls
       else r.queue == s.queue + [|s.calls|] && r.calls == s.calls + [Call(a.t, Fresh(0))]
  }

  lemma BeginsToGiveUp(s: State, a: Action)
    requires (a.Release? || a.Wait?) && Enabled(s, a)
    ensures Giving(s, Next(s, a), a)
  {
  }

  lemma GoesOnToUp(s: State, t: Tid)
    requires Enabled(s, Go(t)) && s.pcs[t].Releasing?
    ensures Next(s, Go(t)) == s.(holder := None, pcs := s.pcs[t := Upping(s.pcs[t].call)])
  {
  }

  lemma GivesUp(s: State, n: State, x: State, y: State, m: State, a: Action)
    requires Inv(m) && Giving(s, n, a) && Undisturbed(n, x, a.t) && Enabled(m, Go(a.t))
    requires y == x.(holder := None, pcs := x.pcs[a.t := Upping(x.pcs[a.t].call)]) && Undisturbed(y, m, a.t)
    ensures GivenUp(s, Next(m, Go(a.t)), a)
  {
    hide HolderInv, LockQueueInv, QueueInv, CallsInv, Up;
    assert m.lock.value == 0;
    UpWakesAWaiter(m.lock);
  }

  /** lock_try_acquire takes the lock exactly when nobody owns it, and else changes nothing. */
  lemma TryAcquireTakesAFreeLock(s: State, acts: seq<Action>, r: State, t: Tid)
    requires Init(s) && Runs(s, acts, r) && Enabled(r, TryAcquire(t))
    ensures var n := Next(r, TryAcquire(t));
      if exists u :: u in r.pcs && Owns(r.pcs[u]) then n == r
      else t in n.pcs && Owns(n.pcs[t]) && n == r.(lock := n.lock, pcs := r.pcs[t := n.pcs[t]]) && n.lock.value == 0
  {
    InitInv(s);
    RunKeepsInv(s, acts, r);
    hide HolderInv, LockQueueInv, QueueInv, CallsInv;
  }

  /** A thread in lock_acquire takes the lock at its next step exactly when nobody owns it, and else queues behind those
      who wait for it; once it has the lock, its next step makes it the holder. */
  lemma AcquireTakesAFreeLock(s: State, acts: seq<Action>, r: State, t: Tid)
    requires Init(s) && Runs(s, acts, r) && t in r.pcs
    ensures Enabled(r, Acquire(t)) ==> Next(r, Acquire(t)) == r.(pcs := r.pcs[t := Acquiring(None)])
    ensures r.pcs[t].Acquiring? && Enabled(r, Go(t)) ==> var n := Next(r, Go(t));
      if exists u :: u in r.pcs && Owns(r.pcs[u]) then n.pcs == r.pcs && n.lock.waiters == r.lock.waiters + [t]
      else n.pcs == r.pcs[t := Acquired] && n.lock.waiters == r.lock.waiters
    ensures r.pcs[t].Acquired? ==> Enabled(r, Go(t)) && Next(r, Go(t)).pcs[t] == In && Next(r, Go(t)).holder == Some(t)
  {
    InitInv(s);
    RunKeepsInv(s, acts, r);
    if r.pcs[t].Acquired? { OwnerNotQueued(r, t); }
    hide HolderInv, LockQueueInv, QueueInv, CallsInv;
  }

  /** cond_wait does not return before it is signalled: until then the caller is in the call, and a turn at the call's
      semaphore puts it to sleep there. */
  lemma NobodyReturnsUnsignalled(s: State, acts: seq<Action>, r: State, w: nat)
    requires Init(s) && Runs(s, acts, r) && w < |r.calls| && r.calls[w].sema.ups == 0
    ensures var c := r.calls[w].caller;
      && c in r.pcs && CallOf(r.pcs[c]) == Some(w)
      && (r.pcs[c] == Waiting(w) && Enabled(r, Go(c)) ==> Queued(Next(r, Go(c)), c))
  {
    InitInv(s);
    RunKeepsInv(s, acts, r);
    assert CallInv(r, w);
    var c, v := r.calls[w].caller, r.calls[w].sema;
    assert v.value == 0 && v.downs == 0;
    hide Inv, Sound, CallInv;
    if r.pcs[c] == Waiting(w) && Enabled(r, Go(c)) {
      assert c in Next(r, Go(c)).calls[w].sema.waiters;
    }
  }
}

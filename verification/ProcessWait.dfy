/** process_execute, process_wait and process_exit of userprog/process.c between a
    parent and one child, over the record they share, in every interleaving.  A step is
    one interrupts-off region of a semaphore operation, one region under
    alive_count_lock, or one access to another shared field. */
module ProcessWait {
  import opened Semaphores

  const PARENT: Tid := 0

  /** Where the child is: in load, on its way through start_process, in user code, in
      process_exit. */
  datatype ChildPc = Loading | Counting | Reporting | Running | Leaving | Notifying | Dead

  /** Where the parent is: in process_execute, in user code, in process_wait, gone. */
  datatype ParentPc =
    | AwaitingLoad | Testing | Registering | Free
    | Looking | ReturningDead | Marking | Blocking | ReturningWoken
    | SpawnFailed | Exited

  /** What one call of process_wait returned, and whether it blocked for the child. */
  datatype Answer = Answer(value: int, blocked: bool)

  datatype State = State(
    parent: ParentPc,
    child: ChildPc,
    loaded: bool,
    registered: bool,
    aliveCount: int,
    semaExec: Sema,
    semaWait: Sema,
    exitStatus: int,
    waited: bool,
    answers: seq<Answer>)

  datatype Action =
    | LoadEnds(success: bool)
    | ExitSyscall(status: int)
    | Killed
    | ChildGo
    | CallWait
    | ParentExit
    | ParentGo

  predicate Enabled(s: State, a: Action) {
    match a
    case LoadEnds(_) => s.child == Loading
    case ExitSyscall(_) => s.child == Running
    case Killed => s.child == Running
    case ChildGo => s.child in {Counting, Reporting, Leaving, Notifying}
    case CallWait => s.parent == Free
    case ParentExit => s.parent == Free || s.parent == SpawnFailed
    case ParentGo => s.parent !in {Free, SpawnFailed, Exited} && PARENT !in s.semaExec.waiters && PARENT !in s.semaWait.waiters
  }

  function Next(s: State, a: Action): (r: State)
    requires Enabled(s, a)
  {
    match a
    case LoadEnds(success) =>
      s.(loaded := success, child := if success then Counting else Reporting)
    case ExitSyscall(status) => s.(exitStatus := status, child := Leaving)
    case Killed => s.(child := Leaving)
    case ChildGo => ChildStep(s)
    case CallWait =>
      if s.waited then s.(answers := s.answers + [Answer(-1, false)]) else s.(parent := Looking)
    case ParentExit => s.(parent := Exited, aliveCount := if s.parent == Free then s.aliveCount - 1 else s.aliveCount)
    case ParentGo => ParentStep(s)
  }

  function ChildStep(s: State): (r: State) {
    match s.child
    case Counting => s.(aliveCount := s.aliveCount + 1, child := Reporting)
    case Reporting => s.(semaExec := Up(s.semaExec), child := if s.loaded then Running else Leaving)
    case Leaving => s.(aliveCount := s.aliveCount - 1, child := if s.aliveCount == 1 then Dead else Notifying)
    case Notifying => s.(semaWait := Up(s.semaWait), child := Dead)
    case _ => s
  }

  function ParentStep(s: State): (r: State) {
    match s.parent
    case AwaitingLoad =>
      s.(semaExec := Down(s.semaExec, PARENT), parent := if s.semaExec.value == 0 then AwaitingLoad else Testing)
    case Testing => s.(parent := if s.aliveCount == 1 then SpawnFailed else Registering)
    case Registering => s.(parent := Free, registered := true)
    case Looking => s.(parent := if s.aliveCount == 1 then ReturningDead else Marking)
    case ReturningDead => s.(parent := Free, answers := s.answers + [Answer(s.exitStatus, false)])
    case Marking => s.(parent := Blocking, waited := true)
    case Blocking =>
      s.(semaWait := Down(s.semaWait, PARENT), parent := if s.semaWait.value == 0 then Blocking else ReturningWoken)
    case ReturningWoken => s.(parent := Free, answers := s.answers + [Answer(s.exitStatus, true)])
    case _ => s
  }

  /** Just after thread_create in process_execute; `waited` is taken to start false. */
  predicate Init(s: State) {
    s == State(AwaitingLoad, Loading, false, false, 1, Fresh(0), Fresh(0), -1, false, [])
  }

  ghost predicate Runs(s: State, acts: seq<Action>, r: State)
    decreases |acts|
  {
    if acts == [] then r == s else Enabled(s, acts[0]) && Runs(Next(s, acts[0]), acts[1..], r)
  }

  // ---------------------------------------------------------------- the invariant

  /** The child has not yet reported the end of its load. */
  predicate Starting(c: ChildPc) { c.Loading? || c.Counting? || c.Reporting? }

  /** The child has reached the end of its user code or of a failed load. */
  predicate Left(c: ChildPc) { c.Leaving? || c.Notifying? || c.Dead? }

  /** The child is past its decrement of alive_count. */
  predicate Gone(c: ChildPc) { c.Notifying? || c.Dead? }

  /** The parent is in process_execute. */
  predicate Spawning(p: ParentPc) { p.AwaitingLoad? || p.Testing? || p.Registering? }

  function One(b: bool): (n: int) { if b then 1 else 0 }

  /** alive_count counts the parent until it exits and the child from its successful load
      to its exit; a child whose load failed is never counted in but is counted out. */
  ghost predicate CountInv(s: State) {
    s.aliveCount == One(!(s.parent == Exited && s.registered))
                    + One(s.loaded && (s.child.Reporting? || s.child.Running? || s.child.Leaving?))
                    - One(!s.loaded && Gone(s.child))
  }

  ghost predicate PcInv(s: State) {
    && (Spawning(s.parent) || s.parent.SpawnFailed? ==> !s.registered && !s.waited && s.answers == [])
    && (!Spawning(s.parent) && !s.parent.SpawnFailed? && !s.parent.Exited? ==> s.registered)
    && (s.parent.Exited? && !s.registered ==> !s.waited && s.answers == [])
    && (Starting(s.child) ==> s.parent.AwaitingLoad?)
    && (s.child.Loading? ==> !s.loaded) && (s.child.Counting? || s.child.Running? || s.child.Notifying? ==> s.loaded)
    && (!s.loaded && (s.registered || s.parent.Registering?) ==> s.child.Dead?)
  }

  /** sema_exec is handed from child to parent: one up, one down. */
  ghost predicate ExecInv(s: State) {
    && Sound(s.semaExec) && s.semaExec.initial == 0
    && (forall t :: t in s.semaExec.waiters || t in s.semaExec.woken ==> t == PARENT && s.parent.AwaitingLoad?)
    && s.semaExec.ups == One(!Starting(s.child))
    && s.semaExec.downs == One(!s.parent.AwaitingLoad?)
  }

  /** So is sema_wait, unless the parent has gone before a loaded child leaves. */
  ghost predicate WaitInv(s: State) {
    && Sound(s.semaWait) && s.semaWait.initial == 0
    && (forall t :: t in s.semaWait.waiters || t in s.semaWait.woken ==> t == PARENT && s.parent.Blocking?)
    && s.semaWait.ups <= 1 && (s.semaWait.ups == 1 ==> s.child.Dead? && s.loaded)
    && s.semaWait.downs == One(s.waited && !s.parent.Blocking?)
    && (s.parent.Blocking? || s.parent.ReturningWoken? ==> s.waited)
    && (s.parent.Looking? || s.parent.ReturningDead? || s.parent.Marking? ==> !s.waited)
    && (s.loaded && s.child.Dead? && s.semaWait.ups == 0 ==> s.parent.Exited? && s.registered)
  }

  /** An earlier answer came from a call that blocked. */
  predicate BlockedBefore(answers: seq<Answer>, i: nat)
    requires i <= |answers|
  {
    exists j :: 0 <= j < i && answers[j].blocked
  }

  ghost predicate AnswerInv(s: State) {
    && (s.parent.ReturningDead? || s.answers != [] ==> Left(s.child))
    && (s.waited <==> s.parent.Blocking? || s.parent.ReturningWoken? || BlockedBefore(s.answers, |s.answers|))
    && (s.parent.Blocking? || s.parent.ReturningWoken? ==> !BlockedBefore(s.answers, |s.answers|))
    && (forall i :: 0 <= i < |s.answers| ==> s.answers[i].value == if BlockedBefore(s.answers, i) then -1 else s.exitStatus)
  }

  ghost predicate Inv(s: State) {
    CountInv(s) && PcInv(s) && ExecInv(s) && WaitInv(s) && AnswerInv(s)
  }

  lemma InitInv(s: State)
    requires Init(s)
    ensures Inv(s)
  {
  }

  predicate ByChild(a: Action) { a.LoadEnds? || a.ExitSyscall? || a.Killed? || a.ChildGo? }

  lemma ChildKeepsCount(s: State, a: Action)
    requires CountInv(s) && PcInv(s) && Enabled(s, a) && ByChild(a)
    ensures CountInv(Next(s, a)) && PcInv(Next(s, a))
  {
    hide Up;
  }

  lemma ChildKeepsExec(s: State, a: Action)
    requires PcInv(s) && ExecInv(s) && Enabled(s, a) && ByChild(a)
    ensures ExecInv(Next(s, a))
  {
    hide Sound, Up;
    if s.child == Reporting {
      ExecReported(s, Next(s, a));
    }
  }

  lemma ExecReported(s: State, r: State)
    requires ExecInv(s) && Starting(s.child) && !Starting(r.child) && r.parent == s.parent && r.semaExec == Up(s.semaExec)
    ensures ExecInv(r)
  {
    UpKeepsSound(s.semaExec);
    UpWakesAWaiter(s.semaExec);
    UpCounts(s.semaExec);
    hide Sound, Up;
  }

  lemma ChildKeepsWait(s: State, a: Action)
    requires CountInv(s) && PcInv(s) && WaitInv(s) && Enabled(s, a) && ByChild(a)
    ensures WaitInv(Next(s, a))
  {
    UpKeepsSound(s.semaWait);
    UpWakesAWaiter(s.semaWait);
    UpCounts(s.semaWait);
    hide Sound, Up;
  }

  lemma ChildKeepsAnswers(s: State, a: Action)
    requires AnswerInv(s) && Enabled(s, a) && ByChild(a)
    ensures AnswerInv(Next(s, a))
  {
    hide Up;
  }

  lemma ParentKeepsCount(s: State, a: Action)
    requires CountInv(s) && PcInv(s) && Enabled(s, a) && !ByChild(a)
    requires s.semaExec.value > 0 ==> !Starting(s.child)
    ensures CountInv(Next(s, a)) && PcInv(Next(s, a))
  {
    hide Down;
  }

  lemma ParentKeepsExec(s: State, a: Action)
    requires PcInv(s) && ExecInv(s) && Enabled(s, a) && !ByChild(a)
    ensures ExecInv(Next(s, a))
  {
    hide Sound, Down;
    if s.parent == AwaitingLoad {
      ExecAwaited(s, Next(s, a));
    }
  }

  lemma ExecAwaited(s: State, r: State)
    requires ExecInv(s) && s.parent == AwaitingLoad && PARENT !in s.semaExec.waiters && r.child == s.child
    requires r.semaExec == Down(s.semaExec, PARENT) && r.parent == if s.semaExec.value == 0 then AwaitingLoad else Testing
    ensures ExecInv(r)
  {
    DownKeepsSound(s.semaExec, PARENT);
    assert s.semaExec.value + s.semaExec.downs == s.semaExec.ups;
    hide Sound;
  }

  lemma ParentKeepsWait(s: State, a: Action)
    requires CountInv(s) && PcInv(s) && WaitInv(s) && Enabled(s, a) && !ByChild(a)
    ensures WaitInv(Next(s, a))
  {
    hide Sound, Down;
    if s.parent == Blocking {
      WaitAwaited(s, Next(s, a));
    }
  }

  lemma WaitAwaited(s: State, r: State)
    requires WaitInv(s) && s.parent == Blocking && PARENT !in s.semaWait.waiters
    requires r == s.(semaWait := Down(s.semaWait, PARENT), parent := if s.semaWait.value == 0 then Blocking else ReturningWoken)
    ensures WaitInv(r)
  {
    DownKeepsSound(s.semaWait, PARENT);
    assert s.semaWait.value + s.semaWait.downs == s.semaWait.ups;
    hide Sound;
  }

  /** One more answer, like the earlier ones or the first after a call that blocked. */
  lemma AnswerAdded(s: State, r: State, x: Answer)
    requires AnswerInv(s) && r.answers == s.answers + [x] && r.exitStatus == s.exitStatus && Left(r.child) && r.parent == Free
    requires x.value == if BlockedBefore(s.answers, |s.answers|) then -1 else s.exitStatus
    requires r.waited <==> x.blocked || BlockedBefore(s.answers, |s.answers|)
    ensures AnswerInv(r)
  {
    assert x.blocked ==> r.answers[|s.answers|].blocked;
    forall i | 0 <= i <= |s.answers| ensures BlockedBefore(r.answers, i) <==> BlockedBefore(s.answers, i) {
      if BlockedBefore(s.answers, i) {
        var j :| 0 <= j < i && s.answers[j].blocked;
        assert r.answers[j].blocked;
      }
    }
    if BlockedBefore(s.answers, |s.answers|) {
      var j :| 0 <= j < |s.answers| && s.answers[j].blocked;
      assert r.answers[j].blocked;
    }
  }

  lemma ParentKeepsAnswers(s: State, a: Action)
    requires Inv(s) && Enabled(s, a) && !ByChild(a)
    ensures AnswerInv(Next(s, a))
  {
    assert s.semaWait.value + s.semaWait.downs == s.semaWait.ups;
    hide Sound, ExecInv, BlockedBefore, Down;
    var r := Next(s, a);
    if |r.answers| > |s.answers| {
      AnswerAdded(s, r, r.answers[|s.answers|]);
    }
  }

  lemma StepKeepsInv(s: State, a: Action)
    requires Inv(s) && Enabled(s, a)
    ensures Inv(Next(s, a))
  {
    if ByChild(a) {
      hide CountInv, PcInv, ExecInv, WaitInv, AnswerInv, Next, Enabled;
      ChildKeepsCount(s, a);
      ChildKeepsExec(s, a);
      ChildKeepsWait(s, a);
      ChildKeepsAnswers(s, a);
    } else {
      assert s.semaExec.value + s.semaExec.downs == s.semaExec.ups;
      hide CountInv, PcInv, ExecInv, WaitInv, AnswerInv, Next, Enabled;
      ParentKeepsCount(s, a);
      ParentKeepsExec(s, a);
      ParentKeepsWait(s, a);
      ParentKeepsAnswers(s, a);
    }
  }

  lemma {:induction false} RunKeepsInv(s: State, acts: seq<Action>, r: State)
    requires Inv(s) && Runs(s, acts, r)
    ensures Inv(r)
    decreases |acts|
  {
    hide Inv, Next, Enabled;
    if acts != [] {
      StepKeepsInv(s, acts[0]);
      RunKeepsInv(Next(s, acts[0]), acts[1..], r);
    }
  }

  lemma Reached(s: State, acts: seq<Action>, r: State)
    requires Init(s) && Runs(s, acts, r)
    ensures Inv(r)
  {
    hide Runs, Inv;
    InitInv(s);
    RunKeepsInv(s, acts, r);
  }

  // ---------------------------------------------------------------- what waiting returns

  /** Once the child is on its way out, its status never changes again. */
  lemma {:induction false} StatusIsFinal(s: State, acts: seq<Action>, r: State)
    requires Left(s.child) && Runs(s, acts, r)
    ensures Left(r.child) && r.exitStatus == s.exitStatus
    decreases |acts|
  {
    if acts != [] {
      StatusKept(s, acts[0]);
      hide Next, Enabled, Left;
      StatusIsFinal(Next(s, acts[0]), acts[1..], r);
    }
  }

  lemma StatusKept(s: State, a: Action)
    requires Enabled(s, a)
    ensures Left(s.child) ==> Left(Next(s, a).child) && Next(s, a).exitStatus == s.exitStatus
    ensures Next(s, a).exitStatus == match a case ExitSyscall(x) => x case _ => s.exitStatus
  {
    hide Up, Down;
  }

  /** The status last passed to the exit system call in a run, or else `was`. */
  function Stored(was: int, acts: seq<Action>): (status: int)
    decreases |acts|
  {
    if acts == [] then was
    else Stored(match acts[0] case ExitSyscall(x) => x case _ => was, acts[1..])
  }

  /** The status is the one the child last stored; a child that is killed keeps the -1
      that process_execute put there. */
  lemma {:induction false} StatusIsTheOneStored(s: State, acts: seq<Action>, r: State)
    requires Runs(s, acts, r)
    ensures r.exitStatus == Stored(s.exitStatus, acts)
    decreases |acts|
  {
    if acts != [] {
      StatusKept(s, acts[0]);
      hide Next, Enabled;
      StatusIsTheOneStored(Next(s, acts[0]), acts[1..], r);
    }
  }

  /** In every interleaving the first wait on a child returns the status it left with,
      and every later one returns -1 if and only if an earlier one blocked (or the status
      is -1 itself): a wait that finds the child dead does not count as a wait. */
  lemma WhatWaitsReturn(s: State, acts: seq<Action>, r: State, i: nat)
    requires Init(s) && Runs(s, acts, r) && i < |r.answers|
    ensures Left(r.child)
    ensures r.answers[i].value == if BlockedBefore(r.answers, i) then -1 else r.exitStatus
    ensures r.answers[0].value == r.exitStatus
    ensures r.exitStatus != -1 ==> (r.answers[i].value == -1 <==> BlockedBefore(r.answers, i))
  {
    hide Runs, Init, Up, Down;
    Reached(s, acts, r);
  }

  /** process_wait's promise that a second call returns -1 does not hold: the child exits
      with 7 before the first call, and both calls return 7. */
  lemma SecondWaitCanRepeatTheStatus(s: State)
    requires Init(s)
    ensures exists acts, r :: Runs(s, acts, r) && r.answers == [Answer(7, false), Answer(7, false)]
  {
    var dead := State(Free, Notifying, true, true, 1, Sema(0, 0, [], {}, 1, 1), Fresh(0), 7, false, []);
    var looked := dead.(answers := [Answer(7, false)]);
    var end := dead.(answers := [Answer(7, false), Answer(7, false)]);
    ChildDiesFirst(s, dead);
    WaitsOnce(dead, looked);
    WaitsOnce(looked, end);
    var waits := [CallWait, ParentGo, ParentGo];
    RunsAppend(dead, waits, looked, waits, end);
    RunsAppend(s, CHILD_FIRST, dead, waits + waits, end);
  }

  const CHILD_FIRST: seq<Action> :=
    [LoadEnds(true), ChildGo, ChildGo, ParentGo, ParentGo, ParentGo, ExitSyscall(7), ChildGo]

  lemma ChildDiesFirst(s: State, dead: State)
    requires Init(s) && dead == State(Free, Notifying, true, true, 1, Sema(0, 0, [], {}, 1, 1), Fresh(0), 7, false, [])
    ensures Runs(s, CHILD_FIRST, dead)
  {
    var s3 := Next(Next(Next(s, LoadEnds(true)), ChildGo), ChildGo);
    var s6 := Next(Next(Next(s3, ParentGo), ParentGo), ParentGo);
    assert s6 == State(Free, Running, true, true, 2, Sema(0, 0, [], {}, 1, 1), Fresh(0), -1, false, []);
    assert Next(Next(s6, ExitSyscall(7)), ChildGo) == dead;
    var c := CHILD_FIRST;
    assert c[6..] == [ExitSyscall(7), ChildGo] && Runs(s6, c[6..], dead);
    assert c[5..][1..] == c[6..] && c[4..][1..] == c[5..] && c[3..][1..] == c[4..];
    assert Runs(s3, c[3..], dead);
    assert c[2..][1..] == c[3..] && c[1..][1..] == c[2..];
  }

  lemma WaitsOnce(s: State, r: State)
    requires s.parent == Free && !s.waited && s.aliveCount == 1 && PARENT !in s.semaExec.waiters && PARENT !in s.semaWait.waiters
    requires r == s.(answers := s.answers + [Answer(s.exitStatus, false)])
    ensures Runs(s, [CallWait, ParentGo, ParentGo], r)
  {
    var s1 := Next(s, CallWait);
    var s2 := Next(s1, ParentGo);
    assert Runs(s2, [ParentGo], r);
    assert [CallWait, ParentGo, ParentGo][1..] == [ParentGo, ParentGo];
    assert [ParentGo, ParentGo][1..] == [ParentGo];
  }

  lemma {:induction false} RunsAppend(s: State, a: seq<Action>, m: State, b: seq<Action>, r: State)
    requires Runs(s, a, m) && Runs(m, b, r)
    ensures Runs(s, a + b, r)
    decreases |a|
  {
    hide Next, Enabled;
    if a == [] {
      assert a + b == b;
    } else {
      RunsAppend(Next(s, a[0]), a[1..], m, b, r);
      assert (a + b)[1..] == a[1..] + b;
    }
  }

  /** A wait on a child that loaded never hangs: once the child is dead, the parent's next
      step at sema_wait lets it through. */
  lemma WaitEndsWithTheChild(s: State, acts: seq<Action>, r: State)
    requires Init(s) && Runs(s, acts, r) && r.loaded && r.child == Dead && r.parent == Blocking
    ensures Enabled(r, ParentGo) && Next(r, ParentGo).parent == ReturningWoken
  {
    hide Runs, Init, Inv, Next;
    Reached(s, acts, r);
    WokenGetsThrough(r);
  }

  lemma WokenGetsThrough(s: State)
    requires Inv(s) && s.loaded && s.child == Dead && s.parent == Blocking
    ensures Enabled(s, ParentGo) && Next(s, ParentGo).parent == ReturningWoken
  {
    hide Up, CountInv, PcInv, AnswerInv;
    assert s.semaWait.value == 1;
    LoneThread(s.semaWait, PARENT);
  }

  // ---------------------------------------------------------------- what spawning reports

  /** process_execute reports a failure exactly when the load failed, provided the child
      has not yet left at the time of the test; if it has, the report is the wrong one. */
  lemma SpawnReportIsRightUnlessTheChildHasLeft(s: State, acts: seq<Action>, r: State)
    requires Init(s) && Runs(s, acts, r) && r.parent == Testing
    ensures Enabled(r, ParentGo)
    ensures var failed := Next(r, ParentGo).parent == SpawnFailed; (failed <==> !r.loaded) <==> !Gone(r.child)
  {
    hide Runs, Init, Up, Down;
    Reached(s, acts, r);
    hide Sound;
  }

  const LOADED_AND_GONE: seq<Action> := [LoadEnds(true), ChildGo, ChildGo, ExitSyscall(7), ChildGo, ParentGo]

  const FAILED_AND_GONE: seq<Action> := [LoadEnds(false), ChildGo, ChildGo, ParentGo]

  /** The parent is at its test, which takes it to `next`. */
  predicate Reports(s: State, next: ParentPc) { s.parent == Testing && Enabled(s, ParentGo) && Next(s, ParentGo).parent == next }

  /** Both wrong reports happen: a child that loaded and left is reported as failed, and one whose load failed and
      that left is reported as started. */
  lemma SpawnReportCanBeWrong(s: State)
    requires Init(s)
    ensures exists r :: Runs(s, LOADED_AND_GONE, r) && r.loaded && Reports(r, SpawnFailed)
    ensures exists r :: Runs(s, FAILED_AND_GONE, r) && !r.loaded && Reports(r, Registering)
  {
    hide Runs, Init;
    LoadedAndGone(s, State(Testing, Notifying, true, false, 1, Sema(0, 0, [], {}, 1, 1), Fresh(0), 7, false, []));
    FailedAndGone(s, State(Testing, Dead, false, false, 0, Sema(0, 0, [], {}, 1, 1), Fresh(0), -1, false, []));
  }

  predicate RunsThree(s: State, a: Action, b: Action, c: Action, r: State)
  {
    && Enabled(s, a) && Enabled(Next(s, a), b) && Enabled(Next(Next(s, a), b), c)
    && Next(Next(Next(s, a), b), c) == r
  }

  lemma RunOfThree(s: State, a: Action, b: Action, c: Action, r: State)
    requires RunsThree(s, a, b, c, r)
    ensures Runs(s, [a, b, c], r)
  {
    hide Next, Enabled;
    assert Runs(Next(Next(s, a), b), [c], r);
    assert [a, b, c][1..] == [b, c] && [b, c][1..] == [c];
  }

  lemma LoadedAndGone(s: State, r: State)
    requires Init(s) && r == State(Testing, Notifying, true, false, 1, Sema(0, 0, [], {}, 1, 1), Fresh(0), 7, false, [])
    ensures Runs(s, LOADED_AND_GONE, r)
  {
    var s3 := State(AwaitingLoad, Running, true, false, 2, Sema(0, 1, [], {}, 1, 0), Fresh(0), -1, false, []);
    assert RunsThree(s, LoadEnds(true), ChildGo, ChildGo, s3);
    RunOfThree(s, LoadEnds(true), ChildGo, ChildGo, s3);
    assert RunsThree(s3, ExitSyscall(7), ChildGo, ParentGo, r);
    RunOfThree(s3, ExitSyscall(7), ChildGo, ParentGo, r);
    RunsAppend(s, [LoadEnds(true), ChildGo, ChildGo], s3, [ExitSyscall(7), ChildGo, ParentGo], r);
  }

  lemma FailedAndGone(s: State, r: State)
    requires Init(s) && r == State(Testing, Dead, false, false, 0, Sema(0, 0, [], {}, 1, 1), Fresh(0), -1, false, [])
    ensures Runs(s, FAILED_AND_GONE, r)
  {
    var s1 := s.(child := Reporting);
    assert Runs(s, [LoadEnds(false)], s1);
    RunOfThree(s1, ChildGo, ChildGo, ParentGo, r);
    RunsAppend(s, [LoadEnds(false)], s1, [ChildGo, ChildGo, ParentGo], r);
  }

  /** alive_count is the number of parties alive, for every child that loaded; for one
      that did not it is one less once that child has left. */
  lemma AliveCountInEveryRun(s: State, acts: seq<Action>, r: State)
    requires Init(s) && Runs(s, acts, r) && !(r.parent == Exited && !r.registered) && r.child != Loading && r.child != Counting
    ensures r.loaded ==> r.aliveCount == One(r.parent != Exited) + One(!Gone(r.child))
    ensures !r.loaded ==> r.aliveCount == One(r.parent != Exited) - One(Gone(r.child))
  {
    hide Runs, Init, Up, Down;
    Reached(s, acts, r);
    hide ExecInv, WaitInv, AnswerInv;
  }

  /** A child whose load failed but that was registered all the same is never reported:
      a parent that waits for it stays blocked in every continuation. */
  lemma {:induction false} WaitOnFailedChildNeverEnds(s: State, acts: seq<Action>, r: State)
    requires Inv(s) && Runs(s, acts, r) && !s.loaded && s.parent == Blocking
    ensures r.parent == Blocking
    decreases |acts|
  {
    if acts != [] {
      StepKeepsInv(s, acts[0]);
      StaysBlocked(s, acts[0]);
      hide Inv, Next, Enabled;
      WaitOnFailedChildNeverEnds(Next(s, acts[0]), acts[1..], r);
    }
  }

  const WAIT_ON_FAILED: seq<Action> := [ParentGo, ParentGo, CallWait, ParentGo, ParentGo]

  /** Such a wait happens. */
  lemma WaitOnFailedChildHappens(s: State)
    requires Init(s)
    ensures exists r :: Runs(s, FAILED_AND_GONE + WAIT_ON_FAILED, r) && Inv(r) && !r.loaded && r.parent == Blocking
  {
    var m := State(Testing, Dead, false, false, 0, Sema(0, 0, [], {}, 1, 1), Fresh(0), -1, false, []);
    var r := m.(parent := Blocking, registered := true, waited := true);
    FailedAndGone(s, m);
    FailedIsWaitedFor(m, r);
    RunsAppend(s, FAILED_AND_GONE, m, WAIT_ON_FAILED, r);
    Reached(s, FAILED_AND_GONE + WAIT_ON_FAILED, r);
    hide Inv, Runs;
  }

  lemma FailedIsWaitedFor(m: State, r: State)
    requires m == State(Testing, Dead, false, false, 0, Sema(0, 0, [], {}, 1, 1), Fresh(0), -1, false, [])
    requires r == m.(parent := Blocking, registered := true, waited := true)
    ensures Runs(m, WAIT_ON_FAILED, r)
  {
    var looking := m.(parent := Looking, registered := true);
    RunOfThree(m, ParentGo, ParentGo, CallWait, looking);
    assert Next(looking, ParentGo).parent == Marking;
    assert Runs(Next(looking, ParentGo), [ParentGo], r);
    assert [ParentGo, ParentGo][1..] == [ParentGo];
    RunsAppend(m, [ParentGo, ParentGo, CallWait], looking, [ParentGo, ParentGo], r);
  }

  lemma StaysBlocked(s: State, a: Action)
    requires Inv(s) && Enabled(s, a) && !s.loaded && s.parent == Blocking
    ensures Next(s, a).parent == Blocking && !Next(s, a).loaded
  {
    assert s.semaWait.value == 0;
    hide Sound, ExecInv, AnswerInv;
  }

  // ---------------------------------------------------------------- every call is answered

  /** How often process_wait is called in a run. */
  function Waits(acts: seq<Action>): (n: nat) {
    if acts == [] then 0 else One(acts[0].CallWait?) + Waits(acts[1..])
  }

  predicate InWait(p: ParentPc) { p.Looking? || p.ReturningDead? || p.Marking? || p.Blocking? || p.ReturningWoken? }

  lemma {:induction false} AnswersCount(s: State, acts: seq<Action>, r: State)
    requires Runs(s, acts, r)
    ensures |r.answers| + One(InWait(r.parent)) == |s.answers| + One(InWait(s.parent)) + Waits(acts)
    decreases |acts|
  {
    if acts != [] {
      StepAnswers(s, acts[0]);
      hide Next, Enabled, InWait;
      AnswersCount(Next(s, acts[0]), acts[1..], r);
    }
  }

  lemma StepAnswers(s: State, a: Action)
    requires Enabled(s, a)
    ensures var r := Next(s, a); |r.answers| + One(InWait(r.parent)) == |s.answers| + One(InWait(s.parent)) + One(a.CallWait?)
  {
    hide Up, Down;
    if ByChild(a) { ChildLeavesAnswers(s, a); }
  }

  lemma ChildLeavesAnswers(s: State, a: Action)
    requires Enabled(s, a) && ByChild(a)
    ensures Next(s, a).parent == s.parent && Next(s, a).answers == s.answers
  {
    hide Up, Down;
  }

  /** Every call of process_wait gives one answer, except for the one the parent may be in. */
  lemma EveryWaitIsAnswered(s: State, acts: seq<Action>, r: State)
    requires Init(s) && Runs(s, acts, r)
    ensures |r.answers| + One(InWait(r.parent)) == Waits(acts)
  {
    AnswersCount(s, acts, r);
  }

  /** What the child leaves in exit_status: what it passed to exit, or the -1 of process_execute if it was killed. */
  function StatusOf(a: Action): (status: int) { match a case ExitSyscall(x) => x case _ => -1 }

  predicate Exits(a: Action) { a.ExitSyscall? || a.Killed? }

  /** The parent is back from process_wait with one more answer. */
  predicate Returned(s: State, r: State, x: Answer) { r.parent == Free && r.answers == s.answers + [x] }

  /** A parent blocked on a child that loaded gets the child's status: the child leaves and takes its two steps, the
      parent takes its two, and process_wait has returned. */
  lemma WaitReturnsTheStatus(s: State, acts: seq<Action>, r: State, a: Action)
    requires Init(s) && Runs(s, acts, r) && r.parent == Blocking && r.loaded && r.child == Running && Exits(a)
    ensures exists q :: Runs(r, [a, ChildGo, ChildGo] + [ParentGo, ParentGo], q) && Returned(r, q, Answer(StatusOf(a), true))
  {
    hide Runs, Init, Inv, Next, RunsThree;
    Reached(s, acts, r);
    StatusUntilExit(s, acts, r);
    var m := ChildExits(r, a);
    RunOfThree(r, a, ChildGo, ChildGo, m);
    RunKeepsInv(r, [a, ChildGo, ChildGo], m);
    WokenGetsThrough(m);
    var q := WokenReturns(m);
    RunsAppend(r, [a, ChildGo, ChildGo], m, [ParentGo, ParentGo], q);
  }

  lemma ChildExits(s: State, a: Action) returns (r: State)
    requires Inv(s) && s.parent == Blocking && s.loaded && s.child == Running && Exits(a) && s.exitStatus == -1
    ensures RunsThree(s, a, ChildGo, ChildGo, r)
    ensures r.parent == Blocking && r.loaded && r.child == Dead && r.answers == s.answers && r.exitStatus == StatusOf(a)
  {
    hide Up, ExecInv, WaitInv, AnswerInv;
    r := Next(Next(Next(s, a), ChildGo), ChildGo);
  }

  lemma WokenReturns(s: State) returns (r: State)
    requires s.parent == Blocking && Enabled(s, ParentGo) && Next(s, ParentGo).parent == ReturningWoken
    ensures Runs(s, [ParentGo, ParentGo], r) && Returned(s, r, Answer(s.exitStatus, true))
  {
    assert s.semaWait.value > 0;
    r := Next(Next(s, ParentGo), ParentGo);
    RunOfTwo(s, ParentGo, ParentGo, r);
  }

  /** What process_wait does with a child that loaded: after an earlier call that blocked it answers -1 at once; if the
      child has left it returns the status without blocking; and else it is asleep after four steps. */
  lemma WaitCases(s: State, acts: seq<Action>, r: State)
    requires Init(s) && Runs(s, acts, r) && r.parent == Free && r.loaded
    ensures r.waited ==> Runs(r, [CallWait], r.(answers := r.answers + [Answer(-1, false)]))
    ensures !r.waited && Gone(r.child) ==>
      Runs(r, [CallWait, ParentGo, ParentGo], r.(answers := r.answers + [Answer(r.exitStatus, false)]))
    ensures !r.waited && !Gone(r.child) ==>
      exists q :: Runs(r, [CallWait, ParentGo, ParentGo] + [ParentGo], q) && q.parent == Blocking && PARENT in q.semaWait.waiters
  {
    Reached(s, acts, r);
    NotAsleep(r);
    hide Init, ExecInv, AnswerInv, PcInv;
    if r.waited {
      AnswersAtOnce(r);
    } else if Gone(r.child) {
      WaitsOnce(r, r.(answers := r.answers + [Answer(r.exitStatus, false)]));
    } else {
      FallsAsleep(r);
    }
  }

  lemma NotAsleep(s: State)
    requires Inv(s) && s.parent == Free
    ensures PARENT !in s.semaExec.waiters && PARENT !in s.semaWait.waiters
  {
    hide CountInv, PcInv, AnswerInv, Sound;
  }

  lemma AnswersAtOnce(s: State)
    requires s.parent == Free && s.waited
    ensures Runs(s, [CallWait], s.(answers := s.answers + [Answer(-1, false)]))
  {
    var r := s.(answers := s.answers + [Answer(-1, false)]);
    assert Next(s, CallWait) == r && [CallWait][1..] == [] && Runs(r, [], r);
  }

  lemma FallsAsleep(s: State)
    requires Inv(s) && s.parent == Free && s.loaded && !s.waited && !Gone(s.child)
    requires PARENT !in s.semaExec.waiters && PARENT !in s.semaWait.waiters
    ensures exists q :: Runs(s, [CallWait, ParentGo, ParentGo] + [ParentGo], q) && q.parent == Blocking && PARENT in q.semaWait.waiters
  {
    assert s.aliveCount == 2 && s.semaWait.value == 0 by { hide AnswerInv; }
    hide Inv, Sound;
    var m := s.(parent := Blocking, waited := true);
    assert RunsThree(s, CallWait, ParentGo, ParentGo, m);
    RunOfThree(s, CallWait, ParentGo, ParentGo, m);
    var q := Next(m, ParentGo);
    assert Runs(m, [ParentGo], q) by { assert [ParentGo][1..] == [] && Runs(q, [], q); }
    RunsAppend(s, [CallWait, ParentGo, ParentGo], m, [ParentGo], q);
  }

  /** process_execute returns: the load ends, the child reports, and the parent finds the child alive and registers it,
      or finds that the load failed. */
  lemma SpawnReturns(s: State, acts: seq<Action>, r: State)
    requires Init(s) && Runs(s, acts, r) && r.child == Loading
    ensures exists q :: Runs(r, [LoadEnds(true), ChildGo, ChildGo] + [ParentGo, ParentGo, ParentGo], q) && q.parent == Free && q.registered
    ensures exists q :: Runs(r, [LoadEnds(false), ChildGo] + [ParentGo, ParentGo], q) && q.parent == SpawnFailed
  {
    hide Runs, Init, Inv, Next;
    Reached(s, acts, r);
    SpawnSucceeds(r);
    SpawnFails(r);
  }

  lemma ReportWakes(s: State)
    requires Inv(s) && s.child == Loading
    ensures var v := Up(s.semaExec);
      s.parent == AwaitingLoad && s.aliveCount == 1 && v.value == 1 && v.waiters == [] && PARENT !in s.semaWait.waiters
  {
    UpKeepsSound(s.semaExec);
    UpWakesAWaiter(s.semaExec);
    assert s.semaExec.value == 0;
    LoneThread(Up(s.semaExec), PARENT);
    hide Up, AnswerInv, Sound;
  }

  lemma SpawnSucceeds(s: State)
    requires Inv(s) && s.child == Loading
    ensures exists q :: Runs(s, [LoadEnds(true), ChildGo, ChildGo] + [ParentGo, ParentGo, ParentGo], q) && q.parent == Free && q.registered
  {
    ReportWakes(s);
    hide Inv, Up;
    var m := s.(loaded := true, child := Running, aliveCount := 2, semaExec := Up(s.semaExec));
    assert RunsThree(s, LoadEnds(true), ChildGo, ChildGo, m);
    RunOfThree(s, LoadEnds(true), ChildGo, ChildGo, m);
    var q := ParentRegisters(m);
    RunsAppend(s, [LoadEnds(true), ChildGo, ChildGo], m, [ParentGo, ParentGo, ParentGo], q);
  }

  lemma ParentRegisters(s: State) returns (r: State)
    requires s.parent == AwaitingLoad && s.aliveCount == 2 && s.semaExec.value == 1 && s.semaExec.waiters == [] && PARENT !in s.semaWait.waiters
    ensures Runs(s, [ParentGo, ParentGo, ParentGo], r) && r.parent == Free && r.registered
  {
    r := Next(Next(Next(s, ParentGo), ParentGo), ParentGo);
    RunOfThree(s, ParentGo, ParentGo, ParentGo, r);
  }

  lemma SpawnFails(s: State)
    requires Inv(s) && s.child == Loading
    ensures exists q :: Runs(s, [LoadEnds(false), ChildGo] + [ParentGo, ParentGo], q) && q.parent == SpawnFailed
  {
    ReportWakes(s);
    hide Inv, Up;
    var n := s.(loaded := false, child := Reporting);
    var m := n.(child := Leaving, semaExec := Up(s.semaExec));
    assert Next(s, LoadEnds(false)) == n && Next(n, ChildGo) == m;
    RunOfTwo(s, LoadEnds(false), ChildGo, m);
    hide Next;
    var q := ParentGivesUp(m);
    RunsAppend(s, [LoadEnds(false), ChildGo], m, [ParentGo, ParentGo], q);
  }

  lemma ParentGivesUp(s: State) returns (r: State)
    requires s.parent == AwaitingLoad && s.aliveCount == 1 && s.semaExec.value == 1 && s.semaExec.waiters == [] && PARENT !in s.semaWait.waiters
    ensures Runs(s, [ParentGo, ParentGo], r) && r.parent == SpawnFailed
  {
    r := Next(Next(s, ParentGo), ParentGo);
    RunOfTwo(s, ParentGo, ParentGo, r);
  }

  lemma RunOfTwo(s: State, a: Action, b: Action, r: State)
    requires Enabled(s, a) && Enabled(Next(s, a), b) && r == Next(Next(s, a), b)
    ensures Runs(s, [a, b], r)
  {
    hide Next, Enabled;
    assert Runs(Next(s, a), [b], r) by { assert [b][1..] == [] && Runs(r, [], r); }
    assert [a, b][1..] == [b];
  }

  /** A child in user code has not stored a status. */
  lemma StatusUntilExit(s: State, acts: seq<Action>, r: State)
    requires Init(s) && Runs(s, acts, r) && !Left(r.child)
    ensures r.exitStatus == -1
  {
    RunsUntilExit(s, acts, r);
  }

  lemma {:induction false} RunsUntilExit(s: State, acts: seq<Action>, r: State)
    requires Runs(s, acts, r) && (Left(s.child) || s.exitStatus == -1)
    ensures Left(r.child) || r.exitStatus == -1
    decreases |acts|
  {
    if acts != [] {
      StepUntilExit(s, acts[0]);
      hide Next, Enabled, Left;
      RunsUntilExit(Next(s, acts[0]), acts[1..], r);
    }
  }

  lemma StepUntilExit(s: State, a: Action)
    requires Enabled(s, a) && (Left(s.child) || s.exitStatus == -1)
    ensures Left(Next(s, a).child) || Next(s, a).exitStatus == -1
  {
    hide Up, Down;
  }

  lemma StaysExited(s: State, a: Action)
    requires Enabled(s, a) && s.parent == Exited
    ensures var r := Next(s, a); r.parent == Exited && r.registered == s.registered && r.answers == s.answers
  {
    hide Up, Down;
  }

  lemma {:induction false} ExitedForGood(s: State, acts: seq<Action>, r: State)
    requires Runs(s, acts, r) && s.parent == Exited
    ensures r.parent == Exited && r.registered == s.registered && r.answers == s.answers
    decreases |acts|
  {
    hide Next, Enabled;
    if acts != [] {
      StaysExited(s, acts[0]);
      ExitedForGood(Next(s, acts[0]), acts[1..], r);
    }
  }

  /** A parent that exits is gone for good; a registered child that loaded and leaves after it finds itself the last one
      and wakes nobody, and the count ends at 0. */
  lemma LastOneOut(s: State, acts: seq<Action>, r: State, after: seq<Action>, q: State)
    requires Init(s) && Runs(s, acts, r) && Enabled(r, ParentExit) && Runs(Next(r, ParentExit), after, q)
    ensures q.parent == Exited && q.answers == r.answers && q.registered == r.registered
    ensures q.registered && q.loaded && q.child == Leaving ==>
      Next(q, ChildGo) == q.(aliveCount := 0, child := Dead)
    ensures q.registered && q.loaded && Gone(q.child) ==> q.aliveCount == 0
  {
    hide Runs, Inv, Init;
    Reached(s, acts, r);
    StepKeepsInv(r, ParentExit);
    RunKeepsInv(Next(r, ParentExit), after, q);
    ExitedForGood(Next(r, ParentExit), after, q);
    hide Next;
    if q.registered && q.loaded { LastOneFindsZero(q); }
  }

  lemma LastOneFindsZero(s: State)
    requires Inv(s) && s.parent == Exited && s.registered && s.loaded
    ensures s.child == Leaving ==> Next(s, ChildGo) == s.(aliveCount := 0, child := Dead)
    ensures Gone(s.child) ==> s.aliveCount == 0
  {
    hide Up, Down, PcInv, ExecInv, WaitInv, AnswerInv;
  }
}

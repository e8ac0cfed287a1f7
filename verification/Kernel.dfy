/** Threads, semaphores and the sleep queue of one processor, as a machine whose steps
    are the interrupts-off regions of threads/thread.c, threads/synch.c and
    devices/timer.c.  Between two steps any thread program may do anything else. */
module Kernel {
  import opened Semaphores
  import opened Sequences

  datatype Status = Running | Ready | Blocked | Dying

  /** What a thread is in the middle of: nothing the kernel cares about, the loop of
      sema_down, thread_create before thread_unblock, timer_sleep before and after it
      has queued itself. */
  datatype Activity = Free | Retrying(sema: nat) | Embryo | Napping(deadline: int) | Sleeping

  datatype Thread = Thread(status: Status, doing: Activity)

  datatype Sleeper = Sleeper(tid: Tid, deadline: int, arrival: nat)

  datatype State = State(
    cur: Tid,
    ready: seq<Tid>,
    threads: map<Tid, Thread>,
    semas: map<nat, Sema>,
    sleepers: seq<Sleeper>,
    arrivals: nat,
    ticks: int,
    idle: Tid,
    initial: Tid,
    freed: seq<Tid>)

  datatype Action =
    | Down(sema: nat)
    | TryDown(sema: nat)
    | Up(sema: nat)
    | Yield
    | Exit
    | Create(t: Tid)
    | Start(t: Tid)
    | SetAlarm(n: int)
    | Sleep
    | Tick
    | IdleBlock

  /** `thread_unblock`: to the back of the ready list, `doing` what it then does. */
  function Unblock(k: State, t: Tid, doing: Activity): (r: State) {
    k.(ready := k.ready + [t], threads := k.threads[t := Thread(Ready, doing)])
  }

  /** The running thread takes another status and calls `schedule`. */
  function Leave(k: State, self: Thread): (r: State) {
    Reap(Switch(k.(threads := k.threads[k.cur := self])), k.cur)
  }

  /** next_thread_to_run and the switch: the front of the ready list runs, or the idle
      thread if nobody is ready. */
  function Switch(k: State): (r: State) {
    var next := if k.ready == [] then k.idle else k.ready[0];
    k.(cur := next, ready := if k.ready == [] then [] else k.ready[1..],
       threads := if next in k.threads then k.threads[next := k.threads[next].(status := Running)] else k.threads)
  }

  /** thread_schedule_tail: a thread left behind dying gives up its page. */
  function Reap(k: State, prev: Tid): (r: State) {
    if prev in k.threads && k.threads[prev].status == Dying && prev != k.initial
    then k.(threads := k.threads - {prev}, freed := k.freed + [prev])
    else k
  }

  /** list_insert_ordered with thread_sleep_time_comparator. */
  function Queued(q: seq<Sleeper>, x: Sleeper): (r: seq<Sleeper>) {
    if q == [] || x.deadline < q[0].deadline then [x] + q else [q[0]] + Queued(q[1..], x)
  }

  /** The loop of timer_interrupt: pops the front for as long as it is due. */
  function Wake(k: State): (r: State)
    decreases |k.sleepers|
  {
    if k.sleepers == [] || k.ticks < k.sleepers[0].deadline then k
    else Wake(Unblock(k, k.sleepers[0].tid, Free).(sleepers := k.sleepers[1..]))
  }

  predicate Enabled(k: State, a: Action) {
    && k.cur in k.threads
    && var act := k.threads[k.cur].doing;
    match a
    case Down(s) => s in k.semas && k.cur != k.idle && (act == Free || act == Retrying(s))
    case TryDown(s) => s in k.semas && !act.Retrying?
    case Up(s) => s in k.semas && !act.Retrying?
    case Yield => !act.Retrying?
    case Exit => k.cur != k.idle && act == Free
    case Create(t) => k.cur != k.idle && act == Free && t !in k.threads && t !in k.freed
    case Start(t) => k.cur != k.idle && act == Free && t in k.threads && k.threads[t].doing == Embryo
    case SetAlarm(n) => k.cur != k.idle && act == Free
    case Sleep => act.Napping?
    case Tick => !act.Retrying?
    case IdleBlock => k.cur == k.idle
  }

  function Next(k: State, a: Action): (r: State)
    requires Enabled(k, a)
  {
    var act := k.threads[k.cur].doing;
    match a
    case Down(s) =>
      var k1 := k.(semas := k.semas[s := Semaphores.Down(k.semas[s], k.cur)]);
      if k.semas[s].value == 0 then Leave(k1, Thread(Blocked, Retrying(s)))
      else k1.(threads := k.threads[k.cur := Thread(Running, Free)])
    case TryDown(s) => k.(semas := k.semas[s := Semaphores.TryDown(k.semas[s])])
    case Up(s) =>
      var k1 := k.(semas := k.semas[s := Semaphores.Up(k.semas[s])]);
      if k.semas[s].waiters == [] then k1 else Unblock(k1, k.semas[s].waiters[0], Retrying(s))
    case Yield =>
      Leave(if k.cur == k.idle then k else k.(ready := k.ready + [k.cur]), Thread(Ready, act))
    case Exit => Leave(k, Thread(Dying, Free))
    case Create(t) => k.(threads := k.threads[t := Thread(Blocked, Embryo)])
    case Start(t) => Unblock(k, t, Free)
    case SetAlarm(n) => k.(threads := k.threads[k.cur := Thread(Running, Napping(k.ticks + n))])
    case Sleep =>
      Leave(k.(sleepers := Queued(k.sleepers, Sleeper(k.cur, act.deadline, k.arrivals)), arrivals := k.arrivals + 1),
            Thread(Blocked, Sleeping))
    case Tick => Wake(k.(ticks := k.ticks + 1))
    case IdleBlock => Leave(k, Thread(Blocked, Free))
  }

  /** Just after thread_start: the initial thread runs, the idle thread has blocked. */
  ghost predicate Init(k: State) {
    && k.cur == k.initial && k.initial != k.idle && k.ready == [] && k.sleepers == [] && k.freed == []
    && k.threads == map[k.initial := Thread(Running, Free), k.idle := Thread(Blocked, Free)]
    && (forall s :: s in k.semas ==> k.semas[s] == Fresh(k.semas[s].initial))
  }

  // ---------------------------------------------------------------- the invariant

  /** The ready list holds exactly the ready threads other than the idle one, once
      each; a dead thread's page was freed once and nothing refers to it. */
  ghost predicate ReadyInv(k: State) {
    && k.idle in k.threads && k.threads[k.idle].doing == Free && k.threads[k.idle].status != Dying
    && Distinct(k.ready)
    && (forall t :: t in k.ready ==> t in k.threads && k.threads[t].status == Ready && t != k.idle)
    && (forall t :: t in k.threads && k.threads[t].status == Ready && t != k.idle ==> t in k.ready)
    && Distinct(k.freed) && (forall t :: t in k.freed ==> t !in k.threads && t != k.initial)
  }

  /** Exactly one thread runs, and only the initial thread stays behind when it dies. */
  ghost predicate RunningInv(k: State) {
    && k.cur in k.threads
    && (forall t :: t in k.threads ==> (k.threads[t].status == Running <==> t == k.cur))
    && (forall t :: t in k.threads && k.threads[t].status == Dying ==> k.threads[t].doing == Free && t == k.initial)
  }

  /** A thread in the loop of sema_down is in the waiters of its semaphore while it is
      blocked and among the woken otherwise; every other blocked thread is one not yet
      started, a sleeper or the idle thread. */
  ghost predicate Placed(k: State, t: Tid)
    requires t in k.threads
  {
    match k.threads[t].doing
    case Retrying(s) =>
      s in k.semas && if k.threads[t].status == Blocked then t in k.semas[s].waiters else t in k.semas[s].woken
    case Embryo => k.threads[t].status == Blocked
    case Sleeping => k.threads[t].status == Blocked
    case _ => k.threads[t].status != Blocked || t == k.idle
  }

  ghost predicate Holds(k: State, s: nat)
    requires s in k.semas
  {
    && Sound(k.semas[s])
    && (forall t :: t in k.semas[s].waiters ==> t in k.threads && k.threads[t] == Thread(Blocked, Retrying(s)))
    && (forall t :: t in k.semas[s].woken ==>
          t in k.threads && k.threads[t].status != Blocked && k.threads[t].doing == Retrying(s))
  }

  ghost predicate QueueInv(k: State) {
    && (forall t :: t in k.threads ==> Placed(k, t))
    && (forall s :: s in k.semas ==> Holds(k, s))
  }

  /** Earlier deadline, or the same one and queued first. */
  predicate Before(x: Sleeper, y: Sleeper) {
    x.deadline < y.deadline || (x.deadline == y.deadline && x.arrival < y.arrival)
  }

  ghost predicate Ordered(q: seq<Sleeper>) {
    forall i, j :: 0 <= i < j < |q| ==> Before(q[i], q[j]) && q[i].tid != q[j].tid
  }

  ghost predicate SleepInv(k: State) {
    && Ordered(k.sleepers)
    && (forall x :: x in k.sleepers ==> x.arrival < k.arrivals && x.tid in k.threads && k.threads[x.tid].doing == Sleeping)
    && (forall t :: t in k.threads && k.threads[t].doing == Sleeping ==> exists x :: x in k.sleepers && x.tid == t)
  }

  ghost predicate Inv(k: State) {
    ReadyInv(k) && RunningInv(k) && QueueInv(k) && SleepInv(k)
  }

  lemma InitInv(k: State)
    requires Init(k)
    ensures Inv(k)
  {
  }

  // ---------------------------------------------------------------- giving up the processor

  /** What holds when `schedule` is called: nobody runs. */
  ghost predicate Left(k: State) {
    && k.cur in k.threads
    && (forall t :: t in k.threads ==> k.threads[t].status != Running)
    && (forall t :: t in k.threads && k.threads[t].status == Dying ==>
          k.threads[t].doing == Free && (t == k.initial || t == k.cur))
  }

  lemma SwitchKeepsReady(k: State)
    requires ReadyInv(k) && Left(k)
    ensures var r := Switch(k);
            && ReadyInv(r) && r.cur in r.threads
            && (forall t :: t in r.threads ==> (r.threads[t].status == Running <==> t == r.cur))
            && (forall t :: t in r.threads && r.threads[t].status == Dying ==> r.threads[t].doing == Free && (t == k.initial || t == k.cur))
  {
    assert k.ready != [] ==> k.ready[0] in k.ready;
  }

  lemma SwitchKeepsQueues(k: State)
    requires ReadyInv(k) && QueueInv(k)
    ensures QueueInv(Switch(k))
  {
    var r := Switch(k);
    assert k.ready != [] ==> k.ready[0] in k.ready;
    forall t | t in r.threads ensures Placed(r, t) { assert Placed(k, t); }
    forall s | s in r.semas ensures Holds(r, s) { assert Holds(k, s); }
  }

  lemma SwitchKeepsSleep(k: State)
    requires SleepInv(k)
    ensures SleepInv(Switch(k))
  {
  }

  lemma ReapKeepsInv(k: State, prev: Tid)
    requires ReadyInv(k) && QueueInv(k) && SleepInv(k) && k.cur in k.threads
    requires forall t :: t in k.threads ==> (k.threads[t].status == Running <==> t == k.cur)
    requires forall t :: t in k.threads && k.threads[t].status == Dying ==> k.threads[t].doing == Free && (t == k.initial || t == prev)
    ensures Inv(Reap(k, prev))
  {
    if prev in k.threads && k.threads[prev].status == Dying && prev != k.initial {
      assert prev != k.idle && prev != k.cur && prev !in k.freed && k.threads[prev].doing == Free;
      hide ReadyInv, QueueInv, SleepInv;
      ReapKeepsReady(k, prev);
      ReapKeepsQueues(k, prev);
      ReapKeepsSleep(k, prev);
    }
  }

  lemma ReapKeepsReady(k: State, prev: Tid)
    requires ReadyInv(k) && prev in k.threads && k.threads[prev].status == Dying && prev != k.initial
    ensures ReadyInv(Reap(k, prev))
  {
  }

  lemma ReapKeepsQueues(k: State, prev: Tid)
    requires QueueInv(k) && prev in k.threads && k.threads[prev] == Thread(Dying, Free) && prev != k.initial
    ensures QueueInv(Reap(k, prev))
  {
    hide Sound;
    var r := Reap(k, prev);
    forall t | t in r.threads ensures Placed(r, t) { assert Placed(k, t); }
    forall s | s in r.semas ensures Holds(r, s) { assert Holds(k, s); }
  }

  lemma ReapKeepsSleep(k: State, prev: Tid)
    requires SleepInv(k) && prev in k.threads && k.threads[prev] == Thread(Dying, Free)
    ensures SleepInv(Reap(k, prev))
  {
    hide Ordered;
  }

  lemma LeaveKeepsInv(k: State, self: Thread)
    requires var k1 := k.(threads := k.threads[k.cur := self]); ReadyInv(k1) && Left(k1) && QueueInv(k1) && SleepInv(k1)
    ensures Inv(Leave(k, self))
  {
    hide ReadyInv, QueueInv, SleepInv, Left, Switch, Reap;
    var k1 := k.(threads := k.threads[k.cur := self]);
    SwitchKeepsReady(k1);
    SwitchKeepsQueues(k1);
    SwitchKeepsSleep(k1);
    assert Switch(k1).initial == k1.initial by { SwitchFrames(k1); }
    ReapKeepsInv(Switch(k1), k.cur);
  }

  lemma SwitchFrames(k: State)
    ensures Switch(k).initial == k.initial
  {
  }

  // ---------------------------------------------------------------- one thread changes

  /** `r` has the threads of `k` except that `c` is now `th`. */
  ghost predicate OnlyThread(k: State, r: State, c: Tid, th: Thread) {
    && r.threads == k.threads[c := th] && r.idle == k.idle && r.initial == k.initial && r.freed == k.freed
    && (c == k.idle ==> th.doing == Free && th.status != Dying)
  }

  lemma ReadyUnmoved(k: State, r: State, c: Tid, th: Thread)
    requires ReadyInv(k) && OnlyThread(k, r, c, th) && r.ready == k.ready && c !in k.freed
    requires c != k.idle ==> th.status != Ready && (c in k.threads ==> k.threads[c].status != Ready)
    ensures ReadyInv(r)
  {
  }

  lemma ReadyExtended(k: State, r: State, c: Tid, th: Thread)
    requires ReadyInv(k) && OnlyThread(k, r, c, th) && r.ready == k.ready + [c] && c !in k.freed
    requires c != k.idle && th.status == Ready && (c in k.threads ==> k.threads[c].status != Ready)
    ensures ReadyInv(r)
  {
  }

  lemma QueuesUnmoved(k: State, r: State, c: Tid, th: Thread)
    requires QueueInv(k) && OnlyThread(k, r, c, th) && r.semas == k.semas && Placed(r, c)
    requires !th.doing.Retrying? && (c in k.threads ==> !k.threads[c].doing.Retrying?)
    ensures QueueInv(r)
  {
    hide Sound;
    forall t | t in r.threads ensures Placed(r, t) { if t != c { assert Placed(k, t); } }
    forall s | s in r.semas ensures Holds(r, s) { assert Holds(k, s); }
  }

  lemma SleepersUnmoved(k: State, r: State, c: Tid, th: Thread)
    requires SleepInv(k) && r.threads == k.threads[c := th] && r.sleepers == k.sleepers && r.arrivals == k.arrivals
    requires th.doing != Sleeping && (c in k.threads ==> k.threads[c].doing != Sleeping)
    ensures SleepInv(r)
  {
  }

  lemma LeftBy(k: State, r: State, th: Thread)
    requires RunningInv(k) && OnlyThread(k, r, k.cur, th) && r.cur == k.cur && th.status != Running
    requires th.status == Dying ==> th.doing == Free
    ensures Left(r)
  {
  }

  lemma StillRuns(k: State, r: State, c: Tid, th: Thread)
    requires RunningInv(k) && OnlyThread(k, r, c, th) && r.cur == k.cur
    requires th.status == Running <==> c == k.cur
    requires th.status != Dying
    ensures RunningInv(r)
  {
  }

  // ---------------------------------------------------------------- one lemma a step

  lemma YieldStep(k: State)
    requires Inv(k) && Enabled(k, Yield)
    ensures Inv(Next(k, Yield))
  {
    var k1 := if k.cur == k.idle then k else k.(ready := k.ready + [k.cur]);
    var self := Thread(Ready, k.threads[k.cur].doing);
    var k2 := k1.(threads := k.threads[k.cur := self]);
    hide Sound, Holds, Ordered, ReadyInv, RunningInv, QueueInv, SleepInv, Left, Leave;
    CurFacts(k);
    if k.cur == k.idle { ReadyUnmoved(k, k2, k.cur, self); } else { ReadyExtended(k, k2, k.cur, self); }
    QueuesUnmoved(k, k2, k.cur, self);
    SleepersUnmoved(k, k2, k.cur, self);
    LeftBy(k, k2, self);
    LeaveKeepsInv(k1, self);
  }

  lemma ExitStep(k: State)
    requires Inv(k) && Enabled(k, Exit)
    ensures Inv(Next(k, Exit))
  {
    var self := Thread(Dying, Free);
    var k2 := k.(threads := k.threads[k.cur := self]);
    hide Sound, Holds, Ordered, ReadyInv, RunningInv, QueueInv, SleepInv, Left, Leave;
    CurFacts(k);
    ReadyUnmoved(k, k2, k.cur, self);
    QueuesUnmoved(k, k2, k.cur, self);
    SleepersUnmoved(k, k2, k.cur, self);
    LeftBy(k, k2, self);
    LeaveKeepsInv(k, self);
  }

  lemma IdleStep(k: State)
    requires Inv(k) && Enabled(k, IdleBlock)
    ensures Inv(Next(k, IdleBlock))
  {
    var self := Thread(Blocked, Free);
    var k2 := k.(threads := k.threads[k.cur := self]);
    hide Sound, Holds, Ordered, ReadyInv, RunningInv, QueueInv, SleepInv, Left, Leave;
    CurFacts(k);
    ReadyUnmoved(k, k2, k.cur, self);
    QueuesUnmoved(k, k2, k.cur, self);
    SleepersUnmoved(k, k2, k.cur, self);
    LeftBy(k, k2, self);
    LeaveKeepsInv(k, self);
  }

  lemma CreateStep(k: State, t: Tid)
    requires Inv(k) && Enabled(k, Create(t))
    ensures Inv(Next(k, Create(t)))
  {
    var th := Thread(Blocked, Embryo);
    var r := Next(k, Create(t));
    assert t != k.idle;
    hide ReadyInv, RunningInv, QueueInv, SleepInv;
    ReadyUnmoved(k, r, t, th);
    QueuesUnmoved(k, r, t, th);
    SleepersUnmoved(k, r, t, th);
    StillRuns(k, r, t, th);
  }

  lemma StartStep(k: State, t: Tid)
    requires Inv(k) && Enabled(k, Start(t))
    ensures Inv(Next(k, Start(t)))
  {
    var th := Thread(Ready, Free);
    var r := Next(k, Start(t));
    assert Placed(k, t) && t != k.idle && t !in k.freed && t != k.cur;
    hide ReadyInv, RunningInv, QueueInv, SleepInv;
    ReadyExtended(k, r, t, th);
    QueuesUnmoved(k, r, t, th);
    SleepersUnmoved(k, r, t, th);
    StillRuns(k, r, t, th);
  }

  lemma AlarmStep(k: State, n: int)
    requires Inv(k) && Enabled(k, SetAlarm(n))
    ensures Inv(Next(k, SetAlarm(n)))
  {
    var th := Thread(Running, Napping(k.ticks + n));
    var r := Next(k, SetAlarm(n));
    hide Sound, Holds, Ordered, ReadyInv, RunningInv, QueueInv, SleepInv;
    CurFacts(k);
    ReadyUnmoved(k, r, k.cur, th);
    QueuesUnmoved(k, r, k.cur, th);
    SleepersUnmoved(k, r, k.cur, th);
    StillRuns(k, r, k.cur, th);
  }

  lemma SemaChanged(k: State, r: State, s: nat, c: Tid, th: Thread)
    requires QueueInv(k) && OnlyThread(k, r, c, th) && s in k.semas && s in r.semas && r.semas == k.semas[s := r.semas[s]]
    requires Holds(r, s) && Placed(r, c)
    requires forall t :: t != c && t in k.semas[s].waiters ==> t in r.semas[s].waiters
    requires forall t :: t != c && t in k.semas[s].woken ==> t in r.semas[s].woken
    requires forall u :: u in k.semas && u != s ==> c !in k.semas[u].waiters && c !in k.semas[u].woken
    ensures QueueInv(r)
  {
    hide Sound;
    forall t | t in r.threads ensures Placed(r, t) { if t != c { assert Placed(k, t); } }
    forall u | u in r.semas ensures Holds(r, u) { if u != s { assert Holds(k, u); } }
  }

  lemma InNoOtherSema(k: State, c: Tid, s: nat)
    requires QueueInv(k) && (c in k.threads ==> k.threads[c].doing == Retrying(s) || !k.threads[c].doing.Retrying?)
    ensures forall u :: u in k.semas && u != s ==> c !in k.semas[u].waiters && c !in k.semas[u].woken
  {
    hide Sound;
    forall u | u in k.semas && u != s ensures c !in k.semas[u].waiters && c !in k.semas[u].woken {
      assert Holds(k, u);
    }
  }

  lemma CurFacts(k: State)
    requires Inv(k)
    ensures k.cur in k.threads && k.threads[k.cur].status == Running && k.cur !in k.freed
    ensures k.idle in k.threads && k.threads[k.idle].doing == Free && Placed(k, k.cur)
  {
    hide Placed, Holds;
  }

  lemma DownPlaces(k: State, s: nat, th: Thread)
    requires Enabled(k, Down(s)) && Holds(k, s) && Placed(k, k.cur) && k.threads[k.cur].status == Running
    requires th == if k.semas[s].value == 0 then Thread(Blocked, Retrying(s)) else Thread(Running, Free)
    ensures var k2 := k.(semas := k.semas[s := Semaphores.Down(k.semas[s], k.cur)], threads := k.threads[k.cur := th]);
            Holds(k2, s) && Placed(k2, k.cur)
  {
    DownKeepsSound(k.semas[s], k.cur);
    hide Sound;
  }

  lemma HoldsAt(k: State, s: nat)
    requires QueueInv(k) && s in k.semas
    ensures Holds(k, s)
  {
    hide Holds, Placed;
  }

  lemma DownStep(k: State, s: nat)
    requires Inv(k) && Enabled(k, Down(s))
    ensures Inv(Next(k, Down(s)))
  {
    hide Sound, Holds, Placed, ReadyInv, RunningInv, QueueInv, SleepInv, Left, Leave;
    CurFacts(k);
    var th := if k.semas[s].value == 0 then Thread(Blocked, Retrying(s)) else Thread(Running, Free);
    var k1 := k.(semas := k.semas[s := Semaphores.Down(k.semas[s], k.cur)]);
    var k2 := k1.(threads := k.threads[k.cur := th]);
    HoldsAt(k, s);
    DownPlaces(k, s, th);
    InNoOtherSema(k, k.cur, s);
    SemaChanged(k, k2, s, k.cur, th);
    ReadyUnmoved(k, k2, k.cur, th);
    SleepersUnmoved(k, k2, k.cur, th);
    if th.status == Blocked {
      LeftBy(k, k2, th);
      LeaveKeepsInv(k1, th);
    } else {
      StillRuns(k, k2, k.cur, th);
    }
  }

  lemma SameButSema(k: State, r: State, s: nat)
    requires Inv(k) && s in k.semas && s in r.semas && r == k.(semas := k.semas[s := r.semas[s]])
    requires Sound(r.semas[s]) && r.semas[s].waiters == k.semas[s].waiters && r.semas[s].woken == k.semas[s].woken
    ensures Inv(r)
  {
    hide QueueInv, Ordered, Sound;
    SameButSemaQueues(k, r, s);
  }

  lemma SameButSemaQueues(k: State, r: State, s: nat)
    requires QueueInv(k) && s in k.semas && s in r.semas && r == k.(semas := k.semas[s := r.semas[s]])
    requires Sound(r.semas[s]) && r.semas[s].waiters == k.semas[s].waiters && r.semas[s].woken == k.semas[s].woken
    ensures QueueInv(r)
  {
    hide Sound;
    forall t | t in r.threads ensures Placed(r, t) { assert Placed(k, t); }
    forall u | u in r.semas ensures Holds(r, u) { assert Holds(k, u) && Holds(k, s); }
  }

  lemma TryDownStep(k: State, s: nat)
    requires Inv(k) && Enabled(k, TryDown(s))
    ensures Inv(Next(k, TryDown(s)))
  {
    assert Holds(k, s);
    hide Inv;
    SameButSema(k, Next(k, TryDown(s)), s);
  }

  lemma UpPlaces(k: State, s: nat)
    requires Enabled(k, Up(s)) && Holds(k, s) && k.semas[s].waiters != []
    ensures var w, r := k.semas[s].waiters, Next(k, Up(s));
            && w[0] in k.threads && k.threads[w[0]] == Thread(Blocked, Retrying(s))
            && Holds(r, s) && Placed(r, w[0])
  {
    var w := k.semas[s].waiters;
    assert w[0] in w;
    UpKeepsSound(k.semas[s]);
    assert w[0] !in w[1..];
    hide Sound;
  }

  lemma BlockedFacts(k: State, t: Tid)
    requires ReadyInv(k) && RunningInv(k) && t in k.threads && k.threads[t].status == Blocked && k.threads[t].doing != Free
    ensures t != k.idle && t != k.cur && t !in k.freed
  {
  }

  lemma UpStep(k: State, s: nat)
    requires Inv(k) && Enabled(k, Up(s))
    ensures Inv(Next(k, Up(s)))
  {
    var w, r := k.semas[s].waiters, Next(k, Up(s));
    if w == [] {
      assert Holds(k, s);
      hide Inv;
      SameButSema(k, r, s);
    } else {
      hide Sound, Holds, Placed, ReadyInv, RunningInv, SleepInv, QueueInv;
      var th := Thread(Ready, Retrying(s));
      HoldsAt(k, s);
      UpPlaces(k, s);
      BlockedFacts(k, w[0]);
      InNoOtherSema(k, w[0], s);
      SemaChanged(k, r, s, w[0], th);
      ReadyExtended(k, r, w[0], th);
      SleepersUnmoved(k, r, w[0], th);
      StillRuns(k, r, w[0], th);
    }
  }

  // ---------------------------------------------------------------- the sleep queue

  lemma {:induction false} QueuedHolds(q: seq<Sleeper>, x: Sleeper, y: Sleeper)
    ensures y in Queued(q, x) <==> y == x || y in q
  {
    if q != [] && q[0].deadline <= x.deadline {
      QueuedHolds(q[1..], x, y);
      assert q == [q[0]] + q[1..];
    }
  }

  /** Inserting a thread that arrives last keeps the queue in order of deadline, with
      equal deadlines first come, first served. */
  lemma {:induction false} QueuedIsOrdered(q: seq<Sleeper>, x: Sleeper)
    requires Ordered(q) && forall y :: y in q ==> y.arrival < x.arrival && y.tid != x.tid
    ensures Ordered(Queued(q, x))
  {
    if q != [] && q[0].deadline <= x.deadline {
      QueuedIsOrdered(q[1..], x);
      var r := Queued(q[1..], x);
      forall i | 0 <= i < |r| ensures Before(q[0], r[i]) && q[0].tid != r[i].tid {
        assert r[i] in r;
        QueuedHolds(q[1..], x, r[i]);
        if r[i] != x { var j :| 0 <= j < |q[1..]| && q[1..][j] == r[i]; }
      }
    }
  }

  lemma SleepStep(k: State)
    requires Inv(k) && Enabled(k, Sleep)
    ensures Inv(Next(k, Sleep))
  {
    hide Sound, Holds, Ordered, ReadyInv, RunningInv, QueueInv, SleepInv, Left, Leave, Queued;
    var th := Thread(Blocked, Sleeping);
    var x := Sleeper(k.cur, k.threads[k.cur].doing.deadline, k.arrivals);
    var k1 := k.(sleepers := Queued(k.sleepers, x), arrivals := k.arrivals + 1);
    var k2 := k1.(threads := k.threads[k.cur := th]);
    CurFacts(k);
    assert OnlyThread(k, k2, k.cur, th);
    hide OnlyThread;
    ReadyUnmoved(k, k2, k.cur, th);
    QueuesUnmoved(k, k2, k.cur, th);
    SleeperAdded(k, k2, x);
    LeftBy(k, k2, th);
    LeaveKeepsInv(k1, th);
  }

  lemma SleeperAdded(k: State, r: State, x: Sleeper)
    requires SleepInv(k) && r.threads == k.threads[x.tid := Thread(Blocked, Sleeping)]
    requires x.tid in k.threads && k.threads[x.tid].doing != Sleeping && x.arrival == k.arrivals
    requires r.sleepers == Queued(k.sleepers, x) && r.arrivals == k.arrivals + 1
    ensures SleepInv(r)
  {
    hide Queued, Ordered;
    QueuedIsOrdered(k.sleepers, x);
    forall y: Sleeper ensures y in r.sleepers <==> y == x || y in k.sleepers { QueuedHolds(k.sleepers, x, y); }
    assert x in r.sleepers;
  }

  /** One turn of the loop in timer_interrupt. */
  lemma WakeOne(k: State)
    requires Inv(k) && k.sleepers != []
    ensures Inv(Unblock(k, k.sleepers[0].tid, Free).(sleepers := k.sleepers[1..]))
  {
    var x := k.sleepers[0];
    var th := Thread(Ready, Free);
    var r := Unblock(k, x.tid, Free).(sleepers := k.sleepers[1..]);
    assert x in k.sleepers && Placed(k, x.tid) && x.tid != k.idle && x.tid != k.cur && x.tid !in k.freed;
    hide ReadyInv, RunningInv, QueueInv, SleepInv;
    ReadyExtended(k, r, x.tid, th);
    QueuesUnmoved(k, r, x.tid, th);
    SleeperRemoved(k, r);
    StillRuns(k, r, x.tid, th);
  }

  lemma SleeperRemoved(k: State, r: State)
    requires SleepInv(k) && k.sleepers != [] && r.sleepers == k.sleepers[1..] && r.arrivals == k.arrivals
    requires r.threads == k.threads[k.sleepers[0].tid := Thread(Ready, Free)]
    ensures SleepInv(r)
  {
    var q := k.sleepers;
    assert q == [q[0]] + q[1..];
    forall t | t in r.threads && r.threads[t].doing == Sleeping ensures exists y :: y in r.sleepers && y.tid == t {
      var y :| y in q && y.tid == t;
      assert y in q[1..];
    }
  }

  lemma {:induction false} WakeKeepsInv(k: State)
    requires Inv(k)
    ensures Inv(Wake(k))
    decreases |k.sleepers|
  {
    if k.sleepers != [] && k.sleepers[0].deadline <= k.ticks {
      hide Inv;
      WakeOne(k);
      WakeKeepsInv(Unblock(k, k.sleepers[0].tid, Free).(sleepers := k.sleepers[1..]));
    }
  }

  lemma TickStep(k: State)
    requires Inv(k) && Enabled(k, Tick)
    ensures Inv(Next(k, Tick))
  {
    hide Inv, Wake;
    TicksDoNotMatter(k);
    WakeKeepsInv(k.(ticks := k.ticks + 1));
  }

  lemma TicksDoNotMatter(k: State)
    requires Inv(k)
    ensures Inv(k.(ticks := k.ticks + 1))
  {
    hide Sound, Ordered, QueueInv;
    assert QueueInv(k.(ticks := k.ticks + 1)) by { TicksDoNotMatterToQueues(k); }
  }

  lemma TicksDoNotMatterToQueues(k: State)
    requires QueueInv(k)
    ensures QueueInv(k.(ticks := k.ticks + 1))
  {
    hide Sound;
    var r := k.(ticks := k.ticks + 1);
    forall t | t in r.threads ensures Placed(r, t) { assert Placed(k, t); }
    forall s | s in r.semas ensures Holds(r, s) { assert Holds(k, s); }
  }

  // ---------------------------------------------------------------- every run

  /** `acts` is a run of the machine from `k` to `r`. */
  ghost predicate Runs(k: State, acts: seq<Action>, r: State)
    decreases |acts|
  {
    if acts == [] then r == k else Enabled(k, acts[0]) && Runs(Next(k, acts[0]), acts[1..], r)
  }

  lemma StepKeepsInv(k: State, a: Action)
    requires Inv(k) && Enabled(k, a)
    ensures Inv(Next(k, a))
  {
    hide Inv, Next;
    match a
    case Down(s) => DownStep(k, s);
    case TryDown(s) => TryDownStep(k, s);
    case Up(s) => UpStep(k, s);
    case Yield => YieldStep(k);
    case Exit => ExitStep(k);
    case Create(t) => CreateStep(k, t);
    case Start(t) => StartStep(k, t);
    case SetAlarm(n) => AlarmStep(k, n);
    case Sleep => SleepStep(k);
    case Tick => TickStep(k);
    case IdleBlock => IdleStep(k);
  }

  lemma {:induction false} RunKeepsInv(k: State, acts: seq<Action>, r: State)
    requires Inv(k) && Runs(k, acts, r)
    ensures Inv(r)
    decreases |acts|
  {
    hide Inv, Next, Enabled;
    if acts != [] {
      StepKeepsInv(k, acts[0]);
      RunKeepsInv(Next(k, acts[0]), acts[1..], r);
    }
  }

  /** The queues that a thread's list element can be linked into. */
  datatype Queue = ReadyList | Waiters(sema: nat) | SleepList

  ghost predicate Linked(k: State, t: Tid, q: Queue) {
    match q
    case ReadyList => t in k.ready
    case Waiters(s) => s in k.semas && t in k.semas[s].waiters
    case SleepList => exists x :: x in k.sleepers && x.tid == t
  }

  /** In every state of every run exactly one thread is running, the ready list holds
      exactly the ready threads other than the idle one, no list element is in two
      queues, no thread but the initial one stays dying without being freed, and no
      freed thread is current, known or queued anywhere. */
  lemma SafeInEveryRun(k: State, acts: seq<Action>, r: State)
    requires Init(k) && Runs(k, acts, r)
    ensures r.cur in r.threads && forall t :: t in r.threads ==> (r.threads[t].status == Running <==> t == r.cur)
    ensures Distinct(r.ready)
    ensures forall t :: t in r.ready <==> t in r.threads && r.threads[t].status == Ready && t != r.idle
    ensures forall t, p, q :: Linked(r, t, p) && Linked(r, t, q) ==> p == q
    ensures forall t :: t in r.threads && r.threads[t].status == Dying ==> t == r.initial
    ensures Distinct(r.freed) && r.initial !in r.freed
    ensures forall t, q :: t in r.freed ==> t != r.cur && t !in r.threads && !Linked(r, t, q)
  {
    InitInv(k);
    RunKeepsInv(k, acts, r);
    forall t, q | Linked(r, t, q) ensures t in r.threads && r.threads[t] == LinkedAs(r, t, q) {
      LinkedThread(r, t, q);
    }
    hide QueueInv, SleepInv, Linked;
  }

  /** A thread that exits is freed by the switch away from it, unless it is the initial one. */
  lemma ExitFrees(k: State, acts: seq<Action>, r: State)
    requires Init(k) && Runs(k, acts, r) && Enabled(r, Exit)
    ensures var n := Next(r, Exit);
      if r.cur == r.initial then n.freed == r.freed && r.cur in n.threads
      else n.freed == r.freed + [r.cur] && r.cur !in r.freed && r.cur !in n.threads
  {
    hide Runs, Inv, Next, Enabled;
    InitInv(k);
    RunKeepsInv(k, acts, r);
    ExitReaps(r);
  }

  lemma ExitReaps(k: State)
    requires Inv(k) && Enabled(k, Exit)
    ensures var n := Next(k, Exit);
      if k.cur == k.initial then n.freed == k.freed && k.cur in n.threads
      else n.freed == k.freed + [k.cur] && k.cur !in k.freed && k.cur !in n.threads
  {
    hide QueueInv, SleepInv, Linked, Placed;
  }

  /** A linked thread's status and activity tell which queue it is in. */
  ghost function LinkedAs(k: State, t: Tid, q: Queue): (th: Thread)
    requires t in k.threads
  {
    match q
    case ReadyList => Thread(Ready, k.threads[t].doing)
    case Waiters(s) => Thread(Blocked, Retrying(s))
    case SleepList => Thread(Blocked, Sleeping)
  }

  lemma LinkedThread(k: State, t: Tid, q: Queue)
    requires Inv(k) && Linked(k, t, q)
    ensures t in k.threads && k.threads[t] == LinkedAs(k, t, q)
  {
    hide Sound, Ordered;
    match q
    case ReadyList =>
    case Waiters(s) => assert Holds(k, s);
    case SleepList =>
      var x :| x in k.sleepers && x.tid == t;
      assert Placed(k, t);
  }

  /** How often semaphore s is upped in a run, and how often a down or try-down gets through. */
  function Ups(acts: seq<Action>, s: nat): (n: nat) {
    if acts == [] then 0 else (if acts[0] == Up(s) then 1 else 0) + Ups(acts[1..], s)
  }

  predicate Passes(k: State, a: Action, s: nat) {
    (a == Down(s) || a == TryDown(s)) && s in k.semas && k.semas[s].value > 0
  }

  ghost function Passed(k: State, acts: seq<Action>, r: State, s: nat): (n: nat)
    requires Runs(k, acts, r)
    decreases |acts|
  {
    if acts == [] then 0
    else (if Passes(k, acts[0], s) then 1 else 0) + Passed(Next(k, acts[0]), acts[1..], r, s)
  }

  lemma LeaveSemas(k: State, self: Thread)
    ensures Leave(k, self).semas == k.semas
  {
  }

  /** What a step does to one semaphore. */
  lemma NextSema(k: State, a: Action, s: nat)
    requires Enabled(k, a) && s in k.semas
    ensures s in Next(k, a).semas
    ensures Next(k, a).semas[s] ==
      if a == Down(s) then Semaphores.Down(k.semas[s], k.cur)
      else if a == TryDown(s) then Semaphores.TryDown(k.semas[s])
      else if a == Up(s) then Semaphores.Up(k.semas[s]) else k.semas[s]
  {
    hide Wake, Queued, Leave, Semaphores.Down, Semaphores.TryDown, Semaphores.Up;
    match a
    case Tick => WakeOnlyAppends(k.(ticks := k.ticks + 1));
    case Down(x) => LeaveSemas(k.(semas := k.semas[x := Semaphores.Down(k.semas[x], k.cur)]), Thread(Blocked, Retrying(x)));
    case Yield => LeaveSemas(if k.cur == k.idle then k else k.(ready := k.ready + [k.cur]), Thread(Ready, k.threads[k.cur].doing));
    case Exit => LeaveSemas(k, Thread(Dying, Free));
    case Sleep =>
      LeaveSemas(k.(sleepers := Queued(k.sleepers, Sleeper(k.cur, k.threads[k.cur].doing.deadline, k.arrivals)), arrivals := k.arrivals + 1),
                 Thread(Blocked, Sleeping));
    case IdleBlock => LeaveSemas(k, Thread(Blocked, Free));
    case _ =>
  }

  lemma StepCounts(k: State, a: Action, s: nat)
    requires Enabled(k, a) && s in k.semas
    ensures s in Next(k, a).semas
    ensures Next(k, a).semas[s].value == k.semas[s].value + (if a == Up(s) then 1 else 0) - (if Passes(k, a, s) then 1 else 0)
  {
    NextSema(k, a, s);
    hide Next, Enabled;
  }

  lemma {:induction false} RunCounts(k: State, acts: seq<Action>, r: State, s: nat)
    requires Runs(k, acts, r) && s in k.semas
    ensures s in r.semas && r.semas[s].value == k.semas[s].value + Ups(acts, s) - Passed(k, acts, r, s)
    decreases |acts|
  {
    hide Next, Enabled, Passes;
    if acts != [] {
      StepCounts(k, acts[0], s);
      RunCounts(Next(k, acts[0]), acts[1..], r, s);
    }
  }

  /** In every state of every run each semaphore's value is its initial value plus the
      ups minus the downs that got through; and if a thread waits although the value is
      positive, some thread that is not blocked is about to look at the value again. */
  lemma SemaphoresInEveryRun(k: State, acts: seq<Action>, r: State, s: nat)
    requires Init(k) && Runs(k, acts, r) && s in k.semas
    ensures s in r.semas && r.semas[s].value == k.semas[s].initial + Ups(acts, s) - Passed(k, acts, r, s)
    ensures var v := r.semas[s]; v.waiters != [] ==> v.value <= |v.woken|
    ensures forall t :: t in r.semas[s].woken <==> t in r.threads && r.threads[t].status != Blocked && r.threads[t].doing == Retrying(s)
    ensures forall t :: t in r.semas[s].waiters <==> t in r.threads && r.threads[t].status == Blocked && r.threads[t].doing == Retrying(s)
  {
    RunCounts(k, acts, r, s);
    InitInv(k);
    RunKeepsInv(k, acts, r);
    assert Holds(r, s);
    hide Passed, Ups, Runs;
    forall t | t in r.threads ensures Placed(r, t) { }
  }

  /** sema_down lets its caller through when the value is positive, and else puts it to sleep behind those who wait. */
  lemma DownPassesOrWaits(k: State, acts: seq<Action>, r: State, s: nat)
    requires Init(k) && Runs(k, acts, r) && Enabled(r, Down(s))
    ensures var n := Next(r, Down(s));
      && s in n.semas
      && if r.semas[s].value > 0 then
           n.cur == r.cur && n.threads == r.threads[r.cur := Thread(Running, Free)] && n.semas[s].waiters == r.semas[s].waiters
         else
           && n.cur != r.cur && r.cur in n.threads && n.threads[r.cur] == Thread(Blocked, Retrying(s))
           && n.semas[s].waiters == r.semas[s].waiters + [r.cur]
  {
    InitInv(k);
    RunKeepsInv(k, acts, r);
    hide QueueInv, SleepInv;
  }

  lemma StepKeepsPlace(k: State, a: Action, s: nat, i: nat)
    requires Enabled(k, a) && s in k.semas && i < |k.semas[s].waiters|
    ensures var r, w := Next(k, a), k.semas[s].waiters;
      && s in r.semas
      && if a != Up(s) then i < |r.semas[s].waiters| && r.semas[s].waiters[i] == w[i]
         else if i == 0 then r.ready == k.ready + [w[0]] && r.semas[s].waiters == w[1..]
         else i - 1 < |r.semas[s].waiters| && r.semas[s].waiters[i - 1] == w[i]
  {
    NextSema(k, a, s);
    if a == Up(s) { UpReadies(k, s); }
    hide Next, Enabled;
  }

  lemma UpReadies(k: State, s: nat)
    requires Enabled(k, Up(s)) && k.semas[s].waiters != []
    ensures Next(k, Up(s)).ready == k.ready + [k.semas[s].waiters[0]]
  {
  }

  lemma {:induction false} RunKeepsPlace(k: State, acts: seq<Action>, r: State, s: nat, i: nat)
    requires Runs(k, acts, r) && s in k.semas && i < |k.semas[s].waiters| && Ups(acts, s) <= i
    ensures var j := i - Ups(acts, s); s in r.semas && j < |r.semas[s].waiters| && r.semas[s].waiters[j] == k.semas[s].waiters[i]
    decreases |acts|
  {
    hide Next, Enabled;
    if acts != [] {
      StepKeepsPlace(k, acts[0], s, i);
      RunKeepsPlace(Next(k, acts[0]), acts[1..], r, s, if acts[0] == Up(s) then i - 1 else i);
    }
  }

  /** Semaphores are first come, first served: however a run goes on, the thread at place i of the waiters sleeps there
      through i ups of that semaphore, and the next one puts it on the ready list. */
  lemma WaitersInOrder(k: State, acts: seq<Action>, m: State, s: nat, i: nat, after: seq<Action>, r: State)
    requires Init(k) && Runs(k, acts, m) && s in m.semas && i < |m.semas[s].waiters| && Runs(m, after, r) && Ups(after, s) <= i
    ensures var t := m.semas[s].waiters[i]; t in r.threads && r.threads[t] == Thread(Blocked, Retrying(s))
    ensures Ups(after, s) == i && Enabled(r, Up(s)) ==>
      var t, n := m.semas[s].waiters[i], Next(r, Up(s));
      n.ready == r.ready + [t] && t in n.threads && n.threads[t] == Thread(Ready, Retrying(s)) && s in n.semas && t !in n.semas[s].waiters
  {
    hide Runs, Inv, Init, Next, Enabled;
    InitInv(k);
    RunKeepsInv(k, acts, m);
    RunKeepsInv(m, after, r);
    RunKeepsPlace(m, after, r, s, i);
    var t, j := m.semas[s].waiters[i], i - Ups(after, s);
    assert t in r.semas[s].waiters;
    LinkedThread(r, t, Waiters(s));
    if j == 0 && Enabled(r, Up(s)) {
      StepKeepsPlace(r, Up(s), s, 0);
      UpMakesReady(r, s);
    }
  }

  lemma UpMakesReady(k: State, s: nat)
    requires Inv(k) && Enabled(k, Up(s)) && k.semas[s].waiters != []
    ensures var n, t := Next(k, Up(s)), k.semas[s].waiters[0];
      t in n.threads && n.threads[t] == Thread(Ready, Retrying(s)) && s in n.semas && t !in n.semas[s].waiters
  {
    HoldsAt(k, s);
    hide Inv;
    assert k.semas[s].waiters[0] !in k.semas[s].waiters[1..];
  }

  // ---------------------------------------------------------------- round robin

  /** The steps that end in `schedule`. */
  predicate Switches(k: State, a: Action)
    requires Enabled(k, a)
  {
    match a
    case Down(s) => k.semas[s].value == 0
    case Yield => true
    case Exit => true
    case Sleep => true
    case IdleBlock => true
    case _ => false
  }

  ghost function Dispatches(k: State, acts: seq<Action>, r: State): (n: nat)
    requires Runs(k, acts, r)
    decreases |acts|
  {
    if acts == [] then 0
    else (if Switches(k, acts[0]) then 1 else 0) + Dispatches(Next(k, acts[0]), acts[1..], r)
  }

  lemma {:induction false} WakeOnlyAppends(k: State)
    ensures k.ready <= Wake(k).ready && Wake(k).cur == k.cur && Wake(k).ticks == k.ticks && Wake(k).semas == k.semas
    decreases |k.sleepers|
  {
    if k.sleepers != [] && k.sleepers[0].deadline <= k.ticks {
      WakeOnlyAppends(Unblock(k, k.sleepers[0].tid, Free).(sleepers := k.sleepers[1..]));
    }
  }

  /** A step moves every ready thread up by one place if it dispatches, and lets it
      keep its place otherwise; the one in front is dispatched. */
  lemma StepAdvances(k: State, a: Action, i: nat)
    requires Enabled(k, a) && i < |k.ready|
    ensures var r := Next(k, a);
            if !Switches(k, a) then i < |r.ready| && r.ready[i] == k.ready[i]
            else if i == 0 then r.cur == k.ready[0]
            else i - 1 < |r.ready| && r.ready[i - 1] == k.ready[i]
  {
    hide Wake, Queued, Leave;
    match a
    case Tick => WakeOnlyAppends(k.(ticks := k.ticks + 1));
    case Down(s) => LeaveAdvances(k.(semas := k.semas[s := Semaphores.Down(k.semas[s], k.cur)]), Thread(Blocked, Retrying(s)), i);
    case Yield => LeaveAdvances(if k.cur == k.idle then k else k.(ready := k.ready + [k.cur]), Thread(Ready, k.threads[k.cur].doing), i);
    case Exit => LeaveAdvances(k, Thread(Dying, Free), i);
    case Sleep =>
      LeaveAdvances(k.(sleepers := Queued(k.sleepers, Sleeper(k.cur, k.threads[k.cur].doing.deadline, k.arrivals)), arrivals := k.arrivals + 1),
                    Thread(Blocked, Sleeping), i);
    case IdleBlock => LeaveAdvances(k, Thread(Blocked, Free), i);
    case _ =>
  }

  lemma LeaveAdvances(k: State, self: Thread, i: nat)
    requires i < |k.ready|
    ensures var r := Leave(k, self);
            if i == 0 then r.cur == k.ready[0] else i - 1 < |r.ready| && r.ready[i - 1] == k.ready[i]
  {
  }

  /** First come, first served: however a run goes on, the thread at place `i` of the
      ready list is the one that runs after exactly `i` other dispatches. */
  lemma {:induction false} RoundRobin(k: State, acts: seq<Action>, r: State, i: nat, a: Action)
    requires i < |k.ready| && Runs(k, acts, r) && Dispatches(k, acts, r) == i
    requires Enabled(r, a) && Switches(r, a)
    ensures Next(r, a).cur == k.ready[i]
    decreases |acts|
  {
    hide Next, Enabled, Switches;
    if acts == [] {
      StepAdvances(k, a, i);
    } else {
      StepAdvances(k, acts[0], i);
      RoundRobin(Next(k, acts[0]), acts[1..], r, if Switches(k, acts[0]) then i - 1 else i, a);
    }
  }

  // ---------------------------------------------------------------- sleeping

  function Due(q: seq<Sleeper>, now: int): (r: seq<Tid>) {
    if q == [] then [] else (if q[0].deadline <= now then [q[0].tid] else []) + Due(q[1..], now)
  }

  function NotDue(q: seq<Sleeper>, now: int): (r: seq<Sleeper>) {
    if q == [] then [] else (if q[0].deadline <= now then [] else [q[0]]) + NotDue(q[1..], now)
  }

  lemma {:induction false} NoneDue(q: seq<Sleeper>, now: int)
    requires forall x :: x in q ==> now < x.deadline
    ensures Due(q, now) == [] && NotDue(q, now) == q
  {
    if q != [] {
      assert q[0] in q;
      NoneDue(q[1..], now);
    }
  }

  /** Looking at the front of the ordered queue only does what looking at every
      sleeper would do: exactly the due ones are woken, in order of deadline. */
  lemma {:induction false} FrontCheckSuffices(k: State)
    requires Ordered(k.sleepers)
    ensures Wake(k).sleepers == NotDue(k.sleepers, k.ticks)
    ensures Wake(k).ready == k.ready + Due(k.sleepers, k.ticks)
    decreases |k.sleepers|
  {
    if k.sleepers != [] {
      if k.sleepers[0].deadline <= k.ticks {
        FrontCheckSuffices(Unblock(k, k.sleepers[0].tid, Free).(sleepers := k.sleepers[1..]));
      } else {
        NoneDue(k.sleepers, k.ticks);
      }
    }
  }

  lemma {:induction false} NotDueHolds(q: seq<Sleeper>, now: int, x: Sleeper)
    ensures x in NotDue(q, now) <==> x in q && now < x.deadline
  {
    if q != [] {
      NotDueHolds(q[1..], now, x);
    }
  }

  /** After every timer interrupt of every run nobody who is due is left in the queue,
      and everybody who was due is ready. */
  lemma TickWakesTheDue(k: State, acts: seq<Action>, r: State)
    requires Init(k) && Runs(k, acts, r) && Enabled(r, Tick)
    ensures var n := Next(r, Tick);
            && (forall x :: x in n.sleepers <==> x in r.sleepers && n.ticks < x.deadline)
            && n.ready == r.ready + Due(r.sleepers, n.ticks)
  {
    hide Next, Inv, Due, Enabled;
    InitInv(k);
    RunKeepsInv(k, acts, r);
    SleepersOrdered(r);
    TickWakes(r);
  }

  lemma SleepersOrdered(k: State)
    requires Inv(k)
    ensures Ordered(k.sleepers)
  {
  }

  lemma NextIsWake(k: State)
    requires Enabled(k, Tick)
    ensures Next(k, Tick) == Wake(k.(ticks := k.ticks + 1))
  {
    hide Wake;
  }

  lemma TickWakes(k: State)
    requires Ordered(k.sleepers) && Enabled(k, Tick)
    ensures var n := Next(k, Tick);
            && (forall x :: x in n.sleepers <==> x in k.sleepers && n.ticks < x.deadline)
            && n.ready == k.ready + Due(k.sleepers, n.ticks)
  {
    hide Wake, Due, NotDue, Ordered, Next, Enabled;
    var k1 := k.(ticks := k.ticks + 1);
    NextIsWake(k);
    FrontCheckSuffices(k1);
    WakeOnlyAppends(k1);
    forall x: Sleeper ensures x in NotDue(k.sleepers, k1.ticks) <==> x in k.sleepers && k1.ticks < x.deadline {
      NotDueHolds(k.sleepers, k1.ticks, x);
    }
  }

  /** `t` has called timer_sleep with deadline `d` and has not been woken since. */
  ghost predicate Asleep(k: State, t: Tid, d: int) {
    && t in k.threads
    && match k.threads[t].doing
       case Napping(e) => e == d
       case Sleeping => exists x :: x in k.sleepers && x.tid == t && x.deadline == d
       case _ => false
  }

  lemma LeaveDoing(k: State, self: Thread, t: Tid)
    requires t in k.threads && (t == k.cur ==> self.status != Dying)
    ensures var r := Leave(k, self);
            && r.sleepers == k.sleepers && r.ticks == k.ticks
            && t in r.threads && r.threads[t].doing == if t == k.cur then self.doing else k.threads[t].doing
  {
  }

  /** Only the timer and its own queueing change what a sleeper is doing. */
  lemma StepKeepsDoing(k: State, a: Action, t: Tid)
    requires Inv(k) && Enabled(k, a) && a != Tick && t in k.threads
    requires k.threads[t].doing.Napping? || k.threads[t].doing.Sleeping?
    requires t == k.cur ==> a != Sleep
    ensures var r := Next(k, a);
            && t in r.threads && r.threads[t].doing == k.threads[t].doing && r.ticks == k.ticks
            && r.sleepers == (if a == Sleep then Queued(k.sleepers, Sleeper(k.cur, k.threads[k.cur].doing.deadline, k.arrivals)) else k.sleepers)
  {
    hide Inv, Sound, Ordered, Queued, Leave;
    match a
    case Down(s) => LeaveDoing(k.(semas := k.semas[s := Semaphores.Down(k.semas[s], k.cur)]), Thread(Blocked, Retrying(s)), t);
    case Up(s) => assert k.semas[s].waiters != [] ==> k.semas[s].waiters[0] != t by { NotAWaiter(k, s, t); }
    case Yield => LeaveDoing(if k.cur == k.idle then k else k.(ready := k.ready + [k.cur]), Thread(Ready, k.threads[k.cur].doing), t);
    case Exit => LeaveDoing(k, Thread(Dying, Free), t);
    case Sleep =>
      LeaveDoing(k.(sleepers := Queued(k.sleepers, Sleeper(k.cur, k.threads[k.cur].doing.deadline, k.arrivals)), arrivals := k.arrivals + 1),
                 Thread(Blocked, Sleeping), t);
    case IdleBlock =>
      CurFacts(k);
      LeaveDoing(k, Thread(Blocked, Free), t);
    case _ =>
  }

  lemma NotAWaiter(k: State, s: nat, t: Tid)
    requires Inv(k) && s in k.semas && t in k.threads && !k.threads[t].doing.Retrying?
    ensures t !in k.semas[s].waiters
  {
    assert Holds(k, s);
  }

  lemma {:induction false} WakeKeepsAsleep(k: State, t: Tid, d: int)
    requires Ordered(k.sleepers) && Asleep(k, t, d)
    requires k.threads[t].doing.Napping? ==> forall x :: x in k.sleepers ==> x.tid != t
    ensures Asleep(Wake(k), t, d) || d <= k.ticks
    decreases |k.sleepers|
  {
    if k.sleepers != [] && k.sleepers[0].deadline <= k.ticks {
      var q := k.sleepers;
      assert q[0] in q && q == [q[0]] + q[1..];
      if q[0].tid == t {
        var x :| x in q && x.tid == t && x.deadline == d;
        assert x == q[0];
      } else {
        WakeKeepsAsleep(Unblock(k, q[0].tid, Free).(sleepers := q[1..]), t, d);
      }
    }
  }

  lemma StepKeepsAsleep(k: State, a: Action, t: Tid, d: int)
    requires Inv(k) && Enabled(k, a) && Asleep(k, t, d)
    ensures var r := Next(k, a); r.ticks >= k.ticks && (Asleep(r, t, d) || d <= r.ticks)
  {
    if a == Tick {
      var k1 := k.(ticks := k.ticks + 1);
      assert Asleep(k1, t, d);
      WakeOnlyAppends(k1);
      hide Wake, ReadyInv, RunningInv, QueueInv;
      WakeKeepsAsleep(k1, t, d);
    } else if a == Sleep && t == k.cur {
      SleepQueues(k, t, d);
    } else {
      hide Inv, Next, Enabled;
      StepKeepsDoing(k, a, t);
      if a == Sleep && k.threads[t].doing == Sleeping {
        var x :| x in k.sleepers && x.tid == t && x.deadline == d;
        QueuedHolds(k.sleepers, Sleeper(k.cur, k.threads[k.cur].doing.deadline, k.arrivals), x);
      }
    }
  }

  lemma SleepQueues(k: State, t: Tid, d: int)
    requires Inv(k) && Enabled(k, Sleep) && t == k.cur && k.threads[t].doing == Napping(d)
    ensures Asleep(Next(k, Sleep), t, d) && Next(k, Sleep).ticks == k.ticks
  {
    hide Queued, QueueInv, SleepInv;
    var x := Sleeper(k.cur, d, k.arrivals);
    QueuedHolds(k.sleepers, x, x);
    var r := Next(k, Sleep);
    assert x in r.sleepers;
    assert t in r.threads && r.threads[t].doing == Sleeping;
  }

  /** Nobody wakes early: a thread that set its alarm `n` ticks ahead is, at any later
      point of the run, still asleep or `n` ticks have passed. */
  lemma NobodyWakesEarly(s: State, before: seq<Action>, k: State, n: int, acts: seq<Action>, r: State)
    requires Init(s) && Runs(s, before, k) && Enabled(k, SetAlarm(n)) && Runs(Next(k, SetAlarm(n)), acts, r)
    ensures Asleep(r, k.cur, k.ticks + n) || k.ticks + n <= r.ticks
  {
    hide Runs, Inv, Next, Enabled, Asleep;
    InitInv(s);
    RunKeepsInv(s, before, k);
    AsleepUntilDue(k, n, acts, r);
  }

  lemma AsleepUntilDue(k: State, n: int, acts: seq<Action>, r: State)
    requires Inv(k) && Enabled(k, SetAlarm(n)) && Runs(Next(k, SetAlarm(n)), acts, r)
    ensures Asleep(r, k.cur, k.ticks + n) || k.ticks + n <= r.ticks
  {
    hide Runs;
    var k1 := Next(k, SetAlarm(n));
    AlarmStep(k, n);
    hide Inv;
    assert Asleep(k1, k.cur, k.ticks + n);
    AsleepOverRun(k1, acts, r, k.cur, k.ticks + n);
  }

  lemma {:induction false} AsleepOverRun(k: State, acts: seq<Action>, r: State, t: Tid, d: int)
    requires Inv(k) && Runs(k, acts, r) && (Asleep(k, t, d) || d <= k.ticks)
    ensures Asleep(r, t, d) || d <= r.ticks
    decreases |acts|
  {
    if acts != [] {
      StepKeepsInv(k, acts[0]);
      TicksGrow(k, acts[0]);
      hide Inv, Next, Asleep;
      if Asleep(k, t, d) { StepKeepsAsleep(k, acts[0], t, d); }
      AsleepOverRun(Next(k, acts[0]), acts[1..], r, t, d);
    }
  }

  lemma TicksGrow(k: State, a: Action)
    requires Enabled(k, a)
    ensures Next(k, a).ticks >= k.ticks
  {
    if a == Tick { WakeOnlyAppends(k.(ticks := k.ticks + 1)); }
    hide Wake, Queued;
  }

  /** t sleeps in the queue with deadline d. */
  ghost predicate Dozes(k: State, t: Tid, d: int) {
    t in k.threads && k.threads[t] == Thread(Blocked, Sleeping) && exists x :: x in k.sleepers && x.tid == t && x.deadline == d
  }

  lemma DozesWhenAsleep(k: State, t: Tid, d: int)
    requires Inv(k) && Asleep(k, t, d) && k.threads[t].doing == Sleeping
    ensures Dozes(k, t, d)
  {
    hide ReadyInv, RunningInv, SleepInv, Holds;
    assert Placed(k, t);
  }

  lemma SleepPutsToSleep(k: State)
    requires Inv(k) && Enabled(k, Sleep)
    ensures Dozes(Next(k, Sleep), k.cur, k.threads[k.cur].doing.deadline)
  {
    var t, d := k.cur, k.threads[k.cur].doing.deadline;
    SleepStep(k);
    SleepQueues(k, t, d);
    LeaveDoing(k.(sleepers := Queued(k.sleepers, Sleeper(t, d, k.arrivals)), arrivals := k.arrivals + 1), Thread(Blocked, Sleeping), t);
    hide Inv, Leave, Queued;
    DozesWhenAsleep(Next(k, Sleep), t, d);
  }

  lemma StepDozes(k: State, a: Action, t: Tid, d: int)
    requires Inv(k) && Enabled(k, a) && Dozes(k, t, d) && (a == Tick ==> k.ticks + 1 < d)
    ensures Dozes(Next(k, a), t, d)
  {
    hide Inv, Next;
    var r := Next(k, a);
    assert k.threads[t].doing == Sleeping && t != k.cur by { SleeperDoesNotRun(k, t); }
    StepKeepsInv(k, a);
    if a == Tick {
      TickDozes(k, t, d);
    } else {
      StepKeepsDoing(k, a, t);
      var x :| x in k.sleepers && x.tid == t && x.deadline == d;
      if a == Sleep { QueuedHolds(k.sleepers, Sleeper(k.cur, k.threads[k.cur].doing.deadline, k.arrivals), x); }
      assert x in r.sleepers;
      DozesWhenAsleep(r, t, d);
    }
  }

  lemma SleeperDoesNotRun(k: State, t: Tid)
    requires Inv(k) && t in k.threads && k.threads[t].status == Blocked
    ensures t != k.cur
  {
  }

  lemma TickDozes(k: State, t: Tid, d: int)
    requires Inv(k) && Enabled(k, Tick) && Dozes(k, t, d) && k.ticks + 1 < d
    ensures Dozes(Next(k, Tick), t, d)
  {
    hide Inv, Next, Enabled, Due;
    SleepersOrdered(k);
    TickStep(k);
    TickWakes(k);
    NextIsWake(k);
    WakeOnlyAppends(k.(ticks := k.ticks + 1));
    var x :| x in k.sleepers && x.tid == t && x.deadline == d;
    var n := Next(k, Tick);
    assert x in n.sleepers && Linked(n, t, SleepList);
    LinkedThread(n, t, SleepList);
  }

  lemma {:induction false} RunDozes(k: State, acts: seq<Action>, r: State, t: Tid, d: int)
    requires Inv(k) && Runs(k, acts, r) && Dozes(k, t, d) && (r.ticks < d || Tick !in acts)
    ensures Dozes(r, t, d)
    decreases |acts|
  {
    hide Inv, Next, Enabled, Dozes;
    if acts != [] {
      StepKeepsInv(k, acts[0]);
      if acts[0] == Tick {
        NextIsWake(k);
        WakeOnlyAppends(k.(ticks := k.ticks + 1));
        TicksGrowOver(Next(k, acts[0]), acts[1..], r);
      }
      StepDozes(k, acts[0], t, d);
      RunDozes(Next(k, acts[0]), acts[1..], r, t, d);
    }
  }

  lemma {:induction false} TicksGrowOver(k: State, acts: seq<Action>, r: State)
    requires Runs(k, acts, r)
    ensures r.ticks >= k.ticks
    decreases |acts|
  {
    hide Next, Enabled;
    if acts != [] {
      TicksGrow(k, acts[0]);
      TicksGrowOver(Next(k, acts[0]), acts[1..], r);
    }
  }

  lemma {:induction false} DueHolds(q: seq<Sleeper>, now: int, x: Sleeper)
    requires x in q && x.deadline <= now
    ensures x.tid in Due(q, now)
  {
    if q[0] != x { DueHolds(q[1..], now, x); }
  }

  /** A sleeper wakes on time: from the end of timer_sleep's first half it is blocked and queued until the first timer
      interrupt that finds its deadline reached, and that one puts it on the ready list. */
  lemma SleepersWakeOnTime(k: State, acts: seq<Action>, m: State, after: seq<Action>, r: State)
    requires Init(k) && Runs(k, acts, m) && Enabled(m, Sleep) && Runs(Next(m, Sleep), after, r)
    requires r.ticks < m.threads[m.cur].doing.deadline || Tick !in after
    ensures var t, d := m.cur, m.threads[m.cur].doing.deadline;
      && Dozes(r, t, d)
      && (Enabled(r, Tick) ==>
            if r.ticks + 1 < d then Dozes(Next(r, Tick), t, d) else t in Next(r, Tick).ready)
  {
    var t, d := m.cur, m.threads[m.cur].doing.deadline;
    hide Runs, Inv, Init, Next, Dozes;
    InitInv(k);
    RunKeepsInv(k, acts, m);
    StepKeepsInv(m, Sleep);
    SleepPutsToSleep(m);
    RunKeepsInv(Next(m, Sleep), after, r);
    RunDozes(Next(m, Sleep), after, r, t, d);
    if Enabled(r, Tick) {
      if r.ticks + 1 < d { StepDozes(r, Tick, t, d); } else { TickMakesReady(r, t, d); }
    }
  }

  lemma TickMakesReady(k: State, t: Tid, d: int)
    requires Inv(k) && Enabled(k, Tick) && Dozes(k, t, d) && d <= k.ticks + 1
    ensures t in Next(k, Tick).ready
  {
    hide Inv, Next, Enabled, Due;
    SleepersOrdered(k);
    TickWakes(k);
    NextIsWake(k);
    WakeOnlyAppends(k.(ticks := k.ticks + 1));
    var x :| x in k.sleepers && x.tid == t && x.deadline == d;
    DueHolds(k.sleepers, k.ticks + 1, x);
  }

  // ---------------------------------------------------------------- who runs

  /** The threads that a step makes ready, in order. */
  function Joining(k: State, a: Action): (q: seq<Tid>)
    requires Enabled(k, a)
  {
    match a
    case Up(s) => if k.semas[s].waiters == [] then [] else [k.semas[s].waiters[0]]
    case Start(t) => [t]
    case Yield => if k.cur == k.idle then [] else [k.cur]
    case Tick => Due(k.sleepers, k.ticks + 1)
    case _ => []
  }

  /** Every step of every run puts the threads it makes ready behind the others; a step that gives the processor up then
      takes the front of that list, or the idle thread if the list is empty, and no other step changes who runs. */
  lemma TheFrontRuns(k: State, acts: seq<Action>, r: State, a: Action)
    requires Init(k) && Runs(k, acts, r) && Enabled(r, a)
    ensures var n, q := Next(r, a), r.ready + Joining(r, a);
      if !Switches(r, a) then n.cur == r.cur && n.ready == q
      else if q == [] then n.cur == r.idle && n.ready == []
      else [n.cur] + n.ready == q
  {
    hide Runs, Inv, Init, Next, Enabled, Joining, Switches;
    InitInv(k);
    RunKeepsInv(k, acts, r);
    FrontRuns(r, a);
  }

  lemma FrontRuns(k: State, a: Action)
    requires Inv(k) && Enabled(k, a)
    ensures var n, q := Next(k, a), k.ready + Joining(k, a);
      if !Switches(k, a) then n.cur == k.cur && n.ready == q
      else if q == [] then n.cur == k.idle && n.ready == []
      else [n.cur] + n.ready == q
  {
    if a == Tick {
      SleepersOrdered(k);
      TickWakes(k);
      NextIsWake(k);
      WakeOnlyAppends(k.(ticks := k.ticks + 1));
    } else if Switches(k, a) {
      SwitchRunsFront(k, a);
    } else {
      hide Inv, Due, Leave;
    }
    hide Inv, Next, Wake, Queued, Due, Leave;
  }

  lemma LeaveRunsFront(k: State, self: Thread)
    ensures var n := Leave(k, self); if k.ready == [] then n.cur == k.idle && n.ready == [] else [n.cur] + n.ready == k.ready
  {
  }

  lemma SwitchRunsFront(k: State, a: Action)
    requires Enabled(k, a) && Switches(k, a)
    ensures var n, q := Next(k, a), k.ready + Joining(k, a); if q == [] then n.cur == k.idle && n.ready == [] else [n.cur] + n.ready == q
  {
    hide Queued, Leave;
    match a
    case Down(s) => LeaveRunsFront(k.(semas := k.semas[s := Semaphores.Down(k.semas[s], k.cur)]), Thread(Blocked, Retrying(s)));
    case Yield => LeaveRunsFront(if k.cur == k.idle then k else k.(ready := k.ready + [k.cur]), Thread(Ready, k.threads[k.cur].doing));
    case Exit => LeaveRunsFront(k, Thread(Dying, Free));
    case Sleep =>
      LeaveRunsFront(k.(sleepers := Queued(k.sleepers, Sleeper(k.cur, k.threads[k.cur].doing.deadline, k.arrivals)), arrivals := k.arrivals + 1),
                     Thread(Blocked, Sleeping));
    case IdleBlock => LeaveRunsFront(k, Thread(Blocked, Free));
    case _ =>
  }

  lemma {:induction false} WakeKeepsThread(k: State, t: Tid)
    requires t in k.threads && forall x :: x in k.sleepers ==> x.tid != t
    ensures t in Wake(k).threads && Wake(k).threads[t] == k.threads[t]
    decreases |k.sleepers|
  {
    if k.sleepers != [] && k.sleepers[0].deadline <= k.ticks {
      assert k.sleepers[0] in k.sleepers;
      WakeKeepsThread(Unblock(k, k.sleepers[0].tid, Free).(sleepers := k.sleepers[1..]), t);
    }
  }

  /** A thread under construction is left alone until it is started. */
  lemma EmbryoStays(k: State, a: Action, t: Tid)
    requires Inv(k) && Enabled(k, a) && a != Start(t) && t in k.threads && k.threads[t] == Thread(Blocked, Embryo)
    ensures t in Next(k, a).threads && Next(k, a).threads[t] == Thread(Blocked, Embryo)
  {
    EmbryoIsApart(k, t);
    if a == Tick {
      NextIsWake(k);
      hide Inv, Wake, Next;
      WakeKeepsThread(k.(ticks := k.ticks + 1), t);
    } else {
      hide Inv, Linked;
      LeftAlone(k, a, t);
    }
  }

  lemma LeaveKeepsThread(k: State, self: Thread, t: Tid)
    requires t in k.threads && t != k.cur && t != k.idle && t !in k.ready
    ensures t in Leave(k, self).threads && Leave(k, self).threads[t] == k.threads[t]
  {
  }

  lemma LeftAlone(k: State, a: Action, t: Tid)
    requires Enabled(k, a) && a != Start(t) && a != Tick && t in k.threads && t != k.cur && t != k.idle && t !in k.ready
    requires forall s :: s in k.semas ==> t !in k.semas[s].waiters
    ensures t in Next(k, a).threads && Next(k, a).threads[t] == k.threads[t]
  {
    hide Queued, Leave;
    match a
    case Up(s) => assert k.semas[s].waiters != [] ==> k.semas[s].waiters[0] in k.semas[s].waiters;
    case Down(s) => LeaveKeepsThread(k.(semas := k.semas[s := Semaphores.Down(k.semas[s], k.cur)]), Thread(Blocked, Retrying(s)), t);
    case Yield => LeaveKeepsThread(if k.cur == k.idle then k else k.(ready := k.ready + [k.cur]), Thread(Ready, k.threads[k.cur].doing), t);
    case Exit => LeaveKeepsThread(k, Thread(Dying, Free), t);
    case Sleep =>
      LeaveKeepsThread(k.(sleepers := Queued(k.sleepers, Sleeper(k.cur, k.threads[k.cur].doing.deadline, k.arrivals)), arrivals := k.arrivals + 1),
                       Thread(Blocked, Sleeping), t);
    case IdleBlock => LeaveKeepsThread(k, Thread(Blocked, Free), t);
    case _ =>
  }

  lemma EmbryoIsApart(k: State, t: Tid)
    requires Inv(k) && t in k.threads && k.threads[t] == Thread(Blocked, Embryo)
    ensures t != k.cur && t != k.idle && t !in k.ready && (forall s :: s in k.semas ==> t !in k.semas[s].waiters)
    ensures forall x :: x in k.sleepers ==> x.tid != t
    ensures forall q :: !Linked(k, t, q)
  {
    forall q | Linked(k, t, q) ensures false { LinkedThread(k, t, q); }
    assert !Linked(k, t, ReadyList) && !Linked(k, t, SleepList);
    forall s | s in k.semas ensures t !in k.semas[s].waiters { assert !Linked(k, t, Waiters(s)); }
    hide QueueInv, SleepInv;
  }

  lemma {:induction false} EmbryoWaits(k: State, acts: seq<Action>, r: State, t: Tid)
    requires Inv(k) && Runs(k, acts, r) && Start(t) !in acts && t in k.threads && k.threads[t] == Thread(Blocked, Embryo)
    ensures Inv(r) && t in r.threads && r.threads[t] == Thread(Blocked, Embryo)
    decreases |acts|
  {
    hide Inv, Next, Enabled;
    if acts != [] {
      StepKeepsInv(k, acts[0]);
      EmbryoStays(k, acts[0], t);
      EmbryoWaits(Next(k, acts[0]), acts[1..], r, t);
    }
  }

  /** thread_create makes a thread that nobody can run and no list holds until thread_unblock makes it the last one on
      the ready list. */
  lemma CreatedThreadStarts(k: State, acts: seq<Action>, m: State, t: Tid, after: seq<Action>, r: State)
    requires Init(k) && Runs(k, acts, m) && Enabled(m, Create(t)) && Runs(Next(m, Create(t)), after, r) && Start(t) !in after
    ensures t in r.threads && r.threads[t] == Thread(Blocked, Embryo) && t != r.cur && forall q :: !Linked(r, t, q)
    ensures r.cur in r.threads && (Enabled(r, Start(t)) <==> r.cur != r.idle && r.threads[r.cur].doing == Free)
    ensures Enabled(r, Start(t)) ==> Next(r, Start(t)) == r.(ready := r.ready + [t], threads := r.threads[t := Thread(Ready, Free)])
  {
    hide Runs, Inv, Init;
    InitInv(k);
    RunKeepsInv(k, acts, m);
    StepKeepsInv(m, Create(t));
    EmbryoWaits(Next(m, Create(t)), after, r, t);
    EmbryoIsApart(r, t);
    CurFacts(r);
  }
}

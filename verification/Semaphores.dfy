/** A counting semaphore as threads/synch.c keeps it, one interrupts-off region at a
    time.  Besides the value and the queue of waiting threads, the state records three
    pieces of history: how many ups and completed downs there were, and which threads
    an up has unblocked that have not yet looked at the value again. */
module Semaphores {
  import opened Sequences

  type Tid = nat

  datatype Sema = Sema(initial: nat, value: nat, waiters: seq<Tid>, woken: set<Tid>, ups: nat, downs: nat)

  function Fresh(value: nat): (s: Sema) {
    Sema(value, value, [], {}, 0, 0)
  }

  /** One turn of the loop in sema_down by thread `t`: it gets through, or it queues. */
  function Down(s: Sema, t: Tid): (r: Sema) {
    if s.value == 0 then s.(waiters := s.waiters + [t], woken := s.woken - {t})
    else s.(value := s.value - 1, woken := s.woken - {t}, downs := s.downs + 1)
  }

  function TryDown(s: Sema): (r: Sema) {
    if s.value == 0 then s else s.(value := s.value - 1, downs := s.downs + 1)
  }

  function Up(s: Sema): (r: Sema) {
    if s.waiters == [] then s.(value := s.value + 1, ups := s.ups + 1)
    else s.(value := s.value + 1, ups := s.ups + 1, waiters := s.waiters[1..], woken := s.woken + {s.waiters[0]})
  }

  /** What every semaphore keeps: no thread queues twice, the value accounts for every
      up and down, and while someone waits every unit of value has a woken thread on
      its way to take it, so that no wakeup is lost. */
  ghost predicate Sound(s: Sema) {
    && Distinct(s.waiters)
    && (forall t :: t in s.woken ==> t !in s.waiters)
    && s.value + s.downs == s.initial + s.ups
    && (s.waiters != [] ==> s.value <= |s.woken|)
  }

  lemma DownKeepsSound(s: Sema, t: Tid)
    requires Sound(s) && t !in s.waiters
    ensures Sound(Down(s, t))
  {
    assert t in s.woken ==> |s.woken - {t}| == |s.woken| - 1;
    assert t !in s.woken ==> s.woken - {t} == s.woken;
  }

  lemma UpKeepsSound(s: Sema)
    requires Sound(s)
    ensures Sound(Up(s))
  {
    if s.waiters != [] {
      assert s.waiters[0] !in s.woken && |s.woken + {s.waiters[0]}| == |s.woken| + 1;
    }
  }

  /** An up takes nobody into the semaphore: who waits or is woken then did before. */
  lemma UpWakesAWaiter(s: Sema)
    ensures forall t :: t in Up(s).waiters || t in Up(s).woken ==> t in s.waiters || t in s.woken
    ensures Up(s).value == s.value + 1
  {
  }

  function UpTimes(s: Sema, n: nat): (r: Sema) { if n == 0 then s else Up(UpTimes(s, n - 1)) }

  /** First come, first served: n ups wake exactly the n threads that have waited longest, and the others keep their
      order. */
  lemma {:induction false} FirstComeFirstServed(s: Sema, n: nat)
    requires n <= |s.waiters|
    ensures UpTimes(s, n).waiters == s.waiters[n..] && UpTimes(s, n).value == s.value + n
    ensures UpTimes(s, n).woken == s.woken + set i | 0 <= i < n :: s.waiters[i]
  {
    if n == 0 {
      assert s.waiters[0..] == s.waiters;
    } else {
      FirstComeFirstServed(s, n - 1);
      var w := s.waiters;
      assert w[n - 1..][0] == w[n - 1] && w[n - 1..][1..] == w[n..];
      assert (set i | 0 <= i < n :: w[i]) == (set i | 0 <= i < n - 1 :: w[i]) + {w[n - 1]};
    }
  }

  lemma UpCounts(s: Sema)
    ensures Up(s).ups == s.ups + 1 && Up(s).downs == s.downs && Up(s).initial == s.initial
  {
  }

  /** A thread that has a semaphore to itself never waits while the value is positive. */
  lemma LoneThread(s: Sema, c: Tid)
    requires Sound(s) && forall t :: t in s.waiters || t in s.woken ==> t == c
    ensures s.value > 0 ==> s.waiters == []
  {
    if s.waiters != [] {
      assert s.waiters[0] in s.waiters;
      assert s.woken == {};
    }
  }

  /** If the value is positive and a thread waits, some woken thread is about to retry. */
  lemma NoLostWakeup(s: Sema)
    requires Sound(s) && s.waiters != [] && s.value > 0
    ensures exists t :: t in s.woken && Down(s, t).value == s.value - 1
  {
    assert s.woken != {};
    var t :| t in s.woken;
    assert Down(s, t).value == s.value - 1;
  }
}

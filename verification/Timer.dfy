/** devices/timer.c over the linked list: the queue of sleeping threads that the scheduler's model keeps as a sequence. */
module Timer {
  import opened LinkedList
  import Kernel
  import Semaphores

  predicate SleepsLess(a: Kernel.Sleeper, b: Kernel.Sleeper) { a.deadline < b.deadline }

  ghost function Values(s: seq<Elem<Kernel.Sleeper>>): (q: seq<Kernel.Sleeper>)
    ensures |q| == |s|
  {
    seq(|s|, i requires 0 <= i < |s| => s[i].value)
  }

  /** list_insert_ordered on the elements does to their deadlines what the model's queue does. */
  lemma {:induction false} InsertedIsQueued(s: seq<Elem<Kernel.Sleeper>>, e: Elem<Kernel.Sleeper>)
    ensures Values(Inserted(s, e, SleepsLess)) == Kernel.Queued(Values(s), e.value)
    decreases |s|
  {
    if s != [] && !SleepsLess(e.value, s[0].value) {
      InsertedIsQueued(s[1..], e);
      assert Values(s)[1..] == Values(s[1..]);
      assert Values([s[0]] + Inserted(s[1..], e, SleepsLess)) == [s[0].value] + Values(Inserted(s[1..], e, SleepsLess));
    } else {
      assert Values([e] + s) == [e.value] + Values(s);
    }
  }

  class SleepQueue {
    const list: List<Kernel.Sleeper>
    var ticks: int

    ghost function Q(): (q: seq<Kernel.Sleeper>)
      requires list.Valid()
      reads this, list, list.repr
    {
      Values(list.Items())
    }

    ghost predicate Valid()
      reads this, list, list.repr
    {
      list.Valid() && Kernel.Ordered(Q())
    }

    constructor ()
      ensures Valid() && Q() == [] && ticks == 0 && fresh(list) && fresh(list.repr)
    {
      list := new List(Kernel.Sleeper(0, 0, 0));
      ticks := 0;
    }

    /** timer_sleep up to blocking: the caller, who is not in the queue, joins it by its deadline, behind those
        that came earlier with the same one. */
    method Sleep(x: Kernel.Sleeper)
      requires Valid() && forall y :: y in Q() ==> y.arrival < x.arrival && y.tid != x.tid
      modifies list, list.repr
      ensures Valid() && Q() == Kernel.Queued(old(Q()), x)
    {
      hide Kernel.Ordered, Inserted, List.Valid;
      var e := new Elem(x);
      InsertedIsQueued(list.Items(), e);
      Kernel.QueuedIsOrdered(Q(), x);
      list.InsertOrdered(e, SleepsLess);
    }

    /** timer_interrupt: looking at the front only, it wakes exactly those whose time has come, in order. */
    method Interrupt() returns (woken: seq<Semaphores.Tid>)
      requires Valid()
      modifies this`ticks, list, list.repr
      ensures Valid() && ticks == old(ticks) + 1
      ensures Q() == Kernel.NotDue(old(Q()), ticks) && woken == Kernel.Due(old(Q()), ticks)
    {
      hide List.Valid, Values, Kernel.Ordered, Kernel.Due, Kernel.NotDue;
      ticks := ticks + 1;
      woken := [];
      ghost var q, now := Q(), ticks;
      while true
        modifies list, list.repr
        invariant Valid() && list.repr <= old(list.repr) && ticks == now
        invariant Kernel.NotDue(q, now) == Kernel.NotDue(Q(), now)
        invariant woken + Kernel.Due(Q(), now) == Kernel.Due(q, now)
        decreases |Q()|
      {
        var none := list.Empty();
        NobodyDue(Q(), now);
        if none { break; }
        var front := list.Front();
        ghost var s := list.Items();
        FirstValue(s);
        if ticks >= front.value.deadline {
          var popped := list.PopFront();
          Popped(s, now);
          assert list.Items() == s[1..];
          assert woken + ([front.value.tid] + Kernel.Due(Q(), now)) == woken + [front.value.tid] + Kernel.Due(Q(), now);
          woken := woken + [front.value.tid];
        } else {
          break;
        }
      }
    }
  }

  lemma FirstValue(s: seq<Elem<Kernel.Sleeper>>)
    requires s != []
    ensures Values(s)[0] == s[0].value
  {
  }

  lemma Popped(s: seq<Elem<Kernel.Sleeper>>, now: int)
    requires s != [] && Kernel.Ordered(Values(s)) && s[0].value.deadline <= now
    ensures Kernel.Ordered(Values(s[1..])) && Kernel.NotDue(Values(s), now) == Kernel.NotDue(Values(s[1..]), now)
    ensures Kernel.Due(Values(s), now) == [s[0].value.tid] + Kernel.Due(Values(s[1..]), now)
  {
    assert Values(s)[1..] == Values(s[1..]);
  }

  /** When the front is not due, nobody is. */
  lemma NobodyDue(q: seq<Kernel.Sleeper>, now: int)
    requires Kernel.Ordered(q)
    ensures q == [] || now < q[0].deadline ==> Kernel.NotDue(q, now) == q && Kernel.Due(q, now) == []
  {
    if q != [] && now < q[0].deadline {
      FrontIsFirst(q, now);
      Kernel.NoneDue(q, now);
    }
  }

  lemma FrontIsFirst(q: seq<Kernel.Sleeper>, now: int)
    requires Kernel.Ordered(q) && q != [] && now < q[0].deadline
    ensures forall x :: x in q ==> now < x.deadline
  {
    forall i | 0 <= i < |q|
      ensures now < q[i].deadline
    {
      if i > 0 { assert Kernel.Before(q[0], q[i]); }
    }
  }
}

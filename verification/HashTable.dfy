/** lib/kernel/hash.c: a table of linked lists that doubles and halves its number of buckets by relinking the elements.
    chains is what the lists' links spell, bucket by bucket, and nodes what they are made of. */
module HashTable {
  import opened Bitmaps
  import opened LinkedList
  import opened Powers
  import Arithmetic

  // ---------------------------------------------------------------- powers of two

  function TurnOffLeast1Bit(x: nat): (y: nat)
    requires x > 0
  {
    And(x, x - 1)
  }

  predicate IsPowerOf2(x: nat) { x != 0 && TurnOffLeast1Bit(x) == 0 }

  lemma AndSelf(x: nat)
    ensures And(x, x) == x
  {
  }

  /** Odd numbers lose their last bit; even ones do what their halves do. */
  lemma TurnOff(x: nat)
    requires x > 0
    ensures TurnOffLeast1Bit(x) == if x % 2 == 1 then x - 1 else 2 * TurnOffLeast1Bit(x / 2)
  {
    if x % 2 == 1 {
      AndSelf(x / 2);
      assert (x - 1) / 2 == x / 2;
    } else {
      assert (x - 1) / 2 == x / 2 - 1;
    }
  }

  lemma {:induction false} TurnOffBounds(x: nat, k: nat)
    requires Pow2(k) <= x < Pow2(k + 1)
    ensures TurnOffLeast1Bit(x) < x
    ensures x == Pow2(k) ==> TurnOffLeast1Bit(x) == 0
    ensures x > Pow2(k) ==> TurnOffLeast1Bit(x) >= Pow2(k)
    decreases k
  {
    hide TurnOffLeast1Bit, And;
    TurnOff(x);
    if k == 0 {
      assert Pow2(1) == 2;
    } else if x % 2 == 0 {
      TurnOffBounds(x / 2, k - 1);
    }
  }

  /** The largest power of two not above x. */
  ghost predicate LargestPower(p: nat, x: nat) { exists k: nat :: p == Pow2(k) && p <= x < 2 * p }

  /** The number of lists that suits n elements: a power of two, one list for every two elements and at least four. */
  ghost predicate Suits(p: nat, n: nat) { LargestPower(p, if n / 2 < 4 then 4 else n / 2) }

  lemma {:induction false} LogExists(x: nat) returns (k: nat)
    requires x > 0
    ensures Pow2(k) <= x < Pow2(k + 1)
    decreases x
  {
    if x == 1 {
      k := 0;
      assert Pow2(1) == 2;
    } else {
      k := LogExists(x / 2);
      k := k + 1;
    }
  }

  method RoundDown(x: nat) returns (p: nat)
    requires x > 0
    ensures LargestPower(p, x)
  {
    p := x;
    ghost var k := LogExists(x);
    while !IsPowerOf2(p)
      invariant Pow2(k) <= p <= x
      decreases p
    {
      TurnOffBounds(p, k);
      p := TurnOffLeast1Bit(p);
    }
    TurnOffBounds(p, k);
    assert p == Pow2(k);
  }

  lemma AndLowBits(x: nat, k: nat)
    ensures And(x, Pow2(k) - 1) == x % Pow2(k)
  {
    LowBits(x, k);
  }

  function Rem(x: nat, m: nat): (r: nat) requires m > 0 { x % m }

  lemma {:induction false} LowBits(x: nat, k: nat)
    ensures And(x, Pow2(k) - 1) == Rem(x, Pow2(k))
    decreases k
  {
    if k > 0 {
      var p := Pow2(k - 1);
      LowBits(x / 2, k - 1);
      assert Pow2(k) == 2 * p;
      hide And, Pow2, Rem;
      AndHalves(x, 2 * p - 1);
      assert (2 * p - 1) / 2 == p - 1 && (2 * p - 1) % 2 == 1;
      RemDouble(x, p);
    } else {
      AndZero(x);
    }
  }

  lemma RemDouble(x: nat, p: nat)
    requires p > 0
    ensures Rem(x, 2 * p) == 2 * Rem(x / 2, p) + x % 2
  {
    ModDouble(x, p);
  }

  lemma AndHalves(x: nat, y: nat)
    ensures And(x, y) == 2 * And(x / 2, y / 2) + if x % 2 == 1 && y % 2 == 1 then 1 else 0
  {
  }

  lemma {:induction false} AndZero(x: nat)
    ensures And(x, 0) == 0 && Rem(x, Pow2(0)) == 0
  {
    if x > 0 { AndZero(x / 2); }
  }

  lemma ModDouble(x: nat, p: nat)
    requires p > 0
    ensures x % (2 * p) == 2 * (x / 2 % p) + x % 2
  {
    var q, r := x / 2 / p, x / 2 % p;
    assert x / 2 == p * q + r;
    assert x == q * (2 * p) + (2 * r + x % 2);
    Arithmetic.DivUnique(x, 2 * p, q);
  }

  // ---------------------------------------------------------------- the elements in a row of buckets

  predicate Eq<V>(less: (V, V) -> bool, x: V, y: V) { !less(x, y) && !less(y, x) }

  ghost function All<V>(bs: seq<seq<V>>): (m: multiset<V>)
  {
    if bs == [] then multiset{} else multiset(bs[0]) + All(bs[1..])
  }

  function Row<V>(bs: seq<seq<V>>): (s: seq<V>)
  {
    if bs == [] then [] else bs[0] + Row(bs[1..])
  }

  lemma {:induction false} RowIsAll<V>(bs: seq<seq<V>>)
    ensures multiset(Row(bs)) == All(bs)
  {
    if bs != [] { RowIsAll(bs[1..]); }
  }

  lemma {:induction false} InAll<V>(bs: seq<seq<V>>, x: V)
    ensures x in All(bs) <==> exists i :: 0 <= i < |bs| && x in bs[i]
  {
    if bs != [] {
      InAll(bs[1..], x);
      if x in All(bs[1..]) {
        var i :| 0 <= i < |bs[1..]| && x in bs[1..][i];
        assert x in bs[i + 1];
      }
      if i :| 0 <= i < |bs| && x in bs[i] {
        if i > 0 { assert x in bs[1..][i - 1]; }
      }
    }
  }

  lemma {:induction false} Swap<V>(bs: seq<seq<V>>, i: nat, s: seq<V>)
    requires i < |bs|
    ensures All(bs[i := s]) + multiset(bs[i]) == All(bs) + multiset(s)
  {
    if i == 0 {
      assert bs[0 := s][1..] == bs[1..];
    } else {
      Swap(bs[1..], i - 1, s);
      assert bs[i := s][1..] == bs[1..][i - 1 := s];
      var now, was: multiset<V> := All(bs[1..][i - 1 := s]), All(bs[1..]);
      Both(multiset(bs[0]), now, multiset(bs[i]), was, multiset(s));
    }
  }

  lemma Both<V>(a: multiset<V>, now: multiset<V>, x: multiset<V>, was: multiset<V>, y: multiset<V>)
    requires now + x == was + y
    ensures a + now + x == a + was + y
  {
    assert a + now + x == a + (now + x) && a + was + y == a + (was + y);
  }

  lemma {:induction false} Emptied<V>(bs: seq<seq<V>>)
    requires forall i :: 0 <= i < |bs| ==> bs[i] == []
    ensures All(bs) == multiset{}
  {
    if bs != [] { Emptied(bs[1..]); }
  }

  /** No two elements are equal under the table's ordering. */
  ghost predicate Unique<V>(less: (V, V) -> bool, m: multiset<Elem<V>>)
  {
    (forall x :: x in m ==> m[x] == 1) && forall x, y :: x in m && y in m && Eq(less, x.value, y.value) ==> x == y
  }

  ghost predicate Respects<V(!new)>(less: (V, V) -> bool, hash: V -> nat)
  {
    forall x, y :: Eq(less, x, y) ==> hash(x) == hash(y)
  }

  predicate Placed<V>(hash: V -> nat, bs: seq<seq<Elem<V>>>)
  {
    forall i, k :: 0 <= i < |bs| && 0 <= k < |bs[i]| ==> hash(bs[i][k].value) % |bs| == i
  }

  ghost predicate Count(n: nat) { n >= 4 && exists k: nat :: n == Pow2(k) }

  // ---------------------------------------------------------------- rows of linked lists

  ghost predicate Apart<V(!new)>(ls: seq<List<V>>)
    reads ls
  {
    forall i, j :: 0 <= i < j < |ls| ==> ls[i] != ls[j] && ls[i].repr !! ls[j].repr
  }

  /** The lists are made of nodes and share none, sentinels included, and their links spell the chains. */
  ghost predicate Holds<V(!new)>(ls: seq<List<V>>, nodes: set<Elem<V>>, bs: seq<seq<Elem<V>>>)
    reads ls, nodes
  {
    && |ls| == |bs| && Apart(ls)
    && forall i :: 0 <= i < |ls| ==> ls[i].repr <= nodes && ls[i].Valid() && ls[i].Items() == bs[i]
  }

  /** list_push_front on one of the lists. */
  method PushTo<V(!new)>(ls: seq<List<V>>, b: nat, elem: Elem<V>, ghost nodes: set<Elem<V>>, ghost bs: seq<seq<Elem<V>>>)
    requires Holds(ls, nodes, bs) && b < |ls| && elem !in nodes
    modifies ls, nodes, elem
    ensures Holds(ls, nodes + {elem}, bs[b := [elem] + bs[b]])
  {
    hide List.Valid, List.Items;
    ls[b].PushFront(elem);
  }

  /** list_remove from one of the lists. */
  method TakeFrom<V(!new)>(ls: seq<List<V>>, b: nat, elem: Elem<V>, ghost i: nat, ghost nodes: set<Elem<V>>, ghost bs: seq<seq<Elem<V>>>)
    requires Holds(ls, nodes, bs) && b < |ls| && i < |bs[b]| && elem == bs[b][i]
    modifies ls, nodes
    ensures Holds(ls, nodes - {elem}, bs[b := Without(bs[b], i, i + 1)]) && elem in nodes
  {
    OnlyThere(ls, b, elem, i, nodes, bs);
    hide List.Valid, List.Items, Spells;
    var _ := ls[b].RemoveAt(elem, i + 1);
  }

  lemma OnlyThere<V(!new)>(ls: seq<List<V>>, b: nat, elem: Elem<V>, i: nat, nodes: set<Elem<V>>, bs: seq<seq<Elem<V>>>)
    requires Holds(ls, nodes, bs) && b < |ls| && i < |bs[b]| && elem == bs[b][i]
    ensures i + 2 < |ls[b].chain| && ls[b].chain[i + 1] == elem && elem in ls[b].repr
    ensures forall j :: 0 <= j < |ls| && j != b ==> elem !in ls[j].repr
  {
  }

  /** list_init of n lists. */
  method NewLists<V(!new)>(n: nat, blank: V) returns (ls: seq<List<V>>, ghost nodes: set<Elem<V>>, ghost bs: seq<seq<Elem<V>>>)
    ensures |ls| == n && Holds(ls, nodes, bs) && (forall i :: 0 <= i < n ==> bs[i] == [])
    ensures fresh(ls) && fresh(nodes)
  {
    hide List.Valid, List.Items;
    ls, nodes, bs := [], {}, [];
    while |ls| < n
      invariant |ls| <= n && Holds(ls, nodes, bs) && (forall i :: 0 <= i < |bs| ==> bs[i] == [])
      invariant fresh(ls) && fresh(nodes)
    {
      var l := new List(blank);
      ls, nodes, bs := ls + [l], nodes + l.repr, bs + [[]];
    }
  }

  method BucketOf<V(!new)>(hash: V -> nat, e: V, n: nat) returns (b: nat)
    requires Count(n)
    ensures b < n && b == hash(e) % n
  {
    ghost var k: nat :| n == Pow2(k);
    AndLowBits(hash(e), k);
    b := And(hash(e), n - 1);
  }

  /** Two rows with no list and no node in common. */
  ghost predicate Separate<V(!new)>(os: seq<List<V>>, olds: set<Elem<V>>, ns: seq<List<V>>, news: set<Elem<V>>)
  {
    (forall l :: l in os ==> l !in ns) && olds !! news
  }

  /** The same two on one row leave another alone. */
  method PushBeside<V(!new)>(ls: seq<List<V>>, b: nat, elem: Elem<V>, ghost nodes: set<Elem<V>>, ghost bs: seq<seq<Elem<V>>>,
                             ghost ks: seq<List<V>>, ghost others: set<Elem<V>>, ghost cs: seq<seq<Elem<V>>>)
    requires Holds(ls, nodes, bs) && b < |ls| && elem !in nodes
    requires Holds(ks, others, cs) && Separate(ks, others, ls, nodes + {elem})
    modifies ls, nodes, elem
    ensures Holds(ls, nodes + {elem}, bs[b := [elem] + bs[b]]) && Holds(ks, others, cs)
  {
    hide Spells;
    PushTo(ls, b, elem, nodes, bs);
    forall i | 0 <= i < |ks| ensures ks[i].repr <= others && ks[i].Valid() && ks[i].Items() == cs[i] {
      assert ks[i] in ks && old(ks[i].repr <= others && ks[i].Valid() && ks[i].Items() == cs[i]);
    }
    assert forall i :: 0 <= i < |ks| ==> ks[i] in ks && ks[i].repr == old(ks[i].repr);
  }

  method TakeBeside<V(!new)>(ls: seq<List<V>>, b: nat, elem: Elem<V>, ghost nodes: set<Elem<V>>, ghost bs: seq<seq<Elem<V>>>,
                             ghost ks: seq<List<V>>, ghost others: set<Elem<V>>, ghost cs: seq<seq<Elem<V>>>)
    requires Holds(ls, nodes, bs) && b < |ls| && bs[b] != [] && elem == bs[b][0]
    requires Holds(ks, others, cs) && Separate(ks, others, ls, nodes)
    modifies ls, nodes
    ensures Holds(ls, nodes - {elem}, bs[b := bs[b][1..]]) && Holds(ks, others, cs) && elem in nodes
  {
    hide Spells;
    TakeFrom(ls, b, elem, 0, nodes, bs);
    assert Without(bs[b], 0, 1) == bs[b][1..];
    forall i | 0 <= i < |ks| ensures ks[i].repr <= others && ks[i].Valid() && ks[i].Items() == cs[i] {
      assert ks[i] in ks && old(ks[i].repr <= others && ks[i].Valid() && ks[i].Items() == cs[i]);
    }
    assert forall i :: 0 <= i < |ks| ==> ks[i] in ks && ks[i].repr == old(ks[i].repr);
  }

  /** One trip of rehash's inner loop: the first element of an old list goes to the front of its new one. */
  method MoveFirst<V(!new)>(hash: V -> nat, os: seq<List<V>>, i: nat, ns: seq<List<V>>, elem: Elem<V>,
                            ghost olds: set<Elem<V>>, ghost cur: seq<seq<Elem<V>>>, ghost news: set<Elem<V>>, ghost nbs: seq<seq<Elem<V>>>)
    returns (next: Elem<V>, ghost nbs': seq<seq<Elem<V>>>)
    requires Holds(os, olds, cur) && Holds(ns, news, nbs) && Separate(os, olds, ns, news)
    requires i < |os| && cur[i] != [] && elem == cur[i][0] && Count(|ns|) && Placed(hash, nbs)
    modifies os, olds, ns, news
    ensures Holds(os, olds - {elem}, cur[i := cur[i][1..]]) && Holds(ns, news + {elem}, nbs') && elem in olds
    ensures Placed(hash, nbs') && All(nbs') == All(nbs) + multiset{elem}
    ensures next == if |cur[i]| > 1 then cur[i][1] else os[i].tail
  {
    hide Placed, All, Count, Holds, List.Valid, List.Items;
    FirstOf(os, olds, cur, i);
    SameCount(ns, news, nbs);
    SameCount(os, olds, cur);
    var b := BucketOf(hash, elem.value, |ns|);
    next := elem.next;
    TakeBeside(os, i, elem, olds, cur, ns, news, nbs);
    PushBeside(ns, b, elem, news, nbs, os, olds - {elem}, cur[i := cur[i][1..]]);
    nbs' := nbs[b := [elem] + nbs[b]];
    PushedPlaced(hash, nbs, b, elem);
  }

  lemma SameCount<V(!new)>(ls: seq<List<V>>, nodes: set<Elem<V>>, bs: seq<seq<Elem<V>>>)
    requires Holds(ls, nodes, bs)
    ensures |ls| == |bs|
  {
  }

  lemma FirstOf<V(!new)>(ls: seq<List<V>>, nodes: set<Elem<V>>, bs: seq<seq<Elem<V>>>, i: nat)
    requires Holds(ls, nodes, bs) && i < |ls| && bs[i] != []
    ensures bs[i][0].next == if |bs[i]| > 1 then bs[i][1] else ls[i].tail
  {
    LinksAt(ls[i].chain, 1);
  }

  lemma PushedPlaced<V>(hash: V -> nat, bs: seq<seq<Elem<V>>>, b: nat, e: Elem<V>)
    requires Placed(hash, bs) && b < |bs| && b == hash(e.value) % |bs|
    ensures Placed(hash, bs[b := [e] + bs[b]]) && All(bs[b := [e] + bs[b]]) == All(bs) + multiset{e}
  {
    Swap(bs, b, [e] + bs[b]);
    Pushed(All(bs[b := [e] + bs[b]]), multiset(bs[b]), All(bs), e);
  }

  lemma Pushed<V>(now: multiset<V>, b: multiset<V>, was: multiset<V>, e: V)
    requires now + b == was + (multiset{e} + b)
    ensures now == was + multiset{e}
  {
    forall x
      ensures now[x] == (was + multiset{e})[x]
    {
      assert (now + b)[x] == (was + (multiset{e} + b))[x];
    }
  }

  lemma TakenPlaced<V>(hash: V -> nat, bs: seq<seq<Elem<V>>>, b: nat, i: nat)
    requires Placed(hash, bs) && b < |bs| && i < |bs[b]|
    ensures var now := bs[b := Without(bs[b], i, i + 1)]; Placed(hash, now) && All(now) + multiset{bs[b][i]} == All(bs)
  {
    var left := Without(bs[b], i, i + 1);
    Swap(bs, b, left);
    assert bs[b] == bs[b][..i] + [bs[b][i]] + bs[b][i + 1..];
    assert multiset(bs[b]) == multiset{bs[b][i]} + multiset(left);
    Pushed(All(bs), multiset(left), All(bs[b := left]), bs[b][i]);
  }

  /** rehash's inner loop: every element of an old list, front to back, is unlinked and pushed onto its new one. */
  method MoveChain<V(!new)>(hash: V -> nat, os: seq<List<V>>, i: nat, ns: seq<List<V>>,
                            ghost olds: set<Elem<V>>, ghost cur: seq<seq<Elem<V>>>, ghost news: set<Elem<V>>, ghost nbs: seq<seq<Elem<V>>>)
    returns (ghost olds': set<Elem<V>>, ghost news': set<Elem<V>>, ghost nbs': seq<seq<Elem<V>>>)
    requires Holds(os, olds, cur) && Holds(ns, news, nbs) && Separate(os, olds, ns, news)
    requires i < |os| && Count(|ns|) && Placed(hash, nbs)
    modifies os, olds, ns, news
    ensures Holds(os, olds', cur[i := []]) && Holds(ns, news', nbs') && olds' <= olds && olds' + news' == olds + news && olds' !! news'
    ensures Placed(hash, nbs') && All(nbs') == All(nbs) + multiset(cur[i])
  {
    hide Placed, All, Count, Holds, List.Valid, List.Items;
    SameCount(os, olds, cur);
    olds', news', nbs' := olds, news, nbs;
    ghost var left, k := cur, 0;
    assert cur[i := cur[i][0..]] == cur;
    Beginning(os, olds, cur, i);
    var elem := os[i].head.next;
    while elem != os[i].tail
      invariant Holds(os, olds', left) && Holds(ns, news', nbs') && Separate(os, olds', ns, news')
      invariant olds' <= olds && olds' + news' == olds + news && k <= |cur[i]| && left == cur[i := cur[i][k..]]
      invariant |os[i].chain| == |left[i]| + 2 && elem == os[i].chain[1]
      invariant Placed(hash, nbs') && All(nbs') == All(nbs) + multiset(cur[i][..k])
      decreases |cur[i]| - k
    {
      Beginning(os, olds', left, i);
      ghost var rest := left[i];
      elem, nbs' := MoveFirst(hash, os, i, ns, elem, olds', left, news', nbs');
      olds', news', left := olds' - {rest[0]}, news' + {rest[0]}, left[i := rest[1..]];
      assert cur[i][..k + 1] == cur[i][..k] + [cur[i][k]];
      k := k + 1;
      Beginning(os, olds', left, i);
    }
    Beginning(os, olds', left, i);
    assert cur[i][..k] == cur[i];
  }

  /** The sums add up when one chain has moved from the old row to the new one. */
  lemma ChainMoved<V>(was: multiset<V>, news: multiset<V>, olds: multiset<V>, moved: multiset<V>, news': multiset<V>, olds': multiset<V>)
    requires news + olds == was && news' == news + moved && olds' + moved == olds
    ensures news' + olds' == was
  {
  }

  /** rehash's outer loop, from one row of lists to another that starts out empty. */
  method MoveRow<V(!new)>(hash: V -> nat, os: seq<List<V>>, ns: seq<List<V>>,
                          ghost olds: set<Elem<V>>, ghost obs: seq<seq<Elem<V>>>, ghost news: set<Elem<V>>, ghost nbs: seq<seq<Elem<V>>>)
    returns (ghost news': set<Elem<V>>, ghost nbs': seq<seq<Elem<V>>>)
    requires Holds(os, olds, obs) && Holds(ns, news, nbs) && Separate(os, olds, ns, news)
    requires Count(|ns|) && Placed(hash, nbs) && All(nbs) == multiset{}
    modifies os, olds, ns, news
    ensures Holds(ns, news', nbs') && news' <= olds + news && Placed(hash, nbs') && All(nbs') == All(obs)
  {
    hide Placed, All, Count, Holds;
    SameCount(os, olds, obs);
    ghost var olds', cur := olds, obs;
    news', nbs' := news, nbs;
    var i := 0;
    while i < |os|
      invariant i <= |os| == |cur| && Placed(hash, nbs') && All(nbs') + All(cur) == All(obs)
      invariant Holds(os, olds', cur) && Holds(ns, news', nbs') && Separate(os, olds', ns, news')
      invariant olds' <= olds && news' <= olds + news && forall k :: 0 <= k < i ==> cur[k] == []
    {
      Swap(cur, i, []);
      ghost var moved, had, left := cur[i], All(nbs'), All(cur);
      olds', news', nbs' := MoveChain(hash, os, i, ns, olds', cur, news', nbs');
      cur := cur[i := []];
      ChainMoved(All(obs), had, left, multiset(moved), All(nbs'), All(cur));
      i := i + 1;
    }
    Emptied(cur);
  }

  /** A list's first element, or its tail when it has none. */
  lemma Beginning<V(!new)>(ls: seq<List<V>>, nodes: set<Elem<V>>, bs: seq<seq<Elem<V>>>, i: nat)
    requires Holds(ls, nodes, bs) && i < |ls|
    ensures var l := ls[i];
      && |l.chain| == |bs[i]| + 2 && l.head.next == l.chain[1]
      && (bs[i] != [] ==> l.chain[1] == bs[i][0] && l.chain[1] != l.tail)
      && (bs[i] == [] ==> l.chain[1] == l.tail)
  {
    LinksAt(ls[i].chain, 0);
  }

  // ---------------------------------------------------------------- the table

  lemma FourOrMore(p: nat, x: nat)
    requires LargestPower(p, x) && x >= 4
    ensures Count(p)
  {
    var k: nat :| p == Pow2(k) && p <= x < 2 * p;
    if k <= 1 { assert Pow2(1) == 2; }
  }

  lemma NonePlaced<V>(hash: V -> nat, bs: seq<seq<Elem<V>>>)
    requires forall i :: 0 <= i < |bs| ==> bs[i] == []
    ensures Placed(hash, bs) && All(bs) == multiset{}
  {
    Emptied(bs);
  }

  lemma Added<V(!new)>(less: (V, V) -> bool, m: multiset<Elem<V>>, e: Elem<V>)
    requires StrictWeakOrder(less) && Unique(less, m) && forall x :: x in m ==> !Eq(less, x.value, e.value)
    ensures Unique(less, m + multiset{e})
  {
    assert Eq(less, e.value, e.value);
  }

  lemma OneLessUnique<V>(less: (V, V) -> bool, m: multiset<Elem<V>>, x: Elem<V>)
    requires Unique(less, m) && x in m
    ensures m[x] == 1 && Unique(less, m - multiset{x})
  {
    assert forall y :: y in m - multiset{x} ==> y in m;
  }

  lemma EqTrans<V(!new)>(less: (V, V) -> bool, x: V, y: V, e: V)
    requires StrictWeakOrder(less)
    ensures Eq(less, x, e) && Eq(less, y, e) ==> Eq(less, y, x)
  {
  }

  lemma Dropped<V(!new)>(less: (V, V) -> bool, m: multiset<Elem<V>>, x: Elem<V>, e: V)
    requires StrictWeakOrder(less) && Unique(less, m) && x in m && Eq(less, x.value, e)
    ensures Unique(less, m - multiset{x}) && forall y :: y in m - multiset{x} ==> !Eq(less, y.value, e)
  {
    forall y | y in m - multiset{x}
      ensures !Eq(less, y.value, e)
    {
      assert y in m && y != x;
      EqTrans(less, x.value, y.value, e);
    }
  }

  /** An element equal to e can only be in e's bucket. */
  lemma NotElsewhere<V(!new)>(hash: V -> nat, less: (V, V) -> bool, bs: seq<seq<Elem<V>>>, b: nat, e: V)
    requires Respects(less, hash) && Placed(hash, bs) && |bs| > 0 && b == hash(e) % |bs|
    requires forall k :: 0 <= k < |bs[b]| ==> !Eq(less, bs[b][k].value, e)
    ensures forall x :: x in All(bs) ==> !Eq(less, x.value, e)
  {
    forall x | x in All(bs)
      ensures !Eq(less, x.value, e)
    {
      InAll(bs, x);
      var i :| 0 <= i < |bs| && x in bs[i];
      var k :| 0 <= k < |bs[i]| && bs[i][k] == x;
      assert hash(bs[i][k].value) % |bs| == i;
    }
  }

  class Table<V(!new)> {
    const hash: V -> nat
    const less: (V, V) -> bool
    const blank: V
    var buckets: seq<List<V>>
    var elemCnt: nat
    ghost var nodes: set<Elem<V>>
    ghost var chains: seq<seq<Elem<V>>>

    ghost predicate Valid()
      reads this, buckets, nodes
    {
      && StrictWeakOrder(less) && Respects(less, hash) && Count(|buckets|)
      && Holds(buckets, nodes, chains) && Placed(hash, chains) && Unique(less, Elems()) && elemCnt == |Elems()|
    }

    /** The elements held. */
    ghost function Elems(): (m: multiset<Elem<V>>)
      reads this
    {
      All(chains)
    }

    constructor (hash: V -> nat, less: (V, V) -> bool, blank: V)
      requires StrictWeakOrder(less) && Respects(less, hash)
      ensures Valid() && fresh(buckets) && fresh(nodes) && Elems() == multiset{}
    {
      this.hash, this.less, this.blank, elemCnt := hash, less, blank, 0;
      var ls;
      ghost var news, nbs;
      ls, news, nbs := NewLists(4, blank);
      buckets, nodes, chains := ls, news, nbs;
      new;
      NonePlaced(hash, chains);
      assert Pow2(2) == 4;
    }

    /** find_bucket. */
    method FindBucket(e: V) returns (b: nat)
      requires Valid()
      ensures b < |buckets| && b == hash(e) % |buckets|
    {
      hide Placed, All, Unique, Respects, StrictWeakOrder, Count, Holds;
      b := BucketOf(hash, e, |buckets|);
    }

    /** find_elem: the element of the bucket that is equal to e, and its place. */
    method FindElem(b: nat, e: V) returns (r: Elem?<V>, ghost i: nat)
      requires Valid() && b == hash(e) % |buckets|
      ensures r != null ==> b < |chains| && i < |chains[b]| && r == chains[b][i] && Eq(less, r.value, e) && r in Elems()
      ensures r == null ==> forall x :: x in Elems() ==> !Eq(less, x.value, e)
    {
      hide Placed, All, Unique, Respects, StrictWeakOrder, Linked;
      ghost var c := chains[b];
      var list := buckets[b];
      LinksAt(list.chain, 0);
      var p: Elem<V> := list.head.next;
      i := 0;
      while p != list.tail
        invariant i <= |c| && p == list.chain[i + 1]
        invariant forall k :: 0 <= k < i ==> !Eq(less, c[k].value, e)
        decreases |c| - i
      {
        SameElemSamePlace(list.chain, i + 1, |list.chain| - 1);
        assert p == c[i];
        if !less(p.value, e) && !less(e, p.value) {
          InAll(chains, p);
          return p, i;
        }
        LinksAt(list.chain, i + 1);
        p, i := p.next, i + 1;
      }
      SameElemSamePlace(list.chain, i + 1, |list.chain| - 1);
      NotElsewhere(hash, less, chains, b, e);
      r := null;
    }

    method Find(e: V) returns (r: Elem?<V>)
      requires Valid()
      ensures r != null ==> r in Elems() && Eq(less, r.value, e)
      ensures r == null ==> forall x :: x in Elems() ==> !Eq(less, x.value, e)
    {
      hide Valid, All;
      var b := FindBucket(e);
      ghost var i;
      r, i := FindElem(b, e);
    }

    /** rehash: moves every element to the list it belongs in among a number of lists that suits elemCnt, unless that
        number is in use already or there is no memory for them. */
    method Rehash(memory: bool)
      requires Valid()
      modifies this`buckets, this`nodes, this`chains, buckets, nodes
      ensures Valid() && Elems() == old(Elems())
      ensures memory ==> Suits(|buckets|, |Elems()|)
      ensures !memory ==> buckets == old(buckets) && chains == old(chains)
      ensures (buckets == old(buckets) || fresh(buckets)) && forall x :: x in nodes ==> x in old(nodes) || fresh(x)
    {
      hide Placed, All, Unique, Respects, StrictWeakOrder, LargestPower, Count, Holds;
      var newBucketCnt := elemCnt / 2;
      if newBucketCnt < 4 { newBucketCnt := 4; }
      newBucketCnt := RoundDown(newBucketCnt);
      FourOrMore(newBucketCnt, if elemCnt / 2 < 4 then 4 else elemCnt / 2);
      if newBucketCnt == |buckets| || !memory { return; }
      MoveAll(newBucketCnt);
    }

    method MoveAll(newBucketCnt: nat)
      requires Holds(buckets, nodes, chains) && Count(newBucketCnt)
      modifies this`buckets, this`nodes, this`chains, buckets, nodes
      ensures |buckets| == newBucketCnt && Holds(buckets, nodes, chains) && Placed(hash, chains) && Elems() == old(Elems())
      ensures fresh(buckets) && forall x :: x in nodes ==> x in old(nodes) || fresh(x)
    {
      hide Placed, All, Count, Holds;
      var oldBuckets := buckets;
      ghost var olds, cur := nodes, chains;
      var ns;
      ghost var news, nbs;
      ns, news, nbs := NewLists(newBucketCnt, blank);
      SameCount(ns, news, nbs);
      NonePlaced(hash, nbs);
      news, nbs := MoveRow(hash, oldBuckets, ns, olds, cur, news, nbs);
      buckets, nodes, chains := ns, news, nbs;
    }

    method Insert(e: Elem<V>, memory: bool) returns (r: Elem?<V>)
      requires Valid() && e !in nodes
      modifies this, buckets, nodes, e
      ensures Valid() && (memory ==> Suits(|buckets|, |Elems()|))
      ensures r != null ==> r in old(Elems()) && Eq(less, r.value, e.value) && Elems() == old(Elems())
      ensures r == null ==> (forall x :: x in old(Elems()) ==> !Eq(less, x.value, e.value)) && Elems() == old(Elems()) + multiset{e}
      ensures (buckets == old(buckets) || fresh(buckets)) && forall x :: x in nodes ==> x in old(nodes) || x == e || fresh(x)
    {
      hide Valid, All, Suits;
      var b := FindBucket(e.value);
      ghost var i;
      r, i := FindElem(b, e.value);
      if r == null { Add(b, e); }
      Rehash(memory);
    }

    /** insert_elem. */
    method Add(b: nat, e: Elem<V>)
      requires Valid() && e !in nodes && b < |buckets| && b == hash(e.value) % |buckets|
      requires forall x :: x in Elems() ==> !Eq(less, x.value, e.value)
      modifies this`elemCnt, this`nodes, this`chains, buckets, nodes, e
      ensures Valid() && Elems() == old(Elems()) + multiset{e} && nodes == old(nodes) + {e}
    {
      hide Placed, All, Unique, Respects, StrictWeakOrder, Count, Holds;
      SameCount(buckets, nodes, chains);
      PushedPlaced(hash, chains, b, e);
      Added(less, Elems(), e);
      elemCnt := elemCnt + 1;
      PushTo(buckets, b, e, nodes, chains);
      nodes, chains := nodes + {e}, chains[b := [e] + chains[b]];
    }

    /** remove_elem. */
    method Drop(b: nat, x: Elem<V>, ghost i: nat)
      requires Valid() && b < |buckets| && i < |chains[b]| && x == chains[b][i]
      modifies this`elemCnt, this`nodes, this`chains, buckets, nodes
      ensures Valid() && old(Elems())[x] == 1 && Elems() == old(Elems()) - multiset{x} && nodes == old(nodes) - {x}
    {
      hide Placed, All, Unique, Respects, StrictWeakOrder, Count, Holds;
      SameCount(buckets, nodes, chains);
      InAll(chains, x);
      OneLessUnique(less, Elems(), x);
      TakenPlaced(hash, chains, b, i);
      elemCnt := elemCnt - 1;
      TakeFrom(buckets, b, x, i, nodes, chains);
      nodes, chains := nodes - {x}, chains[b := Without(chains[b], i, i + 1)];
      assert Elems() == old(Elems()) - multiset{x};
    }

    /** The element equal to e, if there is one, taken out of its bucket. */
    method TakeEqual(b: nat, e: V) returns (r: Elem?<V>)
      requires Valid() && b < |buckets| && b == hash(e) % |buckets|
      modifies this`elemCnt, this`nodes, this`chains, buckets, nodes
      ensures Valid() && nodes <= old(nodes) && forall x :: x in Elems() ==> !Eq(less, x.value, e)
      ensures if r == null then Elems() == old(Elems()) else r in old(Elems()) && Eq(less, r.value, e) && Elems() == old(Elems()) - multiset{r}
      ensures r == null ==> chains == old(chains) && elemCnt == old(elemCnt)
    {
      hide Placed, All, Unique, Respects, StrictWeakOrder, Count, Holds;
      SameCount(buckets, nodes, chains);
      ghost var i;
      r, i := FindElem(b, e);
      if r != null {
        Dropped(less, Elems(), r, e);
        Drop(b, r, i);
      }
    }

    method Replace(e: Elem<V>, memory: bool) returns (r: Elem?<V>)
      requires Valid() && e !in nodes
      modifies this, buckets, nodes, e
      ensures Valid() && (memory ==> Suits(|buckets|, |Elems()|))
      ensures r != null ==> r in old(Elems()) && Eq(less, r.value, e.value) && Elems() == old(Elems()) - multiset{r} + multiset{e}
      ensures r == null ==> (forall x :: x in old(Elems()) ==> !Eq(less, x.value, e.value)) && Elems() == old(Elems()) + multiset{e}
      ensures (buckets == old(buckets) || fresh(buckets)) && forall x :: x in nodes ==> x in old(nodes) || x == e || fresh(x)
    {
      hide Valid, All, Suits;
      var b := FindBucket(e.value);
      r := TakeEqual(b, e.value);
      Add(b, e);
      Rehash(memory);
    }

    method Delete(e: V, memory: bool) returns (r: Elem?<V>)
      requires Valid()
      modifies this, buckets, nodes
      ensures Valid() && (memory && r != null ==> Suits(|buckets|, |Elems()|))
      ensures r != null ==> r in old(Elems()) && Eq(less, r.value, e) && Elems() == old(Elems()) - multiset{r}
      ensures r == null ==> (forall x :: x in old(Elems()) ==> !Eq(less, x.value, e)) && Elems() == old(Elems())
      ensures (buckets == old(buckets) || fresh(buckets)) && forall x :: x in nodes ==> x in old(nodes) || fresh(x)
    {
      hide Valid, All, Suits;
      var b := FindBucket(e);
      r := TakeEqual(b, e);
      if r != null { Rehash(memory); }
    }
  }

  // ---------------------------------------------------------------- iteration

  /** What there is to visit from place k of bucket b on. */
  function From<V>(bs: seq<seq<V>>, b: nat, k: nat): (s: seq<V>)
    requires b < |bs| && k <= |bs[b]|
  {
    bs[b][k..] + Row(bs[b + 1..])
  }

  /** At the end of a bucket that is the whole of the next one and what follows it. */
  lemma NextBucket<V>(bs: seq<seq<V>>, b: nat)
    requires b < |bs|
    ensures From(bs, b, |bs[b]|) == if b + 1 < |bs| then From(bs, b + 1, 0) else []
  {
    if b + 1 < |bs| {
      var rest := bs[b + 1..];
      assert rest[0] == bs[b + 1] && rest[1..] == bs[b + 2..];
    }
  }

  lemma Visit<V>(bs: seq<seq<V>>, b: nat, k: nat)
    requires b < |bs| && k < |bs[b]|
    ensures From(bs, b, k) == [bs[b][k]] + From(bs, b, k + 1)
  {
    assert bs[b][k..] == [bs[b][k]] + bs[b][k + 1..];
  }

  lemma FromTheStart<V>(bs: seq<seq<V>>)
    requires bs != []
    ensures multiset(From(bs, 0, 0)) == All(bs)
  {
    RowIsAll(bs);
    assert From(bs, 0, 0) == Row(bs);
  }

  class Cursor<V(!new)> {
    const table: Table<V>
    var bucket: nat
    var elem: Elem?<V>
    ghost var pos: int

    /** elem is at place pos of the bucket's list, or null at the end of the table. */
    ghost predicate Valid()
      reads this, table, table.buckets, table.nodes
    {
      && Holds(table.buckets, table.nodes, table.chains)
      && (elem != null ==>
            && bucket < |table.buckets| && -1 <= pos < |table.chains[bucket]|
            && pos + 1 < |table.buckets[bucket].chain| && elem == table.buckets[bucket].chain[pos + 1])
    }

    ghost function Remaining(): (s: seq<Elem<V>>)
      requires Valid()
      reads this, table, table.buckets, table.nodes
    {
      if elem == null then [] else From(table.chains, bucket, pos + 1)
    }

    /** hash_first: every element is still to come, each of them once. */
    constructor (table: Table<V>)
      requires table.Valid()
      ensures Valid() && this.table == table && elem != null
      ensures multiset(Remaining()) == table.Elems() && |Remaining()| == table.elemCnt
    {
      this.table, bucket, pos := table, 0, -1;
      elem := table.buckets[0].head;
      new;
      FromTheStart(table.chains);
    }

    /** The element after this one in its list, which may be the list's end. */
    method Step() returns (p: Elem<V>)
      requires Valid() && elem != null
      ensures |table.buckets[bucket].chain| == |table.chains[bucket]| + 2 && p == table.buckets[bucket].chain[pos + 2]
    {
      LinksAt(table.buckets[bucket].chain, pos + 1);
      p := elem.next;
    }

    /** On from the end of a list to the next list that has an element; k is p's place in bucket b. */
    method Skip(start: Elem<V>, ghost at: nat) returns (b: nat, p: Elem?<V>, ghost k: nat)
      requires Holds(table.buckets, table.nodes, table.chains) && bucket < |table.buckets| && at <= |table.chains[bucket]|
      requires at + 1 < |table.buckets[bucket].chain| && start == table.buckets[bucket].chain[at + 1]
      ensures var rest := From(table.chains, bucket, at);
        if p == null then rest == []
        else
          && b < |table.chains| == |table.buckets| && k < |table.chains[b]|
          && p == table.chains[b][k] && rest == From(table.chains, b, k)
    {
      ghost var ls, nodes, bs := table.buckets, table.nodes, table.chains;
      SameCount(ls, nodes, bs);
      hide Holds, List.Valid, List.Items, From;
      b, p, k := bucket, start, at;
      AtTheEnd(ls, nodes, bs, b, k);
      while p == table.buckets[b].tail
        invariant b < |bs| && k <= |bs[b]| && p != null && From(bs, bucket, at) == From(bs, b, k)
        invariant if k == |bs[b]| then p == ls[b].tail else p == bs[b][k] && p != ls[b].tail
        decreases |bs| - b
      {
        NextBucket(bs, b);
        b := b + 1;
        if b >= |table.buckets| { return b, null, 0; }
        Beginning(ls, nodes, bs, b);
        AtTheEnd(ls, nodes, bs, b, 0);
        p, k := table.buckets[b].head.next, 0;
      }
    }

    method Next() returns (r: Elem?<V>)
      requires Valid() && elem != null
      modifies this
      ensures Valid() && r == elem
      ensures old(Remaining()) == [] ==> r == null
      ensures old(Remaining()) != [] ==> r == old(Remaining())[0] && Remaining() == old(Remaining())[1..]
    {
      hide List.Valid, List.Items, From;
      var p := Step();
      var b;
      ghost var k;
      b, r, k := Skip(p, pos + 1);
      if r != null {
        AtTheEnd(table.buckets, table.nodes, table.chains, b, k);
        Visit(table.chains, b, k);
      }
      bucket, elem, pos := b, r, k;
    }
  }

  /** The element at place k is the list's tail exactly when the chain is used up. */
  lemma AtTheEnd<V(!new)>(ls: seq<List<V>>, nodes: set<Elem<V>>, bs: seq<seq<Elem<V>>>, i: nat, k: nat)
    requires Holds(ls, nodes, bs) && i < |ls| && k <= |bs[i]|
    ensures |ls[i].chain| == |bs[i]| + 2
    ensures if k == |bs[i]| then ls[i].chain[k + 1] == ls[i].tail else ls[i].chain[k + 1] == bs[i][k] && bs[i][k] != ls[i].tail
  {
    SameElemSamePlace(ls[i].chain, k + 1, |ls[i].chain| - 1);
  }
}

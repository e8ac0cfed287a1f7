/** The kernel's intrusive list: a chain of elements between a head and a tail
    sentinel, linked both ways, and the in-place natural merge sort on it.

    `chain` is the sequence of elements that the links spell out, sentinels
    included.  Every operation rewrites links only; the contracts say what the
    links then spell. */
module LinkedList {
  import opened Sequences

  /** `less` as the comparison functions of list.h are meant: irreflexive,
      transitive, and with transitive incomparability. */
  ghost predicate StrictWeakOrder<V(!new)>(less: (V, V) -> bool) {
    && (forall x :: !less(x, x))
    && (forall x, y, z :: less(x, y) && less(y, z) ==> less(x, z))
    && (forall x, y, z :: less(x, z) ==> less(x, y) || less(y, z))
  }

  class Elem<V> {
    const value: V
    var prev: Elem?<V>
    var next: Elem?<V>

    constructor (v: V)
      ensures value == v && prev == null && next == null
    {
      value := v;
      prev, next := null, null;
    }
  }

  /** The elements of `c` are distinct and are linked, both ways, in the order of `c`. */
  ghost predicate Linked<V>(c: seq<Elem<V>>)
    reads c
  {
    && Distinct(c)
    && (forall i :: 0 <= i < |c| - 1 ==> c[i].next == c[i + 1])
    && (forall i :: 0 < i < |c| ==> c[i].prev == c[i - 1])
  }

  /** `c` spells a whole list: at least the two sentinels, with null outer links. */
  ghost predicate Spells<V>(c: seq<Elem<V>>)
    reads c
  {
    && |c| >= 2
    && Linked(c)
    && c[0].prev == null
    && c[|c| - 1].next == null
  }

  lemma LinksAt<V>(c: seq<Elem<V>>, k: nat)
    requires Spells(c) && k < |c| - 1
    ensures c[k].next == c[k + 1] && c[k + 1].prev == c[k]
  {
  }

  lemma LinkedIsDistinct<V>(c: seq<Elem<V>>)
    requires Linked(c)
    ensures Distinct(c)
  {
  }

  lemma SameElemSamePlace<V>(c: seq<Elem<V>>, i: nat, j: nat)
    requires Spells(c) && i < |c| && j < |c|
    ensures c[i] == c[j] ==> i == j
  {
  }

  // ---------------------------------------------------------------- insertion, removal, splicing

  function Put<T>(s: seq<T>, k: nat, e: T): (t: seq<T>)
    requires k <= |s|
  {
    s[..k] + [e] + s[k..]
  }

  method Insert<V>(before: Elem<V>, elem: Elem<V>, ghost c: seq<Elem<V>>, ghost k: nat)
    requires Spells(c) && 0 < k < |c| && c[k] == before && elem !in c
    modifies c[k - 1], before, elem
    ensures Spells(Put(c, k, elem))
  {
    elem.prev := before.prev;
    elem.next := before;
    before.prev.next := elem;
    before.prev := elem;
    PutLinksSpell(c, k, elem);
  }

  lemma PutLinksSpell<V>(c: seq<Elem<V>>, k: nat, elem: Elem<V>)
    requires 0 < k < |c| && Distinct(c) && elem !in c
    requires c[0].prev == null && c[|c| - 1].next == null
    requires forall i :: 0 <= i < |c| - 1 ==> c[i].next == if i == k - 1 then elem else c[i + 1]
    requires forall i :: 0 < i < |c| ==> c[i].prev == if i == k then elem else c[i - 1]
    requires elem.prev == c[k - 1] && elem.next == c[k]
    ensures Spells(Put(c, k, elem))
  {
    var d := Put(c, k, elem);
    forall i | 0 <= i < |d| - 1 ensures d[i].next == d[i + 1] {
      assert i < k ==> d[i] == c[i];
      assert i > k ==> d[i] == c[i - 1];
    }
    forall i | 0 < i < |d| ensures d[i].prev == d[i - 1] {
      assert i < k ==> d[i] == c[i];
      assert i > k ==> d[i] == c[i - 1];
    }
  }

  /** `c` without its stretch [f, l). */
  function Without<T>(c: seq<T>, f: nat, l: nat): (d: seq<T>)
    requires f <= l <= |c|
  {
    c[..f] + c[l..]
  }

  method Remove<V>(elem: Elem<V>, ghost c: seq<Elem<V>>, ghost k: nat) returns (following: Elem<V>)
    requires Spells(c) && 0 < k < |c| - 1 && c[k] == elem
    modifies c[k - 1], c[k + 1]
    ensures Spells(Without(c, k, k + 1)) && following == c[k + 1]
  {
    elem.prev.next := elem.next;
    elem.next.prev := elem.prev;
    following := elem.next;
  }

  /** `c` with its stretch [f, l) moved in front of its stretch [b, f). */
  function MoveBack<T>(c: seq<T>, b: nat, f: nat, l: nat): (d: seq<T>)
    requires b <= f <= l <= |c|
    ensures |d| == |c|
    ensures forall i :: 0 <= i < |c| ==> d[i] == c[MovedFrom(b, f, l, i)]
    ensures multiset(d) == multiset(c)
    ensures forall e :: e in d ==> e in c
  {
    assert c == c[..b] + c[b..f] + c[f..l] + c[l..];
    c[..b] + c[f..l] + c[b..f] + c[l..]
  }

  function MovedFrom(b: nat, f: nat, l: nat, i: nat): (k: nat)
    requires b <= f <= l
  {
    if i < b || i >= l then i else if i < b + l - f then i - b + f else i - (l - f)
  }

  /** `d` with the stretch `m` in front of its element at `b`. */
  function With<T>(d: seq<T>, b: nat, m: seq<T>): (e: seq<T>)
    requires b <= |d|
  {
    d[..b] + m + d[b..]
  }

  /** Cleanly removes first..final from their list; they stay linked to each other. */
  method CutOut<V>(first: Elem<V>, final: Elem<V>, ghost c: seq<Elem<V>>, ghost f: nat, ghost l: nat)
    requires Spells(c) && 0 < f < l < |c| && first == c[f] && final == c[l - 1]
    modifies c[f - 1], c[l]
    ensures Spells(Without(c, f, l)) && Linked(c[f..l])
  {
    first.prev.next := final.next;
    final.next.prev := first.prev;
    CutSpells(c, f, l);
  }

  lemma CutSpells<V>(c: seq<Elem<V>>, f: nat, l: nat)
    requires 0 < f < l < |c| && Distinct(c) && c[0].prev == null && c[|c| - 1].next == null
    requires c[f - 1].next == c[l] && forall i :: 0 <= i < |c| - 1 && i != f - 1 ==> c[i].next == c[i + 1]
    requires c[l].prev == c[f - 1] && forall i :: 0 < i < |c| && i != l ==> c[i].prev == c[i - 1]
    ensures Spells(Without(c, f, l)) && Linked(c[f..l])
  {
    var d := Without(c, f, l);
    hide Without;
    forall i | 0 <= i < |d| - 1 ensures d[i].next == d[i + 1] && d[i + 1].prev == d[i] {
      CutAt(c, f, l, i);
      CutAt(c, f, l, i + 1);
    }
    CutAt(c, f, l, 0);
    CutAt(c, f, l, |d| - 1);
    CutIsDistinct(c, f, l);
  }

  lemma CutAt<T>(c: seq<T>, f: nat, l: nat, i: nat)
    requires f <= l <= |c| && i < |c| - (l - f)
    ensures |Without(c, f, l)| == |c| - (l - f) && Without(c, f, l)[i] == c[if i < f then i else i + (l - f)]
  {
  }

  lemma CutIsDistinct<T>(c: seq<T>, f: nat, l: nat)
    requires f <= l <= |c| && Distinct(c)
    ensures Distinct(Without(c, f, l)) && Distinct(c[f..l])
  {
    var d := Without(c, f, l);
    forall i, j | 0 <= i < j < |d| ensures d[i] != d[j] {
      CutAt(c, f, l, i);
      CutAt(c, f, l, j);
    }
  }

  /** Links first..final into a list before `before`. */
  method Graft<V>(before: Elem<V>, first: Elem<V>, final: Elem<V>, ghost d: seq<Elem<V>>, ghost b: nat, ghost m: seq<Elem<V>>)
    requires Spells(d) && 0 < b < |d| && before == d[b] && m != [] && Linked(m) && first == m[0] && final == m[|m| - 1]
    requires forall e :: e in m ==> e !in d
    modifies d[b - 1], before, first, final
    ensures Spells(With(d, b, m))
  {
    assert forall i :: 0 <= i < |m| ==> m[i] in m;
    assert forall i :: 0 <= i < |d| ==> d[i] in d;
    first.prev := before.prev;
    final.next := before;
    before.prev.next := first;
    before.prev := final;
    WithSpells(d, b, m);
  }

  lemma WithSpells<V>(d: seq<Elem<V>>, b: nat, m: seq<Elem<V>>)
    requires 0 < b < |d| && m != [] && Distinct(d) && Distinct(m) && (forall e :: e in m ==> e !in d)
    requires d[0].prev == null && d[|d| - 1].next == null
    requires d[b - 1].next == m[0] && forall i :: 0 <= i < |d| - 1 && i != b - 1 ==> d[i].next == d[i + 1]
    requires d[b].prev == m[|m| - 1] && forall i :: 0 < i < |d| && i != b ==> d[i].prev == d[i - 1]
    requires m[|m| - 1].next == d[b] && forall i :: 0 <= i < |m| - 1 ==> m[i].next == m[i + 1]
    requires m[0].prev == d[b - 1] && forall i :: 0 < i < |m| ==> m[i].prev == m[i - 1]
    ensures Spells(With(d, b, m))
  {
    var e := With(d, b, m);
    hide With;
    forall i | 0 <= i < |e| - 1 ensures e[i].next == e[i + 1] && e[i + 1].prev == e[i] {
      WithAt(d, b, m, i);
      WithAt(d, b, m, i + 1);
    }
    WithAt(d, b, m, 0);
    WithAt(d, b, m, |e| - 1);
    WithIsDistinct(d, b, m);
  }

  lemma WithAt<T>(d: seq<T>, b: nat, m: seq<T>, i: nat)
    requires b <= |d| && i < |d| + |m|
    ensures |With(d, b, m)| == |d| + |m|
    ensures With(d, b, m)[i] == if i < b then d[i] else if i < b + |m| then m[i - b] else d[i - |m|]
  {
  }

  lemma WithIsDistinct<T>(d: seq<T>, b: nat, m: seq<T>)
    requires b <= |d| && Distinct(d) && Distinct(m) && forall e :: e in m ==> e !in d
    ensures Distinct(With(d, b, m))
  {
    var e := With(d, b, m);
    assert forall i :: 0 <= i < |m| ==> m[i] in m;
    assert forall i :: 0 <= i < |d| ==> d[i] in d;
    forall i, j | 0 <= i < j < |e| ensures e[i] != e[j] {
      WithAt(d, b, m, i);
      WithAt(d, b, m, j);
    }
  }

  /** list_splice: takes first..last (exclusive) out of its list and puts it before `before`.  When that is in the same
      list it is outside the stretch, and `d` and `b` are what is left of the list and the place there. */
  method Splice<V>(before: Elem<V>, first: Elem<V>, last: Elem<V>,
                   ghost c: seq<Elem<V>>, ghost f: nat, ghost l: nat, ghost d: seq<Elem<V>>, ghost b: nat)
    requires Spells(c) && 0 < f <= l < |c| && first == c[f] && last == c[l]
    requires 0 < b < |d| && before == d[b]
    requires d == Without(c, f, l) || (Spells(d) && forall e :: e in c ==> e !in d)
    modifies d[b - 1], before, c[f - 1], first, c[l - 1], last
    ensures d != Without(c, f, l) ==> Spells(Without(c, f, l))
    ensures Spells(With(d, b, c[f..l]))
  {
    hide With, Spells, Linked, Without;
    SameElemSamePlace(c, f, l);
    if first == last {
      NothingMoved(c, f, d, b);
      return;
    }
    LinksAt(c, l - 1);
    var final := last.prev;
    ghost var m := c[f..l];
    Stretch(c, f, l);
    assert c[f - 1] in c && c[l] in c && m[0] in m && m[|m| - 1] in m && d[b - 1] in d && d[b] in d;
    CutOut(first, final, c, f, l);
    ghost var left := Without(c, f, l);
    assert Spells(left) && (d != left ==> forall e :: e in left ==> e !in d && e !in m);
    Graft(before, first, final, d, b, m);
    assert d != left ==> Spells(left);
  }

  lemma NothingMoved<T>(c: seq<T>, f: nat, d: seq<T>, b: nat)
    requires f <= |c| && b <= |d|
    ensures Without(c, f, f) == c && With(d, b, c[f..f]) == d
  {
  }

  lemma Stretch<V>(c: seq<Elem<V>>, f: nat, l: nat)
    requires Spells(c) && 0 < f < l < |c|
    ensures c[f..l] != [] && c[f..l][0] == c[f] && c[f..l][l - f - 1] == c[l - 1]
    ensures forall e :: e in c[f..l] ==> e in c && e !in Without(c, f, l)
    ensures forall e :: e in Without(c, f, l) ==> e in c
  {
    forall e | e in c[f..l] ensures e in c && e !in Without(c, f, l) {
      var i :| f <= i < l && c[i] == e;
      assert forall k :: 0 <= k < |c| && k != i ==> c[k] != e;
    }
  }

  /** Within one list, the stretch moves to an earlier place. */
  lemma SplicedBack<T>(c: seq<T>, b: nat, f: nat, l: nat)
    requires b <= f <= l <= |c|
    ensures With(Without(c, f, l), b, c[f..l]) == MoveBack(c, b, f, l)
  {
    var d := Without(c, f, l);
    assert d[..b] == c[..b] && d[b..] == c[b..f] + c[l..];
  }

  /** Or to a later one. */
  lemma SplicedForth<T>(c: seq<T>, b: nat, f: nat, l: nat)
    requires f <= l <= b <= |c|
    ensures With(Without(c, f, l), b - (l - f), c[f..l]) == MoveBack(c, f, l, b)
  {
    var d := Without(c, f, l);
    assert d[..b - (l - f)] == c[..f] + c[l..b] && d[b - (l - f)..] == c[b..];
  }

  // ---------------------------------------------------------------- order

  /** No element of c[lo..hi) is less than one that stands before it. */
  ghost predicate Sorted<V>(c: seq<Elem<V>>, less: (V, V) -> bool, lo: nat, hi: nat)
    requires hi <= |c|
  {
    forall x, y :: lo <= x < y < hi ==> !less(c[y].value, c[x].value)
  }

  ghost predicate Ascending<V>(c: seq<Elem<V>>, less: (V, V) -> bool, lo: nat, hi: nat)
    requires hi <= |c|
  {
    forall x :: lo < x < hi ==> !less(c[x].value, c[x - 1].value)
  }

  lemma {:induction false} AscendingIsSorted<V(!new)>(c: seq<Elem<V>>, less: (V, V) -> bool, lo: nat, hi: nat)
    requires StrictWeakOrder(less) && hi <= |c| && Ascending(c, less, lo, hi)
    ensures Sorted(c, less, lo, hi)
    decreases hi
  {
    if hi > lo + 1 {
      AscendingIsSorted(c, less, lo, hi - 1);
      assert !less(c[hi - 1].value, c[hi - 2].value);
    }
  }

  /** Every pair of elements stands in its order of `rank`, or the earlier one is
      strictly less: only out-of-order pairs have been exchanged. */
  ghost predicate OnlyInversionsUndone<V>(rank: map<Elem<V>, nat>, c: seq<Elem<V>>, less: (V, V) -> bool)
  {
    && (forall x :: 0 <= x < |c| ==> c[x] in rank)
    && (forall x, y :: 0 < x < y < |c| - 1 ==> rank[c[x]] < rank[c[y]] || less(c[x].value, c[y].value))
  }

  lemma NotLessThanAnyBefore<V(!new)>(c: seq<Elem<V>>, less: (V, V) -> bool, a: nat, z: nat, j: nat)
    requires StrictWeakOrder(less) && a < |c| && z < j <= |c| && Sorted(c, less, z, j)
    requires !less(c[z].value, c[a].value)
    ensures forall y :: z <= y < j ==> !less(c[y].value, c[a].value)
  {
  }

  lemma LessThanAllAfter<V(!new)>(c: seq<Elem<V>>, less: (V, V) -> bool, i: nat, a: nat, m: nat)
    requires StrictWeakOrder(less) && i <= a < m < |c| && Sorted(c, less, i, m)
    requires less(c[m].value, c[a].value)
    ensures forall x :: a <= x < m ==> less(c[m].value, c[x].value) && !less(c[x].value, c[m].value)
  {
  }

  lemma MoveBackKeepsEnds<T>(c: seq<T>, i: nat, a: nat, z: nat, j: nat)
    requires i <= a < z < j <= |c|
    ensures var d := MoveBack(c, a, z, z + 1); d[..i] == c[..i] && d[j..] == c[j..] && d[a + 1] == c[a]
  {
  }

  /** One step of the merge: the head of the second run, less than what remains of
      the first, moves in front of it. */
  lemma MergeStepSorted<V>(c: seq<Elem<V>>, less: (V, V) -> bool, i: nat, a: nat, m: nat, j: nat)
    requires 0 < i <= a < m < j < |c|
    requires Sorted(c, less, i, m) && Sorted(c, less, m, j)
    requires forall x :: a <= x < m ==> less(c[m].value, c[x].value) && !less(c[x].value, c[m].value)
    requires forall x, y :: i <= x < a && m <= y < j ==> !less(c[y].value, c[x].value)
    ensures var d := MoveBack(c, a, m, m + 1);
            && Sorted(d, less, i, m + 1) && Sorted(d, less, m + 1, j)
            && (forall x, y :: i <= x < a + 1 && m + 1 <= y < j ==> !less(d[y].value, d[x].value))
  {
    var d := MoveBack(c, a, m, m + 1);
    forall x, y | i <= x < y < m + 1 ensures !less(d[y].value, d[x].value) {
      assert d[x] == c[MovedFrom(a, m, m + 1, x)] && d[y] == c[MovedFrom(a, m, m + 1, y)];
    }
  }

  lemma MergeStepUndoesInversions<V>(c: seq<Elem<V>>, less: (V, V) -> bool, rank: map<Elem<V>, nat>, a: nat, m: nat)
    requires 0 < a < m < |c| - 1 && OnlyInversionsUndone(rank, c, less)
    requires forall x :: a <= x < m ==> less(c[m].value, c[x].value)
    ensures OnlyInversionsUndone(rank, MoveBack(c, a, m, m + 1), less)
  {
    var d := MoveBack(c, a, m, m + 1);
    forall x, y | 0 < x < y < |d| - 1 ensures rank[d[x]] < rank[d[y]] || less(d[x].value, d[y].value) {
      assert d[x] == c[MovedFrom(a, m, m + 1, x)] && d[y] == c[MovedFrom(a, m, m + 1, y)];
    }
  }

  /** The merge's loop invariant: of the runs c0[i..m) and c0[m..j), what is in
      c[i..a) has been placed, c[a..z) is left of the first and c[z..j) of the second. */
  ghost predicate Merging<V>(c0: seq<Elem<V>>, c: seq<Elem<V>>, less: (V, V) -> bool, rank: map<Elem<V>, nat>,
                             i: nat, a: nat, z: nat, j: nat)
    requires 0 < i <= a <= z <= j < |c| == |c0|
  {
    && multiset(c) == multiset(c0) && c[..i] == c0[..i] && c[j..] == c0[j..]
    && Sorted(c, less, i, z) && Sorted(c, less, z, j)
    && (forall x, y :: i <= x < a && z <= y < j ==> !less(c[y].value, c[x].value))
    && OnlyInversionsUndone(rank, c, less)
  }

  lemma MergeStarts<V>(c: seq<Elem<V>>, less: (V, V) -> bool, rank: map<Elem<V>, nat>, i: nat, m: nat, j: nat)
    requires 0 < i < m < j < |c| && Sorted(c, less, i, m) && Sorted(c, less, m, j) && OnlyInversionsUndone(rank, c, less)
    ensures Merging(c, c, less, rank, i, i, m, j)
  {
  }

  lemma MergeAdvances<V(!new)>(c0: seq<Elem<V>>, c: seq<Elem<V>>, less: (V, V) -> bool, rank: map<Elem<V>, nat>,
                               i: nat, a: nat, z: nat, j: nat)
    requires StrictWeakOrder(less) && 0 < i <= a < z < j < |c| == |c0| && Merging(c0, c, less, rank, i, a, z, j)
    requires !less(c[z].value, c[a].value)
    ensures Merging(c0, c, less, rank, i, a + 1, z, j)
  {
    hide StrictWeakOrder;
    NotLessThanAnyBefore(c, less, a, z, j);
  }

  lemma MergeMoves<V(!new)>(c0: seq<Elem<V>>, c: seq<Elem<V>>, less: (V, V) -> bool, rank: map<Elem<V>, nat>,
                            i: nat, a: nat, z: nat, j: nat)
    requires StrictWeakOrder(less) && 0 < i <= a < z < j < |c| == |c0| && Merging(c0, c, less, rank, i, a, z, j)
    requires less(c[z].value, c[a].value)
    ensures Merging(c0, MoveBack(c, a, z, z + 1), less, rank, i, a + 1, z + 1, j)
    ensures MoveBack(c, a, z, z + 1)[a + 1] == c[a]
  {
    hide StrictWeakOrder, Sorted, OnlyInversionsUndone, MoveBack;
    LessThanAllAfter(c, less, i, a, z);
    MoveBackKeepsEnds(c, i, a, z, j);
    MergeStepSorted(c, less, i, a, z, j);
    MergeStepUndoesInversions(c, less, rank, a, z);
  }

  lemma MergeEnds<V>(c0: seq<Elem<V>>, c: seq<Elem<V>>, less: (V, V) -> bool, rank: map<Elem<V>, nat>,
                     i: nat, a: nat, z: nat, j: nat)
    requires 0 < i <= a <= z <= j < |c| == |c0| && Merging(c0, c, less, rank, i, a, z, j) && (a == z || z == j)
    ensures multiset(c) == multiset(c0) && c[..i] == c0[..i] && c[j..] == c0[j..]
    ensures Sorted(c, less, i, j) && OnlyInversionsUndone(rank, c, less)
  {
  }

  // ---------------------------------------------------------------- runs

  /** The number of places in c[lo..hi) where an element is less than the one before
      it; c[lo..hi), if not empty, has one maximal run more than that. */
  ghost function Descents<V>(c: seq<Elem<V>>, less: (V, V) -> bool, lo: nat, hi: nat): (n: nat)
    requires hi <= |c|
    decreases hi
  {
    if hi <= lo + 1 then 0
    else Descents(c, less, lo, hi - 1) + Drop(c, less, hi - 1)
  }

  ghost function Drop<V>(c: seq<Elem<V>>, less: (V, V) -> bool, k: nat): (n: nat)
    requires 0 < k < |c|
  {
    if less(c[k].value, c[k - 1].value) then 1 else 0
  }

  lemma {:induction false} DescentsSplit<V>(c: seq<Elem<V>>, less: (V, V) -> bool, lo: nat, mid: nat, hi: nat)
    requires lo < mid < hi <= |c|
    ensures Descents(c, less, lo, hi) == Descents(c, less, lo, mid) + Drop(c, less, mid) + Descents(c, less, mid, hi)
    decreases hi
  {
    if mid + 1 < hi {
      DescentsSplit(c, less, lo, mid, hi - 1);
    }
  }

  lemma {:induction false} DescentsSame<V>(c: seq<Elem<V>>, d: seq<Elem<V>>, less: (V, V) -> bool, lo: nat, hi: nat)
    requires hi <= |c| == |d| && forall x :: lo <= x < hi ==> c[x] == d[x]
    ensures Descents(c, less, lo, hi) == Descents(d, less, lo, hi)
    decreases hi
  {
    if hi > lo + 1 {
      DescentsSame(c, d, less, lo, hi - 1);
    }
  }

  lemma {:induction false} SortedHasNoDescents<V>(c: seq<Elem<V>>, less: (V, V) -> bool, lo: nat, hi: nat)
    requires hi <= |c| && Sorted(c, less, lo, hi)
    ensures Descents(c, less, lo, hi) == 0
    decreases hi
  {
    if hi > lo + 1 {
      SortedHasNoDescents(c, less, lo, hi - 1);
    }
  }

  /** Merging two adjacent maximal runs leaves fewer maximal runs in the whole list,
      and the merged run still ends where an element is less than its predecessor. */
  lemma MergeDropsDescents<V(!new)>(c: seq<Elem<V>>, d: seq<Elem<V>>, less: (V, V) -> bool, i: nat, m: nat, j: nat)
    requires StrictWeakOrder(less) && |c| == |d| && 0 < i < m < j < |c|
    requires c[..i] == d[..i] && c[j..] == d[j..] && multiset(c) == multiset(d)
    requires Sorted(c, less, i, m) && Sorted(c, less, m, j) && Sorted(d, less, i, j)
    requires 1 < i ==> less(c[i].value, c[i - 1].value)
    requires less(c[m].value, c[m - 1].value)
    requires j < |c| - 1 ==> less(c[j].value, c[j - 1].value)
    ensures Descents(d, less, 1, |d| - 1) < Descents(c, less, 1, |c| - 1)
    ensures j < |c| - 1 ==> less(d[j].value, d[j - 1].value)
  {
    hide StrictWeakOrder, Descents;
    var n := |c| - 1;
    assert j < n ==> less(d[j].value, d[j - 1].value) by { MergedEnd(c, d, less, i, j); }
    CountAround(c, less, i, j);
    CountAround(d, less, i, j);
    DescentsSplit(c, less, i, m, j);
    SortedHasNoDescents(d, less, i, j);
    DescentsSame(c, d, less, 1, i);
    DescentsSame(c, d, less, j, n);
  }

  lemma StaysWithin<T>(c: seq<T>, d: seq<T>, i: nat, j: nat, x: nat) returns (k: nat)
    requires |c| == |d| && i <= x < j <= |c|
    requires c[..i] == d[..i] && c[j..] == d[j..] && multiset(c) == multiset(d)
    ensures i <= k < j && d[k] == c[x]
  {
    CountInParts(c, i, j, c[x]);
    CountInParts(d, i, j, c[x]);
    var s: seq<T>, t: seq<T> := c[i..j], d[i..j];
    assert s[x - i] == c[x] && multiset(s)[c[x]] > 0;
    var y :| 0 <= y < |t| && t[y] == c[x];
    k := i + y;
  }

  lemma CountInParts<T>(c: seq<T>, i: nat, j: nat, x: T)
    requires i <= j <= |c|
    ensures multiset(c)[x] == multiset(c[..i])[x] + multiset(c[i..j])[x] + multiset(c[j..])[x]
  {
    assert c == c[..i] + c[i..j] + c[j..];
  }

  lemma MergedEnd<V(!new)>(c: seq<Elem<V>>, d: seq<Elem<V>>, less: (V, V) -> bool, i: nat, j: nat)
    requires StrictWeakOrder(less) && |c| == |d| && 0 < i < j < |c|
    requires c[..i] == d[..i] && c[j..] == d[j..] && multiset(c) == multiset(d) && Sorted(d, less, i, j)
    ensures less(c[j].value, c[j - 1].value) ==> less(d[j].value, d[j - 1].value)
  {
    var k := StaysWithin(c, d, i, j, j - 1);
    assert d[j] == c[j];
  }

  lemma CountAround<V>(c: seq<Elem<V>>, less: (V, V) -> bool, i: nat, j: nat)
    requires 0 < i < j < |c|
    ensures Descents(c, less, 1, |c| - 1) ==
              Descents(c, less, 1, i) + (if 1 < i then Drop(c, less, i) else 0) + Descents(c, less, i, j)
              + (if j < |c| - 1 then Drop(c, less, j) else 0) + Descents(c, less, j, |c| - 1)
  {
    if j < |c| - 1 { DescentsSplit(c, less, 1, j, |c| - 1); }
    if 1 < i { DescentsSplit(c, less, 1, i, j); }
  }

  // ---------------------------------------------------------------- what sorting means

  lemma PutInside<T>(c: seq<T>, k: nat, e: T)
    requires 0 < k < |c|
    ensures Put(c, k, e)[1..|c|] == Put(c[1..|c| - 1], k - 1, e)
  {
    assert c[1..|c| - 1][..k - 1] == c[1..k] && c[1..|c| - 1][k - 1..] == c[k..|c| - 1];
  }

  /** `s` with `e` put before the first element it is less than. */
  ghost function Inserted<V>(s: seq<Elem<V>>, e: Elem<V>, less: (V, V) -> bool): (t: seq<Elem<V>>) {
    if s == [] || less(e.value, s[0].value) then [e] + s else [s[0]] + Inserted(s[1..], e, less)
  }

  /** The elements of `s` inserted one after the other. */
  ghost function SortedByInsertion<V>(s: seq<Elem<V>>, less: (V, V) -> bool): (t: seq<Elem<V>>) {
    if s == [] then [] else Inserted(SortedByInsertion(s[..|s| - 1], less), s[|s| - 1], less)
  }

  lemma {:induction false} InsertedAdds<V>(s: seq<Elem<V>>, e: Elem<V>, less: (V, V) -> bool)
    ensures multiset(Inserted(s, e, less)) == multiset(s) + multiset{e}
  {
    if s != [] {
      InsertedAdds(s[1..], e, less);
      assert s == [s[0]] + s[1..];
    }
  }

  lemma {:induction false} SortedByInsertionPermutes<V>(s: seq<Elem<V>>, less: (V, V) -> bool)
    ensures multiset(SortedByInsertion(s, less)) == multiset(s)
  {
    if s != [] {
      SortedByInsertionPermutes(s[..|s| - 1], less);
      InsertedAdds(SortedByInsertion(s[..|s| - 1], less), s[|s| - 1], less);
      assert s == s[..|s| - 1] + [s[|s| - 1]];
    }
  }

  lemma {:induction false} InsertedAt<V>(s: seq<Elem<V>>, e: Elem<V>, less: (V, V) -> bool, k: nat)
    requires k <= |s| && (forall x :: 0 <= x < k ==> !less(e.value, s[x].value))
    requires k < |s| ==> less(e.value, s[k].value)
    ensures Inserted(s, e, less) == Put(s, k, e)
  {
    if k > 0 {
      InsertedAt(s[1..], e, less, k - 1);
      assert [s[0]] + (s[1..][..k - 1] + [e] + s[1..][k - 1..]) == s[..k] + [e] + s[k..];
    }
  }

  /** `t` is sorted, and elements neither of which is less stand in the order of `rank`. */
  ghost predicate StablySorted<V>(t: seq<Elem<V>>, rank: map<Elem<V>, nat>, less: (V, V) -> bool) {
    && (forall x :: 0 <= x < |t| ==> t[x] in rank)
    && (forall x, y :: 0 <= x < y < |t| ==>
          !less(t[y].value, t[x].value) && (less(t[x].value, t[y].value) || rank[t[x]] < rank[t[y]]))
  }

  /** There is only one stable sorting. */
  lemma {:induction false} StablySortedIsUnique<V(!new)>(t: seq<Elem<V>>, u: seq<Elem<V>>, rank: map<Elem<V>, nat>, less: (V, V) -> bool)
    requires multiset(t) == multiset(u) && StablySorted(t, rank, less) && StablySorted(u, rank, less)
    ensures t == u
  {
    assert |t| == |multiset(t)| == |multiset(u)| == |u|;
    if t != [] {
      SameFront(t, u, rank, less);
      TailsPermuted(t, u);
      StablySortedIsUnique(t[1..], u[1..], rank, less);
    }
  }

  lemma SameFront<V(!new)>(t: seq<Elem<V>>, u: seq<Elem<V>>, rank: map<Elem<V>, nat>, less: (V, V) -> bool)
    requires multiset(t) == multiset(u) && t != [] && u != [] && StablySorted(t, rank, less) && StablySorted(u, rank, less)
    ensures t[0] == u[0]
  {
    var i := PlaceIn(u, t, 0);
    var j := PlaceIn(t, u, 0);
  }

  lemma TailsPermuted<T>(t: seq<T>, u: seq<T>)
    requires multiset(t) == multiset(u) && t != [] && u != [] && t[0] == u[0]
    ensures multiset(t[1..]) == multiset(u[1..])
  {
    assert t == [t[0]] + t[1..];
    assert u == [t[0]] + u[1..];
    assert multiset(t[1..]) == multiset(t) - multiset{t[0]};
    assert multiset(u[1..]) == multiset(u) - multiset{t[0]};
  }

  lemma FrontsPermuted<T>(t: seq<T>, u: seq<T>)
    requires multiset(t) == multiset(u) && t != [] && u != [] && t[|t| - 1] == u[|u| - 1]
    ensures multiset(t[..|t| - 1]) == multiset(u[..|u| - 1])
  {
    var z := t[|t| - 1];
    assert t == t[..|t| - 1] + [z];
    assert u == u[..|u| - 1] + [z];
    assert multiset(t) == multiset(t[..|t| - 1]) + multiset{z};
    assert multiset(u) == multiset(u[..|u| - 1]) + multiset{z};
    assert multiset(t[..|t| - 1]) == multiset(t) - multiset{z};
  }

  lemma PlaceIn<T>(t: seq<T>, u: seq<T>, x: nat) returns (k: nat)
    requires multiset(t) == multiset(u) && x < |u|
    ensures k < |t| && t[k] == u[x]
  {
    assert u[x] in multiset(t);
    k :| k < |t| && t[k] == u[x];
  }

  lemma InsertedKeepsStablySorted<V(!new)>(t: seq<Elem<V>>, e: Elem<V>, rank: map<Elem<V>, nat>, less: (V, V) -> bool)
    requires StrictWeakOrder(less) && StablySorted(t, rank, less) && e in rank
    requires forall x :: 0 <= x < |t| ==> rank[t[x]] < rank[e]
    ensures StablySorted(Inserted(t, e, less), rank, less)
  {
    hide StrictWeakOrder, StablySorted, Inserted;
    var k := 0;
    while k < |t| && !less(e.value, t[k].value)
      invariant k <= |t| && forall x :: 0 <= x < k ==> !less(e.value, t[x].value)
    {
      k := k + 1;
    }
    InsertedAt(t, e, less, k);
    if k < |t| { LessThanAllFrom(t, e, rank, less, k); }
    PutKeepsStablySorted(t, e, rank, less, k);
  }

  lemma LessThanAllFrom<V(!new)>(t: seq<Elem<V>>, e: Elem<V>, rank: map<Elem<V>, nat>, less: (V, V) -> bool, k: nat)
    requires StrictWeakOrder(less) && StablySorted(t, rank, less) && k < |t| && less(e.value, t[k].value)
    ensures forall x :: k <= x < |t| ==> less(e.value, t[x].value) && !less(t[x].value, e.value)
  {
  }

  lemma PutKeepsStablySorted<V>(t: seq<Elem<V>>, e: Elem<V>, rank: map<Elem<V>, nat>, less: (V, V) -> bool, k: nat)
    requires StablySorted(t, rank, less) && e in rank && k <= |t|
    requires forall x :: 0 <= x < |t| ==> rank[t[x]] < rank[e]
    requires forall x :: 0 <= x < k ==> !less(e.value, t[x].value)
    requires forall x :: k <= x < |t| ==> less(e.value, t[x].value) && !less(t[x].value, e.value)
    ensures StablySorted(Put(t, k, e), rank, less)
  {
  }

  lemma {:induction false} InsertionSortIsStable<V(!new)>(s: seq<Elem<V>>, rank: map<Elem<V>, nat>, less: (V, V) -> bool)
    requires StrictWeakOrder(less)
    requires forall x :: 0 <= x < |s| ==> s[x] in rank
    requires forall x, y :: 0 <= x < y < |s| ==> rank[s[x]] < rank[s[y]]
    ensures StablySorted(SortedByInsertion(s, less), rank, less)
  {
    if s != [] {
      hide StrictWeakOrder;
      var n := |s| - 1;
      var t := SortedByInsertion(s[..n], less);
      InsertionSortIsStable(s[..n], rank, less);
      SortedByInsertionPermutes(s[..n], less);
      forall x | 0 <= x < |t| ensures rank[t[x]] < rank[s[n]] {
        var k := PlaceIn(s[..n], t, x);
      }
      InsertedKeepsStablySorted(t, s[n], rank, less);
    }
  }

  ghost function PlaceOf<T>(c: seq<T>, e: T): (x: nat)
    requires e in c
    ensures x < |c| && c[x] == e
  {
    var x: nat :| x < |c| && c[x] == e; x
  }

  ghost function Ranks<V>(c: seq<Elem<V>>): (rank: map<Elem<V>, nat>) {
    map e | e in c :: PlaceOf(c, e)
  }

  lemma InteriorPermuted<T>(c: seq<T>, d: seq<T>)
    requires |c| == |d| >= 2 && c[0] == d[0] && c[|c| - 1] == d[|d| - 1] && multiset(c) == multiset(d)
    ensures multiset(c[1..|c| - 1]) == multiset(d[1..|d| - 1])
  {
    TailsPermuted(c, d);
    FrontsPermuted(c[1..], d[1..]);
    assert c[1..][..|c| - 2] == c[1..|c| - 1] && d[1..][..|d| - 2] == d[1..|d| - 1];
  }

  lemma SortedChainIsSortedByInsertion<V(!new)>(c: seq<Elem<V>>, d: seq<Elem<V>>, less: (V, V) -> bool)
    requires StrictWeakOrder(less) && Distinct(c)
    requires |c| == |d| >= 2 && c[0] == d[0] && c[|c| - 1] == d[|d| - 1] && multiset(c) == multiset(d)
    requires OnlyInversionsUndone(Ranks(c), d, less) && Sorted(d, less, 1, |d| - 1)
    ensures d[1..|d| - 1] == SortedByInsertion(c[1..|c| - 1], less)
  {
    hide StrictWeakOrder, SortedByInsertion;
    var s, t := c[1..|c| - 1], d[1..|d| - 1];
    InteriorPermuted(c, d);
    SortedByInsertionPermutes(s, less);
    InsertionSortIsStable(s, Ranks(c), less);
    StablySortedIsUnique(t, SortedByInsertion(s, less), Ranks(c), less);
  }

  lemma InOriginalOrder<V>(c: seq<Elem<V>>, less: (V, V) -> bool)
    requires Distinct(c)
    ensures OnlyInversionsUndone(Ranks(c), c, less)
  {
  }

  // ---------------------------------------------------------------- the list

  class List<V(!new)> {
    const head: Elem<V>
    const tail: Elem<V>
    ghost var chain: seq<Elem<V>>
    ghost var repr: set<Elem<V>>

    /** list_init; the sentinels carry no value of their own, `blank` only fills the field. */
    constructor (blank: V)
      ensures Valid() && Items() == [] && fresh(repr)
    {
      var h := new Elem(blank);
      var t := new Elem(blank);
      h.next, t.prev := t, h;
      head, tail, chain, repr := h, t, [h, t], {h, t};
    }

    ghost predicate Valid()
      reads this, repr
    {
      && |chain| >= 2 && (forall e :: e in chain ==> e in repr)
      && Spells(chain) && chain[0] == head && chain[|chain| - 1] == tail
    }

    /** The interior elements, front to back. */
    ghost function Items(): (s: seq<Elem<V>>)
      requires Valid()
      reads this, repr
    {
      chain[1..|chain| - 1]
    }

    method FindEndOfRun(a: Elem<V>, b: Elem<V>, less: (V, V) -> bool, ghost i: nat, ghost j: nat)
      returns (e: Elem<V>, ghost k: nat)
      requires Valid() && 0 < i < j < |chain| && a == chain[i] && b == chain[j]
      ensures i < k <= j && e == chain[k] && Ascending(chain, less, i, k)
      ensures k < j ==> less(chain[k].value, chain[k - 1].value)
    {
      assert chain[i].next == chain[i + 1];
      e, k := a.next, i + 1;
      while e != b && !less(e.value, e.prev.value)
        invariant i < k <= j && e == chain[k] && e.prev == chain[k - 1] && Ascending(chain, less, i, k)
        decreases j - k
      {
        assert chain[k].next == chain[k + 1];
        e, k := e.next, k + 1;
      }
    }

    /** The step of the merge that moves `q` before `p` and returns what followed `q`. */
    method TakeBefore(p: Elem<V>, q: Elem<V>, ghost a: nat, ghost z: nat) returns (rest: Elem<V>)
      requires Valid() && 0 < a < z < |chain| - 1 && p == chain[a] && q == chain[z]
      modifies this`chain, chain[a - 1], p, chain[z - 1], q, chain[z + 1]
      ensures Valid() && chain == MoveBack(old(chain), a, z, z + 1) && rest == chain[z + 1]
    {
      hide Spells, MoveBack, Without, With;
      LinksAt(chain, z);
      rest := q.next;
      SplicedBack(chain, a, z, z + 1);
      CutAt(chain, z, z + 1, a);
      CutAt(chain, z, z + 1, a - 1);
      Splice(p, rest.prev, rest, chain, z, z + 1, Without(chain, z, z + 1), a);
      chain := MoveBack(chain, a, z, z + 1);
    }

    method InplaceMerge(a0: Elem<V>, a1b0: Elem<V>, b1: Elem<V>, less: (V, V) -> bool,
                        ghost i: nat, ghost m: nat, ghost j: nat, ghost rank: map<Elem<V>, nat>)
      requires Valid() && StrictWeakOrder(less) && 0 < i < m < j < |chain|
      requires a0 == chain[i] && a1b0 == chain[m] && b1 == chain[j]
      requires Sorted(chain, less, i, m) && Sorted(chain, less, m, j) && OnlyInversionsUndone(rank, chain, less)
      modifies this`chain, repr
      ensures Valid() && |chain| == |old(chain)| && multiset(chain) == multiset(old(chain))
      ensures chain[..i] == old(chain)[..i] && chain[j..] == old(chain)[j..]
      ensures Sorted(chain, less, i, j) && OnlyInversionsUndone(rank, chain, less)
    {
      hide StrictWeakOrder, Sorted, OnlyInversionsUndone, Merging, Spells, MoveBack;
      var p, q := a0, a1b0;
      ghost var a, z := i, m;
      MergeStarts(chain, less, rank, i, m, j);
      while p != q && q != b1
        invariant Valid() && |chain| == |old(chain)|
        invariant i <= a <= z <= j && p == chain[a] && q == chain[z] && b1 == chain[j]
        invariant Merging(old(chain), chain, less, rank, i, a, z, j)
        decreases j - a, j - z
      {
        if !less(q.value, p.value) {
          LinksAt(chain, a);
          MergeAdvances(old(chain), chain, less, rank, i, a, z, j);
          p, a := p.next, a + 1;
        } else {
          MergeMoves(old(chain), chain, less, rank, i, a, z, j);
          assert chain[a - 1] in chain && p in chain && chain[z - 1] in chain && q in chain && chain[z + 1] in chain;
          q := TakeBefore(p, q, a, z);
          a, z := a + 1, z + 1;
        }
      }
      SameElemSamePlace(chain, a, z);
      SameElemSamePlace(chain, z, j);
      MergeEnds(old(chain), chain, less, rank, i, a, z, j);
    }

    /** The body of a pass: merges the maximal run that starts at `a0` with the next
        one, unless it reaches the end of the list. */
    method MergeTwoRuns(a0: Elem<V>, less: (V, V) -> bool, ghost i: nat, ghost rank: map<Elem<V>, nat>)
      returns (last: bool, b1: Elem<V>, ghost j: nat)
      requires Valid() && StrictWeakOrder(less) && OnlyInversionsUndone(rank, chain, less)
      requires 0 < i < |chain| - 1 && a0 == chain[i] && (1 < i ==> less(chain[i].value, chain[i - 1].value))
      modifies this`chain, repr
      ensures Valid() && |chain| == |old(chain)| && multiset(chain) == multiset(old(chain))
      ensures OnlyInversionsUndone(rank, chain, less)
      ensures i < j < |chain| && b1 == chain[j] && Sorted(chain, less, i, j) && chain[..i] == old(chain)[..i]
      ensures last ==> j == |chain| - 1 && chain == old(chain)
      ensures !last ==>
                && Descents(chain, less, 1, |chain| - 1) < Descents(old(chain), less, 1, |chain| - 1)
                && (j < |chain| - 1 ==> less(chain[j].value, chain[j - 1].value))
    {
      hide StrictWeakOrder, OnlyInversionsUndone, Ascending, Sorted, Descents, Spells;
      ghost var n, k := |chain| - 1, 0;
      var a1b0: Elem<V>;
      a1b0, k := FindEndOfRun(a0, tail, less, i, n);
      AscendingIsSorted(chain, less, i, k);
      SameElemSamePlace(chain, k, n);
      if a1b0 == tail {
        return true, tail, n;
      }
      b1, j := FindEndOfRun(a1b0, tail, less, k, n);
      AscendingIsSorted(chain, less, k, j);
      InplaceMerge(a0, a1b0, b1, less, i, k, j, rank);
      MergeDropsDescents(old(chain), chain, less, i, k, j);
      last := false;
    }

    /** One pass of list_sort: merges the first run with the second, the third with
        the fourth, and so on, and counts the runs it leaves. */
    method SortPass(less: (V, V) -> bool, ghost rank: map<Elem<V>, nat>) returns (runs: nat)
      requires Valid() && StrictWeakOrder(less) && OnlyInversionsUndone(rank, chain, less)
      modifies this`chain, repr
      ensures Valid() && |chain| == |old(chain)| && multiset(chain) == multiset(old(chain))
      ensures OnlyInversionsUndone(rank, chain, less)
      ensures runs <= 1 ==> Sorted(chain, less, 1, |chain| - 1)
      ensures runs > 1 ==> Descents(chain, less, 1, |chain| - 1) < Descents(old(chain), less, 1, |old(chain)| - 1)
    {
      hide StrictWeakOrder, OnlyInversionsUndone, Descents, Spells;
      ghost var n := |chain| - 1;
      runs := 0;
      LinksAt(chain, 0);
      var a0: Elem<V> := head.next;
      ghost var i := 1;
      while a0 != tail
        invariant Valid() && |chain| == n + 1 && multiset(chain) == multiset(old(chain))
        invariant 1 <= i <= n && a0 == chain[i] && OnlyInversionsUndone(rank, chain, less)
        invariant i == 1 <==> runs == 0
        invariant 1 < i < n ==> less(chain[i].value, chain[i - 1].value)
        invariant runs == 1 ==> Sorted(chain, less, 1, i)
        invariant Descents(chain, less, 1, n) + runs <= Descents(old(chain), less, 1, n)
        decreases n - i
      {
        SameElemSamePlace(chain, i, n);
        runs := runs + 1;
        var last, b1;
        ghost var j;
        last, b1, j := MergeTwoRuns(a0, less, i, rank);
        if last { break; }
        a0, i := b1, j;
      }
      SameElemSamePlace(chain, i, n);
    }

    /** Natural merge sort in place: the links then spell the one stable sorting of
        the elements they spelled before. */
    method Sort(less: (V, V) -> bool)
      requires Valid() && StrictWeakOrder(less)
      modifies this`chain, repr
      ensures Valid() && Items() == SortedByInsertion(old(Items()), less)
    {
      hide StrictWeakOrder, OnlyInversionsUndone, Sorted, SortedByInsertion, Linked, Descents;
      ghost var rank := Ranks(chain);
      assert Distinct(chain) by { LinkedIsDistinct(chain); }
      InOriginalOrder(chain, less);
      var runs := SortPass(less, rank);
      while runs > 1
        invariant Valid() && |chain| == |old(chain)| && multiset(chain) == multiset(old(chain))
        invariant OnlyInversionsUndone(rank, chain, less)
        invariant runs <= 1 ==> Sorted(chain, less, 1, |chain| - 1)
        decreases if runs > 1 then 1 + Descents(chain, less, 1, |chain| - 1) else 0
      {
        runs := SortPass(less, rank);
      }
      SortedChainIsSortedByInsertion(old(chain), chain, less);
    }

    /** Where list_insert_ordered's loop stops: at the first element that `elem` is
        less than, or at the tail. */
    method FindPlace(elem: Elem<V>, less: (V, V) -> bool) returns (e: Elem<V>, ghost k: nat)
      requires Valid()
      ensures 0 < k < |chain| && e == chain[k]
      ensures Inserted(Items(), elem, less) == Put(Items(), k - 1, elem)
    {
      hide Spells, Inserted, Put;
      LinksAt(chain, 0);
      e, k := head.next, 1;
      while e != tail
        invariant 1 <= k < |chain| && e == chain[k]
        invariant forall x :: 1 <= x < k ==> !less(elem.value, chain[x].value)
        decreases |chain| - k
      {
        if less(elem.value, e.value) { break; }
        LinksAt(chain, k);
        e, k := e.next, k + 1;
      }
      SameElemSamePlace(chain, k, |chain| - 1);
      InsertedAt(Items(), elem, less, k - 1);
    }

    method InsertOrdered(elem: Elem<V>, less: (V, V) -> bool)
      requires Valid() && elem !in repr
      modifies this`chain, this`repr, repr, elem
      ensures Valid() && repr == old(repr) + {elem}
      ensures Items() == Inserted(old(Items()), elem, less)
    {
      hide Spells, Inserted, Put;
      ghost var k;
      var e;
      e, k := FindPlace(elem, less);
      InsertAt(e, elem, k);
    }

    /** list_insert, into this list. */
    method InsertAt(before: Elem<V>, elem: Elem<V>, ghost k: nat)
      requires Valid() && elem !in repr && 0 < k < |chain| && before == chain[k]
      modifies this`chain, this`repr, repr, elem
      ensures Valid() && repr == old(repr) + {elem}
      ensures |chain| == |old(chain)| + 1 && Items() == Put(old(Items()), k - 1, elem)
    {
      hide Spells;
      PutInside(chain, k, elem);
      Insert(before, elem, chain, k);
      chain, repr := Put(chain, k, elem), repr + {elem};
    }

    method PushBack(elem: Elem<V>)
      requires Valid() && elem !in repr
      modifies this`chain, this`repr, repr, elem
      ensures Valid() && repr == old(repr) + {elem} && Items() == old(Items()) + [elem]
    {
      hide Spells;
      InsertAt(tail, elem, |chain| - 1);
    }

    method Empty() returns (b: bool)
      requires Valid()
      ensures b <==> Items() == []
    {
      hide Spells;
      LinksAt(chain, 0);
      SameElemSamePlace(chain, 1, |chain| - 1);
      b := head.next == tail;
    }

    method Front() returns (front: Elem<V>)
      requires Valid() && Items() != []
      ensures front == Items()[0]
    {
      hide Spells;
      LinksAt(chain, 0);
      front := head.next;
    }

    /** list_remove, from this list. */
    method RemoveAt(elem: Elem<V>, ghost k: nat) returns (following: Elem<V>)
      requires Valid() && 0 < k < |chain| - 1 && elem == chain[k]
      modifies this`chain, this`repr, repr
      ensures Valid() && repr == old(repr) - {elem} && following == old(chain)[k + 1]
      ensures chain == Without(old(chain), k, k + 1) && Items() == Without(old(Items()), k - 1, k)
    {
      hide Spells;
      OneLess(chain, k);
      following := Remove(elem, chain, k);
      chain, repr := Without(chain, k, k + 1), repr - {elem};
    }

    method PushFront(elem: Elem<V>)
      requires Valid() && elem !in repr
      modifies this`chain, this`repr, repr, elem
      ensures Valid() && repr == old(repr) + {elem} && Items() == [elem] + old(Items())
    {
      hide Spells;
      LinksAt(chain, 0);
      InsertAt(head.next, elem, 1);
    }

    method PopFront() returns (front: Elem<V>)
      requires Valid() && Items() != []
      modifies this`chain, this`repr, repr
      ensures Valid() && [front] + Items() == old(Items()) && repr == old(repr) - {front}
    {
      hide Spells;
      LinksAt(chain, 0);
      front := head.next;
      var _ := RemoveAt(front, 1);
    }
  }

  lemma OneLess<V>(c: seq<Elem<V>>, k: nat)
    requires Spells(c) && 0 < k < |c| - 1
    ensures var d := Without(c, k, k + 1);
      && d[0] == c[0] && d[|d| - 1] == c[|c| - 1] && (forall e :: e in d ==> e in c && e != c[k])
      && d[1..|d| - 1] == Without(c[1..|c| - 1], k - 1, k)
  {
    var d := Without(c, k, k + 1);
    Stretch(c, k, k + 1);
    assert c[k] in c[k..k + 1];
    InsideLess(c, k);
  }

  lemma InsideLess<T>(c: seq<T>, k: nat)
    requires 0 < k < |c| - 1
    ensures var d := Without(c, k, k + 1); |d| == |c| - 1 && d[1..|d| - 1] == Without(c[1..|c| - 1], k - 1, k)
  {
    var d, e := Without(c, k, k + 1)[1..|c| - 2], Without(c[1..|c| - 1], k - 1, k);
    assert |Without(c, k, k + 1)| == |c| - 1 && |d| == |e|;
    hide Without;
    forall i | 0 <= i < |d| ensures d[i] == e[i] {
      CutAt(c, k, k + 1, i + 1);
      CutAt(c[1..|c| - 1], k - 1, k, i);
    }
  }
}

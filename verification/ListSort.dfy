/** Intrusive doubly linked lists with head and tail sentinels, and the natural iterative
    merge sort over them (src/lib/kernel/list.c).

    A list is described by its chain: the sequence of its elements from head to tail,
    sentinels included. The element's payload is constant, its links are mutable. */
module ListSort {
  import opened Lists

  class Elem<T> {
    const value: T
    var prev: Elem?<T>
    var next: Elem?<T>

    constructor (v: T)
      ensures value == v && prev == null && next == null
    {
      value := v;
      prev := null;
      next := null;
    }
  }

  /** u is linked internally, whatever its ends point at. */
  ghost predicate Chained<T>(u: seq<Elem<T>>)
    reads u
  {
    && NoDup(u)
    && (forall k | 0 <= k < |u| - 1 :: u[k].next == u[k + 1])
    && (forall k | 0 < k < |u| :: u[k].prev == u[k - 1])
  }

  /** The links of the elements of s are exactly those of a list running from s's first
      element (the head) to its last (the tail). */
  ghost predicate Linked<T>(s: seq<Elem<T>>)
    reads s
  {
    |s| >= 2 && Chained(s) && s[0].prev == null && s[|s| - 1].next == null
  }

  // ---- Orders ----

  /** The comparison functions the list routines are meant for: strict weak orders. */
  ghost predicate StrictWeakOrder<T(!new)>(less: (T, T) -> bool) {
    && (forall x, y :: less(x, y) ==> !less(y, x))
    && (forall x, y, z :: less(x, z) ==> less(x, y) || less(y, z))
  }

  /** s[lo..hi] is in nondecreasing order. */
  ghost predicate Run<T>(s: seq<Elem<T>>, less: (T, T) -> bool, lo: nat, hi: nat)
    requires hi <= |s|
  {
    forall i, j | lo <= i < j < hi :: !less(s[j].value, s[i].value)
  }

  /** Position k starts a new run. */
  ghost predicate Descent<T>(s: seq<Elem<T>>, less: (T, T) -> bool, k: nat)
    requires 0 < k < |s|
  {
    less(s[k].value, s[k - 1].value)
  }

  /** The number of descents strictly inside s[lo..hi]: one less than its number of runs. */
  ghost function Descents<T>(s: seq<Elem<T>>, less: (T, T) -> bool, lo: nat, hi: nat): nat
    requires hi <= |s|
    decreases hi
  {
    if hi <= lo + 1 then 0
    else Descents(s, less, lo, hi - 1) + if Descent(s, less, hi - 1) then 1 else 0
  }

  ghost predicate Equivalent<T>(less: (T, T) -> bool, x: Elem<T>, y: Elem<T>) {
    !less(x.value, y.value) && !less(y.value, x.value)
  }

  /** a occurs before b in s. */
  ghost predicate Before<T>(s: seq<Elem<T>>, a: Elem<T>, b: Elem<T>) {
    exists i, j :: 0 <= i < j < |s| && s[i] == a && s[j] == b
  }

  /** Equivalent elements of cur stand in the order they had in orig. */
  ghost predicate OrderKept<T>(orig: seq<Elem<T>>, cur: seq<Elem<T>>, less: (T, T) -> bool) {
    forall i, j | 0 <= i < j < |cur| && Equivalent(less, cur[i], cur[j]) :: Before(orig, cur[i], cur[j])
  }

  /** cur is a rearrangement of orig in which equivalent elements kept their order. */
  ghost predicate StableArrangement<T>(orig: seq<Elem<T>>, cur: seq<Elem<T>>, less: (T, T) -> bool) {
    multiset(cur) == multiset(orig) && OrderKept(orig, cur, less)
  }

  // ---- Moving one element back ----

  /** s with the element at q moved to position p, those between shifted up. */
  function MoveBack<T>(s: seq<T>, p: nat, q: nat): (r: seq<T>)
    requires p <= q < |s|
    ensures |r| == |s|
    ensures forall k | 0 <= k < |s| :: r[k] == if k < p || q < k then s[k] else if k == p then s[q] else s[k - 1]
  {
    s[..p] + [s[q]] + s[p..q] + s[q + 1..]
  }

  lemma MoveBackPermutes<T>(s: seq<T>, p: nat, q: nat)
    requires p <= q < |s|
    ensures multiset(MoveBack(s, p, q)) == multiset(s)
  {
    var a, b, c := s[..p], s[p..q], s[q + 1..];
    InFour(s, p, q);
    assert multiset(s) == multiset(a + b + [s[q]] + c);
    assert multiset(MoveBack(s, p, q)) == multiset(a + [s[q]] + b + c);
  }

  lemma InFour<T>(s: seq<T>, p: nat, q: nat)
    requires p <= q < |s|
    ensures s[..p] + s[p..q] + [s[q]] + s[q + 1..] == s
  {}

  /** Moving an element back over strictly greater ones never reorders equivalent elements. */
  lemma MoveBackKeepsOrder<T>(orig: seq<Elem<T>>, s: seq<Elem<T>>, less: (T, T) -> bool, p: nat, q: nat)
    requires OrderKept(orig, s, less) && p <= q < |s|
    requires forall k | p <= k < q :: less(s[q].value, s[k].value)
    ensures OrderKept(orig, MoveBack(s, p, q), less)
  {
    var r := MoveBack(s, p, q);
    forall i, j | 0 <= i < j < |r| && Equivalent(less, r[i], r[j]) ensures Before(orig, r[i], r[j]) {
      var i', j' := Source(p, q, i), Source(p, q, j);
      assert r[i] == s[i'] && r[j] == s[j'];
      assert !(i == p && j <= q);
    }
  }

  /** Where MoveBack takes its k-th element from. */
  function Source(p: nat, q: nat, k: nat): nat
    requires p <= q
  {
    if k < p || q < k then k else if k == p then q else k - 1
  }

  // ---- Link operations ----

  ghost predicate Disjoint<T>(u: seq<Elem<T>>, v: seq<Elem<T>>) {
    forall a, b | 0 <= a < |u| && 0 <= b < |v| :: u[a] != v[b]
  }

  /** Two chains whose touching ends point at each other form one chain. */
  lemma Join<T>(u: seq<Elem<T>>, v: seq<Elem<T>>)
    requires Chained(u) && Chained(v) && |u| > 0 && |v| > 0 && Disjoint(u, v)
    requires u[|u| - 1].next == v[0] && v[0].prev == u[|u| - 1]
    ensures Chained(u + v)
  {}

  /** The first half of list_splice: FIRST...LAST (here inclusive) leave their chain. */
  method CutOut<T>(first: Elem<T>, last: Elem<T>, ghost s: seq<Elem<T>>, ghost i: nat, ghost j: nat)
    requires Linked(s) && 0 < i < j < |s| && first == s[i] && last == s[j - 1]
    modifies s[i - 1], s[j]
    ensures Linked(s[..i] + s[j..]) && Chained(s[i..j])
    ensures first.prev == old(first.prev) && last.next == old(last.next)
    ensures s[i - 1].prev == old(s[i - 1].prev) && s[j].next == old(s[j].next)
  {
    assert first.prev == s[i - 1] && last.next == s[j];
    first.prev.next := last.next;
    last.next.prev := first.prev;
    Join(s[..i], s[j..]);
  }

  /** The second half: FIRST...LAST enter a chain just before its p-th element. */
  method LinkIn<T>(before: Elem<T>, first: Elem<T>, last: Elem<T>, ghost t: seq<Elem<T>>, ghost p: nat,
                   ghost u: seq<Elem<T>>)
    requires Linked(t) && 0 < p < |t| && t[p] == before
    requires |u| > 0 && Chained(u) && u[0] == first && u[|u| - 1] == last && Disjoint(t, u)
    modifies t[p - 1], before, first, last
    ensures Linked(t[..p] + u + t[p..])
  {
    assert before.prev == t[p - 1];
    first.prev := before.prev;
    last.next := before;
    before.prev.next := first;
    before.prev := last;
    assert Chained(u) && Chained(t[..p]) && Chained(t[p..]);
    Join(t[..p], u);
    Join(t[..p] + u, t[p..]);
  }

  /** list_insert: links elem in just before the chain's k-th element. */
  method ListInsert<T>(before: Elem<T>, elem: Elem<T>, ghost s: seq<Elem<T>>, ghost k: nat)
    requires Linked(s) && 0 < k < |s| && s[k] == before && elem !in s
    modifies s[k - 1], before, elem
    ensures Linked(s[..k] + [elem] + s[k..])
  {
    assert before.prev == s[k - 1];
    elem.prev := before.prev;
    elem.next := before;
    before.prev.next := elem;
    before.prev := elem;
    assert Chained([elem]) && Chained(s[..k]) && Chained(s[k..]);
    Join(s[..k], [elem]);
    Join(s[..k] + [elem], s[k..]);
  }

  /** list_remove. Removing the k-th element unlinks it and leaves its own links pointing
      at its old neighbours; removing it a second time, while those neighbours are still
      adjacent, changes nothing at all. */
  method ListRemove<T>(elem: Elem<T>, ghost s: seq<Elem<T>>, ghost k: nat) returns (follower: Elem<T>)
    requires Linked(s) && 0 < k < |s|
    requires (s[k] == elem && k < |s| - 1)
          || (elem !in s && elem.prev == s[k - 1] && elem.next == s[k])
    modifies elem.prev, elem.next
    ensures elem.prev == old(elem.prev) == s[k - 1] && elem.next == old(elem.next) == follower
    ensures s[k] == elem ==> Linked(s[..k] + s[k + 1..]) && follower == s[k + 1]
    ensures s[k] != elem ==> follower == s[k]
                             && (forall e | e in s :: e.prev == old(e.prev) && e.next == old(e.next))
  {
    assert elem.prev == s[k - 1] && elem.next == if s[k] == elem then s[k + 1] else s[k];
    elem.prev.next := elem.next;
    elem.next.prev := elem.prev;
    follower := elem.next;
    if s[k] == elem {
      assert Chained(s[..k]) && Chained(s[k + 1..]);
      Join(s[..k], s[k + 1..]);
    }
  }

  /** The sequence s with its elements i..j moved to just before the one at p. */
  ghost function Spliced<T>(s: seq<T>, p: nat, i: nat, j: nat): seq<T>
    requires i <= j < |s| && p < |s| && (p < i || j <= p)
  {
    if p < i then s[..p] + s[i..j] + s[p..i] + s[j..] else s[..i] + s[j..p] + s[i..j] + s[p..]
  }

  lemma CutAndPaste<T>(s: seq<T>, p: nat, i: nat, j: nat)
    requires i <= j < |s| && p < |s| && (p < i || j <= p)
    ensures var t, p' := s[..i] + s[j..], if p < i then p else p - (j - i);
            t[..p'] + s[i..j] + t[p'..] == Spliced(s, p, i, j)
    ensures i == j ==> Spliced(s, p, i, j) == s
  {
    if p < i {
      PasteBefore(s, p, i, j);
    } else {
      PasteAfter(s, p, i, j);
    }
    if i == j {
      PasteNothing(s, p, i);
    }
  }

  lemma PasteBefore<T>(s: seq<T>, p: nat, i: nat, j: nat)
    requires p < i <= j < |s|
    ensures var t := s[..i] + s[j..];
            t[..p] + s[i..j] + t[p..] == s[..p] + s[i..j] + s[p..i] + s[j..]
  {
    var t := s[..i] + s[j..];
    assert t[..p] == s[..p];
    assert t[p..] == s[p..i] + s[j..];
  }

  lemma PasteAfter<T>(s: seq<T>, p: nat, i: nat, j: nat)
    requires i <= j <= p < |s|
    ensures var t, p' := s[..i] + s[j..], p - (j - i);
            t[..p'] + s[i..j] + t[p'..] == s[..i] + s[j..p] + s[i..j] + s[p..]
  {
    var t, p' := s[..i] + s[j..], p - (j - i);
    assert t[..p'] == s[..i] + s[j..p];
    assert t[p'..] == s[p..];
  }

  lemma PasteNothing<T>(s: seq<T>, p: nat, i: nat)
    requires p < |s| && i < |s|
    ensures Spliced(s, p, i, i) == s
  {
    if p < i {
      assert s[..p] + s[p..i] + s[i..] == s;
    } else {
      assert s[..i] + s[i..p] + s[p..] == s;
    }
  }

  lemma CutFacts<T>(s: seq<Elem<T>>, p: nat, i: nat, j: nat)
    requires Linked(s) && 0 < i <= j < |s| && 0 < p < |s| && (p < i || j <= p)
    ensures var t, p' := s[..i] + s[j..], if p < i then p else p - (j - i);
            Disjoint(t, s[i..j]) && 0 < p' < |t| && t[p'] == s[p]
  {}

  lemma Apart<T>(s: seq<Elem<T>>, u: seq<Elem<T>>, i: nat, j: nat)
    requires Disjoint(s, u) && i <= j <= |u|
    ensures Disjoint(s, u[i..j]) && forall k, l | 0 <= k < |s| && 0 <= l < |u| :: s[k] != u[l]
  {}

  /** list_splice between two chains: the elements from FIRST up to LAST (exclusive) leave chain u
      and enter chain s just before BEFORE. */
  method ListSpliceFrom<T>(before: Elem<T>, first: Elem<T>, last: Elem<T>,
                           ghost s: seq<Elem<T>>, ghost p: nat, ghost u: seq<Elem<T>>, ghost i: nat, ghost j: nat)
    requires Linked(s) && Linked(u) && Disjoint(s, u) && 0 < p < |s| && 0 < i <= j < |u|
    requires s[p] == before && u[i] == first && u[j] == last
    modifies s, u
    ensures Linked(s[..p] + u[i..j] + s[p..]) && Linked(u[..i] + u[j..])
  {
    hide Disjoint;
    if first == last {
      assert i == j && u[..i] + u[j..] == u;
      assert s[..p] + u[i..j] + s[p..] == s;
      return;
    }
    assert last.prev == u[j - 1];
    var end := last.prev;
    Apart(s, u, i, j);
    CutOut(first, end, u, i, j);
    assert Linked(s);
    LinkIn(before, first, end, s, p, u[i..j]);
  }

  /** list_splice within one chain: the elements from FIRST up to LAST (exclusive) move to
      just before BEFORE, which lies outside them. */
  method ListSplice<T>(before: Elem<T>, first: Elem<T>, last: Elem<T>,
                       ghost s: seq<Elem<T>>, ghost p: nat, ghost i: nat, ghost j: nat)
    requires Linked(s) && 0 < i <= j < |s| && 0 < p < |s| && (p < i || j <= p)
    requires s[p] == before && s[i] == first && s[j] == last
    modifies s
    ensures Linked(Spliced(s, p, i, j))
  {
    hide Spliced, Disjoint;
    ghost var t, u := s[..i] + s[j..], s[i..j];
    ghost var p' := if p < i then p else p - (j - i);
    CutAndPaste(s, p, i, j);
    CutFacts(s, p, i, j);
    if first == last {
      assert i == j;
      return;
    }
    assert last.prev == s[j - 1];
    var end := last.prev;
    CutOut(first, end, s, i, j);
    LinkIn(before, first, end, t, p', u);
  }

  // ---- The sort ----

  lemma ExtendRun<T(!new)>(s: seq<Elem<T>>, less: (T, T) -> bool, lo: nat, k: nat)
    requires StrictWeakOrder(less) && lo < k < |s| && Run(s, less, lo, k) && !Descent(s, less, k)
    ensures Run(s, less, lo, k + 1)
  {
    forall i | lo <= i < k ensures !less(s[k].value, s[i].value) {
      assert i == k - 1 || !less(s[k - 1].value, s[i].value);
    }
  }

  lemma {:induction false} RunHasNoDescents<T>(s: seq<Elem<T>>, less: (T, T) -> bool, lo: nat, hi: nat)
    requires hi <= |s| && Run(s, less, lo, hi)
    ensures Descents(s, less, lo, hi) == 0
  {
    if hi > lo + 1 {
      RunHasNoDescents(s, less, lo, hi - 1);
    }
  }

  lemma {:induction false} DescentsSplit<T>(s: seq<Elem<T>>, less: (T, T) -> bool, lo: nat, mid: nat, hi: nat)
    requires lo < mid < hi <= |s|
    ensures Descents(s, less, lo, hi)
         == Descents(s, less, lo, mid) + (if Descent(s, less, mid) then 1 else 0) + Descents(s, less, mid, hi)
  {
    if mid + 1 < hi {
      DescentsSplit(s, less, lo, mid, hi - 1);
    }
  }

  lemma {:induction false} DescentsLocal<T>(s: seq<Elem<T>>, r: seq<Elem<T>>, less: (T, T) -> bool, lo: nat, hi: nat)
    requires hi <= |s| && hi <= |r| && forall k | lo <= k < hi :: s[k] == r[k]
    ensures Descents(s, less, lo, hi) == Descents(r, less, lo, hi)
  {
    if hi > lo + 1 {
      DescentsLocal(s, r, less, lo, hi - 1);
    }
  }

  function ListNext<T>(e: Elem<T>, ghost s: seq<Elem<T>>, ghost k: nat): (n: Elem<T>)
    reads s
    requires Linked(s) && k + 1 < |s| && s[k] == e
    ensures n == s[k + 1]
  {
    assert e.next == s[k + 1];
    e.next
  }

  function ListPrev<T>(e: Elem<T>, ghost s: seq<Elem<T>>, ghost k: nat): (p: Elem<T>)
    reads s
    requires Linked(s) && 0 < k < |s| && s[k] == e
    ensures p == s[k - 1]
  {
    assert e.prev == s[k - 1];
    e.prev
  }

  /** find_end_of_run: the end of the longest nondecreasing run starting at the chain's
      position ia and staying below ib. */
  method FindEndOfRun<T(!new)>(a0: Elem<T>, b: Elem<T>, less: (T, T) -> bool,
                               ghost s: seq<Elem<T>>, ghost ia: nat, ghost ib: nat)
    returns (a: Elem<T>, ghost k: nat)
    requires StrictWeakOrder(less) && Linked(s) && 0 < ia < ib < |s| && s[ia] == a0 && s[ib] == b
    ensures ia < k <= ib && s[k] == a
    ensures Run(s, less, ia, k)
    ensures k < ib ==> Descent(s, less, k)
  {
    a, k := ListNext(a0, s, ia), ia + 1;
    while a != b && !less(a.value, ListPrev(a, s, k).value)
      invariant ia < k <= ib && s[k] == a && Run(s, less, ia, k)
      decreases ib - k
    {
      ExtendRun(s, less, ia, k);
      a, k := ListNext(a, s, k), k + 1;
    }
  }

  /** The state of a merge of s[lo..hi]: s[lo..i0] is merged, s[i0..i1] and s[i1..hi] are
      what remains of the two runs. */
  ghost predicate Merging<T>(s: seq<Elem<T>>, less: (T, T) -> bool, lo: nat, i0: nat, i1: nat, hi: nat)
    requires hi <= |s|
  {
    && lo <= i0 <= i1 <= hi
    && Run(s, less, lo, i1)
    && Run(s, less, i1, hi)
    && forall i, j | lo <= i < i0 && i1 <= j < hi :: !less(s[j].value, s[i].value)
  }

  lemma MergeStart<T>(orig: seq<Elem<T>>, s: seq<Elem<T>>, less: (T, T) -> bool, lo: nat, mid: nat, hi: nat)
    requires lo < mid < hi < |s| && Run(s, less, lo, mid) && Run(s, less, mid, hi) && StableArrangement(orig, s, less)
    ensures Merging(s, less, lo, lo, mid, hi) && LocalChange(orig, s, s, less, lo, hi)
  {}

  lemma MergeKeep<T(!new)>(s: seq<Elem<T>>, less: (T, T) -> bool, lo: nat, i0: nat, i1: nat, hi: nat)
    requires StrictWeakOrder(less) && hi <= |s| && Merging(s, less, lo, i0, i1, hi)
    requires i0 < i1 < hi && !less(s[i1].value, s[i0].value)
    ensures Merging(s, less, lo, i0 + 1, i1, hi)
  {
    forall j | i1 <= j < hi ensures !less(s[j].value, s[i0].value) {
      assert j == i1 || !less(s[j].value, s[i1].value);
    }
  }

  lemma MergeTake<T(!new)>(s: seq<Elem<T>>, less: (T, T) -> bool, lo: nat, i0: nat, i1: nat, hi: nat)
    requires StrictWeakOrder(less) && hi <= |s| && Merging(s, less, lo, i0, i1, hi)
    requires i0 < i1 < hi && less(s[i1].value, s[i0].value)
    ensures forall k | i0 <= k < i1 :: less(s[i1].value, s[k].value)
    ensures Merging(MoveBack(s, i0, i1), less, lo, i0 + 1, i1 + 1, hi)
  {
    forall k | i0 <= k < i1 ensures less(s[i1].value, s[k].value) {
      assert k == i0 || !less(s[k].value, s[i0].value);
    }
    var r := MoveBack(s, i0, i1);
    forall k | i0 <= k < i1 ensures !less(s[k].value, s[i1].value) {
      assert less(s[i1].value, s[k].value);
    }
    assert Run(r, less, lo, i1 + 1) by {
      forall i, j | lo <= i < j < i1 + 1 ensures !less(r[j].value, r[i].value) {
        var i', j' := Source(i0, i1, i), Source(i0, i1, j);
        assert r[i] == s[i'] && r[j] == s[j'];
      }
    }
    assert Run(r, less, i1 + 1, hi);
    assert forall j | i1 + 1 <= j < hi :: r[j] == s[j] && r[i0] == s[i1];
  }

  lemma MergeDone<T>(s: seq<Elem<T>>, less: (T, T) -> bool, lo: nat, i0: nat, i1: nat, hi: nat)
    requires hi <= |s| && Merging(s, less, lo, i0, i1, hi) && (i0 == i1 || i1 == hi)
    ensures Run(s, less, lo, hi)
  {
    if i0 == i1 {
      forall i, j | lo <= i < j < hi ensures !less(s[j].value, s[i].value) {
        assert j < i1 || i1 <= i || (i < i0 && i1 <= j);
      }
    }
  }

  /** s is a stable rearrangement of s0 that differs from it only inside lo..hi. */
  ghost predicate LocalChange<T>(orig: seq<Elem<T>>, s0: seq<Elem<T>>, s: seq<Elem<T>>, less: (T, T) -> bool,
                                 lo: nat, hi: nat)
  {
    && |s| == |s0|
    && StableArrangement(orig, s, less)
    && (forall k | 0 <= k < |s| :: s[k] in s0)
    && (forall k | 0 <= k < |s| && (k < lo || hi <= k) :: s[k] == s0[k])
  }

  lemma LocalMove<T>(orig: seq<Elem<T>>, s0: seq<Elem<T>>, s: seq<Elem<T>>, less: (T, T) -> bool,
                     lo: nat, hi: nat, p: nat, q: nat)
    requires LocalChange(orig, s0, s, less, lo, hi) && lo <= p < q < hi <= |s|
    requires forall k | p <= k < q :: less(s[q].value, s[k].value)
    ensures LocalChange(orig, s0, MoveBack(s, p, q), less, lo, hi)
    ensures forall k | 0 <= k < |s| :: MoveBack(s, p, q)[k] in s0
  {
    hide StableArrangement;
    StableMove(orig, s, less, p, q);
  }

  lemma StableMove<T>(orig: seq<Elem<T>>, s: seq<Elem<T>>, less: (T, T) -> bool, p: nat, q: nat)
    requires StableArrangement(orig, s, less) && p < q < |s|
    requires forall k | p <= k < q :: less(s[q].value, s[k].value)
    ensures StableArrangement(orig, MoveBack(s, p, q), less)
  {
    MoveBackKeepsOrder(orig, s, less, p, q);
    hide OrderKept;
    MoveBackPermutes(s, p, q);
  }

  /** inplace_merge: the two adjacent runs of chain s0 become one, stably, in place; the
      rest of the chain is untouched. */
  method InplaceMerge<T(!new)>(a0: Elem<T>, a1b0: Elem<T>, b1: Elem<T>, less: (T, T) -> bool,
                               ghost orig: seq<Elem<T>>, ghost s0: seq<Elem<T>>, ghost lo: nat, ghost mid: nat,
                               ghost hi: nat)
    returns (ghost s: seq<Elem<T>>)
    requires StrictWeakOrder(less) && Linked(s0) && 0 < lo < mid < hi < |s0|
    requires s0[lo] == a0 && s0[mid] == a1b0 && s0[hi] == b1
    requires Run(s0, less, lo, mid) && Run(s0, less, mid, hi)
    requires StableArrangement(orig, s0, less)
    modifies s0
    ensures Linked(s) && LocalChange(orig, s0, s, less, lo, hi)
    ensures Run(s, less, lo, hi)
  {
    hide StrictWeakOrder, StableArrangement, Run, Merging, LocalChange, Linked, MoveBack;
    s := s0;
    var a, ab := a0, a1b0;
    ghost var i0, i1 := lo, mid;
    MergeStart(orig, s, less, lo, mid, hi);
    while a != ab && ab != b1
      invariant Linked(s) && |s| == |s0| && (forall k | 0 <= k < |s| :: s[k] in s0)
      invariant LocalChange(orig, s0, s, less, lo, hi)
      invariant Merging(s, less, lo, i0, i1, hi)
      invariant lo <= i0 <= i1 <= hi && s[i0] == a && s[i1] == ab && s[hi] == b1
      decreases hi - i0, hi - i1
    {
      assert i0 < i1 < hi;
      if !less(ab.value, a.value) {
        MergeKeep(s, less, lo, i0, i1, hi);
        a, i0 := ListNext(a, s, i0), i0 + 1;
      } else {
        MergeTake(s, less, lo, i0, i1, hi);
        LocalMove(orig, s0, s, less, lo, hi, i0, i1);
        ab := MoveBefore(a, ab, s, i0, i1);
        s, i0, i1 := MoveBack(s, i0, i1), i0 + 1, i1 + 1;
      }
    }
    SamePosition(s, i0, i1);
    SamePosition(s, i1, hi);
    MergeDone(s, less, lo, i0, i1, hi);
  }

  /** The merge's else-branch: the element ab is spliced in before a; its successor is returned. */
  method MoveBefore<T>(a: Elem<T>, ab: Elem<T>, ghost s: seq<Elem<T>>, ghost p: nat, ghost q: nat)
    returns (next: Elem<T>)
    requires Linked(s) && 0 < p < q < |s| - 1 && s[p] == a && s[q] == ab
    modifies s
    ensures Linked(MoveBack(s, p, q)) && next == s[q + 1]
    ensures MoveBack(s, p, q)[p + 1] == a
    ensures forall k | q < k < |s| :: MoveBack(s, p, q)[k] == s[k]
  {
    hide Linked, Spliced;
    next := ListNext(ab, s, q);
    ListSplice(a, ListPrev(next, s, q + 1), next, s, p, q, q + 1);
    SpliceOne(s, p, q);
  }

  lemma ChainFacts<T>(s: seq<Elem<T>>)
    requires Linked(s)
    ensures |s| >= 2 && NoDup(s)
  {}

  lemma SamePosition<T>(s: seq<Elem<T>>, i: nat, j: nat)
    requires Linked(s) && i <= j < |s|
    ensures s[i] == s[j] <==> i == j
  {}

  lemma SpliceOne<T>(s: seq<T>, p: nat, q: nat)
    requires p < q < |s| - 1
    ensures Spliced(s, p, q, q + 1) == MoveBack(s, p, q)
    ensures MoveBack(s, p, q)[p + 1] == s[p]
    ensures forall k | q < k < |s| :: MoveBack(s, p, q)[k] == s[k]
  {}

  // ---- Counting runs across a pass ----

  lemma {:induction false} DescentsMonotone<T>(s: seq<Elem<T>>, less: (T, T) -> bool, lo: nat, mid: nat, hi: nat)
    requires mid <= hi <= |s|
    ensures Descents(s, less, lo, mid) <= Descents(s, less, lo, hi)
  {
    if mid < hi {
      DescentsMonotone(s, less, lo, mid, hi - 1);
    }
  }

  lemma {:induction false} NoDescentsIsRun<T(!new)>(s: seq<Elem<T>>, less: (T, T) -> bool, lo: nat, hi: nat)
    requires StrictWeakOrder(less) && hi <= |s| && Descents(s, less, lo, hi) == 0
    ensures Run(s, less, lo, hi)
  {
    if hi > lo + 1 {
      NoDescentsIsRun(s, less, lo, hi - 1);
      ExtendRun(s, less, lo, hi - 1);
    }
  }

  /** Progress of a pass that has output c runs and stands at position p: the output has at
      most c runs, and 2c descents of the chain s0 the pass began with are used up. */
  ghost predicate PassProgress<T>(s0: seq<Elem<T>>, s: seq<Elem<T>>, less: (T, T) -> bool, c: nat, p: nat) {
    && 0 < p < |s| == |s0|
    && (forall k | p <= k < |s| :: s[k] == s0[k])
    && (c == 0 ==> p == 1)
    && (c > 0 ==> Descents(s, less, 1, p) + 1 <= c)
    && 2 * c <= Descents(s0, less, 1, if p < |s| - 1 then p + 1 else p) + if p < |s| - 1 then 0 else 1
  }

  /** One iteration: two runs p..i1 and i1..i2 of s0 have become one. */
  lemma PassStep<T>(orig: seq<Elem<T>>, s0: seq<Elem<T>>, s: seq<Elem<T>>, r: seq<Elem<T>>, less: (T, T) -> bool,
                    c: nat, p: nat, i1: nat, i2: nat)
    requires PassProgress(s0, s, less, c, p) && p < i1 < i2 < |s| == |r|
    requires Descent(s, less, i1) && (i2 < |s| - 1 ==> Descent(s, less, i2))
    requires LocalChange(orig, s, r, less, p, i2) && Run(r, less, p, i2)
    ensures PassProgress(s0, r, less, c + 1, i2)
  {
    hide StableArrangement, Run;
    assert Descent(s0, less, i1) && (i2 < |s| - 1 ==> Descent(s0, less, i2));
    DescentsMonotone(s0, less, 1, p + 1, i1);
    assert Descents(s0, less, 1, i1 + 1) == Descents(s0, less, 1, i1) + 1;
    DescentsMonotone(s0, less, 1, i1 + 1, i2);
    RunHasNoDescents(r, less, p, i2);
    if c > 0 && p > 1 {
      DescentsSplit(r, less, 1, p, i2);
      DescentsLocal(s, r, less, 1, p);
    }
  }

  lemma PassStart<T>(s: seq<Elem<T>>, less: (T, T) -> bool)
    requires |s| >= 2
    ensures PassProgress(s, s, less, 0, 1)
  {}

  lemma PassEnd<T>(s0: seq<Elem<T>>, s: seq<Elem<T>>, less: (T, T) -> bool, c: nat)
    requires |s| >= 2 && PassProgress(s0, s, less, c, |s| - 1)
    ensures c == 0 ==> |s| == 2 && Descents(s, less, 1, |s| - 1) == 0
    ensures c > 0 ==> Descents(s, less, 1, |s| - 1) + 1 <= c
    ensures 2 * c <= Descents(s0, less, 1, |s| - 1) + 2
  {}

  lemma LocalFacts<T>(orig: seq<Elem<T>>, s: seq<Elem<T>>, r: seq<Elem<T>>, less: (T, T) -> bool, lo: nat, hi: nat)
    requires LocalChange(orig, s, r, less, lo, hi) && 0 < lo < hi < |s|
    ensures |r| == |s| && r[0] == s[0] && r[|r| - 1] == s[|s| - 1] && r[hi] == s[hi]
    ensures StableArrangement(orig, r, less) && Within(r, s)
  {}

  /** The last iteration, when an odd run is left over. */
  lemma PassLast<T>(s0: seq<Elem<T>>, s: seq<Elem<T>>, less: (T, T) -> bool, c: nat, p: nat)
    requires PassProgress(s0, s, less, c, p) && p < |s| - 1 && Run(s, less, p, |s| - 1)
    ensures Descents(s, less, 1, |s| - 1) + 1 <= c + 1
    ensures 2 * (c + 1) <= Descents(s0, less, 1, |s| - 1) + 2
  {
    hide Run, Descent;
    DescentsMonotone(s0, less, 1, p + 1, |s| - 1);
    RunHasNoDescents(s, less, p, |s| - 1);
    if p > 1 {
      DescentsSplit(s, less, 1, p, |s| - 1);
    }
  }

  /** Stability of the whole chain is stability of the elements between its sentinels. */
  lemma StableInside<T>(orig: seq<Elem<T>>, cur: seq<Elem<T>>, less: (T, T) -> bool)
    requires |orig| == |cur| >= 2 && NoDup(orig) && NoDup(cur) && StableArrangement(orig, cur, less)
    requires orig[0] == cur[0] && orig[|orig| - 1] == cur[|cur| - 1]
    ensures StableArrangement(orig[1..|orig| - 1], cur[1..|cur| - 1], less)
  {
    InsideOrder(orig, cur, less);
    hide NoDup, OrderKept;
    InsideMultiset(orig);
    InsideMultiset(cur);
  }

  lemma InsideMultiset<T>(s: seq<T>)
    requires |s| >= 2
    ensures multiset(s[1..|s| - 1]) == multiset(s) - multiset{s[0]} - multiset{s[|s| - 1]}
  {
    assert s == [s[0]] + s[1..|s| - 1] + [s[|s| - 1]];
  }

  lemma InsideOrder<T>(orig: seq<Elem<T>>, cur: seq<Elem<T>>, less: (T, T) -> bool)
    requires |orig| == |cur| >= 2 && NoDup(orig) && NoDup(cur) && OrderKept(orig, cur, less)
    requires orig[0] == cur[0] && orig[|orig| - 1] == cur[|cur| - 1]
    ensures OrderKept(orig[1..|orig| - 1], cur[1..|cur| - 1], less)
  {
    var n := |orig| - 1;
    var o, c := orig[1..n], cur[1..n];
    forall i, j | 0 <= i < j < |c| && Equivalent(less, c[i], c[j]) ensures Before(o, c[i], c[j]) {
      assert c[i] == cur[i + 1] && c[j] == cur[j + 1];
      var x, y :| 0 <= x < y < |orig| && orig[x] == cur[i + 1] && orig[y] == cur[j + 1];
      assert x != 0 && y != n;
      assert o[x - 1] == c[i] && o[y - 1] == c[j];
    }
  }

  lemma StableStart<T>(s: seq<Elem<T>>, less: (T, T) -> bool)
    ensures StableArrangement(s, s, less)
  {
    forall i, j | 0 <= i < j < |s| && Equivalent(less, s[i], s[j]) ensures Before(s, s[i], s[j]) {
    }
  }

  lemma SortedInside<T>(orig: seq<Elem<T>>, s: seq<Elem<T>>, less: (T, T) -> bool)
    requires |orig| == |s| >= 2 && NoDup(orig) && NoDup(s) && StableArrangement(orig, s, less)
    requires orig[0] == s[0] && orig[|orig| - 1] == s[|s| - 1] && Run(s, less, 1, |s| - 1)
    ensures Run(s[1..|s| - 1], less, 0, |s| - 2)
    ensures StableArrangement(orig[1..|orig| - 1], s[1..|s| - 1], less)
  {
    assert Run(s[1..|s| - 1], less, 0, |s| - 2);
    hide Run;
    StableInside(orig, s, less);
  }

  /** Every element of r is one of s. */
  ghost predicate Within<T>(r: seq<T>, s: seq<T>) { forall k | 0 <= k < |r| :: r[k] in s }

  lemma AllWithin<T>(s: seq<T>)
    ensures Within(s, s)
  {}

  lemma WithinMeans<T>(r: seq<T>, s: seq<T>)
    requires Within(r, s)
    ensures forall k | 0 <= k < |r| :: r[k] in s
  {}

  lemma WithinTwice<T>(r: seq<T>, s: seq<T>, t: seq<T>)
    requires Within(r, s) && Within(s, t)
    ensures Within(r, t)
  {}

  class List<T(!new)> {
    const head: Elem<T>
    const tail: Elem<T>
    ghost var chain: seq<Elem<T>>

    /** list_init. The sentinels carry no payload in the source; `blank` fills it here. */
    constructor (blank: T)
      ensures Valid() && Contents() == [] && fresh(chain)
    {
      head := new Elem(blank);
      tail := new Elem(blank);
      new;
      head.next := tail;
      tail.prev := head;
      chain := [head, tail];
    }

    ghost predicate Valid()
      reads this, chain
    {
      Linked(chain) && chain[0] == head && chain[|chain| - 1] == tail
    }

    /** The elements between the sentinels. */
    ghost function Contents(): seq<Elem<T>>
      reads this
      requires |chain| >= 2
    {
      chain[1..|chain| - 1]
    }

    /** list_pop_front; an empty list fails list_front's assertion. */
    method PopFront() returns (front: Elem<T>)
      requires Valid() && Contents() != []
      modifies this, chain
      ensures Valid() && front == old(chain)[1] && Contents() == old(Contents())[1..]
      ensures forall e | e in chain :: e in old(chain)
      ensures front !in chain && front.prev == head == chain[0] && front.next == chain[1]
    {
      front := ListNext(head, chain, 0);
      assert front.prev == chain[0] && front.next == chain[2];
      var follower := ListRemove(front, chain, 1);
      chain := chain[..1] + chain[2..];
    }

    /** Popping the front element and then removing it once more, as frame_choose_victim and
        frame_free do between them, is popping it. */
    method PopFrontThenRemove() returns (front: Elem<T>)
      requires Valid() && Contents() != []
      modifies this, chain
      ensures Valid() && front == old(chain)[1] && Contents() == old(Contents())[1..]
    {
      front := PopFront();
      assert front.prev in chain && front.next in chain;
      var follower := ListRemove(front, chain, 1);
    }

    /** list_sort: terminates, and leaves the list well formed and holding a stable,
        sorted rearrangement of its elements. Each pass over k > 2 natural runs leaves at
        most (k + 1) / 2 of them, which is what ends the loop. */
    method Sort(less: (T, T) -> bool)
      requires Valid() && StrictWeakOrder(less)
      modifies this, chain
      ensures Valid()
      ensures Run(Contents(), less, 0, |Contents()|)
      ensures StableArrangement(old(Contents()), Contents(), less)
    {
      hide StrictWeakOrder, StableArrangement, Run, Descents, Linked, NoDup, Within;
      ghost var orig := chain;
      ChainFacts(orig);
      StableStart(orig, less);
      AllWithin(orig);
      var outputRunCnt := 2;
      while outputRunCnt > 1
        invariant Valid() && |chain| == |orig| && StableArrangement(orig, chain, less)
        invariant Within(chain, orig)
        invariant outputRunCnt <= 1 ==> Descents(chain, less, 1, |chain| - 1) == 0
        decreases outputRunCnt > 1, Descents(chain, less, 1, |chain| - 1)
      {
        ghost var s := chain;
        WithinMeans(s, orig);
        outputRunCnt := MergePairs(less, orig);
        WithinTwice(chain, s, orig);
      }
      NoDescentsIsRun(chain, less, 1, |chain| - 1);
      ChainFacts(chain);
      SortedInside(orig, chain, less);
    }

    /** One turn of a pass: the run at a0 is merged with the next one, or left alone if it is the
        last, and the pass goes on at `next`. */
    method MergeNext(a0: Elem<T>, less: (T, T) -> bool, ghost orig: seq<Elem<T>>, ghost s0: seq<Elem<T>>,
                     ghost c: nat, ghost p: nat)
      returns (last: bool, next: Elem<T>, ghost q: nat)
      requires Valid() && StrictWeakOrder(less) && StableArrangement(orig, chain, less)
      requires 0 < p < |chain| - 1 && chain[p] == a0 && PassProgress(s0, chain, less, c, p)
      modifies this, chain
      ensures Valid() && |chain| == |old(chain)| && StableArrangement(orig, chain, less) && Within(chain, old(chain))
      ensures last ==> Descents(chain, less, 1, |chain| - 1) + 1 <= c + 1
                       && 2 * (c + 1) <= Descents(s0, less, 1, |chain| - 1) + 2
      ensures !last ==> p < q < |chain| && chain[q] == next && PassProgress(s0, chain, less, c + 1, q)
    {
      hide StrictWeakOrder, StableArrangement, Run, Descents, Descent, Linked, PassProgress, LocalChange, Within;
      ghost var s := chain;
      AllWithin(s);
      var a1b0, i1 := FindEndOfRun(a0, tail, less, chain, p, |chain| - 1);
      if a1b0 == tail {
        SamePosition(chain, i1, |chain| - 1);
        PassLast(s0, chain, less, c, p);
        return true, tail, p;
      }
      var b1, i2 := FindEndOfRun(a1b0, tail, less, chain, i1, |chain| - 1);
      assert i1 < |s| - 1;
      ghost var r := InplaceMerge(a0, a1b0, b1, less, orig, s, p, i1, i2);
      LocalFacts(orig, s, r, less, p, i2);
      PassStep(orig, s0, s, r, less, c, p, i1, i2);
      chain := r;
      return false, b1, i2;
    }

    /** One pass of list_sort. */
    method MergePairs(less: (T, T) -> bool, ghost orig: seq<Elem<T>>) returns (outputRunCnt: nat)
      requires Valid() && StrictWeakOrder(less) && StableArrangement(orig, chain, less)
      modifies this, chain
      ensures Valid() && |chain| == |old(chain)| && StableArrangement(orig, chain, less) && Within(chain, old(chain))
      ensures outputRunCnt == 0 ==> Descents(chain, less, 1, |chain| - 1) == 0
      ensures outputRunCnt > 0 ==> Descents(chain, less, 1, |chain| - 1) + 1 <= outputRunCnt
      ensures 2 * outputRunCnt <= Descents(old(chain), less, 1, |chain| - 1) + 2
    {
      hide StrictWeakOrder, StableArrangement, Descents, Linked, PassProgress, Within;
      ghost var s0, p := chain, 1;
      ChainFacts(chain);
      PassStart(chain, less);
      AllWithin(chain);
      outputRunCnt := 0;
      var a0 := ListNext(head, chain, 0);
      while a0 != tail
        invariant Valid() && |chain| == |s0| && StableArrangement(orig, chain, less) && Within(chain, s0)
        invariant 0 < p < |chain| && chain[p] == a0
        invariant PassProgress(s0, chain, less, outputRunCnt, p)
        decreases |s0| - p
      {
        ghost var s := chain;
        WithinMeans(s, s0);
        var last;
        last, a0, p := MergeNext(a0, less, orig, s0, outputRunCnt, p);
        WithinTwice(chain, s, s0);
        outputRunCnt := outputRunCnt + 1;
        if last {
          return;
        }
      }
      SamePosition(chain, p, |chain| - 1);
      PassEnd(s0, chain, less, outputRunCnt);
    }
  }
}

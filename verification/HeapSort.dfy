/** The array routines of src/lib/stdlib.c: heapsort and binary search, for any element type
    and any strcmp-style comparison. The source's heap arithmetic is 1-based; so is `At`. */
module HeapSort {

  /** What the source asks of `compare`: the sign of a total preorder. */
  ghost predicate Preorder<T(!new)>(cmp: (T, T) -> int) {
    && (forall x, y :: cmp(x, y) > 0 <==> cmp(y, x) < 0)
    && (forall x, y, z :: cmp(x, y) <= 0 && cmp(y, z) <= 0 ==> cmp(x, z) <= 0)
  }

  ghost predicate Sorted<T>(s: seq<T>, cmp: (T, T) -> int) {
    forall i, j | 0 <= i < j < |s| :: cmp(s[i], s[j]) <= 0
  }

  /** The element with 1-based index k. */
  function At<T>(s: seq<T>, k: nat): T
    requires 1 <= k <= |s|
  {
    s[k - 1]
  }

  /** Child c of k within the first cnt elements. */
  predicate ChildOf(c: nat, k: nat, cnt: nat) {
    (c == 2 * k || c == 2 * k + 1) && c <= cnt
  }

  /** No element from index lo on is less than one of its children, except perhaps hole. */
  ghost predicate HeapExcept<T>(s: seq<T>, cmp: (T, T) -> int, lo: nat, cnt: nat, hole: nat)
    requires 1 <= lo && cnt <= |s|
  {
    forall k, c | lo <= k <= cnt && k != hole && ChildOf(c, k, cnt) :: cmp(At(s, c), At(s, k)) <= 0
  }

  ghost predicate Heap<T>(s: seq<T>, cmp: (T, T) -> int, lo: nat, cnt: nat)
    requires 1 <= lo && cnt <= |s|
  {
    HeapExcept(s, cmp, lo, cnt, 0)
  }

  /** While an element sinks through the hole at i, the hole's children are below its parent. */
  ghost predicate Sinking<T>(s: seq<T>, cmp: (T, T) -> int, lo: nat, cnt: nat, i: nat)
    requires 1 <= lo && cnt <= |s|
  {
    && lo <= i && (i == lo || (lo <= i / 2 && i <= cnt))
    && HeapExcept(s, cmp, lo, cnt, i)
    && (i > lo ==> forall c | ChildOf(c, i, cnt) :: cmp(At(s, c), At(s, i / 2)) <= 0)
  }

  function Swapped<T>(s: seq<T>, i: nat, j: nat): (r: seq<T>)
    requires 1 <= i <= |s| && 1 <= j <= |s|
    ensures |r| == |s|
    ensures forall k | 1 <= k <= |s| :: At(r, k) == if k == i then At(s, j) else if k == j then At(s, i) else At(s, k)
  {
    s[i - 1 := s[j - 1]][j - 1 := s[i - 1]]
  }

  /** r is s with its first cnt elements rearranged. */
  ghost predicate Rearranged<T>(s: seq<T>, r: seq<T>, cnt: nat) {
    cnt <= |s| == |r| && multiset(r[..cnt]) == multiset(s[..cnt]) && r[cnt..] == s[cnt..]
  }

  lemma SwapRearranges<T>(s: seq<T>, i: nat, j: nat, cnt: nat)
    requires 1 <= i <= cnt <= |s| && 1 <= j <= cnt
    ensures Rearranged(s, Swapped(s, i, j), cnt)
  {
    var p, r := s[..cnt], Swapped(s, i, j);
    assert r[..cnt] == p[i - 1 := p[j - 1]][j - 1 := p[i - 1]];
    assert r[cnt..] == s[cnt..];
  }

  lemma RearrangedAgain<T>(s: seq<T>, r: seq<T>, q: seq<T>, cnt: nat)
    requires Rearranged(s, r, cnt) && Rearranged(r, q, cnt)
    ensures Rearranged(s, q, cnt)
  {}

  lemma Flip<T(!new)>(cmp: (T, T) -> int, x: T, y: T)
    requires Preorder(cmp) && cmp(x, y) > 0
    ensures cmp(y, x) <= 0
  {}

  /** One step of the sift: the larger child moves up, the hole moves down. */
  lemma SinkStep<T(!new)>(s: seq<T>, cmp: (T, T) -> int, lo: nat, cnt: nat, i: nat, m: nat)
    requires Preorder(cmp) && 1 <= lo && cnt <= |s| && Sinking(s, cmp, lo, cnt, i) && ChildOf(m, i, cnt)
    requires cmp(At(s, m), At(s, i)) > 0 && forall c | ChildOf(c, i, cnt) :: cmp(At(s, c), At(s, m)) <= 0
    ensures Sinking(Swapped(s, i, m), cmp, lo, cnt, m)
  {
    hide Preorder;
    assert cmp(At(s, i), At(s, m)) <= 0 by { Flip(cmp, At(s, m), At(s, i)); }
    var r := Swapped(s, i, m);
    forall k, c | lo <= k <= cnt && k != m && ChildOf(c, k, cnt) ensures cmp(At(r, c), At(r, k)) <= 0 {
      if k == i {
        assert ChildOf(c, i, cnt);
      } else if c == i {
        assert k == i / 2 && cmp(At(s, m), At(s, i / 2)) <= 0;
      } else {
        assert c != m && cmp(At(s, c), At(s, k)) <= 0;
      }
    }
    assert m / 2 == i;
    forall c | ChildOf(c, m, cnt) ensures cmp(At(r, c), At(r, i)) <= 0 {
      assert cmp(At(s, c), At(s, m)) <= 0;
    }
  }

  /** The index of the largest among element i and its children, the way heapify picks it. */
  method LargestOf<T(!new)>(a: array<T>, i: nat, cnt: nat, cmp: (T, T) -> int) returns (max: nat)
    requires Preorder(cmp) && 1 <= i && cnt <= a.Length
    ensures max == i || ChildOf(max, i, cnt)
    ensures max == i ==> forall c | ChildOf(c, i, cnt) :: cmp(At(a[..], c), At(a[..], i)) <= 0
    ensures max != i ==> cmp(At(a[..], max), At(a[..], i)) > 0
                         && forall c | ChildOf(c, i, cnt) :: cmp(At(a[..], c), At(a[..], max)) <= 0
  {
    hide Preorder, ChildOf;
    var left, right := 2 * i, 2 * i + 1;
    Children(i, cnt);
    max := i;
    if left <= cnt && cmp(a[left - 1], a[max - 1]) > 0 {
      Flip(cmp, a[left - 1], a[max - 1]);
      max := left;
    }
    SelfLess(cmp, a[..]);
    if right <= cnt && cmp(a[right - 1], a[max - 1]) > 0 {
      Flip(cmp, a[right - 1], a[max - 1]);
      Higher(cmp, a[right - 1], a[max - 1], a[i - 1]);
      if left <= cnt {
        Chain(cmp, a[left - 1], a[max - 1], a[right - 1]);
      }
      max := right;
    }
  }

  lemma Children(i: nat, cnt: nat)
    ensures forall c: nat :: ChildOf(c, i, cnt) <==> (c == 2 * i || c == 2 * i + 1) && c <= cnt
  {}

  lemma SelfLess<T(!new)>(cmp: (T, T) -> int, s: seq<T>)
    requires Preorder(cmp)
    ensures forall k | 0 <= k < |s| :: cmp(s[k], s[k]) <= 0
  {}

  lemma Chain<T(!new)>(cmp: (T, T) -> int, x: T, y: T, z: T)
    requires Preorder(cmp) && cmp(x, y) <= 0 && cmp(y, z) <= 0
    ensures cmp(x, z) <= 0
  {}

  /** What is greater than something not less than z is greater than z. */
  lemma Higher<T(!new)>(cmp: (T, T) -> int, x: T, y: T, z: T)
    requires Preorder(cmp) && cmp(x, y) > 0 && cmp(z, y) <= 0
    ensures cmp(x, z) > 0
  {
    assert cmp(x, z) <= 0 ==> cmp(x, y) <= 0;
  }

  /** heapify: "floats down" element i0, given that everything below it is a heap. */
  method Heapify<T(!new)>(a: array<T>, i0: nat, cnt: nat, cmp: (T, T) -> int)
    requires Preorder(cmp) && 1 <= i0 && cnt <= a.Length && Heap(a[..], cmp, i0 + 1, cnt)
    modifies a
    ensures Heap(a[..], cmp, i0, cnt)
    ensures Rearranged(old(a[..]), a[..], cnt)
  {
    hide Preorder, Sinking, Rearranged, Heap;
    ghost var s0 := a[..];
    var i := i0;
    SinkStart(s0, cmp, i0, cnt);
    while true
      invariant 1 <= i0 <= i && Sinking(a[..], cmp, i0, cnt, i) && Rearranged(s0, a[..], cnt)
      decreases cnt - i
    {
      var max := LargestOf(a, i, cnt, cmp);
      ghost var s := a[..];
      if max == i {
        SinkEnd(s, cmp, i0, cnt, i);
        break;
      }
      SinkStep(s, cmp, i0, cnt, i, max);
      SwapRearranges(s, i, max, cnt);
      a[i - 1], a[max - 1] := a[max - 1], a[i - 1];
      assert a[..] == Swapped(s, i, max);
      RearrangedAgain(s0, s, a[..], cnt);
      i := max;
    }
  }

  lemma SinkStart<T>(s: seq<T>, cmp: (T, T) -> int, lo: nat, cnt: nat)
    requires 1 <= lo && cnt <= |s| && Heap(s, cmp, lo + 1, cnt)
    ensures Sinking(s, cmp, lo, cnt, lo) && Rearranged(s, s, cnt)
  {}

  lemma SinkEnd<T>(s: seq<T>, cmp: (T, T) -> int, lo: nat, cnt: nat, i: nat)
    requires 1 <= lo && cnt <= |s| && Sinking(s, cmp, lo, cnt, i)
    requires forall c | ChildOf(c, i, cnt) :: cmp(At(s, c), At(s, i)) <= 0
    ensures Heap(s, cmp, lo, cnt)
  {}

  // ---- The sort ----

  /** A heap's first element is its largest. */
  lemma {:induction false} RootIsLargest<T(!new)>(s: seq<T>, cmp: (T, T) -> int, cnt: nat, k: nat)
    requires Preorder(cmp) && cnt <= |s| && Heap(s, cmp, 1, cnt) && 1 <= k <= cnt
    ensures cmp(At(s, k), At(s, 1)) <= 0
  {
    if k > 1 {
      assert ChildOf(k, k / 2, cnt);
      RootIsLargest(s, cmp, cnt, k / 2);
    }
  }

  /** The second phase has put everything after position i in place. */
  ghost predicate TailSorted<T>(s: seq<T>, cmp: (T, T) -> int, i: nat) {
    i <= |s| && forall p, q | 0 <= p < q < |s| && i <= q :: cmp(s[p], s[q]) <= 0
  }

  /** Moving the root to the end of the heap extends the sorted tail by one ... */
  lemma MoveRoot<T(!new)>(s: seq<T>, cmp: (T, T) -> int, i: nat)
    requires Preorder(cmp) && 1 < i <= |s| && Heap(s, cmp, 1, i) && TailSorted(s, cmp, i)
    ensures TailSorted(Swapped(s, 1, i), cmp, i - 1) && Heap(Swapped(s, 1, i), cmp, 2, i - 1)
  {
    var r := Swapped(s, 1, i);
    forall p, q | 0 <= p < q < |r| && i - 1 <= q ensures cmp(r[p], r[q]) <= 0 {
      assert r[p] == At(r, p + 1) && r[q] == At(r, q + 1);
      if q == i - 1 {
        RootIsLargest(s, cmp, i, if p == 0 then i else p + 1);
      } else {
        assert r[q] == s[q];
        assert r[p] == if p == 0 then s[i - 1] else if p == i - 1 then s[0] else s[p];
      }
    }
    forall k, c | 2 <= k <= i - 1 && k != 0 && ChildOf(c, k, i - 1) ensures cmp(At(r, c), At(r, k)) <= 0 {
      assert ChildOf(c, k, i) && At(r, c) == At(s, c) && At(r, k) == At(s, k);
    }
  }

  /** ... and rearranging the elements before the tail does not hurt it. */
  lemma TailKept<T(!new)>(s: seq<T>, r: seq<T>, cmp: (T, T) -> int, i: nat)
    requires TailSorted(s, cmp, i) && Rearranged(s, r, i)
    ensures TailSorted(r, cmp, i)
  {
    forall p, q | 0 <= p < q < |r| && i <= q ensures cmp(r[p], r[q]) <= 0 {
      assert r[q] == r[i..][q - i] && s[q] == s[i..][q - i];
      if p < i {
        assert r[p] == r[..i][p] && r[p] in multiset(r[..i]);
        assert r[p] in s[..i];
        var p' :| 0 <= p' < i && s[p'] == r[p];
      } else {
        assert r[p] == r[i..][p - i] && s[p] == s[i..][p - i];
      }
    }
  }

  ghost predicate Permutation<T>(s: seq<T>, r: seq<T>) { multiset(r) == multiset(s) }

  lemma PermutesAll<T>(s0: seq<T>, s: seq<T>, r: seq<T>, cnt: nat)
    requires Permutation(s0, s) && Rearranged(s, r, cnt)
    ensures Permutation(s0, r)
  {
    assert s == s[..cnt] + s[cnt..] && r == r[..cnt] + r[cnt..];
  }

  lemma LeavesAreHeap<T>(s: seq<T>, cmp: (T, T) -> int)
    ensures Heap(s, cmp, |s| / 2 + 1, |s|)
  {}

  /** The first loop of sort: the whole array becomes a heap. */
  method BuildHeap<T(!new)>(a: array<T>, cmp: (T, T) -> int)
    requires Preorder(cmp)
    modifies a
    ensures Heap(a[..], cmp, 1, a.Length) && Permutation(old(a[..]), a[..])
  {
    hide Preorder, Rearranged, Heap, Permutation;
    ghost var s0 := a[..];
    SameElements(s0);
    LeavesAreHeap(a[..], cmp);
    var i := a.Length / 2;
    while i > 0
      invariant 0 <= i <= a.Length / 2 && Heap(a[..], cmp, i + 1, a.Length) && Permutation(s0, a[..])
    {
      ghost var s := a[..];
      Heapify(a, i, a.Length, cmp);
      PermutesAll(s0, s, a[..], a.Length);
      i := i - 1;
    }
  }

  /** One turn of the second loop: the largest of the first i elements goes to the end of them. */
  method MoveLargest<T(!new)>(a: array<T>, i: nat, cmp: (T, T) -> int)
    requires Preorder(cmp) && 1 < i <= a.Length && Heap(a[..], cmp, 1, i) && TailSorted(a[..], cmp, i)
    modifies a
    ensures Heap(a[..], cmp, 1, i - 1) && TailSorted(a[..], cmp, i - 1) && Permutation(old(a[..]), a[..])
  {
    hide Preorder, Rearranged, Heap, TailSorted, Permutation, Swapped;
    ghost var s := a[..];
    MoveRoot(s, cmp, i);
    SwapRearranges(s, 1, i, i);
    SameElements(s);
    SwapFirst(a, i);
    ghost var t := a[..];
    PermutesAll(s, s, t, i);
    Heapify(a, 1, i - 1, cmp);
    TailKept(t, a[..], cmp, i - 1);
    PermutesAll(s, t, a[..], i - 1);
  }

  method SwapFirst<T(!new)>(a: array<T>, i: nat)
    requires 1 <= i <= a.Length
    modifies a
    ensures a[..] == Swapped(old(a[..]), 1, i)
  {
    a[0], a[i - 1] := a[i - 1], a[0];
  }

  lemma PermutesTwice<T>(s: seq<T>, r: seq<T>, q: seq<T>)
    requires Permutation(s, r) && Permutation(r, q)
    ensures Permutation(s, q)
  {}

  /** sort: the array ends sorted and holding the elements it held. */
  method Sort<T(!new)>(a: array<T>, cmp: (T, T) -> int)
    requires Preorder(cmp)
    modifies a
    ensures Sorted(a[..], cmp)
    ensures Permutation(old(a[..]), a[..])
  {
    hide Preorder, Heap, TailSorted, Permutation, Sorted;
    ghost var s0 := a[..];
    BuildHeap(a, cmp);
    TailStart(a[..], cmp);
    var i := a.Length;
    while i > 1
      invariant 0 <= i <= a.Length && (i == 0 ==> a.Length == 0) && (i > 0 ==> Heap(a[..], cmp, 1, i))
      invariant TailSorted(a[..], cmp, i) && Permutation(s0, a[..])
    {
      ghost var s := a[..];
      MoveLargest(a, i, cmp);
      PermutesTwice(s0, s, a[..]);
      i := i - 1;
    }
    TailEnd(a[..], cmp, i);
  }

  lemma SameElements<T>(s: seq<T>)
    ensures Permutation(s, s)
  {}

  lemma TailStart<T>(s: seq<T>, cmp: (T, T) -> int)
    ensures TailSorted(s, cmp, |s|)
  {}

  lemma TailEnd<T>(s: seq<T>, cmp: (T, T) -> int, i: nat)
    requires TailSorted(s, cmp, i) && i <= 1
    ensures Sorted(s, cmp)
  {}

  /** binary_search: an index of an element equal to the key, if there is one. */
  method BinarySearch<T(!new)>(key: T, a: array<T>, cmp: (T, T) -> int) returns (r: int)
    requires Preorder(cmp) && Sorted(a[..], cmp)
    ensures -1 <= r < a.Length
    ensures r >= 0 ==> cmp(key, a[r]) == 0
    ensures r == -1 ==> forall k | 0 <= k < a.Length :: cmp(key, a[k]) != 0
  {
    hide Preorder, Sorted, Excluded;
    var first, last := 0, a.Length;
    NoneExcluded(key, a[..], cmp);
    while first < last
      invariant 0 <= first <= last <= a.Length && Excluded(key, a[..], cmp, first, last)
    {
      var range := last - first;
      var middle := first + range / 2;
      var c := cmp(key, a[middle]);
      if c < 0 {
        AllAbove(key, a[..], cmp, first, last, middle);
        last := middle;
      } else if c > 0 {
        AllBelow(key, a[..], cmp, first, last, middle);
        first := middle + 1;
      } else {
        return middle;
      }
    }
    AllExcluded(key, a[..], cmp, first);
    assert forall k | 0 <= k < a.Length :: a[..][k] == a[k];
    return -1;
  }

  /** The key is greater than everything before `first` and less than everything from `last` on. */
  ghost predicate Excluded<T>(key: T, s: seq<T>, cmp: (T, T) -> int, first: nat, last: nat) {
    (forall k | 0 <= k < |s| && k < first :: cmp(key, s[k]) > 0) && (forall k | last <= k < |s| :: cmp(key, s[k]) < 0)
  }

  lemma NoneExcluded<T>(key: T, s: seq<T>, cmp: (T, T) -> int)
    ensures Excluded(key, s, cmp, 0, |s|)
  {}

  lemma AllExcluded<T>(key: T, s: seq<T>, cmp: (T, T) -> int, m: nat)
    requires Excluded(key, s, cmp, m, m)
    ensures forall k | 0 <= k < |s| :: cmp(key, s[k]) != 0
  {}

  lemma AllAbove<T(!new)>(key: T, s: seq<T>, cmp: (T, T) -> int, first: nat, last: nat, m: nat)
    requires Preorder(cmp) && Sorted(s, cmp) && m < |s| && cmp(key, s[m]) < 0 && Excluded(key, s, cmp, first, last)
    ensures Excluded(key, s, cmp, first, m)
  {
    forall k | m <= k < |s| ensures cmp(key, s[k]) < 0 {
      assert k == m || cmp(s[m], s[k]) <= 0;
      Above(cmp, key, s[m], s[k]);
    }
  }

  lemma Above<T(!new)>(cmp: (T, T) -> int, key: T, x: T, y: T)
    requires Preorder(cmp) && cmp(key, x) < 0 && (x == y || cmp(x, y) <= 0)
    ensures cmp(key, y) < 0
  {
    assert cmp(x, key) > 0;
    assert cmp(y, key) > 0;
  }

  lemma AllBelow<T(!new)>(key: T, s: seq<T>, cmp: (T, T) -> int, first: nat, last: nat, m: nat)
    requires Preorder(cmp) && Sorted(s, cmp) && m < |s| && cmp(key, s[m]) > 0 && Excluded(key, s, cmp, first, last)
    ensures Excluded(key, s, cmp, m + 1, last)
  {
    forall k | 0 <= k <= m ensures cmp(key, s[k]) > 0 {
      assert k == m || cmp(s[k], s[m]) <= 0;
      Below(cmp, key, s[m], s[k]);
    }
  }

  lemma Below<T(!new)>(cmp: (T, T) -> int, key: T, x: T, y: T)
    requires Preorder(cmp) && cmp(key, x) > 0 && (x == y || cmp(y, x) <= 0)
    ensures cmp(key, y) > 0
  {
    assert x == y || cmp(key, y) > 0;
  }

  /** Searching a sorted array finds a match if and only if the original held one. */
  method SortThenSearch<T(!new)>(a: array<T>, key: T, cmp: (T, T) -> int) returns (r: int)
    requires Preorder(cmp)
    modifies a
    ensures r >= 0 <==> exists x :: x in old(a[..]) && cmp(key, x) == 0
  {
    hide Preorder, Sorted, Permutation;
    ghost var s := a[..];
    Sort(a, cmp);
    r := BinarySearch(key, a, cmp);
    assert forall k | 0 <= k < a.Length :: a[..][k] == a[k];
    SameMatches(s, a[..], key, cmp);
    if r >= 0 {
      assert a[r] in a[..];
    }
  }

  lemma SameMatches<T(!new)>(s: seq<T>, t: seq<T>, key: T, cmp: (T, T) -> int)
    requires Permutation(s, t)
    ensures (exists x :: x in s && cmp(key, x) == 0) <==> exists x :: x in t && cmp(key, x) == 0
  {
    assert forall x :: x in s <==> x in multiset(s);
    assert forall x :: x in t <==> x in multiset(t);
  }
}

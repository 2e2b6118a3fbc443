/** The chained hash table of src/lib/kernel/hash.c. */
module HashTable {
  import opened Division64
  import opened Options

  // ---- Bit arithmetic ----

  /** The machine's bitwise `and` on unsigned words. */
  function And(x: nat, y: nat): (r: nat)
    ensures r <= x && r <= y
  {
    if x == 0 || y == 0 then 0 else (x % 2) * (y % 2) + 2 * And(x / 2, y / 2)
  }

  function TurnOffLeast1Bit(x: nat): nat
    requires x > 0
  {
    And(x, x - 1)
  }

  predicate IsPowerOf2(x: nat) { x != 0 && TurnOffLeast1Bit(x) == 0 }

  /** Powers of two, without the bit trick. */
  ghost predicate PowerOfTwo(x: nat) {
    x == 1 || (x > 1 && x % 2 == 0 && PowerOfTwo(x / 2))
  }

  ghost function LowBit(x: nat): (b: nat)
    requires x > 0
    ensures 0 < b <= x
  {
    if x % 2 == 1 then 1 else 2 * LowBit(x / 2)
  }

  lemma {:induction false} AndSelf(x: nat)
    ensures And(x, x) == x
  {
    if x > 0 {
      AndSelf(x / 2);
    }
  }

  /** x & (x - 1) is x without its lowest set bit. */
  lemma {:induction false} TurnOffIsMinusLowBit(x: nat)
    requires x > 0
    ensures TurnOffLeast1Bit(x) == x - LowBit(x)
  {
    if x % 2 == 1 {
      AndSelf(x / 2);
      assert (x - 1) / 2 == x / 2;
    } else {
      TurnOffIsMinusLowBit(x / 2);
      assert (x - 1) / 2 == x / 2 - 1 && (x - 1) % 2 == 1;
    }
  }

  lemma {:induction false} PowerOfTwoIsLowBit(x: nat)
    requires x > 0
    ensures PowerOfTwo(x) <==> LowBit(x) == x
    ensures PowerOfTwo(x) <==> IsPowerOf2(x)
  {
    TurnOffIsMinusLowBit(x);
    if x % 2 == 0 {
      PowerOfTwoIsLowBit(x / 2);
    }
  }

  /** Clearing the lowest bit leaves a number whose lowest bit is higher. */
  lemma {:induction false} NextLowBit(x: nat)
    requires x > 0 && LowBit(x) < x
    ensures LowBit(x - LowBit(x)) >= 2 * LowBit(x)
  {
    if x % 2 == 0 {
      NextLowBit(x / 2);
      assert (x - LowBit(x)) / 2 == x / 2 - LowBit(x / 2);
    }
  }

  /** Masking with a power of two less one is the remainder. */
  lemma {:induction false} MaskIsRemainder(h: nat, n: nat)
    requires PowerOfTwo(n)
    ensures And(h, n - 1) == h % n
  {
    hide And;
    if n == 1 {
      AndZero(h);
    } else {
      var m := n / 2;
      MaskIsRemainder(h / 2, m);
      AndOdd(h, m);
      DoubleRemainder(h, m);
    }
  }

  lemma AndZero(h: nat)
    ensures And(h, 0) == 0 == h % 1
  {}

  lemma AndOdd(h: nat, m: nat)
    requires m > 0
    ensures And(h, 2 * m - 1) == h % 2 + 2 * And(h / 2, m - 1)
  {
    assert (2 * m - 1) / 2 == m - 1 && (2 * m - 1) % 2 == 1;
  }

  lemma DoubleRemainder(h: nat, m: nat)
    requires m > 0
    ensures h % (2 * m) == h % 2 + 2 * (h / 2 % m)
  {
    var q := h / 2 / m;
    assert h / 2 == m * q + h / 2 % m;
    assert h == (2 * m) * q + (h % 2 + 2 * (h / 2 % m)) by { assert 2 * (m * q) == (2 * m) * q; }
    Remainder(h, 2 * m, q, h % 2 + 2 * (h / 2 % m));
  }

  lemma Remainder(h: int, d: int, q: int, r: int)
    requires d > 0 && h == d * q + r && 0 <= r < d
    ensures h % d == r
  {
    assert d * q == q * d;
    QuotientIsFloor(h, d, q);
  }

  // ---- Buckets ----

  /** All elements of all buckets. */
  ghost function Total<E>(b: seq<seq<E>>): multiset<E> {
    if b == [] then multiset{} else Total(b[..|b| - 1]) + multiset(b[|b| - 1])
  }

  lemma {:induction false} TotalUpdate<E>(b: seq<seq<E>>, i: nat, x: seq<E>)
    requires i < |b|
    ensures Total(b[i := x]) + multiset(b[i]) == Total(b) + multiset(x)
  {
    var n, c := |b| - 1, b[i := x];
    if i == n {
      assert c[..n] == b[..n];
    } else {
      TotalUpdate(b[..n], i, x);
      assert c[..n] == b[..n][i := x] && c[n] == b[n] && b[..n][i] == b[i];
      calc {
        Total(c) + multiset(b[i]);
        (Total(c[..n]) + multiset(b[n])) + multiset(b[i]);
        (Total(c[..n]) + multiset(b[i])) + multiset(b[n]);
        (Total(b[..n]) + multiset(x)) + multiset(b[n]);
        Total(b) + multiset(x);
      }
    }
  }

  lemma {:induction false} TotalMember<E>(b: seq<seq<E>>, i: nat, e: E)
    requires i < |b| && e in b[i]
    ensures e in Total(b)
  {
    var n := |b| - 1;
    if i < n {
      TotalMember(b[..n], i, e);
    }
  }

  lemma {:induction false} TotalWhere<E>(b: seq<seq<E>>, e: E) returns (i: nat)
    requires e in Total(b)
    ensures i < |b| && e in b[i]
  {
    var n := |b| - 1;
    if e in b[n] {
      i := n;
    } else {
      i := TotalWhere(b[..n], e);
    }
  }

  lemma {:induction false} TotalEmpty<E>(b: seq<seq<E>>)
    requires forall i | 0 <= i < |b| :: b[i] == []
    ensures Total(b) == multiset{}
  {
    if b != [] {
      TotalEmpty(b[..|b| - 1]);
    }
  }

  /** Equality of elements as the table sees it. */
  predicate Equal<E>(less: (E, E) -> bool, x: E, y: E) { !less(x, y) && !less(y, x) }

  /** What the table asks of the functions it is given: `Equal` is an equivalence that
      `hash` respects. */
  ghost predicate Coherent<E(!new)>(hash: E -> nat, less: (E, E) -> bool) {
    && (forall x :: Equal(less, x, x))
    && (forall x, y, z :: Equal(less, x, y) && Equal(less, y, z) ==> Equal(less, x, z))
    && (forall x, y :: Equal(less, x, y) ==> hash(x) == hash(y))
  }

  /** The table's abstract value: a collection with no two equal elements, that is, a map
      from classes of equal elements to elements. */
  ghost predicate Unique<E(!new)>(m: multiset<E>, less: (E, E) -> bool) {
    forall x, y | x in m && y in m && Equal(less, x, y) :: x == y && m[x] == 1
  }

  /** Each element sits in the bucket its hash selects. */
  ghost predicate Placed<E(!new)>(b: seq<seq<E>>, hash: E -> nat) {
    |b| > 0 && forall i, x | 0 <= i < |b| && x in b[i] :: hash(x) % |b| == i
  }

  /** e is equal to something in the table only if it is to something in its own bucket. */
  lemma OnlyInBucket<E(!new)>(b: seq<seq<E>>, hash: E -> nat, less: (E, E) -> bool, e: E, x: E)
    requires Coherent(hash, less) && Placed(b, hash) && x in Total(b) && Equal(less, x, e)
    ensures x in b[hash(e) % |b|]
  {
    var i := TotalWhere(b, x);
  }

  lemma CancelRight<E>(a: multiset<E>, b: multiset<E>, c: multiset<E>)
    requires a + c == b + c
    ensures a == b
  {
    forall x ensures a[x] == b[x] {
      assert (a + c)[x] == (b + c)[x];
    }
  }

  lemma PushFront<E(!new)>(b: seq<seq<E>>, hash: E -> nat, e: E)
    requires Placed(b, hash)
    ensures var i := hash(e) % |b|;
            Placed(b[i := [e] + b[i]], hash) && Total(b[i := [e] + b[i]]) == Total(b) + multiset{e}
  {
    var i := hash(e) % |b|;
    hide Total;
    TotalUpdate(b, i, [e] + b[i]);
    var m := multiset(b[i]);
    assert multiset([e] + b[i]) == multiset{e} + m;
    assert Total(b) + (multiset{e} + m) == (Total(b) + multiset{e}) + m;
    CancelRight(Total(b[i := [e] + b[i]]), Total(b) + multiset{e}, m);
  }

  lemma TakeOut<E(!new)>(b: seq<seq<E>>, hash: E -> nat, i: nat, p: nat)
    requires Placed(b, hash) && i < |b| && p < |b[i]|
    ensures var c := b[i := b[i][..p] + b[i][p + 1..]];
            Placed(c, hash) && Total(c) == Total(b) - multiset{b[i][p]} && b[i][p] in Total(b)
  {
    hide Total, Placed;
    TotalMember(b, i, b[i][p]);
    TakeOutTotal(b, i, p);
    TakeOutPlaced(b, hash, i, b[i][..p] + b[i][p + 1..]);
  }

  lemma TakeOutPlaced<E(!new)>(b: seq<seq<E>>, hash: E -> nat, i: nat, rest: seq<E>)
    requires Placed(b, hash) && i < |b| && forall x | x in rest :: x in b[i]
    ensures Placed(b[i := rest], hash)
  {}

  lemma TakeOutTotal<E(!new)>(b: seq<seq<E>>, i: nat, p: nat)
    requires i < |b| && p < |b[i]|
    ensures Total(b[i := b[i][..p] + b[i][p + 1..]]) == Total(b) - multiset{b[i][p]}
  {
    hide Total;
    var rest, x := b[i][..p] + b[i][p + 1..], b[i][p];
    var c := b[i := rest];
    TotalUpdate(b, i, rest);
    assert b[i] == b[i][..p] + [x] + b[i][p + 1..];
    assert multiset(b[i]) == multiset{x} + multiset(rest);
    assert Total(c) + (multiset{x} + multiset(rest)) == (Total(c) + multiset{x}) + multiset(rest);
    CancelRight(Total(c) + multiset{x}, Total(b), multiset(rest));
    assert Total(c) == (Total(c) + multiset{x}) - multiset{x};
  }

  lemma InsertUnique<E(!new)>(m: multiset<E>, less: (E, E) -> bool, hash: E -> nat, e: E)
    requires Coherent(hash, less) && Unique(m, less) && forall x | x in m :: !Equal(less, x, e)
    ensures Unique(m + multiset{e}, less)
  {}

  lemma DeleteUnique<E(!new)>(m: multiset<E>, less: (E, E) -> bool, hash: E -> nat, x: E)
    requires Coherent(hash, less) && Unique(m, less) && x in m
    ensures Unique(m - multiset{x}, less)
    ensures forall y | y in m - multiset{x} :: !Equal(less, y, x)
  {
    forall y | y in m - multiset{x} ensures !Equal(less, y, x) {
      assert Equal(less, x, x);
    }
  }

  class Hash<E(!new)> {
    const hash: E -> nat
    const less: (E, E) -> bool
    var buckets: array<seq<E>>
    var elemCnt: nat
    ghost var contents: multiset<E>

    ghost predicate Valid()
      reads this, buckets
    {
      && Coherent(hash, less)
      && PowerOfTwo(buckets.Length)
      && Placed(buckets[..], hash)
      && contents == Total(buckets[..])
      && elemCnt == |contents|
      && Unique(contents, less)
    }

    /** The bucket count rehash aims for. */
    ghost predicate Balanced()
      reads this
    {
      var m := if elemCnt / 2 < 4 then 4 else elemCnt / 2;
      buckets.Length <= m < 2 * buckets.Length
    }

    /** hash_init. */
    constructor (h: E -> nat, l: (E, E) -> bool)
      requires Coherent(h, l)
      ensures Valid() && contents == multiset{} && hash == h && less == l && fresh(buckets) && buckets.Length == 4
    {
      hash, less := h, l;
      buckets := new seq<E>[4](_ => []);
      elemCnt, contents := 0, multiset{};
      new;
      TotalEmpty(buckets[..]);
    }

    /** find_bucket. */
    method FindBucket(e: E) returns (i: nat)
      requires PowerOfTwo(buckets.Length)
      ensures i == hash(e) % buckets.Length < buckets.Length
    {
      MaskIsRemainder(hash(e), buckets.Length);
      i := And(hash(e), buckets.Length - 1);
    }

    /** find_elem: the position of the first element of bucket i equal to e. */
    method FindElem(i: nat, e: E) returns (p: Option<nat>)
      requires i < buckets.Length
      ensures p.Some? ==> p.value < |buckets[i]| && Equal(less, buckets[i][p.value], e)
      ensures p.None? ==> forall x | x in buckets[i] :: !Equal(less, x, e)
    {
      var j := 0;
      while j < |buckets[i]|
        invariant j <= |buckets[i]| && forall k | 0 <= k < j :: !Equal(less, buckets[i][k], e)
      {
        var x := buckets[i][j];
        if !less(x, e) && !less(e, x) {
          return Some(j);
        }
        j := j + 1;
      }
      return None;
    }

    /** Finding in the right bucket is finding in the table. */
    lemma BucketDecides(i: nat, e: E)
      requires Valid() && i == hash(e) % buckets.Length
      requires forall x | x in buckets[i] :: !Equal(less, x, e)
      ensures forall x | x in contents :: !Equal(less, x, e)
    {
      forall x | x in contents && Equal(less, x, e) ensures false {
        OnlyInBucket(buckets[..], hash, less, e, x);
      }
    }

    /** hash_find: the one element equal to e, if there is one. */
    method Find(e: E) returns (r: Option<E>)
      requires Valid()
      ensures r.Some? ==> r.value in contents && Equal(less, r.value, e)
      ensures r.None? ==> forall x | x in contents :: !Equal(less, x, e)
    {
      var i := FindBucket(e);
      var p := FindElem(i, e);
      if p.Some? {
        TotalMember(buckets[..], i, buckets[i][p.value]);
        r := Some(buckets[i][p.value]);
      } else {
        BucketDecides(i, e);
        r := None;
      }
    }

    /** The count rehash aims for: the largest power of two not above max(4, elemCnt / 2). */
    method IdealBucketCnt() returns (n: nat)
      ensures PowerOfTwo(n)
      ensures var m := if elemCnt / 2 < 4 then 4 else elemCnt / 2; n <= m < 2 * n
    {
      n := elemCnt / 2;
      if n < 4 {
        n := 4;
      }
      ghost var m := n;
      while !IsPowerOf2(n)
        invariant 0 < n <= m < n + LowBit(n)
        decreases n
      {
        PowerOfTwoIsLowBit(n);
        TurnOffIsMinusLowBit(n);
        NextLowBit(n);
        n := TurnOffLeast1Bit(n);
      }
      PowerOfTwoIsLowBit(n);
    }

    /** Moves every element of `from` into the table's buckets. */
    method MoveAll(from: array<seq<E>>)
      requires from != buckets && PowerOfTwo(buckets.Length) && Placed(buckets[..], hash)
      modifies from, buckets
      ensures Placed(buckets[..], hash) && Total(buckets[..]) == old(Total(buckets[..]) + Total(from[..]))
    {
      hide Total, Placed, And, PowerOfTwo;
      ghost var all := Total(buckets[..]) + Total(from[..]);
      var i := 0;
      while i < from.Length
        invariant 0 <= i <= from.Length && forall j | 0 <= j < i :: from[j] == []
        invariant Placed(buckets[..], hash) && Total(buckets[..]) + Total(from[..]) == all
      {
        while from[i] != []
          invariant i < from.Length && forall j | 0 <= j < i :: from[j] == []
          invariant Placed(buckets[..], hash) && Total(buckets[..]) + Total(from[..]) == all
          decreases |from[i]|
        {
          var e := from[i][0];
          var k := FindBucket(e);
          ghost var b, f := buckets[..], from[..];
          PushFront(b, hash, e);
          TakeOutTotal(f, i, 0);
          TotalMember(f, i, e);
          from[i] := from[i][1..];
          buckets[k] := [e] + buckets[k];
          assert f[i][..0] + f[i][1..] == f[i][1..];
          assert from[..] == f[i := f[i][1..]];
          assert buckets[..] == b[k := [e] + b[k]];
          MovedOne(Total(b), Total(f), e);
        }
        i := i + 1;
      }
      TotalEmpty(from[..]);
    }

    /** rehash: the table holds what it held, whether or not memory could be had. */
    method Rehash(allocOk: bool)
      requires Valid()
      modifies this, buckets
      ensures Valid() && contents == old(contents) && (buckets == old(buckets) || fresh(buckets))
      ensures allocOk ==> Balanced()
      ensures !allocOk ==> buckets == old(buckets)
    {
      var n := IdealBucketCnt();
      if n == buckets.Length || !allocOk {
        return;
      }
      var from := buckets;
      buckets := new seq<E>[n](_ => []);
      TotalEmpty(buckets[..]);
      assert Placed(buckets[..], hash);
      MoveAll(from);
    }

    /** insert_elem. */
    method InsertElem(i: nat, e: E)
      requires Valid() && i == hash(e) % buckets.Length < buckets.Length
      requires forall x | x in contents :: !Equal(less, x, e)
      modifies this, buckets
      ensures Valid() && contents == old(contents) + multiset{e} && buckets == old(buckets)
    {
      hide PowerOfTwo, Total, Coherent, Unique, Placed;
      ghost var b := buckets[..];
      PushFront(b, hash, e);
      InsertUnique(contents, less, hash, e);
      elemCnt := elemCnt + 1;
      buckets[i] := [e] + buckets[i];
      contents := contents + multiset{e};
      assert buckets[..] == b[i := [e] + b[i]];
    }

    /** remove_elem. */
    method RemoveElem(i: nat, p: nat)
      requires Valid() && i < buckets.Length && p < |buckets[i]|
      modifies this, buckets
      ensures Valid() && contents == old(contents) - multiset{old(buckets[i][p])} && buckets == old(buckets)
      ensures old(buckets[i][p]) in old(contents) && forall x | x in contents :: !Equal(less, x, old(buckets[i][p]))
    {
      hide PowerOfTwo, Total, Coherent, Unique, Placed;
      ghost var b, x := buckets[..], buckets[i][p];
      TakeOut(b, hash, i, p);
      DeleteUnique(contents, less, hash, x);
      elemCnt := elemCnt - 1;
      buckets[i] := buckets[i][..p] + buckets[i][p + 1..];
      contents := contents - multiset{x};
      assert buckets[..] == b[i := b[i][..p] + b[i][p + 1..]];
    }

    /** hash_insert: adds e unless something equal is there, which is returned. */
    method Insert(e: E, allocOk: bool) returns (r: Option<E>)
      requires Valid()
      modifies this, buckets
      ensures Valid() && (buckets == old(buckets) || fresh(buckets))
      ensures allocOk ==> Balanced()
      ensures r.None? ==> contents == old(contents) + multiset{e} && forall x | x in old(contents) :: !Equal(less, x, e)
      ensures r.Some? ==> contents == old(contents) && r.value in contents && Equal(less, r.value, e)
    {
      var i := FindBucket(e);
      var p := FindElem(i, e);
      if p.Some? {
        TotalMember(buckets[..], i, buckets[i][p.value]);
        r := Some(buckets[i][p.value]);
      } else {
        BucketDecides(i, e);
        InsertElem(i, e);
        r := None;
      }
      Rehash(allocOk);
    }

    /** hash_replace: afterwards e is the one element equal to e. */
    method Replace(e: E, allocOk: bool) returns (r: Option<E>)
      requires Valid()
      modifies this, buckets
      ensures Valid() && (buckets == old(buckets) || fresh(buckets))
      ensures allocOk ==> Balanced()
      ensures r.None? ==> contents == old(contents) + multiset{e} && forall x | x in old(contents) :: !Equal(less, x, e)
      ensures r.Some? ==> r.value in old(contents) && Equal(less, r.value, e)
                          && contents == old(contents) - multiset{r.value} + multiset{e}
    {
      var i := FindBucket(e);
      var p := FindElem(i, e);
      if p.Some? {
        ghost var x := buckets[i][p.value];
        r := Some(buckets[i][p.value]);
        RemoveElem(i, p.value);
        EqualTogether(x, e);
      } else {
        BucketDecides(i, e);
        r := None;
      }
      InsertElem(i, e);
      Rehash(allocOk);
    }

    lemma EqualTogether(x: E, e: E)
      requires Valid() && Equal(less, x, e) && forall y | y in contents :: !Equal(less, y, x)
      ensures forall y | y in contents :: !Equal(less, y, e)
    {
      forall y | y in contents ensures !Equal(less, y, e) {
        assert Equal(less, e, x);
      }
    }

    /** hash_delete: takes out the element equal to e, if there is one. */
    method Delete(e: E, allocOk: bool) returns (r: Option<E>)
      requires Valid()
      modifies this, buckets
      ensures Valid() && (buckets == old(buckets) || fresh(buckets))
      ensures allocOk && r.Some? ==> Balanced()
      ensures r.None? ==> contents == old(contents) && forall x | x in contents :: !Equal(less, x, e)
      ensures r.Some? ==> r.value in old(contents) && Equal(less, r.value, e)
                          && contents == old(contents) - multiset{r.value} && forall x | x in contents ::
                              !Equal(less, x, e)
    {
      var i := FindBucket(e);
      var p := FindElem(i, e);
      if p.Some? {
        ghost var x := buckets[i][p.value];
        r := Some(buckets[i][p.value]);
        RemoveElem(i, p.value);
        EqualTogether(x, e);
        Rehash(allocOk);
      } else {
        BucketDecides(i, e);
        r := None;
      }
    }
  }

  /** hash_init, whose allocation of the buckets may fail. */
  method HashInit<E(!new)>(h: E -> nat, l: (E, E) -> bool, allocOk: bool) returns (r: Option<Hash<E>>)
    requires Coherent(h, l)
    ensures r.Some? <==> allocOk
    ensures r.Some? ==> fresh(r.value) && r.value.Valid() && r.value.hash == h && r.value.less == l
    ensures r.Some? ==> r.value.contents == multiset{} && r.value.buckets.Length == 4
  {
    if !allocOk {
      return None;
    }
    var t := new Hash(h, l);
    return Some(t);
  }

  /** struct hash_iterator: a bucket and a position in it; position -1 is the list head. */
  class Iterator<E(!new)> {
    const table: Hash<E>
    var bucket: nat
    var pos: int

    /** hash_first. */
    constructor (h: Hash<E>)
      requires h.Valid()
      ensures table == h && Inside() && Seen() == []
    {
      table, bucket, pos := h, 0, -1;
    }

    ghost predicate Inside()
      reads this, table, table.buckets
    {
      bucket < table.buckets.Length && -1 <= pos < |table.buckets[bucket]|
    }

    /** The elements the iterator has passed, in order. */
    ghost function Seen(): seq<E>
      requires Inside()
      reads this, table, table.buckets
    {
      Flat(table.buckets[..bucket]) + table.buckets[bucket][..pos + 1]
    }

    /** hash_next. */
    method Next() returns (r: Option<E>)
      requires table.Valid() && Inside()
      modifies this
      ensures r.Some? ==> Inside() && Seen() == old(Seen()) + [r.value]
      ensures r.Some? ==> bucket > old(bucket) || (bucket == old(bucket) && pos > old(pos))
      ensures r.None? ==> multiset(old(Seen())) == table.contents
    {
      hide Flat;
      ghost var seen := Seen();
      pos := pos + 1;
      while pos == |table.buckets[bucket]|
        invariant bucket < table.buckets.Length && 0 <= pos <= |table.buckets[bucket]|
        invariant bucket > old(bucket) || (bucket == old(bucket) && pos > old(pos))
        invariant seen == Flat(table.buckets[..bucket]) + table.buckets[bucket][..pos]
        decreases table.buckets.Length - bucket
      {
        ghost var b := table.buckets[..];
        FlatStep(b, bucket);
        assert table.buckets[bucket][..pos] == b[bucket] && b[..bucket] == table.buckets[..bucket]
               && b[..bucket + 1] == table.buckets[..bucket + 1];
        bucket := bucket + 1;
        if bucket >= table.buckets.Length {
          assert b[..bucket] == b;
          FlatTotal(b);
          return None;
        }
        pos := 0;
        FlatTail(b, bucket, seen);
      }
      r := Some(table.buckets[bucket][pos]);
    }
  }

  /** The buckets' elements, bucket by bucket. */
  ghost function Flat<E>(b: seq<seq<E>>): seq<E> {
    if b == [] then [] else Flat(b[..|b| - 1]) + b[|b| - 1]
  }

  lemma FlatStep<E>(b: seq<seq<E>>, i: nat)
    requires i < |b|
    ensures Flat(b[..i + 1]) == Flat(b[..i]) + b[i]
  {
    assert b[..i + 1][..i] == b[..i];
  }

  lemma FlatTail<E>(b: seq<seq<E>>, i: nat, s: seq<E>)
    requires i < |b| && s == Flat(b[..i])
    ensures s == Flat(b[..i]) + b[i][..0]
  {}

  lemma {:induction false} FlatTotal<E>(b: seq<seq<E>>)
    ensures multiset(Flat(b)) == Total(b)
  {
    if b != [] {
      FlatTotal(b[..|b| - 1]);
    }
  }

  /** Iterating to the end visits each element of the table exactly once. */
  method VisitAll<E(!new)>(h: Hash<E>) returns (visited: seq<E>)
    requires h.Valid()
    ensures multiset(visited) == h.contents
  {
    var i := new Iterator(h);
    visited := [];
    while true
      invariant i.table == h && h.Valid() && fresh(i) && i.Inside() && visited == i.Seen()
      decreases h.buckets.Length - i.bucket, |h.buckets[i.bucket]| - i.pos
    {
      var r := i.Next();
      if r.None? {
        return;
      }
      visited := visited + [r.value];
    }
  }

  lemma MovedOne<E>(x: multiset<E>, y: multiset<E>, e: E)
    requires e in y
    ensures (x + multiset{e}) + (y - multiset{e}) == x + y
  {}
}

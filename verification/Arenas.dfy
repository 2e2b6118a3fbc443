/** The state of the kernel allocator (src/threads/malloc.c over src/threads/palloc.c) as a
    value, what it keeps between calls, and what each elementary step does to it.
    Addresses count bytes from the start of the kernel pool. */
module Arenas {
  import opened Bitmaps
  import opened Division64
  import opened Lists

  const PGSIZE := 4096
  const ARENA_SIZE := 12   // sizeof (struct arena) on a 32-bit machine

  /** An arena header: an arena of blocks, or a big block of whole pages. */
  datatype Arena = Small(desc: nat, freeCnt: nat) | Big(pages: nat)

  /** `taken` marks the pages that belong to other users of the pool, `sizes` the block size of
      each descriptor, `lists` its free list, `live` the blocks handed out and not freed. */
  datatype Heap = Heap(taken: seq<bool>, sizes: seq<nat>, used: seq<bool>, arenas: map<nat, Arena>,
                       lists: seq<seq<nat>>, live: set<nat>)

  function Span(a: Arena): nat { if a.Small? then 1 else a.pages }

  /** blocks_per_arena. */
  function PerArena(size: nat): nat
    requires size > 0
  {
    (PGSIZE - ARENA_SIZE) / size
  }

  /** arena_to_block: block idx of the arena at page p. */
  function BlockAt(p: nat, size: nat, idx: nat): (x: nat)
  {
    p * PGSIZE + ARENA_SIZE + idx * size
  }

  ghost predicate IsBlock(x: nat, size: nat)
    requires size > 0
  {
    exists idx: nat | idx < PerArena(size) :: x == BlockAt(x / PGSIZE, size, idx)
  }

  // ---- What holds between calls ----

  ghost predicate Sizes(h: Heap) {
    |h.lists| == |h.sizes| && forall d | 0 <= d < |h.sizes| :: 0 < h.sizes[d] <= PGSIZE - ARENA_SIZE
  }

  /** Arenas lie in the pool and do not overlap. */
  ghost predicate Spans(h: Heap) {
    && (forall p | p in h.arenas :: Span(h.arenas[p]) >= 1 && p + Span(h.arenas[p]) <= |h.used|
          && (h.arenas[p].Small? ==> h.arenas[p].desc < |h.sizes|))
    && (forall p, q | p in h.arenas && q in h.arenas && p < q :: p + Span(h.arenas[p]) <= q)
  }

  ghost predicate Covered(arenas: map<nat, Arena>, q: nat) {
    exists p | p in arenas :: p <= q < p + Span(arenas[p])
  }

  /** The page bitmap marks the pages of arenas and of others, and nothing else. */
  ghost predicate Pages(h: Heap) {
    |h.taken| == |h.used| && forall q | 0 <= q < |h.used| ::
      (h.used[q] <==> h.taken[q] || Covered(h.arenas, q)) && !(h.taken[q] && Covered(h.arenas, q))
  }

  /** x is a block of an arena of descriptor d. */
  ghost predicate BlockOf(h: Heap, x: nat, d: nat)
    requires Sizes(h) && d < |h.sizes|
  {
    var p := x / PGSIZE;
    p in h.arenas && h.arenas[p].Small? && h.arenas[p].desc == d && IsBlock(x, h.sizes[d])
  }

  ghost predicate Listed(h: Heap)
    requires Sizes(h)
  {
    forall d | 0 <= d < |h.sizes| :: NoDup(h.lists[d]) && forall x | x in h.lists[d] :: BlockOf(h, x, d)
  }

  /** x is where an arena has a block. */
  ghost predicate InArena(h: Heap, x: nat)
    requires Sizes(h) && Spans(h)
  {
    var p := x / PGSIZE;
    p in h.arenas && if h.arenas[p].Small? then IsBlock(x, h.sizes[h.arenas[p].desc]) else x % PGSIZE == ARENA_SIZE
  }

  ghost predicate Owned(h: Heap)
    requires Sizes(h) && Spans(h)
  {
    forall x | x in h.live :: InArena(h, x)
  }

  /** Every block of an arena is either free or live, and not both. */
  ghost predicate Split(h: Heap, p: nat)
    requires Sizes(h) && Spans(h) && p in h.arenas
  {
    match h.arenas[p]
    case Small(d, _) =>
      forall idx: nat | idx < PerArena(h.sizes[d]) ::
        BlockAt(p, h.sizes[d], idx) in h.lists[d] <==> BlockAt(p, h.sizes[d], idx) !in h.live
    case Big(_) => p * PGSIZE + ARENA_SIZE in h.live
  }

  ghost predicate AllSplit(h: Heap)
    requires Sizes(h) && Spans(h)
  {
    forall p | p in h.arenas :: Split(h, p)
  }

  /** The indices of the blocks of page p that are on a free list. */
  ghost function FreeSet(list: seq<nat>, p: nat, size: nat): set<nat>
    requires size > 0
  {
    set idx: nat | idx < PerArena(size) && BlockAt(p, size, idx) in list
  }

  /** free_cnt of the arena at p is the number of its blocks on the free list. */
  ghost predicate CountOk(h: Heap, p: nat)
    requires Sizes(h) && Spans(h) && p in h.arenas
  {
    h.arenas[p].Small? ==>
      h.arenas[p].freeCnt == |FreeSet(h.lists[h.arenas[p].desc], p, h.sizes[h.arenas[p].desc])|
  }

  ghost predicate Counted(h: Heap)
    requires Sizes(h) && Spans(h)
  {
    forall p | p in h.arenas :: CountOk(h, p)
  }

  /** No arena, those of `except` apart, is wholly free. */
  ghost predicate NoneFull(h: Heap, except: set<nat>)
    requires Sizes(h) && Spans(h)
  {
    forall p | p in h.arenas && h.arenas[p].Small? && p !in except ::
      h.arenas[p].freeCnt < PerArena(h.sizes[h.arenas[p].desc])
  }

  ghost predicate Consistent(h: Heap, except: set<nat>) {
    && Sizes(h) && Spans(h) && Pages(h) && Listed(h) && Owned(h) && AllSplit(h)
    && Counted(h) && NoneFull(h, except)
  }

  ghost predicate Inv(h: Heap) { Consistent(h, {}) }

  // ---- Arithmetic of blocks ----

  lemma BlockFits(size: nat, idx: nat)
    requires size > 0 && idx < PerArena(size)
    ensures idx * size + size <= PGSIZE - ARENA_SIZE
  {
    var n := PerArena(size);
    FloorIsQuotient(PGSIZE - ARENA_SIZE, size);
    MulMono(idx + 1, n, size);
    Distribute(idx, 1, size);
  }

  /** An arena holds as many blocks as fit behind its header, and no fewer. */
  lemma ArenaHoldsMost(size: nat)
    requires size > 0
    ensures PerArena(size) * size <= PGSIZE - ARENA_SIZE < PerArena(size) * size + size
  {
    FloorIsQuotient(PGSIZE - ARENA_SIZE, size);
  }

  lemma BlockPage(p: nat, size: nat, idx: nat)
    requires size > 0 && idx < PerArena(size)
    ensures BlockAt(p, size, idx) / PGSIZE == p && BlockAt(p, size, idx) % PGSIZE == ARENA_SIZE + idx * size
    ensures IsBlock(BlockAt(p, size, idx), size)
  {
    BlockFits(size, idx);
    assert BlockAt(p, size, idx) / PGSIZE == p;
  }

  lemma BlocksApart(size: nat, i: nat, j: nat)
    requires i < j
    ensures i * size + size <= j * size
  {
    MulMono(i + 1, j, size);
    Distribute(i, 1, size);
  }

  /** The alignment that block_to_arena asserts. */
  lemma BlockAligned(x: nat, size: nat)
    requires size > 0 && IsBlock(x, size)
    ensures x % PGSIZE >= ARENA_SIZE && (x % PGSIZE - ARENA_SIZE) % size == 0
  {
    var idx: nat :| idx < PerArena(size) && x == BlockAt(x / PGSIZE, size, idx);
    BlockPage(x / PGSIZE, size, idx);
    MultipleOf(idx, size);
  }

  lemma MultipleOf(k: nat, n: nat)
    requires n > 0
    ensures k * n % n == 0
  {
    QuotientIsFloor(k * n, n, k);
    FloorIsQuotient(k * n, n);
  }

  // ---- What the invariant means ----

  /** block_size: how many bytes a block holds. */
  ghost function Capacity(h: Heap, x: nat): nat
    requires Sizes(h) && Spans(h) && InArena(h, x)
  {
    var a := h.arenas[x / PGSIZE];
    if a.Small? then h.sizes[a.desc] else a.pages * PGSIZE - ARENA_SIZE
  }

  /** A block lies within its arena's pages and behind its header. */
  lemma InsideArena(h: Heap, x: nat)
    requires Sizes(h) && Spans(h) && InArena(h, x)
    ensures var p := x / PGSIZE; p * PGSIZE + ARENA_SIZE <= x && x + Capacity(h, x) <= (p + Span(h.arenas[p])) * PGSIZE
    ensures x + Capacity(h, x) <= |h.used| * PGSIZE
  {
    var p := x / PGSIZE;
    if h.arenas[p].Small? {
      var size := h.sizes[h.arenas[p].desc];
      var idx: nat :| idx < PerArena(size) && x == BlockAt(p, size, idx);
      BlockFits(size, idx);
    }
  }

  /** Blocks, live or free, never overlap. */
  lemma Apart(h: Heap, x: nat, y: nat)
    requires Sizes(h) && Spans(h) && InArena(h, x) && InArena(h, y) && x != y
    ensures x + Capacity(h, x) <= y || y + Capacity(h, y) <= x
  {
    var p, q := x / PGSIZE, y / PGSIZE;
    InsideArena(h, x);
    InsideArena(h, y);
    if p == q && h.arenas[p].Small? {
      var size := h.sizes[h.arenas[p].desc];
      var i: nat :| i < PerArena(size) && x == BlockAt(p, size, i);
      var j: nat :| j < PerArena(size) && y == BlockAt(p, size, j);
      if i < j { BlocksApart(size, i, j); } else { BlocksApart(size, j, i); }
    }
  }

  lemma {:induction false} SubsetOfRange(s: set<nat>, n: nat)
    requires forall i | i in s :: i < n
    ensures |s| <= n
    ensures |s| == n ==> forall i: nat | i < n :: i in s
  {
    if n > 0 {
      var t := s - {n - 1};
      SubsetOfRange(t, n - 1);
      if n - 1 in s {
        assert |s| == |t| + 1;
      } else {
        assert s == t;
      }
    } else {
      assert s == {};
    }
  }

  lemma {:induction false} RangeSize(s: set<nat>, n: nat)
    requires forall i: nat :: i in s <==> i < n
    ensures |s| == n
  {
    if n > 0 {
      RangeSize(s - {n - 1}, n - 1);
    } else {
      assert s == {};
    }
  }

  /** Once everything is freed the page bitmap is what it was before. */
  lemma AllFreed(h: Heap)
    requires Inv(h) && h.live == {}
    ensures h.used == h.taken && h.arenas == map[]
  {
    forall p ensures p !in h.arenas {
      if p in h.arenas {
        assert Split(h, p);
        var size := h.sizes[h.arenas[p].desc];
        var s := FreeSet(h.lists[h.arenas[p].desc], p, size);
        forall idx: nat ensures idx in s <==> idx < PerArena(size) {}
        RangeSize(s, PerArena(size));
      }
    }
    assert forall q | 0 <= q < |h.used| :: !Covered(h.arenas, q);
  }

  // ---- Steps ----

  /** The blocks of a new arena, in the order they are put on the free list. */
  function Blocks(p: nat, size: nat, n: nat): (s: seq<nat>)
    ensures |s| == n && forall i | 0 <= i < n :: s[i] == BlockAt(p, size, i)
  {
    seq(n, i requires 0 <= i => BlockAt(p, size, i))
  }

  /** A new arena for descriptor d at the free page p, all its blocks free. */
  ghost function NewArena(h: Heap, d: nat, p: nat): Heap
    requires Sizes(h) && d < |h.sizes| && p < |h.used|
  {
    var n := PerArena(h.sizes[d]);
    h.(used := SetRange(h.used, p, 1, true), arenas := h.arenas[p := Small(d, n)],
       lists := h.lists[d := Blocks(p, h.sizes[d], n)])
  }

  /** A big block of n pages at p. */
  ghost function NewBig(h: Heap, p: nat, n: nat): Heap
    requires p + n <= |h.used|
  {
    h.(used := SetRange(h.used, p, n, true), arenas := h.arenas[p := Big(n)],
       live := h.live + {p * PGSIZE + ARENA_SIZE})
  }

  /** The first block of free list d is handed out. */
  ghost function Pop(h: Heap, d: nat): Heap
    requires Sizes(h) && d < |h.sizes| && h.lists[d] != [] && BlockOf(h, h.lists[d][0], d)
  {
    var x := h.lists[d][0];
    var a := h.arenas[x / PGSIZE];
    h.(lists := h.lists[d := h.lists[d][1..]], live := h.live + {x},
       arenas := h.arenas[x / PGSIZE := a.(freeCnt := if a.freeCnt > 0 then a.freeCnt - 1 else 0)])
  }

  /** Block x goes back on the free list of descriptor d. */
  ghost function Push(h: Heap, x: nat, d: nat): Heap
    requires Sizes(h) && d < |h.sizes| && BlockOf(h, x, d)
  {
    var a := h.arenas[x / PGSIZE];
    h.(lists := h.lists[d := [x] + h.lists[d]], live := h.live - {x},
       arenas := h.arenas[x / PGSIZE := a.(freeCnt := a.freeCnt + 1)])
  }

  lemma FreePageUncovered(h: Heap, p: nat, n: nat)
    requires Sizes(h) && Spans(h) && Pages(h) && Group(h.used, p, n, false)
    ensures forall q | p <= q < p + n :: q !in h.arenas && !Covered(h.arenas, q) && !h.taken[q]
    ensures forall q | q in h.arenas && q < p && n > 0 :: q + Span(h.arenas[q]) <= p
  {
    forall q | p <= q < p + n ensures q !in h.arenas && !Covered(h.arenas, q) {
      assert !h.used[q];
    }
    forall q | q in h.arenas && q < p && n > 0 ensures q + Span(h.arenas[q]) <= p {
      assert !Covered(h.arenas, p);
    }
  }

  lemma NewSpan(h: Heap, k: Heap, p: nat, a: Arena)
    requires Sizes(h) && Spans(h) && Pages(h) && Span(a) > 0 && Group(h.used, p, Span(a), false)
    requires a.Small? ==> a.desc < |h.sizes|
    requires k.arenas == h.arenas[p := a] && k.used == SetRange(h.used, p, Span(a), true)
    requires k.sizes == h.sizes && k.taken == h.taken
    ensures Spans(k) && Pages(k)
  {
    hide Covered, Spans, Pages, Span;
    FreePageUncovered(h, p, Span(a));
    NewSpanApart(h, k, p, a);
    forall q | 0 <= q < |h.used| ensures Covered(k.arenas, q) <==> Covered(h.arenas, q) || p <= q < p + Span(a) {
      NewCovered(h, k, p, a, q);
    }
    NewSpanPages(h, k, p, a);
  }

  lemma NewSpanApart(h: Heap, k: Heap, p: nat, a: Arena)
    requires Spans(h) && Span(a) > 0 && Group(h.used, p, Span(a), false) && (a.Small? ==> a.desc < |h.sizes|)
    requires k.arenas == h.arenas[p := a] && |k.used| == |h.used| && k.sizes == h.sizes
    requires forall q | p <= q < p + Span(a) :: !Covered(h.arenas, q)
    ensures Spans(k) && p !in h.arenas
  {
    hide Span;
    forall q | q in h.arenas && q <= p ensures q + Span(h.arenas[q]) <= p {
      assert !Covered(h.arenas, p);
    }
    forall q | q in h.arenas && p < q ensures p + Span(a) <= q {
      assert Covered(h.arenas, q);
    }
  }

  lemma NewSpanPages(h: Heap, k: Heap, p: nat, a: Arena)
    requires Pages(h) && Group(h.used, p, Span(a), false) && k.used == SetRange(h.used, p, Span(a), true)
    requires k.taken == h.taken
    requires forall q | 0 <= q < |h.used| :: Covered(k.arenas, q) <==> Covered(h.arenas, q) || p <= q < p + Span(a)
    ensures Pages(k)
  {
    hide Covered, Span;
  }

  lemma NewCovered(h: Heap, k: Heap, p: nat, a: Arena, q: nat)
    requires k.arenas == h.arenas[p := a] && p !in h.arenas
    ensures Covered(k.arenas, q) <==> Covered(h.arenas, q) || p <= q < p + Span(a)
  {
    if Covered(h.arenas, q) {
      var r :| r in h.arenas && r <= q < r + Span(h.arenas[r]);
      assert r in k.arenas && k.arenas[r] == h.arenas[r];
    }
    if p <= q < p + Span(a) {
      assert p in k.arenas;
    }
  }

  // A page without an arena has no blocks.
  lemma NoBlocksThere(h: Heap, p: nat)
    requires Sizes(h) && Spans(h) && Listed(h) && Owned(h) && p !in h.arenas
    ensures forall x | x / PGSIZE == p :: x !in h.live && forall d | 0 <= d < |h.lists| :: x !in h.lists[d]
  {
    forall x, d | x / PGSIZE == p && 0 <= d < |h.lists| ensures x !in h.lists[d] {
      assert x in h.lists[d] ==> BlockOf(h, x, d);
    }
  }

  lemma BlocksDistinct(p: nat, size: nat, n: nat)
    requires size > 0
    ensures NoDup(Blocks(p, size, n))
  {
    forall i, j | 0 <= i < j < n ensures BlockAt(p, size, i) != BlockAt(p, size, j) {
      BlocksApart(size, i, j);
    }
  }

  lemma BlocksPage(p: nat, size: nat)
    requires size > 0
    ensures forall x | x in Blocks(p, size, PerArena(size)) :: x / PGSIZE == p && IsBlock(x, size)
  {
    forall i: nat | i < PerArena(size) ensures BlockAt(p, size, i) / PGSIZE == p && IsBlock(BlockAt(p, size, i), size) {
      BlockPage(p, size, i);
    }
  }

  lemma NewArenaListed(h: Heap, k: Heap, d: nat, p: nat)
    requires Sizes(h) && Spans(h) && Listed(h) && d < |h.sizes| && p < |h.used| && p !in h.arenas
    requires k == NewArena(h, d, p) && Spans(k)
    ensures Listed(k)
  {
    hide IsBlock, PerArena, BlockAt;
    BlocksDistinct(p, h.sizes[d], PerArena(h.sizes[d]));
    BlocksPage(p, h.sizes[d]);
    forall e, x | 0 <= e < |k.lists| && x in k.lists[e] ensures BlockOf(k, x, e) {
      if e != d {
        assert BlockOf(h, x, e);
      }
    }
  }

  lemma NewArenaOwned(h: Heap, k: Heap, p: nat, a: Arena, x: nat)
    requires Sizes(h) && Spans(h) && Sizes(k) && Spans(k) && p !in h.arenas && InArena(h, x)
    requires k.arenas == h.arenas[p := a] && k.sizes == h.sizes
    ensures InArena(k, x)
  {}

  lemma NewArenaSplit(h: Heap, k: Heap, d: nat, p: nat, q: nat)
    requires Sizes(h) && Spans(h) && Listed(h) && Owned(h) && AllSplit(h) && Counted(h)
    requires d < |h.sizes| && p < |h.used| && p !in h.arenas && h.lists[d] == []
    requires k == NewArena(h, d, p) && Spans(k) && q in k.arenas
    ensures Split(k, q)
    ensures CountOk(k, q)
  {
    if k.arenas[q].Small? {
      var e := k.arenas[q].desc;
      var size := k.sizes[e];
      NoBlocksThere(h, p);
      BlocksPage(p, h.sizes[d]);
      if q != p {
        assert Split(h, q);
        forall idx: nat | idx < PerArena(size)
          ensures BlockAt(q, size, idx) in k.lists[e] <==> BlockAt(q, size, idx) in h.lists[e]
        {
          BlockPage(q, size, idx);
        }
        assert CountOk(h, q) && FreeSet(k.lists[e], q, size) == FreeSet(h.lists[e], q, size);
      } else {
        forall idx: nat | idx < PerArena(size)
          ensures BlockAt(q, size, idx) in k.lists[e] && BlockAt(q, size, idx) !in k.live
        {
          BlockPage(q, size, idx);
          assert k.lists[e][idx] == BlockAt(q, size, idx);
        }
        RangeSize(FreeSet(k.lists[e], q, size), PerArena(size));
      }
    } else {
      assert Split(h, q);
    }
  }

  lemma NewArenaKeeps(h: Heap, d: nat, p: nat)
    requires Inv(h) && d < |h.sizes| && Group(h.used, p, 1, false) && h.lists[d] == []
    ensures Consistent(NewArena(h, d, p), {p})
    ensures NewArena(h, d, p).lists[d] != [] && NewArena(h, d, p).lists[d][0] / PGSIZE == p
  {
    hide Split, IsBlock, FreeSet, BlockAt, PerArena, BlockOf, InArena, Spans, Pages, Covered;
    var k := NewArena(h, d, p);
    NewSpan(h, k, p, k.arenas[p]);
    FreePageUncovered(h, p, 1);
    NewArenaListed(h, k, d, p);
    forall x | x in k.live ensures InArena(k, x) {
      NewArenaOwned(h, k, p, k.arenas[p], x);
    }
    forall q | q in k.arenas
      ensures Split(k, q)
      ensures CountOk(k, q)
    {
      NewArenaSplit(h, k, d, p, q);
    }
    SomeBlock(h.sizes[d]);
    BlocksPage(p, h.sizes[d]);
    assert k.lists[d][0] in k.lists[d];
  }

  lemma SomeBlock(size: nat)
    requires 0 < size <= PGSIZE - ARENA_SIZE
    ensures PerArena(size) >= 1
  {
    FloorIsQuotient(PGSIZE - ARENA_SIZE, size);
    if PerArena(size) <= 0 {
      MulMono(PerArena(size), 0, size);
    }
  }

  lemma NewBigSplit(h: Heap, k: Heap, p: nat, n: nat, q: nat)
    requires Sizes(h) && Spans(h) && AllSplit(h) && p + n <= |h.used| && p !in h.arenas
    requires k == NewBig(h, p, n) && Spans(k) && q in k.arenas
    ensures Split(k, q)
  {
    if q != p {
      assert Split(h, q);
      if h.arenas[q].Small? {
        forall idx: nat | idx < PerArena(h.sizes[h.arenas[q].desc])
          ensures BlockAt(q, h.sizes[h.arenas[q].desc], idx) != p * PGSIZE + ARENA_SIZE
        {
          BlockPage(q, h.sizes[h.arenas[q].desc], idx);
        }
      }
    }
  }

  lemma NewBigKeeps(h: Heap, p: nat, n: nat)
    requires Inv(h) && n > 0 && Group(h.used, p, n, false)
    ensures Inv(NewBig(h, p, n))
    ensures p * PGSIZE + ARENA_SIZE !in h.live
  {
    hide Split, IsBlock, FreeSet, BlockAt, PerArena, Pages, Covered;
    var k := NewBig(h, p, n);
    NewSpan(h, k, p, k.arenas[p]);
    FreePageUncovered(h, p, n);
    NoBlocksThere(h, p);
    assert (p * PGSIZE + ARENA_SIZE) / PGSIZE == p;
    forall q | q in k.arenas ensures Split(k, q) {
      NewBigSplit(h, k, p, n, q);
    }
  }

  // ---- One block moves between its free list and its owner ----

  lemma BlockIndex(x: nat, size: nat) returns (idx: nat)
    requires size > 0 && IsBlock(x, size)
    ensures idx < PerArena(size) && x == BlockAt(x / PGSIZE, size, idx)
    ensures forall j: nat | BlockAt(x / PGSIZE, size, j) == x :: j == idx
  {
    idx :| idx < PerArena(size) && x == BlockAt(x / PGSIZE, size, idx);
    forall j: nat | BlockAt(x / PGSIZE, size, j) == x ensures j == idx {
      if j < idx { BlocksApart(size, j, idx); } else if idx < j { BlocksApart(size, idx, j); }
    }
  }

  /** Moving x on or off a free list changes the arena of x only. */
  lemma MoveElsewhere(h: Heap, k: Heap, x: nat, d: nat, q: nat)
    requires Sizes(h) && Spans(h) && Sizes(k) && Spans(k) && k.sizes == h.sizes && d < |h.sizes|
    requires x / PGSIZE in h.arenas && q in h.arenas && q != x / PGSIZE && q in k.arenas && k.arenas[q] == h.arenas[q]
    requires forall y | y != x :: y in k.live <==> y in h.live
    requires forall y, e | y != x && 0 <= e < |h.lists| :: y in k.lists[e] <==> y in h.lists[e]
    requires Split(h, q) && CountOk(h, q)
    ensures Split(k, q) && CountOk(k, q)
  {
    if h.arenas[q].Small? {
      var e := h.arenas[q].desc;
      forall idx: nat | idx < PerArena(h.sizes[e]) ensures BlockAt(q, h.sizes[e], idx) != x {
        BlockPage(q, h.sizes[e], idx);
      }
      assert FreeSet(k.lists[e], q, h.sizes[e]) == FreeSet(h.lists[e], q, h.sizes[e]);
    } else {
      SpanStart(h, q, x);
    }
  }

  lemma SpanStart(h: Heap, q: nat, x: nat)
    requires q != x / PGSIZE
    ensures q * PGSIZE + ARENA_SIZE != x
  {}

  lemma PopHere(h: Heap, k: Heap, d: nat, p: nat)
    requires Sizes(h) && Spans(h) && d < |h.sizes| && h.lists[d] != [] && NoDup(h.lists[d])
    requires BlockOf(h, h.lists[d][0], d)
    requires p == h.lists[d][0] / PGSIZE && Split(h, p) && CountOk(h, p) && k == Pop(h, d) && Spans(k)
    ensures Split(k, p) && CountOk(k, p) && h.arenas[p].freeCnt > 0
    ensures k.arenas[p].freeCnt < PerArena(h.sizes[d])
    ensures h.lists[d][0] !in h.live
  {
    var x, size := h.lists[d][0], h.sizes[d];
    var idx := BlockIndex(x, size);
    var f, g := FreeSet(h.lists[d], p, size), FreeSet(k.lists[d], p, size);
    forall j: nat | j < PerArena(size)
      ensures BlockAt(p, size, j) in k.lists[d] <==> BlockAt(p, size, j) in h.lists[d] && j != idx
    {
      if j == idx { TailLacks(h.lists[d]); }
    }
    assert g == f - {idx} && idx in f;
    SubsetOfRange(f, PerArena(size));
  }

  lemma TailLacks<T>(s: seq<T>)
    requires s != [] && NoDup(s)
    ensures s[0] !in s[1..] && NoDup(s[1..])
  {}

  lemma PopListed(h: Heap, k: Heap, d: nat)
    requires Sizes(h) && Spans(h) && Listed(h) && d < |h.sizes| && h.lists[d] != [] && BlockOf(h, h.lists[d][0], d)
    requires k == Pop(h, d)
    ensures Spans(k) && Listed(k)
  {
    hide IsBlock;
    TailLacks(h.lists[d]);
    forall e, x | 0 <= e < |k.lists| && x in k.lists[e] ensures BlockOf(k, x, e) {
      assert x in h.lists[e];
      assert BlockOf(h, x, e);
    }
  }

  lemma SameSpans(h: Heap, k: Heap)
    requires Sizes(h) && Spans(h) && Pages(h) && k.sizes == h.sizes && k.taken == h.taken && k.used == h.used
    requires k.arenas.Keys == h.arenas.Keys
    requires forall p | p in h.arenas :: Span(k.arenas[p]) == Span(h.arenas[p])
    requires forall p | p in h.arenas && k.arenas[p].Small? :: k.arenas[p].desc < |h.sizes|
    ensures Spans(k) && Pages(k)
  {
    forall q ensures Covered(k.arenas, q) <==> Covered(h.arenas, q) {}
  }

  lemma PopKeeps(h: Heap, d: nat, except: set<nat>)
    requires Consistent(h, except) && d < |h.sizes| && h.lists[d] != []
    requires except <= {h.lists[d][0] / PGSIZE}
    ensures BlockOf(h, h.lists[d][0], d)
    ensures Inv(Pop(h, d)) && h.lists[d][0] !in h.live && h.arenas[h.lists[d][0] / PGSIZE].freeCnt > 0
  {
    hide Split, CountOk, IsBlock, FreeSet, BlockAt, PerArena, Pages, Covered, NoDup;
    assert h.lists[d][0] in h.lists[d];
    var x, k := h.lists[d][0], Pop(h, d);
    var p := x / PGSIZE;
    PopListed(h, k, d);
    SameSpans(h, k);
    assert Split(h, p) && CountOk(h, p);
    PopHere(h, k, d, p);
    TailMembers(h.lists[d]);
    forall q | q in k.arenas ensures Split(k, q) && CountOk(k, q) {
      if q != p {
        assert Split(h, q) && CountOk(h, q);
        MoveElsewhere(h, k, x, d, q);
      }
    }
    forall y | y in k.live ensures InArena(k, y) {
      assert y != x ==> InArena(h, y);
    }
  }

  lemma TailMembers<T>(s: seq<T>)
    requires s != []
    ensures forall y | y != s[0] :: y in s[1..] <==> y in s
  {}

  lemma PushHere(h: Heap, k: Heap, x: nat, d: nat, p: nat)
    requires Sizes(h) && Spans(h) && d < |h.sizes| && BlockOf(h, x, d) && x in h.live
    requires p == x / PGSIZE && Split(h, p) && CountOk(h, p) && k == Push(h, x, d) && Spans(k)
    ensures Split(k, p) && CountOk(k, p) && k.arenas[p].freeCnt <= PerArena(h.sizes[d])
    ensures x !in h.lists[d]
  {
    var size := h.sizes[d];
    var idx := BlockIndex(x, size);
    var f, g := FreeSet(h.lists[d], p, size), FreeSet(k.lists[d], p, size);
    forall j: nat | j < PerArena(size)
      ensures BlockAt(p, size, j) in k.lists[d] <==> BlockAt(p, size, j) in h.lists[d] || j == idx
    {}
    assert g == f + {idx} && idx !in f;
    SubsetOfRange(g, PerArena(size));
  }

  lemma PushListed(h: Heap, k: Heap, x: nat, d: nat)
    requires Sizes(h) && Spans(h) && Listed(h) && d < |h.sizes| && BlockOf(h, x, d) && x !in h.lists[d]
    requires k == Push(h, x, d)
    ensures Listed(k)
  {
    hide IsBlock;
    forall e, y | 0 <= e < |k.lists| && y in k.lists[e] ensures BlockOf(k, y, e) {
      assert y in h.lists[e] ==> BlockOf(h, y, e);
    }
  }

  lemma PushKeeps(h: Heap, x: nat, d: nat)
    requires Inv(h) && x in h.live && d < |h.sizes| && BlockOf(h, x, d)
    ensures var k, p := Push(h, x, d), x / PGSIZE;
            Consistent(k, {p}) && k.arenas[p].freeCnt <= PerArena(h.sizes[d])
  {
    hide Split, CountOk, IsBlock, FreeSet, BlockAt, PerArena, Pages, Covered, NoDup;
    var k := Push(h, x, d);
    var p := x / PGSIZE;
    SameSpans(h, k);
    assert Split(h, p) && CountOk(h, p);
    PushHere(h, k, x, d, p);
    PushListed(h, k, x, d);
    forall q | q in k.arenas ensures Split(k, q) && CountOk(k, q) {
      if q != p {
        assert Split(h, q) && CountOk(h, q);
        MoveElsewhere(h, k, x, d, q);
      }
    }
    forall y | y in k.live ensures InArena(k, y) {
      assert InArena(h, y);
    }
  }

  // ---- An arena goes back to the page allocator ----

  lemma DropSpan(h: Heap, k: Heap, p: nat)
    requires Sizes(h) && Spans(h) && Pages(h) && p in h.arenas
    requires k.arenas == h.arenas - {p} && k.used == SetRange(h.used, p, Span(h.arenas[p]), false)
    requires k.sizes == h.sizes && k.taken == h.taken
    ensures Spans(k) && Pages(k)
    ensures Group(h.used, p, Span(h.arenas[p]), true)
  {
    var n := Span(h.arenas[p]);
    forall q | 0 <= q < |h.used| ensures Covered(h.arenas, q) <==> Covered(k.arenas, q) || p <= q < p + n {
      DropCovered(h, k, p, q);
    }
    forall q | p <= q < p + n ensures !Covered(k.arenas, q) {
      DropUncovered(h, k, p, q);
    }
  }

  lemma DropCovered(h: Heap, k: Heap, p: nat, q: nat)
    requires p in h.arenas && k.arenas == h.arenas - {p}
    ensures Covered(h.arenas, q) <==> Covered(k.arenas, q) || p <= q < p + Span(h.arenas[p])
  {
    if Covered(k.arenas, q) {
      var r :| r in k.arenas && r <= q < r + Span(k.arenas[r]);
      assert r in h.arenas;
    }
    if Covered(h.arenas, q) {
      var r :| r in h.arenas && r <= q < r + Span(h.arenas[r]);
      assert r != p ==> r in k.arenas;
    }
  }

  lemma DropUncovered(h: Heap, k: Heap, p: nat, q: nat)
    requires Spans(h) && p in h.arenas && k.arenas == h.arenas - {p} && p <= q < p + Span(h.arenas[p])
    ensures !Covered(k.arenas, q)
  {}

  /** h without the arena at p, `list` being what is left of its free list. */
  ghost function DropArena(h: Heap, p: nat, list: seq<nat>): Heap
    requires Sizes(h) && Spans(h) && p in h.arenas && h.arenas[p].Small?
  {
    h.(used := SetRange(h.used, p, 1, false), arenas := h.arenas - {p}, lists := h.lists[h.arenas[p].desc := list])
  }

  ghost function DropBig(h: Heap, p: nat): Heap
    requires Sizes(h) && Spans(h) && p in h.arenas
  {
    h.(used := SetRange(h.used, p, Span(h.arenas[p]), false), arenas := h.arenas - {p},
       live := h.live - {p * PGSIZE + ARENA_SIZE})
  }

  /** `list` is `from` without the blocks of page p. */
  ghost predicate Without(list: seq<nat>, from: seq<nat>, p: nat) {
    NoDup(list) && forall y :: y in list <==> y in from && y / PGSIZE != p
  }

  /** When every block of the arena at p is free, all of them are on the list and none is live. */
  lemma WhollyFree(h: Heap, p: nat)
    requires Consistent(h, {p}) && p in h.arenas && h.arenas[p].Small?
    requires h.arenas[p].freeCnt == PerArena(h.sizes[h.arenas[p].desc])
    ensures forall i: nat | i < PerArena(h.sizes[h.arenas[p].desc]) ::
              BlockAt(p, h.sizes[h.arenas[p].desc], i) in h.lists[h.arenas[p].desc]
    ensures forall x | x in h.live :: x / PGSIZE != p
  {
    hide Pages, Covered, NoDup, Listed, NoneFull, PerArena, BlockAt;
    var d := h.arenas[p].desc;
    var f := FreeSet(h.lists[d], p, h.sizes[d]);
    assert Split(h, p) && CountOk(h, p);
    SubsetOfRange(f, PerArena(h.sizes[d]));
    forall i: nat | i < PerArena(h.sizes[d]) ensures BlockAt(p, h.sizes[d], i) in h.lists[d] {
      assert i in f;
    }
    forall x | x in h.live ensures x / PGSIZE != p {
      assert InArena(h, x);
      if x / PGSIZE == p {
        var idx := BlockIndex(x, h.sizes[d]);
      }
    }
  }

  lemma DropSplit(h: Heap, k: Heap, p: nat, list: seq<nat>, q: nat)
    requires Sizes(h) && Spans(h) && p in h.arenas && h.arenas[p].Small?
    requires Without(list, h.lists[h.arenas[p].desc], p) && k == DropArena(h, p, list) && Spans(k)
    requires q in k.arenas && Split(h, q) && CountOk(h, q)
    ensures Split(k, q) && CountOk(k, q)
  {
    hide NoDup;
    if h.arenas[q].Small? {
      var e := h.arenas[q].desc;
      forall idx: nat | idx < PerArena(h.sizes[e])
        ensures BlockAt(q, h.sizes[e], idx) in k.lists[e] <==> BlockAt(q, h.sizes[e], idx) in h.lists[e]
      {
        BlockPage(q, h.sizes[e], idx);
      }
      assert FreeSet(k.lists[e], q, h.sizes[e]) == FreeSet(h.lists[e], q, h.sizes[e]);
    }
  }

  lemma DropListed(h: Heap, k: Heap, p: nat, list: seq<nat>)
    requires Sizes(h) && Spans(h) && Listed(h) && p in h.arenas && h.arenas[p].Small?
    requires Without(list, h.lists[h.arenas[p].desc], p) && k == DropArena(h, p, list)
    ensures Listed(k)
  {
    hide IsBlock, NoDup;
    forall e, x | 0 <= e < |k.lists| && x in k.lists[e] ensures BlockOf(k, x, e) {
      assert BlockOf(h, x, e);
    }
    forall e | 0 <= e < |k.lists| ensures NoDup(k.lists[e]) {}
  }

  lemma DropArenaKeeps(h: Heap, p: nat, list: seq<nat>)
    requires Consistent(h, {p}) && p in h.arenas && h.arenas[p].Small?
    requires h.arenas[p].freeCnt == PerArena(h.sizes[h.arenas[p].desc])
    requires Without(list, h.lists[h.arenas[p].desc], p)
    ensures Inv(DropArena(h, p, list)) && Group(h.used, p, 1, true)
  {
    hide Split, CountOk, IsBlock, FreeSet, BlockAt, PerArena, Pages, Covered, NoDup, Without;
    var k := DropArena(h, p, list);
    DropSpan(h, k, p);
    WhollyFree(h, p);
    DropListed(h, k, p, list);
    forall q | q in k.arenas ensures Split(k, q) && CountOk(k, q) {
      assert Split(h, q) && CountOk(h, q);
      DropSplit(h, k, p, list, q);
    }
    forall y | y in k.live ensures InArena(k, y) {
      assert InArena(h, y);
    }
  }

  lemma DropBigSplit(h: Heap, k: Heap, p: nat, q: nat)
    requires Sizes(h) && Spans(h) && p in h.arenas && h.arenas[p].Big? && k == DropBig(h, p) && Spans(k)
    requires q in k.arenas && Split(h, q) && CountOk(h, q)
    ensures Split(k, q) && CountOk(k, q)
  {
    if h.arenas[q].Small? {
      var e := h.arenas[q].desc;
      forall idx: nat | idx < PerArena(h.sizes[e]) ensures BlockAt(q, h.sizes[e], idx) != p * PGSIZE + ARENA_SIZE {
        BlockPage(q, h.sizes[e], idx);
      }
    }
  }

  lemma DropBigKeeps(h: Heap, p: nat)
    requires Inv(h) && p in h.arenas && h.arenas[p].Big?
    ensures Inv(DropBig(h, p)) && Group(h.used, p, h.arenas[p].pages, true)
  {
    hide Split, CountOk, IsBlock, FreeSet, BlockAt, PerArena, Pages, Covered, NoDup;
    var k := DropBig(h, p);
    DropSpan(h, k, p);
    forall q | q in k.arenas ensures Split(k, q) && CountOk(k, q) {
      assert Split(h, q) && CountOk(h, q);
      DropBigSplit(h, k, p, q);
    }
    forall y | y in k.live ensures InArena(k, y) {
      assert InArena(h, y);
    }
    forall e, x | 0 <= e < |k.lists| && x in k.lists[e] ensures BlockOf(k, x, e) {
      assert BlockOf(h, x, e);
    }
  }
}

/** The kernel's malloc, realloc and free (src/threads/malloc.c) on top of its page allocator
    (src/threads/palloc.c). The headers of arenas and the links of free blocks are kept in
    `arenas` and `lists` rather than in `memory`: Apart and InsideArena show that no block
    overlaps them. */
module Malloc {
  import opened Arenas
  import opened Bitmaps
  import opened Bytes
  import opened Division64
  import opened Lists
  import opened Options

  /** memset and memcpy. */
  function Fill(m: seq<byte>, at: nat, n: nat, v: byte): (r: seq<byte>)
    requires at + n <= |m|
    ensures |r| == |m| && forall k | 0 <= k < |m| :: r[k] == if at <= k < at + n then v else m[k]
  {
    m[..at] + seq(n, _ => v) + m[at + n..]
  }

  /** A freed block is overwritten. */
  ghost predicate Scrubbed(m: seq<byte>, at: nat, n: nat) {
    at + n <= |m| && forall k | at <= k < at + n :: m[k] == 0xcc
  }

  function Copy(m: seq<byte>, to: nat, from: nat, n: nat): (r: seq<byte>)
    requires to + n <= |m| && from + n <= |m|
    ensures |r| == |m| && forall k | 0 <= k < |m| :: r[k] == if to <= k < to + n then m[from + (k - to)] else m[k]
  {
    var r := Patched(m, to, m[from..from + n]);
    assert forall k | to <= k < to + n :: r[k] == r[to..to + n][k - to];
    r
  }

  /** DIV_ROUND_UP(size + sizeof *a, PGSIZE) in 32-bit unsigned arithmetic. */
  function PagesFor(size: nat): nat { (size + ARENA_SIZE + PGSIZE - 1) % B32 / PGSIZE }

  /** The smallest request whose rounding wraps round to one page. */
  const TOO_BIG: nat := 0xFFFF_FFF5

  /** A request above every descriptor gets enough pages and no page more than it needs, no
      pages, or, from TOO_BIG on, one. */
  lemma PagesForEnough(size: nat)
    requires 0 < size < B32
    ensures PagesFor(size) > 0 ==> (size <= PagesFor(size) * PGSIZE - ARENA_SIZE <==> size < TOO_BIG)
    ensures size >= TOO_BIG ==> PagesFor(size) == 1
    ensures PagesFor(size) == 0 <==> 0xFFFF_EFF5 <= size < TOO_BIG
    ensures size < 0xFFFF_EFF5 ==> (PagesFor(size) - 1) * PGSIZE < size + ARENA_SIZE
  {}

  /** So malloc (SIZE_MAX) may return a block of 4084 bytes. */
  lemma LargestRequestGetsOnePage()
    ensures PagesFor(0xFFFF_FFFF) == 1
  {}

  // ---- calloc's test ----

  /** The product as calloc computes it, and the test by which it gives up. */
  function Product(a: nat, b: nat): nat { a * b % B32 }

  predicate Refuses(a: nat, b: nat) { Product(a, b) < a || Product(a, b) < b }

  /** What the test refuses has wrapped; a product that has wrapped goes undetected if and only
      if what is left of it is at least as large as both factors. */
  lemma RefusedHasWrapped(a: nat, b: nat)
    requires 0 < a < B32 && 0 < b < B32
    ensures Refuses(a, b) ==> a * b >= B32
    ensures a * b >= B32 ==> (!Refuses(a, b) <==> a * b % B32 >= a && a * b % B32 >= b)
  {
    MulMono(1, b, a);
    MulMono(1, a, b);
    if a * b < B32 {
      SmallRemainder(a * b, B32);
    }
  }

  lemma SmallRemainder(x: nat, d: nat)
    requires x < d
    ensures x % d == x
  {}

  /** calloc (65537, 65537) asks for 131073 bytes. */
  lemma WrapUndetected()
    ensures 0x10001 * 0x10001 >= B32 && !Refuses(0x10001, 0x10001) && Product(0x10001, 0x10001) == 0x20001
  {
    assert 0x10001 * 0x10001 == 0x1_0002_0001;
  }

  lemma FillKeeps(m: seq<byte>, at: nat, n: nat, v: byte, y: nat, c: nat)
    requires at + n <= |m| && y + c <= |m| && (y + c <= at || at + n <= y)
    ensures Fill(m, at, n, v)[y..y + c] == m[y..y + c]
  {}

  /** The list l0 without blocks 0 .. i of page p. */
  ghost predicate Removed(l: seq<nat>, l0: seq<nat>, p: nat, size: nat, i: nat) {
    NoDup(l) && forall y :: y in l <==> y in l0 && forall j: nat | j < i :: y != BlockAt(p, size, j)
  }

  lemma RemovedNext(l: seq<nat>, l0: seq<nat>, p: nat, size: nat, i: nat)
    requires Removed(l, l0, p, size, i)
    ensures Removed(Remove(l, BlockAt(p, size, i)), l0, p, size, i + 1)
  {
    hide NoDup, BlockAt;
  }

  /** s without the elements of `drop`, and without those on page p, in order. */
  function Sans(s: seq<nat>, drop: set<nat>): seq<nat> {
    if s == [] then [] else if s[0] in drop then Sans(s[1..], drop) else [s[0]] + Sans(s[1..], drop)
  }

  function OffPage(s: seq<nat>, p: nat): seq<nat> {
    if s == [] then [] else if s[0] / PGSIZE == p then OffPage(s[1..], p) else [s[0]] + OffPage(s[1..], p)
  }

  lemma {:induction false} SansAbsent(s: seq<nat>, drop: set<nat>, x: nat)
    requires x !in s
    ensures Sans(s, drop + {x}) == Sans(s, drop)
  {
    if s != [] {
      SansAbsent(s[1..], drop, x);
    }
  }

  lemma RemoveHead(y: nat, rest: seq<nat>, x: nat)
    ensures Remove([y] + rest, x) == if y == x then rest else [y] + Remove(rest, x)
  {
    hide NoDup;
    assert ([y] + rest)[1..] == rest;
  }

  lemma NoDupTail(s: seq<nat>)
    requires s != [] && NoDup(s)
    ensures NoDup(s[1..]) && s[0] !in s[1..]
  {}

  lemma {:induction false} RemoveSans(s: seq<nat>, drop: set<nat>, x: nat)
    requires NoDup(s)
    ensures Remove(Sans(s, drop), x) == Sans(s, drop + {x})
  {
    hide NoDup, Remove;
    if s == [] {
      RemoveNothing(x);
    } else {
      NoDupTail(s);
      RemoveSans(s[1..], drop, x);
      if s[0] !in drop {
        RemoveHead(s[0], Sans(s[1..], drop), x);
        if s[0] == x {
          SansAbsent(s[1..], drop, x);
        }
      }
    }
  }

  lemma RemoveNothing(x: nat)
    ensures Remove([], x) == []
  {}

  lemma {:induction false} SansNothing(s: seq<nat>)
    ensures Sans(s, {}) == s
  {
    if s != [] {
      SansNothing(s[1..]);
    }
  }

  lemma {:induction false} SansPage(s: seq<nat>, drop: set<nat>, p: nat)
    requires forall y | y in s :: y in drop <==> y / PGSIZE == p
    ensures Sans(s, drop) == OffPage(s, p)
  {
    if s != [] {
      SansPage(s[1..], drop, p);
    }
  }

  /** With every block of the arena gone nothing of its page is left. */
  lemma SansArena(h: Heap, p: nat, d: nat, gone: set<nat>)
    requires Sizes(h) && d < |h.sizes| && Listed(h)
    requires forall j: nat | j < PerArena(h.sizes[d]) :: BlockAt(p, h.sizes[d], j) in gone
    requires forall y | y in gone :: y / PGSIZE == p
    ensures Sans(h.lists[d], gone) == OffPage(h.lists[d], p)
  {
    forall y | y in h.lists[d] && y / PGSIZE == p ensures y in gone {
      assert BlockOf(h, y, d);
      var idx := BlockIndex(y, h.sizes[d]);
    }
    SansPage(h.lists[d], gone, p);
  }

  lemma ListNoDup(h: Heap, d: nat)
    requires Sizes(h) && d < |h.sizes| && Listed(h)
    ensures NoDup(h.lists[d])
  {}

  lemma RemovedAll(h: Heap, l: seq<nat>, p: nat, d: nat)
    requires Sizes(h) && d < |h.sizes| && Listed(h) && Removed(l, h.lists[d], p, h.sizes[d], PerArena(h.sizes[d]))
    ensures Without(l, h.lists[d], p)
  {
    var size := h.sizes[d];
    forall y | y in h.lists[d] && y / PGSIZE == p ensures y !in l {
      assert BlockOf(h, y, d);
      var idx := BlockIndex(y, size);
    }
    forall y | y in h.lists[d] && y / PGSIZE != p ensures y in l {
      forall j: nat | j < PerArena(size) ensures y != BlockAt(p, size, j) {
        BlockPage(p, size, j);
      }
    }
  }

  /** Blocks other than those of a changed arena hold what they held. */
  lemma SameCapacity(h: Heap, k: Heap, x: nat)
    requires Sizes(h) && Spans(h) && InArena(h, x) && Sizes(k) && Spans(k) && k.sizes == h.sizes
    requires x / PGSIZE in k.arenas
    requires var a, b := h.arenas[x / PGSIZE], k.arenas[x / PGSIZE];
             a == b || (a.Small? && b.Small? && a.desc == b.desc)
    ensures InArena(k, x) && Capacity(k, x) == Capacity(h, x)
  {}

  // ---- When a request can be served, and by how large a block ----

  /** d is the smallest descriptor whose blocks hold `size` bytes. */
  ghost predicate DescFor(sizes: seq<nat>, size: nat, d: nat) {
    d < |sizes| && size <= sizes[d] && forall e | 0 <= e < d :: sizes[e] < size
  }

  /** malloc (size) fails: nothing is asked for, or pages in a row are missing, or the descriptor's
      free list is empty and so is the pool. */
  ghost predicate Denied(h: Heap, size: nat) {
    || size == 0
    || (size > 1024 && NoRoom(h.used, PagesFor(size)))
    || exists d: nat :: d < |h.lists| && DescFor(h.sizes, size, d) && h.lists[d] == [] && NoRoom(h.used, 1)
  }

  /** The block it gives holds c bytes: the descriptor's block size, or whole pages but the header. */
  ghost predicate BlockFor(h: Heap, size: nat, c: int) {
    if size > 1024 then c == PagesFor(size) * PGSIZE - ARENA_SIZE
    else exists d: nat :: DescFor(h.sizes, size, d) && c == h.sizes[d]
  }

  /** Block x is at the start of the first n free pages in a row, which are now marked. */
  ghost predicate TakesPages(before: seq<bool>, used: seq<bool>, x: nat, n: nat) {
    var p := x / PGSIZE;
    && x == p * PGSIZE + ARENA_SIZE && FirstGroup(before, 0, n, false) == Some(p) && p + n <= |before|
    && used == SetRange(before, p, n, true)
  }

  lemma TakesFirst(before: seq<bool>, p: nat, n: nat)
    requires FirstGroup(before, 0, n, false) == Some(p)
    ensures p + n <= |before| && TakesPages(before, SetRange(before, p, n, true), p * PGSIZE + ARENA_SIZE, n)
  {
    assert (p * PGSIZE + ARENA_SIZE) / PGSIZE == p;
  }

  /** A block of descriptor d is handed out: the first of the free list or, when that is empty, of
      a new arena in the first free page. */
  ghost predicate TakesBlock(h: Heap, k: Heap, x: nat, d: nat) {
    && Sizes(h) && d < |h.sizes| && |h.lists| == |h.sizes|
    && if h.lists[d] != [] then x == h.lists[d][0] && BlockOf(h, x, d) && k == Pop(h, d)
       else
         && FirstGroup(h.used, 0, 1, false) == Some(x / PGSIZE) && x / PGSIZE < |h.used|
         && var n := NewArena(h, d, x / PGSIZE);
            Sizes(n) && n.lists[d] != [] && x == n.lists[d][0] && BlockOf(n, x, d) && k == Pop(n, d)
  }

  /** Block x is freed: the pages of a big one are free again; a small one goes to the front of its
      free list, or all of its arena off that list and the arena's page back to the pool. */
  ghost predicate GivesBack(h: Heap, k: Heap, x: nat) {
    var p := x / PGSIZE;
    && Sizes(h) && p in h.arenas && |k.lists| == |h.lists| == |h.sizes|
    && match h.arenas[p]
       case Big(n) =>
         && p + n <= |h.used| && k.used == SetRange(h.used, p, n, false)
         && k.arenas == h.arenas - {p} && k.lists == h.lists
       case Small(d, c) =>
         d < |h.lists| && p < |h.used| &&
         if c + 1 < PerArena(h.sizes[d]) then
           k.used == h.used && k.arenas == h.arenas[p := Small(d, c + 1)] && k.lists == h.lists[d := [x] + h.lists[d]]
         else
           && k.used == SetRange(h.used, p, 1, false) && k.arenas == h.arenas - {p}
           && k.lists == h.lists[d := OffPage(h.lists[d], p)]
  }

  lemma BlocksInOrder(p: nat, size: nat, n: nat)
    ensures |Blocks(p, size, n)| == n
    ensures forall i | 0 <= i < n :: Blocks(p, size, n)[i] == p * PGSIZE + ARENA_SIZE + i * size
  {}

  lemma OneDesc(sizes: seq<nat>, size: nat, d: nat, e: nat)
    requires DescFor(sizes, size, d) && DescFor(sizes, size, e)
    ensures d == e
  {}

  lemma SmallDenied(h: Heap, size: nat, d: nat)
    requires |h.lists| == |h.sizes| && 0 < size <= 1024 && DescFor(h.sizes, size, d)
    ensures Denied(h, size) <==> h.lists[d] == [] && NoRoom(h.used, 1)
    ensures BlockFor(h, size, h.sizes[d])
  {
    hide NoRoom, DescFor;
    DescBound(h.sizes, size, d);
    if Denied(h, size) {
      var e: nat :| e < |h.lists| && DescFor(h.sizes, size, e) && h.lists[e] == [] && NoRoom(h.used, 1);
      OneDesc(h.sizes, size, d, e);
    }
  }

  lemma DescBound(sizes: seq<nat>, size: nat, d: nat)
    requires DescFor(sizes, size, d)
    ensures d < |sizes| && size <= sizes[d]
  {}

  lemma BigDenied(h: Heap, size: nat)
    requires size > 1024 && forall d | 0 <= d < |h.sizes| :: h.sizes[d] <= 1024
    ensures Denied(h, size) <==> NoRoom(h.used, PagesFor(size))
  {
    hide NoRoom;
  }

  class Allocator {
    var used: seq<bool>
    var arenas: map<nat, Arena>
    var sizes: seq<nat>
    var lists: seq<seq<nat>>
    var memory: seq<byte>
    ghost var taken: seq<bool>
    ghost var live: set<nat>

    ghost function State(): Heap
      reads this
    {
      Heap(taken, sizes, used, arenas, lists, live)
    }

    ghost predicate Valid()
      reads this
    {
      && Inv(State())
      && |memory| == |used| * PGSIZE < B32
      && |sizes| == 7 && (forall d | 0 <= d < 7 :: sizes[d] == 16 * Pow2(d))
    }

    /** malloc_init, over a pool some of whose pages others already have. */
    constructor (pool: seq<bool>, bytes: seq<byte>)
      requires |bytes| == |pool| * PGSIZE < B32
      ensures Valid() && live == {} && used == taken == pool && memory == bytes
    {
      used, taken, memory := pool, pool, bytes;
      arenas, live := map[], {};
      var ss: seq<nat> := [];
      var ll: seq<seq<nat>> := [];
      var size := 16;
      Powers();
      while size < PGSIZE / 2
        invariant |ss| == |ll| <= 7 && size == 16 * Pow2(|ss|)
        invariant forall d | 0 <= d < |ss| :: ss[d] == 16 * Pow2(d) && ss[d] <= 1024 && ll[d] == []
        decreases 7 - |ss|
      {
        ss, ll := ss + [size], ll + [[]];
        size := size * 2;
      }
      sizes, lists := ss, ll;
    }

    /** palloc_get_multiple (0, n). */
    method GetPages(n: nat) returns (r: Option<nat>)
      modifies `used
      ensures n == 0 ==> r.None?
      ensures n > 0 ==> r == FirstGroup(old(used), 0, n, false)
      ensures r.Some? ==> used == SetRange(old(used), r.value, n, true)
      ensures r.None? ==> used == old(used)
    {
      if n == 0 {
        return None;
      }
      r := FirstGroup(used, 0, n, false);
      if r.Some? {
        used := SetRange(used, r.value, n, true);
      }
    }

    /** palloc_free_multiple, its assertion being the precondition. */
    method FreePages(p: nat, n: nat)
      requires Group(used, p, n, true) && |memory| == |used| * PGSIZE
      modifies `used, `memory
      ensures used == SetRange(old(used), p, n, false)
      ensures memory == Fill(old(memory), p * PGSIZE, n * PGSIZE, 0xcc)
    {
      memory := Fill(memory, p * PGSIZE, n * PGSIZE, 0xcc);
      used := SetRange(used, p, n, false);
    }

    /** The smallest descriptor that satisfies a request, or 7. */
    method FindDesc(size: nat) returns (d: nat)
      requires |sizes| == 7
      ensures d <= 7 && (forall e | 0 <= e < d :: sizes[e] < size) && (d < 7 ==> size <= sizes[d])
    {
      d := 0;
      while d < |sizes|
        invariant d <= 7 && forall e | 0 <= e < d :: sizes[e] < size
      {
        if sizes[d] >= size {
          break;
        }
        d := d + 1;
      }
    }

    /** malloc. */
    method Allocate(size: nat) returns (r: Option<nat>)
      requires Valid() && size < B32
      modifies `used, `arenas, `lists, `live
      ensures Valid()
      ensures r.None? ==> State() == old(State())
      ensures r.Some? ==> r.value !in old(live) && live == old(live) + {r.value}
      ensures r.Some? ==> InArena(State(), r.value) && (size <= Capacity(State(), r.value) <==> size < TOO_BIG)
      ensures r.Some? && size >= TOO_BIG ==> Capacity(State(), r.value) == PGSIZE - ARENA_SIZE
      ensures AllKept(old(State()), old(memory), State(), memory, old(live))
      ensures r.None? <==> Denied(old(State()), size)
      ensures r.Some? ==> sizes == old(sizes) && BlockFor(old(State()), size, Capacity(State(), r.value))
      ensures r.Some? && size > 1024 ==> TakesPages(old(used), used, r.value, PagesFor(size))
      ensures r.Some? && size <= 1024 ==>
                exists d: nat :: d < |old(lists)| && DescFor(sizes, size, d)
                                 && TakesBlock(old(State()), State(), r.value, d)
                                 && (old(lists)[d] == [] ==> TakesPages(old(used), used, r.value, 1))
    {
      hide Inv, InArena, Capacity, NoRoom, Sizes, Spans, AllKept, Denied, BlockFor, Pow2, TakesPages, TakesBlock;
      ghost var h := State();
      HeapFacts(h);
      if size == 0 {
        SameMemory(h, h, memory, live);
        NothingAsked(h);
        return None;
      }
      Powers();
      var d := FindDesc(size);
      PagesForEnough(size);
      if d == |sizes| {
        BigDenied(h, size);
        r := AllocateBig(size);
        PagesFit(h, size);
      } else {
        SmallDenied(h, size, d);
        r := AllocateSmall(d);
      }
      HeapFacts(State());
      SameMemory(h, State(), memory, h.live);
    }

    method AllocateBig(size: nat) returns (r: Option<nat>)
      requires Valid() && 0 < size < B32
      modifies `used, `arenas, `live
      ensures Valid()
      ensures r.None? ==> State() == old(State())
      ensures r.Some? ==> r.value !in old(live) && live == old(live) + {r.value}
      ensures r.Some? ==>
                InArena(State(), r.value) && Capacity(State(), r.value) == PagesFor(size) * PGSIZE - ARENA_SIZE
      ensures r.Some? ==> PagesFor(size) > 0 && TakesPages(old(used), used, r.value, PagesFor(size))
      ensures forall x | x in old(live) :: InArena(State(), x) && Capacity(State(), x) == old(Capacity(State(), x))
      ensures r.None? <==> NoRoom(old(used), PagesFor(size))
    {
      hide Inv, Group, FirstGroup, SetRange, Pow2, NoRoom, TakesPages;
      ghost var h := State();
      HeapFacts(h);
      var n := PagesFor(size);
      var p := GetPages(n);
      NoGroup(h.used, n);
      if p.None? {
        return None;
      }
      GroupFound(h.used, n);
      NewBigKeeps(h, p.value, n);
      arenas := arenas[p.value := Big(n)];
      r := Some(p.value * PGSIZE + ARENA_SIZE);
      live := live + {r.value};
      assert State() == NewBig(h, p.value, n);
      BigMeans(h, p.value, n);
      TakesFirst(h.used, p.value, n);
    }

    /** Opens a new arena for descriptor d, whose free list is empty. */
    method OpenArena(d: nat) returns (p: Option<nat>)
      requires Valid() && d < 7 && lists[d] == []
      modifies `used, `arenas, `lists
      ensures p.None? ==> State() == old(State())
      ensures p.None? <==> NoRoom(old(used), 1)
      ensures p.Some? ==> p.value < |old(used)| && Group(old(used), p.value, 1, false) && Sizes(old(State()))
      ensures p.Some? ==> State() == NewArena(old(State()), d, p.value) && p == FirstGroup(old(used), 0, 1, false)
      ensures p.Some? ==>
                |lists| == 7 && |lists[d]| == PerArena(sizes[d]) && forall i | 0 <= i < |lists[d]| ::
                  lists[d][i] == p.value * PGSIZE + ARENA_SIZE + i * sizes[d]
    {
      hide Inv, Pow2, PerArena, BlockAt, NoRoom;
      HeapFacts(State());
      ghost var h := State();
      p := GetPages(1);
      NoGroup(h.used, 1);
      if p.None? {
        return;
      }
      var a := p.value;
      GroupFound(h.used, 1);
      arenas := arenas[a := Small(d, PerArena(sizes[d]))];
      var i := 0;
      while i < PerArena(sizes[d])
        invariant used == SetRange(h.used, a, 1, true) && arenas == h.arenas[a := Small(d, PerArena(sizes[d]))]
        invariant i <= PerArena(sizes[d]) && |lists| == 7 && lists == h.lists[d := Blocks(a, sizes[d], i)]
      {
        lists := lists[d := lists[d] + [BlockAt(a, sizes[d], i)]];
        assert lists[d] == Blocks(a, sizes[d], i + 1);
        i := i + 1;
      }
      BlocksInOrder(a, sizes[d], PerArena(sizes[d]));
    }

    /** Takes the first block of free list d. */
    method TakeFirst(d: nat, ghost except: set<nat>) returns (x: nat)
      requires Consistent(State(), except) && d < |sizes| && lists[d] != [] && except <= {lists[d][0] / PGSIZE}
      modifies `arenas, `lists, `live
      ensures x == old(lists[d][0]) && Inv(State()) && x !in old(live) && BlockOf(old(State()), x, d)
      ensures State() == Pop(old(State()), d)
    {
      hide Consistent, Inv, PerArena, BlockAt;
      ghost var h := State();
      HeapParts(h, except);
      PopKeeps(h, d, except);
      x := lists[d][0];
      lists := lists[d := lists[d][1..]];
      var a := arenas[x / PGSIZE];
      arenas := arenas[x / PGSIZE := a.(freeCnt := a.freeCnt - 1)];
      live := live + {x};
    }

    method AllocateSmall(d: nat) returns (r: Option<nat>)
      requires Valid() && d < 7
      modifies `used, `arenas, `lists, `live
      ensures Valid()
      ensures r.None? ==> State() == old(State())
      ensures r.Some? ==> r.value !in old(live) && live == old(live) + {r.value}
      ensures r.Some? ==> InArena(State(), r.value) && Capacity(State(), r.value) == sizes[d]
      ensures forall x | x in old(live) :: InArena(State(), x) && Capacity(State(), x) == old(Capacity(State(), x))
      ensures r.None? <==> old(lists)[d] == [] && NoRoom(old(used), 1)
      ensures r.Some? ==> TakesBlock(old(State()), State(), r.value, d)
      ensures r.Some? && old(lists)[d] == [] ==> TakesPages(old(used), used, r.value, 1)
    {
      hide Inv, Consistent, Pow2, NoRoom, NewArena, Pop, InArena, Capacity, Spans, BlockOf, Group;
      ghost var h := State();
      HeapFacts(h);
      ghost var except := {};
      if lists[d] == [] {
        var p := OpenArena(d);
        if p.None? {
          return None;
        }
        NewArenaKeeps(h, d, p.value);
        HeapParts(NewArena(h, d, p.value), {p.value});
        NewArenaMeans(h, d, p.value);
        except := {p.value};
      }
      ghost var k := State();
      HeapParts(k, except);
      var x := TakeFirst(d, except);
      HeapFacts(State());
      PopMeans(k, d);
      IsTaken(h, k, x, d);
      r := Some(x);
    }

    /** The first half of free: the block is cleared and put back on its list. */
    method PutBack(x: nat)
      requires Valid() && x in live && arenas[x / PGSIZE].Small?
      modifies `memory, `arenas, `lists, `live
      ensures var p := x / PGSIZE; Consistent(State(), {p}) && p in arenas && arenas[p].Small?
                                   && arenas[p].freeCnt <= PerArena(sizes[arenas[p].desc])
      ensures live == old(live) - {x}
      ensures var p := x / PGSIZE; p in old(arenas) && old(arenas)[p].Small? && |old(lists)| == |sizes|
                                   && old(arenas)[p].desc < |old(lists)| && p < |used|
      ensures var p, d := x / PGSIZE, old(arenas)[x / PGSIZE].desc;
              lists == old(lists)[d := [x] + old(lists)[d]]
              && arenas == old(arenas)[p := Small(d, old(arenas)[p].freeCnt + 1)]
      ensures AllKept(old(State()), old(memory), State(), memory, live)
      ensures InArena(old(State()), x) && Scrubbed(memory, x, Capacity(old(State()), x))
    {
      hide Inv, Consistent, IsBlock, PerArena, InArena, Capacity, Pow2;
      ghost var h, m := State(), memory;
      HeapFacts(h);
      var p := x / PGSIZE;
      SmallBlock(h, x);
      var a := arenas[p];
      var d := a.desc;
      InsideArena(h, x);
      memory := Fill(memory, x, sizes[d], 0xcc);
      lists := lists[d := [x] + lists[d]];
      arenas := arenas[p := a.(freeCnt := a.freeCnt + 1)];
      live := live - {x};
      assert State() == Push(h, x, d);
      PushKeeps(h, x, d);
      HeapParts(State(), {p});
      forall y | y in live ensures Kept(h, m, State(), memory, y) {
        PushMeans(h, x, d, m, y);
      }
    }

    /** The second half: an arena without live blocks goes back to the page allocator. */
    method CloseArena(p: nat)
      requires Consistent(State(), {p}) && p in arenas && arenas[p].Small? && |memory| == |used| * PGSIZE
      requires arenas[p].freeCnt == PerArena(sizes[arenas[p].desc])
      modifies `used, `memory, `arenas, `lists
      ensures Inv(State()) && |used| == old(|used|)
      ensures AllKept(old(State()), old(memory), State(), memory, live)
      ensures |memory| == |old(memory)| && forall k | 0 <= k < |memory| ::
                memory[k] == if p * PGSIZE <= k < (p + 1) * PGSIZE then 0xcc else old(memory)[k]
      ensures p < |old(used)| && used == SetRange(old(used), p, 1, false) && arenas == old(arenas) - {p}
      ensures |lists| == |old(lists)| && old(arenas)[p].desc < |lists|
      ensures var d := old(arenas)[p].desc;
              lists == old(lists)[d := OffPage(old(lists)[d], p)]
    {
      hide Inv, Consistent, IsBlock, PerArena, InArena, Capacity, Removed, Without, Remove, BlockAt;
      ghost var h, m := State(), memory;
      HeapParts(h, {p});
      var d := arenas[p].desc;
      var i := 0;
      NothingRemoved(lists[d], p, sizes[d]);
      WhollyFree(h, p);
      ghost var gone: set<nat> := {};
      SansNothing(lists[d]);
      ListNoDup(h, d);
      while i < PerArena(sizes[d])
        invariant i <= PerArena(sizes[d]) && used == h.used && memory == m && arenas == h.arenas
        invariant |lists| == |sizes| && lists == h.lists[d := lists[d]] && Removed(lists[d], h.lists[d], p, sizes[d], i)
        invariant lists[d] == Sans(h.lists[d], gone) && (forall y | y in gone :: y / PGSIZE == p)
        invariant forall j: nat | j < i :: BlockAt(p, sizes[d], j) in gone
      {
        RemovedNext(lists[d], h.lists[d], p, sizes[d], i);
        RemoveSans(h.lists[d], gone, BlockAt(p, sizes[d], i));
        BlockPage(p, sizes[d], i);
        gone := gone + {BlockAt(p, sizes[d], i)};
        lists := lists[d := Remove(lists[d], BlockAt(p, sizes[d], i))];
        i := i + 1;
      }
      RemovedAll(h, lists[d], p, d);
      SansArena(h, p, d, gone);
      DropArenaKeeps(h, p, lists[d]);
      FreePages(p, 1);
      arenas := arenas - {p};
      assert State() == DropArena(h, p, lists[d]);
      HeapFacts(State());
      forall y | y in live ensures Kept(h, m, State(), memory, y) {
        DropMeans(h, State(), p, m, y);
      }
    }

    method FreeBig(x: nat)
      requires Valid() && x in live && arenas[x / PGSIZE].Big?
      modifies `used, `memory, `arenas, `live
      ensures Inv(State()) && |used| == old(|used|) && live == old(live) - {x} && GivesBack(old(State()), State(), x)
      ensures AllKept(old(State()), old(memory), State(), memory, live)
      ensures InArena(old(State()), x) && Scrubbed(memory, x, Capacity(old(State()), x))
    {
      hide Inv, Consistent, IsBlock, PerArena, InArena, Capacity, Pow2;
      ghost var h, m := State(), memory;
      HeapFacts(h);
      var p := x / PGSIZE;
      BigBlock(h, x);
      InsideArena(h, x);
      DropBigKeeps(h, p);
      FreePages(p, arenas[p].pages);
      arenas := arenas - {p};
      live := live - {x};
      assert State() == DropBig(h, p);
      HeapFacts(State());
      forall y | y in live ensures Kept(h, m, State(), memory, y) {
        OtherPage(h, x, y);
        DropMeans(h, State(), p, m, y);
      }
    }

    /** free. */
    method Free(block: Option<nat>)
      requires Valid() && (block.Some? ==> block.value in live)
      modifies `used, `memory, `arenas, `lists, `live
      ensures Valid() && live == (if block.Some? then old(live) - {block.value} else old(live))
      ensures AllKept(old(State()), old(memory), State(), memory, live)
      ensures block.Some? ==>
                InArena(old(State()), block.value) && Scrubbed(memory, block.value, Capacity(old(State()), block.value))
      ensures block.Some? ==> GivesBack(old(State()), State(), block.value)
      ensures block.None? ==> State() == old(State()) && memory == old(memory)
    {
      hide Inv, Consistent, InArena, Capacity, Pow2, Sizes, Spans, PerArena, Without;
      ghost var h, m := State(), memory;
      HeapFacts(h);
      if block.Some? {
        var x := block.value;
        var p := x / PGSIZE;
        OwnArena(h, x);
        if arenas[p].Big? {
          FreeBig(x);
        } else {
          PutBack(x);
          ghost var k, n := State(), memory;
          HeapParts(k, {p});
          if arenas[p].freeCnt >= PerArena(sizes[arenas[p].desc]) {
            CloseArena(p);
            OffPageFirst(h.lists[k.arenas[p].desc], x);
            KeptTwice(h, m, k, n, State(), memory, live);
          } else {
            NoLonger(k, p);
          }
        }
        HeapFacts(State());
      } else {
        SameMemory(h, h, m, live);
      }
    }

    /** block_size. */
    method BlockSize(x: nat) returns (n: nat)
      requires Valid() && x in live
      ensures InArena(State(), x) && n == Capacity(State(), x)
    {
      hide IsBlock, Consistent;
      HeapFacts(State());
      var a := arenas[x / PGSIZE];
      n := if a.Small? then sizes[a.desc] else PGSIZE * a.pages - x % PGSIZE;
    }

    /** The memcpy of realloc, from one live block into another; false says that it would run
        past the end of the new block. */
    method CopyInto(to: nat, from: nat, newSize: nat) returns (ok: bool)
      requires Valid() && to in live && from in live && to != from
      modifies `memory
      ensures Valid() && ok == (newSize <= Capacity(State(), to) || Capacity(State(), from) <= Capacity(State(), to))
      ensures !ok ==> memory == old(memory)
      ensures ok ==>
                var c := Capacity(State(), from);
                var n := if newSize < c then newSize else c;
                n <= Capacity(State(), to) && to + n <= |memory| && from + n <= |memory| == |old(memory)|
                && memory[to..to + n] == old(memory)[from..from + n]
      ensures ok ==> AllKept(old(State()), old(memory), State(), memory, live - {to})
    {
      hide Inv, Consistent, InArena, Capacity, Pow2, Sizes, Spans, Copy;
      HeapFacts(State());
      ghost var h, m := State(), memory;
      var oldSize := BlockSize(from);
      var n := if newSize < oldSize then newSize else oldSize;
      var room := BlockSize(to);
      if n > room {
        return false;
      }
      InsideArena(h, to);
      InsideArena(h, from);
      memory := Copy(memory, to, from, n);
      CopiedPrefix(m, to, from, n);
      forall y | y in live - {to} ensures Kept(h, m, h, memory, y) {
        CopyMeans(h, m, to, from, n, y);
      }
      ok := true;
    }

    /** realloc. Its memcpy runs past the end of the new block exactly when the request is so
        large that the page count wraps round to one, there is a page, and the old block is
        larger than a page has room for. */
    method Reallocate(block: Option<nat>, newSize: nat) returns (r: Option<nat>, overrun: bool)
      requires Valid() && newSize < B32 && (block.Some? ==> block.value in live)
      modifies `used, `memory, `arenas, `lists, `live
      ensures overrun <==> block.Some? && newSize >= TOO_BIG
                           && Capacity(old(State()), block.value) > PGSIZE - ARENA_SIZE
                           && exists q :: 0 <= q < |old(used)| && !old(used)[q]
      ensures !overrun ==> Valid()
      ensures newSize == 0 ==> r.None? && live == (if block.Some? then old(live) - {block.value} else old(live))
      ensures newSize > 0 && r.None? ==> State() == old(State()) && memory == old(memory)
      ensures r.None? <==> Denied(old(State()), newSize)
      ensures r.Some? && !overrun ==> InArena(State(), r.value)
                                      && BlockFor(old(State()), newSize, Capacity(State(), r.value))
      ensures r.Some? && !overrun ==>
                r.value !in old(live)
                && live == (if block.Some? then old(live) - {block.value} else old(live)) + {r.value}
                && InArena(State(), r.value) && (newSize <= Capacity(State(), r.value) <==> newSize < TOO_BIG)
      ensures r.Some? && block.Some? && !overrun ==>
                var c := old(Capacity(State(), block.value));
                var n := if newSize < c then newSize else c;
                n <= Capacity(State(), r.value) && r.value + n <= |memory|
                    && block.value + n <= |memory| == |old(memory)|
                && memory[r.value..r.value + n] == old(memory)[block.value..block.value + n]
      ensures !overrun ==>
                AllKept(old(State()), old(memory), State(), memory,
                        if block.Some? then old(live) - {block.value} else old(live))
    {
      hide Inv, Consistent, InArena, Capacity, Pow2, Sizes, Spans, NoRoom, Denied, BlockFor, AllKept, Kept, TakesPages;
      hide Scrubbed, PagesFor, GivesBack, TakesBlock;
      HeapFacts(State());
      ghost var h, m := State(), memory;
      overrun := false;
      if newSize == 0 {
        NothingAsked(h);
        Free(block);
        return None, false;
      }
      SmallSizes(sizes);
      WrappedDenied(h, newSize);
      r := Allocate(newSize);
      HeapFacts(State());
      if block.Some? {
        FewerKept(h, m, State(), memory, h.live, h.live - {block.value});
      }
      if block.Some? && r.Some? {
        ghost var k, n := State(), memory;
        KeptOne(h, m, k, n, h.live, block.value);
        var ok := CopyInto(r.value, block.value, newSize);
        if !ok {
          return r, true;
        }
        ghost var o := memory;
        FewerKept(k, n, k, o, k.live - {r.value}, h.live - {block.value});
        KeptTwice(h, m, k, n, k, o, old(live) - {block.value});
        Free(block);
        FewerKept(k, o, State(), memory, live, h.live - {block.value});
        KeptTwice(h, m, k, o, State(), memory, old(live) - {block.value});
        KeptOne(k, o, State(), memory, live, r.value);
        ghost var c := if newSize < Capacity(k, block.value) then newSize else Capacity(k, block.value);
        KeptPrefix(k, o, State(), memory, r.value, c);
      }
    }

    /** calloc. It fails when its test refuses or malloc fails on the product as it computes it. The
        block is large enough for a * b bytes if and only if a * b is below TOO_BIG; clearing it runs
        past its end exactly when that product passes the test, is TOO_BIG or more, and a page is
        free. */
    method AllocateZeroed(a: nat, b: nat) returns (r: Option<nat>, overrun: bool)
      requires Valid() && a < B32 && b < B32
      modifies `used, `memory, `arenas, `lists, `live
      ensures r.None? <==> Refuses(a, b) || Denied(old(State()), Product(a, b))
      ensures r.None? ==> !overrun && State() == old(State()) && memory == old(memory)
      ensures r.Some? ==>
                r.value !in old(live) && live == old(live) + {r.value} && Inv(State()) && InArena(State(), r.value)
      ensures r.Some? ==> (a * b <= Capacity(State(), r.value) <==> a * b < TOO_BIG)
      ensures r.Some? ==> BlockFor(old(State()), Product(a, b), Capacity(State(), r.value))
      ensures overrun <==> !Refuses(a, b) && Product(a, b) >= TOO_BIG
                           && exists q :: 0 <= q < |old(used)| && !old(used)[q]
      ensures !overrun ==> Valid() && AllKept(old(State()), old(memory), State(), memory, old(live))
      ensures r.Some? && !overrun ==>
                var n := Product(a, b);
                r.value + n <= |memory| && forall k | r.value <= k < r.value + n :: memory[k] == 0
    {
      hide Inv, Consistent, InArena, Capacity, Pow2, Sizes, Spans, NoRoom, Refuses, Product, AllKept, Denied, BlockFor;
      hide TakesBlock, TakesPages;
      HeapFacts(State());
      ghost var h, m := State(), memory;
      SameMemory(h, h, m, live);
      overrun := false;
      var size := Product(a, b);
      ProductBelow(a, b);
      if Refuses(a, b) {
        return None, false;
      }
      SmallSizes(sizes);
      WrappedDenied(h, size);
      r := Allocate(size);
      if r.Some? {
        HeapFacts(State());
        SmallProduct(a, b);
        InsideArena(State(), r.value);
        var room := BlockSize(r.value);
        if size > room {
          return r, true;
        }
        ghost var k := State();
        ClearMeans(h, k, m, r.value, size, old(live));
        memory := Fill(memory, r.value, size, 0);
      }
    }
  }

  /** A small block freed while others of its arena are in use is what the next request of its size
      gets, and the heap is then as it was. */
  method FreeThenAllocate(heap: Allocator, x: nat, size: nat) returns (r: Option<nat>)
    requires heap.Valid() && x in heap.live && x / PGSIZE in heap.arenas && heap.arenas[x / PGSIZE].Small?
    requires var a := heap.arenas[x / PGSIZE];
             0 < size && DescFor(heap.sizes, size, a.desc) && a.freeCnt + 1 < PerArena(heap.sizes[a.desc])
    modifies heap
    ensures r == Some(x) && heap.State() == old(heap.State())
  {
    hide Inv, AllKept, NoRoom, BlockFor, Pow2, Spans, Sizes, PerArena, InArena, Capacity, Scrubbed, Denied, Consistent;
    hide GivesBack, TakesBlock, DescFor;
    ghost var h, d := heap.State(), heap.arenas[x / PGSIZE].desc;
    HeapFacts(h);
    SmallRequest(heap.sizes, size, d);
    heap.Free(Some(x));
    ghost var k := heap.State();
    PushedFirst(h, k, x, d, size);
    r := heap.Allocate(size);
    TakenAgain(h, k, heap.State(), r.value, x, d, size);
  }

  lemma SmallRequest(sizes: seq<nat>, size: nat, d: nat)
    requires |sizes| == 7 && (forall e | 0 <= e < 7 :: sizes[e] == 16 * Pow2(e)) && DescFor(sizes, size, d)
    ensures size <= 1024
  {
    hide Pow2;
    SmallSizes(sizes);
  }

  /** The freed block is the first of its list, so a request of its size is not denied. */
  lemma PushedFirst(h: Heap, k: Heap, x: nat, d: nat, size: nat)
    requires GivesBack(h, k, x) && h.arenas[x / PGSIZE].Small? && h.arenas[x / PGSIZE].desc == d
    requires h.arenas[x / PGSIZE].freeCnt + 1 < PerArena(h.sizes[d]) && k.sizes == h.sizes
    requires 0 < size <= 1024 && DescFor(h.sizes, size, d)
    ensures k.used == h.used && k.lists == h.lists[d := [x] + h.lists[d]]
    ensures k.arenas == h.arenas[x / PGSIZE := Small(d, h.arenas[x / PGSIZE].freeCnt + 1)]
    ensures !Denied(k, size)
  {
    hide PerArena, Sizes, NoRoom;
    forall e: nat | e < |k.lists| && DescFor(k.sizes, size, e) ensures k.lists[e] != [] {
      OneDesc(k.sizes, size, d, e);
    }
  }

  lemma TakenAgain(h: Heap, k: Heap, l: Heap, y: nat, x: nat, d: nat, size: nat)
    requires Sizes(h) && d < |h.sizes| == |h.lists| && x in h.live && x / PGSIZE in h.arenas
    requires h.arenas[x / PGSIZE].Small? && h.arenas[x / PGSIZE].desc == d && DescFor(h.sizes, size, d)
    requires k == h.(arenas := h.arenas[x / PGSIZE := Small(d, h.arenas[x / PGSIZE].freeCnt + 1)],
                     lists := h.lists[d := [x] + h.lists[d]], live := h.live - {x})
    requires exists e: nat :: DescFor(k.sizes, size, e) && TakesBlock(k, l, y, e)
    ensures y == x && l == h
  {
    hide Sizes, BlockOf, NewArena, FirstGroup, Pop;
    var e: nat :| DescFor(k.sizes, size, e) && TakesBlock(k, l, y, e);
    OneDesc(k.sizes, size, d, e);
    Unfreed(h, k, x, d);
  }

  lemma Unfreed(h: Heap, k: Heap, x: nat, d: nat)
    requires Sizes(h) && d < |h.sizes| == |h.lists| && x in h.live && x / PGSIZE in h.arenas
    requires h.arenas[x / PGSIZE].Small? && h.arenas[x / PGSIZE].desc == d
    requires k == h.(arenas := h.arenas[x / PGSIZE := Small(d, h.arenas[x / PGSIZE].freeCnt + 1)],
                     lists := h.lists[d := [x] + h.lists[d]], live := h.live - {x})
    requires BlockOf(k, x, d)
    ensures Pop(k, d) == h
  {
    var r := Pop(k, d);
    assert r.lists == h.lists && r.live == h.live && r.arenas == h.arenas;
  }

  lemma IsTaken(h: Heap, k: Heap, x: nat, d: nat)
    requires Sizes(h) && d < |h.sizes| == |h.lists| && Sizes(k) && k.sizes == h.sizes && |k.lists| == |h.lists|
    requires k.lists[d] != [] && x == k.lists[d][0] && BlockOf(k, x, d)
    requires if h.lists[d] != [] then k == h
             else exists p :: 0 <= p < |h.used| && FirstGroup(h.used, 0, 1, false) == Some(p) && k == NewArena(h, d, p)
    ensures TakesBlock(h, Pop(k, d), x, d) && (h.lists[d] == [] ==> TakesPages(h.used, Pop(k, d).used, x, 1))
  {
    if h.lists[d] == [] {
      var p :| 0 <= p < |h.used| && FirstGroup(h.used, 0, 1, false) == Some(p) && k == NewArena(h, d, p);
      BlockPage(p, h.sizes[d], 0);
      TakesFirst(h.used, p, 1);
    }
  }

  lemma OffPageFirst(s: seq<nat>, x: nat)
    ensures OffPage([x] + s, x / PGSIZE) == OffPage(s, x / PGSIZE)
  {
    assert ([x] + s)[1..] == s;
  }

  /** Block y holds the same bytes, as many of them, in heap h with memory m and in k with n. */
  ghost predicate Kept(h: Heap, m: seq<byte>, k: Heap, n: seq<byte>, y: nat) {
    && Sizes(h) && Spans(h) && InArena(h, y) && Sizes(k) && Spans(k) && InArena(k, y)
    && Capacity(k, y) == Capacity(h, y) && |n| == |m| && y + Capacity(h, y) <= |m|
    && n[y..y + Capacity(h, y)] == m[y..y + Capacity(h, y)]
  }

  ghost predicate AllKept(h: Heap, m: seq<byte>, k: Heap, n: seq<byte>, s: set<nat>) {
    |m| == |n| && forall y | y in s :: Kept(h, m, k, n, y)
  }

  lemma KeptOne(h: Heap, m: seq<byte>, k: Heap, n: seq<byte>, s: set<nat>, y: nat)
    requires AllKept(h, m, k, n, s) && y in s
    ensures Kept(h, m, k, n, y) && |m| == |n| && y + Capacity(h, y) <= |m|
    ensures Sizes(h) && Spans(h) && InArena(h, y) && Sizes(k) && Spans(k) && InArena(k, y)
    ensures Capacity(k, y) == Capacity(h, y)
  {
    hide InArena, Capacity, Sizes, Spans;
  }

  lemma FewerKept(h: Heap, m: seq<byte>, k: Heap, n: seq<byte>, s: set<nat>, t: set<nat>)
    requires AllKept(h, m, k, n, s) && t <= s
    ensures AllKept(h, m, k, n, t)
  {
    hide Kept;
  }

  lemma KeptTwice(h: Heap, m: seq<byte>, k: Heap, n: seq<byte>, l: Heap, o: seq<byte>, s: set<nat>)
    requires AllKept(h, m, k, n, s) && AllKept(k, n, l, o, s)
    ensures AllKept(h, m, l, o, s)
  {
    hide InArena, Capacity, Sizes, Spans;
    forall y | y in s ensures Kept(h, m, l, o, y) {
      assert Kept(h, m, k, n, y) && Kept(k, n, l, o, y);
    }
  }

  lemma KeptPrefix(h: Heap, m: seq<byte>, k: Heap, n: seq<byte>, y: nat, c: nat)
    requires Kept(h, m, k, n, y) && c <= Capacity(h, y)
    ensures n[y..y + c] == m[y..y + c]
  {
    hide InArena, Capacity, Sizes, Spans;
    assert n[y..y + c] == n[y..y + Capacity(h, y)][..c];
    assert m[y..y + c] == m[y..y + Capacity(h, y)][..c];
  }

  lemma SameMemory(h: Heap, k: Heap, m: seq<byte>, s: set<nat>)
    requires Sizes(h) && Spans(h) && Sizes(k) && Spans(k) && |m| == |h.used| * PGSIZE
    requires forall y | y in s :: InArena(h, y) && InArena(k, y) && Capacity(k, y) == Capacity(h, y)
    ensures AllKept(h, m, k, m, s)
  {
    hide InArena, Capacity, Sizes, Spans;
    forall y | y in s ensures Kept(h, m, k, m, y) {
      InsideArena(h, y);
    }
  }

  /** The input: a pool of three pages, a block of 5000 bytes, which takes two of them, and a
      request for SIZE_MAX. */
  method ReallocCanOverrun(bytes: seq<byte>) returns (overrun: bool)
    requires |bytes| == 3 * PGSIZE
    ensures overrun
  {
    hide Inv, Capacity, InArena, Denied, Pow2, Consistent;
    var m := new Allocator([false, false, false], bytes);
    HeapFacts(m.State());
    SmallSizes(m.sizes);
    assert PagesFor(5000) == 2;
    BigDenied(m.State(), 5000);
    assert Group(m.used, 0, 2, false);
    var x := m.Allocate(5000);
    assert !m.used[2];
    HeapFacts(m.State());
    OnePage(m.used);
    var y;
    y, overrun := m.Reallocate(x, 0xFFFF_FFFF);
  }

  /** The input for calloc: one page, and one element of SIZE_MAX bytes. */
  method CallocCanOverrun(bytes: seq<byte>) returns (overrun: bool)
    requires |bytes| == PGSIZE
    ensures overrun
  {
    hide Inv, Capacity, InArena, Denied, Pow2, Consistent;
    var m := new Allocator([false], bytes);
    assert !m.used[0];
    assert Product(1, 0xFFFF_FFFF) == 0xFFFF_FFFF;
    var y;
    y, overrun := m.AllocateZeroed(1, 0xFFFF_FFFF);
  }

  lemma ProductBelow(a: nat, b: nat)
    ensures Product(a, b) < B32
  {}

  /** A product that fits in 32 bits is not wrapped. */
  lemma SmallProduct(a: nat, b: nat)
    ensures a * b < B32 ==> Product(a, b) == a * b
  {
    if a * b < B32 {
      SmallRemainder(a * b, B32);
    }
  }

  lemma ClearMeans(h: Heap, k: Heap, m: seq<byte>, x: nat, n: nat, s: set<nat>)
    requires AllKept(h, m, k, m, s) && Sizes(k) && Spans(k) && InArena(k, x) && x !in s
    requires n <= Capacity(k, x) && x + n <= |m| == |k.used| * PGSIZE
    ensures AllKept(h, m, k, Fill(m, x, n, 0), s)
  {
    hide InArena, Capacity, Sizes, Spans, Fill;
    forall y | y in s ensures Kept(h, m, k, Fill(m, x, n, 0), y) {
      assert Kept(h, m, k, m, y);
      Apart(k, x, y);
      InsideArena(k, y);
      FillKeeps(m, x, n, 0, y, Capacity(k, y));
    }
  }

  lemma CopyMeans(h: Heap, m: seq<byte>, to: nat, from: nat, n: nat, y: nat)
    requires Sizes(h) && Spans(h) && InArena(h, to) && InArena(h, y) && y != to && |m| == |h.used| * PGSIZE
    requires n <= Capacity(h, to) && to + n <= |m| && from + n <= |m|
    ensures Kept(h, m, h, Copy(m, to, from, n), y)
  {
    hide InArena, Capacity, Sizes, Spans, Copy;
    Apart(h, to, y);
    InsideArena(h, y);
    CopyKeeps(m, to, from, n, y, Capacity(h, y));
  }

  lemma NoLonger(h: Heap, p: nat)
    requires Consistent(h, {p}) && p in h.arenas && h.arenas[p].Small?
    requires h.arenas[p].freeCnt < PerArena(h.sizes[h.arenas[p].desc])
    ensures Inv(h)
  {
    hide Listed, AllSplit, Counted, Owned, Pages, PerArena;
  }

  lemma OwnArena(h: Heap, x: nat)
    requires Sizes(h) && Spans(h) && InArena(h, x)
    ensures x / PGSIZE in h.arenas
  {}

  lemma SmallBlock(h: Heap, x: nat)
    requires Sizes(h) && Spans(h) && InArena(h, x) && h.arenas[x / PGSIZE].Small?
    ensures x / PGSIZE in h.arenas && BlockOf(h, x, h.arenas[x / PGSIZE].desc)
    ensures Capacity(h, x) == h.sizes[h.arenas[x / PGSIZE].desc]
  {}

  lemma BigBlock(h: Heap, x: nat)
    requires Sizes(h) && Spans(h) && InArena(h, x) && h.arenas[x / PGSIZE].Big?
    ensures x / PGSIZE in h.arenas && x == x / PGSIZE * PGSIZE + ARENA_SIZE
  {}

  lemma OtherPage(h: Heap, x: nat, y: nat)
    requires Sizes(h) && Spans(h) && InArena(h, x) && h.arenas[x / PGSIZE].Big? && InArena(h, y) && x != y
    ensures y / PGSIZE != x / PGSIZE
  {}

  /** What realloc copies is the common prefix of the two blocks. */
  lemma CopiedPrefix(m: seq<byte>, to: nat, from: nat, n: nat)
    requires to + n <= |m| && from + n <= |m|
    ensures Copy(m, to, from, n)[to..to + n] == m[from..from + n]
  {
  }

  lemma CopyKeeps(m: seq<byte>, to: nat, from: nat, n: nat, y: nat, c: nat)
    requires to + n <= |m| && from + n <= |m| && y + c <= |m| && (y + c <= to || to + n <= y)
    ensures Copy(m, to, from, n)[y..y + c] == m[y..y + c]
  {
    PatchedElsewhere(m, to, m[from..from + n], y, c);
  }

  lemma NothingRemoved(l: seq<nat>, p: nat, size: nat)
    requires NoDup(l)
    ensures Removed(l, l, p, size, 0)
  {}

  lemma PushMeans(h: Heap, x: nat, d: nat, m: seq<byte>, y: nat)
    requires Inv(h) && x in h.live && d < |h.sizes| && BlockOf(h, x, d) && y in h.live && y != x
    requires |m| == |h.used| * PGSIZE && x + h.sizes[d] <= |m| && Inv(h)
    requires var k := Push(h, x, d); Sizes(k) && Spans(k)
    ensures Kept(h, m, Push(h, x, d), Fill(m, x, h.sizes[d], 0xcc), y)
  {
    hide Inv, IsBlock, InArena, Capacity, Spans, Sizes, Fill;
    HeapFacts(h);
    SmallBlock(h, x);
    OwnArena(h, y);
    SameCapacity(h, Push(h, x, d), y);
    Apart(h, x, y);
    InsideArena(h, y);
    FillKeeps(m, x, h.sizes[d], 0xcc, y, Capacity(h, y));
  }

  /** Blocks of other arenas survive the return of the arena at p. */
  lemma DropMeans(h: Heap, k: Heap, p: nat, m: seq<byte>, y: nat)
    requires Sizes(h) && Spans(h) && Sizes(k) && Spans(k) && InArena(h, y) && y / PGSIZE != p && p in h.arenas
    requires k.arenas == h.arenas - {p} && k.sizes == h.sizes && |m| == |h.used| * PGSIZE
    ensures Kept(h, m, k, Fill(m, p * PGSIZE, Span(h.arenas[p]) * PGSIZE, 0xcc), y)
  {
    hide IsBlock;
    InsideArena(h, y);
    FillKeeps(m, p * PGSIZE, Span(h.arenas[p]) * PGSIZE, 0xcc, y, Capacity(h, y));
  }

  lemma HeapFacts(h: Heap)
    requires Inv(h)
    ensures Sizes(h) && Spans(h) && Owned(h) && |h.lists| == |h.sizes| && Consistent(h, {})
    ensures forall x | x in h.live :: InArena(h, x)
  {}

  lemma HeapParts(h: Heap, except: set<nat>)
    requires Consistent(h, except)
    ensures Sizes(h) && Spans(h) && Owned(h) && |h.lists| == |h.sizes| && Listed(h)
    ensures forall x | x in h.live :: InArena(h, x)
  {}

  lemma NewArenaMeans(h: Heap, d: nat, p: nat)
    requires Inv(h) && d < |h.sizes| && Group(h.used, p, 1, false) && h.lists[d] == []
    requires var k := NewArena(h, d, p); Sizes(k) && Spans(k)
    ensures var k := NewArena(h, d, p);
            k.live == h.live && k.sizes == h.sizes && k.taken == h.taken && |k.used| == |h.used|
                && |k.lists| == |h.lists|
            && forall y | y in h.live :: InArena(h, y) && InArena(k, y) && Capacity(k, y) == Capacity(h, y)
  {
    hide Split, CountOk, IsBlock, FreeSet, BlockAt, PerArena, Pages, Covered, NoDup, Group;
    FreePageUncovered(h, p, 1);
  }

  lemma PopMeans(h: Heap, d: nat)
    requires Sizes(h) && Spans(h) && Owned(h) && d < |h.sizes| && h.lists[d] != [] && BlockOf(h, h.lists[d][0], d)
    requires var k := Pop(h, d); Sizes(k) && Spans(k)
    ensures var k, x := Pop(h, d), h.lists[d][0];
            k.live == h.live + {x} && k.sizes == h.sizes && k.taken == h.taken && k.used == h.used
                && |k.lists| == |h.lists|
            && InArena(k, x) && Capacity(k, x) == h.sizes[d]
            && forall y | y in h.live :: InArena(h, y) && InArena(k, y) && Capacity(k, y) == Capacity(h, y)
  {
    hide IsBlock;
  }

  /** There are no n free pages in a row, or none are wanted. */
  ghost predicate NoRoom(bits: seq<bool>, n: nat) { n == 0 || forall q :: !Group(bits, q, n, false) }

  lemma SmallSizes(sizes: seq<nat>)
    requires |sizes| == 7 && forall d | 0 <= d < 7 :: sizes[d] == 16 * Pow2(d)
    ensures (forall d | 0 <= d < 7 :: sizes[d] <= 1024) && sizes[6] == 1024
  {
    Powers();
  }

  lemma NothingAsked(h: Heap)
    ensures Denied(h, 0)
  {}

  /** A request that wraps round to one page fails exactly when there is no page. */
  lemma WrappedDenied(h: Heap, size: nat)
    requires size < B32 && forall d | 0 <= d < |h.sizes| :: h.sizes[d] <= 1024
    ensures size >= TOO_BIG ==> (Denied(h, size) <==> forall q | 0 <= q < |h.used| :: h.used[q])
  {
    hide NoRoom, Denied;
    if size >= TOO_BIG {
      BigDenied(h, size);
      PagesForEnough(size);
      OnePage(h.used);
    }
  }

  lemma PagesFit(h: Heap, size: nat)
    ensures size > 1024 ==> BlockFor(h, size, PagesFor(size) * PGSIZE - ARENA_SIZE)
  {}

  lemma NoGroup(bits: seq<bool>, n: nat)
    ensures n == 0 || FirstGroup(bits, 0, n, false).None? <==> NoRoom(bits, n)
  {}

  lemma OnePage(bits: seq<bool>)
    ensures NoRoom(bits, 1) <==> forall q | 0 <= q < |bits| :: bits[q]
  {
    forall q | 0 <= q < |bits| ensures Group(bits, q, 1, false) <==> !bits[q] {}
  }

  lemma GroupFound(bits: seq<bool>, n: nat)
    ensures var r := FirstGroup(bits, 0, n, false); r.Some? ==> Group(bits, r.value, n, false)
  {}

  lemma BigMeans(h: Heap, p: nat, n: nat)
    requires Inv(h) && n > 0 && Group(h.used, p, n, false) && Inv(NewBig(h, p, n))
    ensures var k, x := NewBig(h, p, n), p * PGSIZE + ARENA_SIZE;
            Sizes(k) && Spans(k) && InArena(k, x) && Capacity(k, x) == n * PGSIZE - ARENA_SIZE
            && forall y | y in h.live :: InArena(h, y) && InArena(k, y) && Capacity(k, y) == Capacity(h, y)
  {
    hide Split, CountOk, IsBlock, FreeSet, BlockAt, PerArena, Pages, Covered, NoDup, Group;
    FreePageUncovered(h, p, n);
  }

  lemma Powers()
    ensures Pow2(0) == 1 && Pow2(1) == 2 && Pow2(2) == 4 && Pow2(3) == 8 && Pow2(4) == 16 && Pow2(5) == 32
    ensures Pow2(6) == 64 && Pow2(7) == 128
  {}
}

/** How files get their sectors (inode_create, inode_extend and the functions below them in
    src/filesys/inode.c): the nodes come in a fixed order, each takes the first free sector, and
    the words of a sector that the cache still holds from before can stop that on the way. */
module Growth {
  import opened Bytes
  import opened SectorTree

  /** How an operation ends: done, with no bit of the free map clear, with an assertion that fails,
      or with the panic of the block layer, because the map, longer than the device, handed out a
      sector the device does not have. */
  datatype Outcome = Ok | NoSpace | Panic | OffDevice

  // ---- The free map, first fit ----

  function FreeBelow(used: seq<bool>, n: nat): seq<nat>
    requires n <= |used|
  {
    if n == 0 then [] else FreeBelow(used, n - 1) + if used[n - 1] then [] else [n - 1]
  }

  /** The free sectors in the order the free map hands them out. */
  function FreeList(used: seq<bool>): seq<nat> { FreeBelow(used, |used|) }

  function FreeCount(used: seq<bool>): nat { |FreeList(used)| }

  lemma {:induction false} FreeBelowFacts(used: seq<bool>, n: nat)
    requires n <= |used|
    ensures forall s: nat :: s in FreeBelow(used, n) <==> s < n && !used[s]
  {
    if n > 0 {
      FreeBelowFacts(used, n - 1);
    }
  }

  lemma FreeListFacts(used: seq<bool>)
    ensures forall s: nat :: s in FreeList(used) <==> s < |used| && !used[s]
    ensures forall i | 0 <= i < |FreeList(used)| :: FreeList(used)[i] < |used| && !used[FreeList(used)[i]]
  {
    FreeBelowFacts(used, |used|);
    hide FreeBelow;
    forall i | 0 <= i < |FreeList(used)| ensures FreeList(used)[i] < |used| && !used[FreeList(used)[i]] {
      assert FreeList(used)[i] in FreeList(used);
    }
  }

  lemma {:induction false} FirstBelow(used: seq<bool>, s: nat, n: nat)
    requires s < |used| && !used[s] && (forall t | 0 <= t < s :: used[t]) && n <= |used|
    ensures if n <= s then FreeBelow(used, n) == FreeBelow(used[s := true], n) == []
            else FreeBelow(used, n) == [s] + FreeBelow(used[s := true], n)
  {
    if n > 0 {
      FirstBelow(used, s, n - 1);
    }
  }

  /** Taking the lowest free sector takes the first of the list. */
  lemma TakeFirst(used: seq<bool>, s: nat)
    requires s < |used| && !used[s] && forall t | 0 <= t < s :: used[t]
    ensures FreeList(used) != [] && FreeList(used)[0] == s && FreeList(used[s := true]) == FreeList(used)[1..]
  {
    FirstBelow(used, s, |used|);
  }

  lemma {:induction false} NoneBelow(used: seq<bool>, n: nat)
    requires n <= |used| && forall s | 0 <= s < n :: used[s]
    ensures FreeBelow(used, n) == []
  {
    if n > 0 {
      NoneBelow(used, n - 1);
    }
  }

  lemma NoneFree(used: seq<bool>)
    requires forall s | 0 <= s < |used| :: used[s]
    ensures FreeList(used) == []
  {
    NoneBelow(used, |used|);
  }

  lemma {:induction false} LowestBelow(used: seq<bool>, n: nat)
    requires n <= |used| && FreeBelow(used, n) != []
    ensures var s := FreeBelow(used, n)[0]; s < n && !used[s] && forall t | 0 <= t < s :: used[t]
  {
    if FreeBelow(used, n - 1) != [] {
      LowestBelow(used, n - 1);
    } else {
      FreeBelowFacts(used, n - 1);
      var none := FreeBelow(used, n - 1);
      forall t: nat | t < n - 1 ensures used[t] {
        assert t !in none;
      }
    }
  }

  /** The first of the list is the lowest. */
  lemma FirstIsLowest(used: seq<bool>)
    requires FreeList(used) != []
    ensures var s := FreeList(used)[0];
            s < |used| && !used[s] && (forall t | 0 <= t < s :: used[t])
            && FreeList(used[s := true]) == FreeList(used)[1..]
  {
    LowestBelow(used, |used|);
    TakeFirst(used, FreeList(used)[0]);
  }

  // ---- One node ----

  datatype Result = Result(o: Outcome, v: Volume)

  /** The map's first clear bit past the device is set. */
  function Marked(past: seq<bool>): seq<bool>
    requires FreeList(past) != []
  {
    FirstIsLowest(past);
    past[FreeList(past)[0] := true]
  }

  /** free_map_allocate and block_clear for node n of file h. When every sector of the device is
      marked the map hands out a sector behind its end, which block_clear does not survive. */
  ghost function Fetch(v: Volume, h: nat, n: Node, cached: set<nat>): (r: Result)
    requires Layout(v) && Open(v, h, n)
    ensures Layout(r.v) && r.o != Panic
  {
    if FreeList(v.used) == [] && FreeList(v.past) == [] then Result(NoSpace, v)
    else if FreeList(v.used) == [] then
      PastOnly(v, Marked(v.past));
      Result(OffDevice, v.(past := Marked(v.past)))
    else
      FirstIsLowest(v.used);
      GrowNode(v, h, n, FreeList(v.used)[0], cached);
      Result(Ok, Placed(v, h, n, FreeList(v.used)[0], cached))
  }

  /** The same behind the assertion that n's word is zero, which growing makes for every node
      and creating for data only. A node past the tree, or there already, fails an assertion. */
  ghost function Step(v: Volume, h: nat, n: Node, growing: bool, cached: set<nat>): (r: Result)
    requires Layout(v)
    ensures Layout(r.v)
  {
    if !Open(v, h, n) || ((growing || n.Data?) && WordOf(v, h, n) != 0) then Result(Panic, v)
    else Fetch(v, h, n, cached)
  }

  // ---- Many nodes ----

  /** One node after the other until something stops it. */
  ghost function Run(v: Volume, h: nat, ns: seq<Node>, growing: bool, cached: set<nat>): (r: Result)
    requires Layout(v)
    ensures Layout(r.v)
  {
    if ns == [] then Result(Ok, v)
    else
      var before := Run(v, h, ns[..|ns| - 1], growing, cached);
      if before.o != Ok then before else Step(before.v, h, ns[|ns| - 1], growing, cached)
  }

  lemma RunNone(v: Volume, h: nat, growing: bool, cached: set<nat>)
    requires Layout(v)
    ensures Run(v, h, [], growing, cached) == Result(Ok, v)
  {}

  lemma RunLast(v: Volume, h: nat, ns: seq<Node>, n: Node, growing: bool, cached: set<nat>)
    requires Layout(v)
    ensures var r := Run(v, h, ns, growing, cached);
            Run(v, h, ns + [n], growing, cached) == if r.o != Ok then r else Step(r.v, h, n, growing, cached)
  {
    hide Layout, Step;
    assert (ns + [n])[..|ns + [n]| - 1] == ns;
  }

  lemma RunOne(v: Volume, h: nat, n: Node, growing: bool, cached: set<nat>)
    requires Layout(v)
    ensures Run(v, h, [n], growing, cached) == Step(v, h, n, growing, cached)
  {
    hide Layout, Step;
    assert [n][..0] == [];
    RunNone(v, h, growing, cached);
  }

  /** A run in two parts. */
  lemma {:induction false} RunMore(v: Volume, h: nat, ns: seq<Node>, ms: seq<Node>, growing: bool, cached: set<nat>)
    requires Layout(v)
    ensures var r := Run(v, h, ns, growing, cached);
            Run(v, h, ns + ms, growing, cached) == if r.o != Ok then r else Run(r.v, h, ms, growing, cached)
    decreases |ms|
  {
    hide Layout, Step, Run;
    var r := Run(v, h, ns, growing, cached);
    if ms == [] {
      assert ns + ms == ns;
      RunNone(r.v, h, growing, cached);
    } else {
      var rest, m := ms[..|ms| - 1], ms[|ms| - 1];
      RunMore(v, h, ns, rest, growing, cached);
      assert ns + ms == (ns + rest) + [m] && ms == rest + [m];
      RunLast(v, h, ns + rest, m, growing, cached);
      RunLast(r.v, h, rest, m, growing, cached);
    }
  }

  lemma StepExtends(v: Volume, h: nat, n: Node, growing: bool, cached: set<nat>)
    requires Layout(v)
    ensures Extends(v, Step(v, h, n, growing, cached).v, h, cached)
    ensures var r := Step(v, h, n, growing, cached);
            r.o == Ok ==> Open(v, h, n) && FreeList(v.used) != [] && r.v.loc == v.loc[Key(h, n) := FreeList(v.used)[0]]
                          && FreeList(r.v.used) == FreeList(v.used)[1..] && r.v.past == v.past
  {
    hide Layout, Extends, WordOf;
    ExtendsReflexive(v, h, cached);
    PastExtends(v, h, cached);
    if Open(v, h, n) && FreeList(v.used) != [] {
      FirstIsLowest(v.used);
      GrowNode(v, h, n, FreeList(v.used)[0], cached);
    }
  }

  lemma PastExtends(v: Volume, h: nat, cached: set<nat>)
    requires Layout(v)
    ensures FreeList(v.past) != [] ==>
              var w := v.(past := Marked(v.past)); Layout(w) && Extends(v, w, h, cached)
  {
    hide Owned, Wired, Word, FreeList, Marked;
    if FreeList(v.past) != [] {
      PastOnly(v, Marked(v.past));
      ExtendsReflexive(v, h, cached);
    }
  }

  /** What a run leaves, whatever stops it. */
  lemma {:induction false} RunExtends(v: Volume, h: nat, ns: seq<Node>, growing: bool, cached: set<nat>)
    requires Layout(v)
    ensures Extends(v, Run(v, h, ns, growing, cached).v, h, cached)
  {
    hide Layout, Extends, Step;
    if ns == [] {
      ExtendsReflexive(v, h, cached);
    } else {
      var ms, n := ns[..|ns| - 1], ns[|ns| - 1];
      RunExtends(v, h, ms, growing, cached);
      var r := Run(v, h, ms, growing, cached);
      if r.o == Ok {
        StepExtends(r.v, h, n, growing, cached);
        ExtendsTransitive(v, r.v, Step(r.v, h, n, growing, cached).v, h, cached);
      }
    }
  }

  /** After a whole run, node ns[i] is in the i-th free sector. */
  lemma {:induction false} RunPlaces(v: Volume, h: nat, ns: seq<Node>, growing: bool, cached: set<nat>)
    requires Layout(v) && Run(v, h, ns, growing, cached).o == Ok
    ensures |ns| <= |FreeList(v.used)|
    ensures var r := Run(v, h, ns, growing, cached).v;
            && FreeList(r.used) == FreeList(v.used)[|ns|..] && r.past == v.past
            && (forall k :: k in r.loc <==> k in v.loc || (k.h == h && k.n in ns))
            && (forall k | k in v.loc :: k.h != h || k.n !in ns)
            && forall i | 0 <= i < |ns| :: Key(h, ns[i]) in r.loc && r.loc[Key(h, ns[i])] == FreeList(v.used)[i]
  {
    hide Layout, Extends, Step, FreeList;
    if ns != [] {
      var ms, n := ns[..|ns| - 1], ns[|ns| - 1];
      RunPlaces(v, h, ms, growing, cached);
      var b := Run(v, h, ms, growing, cached).v;
      StepExtends(b, h, n, growing, cached);
      StepOpen(b, h, n, growing, cached);
      assert ns == ms + [n];
      OneMorePlace(v.loc, b.loc, Run(v, h, ns, growing, cached).v.loc, h, ms, n, FreeList(v.used));
    }
  }

  ghost predicate Full(o: Outcome) { o == NoSpace || o == OffDevice }

  /** A run that finds no sector has used the device up; the map then handed out the first sector
      past it whose bit was clear, if there was one. */
  lemma {:induction false} RunFull(v: Volume, h: nat, ns: seq<Node>, growing: bool, cached: set<nat>)
    requires Layout(v) && Full(Run(v, h, ns, growing, cached).o)
    ensures var r := Run(v, h, ns, growing, cached);
            && FreeList(r.v.used) == [] && (r.o == OffDevice <==> FreeList(v.past) != [])
            && r.v.past == if r.o == OffDevice then Marked(v.past) else v.past
  {
    hide Layout, Open, WordOf, FreeList, Placed, Marked;
    if ns != [] {
      var ms := ns[..|ns| - 1];
      if Full(Run(v, h, ms, growing, cached).o) {
        RunFull(v, h, ms, growing, cached);
      } else {
        RunPlaces(v, h, ms, growing, cached);
      }
    }
  }

  lemma OneMorePlace(a: map<Key, nat>, b: map<Key, nat>, c: map<Key, nat>, h: nat, ns: seq<Node>, n: Node,
                     free: seq<nat>)
    requires |ns| < |free| && Key(h, n) !in b && c == b[Key(h, n) := free[|ns|]]
    requires forall k :: k in b <==> k in a || (k.h == h && k.n in ns)
    requires forall k | k in a :: k.h != h || k.n !in ns
    requires forall i | 0 <= i < |ns| :: Key(h, ns[i]) in b && b[Key(h, ns[i])] == free[i]
    ensures forall k :: k in c <==> k in a || (k.h == h && k.n in ns + [n])
    ensures forall k | k in a :: k.h != h || k.n !in ns + [n]
    ensures forall i | 0 <= i < |ns + [n]| :: Key(h, (ns + [n])[i]) in c && c[Key(h, (ns + [n])[i])] == free[i]
  {}

  lemma StepOpen(v: Volume, h: nat, n: Node, growing: bool, cached: set<nat>)
    requires Layout(v) && Step(v, h, n, growing, cached).o == Ok
    ensures Key(h, n) !in v.loc
  {
    hide Layout;
  }

  // ---- How a run ends, told beforehand ----

  function IndexOf(ns: seq<Node>, n: Node): (i: nat)
    requires n in ns
    ensures i < |ns| && ns[i] == n
  {
    if ns[|ns| - 1] == n then |ns| - 1 else IndexOf(ns[..|ns| - 1], n)
  }

  /** The word node ns[j] will find in its parent, when the j nodes before it have got their
      sectors: that of the parent there is already, or what clearing left in the sector the
      parent gets on the way. */
  ghost function WordFound(v: Volume, h: nat, ns: seq<Node>, j: nat, cached: set<nat>): nat
    requires Layout(v) && j < |ns| && j <= |FreeList(v.used)| && IsNode(ns[j]) && ns[j] != Header
    requires Key(h, Parent(ns[j])) in v.loc || Parent(ns[j]) in ns[..j]
  {
    if Key(h, Parent(ns[j])) in v.loc then WordOf(v, h, ns[j])
    else
      FreeListFacts(v.used);
      Word(Cleared(v.disk, cached, FreeList(v.used)[IndexOf(ns[..j], Parent(ns[j]))]), Slot(ns[j]))
  }

  /** Node ns[j] fails an assertion: there are sectors for the j nodes before it, and it lies
      past the tree, is there already, or finds a nonzero word where it must not. */
  ghost predicate Stops(v: Volume, h: nat, ns: seq<Node>, j: nat, growing: bool, cached: set<nat>)
    requires Layout(v) && j < |ns|
  {
    && j <= |FreeList(v.used)|
    && (|| !IsNode(ns[j]) || ns[j] == Header || ns[j] in ns[..j] || Key(h, ns[j]) in v.loc
        || (Key(h, Parent(ns[j])) !in v.loc && Parent(ns[j]) !in ns[..j])
        || ((growing || ns[j].Data?) && WordFound(v, h, ns, j, cached) != 0))
  }

  ghost predicate SomeStop(v: Volume, h: nat, ns: seq<Node>, growing: bool, cached: set<nat>)
    requires Layout(v)
  {
    exists j: nat :: j < |ns| && Stops(v, h, ns, j, growing, cached)
  }

  /** The words a run finds are the ones told beforehand. */
  lemma {:induction false} RunWord(v: Volume, h: nat, ns: seq<Node>, growing: bool, cached: set<nat>, m: Node)
    requires Layout(v) && Run(v, h, ns, growing, cached).o == Ok && IsNode(m) && m != Header && m !in ns
    requires Key(h, Parent(m)) in v.loc || Parent(m) in ns
    ensures |ns| <= |FreeList(v.used)|
    ensures var r := Run(v, h, ns, growing, cached).v;
            Key(h, Parent(m)) in r.loc && WordOf(r, h, m) == WordFound(v, h, ns + [m], |ns|, cached)
  {
    hide Layout, Extends, Step, Open, WordOf, FreeList, Run, Slot;
    RunPlaces(v, h, ns, growing, cached);
    assert (ns + [m])[..|ns|] == ns;
    if ns == [] {
      RunNone(v, h, growing, cached);
    } else {
      var ms, n := ns[..|ns| - 1], ns[|ns| - 1];
      assert ns == ms + [n];
      assert (ms + [m])[..|ms|] == ms;
      RunLast(v, h, ms, n, growing, cached);
      var b := Run(v, h, ms, growing, cached).v;
      RunPlaces(v, h, ms, growing, cached);
      RunExtends(v, h, ms, growing, cached);
      StepWord(v, b, h, n, growing, cached, m);
      if Parent(m) != n {
        RunWord(v, h, ms, growing, cached, m);
      }
    }
  }

  /** One more node n, after a run from v to b: m's word stays, or is what n's sector holds. */
  lemma StepWord(v: Volume, b: Volume, h: nat, n: Node, growing: bool, cached: set<nat>, m: Node)
    requires Layout(v) && Layout(b) && Extends(v, b, h, cached) && Step(b, h, n, growing, cached).o == Ok
    requires IsNode(m) && m != Header && m != n && (Key(h, Parent(m)) in b.loc || Parent(m) == n)
    ensures FreeList(b.used) != []
    ensures var s, r := FreeList(b.used)[0], Step(b, h, n, growing, cached).v;
            s < |v.disk| && Key(h, Parent(m)) in r.loc && Key(h, n) !in b.loc &&
            WordOf(r, h, m) == if Parent(m) == n then Word(Cleared(v.disk, cached, s), Slot(m)) else WordOf(b, h, m)
  {
    hide Layout, WordOf, Placed, Slot;
    FirstIsLowest(b.used);
    PlacedWord(b, h, n, FreeList(b.used)[0], cached, m);
    SameFree(v, b, h, cached, FreeList(b.used)[0]);
  }

  lemma SameFree(v: Volume, b: Volume, h: nat, cached: set<nat>, s: nat)
    requires Layout(v) && Layout(b) && Extends(v, b, h, cached) && s < |b.used| && !b.used[s]
    ensures s < |v.disk| == |b.disk| && b.disk[s] == v.disk[s]
  {
    hide Owned, Wired;
  }

  lemma StopsSame(v: Volume, h: nat, ns: seq<Node>, n: Node, growing: bool, cached: set<nat>, j: nat)
    requires Layout(v) && j < |ns|
    ensures Stops(v, h, ns + [n], j, growing, cached) <==> Stops(v, h, ns, j, growing, cached)
  {
    hide Layout, WordOf, Slot;
    assert (ns + [n])[..j] == ns[..j];
  }

  lemma LastStops(v: Volume, h: nat, ns: seq<Node>, n: Node, growing: bool, cached: set<nat>)
    requires Layout(v) && Run(v, h, ns, growing, cached).o == Ok
    ensures var r := Run(v, h, ns, growing, cached).v;
            Stops(v, h, ns + [n], |ns|, growing, cached) <==> Step(r, h, n, growing, cached).o == Panic
  {
    hide Layout, WordOf, Run, WordFound;
    var r := Run(v, h, ns, growing, cached).v;
    RunPlaces(v, h, ns, growing, cached);
    assert (ns + [n])[..|ns|] == ns;
    assert (ns + [n])[|ns|] == n;
    if IsNode(n) && n != Header && n !in ns && (Key(h, Parent(n)) in v.loc || Parent(n) in ns) {
      RunWord(v, h, ns, growing, cached, n);
    }
  }

  /** The outcome is known before the first step. */
  lemma {:induction false} Outcomes(v: Volume, h: nat, ns: seq<Node>, growing: bool, cached: set<nat>)
    requires Layout(v)
    ensures var r := Run(v, h, ns, growing, cached);
            && (r.o == Panic <==> SomeStop(v, h, ns, growing, cached))
            && (Full(r.o) <==> !SomeStop(v, h, ns, growing, cached) && |FreeList(v.used)| < |ns|)
            && (Full(r.o) ==> (r.o == OffDevice <==> FreeList(v.past) != []))
  {
    hide Layout, Step, Stops, Run;
    if ns == [] {
      RunNone(v, h, growing, cached);
    } else {
      var ms, n := ns[..|ns| - 1], ns[|ns| - 1];
      assert ns == ms + [n];
      Outcomes(v, h, ms, growing, cached);
      RunLast(v, h, ms, n, growing, cached);
      StopsLater(v, h, ms, n, growing, cached);
      if Run(v, h, ms, growing, cached).o == Ok {
        LastStops(v, h, ms, n, growing, cached);
        RunPlaces(v, h, ms, growing, cached);
        StepEnds(Run(v, h, ms, growing, cached).v, h, n, growing, cached);
      }
    }
  }

  lemma StepEnds(v: Volume, h: nat, n: Node, growing: bool, cached: set<nat>)
    requires Layout(v)
    ensures var o := Step(v, h, n, growing, cached).o;
            o != Panic ==> (Full(o) <==> FreeList(v.used) == [])
                           && (Full(o) ==> (o == OffDevice <==> FreeList(v.past) != []))
  {
    hide Layout;
  }

  lemma StopsLater(v: Volume, h: nat, ns: seq<Node>, n: Node, growing: bool, cached: set<nat>)
    requires Layout(v)
    ensures SomeStop(v, h, ns + [n], growing, cached)
            <==> SomeStop(v, h, ns, growing, cached) || Stops(v, h, ns + [n], |ns|, growing, cached)
    ensures |FreeList(v.used)| < |ns| ==> !Stops(v, h, ns + [n], |ns|, growing, cached)
  {
    hide Layout, WordFound;
    if SomeStop(v, h, ns + [n], growing, cached) {
      var j: nat :| j < |ns + [n]| && Stops(v, h, ns + [n], j, growing, cached);
      if j < |ns| {
        StopsSame(v, h, ns, n, growing, cached, j);
      }
    }
    if SomeStop(v, h, ns, growing, cached) {
      var j: nat :| j < |ns| && Stops(v, h, ns, j, growing, cached);
      StopsSame(v, h, ns, n, growing, cached, j);
    }
  }

  // ---- The order of a file's nodes ----

  /** The nodes block k brings. Growing asks for the double-indirect node with every block below
      its first entry, creating with the first block only. */
  function BlockNodes(k: nat, growing: bool): seq<Node> {
    if k < NUM_DIRECT || MAX_BLOCKS <= k then [Data(k)]
    else if k < FIRST_DOUBLE then
      (if (k - NUM_DIRECT) % ENTRIES == 0 then [Single((k - NUM_DIRECT) / ENTRIES)] else []) + [Data(k)]
    else
      (if k == FIRST_DOUBLE || (growing && k < FIRST_DOUBLE + ENTRIES) then [Double] else [])
      + (if (k - FIRST_DOUBLE) % ENTRIES == 0 then [Second((k - FIRST_DOUBLE) / ENTRIES)] else []) + [Data(k)]
  }

  /** The nodes blocks c0 .. c bring, in order. */
  function Order(c0: nat, c: nat, growing: bool): seq<Node> {
    if c <= c0 then [] else Order(c0, c - 1, growing) + BlockNodes(c - 1, growing)
  }

  /** The block numbers no file can grow into: the ones past the tree, and those of the
      first second-level index sector but its first, for which grow_double_indirect tries to
      allocate the double-indirect sector again. */
  predicate OutOfReach(k: nat) {
    FIRST_DOUBLE < k < FIRST_DOUBLE + ENTRIES || MAX_BLOCKS <= k
  }

  /** Growth from c0 to c blocks stays within reach. */
  ghost predicate CanGrow(c0: nat, c: nat) {
    forall k | c0 <= k < c :: !OutOfReach(k)
  }

  /** The sectors block k takes: its own and those of new index nodes. */
  function Cost(k: nat): nat {
    if k < NUM_DIRECT then 1
    else if k == FIRST_DOUBLE then 3
    else if (k - NUM_DIRECT) % ENTRIES == 0 then 2
    else 1
  }

  /** The sectors blocks c0 .. c take. */
  function CostOf(c0: nat, c: nat): nat {
    if c <= c0 then 0 else CostOf(c0, c - 1) + Cost(c - 1)
  }

  lemma CostIsNodes(k: nat)
    ensures k < MAX_BLOCKS ==> |BlockNodes(k, false)| == Cost(k)
    ensures !OutOfReach(k) ==> BlockNodes(k, true) == BlockNodes(k, false)
  {}

  lemma {:induction false} OrderCost(c0: nat, c: nat, growing: bool)
    requires c <= MAX_BLOCKS && (growing ==> CanGrow(c0, c))
    ensures |Order(c0, c, growing)| == CostOf(c0, c)
  {
    if c0 < c {
      OrderCost(c0, c - 1, growing);
      CostIsNodes(c - 1);
    }
  }

  /** An order in two parts. */
  lemma {:induction false} OrderSplit(c0: nat, k: nat, c: nat, growing: bool)
    requires c0 <= k <= c
    ensures Order(c0, c, growing) == Order(c0, k, growing) + Order(k, c, growing)
  {
    hide BlockNodes;
    if k < c {
      OrderSplit(c0, k, c - 1, growing);
    }
  }

  lemma NeededStep(n: Node, k: nat, growing: bool)
    requires k < MAX_BLOCKS
    ensures Needed(n, k + 1) <==> Needed(n, k) || n in BlockNodes(k, growing)
  {}

  lemma {:induction false} OrderNodes(c0: nat, c: nat, growing: bool, n: Node)
    requires c0 <= c <= MAX_BLOCKS
    ensures Needed(n, c) <==> Needed(n, c0) || n in Order(c0, c, growing)
  {
    hide BlockNodes, Needed;
    if c0 < c {
      OrderNodes(c0, c - 1, growing, n);
      NeededStep(n, c - 1, growing);
    }
  }

  /** What has to be true of node ns[j] for it not to stop a run by itself: it is a node, new,
      and below one that is there by then. */
  ghost predicate Proper(c0: nat, ns: seq<Node>, j: nat)
    requires j < |ns|
  {
    && IsNode(ns[j]) && ns[j] != Header && !Needed(ns[j], c0) && ns[j] !in ns[..j]
    && (Needed(Parent(ns[j]), c0) || Parent(ns[j]) in ns[..j])
  }

  lemma BlockProper(k: nat, growing: bool, i: nat)
    requires k < MAX_BLOCKS && (growing ==> !OutOfReach(k)) && i < |BlockNodes(k, growing)|
    ensures Proper(k, BlockNodes(k, growing), i)
  {}

  lemma {:induction false} OrderProper(c0: nat, c: nat, growing: bool, j: nat)
    requires c0 <= c <= MAX_BLOCKS && (growing ==> CanGrow(c0, c)) && j < |Order(c0, c, growing)|
    ensures Proper(c0, Order(c0, c, growing), j)
  {
    hide BlockNodes, Needed, Parent;
    var before, b := Order(c0, c - 1, growing), BlockNodes(c - 1, growing);
    var ns := Order(c0, c, growing);
    assert ns == before + b;
    if j < |before| {
      OrderProper(c0, c - 1, growing, j);
      assert ns[..j] == before[..j];
    } else {
      var i := j - |before|;
      BlockProper(c - 1, growing, i);
      assert ns[..j] == before + b[..i] && ns[j] == b[i];
      OrderNodes(c0, c - 1, growing, b[i]);
      OrderNodes(c0, c - 1, growing, Parent(b[i]));
    }
  }

  /** A whole run of an order makes a file of c0 blocks one of c. */
  lemma RunNodes(v: Volume, h: nat, c0: nat, c: nat, growing: bool, cached: set<nat>)
    requires Layout(v) && HasNodes(v, h, c0) && c0 <= c && c0 <= MAX_BLOCKS
    requires Run(v, h, Order(c0, c, growing), growing, cached).o == Ok
    ensures c <= MAX_BLOCKS && HasNodes(Run(v, h, Order(c0, c, growing), growing, cached).v, h, c)
  {
    hide Owned, Wired, Run, FreeList, Needed, Order, BlockNodes;
    var ns := Order(c0, c, growing);
    RunPlaces(v, h, ns, growing, cached);
    var r := Run(v, h, ns, growing, cached).v;
    var past := Key(h, Data(MAX_BLOCKS));
    assert past.n in ns ==> past in r.loc;
    if c > MAX_BLOCKS {
      DataIn(c0, MAX_BLOCKS, c, growing);
    }
    forall n ensures Key(h, n) in r.loc <==> Needed(n, c) {
      OrderNodes(c0, c, growing, n);
    }
  }

  lemma EndsInData(k: nat, growing: bool)
    ensures Data(k) in BlockNodes(k, growing)
  {}

  lemma {:induction false} DataIn(c0: nat, k: nat, c: nat, growing: bool)
    requires c0 <= k < c
    ensures Data(k) in Order(c0, c, growing)
  {
    hide BlockNodes;
    if k < c - 1 {
      DataIn(c0, k, c - 1, growing);
    } else {
      EndsInData(k, growing);
    }
  }

  // ---- Sectors with nothing in them ----

  /** The first n sectors to be handed out are empty once cleared. */
  ghost predicate Fresh(v: Volume, cached: set<nat>, n: nat) {
    forall i | 0 <= i < n && i < |FreeList(v.used)| ::
      FreeList(v.used)[i] < |v.disk| && Cleared(v.disk, cached, FreeList(v.used)[i]) == ZERO
  }

  /** A run over such sectors leaves the words of absent nodes zero. */
  lemma {:induction false} RunTidy(v: Volume, h: nat, ns: seq<Node>, growing: bool, cached: set<nat>)
    requires Layout(v) && Tidy(v.disk, v.loc) && Fresh(v, cached, |ns|)
    ensures var r := Run(v, h, ns, growing, cached).v; Shape(r) && Tidy(r.disk, r.loc)
  {
    hide Owned, Wired, Tidy, FreeList, Step, Extends;
    if ns != [] {
      var ms, n := ns[..|ns| - 1], ns[|ns| - 1];
      RunTidy(v, h, ms, growing, cached);
      var b := Run(v, h, ms, growing, cached);
      if b.o == Ok {
        RunPlaces(v, h, ms, growing, cached);
        RunExtends(v, h, ms, growing, cached);
        if |ms| < |FreeList(v.used)| {
          FreeListFacts(b.v.used);
          SameFree(v, b.v, h, cached, FreeList(b.v.used)[0]);
        }
        StepTidy(b.v, h, n, growing, cached);
      }
    }
  }

  lemma StepTidy(v: Volume, h: nat, n: Node, growing: bool, cached: set<nat>)
    requires Layout(v) && Tidy(v.disk, v.loc)
    requires FreeList(v.used) != [] ==>
               FreeList(v.used)[0] < |v.disk| && Cleared(v.disk, cached, FreeList(v.used)[0]) == ZERO
    ensures var r := Step(v, h, n, growing, cached).v; Shape(r) && Tidy(r.disk, r.loc)
  {
    hide Owned, Wired, Tidy, FreeList, Placed, Open, WordOf;
    if Open(v, h, n) && FreeList(v.used) != [] {
      FirstIsLowest(v.used);
      PlacedTidy(v, h, n, FreeList(v.used)[0], cached);
    }
  }

  /** Over such sectors only words that were there before can be found nonzero. */
  lemma FreshWord(v: Volume, h: nat, ns: seq<Node>, j: nat, cached: set<nat>)
    requires Layout(v) && Fresh(v, cached, |ns|) && j < |ns| && j <= |FreeList(v.used)|
    requires IsNode(ns[j]) && ns[j] != Header && (Key(h, Parent(ns[j])) in v.loc || Parent(ns[j]) in ns[..j])
    ensures WordFound(v, h, ns, j, cached) == if Key(h, Parent(ns[j])) in v.loc then WordOf(v, h, ns[j]) else 0
  {
    hide Layout, WordOf, FreeList, Word;
    FreeListFacts(v.used);
    WordOfZero(Slot(ns[j]));
  }

  lemma TidyWord(v: Volume, h: nat, n: Node)
    requires Layout(v) && Tidy(v.disk, v.loc) && Open(v, h, n)
    ensures WordOf(v, h, n) == 0
  {}

  /** Growth, over sectors with nothing in them, fails an assertion exactly when it gets to a
      block out of reach. */
  lemma GrowthStops(v: Volume, h: nat, c: nat, d: nat, cached: set<nat>)
    requires Layout(v) && Tidy(v.disk, v.loc) && HasNodes(v, h, c) && c <= d && c <= MAX_BLOCKS
    requires Fresh(v, cached, |Order(c, d, true)|)
    ensures SomeStop(v, h, Order(c, d, true), true, cached) <==> MeetsBarrier(c, d, FreeCount(v.used))
  {
    hide Layout, Tidy, Stops, Order, FreeList, Fresh, HasNodes, OutOfReach;
    var ns := Order(c, d, true);
    if MeetsBarrier(c, d, FreeCount(v.used)) {
      var k :| c <= k < d && OutOfReach(k) && CanGrow(c, k) && CostOf(c, k) <= FreeCount(v.used);
      BarrierStops(v, h, c, k, d, cached);
    }
    if SomeStop(v, h, ns, true, cached) {
      var j: nat :| j < |ns| && Stops(v, h, ns, j, true, cached);
      StopAtBarrier(v, h, c, d, cached, j);
    }
  }

  /** Growth from c to d blocks gets to a block out of reach before `free` sectors are used up. */
  ghost predicate MeetsBarrier(c: nat, d: nat, free: nat) {
    exists k | c <= k < d :: OutOfReach(k) && CanGrow(c, k) && CostOf(c, k) <= free
  }

  lemma BarrierHere(k: nat, free: nat)
    ensures MeetsBarrier(k, k + 1, free) <==> OutOfReach(k)
  {
    hide OutOfReach, Cost;
    assert CostOf(k, k) == 0 && CanGrow(k, k);
  }

  lemma BarrierStops(v: Volume, h: nat, c: nat, k: nat, d: nat, cached: set<nat>)
    requires Layout(v) && HasNodes(v, h, c) && c <= k < d && c <= MAX_BLOCKS
    requires OutOfReach(k) && CanGrow(c, k) && CostOf(c, k) <= FreeCount(v.used)
    ensures SomeStop(v, h, Order(c, d, true), true, cached)
  {
    hide Layout, FreeList, Order, WordFound;
    var ns, j := Order(c, d, true), |Order(c, k, true)|;
    WithinTree(c, k);
    OrderCost(c, k, true);
    OrderSplit(c, k, d, true);
    FirstOfBlock(k, d);
    assert ns[..j] == Order(c, k, true) && ns[j] == BlockNodes(k, true)[0];
    OrderNodes(c, k, true, Double);
    assert Stops(v, h, ns, j, true, cached);
  }

  lemma WithinTree(c: nat, k: nat)
    requires c <= k && c <= MAX_BLOCKS && CanGrow(c, k)
    ensures k <= MAX_BLOCKS
  {
    if k > c {
      assert !OutOfReach(k - 1);
    }
  }

  lemma {:induction false} FirstOfBlock(k: nat, d: nat)
    requires k < d
    ensures |Order(k, d, true)| > 0 && Order(k, d, true)[0] == BlockNodes(k, true)[0]
  {
    if k + 1 < d {
      FirstOfBlock(k, d - 1);
    }
  }

  lemma StopAtBarrier(v: Volume, h: nat, c: nat, d: nat, cached: set<nat>, j: nat)
    requires Layout(v) && Tidy(v.disk, v.loc) && HasNodes(v, h, c) && c <= d && c <= MAX_BLOCKS
    requires Fresh(v, cached, |Order(c, d, true)|) && j < |Order(c, d, true)|
    requires Stops(v, h, Order(c, d, true), j, true, cached)
    ensures MeetsBarrier(c, d, FreeCount(v.used))
  {
    hide Layout, Tidy, FreeList, Order, OutOfReach, Stops, HasNodes, Fresh;
    var k := FirstOut(c, d);
    WithinTree(c, k);
    OrderCost(c, k, true);
    OrderSplit(c, k, d, true);
    var ns, ms := Order(c, d, true), Order(c, k, true);
    assert k == d ==> ns == ms;
    if j < |ms| {
      OrderProper(c, k, true, j);
      assert ns[..j] == ms[..j];
      ProperGoesOn(v, h, c, ns, cached, j);
    }
    FewEnough(v, h, ns, j, true, cached);
  }

  lemma FewEnough(v: Volume, h: nat, ns: seq<Node>, j: nat, growing: bool, cached: set<nat>)
    requires Layout(v) && j < |ns| && Stops(v, h, ns, j, growing, cached)
    ensures j <= FreeCount(v.used)
  {}

  lemma ProperGoesOn(v: Volume, h: nat, c: nat, ns: seq<Node>, cached: set<nat>, j: nat)
    requires Layout(v) && Tidy(v.disk, v.loc) && HasNodes(v, h, c) && Fresh(v, cached, |ns|)
    requires j < |ns| && Proper(c, ns, j)
    ensures !Stops(v, h, ns, j, true, cached)
  {
    hide Layout, Tidy, FreeList, WordFound, WordOf, Fresh;
    if j <= FreeCount(v.used) {
      FreshWord(v, h, ns, j, cached);
      if Key(h, Parent(ns[j])) in v.loc {
        TidyWord(v, h, ns[j]);
      }
    }
  }

  /** The first block out of reach, or d. */
  lemma {:induction false} FirstOut(c: nat, d: nat) returns (k: nat)
    requires c <= d
    ensures c <= k <= d && CanGrow(c, k) && (k < d ==> OutOfReach(k))
    decreases d - c
  {
    if c == d || OutOfReach(c) {
      k := c;
    } else {
      k := FirstOut(c + 1, d);
    }
  }

  /** A nonzero direct word of the header stops creation, whatever the sectors hold that it gets. */
  lemma HeaderStops(v: Volume, h: nat, c: nat, cached: set<nat>, i: nat)
    requires Layout(v) && HasNodes(v, h, 0) && h < |v.disk| && v.loc[Key(h, Header)] == h
    requires i < NUM_DIRECT && i < c && i <= FreeCount(v.used) && Word(v.disk[h], i) != 0
    ensures SomeStop(v, h, Order(0, c, false), false, cached)
  {
    hide Layout, Stops, Order, FreeList, Word, HasNodes;
    DirectFirst(c, i);
    DirectStops(v, h, Order(0, c, false), cached, i);
  }

  /** Creation, over data and index sectors with nothing in them, fails an assertion exactly when
      a direct word of the header is nonzero and the sectors before it are to be had. */
  lemma CreationStops(v: Volume, h: nat, c: nat, cached: set<nat>)
    requires Layout(v) && HasNodes(v, h, 0) && c <= MAX_BLOCKS && h < |v.disk| && v.loc[Key(h, Header)] == h
    requires Fresh(v, cached, |Order(0, c, false)|)
    ensures SomeStop(v, h, Order(0, c, false), false, cached) <==>
              exists i: nat :: i < NUM_DIRECT && i < c && i <= FreeCount(v.used) && Word(v.disk[h], i) != 0
  {
    hide Layout, Stops, Order, FreeList, Fresh, Word, HasNodes;
    var ns := Order(0, c, false);
    forall i: nat | i < NUM_DIRECT && i < c && i <= FreeCount(v.used) && Word(v.disk[h], i) != 0
      ensures SomeStop(v, h, ns, false, cached)
    {
      HeaderStops(v, h, c, cached, i);
    }
    forall j: nat | j < |ns| && Stops(v, h, ns, j, false, cached)
      ensures exists i: nat :: i < NUM_DIRECT && i < c && i <= FreeCount(v.used) && Word(v.disk[h], i) != 0
    {
      StopsAtDirect(v, h, c, cached, j);
      FewEnough(v, h, ns, j, false, cached);
      assert Word(v.disk[h], j) != 0;
    }
  }

  lemma {:induction false} DirectFirst(c: nat, i: nat)
    requires i < c && i < NUM_DIRECT
    ensures i < |Order(0, c, false)| && Order(0, c, false)[i] == Data(i)
    ensures i == c - 1 ==> |Order(0, c, false)| == c
  {
    if c > 1 && i < c - 1 {
      DirectFirst(c - 1, i);
    } else if c > 1 {
      DirectFirst(c - 1, c - 2);
    }
  }

  lemma DirectStops(v: Volume, h: nat, ns: seq<Node>, cached: set<nat>, i: nat)
    requires Layout(v) && HasNodes(v, h, 0) && h < |v.disk| && v.loc[Key(h, Header)] == h
    requires i < |ns| && ns[i] == Data(i) && i < NUM_DIRECT && i <= FreeCount(v.used) && Word(v.disk[h], i) != 0
    ensures Stops(v, h, ns, i, false, cached)
  {
    hide Layout, FreeList, Word;
  }

  lemma StopsAtDirect(v: Volume, h: nat, c: nat, cached: set<nat>, j: nat)
    requires Layout(v) && HasNodes(v, h, 0) && c <= MAX_BLOCKS && h < |v.disk| && v.loc[Key(h, Header)] == h
    requires Fresh(v, cached, |Order(0, c, false)|)
    requires j < |Order(0, c, false)| && Stops(v, h, Order(0, c, false), j, false, cached)
    ensures j < NUM_DIRECT && j < c && Word(v.disk[h], j) != 0
  {
    hide Layout, FreeList, Word, Order, Fresh, WordFound;
    var ns := Order(0, c, false);
    OrderProper(0, c, false, j);
    FreshWord(v, h, ns, j, cached);
    assert ns[j].Data? && Parent(ns[j]) == Header;
    OrderNodes(0, c, false, ns[j]);
    DirectFirst(c, ns[j].k);
    OnlyOnce(c, j, ns[j].k);
  }

  /** No node comes twice. */
  lemma OnlyOnce(c: nat, i: nat, j: nat)
    requires c <= MAX_BLOCKS && i < |Order(0, c, false)| && j < |Order(0, c, false)|
    requires Order(0, c, false)[i] == Order(0, c, false)[j]
    ensures i == j
  {
    hide Order, Needed, Parent;
    OrderProper(0, c, false, i);
    OrderProper(0, c, false, j);
  }
}

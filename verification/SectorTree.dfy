/** The sector tree of a file (src/filesys/inode.c) on a volume with a free map
    (src/filesys/free-map.c): what every sector holds, who owns it, and how attaching one
    sector to a tree keeps all of that true. */
module SectorTree {
  import opened Bytes

  const NUM_DIRECT := 60
  const NUM_SINGLE := 40
  const ENTRIES := 128
  const INODE_MAGIC := 0x494e4f44
  const FIRST_DOUBLE := 5180             // NUM_DIRECT + NUM_SINGLE * ENTRIES
  const MAX_BLOCKS := 21564              // FIRST_DOUBLE + ENTRIES * ENTRIES
  const LENGTH_WORD := 101
  const MAGIC_WORD := 102
  const B32 := 0x1_0000_0000

  // Index sectors and headers are read as little-endian words.

  const ZERO: Sector := Zeros(SECTOR_SIZE)

  function Word(s: Sector, i: nat): (w: nat)
    requires i < ENTRIES
    ensures w < B32
  {
    s[4 * i] as int + 256 * s[4 * i + 1] as int + 65536 * s[4 * i + 2] as int + 16777216 * s[4 * i + 3] as int
  }

  function PutWord(s: Sector, i: nat, w: nat): Sector
    requires i < ENTRIES && w < B32
  {
    s[4 * i := w % 256][4 * i + 1 := w / 256 % 256][4 * i + 2 := w / 256 / 256 % 256][4 * i + 3 := w / 256 / 256 / 256]
  }

  lemma WordOfPut(s: Sector, i: nat, w: nat, j: nat)
    requires i < ENTRIES && j < ENTRIES && w < B32
    ensures Word(PutWord(s, i, w), j) == if i == j then w else Word(s, j)
  {
    BytesOfWord(w);
    if i < j { assert 4 * i + 3 < 4 * j; }
    if j < i { assert 4 * j + 3 < 4 * i; }
  }

  lemma BytesOfWord(w: nat)
    ensures w % 256 + 256 * (w / 256 % 256) + 65536 * (w / 256 / 256 % 256) + 16777216 * (w / 256 / 256 / 256) == w
  {}

  lemma WordOfZero(j: nat)
    requires j < ENTRIES
    ensures Word(ZERO, j) == 0
  {}

  // ---- The tree of a file ----

  /** The sectors a file can own: its header, its data blocks, its single-indirect index
      sectors, its double-indirect index sector and the index sectors that one points at. */
  datatype Node = Header | Data(k: nat) | Single(j: nat) | Double | Second(j: nat)

  predicate IsNode(n: Node) {
    match n
    case Header => true
    case Data(k) => k < MAX_BLOCKS
    case Single(j) => j < NUM_SINGLE
    case Double => true
    case Second(j) => j < ENTRIES
  }

  /** The node holding n's sector number, and the word of that node it is in. */
  function Parent(n: Node): (p: Node)
    requires n != Header && IsNode(n)
    ensures IsNode(p) && !p.Data? && p != n
  {
    match n
    case Data(k) =>
      if k < NUM_DIRECT then Header
      else if k < FIRST_DOUBLE then Single((k - NUM_DIRECT) / ENTRIES)
      else Second((k - FIRST_DOUBLE) / ENTRIES)
    case Single(j) => Header
    case Double => Header
    case Second(j) => Double
  }

  function Slot(n: Node): (i: nat)
    requires n != Header && IsNode(n)
    ensures i < ENTRIES && (Parent(n) == Header ==> i < LENGTH_WORD)
  {
    match n
    case Data(k) =>
      if k < NUM_DIRECT then k
      else if k < FIRST_DOUBLE then (k - NUM_DIRECT) % ENTRIES
      else (k - FIRST_DOUBLE) % ENTRIES
    case Single(j) => NUM_DIRECT + j
    case Double => NUM_DIRECT + NUM_SINGLE
    case Second(j) => j
  }

  /** Every node has its own word. */
  lemma SlotsDiffer(n: Node, m: Node)
    requires IsNode(n) && IsNode(m) && n != Header && m != Header
    requires Parent(n) == Parent(m) && Slot(n) == Slot(m)
    ensures n == m
  {}

  /** The nodes of a file of c blocks. */
  predicate Needed(n: Node, c: nat) {
    match n
    case Header => true
    case Data(k) => k < c
    case Single(j) => j < NUM_SINGLE && NUM_DIRECT + ENTRIES * j < c
    case Double => FIRST_DOUBLE < c
    case Second(j) => j < ENTRIES && FIRST_DOUBLE + ENTRIES * j < c
  }

  // ---- Volumes ----

  /** Node n of the file whose header is sector h. */
  datatype Key = Key(h: nat, n: Node)

  /** The disk and the free map, with the sector of every node of every file (loc) and the
      sectors handed out by the free map that are no file's node (held). `used` are the map's bits
      for the sectors of the device, `past` the bits it has behind those. */
  datatype Volume = Volume(disk: seq<Sector>, used: seq<bool>, loc: map<Key, nat>, held: set<nat>, past: seq<bool>)

  /** The bits past the device are no part of the layout. */
  lemma PastOnly(v: Volume, past: seq<bool>)
    requires Layout(v)
    ensures Layout(v.(past := past))
  {
    hide IsPlaced, Word, Parent, Slot;
  }

  ghost predicate Shape(v: Volume) {
    0 < |v.disk| == |v.used| < B32 && v.disk[0] == ZERO && InRange(v.disk, v.loc)
  }

  ghost predicate InRange(disk: seq<Sector>, loc: map<Key, nat>) {
    forall k | k in loc :: IsNode(k.n) && 0 < loc[k] < |disk|
  }

  /** No sector is shared, none is lost, and every one in use is marked. */
  ghost predicate Owned(v: Volume)
    requires Shape(v)
  {
    && (forall k | k in v.loc :: v.used[v.loc[k]] && v.loc[k] !in v.held)
    && (forall k, m | k in v.loc && m in v.loc && v.loc[k] == v.loc[m] :: k == m)
    && (forall k | k in v.loc && k.n == Header :: v.loc[k] == k.h)
    && 0 in v.held
    && (forall s | s in v.held :: s < |v.used| && v.used[s])
    && (forall s | 0 <= s < |v.used| && v.used[s] && s !in v.held :: IsPlaced(v.loc, s))
  }

  ghost predicate IsPlaced(loc: map<Key, nat>, s: nat) {
    exists k :: k in loc && loc[k] == s
  }

  /** Each node's number is in its word of its parent. */
  ghost predicate Wired(disk: seq<Sector>, loc: map<Key, nat>)
    requires InRange(disk, loc)
  {
    forall k | k in loc && k.n != Header ::
      Key(k.h, Parent(k.n)) in loc && Word(disk[loc[Key(k.h, Parent(k.n))]], Slot(k.n)) == loc[k]
  }

  /** The words of nodes that are not there are zero. */
  ghost predicate Tidy(disk: seq<Sector>, loc: map<Key, nat>)
    requires InRange(disk, loc)
  {
    forall h, n | IsNode(n) && n != Header && Key(h, n) !in loc && Key(h, Parent(n)) in loc ::
      Word(disk[loc[Key(h, Parent(n))]], Slot(n)) == 0
  }

  ghost predicate Layout(v: Volume) { Shape(v) && Owned(v) && Wired(v.disk, v.loc) }

  /** What sector s holds, seen through the buffer cache, once block_clear has written zeros to
      the device underneath it; `cached` are the sectors that have a slot then. */
  function Cleared(disk: seq<Sector>, cached: set<nat>, s: nat): Sector
    requires s < |disk|
  {
    if s in cached then disk[s] else ZERO
  }

  /** Sectors free in v' were free in v and hold the same. */
  ghost predicate FreeSame(v: Volume, v': Volume) {
    && |v'.used| == |v.used| == |v.disk| == |v'.disk|
    && forall s | 0 <= s < |v.used| && !v'.used[s] :: !v.used[s] && v'.disk[s] == v.disk[s]
  }

  /** Nodes new in v' are h's own, take sectors free in v, and hold what clearing those left. */
  ghost predicate NewNodes(v: Volume, v': Volume, h: nat, cached: set<nat>)
    requires Layout(v) && Layout(v') && |v'.disk| == |v.disk|
  {
    && (forall k | k in v'.loc && k !in v.loc :: k.h == h && !v.used[v'.loc[k]])
    && (forall k | k in v'.loc && k !in v.loc && k.n.Data? ::
          v'.disk[v'.loc[k]] == Cleared(v.disk, cached, v'.loc[k]))
  }

  /** Nodes keep their sectors, and data and other files their bytes. */
  ghost predicate NodesKept(v: Volume, v': Volume, h: nat)
    requires Layout(v) && Layout(v') && |v'.disk| == |v.disk|
  {
    && (forall k | k in v.loc :: k in v'.loc && v'.loc[k] == v.loc[k])
    && (forall k | k in v.loc && (k.h != h || k.n.Data?) :: v'.disk[v.loc[k]] == v.disk[v.loc[k]])
  }

  /** The header of h keeps its words beyond the index. */
  ghost predicate TailKept(v: Volume, v': Volume, h: nat)
    requires Layout(v) && Layout(v') && |v'.disk| == |v.disk|
  {
    Key(h, Header) in v.loc ==> forall i | LENGTH_WORD <= i < ENTRIES :: Word(v'.disk[h], i) == Word(v.disk[h], i)
  }

  /** v' extends file h of v. */
  ghost predicate Extends(v: Volume, v': Volume, h: nat, cached: set<nat>)
    requires Layout(v) && Layout(v')
  {
    && FreeSame(v, v') && v'.held == v.held && NewNodes(v, v', h, cached) && NodesKept(v, v', h) && TailKept(v, v', h)
  }

  /** The held sector s, holding d, becomes node n of file h. */
  ghost function Attached(v: Volume, h: nat, n: Node, s: nat, d: Sector): Volume
    requires Shape(v) && IsNode(n) && n != Header && Key(h, Parent(n)) in v.loc && s < |v.disk|
  {
    var p := v.loc[Key(h, Parent(n))];
    v.(disk := v.disk[p := PutWord(v.disk[p], Slot(n), s)][s := d],
       loc := v.loc[Key(h, n) := s], held := v.held - {s})
  }

  ghost predicate Attachable(v: Volume, h: nat, n: Node, s: nat) {
    && Layout(v) && IsNode(n) && n != Header
    && Key(h, Parent(n)) in v.loc && Key(h, n) !in v.loc
    && s in v.held && 0 < s < |v.disk|
  }

  lemma AttachOwned(v: Volume, h: nat, n: Node, s: nat, d: Sector)
    requires Attachable(v, h, n, s)
    ensures var v' := Attached(v, h, n, s, d); Shape(v') && Owned(v')
  {
    hide Word, PutWord, Wired, Slot;
    var v' := Attached(v, h, n, s, d);
    assert Shape(v');
    forall x | 0 <= x < |v'.used| && v'.used[x] && x !in v'.held ensures IsPlaced(v'.loc, x) {
      AttachPlaced(v, h, n, s, x);
    }
  }

  lemma AttachPlaced(v: Volume, h: nat, n: Node, s: nat, x: nat)
    requires Key(h, n) !in v.loc && (x == s || IsPlaced(v.loc, x))
    ensures IsPlaced(v.loc[Key(h, n) := s], x)
  {
    var loc := v.loc[Key(h, n) := s];
    if x == s {
      assert loc[Key(h, n)] == x;
    } else {
      var k :| k in v.loc && v.loc[k] == x;
      assert loc[k] == x;
    }
  }

  lemma AttachWired(v: Volume, h: nat, n: Node, s: nat, d: Sector)
    requires Attachable(v, h, n, s)
    ensures Layout(Attached(v, h, n, s, d))
  {
    AttachOwned(v, h, n, s, d);
    hide Owned;
    var v' := Attached(v, h, n, s, d);
    forall k | k in v'.loc && k.n != Header
      ensures Key(k.h, Parent(k.n)) in v'.loc && Word(v'.disk[v'.loc[Key(k.h, Parent(k.n))]], Slot(k.n)) == v'.loc[k]
    {
      AttachWord(v, h, n, s, d, k.h, k.n);
    }
  }

  lemma AttachTidy(v: Volume, h: nat, n: Node, s: nat, d: Sector)
    requires Attachable(v, h, n, s) && Tidy(v.disk, v.loc) && d == ZERO
    ensures var v' := Attached(v, h, n, s, d); Shape(v') && Tidy(v'.disk, v'.loc)
  {
    AttachOwned(v, h, n, s, d);
    hide Owned;
    var v' := Attached(v, h, n, s, d);
    forall h', m | IsNode(m) && m != Header && Key(h', m) !in v'.loc && Key(h', Parent(m)) in v'.loc
      ensures Word(v'.disk[v'.loc[Key(h', Parent(m))]], Slot(m)) == 0
    {
      AttachWord(v, h, n, s, d, h', m);
      WordOfZero(Slot(m));
    }
  }

  /** The word of node m of file h' after n is attached: s for n itself, what s holds below n,
      the old word everywhere else. */
  lemma AttachWord(v: Volume, h: nat, n: Node, s: nat, d: Sector, h': nat, m: Node)
    requires Attachable(v, h, n, s) && IsNode(m) && m != Header
    requires Key(h', Parent(m)) in v.loc || (h' == h && Parent(m) == n)
    ensures var v' := Attached(v, h, n, s, d);
            var q := Key(h', Parent(m));
            q in v'.loc && v'.loc[q] < |v'.disk| &&
            Word(v'.disk[v'.loc[q]], Slot(m)) ==
              if h' == h && m == n then s
              else if q == Key(h, n) then Word(d, Slot(m))
              else Word(v.disk[v.loc[q]], Slot(m))
  {
    hide Word, PutWord;
    var p := v.loc[Key(h, Parent(n))];
    WordOfPut(v.disk[p], Slot(n), s, Slot(m));
    if Key(h', Parent(m)) in v.loc && v.loc[Key(h', Parent(m))] == p && Slot(m) == Slot(n) {
      SlotsDiffer(n, m);
    }
  }

  lemma OnlyParentChanges(v: Volume, h: nat, n: Node, s: nat, d: Sector)
    requires Attachable(v, h, n, s)
    ensures forall k | k in v.loc && k != Key(h, Parent(n)) ::
              Attached(v, h, n, s, d).disk[v.loc[k]] == v.disk[v.loc[k]]
  {
    hide Wired, Word, PutWord, Slot;
  }

  lemma HeaderTail(v: Volume, h: nat, n: Node, s: nat, d: Sector)
    requires Attachable(v, h, n, s) && Key(h, Header) in v.loc
    ensures forall i | LENGTH_WORD <= i < ENTRIES :: Word(Attached(v, h, n, s, d).disk[h], i) == Word(v.disk[h], i)
  {
    hide Wired, Word, PutWord;
    forall i | LENGTH_WORD <= i < ENTRIES ensures Word(Attached(v, h, n, s, d).disk[h], i) == Word(v.disk[h], i) {
      WordOfPut(v.disk[v.loc[Key(h, Parent(n))]], Slot(n), s, i);
    }
  }

  lemma ExtendsTransitive(a: Volume, b: Volume, c: Volume, h: nat, cached: set<nat>)
    requires Layout(a) && Layout(b) && Layout(c) && Extends(a, b, h, cached) && Extends(b, c, h, cached)
    ensures Extends(a, c, h, cached)
  {
    hide Layout, NewNodes, NodesKept, TailKept;
    NewTwice(a, b, c, h, cached);
    KeptTwice(a, b, c, h);
    TailTwice(a, b, c, h);
  }

  lemma NewTwice(a: Volume, b: Volume, c: Volume, h: nat, cached: set<nat>)
    requires Layout(a) && Layout(b) && Layout(c) && FreeSame(a, b) && FreeSame(b, c)
    requires NewNodes(a, b, h, cached) && NewNodes(b, c, h, cached) && NodesKept(b, c, h)
    ensures NewNodes(a, c, h, cached)
  {
    hide Owned, Wired, Word;
    forall k | k in c.loc && k !in a.loc ensures k.h == h && !a.used[c.loc[k]] {
      assert k in b.loc ==> c.loc[k] == b.loc[k];
    }
    forall k | k in c.loc && k !in a.loc && k.n.Data?
      ensures c.disk[c.loc[k]] == Cleared(a.disk, cached, c.loc[k])
    {
      assert k in b.loc ==> c.disk[b.loc[k]] == b.disk[b.loc[k]];
    }
  }

  lemma KeptTwice(a: Volume, b: Volume, c: Volume, h: nat)
    requires Layout(a) && Layout(b) && Layout(c) && |a.disk| == |b.disk| == |c.disk|
    requires NodesKept(a, b, h) && NodesKept(b, c, h)
    ensures NodesKept(a, c, h)
  {
    hide Owned, Wired;
    forall k | k in a.loc && (k.h != h || k.n.Data?) ensures c.disk[a.loc[k]] == a.disk[a.loc[k]] {
      assert b.loc[k] == a.loc[k];
    }
  }

  lemma TailTwice(a: Volume, b: Volume, c: Volume, h: nat)
    requires Layout(a) && Layout(b) && Layout(c) && |a.disk| == |b.disk| == |c.disk|
    requires NodesKept(a, b, h) && TailKept(a, b, h) && TailKept(b, c, h)
    ensures TailKept(a, c, h)
  {
    hide Wired, Word;
  }

  lemma ExtendsReflexive(a: Volume, h: nat, cached: set<nat>)
    requires Layout(a)
    ensures Extends(a, a, h, cached)
  {}

  /** free_map_allocate hands out the first free sector; free_map_release takes one back. */
  ghost function Taken(v: Volume, s: nat): Volume
    requires s < |v.used|
  {
    v.(used := v.used[s := true], held := v.held + {s})
  }

  ghost function Released(v: Volume, s: nat): Volume
    requires s < |v.used|
  {
    v.(used := v.used[s := false], held := v.held - {s})
  }

  lemma TakeKeeps(v: Volume, s: nat)
    requires Layout(v) && s < |v.used| && !v.used[s]
    ensures Layout(Taken(v, s)) && s != 0 && s !in v.held
  {
    hide Wired, IsPlaced;
  }

  lemma ReleaseKeeps(v: Volume, s: nat)
    requires Layout(v) && s in v.held && s != 0
    ensures Layout(Released(v, s))
  {
    hide Wired, IsPlaced;
  }

  /** Node n of file h could be attached: its parent is there and it is not. */
  ghost predicate Open(v: Volume, h: nat, n: Node) {
    IsNode(n) && n != Header && Key(h, Parent(n)) in v.loc && Key(h, n) !in v.loc
  }

  /** The free sector s, cleared underneath the cache, becomes node n of file h. */
  ghost function Placed(v: Volume, h: nat, n: Node, s: nat, cached: set<nat>): Volume
    requires Layout(v) && Open(v, h, n) && s < |v.used| && !v.used[s]
  {
    Attached(Taken(v, s), h, n, s, Cleared(v.disk, cached, s))
  }

  /** Allocating a sector keeps every tree wired, whatever the sector holds. */
  lemma GrowNode(v: Volume, h: nat, n: Node, s: nat, cached: set<nat>)
    requires Layout(v) && s < |v.used| && !v.used[s] && Open(v, h, n)
    ensures var v' := Placed(v, h, n, s, cached);
            Layout(v') && Extends(v, v', h, cached) && v'.loc == v.loc[Key(h, n) := s] && v'.used == v.used[s := true]
  {
    hide Owned, Wired, Word, PutWord, Slot, Parent;
    TakeKeeps(v, s);
    var d := Cleared(v.disk, cached, s);
    AttachWired(Taken(v, s), h, n, s, d);
    OnlyParentChanges(Taken(v, s), h, n, s, d);
    if Key(h, Header) in v.loc {
      HeaderTail(Taken(v, s), h, n, s, d);
    }
    ParentUsed(v, h, n);
    ParentIsIndex(v, h, n);
  }

  lemma ParentIsIndex(v: Volume, h: nat, n: Node)
    requires Open(v, h, n)
    ensures !Parent(n).Data?
  {}

  lemma ParentUsed(v: Volume, h: nat, n: Node)
    requires Layout(v) && Open(v, h, n)
    ensures var p := v.loc[Key(h, Parent(n))]; p < |v.used| && v.used[p]
  {}

  /** The word of node m in its parent. */
  ghost function WordOf(v: Volume, h: nat, m: Node): nat
    requires Shape(v) && IsNode(m) && m != Header && Key(h, Parent(m)) in v.loc
  {
    Word(v.disk[v.loc[Key(h, Parent(m))]], Slot(m))
  }

  lemma PlacedWord(v: Volume, h: nat, n: Node, s: nat, cached: set<nat>, m: Node)
    requires Layout(v) && s < |v.used| && !v.used[s] && Open(v, h, n)
    requires IsNode(m) && m != Header && m != n && (Key(h, Parent(m)) in v.loc || Parent(m) == n)
    ensures var v' := Placed(v, h, n, s, cached);
            Shape(v') && Key(h, Parent(m)) in v'.loc &&
            WordOf(v', h, m) == if Parent(m) == n then Word(Cleared(v.disk, cached, s), Slot(m)) else WordOf(v, h, m)
  {
    hide Owned, Wired, Word, PutWord;
    TakeKeeps(v, s);
    AttachWired(Taken(v, s), h, n, s, Cleared(v.disk, cached, s));
    AttachWord(Taken(v, s), h, n, s, Cleared(v.disk, cached, s), h, m);
  }

  lemma PlacedTidy(v: Volume, h: nat, n: Node, s: nat, cached: set<nat>)
    requires Layout(v) && s < |v.used| && !v.used[s] && Open(v, h, n) && Tidy(v.disk, v.loc)
    requires Cleared(v.disk, cached, s) == ZERO
    ensures var v' := Placed(v, h, n, s, cached); Shape(v') && Tidy(v'.disk, v'.loc)
  {
    hide Owned, Wired, Word, PutWord;
    TakeKeeps(v, s);
    AttachTidy(Taken(v, s), h, n, s, ZERO);
  }

  // ---- Whole files ----

  /** File h owns exactly the nodes of a file of c blocks. */
  ghost predicate HasNodes(v: Volume, h: nat, c: nat) {
    forall n :: Key(h, n) in v.loc <==> Needed(n, c)
  }

  function Blocks(length: nat): nat { (length + SECTOR_SIZE - 1) / SECTOR_SIZE }

  const MAX_BYTES := MAX_BLOCKS * SECTOR_SIZE

  /** Byte p of file h, for a block it owns. */
  ghost function ByteAt(v: Volume, h: nat, p: nat): byte
    requires Shape(v) && Key(h, Data(p / SECTOR_SIZE)) in v.loc
  {
    v.disk[v.loc[Key(h, Data(p / SECTOR_SIZE))]][p % SECTOR_SIZE]
  }

  /** File h has the blocks of a file of `length` bytes. */
  ghost predicate HasData(v: Volume, h: nat, length: nat) {
    forall k: nat | k < Blocks(length) :: Key(h, Data(k)) in v.loc
  }

  /** Their bytes. */
  ghost function Content(v: Volume, h: nat, length: nat): (c: seq<byte>)
    requires Layout(v) && HasData(v, h, length)
    ensures |c| == length
  {
    seq(length, p requires 0 <= p < length => ByteAt(v, h, p))
  }

  /** File h is `length` bytes long: its tree has the nodes that takes and its header says so. */
  ghost predicate Headed(v: Volume, h: nat, length: nat)
    requires Layout(v)
    ensures Headed(v, h, length) ==> HasData(v, h, length)
  {
    && length <= MAX_BYTES && h < |v.disk|
    && HasNodes(v, h, Blocks(length))
    && Word(v.disk[h], LENGTH_WORD) == length && Word(v.disk[h], MAGIC_WORD) == INODE_MAGIC
  }

  /** ... and the bytes of its last block beyond the end are zero. */
  ghost predicate FileOk(v: Volume, h: nat, length: nat)
    requires Layout(v)
    ensures FileOk(v, h, length) ==> HasData(v, h, length)
  {
    Headed(v, h, length) && forall p | length <= p < SECTOR_SIZE * Blocks(length) :: ByteAt(v, h, p) == 0
  }
}

/** Files over the sector tree (src/filesys/inode.c) and the free map (src/filesys/free-map.c).

    The model works on one logical sector store: the buffer cache is transparent here (it
    has its own model in BufferCache), except for block_clear, which writes the device
    underneath it. Operations that clear sectors are told which sectors have a slot in the
    cache when they are cleared; such a sector goes on showing its old contents
    (BufferCache.UnderneathTheCache). Pointers into a sector, such as the &data->direct[i]
    the source passes around, are a sector number and a word index. */
module FileStore {
  import opened Bitmaps
  import opened Bytes
  import opened Growth
  import opened Options
  import opened SectorTree

  /** The map's first clear bit is the first of the free sectors; when the device has none it is
      the first clear one behind the device's bits. */
  lemma FirstOfMap(used: seq<bool>, past: seq<bool>)
    ensures FirstGroup(used + past, 0, 1, false)
            == if FreeList(used) != [] then Some(FreeList(used)[0])
               else if FreeList(past) != [] then Some(|used| + FreeList(past)[0]) else None
  {
    hide FreeList, FirstGroup, Group;
    var bits := used + past;
    var r := FirstGroup(bits, 0, 1, false);
    var end := if r.Some? then r.value else |bits|;
    MapBits(used, past);
    forall t | 0 <= t < |used| && t < end ensures used[t] {
      assert used[t] == bits[t];
    }
    forall t | 0 <= t < |past| && |used| + t < end ensures past[t] {
      assert past[t] == bits[|used| + t];
    }
    if r.Some? && r.value < |used| {
      TakeFirst(used, r.value);
    } else {
      NoneFree(used);
      if r.Some? {
        TakeFirst(past, r.value - |used|);
      } else {
        NoneFree(past);
      }
    }
  }

  function Least(a: nat, b: nat): nat { if a < b then a else b }

  lemma MapBits(used: seq<bool>, past: seq<bool>)
    ensures var bits := used + past;
            match FirstGroup(bits, 0, 1, false)
            case None => forall k | 0 <= k < |bits| :: bits[k]
            case Some(s) => s < |bits| && !bits[s] && forall k | 0 <= k < s :: bits[k]
  {
    var bits := used + past;
    var r := FirstGroup(bits, 0, 1, false);
    var end := if r.Some? then r.value else |bits|;
    forall t | 0 <= t < end ensures bits[t] {
      assert !Group(bits, t, 1, false);
    }
    assert r.Some? ==> Group(bits, r.value, 1, false) && !bits[r.value];
  }

  /** Setting the map's first clear bit takes a sector of the device, or marks one behind it. */
  lemma MapTaken(v: Volume, s: nat)
    requires Layout(v) && FirstGroup(v.used + v.past, 0, 1, false) == Some(s)
    ensures s < |v.used| + |v.past|
    ensures var bits, n := SetRange(v.used + v.past, s, 1, true), |v.used|;
            && |bits| == n + |v.past| && bits == (v.used + v.past)[s := true]
            && (s < n ==> FreeList(v.used) != [] && s == FreeList(v.used)[0] && Layout(Taken(v, s))
                          && bits[..n] == v.used[s := true] && bits[n..] == v.past)
            && (s >= n ==> FreeList(v.used) == [] && (forall k | 0 <= k < n :: v.used[k])
                           && FreeList(v.past) != [] && Layout(v.(past := Marked(v.past)))
                           && bits[..n] == v.used && bits[n..] == Marked(v.past))
  {
    hide Layout, FreeList;
    var bits, n := SetRange(v.used + v.past, s, 1, true), |v.used|;
    MapBits(v.used, v.past);
    FirstOfMap(v.used, v.past);
    if FreeList(v.used) != [] {
      FirstIsLowest(v.used);
      TakeKeeps(v, s);
      assert bits[..n] == v.used[s := true] && bits[n..] == v.past;
    } else {
      PastOnly(v, Marked(v.past));
      FirstIsLowest(v.past);
      forall k | 0 <= k < n ensures v.used[k] {
        assert v.used[k] == (v.used + v.past)[k];
      }
      assert bits[..n] == v.used && bits[n..] == Marked(v.past);
    }
  }

  // ---- Data ----

  /** Node n of file h is in what was the first free sector, and that is zero unless it is cached. */
  ghost predicate TookFirst(v0: Volume, v: Volume, h: nat, n: Node, cached: set<nat>) {
    && FreeList(v0.used) != [] && Key(h, n) in v.loc && v.loc[Key(h, n)] == FreeList(v0.used)[0] < |v.disk|
    && (FreeList(v0.used)[0] !in cached ==> v.disk[FreeList(v0.used)[0]] == ZERO)
  }

  /** v differs from v1 only in file h's data, where `data` now stands at position lo. */
  ghost predicate DataWritten(v1: Volume, v: Volume, h: nat, lo: nat, data: seq<byte>)
    requires Layout(v1)
  {
    && v == v1.(disk := v.disk) && |v.disk| == |v1.disk| && v.disk[0] == v1.disk[0]
    && (forall s | 0 <= s < |v.disk| && !v1.used[s] :: v.disk[s] == v1.disk[s])
    && (forall k | k in v1.loc && (k.h != h || !k.n.Data?) :: v.disk[v1.loc[k]] == v1.disk[v1.loc[k]])
    && (forall p: nat | Key(h, Data(p / SECTOR_SIZE)) in v1.loc ::
          ByteAt(v, h, p) == if lo <= p < lo + |data| then data[p - lo] else ByteAt(v1, h, p))
  }

  /** Data sectors are no node's parent, so writing them leaves the trees alone. */
  lemma DataWriteKeepsLayout(v1: Volume, v: Volume, h: nat, lo: nat, data: seq<byte>)
    requires Layout(v1) && DataWritten(v1, v, h, lo, data)
    ensures Layout(v) && (Tidy(v1.disk, v1.loc) ==> Tidy(v.disk, v.loc))
  {
    hide Word, Slot, Owned, Wired, Tidy, ByteAt;
    SameOwned(v1, v);
    SameWired(v1, v, h);
    if Tidy(v1.disk, v1.loc) {
      SameTidy(v1, v, h);
    }
  }

  lemma SameOwned(v1: Volume, v: Volume)
    requires Shape(v1) && Owned(v1) && v == v1.(disk := v.disk) && |v.disk| == |v1.disk| && v.disk[0] == v1.disk[0]
    ensures Shape(v) && Owned(v)
  {}

  lemma SameWired(v1: Volume, v: Volume, h: nat)
    requires Layout(v1) && v == v1.(disk := v.disk) && |v.disk| == |v1.disk|
    requires forall k | k in v1.loc && (k.h != h || !k.n.Data?) :: v.disk[v1.loc[k]] == v1.disk[v1.loc[k]]
    ensures Wired(v.disk, v.loc)
  {
    hide Word, Slot, Owned;
    forall k | k in v.loc && k.n != Header
      ensures Key(k.h, Parent(k.n)) in v.loc
              && Word(v.disk[v.loc[Key(k.h, Parent(k.n))]], Slot(k.n)) == v.loc[k]
    {
      var q := Key(k.h, Parent(k.n));
      assert v.disk[v1.loc[q]] == v1.disk[v1.loc[q]];
    }
  }

  lemma SameTidy(v1: Volume, v: Volume, h: nat)
    requires Layout(v1) && Tidy(v1.disk, v1.loc) && v == v1.(disk := v.disk) && |v.disk| == |v1.disk|
    requires forall k | k in v1.loc && (k.h != h || !k.n.Data?) :: v.disk[v1.loc[k]] == v1.disk[v1.loc[k]]
    ensures Tidy(v.disk, v.loc)
  {
    hide Word, Slot, Owned, Wired;
    forall h', n | IsNode(n) && n != Header && Key(h', n) !in v.loc && Key(h', Parent(n)) in v.loc
      ensures Word(v.disk[v.loc[Key(h', Parent(n))]], Slot(n)) == 0
    {
      var q := Key(h', Parent(n));
      assert v.disk[v1.loc[q]] == v1.disk[v1.loc[q]];
    }
  }

  /** memcpy into one sector. */
  function Overwrite(s: Sector, ofs: nat, data: seq<byte>): (r: Sector)
    requires ofs + |data| <= SECTOR_SIZE
    ensures forall i | 0 <= i < SECTOR_SIZE :: r[i] == if ofs <= i < ofs + |data| then data[i - ofs] else s[i]
  {
    var r := Patched(s, ofs, data);
    assert forall i | ofs <= i < ofs + |data| :: r[i] == r[ofs..ofs + |data|][i - ofs];
    r
  }

  /** Positions that fall in the same block. */
  lemma SameBlock(p: nat, pos: nat, len: nat)
    requires pos % SECTOR_SIZE + len <= SECTOR_SIZE && pos <= p < pos + len
    ensures p / SECTOR_SIZE == pos / SECTOR_SIZE && p % SECTOR_SIZE == pos % SECTOR_SIZE + (p - pos)
  {}

  /** The volume after `chunk` is copied to position pos of file h, within one block. */
  ghost function ChunkWritten(v: Volume, h: nat, pos: nat, chunk: seq<byte>): Volume
    requires Shape(v) && Key(h, Data(pos / SECTOR_SIZE)) in v.loc && pos % SECTOR_SIZE + |chunk| <= SECTOR_SIZE
  {
    var s := v.loc[Key(h, Data(pos / SECTOR_SIZE))];
    v.(disk := v.disk[s := Overwrite(v.disk[s], pos % SECTOR_SIZE, chunk)])
  }

  lemma WriteChunk(v1: Volume, v: Volume, h: nat, lo: nat, data: seq<byte>, pos: nat, chunk: seq<byte>)
    requires Layout(v1) && Shape(v)
    requires Key(h, Data(pos / SECTOR_SIZE)) in v.loc && pos % SECTOR_SIZE + |chunk| <= SECTOR_SIZE
    requires pos == lo + |data| && DataWritten(v1, v, h, lo, data)
    ensures DataWritten(v1, ChunkWritten(v, h, pos, chunk), h, lo, data + chunk)
  {
    hide Owned, Wired, Overwrite, ByteAt, ChunkWritten;
    var v' := ChunkWritten(v, h, pos, chunk);
    ChunkElsewhere(v1, v, h, pos, chunk);
    forall p: nat | Key(h, Data(p / SECTOR_SIZE)) in v1.loc
      ensures ByteAt(v', h, p) == if lo <= p < lo + |data + chunk| then (data + chunk)[p - lo] else ByteAt(v1, h, p)
    {
      Unshared(v1, Key(h, Data(pos / SECTOR_SIZE)));
      ChunkByte(v, h, pos, chunk, p);
      Appended(data, chunk, lo, p);
    }
  }

  /** Only one data sector of file h changes. */
  lemma ChunkElsewhere(v1: Volume, v: Volume, h: nat, pos: nat, chunk: seq<byte>)
    requires Layout(v1) && Shape(v) && v == v1.(disk := v.disk) && |v.disk| == |v1.disk|
    requires Key(h, Data(pos / SECTOR_SIZE)) in v.loc && pos % SECTOR_SIZE + |chunk| <= SECTOR_SIZE
    ensures var v' := ChunkWritten(v, h, pos, chunk);
            && Shape(v') && v' == v1.(disk := v'.disk) && |v'.disk| == |v1.disk| && v'.disk[0] == v.disk[0]
            && (forall s | 0 <= s < |v.disk| && !v1.used[s] :: v'.disk[s] == v.disk[s])
            && (forall k | k in v1.loc && (k.h != h || !k.n.Data?) :: v'.disk[v1.loc[k]] == v.disk[v1.loc[k]])
  {
    hide Wired, Overwrite;
  }

  lemma Appended(data: seq<byte>, chunk: seq<byte>, lo: nat, p: nat)
    ensures lo <= p < lo + |data| ==> (data + chunk)[p - lo] == data[p - lo]
    ensures lo + |data| <= p < lo + |data| + |chunk| ==> (data + chunk)[p - lo] == chunk[p - lo - |data|]
  {}

  lemma Unshared(v: Volume, key: Key)
    requires Layout(v) && key in v.loc
    ensures 0 < v.loc[key] < |v.disk| && forall k | k in v.loc && k != key :: v.loc[k] != v.loc[key]
  {}

  lemma ChunkByte(v: Volume, h: nat, pos: nat, chunk: seq<byte>, p: nat)
    requires Shape(v) && pos % SECTOR_SIZE + |chunk| <= SECTOR_SIZE
    requires Key(h, Data(pos / SECTOR_SIZE)) in v.loc && Key(h, Data(p / SECTOR_SIZE)) in v.loc
    requires p / SECTOR_SIZE != pos / SECTOR_SIZE ==>
              v.loc[Key(h, Data(p / SECTOR_SIZE))] != v.loc[Key(h, Data(pos / SECTOR_SIZE))]
    ensures var v' := ChunkWritten(v, h, pos, chunk);
            Shape(v') && ByteAt(v', h, p) == if pos <= p < pos + |chunk| then chunk[p - pos] else ByteAt(v, h, p)
  {
    hide Overwrite;
    if pos <= p < pos + |chunk| {
      SameBlock(p, pos, |chunk|);
    }
  }

  /** inode_set_length on the header. */
  ghost function LengthSet(v: Volume, h: nat, length: nat): Volume
    requires h < |v.disk| && length < B32
  {
    v.(disk := v.disk[h := PutWord(v.disk[h], LENGTH_WORD, length)])
  }

  lemma LengthSetKeepsLayout(v: Volume, h: nat, length: nat)
    requires Layout(v) && Key(h, Header) in v.loc && length < B32
    ensures h < |v.disk| && Layout(LengthSet(v, h, length)) && v.used[h]
    ensures Tidy(v.disk, v.loc) ==> Tidy(LengthSet(v, h, length).disk, v.loc)
    ensures forall k | k in v.loc && k != Key(h, Header) :: LengthSet(v, h, length).disk[v.loc[k]] == v.disk[v.loc[k]]
    ensures Word(LengthSet(v, h, length).disk[h], LENGTH_WORD) == length
    ensures Word(LengthSet(v, h, length).disk[h], MAGIC_WORD) == Word(v.disk[h], MAGIC_WORD)
  {
    hide Word, PutWord;
    LengthOwned(v, h, length);
    hide Owned, Wired, Tidy;
    WordOfPut(v.disk[h], LENGTH_WORD, length, LENGTH_WORD);
    WordOfPut(v.disk[h], LENGTH_WORD, length, MAGIC_WORD);
    LengthWired(v, h, length);
  }

  lemma LengthWired(v: Volume, h: nat, length: nat)
    requires Layout(v) && h < |v.disk| && length < B32 && Shape(LengthSet(v, h, length))
    requires forall k | k in v.loc && v.loc[k] == h :: k.n == Header
    ensures var v' := LengthSet(v, h, length);
            Wired(v'.disk, v'.loc) && (Tidy(v.disk, v.loc) ==> Tidy(v'.disk, v'.loc))
  {
    hide Owned, Word, PutWord, Slot, Parent;
    var v' := LengthSet(v, h, length);
    forall k | k in v'.loc && k.n != Header
      ensures Key(k.h, Parent(k.n)) in v'.loc && Word(v'.disk[v'.loc[Key(k.h, Parent(k.n))]], Slot(k.n)) == v'.loc[k]
    {
      LengthElsewhere(v, h, length, Key(k.h, Parent(k.n)), k.n);
    }
    if Tidy(v.disk, v.loc) {
      forall f, n | IsNode(n) && n != Header && Key(f, n) !in v'.loc && Key(f, Parent(n)) in v'.loc
        ensures Word(v'.disk[v'.loc[Key(f, Parent(n))]], Slot(n)) == 0
      {
        LengthElsewhere(v, h, length, Key(f, Parent(n)), n);
      }
    }
  }

  lemma LengthOwned(v: Volume, h: nat, length: nat)
    requires Layout(v) && Key(h, Header) in v.loc && length < B32
    ensures h < |v.disk| && v.loc[Key(h, Header)] == h && v.used[h]
    ensures Shape(LengthSet(v, h, length)) && Owned(LengthSet(v, h, length))
    ensures forall k | k in v.loc && k != Key(h, Header) :: v.loc[k] != h
  {
    hide Word, PutWord, Wired;
    HeaderPlace(v, h);
    Unshared(v, Key(h, Header));
  }

  /** No node's word is where the length is. */
  lemma LengthElsewhere(v: Volume, h: nat, length: nat, k: Key, n: Node)
    requires Shape(v) && h < |v.disk| && length < B32 && k in v.loc && (v.loc[k] == h ==> k.n == Header)
    requires IsNode(n) && n != Header && Parent(n) == k.n
    ensures Word(LengthSet(v, h, length).disk[v.loc[k]], Slot(n)) == Word(v.disk[v.loc[k]], Slot(n))
  {
    hide Word, PutWord;
    WordOfPut(v.disk[h], LENGTH_WORD, length, Slot(n));
  }

  /** File h has the same nodes, in the same sectors, with the same bytes. */
  ghost predicate SameFile(v: Volume, v': Volume, h: nat)
    requires Layout(v) && Layout(v')
  {
    forall n :: (Key(h, n) in v.loc <==> Key(h, n) in v'.loc)
                && (Key(h, n) in v.loc ==> v'.loc[Key(h, n)] == v.loc[Key(h, n)]
                                           && v'.disk[v.loc[Key(h, n)]] == v.disk[v.loc[Key(h, n)]])
  }

  lemma SameFileHeaded(v: Volume, v': Volume, h: nat, length: nat)
    requires Layout(v) && Layout(v') && SameFile(v, v', h) && Headed(v, h, length)
    ensures Headed(v', h, length) && Content(v', h, length) == Content(v, h, length)
  {
    hide Wired, Word;
    HeaderPlace(v, h);
    HeaderPlace(v', h);
    hide Owned;
    forall p: nat | p < length ensures ByteAt(v', h, p) == ByteAt(v, h, p) {
      assert p / SECTOR_SIZE < Blocks(length);
      assert Key(h, Data(p / SECTOR_SIZE)) in v.loc;
    }
  }

  lemma SameFileOk(v: Volume, v': Volume, h: nat, length: nat)
    requires Layout(v) && Layout(v') && SameFile(v, v', h) && FileOk(v, h, length)
    ensures FileOk(v', h, length) && Content(v', h, length) == Content(v, h, length)
  {
    hide Wired, Word, Owned, Content;
    SameFileHeaded(v, v', h, length);
    forall p | length <= p < SECTOR_SIZE * Blocks(length) ensures ByteAt(v', h, p) == 0 {
      assert p / SECTOR_SIZE < Blocks(length);
      assert Key(h, Data(p / SECTOR_SIZE)) in v.loc;
      assert ByteAt(v, h, p) == 0;
    }
  }

  lemma SameFileTwice(a: Volume, b: Volume, c: Volume, h: nat)
    requires Layout(a) && Layout(b) && Layout(c) && SameFile(a, b, h) && SameFile(b, c, h)
    ensures SameFile(a, c, h)
  {
    hide Owned, Wired;
    forall n
      ensures (Key(h, n) in a.loc <==> Key(h, n) in c.loc)
              && (Key(h, n) in a.loc ==> c.loc[Key(h, n)] == a.loc[Key(h, n)]
                                         && c.disk[a.loc[Key(h, n)]] == a.disk[a.loc[Key(h, n)]])
    {
      assert Key(h, n) in a.loc <==> Key(h, n) in b.loc;
    }
  }

  /** What writing to a growable byte sequence does: the bytes land at off, a gap before
      them is zero, and the rest stays. */
  function Spliced(c: seq<byte>, off: nat, buf: seq<byte>): (r: seq<byte>)
    ensures |r| == if |c| < off + |buf| then off + |buf| else |c|
    ensures forall p | 0 <= p < |r| ::
              r[p] == if off <= p < off + |buf| then buf[p - off] else if p < |c| then c[p] else 0
  {
    seq(if |c| < off + |buf| then off + |buf| else |c|,
        p requires 0 <= p => if off <= p < off + |buf| then buf[p - off] else if p < |c| then c[p] else 0)
  }

  /** Byte p of file h after growth from v0: the old byte in a block there was, and what clearing
      left in a sector that came with it. */
  ghost function GrownByte(v0: Volume, v: Volume, h: nat, cached: set<nat>, p: nat): byte
    requires Shape(v0) && Shape(v) && |v.disk| == |v0.disk| && Key(h, Data(p / SECTOR_SIZE)) in v.loc
  {
    var key := Key(h, Data(p / SECTOR_SIZE));
    if key in v0.loc then ByteAt(v0, h, p) else Cleared(v0.disk, cached, v.loc[key])[p % SECTOR_SIZE]
  }

  lemma GrownBytes(v0: Volume, v1: Volume, h: nat, cached: set<nat>, p: nat)
    requires Layout(v0) && Layout(v1) && Extends(v0, v1, h, cached) && Key(h, Data(p / SECTOR_SIZE)) in v1.loc
    ensures ByteAt(v1, h, p) == GrownByte(v0, v1, h, cached, p)
  {
    hide Owned, Wired, Word;
  }

  /** New data sectors came empty. */
  ghost predicate NewZero(v0: Volume, v1: Volume, cached: set<nat>)
    requires Shape(v0) && Shape(v1) && |v1.disk| == |v0.disk|
  {
    forall k | k in v1.loc && k !in v0.loc :: Cleared(v0.disk, cached, v1.loc[k]) == ZERO
  }

  /** The growing file then shows its old bytes and zeros after them. */
  lemma GrownZero(v0: Volume, v1: Volume, h: nat, cached: set<nat>, length: nat, p: nat)
    requires Layout(v0) && Layout(v1) && FileOk(v0, h, length) && Extends(v0, v1, h, cached)
    requires NewZero(v0, v1, cached) && Key(h, Data(p / SECTOR_SIZE)) in v1.loc
    ensures GrownByte(v0, v1, h, cached, p) == if p < length then Content(v0, h, length)[p] else 0
  {
    hide Owned, Wired, Word;
    assert Key(h, Data(p / SECTOR_SIZE)) in v0.loc <==> p / SECTOR_SIZE < Blocks(length);
  }

  lemma RunZero(v: Volume, h: nat, ns: seq<Node>, growing: bool, cached: set<nat>)
    requires Layout(v) && Fresh(v, cached, |ns|) && Run(v, h, ns, growing, cached).o == Ok
    ensures var r := Run(v, h, ns, growing, cached).v; |r.disk| == |v.disk| && NewZero(v, r, cached)
  {
    hide Owned, Wired, Run, FreeList;
    RunExtends(v, h, ns, growing, cached);
    RunPlaces(v, h, ns, growing, cached);
    var r := Run(v, h, ns, growing, cached).v;
    forall k | k in r.loc && k !in v.loc ensures Cleared(v.disk, cached, r.loc[k]) == ZERO {
      var i :| 0 <= i < |ns| && ns[i] == k.n;
      assert k == Key(h, ns[i]);
    }
  }

  /** The blocks of file h hold c and zeros after it. */
  ghost predicate Holds(v: Volume, h: nat, c: seq<byte>)
    requires Shape(v)
  {
    forall p: nat | p / SECTOR_SIZE < Blocks(|c|) ::
      Key(h, Data(p / SECTOR_SIZE)) in v.loc && ByteAt(v, h, p) == if p < |c| then c[p] else 0
  }

  lemma FileFromBytes(v: Volume, h: nat, c: seq<byte>)
    requires Layout(v) && |c| <= MAX_BYTES && HasNodes(v, h, Blocks(|c|)) && Holds(v, h, c) && h < |v.disk|
    requires Word(v.disk[h], LENGTH_WORD) == |c| && Word(v.disk[h], MAGIC_WORD) == INODE_MAGIC
    ensures FileOk(v, h, |c|) && Content(v, h, |c|) == c
  {
    hide Owned, Wired, Word;
    forall p: nat | p < SECTOR_SIZE * Blocks(|c|)
      ensures Key(h, Data(p / SECTOR_SIZE)) in v.loc && ByteAt(v, h, p) == if p < |c| then c[p] else 0
    {
      assert p / SECTOR_SIZE < Blocks(|c|);
    }
  }

  /** The whole write: grown from v0 to v1, data put in place in v2, and in v3 the length
      set if it changed. */
  ghost predicate Wrote(v0: Volume, v1: Volume, v2: Volume, v3: Volume, h: nat, cached: set<nat>, off: nat,
                        buf: seq<byte>, length: nat)
  {
    && Layout(v0) && Layout(v1) && Key(h, Header) in v0.loc && Extends(v0, v1, h, cached)
    && DataWritten(v1, v2, h, off, buf)
    && length <= MAX_BYTES && HasNodes(v1, h, Blocks(length))
    && h < |v2.disk| && (v3 == LengthSet(v2, h, length) || (v3 == v2 && Word(v2.disk[h], LENGTH_WORD) == length))
  }

  /** Whatever the sectors held that came with it: the file is as long as it should be, and each
      byte is that of the buffer or of the grown file. */
  lemma WroteHeaded(v0: Volume, v1: Volume, v2: Volume, v3: Volume, h: nat, cached: set<nat>, off: nat,
                    buf: seq<byte>, length: nat)
    requires Wrote(v0, v1, v2, v3, h, cached, off, buf, length) && h < |v0.disk|
    requires Word(v0.disk[h], MAGIC_WORD) == INODE_MAGIC
    ensures Layout(v3) && Headed(v3, h, length) && (Tidy(v1.disk, v1.loc) ==> Tidy(v3.disk, v3.loc))
    ensures v3.loc == v1.loc && v3.used == v1.used && v3.held == v0.held && |v3.disk| == |v1.disk| == |v0.disk|
    ensures FreeSame(v0, v3)
  {
    hide Owned, Wired, Word, PutWord, Tidy, ByteAt;
    DataWriteKeepsLayout(v1, v2, h, off, buf);
    WrittenHeader(v0, v1, v2, h, cached, off, buf);
    LengthSetKeepsLayout(v2, h, length);
  }

  lemma WroteByte(v0: Volume, v1: Volume, v2: Volume, v3: Volume, h: nat, cached: set<nat>, off: nat,
                  buf: seq<byte>, length: nat, p: nat)
    requires Wrote(v0, v1, v2, v3, h, cached, off, buf, length) && Key(h, Data(p / SECTOR_SIZE)) in v3.loc
    requires Layout(v3) && v3.loc == v1.loc && |v3.disk| == |v0.disk| == |v1.disk|
    ensures ByteAt(v3, h, p) ==
            if off <= p < off + |buf| then buf[p - off] else GrownByte(v0, v3, h, cached, p)
  {
    hide Owned, Wired, Word, PutWord, Extends, DataWritten, HasNodes;
    DataWriteKeepsLayout(v1, v2, h, off, buf);
    WrittenByte(v1, v2, h, off, buf, p);
    GrownBytes(v0, v1, h, cached, p);
    ExtendsFacts(v0, v1, h, cached, Key(h, Header));
    LengthSetKeepsLayout(v2, h, length);
  }

  /** Over empty sectors it is the old file with the buffer spliced in. */
  lemma WriteFinished(v0: Volume, v1: Volume, v2: Volume, v3: Volume, h: nat, cached: set<nat>, length: nat, off: nat,
                      buf: seq<byte>)
    requires Layout(v0) && FileOk(v0, h, length) && |v1.disk| == |v0.disk| && Shape(v1) && NewZero(v0, v1, cached)
    requires Wrote(v0, v1, v2, v3, h, cached, off, buf, |Spliced(Content(v0, h, length), off, buf)|)
    ensures var c := Spliced(Content(v0, h, length), off, buf);
            Layout(v3) && FileOk(v3, h, |c|) && Content(v3, h, |c|) == c
  {
    hide Owned, Wired, Word, Extends, Wrote, Holds, Content, HasNodes, FileOk, NewZero, Spliced;
    var c := Spliced(Content(v0, h, length), off, buf);
    FileFacts(v0, h, length);
    WroteHeaded(v0, v1, v2, v3, h, cached, off, buf, |c|);
    WrittenHolds(v0, v1, v2, v3, h, cached, length, off, buf);
    HeadedFacts(v3, h, |c|);
    FileFromBytes(v3, h, c);
  }

  lemma WrittenHolds(v0: Volume, v1: Volume, v2: Volume, v3: Volume, h: nat, cached: set<nat>, length: nat, off: nat,
                     buf: seq<byte>)
    requires Layout(v0) && FileOk(v0, h, length) && |v1.disk| == |v0.disk| && Shape(v1) && NewZero(v0, v1, cached)
    requires Wrote(v0, v1, v2, v3, h, cached, off, buf, |Spliced(Content(v0, h, length), off, buf)|)
    requires Layout(v3) && v3.loc == v1.loc && |v3.disk| == |v1.disk|
    ensures Holds(v3, h, Spliced(Content(v0, h, length), off, buf))
  {
    hide Owned, Wired, Word, PutWord, Extends, DataWritten, Content, GrownByte, FileOk, NewZero;
    var c := Spliced(Content(v0, h, length), off, buf);
    forall p: nat | p / SECTOR_SIZE < Blocks(|c|)
      ensures Key(h, Data(p / SECTOR_SIZE)) in v3.loc && ByteAt(v3, h, p) == if p < |c| then c[p] else 0
    {
      assert Key(h, Data(p / SECTOR_SIZE)) in v1.loc;
      GrownZero(v0, v1, h, cached, length, p);
      WroteByte(v0, v1, v2, v3, h, cached, off, buf, |c|, p);
      SameGrown(v0, v1, v3, h, cached, p);
    }
  }

  lemma SameGrown(v0: Volume, v1: Volume, v3: Volume, h: nat, cached: set<nat>, p: nat)
    requires Shape(v0) && Shape(v1) && Shape(v3) && v3.loc == v1.loc && |v3.disk| == |v1.disk| == |v0.disk|
    requires Key(h, Data(p / SECTOR_SIZE)) in v1.loc
    ensures GrownByte(v0, v3, h, cached, p) == GrownByte(v0, v1, h, cached, p)
  {}

  lemma WrittenByte(v1: Volume, v2: Volume, h: nat, off: nat, buf: seq<byte>, p: nat)
    requires Layout(v1) && DataWritten(v1, v2, h, off, buf)
    ensures v2.loc == v1.loc && v2.used == v1.used && v2.held == v1.held && |v2.disk| == |v1.disk|
    ensures Key(h, Data(p / SECTOR_SIZE)) in v1.loc ==>
              Shape(v2) && ByteAt(v2, h, p) == if off <= p < off + |buf| then buf[p - off] else ByteAt(v1, h, p)
  {}

  lemma WrittenHeader(v0: Volume, v1: Volume, v2: Volume, h: nat, cached: set<nat>, off: nat, buf: seq<byte>)
    requires Layout(v0) && Layout(v1) && Extends(v0, v1, h, cached) && Key(h, Header) in v0.loc
    requires DataWritten(v1, v2, h, off, buf)
    ensures h < |v2.disk| && h < |v0.disk| && Key(h, Header) in v2.loc
    ensures Word(v2.disk[h], MAGIC_WORD) == Word(v0.disk[h], MAGIC_WORD)
    ensures Word(v2.disk[h], LENGTH_WORD) == Word(v0.disk[h], LENGTH_WORD)
  {
    HeaderPlace(v0, h);
    HeaderPlace(v1, h);
    hide Owned, Wired, Word;
  }

  /** buf is the bytes of file h from `offset` on. */
  ghost predicate HoldsAt(v: Volume, h: nat, offset: nat, buf: seq<byte>)
    requires Shape(v)
  {
    forall p: nat | offset <= p < offset + |buf| ::
      Key(h, Data(p / SECTOR_SIZE)) in v.loc && buf[p - offset] == ByteAt(v, h, p)
  }

  lemma ReadMore(v: Volume, h: nat, offset: nat, buf: seq<byte>, chunk: seq<byte>)
    requires Shape(v) && HoldsAt(v, h, offset, buf) && HoldsAt(v, h, offset + |buf|, chunk)
    ensures HoldsAt(v, h, offset, buf + chunk)
  {}

  lemma ReadChunk(v: Volume, h: nat, length: nat, pos: nat, n: nat)
    requires Layout(v) && HasData(v, h, length)
    requires pos + n <= length && pos < length && pos % SECTOR_SIZE + n <= SECTOR_SIZE
    ensures Key(h, Data(pos / SECTOR_SIZE)) in v.loc && pos / SECTOR_SIZE < Blocks(length)
    ensures v.loc[Key(h, Data(pos / SECTOR_SIZE))] < |v.disk|
    ensures var d := v.disk[v.loc[Key(h, Data(pos / SECTOR_SIZE))]];
            HoldsAt(v, h, pos, d[pos % SECTOR_SIZE..pos % SECTOR_SIZE + n])
  {
    hide Owned, Wired, Word;
    assert pos / SECTOR_SIZE < Blocks(length);
    var d := v.disk[v.loc[Key(h, Data(pos / SECTOR_SIZE))]];
    var a := d[pos % SECTOR_SIZE..pos % SECTOR_SIZE + n];
    forall p: nat | pos <= p < pos + n
      ensures Key(h, Data(p / SECTOR_SIZE)) in v.loc && a[p - pos] == ByteAt(v, h, p)
    {
      SameBlock(p, pos, n);
    }
  }

  /** Files other than h are untouched by growth of h, by data written to it and by its
      length being set. */
  lemma OthersGrow(v0: Volume, v1: Volume, h: nat, cached: set<nat>, h': nat)
    requires Layout(v0) && Layout(v1) && Extends(v0, v1, h, cached) && h' != h
    ensures SameFile(v0, v1, h')
  {
    hide Owned, Wired, Word;
  }

  lemma OthersWrite(v1: Volume, v2: Volume, h: nat, off: nat, buf: seq<byte>, h': nat)
    requires Layout(v1) && Layout(v2) && DataWritten(v1, v2, h, off, buf) && h' != h
    ensures SameFile(v1, v2, h')
  {
    hide Owned, Wired, Word;
  }

  lemma OthersLength(v2: Volume, h: nat, length: nat, h': nat)
    requires Layout(v2) && Key(h, Header) in v2.loc && length < B32 && h' != h
    ensures h < |v2.disk| && Layout(LengthSet(v2, h, length)) && SameFile(v2, LengthSet(v2, h, length), h')
  {
    hide Owned, Wired, Word;
    LengthSetKeepsLayout(v2, h, length);
  }

  /** Every file has the nodes its length takes, and every sector that is not some file's is free,
      in the hands of a caller of the free map, or taken by an allocation that failed. */
  ghost predicate Usable(v: Volume, lengths: map<nat, nat>) {
    && Layout(v)
    && (forall h | h in lengths :: Headed(v, h, lengths[h]))
    && (forall k | k in v.loc :: k.h in lengths)
  }

  /** ... and nothing of what its sectors held before shows: the words of absent nodes and the
      bytes past the end of a file are zero. */
  ghost predicate GoodVolume(v: Volume, lengths: map<nat, nat>) {
    && Layout(v) && Tidy(v.disk, v.loc)
    && (forall h | h in lengths :: FileOk(v, h, lengths[h]))
    && (forall k | k in v.loc :: k.h in lengths)
  }

  lemma GoodIsTidy(v: Volume, lengths: map<nat, nat>)
    requires GoodVolume(v, lengths)
    ensures Layout(v) && Tidy(v.disk, v.loc)
  {}

  /** Every file other than h has the same nodes, in the same sectors, with the same bytes. */
  ghost predicate OthersKept(v0: Volume, v: Volume, lengths: map<nat, nat>, h: nat) {
    Layout(v0) && Layout(v) && forall h' | h' in lengths && h' != h :: SameFile(v0, v, h')
  }

  /** The bytes of file h. */
  ghost function FileBytes(v: Volume, lengths: map<nat, nat>, h: nat): (c: seq<byte>)
    requires Usable(v, lengths) && h in lengths
    ensures |c| == lengths[h]
  {
    Content(v, h, lengths[h])
  }

  /** Between v0 and v file h, of the given length before, came to hold c. */
  ghost predicate Became(v0: Volume, v: Volume, lengths: map<nat, nat>, h: nat, c: seq<byte>) {
    && GoodVolume(v, lengths[h := |c|]) && Usable(v, lengths[h := |c|])
    && FileBytes(v, lengths[h := |c|], h) == c && OthersKept(v0, v, lengths, h) && v.held == v0.held
  }

  lemma OthersAfterWrite(v0: Volume, v1: Volume, v2: Volume, v3: Volume, h: nat, cached: set<nat>, off: nat,
                         buf: seq<byte>, length: nat, lengths: map<nat, nat>)
    requires Wrote(v0, v1, v2, v3, h, cached, off, buf, length) && Layout(v3)
    ensures OthersKept(v0, v3, lengths, h)
  {
    hide Owned, Wired, Word, Extends, DataWritten, SameFile, PutWord, LengthSet, HasNodes;
    DataWriteKeepsLayout(v1, v2, h, off, buf);
    WrittenHeader(v0, v1, v2, h, cached, off, buf);
    LengthSetKeepsLayout(v2, h, length);
    forall h' | h' in lengths && h' != h ensures SameFile(v0, v3, h') {
      OthersGrow(v0, v1, h, cached, h');
      OthersWrite(v1, v2, h, off, buf, h');
      SameFileTwice(v0, v1, v2, h');
      OthersLength(v2, h, length, h');
      if v3 != v2 {
        SameFileTwice(v0, v2, v3, h');
      }
    }
  }

  lemma OthersAfterGrowth(v0: Volume, v1: Volume, h: nat, cached: set<nat>, lengths: map<nat, nat>)
    requires Layout(v0) && Layout(v1) && Extends(v0, v1, h, cached)
    ensures OthersKept(v0, v1, lengths, h)
  {
    hide Layout, Extends, SameFile;
    forall h' | h' in lengths && h' != h ensures SameFile(v0, v1, h') {
      OthersGrow(v0, v1, h, cached, h');
    }
  }

  /** Growth that comes to nothing leaves the file's own bytes too. */
  lemma BytesAfterGrowth(v0: Volume, v1: Volume, h: nat, cached: set<nat>, length: nat)
    requires Layout(v0) && Layout(v1) && Extends(v0, v1, h, cached) && HasData(v0, h, length)
    ensures HasData(v1, h, length) && Content(v1, h, length) == Content(v0, h, length)
  {
    hide Owned, Wired, Word;
    forall p: nat | p < length
      ensures Key(h, Data(p / SECTOR_SIZE)) in v0.loc && ByteAt(v1, h, p) == ByteAt(v0, h, p)
    {
      assert p / SECTOR_SIZE < Blocks(length);
      assert Key(h, Data(p / SECTOR_SIZE)) in v0.loc;
    }
  }

  /** The write as a whole: the volume stays usable ... */
  lemma WriteUsable(v0: Volume, v1: Volume, v2: Volume, v3: Volume, lengths: map<nat, nat>, h: nat, cached: set<nat>,
                    off: nat, buf: seq<byte>, length: nat)
    requires Usable(v0, lengths) && h in lengths && Wrote(v0, v1, v2, v3, h, cached, off, buf, length)
    ensures Usable(v3, lengths[h := length]) && OthersKept(v0, v3, lengths, h) && v3.held == v0.held
  {
    hide Owned, Wired, Word, PutWord, Wrote, Headed, SameFile, HasNodes, Extends;
    HeadedFacts(v0, h, lengths[h]);
    WroteHeaded(v0, v1, v2, v3, h, cached, off, buf, length);
    OthersAfterWrite(v0, v1, v2, v3, h, cached, off, buf, length, lengths);
    forall h' | h' in lengths && h' != h ensures Headed(v3, h', lengths[h']) {
      SameFileHeaded(v0, v3, h', lengths[h']);
    }
    WroteKeys(v0, v1, v2, v3, h, cached, off, buf, length);
  }

  lemma WroteKeys(v0: Volume, v1: Volume, v2: Volume, v3: Volume, h: nat, cached: set<nat>, off: nat,
                  buf: seq<byte>, length: nat)
    requires Wrote(v0, v1, v2, v3, h, cached, off, buf, length)
    ensures forall k | k in v3.loc :: k in v0.loc || k.h == h
  {
    hide Owned, Wired, Word, PutWord;
  }

  /** ... and over empty sectors it is a write to a growable byte sequence. */
  lemma WriteBecomes(v0: Volume, v1: Volume, v2: Volume, v3: Volume, lengths: map<nat, nat>, h: nat, cached: set<nat>,
                     off: nat, buf: seq<byte>)
    requires GoodVolume(v0, lengths) && Usable(v0, lengths) && h in lengths
    requires Layout(v1) && |v1.disk| == |v0.disk| && NewZero(v0, v1, cached) && Tidy(v1.disk, v1.loc)
    requires Wrote(v0, v1, v2, v3, h, cached, off, buf, |Spliced(FileBytes(v0, lengths, h), off, buf)|)
    ensures Became(v0, v3, lengths, h, Spliced(FileBytes(v0, lengths, h), off, buf))
  {
    hide Owned, Wired, Word, PutWord, Wrote, Content, Spliced, Headed, HasNodes, Extends, Tidy, NewZero, SameFile;
    hide ByteAt;
    var c := Spliced(FileBytes(v0, lengths, h), off, buf);
    FileFacts(v0, h, lengths[h]);
    WriteFinished(v0, v1, v2, v3, h, cached, lengths[h], off, buf);
    WroteHeaded(v0, v1, v2, v3, h, cached, off, buf, |c|);
    WriteUsable(v0, v1, v2, v3, lengths, h, cached, off, buf, |c|);
    forall h' | h' in lengths && h' != h ensures FileOk(v3, h', lengths[h']) {
      SameFileOk(v0, v3, h', lengths[h']);
    }
  }

  // ---- Allocation that came to nothing ----

  /** What a failed extension or creation, which ended in v, leaves of v0: the sectors it got stay
      marked, but no file's length reaches them any more, so they are nobody's. */
  ghost function Abandoned(v0: Volume, v: Volume): Volume
    requires |v.used| == |v0.used|
  {
    v.(loc := v0.loc, held := v0.held + set s: nat | s < |v.used| && v.used[s] && !v0.used[s])
  }

  /** v keeps the nodes of v0 and marks more sectors. */
  ghost predicate Keeps(v0: Volume, v: Volume) {
    && |v.disk| == |v0.disk| && |v.used| == |v0.used| && (forall s | 0 <= s < |v0.used| && v0.used[s] :: v.used[s])
    && forall k | k in v0.loc :: k in v.loc && v.loc[k] == v0.loc[k]
  }

  ghost predicate AllMarked(used: seq<bool>) { forall s | 0 <= s < |used| :: used[s] }

  /** Exactly the sectors marked since are held in addition, by nobody who would give them back. */
  ghost predicate Lost(used0: seq<bool>, used: seq<bool>, held0: set<nat>, held: set<nat>) {
    && |used| == |used0| && (forall s | 0 <= s < |used| && used0[s] :: used[s])
    && forall s: nat :: s in held <==> s in held0 || (s < |used| && used[s] && !used0[s])
  }

  lemma AbandonedFields(v0: Volume, v: Volume)
    requires |v.used| == |v0.used|
    ensures var a := Abandoned(v0, v); a == v.(loc := v0.loc, held := a.held)
  {}

  /** What an extension that fails leaves. */
  lemma GrowthFails(v0: Volume, lengths: map<nat, nat>, h: nat, ns: seq<Node>, cached: set<nat>)
    requires Usable(v0, lengths) && h in lengths && Layout(v0)
    requires Extends(v0, Run(v0, h, ns, true, cached).v, h, cached)
    ensures var r := Run(v0, h, ns, true, cached);
            && |r.v.used| == |v0.used| && Usable(Abandoned(v0, r.v), lengths)
            && OthersKept(v0, Abandoned(v0, r.v), lengths, h)
            && FileBytes(Abandoned(v0, r.v), lengths, h) == FileBytes(v0, lengths, h)
            && Lost(v0.used, r.v.used, v0.held, Abandoned(v0, r.v).held)
            && (Full(r.o) ==> AllMarked(r.v.used) && (r.o == OffDevice <==> FreeList(v0.past) != []))
  {
    hide Layout, Extends, Run, Usable, OthersKept, Content, HasData, Headed, Abandoned, FreeList, AllMarked;
    GrowthAbandoned(v0, Run(v0, h, ns, true, cached).v, lengths, h, cached);
    AbandonedLost(v0, Run(v0, h, ns, true, cached).v);
    if Full(Run(v0, h, ns, true, cached).o) {
      OutOfSpace(v0, h, ns, true, cached);
    }
  }

  lemma AbandonedLost(v0: Volume, v: Volume)
    requires |v.used| == |v0.used| && (forall s | 0 <= s < |v0.used| && v0.used[s] :: v.used[s])
    ensures Lost(v0.used, v.used, v0.held, Abandoned(v0, v).held)
  {}

  lemma OutOfSpace(v: Volume, h: nat, ns: seq<Node>, growing: bool, cached: set<nat>)
    requires Layout(v) && Full(Run(v, h, ns, growing, cached).o)
    ensures AllMarked(Run(v, h, ns, growing, cached).v.used)
    ensures var r := Run(v, h, ns, growing, cached); r.o == OffDevice <==> FreeList(v.past) != []
  {
    hide Layout, Run, FreeList;
    RunFull(v, h, ns, growing, cached);
    FreeListFacts(Run(v, h, ns, growing, cached).v.used);
  }

  lemma ExtendsKeeps(v0: Volume, v: Volume, h: nat, cached: set<nat>)
    requires Layout(v0) && Layout(v) && Extends(v0, v, h, cached)
    ensures Keeps(v0, v) && |v.used| == |v0.used| && forall s | 0 <= s < |v0.used| && v0.used[s] :: v.used[s]
  {
    hide Owned, Wired, Word;
  }

  lemma AbandonedOwned(v0: Volume, v: Volume)
    requires Layout(v0) && Layout(v) && Keeps(v0, v)
    ensures Shape(Abandoned(v0, v)) && Owned(Abandoned(v0, v))
  {
    hide Wired, IsPlaced;
  }

  lemma AbandonedLayout(v0: Volume, v: Volume)
    requires Layout(v0) && Layout(v) && Keeps(v0, v)
    ensures Layout(Abandoned(v0, v))
  {
    AbandonedOwned(v0, v);
    hide Owned, Word, Slot;
  }

  /** A file that is the same in v is the same after. */
  lemma AbandonedSame(v0: Volume, v: Volume, h: nat)
    requires Layout(v0) && Layout(v) && Keeps(v0, v) && SameFile(v0, v, h)
    ensures Layout(Abandoned(v0, v)) && SameFile(v0, Abandoned(v0, v), h)
  {
    hide Layout;
    AbandonedLayout(v0, v);
  }

  lemma AbandonedOthers(v0: Volume, v: Volume, lengths: map<nat, nat>, h: nat)
    requires OthersKept(v0, v, lengths, h) && Keeps(v0, v)
    ensures OthersKept(v0, Abandoned(v0, v), lengths, h)
  {
    AbandonedLayout(v0, v);
    hide Layout, SameFile;
    forall h' | h' in lengths && h' != h ensures SameFile(v0, Abandoned(v0, v), h') {
      AbandonedSame(v0, v, h');
    }
  }

  /** The file that did not grow has its old length and bytes. */
  lemma AbandonedHeaded(v0: Volume, v: Volume, h: nat, length: nat, cached: set<nat>)
    requires Layout(v0) && Layout(v) && Extends(v0, v, h, cached) && Headed(v0, h, length) && HasData(v, h, length)
    requires Content(v, h, length) == Content(v0, h, length) && Keeps(v0, v)
    ensures Layout(Abandoned(v0, v)) && Headed(Abandoned(v0, v), h, length)
    ensures Content(Abandoned(v0, v), h, length) == Content(v0, h, length)
  {
    hide Owned, Wired, Word, Keeps, Extends;
    HeadedFacts(v0, h, length);
    AbandonedLayout(v0, v);
    KeepsMeans(v0, v);
    HeaderKept(v0, v, h, cached);
    var a := Abandoned(v0, v);
    assert Headed(a, h, length);
    forall p: nat | p < length ensures ByteAt(a, h, p) == ByteAt(v0, h, p) {
      assert p / SECTOR_SIZE < Blocks(length);
      assert Key(h, Data(p / SECTOR_SIZE)) in v0.loc;
      assert Content(v, h, length)[p] == Content(v0, h, length)[p];
    }
  }

  lemma HeaderKept(v0: Volume, v: Volume, h: nat, cached: set<nat>)
    requires Layout(v0) && Layout(v) && Extends(v0, v, h, cached) && Key(h, Header) in v0.loc && h < |v0.disk|
    ensures |v.disk| == |v0.disk| && Word(v.disk[h], LENGTH_WORD) == Word(v0.disk[h], LENGTH_WORD)
    ensures Word(v.disk[h], MAGIC_WORD) == Word(v0.disk[h], MAGIC_WORD)
  {
    hide Owned, Wired, Word;
  }

  lemma KeepsMeans(v0: Volume, v: Volume)
    requires Keeps(v0, v)
    ensures forall k | k in v0.loc :: k in v.loc && v.loc[k] == v0.loc[k]
  {}

  /** So the volume stays usable when a file could not grow ... */
  lemma GrowthAbandoned(v0: Volume, v: Volume, lengths: map<nat, nat>, h: nat, cached: set<nat>)
    requires Usable(v0, lengths) && h in lengths && Layout(v) && Extends(v0, v, h, cached)
    ensures |v.used| == |v0.used| && forall s | 0 <= s < |v0.used| && v0.used[s] :: v.used[s]
    ensures Usable(Abandoned(v0, v), lengths) && OthersKept(v0, Abandoned(v0, v), lengths, h)
    ensures FileBytes(Abandoned(v0, v), lengths, h) == FileBytes(v0, lengths, h)
  {
    hide Layout, Extends, Headed, SameFile, Keeps, Content, HasData;
    UsableFacts(v0, lengths, h);
    ExtendsKeeps(v0, v, h, cached);
    BytesAfterGrowth(v0, v, h, cached, lengths[h]);
    AbandonedHeaded(v0, v, h, lengths[h], cached);
    OthersAfterGrowth(v0, v, h, cached, lengths);
    AbandonedOthers(v0, v, lengths, h);
    forall h' | h' in lengths && h' != h ensures Headed(Abandoned(v0, v), h', lengths[h']) {
      SameFileHeaded(v0, Abandoned(v0, v), h', lengths[h']);
    }
  }

  /** ... or could not be made; its header is the caller's again. */
  lemma CreationAbandoned(v0: Volume, v1: Volume, v: Volume, lengths: map<nat, nat>, h: nat, cached: set<nat>)
    requires Usable(v0, lengths) && h !in lengths && Layout(v1) && Layout(v) && Keeps(v0, v1)
    requires Extends(v1, v, h, cached) && OthersKept(v0, v, lengths, h)
    ensures |v.used| == |v0.used| && forall s | 0 <= s < |v0.used| && v0.used[s] :: v.used[s]
    ensures Usable(Abandoned(v0, v), lengths) && OthersKept(v0, Abandoned(v0, v), lengths, h)
  {
    hide Layout, Extends, Headed, SameFile;
    ExtendsKeeps(v1, v, h, cached);
    AbandonedOthers(v0, v, lengths, h);
    forall h' | h' in lengths ensures Headed(Abandoned(v0, v), h', lengths[h']) {
      SameFileHeaded(v0, Abandoned(v0, v), h', lengths[h']);
    }
  }

  // ---- Creation ----

  /** The header as inode_create first writes it, over what clearing the sector left. */
  function HeaderOn(d: Sector, length: nat): Sector
    requires length < B32
  {
    PutWord(PutWord(d, LENGTH_WORD, length), MAGIC_WORD, INODE_MAGIC)
  }

  /** inode_create's first writes: the held sector h becomes the header of an empty tree. */
  ghost function Started(v: Volume, h: nat, length: nat, cached: set<nat>): Volume
    requires h < |v.disk| && length < B32
  {
    v.(disk := v.disk[h := HeaderOn(Cleared(v.disk, cached, h), length)],
       loc := v.loc[Key(h, Header) := h], held := v.held - {h})
  }

  /** A held sector is the header of no file yet. */
  lemma HeldIsNoFile(v: Volume, lengths: map<nat, nat>, h: nat)
    requires Usable(v, lengths) && h in v.held
    ensures h !in lengths && h < |v.disk| && forall n :: Key(h, n) !in v.loc
  {
    hide Wired, Word;
    if h in lengths {
      HeadedFacts(v, h, lengths[h]);
    }
  }

  lemma StartedKeeps(v: Volume, h: nat, length: nat, cached: set<nat>)
    requires h < |v.disk| && length < B32 && Key(h, Header) !in v.loc
    ensures Keeps(v, Started(v, h, length, cached))
  {
    hide HeaderOn;
  }

  lemma StartOwned(v: Volume, h: nat, length: nat, cached: set<nat>)
    requires Layout(v) && h in v.held && 0 < h < |v.disk| && length < B32 && forall n :: Key(h, n) !in v.loc
    ensures var v' := Started(v, h, length, cached); Shape(v') && Owned(v')
  {
    hide Wired, Word, PutWord, HeaderOn;
    var v' := Started(v, h, length, cached);
    assert Shape(v');
    forall s | 0 <= s < |v'.used| && v'.used[s] && s !in v'.held ensures IsPlaced(v'.loc, s) {
      AttachPlaced(v, h, Header, h, s);
    }
  }

  lemma StartWords(d: Sector, i: nat, length: nat)
    requires i < ENTRIES && length < B32
    ensures Word(HeaderOn(d, length), i)
         == if i == LENGTH_WORD then length else if i == MAGIC_WORD then INODE_MAGIC else Word(d, i)
  {
    hide Word, PutWord;
    WordOfPut(PutWord(d, LENGTH_WORD, length), MAGIC_WORD, INODE_MAGIC, i);
    WordOfPut(d, LENGTH_WORD, length, i);
  }

  lemma StartKeeps(v: Volume, lengths: map<nat, nat>, h: nat, length: nat, cached: set<nat>)
    requires Usable(v, lengths) && h in v.held && h != 0 && length < B32
    ensures h < |v.disk| && h !in lengths
    ensures var v' := Started(v, h, length, cached);
            && Layout(v') && HasNodes(v', h, 0) && Headers(v', h, length)
            && forall h' | h' in lengths :: SameFile(v, v', h')
  {
    hide Owned, Word, PutWord, Headed, Wired, HeaderOn;
    HeldIsNoFile(v, lengths, h);
    StartOwned(v, h, length, cached);
    StartSectors(v, h, length, cached);
    StartWords(Cleared(v.disk, cached, h), LENGTH_WORD, length);
    StartWords(Cleared(v.disk, cached, h), MAGIC_WORD, length);
    StartWired(v, Started(v, h, length, cached), h, length, cached);
  }

  /** The header of file h says what it should. */
  ghost predicate Headers(v: Volume, h: nat, length: nat) {
    h < |v.disk| && Word(v.disk[h], LENGTH_WORD) == length && Word(v.disk[h], MAGIC_WORD) == INODE_MAGIC
  }

  lemma StartSectors(v: Volume, h: nat, length: nat, cached: set<nat>)
    requires Layout(v) && h in v.held && length < B32
    ensures h < |v.disk| && v.used[h]
    ensures forall k | k in v.loc :: v.loc[k] != h && Started(v, h, length, cached).disk[v.loc[k]] == v.disk[v.loc[k]]
  {
    hide Wired, Word, PutWord, HeaderOn;
  }

  lemma StartWired(v: Volume, v': Volume, h: nat, length: nat, cached: set<nat>)
    requires Layout(v) && h < |v.disk| && length < B32 && v' == Started(v, h, length, cached) && Shape(v')
    requires (forall n :: Key(h, n) !in v.loc) && forall k | k in v.loc :: v'.disk[v.loc[k]] == v.disk[v.loc[k]]
    ensures Wired(v'.disk, v'.loc)
  {
    hide Owned, Word, PutWord, HeaderOn;
    forall k | k in v'.loc && k.n != Header
      ensures Key(k.h, Parent(k.n)) in v'.loc && Word(v'.disk[v'.loc[Key(k.h, Parent(k.n))]], Slot(k.n)) == v'.loc[k]
    {
      assert k in v.loc && Key(k.h, Parent(k.n)) in v.loc;
    }
  }

  /** On an empty sector the words of absent nodes stay zero. */
  lemma StartTidy(v: Volume, lengths: map<nat, nat>, h: nat, length: nat, cached: set<nat>)
    requires GoodVolume(v, lengths) && Usable(v, lengths) && h in v.held && h != 0 && h < |v.disk| && length < B32
    requires Cleared(v.disk, cached, h) == ZERO
    ensures var v' := Started(v, h, length, cached); Shape(v') && Tidy(v'.disk, v'.loc)
  {
    hide Owned, Word, PutWord, Headed, Wired, HeaderOn, FileOk;
    HeldIsNoFile(v, lengths, h);
    StartOwned(v, h, length, cached);
    StartSectors(v, h, length, cached);
    var v' := Started(v, h, length, cached);
    forall h', n | IsNode(n) && n != Header && Key(h', n) !in v'.loc && Key(h', Parent(n)) in v'.loc
      ensures Word(v'.disk[v'.loc[Key(h', Parent(n))]], Slot(n)) == 0
    {
      if h' == h {
        StartWords(ZERO, Slot(n), length);
        WordOfZero(Slot(n));
      }
    }
  }

  /** The free sectors are the same, and so is what they hold. */
  lemma StartFree(v: Volume, h: nat, length: nat, cached: set<nat>, n: nat)
    requires Layout(v) && h in v.held && h < |v.disk| && length < B32 && Fresh(v, cached, n)
    ensures Fresh(Started(v, h, length, cached), cached, n)
  {
    hide Wired, Word, PutWord, HeaderOn, FreeList;
    FreeListFacts(v.used);
    StartSectors(v, h, length, cached);
    var v' := Started(v, h, length, cached);
    forall i | 0 <= i < n && i < |FreeList(v'.used)|
      ensures FreeList(v'.used)[i] < |v'.disk| && Cleared(v'.disk, cached, FreeList(v'.used)[i]) == ZERO
    {
      assert !v.used[FreeList(v.used)[i]];
    }
  }

  /** A tree grown on a started header: the file has its length, and its blocks hold what
      clearing their sectors left. */
  lemma CreateHeaded(v0: Volume, v1: Volume, v2: Volume, h: nat, length: nat, cached: set<nat>)
    requires Layout(v0) && h in v0.held && h < |v0.disk| && length <= MAX_BYTES && v1 == Started(v0, h, length, cached)
    requires Layout(v1) && Layout(v2) && Extends(v1, v2, h, cached) && HasNodes(v1, h, 0) && Headers(v1, h, length)
    requires HasNodes(v2, h, Blocks(length))
    ensures Headed(v2, h, length) && |v2.disk| == |v0.disk|
    ensures forall p: nat | p / SECTOR_SIZE < Blocks(length) ::
              Key(h, Data(p / SECTOR_SIZE)) in v2.loc && ByteAt(v2, h, p) == CreatedByte(v0, v2, h, cached, p)
  {
    hide Owned, Wired, Word, HeaderOn;
    assert Key(h, Header) in v1.loc;
    HeaderPlace(v1, h);
    StartSectors(v0, h, length, cached);
    forall p: nat | p / SECTOR_SIZE < Blocks(length)
      ensures Key(h, Data(p / SECTOR_SIZE)) in v2.loc && ByteAt(v2, h, p) == CreatedByte(v0, v2, h, cached, p)
    {
      assert Key(h, Data(p / SECTOR_SIZE)) in v2.loc && Key(h, Data(p / SECTOR_SIZE)) !in v1.loc;
      assert !v1.used[v2.loc[Key(h, Data(p / SECTOR_SIZE))]];
    }
  }

  /** Byte p of a file made on volume v0: what clearing left in its sector. */
  ghost function CreatedByte(v0: Volume, v: Volume, h: nat, cached: set<nat>, p: nat): byte
    requires Shape(v) && |v.disk| == |v0.disk| && Key(h, Data(p / SECTOR_SIZE)) in v.loc
  {
    Cleared(v0.disk, cached, v.loc[Key(h, Data(p / SECTOR_SIZE))])[p % SECTOR_SIZE]
  }

  /** Over empty sectors that is zero. */
  lemma CreateHolds(v1: Volume, v2: Volume, h: nat, length: nat, cached: set<nat>)
    requires Layout(v1) && Layout(v2) && Extends(v1, v2, h, cached) && HasNodes(v1, h, 0) && Headed(v2, h, length)
    requires NewZero(v1, v2, cached)
    ensures FileOk(v2, h, length) && Content(v2, h, length) == Zeros(length)
  {
    hide Owned, Wired, Word;
    forall p: nat | p / SECTOR_SIZE < Blocks(length)
      ensures Key(h, Data(p / SECTOR_SIZE)) in v2.loc && ByteAt(v2, h, p) == 0
    {
      assert Key(h, Data(p / SECTOR_SIZE)) in v2.loc && Key(h, Data(p / SECTOR_SIZE)) !in v1.loc;
    }
    FileFromBytes(v2, h, Zeros(length));
  }

  lemma CreateOthers(v0: Volume, v1: Volume, v2: Volume, h: nat, cached: set<nat>, lengths: map<nat, nat>)
    requires Layout(v0) && Layout(v1) && Layout(v2) && Extends(v1, v2, h, cached)
    requires forall h' | h' in lengths :: h' != h && SameFile(v0, v1, h')
    ensures OthersKept(v0, v2, lengths, h)
  {
    hide Layout, Extends, SameFile;
    forall h' | h' in lengths && h' != h ensures SameFile(v0, v2, h') {
      OthersGrow(v1, v2, h, cached, h');
      SameFileTwice(v0, v1, v2, h');
    }
  }

  lemma CreateUsable(v0: Volume, v2: Volume, h: nat, length: nat, lengths: map<nat, nat>)
    requires Usable(v0, lengths) && OthersKept(v0, v2, lengths, h) && h !in lengths && Headed(v2, h, length)
    requires forall k | k in v2.loc :: k in v0.loc || k.h == h
    ensures Usable(v2, lengths[h := length])
  {
    hide Layout, Headed, SameFile;
    forall h' | h' in lengths ensures Headed(v2, h', lengths[h']) {
      SameFileHeaded(v0, v2, h', lengths[h']);
    }
  }

  lemma CreateGood(v0: Volume, v2: Volume, h: nat, length: nat, lengths: map<nat, nat>)
    requires GoodVolume(v0, lengths) && OthersKept(v0, v2, lengths, h) && h !in lengths && FileOk(v2, h, length)
    requires Tidy(v2.disk, v2.loc) && forall k | k in v2.loc :: k in v0.loc || k.h == h
    ensures GoodVolume(v2, lengths[h := length])
  {
    hide Layout, FileOk, SameFile, Tidy;
    forall h' | h' in lengths ensures FileOk(v2, h', lengths[h']) {
      SameFileOk(v0, v2, h', lengths[h']);
    }
  }

  // ---- Destruction ----

  /** Sector s is one of file h's nodes in (respectively outside) the set freed. */
  ghost predicate IsFreed(v0: Volume, h: nat, freed: set<Node>, s: nat) {
    exists n :: n in freed && Key(h, n) in v0.loc && v0.loc[Key(h, n)] == s
  }

  ghost predicate IsLeft(v0: Volume, h: nat, freed: set<Node>, s: nat) {
    exists n :: n !in freed && Key(h, n) in v0.loc && v0.loc[Key(h, n)] == s
  }

  /** v is v0 on the way to losing file h: its nodes in `freed` have been given back to the
      free map, its other sectors are merely held. */
  ghost predicate Freeing(v0: Volume, v: Volume, h: nat, freed: set<Node>) {
    && Layout(v0) && Layout(v)
    && v.disk == v0.disk && v.loc == (map k | k in v0.loc && k.h != h :: v0.loc[k])
    && (forall s :: s in v.held <==> s in v0.held || IsLeft(v0, h, freed, s))
    && (forall s | 0 <= s < |v.used| :: v.used[s] <==> v0.used[s] && !IsFreed(v0, h, freed, s))
  }

  /** File h's nodes become held sectors. */
  ghost function Detached(v: Volume, h: nat): Volume {
    v.(loc := map k | k in v.loc && k.h != h :: v.loc[k], held := v.held + (set k | k in v.loc && k.h == h :: v.loc[k]))
  }

  lemma DetachOwned(v: Volume, h: nat)
    requires Layout(v)
    ensures Shape(Detached(v, h)) && Owned(Detached(v, h))
  {
    hide Wired, Word, IsPlaced;
    var v' := Detached(v, h);
    assert Shape(v');
    forall s | 0 <= s < |v'.used| && v'.used[s] && s !in v'.held ensures IsPlaced(v'.loc, s) {
      assert IsPlaced(v.loc, s);
      DetachPlaced(v, h, s);
    }
  }

  lemma DetachPlaced(v: Volume, h: nat, s: nat)
    requires IsPlaced(v.loc, s) && s !in Detached(v, h).held
    ensures IsPlaced(Detached(v, h).loc, s)
  {
    var k :| k in v.loc && v.loc[k] == s;
    assert Detached(v, h).loc[k] == s;
  }

  lemma DetachLayout(v: Volume, h: nat)
    requires Layout(v)
    ensures Layout(Detached(v, h))
  {
    DetachOwned(v, h);
    hide Owned, Word, Slot;
  }

  lemma DetachTidy(v: Volume, v': Volume, h: nat)
    requires Layout(v) && Tidy(v.disk, v.loc) && Layout(v')
    requires v'.disk == v.disk && v'.loc == (map k | k in v.loc && k.h != h :: v.loc[k])
    ensures Tidy(v'.disk, v'.loc)
  {
    hide Owned, Wired, Word, Slot;
  }

  lemma FreeStart(v: Volume, h: nat)
    requires Layout(v)
    ensures Freeing(v, Detached(v, h), h, {})
  {
    DetachLayout(v, h);
    hide Owned, Wired;
    var v' := Detached(v, h);
    forall s ensures s in v'.held <==> s in v.held || IsLeft(v, h, {}, s) {
      if s in v'.held && s !in v.held {
        var k :| k in v.loc && k.h == h && v.loc[k] == s;
        assert Key(h, k.n) in v.loc;
      }
      if IsLeft(v, h, {}, s) {
        var n :| Key(h, n) in v.loc && v.loc[Key(h, n)] == s;
        assert Key(h, n).h == h;
      }
    }
  }

  lemma FreeNode(v0: Volume, v: Volume, h: nat, freed: set<Node>, n: Node)
    requires Freeing(v0, v, h, freed) && Key(h, n) in v0.loc && n !in freed
    ensures var s := v0.loc[Key(h, n)];
            0 < s < |v.used| && s in v.held && Freeing(v0, Released(v, s), h, freed + {n})
  {
    hide Layout, IsLeft, IsFreed;
    var s := v0.loc[Key(h, n)];
    LeftIntro(v0, h, freed, n);
    NodeMarked(v0, v, Key(h, n));
    ReleaseKeeps(v, s);
    FreedAfter(v0, h, freed, n);
  }

  lemma LeftIntro(v0: Volume, h: nat, freed: set<Node>, n: Node)
    requires Key(h, n) in v0.loc && n !in freed
    ensures IsLeft(v0, h, freed, v0.loc[Key(h, n)])
  {}

  lemma NodeMarked(v0: Volume, v: Volume, key: Key)
    requires Layout(v0) && Layout(v) && v.disk == v0.disk && key in v0.loc
    ensures 0 < v0.loc[key] < |v0.used| == |v.used| && v0.used[v0.loc[key]] && v0.loc[key] !in v0.held
  {
    hide Wired;
  }

  lemma FreedAfter(v0: Volume, h: nat, freed: set<Node>, n: Node)
    requires Layout(v0) && Key(h, n) in v0.loc && n !in freed
    ensures forall x :: IsFreed(v0, h, freed + {n}, x) <==> IsFreed(v0, h, freed, x) || x == v0.loc[Key(h, n)]
    ensures forall x :: IsLeft(v0, h, freed + {n}, x) <==> IsLeft(v0, h, freed, x) && x != v0.loc[Key(h, n)]
  {
    Unshared(v0, Key(h, n));
    hide Layout, IsFreed, IsLeft;
    var s := v0.loc[Key(h, n)];
    forall x ensures IsFreed(v0, h, freed + {n}, x) <==> IsFreed(v0, h, freed, x) || x == s {
      FreedOne(v0, h, freed, n, x);
    }
    forall x ensures IsLeft(v0, h, freed + {n}, x) <==> IsLeft(v0, h, freed, x) && x != s {
      LeftOne(v0, h, freed, n, x);
    }
  }

  lemma FreedOne(v0: Volume, h: nat, freed: set<Node>, n: Node, x: nat)
    requires Key(h, n) in v0.loc
    ensures IsFreed(v0, h, freed + {n}, x) <==> IsFreed(v0, h, freed, x) || x == v0.loc[Key(h, n)]
  {
    if IsFreed(v0, h, freed, x) {
      var m :| m in freed && Key(h, m) in v0.loc && v0.loc[Key(h, m)] == x;
      assert m in freed + {n};
    }
    assert n in freed + {n};
  }

  lemma LeftOne(v0: Volume, h: nat, freed: set<Node>, n: Node, x: nat)
    requires Key(h, n) in v0.loc && forall k | k in v0.loc && k != Key(h, n) :: v0.loc[k] != v0.loc[Key(h, n)]
    ensures IsLeft(v0, h, freed + {n}, x) <==> IsLeft(v0, h, freed, x) && x != v0.loc[Key(h, n)]
  {
    if IsLeft(v0, h, freed, x) && x != v0.loc[Key(h, n)] {
      var m :| m !in freed && Key(h, m) in v0.loc && v0.loc[Key(h, m)] == x;
      assert m !in freed + {n};
    }
    if IsLeft(v0, h, freed + {n}, x) {
      var m :| m !in freed + {n} && Key(h, m) in v0.loc && v0.loc[Key(h, m)] == x;
      assert m !in freed && Key(h, m) != Key(h, n);
    }
  }

  /** Sector s is part of file h's tree. */
  ghost predicate OwnsSector(loc: map<Key, nat>, h: nat, s: nat) {
    exists n :: Key(h, n) in loc && loc[Key(h, n)] == s
  }

  /** All of h's nodes freed: exactly its sectors have gone back to the free map, whatever shows
      of old contents. */
  lemma FreeEnd(v0: Volume, v: Volume, h: nat, freed: set<Node>, lengths: map<nat, nat>)
    requires Usable(v0, lengths) && h in lengths && Freeing(v0, v, h, freed)
    requires forall n :: n in freed <==> Needed(n, Blocks(lengths[h]))
    ensures v.held == v0.held && Usable(v, lengths - {h}) && OthersKept(v0, v, lengths, h)
    ensures forall s | 0 <= s < |v.used| :: v.used[s] <==> v0.used[s] && !OwnsSector(v0.loc, h, s)
  {
    hide Layout, Headed, Content, Needed, IsFreed, IsLeft, OwnsSector, SameFile;
    HeadedFacts(v0, h, lengths[h]);
    AllFreed(v0, h, freed);
    forall h' | h' in lengths && h' != h ensures SameFile(v0, v, h') && Headed(v, h', lengths[h']) {
      DetachedSame(v0, v, h, h');
      SameFileHeaded(v0, v, h', lengths[h']);
    }
  }

  /** ... and if nothing showed, nothing does. */
  lemma FreeEndGood(v0: Volume, v: Volume, h: nat, freed: set<Node>, lengths: map<nat, nat>)
    requires GoodVolume(v0, lengths) && h in lengths && Freeing(v0, v, h, freed)
    ensures GoodVolume(v, lengths - {h})
  {
    hide Layout, FileOk, Content, IsFreed, IsLeft, Tidy, SameFile;
    DetachTidy(v0, v, h);
    forall h' | h' in lengths && h' != h ensures FileOk(v, h', lengths[h']) {
      DetachedSame(v0, v, h, h');
      SameFileOk(v0, v, h', lengths[h']);
    }
  }

  lemma AllFreed(v0: Volume, h: nat, freed: set<Node>)
    requires forall n | Key(h, n) in v0.loc :: n in freed
    ensures forall s :: IsFreed(v0, h, freed, s) <==> OwnsSector(v0.loc, h, s)
    ensures forall s :: !IsLeft(v0, h, freed, s)
  {
    forall s | OwnsSector(v0.loc, h, s) ensures IsFreed(v0, h, freed, s) {
      var n :| Key(h, n) in v0.loc && v0.loc[Key(h, n)] == s;
      assert n in freed;
    }
  }

  lemma DetachedSame(v0: Volume, v: Volume, h: nat, h': nat)
    requires Layout(v0) && Layout(v) && h' != h
    requires v.disk == v0.disk && v.loc == (map k | k in v0.loc && k.h != h :: v0.loc[k])
    ensures SameFile(v0, v, h')
  {
    hide Owned, Wired;
  }

  // ---- Runs of writes ----

  datatype Write = Write(offset: nat, data: seq<byte>)

  /** The writes applied one after the other to a byte sequence. */
  function Replayed(c: seq<byte>, writes: seq<Write>): seq<byte> {
    if writes == [] then c
    else var last := writes[|writes| - 1]; Spliced(Replayed(c, writes[..|writes| - 1]), last.offset, last.data)
  }

  lemma ReplayedNone(c: seq<byte>)
    ensures Replayed(c, []) == c
  {}

  lemma ReplayedOne(c: seq<byte>, writes: seq<Write>, i: nat)
    requires i < |writes|
    ensures Replayed(c, writes[..i + 1]) == Spliced(Replayed(c, writes[..i]), writes[i].offset, writes[i].data)
  {
    assert writes[..i + 1][..i] == writes[..i];
  }

  predicate Covers(w: Write, p: nat) { w.offset <= p < w.offset + |w.data| }

  /** Last write wins: a byte of the replayed file is the one the last write covering it put
      there; if none does it is the old byte, or zero past the old end. */
  lemma {:induction false} LastWriteWins(c: seq<byte>, writes: seq<Write>, p: nat, i: nat)
    requires p < |Replayed(c, writes)| && i <= |writes|
    requires i < |writes| ==> Covers(writes[i], p)
    requires forall j | i < j < |writes| :: !Covers(writes[j], p)
    requires i == |writes| ==> forall j | 0 <= j < |writes| :: !Covers(writes[j], p)
    ensures Replayed(c, writes)[p]
         == if i < |writes| then writes[i].data[p - writes[i].offset] else if p < |c| then c[p] else 0
  {
    if writes != [] {
      var rest := writes[..|writes| - 1];
      var before := Replayed(c, rest);
      if i != |writes| - 1 && p < |before| {
        LastWriteWins(c, rest, p, if i == |writes| then |rest| else i);
      } else if i != |writes| - 1 {
        PastTheEnd(c, rest, p);
        assert i == |writes|;
      }
    }
  }

  /** The replayed file reaches as far as its old end and as every write. */
  lemma {:induction false} PastTheEnd(c: seq<byte>, writes: seq<Write>, p: nat)
    requires |Replayed(c, writes)| <= p
    ensures |c| <= p && forall j | 0 <= j < |writes| :: !Covers(writes[j], p)
  {
    if writes != [] {
      PastTheEnd(c, writes[..|writes| - 1], p);
    }
  }

  predicate Uncovered(writes: seq<Write>, from: nat, p: nat) {
    forall j | from <= j < |writes| :: !Covers(writes[j], p)
  }

  /** Write i is the last to cover position p. */
  predicate LastCover(writes: seq<Write>, i: nat, p: nat) {
    i < |writes| && Covers(writes[i], p) && Uncovered(writes, i + 1, p)
  }

  /** After the writes file h is `length` bytes long, a byte some write covers is the one the last
      such write put there, and a byte of its first l0 that none does is as in v0. */
  ghost predicate Show(v0: Volume, v: Volume, h: nat, l0: nat, length: nat, writes: seq<Write>)
    requires Layout(v0) && Layout(v)
  {
    && l0 <= length
    && (forall i: nat, p: nat | LastCover(writes, i, p) ::
          && p < length && Key(h, Data(p / SECTOR_SIZE)) in v.loc
          && ByteAt(v, h, p) == writes[i].data[p - writes[i].offset])
    && (forall p: nat | p < l0 && Uncovered(writes, 0, p) ::
          && Key(h, Data(p / SECTOR_SIZE)) in v0.loc && Key(h, Data(p / SECTOR_SIZE)) in v.loc
          && ByteAt(v, h, p) == ByteAt(v0, h, p))
  }

  lemma NothingShows(v: Volume, h: nat, l: nat)
    requires Layout(v) && HasData(v, h, l)
    ensures Show(v, v, h, l, l, [])
  {
    hide Owned, Wired, ByteAt;
    forall p: nat | p < l ensures Key(h, Data(p / SECTOR_SIZE)) in v.loc {
      assert p / SECTOR_SIZE < Blocks(l);
    }
  }

  lemma UncoveredMore(writes: seq<Write>, w: Write, from: nat, p: nat)
    requires from <= |writes| && Uncovered(writes + [w], from, p)
    ensures Uncovered(writes, from, p) && !Covers(w, p)
  {
    var ws := writes + [w];
    assert ws[|writes|] == w;
    assert forall j | from <= j < |writes| :: ws[j] == writes[j];
  }

  /** A byte of the file the new write does not cover stays. */
  lemma StaysPut(v: Volume, v': Volume, h: nat, cached: set<nat>, length: nat, w: Write, p: nat)
    requires Layout(v) && Layout(v') && HasData(v, h, length) && p < length && !Covers(w, p)
    requires WrittenOver(v, v', h, cached, Longer(length, w.offset + |w.data|), w.offset, w.data)
    ensures Key(h, Data(p / SECTOR_SIZE)) in v.loc && Key(h, Data(p / SECTOR_SIZE)) in v'.loc
    ensures ByteAt(v', h, p) == ByteAt(v, h, p)
  {
    hide Owned, Wired;
    assert p / SECTOR_SIZE < Blocks(length);
  }

  lemma ShowCovered(v0: Volume, v: Volume, v': Volume, h: nat, cached: set<nat>, l0: nat, length: nat,
                    writes: seq<Write>, w: Write, i: nat, p: nat)
    requires Layout(v0) && Layout(v) && Layout(v') && Show(v0, v, h, l0, length, writes) && HasData(v, h, length)
    requires WrittenOver(v, v', h, cached, Longer(length, w.offset + |w.data|), w.offset, w.data)
    requires LastCover(writes + [w], i, p)
    ensures p < Longer(length, w.offset + |w.data|) && Key(h, Data(p / SECTOR_SIZE)) in v'.loc
    ensures ByteAt(v', h, p) == (writes + [w])[i].data[p - (writes + [w])[i].offset]
  {
    hide Owned, Wired, ByteAt, HasData, GrownByte;
    if i < |writes| {
      UncoveredMore(writes, w, i + 1, p);
      assert LastCover(writes, i, p);
      StaysPut(v, v', h, cached, length, w, p);
    }
  }

  /** One write more. */
  lemma ShowNext(v0: Volume, v: Volume, v': Volume, h: nat, cached: set<nat>, l0: nat, length: nat, writes: seq<Write>,
                 w: Write)
    requires Layout(v0) && Layout(v) && Layout(v') && Show(v0, v, h, l0, length, writes) && HasData(v, h, length)
    requires WrittenOver(v, v', h, cached, Longer(length, w.offset + |w.data|), w.offset, w.data)
    ensures Show(v0, v', h, l0, Longer(length, w.offset + |w.data|), writes + [w])
  {
    hide Owned, Wired, ByteAt, HasData, Uncovered, WrittenOver;
    var ws := writes + [w];
    forall i: nat, p: nat | LastCover(ws, i, p)
      ensures p < Longer(length, w.offset + |w.data|) && Key(h, Data(p / SECTOR_SIZE)) in v'.loc
      ensures ByteAt(v', h, p) == ws[i].data[p - ws[i].offset]
    {
      ShowCovered(v0, v, v', h, cached, l0, length, writes, w, i, p);
    }
    forall p: nat | p < l0 && Uncovered(ws, 0, p)
      ensures Key(h, Data(p / SECTOR_SIZE)) in v0.loc && Key(h, Data(p / SECTOR_SIZE)) in v'.loc
      ensures ByteAt(v', h, p) == ByteAt(v0, h, p)
    {
      UncoveredMore(writes, w, 0, p);
      StaysPut(v, v', h, cached, length, w, p);
    }
  }

  lemma OthersAgain(v0: Volume, v1: Volume, v2: Volume, lengths: map<nat, nat>, h: nat, l: nat)
    requires OthersKept(v0, v1, lengths, h) && OthersKept(v1, v2, lengths[h := l], h)
    ensures OthersKept(v0, v2, lengths, h)
  {
    hide Layout, SameFile;
    forall h' | h' in lengths && h' != h ensures SameFile(v0, v2, h') {
      assert h' in lengths[h := l];
      SameFileTwice(v0, v1, v2, h');
    }
  }

  /** How a write to a file of `length` bytes ends when `free` sectors, all empty, are left; `spare`
      says that the map has a clear bit past the device. */
  ghost function WriteEnds(length: nat, free: nat, spare: bool, w: Write): Outcome {
    var c, d := Blocks(length), Blocks(w.offset + |w.data|);
    if MeetsBarrier(c, d, free) then Panic
    else if CostOf(c, d) <= free then Ok
    else if spare then OffDevice else NoSpace
  }

  /** How a run of writes ends: as the first one that does not end well. */
  ghost function WritesEnd(length: nat, free: nat, spare: bool, writes: seq<Write>): Outcome
    decreases |writes|
  {
    if writes == [] then Ok
    else
      var w := writes[0];
      var o := WriteEnds(length, free, spare, w);
      if o != Ok then o
      else
        var end := w.offset + |w.data|;
        CostFits(length, free, spare, w);
        WritesEnd(if length < end then end else length, free - CostOf(Blocks(length), Blocks(end)), spare, writes[1..])
  }

  lemma CostFits(length: nat, free: nat, spare: bool, w: Write)
    requires WriteEnds(length, free, spare, w) == Ok
    ensures CostOf(Blocks(length), Blocks(w.offset + |w.data|)) <= free
  {
    hide MeetsBarrier;
  }

  class FileSystem {
    var disk: seq<Sector>
    var used: seq<bool>
    var past: seq<bool>
    ghost var loc: map<Key, nat>
    ghost var held: set<nat>
    ghost var lengths: map<nat, nat>

    ghost function Vol(): Volume
      reads this
    {
      Volume(disk, used, loc, held, past)
    }

    /** free_map_init on a blank device: sectors 0 (reserved for debugging), 1 (free map
        inode) and 2 (root directory inode) are taken. The bitmap, used + past, is four times as
        long as the device. */
    constructor (size: nat)
      requires 3 <= size < B32
      ensures Valid() && lengths == map[] && held == {0, 1, 2}
      ensures |used| == |disk| == size && |used + past| == 4 * size
      ensures forall s | 0 <= s < 4 * size :: (used + past)[s] <==> s < 3
    {
      past := seq(3 * size, _ => false);
      disk := seq(size, _ => ZERO);
      used := seq(size, s => s < 3);
      loc, held, lengths := map[], {0, 1, 2}, map[];
    }

    ghost predicate Valid()
      reads this
      ensures Valid() ==> Sturdy()
    {
      GoodVolume(Vol(), lengths) && Usable(Vol(), lengths)
    }

    /** What is left of that once a file has got sectors whose old contents show. */
    ghost predicate Sturdy()
      reads this
    {
      Usable(Vol(), lengths)
    }

    /** free_map_allocate on the in-memory bitmap: the first clear bit is set and handed out. It is
        that of a sector the device does not have exactly when every sector it has is marked. */
    method FreeMapAllocate() returns (r: Option<nat>)
      requires Layout(Vol())
      modifies `used, `held, `past
      ensures Layout(Vol()) && |used| == |old(used)| && |past| == |old(past)|
      ensures var bits := old(used) + old(past);
              if r.None? then Vol() == old(Vol()) && forall k | 0 <= k < |bits| :: bits[k]
              else r.value < |bits| && !bits[r.value] && (forall k | 0 <= k < r.value :: bits[k])
                   && used + past == bits[r.value := true]
      ensures r.None? <==> FreeList(old(used)) == [] && FreeList(old(past)) == []
      ensures r.Some? && r.value < |used| ==>
                FreeList(old(used)) != [] && r.value == FreeList(old(used))[0] && Vol() == Taken(old(Vol()), r.value)
      ensures r.Some? && r.value >= |used| ==>
                && (forall k | 0 <= k < |used| :: old(used)[k]) && FreeList(old(used)) == []
                && FreeList(old(past)) != [] && Vol() == old(Vol()).(past := Marked(old(past)))
      ensures (old(Sturdy()) ==> Sturdy()) && (old(Valid()) ==> Valid())
    {
      hide Layout, FreeList, Usable, GoodVolume, FirstGroup, SetRange, Marked;
      ghost var v := Vol();
      MapBits(used, past);
      FirstOfMap(used, past);
      r := FirstGroup(used + past, 0, 1, false);
      if r.None? {
        return;
      }
      MapTaken(v, r.value);
      var bits, n := SetRange(used + past, r.value, 1, true), |used|;
      used, past := bits[..n], bits[n..];
      if r.value < n {
        held := held + {r.value};
      }
      assert used + past == bits;
      if old(Sturdy()) {
        MarksOnly(v, Vol(), lengths);
      }
    }

    /** free_map_release. */
    method FreeMapRelease(s: nat)
      requires Layout(Vol()) && s in held && s != 0
      modifies `used, `held
      ensures Layout(Vol()) && s < |old(used)| && Vol() == Released(old(Vol()), s) && used == old(used)[s := false]
      ensures (old(Sturdy()) ==> Sturdy()) && (old(Valid()) ==> Valid())
    {
      hide Usable, GoodVolume;
      ghost var v := Vol();
      ReleaseKeeps(Vol(), s);
      assert used[s];
      assert SetRange(used, s, 1, false) == used[s := false];
      used, held := SetRange(used, s, 1, false), held - {s};
      if old(Sturdy()) {
        MarksOnly(v, Vol(), lengths);
      }
    }

    /** free_map_allocate and block_clear: node n of file h gets a sector, whose number goes to word
        `slot` of sector `psec`. */
    method TakeNode(psec: nat, slot: nat, cached: set<nat>, ghost h: nat, ghost n: Node) returns (o: Outcome)
      requires Layout(Vol()) && Open(Vol(), h, n) && loc[Key(h, Parent(n))] == psec && Slot(n) == slot
      modifies `disk, `used, `loc, `held, `past
      ensures Result(o, Vol()) == Fetch(old(Vol()), h, n, cached)
      ensures o == Ok ==> TookFirst(old(Vol()), Vol(), h, n, cached)
    {
      hide Owned, Wired, Word, PutWord, Parent, Slot, FreeList;
      ghost var v := Vol();
      var r := FreeMapAllocate();
      if r.None? {
        return NoSpace;
      }
      var s := r.value;
      LayoutShape(v);
      if s >= |disk| {
        return OffDevice;
      }
      ParentUsed(v, h, n);
      disk := disk[psec := PutWord(disk[psec], slot, s)];
      disk := disk[s := Cleared(disk, cached, s)];
      loc, held := loc[Key(h, n) := s], held - {s};
      return Ok;
    }

    /** grow_direct: asserts that the word is zero first. */
    method GrowDirect(psec: nat, slot: nat, cached: set<nat>, ghost h: nat, ghost n: Node) returns (o: Outcome)
      requires Layout(Vol()) && IsNode(n) && n != Header
      requires Key(h, Parent(n)) in loc && loc[Key(h, Parent(n))] == psec && Slot(n) == slot
      modifies `disk, `used, `loc, `held, `past
      ensures Result(o, Vol()) == Step(old(Vol()), h, n, true, cached) && Extends(old(Vol()), Vol(), h, cached)
      ensures o == Panic <==> WordOf(old(Vol()), h, n) != 0
      ensures Tidy(old(disk), old(loc)) ==> (o == Panic <==> Key(h, n) in old(loc))
      ensures o == Ok ==> TookFirst(old(Vol()), Vol(), h, n, cached)
    {
      hide Owned, Wired, Word, Parent, Slot, Fetch, Extends, Tidy;
      StepExtends(Vol(), h, n, true, cached);
      PresentWord(Vol(), h, n);
      if Word(disk[psec], slot) != 0 {
        return Panic;
      }
      o := TakeNode(psec, slot, cached, h, n);
    }

    /** grow_indirect: adds data node d below index node n, whose number is in word `slot` of
        sector `psec`; n itself is allocated first when d is its first entry. */
    method GrowIndirect(psec: nat, slot: nat, index: nat, cached: set<nat>, ghost h: nat, ghost n: Node, ghost d: Node)
      returns (o: Outcome)
      requires Layout(Vol()) && IsNode(n) && n != Header && IsNode(d) && d != Header
      requires Key(h, Parent(n)) in loc && loc[Key(h, Parent(n))] == psec && Slot(n) == slot
      requires Parent(d) == n && Slot(d) == index && (index > 0 ==> Key(h, n) in loc)
      modifies `disk, `used, `loc, `held, `past
      ensures Result(o, Vol()) == Run(old(Vol()), h, (if index == 0 then [n] else []) + [d], true, cached)
    {
      hide Owned, Wired, Word, Parent, Slot, Step, Run, Layout, Open, WordOf, Extends;
      ghost var v0 := Vol();
      RunNone(v0, h, true, cached);
      if index == 0 {
        RunOne(v0, h, n, true, cached);
        o := GrowDirect(psec, slot, cached, h, n);
      }
      ghost var before := if index == 0 then [n] else [];
      RunLast(v0, h, before, d, true, cached);
      if index == 0 && o != Ok {
        return;
      }
      ghost var v1 := Vol();
      StepEntry(v0, v1, h, n, index == 0, cached);
      var sector := Word(disk[psec], slot);
      o := GrowDirect(sector, index, cached, h, d);
    }

    /** grow_double_indirect: adds block FIRST_DOUBLE + ENTRIES * index1 + index2 below the
        double-indirect node. It asks for the double-indirect sector whenever index1 is 0. */
    method GrowDoubleIndirect(psec: nat, slot: nat, index1: nat, index2: nat, cached: set<nat>, ghost h: nat,
                              ghost k: nat)
      returns (o: Outcome)
      requires Layout(Vol()) && HasNodes(Vol(), h, k) && psec == h && slot == Slot(Double)
      requires k == FIRST_DOUBLE + ENTRIES * index1 + index2 && index2 < ENTRIES
      modifies `disk, `used, `loc, `held, `past
      ensures Result(o, Vol()) == Run(old(Vol()), h, BlockNodes(k, true), true, cached)
      ensures (OutOfReach(k) ==> o == Panic)
              && (Tidy(old(disk), old(loc)) && Fresh(old(Vol()), cached, Cost(k)) ==> (o == Panic <==> OutOfReach(k)))
    {
      hide Owned, Wired, Word, Step, Run, Layout, Open, WordOf, Extends, HasNodes, BlockNodes, Tidy, Fresh, OutOfReach;
      hide Cost, InRange, Parent, Slot, IsNode;
      BlockEnds(Vol(), h, k, cached);
      ghost var v0 := Vol();
      DoubleFacts(v0, h, k, index1, index2);
      HeaderPlace(v0, h);
      ghost var before := if index1 == 0 then [Double] else [];
      ghost var after := (if index2 == 0 && index1 < ENTRIES then [Second(index1)] else []) + [Data(k)];
      RunNone(v0, h, true, cached);
      if index1 == 0 {
        RunOne(v0, h, Double, true, cached);
        o := GrowDirect(psec, slot, cached, h, Double);
      }
      RunMore(v0, h, before, after, true, cached);
      if index1 == 0 && o != Ok {
        return;
      }
      ghost var v1 := Vol();
      StepEntry(v0, v1, h, Double, index1 == 0, cached);
      var sector := Word(disk[psec], slot);
      if index1 >= ENTRIES {
        PastStops(v1, h, k, cached);
        return Panic;
      }
      DoubleChildren(v0, v1, h, k, index1, index2);
      o := GrowIndirect(sector, index1, index2, cached, h, Second(index1), Data(k));
    }

    /** The body of inode_extend's loop: adds block k to a file of k blocks. */
    method GrowBlock(h: nat, k: nat, cached: set<nat>) returns (o: Outcome)
      requires Layout(Vol()) && HasNodes(Vol(), h, k)
      modifies `disk, `used, `loc, `held, `past
      ensures Result(o, Vol()) == Run(old(Vol()), h, BlockNodes(k, true), true, cached)
      ensures (OutOfReach(k) ==> o == Panic)
              && (Tidy(old(disk), old(loc)) && Fresh(old(Vol()), cached, Cost(k)) ==> (o == Panic <==> OutOfReach(k)))
      ensures o == Ok ==> HasNodes(Vol(), h, k + 1) && Extends(old(Vol()), Vol(), h, cached)
    {
      hide Owned, Wired, Word, Step, Run, Layout, Open, WordOf, Extends, HasNodes, Tidy, Fresh, OutOfReach, BlockNodes;
      hide Cost, InRange, Parent, Slot, IsNode;
      BlockEnds(Vol(), h, k, cached);
      ghost var v := Vol();
      ShallowFacts(v, h, k);
      HeaderPlace(v, h);
      if k < NUM_DIRECT {
        RunOne(v, h, Data(k), true, cached);
        o := GrowDirect(h, k, cached, h, Data(k));
        return;
      }
      var single, blocks := (k - NUM_DIRECT) / ENTRIES, (k - NUM_DIRECT) % ENTRIES;
      if single < NUM_SINGLE {
        o := GrowIndirect(h, NUM_DIRECT + single, blocks, cached, h, Single(single), Data(k));
        return;
      }
      o := GrowDoubleIndirect(h, NUM_DIRECT + NUM_SINGLE, single - NUM_SINGLE, blocks, cached, h, k);
    }

    /** inode_extend: adds num blocks. How that ends is known beforehand: see Growth.Outcomes and,
        for empty sectors, Growth.GrowthStops. */
    method InodeExtend(h: nat, num: nat, cached: set<nat>) returns (o: Outcome)
      requires Sturdy() && h in lengths
      modifies `disk, `used, `loc, `held, `past
      ensures var c := Blocks(lengths[h]);
              Result(o, Vol()) == Run(old(Vol()), h, Order(c, c + num, true), true, cached)
      ensures var c := Blocks(lengths[h]); EndsAs(old(Vol()), h, Order(c, c + num, true), true, cached, o)
      ensures var c := Blocks(lengths[h]);
              old(Valid()) && Fresh(old(Vol()), cached, |Order(c, c + num, true)|) ==>
                && (o == Panic <==> MeetsBarrier(c, c + num, FreeCount(old(used))))
                && (Full(o) <==> o != Panic && FreeCount(old(used)) < CostOf(c, c + num))
                && (o == Ok ==> CanGrow(c, c + num))
      ensures Full(o) ==> (o == OffDevice <==> FreeList(old(past)) != [])
      ensures o == Ok ==> Blocks(lengths[h]) + num <= MAX_BLOCKS && HasNodes(Vol(), h, Blocks(lengths[h]) + num)
    {
      hide Owned, Wired, Word, Step, Run, Layout, Extends, HasNodes, Order, BlockNodes, Headed, FreeList, SomeStop;
      hide Fresh, MeetsBarrier, CostOf, CanGrow, GoodVolume;
      ghost var v0, first := Vol(), Blocks(lengths[h]);
      HeadedFacts(v0, h, lengths[h]);
      RunNone(v0, h, true, cached);
      OrderNone(first, true);
      var numBlocks := Blocks(Word(disk[h], LENGTH_WORD)) - 1;
      var left := num;
      o := Ok;
      while left > 0 && o == Ok
        invariant 0 <= left <= num && numBlocks + 1 == first + (num - left)
        invariant Layout(Vol())
        invariant Result(o, Vol()) == Run(v0, h, Order(first, first + (num - left), true), true, cached)
        invariant o == Ok ==> HasNodes(Vol(), h, first + (num - left)) && first + (num - left) <= MAX_BLOCKS
      {
        numBlocks := numBlocks + 1;
        left := left - 1;
        OrderNext(first, numBlocks, true);
        RunMore(v0, h, Order(first, numBlocks, true), BlockNodes(numBlocks, true), true, cached);
        o := GrowBlock(h, numBlocks, cached);
        if o == Ok {
          RunNodes(v0, h, first, first + (num - left), true, cached);
        }
      }
      OrderSplit(first, first + (num - left), first + num, true);
      RunMore(v0, h, Order(first, first + (num - left), true), Order(first + (num - left), first + num, true),
              true, cached);
      OrderNone(first + num, true);
      Outcomes(v0, h, Order(first, first + num, true), true, cached);
      if old(Valid()) && Fresh(v0, cached, |Order(first, first + num, true)|) {
        GoodIsTidy(v0, lengths);
        ExtendEnds(v0, h, first, first + num, cached);
      }
    }

    /** byte_to_sector: the sector of the block holding position pos; sector 0 when the file has no
        such block and nothing of old contents shows. It fails an assertion past the tree, and the
        block layer's where it follows a word that is no sector, exactly. */
    method ByteToSector(h: nat, pos: nat, ghost c: nat) returns (o: Outcome, s: nat)
      requires Layout(Vol()) && HasNodes(Vol(), h, c) && h < |disk| && Word(disk[h], MAGIC_WORD) == INODE_MAGIC
      requires c <= MAX_BLOCKS
      ensures o == if pos < MAX_BYTES && !Strays(disk, h, pos) then Ok else Panic
      ensures pos / SECTOR_SIZE < c || Tidy(disk, loc) ==> !Strays(disk, h, pos)
      ensures o == Ok && pos / SECTOR_SIZE < c ==> s == loc[Key(h, Data(pos / SECTOR_SIZE))]
      ensures o == Ok && pos / SECTOR_SIZE >= c && Tidy(disk, loc) ==> s == 0
    {
      hide Owned, Wired, Word, Layout, Tidy;
      assert Word(disk[h], MAGIC_WORD) == INODE_MAGIC;
      var k := pos / SECTOR_SIZE;
      LayoutShape(Vol());
      ghost var there := k < c || Tidy(disk, loc);
      assert k < c <==> Key(h, Data(k)) in loc;
      if there {
        LookedUp(Vol(), h, c, pos);
      }
      if k < NUM_DIRECT {
        if there {
          DirectWord(Vol(), h, c, k);
        }
        return Ok, Word(disk[h], k);
      }
      var single, blocks := (k - NUM_DIRECT) / ENTRIES, (k - NUM_DIRECT) % ENTRIES;
      if single < NUM_SINGLE {
        var sec := Word(disk[h], NUM_DIRECT + single);
        if sec >= |disk| {
          return Panic, 0;
        }
        if there {
          SingleWords(Vol(), h, c, k);
        }
        return Ok, Word(disk[sec], blocks);
      }
      if single - NUM_SINGLE >= ENTRIES {
        return Panic, 0;
      }
      var dbl := Word(disk[h], NUM_DIRECT + NUM_SINGLE);
      if dbl >= |disk| {
        return Panic, 0;
      }
      var sec := Word(disk[dbl], single - NUM_SINGLE);
      if sec >= |disk| {
        return Panic, 0;
      }
      if there {
        DoubleWords(Vol(), h, c, k);
      }
      return Ok, Word(disk[sec], blocks);
    }

    /** The body of inode_read_at's loop, at position pos with `left` bytes still wanted. An empty
        chunk is the end of the file. */
    method ReadPiece(h: nat, pos: nat, left: nat) returns (o: Outcome, chunk: seq<byte>)
      requires Sturdy() && h in lengths && left > 0
      ensures h < |disk| && (o == Panic <==> pos >= MAX_BYTES || Strays(disk, h, pos))
      ensures Valid() || pos < lengths[h] ==> !Strays(disk, h, pos)
      ensures o != Panic ==> o == Ok && |chunk| <= left && (chunk == [] <==> lengths[h] <= pos)
      ensures chunk != [] ==> pos + |chunk| <= lengths[h] && HoldsAt(Vol(), h, pos, chunk)
    {
      hide Owned, Wired, Word, Layout, FileOk, Tidy, Headed, HoldsAt;
      ghost var v, length := Vol(), lengths[h];
      UsableFacts(v, lengths, h);
      HeadedFacts(v, h, length);
      var sector;
      chunk := [];
      o, sector := ByteToSector(h, pos, Blocks(length));
      if o == Panic {
        return;
      }
      var sectorOfs := pos % SECTOR_SIZE;
      var inodeLeft := Word(disk[h], LENGTH_WORD) - pos;
      var sectorLeft := SECTOR_SIZE - sectorOfs;
      var minLeft := if inodeLeft < sectorLeft then inodeLeft else sectorLeft;
      var chunkSize := if left < minLeft then left else minLeft;
      if chunkSize > 0 {
        ReadChunk(v, h, length, pos, chunkSize);
        chunk := disk[sector][sectorOfs..sectorOfs + chunkSize];
      }
    }

    /** inode_read_at: reads the bytes of the file from `offset` on, as many as are wanted and
        are there. The source looks a position up before it checks it against the length, so a
        read that runs past the end, or starts there, looks up a position the file does not have:
        it fails an assertion exactly if that lies past the tree or its index words lead off the
        device, which they cannot where nothing of old contents shows. */
    method InodeReadAt(h: nat, size: nat, offset: nat) returns (o: Outcome, buf: seq<byte>)
      requires Sturdy() && h in lengths
      ensures h < |disk| && (Valid() ==> !Strays(disk, h, Longer(lengths[h], offset)))
      ensures o == Panic <==>
                && size > 0 && offset + size > lengths[h]
                && var end := Longer(lengths[h], offset); end >= MAX_BYTES || Strays(disk, h, end)
      ensures o != Panic ==>
                o == Ok && |buf| == if lengths[h] <= offset then 0
                                    else if size < lengths[h] - offset then size else lengths[h] - offset
      ensures o != Panic ==> forall p: nat | offset <= p < offset + |buf| ::
                Key(h, Data(p / SECTOR_SIZE)) in loc && buf[p - offset] == ByteAt(Vol(), h, p)
    {
      hide Owned, Wired, Word, Layout, FileOk, Tidy, Headed, ByteAt, GoodVolume, Usable, HasNodes, Blocks, Strays;
      ghost var v, length := Vol(), lengths[h];
      UsableFacts(v, lengths, h);
      HeadedFacts(v, h, length);
      if Valid() {
        GoodIsTidy(v, lengths);
        LookedUp(v, h, Blocks(length), Longer(length, offset));
      }
      var left, pos := size, offset;
      o, buf := Ok, [];
      while left > 0
        invariant o == Ok && pos == offset + |buf| && 0 <= left && left + |buf| == size
        invariant |buf| > 0 ==> pos <= length
        invariant HoldsAt(v, h, offset, buf)
      {
        var chunk;
        o, chunk := ReadPiece(h, pos, left);
        if o == Panic {
          return;
        }
        if chunk == [] {
          break;
        }
        ReadMore(v, h, offset, buf, chunk);
        buf := buf + chunk;
        left, pos := left - |chunk|, pos + |chunk|;
      }
    }

    /** The copying loop of inode_write_at, on a file already grown from v0 to v1. */
    method WriteChunks(h: nat, buf: seq<byte>, offset: nat, ghost v0: Volume, ghost c: nat, ghost cached: set<nat>)
      returns (written: nat)
      requires Layout(v0) && Layout(Vol()) && Extends(v0, Vol(), h, cached)
      requires Key(h, Header) in v0.loc && v0.loc[Key(h, Header)] == h < |v0.disk|
      requires Word(v0.disk[h], MAGIC_WORD) == INODE_MAGIC
      requires HasNodes(Vol(), h, c) && offset + |buf| <= SECTOR_SIZE * c && c <= MAX_BLOCKS
      modifies `disk
      ensures written == |buf| && DataWritten(old(Vol()), Vol(), h, offset, buf)
    {
      hide Owned, Wired, Word, Extends, DataWritten, Layout, Overwrite, Tidy;
      ghost var v1 := Vol();
      NothingWritten(v1, h, offset);
      var left, pos := |buf|, offset;
      written := 0;
      while left > 0
        invariant 0 <= left && written + left == |buf| && pos == offset + written
        invariant DataWritten(v1, Vol(), h, offset, buf[..written])
      {
        DataWriteKeepsLayout(v1, Vol(), h, offset, buf[..written]);
        WrittenHeader(v0, v1, Vol(), h, cached, offset, buf[..written]);
        WrittenByte(v1, Vol(), h, offset, buf[..written], pos);
        BlockThere(v1, h, c, pos);
        var o, sector := ByteToSector(h, pos, c);
        var sectorOfs := pos % SECTOR_SIZE;
        var sectorLeft := SECTOR_SIZE - sectorOfs;
        var chunkSize := if left < sectorLeft then left else sectorLeft;
        WriteChunk(v1, Vol(), h, offset, buf[..written], pos, buf[written..written + chunkSize]);
        assert buf[..written] + buf[written..written + chunkSize] == buf[..written + chunkSize];
        disk := disk[sector := Overwrite(disk[sector], sectorOfs, buf[written..written + chunkSize])];
        left, pos, written := left - chunkSize, pos + chunkSize, written + chunkSize;
      }
      assert buf[..written] == buf;
    }

    /** The first part of inode_write_at: the file is extended when the write reaches its end or goes
        past it. */
    method Reach(h: nat, w: Write, cached: set<nat>) returns (o: Outcome, locked: bool)
      requires Sturdy() && h in lengths && w.offset + |w.data| < 0x8000_0000
      modifies `disk, `used, `loc, `held, `past
      ensures var ns := Order(Blocks(lengths[h]), Blocks(w.offset + |w.data|), true);
              && Result(o, Vol()) == Run(old(Vol()), h, ns, true, cached) && EndsAs(old(Vol()), h, ns, true, cached, o)
              && (old(Valid()) && (FreeUncached(old(used), cached) || Fresh(old(Vol()), cached, |ns|)) ==>
                    o == WriteEnds(lengths[h], FreeCount(old(used)), FreeList(old(past)) != [], w))
      ensures locked == (w.offset + |w.data| >= lengths[h])
      ensures var c := Blocks(Longer(lengths[h], w.offset + |w.data|));
              o == Ok ==> c <= MAX_BLOCKS && HasNodes(Vol(), h, c)
    {
      hide Owned, Wired, Word, Layout, Headed, FreeList, Run, Order, Fresh, GoodVolume, EndsAs, HasNodes, Usable;
      hide CostOf, MeetsBarrier, SomeStop, AllFresh, FreeUncached, HasData;
      ghost var v0 := Vol();
      var newLength := w.offset + |w.data|;
      UsableFacts(v0, lengths, h);
      HeadedFacts(v0, h, lengths[h]);
      UncachedIsFresh(v0, cached, |Order(Blocks(lengths[h]), Blocks(newLength), true)|);
      NoGrowth(v0, h, Blocks(lengths[h]), Blocks(newLength), cached);
      o, locked := Ok, false;
      if newLength >= Word(disk[h], LENGTH_WORD) {
        locked := true;
        BlocksGrow(lengths[h], newLength);
        o := InodeExtend(h, Blocks(newLength) - Blocks(Word(disk[h], LENGTH_WORD)), cached);
      } else {
        BlocksGrow(newLength, lengths[h]);
      }
    }

    /** inode_write_at. How it ends is known beforehand, whatever the cache holds. When it returns
        normally the buffer is in place, whole, and every other byte is the old one or, in sectors
        that came with the growth, what clearing them left; over empty sectors that makes it a
        write to a growable byte sequence. Where it stops instead, no file has changed, but the
        sectors it got on the way are marked and belong to no file's tree (Lost); when it found none
        for a node, that is every sector there was. */
    method InodeWriteAt(h: nat, denyWriteCnt: nat, buf: seq<byte>, offset: nat, cached: set<nat>)
      returns (o: Outcome, written: nat)
      requires Sturdy() && h in lengths && offset + |buf| < 0x8000_0000
      modifies this
      ensures denyWriteCnt > 0 ==> o == Ok && written == 0 && Vol() == old(Vol()) && lengths == old(lengths)
      ensures denyWriteCnt == 0 ==>
                var ns := Order(Blocks(old(lengths)[h]), Blocks(offset + |buf|), true);
                && EndsAs(old(Vol()), h, ns, true, cached, o)
                && (old(Valid()) && (FreeUncached(old(used), cached) || Fresh(old(Vol()), cached, |ns|)) ==>
                      o == WriteEnds(old(lengths)[h], FreeCount(old(used)), FreeList(old(past)) != [],
                                     Write(offset, buf)))
      ensures denyWriteCnt == 0 && o == Ok ==>
                && Sturdy() && written == |buf| && held == old(held) && OthersKept(old(Vol()), Vol(), old(lengths), h)
                && lengths == old(lengths)[h := Longer(old(lengths)[h], offset + |buf|)]
                && WrittenOver(old(Vol()), Vol(), h, cached, lengths[h], offset, buf)
                && FreeSame(old(Vol()), Vol()) && past == old(past)
                && FreeCount(used) + |Order(Blocks(old(lengths)[h]), Blocks(offset + |buf|), true)|
                   == FreeCount(old(used))
      ensures denyWriteCnt == 0 && o == Ok && old(Valid())
              && (FreeUncached(old(used), cached)
                  || Fresh(old(Vol()), cached, |Order(Blocks(old(lengths)[h]), Blocks(offset + |buf|), true)|)) ==>
                var c := Spliced(old(FileBytes(Vol(), lengths, h)), offset, buf);
                Became(old(Vol()), Vol(), old(lengths), h, c) && lengths == old(lengths)[h := |c|]
      ensures denyWriteCnt == 0 && o == Ok && FreeUncached(old(used), cached) ==>
                ZeroBeside(Vol(), h, Blocks(old(lengths)[h]) * SECTOR_SIZE, lengths[h], offset, buf)
      ensures o != Ok ==> written == 0 && lengths == old(lengths) && Sturdy()
                          && FileBytes(Vol(), lengths, h) == old(FileBytes(Vol(), lengths, h))
                          && OthersKept(old(Vol()), Vol(), lengths, h)
                          && loc == old(loc) && Lost(old(used), used, old(held), held)
      ensures Full(o) ==> AllMarked(used) && (o == OffDevice <==> FreeList(old(past)) != [])
    {
      hide Owned, Wired, Word, PutWord, Extends, DataWritten, Layout, Content, FileOk, Headed, Became, OthersKept;
      hide FreeList, Run, Order, Fresh, Tidy, GoodVolume, EndsAs, WrittenOver, FreeSame, HasNodes, Wrote, Spliced;
      hide Usable, FreeUncached, ZeroBeside, Lost, AllMarked, WriteEnds, HasData, Abandoned;
      if denyWriteCnt > 0 {
        return Ok, 0;
      }
      ghost var v0, lengths0 := Vol(), lengths;
      ghost var ns := Order(Blocks(lengths[h]), Blocks(offset + |buf|), true);
      written := 0;
      var locked;
      o, locked := Reach(h, Write(offset, buf), cached);
      GrewFacts(v0, h, ns, cached, lengths);
      HeadedFacts(v0, h, lengths[h]);
      if o != Ok {
        GrowthFails(v0, lengths, h, ns, cached);
        ghost var a := Abandoned(v0, Vol());
        AbandonedFields(v0, Vol());
        loc, held := a.loc, a.held;
        return;
      }
      ghost var v1, length := Vol(), Longer(lengths[h], offset + |buf|);
      ReachableFits(lengths[h], length);
      written := WriteChunks(h, buf, offset, v0, Blocks(length), cached);
      ghost var v2 := Vol();
      WrittenHeader(v0, v1, v2, h, cached, offset, buf);
      if locked {
        disk := disk[h := PutWord(disk[h], LENGTH_WORD, offset + |buf|)];
        lengths := lengths[h := offset + |buf|];
      }
      assert lengths == lengths0[h := length];
      IsWrote(v0, v1, v2, Vol(), h, cached, offset, buf, length);
      UncachedIsFresh(v0, cached, |ns|);
      WriteDone(v0, v1, v2, Vol(), lengths0, h, cached, offset, buf, ns);
    }

    /** What was written reads back, whatever the sectors the file grew into held before. */
    method WriteThenRead(h: nat, buf: seq<byte>, offset: nat, cached: set<nat>)
      returns (o: Outcome, r: Outcome, back: seq<byte>)
      requires Sturdy() && h in lengths && offset + |buf| < 0x8000_0000
      modifies this
      ensures o == Ok ==> r == Ok && back == buf
    {
      hide Layout, Content, OthersKept, Spliced, Became, GoodVolume, Usable, WriteEnds, Fresh, FreeSame, EndsAs, Order;
      hide GrownByte, ByteAt;
      var written;
      r, back := Ok, [];
      o, written := InodeWriteAt(h, 0, buf, offset, cached);
      if o == Ok {
        UsableFacts(Vol(), lengths, h);
        HeadedFacts(Vol(), h, lengths[h]);
        r, back := InodeReadAt(h, |buf|, offset);
        forall i: nat | i < |buf| ensures back[i] == buf[i] {
          assert buf[offset + i - offset] == ByteAt(Vol(), h, offset + i);
        }
      }
    }

    /** Any run of writes that all return normally: the last write to a byte wins and bytes of the
        old file that none covers stay, whatever shows of old contents; over empty sectors the file
        is what the writes make of a growable byte sequence, one after the other, and how the run
        ends is known beforehand. No other file changes in any case. */
    method WriteMany(h: nat, writes: seq<Write>, cached: set<nat>) returns (o: Outcome)
      requires Sturdy() && h in lengths && forall w | w in writes :: w.offset + |w.data| < 0x8000_0000
      modifies this
      ensures OthersKept(old(Vol()), Vol(), old(lengths), h) && Sturdy() && h in lengths
      ensures o == Ok ==> Show(old(Vol()), Vol(), h, old(lengths)[h], lengths[h], writes) && past == old(past)
      ensures Full(o) ==> AllMarked(used) && (o == OffDevice <==> FreeList(old(past)) != [])
      ensures old(Valid()) && AllFresh(old(Vol()), cached) ==>
                o == WritesEnd(old(lengths)[h], FreeCount(old(used)), FreeList(old(past)) != [], writes)
      ensures old(Valid()) && AllFresh(old(Vol()), cached) && o == Ok ==>
                var c := Replayed(old(FileBytes(Vol(), lengths, h)), writes);
                Became(old(Vol()), Vol(), old(lengths), h, c) && lengths == old(lengths)[h := |c|]
    {
      hide Layout, Content, OthersKept, Spliced, Replayed, FreeList, Became, GoodVolume, Usable, AllFresh, WritesEnd;
      hide WriteEnds, Fresh, FreeSame, EndsAs, WrittenOver, Order, Show, Lost, Headed, HasData, Shape, Owned, Wired;
      hide FreeCount, CostOf, MeetsBarrier, AllMarked;
      ghost var v0, lengths0, c0 := Vol(), lengths, FileBytes(Vol(), lengths, h);
      UsableFacts(v0, lengths, h);
      NothingKept(v0, lengths, h);
      HeadedFacts(v0, h, lengths[h]);
      NothingShows(v0, h, lengths[h]);
      ReplayedNone(c0);
      o := Ok;
      ghost var empty, spare := Valid() && AllFresh(v0, cached), FreeList(past) != [];
      assert lengths[h := |c0|] == lengths;
      if empty {
        NothingBecame(v0, lengths, h);
      }
      assert writes[0..] == writes && writes[..0] == [];
      for i := 0 to |writes|
        invariant o == Ok && Sturdy() && h in lengths && lengths == lengths0[h := lengths[h]] && past == v0.past
        invariant OthersKept(v0, Vol(), lengths0, h)
        invariant Layout(Vol()) && Show(v0, Vol(), h, lengths0[h], lengths[h], writes[..i])
        invariant empty ==> AllFresh(Vol(), cached) && lengths[h] == |Replayed(c0, writes[..i])|
                            && Became(v0, Vol(), lengths0, h, Replayed(c0, writes[..i]))
                            && WritesEnd(lengths[h], FreeCount(used), spare, writes[i..])
                               == WritesEnd(lengths0[h], FreeCount(v0.used), spare, writes)
      {
        ghost var v, l := Vol(), lengths;
        ghost var was := FreeCount(used);
        ghost var ns := Order(Blocks(l[h]), Blocks(writes[i].offset + |writes[i].data|), true);
        if empty {
          BecameFacts(v0, v, lengths0, h, Replayed(c0, writes[..i]));
          FreshNow(v, cached, |ns|);
        }
        UsableFacts(v, l, h);
        HeadedFacts(v, h, l[h]);
        WritesNext(l[h], was, spare, writes, i);
        var written;
        o, written := InodeWriteAt(h, 0, writes[i].data, writes[i].offset, cached);
        OthersAgain(v0, v, Vol(), lengths0, h, l[h]);
        UsableLayout(Vol(), lengths);
        if o != Ok {
          return;
        }
        ShowNext(v0, v, Vol(), h, cached, lengths0[h], l[h], writes[..i], writes[i]);
        assert writes[..i + 1] == writes[..i] + [writes[i]];
        if empty {
          StillFresh(v, Vol(), cached);
          ReplayedOne(c0, writes, i);
          BecameAgain(v0, v, Vol(), lengths0, h, l[h], Replayed(c0, writes[..i + 1]));
        }
      }
      assert writes[..|writes|] == writes;
      NoWrites(lengths[h], FreeCount(used), spare, writes);
    }

    /** allocate_direct: one data sector, and `left` goes down by a sector. */
    method AllocateDirect(psec: nat, slot: nat, left0: int, cached: set<nat>, ghost h: nat, ghost n: Node)
      returns (o: Outcome, left: int)
      requires Layout(Vol()) && IsNode(n) && n.Data? && left0 > 0
      requires Key(h, Parent(n)) in loc && loc[Key(h, Parent(n))] == psec && Slot(n) == slot
      modifies `disk, `used, `loc, `held, `past
      ensures Result(o, Vol()) == Step(old(Vol()), h, n, false, cached) && Extends(old(Vol()), Vol(), h, cached)
      ensures o == Panic <==> WordOf(old(Vol()), h, n) != 0
      ensures o == Ok ==> left == left0 - SECTOR_SIZE && TookFirst(old(Vol()), Vol(), h, n, cached)
    {
      hide Owned, Wired, Word, Parent, Slot, Fetch, Extends;
      StepExtends(Vol(), h, n, false, cached);
      left := left0;
      PresentWord(Vol(), h, n);
      if Word(disk[psec], slot) != 0 {
        return Panic, left;
      }
      o := TakeNode(psec, slot, cached, h, n);
      left := left0 - SECTOR_SIZE;
    }

    /** allocate_indirect: index node n and as many of its data sectors as `left` asks for. It does
        not look at the word it puts n's number in. */
    method AllocateIndirect(psec: nat, slot: nat, left0: int, cached: set<nat>, ghost h: nat, ghost n: Node,
                            ghost first: nat)
      returns (o: Outcome, left: int)
      requires Layout(Vol()) && left0 > 0 && IndexFor(n, first)
      requires Open(Vol(), h, n) && loc[Key(h, Parent(n))] == psec && Slot(n) == slot
      modifies `disk, `used, `loc, `held, `past
      ensures Result(o, Vol()) == Run(old(Vol()), h, Below(n, first, Least(ENTRIES, Blocks(left0))), false, cached)
      ensures o == Ok ==> left == left0 - SECTOR_SIZE * Least(ENTRIES, Blocks(left0))
    {
      hide Owned, Wired, Word, Parent, Slot, Step, Run, Layout, Open, WordOf, Extends, Below, Fetch;
      ghost var v0, goal := Vol(), Least(ENTRIES, Blocks(left0));
      left := left0;
      BelowNone(n, first);
      IndexIsFetched(v0, h, n, first, cached);
      o := TakeNode(psec, slot, cached, h, n);
      BelowSplit(n, first, 0, goal);
      RunMore(v0, h, Below(n, first, 0), Above(first, 0, goal), false, cached);
      if o != Ok {
        return;
      }
      FetchedEntry(v0, Vol(), h, n, cached);
      var sector := Word(disk[psec], slot);
      var i := 0;
      while i < ENTRIES
        invariant i <= ENTRIES && i <= goal && left == left0 - SECTOR_SIZE * i && left > 0 && o == Ok
        invariant Layout(Vol()) && Result(o, Vol()) == Run(v0, h, Below(n, first, i), false, cached)
        invariant Key(h, n) in loc && loc[Key(h, n)] == sector
      {
        ghost var v := Vol();
        IndexChildren(n, first, i);
        BelowNext(n, first, i);
        RunLast(v0, h, Below(n, first, i), Data(first + i), false, cached);
        o, left := AllocateDirect(sector, i, left, cached, h, Data(first + i));
        BelowSplit(n, first, i + 1, goal);
        RunMore(v0, h, Below(n, first, i + 1), Above(first, i + 1, goal), false, cached);
        if o != Ok {
          return;
        }
        StepExtends(v, h, Data(first + i), false, cached);
        ExtendsFacts(v, Vol(), h, cached, Key(h, n));
        i := i + 1;
        if left <= 0 {
          break;
        }
      }
      assert i == goal;
    }

    /** allocate_double_indirect: the double-indirect node and as many of the index and data
        sectors below it as `left` asks for and it has room for. */
    method AllocateDoubleIndirect(left0: int, cached: set<nat>, ghost h: nat, psec: nat, slot: nat)
      returns (o: Outcome, left: int)
      requires Layout(Vol()) && left0 > 0 && HasNodes(Vol(), h, FIRST_DOUBLE) && psec == h && slot == Slot(Double)
      modifies `disk, `used, `loc, `held, `past
      ensures var goal := Least(MAX_BLOCKS, FIRST_DOUBLE + Blocks(left0));
              Result(o, Vol()) == Run(old(Vol()), h, Order(FIRST_DOUBLE, goal, false), false, cached)
    {
      hide Owned, Wired, Word, Step, Run, Layout, Open, WordOf, Extends, Below, Fetch, Order, HasNodes;
      ghost var v0, goal := Vol(), Least(MAX_BLOCKS, FIRST_DOUBLE + Blocks(left0));
      left := left0;
      DoubleReady(v0, h, cached);
      HeaderPlace(v0, h);
      o := TakeNode(psec, slot, cached, h, Double);
      DoubleStart(v0, h, goal, cached);
      if o != Ok {
        return;
      }
      FetchedEntry(v0, Vol(), h, Double, cached);
      FirstSecond(v0, Vol(), h);
      var sector := Word(disk[psec], slot);
      ghost var c := FIRST_DOUBLE;
      var i := 0;
      while i < ENTRIES
        invariant i <= ENTRIES && c == FIRST_DOUBLE + ENTRIES * i && left == left0 - SECTOR_SIZE * (c - FIRST_DOUBLE)
        invariant left > 0 && o == Ok && Layout(Vol())
        invariant Result(o, Vol()) == Run(v0, h, DoubleOrder(c), false, cached)
        invariant Key(h, Double) in loc && loc[Key(h, Double)] == sector && (i < ENTRIES ==> Key(h, Second(i)) !in loc)
      {
        ghost var v, c' := Vol(), c + Least(ENTRIES, Blocks(left));
        SecondReady(v, h, i);
        DoubleNext(i, c, c');
        RunMore(v0, h, DoubleOrder(c), Below(Second(i), c, c' - c), false, cached);
        o, left := AllocateIndirect(sector, i, left, cached, h, Second(i), c);
        OrderSplit(FIRST_DOUBLE, c', goal, false);
        RunMore(v0, h, Order(FIRST_DOUBLE, c', false), Order(c', goal, false), false, cached);
        if o != Ok {
          return;
        }
        RunExtends(v, h, Below(Second(i), c, c' - c), false, cached);
        ExtendsFacts(v, Vol(), h, cached, Key(h, Double));
        RunNodes(v0, h, FIRST_DOUBLE, c', false, cached);
        NextSecond(Vol(), h, i, c');
        i, c := i + 1, c';
        if left <= 0 {
          break;
        }
      }
      assert c == goal;
      OrderNone(goal, false);
      assert DoubleOrder(c) == Order(FIRST_DOUBLE, c, false);
    }

    /** The first loop of inode_create: direct blocks. */
    method AllocateDirects(h: nat, length: nat, cached: set<nat>) returns (o: Outcome, left: int)
      requires Layout(Vol()) && HasNodes(Vol(), h, 0)
      modifies `disk, `used, `loc, `held, `past
      ensures Result(o, Vol()) == Run(old(Vol()), h, Order(0, Least(NUM_DIRECT, Blocks(length)), false), false, cached)
      ensures o == Ok ==> left == length - SECTOR_SIZE * Least(NUM_DIRECT, Blocks(length))
    {
      hide Owned, Wired, Word, Step, Run, Layout, Open, WordOf, Extends, Order, HasNodes, BlockNodes;
      ghost var v0, goal := Vol(), Least(NUM_DIRECT, Blocks(length));
      RunNone(v0, h, false, cached);
      OrderNone(0, false);
      o, left := Ok, length;
      var i := 0;
      while i < NUM_DIRECT
        invariant i <= goal && left == length - SECTOR_SIZE * i && o == Ok && Layout(Vol()) && HasNodes(Vol(), h, i)
        invariant Result(o, Vol()) == Run(v0, h, Order(0, i, false), false, cached)
      {
        if left <= 0 {
          break;
        }
        DirectReady(Vol(), h, i);
        HeaderPlace(Vol(), h);
        OrderNext(0, i, false);
        RunLast(v0, h, Order(0, i, false), Data(i), false, cached);
        o, left := AllocateDirect(h, i, left, cached, h, Data(i));
        OrderSplit(0, i + 1, goal, false);
        RunMore(v0, h, Order(0, i + 1, false), Order(i + 1, goal, false), false, cached);
        if o != Ok {
          return;
        }
        RunNodes(v0, h, 0, i + 1, false, cached);
        i := i + 1;
      }
      assert i == goal;
    }

    /** The second loop: blocks below single-indirect nodes, the first c0 blocks being there. */
    method AllocateSingles(h: nat, length: nat, left0: int, cached: set<nat>, ghost c0: nat)
      returns (o: Outcome, left: int)
      requires Layout(Vol()) && HasNodes(Vol(), h, c0) && c0 == Least(NUM_DIRECT, Blocks(length))
      requires left0 == length - SECTOR_SIZE * c0
      modifies `disk, `used, `loc, `held, `past
      ensures Result(o, Vol())
              == Run(old(Vol()), h, Order(c0, Least(FIRST_DOUBLE, Blocks(length)), false), false, cached)
      ensures o == Ok ==> left == length - SECTOR_SIZE * Least(FIRST_DOUBLE, Blocks(length))
    {
      hide Owned, Wired, Word, Step, Run, Layout, Open, WordOf, Extends, Order, HasNodes, BlockNodes, Below;
      ghost var v0, goal := Vol(), Least(FIRST_DOUBLE, Blocks(length));
      RunNone(v0, h, false, cached);
      OrderNone(c0, false);
      o, left := Ok, left0;
      ghost var c := c0;
      var i := 0;
      while i < NUM_SINGLE
        invariant i <= NUM_SINGLE && left == length - SECTOR_SIZE * c && o == Ok && c0 <= c <= goal
        invariant left > 0 ==> c == NUM_DIRECT + ENTRIES * i
        invariant Layout(Vol()) && HasNodes(Vol(), h, c)
        invariant Result(o, Vol()) == Run(v0, h, Order(c0, c, false), false, cached)
      {
        if left <= 0 {
          break;
        }
        ghost var c' := c + Least(ENTRIES, Blocks(left));
        SingleReady(Vol(), h, i);
        HeaderPlace(Vol(), h);
        SingleNext(c0, i, c, c');
        RunMore(v0, h, Order(c0, c, false), Below(Single(i), c, c' - c), false, cached);
        o, left := AllocateIndirect(h, NUM_DIRECT + i, left, cached, h, Single(i), c);
        OrderSplit(c0, c', goal, false);
        RunMore(v0, h, Order(c0, c', false), Order(c', goal, false), false, cached);
        if o != Ok {
          return;
        }
        RunNodes(v0, h, c0, c', false, cached);
        i, c := i + 1, c';
      }
      assert c == goal;
    }

    /** The three allocation phases of inode_create, on a started header. */
    method AllocateBlocks(h: nat, length: nat, cached: set<nat>) returns (o: Outcome)
      requires Layout(Vol()) && HasNodes(Vol(), h, 0)
      modifies `disk, `used, `loc, `held, `past
      ensures Result(o, Vol()) == Run(old(Vol()), h, Order(0, Least(MAX_BLOCKS, Blocks(length)), false), false, cached)
    {
      hide Owned, Wired, Word, Step, Run, Layout, Extends, Order, HasNodes;
      ghost var v0, goal := Vol(), Least(MAX_BLOCKS, Blocks(length));
      ghost var c1, c2 := Least(NUM_DIRECT, Blocks(length)), Least(FIRST_DOUBLE, Blocks(length));
      OrderSplit(0, c1, goal, false);
      RunMore(v0, h, Order(0, c1, false), Order(c1, goal, false), false, cached);
      var left;
      o, left := AllocateDirects(h, length, cached);
      if o != Ok {
        return;
      }
      ghost var v1 := Vol();
      RunNodes(v0, h, 0, c1, false, cached);
      OrderSplit(c1, c2, goal, false);
      RunMore(v1, h, Order(c1, c2, false), Order(c2, goal, false), false, cached);
      o, left := AllocateSingles(h, length, left, cached, c1);
      if o != Ok {
        return;
      }
      RunNodes(v1, h, c1, c2, false, cached);
      if left <= 0 {
        OrderNone(goal, false);
        RunNone(Vol(), h, false, cached);
        return;
      }
      o, left := AllocateDoubleIndirect(left, cached, h, h, NUM_DIRECT + NUM_SINGLE);
    }

    /** The header of a file of `length` bytes and the nodes of its tree, as far as there are sectors. */
    method StartInode(h: nat, length: nat, cached: set<nat>) returns (o: Outcome)
      requires Sturdy() && h in held && h != 0 && length < 0x8000_0000
      modifies `disk, `used, `loc, `held, `past
      ensures h < |old(disk)| && Layout(Started(old(Vol()), h, length, cached))
      ensures var v1 := Started(old(Vol()), h, length, cached);
              && HasNodes(v1, h, 0) && v1.loc[Key(h, Header)] == h
              && Result(o, Vol()) == Run(v1, h, Order(0, Least(MAX_BLOCKS, Blocks(length)), false), false, cached)
    {
      hide Owned, Wired, Word, Layout, Order, Run, HeaderOn, Usable, HasNodes, Extends;
      ghost var v0 := Vol();
      StartKeeps(v0, lengths, h, length, cached);
      UsableLayout(v0, lengths);
      disk := disk[h := Cleared(disk, cached, h)];
      disk := disk[h := HeaderOn(disk[h], length)];
      loc, held := loc[Key(h, Header) := h], held - {h};
      assert Vol() == Started(v0, h, length, cached);
      HeaderPlace(Vol(), h);
      o := AllocateBlocks(h, length, cached);
    }

    /** inode_create on a sector the caller got from the free map. How it ends is known beforehand:
        with nothing left in the free sectors it fails an assertion exactly when the header is
        still cached with a nonzero direct word that the loop gets to. On success h is a file of
        `length` bytes that hold what clearing its sectors left, zeros unless they are cached with
        something else, and no other file changed. Otherwise no file changed and the sectors it got
        are nobody's, as those of a failed write are. A length past the tree's capacity is accepted all
        the same, with only MAX_BLOCKS blocks allocated. */
    method InodeCreate(h: nat, length: nat, cached: set<nat>) returns (o: Outcome)
      requires Sturdy() && h in held && h != 0 && length < 0x8000_0000
      modifies this
      ensures h < |old(disk)| && Layout(Started(old(Vol()), h, length, cached))
      ensures var ns := Order(0, Least(MAX_BLOCKS, Blocks(length)), false);
              && EndsAs(Started(old(Vol()), h, length, cached), h, ns, false, cached, o)
              && |ns| == CostOf(0, Least(MAX_BLOCKS, Blocks(length)))
              && (StaleHeader(old(Vol()), h, length, cached) ==> o == Panic)
              && (Fresh(old(Vol()), cached, |ns|) ==> (o == Panic <==> StaleHeader(old(Vol()), h, length, cached)))
      ensures OthersKept(old(Vol()), Vol(), old(lengths), h)
      ensures o == Ok ==>
                var ns := Order(0, Least(MAX_BLOCKS, Blocks(length)), false);
                Result(Ok, Vol()) == Run(Started(old(Vol()), h, length, cached), h, ns, false, cached)
      ensures o == Ok ==> past == old(past) && held == old(held) - {h}
      ensures o == Ok ==> (length <= MAX_BYTES <==> HasData(Vol(), h, length))
      ensures o != Ok ==> Sturdy() && lengths == old(lengths) && loc == old(loc)
                          && Lost(old(used), used, old(held), held)
      ensures Full(o) ==> AllMarked(used) && (o == OffDevice <==> FreeList(old(past)) != [])
      ensures o == Ok && length <= MAX_BYTES ==>
                && Sturdy() && lengths == old(lengths)[h := length] && |disk| == |old(disk)|
                && ShowsCleared(old(Vol()), Vol(), h, length, cached)
      ensures h !in cached && FreeUncached(old(used), cached) ==> o != Panic
      ensures o == Ok && length <= MAX_BYTES && FreeUncached(old(used), cached) ==>
                ZeroBeside(Vol(), h, 0, length, 0, [])
      ensures o == Ok && length <= MAX_BYTES && old(Valid()) && h !in cached && FreeUncached(old(used), cached) ==>
                Valid() && FileBytes(Vol(), lengths, h) == Zeros(length)
      ensures o == Ok && length <= MAX_BYTES && old(Valid()) && Cleared(old(disk), cached, h) == ZERO
              && Fresh(old(Vol()), cached, CostOf(0, Blocks(length))) ==>
                Valid() && FileBytes(Vol(), lengths, h) == Zeros(length)
    {
      hide Owned, Wired, Word, Extends, Layout, FileOk, Headed, Content, OthersKept, SameFile, FreeList, CostOf, Order;
      hide StaleHeader, Run, Fresh, EndsAs, HeaderOn, GoodVolume, Usable, HasNodes, HasData, ShowsCleared, Started;
      hide Cleared, Keeps, AllFresh, FreeUncached, ZeroBeside, Lost, AllMarked;
      ghost var v0, lengths0 := Vol(), lengths;
      ghost var ns := Order(0, Least(MAX_BLOCKS, Blocks(length)), false);
      o := StartInode(h, length, cached);
      ghost var v1 := Started(v0, h, length, cached);
      UsableLayout(v0, lengths);
      CreateEnds(v0, v1, h, length, cached);
      CreateLeaves(v0, v1, lengths, h, length, cached, ns);
      UncachedIsFresh(v0, cached, |ns|);
      NotStale(v0, h, length, cached);
      if o != Ok {
        CreateFails(v0, v1, lengths, h, length, cached, ns);
        ghost var a := Abandoned(v0, Vol());
        loc, held := a.loc, a.held;
        return;
      }
      if length <= MAX_BYTES {
        CreateDone(v0, v1, Vol(), lengths, h, length, cached, ns);
        lengths := lengths[h := length];
      }
    }

    /** free_direct: gives node n's sector back. */
    method FreeDirect(sector: nat, left0: int, ghost v0: Volume, ghost h: nat, ghost freed0: set<Node>, ghost n: Node)
      returns (left: int, ghost freed: set<Node>)
      requires Freeing(v0, Vol(), h, freed0) && Key(h, n) in v0.loc && n !in freed0 && sector == v0.loc[Key(h, n)]
      requires left0 > 0
      modifies `used, `held
      ensures Freeing(v0, Vol(), h, freed) && freed == freed0 + {n} && left == left0 - SECTOR_SIZE
    {
      hide Layout, IsLeft, IsFreed;
      FreeNode(v0, Vol(), h, freed0, n);
      FreeMapRelease(sector);
      left, freed := left0 - SECTOR_SIZE, freed0 + {n};
    }

    /** free_indirect: gives back the data sectors below index node n, then n. */
    method FreeIndirect(sector: nat, left0: int, ghost v0: Volume, ghost h: nat, ghost freed0: set<Node>,
                        ghost n: Node, ghost first: nat, ghost total: nat)
      returns (left: int, ghost freed: set<Node>, ghost c: nat)
      requires Freeing(v0, Vol(), h, freed0) && HasNodes(v0, h, total) && IndexFor(n, first)
      requires first < total <= MAX_BLOCKS
      requires Key(h, n) in v0.loc && sector == v0.loc[Key(h, n)] && n !in freed0
      requires SECTOR_SIZE * (total - first - 1) < left0 <= SECTOR_SIZE * (total - first)
      requires forall k | k >= first :: Data(k) !in freed0
      modifies `used, `held
      ensures Freeing(v0, Vol(), h, freed)
      ensures c == (if total <= first + ENTRIES then total else first + ENTRIES)
      ensures left == left0 - SECTOR_SIZE * (c - first)
      ensures forall m :: m in freed <==> m in freed0 || m == n || (m.Data? && first <= m.k < c)
    {
      hide Layout, IsLeft, IsFreed, Freeing, Word;
      freed, left, c := freed0, left0, first;
      var i := 0;
      while i < ENTRIES
        invariant i <= ENTRIES && c == first + i && left == left0 - SECTOR_SIZE * i && left > 0
        invariant Freeing(v0, Vol(), h, freed)
        invariant forall m :: m in freed <==> m in freed0 || (m.Data? && first <= m.k < c)
      {
        IndexChildren(n, first, i);
        assert Key(h, Data(c)) in v0.loc;
        FreeingEntry(v0, Vol(), h, freed, Data(c), sector);
        left, freed := FreeDirect(Word(disk[sector], i), left, v0, h, freed, Data(c));
        i, c := i + 1, c + 1;
        if left <= 0 {
          break;
        }
      }
      FreeNode(v0, Vol(), h, freed, n);
      FreeingLayout(v0, Vol(), h, freed);
      FreeMapRelease(sector);
      freed := freed + {n};
    }

    /** free_double_indirect: the same one level up. */
    method FreeDoubleIndirect(sector: nat, left0: int, ghost v0: Volume, ghost h: nat, ghost freed0: set<Node>,
                              ghost total: nat)
      returns (left: int, ghost freed: set<Node>)
      requires Freeing(v0, Vol(), h, freed0) && HasNodes(v0, h, total) && FIRST_DOUBLE < total <= MAX_BLOCKS
      requires Key(h, Double) in v0.loc && sector == v0.loc[Key(h, Double)]
      requires SECTOR_SIZE * (total - FIRST_DOUBLE - 1) < left0 <= SECTOR_SIZE * (total - FIRST_DOUBLE)
      requires forall m | m in freed0 :: Needed(m, FIRST_DOUBLE)
      modifies `used, `held
      ensures Freeing(v0, Vol(), h, freed)
      ensures forall m :: m in freed <==> m in freed0 || m == Double || (m.Data? && FIRST_DOUBLE <= m.k < total)
                                          || (m.Second? && Needed(m, total))
    {
      hide Layout, IsLeft, IsFreed, Freeing, Word;
      left, freed := left0, freed0;
      ghost var c := FIRST_DOUBLE;
      var i := 0;
      while i < ENTRIES
        invariant i <= ENTRIES && c == FIRST_DOUBLE + ENTRIES * i < total
        invariant left == left0 - SECTOR_SIZE * (c - FIRST_DOUBLE) && left > 0
        invariant Freeing(v0, Vol(), h, freed)
        invariant forall m ::
                  m in freed <==> m in freed0 || (m.Data? && FIRST_DOUBLE <= m.k < c) || (m.Second? && m.j < i)
      {
        assert Key(h, Second(i)) in v0.loc;
        FreeingEntry(v0, Vol(), h, freed, Second(i), sector);
        left, freed, c := FreeIndirect(Word(disk[sector], i), left, v0, h, freed, Second(i), c, total);
        i := i + 1;
        if left <= 0 {
          break;
        }
      }
      FreeNode(v0, Vol(), h, freed, Double);
      FreeingLayout(v0, Vol(), h, freed);
      FreeMapRelease(sector);
      freed := freed + {Double};
    }

    /** The three deallocation phases of inode_close. */
    method FreeBlocks(h: nat, ghost v0: Volume, ghost length: nat) returns (ghost freed: set<Node>)
      requires Freeing(v0, Vol(), h, {}) && length <= MAX_BYTES && HasNodes(v0, h, Blocks(length))
      requires Key(h, Header) in v0.loc && v0.loc[Key(h, Header)] == h < |disk| && Word(disk[h], LENGTH_WORD) == length
      modifies `used, `held
      ensures Freeing(v0, Vol(), h, freed)
      ensures forall m :: m in freed <==> m != Header && Needed(m, Blocks(length))
    {
      hide Layout, IsLeft, IsFreed, Freeing, Word;
      ghost var total, c := Blocks(length), 0;
      freed := {};
      var left: int := Word(disk[h], LENGTH_WORD);
      var i := 0;
      while i < NUM_DIRECT
        invariant i <= NUM_DIRECT && c == i <= total && left == length - SECTOR_SIZE * c
        invariant Freeing(v0, Vol(), h, freed)
        invariant forall m :: m in freed <==> m.Data? && m.k < c
      {
        if left <= 0 {
          break;
        }
        assert Key(h, Data(i)) in v0.loc;
        FreeingEntry(v0, Vol(), h, freed, Data(i), h);
        left, freed := FreeDirect(Word(disk[h], i), left, v0, h, freed, Data(i));
        i, c := i + 1, c + 1;
      }
      i := 0;
      while i < NUM_SINGLE
        invariant i <= NUM_SINGLE && c <= total && c <= FIRST_DOUBLE && left == length - SECTOR_SIZE * c
        invariant if left > 0 then c == NUM_DIRECT + ENTRIES * i else c == total
        invariant if i == 0 then c <= NUM_DIRECT else NUM_DIRECT + ENTRIES * (i - 1) < c <= NUM_DIRECT + ENTRIES * i
        invariant Freeing(v0, Vol(), h, freed)
        invariant forall m :: m in freed <==> (m.Data? && m.k < c) || (m.Single? && m.j < i)
      {
        if left <= 0 {
          break;
        }
        assert Key(h, Single(i)) in v0.loc;
        FreeingEntry(v0, Vol(), h, freed, Single(i), h);
        left, freed, c := FreeIndirect(Word(disk[h], NUM_DIRECT + i), left, v0, h, freed, Single(i), c, total);
        i := i + 1;
      }
      if left > 0 {
        assert Key(h, Double) in v0.loc;
        FreeingEntry(v0, Vol(), h, freed, Double, h);
        left, freed := FreeDoubleIndirect(Word(disk[h], NUM_DIRECT + NUM_SINGLE), left, v0, h, freed, total);
      }
    }

    /** The part of inode_close that deallocates: file h is gone, exactly the sectors of its
        tree are free again, and every other file is as it was, whatever shows of old contents. */
    method Deallocate(h: nat)
      requires Sturdy() && h in lengths
      modifies `used, `loc, `held, `lengths
      ensures Sturdy() && (old(Valid()) ==> Valid()) && lengths == old(lengths) - {h} && held == old(held)
      ensures OthersKept(old(Vol()), Vol(), old(lengths), h)
      ensures |used| == |old(used)| && forall s | 0 <= s < |used| ::
                used[s] <==> old(used)[s] && !OwnsSector(old(loc), h, s)
    {
      hide Layout, IsLeft, IsFreed, Freeing, Word, FileOk, OthersKept, Content, OwnsSector, Needed, Tidy, Headed;
      hide GoodVolume, Usable;
      ghost var v0, length := Vol(), lengths[h];
      UsableFacts(v0, lengths, h);
      HeadedFacts(v0, h, length);
      FreeStart(v0, h);
      loc, held := (map k | k in loc && k.h != h :: loc[k]), held + (set k | k in loc && k.h == h :: loc[k]);
      ghost var freed := FreeBlocks(h, v0, length);
      FreeNode(v0, Vol(), h, freed, Header);
      FreeingLayout(v0, Vol(), h, freed);
      FreeMapRelease(h);
      FreeEnd(v0, Vol(), h, freed + {Header}, lengths);
      if old(Valid()) {
        FreeEndGood(v0, Vol(), h, freed + {Header}, lengths);
      }
      lengths := lengths - {h};
    }

    /** inode_close: the last close of a removed inode deallocates the file. */
    method InodeClose(inode: Inode)
      requires Sturdy() && inode.sector in lengths && inode.openCnt > 0
      modifies `used, `loc, `held, `lengths, inode
      ensures inode.openCnt == old(inode.openCnt) - 1 && inode.removed == old(inode.removed)
      ensures Sturdy() && (old(Valid()) ==> Valid())
      ensures held == old(held) && OthersKept(old(Vol()), Vol(), old(lengths), inode.sector)
      ensures if inode.openCnt == 0 && inode.removed
              then lengths == old(lengths) - {inode.sector} && |used| == |old(used)| && forall s | 0 <= s < |used| ::
                     used[s] <==> old(used)[s] && !OwnsSector(old(loc), inode.sector, s)
              else lengths == old(lengths) && Vol() == old(Vol())
    {
      hide Layout, FileOk, OthersKept, Content, Tidy, Headed;
      NothingKept(Vol(), lengths, inode.sector);
      inode.openCnt := inode.openCnt - 1;
      if inode.openCnt == 0 && inode.removed {
        Deallocate(inode.sector);
      }
    }
  }

  /** An in-memory inode: who has the file open, and whether it is to go. */
  class Inode {
    const sector: nat
    var openCnt: nat
    var removed: bool

    /** inode_open of a file nobody has open. */
    constructor (s: nat)
      ensures sector == s && openCnt == 1 && !removed
    {
      sector, openCnt, removed := s, 1, false;
    }
  }

  /** The input for which growth fails: a file of 5181 blocks, which inode_create makes without
      trouble, panics when it grows by one block, whatever is free and whatever the cache holds. */
  method GrowPastFirstDouble(fs: FileSystem, h: nat, cached: set<nat>) returns (created: Outcome, grown: Outcome)
    requires fs.Valid() && h in fs.held && h != 0
    modifies fs
    ensures created == Ok ==> grown == Panic
    ensures h < |old(fs.disk)|
    ensures Fresh(old(fs.Vol()), cached, CostOf(0, 5181)) && Cleared(old(fs.disk), cached, h) == ZERO ==>
              created != Panic && (created == Ok <==> CostOf(0, 5181) <= FreeCount(old(fs.used)))
  {
    hide CostOf, FreeList, Layout, HasNodes, Fresh, GoodVolume, Headed, Order, SomeStop, Word, Run, CreatedByte, ByteAt;
    hide OthersKept, Usable, HasData, Lost;
    ghost var v0 := fs.Vol();
    assert Least(MAX_BLOCKS, Blocks(5181 * SECTOR_SIZE)) == 5181;
    created := fs.InodeCreate(h, 5181 * SECTOR_SIZE, cached);
    ZeroWords(v0.disk, cached, h);
    grown := created;
    if created == Ok {
      UsableFacts(fs.Vol(), fs.lengths, h);
      HeadedFacts(fs.Vol(), h, fs.lengths[h]);
      CostNone(5181);
      BarrierStops(fs.Vol(), h, 5181, 5181, 5182, cached);
      grown := fs.InodeExtend(h, 1, cached);
    }
  }

  lemma CostNone(c: nat)
    ensures CostOf(c, c) == 0
  {}

  lemma ZeroWords(disk: seq<Sector>, cached: set<nat>, h: nat)
    requires h < |disk|
    ensures Cleared(disk, cached, h) == ZERO && h in cached ==> forall i: nat | i < ENTRIES :: Word(disk[h], i) == 0
  {
    hide Word;
    forall i: nat | i < ENTRIES && disk[h] == ZERO ensures Word(disk[h], i) == 0 {
      WordOfZero(i);
    }
  }

  /** A sector that held other data is handed out as a header while the cache still has it: its
      first word is zero and its second is not. Two blocks are asked for and one sector is free;
      the loop gets past the first word and fails its assertion at the second. */
  method SecondWordFails(fs: FileSystem, h: nat, cached: set<nat>) returns (o: Outcome)
    requires fs.Valid() && h in fs.held && h != 0 && h in cached && AllFresh(fs.Vol(), cached)
    requires h < |fs.disk| && Word(fs.disk[h], 0) == 0 && Word(fs.disk[h], 1) != 0 && FreeCount(fs.used) == 1
    modifies fs
    ensures o == Panic
  {
    hide CostOf, FreeList, Layout, Fresh, GoodVolume, Usable, Order, SomeStop, Word, AllFresh;
    ghost var v0 := fs.Vol();
    FreshNow(v0, cached, |Order(0, 2, false)|);
    assert Least(MAX_BLOCKS, Blocks(1024)) == 2;
    o := fs.InodeCreate(h, 1024, cached);
  }

  lemma {:induction false} CostDirect(c: nat)
    requires c <= NUM_DIRECT
    ensures CostOf(0, c) == c
  {
    if c > 0 {
      CostDirect(c - 1);
    }
  }

  /** The word of the first single-indirect node, in a header just written over d, is d's, and
      creation leaves it when no block needs the node. */
  lemma StaleIndexWord(v0: Volume, h: nat, cached: set<nat>)
    requires h < |v0.disk| && h in cached && Layout(Started(v0, h, 30720, cached))
    requires Run(Started(v0, h, 30720, cached), h, Order(0, 60, false), false, cached).o == Ok
    ensures var r := Run(Started(v0, h, 30720, cached), h, Order(0, 60, false), false, cached).v;
            h < |r.disk| == |v0.disk| && Word(r.disk[h], NUM_DIRECT) == Word(v0.disk[h], NUM_DIRECT)
  {
    hide Layout, Word, Run, Order, HeaderOn, Extends, FreeList;
    var v1, ns := Started(v0, h, 30720, cached), Order(0, 60, false);
    var r := Run(v1, h, ns, false, cached).v;
    StartWords(v0.disk[h], NUM_DIRECT, 30720);
    RunExtends(v1, h, ns, false, cached);
    ExtendsFacts(v1, r, h, cached, Key(h, Header));
    OrderNodes(0, 60, false, Single(0));
    HeaderPlace(v1, h);
    HeaderPlace(r, h);
    RunWord(v1, h, ns, false, cached, Single(0));
  }

  /** A sector that held other data is handed out as the header of a file of 60 blocks while the
      cache still has it; its word for the first single-indirect node is no sector number. The
      file can be made, since no block needs that node, and a read at its end panics. */
  method ReadAtEndStrays(fs: FileSystem, h: nat, cached: set<nat>) returns (created: Outcome, o: Outcome)
    requires fs.Valid() && h in fs.held && h != 0 && h in cached && AllFresh(fs.Vol(), cached)
    requires h < |fs.disk| && (forall i: nat | i < NUM_DIRECT :: Word(fs.disk[h], i) == 0)
    requires Word(fs.disk[h], NUM_DIRECT) >= |fs.disk| && FreeCount(fs.used) >= 60
    modifies fs
    ensures created == Ok && o == Panic
  {
    hide CostOf, FreeList, Layout, Fresh, GoodVolume, Usable, Order, SomeStop, Word, AllFresh, Run;
    ghost var v0 := fs.Vol();
    FreshNow(v0, cached, |Order(0, 60, false)|);
    assert Least(MAX_BLOCKS, Blocks(30720)) == 60;
    CostDirect(60);
    created := fs.InodeCreate(h, 30720, cached);
    StaleIndexWord(v0, h, cached);
    var buf;
    o, buf := fs.InodeReadAt(h, 1, 30720);
  }

  lemma NoBarrier(d: nat, free: nat)
    requires d <= NUM_DIRECT
    ensures !MeetsBarrier(0, d, free)
  {}

  /** The input: an empty file, fewer than 60 free sectors, and a write of one block more than there
      are. The map hands out a sector the device does not have, and the kernel panics with every
      sector of the device marked. */
  method WriteTooMuch(fs: FileSystem, h: nat, buf: seq<byte>, cached: set<nat>) returns (o: Outcome)
    requires fs.Valid() && h in fs.lengths && fs.lengths[h] == 0 && AllFresh(fs.Vol(), cached)
    requires FreeCount(fs.used) < 60 && |buf| == SECTOR_SIZE * (FreeCount(fs.used) + 1)
    requires |fs.past| > 0 && !fs.past[0]
    modifies fs
    ensures o == OffDevice && forall s | 0 <= s < |fs.used| :: fs.used[s]
  {
    hide CostOf, FreeList, Layout, Fresh, GoodVolume, Usable, Order, SomeStop, Word, AllFresh, Run, MeetsBarrier;
    hide EndsAs, OthersKept, FreeSame, WrittenOver;
    ghost var v0, free := fs.Vol(), FreeCount(fs.used);
    FreshNow(v0, cached, |Order(0, free + 1, true)|);
    assert Blocks(0) == 0 && Blocks(|buf|) == free + 1;
    NoBarrier(free + 1, free);
    CostDirect(free + 1);
    TakeFirst(fs.past, 0);
    var written;
    o, written := fs.InodeWriteAt(h, 0, buf, 0, cached);
  }

  /** Index node n has the data blocks first .. first + ENTRIES below it. */
  predicate IndexFor(n: Node, first: nat) {
    match n
    case Single(j) => j < NUM_SINGLE && first == NUM_DIRECT + ENTRIES * j
    case Second(j) => j < ENTRIES && first == FIRST_DOUBLE + ENTRIES * j
    case _ => false
  }

  lemma IndexChildren(n: Node, first: nat, i: nat)
    requires IndexFor(n, first) && i < ENTRIES
    ensures IsNode(n) && IsNode(Data(first + i)) && Parent(Data(first + i)) == n && Slot(Data(first + i)) == i
    ensures first + ENTRIES <= MAX_BLOCKS
  {}

  /** Index node n and the first m data blocks below it. */
  function Below(n: Node, first: nat, m: nat): seq<Node> { [n] + Above(first, 0, m) }

  function Above(first: nat, i: nat, m: nat): seq<Node>
    requires i <= m
  {
    seq(m - i, k requires 0 <= k => Data(first + i + k))
  }

  lemma BelowNone(n: Node, first: nat)
    ensures Below(n, first, 0) == [n]
  {}

  lemma BelowNext(n: Node, first: nat, i: nat)
    ensures Below(n, first, i + 1) == Below(n, first, i) + [Data(first + i)]
  {}

  lemma BelowSplit(n: Node, first: nat, i: nat, m: nat)
    requires i <= m
    ensures Below(n, first, m) == Below(n, first, i) + Above(first, i, m)
  {}

  /** One index node's worth of an order. */
  lemma {:induction false} OrderBelow(n: Node, first: nat, m: nat)
    requires IndexFor(n, first) && 0 < m <= ENTRIES
    ensures Order(first, first + m, false) == (if first == FIRST_DOUBLE then [Double] else []) + Below(n, first, m)
  {
    hide BlockNodes, Below, IndexFor, Order;
    OrderNext(first, first + (m - 1), false);
    BlockBelow(n, first, m - 1);
    BelowNext(n, first, m - 1);
    if m > 1 {
      OrderBelow(n, first, m - 1);
    } else {
      OrderNone(first, false);
      BelowNone(n, first);
    }
  }

  lemma BlockBelow(n: Node, first: nat, i: nat)
    requires IndexFor(n, first) && i < ENTRIES
    ensures BlockNodes(first + i, false)
            == if i > 0 then [Data(first + i)]
               else (if first == FIRST_DOUBLE then [Double] else []) + [n, Data(first)]
  {}

  lemma IndexIsFetched(v: Volume, h: nat, n: Node, first: nat, cached: set<nat>)
    requires Layout(v) && IndexFor(n, first) && Open(v, h, n)
    ensures Run(v, h, [n], false, cached) == Fetch(v, h, n, cached)
  {
    hide Layout, Fetch;
    RunOne(v, h, n, false, cached);
  }

  /** A node just fetched is where its word says. */
  lemma FetchedEntry(v: Volume, v': Volume, h: nat, n: Node, cached: set<nat>)
    requires Layout(v) && Open(v, h, n) && Layout(v') && Result(Ok, v') == Fetch(v, h, n, cached)
    ensures Key(h, n) in v'.loc && v.loc[Key(h, Parent(n))] < |v'.disk|
    ensures Word(v'.disk[v.loc[Key(h, Parent(n))]], Slot(n)) == v'.loc[Key(h, n)]
    ensures forall k :: k in v'.loc <==> k in v.loc || k == Key(h, n)
  {
    hide Owned, Word, PutWord, Slot, FreeList;
    FirstIsLowest(v.used);
    GrowNode(v, h, n, FreeList(v.used)[0], cached);
  }

  lemma DoubleReady(v: Volume, h: nat, cached: set<nat>)
    requires Layout(v) && HasNodes(v, h, FIRST_DOUBLE)
    ensures Open(v, h, Double) && Parent(Double) == Header && Key(h, Header) in v.loc
    ensures Run(v, h, [Double], false, cached) == Fetch(v, h, Double, cached)
  {
    hide Layout, Fetch;
    RunOne(v, h, Double, false, cached);
  }

  lemma DoubleStart(v: Volume, h: nat, goal: nat, cached: set<nat>)
    requires Layout(v) && goal > FIRST_DOUBLE
    ensures var r := Run(v, h, [Double], false, cached);
            r.o != Ok ==> Run(v, h, Order(FIRST_DOUBLE, goal, false), false, cached) == r
  {
    hide Layout, Run, Order, Below;
    OrderSplit(FIRST_DOUBLE, FIRST_DOUBLE + 1, goal, false);
    OrderBelow(Second(0), FIRST_DOUBLE, 1);
    var rest := Below(Second(0), FIRST_DOUBLE, 1) + Order(FIRST_DOUBLE + 1, goal, false);
    assert Order(FIRST_DOUBLE, goal, false) == [Double] + rest;
    RunMore(v, h, [Double], rest, false, cached);
  }

  /** The nodes below the double-indirect one and itself, up to block c. */
  function DoubleOrder(c: nat): seq<Node> {
    if c <= FIRST_DOUBLE then [Double] else Order(FIRST_DOUBLE, c, false)
  }

  lemma DoubleNext(i: nat, c: nat, c': nat)
    requires i < ENTRIES && c == FIRST_DOUBLE + ENTRIES * i < c' <= c + ENTRIES
    ensures Order(FIRST_DOUBLE, c', false) == DoubleOrder(c) + Below(Second(i), c, c' - c)
  {
    hide Order, Below;
    OrderSplit(FIRST_DOUBLE, c, c', false);
    OrderBelow(Second(i), c, c' - c);
    OrderNone(FIRST_DOUBLE, false);
  }

  lemma FirstSecond(v: Volume, v': Volume, h: nat)
    requires HasNodes(v, h, FIRST_DOUBLE) && forall k :: k in v'.loc <==> k in v.loc || k == Key(h, Double)
    ensures Key(h, Second(0)) !in v'.loc
  {
    assert !Needed(Second(0), FIRST_DOUBLE);
  }

  lemma SecondReady(v: Volume, h: nat, i: nat)
    requires Key(h, Double) in v.loc && Key(h, Second(i)) !in v.loc && i < ENTRIES
    ensures Open(v, h, Second(i)) && Parent(Second(i)) == Double && Slot(Second(i)) == i
    ensures IndexFor(Second(i), FIRST_DOUBLE + ENTRIES * i)
  {}

  lemma NextSecond(v: Volume, h: nat, i: nat, c: nat)
    requires HasNodes(v, h, c) && c <= FIRST_DOUBLE + ENTRIES * (i + 1)
    ensures Key(h, Second(i + 1)) !in v.loc
  {
    assert !Needed(Second(i + 1), c);
  }

  lemma DirectReady(v: Volume, h: nat, i: nat)
    requires HasNodes(v, h, i) && i < NUM_DIRECT
    ensures Key(h, Header) in v.loc && IsNode(Data(i)) && Parent(Data(i)) == Header && Slot(Data(i)) == i
    ensures BlockNodes(i, false) == [Data(i)]
  {}

  lemma SingleReady(v: Volume, h: nat, i: nat)
    requires HasNodes(v, h, NUM_DIRECT + ENTRIES * i) && i < NUM_SINGLE
    ensures Open(v, h, Single(i)) && Key(h, Header) in v.loc && IndexFor(Single(i), NUM_DIRECT + ENTRIES * i)
    ensures Parent(Single(i)) == Header && Slot(Single(i)) == NUM_DIRECT + i
  {}

  lemma SingleNext(c0: nat, i: nat, c: nat, c': nat)
    requires i < NUM_SINGLE && c0 <= c == NUM_DIRECT + ENTRIES * i < c' <= c + ENTRIES
    ensures Order(c0, c', false) == Order(c0, c, false) + Below(Single(i), c, c' - c)
  {
    hide Order, Below;
    OrderSplit(c0, c, c', false);
    OrderBelow(Single(i), c, c' - c);
  }

  lemma UsableLayout(v: Volume, lengths: map<nat, nat>)
    requires Usable(v, lengths)
    ensures Layout(v)
  {}

  /** How creation ends, in terms of the volume it is asked of. */
  lemma CreateEnds(v0: Volume, v1: Volume, h: nat, length: nat, cached: set<nat>)
    requires Layout(v0) && h in v0.held && h < |v0.disk| && length < B32 && v1 == Started(v0, h, length, cached)
    requires Layout(v1) && HasNodes(v1, h, 0) && v1.loc[Key(h, Header)] == h
    ensures var ns := Order(0, Least(MAX_BLOCKS, Blocks(length)), false);
            && EndsAs(v1, h, ns, false, cached, Run(v1, h, ns, false, cached).o)
            && |ns| == CostOf(0, Least(MAX_BLOCKS, Blocks(length)))
            && (StaleHeader(v0, h, length, cached) ==> Run(v1, h, ns, false, cached).o == Panic)
            && (Fresh(v0, cached, |ns|) ==>
                  (Run(v1, h, ns, false, cached).o == Panic <==> StaleHeader(v0, h, length, cached)))
            && (Run(v1, h, ns, false, cached).o == Ok ==> Run(v1, h, ns, false, cached).v.past == v0.past)
  {
    hide Layout, Run, Order, HasNodes, FreeList, SomeStop, Word, CostOf, HeaderOn, Fresh;
    var c := Least(MAX_BLOCKS, Blocks(length));
    var ns := Order(0, c, false);
    Outcomes(v1, h, ns, false, cached);
    OrderCost(0, c, false);
    if Run(v1, h, ns, false, cached).o == Ok {
      RunPlaces(v1, h, ns, false, cached);
    }
    forall i: nat | i < NUM_DIRECT
      ensures Word(v1.disk[h], i) == if h in cached then Word(v0.disk[h], i) else 0
    {
      StartWords(Cleared(v0.disk, cached, h), i, length);
      WordOfZero(i);
    }
    if StaleHeader(v0, h, length, cached) {
      var i: nat :| i < NUM_DIRECT && i < Blocks(length) && i <= FreeCount(v0.used) && Word(v0.disk[h], i) != 0;
      HeaderStops(v1, h, c, cached, i);
    }
    if Fresh(v0, cached, |ns|) {
      StartFree(v0, h, length, cached, |ns|);
      CreationStops(v1, h, c, cached);
    }
  }

  /** The sector that is to be the header is still cached with a nonzero direct word, and the loop
      gets to it: the length takes that block and the sectors before it are to be had. */
  ghost predicate StaleHeader(v: Volume, h: nat, length: nat, cached: set<nat>)
    requires h < |v.disk|
  {
    h in cached && exists i: nat ::
      i < NUM_DIRECT && i < Blocks(length) && i <= FreeCount(v.used) && Word(v.disk[h], i) != 0
  }

  /** The bytes of a file made on v0 are what clearing its sectors left. */
  ghost predicate ShowsCleared(v0: Volume, v: Volume, h: nat, length: nat, cached: set<nat>)
    requires Shape(v) && |v.disk| == |v0.disk|
  {
    forall p: nat | p < length ::
      Key(h, Data(p / SECTOR_SIZE)) in v.loc && ByteAt(v, h, p) == CreatedByte(v0, v, h, cached, p)
  }

  /** However creation ends: other files are kept, and on success the tree is that of the length. */
  lemma CreateLeaves(v0: Volume, v1: Volume, lengths: map<nat, nat>, h: nat, length: nat, cached: set<nat>,
                     ns: seq<Node>)
    requires Usable(v0, lengths) && h in v0.held && h != 0 && h < |v0.disk| && length < 0x8000_0000
    requires v1 == Started(v0, h, length, cached) && Layout(v1) && HasNodes(v1, h, 0) && v1.loc[Key(h, Header)] == h
    requires ns == Order(0, Least(MAX_BLOCKS, Blocks(length)), false)
    ensures var r := Run(v1, h, ns, false, cached);
            && |r.v.used| == |v0.used| && OthersKept(v0, r.v, lengths, h)
            && (r.o == Ok ==> r.v.held == v0.held - {h})
            && (r.o == Ok ==> (length <= MAX_BYTES <==> HasData(r.v, h, length)))
  {
    hide Owned, Wired, Word, OthersKept, SameFile, FreeList, Order, Run, HeaderOn, Headed, HasData;
    StartKeeps(v0, lengths, h, length, cached);
    RunExtends(v1, h, ns, false, cached);
    CreateOthers(v0, v1, Run(v1, h, ns, false, cached).v, h, cached, lengths);
    if Run(v1, h, ns, false, cached).o == Ok {
      RunNodes(v1, h, 0, Least(MAX_BLOCKS, Blocks(length)), false, cached);
      HasAllData(Run(v1, h, ns, false, cached).v, h, length);
    }
  }

  lemma CreateFails(v0: Volume, v1: Volume, lengths: map<nat, nat>, h: nat, length: nat, cached: set<nat>,
                    ns: seq<Node>)
    requires Usable(v0, lengths) && h in v0.held && h != 0 && h < |v0.disk| && length < 0x8000_0000
    requires v1 == Started(v0, h, length, cached) && Layout(v1) && HasNodes(v1, h, 0) && v1.loc[Key(h, Header)] == h
    requires OthersKept(v0, Run(v1, h, ns, false, cached).v, lengths, h)
    requires |Run(v1, h, ns, false, cached).v.used| == |v0.used| && Run(v1, h, ns, false, cached).o != Ok
    ensures var r := Run(v1, h, ns, false, cached);
            && Usable(Abandoned(v0, r.v), lengths) && Lost(v0.used, r.v.used, v0.held, Abandoned(v0, r.v).held)
            && OthersKept(v0, Abandoned(v0, r.v), lengths, h)
            && (Full(r.o) ==> AllMarked(r.v.used) && (r.o == OffDevice <==> FreeList(v0.past) != []))
  {
    hide Owned, Wired, Word, Layout, Extends, OthersKept, SameFile, FreeList, Run, HeaderOn, Headed, Usable, Lost;
    hide AllMarked, HasNodes, Keeps;
    var v := Run(v1, h, ns, false, cached).v;
    UsableLayout(v0, lengths);
    HeldIsNoFile(v0, lengths, h);
    StartedKeeps(v0, h, length, cached);
    RunExtends(v1, h, ns, false, cached);
    CreationAbandoned(v0, v1, v, lengths, h, cached);
    if Full(Run(v1, h, ns, false, cached).o) {
      OutOfSpace(v1, h, ns, false, cached);
    }
    ExtendsKeeps(v1, v, h, cached);
    AbandonedLost(v0, v);
  }

  /** What a creation that ends well leaves. */
  lemma CreateDone(v0: Volume, v1: Volume, v: Volume, lengths: map<nat, nat>, h: nat, length: nat, cached: set<nat>,
                   ns: seq<Node>)
    requires Usable(v0, lengths) && h in v0.held && h != 0 && h < |v0.disk| && length <= MAX_BYTES
    requires v1 == Started(v0, h, length, cached) && Layout(v1) && HasNodes(v1, h, 0) && v1.loc[Key(h, Header)] == h
    requires ns == Order(0, Least(MAX_BLOCKS, Blocks(length)), false) && Result(Ok, v) == Run(v1, h, ns, false, cached)
    requires OthersKept(v0, v, lengths, h)
    ensures Usable(v, lengths[h := length]) && |v.disk| == |v0.disk| && ShowsCleared(v0, v, h, length, cached)
    ensures FreeUncached(v0.used, cached) ==> ZeroBeside(v, h, 0, length, 0, [])
    ensures GoodVolume(v0, lengths) && Cleared(v0.disk, cached, h) == ZERO
            && Fresh(v0, cached, CostOf(0, Blocks(length))) ==>
              GoodVolume(v, lengths[h := length]) && FileBytes(v, lengths[h := length], h) == Zeros(length)
    ensures GoodVolume(v0, lengths) && h !in cached && FreeUncached(v0.used, cached) ==>
              GoodVolume(v, lengths[h := length]) && FileBytes(v, lengths[h := length], h) == Zeros(length)
  {
    hide Owned, Wired, Word, Extends, FileOk, Headed, Content, OthersKept, SameFile, FreeList, CostOf, Order, Run;
    hide Fresh, HeaderOn, GoodVolume, HasNodes, HasData, ByteAt, CreatedByte, Tidy, AllFresh, FreeUncached, ZeroBeside;
    UsableLayout(v0, lengths);
    HeldIsNoFile(v0, lengths, h);
    StartKeeps(v0, lengths, h, length, cached);
    RunExtends(v1, h, ns, false, cached);
    ExtendsFacts(v1, v, h, cached, Key(h, Header));
    RunNodes(v1, h, 0, Least(MAX_BLOCKS, Blocks(length)), false, cached);
    HasAllData(v, h, length);
    OrderCost(0, Blocks(length), false);
    CreateHeaded(v0, v1, v, h, length, cached);
    GrownKeys(v1, v, h, cached);
    CreateUsable(v0, v, h, length, lengths);
    CreatedBytes(v0, v, h, length, cached);
    UncachedIsFresh(v0, cached, |ns|);
    if FreeUncached(v0.used, cached) {
      CreatedZero(v0, v1, v, h, length, cached);
    }
    if GoodVolume(v0, lengths) && Cleared(v0.disk, cached, h) == ZERO && Fresh(v0, cached, |ns|) {
      CreateClean(v0, v1, h, length, cached, lengths, ns);
    }
  }

  lemma NotStale(v: Volume, h: nat, length: nat, cached: set<nat>)
    requires h < |v.disk|
    ensures h !in cached ==> !StaleHeader(v, h, length, cached)
  {}

  lemma HasAllData(v: Volume, h: nat, length: nat)
    requires HasNodes(v, h, Least(MAX_BLOCKS, Blocks(length)))
    ensures length <= MAX_BYTES <==> HasData(v, h, length)
    ensures length <= MAX_BYTES ==> Least(MAX_BLOCKS, Blocks(length)) == Blocks(length)
  {
    if length > MAX_BYTES {
      assert MAX_BLOCKS < Blocks(length);
      assert !Needed(Data(MAX_BLOCKS), MAX_BLOCKS);
    }
  }

  lemma CreatedBytes(v0: Volume, v: Volume, h: nat, length: nat, cached: set<nat>)
    requires Layout(v) && |v.disk| == |v0.disk|
    requires forall p: nat | p / SECTOR_SIZE < Blocks(length) ::
               Key(h, Data(p / SECTOR_SIZE)) in v.loc && ByteAt(v, h, p) == CreatedByte(v0, v, h, cached, p)
    ensures forall p: nat | p < length ::
              Key(h, Data(p / SECTOR_SIZE)) in v.loc && ByteAt(v, h, p) == CreatedByte(v0, v, h, cached, p)
  {
    hide Owned, Wired, ByteAt, CreatedByte;
    forall p: nat | p < length
      ensures Key(h, Data(p / SECTOR_SIZE)) in v.loc && ByteAt(v, h, p) == CreatedByte(v0, v, h, cached, p)
    {
      assert p / SECTOR_SIZE < Blocks(length);
    }
  }

  lemma CreateClean(v0: Volume, v1: Volume, h: nat, length: nat, cached: set<nat>, lengths: map<nat, nat>,
                    ns: seq<Node>)
    requires GoodVolume(v0, lengths) && Usable(v0, lengths) && h in v0.held && h != 0 && h < |v0.disk| && h !in lengths
    requires length <= MAX_BYTES && v1 == Started(v0, h, length, cached) && Layout(v1) && HasNodes(v1, h, 0)
    requires Cleared(v0.disk, cached, h) == ZERO && Fresh(v0, cached, |ns|)
    requires Run(v1, h, ns, false, cached).o == Ok && Headed(Run(v1, h, ns, false, cached).v, h, length)
    requires OthersKept(v0, Run(v1, h, ns, false, cached).v, lengths, h)
    requires forall k | k in Run(v1, h, ns, false, cached).v.loc :: k in v0.loc || k.h == h
    ensures var v := Run(v1, h, ns, false, cached).v;
            GoodVolume(v, lengths[h := length]) && Content(v, h, length) == Zeros(length)
  {
    hide Owned, Wired, Run, FreeList, Tidy, FileOk, Headed, HasNodes, OthersKept, Content, Fresh, Extends, NewZero;
    hide HeaderOn;
    var v := Run(v1, h, ns, false, cached).v;
    StartTidy(v0, lengths, h, length, cached);
    StartFree(v0, h, length, cached, |ns|);
    RunTidy(v1, h, ns, false, cached);
    RunZero(v1, h, ns, false, cached);
    RunExtends(v1, h, ns, false, cached);
    CreateHolds(v1, v, h, length, cached);
    CreateGood(v0, v, h, length, lengths);
  }

  lemma BlockThere(v: Volume, h: nat, c: nat, pos: nat)
    requires HasNodes(v, h, c) && pos < SECTOR_SIZE * c
    ensures pos / SECTOR_SIZE < c && Key(h, Data(pos / SECTOR_SIZE)) in v.loc
  {}

  function Longer(a: nat, b: nat): nat { if a < b then b else a }

  /** The outcome o of a run, in terms of the volume it starts from. */
  ghost predicate EndsAs(v: Volume, h: nat, ns: seq<Node>, growing: bool, cached: set<nat>, o: Outcome)
    requires Layout(v)
  {
    && (o == Panic <==> SomeStop(v, h, ns, growing, cached))
    && (Full(o) <==> o != Panic && FreeCount(v.used) < |ns|)
    && (Full(o) ==> (o == OffDevice <==> FreeList(v.past) != []))
  }

  /** File h of v, `length` bytes long, holds buf at `offset` and elsewhere the bytes of the file
      grown from v0. */
  ghost predicate WrittenOver(v0: Volume, v: Volume, h: nat, cached: set<nat>, length: nat, offset: nat, buf: seq<byte>)
    requires Layout(v0) && Layout(v)
  {
    && |v.disk| == |v0.disk|
    && forall p: nat | p < length ::
         Key(h, Data(p / SECTOR_SIZE)) in v.loc &&
         ByteAt(v, h, p) ==
           if offset <= p < offset + |buf| then buf[p - offset] else GrownByte(v0, v, h, cached, p)
  }

  lemma UsableFacts(v: Volume, lengths: map<nat, nat>, h: nat)
    requires Usable(v, lengths) && h in lengths
    ensures Layout(v) && Headed(v, h, lengths[h])
  {}

  lemma NoGrowth(v: Volume, h: nat, c: nat, d: nat, cached: set<nat>)
    requires Layout(v)
    ensures var ns := Order(c, d, true);
            d <= c ==> ns == [] && Run(v, h, ns, true, cached) == Result(Ok, v) && EndsAs(v, h, ns, true, cached, Ok)
                       && CostOf(c, d) == 0 && !MeetsBarrier(c, d, FreeCount(v.used))
  {
    hide Layout;
  }

  lemma BlocksGrow(a: nat, b: nat)
    requires a <= b
    ensures Blocks(a) <= Blocks(b)
  {}

  /** What the run from v leaves. */
  lemma GrewFacts(v: Volume, h: nat, ns: seq<Node>, cached: set<nat>, lengths: map<nat, nat>)
    requires Usable(v, lengths) && h in lengths
    ensures Layout(v) && Headed(v, h, lengths[h]) && HasData(v, h, lengths[h])
    ensures var r := Run(v, h, ns, true, cached);
            && Extends(v, r.v, h, cached) && OthersKept(v, r.v, lengths, h) && HasData(r.v, h, lengths[h])
            && Content(r.v, h, lengths[h]) == Content(v, h, lengths[h])
            && (r.o == Ok ==> FreeCount(r.v.used) + |ns| == FreeCount(v.used) && r.v.past == v.past)
  {
    hide Owned, Wired, Word, Extends, OthersKept, Content, Headed, FreeList, Run, SameFile;
    HeadedFacts(v, h, lengths[h]);
    RunExtends(v, h, ns, true, cached);
    var r := Run(v, h, ns, true, cached);
    OthersAfterGrowth(v, r.v, h, cached, lengths);
    BytesAfterGrowth(v, r.v, h, cached, lengths[h]);
    if r.o == Ok {
      RunPlaces(v, h, ns, true, cached);
    }
  }

  lemma IsWrote(v0: Volume, v1: Volume, v2: Volume, v3: Volume, h: nat, cached: set<nat>, off: nat, buf: seq<byte>,
                length: nat)
    requires Layout(v0) && Layout(v1) && Key(h, Header) in v0.loc && Extends(v0, v1, h, cached)
    requires DataWritten(v1, v2, h, off, buf) && length <= MAX_BYTES && HasNodes(v1, h, Blocks(length)) && h < |v2.disk|
    requires v3 == v2.(disk := v2.disk[h := PutWord(v2.disk[h], LENGTH_WORD, length)])
             || (v3 == v2 && Word(v2.disk[h], LENGTH_WORD) == length)
    ensures Wrote(v0, v1, v2, v3, h, cached, off, buf, length)
  {
    hide Layout, Extends, DataWritten, HasNodes, Word, PutWord;
  }

  lemma WroteOver(v0: Volume, v1: Volume, v2: Volume, v3: Volume, h: nat, cached: set<nat>, off: nat, buf: seq<byte>,
                  length: nat)
    requires Layout(v0) && Wrote(v0, v1, v2, v3, h, cached, off, buf, length) && h < |v0.disk|
    requires Word(v0.disk[h], MAGIC_WORD) == INODE_MAGIC
    ensures Layout(v3) && WrittenOver(v0, v3, h, cached, length, off, buf) && FreeSame(v0, v3)
    ensures v3.used == v1.used
  {
    hide Owned, Wired, Word, Wrote, HasNodes, GrownByte, ByteAt;
    WroteHeaded(v0, v1, v2, v3, h, cached, off, buf, length);
    HeadedFacts(v3, h, length);
    forall p: nat | p < length
      ensures Key(h, Data(p / SECTOR_SIZE)) in v3.loc && ByteAt(v3, h, p) ==
                if off <= p < off + |buf| then buf[p - off] else GrownByte(v0, v3, h, cached, p)
    {
      assert p / SECTOR_SIZE < Blocks(length);
      WroteByte(v0, v1, v2, v3, h, cached, off, buf, length, p);
    }
  }

  lemma SplicedLength(c: seq<byte>, off: nat, buf: seq<byte>)
    ensures |Spliced(c, off, buf)| == Longer(|c|, off + |buf|)
  {}

  /** A whole run over empty sectors brings nothing to light. */
  lemma FreshFacts(v: Volume, lengths: map<nat, nat>, h: nat, ns: seq<Node>, cached: set<nat>)
    requires GoodVolume(v, lengths) && Fresh(v, cached, |ns|) && Run(v, h, ns, true, cached).o == Ok
    ensures var r := Run(v, h, ns, true, cached).v;
            Layout(v) && |r.disk| == |v.disk| && NewZero(v, r, cached) && Tidy(r.disk, r.loc)
  {
    hide Owned, Wired, Tidy, Fresh, NewZero, Run, FileOk;
    RunZero(v, h, ns, true, cached);
    RunTidy(v, h, ns, true, cached);
  }

  /** Every free sector is empty once cleared. */
  ghost predicate AllFresh(v: Volume, cached: set<nat>) {
    forall s | 0 <= s < |v.used| && !v.used[s] :: s < |v.disk| && Cleared(v.disk, cached, s) == ZERO
  }

  /** No free sector has a slot in the cache. */
  ghost predicate FreeUncached(used: seq<bool>, cached: set<nat>) {
    forall s | 0 <= s < |used| && !used[s] :: s !in cached
  }

  lemma UncachedFresh(v: Volume, cached: set<nat>)
    requires Layout(v) && FreeUncached(v.used, cached)
    ensures AllFresh(v, cached)
  {
    hide Owned, Wired;
  }

  lemma UncachedIsFresh(v: Volume, cached: set<nat>, n: nat)
    requires Layout(v)
    ensures FreeUncached(v.used, cached) ==> Fresh(v, cached, n)
  {
    hide Layout, Fresh, AllFresh, FreeUncached;
    if FreeUncached(v.used, cached) {
      UncachedFresh(v, cached);
      FreshNow(v, cached, n);
    }
  }

  /** Of the bytes from .. to of file h those the buffer does not cover are zero. */
  ghost predicate ZeroBeside(v: Volume, h: nat, from: nat, to: nat, offset: nat, buf: seq<byte>)
    requires Shape(v)
  {
    forall p: nat | from <= p < to && !(offset <= p < offset + |buf|) ::
      Key(h, Data(p / SECTOR_SIZE)) in v.loc && ByteAt(v, h, p) == 0
  }

  /** Nodes new in v are in sectors free in v0. */
  ghost predicate NewFromFree(v0: Volume, v: Volume)
    requires Shape(v) && |v.used| == |v.disk| == |v0.used|
  {
    forall k | k in v.loc && k !in v0.loc :: !v0.used[v.loc[k]]
  }

  /** A write that takes uncached sectors leaves zeros in them but for the buffer. */
  lemma WrittenZero(v0: Volume, v: Volume, h: nat, cached: set<nat>, length0: nat, length: nat, offset: nat,
                    buf: seq<byte>)
    requires Layout(v0) && Layout(v) && |v.disk| == |v0.disk| && FreeUncached(v0.used, cached) && NewFromFree(v0, v)
    requires Headed(v0, h, length0) && WrittenOver(v0, v, h, cached, length, offset, buf)
    ensures ZeroBeside(v, h, Blocks(length0) * SECTOR_SIZE, length, offset, buf)
  {
    hide Owned, Wired, Word, ByteAt;
    HeadedFacts(v0, h, length0);
    forall p: nat | Blocks(length0) * SECTOR_SIZE <= p < length && !(offset <= p < offset + |buf|)
      ensures Key(h, Data(p / SECTOR_SIZE)) in v.loc && ByteAt(v, h, p) == 0
    {
      assert p / SECTOR_SIZE >= Blocks(length0);
      assert Key(h, Data(p / SECTOR_SIZE)) !in v0.loc;
      assert v.loc[Key(h, Data(p / SECTOR_SIZE))] !in cached;
    }
  }

  lemma WroteFree(v0: Volume, v1: Volume, v2: Volume, v3: Volume, h: nat, cached: set<nat>, off: nat, buf: seq<byte>,
                  length: nat)
    requires Layout(v0) && Wrote(v0, v1, v2, v3, h, cached, off, buf, length) && Layout(v3)
    requires v3.loc == v1.loc && v3.used == v1.used && |v3.disk| == |v0.disk|
    ensures |v3.used| == |v3.disk| == |v0.used| && NewFromFree(v0, v3)
  {
    hide Owned, Wired, Word, PutWord, DataWritten, HasNodes;
  }

  lemma WroteZero(v0: Volume, v1: Volume, v2: Volume, v3: Volume, h: nat, cached: set<nat>, off: nat, buf: seq<byte>,
                  length0: nat, length: nat)
    requires Layout(v0) && Wrote(v0, v1, v2, v3, h, cached, off, buf, length) && h < |v0.disk|
    requires Headed(v0, h, length0) && FreeUncached(v0.used, cached)
    ensures Layout(v3) && ZeroBeside(v3, h, Blocks(length0) * SECTOR_SIZE, length, off, buf)
  {
    hide Owned, Wired, Word, Wrote, WrittenOver, ZeroBeside, Headed, FreeUncached, NewFromFree;
    HeadedFacts(v0, h, length0);
    WroteHeaded(v0, v1, v2, v3, h, cached, off, buf, length);
    WroteOver(v0, v1, v2, v3, h, cached, off, buf, length);
    WroteFree(v0, v1, v2, v3, h, cached, off, buf, length);
    WrittenZero(v0, v3, h, cached, length0, length, off, buf);
  }

  /** What a write that ends well leaves. */
  lemma WriteDone(v0: Volume, v1: Volume, v2: Volume, v3: Volume, lengths: map<nat, nat>, h: nat, cached: set<nat>,
                  off: nat, buf: seq<byte>, ns: seq<Node>)
    requires Usable(v0, lengths) && h in lengths && h < |v0.disk| && Word(v0.disk[h], MAGIC_WORD) == INODE_MAGIC
    requires Layout(v0) && Result(Ok, v1) == Run(v0, h, ns, true, cached)
    requires Wrote(v0, v1, v2, v3, h, cached, off, buf, Longer(lengths[h], off + |buf|))
    ensures var length, c := Longer(lengths[h], off + |buf|), Spliced(FileBytes(v0, lengths, h), off, buf);
            && Usable(v3, lengths[h := length]) && OthersKept(v0, v3, lengths, h) && v3.held == v0.held
            && WrittenOver(v0, v3, h, cached, length, off, buf) && FreeSame(v0, v3) && v3.used == v1.used
            && (FreeUncached(v0.used, cached) ==>
                  ZeroBeside(v3, h, Blocks(lengths[h]) * SECTOR_SIZE, length, off, buf))
            && |c| == length && (GoodVolume(v0, lengths) && Fresh(v0, cached, |ns|) ==> Became(v0, v3, lengths, h, c))
  {
    hide Owned, Wired, Word, Wrote, Run, Fresh, FileOk, Headed, Content, Spliced, GoodVolume, OthersKept, WrittenOver;
    hide FreeSame, FreeUncached, ZeroBeside, Became, Tidy, NewZero, SameFile;
    var length := Longer(lengths[h], off + |buf|);
    UsableFacts(v0, lengths, h);
    WriteUsable(v0, v1, v2, v3, lengths, h, cached, off, buf, length);
    WroteOver(v0, v1, v2, v3, h, cached, off, buf, length);
    HeadedFacts(v0, h, lengths[h]);
    SplicedLength(FileBytes(v0, lengths, h), off, buf);
    if FreeUncached(v0.used, cached) {
      WroteZero(v0, v1, v2, v3, h, cached, off, buf, lengths[h], length);
    }
    if GoodVolume(v0, lengths) && Fresh(v0, cached, |ns|) {
      FreshFacts(v0, lengths, h, ns, cached);
      WriteBecomes(v0, v1, v2, v3, lengths, h, cached, off, buf);
    }
  }

  /** A file made of uncached sectors is zero. */
  lemma CreatedZero(v0: Volume, v1: Volume, v: Volume, h: nat, length: nat, cached: set<nat>)
    requires Layout(v0) && h < |v0.disk| && length < B32 && v1 == Started(v0, h, length, cached) && Layout(v1)
    requires Layout(v) && |v.disk| == |v0.disk| && Extends(v1, v, h, cached) && HasNodes(v1, h, 0)
    requires FreeUncached(v0.used, cached)
    requires forall p: nat | p < length ::
               Key(h, Data(p / SECTOR_SIZE)) in v.loc && ByteAt(v, h, p) == CreatedByte(v0, v, h, cached, p)
    ensures ZeroBeside(v, h, 0, length, 0, [])
  {
    hide Owned, Wired, Word, ByteAt, HeaderOn;
    forall p: nat | p < length ensures ByteAt(v, h, p) == 0 {
      assert Key(h, Data(p / SECTOR_SIZE)) !in v1.loc;
      assert !v1.used[v.loc[Key(h, Data(p / SECTOR_SIZE))]];
    }
  }

  lemma FreshNow(v: Volume, cached: set<nat>, n: nat)
    requires AllFresh(v, cached)
    ensures Fresh(v, cached, n)
  {
    hide FreeList;
    FreeListFacts(v.used);
  }

  lemma StillFresh(v: Volume, v': Volume, cached: set<nat>)
    requires AllFresh(v, cached) && FreeSame(v, v')
    ensures AllFresh(v', cached)
  {}

  lemma NothingBecame(v: Volume, lengths: map<nat, nat>, h: nat)
    requires GoodVolume(v, lengths) && Usable(v, lengths) && h in lengths
    ensures Became(v, v, lengths, h, FileBytes(v, lengths, h))
  {
    hide GoodVolume, FileBytes, OthersKept, Headed;
    UsableFacts(v, lengths, h);
    NothingKept(v, lengths, h);
    assert lengths[h := |FileBytes(v, lengths, h)|] == lengths;
  }

  lemma BecameFacts(v0: Volume, v: Volume, lengths: map<nat, nat>, h: nat, c: seq<byte>)
    requires Became(v0, v, lengths, h, c)
    ensures GoodVolume(v, lengths[h := |c|]) && Usable(v, lengths[h := |c|]) && FileBytes(v, lengths[h := |c|], h) == c
    ensures v.held == v0.held
  {}

  lemma BecameAgain(v0: Volume, v: Volume, v': Volume, lengths: map<nat, nat>, h: nat, l: nat, c: seq<byte>)
    requires OthersKept(v0, v, lengths, h) && OthersKept(v0, v', lengths, h) && v.held == v0.held
    requires Became(v, v', lengths[h := l], h, c)
    ensures Became(v0, v', lengths, h, c)
  {
    hide GoodVolume, Usable, OthersKept, FileBytes;
    var m: map<nat, nat> := lengths[h := l];
    assert m[h := |c|] == lengths[h := |c|];
  }

  lemma WritesNext(length: nat, free: nat, spare: bool, writes: seq<Write>, i: nat)
    requires i < |writes| && length <= MAX_BYTES
    ensures var w, o := writes[i], WriteEnds(length, free, spare, writes[i]);
            var c, d := Blocks(length), Blocks(w.offset + |w.data|);
            && (o != Ok ==> WritesEnd(length, free, spare, writes[i..]) == o)
            && (o == Ok ==> CostOf(c, d) <= free && |Order(c, d, true)| == CostOf(c, d)
                            && WritesEnd(length, free, spare, writes[i..])
                               == WritesEnd(Longer(length, w.offset + |w.data|), free - CostOf(c, d), spare,
                                            writes[i + 1..]))
  {
    hide MeetsBarrier, CostOf, Order;
    assert writes[i..][0] == writes[i] && writes[i..][1..] == writes[i + 1..];
    if WriteEnds(length, free, spare, writes[i]) == Ok {
      WithinReach(Blocks(length), Blocks(writes[i].offset + |writes[i].data|), free);
    }
  }

  lemma NoWrites(length: nat, free: nat, spare: bool, writes: seq<Write>)
    ensures WritesEnd(length, free, spare, writes[|writes|..]) == Ok
  {}

  /** With sectors enough for the whole way and no block out of reach before they are used up,
      there is none at all. */
  lemma WithinReach(c: nat, d: nat, free: nat)
    requires !MeetsBarrier(c, d, free) && CostOf(c, d) <= free && c <= MAX_BLOCKS
    ensures CanGrow(c, d) && |Order(c, d, true)| == CostOf(c, d)
  {
    hide OutOfReach, Order, CostOf;
    if c <= d {
      var k := FirstOut(c, d);
      CostGrows(c, k, d);
      WithinTree(c, k);
      OrderCost(c, d, true);
    } else {
      OrderCost(c, d, true);
    }
  }

  lemma PresentWord(v: Volume, h: nat, n: Node)
    requires Layout(v) && IsNode(n) && n != Header && Key(h, Parent(n)) in v.loc
    ensures !Open(v, h, n) ==> WordOf(v, h, n) != 0
    ensures Tidy(v.disk, v.loc) ==> (WordOf(v, h, n) != 0 <==> Key(h, n) in v.loc)
  {
    hide Word;
  }

  /** The word of node n, found where it was put or where it has been all along. */
  lemma StepEntry(v0: Volume, v1: Volume, h: nat, n: Node, fetched: bool, cached: set<nat>)
    requires Layout(v0) && Layout(v1) && IsNode(n) && n != Header && Key(h, Parent(n)) in v0.loc
    requires if fetched then Result(Ok, v1) == Step(v0, h, n, true, cached) else v1 == v0 && Key(h, n) in v0.loc
    ensures Key(h, n) in v1.loc && v0.loc[Key(h, Parent(n))] < |v1.disk|
    ensures Word(v1.disk[v0.loc[Key(h, Parent(n))]], Slot(n)) == v1.loc[Key(h, n)]
    ensures forall k | k in v0.loc :: k in v1.loc && v1.loc[k] == v0.loc[k]
    ensures fetched ==> Key(h, n) !in v0.loc
  {
    hide Owned, Word, Step, FreeList, Slot;
    StepExtends(v0, h, n, true, cached);
  }

  /** How the growth of one block ends. */
  lemma BlockEnds(v: Volume, h: nat, k: nat, cached: set<nat>)
    requires Layout(v) && HasNodes(v, h, k)
    ensures var r := Run(v, h, BlockNodes(k, true), true, cached);
            && (OutOfReach(k) ==> r.o == Panic)
            && (Tidy(v.disk, v.loc) && Fresh(v, cached, Cost(k)) ==> (r.o == Panic <==> OutOfReach(k)))
            && Extends(v, r.v, h, cached) && (r.o == Ok ==> HasNodes(r.v, h, k + 1))
  {
    NoMoreThanTree(v, h, k);
    hide Layout, HasNodes, Run, Tidy, Fresh, SomeStop, BlockNodes, Extends, FreeList, CostOf, Order, MeetsBarrier;
    hide CanGrow, Cost, OutOfReach;
    OrderNone(k, true);
    OrderNext(k, k, true);
    var ns := BlockNodes(k, true);
    assert Order(k, k + 1, true) == ns;
    Outcomes(v, h, ns, true, cached);
    RunExtends(v, h, ns, true, cached);
    BarrierHere(k, FreeCount(v.used));
    if OutOfReach(k) {
      OutStops(v, h, k, cached);
    } else if Tidy(v.disk, v.loc) && Fresh(v, cached, Cost(k)) {
      CostIsNodes(k);
      GrowthStops(v, h, k, k + 1, cached);
    }
    if Run(v, h, ns, true, cached).o == Ok {
      RunNodes(v, h, k, k + 1, true, cached);
    }
  }

  lemma OutStops(v: Volume, h: nat, k: nat, cached: set<nat>)
    requires Layout(v) && HasNodes(v, h, k) && k <= MAX_BLOCKS && OutOfReach(k)
    ensures SomeStop(v, h, Order(k, k + 1, true), true, cached)
  {
    hide Layout, HasNodes, SomeStop, Order, OutOfReach, FreeList;
    CostNone(k);
    BarrierStops(v, h, k, k, k + 1, cached);
  }

  lemma NoMoreThanTree(v: Volume, h: nat, k: nat)
    requires Layout(v) && HasNodes(v, h, k)
    ensures k <= MAX_BLOCKS
  {
    hide Owned, Wired;
    var past := Key(h, Data(MAX_BLOCKS));
    assert past in v.loc <==> Needed(past.n, k);
  }

  lemma OrderNone(c: nat, growing: bool)
    ensures Order(c, c, growing) == []
  {}

  lemma OrderNext(c0: nat, c: nat, growing: bool)
    requires c0 <= c
    ensures Order(c0, c + 1, growing) == Order(c0, c, growing) + BlockNodes(c, growing)
  {}

  /** How an extension over empty sectors ends, in block numbers and counts of sectors. */
  lemma ExtendEnds(v: Volume, h: nat, c: nat, d: nat, cached: set<nat>)
    requires Layout(v) && Tidy(v.disk, v.loc) && HasNodes(v, h, c) && c <= d && c <= MAX_BLOCKS
    requires Fresh(v, cached, |Order(c, d, true)|)
    ensures var ns := Order(c, d, true);
            && (SomeStop(v, h, ns, true, cached) <==> MeetsBarrier(c, d, FreeCount(v.used)))
            && (!SomeStop(v, h, ns, true, cached) ==> (FreeCount(v.used) < |ns| <==> FreeCount(v.used) < CostOf(c, d)))
            && (!SomeStop(v, h, ns, true, cached) && |ns| <= FreeCount(v.used) ==> CanGrow(c, d))
  {
    hide Layout, Tidy, HasNodes, Fresh, SomeStop, Order, OutOfReach, FreeList;
    GrowthStops(v, h, c, d, cached);
    var k := FirstOut(c, d);
    WithinTree(c, k);
    OrderCost(c, k, true);
    OrderSplit(c, k, d, true);
    CostGrows(c, k, d);
    if !SomeStop(v, h, Order(c, d, true), true, cached) && k < d {
      assert FreeCount(v.used) < CostOf(c, k);
    }
  }

  lemma {:induction false} CostGrows(c0: nat, c: nat, d: nat)
    requires c <= d
    ensures CostOf(c0, c) <= CostOf(c0, d)
  {
    hide Cost;
    if c < d {
      CostGrows(c0, c, d - 1);
    }
  }

  /** What a file of k blocks has and lacks when block k belongs below the double-indirect node. */
  lemma DoubleFacts(v: Volume, h: nat, k: nat, index1: nat, index2: nat)
    requires HasNodes(v, h, k) && k == FIRST_DOUBLE + ENTRIES * index1 + index2 && index2 < ENTRIES
    ensures Key(h, Header) in v.loc && IsNode(Double) && Parent(Double) == Header
    ensures index1 > 0 ==> Key(h, Double) in v.loc
    ensures index1 < ENTRIES ==>
              BlockNodes(k, true) == (if index1 == 0 then [Double] else [])
                                     + ((if index2 == 0 then [Second(index1)] else []) + [Data(k)])
    ensures index1 >= ENTRIES ==> k >= MAX_BLOCKS && BlockNodes(k, true) == [Data(k)]
  {}

  lemma DoubleChildren(v0: Volume, v1: Volume, h: nat, k: nat, index1: nat, index2: nat)
    requires HasNodes(v0, h, k) && k == FIRST_DOUBLE + ENTRIES * index1 + index2 && index1 < ENTRIES && index2 < ENTRIES
    requires (index1 == 0 ==> Key(h, Double) !in v0.loc) && forall q | q in v0.loc :: q in v1.loc
    ensures IsNode(Second(index1)) && Parent(Second(index1)) == Double && Slot(Second(index1)) == index1
    ensures IsNode(Data(k)) && Parent(Data(k)) == Second(index1) && Slot(Data(k)) == index2
    ensures index2 > 0 ==> Key(h, Second(index1)) in v1.loc
  {}

  lemma PastStops(v: Volume, h: nat, k: nat, cached: set<nat>)
    requires Layout(v) && k >= MAX_BLOCKS
    ensures Run(v, h, [Data(k)], true, cached) == Result(Panic, v)
  {
    hide Layout;
    RunOne(v, h, Data(k), true, cached);
  }

  /** The same for direct blocks and blocks below single-indirect nodes. */
  lemma ShallowFacts(v: Volume, h: nat, k: nat)
    requires HasNodes(v, h, k)
    ensures Key(h, Header) in v.loc && Slot(Double) == NUM_DIRECT + NUM_SINGLE
    ensures k < NUM_DIRECT ==>
              IsNode(Data(k)) && Parent(Data(k)) == Header && Slot(Data(k)) == k && BlockNodes(k, true) == [Data(k)]
    ensures NUM_DIRECT <= k < FIRST_DOUBLE ==>
              var j, i := (k - NUM_DIRECT) / ENTRIES, (k - NUM_DIRECT) % ENTRIES;
              && IsNode(Data(k)) && Parent(Data(k)) == Single(j) && Slot(Data(k)) == i
              && IsNode(Single(j)) && Parent(Single(j)) == Header && Slot(Single(j)) == NUM_DIRECT + j
              && (i > 0 ==> Key(h, Single(j)) in v.loc)
              && BlockNodes(k, true) == (if i == 0 then [Single(j)] else []) + [Data(k)]
  {}

  /** Where byte_to_sector asks the cache for sector 0: at a position whose single-indirect
      node the file does not have. */
  lemma AsksForSectorZero(v: Volume, h: nat, length: nat, pos: nat)
    requires Layout(v) && Tidy(v.disk, v.loc) && FileOk(v, h, length) && NUM_DIRECT <= pos / SECTOR_SIZE < FIRST_DOUBLE
    ensures var j := (pos / SECTOR_SIZE - NUM_DIRECT) / ENTRIES;
            Word(v.disk[h], NUM_DIRECT + j) == 0 <==> Blocks(length) <= NUM_DIRECT + ENTRIES * j
  {
    hide Owned, Wired, Word;
    var j := (pos / SECTOR_SIZE - NUM_DIRECT) / ENTRIES;
    FileFacts(v, h, length);
    ReadEntry(v, h, Single(j), h);
    assert Key(h, Single(j)) in v.loc <==> Needed(Single(j), Blocks(length));
    assert Key(h, Single(j)) in v.loc ==> v.loc[Key(h, Single(j))] > 0;
  }

  /** And further on: at a position whose double-indirect node, or index below it, is not there. */
  lemma AsksForSectorZeroBelow(v: Volume, h: nat, length: nat, pos: nat)
    requires Layout(v) && Tidy(v.disk, v.loc) && FileOk(v, h, length) && FIRST_DOUBLE <= pos / SECTOR_SIZE < MAX_BLOCKS
    ensures Word(v.disk[h], SectorTree.Slot(Double)) == 0 <==> Blocks(length) <= FIRST_DOUBLE
    ensures Blocks(length) > FIRST_DOUBLE ==>
              var j := (pos / SECTOR_SIZE - FIRST_DOUBLE) / ENTRIES;
              Key(h, Double) in v.loc && v.loc[Key(h, Double)] < |v.disk|
              && (Word(v.disk[v.loc[Key(h, Double)]], j) == 0 <==> Blocks(length) <= FIRST_DOUBLE + ENTRIES * j)
  {
    hide Owned, Wired, Word;
    var j := (pos / SECTOR_SIZE - FIRST_DOUBLE) / ENTRIES;
    FileFacts(v, h, length);
    ReadEntry(v, h, Double, h);
    assert Key(h, Double) in v.loc <==> Needed(Double, Blocks(length));
    assert Key(h, Double) in v.loc ==> v.loc[Key(h, Double)] > 0;
    if Key(h, Double) in v.loc {
      ReadEntry(v, h, Second(j), v.loc[Key(h, Double)]);
      assert Key(h, Second(j)) in v.loc <==> Needed(Second(j), Blocks(length));
      assert Key(h, Second(j)) in v.loc ==> v.loc[Key(h, Second(j))] > 0;
    }
  }

  /** For instance at the end of a file of 60 blocks. */
  lemma EndOfDirectBlocks(v: Volume, h: nat)
    requires Layout(v) && Tidy(v.disk, v.loc) && FileOk(v, h, 30720)
    ensures Word(v.disk[h], NUM_DIRECT) == 0
  {
    AsksForSectorZero(v, h, 30720, 30720);
  }

  /** Handing a sector out, or taking it back, changes no file. */
  lemma MarksOnly(v: Volume, v': Volume, lengths: map<nat, nat>)
    requires Usable(v, lengths) && Layout(v') && v'.disk == v.disk && v'.loc == v.loc
    ensures Usable(v', lengths) && (GoodVolume(v, lengths) ==> GoodVolume(v', lengths))
  {
    hide Layout, Word;
    forall h | h in lengths
      ensures Headed(v', h, lengths[h]) && (FileOk(v, h, lengths[h]) ==> FileOk(v', h, lengths[h]))
    {
      SameMarks(v, v', h, lengths[h]);
    }
  }

  lemma SameMarks(v: Volume, v': Volume, h: nat, length: nat)
    requires Layout(v) && Layout(v') && v'.disk == v.disk && v'.loc == v.loc
    ensures (Headed(v, h, length) ==> Headed(v', h, length)) && (FileOk(v, h, length) ==> FileOk(v', h, length))
  {
    hide Owned, Wired, Word;
    assert SameFile(v, v', h);
    if FileOk(v, h, length) {
      SameFileOk(v, v', h, length);
    }
  }

  lemma NothingKept(v: Volume, lengths: map<nat, nat>, h: nat)
    requires Layout(v)
    ensures OthersKept(v, v, lengths, h)
  {
    hide Layout;
  }

  lemma FreeingLayout(v0: Volume, v: Volume, h: nat, freed: set<Node>)
    requires Freeing(v0, v, h, freed)
    ensures Layout(v0) && Layout(v) && |v.used| == |v0.used|
  {}

  /** While a file is being freed its sectors still hold its tree. */
  lemma FreeingEntry(v0: Volume, v: Volume, h: nat, freed: set<Node>, n: Node, psec: nat)
    requires Freeing(v0, v, h, freed) && IsNode(n) && n != Header && Key(h, n) in v0.loc
    requires Key(h, Parent(n)) in v0.loc && psec == v0.loc[Key(h, Parent(n))]
    ensures psec < |v.disk| && Word(v.disk[psec], Slot(n)) == v0.loc[Key(h, n)]
  {
    hide IsLeft, IsFreed, Owned, Word;
  }

  lemma GrownKeys(v: Volume, v': Volume, h: nat, cached: set<nat>)
    requires Layout(v) && Layout(v') && Extends(v, v', h, cached)
    ensures forall k | k in v'.loc :: k in v.loc || k.h == h
  {}

  lemma ExtendsFacts(v: Volume, v': Volume, h: nat, cached: set<nat>, k: Key)
    requires Layout(v) && Layout(v') && Extends(v, v', h, cached) && k in v.loc
    ensures k in v'.loc && v'.loc[k] == v.loc[k] && v'.held == v.held && |v'.disk| == |v.disk|
  {}

  lemma ReachableFits(length: nat, newLength: nat)
    requires length <= MAX_BYTES && length <= newLength && Blocks(newLength) <= MAX_BLOCKS
    ensures newLength <= MAX_BYTES && newLength <= SECTOR_SIZE * Blocks(newLength)
  {}

  lemma HeadedFacts(v: Volume, h: nat, length: nat)
    requires Layout(v) && Headed(v, h, length)
    ensures length <= MAX_BYTES && Blocks(length) <= MAX_BLOCKS && HasNodes(v, h, Blocks(length))
    ensures Key(h, Header) in v.loc
    ensures v.loc[Key(h, Header)] == h < |v.disk| && HasData(v, h, length)
    ensures Word(v.disk[h], LENGTH_WORD) == length && Word(v.disk[h], MAGIC_WORD) == INODE_MAGIC
  {
    hide Wired, Word;
    assert Key(h, Header) in v.loc;
    HeaderPlace(v, h);
  }

  lemma FileFacts(v: Volume, h: nat, length: nat)
    requires Layout(v) && FileOk(v, h, length)
    ensures length <= MAX_BYTES && Blocks(length) <= MAX_BLOCKS && HasNodes(v, h, Blocks(length))
    ensures Key(h, Header) in v.loc
    ensures v.loc[Key(h, Header)] == h < |v.disk| && HasData(v, h, length)
    ensures Word(v.disk[h], LENGTH_WORD) == length && Word(v.disk[h], MAGIC_WORD) == INODE_MAGIC
  {
    hide Layout, Word, HasNodes;
    HeadedFacts(v, h, length);
  }

  lemma NothingWritten(v: Volume, h: nat, lo: nat)
    requires Layout(v)
    ensures DataWritten(v, v, h, lo, [])
  {}

  /** Looking position pos up leads to an index word that is no sector of the device. */
  ghost predicate Strays(disk: seq<Sector>, h: nat, pos: nat)
    requires h < |disk|
  {
    var k := pos / SECTOR_SIZE;
    NUM_DIRECT <= k < MAX_BLOCKS &&
    var single := (k - NUM_DIRECT) / ENTRIES;
    if single < NUM_SINGLE then Word(disk[h], NUM_DIRECT + single) >= |disk|
    else
      var dbl := Word(disk[h], NUM_DIRECT + NUM_SINGLE);
      dbl >= |disk| || Word(disk[dbl], single - NUM_SINGLE) >= |disk|
  }

  /** The words on the way to block k, for a block that is there or a tree without old words. */
  ghost predicate Findable(v: Volume, h: nat, c: nat, k: nat) {
    && Layout(v) && HasNodes(v, h, c) && h < |v.disk| && c <= MAX_BLOCKS && k < MAX_BLOCKS
    && (k < c || Tidy(v.disk, v.loc))
  }

  function Wanted(v: Volume, h: nat, k: nat): nat {
    if Key(h, Data(k)) in v.loc then v.loc[Key(h, Data(k))] else 0
  }

  lemma DirectWord(v: Volume, h: nat, c: nat, k: nat)
    requires Findable(v, h, c, k) && k < NUM_DIRECT
    ensures Word(v.disk[h], k) == Wanted(v, h, k)
  {
    hide Owned, Wired, Word, Layout, Tidy;
    HeaderThere(v, h, c);
    ReadEntry(v, h, Data(k), h);
  }

  lemma SingleWords(v: Volume, h: nat, c: nat, k: nat)
    requires Findable(v, h, c, k) && NUM_DIRECT <= k < FIRST_DOUBLE
    ensures var sec := Word(v.disk[h], NUM_DIRECT + (k - NUM_DIRECT) / ENTRIES);
            sec < |v.disk| && Word(v.disk[sec], (k - NUM_DIRECT) % ENTRIES) == Wanted(v, h, k)
  {
    hide Owned, Wired, Word, Layout, Tidy, HasNodes;
    HeaderThere(v, h, c);
    var j := (k - NUM_DIRECT) / ENTRIES;
    ParentsThere(v, h, c, k);
    ReadEntry(v, h, Single(j), h);
    ReadEntry(v, h, Data(k), Word(v.disk[h], NUM_DIRECT + j));
  }

  lemma DoubleWords(v: Volume, h: nat, c: nat, k: nat)
    requires Findable(v, h, c, k) && FIRST_DOUBLE <= k
    ensures var dbl := Word(v.disk[h], NUM_DIRECT + NUM_SINGLE);
            dbl < |v.disk| &&
            var sec := Word(v.disk[dbl], (k - FIRST_DOUBLE) / ENTRIES);
            sec < |v.disk| && Word(v.disk[sec], (k - FIRST_DOUBLE) % ENTRIES) == Wanted(v, h, k)
  {
    hide Owned, Wired, Word, Layout, Tidy, HasNodes;
    HeaderThere(v, h, c);
    var j := (k - FIRST_DOUBLE) / ENTRIES;
    ParentsThere(v, h, c, k);
    ReadEntry(v, h, Double, h);
    var dbl := Word(v.disk[h], NUM_DIRECT + NUM_SINGLE);
    ReadEntry(v, h, Second(j), dbl);
    ReadEntry(v, h, Data(k), Word(v.disk[dbl], j));
  }

  /** A block that is there has the index nodes above it. */
  lemma ParentsThere(v: Volume, h: nat, c: nat, k: nat)
    requires HasNodes(v, h, c) && k < MAX_BLOCKS
    ensures k < c <==> Key(h, Data(k)) in v.loc
    ensures NUM_DIRECT <= k < FIRST_DOUBLE && k < c ==> Key(h, Single((k - NUM_DIRECT) / ENTRIES)) in v.loc
    ensures FIRST_DOUBLE <= k < c ==> Key(h, Double) in v.loc && Key(h, Second((k - FIRST_DOUBLE) / ENTRIES)) in v.loc
  {
    assert NUM_DIRECT <= k ==> ENTRIES * ((k - NUM_DIRECT) / ENTRIES) <= k - NUM_DIRECT;
    assert FIRST_DOUBLE <= k ==> ENTRIES * ((k - FIRST_DOUBLE) / ENTRIES) <= k - FIRST_DOUBLE;
  }

  lemma LayoutShape(v: Volume)
    requires Layout(v)
    ensures Shape(v)
  {
    hide Owned, Wired;
  }

  lemma HeaderThere(v: Volume, h: nat, c: nat)
    requires Layout(v) && HasNodes(v, h, c)
    ensures Key(h, Header) in v.loc && v.loc[Key(h, Header)] == h
  {
    hide Wired;
    assert Needed(Header, c);
  }

  /** So nothing strays on the way to such a block. */
  lemma LookedUp(v: Volume, h: nat, c: nat, pos: nat)
    requires Layout(v) && HasNodes(v, h, c) && h < |v.disk| && c <= MAX_BLOCKS
    requires pos / SECTOR_SIZE < c || Tidy(v.disk, v.loc)
    ensures !Strays(v.disk, h, pos)
  {
    hide Layout, Word, Tidy, HasNodes, Wanted;
    var k := pos / SECTOR_SIZE;
    if NUM_DIRECT <= k < FIRST_DOUBLE {
      SingleWords(v, h, c, k);
    } else if FIRST_DOUBLE <= k < MAX_BLOCKS {
      DoubleWords(v, h, c, k);
    }
  }

  lemma ReadEntry(v: Volume, h: nat, n: Node, psec: nat)
    requires Layout(v) && IsNode(n) && n != Header && (Tidy(v.disk, v.loc) || Key(h, n) in v.loc)
    requires psec == if Key(h, Parent(n)) in v.loc then v.loc[Key(h, Parent(n))] else 0
    ensures psec < |v.disk|
    ensures Word(v.disk[psec], Slot(n)) == if Key(h, n) in v.loc then v.loc[Key(h, n)] else 0
    ensures Word(v.disk[psec], Slot(n)) < |v.disk|
  {
    if Key(h, Parent(n)) in v.loc {
      WordTellsPresence(v, h, n);
    } else {
      WordOfZero(Slot(n));
    }
    hide Word, Slot, Parent;
  }

  lemma HeaderPlace(v: Volume, h: nat)
    requires Layout(v) && Key(h, Header) in v.loc
    ensures v.loc[Key(h, Header)] == h && h < |v.disk|
  {}

  /** A node's word is nonzero exactly when the node is there. */
  lemma WordTellsPresence(v: Volume, h: nat, n: Node)
    requires Layout(v) && IsNode(n) && n != Header && Key(h, Parent(n)) in v.loc
    requires Tidy(v.disk, v.loc) || Key(h, n) in v.loc
    ensures WordOf(v, h, n) == if Key(h, n) in v.loc then v.loc[Key(h, n)] else 0
    ensures WordOf(v, h, n) != 0 <==> Key(h, n) in v.loc
  {
    hide Word;
  }
}

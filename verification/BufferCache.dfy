/** The buffer cache (src/filesys/cache.c), one operation at a time.

    64 slots cache sectors of a block device. The logical disk is what a reader of the cache
    sees: a sector's cached data where there is some, the device's data elsewhere. Locks are
    each slot's semaphore g and accessor count b; an operation that would block is one the
    sequential model does not let start. The locking protocol itself is in CacheLock.

    An unused slot carries the number 0, and the search for a sector does not look at the
    valid bit, so a request for sector 0 finds an unused slot as long as there is one.
    FindBlock says what it reads there. */
module BufferCache {
  import opened Division64
  import opened Options

  const CACHE_BLOCKS := 64
  const TOP_BIT: nat := 0x8000_0000_0000_0000

  datatype Slot<D> = Slot(valid: bool, sector: nat, data: D, dirty: bool, accessed: bool, recent: nat, g: nat, b: nat)

  predicate Unlocked<D>(x: Slot<D>) { x.g == 1 && x.b == 0 }
  predicate ReadLocked<D>(x: Slot<D>) { x.g == 0 && x.b > 0 }
  predicate WriteLocked<D>(x: Slot<D>) { x.g == 0 && x.b == 0 }

  /** Slot x caches sector n. */
  predicate Caches<D>(x: Slot<D>, n: nat) { x.valid && x.sector == n }

  // ---- Invariants ----

  ghost predicate SlotOk<D>(x: Slot<D>, device: seq<D>) {
    && (Unlocked(x) || ReadLocked(x) || WriteLocked(x))
    && (if x.valid then x.sector < |device| else x.sector == 0 && !WriteLocked(x))
    && (x.valid && !x.dirty && !WriteLocked(x) ==> x.data == device[x.sector])
    && x.recent < B64
  }

  /** The cache over `device` stands for the logical disk `disk`: no sector is cached twice,
      every clean slot nobody is writing equals the device, and a sector is what its slot
      holds, or the device if it has none. */
  ghost predicate Represents<D>(s: seq<Slot<D>>, device: seq<D>, disk: seq<D>) {
    && |s| == CACHE_BLOCKS && |disk| == |device|
    && (forall i | 0 <= i < |s| :: SlotOk(s[i], device))
    && (forall i, j | 0 <= i < j < |s| && s[i].valid && s[j].valid :: s[i].sector != s[j].sector)
    && (forall i | 0 <= i < |s| && s[i].valid :: disk[s[i].sector] == s[i].data)
    && (forall n | 0 <= n < |device| && !IsCached(s, n) :: disk[n] == device[n])
    && (HasUnused(s) ==> !IsCached(s, 0))
  }

  ghost predicate HasUnused<D>(s: seq<Slot<D>>) {
    exists i :: 0 <= i < |s| && !s[i].valid
  }

  ghost predicate IsCached<D>(s: seq<Slot<D>>, n: nat) {
    exists i :: 0 <= i < |s| && Caches(s[i], n)
  }

  /** The same slots up to locks, dirty bits and access records stand for the same disk. */
  lemma Retouch<D>(s: seq<Slot<D>>, t: seq<Slot<D>>, device: seq<D>, disk: seq<D>)
    requires Represents(s, device, disk) && |t| == |s|
    requires forall i | 0 <= i < |s| :: t[i].valid == s[i].valid && t[i].sector == s[i].sector && t[i].data == s[i].data
    requires forall i | 0 <= i < |s| :: SlotOk(t[i], device)
    ensures Represents(t, device, disk)
  {
    forall n ensures IsCached(s, n) <==> IsCached(t, n) {
      SameCached(s, t, n);
    }
    assert HasUnused(t) ==> HasUnused(s);
  }

  lemma SameCached<D>(s: seq<Slot<D>>, t: seq<Slot<D>>, n: nat)
    requires |t| == |s| && forall i | 0 <= i < |s| :: t[i].valid == s[i].valid && t[i].sector == s[i].sector
    ensures IsCached(s, n) <==> IsCached(t, n)
  {
    if IsCached(s, n) {
      var i :| 0 <= i < |s| && Caches(s[i], n);
      assert Caches(t[i], n);
    }
    if IsCached(t, n) {
      var i :| 0 <= i < |t| && Caches(t[i], n);
      assert Caches(s[i], n);
    }
  }

  /** Writing a slot back changes nothing a reader sees. */
  lemma WriteBackKeeps<D>(s: seq<Slot<D>>, device: seq<D>, disk: seq<D>, k: nat)
    requires Represents(s, device, disk) && k < |s| && s[k].valid
    ensures Represents(s, device[s[k].sector := s[k].data], disk)
  {
    var device' := device[s[k].sector := s[k].data];
    forall i | 0 <= i < |s| ensures SlotOk(s[i], device') {
      assert SlotOk(s[i], device);
      assert i < k || i == k || k < i;
    }
    assert Caches(s[k], s[k].sector);
  }

  /** New data in a write-locked slot is new data on the disk. */
  lemma StoreKeeps<D>(s: seq<Slot<D>>, device: seq<D>, disk: seq<D>, k: nat, d: D)
    requires Represents(s, device, disk) && k < |s| && s[k].valid && WriteLocked(s[k])
    ensures Represents(s[k := s[k].(data := d)], device, disk[s[k].sector := d])
  {
    var t := s[k := s[k].(data := d)];
    forall n ensures IsCached(s, n) <==> IsCached(t, n) {
      SameCached(s, t, n);
    }
    assert HasUnused(t) ==> HasUnused(s);
    forall i | 0 <= i < |t| ensures SlotOk(t[i], device) {
      assert SlotOk(s[i], device);
    }
  }

  /** No lock changed except slot k's. */
  ghost predicate OtherLocks<D>(s: seq<Slot<D>>, t: seq<Slot<D>>, k: nat) {
    |s| == |t| && forall i | 0 <= i < |s| && i != k :: s[i].g == t[i].g && s[i].b == t[i].b
  }

  ghost predicate SameLocks<D>(s: seq<Slot<D>>, t: seq<Slot<D>>) {
    |s| == |t| && forall i | 0 <= i < |s| :: s[i].g == t[i].g && s[i].b == t[i].b
  }

  /** Importing sector n into a slot that is unused, or emptied by an eviction. */
  lemma ImportKeeps<D>(s: seq<Slot<D>>, device: seq<D>, disk: seq<D>, k: nat, n: nat, x: Slot<D>)
    requires Represents(s, device, disk) && k < |s| && n < |device| && !IsCached(s, n) && (n == 0 ==> !HasUnused(s))
    requires s[k].valid ==> s[k].data == device[s[k].sector]
    requires x.valid && x.sector == n && x.data == device[n] && ReadLocked(x) && x.recent < B64
    ensures Represents(s[k := x], device, disk)
  {
    var t := s[k := x];
    assert disk[n] == device[n];
    forall i | 0 <= i < |s| ensures t[i].valid && i != k ==> t[i].sector != n {
      assert Caches(s[i], n) ==> IsCached(s, n);
    }
    forall m | 0 <= m < |device| && !IsCached(t, m) ensures disk[m] == device[m] {
      if IsCached(s, m) {
        var i :| 0 <= i < |s| && Caches(s[i], m);
        var y := t[i];
        assert i == k;
      }
    }
    ImportShadow(s, k, x);
  }

  lemma ImportShadow<D>(s: seq<Slot<D>>, k: nat, x: Slot<D>)
    requires k < |s| && x.valid && (HasUnused(s) ==> !IsCached(s, 0)) && (x.sector == 0 ==> !HasUnused(s))
    ensures HasUnused(s[k := x]) ==> !IsCached(s[k := x], 0)
  {
    var t := s[k := x];
    if HasUnused(t) {
      var i :| 0 <= i < |t| && !t[i].valid;
      assert !s[i].valid;
      forall j | 0 <= j < |t| ensures !Caches(t[j], 0) {
        assert j != k ==> !Caches(s[j], 0);
      }
    }
  }

  /** block_clear, or any write to the device underneath the cache: the logical sector
      becomes z if and only if every slot caching it holds z already. */
  lemma UnderneathTheCache<D>(s: seq<Slot<D>>, device: seq<D>, disk: seq<D>, n: nat, z: D)
    requires Represents(s, device, disk) && n < |device|
    ensures Represents(s, device[n := z], disk[n := z]) <==>
              forall i | 0 <= i < |s| && Caches(s[i], n) :: s[i].data == z
  {
    var device', disk' := device[n := z], disk[n := z];
    if forall i | 0 <= i < |s| && Caches(s[i], n) :: s[i].data == z {
      forall i | 0 <= i < |s| ensures SlotOk(s[i], device') {
        assert SlotOk(s[i], device);
        assert s[i].valid && s[i].sector == n ==> Caches(s[i], n);
      }
      forall i | 0 <= i < |s| && s[i].valid ensures disk'[s[i].sector] == s[i].data {
        assert s[i].sector == n ==> Caches(s[i], n);
      }
    }
  }

  /** So a sector with no slot is cleared, and one with a slot that holds anything else is not. */
  lemma ClearedIfUncached<D>(s: seq<Slot<D>>, device: seq<D>, disk: seq<D>, n: nat, z: D)
    requires Represents(s, device, disk) && n < |device|
    ensures !IsCached(s, n) ==> Represents(s, device[n := z], disk[n := z])
    ensures IsCached(s, n) && disk[n] != z ==> !Represents(s, device[n := z], disk[n := z])
  {
    UnderneathTheCache(s, device, disk, n, z);
    if IsCached(s, n) {
      var i :| 0 <= i < |s| && Caches(s[i], n);
      assert s[i].data == disk[n];
    }
  }

  lemma SlotsOk<D>(s: seq<Slot<D>>, device: seq<D>, disk: seq<D>)
    requires Represents(s, device, disk)
    ensures |s| == CACHE_BLOCKS && |disk| == |device| && forall i | 0 <= i < |s| :: SlotOk(s[i], device)
  {}

  ghost predicate Blank<D>(s: seq<Slot<D>>, blank: D) {
    forall i | 0 <= i < |s| && !s[i].valid :: s[i].data == blank
  }

  // ---- Access records ----

  /** A record whose highest bit says the latest access was seen `age` passes ago. */
  ghost predicate InBand(recent: nat, age: nat) {
    if age <= 63 then Pow2(63 - age) <= recent < Pow2(64 - age) else recent == 0
  }

  lemma Pow2Top()
    ensures Pow2(63) == TOP_BIT && Pow2(64) == B64
  {
    Pow2Values();
    Pow2Add(31, 32);
  }

  lemma ShiftBand(recent: nat, age: nat)
    requires InBand(recent, age)
    ensures InBand(recent / 2, age + 1)
  {
    if age < 63 {
      assert Pow2(64 - age) == 2 * Pow2(63 - age) && Pow2(63 - age) == 2 * Pow2(62 - age);
    }
  }

  lemma {:induction false} Pow2Mono(a: nat, b: nat)
    requires a <= b
    ensures Pow2(a) <= Pow2(b)
  {
    if a < b {
      Pow2Mono(a, b - 1);
    }
  }

  function Capped(age: nat): nat { if age < 64 then age else 64 }

  /** A smaller record is an older access. */
  lemma SmallerIsOlder(r1: nat, a1: nat, r2: nat, a2: nat)
    requires InBand(r1, a1) && InBand(r2, a2) && r1 <= r2
    ensures Capped(a1) >= Capped(a2)
  {
    if Capped(a1) < Capped(a2) && a2 <= 63 {
      Pow2Mono(64 - a2, 63 - a1);
    }
  }

  /** Slot i's record is that of its age, unless an access has happened since the last pass,
      in which case the record's top bit is set already. */
  ghost predicate Aged<D>(s: seq<Slot<D>>, ages: seq<nat>) {
    && |ages| == |s|
    && forall i | 0 <= i < |s| && s[i].valid ::
         if s[i].accessed then s[i].recent >= TOP_BIT else InBand(s[i].recent, ages[i])
  }

  lemma AgesThere<D>(s: seq<Slot<D>>, ages: seq<nat>)
    requires Aged(s, ages)
    ensures |ages| == |s|
  {}

  /** What one pass does to a slot that took part in it. */
  function Recorded<D>(x: Slot<D>): Slot<D> {
    x.(recent := x.recent / 2 + (if x.accessed then TOP_BIT else 0), accessed := false)
  }

  /** What a pass makes of a slot and its age: a slot somebody is writing is passed over. */
  function Updated<D>(x: Slot<D>): Slot<D> { if x.valid && !WriteLocked(x) then Recorded(x) else x }

  lemma UpdatedMeans<D>(x: Slot<D>)
    requires Unlocked(x) || ReadLocked(x) || WriteLocked(x)
    ensures Updated(x) ==
              if x.valid && (x.b > 0 || x.g > 0)
              then x.(recent := x.recent / 2 + (if x.accessed then 0x8000_0000_0000_0000 else 0), accessed := false)
              else x
  {}

  function UpdatedAge<D>(x: Slot<D>, age: nat): nat {
    if x.valid && !WriteLocked(x) then (if x.accessed then 0 else age + 1) else age
  }

  lemma RecordedBand<D>(x: Slot<D>, age: nat)
    requires x.recent < B64 && (x.accessed || InBand(x.recent, age))
    ensures Recorded(x).recent < B64 && InBand(Recorded(x).recent, if x.accessed then 0 else age + 1)
  {
    Pow2Top();
    if !x.accessed {
      ShiftBand(x.recent, age);
    }
  }

  class Cache<D(0)> {
    var device: seq<D>
    const buffer: array<Slot<D>>
    /** What the slots hold before they are first used. */
    const blank: D
    ghost var disk: seq<D>
    /** Per slot, the passes it took part in since the one that saw its latest access. */
    ghost var ages: seq<nat>

    ghost predicate Valid()
      reads this, buffer
    {
      Represents(buffer[..], device, disk) && Aged(buffer[..], ages) && Blank(buffer[..], blank)
    }

    /** cache_init over a device. */
    constructor (dev: seq<D>, empty: D)
      ensures Valid() && device == dev && disk == dev && fresh(buffer) && blank == empty
      ensures forall i | 0 <= i < CACHE_BLOCKS ::
                !buffer[i].valid && buffer[i].sector == 0 && buffer[i].data == empty && Unlocked(buffer[i])
    {
      device, disk := dev, dev;
      blank := empty;
      buffer := new Slot<D>[CACHE_BLOCKS](_ => Slot(false, 0, empty, false, false, 0, 1, 0));
      ages := seq(CACHE_BLOCKS, _ => 0);
    }

    /** The loop of cache_evict. The other unlocked slots have been locked and released, which
        marks them dirty. */
    method LockOldest() returns (victim: Option<nat>)
      requires Valid() && forall i | 0 <= i < CACHE_BLOCKS :: buffer[i].valid || !Unlocked(buffer[i])
      modifies buffer
      ensures victim.None? <==> forall i | 0 <= i < CACHE_BLOCKS :: !Unlocked(old(buffer[i]))
      ensures victim.Some? ==> victim.value < CACHE_BLOCKS && Unlocked(old(buffer[victim.value]))
      ensures victim.Some? ==> forall i | 0 <= i < CACHE_BLOCKS && Unlocked(old(buffer[i])) ::
                old(buffer[victim.value].recent) <= old(buffer[i].recent)
                && (i > victim.value ==> old(buffer[victim.value].recent) < old(buffer[i].recent))
      ensures forall i | 0 <= i < CACHE_BLOCKS && Some(i) != victim ::
                buffer[i] == if Unlocked(old(buffer[i])) then old(buffer[i]).(dirty := true) else old(buffer[i])
      ensures victim.Some? ==> buffer[victim.value] == old(buffer[victim.value]).(g := 0)
    {
      hide Represents, InBand;
      ghost var s0 := buffer[..];
      SlotsOk(s0, device, disk);
      victim := None;
      var oldest := B64 - 1;
      var i := 0;
      while i < CACHE_BLOCKS
        invariant 0 <= i <= CACHE_BLOCKS
        invariant victim.None? ==> oldest == B64 - 1 && forall j | 0 <= j < i :: !Unlocked(s0[j])
        invariant victim.Some? ==> victim.value < i && Unlocked(s0[victim.value]) && oldest == s0[victim.value].recent
                                   && forall j | 0 <= j < i && Unlocked(s0[j]) ::
                                        oldest <= s0[j].recent && (j > victim.value ==> oldest < s0[j].recent)
        invariant forall j | 0 <= j < CACHE_BLOCKS && Some(j) != victim ::
                    buffer[j] == if j < i && Unlocked(s0[j]) then s0[j].(dirty := true) else s0[j]
        invariant victim.Some? ==> buffer[victim.value] == s0[victim.value].(g := 0)
      {
        if buffer[i].g == 0 {
          i := i + 1;
          continue;
        }
        buffer[i] := buffer[i].(g := 0);
        if buffer[i].recent <= oldest {
          if victim.Some? {
            buffer[victim.value] := buffer[victim.value].(g := 1, dirty := true);
          }
          oldest := buffer[i].recent;
          victim := Some(i);
        } else {
          buffer[i] := buffer[i].(g := 1, dirty := true);
        }
        i := i + 1;
      }
    }

    /** cache_evict: of the slots nobody has locked, the last one with the least access
        record; it comes back write-locked and its data safe on the device. The other
        unlocked slots have been locked and released, which marks them dirty. */
    method Evict() returns (victim: Option<nat>)
      requires Valid() && forall i | 0 <= i < CACHE_BLOCKS :: buffer[i].valid || !Unlocked(buffer[i])
      modifies buffer, `device
      ensures Valid()
      ensures victim.None? <==> forall i | 0 <= i < CACHE_BLOCKS :: !Unlocked(old(buffer[i]))
      ensures victim.Some? ==>
                var v := victim.value;
                v < CACHE_BLOCKS && Unlocked(old(buffer[v])) && buffer[v].valid && WriteLocked(buffer[v])
                && device[buffer[v].sector] == buffer[v].data
                && (forall i | 0 <= i < CACHE_BLOCKS && Unlocked(old(buffer[i])) ::
                    old(buffer[v].recent) <= old(buffer[i].recent)
                    && (i > v ==> old(buffer[v].recent) < old(buffer[i].recent)))
      ensures forall i | 0 <= i < CACHE_BLOCKS && Some(i) != victim ::
                buffer[i] == if Unlocked(old(buffer[i])) then old(buffer[i]).(dirty := true) else old(buffer[i])
      ensures victim.Some? ==> buffer[victim.value] == old(buffer[victim.value]).(g := 0)
      ensures device == if victim.Some? && buffer[victim.value].dirty
                        then old(device)[buffer[victim.value].sector := buffer[victim.value].data] else old(device)
    {
      hide Represents, InBand;
      ghost var s0 := buffer[..];
      SlotsOk(s0, device, disk);
      victim := LockOldest();
      Retouch(s0, buffer[..], device, disk);
      if victim.Some? {
        var v := victim.value;
        if buffer[v].dirty {
          WriteBackKeeps(buffer[..], device, disk, v);
          device := device[buffer[v].sector := buffer[v].data];
        }
      }
    }

    /** cache_read_begin; false says that a writer has the slot and the caller has to wait. */
    method ReadBegin(k: nat) returns (ok: bool)
      requires Valid() && k < CACHE_BLOCKS
      modifies buffer
      ensures Valid() && ok == !WriteLocked(old(buffer[k]))
      ensures ok ==> buffer[..] == old(buffer[..])[k := old(buffer[k]).(g := 0, b := old(buffer[k]).b + 1)]
      ensures !ok ==> buffer[..] == old(buffer[..])
    {
      hide Represents, InBand;
      SlotsOk(buffer[..], device, disk);
      if buffer[k].g == 0 && buffer[k].b == 0 {
        return false;
      }
      buffer[k] := buffer[k].(b := buffer[k].b + 1);
      if buffer[k].b == 1 {
        buffer[k] := buffer[k].(g := buffer[k].g - 1);
      }
      ghost var t := old(buffer[..])[k := old(buffer[k]).(g := 0, b := old(buffer[k]).b + 1)];
      assert buffer[..] == t;
      Retouch(old(buffer[..]), t, device, disk);
      ok := true;
    }

    /** cache_read_end. */
    method ReadEnd(k: nat)
      requires Valid() && k < CACHE_BLOCKS && ReadLocked(buffer[k])
      modifies buffer
      ensures Valid()
      ensures var b := old(buffer[k]).b - 1;
              buffer[..] == old(buffer[..])[k := old(buffer[k]).(g := if b == 0 then 1 else 0, b := b)]
    {
      ghost var x := buffer[k];
      buffer[k] := buffer[k].(b := buffer[k].b - 1);
      if buffer[k].b == 0 {
        buffer[k] := buffer[k].(g := buffer[k].g + 1);
      }
      ghost var t := old(buffer[..])[k := x.(g := if x.b - 1 == 0 then 1 else 0, b := x.b - 1)];
      assert buffer[..] == t;
      Retouch(old(buffer[..]), t, device, disk);
    }

    /** cache_upgrade; false says that there are other readers and the caller has to wait. */
    method Upgrade(k: nat) returns (ok: bool)
      requires Valid() && k < CACHE_BLOCKS && buffer[k].valid && ReadLocked(buffer[k])
      modifies buffer
      ensures Valid() && ok == (old(buffer[k].b) == 1)
      ensures buffer[..] == if ok then old(buffer[..])[k := old(buffer[k]).(b := 0)] else old(buffer[..])
    {
      if buffer[k].b != 1 {
        return false;
      }
      buffer[k] := buffer[k].(b := buffer[k].b - 1);
      ghost var t := old(buffer[..])[k := old(buffer[k]).(b := 0)];
      assert buffer[..] == t;
      Retouch(old(buffer[..]), t, device, disk);
      ok := true;
    }

    /** A client writing through the slot it has write-locked. */
    method Store(k: nat, d: D)
      requires Valid() && k < CACHE_BLOCKS && buffer[k].valid && WriteLocked(buffer[k])
      modifies buffer, `disk
      ensures Valid() && buffer[..] == old(buffer[..])[k := old(buffer[k]).(data := d)]
      ensures disk == old(disk)[buffer[k].sector := d]
    {
      StoreKeeps(buffer[..], device, disk, k, d);
      buffer[k] := buffer[k].(data := d);
      disk := disk[buffer[k].sector := d];
      assert buffer[..] == old(buffer[..])[k := old(buffer[k]).(data := d)];
    }

    /** cache_write_end. */
    method WriteEnd(k: nat)
      requires Valid() && k < CACHE_BLOCKS && buffer[k].valid && WriteLocked(buffer[k])
      modifies buffer
      ensures Valid() && buffer[..] == old(buffer[..])[k := old(buffer[k]).(g := 1, dirty := true)]
    {
      buffer[k] := buffer[k].(g := 1);
      buffer[k] := buffer[k].(dirty := true);
      ghost var t := old(buffer[..])[k := old(buffer[k]).(g := 1, dirty := true)];
      assert buffer[..] == t;
      Retouch(old(buffer[..]), t, device, disk);
    }

    /** block_write of a slot nobody is writing, after which it counts as clean. */
    method WriteBack(k: nat)
      requires Valid() && k < CACHE_BLOCKS && buffer[k].valid
      modifies buffer, `device
      ensures Valid() && buffer[..] == old(buffer[..])[k := old(buffer[k]).(dirty := false)]
      ensures buffer[k].sector < |old(device)| && device == old(device)[buffer[k].sector := buffer[k].data]
    {
      WriteBackKeeps(buffer[..], device, disk, k);
      device := device[buffer[k].sector := buffer[k].data];
      ghost var t := buffer[..][k := buffer[k].(dirty := false)];
      Retouch(buffer[..], t, device, disk);
      buffer[k] := buffer[k].(dirty := false);
      assert buffer[..] == t;
    }

    /** refresh_cache: the logical disk and all locks stay, and every valid slot nobody is
        writing is clean afterwards. */
    method Refresh()
      requires Valid()
      modifies buffer, `device
      ensures Valid()
      ensures forall i | 0 <= i < CACHE_BLOCKS ::
                buffer[i] == if old(buffer[i].valid) && !WriteLocked(old(buffer[i]))
                    then old(buffer[i]).(dirty := false) else old(buffer[i])
    {
      hide Represents, InBand;
      SlotsOk(buffer[..], device, disk);
      var i := 0;
      while i < CACHE_BLOCKS
        invariant 0 <= i <= CACHE_BLOCKS && disk == old(disk) && Valid()
        invariant forall j | 0 <= j < CACHE_BLOCKS ::
                    buffer[j] == if j < i && old(buffer[j].valid) && !WriteLocked(old(buffer[j]))
                        then old(buffer[j]).(dirty := false) else old(buffer[j])
      {
        if buffer[i].valid && (buffer[i].b > 0 || buffer[i].g > 0) {
          var ok := ReadBegin(i);
          if buffer[i].dirty {
            WriteBack(i);
          }
          ReadEnd(i);
        }
        i := i + 1;
      }
    }

    /** The body of update_accesses for one slot. */
    method UpdateAccess(k: nat)
      requires Valid() && k < CACHE_BLOCKS
      modifies buffer, `ages
      ensures Valid() && |ages| == |old(ages)| == CACHE_BLOCKS
      ensures buffer[..] == old(buffer[..])[k := Updated(old(buffer[k]))]
      ensures ages == old(ages)[k := UpdatedAge(old(buffer[k]), old(ages)[k])]
    {
      hide Represents, InBand;
      SlotsOk(buffer[..], device, disk);
      if buffer[k].valid && (buffer[k].b > 0 || buffer[k].g > 0) {
        var ok := ReadBegin(k);
        RecordAccess(k);
        ReadEnd(k);
      }
    }

    /** One pass of update_accesses: a slot nobody is writing records whether it was accessed. */
    method UpdateAccesses()
      requires Valid()
      modifies buffer, `ages
      ensures Valid()
      ensures forall i | 0 <= i < CACHE_BLOCKS :: buffer[i] == Updated(old(buffer[i]))
      ensures forall i | 0 <= i < CACHE_BLOCKS ::
                var x := old(buffer[i]);
                buffer[i] == if x.valid && (x.b > 0 || x.g > 0)
                    then x.(recent := x.recent / 2 + (if x.accessed then 0x8000_0000_0000_0000 else 0),
                            accessed := false)
                    else x
      ensures |ages| == CACHE_BLOCKS == |old(ages)|
      ensures forall i | 0 <= i < CACHE_BLOCKS :: ages[i] == UpdatedAge(old(buffer[i]), old(ages)[i])
    {
      hide Represents, InBand, Updated, UpdatedAge, Aged, Blank;
      SlotsOk(buffer[..], device, disk);
      AgesThere(buffer[..], ages);
      ghost var s0, a0 := buffer[..], ages;
      var i := 0;
      while i < CACHE_BLOCKS
        invariant 0 <= i <= CACHE_BLOCKS == |ages| && disk == old(disk) && device == old(device) && Valid()
        invariant forall j | 0 <= j < CACHE_BLOCKS :: buffer[..][j] == if j < i then Updated(s0[j]) else s0[j]
        invariant forall j | 0 <= j < CACHE_BLOCKS :: ages[j] == if j < i then UpdatedAge(s0[j], a0[j]) else a0[j]
      {
        UpdateAccess(i);
        i := i + 1;
      }
      forall j | 0 <= j < CACHE_BLOCKS
        ensures buffer[j] == if s0[j].valid && (s0[j].b > 0 || s0[j].g > 0)
                  then s0[j].(recent := s0[j].recent / 2 + (if s0[j].accessed then 0x8000_0000_0000_0000 else 0),
                              accessed := false)
                  else s0[j]
      {
        UpdatedMeans(s0[j]);
      }
    }

    /** The middle of the pass's body; somebody is reading the slot, so its bit is cleared. */
    method RecordAccess(k: nat)
      requires Valid() && k < CACHE_BLOCKS && buffer[k].valid && ReadLocked(buffer[k])
      modifies buffer, `ages
      ensures Valid() && buffer[..] == old(buffer[..])[k := Recorded(old(buffer[k]))]
      ensures ages == old(ages)[k := if old(buffer[k].accessed) then 0 else old(ages)[k] + 1]
    {
      hide Represents, InBand;
      SlotsOk(buffer[..], device, disk);
      ghost var x := buffer[k];
      RecordedBand(x, ages[k]);
      ghost var t := buffer[..][k := Recorded(x)];
      Retouch(buffer[..], t, device, disk);
      ages := ages[k := if x.accessed then 0 else ages[k] + 1];
      buffer[k] := buffer[k].(recent := buffer[k].recent / 2);
      buffer[k] := buffer[k].(recent := buffer[k].recent + if buffer[k].accessed then TOP_BIT else 0);
      if buffer[k].b > 0 {
        buffer[k] := buffer[k].(accessed := false);
      }
      assert buffer[..] == t;
    }

    /** Right after a pass with nothing locked and every slot in use, the block cache_evict
        picks is one whose latest access was seen the longest ago (64 passes or more count
        alike), and it alone is left write-locked. */
    method PassThenEvict() returns (v: nat)
      requires Valid() && forall i | 0 <= i < CACHE_BLOCKS :: buffer[i].valid && Unlocked(buffer[i])
      modifies buffer, `ages, `device
      ensures Valid() && v < CACHE_BLOCKS
      ensures forall i | 0 <= i < CACHE_BLOCKS :: Capped(ages[v]) >= Capped(ages[i])
      ensures forall i | 0 <= i < CACHE_BLOCKS :: if i == v then WriteLocked(buffer[i]) else Unlocked(buffer[i])
    {
      hide Represents, InBand;
      SlotsOk(buffer[..], device, disk);
      UpdateAccesses();
      ghost var s := buffer[..];
      assert forall i | 0 <= i < CACHE_BLOCKS ::
          s[i].valid && !s[i].accessed && Unlocked(s[i]) && InBand(s[i].recent, ages[i]);
      var victim := Evict();
      assert Unlocked(s[0]);
      v := victim.value;
      forall i | 0 <= i < CACHE_BLOCKS ensures Capped(ages[v]) >= Capped(ages[i]) {
        assert s[v].recent <= s[i].recent;
        SmallerIsOlder(s[v].recent, ages[v], s[i].recent, ages[i]);
      }
    }

    /** The hit loop of find_block: the first slot with the sector's number. For sector 0 that
        is a slot that is not valid if and only if some slot is unused. */
    method Search(sector: nat) returns (hit: Option<nat>)
      requires Valid()
      ensures hit.Some? ==> hit.value < CACHE_BLOCKS && buffer[hit.value].sector == sector
                            && forall j | 0 <= j < hit.value :: buffer[j].sector != sector
      ensures hit.None? ==> forall j | 0 <= j < CACHE_BLOCKS :: buffer[j].sector != sector
      ensures hit.Some? ==> (buffer[hit.value].valid <==> !Shadowed(buffer[..], sector))
      ensures hit.None? <==> !IsCached(buffer[..], sector) && !Shadowed(buffer[..], sector)
    {
      hide Represents, InBand;
      SlotsOk(buffer[..], device, disk);
      ghost var s := buffer[..];
      var i := 0;
      while i < CACHE_BLOCKS
        invariant 0 <= i <= CACHE_BLOCKS
        invariant forall j | 0 <= j < i :: s[j].sector != sector
      {
        if buffer[i].sector == sector {
          HitKind(s, device, disk, i);
          return Some(i);
        }
        i := i + 1;
      }
      MissKind(s, device, disk, sector);
      return None;
    }

    /** The loop of find_block that looks for an unused slot. Slots it passes over on the way
        have been locked and released, which marks them dirty; the unused slot found stays
        locked and is marked valid, before it is filled. */
    method TakeUnused() returns (k: Option<nat>, ghost t: seq<Slot<D>>)
      requires Valid()
      modifies buffer
      ensures Represents(t, device, disk) && Aged(t, ages) && Blank(t, blank)
      ensures forall i | 0 <= i < CACHE_BLOCKS ::
                t[i] == if Unlocked(old(buffer[i])) && (k.None? || i < k.value) then old(buffer[i]).(dirty := true)
                        else old(buffer[i])
      ensures k.Some? ==> forall i | 0 <= i < k.value && i < CACHE_BLOCKS ::
                old(buffer[i]).valid || !Unlocked(old(buffer[i]))
      ensures k.None? ==> buffer[..] == t && forall i | 0 <= i < CACHE_BLOCKS :: t[i].valid || !Unlocked(t[i])
      ensures k.Some? ==> k.value < CACHE_BLOCKS && !t[k.value].valid && Unlocked(t[k.value])
                          && buffer[..] == t[k.value := t[k.value].(g := 0, valid := true)]
    {
      hide Represents, InBand;
      ghost var s0 := buffer[..];
      SlotsOk(s0, device, disk);
      var i := 0;
      while i < CACHE_BLOCKS
        invariant 0 <= i <= CACHE_BLOCKS
        invariant forall j | 0 <= j < CACHE_BLOCKS ::
                    buffer[j] == if j < i && Unlocked(s0[j]) then s0[j].(dirty := true) else s0[j]
        invariant forall j | 0 <= j < i :: s0[j].valid || !Unlocked(s0[j])
      {
        if buffer[i].g > 0 {
          buffer[i] := buffer[i].(g := buffer[i].g - 1);
          if !buffer[i].valid {
            t := buffer[..][i := s0[i]];
            Retouch(s0, t, device, disk);
            buffer[i] := buffer[i].(valid := true);
            assert buffer[..] == t[i := t[i].(g := 0, valid := true)];
            return Some(i), t;
          }
          buffer[i] := buffer[i].(g := buffer[i].g + 1, dirty := true);
        }
        i := i + 1;
      }
      t := buffer[..];
      Retouch(s0, t, device, disk);
      k := None;
    }

    /** The end of find_block: the access is noted, and the record's top bit set at once. */
    method Touch(k: nat)
      requires Valid() && k < CACHE_BLOCKS
      modifies buffer
      ensures Valid()
      ensures var x := old(buffer[k]);
              buffer[..] == old(buffer[..])[k := x.(accessed := true, recent := WithTopBit(x.recent))]
      ensures buffer[k].recent == if old(buffer[k].recent) >= 0x8000_0000_0000_0000 then old(buffer[k].recent)
                                  else old(buffer[k].recent) + 0x8000_0000_0000_0000
    {
      hide Represents, InBand;
      SlotsOk(buffer[..], device, disk);
      ghost var t := buffer[..][k := buffer[k].(accessed := true, recent := WithTopBit(buffer[k].recent))];
      assert SlotOk(buffer[..][k], device);
      Retouch(buffer[..], t, device, disk);
      buffer[k] := buffer[k].(accessed := true);
      buffer[k] := buffer[k].(recent := WithTopBit(buffer[k].recent));
      assert buffer[..] == t;
    }

    /** The import step of find_block, on a slot k that stands free or evicted in t and is
        locked by us: the block is read in and the write lock becomes a read lock. */
    method Import(k: nat, sector: nat, ghost t: seq<Slot<D>>)
      requires Represents(t, device, disk) && Aged(t, ages) && Blank(t, blank) && k < CACHE_BLOCKS
      requires sector < |device| && !IsCached(t, sector) && (sector == 0 ==> !HasUnused(t))
      requires t[k].valid ==> t[k].data == device[t[k].sector]
      requires buffer.Length == CACHE_BLOCKS && WriteLocked(buffer[k]) && buffer[k].valid
      requires buffer[..] == t[k := buffer[k]]
      modifies buffer
      ensures Valid()
      ensures buffer[..] == t[k := buffer[k]] && Found(buffer[k], sector, disk) && buffer[k].b == 1
      ensures buffer[k] == Slot(true, sector, disk[sector], false, true, TOP_BIT, 0, 1)
    {
      hide Represents, InBand;
      SlotsOk(t, device, disk);
      buffer[k] := buffer[k].(data := device[sector], sector := sector, dirty := false, recent := 0);
      buffer[k] := buffer[k].(b := buffer[k].b + 1);
      buffer[k] := buffer[k].(accessed := true);
      buffer[k] := buffer[k].(recent := WithTopBit(buffer[k].recent));
      ImportKeeps(t, device, disk, k, sector, buffer[k]);
      assert buffer[..] == t[k := buffer[k]];
      UncachedIsDevice(t, device, disk, sector);
    }

    /** The part of find_block for a sector no slot has: an unused slot or an evicted one takes it in. */
    method LoadBlock(sector: nat) returns (k: Option<nat>)
      requires Valid() && sector < |device| && forall j | 0 <= j < CACHE_BLOCKS :: buffer[j].sector != sector
      requires !IsCached(buffer[..], sector) && !Shadowed(buffer[..], sector)
      modifies buffer, `device
      ensures k.None? <==> forall i | 0 <= i < CACHE_BLOCKS :: !Unlocked(old(buffer[i]))
      ensures k.Some? ==> Valid() && sector < |disk|
                          && Misses(old(buffer[..]), buffer[..], sector, k.value, disk[sector])
                          && Emptied(old(buffer[..]), old(device), device, k.value)
    {
      hide Represents, InBand, Aged, Blank;
      SlotsOk(buffer[..], device, disk);
      ghost var s0 := buffer[..];
      ghost var t;
      k, t := TakeUnused();
      SlotsOk(t, device, disk);
      StillUncached(s0, t, sector);
      if k.None? {
        k := Evict();
        if k.None? {
          return;
        }
        t := buffer[..];
        SlotsOk(t, device, disk);
        StillUncached(s0, t, sector);
      }
      StillUsed(s0, t, sector);
      Import(k.value, sector, t);
    }

    /** find_block: the sector is in the cache afterwards, read-locked for the caller, and its
        data is what the logical disk holds; nothing a reader can see has changed, and no other
        lock. On a miss a slot in use is given up only if no unlocked one is unused, and of the
        unlocked ones it has the least access record. Sector 0 is different while some slot is
        unused: then the caller gets an unused slot and its blank data. CacheFull is the panic when
        every slot is locked. */
    method FindBlock(sector: nat) returns (r: Answer<nat>)
      requires Valid() && sector < |device|
      modifies buffer, `device
      ensures r.CacheFull? <==> !IsCached(old(buffer[..]), sector) && !Shadowed(old(buffer[..]), sector)
                                && forall i | 0 <= i < CACHE_BLOCKS :: !Unlocked(old(buffer[i]))
      ensures r.MustWait? <==> exists i ::
                0 <= i < CACHE_BLOCKS && Caches(old(buffer[i]), sector) && WriteLocked(old(buffer[i]))
      ensures r.MustWait? ==> Valid() && buffer[..] == old(buffer[..])
      ensures r.Got? ==> Valid() && r.value < CACHE_BLOCKS && OtherLocks(old(buffer[..]), buffer[..], r.value)
      ensures r.Got? ==> ReadLocked(buffer[r.value]) && buffer[r.value].accessed && buffer[r.value].recent >= TOP_BIT
      ensures r.Got? && Shadowed(old(buffer[..]), sector) ==> !buffer[r.value].valid && buffer[r.value].data == blank
      ensures r.Got? && !Shadowed(old(buffer[..]), sector) ==> Found(buffer[r.value], sector, disk)
      ensures r.Got? ==> if IsCached(old(buffer[..]), sector) || Shadowed(old(buffer[..]), sector)
                         then old(buffer[r.value]).sector == sector && buffer[r.value].b == old(buffer[r.value].b) + 1
                              && !WriteLocked(old(buffer[r.value]))
                         else buffer[r.value].b == 1 && Unlocked(old(buffer[r.value]))
      ensures r.Got? ==> if IsCached(old(buffer[..]), sector) || Shadowed(old(buffer[..]), sector)
                         then Hits(old(buffer[..]), buffer[..], sector, r.value) && device == old(device)
                         else sector < |disk| && Misses(old(buffer[..]), buffer[..], sector, r.value, disk[sector])
                              && Emptied(old(buffer[..]), old(device), device, r.value)
    {
      hide Represents, InBand, Aged, Blank, Misses, Emptied;
      SlotsOk(buffer[..], device, disk);
      ghost var s0 := buffer[..];
      var hit := Search(sector);
      if hit.Some? {
        HitFacts(s0, device, disk, hit.value);
        HitBlank(s0, blank, hit.value);
        var ok := ReadBegin(hit.value);
        if !ok {
          return MustWait;
        }
        Touch(hit.value);
        return Got(hit.value);
      }
      NotWriting(s0, sector);
      var k := LoadBlock(sector);
      if k.None? {
        return CacheFull;
      }
      MissFacts(s0, buffer[..], sector, k.value, disk);
      return Got(k.value);
    }

    /** Reading a sector through the cache, as inode.c does: find it, copy, end. */
    method ReadSector(sector: nat) returns (r: Answer<D>)
      requires Valid() && sector < |device|
      modifies buffer, `device
      ensures r.Got? ==> Valid() && r.value == if Shadowed(old(buffer[..]), sector) then blank else disk[sector]
      ensures r.Got? && !Shadowed(old(buffer[..]), sector) ==> IsCached(buffer[..], sector)
      ensures r.Got? ==> SameLocks(old(buffer[..]), buffer[..])
      ensures r.CacheFull? <==> !IsCached(old(buffer[..]), sector) && !Shadowed(old(buffer[..]), sector)
                                && forall i | 0 <= i < CACHE_BLOCKS :: !Unlocked(old(buffer[i]))
      ensures r.MustWait? <==> exists i ::
                0 <= i < CACHE_BLOCKS && Caches(old(buffer[i]), sector) && WriteLocked(old(buffer[i]))
    {
      hide Represents, InBand;
      SlotsOk(buffer[..], device, disk);
      var k := FindBlock(sector);
      match k {
      case Got(i) =>
        SlotsOk(buffer[..], device, disk);
        r := Got(buffer[i].data);
        ReadEnd(i);
        assert buffer[..][i].valid ==> Caches(buffer[..][i], buffer[..][i].sector);
      case CacheFull => r := CacheFull;
      case MustWait => r := MustWait;
      }
    }

    /** Writing a sector through the cache: find it, upgrade, copy, end. From then on, and
        until the next write to it, this is what every read of the sector gives; no other
        sector changes. */
    method WriteSector(sector: nat, d: D) returns (r: Answer<()>)
      requires Valid() && sector < |device| && !Shadowed(buffer[..], sector)
      modifies buffer, `device, `disk
      ensures r.Got? ==> Valid() && sector < |old(disk)| && disk == old(disk)[sector := d]
      ensures r.Got? ==> SameLocks(old(buffer[..]), buffer[..]) && IsCached(buffer[..], sector)
      ensures r.CacheFull? <==>
                !IsCached(old(buffer[..]), sector) && forall i | 0 <= i < CACHE_BLOCKS :: !Unlocked(old(buffer[i]))
      ensures r.MustWait? <==> exists i ::
                0 <= i < CACHE_BLOCKS && Caches(old(buffer[i]), sector) && !Unlocked(old(buffer[i]))
      ensures r.MustWait? ==> Valid() && disk == old(disk)
    {
      hide Represents, InBand;
      ghost var s0, device0 := buffer[..], device;
      SlotsOk(s0, device, disk);
      var k := FindBlock(sector);
      match k {
      case Got(i) =>
        OneHolder(s0, device0, old(disk), sector, i);
        SlotsOk(buffer[..], device, disk);
        var ok := Upgrade(i);
        if !ok {
          return MustWait;
        }
        Store(i, d);
        WriteEnd(i);
        r := Got(());
      case CacheFull => r := CacheFull;
      case MustWait => r := MustWait;
      }
    }
  }

  /** How a request ends: with an answer, in the panic of a cache locked throughout, or in a
      wait for whoever has the slot locked. */
  datatype Answer<T> = Got(value: T) | CacheFull | MustWait

  /** A request for the sector finds an unused slot instead. */
  /** The first slot with the sector's number is read-locked once more and marked as just accessed. */
  ghost predicate Hits<D>(s: seq<Slot<D>>, t: seq<Slot<D>>, sector: nat, k: nat) {
    && k < |s| && s[k].sector == sector && (forall j | 0 <= j < k :: s[j].sector != sector)
    && t == s[k := s[k].(g := 0, b := s[k].b + 1, accessed := true, recent := WithTopBit(s[k].recent))]
  }

  /** No slot has the sector's number. The first unlocked unused one takes the sector in, clean and
      read-locked once, or, if there is none, the last with the least record of those unlocked. The
      unlocked ones the search passed over are dirty. */
  ghost predicate Misses<D>(s: seq<Slot<D>>, t: seq<Slot<D>>, sector: nat, k: nat, d: D) {
    && k < |s| == |t| && (forall j | 0 <= j < |s| :: s[j].sector != sector) && Unlocked(s[k])
    && (if s[k].valid
        then forall j | 0 <= j < |s| && Unlocked(s[j]) ::
               s[j].valid && s[k].recent <= s[j].recent && (j > k ==> s[k].recent < s[j].recent)
        else forall j | 0 <= j < k && Unlocked(s[j]) :: s[j].valid)
    && t[k] == Slot(true, sector, d, false, true, TOP_BIT, 0, 1)
    && forall j | 0 <= j < |s| && j != k ::
         t[j] == if Unlocked(s[j]) && (s[k].valid || j < k) then s[j].(dirty := true) else s[j]
  }

  lemma MissFacts<D>(s: seq<Slot<D>>, t: seq<Slot<D>>, sector: nat, k: nat, disk: seq<D>)
    requires sector < |disk| && Misses(s, t, sector, k, disk[sector])
    ensures k < |s| == |t| && OtherLocks(s, t, k) && Unlocked(s[k]) && t[k].b == 1
    ensures ReadLocked(t[k]) && t[k].accessed && t[k].recent >= TOP_BIT && Found(t[k], sector, disk)
  {}

  /** What slot k held is on the device. */
  ghost predicate Emptied<D>(s: seq<Slot<D>>, device: seq<D>, device': seq<D>, k: nat) {
    k < |s| && (s[k].valid ==> s[k].sector < |device|)
    && device' == if s[k].valid then device[s[k].sector := s[k].data] else device
  }

  ghost predicate Shadowed<D>(s: seq<Slot<D>>, sector: nat) { sector == 0 && HasUnused(s) }

  lemma HitKind<D>(s: seq<Slot<D>>, device: seq<D>, disk: seq<D>, i: nat)
    requires Represents(s, device, disk) && i < |s|
    ensures s[i].valid <==> !Shadowed(s, s[i].sector)
  {
    if s[i].valid {
      assert Caches(s[i], s[i].sector);
      assert IsCached(s, s[i].sector);
    }
  }

  lemma MissKind<D>(s: seq<Slot<D>>, device: seq<D>, disk: seq<D>, n: nat)
    requires Represents(s, device, disk) && forall j | 0 <= j < |s| :: s[j].sector != n
    ensures !IsCached(s, n) && !Shadowed(s, n)
  {
    if n == 0 {
      forall j | 0 <= j < |s| ensures s[j].valid {
        assert SlotOk(s[j], device);
      }
    }
  }

  lemma HitFacts<D>(s: seq<Slot<D>>, device: seq<D>, disk: seq<D>, i: nat)
    requires Represents(s, device, disk) && i < |s|
    ensures s[i].valid ==> IsCached(s, s[i].sector) && s[i].sector < |disk| && s[i].data == disk[s[i].sector]
    ensures WriteLocked(s[i]) <==> exists j :: 0 <= j < |s| && Caches(s[j], s[i].sector) && WriteLocked(s[j])
    ensures IsCached(s, s[i].sector) || Shadowed(s, s[i].sector)
  {
    HitKind(s, device, disk, i);
    assert SlotOk(s[i], device);
    if s[i].valid {
      assert Caches(s[i], s[i].sector);
    }
    forall j | 0 <= j < |s| && Caches(s[j], s[i].sector) && WriteLocked(s[j]) ensures WriteLocked(s[i]) {
      assert IsCached(s, s[i].sector);
      assert j < i || j == i || i < j;
    }
  }

  lemma HitBlank<D>(s: seq<Slot<D>>, blank: D, i: nat)
    requires Blank(s, blank) && i < |s|
    ensures !s[i].valid ==> s[i].data == blank
  {}

  lemma NotWriting<D>(s: seq<Slot<D>>, n: nat)
    requires !IsCached(s, n)
    ensures !exists j :: 0 <= j < |s| && Caches(s[j], n) && WriteLocked(s[j])
  {}

  lemma StillUsed<D>(s: seq<Slot<D>>, t: seq<Slot<D>>, n: nat)
    requires |s| == |t| && !Shadowed(s, n) && forall i | 0 <= i < |s| :: t[i].valid == s[i].valid
    ensures n == 0 ==> !HasUnused(t)
  {}

  /** Where a cached sector was found, its slot was the one slot caching it. */
  lemma OneHolder<D>(s: seq<Slot<D>>, device: seq<D>, disk: seq<D>, n: nat, i: nat)
    requires Represents(s, device, disk) && i < |s| && !Shadowed(s, n)
    requires IsCached(s, n) ==> s[i].sector == n
    ensures IsCached(s, n) ==> (Unlocked(s[i]) <==> !exists j :: 0 <= j < |s| && Caches(s[j], n) && !Unlocked(s[j]))
    ensures !IsCached(s, n) ==> !exists j :: 0 <= j < |s| && Caches(s[j], n) && !Unlocked(s[j])
  {
    if IsCached(s, n) {
      HitKind(s, device, disk, i);
      assert Caches(s[i], n);
      forall j | 0 <= j < |s| && Caches(s[j], n) ensures j == i {
        assert j < i || j == i || i < j;
      }
    }
  }

  /** The slot holds the sector, with the logical disk's data, read-locked and marked accessed. */
  ghost predicate Found<D>(x: Slot<D>, sector: nat, disk: seq<D>) {
    Caches(x, sector) && ReadLocked(x) && sector < |disk| && x.data == disk[sector] && x.accessed
  }

  /** recent |= 1 << 63 */
  function WithTopBit(r: nat): (q: nat)
    ensures q >= TOP_BIT && (r < B64 ==> q < B64)
  {
    if r < TOP_BIT then r + TOP_BIT else r
  }

  lemma UncachedIsDevice<D>(s: seq<Slot<D>>, device: seq<D>, disk: seq<D>, n: nat)
    requires Represents(s, device, disk) && n < |device| && !IsCached(s, n)
    ensures n < |disk| && disk[n] == device[n]
  {}

  lemma StillUncached<D>(s: seq<Slot<D>>, t: seq<Slot<D>>, n: nat)
    requires |s| == |t| && !IsCached(s, n)
    requires forall i | 0 <= i < |s| :: t[i].valid == s[i].valid && t[i].sector == s[i].sector
    ensures !IsCached(t, n)
  {}
}

/** Where the file store meets the buffer cache: sectors that are used again while the cache
    still holds their old contents, and requests for sector 0. */
module SectorReuse {
  import opened BufferCache
  import opened Bytes
  import opened FileStore
  import opened Growth
  import opened Options
  import opened SectorTree

  /** The sectors that have a slot in the cache. */
  function CachedSectors(s: seq<Slot<Sector>>): (c: set<nat>)
    ensures forall n :: n in c <==> IsCached(s, n)
  {
    var c := set i | 0 <= i < |s| && s[i].valid :: s[i].sector;
    assert forall n :: n in c <==> exists i :: 0 <= i < |s| && Caches(s[i], n);
    c
  }

  /** What the file store takes clearing a sector to do is what block_clear does underneath the cache:
      a sector with a slot goes on showing what the slot holds, any other is zero; as long as such a
      slot is dirty or being written the cache still stands for the disk so changed. */
  lemma ClearUnderneath(s: seq<Slot<Sector>>, device: seq<Sector>, disk: seq<Sector>, n: nat)
    requires Represents(s, device, disk) && n < |device|
    ensures forall i | 0 <= i < |s| && Caches(s[i], n) :: Cleared(disk, CachedSectors(s), n) == s[i].data
    ensures !IsCached(s, n) ==> Cleared(disk, CachedSectors(s), n) == ZERO
    ensures (forall i | 0 <= i < |s| && Caches(s[i], n) :: s[i].dirty || WriteLocked(s[i])) ==>
              Represents(s, device[n := ZERO], disk[n := Cleared(disk, CachedSectors(s), n)])
  {
    if !IsCached(s, n) {
      ClearedIfUncached(s, device, disk, n, ZERO);
    } else if forall i | 0 <= i < |s| && Caches(s[i], n) :: s[i].dirty || WriteLocked(s[i]) {
      assert disk[n := disk[n]] == disk;
      forall i | 0 <= i < |s| ensures SlotOk(s[i], device[n := ZERO]) {
        assert SlotOk(s[i], device);
        assert s[i].valid && s[i].sector == n ==> Caches(s[i], n);
      }
    }
  }

  /** A file is removed and closed, and another is made in the same sector. inode_close reads
      the header through the cache and leaves it there; the free map hands the sector out
      again when no lower one is free; block_clear does not reach the slot; and, if nothing has
      pushed the header out of the cache on the way, the assertion of allocate_direct fails. */
  method RemoveThenCreate(fs: FileSystem, cache: Cache<Sector>, h: nat, length: nat) returns (served: bool, o: Outcome)
    requires fs.Sturdy() && cache.Valid() && cache.disk == fs.disk && |cache.device| == |cache.disk|
    requires h in fs.lengths && fs.lengths[h] > 0 && 0 < length < 0x8000_0000
    requires forall s | 0 <= s < h :: s < |fs.used| && fs.used[s] && !OwnsSector(fs.loc, h, s)
    modifies fs, cache, cache.buffer
    ensures served ==> o == Panic
    ensures !served ==> (forall i | 0 <= i < CACHE_BLOCKS :: !Unlocked(old(cache.buffer[i])))
                        || exists i ::
                             0 <= i < CACHE_BLOCKS && Caches(old(cache.buffer[i]), h)
                             && WriteLocked(old(cache.buffer[i]))
  {
    hide Represents, Layout, FileOk, Headed, Content, OthersKept, Word, OwnsSector, FreeList, Order, SomeStop, CostOf;
    hide Tidy, Fresh;
    ghost var v, lengths := fs.Vol(), fs.lengths;
    UsableFacts(v, lengths, h);
    FirstBlockWord(v, h, lengths[h]);
    HeaderOwned(v, h, lengths[h]);
    var header := cache.ReadSector(h);
    if !header.Got? {
      return false, Ok;
    }
    fs.Deallocate(h);
    assert !fs.used[h] && forall s | 0 <= s < h :: fs.used[s];
    TakeFirst(fs.used, h);
    var s := fs.FreeMapAllocate();
    assert Blocks(length) > 0;
    o := fs.InodeCreate(s.value, length, CachedSectors(cache.buffer[..]));
    served := true;
  }

  lemma FirstBlockWord(v: Volume, h: nat, length: nat)
    requires Layout(v) && Headed(v, h, length) && length > 0
    ensures h < |v.disk| && h != 0 && Word(v.disk[h], 0) != 0
  {
    HeadedFacts(v, h, length);
    hide Owned, Wired, Word;
    assert Key(h, Data(0)) in v.loc;
    ReadEntry(v, h, Data(0), h);
  }

  lemma HeaderOwned(v: Volume, h: nat, length: nat)
    requires Layout(v) && Headed(v, h, length)
    ensures OwnsSector(v.loc, h, h) && h < |v.used| == |v.disk|
  {
    HeadedFacts(v, h, length);
    hide Owned, Wired, Word;
  }

  /** What byte_to_sector finds when it asks for sector 0: words of zero, out of an unused slot
      as long as there is one, and out of the device after that. */
  method ReadSectorZero(cache: Cache<Sector>, j: nat) returns (r: Answer<nat>)
    requires cache.Valid() && cache.blank == ZERO && |cache.disk| > 0 && cache.disk[0] == ZERO && j < ENTRIES
    modifies cache, cache.buffer
    ensures r.Got? ==> r.value == 0 && cache.Valid()
  {
    hide Represents, Word;
    SlotsOk(cache.buffer[..], cache.device, cache.disk);
    var d := cache.ReadSector(0);
    match d {
    case Got(sector) =>
      WordOfZero(j);
      r := Got(Word(sector, j));
    case CacheFull => r := CacheFull;
    case MustWait => r := MustWait;
    }
  }
}

/** The swap table of src/vm/swap.c: slots of eight sectors on the swap device. */
module SwapTable {
  import opened Bytes
  import opened Options

  const PAGE: nat := 4096
  const SECTORS_PER_SLOT: nat := 8

  /** block_sector_num. */
  function BlockSectorNum(slot: nat): nat { SECTORS_PER_SLOT * slot }

  /** The first n sectors of a slot, one after the other. */
  ghost function SlotPrefix(sectors: seq<Sector>, slot: nat, n: nat): (s: seq<byte>)
    requires BlockSectorNum(slot) + n <= |sectors|
    ensures |s| == 512 * n
  {
    if n == 0 then [] else SlotPrefix(sectors, slot, n - 1) + sectors[BlockSectorNum(slot) + n - 1]
  }

  /** The page a slot holds. */
  ghost function SlotPage(sectors: seq<Sector>, slot: nat): (s: seq<byte>)
    requires BlockSectorNum(slot) + SECTORS_PER_SLOT <= |sectors|
    ensures |s| == PAGE
  {
    SlotPrefix(sectors, slot, SECTORS_PER_SLOT)
  }

  lemma {:induction false} SlotLocal(a: seq<Sector>, b: seq<Sector>, slot: nat, n: nat)
    requires |a| == |b| && BlockSectorNum(slot) + n <= |a|
    requires forall k | BlockSectorNum(slot) <= k < BlockSectorNum(slot) + n :: a[k] == b[k]
    ensures SlotPrefix(a, slot, n) == SlotPrefix(b, slot, n)
  {
    if n > 0 {
      SlotLocal(a, b, slot, n - 1);
    }
  }

  /** Slots do not overlap on the device. */
  lemma SlotsApart(a: seq<Sector>, b: seq<Sector>, slot: nat, other: nat)
    requires |a| == |b| && slot != other
    requires BlockSectorNum(slot) + SECTORS_PER_SLOT <= |a| && BlockSectorNum(other) + SECTORS_PER_SLOT <= |a|
    requires forall k | 0 <= k < |a| && !(BlockSectorNum(slot) <= k < BlockSectorNum(slot) + SECTORS_PER_SLOT) ::
              a[k] == b[k]
    ensures SlotPage(a, other) == SlotPage(b, other)
  {
    SlotLocal(a, b, other, SECTORS_PER_SLOT);
  }

  class Swap {
    var sectors: seq<Sector>
    var inUse: seq<bool>

    ghost predicate Valid()
      reads this
    {
      SECTORS_PER_SLOT * |inUse| <= |sectors|
    }

    /** init_swap_table: block_size (swap_table) * BLOCK_SECTOR_SIZE / PGSIZE slots, all free. */
    constructor (device: seq<Sector>)
      ensures Valid() && sectors == device && |inUse| == |device| * 512 / PAGE
      ensures forall k | 0 <= k < |inUse| :: !inUse[k]
    {
      sectors := device;
      inUse := seq(|device| * 512 / PAGE, _ => false);
    }

    /** swap_find_empty. */
    method FindEmpty() returns (r: Option<nat>)
      modifies `inUse
      ensures r.Some? ==> r.value < |old(inUse)| && !old(inUse)[r.value] && inUse == old(inUse)[r.value := true]
                          && forall k | 0 <= k < r.value :: old(inUse)[k]
      ensures r.None? ==> inUse == old(inUse) && forall k | 0 <= k < |inUse| :: inUse[k]
    {
      var i := 0;
      while i < |inUse|
        invariant i <= |inUse| && inUse == old(inUse) && forall k | 0 <= k < i :: inUse[k]
      {
        if !inUse[i] {
          inUse := inUse[i := true];
          return Some(i);
        }
        i := i + 1;
      }
      return None;
    }

    /** swap_put_page; None is its failed assertion, when no slot is free. */
    method Put(page: seq<byte>) returns (r: Option<nat>)
      requires Valid() && |page| == PAGE
      modifies this
      ensures Valid() && |sectors| == |old(sectors)| && |inUse| == |old(inUse)|
      ensures r.Some? ==> r.value < |inUse| && !old(inUse)[r.value] && inUse == old(inUse)[r.value := true]
                          && SlotPage(sectors, r.value) == page && forall k | 0 <= k < r.value :: old(inUse)[k]
      ensures r.Some? ==>
                forall s: nat | s < |inUse| && s != r.value :: SlotPage(sectors, s) == SlotPage(old(sectors), s)
      ensures r.None? ==> sectors == old(sectors) && inUse == old(inUse) && forall k | 0 <= k < |inUse| :: inUse[k]
    {
      r := FindEmpty();
      if r.None? {
        return;
      }
      ghost var device := sectors;
      var slot := r.value;
      var i := 0;
      while i < PAGE / 512
        invariant i <= SECTORS_PER_SLOT && |sectors| == |device| && inUse == old(inUse)[slot := true]
        invariant forall k | 0 <= k < |device| && !(BlockSectorNum(slot) <= k < BlockSectorNum(slot) + i) ::
                  sectors[k] == device[k]
        invariant SlotPrefix(sectors, slot, i) == page[..512 * i]
      {
        ghost var before := sectors;
        sectors := sectors[BlockSectorNum(slot) + i := page[512 * i..512 * i + 512]];
        SlotLocal(before, sectors, slot, i);
        i := i + 1;
      }
      assert page[..512 * i] == page;
      forall s: nat | s < |inUse| && s != slot ensures SlotPage(sectors, s) == SlotPage(device, s) {
        SlotsApart(sectors, device, slot, s);
      }
    }

    /** swap_retrieve_page. */
    method Retrieve(slot: nat) returns (page: seq<byte>)
      requires Valid() && slot < |inUse|
      modifies `inUse
      ensures page == SlotPage(sectors, slot) && inUse == old(inUse)[slot := false]
    {
      page := [];
      var i := 0;
      while i < PAGE / 512
        invariant i <= SECTORS_PER_SLOT && page == SlotPrefix(sectors, slot, i) && inUse == old(inUse)
      {
        page := page + sectors[BlockSectorNum(slot) + i];
        i := i + 1;
      }
      inUse := inUse[slot := false];
    }
  }
}

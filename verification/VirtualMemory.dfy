/** Eviction, page faults, pins and stores over the memory of module Paging. */
module VirtualMemory {
  import opened Bitmaps
  import opened Bytes
  import opened Clock
  import opened Lists
  import opened Options
  import opened Paging
  import opened SwapTable

  /** Every swap slot is in use, and there are as many swapped-out pages as slots. */
  ghost predicate SwapFull(pages: map<nat, SuppPage>, inUse: seq<bool>) {
    (forall k | 0 <= k < |inUse| :: inUse[k]) && |SwappedPages(pages)| == |inUse|
  }

  /** Frame f holds a page that can only go to a swap slot. */
  ghost predicate Anonymous(m: Memory, f: nat) {
    f in m.frames && m.frames[f].page in m.pages && m.pages[m.frames[f].page].kind.Swapslot?
  }

  /** No page of the pool is free, the frame the clock comes to holds an anonymous page, and
      every swap slot is in use. */
  ghost predicate VictimStranded(m: Memory) {
    && (forall f | 0 <= f < |m.used| :: m.used[f]) && SwapFull(m.pages, m.inUse)
    && AllIn(m.table, m.frames)
    && exists j :: 0 <= j < |m.table| && Chosen(m.table, m.frames, j) && Anonymous(m, m.table[j])
  }

  /** The clock comes to one frame only. */
  lemma ChosenOnce(t: seq<nat>, a: map<nat, Frame>, i: nat, j: nat)
    requires AllIn(t, a) && i < |t| && j < |t| && Chosen(t, a, i) && Chosen(t, a, j)
    ensures i == j
  {}

  lemma StrandedIf(m: Memory, n: Memory, j: nat)
    requires (forall f | 0 <= f < |m.used| :: m.used[f]) && AllIn(m.table, m.frames) && j < |m.table|
    requires Chosen(m.table, m.frames, j) && SameButAccessed(m.frames, n.frames) && n.pages == m.pages
    ensures VictimStranded(m) <==> Anonymous(n, m.table[j]) && SwapFull(m.pages, m.inUse)
  {
    hide Chosen, SwapFull;
    assert Unaccessed(n.frames[m.table[j]]) == Unaccessed(m.frames[m.table[j]]);
    if VictimStranded(m) {
      var i :| 0 <= i < |m.table| && Chosen(m.table, m.frames, i) && Anonymous(m, m.table[i]);
      ChosenOnce(m.table, m.frames, i, j);
    }
  }

  lemma NotStranded(m: Memory, f: nat)
    requires f < |m.used| && !m.used[f]
    ensures !VictimStranded(m)
  {}

  lemma NoneStranded(m: Memory)
    requires AllIn(m.table, m.frames) && !HasEligible(m.table, m.frames)
    ensures !VictimStranded(m)
  {
    hide SwapFull, Anonymous;
  }

  /** f is the first that is not in use. */
  ghost predicate FirstFree(used: seq<bool>, f: nat) { f < |used| && !used[f] && forall g | 0 <= g < f :: used[g] }

  /** The page in frame f of m has lost it: an anonymous one is in the first free swap slot, of a file
      page the dirty bytes are in the file; no other page, frame content, slot or file has changed. */
  ghost predicate PageOut(m: Memory, n: Memory, f: nat) {
    && f in m.frames && m.frames[f].page in m.pages && m.frames[f].page in n.pages
    && |n.bytes| == |m.bytes| && (forall g | 0 <= g < |m.bytes| && g != f :: n.bytes[g] == m.bytes[g])
    && OnlyItsBytes(m, f, n.files)
    && var p := m.frames[f].page;
       && n.pages == m.pages[p := m.pages[p].(fr := None, kind := n.pages[p].kind)]
       && match m.pages[p].kind
          case Filesys(_, _, _) => n.pages[p].kind == m.pages[p].kind && n.inUse == m.inUse && n.sectors == m.sectors
          case Swapslot(_) =>
            && n.pages[p].kind.Swapslot? && n.pages[p].kind.swap.Some? && FirstFree(m.inUse, n.pages[p].kind.swap.value)
            && n.inUse == m.inUse[n.pages[p].kind.swap.value := true]
  }

  /** Frame f is gone with its page. */
  ghost predicate ThrownOut(m: Memory, n: Memory, f: nat) {
    && PageOut(m, n, f) && f < |m.used| && n.used == m.used[f := false]
    && n.frames == m.frames - {f} && n.table == Remove(m.table, f)
  }

  /** Frame f has been got: the first free page of the pool and nobody lost anything or, when there is
      none, that of the page the clock comes to, which alone was evicted. */
  ghost predicate FrameGot(m: Memory, n: Memory, f: nat) {
    && f < |m.used| == |m.bytes|
    && if exists g | 0 <= g < |m.used| :: !m.used[g] then
         FirstFree(m.used, f) && n == m.(used := m.used[f := true], bytes := m.bytes[f := Zeros(PAGE)])
       else
         && n.used == m.used && PageOut(m, n, f) && AllIn(m.table, m.frames)
         && n.frames.Keys == m.frames.Keys - {f}
         && (forall g | g in n.frames :: Unaccessed(n.frames[g]) == Unaccessed(m.frames[g]))
         && exists j: nat :: j < |m.table| && m.table[j] == f && Chosen(m.table, m.frames, j)
                             && n.table == m.table[j + 1..] + m.table[..j]
  }

  /** Page p was brought in: a frame was got and the page put into it. */
  ghost predicate FaultedIn(m: Memory, n: Memory, p: nat) {
    exists k, f :: FrameGot(m, k, f) && NewFrame(k, n, p, f)
  }

  /** There is a new anonymous page p: a frame was got and stays zero. */
  ghost predicate GrownIn(m: Memory, n: Memory, p: nat) {
    exists k, f :: FrameGot(m, k, f)
                   && n == k.(table := k.table + [f], frames := k.frames[f := Frame(p, 0, false, true, false, false)],
                              pages := k.pages[p := SuppPage(Swapslot(None), Some(f), true, false)])
  }

  /** Page p is resident in k: it was in m, and nothing has changed, or it has been brought in. */
  ghost predicate BroughtIn(m: Memory, k: Memory, p: nat) {
    && p in m.pages && p in k.pages && k.pages[p].fr.Some? && k.pages[p].fr.value in k.frames
    && if m.pages[p].fr.Some? then k == m else FaultedIn(m, k, p)
  }

  /** An access to resident page p: its entry has the accessed bit and, after a store, the dirty bit,
      and no frame but its own has other bytes. */
  ghost predicate Accesses(k: Memory, n: Memory, p: nat, store: bool) {
    && p in k.pages && k.pages[p].fr.Some? && k.pages[p].fr.value in k.frames
    && var f := k.pages[p].fr.value;
       && n == k.(frames := n.frames, bytes := n.bytes)
       && n.frames == k.frames[f := k.frames[f].(userAccessed := true, dirty := store || k.frames[f].dirty)]
       && |n.bytes| == |k.bytes| && forall g | 0 <= g < |k.bytes| && (g != f || !store) :: n.bytes[g] == k.bytes[g]
  }

  /** Only the pins of resident page p have changed. */
  ghost predicate Repinned(m: Memory, n: Memory, p: nat, change: int) {
    && p in m.pages && m.pages[p].fr.Some? && m.pages[p].fr.value in m.frames
    && var f := m.pages[p].fr.value;
       && m.frames[f].pinned + change >= 0 && n == m.(frames := n.frames)
       && n.frames == m.frames[f := m.frames[f].(pinned := m.frames[f].pinned + change)]
  }

  /** What a command that is served does to frames, pages, slots and files. */
  ghost predicate Effect(m: Memory, n: Memory, c: Command) {
    match c
    case Load(p, _) => exists k :: BroughtIn(m, k, p) && Accesses(k, n, p, false)
    case Store(p, _, _) => exists k :: BroughtIn(m, k, p) && Accesses(k, n, p, true)
    case Pin(p) => if p in m.pages && m.pages[p].fr.None? then FaultedIn(m, n, p) else Repinned(m, n, p, 1)
    case Unpin(p) => Repinned(m, n, p, -1)
    case Grow(p) => GrownIn(m, n, p)
  }

  /** How an operation ends: served, with no frame to be had, or with nowhere to put an evicted page.
      The source's victim choice does not end in the second case and its assertion fails in the third. */
  datatype Service = Served | NoFrame | NoSlot

  class Vm {
    const swap: Swap
    var used: seq<bool>
    var bytes: seq<seq<byte>>
    var frames: map<nat, Frame>
    var table: seq<nat>
    var pages: map<nat, SuppPage>
    var files: map<nat, seq<byte>>

    ghost function State(): Memory
      reads this, swap
    {
      Memory(used, bytes, frames, table, pages, swap.inUse, swap.sectors, files)
    }

    ghost predicate Valid()
      reads this, swap
    {
      Inv(State())
    }

    constructor (pool: seq<bool>, memory: seq<seq<byte>>, device: seq<Sector>, fs: map<nat, seq<byte>>)
      requires |memory| == |pool| && forall f | 0 <= f < |memory| :: |memory[f]| == PAGE
      ensures Valid() && pages == map[] && frames == map[] && files == fs && used == pool && fresh(swap)
      ensures bytes == memory && table == [] && swap.sectors == device
      ensures forall k | 0 <= k < |swap.inUse| :: !swap.inUse[k]
    {
      swap := new Swap(device);
      used, bytes, files := pool, memory, fs;
      frames, table, pages := map[], [], map[];
    }

    /** frame_choose_victim. `steps` counts the turns of its loop. */
    method ChooseVictim() returns (v: nat, ghost j: nat, steps: nat)
      requires NoDup(table) && AllIn(table, frames)
      requires HasEligible(table, frames)
      modifies `table, `frames
      ensures j < |old(table)| && v == old(table)[j] && Chosen(old(table), old(frames), j)
      ensures table == old(table)[j + 1..] + old(table)[..j]
      ensures SameButAccessed(old(frames), frames) && steps <= 2 * |old(table)|
      ensures old(frames)[v].pinned == 0 && !old(frames)[v].evicting
      ensures var t, a := old(table), old(frames);
              if a[v].kernelAccessed || a[v].userAccessed then
                && steps == |t| + j + 1
                && (forall i | 0 <= i < j :: a[t[i]].pinned > 0 || a[t[i]].evicting)
                && (forall i | 0 <= i < |t| && a[t[i]].pinned == 0 && !a[t[i]].evicting ::
                      a[t[i]].kernelAccessed || a[t[i]].userAccessed)
              else
                && steps == j + 1
                && (forall i | 0 <= i < j && a[t[i]].pinned == 0 && !a[t[i]].evicting ::
                      a[t[i]].kernelAccessed || a[t[i]].userAccessed)
      ensures forall i | 0 <= i < |old(table)| ::
                var f := old(table)[i];
                frames[f] == if i < steps - 1 then old(frames)[f].(kernelAccessed := false, userAccessed := false)
                             else old(frames)[f]
    {
      hide Turned, Chosen, NoDup, Rotated, SameButAccessed, AllIn, HasEligible;
      ghost var t, a := table, frames;
      ghost var pos := 0;
      steps := 0;
      Untouched(t, a);
      while true
        invariant steps < 2 * |t| && pos == (if steps < |t| then steps else steps - |t|)
        invariant table == Rotated(t, pos) && Turned(t, a, frames, steps)
        decreases 2 * |t| - steps
      {
        OneTurn(t, a, frames, steps, pos);
        v := table[0];
        table := table[1..];
        if Accessed(frames[v]) || frames[v].evicting || frames[v].pinned > 0 {
          frames := frames[v := Unaccessed(frames[v])];
          table := table + [v];
          steps := steps + 1;
          pos := if pos + 1 == |t| then 0 else pos + 1;
        } else {
          ChosenOnBits(t, a, frames, steps, pos);
          j, steps := pos, steps + 1;
          return;
        }
      }
    }

    /** frame_free, the page already having been saved as `kind` says. */
    method FrameFree(f: nat, kind: Kind)
      requires f in frames && f < |used| == |bytes| && frames[f].page in pages
      modifies `used, `bytes, `frames, `table, `pages
      ensures State() == Released(old(State()), f, kind)
    {
      var p := frames[f].page;
      table := Remove(table, f);
      used := used[f := false];
      bytes := bytes[f := Cleared()];
      frames := frames - {f};
      pages := pages[p := pages[p].(fr := None, kind := kind)];
    }

    /** frame_evict of a frame that is on the table, or has just been taken off it. The result
        is false when an anonymous page finds no swap slot, which the source asserts against. */
    method FrameEvict(f: nat, ghost except: set<nat>) returns (ok: bool)
      requires Consistent(State(), except) && except <= {f} && f in frames
      modifies this, swap
      ensures ok ==> Valid() && Evicted(old(State()), State(), f) && ThrownOut(old(State()), State(), f)
      ensures !ok <==> Anonymous(old(State()), f) && SwapFull(old(pages), old(swap.inUse))
      ensures !ok ==> State() == old(State())
    {
      hide Consistent, Inv, SameView, SwappedPages, PageOk, Private, TableOk, OwnSlots, FrameOk, WrittenBack, Cleared;
      hide Remove, SlotPage, OnlyItsBytes, FirstFree;
      ghost var m := State();
      IsVictim(m, except, f);
      SlotCount(m, except);
      var p := frames[f].page;
      VictimFacts(m, f, p);
      var kind := pages[p].kind;
      match kind
      case Filesys(file, offset, n) =>
        if frames[f].dirty {
          files := files[file := Patched(files[file], offset, bytes[f][..n])];
        }
        WroteBack(m, f, p);
        WroteItsBytes(m, f, p);
        EvictFileKeeps(m, except, f, p);
        FrameFree(f, kind);
        IsEvicted(m, State(), f, p);
        ok := true;
      case Swapslot(_) =>
        var slot := swap.Put(bytes[f]);
        if slot.None? {
          return false;
        }
        assert !m.inUse[slot.value];
        assert FirstFree(m.inUse, slot.value) by { IsFirst(m.inUse, slot.value); }
        WroteNothing(m, f, p);
        EvictSwapKeeps(m, except, f, p, slot.value, swap.sectors);
        FrameFree(f, Swapslot(slot));
        IsEvicted(m, State(), f, p);
        ok := true;
    }

    /** palloc_get_page (PAL_USER | PAL_ZERO). */
    method GetPage() returns (r: Option<nat>)
      requires |bytes| == |used|
      modifies `used, `bytes
      ensures r.Some? ==> FirstFree(old(used), r.value) && State() == Reserved(old(State()), r.value)
      ensures r.None? ==> State() == old(State()) && forall f | 0 <= f < |used| :: used[f]
    {
      r := FirstGroup(used, 0, 1, false);
      if r.Some? {
        forall g | 0 <= g < r.value ensures used[g] {
          assert !Group(used, g, 1, false);
        }
        used := used[r.value := true];
        bytes := bytes[r.value := Zeros(PAGE)];
      } else {
        forall f | 0 <= f < |used| ensures used[f] {
          assert !Group(used, f, 1, false);
        }
      }
    }

    /** Whether victim choice would end. */
    method VictimExists() returns (yes: bool)
      requires AllIn(table, frames)
      ensures yes <==> HasEligible(table, frames)
    {
      var i := 0;
      while i < |table|
        invariant i <= |table| && forall k | 0 <= k < i :: !Eligible(frames[table[k]])
      {
        if Eligible(frames[table[i]]) {
          return true;
        }
        i := i + 1;
      }
      return false;
    }

    /** The first half of frame_create: a zeroed frame, evicting a page if need be. */
    method GetFrame() returns (r: Service, f: nat)
      requires Valid()
      modifies this, swap
      ensures r.Served? ==> Valid() && f < |used| && used[f] && f !in frames && |bytes| == |used|
                            && bytes[f] == Zeros(PAGE) && Unseen(old(State()), State())
                            && PinsKept(old(State()), State(), {}) && FrameGot(old(State()), State(), f)
      ensures r.NoFrame? <==> !CanGetFrame(old(State()))
      ensures r.NoFrame? ==> State() == old(State())
      ensures r.NoSlot? <==> VictimStranded(old(State()))
    {
      hide Inv, Consistent, Unseen, NoDup, Chosen, AllIn, SameButAccessed, PinsKept, HasEligible, CanGetFrame;
      hide VictimStranded, SwapFull, Anonymous, FrameGot, ThrownOut;
      ghost var m := State();
      TableFacts(m);
      FrameThere(m);
      var g := GetPage();
      if g.None? {
        var yes := VictimExists();
        if !yes {
          NoneStranded(m);
          return NoFrame, 0;
        }
        var v, j, steps := ChooseVictim();
        ghost var n := State();
        TakenOffTable(m, n, j);
        StrandedIf(m, n, j);
        var ok := FrameEvict(v, {v});
        if !ok {
          return NoSlot, 0;
        }
        ghost var o := State();
        TableFacts(o);
        EvictedFacts(n, o, v);
        UnseenTwice(m, n, o);
        ChosenFacts(m.table, m.frames, j);
        VictimPins(m, n, o, v);
        g := GetPage();
        ReservedUnseen(o, g.value);
        UnseenTwice(m, o, State());
        ReservedPins(m, o, g.value);
        GotByEviction(m, n, o, j, g.value);
      } else {
        NotStranded(m, g.value);
        ReservedUnseen(m, g.value);
        SamePins(m);
        ReservedPins(m, m, g.value);
        GotFree(m, g.value);
      }
      r, f := Served, g.value;
    }

    /** The page gets the frame: the rest of frame_create, and the page table's new entry. Its
        content came through the kernel's own address, so that address counts as accessed. */
    method Install(p: nat, page: SuppPage, f: nat, content: seq<byte>, pinned: bool)
      requires f < |bytes|
      modifies `bytes, `frames, `table, `pages
      ensures bytes == old(bytes)[f := content] && table == old(table) + [f]
      ensures frames == old(frames)[f := Frame(p, if pinned then 1 else 0, false, true, false, false)]
      ensures pages == old(pages)[p := page.(fr := Some(f))]
    {
      bytes := bytes[f := content];
      frames := frames[f := Frame(p, if pinned then 1 else 0, false, true, false, false)];
      table := table + [f];
      pages := pages[p := page.(fr := Some(f))];
    }

    /** page_to_new_frame. */
    method Fault(p: nat, pinned: bool) returns (r: Service)
      requires Valid() && p in pages && pages[p].fr.None?
      modifies this, swap
      ensures r.Served? ==> Valid() && Transparent(old(State()), State()) && Holds(State(), p, if pinned then 1 else 0)
                            && PinsKept(old(State()), State(), {p}) && FaultedIn(old(State()), State(), p)
      ensures r.Served? ==>
                match old(pages[p].kind)
                case Filesys(file, offset, n) =>
                  && n <= PAGE && file in files && offset + n <= |files[file]| && pages[p].fr.value < |bytes|
                  && bytes[pages[p].fr.value] == files[file][offset..offset + n] + Zeros(PAGE - n)
                  && pages[p].kind == if pages[p].wr && pages[p].ownExe then Swapslot(None) else old(pages[p].kind)
                case Swapslot(_) => pages[p].kind == old(pages[p].kind)
      ensures r.NoFrame? <==> !CanGetFrame(old(State()))
      ensures r.NoFrame? ==> State() == old(State())
      ensures r.NoSlot? <==> VictimStranded(old(State()))
    {
      hide Inv, Unseen, PageOk, SlotPage, PinsKept, Transparent, Zeros, CanGetFrame, VictimStranded, FrameGot;
      hide FaultedIn;
      ghost var l := State();
      var f;
      r, f := GetFrame();
      if !r.Served? {
        return;
      }
      ghost var m := State();
      StillAbsent(l, m, p);
      AbsentFacts(m, p);
      var page := pages[p];
      var content;
      match page.kind {
      case Filesys(file, offset, n) =>
        content := files[file][offset..offset + n] + Zeros(PAGE - n);
        if page.wr && page.ownExe {
          page := page.(kind := Swapslot(None));
        }
        Install(p, page, f, content, pinned);
        FromFile(m, State(), p, f, content);
      case Swapslot(slot) =>
        content := swap.Retrieve(slot.value);
        Install(p, page, f, content, pinned);
        FromSwap(m, State(), p, f, content);
      }
      TransparentAfter(l, m, State());
      PinsAfter(l, m, State(), p, f);
      IsFaultedIn(l, m, State(), p, f);
    }

    /** grow_stack: a new anonymous page, resident and zero. */
    method GrowStack(p: nat) returns (r: Service)
      requires Valid() && p !in pages
      modifies this, swap
      ensures r.Served? ==> Valid() && Grown(old(State()), State(), p) && GrownIn(old(State()), State(), p)
      ensures r.NoFrame? <==> !CanGetFrame(old(State()))
      ensures r.NoFrame? ==> State() == old(State())
      ensures r.NoSlot? <==> VictimStranded(old(State()))
    {
      hide Inv, Consistent, Unseen, SameView, PageOk, View, PinsKept, Zeros, CanGetFrame, VictimStranded, Grown;
      hide FrameGot;
      ghost var l := State();
      var f;
      r, f := GetFrame();
      if !r.Served? {
        return;
      }
      ghost var m := State();
      UnseenKeys(l, m);
      Install(p, SuppPage(Swapslot(None), None, true, false), f, bytes[f], false);
      FreshPage(l, m, State(), p, f);
      assert bytes == m.bytes;
      assert FrameGot(l, m, f);
    }

    /** create_filesys_page: nothing is loaded yet. */
    method CreateFilesysPage(p: nat, file: nat, offset: nat, n: nat, wr: bool, ownExe: bool)
      requires Valid() && p !in pages && InFile(State(), Filesys(file, offset, n))
      requires Private(pages[p := SuppPage(Filesys(file, offset, n), None, wr, ownExe)])
      modifies `pages
      ensures Valid() && pages == old(pages)[p := SuppPage(Filesys(file, offset, n), None, wr, ownExe)]
      ensures PageOk(State(), p) && View(State(), p)[..n] == files[file][offset..offset + n]
      ensures forall q | q in old(pages) :: SameView(old(State()), State(), q)
    {
      hide Inv;
      ghost var m := State();
      pages := pages[p := SuppPage(Filesys(file, offset, n), None, wr, ownExe)];
      MappedPage(m, State(), p);
    }

    /** pin_page, when nothing else is running. */
    method PinPage(p: nat) returns (r: Service)
      requires Valid() && p in pages
      modifies this, swap
      ensures r.Served? ==> Valid() && Transparent(old(State()), State()) && PinsKept(old(State()), State(), {p})
                            && Holds(State(), p, PinsOf(old(State()), p) + 1)
      ensures r.Served? ==> if old(pages[p].fr).None? then FaultedIn(old(State()), State(), p)
                            else Repinned(old(State()), State(), p, 1)
      ensures r.NoFrame? <==> old(pages[p].fr).None? && !CanGetFrame(old(State()))
      ensures r.NoFrame? ==> State() == old(State())
      ensures r.NoSlot? <==> old(pages[p].fr).None? && VictimStranded(old(State()))
    {
      hide Inv, Consistent, SameView, Unseen, PinsKept, CanGetFrame, VictimStranded, Transparent, FaultedIn;
      ghost var m := State();
      if pages[p].fr.Some? {
        ResidentFacts(m, p);
        var f := pages[p].fr.value;
        frames := frames[f := frames[f].(pinned := frames[f].pinned + 1)];
        PinChange(m, State(), p, f);
        r := Served;
      } else {
        r := Fault(p, true);
      }
    }

    /** unpin_page. */
    method UnpinPage(p: nat)
      requires Valid() && p in pages && PinsOf(State(), p) > 0
      modifies `frames
      ensures Valid() && Transparent(old(State()), State()) && PinsKept(old(State()), State(), {p})
      ensures Holds(State(), p, PinsOf(old(State()), p) - 1)
      ensures Repinned(old(State()), State(), p, -1)
    {
      hide Inv, Consistent, SameView, Unseen, PinsKept, Transparent;
      ghost var m := State();
      var f := pages[p].fr.value;
      frames := frames[f := frames[f].(pinned := frames[f].pinned - 1)];
      PinChange(m, State(), p, f);
    }

    /** An access by the processor: a fault first if the page is not there. */
    method Touch(p: nat) returns (r: Service)
      requires Valid() && p in pages
      modifies this, swap
      ensures r.Served? ==> Valid() && Transparent(old(State()), State()) && PinsKept(old(State()), State(), {})
                            && BroughtIn(old(State()), State(), p)
      ensures r.NoFrame? <==> old(pages[p].fr).None? && !CanGetFrame(old(State()))
      ensures r.NoFrame? ==> State() == old(State())
      ensures r.NoSlot? <==> old(pages[p].fr).None? && VictimStranded(old(State()))
    {
      hide Inv, SameView, VictimStranded, PinsKept, Transparent, CanGetFrame, FaultedIn;
      ghost var m := State();
      if pages[p].fr.Some? {
        TransparentSame(m);
        SamePins(m);
        ResidentFacts(m, p);
        return Served;
      }
      r := Fault(p, false);
      if r.Served? {
        PinsOfLoaded(m, State(), p);
      }
    }

    /** One command. What it loads and leaves is what it would in a memory that is never paged. */
    method Step(c: Command) returns (r: Service, out: seq<byte>)
      requires Valid() && Permits(Flatten(State()), c)
      modifies this, swap
      ensures r.Served? ==> Valid() && Flatten(State()) == After(Flatten(old(State())), c)
                            && out == Output(Flatten(old(State())), c)
      ensures r.Served? ==> Effect(old(State()), State(), c)
      ensures r.NoFrame? <==> NeedsFrame(old(State()), c) && !CanGetFrame(old(State()))
      ensures r.NoFrame? ==> Valid() && State() == old(State())
      ensures r.NoSlot? <==> NeedsFrame(old(State()), c) && VictimStranded(old(State()))
    {
      hide Inv, Flatten, Views, Transparent, SameView, PinsKept, CanGetFrame, VictimStranded, Holds, PinsOf, Grown;
      hide After, Output, Permits, FaultedIn, GrownIn;
      ghost var m := State();
      PermitsMeans(m, c);
      out := [];
      match c {
      case Load(p, i) =>
        r := Touch(p);
        if r.Served? {
          SameFlat(m, State());
          ghost var n := State();
          ResidentFacts(n, p);
          ViewByte(n, p, i);
          var f := pages[p].fr.value;
          out := [bytes[f][i]];
          frames := frames[f := frames[f].(userAccessed := true)];
          AccessedBit(n, State(), f);
          LoadEffect(m, n, State(), c);
          SameFlat(n, State());
          LoadMeans(m, c);
        }
      case Store(p, i, b) =>
        r := Touch(p);
        if r.Served? {
          SameFlat(m, State());
          ghost var n := State();
          ResidentFacts(n, p);
          PermitsMeans(n, c);
          StoredKeeps(n, p, i, b);
          var f := pages[p].fr.value;
          var page: seq<byte> := bytes[f][i := b];
          bytes := bytes[f := page];
          frames := frames[f := frames[f].(userAccessed := true, dirty := true)];
          assert State() == Stored(n, p, i, b);
          StoreFlat(n, p, i, b);
          StoreEffect(m, n, State(), c);
        }
      case Pin(p) =>
        r := PinPage(p);
        if r.Served? {
          PinFlat(m, State(), c);
        }
      case Unpin(p) =>
        UnpinPage(p);
        PinFlat(m, State(), c);
        r := Served;
      case Grow(p) =>
        r := GrowStack(p);
        if r.Served? {
          GrowFlat(m, State(), p);
        }
      }
    }

    /** Runs `commands` until one cannot be served; `reached` is the memory it then found. */
    method Execute(commands: seq<Command>) returns (loaded: seq<byte>, done: nat, last: Service, ghost reached: Memory)
      requires Valid() && Allowed(Flatten(State()), commands)
      modifies this, swap
      ensures done <= |commands| && loaded == Loaded(Flatten(old(State())), commands[..done])
      ensures Inv(reached) && Flatten(reached) == Final(Flatten(old(State())), commands[..done])
      ensures last.Served? <==> done == |commands|
      ensures !last.NoSlot? ==> State() == reached
      ensures done < |commands| ==> NeedsFrame(reached, commands[done])
      ensures done < |commands| ==> (last.NoFrame? <==> !CanGetFrame(reached))
      ensures done < |commands| ==> (last.NoSlot? <==> VictimStranded(reached))
    {
      hide Inv, Loaded, Final, Flatten, CanGetFrame, VictimStranded, Permits, After, Output;
      ghost var v := Flatten(State());
      loaded, done, last, reached := [], 0, Served, State();
      NoCommands(v);
      assert commands[..0] == [];
      while done < |commands|
        invariant done <= |commands| && Valid() && last.Served? && reached == State()
        invariant loaded == Loaded(v, commands[..done]) && Flatten(State()) == Final(v, commands[..done])
      {
        PermittedNow(v, commands, done);
        var out;
        last, out := Step(commands[done]);
        if !last.Served? {
          return;
        }
        NextCommand(v, commands, done);
        loaded := loaded + out;
        done, reached := done + 1, State();
      }
    }
  }

  /** What a process and the kernel on its behalf ask of memory. */
  datatype Command =
    | Load(page: nat, at: nat)
    | Store(page: nat, at: nat, value: byte)
    | Pin(page: nat)
    | Unpin(page: nat)
    | Grow(page: nat)

  /** The command has to find a frame for its page. */
  ghost predicate NeedsFrame(m: Memory, c: Command) {
    c.Grow? || (!c.Unpin? && c.page in m.pages && m.pages[c.page].fr.None?)
  }

  /** A memory without paging: what the pages hold, which are writable and how often each is pinned. */
  datatype Flat = Flat(view: map<nat, seq<byte>>, wr: map<nat, bool>, pins: map<nat, nat>)

  /** The command names a page there is, a byte the page answers for, and stores only where it may. */
  predicate Permits(v: Flat, c: Command) {
    match c
    case Load(p, i) => p in v.view && i < |v.view[p]|
    case Store(p, i, _) => p in v.view && i < |v.view[p]| && p in v.wr && v.wr[p]
    case Pin(p) => p in v.view && p in v.pins
    case Unpin(p) => p in v.view && p in v.pins && v.pins[p] > 0
    case Grow(p) => p !in v.view
  }

  function After(v: Flat, c: Command): Flat
    requires Permits(v, c)
  {
    match c
    case Load(_, _) => v
    case Store(p, i, b) =>
      var page: seq<byte> := v.view[p][i := b];
      v.(view := v.view[p := page])
    case Pin(p) => v.(pins := v.pins[p := v.pins[p] + 1])
    case Unpin(p) => v.(pins := v.pins[p := v.pins[p] - 1])
    case Grow(p) => Flat(v.view[p := Zeros(PAGE)], v.wr[p := true], v.pins[p := 0])
  }

  function Output(v: Flat, c: Command): seq<byte>
    requires Permits(v, c)
  {
    if c.Load? then [v.view[c.page][c.at]] else []
  }

  /** Each command is permitted in the memory the ones before it leave. */
  predicate Allowed(v: Flat, cs: seq<Command>) {
    cs == [] || (var n := |cs| - 1; Allowed(v, cs[..n]) && Permits(Final(v, cs[..n]), cs[n]))
  }

  function Final(v: Flat, cs: seq<Command>): Flat {
    if cs == [] then v
    else
      var n := |cs| - 1;
      var now := Final(v, cs[..n]);
      if Permits(now, cs[n]) then After(now, cs[n]) else now
  }

  /** The bytes the loads among cs give, in order. */
  function Loaded(v: Flat, cs: seq<Command>): seq<byte> {
    if cs == [] then []
    else
      var n := |cs| - 1;
      var now := Final(v, cs[..n]);
      Loaded(v, cs[..n]) + if Permits(now, cs[n]) then Output(now, cs[n]) else []
  }

  lemma NoCommands(v: Flat)
    ensures Final(v, []) == v && Loaded(v, []) == []
  {}

  lemma NextCommand(v: Flat, cs: seq<Command>, k: nat)
    requires k < |cs| && Permits(Final(v, cs[..k]), cs[k])
    ensures Final(v, cs[..k + 1]) == After(Final(v, cs[..k]), cs[k])
    ensures Loaded(v, cs[..k + 1]) == Loaded(v, cs[..k]) + Output(Final(v, cs[..k]), cs[k])
  {
    assert cs[..k + 1][..k] == cs[..k];
  }

  /** c changes what byte i of page p reads as. */
  predicate StoresTo(c: Command, p: nat, i: nat) { c.Store? && c.page == p && c.at == i }

  /** A page stays, at its size, and a byte nothing stores to stays as it is. */
  lemma {:induction false} NotStoredSince(v: Flat, cs: seq<Command>, k: nat, p: nat, i: nat)
    requires Allowed(v, cs) && k <= |cs|
    requires var w := Final(v, cs[..k]); p in w.view && i < |w.view[p]|
    requires forall j | k <= j < |cs| :: !StoresTo(cs[j], p, i)
    ensures var w, z := Final(v, cs[..k]), Final(v, cs);
            p in z.view && |z.view[p]| == |w.view[p]| && z.view[p][i] == w.view[p][i]
  {
    if k == |cs| {
      assert cs[..k] == cs;
    } else {
      var n := |cs| - 1;
      assert cs[..n][..k] == cs[..k];
      NotStoredSince(v, cs[..n], k, p, i);
    }
  }

  /** What a byte reads as in the end is the last value stored to it, whatever else happened. */
  lemma LastStoreWins(v: Flat, cs: seq<Command>, k: nat, p: nat, i: nat)
    requires Allowed(v, cs) && k < |cs| && StoresTo(cs[k], p, i)
    requires forall j | k < j < |cs| :: !StoresTo(cs[j], p, i)
    ensures var z := Final(v, cs); p in z.view && i < |z.view[p]| && z.view[p][i] == cs[k].value
  {
    hide Allowed, Final;
    PermittedNow(v, cs, k);
    NextCommand(v, cs, k);
    NotStoredSince(v, cs, k + 1, p, i);
  }

  /** ... a page grown since reads as zeros where nothing was stored to it, and a page that was
      there from the start as it did. */
  lemma NeverStored(v: Flat, cs: seq<Command>, p: nat, i: nat)
    requires Allowed(v, cs) && forall j | 0 <= j < |cs| :: !StoresTo(cs[j], p, i)
    ensures p in v.view && i < |v.view[p]| ==>
              var z := Final(v, cs); p in z.view && i < |z.view[p]| && z.view[p][i] == v.view[p][i]
    ensures (exists k :: 0 <= k < |cs| && cs[k] == Grow(p)) && i < PAGE ==>
              var z := Final(v, cs); p in z.view && i < |z.view[p]| && z.view[p][i] == 0
  {
    hide Allowed, Final;
    if p in v.view && i < |v.view[p]| {
      NoCommands(v);
      assert cs[..0] == [];
      NotStoredSince(v, cs, 0, p, i);
    }
    if k: nat :| k < |cs| && cs[k] == Grow(p) && i < PAGE {
      PermittedNow(v, cs, k);
      NextCommand(v, cs, k);
      NotStoredSince(v, cs, k + 1, p, i);
    }
  }

  /** So a load gives the value last stored to the byte it names. */
  lemma LoadGivesLastStore(v: Flat, cs: seq<Command>, k: nat, n: nat)
    requires Allowed(v, cs) && k < n < |cs| && cs[k].Store? && cs[n] == Load(cs[k].page, cs[k].at)
    requires forall j | k < j < n :: !StoresTo(cs[j], cs[k].page, cs[k].at)
    ensures Loaded(v, cs[..n + 1]) == Loaded(v, cs[..n]) + [cs[k].value]
  {
    hide Allowed, Final, Loaded;
    PermittedNow(v, cs, n);
    NextCommand(v, cs, n);
    AllowedSoFar(v, cs, n);
    LastStoreWins(v, cs[..n], k, cs[k].page, cs[k].at);
  }

  lemma {:induction false} AllowedSoFar(v: Flat, cs: seq<Command>, k: nat)
    requires Allowed(v, cs) && k <= |cs|
    ensures Allowed(v, cs[..k])
  {
    if k < |cs| {
      var n := |cs| - 1;
      AllowedSoFar(v, cs[..n], k);
      assert cs[..n][..k] == cs[..k];
    } else {
      assert cs[..k] == cs;
    }
  }

  lemma {:induction false} PermittedNow(v: Flat, cs: seq<Command>, k: nat)
    requires Allowed(v, cs) && k < |cs|
    ensures Permits(Final(v, cs[..k]), cs[k])
  {
    var n := |cs| - 1;
    if k < n {
      PermittedNow(v, cs[..n], k);
      assert cs[..n][..k] == cs[..k];
    }
  }

  /** What all pages read as. */
  ghost function Views(m: Memory): map<nat, seq<byte>>
    requires Inv(m)
  {
    map p | p in m.pages :: View(m, p)
  }

  ghost function Writable(m: Memory): map<nat, bool> { map p | p in m.pages :: m.pages[p].wr }

  ghost function PinCounts(m: Memory): map<nat, nat> { map p | p in m.pages :: PinsOf(m, p) }

  ghost function Flatten(m: Memory): Flat
    requires Inv(m)
  {
    Flat(Views(m), Writable(m), PinCounts(m))
  }

  lemma SameWritable(m: Memory, n: Memory)
    requires Transparent(m, n)
    ensures Writable(n) == Writable(m)
  {
    hide SameView;
    assert forall q :: q in n.pages <==> q in n.pages.Keys;
  }

  lemma PinnedOnce(m: Memory, n: Memory, p: nat, pins: nat)
    requires n.pages.Keys == m.pages.Keys && p in m.pages && PinsKept(m, n, {p}) && Holds(n, p, pins)
    ensures PinCounts(n) == PinCounts(m)[p := pins]
  {
    assert forall q :: q in n.pages <==> q in n.pages.Keys;
    assert forall q | q in m.pages && q != p :: q !in {p};
  }

  lemma PermitsMeans(m: Memory, c: Command)
    requires Inv(m) && Permits(Flatten(m), c)
    ensures c.Grow? <==> c.page !in m.pages
    ensures c.Load? || c.Store? ==> c.at < |Views(m)[c.page]| <= PAGE
    ensures c.Store? ==> m.pages[c.page].wr
    ensures c.Unpin? ==> PinsOf(m, c.page) > 0
  {
    hide Inv, PageOk, View, PinsOf;
    if c.page in m.pages {
      ViewSize(m, c.page);
    }
  }

  lemma LoadMeans(m: Memory, c: Command)
    requires Inv(m) && Permits(Flatten(m), c) && c.Load?
    ensures c.page in Views(m) && c.at < |Views(m)[c.page]|
    ensures After(Flatten(m), c) == Flatten(m) && Output(Flatten(m), c) == [Views(m)[c.page][c.at]]
  {
    hide Inv, Views;
  }

  /** The same pages with the same bytes and pins. */
  lemma SameFlat(m: Memory, n: Memory)
    requires Inv(m) && Inv(n) && Transparent(m, n) && PinsKept(m, n, {})
    ensures Flatten(n) == Flatten(m) && Views(n) == Views(m)
  {
    hide Inv, PageOk, View, PinsOf, Views, Writable, SameView;
    SameViews(m, n);
    SameWritable(m, n);
    assert forall q :: q in n.pages <==> q in n.pages.Keys;
  }

  lemma PinFlat(m: Memory, n: Memory, c: Command)
    requires Inv(m) && Inv(n) && Permits(Flatten(m), c) && (c.Pin? || c.Unpin?)
    requires Transparent(m, n) && PinsKept(m, n, {c.page})
    requires Holds(n, c.page, if c.Pin? then PinsOf(m, c.page) + 1 else PinsOf(m, c.page) - 1)
    ensures Flatten(n) == After(Flatten(m), c) && Output(Flatten(m), c) == []
  {
    hide Inv, Views, Writable, SameView, Transparent, PinsKept, Holds;
    SameViews(m, n);
    SameWritable(m, n);
    SameKeys(m, n);
    PinnedOnce(m, n, c.page, if c.Pin? then PinsOf(m, c.page) + 1 else PinsOf(m, c.page) - 1);
  }

  lemma SameKeys(m: Memory, n: Memory)
    requires Transparent(m, n)
    ensures n.pages.Keys == m.pages.Keys
  {}

  lemma GrowFlat(m: Memory, n: Memory, p: nat)
    requires Inv(m) && Inv(n) && p !in m.pages && Permits(Flatten(m), Grow(p)) && Grown(m, n, p)
    ensures Flatten(n) == After(Flatten(m), Grow(p)) && Output(Flatten(m), Grow(p)) == []
  {
    hide Inv, PageOk, View, PinsOf, Zeros, Views, SameView;
    GrownViews(m, n, p);
    assert forall q :: q in n.pages <==> q in n.pages.Keys;
    assert Writable(n) == Writable(m)[p := true];
    assert PinCounts(n) == PinCounts(m)[p := 0];
  }

  lemma GrownViews(m: Memory, n: Memory, p: nat)
    requires Inv(m) && Inv(n) && p !in m.pages && Grown(m, n, p)
    ensures Views(n) == Views(m)[p := Zeros(PAGE)]
  {
    hide Inv, PageOk, View, PinsOf, Zeros, PinsKept;
    assert forall q :: q in n.pages <==> q in n.pages.Keys;
    forall q | q in m.pages ensures Views(n)[q] == Views(m)[q] {
      assert SameView(m, n, q);
    }
  }

  lemma ViewSize(m: Memory, p: nat)
    requires Inv(m) && p in m.pages
    ensures Shapes(m) && PageOk(m, p) && |View(m, p)| <= PAGE
  {
    hide TableOk, OwnSlots, Private, FrameOk;
    assert PageOk(m, p);
  }

  lemma SameViews(m: Memory, n: Memory)
    requires Inv(m) && Inv(n) && Transparent(m, n)
    ensures Views(n) == Views(m)
  {
    hide Inv, PageOk;
    assert forall q :: q in n.pages <==> q in n.pages.Keys;
    forall q | q in m.pages ensures Views(n)[q] == Views(m)[q] {
      assert SameView(m, n, q);
    }
  }

  lemma TransparentSame(m: Memory)
    requires Inv(m)
    ensures Transparent(m, m)
  {
    hide TableOk, OwnSlots, Private;
  }

  lemma ViewByte(m: Memory, p: nat, i: nat)
    requires Inv(m) && p in m.pages && m.pages[p].fr.Some? && i < |Views(m)[p]|
    ensures m.pages[p].fr.value < |m.bytes| && i < |m.bytes[m.pages[p].fr.value]|
    ensures Views(m)[p][i] == m.bytes[m.pages[p].fr.value][i]
  {
    hide TableOk, OwnSlots, Private, FrameOk;
    assert PageOk(m, p);
  }

  lemma AccessedBit(m: Memory, n: Memory, f: nat)
    requires Inv(m) && f in m.frames && f in n.frames && n == m.(frames := m.frames[f := n.frames[f]])
    requires n.frames[f] == m.frames[f].(userAccessed := true)
    ensures Inv(n) && Transparent(m, n) && PinsKept(m, n, {})
  {
    hide Consistent, SameView, TableOk;
    HasTable(m);
    SameTable(m.table, m.frames, n.frames, {});
    BitsKeep(m, n, {}, {});
  }

  lemma StoreFlat(m: Memory, p: nat, i: nat, b: byte)
    requires Inv(m) && p in m.pages && m.pages[p].fr.Some? && Permits(Flatten(m), Store(p, i, b)) && i < PAGE
    ensures PageOk(m, p) && m.pages[p].fr.value in m.frames && Inv(Stored(m, p, i, b))
    ensures Flatten(Stored(m, p, i, b)) == After(Flatten(m), Store(p, i, b)) && Output(Flatten(m), Store(p, i, b)) == []
  {
    hide Inv, PageOk, View, Views, PinsOf;
    StoreViews(m, p, i, b);
    StorePins(m, p, i, b);
    assert Writable(Stored(m, p, i, b)) == Writable(m);
  }

  lemma StorePins(m: Memory, p: nat, i: nat, b: byte)
    requires Inv(m) && p in m.pages && m.pages[p].fr.Some? && i < PAGE
    ensures m.pages[p].fr.value in m.frames && m.pages[p].fr.value < |m.bytes| && |m.bytes[m.pages[p].fr.value]| == PAGE
    ensures PinCounts(Stored(m, p, i, b)) == PinCounts(m)
  {
    hide Inv;
    ResidentFacts(m, p);
    var n := Stored(m, p, i, b);
    forall q | q in m.pages ensures PinsOf(n, q) == PinsOf(m, q) {}
  }

  lemma StoreViews(m: Memory, p: nat, i: nat, b: byte)
    requires Inv(m) && p in m.pages && m.pages[p].fr.Some? && m.pages[p].wr && p in Views(m) && i < |Views(m)[p]|
    requires i < PAGE
    ensures PageOk(m, p) && m.pages[p].fr.value in m.frames && Inv(Stored(m, p, i, b))
    ensures var page: seq<byte> := Views(m)[p][i := b]; Views(Stored(m, p, i, b)) == Views(m)[p := page]
  {
    hide Inv, PageOk, View, Stored;
    ResidentFacts(m, p);
    StoredKeeps(m, p, i, b);
    StoredKeys(m, p, i, b);
    var n := Stored(m, p, i, b);
    forall q | q in m.pages && q != p ensures Views(n)[q] == Views(m)[q] {
      assert SameView(m, n, q);
    }
  }

  lemma StoredKeys(m: Memory, p: nat, i: nat, b: byte)
    requires p in m.pages && m.pages[p].fr.Some? && m.pages[p].fr.value in m.frames
    requires m.pages[p].fr.value < |m.bytes| && i < |m.bytes[m.pages[p].fr.value]|
    ensures Stored(m, p, i, b).pages == m.pages
  {}

  lemma UnseenKeys(l: Memory, m: Memory)
    requires Unseen(l, m)
    ensures m.pages.Keys == l.pages.Keys && forall q | q in l.pages :: SameView(l, m, q)
  {}

  /** There is a new page p, writable, unpinned and zero, and no other page has changed. */
  ghost predicate Grown(m: Memory, n: Memory, p: nat) {
    && n.pages.Keys == m.pages.Keys + {p} && p in n.pages && n.pages[p].wr && PinsOf(n, p) == 0
    && Shapes(n) && PageOk(n, p) && View(n, p) == Zeros(PAGE)
    && (forall q | q in m.pages :: SameView(m, n, q) && n.pages[q].wr == m.pages[q].wr)
    && PinsKept(m, n, {})
  }

  lemma FreshPage(l: Memory, m: Memory, n: Memory, p: nat, f: nat)
    requires Inv(m) && p !in m.pages && f < |m.used| == |m.bytes| && m.used[f] && f !in m.frames
    requires m.bytes[f] == Zeros(PAGE)
    requires n == m.(bytes := m.bytes[f := m.bytes[f]],
                     frames := m.frames[f := Frame(p, 0, false, true, false, false)],
                     table := m.table + [f], pages := m.pages[p := SuppPage(Swapslot(None), Some(f), true, false)])
    requires Unseen(l, m) && PinsKept(l, m, {})
    ensures Inv(n) && Grown(l, n, p)
  {
    hide TableOk, OwnSlots, SlotsHeld, Private, FrameOk, SlotPage, PinsKept;
    UnseenKeys(l, m);
    FilledKeeps(m, n, p, f, m.bytes[f]);
    FreshPins(l, m, n, p, f);
    forall q | q in l.pages ensures SameView(l, n, q) {
      assert SameView(l, m, q) && SameView(m, n, q);
    }
  }

  lemma FreshPins(l: Memory, m: Memory, n: Memory, p: nat, f: nat)
    requires Inv(m) && PinsKept(l, m, {}) && p !in l.pages && f !in m.frames && f in n.frames && p in n.pages
    requires n.frames == m.frames[f := n.frames[f]] && n.pages == m.pages[p := n.pages[p]]
    ensures PinsKept(l, n, {})
  {
    hide TableOk, OwnSlots, SlotsHeld, Private, FrameOk;
    forall q | q in l.pages ensures PinsOf(n, q) == PinsOf(m, q) {
      assert PageOk(m, q);
    }
  }

  lemma MappedPage(m: Memory, n: Memory, p: nat)
    requires Inv(m) && p !in m.pages && p in n.pages && n == m.(pages := m.pages[p := n.pages[p]])
    requires n.pages[p].fr.None? && n.pages[p].kind.Filesys? && InFile(m, n.pages[p].kind) && Private(n.pages)
    ensures Inv(n) && PageOk(n, p) && View(n, p)[..n.pages[p].kind.bytes] == FileBytes(n, n.pages[p].kind)
    ensures forall q | q in m.pages :: SameView(m, n, q)
  {
    hide TableOk, Private, PageOk, FrameOk, View, FileBytes, InFile;
    MappedHere(m, n, p);
    forall q | q in m.pages ensures SameView(m, n, q) {
      MappedElsewhere(m, n, p, q);
    }
    forall g | g in m.frames ensures FrameOk(n, g) {
      MappedFrame(m, n, p, g);
    }
    assert forall q | q in n.pages :: q == p || q in m.pages;
  }

  lemma MappedHere(m: Memory, n: Memory, p: nat)
    requires Shapes(m) && p in n.pages && n == m.(pages := m.pages[p := n.pages[p]])
    requires n.pages[p].fr.None? && n.pages[p].kind.Filesys? && InFile(m, n.pages[p].kind)
    ensures PageOk(n, p) && InFile(n, n.pages[p].kind) && n.pages[p].kind.bytes <= |View(n, p)|
    ensures View(n, p)[..n.pages[p].kind.bytes] == FileBytes(n, n.pages[p].kind)
  {}

  lemma MappedElsewhere(m: Memory, n: Memory, p: nat, q: nat)
    requires Shapes(m) && p !in m.pages && p in n.pages && n == m.(pages := m.pages[p := n.pages[p]])
    requires q in m.pages && PageOk(m, q)
    ensures SameView(m, n, q)
  {
    hide SlotPage;
  }

  lemma MappedFrame(m: Memory, n: Memory, p: nat, g: nat)
    requires p !in m.pages && p in n.pages && n == m.(pages := m.pages[p := n.pages[p]]) && g in m.frames
    requires FrameOk(m, g)
    ensures FrameOk(n, g)
  {}

  lemma ResidentFacts(m: Memory, p: nat)
    requires Inv(m) && p in m.pages && m.pages[p].fr.Some?
    ensures m.pages[p].fr.value in m.frames && Shapes(m) && m.pages[p].fr.value < |m.bytes|
    ensures |m.bytes[m.pages[p].fr.value]| == PAGE && m.frames[m.pages[p].fr.value].page == p
  {
    hide TableOk, OwnSlots, Private, FrameOk;
    assert PageOk(m, p);
  }

  lemma PinChange(m: Memory, n: Memory, p: nat, f: nat)
    requires Inv(m) && f in m.frames && f in n.frames && n == m.(frames := m.frames[f := n.frames[f]])
    requires n.frames[f] == m.frames[f].(pinned := n.frames[f].pinned) && p in m.pages && m.pages[p].fr == Some(f)
    ensures Inv(n) && Transparent(m, n) && PinsKept(m, n, {p})
  {
    hide Consistent, SameView, TableOk;
    HasTable(m);
    SameTable(m.table, m.frames, n.frames, {});
    BitsKeep(m, n, {}, {});
    OnlyFrame(m, p, f);
  }

  lemma OnlyFrame(m: Memory, p: nat, f: nat)
    requires Inv(m) && p in m.pages && m.pages[p].fr == Some(f)
    ensures forall q | q in m.pages && q != p :: m.pages[q].fr != Some(f)
  {
    forall q | q in m.pages && q != p ensures m.pages[q].fr != Some(f) {
      Bijection(m, f, p, q);
    }
  }

  /** Every page reads as before. */
  ghost predicate Transparent(m: Memory, n: Memory) {
    && n.pages.Keys == m.pages.Keys
    && (forall q | q in m.pages :: SameView(m, n, q))
    && (forall q | q in m.pages :: n.pages[q].wr == m.pages[q].wr)
  }

  /** Page p is resident in a frame pinned `pins` times. */
  ghost predicate Holds(m: Memory, p: nat, pins: nat) {
    p in m.pages && m.pages[p].fr.Some? && m.pages[p].fr.value in m.frames
        && m.frames[m.pages[p].fr.value].pinned == pins
  }

  lemma TransparentAfter(l: Memory, m: Memory, n: Memory)
    requires Unseen(l, m) && Transparent(m, n)
    ensures Transparent(l, n)
  {
    hide PageOk, View, Shapes;
    forall q | q in l.pages ensures SameView(l, n, q) {
      assert SameView(l, m, q) && SameView(m, n, q);
    }
  }

  lemma StillAbsent(l: Memory, m: Memory, p: nat)
    requires Unseen(l, m) && p in l.pages && l.pages[p].fr.None?
    ensures p in m.pages && m.pages[p] == l.pages[p]
  {
    hide SameView;
  }

  lemma AbsentFacts(m: Memory, p: nat)
    requires Inv(m) && p in m.pages && m.pages[p].fr.None?
    ensures Shapes(m) && PageOk(m, p)
    ensures var k := m.pages[p].kind;
            match k
            case Filesys(file, offset, n) => n <= PAGE && file in m.files && offset + n <= |m.files[file]|
            case Swapslot(slot) => slot.Some? && slot.value < |m.inUse| && SECTORS_PER_SLOT * |m.inUse| <= |m.sectors|
  {
    hide TableOk, OwnSlots, Private, FrameOk;
    assert PageOk(m, p);
  }

  ghost predicate NewFrame(m: Memory, n: Memory, p: nat, f: nat) {
    && f < |m.used| == |m.bytes| && m.used[f] && f !in m.frames
    && n == m.(bytes := n.bytes, frames := n.frames, table := n.table, pages := n.pages, inUse := n.inUse)
    && n.table == m.table + [f] && f in n.frames
    && n.frames == m.frames[f := Frame(p, n.frames[f].pinned, false, true, false, false)]
    && p in m.pages && m.pages[p].fr.None? && p in n.pages && n.pages == m.pages[p := n.pages[p]]
    && n.pages[p].fr == Some(f) && n.pages[p].wr == m.pages[p].wr && n.pages[p].ownExe == m.pages[p].ownExe
  }

  lemma PinsAfter(l: Memory, m: Memory, n: Memory, p: nat, f: nat)
    requires Inv(m) && PinsKept(l, m, {}) && NewFrame(m, n, p, f)
    ensures PinsKept(l, n, {p})
  {
    hide TableOk, OwnSlots, SlotsHeld, Private, FrameOk;
    forall q | q in l.pages && q != p ensures PinsOf(n, q) == PinsOf(m, q) {
      assert PageOk(m, q);
    }
  }

  lemma SamePins(m: Memory)
    ensures PinsKept(m, m, {})
  {}

  lemma ReservedPins(m: Memory, n: Memory, f: nat)
    requires f < |n.used| == |n.bytes| && PinsKept(m, n, {})
    ensures PinsKept(m, Reserved(n, f), {})
  {}

  /** A page loaded without a pin had none before. */
  lemma PinsOfLoaded(m: Memory, n: Memory, p: nat)
    requires p in m.pages && m.pages[p].fr.None? && PinsKept(m, n, {p}) && Holds(n, p, 0)
    ensures PinsKept(m, n, {})
  {}

  lemma FromFile(m: Memory, n: Memory, p: nat, f: nat, content: seq<byte>)
    requires Inv(m) && NewFrame(m, n, p, f) && n.bytes == m.bytes[f := content] && n.inUse == m.inUse
    requires var k := m.pages[p].kind;
             k.Filesys? && k.bytes <= PAGE && k.file in m.files && k.offset + k.bytes <= |m.files[k.file]|
             && content == m.files[k.file][k.offset..k.offset + k.bytes] + Zeros(PAGE - k.bytes)
    requires n.pages[p].kind == if m.pages[p].wr && m.pages[p].ownExe then Swapslot(None) else m.pages[p].kind
    ensures Inv(n) && Transparent(m, n)
  {
    hide TableOk, OwnSlots, Private, FrameOk, PageOk, View;
    assert PageOk(m, p);
    FromFileView(m, n, p, f, content);
    FilledKeeps(m, n, p, f, content);
  }

  lemma FromFileView(m: Memory, n: Memory, p: nat, f: nat, content: seq<byte>)
    requires Shapes(m) && p in m.pages && PageOk(m, p) && NewFrame(m, n, p, f) && n.bytes == m.bytes[f := content]
    requires n.inUse == m.inUse
    requires var k := m.pages[p].kind;
             k.Filesys? && k.bytes <= PAGE && k.file in m.files && k.offset + k.bytes <= |m.files[k.file]|
             && content == m.files[k.file][k.offset..k.offset + k.bytes] + Zeros(PAGE - k.bytes)
    requires n.pages[p].kind == if m.pages[p].wr && m.pages[p].ownExe then Swapslot(None) else m.pages[p].kind
    ensures SameView(m, n, p)
  {
    var k := m.pages[p].kind;
    assert content[..k.bytes] == FileBytes(m, k);
  }

  lemma FromSwap(m: Memory, n: Memory, p: nat, f: nat, content: seq<byte>)
    requires Inv(m) && NewFrame(m, n, p, f) && n.bytes == m.bytes[f := content] && n.pages[p].kind == m.pages[p].kind
    requires var k := m.pages[p].kind;
             k.Swapslot? && k.swap.Some? && k.swap.value < |m.inUse| && n.inUse == m.inUse[k.swap.value := false]
             && SECTORS_PER_SLOT * |m.inUse| <= |m.sectors| && content == SlotPage(m.sectors, k.swap.value)
    ensures Inv(n) && Transparent(m, n)
  {
    hide TableOk, OwnSlots, SlotsHeld, Private, FrameOk, SlotPage, PageOk, View;
    assert PageOk(m, p);
    FromSwapView(m, n, p, f, content);
    FilledKeeps(m, n, p, f, content);
  }

  lemma FromSwapView(m: Memory, n: Memory, p: nat, f: nat, content: seq<byte>)
    requires Shapes(m) && p in m.pages && PageOk(m, p) && NewFrame(m, n, p, f) && n.bytes == m.bytes[f := content]
    requires n.pages[p].kind == m.pages[p].kind
    requires var k := m.pages[p].kind;
             k.Swapslot? && k.swap.Some? && k.swap.value < |m.inUse| && n.inUse == m.inUse[k.swap.value := false]
             && SECTORS_PER_SLOT * |m.inUse| <= |m.sectors| && content == SlotPage(m.sectors, k.swap.value)
    ensures |content| == PAGE && SameView(m, n, p) && SlotsAfter(m, n, p)
  {
    hide SlotPage;
    assert |SlotPage(m.sectors, m.pages[p].kind.swap.value)| == PAGE;
  }

  /** Frame f is free again, its page is where it can be loaded from, and every page reads as before. */
  ghost predicate Evicted(m: Memory, n: Memory, f: nat) {
    && f < |n.used| == |m.used| && !n.used[f] && n.frames == m.frames - {f} && Unseen(m, n)
    && (forall q | q in m.pages :: if m.pages[q].fr == Some(f) then n.pages[q].fr.None? else n.pages[q] == m.pages[q])
  }

  function PinsOf(m: Memory, q: nat): nat
    requires q in m.pages
  {
    if m.pages[q].fr.Some? && m.pages[q].fr.value in m.frames then m.frames[m.pages[q].fr.value].pinned else 0
  }

  /** Pages other than `but` are pinned as often as before, and pinned ones stay where they are. */
  ghost predicate PinsKept(m: Memory, n: Memory, but: set<nat>) {
    forall q | q in m.pages && q !in but ::
      q in n.pages && PinsOf(n, q) == PinsOf(m, q) && (PinsOf(m, q) > 0 ==> n.pages[q].fr == m.pages[q].fr)
  }

  lemma VictimPins(m: Memory, n: Memory, o: Memory, f: nat)
    requires SameButAccessed(m.frames, n.frames) && n.pages == m.pages && f in m.frames && Eligible(m.frames[f])
    requires Evicted(n, o, f)
    ensures PinsKept(m, o, {})
  {
    hide Unseen, SameView;
    UnseenKeys(n, o);
    assert forall q :: q in o.pages.Keys <==> q in n.pages.Keys;
    forall g | g in m.frames ensures n.frames[g].pinned == m.frames[g].pinned {
      assert Unaccessed(n.frames[g]) == Unaccessed(m.frames[g]);
    }
  }

  /** Nothing a process could see differs between m and n; pages that were absent still are. */
  ghost predicate Unseen(m: Memory, n: Memory) {
    && n.pages.Keys == m.pages.Keys
    && (forall q | q in m.pages && m.pages[q].fr.None? :: n.pages[q] == m.pages[q])
    && (forall q | q in m.pages :: SameView(m, n, q))
    && (forall q | q in m.pages :: n.pages[q].wr == m.pages[q].wr)
  }

  lemma UnseenTwice(m: Memory, n: Memory, o: Memory)
    requires Unseen(m, n) && Unseen(n, o)
    ensures Unseen(m, o)
  {
    hide PageOk, View, Shapes;
    forall q | q in m.pages ensures SameView(m, o, q) {
      assert SameView(m, n, q) && SameView(n, o, q);
    }
  }

  lemma UnseenBits(m: Memory, n: Memory, e: set<nat>, d: set<nat>)
    requires Consistent(m, e) && BitsOnly(m.frames, n.frames) && TableOk(n.table, n.frames, d)
    requires n == m.(frames := n.frames, table := n.table)
    ensures Consistent(n, d) && Unseen(m, n)
  {
    hide Consistent, TableOk, SameView;
    BitsKeep(m, n, e, d);
  }

  lemma TableFacts(m: Memory)
    requires Inv(m)
    ensures NoDup(m.table) && AllIn(m.table, m.frames) && forall f | f in m.frames :: f in m.table
    ensures forall f | f in m.frames :: f < |m.used| && m.used[f]
    ensures |m.bytes| == |m.used|
  {
    hide NoDup, Private, OwnSlots, PageOk;
    forall f | f in m.frames ensures f < |m.used| && m.used[f] {
      assert FrameOk(m, f);
    }
  }

  lemma TakenOff(t: seq<nat>, frames: map<nat, Frame>, j: nat)
    requires TableOk(t, frames, {}) && j < |t|
    ensures TableOk(t[j + 1..] + t[..j], frames, {t[j]}) && t[j] in frames
  {
    var s := t[j + 1..] + t[..j];
    forall f ensures f in s <==> f in frames && f != t[j] {
      if f in t && f != t[j] {
        var i :| 0 <= i < |t| && t[i] == f;
        assert i < j ==> s[|t| - j - 1 + i] == f;
        assert i > j ==> s[i - j - 1] == f;
      }
    }
  }

  lemma TakenOffTable(m: Memory, n: Memory, j: nat)
    requires Inv(m) && j < |m.table| && SameButAccessed(m.frames, n.frames)
    requires n == m.(frames := n.frames, table := m.table[j + 1..] + m.table[..j])
    ensures Consistent(n, {m.table[j]}) && Unseen(m, n) && m.table[j] in n.frames
  {
    hide Consistent, SameView, TableOk;
    HasTable(m);
    TakenOff(m.table, m.frames, j);
    forall f | f in m.frames
      ensures n.frames[f].page == m.frames[f].page && n.frames[f].dirty == m.frames[f].dirty
      ensures n.frames[f].evicting == m.frames[f].evicting
    {
      assert Unaccessed(n.frames[f]) == Unaccessed(m.frames[f]);
    }
    SameTable(n.table, m.frames, n.frames, {m.table[j]});
    UnseenBits(m, n, {}, {m.table[j]});
  }

  lemma HasTable(m: Memory)
    requires Inv(m)
    ensures TableOk(m.table, m.frames, {})
  {}

  lemma SameTable(t: seq<nat>, a: map<nat, Frame>, b: map<nat, Frame>, e: set<nat>)
    requires TableOk(t, a, e) && a.Keys == b.Keys
    ensures TableOk(t, b, e)
  {
    hide NoDup;
    assert forall f :: f in a <==> f in a.Keys;
    assert forall f :: f in b <==> f in b.Keys;
  }

  /** A free frame is taken from the pool and zeroed. */
  function Reserved(m: Memory, f: nat): Memory
    requires f < |m.used| == |m.bytes|
  {
    m.(used := m.used[f := true], bytes := m.bytes[f := Zeros(PAGE)])
  }

  lemma ReservedUnseen(m: Memory, f: nat)
    requires Inv(m) && f < |m.used| == |m.bytes| && f !in m.frames
    ensures Inv(Reserved(m, f)) && Unseen(m, Reserved(m, f))
  {
    hide TableOk, OwnSlots, Private, PageOk, FrameOk, View;
    var n := Reserved(m, f);
    forall q | q in m.pages ensures SameView(m, n, q) {
      ReservedPage(m, f, q);
    }
    forall g | g in m.frames ensures FrameOk(n, g) {
      ReservedFrame(m, f, g);
    }
  }

  lemma ReservedPage(m: Memory, f: nat, q: nat)
    requires Shapes(m) && f < |m.used| && f !in m.frames && q in m.pages && PageOk(m, q)
    ensures SameView(m, Reserved(m, f), q)
  {
    hide SlotPage;
  }

  lemma ReservedFrame(m: Memory, f: nat, g: nat)
    requires f < |m.used| == |m.bytes| && g in m.frames && FrameOk(m, g)
    ensures FrameOk(Reserved(m, f), g)
  {}

  lemma IsFirst(used: seq<bool>, f: nat)
    requires f < |used| && !used[f] && forall g | 0 <= g < f :: used[g]
    ensures FirstFree(used, f)
  {}

  lemma GotFree(m: Memory, f: nat)
    requires FirstFree(m.used, f) && |m.bytes| == |m.used|
    ensures FrameGot(m, Reserved(m, f), f)
  {}

  lemma GotByEviction(m: Memory, n: Memory, o: Memory, j: nat, f: nat)
    requires (forall g | 0 <= g < |m.used| :: m.used[g]) && |m.bytes| == |m.used| && AllIn(m.table, m.frames)
    requires NoDup(m.table) && j < |m.table| && Chosen(m.table, m.frames, j) && SameButAccessed(m.frames, n.frames)
    requires n == m.(frames := n.frames, table := m.table[j + 1..] + m.table[..j])
    requires ThrownOut(n, o, m.table[j]) && |o.bytes| == |o.used| && FirstFree(o.used, f)
    ensures FrameGot(m, Reserved(o, f), f)
  {
    hide Chosen, OnlyItsBytes, Remove, Zeros, FirstFree;
    FreedOne(m.used, o.used, m.table[j], f);
    var v, r := m.table[j], Reserved(o, f);
    assert Unaccessed(n.frames[v]) == Unaccessed(m.frames[v]);
    SameWrites(m, n, v, o.files);
    assert v !in n.table;
    forall g | g in r.frames ensures Unaccessed(r.frames[g]) == Unaccessed(m.frames[g]) {
      assert Unaccessed(n.frames[g]) == Unaccessed(m.frames[g]);
    }
  }

  lemma IsFaultedIn(m: Memory, k: Memory, n: Memory, p: nat, f: nat)
    requires FrameGot(m, k, f) && NewFrame(k, n, p, f)
    ensures FaultedIn(m, n, p)
  {
    hide FrameGot, NewFrame;
  }

  lemma LoadEffect(m: Memory, k: Memory, n: Memory, c: Command)
    requires c.Load? && BroughtIn(m, k, c.page) && Accesses(k, n, c.page, false)
    ensures Effect(m, n, c)
  {
    hide BroughtIn, Accesses;
  }

  lemma StoreEffect(m: Memory, k: Memory, n: Memory, c: Command)
    requires c.Store? && BroughtIn(m, k, c.page) && Accesses(k, n, c.page, true)
    ensures Effect(m, n, c)
  {
    hide BroughtIn, Accesses;
  }

  lemma FreedOne(a: seq<bool>, b: seq<bool>, v: nat, f: nat)
    requires (forall g | 0 <= g < |a| :: a[g]) && v < |a| && b == a[v := false] && FirstFree(b, f)
    ensures f == v && b[f := true] == a
  {}

  lemma SameWrites(m: Memory, n: Memory, f: nat, files: map<nat, seq<byte>>)
    requires f in m.frames && n == m.(frames := n.frames, table := n.table) && OnlyItsBytes(n, f, files)
    requires f in n.frames && Unaccessed(n.frames[f]) == Unaccessed(m.frames[f])
    ensures OnlyItsBytes(m, f, files)
  {}

  /** The pool has a page, or some frame can be evicted. */
  ghost predicate CanGetFrame(m: Memory) {
    (exists f | 0 <= f < |m.used| :: !m.used[f]) || (exists f | f in m.frames :: Eligible(m.frames[f]))
  }

  lemma IsEvicted(m: Memory, n: Memory, f: nat, p: nat)
    requires Victim(m, f, p) && FrameGone(m, n, f, p) && m.pages[p].fr == Some(f)
    requires forall q | q in m.pages :: SameView(m, n, q)
    ensures Evicted(m, n, f)
  {
    hide SameView, PageOk, Private, FrameOk;
    forall q | q in m.pages && m.pages[q].fr == Some(f) ensures q == p {
      HomeOf(m, n, q);
    }
  }

  lemma HomeOf(m: Memory, n: Memory, q: nat)
    requires SameView(m, n, q) && m.pages[q].fr.Some?
    ensures m.pages[q].fr.value in m.frames && m.frames[m.pages[q].fr.value].page == q
  {}

  lemma VictimFacts(m: Memory, f: nat, p: nat)
    requires Victim(m, f, p)
    ensures m.pages[p].fr == Some(f) && |m.bytes| == |m.used| && |m.bytes[f]| == PAGE
    ensures var k := m.pages[p].kind;
            k.Filesys? ==> k.bytes <= PAGE && k.file in m.files && k.offset + k.bytes <= |m.files[k.file]|
  {}

  lemma WroteBack(m: Memory, f: nat, p: nat)
    requires Victim(m, f, p) && m.pages[p].kind.Filesys?
    ensures var k := m.pages[p].kind;
            k.bytes <= |m.bytes[f]| && k.file in m.files && k.offset + k.bytes <= |m.files[k.file]|
            && WrittenBack(m, f) ==
               if m.frames[f].dirty
               then m.files[k.file := Patched(m.files[k.file], k.offset, m.bytes[f][..k.bytes])] else m.files
  {}

  /** The files once frame f is evicted: a dirty file page is in its place, and no other byte of any
      file has changed. */
  ghost predicate OnlyItsBytes(m: Memory, f: nat, files: map<nat, seq<byte>>) {
    && f in m.frames && f < |m.bytes| && m.frames[f].page in m.pages && files.Keys == m.files.Keys
    && (forall g | g in files :: |files[g]| == |m.files[g]|)
    && var k := m.pages[m.frames[f].page].kind;
       forall g, i | g in files && 0 <= i < |files[g]| ::
         files[g][i] ==
           if k.Filesys? && m.frames[f].dirty && g == k.file && k.offset <= i < k.offset + k.bytes
              && i - k.offset < |m.bytes[f]|
           then m.bytes[f][i - k.offset] else m.files[g][i]
  }

  lemma WroteItsBytes(m: Memory, f: nat, p: nat)
    requires Victim(m, f, p) && m.pages[p].kind.Filesys?
    ensures OnlyItsBytes(m, f, WrittenBack(m, f))
  {
    var k := m.pages[p].kind;
    var g, part := Patched(m.files[k.file], k.offset, m.bytes[f][..k.bytes]), m.bytes[f][..k.bytes];
    forall i | k.offset <= i < k.offset + k.bytes ensures g[i] == m.bytes[f][i - k.offset] {
      assert g[k.offset..k.offset + k.bytes][i - k.offset] == g[i];
    }
  }

  lemma WroteNothing(m: Memory, f: nat, p: nat)
    requires Victim(m, f, p) && !m.pages[p].kind.Filesys?
    ensures OnlyItsBytes(m, f, m.files)
  {}

  lemma ChosenFacts(t: seq<nat>, a: map<nat, Frame>, j: nat)
    requires AllIn(t, a) && j < |t| && Chosen(t, a, j)
    ensures t[j] in a && Eligible(a[t[j]])
  {}

  /** With the pool exhausted a frame can be had exactly when victim choice ends. */
  lemma FrameThere(m: Memory)
    requires Inv(m)
    ensures AllIn(m.table, m.frames)
    ensures (forall f | 0 <= f < |m.used| :: m.used[f]) ==> (CanGetFrame(m) <==> HasEligible(m.table, m.frames))
    ensures (forall f | 0 <= f < |m.used| :: m.used[f]) ==> (CanGetFrame(m) <==> Ends(m.table, m.frames))
    ensures (exists f | 0 <= f < |m.used| :: !m.used[f]) ==> CanGetFrame(m)
  {
    hide Inv, Ends;
    TableFacts(m);
    EndsIfEligible(m.table, m.frames);
    forall f | f in m.frames && Eligible(m.frames[f]) ensures HasEligible(m.table, m.frames) {
      var i :| 0 <= i < |m.table| && m.table[i] == f;
    }
  }

  /** A full pool whose frames are all pinned: nothing can be evicted, and victim choice never ends. */
  lemma AllPinned(m: Memory)
    requires Inv(m) && (forall f | 0 <= f < |m.used| :: m.used[f]) && forall f | f in m.frames :: m.frames[f].pinned > 0
    ensures !CanGetFrame(m) && !Ends(m.table, m.frames)
  {
    FrameThere(m);
  }

  /** One frame, with an anonymous page, and one slot, with another. */
  ghost function FullSwap(sectors: seq<Sector>): Memory {
    Memory([true], [Zeros(PAGE)], map[0 := Frame(5, 0, false, false, false, false)], [0],
           map[5 := SuppPage(Swapslot(None), Some(0), true, false),
               6 := SuppPage(Swapslot(Some(0)), None, true, false)], [true], sectors, map[])
  }

  /** There the assertion of swap_put_page fails when a frame is needed. */
  lemma StrandedThere(sectors: seq<Sector>)
    requires |sectors| >= SECTORS_PER_SLOT
    ensures Inv(FullSwap(sectors)) && VictimStranded(FullSwap(sectors))
  {
    var m := FullSwap(sectors);
    assert SwappedOut(m.pages[6], 0);
    assert Chosen(m.table, m.frames, 0) && Anonymous(m, m.table[0]);
    assert SwappedPages(m.pages) == {6};
  }

  lemma EvictedFacts(m: Memory, n: Memory, f: nat)
    requires Evicted(m, n, f)
    ensures f < |n.used| && !n.used[f] && Unseen(m, n)
  {}
}

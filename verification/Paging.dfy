/** The state of virtual memory (src/vm/frame.c, src/vm/page.c, src/vm/swap.c) as a value: which
    page sits in which frame, where the others are kept, and what each page's bytes are.
    Frames are named by the physical page they manage; the accessed and dirty bits of a
    page-table entry are kept with the frame it maps. */
module Paging {
  import opened Bytes
  import opened Lists
  import opened Options
  import opened SwapTable

  datatype Frame = Frame(page: nat, pinned: nat, evicting: bool, kernelAccessed: bool, userAccessed: bool, dirty: bool)

  /** enum page_location_type with its fields; a swapslot page that is resident may hold a
      slot it no longer owns. */
  datatype Kind = Filesys(file: nat, offset: nat, bytes: nat) | Swapslot(swap: Option<nat>)

  /** struct supp_page; ownExe says that the page's file is its process's executable. */
  datatype SuppPage = SuppPage(kind: Kind, fr: Option<nat>, wr: bool, ownExe: bool)

  datatype Memory = Memory(used: seq<bool>, bytes: seq<seq<byte>>, frames: map<nat, Frame>, table: seq<nat>,
                           pages: map<nat, SuppPage>, inUse: seq<bool>, sectors: seq<Sector>,
                           files: map<nat, seq<byte>>)

  // ---- What holds between operations ----

  /** The frame table lists the frames, those of `except` apart, once each. */
  ghost predicate TableOk(table: seq<nat>, frames: map<nat, Frame>, except: set<nat>) {
    NoDup(table) && forall f :: f in table <==> f in frames && f !in except
  }

  ghost predicate Shapes(m: Memory) {
    && |m.bytes| == |m.used| && (forall f | 0 <= f < |m.bytes| :: |m.bytes[f]| == PAGE)
    && SECTORS_PER_SLOT * |m.inUse| <= |m.sectors|
  }

  /** A file page lies within its file. */
  ghost predicate InFile(m: Memory, k: Kind) {
    k.Filesys? ==> k.bytes <= PAGE && k.file in m.files && k.offset + k.bytes <= |m.files[k.file]|
  }

  ghost function FileBytes(m: Memory, k: Kind): seq<byte>
    requires k.Filesys? && InFile(m, k)
  {
    m.files[k.file][k.offset..k.offset + k.bytes]
  }

  ghost predicate FrameOk(m: Memory, f: nat)
    requires f in m.frames
  {
    f < |m.used| && m.used[f] && !m.frames[f].evicting && m.frames[f].page in m.pages
    && m.pages[m.frames[f].page].fr == Some(f)
  }

  /** A resident page's frame points back at it, and a clean file page is what the file says;
      a page that is not resident has a slot of its own or is in its file. */
  ghost predicate PageOk(m: Memory, p: nat)
    requires Shapes(m) && p in m.pages
  {
    var s := m.pages[p];
    InFile(m, s.kind) &&
    match s.fr
    case Some(f) =>
      f in m.frames && m.frames[f].page == p && f < |m.used| && (m.frames[f].dirty ==> s.wr)
      && (s.kind.Filesys? ==> !(s.wr && s.ownExe))
      && (s.kind.Filesys? && !m.frames[f].dirty ==> m.bytes[f][..s.kind.bytes] == FileBytes(m, s.kind))
    case None =>
      s.kind.Swapslot? ==> s.kind.swap.Some? && s.kind.swap.value < |m.inUse| && m.inUse[s.kind.swap.value]
  }

  ghost predicate SwappedOut(s: SuppPage, slot: nat) { s.fr.None? && s.kind == Swapslot(Some(slot)) }

  /** Two swapped-out pages never share a slot. */
  ghost predicate OwnSlots(pages: map<nat, SuppPage>) {
    forall p, q, s | p in pages && q in pages && SwappedOut(pages[p], s) && SwappedOut(pages[q], s) :: p == q
  }

  /** Every slot in use holds a swapped-out page. */
  ghost predicate SlotsHeld(pages: map<nat, SuppPage>, inUse: seq<bool>) {
    forall s | 0 <= s < |inUse| && inUse[s] :: exists p :: p in pages && SwappedOut(pages[p], s)
  }

  /** A page whose changes go back to its file. */
  predicate WritesBack(s: SuppPage) { s.kind.Filesys? && s.wr && !s.ownExe }

  predicate Overlap(a: Kind, b: Kind) {
    a.Filesys? && b.Filesys? && a.file == b.file && a.bytes > 0 && b.bytes > 0
    && a.offset < b.offset + b.bytes && b.offset < a.offset + a.bytes
  }

  /** The part of a file behind a page that writes back is mapped by no other page. */
  ghost predicate Private(pages: map<nat, SuppPage>) {
    forall p, q | p in pages && q in pages && p != q && WritesBack(pages[p]) :: !Overlap(pages[p].kind, pages[q].kind)
  }

  ghost predicate Consistent(m: Memory, except: set<nat>) {
    && Shapes(m) && TableOk(m.table, m.frames, except) && OwnSlots(m.pages) && SlotsHeld(m.pages, m.inUse)
    && Private(m.pages) && (forall f | f in m.frames :: FrameOk(m, f))
    && (forall p | p in m.pages :: PageOk(m, p))
  }

  ghost predicate Inv(m: Memory) { Consistent(m, {}) }

  /** The zeros after the file's bytes, for a page that will turn anonymous when first loaded. */
  function Tail(s: SuppPage): seq<byte>
    requires s.kind.Filesys? && s.kind.bytes <= PAGE
  {
    if s.wr && s.ownExe then Zeros(PAGE - s.kind.bytes) else []
  }

  /** The bytes of a page that the system answers for: all of an anonymous page, the first
      `bytes` of a file page that stays one. */
  ghost function View(m: Memory, p: nat): seq<byte>
    requires Shapes(m) && p in m.pages && PageOk(m, p)
  {
    var s := m.pages[p];
    match s.fr
    case Some(f) => if s.kind.Filesys? then m.bytes[f][..s.kind.bytes] else m.bytes[f]
    case None => if s.kind.Filesys? then FileBytes(m, s.kind) + Tail(s) else SlotPage(m.sectors, s.kind.swap.value)
  }

  /** Page p reads the same in both memories. */
  ghost predicate SameView(m: Memory, n: Memory, p: nat) {
    && Shapes(m) && p in m.pages && PageOk(m, p) && Shapes(n) && p in n.pages && PageOk(n, p)
    && View(n, p) == View(m, p)
  }

  /** Frames and resident pages match one to one, the table lists each frame once, and two
      swapped-out pages have different slots. */
  lemma Bijection(m: Memory, f: nat, p: nat, q: nat)
    requires Inv(m) && p in m.pages && q in m.pages && p != q
    ensures f in m.frames <==> f in m.table
    ensures f in m.frames ==> m.frames[f].page in m.pages && m.pages[m.frames[f].page].fr == Some(f)
    ensures m.pages[p].fr == Some(f) ==> f in m.frames && m.frames[f].page == p && m.pages[q].fr != Some(f)
    ensures m.pages[p].fr.None? && m.pages[q].fr.None? && m.pages[p].kind.Swapslot? && m.pages[q].kind.Swapslot?
            ==> m.pages[p].kind.swap != m.pages[q].kind.swap
  {
    hide NoDup, Private, SlotsHeld;
    assert PageOk(m, p) && PageOk(m, q);
    if f in m.frames {
      assert FrameOk(m, f);
    }
    if m.pages[p].fr.None? && m.pages[p].kind.Swapslot? {
      assert SwappedOut(m.pages[p], m.pages[p].kind.swap.value);
    }
  }

  // ---- Eviction ----

  /** A page as palloc_free_page leaves it. */
  function Cleared(): (s: seq<byte>)
    ensures |s| == PAGE
  {
    seq(PAGE, _ => 0xcc)
  }

  /** frame_free, and the page forgetting its frame; `kind` is where the page now is. */
  function Released(m: Memory, f: nat, kind: Kind): Memory
    requires f in m.frames && f < |m.used| == |m.bytes| && m.frames[f].page in m.pages
  {
    var p := m.frames[f].page;
    m.(used := m.used[f := false], bytes := m.bytes[f := Cleared()], frames := m.frames - {f},
       table := Remove(m.table, f), pages := m.pages[p := m.pages[p].(fr := None, kind := kind)])
  }

  /** The file after a dirty page in frame f is written back. */
  function WrittenBack(m: Memory, f: nat): map<nat, seq<byte>>
    requires f in m.frames && f < |m.bytes| && m.frames[f].page in m.pages
    requires var k := m.pages[m.frames[f].page].kind;
      k.Filesys? && k.bytes <= |m.bytes[f]| && k.file in m.files && k.offset + k.bytes <= |m.files[k.file]|
  {
    var k := m.pages[m.frames[f].page].kind;
    if m.frames[f].dirty then m.files[k.file := Patched(m.files[k.file], k.offset, m.bytes[f][..k.bytes])] else m.files
  }

  /** The facts about one frame that eviction relies on. */
  ghost predicate Victim(m: Memory, f: nat, p: nat) {
    && Shapes(m) && f in m.frames && f < |m.used| && FrameOk(m, f) && p == m.frames[f].page && p in m.pages
    && PageOk(m, p)
    && Private(m.pages)
  }

  lemma IsVictim(m: Memory, except: set<nat>, f: nat)
    requires Consistent(m, except) && f in m.frames
    ensures Victim(m, f, m.frames[f].page)
  {
    assert FrameOk(m, f);
    assert PageOk(m, m.frames[f].page);
  }

  /** Writing one page back changes no other mapped bytes. */
  lemma WriteBackLocal(m: Memory, f: nat, p: nat, q: nat)
    requires Victim(m, f, p) && m.pages[p].kind.Filesys?
    requires q in m.pages && q != p && PageOk(m, q) && m.pages[q].kind.Filesys?
    ensures var n := m.(files := WrittenBack(m, f));
            InFile(n, m.pages[q].kind) && FileBytes(n, m.pages[q].kind) == FileBytes(m, m.pages[q].kind)
  {
    var a, b := m.pages[p].kind, m.pages[q].kind;
    if m.frames[f].dirty && a.file == b.file {
      assert WritesBack(m.pages[p]) && !Overlap(a, b);
      PatchedElsewhere(m.files[a.file], a.offset, m.bytes[f][..a.bytes], b.offset, b.bytes);
    }
  }

  /** The evicted page itself is now in its file. */
  lemma WriteBackHere(m: Memory, f: nat, p: nat)
    requires Victim(m, f, p) && m.pages[p].kind.Filesys?
    ensures var n := m.(files := WrittenBack(m, f));
            InFile(n, m.pages[p].kind) && FileBytes(n, m.pages[p].kind) == m.bytes[f][..m.pages[p].kind.bytes]
  {}

  /** Eviction of a file page. */
  ghost function EvictedToFile(m: Memory, f: nat, p: nat): Memory
    requires Victim(m, f, p) && m.pages[p].kind.Filesys?
  {
    Released(m.(files := WrittenBack(m, f)), f, m.pages[p].kind)
  }

  lemma EvictFilePage(m: Memory, f: nat, p: nat, q: nat)
    requires Victim(m, f, p) && m.pages[p].kind.Filesys? && q in m.pages && PageOk(m, q)
    ensures SameView(m, EvictedToFile(m, f, p), q)
  {
    hide Patched, WrittenBack, Cleared, Remove, Private;
    if q == p {
      WriteBackHere(m, f, p);
    } else if m.pages[q].kind.Filesys? {
      WriteBackLocal(m, f, p, q);
    }
  }

  /** Eviction of an anonymous page to slot s of a device that then reads `sectors`. */
  ghost function EvictedToSwap(m: Memory, f: nat, p: nat, s: nat, sectors: seq<Sector>): Memory
    requires Victim(m, f, p) && s < |m.inUse|
  {
    Released(m.(inUse := m.inUse[s := true], sectors := sectors), f, Swapslot(Some(s)))
  }

  /** What swap_put_page does to the device. */
  ghost predicate PutInSlot(m: Memory, s: nat, sectors: seq<Sector>, page: seq<byte>)
    requires Shapes(m)
  {
    && s < |m.inUse| && !m.inUse[s] && |sectors| == |m.sectors| && SlotPage(sectors, s) == page
    && forall t: nat | t < |m.inUse| && t != s :: SlotPage(sectors, t) == SlotPage(m.sectors, t)
  }

  lemma EvictSwapPage(m: Memory, f: nat, p: nat, s: nat, sectors: seq<Sector>, q: nat)
    requires Victim(m, f, p) && m.pages[p].kind.Swapslot? && q in m.pages && PageOk(m, q)
    requires PutInSlot(m, s, sectors, m.bytes[f])
    ensures SameView(m, EvictedToSwap(m, f, p, s, sectors), q)
  {
    hide Cleared, Remove, Private, SlotPage;
  }

  /** What eviction does, apart from the files and the swap device. */
  ghost predicate FrameGone(m: Memory, n: Memory, f: nat, p: nat)
    requires Victim(m, f, p)
  {
    && n.used == m.used[f := false] && n.frames == m.frames - {f} && n.table == Remove(m.table, f)
    && n.bytes == m.bytes[f := Cleared()]
    && p in n.pages && n.pages[p].fr.None? && n.pages[p].wr == m.pages[p].wr && n.pages[p].ownExe == m.pages[p].ownExe
    && n.pages == m.pages[p := n.pages[p]]
  }

  lemma GoneFrames(m: Memory, n: Memory, f: nat, p: nat, g: nat)
    requires Victim(m, f, p) && FrameGone(m, n, f, p) && g in m.frames && g != f && FrameOk(m, g)
    ensures FrameOk(n, g)
  {}

  lemma GoneTable(m: Memory, n: Memory, f: nat, p: nat, except: set<nat>)
    requires Victim(m, f, p) && FrameGone(m, n, f, p) && TableOk(m.table, m.frames, except) && except <= {f}
    ensures TableOk(n.table, n.frames, {})
  {
    hide NoDup;
  }

  lemma GonePrivate(m: Memory, n: Memory, f: nat, p: nat)
    requires Victim(m, f, p) && FrameGone(m, n, f, p)
    requires n.pages[p].kind.Swapslot? || n.pages[p].kind == m.pages[p].kind
    ensures Private(n.pages)
  {}

  lemma GoneSlots(m: Memory, n: Memory, f: nat, p: nat)
    requires Victim(m, f, p) && FrameGone(m, n, f, p) && OwnSlots(m.pages) && forall q | q in m.pages :: PageOk(m, q)
    requires forall s: nat | n.pages[p].kind == Swapslot(Some(s)) :: s < |m.inUse| && !m.inUse[s]
    ensures OwnSlots(n.pages)
  {
    hide Private;
    forall q, r, s | q in n.pages && r in n.pages && SwappedOut(n.pages[q], s) && SwappedOut(n.pages[r], s)
      ensures q == r
    {
      assert PageOk(m, q) && PageOk(m, r);
    }
  }

  lemma GoneHeld(m: Memory, n: Memory, f: nat, p: nat)
    requires Victim(m, f, p) && FrameGone(m, n, f, p) && SlotsHeld(m.pages, m.inUse) && |n.inUse| == |m.inUse|
    requires forall s | 0 <= s < |n.inUse| && n.inUse[s] :: m.inUse[s] || SwappedOut(n.pages[p], s)
    ensures SlotsHeld(n.pages, n.inUse)
  {
    hide Private;
    forall s | 0 <= s < |n.inUse| && n.inUse[s] ensures exists q :: q in n.pages && SwappedOut(n.pages[q], s) {
      if m.inUse[s] {
        var q :| q in m.pages && SwappedOut(m.pages[q], s);
        assert n.pages[q] == m.pages[q];
      }
    }
  }

  lemma EvictFileKeeps(m: Memory, except: set<nat>, f: nat, p: nat)
    requires Consistent(m, except) && except <= {f} && Victim(m, f, p) && m.pages[p].kind.Filesys?
    ensures Inv(EvictedToFile(m, f, p))
    ensures forall q | q in m.pages :: SameView(m, EvictedToFile(m, f, p), q)
  {
    hide Patched, WrittenBack, Remove, TableOk, PageOk, FrameOk, InFile, Private, OwnSlots, SlotsHeld;
    var n := EvictedToFile(m, f, p);
    forall q | q in m.pages ensures SameView(m, n, q) {
      EvictFilePage(m, f, p, q);
    }
    GoneTable(m, n, f, p, except);
    GonePrivate(m, n, f, p);
    GoneSlots(m, n, f, p);
    GoneHeld(m, n, f, p);
    forall g | g in n.frames ensures FrameOk(n, g) {
      GoneFrames(m, n, f, p, g);
    }
    assert SameView(m, n, p);
  }

  lemma EvictSwapKeeps(m: Memory, except: set<nat>, f: nat, p: nat, s: nat, sectors: seq<Sector>)
    requires Consistent(m, except) && except <= {f} && Victim(m, f, p) && m.pages[p].kind.Swapslot?
    requires PutInSlot(m, s, sectors, m.bytes[f])
    ensures Inv(EvictedToSwap(m, f, p, s, sectors))
    ensures forall q | q in m.pages :: SameView(m, EvictedToSwap(m, f, p, s, sectors), q)
  {
    hide Remove, TableOk, PageOk, FrameOk, InFile, Private, OwnSlots, SlotsHeld, SlotPage;
    var n := EvictedToSwap(m, f, p, s, sectors);
    forall q | q in m.pages ensures SameView(m, n, q) {
      EvictSwapPage(m, f, p, s, sectors, q);
    }
    GoneTable(m, n, f, p, except);
    GonePrivate(m, n, f, p);
    GoneSlots(m, n, f, p);
    GoneHeld(m, n, f, p);
    forall g | g in n.frames ensures FrameOk(n, g) {
      GoneFrames(m, n, f, p, g);
    }
    assert SameView(m, n, p);
  }

  // ---- Faults ----

  /** A frame f not yet in the table, with `content` in it, becomes the frame of page p. */
  ghost predicate FrameFilled(m: Memory, n: Memory, p: nat, f: nat, content: seq<byte>) {
    && f < |m.used| && m.used[f] && f !in m.frames && |m.bytes| == |m.used| && |content| == PAGE
    && n.used == m.used && n.bytes == m.bytes[f := content] && n.table == m.table + [f]
    && f in n.frames && n.frames == m.frames[f := n.frames[f]]
    && n.frames[f].page == p && !n.frames[f].evicting && !n.frames[f].dirty
    && p in n.pages && n.pages[p].fr == Some(f) && n.pages == m.pages[p := n.pages[p]]
    && n.sectors == m.sectors && n.files == m.files
  }

  ghost predicate Absent(m: Memory, p: nat) { p in m.pages ==> m.pages[p].fr.None? }

  lemma FilledFrames(m: Memory, n: Memory, p: nat, f: nat, content: seq<byte>, g: nat)
    requires FrameFilled(m, n, p, f, content) && Absent(m, p) && g in n.frames && (g in m.frames ==> FrameOk(m, g))
    ensures FrameOk(n, g)
  {}

  lemma FilledTable(m: Memory, n: Memory, p: nat, f: nat, content: seq<byte>)
    requires FrameFilled(m, n, p, f, content) && TableOk(m.table, m.frames, {})
    ensures TableOk(n.table, n.frames, {})
  {}

  /** The fault frees the slot of the page that faults, if it has one, and no other. */
  ghost predicate SlotsAfter(m: Memory, n: Memory, p: nat) {
    |n.inUse| == |m.inUse| && forall t: nat | t < |m.inUse| ::
      n.inUse[t] <==> m.inUse[t] && !(p in m.pages && SwappedOut(m.pages[p], t))
  }

  lemma FilledHeld(m: Memory, n: Memory, p: nat, f: nat, content: seq<byte>)
    requires FrameFilled(m, n, p, f, content) && SlotsAfter(m, n, p) && SlotsHeld(m.pages, m.inUse)
    ensures SlotsHeld(n.pages, n.inUse)
  {
    forall s | 0 <= s < |n.inUse| && n.inUse[s] ensures exists q :: q in n.pages && SwappedOut(n.pages[q], s) {
      var q :| q in m.pages && SwappedOut(m.pages[q], s);
      assert n.pages[q] == m.pages[q];
    }
  }

  lemma FilledOther(m: Memory, n: Memory, p: nat, f: nat, content: seq<byte>, q: nat)
    requires Shapes(m) && FrameFilled(m, n, p, f, content) && SlotsAfter(m, n, p) && OwnSlots(m.pages) && Shapes(n)
    requires q in m.pages && q != p && PageOk(m, q)
    ensures SameView(m, n, q)
  {}

  lemma FilledSlots(m: Memory, n: Memory, p: nat, f: nat, content: seq<byte>)
    requires FrameFilled(m, n, p, f, content) && OwnSlots(m.pages)
    ensures OwnSlots(n.pages)
  {
    forall q, r, s | q in n.pages && r in n.pages && SwappedOut(n.pages[q], s) && SwappedOut(n.pages[r], s)
      ensures q == r
    {
      assert SwappedOut(m.pages[q], s);
    }
  }

  lemma FilledPrivate(m: Memory, n: Memory, p: nat, f: nat, content: seq<byte>)
    requires FrameFilled(m, n, p, f, content) && Private(m.pages)
    requires n.pages[p].kind.Swapslot?
             || (p in m.pages && n.pages[p].kind == m.pages[p].kind && n.pages[p].wr == m.pages[p].wr
                 && n.pages[p].ownExe == m.pages[p].ownExe)
    ensures Private(n.pages)
  {}

  /** Filling a frame for page p keeps everything, given that p itself comes out well. */
  lemma FilledKeeps(m: Memory, n: Memory, p: nat, f: nat, content: seq<byte>)
    requires Inv(m) && FrameFilled(m, n, p, f, content) && Absent(m, p) && SlotsAfter(m, n, p)
    requires Shapes(n) && PageOk(n, p)
    requires n.pages[p].kind.Swapslot?
             || (p in m.pages && n.pages[p].kind == m.pages[p].kind && n.pages[p].wr == m.pages[p].wr
                 && n.pages[p].ownExe == m.pages[p].ownExe)
    ensures Inv(n) && forall q | q in m.pages && q != p :: SameView(m, n, q)
  {
    hide TableOk, PageOk, FrameOk, OwnSlots, SlotsHeld, Private, SlotsAfter, View;
    FilledTable(m, n, p, f, content);
    FilledPrivate(m, n, p, f, content);
    FilledSlots(m, n, p, f, content);
    FilledHeld(m, n, p, f, content);
    forall q | q in m.pages && q != p ensures SameView(m, n, q) {
      FilledOther(m, n, p, f, content, q);
    }
    forall g | g in n.frames ensures FrameOk(n, g) {
      FilledFrames(m, n, p, f, content, g);
    }
  }

  // ---- Stores, pins and the bits of page-table entries ----

  /** Only pins and accessed bits differ. */
  ghost predicate BitsOnly(a: map<nat, Frame>, b: map<nat, Frame>) {
    a.Keys == b.Keys && forall f | f in a ::
        b[f].page == a[f].page && b[f].dirty == a[f].dirty && b[f].evicting == a[f].evicting
  }

  lemma BitsKeep(m: Memory, n: Memory, e: set<nat>, d: set<nat>)
    requires Consistent(m, e) && BitsOnly(m.frames, n.frames) && TableOk(n.table, n.frames, d)
    requires n == m.(frames := n.frames, table := n.table)
    ensures Consistent(n, d) && forall q | q in m.pages :: SameView(m, n, q)
  {
    hide TableOk, OwnSlots, SlotsHeld, Private, FrameOk, PageOk, View;
    forall f | f in n.frames ensures FrameOk(n, f) {
      BitsKeepFrame(m, n, f);
    }
    forall q | q in m.pages ensures SameView(m, n, q) {
      BitsKeepPage(m, n, q);
    }
  }

  lemma BitsKeepFrame(m: Memory, n: Memory, f: nat)
    requires BitsOnly(m.frames, n.frames) && f in m.frames && FrameOk(m, f)
    requires n == m.(frames := n.frames, table := n.table)
    ensures f in n.frames && FrameOk(n, f)
  {}

  lemma BitsKeepPage(m: Memory, n: Memory, q: nat)
    requires Shapes(m) && BitsOnly(m.frames, n.frames) && q in m.pages && PageOk(m, q)
    requires n == m.(frames := n.frames, table := n.table)
    ensures SameView(m, n, q)
  {
    hide SlotPage;
  }

  /** The processor stores b at offset i of a resident writable page. */
  function Stored(m: Memory, p: nat, i: nat, b: byte): Memory
    requires p in m.pages && m.pages[p].fr.Some? && m.pages[p].fr.value in m.frames
    requires m.pages[p].fr.value < |m.bytes| && i < |m.bytes[m.pages[p].fr.value]|
  {
    var f := m.pages[p].fr.value;
    var page: seq<byte> := m.bytes[f][i := b];
    m.(bytes := m.bytes[f := page], frames := m.frames[f := m.frames[f].(userAccessed := true, dirty := true)])
  }

  lemma StoredPage(m: Memory, p: nat, i: nat, b: byte, q: nat)
    requires Inv(m) && p in m.pages && m.pages[p].fr.Some? && m.pages[p].wr && i < PAGE && q in m.pages
    ensures PageOk(m, p) && PageOk(m, q)
    ensures q != p ==> SameView(m, Stored(m, p, i, b), q)
    ensures var n := Stored(m, p, i, b);
            Shapes(n) && PageOk(n, p)
            && View(n, p) == if i < |View(m, p)| then View(m, p)[i := b] else View(m, p)
  {
    hide TableOk, Private, OwnSlots, SlotsHeld, FrameOk;
    assert PageOk(m, p) && PageOk(m, q);
  }

  lemma StoredKeeps(m: Memory, p: nat, i: nat, b: byte)
    requires Inv(m) && p in m.pages && m.pages[p].fr.Some? && m.pages[p].wr && i < PAGE
    ensures PageOk(m, p)
    ensures var n := Stored(m, p, i, b);
            Inv(n) && (forall q | q in m.pages && q != p :: SameView(m, n, q))
            && View(n, p) == if i < |View(m, p)| then View(m, p)[i := b] else View(m, p)
  {
    hide NoDup, Private, OwnSlots, SlotsHeld, PageOk, View;
    StoredHere(m, p, i, b);
    var n := Stored(m, p, i, b);
    forall q | q in m.pages ensures PageOk(n, q) && (q != p ==> SameView(m, n, q)) {
      StoredPage(m, p, i, b, q);
    }
    forall f | f in n.frames ensures FrameOk(n, f) {
      assert FrameOk(m, f);
    }
  }

  lemma StoredHere(m: Memory, p: nat, i: nat, b: byte)
    requires Inv(m) && p in m.pages && m.pages[p].fr.Some? && m.pages[p].wr && i < PAGE
    ensures PageOk(m, p)
    ensures var f := m.pages[p].fr.value; f in m.frames && f < |m.bytes| && m.frames[f].page == p
    ensures var n := Stored(m, p, i, b);
            Shapes(n) && PageOk(n, p)
            && View(n, p) == if i < |View(m, p)| then View(m, p)[i := b] else View(m, p)
  {
    StoredPage(m, p, i, b, p);
  }

  // ---- How many slots are in use ----

  ghost function SwappedPages(pages: map<nat, SuppPage>): set<nat> {
    set p | p in pages && pages[p].fr.None? && pages[p].kind.Swapslot?
  }

  ghost function UsedSlots(inUse: seq<bool>): set<nat> { set s: nat | s < |inUse| && inUse[s] }

  ghost function ValuesOf(keys: set<nat>, slot: map<nat, nat>): set<nat>
    requires keys <= slot.Keys
  {
    set p | p in keys :: slot[p]
  }

  /** Distinct keys with distinct values are as many as the values. */
  lemma {:induction false} AsManyValues(keys: set<nat>, slot: map<nat, nat>)
    requires keys <= slot.Keys && forall p, q | p in keys && q in keys && slot[p] == slot[q] :: p == q
    ensures |ValuesOf(keys, slot)| == |keys|
  {
    if keys == {} {
      assert ValuesOf(keys, slot) == {};
    } else {
      var k :| k in keys;
      var rest := keys - {k};
      AsManyValues(rest, slot);
      assert ValuesOf(keys, slot) == ValuesOf(rest, slot) + {slot[k]};
    }
  }

  lemma {:induction false} UsedAtMost(inUse: seq<bool>)
    ensures |UsedSlots(inUse)| <= |inUse|
    ensures |UsedSlots(inUse)| == |inUse| <==> forall s | 0 <= s < |inUse| :: inUse[s]
  {
    if inUse == [] {
      assert UsedSlots(inUse) == {};
    } else {
      var n := |inUse| - 1;
      var rest := inUse[..n];
      UsedAtMost(rest);
      assert UsedSlots(inUse) == if inUse[n] then UsedSlots(rest) + {n} else UsedSlots(rest);
      assert forall s | 0 <= s < n :: rest[s] == inUse[s];
    }
  }

  lemma SwappedSlot(m: Memory, except: set<nat>, p: nat)
    requires Consistent(m, except) && p in SwappedPages(m.pages)
    ensures var k := m.pages[p].kind;
            k.swap.Some? && k.swap.value < |m.inUse| && m.inUse[k.swap.value] && SwappedOut(m.pages[p], k.swap.value)
  {
    hide TableOk, OwnSlots, SlotsHeld, Private, FrameOk;
    assert PageOk(m, p);
  }

  /** A slot is in use exactly when a swapped-out page holds it, and one page only. */
  lemma SlotInUse(m: Memory, s: nat)
    requires Inv(m) && s < |m.inUse|
    ensures m.inUse[s] <==> exists p :: p in m.pages && SwappedOut(m.pages[p], s)
  {
    hide TableOk, OwnSlots, Private, FrameOk, PageOk;
    forall p | p in m.pages && SwappedOut(m.pages[p], s) ensures m.inUse[s] {
      SwappedSlot(m, {}, p);
    }
  }

  /** So as many slots are in use as pages are swapped out, and the device is full exactly
      when there are as many of them as slots. */
  lemma SlotCount(m: Memory, except: set<nat>)
    requires Consistent(m, except)
    ensures |SwappedPages(m.pages)| == |UsedSlots(m.inUse)|
    ensures (forall s | 0 <= s < |m.inUse| :: m.inUse[s]) <==> |SwappedPages(m.pages)| == |m.inUse|
  {
    hide TableOk, Private, FrameOk, PageOk, Shapes;
    var keys := SwappedPages(m.pages);
    forall p | p in keys ensures m.pages[p].kind.swap.Some? {
      SwappedSlot(m, except, p);
    }
    var slot := map p | p in keys :: m.pages[p].kind.swap.value;
    forall p, q | p in keys && q in keys && slot[p] == slot[q] ensures p == q {
      SwappedSlot(m, except, p);
      SwappedSlot(m, except, q);
    }
    AsManyValues(keys, slot);
    SlotsAreValues(m, except, keys, slot);
    UsedAtMost(m.inUse);
  }

  lemma SlotsAreValues(m: Memory, except: set<nat>, keys: set<nat>, slot: map<nat, nat>)
    requires Consistent(m, except) && keys == SwappedPages(m.pages) && slot.Keys == keys
    requires forall p | p in keys :: m.pages[p].kind.swap == Some(slot[p])
    ensures ValuesOf(keys, slot) == UsedSlots(m.inUse)
  {
    hide TableOk, OwnSlots, Private, FrameOk, PageOk, Shapes;
    forall s: nat | s in UsedSlots(m.inUse) ensures exists p :: p in keys && slot[p] == s {
      var p :| p in m.pages && SwappedOut(m.pages[p], s);
      assert p in keys;
    }
    forall p | p in keys ensures slot[p] in UsedSlots(m.inUse) {
      SwappedSlot(m, except, p);
    }
  }
}

/** Victim choice (frame_choose_victim of src/vm/frame.c): a clock over the frame table. */
module Clock {
  import opened Lists
  import opened Paging

  predicate Eligible(f: Frame) { !f.evicting && f.pinned == 0 }
  predicate Accessed(f: Frame) { f.kernelAccessed || f.userAccessed }

  function Unaccessed(f: Frame): Frame { f.(kernelAccessed := false, userAccessed := false) }

  /** t rotated so that position i comes first. */
  function Rotated(t: seq<nat>, i: nat): seq<nat>
    requires i <= |t|
  {
    t[i..] + t[..i]
  }

  ghost predicate SameButAccessed(a: map<nat, Frame>, b: map<nat, Frame>) {
    a.Keys == b.Keys && forall f | f in a :: Unaccessed(b[f]) == Unaccessed(a[f])
  }

  ghost predicate AllIn(t: seq<nat>, a: map<nat, Frame>) { forall i | 0 <= i < |t| :: t[i] in a }

  /** After k frames of table t were given a second chance, k counting both rounds. */
  ghost predicate Turned(t: seq<nat>, a: map<nat, Frame>, b: map<nat, Frame>, k: nat)
    requires AllIn(t, a)
  {
    && SameButAccessed(a, b)
    && (forall i | 0 <= i < |t| && i < k :: !Accessed(b[t[i]]) && (Eligible(a[t[i]]) ==> Accessed(a[t[i]])))
    && (forall i | 0 <= i < |t| && k <= i :: b[t[i]] == a[t[i]])
    && (forall i | 0 <= i < |t| && i < k - |t| :: !Eligible(a[t[i]]))
  }

  /** The victim at position j: the first eligible frame not accessed, or if all eligible
      frames were accessed, the first eligible one. */
  ghost predicate Chosen(t: seq<nat>, a: map<nat, Frame>, j: nat)
    requires AllIn(t, a) && j < |t|
  {
    && Eligible(a[t[j]])
    && (if Accessed(a[t[j]])
        then forall i | 0 <= i < |t| && Eligible(a[t[i]]) :: Accessed(a[t[i]]) && j <= i
        else forall i | 0 <= i < j :: Eligible(a[t[i]]) ==> Accessed(a[t[i]]))
  }

  /** The choice, on the bits themselves: the first frame that is neither pinned nor being evicted
      and has neither bit set or, when each such frame has one, the first of them, in the second
      round; each frame it passed over lost both bits and nothing else changed. */
  lemma ChosenOnBits(t: seq<nat>, a: map<nat, Frame>, b: map<nat, Frame>, k: nat, j: nat)
    requires AllIn(t, a) && Turned(t, a, b, k) && k < 2 * |t| && j == (if k < |t| then k else k - |t|)
    requires t[j] in b && Eligible(b[t[j]]) && !Accessed(b[t[j]])
    ensures !a[t[j]].evicting && a[t[j]].pinned == 0
    ensures k < |t| <==> !a[t[j]].kernelAccessed && !a[t[j]].userAccessed
    ensures forall i | 0 <= i < (if k < |t| then j else |t|) && !a[t[i]].evicting && a[t[i]].pinned == 0 ::
              a[t[i]].kernelAccessed || a[t[i]].userAccessed
    ensures k >= |t| ==> forall i | 0 <= i < j :: a[t[i]].evicting || a[t[i]].pinned > 0
    ensures forall i | 0 <= i < |t| ::
              t[i] in b
              && b[t[i]] == if i < k then a[t[i]].(kernelAccessed := false, userAccessed := false) else a[t[i]]
  {
    assert Unaccessed(b[t[j]]) == Unaccessed(a[t[j]]);
    forall i | 0 <= i < |t| && i < k
      ensures b[t[i]] == a[t[i]].(kernelAccessed := false, userAccessed := false)
    {
      assert Unaccessed(b[t[i]]) == Unaccessed(a[t[i]]);
    }
  }

  lemma TurnOne(t: seq<nat>, a: map<nat, Frame>, b: map<nat, Frame>, k: nat, pos: nat)
    requires NoDup(t) && AllIn(t, a) && Turned(t, a, b, k) && k < 2 * |t|
    requires pos == (if k < |t| then k else k - |t|) && (Accessed(b[t[pos]]) || !Eligible(b[t[pos]]))
    ensures Turned(t, a, b[t[pos] := Unaccessed(b[t[pos]])], k + 1)
  {
    var f := t[pos];
    assert Unaccessed(b[f]) == Unaccessed(a[f]);
    assert k >= |t| ==> !Accessed(b[t[pos]]);
    assert k < |t| ==> b[t[pos]] == a[t[pos]];
  }

  lemma RotateOne(t: seq<nat>, pos: nat)
    requires pos < |t|
    ensures |Rotated(t, pos)| == |t| && Rotated(t, pos)[0] == t[pos] && Rotated(t, pos)[1..] == t[pos + 1..] + t[..pos]
    ensures Rotated(t, pos)[1..] + [t[pos]] == Rotated(t, pos + 1)
    ensures Rotated(t, |t|) == Rotated(t, 0)
  {}

  lemma Choice(t: seq<nat>, a: map<nat, Frame>, b: map<nat, Frame>, k: nat, pos: nat)
    requires NoDup(t) && AllIn(t, a) && Turned(t, a, b, k) && k < 2 * |t|
    requires pos == (if k < |t| then k else k - |t|) && !Accessed(b[t[pos]]) && Eligible(b[t[pos]])
    ensures Chosen(t, a, pos)
  {
    assert Unaccessed(b[t[pos]]) == Unaccessed(a[t[pos]]);
  }

  /** After two full rounds nothing eligible could be left. */
  lemma TwoRounds(t: seq<nat>, a: map<nat, Frame>, b: map<nat, Frame>, k: nat, e: nat)
    requires AllIn(t, a) && Turned(t, a, b, k) && e < |t| && Eligible(a[t[e]]) && k <= 2 * |t|
    ensures k < 2 * |t|
  {}

  lemma StillIn(t: seq<nat>, a: map<nat, Frame>, b: map<nat, Frame>, k: nat, pos: nat)
    requires AllIn(t, a) && Turned(t, a, b, k) && pos < |t|
    ensures t[pos] in b
  {}

  /** What the frame at the front is, and what either branch of the loop leaves. */
  lemma OneTurn(t: seq<nat>, a: map<nat, Frame>, b: map<nat, Frame>, k: nat, pos: nat)
    requires NoDup(t) && AllIn(t, a) && Turned(t, a, b, k) && k < 2 * |t| && HasEligible(t, a)
    requires pos == if k < |t| then k else k - |t|
    ensures |Rotated(t, pos)| > 0 && Rotated(t, pos)[0] == t[pos] && t[pos] in b && SameButAccessed(a, b)
    ensures Rotated(t, pos)[1..] == t[pos + 1..] + t[..pos]
    ensures Rotated(t, pos)[1..] + [t[pos]] == Rotated(t, if pos + 1 == |t| then 0 else pos + 1)
    ensures Eligible(b[t[pos]]) && !Accessed(b[t[pos]]) ==> Chosen(t, a, pos)
    ensures !Eligible(b[t[pos]]) || Accessed(b[t[pos]]) ==>
              k + 1 < 2 * |t| && Turned(t, a, b[t[pos] := Unaccessed(b[t[pos]])], k + 1)
  {
    hide NoDup, Rotated, Chosen;
    RotateOne(t, pos);
    if Eligible(b[t[pos]]) && !Accessed(b[t[pos]]) {
      Choice(t, a, b, k, pos);
    } else {
      TurnOne(t, a, b, k, pos);
      var e :| 0 <= e < |t| && Eligible(a[t[e]]);
      TwoRounds(t, a, b[t[pos] := Unaccessed(b[t[pos]])], k + 1, e);
    }
  }

  // ---- When the search ends ----

  /** The hand of the clock: the table as it stands and the frames. */
  datatype Hand = Hand(table: seq<nat>, frames: map<nat, Frame>)

  /** The loop returns the frame at the front. */
  predicate Accepts(h: Hand) {
    h.table != [] && h.table[0] in h.frames && Eligible(h.frames[h.table[0]]) && !Accessed(h.frames[h.table[0]])
  }

  /** One turn of the loop that does not. */
  function Turn(h: Hand): Hand {
    if h.table == [] || h.table[0] !in h.frames then h
    else Hand(h.table[1..] + [h.table[0]], h.frames[h.table[0] := Unaccessed(h.frames[h.table[0]])])
  }

  function Turns(h: Hand, k: nat): Hand {
    if k == 0 then h else Turn(Turns(h, k - 1))
  }

  ghost predicate HasEligible(t: seq<nat>, a: map<nat, Frame>)
    requires AllIn(t, a)
  {
    exists i :: 0 <= i < |t| && Eligible(a[t[i]])
  }

  lemma SameElements(s: seq<nat>, t: seq<nat>)
    requires multiset(s) == multiset(t) && s != []
    ensures exists i :: 0 <= i < |t| && t[i] == s[0]
  {
    assert s[0] in multiset(s);
    assert s[0] in multiset(t);
    assert s[0] in t;
  }

  /** A hand reached without an acceptance: the same frames but for accessed bits. */
  ghost predicate Reached(t: seq<nat>, a: map<nat, Frame>, h: Hand) {
    SameButAccessed(a, h.frames) && multiset(h.table) == multiset(t)
  }

  lemma RejectsFront(t: seq<nat>, a: map<nat, Frame>, h: Hand)
    requires AllIn(t, a) && !HasEligible(t, a) && Reached(t, a, h)
    ensures !Accepts(h)
  {
    if h.table != [] {
      SameElements(h.table, t);
      var i :| 0 <= i < |t| && t[i] == h.table[0];
      assert Unaccessed(h.frames[t[i]]) == Unaccessed(a[t[i]]);
    }
  }

  lemma TurnReaches(t: seq<nat>, a: map<nat, Frame>, h: Hand)
    requires Reached(t, a, h)
    ensures Reached(t, a, Turn(h))
  {
    if h.table != [] && h.table[0] in h.frames {
      assert h.table == [h.table[0]] + h.table[1..];
    }
  }

  /** Without an eligible frame every turn, however many there have been, rejects the frame at
      the front and changes accessed bits only. */
  lemma {:induction false} NeverAccepts(t: seq<nat>, a: map<nat, Frame>, k: nat)
    requires AllIn(t, a) && !HasEligible(t, a)
    ensures !Accepts(Turns(Hand(t, a), k)) && Reached(t, a, Turns(Hand(t, a), k))
  {
    hide Turn, Accepts, HasEligible;
    if k > 0 {
      NeverAccepts(t, a, k - 1);
      TurnReaches(t, a, Turns(Hand(t, a), k - 1));
    }
    RejectsFront(t, a, Turns(Hand(t, a), k));
  }

  /** As long as nothing was accepted the hand is where the first k turns leave it. */
  lemma {:induction false} NotYetAccepted(t: seq<nat>, a: map<nat, Frame>, k: nat)
    requires NoDup(t) && AllIn(t, a) && t != [] && k <= 2 * |t|
    requires forall j: nat | j < k :: !Accepts(Turns(Hand(t, a), j))
    ensures Turned(t, a, Turns(Hand(t, a), k).frames, k)
    ensures Turns(Hand(t, a), k).table == Rotated(t, if k < |t| then k else if k < 2 * |t| then k - |t| else 0)
  {
    hide Turned, Rotated, NoDup;
    if k == 0 {
      Untouched(t, a);
    } else {
      NotYetAccepted(t, a, k - 1);
      var h := Turns(Hand(t, a), k - 1);
      var pos := if k - 1 < |t| then k - 1 else k - 1 - |t|;
      RotateOne(t, pos);
      StillIn(t, a, h.frames, k - 1, pos);
      assert !Accepts(h);
      TurnOne(t, a, h.frames, k - 1, pos);
    }
  }

  lemma Untouched(t: seq<nat>, a: map<nat, Frame>)
    requires AllIn(t, a)
    ensures Turned(t, a, a, 0) && Rotated(t, 0) == t
    ensures HasEligible(t, a) ==> t != []
  {}

  ghost predicate Ends(t: seq<nat>, a: map<nat, Frame>) { exists k: nat :: Accepts(Turns(Hand(t, a), k)) }

  /** The search ends, and then within two rounds, if and only if an eligible frame is in the table. */
  lemma EndsIfEligible(t: seq<nat>, a: map<nat, Frame>)
    requires NoDup(t) && AllIn(t, a)
    ensures Ends(t, a) <==> HasEligible(t, a)
    ensures HasEligible(t, a) ==> exists k: nat :: k < 2 * |t| && Accepts(Turns(Hand(t, a), k))
  {
    hide Accepts, Turn, NoDup, Turned, Reached;
    if HasEligible(t, a) {
      var e :| 0 <= e < |t| && Eligible(a[t[e]]);
      if forall k: nat | k < 2 * |t| :: !Accepts(Turns(Hand(t, a), k)) {
        NotYetAccepted(t, a, 2 * |t|);
        TwoRounds(t, a, Turns(Hand(t, a), 2 * |t|).frames, 2 * |t|, e);
      } else {
        var k: nat :| k < 2 * |t| && Accepts(Turns(Hand(t, a), k));
      }
    } else {
      forall k: nat ensures !Accepts(Turns(Hand(t, a), k)) {
        NeverAccepts(t, a, k);
      }
    }
  }

  /** With every frame pinned it never ends. */
  lemma AllPinnedNeverEnds(t: seq<nat>, a: map<nat, Frame>, k: nat)
    requires AllIn(t, a) && forall i | 0 <= i < |t| :: a[t[i]].pinned > 0
    ensures !Accepts(Turns(Hand(t, a), k))
  {
    NeverAccepts(t, a, k);
  }
}

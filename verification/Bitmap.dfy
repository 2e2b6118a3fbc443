/** Bitmaps (src/lib/kernel/bitmap.c): an array of 32-bit words behaving as a sequence of
    booleans. Sequences of booleans, with FirstGroup and SetRange, are what the free map
    and the page pools are modelled on; the class shows the word array implements them. */
module Bitmaps {
  import opened Options

  // ---- The specification: sequences of booleans ----

  /** Positions i .. i + cnt exist and all hold v. */
  predicate Group(bits: seq<bool>, i: nat, cnt: nat, v: bool) {
    i + cnt <= |bits| && forall k | i <= k < i + cnt :: bits[k] == v
  }

  /** The first group of cnt bits equal to v at or after start. */
  function FirstGroup(bits: seq<bool>, start: nat, cnt: nat, v: bool): (r: Option<nat>)
    ensures r.Some? ==> start <= r.value && Group(bits, r.value, cnt, v)
                        && forall j | start <= j < r.value :: !Group(bits, j, cnt, v)
    ensures r.None? ==> forall j | start <= j :: !Group(bits, j, cnt, v)
    decreases |bits| - start
  {
    if start + cnt > |bits| then None
    else if Group(bits, start, cnt, v) then Some(start)
    else if start == |bits| then None
    else FirstGroup(bits, start + 1, cnt, v)
  }

  /** bits with positions start .. start + cnt set to v. */
  function SetRange(bits: seq<bool>, start: nat, cnt: nat, v: bool): (r: seq<bool>)
    requires start + cnt <= |bits|
    ensures |r| == |bits|
    ensures forall k | 0 <= k < |bits| :: r[k] == if start <= k < start + cnt then v else bits[k]
  {
    bits[..start] + seq(cnt, _ => v) + bits[start + cnt..]
  }

  /** Taking a group and giving it back restores the bitmap. */
  lemma FlipBack(bits: seq<bool>, i: nat, cnt: nat, v: bool)
    requires Group(bits, i, cnt, v)
    ensures SetRange(SetRange(bits, i, cnt, !v), i, cnt, v) == bits
  {}

  // ---- Words ----

  const ELEM_BITS := 32

  function BitMask(k: nat): bv32 {
    (1 as bv32) << (k % ELEM_BITS)
  }

  function ElemIdx(k: nat): nat { k / ELEM_BITS }

  function ElemCnt(n: nat): nat { (n + ELEM_BITS - 1) / ELEM_BITS }

  lemma MaskBits(i: bv5, j: bv5)
    ensures ((1 as bv32) << i) != 0
    ensures i != j ==> ((1 as bv32) << i) & ((1 as bv32) << j) == 0
  {}

  lemma MasksDiffer(i: nat, j: nat)
    ensures BitMask(i) != 0
    ensures i % ELEM_BITS != j % ELEM_BITS ==> BitMask(i) & BitMask(j) == 0
  {
    MaskBits((i % ELEM_BITS) as bv5, (j % ELEM_BITS) as bv5);
  }

  /** The three word operations: or-ing a mask in, and-ing its complement, testing it. */
  function Or(w: bv32, m: bv32): bv32 { w | m }
  function AndNot(w: bv32, m: bv32): bv32 { w & !m }
  function And(w: bv32, m: bv32): bv32 { w & m }
  predicate Meets(w: bv32, m: bv32) { And(w, m) != 0 }

  lemma SameMask(w: bv32, m: bv32)
    requires m != 0
    ensures Meets(Or(w, m), m) && !Meets(AndNot(w, m), m)
  {}

  lemma OrOther(w: bv32, m: bv32, n: bv32)
    requires m & n == 0
    ensures And(Or(w, m), n) == And(w, n)
  {}

  lemma ClearOther(w: bv32, m: bv32, n: bv32)
    requires m & n == 0
    ensures And(AndNot(w, m), n) == And(w, n)
  {}

  lemma OtherMask(w: bv32, m: bv32, n: bv32)
    requires m & n == 0
    ensures Meets(Or(w, m), n) == Meets(w, n)
  {
    hide Or, And;
    OrOther(w, m, n);
  }

  lemma OtherMaskOff(w: bv32, m: bv32, n: bv32)
    requires m & n == 0
    ensures Meets(AndNot(w, m), n) == Meets(w, n)
  {
    hide AndNot, And;
    ClearOther(w, m, n);
  }

  /** Setting bit i of a word changes the test of bit i and of no other; so does clearing it. */
  lemma WordUpdate(w: bv32, i: nat, j: nat)
    ensures Meets(Or(w, BitMask(i)), BitMask(j)) <==> (i % ELEM_BITS == j % ELEM_BITS || Meets(w, BitMask(j)))
    ensures Meets(AndNot(w, BitMask(i)), BitMask(j)) <==> (i % ELEM_BITS != j % ELEM_BITS && Meets(w, BitMask(j)))
  {
    hide Or, AndNot, Meets;
    MasksDiffer(i, j);
    if i % ELEM_BITS == j % ELEM_BITS {
      assert BitMask(i) == BitMask(j);
      SameMask(w, BitMask(i));
    } else {
      OtherMask(w, BitMask(i), BitMask(j));
      OtherMaskOff(w, BitMask(i), BitMask(j));
    }
  }

  class Bitmap {
    const bitCnt: nat
    const words: array<bv32>

    ghost predicate Valid() {
      words.Length == ElemCnt(bitCnt)
    }

    /** The bit the words hold at position k. */
    ghost predicate At(k: nat)
      reads words
      requires Valid() && k < bitCnt
    {
      Meets(words[ElemIdx(k)], BitMask(k))
    }

    /** The sequence the bitmap stands for. */
    ghost function Bits(): (s: seq<bool>)
      reads words
      requires Valid()
      ensures |s| == bitCnt && forall k | 0 <= k < bitCnt :: s[k] == At(k)
    {
      seq(bitCnt, k requires 0 <= k < bitCnt reads words => At(k))
    }

    /** bitmap_create: all bits false. */
    constructor (n: nat)
      ensures Valid() && bitCnt == n && fresh(words)
      ensures Bits() == seq(n, _ => false)
    {
      bitCnt := n;
      words := new bv32[ElemCnt(n)](_ => 0);
      new;
      forall k | 0 <= k < n ensures !At(k) {
        assert words[ElemIdx(k)] == 0;
      }
      assert Bits() == seq(n, _ => false);
    }

    /** bitmap_test. */
    method Test(idx: nat) returns (b: bool)
      requires Valid() && idx < bitCnt
      ensures b == Bits()[idx]
    {
      b := Meets(words[ElemIdx(idx)], BitMask(idx));
    }

    /** bitmap_set: bitmap_mark or bitmap_reset on one word. */
    method Set(idx: nat, value: bool)
      requires Valid() && idx < bitCnt
      modifies words
      ensures Bits() == old(Bits())[idx := value]
    {
      hide BitMask, Or, AndNot, Meets;
      ghost var before := Bits();
      var i := ElemIdx(idx);
      ghost var w := words[i];
      words[i] := if value then Or(words[i], BitMask(idx)) else AndNot(words[i], BitMask(idx));
      forall k | 0 <= k < bitCnt ensures At(k) == before[idx := value][k] {
        WordUpdate(w, idx, k);
        assert k == idx <==> ElemIdx(k) == i && k % ELEM_BITS == idx % ELEM_BITS;
      }
    }

    /** bitmap_set_multiple. */
    method SetMultiple(start: nat, cnt: nat, value: bool)
      requires Valid() && start + cnt <= bitCnt
      modifies words
      ensures Bits() == SetRange(old(Bits()), start, cnt, value)
    {
      var i := 0;
      while i < cnt
        invariant i <= cnt
        invariant Bits() == SetRange(old(Bits()), start, i, value)
      {
        Set(start + i, value);
        i := i + 1;
      }
    }

    /** bitmap_contains. */
    method Contains(start: nat, cnt: nat, value: bool) returns (b: bool)
      requires Valid() && start + cnt <= bitCnt
      ensures b <==> !Group(Bits(), start, cnt, !value)
    {
      var i := 0;
      while i < cnt
        invariant i <= cnt
        invariant Group(Bits(), start, i, !value)
      {
        var t := Test(start + i);
        if t == value {
          return true;
        }
        i := i + 1;
      }
      return false;
    }

    /** bitmap_scan; None stands for BITMAP_ERROR. */
    method Scan(start: nat, cnt: nat, value: bool) returns (r: Option<nat>)
      requires Valid() && start <= bitCnt
      ensures r == FirstGroup(Bits(), start, cnt, value)
    {
      if cnt <= bitCnt {
        var last := bitCnt - cnt;
        var i := start;
        while i <= last
          invariant start <= i
          invariant forall j | start <= j < i :: !Group(Bits(), j, cnt, value)
          decreases last + 1 - i
        {
          var c := Contains(i, cnt, !value);
          if !c {
            return Some(i);
          }
          i := i + 1;
        }
      }
      return None;
    }

    /** bitmap_scan_and_flip. */
    method ScanAndFlip(start: nat, cnt: nat, value: bool) returns (r: Option<nat>)
      requires Valid() && start <= bitCnt
      modifies words
      ensures r == FirstGroup(old(Bits()), start, cnt, value)
      ensures Bits() == match r case None => old(Bits()) case Some(i) => SetRange(old(Bits()), i, cnt, !value)
    {
      r := Scan(start, cnt, value);
      if r.Some? {
        SetMultiple(r.value, cnt, !value);
      }
    }
  }
}

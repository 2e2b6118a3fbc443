/** Rendering of unsigned integers (format_integer and snprintf of src/lib/stdio.c) and the
    octal fields of ustar headers (src/lib/ustar.c). */
module Octal {
  import opened Bytes
  import opened Division64
  import opened Options

  const ZERO_DIGIT: byte := 48    // '0'
  const SPACE: byte := 32
  const ULONG_MAX := 0xFFFF_FFFF

  /** b->digits[d] for the bases up to 16, in lower case. */
  function Digit(d: nat): byte
    requires d < 16
  {
    if d < 10 then 48 + d else 87 + d
  }

  /** The last digit of v, and v without it. */
  function Low(v: nat, base: nat): byte
    requires 2 <= base <= 16
  {
    Digit(v % base)
  }

  function Rest(v: nat, base: nat): (r: nat)
    requires 2 <= base
    ensures v > 0 ==> r < v
    ensures v == 0 ==> r == 0
  {
    RestSmaller(v, base);
    v / base
  }

  lemma RestSmaller(v: nat, base: nat)
    requires 2 <= base
    ensures 0 <= v / base && (v > 0 ==> v / base < v) && (v == 0 ==> v / base == 0)
  {
    FloorIsQuotient(v, base);
    if v > 0 && v / base >= v {
      MulMono(2, base, v / base);
    }
    if v / base < 0 {
      MulMono(v / base, -1, base);
    }
    if v == 0 && v / base > 0 {
      MulMono(1, v / base, base);
    }
  }

  /** The n low digits of v, most significant first. */
  function Digits(v: nat, base: nat, n: nat): (s: seq<byte>)
    requires 2 <= base <= 16
    ensures |s| == n
  {
    if n == 0 then [] else Digits(Rest(v, base), base, n - 1) + [Low(v, base)]
  }

  /** How many digits v has; none for zero. */
  function Count(v: nat, base: nat): nat
    requires 2 <= base
  {
    if v == 0 then 0 else 1 + Count(Rest(v, base), base)
  }

  function Reversed(s: seq<byte>): (r: seq<byte>)
    ensures |r| == |s|
  {
    if s == [] then [] else [s[|s| - 1]] + Reversed(s[..|s| - 1])
  }

  function Repeated(b: byte, n: nat): (s: seq<byte>)
    ensures |s| == n && forall i | 0 <= i < n :: s[i] == b
  {
    seq(n, _ => b)
  }

  /** Digits of zero are zeros, and leading zeros do not matter. */
  lemma {:induction false} DigitsOfZero(base: nat, n: nat)
    requires 2 <= base <= 16
    ensures Digits(0, base, n) == Repeated(ZERO_DIGIT, n)
  {
    if n > 0 {
      DigitsOfZero(base, n - 1);
      LowOfZero(base);
    }
  }

  lemma LowOfZero(base: nat)
    requires 2 <= base <= 16
    ensures Low(0, base) == ZERO_DIGIT
  {
    assert 0 % base == 0;
  }

  lemma {:induction false} LeadingZeros(v: nat, base: nat, n: nat)
    requires 2 <= base <= 16 && Count(v, base) <= n
    ensures Digits(v, base, n) == Repeated(ZERO_DIGIT, n - Count(v, base)) + Digits(v, base, Count(v, base))
  {
    if v == 0 {
      DigitsOfZero(base, n);
    } else {
      LeadingZeros(Rest(v, base), base, n - 1);
    }
  }

  /** What printf gives for an unsigned value with a field width and no precision. */
  function Rendered(v: nat, base: nat, width: nat, zero: bool): seq<byte>
    requires 2 <= base <= 16
  {
    var n := if v == 0 then 1 else Count(v, base);
    (if n < width then Repeated(if zero then ZERO_DIGIT else SPACE, width - n) else []) + Digits(v, base, n)
  }

  /** A zero-padded field wide enough is just the digits. */
  lemma RenderedZeroPadded(v: nat, base: nat, width: nat)
    requires 2 <= base <= 16 && 1 <= width && Count(v, base) <= width
    ensures Rendered(v, base, width, true) == Digits(v, base, width)
  {
    LeadingZeros(v, base, width);
    if v == 0 {
      DigitsOfZero(base, 1);
      DigitsOfZero(base, width);
    }
  }

  // ---- What a numeral means ----

  /** The value of a digit character. */
  function DigitOf(c: byte): nat {
    if 48 <= c <= 57 then c - 48 else if 97 <= c <= 102 then c - 87 else 0
  }

  predicate IsDigit(c: byte, base: nat) { (48 <= c <= 57 || 97 <= c <= 102) && DigitOf(c) < base }

  /** The number a string of digits stands for. */
  function NumberIn(s: seq<byte>, base: nat): nat {
    if s == [] then 0 else NumberIn(s[..|s| - 1], base) * base + DigitOf(s[|s| - 1])
  }

  /** d is v in the given base, without leading zeros. */
  ghost predicate Numeral(d: seq<byte>, base: nat, v: nat) {
    && |d| >= 1 && (|d| > 1 ==> d[0] != ZERO_DIGIT)
    && (forall i | 0 <= i < |d| :: IsDigit(d[i], base)) && NumberIn(d, base) == v
  }

  /** r is v in the given base, padded in front to the width and no further. */
  ghost predicate Prints(r: seq<byte>, v: nat, base: nat, width: nat, zero: bool) {
    exists k: nat :: k <= |r| && Numeral(r[k..], base, v) && width <= |r| && (k > 0 ==> |r| == width)
                     && forall i | 0 <= i < k :: r[i] == if zero then ZERO_DIGIT else SPACE
  }

  lemma LowMeans(v: nat, base: nat)
    requires 2 <= base <= 16
    ensures IsDigit(Low(v, base), base) && Rest(v, base) * base + DigitOf(Low(v, base)) == v
    ensures 0 < v < base ==> Low(v, base) != ZERO_DIGIT
  {
    assert v == (v / base) * base + v % base;
    assert v < base ==> v / base == 0;
  }

  lemma {:induction false} DigitsMean(v: nat, base: nat, n: nat)
    requires 2 <= base <= 16 && Count(v, base) <= n
    ensures NumberIn(Digits(v, base, n), base) == v
    ensures forall i | 0 <= i < n :: IsDigit(Digits(v, base, n)[i], base)
  {
    hide Low, Rest, IsDigit, DigitOf;
    if n > 0 {
      LowMeans(v, base);
      DigitsMean(Rest(v, base), base, n - 1);
      var d := Digits(v, base, n);
      assert d[..n - 1] == Digits(Rest(v, base), base, n - 1);
    }
  }

  /** A number has one string of n octal digits. */
  lemma {:induction false} OneOctal(a: seq<byte>, b: seq<byte>)
    requires |a| == |b| && NumberIn(a, 8) == NumberIn(b, 8)
    requires forall i | 0 <= i < |a| :: 48 <= a[i] <= 55 && 48 <= b[i] <= 55
    ensures a == b
  {
    hide NumberIn;
    if a != [] {
      var n := |a| - 1;
      LastOctal(a);
      LastOctal(b);
      OneOctal(a[..n], b[..n]);
      assert a == a[..n] + [a[n]] && b == b[..n] + [b[n]];
    }
  }

  lemma LastOctal(s: seq<byte>)
    requires s != [] && 48 <= s[|s| - 1] <= 55
    ensures NumberIn(s, 8) == NumberIn(s[..|s| - 1], 8) * 8 + (s[|s| - 1] - 48)
  {}

  lemma {:induction false} NoLeadingZero(v: nat, base: nat)
    requires 2 <= base <= 16 && v > 0
    ensures Count(v, base) > 0 && Digits(v, base, Count(v, base))[0] != ZERO_DIGIT
    decreases v
  {
    hide Low;
    LowMeans(v, base);
    var r := Rest(v, base);
    if r > 0 {
      NoLeadingZero(r, base);
      assert Digits(v, base, Count(v, base)) == Digits(r, base, Count(r, base)) + [Low(v, base)];
    } else {
      assert Digits(v, base, 1) == [Low(v, base)];
    }
  }

  lemma CountIsNumeral(v: nat, base: nat)
    requires 2 <= base <= 16
    ensures Numeral(Digits(v, base, if v == 0 then 1 else Count(v, base)), base, v)
  {
    hide Digits, IsDigit, NumberIn;
    DigitsMean(v, base, if v == 0 then 1 else Count(v, base));
    if v > 0 {
      NoLeadingZero(v, base);
    }
  }

  lemma RenderedMeans(v: nat, base: nat, width: nat, zero: bool)
    requires 2 <= base <= 16
    ensures Prints(Rendered(v, base, width, zero), v, base, width, zero)
  {
    hide Digits, Numeral, Count;
    CountIsNumeral(v, base);
    var n := if v == 0 then 1 else Count(v, base);
    var r := Rendered(v, base, width, zero);
    var k := if n < width then width - n else 0;
    assert r[k..] == Digits(v, base, n);
  }

  /** The digits of v so far, in the order the loop produces them. */
  ghost function LowDigits(v: nat, base: nat, i: nat): (s: seq<byte>)
    requires 2 <= base <= 16
    ensures |s| == i
  {
    Reversed(Digits(v, base, i))
  }

  lemma {:induction false} ReversedAppend(s: seq<byte>, b: byte)
    ensures Reversed([b] + s) == Reversed(s) + [b]
  {
    if s != [] {
      var n := |s| - 1;
      ReversedAppend(s[..n], b);
      assert ([b] + s)[..n + 1] == [b] + s[..n];
    }
  }

  lemma {:induction false} ReversedTwice(s: seq<byte>)
    ensures Reversed(Reversed(s)) == s
  {
    if s != [] {
      var n := |s| - 1;
      ReversedTwice(s[..n]);
      ReversedAppend(Reversed(s[..n]), s[n]);
    }
  }

  /** v without its i low digits. */
  ghost function Dropped(v: nat, base: nat, i: nat): nat
    requires 2 <= base
  {
    if i == 0 then v else Dropped(Rest(v, base), base, i - 1)
  }

  lemma LastDigit(v: nat, base: nat, n: nat)
    requires 2 <= base <= 16
    ensures Digits(v, base, n + 1) == Digits(Rest(v, base), base, n) + [Low(v, base)] && Digits(v, base, 0) == []
  {}

  lemma DroppedMore(v: nat, base: nat, i: nat)
    requires 2 <= base
    ensures Dropped(v, base, 0) == v && Dropped(v, base, i + 1) == Dropped(Rest(v, base), base, i)
  {}

  lemma {:induction false} NextDigit(v: nat, base: nat, i: nat)
    requires 2 <= base <= 16
    ensures Digits(v, base, i + 1) == [Low(Dropped(v, base, i), base)] + Digits(v, base, i)
    ensures Dropped(v, base, i + 1) == Rest(Dropped(v, base, i), base)
  {
    hide Digits, Low, Rest, Dropped;
    LastDigit(v, base, i);
    DroppedMore(v, base, i);
    if i == 0 {
      LastDigit(Rest(v, base), base, 0);
      DroppedMore(Rest(v, base), base, 0);
    } else {
      NextDigit(Rest(v, base), base, i - 1);
      LastDigit(v, base, i - 1);
      DroppedMore(v, base, i - 1);
    }
  }

  lemma HalvedAtLeast(v: nat, base: nat, k: nat)
    requires 2 <= base && 0 < v < Pow2(k)
    ensures k > 0 && Rest(v, base) < Pow2(k - 1)
  {
    FloorIsQuotient(v, base);
    var q := v / base;
    if q >= Pow2(k - 1) {
      MulMono(2, base, q);
    }
  }

  lemma FormatStart(v: nat, base: nat)
    requires 2 <= base <= 16
    ensures Dropped(v, base, 0) == v && LowDigits(v, base, 0) == []
  {}

  lemma FormatStep(v: nat, base: nat, i: nat, value: nat)
    requires 2 <= base <= 16 && value == Dropped(v, base, i) && value > 0
    ensures LowDigits(v, base, i + 1) == LowDigits(v, base, i) + [Low(value, base)]
    ensures Dropped(v, base, i + 1) == Rest(value, base) && Count(value, base) == 1 + Count(Rest(value, base), base)
  {
    hide Digits, Low, Rest, Dropped;
    NextDigit(v, base, i);
    ReversedAppend(Digits(v, base, i), Low(value, base));
  }

  lemma FormatEnd(v: nat, base: nat, n: nat)
    requires 2 <= base <= 16 && Count(v, base) == n + Count(0, base)
    ensures n == Count(v, base) && (n == 0 <==> v == 0)
  {}

  lemma FormatZero(base: nat)
    requires 2 <= base <= 16
    ensures LowDigits(0, base, 1) == [ZERO_DIGIT]
  {
    DigitsOfZero(base, 1);
  }

  lemma PutOne(s: seq<byte>, i: nat)
    requires 0 < i <= |s|
    ensures Reversed(s[i - 1..]) == Reversed(s[i..]) + [s[i - 1]]
  {
    assert s[i - 1..] == [s[i - 1]] + s[i..];
    ReversedAppend(s[i..], s[i - 1]);
  }

  lemma LowDigitsBack(v: nat, base: nat, n: nat)
    requires 2 <= base <= 16
    ensures Reversed(LowDigits(v, base, n)) == Digits(v, base, n)
  {
    ReversedTwice(Digits(v, base, n));
  }

  /** The digit loop of format_integer: digits in reverse order, at least one. The buffer of 64
      characters is never overrun. */
  method AccumulateDigits(v: nat, base: nat, buf: array<byte>) returns (cp: nat)
    requires 2 <= base <= 16 && v < Pow2(64) && buf.Length == 64
    modifies buf
    ensures cp == (if v == 0 then 1 else Count(v, base)) && cp <= 64 && buf[..cp] == LowDigits(v, base, cp)
  {
    hide Digits, Low, Rest, Pow2, Count, Dropped, Reversed, LowDigits;
    cp := 0;
    var value := v;
    FormatStart(v, base);
    while value > 0
      invariant cp <= 64 && value == Dropped(v, base, cp) && value < Pow2(64 - cp)
      invariant buf[..cp] == LowDigits(v, base, cp)
      invariant Count(v, base) == cp + Count(value, base)
      decreases value
    {
      HalvedAtLeast(value, base, 64 - cp);
      FormatStep(v, base, cp, value);
      buf[cp] := Low(value, base);
      assert buf[..cp + 1] == buf[..cp] + [Low(value, base)];
      value := Rest(value, base);
      cp := cp + 1;
    }
    FormatEnd(v, base, cp);
    while cp < 1
      invariant cp == (if v == 0 && cp == 0 then 0 else if v == 0 then 1 else Count(v, base)) && cp <= 64
      invariant buf[..cp] == LowDigits(v, base, cp)
    {
      FormatZero(base);
      buf[cp] := ZERO_DIGIT;
      assert buf[..1] == [ZERO_DIGIT];
      cp := cp + 1;
    }
  }

  /** The last loop of format_integer: the digits come out in the right order. */
  method PutDigits(buf: array<byte>, cnt: nat, start: seq<byte>) returns (output: seq<byte>)
    requires cnt <= buf.Length
    ensures output == start + Reversed(buf[..cnt])
  {
    hide Reversed;
    ghost var digits := buf[..cnt];
    output := start;
    var cp := cnt;
    ReversedNone(digits);
    while cp > 0
      invariant 0 <= cp <= cnt && output == start + Reversed(digits[cp..])
    {
      PutOne(digits, cp);
      cp := cp - 1;
      output := output + [buf[cp]];
    }
    assert digits[0..] == digits;
  }

  /** format_integer for an unsigned conversion without precision, # or ' flags. */
  method FormatInteger(v: nat, base: nat, width: nat, zero: bool) returns (output: seq<byte>)
    requires 2 <= base <= 16 && v < Pow2(64)
    ensures output == Rendered(v, base, width, zero) && Prints(output, v, base, width, zero)
  {
    hide Digits, Pow2, Count, Reversed, LowDigits, Repeated, Prints;
    RenderedMeans(v, base, width, zero);
    var buf := new byte[64];
    var cp := AccumulateDigits(v, base, buf);
    var pad := if cp < width then width - cp else 0;
    output := [];
    if !zero {
      output := Repeated(SPACE, pad);
    }
    if zero {
      output := output + Repeated(ZERO_DIGIT, pad);
    }
    LowDigitsBack(v, base, cp);
    output := PutDigits(buf, cp, output);
  }

  lemma ReversedNone(s: seq<byte>)
    ensures Reversed(s[|s|..]) == []
  {}

  // ---- Reading an octal field ----

  predicate IsOctalDigit(c: byte) { 48 <= c <= 55 }

  /** What is left of a field from ofs on makes of a value read so far. */
  function ParseFrom(s: seq<byte>, ofs: nat, value: nat): Option<nat>
    requires ofs <= |s|
    decreases |s| - ofs
  {
    if ofs == |s| then None
    else if IsOctalDigit(s[ofs]) then
      if value > ULONG_MAX / 8 then None else ParseFrom(s, ofs + 1, s[ofs] - 48 + value * 8)
    else if (s[ofs] == SPACE || s[ofs] == 0) && ofs > 0 then Some(value)
    else None
  }

  function ParseField(s: seq<byte>): Option<nat> { ParseFrom(s, 0, 0) }

  /** The field starts with n octal digits, at least one, and a space or null byte. */
  ghost predicate ReadsAs(s: seq<byte>, n: nat) {
    1 <= n < |s| && (forall i | 0 <= i < n :: IsOctalDigit(s[i])) && (s[n] == SPACE || s[n] == 0)
  }

  lemma OneDigitMore(s: seq<byte>, n: nat)
    requires n < |s|
    ensures NumberIn(s[..n + 1], 8) == NumberIn(s[..n], 8) * 8 + DigitOf(s[n])
  {
    assert s[..n + 1][..n] == s[..n];
  }

  lemma {:induction false} NumberGrows(s: seq<byte>, m: nat, n: nat)
    requires m <= n <= |s|
    ensures NumberIn(s[..m], 8) <= NumberIn(s[..n], 8)
  {
    hide NumberIn, DigitOf;
    if m < n {
      NumberGrows(s, m, n - 1);
      OneDigitMore(s, n - 1);
    }
  }

  lemma {:induction false} ParseFromMeans(s: seq<byte>, ofs: nat, value: nat)
    requires ofs <= |s| && forall i | 0 <= i < ofs :: IsOctalDigit(s[i])
    requires value == NumberIn(s[..ofs], 8) <= ULONG_MAX
    ensures match ParseFrom(s, ofs, value)
            case Some(v) => exists n: nat :: ofs <= n && ReadsAs(s, n) && v == NumberIn(s[..n], 8) <= ULONG_MAX
            case None => forall n: nat | ofs <= n && ReadsAs(s, n) :: NumberIn(s[..n], 8) > ULONG_MAX
    decreases |s| - ofs
  {
    hide NumberIn, DigitOf;
    if ofs < |s| && IsOctalDigit(s[ofs]) {
      OneDigitMore(s, ofs);
      assert DigitOf(s[ofs]) == s[ofs] - 48 by { OctalDigitOf(s[ofs]); }
      if value > ULONG_MAX / 8 {
        forall n: nat | ofs <= n && ReadsAs(s, n) ensures NumberIn(s[..n], 8) > ULONG_MAX {
          NumberGrows(s, ofs + 1, n);
        }
      } else {
        ParseFromMeans(s, ofs + 1, s[ofs] - 48 + value * 8);
      }
    } else if ofs < |s| && (s[ofs] == SPACE || s[ofs] == 0) && ofs > 0 {
      assert ReadsAs(s, ofs);
    }
  }

  lemma OctalDigitOf(c: byte)
    requires IsOctalDigit(c)
    ensures DigitOf(c) == c - 48
  {}

  /** A field reads as a number exactly when it is octal digits, a space or null byte, and
      anything, and the digits stand for a number of 32 bits; then as that number. */
  lemma ParseFieldMeans(s: seq<byte>)
    ensures match ParseField(s)
            case Some(v) => exists n: nat :: ReadsAs(s, n) && v == NumberIn(s[..n], 8) <= ULONG_MAX
            case None => forall n: nat | ReadsAs(s, n) :: NumberIn(s[..n], 8) > ULONG_MAX
  {
    hide ParseFrom, ReadsAs;
    assert s[..0] == [];
    ParseFromMeans(s, 0, 0);
  }

  /** parse_octal_field. */
  method ParseOctalField(s: seq<byte>) returns (r: Option<nat>)
    ensures r == ParseField(s)
    ensures r.Some? ==> r.value <= ULONG_MAX
    ensures r.Some? ==> exists n: nat :: ReadsAs(s, n) && r.value == NumberIn(s[..n], 8)
    ensures r.None? ==> forall n: nat | ReadsAs(s, n) :: NumberIn(s[..n], 8) > ULONG_MAX
  {
    hide ReadsAs, NumberIn;
    ParseFieldMeans(s);
    var value := 0;
    var ofs := 0;
    while ofs < |s|
      invariant ofs <= |s| && 0 <= value <= ULONG_MAX && ParseField(s) == ParseFrom(s, ofs, value)
    {
      var c := s[ofs];
      if 48 <= c <= 55 {
        if value > ULONG_MAX / 8 {
          return None;
        }
        value := c - 48 + value * 8;
      } else if c == SPACE || c == 0 {
        return if ofs > 0 then Some(value) else None;
      } else {
        return None;
      }
      ofs := ofs + 1;
    }
    return None;
  }

  /** Reading n rendered digits of v gives v. */
  lemma {:induction false} DigitsRead(s: seq<byte>, v: nat, n: nat)
    requires n <= |s| && v <= ULONG_MAX && s[..n] == Digits(v, 8, n) && (n == 0 ==> v == 0)
    requires Count(v, 8) <= n
    ensures ParseFrom(s, 0, 0) == ParseFrom(s, n, v)
  {
    if n > 0 {
      var m := n - 1;
      LastDigit(v, 8, m);
      assert s[..n] == s[..m] + [s[m]];
      assert s[..m] == Digits(v / 8, 8, m) && s[m] == Digit(v % 8) == 48 + v % 8;
      DigitsRead(s, v / 8, m);
    }
  }

  /** A field of digits and a null byte reads back as the number rendered into it. */
  lemma FieldRoundTrip(v: nat, width: nat)
    requires v <= ULONG_MAX && 1 <= width && Count(v, 8) <= width
    ensures ParseField(Rendered(v, 8, width, true) + [0]) == Some(v)
  {
    RenderedZeroPadded(v, 8, width);
    var s := Digits(v, 8, width) + [0];
    assert s[..width] == Digits(v, 8, width);
    DigitsRead(s, v, width);
  }

  lemma {:induction false} CountOctal(v: nat, n: nat)
    requires v < Pow2(3 * n)
    ensures Count(v, 8) <= n
  {
    if n > 0 && v > 0 {
      Pow2Add(3, 3 * (n - 1));
      assert Pow2(3) == 8;
      CountOctal(v / 8, n - 1);
    }
  }
}

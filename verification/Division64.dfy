/** 64-bit division built from the x86 DIVL instruction (src/lib/arithmetic.c).

    Machine words are integers with their width written out: `Wrap64` is reduction
    modulo 2^64, `x / Pow2(k)` a right shift and `x * Pow2(k)` a left shift. */
module Division64 {

  const B32: int := 0x1_0000_0000
  const B64: int := 0x1_0000_0000_0000_0000
  const B63: int := 0x8000_0000_0000_0000

  type uint32 = x: int | 0 <= x < B32
  type uint64 = x: int | 0 <= x < B64
  type int64 = x: int | -B63 <= x < B63

  function Wrap64(x: int): (r: uint64)
    ensures 0 <= x < B64 ==> r == x
    ensures -B64 <= x < 0 ==> r == x + B64
  {
    x % B64
  }

  /** The value of a 64-bit word read as two's complement. */
  function ToSigned(x: uint64): int64 { if x < B63 then x else x - B64 }

  function Pow2(k: nat): (p: nat)
    ensures p > 0
  {
    if k == 0 then 1 else 2 * Pow2(k - 1)
  }

  lemma {:induction false} Pow2Add(j: nat, k: nat)
    ensures Pow2(j + k) == Pow2(j) * Pow2(k)
  {
    if j == 0 {
    } else {
      Pow2Add(j - 1, k);
      assert 2 * (Pow2(j - 1) * Pow2(k)) == (2 * Pow2(j - 1)) * Pow2(k);
    }
  }

  lemma Pow2Values()
    ensures Pow2(1) == 2 && Pow2(2) == 4 && Pow2(4) == 16 && Pow2(8) == 256 && Pow2(16) == 65536
    ensures Pow2(31) == 0x8000_0000 && Pow2(32) == B32
  {
    Pow2Add(1, 1); Pow2Add(2, 2); Pow2Add(4, 4); Pow2Add(8, 8); Pow2Add(16, 16);
    assert Pow2(32) == 2 * Pow2(31);
  }

  /** q is the floor quotient of n by d. */
  ghost predicate IsQuotient(n: int, d: int, q: int) {
    q * d <= n < q * d + d
  }

  /** DIVL: the quotient of a 64-bit by a 32-bit number. The precondition is the
      instruction's own: it traps when the divisor is zero or the quotient needs
      more than 32 bits, that is when n >= 2^32 * d. */
  method Divl(n: uint64, d: uint32) returns (q: uint32)
    requires 0 < d && n < B32 * d
    ensures IsQuotient(n, d, q)
  {
    FloorIsQuotient(n, d);
    QuotientAtLeast(n, d, n / d, B32);
    NotAbove(n, d, n / d);
    q := n / d;
  }

  /** The 32-bit quotient and remainder the compiler emits for `/` and `%`. */
  method DivMod32(n: uint32, d: uint32) returns (q: uint32, r: uint32)
    requires 0 < d
    ensures n == q * d + r && r < d
  {
    FloorIsQuotient(n, d);
    NotAbove(n, d, n / d);
    q, r := n / d, n % d;
  }

  /** Logical right shift. */
  function Shr(x: nat, k: nat): (r: nat)
    ensures r <= x
  {
    if k == 0 then x else Shr(x / 2, k - 1)
  }

  lemma {:induction false} ShrIsQuotient(x: nat, k: nat)
    ensures IsQuotient(x, Pow2(k), Shr(x, k))
  {
    if k > 0 {
      ShrIsQuotient(x / 2, k - 1);
      FloorOfFloor(x, 2, Pow2(k - 1), x / 2, Shr(x / 2, k - 1));
    }
  }

  /** Number of leading zero bits of a nonzero 32-bit word: the shift that brings the
      top set bit to position 31. */
  method Nlz(x0: uint32) returns (n: nat)
    requires x0 != 0
    ensures n <= 31
    ensures Pow2(31) <= x0 * Pow2(n) < Pow2(32)
  {
    hide Pow2, Shifted;
    Pow2Values();
    NotShifted(x0);
    var x: uint32 := x0;
    n := 0;
    if x <= 0x0000FFFF { ShiftMore(x0, n, x, 16, 65536); n := n + 16; x := x * 65536; }
    if x <= 0x00FFFFFF { ShiftMore(x0, n, x, 8, 256); n := n + 8; x := x * 256; }
    if x <= 0x0FFFFFFF { ShiftMore(x0, n, x, 4, 16); n := n + 4; x := x * 16; }
    if x <= 0x3FFFFFFF { ShiftMore(x0, n, x, 2, 4); n := n + 2; x := x * 4; }
    if x <= 0x7FFFFFFF { ShiftMore(x0, n, x, 1, 2); n := n + 1; x := x * 2; }
    ShiftedMeans(x0, n, x);
  }

  ghost predicate Shifted(x0: nat, n: nat, x: nat) { x == x0 * Pow2(n) }

  lemma NotShifted(x0: nat)
    ensures Shifted(x0, 0, x0)
  {}

  lemma ShiftedMeans(x0: nat, n: nat, x: nat)
    requires Shifted(x0, n, x)
    ensures x0 * Pow2(n) == x
  {}

  lemma ShiftMore(x0: nat, n: nat, x: nat, k: nat, f: nat)
    requires Shifted(x0, n, x) && f == Pow2(k)
    ensures Shifted(x0, n + k, x * f)
  {
    Pow2Add(n, k);
    Reassociate(x0, Pow2(n), f);
  }

  // ---- Multiplication facts, one step each ----

  lemma MulMono(a: int, b: int, c: int)
    requires a <= b && 0 <= c
    ensures a * c <= b * c
  {}

  lemma Distribute(a: int, b: int, c: int)
    ensures (a + b) * c == a * c + b * c
  {}

  lemma Reassociate(a: int, b: int, c: int)
    ensures (a * b) * c == a * (b * c) && (a * b) * c == (a * c) * b
  {}

  lemma QuotientUnique(n: int, d: int, q: int, e: int)
    requires d > 0 && IsQuotient(n, d, q) && IsQuotient(n, d, e)
    ensures q == e
  {
    if e < q { MulMono(e + 1, q, d); Distribute(e, 1, d); }
    if q < e { MulMono(q + 1, e, d); Distribute(q, 1, d); }
  }

  lemma FloorIsQuotient(n: int, d: int)
    requires d > 0
    ensures IsQuotient(n, d, n / d)
  {
    assert n == (n / d) * d + n % d;
  }

  lemma QuotientIsFloor(n: int, d: int, q: int)
    requires d > 0 && IsQuotient(n, d, q)
    ensures n / d == q
  {
    FloorIsQuotient(n, d);
    QuotientUnique(n, d, q, n / d);
  }

  /** c is at most the quotient exactly when c copies of d fit. */
  lemma QuotientAtLeast(n: int, d: int, q: int, c: int)
    requires d > 0 && IsQuotient(n, d, q)
    ensures c <= q <==> c * d <= n
  {
    if c <= q { MulMono(c, q, d); } else { MulMono(q + 1, c, d); Distribute(q, 1, d); }
  }

  /** The first branch: with a 32-bit divisor the quotient is computed a word at a time. */
  lemma DivideByWord(n: int, d: int, n1: int, n0: int, a: int, r: int, lo: int)
    requires 0 < d && n == B32 * n1 + n0 && 0 <= n0 < B32
    requires n1 == a * d + r && 0 <= r < d
    requires IsQuotient(B32 * r + n0, d, lo)
    ensures lo < B32
    ensures IsQuotient(n, d, lo + B32 * a)
  {
    MulMono(r, d - 1, B32);
    QuotientAtLeast(B32 * r + n0, d, lo, B32);
    Reassociate(B32, a, d);
    Distribute(lo, B32 * a, d);
  }

  /** Nested floors collapse: floor(floor(m / a) / b) == floor(m / (a * b)). */
  lemma FloorOfFloor(m: int, a: int, b: int, x: int, y: int)
    requires a > 0 && b > 0 && IsQuotient(m, a, x) && IsQuotient(x, b, y)
    ensures a * b > 0 && IsQuotient(m, a * b, y)
  {
    MulMono(1, b, a);
    MulMono(y * b, x, a);
    MulMono(x + 1, y * b + b, a);
    Distribute(x, 1, a);
    Distribute(y * b, b, a);
    Reassociate(y, b, a);
    assert b * a == a * b;
  }

  /** The normalised divisor still fits in 64 bits, and its top word has its top bit set. */
  lemma Normalise(d: int, d1: int, d0: int, p: int, u: int, t: int)
    requires d == B32 * d1 + d0 && 0 <= d0 < B32 && 0 < p && 0 < t
    requires p * u == B32 && p * t == B32 / 2 && B32 / 2 <= d1 * p < B32
    ensures 0 <= d * p < B64
    ensures t <= d1
    ensures forall v :: IsQuotient(d * p, B32, v) ==> B32 / 2 <= v < B32
  {
    var x, y := d1 * p, d0 * p;
    assert d1 < u by { if d1 >= u { MulMono(u, d1, p); } }
    MulMono(d1, u - 1, p);
    Distribute(u, -1, p);
    assert x <= B32 - p by { assert u * p == p * u; }
    MulMono(d0, B32 - 1, p);
    MulMono(0, d0, p);
    assert 0 <= y <= (B32 - 1) * p;
    Distribute(B32 * d1, d0, p);
    Reassociate(B32, d1, p);
    assert d * p == B32 * x + y;
    assert t <= d1 by { if d1 < t { MulMono(d1 + 1, t, p); Distribute(d1, 1, p); } }
  }

  /** The estimate is not too small: 2vt <= d. */
  lemma LowerEstimate(n: int, d: int, e: int, m: int, c: int, q: int)
    requires 0 < c && 2 * c <= d && n / 2 == m && 0 <= n
    requires IsQuotient(n, d, e) && IsQuotient(m, c, q)
    ensures e <= q
  {
    if e > 0 {
      MulMono(2 * c, d, e);
      Reassociate(2, c, e);
      assert d * e == e * d && c * e == e * c;
      assert 2 * (e * c) <= n;
      QuotientAtLeast(m, c, q, e);
    } else {
      QuotientAtLeast(m, c, q, e);
      MulMono(e, 0, c);
    }
  }

  /** An error of two in the estimate needs n * (d - c) > c * d. */
  lemma ErrorOfTwo(n: int, d: int, c: int, e: int)
    requires c > 0 && d > 0 && (e + 2) * c <= n < (e + 1) * d
    ensures n * (d - c) > c * d
  {
    MulMono((e + 2) * c, n, d);
    assert n * c < ((e + 1) * d) * c by { MulMono(n + 1, (e + 1) * d, c); Distribute(n, 1, c); }
    Distribute(e + 1, 1, c * d);
    Reassociate(e + 2, c, d);
    Reassociate(e + 1, d, c);
    assert d * c == c * d;
    Distribute(d, -c, n);
    assert (-c) * n == -(n * c);
  }

  lemma ScaledBound(x: int, w: int, b: int, t: int)
    requires t > 0 && x <= w < x + b
    ensures x * t <= w * t < x * t + b * t
  {
    MulMono(x, w, t);
    MulMono(w + 1, x + b, t);
    Distribute(w, 1, t);
    Distribute(x, b, t);
  }

  /** The gap d - 2vt left by dropping the low word of the normalised divisor. */
  lemma DeltaBound(d: int, v: int, p: int, t: int, w: int)
    requires t > 0 && w == d * p && p * t == B32 / 2 && IsQuotient(w, B32, v)
    ensures 0 <= d - 2 * (v * t) <= 2 * t - 1
  {
    ScaledBound(v * B32, w, B32, t);
    Reassociate(v, B32, t);
    Reassociate(d, p, t);
    HalveGap(d, v * t, t);
  }

  lemma HalveGap(d: int, vt: int, t: int)
    requires vt * B32 <= d * (B32 / 2) < vt * B32 + B32 * t
    ensures 0 <= d - 2 * vt <= 2 * t - 1
  {}

  /** n < 2^64, v >= 2^31 and d >= 2^32 * t leave no room for an error of two. */
  lemma NoErrorOfTwo(n: int, d: int, v: int, t: int, delta: int)
    requires 0 <= n < B64 && 0 < t && B32 * t <= d && B32 / 2 <= v && 0 <= delta <= 2 * t - 1
    ensures n * delta <= 2 * (v * t) * d
  {
    var vt := v * t;
    MulMono(B32 / 2, v, t);
    ProductAtLeast(2 * vt, d, B32 * t);
    Square(t);
    ProductAtMost(n, delta, t);
  }

  lemma ProductAtMost(n: int, delta: int, t: int)
    requires 0 <= n <= B64 && 0 <= delta <= 2 * t - 1
    ensures n * delta <= B64 * (2 * t - 1)
  {
    MulMono(n, B64, delta);
  }

  lemma ProductAtLeast(c: int, d: int, x: int)
    requires 0 <= x <= c && x <= d
    ensures c * d >= x * x
  {
    MulMono(x, d, x);
    MulMono(x, c, d);
  }

  lemma Square(t: int)
    requires t > 0
    ensures (B32 * t) * (B32 * t) >= B64 * (2 * t - 1)
  {
    assert (t - 1) * (t - 1) == t * t - 2 * t + 1;
    assert 2 * t - 1 <= t * t;
    Reassociate(B32, t, B32 * t);
    Reassociate(B32, t, t);
    assert (B32 * t) * (B32 * t) == B32 * (t * (B32 * t));
    assert t * (B32 * t) == B32 * (t * t);
    MulMono(2 * t - 1, t * t, B64);
  }

  /** The estimate is at most one too large. */
  lemma UpperEstimate(n: int, d: int, e: int, m: int, v: int, t: int, q: int)
    requires 0 <= n < B64 && n / 2 == m && 0 < t && B32 * t <= d && B32 / 2 <= v
    requires 0 <= d - 2 * (v * t) <= 2 * t - 1
    requires v * t > 0 && IsQuotient(n, d, e) && IsQuotient(m, v * t, q)
    ensures q <= e + 1
  {
    var c := 2 * (v * t);
    NoErrorOfTwo(n, d, v, t, d - c);
    if q >= e + 2 {
      QuotientAtLeast(m, v * t, q, e + 2);
      assert (e + 2) * c <= n by { Reassociate(2, v * t, e + 2); }
      Distribute(e, 1, d);
      ErrorOfTwo(n, d, c, e);
      assert false;
    }
  }

  /** The second branch (Hacker's Delight): dividing n/2 by the top word v of the
      normalised divisor d * 2^s cannot trap ... */
  lemma NormalisedDivisor(n: int, d: int, s: nat, v: int)
    requires B32 <= d <= n < B64
    requires s <= 31 && Pow2(31) <= (d / B32) * Pow2(s) < Pow2(32)
    requires v == d * Pow2(s) / B32
    ensures 0 <= d * Pow2(s) < B64 && B32 / 2 <= v < B32
    ensures n / 2 < B32 * v
  {
    Pow2Values(); Pow2Add(s, 31 - s); Pow2Add(s, 32 - s);
    assert IsQuotient(d * Pow2(s), B32, v);
    Normalise(d, d / B32, d % B32, Pow2(s), Pow2(32 - s), Pow2(31 - s));
  }

  /** ... and over-estimates the quotient by at most one. */
  lemma EstimateWithinOne(n: int, d: int, s: nat, v: int, wide: int, est: int, e: int)
    requires B32 <= d <= n < B64
    requires s <= 31 && Pow2(31) <= (d / B32) * Pow2(s) < Pow2(32)
    requires v == d * Pow2(s) / B32 && B32 / 2 <= v
    requires IsQuotient(n / 2, v, wide) && IsQuotient(wide, Pow2(31 - s), est) && IsQuotient(n, d, e)
    ensures e <= est <= e + 1
  {
    var p, t := Pow2(s), Pow2(31 - s);
    Pow2Values(); Pow2Add(s, 31 - s); Pow2Add(s, 32 - s);
    assert IsQuotient(d * p, B32, v);
    Normalise(d, d / B32, d % B32, p, Pow2(32 - s), t);
    FloorOfFloor(n / 2, v, t, wide, est);
    DeltaBound(d, v, p, t, d * p);
    LowerEstimate(n, d, e, n / 2, v * t, est);
    UpperEstimate(n, d, e, n / 2, v, t, est);
  }

  /** The final correction, in wrapping 64-bit arithmetic. */
  lemma ChooseQuotient(n: int, d: int, est: int, e: int)
    requires 0 < d <= n < B64 && IsQuotient(n, d, e) && e <= est <= e + 1
    ensures 1 <= est && 0 <= (est - 1) * d <= n
    ensures e == if n - (est - 1) * d < d then est - 1 else est
  {
    QuotientAtLeast(n, d, e, 1);
    MulMono(est - 1, e, d);
    MulMono(0, est - 1, d);
    Distribute(e, -1, d);
  }

  lemma QuotientExists(n: int, d: int) returns (e: int)
    requires d > 0
    ensures IsQuotient(n, d, e)
  {
    FloorIsQuotient(n, d);
    e := n / d;
  }

  lemma NotAbove(n: int, d: int, q: int)
    requires 0 <= n && 0 < d && IsQuotient(n, d, q)
    ensures 0 <= q <= n
  {
    QuotientAtLeast(n, d, q, 0);
    MulMono(1, d, q);
  }

  // ---- The operations ----

  /** Unsigned 64-bit division: the exact floor quotient, and every DIVL it issues is
      within the instruction's range (each call below discharges Divl's precondition). */
  method Udiv64(n: uint64, d: uint64) returns (q: uint64)
    requires d != 0
    ensures IsQuotient(n, d, q)
  {
    if d / B32 == 0 {
      var n1: uint32, n0: uint32, d0: uint32 := n / B32, n % B32, d % B32;
      var a, r := DivMod32(n1, d0);
      MulMono(r, d0 - 1, B32);
      var lo := Divl(B32 * r + n0, d0);
      DivideByWord(n, d, n1, n0, a, r, lo);
      NotAbove(n, d, lo + B32 * a);
      q := lo + B32 * a;
    } else if n < d {
      q := 0;
    } else {
      q := DivideLarge(n, d);
    }
  }

  /** The branch of the division for divisors of more than 32 bits. */
  method DivideLarge(n: uint64, d: uint64) returns (q: uint64)
    requires B32 <= d <= n
    ensures IsQuotient(n, d, q)
  {
    var s := Nlz(d / B32);
    NormalisedDivisor(n, d, s, d * Pow2(s) / B32);
    var v: uint32 := Wrap64(d * Pow2(s)) / B32;
    var wide := Divl(n / 2, v);
    var est: uint64 := Shr(wide, 31 - s);
    ghost var e := QuotientExists(n, d);
    ShrIsQuotient(wide, 31 - s);
    EstimateWithinOne(n, d, s, v, wide, est, e);
    q := Correct(n, d, est, e);
  }

  /** `n - (q - 1) * d < d ? q - 1 : q`, in wrapping 64-bit arithmetic. */
  method Correct(n: uint64, d: uint64, est: uint64, ghost e: int) returns (q: uint64)
    requires 0 < d <= n && IsQuotient(n, d, e) && e <= est <= e + 1
    ensures q == e
  {
    ChooseQuotient(n, d, est, e);
    var x := Wrap64(Wrap64(est - 1) * d);
    q := if Wrap64(n - x) < d then Wrap64(est - 1) else est;
  }

  /** C's signed quotient (section 6.5.5 of ISO/IEC 9899:1999) truncates toward zero: the
      remainder is smaller than the divisor and never has the sign opposite to the dividend. */
  ghost predicate IsTruncated(n: int, d: int, q: int) {
    var r := n - q * d;
    Abs(r) < Abs(d) && (r == 0 || (r < 0 <==> n < 0))
  }

  function Abs(x: int): nat { if x < 0 then -x else x }

  /** Truncated division is floor division of the magnitudes, with the sign put back. */
  lemma TruncatedByMagnitude(n: int, d: int, q: int)
    requires d != 0
    ensures IsTruncated(n, d, q) <==> IsQuotient(Abs(n), Abs(d), if (n < 0) == (d < 0) then q else -q)
  {
    assert (-q) * d == -(q * d) && q * (-d) == -(q * d) && (-q) * (-d) == q * d;
  }

  /** Signed 64-bit division: right for every representable quotient, and wrong exactly
      on INT64_MIN / -1, whose quotient 2^63 is not an int64. */
  method Sdiv64(n: int64, d: int64) returns (q: int64)
    requires d != 0
    ensures IsTruncated(n, d, q) <==> !(n == -B63 && d == -1)
    ensures n == -B63 && d == -1 ==> q == n
  {
    var nAbs: uint64 := if n >= 0 then n else Wrap64(0 - n);
    var dAbs: uint64 := if d >= 0 then d else Wrap64(0 - d);
    var qAbs := Udiv64(nAbs, dAbs);
    OnlyOverflow(n, d, qAbs);
    q := if (n < 0) == (d < 0) then ToSigned(qAbs) else ToSigned(Wrap64(0 - ToSigned(qAbs)));
    SignedResult(n, d, qAbs, q);
  }

  lemma OnlyOverflow(n: int, d: int, q: int)
    requires -B63 <= n < B63 && -B63 <= d < B63 && d != 0 && IsQuotient(Abs(n), Abs(d), q)
    ensures 0 <= q <= B63
    ensures q == B63 <==> n == -B63 && (d == 1 || d == -1)
  {
    NotAbove(Abs(n), Abs(d), q);
    QuotientAtLeast(Abs(n), Abs(d), q, B63);
    if Abs(d) >= 2 { MulMono(2, Abs(d), B63); }
  }

  lemma SignedResult(n: int, d: int, m: int, q: int)
    requires -B63 <= n < B63 && -B63 <= d < B63 && d != 0
    requires IsQuotient(Abs(n), Abs(d), m) && 0 <= m <= B63
    requires m == B63 <==> n == -B63 && (d == 1 || d == -1)
    requires q == if (n < 0) == (d < 0) && m < B63 then m else -m
    ensures IsTruncated(n, d, q) <==> !(n == -B63 && d == -1)
  {
    TruncatedByMagnitude(n, d, q);
    if n == -B63 && d == -1 && IsTruncated(n, d, q) {
      QuotientUnique(Abs(n), Abs(d), m, q);
    }
  }

  /** The remainder routine returns a 32-bit word, so it is the remainder exactly when
      the remainder fits in 32 bits. */
  method Umod64(n: uint64, d: uint64) returns (r: uint32)
    requires d != 0
    ensures r == n % d % B32 && (r == n % d <==> n % d < B32)
  {
    var q := Udiv64(n, d);
    RemainderOf(n, d, q);
    MulMono(0, q, d);
    assert d * q == q * d;
    r := Wrap64(n - Wrap64(d * q)) % B32;
  }

  lemma RemainderOf(n: int, d: int, q: int)
    requires d > 0 && IsQuotient(n, d, q)
    ensures n % d == n - q * d
  {
    QuotientIsFloor(n, d, q);
    assert n == d * (n / d) + n % d;
  }

  /** C's signed remainder: that of the magnitudes, with the sign of the dividend. */
  function Rem(n: int, d: int): int
    requires d != 0
  {
    if n >= 0 then n % Abs(d) else -((-n) % Abs(d))
  }

  lemma TruncatedRemainder(n: int, d: int, q: int)
    requires d != 0 && IsTruncated(n, d, q)
    ensures n - q * d == Rem(n, d)
  {
    hide IsTruncated, IsQuotient;
    TruncatedByMagnitude(n, d, q);
    var m := if (n < 0) == (d < 0) then q else -q;
    RemainderOf(Abs(n), Abs(d), m);
    SignOut(n, d, q, m);
  }

  lemma SignOut(n: int, d: int, q: int, m: int)
    requires m == if (n < 0) == (d < 0) then q else -q
    ensures m * Abs(d) == if n < 0 then -(q * d) else q * d
  {
    assert (-q) * d == -(q * d) && q * (-d) == -(q * d) && (-q) * (-d) == q * d;
  }

  /** Conversion to a 32-bit two's complement integer. */
  function ToSigned32(x: int): (r: int)
    ensures -0x8000_0000 <= r < 0x8000_0000
  {
    if x % B32 < 0x8000_0000 then x % B32 else x % B32 - B32
  }

  lemma LowWord(x: int)
    ensures ToSigned32(Wrap64(x)) == ToSigned32(x)
    ensures -0x8000_0000 <= x < 0x8000_0000 ==> ToSigned32(x) == x
  {
    assert x == x / B64 * B64 + x % B64;
    assert x % B64 % B32 == x % B32;
  }

  lemma WrapTwice(n: int, x: int)
    ensures Wrap64(n - Wrap64(x)) == Wrap64(n - x)
  {
    var k := x / B64;
    assert n - x % B64 == n - x + k * B64;
    WrapMore(n - x, k);
  }

  lemma WrapMore(x: int, k: int)
    ensures Wrap64(x + k * B64) == Wrap64(x)
  {}

  /** Signed remainder, in wrapping 64-bit arithmetic and then cut to an int: the remainder exactly
      when that fits, INT64_MIN % -1 included although its quotient is wrong. */
  method Smod64(n: int64, d: int64) returns (r: int)
    requires d != 0
    ensures r == ToSigned32(Rem(n, d)) && (r == Rem(n, d) <==> -0x8000_0000 <= Rem(n, d) < 0x8000_0000)
    ensures n == -B63 && d == -1 ==> r == 0
  {
    var q := Sdiv64(n, d);
    assert d * q == q * d;
    if n != -B63 || d != -1 {
      TruncatedRemainder(n, d, q);
    }
    WrapTwice(n, d * q);
    LowWord(n - d * q);
    r := ToSigned32(Wrap64(n - Wrap64(d * q)));
  }
}

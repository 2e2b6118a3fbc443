/** ustar archive headers (src/lib/ustar.c): 512 bytes made of the fields of struct ustar_header. */
module Ustar {
  import opened Bytes
  import opened Division64
  import opened Octal
  import opened Options

  const HEADER_SIZE := 512

  datatype Type = Regular | Directory

  function TypeByte(t: Type): byte { if t.Regular? then 48 else 53 }

  /** What ustar_parse_header finds: an entry, the end of the archive, or an error message. */
  datatype Parsed = Entry(name: seq<byte>, kind: Type, size: nat) | EndOfArchive | Invalid(message: string)

  // ---- Names ----

  const SLASH: byte := 47
  const DOT: byte := 46

  predicate StartsWith(s: seq<byte>, p: seq<byte>) { |p| <= |s| && s[..|p|] == p }

  predicate Antisocial(s: seq<byte>) {
    StartsWith(s, [SLASH]) || StartsWith(s, [DOT, SLASH]) || StartsWith(s, [DOT, DOT, SLASH])
  }

  /** The suffix behind the first slash. */
  function AfterSlash(s: seq<byte>): (r: seq<byte>)
    requires SLASH in s
    ensures |r| < |s| && r == s[|s| - |r|..]
  {
    if s[0] == SLASH then s[1..] else AfterSlash(s[1..])
  }

  function Strip(s: seq<byte>): (r: seq<byte>)
    decreases |s|
  {
    if Antisocial(s) then
      HasSlash(s);
      Strip(AfterSlash(s))
    else if s == [] || s == [DOT, DOT] then [DOT]
    else s
  }

  lemma HasSlash(s: seq<byte>)
    requires Antisocial(s)
    ensures SLASH in s
  {
    if StartsWith(s, [SLASH]) {
      assert s[..1][0] == SLASH;
    } else if StartsWith(s, [DOT, SLASH]) {
      assert s[..2][1] == SLASH;
    } else {
      assert s[..3][2] == SLASH;
    }
  }

  /** p is made of "/", "./" and "../". */
  ghost predicate Prefixes(p: seq<byte>) {
    || p == []
    || (|p| >= 1 && p[..1] == [SLASH] && Prefixes(p[1..]))
    || (|p| >= 2 && p[..2] == [DOT, SLASH] && Prefixes(p[2..]))
    || (|p| >= 3 && p[..3] == [DOT, DOT, SLASH] && Prefixes(p[3..]))
  }

  /** r is what is left of s behind its first k bytes, which are all such prefixes and as many as
      there are; "." stands for nothing left and for "..". */
  ghost predicate Cut(s: seq<byte>, r: seq<byte>, k: nat) {
    && k <= |s| && Prefixes(s[..k])
    && var t := s[k..];
       && !(|t| > 0 && t[0] == SLASH) && !(|t| > 1 && t[0] == DOT && t[1] == SLASH)
       && !(|t| > 2 && t[0] == DOT && t[1] == DOT && t[2] == SLASH)
       && r == if t == [] || t == [DOT, DOT] then [DOT] else t
  }

  /** What is behind the first slash, in the three cases. */
  lemma FirstPrefix(s: seq<byte>) returns (n: nat)
    requires Antisocial(s)
    ensures SLASH in s && 1 <= n <= 3 && n <= |s| && AfterSlash(s) == s[n..] && s[..n] == [DOT, DOT, SLASH][3 - n..]
  {
    HasSlash(s);
    var p := [DOT, DOT, SLASH];
    if StartsWith(s, [SLASH]) {
      n := 1;
      assert s[..1][0] == SLASH && p[2..] == [SLASH];
    } else if StartsWith(s, [DOT, SLASH]) {
      n := 2;
      assert s[..2][0] == DOT && s[..2][1] == SLASH && p[1..] == [DOT, SLASH];
      assert s[1..][0] == SLASH && s[1..][1..] == s[2..];
    } else {
      n := 3;
      assert s[..3][0] == DOT && s[..3][1] == DOT && s[..3][2] == SLASH && p[0..] == p;
      assert s[1..][1..] == s[2..] && s[2..][0] == SLASH && s[2..][1..] == s[3..];
      assert s[1..][0] == DOT && AfterSlash(s[1..]) == AfterSlash(s[2..]);
    }
  }

  lemma OnePrefixMore(p: seq<byte>, n: nat)
    requires 1 <= n <= 3 && n <= |p| && p[..n] == [DOT, DOT, SLASH][3 - n..] && Prefixes(p[n..])
    ensures Prefixes(p)
  {}

  lemma CutMore(s: seq<byte>, r: seq<byte>, n: nat, m: nat)
    requires 1 <= n <= 3 && n <= |s| && s[..n] == [DOT, DOT, SLASH][3 - n..] && Cut(s[n..], r, m)
    ensures Cut(s, r, n + m)
  {
    hide Prefixes;
    var rest, k := s[n..], n + m;
    assert s[..k][..n] == s[..n] && s[..k][n..] == rest[..m];
    OnePrefixMore(s[..k], n);
    assert s[k..] == rest[m..];
  }

  lemma CutNothing(s: seq<byte>)
    requires !Antisocial(s)
    ensures Cut(s, Strip(s), 0)
  {
    assert s[0..] == s;
    assert |s| > 0 ==> s[..1] == [s[0]];
    assert |s| > 1 ==> s[..2] == [s[0], s[1]];
    assert |s| > 2 ==> s[..3] == [s[0], s[1], s[2]];
  }

  lemma {:induction false} StripCuts(s: seq<byte>) returns (k: nat)
    ensures Cut(s, Strip(s), k)
    decreases |s|
  {
    hide Cut, Antisocial;
    if Antisocial(s) {
      var n := FirstPrefix(s);
      var m := StripCuts(s[n..]);
      CutMore(s, Strip(s), n, m);
      k := n + m;
    } else {
      CutNothing(s);
      k := 0;
    }
  }

  /** strip_antisocial_prefixes. */
  method StripAntisocialPrefixes(name: seq<byte>) returns (r: seq<byte>)
    ensures r == Strip(name)
    ensures exists k: nat :: Cut(name, r, k)
  {
    hide Cut;
    ghost var k := StripCuts(name);
    r := name;
    while StartsWith(r, [SLASH]) || StartsWith(r, [DOT, SLASH]) || StartsWith(r, [DOT, DOT, SLASH])
      invariant Strip(r) == Strip(name)
      decreases |r|
    {
      HasSlash(r);
      r := AfterSlash(r);
    }
    if r == [] || r == [DOT, DOT] {
      r := [DOT];
    }
  }

  /** A stripped name is not empty, is not "..", does not start with "/", "./" or "../", and
      stripping it again changes nothing. */
  lemma {:induction false} StripIsSafe(s: seq<byte>)
    ensures Strip(s) != [] && Strip(s) != [DOT, DOT] && !Antisocial(Strip(s)) && Strip(Strip(s)) == Strip(s)
    decreases |s|
  {
    if Antisocial(s) {
      HasSlash(s);
      StripIsSafe(AfterSlash(s));
    } else {
      assert [DOT][..1][0] == DOT;
      assert !Antisocial([DOT]);
    }
  }

  predicate NoNul(s: seq<byte>) { forall i | 0 <= i < |s| :: s[i] != 0 }

  lemma {:induction false} StripNoNul(s: seq<byte>)
    requires NoNul(s)
    ensures NoNul(Strip(s))
    decreases |s|
  {
    if Antisocial(s) {
      HasSlash(s);
      StripNoNul(AfterSlash(s));
    }
  }

  /** The string that starts a field: its bytes up to the first null byte. */
  function CString(s: seq<byte>): (r: seq<byte>)
    ensures |r| <= |s| && r == s[..|r|] && (forall i | 0 <= i < |r| :: s[i] != 0) && (|r| < |s| ==> s[|r|] == 0)
  {
    if s == [] || s[0] == 0 then [] else [s[0]] + CString(s[1..])
  }

  lemma {:induction false} CStringOfPadded(s: seq<byte>, n: nat)
    requires NoNul(s)
    ensures CString(s + Zeros(n)) == s
  {
    if s != [] {
      CStringOfPadded(s[1..], n);
      assert (s + Zeros(n))[1..] == s[1..] + Zeros(n);
    }
  }

  // ---- Headers as fields ----

  /** name, mode, uid, gid, size, mtime, chksum, typeflag, linkname, magic, version, uname,
      gname, devmajor, devminor, prefix, padding. */
  const LENGTHS: seq<nat> := [100, 8, 8, 8, 12, 12, 8, 1, 100, 6, 2, 32, 32, 8, 8, 155, 12]

  const NAME := 0
  const MODE := 1
  const UID := 2
  const GID := 3
  const SIZE := 4
  const MTIME := 5
  const CHKSUM := 6
  const TYPEFLAG := 7
  const MAGIC := 9
  const VERSION := 10
  const UNAME := 11
  const GNAME := 12
  const PREFIX := 15

  function Offset(i: nat): nat
    requires i <= |LENGTHS|
  {
    if i == 0 then 0 else Offset(i - 1) + LENGTHS[i - 1]
  }

  /** Where the fields start. */
  lemma Offsets()
    ensures Offset(MODE) == 100 && Offset(UID) == 108 && Offset(GID) == 116 && Offset(SIZE) == 124
    ensures Offset(MTIME) == 136
    ensures Offset(CHKSUM) == 148 && Offset(TYPEFLAG) == 156 && Offset(8) == 157 && Offset(MAGIC) == 257
  {
    assert Offset(0) == 0;
    assert Offset(1) == 100;
    assert Offset(2) == 108;
    assert Offset(3) == 116;
    assert Offset(4) == 124;
    assert Offset(5) == 136;
    assert Offset(6) == 148;
    assert Offset(7) == 156;
    assert Offset(8) == 157;
  }

  lemma MoreOffsets()
    ensures Offset(VERSION) == 263 && Offset(UNAME) == 265 && Offset(GNAME) == 297 && Offset(13) == 329
    ensures Offset(14) == 337
    ensures Offset(PREFIX) == 345 && Offset(16) == 500 && Offset(17) == 512
  {
    Offsets();
    assert Offset(10) == 263;
    assert Offset(11) == 265;
    assert Offset(12) == 297;
    assert Offset(13) == 329;
    assert Offset(14) == 337;
    assert Offset(15) == 345;
    assert Offset(16) == 500;
  }

  lemma {:induction false} OffsetsGrow(i: nat, j: nat)
    requires i < j <= |LENGTHS|
    ensures Offset(i) + LENGTHS[i] <= Offset(j)
  {
    if i + 1 < j {
      OffsetsGrow(i, j - 1);
    }
  }

  /** Field i of a header. */
  function Field(h: seq<byte>, i: nat): (f: seq<byte>)
    requires |h| == HEADER_SIZE && i < |LENGTHS|
    ensures |f| == LENGTHS[i]
  {
    MoreOffsets();
    if i + 1 < 17 then
      OffsetsGrow(i + 1, 17);
      h[Offset(i)..Offset(i) + LENGTHS[i]]
    else h[Offset(i)..Offset(i) + LENGTHS[i]]
  }

  function Fields(h: seq<byte>): (fs: seq<seq<byte>>)
    requires |h| == HEADER_SIZE
    ensures |fs| == 17 && forall i | 0 <= i < 17 :: fs[i] == Field(h, i)
  {
    seq(17, i requires 0 <= i < 17 => Field(h, i))
  }

  lemma FieldEnds(i: nat)
    requires i < 17
    ensures Offset(i) + LENGTHS[i] <= HEADER_SIZE
  {
    MoreOffsets();
    OffsetsGrow(i, 17);
  }

  /** Writing at the start of field i changes that field only. */
  lemma FieldOfPut(h: seq<byte>, i: nat, b: seq<byte>, j: nat)
    requires |h| == HEADER_SIZE && i < 17 && j < 17 && |b| <= LENGTHS[i] && Offset(i) + |b| <= HEADER_SIZE
    ensures Field(Patched(h, Offset(i), b), j) == if i == j then b + Field(h, i)[|b|..] else Field(h, j)
  {
    hide Offset, Patched;
    FieldEnds(i);
    FieldEnds(j);
    if i == j {
      PatchedHere(h, Offset(i), b, LENGTHS[i]);
    } else {
      if i < j {
        OffsetsGrow(i, j);
      } else {
        OffsetsGrow(j, i);
      }
      PatchedElsewhere(h, Offset(i), b, Offset(j), LENGTHS[j]);
    }
  }

  lemma FieldsOfPut(h: seq<byte>, i: nat, b: seq<byte>)
    requires |h| == HEADER_SIZE && i < 17 && |b| <= LENGTHS[i]
    ensures Offset(i) + |b| <= HEADER_SIZE
    ensures Fields(Patched(h, Offset(i), b)) == Fields(h)[i := b + Fields(h)[i][|b|..]]
  {
    hide Offset, Patched, Field;
    FieldEnds(i);
    forall j: nat | j < 17 ensures Fields(Patched(h, Offset(i), b))[j] == Fields(h)[i := b + Fields(h)[i][|b|..]][j] {
      FieldOfPut(h, i, b, j);
    }
  }

  // ---- The checksum ----

  function InChksum(i: nat): bool { 148 <= i < 156 }

  function SumTo(h: seq<byte>, n: nat): (s: nat)
    requires n <= |h|
    ensures s <= 255 * n
  {
    if n == 0 then 0 else SumTo(h, n - 1) + if InChksum(n - 1) then SPACE else h[n - 1]
  }

  function Chksum(h: seq<byte>): nat
    requires |h| == HEADER_SIZE
  {
    SumTo(h, HEADER_SIZE)
  }

  /** The sum of some bytes. */
  function ByteSum(s: seq<byte>): nat { if s == [] then 0 else s[0] + ByteSum(s[1..]) }

  lemma {:induction false} ByteSumAppend(s: seq<byte>, b: byte)
    ensures ByteSum(s + [b]) == ByteSum(s) + b
  {
    if s == [] {
      assert [b][1..] == [];
    } else {
      ByteSumAppend(s[1..], b);
      assert (s + [b])[1..] == s[1..] + [b];
    }
  }

  /** The part from m up to n adds up to its bytes, or to as many spaces if it lies in the field. */
  lemma {:induction false} SumOfPart(h: seq<byte>, m: nat, n: nat)
    requires m <= n <= |h| && (n <= 148 || 156 <= m || (148 <= m && n <= 156))
    ensures SumTo(h, n) == SumTo(h, m) + if 148 <= m && n <= 156 then (n - m) * SPACE else ByteSum(h[m..n])
  {
    if m < n {
      SumOfPart(h, m, n - 1);
      assert h[m..n] == h[m..n - 1] + [h[n - 1]];
      ByteSumAppend(h[m..n - 1], h[n - 1]);
    }
  }

  /** Eight spaces for the field, and every other byte of the header. */
  lemma ChksumMeans(h: seq<byte>)
    requires |h| == HEADER_SIZE
    ensures Chksum(h) == ByteSum(h[..148]) + 8 * 32 + ByteSum(h[156..])
  {
    hide ByteSum;
    SumOfPart(h, 0, 148);
    SumOfPart(h, 148, 156);
    SumOfPart(h, 156, 512);
    assert h[0..148] == h[..148] && h[156..512] == h[156..];
  }

  lemma {:induction false} NothingToAdd(s: seq<byte>)
    requires forall i | 0 <= i < |s| :: s[i] == 0
    ensures ByteSum(s) == 0
  {
    if s != [] {
      NothingToAdd(s[1..]);
    }
  }

  lemma ChksumOfZeros()
    ensures Chksum(Zeros(HEADER_SIZE)) == 256
  {
    hide SumTo;
    var h := Zeros(HEADER_SIZE);
    ChksumMeans(h);
    NothingToAdd(h[..148]);
    NothingToAdd(h[156..]);
  }

  /** calculate_chksum. */
  method CalculateChksum(h: seq<byte>) returns (chksum: nat)
    requires |h| == HEADER_SIZE
    ensures chksum == Chksum(h) == ByteSum(h[..148]) + 8 * 32 + ByteSum(h[156..])
  {
    ChksumMeans(h);
    chksum := 0;
    var i := 0;
    while i < HEADER_SIZE
      invariant 0 <= i <= HEADER_SIZE && chksum == SumTo(h, i)
    {
      chksum := chksum + if 148 <= i < 156 then SPACE else h[i];
      i := i + 1;
    }
  }

  lemma {:induction false} SumChange(h: seq<byte>, i: nat, b: byte, n: nat)
    requires i < |h| && n <= |h|
    ensures SumTo(h[i := b], n) == SumTo(h, n) + if i < n && !InChksum(i) then b - h[i] else 0
  {
    if n > 0 {
      SumChange(h, i, b, n - 1);
    }
  }

  lemma {:induction false} SumIgnoresField(h: seq<byte>, g: seq<byte>, n: nat)
    requires |h| == |g| && n <= |h| && forall k: nat | k < |h| && !InChksum(k) :: h[k] == g[k]
    ensures SumTo(h, n) == SumTo(g, n)
  {
    if n > 0 {
      SumIgnoresField(h, g, n - 1);
    }
  }

  // ---- Parsing ----

  const USTAR_MAGIC: seq<byte> := [117, 115, 116, 97, 114, 0]

  predicate AllZeros(h: seq<byte>) { forall i | 0 <= i < |h| :: h[i] == 0 }

  function Parse(h: seq<byte>): Parsed
    requires |h| == HEADER_SIZE
  {
    if AllZeros(h) then EndOfArchive
    else if Field(h, MAGIC) != USTAR_MAGIC then Invalid("not a ustar archive")
    else if Field(h, VERSION) != [48, 48] then Invalid("invalid ustar version")
    else if ParseField(Field(h, CHKSUM)).None? then Invalid("corrupt chksum field")
    else if ParseField(Field(h, CHKSUM)) != Some(Chksum(h)) then Invalid("checksum mismatch")
    else
      assert LENGTHS[NAME] == 100 && LENGTHS[PREFIX] == 155 && LENGTHS[TYPEFLAG] == 1;
      if Field(h, NAME)[99] != 0 || Field(h, PREFIX)[0] != 0 then Invalid("file name too long")
      else
      var t := Field(h, TYPEFLAG)[0];
      var name := Strip(CString(Field(h, NAME)));
      if t == TypeByte(Directory) then Entry(name, Directory, 0)
      else if t != TypeByte(Regular) then Invalid("unimplemented file type")
      else
        match ParseField(Field(h, SIZE))
        case None => Invalid("corrupt file size field")
        case Some(n) => if n > 0x7FFF_FFFF then Invalid("file too large") else Entry(name, Regular, n)
  }

  /** is_all_zeros. */
  method IsAllZeros(h: seq<byte>) returns (yes: bool)
    ensures yes <==> AllZeros(h)
  {
    var i := 0;
    while i < |h|
      invariant i <= |h| && forall k | 0 <= k < i :: h[k] == 0
    {
      if h[i] != 0 {
        return false;
      }
      i := i + 1;
    }
    return true;
  }

  /** The fields that are looked at, as bytes of the header. */
  lemma FieldsAt(h: seq<byte>)
    requires |h| == HEADER_SIZE
    ensures Field(h, NAME) == h[..100] && Field(h, SIZE) == h[124..136] && Field(h, CHKSUM) == h[148..156]
    ensures Field(h, TYPEFLAG) == [h[156]] && Field(h, MAGIC) == h[257..263] && Field(h, VERSION) == h[263..265]
    ensures Field(h, PREFIX) == h[345..500]
    ensures Field(h, MODE) == h[100..108] && Field(h, UID) == h[108..116] && Field(h, GID) == h[116..124]
    ensures Field(h, MTIME) == h[136..148] && Field(h, UNAME) == h[265..297] && Field(h, GNAME) == h[297..329]
    ensures Field(h, 8) == h[157..257] && Field(h, 13) == h[329..337] && Field(h, 14) == h[337..345]
    ensures Field(h, 16) == h[500..512]
  {
    hide Offset;
    NoOffset();
    Offsets();
    MoreOffsets();
  }

  lemma NoOffset()
    ensures Offset(NAME) == 0
  {}

  /** The header names its format and its checksum is right. */
  ghost predicate Genuine(h: seq<byte>)
    requires |h| == HEADER_SIZE
  {
    && h[257..263] == [117, 115, 116, 97, 114, 0] && h[263] == 48 && h[264] == 48
    && ParseField(h[148..156]) == Some(ByteSum(h[..148]) + 8 * 32 + ByteSum(h[156..]))
  }

  /** The errors found before the header is known to be genuine, and the end of the archive. */
  ghost predicate NotGenuineAs(h: seq<byte>, r: Parsed)
    requires |h| == HEADER_SIZE
  {
    var magic, version := h[257..263] == [117, 115, 116, 97, 114, 0], h[263] == 48 && h[264] == 48;
    var sum := ParseField(h[148..156]);
    && (r == EndOfArchive <==> forall i | 0 <= i < |h| :: h[i] == 0)
    && (r == Invalid("not a ustar archive") <==> !magic && exists i :: 0 <= i < |h| && h[i] != 0)
    && (r == Invalid("invalid ustar version") <==> magic && !version)
    && (r == Invalid("corrupt chksum field") <==> magic && version && sum.None?)
    && (r == Invalid("checksum mismatch") <==> magic && version && sum.Some? && !Genuine(h))
  }

  /** What a genuine header is: too long a name, of a type that is not handled, too large, or an entry. */
  ghost predicate GenuineAs(h: seq<byte>, r: Parsed)
    requires |h| == HEADER_SIZE && Genuine(h)
  {
    var size := ParseField(h[124..136]);
    if h[99] != 0 || h[345] != 0 then r == Invalid("file name too long")
    else if h[156] == 53 then r == Entry(Strip(CString(h[..100])), Directory, 0)
    else if h[156] != 48 then r == Invalid("unimplemented file type")
    else if size.None? then r == Invalid("corrupt file size field")
    else if size.value > 0x7FFF_FFFF then r == Invalid("file too large")
    else r == Entry(Strip(CString(h[..100])), Regular, size.value)
  }

  lemma ParseOfOther(h: seq<byte>)
    requires |h| == HEADER_SIZE
    ensures NotGenuineAs(h, Parse(h))
  {
    hide Offset, SumTo, Strip, CString, ParseFrom, ByteSum, Field, Chksum, ParseField;
    FieldsAt(h);
    ChksumMeans(h);
    VersionBytes(h);
  }

  lemma VersionBytes(h: seq<byte>)
    requires |h| == HEADER_SIZE
    ensures h[263..265] == [48, 48] <==> h[263] == 48 && h[264] == 48
    ensures h[257..263] == USTAR_MAGIC ==> h[257] != 0
    ensures h[345..500][0] == h[345] && h[..100][99] == h[99]
  {
    assert h[263..265][0] == h[263] && h[263..265][1] == h[264];
    assert h[257..263][0] == h[257];
  }

  lemma ParseOfGenuine(h: seq<byte>)
    requires |h| == HEADER_SIZE
    ensures Genuine(h) ==> GenuineAs(h, Parse(h))
  {
    hide Offset, SumTo, Strip, CString, ParseFrom, ByteSum, Field, Chksum, ParseField;
    FieldsAt(h);
    ChksumMeans(h);
    VersionBytes(h);
  }

  /** ustar_parse_header. */
  method ParseHeader(h: seq<byte>) returns (r: Parsed)
    requires |h| == HEADER_SIZE
    ensures r == Parse(h) && NotGenuineAs(h, r) && (Genuine(h) ==> GenuineAs(h, r))
  {
    hide Offset, SumTo, Strip, CString, ParseFrom, ByteSum, NotGenuineAs, GenuineAs, Genuine, Chksum;
    ParseOfOther(h);
    ParseOfGenuine(h);
    var zeros := IsAllZeros(h);
    if zeros {
      return EndOfArchive;
    }
    if Field(h, MAGIC) != USTAR_MAGIC {
      return Invalid("not a ustar archive");
    }
    if Field(h, VERSION)[0] != 48 || Field(h, VERSION)[1] != 48 {
      assert Field(h, VERSION) != [48, 48];
      return Invalid("invalid ustar version");
    }
    assert Field(h, VERSION) == [48, 48];
    var chksum := ParseOctalField(Field(h, CHKSUM));
    if chksum.None? {
      return Invalid("corrupt chksum field");
    }
    var sum := CalculateChksum(h);
    if chksum.value != sum {
      return Invalid("checksum mismatch");
    }
    if Field(h, NAME)[99] != 0 || Field(h, PREFIX)[0] != 0 {
      return Invalid("file name too long");
    }
    var t := Field(h, TYPEFLAG)[0];
    if t != TypeByte(Regular) && t != TypeByte(Directory) {
      return Invalid("unimplemented file type");
    }
    var size := 0;
    if t == TypeByte(Regular) {
      var n := ParseOctalField(Field(h, SIZE));
      if n.None? {
        return Invalid("corrupt file size field");
      }
      if n.value > 0x7FFF_FFFF {
        return Invalid("file too large");
      }
      size := n.value;
    }
    var name := StripAntisocialPrefixes(CString(Field(h, NAME)));
    r := Entry(name, if t == TypeByte(Regular) then Regular else Directory, size);
  }

  /** Changing any one byte outside the chksum field of an accepted header, the end of the
      archive included, makes it rejected. */
  lemma OneByteChanged(h: seq<byte>, i: nat, b: byte)
    requires |h| == HEADER_SIZE && i < HEADER_SIZE && !InChksum(i) && b != h[i] && !Parse(h).Invalid?
    ensures Parse(h[i := b]).Invalid?
  {
    hide Offset, SumTo, Strip, CString, ParseFrom, Field;
    var g := h[i := b];
    SumChange(h, i, b, HEADER_SIZE);
    MagicBytes(h);
    MagicBytes(g);
    SameChksumField(h, i, b);
    if AllZeros(h) {
      assert g[i] != 0;
      assert g[257] == 0 || g[258] == 0;
    } else {
      assert g[257] != 0 || g[258] != 0;
    }
  }

  lemma MagicBytes(h: seq<byte>)
    requires |h| == HEADER_SIZE
    ensures Field(h, MAGIC) == USTAR_MAGIC ==> h[257] == 117 && h[258] == 115
  {
    Offsets();
    assert Field(h, MAGIC)[0] == h[257] && Field(h, MAGIC)[1] == h[258];
  }

  lemma SameChksumField(h: seq<byte>, i: nat, b: byte)
    requires |h| == HEADER_SIZE && i < HEADER_SIZE && !InChksum(i)
    ensures Field(h[i := b], CHKSUM) == Field(h, CHKSUM)
  {
    Offsets();
  }

  // ---- Making ----

  const ROOT: seq<byte> := [114, 111, 111, 116]
  const MTIME_VALUE: nat := 1136102400

  function OctalField(v: nat, width: nat): seq<byte> { Rendered(v, 8, width, true) + [0] }

  /** `%o` takes its int argument as unsigned. */
  function Unsigned(size: int): nat
    requires -0x8000_0000 <= size < 0x8000_0000
  {
    if size >= 0 then size else size + 0x1_0000_0000
  }

  /** The fields of a made header, the checksum field being chksum. */
  function MadeFields(name: seq<byte>, kind: Type, size: nat, chksum: seq<byte>): seq<seq<byte>>
    requires |name| <= 99
  {
    [name + Zeros(100 - |name|), OctalField(if kind.Regular? then 420 else 493, 7), OctalField(0, 7), OctalField(0, 7),
     OctalField(size, 11), OctalField(MTIME_VALUE, 11), chksum, [TypeByte(kind)], Zeros(100), USTAR_MAGIC, [48, 48],
     ROOT + Zeros(28), ROOT + Zeros(28), Zeros(8), Zeros(8), Zeros(155), Zeros(12)]
  }

  /** header is what ustar_make_header composes. */
  ghost predicate IsMade(h: seq<byte>, name: seq<byte>, kind: Type, size: nat) {
    |h| == HEADER_SIZE && |name| <= 99 && Fields(h) == MadeFields(name, kind, size, OctalField(Chksum(h), 7))
  }

  /** b is v in `width` octal digits and a null byte. */
  ghost predicate OctalText(b: seq<byte>, v: nat, width: nat) {
    && |b| == width + 1 && (forall i | 0 <= i < width :: 48 <= b[i] <= 55) && b[width] == 0
    && NumberIn(b[..width], 8) == v
  }

  /** A made header, byte by byte: the name, the mode 0644 or 0755 and so on. */
  ghost predicate MadeBytes(h: seq<byte>, name: seq<byte>, kind: Type, size: nat) {
    && |h| == HEADER_SIZE && |name| <= 99
    && h[..100] == name + Zeros(100 - |name|)
    && h[100..108] == [48, 48, 48, 48] + (if kind == Regular then [54, 52, 52] else [55, 53, 53]) + [0]
    && h[108..116] == [48, 48, 48, 48, 48, 48, 48, 0] && h[116..124] == [48, 48, 48, 48, 48, 48, 48, 0]
    && OctalText(h[124..136], size, 11) && OctalText(h[136..148], 1136102400, 11)
    && OctalText(h[148..156], ByteSum(h[..148]) + 8 * 32 + ByteSum(h[156..]), 7)
    && h[156] == (if kind == Regular then 48 else 53) && h[157..257] == Zeros(100)
    && h[257..265] == [117, 115, 116, 97, 114, 0, 48, 48]
    && h[265..297] == [114, 111, 111, 116] + Zeros(28) && h[297..329] == [114, 111, 111, 116] + Zeros(28)
    && h[329..] == Zeros(183)
  }

  lemma MadeMeans(h: seq<byte>, name: seq<byte>, kind: Type, size: nat)
    requires IsMade(h, name, kind, size) && size < 0x1_0000_0000
    ensures MadeBytes(h, name, kind, size)
  {
    hide Offset, SumTo, Strip, CString, ParseFrom, Field, Rendered, OctalField, ByteSum, Chksum, Zeros, OctalText;
    FieldsAt(h);
    ChksumMeans(h);
    SumBound(h);
    OctalFieldText(Chksum(h), 7);
    FixedFields();
    OctalFieldText(size, 11);
    OctalFieldText(MTIME_VALUE, 11);
    var fs := Fields(h);
    forall i | 0 <= i < 17 ensures fs[i] == Field(h, i) {}
    assert fs[TYPEFLAG] == [h[156]];
    Joined(h);
  }

  lemma Joined(h: seq<byte>)
    requires |h| == HEADER_SIZE
    ensures h[257..263] == USTAR_MAGIC && h[263..265] == [48, 48] ==> h[257..265] == [117, 115, 116, 97, 114, 0, 48, 48]
    ensures h[329..337] == Zeros(8) && h[337..345] == Zeros(8) && h[345..500] == Zeros(155) ==>
              h[500..512] == Zeros(12) ==> h[329..] == Zeros(183)
  {
    assert h[257..265] == h[257..263] + h[263..265];
    assert h[329..] == h[329..337] + h[337..345] + h[345..500] + h[500..512];
  }

  /** The numbers a header holds fit their fields. */
  lemma FitsField(v: nat)
    requires v < 0x1_0000_0000
    ensures Count(v, 8) <= 11 && (v < 0x20_0000 ==> Count(v, 8) <= 7)
  {
    Pow2Add(16, 16);
    Pow2Add(32, 1);
    Pow2Add(16, 5);
    Pow2Values();
    assert Pow2(5) == 32;
    CountOctal(v, 11);
    if v < 0x20_0000 {
      CountOctal(v, 7);
    }
  }

  lemma OctalFieldReads(v: nat, width: nat)
    requires v < 0x1_0000_0000 && (width == 11 || (width == 7 && v < 0x20_0000))
    ensures |OctalField(v, width)| == width + 1 && ParseField(OctalField(v, width)) == Some(v)
  {
    FitsField(v);
    RenderedZeroPadded(v, 8, width);
    FieldRoundTrip(v, width);
  }

  lemma OctalFieldText(v: nat, width: nat)
    requires v < 0x1_0000_0000 && (width == 11 || (width == 7 && v < 0x20_0000))
    ensures OctalText(OctalField(v, width), v, width)
  {
    hide Digits, Rendered, NumberIn;
    FitsField(v);
    RenderedZeroPadded(v, 8, width);
    DigitsMean(v, 8, width);
    assert OctalField(v, width)[..width] == Digits(v, 8, width);
  }

  /** The text of a number can be told by its digits. */
  lemma TextIs(v: nat, digits: seq<byte>)
    requires v < 0x20_0000 && |digits| == 7 && NumberIn(digits, 8) == v
    requires forall i | 0 <= i < 7 :: 48 <= digits[i] <= 55
    ensures OctalField(v, 7) == digits + [0]
  {
    hide OctalField, NumberIn;
    OctalFieldText(v, 7);
    OneOctal(OctalField(v, 7)[..7], digits);
  }

  lemma FixedFields()
    ensures OctalField(420, 7) == [48, 48, 48, 48, 54, 52, 52, 0]
    ensures OctalField(493, 7) == [48, 48, 48, 48, 55, 53, 53, 0]
    ensures OctalField(0, 7) == [48, 48, 48, 48, 48, 48, 48, 0]
  {
    hide OctalField;
    ThreeDigits(54, 52, 52);
    ThreeDigits(55, 53, 53);
    ThreeDigits(48, 48, 48);
    TextIs(420, [48, 48, 48, 48, 54, 52, 52]);
    TextIs(493, [48, 48, 48, 48, 55, 53, 53]);
    TextIs(0, [48, 48, 48, 48, 48, 48, 48]);
  }

  lemma ThreeDigits(a: byte, b: byte, c: byte)
    requires 48 <= a <= 55 && 48 <= b <= 55 && 48 <= c <= 55
    ensures NumberIn([48, 48, 48, 48, a, b, c], 8) == ((a - 48) * 8 + (b - 48)) * 8 + (c - 48)
  {
    assert [48, 48, 48, 48, a, b, c][..6] == [48, 48, 48, 48, a, b];
    assert [48, 48, 48, 48, a, b][..5] == [48, 48, 48, 48, a];
    assert [48, 48, 48, 48, a][..4] == [48, 48, 48, 48];
    assert [48, 48, 48, 48][..3] == [48, 48, 48];
    assert [48, 48, 48][..2] == [48, 48];
    assert [48, 48][..1] == [48];
    assert NumberIn([48], 8) == 0 && NumberIn([48, 48], 8) == 0 && NumberIn([48, 48, 48], 8) == 0;
    assert NumberIn([48, 48, 48, 48], 8) == 0 && NumberIn([48, 48, 48, 48, a], 8) == a - 48;
  }

  /** Parsing a made header gives back the name, the type and the size, or, where make was
      given a negative size for a regular file, that the file is too large. */
  lemma MakeThenParse(h: seq<byte>, name: seq<byte>, kind: Type, size: int)
    requires -0x8000_0000 <= size < 0x8000_0000 && NoNul(name) && IsMade(h, Strip(name), kind, Unsigned(size))
    ensures Parse(h) == if kind.Directory? then Entry(Strip(name), Directory, 0)
                        else if size >= 0 then Entry(Strip(name), Regular, size)
                        else Invalid("file too large")
  {
    hide Offset, SumTo, Strip, CString, ParseFrom, Field, Rendered, OctalField;
    var stored := Strip(name);
    StripIsSafe(name);
    StripNoNul(name);
    CStringOfPadded(stored, 100 - |stored|);
    OctalFieldReads(Unsigned(size), 11);
    SumBound(h);
    OctalFieldReads(Chksum(h), 7);
    var fs := Fields(h);
    assert fs[NAME] == Field(h, NAME) && fs[SIZE] == Field(h, SIZE) && fs[CHKSUM] == Field(h, CHKSUM);
    assert fs[MAGIC] == Field(h, MAGIC) && fs[VERSION] == Field(h, VERSION);
    assert fs[PREFIX] == Field(h, PREFIX) && fs[TYPEFLAG] == Field(h, TYPEFLAG);
    assert fs[NAME][99] == 0;
    MagicBytes(h);
    assert h[257] != 0;
  }

  lemma SumBound(h: seq<byte>)
    requires |h| == HEADER_SIZE
    ensures Chksum(h) <= 255 * 512 < 0x20_0000
  {}

  /** Bytes outside field i are the same. */
  ghost predicate Elsewhere(h: seq<byte>, g: seq<byte>, i: nat)
    requires i < 17 && |h| == |g| == HEADER_SIZE
  {
    forall k | 0 <= k < HEADER_SIZE && !(Offset(i) <= k < Offset(i) + LENGTHS[i]) :: g[k] == h[k]
  }

  /** Copies b into the header at field i, as strlcpy, snprintf and plain assignment do. */
  method WriteField(header: array<byte>, i: nat, b: seq<byte>)
    requires header.Length == HEADER_SIZE && i < 17 && |b| <= LENGTHS[i]
    modifies header
    ensures Fields(header[..]) == Fields(old(header[..]))[i := b + Fields(old(header[..]))[i][|b|..]]
    ensures Elsewhere(old(header[..]), header[..], i)
  {
    hide Offset, Field, Fields;
    ghost var h := header[..];
    FieldEnds(i);
    FieldsOfPut(h, i, b);
    var start := Offset(i);
    var k := 0;
    while k < |b|
      invariant k <= |b|
      invariant forall j | 0 <= j < HEADER_SIZE :: header[j] == if start <= j < start + k then b[j - start] else h[j]
    {
      header[start + k] := b[k];
      k := k + 1;
    }
    assert header[..] == Patched(h, start, b);
  }

  /** snprintf of one zero-padded octal number into field i. */
  method PrintOctal(header: array<byte>, i: nat, width: nat, v: nat)
    requires header.Length == HEADER_SIZE && i < 17 && width + 1 == LENGTHS[i] && (width == 7 || width == 11)
    requires v < 0x1_0000_0000 && (width == 7 ==> v < 0x20_0000)
    modifies header
    ensures Fields(header[..]) == Fields(old(header[..]))[i := OctalField(v, width)]
    ensures OctalText(Fields(header[..])[i], v, width) && Elsewhere(old(header[..]), header[..], i)
  {
    hide Offset, Field, Fields, Rendered, Pow2, Elsewhere, OctalText;
    Below64(v);
    OctalFieldReads(v, width);
    OctalFieldText(v, width);
    var text := FormatInteger(v, 8, width, true);
    var n := if |text| < LENGTHS[i] - 1 then |text| else LENGTHS[i] - 1;
    assert text[..n] == text;
    WriteField(header, i, text[..n] + [0]);
    WholeField(old(header[..]), i, OctalField(v, width));
  }

  lemma Below64(v: nat)
    requires v < 0x1_0000_0000
    ensures v < Pow2(64)
  {
    Pow2Values();
    Pow2Add(32, 32);
  }

  lemma WholeField(h: seq<byte>, i: nat, b: seq<byte>)
    requires |h| == HEADER_SIZE && i < 17 && |b| == LENGTHS[i]
    ensures |Fields(h)[i]| == |b| && b + Fields(h)[i][|b|..] == b
  {
    assert Fields(h)[i] == Field(h, i);
  }

  lemma ZeroFields(h: seq<byte>)
    requires |h| == HEADER_SIZE && AllZeros(h)
    ensures forall i: nat | i < 17 :: Fields(h)[i] == Zeros(LENGTHS[i])
  {
    forall i: nat | i < 17 ensures Fields(h)[i] == Zeros(LENGTHS[i]) {
      FieldEnds(i);
    }
  }

  /** strlcpy of a short string into a zeroed field. */
  lemma Padded(b: seq<byte>, n: nat)
    requires |b| < n
    ensures b + [0] + Zeros(n)[|b| + 1..] == b + Zeros(n - |b|)
  {}

  /** The fields up to the modification time. */
  method WriteNumbers(stored: seq<byte>, kind: Type, size: nat, header: array<byte>)
    requires |stored| <= 99 && size < 0x1_0000_0000 && header.Length == HEADER_SIZE
    requires Fields(header[..])[NAME] == Zeros(100)
    modifies header
    ensures Fields(header[..]) == Fields(old(header[..]))[NAME := stored + Zeros(100 - |stored|)]
      [MODE := OctalField(if kind == Regular then 420 else 493, 7)][UID := OctalField(0, 7)][GID := OctalField(0, 7)]
      [SIZE := OctalField(size, 11)][MTIME := OctalField(MTIME_VALUE, 11)]
  {
    hide Offset, Field, Fields, OctalField, Elsewhere, Zeros;
    Padded(stored, 100);
    WriteField(header, NAME, stored + [0]);
    PrintOctal(header, MODE, 7, if kind == Regular then 420 else 493);
    PrintOctal(header, UID, 7, 0);
    PrintOctal(header, GID, 7, 0);
    PrintOctal(header, SIZE, 11, size);
    PrintOctal(header, MTIME, 11, MTIME_VALUE);
  }

  /** The fields behind the checksum. */
  method WriteRest(kind: Type, header: array<byte>)
    requires header.Length == HEADER_SIZE && Fields(header[..])[GNAME] == Zeros(32)
    requires Fields(header[..])[UNAME] == Zeros(32)
    modifies header
    ensures Fields(header[..]) == Fields(old(header[..]))[TYPEFLAG := [TypeByte(kind)]][MAGIC := USTAR_MAGIC]
      [VERSION := [48, 48]][GNAME := ROOT + Zeros(28)][UNAME := ROOT + Zeros(28)]
  {
    hide Offset, Field, Fields, Elsewhere, Zeros;
    WholeField(header[..], TYPEFLAG, [TypeByte(kind)]);
    WriteField(header, TYPEFLAG, [TypeByte(kind)]);
    WholeField(header[..], MAGIC, USTAR_MAGIC);
    WriteField(header, MAGIC, USTAR_MAGIC);
    WholeField(header[..], VERSION, [48, 48]);
    WriteField(header, VERSION, [48, 48]);
    Padded(ROOT, 32);
    WriteField(header, GNAME, ROOT + [0]);
    WriteField(header, UNAME, ROOT + [0]);
  }

  /** The fields written before the checksum. */
  method WriteFields(stored: seq<byte>, kind: Type, size: nat, header: array<byte>)
    requires |stored| <= 99 && size < 0x1_0000_0000 && header.Length == HEADER_SIZE && AllZeros(header[..])
    modifies header
    ensures Fields(header[..]) == MadeFields(stored, kind, size, Zeros(8))
  {
    hide Offset, Field, Fields, OctalField, Elsewhere, MadeFields, Zeros;
    ghost var fs := Fields(header[..]);
    ZeroFields(header[..]);
    WriteNumbers(stored, kind, size, header);
    WriteRest(kind, header);
    AllWritten(fs, Fields(header[..]), stored, kind, size);
  }

  lemma AllWritten(fs: seq<seq<byte>>, gs: seq<seq<byte>>, stored: seq<byte>, kind: Type, size: nat)
    requires |fs| == 17 && |gs| == 17 && |stored| <= 99 && forall i: nat | i < 17 :: fs[i] == Zeros(LENGTHS[i])
    requires gs[NAME] == stored + Zeros(100 - |stored|)
    requires gs[MODE] == OctalField(if kind == Regular then 420 else 493, 7)
    requires gs[UID] == OctalField(0, 7) && gs[GID] == OctalField(0, 7) && gs[SIZE] == OctalField(size, 11)
    requires gs[MTIME] == OctalField(MTIME_VALUE, 11) && gs[CHKSUM] == fs[CHKSUM] && gs[TYPEFLAG] == [TypeByte(kind)]
    requires gs[8] == fs[8] && gs[MAGIC] == USTAR_MAGIC && gs[VERSION] == [48, 48]
    requires gs[UNAME] == ROOT + Zeros(28) && gs[GNAME] == ROOT + Zeros(28)
    requires gs[13] == fs[13] && gs[14] == fs[14] && gs[PREFIX] == fs[PREFIX] && gs[16] == fs[16]
    ensures gs == MadeFields(stored, kind, size, Zeros(8))
  {
    hide OctalField;
    var ms := MadeFields(stored, kind, size, Zeros(8));
    assert |ms| == 17;
    assert ms[8] == Zeros(100) && ms[13] == Zeros(8) && ms[14] == Zeros(8) && ms[15] == Zeros(155)
        && ms[16] == Zeros(12);
  }

  /** ustar_make_header: it succeeds exactly for names that strip to at most 99 bytes. */
  method MakeHeader(name: seq<byte>, kind: Type, size: int, header: array<byte>) returns (ok: bool)
    requires NoNul(name) && -0x8000_0000 <= size < 0x8000_0000 && header.Length == HEADER_SIZE
    modifies header
    ensures ok <==> |Strip(name)| <= 99
    ensures ok ==> IsMade(header[..], Strip(name), kind, Unsigned(size))
    ensures ok ==> MadeBytes(header[..], Strip(name), kind, if size >= 0 then size else size + 0x1_0000_0000)
    ensures !ok ==> header[..] == old(header[..])
  {
    hide Offset, Field, Fields, OctalField, SumTo, Strip, ByteSum, MadeBytes;
    var stored := StripAntisocialPrefixes(name);
    if |stored| > 99 {
      return false;
    }
    var i := 0;
    while i < HEADER_SIZE
      invariant 0 <= i <= HEADER_SIZE && forall k | 0 <= k < i :: header[k] == 0
    {
      header[i] := 0;
      i := i + 1;
    }
    WriteFields(stored, kind, Unsigned(size), header);
    ghost var h := header[..];
    var chksum := CalculateChksum(header[..]);
    SumBound(h);
    Offsets();
    PrintOctal(header, CHKSUM, 7, chksum);
    SumIgnoresField(h, header[..], HEADER_SIZE);
    MadeMeans(header[..], stored, kind, Unsigned(size));
    ok := true;
  }
}

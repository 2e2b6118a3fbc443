/** Bytes, and the sectors block devices are made of (src/devices/block.h). */
module Bytes {
  type byte = x: int | 0 <= x < 256

  const SECTOR_SIZE := 512

  type Sector = s: seq<byte> | |s| == SECTOR_SIZE witness Zeros(SECTOR_SIZE)

  function Zeros(n: nat): (z: seq<byte>)
    ensures |z| == n && forall i | 0 <= i < n :: z[i] == 0
  {
    seq(n, _ => 0)
  }

  /** s with b written over it at position `at`. */
  function Patched(s: seq<byte>, at: nat, b: seq<byte>): (r: seq<byte>)
    requires at + |b| <= |s|
    ensures |r| == |s| && r[at..at + |b|] == b
    ensures forall k | 0 <= k < |s| && !(at <= k < at + |b|) :: r[k] == s[k]
  {
    s[..at] + b + s[at + |b|..]
  }

  lemma PatchedElsewhere(s: seq<byte>, at: nat, b: seq<byte>, o: nat, n: nat)
    requires at + |b| <= |s| && o + n <= |s| && (o + n <= at || at + |b| <= o || n == 0 || |b| == 0)
    ensures Patched(s, at, b)[o..o + n] == s[o..o + n]
  {
    var x, y := Patched(s, at, b)[o..o + n], s[o..o + n];
    forall k | 0 <= k < n ensures x[k] == y[k] {
      assert Patched(s, at, b)[o + k] == s[o + k];
    }
  }

  lemma PatchedHere(s: seq<byte>, at: nat, b: seq<byte>, n: nat)
    requires |b| <= n && at + n <= |s|
    ensures Patched(s, at, b)[at..at + n] == b + s[at..at + n][|b|..]
  {
    var g, f := Patched(s, at, b), s[at..at + n];
    var x, y := g[at..at + n], b + f[|b|..];
    forall k | 0 <= k < n ensures x[k] == y[k] {
      if k < |b| {
        assert g[at + k] == g[at..at + |b|][k];
      } else {
        assert f[|b|..][k - |b|] == s[at + k];
      }
    }
  }
}

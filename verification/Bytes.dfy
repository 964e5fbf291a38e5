/** Sequences of bytes: file names, and files in their plain form. */
module Bytes {
  import opened Base

  type byte = x: int | 0 <= x < 256

  type Name = seq<byte>

  const SLASH: byte := 0x2F
  const DOT: Name := [0x2E]
  const DOT_DOT: Name := [0x2E, 0x2E]

  function Splice(s: seq<byte>, at: nat, b: seq<byte>): (r: seq<byte>)
    requires at + |b| <= |s|
    ensures |r| == |s|
  {
    s[..at] + b + s[at + |b|..]
  }

  lemma SpliceAt(s: seq<byte>, at: nat, b: seq<byte>, i: nat)
    requires at + |b| <= |s| && i < |s|
    ensures Splice(s, at, b)[i] == if at <= i < at + |b| then b[i - at] else s[i]
  {
  }

  function Zeros(n: nat): (z: seq<byte>)
    ensures |z| == n && forall i :: 0 <= i < n ==> z[i] == 0
  {
    seq(n, _ => 0)
  }

  // Reading what a splice did not touch, and what it wrote.
  lemma SpliceSlice(s: seq<byte>, at: nat, b: seq<byte>, lo: nat, hi: nat)
    requires at + |b| <= |s| && lo <= hi <= |s|
    ensures hi <= at || at + |b| <= lo ==> Splice(s, at, b)[lo..hi] == s[lo..hi]
    ensures lo == at && hi == at + |b| ==> Splice(s, at, b)[lo..hi] == b
  {
  }

  lemma SliceOfSlice(s: seq<byte>, from: nat, to: nat, lo: nat, hi: nat)
    requires from <= to <= |s| && lo <= hi <= to - from
    ensures s[from..to][lo..hi] == s[from + lo..from + hi]
  {
    var a, b := s[from..to][lo..hi], s[from + lo..from + hi];
    assert |a| == |b|;
    assert forall i :: 0 <= i < |a| ==> a[i] == b[i];
  }

  // Two neighbouring splices are one.
  lemma SpliceTwice(s: seq<byte>, at: nat, a: seq<byte>, b: seq<byte>)
    requires at + |a| + |b| <= |s|
    ensures Splice(Splice(s, at, a), at + |a|, b) == Splice(s, at, a + b)
  {
  }

  // ---------------------------------------------------------------- little-endian numbers

  function Le16(b0: nat, b1: nat): nat {
    b0 + 256 * b1
  }

  function Le32(b0: nat, b1: nat, b2: nat, b3: nat): nat {
    b0 + 256 * (b1 + 256 * (b2 + 256 * b3))
  }

  function ToLe16(v: nat): (b: seq<byte>)
    requires v < 0x1_0000
    ensures |b| == 2 && Le16(b[0], b[1]) == v
  {
    [v % 256, v / 256]
  }

  function ToLe32(v: nat): (b: seq<byte>)
    requires v < 0x1_0000_0000
    ensures |b| == 4 && Le32(b[0], b[1], b[2], b[3]) == v
  {
    var q1 := v / 256;
    var q2 := q1 / 256;
    var q3 := q2 / 256;
    [v % 256, q1 % 256, q2 % 256, q3]
  }

  // The number whose bytes these are, lowest first.
  function LeValue(s: seq<byte>): nat {
    if s == [] then 0 else s[0] + 256 * LeValue(s[1..])
  }

  lemma TwoBytes(v: nat)
    requires v < 0x1_0000
    ensures LeValue(ToLe16(v)) == v
  {
    var b := ToLe16(v);
    assert LeValue(b[1..]) == b[1] + 256 * LeValue(b[1..][1..]);
    assert b[1..][1..] == [];
  }

  lemma FourBytes(v: nat)
    requires v < 0x1_0000_0000
    ensures LeValue(ToLe32(v)) == v
  {
    var b := ToLe32(v);
    var t := b[1..][1..];
    assert LeValue(b) == b[0] + 256 * (b[1] + 256 * LeValue(t));
    assert t == [b[2], b[3]];
    assert LeValue(t[1..]) == b[3] + 256 * LeValue(t[1..][1..]);
    assert t[1..][1..] == [];
  }

  // ---------------------------------------------------------------- a plain file

  // `Vec::resize(n, 0)`.
  function FlatResize(s: seq<byte>, n: nat): (r: seq<byte>)
    ensures |r| == n
    ensures forall i :: 0 <= i < n ==> r[i] == if i < |s| then s[i] else 0
  {
    if n <= |s| then s[..n] else s + Zeros(n - |s|)
  }

  // A write as the Ram form does it: grow with zeros up to the end of the write, then copy.
  function FlatWrite(s: seq<byte>, offset: nat, b: seq<byte>): (r: seq<byte>)
    ensures b == [] ==> r == s
    ensures b != [] ==> |r| == Max(|s|, offset + |b|)
    ensures b != [] ==> forall i :: 0 <= i < |r| ==>
      r[i] == if offset <= i < offset + |b| then b[i - offset] else if i < |s| then s[i] else 0
  {
    if b == [] then s
    else
      var grown := if offset + |b| > |s| then FlatResize(s, offset + |b|) else s;
      grown[..offset] + b + grown[offset + |b|..]
  }
}

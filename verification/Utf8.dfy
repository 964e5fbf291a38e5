/** UTF-8 (RFC 3629): the check of a byte string, and what it checks for. */
module Utf8 {
  import opened Bytes

  // Well-formed UTF-8, by the byte ranges of section 4 of RFC 3629.
  predicate IsUtf8(s: seq<byte>)
    decreases |s|
  {
    s == [] || (var n := CharLength(s); n > 0 && IsUtf8(s[n..]))
  }

  predicate Tail(s: seq<byte>, i: nat, lo: nat, hi: nat) {
    i < |s| && lo <= s[i] <= hi
  }

  // Length of the character s begins with; 0 if there is none.
  function CharLength(s: seq<byte>): (n: nat)
    requires s != []
    ensures n <= |s|
  {
    var b := s[0];
    if b <= 0x7F then 1
    else if 0xC2 <= b <= 0xDF then (if Tail(s, 1, 0x80, 0xBF) then 2 else 0)
    else if 0xE0 <= b <= 0xEF then
      var lo := if b == 0xE0 then 0xA0 else 0x80;
      var hi := if b == 0xED then 0x9F else 0xBF;
      if Tail(s, 1, lo, hi) && Tail(s, 2, 0x80, 0xBF) then 3 else 0
    else if 0xF0 <= b <= 0xF4 then
      var lo := if b == 0xF0 then 0x90 else 0x80;
      var hi := if b == 0xF4 then 0x8F else 0xBF;
      if Tail(s, 1, lo, hi) && Tail(s, 2, 0x80, 0xBF) && Tail(s, 3, 0x80, 0xBF) then 4 else 0
    else 0
  }

  lemma {:induction false} AsciiIsUtf8(s: seq<byte>)
    requires forall i :: 0 <= i < |s| ==> s[i] <= 0x7F
    ensures IsUtf8(s)
  {
    if s != [] {
      AsciiIsUtf8(s[1..]);
    }
  }

  // ---------------------------------------------------------------- what the check is for

  // The numbers of characters: no surrogates, at most 0x10FFFF.
  predicate IsScalar(cp: nat) {
    cp < 0xD800 || 0xE000 <= cp < 0x11_0000
  }

  // The character's bytes, by section 3 of RFC 3629.
  function Encode(cp: nat): (s: seq<byte>)
    requires IsScalar(cp)
    ensures 1 <= |s| <= 4
  {
    if cp < 0x80 then [cp]
    else if cp < 0x800 then [0xC0 + cp / 64, 0x80 + cp % 64]
    else if cp < 0x1_0000 then [0xE0 + cp / 64 / 64, 0x80 + cp / 64 % 64, 0x80 + cp % 64]
    else [0xF0 + cp / 64 / 64 / 64, 0x80 + cp / 64 / 64 % 64, 0x80 + cp / 64 % 64, 0x80 + cp % 64]
  }

  function EncodeAll(cps: seq<nat>): seq<byte>
    requires forall i :: 0 <= i < |cps| ==> IsScalar(cps[i])
  {
    if cps == [] then [] else Encode(cps[0]) + EncodeAll(cps[1..])
  }

  // A first character by the check is the encoding of a character.
  lemma CharIsEncoded(s: seq<byte>) returns (cp: nat)
    requires s != [] && CharLength(s) > 0
    ensures IsScalar(cp) && Encode(cp) == s[..CharLength(s)]
  {
    var n, b0: int := CharLength(s), s[0];
    if n == 1 {
      return b0;
    }
    var b1: int := s[1];
    if n == 2 {
      return (b0 - 0xC0) * 64 + (b1 - 0x80);
    }
    var b2: int := s[2];
    if n == 3 {
      return ((b0 - 0xE0) * 64 + (b1 - 0x80)) * 64 + (b2 - 0x80);
    }
    var b3: int := s[3];
    return (((b0 - 0xF0) * 64 + (b1 - 0x80)) * 64 + (b2 - 0x80)) * 64 + (b3 - 0x80);
  }

  lemma EncodedIsChar(cp: nat, rest: seq<byte>)
    requires IsScalar(cp)
    ensures CharLength(Encode(cp) + rest) == |Encode(cp)|
  {
  }

  /** The check accepts exactly the strings that are characters one after the other. */
  lemma Utf8IsCharacters(s: seq<byte>)
    ensures IsUtf8(s) <==> exists cps: seq<nat> :: IsText(cps, s)
  {
    if IsUtf8(s) {
      var cps := Characters(s);
      assert IsText(cps, s);
    }
    if cps: seq<nat> :| IsText(cps, s) {
      TextIsUtf8(cps);
    }
  }

  ghost predicate IsText(cps: seq<nat>, s: seq<byte>) {
    (forall i :: 0 <= i < |cps| ==> IsScalar(cps[i])) && s == EncodeAll(cps)
  }

  lemma {:induction false} Characters(s: seq<byte>) returns (cps: seq<nat>)
    requires IsUtf8(s)
    ensures IsText(cps, s)
    decreases |s|
  {
    if s == [] {
      cps := [];
    } else {
      var n := CharLength(s);
      var cp := CharIsEncoded(s);
      var rest := Characters(s[n..]);
      cps := [cp] + rest;
      assert cps[1..] == rest && s == s[..n] + s[n..];
    }
  }

  lemma {:induction false} TextIsUtf8(cps: seq<nat>)
    requires forall i :: 0 <= i < |cps| ==> IsScalar(cps[i])
    ensures IsUtf8(EncodeAll(cps))
  {
    if cps != [] {
      hide CharLength, Encode;
      TextIsUtf8(cps[1..]);
      var s, rest := EncodeAll(cps), EncodeAll(cps[1..]);
      EncodedIsChar(cps[0], rest);
      assert s[|Encode(cps[0])|..] == rest;
    }
  }
}

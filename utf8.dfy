/**
 * UTF-8 as section 4 of RFC 3629 defines it, which is what Python's
 * `bytes.decode("utf-8")` accepts: no overlong forms, no surrogates, nothing
 * above U+10FFFF. A byte string is well formed exactly when it is the
 * encoding of a sequence of Unicode scalar values (EncodeIsWellFormed and
 * Decode below).
 */
module Utf8 {
  import opened Records
  import opened Arith

  predicate IsTail(b: Byte) { 0x80 <= b <= 0xBF }

  /**
   * The length of the well-formed character at the head of `s`, or 0 when
   * the head is not one (the UTF8-char rule of RFC 3629).
   */
  function CharLength(s: Bytes): (n: nat)
    ensures n <= 4 && n <= |s|
  {
    if |s| == 0 then 0
    else if s[0] <= 0x7F then 1
    else if 0xC2 <= s[0] <= 0xDF then
      (if |s| >= 2 && IsTail(s[1]) then 2 else 0)
    else if s[0] == 0xE0 then
      (if |s| >= 3 && 0xA0 <= s[1] <= 0xBF && IsTail(s[2]) then 3 else 0)
    else if 0xE1 <= s[0] <= 0xEC || 0xEE <= s[0] <= 0xEF then
      (if |s| >= 3 && IsTail(s[1]) && IsTail(s[2]) then 3 else 0)
    else if s[0] == 0xED then
      (if |s| >= 3 && 0x80 <= s[1] <= 0x9F && IsTail(s[2]) then 3 else 0)
    else if s[0] == 0xF0 then
      (if |s| >= 4 && 0x90 <= s[1] <= 0xBF && IsTail(s[2]) && IsTail(s[3]) then 4 else 0)
    else if 0xF1 <= s[0] <= 0xF3 then
      (if |s| >= 4 && IsTail(s[1]) && IsTail(s[2]) && IsTail(s[3]) then 4 else 0)
    else if s[0] == 0xF4 then
      (if |s| >= 4 && 0x80 <= s[1] <= 0x8F && IsTail(s[2]) && IsTail(s[3]) then 4 else 0)
    else 0
  }

  /** `s` is a sequence of well-formed characters (the UTF8-octets rule). */
  predicate WellFormed(s: Bytes)
    decreases |s|
  {
    s == [] || (CharLength(s) > 0 && WellFormed(s[CharLength(s)..]))
  }

  predicate IsScalar(cp: int) {
    0 <= cp <= 0x10FFFF && !(0xD800 <= cp <= 0xDFFF)
  }

  predicate AllScalars(cps: seq<int>) {
    forall i :: 0 <= i < |cps| ==> IsScalar(cps[i])
  }

  /** The shortest encoding of one scalar value (the table in section 3 of RFC 3629). */
  function EncodeChar(cp: int): (r: Bytes)
    requires IsScalar(cp)
    ensures 1 <= |r| <= 4
  {
    if cp <= 0x7F then [cp]
    else if cp <= 0x7FF then [0xC0 + cp / 64, 0x80 + cp % 64]
    else if cp <= 0xFFFF then [0xE0 + cp / 4096, 0x80 + (cp / 64) % 64, 0x80 + cp % 64]
    else [0xF0 + cp / 262144, 0x80 + (cp / 4096) % 64, 0x80 + (cp / 64) % 64, 0x80 + cp % 64]
  }

  /** The six-bit groups of a code point, most significant first. */
  lemma SixBitGroups(cp: int)
    requires cp >= 0
    ensures cp == 64 * (cp / 64) + cp % 64
    ensures cp == 4096 * (cp / 4096) + 64 * ((cp / 64) % 64) + cp % 64
    ensures cp == 262144 * (cp / 262144) + 4096 * ((cp / 4096) % 64) + 64 * ((cp / 64) % 64) + cp % 64
    ensures 0 <= cp % 64 < 64 && 0 <= (cp / 64) % 64 < 64 && 0 <= (cp / 4096) % 64 < 64
  {
    var q1 := cp / 64;
    DivisionUnique(cp, 4096, q1 / 64, 64 * (q1 % 64) + cp % 64);
    var q2 := cp / 4096;
    DivisionUnique(cp, 262144, q2 / 64, 4096 * (q2 % 64) + 64 * (q1 % 64) + cp % 64);
  }

  /** An encoded character is recognised as one character, whatever follows it. */
  lemma EncodeCharHead(cp: int, rest: Bytes)
    requires IsScalar(cp)
    ensures CharLength(EncodeChar(cp) + rest) == |EncodeChar(cp)|
  {
    SixBitGroups(cp);
    var s := EncodeChar(cp) + rest;
    assert s[..|EncodeChar(cp)|] == EncodeChar(cp);
  }

  function Encode(cps: seq<int>): (r: Bytes)
    requires AllScalars(cps)
  {
    if cps == [] then [] else EncodeChar(cps[0]) + Encode(cps[1..])
  }

  /** Every encoding is well formed. */
  lemma {:induction false} EncodeIsWellFormed(cps: seq<int>)
    requires AllScalars(cps)
    ensures WellFormed(Encode(cps))
  {
    if cps != [] {
      var head := EncodeChar(cps[0]);
      var s := Encode(cps);
      EncodeCharHead(cps[0], Encode(cps[1..]));
      assert s[|head|..] == Encode(cps[1..]);
      EncodeIsWellFormed(cps[1..]);
    }
  }

  /** The scalar value of the well-formed character at the head of `s`. */
  function DecodeChar(s: Bytes): (cp: int)
    requires CharLength(s) > 0
    ensures IsScalar(cp) && EncodeChar(cp) == s[..CharLength(s)]
  {
    var n := CharLength(s);
    var b0: int := s[0];
    if n == 1 then
      b0
    else
      var b1: int := s[1] - 0x80;
      if n == 2 then
        var cp := (b0 - 0xC0) * 64 + b1;
        DecodeFields(cp, 0, 0, b0 - 0xC0, b1);
        cp
      else
        var b2: int := s[2] - 0x80;
        if n == 3 then
          var cp := (b0 - 0xE0) * 4096 + b1 * 64 + b2;
          DecodeFields(cp, 0, b0 - 0xE0, b1, b2);
          cp
        else
          var b3: int := s[3] - 0x80;
          var cp := (b0 - 0xF0) * 262144 + b1 * 4096 + b2 * 64 + b3;
          DecodeFields(cp, b0 - 0xF0, b1, b2, b3);
          cp
  }

  /** The six-bit groups of `a * 262144 + b * 4096 + c * 64 + d` are `a`, `b`, `c`, `d`. */
  lemma DecodeFields(cp: int, a: int, b: int, c: int, d: int)
    requires 0 <= a < 64 && 0 <= b < 64 && 0 <= c < 64 && 0 <= d < 64
    requires cp == a * 262144 + b * 4096 + c * 64 + d
    ensures cp / 64 % 64 == c && cp % 64 == d
    ensures cp / 4096 % 64 == b && cp / 262144 == a
    ensures cp / 4096 == a * 64 + b && cp / 64 == a * 4096 + b * 64 + c
  {
    DivisionUnique(cp, 64, a * 4096 + b * 64 + c, d);
    DivisionUnique(cp, 4096, a * 64 + b, c * 64 + d);
    DivisionUnique(cp, 262144, a, b * 4096 + c * 64 + d);
    DivisionUnique(a * 4096 + b * 64 + c, 64, a * 64 + b, c);
    DivisionUnique(a * 64 + b, 64, a, b);
  }

  /**
   * What `bytes.decode("utf-8")` returns for a well-formed string: scalar
   * values whose encoding is the input again.
   */
  function Decode(s: Bytes): (cps: seq<int>)
    requires WellFormed(s)
    ensures AllScalars(cps) && Encode(cps) == s
    decreases |s|
  {
    if s == [] then []
    else
      var n := CharLength(s);
      var cp := DecodeChar(s);
      var rest := Decode(s[n..]);
      assert s == s[..n] + s[n..];
      [cp] + rest
  }

  /** Decoding an encoding gives back the scalar values. */
  lemma {:induction false} DecodeEncode(cps: seq<int>)
    requires AllScalars(cps)
    ensures WellFormed(Encode(cps)) && Decode(Encode(cps)) == cps
  {
    EncodeIsWellFormed(cps);
    if cps != [] {
      var s := Encode(cps);
      var head := EncodeChar(cps[0]);
      EncodeCharHead(cps[0], Encode(cps[1..]));
      assert s[..|head|] == head && s[|head|..] == Encode(cps[1..]);
      EncodeCharInjective(DecodeChar(s), cps[0]);
      DecodeEncode(cps[1..]);
    }
  }

  /** Different scalar values have different encodings. */
  lemma EncodeCharInjective(a: int, b: int)
    requires IsScalar(a) && IsScalar(b) && EncodeChar(a) == EncodeChar(b)
    ensures a == b
  {
    SixBitGroups(a);
    SixBitGroups(b);
    var e := EncodeChar(a);
    if |e| == 2 {
      assert e[0] == 0xC0 + a / 64 == 0xC0 + b / 64 && e[1] == 0x80 + a % 64 == 0x80 + b % 64;
    } else if |e| == 3 {
      assert e[0] == 0xE0 + a / 4096 == 0xE0 + b / 4096;
      assert e[1] == 0x80 + (a / 64) % 64 == 0x80 + (b / 64) % 64;
      assert e[2] == 0x80 + a % 64 == 0x80 + b % 64;
    } else if |e| == 4 {
      assert e[0] == 0xF0 + a / 262144 == 0xF0 + b / 262144;
      assert e[1] == 0x80 + (a / 4096) % 64 == 0x80 + (b / 4096) % 64;
      assert e[2] == 0x80 + (a / 64) % 64 == 0x80 + (b / 64) % 64;
      assert e[3] == 0x80 + a % 64 == 0x80 + b % 64;
    }
  }

  /** A byte string is well formed exactly when some scalar values encode to it. */
  lemma WellFormedIffEncoding(s: Bytes)
    ensures WellFormed(s) <==> exists cps :: AllScalars(cps) && Encode(cps) == s
  {
    if WellFormed(s) {
      var cps := Decode(s);
      assert AllScalars(cps) && Encode(cps) == s;
    }
    if exists cps :: AllScalars(cps) && Encode(cps) == s {
      var cps :| AllScalars(cps) && Encode(cps) == s;
      EncodeIsWellFormed(cps);
    }
  }
}

/**
 The UTF-8 check that parsing a proto3 string makes: the byte ranges of section 4 of RFC 3629,
 proved to accept exactly the encodings of section 3.
 */
module Utf8 {
  import opened Basics

  // ---------------------------------------------------------------- the check, byte by byte

  predicate Tail(b: Byte) { 0x80 <= b <= 0xBF }

  /** Length of the well-formed character that starts `s`, or 0 if there is none. */
  function CharLength(s: Bytes): (n: nat)
    ensures n <= |s|
  {
    if s == [] then 0
    else if s[0] <= 0x7F then 1
    else if |s| < 2 then 0
    else if 0xC2 <= s[0] <= 0xDF then (if Tail(s[1]) then 2 else 0)
    else if |s| < 3 || !Tail(s[2]) then 0
    else if s[0] == 0xE0 then (if 0xA0 <= s[1] <= 0xBF then 3 else 0)
    else if s[0] == 0xED then (if 0x80 <= s[1] <= 0x9F then 3 else 0)
    else if 0xE1 <= s[0] <= 0xEF then (if Tail(s[1]) then 3 else 0)
    else if |s| < 4 || !Tail(s[3]) then 0
    else if s[0] == 0xF0 then (if 0x90 <= s[1] <= 0xBF then 4 else 0)
    else if 0xF1 <= s[0] <= 0xF3 then (if Tail(s[1]) then 4 else 0)
    else if s[0] == 0xF4 then (if 0x80 <= s[1] <= 0x8F then 4 else 0)
    else 0
  }

  predicate ValidUtf8(s: Bytes)
    decreases |s|
  {
    s == [] || (CharLength(s) > 0 && ValidUtf8(s[CharLength(s)..]))
  }

  lemma {:induction false} AsciiIsUtf8(s: Bytes)
    requires forall i :: 0 <= i < |s| ==> s[i] <= 0x7F
    ensures ValidUtf8(s)
  {
    if s != [] {
      AsciiIsUtf8(s[1..]);
    }
  }

  // ---------------------------------------------------------------- what it accepts

  /** A Unicode code point that is not a surrogate. */
  predicate Scalar(c: int) { 0 <= c < 0xD800 || 0xE000 <= c < 0x11_0000 }

  /** A continuation byte carries six bits. */
  function Six(c: nat): Byte { 0x80 + c % 64 }

  function EncodeScalar(c: int): (s: Bytes)
    requires Scalar(c)
    ensures |s| >= 1
  {
    if c < 0x80 then [c]
    else if c < 0x800 then [0xC0 + c / 64, Six(c)]
    else if c < 0x1_0000 then [0xE0 + c / 4096, Six(c / 64), Six(c)]
    else [0xF0 + c / 0x4_0000, Six(c / 4096), Six(c / 64), Six(c)]
  }

  predicate Scalars(cs: seq<int>) { forall i :: 0 <= i < |cs| ==> Scalar(cs[i]) }

  function EncodeScalars(cs: seq<int>): Bytes
    requires Scalars(cs)
  {
    if cs == [] then [] else EncodeScalar(cs[0]) + EncodeScalars(cs[1..])
  }

  /** What a byte carries besides the mark in its high bits. */
  function Bits(b: Byte, mark: int): int { b as int - mark }

  /** The code point that the bytes of a character carry. */
  function Decode(s: Bytes): int
    requires 1 <= |s| <= 4
  {
    if |s| == 1 then s[0]
    else if |s| == 2 then Bits(s[0], 0xC0) * 64 + Bits(s[1], 0x80)
    else if |s| == 3 then (Bits(s[0], 0xE0) * 64 + Bits(s[1], 0x80)) * 64 + Bits(s[2], 0x80)
    else ((Bits(s[0], 0xF0) * 64 + Bits(s[1], 0x80)) * 64 + Bits(s[2], 0x80)) * 64 + Bits(s[3], 0x80)
  }

  lemma LastSix(high: int, low: int)
    requires 0 <= low < 64
    ensures (high * 64 + low) / 64 == high && (high * 64 + low) % 64 == low
  {
  }

  lemma ThreeAreScalar(c: Bytes)
    requires |c| == 3 && 0xE0 <= c[0] <= 0xEF && Tail(c[1]) && Tail(c[2])
    requires (c[0] == 0xE0 ==> 0xA0 <= c[1]) && (c[0] == 0xED ==> c[1] <= 0x9F)
    ensures Scalar(Decode(c)) && EncodeScalar(Decode(c)) == c
  {
    LastSix(Bits(c[0], 0xE0), Bits(c[1], 0x80));
    LastSix(Bits(c[0], 0xE0) * 64 + Bits(c[1], 0x80), Bits(c[2], 0x80));
    assert Decode(c) / 4096 == Decode(c) / 64 / 64;
  }

  lemma FourAreScalar(c: Bytes)
    requires |c| == 4 && 0xF0 <= c[0] <= 0xF4 && Tail(c[1]) && Tail(c[2]) && Tail(c[3])
    requires (c[0] == 0xF0 ==> 0x90 <= c[1]) && (c[0] == 0xF4 ==> c[1] <= 0x8F)
    ensures Scalar(Decode(c)) && EncodeScalar(Decode(c)) == c
  {
    var top := Bits(c[0], 0xF0) * 64 + Bits(c[1], 0x80);
    LastSix(Bits(c[0], 0xF0), Bits(c[1], 0x80));
    LastSix(top, Bits(c[2], 0x80));
    LastSix(top * 64 + Bits(c[2], 0x80), Bits(c[3], 0x80));
    assert Decode(c) / 4096 == Decode(c) / 64 / 64;
    assert Decode(c) / 0x4_0000 == Decode(c) / 4096 / 64;
  }

  lemma CharIsScalar(s: Bytes)
    requires CharLength(s) > 0
    ensures CharLength(s) <= 4
    ensures Scalar(Decode(s[..CharLength(s)])) && EncodeScalar(Decode(s[..CharLength(s)])) == s[..CharLength(s)]
  {
    hide Decode, EncodeScalar, Scalar;
    var c := s[..CharLength(s)];
    if |c| <= 2 {
      ShortAreScalar(c);
    } else if |c| == 3 {
      ThreeAreScalar(c);
    } else {
      FourAreScalar(c);
    }
  }

  lemma ShortAreScalar(c: Bytes)
    requires 1 <= |c| <= 2 && (if |c| == 1 then c[0] <= 0x7F else 0xC2 <= c[0] <= 0xDF && Tail(c[1]))
    ensures Scalar(Decode(c)) && EncodeScalar(Decode(c)) == c
  {
    if |c| == 2 { LastSix(Bits(c[0], 0xC0), Bits(c[1], 0x80)); }
  }

  /** The lead byte of three, and the limits it puts on the next. */
  lemma ThreeBytes(c: int)
    requires Scalar(c) && 0x800 <= c < 0x1_0000
    ensures var lead, next := 0xE0 + c / 4096, Six(c / 64);
      && 0xE0 <= lead <= 0xEF
      && (lead == 0xE0 ==> 0xA0 <= next) && (lead == 0xED ==> next <= 0x9F)
  {
    assert c / 64 == c / 4096 * 64 + c / 64 % 64;
  }

  lemma FourBytes(c: int)
    requires Scalar(c) && 0x1_0000 <= c
    ensures var lead, next := 0xF0 + c / 0x4_0000, Six(c / 4096);
      && 0xF0 <= lead <= 0xF4
      && (lead == 0xF0 ==> 0x90 <= next) && (lead == 0xF4 ==> next <= 0x8F)
  {
    assert c / 4096 == c / 0x4_0000 * 64 + c / 4096 % 64;
  }

  lemma ScalarIsChar(c: int, rest: Bytes)
    requires Scalar(c)
    ensures CharLength(EncodeScalar(c) + rest) == |EncodeScalar(c)|
  {
    var s := EncodeScalar(c) + rest;
    if c < 0x800 {
      assert s[0] == EncodeScalar(c)[0];
    } else if c < 0x1_0000 {
      ThreeBytes(c);
      ThreeByteChar(s, c / 4096, Six(c / 64), Six(c));
    } else {
      FourBytes(c);
      FourByteChar(s, c / 0x4_0000, Six(c / 4096), Six(c / 64), Six(c));
    }
  }

  lemma ThreeByteChar(s: Bytes, x: int, next: Byte, last: Byte)
    requires 0 <= x < 16 && [0xE0 + x, next, last] <= s && Tail(next) && Tail(last)
    requires (x == 0 ==> 0xA0 <= next) && (x == 13 ==> next <= 0x9F)
    ensures CharLength(s) == 3
  {
    assert s[0] == 0xE0 + x && s[1] == next && s[2] == last;
  }

  lemma FourByteChar(s: Bytes, x: int, next: Byte, third: Byte, last: Byte)
    requires 0 <= x <= 4 && [0xF0 + x, next, third, last] <= s && Tail(next) && Tail(third) && Tail(last)
    requires (x == 0 ==> 0x90 <= next) && (x == 4 ==> next <= 0x8F)
    ensures CharLength(s) == 4
  {
    assert s[0] == 0xF0 + x && s[1] == next && s[2] == third && s[3] == last;
  }

  lemma {:induction false} ScalarsAreUtf8(cs: seq<int>)
    requires Scalars(cs)
    ensures ValidUtf8(EncodeScalars(cs))
  {
    hide CharLength, EncodeScalar, Scalar;
    if cs != [] {
      var rest := EncodeScalars(cs[1..]);
      ScalarIsChar(cs[0], rest);
      ScalarsAreUtf8(cs[1..]);
      assert EncodeScalars(cs)[|EncodeScalar(cs[0])|..] == rest;
    }
  }

  lemma {:induction false} Utf8IsScalars(s: Bytes) returns (cs: seq<int>)
    requires ValidUtf8(s)
    ensures Scalars(cs) && s == EncodeScalars(cs)
    decreases |s|
  {
    hide CharLength, EncodeScalar, Scalar, Decode;
    if s == [] {
      cs := [];
    } else {
      var n := CharLength(s);
      CharIsScalar(s);
      var rest := Utf8IsScalars(s[n..]);
      cs := [Decode(s[..n])] + rest;
      assert cs[1..] == rest && s == s[..n] + s[n..];
    }
  }

  /** The check accepts exactly the byte strings that encode some sequence of Unicode scalar values. */
  lemma Utf8Exactly(s: Bytes)
    ensures ValidUtf8(s) <==> exists cs :: Scalars(cs) && s == EncodeScalars(cs)
  {
    hide ValidUtf8, EncodeScalars, Scalars;
    if ValidUtf8(s) {
      var cs := Utf8IsScalars(s);
    }
    forall cs | Scalars(cs) && s == EncodeScalars(cs) ensures ValidUtf8(s) {
      ScalarsAreUtf8(cs);
    }
  }
}

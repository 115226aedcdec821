/** UTF-8 as section 3 of RFC 3629 defines it, and the validity test of its section 4. */
module Utf8 {
  type Byte = b: int | 0 <= b < 256

  /** A Unicode scalar value: any code point but a surrogate. */
  type Scalar = c: int | 0 <= c < 0xD800 || 0xE000 <= c <= 0x10FFFF

  function Encode(c: Scalar): (bs: seq<Byte>)
    ensures 1 <= |bs| <= 4
    ensures |bs| == 1 ==> bs[0] == c
    ensures |bs| > 1 ==> c >= 0x80 && forall b :: b in bs ==> b >= 0x80
  {
    if c < 0x80 then [c]
    else if c < 0x800 then [0xC0 + c / 64, 0x80 + c % 64]
    else if c < 0x10000 then [0xE0 + c / 4096, 0x80 + c / 64 % 64, 0x80 + c % 64]
    else [0xF0 + c / 262144, 0x80 + c / 4096 % 64, 0x80 + c / 64 % 64, 0x80 + c % 64]
  }

  function EncodeAll(cs: seq<Scalar>): seq<Byte> {
    if cs == [] then [] else Encode(cs[0]) + EncodeAll(cs[1..])
  }

  predicate Continuation(b: Byte) {
    0x80 <= b <= 0xBF
  }

  /** Length of the well-formed character that `s` starts with, or 0. */
  function CharLength(s: seq<Byte>): (n: nat)
    ensures n <= 4 && n <= |s|
  {
    if s == [] then 0
    else if s[0] < 0x80 then 1
    else if |s| >= 2 && 0xC2 <= s[0] <= 0xDF && Continuation(s[1]) then 2
    else if |s| >= 3 && Continuation(s[2]) && (
           || (s[0] == 0xE0 && 0xA0 <= s[1] <= 0xBF)
           || (0xE1 <= s[0] <= 0xEC && Continuation(s[1]))
           || (s[0] == 0xED && 0x80 <= s[1] <= 0x9F)
           || (0xEE <= s[0] <= 0xEF && Continuation(s[1]))) then 3
    else if |s| >= 4 && Continuation(s[2]) && Continuation(s[3]) && (
           || (s[0] == 0xF0 && 0x90 <= s[1] <= 0xBF)
           || (0xF1 <= s[0] <= 0xF3 && Continuation(s[1]))
           || (s[0] == 0xF4 && 0x80 <= s[1] <= 0x8F)) then 4
    else 0
  }

  predicate Valid(s: seq<Byte>)
    decreases |s|
  {
    s == [] || (CharLength(s) > 0 && Valid(s[CharLength(s)..]))
  }

  /** The scalar value of the character that `s` starts with. */
  function Decode(s: seq<Byte>): Scalar
    requires CharLength(s) > 0
  {
    var n := CharLength(s);
    var b0: int := s[0];
    if n == 1 then b0
    else
      var b1: int := s[1];
      if n == 2 then (b0 - 0xC0) * 64 + (b1 - 0x80)
      else
        var b2: int := s[2];
        if n == 3 then ((b0 - 0xE0) * 64 + (b1 - 0x80)) * 64 + (b2 - 0x80)
        else
          var b3: int := s[3];
          (((b0 - 0xF0) * 64 + (b1 - 0x80)) * 64 + (b2 - 0x80)) * 64 + (b3 - 0x80)
  }

  lemma SplitLast(a: int, b: int)
    requires a >= 0 && 0 <= b < 64
    ensures (a * 64 + b) / 64 == a && (a * 64 + b) % 64 == b
  {
  }

  /** Decoding the first character and encoding it again gives its bytes. */
  lemma {:induction false} EncodeDecode(s: seq<Byte>)
    requires CharLength(s) > 0
    ensures Encode(Decode(s)) == s[..CharLength(s)]
  {
    var n := CharLength(s);
    if n == 2 {
      EncodeDecode2(s);
    } else if n == 3 {
      EncodeDecode3(s);
    } else if n == 4 {
      EncodeDecode4(s);
    }
  }

  lemma {:induction false} EncodeDecode2(s: seq<Byte>)
    requires CharLength(s) == 2
    ensures Encode(Decode(s)) == s[..2]
  {
    var b0: int, b1: int := s[0], s[1];
    SplitLast(b0 - 0xC0, b1 - 0x80);
  }

  lemma {:induction false} EncodeDecode3(s: seq<Byte>)
    requires CharLength(s) == 3
    ensures Encode(Decode(s)) == s[..3]
  {
    var b0: int, b1: int, b2: int := s[0], s[1], s[2];
    var c := Decode(s);
    SplitLast((b0 - 0xE0) * 64 + (b1 - 0x80), b2 - 0x80);
    SplitLast(b0 - 0xE0, b1 - 0x80);
    assert c / 4096 == c / 64 / 64;
  }

  lemma {:induction false} EncodeDecode4(s: seq<Byte>)
    requires CharLength(s) == 4
    ensures Encode(Decode(s)) == s[..4]
  {
    var b0: int, b1: int, b2: int, b3: int := s[0], s[1], s[2], s[3];
    var c := Decode(s);
    SplitLast(((b0 - 0xF0) * 64 + (b1 - 0x80)) * 64 + (b2 - 0x80), b3 - 0x80);
    SplitLast((b0 - 0xF0) * 64 + (b1 - 0x80), b2 - 0x80);
    SplitLast(b0 - 0xF0, b1 - 0x80);
    assert c / 4096 == c / 64 / 64 && c / 262144 == c / 64 / 64 / 64;
  }

  lemma {:induction false} EncodeCharLength(c: Scalar, rest: seq<Byte>)
    ensures CharLength(Encode(c) + rest) == |Encode(c)|
  {
  }

  /** Every encoding is valid. */
  lemma {:induction false} EncodeAllValid(cs: seq<Scalar>)
    ensures Valid(EncodeAll(cs))
  {
    if cs != [] {
      EncodeCharLength(cs[0], EncodeAll(cs[1..]));
      EncodeAllValid(cs[1..]);
      assert EncodeAll(cs)[|Encode(cs[0])|..] == EncodeAll(cs[1..]);
    }
  }

  lemma {:induction false} EncodeAllCons(c: Scalar, cs: seq<Scalar>)
    ensures EncodeAll([c] + cs) == Encode(c) + EncodeAll(cs)
  {
    assert ([c] + cs)[1..] == cs;
  }

  /** Every valid byte string is an encoding. */
  lemma {:induction false} ValidIsEncoding(s: seq<Byte>) returns (cs: seq<Scalar>)
    requires Valid(s)
    ensures EncodeAll(cs) == s
    decreases |s|
  {
    hide Encode, Decode, CharLength;
    if s == [] {
      cs := [];
    } else {
      var n := CharLength(s);
      var rest := ValidIsEncoding(s[n..]);
      var c := Decode(s);
      EncodeDecode(s);
      cs := [c] + rest;
      EncodeAllCons(c, rest);
      assert s == s[..n] + s[n..];
    }
  }

  /** One character of each length, as section 3 of RFC 3629 encodes it. */
  lemma {:induction false} Samples()
    ensures Encode(0x41) == [0x41] && Encode(0xE9) == [0xC3, 0xA9]
    ensures Encode(0x20AC) == [0xE2, 0x82, 0xAC] && Encode(0x1F600) == [0xF0, 0x9F, 0x98, 0x80]
  {
  }
}

/** JSON string escapes: the unescaper, and the escaped forms of section 7 of RFC 8259. */
module Escapes {
  import opened Json
  import opened Utf8

  const QUOTE: Byte := 0x22
  const BACKSLASH: Byte := 0x5C
  const LOWER_U: Byte := 0x75

  predicate IsHexDigit(b: Byte) {
    0x30 <= b <= 0x39 || 0x41 <= b <= 0x46 || 0x61 <= b <= 0x66
  }

  function HexValue(b: Byte): (v: int)
    requires IsHexDigit(b)
    ensures 0 <= v < 16
  {
    if b <= 0x39 then b - 0x30 else if b <= 0x46 then b - 0x41 + 10 else b - 0x61 + 10
  }

  ghost predicate IsHex4(h: seq<Byte>) {
    |h| == 4 && forall b :: b in h ==> IsHexDigit(b)
  }

  function Hex4Value(h: seq<Byte>): (v: int)
    requires IsHex4(h)
    ensures 0 <= v < 0x10000
  {
    ((HexValue(h[0]) * 16 + HexValue(h[1])) * 16 + HexValue(h[2])) * 16 + HexValue(h[3])
  }

  /** The code unit that four hex digits at `pos` spell. */
  function ParseHex4(s: seq<Byte>, pos: nat): (r: Option<int>)
    ensures r.Some? ==> 0 <= r.value < 0x10000 && pos + 4 <= |s|
  {
    if pos + 4 <= |s| && forall b :: b in s[pos..pos + 4] ==> IsHexDigit(b)
    then Some(Hex4Value(s[pos..pos + 4])) else None
  }

  predicate IsHigh(u: int) {
    0xD800 <= u <= 0xDBFF
  }

  predicate IsLow(u: int) {
    0xDC00 <= u <= 0xDFFF
  }

  function Combine(high: int, low: int): Scalar
    requires IsHigh(high) && IsLow(low)
  {
    0x10000 + (high - 0xD800) * 0x400 + (low - 0xDC00)
  }

  /** The byte a two-character escape stands for. */
  function ShortEscape(b: Byte): Option<Byte> {
    if b == QUOTE then Some(QUOTE)
    else if b == BACKSLASH then Some(BACKSLASH)
    else if b == 0x2F then Some(0x2F)
    else if b == 0x62 then Some(0x08)
    else if b == 0x66 then Some(0x0C)
    else if b == 0x6E then Some(0x0A)
    else if b == 0x72 then Some(0x0D)
    else if b == 0x74 then Some(0x09)
    else None
  }

  /** A decoded unicode escape: its scalar value and how many bytes it took. */
  datatype UnicodeEscape = UnicodeEscape(c: Scalar, length: nat)

  /** The escape `\uXXXX`, or a surrogate pair of two, at the start of `s`. */
  function DecodeUnicode(s: seq<Byte>): (r: Option<UnicodeEscape>)
    requires |s| >= 2
    ensures r.Some? ==> 6 <= r.value.length <= |s|
  {
    var high := ParseHex4(s, 2);
    if high.None? then None
    else if IsHigh(high.value) then
      if |s| < 8 || s[6] != BACKSLASH || s[7] != LOWER_U then None
      else
        var low := ParseHex4(s, 8);
        if low.None? || !IsLow(low.value) then None
        else Some(UnicodeEscape(Combine(high.value, low.value), 12))
    else if IsLow(high.value) then None
    else Some(UnicodeEscape(high.value, 6))
  }

  function Prepend(p: seq<Byte>, r: Option<seq<Byte>>): Option<seq<Byte>> {
    if r.Some? then Some(p + r.value) else None
  }

  /** The bytes an escaped string stands for. */
  function UnescapeBytes(s: seq<Byte>): Option<seq<Byte>>
    decreases |s|
  {
    if s == [] then Some([])
    else if s[0] == BACKSLASH && |s| >= 2 then
      if s[1] == LOWER_U then
        var u := DecodeUnicode(s);
        if u.None? then None else Prepend(Encode(u.value.c), UnescapeBytes(s[u.value.length..]))
      else
        var e := ShortEscape(s[1]);
        if e.None? then None else Prepend([e.value], UnescapeBytes(s[2..]))
    else Prepend([s[0]], UnescapeBytes(s[1..]))
  }

  /** Unescape, and accept only valid UTF-8. */
  function Unescape(s: seq<Byte>): Option<seq<Byte>> {
    var r := UnescapeBytes(s);
    if r.Some? && Valid(r.value) then r else None
  }

  lemma {:induction false} PrependTwice(p: seq<Byte>, q: seq<Byte>, r: Option<seq<Byte>>)
    ensures Prepend(p, Prepend(q, r)) == Prepend(p + q, r)
  {
    if r.Some? {
      assert p + (q + r.value) == p + q + r.value;
    }
  }

  lemma {:induction false} PrependNothing(r: Option<seq<Byte>>)
    ensures Prepend([], r) == r
  {
    if r.Some? {
      assert [] + r.value == r.value;
    }
  }

  /** The unescaping loop computes `Unescape`. */
  method UnescapeString(input: seq<Byte>) returns (r: Option<seq<Byte>>)
    ensures r == Unescape(input)
  {
    var result: seq<Byte> := [];
    var i := 0;
    PrependNothing(UnescapeBytes(input));
    assert input[0..] == input;
    while i < |input|
      invariant 0 <= i <= |input|
      invariant UnescapeBytes(input) == Prepend(result, UnescapeBytes(input[i..]))
      decreases |input| - i
    {
      ghost var rest := input[i..];
      if input[i] == BACKSLASH && i + 1 < |input| {
        if input[i + 1] == LOWER_U {
          var u := DecodeUnicode(input[i..]);
          if u.None? {
            return None;
          }
          PrependTwice(result, Encode(u.value.c), UnescapeBytes(rest[u.value.length..]));
          result := result + Encode(u.value.c);
          i := i + u.value.length;
          assert rest[u.value.length..] == input[i..];
        } else {
          var e := ShortEscape(input[i + 1]);
          if e.None? {
            return None;
          }
          PrependTwice(result, [e.value], UnescapeBytes(rest[2..]));
          result := result + [e.value];
          i := i + 2;
          assert rest[2..] == input[i..];
        }
      } else {
        PrependTwice(result, [input[i]], UnescapeBytes(rest[1..]));
        result := result + [input[i]];
        i := i + 1;
        assert rest[1..] == input[i..];
      }
    }
    assert result + [] == result;
    r := if Valid(result) then Some(result) else None;
  }

  // ---------------------------------------------------------------- escaped forms

  /** The letter case of each of four hexadecimal digits; it matters for the letters only. */
  datatype Cases = Cases(a: bool, b: bool, c: bool, d: bool)

  function HexDigit(d: nat, upper: bool): Byte
    requires d < 16
  {
    if d < 10 then 0x30 + d else if upper then 0x41 + (d - 10) else 0x61 + (d - 10)
  }

  /** A code unit in four hexadecimal digits. */
  function HexText(u: nat, k: Cases): seq<Byte>
    requires u < 0x10000
  {
    [HexDigit(u / 4096, k.a), HexDigit(u / 256 % 16, k.b), HexDigit(u / 16 % 16, k.c), HexDigit(u % 16, k.d)]
  }

  /** The two code units of a character beyond the basic plane. */
  function HighUnit(c: Scalar): nat
    requires c >= 0x10000
  {
    0xD800 + (c - 0x10000) / 0x400
  }

  function LowUnit(c: Scalar): nat
    requires c >= 0x10000
  {
    0xDC00 + (c - 0x10000) % 0x400
  }

  /** One character of a JSON string: itself, a two-character escape, `\uXXXX`, or a pair of those. */
  datatype Piece =
    | Raw(c: Scalar)
    | Short(e: Byte)
    | Unit(c: Scalar, k: Cases)
    | Pair(c: Scalar, high: Cases, low: Cases)

  /** What section 7 of RFC 8259 allows: `" \ / b f n r t` after a backslash, and no raw controls. */
  ghost predicate LegalPiece(p: Piece) {
    match p
    case Raw(c) => c >= 0x20 && c != 0x22 && c != 0x5C
    case Short(e) => ShortLetter(e)
    case Unit(c, _) => c < 0x10000
    case Pair(c, _, _) => c >= 0x10000
  }

  ghost predicate ShortLetter(e: Byte) {
    e == 0x22 || e == 0x5C || e == 0x2F || e == 0x62 || e == 0x66 || e == 0x6E || e == 0x72 || e == 0x74
  }

  ghost function PieceText(p: Piece): seq<Byte>
    requires LegalPiece(p)
  {
    match p
    case Raw(c) => Encode(c)
    case Short(e) => [0x5C, e]
    case Unit(c, k) => [0x5C, 0x75] + HexText(c, k)
    case Pair(c, high, low) => [0x5C, 0x75] + HexText(HighUnit(c), high) + [0x5C, 0x75] + HexText(LowUnit(c), low)
  }

  /** Quotation mark, backslash and slash stand for themselves; the letters for backspace, form feed,
      line feed, carriage return and tab. */
  ghost function PieceScalar(p: Piece): Scalar
    requires LegalPiece(p)
  {
    match p
    case Raw(c) => c
    case Short(e) =>
      (match e
       case 0x62 => 0x08
       case 0x66 => 0x0C
       case 0x6E => 0x0A
       case 0x72 => 0x0D
       case 0x74 => 0x09
       case _ => e)
    case Unit(c, _) => c
    case Pair(c, _, _) => c
  }

  lemma {:induction false} HexDigitValue(d: nat, upper: bool)
    requires d < 16
    ensures IsHexDigit(HexDigit(d, upper)) && HexValue(HexDigit(d, upper)) == d
  {
  }

  /** The reader of four digits reads what was written, in either case. */
  lemma {:induction false} HexTextValue(u: nat, k: Cases)
    requires u < 0x10000
    ensures IsHex4(HexText(u, k)) && Hex4Value(HexText(u, k)) == u
  {
    hide HexDigit, HexValue, IsHexDigit;
    HexDigitValue(u / 4096, k.a);
    HexDigitValue(u / 256 % 16, k.b);
    HexDigitValue(u / 16 % 16, k.c);
    HexDigitValue(u % 16, k.d);
    Recompose(u);
  }

  lemma Recompose(u: nat)
    requires u < 0x10000
    ensures ((u / 4096 * 16 + u / 256 % 16) * 16 + u / 16 % 16) * 16 + u % 16 == u
  {
    assert u / 256 == u / 4096 * 16 + u / 256 % 16;
    assert u / 16 == u / 256 * 16 + u / 16 % 16;
  }

  lemma {:induction false} DigitHex(b: Byte)
    requires IsHexDigit(b)
    ensures HexDigit(HexValue(b), b < 0x61) == b
  {
  }

  /** Any four hexadecimal digits are some code unit's text. */
  lemma {:induction false} ValueHexText(h: seq<Byte>) returns (k: Cases)
    requires IsHex4(h)
    ensures HexText(Hex4Value(h), k) == h
  {
    assert h[0] in h && h[1] in h && h[2] in h && h[3] in h;
    k := Cases(h[0] < 0x61, h[1] < 0x61, h[2] < 0x61, h[3] < 0x61);
    DigitHex(h[0]);
    DigitHex(h[1]);
    DigitHex(h[2]);
    DigitHex(h[3]);
    Digits16(HexValue(h[0]), HexValue(h[1]), HexValue(h[2]), HexValue(h[3]));
  }

  lemma Digits16(a: nat, b: nat, c: nat, d: nat)
    requires a < 16 && b < 16 && c < 16 && d < 16
    ensures var u := ((a * 16 + b) * 16 + c) * 16 + d;
            u / 4096 == a && u / 256 % 16 == b && u / 16 % 16 == c && u % 16 == d
  {
  }

  lemma CombineUnits(c: Scalar)
    requires c >= 0x10000
    ensures IsHigh(HighUnit(c)) && IsLow(LowUnit(c)) && Combine(HighUnit(c), LowUnit(c)) == c
  {
  }

  ghost predicate Legal(ps: seq<Piece>) {
    forall p :: p in ps ==> LegalPiece(p)
  }

  ghost function Text(ps: seq<Piece>): seq<Byte>
    requires Legal(ps)
  {
    if ps == [] then [] else PieceText(ps[0]) + Text(ps[1..])
  }

  ghost function Scalars(ps: seq<Piece>): seq<Scalar>
    requires Legal(ps)
  {
    if ps == [] then [] else [PieceScalar(ps[0])] + Scalars(ps[1..])
  }

  lemma {:induction false} UnescapeRaw(bs: seq<Byte>, rest: seq<Byte>)
    requires BACKSLASH !in bs
    ensures UnescapeBytes(bs + rest) == Prepend(bs, UnescapeBytes(rest))
  {
    if bs == [] {
      assert bs + rest == rest;
      PrependNothing(UnescapeBytes(rest));
    } else {
      assert (bs + rest)[1..] == bs[1..] + rest;
      assert bs[0] in bs;
      UnescapeRaw(bs[1..], rest);
      PrependTwice([bs[0]], bs[1..], UnescapeBytes(rest));
      assert [bs[0]] + bs[1..] == bs;
    }
  }

  lemma {:induction false} UnescapeUnit(c: Scalar, k: Cases, rest: seq<Byte>)
    requires c < 0x10000
    ensures UnescapeBytes(PieceText(Unit(c, k)) + rest) == Prepend(Encode(c), UnescapeBytes(rest))
  {
    var s := PieceText(Unit(c, k)) + rest;
    HexTextValue(c, k);
    assert s[2..6] == HexText(c, k);
    assert s[6..] == rest;
    hide HexText, Hex4Value, Encode;
    assert DecodeUnicode(s) == Some(UnicodeEscape(c, 6));
  }

  lemma {:induction false} UnescapePair(c: Scalar, high: Cases, low: Cases, rest: seq<Byte>)
    requires c >= 0x10000
    ensures UnescapeBytes(PieceText(Pair(c, high, low)) + rest) == Prepend(Encode(c), UnescapeBytes(rest))
  {
    var s := PieceText(Pair(c, high, low)) + rest;
    HexTextValue(HighUnit(c), high);
    HexTextValue(LowUnit(c), low);
    CombineUnits(c);
    assert s[2..6] == HexText(HighUnit(c), high);
    assert s[8..12] == HexText(LowUnit(c), low);
    assert s[12..] == rest;
    hide HexText, Hex4Value, Encode, Combine, HighUnit, LowUnit;
    assert DecodeUnicode(s) == Some(UnicodeEscape(c, 12));
  }

  lemma {:induction false} UnescapePiece(p: Piece, rest: seq<Byte>)
    requires LegalPiece(p)
    ensures UnescapeBytes(PieceText(p) + rest) == Prepend(Encode(PieceScalar(p)), UnescapeBytes(rest))
  {
    match p
    case Raw(c) => UnescapeRaw(Encode(c), rest);
    case Short(e) => assert (PieceText(p) + rest)[2..] == rest;
    case Unit(c, k) => UnescapeUnit(c, k, rest);
    case Pair(c, high, low) => UnescapePair(c, high, low, rest);
  }

  lemma {:induction false} UnescapePieces(ps: seq<Piece>, rest: seq<Byte>)
    requires Legal(ps)
    ensures UnescapeBytes(Text(ps) + rest) == Prepend(EncodeAll(Scalars(ps)), UnescapeBytes(rest))
  {
    if ps == [] {
      assert Text(ps) + rest == rest;
      PrependNothing(UnescapeBytes(rest));
    } else {
      var p, tail := ps[0], Text(ps[1..]) + rest;
      assert Text(ps) + rest == PieceText(p) + tail;
      UnescapePiece(p, tail);
      UnescapePieces(ps[1..], rest);
      PrependTwice(Encode(PieceScalar(p)), EncodeAll(Scalars(ps[1..])), UnescapeBytes(rest));
      EncodeAllCons(PieceScalar(p), Scalars(ps[1..]));
    }
  }

  /** Unescaping inverts every mix of escaped forms: it gives the UTF-8 text of the characters. */
  lemma {:induction false} UnescapeInverts(ps: seq<Piece>)
    requires Legal(ps)
    ensures Unescape(Text(ps)) == Some(EncodeAll(Scalars(ps)))
  {
    UnescapePieces(ps, []);
    assert Text(ps) + [] == Text(ps);
    assert EncodeAll(Scalars(ps)) + [] == EncodeAll(Scalars(ps));
    EncodeAllValid(Scalars(ps));
  }

  /** `rest` starts with the escape of a low surrogate, in digits of any case. */
  ghost predicate StartsWithLow(rest: seq<Byte>) {
    |rest| >= 6 && rest[0] == 0x5C && rest[1] == 0x75 &&
    exists u: nat, k :: 0xDC00 <= u <= 0xDFFF && rest[2..6] == HexText(u, k)
  }

  /** After any legal text, a surrogate escape that is not the first half of a pair fails. */
  lemma {:induction false} LoneSurrogateFails(ps: seq<Piece>, u: nat, k: Cases, rest: seq<Byte>)
    requires Legal(ps) && 0xD800 <= u <= 0xDFFF
    requires u >= 0xDC00 || !StartsWithLow(rest)
    ensures Unescape(Text(ps) + [0x5C, 0x75] + HexText(u, k) + rest) == None
  {
    var h := HexText(u, k);
    var s := [0x5C, 0x75] + h + rest;
    assert Text(ps) + [0x5C, 0x75] + h + rest == Text(ps) + s;
    UnescapePieces(ps, s);
    HexTextValue(u, k);
    assert s[2..6] == h;
    assert s[6..] == rest;
    if |rest| >= 6 {
      assert s[8..12] == rest[2..6] && s[6] == rest[0] && s[7] == rest[1];
      LowEscape(rest);
    }
  }

  lemma {:induction false} LowEscape(rest: seq<Byte>)
    requires |rest| >= 6
    ensures rest[0] == 0x5C && rest[1] == 0x75 && IsHex4(rest[2..6]) && IsLow(Hex4Value(rest[2..6])) ==>
              StartsWithLow(rest)
  {
    if IsHex4(rest[2..6]) {
      var k := ValueHexText(rest[2..6]);
    }
  }

  /** After any legal text, a backslash and any byte but the eight letters and `u` fails. */
  lemma {:induction false} UnknownEscapeFails(ps: seq<Piece>, e: Byte, rest: seq<Byte>)
    requires Legal(ps) && !ShortLetter(e) && e != 0x75
    ensures Unescape(Text(ps) + [0x5C, e] + rest) == None
  {
    var s := [0x5C, e] + rest;
    assert Text(ps) + [0x5C, e] + rest == Text(ps) + s;
    UnescapePieces(ps, s);
  }

  /** After any legal text, `\u` that four hexadecimal digits do not follow fails. */
  lemma {:induction false} BadDigitsFail(ps: seq<Piece>, rest: seq<Byte>)
    requires Legal(ps)
    requires |rest| >= 4 ==> forall u: nat, k :: u < 0x10000 ==> rest[..4] != HexText(u, k)
    ensures Unescape(Text(ps) + [0x5C, 0x75] + rest) == None
  {
    var s := [0x5C, 0x75] + rest;
    assert Text(ps) + [0x5C, 0x75] + rest == Text(ps) + s;
    UnescapePieces(ps, s);
    if ParseHex4(s, 2).Some? {
      assert s[2..6] == rest[..4];
      var k := ValueHexText(rest[..4]);
      assert false;
    }
  }

  /** Bytes without a backslash are kept if they are UTF-8, and refused if not; a backslash with nothing
      after it is kept too. */
  lemma {:induction false} PlainBytes(bs: seq<Byte>)
    requires 0x5C !in bs
    ensures Unescape(bs) == if Valid(bs) then Some(bs) else None
    ensures Unescape(bs + [0x5C]) == if Valid(bs + [0x5C]) then Some(bs + [0x5C]) else None
  {
    UnescapeRaw(bs, []);
    assert bs + [] == bs;
    UnescapeRaw(bs, [0x5C]);
    assert UnescapeBytes([0x5C]) == Prepend([0x5C], UnescapeBytes([]));
    assert [0x5C] + [] == [0x5C];
  }
}

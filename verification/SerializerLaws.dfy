/** The strings the serializer writes are the strings the parser reads. */
module SerializerLaws {
  import opened Json
  import opened Utf8
  import opened Escapes
  import opened JsonText
  import ParserSpec
  import ParserGrammar
  import ZeroCopyParser
  import DictionarySaving

  predicate IsBytes(s: string) { forall i :: 0 <= i < |s| ==> s[i] as int < 256 }

  function ByteOf(c: char): Byte
    requires c as int < 256
  {
    c as int
  }

  /** Code units as bytes. */
  function ToBytes(s: string): (r: seq<Byte>)
    requires IsBytes(s)
    ensures |r| == |s|
  {
    seq(|s|, i requires 0 <= i < |s| => ByteOf(s[i]))
  }

  lemma ToBytesConcat(a: string, b: string)
    requires IsBytes(a) && IsBytes(b)
    ensures IsBytes(a + b) && ToBytes(a + b) == ToBytes(a) + ToBytes(b)
  {
  }

  /** A control character without a letter is written as its code unit in lower-case digits. */
  lemma {:induction false} ControlText(c: char)
    requires c as int < 0x20
    ensures var d := c as int;
            var text := ['\U{5C}', 'u', '0', '0', DictionarySaving.HexChar(d / 16), DictionarySaving.HexChar(d % 16)];
            IsBytes(text) && ToBytes(text) == PieceText(Unit(d, Cases(false, false, false, false)))
  {
    var d := c as int;
    var a, b := DictionarySaving.HexChar(d / 16), DictionarySaving.HexChar(d % 16);
    var text := ['\U{5C}', 'u', '0', '0', a, b];
    assert HexText(d, Cases(false, false, false, false)) == [0x30, 0x30, a as int, b as int];
  }

  /** One escaped code unit unescapes to itself, and neither opens nor closes a string. */
  lemma {:induction false} CharReadBack(c: char, rest: seq<Byte>)
    requires c as int < 256
    ensures var text := DictionarySaving.EscapeChar(c);
            && IsBytes(text)
            && UnescapeBytes(ToBytes(text) + rest) == Prepend([c as int], UnescapeBytes(rest))
            && Closed(ToBytes(text) + rest) == Closed(rest)
  {
    var text := DictionarySaving.EscapeChar(c);
    if |text| == 6 {
      ControlText(c);
      UnescapeUnit(c as int, Cases(false, false, false, false), rest);
      ClosedPiece(Unit(c as int, Cases(false, false, false, false)), rest);
    } else if |text| == 2 {
      var s := ToBytes(text) + rest;
      assert s[..2] == ToBytes(text) && s[2..] == rest;
    } else {
      var s := ToBytes(text) + rest;
      assert s[0] == c as int && s[1..] == rest;
    }
  }

  lemma {:induction false} StringReadBack(s: string)
    requires IsBytes(s)
    ensures var text := DictionarySaving.Escaped(s);
            && IsBytes(text) && UnescapeBytes(ToBytes(text)) == Some(ToBytes(s)) && Closed(ToBytes(text))
  {
    if s == [] {
      assert ToBytes([]) == [];
    } else {
      var head, tail := DictionarySaving.EscapeChar(s[0]), DictionarySaving.Escaped(s[1..]);
      StringReadBack(s[1..]);
      CharReadBack(s[0], ToBytes(tail));
      hide DictionarySaving.EscapeChar, UnescapeBytes, Closed;
      ToBytesConcat(head, tail);
      ToBytesConcat([s[0]], s[1..]);
      assert s == [s[0]] + s[1..] && ToBytes([s[0]]) == [s[0] as int];
    }
  }

  /** The serialized form of a string is one token for the parser, and its value is the string. */
  lemma {:induction false} SerializedStringParses(s: string, rest: seq<Byte>, max: nat)
    requires IsBytes(s) && Valid(ToBytes(s))
    ensures var text := DictionarySaving.Escaped(s);
            && IsBytes(text)
            && var n := StringNode(ToBytes(text));
               && ParserSpec.ParseNode(NodeText(n) + rest, 0, max) == ParserSpec.Ok(n, rest)
               && (ZeroCopyParser.Lazy(n) == ZeroCopyParser.StringOwned(ToBytes(s))
                   || ZeroCopyParser.Lazy(n) == ZeroCopyParser.StringBorrowed(ToBytes(s)))
  {
    StringReadBack(s);
    var raw := ToBytes(DictionarySaving.Escaped(s));
    ParserGrammar.ParserComplete(StringNode(raw), rest, 0, max);
    if BACKSLASH !in raw {
      UnescapeRaw(raw, []);
      assert raw + [] == raw;
    }
  }

  /** The serializer puts exactly that text between quotation marks. */
  lemma {:induction false} QuotedIsToken(s: string)
    requires IsBytes(s)
    ensures IsBytes(DictionarySaving.Escaped(s)) && IsBytes(DictionarySaving.QuotedText(s))
    ensures ToBytes(DictionarySaving.QuotedText(s)) == NodeText(StringNode(ToBytes(DictionarySaving.Escaped(s))))
  {
    StringReadBack(s);
    var text := DictionarySaving.Escaped(s);
    var mark: string := ['\U{22}'];
    assert ToBytes(mark) == [QUOTE];
    ToBytesConcat(mark, text);
    ToBytesConcat(mark + text, mark);
  }

  /** Texts with commas between them. */
  function Joined(parts: seq<string>): string {
    if parts == [] then "" else if |parts| == 1 then parts[0] else parts[0] + "," + Joined(parts[1..])
  }

  lemma {:induction false} ItemsJoined(items: seq<Json>, numText: Number -> string)
    ensures DictionarySaving.SerializeItems(items, numText)
            == Joined(seq(|items|, i requires 0 <= i < |items| => DictionarySaving.Serialize(items[i], numText)))
  {
    if |items| > 1 {
      ItemsJoined(items[1..], numText);
      var parts := seq(|items|, i requires 0 <= i < |items| => DictionarySaving.Serialize(items[i], numText));
      assert parts[1..] == seq(|items| - 1, i requires 0 <= i < |items| - 1 =>
        DictionarySaving.Serialize(items[1..][i], numText));
    }
  }

  function MemberText(f: Field, numText: Number -> string): string {
    DictionarySaving.QuotedText(f.key) + ":" + DictionarySaving.Serialize(f.value, numText)
  }

  lemma {:induction false} FieldsJoined(fs: seq<Field>, numText: Number -> string)
    ensures DictionarySaving.SerializeFields(fs, numText)
            == Joined(seq(|fs|, i requires 0 <= i < |fs| => MemberText(fs[i], numText)))
  {
    if |fs| > 1 {
      FieldsJoined(fs[1..], numText);
      var parts := seq(|fs|, i requires 0 <= i < |fs| => MemberText(fs[i], numText));
      assert parts[1..] == seq(|fs| - 1, i requires 0 <= i < |fs| - 1 => MemberText(fs[1..][i], numText));
    }
  }

  /** Compact JSON text of every kind of value: no spaces, commas between parts, keys quoted. */
  lemma {:induction false} CompactText(v: Json, numText: Number -> string)
    ensures var text := DictionarySaving.Serialize(v, numText);
            match v
            case Null => text == "null"
            case Bool(b) => text == if b then "true" else "false"
            case Num(n) => text == numText(n)
            case Str(s) => text == DictionarySaving.QuotedText(s)
            case Arr(items) =>
              text == "[" + Joined(seq(|items|, i requires 0 <= i < |items| =>
                DictionarySaving.Serialize(items[i], numText))) + "]"
            case Obj(fs) =>
              text == "{" + Joined(seq(|fs|, i requires 0 <= i < |fs| => MemberText(fs[i], numText))) + "}"
  {
    match v
    case Arr(items) => ItemsJoined(items, numText);
    case Obj(fs) => FieldsJoined(fs, numText);
    case _ =>
  }
}

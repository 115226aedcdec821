/** What the parser's language is, and that it covers RFC 8259. */
module ParserTheorems {
  import opened Json
  import opened Utf8
  import opened Escapes
  import opened JsonText
  import opened ParserSpec
  import opened ParserGrammar
  import opened ZeroCopyParser
  import ParserDepth

  /** `s` starts with the text of the accepted tree `n`, read as far as it goes. */
  ghost predicate Spells(s: seq<Byte>, n: Node, rest: seq<Byte>) {
    Accepted(n) && s == NodeText(n) + rest && Stops(n, rest)
  }

  /** The parser succeeds exactly on the texts of accepted trees within the depth limit, and the
      tree and the rest it returns are the only ones. */
  lemma {:induction false} ParserExact(s: seq<Byte>, max: nat)
    ensures ParseNode(s, 0, max).Ok? <==> exists n, rest :: Spells(s, n, rest) && Depth(n) <= max
    ensures forall n, rest :: Spells(s, n, rest) && Depth(n) <= max ==> ParseNode(s, 0, max) == Ok(n, rest)
  {
    ParserSound(s, 0, max);
    var r := ParseNode(s, 0, max);
    if r.Ok? {
      assert Spells(s, r.tree, r.rest);
    }
    forall n, rest | Spells(s, n, rest) && Depth(n) <= max ensures r == Ok(n, rest) {
      ParserComplete(n, rest, 0, max);
    }
  }

  /** No text has two readings. */
  lemma {:induction false} ReadingUnique(s: seq<Byte>, n: Node, rest: seq<Byte>, m: Node, more: seq<Byte>)
    requires Spells(s, n, rest) && Spells(s, m, more)
    ensures n == m && rest == more
  {
    ParserComplete(n, rest, 0, Max(Depth(n), Depth(m)));
    ParserComplete(m, more, 0, Max(Depth(n), Depth(m)));
  }

  /** Nesting beyond the limit is refused, and for no other reason. */
  lemma {:induction false} TooDeepRejected(n: Node, rest: seq<Byte>, max: nat)
    requires Accepted(n) && Depth(n) > max
    ensures ParseNode(NodeText(n) + rest, 0, max) == Err(SecurityViolation)
  {
    ParserDepth.NodeTooDeep(n, rest, 0, max);
  }

  // ---------------------------------------------------------------- the tokens, spelled out

  function ByteOf(c: char): Byte
    requires c < 128 as char
  {
    c as int
  }

  /** ASCII text as bytes. */
  function Bytes(s: string): seq<Byte>
    requires forall c :: c in s ==> c < 128 as char
  {
    seq(|s|, i requires 0 <= i < |s| => assert s[i] in s; ByteOf(s[i]))
  }

  /** The tokens of sections 2, 3 and 7 of RFC 8259. */
  lemma {:induction false} Tokens()
    ensures NodeText(TrueNode) == Bytes("true") && NodeText(FalseNode) == Bytes("false")
    ensures NodeText(NullNode) == Bytes("null")
    ensures NodeText(EmptyArray([])) == Bytes("[]") && NodeText(EmptyObject([])) == Bytes("{}")
    ensures NodeText(StringNode(Bytes("key"))) == [34] + Bytes("key") + [34]
  {
  }

  /** A number with every part, as section 6 of RFC 8259 writes it. */
  lemma {:induction false} NumberTokens()
    ensures NodeText(NumberNode(true, Bytes("1"), Some(Bytes("5")), Some(Exponent(101, Some(43), Bytes("2")))))
            == Bytes("-1.5e+2")
  {
  }

  /** Commas and colons, as sections 4 and 5 of RFC 8259 place them. */
  lemma {:induction false} Separators(a: Padded, b: Padded, c: Padded, d: Padded)
    ensures ElemsText(MoreElems(a, LastElem(b))) == PaddedText(a) + (Bytes(",") + (PaddedText(b) + Bytes("]")))
    ensures MembersText(MoreMembers(a, b, LastMember(c, d)))
            == PaddedText(a) + (Bytes(":") + (PaddedText(b) + (Bytes(",")
               + (PaddedText(c) + (Bytes(":") + (PaddedText(d) + Bytes("}")))))))
  {
    hide PaddedText;
    assert Bytes(",") == [44] && Bytes("]") == [93] && Bytes(":") == [58] && Bytes("}") == [125];
  }

  /** Every RFC 8259 text within the depth limit is accepted, with any whitespace around its
      tokens: the parser consumes exactly that text and returns its kind with its slice. */
  lemma {:induction false} StandardTextParses(lead: seq<Byte>, n: Node, rest: seq<Byte>, max: nat)
    requires Spaces(lead) && Standard(n) && Depth(n) <= max && Stops(n, rest)
    ensures ParserSpec.ParseValue(lead + NodeText(n) + rest, 0, max) == Ok(n, rest)
    ensures match n
            case StringNode(_) => Lazy(n).StringOwned? || Lazy(n).StringBorrowed?
            case NumberNode(_, _, _, _) => Lazy(n) == NumberSlice(NodeText(n))
            case TrueNode => Lazy(n) == Boolean(true)
            case FalseNode => Lazy(n) == Boolean(false)
            case NullNode => Lazy(n) == NullValue
            case EmptyArray(_) => Lazy(n) == ArraySlice(NodeText(n))
            case ArrayNode(_) => Lazy(n) == ArraySlice(NodeText(n))
            case EmptyObject(_) => Lazy(n) == ObjectSlice(NodeText(n))
            case ObjectNode(_) => Lazy(n) == ObjectSlice(NodeText(n))
  {
    StandardIsAccepted(n);
    var t := NodeText(n) + rest;
    Associate(lead, NodeText(n), rest);
    NodeStarts(n, rest);
    SkipSpaceExact(lead, t);
    ParserComplete(n, rest, 0, max);
  }

  /** The string value of a standard string is the UTF-8 text of its characters. */
  lemma {:induction false} StandardStringValue(ps: seq<Piece>)
    requires Legal(ps)
    ensures Standard(StringNode(Text(ps)))
    ensures Lazy(StringNode(Text(ps))) ==
            if BACKSLASH in Text(ps) then StringOwned(EncodeAll(Scalars(ps)))
            else StringBorrowed(EncodeAll(Scalars(ps)))
  {
    UnescapeInverts(ps);
    if BACKSLASH !in Text(ps) {
      UnescapeRaw(Text(ps), []);
      assert Text(ps) + [] == Text(ps);
    }
  }
}

/** JSON texts with their layout: the syntax trees the zero-copy parser walks, the text each one
    stands for, and which trees the parser accepts and which RFC 8259 allows. */
module JsonText {
  import opened Json
  import opened Utf8
  import opened Escapes

  const COMMA: Byte := 0x2C
  const COLON: Byte := 0x3A
  const OPEN_BRACKET: Byte := 0x5B
  const CLOSE_BRACKET: Byte := 0x5D
  const OPEN_BRACE: Byte := 0x7B
  const CLOSE_BRACE: Byte := 0x7D
  const MINUS: Byte := 0x2D
  const PLUS: Byte := 0x2B
  const DOT: Byte := 0x2E
  const ZERO: Byte := 0x30
  const TRUE_TEXT: seq<Byte> := [0x74, 0x72, 0x75, 0x65]
  const FALSE_TEXT: seq<Byte> := [0x66, 0x61, 0x6C, 0x73, 0x65]
  const NULL_TEXT: seq<Byte> := [0x6E, 0x75, 0x6C, 0x6C]

  predicate IsSpace(b: Byte) {
    b == 0x20 || b == 0x09 || b == 0x0A || b == 0x0D
  }

  predicate IsDigit(b: Byte) {
    0x30 <= b <= 0x39
  }

  predicate IsExponentMark(b: Byte) {
    b == 0x65 || b == 0x45
  }

  datatype Exponent = Exponent(mark: Byte, sign: Option<Byte>, digits: seq<Byte>)

  datatype Node =
    | StringNode(raw: seq<Byte>)
    | NumberNode(negative: bool, whole: seq<Byte>, frac: Option<seq<Byte>>, exp: Option<Exponent>)
    | TrueNode
    | FalseNode
    | NullNode
    | EmptyArray(blank: seq<Byte>)
    | ArrayNode(elems: Elems)
    | EmptyObject(blank: seq<Byte>)
    | ObjectNode(members: Members)

  /** A node with the whitespace around it. */
  datatype Padded = Padded(lead: seq<Byte>, node: Node, trail: seq<Byte>)

  datatype Elems = LastElem(e: Padded) | MoreElems(e: Padded, rest: Elems)

  datatype Members = LastMember(k: Padded, v: Padded) | MoreMembers(k: Padded, v: Padded, more: Members)

  // ---------------------------------------------------------------- texts

  function FractionText(f: Option<seq<Byte>>): seq<Byte> {
    if f.Some? then [DOT] + f.value else []
  }

  function ExponentText(e: Option<Exponent>): seq<Byte> {
    if e.None? then []
    else if e.value.sign.None? then [e.value.mark] + e.value.digits
    else [e.value.mark, e.value.sign.value] + e.value.digits
  }

  function MagnitudeText(n: Node): seq<Byte>
    requires n.NumberNode?
  {
    n.whole + (FractionText(n.frac) + ExponentText(n.exp))
  }

  function NumberText(n: Node): seq<Byte>
    requires n.NumberNode?
  {
    if n.negative then [MINUS] + MagnitudeText(n) else MagnitudeText(n)
  }

  function NodeText(n: Node): seq<Byte> {
    match n
    case StringNode(raw) => [QUOTE] + (raw + [QUOTE])
    case NumberNode(_, _, _, _) => NumberText(n)
    case TrueNode => TRUE_TEXT
    case FalseNode => FALSE_TEXT
    case NullNode => NULL_TEXT
    case EmptyArray(blank) => [OPEN_BRACKET] + (blank + [CLOSE_BRACKET])
    case ArrayNode(es) => [OPEN_BRACKET] + ElemsText(es)
    case EmptyObject(blank) => [OPEN_BRACE] + (blank + [CLOSE_BRACE])
    case ObjectNode(ms) => [OPEN_BRACE] + MembersText(ms)
  }

  function PaddedText(p: Padded): seq<Byte> {
    p.lead + (NodeText(p.node) + p.trail)
  }

  /** Elements with their commas, and the closing bracket. */
  function ElemsText(es: Elems): seq<Byte> {
    match es
    case LastElem(e) => PaddedText(e) + [CLOSE_BRACKET]
    case MoreElems(e, rest) => PaddedText(e) + ([COMMA] + ElemsText(rest))
  }

  /** Members with their colons and commas, and the closing brace. */
  function MembersText(ms: Members): seq<Byte> {
    match ms
    case LastMember(k, v) => PaddedText(k) + ([COLON] + (PaddedText(v) + [CLOSE_BRACE]))
    case MoreMembers(k, v, more) => PaddedText(k) + ([COLON] + (PaddedText(v) + ([COMMA] + MembersText(more))))
  }

  // ---------------------------------------------------------------- nesting

  function Max(a: nat, b: nat): nat {
    if a < b then b else a
  }

  /** Levels of array and object nesting; a scalar has none. */
  function Depth(n: Node): nat {
    match n
    case EmptyArray(_) => 1
    case EmptyObject(_) => 1
    case ArrayNode(es) => 1 + ElemsDepth(es)
    case ObjectNode(ms) => 1 + MembersDepth(ms)
    case _ => 0
  }

  function ElemsDepth(es: Elems): nat {
    match es
    case LastElem(e) => Depth(e.node)
    case MoreElems(e, rest) => Max(Depth(e.node), ElemsDepth(rest))
  }

  function MembersDepth(ms: Members): nat {
    match ms
    case LastMember(k, v) => Max(Depth(k.node), Depth(v.node))
    case MoreMembers(k, v, more) => Max(Max(Depth(k.node), Depth(v.node)), MembersDepth(more))
  }

  // ---------------------------------------------------------------- what the parser accepts

  ghost predicate Spaces(s: seq<Byte>) {
    forall b :: b in s ==> b == 0x20 || b == 0x09 || b == 0x0A || b == 0x0D
  }

  ghost predicate Digits(s: seq<Byte>) {
    forall b :: b in s ==> 0x30 <= b <= 0x39
  }

  /** No unescaped quote, and no escape cut short. */
  predicate Closed(raw: seq<Byte>) {
    if raw == [] then true
    else if raw[0] == QUOTE then false
    else if raw[0] == BACKSLASH then |raw| >= 2 && Closed(raw[2..])
    else Closed(raw[1..])
  }

  ghost predicate GoodWhole(w: seq<Byte>) {
    w != [] && Digits(w) && (w[0] == ZERO ==> w == [ZERO])
  }

  ghost predicate GoodFraction(f: Option<seq<Byte>>) {
    f.Some? ==> f.value != [] && Digits(f.value)
  }

  ghost predicate GoodExponent(e: Option<Exponent>) {
    e.Some? ==>
      && (e.value.mark == 0x65 || e.value.mark == 0x45)
      && (e.value.sign.Some? ==> e.value.sign.value == PLUS || e.value.sign.value == MINUS)
      && e.value.digits != [] && Digits(e.value.digits)
  }

  /** Section 6 of RFC 8259. */
  ghost predicate GoodNumber(n: Node)
    requires n.NumberNode?
  {
    GoodWhole(n.whole) && GoodFraction(n.frac) && GoodExponent(n.exp)
  }

  /** The parser's own grammar.  It allows any value as a key and any byte in a string, provided a
      string with escapes can be unescaped. */
  ghost predicate Accepted(n: Node) {
    match n
    case StringNode(raw) => Closed(raw) && (BACKSLASH in raw ==> Unescape(raw).Some?)
    case NumberNode(_, _, _, _) => GoodNumber(n)
    case EmptyArray(blank) => Spaces(blank)
    case EmptyObject(blank) => Spaces(blank)
    case ArrayNode(es) => AcceptedElems(es)
    case ObjectNode(ms) => AcceptedMembers(ms)
    case _ => true
  }

  ghost predicate AcceptedPadded(p: Padded) {
    Spaces(p.lead) && Accepted(p.node) && Spaces(p.trail)
  }

  ghost predicate AcceptedElems(es: Elems) {
    match es
    case LastElem(e) => AcceptedPadded(e)
    case MoreElems(e, rest) => AcceptedPadded(e) && AcceptedElems(rest)
  }

  ghost predicate AcceptedMembers(ms: Members) {
    match ms
    case LastMember(k, v) => AcceptedPadded(k) && AcceptedPadded(v)
    case MoreMembers(k, v, more) => AcceptedPadded(k) && AcceptedPadded(v) && AcceptedMembers(more)
  }

  // ---------------------------------------------------------------- what RFC 8259 allows

  /** Section 7: a sequence of unescaped characters and escapes, surrogate escapes in pairs. */
  ghost predicate StandardString(raw: seq<Byte>) {
    exists ps :: Legal(ps) && Text(ps) == raw
  }

  /** Sections 2 to 7: keys are strings and strings are standard strings. */
  ghost predicate Standard(n: Node) {
    match n
    case StringNode(raw) => StandardString(raw)
    case NumberNode(_, _, _, _) => GoodNumber(n)
    case EmptyArray(blank) => Spaces(blank)
    case EmptyObject(blank) => Spaces(blank)
    case ArrayNode(es) => StandardElems(es)
    case ObjectNode(ms) => StandardMembers(ms)
    case _ => true
  }

  ghost predicate StandardPadded(p: Padded) {
    Spaces(p.lead) && Standard(p.node) && Spaces(p.trail)
  }

  ghost predicate StandardElems(es: Elems) {
    match es
    case LastElem(e) => StandardPadded(e)
    case MoreElems(e, rest) => StandardPadded(e) && StandardElems(rest)
  }

  ghost predicate StandardMembers(ms: Members) {
    match ms
    case LastMember(k, v) => StandardPadded(k) && k.node.StringNode? && StandardPadded(v)
    case MoreMembers(k, v, more) =>
      StandardPadded(k) && k.node.StringNode? && StandardPadded(v) && StandardMembers(more)
  }

  // ---------------------------------------------------------------- standard texts are accepted

  lemma {:induction false} ClosedRaw(bs: seq<Byte>, rest: seq<Byte>)
    requires QUOTE !in bs && BACKSLASH !in bs
    ensures Closed(bs + rest) == Closed(rest)
  {
    if bs == [] {
      assert bs + rest == rest;
    } else {
      assert bs[0] in bs;
      assert (bs + rest)[1..] == bs[1..] + rest;
      ClosedRaw(bs[1..], rest);
    }
  }

  /** The escape of a code unit neither opens nor closes anything. */
  lemma {:induction false} ClosedUnit(h: seq<Byte>, rest: seq<Byte>)
    requires IsHex4(h)
    ensures Closed([BACKSLASH, LOWER_U] + h + rest) == Closed(rest)
  {
    var s := [BACKSLASH, LOWER_U] + h + rest;
    assert s[2..] == h + rest;
    ClosedRaw(h, rest);
  }

  lemma {:induction false} ClosedPiece(p: Piece, rest: seq<Byte>)
    requires LegalPiece(p)
    ensures Closed(PieceText(p) + rest) == Closed(rest)
  {
    match p
    case Raw(c) => ClosedRaw(Encode(c), rest);
    case Short(_) => assert (PieceText(p) + rest)[2..] == rest;
    case Unit(c, k) =>
      HexTextValue(c, k);
      ClosedUnit(HexText(c, k), rest);
    case Pair(c, high, low) =>
      var h, l := HexText(HighUnit(c), high), HexText(LowUnit(c), low);
      HexTextValue(HighUnit(c), high);
      HexTextValue(LowUnit(c), low);
      var tail := [BACKSLASH, LOWER_U] + l + rest;
      assert PieceText(p) + rest == [BACKSLASH, LOWER_U] + h + tail;
      hide Closed;
      ClosedUnit(h, tail);
      ClosedUnit(l, rest);
  }

  lemma {:induction false} ClosedText(ps: seq<Piece>)
    requires Legal(ps)
    ensures Closed(Text(ps))
  {
    if ps != [] {
      ClosedPiece(ps[0], Text(ps[1..]));
      ClosedText(ps[1..]);
    }
  }

  lemma {:induction false} StandardIsAccepted(n: Node)
    requires Standard(n)
    ensures Accepted(n)
  {
    match n
    case StringNode(raw) =>
      var ps :| Legal(ps) && Text(ps) == raw;
      ClosedText(ps);
      UnescapeInverts(ps);
    case ArrayNode(es) => StandardElemsAccepted(es);
    case ObjectNode(ms) => StandardMembersAccepted(ms);
    case _ =>
  }

  lemma {:induction false} StandardElemsAccepted(es: Elems)
    requires StandardElems(es)
    ensures AcceptedElems(es)
  {
    StandardIsAccepted(es.e.node);
    if es.MoreElems? {
      StandardElemsAccepted(es.rest);
    }
  }

  lemma {:induction false} StandardMembersAccepted(ms: Members)
    requires StandardMembers(ms)
    ensures AcceptedMembers(ms)
  {
    StandardIsAccepted(ms.k.node);
    StandardIsAccepted(ms.v.node);
    if ms.MoreMembers? {
      StandardMembersAccepted(ms.more);
    }
  }
}

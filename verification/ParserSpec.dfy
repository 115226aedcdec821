/** What the zero-copy parser computes, as functions of the unread input: each returns the syntax
    tree it recognised and the input left over. */
module ParserSpec {
  import opened Json
  import opened Utf8
  import opened Escapes
  import opened JsonText

  datatype Error = InvalidInput | SecurityViolation

  datatype Parse<+T> = Ok(tree: T, rest: seq<Byte>) | Err(error: Error)

  function SkipSpace(s: seq<Byte>): (r: seq<Byte>)
    ensures |r| <= |s|
    ensures r == [] || !IsSpace(r[0])
  {
    if s != [] && IsSpace(s[0]) then SkipSpace(s[1..]) else s
  }

  predicate StartsWith(s: seq<Byte>, b: Byte) {
    s != [] && s[0] == b
  }

  // ---------------------------------------------------------------- strings

  /** How far the closing quote is, stepping over escapes two bytes at a time. */
  function StringEnd(s: seq<Byte>): (r: Option<nat>)
    ensures r.Some? ==> r.value < |s| && s[r.value] == QUOTE
  {
    if s == [] then None
    else if s[0] == QUOTE then Some(0)
    else if s[0] == BACKSLASH then
      if |s| < 2 then None
      else
        var r := StringEnd(s[2..]);
        if r.Some? then Some(r.value + 2) else None
    else
      var r := StringEnd(s[1..]);
      if r.Some? then Some(r.value + 1) else None
  }

  function ParseString(s: seq<Byte>): (r: Parse<Node>)
    requires StartsWith(s, QUOTE)
    ensures r.Ok? ==> |r.rest| < |s|
  {
    var end := StringEnd(s[1..]);
    if end.None? then Err(InvalidInput)
    else
      var raw := s[1..][..end.value];
      if BACKSLASH in raw && Unescape(raw).None? then Err(InvalidInput)
      else Ok(StringNode(raw), s[1..][end.value + 1..])
  }

  // ---------------------------------------------------------------- numbers

  /** Length of the run of digits `s` starts with. */
  function DigitRun(s: seq<Byte>): (n: nat)
    ensures n <= |s|
  {
    if s != [] && IsDigit(s[0]) then 1 + DigitRun(s[1..]) else 0
  }

  function ParseFraction(s: seq<Byte>): (r: Parse<Option<seq<Byte>>>)
    ensures r.Ok? ==> |r.rest| <= |s|
  {
    if StartsWith(s, DOT) then
      var n := DigitRun(s[1..]);
      if n == 0 then Err(InvalidInput) else Ok(Some(s[1..][..n]), s[1..][n..])
    else Ok(None, s)
  }

  function ExponentDigits(mark: Byte, sign: Option<Byte>, s: seq<Byte>): (r: Parse<Option<Exponent>>)
    ensures r.Ok? ==> |r.rest| <= |s|
  {
    var n := DigitRun(s);
    if n == 0 then Err(InvalidInput) else Ok(Some(Exponent(mark, sign, s[..n])), s[n..])
  }

  function ParseExponent(s: seq<Byte>): (r: Parse<Option<Exponent>>)
    ensures r.Ok? ==> |r.rest| <= |s|
  {
    if s == [] || !IsExponentMark(s[0]) then Ok(None, s)
    else if |s| > 1 && (s[1] == PLUS || s[1] == MINUS) then ExponentDigits(s[0], Some(s[1]), s[2..])
    else ExponentDigits(s[0], None, s[1..])
  }

  function ParseWhole(s: seq<Byte>): (r: Parse<seq<Byte>>)
    ensures r.Ok? ==> |r.rest| < |s|
  {
    if s == [] then Err(InvalidInput)
    else if s[0] == ZERO then Ok([ZERO], s[1..])
    else if IsDigit(s[0]) then Ok(s[..DigitRun(s)], s[DigitRun(s)..])
    else Err(InvalidInput)
  }

  function ParseMagnitude(s: seq<Byte>, negative: bool): (r: Parse<Node>)
    ensures r.Ok? ==> |r.rest| < |s| && r.tree.NumberNode?
  {
    var whole := ParseWhole(s);
    if whole.Err? then Err(whole.error)
    else
      var frac := ParseFraction(whole.rest);
      if frac.Err? then Err(frac.error)
      else
        var exp := ParseExponent(frac.rest);
        if exp.Err? then Err(exp.error)
        else Ok(NumberNode(negative, whole.tree, frac.tree, exp.tree), exp.rest)
  }

  function ParseNumber(s: seq<Byte>): (r: Parse<Node>)
    ensures r.Ok? ==> |r.rest| < |s| && r.tree.NumberNode?
  {
    if StartsWith(s, MINUS) then ParseMagnitude(s[1..], true) else ParseMagnitude(s, false)
  }

  // ---------------------------------------------------------------- values

  function ParseLiteral(s: seq<Byte>, text: seq<Byte>, node: Node): (r: Parse<Node>)
    requires text != []
    ensures r.Ok? ==> |r.rest| < |s|
  {
    if text <= s then Ok(node, s[|text|..]) else Err(InvalidInput)
  }

  function ParseBoolean(s: seq<Byte>): (r: Parse<Node>)
    ensures r.Ok? ==> |r.rest| < |s|
  {
    if TRUE_TEXT <= s then ParseLiteral(s, TRUE_TEXT, TrueNode) else ParseLiteral(s, FALSE_TEXT, FalseNode)
  }

  /** A value at the start of `s`, with `depth` arrays and objects already open. */
  function ParseNode(s: seq<Byte>, depth: nat, max: nat): (r: Parse<Node>)
    ensures r.Ok? ==> |r.rest| < |s|
    decreases |s|, 0
  {
    if s == [] then Err(InvalidInput)
    else if s[0] == QUOTE then ParseString(s)
    else if s[0] == OPEN_BRACE then ParseObject(s, depth, max)
    else if s[0] == OPEN_BRACKET then ParseArray(s, depth, max)
    else if s[0] == 0x74 || s[0] == 0x66 then ParseBoolean(s)
    else if s[0] == 0x6E then ParseLiteral(s, NULL_TEXT, NullNode)
    else if s[0] == MINUS || IsDigit(s[0]) then ParseNumber(s)
    else Err(InvalidInput)
  }

  function ParseObject(s: seq<Byte>, depth: nat, max: nat): (r: Parse<Node>)
    requires s != []
    ensures r.Ok? ==> |r.rest| < |s|
    decreases |s| - 1, 4
  {
    if depth + 1 > max then Err(SecurityViolation)
    else
      var inside := s[1..];
      var t := SkipSpace(inside);
      if StartsWith(t, CLOSE_BRACE) then Ok(EmptyObject(inside[..|inside| - |t|]), t[1..])
      else
        var ms := ParseMembers(inside, depth + 1, max);
        if ms.Err? then Err(ms.error) else Ok(ObjectNode(ms.tree), ms.rest)
  }

  function ParseArray(s: seq<Byte>, depth: nat, max: nat): (r: Parse<Node>)
    requires s != []
    ensures r.Ok? ==> |r.rest| < |s|
    decreases |s| - 1, 4
  {
    if depth + 1 > max then Err(SecurityViolation)
    else
      var inside := s[1..];
      var t := SkipSpace(inside);
      if StartsWith(t, CLOSE_BRACKET) then Ok(EmptyArray(inside[..|inside| - |t|]), t[1..])
      else
        var es := ParseElems(inside, depth + 1, max);
        if es.Err? then Err(es.error) else Ok(ArrayNode(es.tree), es.rest)
  }

  /** A value with the whitespace before and after it. */
  function ParsePadded(s: seq<Byte>, depth: nat, max: nat): (r: Parse<Padded>)
    ensures r.Ok? ==> |r.rest| < |s|
    decreases |s|, 1
  {
    var t := SkipSpace(s);
    var n := ParseNode(t, depth, max);
    if n.Err? then Err(n.error)
    else
      var u := SkipSpace(n.rest);
      Ok(Padded(s[..|s| - |t|], n.tree, n.rest[..|n.rest| - |u|]), u)
  }

  /** An array element and the delimiter after it: a comma, or the closing bracket. */
  function ParseElem(s: seq<Byte>, depth: nat, max: nat): (r: Parse<(Padded, bool)>)
    ensures r.Ok? ==> |r.rest| < |s|
    decreases |s|, 2
  {
    var e := ParsePadded(s, depth, max);
    if e.Err? then Err(e.error)
    else if StartsWith(e.rest, CLOSE_BRACKET) then Ok((e.tree, false), e.rest[1..])
    else if StartsWith(e.rest, COMMA) then Ok((e.tree, true), e.rest[1..])
    else Err(InvalidInput)
  }

  /** Array elements up to and including the closing bracket. */
  function ParseElems(s: seq<Byte>, depth: nat, max: nat): (r: Parse<Elems>)
    ensures r.Ok? ==> |r.rest| < |s|
    decreases |s|, 3
  {
    var e := ParseElem(s, depth, max);
    if e.Err? then Err(e.error)
    else if !e.tree.1 then Ok(LastElem(e.tree.0), e.rest)
    else
      var es := ParseElems(e.rest, depth, max);
      if es.Err? then Err(es.error) else Ok(MoreElems(e.tree.0, es.tree), es.rest)
  }

  /** Key, colon and value, each with its whitespace. */
  function ParseMember(s: seq<Byte>, depth: nat, max: nat): (r: Parse<(Padded, Padded)>)
    ensures r.Ok? ==> |r.rest| < |s|
    decreases |s|, 2
  {
    var k := ParsePadded(s, depth, max);
    if k.Err? then Err(k.error)
    else if !StartsWith(k.rest, COLON) then Err(InvalidInput)
    else
      var v := ParsePadded(k.rest[1..], depth, max);
      if v.Err? then Err(v.error) else Ok((k.tree, v.tree), v.rest)
  }

  /** Object members up to and including the closing brace. */
  function ParseMembers(s: seq<Byte>, depth: nat, max: nat): (r: Parse<Members>)
    ensures r.Ok? ==> |r.rest| < |s|
    decreases |s|, 3
  {
    var m := ParseMember(s, depth, max);
    if m.Err? then Err(m.error)
    else if StartsWith(m.rest, CLOSE_BRACE) then Ok(LastMember(m.tree.0, m.tree.1), m.rest[1..])
    else if !StartsWith(m.rest, COMMA) then Err(InvalidInput)
    else
      var ms := ParseMembers(m.rest[1..], depth, max);
      if ms.Err? then Err(ms.error) else Ok(MoreMembers(m.tree.0, m.tree.1, ms.tree), ms.rest)
  }

  /** A whole value: leading whitespace, then the node. */
  function ParseValue(s: seq<Byte>, depth: nat, max: nat): Parse<Node> {
    ParseNode(SkipSpace(s), depth, max)
  }
}

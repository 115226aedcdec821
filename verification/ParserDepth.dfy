/** A grammatical text that nests too deep is refused for that reason, wherever the excess is. */
module ParserDepth {
  import opened Utf8
  import opened Escapes
  import opened JsonText
  import opened ParserSpec
  import opened ParserGrammar

  lemma {:induction false} NodeTooDeep(n: Node, rest: seq<Byte>, depth: nat, max: nat)
    requires Accepted(n) && depth <= max && depth + Depth(n) > max
    ensures ParseNode(NodeText(n) + rest, depth, max) == Err(SecurityViolation)
    decreases n, 0
  {
    match n
    case ArrayNode(es) => ArrayTooDeep(es, rest, depth, max);
    case ObjectNode(ms) => ObjectTooDeep(ms, rest, depth, max);
    case EmptyArray(_) =>
    case EmptyObject(_) =>
  }

  lemma {:induction false} ArrayTooDeep(es: Elems, rest: seq<Byte>, depth: nat, max: nat)
    requires AcceptedElems(es) && depth <= max && depth + 1 + ElemsDepth(es) > max
    ensures ParseNode([OPEN_BRACKET] + ElemsText(es) + rest, depth, max) == Err(SecurityViolation)
    decreases es, 1
  {
    var t := ElemsText(es) + rest;
    Associate([OPEN_BRACKET], ElemsText(es), rest);
    Divide([OPEN_BRACKET], t);
    if depth + 1 <= max {
      ElemsTooDeep(es, rest, depth + 1, max);
    }
  }

  lemma {:induction false} ObjectTooDeep(ms: Members, rest: seq<Byte>, depth: nat, max: nat)
    requires AcceptedMembers(ms) && depth <= max && depth + 1 + MembersDepth(ms) > max
    ensures ParseNode([OPEN_BRACE] + MembersText(ms) + rest, depth, max) == Err(SecurityViolation)
    decreases ms, 1
  {
    var t := MembersText(ms) + rest;
    Associate([OPEN_BRACE], MembersText(ms), rest);
    Divide([OPEN_BRACE], t);
    if depth + 1 <= max {
      MembersTooDeep(ms, rest, depth + 1, max);
    }
  }

  lemma {:induction false} PaddedTooDeep(p: Padded, rest: seq<Byte>, depth: nat, max: nat)
    requires AcceptedPadded(p) && depth <= max && depth + Depth(p.node) > max
    ensures ParsePadded(PaddedText(p) + rest, depth, max) == Err(SecurityViolation)
    ensures var t := SkipSpace(PaddedText(p) + rest);
            !StartsWith(t, CLOSE_BRACKET) && !StartsWith(t, CLOSE_BRACE)
    decreases p, 1
  {
    var after := p.trail + rest;
    var t := NodeText(p.node) + after;
    Associate(NodeText(p.node), p.trail, rest);
    Associate(p.lead, NodeText(p.node) + p.trail, rest);
    NodeStarts(p.node, after);
    SkipSpaceExact(p.lead, t);
    NodeTooDeep(p.node, after, depth, max);
  }

  lemma {:induction false} ElemsTooDeep(es: Elems, rest: seq<Byte>, depth: nat, max: nat)
    requires AcceptedElems(es) && depth <= max && depth + ElemsDepth(es) > max
    ensures ParseElems(ElemsText(es) + rest, depth, max) == Err(SecurityViolation)
    ensures !StartsWith(SkipSpace(ElemsText(es) + rest), CLOSE_BRACKET)
    decreases es, 0
  {
    var p := PaddedText(es.e);
    var tail := if es.LastElem? then [CLOSE_BRACKET] else [COMMA] + ElemsText(es.rest);
    Associate(p, tail, rest);
    if depth + Depth(es.e.node) > max {
      PaddedTooDeep(es.e, tail + rest, depth, max);
    } else {
      Associate([COMMA], ElemsText(es.rest), rest);
      ElemComplete(es.e, true, ElemsText(es.rest) + rest, depth, max);
      ElemsTooDeep(es.rest, rest, depth, max);
    }
  }

  /** The excess is in the key, in the value, or in a later member. */
  lemma {:induction false} MembersTooDeep(ms: Members, rest: seq<Byte>, depth: nat, max: nat)
    requires AcceptedMembers(ms) && depth <= max && depth + MembersDepth(ms) > max
    ensures ParseMembers(MembersText(ms) + rest, depth, max) == Err(SecurityViolation)
    ensures !StartsWith(SkipSpace(MembersText(ms) + rest), CLOSE_BRACE)
    decreases ms, 0
  {
    var k, v := PaddedText(ms.k), PaddedText(ms.v);
    var tail := if ms.LastMember? then [CLOSE_BRACE] else [COMMA] + MembersText(ms.more);
    AssociateMember(k, v, tail, rest);
    if depth + Depth(ms.k.node) > max {
      PaddedTooDeep(ms.k, [COLON] + (v + (tail + rest)), depth, max);
    } else if depth + Depth(ms.v.node) > max {
      PaddedComplete(ms.k, [COLON] + (v + (tail + rest)), depth, max);
      Divide([COLON], v + (tail + rest));
      PaddedTooDeep(ms.v, tail + rest, depth, max);
    } else {
      Associate([COMMA], MembersText(ms.more), rest);
      MemberComplete(ms, [COMMA] + (MembersText(ms.more) + rest), depth, max);
      Divide([COMMA], MembersText(ms.more) + rest);
      MembersTooDeep(ms.more, rest, depth, max);
    }
  }
}

/** The linear pre-parse scan of nesting depth, and its agreement with the recursive parser. */
module DepthScanner {
  import opened Utf8
  import opened Escapes
  import opened JsonText
  import opened ParserSpec
  import opened ParserGrammar

  datatype Scan = Scan(depth: nat, maxDepth: nat, inString: bool, escaped: bool)

  /** The scanner's treatment of one byte, without its early exit. */
  function Step(st: Scan, b: Byte): Scan {
    if st.inString then
      if st.escaped then st.(escaped := false)
      else if b == BACKSLASH then st.(escaped := true)
      else if b == QUOTE then st.(inString := false)
      else st
    else if b == QUOTE then st.(inString := true)
    else if b == OPEN_BRACE || b == OPEN_BRACKET then
      st.(depth := st.depth + 1, maxDepth := Max(st.maxDepth, st.depth + 1))
    else if b == CLOSE_BRACE || b == CLOSE_BRACKET then
      st.(depth := if st.depth == 0 then 0 else st.depth - 1)
    else st
  }

  function Run(st: Scan, s: seq<Byte>): (r: Scan)
    ensures r.maxDepth >= st.maxDepth
    decreases |s|
  {
    if s == [] then st else Run(Step(st, s[0]), s[1..])
  }

  const START: Scan := Scan(0, 0, false, false)

  lemma {:induction false} RunConcat(st: Scan, a: seq<Byte>, b: seq<Byte>)
    ensures Run(st, a + b) == Run(Run(st, a), b)
    decreases |a|
  {
    if a == [] {
      assert a + b == b;
    } else {
      assert (a + b)[1..] == a[1..] + b;
      RunConcat(Step(st, a[0]), a[1..], b);
    }
  }

  /** The scan accepts exactly the inputs in which no prefix is nested deeper than the limit. */
  method ValidateJsonDepthBytes(input: seq<Byte>, limit: nat) returns (ok: bool)
    ensures ok <==> Run(START, input).maxDepth <= limit
  {
    var depth: nat := 0;
    var maxDepth: nat := 0;
    var inString := false;
    var escaped := false;
    var i := 0;
    assert input[0..] == input;
    while i < |input|
      invariant 0 <= i <= |input|
      invariant Run(START, input) == Run(Scan(depth, maxDepth, inString, escaped), input[i..])
      invariant maxDepth <= limit
      decreases |input| - i
    {
      var byte := input[i];
      assert input[i..][1..] == input[i + 1..];
      if inString {
        if escaped {
          escaped := false;
        } else if byte == BACKSLASH {
          escaped := true;
        } else if byte == QUOTE {
          inString := false;
        }
      } else if byte == QUOTE {
        inString := true;
      } else if byte == OPEN_BRACE || byte == OPEN_BRACKET {
        depth := depth + 1;
        maxDepth := if maxDepth < depth then depth else maxDepth;
        if maxDepth > limit {
          return false;
        }
      } else if byte == CLOSE_BRACE || byte == CLOSE_BRACKET {
        depth := if depth == 0 then 0 else depth - 1;
      }
      i := i + 1;
    }
    ok := true;
  }

  // ---------------------------------------------------------------- any bytes outside strings

  /** Openings less closings in a stretch of bytes. */
  function Excess(s: seq<Byte>): int {
    if s == [] then 0
    else
      var b := s[|s| - 1];
      Excess(s[..|s| - 1]) + Weight(b)
  }

  lemma {:induction false} RunSnoc(s: seq<Byte>, b: Byte)
    ensures Run(START, s + [b]) == Step(Run(START, s), b)
  {
    RunConcat(START, s, [b]);
    assert [b][1..] == [];
  }

  function Weight(b: Byte): int {
    if b == 0x7B || b == 0x5B then 1 else if b == 0x7D || b == 0x5D then -1 else 0
  }

  /** `d` is the excess of the ending from `i` on. */
  ghost predicate Ending(s: seq<Byte>, i: nat, d: int) {
    i <= |s| && Excess(s[i..]) == d
  }

  lemma {:induction false} EndingSnoc(front: seq<Byte>, b: Byte, i: nat, d: int)
    ensures i <= |front| ==> (Ending(front + [b], i, d) <==> Ending(front, i, d - Weight(b)))
    ensures Ending(front + [b], |front| + 1, d) <==> d == 0
  {
    var s := front + [b];
    assert s[|s|..] == [];
    if i <= |front| {
      assert s[i..][..|front| - i] == front[i..];
    }
  }

  /** The depth is the largest excess of an ending. */
  ghost predicate DeepestEnding(s: seq<Byte>, depth: nat) {
    (forall i, d :: Ending(s, i, d) ==> d <= depth) && exists i :: Ending(s, i, depth)
  }

  lemma {:induction false} DeepestEndingSnoc(front: seq<Byte>, b: Byte, depth: nat)
    requires DeepestEnding(front, depth)
    ensures DeepestEnding(front + [b], if depth + Weight(b) < 0 then 0 else depth + Weight(b))
  {
    hide Ending, Weight;
    var next := if depth + Weight(b) < 0 then 0 else depth + Weight(b);
    forall i, d | Ending(front + [b], i, d) ensures d <= next {
      EndingBound(front, b, i, d);
    }
    var i :| Ending(front, i, depth);
    EndingIn(front, i, depth);
    EndingSnoc(front, b, i, depth + Weight(b));
    EndingSnoc(front, b, |front| + 1, 0);
  }

  lemma {:induction false} EndingBound(front: seq<Byte>, b: Byte, i: nat, d: int)
    ensures Ending(front + [b], i, d) ==> Ending(front, i, d - Weight(b)) || d == 0
  {
    EndingSnoc(front, b, i, d);
  }

  lemma EndingIn(s: seq<Byte>, i: nat, d: int)
    requires Ending(s, i, d)
    ensures i <= |s|
  {
  }

  /** Outside strings the scanner's depth is the largest excess of any ending of the bytes. */
  lemma {:induction false} DepthIsExcess(s: seq<Byte>)
    requires QUOTE !in s
    ensures var st := Run(START, s);
            !st.inString && !st.escaped && st.depth <= st.maxDepth && DeepestEnding(s, st.depth)
  {
    if s == [] {
      assert Ending([], 0, 0);
    } else {
      hide Run, DeepestEnding;
      var n := |s| - 1;
      assert s == s[..n] + [s[n]] && s[n] in s;
      DepthIsExcess(s[..n]);
      RunSnoc(s[..n], s[n]);
      DeepestEndingSnoc(s[..n], s[n], Run(START, s[..n]).depth);
    }
  }

  /** `d` is the excess of the stretch that ends at `j`, from `i` on. */
  ghost predicate Stretch(s: seq<Byte>, i: nat, j: nat, d: int) {
    j <= |s| && Ending(s[..j], i, d)
  }

  /** The largest excess of any stretch. */
  ghost predicate DeepestStretch(s: seq<Byte>, depth: nat) {
    (forall i, j, d :: Stretch(s, i, j, d) ==> d <= depth) && exists i, j :: Stretch(s, i, j, depth)
  }

  lemma {:induction false} StretchSnoc(front: seq<Byte>, b: Byte, i: nat, j: nat, d: int)
    ensures j <= |front| ==> (Stretch(front + [b], i, j, d) <==> Stretch(front, i, j, d))
    ensures j == |front| + 1 ==> (Stretch(front + [b], i, j, d) <==> Ending(front + [b], i, d))
  {
    var s := front + [b];
    if j <= |front| {
      assert s[..j] == front[..j];
    }
    assert s[..|s|] == s;
  }

  lemma {:induction false} DeepestStretchSnoc(front: seq<Byte>, b: Byte, before: nat, depth: nat)
    requires DeepestStretch(front, before) && DeepestEnding(front + [b], depth)
    ensures DeepestStretch(front + [b], Max(before, depth))
  {
    forall i, j, d | Stretch(front + [b], i, j, d) ensures d <= Max(before, depth) {
      StretchSnoc(front, b, i, j, d);
    }
    hide Stretch, Ending;
    var i, j :| Stretch(front, i, j, before);
    StretchIn(front, i, j, before);
    StretchSnoc(front, b, i, j, before);
    var k :| Ending(front + [b], k, depth);
    StretchSnoc(front, b, k, |front| + 1, depth);
  }

  lemma StretchIn(s: seq<Byte>, i: nat, j: nat, d: int)
    requires Stretch(s, i, j, d)
    ensures j <= |s|
  {
  }

  /** The depth the scanner reports is the largest excess of openings over closings in any stretch of
      the bytes, closings without an opening notwithstanding. */
  lemma {:induction false} MaxDepthIsExcess(s: seq<Byte>)
    requires QUOTE !in s
    ensures DeepestStretch(s, Run(START, s).maxDepth)
  {
    if s == [] {
      assert Stretch([], 0, 0, 0);
    } else {
      hide Run, DeepestStretch, DeepestEnding;
      var n := |s| - 1;
      assert s == s[..n] + [s[n]] && s[n] in s;
      MaxDepthIsExcess(s[..n]);
      DepthIsExcess(s[..n]);
      DepthIsExcess(s);
      RunSnoc(s[..n], s[n]);
      DeepestStretchSnoc(s[..n], s[n], Run(START, s[..n]).maxDepth, Run(START, s).depth);
    }
  }

  // ---------------------------------------------------------------- scanning the text of a tree

  /** Bytes that mean nothing to the scanner outside a string. */
  predicate Inert(b: Byte) {
    b != QUOTE && b != OPEN_BRACE && b != OPEN_BRACKET && b != CLOSE_BRACE && b != CLOSE_BRACKET
  }

  lemma {:induction false} RunInert(st: Scan, s: seq<Byte>)
    requires !st.inString && forall b :: b in s ==> Inert(b)
    ensures Run(st, s) == st
    decreases |s|
  {
    if s != [] {
      assert s[0] in s;
      RunInert(st, s[1..]);
    }
  }

  /** A closed string body leaves the scanner inside the string, ready for the quote. */
  lemma {:induction false} RunClosed(st: Scan, raw: seq<Byte>)
    requires st.inString && !st.escaped && Closed(raw)
    ensures Run(st, raw) == st
    decreases |raw|
  {
    if raw == [] {
    } else if raw[0] == BACKSLASH {
      assert raw[1..][1..] == raw[2..];
      assert Step(Step(st, raw[0]), raw[1]) == st;
      RunClosed(st, raw[2..]);
    } else {
      RunClosed(st, raw[1..]);
    }
  }

  lemma {:induction false} RunString(st: Scan, raw: seq<Byte>)
    requires !st.inString && !st.escaped && Closed(raw)
    ensures Run(st, [QUOTE] + (raw + [QUOTE])) == st
  {
    var inside := st.(inString := true);
    RunOne(st, QUOTE);
    RunOne(inside, QUOTE);
    RunConcat(st, [QUOTE], raw + [QUOTE]);
    RunConcat(inside, raw, [QUOTE]);
    RunClosed(inside, raw);
  }

  lemma {:induction false} RunOne(st: Scan, b: Byte)
    ensures Run(st, [b]) == Step(st, b)
  {
    assert [b][1..] == [];
  }

  lemma {:induction false} RunNumber(st: Scan, n: Node)
    requires !st.inString && n.NumberNode? && GoodNumber(n)
    ensures Run(st, NodeText(n)) == st
  {
    forall b | b in NumberText(n) ensures Inert(b) {
      NumberBytes(n, b);
    }
    RunInert(st, NumberText(n));
  }

  lemma {:induction false} NumberBytes(n: Node, b: Byte)
    requires n.NumberNode? && GoodNumber(n) && b in NumberText(n)
    ensures Inert(b)
  {
    if b in n.whole || b in FractionText(n.frac) || b in ExponentText(n.exp) {
    } else {
      assert b == MINUS;
    }
  }

  /** State after reading something that nests `d` levels deeper than the scanner's position. */
  function Nested(st: Scan, d: nat): Scan {
    st.(maxDepth := Max(st.maxDepth, st.depth + d))
  }

  /** Reading the text of an accepted tree returns the scanner to its depth, outside any string,
      having seen exactly the tree's nesting depth. */
  lemma {:induction false} RunNode(st: Scan, n: Node)
    requires !st.inString && !st.escaped && st.depth <= st.maxDepth && Accepted(n)
    ensures Run(st, NodeText(n)) == Nested(st, Depth(n))
    decreases n, 0
  {
    match n
    case StringNode(raw) => RunString(st, raw);
    case NumberNode(_, _, _, _) => RunNumber(st, n);
    case EmptyArray(blank) => RunBlank(st, OPEN_BRACKET, blank, CLOSE_BRACKET);
    case EmptyObject(blank) => RunBlank(st, OPEN_BRACE, blank, CLOSE_BRACE);
    case ArrayNode(es) =>
      RunOpen(st, OPEN_BRACKET, ElemsText(es));
      RunElems(Step(st, OPEN_BRACKET), es);
    case ObjectNode(ms) =>
      RunOpen(st, OPEN_BRACE, MembersText(ms));
      RunMembers(Step(st, OPEN_BRACE), ms);
    case TrueNode => RunInert(st, TRUE_TEXT);
    case FalseNode => RunInert(st, FALSE_TEXT);
    case NullNode => RunInert(st, NULL_TEXT);
  }

  lemma {:induction false} RunOpen(st: Scan, open: Byte, text: seq<Byte>)
    ensures Run(st, [open] + text) == Run(Step(st, open), text)
  {
    RunOne(st, open);
    RunConcat(st, [open], text);
  }

  lemma {:induction false} RunClose(st: Scan, text: seq<Byte>, close: Byte)
    ensures Run(st, text + [close]) == Step(Run(st, text), close)
  {
    RunConcat(st, text, [close]);
    RunOne(Run(st, text), close);
  }

  lemma {:induction false} RunBlank(st: Scan, open: Byte, blank: seq<Byte>, close: Byte)
    requires !st.inString && !st.escaped && st.depth <= st.maxDepth && Spaces(blank)
    requires (open == OPEN_BRACKET && close == CLOSE_BRACKET) || (open == OPEN_BRACE && close == CLOSE_BRACE)
    ensures Run(st, [open] + (blank + [close])) == Nested(st, 1)
  {
    RunOpen(st, open, blank + [close]);
    RunClose(Step(st, open), blank, close);
    RunInert(Step(st, open), blank);
  }

  lemma {:induction false} RunPadded(st: Scan, p: Padded)
    requires !st.inString && !st.escaped && st.depth <= st.maxDepth && AcceptedPadded(p)
    ensures Run(st, PaddedText(p)) == Nested(st, Depth(p.node))
    decreases p, 1
  {
    RunConcat(st, p.lead, NodeText(p.node) + p.trail);
    RunInert(st, p.lead);
    RunConcat(st, NodeText(p.node), p.trail);
    RunNode(st, p.node);
    RunInert(Nested(st, Depth(p.node)), p.trail);
  }

  /** Elements are read one level inside, and the closing bracket steps out again. */
  lemma {:induction false} RunElems(st: Scan, es: Elems)
    requires !st.inString && !st.escaped && 1 <= st.depth <= st.maxDepth && AcceptedElems(es)
    ensures Run(st, ElemsText(es)) == Nested(st, ElemsDepth(es)).(depth := st.depth - 1)
    decreases es, 0
  {
    var p := PaddedText(es.e);
    RunPadded(st, es.e);
    var mid := Nested(st, Depth(es.e.node));
    if es.LastElem? {
      RunClose(st, p, CLOSE_BRACKET);
    } else {
      RunConcat(st, p, [COMMA] + ElemsText(es.rest));
      RunOpen(mid, COMMA, ElemsText(es.rest));
      RunElems(mid, es.rest);
    }
  }

  lemma {:induction false} RunMember(st: Scan, ms: Members, tail: seq<Byte>)
    requires !st.inString && !st.escaped && st.depth <= st.maxDepth
    requires AcceptedPadded(ms.k) && AcceptedPadded(ms.v)
    ensures Run(st, PaddedText(ms.k) + ([COLON] + (PaddedText(ms.v) + tail)))
            == Run(Nested(st, Max(Depth(ms.k.node), Depth(ms.v.node))), tail)
    decreases ms, 0
  {
    hide Run, PaddedText, AcceptedPadded, Depth;
    var k, v := PaddedText(ms.k), PaddedText(ms.v);
    RunConcat(st, k, [COLON] + (v + tail));
    RunPadded(st, ms.k);
    var afterKey := Nested(st, Depth(ms.k.node));
    RunOpen(afterKey, COLON, v + tail);
    RunConcat(afterKey, v, tail);
    RunPadded(afterKey, ms.v);
  }

  lemma {:induction false} RunMembers(st: Scan, ms: Members)
    requires !st.inString && !st.escaped && 1 <= st.depth <= st.maxDepth && AcceptedMembers(ms)
    ensures Run(st, MembersText(ms)) == Nested(st, MembersDepth(ms)).(depth := st.depth - 1)
    decreases ms, 1
  {
    var after := Nested(st, Max(Depth(ms.k.node), Depth(ms.v.node)));
    if ms.LastMember? {
      RunMember(st, ms, [CLOSE_BRACE]);
      RunOne(after, CLOSE_BRACE);
    } else {
      RunMember(st, ms, [COMMA] + MembersText(ms.more));
      RunOpen(after, COMMA, MembersText(ms.more));
      RunMembers(after, ms.more);
    }
  }

  // ---------------------------------------------------------------- the agreement

  /** If the parser succeeds, scanning the bytes it consumed ends outside any string at depth 0,
      sees exactly the nesting depth of what was parsed, and passes the same limit. */
  lemma {:induction false} ScannerAgreesWithParser(input: seq<Byte>, max: nat)
    ensures var r := ParserSpec.ParseValue(input, 0, max);
            r.Ok? ==>
              var consumed := input[..|input| - |r.rest|];
              && Run(START, consumed) == Scan(0, Depth(r.tree), false, false)
              && Depth(r.tree) <= max
  {
    var s := SkipSpace(input);
    var r := ParseNode(s, 0, max);
    if r.Ok? {
      hide Run, NodeText, Accepted, Depth, ParseNode, SkipSpace;
      ParserSound(s, 0, max);
      SkipSpaceSplit(input);
      var lead := input[..|input| - |s|];
      Associate(lead, NodeText(r.tree), r.rest);
      Divide(lead + NodeText(r.tree), r.rest);
      RunConcat(START, lead, NodeText(r.tree));
      RunInert(START, lead);
      RunNode(START, r.tree);
    }
  }
}

/** The parser accepts exactly its grammar: what it recognises is the text of an accepted tree
    within the depth limit, and it recognises the text of every such tree. */
module ParserGrammar {
  import opened Json
  import opened Utf8
  import opened Escapes
  import opened JsonText
  import opened ParserSpec

  /** A byte that would make the parser read on past the number `n`. */
  predicate Continues(n: Node, b: Byte)
    requires n.NumberNode?
  {
    if n.exp.Some? then IsDigit(b)
    else if n.frac.Some? then IsDigit(b) || IsExponentMark(b)
    else b == DOT || IsExponentMark(b) || (IsDigit(b) && n.whole != [ZERO])
  }

  /** Reading `n` stops where `rest` begins; only a number can be read on. */
  predicate Stops(n: Node, rest: seq<Byte>) {
    n.NumberNode? && rest != [] ==> !Continues(n, rest[0])
  }

  // ---------------------------------------------------------------- byte strings

  lemma {:induction false} Associate(a: seq<Byte>, b: seq<Byte>, c: seq<Byte>)
    ensures a + b + c == a + (b + c)
  {
  }

  lemma {:induction false} SplitAt(s: seq<Byte>, k: nat)
    requires k <= |s|
    ensures s == s[..k] + s[k..]
  {
  }

  lemma {:induction false} HeadTail(s: seq<Byte>)
    requires s != []
    ensures s == [s[0]] + s[1..]
  {
  }

  lemma {:induction false} HeadTail2(s: seq<Byte>)
    requires |s| >= 2
    ensures s == [s[0], s[1]] + s[2..]
  {
  }

  lemma {:induction false} SplitAround(s: seq<Byte>, k: nat)
    requires k < |s|
    ensures s == s[..k] + [s[k]] + s[k + 1..]
  {
  }

  /** A text and what follows it come apart again. */
  lemma {:induction false} Divide(a: seq<Byte>, b: seq<Byte>)
    ensures (a + b)[..|a|] == a && (a + b)[|a|..] == b
  {
  }

  /** Skipping space takes a prefix of spaces and nothing else. */
  lemma {:induction false} SkipSpaceSplit(s: seq<Byte>)
    ensures var k := |s| - |SkipSpace(s)|;
            Spaces(s[..k]) && s[k..] == SkipSpace(s) && s == s[..k] + SkipSpace(s)
  {
    if s != [] && IsSpace(s[0]) {
      SkipSpaceSplit(s[1..]);
      var k := |s| - |SkipSpace(s)|;
      assert s[..k] == [s[0]] + s[1..][..k - 1];
      assert s[k..] == s[1..][k - 1..];
      SplitAt(s, k);
    } else {
      assert s[..0] == [] && [] + s == s;
    }
  }

  lemma {:induction false} DigitRunSplit(s: seq<Byte>)
    ensures var n := DigitRun(s);
            Digits(s[..n]) && (n < |s| ==> !IsDigit(s[n]))
  {
    if s != [] && IsDigit(s[0]) {
      DigitRunSplit(s[1..]);
      assert s[..DigitRun(s)] == [s[0]] + s[1..][..DigitRun(s) - 1];
    }
  }

  // ---------------------------------------------------------------- strings

  lemma {:induction false} StringEndClosed(s: seq<Byte>)
    requires StringEnd(s).Some?
    ensures Closed(s[..StringEnd(s).value])
    decreases |s|
  {
    var k := StringEnd(s).value;
    if s[0] == QUOTE {
    } else if s[0] == BACKSLASH {
      StringEndClosed(s[2..]);
      assert s[..k][2..] == s[2..][..k - 2];
    } else {
      StringEndClosed(s[1..]);
      assert s[..k][1..] == s[1..][..k - 1];
    }
  }

  lemma {:induction false} ClosedStringEnd(raw: seq<Byte>, rest: seq<Byte>)
    requires Closed(raw)
    ensures StringEnd(raw + [QUOTE] + rest) == Some(|raw|)
    decreases |raw|
  {
    var s := raw + [QUOTE] + rest;
    if raw == [] {
    } else if raw[0] == BACKSLASH {
      ClosedStringEnd(raw[2..], rest);
      assert s[2..] == raw[2..] + [QUOTE] + rest;
    } else {
      ClosedStringEnd(raw[1..], rest);
      assert s[1..] == raw[1..] + [QUOTE] + rest;
    }
  }

  lemma {:induction false} StringSound(s: seq<Byte>)
    requires StartsWith(s, QUOTE) && ParseString(s).Ok?
    ensures s == NodeText(ParseString(s).tree) + ParseString(s).rest
    ensures Accepted(ParseString(s).tree)
  {
    var t := s[1..];
    StringEndClosed(t);
    var k := StringEnd(t).value;
    SplitAround(t, k);
    assert s == [QUOTE] + t;
    Associate(t[..k], [QUOTE], t[k + 1..]);
    Associate([QUOTE], t[..k] + [QUOTE], t[k + 1..]);
  }

  lemma {:induction false} StringComplete(raw: seq<Byte>, rest: seq<Byte>, depth: nat, max: nat)
    requires Accepted(StringNode(raw))
    ensures ParseNode(NodeText(StringNode(raw)) + rest, depth, max) == Ok(StringNode(raw), rest)
  {
    ClosedStringEnd(raw, rest);
    var t := raw + [QUOTE] + rest;
    Associate([QUOTE], raw + [QUOTE], rest);
    assert ([QUOTE] + t)[1..] == t;
    assert t[..|raw|] == raw;
    assert t[|raw| + 1..] == rest;
  }

  // ---------------------------------------------------------------- numbers

  lemma {:induction false} DigitRunExact(ds: seq<Byte>, rest: seq<Byte>)
    requires Digits(ds) && (rest != [] ==> !IsDigit(rest[0]))
    ensures DigitRun(ds + rest) == |ds|
  {
    if ds == [] {
      assert ds + rest == rest;
    } else {
      assert ds[0] in ds;
      assert (ds + rest)[1..] == ds[1..] + rest;
      assert forall b :: b in ds[1..] ==> b in ds;
      DigitRunExact(ds[1..], rest);
    }
  }

  lemma {:induction false} FractionSound(s: seq<Byte>)
    requires ParseFraction(s).Ok?
    ensures var r := ParseFraction(s);
            && s == FractionText(r.tree) + r.rest && GoodFraction(r.tree)
            && (r.rest != [] && r.tree.Some? ==> !IsDigit(r.rest[0]))
            && (r.rest != [] && r.tree.None? ==> r.rest[0] != DOT)
  {
    if StartsWith(s, DOT) {
      var n := DigitRun(s[1..]);
      DigitRunSplit(s[1..]);
      assert s == [DOT] + s[1..][..n] + s[1..][n..];
    }
  }

  lemma {:induction false} FractionComplete(f: Option<seq<Byte>>, rest: seq<Byte>)
    requires GoodFraction(f)
    requires if f.Some? then rest == [] || !IsDigit(rest[0]) else !StartsWith(rest, DOT)
    ensures ParseFraction(FractionText(f) + rest) == Ok(f, rest)
  {
    if f.Some? {
      var s := FractionText(f) + rest;
      assert s[1..] == f.value + rest;
      DigitRunExact(f.value, rest);
      assert s[1..][..|f.value|] == f.value && s[1..][|f.value|..] == rest;
    } else {
      assert FractionText(f) + rest == rest;
    }
  }

  lemma {:induction false} ExponentDigitsSound(mark: Byte, sign: Option<Byte>, s: seq<Byte>)
    requires ExponentDigits(mark, sign, s).Ok?
    ensures var r := ExponentDigits(mark, sign, s);
            && r.tree.Some? && r.tree.value.mark == mark && r.tree.value.sign == sign
            && s == r.tree.value.digits + r.rest
            && r.tree.value.digits != [] && Digits(r.tree.value.digits)
            && (r.rest != [] ==> !IsDigit(r.rest[0]))
  {
    DigitRunSplit(s);
    SplitAt(s, DigitRun(s));
  }

  lemma {:induction false} ExponentSound(s: seq<Byte>)
    requires ParseExponent(s).Ok?
    ensures var r := ParseExponent(s);
            && s == ExponentText(r.tree) + r.rest && GoodExponent(r.tree)
            && (r.rest != [] && r.tree.Some? ==> !IsDigit(r.rest[0]))
            && (r.rest != [] && r.tree.None? ==> !IsExponentMark(r.rest[0]))
  {
    if s == [] || !IsExponentMark(s[0]) {
    } else if |s| > 1 && (s[1] == PLUS || s[1] == MINUS) {
      var r := ExponentDigits(s[0], Some(s[1]), s[2..]);
      ExponentDigitsSound(s[0], Some(s[1]), s[2..]);
      HeadTail2(s);
      Associate([s[0], s[1]], r.tree.value.digits, r.rest);
    } else {
      var r := ExponentDigits(s[0], None, s[1..]);
      ExponentDigitsSound(s[0], None, s[1..]);
      HeadTail(s);
      Associate([s[0]], r.tree.value.digits, r.rest);
    }
  }

  lemma {:induction false} ExponentDigitsComplete(e: Exponent, rest: seq<Byte>)
    requires e.digits != [] && Digits(e.digits) && (rest == [] || !IsDigit(rest[0]))
    ensures ExponentDigits(e.mark, e.sign, e.digits + rest) == Ok(Some(e), rest)
  {
    DigitRunExact(e.digits, rest);
    var t := e.digits + rest;
    assert t[..|e.digits|] == e.digits && t[|e.digits|..] == rest;
  }

  lemma {:induction false} ExponentComplete(e: Option<Exponent>, rest: seq<Byte>)
    requires GoodExponent(e)
    requires if e.Some? then rest == [] || !IsDigit(rest[0]) else rest == [] || !IsExponentMark(rest[0])
    ensures ParseExponent(ExponentText(e) + rest) == Ok(e, rest)
  {
    if e.None? {
      assert ExponentText(e) + rest == rest;
    } else {
      var s, ds := ExponentText(e) + rest, e.value.digits;
      ExponentDigitsComplete(e.value, rest);
      if e.value.sign.Some? {
        Associate([e.value.mark, e.value.sign.value], ds, rest);
        assert s[2..] == ds + rest;
      } else {
        Associate([e.value.mark], ds, rest);
        assert s[1..] == ds + rest;
        assert ds[0] in ds && s[1] == ds[0];
      }
    }
  }

  lemma {:induction false} WholeSound(s: seq<Byte>)
    requires ParseWhole(s).Ok?
    ensures var r := ParseWhole(s);
            && s == r.tree + r.rest && GoodWhole(r.tree)
            && (r.rest != [] && r.tree != [ZERO] ==> !IsDigit(r.rest[0]))
  {
    DigitRunSplit(s);
    SplitAt(s, if s[0] == ZERO then 1 else DigitRun(s));
  }

  lemma {:induction false} WholeComplete(w: seq<Byte>, rest: seq<Byte>)
    requires GoodWhole(w)
    requires rest != [] && w != [ZERO] ==> !IsDigit(rest[0])
    ensures ParseWhole(w + rest) == Ok(w, rest)
  {
    assert w[0] in w;
    if w[0] == ZERO {
      assert (w + rest)[1..] == rest;
    } else {
      DigitRunExact(w, rest);
      assert (w + rest)[..|w|] == w && (w + rest)[|w|..] == rest;
    }
  }

  /** The text of a number is its parts in order. */
  lemma {:induction false} MagnitudeAssembles(n: Node, rest: seq<Byte>)
    requires n.NumberNode?
    ensures MagnitudeText(n) + rest == n.whole + (FractionText(n.frac) + (ExponentText(n.exp) + rest))
  {
    Associate(FractionText(n.frac), ExponentText(n.exp), rest);
    Associate(n.whole, FractionText(n.frac) + ExponentText(n.exp), rest);
  }

  lemma {:induction false} MagnitudeSound(s: seq<Byte>, negative: bool)
    requires ParseMagnitude(s, negative).Ok?
    ensures var r := ParseMagnitude(s, negative);
            && s == MagnitudeText(r.tree) + r.rest && GoodNumber(r.tree) && Stops(r.tree, r.rest)
            && r.tree.negative == negative
  {
    var whole := ParseWhole(s);
    var frac := ParseFraction(whole.rest);
    var exp := ParseExponent(frac.rest);
    UnchangedWithout(whole.rest);
    UnchangedWithout(frac.rest);
    hide ParseWhole, ParseFraction, ParseExponent, MagnitudeText, FractionText, ExponentText;
    WholeSound(s);
    FractionSound(whole.rest);
    ExponentSound(frac.rest);
    var r := ParseMagnitude(s, negative);
    MagnitudeAssembles(r.tree, r.rest);
  }

  /** A part that is not there consumes nothing. */
  lemma {:induction false} UnchangedWithout(s: seq<Byte>)
    ensures var f := ParseFraction(s); f.Ok? && f.tree.None? ==> f.rest == s
    ensures var e := ParseExponent(s); e.Ok? && e.tree.None? ==> e.rest == s
  {
  }

  lemma {:induction false} NumberSound(s: seq<Byte>)
    requires ParseNumber(s).Ok?
    ensures var r := ParseNumber(s);
            s == NumberText(r.tree) + r.rest && GoodNumber(r.tree) && Stops(r.tree, r.rest)
  {
    var r := ParseNumber(s);
    if StartsWith(s, MINUS) {
      MagnitudeSound(s[1..], true);
      Associate([MINUS], MagnitudeText(r.tree), r.rest);
      assert s == [MINUS] + s[1..];
    } else {
      MagnitudeSound(s, false);
    }
  }

  /** The byte after the integer part does not lengthen it, nor the one after the fraction. */
  lemma {:induction false} PartsEnd(n: Node, rest: seq<Byte>)
    requires n.NumberNode? && GoodNumber(n) && Stops(n, rest)
    ensures var e := ExponentText(n.exp) + rest;
            if n.frac.Some? then e == [] || !IsDigit(e[0]) else !StartsWith(e, DOT)
    ensures var f := FractionText(n.frac) + (ExponentText(n.exp) + rest);
            f != [] && n.whole != [ZERO] ==> !IsDigit(f[0])
  {
    var e := ExponentText(n.exp) + rest;
    if n.exp.None? {
      assert e == rest;
    }
    if n.frac.None? {
      assert FractionText(n.frac) + e == e;
    }
  }

  lemma {:induction false} MagnitudeComplete(n: Node, rest: seq<Byte>)
    requires n.NumberNode? && GoodNumber(n) && Stops(n, rest)
    ensures ParseMagnitude(MagnitudeText(n) + rest, n.negative) == Ok(n, rest)
  {
    var e := ExponentText(n.exp) + rest;
    PartsEnd(n, rest);
    ExponentComplete(n.exp, rest);
    FractionComplete(n.frac, e);
    WholeComplete(n.whole, FractionText(n.frac) + e);
    MagnitudeAssembles(n, rest);
  }

  lemma {:induction false} MagnitudeStarts(n: Node, rest: seq<Byte>)
    requires n.NumberNode? && GoodNumber(n)
    ensures var s := MagnitudeText(n) + rest; s != [] && IsDigit(s[0])
  {
    assert n.whole[0] in n.whole;
  }

  lemma {:induction false} NumberComplete(n: Node, rest: seq<Byte>)
    requires n.NumberNode? && GoodNumber(n) && Stops(n, rest)
    ensures ParseNumber(NumberText(n) + rest) == Ok(n, rest)
    ensures var s := NumberText(n) + rest; s != [] && (s[0] == MINUS || IsDigit(s[0]))
  {
    MagnitudeComplete(n, rest);
    MagnitudeStarts(n, rest);
    var t := MagnitudeText(n) + rest;
    if n.negative {
      Associate([MINUS], MagnitudeText(n), rest);
      assert ([MINUS] + t)[1..] == t;
    }
  }

  // ---------------------------------------------------------------- soundness

  /** What was recognised is the text of an accepted tree that fits under the depth limit. */
  ghost predicate Recognised(s: seq<Byte>, depth: nat, max: nat, r: Parse<Node>) {
    r.Ok? ==>
      && s == NodeText(r.tree) + r.rest
      && Accepted(r.tree)
      && depth + Depth(r.tree) <= max
      && Stops(r.tree, r.rest)
  }

  /** Every success of the parser is a text of its grammar. */
  lemma {:induction false} ParserSound(s: seq<Byte>, depth: nat, max: nat)
    requires depth <= max
    ensures Recognised(s, depth, max, ParseNode(s, depth, max))
    decreases |s|, 0
  {
    if s == [] {
    } else if s[0] == QUOTE {
      if ParseString(s).Ok? {
        StringSound(s);
      }
    } else if s[0] == OPEN_BRACE {
      ObjectSound(s, depth, max);
    } else if s[0] == OPEN_BRACKET {
      ArraySound(s, depth, max);
    } else if s[0] == 0x74 || s[0] == 0x66 || s[0] == 0x6E {
      LiteralSound(s, depth, max);
    } else if s[0] == MINUS || IsDigit(s[0]) {
      if ParseNumber(s).Ok? {
        NumberSound(s);
      }
    }
  }

  lemma {:induction false} LiteralSound(s: seq<Byte>, depth: nat, max: nat)
    requires depth <= max && s != [] && (s[0] == 0x74 || s[0] == 0x66 || s[0] == 0x6E)
    ensures Recognised(s, depth, max, ParseNode(s, depth, max))
  {
    if TRUE_TEXT <= s {
      SplitAt(s, 4);
    } else if FALSE_TEXT <= s {
      SplitAt(s, 5);
    } else if NULL_TEXT <= s {
      SplitAt(s, 4);
    }
  }

  lemma {:induction false} ObjectSound(s: seq<Byte>, depth: nat, max: nat)
    requires depth <= max && StartsWith(s, OPEN_BRACE)
    ensures Recognised(s, depth, max, ParseObject(s, depth, max))
    decreases |s| - 1, 4
  {
    hide ParseMembers, SkipSpace;
    var inside := s[1..];
    assert s == [OPEN_BRACE] + inside;
    if depth < max && StartsWith(SkipSpace(inside), CLOSE_BRACE) {
      EmptyRecognised(inside, OPEN_BRACE, CLOSE_BRACE, depth, max);
    } else if depth < max {
      MembersSound(inside, depth + 1, max);
      var r := ParseMembers(inside, depth + 1, max);
      if r.Ok? {
        ObjectRecognised(r.tree, r.rest, depth, max);
      }
    }
  }

  lemma {:induction false} ObjectRecognised(ms: Members, rest: seq<Byte>, depth: nat, max: nat)
    requires AcceptedMembers(ms) && depth + 1 + MembersDepth(ms) <= max
    ensures Recognised([OPEN_BRACE] + (MembersText(ms) + rest), depth, max, Ok(ObjectNode(ms), rest))
  {
    hide MembersText, AcceptedMembers, MembersDepth;
    Associate([OPEN_BRACE], MembersText(ms), rest);
  }

  lemma {:induction false} ArraySound(s: seq<Byte>, depth: nat, max: nat)
    requires depth <= max && StartsWith(s, OPEN_BRACKET)
    ensures Recognised(s, depth, max, ParseArray(s, depth, max))
    decreases |s| - 1, 4
  {
    hide ParseElems, SkipSpace;
    var inside := s[1..];
    assert s == [OPEN_BRACKET] + inside;
    if depth < max && StartsWith(SkipSpace(inside), CLOSE_BRACKET) {
      EmptyRecognised(inside, OPEN_BRACKET, CLOSE_BRACKET, depth, max);
    } else if depth < max {
      ElemsSound(inside, depth + 1, max);
      var r := ParseElems(inside, depth + 1, max);
      if r.Ok? {
        ArrayRecognised(r.tree, r.rest, depth, max);
      }
    }
  }

  lemma {:induction false} ArrayRecognised(es: Elems, rest: seq<Byte>, depth: nat, max: nat)
    requires AcceptedElems(es) && depth + 1 + ElemsDepth(es) <= max
    ensures Recognised([OPEN_BRACKET] + (ElemsText(es) + rest), depth, max, Ok(ArrayNode(es), rest))
  {
    hide ElemsText, AcceptedElems, ElemsDepth;
    Associate([OPEN_BRACKET], ElemsText(es), rest);
  }

  lemma {:induction false} EmptyRecognised(inside: seq<Byte>, open: Byte, close: Byte, depth: nat, max: nat)
    requires depth < max && StartsWith(SkipSpace(inside), close)
    ensures var t := SkipSpace(inside);
            var blank := inside[..|inside| - |t|];
            && (open == OPEN_BRACE && close == CLOSE_BRACE ==>
                  Recognised([open] + inside, depth, max, Ok(EmptyObject(blank), t[1..])))
            && (open == OPEN_BRACKET && close == CLOSE_BRACKET ==>
                  Recognised([open] + inside, depth, max, Ok(EmptyArray(blank), t[1..])))
  {
    hide SkipSpace;
    SkipSpaceSplit(inside);
    EmptySound(inside, open, close);
  }

  lemma {:induction false} EmptySound(inside: seq<Byte>, open: Byte, close: Byte)
    requires StartsWith(SkipSpace(inside), close)
    ensures var t := SkipSpace(inside);
            [open] + inside == [open] + (inside[..|inside| - |t|] + [close]) + t[1..]
  {
    var k := |inside| - |SkipSpace(inside)|;
    SkipSpaceSplit(inside);
    SplitAround(inside, k);
    Associate([open], inside[..k] + [close], inside[k + 1..]);
  }

  lemma {:induction false} PaddedSound(s: seq<Byte>, depth: nat, max: nat)
    requires depth <= max && ParsePadded(s, depth, max).Ok?
    ensures var r := ParsePadded(s, depth, max);
            && s == PaddedText(r.tree) + r.rest && AcceptedPadded(r.tree)
            && depth + Depth(r.tree.node) <= max
    decreases |s|, 1
  {
    var t := SkipSpace(s);
    ParserSound(t, depth, max);
    var n := ParseNode(t, depth, max);
    var u := SkipSpace(n.rest);
    var lead, trail := s[..|s| - |t|], n.rest[..|n.rest| - |u|];
    SkipSpaceSplit(s);
    SkipSpaceSplit(n.rest);
    Associate(NodeText(n.tree), trail, u);
    Associate(lead, NodeText(n.tree) + trail, u);
  }

  lemma {:induction false} ElemSound(s: seq<Byte>, depth: nat, max: nat)
    requires depth <= max && ParseElem(s, depth, max).Ok?
    ensures var r := ParseElem(s, depth, max);
            && s == PaddedText(r.tree.0) + ([if r.tree.1 then COMMA else CLOSE_BRACKET] + r.rest)
            && AcceptedPadded(r.tree.0) && depth + Depth(r.tree.0.node) <= max
    decreases |s|, 2
  {
    PaddedSound(s, depth, max);
    var e := ParsePadded(s, depth, max);
    HeadTail(e.rest);
  }

  lemma {:induction false} ElemsSound(s: seq<Byte>, depth: nat, max: nat)
    requires depth <= max
    ensures var r := ParseElems(s, depth, max);
            r.Ok? ==>
              && s == ElemsText(r.tree) + r.rest && AcceptedElems(r.tree)
              && depth + ElemsDepth(r.tree) <= max
    decreases |s|, 3
  {
    var e := ParseElem(s, depth, max);
    if e.Ok? {
      ElemSound(s, depth, max);
      var p := PaddedText(e.tree.0);
      if e.tree.1 {
        ElemsSound(e.rest, depth, max);
        var es := ParseElems(e.rest, depth, max);
        if es.Ok? {
          Associate([COMMA], ElemsText(es.tree), es.rest);
          Associate(p, [COMMA] + ElemsText(es.tree), es.rest);
        }
      } else {
        Associate(p, [CLOSE_BRACKET], e.rest);
      }
    }
  }

  lemma {:induction false} MemberSound(s: seq<Byte>, depth: nat, max: nat)
    requires depth <= max && ParseMember(s, depth, max).Ok?
    ensures var r := ParseMember(s, depth, max);
            && s == PaddedText(r.tree.0) + ([COLON] + (PaddedText(r.tree.1) + r.rest))
            && AcceptedPadded(r.tree.0) && AcceptedPadded(r.tree.1)
            && depth + Depth(r.tree.0.node) <= max && depth + Depth(r.tree.1.node) <= max
    decreases |s|, 2
  {
    PaddedSound(s, depth, max);
    var k := ParsePadded(s, depth, max);
    PaddedSound(k.rest[1..], depth, max);
    HeadTail(k.rest);
  }

  /** Moving what follows a member out of its text. */
  lemma {:induction false} AssociateMember(k: seq<Byte>, v: seq<Byte>, tail: seq<Byte>, rest: seq<Byte>)
    ensures k + ([COLON] + (v + tail)) + rest == k + ([COLON] + (v + (tail + rest)))
  {
    Associate(v, tail, rest);
    Associate([COLON], v + tail, rest);
    Associate(k, [COLON] + (v + tail), rest);
  }

  lemma {:induction false} MembersSound(s: seq<Byte>, depth: nat, max: nat)
    requires depth <= max
    ensures var r := ParseMembers(s, depth, max);
            r.Ok? ==>
              && s == MembersText(r.tree) + r.rest && AcceptedMembers(r.tree)
              && depth + MembersDepth(r.tree) <= max
    decreases |s|, 3
  {
    var r := ParseMembers(s, depth, max);
    if r.Ok? {
      MemberSound(s, depth, max);
      var m := ParseMember(s, depth, max);
      HeadTail(m.rest);
      var k, v := PaddedText(m.tree.0), PaddedText(m.tree.1);
      if r.tree.LastMember? {
        AssociateMember(k, v, [CLOSE_BRACE], r.rest);
      } else {
        MembersSound(m.rest[1..], depth, max);
        Associate([COMMA], MembersText(r.tree.more), r.rest);
        AssociateMember(k, v, [COMMA] + MembersText(r.tree.more), r.rest);
      }
    }
  }

  // ---------------------------------------------------------------- completeness

  lemma {:induction false} SkipSpaceExact(space: seq<Byte>, rest: seq<Byte>)
    requires Spaces(space) && (rest != [] ==> !IsSpace(rest[0]))
    ensures SkipSpace(space + rest) == rest
  {
    if space == [] {
      assert space + rest == rest;
    } else {
      assert space[0] in space;
      assert (space + rest)[1..] == space[1..] + rest;
      assert forall b :: b in space[1..] ==> b in space;
      SkipSpaceExact(space[1..], rest);
    }
  }

  /** The text of an accepted tree starts with a byte that is neither space nor closing bracket. */
  lemma {:induction false} NodeStarts(n: Node, rest: seq<Byte>)
    requires Accepted(n)
    ensures var s := NodeText(n) + rest;
            s != [] && !IsSpace(s[0]) && s[0] != CLOSE_BRACKET && s[0] != CLOSE_BRACE
  {
    if n.NumberNode? {
      MagnitudeStarts(n, rest);
    }
  }

  /** The input goes on with one of `:` `,` `]` `}`. */
  predicate Delimited(rest: seq<Byte>) {
    rest != [] && (rest[0] == COLON || rest[0] == COMMA || rest[0] == CLOSE_BRACKET || rest[0] == CLOSE_BRACE)
  }

  /** The parser recognises the text of every accepted tree that fits under the depth limit. */
  lemma {:induction false} ParserComplete(n: Node, rest: seq<Byte>, depth: nat, max: nat)
    requires Accepted(n) && depth + Depth(n) <= max && Stops(n, rest)
    ensures ParseNode(NodeText(n) + rest, depth, max) == Ok(n, rest)
    decreases n, 0
  {
    match n
    case StringNode(raw) => StringComplete(raw, rest, depth, max);
    case NumberNode(_, _, _, _) => NumberComplete(n, rest);
    case EmptyArray(_) => EmptyComplete(n, rest, depth, max);
    case EmptyObject(_) => EmptyComplete(n, rest, depth, max);
    case ArrayNode(es) => ArrayComplete(es, rest, depth, max);
    case ObjectNode(ms) => ObjectComplete(ms, rest, depth, max);
    case _ => LiteralComplete(n, rest, depth, max);
  }

  lemma {:induction false} LiteralComplete(n: Node, rest: seq<Byte>, depth: nat, max: nat)
    requires n.TrueNode? || n.FalseNode? || n.NullNode?
    ensures ParseNode(NodeText(n) + rest, depth, max) == Ok(n, rest)
  {
    Divide(NodeText(n), rest);
    assert NodeText(n) <= NodeText(n) + rest;
  }

  lemma {:induction false} EmptyComplete(n: Node, rest: seq<Byte>, depth: nat, max: nat)
    requires (n.EmptyArray? || n.EmptyObject?) && Accepted(n) && depth + 1 <= max
    ensures ParseNode(NodeText(n) + rest, depth, max) == Ok(n, rest)
  {
    var open := if n.EmptyArray? then OPEN_BRACKET else OPEN_BRACE;
    var close := if n.EmptyArray? then CLOSE_BRACKET else CLOSE_BRACE;
    var t := [close] + rest;
    Associate([open], n.blank + [close], rest);
    Associate(n.blank, [close], rest);
    Divide([open], n.blank + t);
    Divide(n.blank, t);
    Divide([close], rest);
    SkipSpaceExact(n.blank, t);
  }

  lemma {:induction false} ArrayFromElems(t: seq<Byte>, es: Elems, rest: seq<Byte>, depth: nat, max: nat)
    requires depth + 1 <= max && !StartsWith(SkipSpace(t), CLOSE_BRACKET)
    requires ParseElems(t, depth + 1, max) == Ok(es, rest)
    ensures ParseNode([OPEN_BRACKET] + t, depth, max) == Ok(ArrayNode(es), rest)
  {
    Divide([OPEN_BRACKET], t);
  }

  lemma {:induction false} ObjectFromMembers(t: seq<Byte>, ms: Members, rest: seq<Byte>, depth: nat, max: nat)
    requires depth + 1 <= max && !StartsWith(SkipSpace(t), CLOSE_BRACE)
    requires ParseMembers(t, depth + 1, max) == Ok(ms, rest)
    ensures ParseNode([OPEN_BRACE] + t, depth, max) == Ok(ObjectNode(ms), rest)
  {
    Divide([OPEN_BRACE], t);
  }

  lemma {:induction false} ArrayComplete(es: Elems, rest: seq<Byte>, depth: nat, max: nat)
    requires AcceptedElems(es) && depth + 1 + ElemsDepth(es) <= max
    ensures ParseNode([OPEN_BRACKET] + ElemsText(es) + rest, depth, max) == Ok(ArrayNode(es), rest)
    decreases es, 1
  {
    Associate([OPEN_BRACKET], ElemsText(es), rest);
    ElemsComplete(es, rest, depth + 1, max);
    ArrayFromElems(ElemsText(es) + rest, es, rest, depth, max);
  }

  lemma {:induction false} ObjectComplete(ms: Members, rest: seq<Byte>, depth: nat, max: nat)
    requires AcceptedMembers(ms) && depth + 1 + MembersDepth(ms) <= max
    ensures ParseNode([OPEN_BRACE] + MembersText(ms) + rest, depth, max) == Ok(ObjectNode(ms), rest)
    decreases ms, 2
  {
    Associate([OPEN_BRACE], MembersText(ms), rest);
    MembersComplete(ms, rest, depth + 1, max);
    ObjectFromMembers(MembersText(ms) + rest, ms, rest, depth, max);
  }

  /** Before a delimiter, or space and then a delimiter, every node stops. */
  lemma {:induction false} TrailStops(n: Node, trail: seq<Byte>, rest: seq<Byte>)
    requires Spaces(trail) && Delimited(rest)
    ensures Stops(n, trail + rest)
  {
    if trail == [] {
      assert trail + rest == rest;
    } else {
      assert trail[0] in trail;
    }
  }

  lemma {:induction false} PaddedComplete(p: Padded, rest: seq<Byte>, depth: nat, max: nat)
    requires AcceptedPadded(p) && depth + Depth(p.node) <= max && Delimited(rest)
    ensures ParsePadded(PaddedText(p) + rest, depth, max) == Ok(p, rest)
    ensures var t := SkipSpace(PaddedText(p) + rest);
            !StartsWith(t, CLOSE_BRACKET) && !StartsWith(t, CLOSE_BRACE)
    decreases p, 1
  {
    var after := p.trail + rest;
    var t := NodeText(p.node) + after;
    Associate(NodeText(p.node), p.trail, rest);
    Associate(p.lead, NodeText(p.node) + p.trail, rest);
    NodeStarts(p.node, after);
    SkipSpaceExact(p.lead, t);
    Divide(p.lead, t);
    TrailStops(p.node, p.trail, rest);
    ParserComplete(p.node, after, depth, max);
    SkipSpaceExact(p.trail, rest);
    Divide(p.trail, rest);
  }

  lemma {:induction false} ElemComplete(p: Padded, more: bool, rest: seq<Byte>, depth: nat, max: nat)
    requires AcceptedPadded(p) && depth + Depth(p.node) <= max
    ensures var s := PaddedText(p) + ([if more then COMMA else CLOSE_BRACKET] + rest);
            ParseElem(s, depth, max) == Ok((p, more), rest) && !StartsWith(SkipSpace(s), CLOSE_BRACKET)
    decreases p, 2
  {
    var delimiter := if more then COMMA else CLOSE_BRACKET;
    PaddedComplete(p, [delimiter] + rest, depth, max);
    Divide([delimiter], rest);
  }

  lemma {:induction false} ElemsComplete(es: Elems, rest: seq<Byte>, depth: nat, max: nat)
    requires AcceptedElems(es) && depth + ElemsDepth(es) <= max
    ensures ParseElems(ElemsText(es) + rest, depth, max) == Ok(es, rest)
    ensures !StartsWith(SkipSpace(ElemsText(es) + rest), CLOSE_BRACKET)
    decreases es, 0
  {
    if es.LastElem? {
      Associate(PaddedText(es.e), [CLOSE_BRACKET], rest);
      ElemComplete(es.e, false, rest, depth, max);
    } else {
      Associate([COMMA], ElemsText(es.rest), rest);
      Associate(PaddedText(es.e), [COMMA] + ElemsText(es.rest), rest);
      ElemComplete(es.e, true, ElemsText(es.rest) + rest, depth, max);
      ElemsComplete(es.rest, rest, depth, max);
    }
  }

  lemma {:induction false} MemberComplete(ms: Members, rest: seq<Byte>, depth: nat, max: nat)
    requires AcceptedPadded(ms.k) && AcceptedPadded(ms.v) && Delimited(rest)
    requires depth + Depth(ms.k.node) <= max && depth + Depth(ms.v.node) <= max
    ensures var s := PaddedText(ms.k) + ([COLON] + (PaddedText(ms.v) + rest));
            ParseMember(s, depth, max) == Ok((ms.k, ms.v), rest) && !StartsWith(SkipSpace(s), CLOSE_BRACE)
    decreases ms, 0
  {
    var tail := PaddedText(ms.v) + rest;
    PaddedComplete(ms.k, [COLON] + tail, depth, max);
    Divide([COLON], tail);
    PaddedComplete(ms.v, rest, depth, max);
  }

  lemma {:induction false} MembersComplete(ms: Members, rest: seq<Byte>, depth: nat, max: nat)
    requires AcceptedMembers(ms) && depth + MembersDepth(ms) <= max
    ensures ParseMembers(MembersText(ms) + rest, depth, max) == Ok(ms, rest)
    ensures !StartsWith(SkipSpace(MembersText(ms) + rest), CLOSE_BRACE)
    decreases ms, 1
  {
    var k, v := PaddedText(ms.k), PaddedText(ms.v);
    if ms.LastMember? {
      AssociateMember(k, v, [CLOSE_BRACE], rest);
      MemberComplete(ms, [CLOSE_BRACE] + rest, depth, max);
      Divide([CLOSE_BRACE], rest);
    } else {
      var tail := MembersText(ms.more) + rest;
      Associate([COMMA], MembersText(ms.more), rest);
      AssociateMember(k, v, [COMMA] + MembersText(ms.more), rest);
      MemberComplete(ms, [COMMA] + tail, depth, max);
      Divide([COMMA], tail);
      MembersComplete(ms.more, rest, depth, max);
    }
  }
}

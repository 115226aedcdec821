/** The zero-copy parser: a cursor over the input and a nesting counter, advanced in place. */
module ZeroCopyParser {
  import opened Json
  import opened Utf8
  import opened Escapes
  import opened JsonText
  import opened ParserSpec
  import ParserGrammar

  /** A parsed value: slices of the input where possible, owned bytes where unescaping was needed. */
  datatype LazyJsonValue =
    | StringBorrowed(bytes: seq<Byte>)
    | StringOwned(text: seq<Byte>)
    | NumberSlice(digits: seq<Byte>)
    | Boolean(b: bool)
    | NullValue
    | ObjectSlice(members: seq<Byte>)
    | ArraySlice(elements: seq<Byte>)

  datatype Result<+T> = Success(value: T) | Failure(error: Error)

  /** The value a syntax tree stands for. */
  function Lazy(n: Node): LazyJsonValue {
    match n
    case StringNode(raw) =>
      if BACKSLASH in raw then
        var u := Unescape(raw);
        if u.Some? then StringOwned(u.value) else StringBorrowed(raw)
      else StringBorrowed(raw)
    case NumberNode(_, _, _, _) => NumberSlice(NodeText(n))
    case TrueNode => Boolean(true)
    case FalseNode => Boolean(false)
    case NullNode => NullValue
    case EmptyArray(_) => ArraySlice(NodeText(n))
    case ArrayNode(_) => ArraySlice(NodeText(n))
    case EmptyObject(_) => ObjectSlice(NodeText(n))
    case ObjectNode(_) => ObjectSlice(NodeText(n))
  }

  /** The bytes from `start` on; none when `start` is past the end. */
  function From(s: seq<Byte>, start: nat): (r: seq<Byte>)
    ensures |r| == if start <= |s| then |s| - start else 0
    ensures start < |s| ==> r[0] == s[start]
  {
    if start <= |s| then s[start..] else []
  }

  lemma {:induction false} FromDrop(s: seq<Byte>, start: nat, k: nat)
    requires start + k <= |s|
    ensures From(s, start)[k..] == From(s, start + k)
    ensures From(s, start)[..k] == s[start..start + k]
  {
  }

  // ---------------------------------------------------------------- one turn of the loops

  /** A parse without its tree: where it ended, or its error. */
  function EndOf<T>(r: Parse<T>): Parse<()> {
    if r.Ok? then Ok((), r.rest) else Err(r.error)
  }

  /** What remains of an array once an element and the space after it are read. */
  function AfterElem(s: seq<Byte>, depth: nat, max: nat): Parse<()> {
    if StartsWith(s, CLOSE_BRACKET) then Ok((), s[1..])
    else if StartsWith(s, COMMA) then EndOf(ParseElems(s[1..], depth, max))
    else Err(InvalidInput)
  }

  function AfterMember(s: seq<Byte>, depth: nat, max: nat): Parse<()> {
    if StartsWith(s, CLOSE_BRACE) then Ok((), s[1..])
    else if StartsWith(s, COMMA) then EndOf(ParseMembers(s[1..], depth, max))
    else Err(InvalidInput)
  }

  lemma {:induction false} SkipTwice(s: seq<Byte>)
    ensures SkipSpace(SkipSpace(s)) == SkipSpace(s)
  {
  }

  /** Skipping space first, or reading one element, moves along the same parse. */
  lemma {:induction false} ElemsStep(s: seq<Byte>, depth: nat, max: nat)
    ensures EndOf(ParseElems(s, depth, max)) == EndOf(ParseElems(SkipSpace(s), depth, max))
    ensures EndOf(ParseElems(s, depth, max)) ==
            var n := ParseNode(SkipSpace(s), depth, max);
            if n.Err? then Err(n.error) else AfterElem(SkipSpace(n.rest), depth, max)
  {
    SkipTwice(s);
    ElemStep(s, depth, max);
    ElemStep(SkipSpace(s), depth, max);
  }

  lemma {:induction false} ElemStep(s: seq<Byte>, depth: nat, max: nat)
    ensures var n := ParseNode(SkipSpace(s), depth, max);
            var e := ParseElem(s, depth, max);
            if n.Err? then e == Err(n.error)
            else
              var u := SkipSpace(n.rest);
              if StartsWith(u, CLOSE_BRACKET) then e.Ok? && !e.tree.1 && e.rest == u[1..]
              else if StartsWith(u, COMMA) then e.Ok? && e.tree.1 && e.rest == u[1..]
              else e == Err(InvalidInput)
  {
  }

  /** The two values of one member, and the space after them. */
  function MemberEnd(s: seq<Byte>, depth: nat, max: nat): Parse<()> {
    var k := ParseNode(SkipSpace(s), depth, max);
    if k.Err? then Err(k.error)
    else
      var t := SkipSpace(k.rest);
      if !StartsWith(t, COLON) then Err(InvalidInput)
      else
        var v := ParseNode(SkipSpace(t[1..]), depth, max);
        if v.Err? then Err(v.error) else Ok((), SkipSpace(v.rest))
  }

  lemma {:induction false} MemberStep(s: seq<Byte>, depth: nat, max: nat)
    ensures EndOf(ParseMember(s, depth, max)) == MemberEnd(s, depth, max)
  {
  }

  lemma {:induction false} MembersUnfold(s: seq<Byte>, depth: nat, max: nat)
    ensures EndOf(ParseMembers(s, depth, max)) ==
            var m := MemberEnd(s, depth, max);
            if m.Err? then Err(m.error) else AfterMember(m.rest, depth, max)
  {
    MemberStep(s, depth, max);
  }

  lemma {:induction false} MembersStep(s: seq<Byte>, depth: nat, max: nat)
    ensures EndOf(ParseMembers(s, depth, max)) == EndOf(ParseMembers(SkipSpace(s), depth, max))
    ensures EndOf(ParseMembers(s, depth, max)) ==
            var m := MemberEnd(s, depth, max);
            if m.Err? then Err(m.error) else AfterMember(m.rest, depth, max)
  {
    SkipTwice(s);
    assert MemberEnd(SkipSpace(s), depth, max) == MemberEnd(s, depth, max);
    MembersUnfold(s, depth, max);
    MembersUnfold(SkipSpace(s), depth, max);
  }

  /** At the end of the input there is nothing to parse. */
  lemma {:induction false} NothingLeft(depth: nat, max: nat)
    ensures ParseNode(SkipSpace([]), depth, max) == Err(InvalidInput)
  {
  }

  /** What a container parse consumed is the text of its tree. */
  lemma {:induction false} ObjectSliceIsText(s: seq<Byte>, depth: nat, max: nat)
    requires depth <= max && StartsWith(s, OPEN_BRACE)
    ensures var r := ParseObject(s, depth, max);
            r.Ok? ==> s[..|s| - |r.rest|] == NodeText(r.tree) && (r.tree.EmptyObject? || r.tree.ObjectNode?)
  {
    ParserGrammar.ObjectSound(s, depth, max);
    var r := ParseObject(s, depth, max);
    if r.Ok? {
      ParserGrammar.Divide(NodeText(r.tree), r.rest);
    }
  }

  lemma {:induction false} ArraySliceIsText(s: seq<Byte>, depth: nat, max: nat)
    requires depth <= max && StartsWith(s, OPEN_BRACKET)
    ensures var r := ParseArray(s, depth, max);
            r.Ok? ==> s[..|s| - |r.rest|] == NodeText(r.tree) && (r.tree.EmptyArray? || r.tree.ArrayNode?)
  {
    ParserGrammar.ArraySound(s, depth, max);
    var r := ParseArray(s, depth, max);
    if r.Ok? {
      ParserGrammar.Divide(NodeText(r.tree), r.rest);
    }
  }

  lemma {:induction false} NumberSliceIsText(s: seq<Byte>)
    ensures var r := ParserSpec.ParseNumber(s);
            r.Ok? ==> s[..|s| - |r.rest|] == NodeText(r.tree)
  {
    var r := ParserSpec.ParseNumber(s);
    if r.Ok? {
      ParserGrammar.NumberSound(s);
      ParserGrammar.Divide(NodeText(r.tree), r.rest);
    }
  }

  // ---------------------------------------------------------------- the parser

  class ZeroCopyParser {
    const maxDepth: nat
    const maxInputSize: nat
    var input: seq<Byte>
    var position: nat
    var depth: nat

    constructor (maxDepth: nat, maxInputSize: nat)
      ensures this.maxDepth == maxDepth && this.maxInputSize == maxInputSize
      ensures input == [] && position == 0 && depth == 0
    {
      this.maxDepth, this.maxInputSize := maxDepth, maxInputSize;
      input, position, depth := [], 0, 0;
    }

    /** The method's outcome is the specification's; a success has read exactly what it says. */
    ghost predicate Reports(r: Result<LazyJsonValue>, spec: Parse<Node>)
      reads this
    {
      match spec
      case Ok(n, rest) => r == Success(Lazy(n)) && position <= |input| && From(input, position) == rest
      case Err(e) => r == Failure(e)
    }

    method SkipWhitespace()
      requires position <= |input|
      modifies this`position
      ensures old(position) <= position <= |input|
      ensures From(input, position) == SkipSpace(old(From(input, position)))
    {
      while position < |input| && IsSpace(input[position])
        invariant old(position) <= position <= |input|
        invariant SkipSpace(From(input, position)) == SkipSpace(old(From(input, position)))
        decreases |input| - position
      {
        FromDrop(input, position, 1);
        position := position + 1;
      }
    }

    method ExpectChar(b: Byte) returns (ok: bool)
      requires position <= |input|
      modifies this`position
      ensures ok == StartsWith(old(From(input, position)), b)
      ensures position == old(position) + (if ok then 1 else 0) && position <= |input|
      ensures ok ==> From(input, position) == old(From(input, position))[1..]
    {
      if position >= |input| || input[position] != b {
        return false;
      }
      FromDrop(input, position, 1);
      position := position + 1;
      ok := true;
    }

    method SkipDigits()
      requires position <= |input|
      modifies this`position
      ensures old(position) <= position <= |input|
      ensures position == old(position) + DigitRun(old(From(input, position)))
    {
      hide From;
      while position < |input| && IsDigit(input[position])
        invariant old(position) <= position <= |input|
        invariant position - old(position) + DigitRun(From(input, position)) == DigitRun(old(From(input, position)))
        decreases |input| - position
      {
        FromDrop(input, position, 1);
        position := position + 1;
      }
    }

    /** Move to the closing quote, stepping over escapes two bytes at a time. */
    method FindQuote() returns (found: bool)
      requires position <= |input|
      modifies this`position
      ensures var e := StringEnd(old(From(input, position)));
              if found then position < |input| && input[position] == QUOTE && e == Some(position - old(position))
                       && position >= old(position)
              else e.None?
    {
      hide From;
      ghost var start, t := position, From(input, position);
      ghost var e := StringEnd(t);
      while position < |input| && input[position] != QUOTE
        invariant start <= position
        invariant position > |input| ==> e.None?
        invariant position <= |input| ==>
          var f := StringEnd(From(input, position));
          e == if f.Some? then Some(f.value + (position - start)) else None
        decreases |input| - position
      {
        if input[position] == BACKSLASH {
          if position + 1 < |input| {
            FromDrop(input, position, 2);
          }
          position := position + 2;
        } else {
          FromDrop(input, position, 1);
          position := position + 1;
        }
      }
      found := position < |input|;
    }

    method ParseString() returns (r: Result<LazyJsonValue>)
      requires position <= |input|
      requires StartsWith(From(input, position), QUOTE)
      modifies this`position
      ensures Reports(r, ParserSpec.ParseString(old(From(input, position))))
    {
      hide From, Unescape, UnescapeBytes, StringEnd;
      var start := position + 1;
      ghost var t := From(input, start);
      FromDrop(input, position, 1);
      position := position + 1;
      var found := FindQuote();
      if !found {
        return Failure(InvalidInput);
      }
      var slice := input[start..position];
      FromDrop(input, start, position - start);
      FromDrop(input, start, position - start + 1);
      position := position + 1;
      if BACKSLASH in slice {
        var unescaped := UnescapeString(slice);
        r := if unescaped.None? then Failure(InvalidInput) else Success(StringOwned(unescaped.value));
      } else {
        r := Success(StringBorrowed(slice));
      }
    }

    method ParseNumber() returns (r: Result<LazyJsonValue>)
      requires position <= |input|
      requires From(input, position) != []
      modifies this`position
      ensures Reports(r, ParserSpec.ParseNumber(old(From(input, position))))
    {
      hide From, NodeText, ParseMagnitude;
      var start := position;
      ghost var s := From(input, start);
      NumberSliceIsText(s);
      if input[position] == MINUS {
        FromDrop(input, position, 1);
        position := position + 1;
      }
      var ok := SkipMagnitude(start < position);
      if !ok {
        return Failure(InvalidInput);
      }
      FromDrop(input, start, position - start);
      r := Success(NumberSlice(input[start..position]));
    }

    /** The integer part, then the fraction and the exponent if present. */
    method SkipMagnitude(ghost negative: bool) returns (ok: bool)
      requires position <= |input|
      modifies this`position
      ensures var spec := ParseMagnitude(old(From(input, position)), negative);
              if ok then spec.Ok? && position <= |input| && From(input, position) == spec.rest
              else spec == Err(InvalidInput)
      ensures ok ==> old(position) <= position
    {
      ok := ParseWholePart();
      if ok {
        ok := ParseFractionPart();
      }
      if ok {
        ok := ParseExponentPart();
      }
    }

    method ParseWholePart() returns (ok: bool)
      requires position <= |input|
      modifies this`position
      ensures old(position) <= position <= |input|
      ensures var spec := ParseWhole(old(From(input, position)));
              if ok then spec.Ok? && From(input, position) == spec.rest else spec == Err(InvalidInput)
    {
      if position >= |input| {
        return false;
      }
      if input[position] == ZERO {
        position := position + 1;
        ok := true;
      } else if IsDigit(input[position]) {
        SkipDigits();
        ok := true;
      } else {
        ok := false;
      }
    }

    method ParseFractionPart() returns (ok: bool)
      requires position <= |input|
      modifies this`position
      ensures old(position) <= position <= |input|
      ensures var spec := ParseFraction(old(From(input, position)));
              if ok then spec.Ok? && From(input, position) == spec.rest else spec == Err(InvalidInput)
    {
      ghost var s := From(input, position);
      if position < |input| && input[position] == DOT {
        position := position + 1;
        assert s[1..] == From(input, position);
        if position >= |input| || !IsDigit(input[position]) {
          return false;
        }
        SkipDigits();
      }
      ok := true;
    }

    method ParseExponentPart() returns (ok: bool)
      requires position <= |input|
      modifies this`position
      ensures old(position) <= position <= |input|
      ensures var spec := ParseExponent(old(From(input, position)));
              if ok then spec.Ok? && From(input, position) == spec.rest else spec == Err(InvalidInput)
    {
      ghost var s := From(input, position);
      if position < |input| && IsExponentMark(input[position]) {
        position := position + 1;
        assert s[1..] == From(input, position);
        if position < |input| && (input[position] == PLUS || input[position] == MINUS) {
          position := position + 1;
          assert s[2..] == From(input, position);
        }
        if position >= |input| || !IsDigit(input[position]) {
          return false;
        }
        SkipDigits();
      }
      ok := true;
    }

    method ParseBoolean() returns (r: Result<LazyJsonValue>)
      requires position <= |input|
      modifies this`position
      ensures Reports(r, ParserSpec.ParseBoolean(old(From(input, position))))
    {
      if position + 4 <= |input| && input[position..position + 4] == TRUE_TEXT {
        assert TRUE_TEXT <= From(input, position);
        position := position + 4;
        r := Success(Boolean(true));
      } else if position + 5 <= |input| && input[position..position + 5] == FALSE_TEXT {
        assert FALSE_TEXT <= From(input, position);
        position := position + 5;
        r := Success(Boolean(false));
      } else {
        r := Failure(InvalidInput);
      }
    }

    method ParseNull() returns (r: Result<LazyJsonValue>)
      requires position <= |input|
      modifies this`position
      ensures Reports(r, ParseLiteral(old(From(input, position)), NULL_TEXT, NullNode))
    {
      if position + 4 <= |input| && input[position..position + 4] == NULL_TEXT {
        assert NULL_TEXT <= From(input, position);
        position := position + 4;
        r := Success(NullValue);
      } else {
        r := Failure(InvalidInput);
      }
    }

    /** Every recursive call is made with `depth <= maxDepth`: nesting bounds the recursion. */
    method ParseValue() returns (r: Result<LazyJsonValue>)
      requires position <= |input| && depth <= maxDepth
      modifies this`position, this`depth
      ensures Reports(r, ParserSpec.ParseValue(old(From(input, position)), old(depth), maxDepth))
      ensures r.Success? ==> old(position) < position <= |input| && depth == old(depth)
      decreases |input| - position, 2
    {
      SkipWhitespace();
      if position >= |input| {
        return Failure(InvalidInput);
      }
      var ch := input[position];
      if ch == QUOTE {
        r := ParseString();
      } else if ch == OPEN_BRACE {
        r := ParseObject();
      } else if ch == OPEN_BRACKET {
        r := ParseArray();
      } else if ch == 0x74 || ch == 0x66 {
        r := ParseBoolean();
      } else if ch == 0x6E {
        r := ParseNull();
      } else if ch == MINUS || IsDigit(ch) {
        r := ParseNumber();
      } else {
        r := Failure(InvalidInput);
      }
    }

    method ParseObject() returns (r: Result<LazyJsonValue>)
      requires position <= |input| && depth <= maxDepth
      requires StartsWith(From(input, position), OPEN_BRACE)
      modifies this`position, this`depth
      ensures Reports(r, ParserSpec.ParseObject(old(From(input, position)), old(depth), maxDepth))
      ensures r.Success? ==> depth == old(depth)
      decreases |input| - position, 1
    {
      hide From, ParserSpec.ParseObject, NodeText;
      var start := position;
      ghost var s := From(input, start);
      ObjectSliceIsText(s, depth, maxDepth);
      var error := ReadObject();
      if error.Some? {
        return Failure(error.value);
      }
      FromDrop(input, start, position - start);
      r := Success(ObjectSlice(input[start..position]));
    }

    method ReadObject() returns (error: Option<Error>)
      requires position <= |input| && depth <= maxDepth
      requires StartsWith(From(input, position), OPEN_BRACE)
      modifies this`position, this`depth
      ensures var end := EndOf(ParserSpec.ParseObject(old(From(input, position)), old(depth), maxDepth));
              match error
              case Some(e) => end == Err(e)
              case None =>
                && old(position) < position <= |input| && depth == old(depth)
                && end == Ok((), From(input, position))
      decreases |input| - position, 0
    {
      hide From;
      if depth + 1 > maxDepth {
        return Some(SecurityViolation);
      }
      ghost var inside := From(input, position + 1);
      FromDrop(input, position, 1);
      position := position + 1;
      depth := depth + 1;
      MembersStep(inside, depth, maxDepth);
      SkipWhitespace();
      if position < |input| && input[position] == CLOSE_BRACE {
        FromDrop(input, position, 1);
        position := position + 1;
      } else {
        error := ParseMemberList();
        if error.Some? {
          return;
        }
      }
      depth := depth - 1;
      error := None;
    }

    /** Members up to and including the closing brace. */
    method ParseMemberList() returns (error: Option<Error>)
      requires position <= |input| && depth <= maxDepth
      requires !StartsWith(From(input, position), CLOSE_BRACE)
      modifies this`position, this`depth
      ensures var end := EndOf(ParseMembers(old(From(input, position)), old(depth), maxDepth));
              match error
              case Some(e) => end == Err(e)
              case None => position <= |input| && end == Ok((), From(input, position)) && depth == old(depth)
      decreases |input| - position, 4
    {
      ghost var end := EndOf(ParseMembers(From(input, position), depth, maxDepth));
      var first := true;
      while position < |input| && input[position] != CLOSE_BRACE
        invariant old(position) <= position <= |input| && depth == old(depth)
        invariant first ==> !StartsWith(From(input, position), CLOSE_BRACE)
        invariant !first ==> old(position) < position
        invariant end == if first then EndOf(ParseMembers(From(input, position), depth, maxDepth))
                         else AfterMember(From(input, position), depth, maxDepth)
        decreases |input| - position
      {
        if !first {
          var comma := ExpectChar(COMMA);
          if !comma {
            return Some(InvalidInput);
          }
          MembersStep(From(input, position), depth, maxDepth);
          SkipWhitespace();
        }
        first := false;
        MembersStep(From(input, position), depth, maxDepth);
        var failed := ParseOneMember();
        if failed.Some? {
          return failed;
        }
        SkipWhitespace();
      }
      if first {
        NothingLeft(depth, maxDepth);
        MembersStep([], depth, maxDepth);
      }
      var closed := ExpectChar(CLOSE_BRACE);
      error := if closed then None else Some(InvalidInput);
    }

    /** Key, colon and value.  The key may be any value. */
    method ParseOneMember() returns (error: Option<Error>)
      requires position <= |input| && depth <= maxDepth
      modifies this`position, this`depth
      ensures var end := MemberEnd(old(From(input, position)), old(depth), maxDepth);
              match error
              case Some(e) => end == Err(e)
              case None =>
                && old(position) < position <= |input| && depth == old(depth)
                && end == Ok((), SkipSpace(From(input, position)))
      decreases |input| - position, 3
    {
      hide From, SkipSpace;
      var key := ParseValue();
      if key.Failure? {
        return Some(key.error);
      }
      SkipWhitespace();
      var colon := ExpectChar(COLON);
      if !colon {
        return Some(InvalidInput);
      }
      SkipTwice(From(input, position));
      SkipWhitespace();
      var value := ParseValue();
      error := if value.Failure? then Some(value.error) else None;
    }

    method ParseArray() returns (r: Result<LazyJsonValue>)
      requires position <= |input| && depth <= maxDepth
      requires StartsWith(From(input, position), OPEN_BRACKET)
      modifies this`position, this`depth
      ensures Reports(r, ParserSpec.ParseArray(old(From(input, position)), old(depth), maxDepth))
      ensures r.Success? ==> depth == old(depth)
      decreases |input| - position, 1
    {
      hide From, ParserSpec.ParseArray, NodeText;
      var start := position;
      ghost var s := From(input, start);
      ArraySliceIsText(s, depth, maxDepth);
      var error := ReadArray();
      if error.Some? {
        return Failure(error.value);
      }
      FromDrop(input, start, position - start);
      r := Success(ArraySlice(input[start..position]));
    }

    method ReadArray() returns (error: Option<Error>)
      requires position <= |input| && depth <= maxDepth
      requires StartsWith(From(input, position), OPEN_BRACKET)
      modifies this`position, this`depth
      ensures var end := EndOf(ParserSpec.ParseArray(old(From(input, position)), old(depth), maxDepth));
              match error
              case Some(e) => end == Err(e)
              case None =>
                && old(position) < position <= |input| && depth == old(depth)
                && end == Ok((), From(input, position))
      decreases |input| - position, 0
    {
      hide From;
      if depth + 1 > maxDepth {
        return Some(SecurityViolation);
      }
      ghost var inside := From(input, position + 1);
      FromDrop(input, position, 1);
      position := position + 1;
      depth := depth + 1;
      ElemsStep(inside, depth, maxDepth);
      SkipWhitespace();
      if position < |input| && input[position] == CLOSE_BRACKET {
        FromDrop(input, position, 1);
        position := position + 1;
      } else {
        error := ParseElementList();
        if error.Some? {
          return;
        }
      }
      depth := depth - 1;
      error := None;
    }

    /** Elements up to and including the closing bracket. */
    method ParseElementList() returns (error: Option<Error>)
      requires position <= |input| && depth <= maxDepth
      requires !StartsWith(From(input, position), CLOSE_BRACKET)
      modifies this`position, this`depth
      ensures var end := EndOf(ParseElems(old(From(input, position)), old(depth), maxDepth));
              match error
              case Some(e) => end == Err(e)
              case None => position <= |input| && end == Ok((), From(input, position)) && depth == old(depth)
      decreases |input| - position, 4
    {
      ghost var end := EndOf(ParseElems(From(input, position), depth, maxDepth));
      var first := true;
      while position < |input| && input[position] != CLOSE_BRACKET
        invariant old(position) <= position <= |input| && depth == old(depth)
        invariant first ==> !StartsWith(From(input, position), CLOSE_BRACKET)
        invariant !first ==> old(position) < position
        invariant end == if first then EndOf(ParseElems(From(input, position), depth, maxDepth))
                         else AfterElem(From(input, position), depth, maxDepth)
        decreases |input| - position
      {
        if !first {
          var comma := ExpectChar(COMMA);
          if !comma {
            return Some(InvalidInput);
          }
          ElemsStep(From(input, position), depth, maxDepth);
          SkipWhitespace();
        }
        first := false;
        ElemsStep(From(input, position), depth, maxDepth);
        var element := ParseValue();
        if element.Failure? {
          return Some(element.error);
        }
        SkipWhitespace();
      }
      if first {
        NothingLeft(depth, maxDepth);
        ElemsStep([], depth, maxDepth);
      }
      var closed := ExpectChar(CLOSE_BRACKET);
      error := if closed then None else Some(InvalidInput);
    }

    /** Parse one value from the start of `text`; what follows it is left unread. */
    method ParseLazy(text: seq<Byte>) returns (r: Result<LazyJsonValue>)
      modifies this
      ensures |text| > maxInputSize ==>
                && r == Failure(SecurityViolation)
                && input == old(input) && position == old(position) && depth == old(depth)
      ensures |text| <= maxInputSize ==>
                input == text && Reports(r, ParserSpec.ParseValue(text, 0, maxDepth))
    {
      if |text| > maxInputSize {
        return Failure(SecurityViolation);
      }
      input := text;
      position := 0;
      depth := 0;
      assert From(input, 0) == text;
      r := ParseValue();
    }
  }
}

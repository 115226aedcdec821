/** What run-length encoding sends and what its decoder makes of any list of runs, in the wire form. */
module RunLengthLaws {
  import opened Json
  import opened Outcomes
  import opened RunLength
  import opened RunLengthRoundTrip

  // ---------------------------------------------------------------- runs

  /** Runs of at least one, no two neighbours of one value. */
  ghost predicate MaximalRuns(rs: seq<Run>) {
    && (forall i :: 0 <= i < |rs| ==> rs[i].count >= 1)
    && (forall i, j :: 0 <= i && j == i + 1 < |rs| ==> rs[i].value != rs[j].value)
  }

  lemma {:induction false} RunsSnoc(items: seq<Json>, v: Json)
    ensures var before := Runs(items);
            var m := |before| - 1;
            Runs(items + [v]) == if before != [] && before[m].value == v
                                 then before[..m] + [Run(v, before[m].count + 1)] else before + [Run(v, 1)]
  {
    assert (items + [v])[..|items|] == items;
  }

  lemma {:induction false} RunGrows(items: seq<Json>, base: seq<Run>, v: Json, count: nat)
    requires Runs(items) == base + [Run(v, count)]
    ensures Runs(items + [v]) == base + [Run(v, count + 1)]
  {
    hide Runs;
    RunsSnoc(items, v);
    assert (base + [Run(v, count)])[..|base|] == base;
  }

  lemma {:induction false} RunStarts(items: seq<Json>, v: Json)
    requires items != [] ==> items[|items| - 1] != v
    ensures Runs(items + [v]) == Runs(items) + [Run(v, 1)]
  {
    RunsSnoc(items, v);
  }

  lemma RepeatMore(items: seq<Json>, v: Json, count: nat)
    ensures items + Repeat(v, count + 1) == items + Repeat(v, count) + [v]
    ensures items + Repeat(v, 0) == items
  {
  }

  lemma {:induction false} RunsOfRepeat(items: seq<Json>, v: Json, count: nat)
    requires count >= 1 && (items != [] ==> items[|items| - 1] != v)
    ensures Runs(items + Repeat(v, count)) == Runs(items) + [Run(v, count)]
  {
    hide *;
    RepeatMore(items, v, count - 1);
    if count == 1 {
      RunStarts(items, v);
    } else {
      RunsOfRepeat(items, v, count - 1);
      RunGrows(items + Repeat(v, count - 1), Runs(items), v, count - 1);
    }
  }

  lemma {:induction false} ExpandEnds(rs: seq<Run>)
    requires MaximalRuns(rs) && rs != []
    ensures Expand(rs) != [] && Expand(rs)[|Expand(rs)| - 1] == rs[|rs| - 1].value
  {
    var n := |rs| - 1;
    assert rs == rs[..n] + [rs[n]];
    ExpandSnoc(rs[..n], rs[n]);
  }

  /** There is one way only to write an array as maximal runs, and it is the encoder's. */
  lemma {:induction false} RunsUnique(rs: seq<Run>)
    requires MaximalRuns(rs)
    ensures Runs(Expand(rs)) == rs
  {
    if rs != [] {
      var n := |rs| - 1;
      assert rs == rs[..n] + [rs[n]];
      RunsUnique(rs[..n]);
      ExpandSnoc(rs[..n], rs[n]);
      if n > 0 {
        ExpandEnds(rs[..n]);
        assert rs[..n][n - 1] == rs[n - 1];
      }
      RunsOfRepeat(Expand(rs[..n]), rs[n].value, rs[n].count);
    }
  }

  lemma {:induction false} RunsAreMaximal(items: seq<Json>)
    ensures MaximalRuns(Runs(items))
  {
    if items != [] {
      RunsAreMaximal(items[..|items| - 1]);
    }
  }

  // ---------------------------------------------------------------- the encoded form

  /** A long array becomes one entry for each of its runs: an object of count and value when the run
      exceeds the minimum frequency, the bare value otherwise. */
  lemma {:induction false} LongArrayEncoded(rs: seq<Run>, minFrequency: nat)
    requires MaximalRuns(rs) && |Expand(rs)| > 2
    ensures var r := Encode(Arr(Expand(rs)), minFrequency);
            && r.Arr? && |r.items| == |rs|
            && forall i :: 0 <= i < |rs| ==>
                 r.items[i] == if rs[i].count > minFrequency
                   then Obj([Field("rle_count", Num(Int(rs[i].count))), Field("rle_value", rs[i].value)])
                   else rs[i].value
  {
    RunsUnique(rs);
    EncodeRunsAt(rs, minFrequency);
  }

  lemma {:induction false} EncodeFieldsAt(fs: seq<Field>, minFrequency: nat)
    ensures forall i :: 0 <= i < |fs| ==>
              EncodeFields(fs, minFrequency)[i] == Field(fs[i].key, Encode(fs[i].value, minFrequency))
  {
    if fs != [] {
      EncodeFieldsAt(fs[1..], minFrequency);
    }
  }

  /** Everything else is encoded part by part, and scalars are left alone. */
  lemma {:induction false} OthersEncoded(v: Json, minFrequency: nat)
    ensures var r := Encode(v, minFrequency);
            match v
            case Arr(items) =>
              |items| <= 2 ==>
                && r.Arr? && |r.items| == |items|
                && forall i :: 0 <= i < |items| ==> r.items[i] == Encode(items[i], minFrequency)
            case Obj(fs) =>
              && r.Obj? && |r.fields| == |fs|
              && forall i :: 0 <= i < |fs| ==> r.fields[i] == Field(fs[i].key, Encode(fs[i].value, minFrequency))
            case _ => r == v
  {
    match v
    case Arr(items) => EncodeItemsAt(items, minFrequency);
    case Obj(fs) => EncodeFieldsAt(fs, minFrequency);
    case _ =>
  }

  // ---------------------------------------------------------------- decoding any list of runs

  /** A run on the wire; its two members come in either order. */
  function Wire(r: Run, countFirst: bool): Json {
    if countFirst then Obj([Field("rle_count", Num(Int(r.count))), Field("rle_value", r.value)])
    else Obj([Field("rle_value", r.value), Field("rle_count", Num(Int(r.count)))])
  }

  function WireAll(rs: seq<Run>, countFirst: bool): seq<Json> {
    if rs == [] then [] else [Wire(rs[0], countFirst)] + WireAll(rs[1..], countFirst)
  }

  /** No run is longer than 100000 and no running total exceeds 10485760. */
  predicate Bounded(rs: seq<Run>, total: nat) {
    rs == [] ||
    (rs[0].count <= 100_000 && total + rs[0].count <= 10_485_760 && Bounded(rs[1..], total + rs[0].count))
  }

  lemma {:induction false} WireFound(r: Run, countFirst: bool)
    ensures var fs := Wire(r, countFirst).fields;
            && Find(fs, "rle_value") == (if countFirst then 1 else 0)
            && Find(fs, "rle_count") == (if countFirst then 0 else 1)
  {
    var fs := Wire(r, countFirst).fields;
    assert "rle_value"[4] != "rle_count"[4];
    assert fs[1..][0] == fs[1];
  }

  lemma {:induction false} WireDecodes(rs: seq<Run>, countFirst: bool, total: nat)
    ensures DecodeItems(WireAll(rs, countFirst), total)
            == if Bounded(rs, total) then Ok(Expand(rs)) else Err(LimitExceeded)
  {
    if rs != [] {
      WireFound(rs[0], countFirst);
      WireDecodes(rs[1..], countFirst, total + rs[0].count);
      assert WireAll(rs, countFirst)[1..] == WireAll(rs[1..], countFirst);
    }
  }

  /** An array of runs expands in order when each run and each running total is within the limits,
      and reports the limit otherwise, whatever the runs are. */
  lemma {:induction false} DecodesAnyRuns(rs: seq<Run>, countFirst: bool)
    ensures Decode(Arr(WireAll(rs, countFirst)))
            == if Bounded(rs, 0) then Ok(Arr(Expand(rs))) else Err(LimitExceeded)
  {
    WireDecodes(rs, countFirst, 0);
  }

  lemma {:induction false} OneRun(v: Json)
    requires Keyed(v) && DecodeRun(v.fields, 0).Err?
    ensures Decode(Arr([v])) == Err(DecodeRun(v.fields, 0).error)
  {
    assert DecodeItem(v, 0) == Err(DecodeRun(v.fields, 0).error);
    assert DecodeItems([v], 0) == Err(DecodeRun(v.fields, 0).error);
  }

  /** Half a run is malformed, and so is a count that is not a natural number. */
  lemma {:induction false} MalformedRuns(v: Json, count: Json)
    requires !(count.Num? && count.n.Int? && count.n.i >= 0)
    ensures Decode(Arr([Obj([Field("rle_value", v)])])) == Err(Malformed)
    ensures Decode(Arr([Obj([Field("rle_count", count)])])) == Err(Malformed)
    ensures Decode(Arr([Obj([Field("rle_count", count), Field("rle_value", v)])])) == Err(Malformed)
  {
    assert "rle_value"[4] != "rle_count"[4];
    var both := [Field("rle_count", count), Field("rle_value", v)];
    assert both[1..][0] == both[1];
    assert Find(both, "rle_count") == 0 && Find(both, "rle_value") == 1;
    var value, amount := [Field("rle_value", v)], [Field("rle_count", count)];
    assert Find(value, "rle_value") == 0 && Find(value, "rle_count") == 1;
    assert Find(amount, "rle_count") == 0 && Find(amount, "rle_value") == 1;
    OneRun(Obj(both));
    OneRun(Obj(value));
    OneRun(Obj(amount));
  }

  /** No member of the run form. */
  predicate Plain(v: Json) {
    v.Obj? ==> !HasKey(v.fields, "rle_value") && !HasKey(v.fields, "rle_count")
  }

  lemma {:induction false} PlainDecodes(items: seq<Json>, total: nat)
    requires forall x :: x in items ==> Plain(x)
    ensures var r := DecodeItems(items, total);
            && (r.Ok? <==> forall x :: x in items ==> Decode(x).Ok?)
            && (r.Ok? ==> |r.value| == |items|)
  {
    if items != [] {
      assert items == [items[0]] + items[1..];
      assert items[0] in items;
      PlainDecodes(items[1..], total);
      assert (forall x :: x in items ==> Decode(x).Ok?) <==>
             Decode(items[0]).Ok? && forall x :: x in items[1..] ==> Decode(x).Ok?;
    }
  }

  lemma {:induction false} PlainDecodesAt(items: seq<Json>, total: nat, i: nat)
    requires (forall x :: x in items ==> Plain(x)) && DecodeItems(items, total).Ok? && i < |items|
    ensures var r := DecodeItems(items, total);
            i < |r.value| && Decode(items[i]) == Ok(r.value[i])
  {
    assert items == [items[0]] + items[1..];
    assert items[0] in items;
    if i > 0 {
      PlainDecodesAt(items[1..], total, i - 1);
    }
  }

  /** An array without run objects is decoded element by element. */
  lemma {:induction false} OtherArrayDecoded(items: seq<Json>)
    requires forall x :: x in items ==> Plain(x)
    ensures var r := Decode(Arr(items));
            && (r.Ok? <==> forall x :: x in items ==> Decode(x).Ok?)
            && (r.Ok? ==>
                  && r.value.Arr? && |r.value.items| == |items|
                  && forall i :: 0 <= i < |items| ==> Decode(items[i]) == Ok(r.value.items[i]))
  {
    PlainDecodes(items, 0);
    if DecodeItems(items, 0).Ok? {
      forall i | 0 <= i < |items| ensures Decode(items[i]) == Ok(DecodeItems(items, 0).value[i]) {
        PlainDecodesAt(items, 0, i);
      }
    }
  }
}

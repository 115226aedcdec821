/** Run-length encoding of arrays, and its decoder with the size limits. */
module RunLength {
  import opened Json
  import opened Outcomes

  const MAX_RLE_COUNT: nat := 100_000
  const MAX_DECOMPRESSED_SIZE: nat := 10_485_760

  /** `count` consecutive copies of one value. */
  datatype Run = Run(value: Json, count: nat)

  function Repeat(v: Json, n: nat): (r: seq<Json>)
    ensures |r| == n && forall i :: 0 <= i < n ==> r[i] == v
  {
    seq(n, _ => v)
  }

  // ---------------------------------------------------------------- encoding

  /** The maximal runs of an array. */
  function Runs(items: seq<Json>): (r: seq<Run>)
    ensures items != [] ==> r != [] && r[|r| - 1].value == items[|items| - 1]
    ensures forall k :: 0 <= k < |r| ==> r[k].count >= 1
  {
    if items == [] then []
    else
      var n := |items| - 1;
      var before := Runs(items[..n]);
      var m := |before| - 1;
      if before != [] && before[m].value == items[n] then before[..m] + [Run(items[n], before[m].count + 1)]
      else before + [Run(items[n], 1)]
  }

  function EncodeRun(r: Run, minFrequency: nat): Json {
    if r.count > minFrequency then
      Obj([Field("rle_count", Num(Int(r.count))), Field("rle_value", r.value)])
    else r.value
  }

  function EncodeRuns(rs: seq<Run>, minFrequency: nat): (e: seq<Json>)
    ensures |e| == |rs|
  {
    if rs == [] then [] else [EncodeRun(rs[0], minFrequency)] + EncodeRuns(rs[1..], minFrequency)
  }

  /** Arrays longer than two become runs, whose values are left as they are; everything else is
      encoded recursively. */
  function Encode(v: Json, minFrequency: nat): Json {
    match v
    case Obj(fs) => Obj(EncodeFields(fs, minFrequency))
    case Arr(items) =>
      if |items| > 2 then Arr(EncodeRuns(Runs(items), minFrequency)) else Arr(EncodeItems(items, minFrequency))
    case _ => v
  }

  function EncodeItems(items: seq<Json>, minFrequency: nat): (r: seq<Json>)
    ensures |r| == |items|
  {
    if items == [] then [] else [Encode(items[0], minFrequency)] + EncodeItems(items[1..], minFrequency)
  }

  function EncodeFields(fs: seq<Field>, minFrequency: nat): (r: seq<Field>)
    ensures |r| == |fs|
  {
    if fs == [] then []
    else [Field(fs[0].key, Encode(fs[0].value, minFrequency))] + EncodeFields(fs[1..], minFrequency)
  }

  // ---------------------------------------------------------------- decoding

  /** An object the decoder takes for a run. */
  predicate Keyed(v: Json) {
    v.Obj? && (HasKey(v.fields, "rle_value") || HasKey(v.fields, "rle_count"))
  }

  function Lookup(fs: seq<Field>, key: string): Json
    requires HasKey(fs, key)
  {
    fs[Find(fs, key)].value
  }

  /** A decoded array element: what it expands to, and the total of the runs so far. */
  datatype Expansion = Expansion(items: seq<Json>, total: nat)

  /** Expand a run object, within the limits.  An integer number never exceeds 64 bits. */
  function DecodeRun(fs: seq<Field>, total: nat): Result<Expansion> {
    if !HasKey(fs, "rle_value") || !HasKey(fs, "rle_count") then Err(Malformed)
    else
      var count := Lookup(fs, "rle_count");
      if !(count.Num? && count.n.Int? && 0 <= count.n.i) then Err(Malformed)
      else if count.n.i > MAX_RLE_COUNT then Err(LimitExceeded)
      else if total + count.n.i > MAX_DECOMPRESSED_SIZE then Err(LimitExceeded)
      else Ok(Expansion(Repeat(Lookup(fs, "rle_value"), count.n.i), total + count.n.i))
  }

  function Decode(v: Json): Result<Json>
    decreases v, 0
  {
    match v
    case Obj(fs) =>
      var r := DecodeFields(fs);
      if r.Ok? then Ok(Obj(r.value)) else Err(r.error)
    case Arr(items) =>
      var r := DecodeItems(items, 0);
      if r.Ok? then Ok(Arr(r.value)) else Err(r.error)
    case _ => Ok(v)
  }

  function DecodeFields(fs: seq<Field>): Result<seq<Field>>
    decreases fs, 0
  {
    if fs == [] then Ok([])
    else
      var head := Decode(fs[0].value);
      if head.Err? then Err(head.error)
      else
        var tail := DecodeFields(fs[1..]);
        if tail.Err? then tail else Ok([Field(fs[0].key, head.value)] + tail.value)
  }

  function DecodeItem(v: Json, total: nat): Result<Expansion>
    decreases v, 1
  {
    if Keyed(v) then DecodeRun(v.fields, total)
    else
      var r := Decode(v);
      if r.Ok? then Ok(Expansion([r.value], total)) else Err(r.error)
  }

  function DecodeItems(items: seq<Json>, total: nat): Result<seq<Json>>
    decreases items, 0
  {
    if items == [] then Ok([])
    else
      var head := DecodeItem(items[0], total);
      if head.Err? then Err(head.error)
      else
        var tail := DecodeItems(items[1..], head.value.total);
        if tail.Err? then tail else Ok(head.value.items + tail.value)
  }

  // ---------------------------------------------------------------- the loops

  lemma {:induction false} EncodeRunsSnoc(rs: seq<Run>, r: Run, minFrequency: nat)
    ensures EncodeRuns(rs + [r], minFrequency) == EncodeRuns(rs, minFrequency) + [EncodeRun(r, minFrequency)]
  {
    if rs == [] {
      assert (rs + [r])[1..] == [];
    } else {
      assert (rs + [r])[1..] == rs[1..] + [r];
      EncodeRunsSnoc(rs[1..], r, minFrequency);
    }
  }

  /** The run-length loop over one array: `currentValue` repeats `runCount` times so far. */
  method EncodeArray(items: seq<Json>, minFrequency: nat) returns (compressed: seq<Json>)
    ensures compressed == EncodeRuns(Runs(items), minFrequency)
  {
    hide EncodeRuns, EncodeRun;
    compressed := [];
    var currentValue: Option<Json> := None;
    var runCount := 0;
    ghost var closed: seq<Run> := [];
    for i := 0 to |items|
      invariant compressed == EncodeRuns(closed, minFrequency)
      invariant Runs(items[..i]) == closed + if currentValue.Some? then [Run(currentValue.value, runCount)] else []
      invariant currentValue.None? ==> closed == []
    {
      assert items[..i + 1][..i] == items[..i];
      ghost var before := Runs(items[..i]);
      if currentValue == Some(items[i]) {
        assert before[..|before| - 1] == closed;
        runCount := runCount + 1;
      } else {
        if currentValue.Some? {
          EncodeRunsSnoc(closed, Run(currentValue.value, runCount), minFrequency);
          compressed := compressed + [EncodeRun(Run(currentValue.value, runCount), minFrequency)];
          closed := closed + [Run(currentValue.value, runCount)];
        }
        currentValue := Some(items[i]);
        runCount := 1;
      }
    }
    assert items[..|items|] == items;
    if currentValue.Some? {
      EncodeRunsSnoc(closed, Run(currentValue.value, runCount), minFrequency);
      compressed := compressed + [EncodeRun(Run(currentValue.value, runCount), minFrequency)];
    }
  }

  /** The expansion loop over one array, with its running total. */
  method DecodeArray(items: seq<Json>) returns (r: Result<seq<Json>>)
    ensures r == DecodeItems(items, 0)
  {
    var decompressed: seq<Json> := [];
    var totalSize := 0;
    assert items[0..] == items;
    ghost var whole := DecodeItems(items, 0);
    assert whole.Ok? ==> decompressed + whole.value == whole.value;
    for i := 0 to |items|
      invariant DecodeItems(items, 0) ==
        var rest := DecodeItems(items[i..], totalSize);
        if rest.Ok? then Ok(decompressed + rest.value) else rest
    {
      assert items[i..][1..] == items[i + 1..];
      var step := DecodeItem(items[i], totalSize);
      if step.Err? {
        return Err(step.error);
      }
      ghost var rest := DecodeItems(items[i + 1..], step.value.total);
      if rest.Ok? {
        assert decompressed + (step.value.items + rest.value) == decompressed + step.value.items + rest.value;
      }
      decompressed := decompressed + step.value.items;
      totalSize := step.value.total;
    }
    assert decompressed + [] == decompressed;
    r := Ok(decompressed);
  }
}

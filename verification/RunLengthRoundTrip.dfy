/** When decoding a run-length encoding gives the document back: an exact condition. */
module RunLengthRoundTrip {
  import opened Json
  import opened Outcomes
  import opened RunLength

  // ---------------------------------------------------------------- runs

  function Expand(rs: seq<Run>): seq<Json> {
    if rs == [] then [] else Repeat(rs[0].value, rs[0].count) + Expand(rs[1..])
  }

  lemma {:induction false} ExpandSnoc(rs: seq<Run>, r: Run)
    ensures Expand(rs + [r]) == Expand(rs) + Repeat(r.value, r.count)
  {
    if rs == [] {
      assert (rs + [r])[1..] == [];
    } else {
      assert (rs + [r])[1..] == rs[1..] + [r];
      ExpandSnoc(rs[1..], r);
    }
  }

  lemma {:induction false} ExpandGrown(rs: seq<Run>, r: Run)
    ensures Expand(rs + [Run(r.value, r.count + 1)]) == Expand(rs + [r]) + [r.value]
  {
    ExpandSnoc(rs, r);
    ExpandSnoc(rs, Run(r.value, r.count + 1));
    assert Repeat(r.value, r.count + 1) == Repeat(r.value, r.count) + [r.value];
  }

  lemma {:induction false} ExpandOne(rs: seq<Run>, v: Json)
    ensures Expand(rs + [Run(v, 1)]) == Expand(rs) + [v]
  {
    ExpandSnoc(rs, Run(v, 1));
    assert Repeat(v, 1) == [v];
  }

  /** The runs of an array expand to the array. */
  lemma {:induction false} ExpandRuns(items: seq<Json>)
    ensures Expand(Runs(items)) == items
  {
    if items == [] {
      assert Expand([]) == [];
    } else {
      hide Expand, Repeat;
      var n := |items| - 1;
      ExpandRuns(items[..n]);
      ExpandStep(items);
      assert items == items[..n] + [items[n]];
    }
  }

  lemma {:induction false} ExpandStep(items: seq<Json>)
    requires items != []
    ensures var n := |items| - 1; Expand(Runs(items)) == Expand(Runs(items[..n])) + [items[n]]
  {
    var n := |items| - 1;
    var before := Runs(items[..n]);
    var m := |before| - 1;
    hide Expand, Repeat;
    if before != [] && before[m].value == items[n] {
      assert before == before[..m] + [before[m]];
      ExpandGrown(before[..m], before[m]);
    } else {
      ExpandOne(before, items[n]);
    }
  }

  // ---------------------------------------------------------------- the alignment argument

  /** One encoded element: it stands for `run`, and the decoder turned it into `out`. */
  datatype Token = Token(run: Run, out: seq<Json>)

  function Source(ts: seq<Token>): seq<Json> {
    if ts == [] then [] else Repeat(ts[0].run.value, ts[0].run.count) + Source(ts[1..])
  }

  function Output(ts: seq<Token>): seq<Json> {
    if ts == [] then [] else ts[0].out + Output(ts[1..])
  }

  predicate Faithful(t: Token) {
    t.out == Repeat(t.run.value, t.run.count)
  }

  /** The decoder either restores the run, or yields one element, or yields other elements only. */
  ghost predicate Possible(t: Token) {
    t.run.count >= 1 && (Faithful(t) || |t.out| == 1 || t.run.value !in t.out)
  }

  /** Once the output is behind the source it stays behind, so the two differ. */
  lemma {:induction false} BehindStaysBehind(orig: seq<Json>, out: seq<Json>, ts: seq<Token>, o: nat, p: nat)
    requires p < o <= |orig| && p <= |out|
    requires orig[o..] == Source(ts) && out[p..] == Output(ts)
    requires forall t :: t in ts ==> Possible(t)
    ensures out != orig
    decreases |ts|
  {
    if ts == [] {
      assert |orig| == o && |out| == p;
    } else {
      var t := ts[0];
      assert t in ts;
      var o', p' := o + t.run.count, p + |t.out|;
      assert orig[o..][t.run.count..] == orig[o'..];
      assert out[p..][|t.out|..] == out[p'..];
      assert orig[o] == orig[o..][0] == t.run.value;
      if p' < o' {
        BehindStaysBehind(orig, out, ts[1..], o', p');
      } else {
        assert out[o] == out[p..][o - p] == t.out[o - p];
        assert t.out[o - p] in t.out;
      }
    }
  }

  /** If the decoded array equals the source array, every token restored its run. */
  lemma {:induction false} AlignedIsFaithful(orig: seq<Json>, ts: seq<Token>, o: nat)
    requires o <= |orig| && orig[o..] == Source(ts) == Output(ts)
    requires forall t :: t in ts ==> Possible(t)
    ensures forall t :: t in ts ==> Faithful(t)
    decreases |ts|
  {
    if ts != [] {
      var t := ts[0];
      assert t in ts;
      var c := t.run.count;
      assert orig[o..][c..] == orig[o + c..];
      if |t.out| < c {
        assert orig[o..][|t.out|..] == orig[o + |t.out|..];
        BehindStaysBehind(orig, orig, ts[1..], o + c, o + |t.out|);
      } else {
        assert t.out[0] == orig[o..][0] == t.run.value;
        assert t.out[0] in t.out;
        assert c == 1 && |t.out| == 1 ==> t.out == Repeat(t.run.value, 1);
        AlignedIsFaithful(orig, ts[1..], o + c);
        assert ts == [t] + ts[1..];
      }
    }
  }

  /** The tokens of a successful decode, element by element. */
  ghost function Tokens(rs: seq<Run>, enc: seq<Json>, total: nat): (ts: seq<Token>)
    requires |rs| == |enc| && DecodeItems(enc, total).Ok?
    ensures |ts| == |rs|
  {
    if rs == [] then []
    else
      var head := DecodeItem(enc[0], total).value;
      [Token(rs[0], head.items)] + Tokens(rs[1..], enc[1..], head.total)
  }

  lemma {:induction false} TokensExpand(rs: seq<Run>, enc: seq<Json>, total: nat)
    requires |rs| == |enc| && DecodeItems(enc, total).Ok?
    ensures Source(Tokens(rs, enc, total)) == Expand(rs)
    ensures Output(Tokens(rs, enc, total)) == DecodeItems(enc, total).value
  {
    if rs != [] {
      var ts := Tokens(rs, enc, total);
      var head := DecodeItem(enc[0], total).value;
      assert ts[1..] == Tokens(rs[1..], enc[1..], head.total);
      TokensExpand(rs[1..], enc[1..], head.total);
    }
  }

  // ---------------------------------------------------------------- objects the decoder mistakes

  /** No array inside `v` holds an object the decoder takes for a run. */
  predicate Inert(v: Json) {
    match v
    case Obj(fs) => forall f :: f in fs ==> Inert(f.value)
    case Arr(items) => forall x :: x in items ==> !Keyed(x) && Inert(x)
    case _ => true
  }

  function Size(v: Json): nat {
    match v
    case Obj(fs) => 1 + FieldsSize(fs)
    case Arr(items) => 1 + ItemsSize(items)
    case _ => 1
  }

  function ItemsSize(items: seq<Json>): nat {
    if items == [] then 0 else Size(items[0]) + ItemsSize(items[1..])
  }

  function FieldsSize(fs: seq<Field>): nat {
    if fs == [] then 0 else Size(fs[0].value) + FieldsSize(fs[1..])
  }

  lemma {:induction false} FieldSmaller(fs: seq<Field>, i: nat)
    requires i < |fs|
    ensures Size(fs[i].value) <= FieldsSize(fs)
  {
    if i > 0 {
      FieldSmaller(fs[1..], i - 1);
    }
  }

  /** What a run object expands to is never the object itself. */
  lemma {:induction false} RunDiffers(v: Json, total: nat)
    requires Keyed(v) && DecodeItem(v, total).Ok?
    ensures v !in DecodeItem(v, total).value.items
  {
    FieldSmaller(v.fields, Find(v.fields, "rle_value"));
  }

  // ---------------------------------------------------------------- faithful decodes

  /** `e` may stand for the run `r`: whatever it decodes to is possible for that run. */
  ghost predicate Fits(r: Run, e: Json) {
    r.count >= 1 && forall t :: DecodeItem(e, t).Ok? ==> Possible(Token(r, DecodeItem(e, t).value.items))
  }

  lemma {:induction false} TokensPossible(rs: seq<Run>, enc: seq<Json>, total: nat)
    requires |rs| == |enc| && DecodeItems(enc, total).Ok?
    requires forall i :: 0 <= i < |rs| ==> Fits(rs[i], enc[i])
    ensures forall t :: t in Tokens(rs, enc, total) ==> Possible(t)
  {
    if rs != [] {
      var head := DecodeItem(enc[0], total);
      assert Fits(rs[0], enc[0]);
      forall i | 0 <= i < |rs| - 1 ensures Fits(rs[1..][i], enc[1..][i]) {
        assert Fits(rs[i + 1], enc[i + 1]);
      }
      TokensPossible(rs[1..], enc[1..], head.value.total);
    }
  }

  /** Every element of `enc` decodes, in turn, to its run, starting from `total`. */
  predicate Restores(rs: seq<Run>, enc: seq<Json>, total: nat)
    requires |rs| == |enc|
  {
    rs == [] ||
    (var head := DecodeItem(enc[0], total);
     head.Ok? && head.value.items == Repeat(rs[0].value, rs[0].count) && Restores(rs[1..], enc[1..], head.value.total))
  }

  lemma {:induction false} FaithfulRestores(rs: seq<Run>, enc: seq<Json>, total: nat)
    requires |rs| == |enc| && DecodeItems(enc, total).Ok?
    requires forall t :: t in Tokens(rs, enc, total) ==> Faithful(t)
    ensures Restores(rs, enc, total)
  {
    if rs != [] {
      var ts := Tokens(rs, enc, total);
      var head := DecodeItem(enc[0], total).value;
      assert ts[0] in ts && ts[0] == Token(rs[0], head.items);
      assert ts[1..] == Tokens(rs[1..], enc[1..], head.total);
      FaithfulRestores(rs[1..], enc[1..], head.total);
    }
  }

  lemma {:induction false} RestoresDecodes(rs: seq<Run>, enc: seq<Json>, total: nat)
    requires |rs| == |enc| && Restores(rs, enc, total)
    ensures DecodeItems(enc, total) == Ok(Expand(rs))
  {
    if rs != [] {
      RestoresDecodes(rs[1..], enc[1..], DecodeItem(enc[0], total).value.total);
    }
  }

  /** An encoded array decodes to the expansion of its runs exactly when every element restores
      its own run: no two mistakes cancel out. */
  lemma {:induction false} DecodesIffRestores(rs: seq<Run>, enc: seq<Json>)
    requires |rs| == |enc| && forall i :: 0 <= i < |rs| ==> Fits(rs[i], enc[i])
    ensures DecodeItems(enc, 0) == Ok(Expand(rs)) <==> Restores(rs, enc, 0)
  {
    if Restores(rs, enc, 0) {
      RestoresDecodes(rs, enc, 0);
    }
    if DecodeItems(enc, 0) == Ok(Expand(rs)) {
      TokensPossible(rs, enc, 0);
      TokensExpand(rs, enc, 0);
      var orig := Expand(rs);
      assert orig[0..] == orig;
      AlignedIsFaithful(orig, Tokens(rs, enc, 0), 0);
      FaithfulRestores(rs, enc, 0);
    }
  }

  // ---------------------------------------------------------------- decoding what was never encoded

  function Singles(items: seq<Json>): (r: seq<Run>)
    ensures |r| == |items|
  {
    if items == [] then [] else [Run(items[0], 1)] + Singles(items[1..])
  }

  lemma {:induction false} ExpandSingles(items: seq<Json>)
    ensures Expand(Singles(items)) == items
    ensures forall i :: 0 <= i < |items| ==> Singles(items)[i] == Run(items[i], 1)
  {
    if items != [] {
      ExpandSingles(items[1..]);
      assert items == [items[0]] + items[1..];
    }
  }

  lemma {:induction false} FitsSelf(v: Json)
    ensures Fits(Run(v, 1), v)
  {
    if Keyed(v) {
      forall t | DecodeItem(v, t).Ok? ensures v !in DecodeItem(v, t).value.items {
        RunDiffers(v, t);
      }
    }
  }

  /** Decoding leaves a document alone exactly when no array in it holds a run-keyed object. */
  lemma {:induction false} DecodeFixesIff(v: Json)
    ensures Decode(v) == Ok(v) <==> Inert(v)
    decreases v, 0
  {
    match v
    case Obj(fs) => DecodeFixesFields(fs);
    case Arr(items) =>
      ExpandSingles(items);
      forall i | 0 <= i < |items| ensures Fits(Singles(items)[i], items[i]) {
        FitsSelf(items[i]);
      }
      DecodesIffRestores(Singles(items), items);
      RestoresSinglesIff(items);
    case _ =>
  }

  lemma {:induction false} DecodeFixesFields(fs: seq<Field>)
    ensures DecodeFields(fs) == Ok(fs) <==> forall f :: f in fs ==> Inert(f.value)
    decreases fs, 0
  {
    if fs != [] {
      DecodeFixesIff(fs[0].value);
      DecodeFixesFields(fs[1..]);
      assert fs == [fs[0]] + fs[1..];
    }
  }

  lemma {:induction false} RestoresSinglesIff(items: seq<Json>)
    ensures Restores(Singles(items), items, 0) <==> forall x :: x in items ==> !Keyed(x) && Inert(x)
    decreases items, 0
  {
    if items != [] {
      var x := items[0];
      DecodeFixesIff(x);
      RestoresSinglesIff(items[1..]);
      assert items == [x] + items[1..];
      assert Singles(items)[1..] == Singles(items[1..]);
      if Keyed(x) {
        if DecodeItem(x, 0).Ok? {
          RunDiffers(x, 0);
          assert Repeat(x, 1)[0] in Repeat(x, 1);
        }
      } else {
        assert [x] == Repeat(x, 1);
        assert Decode(x).Ok? ==> ([Decode(x).value] == Repeat(x, 1) <==> Decode(x).value == Repeat(x, 1)[0]);
      }
    }
  }

  // ---------------------------------------------------------------- the exact condition

  /** Elements stored as runs, over all runs of an array. */
  function Wrapped(rs: seq<Run>, minFrequency: nat): nat {
    if rs == [] then 0
    else (if rs[0].count > minFrequency then rs[0].count else 0) + Wrapped(rs[1..], minFrequency)
  }

  /** A run survives: it is stored with its count, or it is a single value that decoding leaves alone. */
  predicate RunSurvives(r: Run, minFrequency: nat) {
    r.count > minFrequency || (r.count == 1 && !Keyed(r.value) && Inert(r.value))
  }

  /** A stored run is short enough to be expanded again. */
  predicate RunWithinLimit(r: Run, minFrequency: nat) {
    r.count > minFrequency ==> r.count <= MAX_RLE_COUNT
  }

  /** Encoding loses nothing, apart from the decoder's limits. */
  predicate Survives(v: Json, minFrequency: nat) {
    match v
    case Obj(fs) => forall f :: f in fs ==> Survives(f.value, minFrequency)
    case Arr(items) =>
      if |items| > 2 then forall r :: r in Runs(items) ==> RunSurvives(r, minFrequency)
      else forall x :: x in items ==> !Keyed(x) && Survives(x, minFrequency)
    case _ => true
  }

  /** Every stored run, and the stored elements of every array, are within the decoder's limits. */
  predicate WithinLimits(v: Json, minFrequency: nat) {
    match v
    case Obj(fs) => forall f :: f in fs ==> WithinLimits(f.value, minFrequency)
    case Arr(items) =>
      if |items| > 2 then
        && Wrapped(Runs(items), minFrequency) <= MAX_DECOMPRESSED_SIZE
        && forall r :: r in Runs(items) ==> RunWithinLimit(r, minFrequency)
      else forall x :: x in items ==> WithinLimits(x, minFrequency)
    case _ => true
  }

  lemma {:induction false} StoredRunDecodes(r: Run, minFrequency: nat, total: nat)
    requires r.count > minFrequency
    ensures Keyed(EncodeRun(r, minFrequency))
    ensures DecodeItem(EncodeRun(r, minFrequency), total) ==
            if r.count <= MAX_RLE_COUNT && total + r.count <= MAX_DECOMPRESSED_SIZE
            then Ok(Expansion(Repeat(r.value, r.count), total + r.count)) else Err(LimitExceeded)
  {
    var fs := [Field("rle_count", Num(Int(r.count))), Field("rle_value", r.value)];
    KeysDiffer();
    assert Find(fs, "rle_count") == 0;
    assert fs[1..][0] == fs[1];
    assert Find(fs, "rle_value") == 1;
  }

  lemma KeysDiffer()
    ensures "rle_count" != "rle_value"
  {
    assert "rle_count"[4] != "rle_value"[4];
  }

  lemma {:induction false} EncodedRunFits(r: Run, minFrequency: nat)
    requires r.count >= 1
    ensures Fits(r, EncodeRun(r, minFrequency))
  {
    var e := EncodeRun(r, minFrequency);
    forall t | DecodeItem(e, t).Ok? ensures Possible(Token(r, DecodeItem(e, t).value.items)) {
      if r.count > minFrequency {
        StoredRunDecodes(r, minFrequency, t);
      } else if Keyed(e) {
        RunDiffers(e, t);
      }
    }
  }

  /** Whether one encoded run restores itself, and how the total moves when it does. */
  lemma {:induction false} RunRestoresIff(r: Run, minFrequency: nat, total: nat)
    requires r.count >= 1
    ensures var head := DecodeItem(EncodeRun(r, minFrequency), total);
            (head.Ok? && head.value.items == Repeat(r.value, r.count)) <==>
              && RunSurvives(r, minFrequency) && RunWithinLimit(r, minFrequency)
              && (r.count > minFrequency ==> total + r.count <= MAX_DECOMPRESSED_SIZE)
    ensures var head := DecodeItem(EncodeRun(r, minFrequency), total);
            head.Ok? && head.value.items == Repeat(r.value, r.count) ==>
              head.value.total == total + if r.count > minFrequency then r.count else 0
  {
    var e := EncodeRun(r, minFrequency);
    if r.count > minFrequency {
      StoredRunDecodes(r, minFrequency, total);
    } else if Keyed(e) {
      if DecodeItem(e, total).Ok? {
        RunDiffers(e, total);
        assert Repeat(r.value, r.count)[0] in Repeat(r.value, r.count);
      }
    } else {
      DecodeFixesIff(e);
      assert Repeat(e, 1) == [e];
    }
  }

  lemma {:induction false} RestoresRunsIff(rs: seq<Run>, minFrequency: nat, total: nat)
    requires total <= MAX_DECOMPRESSED_SIZE && forall k :: 0 <= k < |rs| ==> rs[k].count >= 1
    ensures Restores(rs, EncodeRuns(rs, minFrequency), total) <==>
              && total + Wrapped(rs, minFrequency) <= MAX_DECOMPRESSED_SIZE
              && forall r :: r in rs ==> RunSurvives(r, minFrequency) && RunWithinLimit(r, minFrequency)
  {
    if rs != [] {
      var r := rs[0];
      RunRestoresIff(r, minFrequency, total);
      assert rs == [r] + rs[1..];
      assert EncodeRuns(rs, minFrequency)[1..] == EncodeRuns(rs[1..], minFrequency);
      var stored := if r.count > minFrequency then r.count else 0;
      if total + stored <= MAX_DECOMPRESSED_SIZE {
        RestoresRunsIff(rs[1..], minFrequency, total + stored);
      }
    }
  }

  /** A run-keyed object is never the encoding of a value inside it. */
  lemma {:induction false} EncodedChildDiffers(v: Json, fs: seq<Field>, minFrequency: nat)
    requires HasKey(fs, "rle_value") && Lookup(fs, "rle_value") == v
    ensures Encode(v, minFrequency) != Obj(fs)
    decreases v
  {
    if v.Obj? {
      EncodeFieldsKeys(v.fields, minFrequency, "rle_value");
      if Encode(v, minFrequency) == Obj(fs) {
        var i := Find(v.fields, "rle_value");
        EncodedChildDiffers(v.fields[i].value, v.fields, minFrequency);
      }
    }
  }

  /** Encoding keeps the keys of an object, and encodes each value in its place. */
  lemma {:induction false} EncodeFieldsKeys(fs: seq<Field>, minFrequency: nat, key: string)
    ensures Find(EncodeFields(fs, minFrequency), key) == Find(fs, key)
    ensures HasKey(fs, key) ==>
              Lookup(EncodeFields(fs, minFrequency), key) == Encode(Lookup(fs, key), minFrequency)
  {
    if fs != [] {
      var es := EncodeFields(fs, minFrequency);
      assert es[1..] == EncodeFields(fs[1..], minFrequency);
      EncodeFieldsKeys(fs[1..], minFrequency, key);
    }
  }

  lemma {:induction false} EncodeKeyed(v: Json, minFrequency: nat)
    ensures Keyed(Encode(v, minFrequency)) == Keyed(v)
  {
    if v.Obj? {
      EncodeFieldsKeys(v.fields, minFrequency, "rle_value");
      EncodeFieldsKeys(v.fields, minFrequency, "rle_count");
    }
  }

  /** The encoding of a run-keyed object does not decode to that object. */
  lemma {:induction false} EncodedKeyedDiffers(v: Json, minFrequency: nat, total: nat)
    requires Keyed(v) && DecodeItem(Encode(v, minFrequency), total).Ok?
    ensures v !in DecodeItem(Encode(v, minFrequency), total).value.items
  {
    EncodeKeyed(v, minFrequency);
    EncodeFieldsKeys(v.fields, minFrequency, "rle_value");
    EncodedChildDiffers(Lookup(v.fields, "rle_value"), v.fields, minFrequency);
  }

  lemma {:induction false} EncodedItemFits(v: Json, minFrequency: nat)
    ensures Fits(Run(v, 1), Encode(v, minFrequency))
  {
    EncodeKeyed(v, minFrequency);
    if Keyed(v) {
      forall t | DecodeItem(Encode(v, minFrequency), t).Ok?
        ensures v !in DecodeItem(Encode(v, minFrequency), t).value.items
      {
        EncodedKeyedDiffers(v, minFrequency, t);
      }
    }
  }

  /** Decoding the encoding gives the document back if and only if nothing in it is lost and every
      run is within the limits. */
  lemma {:induction false} RoundTripIff(v: Json, minFrequency: nat)
    ensures Decode(Encode(v, minFrequency)) == Ok(v) <==> Survives(v, minFrequency) && WithinLimits(v, minFrequency)
    decreases v, 0
  {
    match v
    case Obj(fs) => RoundTripFields(fs, minFrequency);
    case Arr(items) =>
      if |items| > 2 {
        RoundTripLongArray(items, minFrequency);
      } else {
        ExpandSingles(items);
        EncodeItemsAt(items, minFrequency);
        forall i | 0 <= i < |items| ensures Fits(Singles(items)[i], EncodeItems(items, minFrequency)[i]) {
          EncodedItemFits(items[i], minFrequency);
        }
        DecodesIffRestores(Singles(items), EncodeItems(items, minFrequency));
        RestoresShortIff(items, minFrequency);
      }
    case _ =>
  }

  lemma {:induction false} RoundTripLongArray(items: seq<Json>, minFrequency: nat)
    requires |items| > 2
    ensures Decode(Encode(Arr(items), minFrequency)) == Ok(Arr(items)) <==>
            Survives(Arr(items), minFrequency) && WithinLimits(Arr(items), minFrequency)
  {
    var rs := Runs(items);
    ExpandRuns(items);
    EncodeRunsAt(rs, minFrequency);
    forall i | 0 <= i < |rs| ensures Fits(rs[i], EncodeRuns(rs, minFrequency)[i]) {
      EncodedRunFits(rs[i], minFrequency);
    }
    DecodesIffRestores(rs, EncodeRuns(rs, minFrequency));
    RestoresRunsIff(rs, minFrequency, 0);
  }

  lemma {:induction false} EncodeRunsAt(rs: seq<Run>, minFrequency: nat)
    ensures forall i :: 0 <= i < |rs| ==> EncodeRuns(rs, minFrequency)[i] == EncodeRun(rs[i], minFrequency)
  {
    if rs != [] {
      EncodeRunsAt(rs[1..], minFrequency);
    }
  }

  lemma {:induction false} EncodeItemsAt(items: seq<Json>, minFrequency: nat)
    ensures forall i :: 0 <= i < |items| ==> EncodeItems(items, minFrequency)[i] == Encode(items[i], minFrequency)
  {
    if items != [] {
      EncodeItemsAt(items[1..], minFrequency);
    }
  }

  lemma {:induction false} RestoresShortIff(items: seq<Json>, minFrequency: nat)
    ensures Restores(Singles(items), EncodeItems(items, minFrequency), 0) <==>
            forall x :: x in items ==> !Keyed(x) && Survives(x, minFrequency) && WithinLimits(x, minFrequency)
    decreases items, 0
  {
    if items != [] {
      var x := items[0];
      var e := Encode(x, minFrequency);
      RoundTripIff(x, minFrequency);
      RestoresShortIff(items[1..], minFrequency);
      EncodeKeyed(x, minFrequency);
      assert items == [x] + items[1..];
      assert Singles(items)[1..] == Singles(items[1..]);
      assert EncodeItems(items, minFrequency)[1..] == EncodeItems(items[1..], minFrequency);
      if Keyed(x) {
        if DecodeItem(e, 0).Ok? {
          EncodedKeyedDiffers(x, minFrequency, 0);
          assert Repeat(x, 1)[0] in Repeat(x, 1);
        }
      } else {
        assert [x] == Repeat(x, 1);
        assert Decode(e).Ok? ==> ([Decode(e).value] == Repeat(x, 1) <==> Decode(e).value == Repeat(x, 1)[0]);
      }
    }
  }

  lemma {:induction false} RoundTripFields(fs: seq<Field>, minFrequency: nat)
    ensures DecodeFields(EncodeFields(fs, minFrequency)) == Ok(fs) <==>
            forall f :: f in fs ==> Survives(f.value, minFrequency) && WithinLimits(f.value, minFrequency)
    decreases fs, 0
  {
    if fs != [] {
      RoundTripIff(fs[0].value, minFrequency);
      RoundTripFields(fs[1..], minFrequency);
      assert EncodeFields(fs, minFrequency)[1..] == EncodeFields(fs[1..], minFrequency);
      assert fs == [fs[0]] + fs[1..];
    }
  }

  // ---------------------------------------------------------------- never a different document

  /** A surviving document decodes to itself or to a limit error, never to anything else. */
  lemma {:induction false} SurvivesOrLimit(v: Json, minFrequency: nat)
    requires Survives(v, minFrequency)
    ensures var r := Decode(Encode(v, minFrequency)); r == Ok(v) || r == Err(LimitExceeded)
    decreases v, 0
  {
    match v
    case Obj(fs) => FieldsOrLimit(fs, minFrequency);
    case Arr(items) =>
      if |items| > 2 {
        ExpandRuns(items);
        RunsOrLimit(Runs(items), minFrequency, 0);
      } else {
        ItemsOrLimit(items, minFrequency, 0);
      }
    case _ =>
  }

  lemma {:induction false} FieldsOrLimit(fs: seq<Field>, minFrequency: nat)
    requires forall f :: f in fs ==> Survives(f.value, minFrequency)
    ensures var r := DecodeFields(EncodeFields(fs, minFrequency)); r == Ok(fs) || r == Err(LimitExceeded)
    decreases fs, 0
  {
    if fs != [] {
      assert fs[0] in fs;
      SurvivesOrLimit(fs[0].value, minFrequency);
      FieldsOrLimit(fs[1..], minFrequency);
      assert EncodeFields(fs, minFrequency)[1..] == EncodeFields(fs[1..], minFrequency);
      assert fs == [fs[0]] + fs[1..];
    }
  }

  lemma {:induction false} ItemsOrLimit(items: seq<Json>, minFrequency: nat, total: nat)
    requires forall x :: x in items ==> !Keyed(x) && Survives(x, minFrequency)
    ensures var r := DecodeItems(EncodeItems(items, minFrequency), total); r == Ok(items) || r == Err(LimitExceeded)
    decreases items, 0
  {
    if items != [] {
      var x := items[0];
      assert x in items;
      SurvivesOrLimit(x, minFrequency);
      EncodeKeyed(x, minFrequency);
      ItemsOrLimit(items[1..], minFrequency, total);
      assert EncodeItems(items, minFrequency)[1..] == EncodeItems(items[1..], minFrequency);
      assert items == [x] + items[1..];
    }
  }

  lemma {:induction false} RunsOrLimit(rs: seq<Run>, minFrequency: nat, total: nat)
    requires forall r :: r in rs ==> r.count >= 1 && RunSurvives(r, minFrequency)
    ensures var r := DecodeItems(EncodeRuns(rs, minFrequency), total); r == Ok(Expand(rs)) || r == Err(LimitExceeded)
  {
    if rs != [] {
      hide Decode, DecodeRun, Inert;
      var r := rs[0];
      assert r in rs;
      assert EncodeRuns(rs, minFrequency)[1..] == EncodeRuns(rs[1..], minFrequency);
      if r.count > minFrequency {
        StoredRunDecodes(r, minFrequency, total);
        RunsOrLimit(rs[1..], minFrequency, total + r.count);
      } else {
        DecodeFixesIff(r.value);
        assert Repeat(r.value, 1) == [r.value];
        RunsOrLimit(rs[1..], minFrequency, total);
      }
    }
  }

  lemma {:induction false} RunValuesFromItems(items: seq<Json>, r: Run)
    requires r in Runs(items)
    ensures r.value in items
  {
    var n := |items| - 1;
    var before := Runs(items[..n]);
    if r in before {
      RunValuesFromItems(items[..n], r);
    }
  }

  /** With a minimum frequency of at most one, and no run-keyed object in any array, nothing is lost. */
  lemma {:induction false} InertSurvives(v: Json, minFrequency: nat)
    requires minFrequency <= 1 && Inert(v)
    ensures Survives(v, minFrequency)
  {
    match v
    case Obj(fs) =>
      forall f | f in fs ensures Survives(f.value, minFrequency) {
        InertSurvives(f.value, minFrequency);
      }
    case Arr(items) =>
      if |items| > 2 {
        forall r | r in Runs(items) ensures RunSurvives(r, minFrequency) {
          RunValuesFromItems(items, r);
        }
      } else {
        forall x | x in items ensures Survives(x, minFrequency) {
          InertSurvives(x, minFrequency);
        }
      }
    case _ =>
  }

  /** The promise as documented: lossless or a limit error for default-like settings. */
  lemma {:induction false} DefaultRoundTrip(v: Json, minFrequency: nat)
    requires minFrequency <= 1 && Inert(v)
    ensures var r := Decode(Encode(v, minFrequency)); r == Ok(v) || r == Err(LimitExceeded)
    ensures WithinLimits(v, minFrequency) ==> Decode(Encode(v, minFrequency)) == Ok(v)
  {
    InertSurvives(v, minFrequency);
    SurvivesOrLimit(v, minFrequency);
    RoundTripIff(v, minFrequency);
  }

  lemma {:induction false} RunsGrow(items: seq<Json>, v: Json, n: nat)
    requires Runs(items) == [Run(v, n)]
    ensures Runs(items + [v]) == [Run(v, n + 1)]
  {
    assert (items + [v])[..|items|] == items;
    assert [Run(v, n)][..0] == [];
  }

  /** A larger minimum frequency loses repetitions: a run it does not exceed is stored once. */
  lemma {:induction false} RepetitionsLost()
    ensures var doc := Arr([Null, Null, Null]); Decode(Encode(doc, 3)) != Ok(doc)
  {
    var doc := Arr([Null, Null, Null]);
    assert [Null][..0] == [];
    assert Runs([Null]) == [Run(Null, 1)];
    RunsGrow([Null], Null, 1);
    RunsGrow([Null] + [Null], Null, 2);
    assert [Null] + [Null] + [Null] == doc.items;
    assert Run(Null, 3) in Runs(doc.items) && !RunSurvives(Run(Null, 3), 3);
    RoundTripIff(doc, 3);
  }
}

/** What delta encoding sends for each kind of value, and what its decoder makes of it. */
module DeltaLaws {
  import opened Json
  import opened Outcomes
  import opened Delta
  import Text

  // ---------------------------------------------------------------- encoding

  /** Bytes of the numbers' own text, and of their differences from `base`. */
  function NumberText(items: seq<Json>, st: Setting): nat {
    if items == [] then 0
    else (if items[0].Num? then st.textLength(AsF64(items[0].n, st)) else 0) + NumberText(items[1..], st)
  }

  function DifferenceText(items: seq<Json>, base: real, st: Setting): nat {
    if items == [] then 0
    else
      (if items[0].Num? then st.textLength(st.round(AsF64(items[0].n, st) - base)) else 0)
      + DifferenceText(items[1..], base, st)
  }

  lemma {:induction false} AllNumbersIff(items: seq<Json>)
    ensures AllNumbers(items) <==> forall x :: x in items ==> x.Num?
  {
    if items != [] {
      AllNumbersIff(items[1..]);
      assert items == [items[0]] + items[1..];
    }
  }

  lemma {:induction false} TextsAre(items: seq<Json>, base: real, st: Setting)
    requires AllNumbers(items)
    ensures TextLengths(Numbers(items, st), st) == NumberText(items, st)
    ensures TextLengths(Deltas(Numbers(items, st), base, st), st) == DifferenceText(items, base, st)
  {
    if items != [] {
      TextsAre(items[1..], base, st);
      assert Numbers(items, st)[1..] == Numbers(items[1..], st);
      var ds := Deltas(Numbers(items, st), base, st);
      assert ds[1..] == Deltas(Numbers(items[1..], st), base, st);
    }
  }

  /** The base of an array: the one configured for its path, else its first number. */
  function ChosenBase(items: seq<Json>, path: string, st: Setting): real {
    if path in st.bases then st.bases[path]
    else if items != [] && items[0].Num? then AsF64(items[0].n, st) else 0.0
  }

  /** An array of at least three numbers, and of the configured length, goes out as a header and each
      number's rounded difference from the base when those are shorter as text; else as it is. */
  lemma {:induction false} NumericArrayEncoded(items: seq<Json>, path: string, st: Setting)
    requires |items| > 2 && |items| >= st.minSequence && forall x :: x in items ==> x.Num?
    ensures var r, base := Encode(Arr(items), path, st), ChosenBase(items, path, st);
            if DifferenceText(items, base, st) < NumberText(items, st) then
              && r.Arr? && |r.items| == |items| + 1
              && r.items[0]
                 == Obj([Field("delta_base", Num(Float(base))), Field("delta_type", Str("numeric_sequence"))])
              && forall i :: 0 <= i < |items| ==>
                   items[i].Num? && r.items[i + 1] == Num(Float(st.round(AsF64(items[i].n, st) - base)))
            else r == Arr(items)
  {
    AllNumbersIff(items);
    assert items[0] in items;
    var base := BaseOf(items, path, st);
    TextsAre(items, base, st);
    DeltaFormIff([Header(base)] + Floats(Deltas(Numbers(items, st), base, st)), items, base, st);
  }

  lemma {:induction false} EncodeItemsAt(items: seq<Json>, index: nat, path: string, st: Setting, i: nat)
    requires i < |items|
    ensures EncodeItems(items, index, path, st)[i] == Encode(items[i], path + "[" + Text.Decimal(index + i) + "]", st)
  {
    hide Encode;
    if i > 0 {
      EncodeItemsAt(items[1..], index + 1, path, st, i - 1);
      assert EncodeItems(items, index, path, st)[1..] == EncodeItems(items[1..], index + 1, path, st);
    }
  }

  lemma {:induction false} EncodeFieldsAt(fs: seq<Field>, path: string, st: Setting, i: nat)
    requires i < |fs|
    ensures EncodeFields(fs, path, st)[i]
            == Field(fs[i].key, Encode(fs[i].value, if path == "" then fs[i].key else path + "." + fs[i].key, st))
  {
    if i > 0 {
      EncodeFieldsAt(fs[1..], path, st, i - 1);
    }
  }

  /** Any other value goes out part by part, each part under its own path, and scalars as they are. */
  lemma {:induction false} OthersEncoded(v: Json, path: string, st: Setting)
    ensures var r := Encode(v, path, st);
            match v
            case Arr(items) =>
              |items| <= 2 || |items| < st.minSequence || (exists x :: x in items && !x.Num?) ==>
                && r.Arr? && |r.items| == |items|
                && forall i :: 0 <= i < |items| ==>
                     r.items[i] == Encode(items[i], path + "[" + Text.Decimal(i) + "]", st)
            case Obj(fs) =>
              && r.Obj? && |r.fields| == |fs|
              && forall i :: 0 <= i < |fs| ==>
                   r.fields[i] == Field(fs[i].key,
                     Encode(fs[i].value, if path == "" then fs[i].key else path + "." + fs[i].key, st))
            case _ => r == v
  {
    match v
    case Arr(items) =>
      AllNumbersIff(items);
      forall i | 0 <= i < |items|
        ensures EncodeItems(items, 0, path, st)[i] == Encode(items[i], path + "[" + Text.Decimal(i) + "]", st)
      {
        EncodeItemsAt(items, 0, path, st, i);
      }
    case Obj(fs) =>
      forall i | 0 <= i < |fs|
        ensures EncodeFields(fs, path, st)[i] == Field(fs[i].key,
                  Encode(fs[i].value, if path == "" then fs[i].key else path + "." + fs[i].key, st))
      {
        EncodeFieldsAt(fs, path, st, i);
      }
    case _ =>
  }

  // ---------------------------------------------------------------- decoding

  lemma {:induction false} RestoreFails(base: real, deltas: seq<Json>, st: Setting)
    ensures Restore(base, deltas, st) == Err(Malformed) <==> !AllNumbers(deltas)
    ensures AllNumbers(deltas) ==> Restore(base, deltas, st).Ok? && |Restore(base, deltas, st).value| == |deltas|
  {
    if deltas != [] {
      RestoreFails(base, deltas[1..], st);
    }
  }

  lemma {:induction false} RestoreAt(base: real, deltas: seq<Json>, st: Setting, i: nat)
    requires AllNumbers(deltas) && i < |deltas|
    ensures var r := Restore(base, deltas, st);
            && r.Ok? && i < |r.value| && deltas[i].Num?
            && r.value[i] == Num(Float(st.round(base + AsF64(deltas[i].n, st))))
  {
    RestoreFails(base, deltas, st);
    if i > 0 {
      RestoreAt(base, deltas[1..], st, i - 1);
    }
  }

  lemma {:induction false} RestoreIs(base: real, deltas: seq<Json>, st: Setting)
    ensures var r := Restore(base, deltas, st);
            if forall x :: x in deltas ==> x.Num? then
              && r.Ok? && |r.value| == |deltas|
              && forall i :: 0 <= i < |deltas| ==>
                   deltas[i].Num? && r.value[i] == Num(Float(st.round(base + AsF64(deltas[i].n, st))))
            else r == Err(Malformed)
  {
    AllNumbersIff(deltas);
    RestoreFails(base, deltas, st);
    hide Restore, AllNumbers;
    forall i | 0 <= i < |deltas| && AllNumbers(deltas)
      ensures deltas[i].Num?
      ensures Restore(base, deltas, st).value[i] == Num(Float(st.round(base + AsF64(deltas[i].n, st))))
    {
      RestoreAt(base, deltas, st, i);
    }
  }

  /** A marked array, wherever it comes from: too long is the limit error, a base or a difference that
      is not a number is malformed, and otherwise each difference is added to the base. */
  lemma {:induction false} MarkedArrayDecoded(fs: seq<Field>, deltas: seq<Json>, st: Setting)
    requires HasKey(fs, "delta_base") && HasKey(fs, "delta_type")
    ensures var r := Decode(Arr([Obj(fs)] + deltas), st);
            var base := fs[Find(fs, "delta_base")].value;
            if |deltas| + 1 > 1_000_000 then r == Err(LimitExceeded)
            else if !base.Num? || exists x :: x in deltas && !x.Num? then r == Err(Malformed)
            else
              && r.Ok? && r.value.Arr? && |r.value.items| == |deltas|
              && forall i :: 0 <= i < |deltas| ==>
                   deltas[i].Num? &&
                   r.value.items[i] == Num(Float(st.round(AsF64(base.n, st) + AsF64(deltas[i].n, st))))
  {
    var items := [Obj(fs)] + deltas;
    assert items[1..] == deltas && Marked(items);
    var base := fs[Find(fs, "delta_base")].value;
    if base.Num? {
      RestoreIs(AsF64(base.n, st), deltas, st);
    }
  }

  lemma {:induction false} DecodeItemsIs(items: seq<Json>, st: Setting)
    ensures var r := DecodeItems(items, st);
            && (r.Ok? <==> forall x :: x in items ==> Decode(x, st).Ok?)
            && (r.Ok? ==> |r.value| == |items|)
  {
    if items != [] {
      hide Decode;
      DecodeItemsIs(items[1..], st);
      assert items == [items[0]] + items[1..];
      assert (forall x :: x in items ==> Decode(x, st).Ok?) <==>
             Decode(items[0], st).Ok? && forall x :: x in items[1..] ==> Decode(x, st).Ok?;
    }
  }

  lemma {:induction false} DecodeItemsAt(items: seq<Json>, st: Setting, i: nat)
    requires DecodeItems(items, st).Ok? && i < |items|
    ensures var r := DecodeItems(items, st);
            i < |r.value| && Decode(items[i], st) == Ok(r.value[i])
  {
    if i > 0 {
      DecodeItemsAt(items[1..], st, i - 1);
    }
  }

  /** An array that does not start with an object holding both keys is decoded element by element. */
  lemma {:induction false} OtherArrayDecoded(items: seq<Json>, st: Setting)
    requires items != [] && items[0].Obj? ==>
               !HasKey(items[0].fields, "delta_base") || !HasKey(items[0].fields, "delta_type")
    ensures var r := Decode(Arr(items), st);
            && (r.Ok? <==> forall x :: x in items ==> Decode(x, st).Ok?)
            && (r.Ok? ==>
                  && r.value.Arr? && |r.value.items| == |items|
                  && forall i :: 0 <= i < |items| ==> Decode(items[i], st) == Ok(r.value.items[i]))
  {
    DecodeItemsIs(items, st);
    if DecodeItems(items, st).Ok? {
      forall i | 0 <= i < |items| ensures Decode(items[i], st) == Ok(DecodeItems(items, st).value[i]) {
        DecodeItemsAt(items, st, i);
      }
    }
  }
}

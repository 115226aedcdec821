/** Delta encoding of numeric arrays, its decoder, and the hybrid of dictionary and delta.

    Floating-point results are modelled by a rounding function that is only known to be exact on
    integers of at most 53 bits, and text lengths of floats by an arbitrary function. */
module Delta {
  import opened Json
  import opened Outcomes
  import Text

  const MAX_DELTA_ARRAY_SIZE: nat := 1_000_000

  /** Integers up to 2^52: their differences and sums fit in 53 bits. */
  const EXACT: int := 0x10_0000_0000_0000

  /** The arithmetic the code runs on, and the settings that matter here. */
  datatype Setting = Setting(
    round: real -> real,
    textLength: real -> nat,
    minSequence: nat,
    bases: map<string, real>)

  /** Rounding leaves every integer of at most 53 bits alone. */
  ghost predicate ExactOnIntegers(round: real -> real) {
    forall r: real :: r.Floor as real == r && -2 * EXACT <= r.Floor <= 2 * EXACT ==> round(r) == r
  }

  /** A number as a float. */
  function AsF64(n: Number, st: Setting): real {
    match n
    case Int(i) => st.round(i as real)
    case Float(r) => r
  }

  // ---------------------------------------------------------------- encoding

  predicate AllNumbers(items: seq<Json>) {
    items == [] || (items[0].Num? && AllNumbers(items[1..]))
  }

  predicate IsNumericSequence(items: seq<Json>, st: Setting) {
    |items| >= st.minSequence && AllNumbers(items)
  }

  function Numbers(items: seq<Json>, st: Setting): (r: seq<real>)
    requires AllNumbers(items)
    ensures |r| == |items|
  {
    if items == [] then [] else [AsF64(items[0].n, st)] + Numbers(items[1..], st)
  }

  function Deltas(numbers: seq<real>, base: real, st: Setting): (r: seq<real>)
    ensures |r| == |numbers|
  {
    if numbers == [] then [] else [st.round(numbers[0] - base)] + Deltas(numbers[1..], base, st)
  }

  function TextLengths(rs: seq<real>, st: Setting): nat {
    if rs == [] then 0 else st.textLength(rs[0]) + TextLengths(rs[1..], st)
  }

  function Floats(rs: seq<real>): (r: seq<Json>)
    ensures |r| == |rs|
  {
    if rs == [] then [] else [Num(Float(rs[0]))] + Floats(rs[1..])
  }

  function Header(base: real): Json {
    Obj([Field("delta_base", Num(Float(base))), Field("delta_type", Str("numeric_sequence"))])
  }

  function BaseOf(items: seq<Json>, path: string, st: Setting): real
    requires items != [] && AllNumbers(items)
  {
    if path in st.bases then st.bases[path] else AsF64(items[0].n, st)
  }

  /** Deltas are used only when their text is shorter. */
  predicate Beneficial(items: seq<Json>, path: string, st: Setting)
    requires items != [] && AllNumbers(items)
  {
    var numbers := Numbers(items, st);
    TextLengths(Deltas(numbers, BaseOf(items, path, st), st), st) < TextLengths(numbers, st)
  }

  /** The arrays stored as a header and deltas. */
  predicate Compressed(items: seq<Json>, path: string, st: Setting) {
    |items| > 2 && IsNumericSequence(items, st) && Beneficial(items, path, st)
  }

  function CompressNumeric(items: seq<Json>, path: string, st: Setting): seq<Json>
    requires items != [] && AllNumbers(items)
  {
    var base := BaseOf(items, path, st);
    [Header(base)] + Floats(Deltas(Numbers(items, st), base, st))
  }

  function FieldPath(path: string, key: string): string {
    if path == [] then key else path + "." + key
  }

  function ItemPath(path: string, index: nat): string {
    path + "[" + Text.Decimal(index) + "]"
  }

  function Encode(v: Json, path: string, st: Setting): Json
    decreases v
  {
    match v
    case Obj(fs) => Obj(EncodeFields(fs, path, st))
    case Arr(items) =>
      if |items| > 2 && IsNumericSequence(items, st) then
        if Beneficial(items, path, st) then Arr(CompressNumeric(items, path, st)) else v
      else Arr(EncodeItems(items, 0, path, st))
    case _ => v
  }

  function EncodeItems(items: seq<Json>, index: nat, path: string, st: Setting): (r: seq<Json>)
    ensures |r| == |items|
    decreases items
  {
    if items == [] then []
    else [Encode(items[0], ItemPath(path, index), st)] + EncodeItems(items[1..], index + 1, path, st)
  }

  function EncodeFields(fs: seq<Field>, path: string, st: Setting): (r: seq<Field>)
    ensures |r| == |fs|
    decreases fs
  {
    if fs == [] then []
    else [Field(fs[0].key, Encode(fs[0].value, FieldPath(path, fs[0].key), st))] + EncodeFields(fs[1..], path, st)
  }

  // ---------------------------------------------------------------- decoding

  /** An array the decoder takes for a delta sequence. */
  predicate Marked(items: seq<Json>) {
    && items != [] && items[0].Obj?
    && HasKey(items[0].fields, "delta_base") && HasKey(items[0].fields, "delta_type")
  }

  /** Base plus each delta; every element must be a number. */
  function Restore(base: real, deltas: seq<Json>, st: Setting): Result<seq<Json>> {
    if deltas == [] then Ok([])
    else if !deltas[0].Num? then Err(Malformed)
    else
      var rest := Restore(base, deltas[1..], st);
      if rest.Err? then rest else Ok([Num(Float(st.round(base + AsF64(deltas[0].n, st))))] + rest.value)
  }

  function DecodeMarked(items: seq<Json>, st: Setting): Result<seq<Json>>
    requires Marked(items)
  {
    if |items| > MAX_DELTA_ARRAY_SIZE then Err(LimitExceeded)
    else
      var base := items[0].fields[Find(items[0].fields, "delta_base")].value;
      if !base.Num? then Err(Malformed) else Restore(AsF64(base.n, st), items[1..], st)
  }

  function Decode(v: Json, st: Setting): Result<Json> {
    match v
    case Obj(fs) =>
      var r := DecodeFields(fs, st);
      if r.Ok? then Ok(Obj(r.value)) else Err(r.error)
    case Arr(items) =>
      var r := if Marked(items) then DecodeMarked(items, st) else DecodeItems(items, st);
      if r.Ok? then Ok(Arr(r.value)) else Err(r.error)
    case _ => Ok(v)
  }

  function DecodeItems(items: seq<Json>, st: Setting): Result<seq<Json>> {
    if items == [] then Ok([])
    else
      var head := Decode(items[0], st);
      if head.Err? then Err(head.error)
      else
        var tail := DecodeItems(items[1..], st);
        if tail.Err? then tail else Ok([head.value] + tail.value)
  }

  function DecodeFields(fs: seq<Field>, st: Setting): Result<seq<Field>> {
    if fs == [] then Ok([])
    else
      var head := Decode(fs[0].value, st);
      if head.Err? then Err(head.error)
      else
        var tail := DecodeFields(fs[1..], st);
        if tail.Err? then tail else Ok([Field(fs[0].key, head.value)] + tail.value)
  }

  // ---------------------------------------------------------------- the loops

  /** The decoding loop over one delta array. */
  method DecompressDeltaArray(items: seq<Json>, st: Setting) returns (r: Result<seq<Json>>)
    requires Marked(items)
    ensures r == DecodeMarked(items, st)
  {
    if |items| > MAX_DELTA_ARRAY_SIZE {
      return Err(LimitExceeded);
    }
    var baseJson := items[0].fields[Find(items[0].fields, "delta_base")].value;
    if !baseJson.Num? {
      return Err(Malformed);
    }
    var base := AsF64(baseJson.n, st);
    var original: seq<Json> := [];
    ghost var whole := Restore(base, items[1..], st);
    assert whole.Ok? ==> original + whole.value == whole.value;
    for i := 1 to |items|
      invariant whole ==
        var rest := Restore(base, items[i..], st);
        if rest.Ok? then Ok(original + rest.value) else rest
    {
      assert items[i..][1..] == items[i + 1..];
      if !items[i].Num? {
        return Err(Malformed);
      }
      var value := Num(Float(st.round(base + AsF64(items[i].n, st))));
      ghost var rest := Restore(base, items[i + 1..], st);
      if rest.Ok? {
        assert original + ([value] + rest.value) == original + [value] + rest.value;
      }
      original := original + [value];
    }
    assert original + [] == original;
    r := Ok(original);
  }

  /** Every number of an array, as its difference from `base`, behind the header. */
  ghost predicate IsDeltaForm(r: seq<Json>, items: seq<Json>, base: real, st: Setting) {
    && |r| == |items| + 1 && r[0] == Header(base)
    && forall i :: 0 <= i < |items| ==>
         items[i].Num? && r[i + 1] == Num(Float(st.round(AsF64(items[i].n, st) - base)))
  }

  /**
    * The delta loops over one numeric array: the numbers, their differences, and the length of
    * both as text. The result is the array's encoding: differences that are shorter, or the
    * array itself.
    */
  method CompressDeltaArray(items: seq<Json>, path: string, st: Setting) returns (r: seq<Json>)
    requires AllNumbers(items)
    ensures |items| > 2 && IsNumericSequence(items, st) ==> Arr(r) == Encode(Arr(items), path, st)
    ensures r == items || (items != [] && IsDeltaForm(r, items, BaseOf(items, path, st), st))
    ensures r != items <==> items != [] && Beneficial(items, path, st)
  {
    hide Encode, IsDeltaForm, Beneficial, Numbers, Deltas, AllNumbers, Header, Floats, TextLengths;
    if items == [] {
      return items;
    }
    NumberAt(items, 0.0, 0, st);
    NothingYet(st);
    var base := if path in st.bases then st.bases[path] else AsF64(items[0].n, st);
    var differences: seq<Json> := [];
    var originalPrecision, deltaPrecision := 0, 0;
    ghost var numbers := Numbers(items, st);
    ghost var deltas := Deltas(numbers, base, st);
    for i := 0 to |items|
      invariant differences == Floats(deltas[..i])
      invariant originalPrecision == TextLengths(numbers[..i], st)
      invariant deltaPrecision == TextLengths(deltas[..i], st)
    {
      NumberAt(items, base, i, st);
      var number := AsF64(items[i].n, st);
      var delta := st.round(number - base);
      PrefixGrows(numbers, i, st);
      PrefixGrows(deltas, i, st);
      originalPrecision := originalPrecision + st.textLength(number);
      deltaPrecision := deltaPrecision + st.textLength(delta);
      differences := differences + [Num(Float(delta))];
    }
    assert numbers[..|items|] == numbers && deltas[..|items|] == deltas;
    EncodedArray(items, path, st);
    r := if deltaPrecision < originalPrecision then [Header(base)] + differences else items;
  }

  lemma NothingYet(st: Setting)
    ensures Floats([]) == [] && TextLengths([], st) == 0
  {
  }

  lemma {:induction false} PrefixGrows(rs: seq<real>, i: nat, st: Setting)
    requires i < |rs|
    ensures Floats(rs[..i + 1]) == Floats(rs[..i]) + [Num(Float(rs[i]))]
    ensures TextLengths(rs[..i + 1], st) == TextLengths(rs[..i], st) + st.textLength(rs[i])
  {
    hide Floats, TextLengths;
    assert rs[..i + 1] == rs[..i] + [rs[i]];
    FloatsSnoc(rs[..i], rs[i]);
    TextLengthsSnoc(rs[..i], rs[i], st);
  }

  /** What the loops compute is the array's encoding. */
  lemma {:induction false} EncodedArray(items: seq<Json>, path: string, st: Setting)
    requires AllNumbers(items) && items != []
    ensures var base := BaseOf(items, path, st);
            var numbers := Numbers(items, st);
            var deltas := Deltas(numbers, base, st);
            var shorter := TextLengths(deltas, st) < TextLengths(numbers, st);
            var sent := [Header(base)] + Floats(deltas);
            && (shorter <==> Beneficial(items, path, st))
            && IsDeltaForm(sent, items, base, st)
            && (|items| > 2 && IsNumericSequence(items, st) ==>
                  Arr(if shorter then sent else items) == Encode(Arr(items), path, st))
  {
    hide IsDeltaForm;
    var base := BaseOf(items, path, st);
    DeltaFormIff([Header(base)] + Floats(Deltas(Numbers(items, st), base, st)), items, base, st);
  }

  lemma {:induction false} NumberAt(items: seq<Json>, base: real, i: nat, st: Setting)
    requires AllNumbers(items) && i < |items|
    ensures items[i].Num? && Numbers(items, st)[i] == AsF64(items[i].n, st)
    ensures Deltas(Numbers(items, st), base, st)[i] == st.round(AsF64(items[i].n, st) - base)
  {
    if i > 0 {
      NumberAt(items[1..], base, i - 1, st);
      assert Numbers(items, st)[1..] == Numbers(items[1..], st);
    }
  }

  lemma {:induction false} FloatsSnoc(rs: seq<real>, r: real)
    ensures Floats(rs + [r]) == Floats(rs) + [Num(Float(r))]
  {
    if rs != [] {
      assert (rs + [r])[1..] == rs[1..] + [r];
      FloatsSnoc(rs[1..], r);
    }
  }

  lemma {:induction false} TextLengthsSnoc(rs: seq<real>, r: real, st: Setting)
    ensures TextLengths(rs + [r], st) == TextLengths(rs, st) + st.textLength(r)
  {
    if rs != [] {
      assert (rs + [r])[1..] == rs[1..] + [r];
      TextLengthsSnoc(rs[1..], r, st);
    }
  }

  lemma {:induction false} FloatsAt(rs: seq<real>, i: nat)
    requires i < |rs|
    ensures Floats(rs)[i] == Num(Float(rs[i]))
  {
    if i > 0 {
      FloatsAt(rs[1..], i - 1);
    }
  }

  /** The delta form, element by element, is the header and the rounded differences. */
  lemma {:induction false} DeltaFormIff(r: seq<Json>, items: seq<Json>, base: real, st: Setting)
    requires AllNumbers(items)
    ensures IsDeltaForm(r, items, base, st)
       <==> r == [Header(base)] + Floats(Deltas(Numbers(items, st), base, st))
  {
    var ds := Deltas(Numbers(items, st), base, st);
    var whole := [Header(base)] + Floats(ds);
    forall i | 0 <= i < |items|
      ensures items[i].Num? && whole[i + 1] == Num(Float(st.round(AsF64(items[i].n, st) - base)))
    {
      NumberAt(items, base, i, st);
      FloatsAt(ds, i);
      assert whole[i + 1] == Floats(ds)[i];
    }
    if IsDeltaForm(r, items, base, st) {
      forall k | 0 <= k < |r| ensures r[k] == whole[k] {
        if k > 0 {
          var i := k - 1;
          assert items[i].Num? && r[i + 1] == whole[i + 1];
        }
      }
    }
  }
}

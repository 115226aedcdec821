/** When undoing delta encoding gives a numerically equal document, alone and after substitution. */
module DeltaRoundTrip {
  import opened Json
  import opened Outcomes
  import opened Delta
  import Dictionary

  // ---------------------------------------------------------------- numeric equality

  function ValueOf(n: Number): real {
    match n
    case Int(i) => i as real
    case Float(r) => r
  }

  /** Same document, numbers compared by value. */
  predicate Same(a: Json, b: Json) {
    match a
    case Num(n) => b.Num? && ValueOf(n) == ValueOf(b.n)
    case Arr(items) => b.Arr? && SameItems(items, b.items)
    case Obj(fs) => b.Obj? && SameFields(fs, b.fields)
    case _ => a == b
  }

  predicate SameItems(a: seq<Json>, b: seq<Json>) {
    |a| == |b| && (a == [] || (Same(a[0], b[0]) && SameItems(a[1..], b[1..])))
  }

  predicate SameFields(a: seq<Field>, b: seq<Field>) {
    |a| == |b| && (a == [] || (a[0].key == b[0].key && Same(a[0].value, b[0].value) && SameFields(a[1..], b[1..])))
  }

  lemma {:induction false} SameReflexive(v: Json)
    ensures Same(v, v)
  {
    match v
    case Arr(items) => SameItemsReflexive(items);
    case Obj(fs) => SameFieldsReflexive(fs);
    case _ =>
  }

  lemma {:induction false} SameItemsReflexive(items: seq<Json>)
    ensures SameItems(items, items)
  {
    if items != [] {
      SameReflexive(items[0]);
      SameItemsReflexive(items[1..]);
    }
  }

  lemma {:induction false} SameFieldsReflexive(fs: seq<Field>)
    ensures SameFields(fs, fs)
  {
    if fs != [] {
      SameReflexive(fs[0].value);
      SameFieldsReflexive(fs[1..]);
    }
  }

  /** Nesting, array lengths, keys and numeric values; every other scalar looks alike. */
  function Outline(v: Json): Json {
    match v
    case Arr(items) => Arr(OutlineItems(items))
    case Obj(fs) => Obj(OutlineFields(fs))
    case Num(n) => Num(Float(ValueOf(n)))
    case _ => Null
  }

  function OutlineItems(items: seq<Json>): (r: seq<Json>)
    ensures |r| == |items|
  {
    if items == [] then [] else [Outline(items[0])] + OutlineItems(items[1..])
  }

  function OutlineFields(fs: seq<Field>): (r: seq<Field>)
    ensures |r| == |fs|
  {
    if fs == [] then [] else [Field(fs[0].key, Outline(fs[0].value))] + OutlineFields(fs[1..])
  }

  lemma {:induction false} SameOutline(a: Json, b: Json)
    requires Same(a, b)
    ensures Outline(a) == Outline(b)
  {
    match a
    case Arr(items) => SameOutlineItems(items, b.items);
    case Obj(fs) => SameOutlineFields(fs, b.fields);
    case _ =>
  }

  lemma {:induction false} SameOutlineItems(a: seq<Json>, b: seq<Json>)
    requires SameItems(a, b)
    ensures OutlineItems(a) == OutlineItems(b)
  {
    if a != [] {
      SameOutline(a[0], b[0]);
      SameOutlineItems(a[1..], b[1..]);
    }
  }

  lemma {:induction false} SameOutlineFields(a: seq<Field>, b: seq<Field>)
    requires SameFields(a, b)
    ensures OutlineFields(a) == OutlineFields(b)
  {
    if a != [] {
      SameOutline(a[0].value, b[0].value);
      SameOutlineFields(a[1..], b[1..]);
    }
  }

  // ---------------------------------------------------------------- conditions

  /** An integer of at most 52 bits, however it is written. */
  predicate SmallInteger(r: real) {
    r.Floor as real == r && -EXACT <= r.Floor <= EXACT
  }

  predicate SmallNumbers(v: Json) {
    match v
    case Num(n) => SmallInteger(ValueOf(n))
    case Arr(items) => forall x :: x in items ==> SmallNumbers(x)
    case Obj(fs) => forall f :: f in fs ==> SmallNumbers(f.value)
    case _ => true
  }

  ghost predicate SmallBases(st: Setting) {
    forall p :: p in st.bases ==> SmallInteger(st.bases[p])
  }

  /** No array starts with an object holding both delta keys. */
  predicate Unmarked(v: Json) {
    match v
    case Arr(items) => !Marked(items) && forall x :: x in items ==> Unmarked(x)
    case Obj(fs) => forall f :: f in fs ==> Unmarked(f.value)
    case _ => true
  }

  /** Every compressed array, with its header, is within the decoder's limit. */
  predicate WithinLimit(v: Json, path: string, st: Setting)
    decreases v
  {
    match v
    case Arr(items) =>
      if Compressed(items, path, st) then |items| + 1 <= MAX_DELTA_ARRAY_SIZE
      else ItemsWithinLimit(items, 0, path, st)
    case Obj(fs) => FieldsWithinLimit(fs, path, st)
    case _ => true
  }

  predicate ItemsWithinLimit(items: seq<Json>, index: nat, path: string, st: Setting)
    decreases items
  {
    items == [] ||
    (WithinLimit(items[0], ItemPath(path, index), st) && ItemsWithinLimit(items[1..], index + 1, path, st))
  }

  predicate FieldsWithinLimit(fs: seq<Field>, path: string, st: Setting)
    decreases fs
  {
    fs == [] || (WithinLimit(fs[0].value, FieldPath(path, fs[0].key), st) && FieldsWithinLimit(fs[1..], path, st))
  }

  // ---------------------------------------------------------------- one numeric array

  /** Subtracting the base and adding it back, each rounded, gives the number's value. */
  predicate Recovers(n: Number, base: real, st: Setting) {
    st.round(base + st.round(AsF64(n, st) - base)) == ValueOf(n)
  }

  predicate AllRecover(items: seq<Json>, base: real, st: Setting) {
    items == [] || (items[0].Num? && Recovers(items[0].n, base, st) && AllRecover(items[1..], base, st))
  }

  /** Every number of a compressed array survives the arithmetic. */
  predicate Exact(v: Json, path: string, st: Setting)
    decreases v
  {
    match v
    case Arr(items) =>
      if Compressed(items, path, st) then AllRecover(items, BaseOf(items, path, st), st)
      else ItemsExact(items, 0, path, st)
    case Obj(fs) => FieldsExact(fs, path, st)
    case _ => true
  }

  predicate ItemsExact(items: seq<Json>, index: nat, path: string, st: Setting)
    decreases items
  {
    items == [] || (Exact(items[0], ItemPath(path, index), st) && ItemsExact(items[1..], index + 1, path, st))
  }

  predicate FieldsExact(fs: seq<Field>, path: string, st: Setting)
    decreases fs
  {
    fs == [] || (Exact(fs[0].value, FieldPath(path, fs[0].key), st) && FieldsExact(fs[1..], path, st))
  }

  lemma {:induction false} SmallAsF64(n: Number, st: Setting)
    requires ExactOnIntegers(st.round) && SmallInteger(ValueOf(n))
    ensures AsF64(n, st) == ValueOf(n)
  {
    assert st.round(ValueOf(n)) == ValueOf(n);
  }

  /** Subtracting and adding back a base is exact on 52-bit integers. */
  lemma {:induction false} SubtractAdd(x: real, base: real, st: Setting)
    requires ExactOnIntegers(st.round) && SmallInteger(x) && SmallInteger(base)
    ensures st.round(base + st.round(x - base)) == x
  {
    var m, b := x.Floor, base.Floor;
    assert x - base == (m - b) as real;
    assert (x - base).Floor == m - b;
    assert st.round(x - base) == x - base;
    assert st.round(x) == x;
  }

  /** Integers of at most 52 bits survive, whatever the base map. */
  lemma {:induction false} SmallRecover(items: seq<Json>, base: real, st: Setting)
    requires ExactOnIntegers(st.round) && SmallInteger(base) && AllNumbers(items)
    requires forall x :: x in items ==> SmallNumbers(x)
    ensures AllRecover(items, base, st)
  {
    if items != [] {
      assert items[0] in items;
      SmallAsF64(items[0].n, st);
      SubtractAdd(ValueOf(items[0].n), base, st);
      SmallRecover(items[1..], base, st);
    }
  }

  lemma {:induction false} SmallExact(v: Json, path: string, st: Setting)
    requires ExactOnIntegers(st.round) && SmallBases(st) && SmallNumbers(v)
    ensures Exact(v, path, st)
    decreases v
  {
    match v
    case Arr(items) =>
      if Compressed(items, path, st) {
        assert items[0] in items;
        SmallAsF64(items[0].n, st);
        SmallRecover(items, BaseOf(items, path, st), st);
      } else {
        SmallExactItems(items, 0, path, st);
      }
    case Obj(fs) => SmallExactFields(fs, path, st);
    case _ =>
  }

  lemma {:induction false} SmallExactItems(items: seq<Json>, index: nat, path: string, st: Setting)
    requires ExactOnIntegers(st.round) && SmallBases(st) && forall x :: x in items ==> SmallNumbers(x)
    ensures ItemsExact(items, index, path, st)
    decreases items
  {
    if items != [] {
      assert items[0] in items;
      SmallExact(items[0], ItemPath(path, index), st);
      SmallExactItems(items[1..], index + 1, path, st);
    }
  }

  lemma {:induction false} SmallExactFields(fs: seq<Field>, path: string, st: Setting)
    requires ExactOnIntegers(st.round) && SmallBases(st) && forall f :: f in fs ==> SmallNumbers(f.value)
    ensures FieldsExact(fs, path, st)
    decreases fs
  {
    if fs != [] {
      assert fs[0] in fs;
      SmallExact(fs[0].value, FieldPath(path, fs[0].key), st);
      SmallExactFields(fs[1..], path, st);
    }
  }

  // ---------------------------------------------------------------- one array

  /** Adding the base back always succeeds; it restores the values exactly when all recover. */
  lemma {:induction false} RestoreDeltas(items: seq<Json>, base: real, st: Setting)
    requires AllNumbers(items)
    ensures var r := Restore(base, Floats(Deltas(Numbers(items, st), base, st)), st);
            && r.Ok? && |r.value| == |items|
            && (AllRecover(items, base, st) ==> SameItems(r.value, items))
            && (OutlineItems(r.value) == OutlineItems(items) ==> AllRecover(items, base, st))
  {
    if items != [] {
      var head := Num(Float(st.round(base + st.round(AsF64(items[0].n, st) - base))));
      var tail := Restore(base, Floats(Deltas(Numbers(items[1..], st), base, st)), st);
      RestoreCons(items, base, st);
      hide Restore, Floats, Deltas, Numbers;
      RestoreDeltas(items[1..], base, st);
      OutlineItemsCons(head, tail.value, items);
    }
  }

  lemma {:induction false} RestoreCons(items: seq<Json>, base: real, st: Setting)
    requires AllNumbers(items) && items != []
    ensures var whole := Restore(base, Floats(Deltas(Numbers(items, st), base, st)), st);
            var tail := Restore(base, Floats(Deltas(Numbers(items[1..], st), base, st)), st);
            var head := Num(Float(st.round(base + st.round(AsF64(items[0].n, st) - base))));
            whole == if tail.Err? then tail else Ok([head] + tail.value)
  {
    var ds := Deltas(Numbers(items, st), base, st);
    assert Numbers(items, st)[1..] == Numbers(items[1..], st);
    assert ds[1..] == Deltas(Numbers(items[1..], st), base, st);
    assert Floats(ds)[1..] == Floats(ds[1..]);
  }

  lemma {:induction false} HeaderMarks(base: real, rest: seq<Json>)
    ensures Marked([Header(base)] + rest)
    ensures Find(Header(base).fields, "delta_base") == 0
  {
    var fs := Header(base).fields;
    assert "delta_base"[6] != "delta_type"[6];
    assert fs[1..][0] == fs[1];
    assert Find(fs, "delta_type") == 1;
  }

  lemma {:induction false} CompressedRoundTrip(items: seq<Json>, path: string, st: Setting)
    requires items != [] && AllNumbers(items)
    ensures var r := Decode(Arr(CompressNumeric(items, path, st)), st);
            var exact := AllRecover(items, BaseOf(items, path, st), st);
            if |items| + 1 > MAX_DELTA_ARRAY_SIZE then r == Err(LimitExceeded)
            else r.Ok? && (exact ==> Same(r.value, Arr(items))) && (Outline(r.value) == Outline(Arr(items)) ==> exact)
  {
    var base := BaseOf(items, path, st);
    var ds := Floats(Deltas(Numbers(items, st), base, st));
    HeaderMarks(base, ds);
    RestoreDeltas(items, base, st);
    assert ([Header(base)] + ds)[1..] == ds;
  }

  // ---------------------------------------------------------------- whole documents

  lemma {:induction false} EncodeFieldsFind(fs: seq<Field>, path: string, st: Setting, key: string)
    ensures Find(EncodeFields(fs, path, st), key) == Find(fs, key)
  {
    if fs != [] {
      assert EncodeFields(fs, path, st)[1..] == EncodeFields(fs[1..], path, st);
      EncodeFieldsFind(fs[1..], path, st, key);
    }
  }

  /** Encoding an array element by element neither makes nor removes a mark. */
  lemma {:induction false} EncodeItemsMarked(items: seq<Json>, index: nat, path: string, st: Setting)
    ensures Marked(EncodeItems(items, index, path, st)) == Marked(items)
  {
    if items != [] && items[0].Obj? {
      EncodeFieldsFind(items[0].fields, ItemPath(path, index), st, "delta_base");
      EncodeFieldsFind(items[0].fields, ItemPath(path, index), st, "delta_type");
    }
  }

  lemma {:induction false} RestoreLength(base: real, deltas: seq<Json>, st: Setting)
    ensures var r := Restore(base, deltas, st); r.Ok? ==> |r.value| == |deltas|
  {
    if deltas != [] {
      RestoreLength(base, deltas[1..], st);
    }
  }

  /** A marked array that was not compressed loses its first element or fails. */
  lemma {:induction false} MarkedLoses(items: seq<Json>, path: string, st: Setting)
    requires Marked(items)
    ensures var r := Decode(Encode(Arr(items), path, st), st); r.Ok? ==> Outline(r.value) != Outline(Arr(items))
  {
    var es := EncodeItems(items, 0, path, st);
    EncodeItemsMarked(items, 0, path, st);
    var base := es[0].fields[Find(es[0].fields, "delta_base")].value;
    if base.Num? {
      RestoreLength(AsF64(base.n, st), es[1..], st);
    }
  }

  lemma {:induction false} NumbersUnmarked(items: seq<Json>)
    requires AllNumbers(items)
    ensures !Marked(items) && forall x :: x in items ==> x.Num? && Unmarked(x)
  {
    if items != [] {
      NumbersUnmarked(items[1..]);
      assert items == [items[0]] + items[1..];
    }
  }

  lemma {:induction false} DecodeNumbers(items: seq<Json>, index: nat, path: string, st: Setting)
    requires AllNumbers(items)
    ensures DecodeItems(items, st) == Ok(items)
    ensures ItemsWithinLimit(items, index, path, st) && ItemsExact(items, index, path, st)
  {
    if items != [] {
      DecodeNumbers(items[1..], index + 1, path, st);
      assert items == [items[0]] + items[1..];
    }
  }

  /** What a round trip may end in. */
  ghost predicate Restored(r: Result<Json>, v: Json) {
    r.Ok? && Same(r.value, v)
  }

  /** Marks, the limit and the arithmetic decide whether even the outline comes back; without
      marks only the limit can make decoding fail. */
  lemma {:induction false} DeltaExact(v: Json, path: string, st: Setting)
    ensures var r := Decode(Encode(v, path, st), st);
            var within, exact := WithinLimit(v, path, st), Exact(v, path, st);
            && (r.Ok? && Outline(r.value) == Outline(v) ==> Unmarked(v) && within && exact)
            && (Unmarked(v) ==> if within then r.Ok? && (exact ==> Same(r.value, v)) else r == Err(LimitExceeded))
    decreases v
  {
    match v
    case Obj(fs) => DeltaExactFields(fs, path, st);
    case Arr(items) =>
      if |items| > 2 && IsNumericSequence(items, st) {
        NumbersUnmarked(items);
        if Beneficial(items, path, st) {
          CompressedRoundTrip(items, path, st);
        } else {
          DecodeNumbers(items, 0, path, st);
          SameReflexive(v);
        }
      } else if Marked(items) {
        MarkedLoses(items, path, st);
      } else {
        EncodeItemsMarked(items, 0, path, st);
        DeltaExactItems(items, 0, path, st);
      }
    case _ => SameReflexive(v);
  }

  lemma {:induction false} DeltaExactItems(items: seq<Json>, index: nat, path: string, st: Setting)
    ensures var r := DecodeItems(EncodeItems(items, index, path, st), st);
            var unmarked := forall x :: x in items ==> Unmarked(x);
            var within, exact := ItemsWithinLimit(items, index, path, st), ItemsExact(items, index, path, st);
            && (r.Ok? && OutlineItems(r.value) == OutlineItems(items) ==> unmarked && within && exact)
            && (unmarked ==>
                  if within then r.Ok? && (exact ==> SameItems(r.value, items)) else r == Err(LimitExceeded))
    decreases items
  {
    if items != [] {
      hide Encode, Decode, Unmarked, WithinLimit, Exact, Same, Outline;
      var es := EncodeItems(items, index, path, st);
      assert items == [items[0]] + items[1..];
      assert es[1..] == EncodeItems(items[1..], index + 1, path, st);
      DeltaExact(items[0], ItemPath(path, index), st);
      DeltaExactItems(items[1..], index + 1, path, st);
      var head, tail := Decode(es[0], st), DecodeItems(es[1..], st);
      assert (forall x :: x in items ==> Unmarked(x)) <==>
             Unmarked(items[0]) && forall x :: x in items[1..] ==> Unmarked(x);
      if head.Ok? && tail.Ok? {
        assert DecodeItems(es, st) == Ok([head.value] + tail.value);
        OutlineItemsCons(head.value, tail.value, items);
      }
    }
  }

  lemma {:induction false} OutlineItemsCons(head: Json, tail: seq<Json>, items: seq<Json>)
    requires items != []
    ensures ([head] + tail)[1..] == tail
    ensures OutlineItems([head] + tail) == OutlineItems(items) ==>
              Outline(head) == Outline(items[0]) && OutlineItems(tail) == OutlineItems(items[1..])
  {
    assert ([head] + tail)[1..] == tail;
    var a, b := OutlineItems([head] + tail), OutlineItems(items);
    assert a[0] == Outline(head) && a[1..] == OutlineItems(tail);
    assert b[0] == Outline(items[0]) && b[1..] == OutlineItems(items[1..]);
  }

  lemma {:induction false} DeltaExactFields(fs: seq<Field>, path: string, st: Setting)
    ensures var r := DecodeFields(EncodeFields(fs, path, st), st);
            var unmarked := forall f :: f in fs ==> Unmarked(f.value);
            var within, exact := FieldsWithinLimit(fs, path, st), FieldsExact(fs, path, st);
            && (r.Ok? && OutlineFields(r.value) == OutlineFields(fs) ==> unmarked && within && exact)
            && (unmarked ==>
                  if within then r.Ok? && (exact ==> SameFields(r.value, fs)) else r == Err(LimitExceeded))
    decreases fs
  {
    if fs != [] {
      hide Encode, Decode, Unmarked, WithinLimit, Exact, Same, Outline;
      var es := EncodeFields(fs, path, st);
      assert fs == [fs[0]] + fs[1..];
      assert es[1..] == EncodeFields(fs[1..], path, st);
      DeltaExact(fs[0].value, FieldPath(path, fs[0].key), st);
      DeltaExactFields(fs[1..], path, st);
      var head, tail := Decode(es[0].value, st), DecodeFields(es[1..], st);
      assert (forall f :: f in fs ==> Unmarked(f.value)) <==>
             Unmarked(fs[0].value) && forall f :: f in fs[1..] ==> Unmarked(f.value);
      if head.Ok? && tail.Ok? {
        assert DecodeFields(es, st) == Ok([Field(fs[0].key, head.value)] + tail.value);
        OutlineFieldsCons(Field(fs[0].key, head.value), tail.value, fs);
      }
    }
  }

  lemma {:induction false} OutlineFieldsCons(head: Field, tail: seq<Field>, fs: seq<Field>)
    requires fs != []
    ensures ([head] + tail)[1..] == tail
    ensures OutlineFields([head] + tail) == OutlineFields(fs) ==>
              Outline(head.value) == Outline(fs[0].value) && OutlineFields(tail) == OutlineFields(fs[1..])
  {
    assert ([head] + tail)[1..] == tail;
    var a, b := OutlineFields([head] + tail), OutlineFields(fs);
    assert a[0] == Field(head.key, Outline(head.value)) && a[1..] == OutlineFields(tail);
    assert b[0] == Field(fs[0].key, Outline(fs[0].value)) && b[1..] == OutlineFields(fs[1..]);
  }

  /** Undoing delta encoding gives a numerically equal document if and only if no array is marked,
      every compressed array is within the limit, and its numbers survive the arithmetic. An
      unmarked document fails only at the limit. */
  lemma {:induction false} DeltaRoundTripIff(v: Json, path: string, st: Setting)
    ensures Restored(Decode(Encode(v, path, st), st), v)
       <==> Unmarked(v) && WithinLimit(v, path, st) && Exact(v, path, st)
    ensures Unmarked(v) ==>
              var r := Decode(Encode(v, path, st), st);
              if WithinLimit(v, path, st) then r.Ok? else r == Err(LimitExceeded)
  {
    DeltaExact(v, path, st);
    var r := Decode(Encode(v, path, st), st);
    if Restored(r, v) {
      SameOutline(r.value, v);
    }
  }

  /** With integers of at most 52 bits the arithmetic is never the obstacle. */
  lemma {:induction false} IntegersRoundTrip(v: Json, path: string, st: Setting)
    requires ExactOnIntegers(st.round) && SmallBases(st) && SmallNumbers(v) && Unmarked(v)
    ensures var r := Decode(Encode(v, path, st), st);
            if WithinLimit(v, path, st) then Restored(r, v) else r == Err(LimitExceeded)
  {
    DeltaRoundTripIff(v, path, st);
    SmallExact(v, path, st);
  }

  /** One array through both loops: it comes back numerically if and only if it was kept, or it is
      within the limit and its numbers survive the arithmetic. */
  method CompressAndRestoreArray(items: seq<Json>, path: string, st: Setting) returns (r: Result<seq<Json>>)
    requires AllNumbers(items) && items != []
    ensures r.Ok? && SameItems(r.value, items)
       <==> Beneficial(items, path, st) ==>
              |items| + 1 <= MAX_DELTA_ARRAY_SIZE && AllRecover(items, BaseOf(items, path, st), st)
  {
    var sent := CompressDeltaArray(items, path, st);
    ghost var base := BaseOf(items, path, st);
    MarkedIffCompressed(sent, items, base, st);
    if Marked(sent) {
      DeltaFormIff(sent, items, base, st);
      HeaderMarks(base, sent[1..]);
      RestoreDeltas(items, base, st);
      assert sent[1..] == Floats(Deltas(Numbers(items, st), base, st));
      r := DecompressDeltaArray(sent, st);
      if r.Ok? && SameItems(r.value, items) {
        SameOutlineItems(r.value, items);
      }
    } else {
      SameItemsReflexive(items);
      r := Ok(sent);
    }
  }

  /** The decoder recognises exactly the arrays that were compressed. */
  lemma {:induction false} MarkedIffCompressed(r: seq<Json>, items: seq<Json>, base: real, st: Setting)
    requires AllNumbers(items) && (r == items || IsDeltaForm(r, items, base, st))
    ensures Marked(r) <==> r != items
  {
    NumbersUnmarked(items);
    if r != items {
      HeaderMarks(base, r[1..]);
      assert r == [Header(base)] + r[1..];
    }
  }

  // ---------------------------------------------------------------- hybrid

  /** Dictionary substitution, then delta encoding. */
  function HybridEncode(v: Json, dict: Dictionary.Dict, st: Setting): Json {
    Encode(Dictionary.Substitute(v, dict), "", st)
  }

  /** Undo delta first, then the dictionary. */
  function HybridDecode(v: Json, entries: map<nat, string>, st: Setting): Result<Json> {
    var d := Decode(v, st);
    if d.Err? then d else Dictionary.Decode(d.value, entries)
  }

  /** Resolving markers respects numeric equality. */
  lemma {:induction false} ResolveSame(a: Json, b: Json, entries: map<nat, string>)
    requires Same(a, b)
    ensures var x, y := Dictionary.Decode(a, entries), Dictionary.Decode(b, entries);
            if x.Ok? then y.Ok? && Same(x.value, y.value) else y == x
  {
    match a
    case Arr(items) => ResolveSameItems(items, b.items, entries);
    case Obj(fs) => ResolveSameFields(fs, b.fields, entries);
    case _ =>
  }

  lemma {:induction false} ResolveSameItems(a: seq<Json>, b: seq<Json>, entries: map<nat, string>)
    requires SameItems(a, b)
    ensures var x, y := Dictionary.DecodeItems(a, entries), Dictionary.DecodeItems(b, entries);
            if x.Ok? then y.Ok? && SameItems(x.value, y.value) else y == x
  {
    if a != [] {
      ResolveSame(a[0], b[0], entries);
      ResolveSameItems(a[1..], b[1..], entries);
      var x, y := Dictionary.DecodeItems(a, entries), Dictionary.DecodeItems(b, entries);
      if x.Ok? {
        assert x.value[1..] == Dictionary.DecodeItems(a[1..], entries).value;
        assert y.value[1..] == Dictionary.DecodeItems(b[1..], entries).value;
      }
    }
  }

  lemma {:induction false} ResolveSameFields(a: seq<Field>, b: seq<Field>, entries: map<nat, string>)
    requires SameFields(a, b)
    ensures var x, y := Dictionary.DecodeFields(a, entries), Dictionary.DecodeFields(b, entries);
            if x.Ok? then y.Ok? && SameFields(x.value, y.value) else y == x
  {
    if a != [] {
      ResolveSame(a[0].value, b[0].value, entries);
      ResolveSameFields(a[1..], b[1..], entries);
      var x, y := Dictionary.DecodeFields(a, entries), Dictionary.DecodeFields(b, entries);
      if x.Ok? {
        assert x.value[1..] == Dictionary.DecodeFields(a[1..], entries).value;
        assert y.value[1..] == Dictionary.DecodeFields(b[1..], entries).value;
      }
    }
  }

  lemma {:induction false} SubstituteFind(fs: seq<Field>, dict: Dictionary.Dict, key: string)
    ensures Find(Dictionary.SubstituteFields(fs, dict), key) == Find(fs, key)
  {
    if fs != [] {
      assert Dictionary.SubstituteFields(fs, dict)[1..] == Dictionary.SubstituteFields(fs[1..], dict);
      SubstituteFind(fs[1..], dict, key);
    }
  }

  lemma {:induction false} SubstituteMarked(items: seq<Json>, dict: Dictionary.Dict)
    ensures Marked(Dictionary.SubstituteItems(items, dict)) == Marked(items)
  {
    if items != [] && items[0].Obj? {
      SubstituteFind(items[0].fields, dict, "delta_base");
      SubstituteFind(items[0].fields, dict, "delta_type");
    }
  }

  /** Substitution leaves an array of numbers alone, and makes none. */
  lemma {:induction false} SubstituteNumbers(items: seq<Json>, dict: Dictionary.Dict)
    ensures |Dictionary.SubstituteItems(items, dict)| == |items|
    ensures AllNumbers(Dictionary.SubstituteItems(items, dict)) == AllNumbers(items)
    ensures AllNumbers(items) ==> Dictionary.SubstituteItems(items, dict) == items
  {
    if items != [] {
      assert items == [items[0]] + items[1..];
      assert Dictionary.SubstituteItems(items, dict)[1..] == Dictionary.SubstituteItems(items[1..], dict);
      SubstituteNumbers(items[1..], dict);
    }
  }

  /** Substitution changes strings only: marks, limits, numbers and paths stay. */
  lemma {:induction false} SubstituteKeeps(v: Json, dict: Dictionary.Dict, path: string, st: Setting)
    ensures var s := Dictionary.Substitute(v, dict);
            && Unmarked(v) == Unmarked(s) && Outline(v) == Outline(s)
            && WithinLimit(v, path, st) == WithinLimit(s, path, st) && Exact(v, path, st) == Exact(s, path, st)
    decreases v
  {
    match v
    case Arr(items) =>
      SubstituteNumbers(items, dict);
      SubstituteMarked(items, dict);
      SubstituteKeepsItems(items, dict, 0, path, st);
    case Obj(fs) => SubstituteKeepsFields(fs, dict, path, st);
    case _ =>
  }

  lemma {:induction false} SubstituteKeepsItems(
    items: seq<Json>, dict: Dictionary.Dict, index: nat, path: string, st: Setting)
    ensures var sub := Dictionary.SubstituteItems(items, dict);
            && ((forall x :: x in items ==> Unmarked(x)) <==> forall x :: x in sub ==> Unmarked(x))
            && OutlineItems(items) == OutlineItems(sub)
            && ItemsWithinLimit(items, index, path, st) == ItemsWithinLimit(sub, index, path, st)
            && ItemsExact(items, index, path, st) == ItemsExact(sub, index, path, st)
    decreases items
  {
    if items != [] {
      hide Unmarked, Outline, WithinLimit, Exact, Dictionary.Substitute;
      assert items == [items[0]] + items[1..];
      SubstituteKeeps(items[0], dict, ItemPath(path, index), st);
      SubstituteKeepsItems(items[1..], dict, index + 1, path, st);
      var sub := Dictionary.SubstituteItems(items, dict);
      assert sub[1..] == Dictionary.SubstituteItems(items[1..], dict) && sub == [sub[0]] + sub[1..];
    }
  }

  lemma {:induction false} SubstituteKeepsFields(fs: seq<Field>, dict: Dictionary.Dict, path: string, st: Setting)
    ensures var sub := Dictionary.SubstituteFields(fs, dict);
            && ((forall f :: f in fs ==> Unmarked(f.value)) <==> forall f :: f in sub ==> Unmarked(f.value))
            && OutlineFields(fs) == OutlineFields(sub)
            && FieldsWithinLimit(fs, path, st) == FieldsWithinLimit(sub, path, st)
            && FieldsExact(fs, path, st) == FieldsExact(sub, path, st)
    decreases fs
  {
    if fs != [] {
      hide Unmarked, Outline, WithinLimit, Exact, Dictionary.Substitute;
      assert fs == [fs[0]] + fs[1..];
      SubstituteKeeps(fs[0].value, dict, FieldPath(path, fs[0].key), st);
      SubstituteKeepsFields(fs[1..], dict, path, st);
      var sub := Dictionary.SubstituteFields(fs, dict);
      assert sub[1..] == Dictionary.SubstituteFields(fs[1..], dict) && sub == [sub[0]] + sub[1..];
    }
  }

  /** Resolving markers keeps the outline. */
  lemma {:induction false} ResolveOutline(v: Json, entries: map<nat, string>)
    ensures var r := Dictionary.Decode(v, entries); r.Ok? ==> Outline(r.value) == Outline(v)
  {
    match v
    case Arr(items) => ResolveOutlineItems(items, entries);
    case Obj(fs) => ResolveOutlineFields(fs, entries);
    case _ =>
  }

  lemma {:induction false} ResolveOutlineItems(items: seq<Json>, entries: map<nat, string>)
    ensures var r := Dictionary.DecodeItems(items, entries); r.Ok? ==> OutlineItems(r.value) == OutlineItems(items)
  {
    if items != [] {
      ResolveOutline(items[0], entries);
      ResolveOutlineItems(items[1..], entries);
      var r := Dictionary.DecodeItems(items, entries);
      assert r.Ok? ==> r.value[1..] == Dictionary.DecodeItems(items[1..], entries).value;
    }
  }

  lemma {:induction false} ResolveOutlineFields(fs: seq<Field>, entries: map<nat, string>)
    ensures var r := Dictionary.DecodeFields(fs, entries); r.Ok? ==> OutlineFields(r.value) == OutlineFields(fs)
  {
    if fs != [] {
      ResolveOutline(fs[0].value, entries);
      ResolveOutlineFields(fs[1..], entries);
      var r := Dictionary.DecodeFields(fs, entries);
      assert r.Ok? ==> r.value[1..] == Dictionary.DecodeFields(fs[1..], entries).value;
    }
  }

  /** The hybrid round trip gives a numerically equal document if and only if no array of the input
      is marked, its compressed arrays are within the limit and their numbers survive the
      arithmetic. Without marks, a document over the limit reports the limit. */
  lemma {:induction false} HybridRoundTripIff(v: Json, dict: Dictionary.Dict, entries: map<nat, string>, st: Setting)
    requires Dictionary.Resolves(dict, entries)
    ensures var r := HybridDecode(HybridEncode(v, dict, st), entries, st);
            && (Restored(r, v) <==> Unmarked(v) && WithinLimit(v, "", st) && Exact(v, "", st))
            && (Unmarked(v) && !WithinLimit(v, "", st) ==> r == Err(LimitExceeded))
  {
    hide Unmarked, WithinLimit, Exact, Same, Outline, Encode, Decode;
    var s := Dictionary.Substitute(v, dict);
    var d := Decode(Encode(s, "", st), st);
    SubstituteKeeps(v, dict, "", st);
    DeltaExact(s, "", st);
    if Unmarked(v) && WithinLimit(v, "", st) && Exact(v, "", st) {
      Dictionary.SubstituteRoundTrip(v, dict, entries);
      ResolveSame(d.value, s, entries);
    }
    var r := HybridDecode(HybridEncode(v, dict, st), entries, st);
    if Restored(r, v) {
      SameOutline(r.value, v);
      ResolveOutline(d.value, entries);
    }
  }

  /** With integers of at most 52 bits, for any base map, only the limit can stand in the way. */
  lemma {:induction false} HybridIntegersRoundTrip(
    v: Json, dict: Dictionary.Dict, entries: map<nat, string>, st: Setting)
    requires ExactOnIntegers(st.round) && SmallBases(st) && SmallNumbers(v)
    requires Dictionary.Resolves(dict, entries) && Unmarked(v)
    ensures var r := HybridDecode(HybridEncode(v, dict, st), entries, st);
            if WithinLimit(v, "", st) then Restored(r, v) else r == Err(LimitExceeded)
  {
    hide *;
    HybridRoundTripIff(v, dict, entries, st);
    SmallExact(v, "", st);
  }
}

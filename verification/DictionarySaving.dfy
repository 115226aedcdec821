/** The measured wire size of a dictionary-compressed document against the modelled net saving. */
module DictionarySaving {
  import opened Json
  import opened Outcomes
  import opened Dictionary
  import opened DictionaryBuilder
  import opened DictionaryChoice
  import Text

  // ---------------------------------------------------------------- compact JSON text

  const QUOTE: char := '\U{22}'
  const BACKSLASH: char := '\U{5C}'

  function HexChar(d: nat): char
    requires d < 16
  {
    if d < 10 then ('0' as int + d) as char else ('a' as int + d - 10) as char
  }

  /** The text of one code unit inside a JSON string. */
  function EscapeChar(c: char): (r: string)
    ensures |r| >= 1
  {
    if c == QUOTE then [BACKSLASH, QUOTE]
    else if c == BACKSLASH then [BACKSLASH, BACKSLASH]
    else if c == '\U{08}' then [BACKSLASH, 'b']
    else if c == '\U{09}' then [BACKSLASH, 't']
    else if c == '\U{0A}' then [BACKSLASH, 'n']
    else if c == '\U{0C}' then [BACKSLASH, 'f']
    else if c == '\U{0D}' then [BACKSLASH, 'r']
    else if c as int < 0x20 then [BACKSLASH, 'u', '0', '0', HexChar(c as int / 16), HexChar(c as int % 16)]
    else [c]
  }

  function Escaped(s: string): string {
    if s == [] then [] else EscapeChar(s[0]) + Escaped(s[1..])
  }

  function QuotedText(s: string): string {
    [QUOTE] + Escaped(s) + [QUOTE]
  }

  /** Compact serialization; `numText` is the formatter of numbers. */
  function Serialize(v: Json, numText: Number -> string): string {
    match v
    case Null => "null"
    case Bool(b) => if b then "true" else "false"
    case Num(n) => numText(n)
    case Str(s) => QuotedText(s)
    case Arr(items) => "[" + SerializeItems(items, numText) + "]"
    case Obj(fs) => "{" + SerializeFields(fs, numText) + "}"
  }

  function SerializeItems(items: seq<Json>, numText: Number -> string): string {
    if items == [] then []
    else if |items| == 1 then Serialize(items[0], numText)
    else Serialize(items[0], numText) + "," + SerializeItems(items[1..], numText)
  }

  function SerializeFields(fs: seq<Field>, numText: Number -> string): string {
    if fs == [] then []
    else
      var first := QuotedText(fs[0].key) + ":" + Serialize(fs[0].value, numText);
      if |fs| == 1 then first else first + "," + SerializeFields(fs[1..], numText)
  }

  /** Measured size: the payload, and the metadata object when it is not empty. */
  function WireSize(data: Json, metadata: seq<Field>, numText: Number -> string): nat {
    |Serialize(data, numText)| + if metadata == [] then 0 else |Serialize(Obj(metadata), numText)|
  }

  // ---------------------------------------------------------------- what substitution changes

  lemma {:induction false} EscapedPlain(s: string)
    requires forall c :: c in s ==> Text.IsDigit(c) || c == SENTINEL
    ensures Escaped(s) == s
  {
    if s != [] {
      assert s[0] in s;
      EscapedPlain(s[1..]);
    }
  }

  /** Bytes one string value loses by substitution; a literal sentinel costs one. */
  function StringSaving(s: string, dict: Dict): int {
    if s in dict then |Escaped(s)| - MarkerLength(dict[s])
    else if SentinelLed(s) then -1
    else 0
  }

  function StringsSaving(ss: seq<string>, dict: Dict): int {
    if ss == [] then 0 else StringSaving(ss[0], dict) + StringsSaving(ss[1..], dict)
  }

  lemma {:induction false} StringsSavingConcat(a: seq<string>, b: seq<string>, dict: Dict)
    ensures StringsSaving(a + b, dict) == StringsSaving(a, dict) + StringsSaving(b, dict)
  {
    if a == [] {
      assert a + b == b;
    } else {
      assert (a + b)[1..] == a[1..] + b;
      StringsSavingConcat(a[1..], b, dict);
    }
  }

  lemma {:induction false} StringSavingMeasured(s: string, dict: Dict)
    ensures |QuotedText(s)| - |QuotedText(EncodeString(s, dict))| == StringSaving(s, dict)
  {
    if s in dict {
      EscapedPlain(EncodeString(s, dict));
    } else if SentinelLed(s) {
      assert EncodeString(s, dict)[1..] == s;
    }
  }

  /** The payload shrinks by exactly what its strings save. */
  lemma {:induction false} PayloadSaving(v: Json, dict: Dict, numText: Number -> string)
    ensures |Serialize(v, numText)| - |Serialize(Substitute(v, dict), numText)| == StringsSaving(Strings(v), dict)
  {
    match v
    case Str(s) =>
      StringSavingMeasured(s, dict);
      assert [s][1..] == [];
    case Arr(items) => ItemsSaving(items, dict, numText);
    case Obj(fs) => FieldsSaving(fs, dict, numText);
    case _ =>
  }

  lemma {:induction false} ItemsSaving(items: seq<Json>, dict: Dict, numText: Number -> string)
    ensures |SerializeItems(items, numText)| - |SerializeItems(SubstituteItems(items, dict), numText)|
            == StringsSaving(StringsOfItems(items), dict)
  {
    if items != [] {
      var sub := SubstituteItems(items, dict);
      PayloadSaving(items[0], dict, numText);
      ItemsSaving(items[1..], dict, numText);
      StringsSavingConcat(Strings(items[0]), StringsOfItems(items[1..]), dict);
      assert sub[1..] == SubstituteItems(items[1..], dict);
    }
  }

  lemma {:induction false} FieldsSaving(fs: seq<Field>, dict: Dict, numText: Number -> string)
    ensures |SerializeFields(fs, numText)| - |SerializeFields(SubstituteFields(fs, dict), numText)|
            == StringsSaving(StringsOfFields(fs), dict)
  {
    if fs != [] {
      var sub := SubstituteFields(fs, dict);
      PayloadSaving(fs[0].value, dict, numText);
      FieldsSaving(fs[1..], dict, numText);
      StringsSavingConcat(Strings(fs[0].value), StringsOfFields(fs[1..]), dict);
      assert sub[1..] == SubstituteFields(fs[1..], dict);
    }
  }

  // ---------------------------------------------------------------- grouping by kept string

  /** Saving of every occurrence of the kept strings, `ms` giving the occurrences. */
  function KeptSaving(kept: seq<Entry>, index: nat, ms: multiset<string>): int {
    if kept == [] then 0
    else ms[kept[0].s] * (|Escaped(kept[0].s)| - MarkerLength(index)) + KeptSaving(kept[1..], index + 1, ms)
  }

  /** Saving of one occurrence of `s`. */
  function OneSaving(kept: seq<Entry>, index: nat, s: string): int {
    if kept == [] then 0
    else (if kept[0].s == s then |Escaped(s)| - MarkerLength(index) else 0) + OneSaving(kept[1..], index + 1, s)
  }

  /** How many strings are escaped literals: sentinel-led and not in the dictionary. */
  function Literals(ss: seq<string>, dict: Dict): nat {
    if ss == [] then 0
    else (if ss[0] !in dict && SentinelLed(ss[0]) then 1 else 0) + Literals(ss[1..], dict)
  }

  lemma {:induction false} KeptSavingAdd(kept: seq<Entry>, index: nat, ms: multiset<string>, s: string)
    ensures KeptSaving(kept, index, multiset{s} + ms) == OneSaving(kept, index, s) + KeptSaving(kept, index, ms)
  {
    if kept != [] {
      KeptSavingAdd(kept[1..], index + 1, ms, s);
      var n, x := ms[kept[0].s], |Escaped(kept[0].s)| - MarkerLength(index);
      assert (1 + n) * x == x + n * x;
    }
  }

  lemma {:induction false} KeptSavingNone(kept: seq<Entry>, index: nat)
    ensures KeptSaving(kept, index, multiset{}) == 0
  {
    if kept != [] {
      KeptSavingNone(kept[1..], index + 1);
    }
  }

  lemma {:induction false} OneSavingAbsent(kept: seq<Entry>, index: nat, s: string)
    requires forall i :: 0 <= i < |kept| ==> kept[i].s != s
    ensures OneSaving(kept, index, s) == 0
  {
    if kept != [] {
      OneSavingAbsent(kept[1..], index + 1, s);
    }
  }

  lemma {:induction false} OneSavingAt(kept: seq<Entry>, index: nat, i: nat)
    requires DistinctStrings(kept) && i < |kept|
    ensures OneSaving(kept, index, kept[i].s) == |Escaped(kept[i].s)| - MarkerLength(index + i)
  {
    if i == 0 {
      OneSavingAbsent(kept[1..], index + 1, kept[0].s);
    } else {
      OneSavingAt(kept[1..], index + 1, i - 1);
    }
  }

  lemma {:induction false} OneSavingIs(kept: seq<Entry>, s: string)
    requires DistinctStrings(kept)
    ensures OneSaving(kept, 0, s) == if s in DictOf(kept) then |Escaped(s)| - MarkerLength(DictOf(kept)[s]) else 0
  {
    if s in DictOf(kept) {
      var i := DictOfKey(kept, s);
      DictOfAt(kept, i);
      OneSavingAt(kept, 0, i);
    } else {
      forall i | 0 <= i < |kept| ensures kept[i].s != s {
        DictOfAt(kept, i);
      }
      OneSavingAbsent(kept, 0, s);
    }
  }

  /** The strings' saving, gathered by kept string. */
  lemma {:induction false} SavingGrouped(ss: seq<string>, kept: seq<Entry>)
    requires DistinctStrings(kept)
    ensures StringsSaving(ss, DictOf(kept)) == KeptSaving(kept, 0, multiset(ss)) - Literals(ss, DictOf(kept))
  {
    if ss == [] {
      KeptSavingNone(kept, 0);
    } else {
      SavingGrouped(ss[1..], kept);
      assert multiset(ss) == multiset{ss[0]} + multiset(ss[1..]) by {
        assert ss == [ss[0]] + ss[1..];
      }
      KeptSavingAdd(kept, 0, multiset(ss[1..]), ss[0]);
      OneSavingIs(kept, ss[0]);
    }
  }

  // ---------------------------------------------------------------- metadata

  function StringArray(kept: seq<Entry>): seq<Json> {
    seq(|kept|, i requires 0 <= i < |kept| => Str(kept[i].s))
  }

  /** The metadata object sent with a dictionary-compressed payload. */
  function Metadata(kept: seq<Entry>): seq<Field> {
    [Field("dict", Arr(StringArray(kept)))]
  }

  function MeasuredCost(kept: seq<Entry>): nat {
    if kept == [] then 0 else |Escaped(kept[0].s)| + 3 + MeasuredCost(kept[1..])
  }

  lemma {:induction false} StringArrayText(kept: seq<Entry>, numText: Number -> string)
    requires kept != []
    ensures |SerializeItems(StringArray(kept), numText)| == MeasuredCost(kept) - 1
  {
    if |kept| > 1 {
      StringArrayText(kept[1..], numText);
      assert StringArray(kept)[1..] == StringArray(kept[1..]);
    } else {
      assert kept[1..] == [];
    }
  }

  lemma {:induction false} MetadataText(kept: seq<Entry>, numText: Number -> string)
    requires kept != []
    ensures |Serialize(Obj(Metadata(kept)), numText)| == MeasuredCost(kept) + ENVELOPE
  {
    StringArrayText(kept, numText);
    EscapeDict();
    assert |SerializeFields(Metadata(kept), numText)| == |QuotedText("dict")| + 1 + 2 + MeasuredCost(kept) - 1;
  }

  lemma EscapeDict()
    ensures |QuotedText("dict")| == 6
  {
    assert Escaped("dict") == "d" + Escaped("ict");
    assert Escaped("ict") == "i" + Escaped("ct");
    assert Escaped("ct") == "c" + Escaped("t");
    assert Escaped("t") == "t" + Escaped("");
  }

  // ---------------------------------------------------------------- the identity

  /** What escaping adds to the model: each kept string is sent once and spared `count` times. */
  function EscapeBonus(kept: seq<Entry>): int {
    if kept == [] then 0
    else (kept[0].count - 1) * (|Escaped(kept[0].s)| - |kept[0].s|) + EscapeBonus(kept[1..])
  }

  lemma {:induction false} PerEntry(c: int, e: int, l: int, m: int)
    ensures c * (e - m) - (e + 3) == c * (l - m) - (l + 3) + (c - 1) * (e - l)
  {
    assert c * (e - m) == c * (l - m) + c * (e - l) by {
      assert e - m == (l - m) + (e - l);
    }
    assert (c - 1) * (e - l) == c * (e - l) - (e - l);
  }

  lemma {:induction false} GroupedAgainstModel(kept: seq<Entry>, index: nat, ms: multiset<string>)
    requires forall e :: e in kept ==> ms[e.s] == e.count
    ensures KeptSaving(kept, index, ms) - MeasuredCost(kept) == Saved(kept, index) + EscapeBonus(kept)
  {
    if kept != [] {
      var e := kept[0];
      GroupedAgainstModel(kept[1..], index + 1, ms);
      PerEntry(e.count, |Escaped(e.s)|, |e.s|, MarkerLength(index));
    }
  }

  lemma {:induction false} EscapedLonger(s: string)
    ensures |Escaped(s)| >= |s|
  {
    if s != [] {
      EscapedLonger(s[1..]);
    }
  }

  lemma ProductNonNegative(a: nat, b: nat)
    ensures a * b >= 0
  {
  }

  lemma {:induction false} EscapeBonusNonNegative(kept: seq<Entry>)
    requires forall e :: e in kept ==> e.count >= 1
    ensures EscapeBonus(kept) >= 0
  {
    if kept != [] {
      var e := kept[0];
      EscapedLonger(e.s);
      EscapeBonusNonNegative(kept[1..]);
      assert e in kept;
      ProductNonNegative(e.count - 1, |Escaped(e.s)| - |e.s|);
    }
  }

  /** `es` is a listing of the string counts of `doc`. */
  ghost predicate CountsOf(es: seq<Entry>, doc: Json) {
    Enumerates(es, Tally(map[], Strings(doc)))
  }

  /** Measured saving is the modelled net, plus the escape bonus, minus one byte for each
      sentinel-led string that the dictionary does not hold. */
  lemma {:induction false} ExactSaving(doc: Json, es: seq<Entry>, cfg: Config, numText: Number -> string)
    requires CountsOf(es, doc) && Kept(es, cfg) != []
    ensures var kept := Kept(es, cfg);
            var dict := DictOf(kept);
            |Serialize(doc, numText)| - WireSize(Substitute(doc, dict), Metadata(kept), numText)
            == Net(kept) + EscapeBonus(kept) - Literals(Strings(doc), dict)
  {
    var kept := Kept(es, cfg);
    var ss := Strings(doc);
    KeptIsDictionary(es, cfg);
    PayloadSaving(doc, DictOf(kept), numText);
    SavingGrouped(ss, kept);
    MetadataText(kept, numText);
    forall e | e in kept ensures multiset(ss)[e.s] == e.count {
      TallyCounts(ss, e.s);
    }
    GroupedAgainstModel(kept, 0, multiset(ss));
  }

  /** When the gate admits the dictionary and fewer sentinel-led literals occur than the required
      net saving, the compressed form is strictly smaller. */
  lemma {:induction false} SelectedDictionaryShrinks(doc: Json, es: seq<Entry>, cfg: Config, numText: Number -> string)
    requires CountsOf(es, doc) && Kept(es, cfg) != [] && Net(Kept(es, cfg)) >= cfg.minNetSavings
    requires Literals(Strings(doc), DictOf(Kept(es, cfg))) < cfg.minNetSavings
    ensures WireSize(Substitute(doc, DictOf(Kept(es, cfg))), Metadata(Kept(es, cfg)), numText)
            < |Serialize(doc, numText)|
  {
    ExactSaving(doc, es, cfg, numText);
    KeptIsDictionary(es, cfg);
    EscapeBonusNonNegative(Kept(es, cfg));
  }

  /** What `DictionaryMetadata` transmits for the chosen dictionary is its strings in order. */
  lemma {:induction false} TransmittedStrings(kept: seq<Entry>, meta: Json)
    requires DistinctStrings(kept) && meta.Arr? && |meta.items| == |DictOf(kept)|
    requires forall s :: s in DictOf(kept) ==> DictOf(kept)[s] < |meta.items| && meta.items[DictOf(kept)[s]] == Str(s)
    ensures meta == Arr(StringArray(kept))
  {
    DictOfBijective(kept);
    forall i | 0 <= i < |kept| ensures meta.items[i] == Str(kept[i].s) {
      DictOfAt(kept, i);
    }
  }

  /** The transmitted array of the chosen dictionary resolves it, so the payload decodes back. */
  lemma {:induction false} ChosenDictionaryRoundTrip(doc: Json, es: seq<Entry>, cfg: Config, meta: Json)
    requires DistinctStrings(es)
    requires var dict := DictOf(Kept(es, cfg));
             && meta.Arr? && |meta.items| == |dict|
             && forall s :: s in dict ==> dict[s] < |meta.items| && meta.items[dict[s]] == Str(s)
    ensures Decode(Substitute(doc, DictOf(Kept(es, cfg))), ReadMetadata(meta)) == Ok(doc)
  {
    var kept := Kept(es, cfg);
    KeptIsDictionary(es, cfg);
    MetadataResolves(DictOf(kept), meta);
    SubstituteRoundTrip(doc, DictOf(kept), ReadMetadata(meta));
  }

  /** The entries of a count, in the order an arbitrary iteration yields them. */
  method Entries(reps: map<string, nat>) returns (es: seq<Entry>)
    ensures Enumerates(es, reps)
  {
    es := [];
    var remaining := reps.Keys;
    while remaining != {}
      invariant remaining <= reps.Keys
      invariant DistinctStrings(es)
      invariant forall x :: x in es <==> x.s in reps && x.s !in remaining && reps[x.s] == x.count
      decreases remaining
    {
      var s :| s in remaining;
      es := es + [Entry(s, reps[s])];
      remaining := remaining - {s};
    }
  }

  /**
    * Analysis and dictionary compression of one document: count its strings, build the
    * dictionary, ask the gate, substitute and attach the metadata. When the dictionary is
    * selected, what is sent decodes to the document, and its size is what the builder's net
    * predicts, give or take escapes and sentinel-led literals. Otherwise the dictionary leaves the
    * document alone.
    */
  method CompressDocument(data: Json, cfg: Config, numText: Number -> string)
    returns (selected: bool, payload: Json, metadata: seq<Field>, dictionary: Dict, net: int)
    ensures forall es :: CountsOf(es, data) ==>
              && Chosen(es, cfg, dictionary)
              && dictionary == DictOf(Kept(es, cfg)) && net == Net(Kept(es, cfg))
              && (selected ==>
                    |Serialize(data, numText)| - WireSize(payload, metadata, numText)
                    == net + EscapeBonus(Kept(es, cfg)) - Literals(Strings(data), dictionary))
    ensures selected <==> dictionary != map[] && net >= cfg.minNetSavings
    ensures selected ==>
              && |metadata| == 1 && metadata[0].key == "dict"
              && Decode(payload, ReadMetadata(metadata[0].value)) == Ok(data)
    ensures selected && Literals(Strings(data), dictionary) < cfg.minNetSavings ==>
              WireSize(payload, metadata, numText) < |Serialize(data, numText)|
    ensures !selected ==> payload == data && metadata == []
  {
    var analyzer := new SchemaAnalyzer();
    analyzer.Analyze(data);
    var es := Entries(analyzer.stringRepetitions);
    dictionary, net := BuildDictionary(es, cfg);
    selected := dictionary != map[] && net >= cfg.minNetSavings;
    ghost var kept := Kept(es, cfg);
    DictOfEmpty(kept);
    KeptIsDictionary(es, cfg);
    forall other | CountsOf(other, data) ensures Kept(other, cfg) == kept && Chosen(other, cfg, dictionary) {
      OrderIndependent(other, es, Tally(map[], Strings(data)), cfg);
      BuilderChooses(other, cfg);
    }
    payload, metadata := data, [];
    if selected {
      var meta, _ := DictionaryMetadata(dictionary);
      payload, metadata := Substitute(data, dictionary), [Field("dict", meta)];
      TransmittedStrings(kept, meta);
      ExactSaving(data, es, cfg, numText);
      EscapeBonusNonNegative(kept);
      ChosenDictionaryRoundTrip(data, es, cfg, meta);
    }
  }
}

/** Dictionary compression: sentinel-escaped string markers and the decoder that resolves them. */
module Dictionary {
  import opened Json
  import opened Outcomes
  import Text

  /** ASCII DEL leads every marker and every escaped string. */
  const SENTINEL: char := '\U{7F}'

  /** Dictionary indices are 16-bit. */
  const INDEX_LIMIT: nat := 0x1_0000

  type Dict = map<string, nat>

  predicate SentinelLed(s: string) {
    s != [] && s[0] == SENTINEL
  }

  // ---------------------------------------------------------------- encoding

  function EncodeString(s: string, dict: Dict): string {
    if s in dict then [SENTINEL] + Text.Decimal(dict[s])
    else if SentinelLed(s) then [SENTINEL] + s
    else s
  }

  function Substitute(v: Json, dict: Dict): Json {
    match v
    case Obj(fs) => Obj(SubstituteFields(fs, dict))
    case Arr(items) => Arr(SubstituteItems(items, dict))
    case Str(s) => Str(EncodeString(s, dict))
    case _ => v
  }

  function SubstituteItems(items: seq<Json>, dict: Dict): (r: seq<Json>)
    ensures |r| == |items|
  {
    if items == [] then [] else [Substitute(items[0], dict)] + SubstituteItems(items[1..], dict)
  }

  function SubstituteFields(fs: seq<Field>, dict: Dict): (r: seq<Field>)
    ensures |r| == |fs|
  {
    if fs == [] then [] else [Field(fs[0].key, Substitute(fs[0].value, dict))] + SubstituteFields(fs[1..], dict)
  }

  // ---------------------------------------------------------------- decoding

  function DecodeString(s: string, entries: map<nat, string>): Result<string> {
    if !SentinelLed(s) then Ok(s)
    else
      var rest := s[1..];
      if SentinelLed(rest) then Ok(rest)
      else
        var index := Text.ParseUnsigned(rest);
        if index.None? || index.value >= INDEX_LIMIT then Err(Malformed)
        else if index.value in entries then Ok(entries[index.value])
        else Err(Malformed)
  }

  function Decode(v: Json, entries: map<nat, string>): Result<Json> {
    match v
    case Obj(fs) =>
      var r := DecodeFields(fs, entries);
      if r.Ok? then Ok(Obj(r.value)) else Err(r.error)
    case Arr(items) =>
      var r := DecodeItems(items, entries);
      if r.Ok? then Ok(Arr(r.value)) else Err(r.error)
    case Str(s) =>
      var r := DecodeString(s, entries);
      if r.Ok? then Ok(Str(r.value)) else Err(r.error)
    case _ => Ok(v)
  }

  function DecodeItems(items: seq<Json>, entries: map<nat, string>): Result<seq<Json>> {
    if items == [] then Ok([])
    else
      var head := Decode(items[0], entries);
      if head.Err? then Err(head.error)
      else
        var tail := DecodeItems(items[1..], entries);
        if tail.Err? then tail else Ok([head.value] + tail.value)
  }

  function DecodeFields(fs: seq<Field>, entries: map<nat, string>): Result<seq<Field>> {
    if fs == [] then Ok([])
    else
      var head := Decode(fs[0].value, entries);
      if head.Err? then Err(head.error)
      else
        var tail := DecodeFields(fs[1..], entries);
        if tail.Err? then tail else Ok([Field(fs[0].key, head.value)] + tail.value)
  }

  // ---------------------------------------------------------------- transmitted metadata

  /** Every string has its own index, and the indices are `0..|dict|`. */
  ghost predicate Bijective(dict: Dict) {
    && (forall s :: s in dict ==> dict[s] < |dict|)
    && (forall s, t :: s in dict && t in dict && dict[s] == dict[t] ==> s == t)
  }

  /** Position `i` of the array holds a string of that index, or nothing if there is none. */
  ghost predicate SlotFor(dict: Dict, i: nat, slot: Option<string>) {
    if slot.Some? then slot.value in dict && dict[slot.value] == i
    else forall s :: s in dict ==> dict[s] != i
  }

  /** The index-ordered array of strings sent beside the payload; an index nobody has leaves an
      empty string. */
  method DictionaryMetadata(dict: Dict) returns (meta: Json, ghost slots: seq<Option<string>>)
    ensures meta.Arr? && |meta.items| == |slots| == |dict|
    ensures forall i :: 0 <= i < |dict| ==>
              SlotFor(dict, i, slots[i]) && meta.items[i] == Str(if slots[i].Some? then slots[i].value else "")
    ensures Bijective(dict) ==> forall s :: s in dict ==> meta.items[dict[s]] == Str(s)
  {
    var ordered: seq<Option<string>> := seq(|dict|, _ => None);
    var remaining := dict.Keys;
    while remaining != {}
      invariant remaining <= dict.Keys
      invariant |ordered| == |dict|
      invariant forall i :: 0 <= i < |ordered| && ordered[i].Some? ==> SlotFor(dict, i, ordered[i])
      invariant forall s :: s in dict && s !in remaining && dict[s] < |ordered| ==> ordered[dict[s]].Some?
      decreases remaining
    {
      var s :| s in remaining;
      var i := dict[s];
      if i < |ordered| {
        ordered := ordered[i := Some(s)];
      }
      remaining := remaining - {s};
    }
    slots := ordered;
    meta := Arr(seq(|ordered|, i requires 0 <= i < |ordered| =>
      Str(if ordered[i].Some? then ordered[i].value else "")));
  }

  /** What the receiver rebuilds from the transmitted array: the strings at 16-bit positions. */
  function ReadMetadata(meta: Json): map<nat, string> {
    if meta.Arr? then
      map i: nat | i < |meta.items| && i < INDEX_LIMIT && meta.items[i].Str? :: meta.items[i].s
    else map[]
  }

  /** `entries` resolves every index of `dict` to its string. */
  ghost predicate Resolves(dict: Dict, entries: map<nat, string>) {
    forall s :: s in dict ==> dict[s] < INDEX_LIMIT && dict[s] in entries && entries[dict[s]] == s
  }

  // ---------------------------------------------------------------- round trip

  lemma {:induction false} StringRoundTrip(s: string, dict: Dict, entries: map<nat, string>)
    requires Resolves(dict, entries)
    ensures DecodeString(EncodeString(s, dict), entries) == Ok(s)
  {
    if s in dict {
      var digits := Text.Decimal(dict[s]);
      assert EncodeString(s, dict)[1..] == digits;
      assert digits[0] in digits;
      Text.ParseDecimal(dict[s]);
    } else if SentinelLed(s) {
      assert EncodeString(s, dict)[1..] == s;
    }
  }

  /** Decoding a substituted document gives the document back, whatever its strings look like. */
  lemma {:induction false} SubstituteRoundTrip(v: Json, dict: Dict, entries: map<nat, string>)
    requires Resolves(dict, entries)
    ensures Decode(Substitute(v, dict), entries) == Ok(v)
  {
    match v
    case Obj(fs) => FieldsRoundTrip(fs, dict, entries);
    case Arr(items) => ItemsRoundTrip(items, dict, entries);
    case Str(s) => StringRoundTrip(s, dict, entries);
    case _ =>
  }

  lemma {:induction false} ItemsRoundTrip(items: seq<Json>, dict: Dict, entries: map<nat, string>)
    requires Resolves(dict, entries)
    ensures DecodeItems(SubstituteItems(items, dict), entries) == Ok(items)
  {
    if items != [] {
      SubstituteRoundTrip(items[0], dict, entries);
      ItemsRoundTrip(items[1..], dict, entries);
      assert items == [items[0]] + items[1..];
      assert SubstituteItems(items, dict)[1..] == SubstituteItems(items[1..], dict);
    }
  }

  lemma {:induction false} FieldsRoundTrip(fs: seq<Field>, dict: Dict, entries: map<nat, string>)
    requires Resolves(dict, entries)
    ensures DecodeFields(SubstituteFields(fs, dict), entries) == Ok(fs)
  {
    if fs != [] {
      SubstituteRoundTrip(fs[0].value, dict, entries);
      FieldsRoundTrip(fs[1..], dict, entries);
      assert fs == [fs[0]] + fs[1..];
      assert SubstituteFields(fs, dict)[1..] == SubstituteFields(fs[1..], dict);
    }
  }

  /** What any received string decodes to: itself when the sentinel does not lead it; without its first
      sentinel when two do; else the entry its decimal index names, if there is one. */
  lemma {:induction false} DecodedString(s: string, entries: map<nat, string>)
    ensures var sentinel := '\U{7F}';
            var index := if s == "" then None else Text.ParseUnsigned(s[1..]);
            if s == "" || s[0] != sentinel then DecodeString(s, entries) == Ok(s)
            else if |s| >= 2 && s[1] == sentinel then DecodeString(s, entries) == Ok(s[1..])
            else if index.Some? && index.value < 65536 && index.value in entries then
              DecodeString(s, entries) == Ok(entries[index.value])
            else DecodeString(s, entries) == Err(Malformed)
  {
  }

  /** Nothing less than resolving every index of the dictionary will do. */
  lemma {:induction false} RoundTripIffResolves(dict: Dict, entries: map<nat, string>)
    ensures (forall v :: Decode(Substitute(v, dict), entries) == Ok(v)) <==> Resolves(dict, entries)
  {
    hide Decode, Substitute;
    if Resolves(dict, entries) {
      forall v ensures Decode(Substitute(v, dict), entries) == Ok(v) {
        SubstituteRoundTrip(v, dict, entries);
      }
    }
    if forall v :: Decode(Substitute(v, dict), entries) == Ok(v) {
      forall s | s in dict ensures dict[s] < INDEX_LIMIT && dict[s] in entries && entries[dict[s]] == s {
        assert Decode(Substitute(Str(s), dict), entries) == Ok(Str(s));
        DecodedResolves(s, dict, entries);
      }
    }
  }

  /** A dictionary string that decodes to itself has its index resolved. */
  lemma {:induction false} DecodedResolves(s: string, dict: Dict, entries: map<nat, string>)
    requires s in dict && Decode(Substitute(Str(s), dict), entries) == Ok(Str(s))
    ensures dict[s] < INDEX_LIMIT && dict[s] in entries && entries[dict[s]] == s
  {
    var digits := Text.Decimal(dict[s]);
    assert EncodeString(s, dict)[1..] == digits;
    assert digits[0] in digits;
    Text.ParseDecimal(dict[s]);
  }

  /** The transmitted array carries everything decoding needs. */
  lemma {:induction false} MetadataResolves(dict: Dict, meta: Json)
    requires Bijective(dict) && |dict| <= INDEX_LIMIT
    requires meta.Arr? && |meta.items| == |dict|
    requires forall s :: s in dict ==> meta.items[dict[s]] == Str(s)
    ensures Resolves(dict, ReadMetadata(meta))
  {
  }

  /** Compress with a dictionary, send payload and metadata, decompress: with proper indices the
      document comes back. */
  method CompressAndDecompress(data: Json, dict: Dict) returns (out: Result<Json>)
    ensures Bijective(dict) && |dict| <= INDEX_LIMIT ==> out == Ok(data)
  {
    var meta, _ := DictionaryMetadata(dict);
    var payload := Substitute(data, dict);
    if Bijective(dict) && |dict| <= INDEX_LIMIT {
      MetadataResolves(dict, meta);
      SubstituteRoundTrip(data, dict, ReadMetadata(meta));
    }
    out := Decode(payload, ReadMetadata(meta));
  }
}

/** Counting repeated strings and choosing the dictionary under the byte-cost model. */
module DictionaryBuilder {
  import opened Json
  import opened Dictionary
  import Text

  /** A candidate string and how often it occurs. */
  datatype Entry = Entry(s: string, count: nat)

  datatype Config = Config(minStringLength: nat, minFrequencyCount: nat, minNetSavings: nat)

  // ---------------------------------------------------------------- counting

  /** The string values of a document, in the order they are visited; keys are not values. */
  function Strings(v: Json): seq<string> {
    match v
    case Obj(fs) => StringsOfFields(fs)
    case Arr(items) => StringsOfItems(items)
    case Str(s) => [s]
    case _ => []
  }

  function StringsOfItems(items: seq<Json>): seq<string> {
    if items == [] then [] else Strings(items[0]) + StringsOfItems(items[1..])
  }

  function StringsOfFields(fs: seq<Field>): seq<string> {
    if fs == [] then [] else Strings(fs[0].value) + StringsOfFields(fs[1..])
  }

  /** Count the strings of `ss` on top of `reps`. */
  function Tally(reps: map<string, nat>, ss: seq<string>): map<string, nat>
    decreases |ss|
  {
    if ss == [] then reps
    else Tally(reps[ss[0] := (if ss[0] in reps then reps[ss[0]] else 0) + 1], ss[1..])
  }

  lemma {:induction false} TallyConcat(reps: map<string, nat>, a: seq<string>, b: seq<string>)
    ensures Tally(reps, a + b) == Tally(Tally(reps, a), b)
    decreases |a|
  {
    if a == [] {
      assert a + b == b;
    } else {
      assert (a + b)[1..] == a[1..] + b;
      TallyConcat(reps[a[0] := (if a[0] in reps then reps[a[0]] else 0) + 1], a[1..], b);
    }
  }

  lemma {:induction false} TallyAdds(reps: map<string, nat>, ss: seq<string>, s: string)
    ensures s in Tally(reps, ss) <==> s in reps || s in ss
    ensures s in Tally(reps, ss) ==> Tally(reps, ss)[s] == (if s in reps then reps[s] else 0) + multiset(ss)[s]
    decreases |ss|
  {
    if ss != [] {
      assert ss == [ss[0]] + ss[1..];
      TallyAdds(reps[ss[0] := (if ss[0] in reps then reps[ss[0]] else 0) + 1], ss[1..], s);
    }
  }

  /** From nothing, the tally of a document holds each of its strings with its multiplicity. */
  lemma {:induction false} TallyCounts(ss: seq<string>, s: string)
    ensures s in Tally(map[], ss) <==> s in ss
    ensures s in ss ==> Tally(map[], ss)[s] == multiset(ss)[s]
  {
    TallyAdds(map[], ss, s);
  }

  class SchemaAnalyzer {
    var stringRepetitions: map<string, nat>

    constructor ()
      ensures stringRepetitions == map[]
    {
      stringRepetitions := map[];
    }

    /** Reset, then count the strings of the document. */
    method Analyze(data: Json)
      modifies this
      ensures stringRepetitions == Tally(map[], Strings(data))
    {
      stringRepetitions := map[];
      AnalyzeRecursive(data);
    }

    method AnalyzeRecursive(v: Json)
      modifies this
      ensures stringRepetitions == Tally(old(stringRepetitions), Strings(v))
      decreases v
    {
      match v
      case Obj(fs) =>
        for i := 0 to |fs|
          invariant Tally(old(stringRepetitions), Strings(v)) == Tally(stringRepetitions, StringsOfFields(fs[i..]))
        {
          assert fs[i..][1..] == fs[i + 1..];
          TallyConcat(stringRepetitions, Strings(fs[i].value), StringsOfFields(fs[i + 1..]));
          AnalyzeRecursive(fs[i].value);
        }
      case Arr(items) =>
        for i := 0 to |items|
          invariant Tally(old(stringRepetitions), Strings(v)) == Tally(stringRepetitions, StringsOfItems(items[i..]))
        {
          assert items[i..][1..] == items[i + 1..];
          TallyConcat(stringRepetitions, Strings(items[i]), StringsOfItems(items[i + 1..]));
          AnalyzeRecursive(items[i]);
        }
      case Str(s) => AnalyzeStringPattern(s);
      case _ =>
    }

    method AnalyzeStringPattern(s: string)
      modifies this
      ensures stringRepetitions == Tally(old(stringRepetitions), [s])
    {
      var count := if s in stringRepetitions then stringRepetitions[s] else 0;
      stringRepetitions := stringRepetitions[s := count + 1];
      assert [s][1..] == [];
    }
  }

  // ---------------------------------------------------------------- ordering candidates

  /** Byte-wise lexicographic order. */
  predicate LexLess(a: string, b: string) {
    if b == [] then false
    else if a == [] then true
    else a[0] < b[0] || (a[0] == b[0] && LexLess(a[1..], b[1..]))
  }

  /** Larger payoff first, then the smaller string. */
  predicate Before(a: Entry, b: Entry) {
    a.count * |a.s| > b.count * |b.s| || (a.count * |a.s| == b.count * |b.s| && LexLess(a.s, b.s))
  }

  lemma {:induction false} LexTotal(a: string, b: string)
    ensures a != b ==> LexLess(a, b) || LexLess(b, a)
    ensures !(LexLess(a, b) && LexLess(b, a)) && !LexLess(a, a)
  {
    if a != [] && b != [] {
      assert a == [a[0]] + a[1..] && b == [b[0]] + b[1..];
      LexTotal(a[1..], b[1..]);
      LexTotal(a[1..], a[1..]);
    } else if a != [] {
      LexTotal(a[1..], a[1..]);
    }
  }

  lemma {:induction false} LexTransitive(a: string, b: string, c: string)
    requires LexLess(a, b) && LexLess(b, c)
    ensures LexLess(a, c)
  {
    if a != [] && a[0] == b[0] == c[0] {
      LexTransitive(a[1..], b[1..], c[1..]);
    }
  }

  function InsertEntry(e: Entry, es: seq<Entry>): seq<Entry> {
    if es == [] || Before(e, es[0]) then [e] + es else [es[0]] + InsertEntry(e, es[1..])
  }

  function SortEntries(es: seq<Entry>): seq<Entry> {
    if es == [] then [] else InsertEntry(es[0], SortEntries(es[1..]))
  }

  ghost predicate DistinctStrings(es: seq<Entry>) {
    forall i, j :: 0 <= i < j < |es| ==> es[i].s != es[j].s
  }

  ghost predicate StrictlySorted(es: seq<Entry>) {
    forall i, j :: 0 <= i < j < |es| ==> Before(es[i], es[j])
  }

  lemma {:induction false} BeforeTransitive(a: Entry, b: Entry, c: Entry)
    requires Before(a, b) && Before(b, c)
    ensures Before(a, c)
  {
    if LexLess(a.s, b.s) && LexLess(b.s, c.s) {
      LexTransitive(a.s, b.s, c.s);
    }
  }

  lemma {:induction false} InsertEntrySorted(e: Entry, es: seq<Entry>)
    requires StrictlySorted(es) && forall x :: x in es ==> x.s != e.s
    ensures StrictlySorted(InsertEntry(e, es))
    ensures forall x :: x in InsertEntry(e, es) <==> x == e || x in es
  {
    if es == [] {
    } else if Before(e, es[0]) {
      forall x | x in es ensures Before(e, x) {
        if x != es[0] {
          BeforeTransitive(e, es[0], x);
        }
      }
    } else {
      assert es == [es[0]] + es[1..];
      InsertEntrySorted(e, es[1..]);
      assert es[0] in es;
      LexTotal(e.s, es[0].s);
      forall x | x in InsertEntry(e, es[1..]) ensures Before(es[0], x) {
      }
    }
  }

  lemma {:induction false} SortEntriesSorted(es: seq<Entry>)
    requires DistinctStrings(es)
    ensures StrictlySorted(SortEntries(es))
    ensures forall x :: x in SortEntries(es) <==> x in es
  {
    if es != [] {
      assert es == [es[0]] + es[1..];
      SortEntriesSorted(es[1..]);
      forall x | x in es[1..] ensures x.s != es[0].s {
        var j :| 0 <= j < |es[1..]| && es[1..][j] == x;
        assert es[j + 1] == x;
      }
      InsertEntrySorted(es[0], SortEntries(es[1..]));
    }
  }

  lemma {:induction false} SortedTail(es: seq<Entry>)
    requires es != [] && StrictlySorted(es)
    ensures StrictlySorted(es[1..])
    ensures forall x :: x in es[1..] ==> Before(es[0], x)
    ensures forall x :: x in es <==> x == es[0] || x in es[1..]
  {
    forall i, j | 0 <= i < j < |es| - 1 ensures Before(es[1..][i], es[1..][j]) {
      assert Before(es[i + 1], es[j + 1]);
    }
  }

  lemma {:induction false} SortedCons(e: Entry, es: seq<Entry>)
    requires StrictlySorted(es) && forall x :: x in es ==> Before(e, x)
    ensures StrictlySorted([e] + es)
  {
  }

  lemma {:induction false} HeadIn(es: seq<Entry>)
    ensures es != [] ==> es[0] in es
  {
  }

  /** A strictly sorted sequence is determined by its elements. */
  lemma {:induction false} SortedUnique(a: seq<Entry>, b: seq<Entry>)
    requires StrictlySorted(a) && StrictlySorted(b)
    requires forall x :: x in a <==> x in b
    ensures a == b
  {
    HeadIn(a);
    HeadIn(b);
    if a != [] {
      SortedTail(a);
      SortedTail(b);
      BeforeIrreflexive(a[0], b[0]);
      assert a[0] == b[0];
      BeforeIrreflexive(a[0], a[0]);
      SortedUnique(a[1..], b[1..]);
      assert a == [a[0]] + a[1..] && b == [b[0]] + b[1..];
    }
  }

  lemma {:induction false} BeforeIrreflexive(a: Entry, b: Entry)
    ensures !Before(a, a) && !(Before(a, b) && Before(b, a))
  {
    LexTotal(a.s, a.s);
    LexTotal(a.s, b.s);
  }

  // ---------------------------------------------------------------- choosing entries

  predicate Eligible(e: Entry, cfg: Config) {
    e.count > cfg.minFrequencyCount && |e.s| > cfg.minStringLength
  }

  function Candidates(es: seq<Entry>, cfg: Config): seq<Entry> {
    if es == [] then []
    else (if Eligible(es[0], cfg) then [es[0]] else []) + Candidates(es[1..], cfg)
  }

  function MarkerLength(index: nat): nat {
    1 + |Text.Decimal(index)|
  }

  /** Bytes saved by replacing every occurrence with a marker. */
  function Gain(e: Entry, index: nat): int {
    e.count * (|e.s| - MarkerLength(index))
  }

  /** Bytes the string takes in the transmitted array: itself, two quotes, one separator. */
  function Cost(e: Entry): int {
    |e.s| + 3
  }

  const MAX_INDEX: nat := 65535
  const ENVELOPE: int := 10

  /** The candidates that pay for themselves, from `index` on; position is dictionary index. */
  function Select(cs: seq<Entry>, index: nat): (kept: seq<Entry>)
    requires index <= MAX_INDEX
    ensures index + |kept| <= MAX_INDEX
    decreases |cs|
  {
    if cs == [] || index == MAX_INDEX then []
    else if Gain(cs[0], index) > Cost(cs[0]) then [cs[0]] + Select(cs[1..], index + 1)
    else Select(cs[1..], index)
  }

  /** Modelled saving of entries that start at `index`. */
  function Saved(kept: seq<Entry>, index: nat): int {
    if kept == [] then 0 else Gain(kept[0], index) - Cost(kept[0]) + Saved(kept[1..], index + 1)
  }

  function Net(kept: seq<Entry>): int {
    Saved(kept, 0) - if kept == [] then 0 else ENVELOPE
  }

  function Kept(es: seq<Entry>, cfg: Config): seq<Entry> {
    Select(SortEntries(Candidates(es, cfg)), 0)
  }

  /** Each kept string under its position. */
  function DictOf(kept: seq<Entry>): Dict {
    if kept == [] then map[] else DictOf(kept[..|kept| - 1])[kept[|kept| - 1].s := |kept| - 1]
  }

  lemma {:induction false} SavedSnoc(kept: seq<Entry>, e: Entry, index: nat)
    ensures Saved(kept + [e], index) == Saved(kept, index) + Gain(e, index + |kept|) - Cost(e)
  {
    if kept == [] {
      assert (kept + [e])[1..] == [];
    } else {
      assert (kept + [e])[1..] == kept[1..] + [e];
      SavedSnoc(kept[1..], e, index + 1);
    }
  }

  lemma {:induction false} CandidatesFacts(es: seq<Entry>, cfg: Config)
    ensures forall x :: x in Candidates(es, cfg) <==> x in es && Eligible(x, cfg)
    ensures DistinctStrings(es) ==> DistinctStrings(Candidates(es, cfg))
  {
    if es != [] {
      assert es == [es[0]] + es[1..];
      CandidatesFacts(es[1..], cfg);
      var rest := Candidates(es[1..], cfg);
      if DistinctStrings(es) {
        assert DistinctStrings(es[1..]) by {
          forall i, j | 0 <= i < j < |es| - 1 ensures es[1..][i].s != es[1..][j].s {
            assert es[i + 1].s != es[j + 1].s;
          }
        }
        forall x | x in rest ensures x.s != es[0].s {
          var j :| 0 <= j < |es[1..]| && es[1..][j] == x;
          assert es[j + 1] == x;
        }
      }
    }
  }

  lemma {:induction false} SelectFacts(cs: seq<Entry>, index: nat)
    requires index <= MAX_INDEX && StrictlySorted(cs)
    ensures forall x :: x in Select(cs, index) ==> x in cs
    ensures StrictlySorted(Select(cs, index))
    decreases |cs|
  {
    if cs != [] && index < MAX_INDEX {
      SortedTail(cs);
      if Gain(cs[0], index) > Cost(cs[0]) {
        SelectFacts(cs[1..], index + 1);
        SortedCons(cs[0], Select(cs[1..], index + 1));
      } else {
        SelectFacts(cs[1..], index);
      }
    }
  }

  /** The kept entries have distinct strings, so their positions are a bijection onto the indices,
      and there are few enough for 16 bits. */
  lemma {:induction false} KeptIsDictionary(es: seq<Entry>, cfg: Config)
    requires DistinctStrings(es)
    ensures DistinctStrings(Kept(es, cfg)) && |Kept(es, cfg)| <= MAX_INDEX
    ensures Bijective(DictOf(Kept(es, cfg))) && |DictOf(Kept(es, cfg))| == |Kept(es, cfg)|
    ensures forall e :: e in Kept(es, cfg) ==> e in es && Eligible(e, cfg)
  {
    var cs := Candidates(es, cfg);
    CandidatesFacts(es, cfg);
    SortEntriesSorted(cs);
    SelectFacts(SortEntries(cs), 0);
    var kept := Kept(es, cfg);
    forall i, j | 0 <= i < j < |kept| ensures kept[i].s != kept[j].s {
      assert kept[i] in es && kept[j] in es;
      assert Before(kept[i], kept[j]);
      BeforeIrreflexive(kept[i], kept[i]);
      assert kept[i] != kept[j];
    }
    DictOfBijective(kept);
  }

  lemma {:induction false} DictOfAt(kept: seq<Entry>, i: nat)
    requires DistinctStrings(kept) && i < |kept|
    ensures kept[i].s in DictOf(kept) && DictOf(kept)[kept[i].s] == i
  {
    var n := |kept| - 1;
    if i < n {
      DictOfAt(kept[..n], i);
      assert kept[i].s != kept[n].s;
    }
  }

  lemma {:induction false} DictOfKey(kept: seq<Entry>, s: string) returns (i: nat)
    requires s in DictOf(kept)
    ensures i < |kept| && kept[i].s == s
  {
    var n := |kept| - 1;
    if s == kept[n].s {
      i := n;
    } else {
      i := DictOfKey(kept[..n], s);
    }
  }

  lemma {:induction false} DictOfFresh(kept: seq<Entry>, s: string)
    requires forall i :: 0 <= i < |kept| ==> kept[i].s != s
    ensures s !in DictOf(kept)
  {
    if kept != [] {
      DictOfFresh(kept[..|kept| - 1], s);
    }
  }

  lemma {:induction false} DictOfSize(kept: seq<Entry>)
    requires DistinctStrings(kept)
    ensures |DictOf(kept)| == |kept|
  {
    if kept != [] {
      var n := |kept| - 1;
      DictOfSize(kept[..n]);
      DictOfFresh(kept[..n], kept[n].s);
    }
  }

  lemma {:induction false} DictOfBijective(kept: seq<Entry>)
    requires DistinctStrings(kept)
    ensures Bijective(DictOf(kept)) && |DictOf(kept)| == |kept|
  {
    DictOfSize(kept);
    forall s | s in DictOf(kept) ensures DictOf(kept)[s] < |kept| && kept[DictOf(kept)[s]].s == s {
      var i := DictOfKey(kept, s);
      DictOfAt(kept, i);
    }
  }

  /** `es` lists the entries of a repetition count, each once, in some order. */
  ghost predicate Enumerates(es: seq<Entry>, reps: map<string, nat>) {
    && DistinctStrings(es)
    && forall x :: x in es <==> x.s in reps && reps[x.s] == x.count
  }

  /** The dictionary depends on the counts alone, not on the order a hash map yields them. */
  lemma {:induction false} OrderIndependent(es1: seq<Entry>, es2: seq<Entry>, reps: map<string, nat>, cfg: Config)
    requires Enumerates(es1, reps) && Enumerates(es2, reps)
    ensures Kept(es1, cfg) == Kept(es2, cfg)
  {
    CandidatesFacts(es1, cfg);
    CandidatesFacts(es2, cfg);
    SortEntriesSorted(Candidates(es1, cfg));
    SortEntriesSorted(Candidates(es2, cfg));
    SortedUnique(SortEntries(Candidates(es1, cfg)), SortEntries(Candidates(es2, cfg)));
  }

  lemma {:induction false} DictOfSnoc(kept: seq<Entry>, e: Entry)
    ensures DictOf(kept + [e]) == DictOf(kept)[e.s := |kept|]
  {
    assert (kept + [e])[..|kept|] == kept;
  }

  lemma {:induction false} Regroup(a: seq<Entry>, e: Entry, b: seq<Entry>)
    ensures a + ([e] + b) == a + [e] + b
  {
  }

  lemma {:induction false} DictOfEmpty(kept: seq<Entry>)
    ensures DictOf(kept) == map[] <==> kept == []
  {
    if kept != [] {
      assert kept[|kept| - 1].s in DictOf(kept);
    }
  }
}

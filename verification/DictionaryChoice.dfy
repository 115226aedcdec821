/** Which strings a dictionary gets, stated on the counts and the dictionary alone. */
module DictionaryChoice {
  import opened Dictionary
  import opened DictionaryBuilder
  import Text

  /** The strings agree up to `k`, where `a` ends or has the smaller byte. */
  ghost predicate SmallerAt(a: string, b: string, k: nat) {
    k <= |a| && k <= |b| && a[..k] == b[..k] &&
    (k == |a| < |b| || (k < |a| && k < |b| && a[k] < b[k]))
  }

  ghost predicate Smaller(a: string, b: string) {
    exists k: nat :: SmallerAt(a, b, k)
  }

  lemma {:induction false} LexLessIff(a: string, b: string)
    ensures LexLess(a, b) <==> Smaller(a, b)
  {
    if a == [] || b == [] {
      if b != [] {
        assert SmallerAt(a, b, 0);
      }
    } else if a[0] < b[0] {
      assert SmallerAt(a, b, 0);
    } else {
      LexLessIff(a[1..], b[1..]);
      if a[0] == b[0] && Smaller(a[1..], b[1..]) {
        var k: nat :| SmallerAt(a[1..], b[1..], k);
        assert a[..k + 1] == [a[0]] + a[1..][..k] && b[..k + 1] == [b[0]] + b[1..][..k];
        assert SmallerAt(a, b, k + 1);
      }
      if Smaller(a, b) {
        var k: nat :| SmallerAt(a, b, k);
        assert k > 0 && a[0] == a[..k][0] == b[..k][0] == b[0];
        assert a[1..][..k - 1] == a[..k][1..] && b[1..][..k - 1] == b[..k][1..];
        assert SmallerAt(a[1..], b[1..], k - 1);
      }
    }
  }

  /** Larger payoff, ties going to the smaller string. */
  ghost predicate Outranks(a: Entry, b: Entry) {
    a.count * |a.s| > b.count * |b.s| || (a.count * |a.s| == b.count * |b.s| && Smaller(a.s, b.s))
  }

  lemma OutranksIff(a: Entry, b: Entry)
    ensures Before(a, b) <==> Outranks(a, b)
  {
    LexLessIff(a.s, b.s);
  }

  /** The entries of the dictionary that outrank `e`. */
  ghost function Ahead(es: seq<Entry>, dict: Dict, e: Entry): set<Entry> {
    set x | x in es && x.s in dict && Outranks(x, e)
  }

  /** An entry pays for itself at index `k`: what its markers save exceeds what its text costs. */
  predicate Pays(e: Entry, k: nat) {
    e.count * (|e.s| - (1 + |Text.Decimal(k)|)) > |e.s| + 3
  }

  /**
    * The dictionary the counts call for: it holds an entry exactly when the entry is frequent and
    * long enough, fewer than 65535 held entries outrank it, and it pays for itself at that index,
    * which it then has.
    */
  ghost predicate Chosen(es: seq<Entry>, cfg: Config, dict: Dict) {
    && (forall s :: s in dict ==> exists e :: e in es && e.s == s)
    && forall e :: e in es ==>
         var k := |Ahead(es, dict, e)|;
         && (e.s in dict <==>
               e.count > cfg.minFrequencyCount && |e.s| > cfg.minStringLength && k < 65535 && Pays(e, k))
         && (e.s in dict ==> dict[e.s] == k)
  }

  /** Selecting from a list is selecting from its first `j` entries, then from the others. */
  lemma {:induction false} SelectSplit(cs: seq<Entry>, j: nat, index: nat)
    requires j <= |cs| && index <= MAX_INDEX
    ensures var head := Select(cs[..j], index);
            Select(cs, index) == head + Select(cs[j..], index + |head|)
    decreases j
  {
    if j == 0 {
      assert cs[0..] == cs && cs[..0] == [];
    } else if index == MAX_INDEX {
      assert Select(cs[j..], index) == [];
    } else {
      var pays := Gain(cs[0], index) > Cost(cs[0]);
      assert cs[..j][0] == cs[0] && cs[..j][1..] == cs[1..][..j - 1];
      assert cs[1..][j - 1..] == cs[j..];
      SelectSplit(cs[1..], j - 1, if pays then index + 1 else index);
      hide Gain, Cost;
      if pays {
        var tail := Select(cs[1..][..j - 1], index + 1);
        assert [cs[0]] + tail + Select(cs[j..], index + 1 + |tail|)
            == [cs[0]] + (tail + Select(cs[j..], index + 1 + |tail|));
      }
    }
  }

  lemma {:induction false} SetSize(es: seq<Entry>)
    requires DistinctStrings(es)
    ensures |(set x | x in es)| == |es|
  {
    if es != [] {
      var n := |es| - 1;
      SetSize(es[..n]);
      assert es == es[..n] + [es[n]];
      assert (set x | x in es) == (set x | x in es[..n]) + {es[n]};
      forall x | x in es[..n] ensures x != es[n] {
        var i :| 0 <= i < n && es[i] == x;
      }
    }
  }

  lemma {:induction false} SortedSlices(cs: seq<Entry>, j: nat)
    requires StrictlySorted(cs) && j < |cs|
    ensures StrictlySorted(cs[..j]) && StrictlySorted(cs[j..]) && StrictlySorted(cs[j + 1..])
    ensures forall x :: x in cs[..j] ==> Before(x, cs[j])
    ensures forall x :: x in cs[j + 1..] ==> Before(cs[j], x)
  {
  }

  /** The first entry of a sorted list is selected, and then first, if there is an index and it pays. */
  lemma {:induction false} SelectHead(cs: seq<Entry>, m: nat)
    requires StrictlySorted(cs) && cs != [] && m <= MAX_INDEX
    ensures var kept := Select(cs, m);
            && (forall x :: x in kept ==> x == cs[0] || Before(cs[0], x))
            && (cs[0] in kept <==> m < 65535 && Pays(cs[0], m))
            && (cs[0] in kept ==> kept[0] == cs[0])
  {
    SortedTail(cs);
    BeforeIrreflexive(cs[0], cs[0]);
    if m < MAX_INDEX {
      SelectFacts(cs[1..], if Gain(cs[0], m) > Cost(cs[0]) then m + 1 else m);
    }
  }

  /** What selection keeps of a sorted list: ahead of entry `j` exactly `m` entries, then `j` itself
      if there is an index left and it pays. */
  lemma {:induction false} SelectDecides(cs: seq<Entry>, j: nat)
    requires StrictlySorted(cs) && j < |cs|
    ensures var kept, m := Select(cs, 0), |Select(cs[..j], 0)|;
            && m <= |kept|
            && (forall x :: x in kept[..m] ==> Before(x, cs[j]))
            && (forall x :: x in kept[m..] ==> x == cs[j] || Before(cs[j], x))
            && (cs[j] in kept <==> m < 65535 && Pays(cs[j], m))
            && (cs[j] in kept ==> m < |kept| && kept[m] == cs[j])
  {
    var head := Select(cs[..j], 0);
    var m := |head|;
    var tail := Select(cs[j..], m);
    SelectSplit(cs, j, 0);
    SortedSlices(cs, j);
    SelectFacts(cs[..j], 0);
    SelectHead(cs[j..], m);
    BeforeIrreflexive(cs[j], cs[j]);
    hide Before, Pays, Select, StrictlySorted;
    var kept := Select(cs, 0);
    assert kept[..m] == head && kept[m..] == tail;
    assert cs[j] in kept <==> cs[j] in head || cs[j] in tail;
  }

  lemma {:induction false} InDictionary(kept: seq<Entry>, es: seq<Entry>, e: Entry)
    requires DistinctStrings(es) && DistinctStrings(kept) && e in es && forall x :: x in kept ==> x in es
    ensures e.s in DictOf(kept) <==> e in kept
  {
    if e.s in DictOf(kept) {
      var i := DictOfKey(kept, e.s);
      assert kept[i] in es;
      var a :| 0 <= a < |es| && es[a] == kept[i];
      var b :| 0 <= b < |es| && es[b] == e;
      assert a == b;
    }
    if e in kept {
      var i :| 0 <= i < |kept| && kept[i] == e;
      DictOfAt(kept, i);
    }
  }

  /** Among the entries of the dictionary those ahead of entry `j` are the first `m` kept. */
  lemma {:induction false} AheadIs(es: seq<Entry>, kept: seq<Entry>, m: nat, e: Entry)
    requires DistinctStrings(es) && DistinctStrings(kept) && m <= |kept| && forall x :: x in kept ==> x in es
    requires forall x :: x in kept[..m] ==> Before(x, e)
    requires forall x :: x in kept[m..] ==> x == e || Before(e, x)
    ensures |Ahead(es, DictOf(kept), e)| == m
  {
    var first := set x | x in kept[..m];
    SetSize(kept[..m]);
    assert kept == kept[..m] + kept[m..];
    forall x ensures x in Ahead(es, DictOf(kept), e) <==> x in first {
      OutranksIff(x, e);
      BeforeIrreflexive(x, e);
      BeforeIrreflexive(e, e);
      if x in es {
        InDictionary(kept, es, x);
      }
    }
    assert Ahead(es, DictOf(kept), e) == first;
  }

  /** The builder makes the dictionary the counts call for. */
  lemma {:induction false} BuilderChooses(es: seq<Entry>, cfg: Config)
    requires DistinctStrings(es)
    ensures Chosen(es, cfg, DictOf(Kept(es, cfg)))
  {
    var kept := Kept(es, cfg);
    KeptIsDictionary(es, cfg);
    forall s | s in DictOf(kept) ensures exists e :: e in es && e.s == s {
      var i := DictOfKey(kept, s);
      assert kept[i] in es && kept[i].s == s;
    }
    forall e | e in es
      ensures var k := |Ahead(es, DictOf(kept), e)|;
              && (e.s in DictOf(kept) <==>
                    e.count > cfg.minFrequencyCount && |e.s| > cfg.minStringLength && k < 65535 && Pays(e, k))
              && (e.s in DictOf(kept) ==> DictOf(kept)[e.s] == k)
    {
      EntryChosen(es, cfg, e);
    }
  }

  lemma {:induction false} EntryChosen(es: seq<Entry>, cfg: Config, e: Entry)
    requires DistinctStrings(es) && e in es
    ensures var dict := DictOf(Kept(es, cfg));
            var k := |Ahead(es, dict, e)|;
            && (e.s in dict <==>
                  e.count > cfg.minFrequencyCount && |e.s| > cfg.minStringLength && k < 65535 && Pays(e, k))
            && (e.s in dict ==> dict[e.s] == k)
  {
    var cs := SortEntries(Candidates(es, cfg));
    var kept := Kept(es, cfg);
    KeptIsDictionary(es, cfg);
    CandidatesFacts(es, cfg);
    SortEntriesSorted(Candidates(es, cfg));
    InDictionary(kept, es, e);
    if Eligible(e, cfg) {
      var j :| 0 <= j < |cs| && cs[j] == e;
      var m := |Select(cs[..j], 0)|;
      SelectDecides(cs, j);
      AheadIs(es, kept, m, e);
      if e in kept {
        DictOfAt(kept, m);
      }
    }
  }

  /** The selection loop: it makes the dictionary the counts call for, and its net is the modelled
      saving. */
  method BuildDictionary(es: seq<Entry>, cfg: Config) returns (dictionary: Dict, net: int)
    ensures dictionary == DictOf(Kept(es, cfg))
    ensures net == Net(Kept(es, cfg))
    ensures DistinctStrings(es) ==> Chosen(es, cfg, dictionary)
  {
    ghost var kept: seq<Entry> := [];
    dictionary, net := map[], 0;
    DictOfEmpty(kept);
    hide Gain, Cost, DictOf, Chosen;
    var candidates := SortEntries(Candidates(es, cfg));
    var index := 0;
    var i := 0;
    while i < |candidates| && index != MAX_INDEX
      invariant 0 <= i <= |candidates| && index == |kept| <= MAX_INDEX
      invariant kept + Select(candidates[i..], index) == Kept(es, cfg)
      invariant dictionary == DictOf(kept) && net == Saved(kept, 0)
      decreases |candidates| - i
    {
      var e := candidates[i];
      assert candidates[i..][1..] == candidates[i + 1..];
      var gain := Gain(e, index);
      var cost := Cost(e);
      if gain > cost {
        SavedSnoc(kept, e, 0);
        DictOfSnoc(kept, e);
        Regroup(kept, e, Select(candidates[i + 1..], index + 1));
        net := net + (gain - cost);
        dictionary := dictionary[e.s := index];
        kept := kept + [e];
        index := index + 1;
      }
      i := i + 1;
    }
    assert Select(candidates[i..], index) == [] && kept == Kept(es, cfg);
    if DistinctStrings(es) {
      BuilderChooses(es, cfg);
    }
    DictOfEmpty(kept);
    if dictionary != map[] {
      net := net - ENVELOPE;
    }
  }
}

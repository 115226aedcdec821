/** The document after any prefix of the plan, and the round trip of the whole plan. */
module PlanRoundTrip {
  import opened Json
  import opened Reconstruction
  import opened PriorityPlan
  import opened PlanOrder

  // ---------------------------------------------------------------- the state of a prefix

  /** What the client shows for the value `v` at `path` once the patches `done` are applied.
      `full` says that a set at or above `path` is among them.  Scalars are placeholders until
      then; a reachable array holds what has been appended to it; a subtree under a key that no
      path can hold arrives whole, with the set above it. */
  ghost function View(v: Json, path: Path, full: bool, done: seq<Patch>): Json {
    match v
    case Arr(_) => Arr(Appended(done, path))
    case Obj(fs) => Obj(seq(|fs|, i requires 0 <= i < |fs| =>
        Field(fs[i].key,
          if !Encodable(fs[i].key) then (if full then fs[i].value else Placeholder(fs[i].value))
          else View(fs[i].value, path + [fs[i].key], full || IsSet(done, path + [fs[i].key]), done))))
    case _ => if full then v else Placeholder(v)
  }

  /** Before the first patch the view is the skeleton. */
  lemma {:induction false} ViewInitial(v: Json, path: Path)
    ensures View(v, path, false, []) == Placeholder(v)
  {
    if v.Obj? {
      forall i | 0 <= i < |v.fields| ensures View(v, path, false, []).fields[i] == Placeholder(v).fields[i] {
        ViewInitial(v.fields[i].value, path + [v.fields[i].key]);
      }
    }
  }

  lemma {:induction false} IsSetSnoc(done: seq<Patch>, q: Patch, path: Path)
    ensures IsSet(done + [q], path) == (IsSet(done, path) || (q.op.Set? && q.path == path))
  {
    if q.op.Set? && q.path == path {
      assert q in done + [q];
    }
  }

  lemma {:induction false} AppendedSnoc(done: seq<Patch>, q: Patch, path: Path)
    ensures Appended(done + [q], path) ==
            Appended(done, path) + if q.op.Append? && q.path == path then q.op.values else []
  {
    AppendedConcat(done, [q], path);
  }

  /** A patch outside a subtree leaves its view alone. */
  lemma {:induction false} ViewFrame(v: Json, path: Path, full: bool, done: seq<Patch>, q: Patch)
    requires !(path <= q.path)
    ensures View(v, path, full, done + [q]) == View(v, path, full, done)
  {
    AppendedSnoc(done, q, path);
    if v.Obj? {
      var a, b := View(v, path, full, done + [q]), View(v, path, full, done);
      forall i | 0 <= i < |v.fields| ensures a.fields[i] == b.fields[i] {
        var p := path + [v.fields[i].key];
        IsSetSnoc(done, q, p);
        assert path <= p;
        ViewFrame(v.fields[i].value, p, full || IsSet(done, p), done, q);
      }
    }
  }

  /** A freshly set subtree shows its value with reachable arrays empty. */
  lemma {:induction false} ViewFresh(v: Json, path: Path, done: seq<Patch>)
    requires forall q :: q in done && q.op.Append? ==> !(path <= q.path)
    ensures View(v, path, true, done) == SkeletonizeArrays(v)
  {
    AppendedElsewhere(done, path);
    if v.Obj? {
      var a, b := View(v, path, true, done), SkeletonizeArrays(v);
      forall i | 0 <= i < |v.fields| ensures a.fields[i] == b.fields[i] {
        var p := path + [v.fields[i].key];
        assert path <= p;
        ViewFresh(v.fields[i].value, p, done);
      }
    }
  }

  // ---------------------------------------------------------------- one patch

  /** Every field but `i` keeps its view under a patch that goes through field `i`. */
  lemma {:induction false} OtherFields(
    fs: seq<Field>, i: nat, path: Path, full: bool, done: seq<Patch>, q: Patch, j: nat)
    requires DistinctKeys(fs) && i < |fs| && j < |fs| && j != i
    requires path + [fs[i].key] <= q.path
    ensures View(Obj(fs), path, full, done + [q]).fields[j] == View(Obj(fs), path, full, done).fields[j]
  {
    var p := path + [fs[j].key];
    assert q.path[|path|] == (path + [fs[i].key])[|path|] == fs[i].key;
    assert p[|path|] == fs[j].key;
    assert fs[i].key != fs[j].key;
    assert !(p <= q.path);
    IsSetSnoc(done, q, p);
    ViewFrame(fs[j].value, p, full || IsSet(done, p), done, q);
  }

  /** The keys of a view are the keys of the document. */
  lemma {:induction false} FindView(fs: seq<Field>, i: nat, path: Path, full: bool, done: seq<Patch>)
    requires DistinctKeys(fs) && i < |fs|
    ensures Find(View(Obj(fs), path, full, done).fields, fs[i].key) == i
    ensures Find(fs, fs[i].key) == i
  {
    var vs := View(Obj(fs), path, full, done).fields;
    forall a, b | 0 <= a < b < |vs| ensures vs[a].key != vs[b].key {
      assert fs[a].key != fs[b].key;
    }
    FindDistinct(vs, i);
    FindDistinct(fs, i);
  }

  /** Applying an extracted patch turns the view of a prefix into the view of the longer prefix. */
  lemma {:induction false} ApplyView(v: Json, path: Path, full: bool, done: seq<Patch>, q: Patch)
    requires WellFormed(v) && Describes(q, v, path)
    requires forall x :: x in done ==> !MustPrecede(q, x)
    ensures ApplyOp(View(v, path, full, done), q.path[|path|..], q.op)
            == Applied(View(v, path, full, done + [q]), true)
    decreases v
  {
    var sub := q.path[|path|..];
    if sub == [] {
      assert q.path == path;
      AppendedSnoc(done, q, path);
    } else {
      var i := Find(v.fields, sub[0]);
      FindDistinct(v.fields, i);
      assert path + [sub[0]] <= q.path by {
        assert q.path == path + sub;
      }
      if |sub| == 1 {
        ApplyViewHere(v.fields, i, path, full, done, q);
      } else {
        ApplyViewBelow(v.fields, i, path, full, done, q);
      }
    }
  }

  lemma {:induction false} ApplyViewHere(fs: seq<Field>, i: nat, path: Path, full: bool, done: seq<Patch>, q: Patch)
    requires WellFormed(Obj(fs)) && i < |fs| && Encodable(fs[i].key)
    requires q.path == path + [fs[i].key] && Describes(q, Obj(fs), path)
    requires forall x :: x in done ==> !MustPrecede(q, x)
    ensures AtParent(View(Obj(fs), path, full, done), fs[i].key, q.op)
            == Applied(View(Obj(fs), path, full, done + [q]), true)
    decreases fs, 0
  {
    var p := q.path;
    FindView(fs, i, path, full, done);
    assert p[|path|..] == [fs[i].key] && [fs[i].key][1..] == [];
    assert Resolve(Obj(fs), [fs[i].key]) == Some(fs[i].value);
    var before := View(Obj(fs), path, full, done).fields;
    var after := View(Obj(fs), path, full, done + [q]).fields;
    IsSetSnoc(done, q, p);
    if q.op.Set? {
      ViewFresh(fs[i].value, p, done + [q]);
    } else {
      AppendedSnoc(done, q, p);
    }
    forall j | 0 <= j < |fs| && j != i ensures after[j] == before[j] {
      OtherFields(fs, i, path, full, done, q, j);
    }
    assert after == before[i := after[i]];
  }

  lemma {:induction false} ApplyViewBelow(fs: seq<Field>, i: nat, path: Path, full: bool, done: seq<Patch>, q: Patch)
    requires WellFormed(Obj(fs)) && i < |fs| && Encodable(fs[i].key)
    requires path + [fs[i].key] <= q.path && |q.path| > |path| + 1 && Describes(q, Obj(fs), path)
    requires forall x :: x in done ==> !MustPrecede(q, x)
    ensures ApplyOp(View(Obj(fs), path, full, done), q.path[|path|..], q.op)
            == Applied(View(Obj(fs), path, full, done + [q]), true)
    decreases fs, 0
  {
    var p := path + [fs[i].key];
    LiftDescribes(q, fs, i, path);
    assert q.path[|path|..][1..] == q.path[|p|..];
    assert q.path[|path|] == p[|path|];
    FindView(fs, i, path, full, done);
    IsSetSnoc(done, q, p);
    assert fs[i] in fs;
    ApplyView(fs[i].value, p, full || IsSet(done, p), done, q);
    var before := View(Obj(fs), path, full, done).fields;
    var after := View(Obj(fs), path, full, done + [q]).fields;
    forall j | 0 <= j < |fs| && j != i ensures after[j] == before[j] {
      OtherFields(fs, i, path, full, done, q, j);
    }
    assert after == before[i := after[i]];
  }

  // ---------------------------------------------------------------- every prefix of the plan

  ghost function Sorted(doc: Json, size: nat): seq<Patch>
    requires size >= 1
  {
    StableSort(Extract(doc, [], size))
  }

  lemma {:induction false} SortedDescribes(doc: Json, size: nat, q: Patch)
    requires size >= 1 && WellFormed(doc) && q in Sorted(doc, size)
    ensures Describes(q, doc, [])
  {
    StableSortCorrect(Extract(doc, [], size));
    assert q in multiset(Sorted(doc, size));
    ExtractDescribes(doc, [], size, q);
  }

  lemma {:induction false} SortedAppended(doc: Json, size: nat, sub: Path)
    requires size >= 1 && WellFormed(doc) && Resolve(doc, sub).Some? && Resolve(doc, sub).value.Arr?
    ensures Appended(Sorted(doc, size), sub) == Resolve(doc, sub).value.items
  {
    var ps := Extract(doc, [], size);
    forall q | q in ps && q.op.Append? && q.path == sub
      ensures q.priority == ArrayPriority(sub, Resolve(doc, sub).value.items)
    {
      ExtractDescribes(doc, [], size, q);
      assert q.path[0..] == sub;
    }
    StableSortAppended(ps, sub, ArrayPriority(sub, Resolve(doc, sub).value.items));
    ExtractAppended(doc, [], size, sub);
    assert [] + sub == sub;
  }

  /** After every prefix of the sorted patches, no patch has been refused and the client holds
      the view of that prefix. */
  lemma {:induction false} PrefixState(doc: Json, size: nat, n: nat)
    requires size >= 1 && WellFormed(doc) && n <= |Sorted(doc, size)| && (doc.Obj? || doc.Arr?)
    ensures ApplyPatches(GenerateSkeleton(doc), Sorted(doc, size)[..n])
            == Applied(View(doc, [], false, Sorted(doc, size)[..n]), true)
  {
    var ps := Sorted(doc, size);
    if n == 0 {
      ViewInitial(doc, []);
      assert ps[..0] == [];
    } else {
      PrefixState(doc, size, n - 1);
      var q := ps[n - 1];
      assert ps[..n] == ps[..n - 1] + [q];
      ApplyPatchesConcat(GenerateSkeleton(doc), ps[..n - 1], [q]);
      SortedDescribes(doc, size, q);
      ExtractOrdered(doc, [], size);
      StableSortOrdered(Extract(doc, [], size));
      assert q.path[0..] == q.path;
      ApplyView(doc, [], false, ps[..n - 1], q);
    }
  }

  // ---------------------------------------------------------------- progressive refinement

  /** `a` then `b` are stages of the scalar or unaddressable value `v`: placeholder, then final. */
  ghost predicate Forward(v: Json, a: Json, b: Json) {
    && (a == Placeholder(v) || a == v)
    && (b == Placeholder(v) || b == v)
    && (a == v ==> b == v)
  }

  /** `a` then `b` are stages of `v`: same shape, arrays growing towards the final one,
      scalars going from placeholder to final value and never back. */
  ghost predicate Refines(v: Json, a: Json, b: Json) {
    match v
    case Arr(items) => a.Arr? && b.Arr? && a.items <= b.items <= items
    case Obj(fs) =>
      && a.Obj? && b.Obj? && |a.fields| == |b.fields| == |fs|
      && forall i :: 0 <= i < |fs| ==>
           && a.fields[i].key == b.fields[i].key == fs[i].key
           && if Encodable(fs[i].key) then Refines(fs[i].value, a.fields[i].value, b.fields[i].value)
              else Forward(fs[i].value, a.fields[i].value, b.fields[i].value)
    case _ => Forward(v, a, b)
  }

  lemma {:induction false} IsSetMonotone(done: seq<Patch>, more: seq<Patch>, path: Path)
    requires done <= more && IsSet(done, path)
    ensures IsSet(more, path)
  {
    var q :| q in done && q.op.Set? && q.path == path;
    assert q in more;
  }

  lemma {:induction false} AppendedMonotone(done: seq<Patch>, more: seq<Patch>, path: Path)
    requires done <= more
    ensures Appended(done, path) <= Appended(more, path)
  {
    AppendedConcat(done, more[|done|..], path);
    assert more == done + more[|done|..];
  }

  /** What is appended to an array of `v`, which sits at `path`, is a beginning of it. */
  ghost predicate WithinArrays(v: Json, path: Path, done: seq<Patch>) {
    forall sub :: Resolve(v, sub).Some? && Resolve(v, sub).value.Arr? ==>
                    Appended(done, path + sub) <= Resolve(v, sub).value.items
  }

  lemma {:induction false} WithinArraysBelow(fs: seq<Field>, i: nat, path: Path, done: seq<Patch>)
    requires DistinctKeys(fs) && i < |fs| && Encodable(fs[i].key) && WithinArrays(Obj(fs), path, done)
    ensures WithinArrays(fs[i].value, path + [fs[i].key], done)
  {
    var f := fs[i];
    var p := path + [f.key];
    FindDistinct(fs, i);
    forall sub | Resolve(f.value, sub).Some? && Resolve(f.value, sub).value.Arr?
      ensures Appended(done, p + sub) <= Resolve(f.value, sub).value.items
    {
      assert ([f.key] + sub)[1..] == sub;
      assert Resolve(Obj(fs), [f.key] + sub) == Resolve(f.value, sub);
      assert path + ([f.key] + sub) == p + sub;
    }
  }

  lemma {:induction false} WithinArraysHere(items: seq<Json>, path: Path, done: seq<Patch>)
    requires WithinArrays(Arr(items), path, done)
    ensures Appended(done, path) <= items
  {
    assert Resolve(Arr(items), []) == Some(Arr(items)) && path + [] == path;
  }

  lemma {:induction false} ViewRefines(
    v: Json, path: Path, full1: bool, full2: bool, done: seq<Patch>, more: seq<Patch>)
    requires WellFormed(v) && done <= more && (full1 ==> full2) && WithinArrays(v, path, more)
    ensures Refines(v, View(v, path, full1, done), View(v, path, full2, more))
    decreases v
  {
    if v.Arr? {
      AppendedMonotone(done, more, path);
      WithinArraysHere(v.items, path, more);
    } else if v.Obj? {
      hide WithinArrays;
      forall i | 0 <= i < |v.fields| && Encodable(v.fields[i].key)
        ensures Refines(v.fields[i].value, View(v, path, full1, done).fields[i].value,
                        View(v, path, full2, more).fields[i].value)
      {
        var f := v.fields[i];
        var p := path + [f.key];
        assert f in v.fields;
        if IsSet(done, p) {
          IsSetMonotone(done, more, p);
        }
        WithinArraysBelow(v.fields, i, path, more);
        ViewRefines(f.value, p, full1 || IsSet(done, p), full2 || IsSet(more, p), done, more);
      }
    }
  }

  /** Between any two points of the plan the client's document only moves forward. */
  lemma {:induction false} ProgressiveRefinement(doc: Json, size: nat, n: nat, m: nat)
    requires size >= 1 && WellFormed(doc) && n <= m <= |Sorted(doc, size)| && (doc.Obj? || doc.Arr?)
    ensures var a := ApplyPatches(GenerateSkeleton(doc), Sorted(doc, size)[..n]);
            var b := ApplyPatches(GenerateSkeleton(doc), Sorted(doc, size)[..m]);
            a.ok && b.ok && Refines(doc, a.state, b.state)
  {
    PrefixState(doc, size, n);
    PrefixState(doc, size, m);
    var ps := Sorted(doc, size);
    forall sub | Resolve(doc, sub).Some? && Resolve(doc, sub).value.Arr?
      ensures Appended(ps[..m], [] + sub) <= Resolve(doc, sub).value.items
    {
      AppendedMonotone(ps[..m], ps, sub);
      SortedAppended(doc, size, sub);
      assert [] + sub == sub;
    }
    assert ps[..n] <= ps[..m];
    ViewRefines(doc, [], false, false, ps[..n], ps[..m]);
  }

  // ---------------------------------------------------------------- the whole plan

  /** A value that equals its placeholder. */
  predicate Blank(v: Json) {
    match v
    case Null => true
    case Bool(b) => !b
    case Num(n) => n == Int(0)
    case Str(_) => false
    case Arr(items) => items == []
    case Obj(fs) => forall f :: f in fs ==> Blank(f.value)
  }

  lemma {:induction false} BlankIffPlaceholder(v: Json)
    ensures Placeholder(v) == v <==> Blank(v)
  {
    if v.Obj? {
      forall i | 0 <= i < |v.fields|
        ensures Placeholder(v).fields[i] == v.fields[i] <==> Blank(v.fields[i].value)
      {
        BlankIffPlaceholder(v.fields[i].value);
      }
      if Blank(v) {
        assert Placeholder(v).fields == v.fields;
      }
    }
  }

  /** The documents a plan can carry: the root is an array, null, or an object in which every
      key that no path can hold has a blank value. */
  predicate Recoverable(doc: Json) {
    match doc
    case Arr(_) => true
    case Null => true
    case Obj(fs) => forall f :: f in fs && !Encodable(f.key) ==> Blank(f.value)
    case _ => false
  }

  /** With all appends applied, a subtree under a set is the document's own. */
  lemma {:induction false} ViewComplete(v: Json, path: Path, done: seq<Patch>)
    requires WellFormed(v)
    requires forall sub :: Resolve(v, sub).Some? && Resolve(v, sub).value.Arr? ==>
                             Appended(done, path + sub) == Resolve(v, sub).value.items
    ensures View(v, path, true, done) == v
    decreases v
  {
    if v.Arr? {
      assert Resolve(v, []) == Some(v) && path + [] == path;
    } else if v.Obj? {
      forall i | 0 <= i < |v.fields| ensures View(v, path, true, done).fields[i] == v.fields[i] {
        ViewCompleteField(v.fields, i, path, done);
      }
      assert View(v, path, true, done).fields == v.fields;
    }
  }

  lemma {:induction false} ViewCompleteField(fs: seq<Field>, i: nat, path: Path, done: seq<Patch>)
    requires WellFormed(Obj(fs)) && i < |fs|
    requires forall sub :: Resolve(Obj(fs), sub).Some? && Resolve(Obj(fs), sub).value.Arr? ==>
                             Appended(done, path + sub) == Resolve(Obj(fs), sub).value.items
    ensures Encodable(fs[i].key) ==> View(fs[i].value, path + [fs[i].key], true, done) == fs[i].value
    decreases fs, 0
  {
    var f := fs[i];
    var p := path + [f.key];
    if Encodable(f.key) {
      assert f in fs;
      forall sub | Resolve(f.value, sub).Some? && Resolve(f.value, sub).value.Arr?
        ensures Appended(done, p + sub) == Resolve(f.value, sub).value.items
      {
        FindDistinct(fs, i);
        assert ([f.key] + sub)[1..] == sub;
        assert Resolve(Obj(fs), [f.key] + sub) == Resolve(f.value, sub);
        assert path + ([f.key] + sub) == p + sub;
      }
      ViewComplete(f.value, p, done);
    }
  }

  /** The view of the whole plan is the document exactly when the document is recoverable. */
  lemma {:induction false} FinalView(doc: Json, size: nat)
    requires size >= 1 && WellFormed(doc) && (doc.Obj? || doc.Arr?)
    ensures View(doc, [], false, Sorted(doc, size)) == doc <==> Recoverable(doc)
  {
    var ps := Sorted(doc, size);
    forall sub | Resolve(doc, sub).Some? && Resolve(doc, sub).value.Arr?
      ensures Appended(ps, [] + sub) == Resolve(doc, sub).value.items
    {
      SortedAppended(doc, size, sub);
      assert [] + sub == sub;
    }
    if doc.Arr? {
      var root: Path := [];
      assert Resolve(doc, root) == Some(doc) && root + root == root;
    } else {
      var vs := View(doc, [], false, ps).fields;
      forall i | 0 <= i < |doc.fields|
        ensures vs[i] == doc.fields[i] <==> Encodable(doc.fields[i].key) || Blank(doc.fields[i].value)
      {
        FinalField(doc.fields, i, size);
        BlankIffPlaceholder(doc.fields[i].value);
      }
      if Recoverable(doc) {
        assert vs == doc.fields;
      }
    }
  }

  lemma {:induction false} FinalField(fs: seq<Field>, i: nat, size: nat)
    requires size >= 1 && WellFormed(Obj(fs)) && i < |fs|
    requires forall sub :: Resolve(Obj(fs), sub).Some? && Resolve(Obj(fs), sub).value.Arr? ==>
                             Appended(Sorted(Obj(fs), size), [] + sub) == Resolve(Obj(fs), sub).value.items
    ensures View(Obj(fs), [], false, Sorted(Obj(fs), size)).fields[i].value
            == if Encodable(fs[i].key) then fs[i].value else Placeholder(fs[i].value)
  {
    var ps := Sorted(Obj(fs), size);
    if Encodable(fs[i].key) {
      var p := [] + [fs[i].key];
      ExtractSetsRoot(fs, |fs|, i, [], size);
      var q :| q in Extract(Obj(fs), [], size) && q.op.Set? && q.path == p;
      StableSortCorrect(Extract(Obj(fs), [], size));
      assert q in multiset(Extract(Obj(fs), [], size));
      assert q in ps;
      ViewCompleteField(fs, i, [], ps);
    }
  }

  lemma {:induction false} ApplyBatches(state: Json, batches: seq<Frame>)
    requires forall k :: 0 <= k < |batches| ==> batches[k].Patches?
    ensures ApplyFrames(state, batches) == ApplyPatches(state, Flatten(batches))
    decreases |batches|
  {
    if batches != [] {
      ApplyPatchesConcat(state, batches[0].patches, Flatten(batches[1..]));
      var r := ApplyFrame(state, batches[0]);
      if r.ok {
        ApplyBatches(r.state, batches[1..]);
      }
    }
  }

  lemma {:induction false} ApplyFramesConcat(state: Json, xs: seq<Frame>, ys: seq<Frame>)
    ensures ApplyFrames(state, xs + ys) ==
            var r := ApplyFrames(state, xs); if r.ok then ApplyFrames(r.state, ys) else r
    decreases |xs|
  {
    if xs == [] {
      assert xs + ys == ys;
    } else {
      assert (xs + ys)[1..] == xs[1..] + ys;
      var r := ApplyFrame(state, xs[0]);
      if r.ok {
        ApplyFramesConcat(r.state, xs[1..], ys);
      }
    }
  }

  /** Replaying a plan is applying its sorted patches to its skeleton. */
  lemma {:induction false} ReplayIsPatches(doc: Json, size: nat, frames: seq<Frame>)
    requires size >= 1 && IsPlan(frames, doc, size)
    ensures ApplyFrames(Null, frames) == ApplyPatches(GenerateSkeleton(doc), Sorted(doc, size))
  {
    var batches := frames[1..|frames| - 1];
    assert frames[1..] == batches + [Complete];
    var skeleton := GenerateSkeleton(doc);
    ApplyFramesConcat(skeleton, batches, [Complete]);
    ApplyBatches(skeleton, batches);
    var last: seq<Frame> := [Complete];
    assert last[1..] == [];
  }

  /** Every plan replays without a refusal, and it gives the document back if and only if the
      document is recoverable. */
  lemma {:induction false} PlanRoundTripIff(doc: Json, size: nat, frames: seq<Frame>)
    requires size >= 1 && WellFormed(doc) && IsPlan(frames, doc, size)
    ensures ApplyFrames(Null, frames).ok
    ensures ApplyFrames(Null, frames).state == doc <==> Recoverable(doc)
  {
    ReplayIsPatches(doc, size, frames);
    var ps := Sorted(doc, size);
    if doc.Obj? || doc.Arr? {
      PrefixState(doc, size, |ps|);
      assert ps[..|ps|] == ps;
      FinalView(doc, size);
    } else {
      assert ps == [];
    }
  }

  /** The two ends joined: plan a document, feed the frames to a reconstructor, read it back. */
  method RoundTrip(maxPatchSize: nat, doc: Json) returns (rebuilt: Json, complete: bool)
    requires WellFormed(doc) && (maxPatchSize >= 1 || !NeedsChunks(doc))
    ensures complete
    ensures rebuilt == doc <==> Recoverable(doc)
  {
    var streamer := new PriorityStreamer(maxPatchSize);
    var frames := streamer.Analyze(doc);
    var reconstructor := new JsonReconstructor();
    for i := 0 to |frames|
      invariant reconstructor.frameQueue == frames[..i]
      invariant reconstructor.currentState == Null
    {
      reconstructor.AddFrame(frames[i]);
    }
    assert frames[..|frames|] == frames;
    assert frames[|frames| - 1] in frames;
    PlanRoundTripIff(doc, streamer.BatchSize(), frames);
    var ok := reconstructor.ProcessAllFrames();
    rebuilt, complete := reconstructor.currentState, ok && reconstructor.isComplete;
  }

  /** Whatever the priorities, every set precedes the appends below it in the plan, the patches
      are the extracted ones in descending priority, and appends on one path keep their order. */
  lemma {:induction false} PlanOrdering(doc: Json, size: nat, frames: seq<Frame>, path: Path)
    requires size >= 1 && WellFormed(doc) && IsPlan(frames, doc, size)
    ensures var ps := Flatten(frames[1..|frames| - 1]);
            && Ordered(ps) && Descending(ps)
            && multiset(ps) == multiset(Extract(doc, [], size))
            && Appended(ps, path) == Appended(Extract(doc, [], size), path)
  {
    var ps := Extract(doc, [], size);
    ExtractOrdered(doc, [], size);
    StableSortOrdered(ps);
    StableSortCorrect(ps);
    if q :| q in ps && q.op.Append? && q.path == path {
      forall r | r in ps && r.op.Append? && r.path == path ensures r.priority == q.priority {
        ExtractDescribes(doc, [], size, q);
        ExtractDescribes(doc, [], size, r);
      }
      StableSortAppended(ps, path, q.priority);
    } else {
      StableSortAppended(ps, path, 0);
    }
  }
}

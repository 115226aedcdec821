/** What the extracted patches address, and what the stable sort keeps of their order. */
module PlanOrder {
  import opened Json
  import opened Reconstruction
  import opened PriorityPlan

  // ---------------------------------------------------------------- the sort

  ghost predicate Descending(ps: seq<Patch>) {
    forall i, j :: 0 <= i < j < |ps| ==> ps[i].priority >= ps[j].priority
  }

  /** The patches of one priority, in order. */
  ghost function OfPriority(ps: seq<Patch>, k: nat): seq<Patch> {
    if ps == [] then []
    else (if ps[0].priority == k then [ps[0]] else []) + OfPriority(ps[1..], k)
  }

  lemma {:induction false} InsertSortedElements(x: Patch, ps: seq<Patch>)
    ensures multiset(InsertSorted(x, ps)) == multiset{x} + multiset(ps)
  {
    if ps != [] && ps[0].priority > x.priority {
      InsertSortedElements(x, ps[1..]);
      assert ps == [ps[0]] + ps[1..];
    }
  }

  lemma {:induction false} DescendingCons(p: Patch, ps: seq<Patch>)
    requires Descending(ps) && forall q :: q in multiset(ps) ==> p.priority >= q.priority
    ensures Descending([p] + ps)
  {
    forall i | 0 <= i < |ps| ensures p.priority >= ps[i].priority {
      assert ps[i] in multiset(ps);
    }
  }

  lemma {:induction false} InsertSortedDescending(x: Patch, ps: seq<Patch>)
    requires Descending(ps)
    ensures Descending(InsertSorted(x, ps))
  {
    if ps != [] && ps[0].priority > x.priority {
      InsertSortedDescending(x, ps[1..]);
      InsertSortedElements(x, ps[1..]);
      DescendingCons(ps[0], InsertSorted(x, ps[1..]));
    }
  }

  lemma {:induction false} InsertSortedStable(x: Patch, ps: seq<Patch>, k: nat)
    ensures OfPriority(InsertSorted(x, ps), k) == (if x.priority == k then [x] else []) + OfPriority(ps, k)
  {
    if ps != [] && ps[0].priority > x.priority {
      InsertSortedStable(x, ps[1..], k);
    }
  }

  /** The sort orders by descending priority, loses and adds nothing, and keeps the order of ties. */
  lemma {:induction false} StableSortCorrect(ps: seq<Patch>)
    ensures Descending(StableSort(ps))
    ensures multiset(StableSort(ps)) == multiset(ps)
    ensures forall k :: OfPriority(StableSort(ps), k) == OfPriority(ps, k)
  {
    if ps != [] {
      StableSortCorrect(ps[1..]);
      InsertSortedDescending(ps[0], StableSort(ps[1..]));
      InsertSortedElements(ps[0], StableSort(ps[1..]));
      assert ps == [ps[0]] + ps[1..];
      forall k ensures OfPriority(StableSort(ps), k) == OfPriority(ps, k) {
        InsertSortedStable(ps[0], StableSort(ps[1..]), k);
      }
    }
  }

  lemma {:induction false} OfPriorityEmpty(ps: seq<Patch>, k: nat)
    ensures OfPriority(ps, k) == [] <==> forall q :: q in ps ==> q.priority != k
  {
    if ps != [] {
      OfPriorityEmpty(ps[1..], k);
      assert ps == [ps[0]] + ps[1..];
    }
  }

  lemma {:induction false} OfPriorityTail(ps: seq<Patch>, k: nat)
    requires ps != []
    ensures OfPriority(ps[1..], k) == if ps[0].priority == k then OfPriority(ps, k)[1..] else OfPriority(ps, k)
  {
  }

  lemma {:induction false} DescendingUnique(s: seq<Patch>, t: seq<Patch>)
    requires Descending(s) && Descending(t)
    requires forall k :: OfPriority(s, k) == OfPriority(t, k)
    ensures s == t
  {
    if s == [] {
      if t != [] {
        OfPriorityEmpty(t, t[0].priority);
        assert false;
      }
    } else {
      var k := s[0].priority;
      OfPriorityEmpty(s, k);
      OfPriorityEmpty(t, k);
      assert OfPriority(s, k) == OfPriority(t, k);
      OfPriorityEmpty(t, t[0].priority);
      OfPriorityEmpty(s, t[0].priority);
      assert OfPriority(s, t[0].priority) == OfPriority(t, t[0].priority);
      assert t[0].priority == k;
      assert s[0] == OfPriority(s, k)[0] == OfPriority(t, k)[0] == t[0];
      forall j ensures OfPriority(s[1..], j) == OfPriority(t[1..], j) {
        assert OfPriority(s, j) == OfPriority(t, j);
        OfPriorityTail(s, j);
        OfPriorityTail(t, j);
      }
      DescendingUnique(s[1..], t[1..]);
    }
  }

  /** Any stable descending sort of `ps` is this one. */
  lemma StableSortUnique(s: seq<Patch>, ps: seq<Patch>)
    requires Descending(s)
    requires forall k :: OfPriority(s, k) == OfPriority(ps, k)
    ensures s == StableSort(ps)
  {
    StableSortCorrect(ps);
    DescendingUnique(s, StableSort(ps));
  }

  // ---------------------------------------------------------------- set before append

  /** `a` would erase what `b` appends, so `a` must come first. */
  ghost predicate MustPrecede(a: Patch, b: Patch) {
    a.op.Set? && b.op.Append? && a.path <= b.path
  }

  ghost predicate Ordered(ps: seq<Patch>) {
    forall i, j :: 0 <= i < j < |ps| ==> !MustPrecede(ps[j], ps[i])
  }

  /** A set ranks at least as high as every append it must precede. */
  ghost predicate Hoisted(ps: seq<Patch>) {
    forall a, b :: a in ps && b in ps && MustPrecede(a, b) ==> a.priority >= b.priority
  }

  lemma {:induction false} OrderedConcat(xs: seq<Patch>, ys: seq<Patch>)
    requires Ordered(xs) && Ordered(ys)
    requires forall x, y :: x in xs && y in ys ==> !MustPrecede(y, x)
    ensures Ordered(xs + ys)
  {
  }

  lemma {:induction false} InsertSortedOrdered(x: Patch, ps: seq<Patch>)
    requires Ordered(ps)
    requires forall q :: q in ps ==> !MustPrecede(q, x)
    requires forall q :: q in ps && MustPrecede(x, q) ==> x.priority >= q.priority
    ensures Ordered(InsertSorted(x, ps))
    ensures forall q :: q in InsertSorted(x, ps) <==> q == x || q in ps
  {
    if ps != [] && ps[0].priority > x.priority {
      var r := InsertSorted(x, ps[1..]);
      assert ps == [ps[0]] + ps[1..];
      InsertSortedOrdered(x, ps[1..]);
      OrderedConcat([ps[0]], r);
    } else {
      OrderedConcat([x], ps);
    }
  }

  /** Sorting by priority alone never moves a set behind an append it must precede. */
  lemma {:induction false} StableSortOrdered(ps: seq<Patch>)
    requires Ordered(ps) && Hoisted(ps)
    ensures Ordered(StableSort(ps))
  {
    if ps != [] {
      assert ps == [ps[0]] + ps[1..];
      StableSortOrdered(ps[1..]);
      StableSortCorrect(ps[1..]);
      var t := StableSort(ps[1..]);
      forall q | q in t ensures q in ps[1..] {
        assert q in multiset(t);
      }
      InsertSortedOrdered(ps[0], t);
    }
  }

  // ---------------------------------------------------------------- appended elements

  /** Everything `ps` appends at `path`, in order. */
  ghost function Appended(ps: seq<Patch>, path: Path): seq<Json> {
    if ps == [] then []
    else (if ps[0].op.Append? && ps[0].path == path then ps[0].op.values else []) + Appended(ps[1..], path)
  }

  lemma {:induction false} AppendedConcat(xs: seq<Patch>, ys: seq<Patch>, path: Path)
    ensures Appended(xs + ys, path) == Appended(xs, path) + Appended(ys, path)
  {
    if xs == [] {
      assert xs + ys == ys;
    } else {
      assert (xs + ys)[1..] == xs[1..] + ys;
      AppendedConcat(xs[1..], ys, path);
    }
  }

  /** The appends among `ps` at `path`, each with the elements it carries, in order. */
  ghost function AppendsAt(ps: seq<Patch>, path: Path): seq<seq<Json>> {
    if ps == [] then []
    else (if ps[0].op.Append? && ps[0].path == path then [ps[0].op.values] else []) + AppendsAt(ps[1..], path)
  }

  function Concat(chunks: seq<seq<Json>>): seq<Json> {
    if chunks == [] then [] else chunks[0] + Concat(chunks[1..])
  }

  lemma {:induction false} AppendedIs(ps: seq<Patch>, path: Path)
    ensures Appended(ps, path) == Concat(AppendsAt(ps, path))
  {
    if ps != [] {
      AppendedIs(ps[1..], path);
      if ps[0].op.Append? && ps[0].path == path {
        assert AppendsAt(ps, path)[1..] == AppendsAt(ps[1..], path);
      } else {
        assert AppendsAt(ps, path) == AppendsAt(ps[1..], path);
      }
    }
  }

  lemma {:induction false} AppendsConcat(xs: seq<Patch>, ys: seq<Patch>, path: Path)
    ensures AppendsAt(xs + ys, path) == AppendsAt(xs, path) + AppendsAt(ys, path)
  {
    if xs == [] {
      assert xs + ys == ys;
    } else {
      assert (xs + ys)[1..] == xs[1..] + ys;
      AppendsConcat(xs[1..], ys, path);
    }
  }

  lemma {:induction false} AppendsElsewhere(ps: seq<Patch>, path: Path)
    requires forall q :: q in ps && q.op.Append? ==> q.path != path
    ensures AppendsAt(ps, path) == []
  {
    if ps != [] {
      AppendsElsewhere(ps[1..], path);
    }
  }

  lemma {:induction false} AppendedElsewhere(ps: seq<Patch>, path: Path)
    requires forall q :: q in ps && q.op.Append? ==> q.path != path
    ensures Appended(ps, path) == []
  {
    AppendsElsewhere(ps, path);
    AppendedIs(ps, path);
  }

  lemma {:induction false} InsertSortedAppends(x: Patch, ps: seq<Patch>, path: Path)
    requires x.op.Append? && x.path == path ==>
               forall q :: q in ps && q.op.Append? && q.path == path ==> q.priority <= x.priority
    ensures AppendsAt(InsertSorted(x, ps), path) == AppendsAt([x] + ps, path)
  {
    if ps != [] && ps[0].priority > x.priority {
      assert ps[0] in ps;
      InsertSortedAppends(x, ps[1..], path);
      assert ([x] + ps)[1..] == ps;
      assert ([x] + ps[1..])[1..] == ps[1..];
    }
  }

  /** Appends on one path keep their order when they share one priority. */
  lemma {:induction false} StableSortAppends(ps: seq<Patch>, path: Path, k: nat)
    requires forall q :: q in ps && q.op.Append? && q.path == path ==> q.priority == k
    ensures AppendsAt(StableSort(ps), path) == AppendsAt(ps, path)
  {
    if ps != [] {
      StableSortAppends(ps[1..], path, k);
      StableSortCorrect(ps[1..]);
      var t := StableSort(ps[1..]);
      forall q | q in t ensures q in ps[1..] {
        assert q in multiset(t);
      }
      InsertSortedAppends(ps[0], t, path);
      assert ([ps[0]] + t)[1..] == t;
    }
  }

  lemma {:induction false} StableSortAppended(ps: seq<Patch>, path: Path, k: nat)
    requires forall q :: q in ps && q.op.Append? && q.path == path ==> q.priority == k
    ensures Appended(StableSort(ps), path) == Appended(ps, path)
  {
    StableSortAppends(ps, path, k);
    AppendedIs(StableSort(ps), path);
    AppendedIs(ps, path);
  }

  // ---------------------------------------------------------------- what extraction yields

  /** The value at `sub`, reached through encodable keys only. */
  function Resolve(v: Json, sub: Path): Option<Json>
    decreases |sub|
  {
    if sub == [] then Some(v)
    else if !v.Obj? || !Encodable(sub[0]) then None
    else
      var i := Find(v.fields, sub[0]);
      if i == |v.fields| then None else Resolve(v.fields[i].value, sub[1..])
  }

  /** `q` is a patch for a value reachable in `v`, which sits at `path`. */
  ghost predicate Describes(q: Patch, v: Json, path: Path) {
    && path <= q.path
    && var target := Resolve(v, q.path[|path|..]);
       && target.Some?
       && match q.op
          case Set(x) => q.path != path && x == SkeletonizeArrays(target.value)
          case Append(_) => target.value.Arr? && q.priority == ArrayPriority(q.path, target.value.items)
          case _ => false
  }

  /** A description of a field's value is a description of the object around it. */
  lemma {:induction false} LiftDescribes(q: Patch, fs: seq<Field>, i: nat, path: Path)
    requires DistinctKeys(fs) && i < |fs| && Encodable(fs[i].key)
    requires path + [fs[i].key] <= q.path
    ensures path <= q.path && q.path != path
    ensures Resolve(Obj(fs), q.path[|path|..]) == Resolve(fs[i].value, q.path[|path| + 1..])
  {
    FindDistinct(fs, i);
    var sub := q.path[|path|..];
    assert sub[0] == (path + [fs[i].key])[|path|] == fs[i].key;
    assert sub[1..] == q.path[|path| + 1..];
  }

  lemma {:induction false} ExtractDescribes(v: Json, path: Path, size: nat, q: Patch)
    requires size >= 1 && WellFormed(v) && q in Extract(v, path, size)
    ensures Describes(q, v, path)
    decreases v
  {
    match v
    case Obj(fs) => ExtractFieldsDescribes(fs, |fs|, path, size, q);
    case Arr(items) => assert q.path[|path|..] == [];
    case _ =>
  }

  lemma {:induction false} ExtractFieldsDescribes(fs: seq<Field>, n: nat, path: Path, size: nat, q: Patch)
    requires size >= 1 && n <= |fs| && WellFormed(Obj(fs)) && q in ExtractFields(fs, n, path, size)
    ensures Describes(q, Obj(fs), path)
    ensures q.path != path && exists i :: 0 <= i < n && q.path[|path|] == fs[i].key
    decreases fs, n
  {
    hide ExtractField;
    if q in ExtractField(fs[n - 1], path, size) {
      assert fs[n - 1] in fs;
      ExtractFieldDescribes(fs[n - 1], path, size, q);
      LiftDescribes(q, fs, n - 1, path);
      var fieldPath := path + [fs[n - 1].key];
      assert q.path[|path|] == fieldPath[|path|] == fs[n - 1].key;
    } else {
      ExtractFieldsDescribes(fs, n - 1, path, size, q);
    }
  }

  lemma {:induction false} ExtractFieldDescribes(f: Field, path: Path, size: nat, q: Patch)
    requires size >= 1 && WellFormed(f.value) && q in ExtractField(f, path, size)
    ensures Encodable(f.key)
    ensures path + [f.key] <= q.path
    ensures Describes(q, f.value, path + [f.key]) ||
            (q.op == Set(SkeletonizeArrays(f.value)) && q.path == path + [f.key])
    ensures Resolve(f.value, q.path[|path| + 1..]).Some?
    decreases f
  {
    var fieldPath := path + [f.key];
    if q in Extract(f.value, fieldPath, size) {
      ExtractDescribes(f.value, fieldPath, size, q);
    }
  }

  // ---------------------------------------------------------------- extraction order

  /** Paths through different keys of one object are not prefixes of each other. */
  lemma {:induction false} Incomparable(path: Path, a: Path, b: Path)
    requires path <= a && path <= b && path != a && path != b && a[|path|] != b[|path|]
    ensures !(a <= b)
  {
  }

  /** Extraction lists every set before the appends it must precede, at no lower a priority. */
  lemma {:induction false} ExtractOrdered(v: Json, path: Path, size: nat)
    requires size >= 1 && WellFormed(v)
    ensures Ordered(Extract(v, path, size)) && Hoisted(Extract(v, path, size))
    decreases v
  {
    match v
    case Obj(fs) => ExtractFieldsOrdered(fs, |fs|, path, size);
    case _ =>
  }

  lemma {:induction false} ExtractFieldsOrdered(fs: seq<Field>, n: nat, path: Path, size: nat)
    requires size >= 1 && n <= |fs| && WellFormed(Obj(fs))
    ensures Ordered(ExtractFields(fs, n, path, size)) && Hoisted(ExtractFields(fs, n, path, size))
    decreases fs, n
  {
    if n > 0 {
      var xs, ys := ExtractFields(fs, n - 1, path, size), ExtractField(fs[n - 1], path, size);
      ExtractFieldsOrdered(fs, n - 1, path, size);
      ExtractFieldOrdered(fs[n - 1], path, size);
      forall x, y | x in xs && y in ys ensures !MustPrecede(x, y) && !MustPrecede(y, x) {
        ExtractFieldsDescribes(fs, n - 1, path, size, x);
        ExtractFieldDescribes(fs[n - 1], path, size, y);
        assert y.path[|path|] == (path + [fs[n - 1].key])[|path|] == fs[n - 1].key;
        assert y.path[..|path|] == (path + [fs[n - 1].key])[..|path|] == path;
        Incomparable(path, x.path, y.path);
        Incomparable(path, y.path, x.path);
      }
      OrderedConcat(xs, ys);
    }
  }

  lemma {:induction false} ExtractFieldOrdered(f: Field, path: Path, size: nat)
    requires size >= 1 && WellFormed(f.value)
    ensures Ordered(ExtractField(f, path, size)) && Hoisted(ExtractField(f, path, size))
    decreases f
  {
    if Encodable(f.key) {
      var fieldPath := path + [f.key];
      var children := Extract(f.value, fieldPath, size);
      ExtractOrdered(f.value, fieldPath, size);
      forall q | q in children ensures q.op.Set? ==> !(q.path <= fieldPath) {
        ExtractDescribes(f.value, fieldPath, size, q);
      }
      OrderedConcat([ExtractField(f, path, size)[0]], children);
    }
  }

  // ---------------------------------------------------------------- extraction completeness

  lemma {:induction false} ChunksConcat(items: seq<Json>, size: nat)
    requires size >= 1
    ensures Concat(Chunks(items, size)) == items
    decreases |items|
  {
    if |items| > size {
      ChunksConcat(items[size..], size);
      assert items == items[..size] + items[size..];
    }
  }

  /** `n` elements cut into pieces of `size`: every piece is full but the last, which is not empty. */
  ghost predicate CutInto(pieces: seq<seq<Json>>, n: nat, size: nat)
    requires size >= 1
  {
    && |pieces| == (n + size - 1) / size
    && (forall i :: 0 <= i < |pieces| - 1 ==> |pieces[i]| == size)
    && (pieces != [] ==> 1 <= |pieces[|pieces| - 1]| <= size)
  }

  lemma DivideStep(m: nat, size: nat)
    requires size >= 1
    ensures (m + size) / size == m / size + 1
  {
    var q, r := m / size, m % size;
    assert m + size == (q + 1) * size + r;
    DivideUnique(m + size, size, q + 1, r);
  }

  lemma Multiples(a: nat, b: nat, size: nat)
    ensures a <= b ==> a * size <= b * size
  {
  }

  lemma DivideUnique(m: nat, size: nat, q: nat, r: nat)
    requires r < size && m == q * size + r
    ensures m / size == q
  {
    assert m == (m / size) * size + m % size;
    assert (q + 1) * size == q * size + size && (m / size + 1) * size == (m / size) * size + size;
    Multiples(q + 1, m / size, size);
    Multiples(m / size + 1, q, size);
  }

  lemma {:induction false} ChunksCut(items: seq<Json>, size: nat)
    requires size >= 1
    ensures CutInto(Chunks(items, size), |items|, size)
    decreases |items|
  {
    if |items| > size {
      var rest := Chunks(items[size..], size);
      ChunksCut(items[size..], size);
      DivideStep(|items| - 1, size);
      assert Chunks(items, size) == [items[..size]] + rest;
      assert |items[size..]| + size - 1 == |items| - 1;
      assert (|items| - 1) / size >= 1 by { DivideStep(|items| - 1 - size, size); }
    } else if items != [] {
      DivideUnique(|items| + size - 1, size, 1, |items| - 1);
    } else {
      DivideUnique(size - 1, size, 0, size - 1);
    }
  }

  lemma {:induction false} AppendsOfChunks(path: Path, chunks: seq<seq<Json>>, priority: nat)
    ensures AppendsAt(AppendPatches(path, chunks, priority), path) == chunks
  {
    if chunks != [] {
      AppendsOfChunks(path, chunks[1..], priority);
      assert AppendPatches(path, chunks, priority)[1..] == AppendPatches(path, chunks[1..], priority);
    }
  }

  /** How an array is sent: none when empty, whole up to ten elements, in full chunks beyond. */
  ghost predicate SentAs(pieces: seq<seq<Json>>, items: seq<Json>, size: nat)
    requires size >= 1
  {
    && Concat(pieces) == items
    && if |items| > 10 then CutInto(pieces, |items|, size) else |pieces| == if items == [] then 0 else 1
  }

  lemma {:induction false} ArrayPatchesSent(path: Path, items: seq<Json>, size: nat)
    requires size >= 1
    ensures SentAs(AppendsAt(ArrayPatches(path, items, size), path), items, size)
  {
    var pieces := AppendsAt(ArrayPatches(path, items, size), path);
    if |items| > 10 {
      ChunksConcat(items, size);
      ChunksCut(items, size);
      AppendsOfChunks(path, Chunks(items, size), ArrayPriority(path, items));
    } else if items != [] {
      assert ArrayPatches(path, items, size)[1..] == [];
      assert pieces == [items] && pieces[1..] == [];
    }
  }

  /** The appends extracted for a reachable array hold its elements in order, cut as promised. */
  lemma {:induction false} ExtractAppends(v: Json, path: Path, size: nat, sub: Path)
    requires size >= 1 && WellFormed(v)
    requires Resolve(v, sub).Some? && Resolve(v, sub).value.Arr?
    ensures SentAs(AppendsAt(Extract(v, path, size), path + sub), Resolve(v, sub).value.items, size)
    decreases v
  {
    if sub == [] {
      assert path + sub == path;
      ArrayPatchesSent(path, v.items, size);
    } else {
      var i := Find(v.fields, sub[0]);
      ExtractFieldsAppends(v.fields, path, size, sub, i);
      ExtractFieldAppends(v.fields[i], path, size, sub);
    }
  }

  lemma {:induction false} ExtractAppended(v: Json, path: Path, size: nat, sub: Path)
    requires size >= 1 && WellFormed(v)
    requires Resolve(v, sub).Some? && Resolve(v, sub).value.Arr?
    ensures Appended(Extract(v, path, size), path + sub) == Resolve(v, sub).value.items
  {
    ExtractAppends(v, path, size, sub);
    AppendedIs(Extract(v, path, size), path + sub);
  }

  /** Only the field that `sub` goes through appends there. */
  lemma {:induction false} ExtractFieldsAppends(fs: seq<Field>, path: Path, size: nat, sub: Path, i: nat)
    requires size >= 1 && i < |fs| && WellFormed(Obj(fs)) && sub != [] && sub[0] == fs[i].key
    ensures AppendsAt(ExtractFields(fs, |fs|, path, size), path + sub)
            == AppendsAt(ExtractField(fs[i], path, size), path + sub)
    decreases fs, |fs|
  {
    forall k | 0 <= k < |fs| && k != i ensures Silent(fs[k], path, size, path + sub) {
      assert fs[k] in fs && fs[k].key != fs[i].key;
      ExtractFieldAppendsElsewhere(fs[k], path, size, sub);
    }
    OneFieldAppends(fs, |fs|, path, size, path + sub, i);
  }

  /** The patches of a field append nothing at `target`. */
  ghost predicate Silent(f: Field, path: Path, size: nat, target: Path)
    requires size >= 1
  {
    AppendsAt(ExtractField(f, path, size), target) == []
  }

  lemma {:induction false} OneFieldAppends(fs: seq<Field>, n: nat, path: Path, size: nat, target: Path, i: nat)
    requires size >= 1 && n <= |fs| && i < |fs|
    requires forall k :: 0 <= k < |fs| && k != i ==> Silent(fs[k], path, size, target)
    ensures AppendsAt(ExtractFields(fs, n, path, size), target) ==
            if i < n then AppendsAt(ExtractField(fs[i], path, size), target) else []
    decreases n
  {
    hide *;
    NoFieldAppends(fs, path, size, target);
    if n > 0 {
      OneFieldAppends(fs, n - 1, path, size, target, i);
      LastFieldAppends(fs, n, path, size, target);
      var here := AppendsAt(ExtractField(fs[n - 1], path, size), target);
      Together(AppendsAt(ExtractFields(fs, n - 1, path, size), target), here);
      if n - 1 != i {
        SilentAppends(fs[n - 1], path, size, target);
      }
    }
  }

  lemma NoFieldAppends(fs: seq<Field>, path: Path, size: nat, target: Path)
    requires size >= 1
    ensures AppendsAt(ExtractFields(fs, 0, path, size), target) == []
  {
  }

  lemma SilentAppends(f: Field, path: Path, size: nat, target: Path)
    requires size >= 1 && Silent(f, path, size, target)
    ensures AppendsAt(ExtractField(f, path, size), target) == []
  {
  }

  lemma {:induction false} LastFieldAppends(fs: seq<Field>, n: nat, path: Path, size: nat, target: Path)
    requires size >= 1 && 0 < n <= |fs|
    ensures AppendsAt(ExtractFields(fs, n, path, size), target) ==
            AppendsAt(ExtractFields(fs, n - 1, path, size), target)
            + AppendsAt(ExtractField(fs[n - 1], path, size), target)
  {
    hide ExtractField, AppendsAt;
    AppendsConcat(ExtractFields(fs, n - 1, path, size), ExtractField(fs[n - 1], path, size), target);
  }

  lemma Together<T>(before: seq<T>, here: seq<T>)
    ensures before + [] == before && [] + here == here
  {
  }

  lemma {:induction false} ExtractFieldAppends(f: Field, path: Path, size: nat, sub: Path)
    requires size >= 1 && WellFormed(f.value) && Encodable(f.key) && sub != [] && sub[0] == f.key
    requires Resolve(f.value, sub[1..]).Some? && Resolve(f.value, sub[1..]).value.Arr?
    ensures SentAs(AppendsAt(ExtractField(f, path, size), path + sub), Resolve(f.value, sub[1..]).value.items, size)
    decreases f
  {
    hide SentAs;
    var fieldPath := path + [f.key];
    ExtractAppends(f.value, fieldPath, size, sub[1..]);
    assert fieldPath + sub[1..] == path + sub;
    assert ExtractField(f, path, size)[1..] == Extract(f.value, fieldPath, size);
    assert AppendsAt(ExtractField(f, path, size), path + sub)
        == AppendsAt(Extract(f.value, fieldPath, size), path + sub);
  }

  lemma {:induction false} ExtractFieldAppendsElsewhere(f: Field, path: Path, size: nat, sub: Path)
    requires size >= 1 && WellFormed(f.value) && sub != [] && sub[0] != f.key
    ensures AppendsAt(ExtractField(f, path, size), path + sub) == []
  {
    forall q | q in ExtractField(f, path, size) ensures q.path != path + sub {
      ExtractFieldDescribes(f, path, size, q);
      assert q.path[|path|] == (path + [f.key])[|path|] == f.key;
      assert (path + sub)[|path|] == sub[0];
    }
    AppendsElsewhere(ExtractField(f, path, size), path + sub);
  }

  ghost predicate IsSet(ps: seq<Patch>, path: Path) {
    exists q :: q in ps && q.op.Set? && q.path == path
  }

  /** Every encodable field of the root object gets a set of its own. */
  lemma {:induction false} IsSetWider(xs: seq<Patch>, ys: seq<Patch>, path: Path)
    requires IsSet(xs, path)
    ensures IsSet(xs + ys, path)
  {
    var q :| q in xs && q.op.Set? && q.path == path;
    assert q in xs + ys;
  }

  lemma {:induction false} ExtractSetsRoot(fs: seq<Field>, n: nat, i: nat, path: Path, size: nat)
    requires size >= 1 && i < n <= |fs| && Encodable(fs[i].key)
    ensures IsSet(ExtractFields(fs, n, path, size), path + [fs[i].key])
  {
    if i == n - 1 {
      var xs, ys := ExtractFields(fs, n - 1, path, size), ExtractField(fs[i], path, size);
      assert ys[0] in xs + ys;
    } else {
      hide ExtractField;
      ExtractSetsRoot(fs, n - 1, i, path, size);
      IsSetWider(ExtractFields(fs, n - 1, path, size), ExtractField(fs[n - 1], path, size), path + [fs[i].key]);
    }
  }
}

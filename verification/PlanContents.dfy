/** What a plan holds: which patches there are, how arrays are cut, and what ranks them. */
module PlanContents {
  import opened Json
  import opened Reconstruction
  import opened PriorityPlan
  import opened PlanOrder
  import opened PlanRoundTrip

  // ---------------------------------------------------------------- arrays

  /** In every plan a reachable array goes out in order: not at all when empty, in one append up to
      ten elements, and beyond that in appends of exactly the patch size, the last of 1 to that many. */
  lemma {:induction false} PlanCutsArrays(doc: Json, size: nat, frames: seq<Frame>, sub: Path)
    requires size >= 1 && WellFormed(doc) && IsPlan(frames, doc, size)
    requires Resolve(doc, sub).Some? && Resolve(doc, sub).value.Arr?
    ensures var items := Resolve(doc, sub).value.items;
            var pieces := AppendsAt(Flatten(frames[1..|frames| - 1]), sub);
            && Concat(pieces) == items
            && (|items| <= 10 ==> |pieces| == if items == [] then 0 else 1)
            && (|items| > 10 ==>
                  && |pieces| == (|items| + size - 1) / size
                  && (forall i :: 0 <= i < |pieces| - 1 ==> |pieces[i]| == size)
                  && 1 <= |pieces[|pieces| - 1]| <= size)
  {
    var ps := Extract(doc, [], size);
    var items := Resolve(doc, sub).value.items;
    ExtractAppends(doc, [], size, sub);
    assert [] + sub == sub;
    forall q | q in ps && q.op.Append? && q.path == sub ensures q.priority == ArrayPriority(sub, items) {
      ExtractDescribes(doc, [], size, q);
    }
    StableSortAppends(ps, sub, ArrayPriority(sub, items));
    if |items| > 10 {
      PiecesExist(|items|, size);
    }
  }

  lemma PiecesExist(n: nat, size: nat)
    requires n >= 1 && size >= 1
    ensures (n + size - 1) / size >= 1
  {
    DivideStep(n - 1, size);
  }

  // ---------------------------------------------------------------- sets

  /** The paths set by `ps`, in order. */
  ghost function SetsOf(ps: seq<Patch>): seq<Path> {
    if ps == [] then [] else (if ps[0].op.Set? then [ps[0].path] else []) + SetsOf(ps[1..])
  }

  /** The paths of all fields reachable through encodable keys, each before those below it and
      siblings in their order. */
  ghost function Preorder(v: Json, path: Path): seq<Path>
    decreases v
  {
    if v.Obj? then PreorderFields(v.fields, path) else []
  }

  ghost function PreorderFields(fs: seq<Field>, path: Path): seq<Path>
    decreases fs
  {
    if fs == [] then []
    else
      (if Encodable(fs[0].key) then [path + [fs[0].key]] + Preorder(fs[0].value, path + [fs[0].key]) else [])
      + PreorderFields(fs[1..], path)
  }

  lemma {:induction false} SetsOfConcat(xs: seq<Patch>, ys: seq<Patch>)
    ensures SetsOf(xs + ys) == SetsOf(xs) + SetsOf(ys)
  {
    if xs == [] {
      assert xs + ys == ys;
    } else {
      assert (xs + ys)[1..] == xs[1..] + ys;
      SetsOfConcat(xs[1..], ys);
    }
  }

  lemma {:induction false} SetsOfChunks(path: Path, chunks: seq<seq<Json>>, priority: nat)
    ensures SetsOf(AppendPatches(path, chunks, priority)) == []
  {
    if chunks != [] {
      SetsOfChunks(path, chunks[1..], priority);
      assert AppendPatches(path, chunks, priority)[1..] == AppendPatches(path, chunks[1..], priority);
    }
  }

  /** Extraction sets every reachable field once, a field before the fields below it. */
  lemma {:induction false} SetsInPreorder(v: Json, path: Path, size: nat)
    requires size >= 1
    ensures SetsOf(Extract(v, path, size)) == Preorder(v, path)
    decreases v
  {
    match v
    case Obj(fs) =>
      assert fs[..|fs|] == fs;
      SetsOfFields(fs, |fs|, path, size);
    case Arr(items) =>
      if |items| > 10 {
        SetsOfChunks(path, Chunks(items, size), ArrayPriority(path, items));
      } else if items != [] {
        assert ArrayPatches(path, items, size)[1..] == [];
      }
    case _ =>
  }

  lemma {:induction false} SetsOfFields(fs: seq<Field>, n: nat, path: Path, size: nat)
    requires size >= 1 && n <= |fs|
    ensures SetsOf(ExtractFields(fs, n, path, size)) == PreorderFields(fs[..n], path)
    decreases fs, n
  {
    if n > 0 {
      var rest, f := ExtractFields(fs, n - 1, path, size), ExtractField(fs[n - 1], path, size);
      SetsOfFields(fs, n - 1, path, size);
      SetsOfField(fs[n - 1], path, size);
      hide ExtractField;
      SetsOfConcat(rest, f);
      assert fs[..n] == fs[..n - 1] + [fs[n - 1]];
      PreorderConcat(fs[..n - 1], [fs[n - 1]], path);
    }
  }

  lemma {:induction false} SetsOfField(f: Field, path: Path, size: nat)
    requires size >= 1
    ensures SetsOf(ExtractField(f, path, size)) == PreorderFields([f], path)
    decreases f
  {
    assert [f][1..] == [];
    if Encodable(f.key) {
      SetsInPreorder(f.value, path + [f.key], size);
      assert ExtractField(f, path, size)[1..] == Extract(f.value, path + [f.key], size);
    }
  }

  lemma {:induction false} PreorderConcat(a: seq<Field>, b: seq<Field>, path: Path)
    ensures PreorderFields(a + b, path) == PreorderFields(a, path) + PreorderFields(b, path)
  {
    if a == [] {
      assert a + b == b;
    } else {
      assert (a + b)[1..] == a[1..] + b;
      PreorderConcat(a[1..], b, path);
    }
  }

  // ---------------------------------------------------------------- priorities

  /** `q` ranks at its own level or at that of an append below it. */
  ghost predicate Ranked(q: Patch, own: nat, ps: seq<Patch>) {
    && own <= q.priority
    && (q.priority == own || exists a :: a in ps && MustPrecede(q, a) && a.priority == q.priority)
  }

  lemma {:induction false} RankedWider(q: Patch, own: nat, ps: seq<Patch>, more: seq<Patch>)
    requires Ranked(q, own, ps) && forall a :: a in ps ==> a in more
    ensures Ranked(q, own, more)
  {
    if q.priority != own {
      var a :| a in ps && MustPrecede(q, a) && a.priority == q.priority;
      assert a in more;
    }
  }

  /** The level a set has for its own field. */
  ghost function OwnPriority(q: Patch, v: Json, path: Path): nat
    requires path <= q.path && q.path != path && Resolve(v, q.path[|path|..]).Some?
  {
    FieldPriority(q.path[|q.path| - 1], Resolve(v, q.path[|path|..]).value)
  }

  /** A set's priority is the maximum of its field's own and of those of the appends below it. */
  lemma {:induction false} SetPriorityExact(v: Json, path: Path, size: nat, q: Patch)
    requires size >= 1 && WellFormed(v) && q in Extract(v, path, size) && q.op.Set?
    ensures Describes(q, v, path)
    ensures forall a :: a in Extract(v, path, size) && MustPrecede(q, a) ==> a.priority <= q.priority
    ensures Ranked(q, OwnPriority(q, v, path), Extract(v, path, size))
  {
    ExtractDescribes(v, path, size, q);
    ExtractOrdered(v, path, size);
    SetRanked(v, path, size, q);
  }

  lemma {:induction false} SetRanked(v: Json, path: Path, size: nat, q: Patch)
    requires size >= 1 && WellFormed(v) && q in Extract(v, path, size) && q.op.Set?
    requires Describes(q, v, path)
    ensures Ranked(q, OwnPriority(q, v, path), Extract(v, path, size))
    decreases v
  {
    if v.Obj? {
      SetRankedFields(v.fields, |v.fields|, path, size, q);
    }
  }

  lemma {:induction false} SetRankedFields(fs: seq<Field>, n: nat, path: Path, size: nat, q: Patch)
    requires size >= 1 && n <= |fs| && WellFormed(Obj(fs)) && q in ExtractFields(fs, n, path, size) && q.op.Set?
    requires Describes(q, Obj(fs), path)
    ensures Ranked(q, OwnPriority(q, Obj(fs), path), ExtractFields(fs, n, path, size))
    decreases fs, n
  {
    hide ExtractField, Ranked;
    var rest, here := ExtractFields(fs, n - 1, path, size), ExtractField(fs[n - 1], path, size);
    if q in here {
      assert fs[n - 1] in fs;
      SetRankedField(fs, n - 1, path, size, q);
      RankedWider(q, OwnPriority(q, Obj(fs), path), here, rest + here);
    } else {
      SetRankedFields(fs, n - 1, path, size, q);
      RankedWider(q, OwnPriority(q, Obj(fs), path), rest, rest + here);
    }
  }

  lemma {:induction false} SetRankedField(fs: seq<Field>, i: nat, path: Path, size: nat, q: Patch)
    requires size >= 1 && i < |fs| && WellFormed(Obj(fs)) && q in ExtractField(fs[i], path, size) && q.op.Set?
    requires WellFormed(fs[i].value) && Describes(q, Obj(fs), path)
    ensures Ranked(q, OwnPriority(q, Obj(fs), path), ExtractField(fs[i], path, size))
    decreases fs, 0, i
  {
    var f := fs[i];
    var fieldPath := path + [f.key];
    var children := Extract(f.value, fieldPath, size);
    ExtractFieldDescribes(f, path, size, q);
    LiftDescribes(q, fs, i, path);
    if q in children {
      ExtractDescribes(f.value, fieldPath, size, q);
      assert f in fs;
      SetRanked(f.value, fieldPath, size, q);
      RankedWider(q, OwnPriority(q, f.value, fieldPath), children, ExtractField(f, path, size));
    } else {
      HeadRanked(f, path, size, q);
    }
  }

  lemma {:induction false} HeadRanked(f: Field, path: Path, size: nat, q: Patch)
    requires size >= 1 && Encodable(f.key) && WellFormed(f.value) && q == ExtractField(f, path, size)[0]
    ensures Ranked(q, FieldPriority(f.key, f.value), ExtractField(f, path, size))
  {
    var fieldPath := path + [f.key];
    var children := Extract(f.value, fieldPath, size);
    if q.priority != FieldPriority(f.key, f.value) {
      var a :| a in children && a.op.Append? && a.priority == q.priority;
      ExtractDescribes(f.value, fieldPath, size, a);
      assert a in ExtractField(f, path, size) && MustPrecede(q, a);
    }
  }

  ghost predicate OccursAt(part: string, s: string, i: nat) {
    i + |part| <= |s| && s[i..i + |part|] == part
  }

  /** `part` occurs in `s`. */
  ghost predicate Occurs(part: string, s: string) {
    exists i: nat :: OccursAt(part, s, i)
  }

  lemma {:induction false} ContainsIff(s: string, part: string)
    ensures Contains(s, part) <==> Occurs(part, s)
  {
    if part <= s {
      assert OccursAt(part, s, 0);
    } else if s != [] {
      ContainsIff(s[1..], part);
      if Occurs(part, s[1..]) {
        var i: nat :| OccursAt(part, s[1..], i);
        OccursShift(part, s, i);
      }
      if Occurs(part, s) {
        var i: nat :| OccursAt(part, s, i);
        OccursShift(part, s, i - 1);
      }
    }
  }

  lemma OccursShift(part: string, s: string, i: nat)
    requires s != []
    ensures OccursAt(part, s[1..], i) <==> OccursAt(part, s, i + 1)
  {
    if i + 1 + |part| <= |s| {
      assert s[1..][i..i + |part|] == s[i + 1..i + 1 + |part|];
    }
  }

  /** The keys that decide a priority outright, and what decides the rest. */
  lemma {:induction false} FieldPriorityTable(key: string, value: Json)
    ensures var identity := key in {"id", "uuid", "status", "type", "kind"};
            var naming := key in {"name", "title", "label", "email", "username"};
            var figures := Occurs("analytics", key) || Occurs("stats", key) || Occurs("meta", key);
            var records := key in {"reviews", "comments", "logs", "history"};
            var plain := !identity && !naming && !figures && !records;
            var longText := value.Str? && |value.s| > 1000;
            var longArray := value.Arr? && |value.items| > 100;
            && (FieldPriority(key, value) == 100 <==> identity)
            && (FieldPriority(key, value) == 80 <==> naming)
            && (FieldPriority(key, value) == 50 <==> plain && !longText && !longArray)
            && (FieldPriority(key, value) == 25 <==> !identity && !naming && (figures || (plain && longText)))
            && (FieldPriority(key, value) == 10 <==>
                  !identity && !naming && !figures && (records || (plain && longArray)))
  {
    ContainsIff(key, "analytics");
    ContainsIff(key, "stats");
    ContainsIff(key, "meta");
    Disjoint(key);
  }

  lemma Disjoint(key: string)
    ensures key in {"id", "uuid", "status", "type", "kind"} ==>
              key !in {"name", "title", "label", "email", "username"}
  {
    assert |"id"| == 2 && |"uuid"| == 4 && |"status"| == 6 && |"type"| == 4 && |"kind"| == 4;
    assert |"name"| == 4 && |"title"| == 5 && |"label"| == 5 && |"email"| == 5 && |"username"| == 8;
    assert "uuid"[0] != "name"[0] && "type"[0] != "name"[0] && "kind"[0] != "name"[0];
  }

  /** Every append of one array has the array's priority: background for a long array or one of
      records, medium for any other. */
  lemma {:induction false} AppendPriorityTable(v: Json, path: Path, size: nat, q: Patch)
    requires size >= 1 && WellFormed(v) && q in Extract(v, path, size) && q.op.Append?
    ensures Describes(q, v, path)
    ensures var n := |Resolve(v, q.path[|path|..]).value.items|;
            var records := q.path != [] && q.path[|q.path| - 1] in {"reviews", "comments", "logs"};
            q.priority == if n > 50 || records then 10 else 50
  {
    ExtractDescribes(v, path, size, q);
  }

  // ---------------------------------------------------------------- skeletons

  /** A skeleton keeps the kind of every value but text, which it shows as null, and says nothing
      of its content. */
  lemma {:induction false} SkeletonShows(v: Json)
    ensures Blank(Placeholder(v))
    ensures match v
            case Obj(fs) =>
              && Placeholder(v).Obj? && |Placeholder(v).fields| == |fs|
              && forall i :: 0 <= i < |fs| ==> Placeholder(v).fields[i] == Field(fs[i].key, Placeholder(fs[i].value))
            case Arr(_) => Placeholder(v) == Arr([])
            case Num(_) => Placeholder(v) == Num(Int(0))
            case Bool(_) => Placeholder(v) == Bool(false)
            case Str(_) => Placeholder(v) == Null
            case Null => Placeholder(v) == Null
    ensures GenerateSkeleton(v) == if v.Obj? || v.Arr? then Placeholder(v) else Null
  {
    if v.Obj? {
      forall f | f in Placeholder(v).fields ensures Blank(f.value) {
        var i :| 0 <= i < |v.fields| && f == Placeholder(v).fields[i];
        SkeletonShows(v.fields[i].value);
      }
    }
  }

  // ---------------------------------------------------------------- root keys

  /** The text under the only key of a document comes back exactly when the key can stand in a path:
      it is not empty and holds no dot and no bracket. */
  lemma {:induction false} RootKeyComesBackIff(key: string, text: string, size: nat, frames: seq<Frame>)
    requires size >= 1 && IsPlan(frames, Obj([Field(key, Str(text))]), size)
    ensures ApplyFrames(Null, frames).state == Obj([Field(key, Str(text))])
       <==> key != "" && '.' !in key && '[' !in key && ']' !in key
  {
    var doc := Obj([Field(key, Str(text))]);
    assert doc.fields[0] in doc.fields;
    PlanRoundTripIff(doc, size, frames);
  }
}

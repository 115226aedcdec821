/** The priority streamer: it turns a document into a skeleton frame, batches of patches
    in descending priority, and a completion frame. */
module PriorityPlan {
  import opened Json
  import opened Reconstruction

  const CRITICAL: nat := 100
  const HIGH: nat := 80
  const MEDIUM: nat := 50
  const LOW: nat := 25
  const BACKGROUND: nat := 10

  // ---------------------------------------------------------------- skeletons

  /** The placeholder a skeleton shows for a value that is an object field. */
  function Placeholder(v: Json): Json {
    match v
    case Arr(_) => Arr([])
    case Obj(fs) => Obj(seq(|fs|, i requires 0 <= i < |fs| => Field(fs[i].key, Placeholder(fs[i].value))))
    case Num(_) => Num(Int(0))
    case Bool(_) => Bool(false)
    case Str(_) => Null
    case Null => Null
  }

  /** The skeleton of a whole document: a scalar root has no placeholder of its own. */
  function GenerateSkeleton(v: Json): Json {
    if v.Obj? || v.Arr? then Placeholder(v) else Null
  }

  /** A copy of `v` in which every array reachable through encodable keys is empty. */
  function SkeletonizeArrays(v: Json): Json {
    match v
    case Arr(_) => Arr([])
    case Obj(fs) =>
      Obj(seq(|fs|, i requires 0 <= i < |fs| =>
        Field(fs[i].key, if Encodable(fs[i].key) then SkeletonizeArrays(fs[i].value) else fs[i].value)))
    case _ => v
  }

  // ---------------------------------------------------------------- priorities

  predicate Contains(s: string, part: string) {
    part <= s || (s != [] && Contains(s[1..], part))
  }

  function FieldPriority(key: string, value: Json): nat {
    if key in {"id", "uuid", "status", "type", "kind"} then CRITICAL
    else if key in {"name", "title", "label", "email", "username"} then HIGH
    else if Contains(key, "analytics") || Contains(key, "stats") || Contains(key, "meta") then LOW
    else if key in {"reviews", "comments", "logs", "history"} then BACKGROUND
    else match value
      case Arr(items) => if |items| > 100 then BACKGROUND else MEDIUM
      case Str(s) => if |s| > 1000 then LOW else MEDIUM
      case _ => MEDIUM
  }

  function ArrayPriority(path: Path, items: seq<Json>): nat {
    if |items| > 50 then BACKGROUND
    else if path != [] && path[|path| - 1] in {"reviews", "comments", "logs"} then BACKGROUND
    else MEDIUM
  }

  // ---------------------------------------------------------------- extraction

  /** Consecutive slices of at most `size` elements. */
  function Chunks(items: seq<Json>, size: nat): seq<seq<Json>>
    requires size >= 1
    decreases |items|
  {
    if items == [] then []
    else if |items| <= size then [items]
    else [items[..size]] + Chunks(items[size..], size)
  }

  function AppendPatches(path: Path, chunks: seq<seq<Json>>, priority: nat): seq<Patch> {
    seq(|chunks|, i requires 0 <= i < |chunks| => Patch(path, Append(chunks[i]), priority))
  }

  /** The append patches of one array. */
  function ArrayPatches(path: Path, items: seq<Json>, maxPatchSize: nat): seq<Patch>
    requires maxPatchSize >= 1 || |items| <= 10
  {
    if |items| > 10 then AppendPatches(path, Chunks(items, maxPatchSize), ArrayPriority(path, items))
    else if items != [] then [Patch(path, Append(items), ArrayPriority(path, items))]
    else []
  }

  /** `own`, raised to the highest priority of an append among `ps`. */
  function Hoist(own: nat, ps: seq<Patch>): (r: nat)
    ensures own <= r
    ensures forall q :: q in ps && q.op.Append? ==> q.priority <= r
    ensures r == own || exists q :: q in ps && q.op.Append? && q.priority == r
  {
    if ps == [] then own
    else
      var q := ps[|ps| - 1];
      var r := Hoist(own, ps[..|ps| - 1]);
      assert ps == ps[..|ps| - 1] + [q];
      if q.op.Append? && q.priority > r then q.priority else r
  }

  /** An array that has to be cut into chunks is reachable; a chunk size of zero then panics. */
  predicate NeedsChunks(v: Json) {
    match v
    case Arr(items) => |items| > 10
    case Obj(fs) => exists f :: f in fs && Encodable(f.key) && NeedsChunks(f.value)
    case _ => false
  }

  lemma FieldNeedsNoChunks(fs: seq<Field>, i: nat)
    requires i < |fs|
    ensures !NeedsChunks(Obj(fs)) ==> !Encodable(fs[i].key) || !NeedsChunks(fs[i].value)
  {
    assert fs[i] in fs;
  }

  function Extract(v: Json, path: Path, size: nat): seq<Patch>
    requires size >= 1
    decreases v
  {
    match v
    case Obj(fs) => ExtractFields(fs, |fs|, path, size)
    case Arr(items) => ArrayPatches(path, items, size)
    case _ => []
  }

  /** Patches of the first `n` fields: each encodable field contributes its set, then its subtree. */
  function ExtractFields(fs: seq<Field>, n: nat, path: Path, size: nat): seq<Patch>
    requires size >= 1 && n <= |fs|
    decreases fs, n
  {
    if n == 0 then []
    else ExtractFields(fs, n - 1, path, size) + ExtractField(fs[n - 1], path, size)
  }

  function ExtractField(f: Field, path: Path, size: nat): seq<Patch>
    requires size >= 1
    decreases f
  {
    if !Encodable(f.key) then []
    else
      var fieldPath := path + [f.key];
      var children := Extract(f.value, fieldPath, size);
      [Patch(fieldPath, Set(SkeletonizeArrays(f.value)), Hoist(FieldPriority(f.key, f.value), children))]
      + children
  }

  // ---------------------------------------------------------------- stable sort

  /** Insert before the first patch that does not outrank `x`. */
  function InsertSorted(x: Patch, ps: seq<Patch>): seq<Patch> {
    if ps == [] || ps[0].priority <= x.priority then [x] + ps
    else [ps[0]] + InsertSorted(x, ps[1..])
  }

  /** Descending priority, ties in the given order. */
  function StableSort(ps: seq<Patch>): seq<Patch> {
    if ps == [] then [] else InsertSorted(ps[0], StableSort(ps[1..]))
  }

  // ---------------------------------------------------------------- the streamer

  function Flatten(frames: seq<Frame>): seq<Patch> {
    if frames == [] then []
    else (match frames[0] case Patches(ps, _) => ps case _ => []) + Flatten(frames[1..])
  }

  lemma {:induction false} FlattenSnoc(frames: seq<Frame>, f: Frame)
    requires f.Patches?
    ensures Flatten(frames + [f]) == Flatten(frames) + f.patches
  {
    if frames != [] {
      assert (frames + [f])[1..] == frames[1..] + [f];
      FlattenSnoc(frames[1..], f);
    }
  }

  ghost predicate GoodBatch(f: Frame, size: nat) {
    f.Patches? && 1 <= |f.patches| <= size && forall p :: p in f.patches ==> p.priority == f.priority
  }

  /** A batch that another of the same priority follows is full. */
  ghost predicate Maximal(f: Frame, next: Frame, size: nat) {
    f.Patches? && next.Patches? && f.priority == next.priority ==> |f.patches| == size
  }

  /** Batches are uniform and as large as they can be. */
  ghost predicate GoodBatches(batches: seq<Frame>, size: nat) {
    && (forall k :: 0 <= k < |batches| ==> GoodBatch(batches[k], size))
    && (forall j, k :: 0 <= j && k == j + 1 < |batches| ==> Maximal(batches[j], batches[k], size))
  }

  /** A batch is being filled: `done` is what the closed batches and this one hold. */
  ghost predicate Filling(batches: seq<Frame>, current: seq<Patch>, priority: nat, size: nat, done: seq<Patch>) {
    && GoodBatches(batches, size) && Flatten(batches) + current == done
    && 1 <= |current| <= size && (forall p :: p in current ==> p.priority == priority)
    && (batches != [] ==> Maximal(batches[|batches| - 1], Patches(current, priority), size))
  }

  /** Between two patches: a batch is being filled and has room, or the last one was closed full. */
  ghost predicate Between(batches: seq<Frame>, current: seq<Patch>, priority: nat, size: nat, done: seq<Patch>) {
    if current != [] then Filling(batches, current, priority, size, done) && |current| < size
    else
      && GoodBatches(batches, size) && Flatten(batches) == done
      && (batches != [] ==> |batches[|batches| - 1].patches| == size)
  }

  lemma {:induction false} CloseBatch(
    batches: seq<Frame>, current: seq<Patch>, priority: nat, size: nat, done: seq<Patch>)
    requires Filling(batches, current, priority, size, done)
    ensures var closed := batches + [Patches(current, priority)];
            && GoodBatches(closed, size) && Flatten(closed) == done
            && (|current| == size ==> Between(closed, [], priority, size, done))
  {
    FlattenSnoc(batches, Patches(current, priority));
  }

  lemma BatchRoom(batches: seq<Frame>, current: seq<Patch>, priority: nat, size: nat, done: seq<Patch>)
    requires Filling(batches, current, priority, size, done)
    ensures 1 <= |current| <= size
    ensures |current| < size ==> Between(batches, current, priority, size, done)
  {
  }

  /** A patch of another priority closes the batch and starts the next. */
  lemma {:induction false} ChangePriority(
    batches: seq<Frame>, current: seq<Patch>, priority: nat, patch: Patch, size: nat, done: seq<Patch>)
    requires current != [] && Between(batches, current, priority, size, done) && patch.priority != priority
    ensures Filling(batches + [Patches(current, priority)], [patch], patch.priority, size, done + [patch])
  {
    CloseBatch(batches, current, priority, size, done);
  }

  lemma {:induction false} GrowBatch(
    batches: seq<Frame>, current: seq<Patch>, priority: nat, patch: Patch, size: nat, done: seq<Patch>)
    requires size >= 1 && Between(batches, current, priority, size, done)
    requires current == [] || patch.priority == priority
    ensures Filling(batches, current + [patch], patch.priority, size, done + [patch])
  {
    assert Flatten(batches) + (current + [patch]) == Flatten(batches) + current + [patch];
    if current == [] {
      assert Flatten(batches) + current == Flatten(batches) && current + [patch] == [patch];
    }
  }

  /** Skeleton first, then good batches of the sorted patches, then completion. */
  ghost predicate IsPlan(frames: seq<Frame>, json: Json, size: nat)
    requires size >= 1
  {
    && |frames| >= 2
    && frames[0] == Skeleton(GenerateSkeleton(json))
    && frames[|frames| - 1] == Complete
    && GoodBatches(frames[1..|frames| - 1], size)
    && Flatten(frames[1..|frames| - 1]) == StableSort(Extract(json, [], size))
  }

  class PriorityStreamer {
    const maxPatchSize: nat

    constructor (maxPatchSize: nat)
      ensures this.maxPatchSize == maxPatchSize
    {
      this.maxPatchSize := maxPatchSize;
    }

    /** The size batches and chunks really have: with a limit of zero each patch is a batch. */
    function BatchSize(): (size: nat)
      ensures size >= 1
    {
      if maxPatchSize == 0 then 1 else maxPatchSize
    }

    /** Append the patches of `v` to `patches`. */
    method ExtractPatches(v: Json, path: Path, patches: seq<Patch>) returns (out: seq<Patch>)
      requires maxPatchSize >= 1 || !NeedsChunks(v)
      ensures out == patches + Extract(v, path, BatchSize())
      decreases v
    {
      match v
      case Obj(fs) => out := ExtractFromFields(fs, path, patches);
      case Arr(items) => out := patches + ArrayPatches(path, items, maxPatchSize);
      case _ => out := patches;
    }

    method ExtractFromFields(fs: seq<Field>, path: Path, patches: seq<Patch>) returns (out: seq<Patch>)
      requires maxPatchSize >= 1 || !NeedsChunks(Obj(fs))
      ensures out == patches + ExtractFields(fs, |fs|, path, BatchSize())
      decreases fs
    {
      hide ExtractField, NeedsChunks, Extract;
      out := patches;
      for i := 0 to |fs|
        invariant out == patches + ExtractFields(fs, i, path, BatchSize())
      {
        ghost var before := ExtractFields(fs, i, path, BatchSize());
        ghost var here := ExtractField(fs[i], path, BatchSize());
        FieldNeedsNoChunks(fs, i);
        assert patches + before + here == patches + (before + here);
        out := ExtractFromField(fs[i], path, out);
      }
    }

    /** A field whose key no path can hold is skipped; any other gives its set, then its subtree. */
    method ExtractFromField(f: Field, path: Path, patches: seq<Patch>) returns (out: seq<Patch>)
      requires maxPatchSize >= 1 || !Encodable(f.key) || !NeedsChunks(f.value)
      ensures out == patches + ExtractField(f, path, BatchSize())
      decreases f
    {
      hide NeedsChunks, Hoist, Extract, SkeletonizeArrays, FieldPriority;
      out := patches;
      if Encodable(f.key) {
        var fieldPath := path + [f.key];
        var own := FieldPriority(f.key, f.value);
        var children := ExtractPatches(f.value, fieldPath, []);
        var priority := Hoist(own, children);
        out := out + [Patch(fieldPath, Set(SkeletonizeArrays(f.value)), priority)];
        out := out + children;
      }
    }

    /** Group the sorted patches into frames. */
    method Batch(patches: seq<Patch>) returns (batches: seq<Frame>)
      ensures GoodBatches(batches, BatchSize())
      ensures Flatten(batches) == patches
    {
      batches := [];
      var currentPriority := CRITICAL;
      var currentBatch: seq<Patch> := [];
      for i := 0 to |patches|
        invariant Between(batches, currentBatch, currentPriority, BatchSize(), patches[..i])
      {
        hide Between, Filling, GoodBatches, Flatten;
        var patch := patches[i];
        assert patches[..i + 1] == patches[..i] + [patch];
        if patch.priority != currentPriority && currentBatch != [] {
          ChangePriority(batches, currentBatch, currentPriority, patch, BatchSize(), patches[..i]);
          batches := batches + [Patches(currentBatch, currentPriority)];
          currentBatch := [];
        } else {
          GrowBatch(batches, currentBatch, currentPriority, patch, BatchSize(), patches[..i]);
        }
        currentPriority := patch.priority;
        currentBatch := currentBatch + [patch];
        BatchRoom(batches, currentBatch, currentPriority, BatchSize(), patches[..i + 1]);
        if |currentBatch| >= maxPatchSize {
          CloseBatch(batches, currentBatch, currentPriority, BatchSize(), patches[..i + 1]);
          batches := batches + [Patches(currentBatch, currentPriority)];
          currentBatch := [];
        }
      }
      assert patches[..|patches|] == patches;
      if currentBatch != [] {
        CloseBatch(batches, currentBatch, currentPriority, BatchSize(), patches);
        batches := batches + [Patches(currentBatch, currentPriority)];
      }
    }

    /** The streaming plan: skeleton, uniform maximal batches of the sorted patches, completion. */
    method Analyze(json: Json) returns (frames: seq<Frame>)
      requires maxPatchSize >= 1 || !NeedsChunks(json)
      ensures IsPlan(frames, json, BatchSize())
    {
      var extracted := ExtractPatches(json, [], []);
      assert extracted == Extract(json, [], BatchSize());
      var patches := StableSort(extracted);
      var batches := Batch(patches);
      frames := [Skeleton(GenerateSkeleton(json))] + batches + [Complete];
      assert frames[1..|frames| - 1] == batches;
    }
  }
}

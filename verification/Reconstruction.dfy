/** Paths, patches, frames and the client-side reconstructor that applies them. */
module Reconstruction {
  import opened Json
  import Text

  type Path = seq<string>

  /** A key can be a path segment iff it is non-empty and holds no `.`, `[` or `]`. */
  predicate Encodable(key: string) {
    key != "" && '.' !in key && '[' !in key && ']' !in key
  }

  datatype Operation =
    | Set(value: Json)
    | Append(values: seq<Json>)
    | Replace(replacement: Json)
    | Remove

  datatype Patch = Patch(path: Path, op: Operation, priority: nat)

  datatype Frame =
    | Skeleton(data: Json)
    | Patches(patches: seq<Patch>, priority: nat)
    | Complete

  /** The document after an operation; `ok` is false when the operation was refused, and
      then `state` is the document as the refusal left it. */
  datatype Applied = Applied(state: Json, ok: bool)

  function Refused(state: Json): Applied {
    Applied(state, false)
  }

  function Insert(fs: seq<Field>, key: string, value: Json): seq<Field> {
    var i := Find(fs, key);
    if i < |fs| then fs[i := Field(key, value)] else fs + [Field(key, value)]
  }

  /** Replace a child: an object field by name, or an existing array element by index. */
  function SetChild(parent: Json, key: string, value: Json): Applied {
    match parent
    case Obj(fs) => Applied(Obj(Insert(fs, key, value)), true)
    case Arr(items) =>
      var index := Text.ParseUnsigned(key);
      if index.Some? && index.value < |items| then Applied(Arr(items[index.value := value]), true)
      else Refused(parent)
    case _ => Refused(parent)
  }

  function RemoveChild(parent: Json, key: string): Applied {
    match parent
    case Obj(fs) =>
      var i := Find(fs, key);
      Applied(Obj(if i < |fs| then fs[..i] + fs[i + 1..] else fs), true)
    case Arr(items) =>
      var index := Text.ParseUnsigned(key);
      Applied(Arr(if index.Some? && index.value < |items|
                  then items[..index.value] + items[index.value + 1..] else items), true)
    case _ => Refused(parent)
  }

  /** What an operation does once navigation has reached its target's parent. */
  function AtParent(parent: Json, key: string, op: Operation): Applied {
    match op
    case Set(value) => SetChild(parent, key, value)
    case Replace(value) => SetChild(parent, key, value)
    case Remove => RemoveChild(parent, key)
    case Append(values) =>
      match parent
      case Obj(fs) =>
        var i := Find(fs, key);
        if i < |fs| && fs[i].value.Arr? then
          Applied(Obj(fs[i := Field(key, Arr(fs[i].value.items + values))]), true)
        else Refused(parent)
      case _ => Refused(parent)
  }

  function AtRoot(state: Json, op: Operation): Applied {
    match op
    case Set(value) => Applied(value, true)
    case Replace(value) => Applied(value, true)
    case Remove => Refused(state)
    case Append(values) => if state.Arr? then Applied(Arr(state.items + values), true) else Refused(state)
  }

  /** Apply one operation at a path, navigating through object keys. */
  function ApplyOp(state: Json, path: Path, op: Operation): (r: Applied)
    ensures !r.ok ==> r.state == state
    decreases |path|
  {
    if path == [] then AtRoot(state, op)
    else if |path| == 1 then AtParent(state, path[0], op)
    else if !state.Obj? then Refused(state)
    else
      var i := Find(state.fields, path[0]);
      if i == |state.fields| then Refused(state)
      else
        var inner := ApplyOp(state.fields[i].value, path[1..], op);
        if inner.ok then Applied(Obj(state.fields[i := Field(path[0], inner.state)]), true)
        else Refused(state)
  }

  // ---------------------------------------------------------------- paths with array positions

  /** A path segment: an object key, or an array position. */
  datatype Segment = Key(name: string) | Index(position: nat)

  /** The last key of a path, behind any trailing positions. */
  function LastKey(segments: seq<Segment>): Option<string> {
    if segments == [] then None
    else
      var last := segments[|segments| - 1];
      if last.Key? then Some(last.name) else LastKey(segments[..|segments| - 1])
  }

  /** Change the value the segments lead to; a step that leads nowhere is refused. */
  function Update(state: Json, segments: seq<Segment>, change: Json -> Applied): (r: Applied)
    requires forall v :: !change(v).ok ==> change(v).state == v
    ensures !r.ok ==> r.state == state
    decreases |segments|
  {
    if segments == [] then change(state)
    else
      match segments[0]
      case Key(name) =>
        if !state.Obj? || Find(state.fields, name) == |state.fields| then Refused(state)
        else
          var i := Find(state.fields, name);
          var inner := Update(state.fields[i].value, segments[1..], change);
          if inner.ok then Applied(Obj(state.fields[i := Field(name, inner.state)]), true) else Refused(state)
      case Index(position) =>
        if !state.Arr? || position >= |state.items| then Refused(state)
        else
          var inner := Update(state.items[position], segments[1..], change);
          if inner.ok then Applied(Arr(state.items[position := inner.state]), true) else Refused(state)
  }

  /** Apply one operation at any path: setting and removing go by the last key at the parent,
      appending goes to the value itself. */
  function ApplyAt(state: Json, segments: seq<Segment>, op: Operation): (r: Applied)
    ensures !r.ok ==> r.state == state
  {
    if op.Append? then Update(state, segments, v => AtRoot(v, op))
    else if segments == [] then AtRoot(state, op)
    else
      match LastKey(segments)
      case None => Refused(state)
      case Some(key) => Update(state, segments[..|segments| - 1], v => AtParent(v, key, op))
  }

  function Keys(path: Path): seq<Segment> {
    seq(|path|, i requires 0 <= i < |path| => Key(path[i]))
  }

  /** On paths of keys alone, which are all a plan uses, navigation is `ApplyOp`. */
  lemma {:induction false} KeyPathsAgree(state: Json, path: Path, op: Operation)
    ensures ApplyAt(state, Keys(path), op) == ApplyOp(state, path, op)
    decreases |path|
  {
    var ks := Keys(path);
    if |path| == 1 {
      assert ks == [Key(path[0])] && ks[1..] == [] && ks[..0] == [] && LastKey(ks) == Some(path[0]);
      if op.Append? && state.Obj? && Find(state.fields, path[0]) < |state.fields| {
        var v := state.fields[Find(state.fields, path[0])].value;
        assert Update(v, ks[1..], x => AtRoot(x, op)) == AtRoot(v, op);
      }
    } else if |path| > 1 {
      var n := |path| - 1;
      assert ks[1..] == Keys(path[1..]) && ks[..n][1..] == ks[1..][..n - 1];
      assert ks[n] == ks[1..][n - 1] && ks[..n][0] == Key(path[0]);
      if state.Obj? && Find(state.fields, path[0]) < |state.fields| {
        KeyPathsAgree(state.fields[Find(state.fields, path[0])].value, path[1..], op);
      }
    }
  }

  function ApplyPatch(state: Json, p: Patch): (r: Applied)
    ensures !r.ok ==> r.state == state
  {
    ApplyOp(state, p.path, p.op)
  }

  /** Apply patches left to right, stopping at the first refusal. */
  function ApplyPatches(state: Json, ps: seq<Patch>): Applied
    decreases |ps|
  {
    if ps == [] then Applied(state, true)
    else
      var r := ApplyPatch(state, ps[0]);
      if r.ok then ApplyPatches(r.state, ps[1..]) else r
  }

  function ApplyFrame(state: Json, f: Frame): Applied {
    match f
    case Skeleton(data) => Applied(data, true)
    case Patches(ps, _) => ApplyPatches(state, ps)
    case Complete => Applied(state, true)
  }

  function ApplyFrames(state: Json, fs: seq<Frame>): Applied
    decreases |fs|
  {
    if fs == [] then Applied(state, true)
    else
      var r := ApplyFrame(state, fs[0]);
      if r.ok then ApplyFrames(r.state, fs[1..]) else r
  }

  /** Frames taken off the queue: all of them, or those up to and including the first refused. */
  function Consumed(state: Json, fs: seq<Frame>): (n: nat)
    ensures n <= |fs|
    decreases |fs|
  {
    if fs == [] then 0
    else
      var r := ApplyFrame(state, fs[0]);
      if r.ok then 1 + Consumed(r.state, fs[1..]) else 1
  }

  lemma {:induction false} ApplyPatchesConcat(state: Json, xs: seq<Patch>, ys: seq<Patch>)
    ensures ApplyPatches(state, xs + ys) ==
            var r := ApplyPatches(state, xs); if r.ok then ApplyPatches(r.state, ys) else r
    decreases |xs|
  {
    if xs == [] {
      assert xs + ys == ys;
    } else {
      assert (xs + ys)[1..] == xs[1..] + ys;
      var r := ApplyPatch(state, xs[0]);
      if r.ok {
        ApplyPatchesConcat(r.state, xs[1..], ys);
      }
    }
  }

  /** The reconstruction engine: a queue of frames and the document built so far. */
  class JsonReconstructor {
    var currentState: Json
    var frameQueue: seq<Frame>
    var isComplete: bool

    constructor ()
      ensures currentState == Null && frameQueue == [] && !isComplete
    {
      currentState, frameQueue, isComplete := Null, [], false;
    }

    method AddFrame(frame: Frame)
      modifies this`frameQueue
      ensures frameQueue == old(frameQueue) + [frame]
    {
      frameQueue := frameQueue + [frame];
    }

    method ProcessFrame(frame: Frame) returns (ok: bool)
      modifies this`currentState, this`isComplete
      ensures Applied(currentState, ok) == ApplyFrame(old(currentState), frame)
      ensures isComplete == (old(isComplete) || frame.Complete?)
    {
      match frame
      case Skeleton(data) =>
        currentState := data;
        ok := true;
      case Patches(patches, _) =>
        var i := 0;
        while i < |patches|
          invariant 0 <= i <= |patches|
          invariant ApplyPatches(old(currentState), patches) == ApplyPatches(currentState, patches[i..])
          invariant isComplete == old(isComplete)
        {
          var r := ApplyPatch(currentState, patches[i]);
          assert patches[i..][1..] == patches[i + 1..];
          if !r.ok {
            return false;
          }
          currentState := r.state;
          i := i + 1;
        }
        ok := true;
      case Complete =>
        isComplete := true;
        ok := true;
    }

    /** Frames behind a refused one stay queued. */
    method ProcessAllFrames() returns (ok: bool)
      modifies this
      ensures Applied(currentState, ok) == ApplyFrames(old(currentState), old(frameQueue))
      ensures frameQueue == old(frameQueue)[Consumed(old(currentState), old(frameQueue))..]
      ensures ok ==> frameQueue == []
      ensures isComplete == (old(isComplete)
                || Complete in old(frameQueue)[..Consumed(old(currentState), old(frameQueue))])
    {
      ghost var start, frames := currentState, frameQueue;
      ghost var i: nat := 0;
      while frameQueue != []
        invariant i <= |frames| && frameQueue == frames[i..]
        invariant ApplyFrames(start, frames) == ApplyFrames(currentState, frameQueue)
        invariant Consumed(start, frames) == i + Consumed(currentState, frameQueue)
        invariant isComplete == (old(isComplete) || Complete in frames[..i])
        decreases |frameQueue|
      {
        var frame := frameQueue[0];
        frameQueue := frameQueue[1..];
        assert frames[..i + 1] == frames[..i] + [frame];
        i := i + 1;
        var good := ProcessFrame(frame);
        if !good {
          return false;
        }
      }
      ok := true;
    }
  }
}

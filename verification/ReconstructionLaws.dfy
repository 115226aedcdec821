/** What an operation does to the value it addresses, and that it leaves every other value alone. */
module ReconstructionLaws {
  import opened Json
  import opened Reconstruction
  import Text

  /** The value a path leads to. */
  function Get(v: Json, segments: seq<Segment>): Option<Json>
    decreases |segments|
  {
    if segments == [] then Some(v)
    else
      match segments[0]
      case Key(name) =>
        if v.Obj? && Find(v.fields, name) < |v.fields| then Get(v.fields[Find(v.fields, name)].value, segments[1..])
        else None
      case Index(position) =>
        if v.Arr? && position < |v.items| then Get(v.items[position], segments[1..]) else None
  }

  /** The paths part: neither leads through the other. */
  predicate Diverges(a: seq<Segment>, b: seq<Segment>) {
    a != [] && b != [] && (a[0] != b[0] || Diverges(a[1..], b[1..]))
  }

  lemma {:induction false} GetConcat(v: Json, a: seq<Segment>, b: seq<Segment>)
    ensures Get(v, a + b) == if Get(v, a).Some? then Get(Get(v, a).value, b) else None
    decreases |a|
  {
    if a == [] {
      assert a + b == b;
    } else {
      assert (a + b)[1..] == a[1..] + b;
      match a[0]
      case Key(name) =>
        if v.Obj? && Find(v.fields, name) < |v.fields| {
          GetConcat(v.fields[Find(v.fields, name)].value, a[1..], b);
        }
      case Index(position) =>
        if v.Arr? && position < |v.items| {
          GetConcat(v.items[position], a[1..], b);
        }
    }
  }

  /** Replacing a field's value is found under its key, and other keys find what they found. */
  lemma {:induction false} FindReplaced(fs: seq<Field>, name: string, value: Json, other: string)
    requires Find(fs, name) < |fs|
    ensures Find(fs[Find(fs, name) := Field(name, value)], other) == Find(fs, other)
  {
    var changed := fs[Find(fs, name) := Field(name, value)];
    assert forall i :: 0 <= i < |fs| ==> changed[i].key == fs[i].key;
    var a, b := Find(changed, other), Find(fs, other);
    assert a < |fs| ==> fs[a].key == other;
    assert b < |fs| ==> changed[b].key == other;
  }

  /** An update changes the value it leads to, as `change` says, and no value on a diverging path. */
  lemma {:induction false} UpdateLaw(v: Json, segments: seq<Segment>, change: Json -> Applied, other: seq<Segment>)
    requires forall x :: !change(x).ok ==> change(x).state == x
    ensures var r, at := Update(v, segments, change), Get(v, segments);
            && (r.ok <==> at.Some? && change(at.value).ok)
            && (r.ok ==> Get(r.state, segments) == Some(change(at.value).state))
            && (Diverges(segments, other) ==> Get(r.state, other) == Get(v, other))
    decreases |segments|
  {
    if segments != [] {
      match segments[0]
      case Key(name) =>
        if v.Obj? && Find(v.fields, name) < |v.fields| {
          UpdateField(v.fields, name, segments, change, other);
        }
      case Index(position) =>
        if v.Arr? && position < |v.items| {
          UpdateLaw(v.items[position], segments[1..], change, if other == [] then [] else other[1..]);
        }
    }
  }

  lemma {:induction false} UpdateField(
    fs: seq<Field>, name: string, segments: seq<Segment>, change: Json -> Applied, other: seq<Segment>)
    requires forall x :: !change(x).ok ==> change(x).state == x
    requires segments != [] && segments[0] == Key(name) && Find(fs, name) < |fs|
    ensures var r, at := Update(Obj(fs), segments, change), Get(Obj(fs), segments);
            && (r.ok <==> at.Some? && change(at.value).ok)
            && (r.ok ==> Get(r.state, segments) == Some(change(at.value).state))
            && (Diverges(segments, other) ==> Get(r.state, other) == Get(Obj(fs), other))
    decreases |segments|, 0
  {
    var i := Find(fs, name);
    var inner := Update(fs[i].value, segments[1..], change);
    UpdateLaw(fs[i].value, segments[1..], change, if other == [] then [] else other[1..]);
    FindReplaced(fs, name, inner.state, name);
    if other != [] && other[0].Key? {
      FindReplaced(fs, name, inner.state, other[0].name);
    }
  }

  // ---------------------------------------------------------------- append

  /** Appending succeeds exactly on an array, which then ends in the new values. */
  lemma {:induction false} AppendLaw(state: Json, path: seq<Segment>, values: seq<Json>, other: seq<Segment>)
    ensures var r, at := ApplyAt(state, path, Append(values)), Get(state, path);
            && (r.ok <==> at.Some? && at.value.Arr?)
            && (r.ok ==> Get(r.state, path) == Some(Arr(at.value.items + values)))
            && (Diverges(path, other) ==> Get(r.state, other) == Get(state, other))
  {
    UpdateLaw(state, path, v => AtRoot(v, Append(values)), other);
  }

  // ---------------------------------------------------------------- set

  lemma {:induction false} LastKeySnoc(parent: seq<Segment>, name: string)
    ensures LastKey(parent + [Key(name)]) == Some(name)
    ensures (parent + [Key(name)])[..|parent|] == parent
  {
  }

  lemma {:induction false} FindInserted(fs: seq<Field>, name: string, value: Json)
    ensures var changed := Insert(fs, name, value);
            && Find(changed, name) < |changed| && changed[Find(changed, name)].value == value
  {
    var changed := Insert(fs, name, value);
    var i := Find(fs, name);
    assert changed[i] == Field(name, value);
    assert forall j :: 0 <= j < i ==> changed[j] == fs[j];
  }

  lemma {:induction false} InsertElsewhere(fs: seq<Field>, name: string, value: Json, other: string)
    requires other != name
    ensures var changed := Insert(fs, name, value);
            var a, b := Find(changed, other), Find(fs, other);
            && (a < |changed| <==> b < |fs|) && (b < |fs| ==> changed[a] == fs[b])
  {
    var changed := Insert(fs, name, value);
    var a, b := Find(changed, other), Find(fs, other);
    assert a < |fs| && changed[a].key == other ==> fs[a].key == other;
    assert b < |fs| ==> changed[b] == fs[b];
  }

  /** Setting a key of an object: the key then holds the value, and every diverging path leads where
      it led. An array takes a key that spells a position it has. Anything else is refused. */
  lemma {:induction false} SetLaw(state: Json, parent: seq<Segment>, name: string, value: Json, replace: bool)
    ensures var op := if replace then Replace(value) else Set(value);
            var r, at := ApplyAt(state, parent + [Key(name)], op), Get(state, parent);
            var position := Text.ParseUnsigned(name);
            if at.Some? && at.value.Obj? then
              && r.ok && Get(r.state, parent + [Key(name)]) == Some(value)
              && forall other :: Diverges(parent + [Key(name)], other) ==> Get(r.state, other) == Get(state, other)
            else if at.Some? && at.value.Arr? && position.Some? && position.value < |at.value.items| then
              r.ok && Get(r.state, parent) == Some(Arr(at.value.items[position.value := value]))
            else !r.ok
  {
    var op := if replace then Replace(value) else Set(value);
    var at := Get(state, parent);
    hide Diverges;
    LastKeySnoc(parent, name);
    UpdateLaw(state, parent, v => AtParent(v, name, op), []);
    if at.Some? && at.value.Obj? {
      var r := ApplyAt(state, parent + [Key(name)], op);
      SetValue(state, parent, name, value, op);
      forall other | Diverges(parent + [Key(name)], other) ensures Get(r.state, other) == Get(state, other) {
        SetElsewhere(state, parent, name, value, op, other);
      }
    }
  }

  lemma {:induction false} SetValue(
    state: Json, parent: seq<Segment>, name: string, value: Json, op: Operation)
    requires op == Set(value) || op == Replace(value)
    requires Get(state, parent).Some? && Get(state, parent).value.Obj?
    ensures var r := ApplyAt(state, parent + [Key(name)], op);
            r.ok && Get(r.state, parent + [Key(name)]) == Some(value)
  {
    LastKeySnoc(parent, name);
    UpdateLaw(state, parent, v => AtParent(v, name, op), []);
    GetConcat(ApplyAt(state, parent + [Key(name)], op).state, parent, [Key(name)]);
    FindInserted(Get(state, parent).value.fields, name, value);
  }

  lemma {:induction false} SetElsewhere(
    state: Json, parent: seq<Segment>, name: string, value: Json, op: Operation, other: seq<Segment>)
    requires op == Set(value) || op == Replace(value)
    requires Get(state, parent).Some? && Get(state, parent).value.Obj? && Diverges(parent + [Key(name)], other)
    ensures Get(ApplyAt(state, parent + [Key(name)], op).state, other) == Get(state, other)
  {
    LastKeySnoc(parent, name);
    UpdateLaw(state, parent, v => AtParent(v, name, op), other);
    Parting(parent, Key(name), other);
    if !Diverges(parent, other) {
      var more := other[|parent|..];
      var fs := Get(state, parent).value.fields;
      assert other == parent + more;
      GetConcat(state, parent, more);
      GetConcat(ApplyAt(state, parent + [Key(name)], op).state, parent, more);
      if more[0].Key? {
        InsertElsewhere(fs, name, value, more[0].name);
      }
    }
  }

  /** A path that diverges from `parent` and one more step does so before that step or at it. */
  lemma {:induction false} Parting(parent: seq<Segment>, last: Segment, other: seq<Segment>)
    requires Diverges(parent + [last], other)
    ensures Diverges(parent, other) || (parent < other && other[|parent|] != last)
  {
    if parent != [] && parent[0] == other[0] {
      assert (parent + [last])[1..] == parent[1..] + [last];
      Parting(parent[1..], last, other[1..]);
      assert other == [other[0]] + other[1..];
    }
  }

  // ---------------------------------------------------------------- remove

  function Rest(fs: seq<Field>, i: nat): (rest: seq<Field>)
    requires i < |fs|
  {
    fs[..i] + fs[i + 1..]
  }

  lemma RestAt(fs: seq<Field>, i: nat, j: nat)
    requires i < |fs| && j < |Rest(fs, i)|
    ensures Rest(fs, i)[j] == fs[if j < i then j else j + 1]
  {
  }

  lemma {:induction false} RestDistinct(fs: seq<Field>, i: nat)
    requires i < |fs| && DistinctKeys(fs)
    ensures DistinctKeys(Rest(fs, i))
  {
    hide Rest;
    assert |Rest(fs, i)| == |fs| - 1 by { RestLength(fs, i); }
    forall j, k | 0 <= j < k < |Rest(fs, i)| ensures Rest(fs, i)[j].key != Rest(fs, i)[k].key {
      RestAt(fs, i, j);
      RestAt(fs, i, k);
    }
  }

  lemma RestLength(fs: seq<Field>, i: nat)
    requires i < |fs|
    ensures |Rest(fs, i)| == |fs| - 1
  {
  }

  /** A key other than the removed one is found where its field now is; the removed one is not found. */
  lemma {:induction false} FindRemoved(fs: seq<Field>, name: string, other: string)
    requires DistinctKeys(fs) && Find(fs, name) < |fs|
    ensures var rest := Rest(fs, Find(fs, name));
            var a, b := Find(rest, other), Find(fs, other);
            && (a < |rest| <==> b < |fs| && other != name)
            && (a < |rest| ==> rest[a] == fs[b])
  {
    var i, b := Find(fs, name), Find(fs, other);
    var rest := Rest(fs, i);
    var a := Find(rest, other);
    RestLength(fs, i);
    RestDistinct(fs, i);
    FoundBefore(fs, i, a);
    hide Rest;
    if b < |fs| && other != name {
      var p := if b < i then b else b - 1;
      RestAt(fs, i, p);
      FindDistinct(rest, p);
    }
  }

  lemma {:induction false} FoundBefore(fs: seq<Field>, i: nat, j: nat)
    requires DistinctKeys(fs) && i < |fs|
    ensures j < |Rest(fs, i)| ==> Find(fs, Rest(fs, i)[j].key) == if j < i then j else j + 1
  {
    if j < |Rest(fs, i)| {
      RestAt(fs, i, j);
      FindDistinct(fs, if j < i then j else j + 1);
    }
  }

  lemma {:induction false} KeyAfterRemoval(state: Json, parent: seq<Segment>, name: string, key: string)
    requires Get(state, parent).Some? && Get(state, parent).value.Obj?
    requires DistinctKeys(Get(state, parent).value.fields)
    ensures Get(ApplyAt(state, parent + [Key(name)], Remove).state, parent + [Key(key)])
            == if key == name then None else Get(state, parent + [Key(key)])
  {
    var fs := Get(state, parent).value.fields;
    LastKeySnoc(parent, name);
    UpdateLaw(state, parent, v => AtParent(v, name, Remove), []);
    GetConcat(state, parent, [Key(key)]);
    GetConcat(ApplyAt(state, parent + [Key(name)], Remove).state, parent, [Key(key)]);
    if Find(fs, name) < |fs| {
      FindRemoved(fs, name, key);
    }
  }

  /** Removing a key of an object: the key is gone, other keys stay. Removing a position an array has
      closes the gap; one it has not is ignored. Nothing is removed from a scalar. */
  lemma {:induction false} RemoveLaw(state: Json, parent: seq<Segment>, name: string)
    ensures var r, at := ApplyAt(state, parent + [Key(name)], Remove), Get(state, parent);
            var position := Text.ParseUnsigned(name);
            if at.Some? && at.value.Obj? then
              r.ok &&
              (DistinctKeys(at.value.fields) ==>
                 forall key :: Get(r.state, parent + [Key(key)]) ==
                               if key == name then None else Get(state, parent + [Key(key)]))
            else if at.Some? && at.value.Arr? then
              var items := at.value.items;
              r.ok && Get(r.state, parent) == Some(Arr(
                if position.Some? && position.value < |items|
                then items[..position.value] + items[position.value + 1..] else items))
            else !r.ok
    ensures forall other :: Diverges(parent, other) ==>
              Get(ApplyAt(state, parent + [Key(name)], Remove).state, other) == Get(state, other)
  {
    hide Diverges;
    LastKeySnoc(parent, name);
    var r, at := ApplyAt(state, parent + [Key(name)], Remove), Get(state, parent);
    UpdateLaw(state, parent, v => AtParent(v, name, Remove), []);
    forall other | Diverges(parent, other) ensures Get(r.state, other) == Get(state, other) {
      UpdateLaw(state, parent, v => AtParent(v, name, Remove), other);
    }
    if at.Some? && at.value.Obj? && DistinctKeys(at.value.fields) {
      forall key
        ensures Get(r.state, parent + [Key(key)]) == if key == name then None else Get(state, parent + [Key(key)])
      {
        KeyAfterRemoval(state, parent, name, key);
      }
    }
  }

  // ---------------------------------------------------------------- the root and positions

  /** The root can be replaced and appended to, never removed. */
  lemma RootLaw(state: Json, value: Json, values: seq<Json>)
    ensures ApplyAt(state, [], Set(value)) == Applied(value, true)
    ensures ApplyAt(state, [], Replace(value)) == Applied(value, true)
    ensures !ApplyAt(state, [], Remove).ok
    ensures ApplyAt(state, [], Append(values)).ok <==> state.Arr?
  {
  }

  /** Setting or removing at a position goes by the last key instead: the position is not looked at. */
  lemma {:induction false} PositionIgnored(
    state: Json, parent: seq<Segment>, name: string, position: nat, op: Operation)
    requires !op.Append?
    ensures ApplyAt(state, parent + [Key(name), Index(position)], op)
            == ApplyAt(state, parent + [Key(name), Key(name)], op)
  {
    var a, b := parent + [Key(name), Index(position)], parent + [Key(name), Key(name)];
    var n := |parent| + 1;
    assert a[..n] == parent + [Key(name)] == b[..n];
    LastKeySnoc(parent, name);
  }

  /** So an element of a named array cannot be set, although its path is legal. */
  lemma {:induction false} ElementNotSet(was: Json, value: Json)
    ensures var state := Obj([Field("a", Arr([was]))]);
            && Get(state, [Key("a"), Index(0)]) == Some(was)
            && !ApplyAt(state, [Key("a"), Index(0)], Set(value)).ok
  {
    var state := Obj([Field("a", Arr([was]))]);
    var path := [Key("a"), Index(0)];
    assert path[1..] == [Index(0)] && path[1..][1..] == [];
    assert Get(state, path) == Some(was);
    PositionIgnored(state, [], "a", 0, Set(value));
    assert [] + [Key("a"), Index(0)] == path;
    SetLaw(state, [Key("a")], "a", value, false);
    assert [Key("a")] + [Key("a")] == [] + [Key("a"), Key("a")];
    assert [Key("a")][1..] == [];
    assert "a"[0] in "a" && "a"[0] == 'a' && !Text.IsDigit('a');
  }
}

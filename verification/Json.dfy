/** JSON documents as the streaming and compression layers see them.

    A string is a sequence of UTF-8 code units, so `|s|` is the byte length the source
    measures.  An object is a sequence of fields in iteration order. */
module Json {

  datatype Number = Int(i: int) | Float(r: real)

  datatype Json =
    | Null
    | Bool(b: bool)
    | Num(n: Number)
    | Str(s: string)
    | Arr(items: seq<Json>)
    | Obj(fields: seq<Field>)

  datatype Field = Field(key: string, value: Json)

  datatype Option<+T> = None | Some(value: T)

  /** The keys of one object are pairwise distinct. */
  ghost predicate DistinctKeys(fs: seq<Field>) {
    forall i, j :: 0 <= i < j < |fs| ==> fs[i].key != fs[j].key
  }

  /** Every object of the document has distinct keys. */
  ghost predicate WellFormed(v: Json) {
    match v
    case Arr(items) => forall x :: x in items ==> WellFormed(x)
    case Obj(fs) => DistinctKeys(fs) && forall f :: f in fs ==> WellFormed(f.value)
    case _ => true
  }

  /** Position of the first field named `key`, or `|fs|` when there is none. */
  function Find(fs: seq<Field>, key: string): (i: nat)
    ensures i <= |fs|
    ensures i < |fs| ==> fs[i].key == key
    ensures forall j :: 0 <= j < i ==> fs[j].key != key
  {
    if fs == [] then 0
    else if fs[0].key == key then 0
    else
      var r := Find(fs[1..], key);
      assert forall j :: 1 <= j < 1 + r ==> fs[j] == fs[1..][j - 1];
      1 + r
  }

  predicate HasKey(fs: seq<Field>, key: string) {
    Find(fs, key) < |fs|
  }

  lemma FindDistinct(fs: seq<Field>, i: nat)
    requires DistinctKeys(fs) && i < |fs|
    ensures Find(fs, fs[i].key) == i
  {
    var r := Find(fs, fs[i].key);
    assert r <= i;
  }
}

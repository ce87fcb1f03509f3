/** The values a request body, a query or a log entry is made of. */
module JsonValue {
  datatype Value =
    | Undefined
    | Null
    | Bool(b: bool)
    | Number(n: real)
    | Str(s: string)
    | Arr(items: seq<Value>)
    | Obj(entries: seq<Entry>)

  datatype Entry = Entry(key: string, value: Value)

  /** No object holds a key twice. */
  ghost predicate DistinctKeys(v: Value) {
    match v
    case Arr(items) => forall i :: 0 <= i < |items| ==> DistinctKeys(items[i])
    case Obj(entries) =>
      && (forall i :: 0 <= i < |entries| ==> DistinctKeys(entries[i].value))
      && (forall i, j :: 0 <= i < j < |entries| ==> entries[i].key != entries[j].key)
    case _ => true
  }

  /** `record[key] = value`: a present key keeps its place, a new one goes last. */
  function SetKey(entries: seq<Entry>, key: string, value: Value): (r: seq<Entry>)
    ensures (forall i :: 0 <= i < |entries| ==> entries[i].key != key) ==> r == entries + [Entry(key, value)]
  {
    if entries == [] then [Entry(key, value)]
    else if entries[0].key == key then [Entry(key, value)] + entries[1..]
    else
      assert forall i :: 0 <= i < |entries[1..]| ==> entries[1..][i] == entries[i + 1];
      [entries[0]] + SetKey(entries[1..], key, value)
  }

  /** The same tree, except that its string leaves may differ as `leaf` allows: same keys in the same order,
      same array lengths, same other leaves. */
  ghost predicate SameButStrings(a: Value, b: Value, leaf: (string, string) -> bool) {
    match a
    case Str(s) => b.Str? && leaf(s, b.s)
    case Arr(items) =>
      && b.Arr? && |b.items| == |items|
      && forall i :: 0 <= i < |items| ==> SameButStrings(items[i], b.items[i], leaf)
    case Obj(entries) =>
      && b.Obj? && |b.entries| == |entries|
      && (forall i :: 0 <= i < |entries| ==> b.entries[i].key == entries[i].key)
      && (forall i :: 0 <= i < |entries| ==> SameButStrings(entries[i].value, b.entries[i].value, leaf))
    case _ => b == a
  }

  /** Every string leaf replaced by its image. */
  function MapStrings(v: Value, f: string -> string): Value {
    match v
    case Str(s) => Str(f(s))
    case Arr(items) => Arr(seq(|items|, i requires 0 <= i < |items| => MapStrings(items[i], f)))
    case Obj(entries) =>
      Obj(seq(|entries|, i requires 0 <= i < |entries| => Entry(entries[i].key, MapStrings(entries[i].value, f))))
    case _ => v
  }
}

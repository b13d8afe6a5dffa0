/** The object trees that the JSON code builds, as values. */
module Values {
  import opened Bytes
  import Numbers

  /** A map keeps its entries in the order in which the keys were first set (src/map.c). */
  datatype V =
    | Null
    | Bool(b: bool)
    | Int(n: int)
    | Double(lexeme: Bytes)
    | Str(text: Bytes)
    | List(items: seq<V>)
    | Map(entries: seq<Entry>)

  datatype Entry = Entry(key: CString, value: V)

  /** Position of a key, `|entries|` when it is absent: the scan of `_node_by_key`. */
  function FindKey(entries: seq<Entry>, key: Bytes): (i: nat)
    ensures i <= |entries|
    ensures i < |entries| ==> entries[i].key == key
    ensures forall k :: 0 <= k < i ==> entries[k].key != key
  {
    if entries == [] || entries[0].key == key then 0 else 1 + FindKey(entries[1..], key)
  }

  /** `map_get` */
  function MapGet(entries: seq<Entry>, key: Bytes): Option<V> {
    var i := FindKey(entries, key);
    if i < |entries| then Some(entries[i].value) else None
  }

  /** `map_set`: a known key keeps its position. */
  function MapSet(entries: seq<Entry>, key: CString, value: V): seq<Entry> {
    var i := FindKey(entries, key);
    if i < |entries| then entries[i := Entry(key, value)] else entries + [Entry(key, value)]
  }

  /** `map_remove_key` */
  function MapRemove(entries: seq<Entry>, key: Bytes): seq<Entry> {
    var i := FindKey(entries, key);
    if i < |entries| then entries[..i] + entries[i + 1..] else entries
  }

  predicate DistinctKeys(entries: seq<Entry>) {
    forall i, j :: 0 <= i < j < |entries| ==> entries[i].key != entries[j].key
  }

  /** What the C types guarantee: integers fit `long`, maps hold a key once. */
  predicate WellFormed(v: V) {
    match v
    case Int(n) => Numbers.IsLong(n)
    case List(items) => forall i :: 0 <= i < |items| ==> WellFormed(items[i])
    case Map(entries) => DistinctKeys(entries) && forall i :: 0 <= i < |entries| ==> WellFormed(entries[i].value)
    case _ => true
  }

  predicate NoDoubles(v: V) {
    match v
    case Double(_) => false
    case List(items) => forall i :: 0 <= i < |items| ==> NoDoubles(items[i])
    case Map(entries) => forall i :: 0 <= i < |entries| ==> NoDoubles(entries[i].value)
    case _ => true
  }

  /** Keys that `map_to_cstr` may print raw. */
  predicate CleanKey(key: Bytes) {
    forall i :: 0 <= i < |key| ==> key[i] != '"' && key[i] != '\\'
  }

  predicate CleanKeys(v: V) {
    match v
    case List(items) => forall i :: 0 <= i < |items| ==> CleanKeys(items[i])
    case Map(entries) => forall i :: 0 <= i < |entries| ==> CleanKey(entries[i].key) && CleanKeys(entries[i].value)
    case _ => true
  }

  // ---- laws of maps --------------------------------------------------------------------

  lemma FindKeyIs(entries: seq<Entry>, key: Bytes, i: nat)
    requires i <= |entries|
    requires i < |entries| ==> entries[i].key == key
    requires forall k :: 0 <= k < i ==> entries[k].key != key
    ensures FindKey(entries, key) == i
  {
  }

  lemma MapSetGet(entries: seq<Entry>, key: CString, value: V, other: Bytes)
    requires DistinctKeys(entries)
    ensures DistinctKeys(MapSet(entries, key, value))
    ensures MapGet(MapSet(entries, key, value), other) ==
            if other == key then Some(value) else MapGet(entries, other)
  {
    var after := MapSet(entries, key, value);
    var i := FindKey(entries, key);
    if other == key {
      FindKeyIs(after, other, i);
    } else {
      var j := FindKey(entries, other);
      FindKeyIs(after, other, if j < |entries| then j else |after|);
    }
  }

  lemma MapRemovePlaces(entries: seq<Entry>, key: Bytes)
    ensures var rest := MapRemove(entries, key); var i := FindKey(entries, key);
            && |rest| == (if i < |entries| then |entries| - 1 else |entries|)
            && forall k :: 0 <= k < |rest| ==> rest[k] == entries[if k < i then k else k + 1]
  {
    hide FindKey;
  }

  lemma MapRemoveDistinct(entries: seq<Entry>, key: Bytes)
    requires DistinctKeys(entries)
    ensures DistinctKeys(MapRemove(entries, key))
  {
    hide MapRemove;
    hide FindKey;
    MapRemovePlaces(entries, key);
  }

  lemma MapRemoveGet(entries: seq<Entry>, key: Bytes, other: Bytes)
    requires DistinctKeys(entries)
    ensures DistinctKeys(MapRemove(entries, key))
    ensures MapGet(MapRemove(entries, key), other) ==
            if other == key then None else MapGet(entries, other)
  {
    hide MapRemove;
    hide FindKey;
    MapRemoveDistinct(entries, key);
    MapRemovePlaces(entries, key);
    var rest := MapRemove(entries, key);
    var i := FindKey(entries, key);
    if other == key {
      FindKeyIs(rest, other, |rest|);
    } else {
      var j := FindKey(entries, other);
      FindKeyIs(rest, other, if i < j then j - 1 else j);
    }
  }
}

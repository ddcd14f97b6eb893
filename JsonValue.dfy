/** The values the grammar builds.

    A JSON object is built with Kotlin's `mutableMapOf`, a LinkedHashMap:
    its entries keep the order in which their keys were first inserted, and
    `put` on a key already present replaces the value in place. The model
    keeps that map as a sequence of fields. */
module JsonValue {

  datatype Option<T> = None | Some(value: T)

  datatype Json =
    | JNull
    | JBool(b: bool)
    | JNumber(text: string)          // the matched number text; no conversion to double
    | JString(s: string)             // the raw text between the quotes, escapes undecoded
    | JArray(items: seq<Json>)
    | JObject(fields: seq<Field>)

  datatype Field = Field(key: string, value: Json)

  /** The keys of a sequence of fields. */
  function Keys(fields: seq<Field>): set<string> {
    if |fields| == 0 then {} else {fields[0].key} + Keys(fields[1..])
  }

  /** No key occurs twice. */
  predicate DistinctKeys(fields: seq<Field>) {
    |fields| == 0 || (fields[0].key !in Keys(fields[1..]) && DistinctKeys(fields[1..]))
  }

  /** A key is among the keys exactly when some field carries it. */
  lemma {:induction false} KeysAt(fields: seq<Field>, key: string)
    ensures key in Keys(fields) <==> exists i :: 0 <= i < |fields| && fields[i].key == key
  {
    if |fields| > 0 {
      KeysAt(fields[1..], key);
      if key in Keys(fields[1..]) {
        var i :| 0 <= i < |fields[1..]| && fields[1..][i].key == key;
        assert fields[i + 1].key == key;
      }
      if exists i :: 0 <= i < |fields| && fields[i].key == key {
        var i :| 0 <= i < |fields| && fields[i].key == key;
        if i > 0 {
          assert fields[1..][i - 1].key == key;
        }
      }
    }
  }

  /** DistinctKeys is the usual "no two positions share a key". */
  lemma {:induction false} DistinctKeysAt(fields: seq<Field>)
    ensures DistinctKeys(fields) <==>
      forall i, j :: 0 <= i < j < |fields| ==> fields[i].key != fields[j].key
  {
    if |fields| > 0 {
      var tail := fields[1..];
      DistinctKeysAt(tail);
      KeysAt(tail, fields[0].key);
      if DistinctKeys(fields) {
        forall i, j | 0 <= i < j < |fields| ensures fields[i].key != fields[j].key {
          assert fields[j] == tail[j - 1];
          if i > 0 {
            assert fields[i] == tail[i - 1];
          }
        }
      }
      if forall i, j :: 0 <= i < j < |fields| ==> fields[i].key != fields[j].key {
        forall i, j | 0 <= i < j < |tail| ensures tail[i].key != tail[j].key {
          assert tail[i] == fields[i + 1] && tail[j] == fields[j + 1];
        }
        forall j | 0 <= j < |tail| ensures tail[j].key != fields[0].key {
          assert tail[j] == fields[j + 1];
        }
      }
    }
  }

  /** `map[key]`: the value of the first field with that key. */
  function Get(fields: seq<Field>, key: string): (r: Option<Json>)
    ensures r.None? <==> key !in Keys(fields)
  {
    if |fields| == 0 then None
    else if fields[0].key == key then Some(fields[0].value)
    else Get(fields[1..], key)
  }

  /** Every object in the value has distinct keys, as a map's do. */
  predicate WellFormed(v: Json) {
    match v
    case JArray(items) => forall i :: 0 <= i < |items| ==> WellFormed(items[i])
    case JObject(fields) =>
      DistinctKeys(fields) && forall i :: 0 <= i < |fields| ==> WellFormed(fields[i].value)
    case _ => true
  }

  /** `LinkedHashMap.put`: a new key goes to the end, a present key keeps
      its place and gets the new value. */
  function Put(fields: seq<Field>, key: string, value: Json): (r: seq<Field>)
    ensures Keys(r) == Keys(fields) + {key}
    ensures Get(r, key) == Some(value)
    ensures forall k :: k != key ==> Get(r, k) == Get(fields, k)
    ensures key !in Keys(fields) ==> r == fields + [Field(key, value)]
    ensures forall f :: f in r ==> f in fields || f == Field(key, value)
    ensures DistinctKeys(fields) ==> DistinctKeys(r)
  {
    if |fields| == 0 then [Field(key, value)]
    else if fields[0].key == key then [Field(key, value)] + fields[1..]
    else
      var rest := Put(fields[1..], key, value);
      assert ([fields[0]] + rest)[1..] == rest;
      assert fields == [fields[0]] + fields[1..];
      [fields[0]] + rest
  }

  /** `forEach { put(it.key, it.value) }` over `entries`, starting from `acc`. */
  function PutAll(acc: seq<Field>, entries: seq<Field>): (r: seq<Field>)
    ensures Keys(r) == Keys(acc) + Keys(entries)
    ensures DistinctKeys(acc) ==> DistinctKeys(r)
    ensures forall f :: f in r ==> f in acc || f in entries
    ensures forall k :: k !in Keys(entries) ==> Get(r, k) == Get(acc, k)
    decreases |entries|
  {
    if |entries| == 0 then acc
    else
      var e := entries[0];
      PutAll(Put(acc, e.key, e.value), entries[1..])
  }

  /** The object the grammar builds from its entries: an empty map, then
      `put(key, value)` for each entry, left to right. */
  function BuildObject(entries: seq<Field>): (r: seq<Field>)
    ensures DistinctKeys(r)
    ensures Keys(r) == Keys(entries)
    ensures forall f :: f in r ==> f in entries
  {
    PutAll([], entries)
  }

  /** The built object holds only values of its entries, so well-formed
      entry values make a well-formed object. */
  lemma BuildObjectWellFormed(entries: seq<Field>)
    requires forall i :: 0 <= i < |entries| ==> WellFormed(entries[i].value)
    ensures WellFormed(JObject(BuildObject(entries)))
  {
    var fields := BuildObject(entries);
    forall i | 0 <= i < |fields| ensures WellFormed(fields[i].value) {
      assert fields[i] in fields;
      var j :| 0 <= j < |entries| && entries[j] == fields[i];
    }
  }

  /** With distinct keys, nothing is overwritten: the object holds the
      entries exactly, in their order. */
  lemma {:induction false} PutAllDistinct(acc: seq<Field>, entries: seq<Field>)
    requires DistinctKeys(entries)
    requires Keys(acc) !! Keys(entries)
    ensures PutAll(acc, entries) == acc + entries
    decreases |entries|
  {
    if |entries| > 0 {
      var e := entries[0];
      DistinctStep(acc, entries);
      PutAllDistinct(Put(acc, e.key, e.value), entries[1..]);
    }
  }

  /** Putting the first of distinct, fresh entries appends it, and the rest
      stay distinct and fresh. */
  lemma DistinctStep(acc: seq<Field>, entries: seq<Field>)
    requires |entries| > 0
    requires DistinctKeys(entries)
    requires Keys(acc) !! Keys(entries)
    ensures var e := entries[0];
      var acc' := Put(acc, e.key, e.value);
      && DistinctKeys(entries[1..])
      && Keys(acc') !! Keys(entries[1..])
      && acc' + entries[1..] == acc + entries
  {
    var e := entries[0];
    var tail := entries[1..];
    assert Keys(entries) == {e.key} + Keys(tail);
    assert entries == [e] + tail;
    PutFresh(acc, e, tail);
  }

  /** A fresh key is appended, so what follows it lines up. */
  lemma PutFresh(acc: seq<Field>, e: Field, tail: seq<Field>)
    requires e.key !in Keys(acc)
    ensures Put(acc, e.key, e.value) + tail == acc + ([e] + tail)
  {
    assert Put(acc, e.key, e.value) == acc + [e];
    AppendAssoc(acc, [e], tail);
  }

  lemma AppendAssoc<T>(a: seq<T>, b: seq<T>, c: seq<T>)
    ensures a + b + c == a + (b + c)
  {
  }

  lemma BuildObjectDistinct(entries: seq<Field>)
    requires DistinctKeys(entries)
    ensures BuildObject(entries) == entries
  {
    PutAllDistinct([], entries);
  }

  /** The last entry with a key decides its value: a duplicate key keeps
      the value written last. */
  lemma {:induction false} LastEntryWins(acc: seq<Field>, entries: seq<Field>, i: nat)
    requires i < |entries|
    requires forall j :: i < j < |entries| ==> entries[j].key != entries[i].key
    ensures Get(PutAll(acc, entries), entries[i].key) == Some(entries[i].value)
    decreases |entries|
  {
    var e := entries[0];
    var tail := entries[1..];
    if i == 0 {
      KeysAt(tail, e.key);
      assert forall j :: 0 <= j < |tail| ==> tail[j] == entries[j + 1];
    } else {
      assert tail[i - 1] == entries[i];
      forall j | i - 1 < j < |tail| ensures tail[j].key != tail[i - 1].key {
        assert tail[j] == entries[j + 1];
      }
      LastEntryWins(Put(acc, e.key, e.value), tail, i - 1);
    }
  }

  /** The keys in iteration order. */
  function KeySeq(fields: seq<Field>): seq<string> {
    if |fields| == 0 then [] else [fields[0].key] + KeySeq(fields[1..])
  }

  /** The keys of `entries` not in `seen`, each at its first occurrence:
      the iteration order a LinkedHashMap gives to the keys it inserts. */
  function NewKeys(entries: seq<Field>, seen: set<string>): seq<string> {
    if |entries| == 0 then []
    else if entries[0].key in seen then NewKeys(entries[1..], seen)
    else [entries[0].key] + NewKeys(entries[1..], seen + {entries[0].key})
  }

  lemma {:induction false} PutKeySeq(fields: seq<Field>, key: string, value: Json)
    ensures key in Keys(fields) ==> KeySeq(Put(fields, key, value)) == KeySeq(fields)
    ensures key !in Keys(fields) ==> KeySeq(Put(fields, key, value)) == KeySeq(fields) + [key]
  {
    if |fields| > 0 && fields[0].key != key {
      PutKeySeq(fields[1..], key, value);
      var r := Put(fields, key, value);
      assert r[1..] == Put(fields[1..], key, value) && r[0] == fields[0];
    }
  }

  /** Insertion order: keys already in the map keep their places, and new
      keys follow in the order of their first occurrence. */
  lemma {:induction false} InsertionOrder(acc: seq<Field>, entries: seq<Field>)
    ensures KeySeq(PutAll(acc, entries)) == KeySeq(acc) + NewKeys(entries, Keys(acc))
    decreases |entries|
  {
    if |entries| == 0 {
      assert KeySeq(acc) + [] == KeySeq(acc);
    } else {
      var e := entries[0];
      InsertionStep(acc, entries);
      InsertionOrder(Put(acc, e.key, e.value), entries[1..]);
    }
  }

  /** The keys of a built object come in the order of their first occurrence. */
  lemma ObjectKeyOrder(entries: seq<Field>)
    ensures KeySeq(BuildObject(entries)) == NewKeys(entries, {})
  {
    InsertionOrder([], entries);
  }

  /** One `put` moves the first entry from the pending keys into the map. */
  lemma InsertionStep(acc: seq<Field>, entries: seq<Field>)
    requires |entries| > 0
    ensures var e := entries[0];
      var acc' := Put(acc, e.key, e.value);
      KeySeq(acc) + NewKeys(entries, Keys(acc)) == KeySeq(acc') + NewKeys(entries[1..], Keys(acc'))
  {
    var e := entries[0];
    var rest := entries[1..];
    var acc' := Put(acc, e.key, e.value);
    PutKeySeq(acc, e.key, e.value);
    if e.key in Keys(acc) {
      assert Keys(acc') == Keys(acc);
    } else {
      assert KeySeq(acc) + [e.key] + NewKeys(rest, Keys(acc')) ==
        KeySeq(acc) + ([e.key] + NewKeys(rest, Keys(acc')));
    }
  }

  /** `forEach { put(it.t1, it.t2) }` into a fresh `mutableMapOf()`. */
  method FillObject(entries: seq<Field>) returns (m: seq<Field>)
    ensures m == BuildObject(entries)
  {
    m := [];
    var i := 0;
    while i < |entries|
      invariant i <= |entries|
      invariant PutAll(m, entries[i..]) == BuildObject(entries)
    {
      assert entries[i..][1..] == entries[i + 1..];
      m := Put(m, entries[i].key, entries[i].value);
      i := i + 1;
    }
  }

  /** The value the grammar builds for a written value: at every level, an
      object's entries are put into a fresh map left to right, so a repeated
      key keeps only its last value. */
  function Canon(v: Json): Json
    decreases v, 1
  {
    match v
    case JArray(items) => JArray(CanonItems(items))
    case JObject(fields) => JObject(BuildObject(CanonFields(fields)))
    case _ => v
  }

  function CanonItems(items: seq<Json>): (r: seq<Json>)
    ensures |r| == |items|
    ensures forall i :: 0 <= i < |items| ==> r[i] == Canon(items[i])
    decreases items, 0
  {
    if |items| == 0 then [] else [Canon(items[0])] + CanonItems(items[1..])
  }

  /** The entries with their values made canonical; keys and their order
      are untouched. */
  function CanonFields(fields: seq<Field>): (r: seq<Field>)
    ensures |r| == |fields|
    ensures forall i :: 0 <= i < |fields| ==> r[i] == Field(fields[i].key, Canon(fields[i].value))
    ensures Keys(r) == Keys(fields)
    decreases fields, 0
  {
    if |fields| == 0 then []
    else
      var r := [Field(fields[0].key, Canon(fields[0].value))] + CanonFields(fields[1..]);
      assert r[1..] == CanonFields(fields[1..]);
      r
  }

  /** A value whose objects already have distinct keys is its own canonical
      form: nothing in it is overwritten. */
  lemma {:induction false} CanonIdentity(v: Json)
    requires WellFormed(v)
    ensures Canon(v) == v
    decreases v, 1
  {
    match v
    case JArray(items) => CanonItemsIdentity(items);
    case JObject(fields) =>
      CanonFieldsIdentity(fields);
      BuildObjectDistinct(fields);
    case _ =>
  }

  lemma {:induction false} CanonItemsIdentity(items: seq<Json>)
    requires forall i :: 0 <= i < |items| ==> WellFormed(items[i])
    ensures CanonItems(items) == items
    decreases items, 0
  {
    forall i | 0 <= i < |items| ensures Canon(items[i]) == items[i] {
      CanonIdentity(items[i]);
    }
  }

  lemma {:induction false} CanonFieldsIdentity(fields: seq<Field>)
    requires forall i :: 0 <= i < |fields| ==> WellFormed(fields[i].value)
    ensures CanonFields(fields) == fields
    decreases fields, 0
  {
    forall i | 0 <= i < |fields| ensures Canon(fields[i].value) == fields[i].value {
      CanonIdentity(fields[i].value);
    }
  }
}

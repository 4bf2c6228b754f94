/** The settings endpoint (GET builds a key/value map from the rows, PUT
    upserts the string-valued body entries) and the single-key lookup the
    crawl code uses for credentials. */
module Settings {
  import opened Common
  import opened Seqs
  import opened Records

  function Keys(rows: seq<SettingRow>): set<string>
  {
    set r | r in rows :: r.key
  }

  /** The value stored under one key, if any. */
  function Lookup(rows: seq<SettingRow>, key: string): (r: Option<string>)
    ensures r.Some? <==> key in Keys(rows)
    ensures r.Some? ==> SettingRow(key, r.value) in rows
    decreases |rows|
  {
    if |rows| == 0 then None
    else if rows[0].key == key then Some(rows[0].value)
    else Lookup(rows[1..], key)
  }

  /** The map GET /api/settings is meant to return: every row assigned in
      turn, so a later row overrides an earlier one. */
  function AsMap(rows: seq<SettingRow>): (m: map<string, string>)
    ensures m.Keys == Keys(rows)
    decreases |rows|
  {
    if |rows| == 0 then map[]
    else
      var rest := AsMap(rows[1..]);
      KeysCons(rows[0], rows[1..]);
      assert rows == [rows[0]] + rows[1..];
      map[rows[0].key := rows[0].value] + rest
  }

  /** With unique keys, every row's value is what GET reports for its key. */
  lemma {:induction false} AsMapHoldsRows(rows: seq<SettingRow>)
    requires UniqueKeys(rows)
    ensures forall i :: 0 <= i < |rows| ==> AsMap(rows)[rows[i].key] == rows[i].value
    decreases |rows|
  {
    if |rows| > 0 {
      UniqueTail(rows);
      AsMapHoldsRows(rows[1..]);
      forall i | 0 < i < |rows|
        ensures AsMap(rows)[rows[i].key] == rows[i].value
      {
        assert rows[i] == rows[1..][i - 1];
      }
    }
  }

  /** With unique keys, the single-key lookup agrees with the map GET returns. */
  lemma {:induction false} LookupAgreesWithGet(rows: seq<SettingRow>, key: string)
    requires UniqueKeys(rows)
    ensures Lookup(rows, key) == if key in AsMap(rows) then Some(AsMap(rows)[key]) else None
  {
    if key in Keys(rows) {
      var v := Lookup(rows, key).value;
      var i :| 0 <= i < |rows| && rows[i] == SettingRow(key, v);
      AsMapHoldsRows(rows);
    }
  }

  /** The one key a plain JavaScript object does not keep as an own
      property: assigning to it calls the inherited prototype setter, which
      ignores a string value. */
  const ProtoKey := "__proto__"

  /** GET /api/settings as the handler builds it, assigning every row into
      an object literal: the assignment for the key `__proto__` is lost, so
      that row never reaches the reply. */
  function GetReplyAsWritten(rows: seq<SettingRow>): (m: map<string, string>)
    ensures m.Keys == Keys(rows) - {ProtoKey}
    ensures forall k :: k in m ==> m[k] == AsMap(rows)[k]
    decreases |rows|
  {
    if |rows| == 0 then map[]
    else
      var rest := GetReplyAsWritten(rows[1..]);
      KeysHead(rows);
      if rows[0].key == ProtoKey then rest
      else map[rows[0].key := rows[0].value] + rest
  }

  /** A setting saved under `__proto__` through PUT is stored and found by
      the per-key lookup, yet the handler's GET reply omits it. */
  lemma ProtoSettingHidden()
    ensures var rows := Put([], [Entry(ProtoKey, JString("x"))]);
      && Lookup(rows, ProtoKey) == Some("x")
      && AsMap(rows) == map[ProtoKey := "x"]
      && GetReplyAsWritten(rows) == map[]
  {
    var body := [Entry(ProtoKey, JString("x"))];
    PutStep([], body);
    assert body[1..] == [];
    assert Put([], body) == [SettingRow(ProtoKey, "x")];
  }

  /** A JSON value of the request body; only strings carry a payload here. */
  datatype Json = JString(s: string) | JNumber | JBool | JNull | JArray | JObject

  /** One `[key, value]` pair of `Object.entries(body)`. */
  datatype Entry = Entry(key: string, value: Json)

  predicate IsStringEntry(e: Entry)
  {
    e.value.JString?
  }

  /** The keys of a JavaScript object are distinct. */
  ghost predicate DistinctKeys(body: seq<Entry>)
  {
    forall i, j | 0 <= i < j < |body| :: body[i].key != body[j].key
  }

  /** The keys of the body's string-valued entries. */
  function StringKeys(body: seq<Entry>): set<string>
  {
    set e | e in body && IsStringEntry(e) :: e.key
  }

  lemma StringKeysCons(body: seq<Entry>)
    requires |body| > 0
    ensures StringKeys(body) == (if IsStringEntry(body[0]) then {body[0].key} else {}) + StringKeys(body[1..])
  {
    assert forall e | e in body :: e == body[0] || e in body[1..];
  }

  lemma DistinctTail(body: seq<Entry>)
    requires |body| > 0
    ensures DistinctKeys(body) ==> DistinctKeys(body[1..])
    ensures DistinctKeys(body) ==> forall i :: 0 < i < |body| ==> body[i].key != body[0].key
    ensures forall i :: 0 < i < |body| ==> body[i] == body[1..][i - 1]
  {
  }

  /** What the string-valued entries of the body say, later entries winning. */
  function StringEntries(body: seq<Entry>): (m: map<string, string>)
    ensures m.Keys == StringKeys(body)
    decreases |body|
  {
    if |body| == 0 then map[]
    else
      var rest := StringEntries(body[1..]);
      var first := if IsStringEntry(body[0]) then map[body[0].key := body[0].value.s] else map[];
      StringKeysCons(body);
      first + rest
  }

  /** With distinct keys, every string entry's value is what the body says
      for its key. */
  lemma {:induction false} StringEntriesHoldEntries(body: seq<Entry>)
    requires DistinctKeys(body)
    ensures forall i :: 0 <= i < |body| && IsStringEntry(body[i]) ==> StringEntries(body)[body[i].key] == body[i].value.s
    decreases |body|
  {
    if |body| > 0 {
      DistinctTail(body);
      StringEntriesHoldEntries(body[1..]);
    }
  }

  /** Insert-or-update by key: an existing row gets the new value in place,
      otherwise a row is added. */
  function Upsert(rows: seq<SettingRow>, key: string, value: string): (r: seq<SettingRow>)
    requires UniqueKeys(rows)
    ensures UniqueKeys(r)
    ensures Keys(r) == Keys(rows) + {key}
    ensures AsMap(r) == AsMap(rows)[key := value]
    decreases |rows|
  {
    if |rows| == 0 then [SettingRow(key, value)]
    else if rows[0].key == key then
      UpsertHit(rows, key, value);
      [SettingRow(key, value)] + rows[1..]
    else
      UniqueTail(rows);
      var tail := Upsert(rows[1..], key, value);
      UpsertMiss(rows, key, value, tail);
      [rows[0]] + tail
  }

  /** The row for `key` comes first: its value is replaced in place. */
  lemma UpsertHit(rows: seq<SettingRow>, key: string, value: string)
    requires UniqueKeys(rows) && |rows| > 0 && rows[0].key == key
    ensures var r := [SettingRow(key, value)] + rows[1..];
      && UniqueKeys(r)
      && Keys(r) == Keys(rows) + {key}
      && AsMap(r) == AsMap(rows)[key := value]
  {
    UniqueTail(rows);
    KeysCons(SettingRow(key, value), rows[1..]);
    KeysCons(rows[0], rows[1..]);
    assert rows == [rows[0]] + rows[1..];
    UniqueCons(SettingRow(key, value), rows[1..]);
    AsMapCons(SettingRow(key, value), rows[1..]);
    AsMapCons(rows[0], rows[1..]);
    UpdateHidden(key, value, rows[0].value, AsMap(rows[1..]));
  }

  /** The first row has another key: it stays, and the upsert goes on in
      the rest. */
  lemma UpsertMiss(rows: seq<SettingRow>, key: string, value: string, tail: seq<SettingRow>)
    requires UniqueKeys(rows) && |rows| > 0 && rows[0].key != key
    requires UniqueKeys(tail) && Keys(tail) == Keys(rows[1..]) + {key}
    requires AsMap(tail) == AsMap(rows[1..])[key := value]
    ensures var r := [rows[0]] + tail;
      && UniqueKeys(r)
      && Keys(r) == Keys(rows) + {key}
      && AsMap(r) == AsMap(rows)[key := value]
  {
    UniqueTail(rows);
    KeysCons(rows[0], tail);
    KeysHead(rows);
    UniqueCons(rows[0], tail);
    UpsertMissMap(rows, key, value, tail);
  }

  lemma UpsertMissMap(rows: seq<SettingRow>, key: string, value: string, tail: seq<SettingRow>)
    requires |rows| > 0
    requires AsMap(tail) == AsMap(rows[1..])[key := value]
    ensures AsMap([rows[0]] + tail) == AsMap(rows)[key := value]
  {
    var head := map[rows[0].key := rows[0].value];
    AsMapCons(rows[0], tail);
    assert AsMap(rows) == head + AsMap(rows[1..]);
    UpdateUnderUnion(head, AsMap(rows[1..]), key, value);
  }

  lemma AsMapCons(x: SettingRow, rows: seq<SettingRow>)
    ensures AsMap([x] + rows) == map[x.key := x.value] + AsMap(rows)
  {
    assert ([x] + rows)[1..] == rows;
  }

  /** PUT /api/settings: upserts each string-valued body entry in order and
      skips every other entry. */
  function Put(rows: seq<SettingRow>, body: seq<Entry>): (r: seq<SettingRow>)
    requires UniqueKeys(rows)
    ensures UniqueKeys(r)
    ensures AsMap(r) == AsMap(rows) + StringEntries(body)
    decreases |body|
  {
    if |body| == 0 then rows
    else
      var next := if IsStringEntry(body[0]) then Upsert(rows, body[0].key, body[0].value.s) else rows;
      PutStep(rows, body);
      Put(next, body[1..])
  }

  /** One step of PUT: the first entry's effect, then the rest's. */
  lemma PutStep(rows: seq<SettingRow>, body: seq<Entry>)
    requires UniqueKeys(rows) && |body| > 0
    ensures var next := if IsStringEntry(body[0]) then Upsert(rows, body[0].key, body[0].value.s) else rows;
      AsMap(next) + StringEntries(body[1..]) == AsMap(rows) + StringEntries(body)
  {
    var m := AsMap(rows);
    var rest := StringEntries(body[1..]);
    var first: map<string, string> := if IsStringEntry(body[0]) then map[body[0].key := body[0].value.s] else map[];
    assert StringEntries(body) == first + rest;
    if IsStringEntry(body[0]) {
      var next := Upsert(rows, body[0].key, body[0].value.s);
      UpdateIsUnion(m, body[0].key, body[0].value.s);
      UnionAssociative(m, first, rest);
    } else {
      UnionEmpty(m, rest);
    }
  }

  /** Non-string entries have no effect: PUT behaves as if they were absent. */
  lemma {:induction false} PutIgnoresNonStrings(rows: seq<SettingRow>, body: seq<Entry>)
    requires UniqueKeys(rows)
    ensures Put(rows, body) == Put(rows, Filter(body, IsStringEntry))
    decreases |body|
  {
    if |body| > 0 {
      var next := if IsStringEntry(body[0]) then Upsert(rows, body[0].key, body[0].value.s) else rows;
      PutIgnoresNonStrings(next, body[1..]);
      if IsStringEntry(body[0]) {
        assert Filter(body, IsStringEntry)[1..] == Filter(body[1..], IsStringEntry);
      }
    }
  }

  /** After PUT, every string entry of the body is stored under its key and
      every key the body does not set as a string keeps its old value. */
  lemma PutStoresStrings(rows: seq<SettingRow>, body: seq<Entry>)
    requires UniqueKeys(rows)
    requires DistinctKeys(body)
    ensures forall i :: 0 <= i < |body| && IsStringEntry(body[i]) ==>
      AsMap(Put(rows, body))[body[i].key] == body[i].value.s
    ensures forall k :: k !in StringEntries(body) ==>
      (k in AsMap(Put(rows, body)) <==> k in AsMap(rows)) &&
      (k in AsMap(rows) ==> AsMap(Put(rows, body))[k] == AsMap(rows)[k])
  {
    StringEntriesHoldEntries(body);
  }

  /** Repeating the same PUT leaves the settings GET returns unchanged. */
  lemma PutTwice(rows: seq<SettingRow>, body: seq<Entry>)
    requires UniqueKeys(rows)
    ensures AsMap(Put(Put(rows, body), body)) == AsMap(Put(rows, body))
  {
    UnionAbsorbs(AsMap(rows), StringEntries(body));
  }

  lemma KeysCons(x: SettingRow, rows: seq<SettingRow>)
    ensures Keys([x] + rows) == {x.key} + Keys(rows)
  {
    assert forall r | r in [x] + rows :: r == x || r in rows;
  }

  lemma KeysHead(rows: seq<SettingRow>)
    requires |rows| > 0
    ensures Keys(rows) == {rows[0].key} + Keys(rows[1..])
  {
    KeysCons(rows[0], rows[1..]);
    assert rows == [rows[0]] + rows[1..];
  }

  lemma UniqueTail(rows: seq<SettingRow>)
    requires |rows| > 0 && UniqueKeys(rows)
    ensures UniqueKeys(rows[1..]) && rows[0].key !in Keys(rows[1..])
  {
  }

  lemma UniqueCons(x: SettingRow, rows: seq<SettingRow>)
    requires UniqueKeys(rows) && x.key !in Keys(rows)
    ensures UniqueKeys([x] + rows)
  {
    var r := [x] + rows;
    forall i, j | 0 <= i < j < |r|
      ensures r[i].key != r[j].key
    {
      if i == 0 {
        assert r[j] == rows[j - 1];
      } else {
        assert r[i] == rows[i - 1] && r[j] == rows[j - 1];
      }
    }
  }

  lemma UpdateUnderUnion<K, V>(a: map<K, V>, b: map<K, V>, k: K, v: V)
    ensures a + b[k := v] == (a + b)[k := v]
  {
  }

  lemma UpdateHidden<K, V>(k: K, v: V, old_v: V, m: map<K, V>)
    requires k !in m
    ensures map[k := v] + m == (map[k := old_v] + m)[k := v]
  {
  }

  lemma UpdateIsUnion<K, V>(m: map<K, V>, k: K, v: V)
    ensures m[k := v] == m + map[k := v]
  {
  }

  lemma UnionEmpty<K, V>(m: map<K, V>, e: map<K, V>)
    ensures m + e == m + (map[] + e)
  {
    assert map[] + e == e;
  }

  lemma UnionAssociative<K, V>(a: map<K, V>, b: map<K, V>, c: map<K, V>)
    ensures (a + b) + c == a + (b + c)
  {
  }

  lemma UnionAbsorbs<K, V>(a: map<K, V>, b: map<K, V>)
    ensures (a + b) + b == a + b
  {
  }
}

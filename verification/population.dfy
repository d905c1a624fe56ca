/** Relations between models: the accessors `belongsTo`, `hasOne` and
    `hasMany` declare, the id condition they query the target model with,
    and the joins that attach the fetched target documents to the holder
    documents. Fetching is a store round trip; it enters the joins as the
    `targetDocs` parameter. */
module Population {
  import opened Wrappers
  import opened Fields
  import opened Values
  import Naming
  import Schema
  import Models
  import Queries

  // ---------------------------------------------------------------------
  // Ids and the id condition

  /** `field || '_id'`. */
  function IdField(field: string): string {
    if field == "" then "_id" else field
  }

  predicate Nullish(v: Value) {
    v.Undefined? || v.Null?
  }

  function PluckEach(items: seq<Value>, field: string): (r: Result<seq<Value>>)
    ensures r.Ok? <==> forall i :: 0 <= i < |items| ==> !Nullish(items[i])
    ensures r.Fail? ==> r.error == TypeErrorMessage
    ensures r.Ok? ==> |r.value| == |items| && forall i :: 0 <= i < |items| ==> r.value[i] == Member(items[i], field)
  {
    if |items| == 0 then Ok([])
    else
      var id :- Read(items[0], field);
      var rest :- PluckEach(items[1..], field);
      assert forall i :: 1 <= i < |items| ==> items[1..][i - 1] == items[i];
      Ok([id] + rest)
  }

  /** `pluckIds(docs, field)`: the field of every document of an array, or
      of the one document; reading a field of `null` or `undefined` throws. */
  function PluckIds(docs: Value, field: string): (r: Result<Value>)
    ensures docs.Arr? ==> (r.Ok? <==> forall i :: 0 <= i < |docs.items| ==> !Nullish(docs.items[i]))
    ensures docs.Arr? && r.Ok? ==> (r.value.Arr? && |r.value.items| == |docs.items|
      && forall i :: 0 <= i < |docs.items| ==> r.value.items[i] == Member(docs.items[i], IdField(field)))
    ensures !docs.Arr? ==> (r.Ok? <==> !Nullish(docs))
    ensures !docs.Arr? && r.Ok? ==> r.value == Member(docs, IdField(field))
  {
    if docs.Arr? then
      var ids :- PluckEach(docs.items, IdField(field));
      Ok(Arr(ids))
    else Read(docs, IdField(field))
  }

  /** A `{$in: [...]}` operator object. */
  predicate InOperator(c: Value) {
    c.Obj? && |c.fields| == 1 && c.fields[0].0 == "$in" && c.fields[0].1.Arr?
  }

  /** Whether the store's condition `{field: c}` selects document `t`: an
      `$in` operator selects a document whose field equals one of the
      listed values, any other value one whose field equals it. */
  predicate Selects(cond: Value, field: string, t: Value) {
    var c := Member(cond, field);
    if InOperator(c) then Member(t, field) in c.fields[0].1.items
    else Member(t, field) == c
  }

  /** `createIdCondition(field, ids)`: `{field: {$in: ids}}` for an array,
      `{field: ids}` otherwise. */
  function IdCondition(field: string, ids: Value): (cond: Value)
    ensures cond.Obj? && Keys(cond.fields) == [field]
    ensures ids.Arr? ==> forall t :: Selects(cond, field, t) <==> Member(t, field) in ids.items
    ensures !ids.Arr? && !InOperator(ids) ==> forall t :: Selects(cond, field, t) <==> Member(t, field) == ids
  {
    Obj([(field, if ids.Arr? then Obj([("$in", ids)]) else ids)])
  }

  /** The condition an accessor queries with selects exactly the documents
      whose `condField` equals the plucked field of one of the documents. */
  lemma ConditionSelectsReferenced(docs: seq<Value>, field: string, condField: string, t: Value)
    requires PluckIds(Arr(docs), field).Ok?
    ensures Selects(IdCondition(condField, PluckIds(Arr(docs), field).value), condField, t)
        <==> exists i :: 0 <= i < |docs| && Member(t, condField) == Member(docs[i], IdField(field))
  {
    var ids := PluckIds(Arr(docs), field).value;
    if Member(t, condField) in ids.items {
      var i :| 0 <= i < |ids.items| && ids.items[i] == Member(t, condField);
      assert Member(t, condField) == Member(docs[i], IdField(field));
    }
  }

  // ---------------------------------------------------------------------
  // The fetched targets

  /** The fetched targets as a list: an array as it is, a truthy document
      as a one-element list, nothing for a falsy result. */
  function TargetList(targetDocs: Value): seq<Value> {
    if targetDocs.Arr? then targetDocs.items
    else if Truthy(targetDocs) then [targetDocs]
    else []
  }

  /** The text of a document's `_id`. */
  function IdText(doc: Value): string {
    ToText(Member(doc, "_id"))
  }

  /** Target `t` is truthy with `_id` text `key`. */
  predicate HasId(t: Value, key: string) {
    Truthy(t) && IdText(t) == key
  }

  /** Target `k` is the last truthy target with `_id` text `key`. */
  predicate LastWithId(ts: seq<Value>, key: string, k: int) {
    0 <= k < |ts| && HasId(ts[k], key) && forall m :: k < m < |ts| ==> !HasId(ts[m], key)
  }

  /** The last truthy target whose `_id` text is `key`. */
  function LastTarget(ts: seq<Value>, key: string): (r: Option<Value>)
    ensures r.None? <==> forall k :: 0 <= k < |ts| ==> !HasId(ts[k], key)
    ensures r.Some? ==> exists k :: LastWithId(ts, key, k) && ts[k] == r.value
    decreases |ts|
  {
    if |ts| == 0 then None
    else if HasId(ts[|ts| - 1], key) then
      assert LastWithId(ts, key, |ts| - 1);
      Some(ts[|ts| - 1])
    else
      var r := LastTarget(ts[..|ts| - 1], key);
      LastTargetMiss(ts, ts[..|ts| - 1], key, r);
      r
  }

  /** A last target that does not match leaves the answer to the others. */
  lemma LastTargetMiss(ts: seq<Value>, front: seq<Value>, key: string, r: Option<Value>)
    requires |ts| > 0 && front == ts[..|ts| - 1] && !HasId(ts[|ts| - 1], key)
    requires r.None? <==> forall k :: 0 <= k < |front| ==> !HasId(front[k], key)
    requires r.Some? ==> exists k :: LastWithId(front, key, k) && front[k] == r.value
    ensures r.None? <==> forall k :: 0 <= k < |ts| ==> !HasId(ts[k], key)
    ensures r.Some? ==> exists k :: LastWithId(ts, key, k) && ts[k] == r.value
  {
    if r.Some? {
      var k :| LastWithId(front, key, k) && front[k] == r.value;
      LastWithIdExtends(ts, front, key, k);
    } else {
      NoIdExtends(ts, front, key);
    }
  }

  lemma LastWithIdExtends(ts: seq<Value>, front: seq<Value>, key: string, k: int)
    requires |ts| > 0 && front == ts[..|ts| - 1] && !HasId(ts[|ts| - 1], key) && LastWithId(front, key, k)
    ensures LastWithId(ts, key, k) && ts[k] == front[k]
  {
    assert ts[k] == front[k];
    forall m | k < m < |ts| ensures !HasId(ts[m], key) {
      if m < |front| {
        assert ts[m] == front[m];
      }
    }
  }

  lemma NoIdExtends(ts: seq<Value>, front: seq<Value>, key: string)
    requires |ts| > 0 && front == ts[..|ts| - 1] && !HasId(ts[|ts| - 1], key)
    requires forall k :: 0 <= k < |front| ==> !HasId(front[k], key)
    ensures forall k :: 0 <= k < |ts| ==> !HasId(ts[k], key)
  {
    forall k | 0 <= k < |ts| ensures !HasId(ts[k], key) {
      if k < |front| {
        assert ts[k] == front[k];
      }
    }
  }

  // ---------------------------------------------------------------------
  // The `belongsTo` join

  /** The entries `hash[targetDoc._id.toString()] = targetDoc` writes, one
      per truthy target, in target order. */
  function Keyed(ts: seq<Value>): (e: Entries<Value>)
    decreases |ts|
  {
    if |ts| == 0 then []
    else Keyed(ts[..|ts| - 1]) + (if Truthy(ts[|ts| - 1]) then [(IdText(ts[|ts| - 1]), ts[|ts| - 1])] else [])
  }

  /** The hash entries of the truthy targets; a truthy target without an
      `_id` throws on `toString`. */
  function IdPairs(ts: seq<Value>): (r: Result<Entries<Value>>)
    ensures r.Ok? <==> forall k :: 0 <= k < |ts| && Truthy(ts[k]) ==> !Nullish(Member(ts[k], "_id"))
    ensures r.Fail? ==> r.error == TypeErrorMessage
    ensures r.Ok? ==> r.value == Keyed(ts)
    decreases |ts|
  {
    if |ts| == 0 then Ok([])
    else
      var t := ts[|ts| - 1];
      assert forall k :: 0 <= k < |ts| - 1 ==> ts[..|ts| - 1][k] == ts[k];
      var front :- IdPairs(ts[..|ts| - 1]);
      if Truthy(t) then
        var key :- KeyText(Member(t, "_id"));
        Ok(front + [(key, t)])
      else Ok(front)
  }

  /** The hash keeps, per `_id` text, the last truthy target holding it. */
  lemma {:induction false} KeyedLatest(ts: seq<Value>, key: string)
    ensures Latest(Keyed(ts), key) == LastTarget(ts, key)
    decreases |ts|
  {
    if |ts| > 0 {
      var front := ts[..|ts| - 1];
      var t := ts[|ts| - 1];
      assert ts[..|ts| - 1] == front;
      if !Truthy(t) {
        assert Keyed(ts) == Keyed(front);
        KeyedLatest(front, key);
        assert LastTarget(ts, key) == LastTarget(front, key);
      } else if IdText(t) == key {
        var e := Keyed(front) + [(IdText(t), t)];
        assert Keyed(ts) == e && e[|e| - 1] == (key, t);
        assert Latest(e, key) == Some(t);
      } else {
        var e := Keyed(front) + [(IdText(t), t)];
        assert Keyed(ts) == e && e[..|e| - 1] == Keyed(front) && e[|e| - 1].0 != key;
        assert Latest(e, key) == Latest(Keyed(front), key);
        KeyedLatest(front, key);
        assert LastTarget(ts, key) == LastTarget(front, key);
      }
    }
  }

  /** `targetDoc = targetDocId ? hash[targetDocId.toString()] : null`,
      then `targetDoc ? targetDoc : null`. */
  function Linked(hash: Entries<Value>, id: Value): Value {
    var found := if Truthy(id) then Lookup(hash, ToText(id)).GetOr(Undefined) else Null;
    if Truthy(found) then found else Null
  }

  /** `doc[field] = Linked(hash, doc[field])` on every holder, in order. */
  function LinkEach(hash: Entries<Value>, docs: seq<Value>, field: string): (r: Result<seq<Value>>)
    ensures r.Ok? <==> forall i :: 0 <= i < |docs| ==> docs[i].Obj?
    ensures r.Fail? ==> r.error == TypeErrorMessage
    ensures r.Ok? ==> |r.value| == |docs| && forall i :: 0 <= i < |docs| ==>
      r.value[i] == Obj(Put(docs[i].fields, field, Linked(hash, Member(docs[i], field))))
  {
    if |docs| == 0 then Ok([])
    else
      var id :- Read(docs[0], field);
      var doc :- Assign(docs[0], field, Linked(hash, id));
      var rest := LinkEach(hash, docs[1..], field);
      TailObjects(docs);
      if rest.Fail? then Fail(rest.error)
      else
        LinkEachTail(hash, docs, field, rest.value);
        Ok([doc] + rest.value)
  }

  /** Every element is an object exactly when the first and the rest are. */
  lemma TailObjects(docs: seq<Value>)
    requires |docs| > 0
    ensures (forall i :: 0 <= i < |docs| ==> docs[i].Obj?)
        <==> docs[0].Obj? && forall i :: 0 <= i < |docs| - 1 ==> docs[1..][i].Obj?
  {
    assert forall i :: 1 <= i < |docs| ==> docs[1..][i - 1] == docs[i];
  }

  /** Linking the first holder in front of the linked rest links them all. */
  lemma LinkEachTail(hash: Entries<Value>, docs: seq<Value>, field: string, rest: seq<Value>)
    requires |docs| > 0 && forall i :: 0 <= i < |docs| ==> docs[i].Obj?
    requires |rest| == |docs| - 1 && forall i :: 0 <= i < |docs| - 1 ==>
      rest[i] == Obj(Put(docs[1..][i].fields, field, Linked(hash, Member(docs[1..][i], field))))
    ensures forall i :: 0 <= i < |docs| ==>
      ([Obj(Put(docs[0].fields, field, Linked(hash, Member(docs[0], field))))] + rest)[i]
        == Obj(Put(docs[i].fields, field, Linked(hash, Member(docs[i], field))))
  {
    assert forall i :: 1 <= i < |docs| ==> docs[1..][i - 1] == docs[i];
  }

  /** The `belongsTo` join for the fetched `targetDocs`: a single holder
      gets the result as it is; every holder of an array gets the target
      its id names, through a hash keyed by the targets' `_id` text. */
  function BelongsToJoin(docs: Value, field: string, targetDocs: Value): (r: Result<Value>)
    ensures !docs.Arr? ==> r == Assign(docs, field, targetDocs)
    ensures docs.Arr? && r.Ok? ==> r.value.Arr? && |r.value.items| == |docs.items|
  {
    if !docs.Arr? then Assign(docs, field, targetDocs)
    else
      var pairs :- IdPairs(TargetList(targetDocs));
      var items :- LinkEach(PutAll([], pairs), docs.items, field);
      Ok(Arr(items))
  }

  /** What the `belongsTo` join puts in a holder's field: the last truthy
      target whose `_id` text is the text of the holder's id, or `null`
      when the id is falsy or no target has it. */
  function BelongsToValue(ts: seq<Value>, id: Value): Value {
    if Truthy(id) && LastTarget(ts, ToText(id)).Some? then LastTarget(ts, ToText(id)).value else Null
  }

  /** Every holder of an array keeps its other fields and gets in `field`
      the last matching target, or `null`: never `undefined`. */
  lemma BelongsToLinks(docs: seq<Value>, field: string, targetDocs: Value, i: nat)
    requires BelongsToJoin(Arr(docs), field, targetDocs).Ok? && i < |docs|
    ensures var out := BelongsToJoin(Arr(docs), field, targetDocs).value.items;
      var v := BelongsToValue(TargetList(targetDocs), Member(docs[i], field));
      docs[i].Obj? && out[i] == Obj(Put(docs[i].fields, field, v)) && !v.Undefined?
  {
    var ts := TargetList(targetDocs);
    JoinedHolder(docs, field, targetDocs, i);
    LinkedLast(ts, Member(docs[i], field));
  }

  /** Holder `i` of the join: its field is looked up in the hash. */
  lemma JoinedHolder(docs: seq<Value>, field: string, targetDocs: Value, i: nat)
    requires BelongsToJoin(Arr(docs), field, targetDocs).Ok? && i < |docs|
    ensures docs[i].Obj?
    ensures BelongsToJoin(Arr(docs), field, targetDocs).value.items[i]
         == Obj(Put(docs[i].fields, field, Linked(PutAll([], Keyed(TargetList(targetDocs))), Member(docs[i], field))))
  {
  }

  /** The hash lookup finds the last matching target, or `null`. */
  lemma LinkedLast(ts: seq<Value>, id: Value)
    ensures Linked(PutAll([], Keyed(ts)), id) == BelongsToValue(ts, id)
    ensures !BelongsToValue(ts, id).Undefined?
  {
    if Truthy(id) {
      PutAllLatest([], Keyed(ts), ToText(id));
      KeyedLatest(ts, ToText(id));
    }
  }

  /** The `belongsTo` join fails exactly when a holder is not an object or
      a truthy target has no `_id`, and then with a TypeError. */
  lemma BelongsToFails(docs: seq<Value>, field: string, targetDocs: Value)
    ensures var ts := TargetList(targetDocs);
      BelongsToJoin(Arr(docs), field, targetDocs).Fail?
      <==> ((exists k :: 0 <= k < |ts| && Truthy(ts[k]) && Nullish(Member(ts[k], "_id")))
            || exists i :: 0 <= i < |docs| && !docs[i].Obj?)
  {
  }

  // ---------------------------------------------------------------------
  // The `has` join

  /** `many ? [] : null`. */
  function Empty(many: bool): Value {
    if many then Arr([]) else Null
  }

  /** `doc[field] = (many ? [] : null)` on every holder. */
  function ResetEach(docs: seq<Value>, field: string, many: bool): (r: Result<seq<Value>>)
    ensures r.Ok? <==> forall i :: 0 <= i < |docs| ==> docs[i].Obj?
    ensures r.Fail? ==> r.error == TypeErrorMessage
    ensures r.Ok? ==> |r.value| == |docs| && forall i :: 0 <= i < |docs| ==>
      r.value[i] == Obj(Put(docs[i].fields, field, Empty(many)))
  {
    if |docs| == 0 then Ok([])
    else
      var doc :- Assign(docs[0], field, Empty(many));
      var rest :- ResetEach(docs[1..], field, many);
      assert forall i :: 1 <= i < |docs| ==> docs[1..][i - 1] == docs[i];
      Ok([doc] + rest)
  }

  /** `doc._id.toString()` of every holder. */
  function HolderKeys(docs: seq<Value>): (r: Result<seq<string>>)
    ensures r.Ok? <==> forall i :: 0 <= i < |docs| ==> !Nullish(Member(docs[i], "_id"))
    ensures r.Fail? ==> r.error == TypeErrorMessage
    ensures r.Ok? ==> |r.value| == |docs| && forall i :: 0 <= i < |docs| ==> r.value[i] == IdText(docs[i])
  {
    if |docs| == 0 then Ok([])
    else
      var key :- KeyText(Member(docs[0], "_id"));
      var rest :- HolderKeys(docs[1..]);
      assert forall i :: 1 <= i < |docs| ==> docs[1..][i - 1] == docs[i];
      Ok([key] + rest)
  }

  /** The entries `hash[key] = doc` writes, the holder given by its index. */
  function Indexed(keys: seq<string>): (e: Entries<nat>)
    ensures |e| == |keys| && forall i :: 0 <= i < |keys| ==> e[i] == (keys[i], i)
  {
    seq(|keys|, i requires 0 <= i < |keys| => (keys[i], i))
  }

  /** The hash from `_id` text to holder. */
  function Owners(keys: seq<string>): Entries<nat> {
    PutAll([], Indexed(keys))
  }

  /** Holder `j` is the one the hash keeps for its key: no later holder
      has the same key. */
  predicate Owns(keys: seq<string>, j: nat) {
    j < |keys| && forall m :: j < m < |keys| ==> keys[m] != keys[j]
  }

  /** Holder `j` is the one the hash keeps for `key`. */
  predicate OwnerOf(keys: seq<string>, key: string, j: nat) {
    j < |keys| && keys[j] == key && Owns(keys, j)
  }

  /** The hash maps a key to the last holder with that key, and has no
      entry for a key no holder has. */
  lemma OwnerLookup(keys: seq<string>, key: string)
    ensures Lookup(Owners(keys), key).Some? ==> OwnerOf(keys, key, Lookup(Owners(keys), key).value)
    ensures Lookup(Owners(keys), key).None? <==> forall i :: 0 <= i < |keys| ==> keys[i] != key
  {
    var e := Indexed(keys);
    PutAllLatest([], e, key);
    if HasKey(e, key) {
      var i :| 0 <= i < |e| && e[i] == (key, Latest(e, key).value) && forall m :: i < m < |e| ==> e[m].0 != key;
      assert e[i].1 == i;
      assert forall m :: i < m < |keys| ==> e[m].0 == keys[m];
      assert OwnerOf(keys, key, i);
    } else {
      forall i | 0 <= i < |keys| ensures keys[i] != key {
        assert e[i].0 == keys[i];
      }
    }
  }

  /** Two holders sharing a key cannot both be the one the hash keeps. */
  lemma OneOwner(keys: seq<string>, i: nat, j: nat)
    requires Owns(keys, i) && Owns(keys, j) && keys[i] == keys[j]
    ensures i == j
  {
  }

  /** Every value of `e` is below `n`. */
  predicate Below(e: Entries<nat>, n: nat) {
    forall i :: 0 <= i < |e| ==> e[i].1 < n
  }

  lemma {:induction false} PutBelow(e: Entries<nat>, k: string, v: nat, n: nat)
    requires v < n && Below(e, n)
    ensures Below(Put(e, k, v), n)
  {
    if |e| > 0 && e[0].0 != k {
      PutBelow(e[1..], k, v, n);
      var r := Put(e[1..], k, v);
      assert Put(e, k, v) == [e[0]] + r;
    }
  }

  lemma {:induction false} PutAllBelow(target: Entries<nat>, source: Entries<nat>, n: nat)
    requires Below(target, n) && Below(source, n)
    ensures Below(PutAll(target, source), n)
    decreases |source|
  {
    if |source| > 0 {
      PutBelow(target, source[0].0, source[0].1, n);
      PutAllBelow(Put(target, source[0].0, source[0].1), source[1..], n);
    }
  }

  /** Every holder the hash names is one of the holders. */
  lemma OwnersInRange(keys: seq<string>)
    ensures Below(Owners(keys), |keys|)
  {
    PutAllBelow([], Indexed(keys), |keys|);
  }

  /** `doc[field].push(targetDoc)` (many) or `doc[field] = targetDoc` (one). */
  function Attach(doc: Value, field: string, t: Value, many: bool): Value {
    var cur := Member(doc, field);
    Obj(Put(FieldsOf(doc), field, if many then Arr((if cur.Arr? then cur.items else []) + [t]) else t))
  }

  /** One target: attached to the holder its inverse field names, if any
      (`docId ? hash[docId.toString()] : null`). */
  function AttachOne(docs: seq<Value>, owners: Entries<nat>, docId: Value, t: Value,
                     field: string, many: bool): (r: seq<Value>)
    requires Below(owners, |docs|)
    ensures |r| == |docs|
  {
    if Truthy(docId) && Lookup(owners, ToText(docId)).Some? then
      var j := Lookup(owners, ToText(docId)).value;
      assert (ToText(docId), j) in owners;
      docs[j := Attach(docs[j], field, t, many)]
    else docs
  }

  /** The target loop: each target is attached to the holder its inverse
      field names; reading the inverse field of a `null` target throws. */
  function AttachAll(docs: seq<Value>, owners: Entries<nat>, ts: seq<Value>,
                     field: string, inverseField: string, many: bool): (r: Result<seq<Value>>)
    requires Below(owners, |docs|)
    ensures r.Ok? <==> forall k :: 0 <= k < |ts| ==> !Nullish(ts[k])
    ensures r.Fail? ==> r.error == TypeErrorMessage
    ensures r.Ok? ==> |r.value| == |docs|
    decreases |ts|
  {
    if |ts| == 0 then Ok(docs)
    else
      var docId :- Read(ts[0], inverseField);
      assert forall k :: 1 <= k < |ts| ==> ts[1..][k - 1] == ts[k];
      AttachAll(AttachOne(docs, owners, docId, ts[0], field, many), owners, ts[1..], field, inverseField, many)
  }

  /** Whether target `t` names the key `key` through its inverse field. */
  predicate Names(t: Value, inverseField: string, key: string) {
    Truthy(Member(t, inverseField)) && ToText(Member(t, inverseField)) == key
  }

  /** The targets naming `key`, in target order. */
  function Matching(ts: seq<Value>, inverseField: string, key: string): (r: seq<Value>)
    ensures forall t :: t in r ==> t in ts && Names(t, inverseField, key)
    decreases |ts|
  {
    if |ts| == 0 then []
    else
      Matching(ts[..|ts| - 1], inverseField, key)
        + (if Names(ts[|ts| - 1], inverseField, key) then [ts[|ts| - 1]] else [])
  }

  lemma MatchingSnoc(done: seq<Value>, t: Value, inverseField: string, key: string)
    ensures Matching(done + [t], inverseField, key)
         == Matching(done, inverseField, key) + (if Names(t, inverseField, key) then [t] else [])
  {
    assert (done + [t])[..|done|] == done;
  }

  /** What the `has` join leaves in a holder's field once the targets `ts`
      are through: the holder the hash keeps for its key collects the
      targets naming the key, in target order (many), or the last of them
      (one); a holder shadowed by a later one with the same key keeps the
      reset value. */
  function Expected(keys: seq<string>, i: nat, ts: seq<Value>, inverseField: string, many: bool): Value
    requires i < |keys|
  {
    var found := Matching(ts, inverseField, keys[i]);
    if !Owns(keys, i) then Empty(many)
    else if many then Arr(found)
    else if |found| == 0 then Null
    else found[|found| - 1]
  }

  /** Holder `i` as the target loop has left it after the targets `done`. */
  predicate HolderAfter(doc: Value, base: Entries<Value>, keys: seq<string>, i: nat, done: seq<Value>,
                        field: string, inverseField: string, many: bool)
    requires i < |keys|
  {
    doc == Obj(Put(base, field, Expected(keys, i, done, inverseField, many)))
  }

  /** The holders as the target loop has left them after the targets `done`. */
  predicate Joined(docs: seq<Value>, base: seq<Entries<Value>>, keys: seq<string>, done: seq<Value>,
                   field: string, inverseField: string, many: bool)
  {
    |docs| == |base| == |keys|
    && forall i :: 0 <= i < |docs| ==> HolderAfter(docs[i], base[i], keys, i, done, field, inverseField, many)
  }

  /** The holder a target is attached to gets it appended (many) or set (one). */
  lemma AttachOwner(doc: Value, base: Entries<Value>, keys: seq<string>, i: nat, done: seq<Value>,
                    t: Value, field: string, inverseField: string, many: bool)
    requires i < |keys| && Owns(keys, i) && Names(t, inverseField, keys[i])
    requires HolderAfter(doc, base, keys, i, done, field, inverseField, many)
    ensures HolderAfter(Attach(doc, field, t, many), base, keys, i, done + [t], field, inverseField, many)
  {
    var before := Expected(keys, i, done, inverseField, many);
    var after := Expected(keys, i, done + [t], inverseField, many);
    MatchingSnoc(done, t, inverseField, keys[i]);
    assert Member(doc, field) == before;
    PutPut(base, field, before, after);
  }

  /** A holder a target does not reach keeps its value. */
  lemma AttachOther(doc: Value, base: Entries<Value>, keys: seq<string>, i: nat, done: seq<Value>,
                    t: Value, field: string, inverseField: string, many: bool)
    requires i < |keys| && (!Owns(keys, i) || !Names(t, inverseField, keys[i]))
    requires HolderAfter(doc, base, keys, i, done, field, inverseField, many)
    ensures HolderAfter(doc, base, keys, i, done + [t], field, inverseField, many)
  {
    MatchingSnoc(done, t, inverseField, keys[i]);
    assert Expected(keys, i, done + [t], inverseField, many) == Expected(keys, i, done, inverseField, many);
  }

  /** One step of the target loop keeps `Joined`. */
  lemma AttachStep(docs: seq<Value>, base: seq<Entries<Value>>, keys: seq<string>, done: seq<Value>,
                   t: Value, field: string, inverseField: string, many: bool)
    requires Joined(docs, base, keys, done, field, inverseField, many)
    ensures Below(Owners(keys), |docs|)
    ensures Joined(AttachOne(docs, Owners(keys), Member(t, inverseField), t, field, many),
                   base, keys, done + [t], field, inverseField, many)
  {
    OwnersInRange(keys);
    var docId := Member(t, inverseField);
    var hit := if Truthy(docId) then Lookup(Owners(keys), ToText(docId)) else None;
    if Truthy(docId) {
      OwnerLookup(keys, ToText(docId));
    }
    var next := AttachOne(docs, Owners(keys), docId, t, field, many);
    forall i | 0 <= i < |docs|
      ensures HolderAfter(next[i], base[i], keys, i, done + [t], field, inverseField, many)
    {
      if hit.Some? && hit.value == i {
        AttachOwner(docs[i], base[i], keys, i, done, t, field, inverseField, many);
      } else {
        assert next[i] == docs[i];
        if hit.Some? && keys[i] == ToText(docId) {
          if Owns(keys, i) {
            OneOwner(keys, i, hit.value);
          }
        }
        AttachOther(docs[i], base[i], keys, i, done, t, field, inverseField, many);
      }
    }
  }

  /** No target is `null` or `undefined`. */
  predicate Present(ts: seq<Value>) {
    forall k :: 0 <= k < |ts| ==> !Nullish(ts[k])
  }

  /** One turn of the target loop. */
  lemma AttachAllUnfold(docs: seq<Value>, owners: Entries<nat>, ts: seq<Value>,
                        field: string, inverseField: string, many: bool)
    requires Below(owners, |docs|) && |ts| > 0 && Present(ts)
    ensures Present(ts[1..])
    ensures AttachAll(docs, owners, ts, field, inverseField, many)
         == AttachAll(AttachOne(docs, owners, Member(ts[0], inverseField), ts[0], field, many),
                      owners, ts[1..], field, inverseField, many)
  {
    assert forall k :: 1 <= k < |ts| ==> ts[1..][k - 1] == ts[k];
  }

  /** The whole target loop leaves every holder as `Expected` says. */
  lemma {:induction false} AttachAllJoins(docs: seq<Value>, base: seq<Entries<Value>>, keys: seq<string>,
                                          done: seq<Value>, ts: seq<Value>,
                                          field: string, inverseField: string, many: bool)
    requires Joined(docs, base, keys, done, field, inverseField, many) && Present(ts)
    ensures Below(Owners(keys), |docs|)
    ensures var r := AttachAll(docs, Owners(keys), ts, field, inverseField, many);
      r.Ok? && Joined(r.value, base, keys, done + ts, field, inverseField, many)
    decreases |ts|
  {
    OwnersInRange(keys);
    if |ts| == 0 {
      assert done + ts == done;
    } else {
      var next := AttachOne(docs, Owners(keys), Member(ts[0], inverseField), ts[0], field, many);
      AttachStep(docs, base, keys, done, ts[0], field, inverseField, many);
      AttachAllUnfold(docs, Owners(keys), ts, field, inverseField, many);
      AttachAllJoins(next, base, keys, done + [ts[0]], ts[1..], field, inverseField, many);
      JoinedAfter(base, keys, done, ts, AttachAll(next, Owners(keys), ts[1..], field, inverseField, many).value,
                  field, inverseField, many);
    }
  }

  /** Splitting off the first target does not change where the loop ends. */
  lemma JoinedAfter(base: seq<Entries<Value>>, keys: seq<string>, done: seq<Value>, ts: seq<Value>,
                    out: seq<Value>, field: string, inverseField: string, many: bool)
    requires |ts| > 0 && Joined(out, base, keys, (done + [ts[0]]) + ts[1..], field, inverseField, many)
    ensures Joined(out, base, keys, done + ts, field, inverseField, many)
  {
    assert (done + [ts[0]]) + ts[1..] == done + ts;
  }

  /** The `has` join over the list of holders: every holder's field is
      reset, the holders are hashed by their `_id` text, and each target
      is attached to the holder its inverse field names. */
  function JoinHolders(holders: seq<Value>, field: string, inverseField: string, many: bool,
                       ts: seq<Value>): (r: Result<seq<Value>>)
    ensures r.Ok? ==> |r.value| == |holders|
  {
    var reset :- ResetEach(holders, field, many);
    var keys :- HolderKeys(reset);
    OwnersInRange(keys);
    AttachAll(reset, Owners(keys), ts, field, inverseField, many)
  }

  /** `has(...)`'s join for the fetched `targetDocs`: a single holder is
      joined as a one-element list and returned unwrapped. */
  function HasJoin(docs: Value, field: string, inverseField: string, many: bool, targetDocs: Value): (r: Result<Value>)
    ensures docs.Arr? && r.Ok? ==> r.value.Arr? && |r.value.items| == |docs.items|
    ensures r.Fail? <==> JoinHolders(if docs.Arr? then docs.items else [docs], field, inverseField, many, TargetList(targetDocs)).Fail?
    ensures docs.Arr? && r.Ok? ==> JoinHolders(docs.items, field, inverseField, many, TargetList(targetDocs)) == Ok(r.value.items)
    ensures !docs.Arr? && r.Ok? ==> JoinHolders([docs], field, inverseField, many, TargetList(targetDocs)) == Ok([r.value])
  {
    var holders := if docs.Arr? then docs.items else [docs];
    var j := JoinHolders(holders, field, inverseField, many, TargetList(targetDocs));
    if j.Fail? then Fail(j.error)
    else if docs.Arr? then Ok(Arr(j.value))
    else
      assert j.value == [j.value[0]];
      Ok(j.value[0])
  }

  /** The keys the `has` join hashes the holders by: each holder's `_id`
      text once its field is reset. */
  function ResetKeys(docs: seq<Value>, field: string, many: bool): (keys: seq<string>)
    ensures |keys| == |docs|
  {
    seq(|docs|, i requires 0 <= i < |docs| => IdText(Obj(Put(FieldsOf(docs[i]), field, Empty(many)))))
  }

  /** The join fails exactly when a holder is not an object, a reset
      holder has no `_id`, or a target is `null` or `undefined`. */
  lemma JoinHoldersFails(holders: seq<Value>, field: string, inverseField: string, many: bool, ts: seq<Value>)
    ensures JoinHolders(holders, field, inverseField, many, ts).Fail?
      <==> ((exists i :: 0 <= i < |holders| && !holders[i].Obj?)
            || (exists i :: 0 <= i < |holders| && Nullish(Member(Obj(Put(FieldsOf(holders[i]), field, Empty(many))), "_id")))
            || exists k :: 0 <= k < |ts| && Nullish(ts[k]))
  {
    var r := ResetEach(holders, field, many);
    if r.Ok? {
      assert forall i :: 0 <= i < |holders| ==> r.value[i] == Obj(Put(FieldsOf(holders[i]), field, Empty(many)));
      var keys := HolderKeys(r.value);
      if keys.Ok? {
        OwnersInRange(keys.value);
      }
    }
  }

  /** Every holder keeps its other fields and ends with the value
      `Expected` describes in `field`. */
  lemma JoinHoldersResult(holders: seq<Value>, field: string, inverseField: string, many: bool, ts: seq<Value>)
    requires JoinHolders(holders, field, inverseField, many, ts).Ok?
    ensures forall i :: 0 <= i < |holders| ==> holders[i].Obj?
    ensures forall i :: 0 <= i < |holders| ==>
      JoinHolders(holders, field, inverseField, many, ts).value[i]
        == Obj(Put(holders[i].fields, field, Expected(ResetKeys(holders, field, many), i, ts, inverseField, many)))
  {
    var reset := ResetEach(holders, field, many).value;
    var keys := HolderKeys(reset).value;
    assert keys == ResetKeys(holders, field, many);
    var base := seq(|holders|, i requires 0 <= i < |holders| => holders[i].fields);
    JoinedStart(reset, base, keys, field, inverseField, many);
    AttachAllJoins(reset, base, keys, [], ts, field, inverseField, many);
    var out := JoinHolders(holders, field, inverseField, many, ts).value;
    assert out == AttachAll(reset, Owners(keys), ts, field, inverseField, many).value;
    assert [] + ts == ts;
    JoinedEnd(out, base, keys, ts, field, inverseField, many);
  }

  /** Before the target loop every holder holds its reset value. */
  lemma JoinedStart(reset: seq<Value>, base: seq<Entries<Value>>, keys: seq<string>,
                    field: string, inverseField: string, many: bool)
    requires |reset| == |base| == |keys|
    requires forall i :: 0 <= i < |reset| ==> reset[i] == Obj(Put(base[i], field, Empty(many)))
    ensures Joined(reset, base, keys, [], field, inverseField, many)
  {
    forall i | 0 <= i < |reset|
      ensures HolderAfter(reset[i], base[i], keys, i, [], field, inverseField, many)
    {
      assert Expected(keys, i, [], inverseField, many) == Empty(many);
    }
  }

  /** `Joined` read back holder by holder. */
  lemma JoinedEnd(out: seq<Value>, base: seq<Entries<Value>>, keys: seq<string>, ts: seq<Value>,
                  field: string, inverseField: string, many: bool)
    requires Joined(out, base, keys, ts, field, inverseField, many)
    ensures forall i :: 0 <= i < |out| ==> out[i] == Obj(Put(base[i], field, Expected(keys, i, ts, inverseField, many)))
  {
    forall i | 0 <= i < |out|
      ensures out[i] == Obj(Put(base[i], field, Expected(keys, i, ts, inverseField, many)))
    {
      assert HolderAfter(out[i], base[i], keys, i, ts, field, inverseField, many);
    }
  }

  /** Holder `i`'s field after the join is the value `Expected` describes. */
  lemma JoinHolderAt(holders: seq<Value>, field: string, inverseField: string, many: bool, ts: seq<Value>, i: nat)
    requires JoinHolders(holders, field, inverseField, many, ts).Ok? && i < |holders|
    ensures Member(JoinHolders(holders, field, inverseField, many, ts).value[i], field)
         == Expected(ResetKeys(holders, field, many), i, ts, inverseField, many)
  {
    JoinHoldersResult(holders, field, inverseField, many, ts);
  }

  /** Every holder is reset first: a holder no target names, or one that a
      later holder with the same `_id` text shadows, ends with `[]` (many)
      or `null` (one). */
  lemma UnmatchedHolderReset(holders: seq<Value>, field: string, inverseField: string, many: bool,
                             ts: seq<Value>, i: nat)
    requires JoinHolders(holders, field, inverseField, many, ts).Ok? && i < |holders|
    requires var keys := ResetKeys(holders, field, many);
      !Owns(keys, i) || forall k :: 0 <= k < |ts| ==> !Names(ts[k], inverseField, keys[i])
    ensures Member(JoinHolders(holders, field, inverseField, many, ts).value[i], field) == Empty(many)
  {
    JoinHolderAt(holders, field, inverseField, many, ts, i);
    var keys := ResetKeys(holders, field, many);
    if Owns(keys, i) {
      NoneMatching(ts, inverseField, keys[i]);
    }
  }

  /** No target names `key`: nothing matches. */
  lemma {:induction false} NoneMatching(ts: seq<Value>, inverseField: string, key: string)
    requires forall k :: 0 <= k < |ts| ==> !Names(ts[k], inverseField, key)
    ensures Matching(ts, inverseField, key) == []
    decreases |ts|
  {
    if |ts| > 0 {
      var front := ts[..|ts| - 1];
      assert forall k :: 0 <= k < |front| ==> front[k] == ts[k];
      NoneMatching(front, inverseField, key);
    }
  }

  /** For `hasOne`, the last target naming a holder wins. */
  lemma HasOneLastWins(holders: seq<Value>, field: string, inverseField: string,
                       ts: seq<Value>, i: nat, k: nat)
    requires JoinHolders(holders, field, inverseField, false, ts).Ok? && i < |holders| && k < |ts|
    requires var keys := ResetKeys(holders, field, false);
      Owns(keys, i) && Names(ts[k], inverseField, keys[i])
      && forall m :: k < m < |ts| ==> !Names(ts[m], inverseField, keys[i])
    ensures Member(JoinHolders(holders, field, inverseField, false, ts).value[i], field) == ts[k]
  {
    JoinHolderAt(holders, field, inverseField, false, ts, i);
    ExpectedLast(ResetKeys(holders, field, false), i, ts, inverseField, k);
  }

  /** A holder the hash keeps ends, for `hasOne`, with the last target naming it. */
  lemma ExpectedLast(keys: seq<string>, i: nat, ts: seq<Value>, inverseField: string, k: nat)
    requires i < |keys| && k < |ts| && Owns(keys, i) && Names(ts[k], inverseField, keys[i])
    requires forall m :: k < m < |ts| ==> !Names(ts[m], inverseField, keys[i])
    ensures Expected(keys, i, ts, inverseField, false) == ts[k]
  {
    MatchingLast(ts, inverseField, keys[i], k);
  }

  /** The last target naming `key` is the last of `Matching`. */
  lemma {:induction false} MatchingLast(ts: seq<Value>, inverseField: string, key: string, k: nat)
    requires k < |ts| && Names(ts[k], inverseField, key)
    requires forall m :: k < m < |ts| ==> !Names(ts[m], inverseField, key)
    ensures var found := Matching(ts, inverseField, key);
      |found| > 0 && found[|found| - 1] == ts[k]
    decreases |ts|
  {
    if k < |ts| - 1 {
      var front := ts[..|ts| - 1];
      assert front[k] == ts[k];
      assert forall m :: k < m < |front| ==> front[m] == ts[m];
      MatchingLast(front, inverseField, key, k);
    }
  }

  /** For `hasMany`, a holder collects exactly the targets naming it, in
      target order. */
  lemma HasManyCollects(holders: seq<Value>, field: string, inverseField: string, ts: seq<Value>, i: nat)
    requires JoinHolders(holders, field, inverseField, true, ts).Ok? && i < |holders|
    requires Owns(ResetKeys(holders, field, true), i)
    ensures Member(JoinHolders(holders, field, inverseField, true, ts).value[i], field)
         == Arr(Matching(ts, inverseField, ResetKeys(holders, field, true)[i]))
  {
    JoinHolderAt(holders, field, inverseField, true, ts, i);
  }

  // ---------------------------------------------------------------------
  // Declarations

  /** `o.field || util.field(target, many)`. A given field must be a
      string: `util.method` reads its first character with `charAt`. */
  function AccessorField(infl: Naming.Inflector, o: Value, target: string, many: bool): (r: Result<string>)
    ensures Truthy(Member(o, "field")) ==> (r.Ok? <==> Member(o, "field").Str?)
    ensures Truthy(Member(o, "field")) && r.Ok? ==> r.value == Member(o, "field").s
    ensures !Truthy(Member(o, "field")) ==> r == Naming.FieldName(infl, target, many)
  {
    var given := Member(o, "field");
    if Truthy(given) then (if given.Str? then Ok(given.s) else Fail(TypeErrorMessage))
    else Naming.FieldName(infl, target, many)
  }

  /** The id property `belongsTo` declares: `{type: ObjectId}`, with
      `required` and `humanized` copied when the options set them. */
  function IdSpec(o: Value): Value {
    Obj([("type", Fn(Native(ObjectIdType)))]
        + (if Truthy(Member(o, "required")) then [("required", Bool(true))] else [])
        + (if Truthy(Member(o, "humanized")) then [("humanized", Member(o, "humanized"))] else []))
  }

  /** `belongsTo(target, opts)`: declares the id property `field`, then
      the accessor `populate<Field>` as a static and a forwarding method. */
  function DeclareBelongsTo(env: Schema.Env, infl: Naming.Inflector, m: Models.Model,
                            target: string, opts: Value): (r: Result<Models.Model>)
    ensures var o := if Truthy(opts) then opts else Obj([]);
      r.Ok? ==> (AccessorField(infl, o, target, false).Ok?
                 && var field := AccessorField(infl, o, target, false).value;
                    var accessor := Naming.MethodName(field, "");
                    accessor !in m.statics
                    && r.value.statics == m.statics[accessor := Models.Join(field)]
                    && r.value.proto == m.proto[accessor := Models.Forward(accessor)]
                    && Schema.Extends(m.rules, r.value.rules) && Schema.AddedUnder(m.rules, r.value.rules, field))
  {
    var o := if Truthy(opts) then opts else Obj([]);
    var field :- AccessorField(infl, o, target, false);
    var rules :- Schema.Property(env, m.rules, Str(field), IdSpec(o));
    Models.Relate(m.(rules := rules), Naming.MethodName(field, ""), Models.Join(field))
  }

  /** `opts.inverse || util.field(this.model.modelName)`. */
  function InverseField(infl: Naming.Inflector, o: Value, modelName: string): (r: Result<string>)
    ensures Truthy(Member(o, "inverse")) ==> r == Ok(ToText(Member(o, "inverse")))
    ensures !Truthy(Member(o, "inverse")) ==> r == Naming.FieldName(infl, modelName, false)
  {
    var given := Member(o, "inverse");
    if Truthy(given) then Ok(ToText(given)) else Naming.FieldName(infl, modelName, false)
  }

  /** `hasOne(target, opts)` (`many` false) and `hasMany(target, opts)`
      (`many` true): the accessor `populate<Field>` as a static and a
      forwarding method; no property is declared. */
  function DeclareHas(infl: Naming.Inflector, m: Models.Model, modelName: string,
                      target: string, opts: Value, many: bool): (r: Result<Models.Model>)
    ensures var o := if Truthy(opts) then opts else Obj([]);
      r.Ok? ==> (InverseField(infl, o, modelName).Ok? && AccessorField(infl, o, target, many).Ok?
                 && var field := AccessorField(infl, o, target, many).value;
                    var accessor := Naming.MethodName(field, "");
                    accessor !in m.statics
                    && r.value == m.(statics := m.statics[accessor := Models.Join(field)],
                                     proto := m.proto[accessor := Models.Forward(accessor)]))
    ensures var o := if Truthy(opts) then opts else Obj([]);
      modelName == "" && !Truthy(Member(o, "inverse")) ==> r == Fail("Bad model name!")
  {
    var o := if Truthy(opts) then opts else Obj([]);
    var _ :- InverseField(infl, o, modelName);
    var field :- AccessorField(infl, o, target, many);
    Models.Relate(m, Naming.MethodName(field, ""), Models.Join(field))
  }

  /** The static names of a model that hold functions. */
  function Functions(m: Models.Model): set<string> {
    set k | k in m.statics && !m.statics[k].Given?
  }

  /** Once a relation is declared, a query of the model may populate its
      field: the population check finds the accessor and calls it with
      the requested options. */
  lemma DeclaredFieldPopulates(infl: Naming.Inflector, m: Models.Model, modelName: string, target: string,
                               opts: Value, many: bool, q: Queries.Query, x: Value)
    requires DeclareHas(infl, m, modelName, target, opts, many).Ok?
    requires var o := if Truthy(opts) then opts else Obj([]);
      q.populations == [(AccessorField(infl, o, target, many).value, x)]
    ensures var o := if Truthy(opts) then opts else Obj([]);
      var field := AccessorField(infl, o, target, many).value;
      Queries.PopulationCalls(q, Functions(DeclareHas(infl, m, modelName, target, opts, many).value))
        == Ok([(Naming.MethodName(field, ""), x)])
  {
    var o := if Truthy(opts) then opts else Obj([]);
    var field := AccessorField(infl, o, target, many).value;
    var r := DeclareHas(infl, m, modelName, target, opts, many).value;
    assert Naming.MethodName(field, "") in Functions(r);
    var calls := Queries.PopulationCalls(q, Functions(r)).value;
    assert calls == [calls[0]];
  }

  // ---------------------------------------------------------------------
  // The accessor queries

  /** `shien.assign({}, queryOpts, opts)`: the own entries of the
      relation's query options, then those of the call's. */
  function Combined(queryOpts: Value, opts: Value): (r: Value)
    ensures r.Obj?
    ensures forall k :: HasKey(FieldsOf(opts), k) ==> HasKey(r.fields, k)
    ensures forall k :: !HasKey(FieldsOf(opts), k) && !HasKey(FieldsOf(queryOpts), k) ==> !HasKey(r.fields, k)
  {
    Obj(PutAll(PutAll([], FieldsOf(queryOpts)), FieldsOf(opts)))
  }

  /** The query an accessor runs: `find` (when it can match several
      documents, with the cap lifted by `limit(+Infinity)`) or `findOne`
      on the id condition, configured by `apply` with the combined
      options. */
  function AccessorQuery(merge: (Value, Value) -> Value, cond: Value, several: bool,
                         queryOpts: Value, opts: Value): (r: Result<Queries.Query>)
    ensures r.Ok? ==> r.value.single == !several
  {
    var q := Queries.New(cond, !several);
    // `limit` accepts any number on a query for several documents
    var q1 := if several then q.(options := Put(q.options, "limit", Num(Infinity(false)))) else q;
    assert several ==> Queries.Limit(q, Num(Infinity(false))) == Ok(q1);
    ApplyKeepsMode(merge, q1, Combined(queryOpts, opts));
    Queries.Apply(merge, q1, Combined(queryOpts, opts))
  }

  lemma {:induction false} ApplyEachKeepsMode(q: Queries.Query, e: Entries<Value>)
    ensures Queries.ApplyEach(q, e).Ok? ==> Queries.ApplyEach(q, e).value.single == q.single
    decreases |e|
  {
    if |e| > 0 {
      var next := if e[0].0 in Queries.Invocable then Queries.Invoke(q, e[0].0, e[0].1) else Ok(q);
      if next.Ok? {
        ApplyEachKeepsMode(next.value, e[1..]);
      }
    }
  }

  lemma ApplyKeepsMode(merge: (Value, Value) -> Value, q: Queries.Query, opts: Value)
    ensures Queries.Apply(merge, q, opts).Ok? ==> Queries.Apply(merge, q, opts).value.single == q.single
  {
    var o := if Truthy(opts) then opts else Obj([]);
    var find := Member(o, "find");
    var q1 := if Truthy(find) then q.(criteria := merge(q.criteria, find)) else q;
    ApplyEachKeepsMode(q1, OwnEntries(o));
  }

  /** The `belongsTo` accessor's query: the target documents whose `_id`
      is one of the holders' `field`, or the holder's. */
  function BelongsToQuery(merge: (Value, Value) -> Value, docs: Value, field: string,
                          queryOpts: Value, opts: Value): (r: Result<Queries.Query>)
    ensures r.Ok? ==> PluckIds(docs, field).Ok? && r.value.single == !docs.Arr?
  {
    var ids :- PluckIds(docs, field);
    AccessorQuery(merge, IdCondition("_id", ids), docs.Arr?, queryOpts, opts)
  }

  /** The `has` accessor's query: the target documents whose inverse
      field is one of the holders' `_id`s; several are expected for
      `hasMany` or for an array of holders. */
  function HasQuery(merge: (Value, Value) -> Value, docs: Value, inverseField: string, many: bool,
                    queryOpts: Value, opts: Value): (r: Result<Queries.Query>)
    ensures r.Ok? ==> PluckIds(docs, "").Ok? && r.value.single == !(many || docs.Arr?)
  {
    var ids :- PluckIds(docs, "");
    AccessorQuery(merge, IdCondition(inverseField, ids), many || docs.Arr?, queryOpts, opts)
  }

  /** Without query options, an accessor that can match several
      documents lifts the default cap to `+Infinity`, and one that matches
      a single document has no limit. */
  lemma AccessorCap(merge: (Value, Value) -> Value, cond: Value, several: bool)
    requires cond.Obj?
    ensures AccessorQuery(merge, cond, several, Undefined, Undefined).Ok?
    ensures var q := AccessorQuery(merge, cond, several, Undefined, Undefined).value;
      q.criteria == cond
      && (several ==> Lookup(q.options, "limit") == Some(Num(Infinity(false))))
      && (!several ==> q.options == [])
  {
    var c := Combined(Undefined, Undefined);
    assert c == Obj([]);
    assert Member(c, "find") == Undefined;
  }
}

/** A JavaScript object's own enumerable properties, as an association
    list in enumeration order. Assigning an existing key keeps its position;
    assigning a new key appends it, as property assignment does for
    non-index keys. */
module Fields {
  import opened Wrappers

  type Entries<V> = seq<(string, V)>

  function Keys<V>(e: Entries<V>): (ks: seq<string>)
  {
    seq(|e|, i requires 0 <= i < |e| => e[i].0)
  }

  predicate HasKey<V>(e: Entries<V>, k: string) {
    exists i :: 0 <= i < |e| && e[i].0 == k
  }

  /** The keys are pairwise distinct, as they are in a real object. */
  predicate Distinct<V>(e: Entries<V>) {
    forall i, j :: 0 <= i < j < |e| ==> e[i].0 != e[j].0
  }

  lemma HasKeyCons<V>(e: Entries<V>, k: string)
    requires |e| > 0
    ensures HasKey(e, k) <==> e[0].0 == k || HasKey(e[1..], k)
  {
    if HasKey(e, k) && e[0].0 != k {
      var i :| 0 <= i < |e| && e[i].0 == k;
      assert e[1..][i - 1].0 == k;
    }
    if HasKey(e[1..], k) {
      var i :| 0 <= i < |e| - 1 && e[1..][i].0 == k;
      assert e[i + 1].0 == k;
    }
  }

  /** `obj[k]` for an own property: the first entry with that key. */
  function Lookup<V>(e: Entries<V>, k: string): (r: Option<V>)
    ensures r.None? <==> !HasKey(e, k)
    ensures r.Some? ==> (k, r.value) in e
    ensures r.Some? && Distinct(e) ==> forall i :: 0 <= i < |e| && e[i].0 == k ==> e[i].1 == r.value
  {
    if |e| == 0 then None
    else if e[0].0 == k then Some(e[0].1)
    else
      HasKeyCons(e, k);
      var r := Lookup(e[1..], k);
      assert r.Some? ==> (k, r.value) in e[1..];
      r
  }

  /** The position of the entry `Lookup` finds. */
  function KeyIndex<V>(e: Entries<V>, k: string): (i: nat)
    requires HasKey(e, k)
    ensures i < |e| && e[i].0 == k && Lookup(e, k) == Some(e[i].1)
  {
    if e[0].0 == k then 0
    else
      HasKeyCons(e, k);
      KeyIndex(e[1..], k) + 1
  }

  /** `obj[k] = v`. */
  function Put<V>(e: Entries<V>, k: string, v: V): (r: Entries<V>)
    ensures Lookup(r, k) == Some(v)
    ensures forall k' :: k' != k ==> Lookup(r, k') == Lookup(e, k')
  {
    if |e| == 0 then [(k, v)]
    else if e[0].0 == k then [(k, v)] + e[1..]
    else [e[0]] + Put(e[1..], k, v)
  }

  lemma {:induction false} PutKeys<V>(e: Entries<V>, k: string, v: V)
    ensures Keys(Put(e, k, v)) == if HasKey(e, k) then Keys(e) else Keys(e) + [k]
  {
    if |e| > 0 {
      HasKeyCons(e, k);
      var r := Put(e, k, v);
      if e[0].0 != k {
        PutKeys(e[1..], k, v);
        var r' := Put(e[1..], k, v);
        assert r == [e[0]] + r';
        KeysCons(e[0], r');
        KeysCons(e[0], e[1..]);
        assert [e[0]] + e[1..] == e;
      } else {
        KeysCons((k, v), e[1..]);
        KeysCons(e[0], e[1..]);
        assert [e[0]] + e[1..] == e;
      }
    }
  }

  /** Assigning a key the value it already has changes nothing. */
  lemma {:induction false} PutExisting<V>(e: Entries<V>, k: string, v: V)
    requires Lookup(e, k) == Some(v)
    ensures Put(e, k, v) == e
  {
    if |e| > 0 && e[0].0 != k {
      PutExisting(e[1..], k, v);
      assert [e[0]] + e[1..] == e;
    } else if |e| > 0 {
      assert [(k, v)] + e[1..] == e;
    }
  }

  /** Assigning a key the object does not have appends it. */
  lemma {:induction false} PutNew<V>(e: Entries<V>, k: string, v: V)
    requires !HasKey(e, k)
    ensures Put(e, k, v) == e + [(k, v)]
  {
    if |e| > 0 {
      HasKeyCons(e, k);
      PutNew(e[1..], k, v);
      assert [e[0]] + (e[1..] + [(k, v)]) == e + [(k, v)];
    }
  }

  lemma KeysCons<V>(x: (string, V), e: Entries<V>)
    ensures Keys([x] + e) == [x.0] + Keys(e)
  {
  }

  lemma PutHasKey<V>(e: Entries<V>, k: string, v: V, k': string)
    ensures HasKey(Put(e, k, v), k') <==> k' == k || HasKey(e, k')
  {
    assert Lookup(Put(e, k, v), k').Some? <==> k' == k || Lookup(e, k').Some?;
  }

  lemma {:induction false} PutDistinct<V>(e: Entries<V>, k: string, v: V)
    requires Distinct(e)
    ensures Distinct(Put(e, k, v))
  {
    if |e| > 0 && e[0].0 != k {
      PutDistinct(e[1..], k, v);
      var r := Put(e, k, v);
      assert r == [e[0]] + Put(e[1..], k, v);
      forall j | 0 < j < |r| ensures r[j].0 != e[0].0 {
        PutHasKey(e[1..], k, v, e[0].0);
        assert !HasKey(e[1..], e[0].0);
        assert r[j] == Put(e[1..], k, v)[j - 1];
      }
    }
  }

  /** `Object.assign(target, source)` for two entry lists: every source
      entry is put, in source order. */
  function PutAll<V>(target: Entries<V>, source: Entries<V>): (r: Entries<V>)
    ensures forall k :: !HasKey(source, k) ==> Lookup(r, k) == Lookup(target, k)
    ensures forall k :: HasKey(source, k) ==> HasKey(r, k)
    decreases |source|
  {
    if |source| == 0 then target
    else
      var r := PutAll(Put(target, source[0].0, source[0].1), source[1..]);
      assert forall k :: HasKey(source, k) <==> k == source[0].0 || HasKey(source[1..], k) by {
        forall k ensures HasKey(source, k) <==> k == source[0].0 || HasKey(source[1..], k) {
          HasKeyCons(source, k);
        }
      }
      r
  }

  /** The value of the last entry with key `k`. */
  function Latest<V>(e: Entries<V>, k: string): (r: Option<V>)
    ensures r.None? <==> !HasKey(e, k)
    ensures r.Some? ==> exists i :: 0 <= i < |e| && e[i] == (k, r.value) && forall m :: i < m < |e| ==> e[m].0 != k
    decreases |e|
  {
    if |e| == 0 then None
    else if e[|e| - 1].0 == k then Some(e[|e| - 1].1)
    else
      assert forall i :: 0 <= i < |e| - 1 ==> e[..|e| - 1][i] == e[i];
      Latest(e[..|e| - 1], k)
  }

  /** Only one entry with key `k` has no later entry with that key. */
  lemma LastIndexUnique<V>(e: Entries<V>, k: string, i: nat, j: nat)
    requires i < |e| && j < |e| && e[i].0 == k && e[j].0 == k
    requires forall m :: i < m < |e| ==> e[m].0 != k
    requires forall m :: j < m < |e| ==> e[m].0 != k
    ensures i == j
  {
  }

  /** `Latest` is the value at the last index holding `k`. */
  lemma LatestAt<V>(e: Entries<V>, k: string, i: nat)
    requires i < |e| && e[i].0 == k && forall m :: i < m < |e| ==> e[m].0 != k
    ensures Latest(e, k) == Some(e[i].1)
  {
    assert HasKey(e, k);
    var j :| 0 <= j < |e| && e[j] == (k, Latest(e, k).value) && forall m :: j < m < |e| ==> e[m].0 != k;
    LastIndexUnique(e, k, i, j);
  }

  /** After `Object.assign(target, source)`, a key holds the value of its
      last source entry, or its old value when the source lacks it. */
  lemma {:induction false} PutAllLatest<V>(target: Entries<V>, source: Entries<V>, k: string)
    ensures Lookup(PutAll(target, source), k) == if HasKey(source, k) then Latest(source, k) else Lookup(target, k)
    decreases |source|
  {
    if |source| > 0 {
      var t' := Put(target, source[0].0, source[0].1);
      PutAllLatest(t', source[1..], k);
      HasKeyCons(source, k);
      if HasKey(source[1..], k) {
        LatestInTail(source, k);
      } else if source[0].0 == k {
        LatestAtHead(source, k);
      }
    }
  }

  /** A key the tail holds has its latest value there. */
  lemma LatestInTail<V>(source: Entries<V>, k: string)
    requires |source| > 0 && HasKey(source[1..], k)
    ensures Latest(source, k) == Latest(source[1..], k)
  {
    var r := Latest(source[1..], k).value;
    var i :| 0 <= i < |source| - 1 && source[1..][i] == (k, r) && forall m :: i < m < |source| - 1 ==> source[1..][m].0 != k;
    assert forall m :: i + 1 < m < |source| ==> source[m].0 == source[1..][m - 1].0;
    LatestAt(source, k, i + 1);
  }

  /** A key only the head holds has the head's value. */
  lemma LatestAtHead<V>(source: Entries<V>, k: string)
    requires |source| > 0 && source[0].0 == k && !HasKey(source[1..], k)
    ensures Latest(source, k) == Some(source[0].1)
  {
    assert forall m :: 0 < m < |source| ==> source[m].0 == source[1..][m - 1].0;
    LatestAt(source, k, 0);
  }

  /** Assigning a key twice keeps only the second value. */
  lemma {:induction false} PutPut<V>(e: Entries<V>, k: string, a: V, b: V)
    ensures Put(Put(e, k, a), k, b) == Put(e, k, b)
  {
    if |e| > 0 && e[0].0 != k {
      PutPut(e[1..], k, a, b);
    }
  }
}

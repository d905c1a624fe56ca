/** Dotted property paths, as `applyFiltering` and `applyValidation` read
    and write them. A path names nested members separated by `.`; a numeric
    segment names an array element. Reading descends through objects and
    arrays only. Writing creates missing (or primitive) intermediate
    members as empty objects, and a write into something that cannot hold
    the member is dropped. */
module Paths {
  import opened Wrappers
  import opened Fields
  import opened Values
  import Text

  function Segments(path: string): (segs: seq<string>)
    ensures |segs| >= 1
  {
    Text.Split(path, '.')
  }

  predicate IsContainer(v: Value) {
    v.Obj? || v.Arr?
  }

  /** The member a sequence of segments leads to, `undefined` when the way
      is broken. */
  function GetIn(v: Value, segs: seq<string>): Value
    decreases |segs|
  {
    if |segs| == 0 then v
    else if IsContainer(v) then GetIn(Member(v, segs[0]), segs[1..])
    else Undefined
  }

  /** `get(obj, path)`; the empty path is the value itself. */
  function Get(obj: Value, path: string): Value {
    if path == "" then obj else GetIn(obj, Segments(path))
  }

  /** `key` can be assigned on `v`: any key of an object, and an array index
      inside the array or just past its end. */
  predicate Writable(v: Value, key: string) {
    v.Obj? || (v.Arr? && IndexOfKey(key).Some? && IndexOfKey(key).value <= |v.items|)
  }

  /** `v[key] = x`. Non-index keys on arrays and writes past the end of an
      array (which would leave holes) are not modelled and leave `v` as is. */
  function PutMember(v: Value, key: string, x: Value): Value {
    match v
    case Obj(fields) => Obj(Put(fields, key, x))
    case Arr(items) =>
      var i := IndexOfKey(key);
      if i.Some? && i.value < |items| then Arr(items[i.value := x])
      else if i.Some? && i.value == |items| then Arr(items + [x])
      else v
    case _ => v
  }

  function SetIn(v: Value, segs: seq<string>, x: Value): Value
    requires |segs| >= 1
    decreases |segs|
  {
    if |segs| == 1 then PutMember(v, segs[0], x)
    else
      var child := Member(v, segs[0]);
      var base := if IsContainer(child) then child else Obj([]);
      PutMember(v, segs[0], SetIn(base, segs[1..], x))
  }

  /** `set(obj, path, x)`. */
  function Set(obj: Value, path: string, x: Value): Value {
    SetIn(obj, Segments(path), x)
  }

  /** Two segment sequences part ways: neither is a prefix of the other. */
  predicate Diverge(s1: seq<string>, s2: seq<string>)
    decreases |s1|
  {
    |s1| > 0 && |s2| > 0 && (s1[0] != s2[0] || Diverge(s1[1..], s2[1..]))
  }

  lemma MemberPutSame(v: Value, key: string, x: Value)
    requires Writable(v, key)
    ensures IsContainer(PutMember(v, key, x))
    ensures Member(PutMember(v, key, x), key) == x
  {
    if v.Arr? {
      var i := IndexOfKey(key).value;
      IndexKeyRoundTrip(i);
    }
  }

  lemma MemberPutOther(v: Value, key: string, other: string, x: Value)
    requires key != other
    ensures Member(PutMember(v, key, x), other) == Member(v, other)
  {
    if v.Arr? && IndexOfKey(key).Some? && IndexOfKey(other).Some? {
      assert IndexOfKey(key).value != IndexOfKey(other).value;
    }
  }

  lemma PutMemberExisting(v: Value, key: string)
    requires IsContainer(v) && Member(v, key) != Undefined
    ensures PutMember(v, key, Member(v, key)) == v
  {
    if v.Obj? {
      PutExisting(v.fields, key, Member(v, key));
    }
  }

  /** A member that can be read can be written. */
  lemma ReadableWritable(v: Value, key: string)
    requires IsContainer(v) && Member(v, key) != Undefined
    ensures Writable(v, key)
  {
  }

  /** Reading a path just written yields the written value, provided the
      path could already be read. */
  lemma {:induction false} GetSetSame(v: Value, segs: seq<string>, x: Value)
    requires |segs| >= 1 && GetIn(v, segs) != Undefined
    ensures GetIn(SetIn(v, segs, x), segs) == x
    decreases |segs|
  {
    var child := Member(v, segs[0]);
    ReadableWritable(v, segs[0]);
    if |segs| == 1 {
      MemberPutSame(v, segs[0], x);
    } else {
      assert IsContainer(child);
      GetSetSame(child, segs[1..], x);
      MemberPutSame(v, segs[0], SetIn(child, segs[1..], x));
    }
  }

  /** Writing back the value a path holds leaves the document unchanged. */
  lemma {:induction false} SetExisting(v: Value, segs: seq<string>)
    requires |segs| >= 1 && GetIn(v, segs) != Undefined
    ensures SetIn(v, segs, GetIn(v, segs)) == v
    decreases |segs|
  {
    var child := Member(v, segs[0]);
    if |segs| == 1 {
      PutMemberExisting(v, segs[0]);
    } else {
      assert IsContainer(child);
      SetExisting(child, segs[1..]);
      PutMemberExisting(v, segs[0]);
    }
  }

  lemma UndefinedBelowFresh(segs: seq<string>)
    requires |segs| >= 1
    ensures GetIn(Obj([]), segs) == Undefined
  {
    if |segs| > 1 {
      assert GetIn(Obj([]), segs) == GetIn(Undefined, segs[1..]);
    }
  }

  /** Writing one path leaves every path it diverges from as it was. */
  lemma {:induction false} GetSetOther(v: Value, s1: seq<string>, s2: seq<string>, x: Value)
    requires Diverge(s1, s2)
    ensures GetIn(SetIn(v, s1, x), s2) == GetIn(v, s2)
    decreases |s1|
  {
    if !IsContainer(v) {
      // a primitive holder ignores the write
    } else if s1[0] != s2[0] {
      var y := if |s1| == 1 then x else
        var child := Member(v, s1[0]);
        SetIn(if IsContainer(child) then child else Obj([]), s1[1..], x);
      assert SetIn(v, s1, x) == PutMember(v, s1[0], y);
      MemberPutOther(v, s1[0], s2[0], y);
    } else if Writable(v, s1[0]) {
      var child := Member(v, s1[0]);
      var base := if IsContainer(child) then child else Obj([]);
      GetSetOther(base, s1[1..], s2[1..], x);
      MemberPutSame(v, s1[0], SetIn(base, s1[1..], x));
      if !IsContainer(child) {
        UndefinedBelowFresh(s2[1..]);
      }
    }
  }

  /** The path forms of the three laws above. */
  lemma GetAfterSet(obj: Value, path: string, x: Value)
    requires path != "" && Get(obj, path) != Undefined
    ensures Get(Set(obj, path, x), path) == x
  {
    GetSetSame(obj, Segments(path), x);
  }

  lemma SetToCurrent(obj: Value, path: string)
    requires path != "" && Get(obj, path) != Undefined
    ensures Set(obj, path, Get(obj, path)) == obj
  {
    SetExisting(obj, Segments(path));
  }

  lemma GetAfterOtherSet(obj: Value, p: string, q: string, x: Value)
    requires p != "" && q != "" && Diverge(Segments(p), Segments(q))
    ensures Get(Set(obj, p, x), q) == Get(obj, q)
  {
    GetSetOther(obj, Segments(p), Segments(q), x);
  }
}

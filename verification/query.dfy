/** The query builder: a configuration record with validated setters, a
    single/multi mode, the default cap on multi-document queries, the
    arguments handed to the collection, and the checks made before the
    store is called. The collection calls themselves are left to the
    caller: `Exec` and `Stream` say which call is made with which
    arguments. */
module Queries {
  import opened Wrappers
  import opened Fields
  import opened Values
  import Text
  import Naming

  const DefaultLimit: int := 20

  const SelectError: string := "Bad fields to select!"
  const SortConditionError: string := "Bad sorting condition!"
  const SortDirectionError: string := "Bad sorting direction!"
  const SingleLimitError: string := "Cannot set limit when querying for a single document!"
  const LimitError: string := "Bad querying limit!"
  const SkipError: string := "Bad querying skipping!"
  const PopulateError: string := "Field(s) to populate must be a string/an array/an object!"
  const SingleStreamError: string := "Cannot stream when querying for a single document!"

  function PopulationError(field: string): string {
    "Bad population: `" + field + "`!"
  }

  /** A query: its criteria, the inclusion map `select` built (`null`
      until then), the driver options, the populations requested, the
      mode, and whether `lean` asked for raw documents. */
  datatype Query = Query(
    criteria: Value,
    fields: Option<Entries<Value>>,
    options: Entries<Value>,
    populations: Entries<Value>,
    single: bool,
    raw: bool)

  /** A single-document query never carries a limit. */
  predicate Uncapped(q: Query) {
    q.single ==> !HasKey(q.options, "limit")
  }

  /** `new Query(model, crit, single)`. */
  function New(crit: Value, single: bool): (q: Query)
    ensures q.criteria == (if Truthy(crit) then crit else Obj([]))
    ensures q.fields.None? && q.populations == [] && q.single == single && !q.raw
    ensures single ==> q.options == []
    ensures !single ==> Keys(q.options) == ["limit"] && Lookup(q.options, "limit") == Some(Num(Finite(DefaultLimit)))
    ensures Uncapped(q)
  {
    Query(if Truthy(crit) then crit else Obj([]), None,
          if single then [] else [("limit", Num(Finite(DefaultLimit)))],
          [], single, false)
  }

  // ---------------------------------------------------------------------
  // select

  /** The names `select` accepts: a string split on single spaces, or an
      array as it is. */
  function SelectNames(fields: Value): (r: Result<seq<Value>>)
    ensures r.Ok? <==> fields.Str? || fields.Arr?
    ensures r.Fail? ==> r.error == SelectError
  {
    match fields
    case Str(s) =>
      var words := Text.Split(s, ' ');
      Ok(seq(|words|, i requires 0 <= i < |words| => Str(words[i])))
    case Arr(items) => Ok(items)
    case _ => Fail(SelectError)
  }

  /** `this.fields[field] = true` for every name, in order. */
  function Inclusion(names: seq<Value>): (m: Entries<Value>)
    ensures forall k :: HasKey(m, k) <==> exists i :: 0 <= i < |names| && ToText(names[i]) == k
    ensures forall k :: HasKey(m, k) ==> Lookup(m, k) == Some(Bool(true))
    decreases |names|
  {
    if |names| == 0 then []
    else
      var front := names[..|names| - 1];
      var m := Put(Inclusion(front), ToText(names[|names| - 1]), Bool(true));
      InclusionStep(names, front, names[|names| - 1], Inclusion(front), m);
      m
  }

  /** Including one more name keeps `Inclusion`'s contract. */
  lemma InclusionStep(names: seq<Value>, front: seq<Value>, last: Value, prev: Entries<Value>, m: Entries<Value>)
    requires names == front + [last] && m == Put(prev, ToText(last), Bool(true))
    requires forall k :: HasKey(prev, k) <==> exists i :: 0 <= i < |front| && ToText(front[i]) == k
    requires forall k :: HasKey(prev, k) ==> Lookup(prev, k) == Some(Bool(true))
    ensures forall k :: HasKey(m, k) <==> exists i :: 0 <= i < |names| && ToText(names[i]) == k
    ensures forall k :: HasKey(m, k) ==> Lookup(m, k) == Some(Bool(true))
  {
    forall k ensures HasKey(m, k) <==> exists i :: 0 <= i < |names| && ToText(names[i]) == k {
      PutHasKey(prev, ToText(last), Bool(true), k);
      if k == ToText(last) {
        assert ToText(names[|front|]) == k;
      }
      if exists i :: 0 <= i < |front| && ToText(front[i]) == k {
        var i :| 0 <= i < |front| && ToText(front[i]) == k;
        assert ToText(names[i]) == k;
      }
      if exists i :: 0 <= i < |names| && ToText(names[i]) == k {
        var i :| 0 <= i < |names| && ToText(names[i]) == k;
        if i < |front| {
          assert ToText(front[i]) == k;
        }
      }
    }
  }

  /** `select(fields)`: replaces the inclusion map. */
  function Select(q: Query, fields: Value): (r: Result<Query>)
    ensures r.Ok? <==> fields.Str? || fields.Arr?
    ensures r.Fail? ==> r.error == SelectError
    ensures r.Ok? ==> r.value.fields.Some? && r.value == q.(fields := r.value.fields)
  {
    var names :- SelectNames(fields);
    Ok(q.(fields := Some(Inclusion(names))))
  }

  /** A string selection includes exactly its space-separated words. */
  lemma SelectWords(q: Query, s: string, k: string)
    ensures Select(q, Str(s)).Ok?
    ensures var m := Select(q, Str(s)).value.fields.value;
      (HasKey(m, k) <==> k in Text.Split(s, ' ')) && (HasKey(m, k) ==> Lookup(m, k) == Some(Bool(true)))
  {
    var words := Text.Split(s, ' ');
    var names := SelectNames(Str(s)).value;
    assert forall i :: 0 <= i < |names| ==> ToText(names[i]) == words[i];
    if k in words {
      var i :| 0 <= i < |words| && words[i] == k;
      assert ToText(names[i]) == k;
    }
  }

  // ---------------------------------------------------------------------
  // sort

  /** `SORTING_CONDITION`. */
  function Shorthand(t: string): Option<string> {
    if t == "1" || t == "+" then Some("asc")
    else if t == "-1" || t == "-" then Some("desc")
    else None
  }

  /** `dir && SORTING_CONDITION[dir.toString()]` replaces a shorthand
      direction by its name. */
  function Direction(dir: Value): Value {
    if Truthy(dir) && Shorthand(ToText(dir)).Some? then Str(Shorthand(ToText(dir)).value) else dir
  }

  predicate Named(dir: Value) {
    dir == Str("asc") || dir == Str("desc")
  }

  /** The `[prop, dir]` pairs of an object condition, in key order. */
  function SortPairs(e: Entries<Value>): (r: Result<seq<Value>>)
    ensures r.Ok? <==> forall i :: 0 <= i < |e| ==> Named(Direction(e[i].1))
    ensures r.Fail? ==> r.error == SortDirectionError
    ensures r.Ok? ==> |r.value| == |e| && forall i :: 0 <= i < |e| ==> r.value[i] == Arr([Str(e[i].0), Direction(e[i].1)])
  {
    if |e| == 0 then Ok([])
    else if !Named(Direction(e[0].1)) then Fail(SortDirectionError)
    else
      var rest :- SortPairs(e[1..]);
      assert forall i :: 1 <= i < |e| ==> e[1..][i - 1] == e[i];
      Ok([Arr([Str(e[0].0), Direction(e[0].1)])] + rest)
  }

  /** `sort(cond)`: a string is stored as it is; an object (including
      `null`, which has no keys) becomes the list of its `[key, dir]`
      pairs; anything else is rejected. */
  function Sort(q: Query, cond: Value): (r: Result<Query>)
    ensures cond.Str? ==> r == Ok(q.(options := Put(q.options, "sort", cond)))
    ensures !cond.Str? && TypeOf(cond) != "object" ==> r == Fail(SortConditionError)
    ensures TypeOf(cond) == "object" ==> (r.Ok? <==> forall i :: 0 <= i < |OwnEntries(cond)| ==> Named(Direction(OwnEntries(cond)[i].1)))
    ensures r.Ok? ==> r.value.(options := q.options) == q && HasKey(r.value.options, "sort")
    ensures r.Ok? ==> forall k :: k != "sort" ==> Lookup(r.value.options, k) == Lookup(q.options, k)
    ensures TypeOf(cond) == "object" && r.Ok? ==>
      var e := OwnEntries(cond);
      var stored := Lookup(r.value.options, "sort").value;
      stored.Arr? && |stored.items| == |e|
      && forall i :: 0 <= i < |e| ==> stored.items[i] == Arr([Str(e[i].0), Direction(e[i].1)]) && Named(Direction(e[i].1))
  {
    if cond.Str? then Ok(q.(options := Put(q.options, "sort", cond)))
    else if TypeOf(cond) != "object" then Fail(SortConditionError)
    else
      var pairs :- SortPairs(OwnEntries(cond));
      Ok(q.(options := Put(q.options, "sort", Arr(pairs))))
  }

  /** The directions `sort` accepts: `asc` and `desc` themselves, and the
      values whose text is `1` or `+` (ascending) or `-1` or `-`
      (descending). */
  lemma DirectionAccepted(dir: Value)
    ensures Named(Direction(dir)) <==> Named(dir) || (Truthy(dir) && ToText(dir) in ["1", "+", "-1", "-"])
    ensures Truthy(dir) && ToText(dir) in ["1", "+"] ==> Direction(dir) == Str("asc")
    ensures Truthy(dir) && ToText(dir) in ["-1", "-"] ==> Direction(dir) == Str("desc")
  {
  }

  /** `sort({a: 1, b: '-'})` stores `[['a', 'asc'], ['b', 'desc']]`. */
  lemma SortExample(q: Query, a: string, b: string)
    ensures var r := Sort(q, Obj([(a, Num(Finite(1))), (b, Str("-"))]));
      r.Ok? && Lookup(r.value.options, "sort") == Some(Arr([Arr([Str(a), Str("asc")]), Arr([Str(b), Str("desc")])]))
  {
    assert Text.NatText(1) == "1";
    assert Direction(Num(Finite(1))) == Str("asc");
    assert Direction(Str("-")) == Str("desc");
    var e := [(a, Num(Finite(1))), (b, Str("-"))];
    assert OwnEntries(Obj(e)) == e;
    assert Named(Direction(e[0].1)) && Named(Direction(e[1].1));
    var stored := Lookup(Sort(q, Obj(e)).value.options, "sort").value;
    assert stored.items[0] == Arr([Str(a), Str("asc")]) && stored.items[1] == Arr([Str(b), Str("desc")]);
    assert stored.items == [Arr([Str(a), Str("asc")]), Arr([Str(b), Str("desc")])];
  }

  // ---------------------------------------------------------------------
  // limit, skip, lean

  /** `limit(num)`. */
  function Limit(q: Query, num: Value): (r: Result<Query>)
    ensures q.single ==> r == Fail(SingleLimitError)
    ensures !q.single ==> (r.Ok? <==> num.Num?)
    ensures !q.single && !num.Num? ==> r == Fail(LimitError)
    ensures r.Ok? ==> r.value == q.(options := r.value.options) && Lookup(r.value.options, "limit") == Some(num)
    ensures r.Ok? ==> forall k :: k != "limit" ==> Lookup(r.value.options, k) == Lookup(q.options, k)
  {
    if q.single then Fail(SingleLimitError)
    else if TypeOf(num) != "number" then Fail(LimitError)
    else Ok(q.(options := Put(q.options, "limit", num)))
  }

  /** `skip(num)`. */
  function Skip(q: Query, num: Value): (r: Result<Query>)
    ensures r.Ok? <==> num.Num?
    ensures r.Fail? ==> r.error == SkipError
    ensures r.Ok? ==> r.value == q.(options := r.value.options) && Lookup(r.value.options, "skip") == Some(num)
    ensures r.Ok? ==> forall k :: k != "skip" ==> Lookup(r.value.options, k) == Lookup(q.options, k)
  {
    if TypeOf(num) != "number" then Fail(SkipError)
    else Ok(q.(options := Put(q.options, "skip", num)))
  }

  /** `lean()`: documents come back raw. */
  function Lean(q: Query): (r: Query)
    ensures r.raw && r.(raw := q.raw) == q
  {
    q.(raw := true)
  }

  // ---------------------------------------------------------------------
  // populate

  /** `populations[field] = {}` for every field of a list. */
  function EmptyOptions(names: seq<Value>): (e: Entries<Value>)
    ensures |e| == |names| && forall i :: 0 <= i < |names| ==> e[i] == (ToText(names[i]), Obj([]))
  {
    seq(|names|, i requires 0 <= i < |names| => (ToText(names[i]), Obj([])))
  }

  /** `populations[field] = fields[field] || {}` for every own key. */
  function GivenOptions(e: Entries<Value>): (r: Entries<Value>)
    ensures |r| == |e| && forall i :: 0 <= i < |e| ==> r[i].0 == e[i].0 && Truthy(r[i].1)
    ensures forall i :: 0 <= i < |e| && Truthy(e[i].1) ==> r[i].1 == e[i].1
  {
    seq(|e|, i requires 0 <= i < |e| => (e[i].0, if Truthy(e[i].1) then e[i].1 else Obj([])))
  }

  /** The entries `populate(fields)` assigns, in order. */
  function Requested(fields: Value): (r: Result<Entries<Value>>)
    ensures r.Ok? <==> fields.Str? || TypeOf(fields) == "object"
    ensures r.Fail? ==> r.error == PopulateError
    ensures r.Ok? ==> forall i :: 0 <= i < |r.value| ==> Truthy(r.value[i].1)
  {
    match fields
    case Str(s) => Ok([(s, Obj([]))])
    case Arr(items) => Ok(EmptyOptions(items))
    case _ => if TypeOf(fields) == "object" then Ok(GivenOptions(OwnEntries(fields))) else Fail(PopulateError)
  }

  /** `populate(fields)`. */
  function Populate(q: Query, fields: Value): (r: Result<Query>)
    ensures r.Ok? <==> fields.Str? || TypeOf(fields) == "object"
    ensures r.Fail? ==> r.error == PopulateError
    ensures r.Ok? ==> r.value == q.(populations := PutAll(q.populations, Requested(fields).value))
  {
    var e :- Requested(fields);
    Ok(q.(populations := PutAll(q.populations, e)))
  }

  /** After `populate`, each requested field holds options that are
      truthy: a falsy per-field option became `{}`. */
  lemma PopulatedOptionsTruthy(q: Query, fields: Value, k: string)
    requires Populate(q, fields).Ok? && HasKey(Requested(fields).value, k)
    ensures Lookup(Populate(q, fields).value.populations, k).Some?
    ensures Truthy(Lookup(Populate(q, fields).value.populations, k).value)
  {
    var e := Requested(fields).value;
    assert Populate(q, fields).value.populations == PutAll(q.populations, e);
    AssignedTruthy(q.populations, e, k);
  }

  /** A key the source assigns takes one of the source's values. */
  lemma AssignedTruthy(target: Entries<Value>, e: Entries<Value>, k: string)
    requires HasKey(e, k) && forall i :: 0 <= i < |e| ==> Truthy(e[i].1)
    ensures Lookup(PutAll(target, e), k).Some? && Truthy(Lookup(PutAll(target, e), k).value)
  {
    PutAllLatest(target, e, k);
    var v := Latest(e, k).value;
    var i :| 0 <= i < |e| && e[i] == (k, v) && forall m :: i < m < |e| ==> e[m].0 != k;
  }

  // ---------------------------------------------------------------------
  // apply

  /** The members of a query `apply` may invoke: its configuration
      methods other than `apply`, `exec` and `stream`. */
  const Invocable: set<string> := {"select", "sort", "limit", "skip", "populate", "lean"}

  function Invoke(q: Query, name: string, arg: Value): (r: Result<Query>)
    requires name in Invocable
  {
    if name == "select" then Select(q, arg)
    else if name == "sort" then Sort(q, arg)
    else if name == "limit" then Limit(q, arg)
    else if name == "skip" then Skip(q, arg)
    else if name == "populate" then Populate(q, arg)
    else Ok(Lean(q))
  }

  /** The loop of `apply` over the option keys, in order. */
  function ApplyEach(q: Query, e: Entries<Value>): (r: Result<Query>)
    ensures (forall i :: 0 <= i < |e| ==> e[i].0 !in Invocable) ==> r == Ok(q)
    decreases |e|
  {
    if |e| == 0 then Ok(q)
    else
      var next :- if e[0].0 in Invocable then Invoke(q, e[0].0, e[0].1) else Ok(q);
      assert forall i :: 1 <= i < |e| ==> e[1..][i - 1] == e[i];
      ApplyEach(next, e[1..])
  }

  /** A single option key runs its method, or changes nothing when it
      names none. */
  lemma ApplyEachOne(q: Query, k: string, v: Value)
    ensures ApplyEach(q, [(k, v)]) == if k in Invocable then Invoke(q, k, v) else Ok(q)
  {
    var e := [(k, v)];
    assert e[1..] == [];
  }

  /** The keys are taken in order: the keys of a concatenated list run as
      the first part, then the second on its result, and a throw in the
      first part stops the loop. */
  lemma {:induction false} ApplyEachConcat(q: Query, e1: Entries<Value>, e2: Entries<Value>)
    ensures ApplyEach(q, e1 + e2)
         == (match ApplyEach(q, e1) case Ok(q1) => ApplyEach(q1, e2) case Fail(m) => Fail(m))
    decreases |e1|
  {
    if |e1| == 0 {
      assert e1 + e2 == e2;
    } else {
      assert (e1 + e2)[0] == e1[0];
      assert (e1 + e2)[1..] == e1[1..] + e2;
      var step := if e1[0].0 in Invocable then Invoke(q, e1[0].0, e1[0].1) else Ok(q);
      if step.Ok? {
        ApplyEachConcat(step.value, e1[1..], e2);
      }
    }
  }

  /** `apply(opts)`: a truthy `find` is merged into the criteria (the merge
      is the `merge` parameter); then every key naming an invocable
      method is invoked with its value, in key order. The `find` key,
      deleted or not, names no method. */
  function Apply(merge: (Value, Value) -> Value, q: Query, opts: Value): (r: Result<Query>)
    ensures var o := if Truthy(opts) then opts else Obj([]);
      var q1 := if Truthy(Member(o, "find")) then q.(criteria := merge(q.criteria, Member(o, "find"))) else q;
      (forall i :: 0 <= i < |OwnEntries(o)| ==> OwnEntries(o)[i].0 !in Invocable) ==> r == Ok(q1)
  {
    var o := if Truthy(opts) then opts else Obj([]);
    var find := Member(o, "find");
    var q1 := if Truthy(find) then q.(criteria := merge(q.criteria, find)) else q;
    ApplyEach(q1, OwnEntries(o))
  }

  /** An option naming a method runs that method with its value. */
  lemma ApplyInvokes(merge: (Value, Value) -> Value, q: Query, name: string, arg: Value)
    requires name in Invocable
    ensures Apply(merge, q, Obj([(name, arg)])) == Invoke(q, name, arg)
  {
    var e := [(name, arg)];
    assert e[1..] == [];
  }

  /** Options are applied one after the other. */
  lemma ApplySequential(merge: (Value, Value) -> Value, q: Query, a: string, x: Value, b: string, y: Value)
    requires a in Invocable && b in Invocable && a != "find" && b != "find"
    ensures Apply(merge, q, Obj([(a, x), (b, y)]))
         == (match Invoke(q, a, x) case Ok(q1) => Invoke(q1, b, y) case Fail(m) => Fail(m))
  {
    var e := [(a, x), (b, y)];
    assert e[1..] == [(b, y)] && e[1..][1..] == [];
    assert Lookup(e[1..], "find") == None;
    assert Lookup(e, "find") == None;
    assert Member(Obj(e), "find") == Undefined;
    assert OwnEntries(Obj(e)) == e;
    assert Apply(merge, q, Obj(e)) == ApplyEach(q, e);
    if Invoke(q, a, x).Ok? {
      var q1 := Invoke(q, a, x).value;
      assert ApplyEach(q, e) == ApplyEach(q1, e[1..]);
      if Invoke(q1, b, y).Ok? {
        assert ApplyEach(q1, e[1..]) == ApplyEach(Invoke(q1, b, y).value, []);
      }
    }
  }

  // ---------------------------------------------------------------------
  // The mode invariant

  /** No method `apply` may invoke gives a single-document query a limit. */
  lemma InvokeKeepsUncapped(q: Query, name: string, arg: Value)
    requires Uncapped(q) && name in Invocable
    ensures Invoke(q, name, arg).Ok? ==> Uncapped(Invoke(q, name, arg).value)
  {
    if q.single && Invoke(q, name, arg).Ok? {
      var r := Invoke(q, name, arg).value;
      if name == "sort" {
        assert Lookup(r.options, "limit") == Lookup(q.options, "limit");
      } else if name == "skip" {
        assert Lookup(r.options, "limit") == Lookup(q.options, "limit");
      } else if name == "populate" || name == "select" {
        assert r.options == q.options;
      }
    }
  }

  lemma {:induction false} ApplyEachKeepsUncapped(q: Query, e: Entries<Value>)
    requires Uncapped(q)
    ensures ApplyEach(q, e).Ok? ==> Uncapped(ApplyEach(q, e).value)
    decreases |e|
  {
    if |e| > 0 {
      if e[0].0 in Invocable {
        InvokeKeepsUncapped(q, e[0].0, e[0].1);
        if Invoke(q, e[0].0, e[0].1).Ok? {
          ApplyEachKeepsUncapped(Invoke(q, e[0].0, e[0].1).value, e[1..]);
        }
      } else {
        ApplyEachKeepsUncapped(q, e[1..]);
      }
    }
  }

  /** A query built by `New` and configured by `apply` keeps the mode
      invariant: `apply` cannot give a single-document query a limit. */
  lemma ApplyKeepsUncapped(merge: (Value, Value) -> Value, q: Query, opts: Value)
    requires Uncapped(q)
    ensures Apply(merge, q, opts).Ok? ==> Uncapped(Apply(merge, q, opts).value)
  {
    var o := if Truthy(opts) then opts else Obj([]);
    var find := Member(o, "find");
    var q1 := if Truthy(find) then q.(criteria := merge(q.criteria, find)) else q;
    ApplyEachKeepsUncapped(q1, OwnEntries(o));
  }

  // ---------------------------------------------------------------------
  // Execution

  /** `getArguments()`: the criteria, then the inclusion map if `select`
      ran, then the options unless there are none. */
  function Arguments(q: Query): (args: seq<Value>)
    ensures |args| == 1 + (if q.fields.Some? then 1 else 0) + (if |q.options| > 0 then 1 else 0)
    ensures args[0] == q.criteria
    ensures q.fields.Some? ==> args[1] == Obj(q.fields.value)
    ensures |q.options| > 0 ==> args[|args| - 1] == Obj(q.options)
  {
    [q.criteria]
      + (if q.fields.Some? then [Obj(q.fields.value)] else [])
      + (if |q.options| > 0 then [Obj(q.options)] else [])
  }

  /** The collection call `exec` makes: `findOne` in single mode, `find`
      otherwise, with `Arguments`. */
  function ExecCall(q: Query): (call: (string, seq<Value>))
    ensures call.0 == (if q.single then "findOne" else "find") && call.1 == Arguments(q)
  {
    (if q.single then "findOne" else "find", Arguments(q))
  }

  /** A new query's arguments: a multi query is capped at the default
      limit, a single one passes the criteria alone. */
  lemma NewArguments(crit: Value, single: bool)
    ensures var c := if Truthy(crit) then crit else Obj([]);
      Arguments(New(crit, single)) == if single then [c] else [c, Obj([("limit", Num(Finite(DefaultLimit)))])]
  {
  }

  /** `stream()`: refused in single mode before any collection call;
      otherwise the arguments of the `find` it streams. */
  function Stream(q: Query): (r: Result<seq<Value>>)
    ensures q.single <==> r.Fail?
    ensures r.Fail? ==> r.error == SingleStreamError
    ensures r.Ok? ==> r.value == Arguments(q) && ExecCall(q).0 == "find"
  {
    if q.single then Fail(SingleStreamError) else Ok(Arguments(q))
  }

  /** The accessor calls population makes, in population order: the
      accessor `populate<Field>` of every requested field, with its
      options; a field whose accessor is not a function of the model
      (`functions` names those) fails with the first such field. */
  function PopulationCalls(q: Query, functions: set<string>): (r: Result<seq<(string, Value)>>)
    ensures r.Ok? <==> forall i :: 0 <= i < |q.populations| ==> Naming.MethodName(q.populations[i].0, "") in functions
    ensures r.Ok? ==> |r.value| == |q.populations| && forall i :: 0 <= i < |q.populations| ==>
      r.value[i] == (Naming.MethodName(q.populations[i].0, ""), q.populations[i].1)
    ensures r.Fail? ==> exists i :: (0 <= i < |q.populations| && r.error == PopulationError(q.populations[i].0)
                                     && Naming.MethodName(q.populations[i].0, "") !in functions
                                     && forall j :: 0 <= j < i ==> Naming.MethodName(q.populations[j].0, "") in functions)
  {
    CallsFrom(q.populations, functions)
  }

  function CallsFrom(e: Entries<Value>, functions: set<string>): (r: Result<seq<(string, Value)>>)
    ensures r.Ok? <==> forall i :: 0 <= i < |e| ==> Naming.MethodName(e[i].0, "") in functions
    ensures r.Ok? ==> |r.value| == |e| && forall i :: 0 <= i < |e| ==> r.value[i] == (Naming.MethodName(e[i].0, ""), e[i].1)
    ensures r.Fail? ==> exists i :: (0 <= i < |e| && r.error == PopulationError(e[i].0)
                                     && Naming.MethodName(e[i].0, "") !in functions
                                     && forall j :: 0 <= j < i ==> Naming.MethodName(e[j].0, "") in functions)
  {
    if |e| == 0 then Ok([])
    else
      var accessor := Naming.MethodName(e[0].0, "");
      if accessor !in functions then
        Fail(PopulationError(e[0].0))
      else
        assert forall i :: 1 <= i < |e| ==> e[1..][i - 1] == e[i];
        var rest := CallsFrom(e[1..], functions);
        if rest.Fail? then
          var i :| 0 <= i < |e| - 1 && rest.error == PopulationError(e[1..][i].0)
                   && Naming.MethodName(e[1..][i].0, "") !in functions
                   && forall j :: 0 <= j < i ==> Naming.MethodName(e[1..][j].0, "") in functions;
          assert forall j :: 0 <= j < i + 1 ==> Naming.MethodName(e[j].0, "") in functions;
          Fail(rest.error)
        else Ok([(accessor, e[0].1)] + rest.value)
  }

  /** The population step of `exec` on what the store returned: nothing
      for a lean query, a missing single document or a non-array multi
      result; the accessor calls otherwise. */
  function ExecPopulations(q: Query, functions: set<string>, fetched: Value): (r: Result<seq<(string, Value)>>)
    ensures q.raw ==> r == Ok([])
    ensures q.single && !Truthy(fetched) ==> r == Ok([])
    ensures !q.single && !fetched.Arr? ==> r == Ok([])
    ensures !q.raw && (if q.single then Truthy(fetched) else fetched.Arr?) ==> r == PopulationCalls(q, functions)
  {
    if q.raw then Ok([])
    else if q.single && !Truthy(fetched) then Ok([])
    else if !q.single && !fetched.Arr? then Ok([])
    else PopulationCalls(q, functions)
  }

  /** Requesting a field whose accessor the model lacks makes the fetch
      fail with that field named. */
  lemma MissingAccessorFails(q: Query, functions: set<string>, field: string)
    requires q.populations == [] && Naming.MethodName(field, "") !in functions
    ensures Populate(q, Str(field)).Ok?
    ensures PopulationCalls(Populate(q, Str(field)).value, functions) == Fail(PopulationError(field))
  {
    var e := [(field, Obj([]))];
    assert Requested(Str(field)) == Ok(e);
    assert PutAll([], e) == PutAll(Put([], field, Obj([])), e[1..]);
    assert Populate(q, Str(field)).value.populations == [(field, Obj([]))];
    assert [(field, Obj([]))][1..] == [];
  }
}

/** Rules and the filter/validation pipeline of a model: `normalize` runs
    the filter rules over a document in order, `validate` normalizes and
    then collects the outcomes of the validation rules. Promises are
    modelled as already settled: a validator may return `Settled(...)`,
    and settling all outcomes keeps the rule order. */
module Pipeline {
  import opened Wrappers
  import opened Values
  import Text
  import Paths
  import Validation
  import Calls
  import Types

  /** What a rule does with the value at its path. */
  datatype Action =
    | Apply(fn: Callable)                       // a type default or a user addon
    | CheckEnum(values: seq<Value>, translate: Value)  // `validateEnum` bound to a list
    | FilterItems(filters: seq<Rule>)           // `applyArrayFiltering` bound to element rules
    | ValidateItems(validations: seq<Rule>)     // `applyArrayValidation` bound to element rules

  /** `{path, humanized, method}`. */
  datatype Rule = Rule(path: string, humanized: Value, action: Action)

  /** A settled promise. */
  datatype Settlement = Fulfilled(value: Value) | Rejected(reason: Value)

  /** `when.resolve(x)`: a settled promise is adopted, any other value
      fulfils. */
  function Adopt(x: Value): Settlement
    decreases x
  {
    match x
    case Settled(rejected, outcome) => if rejected then Rejected(outcome) else Adopt(outcome)
    case _ => Fulfilled(x)
  }

  /** `descriptor.value || descriptor.reason`. */
  function Outcome(d: Settlement): Value {
    match d
    case Fulfilled(v) => if Truthy(v) then v else Undefined
    case Rejected(r) => r
  }

  /** What `errs.concat(x)` appends: the elements of an array, any other
      value itself. */
  function Spread(x: Value): seq<Value> {
    if x.Arr? then x.items else [x]
  }

  /** `mergeValues`: the outcomes concatenated in order. */
  function Merge(ds: seq<Settlement>): seq<Value> {
    if |ds| == 0 then [] else Spread(Outcome(ds[0])) + Merge(ds[1..])
  }

  /** `errs.filter(err => err)`. */
  function Compact(vs: seq<Value>): (r: seq<Value>)
    ensures |r| <= |vs|
    ensures forall x :: x in r <==> x in vs && Truthy(x)
  {
    if |vs| == 0 then []
    else if Truthy(vs[0]) then [vs[0]] + Compact(vs[1..])
    else Compact(vs[1..])
  }

  /** `processErrorPromises`: every truthy value some outcome contributes,
      and nothing else. */
  function ProcessErrors(ds: seq<Settlement>): (r: seq<Value>)
    ensures forall x :: x in r <==> Truthy(x) && exists i :: 0 <= i < |ds| && x in Spread(Outcome(ds[i]))
  {
    MergeMembers(ds);
    Compact(Merge(ds))
  }

  lemma {:induction false} MergeMembers(ds: seq<Settlement>)
    ensures forall x :: x in Merge(ds) <==> exists i :: 0 <= i < |ds| && x in Spread(Outcome(ds[i]))
  {
    if |ds| > 0 {
      MergeMembers(ds[1..]);
      forall x ensures x in Merge(ds) <==> exists i :: 0 <= i < |ds| && x in Spread(Outcome(ds[i])) {
        if x in Merge(ds[1..]) {
          var i :| 0 <= i < |ds| - 1 && x in Spread(Outcome(ds[1..][i]));
          assert ds[1..][i] == ds[i + 1];
        }
        if exists i :: 0 <= i < |ds| && x in Spread(Outcome(ds[i])) {
          var i :| 0 <= i < |ds| && x in Spread(Outcome(ds[i]));
          if i > 0 {
            assert ds[i] == ds[1..][i - 1];
          }
        }
      }
    }
  }

  /** `filter.method(v)` and `validation.method(v)`. */
  function Invoke(rt: Calls.Runtime, a: Action, v: Value): Value
    decreases a, 0, 0
  {
    match a
    case Apply(f) => Calls.Call(rt, f, v)
    case CheckEnum(e, t) =>
      Validation.ValidateEnum(e, if t.Fn? then Some(x => Calls.Call(rt, t.f, x)) else None, v)
    case FilterItems(filters) =>
      if v.Arr? then Arr(FilterEach(rt, filters, v.items)) else Undefined
    case ValidateItems(validations) =>
      if v.Arr? then Settled(false, Arr(ProcessErrors(ValidateEach(rt, validations, v.items))))
      else Undefined
  }

  /** One step of `applyFiltering`: a rule whose path reads undefined, and
      a root rule when root replacement is not allowed, leave the document
      as it is. */
  function FilterStep(rt: Calls.Runtime, r: Rule, obj: Value, allowRoot: bool): (out: Value)
    ensures Paths.Get(obj, r.path).Undefined? ==> out == obj
    ensures r.path == "" && !allowRoot ==> out == obj
    decreases r, 0, 0
  {
    var v := Paths.Get(obj, r.path);
    var v' := if v.Undefined? then v else Invoke(rt, r.action, v);
    if v'.Undefined? then obj
    else if r.path != "" then Paths.Set(obj, r.path, v')
    else if allowRoot then v'
    else obj
  }

  /** `applyFiltering(obj, filters, allowRoot)`: filters on paths the
      document does not have change nothing, and without root replacement
      neither do root filters. */
  function Filter(rt: Calls.Runtime, filters: seq<Rule>, obj: Value, allowRoot: bool): (out: Value)
    ensures (forall i :: 0 <= i < |filters| ==> Paths.Get(obj, filters[i].path).Undefined?) ==> out == obj
    ensures !allowRoot && (forall i :: 0 <= i < |filters| ==> filters[i].path == "") ==> out == obj
    decreases filters, 2, 0
  {
    if |filters| == 0 then obj
    else Filter(rt, filters[1..], FilterStep(rt, filters[0], obj, allowRoot), allowRoot)
  }

  /** The item mapping of `applyArrayFiltering`: defined items are filtered
      with root replacement allowed, undefined items stay undefined. */
  function FilterEach(rt: Calls.Runtime, filters: seq<Rule>, items: seq<Value>): (r: seq<Value>)
    ensures |r| == |items|
    ensures forall i :: 0 <= i < |items| ==>
      r[i] == if items[i].Undefined? then Undefined else Filter(rt, filters, items[i], true)
    decreases filters, 3, |items|
  {
    if |items| == 0 then []
    else
      [if items[0].Undefined? then Undefined else Filter(rt, filters, items[0], true)]
      + FilterEach(rt, filters, items[1..])
  }

  /** The promise one validation rule contributes: the validator's result,
      adopted, with `{field}` in a fulfilled `Error` replaced by the rule's
      label. A rejection passes through untouched. */
  function Settle(rt: Calls.Runtime, r: Rule, obj: Value): Settlement
    decreases r, 0, 0
  {
    match Adopt(Invoke(rt, r.action, Paths.Get(obj, r.path)))
    case Fulfilled(e) =>
      Fulfilled(if e.Error? then Error(Text.Format(e.message, "field", ToText(r.humanized))) else e)
    case Rejected(x) => Rejected(x)
  }

  function Settlements(rt: Calls.Runtime, validations: seq<Rule>, obj: Value): (ds: seq<Settlement>)
    ensures |ds| == |validations|
    ensures forall i :: 0 <= i < |validations| ==> ds[i] == Settle(rt, validations[i], obj)
    decreases validations, 1, 0
  {
    if |validations| == 0 then []
    else [Settle(rt, validations[0], obj)] + Settlements(rt, validations[1..], obj)
  }

  /** `applyValidation(obj, validations)`: the list of errors, every one
      of them truthy, and none without a rule. */
  function Validate(rt: Calls.Runtime, validations: seq<Rule>, obj: Value): (errs: seq<Value>)
    ensures forall x :: x in errs ==> Truthy(x)
    ensures |validations| == 0 ==> errs == []
    decreases validations, 2, 0
  {
    ProcessErrors(Settlements(rt, validations, obj))
  }

  /** The promises `applyArrayValidation` settles, one per item, each
      fulfilled with that item's error list. */
  function ValidateEach(rt: Calls.Runtime, validations: seq<Rule>, items: seq<Value>): (ds: seq<Settlement>)
    ensures |ds| == |items|
    decreases validations, 3, |items|
  {
    if |items| == 0 then []
    else [Fulfilled(Arr(Validate(rt, validations, items[0])))] + ValidateEach(rt, validations, items[1..])
  }

  // ---------------------------------------------------------------------
  // Filtering

  /** What a filter step leaves at its own path: the filtered value, unless
      the value or the filter's result is undefined. */
  function Refine(rt: Calls.Runtime, a: Action, v: Value): Value {
    if v.Undefined? then v
    else
      var w := Invoke(rt, a, v);
      if w.Undefined? then v else w
  }

  /** An undefined value, or a filter result that is undefined, leaves the
      document untouched; a root filter replaces the document only when
      root replacement is allowed. */
  lemma StepUntouched(rt: Calls.Runtime, r: Rule, obj: Value, allowRoot: bool)
    ensures Paths.Get(obj, r.path).Undefined? ==> FilterStep(rt, r, obj, allowRoot) == obj
    ensures Invoke(rt, r.action, Paths.Get(obj, r.path)).Undefined? ==> FilterStep(rt, r, obj, allowRoot) == obj
    ensures r.path == "" && !allowRoot ==> FilterStep(rt, r, obj, allowRoot) == obj
    ensures r.path == "" && allowRoot && !obj.Undefined? ==> FilterStep(rt, r, obj, allowRoot) == Refine(rt, r.action, obj)
  {
  }

  lemma StepOwnPath(rt: Calls.Runtime, r: Rule, obj: Value, allowRoot: bool)
    requires r.path != ""
    ensures Paths.Get(FilterStep(rt, r, obj, allowRoot), r.path) == Refine(rt, r.action, Paths.Get(obj, r.path))
  {
    var v := Paths.Get(obj, r.path);
    if !v.Undefined? && !Invoke(rt, r.action, v).Undefined? {
      Paths.GetAfterSet(obj, r.path, Invoke(rt, r.action, v));
    }
  }

  lemma StepOtherPath(rt: Calls.Runtime, r: Rule, obj: Value, allowRoot: bool, q: string)
    requires r.path != "" && q != "" && Paths.Diverge(Paths.Segments(r.path), Paths.Segments(q))
    ensures Paths.Get(FilterStep(rt, r, obj, allowRoot), q) == Paths.Get(obj, q)
  {
    var v := Paths.Get(obj, r.path);
    if !v.Undefined? && !Invoke(rt, r.action, v).Undefined? {
      Paths.GetAfterOtherSet(obj, r.path, q, Invoke(rt, r.action, v));
    }
  }

  /** Filtering is rule by rule: the rules of a concatenation run one list
      after the other. */
  lemma {:induction false} FilterConcat(rt: Calls.Runtime, f1: seq<Rule>, f2: seq<Rule>, obj: Value, allowRoot: bool)
    ensures Filter(rt, f1 + f2, obj, allowRoot) == Filter(rt, f2, Filter(rt, f1, obj, allowRoot), allowRoot)
    decreases |f1|
  {
    if |f1| > 0 {
      assert (f1 + f2)[1..] == f1[1..] + f2;
      FilterConcat(rt, f1[1..], f2, FilterStep(rt, f1[0], obj, allowRoot), allowRoot);
    } else {
      assert f1 + f2 == f2;
    }
  }

  predicate NonRoot(filters: seq<Rule>) {
    forall i :: 0 <= i < |filters| ==> filters[i].path != ""
  }

  /** Distinct rules address paths that part ways. */
  predicate Disjoint(filters: seq<Rule>) {
    forall i, j :: 0 <= i < |filters| && 0 <= j < |filters| && i != j ==>
      Paths.Diverge(Paths.Segments(filters[i].path), Paths.Segments(filters[j].path))
  }

  /** Applying the filter to its own result changes nothing. */
  ghost predicate Idempotent(rt: Calls.Runtime, a: Action) {
    forall v: Value :: !v.Undefined? && !Invoke(rt, a, v).Undefined? ==>
      Invoke(rt, a, Invoke(rt, a, v)) == Invoke(rt, a, v)
  }

  lemma {:induction false} FilterKeepsOthers(rt: Calls.Runtime, filters: seq<Rule>, obj: Value, allowRoot: bool, q: string)
    requires NonRoot(filters) && q != ""
    requires forall i :: 0 <= i < |filters| ==> Paths.Diverge(Paths.Segments(filters[i].path), Paths.Segments(q))
    ensures Paths.Get(Filter(rt, filters, obj, allowRoot), q) == Paths.Get(obj, q)
    decreases |filters|
  {
    if |filters| > 0 {
      var next := FilterStep(rt, filters[0], obj, allowRoot);
      StepOtherPath(rt, filters[0], obj, allowRoot, q);
      FilterKeepsOthers(rt, filters[1..], next, allowRoot, q);
    }
  }

  /** After one pass, each rule's path holds the refinement of its original
      value. */
  lemma {:induction false} FilterRefines(rt: Calls.Runtime, filters: seq<Rule>, obj: Value, allowRoot: bool, i: nat)
    requires NonRoot(filters) && Disjoint(filters) && i < |filters|
    ensures Paths.Get(Filter(rt, filters, obj, allowRoot), filters[i].path)
         == Refine(rt, filters[i].action, Paths.Get(obj, filters[i].path))
    decreases |filters|
  {
    var next := FilterStep(rt, filters[0], obj, allowRoot);
    var rest := filters[1..];
    assert Filter(rt, filters, obj, allowRoot) == Filter(rt, rest, next, allowRoot);
    if i == 0 {
      StepOwnPath(rt, filters[0], obj, allowRoot);
      forall j | 0 <= j < |rest|
        ensures Paths.Diverge(Paths.Segments(rest[j].path), Paths.Segments(filters[0].path))
      {
        assert rest[j] == filters[j + 1];
      }
      FilterKeepsOthers(rt, rest, next, allowRoot, filters[0].path);
    } else {
      assert rest[i - 1] == filters[i];
      StepOtherPath(rt, filters[0], obj, allowRoot, filters[i].path);
      FilterRefines(rt, rest, next, allowRoot, i - 1);
    }
  }

  /** A pass over a document whose paths already hold fixed points of their
      filters leaves it unchanged. */
  lemma {:induction false} FilterFixed(rt: Calls.Runtime, filters: seq<Rule>, obj: Value, allowRoot: bool)
    requires NonRoot(filters)
    requires forall i :: 0 <= i < |filters| ==>
      Refine(rt, filters[i].action, Paths.Get(obj, filters[i].path)) == Paths.Get(obj, filters[i].path)
    ensures Filter(rt, filters, obj, allowRoot) == obj
    decreases |filters|
  {
    if |filters| > 0 {
      var r := filters[0];
      var v := Paths.Get(obj, r.path);
      assert Refine(rt, r.action, v) == v;
      if !v.Undefined? && !Invoke(rt, r.action, v).Undefined? {
        Paths.SetToCurrent(obj, r.path);
      }
      assert FilterStep(rt, r, obj, allowRoot) == obj;
      assert forall i :: 0 <= i < |filters| - 1 ==> filters[1..][i] == filters[i + 1];
      FilterFixed(rt, filters[1..], obj, allowRoot);
    }
  }

  lemma RefineTwice(rt: Calls.Runtime, a: Action, v: Value)
    requires Idempotent(rt, a)
    ensures Refine(rt, a, Refine(rt, a, v)) == Refine(rt, a, v)
  {
  }

  /** `normalize` is idempotent when every filter is, and the filters sit at
      non-root paths that part ways. */
  lemma NormalizeIdempotent(rt: Calls.Runtime, filters: seq<Rule>, obj: Value)
    requires NonRoot(filters) && Disjoint(filters)
    requires forall i :: 0 <= i < |filters| ==> Idempotent(rt, filters[i].action)
    ensures Filter(rt, filters, Filter(rt, filters, obj, false), false) == Filter(rt, filters, obj, false)
  {
    var n := Filter(rt, filters, obj, false);
    forall i | 0 <= i < |filters|
      ensures Refine(rt, filters[i].action, Paths.Get(n, filters[i].path)) == Paths.Get(n, filters[i].path)
    {
      FilterRefines(rt, filters, obj, false, i);
      RefineTwice(rt, filters[i].action, Paths.Get(obj, filters[i].path));
    }
    FilterFixed(rt, filters, n, false);
  }

  /** The default filters of String, Number and Boolean are idempotent. */
  lemma DefaultFiltersIdempotent(rt: Calls.Runtime)
    ensures Idempotent(rt, Apply(Builtin(StringFilter)))
    ensures Idempotent(rt, Apply(Builtin(NumberFilter)))
    ensures Idempotent(rt, Apply(Builtin(BooleanFilter)))
  {
    forall v: Value ensures Invoke(rt, Apply(Builtin(StringFilter)), v) == Types.FilterString(v) {
      assert Calls.Call(rt, Builtin(StringFilter), v) == Types.FilterString(v);
    }
    forall v: Value ensures Invoke(rt, Apply(Builtin(NumberFilter)), v) == Types.FilterNumber(rt.parse, v) {
      assert Calls.Call(rt, Builtin(NumberFilter), v) == Types.FilterNumber(rt.parse, v);
    }
    forall v: Value ensures Invoke(rt, Apply(Builtin(BooleanFilter)), v) == Types.FilterBoolean(v) {
      assert Calls.Call(rt, Builtin(BooleanFilter), v) == Types.FilterBoolean(v);
    }
    forall v: Value {
      Types.FiltersIdempotent(rt.parse, v);
    }
  }

  // ---------------------------------------------------------------------
  // Validation

  lemma {:induction false} MergeConcat(d1: seq<Settlement>, d2: seq<Settlement>)
    ensures Merge(d1 + d2) == Merge(d1) + Merge(d2)
    decreases |d1|
  {
    if |d1| > 0 {
      assert (d1 + d2)[1..] == d1[1..] + d2;
      MergeConcat(d1[1..], d2);
    } else {
      assert d1 + d2 == d2;
    }
  }

  lemma {:induction false} CompactConcat(a: seq<Value>, b: seq<Value>)
    ensures Compact(a + b) == Compact(a) + Compact(b)
    decreases |a|
  {
    if |a| > 0 {
      assert (a + b)[0] == a[0];
      assert (a + b)[1..] == a[1..] + b;
      CompactConcat(a[1..], b);
    } else {
      assert a + b == b;
    }
  }

  lemma {:induction false} CompactTruthy(vs: seq<Value>)
    requires forall x :: x in vs ==> Truthy(x)
    ensures Compact(vs) == vs
    decreases |vs|
  {
    if |vs| > 0 {
      assert vs[0] in vs;
      assert forall x :: x in vs[1..] ==> x in vs;
      CompactTruthy(vs[1..]);
      assert [vs[0]] + vs[1..] == vs;
    }
  }

  /** The errors of a concatenation of rule lists are the errors of each
      list, in rule order. */
  lemma ValidateConcat(rt: Calls.Runtime, v1: seq<Rule>, v2: seq<Rule>, obj: Value)
    ensures Validate(rt, v1 + v2, obj) == Validate(rt, v1, obj) + Validate(rt, v2, obj)
  {
    var d1 := Settlements(rt, v1, obj);
    var d2 := Settlements(rt, v2, obj);
    SettlementsConcat(rt, v1, v2, obj);
    MergeConcat(d1, d2);
    CompactConcat(Merge(d1), Merge(d2));
  }

  lemma SettlementsConcat(rt: Calls.Runtime, v1: seq<Rule>, v2: seq<Rule>, obj: Value)
    ensures Settlements(rt, v1 + v2, obj) == Settlements(rt, v1, obj) + Settlements(rt, v2, obj)
  {
    var all := Settlements(rt, v1 + v2, obj);
    var parts := Settlements(rt, v1, obj) + Settlements(rt, v2, obj);
    forall i | 0 <= i < |all| ensures all[i] == parts[i] {
      if i < |v1| {
        assert (v1 + v2)[i] == v1[i];
      } else {
        assert (v1 + v2)[i] == v2[i - |v1|];
      }
    }
  }

  /** An empty error list means success: no rule contributed a truthy
      outcome. */
  lemma ValidatePasses(rt: Calls.Runtime, validations: seq<Rule>, obj: Value)
    ensures Validate(rt, validations, obj) == [] <==>
      forall i, x :: 0 <= i < |validations| && x in Spread(Outcome(Settle(rt, validations[i], obj))) ==> !Truthy(x)
  {
    var ds := Settlements(rt, validations, obj);
    var r := Validate(rt, validations, obj);
    if r != [] {
      assert r[0] in r;
    }
  }

  /** A fulfilled `Error` whose message starts with `{field}` gets the
      rule's label in its place. */
  lemma LabelledError(rt: Calls.Runtime, r: Rule, obj: Value, tail: string)
    requires '{' !in tail
    requires Invoke(rt, r.action, Paths.Get(obj, r.path)) == Error("{" + "field" + "}" + tail)
    ensures Validate(rt, [r], obj) == [Error(ToText(r.humanized) + tail)]
  {
    var lbl := ToText(r.humanized);
    Text.FormatLeadingPlaceholder("field", lbl, tail);
    Text.FormatWithoutBrace(tail, "field", lbl);
    assert Settle(rt, r, obj) == Fulfilled(Error(lbl + tail));
    assert Settlements(rt, [r], obj) == [Fulfilled(Error(lbl + tail))];
    assert Merge([Fulfilled(Error(lbl + tail))]) == [Error(lbl + tail)];
  }

  /** A `required` rule reports "<label> is required." exactly when the
      value is missing. */
  lemma RequiredRule(rt: Calls.Runtime, path: string, humanized: Value, obj: Value)
    ensures var v := Paths.Get(obj, path);
      Validate(rt, [Rule(path, humanized, Apply(Builtin(RequiredValidator)))], obj)
      == if v.Undefined? || v.Null? then [Error(ToText(humanized) + Validation.RequiredTail)] else []
  {
    var r := Rule(path, humanized, Apply(Builtin(RequiredValidator)));
    var v := Paths.Get(obj, path);
    assert Invoke(rt, r.action, v) == Validation.ValidateRequired(v);
    if v.Undefined? || v.Null? {
      LabelledError(rt, r, obj, Validation.RequiredTail);
    } else {
      assert Settlements(rt, [r], obj) == [Fulfilled(Undefined)];
      assert Merge([Fulfilled(Undefined)]) == [Undefined];
    }
  }

  /** The element errors of an array, item by item. */
  function ItemErrors(rt: Calls.Runtime, validations: seq<Rule>, items: seq<Value>): seq<Value> {
    if |items| == 0 then [] else Validate(rt, validations, items[0]) + ItemErrors(rt, validations, items[1..])
  }

  lemma {:induction false} MergeEach(rt: Calls.Runtime, validations: seq<Rule>, items: seq<Value>)
    ensures Merge(ValidateEach(rt, validations, items)) == ItemErrors(rt, validations, items)
    decreases |items|
  {
    if |items| > 0 {
      var ds := ValidateEach(rt, validations, items);
      assert ds[1..] == ValidateEach(rt, validations, items[1..]);
      MergeEach(rt, validations, items[1..]);
    }
  }

  lemma {:induction false} ItemErrorsTruthy(rt: Calls.Runtime, validations: seq<Rule>, items: seq<Value>)
    ensures forall x :: x in ItemErrors(rt, validations, items) ==> Truthy(x)
    decreases |items|
  {
    if |items| > 0 {
      ItemErrorsTruthy(rt, validations, items[1..]);
    }
  }

  /** An array-fanned validation rule reports the errors of every element,
      in item order, as one flat list. */
  lemma ArrayValidationFlattens(rt: Calls.Runtime, r: Rule, obj: Value, items: seq<Value>)
    requires r.action.ValidateItems? && Paths.Get(obj, r.path) == Arr(items)
    ensures Validate(rt, [r], obj) == ItemErrors(rt, r.action.validations, items)
  {
    var errs := ItemErrors(rt, r.action.validations, items);
    FannedOutcome(rt, r.action.validations, items);
    var d := Fulfilled(Arr(errs));
    var x := Invoke(rt, r.action, Paths.Get(obj, r.path));
    assert x == Settled(false, Arr(errs));
    assert Adopt(x) == Adopt(Arr(errs)) == d;
    assert Settle(rt, r, obj) == d;
    assert Settlements(rt, [r], obj) == [d];
    assert Merge([d]) == Spread(Outcome(d)) + Merge([d][1..]);
    assert Merge([d]) == errs + [];
    assert errs + [] == errs;
    ItemErrorsTruthy(rt, r.action.validations, items);
    CompactTruthy(errs);
  }

  lemma FannedOutcome(rt: Calls.Runtime, validations: seq<Rule>, items: seq<Value>)
    ensures Invoke(rt, ValidateItems(validations), Arr(items))
         == Settled(false, Arr(ItemErrors(rt, validations, items)))
  {
    var errs := ItemErrors(rt, validations, items);
    MergeEach(rt, validations, items);
    ItemErrorsTruthy(rt, validations, items);
    CompactTruthy(errs);
    assert ProcessErrors(ValidateEach(rt, validations, items)) == errs;
  }
}

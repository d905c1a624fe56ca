/** The schema compiler: `property` and `schema` turn declarations into the
    model's ordered filter and validation rule lists. */
module Schema {
  import opened Wrappers
  import opened Fields
  import opened Values
  import Text
  import Types
  import Validation
  import opened Pipeline

  const InvalidPathMessage: string := "Invalid property path!"
  const BadPropertyMessage: string := "Bad property!"
  const EmptyEnumMessage: string := "Empty enumeration array!"
  const BadArrayMessage: string := "Bad array property"

  /** What the compiler takes from outside: the label derived from a path
      when a declaration has no `humanized` (regular expressions plus
      inflection), and the filters the filter module exports by name. */
  datatype Env = Env(humanize: string -> string, namedFilter: string -> Option<Callable>)

  /** The creator's two rule lists. */
  datatype Lists = Lists(filters: seq<Rule>, validations: seq<Rule>)

  /** Both lists of `c` are prefixes of those of `d`: declarations only
      append rules. */
  predicate Extends(c: Lists, d: Lists) {
    c.filters <= d.filters && c.validations <= d.validations
  }

  /** `p` is `path` itself or a path below it. */
  predicate Under(p: string, path: string) {
    p == path || Text.StartsWith(p, path + ".")
  }

  /** Every rule `d` has beyond `c` sits at or below `path`. */
  predicate AddedUnder(c: Lists, d: Lists, path: string)
    requires Extends(c, d)
  {
    (forall i :: |c.filters| <= i < |d.filters| ==> Under(d.filters[i].path, path))
    && (forall i :: |c.validations| <= i < |d.validations| ==> Under(d.validations[i].path, path))
  }

  /** Every rule `d` has beyond `c` sits exactly at `path`. */
  predicate AddedAt(c: Lists, d: Lists, path: string)
    requires Extends(c, d)
  {
    (forall i :: |c.filters| <= i < |d.filters| ==> d.filters[i].path == path)
    && (forall i :: |c.validations| <= i < |d.validations| ==> d.validations[i].path == path)
  }

  /** Every rule `d` has beyond `c` carries the label `h`. */
  predicate Labelled(c: Lists, d: Lists, h: Value)
    requires Extends(c, d)
  {
    (forall i :: |c.filters| <= i < |d.filters| ==> d.filters[i].humanized == h)
    && (forall i :: |c.validations| <= i < |d.validations| ==> d.validations[i].humanized == h)
  }

  // ---------------------------------------------------------------------
  // The blocks of one leaf

  /** The `required` rule, when the declaration asks for one. */
  function RequiredBlock(path: string, h: Value, prop: Value): (rs: seq<Rule>)
    ensures |rs| <= 1
    ensures |rs| == 1 <==> Truthy(Member(prop, "required"))
    ensures |rs| == 1 ==> rs[0] == Rule(path, h, Apply(Builtin(RequiredValidator)))
  {
    if Truthy(Member(prop, "required")) then [Rule(path, h, Apply(Builtin(RequiredValidator)))] else []
  }

  /** The enumeration and translator a declaration gives: the object form
      `{enum: [...], translate: fn}` is unwrapped when `translate` is a
      function; otherwise `enum` and `translate` are read as they are. A
      `null` enumeration makes reading `enum.enum` throw. */
  function EnumSource(prop: Value): (r: Result<(Value, Value)>)
    ensures r.Fail? <==> Member(prop, "enum").Null?
    ensures r.Fail? ==> r.error == TypeErrorMessage
    ensures r.Ok? ==>
      var en := Member(prop, "enum");
      if TypeOf(en) == "object" && Member(en, "enum").Arr? && Member(en, "translate").Fn?
      then r.value == (Member(en, "enum"), Member(en, "translate"))
      else r.value == (en, Member(prop, "translate"))
  {
    var en := Member(prop, "enum");
    if TypeOf(en) == "object" then
      var inner :- Read(en, "enum");
      if inner.Arr? && Member(en, "translate").Fn? then Ok((inner, Member(en, "translate")))
      else Ok((en, Member(prop, "translate")))
    else Ok((en, Member(prop, "translate")))
  }

  /** The enumeration rule over the truthy entries of an enumeration array. */
  function EnumBlock(path: string, h: Value, en: Value, translate: Value): (r: Result<seq<Rule>>)
    ensures r.Fail? <==> en.Arr? && forall x :: x in en.items ==> !Truthy(x)
    ensures r.Fail? ==> r.error == EmptyEnumMessage
    ensures r.Ok? ==> forall i :: 0 <= i < |r.value| ==> r.value[i].path == path
    ensures r.Ok? ==> AllAt(r.value, path, h)
    ensures r.Ok? && !en.Arr? ==> r.value == []
    ensures r.Ok? && en.Arr? ==>
      |r.value| == 1 && r.value[0].path == path && r.value[0].humanized == h
      && r.value[0].action.CheckEnum? && r.value[0].action.translate == translate
      && (forall x :: x in r.value[0].action.values <==> x in en.items && Truthy(x))
    ensures r.Ok? && en.Arr? ==> r.value[0].action.values == Compact(en.items)
  {
    if en.Arr? then
      var e := Compact(en.items);
      if |e| == 0 then
        Fail(EmptyEnumMessage)
      else
        assert e[0] in en.items;
        Ok([Rule(path, h, CheckEnum(e, translate))])
    else Ok([])
  }

  /** `bypass.indexOf(word) >= 0`: element search in an array, substring
      search in a string; any other value has no `indexOf` and throws. */
  function Bypassed(bypass: Value, word: string): (r: Result<bool>)
    ensures r.Ok? <==> bypass.Arr? || bypass.Str?
    ensures r.Fail? ==> r.error == TypeErrorMessage
    ensures bypass.Arr? ==> r == Ok(Str(word) in bypass.items)
    ensures bypass.Str? ==> r == Ok(Text.Contains(bypass.s, word))
  {
    match bypass
    case Arr(items) => Ok(Validation.IndexOf(items, Str(word)) >= 0)
    case Str(s) => Ok(Text.Contains(s, word))
    case _ => Fail(TypeErrorMessage)
  }

  /** Whether the type's filter and its validation are bypassed. */
  function Skips(bypass: Value): (r: Result<(bool, bool)>)
    ensures r.Ok? <==> bypass.Arr? || bypass.Str?
    ensures r.Fail? ==> r.error == TypeErrorMessage
    ensures r.Ok? ==> r.value == (Bypassed(bypass, "filter").value, Bypassed(bypass, "validation").value)
  {
    var f :- Bypassed(bypass, "filter");
    var v := Bypassed(bypass, "validation").value;
    Ok((f, v))
  }

  /** The type's own filter or validation, unless bypassed. */
  function DefaultBlock(path: string, h: Value, addon: Option<Addon>, bypassed: bool): (rs: seq<Rule>)
    ensures |rs| <= 1
    ensures |rs| == 1 <==> addon.Some? && !bypassed
    ensures |rs| == 1 ==> rs[0] == Rule(path, h, Apply(Builtin(addon.value)))
  {
    if addon.Some? && !bypassed then [Rule(path, h, Apply(Builtin(addon.value)))] else []
  }

  /** `property.filters` / `property.validations` as a list: an array as it
      is, another truthy value as a one-element list, nothing otherwise. */
  function AddonList(x: Value): (xs: seq<Value>)
    ensures x.Arr? ==> xs == x.items
    ensures !x.Arr? && Truthy(x) ==> xs == [x]
    ensures !x.Arr? && !Truthy(x) ==> xs == []
  {
    if x.Arr? then x.items else if Truthy(x) then [x] else []
  }

  /** The function a user addon stands for: a name is looked up in the
      handler module, a function is itself, anything else is none. */
  function Resolve(resolveName: string -> Option<Callable>, x: Value): Option<Callable> {
    match x
    case Str(s) => resolveName(s)
    case Fn(f) => Some(f)
    case _ => None
  }

  /** The validators the validation module exports by name. Inherited
      members of the module object are not modelled. */
  function NamedValidation(name: string): (r: Option<Callable>)
    ensures r.Some? <==> name == "validateRequired" || name == "validateEnum"
  {
    if name == "validateRequired" then Some(Builtin(RequiredValidator))
    else if name == "validateEnum" then Some(Builtin(EnumValidator))
    else None
  }

  /** The user addons that resolve to a function, in declared order; the
      others are skipped without an error. */
  function UserBlock(path: string, h: Value, resolveName: string -> Option<Callable>, xs: seq<Value>): (rs: seq<Rule>)
    ensures |rs| <= |xs|
    ensures forall i :: 0 <= i < |rs| ==> rs[i].path == path && rs[i].humanized == h && rs[i].action.Apply?
    ensures (forall i :: 0 <= i < |xs| ==> Resolve(resolveName, xs[i]).None?) ==> rs == []
    ensures (forall i :: 0 <= i < |xs| ==> Resolve(resolveName, xs[i]).Some?) ==>
      |rs| == |xs| && forall i :: 0 <= i < |xs| ==> rs[i].action.fn == Resolve(resolveName, xs[i]).value
  {
    if |xs| == 0 then []
    else
      var f := Resolve(resolveName, xs[0]);
      var rest := UserBlock(path, h, resolveName, xs[1..]);
      assert forall i :: 1 <= i < |xs| ==> xs[i] == xs[1..][i - 1];
      if f.Some? then [Rule(path, h, Apply(f.value))] + rest else rest
  }

  /** One addon contributes its rule exactly when it resolves. */
  lemma UserBlockOne(path: string, h: Value, resolveName: string -> Option<Callable>, x: Value)
    ensures UserBlock(path, h, resolveName, [x])
         == if Resolve(resolveName, x).Some? then [Rule(path, h, Apply(Resolve(resolveName, x).value))] else []
  {
    assert [x][1..] == [];
  }

  /** The addons are taken one after the other: the block of a concatenated
      list is the concatenation of the blocks, so each addon contributes
      as `UserBlockOne` says, in declared order. */
  lemma {:induction false} UserBlockConcat(path: string, h: Value, resolveName: string -> Option<Callable>,
                                           xs: seq<Value>, ys: seq<Value>)
    ensures UserBlock(path, h, resolveName, xs + ys)
         == UserBlock(path, h, resolveName, xs) + UserBlock(path, h, resolveName, ys)
    decreases |xs|
  {
    if |xs| == 0 {
      assert xs + ys == ys;
    } else {
      assert (xs + ys)[0] == xs[0];
      assert (xs + ys)[1..] == xs[1..] + ys;
      UserBlockConcat(path, h, resolveName, xs[1..], ys);
    }
  }

  /** `property.bypass`, defaulted to an empty list when falsy. */
  function BypassList(prop: Value): Value {
    var b := Member(prop, "bypass");
    if Truthy(b) then b else Arr([])
  }

  /** `defineSimpleProperty`. */
  function DefineSimple(env: Env, c: Lists, path: string, prop: Value, h: Value, k: TypeKind): (r: Result<Lists>)
    ensures r.Ok? ==> Extends(c, r.value) && AddedAt(c, r.value, path) && Labelled(c, r.value, h)
    ensures r.Ok? ==> EnumSource(prop).Ok? && Skips(BypassList(prop)).Ok?
    ensures r.Ok? ==> EnumBlock(path, h, EnumSource(prop).value.0, EnumSource(prop).value.1).Ok?
  {
    var src :- EnumSource(prop);
    var enumRules :- EnumBlock(path, h, src.0, src.1);
    var skip :- Skips(BypassList(prop));
    Ok(Append(env, c, path, prop, h, k, enumRules, skip.0, skip.1))
  }

  /** The rules of a leaf once its enumeration and bypass list are known. */
  function Append(env: Env, c: Lists, path: string, prop: Value, h: Value, k: TypeKind,
                  enumRules: seq<Rule>, skipFilter: bool, skipValidation: bool): (r: Lists)
    requires AllAt(enumRules, path, h)
    ensures Extends(c, r) && AddedAt(c, r, path) && Labelled(c, r, h)
  {
    var d := Types.DescriptorOf(k);
    var df := DefaultBlock(path, h, d.filter, skipFilter);
    var uf := UserBlock(path, h, env.namedFilter, AddonList(Member(prop, "filters")));
    var rq := RequiredBlock(path, h, prop);
    var dv := DefaultBlock(path, h, d.validate, skipValidation);
    var uv := UserBlock(path, h, NamedValidation, AddonList(Member(prop, "validations")));
    AllAtConcat(df, uf, path, h);
    AllAtConcat(rq, enumRules, path, h);
    AllAtConcat(rq + enumRules, dv, path, h);
    AllAtConcat(rq + enumRules + dv, uv, path, h);
    AppendedAllAt(c, df + uf, rq + enumRules + dv + uv, path, h);
    Lists(c.filters + (df + uf), c.validations + (rq + enumRules + dv + uv))
  }

  /** Every rule of `rs` sits at `path` with the label `h`. */
  predicate AllAt(rs: seq<Rule>, path: string, h: Value) {
    forall i :: 0 <= i < |rs| ==> rs[i].path == path && rs[i].humanized == h
  }

  lemma AllAtConcat(a: seq<Rule>, b: seq<Rule>, path: string, h: Value)
    requires AllAt(a, path, h) && AllAt(b, path, h)
    ensures AllAt(a + b, path, h)
  {
  }

  lemma AppendedAllAt(c: Lists, fs: seq<Rule>, vs: seq<Rule>, path: string, h: Value)
    requires AllAt(fs, path, h) && AllAt(vs, path, h)
    ensures var d := Lists(c.filters + fs, c.validations + vs);
      Extends(c, d) && AddedAt(c, d, path) && Labelled(c, d, h)
  {
  }

  /** A successful leaf declaration is `Append` over the enumeration rule
      and the bypass flags it computed. */
  lemma DefineSimpleAppends(env: Env, c: Lists, path: string, prop: Value, h: Value, k: TypeKind, r: Lists,
                             en: Value, translate: Value, enumRules: seq<Rule>, skip: (bool, bool))
    requires DefineSimple(env, c, path, prop, h, k) == Ok(r)
    requires EnumSource(prop) == Ok((en, translate))
    requires EnumBlock(path, h, en, translate) == Ok(enumRules)
    requires Skips(BypassList(prop)) == Ok(skip)
    ensures r == Append(env, c, path, prop, h, k, enumRules, skip.0, skip.1)
  {
  }

  /** A leaf's validations are appended in a fixed order: `required`, the
      enumeration rule when the declaration has an enumeration array, the
      type's own validation unless bypassed, then the user validations that
      resolve, in declared order. */
  ghost predicate ValidationLayout(added: seq<Rule>, path: string, h: Value, required: bool, en: Value,
                                   translate: Value, d: Option<Addon>, skipped: bool, user: seq<Rule>)
  {
    var nr := if required then 1 else 0;
    var ne := if en.Arr? then 1 else 0;
    var nd := if d.Some? && !skipped then 1 else 0;
    |added| == nr + ne + nd + |user|
    && (nr == 1 ==> added[0] == Rule(path, h, Apply(Builtin(RequiredValidator))))
    && (ne == 1 ==> added[nr] == Rule(path, h, CheckEnum(Compact(en.items), translate)))
    && (nd == 1 ==> added[nr + ne] == Rule(path, h, Apply(Builtin(d.value))))
    && added[nr + ne + nd..] == user
  }

  lemma LeafValidationOrder(env: Env, c: Lists, path: string, prop: Value, h: Value, k: TypeKind, r: Lists)
    requires DefineSimple(env, c, path, prop, h, k) == Ok(r)
    ensures ValidationLayout(r.validations[|c.validations|..], path, h, Truthy(Member(prop, "required")),
                             EnumSource(prop).value.0, EnumSource(prop).value.1, Types.DescriptorOf(k).validate,
                             Skips(BypassList(prop)).value.1,
                             UserBlock(path, h, NamedValidation, AddonList(Member(prop, "validations"))))
  {
    var src := EnumSource(prop).value;
    var enumRules := EnumBlock(path, h, src.0, src.1).value;
    var skip := Skips(BypassList(prop)).value;
    DefineSimpleAppends(env, c, path, prop, h, k, r, src.0, src.1, enumRules, skip);
    LeafValidationsOf(env, c, path, prop, h, k, r, src.0, src.1, enumRules, skip.0, skip.1);
  }

  /** `LeafValidationOrder` for the computed enumeration rules and flags. */
  lemma LeafValidationsOf(env: Env, c: Lists, path: string, prop: Value, h: Value, k: TypeKind, r: Lists,
                          en: Value, translate: Value, enumRules: seq<Rule>, skipFilter: bool, skipValidation: bool)
    requires EnumBlock(path, h, en, translate) == Ok(enumRules)
    requires r == Append(env, c, path, prop, h, k, enumRules, skipFilter, skipValidation)
    ensures ValidationLayout(r.validations[|c.validations|..], path, h, Truthy(Member(prop, "required")),
                             en, translate, Types.DescriptorOf(k).validate, skipValidation,
                             UserBlock(path, h, NamedValidation, AddonList(Member(prop, "validations"))))
  {
    EnumRulesShape(path, h, en, translate, enumRules);
    AppendValidationOrder(env, c, path, prop, h, k, enumRules, skipFilter, skipValidation);
  }

  /** The enumeration block is empty, or the one rule over the truthy entries. */
  lemma EnumRulesShape(path: string, h: Value, en: Value, translate: Value, enumRules: seq<Rule>)
    requires EnumBlock(path, h, en, translate) == Ok(enumRules)
    ensures |enumRules| == (if en.Arr? then 1 else 0)
    ensures en.Arr? ==> enumRules[0] == Rule(path, h, CheckEnum(Compact(en.items), translate))
  {
  }

  /** The validations `Append` adds, block by block. */
  lemma AppendValidationOrder(env: Env, c: Lists, path: string, prop: Value, h: Value, k: TypeKind,
                              enumRules: seq<Rule>, skipFilter: bool, skipValidation: bool)
    requires AllAt(enumRules, path, h)
    ensures
      var added := Append(env, c, path, prop, h, k, enumRules, skipFilter, skipValidation).validations[|c.validations|..];
      var nr := if Truthy(Member(prop, "required")) then 1 else 0;
      var ne := |enumRules|;
      var d := Types.DescriptorOf(k).validate;
      var nd := if d.Some? && !skipValidation then 1 else 0;
      var user := UserBlock(path, h, NamedValidation, AddonList(Member(prop, "validations")));
      |added| == nr + ne + nd + |user|
      && (nr == 1 ==> added[0] == Rule(path, h, Apply(Builtin(RequiredValidator))))
      && added[nr..nr + ne] == enumRules
      && (nd == 1 ==> added[nr + ne] == Rule(path, h, Apply(Builtin(d.value))))
      && added[nr + ne + nd..] == user
  {
    var req := RequiredBlock(path, h, prop);
    var dv := DefaultBlock(path, h, Types.DescriptorOf(k).validate, skipValidation);
    var user := UserBlock(path, h, NamedValidation, AddonList(Member(prop, "validations")));
    var all := Append(env, c, path, prop, h, k, enumRules, skipFilter, skipValidation).validations;
    AppendedValidations(env, c, path, prop, h, k, enumRules, skipFilter, skipValidation);
    Blocks(c.validations, req, enumRules, dv, user, all);
  }

  lemma AppendedValidations(env: Env, c: Lists, path: string, prop: Value, h: Value, k: TypeKind,
                            enumRules: seq<Rule>, skipFilter: bool, skipValidation: bool)
    requires AllAt(enumRules, path, h)
    ensures Append(env, c, path, prop, h, k, enumRules, skipFilter, skipValidation).validations
         == c.validations + (RequiredBlock(path, h, prop) + enumRules
                             + DefaultBlock(path, h, Types.DescriptorOf(k).validate, skipValidation)
                             + UserBlock(path, h, NamedValidation, AddonList(Member(prop, "validations"))))
  {
  }

  /** The four blocks appended after `pre`, each found at its offset. */
  lemma Blocks<T>(pre: seq<T>, a: seq<T>, b: seq<T>, c: seq<T>, d: seq<T>, all: seq<T>)
    requires all == pre + (a + b + c + d)
    ensures var added := all[|pre|..];
      |added| == |a| + |b| + |c| + |d|
      && added[..|a|] == a && added[|a|..|a| + |b|] == b
      && added[|a| + |b|..|a| + |b| + |c|] == c && added[|a| + |b| + |c|..] == d
  {
    var added := all[|pre|..];
    assert added == a + b + c + d;
    assert added[..|a|] == a;
    assert added[|a|..|a| + |b|] == b;
    assert added[|a| + |b|..|a| + |b| + |c|] == c;
    assert added[|a| + |b| + |c|..] == d;
  }

  /** A leaf's filters: the type's own filter unless bypassed, then the user
      filters that resolve, in declared order. */
  ghost predicate FilterLayout(added: seq<Rule>, path: string, h: Value, d: Option<Addon>, skipped: bool, user: seq<Rule>)
  {
    var nd := if d.Some? && !skipped then 1 else 0;
    |added| == nd + |user|
    && (nd == 1 ==> added[0] == Rule(path, h, Apply(Builtin(d.value))))
    && added[nd..] == user
  }

  lemma LeafFilterOrder(env: Env, c: Lists, path: string, prop: Value, h: Value, k: TypeKind, r: Lists)
    requires DefineSimple(env, c, path, prop, h, k) == Ok(r)
    ensures FilterLayout(r.filters[|c.filters|..], path, h, Types.DescriptorOf(k).filter,
                         Skips(BypassList(prop)).value.0,
                         UserBlock(path, h, env.namedFilter, AddonList(Member(prop, "filters"))))
  {
    var src := EnumSource(prop).value;
    var enumRules := EnumBlock(path, h, src.0, src.1).value;
    var skip := Skips(BypassList(prop)).value;
    DefineSimpleAppends(env, c, path, prop, h, k, r, src.0, src.1, enumRules, skip);
    EnumRulesShape(path, h, src.0, src.1, enumRules);
    LeafFiltersOf(env, c, path, prop, h, k, r, enumRules, skip.0, skip.1);
  }

  /** `LeafFilterOrder` for the computed enumeration rules and flags. */
  lemma LeafFiltersOf(env: Env, c: Lists, path: string, prop: Value, h: Value, k: TypeKind, r: Lists,
                      enumRules: seq<Rule>, skipFilter: bool, skipValidation: bool)
    requires AllAt(enumRules, path, h)
    requires r == Append(env, c, path, prop, h, k, enumRules, skipFilter, skipValidation)
    ensures FilterLayout(r.filters[|c.filters|..], path, h, Types.DescriptorOf(k).filter, skipFilter,
                         UserBlock(path, h, env.namedFilter, AddonList(Member(prop, "filters"))))
  {
    AppendFilterOrder(env, c, path, prop, h, k, enumRules, skipFilter, skipValidation);
  }

  /** The filters `Append` adds, block by block. */
  lemma AppendFilterOrder(env: Env, c: Lists, path: string, prop: Value, h: Value, k: TypeKind,
                          enumRules: seq<Rule>, skipFilter: bool, skipValidation: bool)
    requires AllAt(enumRules, path, h)
    ensures
      var added := Append(env, c, path, prop, h, k, enumRules, skipFilter, skipValidation).filters[|c.filters|..];
      var d := Types.DescriptorOf(k).filter;
      var nd := if d.Some? && !skipFilter then 1 else 0;
      var user := UserBlock(path, h, env.namedFilter, AddonList(Member(prop, "filters")));
      |added| == nd + |user|
      && (nd == 1 ==> added[0] == Rule(path, h, Apply(Builtin(d.value))))
      && added[nd..] == user
  {
    var r := Append(env, c, path, prop, h, k, enumRules, skipFilter, skipValidation);
    var df := DefaultBlock(path, h, Types.DescriptorOf(k).filter, skipFilter);
    var user := UserBlock(path, h, env.namedFilter, AddonList(Member(prop, "filters")));
    assert r.filters == c.filters + (df + user);
    assert r.filters[|c.filters|..] == df + user;
  }

  /** The errors a leaf declaration raises: reading `enum.enum` of a `null`
      enumeration, an enumeration with no truthy entry, and a truthy
      `bypass` that is neither an array nor a string. Nothing else fails. */
  lemma LeafErrorKinds(env: Env, c: Lists, path: string, prop: Value, h: Value, k: TypeKind)
    ensures var r := DefineSimple(env, c, path, prop, h, k);
      r.Fail? ==> r.error == TypeErrorMessage || r.error == EmptyEnumMessage
  {
  }

  lemma LeafNullEnum(env: Env, c: Lists, path: string, prop: Value, h: Value, k: TypeKind)
    requires Member(prop, "enum").Null?
    ensures DefineSimple(env, c, path, prop, h, k) == Fail(TypeErrorMessage)
  {
  }

  lemma LeafEmptyEnum(env: Env, c: Lists, path: string, prop: Value, h: Value, k: TypeKind)
    requires EnumSource(prop).Ok? && EnumSource(prop).value.0.Arr?
    requires forall x :: x in EnumSource(prop).value.0.items ==> !Truthy(x)
    ensures DefineSimple(env, c, path, prop, h, k) == Fail(EmptyEnumMessage)
  {
  }

  lemma LeafBadBypass(env: Env, c: Lists, path: string, prop: Value, h: Value, k: TypeKind)
    requires EnumSource(prop).Ok? && !EnumSource(prop).value.0.Arr?
    requires !BypassList(prop).Arr? && !BypassList(prop).Str?
    ensures DefineSimple(env, c, path, prop, h, k) == Fail(TypeErrorMessage)
  {
  }

  // ---------------------------------------------------------------------
  // Arrays

  /** The part of a re-homed rule's path below the element: the
      `path.0` prefix and one following dot are removed (the match of
      `^path\.0\.?` when `path` holds no other regular-expression
      metacharacter than `.`); any other path is kept. */
  function StripElement(path: string, p: string): (rel: string)
    ensures !Text.StartsWith(p, path + ".0") ==> rel == p
    ensures Text.StartsWith(p, path + ".0.") ==> p == path + ".0." + rel
    ensures Text.StartsWith(p, path + ".0") && !Text.StartsWith(p, path + ".0.") ==> p == path + ".0" + rel
  {
    var prefix := path + ".0";
    if Text.StartsWith(p, prefix) then
      var rest := p[|prefix|..];
      assert p == prefix + rest;
      if |rest| > 0 && rest[0] == '.' then
        assert Text.StartsWith(p, prefix + ".") by {
          assert p[..|prefix| + 1] == prefix + [rest[0]];
        }
        assert rest == "." + rest[1..];
        rest[1..]
      else
        rest
    else p
  }

  /** The inverse of `StripElement` on element paths. */
  function ElementPath(path: string, rel: string): string {
    if rel == "" then path + ".0" else path + ".0." + rel
  }

  function StripAll(path: string, rs: seq<Rule>): (out: seq<Rule>)
    ensures |out| == |rs|
    ensures forall i :: 0 <= i < |rs| ==>
      out[i] == Rule(StripElement(path, rs[i].path), rs[i].humanized, rs[i].action)
  {
    if |rs| == 0 then []
    else [Rule(StripElement(path, rs[0].path), rs[0].humanized, rs[0].action)] + StripAll(path, rs[1..])
  }

  /** Stripping loses nothing: an element rule's path is recovered from its
      re-homed path (except for a trailing dot, from an empty field name,
      which is dropped). */
  lemma StripElementRoundTrip(path: string, p: string)
    requires Under(p, path + ".0") && p != path + ".0."
    ensures ElementPath(path, StripElement(path, p)) == p
  {
    var prefix := path + ".0";
    if p != prefix {
      var dotted := prefix + ".";
      assert p[..|dotted|] == dotted;
      assert p[..|prefix|] == dotted[..|prefix|] == prefix;
      var rest := p[|prefix|..];
      assert rest[0] == p[..|dotted|][|prefix|] == '.';
      assert rest[1..] == p[|dotted|..];
      assert p == p[..|dotted|] + p[|dotted|..];
      assert rest[1..] != "";
    } else {
      assert p[|prefix|..] == "";
    }
  }

  lemma ElementPathStrips(path: string, rel: string)
    requires rel == "" || rel[0] != '.'
    ensures StripElement(path, ElementPath(path, rel)) == rel
  {
    var prefix := path + ".0";
    var p := ElementPath(path, rel);
    assert p[..|prefix|] == prefix;
    if rel != "" {
      assert p[|prefix|..] == "." + rel;
    } else {
      assert p[|prefix|..] == "";
    }
  }

  /** Moves the rules added after `count` into one fanned rule at `path`,
      or adds nothing when there are none. */
  function Rehome(path: string, h: Value, before: Lists, after: Lists): (r: Lists)
    requires Extends(before, after)
    ensures Extends(before, r) && AddedAt(before, r, path) && Labelled(before, r, h)
    ensures |r.filters| == |before.filters| + (if |after.filters| > |before.filters| then 1 else 0)
    ensures |r.validations| == |before.validations| + (if |after.validations| > |before.validations| then 1 else 0)
    ensures |r.filters| > |before.filters| ==>
      r.filters[|before.filters|] == Rule(path, h, FilterItems(StripAll(path, after.filters[|before.filters|..])))
    ensures |r.validations| > |before.validations| ==>
      r.validations[|before.validations|] == Rule(path, h, ValidateItems(StripAll(path, after.validations[|before.validations|..])))
  {
    var nf := |before.filters|;
    var nv := |before.validations|;
    var af := after.filters[nf..];
    var av := after.validations[nv..];
    assert after.filters[..nf] == before.filters;
    assert after.validations[..nv] == before.validations;
    Lists(
      after.filters[..nf] + (if |af| == 0 then [] else [Rule(path, h, FilterItems(StripAll(path, af)))]),
      after.validations[..nv] + (if |av| == 0 then [] else [Rule(path, h, ValidateItems(StripAll(path, av)))]))
  }

  /** No rule added after `before` sits at the degenerate path `path.0.`. */
  predicate NoTrailingDot(before: Lists, after: Lists, path: string)
    requires Extends(before, after)
  {
    (forall i :: |before.filters| <= i < |after.filters| ==> after.filters[i].path != path + ".0.")
    && (forall i :: |before.validations| <= i < |after.validations| ==> after.validations[i].path != path + ".0.")
  }

  /** The fanned rules hold the element rules with only their paths
      shortened: prefixing `path.0` gives back every original rule. */
  lemma RehomeRecovers(path: string, h: Value, before: Lists, after: Lists)
    requires Extends(before, after) && AddedUnder(before, after, path + ".0")
    requires NoTrailingDot(before, after, path)
    ensures var r := Rehome(path, h, before, after);
      (|r.filters| > |before.filters| ==>
        var fanned := r.filters[|before.filters|].action.filters;
        |fanned| == |after.filters| - |before.filters|
        && forall j :: 0 <= j < |fanned| ==>
             var orig := after.filters[|before.filters| + j];
             Rule(ElementPath(path, fanned[j].path), fanned[j].humanized, fanned[j].action) == orig)
      && (|r.validations| > |before.validations| ==>
        var fanned := r.validations[|before.validations|].action.validations;
        |fanned| == |after.validations| - |before.validations|
        && forall j :: 0 <= j < |fanned| ==>
             var orig := after.validations[|before.validations| + j];
             Rule(ElementPath(path, fanned[j].path), fanned[j].humanized, fanned[j].action) == orig)
  {
    var nf := |before.filters|;
    var nv := |before.validations|;
    AddedRules(path, after.filters, nf);
    RulesRecovered(path, after.filters[nf..]);
    AddedRules(path, after.validations, nv);
    RulesRecovered(path, after.validations[nv..]);
  }

  /** The rules of `all` from `n` on, read as a list of their own. */
  lemma AddedRules(path: string, all: seq<Rule>, n: nat)
    requires n <= |all|
    requires forall i :: n <= i < |all| ==> Under(all[i].path, path + ".0") && all[i].path != path + ".0."
    ensures forall j :: 0 <= j < |all| - n ==> all[n..][j] == all[n + j]
    ensures forall j :: 0 <= j < |all[n..]| ==> Under(all[n..][j].path, path + ".0") && all[n..][j].path != path + ".0."
  {
  }

  /** Prefixing `path.0` to every stripped rule gives the rule back. */
  lemma RulesRecovered(path: string, added: seq<Rule>)
    requires forall j :: 0 <= j < |added| ==> Under(added[j].path, path + ".0") && added[j].path != path + ".0."
    ensures var fanned := StripAll(path, added);
      forall j :: 0 <= j < |fanned| ==>
        Rule(ElementPath(path, fanned[j].path), fanned[j].humanized, fanned[j].action) == added[j]
  {
    var fanned := StripAll(path, added);
    forall j | 0 <= j < |fanned|
      ensures Rule(ElementPath(path, fanned[j].path), fanned[j].humanized, fanned[j].action) == added[j]
    {
      StripElementRoundTrip(path, added[j].path);
    }
  }

  /** An array declaration `[elem]` declares `elem` at `path.0` and then
      re-homes what that added. */
  lemma ArrayDeclaresElement(env: Env, c: Lists, path: string, h: Value, elem: Value)
    ensures var e := Define(env, c, path + ".0", elem);
      DefineArray(env, c, path, h, Arr([elem])) == if e.Ok? then Ok(Rehome(path, h, c, e.value)) else Fail(e.error)
  {
    assert Types.Get(Arr([elem])) == Some(ArrayType);
  }

  // ---------------------------------------------------------------------
  // property

  /** `property(path, spec)`. */
  function Property(env: Env, c: Lists, path: Value, spec: Value): (r: Result<Lists>)
    ensures r.Fail? && r.error == InvalidPathMessage <== !path.Str?
    ensures path.Str? ==> r == Define(env, c, path.s, spec)
  {
    if !path.Str? then Fail(InvalidPathMessage) else Define(env, c, path.s, spec)
  }

  /** `property` for a string path. */
  function Define(env: Env, c: Lists, path: string, spec: Value): (r: Result<Lists>)
    ensures Types.Get(spec).None? && TypeOf(spec) != "object" ==> r == Fail(BadPropertyMessage)
    ensures spec.Null? ==> r == Fail(TypeErrorMessage)
    ensures r.Ok? ==> Extends(c, r.value) && AddedUnder(c, r.value, path)
    ensures Types.Get(spec).Some? ==> r == Leaf(env, c, path, Obj([("type", spec)]), Types.Get(spec).value, spec)
    ensures spec.Obj? && Types.Get(spec).None? && Types.Get(Member(spec, "type")).Some? ==>
      r == Leaf(env, c, path, spec, Types.Get(Member(spec, "type")).value, Member(spec, "type"))
    ensures spec.Obj? && Types.Get(spec).None? && Types.Get(Member(spec, "type")).None? ==>
      r == Nested(env, c, path, spec, 0)
    decreases spec, 3, 0
  {
    var direct := Types.Get(spec);
    if direct.Some? then Leaf(env, c, path, Obj([("type", spec)]), direct.value, spec)
    else if TypeOf(spec) != "object" then Fail(BadPropertyMessage)
    else
      match spec
      case Null => Fail(TypeErrorMessage)
      case Obj(fields) =>
        if HasKey(fields, "type") then
          var i := KeyIndex(fields, "type");
          assert fields[i].1 == Member(spec, "type");
          var t := Types.Get(fields[i].1);
          if t.Some? then Leaf(env, c, path, spec, t.value, fields[i].1)
          else Nested(env, c, path, spec, 0)
        else
          TypeUnset(spec);
          Nested(env, c, path, spec, 0)
      case _ => Ok(c)
  }

  /** An object without a `type` member names no type through it. */
  lemma TypeUnset(spec: Value)
    requires spec.Obj? && !HasKey(spec.fields, "type")
    ensures Types.Get(Member(spec, "type")).None?
  {
    assert Member(spec, "type") == Undefined;
    assert Types.Get(Undefined).None?;
  }

  /** `defineNestedProperty`: every own field of `obj`, from the `i`-th
      on, is declared below `path`. */
  function Nested(env: Env, c: Lists, path: string, obj: Value, i: nat): (r: Result<Lists>)
    requires obj.Obj? && i <= |obj.fields|
    ensures r.Ok? ==> Extends(c, r.value) && AddedUnder(c, r.value, path)
    decreases obj, 2, |obj.fields| - i
  {
    if i == |obj.fields| then Ok(c)
    else
      var c1 :- Define(env, c, path + "." + obj.fields[i].0, obj.fields[i].1);
      UnderDeeper(c, c1, path, obj.fields[i].0);
      var c2 :- Nested(env, c1, path, obj, i + 1);
      AddedUnderTrans(c, c1, c2, path);
      Ok(c2)
  }

  /** The label of a declaration's rules: its own truthy `humanized`, or
      the one derived from the path. */
  function Label(env: Env, path: string, prop: Value): Value {
    var given := Member(prop, "humanized");
    if Truthy(given) then given else Str(env.humanize(path))
  }

  /** A declaration that resolves to a type kind `k`, with `ty` its `type`:
      every rule it adds sits exactly at `path` and carries the label. */
  function Leaf(env: Env, c: Lists, path: string, prop: Value, k: TypeKind, ty: Value): (r: Result<Lists>)
    requires Types.Get(ty) == Some(k)
    ensures r.Ok? ==> Extends(c, r.value) && AddedUnder(c, r.value, path)
    ensures r.Ok? ==> AddedAt(c, r.value, path) && Labelled(c, r.value, Label(env, path, prop))
    ensures k != ArrayType ==> r == DefineSimple(env, c, path, prop, Label(env, path, prop), k)
    ensures k == ArrayType ==>
      var s := DefineSimple(env, c, path, prop, Label(env, path, prop), k);
      r == if s.Ok? then DefineArray(env, s.value, path, Label(env, path, prop), ty) else Fail(s.error)
    decreases ty, 1, 0
  {
    var h := Label(env, path, prop);
    var s := DefineSimple(env, c, path, prop, h, k);
    if k != ArrayType then
      if s.Ok? then AtIsUnder(c, s.value, path); s else s
    else if s.Fail? then Fail(s.error)
    else
      var a := DefineArray(env, s.value, path, h, ty);
      if a.Ok? then AddedAtTrans(c, s.value, a.value, path, h); a else a
  }

  lemma AtIsUnder(c: Lists, d: Lists, path: string)
    requires Extends(c, d) && AddedAt(c, d, path)
    ensures AddedUnder(c, d, path)
  {
  }

  /** `defineArrayProperty`. The only string naming the Array kind is
      "Array", whose length is 5; the `Array` constructor has length 1 and
      no element. */
  function DefineArray(env: Env, c: Lists, path: string, h: Value, ty: Value): (r: Result<Lists>)
    requires Types.Get(ty) == Some(ArrayType)
    ensures ty.Arr? && |ty.items| != 1 ==> r == Fail(BadArrayMessage)
    ensures ty.Str? ==> r == Fail(BadArrayMessage)
    ensures ty == Fn(Native(ArrayType)) ==> r == Fail(BadPropertyMessage)
    ensures r.Ok? ==> Extends(c, r.value)
    ensures r.Ok? ==> AddedAt(c, r.value, path) && Labelled(c, r.value, h)
    decreases ty, 0, 0
  {
    match ty
    case Arr(items) =>
      if |items| != 1 then Fail(BadArrayMessage)
      else
        var after :- Define(env, c, path + ".0", items[0]);
        Ok(Rehome(path, h, c, after))
    case Fn(_) =>
      // its element `Array[0]` is undefined, which `property` rejects
      Fail(BadPropertyMessage)
    case _ => Fail(BadArrayMessage)
  }

  /** The missing element of the `Array` constructor is rejected the way
      `property` rejects any undefined declaration. */
  lemma UndefinedElementRejected(env: Env, c: Lists, path: string)
    ensures Define(env, c, path + ".0", Undefined) == Fail(BadPropertyMessage)
  {
    assert Types.Get(Undefined).None?;
  }

  /** The fields of a nested declaration, each named by its full path. */
  function Prefixed(path: string, fields: Entries<Value>): (e: Entries<Value>)
    ensures |e| == |fields|
    ensures forall i :: 0 <= i < |fields| ==> e[i] == (path + "." + fields[i].0, fields[i].1)
  {
    if |fields| == 0 then []
    else [(path + "." + fields[0].0, fields[0].1)] + Prefixed(path, fields[1..])
  }

  /** A nested declaration is `schema` over its own fields, each renamed
      to its path below `path`. */
  lemma {:induction false} NestedIsSchema(env: Env, c: Lists, path: string, obj: Value, i: nat)
    requires obj.Obj? && i <= |obj.fields|
    ensures Nested(env, c, path, obj, i) == DefineAll(env, c, Prefixed(path, obj.fields[i..]))
    decreases |obj.fields| - i
  {
    var pf := Prefixed(path, obj.fields[i..]);
    if i < |obj.fields| {
      assert pf[0] == (path + "." + obj.fields[i].0, obj.fields[i].1);
      assert pf[1..] == Prefixed(path, obj.fields[i + 1..]) by {
        assert obj.fields[i..][1..] == obj.fields[i + 1..];
      }
      var c1 := Define(env, c, path + "." + obj.fields[i].0, obj.fields[i].1);
      if c1.Ok? {
        NestedIsSchema(env, c1.value, path, obj, i + 1);
      }
    } else {
      assert pf == [];
    }
  }

  /** `p` sits at or below the name of one of the fields. */
  predicate UnderSome(p: string, fields: Entries<Value>) {
    exists j :: 0 <= j < |fields| && Under(p, fields[j].0)
  }

  /** Every rule `d` has beyond `c` sits at or below one of the fields. */
  predicate AddedUnderSome(c: Lists, d: Lists, fields: Entries<Value>)
    requires Extends(c, d)
  {
    (forall i :: |c.filters| <= i < |d.filters| ==> UnderSome(d.filters[i].path, fields))
    && (forall i :: |c.validations| <= i < |d.validations| ==> UnderSome(d.validations[i].path, fields))
  }

  /** `schema(obj)`: every own field is declared at its own name, and every
      rule added sits at or below one of them. */
  function DefineAll(env: Env, c: Lists, fields: Entries<Value>): (r: Result<Lists>)
    ensures r.Ok? ==> Extends(c, r.value) && AddedUnderSome(c, r.value, fields)
    decreases |fields|
  {
    if |fields| == 0 then Ok(c)
    else
      var c1 :- Define(env, c, fields[0].0, fields[0].1);
      var rest := DefineAll(env, c1, fields[1..]);
      if rest.Ok? then
        UnderSomeStep(c, c1, rest.value, fields);
        rest
      else rest
  }

  /** A schema of one field is that field's declaration. */
  lemma DefineAllOne(env: Env, c: Lists, name: string, spec: Value)
    ensures DefineAll(env, c, [(name, spec)]) == Define(env, c, name, spec)
  {
    assert [(name, spec)][1..] == [];
  }

  /** Declaring `a + b` declares `a`, then `b` on the lists it left; a
      failure in `a` stops before `b`. */
  lemma {:induction false} DefineAllConcat(env: Env, c: Lists, a: Entries<Value>, b: Entries<Value>)
    ensures var ra := DefineAll(env, c, a);
      DefineAll(env, c, a + b) == if ra.Ok? then DefineAll(env, ra.value, b) else Fail(ra.error)
    decreases |a|
  {
    if |a| == 0 {
      assert a + b == b;
    } else {
      assert (a + b)[0] == a[0];
      assert (a + b)[1..] == a[1..] + b;
      var c1 := Define(env, c, a[0].0, a[0].1);
      if c1.Ok? {
        DefineAllConcat(env, c1.value, a[1..], b);
      }
    }
  }

  /** `schema(obj)` over the object's own fields. */
  function DeclareSchema(env: Env, c: Lists, schema: Value): (r: Result<Lists>)
    ensures r.Ok? ==> Extends(c, r.value) && AddedUnderSome(c, r.value, OwnEntries(schema))
    ensures schema.Obj? ==> r == DefineAll(env, c, schema.fields)
  {
    DefineAll(env, c, OwnEntries(schema))
  }

  // ---------------------------------------------------------------------
  // Helpers for the contracts above

  lemma UnderDeeper(c: Lists, d: Lists, path: string, field: string)
    requires Extends(c, d) && AddedUnder(c, d, path + "." + field)
    ensures AddedUnder(c, d, path)
  {
    forall p | Under(p, path + "." + field) ensures Under(p, path) {
      UnderPrefix(p, path, field);
    }
  }

  lemma UnderPrefix(p: string, path: string, field: string)
    requires Under(p, path + "." + field)
    ensures Text.StartsWith(p, path + ".")
  {
    var q := path + "." + field;
    assert Text.StartsWith(p, q);
    assert p[..|path| + 1] == q[..|path| + 1] == path + ".";
  }

  lemma UnderSomeStep(c: Lists, c1: Lists, d: Lists, fields: Entries<Value>)
    requires |fields| > 0
    requires Extends(c, c1) && AddedUnder(c, c1, fields[0].0)
    requires Extends(c1, d) && AddedUnderSome(c1, d, fields[1..])
    ensures Extends(c, d) && AddedUnderSome(c, d, fields)
  {
    forall p | Under(p, fields[0].0) ensures UnderSome(p, fields) {
      assert 0 < |fields| && Under(p, fields[0].0);
    }
    forall p | UnderSome(p, fields[1..]) ensures UnderSome(p, fields) {
      var j :| 0 <= j < |fields[1..]| && Under(p, fields[1..][j].0);
      assert fields[j + 1] == fields[1..][j];
    }
    forall i | |c.filters| <= i < |c1.filters| ensures d.filters[i] == c1.filters[i] {
      assert c1.filters <= d.filters;
    }
    forall i | |c.validations| <= i < |c1.validations| ensures d.validations[i] == c1.validations[i] {
      assert c1.validations <= d.validations;
    }
  }

  lemma AddedAtTrans(c: Lists, d: Lists, e: Lists, path: string, h: Value)
    requires Extends(c, d) && Extends(d, e)
    requires AddedAt(c, d, path) && AddedAt(d, e, path)
    requires Labelled(c, d, h) && Labelled(d, e, h)
    ensures Extends(c, e) && AddedAt(c, e, path) && Labelled(c, e, h)
    ensures AddedUnder(c, e, path)
  {
    forall i | |c.filters| <= i < |d.filters| ensures e.filters[i] == d.filters[i] {
      assert d.filters <= e.filters;
    }
    forall i | |c.validations| <= i < |d.validations| ensures e.validations[i] == d.validations[i] {
      assert d.validations <= e.validations;
    }
  }

  lemma AddedUnderTrans(c: Lists, d: Lists, e: Lists, path: string)
    requires Extends(c, d) && Extends(d, e)
    requires AddedUnder(c, d, path) && AddedUnder(d, e, path)
    ensures Extends(c, e) && AddedUnder(c, e, path)
  {
    forall i | |c.filters| <= i < |d.filters| ensures e.filters[i] == d.filters[i] {
      assert d.filters <= e.filters;
    }
    forall i | |c.validations| <= i < |d.validations| ensures e.validations[i] == d.validations[i] {
      assert d.validations <= e.validations;
    }
  }
}

/** The model function a creator builds: its static members, its
    prototype, and what `map` and `create` attach to it. A member counts as
    taken when it holds a truthy value, since the conflict checks test
    `model[name]` and `prototype[name]` for truthiness; inherited members
    (from `Function.prototype` and `Object.prototype`) are supplied by the
    caller. */
module Models {
  import opened Wrappers
  import opened Values
  import opened Fields
  import Naming
  import Schema
  import Pipeline
  import Mapping
  import Calls
  import Paths

  const StaticConflictMessage: string := "Conflict occurred! Static method's name is already used!"
  const MethodConflictMessage: string := "Conflict occurred! Method name is already used!"

  /** The statics every model copies from `BaseModel`. */
  const BaseStatics: set<string> :=
    {"find", "findOne", "findOneById", "findByIds", "count", "countOne",
     "insert", "update", "updateOne", "save", "remove", "removeOne"}

  /** The members every model prototype copies from `BaseModel.prototype`. */
  const BaseMethods: set<string> := {"base", "toJSON"}

  /** What a member holds. */
  datatype Slot =
    | Given                  // put there by the platform, `BaseModel` or the constructor
    | Handler(id: nat)       // a function the application supplied
    | Forward(name: string)  // `function () { return model[name](this, ...arguments); }`
    | Join(field: string)    // the accessor `belongsTo`, `hasOne` or `hasMany` built for `field`
    | Normalize | Validate | Transform | InverseTransform  // attached by `create`

  /** The model function and the creator state its members read: the
      compiled rule lists and, once `map` ran, the two mapping tables. */
  datatype Model = Model(
    statics: map<string, Slot>,
    proto: map<string, Slot>,
    rules: Schema.Lists,
    tables: Option<(Mapping.Table, Mapping.Table)>)

  /** `inflection.camelize(opts.collection || inflection.pluralize(name), true)`. */
  function CollectionName(infl: Naming.Inflector, name: string, collection: string): string {
    infl.camelize(if collection != "" then collection else infl.pluralize(name))
  }

  function GivenAll(names: set<string>): (m: map<string, Slot>)
    ensures m.Keys == names
    ensures forall k :: k in m ==> m[k] == Given
  {
    map k | k in names :: Given
  }

  /** `new ModelCreator(name, db, modelize, opts)`: the model function gets
      the `BaseModel` statics and prototype members, `modelize`,
      `collection` and `prototype`, and `modelName` and `collectionName`
      when they are non-empty strings. */
  function NewModel(infl: Naming.Inflector, name: string, collection: string,
                    inheritedStatics: set<string>, inheritedMethods: set<string>): (m: Model)
    ensures BaseStatics <= m.statics.Keys && BaseMethods <= m.proto.Keys
    ensures inheritedStatics <= m.statics.Keys && inheritedMethods <= m.proto.Keys
    ensures m.rules == Schema.Lists([], []) && m.tables == None
  {
    var own := {"modelize", "collection", "prototype"}
      + (if name != "" then {"modelName"} else {})
      + (if CollectionName(infl, name, collection) != "" then {"collectionName"} else {});
    Model(GivenAll(BaseStatics + own + inheritedStatics), GivenAll(BaseMethods + {"constructor"} + inheritedMethods),
          Schema.Lists([], []), None)
  }

  /** `staticMethod(name, fn)`. */
  function StaticMethod(m: Model, name: string, fn: nat): (r: Result<Model>)
    ensures r.Fail? <==> name in m.statics
    ensures r.Fail? ==> r.error == StaticConflictMessage
    ensures r.Ok? ==> (r.value.statics == m.statics[name := Handler(fn)]
                       && r.value.proto == m.proto && r.value.rules == m.rules && r.value.tables == m.tables)
  {
    if name in m.statics then Fail(StaticConflictMessage)
    else Ok(m.(statics := m.statics[name := Handler(fn)]))
  }

  /** `method(name, fn)`. */
  function Method(m: Model, name: string, fn: nat): (r: Result<Model>)
    ensures r.Fail? <==> name in m.proto
    ensures r.Fail? ==> r.error == MethodConflictMessage
    ensures r.Ok? ==> (r.value.proto == m.proto[name := Handler(fn)]
                       && r.value.statics == m.statics && r.value.rules == m.rules && r.value.tables == m.tables)
  {
    if name in m.proto then Fail(MethodConflictMessage)
    else Ok(m.(proto := m.proto[name := Handler(fn)]))
  }

  /** `instantiate(name)`: no conflict check; the prototype member simply
      forwards to the static of the same name. */
  function Instantiate(m: Model, name: string): (r: Model)
    ensures r.proto == m.proto[name := Forward(name)] && r.statics == m.statics
  {
    m.(proto := m.proto[name := Forward(name)])
  }

  /** A relation accessor: `staticMethod(name, accessor)` then
      `instantiate(name)`; the conflict check is the one of `staticMethod`. */
  function Relate(m: Model, name: string, accessor: Slot): (r: Result<Model>)
    ensures r.Fail? <==> name in m.statics
    ensures r.Fail? ==> r.error == StaticConflictMessage
    ensures r.Ok? ==> (r.value.statics == m.statics[name := accessor]
                       && r.value.proto == m.proto[name := Forward(name)]
                       && r.value.rules == m.rules && r.value.tables == m.tables)
  {
    if name in m.statics then Fail(StaticConflictMessage)
    else Ok(Instantiate(m.(statics := m.statics[name := accessor]), name))
  }

  /** `map(mapping)`: both tables are compiled from copies of the literal
      and assigned as the statics `mapping` and `inverseMapping`. Reading
      `mapping._` of an absent or `null` literal throws before anything is
      assigned. The forward table keeps the root `_` functions (see
      `Mapping.RootFnsLost` for the compilation as written). */
  function Map(m: Model, spec: Value): (r: Result<Model>)
    ensures r.Fail? <==> spec.Undefined? || spec.Null?
    ensures r.Fail? ==> r.error == TypeErrorMessage
    ensures r.Ok? ==> r.value.tables.Some? && r.value.tables.value.1 == Mapping.CompileInverse(spec)
    ensures r.Ok? ==> r.value.tables.value.0.names == Mapping.CompileMapping(spec).names
    ensures r.Ok? && spec.Obj? ==>
      forall k :: HasKey(FieldsOf(Mapping.RootFns(spec)), k) ==> HasKey(FieldsOf(r.value.tables.value.0.fns), k)
    ensures r.Ok? ==> "mapping" in r.value.statics && "inverseMapping" in r.value.statics
    ensures r.Ok? ==> r.value.proto == m.proto && r.value.rules == m.rules
  {
    if spec.Undefined? || spec.Null? then Fail(TypeErrorMessage)
    else
      Mapping.MergedSameNames(spec);
      forall k | spec.Obj? && HasKey(FieldsOf(Mapping.RootFns(spec)), k)
        ensures HasKey(FieldsOf(Mapping.CompileMappingMerged(spec).fns), k)
      {
        Mapping.MergedKeepsRootFns(spec, k);
      }
      Ok(m.(statics := m.statics["mapping" := Given]["inverseMapping" := Given],
            tables := Some((Mapping.CompileMappingMerged(spec), Mapping.CompileInverse(spec)))))
  }

  /** The names `create` attaches. */
  const CreatedStatics: set<string> := {"normalize", "validate", "transform", "inverseTransform"}
  const CreatedMethods: set<string> := {"normalize", "validate"}

  /** `create()`: attaches `normalize`, `validate`, `transform` and
      `inverseTransform` to the model and `normalize` and `validate` to
      its prototype, unless the model already has a `normalize`. */
  function Create(m: Model): (r: Model)
    ensures CreatedStatics <= r.statics.Keys || "normalize" in m.statics
    ensures "normalize" in m.statics ==> r == m
    ensures "normalize" !in m.statics ==>
      r.statics["normalize"] == Normalize && r.statics["validate"] == Validate
      && r.statics["transform"] == Transform && r.statics["inverseTransform"] == InverseTransform
      && "normalize" in r.proto && r.proto["normalize"] == Forward("normalize")
      && "validate" in r.proto && r.proto["validate"] == Forward("validate")
      && (forall k :: k in m.statics && k !in CreatedStatics ==> k in r.statics && r.statics[k] == m.statics[k])
      && (forall k :: k in m.proto && k !in CreatedMethods ==> k in r.proto && r.proto[k] == m.proto[k])
      && r.statics.Keys == m.statics.Keys + CreatedStatics && r.proto.Keys == m.proto.Keys + CreatedMethods
      && r.rules == m.rules && r.tables == m.tables
  {
    if "normalize" in m.statics then m
    else
      m.(statics := m.statics["normalize" := Normalize]["validate" := Validate]
                              ["transform" := Transform]["inverseTransform" := InverseTransform],
         proto := m.proto["normalize" := Forward("normalize")]["validate" := Forward("validate")])
  }

  // ---------------------------------------------------------------------
  // What the attached members compute

  /** `model.normalize(obj)`: the compiled filters, in order, with the root
      path never replacing the document. */
  function NormalizeDoc(rt: Calls.Runtime, m: Model, obj: Value): (out: Value)
    ensures (forall i :: 0 <= i < |m.rules.filters| ==> m.rules.filters[i].path == "") ==> out == obj
    ensures (forall i :: 0 <= i < |m.rules.filters| ==> Paths.Get(obj, m.rules.filters[i].path).Undefined?) ==> out == obj
  {
    Pipeline.Filter(rt, m.rules.filters, obj, false)
  }

  /** `model.validate(obj)`: normalizes `obj` in place first, then settles
      every compiled validation and keeps the truthy outcomes. */
  function ValidateDoc(rt: Calls.Runtime, m: Model, obj: Value): (errs: seq<Value>)
    ensures forall x :: x in errs ==> Truthy(x)
    ensures |m.rules.validations| == 0 ==> errs == []
  {
    Pipeline.Validate(rt, m.rules.validations, NormalizeDoc(rt, m, obj))
  }

  /** The table `this.mapping || {}` (or the inverse) names. */
  function TableOf(m: Model, inverse: bool): Mapping.Table {
    match m.tables
    case None => Mapping.NoMapping
    case Some((f, i)) => if inverse then i else f
  }

  /** What calling a static member that this model interprets gives: the
      attached members compute the pipeline and the mapping, application
      functions come from the runtime. */
  predicate Runs(s: Slot) {
    s.Handler? || s.Normalize? || s.Validate? || s.Transform? || s.InverseTransform?
  }

  function RunStatic(rt: Calls.Runtime, m: Model, s: Slot, arg: Value): (r: Result<Value>)
    requires Runs(s)
    ensures r.Fail? ==> (s.Transform? || s.InverseTransform?) && r.error == TypeErrorMessage
    ensures (s.Transform? || s.InverseTransform?) && r.Ok? ==> r.value.Obj?
    ensures s.Validate? ==> r.Ok? && r.value.Arr? && forall x :: x in r.value.items ==> Truthy(x)
  {
    match s
    case Handler(id) => Ok(rt.user(id, arg))
    case Normalize => Ok(NormalizeDoc(rt, m, arg))
    case Validate => Ok(Arr(ValidateDoc(rt, m, arg)))
    case Transform => Mapping.Transform(rt, TableOf(m, false), arg)
    case InverseTransform => Mapping.Transform(rt, TableOf(m, true), arg)
  }

  /** `doc[name]()`: a forwarding prototype member calls the static of its
      name with the document as first argument. */
  function RunMethod(rt: Calls.Runtime, m: Model, name: string, doc: Value): (r: Option<Result<Value>>)
    ensures r.Some? <==> (name in m.proto && m.proto[name].Forward?
                          && m.proto[name].name in m.statics && Runs(m.statics[m.proto[name].name]))
  {
    if name in m.proto && m.proto[name].Forward? && m.proto[name].name in m.statics
       && Runs(m.statics[m.proto[name].name])
    then Some(RunStatic(rt, m, m.statics[m.proto[name].name], doc))
    else None
  }

  // ---------------------------------------------------------------------
  // Properties

  /** A static name can be declared once: the second declaration fails,
      whatever function it brings. */
  lemma StaticDeclaredOnce(m: Model, name: string, f: nat, g: nat)
    requires name !in m.statics
    ensures StaticMethod(m, name, f).Ok?
    ensures StaticMethod(StaticMethod(m, name, f).value, name, g) == Fail(StaticConflictMessage)
  {
  }

  lemma MethodDeclaredOnce(m: Model, name: string, f: nat, g: nat)
    requires name !in m.proto
    ensures Method(m, name, f).Ok?
    ensures Method(Method(m, name, f).value, name, g) == Fail(MethodConflictMessage)
  {
  }

  /** Declarations of two different static names succeed in either order
      and give the same model. */
  lemma StaticsCommute(m: Model, a: string, b: string, f: nat, g: nat)
    requires a != b && a !in m.statics && b !in m.statics
    ensures var ab := StaticMethod(m, a, f).value;
      var ba := StaticMethod(m, b, g).value;
      StaticMethod(ab, b, g).Ok? && StaticMethod(ba, a, f).Ok?
      && StaticMethod(ab, b, g).value == StaticMethod(ba, a, f).value
  {
    var ab := StaticMethod(m, a, f).value;
    var ba := StaticMethod(m, b, g).value;
    assert m.statics[a := Handler(f)][b := Handler(g)] == m.statics[b := Handler(g)][a := Handler(f)];
  }

  /** The names a fresh model already uses: every `BaseModel` static and
      prototype member, and `constructor`. */
  lemma BaseNamesTaken(infl: Naming.Inflector, name: string, collection: string,
                       si: set<string>, mi: set<string>, s: string, p: string, f: nat)
    requires s in BaseStatics && (p in BaseMethods || p == "constructor")
    ensures StaticMethod(NewModel(infl, name, collection, si, mi), s, f) == Fail(StaticConflictMessage)
    ensures Method(NewModel(infl, name, collection, si, mi), p, f) == Fail(MethodConflictMessage)
  {
  }

  /** Accessor names clash as static names: relating the same accessor
      twice fails, whatever the second accessor is. */
  lemma RelateTwiceFails(m: Model, name: string, a: Slot, b: Slot)
    requires name !in m.statics
    ensures Relate(m, name, a).Ok? && Relate(Relate(m, name, a).value, name, b) == Fail(StaticConflictMessage)
  {
  }

  /** `create` is idempotent. */
  lemma CreateIdempotent(m: Model)
    ensures Create(Create(m)) == Create(m)
  {
  }

  /** After `create`, the names it attaches are taken, so declaring one of
      them as a static fails. */
  lemma CreatedNamesTaken(m: Model, name: string, f: nat)
    requires name in CreatedStatics
    ensures StaticMethod(Create(m), name, f).Fail? || "normalize" in m.statics
  {
  }

  /** An instantiated accessor called on a document is the static called
      with the document. */
  lemma InstantiateForwards(rt: Calls.Runtime, m: Model, name: string, doc: Value)
    requires name in m.statics && Runs(m.statics[name])
    ensures RunMethod(rt, Instantiate(m, name), name, doc) == Some(RunStatic(rt, m, m.statics[name], doc))
  {
  }

  /** After `create` on a model without `normalize`, `doc.normalize()` and
      `doc.validate()` are `Model.normalize(doc)` and `Model.validate(doc)`. */
  lemma CreatedMethodsForward(rt: Calls.Runtime, m: Model, doc: Value)
    requires "normalize" !in m.statics
    ensures RunMethod(rt, Create(m), "normalize", doc) == Some(Ok(NormalizeDoc(rt, m, doc)))
    ensures RunMethod(rt, Create(m), "validate", doc) == Some(Ok(Arr(ValidateDoc(rt, m, doc))))
  {
  }

  /** Validation sees the normalized document: validating a document that
      was already normalized reports the same errors, when no filter sits
      on the root, no filter path is a prefix of another and every filter
      is idempotent. */
  lemma ValidateNormalized(rt: Calls.Runtime, m: Model, obj: Value)
    requires Pipeline.NonRoot(m.rules.filters) && Pipeline.Disjoint(m.rules.filters)
    requires forall i :: 0 <= i < |m.rules.filters| ==> Pipeline.Idempotent(rt, m.rules.filters[i].action)
    ensures ValidateDoc(rt, m, NormalizeDoc(rt, m, obj)) == ValidateDoc(rt, m, obj)
  {
    Pipeline.NormalizeIdempotent(rt, m.rules.filters, obj);
  }
}

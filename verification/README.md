# yari core, modelled in Dafny

yari is an object-document mapper for MongoDB. A model is declared through a
creator. `property` and `schema` declarations compile into two ordered rule
lists: filters and validations. `map` compiles a field-name mapping into a
forward table and an inverse table. `belongsTo`, `hasOne` and `hasMany`
declare accessors that fetch related documents and join them onto their
holders. `create` attaches `normalize`, `validate`, `transform` and
`inverseTransform`. Queries are configuration records with validated
setters, a single/multi mode and a default cap of 20 documents.

This project models that core as pure functions over a JSON-like `Value`
tree and proves what the code promises about it. The modules follow the
program's structure:

- `Values`, `Fields` and `Text` cover JavaScript values, ordered own
  entries, and string helpers (split, join, `shien.format` placeholders).
- `Types` is the type registry; `Validation` is the two validators;
  `Naming` is `method`, `field`, `enum` and `translate`.
- `Calls` is what calling a function value gives.
- `Paths` covers dotted-path reads and writes; `Pipeline` covers the
  filter and validation pipeline.
- `Schema` is the rule compiler.
- `Mapping` covers the mapping tables and `transform`.
- `Models` covers the model function's statics and prototype
  (`staticMethod`, `method`, `instantiate`, `map`, `create`).
- `Population` covers relations: id plucking, the id condition, the
  joins, the declarations and the accessor queries.
- `Queries` is the query builder.

Several things that come from outside the library are parameters rather
than definitions:

- the `inflection` word transformations (`Naming.Inflector`);
- the humanized label derived from a path, and the filters the filter
  module exports by name (`Schema.Env`);
- application callbacks, the `Date` and `ObjectId` constructors, and the
  parsing of numeric strings (`Calls.Runtime`);
- `shien.merge` of a `find` option into the criteria (the `merge`
  argument of `Queries.Apply`).

Store round trips are not modelled. The joins take the fetched documents
as an argument. `Queries.ExecCall` and `Queries.Stream` say which
collection call is made with which arguments.

A throw is a `Fail` carrying the error message. A `TypeError` from reading
a member of `null` or `undefined` is `Fail("TypeError")`.

## Model

| member | source | states |
|---|---|---|
| Types.Get | lib/type.js:91-106 | An array literal resolves to the Array kind whatever it holds. Otherwise the result is a kind the identifier names, and there is none (`false`) exactly when no kind's canonical name, native constructor or alias is the identifier. |
| Types.EveryTokenResolves | lib/type.js:27-105 | A canonical name, the native constructor, or any alias of a kind resolves to that kind. |
| Types.TokensDisjoint | lib/type.js:27-89 | No identifier names two kinds, so the registry's search order does not matter. |
| Types.DescriptorOf | lib/type.js:27-89 | Date, Mixed and ObjectId ship neither a filter nor a validation. Only String, Number and Boolean ship a filter. Only Number and Array ship a validation. |
| Types.ValidateNumber | lib/type.js:44-51 | Passes exactly on `undefined` and finite numbers; otherwise it returns the "is not a valid number" error. |
| Types.ValidateArray | lib/type.js:83-87 | Passes exactly on `undefined` and arrays; otherwise it returns the "is not a valid array" error. |
| Types.FilterString | lib/type.js:31-33 | Always yields a string, and leaves a string as it is. |
| Types.FilterNumber | lib/type.js:41-43 | Always yields a number, and leaves a number as it is. |
| Types.FilterBoolean | lib/type.js:59-61 | Always yields a boolean with the truthiness of its input. |
| Types.FiltersIdempotent | lib/type.js:31-61 | Each of the String, Number and Boolean default filters, applied twice, equals applying it once. |
| Calls.DefaultFiltersAreConstructors | lib/type.js:27-63 | The String, Number and Boolean default filters behave like calling the native constructors `String`, `Number` and `Boolean`. |
| Validation.ValidateRequired | lib/utils/validation.js:7-11 | Fails exactly on `undefined` and `null`, with the "{field} is required." error. |
| Validation.RequiredAcceptsFalsy | lib/utils/validation.js:7-11 | `0`, `""` and `false` pass the required check although they are falsy. |
| Validation.IndexOf | lib/utils/validation.js:14 | Yields -1 exactly when no entry is strictly equal to the value; otherwise it yields the first such position. |
| Validation.ValidateEnum | lib/utils/validation.js:13-21 | Passes exactly on `undefined` or a value strictly equal to some entry. A failure is the error built from the (possibly translated) entries. |
| Validation.EnumMessageText | lib/utils/validation.js:15-19 | The failure message keeps `{field}` and lists the backtick-quoted labels, joined by comma and space, between the fixed phrases. |
| Validation.EnumMessageUntranslated | lib/utils/validation.js:13-21 | Without a translator, a rejected value gets a message listing the entries themselves, quoted, in list order. |
| Validation.MapValues | lib/utils/validation.js:16 | Translating the list keeps its length and translates each entry in place. |
| Naming.MethodName | lib/utils/core.js:64-67 | The accessor name starts with the verb (default `populate`). It continues with the field's first character upper-cased (ASCII letters only, see Left out) and the rest of the field unchanged. |
| Naming.MethodNameRoundTrip | lib/utils/core.js:64-67 | Under ASCII upper-casing, the field is recovered from its accessor name when it does not start with an upper-case letter, so distinct such fields get distinct accessors. |
| Naming.PopulateAuthor | lib/utils/core.js:64-67 | `method("author")` is `populateAuthor`. |
| Naming.FieldName | lib/utils/core.js:41-62 | Throws "Bad model name!" exactly on an empty name. Otherwise the result is the selected segment with its first `-` made `_`, then underscored and camelized, and then pluralized when `many`. |
| Naming.SegmentOfPath | lib/utils/core.js:46-51 | For a name `a/b/.../s` the selected segment is `s`, or the segment before it when `s` is `index` and there is one. |
| Naming.Translate | lib/utils/core.js:7-13 | `undefined` when no entry's value is strictly equal to the term; otherwise the label of the first entry whose value is. |
| Naming.ExpandAll | lib/utils/core.js:21-28 | Every string entry becomes `[value, humanize(value)]`; other entries are kept; keys and order are kept. |
| Naming.Firsts | lib/utils/core.js:30-31 | Reading `obj[prop][0]` succeeds exactly when no entry is `null` or `undefined`, and lists each entry's first element in order. |
| Naming.EnumMapsKeys | lib/utils/core.js:15-39 | `enum(obj)` maps every key to its value (a string entry to itself) and lists the values in declaration order as `.enum`. |
| Naming.EnumTranslates | lib/utils/core.js:7-36 | The bound `translate` gives an entry's value back its label: a string entry's humanized form. This holds unless an earlier entry has the same value. |
| Paths.GetAfterSet | lib/model/creator.js:650-658 | Reading a path just written yields the written value, when the path could be read before. |
| Paths.SetToCurrent | lib/model/creator.js:650-658 | Writing back the value a path holds leaves the document unchanged. |
| Paths.GetAfterOtherSet | lib/model/creator.js:650-658 | Writing one path leaves every path that parts ways with it as it was. |
| Pipeline.Compact | lib/model/creator.js:613-617 | Keeps exactly the truthy values. |
| Pipeline.ProcessErrors | lib/model/creator.js:602-618 | The collected errors are exactly the truthy values some settled outcome contributes. An array outcome contributes its elements. |
| Pipeline.MergeConcat | lib/model/creator.js:604-611 | Merging the outcomes of two promise lists concatenates their merged values, in order. |
| Pipeline.FilterEach | lib/model/creator.js:620-630 | Array filtering keeps the length; each defined item is filtered with root replacement allowed, and an undefined item stays undefined. |
| Pipeline.FilterStep | lib/model/creator.js:648-664 | A rule whose path reads undefined leaves the document as it is, and so does a root rule when root replacement is not allowed. |
| Pipeline.Filter | lib/model/creator.js:648-666 | Filters on paths the document does not have change nothing. Without root replacement, root filters change nothing either. |
| Pipeline.Validate | lib/model/creator.js:668-687 | Every reported error is truthy, and no rules give no errors. |
| Pipeline.Settlements | lib/model/creator.js:668-684 | One settled promise per validation rule, in rule order. |
| Pipeline.ValidateEach | lib/model/creator.js:632-646 | One promise per array item. |
| Pipeline.StepUntouched | lib/model/creator.js:648-666 | An undefined value or an undefined filter result leaves the document as it is. A root filter replaces the document only when root replacement is allowed. |
| Pipeline.StepOwnPath | lib/model/creator.js:648-666 | After a filter step, the rule's path holds the refined value. |
| Pipeline.StepOtherPath | lib/model/creator.js:648-666 | A filter step leaves every path that parts ways with the rule's path unchanged. |
| Pipeline.FilterConcat | lib/model/creator.js:648-666 | Filtering with two concatenated rule lists is filtering with one list, then the other. |
| Pipeline.FilterRefines | lib/model/creator.js:648-666 | With non-root rules whose paths part ways, one pass leaves each rule's path holding the refinement of its original value. |
| Pipeline.FilterFixed | lib/model/creator.js:648-666 | A document whose rule paths already hold fixed points is left unchanged. |
| Pipeline.NormalizeIdempotent | lib/model/creator.js:648-666 | `normalize` is idempotent when every filter is, and the filters sit at non-root paths that part ways. |
| Pipeline.DefaultFiltersIdempotent | lib/type.js:31-61 | The String, Number and Boolean default filters are idempotent as pipeline actions. |
| Pipeline.ValidateConcat | lib/model/creator.js:668-687 | The errors of concatenated rule lists are the errors of each list, in rule order. |
| Pipeline.ValidatePasses | lib/model/creator.js:602-618 | The error list is empty exactly when no rule contributes a truthy outcome. |
| Pipeline.LabelledError | lib/model/creator.js:675-681 | A fulfilled `Error` whose message starts with `{field}` is reported with the rule's humanized label in its place. |
| Pipeline.RequiredRule | lib/model/creator.js:93-99 | A required rule reports "<label> is required." exactly when the value at its path is `undefined` or `null`. |
| Pipeline.ArrayValidationFlattens | lib/model/creator.js:632-646 | An array-fanned validation reports every element's errors, in item order, as one flat list. |
| Pipeline.FannedOutcome | lib/model/creator.js:632-646 | The fanned validator settles to the flattened item errors. |
| Schema.RequiredBlock | lib/model/creator.js:93-99 | A required rule is added exactly when `required` is truthy. |
| Schema.EnumSource | lib/model/creator.js:101-106 | The object form `{enum, translate}` is unwrapped only when `enum` is an array and `translate` a function. A `null` enum throws. |
| Schema.EnumBlock | lib/model/creator.js:108-122 | Throws "Empty enumeration array!" exactly when every entry is falsy. Otherwise one enum rule holds the truthy entries, in list order and with their repetitions. A non-array adds nothing. |
| Schema.Bypassed | lib/model/creator.js:124-129 | `bypass.indexOf` is an element search on an array and a substring search on a string; any other value throws. |
| Schema.Skips | lib/model/creator.js:124-129 | The filter and validation bypass flags, or the TypeError of a bad `bypass`. |
| Schema.DefaultBlock | lib/model/creator.js:126-135 | The type's default rule is added exactly when the type has one and it is not bypassed. |
| Schema.AddonList | lib/model/creator.js:138-142 | An array is the list, another truthy value a one-element list, a falsy value none. |
| Schema.NamedValidation | lib/model/creator.js:146-147 | The validation handler resolves exactly `validateRequired` and `validateEnum` by name. |
| Schema.UserBlock | lib/model/creator.js:144-159 | User addons that resolve to functions are appended in declared order. Names that do not resolve are skipped silently. |
| Schema.UserBlockOne | lib/model/creator.js:144-159 | A single addon contributes one rule calling the function it resolves to, at the leaf's path with its label, and nothing when it does not resolve. |
| Schema.UserBlockConcat | lib/model/creator.js:144-159 | The block of a concatenated addon list is the concatenation of the blocks. With `UserBlockOne`, each resolving addon is kept in declared order and every other addon is skipped, in any mix. |
| Schema.DefineSimple | lib/model/creator.js:88-161 | A leaf declaration only appends rules. Each sits at the leaf's path and carries the label it was given. It fails only after the enumeration and the bypass list were read. |
| Schema.LeafValidationOrder | lib/model/creator.js:93-160 | A successful leaf's validations come in this order: required (if set), then the enum rule over the truthy entries when the enumeration is an array, then the type's own validation unless `bypass` names `validation`, then the resolving user validations in declared order. |
| Schema.LeafFilterOrder | lib/model/creator.js:126-160 | A successful leaf's filters come in this order: the type's own filter unless `bypass` names `filter`, then the resolving user filters in declared order. |
| Schema.LeafErrorKinds | lib/model/creator.js:101-129 | A leaf declaration can fail only with the TypeError or "Empty enumeration array!". |
| Schema.LeafNullEnum | lib/model/creator.js:101-103 | A `null` enum throws a TypeError. |
| Schema.LeafEmptyEnum | lib/model/creator.js:108-115 | An enumeration array without a truthy entry throws "Empty enumeration array!". |
| Schema.LeafBadBypass | lib/model/creator.js:124-129 | A truthy `bypass` that is neither an array nor a string throws a TypeError. |
| Schema.StripAll | lib/model/creator.js:184-189 | Re-homing keeps every rule's label and method and strips the `path.0` prefix from its path (for paths without regular-expression metacharacters other than `.`, see Left out). |
| Schema.StripElement | lib/model/creator.js:184-189 | A path below `path.0.` loses that prefix; `path.0` followed by anything else loses `path.0`; any other path is kept. This is what `^path\.0\.?` removes when `path` has no metacharacter other than `.`. |
| Schema.StripElementRoundTrip | lib/model/creator.js:184-189 | Prefixing `path.0` to a stripped element path gives the original path back. |
| Schema.ElementPathStrips | lib/model/creator.js:184-189 | Stripping an element path gives back the relative path. |
| Schema.Rehome | lib/model/creator.js:170-196 | The rules added for `path.0` are removed. Per kind, exactly one fanned rule at `path` takes their place when there were any, and none otherwise. |
| Schema.RehomeRecovers | lib/model/creator.js:170-196 | For paths without regular-expression metacharacters other than `.`, the fanned rule holds every removed rule, in order, with only its path shortened. |
| Schema.DefineArray | lib/model/creator.js:163-197 | A type array whose length is not 1 throws "Bad array property"; so does the string `Array`. The rules added sit at the array's own path. |
| Schema.ArrayDeclaresElement | lib/model/creator.js:176-196 | An array leaf `[elem]` declares `elem` at `path.0` and then re-homes what that added. |
| Schema.UndefinedElementRejected | lib/model/creator.js:204-213 | The missing element of the `Array` constructor is rejected with "Bad property!". |
| Schema.Property | lib/model/creator.js:199-240 | A non-string path throws "Invalid property path!"; a string path is declared. |
| Schema.Define | lib/model/creator.js:204-237 | A non-object declaration that names no type throws "Bad property!", and `null` throws a TypeError. A declaration naming a type is the leaf `{type: spec}`. An object whose `type` names a type is a leaf of that type, and any other object is declared field by field. A success only appends rules, all at or below the path. |
| Schema.Nested | lib/model/creator.js:78-86 | A nested declaration only appends rules, all below its path. |
| Schema.NestedIsSchema | lib/model/creator.js:78-86 | A nested declaration is `schema` over its own fields, each named by its path below the declaration's path. |
| Schema.Leaf | lib/model/creator.js:215-237 | A typed leaf uses its truthy `humanized` as the label, or otherwise the label derived from the path. A non-array leaf is `defineSimpleProperty` with that label; an array leaf is followed by `defineArrayProperty`. Every rule added sits exactly at the path and carries that label. |
| Schema.DefineAll | lib/model/creator.js:242-248 | `schema` only appends rules, each at or below the name of one of the fields. |
| Schema.DefineAllConcat | lib/model/creator.js:242-248 | Declaring two field lists one after the other is declaring their concatenation; a failure in the first stops before the second. |
| Schema.DeclareSchema | lib/model/creator.js:242-248 | `schema` over an object's own fields declares them in order. It only appends rules, each at or below one of the field names. |
| Mapping.AbsorbFns | lib/model/creator.js:286-293 | As written, folding a nested table in replaces the parent's `_`. Merged, every function of both survives. |
| Mapping.CompileMapping | lib/model/creator.js:258-298 | The forward table as written has the same name entries as the corrected compilation, and none of them is `_`. |
| Mapping.CompileInverse | lib/model/creator.js:300-315 | Every inverse entry maps a stored name back to a key that the forward table maps to it. Every stored name other than `_` has an entry. Without a stored name `_`, the `_` member is the root `_$` functions. |
| Mapping.TargetName | lib/model/creator.js:339-355 | Throws a TypeError exactly when a dot-free, non-`$` key is `_` at the top level and the table's `_` member is a truthy non-string. |
| Mapping.Transform | lib/model/creator.js:327-376 | The result is a plain object, or the TypeError of a non-string entry. A document without own keys gives `{}`. |
| Mapping.SystemKeyKept | lib/model/creator.js:339-355 | A key starting with `$` keeps its name. |
| Mapping.UnmappedKeyKept | lib/model/creator.js:339-355 | A key without `.` and without a mapping entry keeps its own name. |
| Mapping.MappedKeyRenamed | lib/model/creator.js:346-355 | A mapped key without `.` is emitted as the last segment of its stored name. |
| Mapping.NestedStep | lib/model/creator.js:357-373 | A plain-object value is transformed under the prefix of its original key, and written under the key's new name. |
| Mapping.NestedTable | lib/model/creator.js:258-298 | `{key: {$: self, member: stored}}` compiles to `key → self` and `key.member → self.stored`. |
| Mapping.NestedNaming | lib/model/creator.js:339-364 | Nested members are looked up under the original key's path, not under the node's new name. |
| Mapping.DollarLeafIgnored | lib/model/creator.js:275-282 | A `$` key holding a string adds no entry: its branch is unreachable. |
| Mapping.NamesAvoidUnderscore | lib/model/creator.js:262-298 | A forward table never has a name entry `_`, so its `_` member is exactly its function table. |
| Mapping.CompileFlat | lib/model/creator.js:258-298 | A flat mapping compiles to its own leaves, in order, with an empty `_`, as written and corrected alike. |
| Mapping.InverseFlat | lib/model/creator.js:300-315 | The inverse of a flat mapping is the forward table with keys and names exchanged. |
| Mapping.InverseLooksBack | lib/model/creator.js:300-315 | For a flat mapping with distinct stored names, `inverse[forward[k]] == k`, and `forward[k]` is the stored name. |
| Mapping.InverseInverts | lib/model/creator.js:300-315 | For any mapping whose stored names are distinct, the inverse table maps every stored name other than `_` back to the key it was stored under. |
| Mapping.TransformFlat | lib/model/creator.js:327-376 | With an empty `_`, transforming a flat document renames each key and keeps the values and the order. |
| Mapping.NameRoundTrip | lib/model/creator.js:339-355 | Renaming a restorable key forward and then back gives the key. |
| Mapping.RoundTrip | lib/model/creator.js:300-376 | For a flat mapping and a flat document with restorable keys, `inverseTransform(transform(doc))` is the document, with the forward table `Models.Map` stores. |
| Mapping.MergedSameNames | lib/model/creator.js:258-298 | Keeping every node's `_` does not change the name entries. |
| Mapping.MergedKeepsRootFns | lib/model/creator.js:262 | The corrected compilation keeps every root transform function. |
| Mapping.RootFnsLost | lib/model/creator.js:262-293 | As written, one nested object node loses the root `_` functions. |
| Mapping.RootFnsKept | lib/model/creator.js:262-293 | Corrected, the same mapping keeps the root function. |
| Models.NewModel | lib/model/creator.js:21-45 | A new model already holds every `BaseModel` static and prototype member and the inherited ones. Its rule lists are empty and it has no mapping. |
| Models.StaticMethod | lib/model/creator.js:574-580 | Fails with the conflict message exactly when the name is taken. Otherwise it adds the function and changes nothing else. |
| Models.Method | lib/model/creator.js:582-590 | Fails with the conflict message exactly when the prototype name is taken. Otherwise it adds the function and changes nothing else. |
| Models.Instantiate | lib/model/creator.js:592-600 | The prototype member forwards to the static of its name; there is no conflict check. |
| Models.Relate | lib/model/creator.js:418-460 | An accessor is a static plus a forwarding prototype member. It fails exactly when the static name is taken. |
| Models.Map | lib/model/creator.js:258-325 | An absent or `null` mapping throws the TypeError. Otherwise `map` sets the inverse table and a forward table with the compiled name entries. The forward table keeps every root `_` function: this is the corrected compilation, see Findings and Left out. |
| Models.Create | lib/model/creator.js:689-720 | Attaches the four statics and two forwarding methods unless `normalize` exists, in which case nothing changes. Other members are untouched. |
| Models.NormalizeDoc | lib/model/creator.js:693-695 | Root filters never replace the document, and filters on paths it does not have change nothing. |
| Models.ValidateDoc | lib/model/creator.js:697-700 | Every reported error is truthy, and a model without validations reports none. |
| Models.RunStatic | lib/model/creator.js:693-708 | The library's own code throws only in `transform` and `inverseTransform`, and only the TypeError; they give a plain object. `validate` always gives an array of truthy errors. User callbacks are total here (see Left out). |
| Models.RunMethod | lib/model/creator.js:592-600 | A prototype member runs exactly when it forwards to a static the model interprets. |
| Models.StaticDeclaredOnce | lib/model/creator.js:574-580 | Declaring a static name twice fails the second time. |
| Models.MethodDeclaredOnce | lib/model/creator.js:582-590 | Declaring a method name twice fails the second time. |
| Models.StaticsCommute | lib/model/creator.js:574-580 | Declarations of two different static names give the same model in either order. |
| Models.BaseNamesTaken | lib/model/creator.js:27-35 | `BaseModel` statics, prototype members and `constructor` cannot be redeclared. |
| Models.RelateTwiceFails | lib/model/creator.js:574-580 | The same accessor cannot be declared twice. |
| Models.CreateIdempotent | lib/model/creator.js:689-720 | `create` is idempotent. |
| Models.CreatedNamesTaken | lib/model/creator.js:689-720 | After `create`, its static names cannot be declared. |
| Models.InstantiateForwards | lib/model/creator.js:592-600 | An instantiated member called on a document is the static called with that document. |
| Models.CreatedMethodsForward | lib/model/creator.js:710-716 | `doc.normalize()` and `doc.validate()` are `Model.normalize(doc)` and `Model.validate(doc)`. |
| Models.ValidateNormalized | lib/model/creator.js:697-700 | When filters are idempotent, non-root and part ways, validating an already normalized document reports the same errors. |
| Population.PluckIds | lib/model/creator.js:390-400 | Plucks the field (default `_id`) of every document or of the single one. It throws exactly when a document is `null` or `undefined`. |
| Population.IdCondition | lib/model/creator.js:402-406 | The condition has the one key `field`. For an array it selects exactly the documents whose field is listed; otherwise those whose field equals the ids. |
| Population.ConditionSelectsReferenced | lib/model/creator.js:390-406 | An accessor's condition selects exactly the targets whose condition field equals a plucked id. |
| Population.LastTarget | lib/model/creator.js:446-450 | Finds the last truthy target with the given `_id` text, and nothing exactly when there is none. |
| Population.IdPairs | lib/model/creator.js:446-450 | Hashing the targets throws exactly when a truthy target has no `_id`. |
| Population.KeyedLatest | lib/model/creator.js:446-450 | The hash keeps, per `_id` text, the last truthy target holding it. |
| Population.LinkEach | lib/model/creator.js:452-457 | Every holder gets its linked target in `field`, other fields kept. It fails exactly when a holder is not a plain object (see Left out for non-plain objects). |
| Population.BelongsToJoin | lib/model/creator.js:436-460 | A single holder gets the result as it is. An array keeps its length. |
| Population.BelongsToLinks | lib/model/creator.js:443-457 | Each holder of an array gets the last target whose `_id` matches its id, or `null`, and never `undefined`. |
| Population.BelongsToFails | lib/model/creator.js:443-457 | The join fails exactly when a holder is not a plain object or a truthy target has no `_id`. |
| Population.ResetEach | lib/model/creator.js:507-510 | Every holder's field is first set to `[]` (many) or `null` (one). |
| Population.HolderKeys | lib/model/creator.js:507-510 | Hashing the holders throws exactly when one has no `_id`. |
| Population.OwnerLookup | lib/model/creator.js:505-510 | The holder hash maps a key to the last holder with that key, and has no entry for an unused key. |
| Population.AttachAll | lib/model/creator.js:513-525 | The target loop fails exactly when a target is `null` or `undefined`, and keeps the number of holders. |
| Population.AttachAllJoins | lib/model/creator.js:513-525 | The target loop leaves every holder as the bucketing by inverse field describes. |
| Population.JoinHoldersFails | lib/model/creator.js:497-531 | The `has` join fails exactly when a holder is not an object, a reset holder has no `_id`, or a target is nullish. |
| Population.JoinHoldersResult | lib/model/creator.js:497-531 | Every holder keeps its other fields. Its field holds the targets naming it, in order (many), or the last of them or `null` (one). |
| Population.HasJoin | lib/model/creator.js:497-531 | A single holder is joined as the one-element list `[docs]` and the one joined holder is returned. An array of holders is joined as it is and keeps its length. It fails exactly when that join fails. |
| Population.UnmatchedHolderReset | lib/model/creator.js:507-510 | A holder no target names, or one shadowed by a later holder with the same id, ends with `[]` or `null`. |
| Population.HasOneLastWins | lib/model/creator.js:513-523 | For `hasOne`, the last target naming a holder wins. |
| Population.HasManyCollects | lib/model/creator.js:513-523 | For `hasMany`, a holder collects exactly the targets naming it, in target order. |
| Population.AccessorField | lib/model/creator.js:411-412 | A truthy `field` option must be a string and is used as it is; otherwise the field is derived from the target's name. |
| Population.DeclareBelongsTo | lib/model/creator.js:408-461 | On success, the accessor `populate<Field>` is a new static holding the join, with a forwarding method. The id property's rules only append, at or below `field`. |
| Population.InverseField | lib/model/creator.js:467 | A truthy `inverse` option is used as text; otherwise it is derived from the model's name. |
| Population.DeclareHas | lib/model/creator.js:464-544 | On success, exactly the accessor static and its forwarding method are added. An empty model name without `inverse` throws "Bad model name!". |
| Population.DeclaredFieldPopulates | lib/model/creator.js:464-544 | Once a relation is declared, populating its field calls its accessor with the requested options. |
| Population.Combined | lib/model/creator.js:432-434 | Every key of the call's options, and no key in neither option set, ends in the combined options. |
| Population.AccessorQuery | lib/model/creator.js:418-434 | The accessor query is single exactly when it cannot match several documents. |
| Population.BelongsToQuery | lib/model/creator.js:418-434 | A `belongsTo` accessor query is multi exactly for an array of holders. It requires the ids to pluck. |
| Population.HasQuery | lib/model/creator.js:478-494 | A `has` accessor query is multi exactly for `hasMany` or an array of holders. |
| Population.AccessorCap | lib/model/creator.js:425-430 | Without options, a multi accessor query lifts the cap to `+Infinity` and a single one has no limit. |
| Queries.New | lib/query.js:16-29 | A new multi query has `limit: 20` and nothing else. A single query has no options. Criteria default to `{}`. |
| Queries.Inclusion | lib/query.js:42-46 | The inclusion map has exactly the named fields, each set to `true`. |
| Queries.Select | lib/query.js:33-49 | Accepts exactly a string or an array and replaces only the inclusion map; anything else throws "Bad fields to select!". |
| Queries.SelectWords | lib/query.js:33-46 | A string selection includes exactly its space-separated words. |
| Queries.SortPairs | lib/query.js:61-77 | Sorting pairs keep key order. They throw "Bad sorting direction!" exactly when a normalized direction is not `asc` or `desc`. |
| Queries.Sort | lib/query.js:51-82 | A string is stored as it is. A non-object throws. An object becomes the list of `[key, direction]` pairs. Other options are untouched. |
| Queries.DirectionAccepted | lib/query.js:9-14 | Accepted directions are `asc`, `desc`, and values whose text is `1` or `+` (ascending) or `-1` or `-` (descending). |
| Queries.SortExample | lib/query.js:51-82 | `sort({a: 1, b: '-'})` stores `[['a','asc'],['b','desc']]`. |
| Queries.Limit | lib/query.js:84-96 | Throws in single mode or on a non-number; otherwise stores the value and leaves the other options alone. |
| Queries.Skip | lib/query.js:98-106 | Throws on a non-number; otherwise stores the value. |
| Queries.Lean | lib/query.js:133-135 | Only marks the query raw. |
| Queries.GivenOptions | lib/query.js:119-123 | Every per-field option of an object ends truthy: a falsy one becomes `{}`, a truthy one is kept. |
| Queries.Populate | lib/query.js:108-131 | Accepts exactly a string or an object (arrays included), adding the requested entries; anything else throws. |
| Queries.PopulatedOptionsTruthy | lib/query.js:108-131 | Every populated field holds truthy options. |
| Queries.ApplyEach | lib/query.js:193-199 | Keys that name no invocable method change nothing. |
| Queries.ApplyEachOne | lib/query.js:193-199 | A single option key runs its method with its value, or changes nothing when it names no invocable method. |
| Queries.ApplyEachConcat | lib/query.js:193-199 | Option keys run in order: a concatenated key list runs the first part, then the second on its result, and a throw in the first part stops the loop. With `ApplyEachOne` this covers every mix of method and other keys. |
| Queries.Apply | lib/query.js:185-202 | Options without method keys only merge a truthy `find` into the criteria. |
| Queries.ApplyInvokes | lib/query.js:193-199 | An option naming a method runs that method with its value. |
| Queries.ApplySequential | lib/query.js:185-202 | `apply` of two method options runs the first and then the second on its result, stopping at the first throw. Longer and mixed lists are `Queries.ApplyEachConcat`. |
| Queries.InvokeKeepsUncapped | lib/query.js:84-135 | No configuration method gives a single query a limit. |
| Queries.ApplyKeepsUncapped | lib/query.js:185-202 | `apply` cannot give a single query a limit. |
| Queries.Arguments | lib/query.js:137-151 | The arguments are the criteria, then the inclusion map if `select` ran, then the options unless empty. |
| Queries.ExecCall | lib/query.js:153-160 | `findOne` in single mode, `find` otherwise, with those arguments. |
| Queries.NewArguments | lib/query.js:16-29 | A new multi query passes the criteria and `{limit: 20}`; a single one passes the criteria alone. |
| Queries.Stream | lib/query.js:246-255 | Fails exactly in single mode, before any collection call. |
| Queries.PopulationCalls | lib/query.js:162-183 | Succeeds exactly when every requested field has a `populate<Field>` function, calling them in order. Otherwise it fails naming the first missing field. |
| Queries.ExecPopulations | lib/query.js:204-244 | Population is skipped for a lean query, a missing single document, or a non-array multi result. |
| Queries.MissingAccessorFails | lib/query.js:162-173 | A requested field whose accessor is missing raises "Bad population: `field`!". |

## Left out

- Store round trips (`exec`, `stream` and the accessors' fetches) are left out. The collection call is described by `Queries.ExecCall`, and the joins take the fetched documents as an argument.
- Wrapping fetched documents in the model (`new self.model(doc)`) is left out; population receives the documents as they are.
- Promises are left out. `when.settle` and `when.all` are modelled as settled values in order, and a validator's promise is `Settled`.
- `inflection` is a parameter (`Naming.Inflector`), and so is the regex-and-inflection label derived from a path (`Schema.Env.humanize`).
- The filter module's exports are a parameter (`Schema.Env.namedFilter`); the filter module is not part of this model.
- `String(v)`, `Number(v)` and `isFinite` are left out beyond their shape. Numbers are integers, `NaN` or infinities, with no fractions. Numeric-string parsing is a parameter.
- `shien.merge` of `find` into the criteria is a parameter of `Queries.Apply`. `shien.assign` is a shallow copy of own entries. `shien.object.get/set` are the `Paths` definitions: writes past an array's end, or of non-index keys on arrays, are dropped.
- Inherited object members are left out. This covers `__proto__`, `constructor`, and members of `Object.prototype` a hash or option object could inherit. Integer-like keys are not reordered.
- Queries.Apply: `typeof this[method] === 'function'` is modelled as the six configuration methods. The `model` data member and inherited members are left out, and `delete opts.find` mutating the caller's object is not modelled.
- A failed declaration leaves the creator's lists partly appended in the source. The model returns only the error.
- `constant`, `get`, `set`, `index`, `plugin` and `defineIdProperty`'s effect on the prototype are outside the modelled core. `lib/model/base.js`, `lib/connection.js` and `lib/yari.js` are not part of this model.
- The regular expression `defineArrayProperty` builds (lib/model/creator.js:184-185) escapes only the first `.` of a path. The model is faithful only for array paths with no regular-expression metacharacter other than `.`. For those, `Schema.StripElement` removes what the expression matches, because a later unescaped `.` also matches a literal dot. For a path such as `a+b` or `a$b`, the expression does not match `a+b.0.x`, so the source leaves the element rules' paths unstripped. For a path such as `a(b` or `a[b`, the `RegExp` constructor throws a SyntaxError. In both cases `Schema.DefineArray` strips the literal prefix and succeeds.
- Schema.StripAll: strips the literal `path.0` prefix for every path. The source strips nothing for a path with metacharacters such as `+` or `$`, and throws for `(` or `[` (previous line).
- Schema.RehomeRecovers: "only its path shortened" holds for paths without metacharacters other than `.`. For other paths the source keeps the full paths, or throws (see the line on `defineArrayProperty` above).
- Schema.Leaf: `property()` writes the derived label into the caller's declaration object (`property.humanized`, lib/model/creator.js:222-232). A declaration object reused at a second path therefore keeps the first path's label in the source. The model derives a label from each path, because it does not share declaration objects between calls.
- In-place updates and aliasing are left out: the model's values are trees without identity. `validate` normalizes the caller's document in place before validating it (lib/model/creator.js:697-700). `Models.ValidateDoc` validates the normalized copy and leaves the argument as it was.
- Population.JoinHoldersResult: one holder object that appears twice in `docs` is a single object that both positions update in JavaScript. In the model the two positions are independent records, each joined on its own.
- Values.Assign: in JavaScript, assigning a named property on an array, an ObjectId, an `Error` or a function does not throw, even in strict mode. The model's values cannot carry named members beside their content, so such holders make the assignment fail with the TypeError. Only primitives, `null` and `undefined` really throw.
- Population.LinkEach: fails on every holder that is not a plain object (see `Values.Assign`). The source fails only on primitives, `null` and `undefined`, and updates other objects.
- Population.BelongsToFails: the failure condition "not a plain object" is wider than the source's, which is "a primitive, `null` or `undefined`" (see `Values.Assign`).
- Naming.MethodName: upper-cases ASCII letters only. JavaScript's `toUpperCase` is Unicode-aware: it maps `é` to `É`, and `ß` to `SS`, which changes the length.
- Naming.MethodNameRoundTrip: holds for ASCII upper-casing. In JavaScript, `ßa` and `sSa` both give `populateSSa`.
- Models.Map: stores the corrected forward table (`Mapping.CompileMappingMerged`), whereas the source stores `compileMapping`'s result as written. So for `map({_: {name: f}, address: {city: 'town'}})` the model's `transform` applies `f`, and the program's does not (see Findings). The as-written table is `Mapping.CompileMapping`, and the two have the same name entries (`Mapping.MergedSameNames`).
- Models.RunStatic: user callbacks (filters, validators, statics and `_` transform functions) are modelled as total functions. In the source a callback that throws makes `normalize`, `validate` or `transform` throw (lib/model/creator.js:653, 673, 370), so "only the TypeError" holds for the library's own code only.
- Queries.Lean: `lean()` returns `undefined` (lib/query.js:133-135), unlike the other setters, which return the query. So `find().lean().exec()` throws a TypeError in the source. The model's `Lean` gives the updated query and models only the state change; `apply` ignores return values, so `Queries.Apply` is unaffected.
- Mapping.RoundTrip: proved for single-level mappings without transform functions; nested mappings are covered by `Mapping.NestedTable` and `Mapping.NestedNaming` only.
- Population.DeclareBelongsTo: states where the id property's rules go, not which rules they are (a required rule when `required` is truthy; ObjectId adds no default).
- Population.Combined: does not state which value wins for a key in both option sets, only which keys are present.

## Findings

| source | as written | input that shows it | evidently intended | confidence | as-written member | corrected member |
|---|---|---|---|---|---|---|
| lib/model/creator.js:262-293 | `compileMapping` folds each nested node's table into the parent with a shallow `extend`. The nested `_` (defaulted to `{}`) then replaces the parent's `_` transform functions. | `map({_: {name: f}, address: {city: 'town'}})` yields a forward table whose `_` is `{}`, so `transform` never applies `f`. | The root `_` functions survive nested nodes. | not executed | Mapping.RootFnsLost | Mapping.MergedKeepsRootFns |

/** The field-name mapping of a model. `map(mapping)` compiles a nested
    literal into a forward table (internal path to stored name) and an
    inverse table; `transform` renames the keys of a document through one
    of them and applies the per-name functions of the table's `_` member. */
module Mapping {
  import opened Wrappers
  import opened Fields
  import opened Values
  import Text
  import Calls

  /** A compiled table: its `_` member (the per-name transform functions)
      and its name entries in insertion order. As a JavaScript object the
      table is `{_: fns, ...names}`; `NamesAvoidUnderscore` shows that a
      compiled table never has a name entry `_`. */
  datatype Table = Table(fns: Value, names: Entries<string>)

  /** The `{}` that `this.mapping || {}` falls back to. */
  const NoMapping: Table := Table(Undefined, [])

  /** `table[k]`. */
  function Entry(t: Table, k: string): Value {
    if k == "_" then t.fns
    else match Lookup(t.names, k)
      case Some(n) => Str(n)
      case None => Undefined
  }

  /** `node._ || {}`. */
  function RootFns(node: Value): Value {
    var f := Member(node, "_");
    if Truthy(f) then f else Obj([])
  }

  /** `node._$ || {}`. */
  function InverseFns(node: Value): Value {
    var f := Member(node, "_$");
    if Truthy(f) then f else Obj([])
  }

  /** `compiledPrefix + (node.$ || key)`. */
  function NodeName(cprefix: string, key: string, node: Value): string {
    var self := Member(node, "$");
    cprefix + (if Truthy(self) then ToText(self) else key)
  }

  /** The `_` member after a nested node's table is folded into its parent's.
      `extend` copies every member, so as written (`merge` false) the nested
      `_` replaces the parent's; merged, the entries of both survive. */
  function AbsorbFns(parent: Value, nested: Value, merge: bool): (r: Value)
    ensures merge ==> forall k :: HasKey(FieldsOf(parent), k) ==> HasKey(FieldsOf(r), k)
    ensures merge ==> forall k :: HasKey(FieldsOf(nested), k) ==> HasKey(FieldsOf(r), k)
    ensures !merge ==> r == nested
  {
    if merge then Obj(PutAll(FieldsOf(parent), FieldsOf(nested))) else nested
  }

  /** `compileMapping(node, prefix, compiledPrefix)`. */
  function CompileNode(node: Value, prefix: string, cprefix: string, merge: bool): (t: Table)
    decreases node, 1
  {
    if node.Obj? then CompileFrom(node, prefix, cprefix, merge, Table(RootFns(node), []), 0)
    else Table(Obj([]), [])
  }

  /** The loop of `compileMapping` from the `i`-th own key of `node` on. The
      keys `_` and `_$` were deleted before the loop; a `$` key whose value
      is a string matches neither branch and adds nothing. */
  function CompileFrom(node: Value, prefix: string, cprefix: string, merge: bool, acc: Table, i: nat): (t: Table)
    requires node.Obj? && i <= |node.fields|
    decreases node, 0, |node.fields| - i
  {
    if i == |node.fields| then acc
    else
      var key := node.fields[i].0;
      var value := node.fields[i].1;
      var full := prefix + key;
      var next :=
        if key == "_" || key == "_$" then acc
        else if value.Str? && key != "$" then acc.(names := Put(acc.names, full, cprefix + value.s))
        else if IsPlainObject(value) then
          var name := NodeName(cprefix, key, value);
          var nested := CompileNode(value, full + ".", name + ".", merge);
          Table(AbsorbFns(acc.fns, nested.fns, merge), PutAll(Put(acc.names, full, name), nested.names))
        else acc;
      CompileFrom(node, prefix, cprefix, merge, next, i + 1)
  }

  /** `model.mapping`: the forward table, as written. Its name entries are
      those of the corrected compilation, and none of them is `_`. */
  function CompileMapping(spec: Value): (t: Table)
    ensures t.names == CompileMappingMerged(spec).names
    ensures !HasKey(t.names, "_")
  {
    NodeNamesUnder(Obj(OwnEntries(spec)), "", "", false);
    SameNodeNames(Obj(OwnEntries(spec)), "", "");
    CompileNode(Obj(OwnEntries(spec)), "", "", false)
  }

  /** The forward table with every node's `_` functions kept. */
  function CompileMappingMerged(spec: Value): Table {
    CompileNode(Obj(OwnEntries(spec)), "", "", true)
  }

  /** `ret[compiled[key]] = key` for every name entry, in order. A stored
      name `_` lands on the `_` member. */
  function Swap(acc: Table, names: Entries<string>): Table
    decreases |names|
  {
    if |names| == 0 then acc
    else
      var k := names[0].0;
      var target := names[0].1;
      Swap(if target == "_" then acc.(fns := Str(k)) else acc.(names := Put(acc.names, target, k)), names[1..])
  }

  /** `model.inverseMapping`: the root `_$` functions and every forward
      entry reversed. */
  function CompileInverse(spec: Value): (t: Table)
    ensures forall k :: Lookup(t.names, k).Some? ==> (Lookup(t.names, k).value, k) in CompileMapping(spec).names
    ensures forall j :: 0 <= j < |CompileMapping(spec).names| && CompileMapping(spec).names[j].1 != "_" ==>
      HasKey(t.names, CompileMapping(spec).names[j].1)
    ensures (forall j :: 0 <= j < |CompileMapping(spec).names| ==> CompileMapping(spec).names[j].1 != "_") ==>
      t.fns == InverseFns(Obj(OwnEntries(spec)))
  {
    var fwd := CompileMapping(spec).names;
    var start := Table(InverseFns(Obj(OwnEntries(spec))), []);
    SwapLooksBack(start, fwd, fwd);
    SwapCovers(start, fwd);
    SwapFns(start, fwd);
    Swap(start, fwd)
  }

  /** Every entry `Swap` writes maps a stored name back to a key it came
      from. */
  lemma {:induction false} SwapLooksBack(acc: Table, names: Entries<string>, fwd: Entries<string>)
    requires forall j :: 0 <= j < |names| ==> names[j] in fwd
    requires forall k :: Lookup(acc.names, k).Some? ==> (Lookup(acc.names, k).value, k) in fwd
    ensures forall k :: Lookup(Swap(acc, names).names, k).Some? ==> (Lookup(Swap(acc, names).names, k).value, k) in fwd
    decreases |names|
  {
    if |names| > 0 {
      var k := names[0].0;
      var target := names[0].1;
      var next := if target == "_" then acc.(fns := Str(k)) else acc.(names := Put(acc.names, target, k));
      assert names[0] in fwd;
      forall j | 0 <= j < |names[1..]| ensures names[1..][j] in fwd {
        assert names[1..][j] == names[j + 1];
      }
      SwapLooksBack(next, names[1..], fwd);
    }
  }

  /** `Swap` keeps the entries it had and writes every stored name other
      than `_`. */
  lemma {:induction false} SwapCovers(acc: Table, names: Entries<string>)
    ensures forall k :: HasKey(acc.names, k) ==> HasKey(Swap(acc, names).names, k)
    ensures forall j :: 0 <= j < |names| && names[j].1 != "_" ==> HasKey(Swap(acc, names).names, names[j].1)
    decreases |names|
  {
    if |names| > 0 {
      var k := names[0].0;
      var target := names[0].1;
      var next := if target == "_" then acc.(fns := Str(k)) else acc.(names := Put(acc.names, target, k));
      SwapCovers(next, names[1..]);
      forall k' | HasKey(acc.names, k') ensures HasKey(next.names, k') {
        PutHasKey(acc.names, target, k, k');
      }
      if target != "_" {
        PutHasKey(acc.names, target, k, target);
      }
      forall j | 1 <= j < |names| && names[j].1 != "_" ensures HasKey(Swap(acc, names).names, names[j].1) {
        assert names[j] == names[1..][j - 1];
      }
    }
  }

  /** Without a stored name `_`, `Swap` leaves the `_` member alone. */
  lemma {:induction false} SwapFns(acc: Table, names: Entries<string>)
    ensures (forall j :: 0 <= j < |names| ==> names[j].1 != "_") ==> Swap(acc, names).fns == acc.fns
    decreases |names|
  {
    if |names| > 0 && forall j :: 0 <= j < |names| ==> names[j].1 != "_" {
      assert names[0].1 != "_";
      forall j | 0 <= j < |names[1..]| ensures names[1..][j].1 != "_" {
        assert names[1..][j] == names[j + 1];
      }
      SwapFns(acc.(names := Put(acc.names, names[0].1, names[0].0)), names[1..]);
    }
  }

  /** The name `transform` gives the key `key` met under `prefix`: a key
      starting with `$` keeps its name, any other key is looked up by its
      full path; a key without `.` keeps only the last segment of the
      result, which throws a TypeError when the entry is not a string. */
  function TargetName(t: Table, prefix: string, key: string): (r: Result<string>)
    ensures r.Fail? <==> '.' !in key && !Text.StartsWith(key, "$") && prefix + key == "_"
                         && Truthy(t.fns) && !t.fns.Str?
    ensures r.Fail? ==> r.error == TypeErrorMessage
  {
    var full :=
      if Text.StartsWith(key, "$") then Str(key)
      else if Truthy(Entry(t, prefix + key)) then Entry(t, prefix + key)
      else Str(prefix + key);
    if '.' in key then Ok(ToText(full))
    else if full.Str? then Ok(Text.LastPart(full.s, '.'))
    else Fail(TypeErrorMessage)
  }

  /** The prefix the members of `key`'s value are looked up under: the
      original key, not the name it was given. */
  function InnerPrefix(prefix: string, key: string): string {
    if Text.StartsWith(key, "$") then prefix else prefix + key + "."
  }

  /** `mapping._ && mapping._[name]`. */
  function FnOf(t: Table, name: string): Value {
    if Truthy(t.fns) then Member(t.fns, name) else t.fns
  }

  /** The loop of `transform(obj, mapping, prefix)` from the `i`-th own
      key on, with `acc` the entries written so far. Plain objects other
      than ObjectIds are transformed recursively; a promise has no own
      keys and becomes `{}`. */
  function TransformFrom(rt: Calls.Runtime, t: Table, obj: Value, prefix: string, i: nat, acc: Entries<Value>): (r: Result<Value>)
    requires obj.Obj? && i <= |obj.fields|
    ensures r.Ok? ==> r.value.Obj?
    ensures r.Fail? ==> r.error == TypeErrorMessage
    decreases obj, |obj.fields| - i
  {
    if i == |obj.fields| then Ok(Obj(acc))
    else
      var key := obj.fields[i].0;
      var value := obj.fields[i].1;
      var name :- TargetName(t, prefix, key);
      var inner :-
        if value.Obj? then TransformFrom(rt, t, value, InnerPrefix(prefix, key), 0, [])
        else if value.Settled? then Ok(Obj([]))
        else Ok(value);
      var fn := FnOf(t, name);
      var out := if fn.Fn? then Calls.Call(rt, fn.f, inner) else inner;
      TransformFrom(rt, t, obj, prefix, i + 1, Put(acc, name, out))
  }

  /** `transform(doc, mapping)`: a plain object, or the TypeError of an
      entry that is not a string; a document without own keys gives `{}`. */
  function Transform(rt: Calls.Runtime, t: Table, doc: Value): (r: Result<Value>)
    ensures r.Ok? ==> r.value.Obj?
    ensures r.Fail? ==> r.error == TypeErrorMessage
    ensures OwnEntries(doc) == [] ==> r == Ok(Obj([]))
  {
    TransformFrom(rt, t, Obj(OwnEntries(doc)), "", 0, [])
  }

  // ---------------------------------------------------------------------
  // Naming of single keys

  /** A key starting with `$` keeps its name, whatever the table says. */
  lemma SystemKeyKept(t: Table, prefix: string, key: string)
    requires Text.StartsWith(key, "$")
    ensures TargetName(t, prefix, key) == Ok(key)
  {
    if '.' !in key {
      Text.LastPartWhole(key, '.');
    }
  }

  /** A prefix as `transform` builds it: empty or ending in `.`. */
  predicate PathPrefix(prefix: string) {
    prefix == "" || prefix[|prefix| - 1] == '.'
  }

  /** A key without `.` and without a (truthy) entry keeps its own name. */
  lemma UnmappedKeyKept(t: Table, prefix: string, key: string)
    requires PathPrefix(prefix) && '.' !in key
    requires !Truthy(Entry(t, prefix + key))
    ensures TargetName(t, prefix, key) == Ok(key)
  {
    if Text.StartsWith(key, "$") {
      SystemKeyKept(t, prefix, key);
    } else if prefix == "" {
      assert prefix + key == key;
      Text.LastPartWhole(key, '.');
    } else {
      var p := prefix[..|prefix| - 1];
      assert prefix + key == p + ['.'] + key;
      Text.LastPartAfter(p, key, '.');
    }
  }

  /** A key without `.` that has a stored name is emitted under the last
      segment of that name. */
  lemma MappedKeyRenamed(t: Table, prefix: string, key: string, n: string)
    requires !Text.StartsWith(key, "$") && '.' !in key && prefix + key != "_"
    requires Lookup(t.names, prefix + key) == Some(n) && n != ""
    ensures TargetName(t, prefix, key) == Ok(Text.LastPart(n, '.'))
  {
  }

  // ---------------------------------------------------------------------
  // The compiled tables

  /** Every name key is a path under `prefix`, and none is `_`. */
  ghost predicate KeysUnder(names: Entries<string>, prefix: string) {
    forall k :: HasKey(names, k) ==> Text.StartsWith(k, prefix) && k != "_"
  }

  lemma PutUnder(names: Entries<string>, prefix: string, full: string, n: string)
    requires KeysUnder(names, prefix) && Text.StartsWith(full, prefix) && full != "_"
    ensures KeysUnder(Put(names, full, n), prefix)
  {
    forall k | HasKey(Put(names, full, n), k) ensures Text.StartsWith(k, prefix) && k != "_" {
      PutHasKey(names, full, n, k);
    }
  }

  lemma PutAllUnder(target: Entries<string>, source: Entries<string>, prefix: string)
    requires KeysUnder(target, prefix) && KeysUnder(source, prefix)
    ensures KeysUnder(PutAll(target, source), prefix)
  {
    var r := PutAll(target, source);
    forall k | HasKey(r, k) ensures Text.StartsWith(k, prefix) && k != "_" {
      if !HasKey(source, k) {
        assert Lookup(r, k) == Lookup(target, k);
      }
    }
  }

  /** The path of a key met under `prefix`, and the prefix of its members. */
  lemma ChildPath(prefix: string, key: string)
    requires PathPrefix(prefix) && key != "_"
    ensures Text.StartsWith(prefix + key, prefix) && prefix + key != "_"
    ensures PathPrefix(prefix + key + ".")
    ensures forall k :: Text.StartsWith(k, prefix + key + ".") ==> Text.StartsWith(k, prefix)
  {
    var full := prefix + key;
    assert full[..|prefix|] == prefix;
    if prefix != "" {
      assert full[|prefix| - 1] == '.';
    }
    forall k | Text.StartsWith(k, full + ".") ensures Text.StartsWith(k, prefix) {
      assert k[..|prefix|] == (full + ".")[..|prefix|];
    }
  }

  /** Every name entry a compilation adds is a path under `prefix`, so none
      is `_` once the prefix is empty or ends in `.`. */
  lemma {:induction false} NamesUnder(node: Value, prefix: string, cprefix: string, merge: bool, acc: Table, i: nat)
    requires node.Obj? && i <= |node.fields|
    requires KeysUnder(acc.names, prefix) && PathPrefix(prefix)
    ensures KeysUnder(CompileFrom(node, prefix, cprefix, merge, acc, i).names, prefix)
    decreases node, 0, |node.fields| - i
  {
    if i < |node.fields| {
      var key := node.fields[i].0;
      var value := node.fields[i].1;
      var full := prefix + key;
      if key == "_" || key == "_$" {
        NamesUnder(node, prefix, cprefix, merge, acc, i + 1);
      } else if value.Str? && key != "$" {
        ChildPath(prefix, key);
        PutUnder(acc.names, prefix, full, cprefix + value.s);
        NamesUnder(node, prefix, cprefix, merge, acc.(names := Put(acc.names, full, cprefix + value.s)), i + 1);
      } else if IsPlainObject(value) {
        var name := NodeName(cprefix, key, value);
        var nested := CompileNode(value, full + ".", name + ".", merge);
        ChildPath(prefix, key);
        NodeNamesUnder(value, full + ".", name + ".", merge);
        PutUnder(acc.names, prefix, full, name);
        PutAllUnder(Put(acc.names, full, name), nested.names, prefix);
        NamesUnder(node, prefix, cprefix, merge,
          Table(AbsorbFns(acc.fns, nested.fns, merge), PutAll(Put(acc.names, full, name), nested.names)), i + 1);
      } else {
        NamesUnder(node, prefix, cprefix, merge, acc, i + 1);
      }
    }
  }

  lemma {:induction false} NodeNamesUnder(node: Value, prefix: string, cprefix: string, merge: bool)
    requires PathPrefix(prefix)
    ensures KeysUnder(CompileNode(node, prefix, cprefix, merge).names, prefix)
    decreases node, 1
  {
    if node.Obj? {
      NamesUnder(node, prefix, cprefix, merge, Table(RootFns(node), []), 0);
    }
  }

  /** A compiled forward table never has a name entry `_`, so its `_`
      member is exactly its functions table. */
  lemma NamesAvoidUnderscore(spec: Value)
    ensures !HasKey(CompileMapping(spec).names, "_")
  {
    NodeNamesUnder(Obj(OwnEntries(spec)), "", "", false);
  }

  /** How `_` is folded does not change the name entries: both forms of
      the compilation produce the same names. */
  lemma {:induction false} SameNamesFrom(node: Value, prefix: string, cprefix: string, a: Table, b: Table, i: nat)
    requires node.Obj? && i <= |node.fields| && a.names == b.names
    ensures CompileFrom(node, prefix, cprefix, false, a, i).names == CompileFrom(node, prefix, cprefix, true, b, i).names
    decreases node, 0, |node.fields| - i
  {
    if i < |node.fields| {
      var key := node.fields[i].0;
      var value := node.fields[i].1;
      var full := prefix + key;
      if key == "_" || key == "_$" {
        SameNamesFrom(node, prefix, cprefix, a, b, i + 1);
      } else if value.Str? && key != "$" {
        SameNamesFrom(node, prefix, cprefix,
          a.(names := Put(a.names, full, cprefix + value.s)),
          b.(names := Put(b.names, full, cprefix + value.s)), i + 1);
      } else if IsPlainObject(value) {
        var name := NodeName(cprefix, key, value);
        SameNodeNames(value, full + ".", name + ".");
        var na := CompileNode(value, full + ".", name + ".", false);
        var nb := CompileNode(value, full + ".", name + ".", true);
        SameNamesFrom(node, prefix, cprefix,
          Table(AbsorbFns(a.fns, na.fns, false), PutAll(Put(a.names, full, name), na.names)),
          Table(AbsorbFns(b.fns, nb.fns, true), PutAll(Put(b.names, full, name), nb.names)), i + 1);
      } else {
        SameNamesFrom(node, prefix, cprefix, a, b, i + 1);
      }
    }
  }

  lemma {:induction false} SameNodeNames(node: Value, prefix: string, cprefix: string)
    ensures CompileNode(node, prefix, cprefix, false).names == CompileNode(node, prefix, cprefix, true).names
    decreases node, 1
  {
    if node.Obj? {
      SameNamesFrom(node, prefix, cprefix, Table(RootFns(node), []), Table(RootFns(node), []), 0);
    }
  }

  /** The merged compilation differs from the written one only in `_`. */
  lemma MergedSameNames(spec: Value)
    ensures CompileMapping(spec).names == CompileMappingMerged(spec).names
  {
    SameNodeNames(Obj(OwnEntries(spec)), "", "");
  }

  /** Merged, every function named in the `_` table reached so far stays
      named, whatever nested nodes follow. */
  lemma {:induction false} MergedKeepsFnsFrom(node: Value, prefix: string, cprefix: string, acc: Table, i: nat, k: string)
    requires node.Obj? && i <= |node.fields|
    requires HasKey(FieldsOf(acc.fns), k)
    ensures HasKey(FieldsOf(CompileFrom(node, prefix, cprefix, true, acc, i).fns), k)
    decreases |node.fields| - i
  {
    if i < |node.fields| {
      var key := node.fields[i].0;
      var value := node.fields[i].1;
      var full := prefix + key;
      if key == "_" || key == "_$" {
        MergedKeepsFnsFrom(node, prefix, cprefix, acc, i + 1, k);
      } else if value.Str? && key != "$" {
        MergedKeepsFnsFrom(node, prefix, cprefix, acc.(names := Put(acc.names, full, cprefix + value.s)), i + 1, k);
      } else if IsPlainObject(value) {
        var name := NodeName(cprefix, key, value);
        var nested := CompileNode(value, full + ".", name + ".", true);
        MergedKeepsFnsFrom(node, prefix, cprefix,
          Table(AbsorbFns(acc.fns, nested.fns, true), PutAll(Put(acc.names, full, name), nested.names)), i + 1, k);
      } else {
        MergedKeepsFnsFrom(node, prefix, cprefix, acc, i + 1, k);
      }
    }
  }

  /** The merged table keeps every function of the root `_` table. */
  lemma MergedKeepsRootFns(spec: Value, k: string)
    requires spec.Obj? && HasKey(FieldsOf(RootFns(spec)), k)
    ensures HasKey(FieldsOf(CompileMappingMerged(spec).fns), k)
  {
    MergedKeepsFnsFrom(spec, "", "", Table(RootFns(spec), []), 0, k) by {
      assert Obj(OwnEntries(spec)) == spec;
    }
  }

  /** The nested node of the example below compiles to one entry and an
      empty `_`. */
  lemma AddressNode(merge: bool)
    ensures CompileNode(Obj([("city", Str("town"))]), "address.", "address.", merge)
         == Table(Obj([]), [("address.city", "address.town")])
  {
    var inner := Obj([("city", Str("town"))]);
    var ni := Table(Obj([]), [("address.city", "address.town")]);
    assert RootFns(inner) == Obj([]);
    assert "address." + "city" == "address.city" && "address." + "town" == "address.town";
    assert CompileFrom(inner, "address.", "address.", merge, ni, 1) == ni;
    assert CompileFrom(inner, "address.", "address.", merge, Table(Obj([]), []), 0) == ni;
  }

  /** As written, one nested object node is enough to lose the root `_`
      table: `{_: {name: f}, address: {city: 'town'}}` compiles to a table
      whose `_` is the nested node's empty default. */
  lemma RootFnsLost(f: Callable)
    ensures var spec := Obj([("_", Obj([("name", Fn(f))])), ("address", Obj([("city", Str("town"))]))]);
      RootFns(spec) == Obj([("name", Fn(f))])
      && CompileMapping(spec).fns == Obj([])
  {
    var spec := Obj([("_", Obj([("name", Fn(f))])), ("address", Obj([("city", Str("town"))]))]);
    assert OwnEntries(spec) == spec.fields;
    RootFnsOfSpec(f);
    AddressStep(f);
    var t2 := Table(Obj([]), PutAll(Put([], "address", "address"), [("address.city", "address.town")]));
    assert CompileFrom(spec, "", "", false, Table(RootFns(spec), []), 0) == t2;
  }

  lemma RootFnsOfSpec(f: Callable)
    ensures RootFns(Obj([("_", Obj([("name", Fn(f))])), ("address", Obj([("city", Str("town"))]))]))
         == Obj([("name", Fn(f))])
  {
  }

  /** The `address` step of that compilation replaces the root table by
      the nested node's. */
  lemma AddressStep(f: Callable)
    ensures var spec := Obj([("_", Obj([("name", Fn(f))])), ("address", Obj([("city", Str("town"))]))]);
      CompileFrom(spec, "", "", false, Table(Obj([("name", Fn(f))]), []), 1)
        == Table(Obj([]), PutAll(Put([], "address", "address"), [("address.city", "address.town")]))
  {
    var spec := Obj([("_", Obj([("name", Fn(f))])), ("address", Obj([("city", Str("town"))]))]);
    var inner := Obj([("city", Str("town"))]);
    AddressNode(false);
    var t2 := Table(Obj([]), PutAll(Put([], "address", "address"), [("address.city", "address.town")]));
    AddressName();
    assert "" + "address" == "address" && "address" + "." == "address.";
    assert CompileFrom(spec, "", "", false, t2, 2) == t2;
  }

  lemma AddressName()
    ensures NodeName("", "address", Obj([("city", Str("town"))])) == "address"
  {
    assert Member(Obj([("city", Str("town"))]), "$") == Undefined;
  }

  /** Merged, the same mapping keeps the root function. */
  lemma RootFnsKept(f: Callable)
    ensures var spec := Obj([("_", Obj([("name", Fn(f))])), ("address", Obj([("city", Str("town"))]))]);
      HasKey(FieldsOf(CompileMappingMerged(spec).fns), "name")
  {
    var spec := Obj([("_", Obj([("name", Fn(f))])), ("address", Obj([("city", Str("town"))]))]);
    assert RootFns(spec) == Obj([("name", Fn(f))]);
    assert FieldsOf(RootFns(spec))[0].0 == "name";
    MergedKeepsRootFns(spec, "name");
  }

  /** A `$` key holding a string adds no entry: the branch meant for it
      sits inside a test that already excludes `$`. */
  lemma DollarLeafIgnored(s: string, prefix: string, cprefix: string, merge: bool)
    ensures CompileNode(Obj([("$", Str(s))]), prefix, cprefix, merge).names == []
  {
    var node := Obj([("$", Str(s))]);
    var acc := Table(RootFns(node), []);
    assert CompileFrom(node, prefix, cprefix, merge, acc, 1) == acc;
  }

  /** A nested object is transformed under the prefix of its original key,
      and its result is written under the key's new name. */
  lemma NestedStep(rt: Calls.Runtime, t: Table, obj: Value, prefix: string, i: nat, acc: Entries<Value>, name: string)
    requires obj.Obj? && i < |obj.fields| && obj.fields[i].1.Obj?
    requires !Text.StartsWith(obj.fields[i].0, "$")
    requires TargetName(t, prefix, obj.fields[i].0) == Ok(name) && !FnOf(t, name).Fn?
    requires TransformFrom(rt, t, obj.fields[i].1, prefix + obj.fields[i].0 + ".", 0, []).Ok?
    ensures TransformFrom(rt, t, obj, prefix, i, acc)
         == TransformFrom(rt, t, obj, prefix, i + 1,
              Put(acc, name, TransformFrom(rt, t, obj.fields[i].1, prefix + obj.fields[i].0 + ".", 0, []).value))
  {
  }

  /** A plain name: non-empty, without `.`, not starting with `$`, and not
      `_` or `_$`. */
  predicate PlainName(x: string) {
    x != "" && '.' !in x && x != "_" && x != "_$" && !Text.StartsWith(x, "$")
  }

  /** `{key: {$: self, member: stored}}` compiles to two entries: the node
      is stored as `self` and its member as `self.stored`. */
  lemma NestedTable(key: string, self: string, member: string, stored: string)
    requires PlainName(key) && PlainName(member) && self != ""
    ensures CompileMapping(Obj([(key, Obj([("$", Str(self)), (member, Str(stored))]))]))
         == Table(Obj([]), [(key, self), (key + "." + member, self + "." + stored)])
  {
    var inner := Obj([("$", Str(self)), (member, Str(stored))]);
    var spec := Obj([(key, inner)]);
    assert OwnEntries(spec) == spec.fields;
    assert RootFns(spec) == Obj([]);
    var ni := Table(Obj([]), [(key + "." + member, self + "." + stored)]);
    NestedInner(key, self, member, stored);
    var names := [(key, self), (key + "." + member, self + "." + stored)];
    NestedNames(key, self, member, stored);
    var t := Table(Obj([]), names);
    assert "" + key == key;
    assert CompileFrom(spec, "", "", false, t, 1) == t;
    assert CompileFrom(spec, "", "", false, Table(Obj([]), []), 0) == t;
  }

  /** The nested node `{$: self, member: stored}` on its own. */
  lemma NestedInner(key: string, self: string, member: string, stored: string)
    requires PlainName(member) && self != ""
    ensures var inner := Obj([("$", Str(self)), (member, Str(stored))]);
      NodeName("", key, inner) == self
      && CompileNode(inner, key + ".", self + ".", false) == Table(Obj([]), [(key + "." + member, self + "." + stored)])
  {
    var inner := Obj([("$", Str(self)), (member, Str(stored))]);
    NestedSelf(self, member, stored);
    var ni := Table(Obj([]), [(key + "." + member, self + "." + stored)]);
    NestedMember(key, self, member, stored, inner, ni);
  }

  lemma NestedSelf(self: string, member: string, stored: string)
    requires PlainName(member) && self != ""
    ensures var inner := Obj([("$", Str(self)), (member, Str(stored))]);
      Member(inner, "$") == Str(self) && RootFns(inner) == Obj([])
  {
  }

  /** The member's step of the nested loop. */
  lemma NestedMember(key: string, self: string, member: string, stored: string, inner: Value, ni: Table)
    requires PlainName(member)
    requires inner == Obj([("$", Str(self)), (member, Str(stored))])
    requires ni == Table(Obj([]), [(key + "." + member, self + "." + stored)])
    ensures CompileFrom(inner, key + ".", self + ".", false, Table(Obj([]), []), 1) == ni
  {
    assert CompileFrom(inner, key + ".", self + ".", false, ni, 2) == ni;
  }

  /** The two names, put in order, are the two entries. */
  lemma NestedNames(key: string, self: string, member: string, stored: string)
    ensures PutAll(Put([], key, self), [(key + "." + member, self + "." + stored)])
         == [(key, self), (key + "." + member, self + "." + stored)]
  {
    assert |key + "." + member| > |key|;
    PutNew([], key, self);
    assert !HasKey([(key, self)], key + "." + member);
    PutNew([(key, self)], key + "." + member, self + "." + stored);
  }

  /** With that table, `member` under `key` is found under the original
      key's path and becomes `stored`; looked up under the new name `self`
      it would keep its name. */
  lemma NestedNaming(key: string, self: string, member: string, stored: string)
    requires PlainName(key) && PlainName(member) && PlainName(self) && PlainName(stored) && self != key
    ensures var t := CompileMapping(Obj([(key, Obj([("$", Str(self)), (member, Str(stored))]))]));
      TargetName(t, "", key) == Ok(self)
      && TargetName(t, key + ".", member) == Ok(stored)
      && TargetName(t, self + ".", member) == Ok(member)
  {
    NestedTable(key, self, member, stored);
    var names := [(key, self), (key + "." + member, self + "." + stored)];
    NestedNodeName(key, self, names);
    NestedMemberName(key, self, member, stored, names);
    NestedSelfMember(key, self, member, stored, names);
  }

  lemma NestedNodeName(key: string, self: string, names: Entries<string>)
    requires PlainName(key) && PlainName(self) && |names| > 0 && names[0] == (key, self)
    ensures TargetName(Table(Obj([]), names), "", key) == Ok(self)
  {
    assert "" + key == key;
    assert Lookup(names, key) == Some(self);
    assert Entry(Table(Obj([]), names), "" + key) == Str(self);
    Text.LastPartWhole(self, '.');
  }

  lemma NestedMemberName(key: string, self: string, member: string, stored: string, names: Entries<string>)
    requires PlainName(key) && PlainName(member) && PlainName(stored)
    requires names == [(key, self), (key + "." + member, self + "." + stored)]
    ensures TargetName(Table(Obj([]), names), key + ".", member) == Ok(stored)
  {
    var t := Table(Obj([]), names);
    assert |key + "." + member| > |key|;
    Text.LastPartAfter(self, stored, '.');
    assert self + ['.'] + stored == self + "." + stored;
    assert key + "." + member != "_";
    assert Lookup(names, key + "." + member) == Some(self + "." + stored);
    assert Entry(t, (key + ".") + member) == Str(self + "." + stored);
  }

  lemma NestedSelfMember(key: string, self: string, member: string, stored: string, names: Entries<string>)
    requires PlainName(key) && PlainName(member) && PlainName(self) && self != key
    requires names == [(key, self), (key + "." + member, self + "." + stored)]
    ensures TargetName(Table(Obj([]), names), self + ".", member) == Ok(member)
  {
    var t := Table(Obj([]), names);
    assert (self + "." + member)[..|self|] == self && (key + "." + member)[..|key|] == key;
    assert self + "." + member != key + "." + member;
    assert |self + "." + member| > |self|;
    assert self + "." + member != key;
    assert !HasKey(names, self + "." + member);
    assert PathPrefix(self + ".");
    UnmappedKeyKept(t, self + ".", member);
  }

  // ---------------------------------------------------------------------
  // Flat mappings and the round trip

  /** One entry of a flat mapping: a plain string leaf under a non-empty
      key without `.`, whose stored name is non-empty, has no `.`, does not
      start with `$` and is not `_`. */
  predicate FlatLeaf(key: string, v: Value) {
    key != "" && key != "_" && key != "_$" && key != "$" && '.' !in key
    && v.Str? && v.s != "" && '.' !in v.s && v.s != "_" && !Text.StartsWith(v.s, "$")
  }

  /** A single-level mapping with distinct keys and distinct stored names. */
  predicate FlatSpec(fields: Entries<Value>) {
    Distinct(fields)
    && (forall i :: 0 <= i < |fields| ==> FlatLeaf(fields[i].0, fields[i].1))
    && (forall i, j :: 0 <= i < j < |fields| ==> fields[i].1 != fields[j].1)
  }

  function Leaves(fields: Entries<Value>): (n: Entries<string>)
    requires forall i :: 0 <= i < |fields| ==> fields[i].1.Str?
    ensures |n| == |fields|
  {
    seq(|fields|, i requires 0 <= i < |fields| => (fields[i].0, fields[i].1.s))
  }

  function Swapped(n: Entries<string>): (r: Entries<string>)
    ensures |r| == |n|
  {
    seq(|n|, i requires 0 <= i < |n| => (n[i].1, n[i].0))
  }

  lemma LeavesSnoc(fields: Entries<Value>, i: nat)
    requires i < |fields| && forall j :: 0 <= j < |fields| ==> fields[j].1.Str?
    ensures Leaves(fields[..i + 1]) == Leaves(fields[..i]) + [(fields[i].0, fields[i].1.s)]
  {
  }

  lemma LeavesFresh(fields: Entries<Value>, i: nat)
    requires FlatSpec(fields) && i < |fields|
    ensures !HasKey(Leaves(fields[..i]), fields[i].0)
  {
    var prev := Leaves(fields[..i]);
    forall m | 0 <= m < |prev| ensures prev[m].0 != fields[i].0 {
      assert prev[m].0 == fields[m].0;
    }
  }

  lemma {:induction false} CompileFlatFrom(fields: Entries<Value>, merge: bool, i: nat)
    requires FlatSpec(fields) && i <= |fields|
    ensures CompileFrom(Obj(fields), "", "", merge, Table(Obj([]), Leaves(fields[..i])), i)
         == Table(Obj([]), Leaves(fields))
    decreases |fields| - i
  {
    if i == |fields| {
      assert fields[..i] == fields;
    } else {
      var key := fields[i].0;
      LeavesFresh(fields, i);
      PutNew(Leaves(fields[..i]), key, fields[i].1.s);
      LeavesSnoc(fields, i);
      assert "" + key == key && "" + fields[i].1.s == fields[i].1.s;
      CompileFlatFrom(fields, merge, i + 1);
    }
  }

  /** A flat mapping compiles to its own leaves, with an empty `_`, in
      both forms of the compilation. */
  lemma CompileFlat(fields: Entries<Value>)
    requires FlatSpec(fields)
    ensures CompileMapping(Obj(fields)) == Table(Obj([]), Leaves(fields))
    ensures CompileMappingMerged(Obj(fields)) == Table(Obj([]), Leaves(fields))
  {
    assert !HasKey(fields, "_");
    assert RootFns(Obj(fields)) == Obj([]);
    assert fields[..0] == [];
    CompileFlatFrom(fields, false, 0);
    CompileFlatFrom(fields, true, 0);
  }

  lemma SwappedSnoc(n: Entries<string>, i: nat)
    requires i < |n|
    ensures Swapped(n[..i + 1]) == Swapped(n[..i]) + [(n[i].1, n[i].0)]
  {
  }

  lemma SwappedFresh(n: Entries<string>, i: nat)
    requires i < |n| && forall j, m :: 0 <= j < m < |n| ==> n[j].1 != n[m].1
    ensures !HasKey(Swapped(n[..i]), n[i].1)
  {
    var prev := Swapped(n[..i]);
    forall m | 0 <= m < |prev| ensures prev[m].0 != n[i].1 {
      assert prev[m].0 == n[m].1;
    }
  }

  lemma {:induction false} SwapFlat(n: Entries<string>, i: nat)
    requires i <= |n|
    requires forall j :: 0 <= j < |n| ==> n[j].1 != "_"
    requires forall j, m :: 0 <= j < m < |n| ==> n[j].1 != n[m].1
    ensures Swap(Table(Obj([]), Swapped(n[..i])), n[i..]) == Table(Obj([]), Swapped(n))
    decreases |n| - i
  {
    if i == |n| {
      assert n[..i] == n;
    } else {
      SwappedFresh(n, i);
      PutNew(Swapped(n[..i]), n[i].1, n[i].0);
      SwappedSnoc(n, i);
      assert n[i..][1..] == n[i + 1..];
      SwapFlat(n, i + 1);
    }
  }

  /** The inverse of a flat mapping is its leaves with key and stored
      name exchanged. */
  lemma InverseFlat(fields: Entries<Value>)
    requires FlatSpec(fields)
    ensures CompileInverse(Obj(fields)) == Table(Obj([]), Swapped(Leaves(fields)))
  {
    CompileFlat(fields);
    assert !HasKey(fields, "_$");
    assert InverseFns(Obj(fields)) == Obj([]);
    var n := Leaves(fields);
    assert n[..0] == [] && n[0..] == n;
    forall j, m | 0 <= j < m < |n| ensures n[j].1 != n[m].1 {
      assert fields[j].1 != fields[m].1;
    }
    SwapFlat(n, 0);
  }

  /** The inverse table maps every stored name back to its key. */
  lemma InverseLooksBack(fields: Entries<Value>, i: nat)
    requires FlatSpec(fields) && i < |fields|
    ensures Entry(CompileInverse(Obj(fields)), fields[i].1.s) == Str(fields[i].0)
    ensures Entry(CompileMappingMerged(Obj(fields)), fields[i].0) == fields[i].1
  {
    InverseFlat(fields);
    CompileFlat(fields);
    var n := Leaves(fields);
    var w := Swapped(n);
    assert w[i] == (fields[i].1.s, fields[i].0);
    assert Distinct(w) by {
      forall j, m | 0 <= j < m < |w| ensures w[j].0 != w[m].0 {
        assert fields[j].1 != fields[m].1;
      }
    }
    assert Distinct(n);
    assert n[i] == (fields[i].0, fields[i].1.s);
  }

  /** For any mapping whose stored names are distinct, the inverse table
      maps every stored name other than `_` back to the key it was stored
      under. */
  lemma InverseInverts(spec: Value, j: nat)
    requires j < |CompileMapping(spec).names| && CompileMapping(spec).names[j].1 != "_"
    requires forall a, b :: 0 <= a < b < |CompileMapping(spec).names| ==>
      CompileMapping(spec).names[a].1 != CompileMapping(spec).names[b].1
    ensures Entry(CompileInverse(spec), CompileMapping(spec).names[j].1) == Str(CompileMapping(spec).names[j].0)
  {
    var fwd := CompileMapping(spec).names;
    var t := CompileInverse(spec);
    var n := fwd[j].1;
    assert HasKey(t.names, n);
    var v := Lookup(t.names, n).value;
    assert (v, n) in fwd;
    var a :| 0 <= a < |fwd| && fwd[a] == (v, n);
    assert a == j;
  }

  /** The name a flat table gives a top-level key. */
  function NameOf(n: Entries<string>, k: string): string {
    if !Text.StartsWith(k, "$") && k != "_" && Lookup(n, k).Some? && Lookup(n, k).value != ""
    then Lookup(n, k).value else k
  }

  /** The entries of a flat document renamed through `n`. */
  function Renamed(n: Entries<string>, d: Entries<Value>): (r: Entries<Value>)
    ensures |r| == |d|
  {
    seq(|d|, i requires 0 <= i < |d| => (NameOf(n, d[i].0), d[i].1))
  }

  /** A flat document: no key has `.` or is `_`, and no value is an object
      `transform` would descend into. */
  predicate FlatDoc(d: Entries<Value>) {
    forall i :: 0 <= i < |d| ==> '.' !in d[i].0 && d[i].0 != "_" && !d[i].1.Obj? && !d[i].1.Settled?
  }

  /** In a table with an empty `_`, a top-level key without `.` gets the
      name `NameOf` gives it. */
  lemma FlatTargetName(n: Entries<string>, key: string)
    requires '.' !in key && key != "_"
    requires forall j :: 0 <= j < |n| ==> '.' !in n[j].1
    ensures TargetName(Table(Obj([]), n), "", key) == Ok(NameOf(n, key))
  {
    var t := Table(Obj([]), n);
    assert "" + key == key;
    if Text.StartsWith(key, "$") {
      SystemKeyKept(t, "", key);
    } else if Truthy(Entry(t, key)) {
      var v := Lookup(n, key).value;
      assert (key, v) in n;
      Text.LastPartWhole(v, '.');
    } else {
      UnmappedKeyKept(t, "", key);
    }
  }

  lemma RenamedFresh(r: Entries<Value>, i: nat)
    requires Distinct(r) && i < |r|
    ensures !HasKey(r[..i], r[i].0) && r[..i] + [r[i]] == r[..i + 1]
  {
    forall m | 0 <= m < i ensures r[..i][m].0 != r[i].0 {
      assert r[..i][m] == r[m];
    }
  }

  /** One step of the loop for a key whose name is known and whose value
      is neither an object nor has a function to apply. */
  lemma TransformStep(rt: Calls.Runtime, t: Table, obj: Value, prefix: string, i: nat, acc: Entries<Value>, name: string)
    requires obj.Obj? && i < |obj.fields|
    requires TargetName(t, prefix, obj.fields[i].0) == Ok(name)
    requires !obj.fields[i].1.Obj? && !obj.fields[i].1.Settled? && !FnOf(t, name).Fn?
    ensures TransformFrom(rt, t, obj, prefix, i, acc)
         == TransformFrom(rt, t, obj, prefix, i + 1, Put(acc, name, obj.fields[i].1))
  {
  }

  lemma {:induction false} TransformFlatFrom(rt: Calls.Runtime, n: Entries<string>, d: Entries<Value>, i: nat)
    requires i <= |d| && FlatDoc(d)
    requires forall j :: 0 <= j < |n| ==> '.' !in n[j].1
    requires Distinct(Renamed(n, d))
    ensures TransformFrom(rt, Table(Obj([]), n), Obj(d), "", i, Renamed(n, d)[..i]) == Ok(Obj(Renamed(n, d)))
    decreases |d| - i
  {
    var r := Renamed(n, d);
    if i == |d| {
      assert r[..i] == r;
    } else {
      FlatTargetName(n, d[i].0);
      assert FnOf(Table(Obj([]), n), r[i].0) == Undefined;
      TransformStep(rt, Table(Obj([]), n), Obj(d), "", i, r[..i], r[i].0);
      RenamedFresh(r, i);
      PutNew(r[..i], r[i].0, d[i].1);
      TransformFlatFrom(rt, n, d, i + 1);
    }
  }

  /** With an empty `_`, transforming a flat document renames each key and
      keeps the values and the order, provided no two keys get one name. */
  lemma TransformFlat(rt: Calls.Runtime, n: Entries<string>, d: Entries<Value>)
    requires FlatDoc(d)
    requires forall j :: 0 <= j < |n| ==> '.' !in n[j].1
    requires Distinct(Renamed(n, d))
    ensures Transform(rt, Table(Obj([]), n), Obj(d)) == Ok(Obj(Renamed(n, d)))
  {
    assert Renamed(n, d)[..0] == [];
    TransformFlatFrom(rt, n, d, 0);
  }

  /** The document keys the round trip restores: each is either a key of
      the mapping or no stored name at all. */
  predicate Restorable(fields: Entries<Value>, d: Entries<Value>) {
    forall i :: 0 <= i < |d| ==>
      (HasKey(fields, d[i].0) && !Text.StartsWith(d[i].0, "$"))
      || forall j :: 0 <= j < |fields| ==> fields[j].1 != Str(d[i].0)
  }

  /** Each key comes back: naming through the forward leaves and then
      through the reversed leaves is the identity on restorable keys. */
  lemma NameRoundTrip(fields: Entries<Value>, k: string)
    requires FlatSpec(fields) && k != "_" && '.' !in k
    requires (HasKey(fields, k) && !Text.StartsWith(k, "$")) || forall j :: 0 <= j < |fields| ==> fields[j].1 != Str(k)
    ensures NameOf(Swapped(Leaves(fields)), NameOf(Leaves(fields), k)) == k
    ensures var x := NameOf(Leaves(fields), k); x != "_" && '.' !in x
    ensures NameOf(Leaves(fields), k) == k
         || exists j :: 0 <= j < |fields| && fields[j].0 == k && fields[j].1 == Str(NameOf(Leaves(fields), k))
  {
    var n := Leaves(fields);
    var w := Swapped(n);
    assert Distinct(n);
    assert Distinct(w) by {
      forall j, m | 0 <= j < m < |w| ensures w[j].0 != w[m].0 {
        assert fields[j].1 != fields[m].1;
      }
    }
    if HasKey(fields, k) && !Text.StartsWith(k, "$") {
      var j :| 0 <= j < |fields| && fields[j].0 == k;
      assert n[j] == (k, fields[j].1.s);
      assert w[j] == (fields[j].1.s, k);
      assert NameOf(n, k) == fields[j].1.s;
    } else {
      assert forall j :: 0 <= j < |fields| ==> fields[j].1 != Str(k);
      if !Text.StartsWith(k, "$") {
        forall j | 0 <= j < |n| ensures n[j].0 != k {
          assert n[j].0 == fields[j].0;
        }
      }
      assert NameOf(n, k) == k;
      forall j | 0 <= j < |w| ensures w[j].0 != k {
        assert Str(w[j].0) == fields[j].1;
      }
    }
  }

  /** `inverseTransform(transform(doc))` gives back the document for a flat
      mapping without transform functions and a flat document whose keys
      are restorable. */
  lemma RoundTrip(rt: Calls.Runtime, fields: Entries<Value>, d: Entries<Value>)
    requires FlatSpec(fields) && FlatDoc(d) && Distinct(d) && Restorable(fields, d)
    ensures var fwd := Transform(rt, CompileMappingMerged(Obj(fields)), Obj(d));
      fwd.Ok? && Transform(rt, CompileInverse(Obj(fields)), fwd.value) == Ok(Obj(d))
  {
    CompileFlat(fields);
    InverseFlat(fields);
    var n := Leaves(fields);
    var w := Swapped(n);
    var r := Renamed(n, d);
    forall i | 0 <= i < |d|
      ensures NameOf(w, r[i].0) == d[i].0 && r[i].0 != "_" && '.' !in r[i].0
      ensures r[i].0 == d[i].0 || exists j :: 0 <= j < |fields| && fields[j].0 == d[i].0 && fields[j].1 == Str(r[i].0)
    {
      NameRoundTrip(fields, d[i].0);
    }
    assert Distinct(r) by {
      forall i, m | 0 <= i < m < |r| ensures r[i].0 != r[m].0 {
        assert d[i].0 != d[m].0;
        assert NameOf(w, r[i].0) == d[i].0 && NameOf(w, r[m].0) == d[m].0;
      }
    }
    TransformFlat(rt, n, d);
    assert Renamed(w, r) == d by {
      forall i | 0 <= i < |d| ensures Renamed(w, r)[i] == d[i] {
      }
    }
    forall j | 0 <= j < |w| ensures '.' !in w[j].1 {
      assert w[j].1 == fields[j].0;
    }
    TransformFlat(rt, w, r);
  }
}

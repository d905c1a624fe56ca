/** Naming helpers of the mapper: relation accessor names (`method`),
    relation field names (`field`), and enumeration tables (`enum`,
    `translate`). The word transformations of the inflection library are
    parameters. */
module Naming {
  import opened Wrappers
  import opened Fields
  import opened Values
  import Text

  /** The inflection library, as uninterpreted word transformations. */
  datatype Inflector = Inflector(
    humanize: string -> string,     // inflection.humanize
    underscore: string -> string,   // inflection.underscore
    camelize: string -> string,     // inflection.camelize(_, true)
    pluralize: string -> string)    // inflection.pluralize

  const DefaultVerb: string := "populate"

  /** `method(field, verb)`: the verb (default `populate`) followed by the
      field with its first character upper-cased. */
  function MethodName(field: string, verb: string): (r: string)
    ensures var v := if verb == "" then DefaultVerb else verb;
      Text.StartsWith(r, v) && |r| == |v| + |field|
      && (|field| > 0 ==> r[|v|] == Text.UpperChar(field[0]) && r[|v| + 1..] == field[1..])
  {
    var v := if verb == "" then DefaultVerb else verb;
    if |field| == 0 then v else v + [Text.UpperChar(field[0])] + field[1..]
  }

  /** The field an accessor name was made from: the inverse of MethodName
      on fields that do not start with an upper-case ASCII letter. */
  function FieldOfMethod(name: string, verb: string): string
  {
    var v := if verb == "" then DefaultVerb else verb;
    if !Text.StartsWith(name, v) || |name| == |v| then ""
    else [Text.LowerChar(name[|v|])] + name[|v| + 1..]
  }

  lemma MethodNameRoundTrip(field: string, verb: string)
    requires |field| > 0 ==> !('A' <= field[0] <= 'Z')
    ensures FieldOfMethod(MethodName(field, verb), verb) == field
  {
    var v := if verb == "" then DefaultVerb else verb;
    var r := MethodName(field, verb);
    if |field| > 0 {
      assert r[|v|] == Text.UpperChar(field[0]);
      assert [field[0]] + field[1..] == field;
    }
  }

  lemma PopulateAuthor()
    ensures MethodName("author", "") == "populateAuthor"
  {
  }

  /** The segment `field` keeps of a model name: the last `/`-separated
      segment, or the one before it when the last is `index`. */
  function SelectSegment(name: string): string
  {
    var parts := Text.Split(name, '/');
    var last := parts[|parts| - 1];
    if last == "index" && |parts| > 1 then parts[|parts| - 2] else last
  }

  /** `field(model, many)`: throws on an empty (falsy) name; otherwise the
      selected segment with its first `-` turned into `_`, underscored,
      camelized, and pluralized when `many`. */
  function FieldName(infl: Inflector, model: string, many: bool): (r: Result<string>)
    ensures r.Fail? <==> model == ""
    ensures r.Fail? ==> r.error == "Bad model name!"
    ensures r.Ok? && !many ==> r.value == infl.camelize(infl.underscore(Text.ReplaceFirst(SelectSegment(model), '-', '_')))
    ensures r.Ok? && many ==> r.value == infl.pluralize(infl.camelize(infl.underscore(Text.ReplaceFirst(SelectSegment(model), '-', '_'))))
  {
    if model == "" then Fail("Bad model name!")
    else
      var f := infl.camelize(infl.underscore(Text.ReplaceFirst(SelectSegment(model), '-', '_')));
      Ok(if many then infl.pluralize(f) else f)
  }

  lemma {:induction false} SplitJoin(parts: seq<string>, sep: char)
    requires |parts| >= 1
    requires forall i :: 0 <= i < |parts| ==> sep !in parts[i]
    ensures Text.Split(Text.Join(parts, [sep]), sep) == parts
    decreases |parts|, |parts[0]|
  {
    if |parts| == 1 {
      Text.SplitWithoutSeparator(parts[0], sep);
    } else if |parts[0]| == 0 {
      var s := Text.Join(parts, [sep]);
      assert s == [sep] + Text.Join(parts[1..], [sep]);
      assert s[1..] == Text.Join(parts[1..], [sep]);
      SplitJoin(parts[1..], sep);
      assert [""] + parts[1..] == parts;
    } else {
      var s := Text.Join(parts, [sep]);
      var c := parts[0][0];
      var shorter := [parts[0][1..]] + parts[1..];
      assert parts[0] == [c] + parts[0][1..];
      assert s == [c] + Text.Join(shorter, [sep]) by {
        if |shorter| == 1 {
        } else {
          assert shorter[1..] == parts[1..];
        }
      }
      assert sep !in parts[0][1..];
      assert forall i :: 0 <= i < |shorter| ==> sep !in shorter[i];
      SplitJoin(shorter, sep);
      assert s[1..] == Text.Join(shorter, [sep]);
      assert s[0] == c;
      assert [[c] + shorter[0]] + shorter[1..] == parts;
    }
  }

  /** The segment a model name `a/b/.../s` selects is `s`, unless `s` is
      `index`, in which case it is the segment before it. */
  lemma SegmentOfPath(parts: seq<string>)
    requires |parts| >= 1
    requires forall i :: 0 <= i < |parts| ==> '/' !in parts[i]
    ensures SelectSegment(Text.Join(parts, "/")) ==
      if parts[|parts| - 1] == "index" && |parts| > 1 then parts[|parts| - 2] else parts[|parts| - 1]
  {
    SplitJoin(parts, '/');
  }

  /** `obj[prop][0]` and `obj[prop][1]` of an enumeration entry. */
  function First(entry: Value): Value {
    Member(entry, "0")
  }

  function Second(entry: Value): Value {
    Member(entry, "1")
  }

  /** `translate(obj, term)`: the label of the first entry whose value is
      strictly equal to `term`, `undefined` when there is none. */
  function Translate(table: Entries<Value>, term: Value): (r: Value)
    ensures (forall i :: 0 <= i < |table| ==> !StrictEq(term, First(table[i].1))) ==> r == Undefined
    ensures forall i :: (0 <= i < |table| && StrictEq(term, First(table[i].1))
                         && forall j :: 0 <= j < i ==> !StrictEq(term, First(table[j].1)))
                        ==> r == Second(table[i].1)
  {
    if |table| == 0 then Undefined
    else if StrictEq(term, First(table[0].1)) then Second(table[0].1)
    else
      var r := Translate(table[1..], term);
      TranslateTail(table, term, r);
      r
  }

  /** A miss on the first entry leaves the answer to the rest. */
  lemma TranslateTail(table: Entries<Value>, term: Value, r: Value)
    requires |table| > 0 && !StrictEq(term, First(table[0].1))
    requires (forall i :: 0 <= i < |table| - 1 ==> !StrictEq(term, First(table[1..][i].1))) ==> r == Undefined
    requires forall i :: (0 <= i < |table| - 1 && StrictEq(term, First(table[1..][i].1))
                         && forall j :: 0 <= j < i ==> !StrictEq(term, First(table[1..][j].1)))
                        ==> r == Second(table[1..][i].1)
    ensures (forall i :: 0 <= i < |table| ==> !StrictEq(term, First(table[i].1))) ==> r == Undefined
    ensures forall i :: (0 <= i < |table| && StrictEq(term, First(table[i].1))
                         && forall j :: 0 <= j < i ==> !StrictEq(term, First(table[j].1)))
                        ==> r == Second(table[i].1)
  {
    assert forall i :: 1 <= i < |table| ==> table[i] == table[1..][i - 1];
  }

  /** One entry of `enum(obj)` after its string shorthand is expanded to
      `[value, humanize(value)]`. */
  function Expand(infl: Inflector, x: Value): Value {
    if x.Str? then Arr([x, Str(infl.humanize(x.s))]) else x
  }

  function ExpandAll(infl: Inflector, e: Entries<Value>): (r: Entries<Value>)
    ensures |r| == |e|
    ensures forall i :: 0 <= i < |e| ==> r[i] == (e[i].0, Expand(infl, e[i].1))
  {
    if |e| == 0 then [] else [(e[0].0, Expand(infl, e[0].1))] + ExpandAll(infl, e[1..])
  }

  /** The values of an expanded table, in declaration order. */
  function Firsts(table: Entries<Value>): (vs: Result<seq<Value>>)
    ensures vs.Ok? <==> forall i :: 0 <= i < |table| ==> !table[i].1.Undefined? && !table[i].1.Null?
    ensures vs.Ok? ==> |vs.value| == |table| && forall i :: 0 <= i < |table| ==> vs.value[i] == First(table[i].1)
  {
    if |table| == 0 then Ok([])
    else if table[0].1.Undefined? || table[0].1.Null? then Fail(TypeErrorMessage)
    else
      var rest := Firsts(table[1..]);
      var r := if rest.Fail? then rest else Ok([First(table[0].1)] + rest.value);
      FirstsTail(table, rest, r);
      r
  }

  /** Putting the first entry's value in front of the rest's keeps `Firsts`'s contract. */
  lemma FirstsTail(table: Entries<Value>, rest: Result<seq<Value>>, r: Result<seq<Value>>)
    requires |table| > 0 && !table[0].1.Undefined? && !table[0].1.Null?
    requires rest.Ok? <==> forall i :: 0 <= i < |table| - 1 ==> !table[1..][i].1.Undefined? && !table[1..][i].1.Null?
    requires rest.Ok? ==> (|rest.value| == |table| - 1
      && forall i :: 0 <= i < |table| - 1 ==> rest.value[i] == First(table[1..][i].1))
    requires r == if rest.Fail? then rest else Ok([First(table[0].1)] + rest.value)
    ensures r.Ok? <==> forall i :: 0 <= i < |table| ==> !table[i].1.Undefined? && !table[i].1.Null?
    ensures r.Ok? ==> |r.value| == |table| && forall i :: 0 <= i < |table| ==> r.value[i] == First(table[i].1)
  {
    assert forall i :: 1 <= i < |table| ==> table[i] == table[1..][i - 1];
  }

  /** `enum(obj)`: each key maps to its value, `enum` lists the values in
      declaration order, and `translate` is bound to the expanded table.
      Entries that are `null` or `undefined` make `obj[prop][0]` throw. */
  function BuildEnum(infl: Inflector, obj: Value): (r: Result<Value>)
  {
    var o := if Truthy(obj) then obj else Obj([]);
    if o.Str? then Fail(TypeErrorMessage)
    else
      var table := ExpandAll(infl, OwnEntries(o));
      var firsts :- Firsts(table);
      Ok(Obj(Put(Put(Entries(table, firsts), "enum", Arr(firsts)), "translate", Fn(Translator(table)))))
  }

  /** The `[key, value]` entries `ret[prop] = obj[prop][0]` assigns. */
  function Entries(table: Entries<Value>, firsts: seq<Value>): (r: Entries<Value>)
    requires |firsts| == |table|
    ensures |r| == |table| && forall i :: 0 <= i < |table| ==> r[i] == (table[i].0, firsts[i])
  {
    if |table| == 0 then [] else [(table[0].0, firsts[0])] + Entries(table[1..], firsts[1..])
  }

  lemma PairMembers(a: Value, b: Value)
    ensures First(Arr([a, b])) == a && Second(Arr([a, b])) == b
  {
    Values.IndexKeyRoundTrip(0);
    Values.IndexKeyRoundTrip(1);
    assert Text.NatText(0) == "0" && Text.NatText(1) == "1";
  }

  lemma EnumFirsts(infl: Inflector, fields: Entries<Value>)
    requires forall i :: 0 <= i < |fields| ==> !fields[i].1.Undefined? && !fields[i].1.Null?
    ensures Firsts(ExpandAll(infl, fields)).Ok?
    ensures Firsts(ExpandAll(infl, fields)).value == EnumValues(infl, fields)
  {
    var table := ExpandAll(infl, fields);
    forall i | 0 <= i < |table| ensures !table[i].1.Undefined? && !table[i].1.Null? {
      assert table[i].1 == Expand(infl, fields[i].1);
    }
  }

  /** The names of `enum(obj)`'s own entries before `enum` and `translate`
      are added, for an object whose entries are all defined. */
  function EnumNamed(infl: Inflector, fields: Entries<Value>): Entries<Value>
  {
    Entries(fields, EnumValues(infl, fields))
  }

  /** The values `enum(obj)` lists, in declaration order. */
  function EnumValues(infl: Inflector, fields: Entries<Value>): (vs: seq<Value>)
    ensures |vs| == |fields|
    ensures forall i :: 0 <= i < |fields| ==> vs[i] == First(Expand(infl, fields[i].1))
  {
    seq(|fields|, i requires 0 <= i < |fields| => First(Expand(infl, fields[i].1)))
  }

  lemma BuildEnumShape(infl: Inflector, fields: Entries<Value>)
    requires forall j :: 0 <= j < |fields| ==> !fields[j].1.Undefined? && !fields[j].1.Null?
    ensures BuildEnum(infl, Obj(fields)) == Ok(Obj(Put(Put(EnumNamed(infl, fields), "enum",
      Arr(EnumValues(infl, fields))), "translate", Fn(Translator(ExpandAll(infl, fields))))))
  {
    var table := ExpandAll(infl, fields);
    EnumFirsts(infl, fields);
    var firsts := Firsts(table).value;
    assert Entries(table, firsts) == EnumNamed(infl, fields);
    assert Truthy(Obj(fields));
  }

  lemma EnumNamedLookup(infl: Inflector, fields: Entries<Value>, i: nat)
    requires Distinct(fields) && i < |fields|
    ensures Lookup(EnumNamed(infl, fields), fields[i].0) == Some(First(Expand(infl, fields[i].1)))
  {
    var e := EnumNamed(infl, fields);
    assert Distinct(e) by {
      forall a, b | 0 <= a < b < |e| ensures e[a].0 != e[b].0 {
        assert e[a].0 == fields[a].0 && e[b].0 == fields[b].0;
      }
    }
    assert e[i] == (fields[i].0, First(Expand(infl, fields[i].1)));
    assert HasKey(e, fields[i].0);
  }

  /** For an object whose keys are distinct and are not `enum` or
      `translate`, and whose entries are all defined: every key maps to its
      value (a string entry's value is the string itself), and `enum` lists
      the values in declaration order. */
  lemma EnumMapsKeys(infl: Inflector, fields: Entries<Value>, i: nat)
    requires Distinct(fields)
    requires forall j :: 0 <= j < |fields| ==> fields[j].0 != "enum" && fields[j].0 != "translate"
    requires forall j :: 0 <= j < |fields| ==> !fields[j].1.Undefined? && !fields[j].1.Null?
    requires i < |fields|
    ensures BuildEnum(infl, Obj(fields)).Ok?
    ensures Member(BuildEnum(infl, Obj(fields)).value, "enum") == Arr(EnumValues(infl, fields))
    ensures Member(BuildEnum(infl, Obj(fields)).value, fields[i].0) == First(Expand(infl, fields[i].1))
    ensures fields[i].1.Str? ==> Member(BuildEnum(infl, Obj(fields)).value, fields[i].0) == fields[i].1
  {
    BuildEnumShape(infl, fields);
    EnumNamedLookup(infl, fields, i);
    EnumMembers(BuildEnum(infl, Obj(fields)).value, EnumNamed(infl, fields), Arr(EnumValues(infl, fields)),
                Fn(Translator(ExpandAll(infl, fields))), fields[i].0, First(Expand(infl, fields[i].1)));
    if fields[i].1.Str? {
      PairMembers(fields[i].1, Str(infl.humanize(fields[i].1.s)));
    }
  }

  /** Adding `enum` and `translate` leaves every other key as it was. */
  lemma EnumMembers(v: Value, named: Entries<Value>, values: Value, translator: Value, k: string, x: Value)
    requires v == Obj(Put(Put(named, "enum", values), "translate", translator))
    requires k != "enum" && k != "translate" && Lookup(named, k) == Some(x)
    ensures Member(v, k) == x && Member(v, "enum") == values
  {
  }

  /** `translate` inverts the enumeration: the value of entry `i` is
      translated to entry `i`'s label, provided no earlier entry has a
      value strictly equal to it. A string entry's label is its humanized
      form. */
  lemma EnumTranslates(infl: Inflector, fields: Entries<Value>, i: nat)
    requires i < |fields|
    requires forall j :: 0 <= j < i ==> !StrictEq(First(Expand(infl, fields[i].1)), First(Expand(infl, fields[j].1)))
    requires StrictEq(First(Expand(infl, fields[i].1)), First(Expand(infl, fields[i].1)))
    ensures Translate(ExpandAll(infl, fields), First(Expand(infl, fields[i].1))) == Second(Expand(infl, fields[i].1))
    ensures fields[i].1.Str? ==> Translate(ExpandAll(infl, fields), fields[i].1) == Str(infl.humanize(fields[i].1.s))
  {
    var table := ExpandAll(infl, fields);
    if fields[i].1.Str? {
      PairMembers(fields[i].1, Str(infl.humanize(fields[i].1.s)));
    }
    assert table[i].1 == Expand(infl, fields[i].1);
    forall j | 0 <= j < i ensures table[j].1 == Expand(infl, fields[j].1) {
    }
  }
}

/** The JavaScript values the mapper reads and writes, and the few pieces
    of JavaScript semantics it relies on: truthiness, `typeof`, strict
    equality, `String(v)`, `Number(v)` and own-property enumeration. */
module Values {
  import opened Wrappers
  import opened Fields
  import Text

  /** The seven type kinds of the registry; `Native(k)` below is the native
      constructor exported for kind `k` (`String`, `Number`, ...). */
  datatype TypeKind =
    | StringType | NumberType | BooleanType | DateType | MixedType | ObjectIdType | ArrayType

  /** A JavaScript number. Finite values are modelled by integers. */
  datatype Number = Finite(n: int) | NaN | Infinity(negative: bool)

  /** The library's own functions that can appear as rule methods. */
  datatype Addon =
    | StringFilter      // String type: `String(v)`
    | NumberFilter      // Number type: `Number(v)`
    | NumberValidator   // Number type: rejects non-numbers and non-finite numbers
    | BooleanFilter     // Boolean type: `!!v`
    | ArrayValidator    // Array type: rejects defined non-arrays
    | RequiredValidator // validation.validateRequired
    | EnumValidator     // validation.validateEnum, called with one argument

  /** A function value. */
  datatype Callable =
    | Native(kind: TypeKind)               // a type's native constructor
    | Builtin(addon: Addon)                // a function of the library
    | Translator(table: Entries<Value>)    // `translate` bound to an enum table
    | User(id: nat)                        // a function supplied by the application

  datatype Value =
    | Undefined
    | Null
    | Bool(b: bool)
    | Num(n: Number)
    | Str(s: string)
    | Arr(items: seq<Value>)
    | Obj(fields: Entries<Value>)
    | Id(hex: string)                      // a store ObjectId
    | Error(message: string)               // an `Error` instance
    | Fn(f: Callable)
    | Settled(rejected: bool, outcome: Value)  // an already-settled promise

  /** JavaScript truthiness: `undefined`, `null`, `false`, `0`, `NaN` and
      `""` are falsy, everything else is truthy. */
  predicate Truthy(v: Value) {
    match v
    case Undefined => false
    case Null => false
    case Bool(b) => b
    case Num(n) => n != Finite(0) && n != NaN
    case Str(s) => s != ""
    case _ => true
  }

  function TypeOf(v: Value): string {
    match v
    case Undefined => "undefined"
    case Bool(_) => "boolean"
    case Num(_) => "number"
    case Str(_) => "string"
    case Fn(_) => "function"
    case _ => "object"
  }

  /** `Object.prototype.toString.call(v) === '[object Object]'`. */
  predicate IsPlainObject(v: Value) {
    v.Obj? || v.Id? || v.Settled?
  }

  /** `a === b`. Object identity is approximated by structural equality. */
  predicate StrictEq(a: Value, b: Value) {
    match (a, b)
    case (Num(NaN), _) => false
    case (_, Num(NaN)) => false
    case _ => a == b
  }

  function NumberText(n: Number): string {
    match n
    case Finite(i) => Text.IntText(i)
    case NaN => "NaN"
    case Infinity(neg) => if neg then "-Infinity" else "Infinity"
  }

  /** `String(v)`. */
  function ToText(v: Value): string
    decreases v, 0
  {
    match v
    case Undefined => "undefined"
    case Null => "null"
    case Bool(b) => if b then "true" else "false"
    case Num(n) => NumberText(n)
    case Str(s) => s
    case Arr(items) => Text.Join(ItemTexts(items), ",")
    case Obj(_) => "[object Object]"
    case Id(hex) => hex
    case Error(m) => if m == "" then "Error" else "Error: " + m
    case Fn(_) => "function () { [code] }"
    case Settled(_, _) => "[object Object]"
  }

  /** The element texts `Array.prototype.join` uses: `undefined` and `null`
      elements render as the empty string. */
  function ItemTexts(items: seq<Value>): (ts: seq<string>)
    ensures |ts| == |items|
    decreases items, 1
  {
    if |items| == 0 then []
    else
      [if items[0].Undefined? || items[0].Null? then "" else ToText(items[0])]
      + ItemTexts(items[1..])
  }

  /** `Number(v)`; the parsing of strings is a parameter. */
  function ToNumber(parse: string -> Number, v: Value): Number {
    match v
    case Undefined => NaN
    case Null => Finite(0)
    case Bool(b) => Finite(if b then 1 else 0)
    case Num(n) => n
    case Str(s) => parse(s)
    case _ => parse(ToText(v))
  }

  /** The index a property key names, when it is a canonical array index. */
  function IndexOfKey(key: string): Option<nat> {
    if |key| >= 1 && (forall i :: 0 <= i < |key| ==> '0' <= key[i] <= '9')
       && Text.NatText(Text.DigitsValue(key)) == key
    then Some(Text.DigitsValue(key))
    else None
  }

  lemma IndexKeyRoundTrip(n: nat)
    ensures IndexOfKey(Text.NatText(n)) == Some(n)
  {
    Text.NatTextValue(n);
  }

  lemma IndexKeysDistinct(m: nat, n: nat)
    requires m != n
    ensures Text.NatText(m) != Text.NatText(n)
  {
    if Text.NatText(m) == Text.NatText(n) {
      Text.NatTextInjective(m, n);
    }
  }

  /** The own enumerable properties `for (k in v)` visits. Instances of
      ObjectId, Error and promises are treated as having none. */
  function OwnEntries(v: Value): (e: Entries<Value>)
    ensures v.Obj? ==> e == v.fields
    ensures v.Arr? ==> |e| == |v.items|
  {
    match v
    case Obj(fields) => fields
    case Arr(items) => seq(|items|, i requires 0 <= i < |items| => (Text.NatText(i), items[i]))
    case Str(s) => seq(|s|, i requires 0 <= i < |s| => (Text.NatText(i), Str([s[i]])))
    case _ => []
  }

  /** `v[key]` for a value that is neither `null` nor `undefined` (own
      properties only; `length` and inherited members are not modelled). */
  function Member(v: Value, key: string): Value {
    match v
    case Obj(fields) => Lookup(fields, key).GetOr(Undefined)
    case Arr(items) =>
      var i := IndexOfKey(key);
      if i.Some? && i.value < |items| then items[i.value] else Undefined
    case Str(s) =>
      var i := IndexOfKey(key);
      if i.Some? && i.value < |s| then Str([s[i.value]]) else Undefined
    case _ => Undefined
  }

  /** `v[key]`, which throws a TypeError on `null` and `undefined`. */
  function Read(v: Value, key: string): (r: Result<Value>)
    ensures r.Fail? <==> v.Undefined? || v.Null?
    ensures r.Ok? ==> r.value == Member(v, key)
  {
    if v.Undefined? || v.Null? then Fail(TypeErrorMessage) else Ok(Member(v, key))
  }

  /** `v.toString()`, which throws a TypeError on `null` and `undefined`. */
  function KeyText(v: Value): (r: Result<string>)
    ensures r.Fail? <==> v.Undefined? || v.Null?
    ensures r.Ok? ==> r.value == ToText(v)
  {
    if v.Undefined? || v.Null? then Fail(TypeErrorMessage) else Ok(ToText(v))
  }

  /** `obj[key] = x` on a holder document; assigning a property of a
      primitive throws a TypeError in strict mode. Values other than plain
      objects (arrays, ObjectIds, errors, functions) cannot carry a named
      member in this model and are reported the same way. */
  function Assign(obj: Value, key: string, x: Value): (r: Result<Value>)
    ensures r.Ok? <==> obj.Obj?
    ensures r.Ok? ==> r.value == Obj(Put(obj.fields, key, x))
  {
    if obj.Obj? then Ok(Obj(Put(obj.fields, key, x))) else Fail(TypeErrorMessage)
  }

  /** The entries of a value, for values used as plain option objects. */
  function FieldsOf(v: Value): Entries<Value> {
    if v.Obj? then v.fields else []
  }
}

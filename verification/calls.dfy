/** Calling a function value with one argument. What the library itself
    defines is spelled out; what comes from the platform or the application
    (user callbacks, `Date`, `ObjectId`, the parsing of numeric strings) is
    supplied by a `Runtime`. */
module Calls {
  import opened Values
  import Types
  import Naming
  import Validation

  datatype Runtime = Runtime(
    user: (nat, Value) -> Value,          // application functions, by identity
    native: (TypeKind, Value) -> Value,   // `Date(v)`, `ObjectId(v)`, `Array(n)`
    parse: string -> Number)              // numeric parsing inside `Number(s)`

  /** `f(v)`. */
  function Call(rt: Runtime, f: Callable, v: Value): Value {
    match f
    case Native(StringType) => Types.FilterString(v)
    case Native(NumberType) => Types.FilterNumber(rt.parse, v)
    case Native(BooleanType) => Types.FilterBoolean(v)
    case Native(MixedType) => Undefined
    case Native(ArrayType) => if v.Num? then rt.native(ArrayType, v) else Arr([v])
    case Native(k) => rt.native(k, v)
    case Builtin(StringFilter) => Types.FilterString(v)
    case Builtin(NumberFilter) => Types.FilterNumber(rt.parse, v)
    case Builtin(NumberValidator) => Types.ValidateNumber(v)
    case Builtin(BooleanFilter) => Types.FilterBoolean(v)
    case Builtin(ArrayValidator) => Types.ValidateArray(v)
    case Builtin(RequiredValidator) => Validation.ValidateRequired(v)
    case Builtin(EnumValidator) => Undefined
    case Translator(table) => Naming.Translate(table, v)
    case User(id) => rt.user(id, v)
  }

  /** The default filters of String, Number and Boolean behave like calling
      the native constructors as functions. */
  lemma DefaultFiltersAreConstructors(rt: Runtime, v: Value)
    ensures Call(rt, Builtin(StringFilter), v) == Call(rt, Native(StringType), v)
    ensures Call(rt, Builtin(NumberFilter), v) == Call(rt, Native(NumberType), v)
    ensures Call(rt, Builtin(BooleanFilter), v) == Call(rt, Native(BooleanType), v)
  {
  }
}

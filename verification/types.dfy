/** The type registry: the seven type kinds, the tokens that name each of
    them, the default filter and validation each kind ships, and `get`. */
module Types {
  import opened Wrappers
  import opened Values

  /** The registry's iteration order (`types` in the source). */
  const Kinds: seq<TypeKind> :=
    [StringType, NumberType, BooleanType, DateType, MixedType, ObjectIdType, ArrayType]

  function CanonicalName(k: TypeKind): string {
    match k
    case StringType => "String"
    case NumberType => "Number"
    case BooleanType => "Boolean"
    case DateType => "Date"
    case MixedType => "Mixed"
    case ObjectIdType => "ObjectId"
    case ArrayType => "Array"
  }

  /** The alternative names; the Array kind has none. */
  function Aliases(k: TypeKind): seq<string> {
    match k
    case StringType => ["string"]
    case NumberType => ["number", "num"]
    case BooleanType => ["boolean", "bool"]
    case DateType => ["date"]
    case MixedType => ["mixed"]
    case ObjectIdType => ["object_id", "id"]
    case ArrayType => []
  }

  /** `id` is one of the tokens of kind `k`: its canonical name, its native
      constructor, or one of its aliases. */
  predicate Names(k: TypeKind, id: Value) {
    id == Str(CanonicalName(k)) || id == Fn(Native(k)) || (id.Str? && id.s in Aliases(k))
  }

  lemma AllKinds()
    ensures forall k: TypeKind :: k in Kinds
  {
    forall k: TypeKind ensures k in Kinds {
      match k
      case StringType => assert Kinds[0] == k;
      case NumberType => assert Kinds[1] == k;
      case BooleanType => assert Kinds[2] == k;
      case DateType => assert Kinds[3] == k;
      case MixedType => assert Kinds[4] == k;
      case ObjectIdType => assert Kinds[5] == k;
      case ArrayType => assert Kinds[6] == k;
    }
  }

  function Search(ks: seq<TypeKind>, id: Value): (r: Option<TypeKind>)
    ensures r.Some? ==> r.value in ks && Names(r.value, id)
    ensures r.None? ==> forall k :: k in ks ==> !Names(k, id)
  {
    if |ks| == 0 then None
    else if Names(ks[0], id) then Some(ks[0])
    else Search(ks[1..], id)
  }

  /** `type.get(id)`: an array literal always resolves to the Array kind;
      otherwise the first kind that `id` names; `None` models `false`. */
  function Get(id: Value): (r: Option<TypeKind>)
    ensures id.Arr? ==> r == Some(ArrayType)
    ensures !id.Arr? && r.Some? ==> Names(r.value, id)
    ensures !id.Arr? ==> (r.None? <==> forall k :: !Names(k, id))
  {
    if id.Arr? then Some(ArrayType)
    else
      AllKinds();
      Search(Kinds, id)
  }

  /** No token names two kinds. */
  lemma {:induction false} TokensDisjoint(k1: TypeKind, k2: TypeKind, id: Value)
    requires Names(k1, id) && Names(k2, id)
    ensures k1 == k2
  {
    match id
    case Fn(_) =>
    case Str(s) =>
      assert s == CanonicalName(k1) || s in Aliases(k1);
      assert s == CanonicalName(k2) || s in Aliases(k2);
      match k1
      case StringType =>
      case NumberType =>
      case BooleanType =>
      case DateType =>
      case MixedType =>
      case ObjectIdType =>
      case ArrayType =>
  }

  /** A canonical name, the native constructor and every alias of a kind
      resolve to that kind. */
  lemma EveryTokenResolves(k: TypeKind, id: Value)
    requires Names(k, id)
    ensures Get(id) == Some(k)
  {
    if Get(id).Some? {
      TokensDisjoint(k, Get(id).value, id);
    }
  }

  /** A type descriptor: the kind's default filter and validation. */
  datatype Descriptor = Descriptor(filter: Option<Addon>, validate: Option<Addon>)

  function DescriptorOf(k: TypeKind): (d: Descriptor)
    ensures k in {DateType, MixedType, ObjectIdType} <==> d.filter.None? && d.validate.None?
    ensures d.filter.Some? ==> k in {StringType, NumberType, BooleanType}
    ensures d.validate.Some? ==> k in {NumberType, ArrayType}
  {
    match k
    case StringType => Descriptor(Some(StringFilter), None)
    case NumberType => Descriptor(Some(NumberFilter), Some(NumberValidator))
    case BooleanType => Descriptor(Some(BooleanFilter), None)
    case ArrayType => Descriptor(None, Some(ArrayValidator))
    case _ => Descriptor(None, None)
  }

  const NotNumberMessage: string := "{field} is not a valid number."
  const NotArrayMessage: string := "{field} is not a valid array."

  /** The Number kind's validation. */
  function ValidateNumber(v: Value): (r: Value)
    ensures r.Undefined? <==> v.Undefined? || (v.Num? && v.n.Finite?)
    ensures !r.Undefined? ==> r == Error(NotNumberMessage)
  {
    if v.Undefined? then Undefined
    else if !v.Num? || !v.n.Finite? then Error(NotNumberMessage)
    else Undefined
  }

  /** The Array kind's validation. */
  function ValidateArray(v: Value): (r: Value)
    ensures r.Undefined? <==> v.Undefined? || v.Arr?
    ensures !r.Undefined? ==> r == Error(NotArrayMessage)
  {
    if !v.Undefined? && !v.Arr? then Error(NotArrayMessage) else Undefined
  }

  /** The String kind's filter. */
  function FilterString(v: Value): (r: Value)
    ensures r.Str?
    ensures v.Str? ==> r == v
  {
    Str(ToText(v))
  }

  /** The Number kind's filter. */
  function FilterNumber(parse: string -> Number, v: Value): (r: Value)
    ensures r.Num?
    ensures v.Num? ==> r == v
  {
    Num(ToNumber(parse, v))
  }

  /** The Boolean kind's filter. */
  function FilterBoolean(v: Value): (r: Value)
    ensures r.Bool?
    ensures Truthy(r) == Truthy(v)
  {
    Bool(Truthy(v))
  }

  /** Each default filter is idempotent: it yields a value of its own kind,
      which it then leaves unchanged. */
  lemma FiltersIdempotent(parse: string -> Number, v: Value)
    ensures FilterString(FilterString(v)) == FilterString(v)
    ensures FilterNumber(parse, FilterNumber(parse, v)) == FilterNumber(parse, v)
    ensures FilterBoolean(FilterBoolean(v)) == FilterBoolean(v)
  {
  }
}

/** The two validators of the library's validation module. A validator
    returns `undefined` when the value passes and an `Error` otherwise; the
    `{field}` placeholder left in the message is filled in later with the
    rule's humanized label. */
module Validation {
  import opened Wrappers
  import opened Values
  import Text

  const RequiredTail: string := " is required."

  /** '{field} is required.' */
  const RequiredMessage: string := "{" + "field" + "}" + RequiredTail

  const EnumMiddle: string := " must be one of those values: "
  const EnumTail: string := " (without the quotes)."

  /** '{field} must be one of those values: {values} (without the quotes).' */
  const EnumTemplate: string := "{" + "field" + "}" + (EnumMiddle + ("{" + "values" + "}" + EnumTail))

  /** `validateRequired(v)`. */
  function ValidateRequired(v: Value): (r: Value)
    ensures r.Undefined? <==> !(v.Undefined? || v.Null?)
    ensures !r.Undefined? ==> r == Error(RequiredMessage)
  {
    if v.Undefined? || v.Null? then Error(RequiredMessage) else Undefined
  }

  /** `0`, `""` and `false` are present values, although they are falsy. */
  lemma RequiredAcceptsFalsy()
    ensures ValidateRequired(Num(Finite(0))) == Undefined
    ensures ValidateRequired(Str("")) == Undefined
    ensures ValidateRequired(Bool(false)) == Undefined
  {
  }

  /** `e.indexOf(v)`: the first position holding a value strictly equal to
      `v`, or -1. */
  function IndexOf(e: seq<Value>, v: Value): (r: int)
    ensures -1 <= r < |e|
    ensures r == -1 <==> forall i :: 0 <= i < |e| ==> !StrictEq(e[i], v)
    ensures r >= 0 ==> StrictEq(e[r], v) && forall i :: 0 <= i < r ==> !StrictEq(e[i], v)
  {
    if |e| == 0 then -1
    else if StrictEq(e[0], v) then 0
    else
      var r := IndexOf(e[1..], v);
      assert forall i :: 0 < i < |e| ==> e[i] == e[1..][i - 1];
      if r == -1 then -1 else r + 1
  }

  /** `e.map(trans)`, with the translator given as a function. */
  function MapValues(trans: Value -> Value, e: seq<Value>): (r: seq<Value>)
    ensures |r| == |e|
    ensures forall i :: 0 <= i < |e| ==> r[i] == trans(e[i])
  {
    if |e| == 0 then [] else [trans(e[0])] + MapValues(trans, e[1..])
  }

  /** The values the failure message shows: translated when a translator
      function was given, the raw list otherwise. */
  function Labels(e: seq<Value>, trans: Option<Value -> Value>): seq<Value> {
    if trans.Some? then MapValues(trans.value, e) else e
  }

  /** '`' + te.join('`, `') + '`'. */
  function Quoted(labels: seq<Value>): string {
    "`" + Text.Join(ItemTexts(labels), "`, `") + "`"
  }

  function EnumMessage(labels: seq<Value>): string {
    Text.Format(EnumTemplate, "values", Quoted(labels))
  }

  /** `validateEnum(e, trans, v)`; `trans` is `Some` exactly when the bound
      translator is a function. */
  function ValidateEnum(e: seq<Value>, trans: Option<Value -> Value>, v: Value): (r: Value)
    ensures r.Undefined? <==> v.Undefined? || exists i :: 0 <= i < |e| && StrictEq(e[i], v)
    ensures !r.Undefined? ==> r == Error(EnumMessage(Labels(e, trans)))
  {
    if !v.Undefined? && IndexOf(e, v) < 0 then Error(EnumMessage(Labels(e, trans)))
    else Undefined
  }

  /** The enumeration message keeps `{field}` for the pipeline and lists the
      quoted labels between the fixed phrases. */
  lemma EnumMessageText(labels: seq<Value>)
    ensures EnumMessage(labels) == "{" + "field" + "}" + (EnumMiddle + (Quoted(labels) + EnumTail))
  {
    Text.FormatSecondPlaceholder("field", EnumMiddle, "values", EnumTail, Quoted(labels));
  }

  /** Without a translator the message shows the entries themselves. */
  lemma EnumMessageUntranslated(e: seq<Value>, v: Value)
    requires !v.Undefined? && forall i :: 0 <= i < |e| ==> !StrictEq(e[i], v)
    ensures ValidateEnum(e, None, v)
         == Error("{" + "field" + "}" + (EnumMiddle + (Quoted(e) + EnumTail)))
  {
    EnumMessageText(e);
  }
}

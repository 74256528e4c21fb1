/** Parsed YAML values, as the condition evaluator sees them. */
module Yaml {
  import opened Options

  /** A YAML number widened to the one numeric type conditions compare in. */
  datatype Number = Finite(r: real) | PosInf | NegInf | NaN

  /** Mapping entries keep their order, because the evaluator walks them in order. */
  datatype Value =
    | Null
    | Bool(b: bool)
    | Num(n: Number)
    | Str(s: string)
    | Sequence(items: seq<Value>)
    | Mapping(entries: seq<(Value, Value)>)
    | Tagged(tag: string, inner: Value)

  /** Accessors look through tags. */
  function Untag(v: Value): Value {
    match v
    case Tagged(_, inner) => Untag(inner)
    case _ => v
  }

  function AsStr(v: Value): Option<string> {
    match Untag(v)
    case Str(s) => Some(s)
    case _ => None
  }

  function AsSequence(v: Value): Option<seq<Value>> {
    match Untag(v)
    case Sequence(items) => Some(items)
    case _ => None
  }

  function AsMapping(v: Value): Option<seq<(Value, Value)>> {
    match Untag(v)
    case Mapping(entries) => Some(entries)
    case _ => None
  }
}

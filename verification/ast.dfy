/** The GraphQL literal syntax tree that a query's filter and sort arguments
    arrive in (the graphql-go language/ast package), reduced to the value
    kinds the gql package inspects. */
module Ast {

  datatype AstValue =
    | AStr(s: string)
    | AInt(raw: string)           // the literal's text, as the lexer kept it
    | AFloat(raw: string)
    | ABool(b: bool)
    | AEnum(name: string)
    | AList(values: seq<AstValue>)
    | AObject(fields: seq<ObjectField>)
    | AVariable(name: string)

  /** One `name: value` entry of an object literal. */
  datatype ObjectField = ObjectField(name: string, value: AstValue)

  /** The kind names of graphql-go's language/kinds package. */
  function KindName(v: AstValue): string {
    match v
    case AStr(_) => "StringValue"
    case AInt(_) => "IntValue"
    case AFloat(_) => "FloatValue"
    case ABool(_) => "BooleanValue"
    case AEnum(_) => "EnumValue"
    case AList(_) => "ListValue"
    case AObject(_) => "ObjectValue"
    case AVariable(_) => "Variable"
  }

  /** Field `i` is the last entry named `key`. */
  predicate IsLast(fields: seq<ObjectField>, i: int, key: string)
    requires 0 <= i < |fields|
  {
    fields[i].name == key && forall j :: i < j < |fields| ==> fields[j].name != key
  }

  predicate NoEntry(fields: seq<ObjectField>, key: string) {
    forall i :: 0 <= i < |fields| ==> fields[i].name != key
  }
}

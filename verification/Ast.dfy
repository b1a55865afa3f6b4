/** The part of the unified AST that describes structs. */
module Ast {

  datatype TypeTag = T_INT32 | T_INT64 | T_STRING | T_BINARY | T_BOOL | T_DOUBLE | T_VOID
                   | T_MAP | T_LIST | T_STRUCT | T_ENUM

  /** `name` is used for structs and enums, `key` for maps, `value` for maps and lists. */
  datatype TypeNode = TypeNode(tag: TypeTag, name: string, key: TypeRef, value: TypeRef)

  datatype TypeRef = Nil | Ref(t: TypeNode)

  datatype FieldNode = FieldNode(name: string, id: int, ty: TypeNode, optional: bool)

  datatype StructNode = StructNode(name: string, fields: seq<FieldNode>, hasFallback: bool)

  function Scalar(tag: TypeTag): TypeNode { TypeNode(tag, "", Nil, Nil) }
}

/** Schemas as the generators see them, and the values of the structs they describe. */
module Schema {
  import opened Bytes

  datatype Option<+T> = None | Some(value: T)

  datatype Kind = Int32 | Int64 | Text | Binary | Bool | Double | Composite

  datatype Field = Field(name: string, id: int, kind: Kind)

  /** Values of Double and Composite fields are opaque: no codec here reads them. */
  datatype Value = Num(n: int) | Data(bytes: seq<byte>) | Flag(on: bool) | Opaque(token: int)

  /** A struct value, keyed by field ID. */
  type Message = map<int, Value>

  predicate HasKind(v: Value, kind: Kind) {
    match kind
    case Int32 => v.Num? && IsInt32(v.n)
    case Int64 => v.Num? && IsInt64(v.n)
    case Text => v.Data? && |v.bytes| < TWO_63
    case Binary => v.Data? && |v.bytes| < TWO_63
    case Bool => v.Flag?
    case Double => v.Opaque?
    case Composite => v.Opaque?
  }

  function Zero(kind: Kind): (v: Value)
    ensures HasKind(v, kind)
  {
    match kind
    case Int32 => Num(0)
    case Int64 => Num(0)
    case Text => Data([])
    case Binary => Data([])
    case Bool => Flag(false)
    case Double => Opaque(0)
    case Composite => Opaque(0)
  }

  predicate DistinctIds(schema: seq<Field>) {
    forall i, j :: 0 <= i < j < |schema| ==> schema[i].id != schema[j].id
  }

  /** `x` is a value of the struct: one well-typed entry per field and no others. */
  predicate Typed(schema: seq<Field>, x: Message) {
    x.Keys == Ids(schema) && forall f :: f in schema ==> f.id in x && HasKind(x[f.id], f.kind)
  }

  function Ids(schema: seq<Field>): set<int> { set f | f in schema :: f.id }

  /** The value of a field; a missing or ill-typed entry reads as the zero value. */
  function Get(x: Message, f: Field): (v: Value)
    ensures HasKind(v, f.kind)
  {
    if f.id in x && HasKind(x[f.id], f.kind) then x[f.id] else Zero(f.kind)
  }

  /** The first field with the given ID. */
  function Lookup(schema: seq<Field>, id: int): (r: Option<Field>)
    ensures r.Some? ==> r.value in schema && r.value.id == id
    ensures r.None? ==> forall f :: f in schema ==> f.id != id
  {
    if schema == [] then None
    else if schema[0].id == id then Some(schema[0])
    else
      var r := Lookup(schema[1..], id);
      assert forall f :: f in schema ==> f == schema[0] || f in schema[1..];
      r
  }

  lemma LookupUnique(schema: seq<Field>, f: Field)
    requires DistinctIds(schema) && f in schema
    ensures Lookup(schema, f.id) == Some(f)
  {
  }

  /** The zero struct of a schema. */
  function ZeroMessage(schema: seq<Field>): (x: Message)
    ensures x.Keys == Ids(schema)
    ensures DistinctIds(schema) ==> forall f :: f in schema ==> x[f.id] == Zero(f.kind)
  {
    map id | id in Ids(schema) :: Zero(Lookup(schema, id).value.kind)
  }
}

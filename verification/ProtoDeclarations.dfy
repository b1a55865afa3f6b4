/** What .proto declarations mean: messages with plain, optional, repeated, map and oneof
    members as lists of tokens, and that the parser reads them as they are meant. */
module ProtoDeclarations {
  import opened Bytes
  import opened Ast
  import opened Decimal
  import opened ProtoText

  /** Unclosed and the like: a map type of which only the first part is there. */
  datatype Shape = Plain(ty: string) | Optional(ty: string) | Repeated(ty: string)
                 | MapOf(key: string, value: string)
                 | MapAlone | MapKey(key: string) | MapUnclosed(key: string, value: string)

  /** Stray: a token in a body that is neither a name nor the closing brace. */
  datatype Item = Member(shape: Shape, name: string, id: int) | OneOf(name: string, inner: seq<Token>)
                | Stray(tok: Token)

  datatype Decl = Decl(name: string, items: seq<Item>)

  // ------------------------------------------------------------------------ tokens

  function ShapeTokens(s: Shape): seq<Token> {
    match s
    case Plain(ty) => [Ident(ty)]
    case Optional(ty) => [Ident("optional"), Ident(ty)]
    case Repeated(ty) => [Ident("repeated"), Ident(ty)]
    case MapOf(k, v) => [Ident("map"), Punct('<'), Ident(k), Punct(','), Ident(v), Punct('>')]
    case MapAlone => [Ident("map")]
    case MapKey(k) => [Ident("map"), Punct('<'), Ident(k)]
    case MapUnclosed(k, v) => [Ident("map"), Punct('<'), Ident(k), Punct(','), Ident(v)]
  }

  function ItemTokens(it: Item): seq<Token> {
    match it
    case Member(s, name, id) => ShapeTokens(s) + [Ident(name), Punct('='), Int(Itoa(id)), Punct(';')]
    case OneOf(name, inner) => [Ident("oneof"), Ident(name), Punct('{')] + inner + [Punct('}')]
    case Stray(tok) => [tok]
  }

  function BodyTokens(items: seq<Item>): seq<Token> {
    if items == [] then [Punct('}')] else ItemTokens(items[0]) + BodyTokens(items[1..])
  }

  function DeclTokens(ds: seq<Decl>): seq<Token> {
    if ds == [] then []
    else [Ident("message"), Ident(ds[0].name), Punct('{')] + BodyTokens(ds[0].items) + DeclTokens(ds[1..])
  }

  // ----------------------------------------------------------------------- meaning

  const SCALARS: map<string, TypeTag> :=
    map["int32" := T_INT32, "i32" := T_INT32, "int64" := T_INT64, "i64" := T_INT64, "string" := T_STRING,
        "bytes" := T_BINARY, "binary" := T_BINARY, "bool" := T_BOOL, "double" := T_DOUBLE]

  function NameMeans(ty: string): TypeNode {
    if ty in SCALARS then Scalar(SCALARS[ty]) else TypeNode(T_STRUCT, ty, Nil, Nil)
  }

  function ShapeMeans(s: Shape): TypeNode {
    match s
    case Plain(ty) => NameMeans(ty)
    case Optional(ty) => NameMeans(ty)
    case Repeated(ty) => TypeNode(T_LIST, "", Nil, Ref(NameMeans(ty)))
    case MapOf(k, v) => TypeNode(T_MAP, "", Ref(NameMeans(k)), Ref(NameMeans(v)))
    case _ => TypeNode(T_STRUCT, "map", Nil, Nil)
  }

  function FieldsMeant(items: seq<Item>): seq<FieldNode> {
    if items == [] then []
    else
      var rest := FieldsMeant(items[1..]);
      match items[0]
      case Member(s, name, id) => [FieldNode(name, id, ShapeMeans(s), s.Optional?)] + rest
      case _ => rest
  }

  predicate IsMapLike(s: Shape) { !s.Plain? && !s.Optional? && !s.Repeated? }

  /** Maps and oneofs cannot be read in place. */
  predicate NeedsFallback(it: Item) {
    it.OneOf? || (it.Member? && IsMapLike(it.shape))
  }

  function Meant(d: Decl): StructNode {
    StructNode(d.name, FieldsMeant(d.items), exists i :: 0 <= i < |d.items| && NeedsFallback(d.items[i]))
  }

  function AllMeant(ds: seq<Decl>): (ss: seq<StructNode>)
    ensures |ss| == |ds|
  {
    seq(|ds|, i requires 0 <= i < |ds| => Meant(ds[i]))
  }

  // -------------------------------------------------------------------- legal forms

  /** Identifiers contain neither angle brackets, commas nor blanks. */
  predicate IsTypeName(s: string) { s != [] && forall i :: 0 <= i < |s| ==> IsIdentPart(s[i]) }

  predicate LegalShape(s: Shape) {
    match s
    case Plain(ty) => IsTypeName(ty) && ty !in {"optional", "repeated", "oneof", "map"}
    case Optional(ty) => IsTypeName(ty) && ty != "map"
    case Repeated(ty) => IsTypeName(ty)
    case MapOf(k, v) => IsTypeName(k) && IsTypeName(v)
    case _ => true
  }

  predicate Legal(it: Item) {
    match it
    case Member(s, _, id) => LegalShape(s) && IsInt32(id)
    case OneOf(_, inner) => Punct('}') !in inner
    case Stray(tok) => !tok.Ident? && tok != Punct('}')
  }

  predicate AllLegal(ds: seq<Decl>) {
    forall i :: 0 <= i < |ds| ==> forall k :: 0 <= k < |ds[i].items| ==> Legal(ds[i].items[k])
  }

  // ----------------------------------------------------------------------- type names

  lemma NoTrim(s: string)
    requires s != [] && !IsBlank(s[0]) && !IsBlank(s[|s| - 1])
    ensures TrimSpace(s) == s
  {
  }

  lemma NamePart(c: char)
    requires IsIdentPart(c)
    ensures !IsBlank(c) && c != '<' && c != '>' && c != ','
  {
  }

  lemma NameNoTrim(s: string)
    requires IsTypeName(s)
    ensures TrimSpace(s) == s && s[|s| - 1] != '>'
    ensures forall i :: 0 <= i < |s| ==> s[i] != ','
  {
    hide IsBlank, IsIdentPart;
    forall i | 0 <= i < |s| ensures !IsBlank(s[i]) && s[i] != '>' && s[i] != ',' {
      NamePart(s[i]);
    }
    NoTrim(s);
  }

  lemma NamedTypeMeans(ty: string)
    ensures NamedType(ty) == NameMeans(ty)
  {
  }

  lemma NameParses(ty: string)
    requires IsTypeName(ty)
    ensures TypeOf(ty) == NameMeans(ty)
  {
    hide IsTypeName, NamedType, NameMeans, TrimSpace;
    NameNoTrim(ty);
    NamedTypeMeans(ty);
  }

  lemma ListParses(ty: string)
    requires IsTypeName(ty)
    ensures TypeOf("list<" + ty + ">") == TypeNode(T_LIST, "", Nil, Ref(NameMeans(ty)))
  {
    hide IsTypeName, NameMeans, TrimSpace, NamedType;
    var s := "list<" + ty + ">";
    NoTrim(s);
    assert ty != [] by { NameNotEmpty(ty); }
    assert s[..5] == "list<" && s[5..|s| - 1] == ty;
    NameParses(ty);
  }

  lemma NameNotEmpty(ty: string)
    requires IsTypeName(ty)
    ensures ty != []
  {
  }

  lemma {:induction false} CommaFound(k: string, v: string)
    requires forall i :: 0 <= i < |k| ==> k[i] != ','
    ensures RunUntil(k + "," + v, ',') == |k|
  {
    var s := k + "," + v;
    if k != [] {
      assert s[1..] == k[1..] + "," + v;
      CommaFound(k[1..], v);
    }
  }

  lemma MapParses(k: string, v: string)
    requires IsTypeName(k) && IsTypeName(v)
    ensures TypeOf("map<" + k + "," + v + ">") == TypeNode(T_MAP, "", Ref(NameMeans(k)), Ref(NameMeans(v)))
  {
    hide IsTypeName, NameMeans, TrimSpace, NamedType, RunUntil, HasPrefix, EndsWith;
    var inner := k + "," + v;
    var s := "map<" + inner + ">";
    assert "map<" + k + "," + v + ">" == s;
    NoTrim(s);
    MapText(inner);
    NameNoTrim(k);
    CommaFound(k, v);
    assert inner[..|k|] == k && inner[|k| + 1..] == v;
    NameParses(k);
    NameParses(v);
  }

  lemma MapText(inner: string)
    ensures var s := "map<" + inner + ">";
            HasPrefix(s, "map<") && EndsWith(s, '>') && s[4..|s| - 1] == inner && !HasPrefix(s, "list<")
  {
    var s := "map<" + inner + ">";
    assert s[..4] == "map<";
    assert |s| >= 5 && s[..5][0] == 'm';
  }

  lemma BareMapParses()
    ensures TypeOf("map") == TypeNode(T_STRUCT, "map", Nil, Nil)
  {
    NoTrim("map");
  }

  // ------------------------------------------------------------------------- members

  /** The type name that the parser puts together for a shape. */
  function TypeText(s: Shape): string {
    match s
    case Plain(ty) => ty
    case Optional(ty) => ty
    case Repeated(ty) => "list<" + ty + ">"
    case MapOf(k, v) => "map<" + k + "," + v + ">"
    case _ => "map"
  }

  lemma ShapeTypeParses(s: Shape)
    requires LegalShape(s)
    ensures TypeOf(TypeText(s)) == ShapeMeans(s)
  {
    hide TypeOf, NameMeans, IsTypeName;
    match s
    case Plain(ty) => NameParses(ty);
    case Optional(ty) => NameParses(ty);
    case Repeated(ty) => ListParses(ty);
    case MapOf(k, v) => MapParses(k, v);
    case _ => BareMapParses();
  }

  lemma MapShapeParses(s: Shape, rest: seq<Token>)
    requires IsMapLike(s) && AtIdent(rest)
    ensures var ts := ShapeTokens(s) + rest;
            ts[0] == Ident("map") && MapType(ts[1..]) == Typed(TypeText(s), rest, true)
  {
    hide MapType;
    var ts := ShapeTokens(s) + rest;
    match s
    case MapOf(k, v) =>
      assert ts[1..] == [Punct('<'), Ident(k), Punct(','), Ident(v)] + ([Punct('>')] + rest);
      MapForm(k, v, [Punct('>')] + rest);
      assert ([Punct('>')] + rest)[1..] == rest;
    case MapAlone =>
      assert ts[1..] == rest;
      NoMapForm(rest);
    case MapKey(k) =>
      assert ts[1..] == [Punct('<'), Ident(k)] + rest;
      KeyForm(k, rest);
    case MapUnclosed(k, v) =>
      assert ts[1..] == [Punct('<'), Ident(k), Punct(','), Ident(v)] + rest;
      MapForm(k, v, rest);
  }

  lemma NoMapForm(rest: seq<Token>)
    requires AtIdent(rest)
    ensures MapType(rest) == Typed("map", rest, true)
  {
  }

  lemma KeyForm(k: string, rest: seq<Token>)
    requires AtIdent(rest)
    ensures MapType([Punct('<'), Ident(k)] + rest) == Typed("map", rest, true)
  {
    var ts := [Punct('<'), Ident(k)] + rest;
    assert Drop(ts) == [Ident(k)] + rest && Drop(Drop(ts)) == rest;
  }

  lemma ShapeParses(s: Shape, rest: seq<Token>)
    requires LegalShape(s) && AtIdent(rest)
    ensures var ts := ShapeTokens(s) + rest;
            && AtIdent(ts) && (ts[0].v == "optional" <==> s.Optional?) && ts[0].v != "oneof"
            && FieldType(ts) == Typed(TypeText(s), rest, IsMapLike(s))
  {
    hide MapType, IsTypeName;
    var ts := ShapeTokens(s) + rest;
    match s
    case Plain(_) => assert ts[1..] == rest;
    case Optional(_) => assert ts[1..][1..] == rest;
    case Repeated(ty) =>
      assert ts[1..][1..] == rest;
      assert ("list<" + ty + ">")[0] == 'l';
    case _ => MapShapeParses(s, rest);
  }

  lemma MapForm(k: string, v: string, rest: seq<Token>)
    ensures MapType([Punct('<'), Ident(k), Punct(','), Ident(v)] + rest)
         == if ProtoText.At(rest, '>') then Typed("map<" + k + "," + v + ">", Drop(rest), true)
            else Typed("map", rest, true)
  {
    var ts := [Punct('<'), Ident(k), Punct(','), Ident(v)] + rest;
    var a := Drop(ts);
    assert a == [Ident(k), Punct(','), Ident(v)] + rest;
    var b := Drop(a);
    assert b == [Punct(','), Ident(v)] + rest;
    var c := Drop(b);
    assert c == [Ident(v)] + rest && Drop(c) == rest;
  }

  lemma MemberParses(s: Shape, name: string, id: int, rest: seq<Token>)
    requires LegalShape(s) && IsInt32(id)
    ensures var ts := ItemTokens(Member(s, name, id)) + rest;
            var f := FieldNode(name, id, ShapeMeans(s), s.Optional?);
            AtIdent(ts) && ParseEntry(ts) == Entry(f, NeedsFallback(Member(s, name, id)), rest)
  {
    hide TypeOf, Atoi, Itoa, FieldType, LegalShape, ShapeTokens, TypeText;
    var tail := [Ident(name), Punct('='), Int(Itoa(id)), Punct(';')] + rest;
    var ts := ItemTokens(Member(s, name, id)) + rest;
    assert ts == ShapeTokens(s) + tail;
    ShapeParses(s, tail);
    ShapeTypeParses(s);
    MapTagged(s);
    AtoiInverse(id);
    InRange(id);
    assert tail[1..][0] == Punct('=') && tail[3..][0] == Punct(';') && tail[4..] == rest;
  }

  lemma InRange(id: int)
    requires IsInt32(id)
    ensures Signed32(id) == id && -MAX_INT64 - 1 <= id <= MAX_INT64
  {
  }

  lemma MapTagged(s: Shape)
    ensures ShapeMeans(s).tag.T_MAP? <==> s.MapOf?
  {
  }

  lemma {:induction false} BraceFound(inner: seq<Token>, rest: seq<Token>)
    requires Punct('}') !in inner
    ensures ToBrace(inner + [Punct('}')] + rest) == [Punct('}')] + rest
  {
    var ts := inner + [Punct('}')] + rest;
    if inner != [] {
      assert ts[1..] == inner[1..] + [Punct('}')] + rest;
      assert ts[0] == inner[0];
      BraceFound(inner[1..], rest);
    } else {
      assert ts == [Punct('}')] + rest;
    }
  }

  lemma OneOfParses(name: string, inner: seq<Token>, rest: seq<Token>)
    requires Punct('}') !in inner
    ensures var ts := ItemTokens(OneOf(name, inner)) + rest;
            AtIdent(ts) && ParseEntry(ts) == Skipped(rest)
  {
    hide ToBrace;
    var ts := ItemTokens(OneOf(name, inner)) + rest;
    var body := inner + [Punct('}')] + rest;
    assert ts == [Ident("oneof"), Ident(name), Punct('{')] + body;
    assert ts[1..] == [Ident(name), Punct('{')] + body;
    assert ts[1..][1..] == [Punct('{')] + body && ([Punct('{')] + body)[1..] == body;
    BraceFound(inner, rest);
    assert ([Punct('}')] + rest)[1..] == rest;
  }

  // ---------------------------------------------------------------------- whole files

  predicate AnyFallback(items: seq<Item>) { exists i :: 0 <= i < |items| && NeedsFallback(items[i]) }

  lemma NoFallback()
    ensures !AnyFallback([])
  {
  }

  lemma AnyCons(it: Item, items: seq<Item>)
    ensures AnyFallback([it] + items) <==> NeedsFallback(it) || AnyFallback(items)
  {
    var all := [it] + items;
    assert all[0] == it && all[1..] == items;
    if i :| 0 <= i < |items| && NeedsFallback(items[i]) {
      assert all[i + 1] == items[i];
    }
  }

  lemma {:induction false} BodyParses(items: seq<Item>, s: StructNode, rest: seq<Token>)
    requires forall k :: 0 <= k < |items| ==> Legal(items[k])
    ensures var meant := StructNode(s.name, s.fields + FieldsMeant(items), s.hasFallback || AnyFallback(items));
            ParseBody(BodyTokens(items) + rest, s) == Message.Message(meant, rest)
  {
    hide ParseEntry, ItemTokens, ShapeMeans, NeedsFallback, LegalShape, AnyFallback;
    var ts := BodyTokens(items) + rest;
    if items == [] {
      assert ts[1..] == rest && s.fields + [] == s.fields;
      NoFallback();
    } else {
      var it, more := items[0], items[1..];
      var tail := BodyTokens(more) + rest;
      assert ts == ItemTokens(it) + tail && items == [it] + more;
      AnyCons(it, more);
      match it
      case Member(shape, name, id) =>
        MemberParses(shape, name, id, tail);
        var f := FieldNode(name, id, ShapeMeans(shape), shape.Optional?);
        var next := s.(fields := s.fields + [f], hasFallback := s.hasFallback || NeedsFallback(it));
        assert ParseBody(ts, s) == ParseBody(tail, next);
        BodyParses(more, next, rest);
        assert s.fields + ([f] + FieldsMeant(more)) == (s.fields + [f]) + FieldsMeant(more);
      case OneOf(name, inner) =>
        OneOfParses(name, inner, tail);
        OneOfNeeds(name, inner);
        var next := s.(hasFallback := true);
        assert ParseBody(ts, s) == ParseBody(tail, next);
        BodyParses(more, next, rest);
      case Stray(tok) =>
        StrayToken(tok, tail);
        BodyParses(more, s, rest);
    }
  }

  lemma OneOfNeeds(name: string, inner: seq<Token>)
    ensures NeedsFallback(OneOf(name, inner))
  {
  }

  lemma StrayToken(tok: Token, tail: seq<Token>)
    ensures !NeedsFallback(Stray(tok))
    ensures var ts := ItemTokens(Stray(tok)) + tail; ts[0] == tok && ts[1..] == tail
  {
  }

  lemma MessageParses(d: Decl, more: seq<Token>)
    requires forall k :: 0 <= k < |d.items| ==> Legal(d.items[k])
    ensures var ts := [Ident("message"), Ident(d.name), Punct('{')] + BodyTokens(d.items) + more;
            ParseMessage(ts[1..]) == Message.Message(Meant(d), more)
  {
    hide ParseBody, BodyTokens, Legal, FieldsMeant, NeedsFallback;
    var body := BodyTokens(d.items) + more;
    var ts := [Ident("message"), Ident(d.name), Punct('{')] + BodyTokens(d.items) + more;
    assert ts[1..] == [Ident(d.name), Punct('{')] + body;
    assert ts[1..][1..] == [Punct('{')] + body && ts[1..][2..] == body;
    var s := StructNode(d.name, [], false);
    BodyParses(d.items, s, more);
    assert s.fields + FieldsMeant(d.items) == FieldsMeant(d.items);
  }

  /** Any messages, declared with any members in any order, parse to structs with exactly the
      fields declared: names, IDs, types and optionality, and a fallback exactly if there is a
      map or a oneof. */
  lemma {:induction false} FileParses(ds: seq<Decl>, ns: string, done: seq<StructNode>)
    requires AllLegal(ds)
    ensures ParseFile(DeclTokens(ds), ns, done) == File(ns, done + AllMeant(ds))
    decreases |ds|
  {
    hide ParseMessage, BodyTokens, Legal, Meant;
    if ds == [] {
      assert done + [] == done;
    } else {
      var d, more := ds[0], DeclTokens(ds[1..]);
      MessageParses(d, more);
      FileParses(ds[1..], ns, done + [Meant(d)]);
      assert AllMeant(ds) == [Meant(d)] + AllMeant(ds[1..]);
      assert done + AllMeant(ds) == (done + [Meant(d)]) + AllMeant(ds[1..]);
    }
  }
}

/** Parsing the migrated schema gives the structs of the Thrift file back. */
module ThriftToProtoLaws {
  import opened Bytes
  import opened Ast
  import opened Decimal
  import opened ProtoText
  import opened ThriftToProto

  // ------------------------------------------------- what a Thrift file declares

  /** The fields declared up to the line that closes the struct. */
  function Fields(lines: seq<Line>): seq<FieldNode> {
    if lines == [] || lines[0].End? then []
    else if lines[0].FieldLine? then [Declared(lines[0])] + Fields(lines[1..])
    else Fields(lines[1..])
  }

  function Declared(l: Line): FieldNode
    requires l.FieldLine?
  {
    FieldNode(l.name, Signed32(Atoi(l.id)), Scalar(MigratedType(l.ty)), false)
  }

  /** The lines behind the one that closes the struct. */
  function After(lines: seq<Line>): (r: seq<Line>)
    ensures |r| <= |lines|
  {
    if lines == [] then [] else if lines[0].End? then lines[1..] else After(lines[1..])
  }

  function Structs(lines: seq<Line>): seq<StructNode>
    decreases |lines|
  {
    if lines == [] then []
    else if lines[0].Start? then
      [StructNode(lines[0].name, Fields(lines[1..]), false)] + Structs(After(lines[1..]))
    else Structs(lines[1..])
  }

  predicate Named(name: string) { name != [] && !IsDigit(name[0]) }

  /** The struct being read is closed and none of its fields has a name starting with a digit. */
  predicate BodyReadable(lines: seq<Line>) {
    && lines != []
    && (lines[0].End? || ((lines[0].FieldLine? ==> Named(lines[0].name)) && BodyReadable(lines[1..])))
  }

  /** Every struct is closed, and no struct or field name starts with a digit. */
  predicate Readable(lines: seq<Line>)
    decreases |lines|
  {
    || lines == []
    || if lines[0].Start? then
         Named(lines[0].name) && BodyReadable(lines[1..]) && Readable(After(lines[1..]))
       else Readable(lines[1..])
  }

  // -------------------------------------------------------- tokens of each piece

  lemma WordIsName(w: string)
    requires IsWord(w) && Named(w)
    ensures IsName(w)
  {
  }

  lemma PlainTypeParses(t: string)
    requires t != [] && !IsBlank(t[0]) && !IsBlank(t[|t| - 1]) && t[|t| - 1] != '>'
    ensures TypeOf(t) == NamedType(t)
  {
    hide NamedType, IsBlank;
    assert TrimSpace(t) == t;
  }

  lemma TypeNamesParse()
    ensures TypeOf("int32") == Scalar(T_INT32) && TypeOf("int64") == Scalar(T_INT64)
    ensures TypeOf("string") == Scalar(T_STRING) && TypeOf("double") == Scalar(T_DOUBLE)
    ensures TypeOf("bool") == Scalar(T_BOOL) && TypeOf("bytes") == Scalar(T_BINARY)
  {
    hide TypeOf;
    PlainTypeParses("int32");
    PlainTypeParses("int64");
    PlainTypeParses("string");
    PlainTypeParses("double");
    PlainTypeParses("bool");
    PlainTypeParses("bytes");
  }

  lemma ProtoTypeParses(ty: string)
    ensures var t := ProtoType(ty);
            && IsName(t) && t != "oneof" && t != "optional" && t != "repeated" && t != "map"
            && TypeOf(t) == Scalar(MigratedType(ty)) && MigratedType(ty) != T_MAP
  {
    hide TypeOf, ToLower;
    TypeNamesParse();
  }

  lemma LexEquals(s: string)
    ensures Tokens(" = " + s) == [Punct('=')] + Tokens(s)
  {
    hide Tokens;
    assert " = " + s == [' '] + (['='] + ([' '] + s));
    LexSpace(' ', ['='] + ([' '] + s));
    LexPunct('=', [' '] + s);
    LexSpace(' ', s);
  }

  lemma LexIndent(s: string)
    ensures Tokens("    " + s) == Tokens(s)
  {
    hide Tokens;
    var s1 := [' '] + s;
    var s2 := [' '] + s1;
    var s3 := [' '] + s2;
    assert "    " + s == [' '] + s3;
    LexSpace(' ', s3);
    LexSpace(' ', s2);
    LexSpace(' ', s1);
    LexSpace(' ', s);
  }

  lemma LexEnd(c: char, s: string)
    requires c == '{' || c == '}' || c == ';'
    ensures Tokens([c, '\n'] + s) == [Punct(c)] + Tokens(s)
  {
    hide Tokens;
    assert [c, '\n'] + s == [c] + (['\n'] + s);
    LexPunct(c, ['\n'] + s);
    LexSpace('\n', s);
  }

  lemma LexWordSpace(w: string, s: string)
    requires IsName(w)
    ensures Tokens(w + ([' '] + s)) == [Ident(w)] + Tokens(s)
  {
    hide Tokens, IsName;
    LexName(w, [' '] + s);
    LexSpace(' ', s);
  }

  function AfterName(id: string, s: string): string { " = " + (id + (";\n" + s)) }

  lemma LexAfterName(id: string, s: string)
    requires IsNumber(id)
    ensures Tokens(AfterName(id, s)) == [Punct('='), Int(id), Punct(';')] + Tokens(s)
  {
    hide Tokens;
    LexEquals(id + (";\n" + s));
    LexDigits(id, ";\n" + s);
    LexEnd(';', s);
  }

  lemma FieldText(id: string, ty: string, name: string, s: string)
    ensures PrintField(id, ty, name) + s == "    " + (ProtoType(ty) + ([' '] + (name + AfterName(id, s))))
  {
    hide ProtoType;
  }

  lemma LexField(id: string, ty: string, name: string, s: string)
    requires IsNumber(id) && IsWord(name)
    ensures var ts := Tokens(PrintField(id, ty, name) + s);
            if Named(name) then
              ts == [Ident(ProtoType(ty)), Ident(name), Punct('='), Int(id), Punct(';')] + Tokens(s)
            else |ts| > 1 && ts[0] == Ident(ProtoType(ty)) && ts[1].Int?
  {
    hide Tokens, ProtoType, AfterName, PrintField, TypeOf, MigratedType, IsNumber;
    var tail := AfterName(id, s);
    FieldText(id, ty, name, s);
    ProtoTypeParses(ty);
    LexIndent(ProtoType(ty) + ([' '] + (name + tail)));
    LexWordSpace(ProtoType(ty), name + tail);
    if Named(name) {
      WordIsName(name);
      StopsAfterName(id, s);
      LexName(name, tail);
      LexAfterName(id, s);
    } else {
      LexDigitFirst(name + tail);
    }
  }

  lemma StopsAfterName(id: string, s: string)
    ensures Stops(AfterName(id, s))
  {
  }

  // -------------------------------------------------------------------- parsing

  lemma ParseField(l: Line, rest: seq<Line>)
    requires l.FieldLine?
    ensures var ts := Tokens(PrintField(l.id, l.ty, l.name) + Render(rest, true));
            && AtIdent(ts)
            && ParseEntry(ts) == (if Named(l.name) then Entry(Declared(l), false, Tokens(Render(rest, true)))
                                  else BadEntry)
  {
    hide Tokens, ProtoType, PrintField, TypeOf, MigratedType, Render, Named;
    LexField(l.id, l.ty, l.name, Render(rest, true));
    ProtoTypeParses(l.ty);
    var ts := Tokens(PrintField(l.id, l.ty, l.name) + Render(rest, true));
    assert FieldType(ts) == Typed(ProtoType(l.ty), ts[1..], false);
    if Named(l.name) {
      assert ts[1..][4..] == Tokens(Render(rest, true));
    }
  }

  lemma {:induction false} ParseStructBody(lines: seq<Line>, name: string, done: seq<FieldNode>)
    ensures ParseBody(Tokens(Render(lines, true)), StructNode(name, done, false))
         == (if BodyReadable(lines)
             then Message(StructNode(name, done + Fields(lines), false), Tokens(Render(After(lines), false)))
             else BadMessage)
  {
    hide Tokens, PrintField, ParseEntry, Named, Declared;
    if lines == [] {
      NoTokens();
    } else if lines[0].End? {
      var rest := lines[1..];
      LexClose(Render(rest, false));
      assert done + [] == done;
    } else if lines[0].FieldLine? {
      var l, rest := lines[0], lines[1..];
      ParseField(l, rest);
      ParseStructBody(rest, name, done + [Declared(l)]);
      assert (done + [Declared(l)]) + Fields(rest) == done + Fields(lines);
    } else {
      ParseStructBody(lines[1..], name, done);
    }
  }

  lemma NoTokens()
    ensures Tokens("") == []
  {
  }

  lemma LexClose(s: string)
    ensures Tokens(CLOSE + s) == [Punct('}')] + Tokens(s)
  {
    hide Tokens;
    assert CLOSE + s == ['}', '\n'] + (['\n'] + s);
    LexEnd('}', ['\n'] + s);
    LexSpace('\n', s);
  }

  lemma MessageIsName()
    ensures IsName("message") && IsName("syntax") && IsName("package") && IsName("helix.migrated")
  {
  }

  lemma LexStart(name: string, s: string)
    requires IsWord(name)
    ensures var ts := Tokens(PrintStart(name) + s);
            if Named(name) then ts == [Ident("message"), Ident(name), Punct('{')] + Tokens(s)
            else |ts| > 1 && ts[0] == Ident("message") && ts[1].Int?
  {
    hide Tokens, IsName;
    var tail := [' '] + ("{\n" + s);
    assert PrintStart(name) + s == "message" + ([' '] + (name + tail));
    MessageIsName();
    LexWordSpace("message", name + tail);
    if Named(name) {
      WordIsName(name);
      LexWordSpace(name, "{\n" + s);
      LexEnd('{', s);
    } else {
      LexDigitFirst(name + tail);
    }
  }

  lemma {:induction false} ParseStructs(lines: seq<Line>, ns: string, done: seq<StructNode>)
    ensures ParseFile(Tokens(Render(lines, false)), ns, done)
         == (if Readable(lines) then File(ns, done + Structs(lines)) else ParseError)
    decreases |lines|
  {
    hide Tokens, PrintStart, ParseBody, Named, Fields, After, BodyReadable;
    if lines == [] {
      NoTokens();
      assert done + [] == done;
    } else if lines[0].Start? {
      var name, rest := lines[0].name, lines[1..];
      LexStart(name, Render(rest, true));
      ParseStructBody(rest, name, []);
      var s := StructNode(name, Fields(rest), false);
      assert [] + Fields(rest) == Fields(rest);
      if Named(name) && BodyReadable(rest) {
        ParseStructs(After(rest), ns, done + [s]);
        assert (done + [s]) + Structs(After(rest)) == done + Structs(lines);
      }
    } else {
      ParseStructs(lines[1..], ns, done);
    }
  }

  lemma LexSyntax(s: string)
    ensures Tokens("syntax = \"proto3\";\n\n" + s)
         == [Ident("syntax"), Punct('='), Str("proto3"), Punct(';')] + Tokens(s)
  {
    hide Tokens, IsName;
    var s1 := [';', '\n'] + (['\n'] + s);
    var s2 := "\"" + "proto3" + "\"" + s1;
    assert "syntax = \"proto3\";\n\n" + s == "syntax" + (" = " + s2);
    MessageIsName();
    LexName("syntax", " = " + s2);
    LexEquals(s2);
    LexQuoted("proto3", s1);
    LexEnd(';', ['\n'] + s);
    LexSpace('\n', s);
  }

  lemma LexPackage(s: string)
    ensures Tokens("package helix.migrated;\n\n" + s)
         == [Ident("package"), Ident("helix.migrated"), Punct(';')] + Tokens(s)
  {
    hide Tokens, IsName;
    var s1 := [';', '\n'] + (['\n'] + s);
    assert "package helix.migrated;\n\n" + s == "package" + ([' '] + ("helix.migrated" + s1));
    MessageIsName();
    LexWordSpace("package", "helix.migrated" + s1);
    LexName("helix.migrated", s1);
    LexEnd(';', ['\n'] + s);
    LexSpace('\n', s);
  }

  lemma OneLine()
    ensures forall i :: 0 <= i < |BANNER| ==> BANNER[i] != '\n'
  {
    assert '\n' !in BANNER;
  }

  lemma LexPrelude(s: string)
    ensures Tokens(Prelude(s))
         == [Ident("syntax"), Punct('='), Str("proto3"), Punct(';'),
             Ident("package"), Ident("helix.migrated"), Punct(';')] + Tokens(s)
  {
    hide Tokens;
    var s1 := "package helix.migrated;\n\n" + s;
    OneLine();
    LexComment(BANNER, "syntax = \"proto3\";\n\n" + s1);
    LexSyntax(s1);
    LexPackage(s);
  }

  /** The migrated file parses exactly when every struct of the Thrift file is closed and
      every name starts with a letter or underscore; then it declares the same structs with
      the same fields in the same order, none of them marked for the fallback. */
  lemma MigrationExactly(lines: seq<Line>)
    ensures ParseProto(Prelude(Render(lines, false)))
         == (if Readable(lines) then File("helix.migrated", Structs(lines)) else ParseError)
  {
    hide Tokens, Prelude, Render, Readable, Structs;
    var ts := Tokens(Render(lines, false));
    LexPrelude(Render(lines, false));
    ParsePrelude(ts);
    ParseStructs(lines, "helix.migrated", []);
    assert [] + Structs(lines) == Structs(lines);
  }

  lemma ParsePrelude(ts: seq<Token>)
    ensures ParseFile([Ident("syntax"), Punct('='), Str("proto3"), Punct(';'),
                       Ident("package"), Ident("helix.migrated"), Punct(';')] + ts, "", [])
         == ParseFile(ts, "helix.migrated", [])
  {
    var t1 := [Ident("package"), Ident("helix.migrated"), Punct(';')] + ts;
    var t0 := [Ident("syntax"), Punct('='), Str("proto3"), Punct(';')] + t1;
    assert [Ident("syntax"), Punct('='), Str("proto3"), Punct(';'),
            Ident("package"), Ident("helix.migrated"), Punct(';')] + ts == t0;
    assert t0[4..] == t1 && t1[3..] == ts;
    assert ParseFile(t0, "", []) == ParseFile(t1, "", []);
    assert ParseFile(t1, "", []) == ParseFile(ts, "helix.migrated", []);
  }

  // ----------------------------------------------------- every schema round trips

  predicate IsScalar(t: TypeNode) {
    t == Scalar(t.tag) && t.tag in {T_INT32, T_INT64, T_STRING, T_DOUBLE, T_BOOL, T_BINARY}
  }

  /** The structs Thrift IDL of this kind can declare. */
  predicate Declarable(f: FieldNode) {
    IsWord(f.name) && Named(f.name) && 0 <= f.id < TWO_31 && IsScalar(f.ty) && !f.optional
  }

  predicate DeclarableStruct(s: StructNode) {
    && IsWord(s.name) && Named(s.name) && !s.hasFallback
    && forall i :: 0 <= i < |s.fields| ==> Declarable(s.fields[i])
  }

  type PlainStruct = s: StructNode | DeclarableStruct(s) witness StructNode("S", [], false)

  function ThriftType(t: TypeTag): string {
    match t
    case T_INT32 => "i32"
    case T_INT64 => "i64"
    case T_DOUBLE => "double"
    case T_BOOL => "bool"
    case T_BINARY => "binary"
    case _ => "string"
  }

  lemma ThriftTypeIsWord(t: TypeTag)
    ensures IsWord(ThriftType(t))
  {
  }

  lemma ThriftTypeMigrates(t: TypeTag)
    requires IsScalar(Scalar(t))
    ensures MigratedType(ThriftType(t)) == t
  {
    var w := ThriftType(t);
    assert ToLower(w) == w;
  }

  function LineOf(f: FieldNode): Line
    requires Declarable(f)
  {
    ThriftTypeIsWord(f.ty.tag);
    FieldLine(Itoa(f.id), ThriftType(f.ty.tag), f.name)
  }

  lemma LineDeclares(f: FieldNode)
    requires Declarable(f)
    ensures Declared(LineOf(f)) == f
  {
    hide MigratedType, ThriftType;
    AtoiInverse(f.id);
    ThriftTypeMigrates(f.ty.tag);
  }

  function BodyLines(fs: seq<FieldNode>, tail: seq<Line>): seq<Line>
    requires forall i :: 0 <= i < |fs| ==> Declarable(fs[i])
  {
    if fs == [] then [End] + tail else [LineOf(fs[0])] + BodyLines(fs[1..], tail)
  }

  function ThriftLines(structs: seq<PlainStruct>): seq<Line> {
    if structs == [] then []
    else [Start(structs[0].name)] + BodyLines(structs[0].fields, ThriftLines(structs[1..]))
  }

  lemma {:induction false} BodyDeclares(fs: seq<FieldNode>, tail: seq<Line>)
    requires forall i :: 0 <= i < |fs| ==> Declarable(fs[i])
    ensures var b := BodyLines(fs, tail); Fields(b) == fs && After(b) == tail && BodyReadable(b)
    decreases |fs|
  {
    hide LineOf, Declared;
    if fs != [] {
      BodyDeclares(fs[1..], tail);
      LineDeclares(fs[0]);
      LineKeepsName(fs[0]);
      assert BodyLines(fs, tail)[1..] == BodyLines(fs[1..], tail);
    } else {
      assert BodyLines(fs, tail)[1..] == tail;
    }
  }

  lemma LineKeepsName(f: FieldNode)
    requires Declarable(f)
    ensures LineOf(f).FieldLine? && LineOf(f).name == f.name
  {
  }

  lemma {:induction false} FileDeclares(structs: seq<PlainStruct>)
    ensures Structs(ThriftLines(structs)) == structs && Readable(ThriftLines(structs))
    decreases |structs|
  {
    hide BodyLines, Fields, After, BodyReadable;
    if structs != [] {
      var tail := ThriftLines(structs[1..]);
      var lines := ThriftLines(structs);
      assert lines[1..] == BodyLines(structs[0].fields, tail);
      BodyDeclares(structs[0].fields, tail);
      FileDeclares(structs[1..]);
    }
  }

  /** Every list of structs with identifier names, the six scalar types and field IDs from
      0 to 2^31 - 1 comes back unchanged through the migration and the parser. */
  lemma SchemaRoundTrip(structs: seq<PlainStruct>)
    ensures ParseProto(Prelude(Render(ThriftLines(structs), false))) == File("helix.migrated", structs)
  {
    hide Tokens, Prelude, Render, Readable, Structs, ThriftLines;
    FileDeclares(structs);
    MigrationExactly(ThriftLines(structs));
  }

  /** A struct named `1st` is printed, and the printed file does not parse. */
  lemma DigitNameFails()
    ensures ParseProto(Prelude(Render([Start("1st"), End], false))) == ParseError
  {
    hide Prelude, Render, ParseProto;
    var lines: seq<Line> := [Start("1st"), End];
    assert !Readable(lines);
    MigrationExactly(lines);
  }
}

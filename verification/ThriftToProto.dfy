/** TranspileThriftToProto as a printer of .proto text, and that the parser reads back
    what it printed.  The regular expressions that recognise a line are an input: a line
    is given by what they extract from it. */
module ThriftToProto {
  import opened Ast
  import opened Decimal
  import opened ProtoText

  datatype Match = Start(name: string) | End | FieldLine(id: string, ty: string, name: string) | Other

  predicate IsWordChar(c: char) { 'a' <= c <= 'z' || 'A' <= c <= 'Z' || IsDigit(c) || c == '_' }

  predicate IsWord(s: string) { s != [] && forall i :: 0 <= i < |s| ==> IsWordChar(s[i]) }

  predicate IsNumber(s: string) { s != [] && AllDigits(s) }

  /** What the patterns can capture from a line of Thrift IDL. */
  predicate Captured(l: Match) {
    match l
    case Start(name) => IsWord(name)
    case FieldLine(id, ty, name) => IsNumber(id) && IsWord(ty) && IsWord(name)
    case _ => true
  }

  type Line = l: Match | Captured(l) witness Other

  function LowerChar(c: char): char {
    if 'A' <= c <= 'Z' then (c as int + 32) as char else c
  }

  function ToLower(s: string): (r: string)
    ensures |r| == |s|
  {
    seq(|s|, i requires 0 <= i < |s| => LowerChar(s[i]))
  }

  /** mapThriftTypeToProto. */
  function ProtoType(t: string): string {
    var l := ToLower(t);
    if l == "i16" || l == "i32" then "int32"
    else if l == "i64" then "int64"
    else if l == "string" then "string"
    else if l == "double" then "double"
    else if l == "bool" then "bool"
    else if l == "binary" then "bytes"
    else "string"
  }

  /** The type a Thrift type name stands for after the migration. */
  function MigratedType(t: string): TypeTag {
    var l := ToLower(t);
    if l == "i16" || l == "i32" then T_INT32
    else if l == "i64" then T_INT64
    else if l == "double" then T_DOUBLE
    else if l == "bool" then T_BOOL
    else if l == "binary" then T_BINARY
    else T_STRING
  }

  /** The same letters, whatever the case of `t`; `lower` has no capitals. */
  predicate Reads(t: string, lower: string) {
    |t| == |lower| && forall i :: 0 <= i < |t| ==>
      t[i] == lower[i] || ('A' <= t[i] <= 'Z' && 'a' <= lower[i] <= 'z' && t[i] - 'A' == lower[i] - 'a')
  }

  lemma LowerReads(t: string, lower: string)
    requires forall i :: 0 <= i < |lower| ==> !('A' <= lower[i] <= 'Z')
    ensures ToLower(t) == lower <==> Reads(t, lower)
  {
    var l := ToLower(t);
    if l == lower {
      forall i | 0 <= i < |t|
        ensures t[i] == lower[i] || ('A' <= t[i] <= 'Z' && 'a' <= lower[i] <= 'z' && t[i] - 'A' == lower[i] - 'a')
      {
        assert l[i] == LowerChar(t[i]);
      }
    }
    if Reads(t, lower) {
      forall i | 0 <= i < |t| ensures l[i] == lower[i] {
      }
    }
  }

  /** Type names are recognised in any case, and any other name stands for a string. */
  lemma TypesExactly(t: string)
    ensures MigratedType(t) == T_INT32 <==> Reads(t, "i16") || Reads(t, "i32")
    ensures MigratedType(t) == T_INT64 <==> Reads(t, "i64")
    ensures MigratedType(t) == T_DOUBLE <==> Reads(t, "double")
    ensures MigratedType(t) == T_BOOL <==> Reads(t, "bool")
    ensures MigratedType(t) == T_BINARY <==> Reads(t, "binary")
    ensures MigratedType(t) in {T_INT32, T_INT64, T_DOUBLE, T_BOOL, T_BINARY, T_STRING}
  {
    hide Reads, ToLower;
    LowerReads(t, "i16");
    LowerReads(t, "i32");
    LowerReads(t, "i64");
    LowerReads(t, "double");
    LowerReads(t, "bool");
    LowerReads(t, "binary");
  }

  // --------------------------------------------------------------------- printing

  const BANNER: string := " Automatically transpiled from " + "Thrift by Helix RPC. DO NOT EDIT."

  function Prelude(rest: string): string {
    "//" + BANNER + "\n" + ("syntax = \"proto3\";\n\n" + ("package helix.migrated;\n\n" + rest))
  }

  function PrintStart(name: string): string { "message " + name + " {\n" }

  function PrintField(id: string, ty: string, name: string): string {
    "    " + ProtoType(ty) + " " + name + " = " + id + ";\n"
  }

  const CLOSE: string := "}\n\n"

  /** What is printed for the lines, starting outside or inside a struct. */
  function Render(lines: seq<Line>, inStruct: bool): string {
    if lines == [] then ""
    else
      var rest := lines[1..];
      match lines[0]
      case Start(name) => if inStruct then Render(rest, true) else PrintStart(name) + Render(rest, true)
      case End => if inStruct then CLOSE + Render(rest, false) else Render(rest, false)
      case FieldLine(id, ty, name) =>
        if inStruct then PrintField(id, ty, name) + Render(rest, true) else Render(rest, false)
      case Other => Render(rest, inStruct)
  }

  method Transpile(lines: seq<Line>) returns (sb: string)
    ensures sb == Prelude(Render(lines, false))
  {
    hide PrintStart, PrintField;
    sb := "//" + BANNER + "\n";
    sb := sb + "syntax = \"proto3\";\n\n";
    sb := sb + "package helix.migrated;\n\n";
    assert sb + Render(lines, false) == Prelude(Render(lines, false));
    var inStruct := false;
    for k := 0 to |lines|
      invariant sb + Render(lines[k..], inStruct) == Prelude(Render(lines, false))
    {
      var line := lines[k];
      ghost var rest := lines[k + 1..];
      assert lines[k..][0] == line && lines[k..][1..] == rest;
      if !inStruct {
        if line.Start? {
          assert sb + (PrintStart(line.name) + Render(rest, true)) == (sb + PrintStart(line.name)) + Render(rest, true);
          inStruct := true;
          sb := sb + PrintStart(line.name);
        }
      } else if line.End? {
        assert sb + (CLOSE + Render(rest, false)) == (sb + CLOSE) + Render(rest, false);
        inStruct := false;
        sb := sb + CLOSE;
      } else if line.FieldLine? {
        ghost var piece := PrintField(line.id, line.ty, line.name);
        assert sb + (piece + Render(rest, true)) == (sb + piece) + Render(rest, true);
        sb := sb + PrintField(line.id, line.ty, line.name);
      }
    }
    assert lines[|lines|..] == [] && sb + "" == sb;
  }

  // ---------------------------------------------------------------------- lexing

  lemma LexSpace(c: char, s: string)
    requires IsSpace(c)
    ensures Tokens([c] + s) == Tokens(s)
  {
    assert ([c] + s)[1..] == s;
    assert SkipSpace([c] + s) == SkipSpace(s);
  }

  lemma LexPunct(c: char, s: string)
    requires c == '{' || c == '}' || c == '=' || c == ';'
    ensures Tokens([c] + s) == [Punct(c)] + Tokens(s)
  {
    var t := [c] + s;
    assert t[1..] == s && SkipSpace(t) == t;
    assert NextToken(t) == Lexed(Punct(c), s);
  }

  /** A name the lexer reads as one identifier. */
  predicate IsName(s: string) {
    s != [] && IsIdentStart(s[0]) && forall i :: 0 <= i < |s| ==> IsIdentPart(s[i])
  }

  predicate Stops(s: string) { s == [] || !IsIdentPart(s[0]) }

  lemma {:induction false} IdentRunIs(a: string, s: string)
    requires (forall i :: 0 <= i < |a| ==> IsIdentPart(a[i])) && Stops(s)
    ensures IdentRun(a + s) == |a|
  {
    if a != [] {
      assert (a + s)[1..] == a[1..] + s;
      IdentRunIs(a[1..], s);
    } else {
      assert a + s == s;
    }
  }

  lemma LexName(name: string, s: string)
    requires IsName(name) && Stops(s)
    ensures Tokens(name + s) == [Ident(name)] + Tokens(s)
  {
    var t := name + s;
    hide IsLetter;
    IdentRunIs(name, s);
    assert t[0] == name[0];
    NameIsNoSpace(t[0]);
    assert SkipSpace(t) == t;
    assert t[..|name|] == name && t[|name|..] == s;
    assert NextToken(t) == Lexed(Ident(name), s);
  }

  lemma NameIsNoSpace(c: char)
    requires IsIdentStart(c)
    ensures !IsSpace(c) && c != '/'
  {
  }

  lemma {:induction false} DigitRunIs(a: string, s: string)
    requires AllDigits(a) && Stops(s)
    ensures DigitRun(a + s) == |a|
  {
    if a != [] {
      assert (a + s)[1..] == a[1..] + s;
      DigitRunIs(a[1..], s);
    } else {
      assert a + s == s;
    }
  }

  lemma LexDigits(id: string, s: string)
    requires id != [] && AllDigits(id) && Stops(s)
    ensures Tokens(id + s) == [Int(id)] + Tokens(s)
  {
    var t := id + s;
    assert t[0] == id[0] && IsDigit(t[0]);
    assert SkipSpace(t) == t;
    assert t[1..] == id[1..] + s;
    DigitRunIs(id[1..], s);
    assert t[..|id|] == id && t[|id|..] == s;
    assert NextToken(t) == Lexed(Int(id), s);
  }

  /** Text that starts with a digit starts with a number token. */
  lemma LexDigitFirst(t: string)
    requires t != [] && IsDigit(t[0])
    ensures Tokens(t) != [] && Tokens(t)[0].Int?
  {
    assert SkipSpace(t) == t;
  }

  lemma {:induction false} RunUntilIs(a: string, stop: char, s: string)
    requires (forall i :: 0 <= i < |a| ==> a[i] != stop) && s != [] && s[0] == stop
    ensures RunUntil(a + s, stop) == |a|
  {
    if a != [] {
      assert (a + s)[1..] == a[1..] + s;
      RunUntilIs(a[1..], stop, s);
    } else {
      assert a + s == s;
    }
  }

  lemma LexComment(text: string, s: string)
    requires forall i :: 0 <= i < |text| ==> text[i] != '\n'
    ensures Tokens("//" + text + "\n" + s) == Tokens(s)
  {
    var t := "//" + text + "\n" + s;
    var tail := ['\n'] + s;
    assert t == "//" + (text + tail);
    assert SkipSpace(t) == t && IsComment(t) && t[2..] == text + tail;
    RunUntilIs(text, '\n', tail);
    assert t[2 + |text|..] == tail;
    assert NextToken(t) == NextToken(tail);
    LexSpace('\n', s);
  }

  /** A comment may end with the text. */
  lemma {:induction false} LexLastComment(text: string)
    requires forall i :: 0 <= i < |text| ==> text[i] != '\n'
    ensures Tokens("//" + text) == []
  {
    var t := "//" + text;
    assert SkipSpace(t) == t && IsComment(t) && t[2..] == text;
    RunToEnd(text, '\n');
    assert t[2 + |text|..] == [];
    assert NextToken(t) == NextToken([]);
  }

  lemma {:induction false} RunToEnd(a: string, stop: char)
    requires forall i :: 0 <= i < |a| ==> a[i] != stop
    ensures RunUntil(a, stop) == |a|
  {
    if a != [] {
      RunToEnd(a[1..], stop);
    }
  }

  lemma LexQuoted(text: string, s: string)
    requires forall i :: 0 <= i < |text| ==> text[i] != '"'
    ensures Tokens("\"" + text + "\"" + s) == [Str(text)] + Tokens(s)
  {
    var t := "\"" + text + "\"" + s;
    var tail := ['"'] + s;
    assert t == ['"'] + (text + tail);
    assert t[0] == '"' && SkipSpace(t) == t && t[1..] == text + tail;
    RunUntilIs(text, '"', tail);
    assert t[1..1 + |text|] == text && t[1 + |text|..] == tail && tail[1..] == s;
    assert NextToken(t) == Lexed(Str(text), s);
  }
}

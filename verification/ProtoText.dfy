/** The hand-written lexer and parser for .proto files, as far as syntax, package and
    message definitions go. */
module ProtoText {
  import opened Bytes
  import opened Ast
  import opened Decimal

  // ----------------------------------------------------------------------- lexer

  datatype Token = Eof | Ident(v: string) | Int(v: string) | Str(v: string) | Punct(c: char)

  /** unicode.IsLetter of a single byte taken as a rune: ASCII and Latin-1 letters. */
  predicate IsLetter(c: char) {
    var n := c as int;
    || 65 <= n <= 90 || 97 <= n <= 122
    || n == 0xAA || n == 0xB5 || n == 0xBA
    || 0xC0 <= n <= 0xD6 || 0xD8 <= n <= 0xF6 || 0xF8 <= n <= 0xFF
  }

  predicate IsIdentStart(c: char) { IsLetter(c) || c == '_' }

  predicate IsIdentPart(c: char) { IsLetter(c) || IsDigit(c) || c == '_' || c == '.' }

  predicate IsSpace(c: char) { c == ' ' || c == '\t' || c == '\n' || c == '\r' }

  function SkipSpace(s: string): (r: string)
    ensures |r| <= |s| && (r != [] ==> !IsSpace(r[0]))
  {
    if s != [] && IsSpace(s[0]) then SkipSpace(s[1..]) else s
  }

  /** Length of the run of identifier characters at the front. */
  function IdentRun(s: string): (n: nat)
    ensures n <= |s|
  {
    if s != [] && IsIdentPart(s[0]) then 1 + IdentRun(s[1..]) else 0
  }

  function DigitRun(s: string): (n: nat)
    ensures n <= |s|
  {
    if s != [] && IsDigit(s[0]) then 1 + DigitRun(s[1..]) else 0
  }

  /** Length of the run before the first `stop`. */
  function RunUntil(s: string, stop: char): (n: nat)
    ensures n <= |s|
  {
    if s != [] && s[0] != stop then 1 + RunUntil(s[1..], stop) else 0
  }

  datatype Lexed = Lexed(tok: Token, rest: string)

  predicate IsComment(t: string) { |t| > 1 && t[0] == '/' && t[1] == '/' }

  /** The token at the front of text that starts with neither space nor comment. */
  function TokenAt(t: string): (r: Lexed)
    requires t != []
    ensures |r.rest| < |t| && !r.tok.Eof?
  {
    if IsIdentStart(t[0]) then
      assert IsIdentPart(t[0]);
      Lexed(Ident(t[..IdentRun(t)]), t[IdentRun(t)..])
    else if IsDigit(t[0]) || t[0] == '-' then
      var n := 1 + DigitRun(t[1..]);
      Lexed(Int(t[..n]), t[n..])
    else if t[0] == '"' || t[0] == '\'' then
      var n := RunUntil(t[1..], t[0]);
      var rest := t[1 + n..];
      Lexed(Str(t[1..1 + n]), if rest == [] then rest else rest[1..])
    else Lexed(Punct(t[0]), t[1..])
  }

  /** The first token of `s` and what follows it. */
  function NextToken(s: string): (r: Lexed)
    ensures |r.rest| <= |s| && (!r.tok.Eof? ==> |r.rest| < |s|)
    ensures r.tok.Eof? ==> r.rest == []
    decreases |s|
  {
    var t := SkipSpace(s);
    if t == [] then Lexed(Eof, [])
    else if IsComment(t) then NextToken(t[2 + RunUntil(t[2..], '\n')..])
    else TokenAt(t)
  }

  /** All tokens before the end of the text. */
  function Tokens(s: string): seq<Token>
    decreases |s|
  {
    var r := NextToken(s);
    if r.tok.Eof? then [] else [r.tok] + Tokens(r.rest)
  }

  class Lexer {
    const input: string
    var pos: nat

    ghost predicate Valid()
      reads this
    {
      pos <= |input|
    }

    constructor (input: string)
      ensures Valid() && this.input == input && pos == 0
    {
      this.input := input;
      pos := 0;
    }

    method SkipWhitespace()
      requires Valid()
      modifies this
      ensures Valid() && input[pos..] == SkipSpace(input[old(pos)..])
    {
      while pos < |input| && IsSpace(input[pos])
        invariant pos <= |input| && SkipSpace(input[pos..]) == SkipSpace(input[old(pos)..])
      {
        assert input[pos..][1..] == input[pos + 1..];
        pos := pos + 1;
      }
    }

    /** The loops over a run of characters: identifier characters, digits, or anything up
        to a stop character. */
    method TakeIdent()
      requires Valid()
      modifies this
      ensures pos == old(pos) + IdentRun(input[old(pos)..])
    {
      while pos < |input| && IsIdentPart(input[pos])
        invariant old(pos) <= pos <= |input|
        invariant pos + IdentRun(input[pos..]) == old(pos) + IdentRun(input[old(pos)..])
      {
        assert input[pos..][1..] == input[pos + 1..];
        pos := pos + 1;
      }
    }

    method TakeDigits()
      requires Valid()
      modifies this
      ensures pos == old(pos) + DigitRun(input[old(pos)..])
    {
      while pos < |input| && IsDigit(input[pos])
        invariant old(pos) <= pos <= |input|
        invariant pos + DigitRun(input[pos..]) == old(pos) + DigitRun(input[old(pos)..])
      {
        assert input[pos..][1..] == input[pos + 1..];
        pos := pos + 1;
      }
    }

    method TakeUntil(stop: char)
      requires Valid()
      modifies this
      ensures pos == old(pos) + RunUntil(input[old(pos)..], stop)
    {
      while pos < |input| && input[pos] != stop
        invariant old(pos) <= pos <= |input|
        invariant pos + RunUntil(input[pos..], stop) == old(pos) + RunUntil(input[old(pos)..], stop)
      {
        assert input[pos..][1..] == input[pos + 1..];
        pos := pos + 1;
      }
    }

    /** A quoted string; the closing quote may be missing. */
    method ReadString(quote: char) returns (val: string)
      requires Valid() && pos < |input|
      modifies this
      ensures Valid()
      ensures var t, n := input[old(pos)..], RunUntil(input[old(pos)..][1..], quote);
              && val == t[1..1 + n]
              && input[pos..] == if t[1 + n..] == [] then [] else t[1 + n..][1..]
    {
      hide RunUntil;
      var start := pos;
      SliceAt(input, start, 1);
      pos := pos + 1;
      TakeUntil(quote);
      SliceAt(input, start, pos - start);
      val := input[start + 1..pos];
      assert val == input[start..][1..pos - start];
      if pos < |input| {
        SliceAt(input, pos, 1);
        pos := pos + 1;
      }
    }

    /** The branches of nextToken that produce a token. */
    method ReadToken() returns (tok: Token)
      requires Valid() && pos < |input|
      modifies this
      ensures Valid() && TokenAt(input[old(pos)..]) == Lexed(tok, input[pos..])
    {
      hide IdentRun, DigitRun, RunUntil, IsLetter;
      var ch, start := input[pos], pos;
      SliceAt(input, start, 1);
      if IsLetter(ch) || ch == '_' {
        TakeIdent();
        SliceAt(input, start, pos - start);
        tok := Ident(input[start..pos]);
      } else if IsDigit(ch) || ch == '-' {
        pos := pos + 1;
        TakeDigits();
        SliceAt(input, start, pos - start);
        tok := Int(input[start..pos]);
      } else if ch == '"' || ch == '\'' {
        var val := ReadString(ch);
        tok := Str(val);
      } else {
        pos := pos + 1;
        tok := Punct(ch);
      }
    }

    method Next() returns (tok: Token)
      requires Valid()
      modifies this
      ensures Valid() && NextToken(input[old(pos)..]) == Lexed(tok, input[pos..])
      decreases |input| - pos
    {
      hide TokenAt, SkipSpace, RunUntil;
      SkipWhitespace();
      if pos >= |input| {
        return Eof;
      }
      ghost var start := pos;
      SliceAt(input, pos, 0);
      if input[pos] == '/' && pos + 1 < |input| && input[pos + 1] == '/' {
        SliceAt(input, pos, 2);
        pos := pos + 2;
        TakeUntil('\n');
        SliceAt(input, start, pos - start);
        tok := Next();
        return;
      }
      tok := ReadToken();
    }
  }

  lemma SliceAt(input: string, start: nat, k: nat)
    requires start + k <= |input|
    ensures input[start..][..k] == input[start..start + k] && input[start..][k..] == input[start + k..]
  {
  }

  // ---------------------------------------------------------------------- parser

  /** A token list stands for the current token and all that follow; empty is end of file. */
  function Drop(ts: seq<Token>): seq<Token> { if ts == [] then [] else ts[1..] }

  function Text(ts: seq<Token>): string {
    if ts == [] then ""
    else
      match ts[0]
      case Ident(v) => v
      case Int(v) => v
      case Str(v) => v
      case Punct(c) => [c]
      case Eof => ""
  }

  predicate At(ts: seq<Token>, c: char) { ts != [] && ts[0] == Punct(c) }

  predicate AtIdent(ts: seq<Token>) { ts != [] && ts[0].Ident? }

  /** Everything up to a closing brace. */
  function ToBrace(ts: seq<Token>): (r: seq<Token>)
    ensures |r| <= |ts|
  {
    if ts == [] || At(ts, '}') then ts else ToBrace(ts[1..])
  }

  predicate HasPrefix(s: string, p: string) { |p| <= |s| && s[..|p|] == p }

  predicate EndsWith(s: string, c: char) { s != [] && s[|s| - 1] == c }

  predicate IsBlank(c: char) { IsSpace(c) || c as int == 11 || c as int == 12 }

  function TrimLeft(s: string): (r: string)
    ensures |r| <= |s|
  {
    if s != [] && IsBlank(s[0]) then TrimLeft(s[1..]) else s
  }

  function TrimSpace(s: string): (r: string)
    ensures |r| <= |s|
  {
    if s != [] && IsBlank(s[|s| - 1]) then TrimSpace(s[..|s| - 1]) else TrimLeft(s)
  }

  function NamedType(s: string): TypeNode {
    if s == "int32" || s == "i32" then Scalar(T_INT32)
    else if s == "int64" || s == "i64" then Scalar(T_INT64)
    else if s == "string" then Scalar(T_STRING)
    else if s == "bytes" || s == "binary" then Scalar(T_BINARY)
    else if s == "bool" then Scalar(T_BOOL)
    else if s == "double" then Scalar(T_DOUBLE)
    else TypeNode(T_STRUCT, s, Nil, Nil)
  }

  /** parseTypeNode. */
  function TypeOf(text: string): TypeNode
    decreases |text|
  {
    var s := TrimSpace(text);
    if HasPrefix(s, "list<") && EndsWith(s, '>') && |s| > 5 then
      TypeNode(T_LIST, "", Nil, Ref(TypeOf(s[5..|s| - 1])))
    else if HasPrefix(s, "map<") && EndsWith(s, '>') && |s| > 4
            && RunUntil(s[4..|s| - 1], ',') < |s[4..|s| - 1]| then
      var inner := s[4..|s| - 1];
      var n := RunUntil(inner, ',');
      TypeNode(T_MAP, "", Ref(TypeOf(inner[..n])), Ref(TypeOf(inner[n + 1..])))
    else NamedType(s)
  }

  /** A type name as far as read, the tokens behind it, and whether a map was seen. */
  datatype Typed = Typed(name: string, rest: seq<Token>, isMap: bool)

  /** `map<key, value>`: whatever part of it is there is consumed. */
  function MapType(ts: seq<Token>): (r: Typed)
    ensures |r.rest| <= |ts|
  {
    if !At(ts, '<') then Typed("map", ts, true)
    else
      var a := Drop(ts);
      var b := Drop(a);
      if !At(b, ',') then Typed("map", b, true)
      else
        var c := Drop(b);
        var d := Drop(c);
        if !At(d, '>') then Typed("map", d, true)
        else Typed("map<" + Text(a) + "," + Text(c) + ">", Drop(d), true)
  }

  function FieldType(ts: seq<Token>): (r: Typed)
    requires AtIdent(ts)
    ensures |r.rest| < |ts|
  {
    var v := ts[0].v;
    var (name, at) := if v == "optional" then (Text(ts[1..]), ts[1..])
                      else if v == "repeated" then ("list<" + Text(ts[1..]) + ">", ts[1..])
                      else (v, ts);
    if name == "map" then MapType(Drop(at)) else Typed(name, Drop(at), false)
  }

  datatype Entry = Skipped(rest: seq<Token>) | Entry(f: FieldNode, isMap: bool, rest: seq<Token>) | BadEntry

  /** One item of a message body that starts with an identifier. */
  function ParseEntry(ts: seq<Token>): (r: Entry)
    requires AtIdent(ts)
    ensures !r.BadEntry? ==> |r.rest| < |ts|
  {
    if ts[0].v == "oneof" then
      var r1 := ts[1..];
      var r2 := if AtIdent(r1) then r1[1..] else r1;
      Skipped(if At(r2, '{') then Drop(ToBrace(r2[1..])) else r2)
    else
      var t := FieldType(ts);
      var r := t.rest;
      if !AtIdent(r) || !At(r[1..], '=') || !(|r| > 2 && r[2].Int?) || !At(r[3..], ';') then BadEntry
      else
        Entry(FieldNode(r[0].v, Signed32(Atoi(r[2].v)), TypeOf(t.name), ts[0].v == "optional"),
              t.isMap || TypeOf(t.name).tag.T_MAP?, r[4..])
  }

  datatype Message = Message(s: StructNode, rest: seq<Token>) | BadMessage

  function ParseBody(ts: seq<Token>, s: StructNode): (r: Message)
    ensures r.Message? ==> |r.rest| < |ts|
    decreases |ts|
  {
    if ts == [] then BadMessage
    else if At(ts, '}') then Message(s, ts[1..])
    else if !AtIdent(ts) then ParseBody(ts[1..], s)
    else
      match ParseEntry(ts)
      case BadEntry => BadMessage
      case Skipped(rest) => ParseBody(rest, s.(hasFallback := true))
      case Entry(f, isMap, rest) =>
        ParseBody(rest, s.(fields := s.fields + [f], hasFallback := s.hasFallback || isMap))
  }

  /** What follows the keyword `message`. */
  function ParseMessage(ts: seq<Token>): (r: Message)
    ensures r.Message? ==> |r.rest| < |ts|
  {
    if !AtIdent(ts) || !At(ts[1..], '{') then BadMessage
    else ParseBody(ts[2..], StructNode(ts[0].v, [], false))
  }

  /** Foreign: an enum or service definition, which this model does not parse. */
  datatype Parsed = File(namespace: string, structs: seq<StructNode>) | ParseError | Foreign

  function ParseFile(ts: seq<Token>, ns: string, structs: seq<StructNode>): Parsed
    decreases |ts|
  {
    if ts == [] then File(ns, structs)
    else if !AtIdent(ts) then ParseFile(ts[1..], ns, structs)
    else if ts[0].v == "syntax" then
      if !At(ts[1..], '=') || !(|ts| > 2 && ts[2].Str?) || !At(ts[3..], ';') then ParseError
      else ParseFile(ts[4..], ns, structs)
    else if ts[0].v == "package" then
      if !AtIdent(ts[1..]) || !At(ts[2..], ';') then ParseError
      else ParseFile(ts[3..], ts[1].v, structs)
    else if ts[0].v == "message" then
      match ParseMessage(ts[1..])
      case BadMessage => ParseError
      case Message(s, rest) => ParseFile(rest, ns, structs + [s])
    else if ts[0].v == "enum" || ts[0].v == "service" then Foreign
    else ParseFile(ts[1..], ns, structs)
  }

  /** ParseProto on the text of a file. */
  function ParseProto(content: string): Parsed { ParseFile(Tokens(content), "", []) }
}

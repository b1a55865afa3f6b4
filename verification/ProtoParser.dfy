/** The recursive-descent parser as it runs: one token of lookahead over the lexer. */
module ProtoParser {
  import opened Bytes
  import opened Ast
  import opened Decimal
  import opened ProtoText

  class Parser {
    const lex: Lexer
    var tok: Token

    ghost predicate Valid()
      reads this, lex
    {
      lex.Valid() && (tok.Eof? ==> lex.pos == |lex.input|)
    }

    /** The current token and all that follow. */
    ghost function Rest(): (ts: seq<Token>)
      reads this, lex
      requires Valid()
      ensures ts != [] ==> ts[0] == tok
      ensures ts == [] <==> tok.Eof?
    {
      if tok.Eof? then [] else [tok] + Tokens(lex.input[lex.pos..])
    }

    constructor (content: string)
      ensures Valid() && fresh(lex) && Rest() == Tokens(content)
    {
      var l := new Lexer(content);
      var t := l.Next();
      assert content[0..] == content;
      assert t.Eof? ==> content[l.pos..] == [];
      lex, tok := l, t;
    }

    method Advance()
      requires Valid()
      modifies this, lex
      ensures Valid() && Rest() == Drop(old(Rest()))
    {
      hide NextToken;
      EmptyLexes();
      ghost var before := lex.input[lex.pos..];
      assert tok.Eof? ==> before == [];
      tok := lex.Next();
      assert tok.Eof? ==> lex.input[lex.pos..] == [];
    }

    /** The text of the current token, empty at the end of the file. */
    method Current() returns (v: string)
      requires Valid()
      ensures v == Text(Rest())
    {
      match tok {
        case Eof => v := "";
        case Ident(s) => v := s;
        case Int(s) => v := s;
        case Str(s) => v := s;
        case Punct(c) => v := [c];
      }
    }

    method ReadMapType() returns (name: string)
      requires Valid()
      modifies this, lex
      ensures Valid() && MapType(old(Rest())) == Typed(name, Rest(), true)
    {
      hide Tokens;
      name := "map";
      if tok == Punct('<') {
        Advance();
        var key := Current();
        Advance();
        if tok == Punct(',') {
          Advance();
          var value := Current();
          Advance();
          if tok == Punct('>') {
            Advance();
            name := "map<" + key + "," + value + ">";
          }
        }
      }
    }

    method ReadFieldType() returns (name: string, isMap: bool)
      requires Valid() && tok.Ident?
      modifies this, lex
      ensures Valid() && FieldType(old(Rest())) == Typed(name, Rest(), isMap)
    {
      hide Tokens, MapType;
      name := tok.v;
      isMap := false;
      if name == "optional" {
        Advance();
        name := Current();
      } else if name == "repeated" {
        Advance();
        name := Current();
        name := "list<" + name + ">";
      }
      Advance();
      if name == "map" {
        name := ReadMapType();
        isMap := true;
      }
    }

    method SkipOneof()
      requires Valid() && tok.Ident? && tok.v == "oneof"
      modifies this, lex
      ensures Valid() && ParseEntry(old(Rest())) == Skipped(Rest())
    {
      hide Tokens, FieldType;
      Advance();
      if tok.Ident? {
        Advance();
      }
      if tok == Punct('{') {
        Advance();
        ghost var body := Rest();
        while !tok.Eof? && tok != Punct('}')
          invariant Valid() && ToBrace(Rest()) == ToBrace(body)
          decreases |Rest()|
        {
          Advance();
        }
        Advance();
      }
    }

    /** A field definition; `ok` is false where the parser returns an error. */
    method ReadField() returns (f: FieldNode, isMap: bool, ok: bool)
      requires Valid() && tok.Ident? && tok.v != "oneof"
      modifies this, lex
      ensures Valid()
      ensures ok ==> ParseEntry(old(Rest())) == Entry(f, isMap, Rest())
      ensures !ok ==> ParseEntry(old(Rest())).BadEntry?
    {
      hide Tokens, FieldType, TypeOf, Atoi, Signed32;
      var optional := tok.v == "optional";
      var name;
      name, isMap := ReadFieldType();
      var ty := TypeOf(name);
      f := FieldNode("", 0, ty, optional);
      ghost var r := Rest();
      if !tok.Ident? { return f, isMap, false; }
      var fieldName := tok.v;
      Advance();
      if tok != Punct('=') { return f, isMap, false; }
      Advance();
      if !tok.Int? { return f, isMap, false; }
      var tag := Atoi(tok.v);
      Advance();
      if tok != Punct(';') { return f, isMap, false; }
      Advance();
      assert r[1..][1..] == r[2..] && r[2..][1..] == r[3..] && r[3..][1..] == r[4..];
      f := FieldNode(fieldName, Signed32(tag), ty, optional);
      isMap := isMap || ty.tag.T_MAP?;
      ok := true;
    }

    /** What follows the keyword `message`; `ok` is false where the parser returns an error. */
    method ReadMessage() returns (s: StructNode, ok: bool)
      requires Valid()
      modifies this, lex
      ensures Valid()
      ensures ok ==> ParseMessage(old(Rest())) == Message(s, Rest())
      ensures !ok ==> ParseMessage(old(Rest())).BadMessage?
    {
      hide Tokens, ParseEntry;
      s := StructNode("", [], false);
      ghost var all := Rest();
      if !tok.Ident? { return s, false; }
      s := StructNode(tok.v, [], false);
      Advance();
      if tok != Punct('{') { return s, false; }
      Advance();
      assert all[1..][1..] == all[2..];
      ghost var body, s0 := Rest(), s;
      while !tok.Eof? && tok != Punct('}')
        invariant Valid() && ParseBody(Rest(), s) == ParseBody(body, s0)
        decreases |Rest()|
      {
        ghost var before := Rest();
        if tok.Ident? {
          if tok.v == "oneof" {
            SkipOneof();
            s := s.(hasFallback := true);
          } else {
            var f, isMap, good := ReadField();
            if !good { return s, false; }
            s := s.(fields := s.fields + [f], hasFallback := s.hasFallback || isMap);
          }
        } else {
          Advance();
        }
        assert |Rest()| < |before|;
      }
      if tok.Eof? { return s, false; }
      Advance();
      ok := true;
    }

    method ParseAll() returns (r: Parsed)
      requires Valid()
      modifies this, lex
      ensures r == ParseFile(old(Rest()), "", [])
    {
      hide Tokens, ParseMessage;
      var ns: string, structs: seq<StructNode> := "", [];
      while !tok.Eof?
        invariant Valid() && ParseFile(Rest(), ns, structs) == ParseFile(old(Rest()), "", [])
        decreases |Rest()|
      {
        ghost var ts := Rest();
        if tok == Ident("syntax") {
          Advance();
          if tok != Punct('=') { return ParseError; }
          Advance();
          if !tok.Str? { return ParseError; }
          Advance();
          if tok != Punct(';') { return ParseError; }
          Advance();
          assert ts[1..][1..] == ts[2..] && ts[2..][1..] == ts[3..] && ts[3..][1..] == ts[4..];
        } else if tok == Ident("package") {
          Advance();
          if !tok.Ident? { return ParseError; }
          var pkg := tok.v;
          Advance();
          if tok != Punct(';') { return ParseError; }
          Advance();
          assert ts[1..][1..] == ts[2..] && ts[2..][1..] == ts[3..];
          ns := pkg;
        } else if tok == Ident("message") {
          Advance();
          var s, ok := ReadMessage();
          if !ok { return ParseError; }
          structs := structs + [s];
        } else if tok == Ident("enum") || tok == Ident("service") {
          return Foreign;
        } else {
          Advance();
        }
      }
      return File(ns, structs);
    }
  }

  lemma EmptyLexes()
    ensures NextToken([]) == Lexed(Eof, [])
  {
  }

  /** ParseProto: lexer and parser together. */
  method Parse(content: string) returns (r: Parsed)
    ensures r == ParseProto(content)
  {
    var p := new Parser(content);
    r := p.ParseAll();
  }
}

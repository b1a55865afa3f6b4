/** What a message means to the Python code: the records it consists of, the fields they
    give, and how such records are spelled.  Fields are numbered by position from 1; their
    declared kind says how the payload is laid out, for other numbers the wire type does. */
module PythonRecords {
  import opened Bytes
  import opened Schema
  import Varint

  datatype Content = Integer(v: nat) | Chunk(bytes: seq<byte>) | Skipped

  datatype Record = Record(num: nat, content: Content)

  predicate IsBytes(kind: Kind) { kind.Text? || kind.Binary? }

  predicate Declared(schema: seq<Field>, num: nat) { 1 <= num <= |schema| }

  /** A varint, a length with that many bytes, or a number of bytes to skip. */
  datatype Layout = Plain | Prefixed | Fixed(size: nat)

  function LayoutOf(schema: seq<Field>, num: nat, wire: nat): Layout {
    if Declared(schema, num) then (if IsBytes(schema[num - 1].kind) then Prefixed else Plain)
    else match wire
         case 0 => Plain
         case 1 => Fixed(8)
         case 2 => Prefixed
         case 5 => Fixed(4)
         case _ => Fixed(0)
  }

  /** At most the first `n` bytes. */
  function UpTo(s: seq<byte>, n: nat): seq<byte> { if n < |s| then s[..n] else s }

  datatype OneRecord = Broken | One(r: Record, next: nat)

  function ParseRecord(schema: seq<Field>, buf: seq<byte>, i: nat): (p: OneRecord)
    ensures p.One? ==> p.next > i
  {
    var tag := Varint.Decode(buf, i);
    if tag.Eof? then Broken
    else
      var num, layout := tag.value / 8, LayoutOf(schema, tag.value / 8, tag.value % 8);
      if layout.Fixed? then One(Record(num, Skipped), tag.next + layout.size)
      else
        var head := Varint.Decode(buf, tag.next);
        if head.Eof? then Broken
        else if layout.Plain? then One(Record(num, Integer(head.value)), head.next)
        else One(Record(num, Chunk(UpTo(buf[head.next..], head.value))), head.next + head.value)
  }

  datatype Parsed = Malformed | Records(rs: seq<Record>)

  function Cons(r: Record, p: Parsed): Parsed {
    if p.Malformed? then Malformed else Records([r] + p.rs)
  }

  function Parse(schema: seq<Field>, buf: seq<byte>, i: nat): Parsed
    decreases |buf| - i
  {
    if i >= |buf| then Records([])
    else
      match ParseRecord(schema, buf, i)
      case Broken => Malformed
      case One(r, next) => Cons(r, Parse(schema, buf, next))
  }

  // ------------------------------------------------------------- what records mean

  /** The contents of the records with number `num`, in order. */
  function Occurrences(rs: seq<Record>, num: nat): seq<Content> {
    if rs == [] then [] else (if rs[0].num == num then [rs[0].content] else []) + Occurrences(rs[1..], num)
  }

  /** The value a field has by one record. */
  function Meaning(kind: Kind, c: Content): Value {
    match c
    case Integer(v) => if kind.Bool? then Flag(v != 0) else Num(v)
    case Chunk(bytes) => Data(bytes)
    case Skipped => Default(kind)
  }

  function Default(kind: Kind): Value {
    if IsBytes(kind) then Data([]) else if kind.Bool? then Flag(false) else Num(0)
  }

  /** The value of a field by all records: that of the last one with its number, or the
      default. */
  function FieldValue(schema: seq<Field>, rs: seq<Record>, num: nat): Value
    requires Declared(schema, num)
  {
    var kind, cs := schema[num - 1].kind, Occurrences(rs, num);
    if cs == [] then Default(kind) else Meaning(kind, cs[|cs| - 1])
  }

  // --------------------------------------------------------------------- spelling

  function Spell(r: Record): seq<byte> {
    match r.content
    case Integer(v) => Varint.Encode(r.num * 8) + Varint.Encode(v)
    case Chunk(bytes) => Varint.Encode(r.num * 8 + 2) + (Varint.Encode(|bytes|) + bytes)
    case Skipped => []
  }

  function SpellAll(rs: seq<Record>): seq<byte> {
    if rs == [] then [] else Spell(rs[0]) + SpellAll(rs[1..])
  }

  /** The content is of the declared kind; a number that is not declared may have any. */
  predicate Fits(schema: seq<Field>, r: Record) {
    !r.content.Skipped? && (Declared(schema, r.num) ==> (r.content.Chunk? <==> IsBytes(schema[r.num - 1].kind)))
  }

  predicate AllFit(schema: seq<Field>, rs: seq<Record>) {
    forall k :: 0 <= k < |rs| ==> Fits(schema, rs[k])
  }

  lemma ParseSpelled(schema: seq<Field>, r: Record, buf: seq<byte>, i: nat)
    requires Fits(schema, r) && At(buf, i, Spell(r))
    ensures ParseRecord(schema, buf, i) == One(r, i + |Spell(r)|)
  {
    hide Varint.Encode, Varint.Decode, At;
    match r.content
    case Integer(v) =>
      AtConcat(buf, i, Varint.Encode(r.num * 8), Varint.Encode(v));
      Varint.DecodeEncoded(buf, i, r.num * 8);
      Varint.DecodeEncoded(buf, i + |Varint.Encode(r.num * 8)|, v);
    case Chunk(bytes) =>
      var tag, size := Varint.Encode(r.num * 8 + 2), Varint.Encode(|bytes|);
      AtConcat(buf, i, tag, size + bytes);
      AtConcat(buf, i + |tag|, size, bytes);
      Varint.DecodeEncoded(buf, i, r.num * 8 + 2);
      Varint.DecodeEncoded(buf, i + |tag|, |bytes|);
      UpToLength(buf, i + |tag| + |size|, bytes);
  }

  lemma UpToLength(buf: seq<byte>, k: nat, bytes: seq<byte>)
    requires At(buf, k, bytes)
    ensures k <= |buf| && UpTo(buf[k..], |bytes|) == bytes
  {
  }

  /** Records that fit the schema, in any order and number, parse as they were spelled. */
  lemma {:induction false} ParsesAsSpelled(schema: seq<Field>, rs: seq<Record>, buf: seq<byte>, i: nat)
    requires AllFit(schema, rs) && i <= |buf| && buf[i..] == SpellAll(rs)
    ensures Parse(schema, buf, i) == Records(rs)
    decreases |rs|
  {
    hide Spell, ParseRecord, Fits;
    if rs != [] {
      var r, n := rs[0], |Spell(rs[0])|;
      assert buf[i..][..n] == Spell(r) && buf[i..][n..] == SpellAll(rs[1..]);
      assert At(buf, i, Spell(r)) && buf[i + n..] == buf[i..][n..];
      ParseSpelled(schema, r, buf, i);
      assert n > 0;
      ParsesAsSpelled(schema, rs[1..], buf, i + n);
    }
  }
}

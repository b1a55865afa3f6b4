/** What the Java transpiler's output means to a Thrift reader. */
module JavaTranspilerLaws {
  import opened Bytes
  import opened Schema
  import opened ThriftCompact
  import opened ZigZagBits
  import opened GoLazy
  import opened JavaTranspiler
  import opened KnownRecords
  import GoProto
  import Varint

  /** Well-formed protobuf: records of wire type 0 or 2 that end inside the buffer, with
      varints of at most ten bytes. */
  predicate WellFormed(buf: seq<byte>, i: nat)
    decreases |buf| - i
  {
    i < |buf| ==>
      var p := ParseRecord(buf, i);
      p.One? && !p.r.content.Past? && ShortVarints(buf, i) && WellFormed(buf, p.next)
  }

  predicate ShortVarints(buf: seq<byte>, i: nat) {
    var tag := Varint.Decode(buf, i);
    tag.Got? && tag.next <= i + 10 &&
    var v := Varint.Decode(buf, tag.next);
    v.Got? && v.next <= tag.next + 10
  }

  lemma {:induction false} WellFormedParses(buf: seq<byte>, i: nat)
    requires WellFormed(buf, i)
    ensures Parse(buf, i).Records?
    decreases |buf| - i
  {
    if i < |buf| {
      WellFormedParses(buf, ParseRecord(buf, i).next);
    }
  }

  // ---------------------------------------------------------------- one record

  lemma ShortReads(buf: seq<byte>, i: nat)
    requires ShortVarints(buf, i)
    ensures ReadLong(buf, i, 0, 0) == Varint.Decode64(buf, i)
    ensures var j := Varint.Decode64(buf, i).next; ReadLong(buf, j, 0, 0) == Varint.Decode64(buf, j)
  {
    ReadLongIsDecode(buf, i, i, 0);
    var j := Varint.Decode(buf, i).next;
    ReadLongIsDecode(buf, j, j, 0);
  }

  lemma LengthInRange(k: nat, v: u64, limit: nat)
    requires limit < TWO_31 && k <= GoProto.PostIndex(k, v) <= limit
    ensures Signed32(v) == v && GoProto.PostIndex(k, v) == k + v && Signed32(k + Signed32(v)) == k + v
  {
    assert Signed64(v) == v || Signed64(v) == v - TWO_64;
    assert k + Signed64(v) >= -TWO_63;
  }

  /** A string, known or not, whose length of up to 2^31 - 1 runs past the end of the buffer
      makes the transpiler throw. */
  lemma PastEndThrows(schema: seq<Field>, buf: seq<byte>, i: nat, last: int, out: seq<byte>)
    requires |buf| < TWO_31 && ShortVarints(buf, i)
    requires var p := ParseRecord(buf, i);
             && p.One? && p.r.content.Past?
             && var f := Lookup(schema, p.r.num); f.None? || f.value.kind.Text?
    requires Varint.Decode(buf, Varint.Decode(buf, i).next).value < TWO_31
    ensures Transpile(schema, buf, i, last, out) == Throws
  {
    hide ReadLong, Lookup, Varint.Encode, Varint.Decode, Header, Signed32, GoProto.PostIndex, ShortVarints,
         Zig32, Zig64;
    ShortReads(buf, i);
    var tag := Varint.Decode64(buf, i);
    var head := Varint.Decode(buf, tag.next);
    PastBothWays(head.next, head.value, |buf|);
  }

  /** The end of such a string, added up in 32 bits, is past the buffer or negative. */
  lemma PastBothWays(k: nat, v: nat, limit: nat)
    requires k <= limit < TWO_31 && v < TWO_31
    ensures v % TWO_64 == Unsigned64(v) == v && Signed32(v) == v && GoProto.PostIndex(k, v) == k + v
    ensures k + v > limit ==> Signed32(k + v) < 0 || Signed32(k + v) > limit
  {
  }

  /** The item of a known record appended, or nothing for an unknown one. */
  function StepOn(schema: seq<Field>, p: OneRecord, last: int, out: seq<byte>): Step
    requires p.One?
  {
    match Lookup(schema, p.r.num)
    case Some(f) => Go(p.next, f.id, out + ItemBytes(ItemOf(Known(f, p.r.content), ForJava), last))
    case None => Go(p.next, last, out)
  }

  /** On a well-formed record the loop writes its item, or nothing if it is unknown. */
  lemma StepWritesItem(schema: WireSchema, buf: seq<byte>, i: nat, last: int, out: seq<byte>)
    requires i < |buf| < TWO_31 && ShortVarints(buf, i)
    requires ParseRecord(buf, i).One? && !ParseRecord(buf, i).r.content.Past?
    requires FitsSchema(schema, ParseRecord(buf, i).r)
    ensures TranspileStep(schema, buf, i, last, out) == StepOn(schema, ParseRecord(buf, i), last, out)
  {
    hide Signed64, Signed32, GoProto.PostIndex, ReadLong, Zig64, Zig32, Lookup, Varint.Encode, Header, ShortVarints,
      Varint.Decode64;
    ShortReads(buf, i);
    var tag := Varint.Decode64(buf, i);
    var v := Varint.Decode64(buf, tag.next);
    if tag.value % 8 == 2 {
      LengthInRange(v.next, v.value, |buf|);
      var chunk := buf[v.next..v.next + v.value];
      assert |chunk| == v.value;
    }
  }

  /** The whole output: the items of the known records in order, then STOP. */
  lemma {:induction false} WritesKnownItems(schema: WireSchema, buf: seq<byte>, i: nat, last: int, out: seq<byte>)
    requires |buf| < TWO_31 && WellFormed(buf, i)
    requires Parse(buf, i).Records? && Accepts(schema, Parse(buf, i).rs)
    ensures Transpile(schema, buf, i, last, out)
         == Written(out + Output(KnownOf(schema, Parse(buf, i).rs), last, ForJava))
    decreases |buf| - i
  {
    hide TranspileStep, ParseRecord, ShortVarints, FitsSchema, Lookup, ItemBytes;
    if i < |buf| {
      var r, next := ParseRecord(buf, i).r, ParseRecord(buf, i).next;
      WellFormedParses(buf, next);
      var rs := Parse(buf, next).rs;
      assert ([r] + rs)[1..] == rs;
      AcceptsCons(schema, r, rs);
      StepWritesItem(schema, buf, i, last, out);
      match Lookup(schema, r.num) {
        case None =>
          WritesKnownItems(schema, buf, next, last, out);
        case Some(f) =>
          var k, ks := Known(f, r.content), KnownOf(schema, rs);
          var bytes := ItemBytes(ItemOf(k, ForJava), last);
          WritesKnownItems(schema, buf, next, f.id, out + bytes);
          OutputCons(k, ks, last, ForJava);
          assert (out + bytes) + Output(ks, f.id, ForJava) == out + (bytes + Output(ks, f.id, ForJava));
      }
    }
  }

  // ------------------------------------------------------------- the whole claim

  /** For every well-formed message the transpiler's output reads as exactly the known
      records, in order and with their signed values and bytes, if and only if the known
      IDs climb by 1 to 15 and the int32 values fit 32 bits. */
  lemma PreservesMeaningExactly(schema: WireSchema, buf: seq<byte>)
    requires |buf| < TWO_31 && ThriftSchema(schema) && WellFormed(buf, 0)
    requires Parse(buf, 0).Records? && Accepts(schema, Parse(buf, 0).rs)
    ensures var ks, r := KnownOf(schema, Parse(buf, 0).rs), Transpile(schema, buf, 0, 0, []);
            && r.Written?
            && (ReadStruct(r.out, 0, 0) == Struct(Fields(ks), |r.out|) <==> Climbs(ks) && Int32sFit(ks))
  {
    hide Parse, WellFormed, Accepts, KnownOf, Transpile, ReadStruct, Output, Climbs, Int32sFit, Fields;
    var ks := KnownOf(schema, Parse(buf, 0).rs);
    KnownFits(schema, Parse(buf, 0).rs);
    WritesKnownItems(schema, buf, 0, 0, []);
    ReadBackExactly(ks, ForJava);
    assert [] + Output(ks, 0, ForJava) == Output(ks, 0, ForJava);
  }

  // ------------------------------------------------------------ a message that fails

  /** The integer 1 in field 16 is written behind a long header ... */
  lemma FieldSixteen()
    ensures Transpile([Field("n", 16, Int64)], [128, 1, 1], 0, 0, []) == Written([6, 0, 16, 2, 0])
  {
    hide Zig64, ReadLong;
    var schema, buf: seq<byte> := [Field("n", 16, Int64)], [128, 1, 1];
    assert Varint.Decode(buf, 1) == Varint.Got(1, 2) && Varint.Decode(buf, 2) == Varint.Got(1, 3);
    assert Varint.Decode(buf, 0) == Varint.Got(128, 2);
    ReadLongIsDecode(buf, 0, 0, 0);
    ReadLongIsDecode(buf, 2, 2, 0);
    Zig64IsZigZag(1);
    assert TranspileStep(schema, buf, 0, 0, []) == Go(3, 16, [6, 0, 16, 2]);
  }

  /** ... and a Thrift reader finds no struct there. */
  lemma FieldSixteenReads()
    ensures ReadStruct([6, 0, 16, 2, 0], 0, 0) == Invalid
  {
    var out: seq<byte> := [6, 0, 16, 2, 0];
    assert ReadStruct(out, 5, 0) == Invalid;
    assert ReadStruct(out, 3, 0) == Invalid;
    assert ReadHead(out, 0, 0) == Head(0, T_I64, 2) && ReadBody(out, 2, T_I64) == Body(TI64(8), 3);
  }
}

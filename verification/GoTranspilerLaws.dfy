/** What the Go transpiler's output means to a Thrift reader. */
module GoTranspilerLaws {
  import opened Bytes
  import opened Schema
  import opened ThriftCompact
  import opened ZigZagBits
  import opened GoLazy
  import opened GoTranspiler
  import opened KnownRecords
  import GoProto
  import Varint

  /** A record as the transpiler sees it, its number cut to 16 bits. */
  function Cut(r: Record): Record { r.(num := Signed16(r.num)) }

  function CutAll(rs: seq<Record>): seq<Record> {
    if rs == [] then [] else [Cut(rs[0])] + CutAll(rs[1..])
  }

  /** No number is cut to that of a known field it does not have. */
  predicate NoAlias(schema: seq<Field>, rs: seq<Record>) {
    forall r :: r in rs ==> Lookup(schema, Signed16(r.num)) == Lookup(schema, r.num)
  }

  // ---------------------------------------------------------------- one record

  lemma LengthIsKept(k: nat, v: u64, limit: nat)
    requires limit < TWO_63 && (k <= GoProto.PostIndex(k, v) <= limit || k + v <= limit)
    ensures GoProto.PostIndex(k, v) == k + v
  {
    assert Signed64(v) == v || Signed64(v) == v - TWO_64;
    assert k + Signed64(v) >= -TWO_63;
  }

  lemma WholeTurns(n: int, q: int)
    ensures Signed16(n + 65536 * q) == Signed16(n)
  {
    assert (n + 65536 * q) % 65536 == n % 65536;
  }

  lemma CutOnce(n: nat)
    ensures Signed16(Signed32(n)) == Signed16(n)
  {
    hide Signed16;
    var q := n / TWO_32;
    assert n == TWO_32 * q + n % TWO_32;
    WholeTurns(n, -65536 * q);
    WholeTurns(n, -65536 * q - 65536);
  }

  /** The item of a known record appended, or nothing for an unknown one. */
  function StepOn(schema: seq<Field>, r: Record, next: nat, last: int, out: seq<byte>): Step {
    match Lookup(schema, r.num)
    case Some(f) =>
      var k := Known(f, r.content);
      Go(next, LastOf(k, last, ForGo), out + ItemBytes(ItemOf(k, ForGo), last))
    case None => Go(next, last, out)
  }

  lemma StepWritesItem(schema: WireSchema, buf: seq<byte>, i: nat, last: int, out: seq<byte>)
    requires i < |buf| < TWO_63 && ParseRecord(buf, i).One? && FitsSchema(schema, Cut(ParseRecord(buf, i).r))
    ensures var p := ParseRecord(buf, i);
            TranspileStep(schema, buf, i, last, out) == StepOn(schema, Cut(p.r), p.next, last, out)
  {
    hide Signed64, Signed32, Signed16, GoProto.PostIndex, Varint.Decode64, Zig64, Lookup, Varint.Encode, Header;
    var tag := Varint.Decode64(buf, i);
    CutOnce(tag.value / 8);
    var v := Varint.Decode64(buf, tag.next);
    var f := Lookup(schema, Cut(ParseRecord(buf, i).r).num);
    if f.Some? && tag.value % 8 == 2 {
      LengthIsKept(v.next, v.value, |buf|);
      var chunk := buf[v.next..v.next + v.value];
      var head, size := Header(f.value.id, last, T_BINARY), Varint.Encode(v.value);
      assert |chunk| == v.value;
      assert out + (head + size) + chunk == out + (head + (size + chunk));
    }
  }

  // ------------------------------------------------------------- whole messages

  lemma {:induction false} WritesKnownItems(schema: WireSchema, buf: seq<byte>, i: nat, last: int, out: seq<byte>)
    requires |buf| < TWO_63 && Parse(buf, i).Records? && Accepts(schema, CutAll(Parse(buf, i).rs))
    ensures Transpile(schema, buf, i, last, out)
         == Written(out + Output(KnownOf(schema, CutAll(Parse(buf, i).rs)), last, ForGo))
    decreases |buf| - i
  {
    hide TranspileStep, ParseRecord, FitsSchema, Lookup, ItemBytes, ItemOf, LastOf, Cut;
    if i < |buf| {
      var r, next := ParseRecord(buf, i).r, ParseRecord(buf, i).next;
      var rs := CutAll(Parse(buf, next).rs);
      assert ([r] + Parse(buf, next).rs)[1..] == Parse(buf, next).rs;
      assert CutAll(Parse(buf, i).rs) == [Cut(r)] + rs && ([Cut(r)] + rs)[1..] == rs;
      AcceptsCons(schema, Cut(r), rs);
      StepWritesItem(schema, buf, i, last, out);
      match Lookup(schema, Cut(r).num) {
        case None =>
          WritesKnownItems(schema, buf, next, last, out);
        case Some(f) =>
          var k, ks := Known(f, Cut(r).content), KnownOf(schema, rs);
          var bytes, last' := ItemBytes(ItemOf(k, ForGo), last), LastOf(k, last, ForGo);
          WritesKnownItems(schema, buf, next, last', out + bytes);
          OutputCons(k, ks, last, ForGo);
          assert (out + bytes) + Output(ks, last', ForGo) == out + (bytes + Output(ks, last', ForGo));
      }
    }
  }

  /** Cutting numbers can only make more records known, and adds none exactly if none is
      taken for another field. */
  lemma {:induction false} CutAddsKnown(schema: WireSchema, rs: seq<Record>)
    requires ThriftSchema(schema)
    ensures |KnownOf(schema, CutAll(rs))| >= |KnownOf(schema, rs)|
    ensures |KnownOf(schema, CutAll(rs))| == |KnownOf(schema, rs)| <==> NoAlias(schema, rs)
    ensures NoAlias(schema, rs) ==> KnownOf(schema, CutAll(rs)) == KnownOf(schema, rs)
  {
    hide Lookup, Signed16;
    if rs != [] {
      var r, rest := rs[0], rs[1..];
      CutAddsKnown(schema, rest);
      KnownIsKept(schema, r.num);
      assert rs == [r] + rest && CutAll(rs)[1..] == CutAll(rest);
      assert NoAlias(schema, rs) <==> Lookup(schema, Signed16(r.num)) == Lookup(schema, r.num) && NoAlias(schema, rest);
    }
  }

  lemma KnownIsKept(schema: WireSchema, num: int)
    requires ThriftSchema(schema)
    ensures Lookup(schema, num).Some? ==> Signed16(num) == num
  {
  }

  lemma FieldIds(ks: seq<Known>)
    requires forall k :: k in ks ==> Sound(k)
    ensures forall i :: 0 <= i < |ks| ==> Fields(ks)[i].id == ks[i].f.id > 0
  {
    assert forall i :: 0 <= i < |ks| ==> ks[i] in ks;
  }

  lemma KnownSound(schema: WireSchema, rs: seq<Record>)
    requires ThriftSchema(schema) && Accepts(schema, rs)
    ensures forall k :: k in KnownOf(schema, rs) ==> Sound(k) && k.f in schema
  {
    KnownFits(schema, rs);
  }

  /** An output with one record too many does not read as the records meant. */
  lemma AliasIsRead(schema: WireSchema, written: seq<Known>, meant: seq<Known>)
    requires ByteIds(schema) && |written| != |meant|
    requires forall k :: k in written ==> Sound(k) && k.f in schema
    requires forall k :: k in meant ==> Sound(k)
    ensures var out := Output(written, 0, ForGo); ReadStruct(out, 0, 0) != Struct(Fields(meant), |out|)
  {
    hide ReadStruct, Emit, Fields, Items, Sound;
    var out, items := Output(written, 0, ForGo), Items(written, ForGo);
    if ReadStruct(out, 0, 0) == Struct(Fields(meant), |out|) {
      FieldIds(meant);
      ByteItems(schema, written);
      OneFieldPerItem(items, Fields(meant), 0, 0, true, out, 0);
    }
  }

  lemma ByteItems(schema: WireSchema, ks: seq<Known>)
    requires ByteIds(schema) && forall k :: k in ks ==> k.f in schema
    ensures forall i :: 0 <= i < |ks| ==> 0 < Items(ks, ForGo)[i].id < 256
  {
    forall i | 0 <= i < |ks|
      ensures 0 < Items(ks, ForGo)[i].id < 256
    {
      assert ks[i] in ks;
    }
  }

  /** The emitted header constants compile: every ID fits a byte. */
  predicate ByteIds(schema: seq<Field>) {
    forall f :: f in schema ==> 0 < f.id < 256
  }

  /** On every input Unmarshal accepts, whose numbers cut to 16 bits still fit their fields,
      the transpiler succeeds, and its output reads as exactly the known records if and only
      if no number is taken for another field, known IDs climb by 1 to 15, int32 values fit
      32 bits, and only the last known record is a string. */
  lemma PreservesMeaningExactly(schema: WireSchema, buf: seq<byte>)
    requires |buf| < TWO_63 && ByteIds(schema)
    requires GoProto.Unmarshal(schema, buf, 0, map[]).Decoded?
    requires Parse(buf, 0).Records? ==> Accepts(schema, CutAll(Parse(buf, 0).rs))
    ensures Parse(buf, 0).Records?
    ensures var rs, r := Parse(buf, 0).rs, Transpile(schema, buf, 0, 0, []);
            var ks := KnownOf(schema, rs);
            && r.Written?
            && (ReadStruct(r.out, 0, 0) == Struct(Fields(ks), |r.out|)
                <==> NoAlias(schema, rs) && Climbs(ks) && Int32sFit(ks) && StringsLast(ks))
  {
    hide Parse, Accepts, KnownOf, Transpile, ReadStruct, Output, Climbs, Int32sFit, Fields, StringsLast,
      GoProto.Unmarshal, CutAll, NoAlias, Sound;
    EagerAppliesRecords(schema, buf, 0, map[]);
    var rs := Parse(buf, 0).rs;
    var meant, written := KnownOf(schema, rs), KnownOf(schema, CutAll(rs));
    KnownSound(schema, rs);
    KnownSound(schema, CutAll(rs));
    CutAddsKnown(schema, rs);
    WritesKnownItems(schema, buf, 0, 0, []);
    assert [] + Output(written, 0, ForGo) == Output(written, 0, ForGo);
    if NoAlias(schema, rs) {
      ReadBackExactly(meant, ForGo);
    } else {
      AliasIsRead(schema, written, meant);
    }
  }

  /** An empty string followed by the integer 1 ... */
  lemma StringThenInt()
    ensures Transpile([Field("s", 1, Text), Field("n", 2, Int64)], [10, 0, 16, 1], 0, 0, [])
         == Written([24, 0, 38, 2, 0])
  {
    hide Zig64, GoProto.PostIndex;
    var schema := [Field("s", 1, Text), Field("n", 2, Int64)];
    var buf: seq<byte> := [10, 0, 16, 1];
    LengthIsKept(2, 0, 4);
    assert TranspileStep(schema, buf, 0, 0, []) == Go(2, 0, [24, 0]);
    Zig64IsZigZag(1);
    assert TranspileStep(schema, buf, 2, 0, [24, 0]) == Go(4, 2, [24, 0, 38, 2]);
  }

  /** ... is read with the integer under field ID 3 instead of 2. */
  lemma StringThenIntReads()
    ensures ReadStruct([24, 0, 38, 2, 0], 0, 0) == Struct([TField(1, TBinary([])), TField(3, TI64(1))], 5)
  {
    var out: seq<byte> := [24, 0, 38, 2, 0];
    var n := TField(3, TI64(1));
    assert ReadStruct(out, 4, 3) == Struct([], 5);
    assert ReadStruct(out, 2, 1) == Struct([n], 5);
    assert Varint.Decode(out, 1) == Varint.Got(0, 2) && out[2..2] == [];
    assert ReadHead(out, 0, 0) == Head(1, T_BINARY, 1) && ReadBody(out, 1, T_BINARY) == Body(TBinary([]), 2);
    assert [TField(1, TBinary([]))] + [n] == [TField(1, TBinary([])), n];
  }
}

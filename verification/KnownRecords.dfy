/** The records of a protobuf message that a schema knows, what they mean as Thrift fields,
    and what the transpilers of Java and Go write for them. */
module KnownRecords {
  import opened Bytes
  import opened Schema
  import opened ThriftCompact
  import opened ZigZagBits
  import opened GoLazy
  import GoProto

  /** A record of a field the schema has. */
  datatype Known = Known(f: Field, c: GoLazy.Content)

  function KnownOf(schema: seq<Field>, rs: seq<Record>): seq<Known> {
    if rs == [] then []
    else
      match Lookup(schema, rs[0].num)
      case Some(f) => [Known(f, rs[0].content)] + KnownOf(schema, rs[1..])
      case None => KnownOf(schema, rs[1..])
  }

  /** What the record means: its signed value or its bytes, under its field ID. */
  function FieldOf(k: Known): TField {
    match k.c
    case Number(v) => TField(k.f.id, if k.f.kind.Int64? then TI64(Signed64(v)) else TI32(Signed32(v)))
    case Chunk(bytes) => TField(k.f.id, TBinary(bytes))
    case Past => TField(k.f.id, TBinary([]))
  }

  function Fields(ks: seq<Known>): (fs: seq<TField>)
    ensures |fs| == |ks|
  {
    seq(|ks|, i requires 0 <= i < |ks| => FieldOf(ks[i]))
  }

  // ------------------------------------------------------------- what is written

  /** Java shifts an int32 by 31 bits and remembers the ID of every field; Go shifts it by 63
      and forgets the ID of a string. */
  datatype Emitter = ForJava | ForGo

  function ItemOf(k: Known, e: Emitter): Item {
    match k.c
    case Number(v) => Item(k.f.id, Zig(k.f.kind.Int64?, if k.f.kind.Int64? || e.ForGo? then Zig64(v) else Zig32(v)))
    case Chunk(bytes) => Item(k.f.id, Blob(bytes))
    case Past => Item(k.f.id, Blob([]))
  }

  function Items(ks: seq<Known>, e: Emitter): (items: seq<Item>)
    ensures |items| == |ks|
  {
    seq(|ks|, i requires 0 <= i < |ks| => ItemOf(ks[i], e))
  }

  /** The bytes of the items of all records, and STOP. */
  function Output(ks: seq<Known>, last: int, e: Emitter): seq<byte> { Emit(Items(ks, e), last, e.ForGo?) }

  function LastOf(k: Known, last: int, e: Emitter): int { LastAfter(ItemOf(k, e), last, e.ForGo?) }

  lemma OutputCons(k: Known, ks: seq<Known>, last: int, e: Emitter)
    ensures Output([k] + ks, last, e) == ItemBytes(ItemOf(k, e), last) + Output(ks, LastOf(k, last, e), e)
  {
    hide ItemBytes;
    var items := Items([k] + ks, e);
    assert items[0] == ItemOf(k, e) && items[1..] == Items(ks, e);
  }

  // -------------------------------------------------------- when it is read back

  /** The IDs of the known records climb by 1 to 15. */
  predicate Climbs(ks: seq<Known>) {
    forall i :: 0 <= i < |ks| ==> 0 < ks[i].f.id - PreviousId(ks, i) <= 15
  }

  function PreviousId(ks: seq<Known>, i: nat): int
    requires i < |ks|
  {
    if i == 0 then 0 else ks[i - 1].f.id
  }

  /** Values of int32 fields are sign-extended 32-bit integers. */
  predicate Int32sFit(ks: seq<Known>) {
    forall i :: 0 <= i < |ks| ==> Int32Fits(ks[i])
  }

  predicate Int32Fits(k: Known) {
    k.f.kind.Int32? && k.c.Number? ==> IsInt32(Signed64(k.c.v))
  }

  /** No known record follows a string. */
  predicate StringsLast(ks: seq<Known>) {
    forall i :: 0 <= i < |ks| - 1 ==> !ks[i].c.Chunk?
  }

  /** The records the emitter gets across. */
  predicate GetsAcross(ks: seq<Known>, e: Emitter) {
    Climbs(ks) && Int32sFit(ks) && (e.ForGo? ==> StringsLast(ks))
  }

  predicate ThriftSchema(schema: seq<Field>) {
    forall f :: f in schema ==> 0 < f.id < 32768
  }

  predicate Sound(k: Known) {
    0 < k.f.id < 32768 && GoProto.OnWire(k.f.kind) && Fits(k.f.kind, k.c)
  }

  lemma {:induction false} KnownFits(schema: WireSchema, rs: seq<Record>)
    requires Accepts(schema, rs)
    ensures forall k :: k in KnownOf(schema, rs) ==> k.f in schema && Fits(k.f.kind, k.c)
  {
    if rs != [] {
      assert rs == [rs[0]] + rs[1..];
      AcceptsCons(schema, rs[0], rs[1..]);
      KnownFits(schema, rs[1..]);
    }
  }

  lemma SignedWidths(v: u64)
    ensures IsInt32(Signed64(v)) ==> Signed32(v) == Signed64(v)
  {
  }

  lemma ItemMeansField(k: Known, e: Emitter)
    requires GoProto.OnWire(k.f.kind) && Fits(k.f.kind, k.c)
    ensures Means(ItemOf(k, e), FieldOf(k)) <==> Int32Fits(k)
  {
    hide Zig64, Zig32;
    match k.c
    case Chunk(_) =>
    case Number(v) =>
      ZigZagInverse(Signed64(v), 0);
      SignedWidths(v);
      Zig64IsZigZag(v);
      Zig32IsZigZag(v);
  }

  lemma MeansThroughout(ks: seq<Known>, e: Emitter)
    requires forall k :: k in ks ==> Sound(k)
    ensures AllMean(Items(ks, e), Fields(ks)) <==> Int32sFit(ks)
  {
    hide ItemOf, FieldOf, Means, Int32Fits;
    forall i | 0 <= i < |ks|
      ensures Means(Items(ks, e)[i], Fields(ks)[i]) <==> Int32Fits(ks[i])
    {
      assert ks[i] in ks;
      ItemMeansField(ks[i], e);
    }
  }

  lemma IdsOf(ks: seq<Known>, e: Emitter)
    requires forall k :: k in ks ==> Sound(k)
    ensures ThriftIds(Items(ks, e)) && SameIds(Items(ks, e), Fields(ks))
  {
    assert forall i :: 0 <= i < |ks| ==> ks[i] in ks && Items(ks, e)[i].id == ks[i].f.id;
  }

  lemma GapsOf(ks: seq<Known>, e: Emitter)
    ensures Climbs(ks) <==> Aligned(Items(ks, e), 0, 0, false)
  {
    hide Aligned;
    var items := Items(ks, e);
    AlignedIsClimbing(items, 0);
    assert forall i :: 0 <= i < |ks| ==> Gap(items, 0, i) == ks[i].f.id - PreviousId(ks, i);
  }

  predicate BlobsLast(items: seq<Item>) {
    forall i :: 0 <= i < |items| - 1 ==> !items[i].content.Blob?
  }

  lemma BlobsOf(ks: seq<Known>, e: Emitter)
    requires forall k :: k in ks ==> Sound(k)
    ensures BlobsLast(Items(ks, e)) <==> StringsLast(ks)
  {
    var items := Items(ks, e);
    forall i | 0 <= i < |ks|
      ensures items[i].content.Blob? <==> ks[i].c.Chunk?
    {
      assert ks[i] in ks;
    }
  }

  lemma AlignedExactly(ks: seq<Known>, e: Emitter)
    requires forall k :: k in ks ==> Sound(k)
    ensures Aligned(Items(ks, e), 0, 0, e.ForGo?) <==> Climbs(ks) && (e.ForGo? ==> StringsLast(ks))
  {
    hide Aligned, Items, Climbs, StringsLast;
    GapsOf(ks, e);
    BlobsOf(ks, e);
    StaleIsAlignedExactly(Items(ks, e), 0);
  }

  /** What an emitter writes for known records reads back as exactly their fields if and only
      if it gets them across. */
  lemma ReadBackExactly(ks: seq<Known>, e: Emitter)
    requires forall k :: k in ks ==> Sound(k)
    ensures var out := Output(ks, 0, e);
            ReadStruct(out, 0, 0) == Struct(Fields(ks), |out|) <==> GetsAcross(ks, e)
  {
    hide ReadStruct, Emit, Climbs, Aligned, AllMean, Int32sFit, Items, Fields, ThriftIds, SameIds, StringsLast;
    IdsOf(ks, e);
    EmitReadsBack(Items(ks, e), Fields(ks), 0, 0, e.ForGo?, Output(ks, 0, e), 0);
    AlignedExactly(ks, e);
    MeansThroughout(ks, e);
  }
}

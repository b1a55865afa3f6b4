/** What Unmarshal makes of bytes that MarshalTo wrote, possibly under another schema. */
module GoProtoLaws {
  import opened Bytes
  import opened Schema
  import opened GoProto
  import Varint

  /** Every field written has an ID whose tag byte has no continuation bit. */
  predicate OneByteTags(schema: seq<Field>) {
    forall f :: f in schema && OnWire(f.kind) ==> 0 <= f.id <= 15
  }

  /** A schema whose structs travel as well-formed protobuf messages. */
  type Plain = s: seq<Field> | DistinctIds(s) && OneByteTags(s) witness []

  type Keyed = s: seq<Field> | DistinctIds(s) witness []

  /** Where writer and reader know the same ID, they give it the same kind. */
  predicate KindsAgree(writer: seq<Field>, reader: seq<Field>) {
    forall f, g :: f in writer && g in reader && OnWire(f.kind) && f.id == g.id ==> f.kind == g.kind
  }

  /** `x` as far as both schemas carry it: the reader's fields, with the writer's value
      where the writer puts one on the wire and the zero value elsewhere. */
  function Project(writer: seq<Field>, x: Message, reader: seq<Field>): (y: Message) {
    var zero := ZeroMessage(reader);
    map id | id in zero ::
      match Lookup(writer, id)
      case Some(f) => if OnWire(f.kind) then Get(x, f) else zero[id]
      case None => zero[id]
  }

  lemma TagRead(f: Field, buf: seq<byte>, i: nat)
    requires 0 <= f.id <= 15 && At(buf, i, [Tag(f) % 256])
    ensures Varint.Decode64(buf, i) == Varint.Got(Tag(f), i + 1)
    ensures Signed32(Tag(f) / 8) == f.id && Tag(f) % 8 == WireType(f.kind)
  {
    assert buf[i] == buf[i..i + 1][0] == Tag(f);
  }

  lemma NumberRead(f: Field, v: Value, buf: seq<byte>, j: nat, y: Message)
    requires HasKind(v, f.kind) && (f.kind.Int32? || f.kind.Int64?)
    requires At(buf, j, Varint.Encode(Unsigned64(v.n)))
    ensures KnownField(f, 0, buf, j, y) == Next(j + |Varint.Encode(Unsigned64(v.n))|, y[f.id := v])
    ensures UnknownField(0, buf, j, y) == Next(j + |Varint.Encode(Unsigned64(v.n))|, y)
  {
    var u := Unsigned64(v.n);
    Varint.DecodeEncoded64(buf, j, u);
    assert (if f.kind.Int32? then Signed32(u) else Signed64(u)) == v.n by { SignedOfUnsigned(v.n); }
  }

  lemma PostIndexInRange(k: nat, len: nat)
    requires k + len < TWO_63
    ensures PostIndex(k, len) == k + len
  {
  }

  lemma TextRead(f: Field, v: Value, buf: seq<byte>, j: nat, y: Message)
    requires HasKind(v, f.kind) && f.kind.Text? && |buf| < TWO_63
    requires At(buf, j, Varint.Encode(|v.bytes|) + v.bytes)
    ensures var end := j + |Varint.Encode(|v.bytes|)| + |v.bytes|;
            && KnownField(f, 2, buf, j, y) == Next(end, y[f.id := v])
            && UnknownField(2, buf, j, y) == Next(end, y)
  {
    var len := Varint.Encode(|v.bytes|);
    AtConcat(buf, j, len, v.bytes);
    Varint.DecodeEncoded64(buf, j, |v.bytes|);
    PostIndexInRange(j + |len|, |v.bytes|);
  }

  /** Reading back the payload of a field, known or not. */
  lemma PayloadRead(f: Field, v: Value, buf: seq<byte>, j: nat, y: Message)
    requires HasKind(v, f.kind) && OnWire(f.kind) && |buf| < TWO_63
    requires At(buf, j, Payload(f.kind, v))
    ensures KnownField(f, WireType(f.kind), buf, j, y) == Next(j + |Payload(f.kind, v)|, y[f.id := v])
    ensures UnknownField(WireType(f.kind), buf, j, y) == Next(j + |Payload(f.kind, v)|, y)
  {
    if f.kind.Text? { TextRead(f, v, buf, j, y); } else { NumberRead(f, v, buf, j, y); }
  }

  /** The reader's struct after one field of the writer. */
  function Store(reader: seq<Field>, f: Field, v: Value, y: Message): Message {
    if Sent(f, v) && Lookup(reader, f.id).Some? then y[f.id := v] else y
  }

  /** One encoded field is one iteration of the loop. */
  lemma FieldIsOneStep(reader: seq<Field>, f: Field, v: Value, buf: seq<byte>, i: nat, y: Message)
    requires HasKind(v, f.kind) && Sent(f, v) && 0 <= f.id <= 15
    requires |buf| < TWO_63 && At(buf, i, EncodeField(f, v))
    requires Lookup(reader, f.id).Some? ==> Lookup(reader, f.id).value.kind == f.kind
    ensures i < |buf|
    ensures UnmarshalStep(reader, buf, i, y) == Next(i + |EncodeField(f, v)|, Store(reader, f, v, y))
  {
    AtConcat(buf, i, [Tag(f) % 256], Payload(f.kind, v));
    TagRead(f, buf, i);
    PayloadRead(f, v, buf, i + 1, y);
    if Lookup(reader, f.id).Some? {
      PayloadRead(Lookup(reader, f.id).value, v, buf, i + 1, y);
    }
  }

  lemma FieldAdvances(reader: seq<Field>, f: Field, v: Value, buf: seq<byte>, i: nat, y: Message)
    requires HasKind(v, f.kind) && (OnWire(f.kind) ==> 0 <= f.id <= 15)
    requires |buf| < TWO_63 && At(buf, i, EncodeField(f, v))
    requires OnWire(f.kind) && Lookup(reader, f.id).Some? ==> Lookup(reader, f.id).value.kind == f.kind
    ensures Unmarshal(reader, buf, i, y)
         == Unmarshal(reader, buf, i + |EncodeField(f, v)|, Store(reader, f, v, y))
  {
    hide UnmarshalStep;
    if Sent(f, v) {
      FieldIsOneStep(reader, f, v, buf, i, y);
    }
  }

  /** The reader's struct after the writer's fields from position `k` on. */
  function Received(writer: seq<Field>, x: Message, reader: seq<Field>, y: Message, k: nat): Message
    requires k <= |writer|
    decreases |writer| - k
  {
    if k == |writer| then y
    else Received(writer, x, reader, Store(reader, writer[k], Get(x, writer[k]), y), k + 1)
  }

  lemma {:induction false} UnmarshalReceives(writer: Plain, x: Message, reader: Keyed,
                                             y: Message, k: nat, buf: seq<byte>, i: nat)
    requires KindsAgree(writer, reader) && k <= |writer| && |buf| < TWO_63
    requires At(buf, i, Encode(writer, x, k)) && i + |Encode(writer, x, k)| == |buf|
    ensures Unmarshal(reader, buf, i, y) == Decoded(Received(writer, x, reader, y, k))
    decreases |writer| - k
  {
    hide UnmarshalStep, EncodeField, Store, Get;
    if k < |writer| {
      var f := writer[k];
      var v := Get(x, f);
      AtConcat(buf, i, EncodeField(f, v), Encode(writer, x, k + 1));
      FieldAdvances(reader, f, v, buf, i, y);
      UnmarshalReceives(writer, x, reader, Store(reader, f, v, y), k + 1, buf, i + |EncodeField(f, v)|);
    }
  }

  /** An ID the remaining fields of the writer do not have keeps its value. */
  lemma {:induction false} ReceivedUntouched(writer: seq<Field>, x: Message, reader: seq<Field>, y: Message, k: nat,
                                             id: int)
    requires k <= |writer| && id in y && forall j :: k <= j < |writer| ==> writer[j].id != id
    ensures id in Received(writer, x, reader, y, k) && Received(writer, x, reader, y, k)[id] == y[id]
    decreases |writer| - k
  {
    if k < |writer| {
      ReceivedUntouched(writer, x, reader, Store(reader, writer[k], Get(x, writer[k]), y), k + 1, id);
    }
  }

  /** The ID of the writer's field `j` takes that field's value. */
  lemma {:induction false} ReceivedField(writer: Keyed, x: Message, reader: Keyed, y: Message, k: nat, j: nat)
    requires k <= j < |writer| && writer[j].id in y && Lookup(reader, writer[j].id).Some?
    ensures var f, r := writer[j], Received(writer, x, reader, y, k);
            f.id in r && r[f.id] == if Sent(f, Get(x, f)) then Get(x, f) else y[f.id]
    decreases |writer| - k
  {
    var y' := Store(reader, writer[k], Get(x, writer[k]), y);
    if k == j {
      ReceivedUntouched(writer, x, reader, y', k + 1, writer[j].id);
    } else {
      ReceivedField(writer, x, reader, y', k + 1, j);
    }
  }

  lemma {:induction false} ReceivedKeys(writer: Keyed, x: Message, reader: Keyed, y: Message, k: nat)
    requires k <= |writer| && forall f :: f in reader ==> f.id in y
    ensures Received(writer, x, reader, y, k).Keys == y.Keys
    decreases |writer| - k
  {
    if k < |writer| {
      var y' := Store(reader, writer[k], Get(x, writer[k]), y);
      assert y'.Keys == y.Keys;
      ReceivedKeys(writer, x, reader, y', k + 1);
    }
  }

  lemma ReceivedAt(writer: Keyed, x: Message, reader: Keyed, id: int)
    requires KindsAgree(writer, reader) && id in ZeroMessage(reader)
    ensures var r := Received(writer, x, reader, ZeroMessage(reader), 0);
            id in r && r[id] == Project(writer, x, reader)[id]
  {
    hide Received;
    match Lookup(writer, id)
    case None =>
      ReceivedUntouched(writer, x, reader, ZeroMessage(reader), 0, id);
    case Some(f) =>
      var j :| 0 <= j < |writer| && writer[j] == f;
      var g := Lookup(reader, id).value;
      assert ZeroMessage(reader)[id] == Zero(g.kind);
      ReceivedField(writer, x, reader, ZeroMessage(reader), 0, j);
  }

  lemma ReceivedIsProject(writer: Keyed, x: Message, reader: Keyed)
    requires KindsAgree(writer, reader)
    ensures Received(writer, x, reader, ZeroMessage(reader), 0) == Project(writer, x, reader)
  {
    hide Received, Lookup, KindsAgree;
    var r, p := Received(writer, x, reader, ZeroMessage(reader), 0), Project(writer, x, reader);
    assert r.Keys == p.Keys by { ReceivedKeys(writer, x, reader, ZeroMessage(reader), 0); }
    forall id | id in p
      ensures r[id] == p[id]
    {
      ReceivedAt(writer, x, reader, id);
    }
  }

  /** Bytes written under one schema and read under another carry exactly what the two
      schemas share. */
  lemma Transfer(writer: Plain, reader: Keyed, x: Message)
    requires KindsAgree(writer, reader) && |Encode(writer, x)| < TWO_63
    ensures Unmarshal(reader, Encode(writer, x), 0, ZeroMessage(reader))
         == Decoded(Project(writer, x, reader))
  {
    hide UnmarshalStep, Received;
    UnmarshalReceives(writer, x, reader, ZeroMessage(reader), 0, Encode(writer, x), 0);
    ReceivedIsProject(writer, x, reader);
  }

  /** Unmarshal undoes Marshal for every struct of the schema, as far as its kinds are
      written at all. */
  ghost predicate RoundTrips(schema: seq<Field>) {
    forall x: Message :: Typed(schema, x) && |Encode(schema, x)| < TWO_63 ==>
      Unmarshal(schema, Encode(schema, x), 0, ZeroMessage(schema)) == Decoded(Project(schema, x, schema))
  }

  /** Exactly the schemas whose written IDs are below 16 round trip: from 16 on the one-byte
      tag is taken for the first byte of a longer varint, and an ID whose tag wraps into a
      byte is written under another ID. */
  lemma RoundTripExactly(schema: seq<Field>)
    requires Compiles(schema)
    ensures RoundTrips(schema) <==> OneByteTags(schema)
  {
    if OneByteTags(schema) {
      assert KindsAgree(schema, schema) by { DistinctFields(schema); }
      forall x: Message | Typed(schema, x) && |Encode(schema, x)| < TWO_63
        ensures Unmarshal(schema, Encode(schema, x), 0, ZeroMessage(schema)) == Decoded(Project(schema, x, schema))
      {
        Transfer(schema, schema, x);
      }
    } else {
      var f :| f in schema && OnWire(f.kind) && !(0 <= f.id <= 15);
      var x := WideTagFails(schema, f);
    }
  }

  lemma DistinctFields(schema: seq<Field>)
    requires DistinctIds(schema)
    ensures forall f, g :: f in schema && g in schema && f.id == g.id ==> f == g
  {
  }

  lemma ProjectSelf(schema: Keyed, x: Message)
    requires Typed(schema, x) && forall f :: f in schema ==> OnWire(f.kind)
    ensures Project(schema, x, schema) == x
  {
    var p := Project(schema, x, schema);
    forall id | id in p
      ensures p[id] == x[id]
    {
      var f := Lookup(schema, id).value;
    }
  }

  /** A struct all of whose kinds are written comes back unchanged. */
  lemma RoundTripValue(schema: Plain, x: Message)
    requires Typed(schema, x) && |Encode(schema, x)| < TWO_63
    requires forall f :: f in schema ==> OnWire(f.kind)
    ensures Unmarshal(schema, Encode(schema, x), 0, ZeroMessage(schema)) == Decoded(x)
  {
    hide Encode, Unmarshal, ZeroMessage, Project;
    assert KindsAgree(schema, schema) by { DistinctFields(schema); }
    Transfer(schema, schema, x);
    ProjectSelf(schema, x);
  }

  lemma {:induction false} EncodeOnly(schema: Keyed, x: Message, f: Field, k: nat)
    requires f in schema && k <= |schema|
    requires forall g :: g in schema && g != f ==> Get(x, g) == Zero(g.kind)
    ensures Encode(schema, x, k) == if f in schema[k..] then EncodeField(f, Get(x, f)) else []
    decreases |schema| - k
  {
    if k < |schema| {
      EncodeOnly(schema, x, f, k + 1);
      assert schema[k..] == [schema[k]] + schema[k + 1..];
      if schema[k] == f {
        assert f !in schema[k + 1..];
      }
    }
  }

  /** A tag byte with the continuation bit swallows the byte 1 that follows it. */
  lemma WideTagRead(t: byte, rest: seq<byte>)
    requires 128 <= t
    ensures Varint.Decode64([t, 1] + rest, 0) == Varint.Got(t, 2)
  {
    var buf := [t, 1] + rest;
    assert Varint.Decode(buf, 1) == Varint.Got(1, 2);
  }

  lemma WideNumberLost(schema: Keyed, f: Field, y: Message)
    requires f in schema && (f.kind.Int32? || f.kind.Int64?) && 15 < f.id <= 31
    ensures EncodeField(f, Num(1)) == [Tag(f), 1]
    ensures Unmarshal(schema, [Tag(f), 1], 0, y) == Failed
  {
    var t: byte := Tag(f);
    var buf := [t, 1];
    assert Varint.Encode(1) == [1];
    assert buf == [t, 1] + [];
    WideTagRead(t, []);
    LookupUnique(schema, f);
    assert Varint.Decode64(buf, 2) == Varint.Eof;
  }

  lemma WideTextLost(schema: Keyed, f: Field, y: Message)
    requires f in schema && f.kind.Text? && 15 < f.id <= 31
    ensures EncodeField(f, Data([0])) == [Tag(f), 1, 0]
    ensures UnmarshalStep(schema, [Tag(f), 1, 0], 0, y) == Next(3, y[f.id := Data([])])
  {
    hide PostIndex;
    var t: byte := Tag(f);
    var buf := [t, 1, 0];
    assert Varint.Encode(1) == [1];
    assert buf == [t, 1] + [0];
    WideTagRead(t, [0]);
    LookupUnique(schema, f);
    assert Varint.Decode64(buf, 2) == Varint.Got(0, 3);
    PostIndexInRange(3, 0);
    assert buf[3..3] == [];
    assert UnmarshalStep(schema, buf, 0, y) == Next(3, y[f.id := Data([])]);
  }

  lemma WideTextDecodes(schema: Keyed, f: Field, y: Message)
    requires f in schema && f.kind.Text? && 15 < f.id <= 31
    ensures Unmarshal(schema, [Tag(f), 1, 0], 0, y) == Decoded(y[f.id := Data([])])
  {
    hide UnmarshalStep, Tag;
    WideTextLost(schema, f, y);
  }

  /** The struct with one nonzero field. */
  lemma OnlyField(schema: Keyed, f: Field, v: Value)
    requires f in schema && HasKind(v, f.kind)
    ensures var x := ZeroMessage(schema)[f.id := v];
            && Typed(schema, x) && Get(x, f) == v
            && forall g :: g in schema && g != f ==> Get(x, g) == Zero(g.kind)
  {
    DistinctFields(schema);
  }

  lemma OnlyFieldEncodes(schema: Keyed, f: Field, v: Value)
    requires f in schema && HasKind(v, f.kind)
    ensures Encode(schema, ZeroMessage(schema)[f.id := v]) == EncodeField(f, v)
  {
    hide Encode, EncodeField, Get, ZeroMessage;
    OnlyField(schema, f, v);
    EncodeOnly(schema, ZeroMessage(schema)[f.id := v], f, 0);
    assert schema[0..] == schema;
  }

  lemma OnlyFieldProjects(schema: Keyed, f: Field, v: Value)
    requires f in schema && OnWire(f.kind) && HasKind(v, f.kind)
    ensures var p := Project(schema, ZeroMessage(schema)[f.id := v], schema); f.id in p && p[f.id] == v
  {
    hide Encode, EncodeField;
    LookupUnique(schema, f);
  }

  /** The other IDs with a tag of one byte are far from any number three bytes can hold. */
  lemma WrappedIsFar(f: Field)
    requires IsInt32(f.id) && 0 <= Tag(f) <= 255 && !(0 <= f.id <= 31)
    ensures f.id < 0 || f.id >= 0x4_0000
  {
  }

  lemma {:induction false} ShortValue(buf: seq<byte>, i: nat)
    requires |buf| <= i + 3
    ensures var r := Varint.Decode(buf, i);
            r.Got? ==> r.value < (if i + 1 >= |buf| then 0x80 else if i + 2 >= |buf| then 0x4000 else 0x20_0000)
    decreases |buf| - i
  {
    if i < |buf| && buf[i] >= 128 {
      ShortValue(buf, i + 1);
    }
  }

  lemma ShortNumber(buf: seq<byte>, i: nat)
    requires |buf| <= 3
    ensures var r := Varint.Decode64(buf, i); r.Got? ==> 0 <= Signed32(r.value / 8) < 0x4_0000
  {
    ShortValue(buf, i);
  }

  /** Three bytes cannot name a field with a far ID. */
  lemma {:induction false} FarUntouched(schema: Keyed, id: int, buf: seq<byte>, i: nat, y: Message)
    requires |buf| <= 3 && (id < 0 || id >= 0x4_0000) && id in y
    ensures var r := Unmarshal(schema, buf, i, y); r.Decoded? ==> id in r.x && r.x[id] == y[id]
    decreases |buf| - i
  {
    hide Varint.Decode64, PostIndex, Signed32, Signed64;
    if i < |buf| {
      ShortNumber(buf, i);
      var s := UnmarshalStep(schema, buf, i, y);
      if s.Next? {
        assert id in s.x && s.x[id] == y[id];
        FarUntouched(schema, id, buf, s.i, s.x);
      }
    }
  }

  lemma ShortField(f: Field, v: Value)
    requires OnWire(f.kind) && v == if f.kind.Text? then Data([0]) else Num(1)
    ensures HasKind(v, f.kind) && v != Zero(f.kind) && |EncodeField(f, v)| <= 3
  {
    assert |Varint.Encode(1)| == 1;
  }

  /** A struct whose only nonzero field has an ID outside 0..15 does not come back. */
  lemma WideTagFails(schema: seq<Field>, f: Field) returns (x: Message)
    requires Compiles(schema) && f in schema && OnWire(f.kind) && !(0 <= f.id <= 15)
    ensures Typed(schema, x) && |Encode(schema, x)| < TWO_63
    ensures Unmarshal(schema, Encode(schema, x), 0, ZeroMessage(schema)) != Decoded(Project(schema, x, schema))
  {
    hide Encode, EncodeField, Unmarshal, UnmarshalStep, Project, Lookup, Typed;
    var v := if f.kind.Text? then Data([0]) else Num(1);
    x := ZeroMessage(schema)[f.id := v];
    OnlyField(schema, f, v);
    OnlyFieldEncodes(schema, f, v);
    OnlyFieldProjects(schema, f, v);
    ShortField(f, v);
    if !(0 <= f.id <= 31) {
      WrappedIsFar(f);
      FarUntouched(schema, f.id, EncodeField(f, v), 0, ZeroMessage(schema));
    } else if f.kind.Text? {
      WideTextLost(schema, f, ZeroMessage(schema));
      WideTextDecodes(schema, f, ZeroMessage(schema));
    } else {
      WideNumberLost(schema, f, ZeroMessage(schema));
    }
  }
}

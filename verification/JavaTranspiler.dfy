/** The streaming Protobuf to Thrift Compact transpiler emitted for Java. */
module JavaTranspiler {
  import opened Bytes
  import opened Schema
  import opened ThriftCompact
  import opened ZigZagBits
  import GoProto
  import Varint

  // -------------------------------------------------------------------- helpers

  /** HelixHelpers.readVarint with `v` accumulated so far: Java takes the shift distance
      of a long modulo 64. */
  function ReadLong(buf: seq<byte>, i: nat, v: nat, shift: nat): (r: Varint.Read)
    ensures r.Got? ==> i < r.next <= |buf|
    decreases |buf| - i
  {
    if i >= |buf| then Varint.Eof
    else
      var v' := Varint.OrShifted(v, buf[i] % 128, shift % 64);
      if buf[i] < 128 then Varint.Got(v', i + 1) else ReadLong(buf, i + 1, v', shift + 7)
  }

  method ReadVarint(buf: seq<byte>, position: nat) returns (r: Varint.Read)
    ensures r == ReadLong(buf, position, 0, 0)
  {
    var v: nat, shift: nat, i := 0, 0, position;
    while i < |buf|
      invariant ReadLong(buf, i, v, shift) == ReadLong(buf, position, 0, 0)
    {
      var b := buf[i];
      i := i + 1;
      v := Varint.OrShifted(v, b % 128, shift % 64);
      if b < 128 {
        return Varint.Got(v, i);
      }
      shift := shift + 7;
    }
    return Varint.Eof;
  }

  /** A varint of at most ten bytes is read as its low 64 bits. */
  lemma {:induction false} ReadLongIsDecode(buf: seq<byte>, start: nat, i: nat, acc: nat)
    requires start <= i && Varint.Reading(buf, start, i, acc, 7 * (i - start))
    requires Varint.Decode(buf, start).Got? && Varint.Decode(buf, start).next <= start + 10
    ensures ReadLong(buf, i, acc % TWO_64, 7 * (i - start)) == Varint.Decode64(buf, start)
    decreases |buf| - i
  {
    var s := 7 * (i - start);
    assert i < Varint.Decode(buf, start).next;
    assert s % 64 == s;
    Varint.ReadingStep(buf, start, i, acc, s);
    if buf[i] >= 128 {
      ReadLongIsDecode(buf, start, i + 1, Varint.Weighted(acc, s, buf[i] % 128));
    }
  }

  method WriteThriftVarint(out: seq<byte>, v: nat) returns (r: seq<byte>)
    ensures r == out + Varint.Encode(v)
  {
    var w := v;
    r := out;
    while w >= 128
      invariant r + Varint.Encode(w) == out + Varint.Encode(v)
    {
      assert r + Varint.Encode(w) == (r + [w % 128 + 128]) + Varint.Encode(w / 128);
      r := r + [w % 128 + 128];
      w := w / 128;
    }
    r := r + [w];
  }

  // ----------------------------------------------------------------- transpiler

  /** Throws: a buffer or argument exception.  Rewinds: an unknown length whose int
      conversion is negative moves the position back. */
  datatype Outcome = Written(out: seq<byte>) | Throws | Rewinds

  datatype Step = Go(next: nat, last: int, out: seq<byte>) | Throw | Rewind

  /** The switch case of a known field, `j` being the position after its tag. */
  function KnownField(f: Field, buf: seq<byte>, j: nat, last: int, out: seq<byte>): (s: Step)
    ensures s.Go? ==> s.next >= j
  {
    if !GoProto.OnWire(f.kind) then Go(j, last, out)
    else
      match ReadLong(buf, j, 0, 0)
      case Eof => Throw
      case Got(u, k) =>
        if f.kind.Text? then
          var n := Signed32(u);
          if n < 0 || k + n > |buf| then Throw
          else Go(k + n, f.id, out + Header(f.id, last, T_BINARY) + (Varint.Encode(u) + buf[k..k + n]))
        else
          var wide := f.kind.Int64?;
          var it := Item(f.id, Zig(wide, if wide then Zig64(u) else Zig32(u)));
          Go(k, f.id, out + ItemBytes(it, last))
  }

  function UnknownField(wire: nat, buf: seq<byte>, j: nat, last: int, out: seq<byte>): (s: Step)
    ensures s.Go? ==> s.next >= j
  {
    if wire != 0 && wire != 2 then Go(j, last, out)
    else
      match ReadLong(buf, j, 0, 0)
      case Eof => Throw
      case Got(u, k) =>
        if wire == 0 then Go(k, last, out)
        else
          var p := Signed32(k + Signed32(u));
          if p < 0 || p > |buf| then Throw
          else if p < k then Rewind
          else Go(p, last, out)
  }

  /** The body of the loop. */
  function TranspileStep(schema: seq<Field>, buf: seq<byte>, i: nat, last: int, out: seq<byte>): (s: Step)
    ensures s.Go? ==> s.next > i
  {
    match ReadLong(buf, i, 0, 0)
    case Eof => Throw
    case Got(tag, j) =>
      match Lookup(schema, Signed32(tag / 8))
      case Some(f) => KnownField(f, buf, j, last, out)
      case None => UnknownField(tag % 8, buf, j, last, out)
  }

  function Transpile(schema: seq<Field>, buf: seq<byte>, i: nat, last: int, out: seq<byte>): Outcome
    decreases |buf| - i
  {
    if i >= |buf| then Written(out + [0])
    else
      match TranspileStep(schema, buf, i, last, out)
      case Go(next, last', out') => Transpile(schema, buf, next, last', out')
      case Throw => Throws
      case Rewind => Rewinds
  }

  method WriteHeader(out: seq<byte>, id: int, last: int, ttype: nat) returns (r: seq<byte>)
    requires 0 < ttype < 16
    ensures r == out + Header(id, last, ttype)
  {
    var delta := id - last;
    if delta > 0 && delta <= 15 {
      r := out + [delta * 16 + ttype];
    } else {
      r := out + [ttype];
      r := r + [id / 256 % 256];
      r := r + [id % 256];
    }
  }

  lemma StepGrows(schema: seq<Field>, buf: seq<byte>, i: nat, last: int, out: seq<byte>)
    ensures var s := TranspileStep(schema, buf, i, last, out); s.Go? ==> |s.out| >= |out|
  {
    hide ReadLong, Zig64, Zig32, Header, Varint.Encode, Lookup, Signed32;
  }

  lemma {:induction false} OutputGrows(schema: seq<Field>, buf: seq<byte>, i: nat, last: int, out: seq<byte>)
    ensures var r := Transpile(schema, buf, i, last, out); r.Written? ==> |r.out| > |out|
    decreases |buf| - i
  {
    hide TranspileStep;
    if i < |buf| {
      StepGrows(schema, buf, i, last, out);
      var s := TranspileStep(schema, buf, i, last, out);
      if s.Go? {
        OutputGrows(schema, buf, s.next, s.last, s.out);
      }
    }
  }

  /** The switch case of an integer or string field, or of one that is not written. */
  method MoveKnown(f: Field, input: seq<byte>, j: nat, last: int, out: seq<byte>) returns (s: Step)
    ensures s == KnownField(f, input, j, last, out)
  {
    hide Zig64, Zig32, Header, Varint.Encode, ReadLong, Signed32;
    if f.kind.Int64? || f.kind.Int32? {
      var read := ReadVarint(input, j);
      if read.Eof? { return Throw; }
      var z := if f.kind.Int64? then Zig64(read.value) else Zig32(read.value);
      var r := WriteHeader(out, f.id, last, if f.kind.Int64? then T_I64 else T_I32);
      assert r + Varint.Encode(z) == out + ItemBytes(Item(f.id, Zig(f.kind.Int64?, z)), last);
      r := WriteThriftVarint(r, z);
      return Go(read.next, f.id, r);
    } else if f.kind.Text? {
      var read := ReadVarint(input, j);
      if read.Eof? { return Throw; }
      var n := Signed32(read.value);
      if n < 0 || read.next + n > |input| { return Throw; }
      var r := WriteHeader(out, f.id, last, T_BINARY);
      ghost var head := r;
      r := WriteThriftVarint(r, read.value);
      var bytes := input[read.next..read.next + n];
      assert r + bytes == head + (Varint.Encode(read.value) + bytes);
      return Go(read.next + n, f.id, r + bytes);
    }
    return Go(j, last, out);
  }

  method MoveUnknown(wire: nat, input: seq<byte>, j: nat, last: int, out: seq<byte>) returns (s: Step)
    ensures s == UnknownField(wire, input, j, last, out)
  {
    hide ReadLong, Signed32;
    if wire == 0 {
      var read := ReadVarint(input, j);
      if read.Eof? { return Throw; }
      return Go(read.next, last, out);
    } else if wire == 2 {
      var read := ReadVarint(input, j);
      if read.Eof? { return Throw; }
      var p := Signed32(read.next + Signed32(read.value));
      if p < 0 || p > |input| { return Throw; }
      if p < read.next { return Rewind; }
      return Go(p, last, out);
    }
    return Go(j, last, out);
  }

  /** `room` is the capacity of the output buffer: the output is written exactly if it fits,
      and otherwise the put that does not fit throws. */
  method TranspileLoop(schema: seq<Field>, input: seq<byte>, room: nat) returns (r: Outcome)
    ensures var s := Transpile(schema, input, 0, 0, []);
            && (r.Written? <==> s.Written? && |s.out| <= room)
            && (r.Written? ==> r == s)
            && (r.Rewinds? ==> s.Rewinds?)
  {
    hide KnownField, UnknownField, ReadLong, Signed32, Lookup;
    var out: seq<byte>, last, i := [], 0, 0;
    while i < |input|
      invariant Transpile(schema, input, i, last, out) == Transpile(schema, input, 0, 0, [])
      decreases |input| - i
    {
      var read := ReadVarint(input, i);
      if read.Eof? { return Throws; }
      var tag, j := read.value, read.next;
      var s: Step;
      match Lookup(schema, Signed32(tag / 8)) {
        case Some(f) => s := MoveKnown(f, input, j, last, out);
        case None => s := MoveUnknown(tag % 8, input, j, last, out);
      }
      assert s == TranspileStep(schema, input, i, last, out);
      if s.Throw? { return Throws; }
      if s.Rewind? { return Rewinds; }
      out, last, i := s.out, s.last, s.next;
      if |out| > room {
        OutputGrows(schema, input, i, last, out);
        return Throws;
      }
    }
    if |out| >= room { return Throws; }
    return Written(out + [0]);
  }
}

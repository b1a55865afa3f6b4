/** The in-memory Protobuf to Thrift Compact transpiler emitted for Go. */
module GoTranspiler {
  import opened Bytes
  import opened Schema
  import opened ThriftCompact
  import opened ZigZagBits
  import GoProto
  import Varint

  /** Conversion to a 16-bit two's-complement integer. */
  function Signed16(n: int): (s: int)
    ensures -32768 <= s < 32768
  {
    var u := n % 65536;
    if u < 32768 then u else u - 65536
  }

  /** Failed: an error return.  Panics: a slice out of range, or a length whose conversion
      to int moves the cursor back. */
  datatype Outcome = Written(out: seq<byte>) | Failed | Panics

  datatype Step = Go(next: nat, last: int, out: seq<byte>) | Fail | Panic

  /** The switch case of a known field, `j` being the index after its tag.  The string case
      leaves the last field ID as it was. */
  function KnownField(f: Field, buf: seq<byte>, j: nat, last: int, out: seq<byte>): (s: Step)
    ensures s.Go? ==> s.next >= j && |s.out| >= |out|
  {
    if !GoProto.OnWire(f.kind) then Go(j, last, out)
    else
      match Varint.Decode64(buf, j)
      case Eof => Fail
      case Got(u, k) =>
        if f.kind.Text? then
          var post := GoProto.PostIndex(k, u);
          if post < k || post > |buf| then Panic
          else Go(post, last, out + (Header(f.id, last, T_BINARY) + Varint.Encode(u)) + buf[k..post])
        else Go(k, f.id, out + ItemBytes(Item(f.id, Zig(f.kind.Int64?, Zig64(u))), last))
  }

  function UnknownField(wire: nat, buf: seq<byte>, j: nat, last: int, out: seq<byte>): (s: Step)
    ensures s.Go? ==> s.next >= j && |s.out| >= |out|
  {
    match Varint.Decode64(buf, j)
    case Eof => Fail
    case Got(u, k) =>
      if wire != 2 then Go(k, last, out)
      else if GoProto.PostIndex(k, u) < k then Panic
      else Go(GoProto.PostIndex(k, u), last, out)
  }

  /** The body of the loop; the field number is cut to 16 bits. */
  function TranspileStep(schema: seq<Field>, buf: seq<byte>, i: nat, last: int, out: seq<byte>): (s: Step)
    ensures s.Go? ==> s.next > i && |s.out| >= |out|
  {
    match Varint.Decode64(buf, i)
    case Eof => Fail
    case Got(tag, j) =>
      match Lookup(schema, Signed16(tag / 8))
      case Some(f) => KnownField(f, buf, j, last, out)
      case None => UnknownField(tag % 8, buf, j, last, out)
  }

  function Transpile(schema: seq<Field>, buf: seq<byte>, i: nat, last: int, out: seq<byte>): (r: Outcome)
    ensures r.Written? ==> |r.out| > |out|
    decreases |buf| - i
  {
    if i >= |buf| then Written(out + [0])
    else
      match TranspileStep(schema, buf, i, last, out)
      case Go(next, last', out') => Transpile(schema, buf, next, last', out')
      case Fail => Failed
      case Panic => Panics
  }

  // ------------------------------------------------------------ writing in place

  method PutHeader(out: array<byte>, i: nat, id: int, last: int, ttype: nat) returns (ok: bool, next: nat)
    requires 0 < ttype < 16
    modifies out
    ensures next == i + |Header(id, last, ttype)| && ok == (next <= out.Length)
    ensures ok ==> out[..] == Splice(old(out[..]), i, Header(id, last, ttype))
  {
    var delta := id - last;
    if delta > 0 && delta <= 15 {
      next := i + 1;
      ok := next <= out.Length;
      if ok {
        Varint.StoreByte(out, i, delta * 16 + ttype);
      }
    } else {
      next := i + 3;
      ok := next <= out.Length;
      if ok {
        out[i] := ttype;
        out[i + 1] := id / 256 % 256;
        out[i + 2] := id % 256;
      }
    }
  }

  /** A header and the varint behind it; the inlined varint loop is that of writeVarint. */
  method PutKey(out: array<byte>, i: nat, id: int, last: int, ttype: nat, v: nat) returns (ok: bool, next: nat)
    requires 0 < ttype < 16
    modifies out
    ensures next == i + |Header(id, last, ttype) + Varint.Encode(v)| && ok == (next <= out.Length)
    ensures ok ==> out[..] == Splice(old(out[..]), i, Header(id, last, ttype) + Varint.Encode(v))
  {
    hide Header, Varint.Encode, Splice;
    ok, next := PutHeader(out, i, id, last, ttype);
    if ok {
      ok, next := Varint.WriteVarint(out, next, v);
      if ok {
        SpliceTwice(old(out[..]), i, Header(id, last, ttype), Varint.Encode(v));
      }
    } else {
      next := next + |Varint.Encode(v)|;
    }
  }

  /** `out` holds the output `acc`, written over `before`; a copy that was cut short leaves it
      longer than the buffer. */
  ghost predicate Holds(out: array<byte>, before: seq<byte>, acc: seq<byte>)
    reads out
  {
    out.Length == |before| && (|acc| <= out.Length ==> out[..] == Splice(before, 0, acc))
  }

  /** Where one iteration leaves the loop, or that it returns an error or panics. */
  datatype Moved = Moved(i: nat, last: int, outIdx: nat) | Errs | Crashes

  /** The iteration does what the step says, unless it runs out of room. */
  predicate Matches(m: Moved, s: Step, room: nat) {
    match m
    case Moved(i, last, outIdx) => s.Go? && s.next == i && s.last == last && |s.out| == outIdx
    case Errs => s.Fail?
    case Crashes => s.Panic? || (s.Go? && |s.out| > room)
  }

  method MoveInt(f: Field, input: seq<byte>, j: nat, last: int, out: array<byte>, outIdx: nat,
                 ghost acc: seq<byte>, ghost before: seq<byte>) returns (m: Moved)
    requires (f.kind.Int32? || f.kind.Int64?) && outIdx == |acc| && Holds(out, before, acc)
    modifies out
    ensures var s := KnownField(f, input, j, last, acc);
            Matches(m, s, out.Length) && (m.Moved? ==> Holds(out, before, s.out))
  {
    hide Zig64, Header, Varint.Encode, Varint.Decode64, Splice;
    var read := Varint.ReadVarint(input, j);
    if read.Eof? { return Errs; }
    var zz := Zig64(read.value);
    var ttype := if f.kind.Int64? then T_I64 else T_I32;
    ghost var piece := Header(f.id, last, ttype) + Varint.Encode(zz);
    assert piece == ItemBytes(Item(f.id, Zig(f.kind.Int64?, zz)), last);
    var ok, next := PutKey(out, outIdx, f.id, last, ttype, zz);
    if !ok { return Crashes; }
    SpliceTwice(before, 0, acc, piece);
    return Moved(read.next, f.id, next);
  }

  method MoveText(f: Field, input: seq<byte>, j: nat, last: int, out: array<byte>, outIdx: nat,
                  ghost acc: seq<byte>, ghost before: seq<byte>) returns (m: Moved)
    requires f.kind.Text? && outIdx == |acc| && Holds(out, before, acc)
    modifies out
    ensures var s := KnownField(f, input, j, last, acc);
            Matches(m, s, out.Length) && (m.Moved? ==> Holds(out, before, s.out))
  {
    hide Header, Varint.Encode, Varint.Decode64, GoProto.PostIndex, Splice;
    var read := Varint.ReadVarint(input, j);
    if read.Eof? { return Errs; }
    var k := read.next;
    var post := GoProto.PostIndex(k, read.value);
    ghost var piece := Header(f.id, last, T_BINARY) + Varint.Encode(read.value);
    var ok, next := PutKey(out, outIdx, f.id, last, T_BINARY, read.value);
    if post < k || post > |input| { return Crashes; }
    if !ok { return Crashes; }
    var bytes := input[k..post];
    SpliceTwice(before, 0, acc, piece);
    var n := GoProto.CopyAt(out, next, bytes);
    if n == |bytes| {
      assert bytes[..n] == bytes;
      SpliceTwice(before, 0, acc + piece, bytes);
    }
    return Moved(post, last, next + |bytes|);
  }

  method SkipUnknown(wire: nat, input: seq<byte>, j: nat, last: int, outIdx: nat, ghost acc: seq<byte>)
    returns (m: Moved)
    requires outIdx == |acc|
    ensures var s := UnknownField(wire, input, j, last, acc);
            Matches(m, s, 0) && (m.Crashes? ==> s.Panic?) && (m.Moved? ==> s.out == acc)
  {
    hide Varint.Decode64, GoProto.PostIndex;
    var read := Varint.ReadVarint(input, j);
    if read.Eof? { return Errs; }
    if wire == 2 {
      var post := GoProto.PostIndex(read.next, read.value);
      if post < read.next { return Crashes; }
      return Moved(post, last, outIdx);
    }
    return Moved(read.next, last, outIdx);
  }

  datatype Result = Done(n: nat) | Error | Panicked

  /** Runs to the end exactly if the whole output fits the buffer; then the buffer starts
      with the output and is unchanged behind it. */
  method TranspileLoop(schema: seq<Field>, input: seq<byte>, out: array<byte>) returns (r: Result)
    modifies out
    ensures var s := Transpile(schema, input, 0, 0, []);
            && (r.Done? <==> s.Written? && |s.out| <= out.Length)
            && (r.Done? ==> r.n == |s.out| && out[..] == Splice(old(out[..]), 0, s.out))
            && (r.Error? ==> s.Failed?)
  {
    hide KnownField, UnknownField, Varint.Decode64, Signed16, Lookup, Splice;
    var last, i, outIdx := 0, 0, 0;
    ghost var acc: seq<byte>, before := [], out[..];
    SpliceNothing(out[..], 0);
    while i < |input|
      invariant Transpile(schema, input, i, last, acc) == Transpile(schema, input, 0, 0, [])
      invariant outIdx == |acc| && Holds(out, before, acc)
      decreases |input| - i
    {
      var read := Varint.ReadVarint(input, i);
      if read.Eof? { return Error; }
      var tag, j := read.value, read.next;
      ghost var step := TranspileStep(schema, input, i, last, acc);
      var m := Moved(j, last, outIdx);
      match Lookup(schema, Signed16(tag / 8)) {
        case Some(f) =>
          if f.kind.Int64? || f.kind.Int32? {
            m := MoveInt(f, input, j, last, out, outIdx, acc, before);
          } else if f.kind.Text? {
            m := MoveText(f, input, j, last, out, outIdx, acc, before);
          } else {
            OffWire(f, input, j, last, acc);
          }
        case None => m := SkipUnknown(tag % 8, input, j, last, outIdx, acc);
      }
      if m.Errs? { return Error; }
      if m.Crashes? { return Panicked; }
      acc := step.out;
      i, last, outIdx := m.i, m.last, m.outIdx;
    }
    if outIdx >= out.Length { return Panicked; }
    Varint.StoreByte(out, outIdx, 0);
    SpliceTwice(before, 0, acc, [0]);
    return Done(outIdx + 1);
  }

  /** A known field of a kind that is not written is passed over after its tag. */
  lemma OffWire(f: Field, buf: seq<byte>, j: nat, last: int, out: seq<byte>)
    requires !GoProto.OnWire(f.kind)
    ensures KnownField(f, buf, j, last, out) == Go(j, last, out)
  {
  }
}

/** The protobuf codec emitted for a Go struct: ProtoSize, MarshalTo and Unmarshal,
    parameterised by the schema. */
module GoProto {
  import opened Bytes
  import opened Schema
  import Varint

  /** The kinds MarshalTo writes; fields of any other kind are left off the wire. */
  predicate OnWire(kind: Kind) { kind.Int32? || kind.Int64? || kind.Text? }

  function WireType(kind: Kind): nat { if kind.Text? then 2 else 0 }

  /** The tag constant written in front of a field; the shift is on 32 bits. */
  function Tag(f: Field): int { Signed32(f.id * 8) + WireType(f.kind) }

  /** The emitted Go text compiles: no duplicate switch case, IDs of 32 bits, and every tag
      written is a constant that fits a byte. */
  predicate Compiles(schema: seq<Field>) {
    DistinctIds(schema) &&
    forall f :: f in schema && OnWire(f.kind) ==> IsInt32(f.id) && 0 <= Tag(f) <= 255
  }

  /** The IDs of written fields must be 0 to 31, up to what the 32-bit shift drops. */
  lemma CompilesExactly(schema: seq<Field>)
    ensures Compiles(schema) <==>
            && DistinctIds(schema)
            && forall f :: f in schema && OnWire(f.kind) ==> IsInt32(f.id) && f.id % 0x2000_0000 <= 31
  {
    forall f | f in schema && OnWire(f.kind)
      ensures 0 <= Tag(f) <= 255 <==> f.id % 0x2000_0000 <= 31
    {
      TagShift(f.id);
    }
  }

  lemma TagShift(id: int)
    ensures var m := id % 0x2000_0000;
            Signed32(id * 8) == if m < 0x1000_0000 then 8 * m else 8 * m - 0x1_0000_0000
  {
    var m, q := id % 0x2000_0000, id / 0x2000_0000;
    assert id * 8 == 8 * m + 0x1_0000_0000 * q;
    assert (8 * m + 0x1_0000_0000 * q) % 0x1_0000_0000 == 8 * m;
  }

  // ------------------------------------------------------------------- marshal

  predicate Sent(f: Field, v: Value) { OnWire(f.kind) && v != Zero(f.kind) }

  /** What follows the tag of a field. */
  function Payload(kind: Kind, v: Value): seq<byte>
    requires HasKind(v, kind) && OnWire(kind)
  {
    if kind.Text? then Varint.Encode(|v.bytes|) + v.bytes else Varint.Encode(Unsigned64(v.n))
  }

  /** One field on the wire; zero values are omitted.  Compiles makes the tag fit. */
  function EncodeField(f: Field, v: Value): seq<byte>
    requires HasKind(v, f.kind)
  {
    if Sent(f, v) then [Tag(f) % 256] + Payload(f.kind, v) else []
  }

  /** The fields from position `k` on, in schema order. */
  function Encode(schema: seq<Field>, x: Message, k: nat := 0): seq<byte>
    requires k <= |schema|
    decreases |schema| - k
  {
    if k == |schema| then []
    else EncodeField(schema[k], Get(x, schema[k])) + Encode(schema, x, k + 1)
  }

  method FieldSize(f: Field, v: Value) returns (size: nat)
    requires HasKind(v, f.kind)
    ensures size == |EncodeField(f, v)|
  {
    size := 0;
    if f.kind.Int32? || f.kind.Int64? {
      if v.n != 0 {
        var n := Varint.SizeOfVarint(Unsigned64(v.n));
        size := 1 + n;
      }
    } else if f.kind.Text? {
      if |v.bytes| > 0 {
        var n := Varint.SizeOfVarint(|v.bytes|);
        size := 1 + n + |v.bytes|;
      }
    }
  }

  method ProtoSize(schema: seq<Field>, x: Message) returns (size: nat)
    ensures size == |Encode(schema, x)|
  {
    size := 0;
    for k := 0 to |schema|
      invariant size + |Encode(schema, x, k)| == |Encode(schema, x)|
    {
      var f := schema[k];
      var n := FieldSize(f, Get(x, f));
      size := size + n;
    }
  }

  /** Go's builtin copy into `dst[i:]`. */
  method CopyAt(dst: array<byte>, i: nat, src: seq<byte>) returns (n: nat)
    requires i <= dst.Length
    modifies dst
    ensures n == if |src| <= dst.Length - i then |src| else dst.Length - i
    ensures dst[..] == Splice(old(dst[..]), i, src[..n])
  {
    n := if |src| <= dst.Length - i then |src| else dst.Length - i;
    forall k | 0 <= k < n {
      dst[i + k] := src[k];
    }
  }

  /** Returned: the length written.  Panicked: a write past the end of the buffer. */
  datatype Marshalled = Returned(n: nat) | Panicked

  /** A tag byte and the varint behind it. */
  method WriteKey(dAtA: array<byte>, i: nat, tag: byte, v: nat) returns (ok: bool, next: nat)
    modifies dAtA
    ensures next == i + 1 + |Varint.Encode(v)| && ok == (next <= dAtA.Length)
    ensures ok ==> dAtA[..] == Splice(old(dAtA[..]), i, [tag] + Varint.Encode(v))
  {
    hide Splice, Varint.Encode;
    if i >= dAtA.Length {
      return false, i + 1 + |Varint.Encode(v)|;
    }
    Varint.StoreByte(dAtA, i, tag);
    ok, next := Varint.WriteVarint(dAtA, i + 1, v);
    if ok {
      SpliceTwice(old(dAtA[..]), i, [tag], Varint.Encode(v));
    }
  }

  /** How much of a field must fit the buffer: a string may be cut short by copy. */
  function Rigid(f: Field, v: Value): nat
    requires HasKind(v, f.kind)
  {
    if f.kind.Text? && v.bytes != [] then 1 + |Varint.Encode(|v.bytes|)| else |EncodeField(f, v)|
  }

  lemma RigidPart(f: Field, v: Value)
    requires HasKind(v, f.kind)
    ensures Rigid(f, v) <= |EncodeField(f, v)|
    ensures Rigid(f, v) == 0 <==> !Sent(f, v)
    ensures f.kind.Text? && Sent(f, v) ==>
              EncodeField(f, v) == [Tag(f) % 256] + Varint.Encode(|v.bytes|) + v.bytes
    ensures !f.kind.Text? && Sent(f, v) ==> EncodeField(f, v) == [Tag(f) % 256] + Varint.Encode(Unsigned64(v.n))
  {
  }

  /** `n` bytes of `piece` at index `i`, or as many as there is room for. */
  predicate Cut(before: seq<byte>, after: seq<byte>, i: nat, piece: seq<byte>, n: nat) {
    && i + n <= |before| && n <= |piece| && (n < |piece| ==> i + n == |before|)
    && after == Splice(before, i, piece[..n])
  }

  method MarshalText(dAtA: array<byte>, i: nat, f: Field, v: Value) returns (r: Marshalled)
    requires HasKind(v, f.kind) && f.kind.Text? && v.bytes != []
    modifies dAtA
    ensures r.Panicked? <==> i + Rigid(f, v) > dAtA.Length
    ensures r.Returned? ==> r.n >= i && Cut(old(dAtA[..]), dAtA[..], i, EncodeField(f, v), r.n - i)
  {
    hide Splice, Varint.Encode, EncodeField;
    RigidPart(f, v);
    ghost var key: seq<byte> := [Tag(f) % 256] + Varint.Encode(|v.bytes|);
    var ok, next := WriteKey(dAtA, i, Tag(f) % 256, |v.bytes|);
    if !ok { return Panicked; }
    var n := CopyAt(dAtA, next, v.bytes);
    SpliceTwice(old(dAtA[..]), i, key, v.bytes[..n]);
    assert (key + v.bytes)[..|key| + n] == key + v.bytes[..n];
    return Returned(next + n);
  }

  method MarshalField(dAtA: array<byte>, i: nat, f: Field, v: Value) returns (r: Marshalled)
    requires HasKind(v, f.kind) && i <= dAtA.Length
    modifies dAtA
    ensures r.Panicked? <==> i + Rigid(f, v) > dAtA.Length
    ensures r.Returned? ==> r.n >= i && Cut(old(dAtA[..]), dAtA[..], i, EncodeField(f, v), r.n - i)
  {
    hide Splice, Varint.Encode, EncodeField;
    RigidPart(f, v);
    if f.kind.Int32? || f.kind.Int64? {
      if v.n != 0 {
        ghost var bytes := EncodeField(f, v);
        var ok, next := WriteKey(dAtA, i, Tag(f) % 256, Unsigned64(v.n));
        if !ok { return Panicked; }
        assert bytes[..|bytes|] == bytes;
        return Returned(next);
      }
    } else if f.kind.Text? {
      if |v.bytes| > 0 {
        r := MarshalText(dAtA, i, f, v);
        return;
      }
    }
    NotSent(f, v);
    SpliceNothing(dAtA[..], i);
    return Returned(i);
  }

  lemma NotSent(f: Field, v: Value)
    requires HasKind(v, f.kind)
    ensures !Sent(f, v) ==> EncodeField(f, v) == [] && EncodeField(f, v)[..0] == []
  {
  }

  /** How much of the fields from position `k` on must fit the buffer: all of them but the
      text of the last one written. */
  function MustFit(schema: seq<Field>, x: Message, k: nat): nat
    requires k <= |schema|
    decreases |schema| - k
  {
    if k == |schema| then 0
    else
      var f, rest := schema[k], MustFit(schema, x, k + 1);
      if rest == 0 then Rigid(f, Get(x, f)) else |EncodeField(f, Get(x, f))| + rest
  }

  lemma {:induction false} MustFitBound(schema: seq<Field>, x: Message, k: nat)
    requires k <= |schema|
    ensures MustFit(schema, x, k) <= |Encode(schema, x, k)|
    decreases |schema| - k
  {
    if k < |schema| {
      RigidPart(schema[k], Get(x, schema[k]));
      MustFitBound(schema, x, k + 1);
    }
  }

  /** The position of the last field that is written, from `k` on. */
  function LastSent(schema: seq<Field>, x: Message, k: nat): (r: Option<Field>)
    requires k <= |schema|
    decreases |schema| - k
  {
    if k == |schema| then None
    else
      var later := LastSent(schema, x, k + 1);
      if later.None? && Sent(schema[k], Get(x, schema[k])) then Some(schema[k]) else later
  }

  /** A buffer may be short of the encoding by the text of the last field written, if that is
      a string, and by nothing else. */
  lemma {:induction false} MustFitExactly(schema: seq<Field>, x: Message, k: nat)
    requires k <= |schema|
    ensures var last := LastSent(schema, x, k);
            |Encode(schema, x, k)| - MustFit(schema, x, k)
            == if last.Some? && last.value.kind.Text? then |Get(x, last.value).bytes| else 0
    ensures MustFit(schema, x, k) == 0 <==> LastSent(schema, x, k).None?
    ensures LastSent(schema, x, k).None? ==> Encode(schema, x, k) == []
    decreases |schema| - k
  {
    hide Varint.Encode;
    if k < |schema| {
      RigidPart(schema[k], Get(x, schema[k]));
      MustFitExactly(schema, x, k + 1);
    }
  }

  lemma EncodeStep(schema: seq<Field>, x: Message, k: nat, done: seq<byte>)
    requires k < |schema|
    ensures done + Encode(schema, x, k)
         == (done + EncodeField(schema[k], Get(x, schema[k]))) + Encode(schema, x, k + 1)
  {
  }

  lemma CutTwice(a: seq<byte>, b: seq<byte>, c: seq<byte>, p: seq<byte>, i: nat, q: seq<byte>, n: nat)
    requires Cut(a, b, 0, p, i) && Cut(b, c, i, q, n)
    ensures Cut(a, c, 0, p + q, i + n)
  {
    hide Splice;
    if i == |p| {
      SpliceTwice(a, 0, p, q[..n]);
      assert p[..i] == p && (p + q)[..i + n] == p + q[..n];
    } else {
      SpliceNothing(b, i);
      assert q[..n] == [] && (p + q)[..i + n] == p[..i];
    }
  }

  /** Fills the buffer with the encoding, or with as much of it as there is room for if only
      the text of the last field written is cut; any other lack of room panics. */
  method MarshalTo(schema: seq<Field>, x: Message, dAtA: array<byte>) returns (r: Marshalled)
    modifies dAtA
    ensures r.Panicked? <==> MustFit(schema, x, 0) > dAtA.Length
    ensures r.Returned? ==> Cut(old(dAtA[..]), dAtA[..], 0, Encode(schema, x), r.n)
  {
    hide Splice, EncodeField, Cut, Rigid;
    var i: nat := 0;
    ghost var done: seq<byte> := [];
    NothingCut(dAtA[..]);
    for k := 0 to |schema|
      invariant done + Encode(schema, x, k) == Encode(schema, x)
      invariant i <= dAtA.Length && Cut(old(dAtA[..]), dAtA[..], 0, done, i)
      invariant MustFit(schema, x, k) > 0 ==> MustFit(schema, x, 0) == |done| + MustFit(schema, x, k)
      invariant MustFit(schema, x, k) == 0 ==> MustFit(schema, x, 0) <= dAtA.Length
    {
      var f := schema[k];
      ghost var bytes, before := EncodeField(f, Get(x, f)), dAtA[..];
      EncodeStep(schema, x, k, done);
      RigidPart(f, Get(x, f));
      CutIndex(old(dAtA[..]), before, done, i);
      var step := MarshalField(dAtA, i, f, Get(x, f));
      if step.Panicked? {
        return Panicked;
      }
      CutTwice(old(dAtA[..]), before, dAtA[..], done, i, bytes, step.n - i);
      done := done + bytes;
      i := step.n;
      CutIndex(old(dAtA[..]), dAtA[..], done, i);
    }
    assert Encode(schema, x, |schema|) == [] && done + [] == done;
    return Returned(i);
  }

  lemma NothingCut(s: seq<byte>)
    ensures Cut(s, s, 0, [], 0)
  {
  }

  lemma CutIndex(a: seq<byte>, b: seq<byte>, p: seq<byte>, i: nat)
    requires Cut(a, b, 0, p, i)
    ensures i <= |a| == |b| && i <= |p| && (i < |p| ==> i == |a|)
  {
  }

  /** Marshal allocates exactly ProtoSize bytes and fills all of them. */
  method Marshal(schema: seq<Field>, x: Message) returns (buf: array<byte>)
    ensures fresh(buf) && buf[..] == Encode(schema, x)
  {
    var size := ProtoSize(schema, x);
    buf := new byte[size](_ => 0);
    MustFitBound(schema, x, 0);
    ghost var bytes := Encode(schema, x);
    var r := MarshalTo(schema, x, buf);
    assert r.n == |bytes| && bytes[..|bytes|] == bytes;
  }

  // ----------------------------------------------------------------- unmarshal

  /** Decoded: nil error.  Failed: an error return.  Stuck: a length whose conversion
      to int moves the cursor backwards or out of range, where Go panics or rescans. */
  datatype Outcome = Decoded(x: Message) | Failed | Stuck

  datatype Step = Next(i: nat, x: Message) | Bad | Jam

  /** `iNdEx + int(length)` on 64-bit integers. */
  function PostIndex(i: nat, length: nat): int {
    Signed64(i + Signed64(length))
  }

  /** The switch case of a known field, `j` being the index after its tag. */
  function KnownField(f: Field, wire: nat, buf: seq<byte>, j: nat, x: Message): (r: Step)
    ensures r.Next? ==> r.i >= j
  {
    if f.kind.Int32? || f.kind.Int64? then
      if wire != 0 then Bad
      else
        match Varint.Decode64(buf, j)
        case Eof => Bad
        case Got(v, k) =>
          Next(k, x[f.id := Num(if f.kind.Int32? then Signed32(v) else Signed64(v))])
    else if f.kind.Text? then
      if wire != 2 then Bad
      else
        match Varint.Decode64(buf, j)
        case Eof => Bad
        case Got(len, k) =>
          var post := PostIndex(k, len);
          if post < 0 || post > |buf| then Bad
          else if post < k then Jam
          else Next(post, x[f.id := Data(buf[k..post])])
    else Next(j, x)
  }

  /** The default case: skip one payload, without checking that it ends in the buffer. */
  function UnknownField(wire: nat, buf: seq<byte>, j: nat, x: Message): (r: Step)
    ensures r.Next? ==> r.i >= j
  {
    match Varint.Decode64(buf, j)
    case Eof => Bad
    case Got(v, k) =>
      if wire == 0 then Next(k, x)
      else if wire == 2 then
        var post := PostIndex(k, v);
        if post < k then Jam else Next(post, x)
      else Bad
  }

  /** The body of the loop of Unmarshal. */
  function UnmarshalStep(schema: seq<Field>, buf: seq<byte>, i: nat, x: Message): (r: Step)
    requires i < |buf|
    ensures r.Next? ==> r.i > i
  {
    match Varint.Decode64(buf, i)
    case Eof => Bad
    case Got(tag, j) =>
      var num, wire := Signed32(tag / 8), tag % 8;
      if wire == 4 then Bad
      else
        match Lookup(schema, num)
        case Some(f) => KnownField(f, wire, buf, j, x)
        case None => UnknownField(wire, buf, j, x)
  }

  function Unmarshal(schema: seq<Field>, buf: seq<byte>, i: nat, x: Message): Outcome
    decreases |buf| - i
  {
    if i >= |buf| then Decoded(x)
    else
      match UnmarshalStep(schema, buf, i, x)
      case Next(j, y) => Unmarshal(schema, buf, j, y)
      case Bad => Failed
      case Jam => Stuck
  }

  method UnmarshalLoop(schema: seq<Field>, dAtA: seq<byte>, x: Message) returns (r: Outcome)
    ensures r == Unmarshal(schema, dAtA, 0, x)
  {
    var y, i := x, 0;
    while i < |dAtA|
      invariant Unmarshal(schema, dAtA, i, y) == Unmarshal(schema, dAtA, 0, x)
    {
      var read := Varint.ReadVarint(dAtA, i);
      if read.Eof? { return Failed; }
      var tag, j := read.value, read.next;
      var num, wire := Signed32(tag / 8), tag % 8;
      if wire == 4 { return Failed; }
      match Lookup(schema, num) {
        case Some(f) =>
          if f.kind.Int32? || f.kind.Int64? {
            if wire != 0 { return Failed; }
            read := Varint.ReadVarint(dAtA, j);
            if read.Eof? { return Failed; }
            y := y[num := Num(if f.kind.Int32? then Signed32(read.value) else Signed64(read.value))];
            i := read.next;
          } else if f.kind.Text? {
            if wire != 2 { return Failed; }
            read := Varint.ReadVarint(dAtA, j);
            if read.Eof? { return Failed; }
            var post := PostIndex(read.next, read.value);
            if post < 0 || post > |dAtA| { return Failed; }
            if post < read.next { return Stuck; }
            y := y[num := Data(dAtA[read.next..post])];
            i := post;
          } else {
            i := j;
          }
        case None =>
          read := Varint.ReadVarint(dAtA, j);
          if read.Eof? { return Failed; }
          if wire == 0 {
            i := read.next;
          } else if wire == 2 {
            var post := PostIndex(read.next, read.value);
            if post < read.next { return Stuck; }
            i := post;
          } else {
            return Failed;
          }
      }
    }
    return Decoded(y);
  }
}

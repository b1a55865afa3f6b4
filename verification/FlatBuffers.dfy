/** The FlatBuffers-style codec emitted for a Go struct: the slot layout the generator
    computes, and the emitted MarshalFlatBuffers and UnmarshalFlatBuffers. */
module FlatBuffers {
  import opened Bytes
  import opened Schema
  import opened Varint
  import GoProto

  // ---------------------------------------------------------------------- layout

  function SlotSize(kind: Kind): (n: nat)
    ensures n == 4 || n == 8
  {
    if kind.Int64? || kind.Double? then 8 else 4
  }

  function AlignUp(offset: nat, size: nat): (r: nat)
    requires size > 0
  {
    if offset % size == 0 then offset else offset + (size - offset % size)
  }

  /** The offset behind the first `k` slots; the vtable offset takes the first 4 bytes. */
  function End(schema: seq<Field>, k: nat): nat
    requires k <= |schema|
    decreases k, 0
  {
    if k == 0 then 4 else Offset(schema, k - 1) + SlotSize(schema[k - 1].kind)
  }

  function Offset(schema: seq<Field>, k: nat): nat
    requires k < |schema|
    decreases k, 1
  {
    AlignUp(End(schema, k), SlotSize(schema[k].kind))
  }

  function TableSize(schema: seq<Field>): nat { End(schema, |schema|) }

  function VtableSize(schema: seq<Field>): nat { 4 + 2 * |schema| }

  /** The kinds that are written and read. */
  predicate Written(kind: Kind) { kind.Int32? || kind.Int64? || kind.Bool? || kind.Text? }

  /** The emitted Go text compiles: table and vtable sizes and offsets are byte constants, and
      for any other kind the reader has a variable that is not used. */
  predicate Compiles(schema: seq<Field>) {
    DistinctIds(schema) && TableSize(schema) <= 255 && forall f :: f in schema ==> Written(f.kind)
  }

  /** The offset computation of the generator. */
  method ComputeOffsets(schema: seq<Field>) returns (offsets: seq<nat>, tableSize: nat)
    ensures |offsets| == |schema| && forall k :: 0 <= k < |schema| ==> offsets[k] == Offset(schema, k)
    ensures tableSize == TableSize(schema)
  {
    offsets := [];
    var current := 4;
    for k := 0 to |schema|
      invariant current == End(schema, k) && |offsets| == k
      invariant forall j :: 0 <= j < k ==> offsets[j] == Offset(schema, j)
    {
      var size := SlotSize(schema[k].kind);
      var rem := current % size;
      if rem != 0 {
        current := current + (size - rem);
      }
      offsets := offsets + [current];
      current := current + size;
    }
    tableSize := current;
  }

  lemma AlignUpBounds(offset: nat, size: nat)
    requires size == 4 || size == 8
    ensures offset <= AlignUp(offset, size) < offset + size && AlignUp(offset, size) % size == 0
  {
  }

  lemma {:induction false} EndMonotone(schema: seq<Field>, j: nat, k: nat)
    requires j <= k <= |schema|
    ensures End(schema, j) <= End(schema, k)
    decreases k
  {
    if j < k {
      EndMonotone(schema, j, k - 1);
      AlignUpBounds(End(schema, k - 1), SlotSize(schema[k - 1].kind));
    }
  }

  /** Slots are size-aligned, inside the table, and in order without overlap. */
  lemma LayoutSound(schema: seq<Field>, j: nat, k: nat)
    requires j <= k < |schema|
    ensures Offset(schema, k) % SlotSize(schema[k].kind) == 0
    ensures 4 <= Offset(schema, k) && Offset(schema, k) + SlotSize(schema[k].kind) <= TableSize(schema)
    ensures j < k ==> Offset(schema, j) + SlotSize(schema[j].kind) <= Offset(schema, k)
  {
    AlignUpBounds(End(schema, k), SlotSize(schema[k].kind));
    EndMonotone(schema, k + 1, |schema|);
    EndMonotone(schema, 0, k);
    if j < k {
      EndMonotone(schema, j + 1, k);
    }
  }

  // ---------------------------------------------------------------- little endian

  function LE(v: nat, n: nat): (s: seq<byte>)
    ensures |s| == n
  {
    if n == 0 then [] else [v % 256] + LE(v / 256, n - 1)
  }

  function FromLE(buf: seq<byte>, i: nat, n: nat): nat
    requires i + n <= |buf|
    decreases n
  {
    if n == 0 then 0 else buf[i] + 256 * FromLE(buf, i + 1, n - 1)
  }

  lemma Pow2None()
    ensures Pow2(8 * 0) == 1
  {
  }

  lemma ByteLess(v: nat, n: nat)
    requires n > 0 && v < Pow2(8 * n)
    ensures v / 256 < Pow2(8 * (n - 1))
  {
    Pow2Add(8, 8 * (n - 1));
    assert Pow2(8) == 256;
  }

  lemma {:induction false} FromLEInverse(buf: seq<byte>, i: nat, v: nat, n: nat)
    requires At(buf, i, LE(v, n)) && v < Pow2(8 * n)
    ensures FromLE(buf, i, n) == v
    decreases n
  {
    hide Pow2;
    if n > 0 {
      AtConcat(buf, i, [v % 256], LE(v / 256, n - 1));
      assert buf[i] == buf[i..i + 1][0];
      ByteLess(v, n);
      FromLEInverse(buf, i + 1, v / 256, n - 1);
    } else {
      Pow2None();
    }
  }

  lemma LEWidths()
    ensures Pow2(8 * 2) == 65536 && Pow2(8 * 4) == TWO_32 && Pow2(8 * 8) == TWO_64
  {
    Pow2Values();
    assert Pow2(8) == 256;
    Pow2Add(8, 8);
  }

  function Zeros(n: nat): (s: seq<byte>)
    ensures |s| == n
  {
    seq(n, _ => 0)
  }

  /** The emitted loop that stores `n` bytes of `v`, low byte first. */
  method StoreLE(buf: array<byte>, i: nat, v: nat, n: nat)
    requires i + n <= buf.Length
    modifies buf
    ensures buf[..] == Splice(old(buf[..]), i, LE(v, n))
  {
    var w := v;
    ghost var done: seq<byte> := [];
    assert buf[..] == Splice(old(buf[..]), i, done);
    hide Splice;
    for j := 0 to n
      invariant |done| == j && done + LE(w, n - j) == LE(v, n)
      invariant buf[..] == Splice(old(buf[..]), i, done)
    {
      ghost var b: byte := w % 256;
      StoreByte(buf, i + j, w % 256);
      SpliceTwice(old(buf[..]), i, done, [b]);
      assert done + LE(w, n - j) == (done + [b]) + LE(w / 256, n - j - 1);
      done := done + [b];
      w := w / 256;
    }
    assert done + [] == done;
  }

  // --------------------------------------------------------------------- contents

  function TextLen(x: Message, f: Field): nat {
    if f.kind.Text? || f.kind.Binary? then |Get(x, f).bytes| else 0
  }

  /** Room reserved behind the table: 4 bytes and the data for every nonempty string.  The
      generator counts binary fields too, with which the emitted text does not compile. */
  function DynamicSize(schema: seq<Field>, x: Message, k: nat): nat
    requires k <= |schema|
  {
    if k == 0 then 0
    else DynamicSize(schema, x, k - 1) + (if TextLen(x, schema[k - 1]) > 0 then 4 + TextLen(x, schema[k - 1]) else 0)
  }

  function Dynamic(schema: seq<Field>, x: Message): nat { DynamicSize(schema, x, |schema|) }

  predicate HasString(f: Field, x: Message) { f.kind.Text? && TextLen(x, f) > 0 }

  /** The strings of the first `k` fields, each behind its length. */
  function Strings(schema: seq<Field>, x: Message, k: nat): seq<byte>
    requires k <= |schema|
  {
    if k == 0 then []
    else
      var f := schema[k - 1];
      Strings(schema, x, k - 1) + if HasString(f, x) then LE(TextLen(x, f), 4) + Get(x, f).bytes else []
  }

  /** The slot of field `k`; a string slot holds the distance from the slot to the string. */
  function Slot(schema: seq<Field>, x: Message, k: nat): (s: seq<byte>)
    requires k < |schema|
    ensures |s| == SlotSize(schema[k].kind)
  {
    var f, v := schema[k], Get(x, schema[k]);
    match f.kind
    case Int32 => LE(v.n % TWO_32, 4)
    case Int64 => LE(v.n % TWO_64, 8)
    case Bool => (if v.on then [1] else [0]) + Zeros(3)
    case Text =>
      if HasString(f, x)
      then LE((TableSize(schema) + |Strings(schema, x, k)| - Offset(schema, k)) % TWO_32, 4)
      else Zeros(4)
    case _ => Zeros(SlotSize(f.kind))
  }

  /** The table up to behind slot `k - 1`. */
  function Table(schema: seq<Field>, x: Message, k: nat): (s: seq<byte>)
    requires k <= |schema|
    ensures |s| == End(schema, k)
  {
    if k == 0 then LE((TableSize(schema) + Dynamic(schema, x)) % TWO_32, 4)
    else
      AlignUpBounds(End(schema, k - 1), SlotSize(schema[k - 1].kind));
      Table(schema, x, k - 1) + Zeros(Offset(schema, k - 1) - End(schema, k - 1)) + Slot(schema, x, k - 1)
  }

  function Vtable(schema: seq<Field>, k: nat): (s: seq<byte>)
    requires k <= |schema|
    ensures |s| == 4 + 2 * k
  {
    if k == 0 then LE(VtableSize(schema), 2) + LE(TableSize(schema), 2)
    else Vtable(schema, k - 1) + LE(Offset(schema, k - 1), 2)
  }

  lemma {:induction false} StringsFit(schema: seq<Field>, x: Message, k: nat)
    requires k <= |schema|
    ensures |Strings(schema, x, k)| <= DynamicSize(schema, x, k)
  {
    if k > 0 {
      StringsFit(schema, x, k - 1);
    }
  }

  lemma {:induction false} DynamicMonotone(schema: seq<Field>, x: Message, k: nat)
    requires k <= |schema|
    ensures DynamicSize(schema, x, k) <= Dynamic(schema, x)
    decreases |schema| - k
  {
    if k < |schema| {
      DynamicMonotone(schema, x, k + 1);
    }
  }

  lemma StringsInside(schema: seq<Field>, x: Message, k: nat)
    requires k <= |schema|
    ensures |Strings(schema, x, k)| <= Dynamic(schema, x)
    ensures End(schema, k) <= TableSize(schema)
  {
    StringsFit(schema, x, k);
    DynamicMonotone(schema, x, k);
    EndMonotone(schema, k, |schema|);
  }

  /** The buffer once the slots of the first `j` and the strings of the first `k` fields
      are written: root offset, table, strings, and the vtable still blank. */
  function Picture(schema: seq<Field>, x: Message, j: nat, k: nat): (s: seq<byte>)
    requires j <= |schema| && k <= |schema|
    ensures |s| == 4 + TableSize(schema) + Dynamic(schema, x) + VtableSize(schema)
  {
    StringsInside(schema, x, j);
    StringsInside(schema, x, k);
    Filled(LE(4, 4), Table(schema, x, j), TableSize(schema),
           Strings(schema, x, k), Dynamic(schema, x), Zeros(VtableSize(schema)))
  }

  /** Two regions of sizes `m` and `n` between `head` and `tail`, each filled from its start. */
  function Filled(head: seq<byte>, a: seq<byte>, m: nat, b: seq<byte>, n: nat, tail: seq<byte>): (s: seq<byte>)
    requires |a| <= m && |b| <= n
    ensures |s| == |head| + m + n + |tail|
  {
    head + (a + Zeros(m - |a|)) + (b + Zeros(n - |b|)) + tail
  }

  function Encode(schema: seq<Field>, x: Message): (s: seq<byte>)
    ensures |s| == 4 + TableSize(schema) + Dynamic(schema, x) + VtableSize(schema)
  {
    StringsInside(schema, x, |schema|);
    Filled(LE(4, 4), Table(schema, x, |schema|), TableSize(schema),
           Strings(schema, x, |schema|), Dynamic(schema, x), Vtable(schema, |schema|))
  }

  lemma FillFirst(head: seq<byte>, a: seq<byte>, m: nat, b: seq<byte>, n: nat, tail: seq<byte>, pad: nat,
                  piece: seq<byte>)
    requires |a| + pad + |piece| <= m && |b| <= n
    ensures Splice(Filled(head, a, m, b, n, tail), |head| + |a| + pad, piece)
         == Filled(head, a + Zeros(pad) + piece, m, b, n, tail)
  {
    var rest := (b + Zeros(n - |b|)) + tail;
    var room := m - |a| - pad - |piece|;
    assert Zeros(m - |a|) == Zeros(pad) + Zeros(|piece|) + Zeros(room);
    var old_ := Filled(head, a, m, b, n, tail);
    assert old_ == (head + a + Zeros(pad)) + Zeros(|piece|) + (Zeros(room) + rest);
    SpliceMiddle(head + a + Zeros(pad), Zeros(|piece|), Zeros(room) + rest, piece);
    assert Filled(head, a + Zeros(pad) + piece, m, b, n, tail)
        == (head + a + Zeros(pad)) + piece + (Zeros(room) + rest);
  }

  lemma FillSecond(head: seq<byte>, a: seq<byte>, m: nat, b: seq<byte>, n: nat, tail: seq<byte>, piece: seq<byte>)
    requires |a| <= m && |b| + |piece| <= n
    ensures Splice(Filled(head, a, m, b, n, tail), |head| + m + |b|, piece)
         == Filled(head, a, m, b + piece, n, tail)
  {
    var front := head + (a + Zeros(m - |a|)) + b;
    var room := n - |b| - |piece|;
    assert Zeros(n - |b|) == Zeros(|piece|) + Zeros(room);
    assert Filled(head, a, m, b, n, tail) == front + Zeros(|piece|) + (Zeros(room) + tail);
    SpliceMiddle(front, Zeros(|piece|), Zeros(room) + tail, piece);
    assert Filled(head, a, m, b + piece, n, tail) == front + piece + (Zeros(room) + tail);
  }

  lemma SpliceMiddle(a: seq<byte>, b: seq<byte>, c: seq<byte>, piece: seq<byte>)
    requires |piece| == |b|
    ensures Splice(a + b + c, |a|, piece) == a + piece + c
  {
  }

  lemma PictureIs(schema: seq<Field>, x: Message, j: nat, k: nat)
    requires j <= |schema| && k <= |schema|
    ensures End(schema, j) <= TableSize(schema) && |Strings(schema, x, k)| <= Dynamic(schema, x)
    ensures Picture(schema, x, j, k)
         == Filled(LE(4, 4), Table(schema, x, j), TableSize(schema),
                   Strings(schema, x, k), Dynamic(schema, x), Zeros(VtableSize(schema)))
  {
    StringsInside(schema, x, j);
    StringsInside(schema, x, k);
  }

  lemma TableStep(schema: seq<Field>, x: Message, k: nat)
    requires k < |schema|
    ensures End(schema, k) <= Offset(schema, k)
    ensures Table(schema, x, k + 1)
         == Table(schema, x, k) + Zeros(Offset(schema, k) - End(schema, k)) + Slot(schema, x, k)
  {
    AlignUpBounds(End(schema, k), SlotSize(schema[k].kind));
  }

  /** Writing the slot of field `k`. */
  lemma SlotWritten(schema: seq<Field>, x: Message, k: nat)
    requires k < |schema|
    ensures 4 + Offset(schema, k) + SlotSize(schema[k].kind) <= |Picture(schema, x, k, k)|
    ensures Splice(Picture(schema, x, k, k), 4 + Offset(schema, k), Slot(schema, x, k)) == Picture(schema, x, k + 1, k)
  {
    hide Picture, Table, LE, Slot, Zeros, Splice, Filled, Strings, Dynamic, TableSize, Offset;
    PictureIs(schema, x, k, k);
    PictureIs(schema, x, k + 1, k);
    TableStep(schema, x, k);
    var pad := Offset(schema, k) - End(schema, k);
    FillFirst(LE(4, 4), Table(schema, x, k), TableSize(schema), Strings(schema, x, k), Dynamic(schema, x),
              Zeros(VtableSize(schema)), pad, Slot(schema, x, k));
  }

  /** Writing the string of field `k`. */
  lemma StringWritten(schema: seq<Field>, x: Message, k: nat)
    requires k < |schema|
    ensures !HasString(schema[k], x) ==> Picture(schema, x, k + 1, k) == Picture(schema, x, k + 1, k + 1)
    ensures HasString(schema[k], x) ==>
              var piece := LE(TextLen(x, schema[k]), 4) + Get(x, schema[k]).bytes;
              var at := 4 + TableSize(schema) + |Strings(schema, x, k)|;
              && at + |piece| <= |Picture(schema, x, k + 1, k)|
              && Splice(Picture(schema, x, k + 1, k), at, piece) == Picture(schema, x, k + 1, k + 1)
  {
    hide Picture, LE, Zeros, Splice, Filled, Table, Dynamic, TableSize;
    PictureIs(schema, x, k + 1, k);
    PictureIs(schema, x, k + 1, k + 1);
    if HasString(schema[k], x) {
      var piece := LE(TextLen(x, schema[k]), 4) + Get(x, schema[k]).bytes;
      FillSecond(LE(4, 4), Table(schema, x, k + 1), TableSize(schema), Strings(schema, x, k), Dynamic(schema, x),
                 Zeros(VtableSize(schema)), piece);
    } else {
      assert Strings(schema, x, k) + [] == Strings(schema, x, k);
    }
  }

  // ---------------------------------------------------------------------- encoder

  lemma SpliceSame(s: seq<byte>, i: nat, piece: seq<byte>)
    requires At(s, i, piece)
    ensures Splice(s, i, piece) == s
  {
  }

  lemma BlankAt(head: seq<byte>, a: seq<byte>, m: nat, b: seq<byte>, n: nat, tail: seq<byte>, pad: nat, len: nat)
    requires |a| + pad + len <= m && |b| <= n
    ensures At(Filled(head, a, m, b, n, tail), |head| + |a| + pad, Zeros(len))
  {
    var rest := (b + Zeros(n - |b|)) + tail;
    assert Zeros(m - |a|) == Zeros(pad) + Zeros(len) + Zeros(m - |a| - pad - len);
    assert Filled(head, a, m, b, n, tail)
        == (head + a + Zeros(pad)) + Zeros(len) + (Zeros(m - |a| - pad - len) + rest);
    AtMiddle(head + a + Zeros(pad), Zeros(len), Zeros(m - |a| - pad - len) + rest);
  }

  /** The slot of the next field is still blank. */
  lemma SlotBlank(schema: seq<Field>, x: Message, k: nat)
    requires k < |schema|
    ensures At(Picture(schema, x, k, k), 4 + Offset(schema, k), Zeros(SlotSize(schema[k].kind)))
  {
    hide Picture, Table, LE, Slot, Zeros, Splice, Filled, Strings, Dynamic, TableSize, Offset;
    PictureIs(schema, x, k, k);
    PictureIs(schema, x, k + 1, k);
    TableStep(schema, x, k);
    BlankAt(LE(4, 4), Table(schema, x, k), TableSize(schema), Strings(schema, x, k), Dynamic(schema, x),
            Zeros(VtableSize(schema)), Offset(schema, k) - End(schema, k), SlotSize(schema[k].kind));
  }

  /** Setting the first byte of a blank 4-byte slot is writing the whole slot. */
  lemma FlagInBlank(s: seq<byte>, i: nat, b: byte)
    requires At(s, i, Zeros(4))
    ensures Splice(s, i, [b]) == Splice(s, i, [b] + Zeros(3))
  {
    var t := Splice(s, i, [b]);
    assert Zeros(4) == [0] + Zeros(3);
    AtConcat(s, i, [0], Zeros(3));
    assert t[i + 1..i + 4] == s[i + 1..i + 4];
    SpliceSame(t, i + 1, Zeros(3));
    SpliceTwice(s, i, [b], Zeros(3));
  }

  method WriteSlot(schema: seq<Field>, x: Message, k: nat, offset: nat, cur: nat, buf: array<byte>)
    requires k < |schema| && offset == Offset(schema, k)
    requires cur == 4 + TableSize(schema) + |Strings(schema, x, k)|
    requires buf[..] == Picture(schema, x, k, k)
    modifies buf
    ensures buf[..] == Picture(schema, x, k + 1, k)
  {
    hide Picture, Splice, Zeros, LE, Strings, TableSize, Offset;
    SlotWritten(schema, x, k);
    SlotBlank(schema, x, k);
    var f, v := schema[k], Get(x, schema[k]);
    if f.kind.Int32? {
      StoreLE(buf, 4 + offset, v.n % TWO_32, 4);
    } else if f.kind.Int64? {
      StoreLE(buf, 4 + offset, v.n % TWO_64, 8);
    } else if f.kind.Bool? {
      if v.on {
        FlagInBlank(buf[..], 4 + offset, 1);
        StoreByte(buf, 4 + offset, 1);
      } else {
        ZerosCons();
        SpliceSame(buf[..], 4 + offset, Slot(schema, x, k));
      }
    } else if HasString(f, x) {
      StoreLE(buf, 4 + offset, (cur - (4 + offset)) % TWO_32, 4);
    } else {
      SpliceSame(buf[..], 4 + offset, Slot(schema, x, k));
    }
  }

  lemma ZerosCons()
    ensures [0] + Zeros(3) == Zeros(4)
  {
  }

  method WriteString(schema: seq<Field>, x: Message, k: nat, cur: nat, buf: array<byte>) returns (next: nat)
    requires k < |schema| && cur == 4 + TableSize(schema) + |Strings(schema, x, k)|
    requires buf[..] == Picture(schema, x, k + 1, k)
    modifies buf
    ensures buf[..] == Picture(schema, x, k + 1, k + 1)
    ensures next == 4 + TableSize(schema) + |Strings(schema, x, k + 1)|
  {
    hide Picture, Splice, Zeros, LE, TableSize, Offset;
    StringWritten(schema, x, k);
    next := cur;
    var f := schema[k];
    if HasString(f, x) {
      var bytes := Get(x, f).bytes;
      ghost var len := LE(|bytes|, 4);
      StoreLE(buf, cur, |bytes|, 4);
      var n := GoProto.CopyAt(buf, cur + 4, bytes);
      SpliceTwice(old(buf[..]), cur, len, bytes);
      assert bytes[..n] == bytes;
      next := cur + 4 + |bytes|;
    }
  }

  method ComputeDynamicSize(schema: seq<Field>, x: Message) returns (size: nat)
    ensures size == Dynamic(schema, x)
  {
    size := 0;
    for k := 0 to |schema|
      invariant size == DynamicSize(schema, x, k)
    {
      if TextLen(x, schema[k]) > 0 {
        size := size + 4 + TextLen(x, schema[k]);
      }
    }
  }

  lemma BlankPicture(schema: seq<Field>, x: Message)
    ensures var n := |Picture(schema, x, 0, 0)|;
            n >= 8 && Picture(schema, x, 0, 0)
                   == LE(4, 4) + LE((TableSize(schema) + Dynamic(schema, x)) % TWO_32, 4) + Zeros(n - 8)
  {
    PictureIs(schema, x, 0, 0);
    hide LE;
    var v := LE((TableSize(schema) + Dynamic(schema, x)) % TWO_32, 4);
    assert Table(schema, x, 0) == v && Strings(schema, x, 0) == [];
    var n := |Picture(schema, x, 0, 0)|;
    assert Zeros(n - 8) == Zeros(TableSize(schema) - 4) + Zeros(Dynamic(schema, x)) + Zeros(VtableSize(schema));
  }

  method MarshalFlatBuffers(schema: seq<Field>, x: Message) returns (buf: array<byte>)
    requires Compiles(schema)
    ensures fresh(buf) && buf[..] == Encode(schema, x)
  {
    hide Picture, Splice, Encode, Zeros, LE, Strings, Table, Vtable, End, Offset, TableSize, Dynamic;
    var dynamicSize := ComputeDynamicSize(schema, x);
    var offsets, tableSize := ComputeOffsets(schema);
    var vtableSize := VtableSize(schema);
    var vtableStart := 4 + tableSize + dynamicSize;
    buf := new byte[vtableStart + vtableSize](_ => 0);
    AllBlank(buf[..]);
    WriteHeads(buf, (vtableStart - 4) % TWO_32);
    BlankPicture(schema, x);
    var cur := 4 + tableSize;
    NoStrings(schema, x);
    for k := 0 to |schema|
      invariant buf[..] == Picture(schema, x, k, k)
      invariant cur == 4 + TableSize(schema) + |Strings(schema, x, k)|
    {
      WriteSlot(schema, x, k, offsets[k], cur, buf);
      cur := WriteString(schema, x, k, cur, buf);
    }
    WriteVtable(schema, x, offsets, tableSize, vtableStart, buf);
  }

  lemma NoStrings(schema: seq<Field>, x: Message)
    ensures Strings(schema, x, 0) == []
  {
  }

  lemma AllBlank(s: seq<byte>)
    requires forall i :: 0 <= i < |s| ==> s[i] == 0
    ensures s == Zeros(|s|)
  {
  }

  /** The root offset, whose only nonzero byte is the first, and the vtable offset. */
  method WriteHeads(buf: array<byte>, vtableOffset: nat)
    requires buf.Length >= 8 && buf[..] == Zeros(buf.Length)
    modifies buf
    ensures buf[..] == LE(4, 4) + LE(vtableOffset, 4) + Zeros(buf.Length - 8)
  {
    hide LE, Splice;
    StoreByte(buf, 0, 4);
    StoreLE(buf, 4, vtableOffset, 4);
    HeadsWritten(buf.Length, LE(vtableOffset, 4));
  }

  lemma HeadsWritten(n: nat, v: seq<byte>)
    requires n >= 8 && |v| == 4
    ensures Splice(Splice(Zeros(n), 0, [4]), 4, v) == LE(4, 4) + v + Zeros(n - 8)
  {
    assert LE(4, 4) == [4] + LE(0, 3);
    assert LE(0, 3) == [0, 0, 0];
    assert Splice(Zeros(n), 0, [4]) == LE(4, 4) + Zeros(4) + Zeros(n - 8);
  }

  method WriteVtable(schema: seq<Field>, x: Message, offsets: seq<nat>, tableSize: nat, start: nat, buf: array<byte>)
    requires |offsets| == |schema| && forall k :: 0 <= k < |schema| ==> offsets[k] == Offset(schema, k)
    requires tableSize == TableSize(schema) && start == 4 + tableSize + Dynamic(schema, x)
    requires buf[..] == Picture(schema, x, |schema|, |schema|)
    modifies buf
    ensures buf[..] == Encode(schema, x)
  {
    hide Picture, Encode, Splice, Zeros, LE, Offset, TableSize, Dynamic;
    VtableWritten(schema, x);
    StoreLE(buf, start, VtableSize(schema), 2);
    StoreLE(buf, start + 2, tableSize, 2);
    SpliceTwice(old(buf[..]), start, LE(VtableSize(schema), 2), LE(tableSize, 2));
    for k := 0 to |schema|
      invariant start + 4 + 2 * |schema| <= buf.Length
      invariant buf[..] == Splice(old(buf[..]), start, Vtable(schema, k))
    {
      StoreLE(buf, start + 4 + 2 * k, offsets[k], 2);
      SpliceTwice(old(buf[..]), start, Vtable(schema, k), LE(offsets[k], 2));
    }
  }

  lemma VtableWritten(schema: seq<Field>, x: Message)
    ensures var n, at := |schema|, 4 + TableSize(schema) + Dynamic(schema, x);
            at + VtableSize(schema) == |Picture(schema, x, n, n)| &&
            Splice(Picture(schema, x, n, n), at, Vtable(schema, n)) == Encode(schema, x)
  {
    hide Table, Strings, Vtable, LE, Zeros, TableSize, Dynamic;
    PictureIs(schema, x, |schema|, |schema|);
    var front := LE(4, 4) + (Table(schema, x, |schema|) + Zeros(TableSize(schema) - End(schema, |schema|)))
                 + (Strings(schema, x, |schema|) + Zeros(Dynamic(schema, x) - |Strings(schema, x, |schema|)|));
    assert Picture(schema, x, |schema|, |schema|) == front + Zeros(VtableSize(schema)) + [];
    assert Encode(schema, x) == front + Vtable(schema, |schema|) + [];
    SpliceMiddle(front, Zeros(VtableSize(schema)), [], Vtable(schema, |schema|));
  }
}

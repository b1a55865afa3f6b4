/** The emitted UnmarshalFlatBuffers, and that it undoes MarshalFlatBuffers. */
module FlatBuffersLaws {
  import opened Bytes
  import opened Schema
  import opened FlatBuffers

  /** Panics: a vtable size read from the buffer sends an access out of bounds. */
  datatype Outcome = Ok(x: Message) | Err | Panics

  /** What a field assignment makes of a slot at absolute offset `at`; None leaves the
      field as it was. */
  function ReadSlot(kind: Kind, buf: seq<byte>, at: nat): Option<Value> {
    match kind
    case Int32 => if at + 4 <= |buf| then Some(Num(Signed32(FromLE(buf, at, 4)))) else None
    case Int64 => if at + 8 <= |buf| then Some(Num(Signed64(FromLE(buf, at, 8)))) else None
    case Bool => if at < |buf| then Some(Flag(buf[at] != 0)) else None
    case Text =>
      if at + 4 > |buf| then None
      else
        var start := at + FromLE(buf, at, 4);
        if start + 4 > |buf| then None
        else
          var len := FromLE(buf, start, 4);
          if start + 4 + len > |buf| then None else Some(Data(buf[start + 4..start + 4 + len]))
    case _ => None
  }

  function Assign(y: Message, id: int, v: Option<Value>): Message {
    if v.Some? then y[id := v.value] else y
  }

  /** The field reads from position `k` on. */
  function ReadFields(schema: seq<Field>, buf: seq<byte>, root: nat, vtable: nat, vsize: nat, k: nat,
                      y: Message): Outcome
    requires k <= |schema|
    decreases |schema| - k
  {
    if k == |schema| then Ok(y)
    else if 4 + 2 * k + 2 > vsize then ReadFields(schema, buf, root, vtable, vsize, k + 1, y)
    else if vtable + 4 + 2 * k + 2 > |buf| then Panics
    else
      var foffset := FromLE(buf, vtable + 4 + 2 * k, 2);
      var f := schema[k];
      ReadFields(schema, buf, root, vtable, vsize, k + 1,
                 if foffset > 0 then Assign(y, f.id, ReadSlot(f.kind, buf, root + foffset)) else y)
  }

  function Decode(schema: seq<Field>, buf: seq<byte>, y: Message): Outcome {
    if |buf| < 8 then Err
    else
      var root := FromLE(buf, 0, 4);
      if root + 4 > |buf| then Err
      else
        var vtable := root + Signed32(FromLE(buf, root, 4));
        if vtable < 0 || vtable + 4 > |buf| then Err
        else ReadFields(schema, buf, root, vtable, FromLE(buf, vtable, 2), 0, y)
  }

  method ReadLE(buf: seq<byte>, i: nat, n: nat) returns (v: nat)
    requires i + n <= |buf|
    ensures v == FromLE(buf, i, n)
  {
    v := 0;
    var j := n;
    while j > 0
      invariant 0 <= j <= n
      invariant v == FromLE(buf, i + j, n - j)
    {
      j := j - 1;
      v := buf[i + j] + 256 * v;
    }
  }

  /** The assignment of one field, behind its bounds tests. */
  method ReadField(x: Message, f: Field, buf: seq<byte>, at: nat) returns (y: Message)
    ensures y == Assign(x, f.id, ReadSlot(f.kind, buf, at))
  {
    hide FromLE, Signed32, Signed64;
    y := x;
    if f.kind.Int32? {
      if at + 4 <= |buf| {
        var u := ReadLE(buf, at, 4);
        y := y[f.id := Num(Signed32(u))];
      }
    } else if f.kind.Int64? {
      if at + 8 <= |buf| {
        var u := ReadLE(buf, at, 8);
        y := y[f.id := Num(Signed64(u))];
      }
    } else if f.kind.Bool? {
      if at < |buf| {
        y := y[f.id := Flag(buf[at] != 0)];
      }
    } else if f.kind.Text? {
      if at + 4 <= |buf| {
        var rel := ReadLE(buf, at, 4);
        var start := at + rel;
        if start + 4 <= |buf| {
          var len := ReadLE(buf, start, 4);
          if start + 4 + len <= |buf| {
            y := y[f.id := Data(buf[start + 4..start + 4 + len])];
          }
        }
      }
    }
  }

  method UnmarshalFlatBuffers(schema: seq<Field>, buf: seq<byte>, x: Message) returns (r: Outcome)
    ensures r == Decode(schema, buf, x)
  {
    hide FromLE, ReadSlot, Assign, Signed32;
    if |buf| < 8 { return Err; }
    var root := ReadLE(buf, 0, 4);
    if root + 4 > |buf| { return Err; }
    var u := ReadLE(buf, root, 4);
    var vtable := root + Signed32(u);
    if vtable < 0 || vtable + 4 > |buf| { return Err; }
    var vsize := ReadLE(buf, vtable, 2);
    var y := x;
    for k := 0 to |schema|
      invariant ReadFields(schema, buf, root, vtable, vsize, k, y) == ReadFields(schema, buf, root, vtable, vsize, 0, x)
    {
      if 4 + 2 * k + 2 <= vsize {
        if vtable + 4 + 2 * k + 2 > |buf| { return Panics; }
        var foffset := ReadLE(buf, vtable + 4 + 2 * k, 2);
        if foffset > 0 {
          y := ReadField(y, schema[k], buf, root + foffset);
        }
      }
    }
    return Ok(y);
  }

  // ------------------------------------------------------- where things are written

  lemma {:induction false} TablePrefix(schema: seq<Field>, x: Message, k: nat, n: nat)
    requires k <= n <= |schema|
    ensures Table(schema, x, k) <= Table(schema, x, n)
  {
    hide Slot, LE, Zeros, Offset, TableSize;
    if k < n {
      TablePrefix(schema, x, k, n - 1);
      TableStep(schema, x, n - 1);
    }
  }

  lemma {:induction false} StringsPrefix(schema: seq<Field>, x: Message, k: nat, n: nat)
    requires k <= n <= |schema|
    ensures Strings(schema, x, k) <= Strings(schema, x, n)
  {
    if k < n {
      StringsPrefix(schema, x, k, n - 1);
    }
  }

  lemma {:induction false} VtablePrefix(schema: seq<Field>, k: nat, n: nat)
    requires k <= n <= |schema|
    ensures Vtable(schema, k) <= Vtable(schema, n)
  {
    if k < n {
      VtablePrefix(schema, k, n - 1);
    }
  }

  lemma AtInPrefix(buf: seq<byte>, i: nat, whole: seq<byte>, part: seq<byte>, at: nat, piece: seq<byte>)
    requires At(buf, i, whole) && part <= whole && At(part, at, piece)
    ensures At(buf, i + at, piece)
  {
    var front, rest := part[..at], part[at + |piece|..];
    assert whole == part + whole[|part|..] && part == (front + piece) + rest;
    AtConcat(buf, i, part, whole[|part|..]);
    AtConcat(buf, i, front + piece, rest);
    AtConcat(buf, i, front, piece);
  }

  /** The four regions of the buffer. */
  lemma Regions(schema: seq<Field>, x: Message)
    ensures var buf, t, d := Encode(schema, x), TableSize(schema), Dynamic(schema, x);
            && At(buf, 0, LE(4, 4)) && At(buf, 4, Table(schema, x, |schema|))
            && At(buf, 4 + t, Strings(schema, x, |schema|)) && At(buf, 4 + t + d, Vtable(schema, |schema|))
  {
    hide Table, Strings, Vtable, LE, Zeros, Dynamic, Filled;
    StringsInside(schema, x, |schema|);
    FilledParts(LE(4, 4), Table(schema, x, |schema|), Strings(schema, x, |schema|), Dynamic(schema, x),
                Vtable(schema, |schema|));
  }

  lemma FilledParts(h: seq<byte>, t: seq<byte>, s: seq<byte>, n: nat, v: seq<byte>)
    requires |s| <= n
    ensures var buf := Filled(h, t, |t|, s, n, v);
            At(buf, 0, h) && At(buf, |h|, t) && At(buf, |h| + |t|, s) && At(buf, |h| + |t| + n, v)
  {
    var z := Zeros(n - |s|);
    assert Filled(h, t, |t|, s, n, v) == h + t + s + z + v;
  }

  lemma SlotAt(schema: seq<Field>, x: Message, k: nat)
    requires k < |schema|
    ensures At(Encode(schema, x), 4 + Offset(schema, k), Slot(schema, x, k))
  {
    hide Encode, Table, Slot, Zeros, LE, Strings, Vtable, Dynamic;
    Regions(schema, x);
    TablePrefix(schema, x, k + 1, |schema|);
    TableStep(schema, x, k);
    var front := Table(schema, x, k) + Zeros(Offset(schema, k) - End(schema, k));
    assert Table(schema, x, k + 1) == front + Slot(schema, x, k) + [];
    AtMiddle(front, Slot(schema, x, k), []);
    AtInPrefix(Encode(schema, x), 4, Table(schema, x, |schema|), Table(schema, x, k + 1), Offset(schema, k),
               Slot(schema, x, k));
  }

  lemma StringsStep(schema: seq<Field>, x: Message, k: nat)
    requires k < |schema| && HasString(schema[k], x)
    ensures Strings(schema, x, k + 1)
         == Strings(schema, x, k) + (LE(TextLen(x, schema[k]), 4) + Get(x, schema[k]).bytes)
  {
  }

  lemma StringAt(schema: seq<Field>, x: Message, k: nat)
    requires k < |schema| && HasString(schema[k], x)
    ensures At(Encode(schema, x), 4 + TableSize(schema) + |Strings(schema, x, k)|,
               LE(TextLen(x, schema[k]), 4) + Get(x, schema[k]).bytes)
  {
    hide Encode, Table, Slot, Zeros, LE, Vtable, Dynamic, TableSize, Strings;
    Regions(schema, x);
    StringsStep(schema, x, k);
    StringsPrefix(schema, x, k + 1, |schema|);
    var piece := LE(TextLen(x, schema[k]), 4) + Get(x, schema[k]).bytes;
    assert Strings(schema, x, k + 1) == Strings(schema, x, k) + piece + [];
    AtMiddle(Strings(schema, x, k), piece, []);
    AtInPrefix(Encode(schema, x), 4 + TableSize(schema), Strings(schema, x, |schema|), Strings(schema, x, k + 1),
               |Strings(schema, x, k)|, piece);
  }

  lemma VtableAt(schema: seq<Field>, x: Message, k: nat)
    requires k < |schema|
    ensures At(Encode(schema, x), 4 + TableSize(schema) + Dynamic(schema, x) + 4 + 2 * k, LE(Offset(schema, k), 2))
  {
    hide Encode, Table, Slot, Zeros, LE, Strings, Dynamic, TableSize, Offset;
    Regions(schema, x);
    VtablePrefix(schema, k + 1, |schema|);
    assert Vtable(schema, k + 1) == Vtable(schema, k) + LE(Offset(schema, k), 2) + [];
    AtMiddle(Vtable(schema, k), LE(Offset(schema, k), 2), []);
    AtInPrefix(Encode(schema, x), 4 + TableSize(schema) + Dynamic(schema, x), Vtable(schema, |schema|),
               Vtable(schema, k + 1), 4 + 2 * k, LE(Offset(schema, k), 2));
  }

  // --------------------------------------------------------------------- round trip

  lemma SignedOfMod(n: int)
    ensures IsInt32(n) ==> Signed32(n % TWO_32) == n
    ensures IsInt64(n) ==> Signed64(n % TWO_64) == n
  {
  }

  lemma NumberReads(buf: seq<byte>, at: nat, n: int)
    ensures IsInt32(n) && At(buf, at, LE(n % TWO_32, 4)) ==> ReadSlot(Int32, buf, at) == Some(Num(n))
    ensures IsInt64(n) && At(buf, at, LE(n % TWO_64, 8)) ==> ReadSlot(Int64, buf, at) == Some(Num(n))
  {
    hide Signed32, Signed64, LE, FromLE, Pow2;
    LEWidths();
    SignedOfMod(n);
    if At(buf, at, LE(n % TWO_32, 4)) { FromLEInverse(buf, at, n % TWO_32, 4); }
    if At(buf, at, LE(n % TWO_64, 8)) { FromLEInverse(buf, at, n % TWO_64, 8); }
  }

  lemma FlagReads(buf: seq<byte>, at: nat, on: bool)
    requires At(buf, at, (if on then [1] else [0]) + Zeros(3))
    ensures ReadSlot(Bool, buf, at) == Some(Flag(on))
  {
    assert buf[at] == buf[at..at + 4][0];
  }

  /** A blank string slot points at itself and so reads as the empty string. */
  lemma ZeroBytes()
    ensures Zeros(4) == LE(0, 4)
  {
    assert LE(0, 2) == [0, 0];
    assert LE(0, 4) == [0, 0] + LE(0, 2);
  }

  lemma EmptyReads(buf: seq<byte>, at: nat)
    requires At(buf, at, Zeros(4))
    ensures ReadSlot(Text, buf, at) == Some(Data([]))
  {
    hide LE, FromLE, Zeros, Pow2;
    ZeroBytes();
    LEWidths();
    FromLEInverse(buf, at, 0, 4);
    assert buf[at + 4..at + 4] == [];
  }

  lemma StringReads(buf: seq<byte>, at: nat, start: nat, bytes: seq<byte>)
    requires at <= start && |buf| < TWO_32
    requires At(buf, at, LE(start - at, 4)) && At(buf, start, LE(|bytes|, 4) + bytes)
    ensures ReadSlot(Text, buf, at) == Some(Data(bytes))
  {
    hide LE, FromLE, Pow2;
    LEWidths();
    AtConcat(buf, start, LE(|bytes|, 4), bytes);
    FromLEInverse(buf, at, start - at, 4);
    FromLEInverse(buf, start, |bytes|, 4);
  }

  /** Every written field reads back from its slot. */
  lemma FieldReads(schema: seq<Field>, x: Message, k: nat)
    requires k < |schema| && Written(schema[k].kind) && |Encode(schema, x)| < TWO_32
    ensures ReadSlot(schema[k].kind, Encode(schema, x), 4 + Offset(schema, k)) == Some(Get(x, schema[k]))
  {
    hide Encode, Table, Strings, Vtable, Dynamic, Zeros, LE, FromLE, Offset, ReadSlot, TableSize;
    var f, v, buf, at := schema[k], Get(x, schema[k]), Encode(schema, x), 4 + Offset(schema, k);
    SlotAt(schema, x, k);
    if f.kind.Int32? || f.kind.Int64? {
      NumberReads(buf, at, v.n);
    } else if f.kind.Bool? {
      FlagReads(buf, at, v.on);
    } else if HasString(f, x) {
      StringAt(schema, x, k);
      SlotBeforeStrings(schema, k);
      StringReads(buf, at, 4 + TableSize(schema) + |Strings(schema, x, k)|, v.bytes);
    } else {
      EmptyReads(buf, at);
    }
  }

  lemma SlotBeforeStrings(schema: seq<Field>, k: nat)
    requires k < |schema|
    ensures Offset(schema, k) <= TableSize(schema)
  {
    LayoutSound(schema, k, k);
  }

  /** The receiver after the fields from position `k` on. */
  function Overlay(schema: seq<Field>, x: Message, y: Message, k: nat): Message
    requires k <= |schema|
    decreases |schema| - k
  {
    if k == |schema| then y
    else Overlay(schema, x, y[schema[k].id := Get(x, schema[k])], k + 1)
  }

  lemma OneField(schema: seq<Field>, x: Message, k: nat, y: Message)
    requires k < |schema| && Written(schema[k].kind) && TableSize(schema) <= 255 && |Encode(schema, x)| < TWO_32
    ensures var buf, v := Encode(schema, x), 4 + TableSize(schema) + Dynamic(schema, x);
            (ReadFields(schema, buf, 4, v, VtableSize(schema), k, y)
             == ReadFields(schema, buf, 4, v, VtableSize(schema), k + 1,
                           y[schema[k].id := Get(x, schema[k])]))
  {
    hide Encode, Vtable, Table, Strings, Dynamic, TableSize, Offset, LE, FromLE, Pow2, ReadSlot;
    var buf, v := Encode(schema, x), 4 + TableSize(schema) + Dynamic(schema, x);
    VtableAt(schema, x, k);
    LEWidths();
    OffsetSmall(schema, k);
    FromLEInverse(buf, v + 4 + 2 * k, Offset(schema, k), 2);
    FieldReads(schema, x, k);
  }

  lemma OffsetSmall(schema: seq<Field>, k: nat)
    requires k < |schema| && TableSize(schema) <= 255
    ensures 0 < Offset(schema, k) < 65536
  {
    LayoutSound(schema, k, k);
  }

  lemma {:induction false} AllFields(schema: seq<Field>, x: Message, k: nat, y: Message)
    requires k <= |schema| && TableSize(schema) <= 255 && |Encode(schema, x)| < TWO_32
    requires forall f :: f in schema ==> Written(f.kind)
    ensures ReadFields(schema, Encode(schema, x), 4, 4 + TableSize(schema) + Dynamic(schema, x), VtableSize(schema),
                       k, y)
         == Ok(Overlay(schema, x, y, k))
    decreases |schema| - k
  {
    hide Encode, TableSize, Dynamic, FromLE, ReadSlot;
    if k < |schema| {
      OneField(schema, x, k, y);
      AllFields(schema, x, k + 1, y[schema[k].id := Get(x, schema[k])]);
    }
  }

  lemma RootReads(schema: seq<Field>, x: Message)
    ensures |Encode(schema, x)| >= 8 && FromLE(Encode(schema, x), 0, 4) == 4
  {
    hide Encode, Strings, Dynamic, TableSize, LE, FromLE, Pow2, Table, Vtable;
    Regions(schema, x);
    LEWidths();
    TableAtLeast(schema);
    FromLEInverse(Encode(schema, x), 0, 4, 4);
  }

  lemma OffsetReads(schema: seq<Field>, x: Message)
    ensures FromLE(Encode(schema, x), 4, 4) == (TableSize(schema) + Dynamic(schema, x)) % TWO_32
  {
    hide Encode, Strings, Dynamic, TableSize, LE, FromLE, Pow2, Vtable;
    Regions(schema, x);
    LEWidths();
    TablePrefix(schema, x, 0, |schema|);
    var n := (TableSize(schema) + Dynamic(schema, x)) % TWO_32;
    AtInPrefix(Encode(schema, x), 4, Table(schema, x, |schema|), Table(schema, x, 0), 0, LE(n, 4));
    FromLEInverse(Encode(schema, x), 4, n, 4);
  }

  lemma SizeReads(schema: seq<Field>, x: Message)
    requires TableSize(schema) <= 255
    ensures FromLE(Encode(schema, x), 4 + TableSize(schema) + Dynamic(schema, x), 2) == VtableSize(schema)
  {
    hide Encode, Strings, Dynamic, TableSize, LE, FromLE, Pow2, Table;
    Regions(schema, x);
    LEWidths();
    VtablePrefix(schema, 0, |schema|);
    TableAtLeast(schema);
    var buf, v := Encode(schema, x), 4 + TableSize(schema) + Dynamic(schema, x);
    AtConcat(Vtable(schema, 0), 0, LE(VtableSize(schema), 2), LE(TableSize(schema), 2));
    AtInPrefix(buf, v, Vtable(schema, |schema|), Vtable(schema, 0), 0, LE(VtableSize(schema), 2));
    FromLEInverse(buf, v, VtableSize(schema), 2);
  }

  lemma HeadsRead(schema: seq<Field>, x: Message)
    requires TableSize(schema) <= 255
    ensures var buf := Encode(schema, x);
            && |buf| >= 8 && FromLE(buf, 0, 4) == 4
            && FromLE(buf, 4, 4) == (TableSize(schema) + Dynamic(schema, x)) % TWO_32
            && FromLE(buf, 4 + TableSize(schema) + Dynamic(schema, x), 2) == VtableSize(schema)
  {
    hide Encode, Dynamic, TableSize, FromLE;
    RootReads(schema, x);
    OffsetReads(schema, x);
    SizeReads(schema, x);
  }

  lemma {:induction false} FieldsBound(schema: seq<Field>, k: nat)
    requires k <= |schema|
    ensures End(schema, k) >= 4 + 4 * k
  {
    if k > 0 {
      FieldsBound(schema, k - 1);
      AlignUpBounds(End(schema, k - 1), SlotSize(schema[k - 1].kind));
    }
  }

  lemma TableAtLeast(schema: seq<Field>)
    ensures 4 + 4 * |schema| <= TableSize(schema)
  {
    FieldsBound(schema, |schema|);
  }

  /** Decoding an encoded struct into any receiver overwrites every field with its original
      value, empty strings included. */
  lemma DecodeUndoesEncode(schema: seq<Field>, x: Message, y: Message)
    requires Compiles(schema) && TableSize(schema) + Dynamic(schema, x) < TWO_31
    ensures Decode(schema, Encode(schema, x), y) == Ok(Overlay(schema, x, y, 0))
  {
    hide Encode, TableSize, Dynamic, FromLE, Overlay, ReadFields, DistinctIds;
    HeadsRead(schema, x);
    TableAtLeast(schema);
    AllFields(schema, x, 0, y);
  }

  /** From 2^31 on the vtable offset wraps to a negative int32; short of 2^32 - 4 it points in
      front of the buffer and decoding fails. */
  lemma OversizeIsRejected(schema: seq<Field>, x: Message, y: Message)
    requires Compiles(schema) && TWO_31 <= TableSize(schema) + Dynamic(schema, x) < TWO_32 - 4
    ensures Decode(schema, Encode(schema, x), y) == Err
  {
    hide Encode, TableSize, Dynamic, FromLE, ReadFields, DistinctIds;
    HeadsRead(schema, x);
  }

  lemma {:induction false} OverlayAt(schema: seq<Field>, x: Message, y: Message, k: nat, id: int)
    requires k <= |schema| && id in y
    requires forall j :: k <= j < |schema| ==> schema[j].id != id
    ensures id in Overlay(schema, x, y, k) && Overlay(schema, x, y, k)[id] == y[id]
    decreases |schema| - k
  {
    if k < |schema| {
      OverlayAt(schema, x, y[schema[k].id := Get(x, schema[k])], k + 1, id);
    }
  }

  lemma {:induction false} OverlayField(schema: seq<Field>, x: Message, y: Message, k: nat, j: nat)
    requires k <= j < |schema| && DistinctIds(schema) && schema[j].id in y
    ensures var f, r := schema[j], Overlay(schema, x, y, k);
            f.id in r && r[f.id] == Get(x, f)
    decreases |schema| - k
  {
    var y' := y[schema[k].id := Get(x, schema[k])];
    if k == j {
      OverlayAt(schema, x, y', k + 1, schema[j].id);
    } else {
      OverlayField(schema, x, y', k + 1, j);
    }
  }

  lemma {:induction false} OverlayKeys(schema: seq<Field>, x: Message, y: Message, k: nat)
    requires k <= |schema| && y.Keys == Ids(schema)
    ensures Overlay(schema, x, y, k).Keys == y.Keys
    decreases |schema| - k
  {
    if k < |schema| {
      var y' := y[schema[k].id := Get(x, schema[k])];
      assert schema[k] in schema && schema[k].id in Ids(schema);
      assert y'.Keys == y.Keys;
      OverlayKeys(schema, x, y', k + 1);
    }
  }

  /** At 2^32 - 4 it points at the start of the buffer, where the root offset 4 is taken for
      the size of a vtable without fields: no field is read and no error reported. */
  lemma WrapToStart(schema: seq<Field>, x: Message, y: Message)
    requires Compiles(schema) && TableSize(schema) + Dynamic(schema, x) == TWO_32 - 4
    ensures Decode(schema, Encode(schema, x), y) == Ok(y)
  {
    hide Encode, TableSize, Dynamic, FromLE, ReadFields, DistinctIds;
    HeadsRead(schema, x);
    TwoOfFour(Encode(schema, x));
    NoFields(schema, Encode(schema, x), 4, 0, 0, y);
  }

  lemma TwoOfFour(buf: seq<byte>)
    requires |buf| >= 4 && FromLE(buf, 0, 4) == 4
    ensures FromLE(buf, 0, 2) == 4
  {
    assert FromLE(buf, 0, 4) == buf[0] + 256 * FromLE(buf, 1, 3);
    assert FromLE(buf, 0, 2) == buf[0] + 256 * FromLE(buf, 1, 1);
    assert FromLE(buf, 1, 3) == buf[1] + 256 * FromLE(buf, 2, 2);
  }

  lemma {:induction false} NoFields(schema: seq<Field>, buf: seq<byte>, root: nat, vtable: nat, k: nat, y: Message)
    requires k <= |schema|
    ensures ReadFields(schema, buf, root, vtable, 4, k, y) == Ok(y)
    decreases |schema| - k
  {
    if k < |schema| {
      NoFields(schema, buf, root, vtable, k + 1, y);
    }
  }

  lemma ZeroLength(schema: seq<Field>, f: Field)
    requires DistinctIds(schema) && f in schema
    ensures TextLen(ZeroMessage(schema), f) == 0
  {
  }

  lemma {:induction false} ZeroHasNoText(schema: seq<Field>, x: Message, k: nat)
    requires k <= |schema| && DistinctIds(schema) && x == ZeroMessage(schema)
    ensures DynamicSize(schema, x, k) == 0
  {
    hide ZeroMessage;
    if k > 0 {
      ZeroHasNoText(schema, x, k - 1);
      ZeroLength(schema, schema[k - 1]);
    }
  }

  /** A struct whose table and strings take up at most 2^32 - 4 bytes comes back whole into a
      zero struct exactly if they take up less than 2^31. */
  lemma RoundTripExactly(schema: seq<Field>, x: Message)
    requires Compiles(schema) && TableSize(schema) + Dynamic(schema, x) <= TWO_32 - 4
    requires Typed(schema, x)
    ensures Decode(schema, Encode(schema, x), ZeroMessage(schema)) == Ok(x)
            <==> TableSize(schema) + Dynamic(schema, x) < TWO_31
  {
    hide Decode, Encode, TableSize, Dynamic, Typed;
    var y, n := ZeroMessage(schema), TableSize(schema) + Dynamic(schema, x);
    if n < TWO_31 {
      SameKeys(schema, x);
      RoundTrip(schema, x, y);
    } else if n < TWO_32 - 4 {
      OversizeIsRejected(schema, x, y);
    } else {
      WrapToStart(schema, x, y);
      ZeroIsSmall(schema);
    }
  }

  lemma SameKeys(schema: seq<Field>, x: Message)
    requires Typed(schema, x)
    ensures ZeroMessage(schema).Keys == x.Keys
  {
  }

  lemma ZeroIsSmall(schema: seq<Field>)
    requires Compiles(schema)
    ensures TableSize(schema) + Dynamic(schema, ZeroMessage(schema)) <= 255
  {
    ZeroHasNoText(schema, ZeroMessage(schema), |schema|);
  }

  /** A struct comes back whole, whatever was there before. */
  lemma RoundTrip(schema: seq<Field>, x: Message, y: Message)
    requires Compiles(schema) && TableSize(schema) + Dynamic(schema, x) < TWO_31
    requires Typed(schema, x) && y.Keys == x.Keys
    ensures Decode(schema, Encode(schema, x), y) == Ok(x)
  {
    hide Decode, Encode, TableSize, Dynamic, Overlay;
    DecodeUndoesEncode(schema, x, y);
    OverlayKeys(schema, x, y, 0);
    var r := Overlay(schema, x, y, 0);
    forall id | id in x
      ensures r[id] == x[id]
    {
      var f :| f in schema && f.id == id;
      var j :| 0 <= j < |schema| && schema[j] == f;
      OverlayField(schema, x, y, 0, j);
    }
    assert r == x;
  }
}

/** A reader for structs in the Thrift compact protocol ("Thrift Compact protocol
    encoding", sections "Integer encoding" and "Struct encoding"), and the field
    writers the transpilers emit. */
module ThriftCompact {
  import opened Bytes
  import Varint

  datatype TValue = TBool(on: bool) | TI32(n: int) | TI64(n: int) | TBinary(bytes: seq<byte>)

  datatype TField = TField(id: int, value: TValue)

  const T_TRUE: nat := 1
  const T_FALSE: nat := 2
  const T_I32: nat := 5
  const T_I64: nat := 6
  const T_BINARY: nat := 8

  function ZigZag(n: int): nat {
    if n >= 0 then 2 * n else -2 * n - 1
  }

  function UnZigZag(z: nat): int {
    if z % 2 == 0 then z / 2 else -((z + 1) / 2)
  }

  lemma ZigZagInverse(n: int, z: nat)
    ensures UnZigZag(ZigZag(n)) == n && ZigZag(UnZigZag(z)) == z
  {
  }

  // ---------------------------------------------------------------------- reader

  datatype Head = NoHead | Stop | Head(id: int, ttype: nat, next: nat)

  /** A field header: a one-byte delta form, or the type byte and a zigzag varint ID. */
  function ReadHead(buf: seq<byte>, i: nat, last: int): (h: Head)
    ensures h.Head? ==> i < h.next <= |buf|
  {
    if i >= |buf| then NoHead
    else if buf[i] == 0 then Stop
    else if buf[i] / 16 != 0 then Head(last + buf[i] / 16, buf[i] % 16, i + 1)
    else
      match Varint.Decode(buf, i + 1)
      case Eof => NoHead
      case Got(z, j) => Head(UnZigZag(z), buf[i] % 16, j)
  }

  datatype Body = NoBody | Body(value: TValue, next: nat)

  function ReadBody(buf: seq<byte>, i: nat, ttype: nat): (b: Body)
    requires i <= |buf|
    ensures b.Body? ==> i <= b.next <= |buf|
  {
    if ttype == T_TRUE then Body(TBool(true), i)
    else if ttype == T_FALSE then Body(TBool(false), i)
    else
      match Varint.Decode(buf, i)
      case Eof => NoBody
      case Got(z, j) =>
        if ttype == T_I32 && IsInt32(UnZigZag(z)) then Body(TI32(UnZigZag(z)), j)
        else if ttype == T_I64 && IsInt64(UnZigZag(z)) then Body(TI64(UnZigZag(z)), j)
        else if ttype == T_BINARY && j + z <= |buf| then Body(TBinary(buf[j..j + z]), j + z)
        else NoBody
  }

  datatype Struct = Invalid | Struct(fields: seq<TField>, next: nat)

  function ReadStruct(buf: seq<byte>, i: nat, last: int): Struct
    decreases |buf| - i
  {
    match ReadHead(buf, i, last)
    case NoHead => Invalid
    case Stop => Struct([], i + 1)
    case Head(id, ttype, j) =>
      match ReadBody(buf, j, ttype)
      case NoBody => Invalid
      case Body(v, k) =>
        match ReadStruct(buf, k, id)
        case Invalid => Invalid
        case Struct(fs, next) => Struct([TField(id, v)] + fs, next)
  }

  // ---------------------------------------------------------------------- writer

  /** A field as a transpiler writes it: an integer by its zigzag form, a byte string,
      or a bool, which is its type nibble alone. */
  datatype Item = Item(id: int, content: Content)

  datatype Content = Zig(wide: bool, z: nat) | Blob(bytes: seq<byte>) | Truth(on: bool)

  function TypeOf(c: Content): (t: nat)
    ensures 0 < t < 16
  {
    match c
    case Zig(wide, _) => if wide then T_I64 else T_I32
    case Blob(_) => T_BINARY
    case Truth(on) => if on then T_TRUE else T_FALSE
  }

  /** The emitted header: the delta form if it fits, else the type byte and the ID as two
      raw bytes, where the protocol asks for a zigzag varint. */
  function Header(id: int, last: int, ttype: nat): seq<byte>
    requires 0 < ttype < 16
  {
    if 0 < id - last <= 15 then [(id - last) * 16 + ttype] else [ttype, id / 256 % 256, id % 256]
  }

  function ContentBytes(c: Content): seq<byte> {
    match c
    case Zig(_, z) => Varint.Encode(z)
    case Blob(bytes) => Varint.Encode(|bytes|) + bytes
    case Truth(_) => []
  }

  function ItemBytes(it: Item, last: int): seq<byte> {
    Header(it.id, last, TypeOf(it.content)) + ContentBytes(it.content)
  }

  /** The field ID the writer remembers after an item; a `stale` writer forgets to
      advance it after byte strings. */
  function LastAfter(it: Item, last: int, stale: bool): int {
    if stale && it.content.Blob? then last else it.id
  }

  /** All items and the STOP byte. */
  function Emit(items: seq<Item>, last: int, stale: bool): seq<byte> {
    if items == [] then [0]
    else ItemBytes(items[0], last) + Emit(items[1..], LastAfter(items[0], last, stale), stale)
  }

  // ------------------------------------------------------------ what is read back

  /** The field an item stands for, if its integer is in the range of its type. */
  predicate Means(it: Item, f: TField) {
    f.id == it.id &&
    match it.content
    case Zig(false, z) => IsInt32(UnZigZag(z)) && f.value == TI32(UnZigZag(z))
    case Zig(true, z) => IsInt64(UnZigZag(z)) && f.value == TI64(UnZigZag(z))
    case Blob(bytes) => f.value == TBinary(bytes)
    case Truth(on) => f.value == TBool(on)
  }

  predicate AllMean(items: seq<Item>, fs: seq<TField>) {
    |items| == |fs| && forall k :: 0 <= k < |fs| ==> Means(items[k], fs[k])
  }

  /** Every header is in delta form and its delta counts from the field before it. */
  predicate Aligned(items: seq<Item>, written: int, read: int, stale: bool) {
    items != [] ==>
      && written == read && 0 < items[0].id - written <= 15
      && Aligned(items[1..], LastAfter(items[0], written, stale), items[0].id, stale)
  }

  predicate ThriftIds(items: seq<Item>) {
    forall k :: 0 <= k < |items| ==> 0 < items[k].id < 32768
  }

  predicate SameIds(items: seq<Item>, fs: seq<TField>) {
    |items| == |fs| && forall k :: 0 <= k < |fs| ==> fs[k].id == items[k].id
  }

  lemma ShortHead(id: int, written: int, read: int, ttype: nat, buf: seq<byte>, i: nat)
    requires 0 < ttype < 16 && 0 < id - written <= 15 && At(buf, i, Header(id, written, ttype))
    ensures ReadHead(buf, i, read) == Head(read + (id - written), ttype, i + 1)
  {
    assert buf[i] == buf[i..i + 1][0] == (id - written) * 16 + ttype;
  }

  /** A long header is read with the wrong ID. */
  lemma LongHead(id: int, written: int, read: int, ttype: nat, buf: seq<byte>, i: nat)
    requires 0 < ttype < 16 && 0 < id < 32768 && !(0 < id - written <= 15)
    requires At(buf, i, Header(id, written, ttype))
    ensures ReadHead(buf, i, read).Head? && ReadHead(buf, i, read).id != id
  {
    var h := buf[i..i + 3];
    assert h == [ttype, id / 256 % 256, id % 256];
    assert buf[i] == h[0] && buf[i + 1] == h[1];
    assert Varint.Decode(buf, i + 1) == Varint.Got(id / 256, i + 2);
  }

  lemma BodyRead(c: Content, buf: seq<byte>, i: nat, f: TField)
    requires At(buf, i, ContentBytes(c))
    ensures ReadBody(buf, i, TypeOf(c)) == Body(f.value, i + |ContentBytes(c)|) <==> Means(Item(f.id, c), f)
  {
    match c
    case Truth(_) =>
    case Zig(_, z) => Varint.DecodeEncoded(buf, i, z);
    case Blob(bytes) =>
      AtConcat(buf, i, Varint.Encode(|bytes|), bytes);
      Varint.DecodeEncoded(buf, i, |bytes|);
  }

  lemma BodyEnd(c: Content, buf: seq<byte>, i: nat)
    requires At(buf, i, ContentBytes(c))
    ensures var b := ReadBody(buf, i, TypeOf(c)); b.Body? ==> b.next == i + |ContentBytes(c)|
  {
    match c
    case Truth(_) =>
    case Zig(_, z) => Varint.DecodeEncoded(buf, i, z);
    case Blob(bytes) =>
      AtConcat(buf, i, Varint.Encode(|bytes|), bytes);
      Varint.DecodeEncoded(buf, i, |bytes|);
  }

  /** Reading a struct, once its first header is known. */
  lemma ReadCons(buf: seq<byte>, i: nat, last: int, ttype: nat, j: nat, fs: seq<TField>, end: nat)
    requires fs != [] && ReadHead(buf, i, last) == Head(fs[0].id, ttype, j)
    ensures ReadStruct(buf, i, last) == Struct(fs, end)
       <==> var b := ReadBody(buf, j, ttype);
            b.Body? && b.value == fs[0].value && ReadStruct(buf, b.next, fs[0].id) == Struct(fs[1..], end)
  {
    hide ReadHead, ReadBody;
    var b := ReadBody(buf, j, ttype);
    if b.Body? && ReadStruct(buf, b.next, fs[0].id).Struct? {
      var tail := ReadStruct(buf, b.next, fs[0].id).fields;
      var all := [TField(fs[0].id, b.value)] + tail;
      assert all[0] == TField(fs[0].id, b.value) && all[1..] == tail;
      assert fs == [fs[0]] + fs[1..];
    }
  }

  lemma WrongHead(buf: seq<byte>, i: nat, last: int, fs: seq<TField>, end: nat)
    requires fs != [] && ReadHead(buf, i, last).Head? && ReadHead(buf, i, last).id != fs[0].id
    ensures ReadStruct(buf, i, last) != Struct(fs, end)
  {
    hide ReadHead, ReadBody;
  }

  lemma AllMeanCons(items: seq<Item>, fs: seq<TField>)
    requires items != [] && fs != []
    ensures AllMean(items, fs) <==> Means(items[0], fs[0]) && AllMean(items[1..], fs[1..])
  {
    if Means(items[0], fs[0]) && AllMean(items[1..], fs[1..]) {
      forall k | 0 <= k < |fs|
        ensures Means(items[k], fs[k])
      {
        if k > 0 { assert items[k] == items[1..][k - 1] && fs[k] == fs[1..][k - 1]; }
      }
    }
  }

  /** `buf` read from `i` on is exactly the struct `fs`, ending where the bytes of the
      items end. */
  ghost predicate ReadsAs(buf: seq<byte>, i: nat, read: int, items: seq<Item>, written: int, stale: bool,
                          fs: seq<TField>) {
    ReadStruct(buf, i, read) == Struct(fs, i + |Emit(items, written, stale)|)
  }

  lemma ReadsAsCons(items: seq<Item>, fs: seq<TField>, last: int, stale: bool, buf: seq<byte>, i: nat)
    requires items != [] && SameIds(items, fs) && 0 < items[0].id - last <= 15
    requires At(buf, i, ItemBytes(items[0], last))
    ensures ReadsAs(buf, i, last, items, last, stale, fs)
       <==> Means(items[0], fs[0]) &&
            ReadsAs(buf, i + |ItemBytes(items[0], last)|, items[0].id,
                    items[1..], LastAfter(items[0], last, stale), stale, fs[1..])
  {
    hide ReadHead, ReadBody, ReadStruct, ContentBytes, Means, TypeOf;
    var it := items[0];
    AtConcat(buf, i, Header(it.id, last, TypeOf(it.content)), ContentBytes(it.content));
    ShortHead(it.id, last, last, TypeOf(it.content), buf, i);
    BodyRead(it.content, buf, i + 1, fs[0]);
    BodyEnd(it.content, buf, i + 1);
    ReadCons(buf, i, last, TypeOf(it.content), i + 1, fs, i + |Emit(items, last, stale)|);
  }

  lemma MisreadHead(items: seq<Item>, fs: seq<TField>, written: int, read: int, stale: bool, buf: seq<byte>, i: nat)
    requires items != [] && SameIds(items, fs) && 0 < items[0].id < 32768
    requires !(0 < items[0].id - written <= 15) || written != read
    requires At(buf, i, ItemBytes(items[0], written))
    ensures !ReadsAs(buf, i, read, items, written, stale, fs)
  {
    var it := items[0];
    AtConcat(buf, i, Header(it.id, written, TypeOf(it.content)), ContentBytes(it.content));
    if 0 < it.id - written <= 15 {
      ShortHead(it.id, written, read, TypeOf(it.content), buf, i);
    } else {
      LongHead(it.id, written, read, TypeOf(it.content), buf, i);
    }
    WrongHead(buf, i, read, fs, i + |Emit(items, written, stale)|);
  }

  lemma StopReadsBack(written: int, read: int, stale: bool, buf: seq<byte>, i: nat)
    requires At(buf, i, [0])
    ensures ReadsAs(buf, i, read, [], written, stale, []) && AllMean([], [])
  {
    assert buf[i] == buf[i..i + 1][0] == 0;
  }

  /** What was written reads back as the fields `fs` exactly if every header is aligned
      and every item means its field. */
  lemma {:induction false} EmitReadsBack(items: seq<Item>, fs: seq<TField>, written: int, read: int, stale: bool,
                                         buf: seq<byte>, i: nat)
    requires ThriftIds(items) && SameIds(items, fs)
    requires At(buf, i, Emit(items, written, stale))
    ensures ReadsAs(buf, i, read, items, written, stale, fs)
       <==> Aligned(items, written, read, stale) && AllMean(items, fs)
  {
    hide ReadsAs, ItemBytes, Means, AllMean;
    if items == [] {
      StopReadsBack(written, read, stale, buf, i);
    } else {
      var it := items[0];
      var last := LastAfter(it, written, stale);
      AtConcat(buf, i, ItemBytes(it, written), Emit(items[1..], last, stale));
      if written == read && 0 < it.id - written <= 15 {
        ReadsAsCons(items, fs, written, stale, buf, i);
        AllMeanCons(items, fs);
        EmitReadsBack(items[1..], fs[1..], last, it.id, stale, buf, i + |ItemBytes(it, written)|);
      } else {
        MisreadHead(items, fs, written, read, stale, buf, i);
      }
    }
  }

  /** Whatever fields with positive IDs are read, one is read for each item. */
  lemma {:induction false} OneFieldPerItem(items: seq<Item>, fs: seq<TField>, written: int, read: int, stale: bool,
                                           buf: seq<byte>, i: nat)
    requires forall k :: 0 <= k < |items| ==> 0 < items[k].id < 256
    requires forall k :: 0 <= k < |fs| ==> fs[k].id > 0
    requires At(buf, i, Emit(items, written, stale)) && ReadsAs(buf, i, read, items, written, stale, fs)
    ensures |fs| == |items|
    decreases |items|
  {
    hide ReadsAs, ItemBytes, LastAfter;
    if items == [] {
      OnlyStop(fs, written, read, stale, buf, i);
    } else {
      var it := items[0];
      var last, bytes := LastAfter(it, written, stale), ItemBytes(it, written);
      AtConcat(buf, i, bytes, Emit(items[1..], last, stale));
      NextField(items, fs, written, read, stale, buf, i);
      OneFieldPerItem(items[1..], fs[1..], last, fs[0].id, stale, buf, i + |bytes|);
    }
  }

  lemma OnlyStop(fs: seq<TField>, written: int, read: int, stale: bool, buf: seq<byte>, i: nat)
    requires At(buf, i, [0]) && ReadsAs(buf, i, read, [], written, stale, fs)
    ensures fs == []
  {
    StopReadsBack(written, read, stale, buf, i);
  }

  /** The first item is read as the first field, with whatever ID and value. */
  lemma NextField(items: seq<Item>, fs: seq<TField>, written: int, read: int, stale: bool, buf: seq<byte>, i: nat)
    requires items != [] && 0 < items[0].id < 256 && At(buf, i, ItemBytes(items[0], written))
    requires forall k :: 0 <= k < |fs| ==> fs[k].id > 0
    requires ReadsAs(buf, i, read, items, written, stale, fs)
    ensures fs != []
    ensures ReadsAs(buf, i + |ItemBytes(items[0], written)|, fs[0].id,
                    items[1..], LastAfter(items[0], written, stale), stale, fs[1..])
  {
    hide ContentBytes, TypeOf, ReadStruct, ReadHead, ReadBody, Header;
    var it, end := items[0], i + |Emit(items, written, stale)|;
    var ttype := TypeOf(it.content);
    AtConcat(buf, i, Header(it.id, written, ttype), ContentBytes(it.content));
    if 0 < it.id - written <= 15 {
      ShortLength(it.id, written, ttype);
      ShortHead(it.id, written, read, ttype, buf, i);
      FieldBehind(it.content, read + (it.id - written), read, buf, i, fs, end);
    } else {
      ZeroHead(it.id, written, read, ttype, buf, i);
      HeadMeansField(buf, i, read, fs, end);
    }
  }

  lemma ShortLength(id: int, written: int, ttype: nat)
    requires 0 < ttype < 16 && 0 < id - written <= 15
    ensures |Header(id, written, ttype)| == 1
  {
  }

  lemma FieldBehind(c: Content, id: int, read: int, buf: seq<byte>, i: nat, fs: seq<TField>, end: nat)
    requires ReadHead(buf, i, read) == Head(id, TypeOf(c), i + 1) && At(buf, i + 1, ContentBytes(c))
    requires ReadStruct(buf, i, read) == Struct(fs, end)
    ensures fs != [] && ReadStruct(buf, i + 1 + |ContentBytes(c)|, fs[0].id) == Struct(fs[1..], end)
  {
    hide ContentBytes, TypeOf, ReadStruct, ReadHead, ReadBody;
    HeadMeansField(buf, i, read, fs, end);
    BodyEnd(c, buf, i + 1);
    ReadCons(buf, i, read, TypeOf(c), i + 1, fs, end);
  }

  /** The long header of an ID below 256 is read with ID 0. */
  lemma ZeroHead(id: int, written: int, read: int, ttype: nat, buf: seq<byte>, i: nat)
    requires 0 < ttype < 16 && 0 < id < 256 && !(0 < id - written <= 15)
    requires At(buf, i, Header(id, written, ttype))
    ensures ReadHead(buf, i, read) == Head(0, ttype, i + 2)
  {
    var h := buf[i..i + 3];
    assert buf[i] == h[0] == ttype && buf[i + 1] == h[1] == 0;
  }

  lemma HeadMeansField(buf: seq<byte>, i: nat, last: int, fs: seq<TField>, end: nat)
    requires ReadHead(buf, i, last).Head? && ReadStruct(buf, i, last) == Struct(fs, end)
    ensures fs != [] && fs[0].id == ReadHead(buf, i, last).id
  {
    hide ReadHead, ReadBody;
  }

  /** The gap between an item's ID and the one before it. */
  function Gap(items: seq<Item>, last: int, k: nat): int
    requires k < |items|
  {
    items[k].id - if k == 0 then last else items[k - 1].id
  }

  /** For a writer that always advances, aligned means that IDs climb by 1 to 15. */
  lemma {:induction false} AlignedIsClimbing(items: seq<Item>, last: int)
    ensures Aligned(items, last, last, false) <==> forall k :: 0 <= k < |items| ==> 0 < Gap(items, last, k) <= 15
  {
    if items != [] {
      var rest, id := items[1..], items[0].id;
      AlignedIsClimbing(rest, id);
      assert forall k :: 0 <= k < |rest| ==> Gap(rest, id, k) == Gap(items, last, k + 1);
      assert Gap(items, last, 0) == id - last;
      if forall k :: 0 <= k < |rest| ==> 0 < Gap(rest, id, k) <= 15 {
        assert forall k :: 0 < k < |items| ==> Gap(items, last, k) == Gap(rest, id, k - 1);
      }
    }
  }

  /** A stale writer is aligned only if, moreover, nothing follows a byte string. */
  lemma {:induction false} StaleIsAlignedExactly(items: seq<Item>, last: int)
    ensures Aligned(items, last, last, true)
       <==> Aligned(items, last, last, false) && forall k :: 0 <= k < |items| - 1 ==> !items[k].content.Blob?
  {
    if items != [] {
      var rest, id := items[1..], items[0].id;
      StaleIsAlignedExactly(rest, id);
      if !items[0].content.Blob? {
        assert forall k :: 0 <= k < |rest| ==> rest[k] == items[k + 1];
        assert forall k :: 0 < k < |items| ==> items[k] == rest[k - 1];
      } else if 0 < id - last && rest != [] {
        assert !Aligned(rest, last, id, true);
        assert items[0].content.Blob?;
      }
    }
  }
}

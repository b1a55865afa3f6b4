/** The decoder and the transpiler emitted for Python: from_proto, and
    transpile_protobuf_to_thrift_compact, which decodes everything first and then writes
    the fields in schema order.  Both number fields by position, starting at 1. */
module PythonTranspiler {
  import opened Bytes
  import opened Schema
  import opened ThriftCompact
  import R = PythonRecords
  import Varint

  predicate Supported(kind: Kind) { !kind.Double? && !kind.Composite? }

  type PySchema = s: seq<Field> | forall f :: f in s ==> Supported(f.kind) witness []

  function KindOf(schema: PySchema, num: nat): (kind: Kind)
    requires 1 <= num <= |schema|
    ensures Supported(kind)
  {
    schema[num - 1].kind
  }

  /** Field values by number; a number never seen is not in the map. */
  type Values = map<nat, Value>

  datatype Scan = Fields(m: Values) | Raises

  datatype Step = Next(i: nat, m: Values) | Raise

  /** Python slicing stops at the end of the buffer. */
  function Slice(buf: seq<byte>, lo: nat, hi: nat): seq<byte>
    requires lo <= hi && lo <= |buf|
  {
    buf[lo..if hi <= |buf| then hi else |buf|]
  }

  /** Storing the payload of a known field. */
  function KnownField(kind: Kind, num: nat, buf: seq<byte>, j: nat, m: Values): (s: Step)
    ensures s.Next? ==> s.i >= j
  {
    match Varint.Decode(buf, j)
    case Eof => Raise
    case Got(v, k) =>
      if kind.Text? || kind.Binary? then Next(k + v, m[num := Data(Slice(buf, k, k + v))])
      else if kind.Bool? then Next(k, m[num := Flag(v != 0)])
      else Next(k, m[num := Num(v)])
  }

  /** Skipping an unknown field; wire types the code does not know skip nothing. */
  function UnknownField(wire: nat, buf: seq<byte>, j: nat, m: Values): (s: Step)
    ensures s.Next? ==> s.i >= j
  {
    if wire == 0 || wire == 2 then
      match Varint.Decode(buf, j)
      case Eof => Raise
      case Got(v, k) => Next(if wire == 0 then k else k + v, m)
    else if wire == 5 then Next(j + 4, m)
    else if wire == 1 then Next(j + 8, m)
    else Next(j, m)
  }

  function ScanStep(schema: PySchema, buf: seq<byte>, i: nat, m: Values): (s: Step)
    ensures s.Next? ==> s.i > i
  {
    match Varint.Decode(buf, i)
    case Eof => Raise
    case Got(tag, j) =>
      if 1 <= tag / 8 <= |schema| then KnownField(KindOf(schema, tag / 8), tag / 8, buf, j, m)
      else UnknownField(tag % 8, buf, j, m)
  }

  /** The decoding loop both functions share. */
  function ScanFrom(schema: PySchema, buf: seq<byte>, i: nat, m: Values): Scan
    decreases |buf| - i
  {
    if i >= |buf| then Fields(m)
    else
      match ScanStep(schema, buf, i, m)
      case Next(j, m') => ScanFrom(schema, buf, j, m')
      case Raise => Raises
  }

  /** Values from_proto returns: the decoded one, or the default of the kind. */
  function ValueOf(schema: PySchema, m: Values, num: nat): Value
    requires 1 <= num <= |schema|
  {
    if num in m then m[num] else Zero(KindOf(schema, num))
  }

  function WithDefaults(schema: PySchema, m: Values): Values {
    map num: nat | 1 <= num <= |schema| :: ValueOf(schema, m, num)
  }

  // ------------------------------------------------------------- emitted methods

  /** _read_varint: Python integers do not wrap. */
  method ReadVarint(buf: seq<byte>, idx: nat) returns (r: Varint.Read)
    ensures r == Varint.Decode(buf, idx)
  {
    hide Varint.Weighted, Pow2, BitOr;
    var v: nat, shift: nat, i := 0, 0, idx;
    StartReading(buf, idx);
    while i < |buf|
      invariant Varint.Reading(buf, idx, i, v, shift)
    {
      var b := buf[i];
      i := i + 1;
      ghost var acc := v;
      assert v < Pow2(shift);
      OrDisjoint(v, b % 128, shift);
      v := BitOr(v, (b % 128) * Pow2(shift));
      assert v == Varint.Weighted(acc, shift, b % 128) by { WeightedIs(acc, shift, b % 128); }
      Varint.ReadingStep(buf, idx, i - 1, acc, shift);
      if b < 128 {
        return Varint.Got(v, i);
      }
      shift := shift + 7;
    }
    return Varint.Eof;
  }

  lemma StartReading(buf: seq<byte>, idx: nat)
    ensures Varint.Reading(buf, idx, idx, 0, 0)
  {
  }

  lemma WeightedIs(acc: nat, s: nat, x: nat)
    ensures Varint.Weighted(acc, s, x) == acc + x * Pow2(s)
  {
  }

  /** One pass of the decoding loop, shared by the two emitted methods. */
  method ScanOne(schema: PySchema, raw: seq<byte>, idx: nat, m: Values) returns (s: Step)
    ensures s == ScanStep(schema, raw, idx, m)
  {
    var read := ReadVarint(raw, idx);
    if read.Eof? { return Raise; }
    var num, wire, i := read.value / 8, read.value % 8, read.next;
    if 1 <= num <= |schema| {
      var kind := KindOf(schema, num);
      read := ReadVarint(raw, i);
      if read.Eof? { return Raise; }
      if kind.Int32? || kind.Int64? {
        return Next(read.next, m[num := Num(read.value)]);
      } else if kind.Bool? {
        return Next(read.next, m[num := Flag(read.value != 0)]);
      } else {
        return Next(read.next + read.value, m[num := Data(Slice(raw, read.next, read.next + read.value))]);
      }
    } else if wire == 0 || wire == 2 {
      read := ReadVarint(raw, i);
      if read.Eof? { return Raise; }
      return Next(if wire == 0 then read.next else read.next + read.value, m);
    } else if wire == 5 {
      return Next(i + 4, m);
    } else if wire == 1 {
      return Next(i + 8, m);
    }
    return Next(i, m);
  }

  /** from_proto starts from the defaults and overwrites them as fields are decoded. */
  method FromProto(schema: PySchema, raw: seq<byte>) returns (r: Scan)
    ensures var s := ScanFrom(schema, raw, 0, map[]);
            r == if s.Raises? then Raises else Fields(WithDefaults(schema, s.m))
    ensures r.Raises? <==> R.Parse(schema, raw, 0).Malformed?
    ensures r.Fields? ==>
              forall num: nat :: (num in r.m <==> 1 <= num <= |schema|)
                && (num in r.m ==> r.m[num] == R.FieldValue(schema, R.Parse(schema, raw, 0).rs, num))
  {
    hide ScanStep, Zero, R.FieldValue, R.Parse;
    DecodesRecords(schema, raw);
    var vals := WithDefaults(schema, map[]);
    var idx := 0;
    ghost var m: Values := map[];
    while idx < |raw|
      invariant vals == WithDefaults(schema, m)
      invariant ScanFrom(schema, raw, idx, m) == ScanFrom(schema, raw, 0, map[])
    {
      var s := ScanOne(schema, raw, idx, vals);
      StepOnDefaults(schema, raw, idx, m);
      if s.Raise? { return Raises; }
      m := ScanStep(schema, raw, idx, m).m;
      idx, vals := s.i, s.m;
    }
    return Fields(vals);
  }

  /** Overlaying defaults before or after a step is the same. */
  lemma StepOnDefaults(schema: PySchema, raw: seq<byte>, i: nat, m: Values)
    ensures var s, d := ScanStep(schema, raw, i, m), ScanStep(schema, raw, i, WithDefaults(schema, m));
            if s.Raise? then d.Raise? else d == Next(s.i, WithDefaults(schema, s.m))
  {
    hide Zero;
    var s, d := ScanStep(schema, raw, i, m), ScanStep(schema, raw, i, WithDefaults(schema, m));
    if s.Next? {
      assert d.m == WithDefaults(schema, s.m);
    }
  }

  // ------------------------------------------------------------ what is decoded

  function Stored(schema: PySchema, r: R.Record, m: Values): Values {
    if R.Declared(schema, r.num) then m[r.num := R.Meaning(KindOf(schema, r.num), r.content)] else m
  }

  lemma StepIsRecord(schema: PySchema, buf: seq<byte>, i: nat, m: Values)
    ensures match R.ParseRecord(schema, buf, i)
            case Broken => ScanStep(schema, buf, i, m) == Raise
            case One(r, next) => ScanStep(schema, buf, i, m) == Next(next, Stored(schema, r, m))
  {
    hide Varint.Decode;
    var tag := Varint.Decode(buf, i);
    if tag.Got? {
      var head := Varint.Decode(buf, tag.next);
      if head.Got? {
        SliceIsUpTo(buf, head.next, head.value);
      }
    }
  }

  lemma SliceIsUpTo(buf: seq<byte>, k: nat, len: nat)
    requires k <= |buf|
    ensures Slice(buf, k, k + len) == R.UpTo(buf[k..], len)
  {
  }

  /** What decoding the records `rs` makes of the values `m`. */
  ghost predicate StoresAll(schema: PySchema, rs: seq<R.Record>, m: Values, m': Values) {
    forall num: nat :: Stores(schema, R.Occurrences(rs, num), num, m, m')
  }

  predicate Stores(schema: PySchema, cs: seq<R.Content>, num: nat, m: Values, m': Values) {
    if R.Declared(schema, num) && cs != []
    then num in m' && m'[num] == R.Meaning(KindOf(schema, num), cs[|cs| - 1])
    else (num in m' <==> num in m) && (num in m ==> m'[num] == m[num])
  }

  lemma StoresCons(schema: PySchema, r: R.Record, rs: seq<R.Record>, m: Values, m': Values)
    requires StoresAll(schema, rs, Stored(schema, r, m), m')
    ensures StoresAll(schema, [r] + rs, m, m')
  {
    hide Stores;
    assert ([r] + rs)[1..] == rs;
    forall num: nat ensures Stores(schema, R.Occurrences([r] + rs, num), num, m, m') {
      StoresOne(schema, r, R.Occurrences(rs, num), num, m, m');
    }
  }

  lemma StoresOne(schema: PySchema, r: R.Record, cs: seq<R.Content>, num: nat, m: Values, m': Values)
    requires Stores(schema, cs, num, Stored(schema, r, m), m')
    ensures Stores(schema, (if r.num == num then [r.content] else []) + cs, num, m, m')
  {
    hide R.Meaning;
    var all := (if r.num == num then [r.content] else []) + cs;
    assert cs != [] ==> all[|all| - 1] == cs[|cs| - 1];
  }

  /** The decoding loop accepts what parses and stores what the records say. */
  lemma {:induction false} ScanIsParse(schema: PySchema, buf: seq<byte>, i: nat, m: Values)
    ensures var s, p := ScanFrom(schema, buf, i, m), R.Parse(schema, buf, i);
            (s.Raises? <==> p.Malformed?) && (s.Fields? ==> StoresAll(schema, p.rs, m, s.m))
    decreases |buf| - i
  {
    hide ScanStep, R.ParseRecord, StoresAll, Stored;
    if i >= |buf| {
      StoresNone(schema, m);
    } else {
      StepIsRecord(schema, buf, i, m);
      match R.ParseRecord(schema, buf, i)
      case Broken =>
      case One(r, next) =>
        ScanIsParse(schema, buf, next, Stored(schema, r, m));
        var s, p := ScanFrom(schema, buf, i, m), R.Parse(schema, buf, next);
        if s.Fields? {
          StoresCons(schema, r, p.rs, m, s.m);
        }
    }
  }

  lemma StoresNone(schema: PySchema, m: Values)
    ensures StoresAll(schema, [], m, m)
  {
  }

  /** For every message: decoding fails exactly if it does not parse; otherwise each field has
      the value of the last record with its number, or its default, and a number counts as
      seen exactly if there is such a record. */
  lemma DecodesRecords(schema: PySchema, raw: seq<byte>)
    ensures var s, p := ScanFrom(schema, raw, 0, map[]), R.Parse(schema, raw, 0);
            && (s.Raises? <==> p.Malformed?)
            && (s.Fields? ==> forall num: nat :: 1 <= num <= |schema| ==>
                  && (num in s.m <==> R.Occurrences(p.rs, num) != [])
                  && ValueOf(schema, s.m, num) == R.FieldValue(schema, p.rs, num))
  {
    hide ScanFrom, R.Parse, R.Occurrences, R.Meaning;
    ScanIsParse(schema, raw, 0, map[]);
    var s, p := ScanFrom(schema, raw, 0, map[]), R.Parse(schema, raw, 0);
    if s.Fields? {
      forall num: nat | 1 <= num <= |schema|
        ensures num in s.m <==> R.Occurrences(p.rs, num) != []
        ensures ValueOf(schema, s.m, num) == R.FieldValue(schema, p.rs, num)
      {
        assert Stores(schema, R.Occurrences(p.rs, num), num, map[], s.m);
      }
    }
  }

  /** Any records that fit the schema, spelled one after the other, decode to the last content
      of each field. */
  lemma DecodesSpelled(schema: PySchema, rs: seq<R.Record>, num: nat)
    requires R.AllFit(schema, rs) && 1 <= num <= |schema|
    ensures var s := ScanFrom(schema, R.SpellAll(rs), 0, map[]);
            s.Fields? && WithDefaults(schema, s.m)[num] == R.FieldValue(schema, rs, num)
  {
    hide ScanFrom, R.Parse, R.SpellAll, R.FieldValue, ValueOf;
    var raw := R.SpellAll(rs);
    assert raw[0..] == raw;
    R.ParsesAsSpelled(schema, rs, raw, 0);
    DecodesRecords(schema, raw);
  }

  // --------------------------------------------------------------------- writing

  /** Numbers and bools are always written, byte strings only if they were decoded. */
  predicate Emitted(schema: PySchema, m: Values, num: nat)
    requires 1 <= num <= |schema|
  {
    num in m || !(KindOf(schema, num).Text? || KindOf(schema, num).Binary?)
  }

  /** A written field with the value from_proto has for it. */
  datatype Sent = Sent(num: nat, kind: Kind, v: Value)

  /** The written fields after the first `k`, in schema order. */
  function SentFrom(schema: PySchema, m: Values, k: nat): seq<Sent>
    requires k <= |schema|
    decreases |schema| - k
  {
    if k == |schema| then []
    else if Emitted(schema, m, k + 1) then
      [Sent(k + 1, KindOf(schema, k + 1), ValueOf(schema, m, k + 1))] + SentFrom(schema, m, k + 1)
    else SentFrom(schema, m, k + 1)
  }

  /** Decoded integers are never negative, so their zigzag form is the double. */
  function ItemOf(s: Sent): Item {
    match s.v
    case Num(n) => Item(s.num, Zig(s.kind.Int64?, if n >= 0 then 2 * n else 0))
    case Data(bytes) => Item(s.num, Blob(bytes))
    case Flag(on) => Item(s.num, Truth(on))
    case Opaque(_) => Item(s.num, Blob([]))
  }

  function Items(ss: seq<Sent>): (items: seq<Item>)
    ensures |items| == |ss|
  {
    seq(|ss|, i requires 0 <= i < |ss| => ItemOf(ss[i]))
  }

  lemma ItemsCons(s: Sent, ss: seq<Sent>)
    ensures Items([s] + ss) == [ItemOf(s)] + Items(ss)
  {
  }

  /** The bytes of the fields after the first `k`, and STOP. */
  function EmitFrom(schema: PySchema, m: Values, k: nat, prev: nat): seq<byte>
    requires k <= |schema|
  {
    Emit(Items(SentFrom(schema, m, k)), prev, false)
  }

  lemma EmitNext(schema: PySchema, m: Values, k: nat, prev: nat)
    requires k < |schema|
    ensures EmitFrom(schema, m, k, prev)
         == if Emitted(schema, m, k + 1)
            then ItemBytes(ItemOf(Sent(k + 1, KindOf(schema, k + 1), ValueOf(schema, m, k + 1))), prev)
                 + EmitFrom(schema, m, k + 1, k + 1)
            else EmitFrom(schema, m, k + 1, prev)
  {
    hide ItemBytes, Items;
    if Emitted(schema, m, k + 1) {
      var s, ss := Sent(k + 1, KindOf(schema, k + 1), ValueOf(schema, m, k + 1)), SentFrom(schema, m, k + 1);
      ItemsCons(s, ss);
      var items := [ItemOf(s)] + Items(ss);
      assert items[0] == ItemOf(s) && items[1..] == Items(ss);
      assert ItemOf(s).id == k + 1;
    }
  }

  method WriteThriftVarint(out: seq<byte>, v: nat) returns (r: seq<byte>)
    ensures r == out + Varint.Encode(v)
  {
    var w := v;
    r := out;
    while w >= 128
      invariant r + Varint.Encode(w) == out + Varint.Encode(v)
    {
      assert r + Varint.Encode(w) == (r + [w % 128 + 128]) + Varint.Encode(w / 128);
      r := r + [w % 128 + 128];
      w := w / 128;
    }
    r := r + [w];
  }

  /** Header and content of one field, appended to the output. */
  method AppendField(out: seq<byte>, num: nat, prev: nat, kind: Kind, v: Value) returns (r: seq<byte>)
    requires Supported(kind) && HasShape(v, kind)
    ensures r == out + ItemBytes(ItemOf(Sent(num, kind, v)), prev)
  {
    hide Varint.Encode, Header, ContentBytes;
    var ttype := if kind.Int32? then T_I32 else if kind.Int64? then T_I64
                 else if kind.Bool? then (if v.on then T_TRUE else T_FALSE) else T_BINARY;
    r := AppendHeader(out, num, prev, ttype);
    ghost var it, head := ItemOf(Sent(num, kind, v)), Header(num, prev, ttype);
    assert TypeOf(it.content) == ttype;
    ContentIs(it.content);
    if v.Num? {
      r := WriteThriftVarint(r, 2 * v.n);
      assert r == out + (head + Varint.Encode(2 * v.n));
    } else if v.Data? {
      r := WriteThriftVarint(r, |v.bytes|);
      r := r + v.bytes;
      assert r == out + (head + (Varint.Encode(|v.bytes|) + v.bytes));
    } else {
      assert r == out + (head + []);
    }
  }

  lemma ContentIs(c: Content)
    ensures match c
            case Zig(_, z) => ContentBytes(c) == Varint.Encode(z)
            case Blob(bytes) => ContentBytes(c) == Varint.Encode(|bytes|) + bytes
            case Truth(_) => ContentBytes(c) == []
  {
  }

  method AppendHeader(out: seq<byte>, num: nat, prev: nat, ttype: nat) returns (r: seq<byte>)
    requires 0 < ttype < 16
    ensures r == out + Header(num, prev, ttype)
  {
    var delta := num - prev;
    if 0 < delta <= 15 {
      r := out + [delta * 16 + ttype];
    } else {
      r := out + ([ttype] + [num / 256 % 256] + [num % 256]);
    }
  }

  /** What the decoding loop can store for a kind. */
  predicate HasShape(v: Value, kind: Kind) {
    match kind
    case Int32 => v.Num? && v.n >= 0
    case Int64 => v.Num? && v.n >= 0
    case Bool => v.Flag?
    case _ => v.Data?
  }

  predicate Shaped(schema: PySchema, m: Values) {
    forall num :: num in m && 1 <= num <= |schema| ==> HasShape(m[num], KindOf(schema, num))
  }

  lemma {:induction false} ScanShaped(schema: PySchema, buf: seq<byte>, i: nat, m: Values)
    requires Shaped(schema, m)
    ensures var s := ScanFrom(schema, buf, i, m); s.Fields? ==> Shaped(schema, s.m)
    decreases |buf| - i
  {
    if i < |buf| {
      match ScanStep(schema, buf, i, m)
      case Raise =>
      case Next(j, m') =>
        assert Shaped(schema, m');
        ScanShaped(schema, buf, j, m');
    }
  }

  lemma ValueShaped(schema: PySchema, m: Values, num: nat)
    requires Shaped(schema, m) && 1 <= num <= |schema|
    ensures HasShape(ValueOf(schema, m, num), KindOf(schema, num))
  {
  }

  datatype Output = Bytes(out: seq<byte>) | Error

  method Transpile(schema: PySchema, data: seq<byte>) returns (r: Output)
    ensures var s := ScanFrom(schema, data, 0, map[]);
            r == if s.Raises? then Error else Bytes(EmitFrom(schema, s.m, 0, 0))
    ensures var p := R.Parse(schema, data, 0);
            r == if p.Malformed? then Error else Bytes(Emit(RecordItems(schema, p.rs, 0), 0, false))
  {
    hide ScanStep, Shaped, HasShape, EmitFrom, ItemBytes, ItemOf, ValueOf, RecordItems, Emit, R.Parse;
    EmitsRecords(schema, data);
    var m: Values, idx := map[], 0;
    while idx < |data|
      invariant ScanFrom(schema, data, idx, m) == ScanFrom(schema, data, 0, map[])
    {
      var s := ScanOne(schema, data, idx, m);
      if s.Raise? { return Error; }
      idx, m := s.i, s.m;
    }
    StartShaped(schema, data);
    var out: seq<byte>, prev: nat := [], 0;
    assert out + EmitFrom(schema, m, 0, 0) == EmitFrom(schema, m, 0, 0);
    for k := 0 to |schema|
      invariant out + EmitFrom(schema, m, k, prev) == EmitFrom(schema, m, 0, 0)
    {
      EmitNext(schema, m, k, prev);
      if Emitted(schema, m, k + 1) {
        var kind, v := KindOf(schema, k + 1), ValueOf(schema, m, k + 1);
        ValueShaped(schema, m, k + 1);
        ghost var bytes := ItemBytes(ItemOf(Sent(k + 1, kind, v)), prev);
        assert out + (bytes + EmitFrom(schema, m, k + 1, k + 1)) == (out + bytes) + EmitFrom(schema, m, k + 1, k + 1);
        out := AppendField(out, k + 1, prev, kind, v);
        prev := k + 1;
      }
    }
    EmitEnd(schema, m, prev);
    out := out + [0];
    return Bytes(out);
  }

  /** The Thrift fields that stand for the records `rs`, after the first `k`: a number or a
      bool always, a byte string only if there is a record for it. */
  function RecordItems(schema: PySchema, rs: seq<R.Record>, k: nat): seq<Item>
    requires k <= |schema|
    decreases |schema| - k
  {
    if k == |schema| then []
    else
      var num, rest := k + 1, RecordItems(schema, rs, k + 1);
      match R.FieldValue(schema, rs, num)
      case Flag(on) => [Item(num, Truth(on))] + rest
      case Data(bytes) => if R.Occurrences(rs, num) == [] then rest else [Item(num, Blob(bytes))] + rest
      case Num(n) => [Item(num, Zig(schema[k].kind.Int64?, if n >= 0 then 2 * n else 0))] + rest
      case Opaque(_) => rest
  }

  /** What the decoded values `m` have in common with the records `rs`. */
  ghost predicate FromRecords(schema: PySchema, rs: seq<R.Record>, m: Values) {
    forall num: nat :: 1 <= num <= |schema| ==>
      (num in m <==> R.Occurrences(rs, num) != []) && ValueOf(schema, m, num) == R.FieldValue(schema, rs, num)
  }

  lemma {:induction false} ItemsAreRecords(schema: PySchema, rs: seq<R.Record>, m: Values, k: nat)
    requires k <= |schema| && Shaped(schema, m) && FromRecords(schema, rs, m)
    ensures Items(SentFrom(schema, m, k)) == RecordItems(schema, rs, k)
    decreases |schema| - k
  {
    hide R.FieldValue, R.Occurrences, ValueOf, Shaped;
    if k < |schema| {
      ItemsAreRecords(schema, rs, m, k + 1);
      ValueShaped(schema, m, k + 1);
      if Emitted(schema, m, k + 1) {
        ItemsCons(Sent(k + 1, KindOf(schema, k + 1), ValueOf(schema, m, k + 1)), SentFrom(schema, m, k + 1));
      }
    }
  }

  /** For every message that parses, the output is that of the fields its records stand for. */
  lemma EmitsRecords(schema: PySchema, data: seq<byte>)
    ensures var s, p := ScanFrom(schema, data, 0, map[]), R.Parse(schema, data, 0);
            && (s.Raises? <==> p.Malformed?)
            && (s.Fields? ==> EmitFrom(schema, s.m, 0, 0) == Emit(RecordItems(schema, p.rs, 0), 0, false))
  {
    hide ScanFrom, R.Parse, R.FieldValue, R.Occurrences, RecordItems, Shaped, ValueOf, Emit, Items, SentFrom;
    var s, p := ScanFrom(schema, data, 0, map[]), R.Parse(schema, data, 0);
    DecodesRecords(schema, data);
    StartShaped(schema, data);
    if s.Fields? {
      ItemsAreRecords(schema, p.rs, s.m, 0);
    }
  }

  lemma StartShaped(schema: PySchema, data: seq<byte>)
    ensures var s := ScanFrom(schema, data, 0, map[]); s.Fields? ==> Shaped(schema, s.m)
  {
    ScanShaped(schema, data, 0, map[]);
  }

  lemma EmitEnd(schema: PySchema, m: Values, prev: nat)
    ensures EmitFrom(schema, m, |schema|, prev) == [0]
  {
  }

  // ------------------------------------------------------------- the whole claim

  /** The Thrift field that carries a from_proto value. */
  function FieldOf(s: Sent): TField {
    TField(s.num, match s.v
                  case Num(n) => if s.kind.Int64? then TI64(n) else TI32(n)
                  case Data(bytes) => TBinary(bytes)
                  case Flag(on) => TBool(on)
                  case Opaque(_) => TBinary([]))
  }

  function FieldsOf(ss: seq<Sent>): (fs: seq<TField>)
    ensures |fs| == |ss|
  {
    seq(|ss|, i requires 0 <= i < |ss| => FieldOf(ss[i]))
  }

  /** The last written field up to `num`, or 0. */
  function LastEmitted(schema: PySchema, m: Values, num: nat): (p: nat)
    requires num <= |schema|
    ensures p <= num
  {
    if num == 0 then 0
    else if Emitted(schema, m, num) then num
    else LastEmitted(schema, m, num - 1)
  }

  /** No written field comes after 15 or more absent ones. */
  predicate GapsFit(schema: PySchema, m: Values, k: nat := 0) {
    forall num :: k < num <= |schema| && Emitted(schema, m, num) ==> num - LastEmitted(schema, m, num - 1) <= 15
  }

  predicate IntFits(kind: Kind, v: Value) {
    (kind.Int32? && v.Num? ==> v.n < TWO_31) && (kind.Int64? && v.Num? ==> v.n < TWO_63)
  }

  /** Integer values lie in the signed range of their kind. */
  predicate IntsFit(schema: PySchema, m: Values) {
    forall num :: 1 <= num <= |schema| ==> IntFits(KindOf(schema, num), ValueOf(schema, m, num))
  }

  lemma {:induction false} GapsAreAligned(schema: PySchema, m: Values, k: nat)
    requires k <= |schema|
    ensures var last := LastEmitted(schema, m, k);
            GapsFit(schema, m, k) <==> Aligned(Items(SentFrom(schema, m, k)), last, last, false)
    decreases |schema| - k
  {
    if k < |schema| {
      GapsAreAligned(schema, m, k + 1);
      var last := LastEmitted(schema, m, k);
      if Emitted(schema, m, k + 1) {
        var s, ss := Sent(k + 1, KindOf(schema, k + 1), ValueOf(schema, m, k + 1)), SentFrom(schema, m, k + 1);
        ItemsCons(s, ss);
        var items := Items([s] + ss);
        assert items[0] == ItemOf(s) && items[1..] == Items(ss) && ItemOf(s).id == k + 1;
        assert LastEmitted(schema, m, k + 1) == k + 1;
        assert Aligned(items, last, last, false) <==> k + 1 - last <= 15 && Aligned(Items(ss), k + 1, k + 1, false);
      } else {
        assert LastEmitted(schema, m, k + 1) == last;
      }
      assert GapsFit(schema, m, k) <==>
             GapsFit(schema, m, k + 1) && (Emitted(schema, m, k + 1) ==> k + 1 - last <= 15);
    }
  }

  lemma {:induction false} SentElements(schema: PySchema, m: Values, k: nat)
    requires k <= |schema|
    ensures forall s :: s in SentFrom(schema, m, k) ==>
              k < s.num <= |schema| && s == Sent(s.num, KindOf(schema, s.num), ValueOf(schema, m, s.num))
    ensures forall num :: k < num <= |schema| && Emitted(schema, m, num) ==>
              Sent(num, KindOf(schema, num), ValueOf(schema, m, num)) in SentFrom(schema, m, k)
    decreases |schema| - k
  {
    if k < |schema| {
      SentElements(schema, m, k + 1);
    }
  }

  lemma SentMeans(s: Sent)
    requires Supported(s.kind) && HasShape(s.v, s.kind)
    ensures Means(ItemOf(s), FieldOf(s)) <==> IntFits(s.kind, s.v)
  {
  }

  lemma MeansThroughout(schema: PySchema, m: Values)
    requires Shaped(schema, m)
    ensures var ss := SentFrom(schema, m, 0);
            AllMean(Items(ss), FieldsOf(ss)) <==> IntsFit(schema, m)
  {
    hide Means, IntFits, ItemOf, FieldOf, HasShape, ValueOf, SentFrom;
    var ss := SentFrom(schema, m, 0);
    SentElements(schema, m, 0);
    forall i | 0 <= i < |ss|
      ensures Means(Items(ss)[i], FieldsOf(ss)[i]) <==> IntFits(ss[i].kind, ss[i].v)
    {
      assert ss[i] in ss;
      ValueShaped(schema, m, ss[i].num);
      SentMeans(ss[i]);
    }
    if AllMean(Items(ss), FieldsOf(ss)) {
      forall num | 1 <= num <= |schema|
        ensures IntFits(KindOf(schema, num), ValueOf(schema, m, num))
      {
        if Emitted(schema, m, num) {
          var i :| 0 <= i < |ss| && ss[i] == Sent(num, KindOf(schema, num), ValueOf(schema, m, num));
          assert Means(Items(ss)[i], FieldsOf(ss)[i]);
        } else {
          NotAnInt(KindOf(schema, num), ValueOf(schema, m, num));
        }
      }
    }
  }

  lemma NotAnInt(kind: Kind, v: Value)
    requires kind.Text? || kind.Binary?
    ensures IntFits(kind, v)
  {
  }

  /** What a Thrift reader of the struct has for a field: the field read, or the default. */
  function ThriftValue(fs: seq<TField>, num: nat, kind: Kind): Value {
    if fs == [] then Zero(kind)
    else if fs[0].id == num then
      match fs[0].value
      case TI32(n) => Num(n)
      case TI64(n) => Num(n)
      case TBinary(bytes) => Data(bytes)
      case TBool(on) => Flag(on)
    else ThriftValue(fs[1..], num, kind)
  }

  /** The fields written, with defaults for the rest, are the values of from_proto. */
  lemma {:induction false} FieldsCarryValues(schema: PySchema, m: Values, k: nat, num: nat)
    requires Shaped(schema, m) && k < num <= |schema|
    ensures ThriftValue(FieldsOf(SentFrom(schema, m, k)), num, KindOf(schema, num)) == ValueOf(schema, m, num)
    decreases |schema| - k
  {
    hide HasShape, Zero;
    var ss := SentFrom(schema, m, k);
    if Emitted(schema, m, k + 1) {
      var fs := FieldsOf(ss);
      var rest := SentFrom(schema, m, k + 1);
      assert ss[0] == Sent(k + 1, KindOf(schema, k + 1), ValueOf(schema, m, k + 1)) && ss[1..] == rest;
      assert fs[0] == FieldOf(ss[0]) && fs[1..] == FieldsOf(rest);
    }
    if num == k + 1 {
      ValueShaped(schema, m, num);
      if Emitted(schema, m, num) {
        FieldCarries(schema, m, num);
      } else {
        AbsentAfter(schema, m, k + 1, num);
      }
    } else {
      FieldsCarryValues(schema, m, k + 1, num);
    }
  }

  lemma FieldCarries(schema: PySchema, m: Values, num: nat)
    requires 1 <= num <= |schema| && HasShape(ValueOf(schema, m, num), KindOf(schema, num))
    ensures var v, kind := ValueOf(schema, m, num), KindOf(schema, num);
            var f := FieldOf(Sent(num, kind, v));
            ThriftValue([f], num, kind) == v
  {
  }

  lemma {:induction false} AbsentAfter(schema: PySchema, m: Values, k: nat, num: nat)
    requires 1 <= num <= k <= |schema|
    ensures ThriftValue(FieldsOf(SentFrom(schema, m, k)), num, KindOf(schema, num)) == Zero(KindOf(schema, num))
    decreases |schema| - k
  {
    hide Zero;
    if k < |schema| {
      AbsentAfter(schema, m, k + 1, num);
      if Emitted(schema, m, k + 1) {
        var ss := SentFrom(schema, m, k);
        assert ss[0].num == k + 1 && ss[1..] == SentFrom(schema, m, k + 1);
        assert FieldsOf(ss)[0].id == k + 1 && FieldsOf(ss)[1..] == FieldsOf(ss[1..]);
      }
    }
  }

  /** For every input from_proto accepts, the transpiled bytes read as Thrift Compact give
      exactly the written fields with the values of from_proto, if and only if integers
      are in range and no written field follows 15 or more absent ones. */
  lemma CommutesExactly(schema: PySchema, data: seq<byte>)
    requires |schema| < 32768 && ScanFrom(schema, data, 0, map[]).Fields?
    ensures var m := ScanFrom(schema, data, 0, map[]).m;
            var out := EmitFrom(schema, m, 0, 0);
            (ReadStruct(out, 0, 0) == Struct(FieldsOf(SentFrom(schema, m, 0)), |out|)
             <==> GapsFit(schema, m) && IntsFit(schema, m))
  {
    hide ScanFrom, ReadStruct, Emit, Aligned, AllMean, IntsFit, GapsFit, Items, FieldsOf, SentFrom, Shaped;
    var m := ScanFrom(schema, data, 0, map[]).m;
    StartShaped(schema, data);
    var ss := SentFrom(schema, m, 0);
    SentIds(schema, m);
    EmitReadsBack(Items(ss), FieldsOf(ss), 0, 0, false, Emit(Items(ss), 0, false), 0);
    GapsAreAligned(schema, m, 0);
    MeansThroughout(schema, m);
  }

  lemma SentIds(schema: PySchema, m: Values)
    requires |schema| < 32768
    ensures var ss := SentFrom(schema, m, 0);
            ThriftIds(Items(ss)) && SameIds(Items(ss), FieldsOf(ss))
  {
    hide ValueOf, SentFrom;
    var ss := SentFrom(schema, m, 0);
    SentElements(schema, m, 0);
    assert forall i :: 0 <= i < |ss| ==> ss[i] in ss && Items(ss)[i].id == ss[i].num == FieldsOf(ss)[i].id;
  }

  /** In that case every field of from_proto can be read off the Thrift struct. */
  lemma ReadsLikeFromProto(schema: PySchema, data: seq<byte>, num: nat)
    requires |schema| < 32768 && ScanFrom(schema, data, 0, map[]).Fields? && 1 <= num <= |schema|
    requires var m := ScanFrom(schema, data, 0, map[]).m; GapsFit(schema, m) && IntsFit(schema, m)
    ensures var m := ScanFrom(schema, data, 0, map[]).m;
            var s := ReadStruct(EmitFrom(schema, m, 0, 0), 0, 0);
            && s.Struct? && ThriftValue(s.fields, num, KindOf(schema, num)) == WithDefaults(schema, m)[num]
            && R.Parse(schema, data, 0).Records?
            && WithDefaults(schema, m)[num] == R.FieldValue(schema, R.Parse(schema, data, 0).rs, num)
  {
    hide R.Parse, R.FieldValue, R.Occurrences;
    hide ScanFrom, ReadStruct, EmitFrom, IntsFit, GapsFit, FieldsOf, SentFrom, Shaped, ThriftValue, ValueOf;
    StartShaped(schema, data);
    CommutesExactly(schema, data);
    DecodesRecords(schema, data);
    FieldsCarryValues(schema, ScanFrom(schema, data, 0, map[]).m, 0, num);
  }

  // ------------------------------------------------------------ a message that fails

  /** Fifteen strings and an integer. */
  function FifteenStrings(): (s: PySchema)
    ensures |s| == 16 && s[15].kind.Int64? && forall i :: 0 <= i < 15 ==> s[i].kind.Text?
  {
    seq(15, _ => Field("s", 0, Text)) + [Field("n", 0, Int64)]
  }

  lemma {:induction false} NothingEmitted(schema: PySchema, m: Values, num: nat)
    requires num <= |schema| && forall k :: 1 <= k <= num ==> !Emitted(schema, m, k)
    ensures LastEmitted(schema, m, num) == 0
  {
    if num > 0 {
      NothingEmitted(schema, m, num - 1);
    }
  }

  /** A message with the integer alone: its header does not fit the short form, and the
      output does not read as the field. */
  lemma StringsAbsent()
    ensures var schema, m := FifteenStrings(), map[16 := Num(1)];
            var out := EmitFrom(schema, m, 0, 0);
            && ScanFrom(schema, [128, 1, 1], 0, map[]) == Scan.Fields(m)
            && ReadStruct(out, 0, 0) != Struct(FieldsOf(SentFrom(schema, m, 0)), |out|)
  {
    hide ReadStruct, EmitFrom, FieldsOf, SentFrom, FifteenStrings;
    var schema, m, buf: seq<byte> := FifteenStrings(), map[16 := Num(1)], [128, 1, 1];
    assert Varint.Decode(buf, 2) == Varint.Got(1, 3) && Varint.Decode(buf, 1) == Varint.Got(1, 2);
    assert Varint.Decode(buf, 0) == Varint.Got(128, 2);
    assert ScanStep(schema, buf, 0, map[]) == Next(3, m);
    CommutesExactly(schema, buf);
    NothingEmitted(schema, m, 15);
    assert Emitted(schema, m, 16);
  }
}

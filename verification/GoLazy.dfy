/** The message structure of the wire format (Protocol Buffers "Encoding", section
    "Message Structure") as an independent parser, the emitted lazy field scanner, and
    how both decoders relate to it. */
module GoLazy {
  import opened Bytes
  import opened Schema
  import opened GoProto
  import Varint

  /** Past: a length that runs beyond the end of the buffer. */
  datatype Content = Number(v: u64) | Chunk(bytes: seq<byte>) | Past

  datatype Record = Record(num: int, content: Content)

  datatype OneRecord = Broken | One(r: Record, next: nat)

  /** The record that starts at `i`; wire types other than 0 and 2 are not read. */
  function ParseRecord(buf: seq<byte>, i: nat): (p: OneRecord)
    ensures p.One? ==> p.next > i
  {
    match Varint.Decode64(buf, i)
    case Eof => Broken
    case Got(tag, j) =>
      var num, wire := Signed32(tag / 8), tag % 8;
      match Varint.Decode64(buf, j)
      case Eof => Broken
      case Got(v, k) =>
        if wire == 0 then One(Record(num, Number(v)), k)
        else if wire == 2 && PostIndex(k, v) >= k then
          var post := PostIndex(k, v);
          One(Record(num, if post > |buf| then Past else Chunk(buf[k..post])), post)
        else Broken
  }

  datatype Parsed = Malformed | Records(rs: seq<Record>)

  function Cons(r: Record, p: Parsed): Parsed {
    if p.Malformed? then Malformed else Records([r] + p.rs)
  }

  /** The records of `buf` from index `i` on, whatever the schema. */
  function Parse(buf: seq<byte>, i: nat): Parsed
    decreases |buf| - i
  {
    if i >= |buf| then Records([])
    else
      match ParseRecord(buf, i)
      case Broken => Malformed
      case One(r, next) => Cons(r, Parse(buf, next))
  }

  /** The content a field of this kind may have. */
  predicate Fits(kind: Kind, c: Content) {
    if kind.Text? then c.Chunk? else c.Number?
  }

  function ValueOf(kind: Kind, c: Content): Value
    requires Fits(kind, c)
  {
    match c
    case Number(v) => Num(if kind.Int32? then Signed32(v) else Signed64(v))
    case Chunk(bytes) => Data(bytes)
  }

  predicate FitsSchema(schema: seq<Field>, r: Record) {
    var f := Lookup(schema, r.num);
    f.Some? ==> Fits(f.value.kind, r.content)
  }

  predicate Accepts(schema: seq<Field>, rs: seq<Record>) {
    forall r :: r in rs ==> FitsSchema(schema, r)
  }

  /** A record stored into the field it names, if there is one. */
  function ApplyOne(schema: seq<Field>, r: Record, x: Message): Message {
    match Lookup(schema, r.num)
    case Some(f) => if Fits(f.kind, r.content) then x[f.id := ValueOf(f.kind, r.content)] else x
    case None => x
  }

  /** Records in order, later ones overwriting earlier ones. */
  function Apply(schema: seq<Field>, rs: seq<Record>, x: Message): Message {
    if rs == [] then x else Apply(schema, rs[1..], ApplyOne(schema, rs[0], x))
  }

  /** The schemas the lazy getters support: int32, int64 and string fields. */
  type WireSchema = s: seq<Field> | DistinctIds(s) && forall f :: f in s ==> OnWire(f.kind) witness []

  // --------------------------------------------------------------- eager decoding

  /** One iteration of Unmarshal is one record; it fails exactly on a record that is
      broken or does not fit its field. */
  lemma StepIsRecord(schema: WireSchema, buf: seq<byte>, i: nat, x: Message)
    requires i < |buf|
    ensures UnmarshalStep(schema, buf, i, x).Next? <==>
            ParseRecord(buf, i).One? && FitsSchema(schema, ParseRecord(buf, i).r)
    ensures UnmarshalStep(schema, buf, i, x).Next? ==>
              (UnmarshalStep(schema, buf, i, x)
               == Next(ParseRecord(buf, i).next, ApplyOne(schema, ParseRecord(buf, i).r, x)))
  {
    hide Signed64, Signed32, PostIndex, Varint.Decode64;
    match Varint.Decode64(buf, i)
    case Eof =>
    case Got(tag, j) =>
      if Varint.Decode64(buf, j).Got? {
        PostIndexBound(Varint.Decode64(buf, j).next, Varint.Decode64(buf, j).value);
      }
  }

  /** Whatever the schema, an end-group tag where a record should start fails the message. */
  lemma EndGroupFails(schema: seq<Field>, num: nat, buf: seq<byte>, i: nat, x: Message)
    requires num * 8 + 4 < TWO_64 && At(buf, i, Varint.Encode(num * 8 + 4))
    ensures Unmarshal(schema, buf, i, x) == Failed
  {
    Varint.DecodeEncoded64(buf, i, num * 8 + 4);
  }

  lemma PostIndexBound(k: nat, len: nat)
    ensures PostIndex(k, len) < TWO_63
  {
  }

  lemma AcceptsCons(schema: seq<Field>, r: Record, rs: seq<Record>)
    ensures Accepts(schema, [r] + rs) <==> FitsSchema(schema, r) && Accepts(schema, rs)
  {
    var all := [r] + rs;
    assert all[0] == r && all[1..] == rs;
    assert forall s :: s in all <==> s == r || s in rs;
  }

  /** Unmarshal accepts exactly the parsable inputs whose known records fit their
      fields, and then applies the records in order. */
  lemma {:induction false} EagerAppliesRecords(schema: WireSchema, buf: seq<byte>, i: nat, x: Message)
    ensures Unmarshal(schema, buf, i, x).Decoded? <==> Parse(buf, i).Records? && Accepts(schema, Parse(buf, i).rs)
    ensures Unmarshal(schema, buf, i, x).Decoded? ==>
            Unmarshal(schema, buf, i, x) == Decoded(Apply(schema, Parse(buf, i).rs, x))
    decreases |buf| - i
  {
    if i < |buf| {
      StepIsRecord(schema, buf, i, x);
      hide UnmarshalStep, ParseRecord, FitsSchema, ApplyOne;
      match ParseRecord(buf, i)
      case Broken =>
      case One(r, next) =>
        EagerAppliesRecords(schema, buf, next, ApplyOne(schema, r, x));
        if Parse(buf, next).Records? {
          var rs := Parse(buf, next).rs;
          AcceptsCons(schema, r, rs);
          assert ([r] + rs)[1..] == rs;
        }
    }
  }

  // ---------------------------------------------------------------- lazy scanning

  datatype Scan = Found(raw: seq<byte>, wire: nat) | Absent | Error | Jammed

  /** The loop of fastScanField from index `i` on. */
  function FastScan(buf: seq<byte>, i: nat, target: int): Scan
    decreases |buf| - i
  {
    if i >= |buf| then Absent
    else
      match Varint.Decode64(buf, i)
      case Eof => Error
      case Got(tag, j) =>
        var num, wire := Signed32(tag / 8), tag % 8;
        if wire != 0 && wire != 2 then Error
        else
          match Varint.Decode64(buf, j)
          case Eof => Error
          case Got(v, k) =>
            var post := if wire == 0 then k else PostIndex(k, v);
            if num == target && wire == 0 then Found(buf[j..k], wire)
            else if num == target && (post < 0 || post > |buf|) then Error
            else if post < k then Jammed
            else if num == target then Found(buf[k..post], wire)
            else FastScan(buf, post, target)
  }

  method FastScanField(dAtA: seq<byte>, target: int) returns (r: Scan)
    ensures r == FastScan(dAtA, 0, target)
  {
    var i := 0;
    while i < |dAtA|
      invariant FastScan(dAtA, i, target) == FastScan(dAtA, 0, target)
    {
      var read := Varint.ReadVarint(dAtA, i);
      if read.Eof? { return Error; }
      var j := read.next;
      var num, wire := Signed32(read.value / 8), read.value % 8;
      if num == target {
        if wire == 2 {
          read := Varint.ReadVarint(dAtA, j);
          if read.Eof? { return Error; }
          var post := PostIndex(read.next, read.value);
          if post < 0 || post > |dAtA| { return Error; }
          if post < read.next { return Jammed; }
          return Found(dAtA[read.next..post], wire);
        } else if wire == 0 {
          read := Varint.ReadVarint(dAtA, j);
          if read.Eof? { return Error; }
          return Found(dAtA[j..read.next], wire);
        }
        return Error;
      }
      if wire == 0 {
        read := Varint.ReadVarint(dAtA, j);
        if read.Eof? { return Error; }
        i := read.next;
      } else if wire == 2 {
        read := Varint.ReadVarint(dAtA, j);
        if read.Eof? { return Error; }
        var post := PostIndex(read.next, read.value);
        if post < read.next { return Jammed; }
        i := post;
      } else {
        return Error;
      }
    }
    return Absent;
  }

  datatype Getter = Value(v: Schema.Value) | Missing | Panics

  /** The emitted Get method of a lazy struct. */
  function LazyGet(f: Field, buf: seq<byte>): Getter {
    Interpret(f.kind, FastScan(buf, 0, f.id))
  }

  /** What a getter makes of a scan result: it looks at its own kind, not at the wire type. */
  function Interpret(kind: Kind, scan: Scan): Getter {
    match scan
    case Found(raw, _) =>
      if kind.Int32? || kind.Int64? then
        match Varint.Decode64(raw, 0)
        case Eof => Missing
        case Got(v, _) => Value(Num(if kind.Int32? then Signed32(v) else Signed64(v)))
      else if kind.Text? then Value(Data(raw))
      else Missing
    case Absent => Missing
    case Error => Missing
    case Jammed => Panics
  }

  /** The contents recorded for a field number, in order. */
  function Occurrences(rs: seq<Record>, id: int): seq<Content> {
    if rs == [] then []
    else (if rs[0].num == id then [rs[0].content] else []) + Occurrences(rs[1..], id)
  }

  lemma ScanStep(buf: seq<byte>, i: nat, f: Field)
    requires i < |buf| && OnWire(f.kind) && ParseRecord(buf, i).One?
    ensures var p := ParseRecord(buf, i);
            if p.r.num != f.id then FastScan(buf, i, f.id) == FastScan(buf, p.next, f.id)
            else Fits(f.kind, p.r.content) ==>
                   Interpret(f.kind, FastScan(buf, i, f.id)) == Value(ValueOf(f.kind, p.r.content))
  {
    hide Signed64, Signed32, PostIndex;
    var read := Varint.Decode64(buf, i);
    var j := read.next;
    Varint.DecodeLocal(buf, j, j);
  }

  lemma {:induction false} LazyIsFirst(schema: WireSchema, buf: seq<byte>, i: nat, f: Field)
    requires f in schema && Parse(buf, i).Records? && Accepts(schema, Parse(buf, i).rs)
    ensures var occ := Occurrences(Parse(buf, i).rs, f.id);
            if occ == [] then FastScan(buf, i, f.id) == Absent
            else Fits(f.kind, occ[0]) && Interpret(f.kind, FastScan(buf, i, f.id)) == Value(ValueOf(f.kind, occ[0]))
    decreases |buf| - i
  {
    if i < |buf| {
      LookupUnique(schema, f);
      ScanStep(buf, i, f);
      hide ParseRecord, Interpret;
      var r, next := ParseRecord(buf, i).r, ParseRecord(buf, i).next;
      var rs := Parse(buf, next).rs;
      assert ([r] + rs)[1..] == rs;
      AcceptsCons(schema, r, rs);
      if r.num != f.id {
        LazyIsFirst(schema, buf, next, f);
      }
    }
  }

  lemma {:induction false} EagerIsLast(schema: WireSchema, rs: seq<Record>, x: Message, f: Field)
    requires f in schema && Accepts(schema, rs) && f.id in x
    ensures f.id in Apply(schema, rs, x)
    ensures var occ := Occurrences(rs, f.id);
            if occ == [] then Apply(schema, rs, x)[f.id] == x[f.id]
            else Fits(f.kind, occ[|occ| - 1]) && Apply(schema, rs, x)[f.id] == ValueOf(f.kind, occ[|occ| - 1])
  {
    if rs != [] {
      LookupUnique(schema, f);
      assert rs == [rs[0]] + rs[1..];
      AcceptsCons(schema, rs[0], rs[1..]);
      EagerIsLast(schema, rs[1..], ApplyOne(schema, rs[0], x), f);
    }
  }

  lemma AbsentIsMissing(kind: Kind)
    ensures Interpret(kind, Absent) == Missing
  {
  }

  /** On every input Unmarshal accepts, the lazy getter returns the first occurrence of
      its field and Unmarshal keeps the last one; so they agree on a field that occurs
      exactly once, and an absent field is missing in one and untouched in the other. */
  lemma LazyRefinesEager(schema: WireSchema, buf: seq<byte>, x: Message, f: Field)
    requires f in schema && f.id in x && Unmarshal(schema, buf, 0, x).Decoded?
    ensures Parse(buf, 0).Records? && f.id in Unmarshal(schema, buf, 0, x).x
    ensures var occ, y := Occurrences(Parse(buf, 0).rs, f.id), Unmarshal(schema, buf, 0, x).x;
            if occ == [] then LazyGet(f, buf) == Missing && y[f.id] == x[f.id]
            else
              && Fits(f.kind, occ[0]) && LazyGet(f, buf) == Value(ValueOf(f.kind, occ[0]))
              && Fits(f.kind, occ[|occ| - 1]) && y[f.id] == ValueOf(f.kind, occ[|occ| - 1])
              && (|occ| == 1 ==> LazyGet(f, buf) == Value(y[f.id]))
  {
    hide Unmarshal, Parse, FastScan, Apply, Occurrences, Interpret, Accepts;
    EagerAppliesRecords(schema, buf, 0, x);
    AbsentIsMissing(f.kind);
    LazyIsFirst(schema, buf, 0, f);
    EagerIsLast(schema, Parse(buf, 0).rs, x, f);
  }
}

/** GrpcServerStream: rebuilding length-prefixed messages (gRPC over HTTP/2,
    "Length-Prefixed-Message") from a body that arrives in chunks of any size. */
module GrpcFrames {
  import opened Bytes

  /** What polling the body yields; the end of the list is the end of the body. */
  datatype Chunk = Data(bytes: seq<byte>) | BodyError

  // --------------------------------------------------------------------- framing

  function BE32(n: nat): (s: seq<byte>)
    ensures |s| == 4
  {
    [n / 0x100_0000 % 256, n / 0x1_0000 % 256, n / 0x100 % 256, n % 256]
  }

  function FromBE32(s: seq<byte>): nat
    requires |s| == 4
  {
    s[0] as int * 0x100_0000 + s[1] as int * 0x1_0000 + s[2] as int * 0x100 + s[3] as int
  }

  lemma BE32Inverse(n: nat)
    requires n < TWO_32
    ensures FromBE32(BE32(n)) == n
  {
    var a, b, c := n / 0x100, n / 0x1_0000, n / 0x100_0000;
    assert n == 0x100 * a + n % 256 && a == 0x100 * b + a % 256 && b == 0x100 * c + b % 256;
    assert a / 0x100 == b && b / 0x100 == c && c < 256;
  }

  /** The frame `send` puts on the wire: uncompressed flag, length, payload. */
  function Frame(payload: seq<byte>): (s: seq<byte>)
    ensures |s| == 5 + |payload|
  {
    [0] + BE32(|payload| % TWO_32) + payload
  }

  lemma LengthField(n: nat)
    ensures FromBE32(BE32(n % TWO_32)) == n % TWO_32
  {
    BE32Inverse(n % TWO_32);
  }

  /** The frame of a payload: a receiver that has nothing else gets that payload back and
      then the end of the stream, as long as its length fits four bytes. */
  method BuildFrame(payload: seq<byte>) returns (frame: seq<byte>)
    ensures |frame| == 5 + |payload| && frame[0] == 0 && frame[5..] == payload
    ensures FromBE32(frame[1..5]) == |payload| % TWO_32
    ensures |payload| < TWO_32 ==> Drain([], [Data(frame)]) == Clean([payload])
  {
    frame := [0];
    frame := frame + BE32(|payload| % TWO_32);
    frame := frame + payload;
    assert frame == Frame(payload);
    FrameFields(payload);
    if |payload| < TWO_32 {
      WholeFrame(payload);
    }
  }

  lemma FrameFields(payload: seq<byte>)
    ensures var frame := Frame(payload);
            && frame[0] == 0 && frame[5..] == payload && FromBE32(frame[1..5]) == |payload| % TWO_32
  {
    hide BE32, FromBE32;
    LengthField(|payload|);
    Slices([0] + BE32(|payload| % TWO_32), payload, []);
    HeadSlice(BE32(|payload| % TWO_32));
    assert Frame(payload) + [] == Frame(payload);
  }

  lemma HeadSlice(size: seq<byte>)
    requires |size| == 4
    ensures ([0] + size)[1..5] == size
  {
  }

  /** Where the parts of a frame stand in what follows it. */
  lemma Slices(head: seq<byte>, payload: seq<byte>, rest: seq<byte>)
    requires |head| == 5
    ensures var s := head + payload + rest;
            && s[..5] == head && s[1..5] == head[1..] && s[5..] == payload + rest
            && s[5..][..|payload|] == payload && s[5..][|payload|..] == rest
  {
  }

  lemma WholeFrame(payload: seq<byte>)
    requires |payload| < TWO_32
    ensures Drain([], [Data(Frame(payload))]) == Clean([payload])
  {
    var body := [Data(Frame(payload))];
    assert body[1..] == [] && Flat(body) == Frame(payload) + [];
    assert Frames([payload]) == Frame(payload) + [] == Frame(payload);
    NonemptyChunksDeliver(body, [payload]);
  }

  function Frames(ps: seq<seq<byte>>): seq<byte> {
    if ps == [] then [] else Frame(ps[0]) + Frames(ps[1..])
  }

  // -------------------------------------------------------- the stream, as values

  datatype Read = Full(data: seq<byte>, buf: seq<byte>, body: seq<Chunk>) | Short(buf: seq<byte>, body: seq<Chunk>)

  /** read_exact: pull chunks until `n` bytes are buffered, then split them off. */
  function ReadExact(buf: seq<byte>, body: seq<Chunk>, n: nat): (r: Read)
    ensures r.Full? ==> |r.data| == n
    decreases |body|
  {
    if |buf| >= n then Full(buf[..n], buf[n..], body)
    else if body == [] then Short(buf, body)
    else
      match body[0]
      case Data(c) => ReadExact(buf + c, body[1..], n)
      case BodyError => Short(buf, body[1..])
  }

  datatype Recv = Message(payload: seq<byte>, buf: seq<byte>, body: seq<Chunk>)
                | End(buf: seq<byte>, body: seq<Chunk>)
                | Failure(buf: seq<byte>, body: seq<Chunk>)

  /** Header and payload, once there is something to read. */
  function ReadMessage(buf: seq<byte>, body: seq<Chunk>): Recv {
    match ReadExact(buf, body, 5)
    case Short(b, rest) => Failure(b, rest)
    case Full(header, b, rest) =>
      match ReadExact(b, rest, FromBE32(header[1..5]))
      case Short(b', rest') => Failure(b', rest')
      case Full(payload, b', rest') => Message(payload, b', rest')
  }

  /** recv: has_more polls at most one chunk, and takes an empty one, an error or the end
      of the body for the end of the stream. */
  function Receive(buf: seq<byte>, body: seq<Chunk>): Recv {
    if buf != [] then ReadMessage(buf, body)
    else if body == [] then End(buf, body)
    else if body[0].BodyError? || body[0].bytes == [] then End(buf, body[1..])
    else ReadMessage(body[0].bytes, body[1..])
  }

  class GrpcServerStream {
    var body: seq<Chunk>
    var buf: seq<byte>

    constructor (body: seq<Chunk>)
      ensures this.body == body && buf == []
    {
      this.body := body;
      buf := [];
    }

    method ReadExactly(n: nat) returns (data: seq<byte>, ok: bool)
      modifies this
      ensures ok <==> ReadExact(old(buf), old(body), n).Full?
      ensures buf == ReadExact(old(buf), old(body), n).buf && body == ReadExact(old(buf), old(body), n).body
      ensures ok ==> data == ReadExact(old(buf), old(body), n).data
    {
      while |buf| < n
        invariant ReadExact(buf, body, n) == ReadExact(old(buf), old(body), n)
        decreases |body|
      {
        if body == [] {
          return [], false;
        }
        var c := body[0];
        body := body[1..];
        if c.BodyError? {
          return [], false;
        }
        buf := buf + c.bytes;
      }
      data, ok := buf[..n], true;
      buf := buf[n..];
    }

    method HasMore() returns (more: bool)
      modifies this
      ensures old(buf) != [] ==> more && buf == old(buf) && body == old(body)
      ensures old(buf) == [] && old(body) == [] ==> !more && buf == [] && body == []
      ensures old(buf) == [] && old(body) != [] ==>
                var c := old(body)[0];
                && body == old(body)[1..] && (more <==> c.Data? && c.bytes != [])
                && buf == if c.Data? then c.bytes else []
    {
      if buf != [] {
        return true;
      }
      if body == [] {
        return false;
      }
      var c := body[0];
      body := body[1..];
      if c.BodyError? {
        return false;
      }
      buf := buf + c.bytes;
      assert [] + c.bytes == c.bytes;
      more := buf != [];
    }

    method RecvNext() returns (r: Recv)
      modifies this
      ensures r == Receive(old(buf), old(body)) && buf == r.buf && body == r.body
    {
      var more := HasMore();
      if !more {
        return End(buf, body);
      }
      var header, ok := ReadExactly(5);
      if !ok {
        return Failure(buf, body);
      }
      var payload;
      payload, ok := ReadExactly(FromBE32(header[1..5]));
      if !ok {
        return Failure(buf, body);
      }
      return Message(payload, buf, body);
    }
  }

  // ------------------------------------------------------------ draining a stream

  predicate AllData(body: seq<Chunk>) { forall k :: 0 <= k < |body| ==> body[k].Data? }

  /** The body as one byte string. */
  function Flat(body: seq<Chunk>): seq<byte>
    requires AllData(body)
  {
    if body == [] then [] else body[0].bytes + Flat(body[1..])
  }

  function Pending(buf: seq<byte>, body: seq<Chunk>): nat {
    |buf| + Volume(body)
  }

  function Volume(body: seq<Chunk>): nat {
    if body == [] then 0 else (if body[0].Data? then |body[0].bytes| else 0) + Volume(body[1..])
  }

  lemma {:induction false} ReadExactShrinks(buf: seq<byte>, body: seq<Chunk>, n: nat)
    ensures var r := ReadExact(buf, body, n);
            r.Full? ==> Pending(r.buf, r.body) + n == Pending(buf, body)
    decreases |body|
  {
    if |buf| < n && body != [] && body[0].Data? {
      ReadExactShrinks(buf + body[0].bytes, body[1..], n);
    }
  }

  lemma ReceiveShrinks(buf: seq<byte>, body: seq<Chunk>)
    ensures var r := Receive(buf, body); r.Message? ==> Pending(r.buf, r.body) < Pending(buf, body)
  {
    var b, rest := if buf != [] || body == [] || body[0].BodyError? then buf else body[0].bytes,
                   if buf != [] || body == [] then body else body[1..];
    ReadExactShrinks(b, rest, 5);
    var h := ReadExact(b, rest, 5);
    if h.Full? {
      ReadExactShrinks(h.buf, h.body, FromBE32(h.data[1..5]));
    }
  }

  datatype Drained = Clean(payloads: seq<seq<byte>>) | Broken

  /** All messages until recv reports the end of the stream. */
  function Drain(buf: seq<byte>, body: seq<Chunk>): Drained
    decreases Pending(buf, body)
  {
    ReceiveShrinks(buf, body);
    match Receive(buf, body)
    case End(_, _) => Clean([])
    case Failure(_, _) => Broken
    case Message(p, b, rest) =>
      match Drain(b, rest)
      case Broken => Broken
      case Clean(ps) => Clean([p] + ps)
  }

  // ---------------------------------------------------------- when chunking matters

  /** `offset` is where one of the frames of `ps` starts. */
  predicate Boundary(ps: seq<seq<byte>>, offset: nat) {
    ps != [] && (offset == 0 || (offset >= 5 + |ps[0]| && Boundary(ps[1..], offset - 5 - |ps[0]|)))
  }

  /** No chunk that starts where a frame starts is empty; `offset` is where the first
      chunk starts. */
  predicate NoGapAtFrames(offset: nat, body: seq<Chunk>, ps: seq<seq<byte>>)
    requires AllData(body)
    decreases |body|
  {
    body != [] ==>
      && (body[0].bytes == [] ==> !Boundary(ps, offset))
      && NoGapAtFrames(offset + |body[0].bytes|, body[1..], ps)
  }

  predicate Payloads(ps: seq<seq<byte>>) { forall k :: 0 <= k < |ps| ==> |ps[k]| < TWO_32 }

  /** Reading `n` bytes that end at most with the current frame: the data are the next
      bytes, and the chunks pulled in say nothing about later frames. */
  lemma {:induction false} ReadWithinFrame(buf: seq<byte>, body: seq<Chunk>, n: nat, ps: seq<seq<byte>>, base: nat)
    requires AllData(body) && n <= |buf| + |Flat(body)| && (|buf| < n ==> 0 < base + |buf|)
    requires ps != [] && base + n <= 5 + |ps[0]|
    ensures var r := ReadExact(buf, body, n);
            && r.Full? && AllData(r.body)
            && r.data == (buf + Flat(body))[..n] && r.buf + Flat(r.body) == (buf + Flat(body))[n..]
            && (NoGapAtFrames(base + |buf|, body, ps) <==> NoGapAtFrames(base + n + |r.buf|, r.body, ps))
    decreases |body|
  {
    var all := buf + Flat(body);
    if |buf| >= n {
      assert all[..n] == buf[..n] && all[n..] == buf[n..] + Flat(body);
    } else if body != [] {
      var c := body[0].bytes;
      assert all == (buf + c) + Flat(body[1..]);
      assert !Boundary(ps, base + |buf|);
      ReadWithinFrame(buf + c, body[1..], n, ps, base);
    }
  }

  /** Behind the first frame, boundaries are those of the remaining frames. */
  lemma {:induction false} NoGapShift(offset: nat, body: seq<Chunk>, ps: seq<seq<byte>>)
    requires AllData(body) && ps != []
    ensures NoGapAtFrames(5 + |ps[0]| + offset, body, ps) <==> NoGapAtFrames(offset, body, ps[1..])
    decreases |body|
  {
    if body != [] {
      NoGapShift(offset + |body[0].bytes|, body[1..], ps);
    }
  }

  lemma {:induction false} NoGapWithoutFrames(offset: nat, body: seq<Chunk>)
    requires AllData(body)
    ensures NoGapAtFrames(offset, body, [])
    decreases |body|
  {
    if body != [] {
      NoGapWithoutFrames(offset + |body[0].bytes|, body[1..]);
    }
  }

  /** From a nonempty buffer, recv returns the first payload and leaves the rest. */
  lemma FirstMessage(buf: seq<byte>, body: seq<Chunk>, ps: seq<seq<byte>>, rest: seq<byte>)
    requires AllData(body) && ps != [] && |ps[0]| < TWO_32 && buf != [] && buf + Flat(body) == Frame(ps[0]) + rest
    ensures var r := ReadMessage(buf, body);
            && r.Message? && r.payload == ps[0] && AllData(r.body)
            && r.buf + Flat(r.body) == rest
            && (NoGapAtFrames(|buf|, body, ps) <==> NoGapAtFrames(|r.buf|, r.body, ps[1..]))
  {
    hide ReadExact, NoGapAtFrames, BE32, FromBE32, Boundary, Frames, Frame, Flat;
    var p := ps[0];
    FrameParts(p, rest);
    ReadWithinFrame(buf, body, 5, ps, 0);
    var h := ReadExact(buf, body, 5);
    ReadWithinFrame(h.buf, h.body, |p|, ps, 5);
    var r := ReadExact(h.buf, h.body, |p|);
    NoGapShift(|r.buf|, r.body, ps);
  }

  /** A frame and what follows taken apart: header with the length, payload, and the rest. */
  lemma FrameParts(p: seq<byte>, rest: seq<byte>)
    requires |p| < TWO_32
    ensures var s := Frame(p) + rest;
            && |s| == 5 + |p| + |rest| && FromBE32(s[..5][1..5]) == |p|
            && s[5..][..|p|] == p && s[5..][|p|..] == rest
  {
    hide BE32, FromBE32;
    var size := BE32(|p| % TWO_32);
    LengthField(|p|);
    Slices([0] + size, p, rest);
    HeadSlice(size);
  }

  /** However the frames of any payloads are cut into chunks, draining the stream gives
      those payloads and a clean end, if and only if no empty chunk sits exactly where a
      frame begins. */
  lemma {:induction false} ChunkingExactly(buf: seq<byte>, body: seq<Chunk>, ps: seq<seq<byte>>)
    requires AllData(body) && Payloads(ps) && buf + Flat(body) == Frames(ps)
    ensures Drain(buf, body) == Clean(ps) <==> NoGapAtFrames(|buf|, body, ps)
    decreases |ps|
  {
    hide ReadMessage, ReadExact, BE32;
    if ps == [] {
      NoGapWithoutFrames(|buf|, body);
      assert buf == [] && Flat(body) == [];
    } else if buf == [] && body[0].bytes == [] {
      assert Receive(buf, body) == End(buf, body[1..]);
    } else {
      var b, rest := if buf != [] then buf else body[0].bytes, if buf != [] then body else body[1..];
      assert b + Flat(rest) == Frames(ps);
      assert Receive(buf, body) == ReadMessage(b, rest);
      FirstMessage(b, rest, ps, Frames(ps[1..]));
      DrainStep(buf, body, ps);
    }
  }

  lemma DrainStep(buf: seq<byte>, body: seq<Chunk>, ps: seq<seq<byte>>)
    requires AllData(body) && Payloads(ps) && ps != []
    requires Receive(buf, body).Message? && Receive(buf, body).payload == ps[0] && AllData(Receive(buf, body).body)
    requires Receive(buf, body).buf + Flat(Receive(buf, body).body) == Frames(ps[1..])
    ensures var r := Receive(buf, body);
            Drain(buf, body) == Clean(ps) <==> NoGapAtFrames(|r.buf|, r.body, ps[1..])
    decreases |ps|, 0
  {
    hide Receive, Boundary, NoGapAtFrames;
    var r := Receive(buf, body);
    ChunkingExactly(r.buf, r.body, ps[1..]);
    assert ps == [ps[0]] + ps[1..];
    var d := Drain(r.buf, r.body);
    if d.Clean? {
      assert ([ps[0]] + d.payloads)[1..] == d.payloads;
    }
  }

  /** A stream that is cut off inside a frame fails, unless an empty chunk where a frame
      begins has ended it before. */
  lemma {:induction false} CutExactly(buf: seq<byte>, body: seq<Chunk>, ps: seq<seq<byte>>, p: seq<byte>, m: nat)
    requires AllData(body) && Payloads(ps) && |p| < TWO_32 && 0 < m < |Frame(p)|
    requires buf + Flat(body) == Frames(ps) + Frame(p)[..m]
    ensures Drain(buf, body) == Broken <==> NoGapAtFrames(|buf|, body, ps + [p])
    decreases |ps|
  {
    hide ReadMessage, ReadExact, Frame, Boundary;
    var qs, cut := ps + [p], Frame(p)[..m];
    FirstBoundary(qs);
    if buf == [] && body[0].bytes == [] {
      assert Receive(buf, body) == End(buf, body[1..]);
    } else {
      var b, rest := if buf != [] then buf else body[0].bytes, if buf != [] then body else body[1..];
      assert b + Flat(rest) == Frames(ps) + cut;
      assert Receive(buf, body) == ReadMessage(b, rest);
      assert NoGapAtFrames(|buf|, body, qs) <==> NoGapAtFrames(|b|, rest, qs);
      if ps == [] {
        assert qs == [p] && Frames(ps) + cut == cut;
        CutFrame(b, rest, p, m);
      } else {
        assert Frames(ps) + cut == Frame(ps[0]) + (Frames(ps[1..]) + cut) && qs[1..] == ps[1..] + [p];
        FirstMessage(b, rest, qs, Frames(ps[1..]) + cut);
        var r := ReadMessage(b, rest);
        CutExactly(r.buf, r.body, ps[1..], p, m);
      }
    }
  }

  lemma FirstBoundary(ps: seq<seq<byte>>)
    requires ps != []
    ensures Boundary(ps, 0)
  {
  }

  /** A frame that is cut off cannot be read. */
  lemma CutFrame(buf: seq<byte>, body: seq<Chunk>, p: seq<byte>, m: nat)
    requires AllData(body) && |p| < TWO_32 && m < |Frame(p)| && buf != [] && buf + Flat(body) == Frame(p)[..m]
    ensures ReadMessage(buf, body).Failure? && NoGapAtFrames(|buf|, body, [p])
  {
    hide NoGapAtFrames, BE32, FromBE32, Frame, Boundary;
    FrameParts(p, []);
    assert Frame(p) + [] == Frame(p);
    NoGapInside(|buf|, body, p);
    if m < 5 {
      ReadShort(buf, body, 5);
    } else {
      ReadWithinFrame(buf, body, 5, [p], 0);
      var h := ReadExact(buf, body, 5);
      assert Frame(p)[..m][..5] == Frame(p)[..5];
      assert |h.buf| + |Flat(h.body)| == m - 5;
      ReadShort(h.buf, h.body, |p|);
    }
  }

  lemma {:induction false} ReadShort(buf: seq<byte>, body: seq<Chunk>, n: nat)
    requires AllData(body) && |buf| + |Flat(body)| < n
    ensures ReadExact(buf, body, n).Short?
    decreases |body|
  {
    if body != [] {
      ReadShort(buf + body[0].bytes, body[1..], n);
    }
  }

  lemma {:induction false} NoGapInside(offset: nat, body: seq<Chunk>, p: seq<byte>)
    requires AllData(body) && offset > 0
    ensures NoGapAtFrames(offset, body, [p])
    decreases |body|
  {
    if body != [] {
      NoGapInside(offset + |body[0].bytes|, body[1..], p);
    }
  }

  /** An error of the body means to the reader what its end means. */
  lemma ErrorEndsBody(buf: seq<byte>, body: seq<Chunk>, more: seq<Chunk>)
    requires AllData(body)
    ensures Drain(buf, body + [BodyError] + more) == Drain(buf, body)
    decreases Pending(buf, body)
  {
    hide ReadMessage;
    var tail := [BodyError] + more;
    assert body + [BodyError] + more == body + tail;
    if buf == [] && (body == [] || body[0].bytes == []) {
      assert (body + tail)[0] == if body == [] then BodyError else body[0];
    } else {
      var b, rest := if buf != [] then buf else body[0].bytes, if buf != [] then body else body[1..];
      assert buf == [] ==> (body + tail)[1..] == rest + tail;
      MessageBeforeError(b, rest, tail);
      var r := ReadMessage(b, rest);
      assert Receive(buf, body) == r && Receive(buf, body + tail) == ReadMessage(b, rest + tail);
      if r.Message? {
        ReceiveShrinks(buf, body);
        ErrorEndsBody(r.buf, r.body, more);
        assert r.body + [BodyError] + more == r.body + tail;
      }
    }
  }

  lemma MessageBeforeError(buf: seq<byte>, body: seq<Chunk>, tail: seq<Chunk>)
    requires AllData(body) && tail != [] && tail[0].BodyError?
    ensures var r, r' := ReadMessage(buf, body), ReadMessage(buf, body + tail);
            && !r.End? && AllData(r.body) && (r.Message? <==> r'.Message?) && (r.Failure? <==> r'.Failure?)
            && (r.Message? ==> r' == Message(r.payload, r.buf, r.body + tail))
  {
    hide FromBE32, ReadExact;
    ReadBeforeError(buf, body, tail, 5);
    var h := ReadExact(buf, body, 5);
    if h.Full? {
      ReadBeforeError(h.buf, h.body, tail, FromBE32(h.data[1..5]));
    }
  }

  lemma {:induction false} ReadBeforeError(buf: seq<byte>, body: seq<Chunk>, tail: seq<Chunk>, n: nat)
    requires AllData(body) && tail != [] && tail[0].BodyError?
    ensures var r, r' := ReadExact(buf, body, n), ReadExact(buf, body + tail, n);
            && AllData(r.body) && (r.Full? <==> r'.Full?)
            && (r.Full? ==> r' == Full(r.data, r.buf, r.body + tail))
    decreases |body|
  {
    if |buf| < n && body != [] {
      assert (body + tail)[0] == body[0] && (body + tail)[1..] == body[1..] + tail;
      ReadBeforeError(buf + body[0].bytes, body[1..], tail, n);
    } else if |buf| < n {
      assert body + tail == tail;
    }
  }

  /** The promise for a client that never sends an empty chunk. */
  lemma NonemptyChunksDeliver(body: seq<Chunk>, ps: seq<seq<byte>>)
    requires AllData(body) && Payloads(ps) && Flat(body) == Frames(ps)
    requires forall k :: 0 <= k < |body| ==> body[k].bytes != []
    ensures Drain([], body) == Clean(ps)
  {
    assert [] + Flat(body) == Flat(body);
    ChunkingExactly([], body, ps);
    NonemptyHasNoGap(0, body, ps);
  }

  lemma {:induction false} NonemptyHasNoGap(offset: nat, body: seq<Chunk>, ps: seq<seq<byte>>)
    requires AllData(body) && forall k :: 0 <= k < |body| ==> body[k].bytes != []
    ensures NoGapAtFrames(offset, body, ps)
    decreases |body|
  {
    if body != [] {
      NonemptyHasNoGap(offset + |body[0].bytes|, body[1..], ps);
    }
  }

  /** An empty chunk in front ends the stream before its first message. */
  lemma EmptyChunkEndsStream(payload: seq<byte>)
    ensures Drain([], [Data([]), Data(Frame(payload))]) == Clean([])
  {
    assert Receive([], [Data([]), Data(Frame(payload))]) == End([], [Data(Frame(payload))]);
  }
}

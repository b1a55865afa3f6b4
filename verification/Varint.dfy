/** Base-128 varints: the reference form (Protocol Buffers "Encoding", section
    "Base 128 Varints") and the readers and writers the generators emit. */
module Varint {
  import opened Bytes

  /** The shortest little-endian base-128 form of `v`; every byte but the last
      carries the continuation bit. */
  function Encode(v: nat): (s: seq<byte>)
    ensures |s| >= 1
  {
    if v < 128 then [v] else [v % 128 + 128] + Encode(v / 128)
  }

  datatype Read = Eof | Got(value: nat, next: nat)

  /** The varint that starts at `offset`: its unbounded value and the index after it. */
  function Decode(buf: seq<byte>, offset: nat): (r: Read)
    ensures r.Got? ==> offset < r.next <= |buf|
    decreases |buf| - offset
  {
    if offset >= |buf| then Eof
    else if buf[offset] < 128 then Got(buf[offset], offset + 1)
    else
      match Decode(buf, offset + 1)
      case Eof => Eof
      case Got(v, next) => Got(buf[offset] - 128 + 128 * v, next)
  }

  /** The same with the value reduced to 64 bits, as the emitted Go code sees it. */
  function Decode64(buf: seq<byte>, offset: nat): (r: Read)
    ensures r.Got? ==> offset < r.next <= |buf| && r.value < TWO_64
  {
    match Decode(buf, offset)
    case Eof => Eof
    case Got(v, next) => Got(Unsigned64(v), next)
  }

  lemma {:induction false} DecodeEncoded(buf: seq<byte>, i: nat, v: nat)
    requires At(buf, i, Encode(v))
    ensures Decode(buf, i) == Got(v, i + |Encode(v)|)
    decreases v
  {
    assert buf[i] == Encode(v)[0];
    if v >= 128 {
      AtConcat(buf, i, [v % 128 + 128], Encode(v / 128));
      DecodeEncoded(buf, i + 1, v / 128);
    }
  }

  lemma DecodeEncoded64(buf: seq<byte>, i: nat, v: nat)
    requires v < TWO_64 && At(buf, i, Encode(v))
    ensures Decode64(buf, i) == Got(v, i + |Encode(v)|)
  {
    DecodeEncoded(buf, i, v);
  }

  /** Reading depends only on the bytes of the varint itself. */
  lemma {:induction false} DecodeLocal(buf: seq<byte>, i: nat, lo: nat)
    requires lo <= i && Decode(buf, i).Got?
    ensures Decode(buf[lo..Decode(buf, i).next], i - lo)
         == Got(Decode(buf, i).value, Decode(buf, i).next - lo)
    decreases |buf| - i
  {
    var s := buf[lo..Decode(buf, i).next];
    assert s[i - lo] == buf[i];
    if buf[i] >= 128 {
      DecodeLocal(buf, i + 1, lo);
    }
  }

  // ---------------------------------------------------------------- emitted Go

  method SizeOfVarint(v: nat) returns (size: nat)
    ensures size == |Encode(v)|
  {
    if v == 0 {
      return 1;
    }
    size := 0;
    var w := v;
    while w > 0
      invariant size + (if w == 0 then 0 else |Encode(w)|) == |Encode(v)|
    {
      size := size + 1;
      w := w / 128;
    }
  }

  /** Writes the encoding at the offset; a write past the end of the buffer panics, and then
      what was stored before it is not looked at again. */
  method WriteVarint(buf: array<byte>, offset: nat, v: nat) returns (ok: bool, next: nat)
    modifies buf
    ensures next == offset + |Encode(v)| && ok == (next <= buf.Length)
    ensures ok ==> buf[..] == Splice(old(buf[..]), offset, Encode(v))
  {
    hide Splice;
    next := offset;
    if next >= buf.Length {
      return false, offset + |Encode(v)|;
    }
    var w := v;
    ghost var done: seq<byte> := [];
    SpliceNothing(buf[..], offset);
    while w >= 128
      invariant |done| == next - offset && done + Encode(w) == Encode(v)
      invariant next < buf.Length && buf[..] == Splice(old(buf[..]), offset, done)
    {
      ghost var b: byte := w % 128 + 128;
      StoreByte(buf, next, w % 128 + 128);
      SpliceTwice(old(buf[..]), offset, done, [b]);
      assert done + Encode(w) == done + [b] + Encode(w / 128);
      done := done + [b];
      w := w / 128;
      next := next + 1;
      if next >= buf.Length {
        return false, offset + |Encode(v)|;
      }
    }
    StoreByte(buf, next, w);
    SpliceTwice(old(buf[..]), offset, done, [w]);
    next := next + 1;
    ok := true;
  }

  method StoreByte(buf: array<byte>, i: nat, b: byte)
    requires i < buf.Length
    modifies buf
    ensures buf[..] == Splice(old(buf[..]), i, [b])
  {
    buf[i] := b;
  }

  /** One accumulation `v |= uint64(x) << s` of the reader, on 64 bits. */
  function OrShifted(v: nat, x: nat, s: nat): nat {
    BitOr(v, x * Pow2(s) % TWO_64)
  }

  lemma LowBits(q: int, r: nat)
    ensures (q * TWO_64 + r) % TWO_64 == r % TWO_64
  {
  }

  lemma Distribute(q: nat, c: nat, y: nat, p: nat)
    ensures (q * c + y) * p == q * (c * p) + y * p
  {
  }

  lemma MulMonotone(a: nat, b: nat, p: nat)
    requires a <= b
    ensures a * p <= b * p
  {
  }

  /** Shifting left on 64 bits drops the bits of `x` above the room that is left. */
  lemma ShiftSplit(x: nat, p: nat, c: nat) returns (q: nat, y: nat)
    requires c > 0 && c * p == TWO_64
    ensures x * p == q * TWO_64 + y * p
    ensures y * p + p <= TWO_64
  {
    q, y := x / c, x % c;
    Distribute(q, c, y, p);
    MulMonotone(y + 1, c, p);
    assert (y + 1) * p == y * p + p;
  }

  lemma Narrow(acc: nat, p: nat, xp: nat, q: nat, yp: nat)
    requires acc < p && xp == q * TWO_64 + yp && yp + p <= TWO_64
    ensures acc % TWO_64 == acc && xp % TWO_64 == yp && (acc + xp) % TWO_64 == acc + yp
  {
    LowBits(q, yp);
    LowBits(q, acc + yp);
  }

  /** Or-ing seven more bits in keeps the low 64 bits of the exact sum. */
  lemma OrShiftedIsSum(acc: nat, x: nat, s: nat)
    requires acc < Pow2(s)
    ensures OrShifted(acc % TWO_64, x, s) == (acc + x * Pow2(s)) % TWO_64
  {
    if s >= 64 {
      var q := WideShift(x, s);
      LowBits(q, 0);
      LowBits(q, acc);
    } else {
      NarrowShift(acc, x, s);
    }
  }

  lemma NarrowShift(acc: nat, x: nat, s: nat)
    requires acc < Pow2(s) && s < 64
    ensures OrShifted(acc % TWO_64, x, s) == (acc + x * Pow2(s)) % TWO_64
  {
    assert Pow2(64 - s) * Pow2(s) == TWO_64 by { Pow2Values(); Pow2Add(64 - s, s); }
    var p := Pow2(s);
    var q, y := ShiftSplit(x, p, Pow2(64 - s));
    var xp, yp := x * p, y * p;
    Narrow(acc, p, xp, q, yp);
    OrDisjoint(acc, y, s);
  }

  lemma WideShift(x: nat, s: nat) returns (q: nat)
    requires s >= 64
    ensures x * Pow2(s) == q * TWO_64
  {
    hide Pow2;
    Pow2Values();
    Pow2Add(s - 64, 64);
    q := x * Pow2(s - 64);
  }

  /** What is read once `rest` follows the bits already accumulated. */
  function Weighted(acc: nat, s: nat, rest: nat): nat {
    acc + rest * Pow2(s)
  }

  lemma Regroup(acc: nat, low: nat, s: nat, rest: nat)
    requires low < 128
    ensures Weighted(acc, s, low + 128 * rest) == Weighted(Weighted(acc, s, low), s + 7, rest)
    ensures acc < Pow2(s) ==> Weighted(acc, s, low) < Pow2(s + 7)
  {
    Pow2Add(s, 7);
    Pow2Values();
    var p := Pow2(s);
    assert (low + 128 * rest) * p == low * p + rest * (128 * p);
    MulMonotone(low, 127, p);
  }

  /** `acc` and `s` are where the reader of the varint at `offset` stands at index `i`. */
  ghost predicate Reading(buf: seq<byte>, offset: nat, i: nat, acc: nat, s: nat) {
    acc < Pow2(s) &&
    match Decode(buf, i)
    case Eof => Decode(buf, offset) == Eof
    case Got(rest, next) => Decode(buf, offset) == Got(Weighted(acc, s, rest), next)
  }

  /** One more byte, as far as the exact value goes. */
  lemma ReadingMoves(buf: seq<byte>, offset: nat, i: nat, acc: nat, s: nat)
    requires i < |buf| && Reading(buf, offset, i, acc, s)
    ensures buf[i] < 128 ==> Decode(buf, offset) == Got(Weighted(acc, s, buf[i]), i + 1)
    ensures buf[i] >= 128 ==> Reading(buf, offset, i + 1, Weighted(acc, s, buf[i] - 128), s + 7)
  {
    hide Pow2, Weighted;
    if buf[i] >= 128 {
      Regroup(acc, buf[i] - 128, s, 0);
      if Decode(buf, i + 1).Got? {
        Regroup(acc, buf[i] - 128, s, Decode(buf, i + 1).value);
      }
    }
  }

  lemma LowSeptet(b: byte)
    ensures b % 128 == if b < 128 then b else b - 128
  {
  }

  lemma OrShiftedIsWeighted(acc: nat, x: nat, s: nat)
    requires acc < Pow2(s)
    ensures OrShifted(acc % TWO_64, x, s) == Weighted(acc, s, x) % TWO_64
  {
    hide OrShifted, Pow2;
    OrShiftedIsSum(acc, x, s);
  }

  lemma ReadingStep(buf: seq<byte>, offset: nat, i: nat, acc: nat, s: nat)
    requires i < |buf| && Reading(buf, offset, i, acc, s)
    ensures OrShifted(acc % TWO_64, buf[i] % 128, s) == Weighted(acc, s, buf[i] % 128) % TWO_64
    ensures buf[i] < 128 ==> Decode(buf, offset) == Got(Weighted(acc, s, buf[i] % 128), i + 1)
    ensures buf[i] >= 128 ==> Reading(buf, offset, i + 1, Weighted(acc, s, buf[i] % 128), s + 7)
  {
    hide OrShifted, Pow2, Decode, Weighted;
    LowSeptet(buf[i]);
    OrShiftedIsWeighted(acc, buf[i] % 128, s);
    ReadingMoves(buf, offset, i, acc, s);
  }

  method ReadVarint(buf: seq<byte>, offset: nat) returns (r: Read)
    ensures r == Decode64(buf, offset)
  {
    var v: nat, shift: nat, i := 0, 0, offset;
    ghost var acc: nat := 0;
    while i < |buf|
      invariant v == acc % TWO_64 && Reading(buf, offset, i, acc, shift)
    {
      var b := buf[i];
      ReadingStep(buf, offset, i, acc, shift);
      v := OrShifted(v, b % 128, shift);
      acc := Weighted(acc, shift, b % 128);
      if b < 128 {
        return Got(v, i + 1);
      }
      i, shift := i + 1, shift + 7;
    }
    return Eof;
  }
}

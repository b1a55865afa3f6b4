/** Bytes, machine-integer conversions and the two bitwise operators the emitted
    codecs use.  Integers are unbounded here, so every wrap-around of the source is
    written out. */
module Bytes {

  type byte = b: int | 0 <= b < 256

  const TWO_31: int := 0x8000_0000
  const TWO_32: int := 0x1_0000_0000
  const TWO_63: int := 0x8000_0000_0000_0000
  const TWO_64: int := 0x1_0000_0000_0000_0000

  type u64 = v: nat | v < TWO_64

  /** Conversion to a 64-bit unsigned integer. */
  function Unsigned64(n: int): (u: nat)
    ensures u < TWO_64
  {
    n % TWO_64
  }

  /** Conversion to a 64-bit two's-complement integer. */
  function Signed64(n: int): (s: int)
    ensures -TWO_63 <= s < TWO_63
  {
    var u := n % TWO_64;
    if u < TWO_63 then u else u - TWO_64
  }

  /** Conversion to a 32-bit two's-complement integer. */
  function Signed32(n: int): (s: int)
    ensures -TWO_31 <= s < TWO_31
  {
    var u := n % TWO_32;
    if u < TWO_31 then u else u - TWO_32
  }

  predicate IsInt32(n: int) { -TWO_31 <= n < TWO_31 }

  predicate IsInt64(n: int) { -TWO_63 <= n < TWO_63 }

  lemma SignedOfUnsigned(n: int)
    ensures IsInt64(n) ==> Signed64(Unsigned64(n)) == n
    ensures IsInt32(n) ==> Signed32(Unsigned64(n)) == n
  {
    if IsInt64(n) {
      assert Unsigned64(n) == if n >= 0 then n else n + TWO_64;
    }
  }

  /** `piece` occurs in `buf` starting at index `i`. */
  predicate At(buf: seq<byte>, i: nat, piece: seq<byte>) {
    i + |piece| <= |buf| && buf[i..i + |piece|] == piece
  }

  lemma AtConcat(buf: seq<byte>, i: nat, a: seq<byte>, b: seq<byte>)
    ensures At(buf, i, a + b) <==> At(buf, i, a) && At(buf, i + |a|, b)
  {
    if i + |a| + |b| <= |buf| {
      assert buf[i..i + |a + b|] == buf[i..i + |a|] + buf[i + |a|..i + |a| + |b|];
      if At(buf, i, a + b) {
        assert buf[i..i + |a|] == (a + b)[..|a|] == a;
        assert buf[i + |a|..i + |a| + |b|] == (a + b)[|a|..] == b;
      }
    }
  }

  lemma AtMiddle(pre: seq<byte>, piece: seq<byte>, post: seq<byte>)
    ensures At(pre + piece + post, |pre|, piece)
  {
  }

  /** `s` with the bytes from index `i` on overwritten by `piece`. */
  function Splice(s: seq<byte>, i: nat, piece: seq<byte>): (r: seq<byte>)
    requires i + |piece| <= |s|
    ensures |r| == |s|
  {
    s[..i] + piece + s[i + |piece|..]
  }

  lemma SpliceNothing(s: seq<byte>, i: nat)
    requires i <= |s|
    ensures Splice(s, i, []) == s
  {
  }

  /** Two adjacent writes are one write of the concatenation. */
  lemma SpliceTwice(s: seq<byte>, i: nat, a: seq<byte>, b: seq<byte>)
    requires i + |a| + |b| <= |s|
    ensures Splice(Splice(s, i, a), i + |a|, b) == Splice(s, i, a + b)
  {
  }

  // Bitwise operators on naturals, least significant bit first.

  function BitOr(a: nat, b: nat): nat
    decreases a + b
  {
    if a == 0 then b
    else if b == 0 then a
    else (if a % 2 == 1 || b % 2 == 1 then 1 else 0) + 2 * BitOr(a / 2, b / 2)
  }

  function BitXor(a: nat, b: nat): nat
    decreases a + b
  {
    if a == 0 then b
    else if b == 0 then a
    else (if a % 2 != b % 2 then 1 else 0) + 2 * BitXor(a / 2, b / 2)
  }

  function Pow2(n: nat): (p: nat)
    ensures p >= 1
  {
    if n == 0 then 1 else 2 * Pow2(n - 1)
  }

  /** Or-ing a value shifted past every bit of `v` adds it. */
  lemma {:induction false} OrDisjoint(v: nat, y: nat, s: nat)
    requires v < Pow2(s)
    ensures BitOr(v, y * Pow2(s)) == v + y * Pow2(s)
  {
    if s == 0 {
      assert v == 0;
    } else {
      var h := y * Pow2(s - 1);
      assert y * Pow2(s) == 2 * h;
      OrDisjoint(v / 2, y, s - 1);
    }
  }

  /** A bit set in `a` above every bit of `b` survives the exclusive or. */
  lemma {:induction false} XorKeepsHigh(a: nat, b: nat, s: nat)
    requires b < Pow2(s) <= a
    ensures BitXor(a, b) >= Pow2(s)
  {
    if s > 0 && b != 0 {
      XorKeepsHigh(a / 2, b / 2, s - 1);
    }
  }

  lemma {:induction false} Pow2Add(m: nat, n: nat)
    ensures Pow2(m + n) == Pow2(m) * Pow2(n)
  {
    if m > 0 {
      Pow2Add(m - 1, n);
      assert Pow2(m) * Pow2(n) == 2 * (Pow2(m - 1) * Pow2(n));
    }
  }

  lemma Pow2Values()
    ensures Pow2(7) == 128
    ensures Pow2(31) == TWO_31 && Pow2(32) == TWO_32 && Pow2(63) == TWO_63 && Pow2(64) == TWO_64
  {
    assert Pow2(8) == 256;
    assert Pow2(7) == 128;
    Pow2Add(8, 8);
    Pow2Add(8, 7);
    hide Pow2;
    Pow2Add(16, 15);
    Pow2Add(16, 16);
    Pow2Add(32, 31);
    Pow2Add(32, 32);
  }
}

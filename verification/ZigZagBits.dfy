/** The bitwise forms in which the transpilers compute a zigzag encoding. */
module ZigZagBits {
  import opened Bytes
  import opened ThriftCompact

  /** `(val << 1) ^ (val >> 63)` on the 64-bit pattern `u`. */
  function Zig64(u: nat): nat {
    BitXor(2 * u % TWO_64, Unsigned64(Signed64(u) / TWO_63))
  }

  /** `(val << 1) ^ (val >> 31)` on a long: the form used for int32 fields. */
  function Zig32(u: nat): nat {
    BitXor(2 * u % TWO_64, Unsigned64(Signed64(u) / TWO_31))
  }

  lemma XorHalves(a: nat, b: nat)
    ensures BitXor(a, b) == (if a % 2 != b % 2 then 1 else 0) + 2 * BitXor(a / 2, b / 2)
  {
  }

  lemma ComplementHalves(a: nat, p: nat)
    requires a < 2 * p
    ensures (2 * p - 1 - a) / 2 == p - 1 - a / 2 && (2 * p - 1 - a) % 2 == 1 - a % 2
  {
  }

  lemma {:induction false} XorComplement(a: nat, b: nat, n: nat)
    requires a < Pow2(n) && b < Pow2(n)
    ensures BitXor(a, b) == BitXor(Pow2(n) - 1 - a, Pow2(n) - 1 - b)
  {
    hide BitXor;
    if n > 0 {
      var p := Pow2(n - 1);
      XorComplement(a / 2, b / 2, n - 1);
      XorHalves(a, b);
      XorHalves(2 * p - 1 - a, 2 * p - 1 - b);
      ComplementHalves(a, p);
      ComplementHalves(b, p);
    }
  }

  /** For a negative long the exclusive or works on the complements. */
  lemma ZigNegative(u: nat, shift: nat)
    requires TWO_63 <= u < TWO_64 && (shift == TWO_31 || shift == TWO_63)
    ensures var m := TWO_64 - u - 1;
            BitXor(2 * u % TWO_64, Unsigned64(Signed64(u) / shift)) == BitXor(2 * m + 1, m / shift)
  {
    hide BitXor, Pow2;
    var m := TWO_64 - u - 1;
    Pow2Values();
    ComplementOfShifts(u, shift);
    XorComplement(2 * u - TWO_64, TWO_64 - m / shift - 1, 64);
  }

  lemma ComplementOfShifts(u: nat, shift: nat)
    requires TWO_63 <= u < TWO_64 && (shift == TWO_31 || shift == TWO_63)
    ensures var m := TWO_64 - u - 1;
            && 2 * u % TWO_64 == 2 * u - TWO_64
            && 0 <= m / shift < TWO_64
            && Unsigned64(Signed64(u) / shift) == TWO_64 - m / shift - 1
  {
    var m := TWO_64 - u - 1;
    assert Signed64(u) == -m - 1;
    assert (-m - 1) / shift == -(m / shift) - 1;
  }

  lemma Zig64IsZigZag(u: nat)
    requires u < TWO_64
    ensures Zig64(u) == ZigZag(Signed64(u))
  {
    hide BitXor;
    if u >= TWO_63 {
      var m := TWO_64 - u - 1;
      ZigNegative(u, TWO_63);
      XorZero(2 * m + 1);
    } else {
      SmallShifts(u, TWO_63);
      XorZero(2 * u);
    }
  }

  lemma SmallShifts(u: nat, shift: nat)
    requires u < TWO_63 && (shift == TWO_31 || shift == TWO_63)
    ensures 2 * u % TWO_64 == 2 * u && Unsigned64(Signed64(u) / shift) == u / shift
  {
  }

  lemma XorZero(a: nat)
    ensures BitXor(a, 0) == a
  {
  }

  /** An exclusive or of 2^32 or more is no int32 zigzag. */
  lemma TooWide(a: nat, b: nat)
    requires b < TWO_32 <= a
    ensures !IsInt32(UnZigZag(BitXor(a, b)))
  {
    hide BitXor, Pow2;
    Pow2Values();
    XorKeepsHigh(a, b, 32);
  }

  lemma SignedOf(u: nat)
    requires u < TWO_64
    ensures Signed64(u) == if u < TWO_63 then u else u - TWO_64
  {
  }

  lemma Zig32Positive(u: nat)
    requires u < TWO_63
    ensures if u < TWO_31 then Zig32(u) == 2 * u else !IsInt32(UnZigZag(Zig32(u)))
  {
    hide BitXor, Signed64, Unsigned64, UnZigZag;
    SmallShifts(u, TWO_31);
    HighPart(u);
    if u >= TWO_31 { TooWide(2 * u, u / TWO_31); } else { XorZero(2 * u); }
  }

  lemma Zig32Negative(u: nat)
    requires TWO_63 <= u < TWO_64
    ensures var m := TWO_64 - u - 1;
            if m < TWO_31 then Zig32(u) == 2 * m + 1 else !IsInt32(UnZigZag(Zig32(u)))
  {
    hide BitXor, Signed64, Unsigned64, UnZigZag;
    var m := TWO_64 - u - 1;
    ZigNegative(u, TWO_31);
    HighPart(m);
    if m >= TWO_31 { TooWide(2 * m + 1, m / TWO_31); } else { XorZero(2 * m + 1); }
  }

  lemma HighPart(u: nat)
    requires u < TWO_63
    ensures 0 <= u / TWO_31 < TWO_32 && (u < TWO_31 ==> u / TWO_31 == 0)
  {
  }

  /** The int32 form is the zigzag of the value if it fits 32 bits, and otherwise
      something no int32 zigzag can be. */
  lemma Zig32IsZigZag(u: nat)
    requires u < TWO_64
    ensures IsInt32(Signed64(u)) ==> Zig32(u) == ZigZag(Signed64(u))
    ensures !IsInt32(Signed64(u)) ==> !IsInt32(UnZigZag(Zig32(u)))
  {
    hide Zig32, Signed64, UnZigZag;
    SignedOf(u);
    if u < TWO_63 { Zig32Positive(u); } else { Zig32Negative(u); }
  }
}

/** Decimal numerals as strconv prints and reads them. */
module Decimal {

  function DigitChar(d: nat): (c: char)
    requires d < 10
    ensures '0' <= c <= '9'
  {
    '0' + d as char
  }

  function DigitValue(c: char): (d: nat)
    requires '0' <= c <= '9'
    ensures d < 10
  {
    c as nat - '0' as nat
  }

  predicate IsDigit(c: char) { '0' <= c <= '9' }

  function Digits(n: nat): (s: string)
    ensures |s| >= 1 && AllDigits(s)
  {
    if n < 10 then [DigitChar(n)] else Digits(n / 10) + [DigitChar(n % 10)]
  }

  /** strconv.Itoa. */
  function Itoa(n: int): (s: string)
    ensures |s| >= 1
  {
    if n < 0 then "-" + Digits(-n) else Digits(n)
  }

  predicate AllDigits(s: string) { forall i :: 0 <= i < |s| ==> IsDigit(s[i]) }

  function ParseDigits(s: string): nat {
    if s == [] then 0
    else ParseDigits(s[..|s| - 1]) * 10 + (if IsDigit(s[|s| - 1]) then DigitValue(s[|s| - 1]) else 0)
  }

  const MAX_INT64: int := 0x7fff_ffff_ffff_ffff

  /** strconv.Atoi on the tokens the lexer makes, its error ignored: digits behind an
      optional minus sign, saturating at the bounds of int64, and 0 for a lone minus. */
  function Atoi(s: string): int {
    if |s| > 1 && s[0] == '-' && AllDigits(s[1..]) then
      var n := ParseDigits(s[1..]);
      if n > MAX_INT64 + 1 then -MAX_INT64 - 1 else 0 - n
    else if s != [] && AllDigits(s) then
      var n := ParseDigits(s);
      if n > MAX_INT64 then MAX_INT64 else n
    else 0
  }

  lemma {:induction false} ParsePrinted(n: nat)
    ensures ParseDigits(Digits(n)) == n
  {
    if n >= 10 {
      ParsePrinted(n / 10);
      var s := Digits(n);
      assert s[..|s| - 1] == Digits(n / 10);
    }
  }

  /** A numeral out of the range of int64 reads as the nearest bound. */
  lemma AtoiSaturates(n: int)
    ensures n > MAX_INT64 ==> Atoi(Itoa(n)) == 0x7fff_ffff_ffff_ffff
    ensures n < -MAX_INT64 - 1 ==> Atoi(Itoa(n)) == -0x8000_0000_0000_0000
  {
    hide ParseDigits, Digits;
    if n < 0 {
      ParsePrinted(-n);
      assert Itoa(n)[1..] == Digits(-n);
    } else {
      ParsePrinted(n);
      assert IsDigit(Digits(n)[0]);
    }
  }

  lemma AtoiInverse(n: int)
    requires -MAX_INT64 - 1 <= n <= MAX_INT64
    ensures Atoi(Itoa(n)) == n
  {
    if n < 0 {
      ParsePrinted(-n);
      assert Itoa(n)[1..] == Digits(-n);
    } else {
      ParsePrinted(n);
      assert IsDigit(Digits(n)[0]);
    }
  }
}

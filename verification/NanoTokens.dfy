/** Token counts in nano-tokens, as both token buckets keep them. */
module NanoTokens {

  const NANO: int := 1_000_000_000

  function Min(a: int, b: int): int { if a <= b then a else b }

  /** A capacity in whole tokens, and what of it no call can spend. */
  function Burst(capacity: nat): nat { capacity / NANO * NANO }

  function Residue(capacity: nat): nat { capacity % NANO }

  lemma CapacityParts(capacity: nat)
    ensures capacity == Burst(capacity) + Residue(capacity) && Residue(capacity) < NANO
  {
  }

  /** From the residue on a refill of at least the burst adds exactly the burst. */
  lemma FromResidue(refill: nat, capacity: nat)
    ensures refill >= Burst(capacity) ==> Min(Residue(capacity) + refill, capacity) == capacity
    ensures capacity % NANO == Residue(capacity) && capacity - Residue(capacity) == Burst(capacity)
  {
  }

  /** With a refill below the burst, two refills in a row add more than one. */
  lemma TwoFills(tokens: nat, refill: nat, capacity: nat)
    requires tokens < NANO <= capacity && 1 <= refill < Burst(capacity)
    ensures var first := Min(tokens + refill, capacity);
            var second := Min(first % NANO + refill, capacity);
            (first - tokens) + (second - first % NANO) >= refill + 1
  {
    CapacityParts(capacity);
  }

  /** `sum` refills of `d` are covered by the time in which `n` threads made them. */
  lemma Outweighs(d: nat, sum: nat, n: nat, claims: nat, time: int, refill: nat)
    requires sum <= n * claims && n * d <= refill && claims <= time
    ensures d * sum <= time * refill
  {
    assert d * sum <= d * (n * claims);
    assert d * (n * claims) == (n * d) * claims <= refill * claims;
    assert refill * claims <= refill * time;
  }
}

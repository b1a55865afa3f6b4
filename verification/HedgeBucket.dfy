/** TokenBucket, which limits hedged requests: its atomic steps under every interleaving.
    Unlike the per-client bucket it claims the time it refills for only after the refill, so
    two threads can refill for the same time.  The clock is an argument and int64 overflow is
    not modelled. */
module HedgeBucket {
  import opened NanoTokens

  /** capacity in nano-tokens; refill in nano-tokens per nanosecond. */
  datatype Config = Config(capacity: nat, refill: nat)

  /** Where a thread stands inside Consume: about to load the tokens for a refill from `last`
      to `now`, to swap them, to store the new refill time, about to consume, to swap for the
      consumption, or done. */
  datatype Pc = Idle
              | Refilling(last: int, now: int)
              | RefillSwap(last: int, now: int, seen: int)
              | Stamping(last: int, now: int)
              | Consuming
              | ConsumeSwap(seen: int)

  /** `admitted` counts successful calls, and `twice` the nano-tokens of refills whose time had
      been claimed by another thread when they tried to claim it. */
  datatype Shared = Shared(tokens: int, lastRefill: int, pcs: seq<Pc>, admitted: nat, twice: int)

  datatype Move = Enter(now: int) | LoadTokens | SwapTokens | Stamp | LoadConsume | SwapConsume

  function Amount(last: int, now: int, cfg: Config): int { (now - last) * cfg.refill }

  /** The atomic step `move` of thread `t`. */
  function Step(s: Shared, t: nat, move: Move, cfg: Config): Shared
    requires t < |s.pcs|
  {
    match (move, s.pcs[t])
    case (Enter(now), Idle) =>
      var last := s.lastRefill;
      s.(pcs := s.pcs[t := if now > last && Amount(last, now, cfg) > 0 then Refilling(last, now) else Consuming])
    case (LoadTokens, Refilling(last, now)) => s.(pcs := s.pcs[t := RefillSwap(last, now, s.tokens)])
    case (SwapTokens, RefillSwap(last, now, seen)) =>
      if s.tokens == seen then
        s.(tokens := Min(seen + Amount(last, now, cfg), cfg.capacity), pcs := s.pcs[t := Stamping(last, now)])
      else s.(pcs := s.pcs[t := Refilling(last, now)])
    case (Stamp, Stamping(last, now)) =>
      var s' := s.(pcs := s.pcs[t := Consuming]);
      if s.lastRefill == last then s'.(lastRefill := now) else s'.(twice := s.twice + Amount(last, now, cfg))
    case (LoadConsume, Consuming) =>
      s.(pcs := s.pcs[t := if s.tokens < NANO then Idle else ConsumeSwap(s.tokens)])
    case (SwapConsume, ConsumeSwap(seen)) =>
      if s.tokens == seen then s.(tokens := seen - NANO, pcs := s.pcs[t := Idle], admitted := s.admitted + 1)
      else s.(pcs := s.pcs[t := Consuming])
    case _ => s
  }

  datatype Act = Act(thread: nat, move: Move)

  function Run(s: Shared, acts: seq<Act>, cfg: Config): (r: Shared)
    ensures |r.pcs| == |s.pcs|
  {
    if acts == [] then s
    else
      var r, a := Run(s, acts[..|acts| - 1], cfg), acts[|acts| - 1];
      if a.thread < |r.pcs| then Step(r, a.thread, a.move, cfg) else r
  }

  /** A new bucket and `n` threads. */
  function Threads(cfg: Config, start: int, n: nat): Shared {
    Shared(cfg.capacity, start, seq(n, _ => Idle), 0, 0)
  }

  // ------------------------------------------------------------------- accounting

  predicate PcSound(pc: Pc, cfg: Config) {
    match pc
    case Refilling(last, now) => Amount(last, now, cfg) > 0
    case RefillSwap(last, now, _) => Amount(last, now, cfg) > 0
    case Stamping(last, now) => Amount(last, now, cfg) > 0
    case ConsumeSwap(seen) => seen >= NANO
    case _ => true
  }

  /** Refilled but not yet claimed. */
  function Unclaimed(pc: Pc, cfg: Config): int {
    if pc.Stamping? then Amount(pc.last, pc.now, cfg) else 0
  }

  function AllUnclaimed(pcs: seq<Pc>, cfg: Config): int {
    if pcs == [] then 0 else Unclaimed(pcs[0], cfg) + AllUnclaimed(pcs[1..], cfg)
  }

  lemma {:induction false} UnclaimedUpdate(pcs: seq<Pc>, t: nat, pc: Pc, cfg: Config)
    requires t < |pcs|
    ensures AllUnclaimed(pcs[t := pc], cfg) == AllUnclaimed(pcs, cfg) - Unclaimed(pcs[t], cfg) + Unclaimed(pc, cfg)
  {
    if t == 0 {
      assert pcs[0 := pc][1..] == pcs[1..];
    } else {
      UnclaimedUpdate(pcs[1..], t - 1, pc, cfg);
      assert pcs[t := pc][1..] == pcs[1..][t - 1 := pc];
    }
  }

  /** What is in the bucket and what was spent is covered by the capacity, the refill for the
      time claimed, the refills not claimed yet, and those made twice. */
  predicate Inv(s: Shared, start: int, cfg: Config) {
    && 0 <= s.tokens <= cfg.capacity && s.twice >= 0
    && (forall i :: 0 <= i < |s.pcs| ==> PcSound(s.pcs[i], cfg))
    && s.tokens + NANO * s.admitted
       <= cfg.capacity + Amount(start, s.lastRefill, cfg) + AllUnclaimed(s.pcs, cfg) + s.twice
  }

  lemma AmountAdds(a: int, b: int, c: int, cfg: Config)
    ensures Amount(a, c, cfg) == Amount(a, b, cfg) + Amount(b, c, cfg)
  {
  }

  lemma StepKeeps(s: Shared, t: nat, move: Move, start: int, cfg: Config)
    requires t < |s.pcs| && Inv(s, start, cfg)
    ensures Inv(Step(s, t, move, cfg), start, cfg)
  {
    hide Amount, AllUnclaimed;
    var s' := Step(s, t, move, cfg);
    UnclaimedUpdate(s.pcs, t, s'.pcs[t], cfg);
    assert s.pcs[t := s.pcs[t]] == s.pcs;
    assert PcSound(s.pcs[t], cfg);
    AmountAdds(start, s.lastRefill, s'.lastRefill, cfg);
    NoTime(s.lastRefill, cfg);
  }

  lemma NoTime(a: int, cfg: Config)
    ensures Amount(a, a, cfg) == 0
  {
  }

  lemma {:induction false} NothingUnclaimed(n: nat, cfg: Config)
    ensures AllUnclaimed(seq(n, _ => Idle), cfg) == 0
  {
    if n > 0 {
      NothingUnclaimed(n - 1, cfg);
      assert seq(n, _ => Idle)[1..] == seq(n - 1, _ => Idle);
    }
  }

  /** Under every interleaving of any number of threads the tokens stay in range, and what is
      admitted exceeds the burst and the refill for the time claimed by no more than the
      refills that are not claimed yet or were made twice. */
  lemma {:induction false} EveryInterleaving(cfg: Config, start: int, n: nat, acts: seq<Act>)
    ensures Inv(Run(Threads(cfg, start, n), acts, cfg), start, cfg)
  {
    hide Inv, Step;
    if acts == [] {
      StartsSound(cfg, start, n);
    } else {
      EveryInterleaving(cfg, start, n, acts[..|acts| - 1]);
      var r, a := Run(Threads(cfg, start, n), acts[..|acts| - 1], cfg), acts[|acts| - 1];
      if a.thread < |r.pcs| { StepKeeps(r, a.thread, a.move, start, cfg); }
    }
  }

  lemma StartsSound(cfg: Config, start: int, n: nat)
    ensures Inv(Threads(cfg, start, n), start, cfg)
  {
    NothingUnclaimed(n, cfg);
    NoTime(start, cfg);
  }

  // ----------------------------------------------------------------- one at a time

  /** A single thread finds the refill time as it left it. */
  predicate Undisturbed(s: Shared) {
    && |s.pcs| == 1 && s.twice == 0
    && match s.pcs[0]
       case Refilling(last, _) => s.lastRefill == last
       case RefillSwap(last, _, _) => s.lastRefill == last
       case Stamping(last, _) => s.lastRefill == last
       case _ => true
  }

  lemma {:induction false} AloneNothingTwice(cfg: Config, start: int, acts: seq<Act>)
    ensures Undisturbed(Run(Threads(cfg, start, 1), acts, cfg))
  {
    if acts != [] {
      AloneNothingTwice(cfg, start, acts[..|acts| - 1]);
    }
  }

  /** Calls that do not overlap keep to the burst and the refill for the time claimed. */
  lemma SequentialBound(cfg: Config, start: int, acts: seq<Act>)
    ensures var r := Run(Threads(cfg, start, 1), acts, cfg);
            !r.pcs[0].Stamping? ==> NANO * r.admitted <= cfg.capacity + Amount(start, r.lastRefill, cfg)
  {
    hide Run, Amount;
    EveryInterleaving(cfg, start, 1, acts);
    AloneNothingTwice(cfg, start, acts);
    var r := Run(Threads(cfg, start, 1), acts, cfg);
    assert AllUnclaimed(r.pcs[1..], cfg) == 0;
    assert r.twice == 0 && r.tokens >= 0;
    assert !r.pcs[0].Stamping? ==> AllUnclaimed(r.pcs, cfg) == 0;
  }

  /** The steps of a call made without another thread in between. */
  function CallAlone(s: Shared, t: nat, now: int, cfg: Config): Shared
    requires t < |s.pcs|
  {
    var s1 := Step(s, t, Enter(now), cfg);
    var s2 := Step(s1, t, LoadTokens, cfg);
    var s3 := Step(s2, t, SwapTokens, cfg);
    var s4 := Step(s3, t, Stamp, cfg);
    var s5 := Step(s4, t, LoadConsume, cfg);
    Step(s5, t, SwapConsume, cfg)
  }

  /** They refill for the time since the last refill, up to the capacity, and admit exactly if
      there is a whole token then, taking one; a refill of nothing claims no time. */
  lemma AloneIsSequential(s: Shared, t: nat, now: int, cfg: Config)
    requires t < |s.pcs| && s.pcs[t].Idle? && s.tokens <= cfg.capacity
    ensures var r := CallAlone(s, t, now, cfg);
            var gain := if now > s.lastRefill then (now - s.lastRefill) * cfg.refill else 0;
            var level := if s.tokens + gain < cfg.capacity then s.tokens + gain else cfg.capacity;
            && r.tokens == (if level >= NANO then level - NANO else level)
            && r.admitted == s.admitted + (if level >= NANO then 1 else 0)
            && r.lastRefill == (if gain > 0 then now else s.lastRefill)
            && r.pcs == s.pcs && r.twice == s.twice
  {
    assert s.pcs[t := Idle] == s.pcs;
    var gain := if now > s.lastRefill then (now - s.lastRefill) * cfg.refill else 0;
    assert gain >= 0;
  }
}

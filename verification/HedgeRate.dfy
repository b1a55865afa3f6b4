/** When the hedging bucket keeps to its rate: exactly for one thread at a time, without a
    refill, or if one nanosecond refills as much as all threads together can spend. */
module HedgeRate {
  import opened HedgeBucket
  import opened NanoTokens

  predicate Quiet(s: Shared) { forall i :: 0 <= i < |s.pcs| ==> s.pcs[i].Idle? }

  predicate WithinRate(s: Shared, start: int, cfg: Config) {
    NANO * s.admitted <= cfg.capacity + Amount(start, s.lastRefill, cfg)
  }

  /** Every run of `n` threads after which all calls have returned keeps to the rate. */
  ghost predicate KeepsRate(cfg: Config, n: nat) {
    forall start, acts | Quiet(Run(Threads(cfg, start, n), acts, cfg)) ::
      WithinRate(Run(Threads(cfg, start, n), acts, cfg), start, cfg)
  }

  // ---------------------------------------------------------------- no refill

  predicate Unfilled(s: Shared, cfg: Config) {
    && 0 <= s.tokens && s.tokens + NANO * s.admitted <= cfg.capacity
    && forall i :: 0 <= i < |s.pcs| ==>
         s.pcs[i].Idle? || s.pcs[i].Consuming? || (s.pcs[i].ConsumeSwap? && s.pcs[i].seen >= NANO)
  }

  lemma {:induction false} NeverFilled(cfg: Config, start: int, n: nat, acts: seq<Act>)
    requires cfg.refill == 0
    ensures Unfilled(Run(Threads(cfg, start, n), acts, cfg), cfg)
  {
    if acts != [] {
      NeverFilled(cfg, start, n, acts[..|acts| - 1]);
    }
  }

  // ------------------------------------------------------------ a large refill

  /** A run with the number of refills each thread has made and of refill times claimed. */
  datatype Traced = Traced(s: Shared, fills: seq<nat>, claims: nat)

  predicate Fills(s: Shared, t: nat, move: Move)
    requires t < |s.pcs|
  {
    move.SwapTokens? && s.pcs[t].RefillSwap? && s.tokens == s.pcs[t].seen
  }

  predicate Claims(s: Shared, t: nat, move: Move)
    requires t < |s.pcs|
  {
    move.Stamp? && s.pcs[t].Stamping? && s.lastRefill == s.pcs[t].last
  }

  function TracedStep(r: Traced, t: nat, move: Move, cfg: Config): Traced
    requires t < |r.s.pcs| == |r.fills|
  {
    Traced(Step(r.s, t, move, cfg),
           if Fills(r.s, t, move) then r.fills[t := r.fills[t] + 1] else r.fills,
           if Claims(r.s, t, move) then r.claims + 1 else r.claims)
  }

  function TracedRun(cfg: Config, start: int, n: nat, acts: seq<Act>): (r: Traced)
    ensures |r.s.pcs| == |r.fills| == n && r.s == Run(Threads(cfg, start, n), acts, cfg)
  {
    if acts == [] then Traced(Threads(cfg, start, n), seq(n, _ => 0), 0)
    else
      var r, a := TracedRun(cfg, start, n, acts[..|acts| - 1]), acts[|acts| - 1];
      if a.thread < n then TracedStep(r, a.thread, a.move, cfg) else r
  }

  predicate FilledOnce(last: int, fills: int, claims: nat, lastRefill: int) {
    last <= lastRefill && fills <= if last == lastRefill then claims else claims - 1
  }

  /** A thread has refilled at most once for each refill time that has been claimed, and once
      more while it is about to claim the present one. */
  predicate ThreadOk(pc: Pc, fills: nat, claims: nat, lastRefill: int) {
    match pc
    case Refilling(last, now) => last < now && FilledOnce(last, fills, claims, lastRefill)
    case RefillSwap(last, now, _) => last < now && FilledOnce(last, fills, claims, lastRefill)
    case Stamping(last, now) => last < now && FilledOnce(last, fills - 1, claims, lastRefill)
    case ConsumeSwap(seen) => seen >= NANO && fills <= claims
    case _ => fills <= claims
  }

  function Sum(fills: seq<nat>): nat {
    if fills == [] then 0 else fills[0] + Sum(fills[1..])
  }

  lemma {:induction false} SumUpdate(fills: seq<nat>, t: nat)
    requires t < |fills|
    ensures Sum(fills[t := fills[t] + 1]) == Sum(fills) + 1
  {
    var f := fills[t := fills[t] + 1];
    if t == 0 {
      assert f[1..] == fills[1..];
    } else {
      SumUpdate(fills[1..], t - 1);
      assert f[1..] == fills[1..][t - 1 := fills[1..][t - 1] + 1];
    }
  }

  lemma {:induction false} SumBound(fills: seq<nat>, k: nat)
    requires forall i :: 0 <= i < |fills| ==> fills[i] <= k
    ensures Sum(fills) <= |fills| * k
  {
    if fills != [] {
      SumBound(fills[1..], k);
      assert |fills| * k == k + (|fills| - 1) * k;
    }
  }

  lemma {:induction false} SumZero(n: nat)
    ensures Sum(seq(n, _ => 0)) == 0
  {
    if n > 0 {
      SumZero(n - 1);
      assert seq(n, _ => 0)[1..] == seq(n - 1, _ => 0);
    }
  }

  /** The bucket holds the residue and whole tokens, and each refill has added at most the
      burst. */
  predicate TokensOk(s: Shared, fills: nat, cfg: Config) {
    && Residue(cfg.capacity) <= s.tokens <= cfg.capacity && s.tokens % NANO == Residue(cfg.capacity)
    && s.tokens + NANO * s.admitted <= cfg.capacity + Burst(cfg.capacity) * fills
  }

  predicate TraceOk(r: Traced, start: int, cfg: Config) {
    && |r.s.pcs| == |r.fills| && r.s.lastRefill >= start + r.claims
    && (forall i :: 0 <= i < |r.fills| ==> ThreadOk(r.s.pcs[i], r.fills[i], r.claims, r.s.lastRefill))
    && TokensOk(r.s, Sum(r.fills), cfg)
  }

  lemma AtLeast(last: int, now: int, cfg: Config)
    requires last < now
    ensures Amount(last, now, cfg) >= cfg.refill
  {
    var d, refill := now - last - 1, cfg.refill;
    assert (d + 1) * refill == d * refill + refill && d * refill >= 0;
  }

  lemma AmountSign(last: int, now: int, cfg: Config)
    ensures Amount(last, now, cfg) > 0 ==> last < now
  {
  }

  lemma StepThreads(r: Traced, t: nat, move: Move, start: int, cfg: Config)
    requires t < |r.s.pcs| == |r.fills| && TraceOk(r, start, cfg)
    ensures var r' := TracedStep(r, t, move, cfg);
            && r'.s.lastRefill >= start + r'.claims
            && forall i :: 0 <= i < |r.fills| ==> ThreadOk(r'.s.pcs[i], r'.fills[i], r'.claims, r'.s.lastRefill)
  {
    hide Amount, TokensOk, Sum;
    assert ThreadOk(r.s.pcs[t], r.fills[t], r.claims, r.s.lastRefill);
    if move.Enter? {
      AmountSign(r.s.lastRefill, move.now, cfg);
    }
  }

  lemma FillTokens(s: Shared, fills: nat, amount: int, cfg: Config)
    requires TokensOk(s, fills, cfg) && amount >= Burst(cfg.capacity)
    ensures TokensOk(s.(tokens := Min(s.tokens + amount, cfg.capacity)), fills + 1, cfg)
  {
    CapacityParts(cfg.capacity);
    assert Burst(cfg.capacity) * (fills + 1) == Burst(cfg.capacity) * fills + Burst(cfg.capacity);
  }

  lemma SpendTokens(s: Shared, fills: nat, cfg: Config)
    requires TokensOk(s, fills, cfg) && s.tokens >= NANO
    ensures TokensOk(s.(tokens := s.tokens - NANO, admitted := s.admitted + 1), fills, cfg)
  {
    CapacityParts(cfg.capacity);
  }

  lemma StepTokens(r: Traced, t: nat, move: Move, start: int, cfg: Config)
    requires t < |r.s.pcs| == |r.fills| && TraceOk(r, start, cfg) && cfg.refill >= Burst(cfg.capacity)
    ensures var r' := TracedStep(r, t, move, cfg); TokensOk(r'.s, Sum(r'.fills), cfg)
  {
    hide Amount, Sum, Residue, Burst;
    assert ThreadOk(r.s.pcs[t], r.fills[t], r.claims, r.s.lastRefill);
    if Fills(r.s, t, move) {
      var pc := r.s.pcs[t];
      AtLeast(pc.last, pc.now, cfg);
      FillTokens(r.s, Sum(r.fills), Amount(pc.last, pc.now, cfg), cfg);
      SumUpdate(r.fills, t);
    } else if move.SwapConsume? && r.s.pcs[t].ConsumeSwap? && r.s.tokens == r.s.pcs[t].seen {
      SpendTokens(r.s, Sum(r.fills), cfg);
    }
  }

  lemma {:induction false} TraceKeeps(cfg: Config, start: int, n: nat, acts: seq<Act>)
    requires cfg.refill >= Burst(cfg.capacity)
    ensures TraceOk(TracedRun(cfg, start, n, acts), start, cfg)
  {
    hide TracedStep, ThreadOk, TokensOk;
    if acts == [] {
      TraceStarts(cfg, start, n);
    } else {
      var front, a := acts[..|acts| - 1], acts[|acts| - 1];
      TraceKeeps(cfg, start, n, front);
      var r := TracedRun(cfg, start, n, front);
      if a.thread < n {
        StepThreads(r, a.thread, a.move, start, cfg);
        StepTokens(r, a.thread, a.move, start, cfg);
        StepSizes(r, a.thread, a.move, cfg);
      }
    }
  }

  lemma StepSizes(r: Traced, t: nat, move: Move, cfg: Config)
    requires t < |r.s.pcs| == |r.fills|
    ensures |TracedStep(r, t, move, cfg).s.pcs| == |TracedStep(r, t, move, cfg).fills| == |r.fills|
  {
  }

  lemma TraceStarts(cfg: Config, start: int, n: nat)
    ensures TraceOk(TracedRun(cfg, start, n, []), start, cfg)
  {
    SumZero(n);
    CapacityParts(cfg.capacity);
  }

  /** If one nanosecond refills the burst of every thread, no interleaving exceeds the rate. */
  lemma LargeRefillKeeps(cfg: Config, start: int, n: nat, acts: seq<Act>)
    requires n >= 1 && n * Burst(cfg.capacity) <= cfg.refill && Quiet(Run(Threads(cfg, start, n), acts, cfg))
    ensures WithinRate(Run(Threads(cfg, start, n), acts, cfg), start, cfg)
  {
    hide Run, TracedRun, Burst, Sum, Residue;
    var d, r := Burst(cfg.capacity), TracedRun(cfg, start, n, acts);
    assert n * d == d + (n - 1) * d;
    TraceKeeps(cfg, start, n, acts);
    assert forall i :: 0 <= i < n ==> ThreadOk(r.s.pcs[i], r.fills[i], r.claims, r.s.lastRefill);
    SumBound(r.fills, r.claims);
    Outweighs(d, Sum(r.fills), n, r.claims, r.s.lastRefill - start, cfg.refill);
  }

  // -------------------------------------------------------- a run that exceeds it

  /** A run of `n` threads and the state it reaches. */
  datatype Path = Path(acts: seq<Act>, s: Shared)

  predicate IsPath(p: Path, cfg: Config, start: int, n: nat) {
    Run(Threads(cfg, start, n), p.acts, cfg) == p.s && |p.s.pcs| == n
  }

  function Move1(p: Path, t: nat, move: Move, cfg: Config): Path
    requires t < |p.s.pcs|
  {
    Path(p.acts + [Act(t, move)], Step(p.s, t, move, cfg))
  }

  lemma MovesOn(p: Path, t: nat, move: Move, cfg: Config, start: int, n: nat)
    requires IsPath(p, cfg, start, n) && t < n
    ensures IsPath(Move1(p, t, move, cfg), cfg, start, n)
  {
    assert (p.acts + [Act(t, move)])[..|p.acts|] == p.acts;
  }

  /** Tokens in the bucket and tokens spent. */
  function Worth(s: Shared): int { s.tokens + NANO * s.admitted }

  /** A thread about to consume takes a token if there is one. */
  lemma Spend(p: Path, t: nat, cfg: Config, start: int, n: nat) returns (q: Path)
    requires IsPath(p, cfg, start, n) && t < n && p.s.pcs[t] == Consuming
    ensures IsPath(q, cfg, start, n)
    ensures q.s == (if p.s.tokens >= NANO
                    then p.s.(tokens := p.s.tokens - NANO, admitted := p.s.admitted + 1, pcs := p.s.pcs[t := Idle])
                    else p.s.(pcs := p.s.pcs[t := Idle]))
  {
    hide IsPath;
    Sizes(p, cfg, start, n);
    MovesOn(p, t, LoadConsume, cfg, start, n);
    q := Move1(p, t, LoadConsume, cfg);
    if p.s.tokens >= NANO {
      MovesOn(q, t, SwapConsume, cfg, start, n);
      assert p.s.pcs[t := ConsumeSwap(p.s.tokens)][t := Idle] == p.s.pcs[t := Idle];
      q := Move1(q, t, SwapConsume, cfg);
    }
  }

  lemma Sizes(p: Path, cfg: Config, start: int, n: nat)
    requires IsPath(p, cfg, start, n)
    ensures |p.s.pcs| == n
  {
  }

  /** An idle thread takes all whole tokens, in calls that find nothing to refill for. */
  lemma {:induction false} Drain(p: Path, t: nat, cfg: Config, start: int, n: nat) returns (q: Path)
    requires IsPath(p, cfg, start, n) && t < n && p.s.pcs[t] == Idle && p.s.tokens >= 0
    ensures IsPath(q, cfg, start, n)
    ensures q.s.pcs == p.s.pcs && q.s.lastRefill == p.s.lastRefill && Worth(q.s) == Worth(p.s)
    ensures q.s.tokens == p.s.tokens % NANO
    decreases p.s.tokens
  {
    hide IsPath;
    if p.s.tokens < NANO {
      q := p;
    } else {
      Sizes(p, cfg, start, n);
      MovesOn(p, t, Enter(p.s.lastRefill), cfg, start, n);
      q := Move1(p, t, Enter(p.s.lastRefill), cfg);
      q := Spend(q, t, cfg, start, n);
      assert q.s.pcs == p.s.pcs;
      q := Drain(q, t, cfg, start, n);
    }
  }

  /** A thread that has entered refills, tries to claim the time, and takes all whole tokens. */
  lemma Finish(p: Path, t: nat, last: int, now: int, cfg: Config, start: int, n: nat) returns (q: Path)
    requires IsPath(p, cfg, start, n) && t < n && p.s.pcs[t] == Refilling(last, now)
    requires 0 <= p.s.tokens <= cfg.capacity && Amount(last, now, cfg) > 0
    ensures IsPath(q, cfg, start, n) && q.s.pcs == p.s.pcs[t := Idle]
    ensures q.s.lastRefill == if p.s.lastRefill == last then now else p.s.lastRefill
    ensures var filled := Min(p.s.tokens + Amount(last, now, cfg), cfg.capacity);
            q.s.tokens == filled % NANO && Worth(q.s) == Worth(p.s) + (filled - p.s.tokens)
  {
    hide IsPath, Amount;
    Sizes(p, cfg, start, n);
    MovesOn(p, t, LoadTokens, cfg, start, n);
    q := Move1(p, t, LoadTokens, cfg);
    MovesOn(q, t, SwapTokens, cfg, start, n);
    q := Move1(q, t, SwapTokens, cfg);
    MovesOn(q, t, Stamp, cfg, start, n);
    q := Move1(q, t, Stamp, cfg);
    assert q.s.pcs == p.s.pcs[t := Consuming];
    q := Spend(q, t, cfg, start, n);
    assert q.s.pcs == p.s.pcs[t := Idle];
    q := Drain(q, t, cfg, start, n);
  }

  /** The threads from `k` on are at the start of a refill for the nanosecond after `last`, and
      the others are idle. */
  predicate Entered(s: Shared, k: nat, last: int) {
    forall i :: 0 <= i < |s.pcs| ==> s.pcs[i] == if i < k then Idle else Refilling(last, last + 1)
  }

  lemma OneNano(last: int, cfg: Config)
    ensures Amount(last, last + 1, cfg) == cfg.refill
  {
  }

  lemma {:induction false} EnterAll(p: Path, k: nat, cfg: Config, start: int, n: nat) returns (q: Path)
    requires IsPath(p, cfg, start, n) && k <= n && cfg.refill >= 1 && Entered(p.s, k, p.s.lastRefill)
    ensures IsPath(q, cfg, start, n) && Entered(q.s, 0, p.s.lastRefill)
    ensures q.s == p.s.(pcs := q.s.pcs)
    decreases k
  {
    hide IsPath, Amount;
    q := p;
    if k > 0 {
      Sizes(p, cfg, start, n);
      OneNano(p.s.lastRefill, cfg);
      MovesOn(p, k - 1, Enter(p.s.lastRefill + 1), cfg, start, n);
      q := Move1(p, k - 1, Enter(p.s.lastRefill + 1), cfg);
      q := EnterAll(q, k - 1, cfg, start, n);
    }
  }

  /** One of them finishes. */
  lemma FinishOne(p: Path, k: nat, last: int, cfg: Config, start: int, n: nat) returns (q: Path)
    requires IsPath(p, cfg, start, n) && k < n && cfg.refill >= 1
    requires Entered(p.s, k, last) && last <= p.s.lastRefill <= last + 1
    requires 0 <= p.s.tokens < NANO <= cfg.capacity
    ensures IsPath(q, cfg, start, n) && Entered(q.s, k + 1, last) && q.s.lastRefill == last + 1
    ensures var filled := Min(p.s.tokens + cfg.refill, cfg.capacity);
            && q.s.tokens == filled % NANO && Worth(q.s) == Worth(p.s) + (filled - p.s.tokens)
            && 0 <= q.s.tokens < NANO
  {
    hide IsPath, Amount, Worth;
    Sizes(p, cfg, start, n);
    OneNano(last, cfg);
    q := Finish(p, k, last, last + 1, cfg, start, n);
  }

  /** The rest of them: no refill takes anything away, and from the residue on a refill of at
      least the burst adds exactly the burst. */
  lemma {:induction false} FinishRest(p: Path, k: nat, last: int, cfg: Config, start: int, n: nat) returns (q: Path)
    requires IsPath(p, cfg, start, n) && k <= n && cfg.refill >= 1 && Entered(p.s, k, last)
    requires last <= p.s.lastRefill <= last + 1 && (k == n ==> p.s.lastRefill == last + 1)
    requires 0 <= p.s.tokens < NANO <= cfg.capacity
    ensures IsPath(q, cfg, start, n) && Entered(q.s, n, last) && q.s.lastRefill == last + 1 && 0 <= q.s.tokens < NANO
    ensures Worth(q.s) >= Worth(p.s)
    ensures cfg.refill >= Burst(cfg.capacity) && p.s.tokens == Residue(cfg.capacity) ==>
              q.s.tokens == Residue(cfg.capacity) && Worth(q.s) == Worth(p.s) + (n - k) * Burst(cfg.capacity)
    decreases n - k
  {
    hide IsPath, Worth, Burst, Residue;
    q := p;
    if k < n {
      q := FinishOne(p, k, last, cfg, start, n);
      FromResidue(cfg.refill, cfg.capacity);
      var d := Burst(cfg.capacity);
      assert (n - k) * d == d + (n - (k + 1)) * d;
      q := FinishRest(q, k + 1, last, cfg, start, n);
    }
  }

  /** All calls have returned and no whole token is left; if refills reach the capacity, what
      is left is its residue. */
  predicate Spent(s: Shared, cfg: Config) {
    Quiet(s) && 0 <= s.tokens < NANO && (cfg.refill >= Burst(cfg.capacity) ==> s.tokens == Residue(cfg.capacity))
  }

  predicate Excessive(cfg: Config, n: nat) {
    n >= 2 && cfg.refill >= 1 && n * Burst(cfg.capacity) > cfg.refill
  }

  /** All threads enter for the next nanosecond and finish one after the other. */
  lemma Round(p: Path, cfg: Config, start: int, n: nat) returns (q: Path)
    requires IsPath(p, cfg, start, n) && Excessive(cfg, n) && cfg.capacity >= NANO && Spent(p.s, cfg)
    ensures IsPath(q, cfg, start, n) && Spent(q.s, cfg) && q.s.lastRefill == p.s.lastRefill + 1
    ensures Worth(q.s) >= Worth(p.s) + cfg.refill + 1
  {
    hide IsPath, Burst, Residue;
    Sizes(p, cfg, start, n);
    var last := p.s.lastRefill;
    q := EnterAll(p, n, cfg, start, n);
    if cfg.refill >= Burst(cfg.capacity) {
      q := FinishRest(q, 0, last, cfg, start, n);
    } else {
      TwoFills(p.s.tokens, cfg.refill, cfg.capacity);
      q := FinishOne(q, 0, last, cfg, start, n);
      q := FinishOne(q, 1, last, cfg, start, n);
      q := FinishRest(q, 2, last, cfg, start, n);
    }
    Sizes(q, cfg, start, n);
  }

  lemma SomeBurst(cfg: Config, n: nat)
    requires Excessive(cfg, n)
    ensures cfg.capacity >= NANO
  {
  }

  lemma {:induction false} Rounds(k: nat, cfg: Config, start: int, n: nat) returns (q: Path)
    requires Excessive(cfg, n) && cfg.capacity >= NANO
    ensures IsPath(q, cfg, start, n) && Spent(q.s, cfg) && q.s.lastRefill == start + k
    ensures Worth(q.s) >= cfg.capacity + k * (cfg.refill + 1)
  {
    hide Burst, Residue, IsPath, Worth, Spent;
    if k == 0 {
      q := FirstDrain(cfg, start, n);
    } else {
      var p := Rounds(k - 1, cfg, start, n);
      q := Round(p, cfg, start, n);
      var gain := cfg.refill + 1;
      assert k * gain == (k - 1) * gain + gain;
    }
  }

  lemma FirstDrain(cfg: Config, start: int, n: nat) returns (q: Path)
    requires n >= 1 && cfg.capacity >= NANO
    ensures IsPath(q, cfg, start, n) && Spent(q.s, cfg) && q.s.lastRefill == start && Worth(q.s) == cfg.capacity
  {
    q := Drain(Path([], Threads(cfg, start, n)), 0, cfg, start, n);
  }

  /** After a second of such rounds more is admitted than the rate allows. */
  lemma Overrun(cfg: Config, n: nat) returns (acts: seq<Act>)
    requires Excessive(cfg, n)
    ensures var r := Run(Threads(cfg, 0, n), acts, cfg); Quiet(r) && !WithinRate(r, 0, cfg)
  {
    hide Excessive, Burst, Run;
    SomeBurst(cfg, n);
    var q := Rounds(NANO, cfg, 0, n);
    acts := q.acts;
  }

  // ------------------------------------------------------------------ the condition

  lemma OneThread(cfg: Config, start: int, acts: seq<Act>)
    requires Quiet(Run(Threads(cfg, start, 1), acts, cfg))
    ensures WithinRate(Run(Threads(cfg, start, 1), acts, cfg), start, cfg)
  {
    hide Run;
    SequentialBound(cfg, start, acts);
  }

  lemma {:induction false} NoThread(cfg: Config, start: int, acts: seq<Act>)
    ensures Run(Threads(cfg, start, 0), acts, cfg) == Threads(cfg, start, 0)
  {
    if acts != [] {
      NoThread(cfg, start, acts[..|acts| - 1]);
    }
  }

  lemma NoRefill(cfg: Config, start: int, n: nat, acts: seq<Act>)
    requires cfg.refill == 0
    ensures WithinRate(Run(Threads(cfg, start, n), acts, cfg), start, cfg)
  {
    hide Run;
    NeverFilled(cfg, start, n, acts);
  }

  /** For every configuration: `n` threads keep to the burst and the rate in every
      interleaving if and only if calls do not overlap, nothing is refilled, or the bursts of
      all threads together do not exceed the refill of a nanosecond. */
  lemma RateKeptExactly(cfg: Config, n: nat)
    ensures KeepsRate(cfg, n) <==> n <= 1 || cfg.refill == 0 || n * Burst(cfg.capacity) <= cfg.refill
  {
    hide Run, Quiet, WithinRate, Burst;
    if n <= 1 || cfg.refill == 0 || n * Burst(cfg.capacity) <= cfg.refill {
      forall start, acts | Quiet(Run(Threads(cfg, start, n), acts, cfg))
        ensures WithinRate(Run(Threads(cfg, start, n), acts, cfg), start, cfg)
      {
        if cfg.refill == 0 {
          NoRefill(cfg, start, n, acts);
        } else if n == 0 {
          NoThread(cfg, start, acts);
          NothingYet(cfg, start);
        } else if n == 1 {
          OneThread(cfg, start, acts);
        } else {
          LargeRefillKeeps(cfg, start, n, acts);
        }
      }
    } else {
      var acts := Overrun(cfg, n);
    }
  }

  lemma NothingYet(cfg: Config, start: int)
    ensures WithinRate(Threads(cfg, start, 0), start, cfg)
  {
  }

  // ------------------------------------------------------------------ a short run

  const ONE: Config := Config(NANO, 1)

  /** A bucket of one token, refilled at one token a second: two threads that enter together
      after a second both refill for it, and three requests are admitted in that second. */
  lemma RefilledTwice() returns (acts: seq<Act>)
    ensures var r := Run(Threads(ONE, 0, 2), acts, ONE);
            && r.lastRefill == NANO && Quiet(r) && r.admitted == 3 && !WithinRate(r, 0, ONE)
  {
    hide IsPath;
    var p := FirstDrain(ONE, 0, 2);
    Sizes(p, ONE, 0, 2);
    MovesOn(p, 0, Enter(NANO), ONE, 0, 2);
    p := Move1(p, 0, Enter(NANO), ONE);
    MovesOn(p, 1, Enter(NANO), ONE, 0, 2);
    p := Move1(p, 1, Enter(NANO), ONE);
    p := Finish(p, 0, 0, NANO, ONE, 0, 2);
    p := Finish(p, 1, 0, NANO, ONE, 0, 2);
    acts := p.acts;
    Arrives(p, ONE, 0, 2);
  }

  lemma Arrives(p: Path, cfg: Config, start: int, n: nat)
    requires IsPath(p, cfg, start, n)
    ensures Run(Threads(cfg, start, n), p.acts, cfg) == p.s
  {
  }
}

/** Runs in which readings that are no longer the time make the per-client bucket exceed its
    rate, and so exactly when it keeps to it. */
module RateExactly {
  import opened RateLimit
  import opened RateClock
  import opened NanoTokens

  // ------------------------------------------------------------- runs, step by step

  /** A run of `n` threads and the state it reaches. */
  datatype Path = Path(es: seq<Event>, c: Clocked)

  predicate IsPath(p: Path, cfg: Config, start: int, n: nat, settable: bool) {
    && RunClocked(Start(cfg, start, n), p.es, cfg) == p.c && |p.c.held| == |p.c.s.pcs| == n
    && Possible(p.es, settable)
  }

  function Then(p: Path, e: Event, cfg: Config): Path
    requires |p.c.held| == |p.c.s.pcs|
  {
    Path(p.es + [e], StepClocked(p.c, e, cfg))
  }

  lemma GoesOn(p: Path, e: Event, cfg: Config, start: int, n: nat, settable: bool)
    requires IsPath(p, cfg, start, n, settable) && (settable || (e.Tick? ==> e.nanos >= 0))
    ensures |p.c.held| == |p.c.s.pcs| == n && IsPath(Then(p, e, cfg), cfg, start, n, settable)
  {
    assert (p.es + [e])[..|p.es|] == p.es;
  }

  lemma Sizes(p: Path, cfg: Config, start: int, n: nat, settable: bool)
    requires IsPath(p, cfg, start, n, settable)
    ensures |p.c.held| == |p.c.s.pcs| == n
  {
  }

  /** Tokens in the bucket and tokens spent. */
  function Worth(c: Clocked): int { c.s.tokens + NANO * c.s.admitted }

  /** Thread `t` is between calls. */
  predicate Free1(c: Clocked, t: nat) {
    t < |c.held| == |c.s.pcs| && c.s.pcs[t] == Idle && c.held[t] == NoReading
  }

  /** A thread about to consume takes a token if there is one. */
  lemma Spend(p: Path, t: nat, cfg: Config, start: int, n: nat, settable: bool) returns (q: Path)
    requires IsPath(p, cfg, start, n, settable) && t < n && |p.c.s.pcs| == n && p.c.s.pcs[t] == Consuming
    ensures IsPath(q, cfg, start, n, settable) && q.c.held == p.c.held && q.c.clock == p.c.clock
    ensures q.c.s.pcs == p.c.s.pcs[t := Idle] && q.c.s.lastSeen == p.c.s.lastSeen && Worth(q.c) == Worth(p.c)
    ensures q.c.s.tokens == p.c.s.tokens - if p.c.s.tokens >= NANO then NANO else 0
  {
    hide IsPath;
    GoesOn(p, Proceed(t, LoadConsume), cfg, start, n, settable);
    q := Then(p, Proceed(t, LoadConsume), cfg);
    if p.c.s.tokens >= NANO {
      GoesOn(q, Proceed(t, SwapConsume), cfg, start, n, settable);
      q := Then(q, Proceed(t, SwapConsume), cfg);
      assert q.c.s.pcs == p.c.s.pcs[t := Idle];
    }
  }

  /** The state up to the tokens, the time last seen and the calls counted. */
  predicate SameBut(c: Clocked, c': Clocked) {
    c'.held == c.held && c'.clock == c.clock && c'.s.pcs == c.s.pcs
  }

  /** A thread reads the clock and swaps the reading in. */
  lemma Begin(p: Path, t: nat, cfg: Config, start: int, n: nat, settable: bool) returns (q: Path)
    requires IsPath(p, cfg, start, n, settable) && Free1(p.c, t)
    ensures IsPath(q, cfg, start, n, settable) && t < |p.c.s.pcs|
    ensures q.c == p.c.(s := StepShared(p.c.s, t, Enter(p.c.clock), cfg))
  {
    hide IsPath, StepShared;
    GoesOn(p, ReadClock(t), cfg, start, n, settable);
    q := Then(p, ReadClock(t), cfg);
    GoesOn(q, SwapTime(t), cfg, start, n, settable);
    q := Then(q, SwapTime(t), cfg);
    assert p.c.held[t := Read(p.c.clock)][t := NoReading] == p.c.held;
  }

  /** When the time has been seen, a thread takes all whole tokens. */
  lemma {:induction false} Drain(p: Path, t: nat, cfg: Config, start: int, n: nat, settable: bool) returns (q: Path)
    requires IsPath(p, cfg, start, n, settable) && Free1(p.c, t)
    requires p.c.s.tokens >= 0 && p.c.s.lastSeen == p.c.clock
    ensures IsPath(q, cfg, start, n, settable) && SameBut(p.c, q.c) && q.c.s.lastSeen == p.c.clock
    ensures Worth(q.c) == Worth(p.c) && q.c.s.tokens == p.c.s.tokens % NANO
    decreases p.c.s.tokens
  {
    hide IsPath;
    if p.c.s.tokens < NANO {
      q := p;
    } else {
      Sizes(p, cfg, start, n, settable);
      q := Begin(p, t, cfg, start, n, settable);
      q := Spend(q, t, cfg, start, n, settable);
      assert q.c.s.pcs == p.c.s.pcs;
      q := Drain(q, t, cfg, start, n, settable);
    }
  }

  /** When the time has not been seen, a thread refills for the difference and takes all whole
      tokens. */
  lemma Refill(p: Path, t: nat, cfg: Config, start: int, n: nat, settable: bool) returns (q: Path)
    requires IsPath(p, cfg, start, n, settable) && Free1(p.c, t)
    requires 0 <= p.c.s.tokens <= cfg.capacity && p.c.s.lastSeen < p.c.clock
    ensures IsPath(q, cfg, start, n, settable) && SameBut(p.c, q.c) && q.c.s.lastSeen == p.c.clock
    ensures var filled := Min(p.c.s.tokens + (p.c.clock - p.c.s.lastSeen) * cfg.refill, cfg.capacity);
            q.c.s.tokens == filled % NANO && Worth(q.c) == Worth(p.c) + (filled - p.c.s.tokens)
  {
    hide IsPath;
    Sizes(p, cfg, start, n, settable);
    q := Begin(p, t, cfg, start, n, settable);
    var amount := (p.c.clock - p.c.s.lastSeen) * cfg.refill;
    assert amount >= 0;
    assert q.c.s.pcs == p.c.s.pcs[t := Refilling(amount)];
    q := Apply(q, t, amount, cfg, start, n, settable);
    assert q.c.s.pcs == p.c.s.pcs[t := Consuming];
    q := Spend(q, t, cfg, start, n, settable);
    assert q.c.s.pcs == p.c.s.pcs;
    q := Drain(q, t, cfg, start, n, settable);
  }

  /** A refill that has been claimed is added to the tokens. */
  lemma Apply(p: Path, t: nat, amount: nat, cfg: Config, start: int, n: nat, settable: bool) returns (q: Path)
    requires IsPath(p, cfg, start, n, settable) && t < n && |p.c.s.pcs| == n && p.c.s.pcs[t] == Refilling(amount)
    ensures IsPath(q, cfg, start, n, settable) && q.c.held == p.c.held && q.c.clock == p.c.clock
    ensures q.c.s == p.c.s.(tokens := Min(p.c.s.tokens + amount, cfg.capacity), pcs := p.c.s.pcs[t := Consuming])
  {
    hide IsPath;
    GoesOn(p, Proceed(t, LoadRefill), cfg, start, n, settable);
    q := Then(p, Proceed(t, LoadRefill), cfg);
    GoesOn(q, Proceed(t, SwapRefill), cfg, start, n, settable);
    q := Then(q, Proceed(t, SwapRefill), cfg);
    assert q.c.s.pcs == p.c.s.pcs[t := Consuming];
  }

  // ------------------------------------------------------- by a clock set back

  /** No whole token is left, and the time has been seen. */
  predicate Dry(c: Clocked, cfg: Config) {
    0 <= c.s.tokens < NANO <= cfg.capacity && c.s.lastSeen == c.clock
  }

  lemma FirstDrain(cfg: Config, start: int, n: nat, settable: bool) returns (q: Path)
    requires n >= 1 && cfg.capacity >= NANO
    ensures IsPath(q, cfg, start, n, settable) && SameBut(Start(cfg, start, n), q.c)
    ensures q.c.clock == start && Dry(q.c, cfg)
    ensures Worth(q.c) == cfg.capacity && q.c.s.tokens == Residue(cfg.capacity)
  {
    q := Drain(Path([], Start(cfg, start, n)), 0, cfg, start, n, settable);
  }

  /** A nanosecond passes and is refilled for. */
  lemma Nanosecond(p: Path, cfg: Config, start: int, n: nat, settable: bool) returns (q: Path)
    requires IsPath(p, cfg, start, n, settable) && Free1(p.c, 0) && Dry(p.c, cfg) && cfg.refill >= 1
    ensures IsPath(q, cfg, start, n, settable) && Free1(q.c, 0) && Dry(q.c, cfg)
    ensures q.c.clock == p.c.clock + 1 && Worth(q.c) >= Worth(p.c) + 1
  {
    hide IsPath, Worth;
    GoesOn(p, Tick(1), cfg, start, n, settable);
    q := Then(p, Tick(1), cfg);
    SameWorth(p.c, q.c);
    q := Refill(q, 0, cfg, start, n, settable);
  }

  lemma SameWorth(c: Clocked, c': Clocked)
    requires c'.s.tokens == c.s.tokens && c'.s.admitted == c.s.admitted
    ensures Worth(c') == Worth(c)
  {
  }

  /** The clock is set back by a nanosecond, which then passes again. */
  lemma SetBack(p: Path, cfg: Config, start: int, n: nat) returns (q: Path)
    requires IsPath(p, cfg, start, n, true) && Free1(p.c, 0) && Dry(p.c, cfg) && cfg.refill >= 1
    ensures IsPath(q, cfg, start, n, true) && Free1(q.c, 0) && Dry(q.c, cfg)
    ensures q.c.clock == p.c.clock && Worth(q.c) >= Worth(p.c) + 1
  {
    hide IsPath;
    GoesOn(p, Tick(-1), cfg, start, n, true);
    q := Then(p, Tick(-1), cfg);
    Sizes(q, cfg, start, n, true);
    q := Begin(q, 0, cfg, start, n, true);
    q := Spend(q, 0, cfg, start, n, true);
    Sizes(q, cfg, start, n, true);
    q := Nanosecond(q, cfg, start, n, true);
  }

  lemma {:induction false} SetBackOften(k: nat, cfg: Config, n: nat) returns (q: Path)
    requires n >= 1 && cfg.capacity >= NANO && cfg.refill >= 1
    ensures IsPath(q, cfg, 0, n, true) && Free1(q.c, 0) && Dry(q.c, cfg)
    ensures q.c.clock == 0 && Worth(q.c) >= cfg.capacity + k
  {
    hide IsPath, Worth, Dry;
    if k == 0 {
      q := FirstDrain(cfg, 0, n, true);
      Sizes(q, cfg, 0, n, true);
    } else {
      q := SetBackOften(k - 1, cfg, n);
      q := SetBack(q, cfg, 0, n);
    }
  }

  /** If the clock may be set back: a bucket keeps to its rate if and only if nothing is
      refilled or no request is ever admitted. */
  lemma SettableExactly(cfg: Config, n: nat)
    requires cfg.capacity >= 0 && n >= 1
    ensures KeepsRate(cfg, n, true) <==> cfg.refill == 0 || cfg.capacity < NANO
  {
    hide RunClocked, WithinRate;
    if cfg.refill == 0 || cfg.capacity < NANO {
      forall start, es | RunClocked(Start(cfg, start, n), es, cfg).clock >= start
        ensures WithinRate(RunClocked(Start(cfg, start, n), es, cfg), start, cfg)
      {
        if cfg.refill == 0 {
          NoRefill(cfg, start, n, es);
        } else {
          NoWholeToken(cfg, start, n, es);
          NoneWithin(RunClocked(Start(cfg, start, n), es, cfg), start, cfg);
        }
      }
    } else {
      var es := SetBackOverrun(cfg, n);
    }
  }

  lemma NoneWithin(c: Clocked, start: int, cfg: Config)
    requires c.s.admitted == 0 && c.clock >= start && cfg.capacity >= 0
    ensures WithinRate(c, start, cfg)
  {
    assert (c.clock - start) * cfg.refill >= 0;
  }

  lemma SetBackOverrun(cfg: Config, n: nat) returns (es: seq<Event>)
    requires n >= 1 && cfg.capacity >= NANO && cfg.refill >= 1
    ensures Possible(es, true) && !WithinRate(RunClocked(Start(cfg, 0, n), es, cfg), 0, cfg)
    ensures RunClocked(Start(cfg, 0, n), es, cfg).clock >= 0
  {
    hide RunClocked;
    var q := SetBackOften(NANO, cfg, n);
    es := q.es;
  }

  // --------------------------------------------------------- by overlapping calls

  /** The threads from `k` on hold the reading `at`, and all others are between calls. */
  predicate Holding(c: Clocked, k: nat, at: int) {
    && |c.held| == |c.s.pcs|
    && forall i :: 0 <= i < |c.held| ==> c.s.pcs[i] == Idle && c.held[i] == if i < k then NoReading else Read(at)
  }

  lemma {:induction false} ReadFrom(p: Path, k: nat, cfg: Config, start: int, n: nat) returns (q: Path)
    requires IsPath(p, cfg, start, n, false) && 1 <= k <= n && Holding(p.c, k, p.c.clock)
    ensures IsPath(q, cfg, start, n, false) && Holding(q.c, 1, p.c.clock) && q.c == p.c.(held := q.c.held)
    decreases k
  {
    hide IsPath;
    q := p;
    if k > 1 {
      GoesOn(p, ReadClock(k - 1), cfg, start, n, false);
      q := Then(p, ReadClock(k - 1), cfg);
      q := ReadFrom(q, k - 1, cfg, start, n);
    }
  }

  /** What a refill for one nanosecond leaves. */
  function Filled(tokens: int, cfg: Config): int { Min(tokens + cfg.refill, cfg.capacity) }

  lemma OneNanosecond(tokens: int, cfg: Config)
    ensures Filled(tokens, cfg) == Min(tokens + 1 * cfg.refill, cfg.capacity)
  {
  }

  /** One of them swaps its reading in, and the first thread refills for the same nanosecond
      again. */
  lemma Again(p: Path, k: nat, cfg: Config, start: int, n: nat) returns (q: Path)
    requires IsPath(p, cfg, start, n, false) && 1 <= k < n && Holding(p.c, k, p.c.clock - 1) && Dry(p.c, cfg)
    ensures IsPath(q, cfg, start, n, false) && Holding(q.c, k + 1, p.c.clock - 1) && Dry(q.c, cfg)
    ensures q.c.clock == p.c.clock && q.c.s.tokens == Filled(p.c.s.tokens, cfg) % NANO
    ensures Worth(q.c) == Worth(p.c) + (Filled(p.c.s.tokens, cfg) - p.c.s.tokens)
  {
    hide IsPath, Worth;
    GoesOn(p, SwapTime(k), cfg, start, n, false);
    q := Then(p, SwapTime(k), cfg);
    SameWorth(p.c, q.c);
    q := Spend(q, k, cfg, start, n, false);
    Sizes(q, cfg, start, n, false);
    OneNanosecond(p.c.s.tokens, cfg);
    q := Refill(q, 0, cfg, start, n, false);
  }

  lemma {:induction false} AgainAll(p: Path, k: nat, cfg: Config, start: int, n: nat) returns (q: Path)
    requires IsPath(p, cfg, start, n, false) && 1 <= k <= n && Holding(p.c, k, p.c.clock - 1) && Dry(p.c, cfg)
    ensures IsPath(q, cfg, start, n, false) && Holding(q.c, n, p.c.clock - 1) && Dry(q.c, cfg)
    ensures q.c.clock == p.c.clock && Worth(q.c) >= Worth(p.c)
    ensures cfg.refill >= Burst(cfg.capacity) && p.c.s.tokens == Residue(cfg.capacity) ==>
              q.c.s.tokens == Residue(cfg.capacity) && Worth(q.c) == Worth(p.c) + (n - k) * Burst(cfg.capacity)
    decreases n - k
  {
    hide IsPath, Worth, Burst, Residue, Holding;
    q := p;
    if k < n {
      q := Again(p, k, cfg, start, n);
      FromResidue(cfg.refill, cfg.capacity);
      var d := Burst(cfg.capacity);
      assert (n - k) * d == d + (n - (k + 1)) * d;
      q := AgainAll(q, k + 1, cfg, start, n);
    }
  }

  /** Between rounds: all threads are between calls, and if refills reach the capacity, what is
      left is its residue. */
  predicate Spent(c: Clocked, cfg: Config) {
    && Dry(c, cfg) && Holding(c, |c.held|, c.clock)
    && (cfg.refill >= Burst(cfg.capacity) ==> c.s.tokens == Residue(cfg.capacity))
  }

  predicate Excessive(cfg: Config, n: nat)
    requires cfg.capacity >= 0
  {
    n >= 2 && cfg.refill >= 1 && n * Burst(cfg.capacity) > cfg.refill
  }

  /** All threads but the first read the clock, a nanosecond passes, the first refills for it,
      and again after each of the others. */
  lemma FirstOfRound(p: Path, cfg: Config, start: int, n: nat) returns (q: Path)
    requires IsPath(p, cfg, start, n, false) && n >= 2 && Spent(p.c, cfg)
    ensures IsPath(q, cfg, start, n, false) && Holding(q.c, 1, p.c.clock) && Dry(q.c, cfg)
    ensures q.c.clock == p.c.clock + 1 && q.c.s.tokens == Filled(p.c.s.tokens, cfg) % NANO
    ensures Worth(q.c) == Worth(p.c) + (Filled(p.c.s.tokens, cfg) - p.c.s.tokens)
  {
    hide IsPath, Worth, Burst, Residue;
    Sizes(p, cfg, start, n, false);
    q := ReadFrom(p, n, cfg, start, n);
    GoesOn(q, Tick(1), cfg, start, n, false);
    q := Then(q, Tick(1), cfg);
    SameWorth(p.c, q.c);
    OneNanosecond(p.c.s.tokens, cfg);
    q := Refill(q, 0, cfg, start, n, false);
  }

  lemma Round(p: Path, cfg: Config, start: int, n: nat) returns (q: Path)
    requires IsPath(p, cfg, start, n, false) && cfg.capacity >= NANO && Excessive(cfg, n) && Spent(p.c, cfg)
    ensures IsPath(q, cfg, start, n, false) && Spent(q.c, cfg) && q.c.clock == p.c.clock + 1
    ensures Worth(q.c) >= Worth(p.c) + cfg.refill + 1
  {
    hide IsPath, Worth, Burst, Residue;
    FromResidue(cfg.refill, cfg.capacity);
    var d := Burst(cfg.capacity);
    assert n * d == d + (n - 1) * d;
    q := FirstOfRound(p, cfg, start, n);
    if cfg.refill >= d {
      q := AgainAll(q, 1, cfg, start, n);
    } else {
      TwoFills(p.c.s.tokens, cfg.refill, cfg.capacity);
      q := Again(q, 1, cfg, start, n);
      q := AgainAll(q, 2, cfg, start, n);
    }
    Sizes(q, cfg, start, n, false);
  }

  lemma {:induction false} Rounds(k: nat, cfg: Config, start: int, n: nat) returns (q: Path)
    requires cfg.capacity >= NANO && Excessive(cfg, n)
    ensures IsPath(q, cfg, start, n, false) && Spent(q.c, cfg) && q.c.clock == start + k
    ensures Worth(q.c) >= cfg.capacity + k * (cfg.refill + 1)
  {
    hide IsPath, Worth, Burst, Residue;
    if k == 0 {
      q := FirstDrain(cfg, start, n, false);
      Sizes(q, cfg, start, n, false);
    } else {
      var p := Rounds(k - 1, cfg, start, n);
      q := Round(p, cfg, start, n);
      var gain := cfg.refill + 1;
      assert k * gain == (k - 1) * gain + gain;
    }
  }

  lemma SomeBurst(cfg: Config, n: nat)
    requires cfg.capacity >= 0 && Excessive(cfg, n)
    ensures cfg.capacity >= NANO
  {
  }

  /** After a second of such rounds more is admitted than the rate allows. */
  lemma Overrun(cfg: Config, n: nat) returns (es: seq<Event>)
    requires cfg.capacity >= 0 && Excessive(cfg, n)
    ensures Possible(es, false) && !WithinRate(RunClocked(Start(cfg, 0, n), es, cfg), 0, cfg)
    ensures RunClocked(Start(cfg, 0, n), es, cfg).clock >= 0
  {
    hide RunClocked, Excessive;
    SomeBurst(cfg, n);
    var q := Rounds(NANO, cfg, 0, n);
    es := q.es;
  }

  /** For every configuration with a capacity: by a clock that is never set back, `n` threads
      keep to the burst and the rate in every interleaving if and only if calls do not overlap,
      nothing is refilled, or the bursts of all threads together do not exceed the refill of a
      nanosecond. */
  lemma RateKeptExactly(cfg: Config, n: nat)
    requires cfg.capacity >= 0
    ensures KeepsRate(cfg, n, false) <==> n <= 1 || cfg.refill == 0 || n * Burst(cfg.capacity) <= cfg.refill
  {
    hide RunClocked, WithinRate, Burst, Forward;
    if n <= 1 || cfg.refill == 0 || n * Burst(cfg.capacity) <= cfg.refill {
      forall start, es | Forward(es) && RunClocked(Start(cfg, start, n), es, cfg).clock >= start
        ensures WithinRate(RunClocked(Start(cfg, start, n), es, cfg), start, cfg)
      {
        if cfg.refill == 0 {
          NoRefill(cfg, start, n, es);
        } else if n == 0 {
          NoThread(cfg, start, es);
          NoneWithin(RunClocked(Start(cfg, start, n), es, cfg), start, cfg);
        } else if n == 1 {
          OneThread(cfg, start, es);
        } else {
          LargeRefillKeeps(cfg, start, n, es);
        }
      }
    } else {
      var es := Overrun(cfg, n);
    }
  }

  // ------------------------------------------------------------------ a short run

  const ONE: Config := Config(NANO, 1)

  /** One token, refilled at one a second, and two threads: the second thread reads the clock
      and is overtaken for a second; its reading makes the first thread refill for that second
      twice, and three requests are admitted in it. */
  lemma StaleReading() returns (es: seq<Event>)
    ensures var c := RunClocked(Start(ONE, 0, 2), es, ONE);
            && Forward(es) && c.clock == NANO && c.s.admitted == 3 && !WithinRate(c, 0, ONE)
  {
    hide IsPath;
    var p := FirstDrain(ONE, 0, 2, false);
    GoesOn(p, ReadClock(1), ONE, 0, 2, false);
    p := Then(p, ReadClock(1), ONE);
    GoesOn(p, Tick(NANO), ONE, 0, 2, false);
    p := Then(p, Tick(NANO), ONE);
    p := Refill(p, 0, ONE, 0, 2, false);
    GoesOn(p, SwapTime(1), ONE, 0, 2, false);
    p := Then(p, SwapTime(1), ONE);
    p := Spend(p, 1, ONE, 0, 2, false);
    Sizes(p, ONE, 0, 2, false);
    p := Refill(p, 0, ONE, 0, 2, false);
    Arrives(p, ONE, 0, 2);
    es := p.es;
  }

  lemma Arrives(p: Path, cfg: Config, start: int, n: nat)
    requires IsPath(p, cfg, start, n, false)
    ensures RunClocked(Start(cfg, start, n), p.es, cfg) == p.c && Forward(p.es)
  {
  }
}

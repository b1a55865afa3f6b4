/** The per-client token bucket: sequential runs over many clients, and the load and
    compare-and-swap steps under every interleaving.  The clock is an argument and int64
    overflow is not modelled. */
module RateLimit {
  import opened NanoTokens

  /** capacity in nano-tokens; refill in nano-tokens per nanosecond. */
  datatype Config = Config(capacity: int, refill: nat)

  datatype Bucket = Bucket(tokens: int, lastSeen: int)

  /** The burst NewRateLimiter settles on: a size of 0 defaults to the whole rate, or 1. */
  function EffectiveBurst(rps: real, burst: nat): (size: nat)
    requires rps >= 0.0
    ensures size >= 1
  {
    if burst != 0 then burst else if rps.Floor > 1 then rps.Floor else 1
  }

  /** newClientBucket: the scaling to nano-tokens. */
  function MakeConfig(rps: real, burst: nat): (cfg: Config)
    requires rps >= 0.0
    ensures cfg.capacity >= 0
  {
    Config(EffectiveBurst(rps, burst) * NANO, rps.Floor)
  }

  /** Division of int64, which truncates toward zero. */
  function TruncDiv(a: int, b: int): int
    requires b > 0
  {
    if a >= 0 then a / b else -(-a / b)
  }

  /** `n` is the number of whole tokens in `tokens` nano-tokens, rounded toward zero. */
  predicate WholeTokens(n: int, tokens: int) {
    if tokens >= 0 then n * NANO <= tokens < (n + 1) * NANO else (n - 1) * NANO < tokens <= n * NANO <= 0
  }

  function Refilled(b: Bucket, now: int, cfg: Config): int {
    if now - b.lastSeen > 0 then Min(b.tokens + (now - b.lastSeen) * cfg.refill, cfg.capacity) else b.tokens
  }

  predicate Admits(b: Bucket, now: int, cfg: Config) { Refilled(b, now, cfg) >= NANO }

  function Next(b: Bucket, now: int, cfg: Config): Bucket {
    var t := Refilled(b, now, cfg);
    Bucket(if t >= NANO then t - NANO else t, now)
  }

  class ClientBucket {
    const cfg: Config
    var tokens: int
    var lastSeen: int

    ghost function View(): Bucket
      reads this
    {
      Bucket(tokens, lastSeen)
    }

    constructor (cfg: Config, now: int)
      ensures this.cfg == cfg && View() == Bucket(cfg.capacity, now)
    {
      this.cfg := cfg;
      tokens, lastSeen := cfg.capacity, now;
    }

    method AllowAt(now: int) returns (remaining: int, ok: bool)
      modifies this
      ensures View() == Next(old(View()), now, cfg) && ok == Admits(old(View()), now, cfg)
      ensures WholeTokens(remaining, tokens)
    {
      var last := lastSeen;
      lastSeen := now;
      var elapsed := now - last;
      if elapsed > 0 {
        var refill := elapsed * cfg.refill;
        var next := tokens + refill;
        if next > cfg.capacity {
          next := cfg.capacity;
        }
        tokens := next;
      }
      if tokens < NANO {
        return TruncDiv(tokens, NANO), false;
      }
      tokens := tokens - NANO;
      return TruncDiv(tokens + NANO, NANO) - 1, true;
    }
  }

  /** RateLimiter: one bucket object per key, made on first use. */
  class RateLimiter {
    const cfg: Config
    var buckets: map<string, ClientBucket>

    /** Every key has a bucket of its own. */
    ghost predicate Valid()
      reads this
    {
      && (forall k :: k in buckets ==> buckets[k].cfg == cfg)
      && (forall j, k :: j in buckets && k in buckets && j != k ==> buckets[j] != buckets[k])
    }

    ghost function View(): Buckets
      reads this, buckets.Values
    {
      map k | k in buckets :: buckets[k].View()
    }

    constructor (cfg: Config)
      ensures Valid() && this.cfg == cfg && buckets == map[]
    {
      this.cfg := cfg;
      buckets := map[];
    }

    method AllowKey(key: string, now: int) returns (remaining: int, ok: bool)
      requires Valid()
      modifies this, buckets.Values
      ensures Valid() && fresh(buckets.Values - old(buckets.Values))
      ensures buckets.Keys == old(buckets.Keys) + {key}
      ensures forall k :: k in old(buckets) && k != key ==>
                buckets[k] == old(buckets[k]) && buckets[k].View() == old(buckets[k].View())
      ensures var b := BucketFor(old(View()), Call(key, now), cfg);
              && View() == old(View())[key := Next(b, now, cfg)] && ok == Admits(b, now, cfg)
              && WholeTokens(remaining, Next(b, now, cfg).tokens)
    {
      if key !in buckets {
        var made := new ClientBucket(cfg, now);
        buckets := buckets[key := made];
      }
      remaining, ok := buckets[key].AllowAt(now);
    }
  }

  // ------------------------------------------------------------- runs over many keys

  datatype Call = Call(key: string, now: int)

  type Buckets = map<string, Bucket>

  /** The bucket of a key, created full on first use. */
  function BucketFor(bs: Buckets, c: Call, cfg: Config): Bucket {
    if c.key in bs then bs[c.key] else Bucket(cfg.capacity, c.now)
  }

  function After(calls: seq<Call>, n: nat, cfg: Config): Buckets
    requires n <= |calls|
  {
    if n == 0 then map[]
    else
      var bs, c := After(calls, n - 1, cfg), calls[n - 1];
      bs[c.key := Next(BucketFor(bs, c, cfg), c.now, cfg)]
  }

  predicate AdmittedAt(calls: seq<Call>, n: nat, cfg: Config)
    requires n < |calls|
  {
    Admits(BucketFor(After(calls, n, cfg), calls[n], cfg), calls[n].now, cfg)
  }

  /** Requests of `key` admitted among calls `i` to `j - 1`. */
  function Admitted(calls: seq<Call>, key: string, i: nat, j: nat, cfg: Config): nat
    requires i <= j <= |calls|
  {
    if i == j then 0
    else Admitted(calls, key, i, j - 1, cfg)
         + if calls[j - 1].key == key && AdmittedAt(calls, j - 1, cfg) then 1 else 0
  }

  /** A fresh limiter serving a sequence of calls: it admits exactly those that count as
      admitted in the run, and if the clock advances, exactly those that the burst and the rate
      afford. */
  method ServeAll(cfg: Config, calls: seq<Call>) returns (oks: seq<bool>)
    ensures |oks| == |calls| && forall n :: 0 <= n < |calls| ==> oks[n] == AdmittedAt(calls, n, cfg)
    ensures ClockAdvances(calls) && cfg.capacity >= 0 ==>
              forall n :: 0 <= n < |calls| ==> (oks[n] <==> Affordable(calls, n, cfg))
  {
    hide Next, Admits, After;
    StartEmpty(calls, cfg);
    var limiter := new RateLimiter(cfg);
    oks := [];
    for n := 0 to |calls|
      invariant fresh(limiter) && fresh(limiter.buckets.Values) && limiter.Valid() && limiter.cfg == cfg
      invariant limiter.View() == After(calls, n, cfg)
      invariant |oks| == n && forall m :: 0 <= m < n ==> oks[m] == AdmittedAt(calls, m, cfg)
    {
      var remaining, ok := limiter.AllowKey(calls[n].key, calls[n].now);
      oks := oks + [ok];
      AfterStep(calls, n, cfg);
    }
    forall n | 0 <= n < |calls| && ClockAdvances(calls) && cfg.capacity >= 0
      ensures oks[n] <==> Affordable(calls, n, cfg)
    {
      AdmittedExactly(calls, n, cfg);
    }
  }

  lemma StartEmpty(calls: seq<Call>, cfg: Config)
    ensures After(calls, 0, cfg) == map[]
  {
  }

  predicate ClockAdvances(calls: seq<Call>) {
    forall i, j :: 0 <= i <= j < |calls| ==> calls[i].now <= calls[j].now
  }

  /** What a key could spend at a moment. */
  function Available(bs: Buckets, key: string, now: int, cfg: Config): int {
    if key in bs then Min(bs[key].tokens + (now - bs[key].lastSeen) * cfg.refill, cfg.capacity) else cfg.capacity
  }

  predicate Sound(bs: Buckets, now: int, cfg: Config) {
    forall k :: k in bs ==> 0 <= bs[k].tokens <= cfg.capacity && bs[k].lastSeen <= now
  }

  lemma {:induction false} AfterSound(calls: seq<Call>, n: nat, now: int, cfg: Config)
    requires n <= |calls| && ClockAdvances(calls) && cfg.capacity >= 0
    requires n > 0 ==> calls[n - 1].now <= now
    ensures Sound(After(calls, n, cfg), now, cfg)
  {
    hide Next;
    if n > 0 {
      var bs, c := After(calls, n - 1, cfg), calls[n - 1];
      AfterSound(calls, n - 1, c.now, cfg);
      NextSound(BucketFor(bs, c, cfg), c.now, cfg);
    }
  }

  lemma NextSound(b: Bucket, now: int, cfg: Config)
    requires 0 <= b.tokens <= cfg.capacity && b.lastSeen <= now
    ensures 0 <= Next(b, now, cfg).tokens <= cfg.capacity && Next(b, now, cfg).lastSeen == now
  {
    assert (now - b.lastSeen) * cfg.refill >= 0;
  }

  lemma Spread(a: int, b: int, c: int, r: nat)
    requires a <= b <= c
    ensures (c - a) * r == (b - a) * r + (c - b) * r && (c - b) * r >= 0
  {
  }

  /** One call spends a token exactly if it admits, and waiting earns at the refill rate. */
  lemma CallSpends(calls: seq<Call>, key: string, n: nat, later: int, cfg: Config)
    requires n < |calls| && ClockAdvances(calls) && cfg.capacity >= 0 && calls[n].now <= later
    ensures Available(After(calls, n + 1, cfg), key, later, cfg)
            + (if calls[n].key == key && AdmittedAt(calls, n, cfg) then NANO else 0)
         <= Available(After(calls, n, cfg), key, calls[n].now, cfg) + (later - calls[n].now) * cfg.refill
  {
    hide After, ClockAdvances;
    var bs, c := After(calls, n, cfg), calls[n];
    SoundBefore(calls, n, cfg);
    if key in bs {
      Spread(bs[key].lastSeen, c.now, later, cfg.refill);
    }
    Spread(c.now, c.now, later, cfg.refill);
    AfterStep(calls, n, cfg);
  }

  lemma SoundBefore(calls: seq<Call>, n: nat, cfg: Config)
    requires n < |calls| && ClockAdvances(calls) && cfg.capacity >= 0
    ensures Sound(After(calls, n, cfg), calls[n].now, cfg)
  {
    AfterSound(calls, n, calls[n].now, cfg);
  }

  lemma AfterStep(calls: seq<Call>, n: nat, cfg: Config)
    requires n < |calls|
    ensures var bs := After(calls, n, cfg);
            After(calls, n + 1, cfg) == bs[calls[n].key := Next(BucketFor(bs, calls[n], cfg), calls[n].now, cfg)]
  {
  }

  lemma AvailableCapped(bs: Buckets, key: string, now: int, cfg: Config)
    ensures Available(bs, key, now, cfg) <= cfg.capacity
  {
  }

  lemma Ordered(calls: seq<Call>, i: nat, j: nat)
    requires ClockAdvances(calls) && i <= j < |calls|
    ensures calls[i].now <= calls[j].now
  {
  }

  lemma {:induction false} WindowSpends(calls: seq<Call>, key: string, i: nat, j: nat, cfg: Config)
    requires i <= j < |calls| && ClockAdvances(calls) && cfg.capacity >= 0
    ensures NANO * Admitted(calls, key, i, j, cfg) + Available(After(calls, j, cfg), key, calls[j].now, cfg)
         <= cfg.capacity + (calls[j].now - calls[i].now) * cfg.refill
  {
    hide After, Available, AdmittedAt, ClockAdvances;
    if i == j {
      AvailableCapped(After(calls, j, cfg), key, calls[j].now, cfg);
    } else {
      Ordered(calls, i, j - 1);
      Ordered(calls, j - 1, j);
      WindowSpends(calls, key, i, j - 1, cfg);
      CallSpends(calls, key, j - 1, calls[j].now, cfg);
      Spread(calls[i].now, calls[j - 1].now, calls[j].now, cfg.refill);
    }
  }

  /** Between any two calls, whoever made them, the requests of one key that were admitted
      number at most the burst plus the refill rate times the time between. */
  lemma WindowBound(calls: seq<Call>, key: string, i: nat, j: nat, cfg: Config)
    requires i <= j < |calls| && ClockAdvances(calls) && cfg.capacity >= 0
    ensures NANO * Admitted(calls, key, i, j + 1, cfg) <= cfg.capacity + (calls[j].now - calls[i].now) * cfg.refill
  {
    hide After, Available, AdmittedAt, ClockAdvances, Sound;
    WindowSpends(calls, key, i, j, cfg);
    CallSpends(calls, key, j, calls[j].now, cfg);
    AfterSound(calls, j + 1, calls[j].now, cfg);
    NothingOwed(calls, key, j, cfg);
  }

  lemma NothingOwed(calls: seq<Call>, key: string, j: nat, cfg: Config)
    requires j < |calls| && cfg.capacity >= 0 && Sound(After(calls, j + 1, cfg), calls[j].now, cfg)
    ensures Available(After(calls, j + 1, cfg), key, calls[j].now, cfg) >= 0
  {
    var bs := After(calls, j + 1, cfg);
    if key in bs {
      Spread(bs[key].lastSeen, bs[key].lastSeen, calls[j].now, cfg.refill);
    }
  }

  /** The level of a bucket is that of the last time it was full, plus what has been refilled
      and minus what has been admitted since. */
  lemma {:induction false} SinceFull(calls: seq<Call>, key: string, n: nat, cfg: Config) returns (i: nat)
    requires n <= |calls| && ClockAdvances(calls) && cfg.capacity >= 0 && key in After(calls, n, cfg)
    ensures i < n && calls[i].key == key
    ensures var b := After(calls, n, cfg)[key];
            b.tokens - b.lastSeen * cfg.refill
            == cfg.capacity - calls[i].now * cfg.refill - NANO * Admitted(calls, key, i, n, cfg)
  {
    hide ClockAdvances;
    var c, bs := calls[n - 1], After(calls, n - 1, cfg);
    SoundBefore(calls, n - 1, cfg);
    if c.key != key {
      i := SinceFull(calls, key, n - 1, cfg);
    } else {
      var b := BucketFor(bs, c, cfg);
      Elapsed(b, c.now, cfg);
      if key in bs && Refilled(b, c.now, cfg) == b.tokens + (c.now - b.lastSeen) * cfg.refill {
        i := SinceFull(calls, key, n - 1, cfg);
      } else {
        i := n - 1;
        assert Admitted(calls, key, i, i, cfg) == 0;
      }
    }
  }

  lemma Elapsed(b: Bucket, now: int, cfg: Config)
    requires b.tokens <= cfg.capacity && b.lastSeen <= now
    ensures Refilled(b, now, cfg) == Min(b.tokens + (now - b.lastSeen) * cfg.refill, cfg.capacity)
    ensures (now - b.lastSeen) * cfg.refill == now * cfg.refill - b.lastSeen * cfg.refill
  {
  }

  /** A request that would exceed neither the burst nor the rate over any window of calls of
      its key. */
  ghost predicate Affordable(calls: seq<Call>, n: nat, cfg: Config)
    requires n < |calls|
  {
    forall i :: 0 <= i <= n && calls[i].key == calls[n].key ==>
      NANO * (Admitted(calls, calls[n].key, i, n, cfg) + 1) <= cfg.capacity + (calls[n].now - calls[i].now) * cfg.refill
  }

  /** In every run a call is admitted if and only if, over every window of calls of its key that
      ends with it, the requests admitted and this one stay within the burst and the refill for
      the time between. */
  lemma AdmittedExactly(calls: seq<Call>, n: nat, cfg: Config)
    requires n < |calls| && ClockAdvances(calls) && cfg.capacity >= 0
    ensures AdmittedAt(calls, n, cfg) <==> Affordable(calls, n, cfg)
  {
    hide ClockAdvances, After, Admitted;
    var key, now, bs := calls[n].key, calls[n].now, After(calls, n, cfg);
    SoundBefore(calls, n, cfg);
    LevelIsAvailable(calls, n, cfg);
    if AdmittedAt(calls, n, cfg) {
      forall i | 0 <= i <= n && calls[i].key == key
        ensures NANO * (Admitted(calls, key, i, n, cfg) + 1) <= cfg.capacity + (now - calls[i].now) * cfg.refill
      {
        WindowSpends(calls, key, i, n, cfg);
      }
    } else if key in bs {
      var i := SinceFull(calls, key, n, cfg);
      Elapsed(bs[key], now, cfg);
      TimeBetween(calls[i].now, now, cfg.refill);
      NothingAtOnce(calls, key, n, cfg);
      assert !Affordable(calls, n, cfg) by {
        assert NANO * (Admitted(calls, key, n, n, cfg) + 1) > cfg.capacity + (now - now) * cfg.refill
            || NANO * (Admitted(calls, key, i, n, cfg) + 1) > cfg.capacity + (now - calls[i].now) * cfg.refill;
      }
    } else {
      NothingAtOnce(calls, key, n, cfg);
      assert NANO * (Admitted(calls, key, n, n, cfg) + 1) > cfg.capacity + (now - now) * cfg.refill;
    }
  }

  lemma TimeBetween(a: int, b: int, r: nat)
    ensures (b - a) * r == b * r - a * r
  {
  }

  lemma NothingAtOnce(calls: seq<Call>, key: string, n: nat, cfg: Config)
    requires n < |calls|
    ensures Admitted(calls, key, n, n, cfg) == 0
  {
  }

  lemma LevelIsAvailable(calls: seq<Call>, n: nat, cfg: Config)
    requires n < |calls| && Sound(After(calls, n, cfg), calls[n].now, cfg)
    ensures var bs := After(calls, n, cfg);
            Refilled(BucketFor(bs, calls[n], cfg), calls[n].now, cfg) == Available(bs, calls[n].key, calls[n].now, cfg)
  {
    hide After;
    var bs := After(calls, n, cfg);
    if calls[n].key in bs { Elapsed(bs[calls[n].key], calls[n].now, cfg); }
  }

  /** The same in the units of the configuration, with the burst that a size of 0 stands for. */
  lemma ConfiguredExactly(calls: seq<Call>, n: nat, rps: real, burst: nat)
    requires n < |calls| && ClockAdvances(calls) && rps >= 0.0
    ensures var cfg := MakeConfig(rps, burst);
            var size := if burst > 0 then burst else if rps < 2.0 then 1 else rps.Floor;
            AdmittedAt(calls, n, cfg) <==>
            forall i :: 0 <= i <= n && calls[i].key == calls[n].key ==>
              (NANO * (Admitted(calls, calls[n].key, i, n, cfg) + 1)
               <= NANO * size + (calls[n].now - calls[i].now) * rps.Floor)
  {
    hide Admitted, AdmittedAt, ClockAdvances;
    AdmittedExactly(calls, n, MakeConfig(rps, burst));
  }

  /** The same in the units of the configuration: at most the burst, plus the whole requests
      per second for every whole second. */
  lemma RateBound(calls: seq<Call>, key: string, i: nat, j: nat, rps: real, burst: nat, seconds: nat)
    requires rps >= 0.0
    requires i <= j < |calls| && ClockAdvances(calls) && calls[j].now - calls[i].now <= seconds * NANO
    ensures Admitted(calls, key, i, j + 1, MakeConfig(rps, burst)) <= EffectiveBurst(rps, burst) + rps.Floor * seconds
  {
    hide Admitted, ClockAdvances;
    var cfg := MakeConfig(rps, burst);
    Ordered(calls, i, j);
    WindowBound(calls, key, i, j, cfg);
    WholeSeconds(Admitted(calls, key, i, j + 1, cfg), EffectiveBurst(rps, burst), calls[j].now - calls[i].now,
                 rps.Floor, seconds);
  }

  lemma WholeSeconds(n: nat, burst: nat, d: nat, r: nat, seconds: nat)
    requires NANO * n <= burst * NANO + d * r && d <= seconds * NANO
    ensures n <= burst + r * seconds
  {
    var room := seconds * NANO - d;
    assert room * r >= 0;
    assert d * r + room * r == (seconds * NANO) * r == (r * seconds) * NANO;
    var total := r * seconds;
    assert NANO * n <= burst * NANO + total * NANO;
  }

  // ---------------------------------------------------------- every interleaving

  /** Where a thread stands inside allow: about to refill, between the load and the swap of
      the refill, about to consume, between load and swap of the consumption, or done. */
  datatype Pc = Idle
              | Refilling(amount: int)
              | RefillSwap(amount: int, seen: int)
              | Consuming
              | ConsumeSwap(seen: int)

  /** One bucket shared by the threads; `admitted` counts successful calls. */
  datatype Shared = Shared(tokens: int, lastSeen: int, pcs: seq<Pc>, admitted: nat)

  datatype Move = Enter(now: int) | LoadRefill | SwapRefill | LoadConsume | SwapConsume

  /** The atomic step `move` of thread `t`. */
  function StepShared(s: Shared, t: nat, move: Move, cfg: Config): Shared
    requires t < |s.pcs|
  {
    match (move, s.pcs[t])
    case (Enter(now), Idle) =>
      var elapsed := now - s.lastSeen;
      s.(lastSeen := now, pcs := s.pcs[t := if elapsed > 0 then Refilling(elapsed * cfg.refill) else Consuming])
    case (LoadRefill, Refilling(amount)) => s.(pcs := s.pcs[t := RefillSwap(amount, s.tokens)])
    case (SwapRefill, RefillSwap(amount, seen)) =>
      if s.tokens == seen then s.(tokens := Min(seen + amount, cfg.capacity), pcs := s.pcs[t := Consuming])
      else s.(pcs := s.pcs[t := Refilling(amount)])
    case (LoadConsume, Consuming) =>
      s.(pcs := s.pcs[t := if s.tokens < NANO then Idle else ConsumeSwap(s.tokens)])
    case (SwapConsume, ConsumeSwap(seen)) =>
      if s.tokens == seen then s.(tokens := seen - NANO, pcs := s.pcs[t := Idle], admitted := s.admitted + 1)
      else s.(pcs := s.pcs[t := Consuming])
    case _ => s
  }

  predicate PcSound(pc: Pc) {
    match pc
    case Refilling(amount) => amount >= 0
    case RefillSwap(amount, _) => amount >= 0
    case ConsumeSwap(seen) => seen >= NANO
    case _ => true
  }

  /** Tokens stay between 0 and the capacity. */
  predicate InRange(s: Shared, cfg: Config) {
    0 <= s.tokens <= cfg.capacity && forall i :: 0 <= i < |s.pcs| ==> PcSound(s.pcs[i])
  }

  function Owed(pc: Pc): int {
    match pc
    case Refilling(amount) => amount
    case RefillSwap(amount, _) => amount
    case _ => 0
  }

  /** Refills that threads have claimed by moving lastSeen but not applied yet. */
  function AllOwed(pcs: seq<Pc>): int {
    if pcs == [] then 0 else Owed(pcs[0]) + AllOwed(pcs[1..])
  }

  lemma {:induction false} OwedUpdate(pcs: seq<Pc>, t: nat, pc: Pc)
    requires t < |pcs|
    ensures AllOwed(pcs[t := pc]) == AllOwed(pcs) - Owed(pcs[t]) + Owed(pc)
  {
    if t == 0 {
      assert pcs[0 := pc][1..] == pcs[1..];
    } else {
      OwedUpdate(pcs[1..], t - 1, pc);
      assert pcs[t := pc][1..] == pcs[1..][t - 1 := pc];
    }
  }

  /** How far a step sets lastSeen back. */
  function Setback(s: Shared, t: nat, move: Move): nat
    requires t < |s.pcs|
  {
    if move.Enter? && s.pcs[t].Idle? && move.now < s.lastSeen then s.lastSeen - move.now else 0
  }

  /** Tokens in the bucket, tokens spent and refills claimed never exceed the capacity and
      the refill for the time since `start`, counting again what lastSeen was set back. */
  predicate Bounded(s: Shared, setbacks: int, start: int, cfg: Config) {
    && start <= s.lastSeen + setbacks
    && s.tokens + NANO * s.admitted + AllOwed(s.pcs) <= cfg.capacity + (s.lastSeen + setbacks - start) * cfg.refill
  }

  /** Every step keeps the range, whatever the clocks of the threads say. */
  lemma StepInRange(s: Shared, t: nat, move: Move, cfg: Config)
    requires t < |s.pcs| && InRange(s, cfg)
    ensures InRange(StepShared(s, t, move, cfg), cfg)
  {
    if move.Enter? && move.now - s.lastSeen > 0 {
      assert (move.now - s.lastSeen) * cfg.refill >= 0;
    }
  }

  lemma StepBounded(s: Shared, setbacks: nat, t: nat, move: Move, start: int, cfg: Config)
    requires t < |s.pcs| && InRange(s, cfg) && Bounded(s, setbacks, start, cfg)
    ensures Bounded(StepShared(s, t, move, cfg), setbacks + Setback(s, t, move), start, cfg)
  {
    var s' := StepShared(s, t, move, cfg);
    OwedUpdate(s.pcs, t, s'.pcs[t]);
    assert s.pcs[t := s.pcs[t]] == s.pcs;
    if move.Enter? && move.now > s.lastSeen {
      Spread(start, s.lastSeen + setbacks, move.now + setbacks, cfg.refill);
    }
  }

  datatype Act = Act(thread: nat, move: Move)

  function RunShared(s: Shared, acts: seq<Act>, cfg: Config): (r: Shared)
    ensures |r.pcs| == |s.pcs|
  {
    if acts == [] then s
    else
      var r, a := RunShared(s, acts[..|acts| - 1], cfg), acts[|acts| - 1];
      if a.thread < |r.pcs| then StepShared(r, a.thread, a.move, cfg) else r
  }

  /** Threads enter with clock readings that do not go back. */
  predicate EntersInOrder(s: Shared, acts: seq<Act>, cfg: Config) {
    forall n :: 0 <= n < |acts| && acts[n].move.Enter? ==>
      RunShared(s, acts[..n], cfg).lastSeen <= acts[n].move.now
  }

  function Threads(cfg: Config, start: int, n: nat): Shared {
    Shared(cfg.capacity, start, seq(n, _ => Idle), 0)
  }

  lemma {:induction false} NothingOwedAtFirst(n: nat)
    ensures AllOwed(seq(n, _ => Idle)) == 0
  {
    if n > 0 {
      NothingOwedAtFirst(n - 1);
      assert seq(n, _ => Idle)[1..] == seq(n - 1, _ => Idle);
    }
  }

  lemma {:induction false} RunInRange(cfg: Config, start: int, n: nat, acts: seq<Act>)
    requires cfg.capacity >= 0
    ensures InRange(RunShared(Threads(cfg, start, n), acts, cfg), cfg)
  {
    if acts != [] {
      RunInRange(cfg, start, n, acts[..|acts| - 1]);
      var r, a := RunShared(Threads(cfg, start, n), acts[..|acts| - 1], cfg), acts[|acts| - 1];
      if a.thread < |r.pcs| { StepInRange(r, a.thread, a.move, cfg); }
    }
  }

  /** How far a run sets lastSeen back in all. */
  function Setbacks(s: Shared, acts: seq<Act>, cfg: Config): nat {
    if acts == [] then 0
    else
      var front, a := acts[..|acts| - 1], acts[|acts| - 1];
      var r := RunShared(s, front, cfg);
      Setbacks(s, front, cfg) + if a.thread < |r.pcs| then Setback(r, a.thread, a.move) else 0
  }

  lemma {:induction false} RunBounded(cfg: Config, start: int, n: nat, acts: seq<Act>)
    requires cfg.capacity >= 0
    ensures var s := Threads(cfg, start, n); Bounded(RunShared(s, acts, cfg), Setbacks(s, acts, cfg), start, cfg)
  {
    hide StepShared, Setback;
    if acts == [] {
      NothingOwedAtFirst(n);
    } else {
      var s, front := Threads(cfg, start, n), acts[..|acts| - 1];
      RunBounded(cfg, start, n, front);
      RunInRange(cfg, start, n, front);
      var r, a := RunShared(s, front, cfg), acts[|acts| - 1];
      if a.thread < |r.pcs| { StepBounded(r, Setbacks(s, front, cfg), a.thread, a.move, start, cfg); }
    }
  }

  lemma {:induction false} InOrderNoSetback(s: Shared, acts: seq<Act>, cfg: Config)
    requires EntersInOrder(s, acts, cfg)
    ensures Setbacks(s, acts, cfg) == 0
  {
    hide StepShared;
    if acts != [] {
      var front := acts[..|acts| - 1];
      assert forall k :: 0 <= k < |front| ==> front[..k] == acts[..k] && front[k] == acts[k];
      InOrderNoSetback(s, front, cfg);
    }
  }

  lemma {:induction false} OwedNonnegative(pcs: seq<Pc>)
    requires forall i :: 0 <= i < |pcs| ==> PcSound(pcs[i])
    ensures AllOwed(pcs) >= 0
  {
    if pcs != [] {
      OwedNonnegative(pcs[1..]);
    }
  }

  /** Under every interleaving of any number of threads the tokens stay in range, and no more
      is admitted than the burst and the refill since the start, counting again the time by
      which stale clock readings set lastSeen back; without those there is none. */
  lemma ConcurrentBound(cfg: Config, start: int, n: nat, acts: seq<Act>)
    requires cfg.capacity >= 0
    ensures var s := Threads(cfg, start, n);
            var r, back := RunShared(s, acts, cfg), Setbacks(s, acts, cfg);
            && 0 <= r.tokens <= cfg.capacity
            && NANO * r.admitted <= cfg.capacity + (r.lastSeen + back - start) * cfg.refill
            && (EntersInOrder(s, acts, cfg) ==> back == 0)
  {
    hide RunShared, AllOwed, EntersInOrder, Threads, Setbacks;
    RunInRange(cfg, start, n, acts);
    var s := Threads(cfg, start, n);
    var r := RunShared(s, acts, cfg);
    OwedNonnegative(r.pcs);
    RunBounded(cfg, start, n, acts);
    if EntersInOrder(s, acts, cfg) {
      InOrderNoSetback(s, acts, cfg);
    }
  }

  /** The steps of a call made without another thread in between. */
  function CallAlone(s: Shared, t: nat, now: int, cfg: Config): Shared
    requires t < |s.pcs|
  {
    var s1 := StepShared(s, t, Enter(now), cfg);
    var s2 := StepShared(s1, t, LoadRefill, cfg);
    var s3 := StepShared(s2, t, SwapRefill, cfg);
    var s4 := StepShared(s3, t, LoadConsume, cfg);
    StepShared(s4, t, SwapConsume, cfg)
  }

  /** They do to the bucket what the sequential call does, and admit exactly if it does. */
  lemma AloneIsSequential(s: Shared, t: nat, now: int, cfg: Config)
    requires t < |s.pcs| && s.pcs[t].Idle?
    ensures var b, r := Bucket(s.tokens, s.lastSeen), CallAlone(s, t, now, cfg);
            && Bucket(r.tokens, r.lastSeen) == Next(b, now, cfg) && r.pcs == s.pcs
            && r.admitted == s.admitted + if Admits(b, now, cfg) then 1 else 0
  {
    assert s.pcs[t := Idle] == s.pcs;
  }
}

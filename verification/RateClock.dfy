/** The per-client bucket and the clock: reading the clock and swapping the time last seen are
    steps of their own, so a thread can swap in a reading that is no longer the time.  When the
    bucket then keeps to its rate. */
module RateClock {
  import opened RateLimit
  import opened NanoTokens

  datatype Reading = NoReading | Read(at: int)

  /** The bucket and its threads, the reading each thread has taken and not swapped in yet, and
      the time. */
  datatype Clocked = Clocked(s: Shared, held: seq<Reading>, clock: int)

  datatype Event = Tick(nanos: int) | ReadClock(t: nat) | SwapTime(t: nat) | Proceed(t: nat, move: Move)

  function StepClocked(c: Clocked, e: Event, cfg: Config): (r: Clocked)
    requires |c.held| == |c.s.pcs|
    ensures |r.held| == |r.s.pcs| == |c.held|
  {
    match e
    case Tick(d) => c.(clock := c.clock + d)
    case ReadClock(t) =>
      if t < |c.held| && c.s.pcs[t].Idle? && c.held[t].NoReading? then c.(held := c.held[t := Read(c.clock)]) else c
    case SwapTime(t) =>
      if t < |c.held| && c.s.pcs[t].Idle? && c.held[t].Read?
      then c.(s := StepShared(c.s, t, Enter(c.held[t].at), cfg), held := c.held[t := NoReading]) else c
    case Proceed(t, move) =>
      if t < |c.held| && !move.Enter? then c.(s := StepShared(c.s, t, move, cfg)) else c
  }

  function RunClocked(c: Clocked, es: seq<Event>, cfg: Config): (r: Clocked)
    requires |c.held| == |c.s.pcs|
    ensures |r.held| == |r.s.pcs| == |c.held|
  {
    if es == [] then c else StepClocked(RunClocked(c, es[..|es| - 1], cfg), es[|es| - 1], cfg)
  }

  /** A new bucket and `n` threads. */
  function Start(cfg: Config, start: int, n: nat): (c: Clocked)
    ensures |c.held| == |c.s.pcs| == n
  {
    Clocked(Threads(cfg, start, n), seq(n, _ => NoReading), start)
  }

  /** The clock is never set back. */
  predicate Forward(es: seq<Event>) {
    forall i :: 0 <= i < |es| && es[i].Tick? ==> es[i].nanos >= 0
  }

  /** The events a clock allows that is never set back or, if `settable`, any clock. */
  predicate Possible(es: seq<Event>, settable: bool) { settable || Forward(es) }

  predicate WithinRate(c: Clocked, start: int, cfg: Config) {
    NANO * c.s.admitted <= cfg.capacity + (c.clock - start) * cfg.refill
  }

  /** Every run of `n` threads by such a clock admits no more than the burst and the refill for
      the time that has passed. */
  ghost predicate KeepsRate(cfg: Config, n: nat, settable: bool) {
    forall start, es | Possible(es, settable) && RunClocked(Start(cfg, start, n), es, cfg).clock >= start ::
      WithinRate(RunClocked(Start(cfg, start, n), es, cfg), start, cfg)
  }

  // ------------------------------------------------------------------- any clock

  lemma {:induction false} RunSound(cfg: Config, start: int, n: nat, es: seq<Event>) returns (setbacks: nat)
    requires cfg.capacity >= 0
    ensures var s := RunClocked(Start(cfg, start, n), es, cfg).s;
            InRange(s, cfg) && Bounded(s, setbacks, start, cfg)
  {
    hide StepShared, Bounded, InRange, Setback;
    if es == [] {
      setbacks := 0;
      StartSound(cfg, start, n);
    } else {
      var front, e := es[..|es| - 1], es[|es| - 1];
      setbacks := RunSound(cfg, start, n, front);
      var c := RunClocked(Start(cfg, start, n), front, cfg);
      if e.SwapTime? && e.t < |c.held| && c.held[e.t].Read? {
        StepInRange(c.s, e.t, Enter(c.held[e.t].at), cfg);
        StepBounded(c.s, setbacks, e.t, Enter(c.held[e.t].at), start, cfg);
        if c.s.pcs[e.t].Idle? { setbacks := setbacks + Setback(c.s, e.t, Enter(c.held[e.t].at)); }
      } else if e.Proceed? && e.t < |c.held| && !e.move.Enter? {
        StepInRange(c.s, e.t, e.move, cfg);
        StepBounded(c.s, setbacks, e.t, e.move, start, cfg);
        NoSetback(c.s, e.t, e.move);
      }
    }
  }

  lemma NoSetback(s: Shared, t: nat, move: Move)
    requires t < |s.pcs| && !move.Enter?
    ensures Setback(s, t, move) == 0
  {
  }

  lemma StartSound(cfg: Config, start: int, n: nat)
    requires cfg.capacity >= 0
    ensures InRange(Threads(cfg, start, n), cfg) && Bounded(Threads(cfg, start, n), 0, start, cfg)
  {
    NothingOwedAtFirst(n);
  }

  lemma NoRefill(cfg: Config, start: int, n: nat, es: seq<Event>)
    requires cfg.capacity >= 0 && cfg.refill == 0
    ensures WithinRate(RunClocked(Start(cfg, start, n), es, cfg), start, cfg)
  {
    hide RunClocked;
    var setbacks := RunSound(cfg, start, n, es);
    OwedNonnegative(RunClocked(Start(cfg, start, n), es, cfg).s.pcs);
  }

  lemma {:induction false} NoWholeToken(cfg: Config, start: int, n: nat, es: seq<Event>)
    requires 0 <= cfg.capacity < NANO
    ensures RunClocked(Start(cfg, start, n), es, cfg).s.admitted == 0
  {
    hide StepShared, InRange;
    if es != [] {
      var front, e := es[..|es| - 1], es[|es| - 1];
      NoWholeToken(cfg, start, n, front);
      var setbacks := RunSound(cfg, start, n, front);
      var c := RunClocked(Start(cfg, start, n), front, cfg);
      if e.SwapTime? && e.t < |c.held| && c.held[e.t].Read? {
        NothingTaken(c.s, e.t, Enter(c.held[e.t].at), cfg);
      } else if e.Proceed? && e.t < |c.held| {
        NothingTaken(c.s, e.t, e.move, cfg);
      }
    }
  }

  lemma NothingTaken(s: Shared, t: nat, move: Move, cfg: Config)
    requires t < |s.pcs| && InRange(s, cfg) && cfg.capacity < NANO
    ensures StepShared(s, t, move, cfg).admitted == s.admitted
  {
    assert PcSound(s.pcs[t]);
  }

  // ------------------------------------------------------------------ one thread

  /** A single thread never sets the time last seen back. */
  predicate Alone(c: Clocked, start: int, cfg: Config) {
    && |c.held| == |c.s.pcs| == 1 && c.s.lastSeen <= c.clock
    && (c.held[0].Read? ==> c.s.lastSeen <= c.held[0].at <= c.clock)
    && InRange(c.s, cfg) && Bounded(c.s, 0, start, cfg)
  }

  lemma AloneSteps(c: Clocked, e: Event, start: int, cfg: Config)
    requires Alone(c, start, cfg) && (e.Tick? ==> e.nanos >= 0)
    ensures Alone(StepClocked(c, e, cfg), start, cfg)
  {
    hide InRange, Bounded;
    if e.SwapTime? && e.t == 0 && c.held[0].Read? {
      StepInRange(c.s, 0, Enter(c.held[0].at), cfg);
      StepBounded(c.s, 0, 0, Enter(c.held[0].at), start, cfg);
    } else if e.Proceed? && e.t == 0 {
      StepInRange(c.s, 0, e.move, cfg);
      StepBounded(c.s, 0, 0, e.move, start, cfg);
    }
  }

  lemma {:induction false} AloneStays(cfg: Config, start: int, es: seq<Event>)
    requires cfg.capacity >= 0 && Forward(es)
    ensures Alone(RunClocked(Start(cfg, start, 1), es, cfg), start, cfg)
  {
    hide StepClocked, InRange, Bounded;
    if es == [] {
      StartSound(cfg, start, 1);
    } else {
      AloneStays(cfg, start, es[..|es| - 1]);
      AloneSteps(RunClocked(Start(cfg, start, 1), es[..|es| - 1], cfg), es[|es| - 1], start, cfg);
    }
  }

  lemma OneThread(cfg: Config, start: int, es: seq<Event>)
    requires cfg.capacity >= 0 && Forward(es)
    ensures WithinRate(RunClocked(Start(cfg, start, 1), es, cfg), start, cfg)
  {
    hide RunClocked;
    AloneStays(cfg, start, es);
    var c := RunClocked(Start(cfg, start, 1), es, cfg);
    OwedNonnegative(c.s.pcs);
    Spread(start, c.s.lastSeen, c.clock, cfg.refill);
  }

  lemma {:induction false} NoThread(cfg: Config, start: int, es: seq<Event>)
    ensures RunClocked(Start(cfg, start, 0), es, cfg).s.admitted == 0
  {
    if es != [] {
      NoThread(cfg, start, es[..|es| - 1]);
    }
  }

  // -------------------------------------------------------- how often time goes up

  /** Readings that are no longer the time. */
  function Stale(held: seq<Reading>, clock: int): nat {
    if held == [] then 0 else IsStale(held[0], clock) + Stale(held[1..], clock)
  }

  function IsStale(h: Reading, clock: int): nat { if h.Read? && h.at < clock then 1 else 0 }

  lemma {:induction false} StaleUpdate(held: seq<Reading>, t: nat, h: Reading, clock: int)
    requires t < |held|
    ensures Stale(held[t := h], clock) == Stale(held, clock) - IsStale(held[t], clock) + IsStale(h, clock)
  {
    if t == 0 {
      assert held[0 := h][1..] == held[1..];
    } else {
      StaleUpdate(held[1..], t - 1, h, clock);
      assert held[t := h][1..] == held[1..][t - 1 := h];
    }
  }

  lemma {:induction false} StaleBound(held: seq<Reading>, clock: int)
    ensures Stale(held, clock) <= |held|
    ensures (exists i :: 0 <= i < |held| && held[i].NoReading?) ==> Stale(held, clock) < |held|
  {
    if held != [] {
      StaleBound(held[1..], clock);
      if i :| 0 <= i < |held| && held[i].NoReading? {
        assert i > 0 ==> held[1..][i - 1].NoReading?;
      }
    }
  }

  /** The thread is free to move the time last seen up. */
  predicate Free(h: Reading, lastSeen: int) { h.NoReading? || h.at > lastSeen }

  predicate SomeFree(held: seq<Reading>, lastSeen: int) {
    exists i :: 0 <= i < |held| && Free(held[i], lastSeen)
  }

  function Extra(c: Clocked): nat { if c.s.lastSeen < c.clock && SomeFree(c.held, c.s.lastSeen) then 1 else 0 }

  /** The time last seen has moved up `ups` times, and the stale readings there are can make it
      move up again once each: in all at most once per thread for each nanosecond. */
  predicate UpsOk(c: Clocked, ups: nat, start: int) {
    && |c.held| == |c.s.pcs| && c.s.lastSeen <= c.clock
    && (forall i :: 0 <= i < |c.held| && c.held[i].Read? ==> c.held[i].at <= c.clock)
    && start <= c.clock && ups + Stale(c.held, c.clock) + Extra(c) <= |c.held| * (c.clock - start)
  }

  /** Whether the event moves the time last seen up. */
  function Up(c: Clocked, e: Event): nat
    requires |c.held| == |c.s.pcs|
  {
    if e.SwapTime? && e.t < |c.held| && c.s.pcs[e.t].Idle? && c.held[e.t].Read? && c.held[e.t].at > c.s.lastSeen
    then 1 else 0
  }

  lemma MoreTime(n: nat, time: int, d: nat)
    requires d > 0
    ensures n * (time + d) >= n * time + n
  {
    assert n * (time + d) == n * time + n * (d - 1) + n && n * (d - 1) >= 0;
  }

  lemma TickUps(c: Clocked, ups: nat, d: nat, start: int)
    requires UpsOk(c, ups, start)
    ensures UpsOk(c.(clock := c.clock + d), ups, start)
  {
    hide Stale;
    if d > 0 {
      var c', n := c.(clock := c.clock + d), |c.held|;
      StaleBound(c.held, c'.clock);
      if (forall i :: 0 <= i < n ==> c.held[i].Read?) && SomeFree(c'.held, c'.s.lastSeen) {
        var i :| 0 <= i < n && Free(c.held[i], c.s.lastSeen);
        assert Extra(c) == 1;
      }
      MoreTime(n, c.clock - start, d);
    }
  }

  lemma ReadUps(c: Clocked, ups: nat, t: nat, start: int)
    requires UpsOk(c, ups, start) && t < |c.held| && c.held[t].NoReading?
    ensures UpsOk(c.(held := c.held[t := Read(c.clock)]), ups, start)
  {
    hide Stale;
    StaleUpdate(c.held, t, Read(c.clock), c.clock);
    assert Free(c.held[t], c.s.lastSeen);
  }

  lemma SwapUps(c: Clocked, ups: nat, t: nat, s': Shared, start: int)
    requires UpsOk(c, ups, start) && t < |c.held| && c.held[t].Read?
    requires s'.lastSeen == c.held[t].at && |s'.pcs| == |c.s.pcs|
    ensures UpsOk(c.(s := s', held := c.held[t := NoReading]),
                  ups + if c.held[t].at > c.s.lastSeen then 1 else 0, start)
  {
    hide Stale;
    StaleUpdate(c.held, t, NoReading, c.clock);
    if c.held[t].at > c.s.lastSeen {
      assert Free(c.held[t], c.s.lastSeen);
    }
  }

  lemma StepUps(c: Clocked, ups: nat, e: Event, start: int, cfg: Config)
    requires UpsOk(c, ups, start) && (e.Tick? ==> e.nanos >= 0)
    ensures UpsOk(StepClocked(c, e, cfg), ups + Up(c, e), start)
  {
    hide Stale, Extra;
    match e
    case Tick(d) => TickUps(c, ups, d, start);
    case ReadClock(t) => if t < |c.held| && c.held[t].NoReading? { ReadUps(c, ups, t, start); }
    case SwapTime(t) =>
      if t < |c.held| && c.s.pcs[t].Idle? && c.held[t].Read? {
        SwapUps(c, ups, t, StepShared(c.s, t, Enter(c.held[t].at), cfg), start);
      }
    case Proceed(t, move) => SameUps(c, StepClocked(c, e, cfg));
  }

  lemma SameUps(c: Clocked, c': Clocked)
    requires c'.held == c.held && c'.clock == c.clock && c'.s.lastSeen == c.s.lastSeen
    ensures Extra(c') == Extra(c)
  {
  }

  // ------------------------------------------------------------ a large refill

  function Waiting(pc: Pc): nat { if pc.Refilling? || pc.RefillSwap? then 1 else 0 }

  /** Refills that threads have claimed but not applied yet. */
  function AllWaiting(pcs: seq<Pc>): nat {
    if pcs == [] then 0 else Waiting(pcs[0]) + AllWaiting(pcs[1..])
  }

  lemma {:induction false} WaitingUpdate(pcs: seq<Pc>, t: nat, pc: Pc)
    requires t < |pcs|
    ensures AllWaiting(pcs[t := pc]) == AllWaiting(pcs) - Waiting(pcs[t]) + Waiting(pc)
  {
    if t == 0 {
      assert pcs[0 := pc][1..] == pcs[1..];
    } else {
      WaitingUpdate(pcs[1..], t - 1, pc);
      assert pcs[t := pc][1..] == pcs[1..][t - 1 := pc];
    }
  }

  lemma {:induction false} NoneWaiting(n: nat)
    ensures AllWaiting(seq(n, _ => Idle)) == 0
  {
    if n > 0 {
      NoneWaiting(n - 1);
      assert seq(n, _ => Idle)[1..] == seq(n - 1, _ => Idle);
    }
  }

  predicate AmountOk(pc: Pc, d: nat) {
    match pc
    case Refilling(amount) => amount >= d
    case RefillSwap(amount, _) => amount >= d
    case ConsumeSwap(seen) => seen >= NANO
    case _ => true
  }

  /** The bucket holds the residue and whole tokens, and each refill adds at most the burst. */
  predicate TokensOk(s: Shared, ups: nat, cfg: Config)
    requires cfg.capacity >= 0
  {
    var d := Burst(cfg.capacity);
    && Residue(cfg.capacity) <= s.tokens <= cfg.capacity && s.tokens % NANO == Residue(cfg.capacity)
    && (forall i :: 0 <= i < |s.pcs| ==> AmountOk(s.pcs[i], d))
    && s.tokens + NANO * s.admitted + d * AllWaiting(s.pcs) <= cfg.capacity + d * ups
  }

  lemma FillTokens(s: Shared, t: nat, ups: nat, cfg: Config)
    requires cfg.capacity >= 0 && TokensOk(s, ups, cfg)
    requires t < |s.pcs| && s.pcs[t].RefillSwap? && s.tokens == s.pcs[t].seen
    ensures TokensOk(StepShared(s, t, SwapRefill, cfg), ups, cfg)
  {
    hide AllWaiting;
    WaitingUpdate(s.pcs, t, Consuming);
    CapacityParts(cfg.capacity);
    var d, w := Burst(cfg.capacity), AllWaiting(s.pcs);
    assert AmountOk(s.pcs[t], d);
    assert d * (w - 1) == d * w - d;
  }

  lemma SpendTokens(s: Shared, t: nat, ups: nat, cfg: Config)
    requires cfg.capacity >= 0 && TokensOk(s, ups, cfg)
    requires t < |s.pcs| && s.pcs[t].ConsumeSwap? && s.tokens == s.pcs[t].seen
    ensures TokensOk(StepShared(s, t, SwapConsume, cfg), ups, cfg)
  {
    hide AllWaiting;
    WaitingUpdate(s.pcs, t, Idle);
    CapacityParts(cfg.capacity);
    assert AmountOk(s.pcs[t], Burst(cfg.capacity));
  }

  /** Steps that change neither tokens nor the number of refills waiting. */
  lemma IdleTokens(s: Shared, t: nat, move: Move, ups: nat, cfg: Config)
    requires cfg.capacity >= 0 && TokensOk(s, ups, cfg) && t < |s.pcs| && !move.Enter?
    requires !(move.SwapRefill? && s.pcs[t].RefillSwap? && s.tokens == s.pcs[t].seen)
    requires !(move.SwapConsume? && s.pcs[t].ConsumeSwap? && s.tokens == s.pcs[t].seen)
    ensures TokensOk(StepShared(s, t, move, cfg), ups, cfg)
  {
    hide AllWaiting, Burst, Residue;
    WaitingUpdate(s.pcs, t, StepShared(s, t, move, cfg).pcs[t]);
    assert s.pcs[t := s.pcs[t]] == s.pcs;
    assert AmountOk(s.pcs[t], Burst(cfg.capacity));
  }

  lemma EnterTokens(s: Shared, t: nat, now: int, ups: nat, cfg: Config)
    requires cfg.capacity >= 0 && TokensOk(s, ups, cfg) && cfg.refill >= Burst(cfg.capacity)
    requires t < |s.pcs| && s.pcs[t].Idle?
    ensures TokensOk(StepShared(s, t, Enter(now), cfg), ups + if now > s.lastSeen then 1 else 0, cfg)
  {
    hide AllWaiting, Burst, Residue;
    var d, w := Burst(cfg.capacity), AllWaiting(s.pcs);
    WaitingUpdate(s.pcs, t, StepShared(s, t, Enter(now), cfg).pcs[t]);
    assert d * (w + 1) == d * w + d && d * (ups + 1) == d * ups + d;
    if now > s.lastSeen {
      AtLeastOnce(now - s.lastSeen, cfg.refill);
    }
  }

  lemma AtLeastOnce(elapsed: int, refill: nat)
    requires elapsed > 0
    ensures elapsed * refill >= refill
  {
    assert elapsed * refill == (elapsed - 1) * refill + refill && (elapsed - 1) * refill >= 0;
  }

  lemma StepTokens(c: Clocked, ups: nat, e: Event, cfg: Config)
    requires |c.held| == |c.s.pcs| && cfg.capacity >= 0 && TokensOk(c.s, ups, cfg) && cfg.refill >= Burst(cfg.capacity)
    ensures TokensOk(StepClocked(c, e, cfg).s, ups + Up(c, e), cfg)
  {
    hide TokensOk, StepShared;
    match e
    case Tick(_) =>
    case ReadClock(_) =>
    case SwapTime(t) =>
      if t < |c.held| && c.s.pcs[t].Idle? && c.held[t].Read? {
        EnterTokens(c.s, t, c.held[t].at, ups, cfg);
      }
    case Proceed(t, move) =>
      if t < |c.held| && !move.Enter? {
        if move.SwapRefill? && c.s.pcs[t].RefillSwap? && c.s.tokens == c.s.pcs[t].seen {
          FillTokens(c.s, t, ups, cfg);
        } else if move.SwapConsume? && c.s.pcs[t].ConsumeSwap? && c.s.tokens == c.s.pcs[t].seen {
          SpendTokens(c.s, t, ups, cfg);
        } else {
          IdleTokens(c.s, t, move, ups, cfg);
        }
      }
  }

  lemma {:induction false} RunCounts(cfg: Config, start: int, n: nat, es: seq<Event>) returns (ups: nat)
    requires cfg.capacity >= 0 && cfg.refill >= Burst(cfg.capacity) && Forward(es)
    ensures var c := RunClocked(Start(cfg, start, n), es, cfg);
            UpsOk(c, ups, start) && TokensOk(c.s, ups, cfg)
  {
    hide UpsOk, TokensOk, StepClocked, Up;
    if es == [] {
      ups := 0;
      StartCounts(cfg, start, n);
    } else {
      var front, e := es[..|es| - 1], es[|es| - 1];
      ups := RunCounts(cfg, start, n, front);
      var c := RunClocked(Start(cfg, start, n), front, cfg);
      StepUps(c, ups, e, start, cfg);
      StepTokens(c, ups, e, cfg);
      ups := ups + Up(c, e);
    }
  }

  lemma StartCounts(cfg: Config, start: int, n: nat)
    requires cfg.capacity >= 0
    ensures UpsOk(Start(cfg, start, n), 0, start) && TokensOk(Start(cfg, start, n).s, 0, cfg)
  {
    NoneWaiting(n);
    CapacityParts(cfg.capacity);
    NoneStale(n, start);
  }

  lemma {:induction false} NoneStale(n: nat, clock: int)
    ensures Stale(seq(n, _ => NoReading), clock) == 0
  {
    if n > 0 {
      NoneStale(n - 1, clock);
      assert seq(n, _ => NoReading)[1..] == seq(n - 1, _ => NoReading);
    }
  }

  /** If one nanosecond refills the burst of every thread, no interleaving exceeds the rate. */
  lemma LargeRefillKeeps(cfg: Config, start: int, n: nat, es: seq<Event>)
    requires cfg.capacity >= 0 && n >= 1 && n * Burst(cfg.capacity) <= cfg.refill && Forward(es)
    ensures WithinRate(RunClocked(Start(cfg, start, n), es, cfg), start, cfg)
  {
    hide RunClocked, Burst, Residue, Stale, AllWaiting;
    var d, c := Burst(cfg.capacity), RunClocked(Start(cfg, start, n), es, cfg);
    assert n * d == d + (n - 1) * d;
    var ups := RunCounts(cfg, start, n, es);
    Outweighs(d, ups, n, c.clock - start, c.clock - start, cfg.refill);
  }
}

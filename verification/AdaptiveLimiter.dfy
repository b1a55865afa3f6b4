/** AdaptiveConcurrencyLimiter: the Vegas update over reals, and the atomic steps of
    Acquire and Release under every interleaving.  Latency samples are inputs. */
module AdaptiveLimiter {

  datatype Config = Config(initial: int, minLimit: int, maxLimit: int)

  predicate Sane(cfg: Config) { 0 <= cfg.minLimit <= cfg.initial <= cfg.maxLimit }

  /** The fields the mutex guards; 0.0 means no sample yet. */
  datatype Estimate = Estimate(limit: int, noLoad: real, actual: real)

  function Smoothed(actual: real, rtt: real): real {
    if actual == 0.0 then rtt else 0.9 * actual + 0.1 * rtt
  }

  function Lowest(noLoad: real, rtt: real): real {
    if noLoad == 0.0 || rtt < noLoad then rtt else noLoad
  }

  predicate Sampled(e: Estimate) {
    (e.noLoad == 0.0 && e.actual == 0.0) || 0.0 < e.noLoad <= e.actual
  }

  /** The queue the update estimates from the new sample. */
  function Queue(limit: int, noLoad: real, actual: real): real
    requires actual != 0.0
  {
    limit as real - limit as real * (noLoad / actual)
  }

  lemma SamplesOrdered(e: Estimate, rtt: real)
    requires Sampled(e) && rtt > 0.0
    ensures 0.0 < Lowest(e.noLoad, rtt) <= Smoothed(e.actual, rtt)
  {
  }

  /** The estimated queue lies between 0 and the limit itself. */
  lemma QueueBelowLimit(limit: int, noLoad: real, actual: real)
    requires limit > 0 && 0.0 < noLoad <= actual
    ensures 0.0 <= Queue(limit, noLoad, actual) < limit as real
  {
    var ratio, l := noLoad / actual, limit as real;
    assert ratio * actual == noLoad;
    assert 0.0 < ratio <= 1.0;
    assert 0.0 < l * ratio <= l;
  }

  function Update(e: Estimate, rtt: real, cfg: Config): Estimate
    requires Sampled(e) && rtt > 0.0
  {
    SamplesOrdered(e, rtt);
    var noLoad, actual := Lowest(e.noLoad, rtt), Smoothed(e.actual, rtt);
    var queue := Queue(e.limit, noLoad, actual);
    var limit := if queue < 3.0 then (if e.limit < cfg.maxLimit then e.limit + 1 else e.limit)
                 else if queue > 6.0 then (if e.limit > cfg.minLimit then e.limit - 1 else e.limit)
                 else e.limit;
    Estimate(limit, noLoad, actual)
  }

  function Floor(cfg: Config): int { if cfg.initial < 6 then cfg.initial else 6 }

  predicate EstimateOk(e: Estimate, cfg: Config) {
    Sampled(e) && cfg.minLimit <= e.limit <= cfg.maxLimit && Floor(cfg) <= e.limit
  }

  /** An update keeps the limit between its bounds and above the smaller of its initial
      value and 6; below 3 it can only grow. */
  lemma UpdateKeeps(e: Estimate, rtt: real, cfg: Config)
    requires Sane(cfg) && EstimateOk(e, cfg) && rtt > 0.0
    ensures EstimateOk(Update(e, rtt, cfg), cfg)
    ensures e.limit <= 3 && e.limit < cfg.maxLimit ==> Update(e, rtt, cfg).limit == e.limit + 1
  {
    hide Queue, Lowest, Smoothed;
    SamplesOrdered(e, rtt);
    if e.limit > 0 {
      QueueBelowLimit(e.limit, Lowest(e.noLoad, rtt), Smoothed(e.actual, rtt));
    } else {
      ZeroQueue(Lowest(e.noLoad, rtt), Smoothed(e.actual, rtt));
    }
  }

  /** An update moves the limit by one at most: up exactly if less than 3 requests are
      estimated to queue, down exactly if more than 6 are, as far as the bounds allow.  What
      queues is the part of the limit by which the latency exceeds the lowest one seen. */
  lemma MovesExactly(e: Estimate, rtt: real, cfg: Config)
    requires Sampled(e) && rtt > 0.0
    ensures var u := Update(e, rtt, cfg);
            var excess := e.limit as real * (u.actual - u.noLoad);
            && e.limit - 1 <= u.limit <= e.limit + 1
            && (u.limit == e.limit + 1 <==> excess < 3.0 * u.actual && e.limit < cfg.maxLimit)
            && (u.limit == e.limit - 1 <==> excess > 6.0 * u.actual && e.limit > cfg.minLimit)
  {
    hide Queue, Lowest, Smoothed;
    SamplesOrdered(e, rtt);
    var low, now := Lowest(e.noLoad, rtt), Smoothed(e.actual, rtt);
    QueueScaled(e.limit, low, now);
    Scaled(Queue(e.limit, low, now), 3.0, now, e.limit as real * (now - low));
    Scaled(Queue(e.limit, low, now), 6.0, now, e.limit as real * (now - low));
  }

  lemma QueueScaled(limit: int, noLoad: real, actual: real)
    requires actual > 0.0
    ensures Queue(limit, noLoad, actual) * actual == limit as real * (actual - noLoad)
  {
    var l, ratio := limit as real, noLoad / actual;
    assert ratio * actual == noLoad;
    assert l * (ratio * actual) == (l * ratio) * actual;
    assert (l - l * ratio) * actual == l * actual - (l * ratio) * actual;
    assert l * (actual - noLoad) == l * actual - l * noLoad;
  }

  lemma Scaled(q: real, k: real, a: real, product: real)
    requires a > 0.0 && q * a == product
    ensures q < k <==> product < k * a
    ensures q > k <==> product > k * a
  {
    assert q < k ==> (k - q) * a > 0.0;
    assert q > k ==> (q - k) * a > 0.0;
  }

  predicate AllPositive(rtts: seq<real>) {
    forall i :: 0 <= i < |rtts| ==> rtts[i] > 0.0
  }

  /** The estimate after the samples `rtts`, from a limiter that has seen none. */
  function Sampling(limit: int, rtts: seq<real>, cfg: Config): (e: Estimate)
    requires AllPositive(rtts)
    ensures Sampled(e)
  {
    if rtts == [] then Estimate(limit, 0.0, 0.0)
    else
      var e, rtt := Sampling(limit, rtts[..|rtts| - 1], cfg), rtts[|rtts| - 1];
      SamplesOrdered(e, rtt);
      Update(e, rtt, cfg)
  }

  /** Nine parts of the average so far and one part of the newest sample. */
  function Average(rtts: seq<real>): real
    requires rtts != []
  {
    if |rtts| == 1 then rtts[0] else (9.0 * Average(rtts[..|rtts| - 1]) + rtts[|rtts| - 1]) / 10.0
  }

  /** Whatever the samples were, the unloaded latency is the least of them all and the
      current one their running average. */
  lemma {:induction false} WhatSamplesSay(limit: int, rtts: seq<real>, cfg: Config)
    requires rtts != [] && AllPositive(rtts)
    ensures var e := Sampling(limit, rtts, cfg);
            && e.noLoad in rtts && (forall i :: 0 <= i < |rtts| ==> e.noLoad <= rtts[i])
            && e.actual == Average(rtts)
  {
    hide Queue;
    if |rtts| > 1 {
      var before, last := rtts[..|rtts| - 1], rtts[|rtts| - 1];
      WhatSamplesSay(limit, before, cfg);
      var e := Sampling(limit, before, cfg);
      assert e.noLoad > 0.0;
      forall i | 0 <= i < |rtts| ensures Lowest(e.noLoad, last) <= rtts[i] {
        if i < |before| { assert before[i] == rtts[i]; }
      }
    } else {
      assert Sampling(limit, rtts[..0], cfg) == Estimate(limit, 0.0, 0.0);
    }
  }

  lemma ZeroQueue(noLoad: real, actual: real)
    requires actual != 0.0
    ensures Queue(0, noLoad, actual) == 0.0
  {
  }

  class Limiter {
    const cfg: Config
    var limit: int
    var noLoad: real
    var actual: real
    var active: int

    ghost function View(): Estimate
      reads this
    {
      Estimate(limit, noLoad, actual)
    }

    constructor (cfg: Config)
      ensures this.cfg == cfg && View() == Estimate(cfg.initial, 0.0, 0.0) && active == 0
    {
      this.cfg := cfg;
      limit, noLoad, actual, active := cfg.initial, 0.0, 0.0, 0;
    }

    method UpdateLimit(rtt: real)
      requires Sampled(View()) && rtt > 0.0
      modifies this
      ensures View() == Update(old(View()), rtt, cfg) && active == old(active)
    {
      SamplesOrdered(View(), rtt);
      if noLoad == 0.0 || rtt < noLoad {
        noLoad := rtt;
      }
      if actual == 0.0 {
        actual := rtt;
      } else {
        actual := 0.9 * actual + 0.1 * rtt;
      }
      var expected := limit as real * (noLoad / actual);
      var queue := limit as real - expected;
      if queue < 3.0 {
        if limit < cfg.maxLimit {
          limit := limit + 1;
        }
      } else if queue > 6.0 {
        if limit > cfg.minLimit {
          limit := limit - 1;
        }
      }
    }
  }

  // ------------------------------------------------------------ every interleaving

  /** A thread: outside, after loading the active count, after loading the limit too,
      holding a slot, or released and about to update the limit. */
  datatype Pc = Out | SawActive(active: int) | SawBoth(active: int, limit: int) | Holding | Updating(rtt: real)

  datatype Shared = Shared(e: Estimate, active: int, pcs: seq<Pc>)

  datatype Move = LoadActive | LoadLimit | Swap | Release(rtt: real) | Adjust

  predicate Enabled(s: Shared, t: nat, move: Move) {
    t < |s.pcs| &&
    match move
    case LoadActive => s.pcs[t].Out?
    case LoadLimit => s.pcs[t].SawActive?
    case Swap => s.pcs[t].SawBoth?
    case Release(rtt) => s.pcs[t].Holding? && rtt > 0.0
    case Adjust => s.pcs[t].Updating?
  }

  /** The atomic step `move` of thread `t`; a step that is not enabled does nothing. */
  function Step(s: Shared, t: nat, move: Move, cfg: Config): Shared {
    if !Enabled(s, t, move) || (move.Adjust? && !(Sampled(s.e) && s.pcs[t].rtt > 0.0)) then s
    else
    match move
    case LoadActive => s.(pcs := s.pcs[t := SawActive(s.active)])
    case LoadLimit =>
      var a := s.pcs[t].active;
      s.(pcs := s.pcs[t := if a >= s.e.limit then Out else SawBoth(a, s.e.limit)])
    case Swap =>
      if s.active == s.pcs[t].active then s.(active := s.active + 1, pcs := s.pcs[t := Holding])
      else s.(pcs := s.pcs[t := Out])
    case Release(rtt) => s.(active := s.active - 1, pcs := s.pcs[t := Updating(rtt)])
    case Adjust => s.(e := Update(s.e, s.pcs[t].rtt, cfg), pcs := s.pcs[t := Out])
  }

  function Held(pcs: seq<Pc>): nat {
    if pcs == [] then 0 else (if pcs[0].Holding? then 1 else 0) + Held(pcs[1..])
  }

  lemma {:induction false} HeldUpdate(pcs: seq<Pc>, t: nat, pc: Pc)
    requires t < |pcs|
    ensures Held(pcs[t := pc])
         == Held(pcs) - (if pcs[t].Holding? then 1 else 0) + (if pc.Holding? then 1 else 0)
  {
    if t == 0 {
      assert pcs[0 := pc][1..] == pcs[1..];
    } else {
      HeldUpdate(pcs[1..], t - 1, pc);
      assert pcs[t := pc][1..] == pcs[1..][t - 1 := pc];
    }
  }

  predicate PcOk(pc: Pc, cfg: Config) {
    match pc
    case SawBoth(a, l) => a < l <= cfg.maxLimit
    case Updating(rtt) => rtt > 0.0
    case _ => true
  }

  /** The limit is within bounds, and the active count is the number of slots held and at
      most the maximum. */
  predicate Inv(s: Shared, cfg: Config) {
    && EstimateOk(s.e, cfg)
    && s.active == Held(s.pcs) && s.active <= cfg.maxLimit
    && forall i :: 0 <= i < |s.pcs| ==> PcOk(s.pcs[i], cfg)
  }

  lemma StepKeeps(s: Shared, t: nat, move: Move, cfg: Config)
    requires Sane(cfg) && Inv(s, cfg)
    ensures Inv(Step(s, t, move, cfg), cfg)
  {
    hide Update, EstimateOk, Held;
    OkIsSampled(s.e, cfg);
    if Enabled(s, t, move) {
      assert PcOk(s.pcs[t], cfg);
      HeldUpdate(s.pcs, t, Step(s, t, move, cfg).pcs[t]);
      if move.Adjust? {
        UpdateKeeps(s.e, s.pcs[t].rtt, cfg);
      }
    }
  }

  lemma OkIsSampled(e: Estimate, cfg: Config)
    requires EstimateOk(e, cfg)
    ensures Sampled(e) && e.limit <= cfg.maxLimit
  {
  }

  datatype Act = Act(thread: nat, move: Move)

  function Run(s: Shared, acts: seq<Act>, cfg: Config): Shared {
    if acts == [] then s
    else Step(Run(s, acts[..|acts| - 1], cfg), acts[|acts| - 1].thread, acts[|acts| - 1].move, cfg)
  }

  function Threads(cfg: Config, n: nat): Shared {
    Shared(Estimate(cfg.initial, 0.0, 0.0), 0, seq(n, _ => Out))
  }

  lemma {:induction false} NoneHeld(n: nat)
    ensures Held(seq(n, _ => Out)) == 0
  {
    if n > 0 {
      NoneHeld(n - 1);
      assert seq(n, _ => Out)[1..] == seq(n - 1, _ => Out);
    }
  }

  /** Every state reached by any number of threads in any interleaving has its limit in
      [minLimit, maxLimit] and at least min(initial, 6), and between 0 and maxLimit active
      requests. */
  lemma {:induction false} EveryInterleaving(cfg: Config, n: nat, acts: seq<Act>)
    requires Sane(cfg)
    ensures var r := Run(Threads(cfg, n), acts, cfg);
            && Inv(r, cfg) && 0 <= r.active <= cfg.maxLimit
            && cfg.minLimit <= r.e.limit <= cfg.maxLimit && Floor(cfg) <= r.e.limit
  {
    if acts == [] {
      NoneHeld(n);
    } else {
      EveryInterleaving(cfg, n, acts[..|acts| - 1]);
      StepKeeps(Run(Threads(cfg, n), acts[..|acts| - 1], cfg), acts[|acts| - 1].thread, acts[|acts| - 1].move, cfg);
    }
  }

  /** The sample that a step takes in, if it is an Adjust step that can happen. */
  function SampleOf(s: Shared, act: Act): seq<real> {
    if act.move.Adjust? && Enabled(s, act.thread, act.move) then [s.pcs[act.thread].rtt] else []
  }

  /** The samples that the steps of a run have taken in, in that order. */
  function Samples(s: Shared, acts: seq<Act>, cfg: Config): seq<real> {
    if acts == [] then []
    else Samples(s, acts[..|acts| - 1], cfg) + SampleOf(Run(s, acts[..|acts| - 1], cfg), acts[|acts| - 1])
  }

  lemma StepSamples(s: Shared, act: Act, limit: int, rtts: seq<real>, cfg: Config)
    requires Inv(s, cfg) && AllPositive(rtts) && s.e == Sampling(limit, rtts, cfg)
    ensures AllPositive(rtts + SampleOf(s, act))
    ensures Step(s, act.thread, act.move, cfg).e == Sampling(limit, rtts + SampleOf(s, act), cfg)
  {
    hide Update, EstimateOk, Held;
    var more := rtts + SampleOf(s, act);
    if act.move.Adjust? && Enabled(s, act.thread, act.move) {
      assert PcOk(s.pcs[act.thread], cfg);
      assert more[..|more| - 1] == rtts;
    } else {
      assert more == rtts;
    }
  }

  /** In every interleaving the estimate is that of the samples taken in so far. */
  lemma {:induction false} EstimateOfRun(cfg: Config, n: nat, acts: seq<Act>)
    requires Sane(cfg)
    ensures AllPositive(Samples(Threads(cfg, n), acts, cfg))
    ensures Run(Threads(cfg, n), acts, cfg).e == Sampling(cfg.initial, Samples(Threads(cfg, n), acts, cfg), cfg)
  {
    hide Step, Inv, Sampling, SampleOf, Enabled;
    if acts == [] {
      assert Sampling(cfg.initial, [], cfg) == Threads(cfg, n).e by { NoSamples(cfg, n); }
    } else {
      var start, before, act := Threads(cfg, n), acts[..|acts| - 1], acts[|acts| - 1];
      EstimateOfRun(cfg, n, before);
      EveryInterleaving(cfg, n, before);
      StepSamples(Run(start, before, cfg), act, cfg.initial, Samples(start, before, cfg), cfg);
    }
  }

  lemma NoSamples(cfg: Config, n: nat)
    ensures Sampling(cfg.initial, [], cfg) == Threads(cfg, n).e
  {
  }

  /** A thread that loads, compares and swaps with no other step in between takes a slot
      exactly if one is free. */
  lemma AcquiresExactly(s: Shared, t: nat, cfg: Config)
    requires t < |s.pcs| && s.pcs[t].Out?
    ensures var r := Run(s, [Act(t, LoadActive), Act(t, LoadLimit), Act(t, Swap)], cfg);
            if s.active < s.e.limit then r == Shared(s.e, s.active + 1, s.pcs[t := Holding]) else r == s
  {
    var a, b, c := Act(t, LoadActive), Act(t, LoadLimit), Act(t, Swap);
    assert [a, b, c][..2] == [a, b] && [a, b][..1] == [a] && [a][..0] == [];
    assert Run(s, [a], cfg) == Step(s, t, LoadActive, cfg);
    assert Run(s, [a, b], cfg) == Step(Run(s, [a], cfg), t, LoadLimit, cfg);
  }
}

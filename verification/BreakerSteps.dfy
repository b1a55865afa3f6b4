/** CircuitBreaker under every interleaving: each load, swap, add and store of a call is a step
    of its own. */
module BreakerSteps {
  import opened CircuitBreaker

  /** Where a thread stands inside a call: about to load the time of the opening, to swap open
      for half-open, to clear the successes; to add a success, to store closed, to clear the
      failures; to swap closed or half-open for open, or to store the time of the opening. */
  datatype Pc = Idle
              | LoadTime(now: int) | SwapHalfOpen | ClearSuccesses
              | AddSuccess | StoreClosed | ClearFailures
              | TripClosed(now: int) | TripHalfOpen(now: int) | StoreTime(now: int)

  datatype Shared = Shared(b: Fields, pcs: seq<Pc>)

  /** The first step of a call, or the next one of the call a thread is in. */
  datatype Move = Begin(e: Event) | Go

  function Begun(b: Fields, e: Event, cfg: Config): (Fields, Pc) {
    match e
    case Allow(now) => (b, if b.state.Open? then LoadTime(now) else Idle)
    case Success => (b, if b.state.HalfOpen? then AddSuccess else if b.state.Closed? then ClearFailures else Idle)
    case Failure(now) =>
      (b.(failures := b.failures + 1), if b.failures + 1 >= cfg.maxFailures then TripClosed(now) else Idle)
    case ForceClose => (b.(state := Closed), ClearFailures)
    case ForceOpen(now) => (b.(state := Open), StoreTime(now))
  }

  function Continued(b: Fields, pc: Pc, cfg: Config): (Fields, Pc) {
    match pc
    case Idle => (b, Idle)
    case LoadTime(now) => (b, if now - b.openedAt >= cfg.openTimeout then SwapHalfOpen else Idle)
    case SwapHalfOpen => if b.state.Open? then (b.(state := HalfOpen), ClearSuccesses) else (b, Idle)
    case ClearSuccesses => (b.(successes := 0), Idle)
    case AddSuccess =>
      (b.(successes := b.successes + 1), if b.successes + 1 >= cfg.halfOpenProbes then StoreClosed else Idle)
    case StoreClosed => (b.(state := Closed), ClearFailures)
    case ClearFailures => (b.(failures := 0), Idle)
    case TripClosed(now) => if b.state.Closed? then (b.(state := Open), StoreTime(now)) else (b, TripHalfOpen(now))
    case TripHalfOpen(now) => if b.state.HalfOpen? then (b.(state := Open), StoreTime(now)) else (b, Idle)
    case StoreTime(now) => (b.(openedAt := now), Idle)
  }

  function Step1(s: Shared, t: nat, move: Move, cfg: Config): Shared
    requires t < |s.pcs|
  {
    match move
    case Begin(e) =>
      if s.pcs[t].Idle? then
        var r := Begun(s.b, e, cfg);
        Shared(r.0, s.pcs[t := r.1])
      else s
    case Go =>
      var r := Continued(s.b, s.pcs[t], cfg);
      Shared(r.0, s.pcs[t := r.1])
  }

  datatype Act = Act(thread: nat, move: Move)

  function RunSteps(s: Shared, acts: seq<Act>, cfg: Config): (r: Shared)
    ensures |r.pcs| == |s.pcs|
  {
    if acts == [] then s
    else
      var r, a := RunSteps(s, acts[..|acts| - 1], cfg), acts[|acts| - 1];
      if a.thread < |r.pcs| then Step1(r, a.thread, a.move, cfg) else r
  }

  function Threads(n: nat): Shared { Shared(FRESH, seq(n, _ => Idle)) }

  // ------------------------------------------------------------ calls one at a time

  /** The steps of a call from its beginning to its end; a call has at most four. */
  function WholeCall(b: Fields, e: Event, cfg: Config): (Fields, Pc) {
    var s1 := Begun(b, e, cfg);
    var s2 := Continued(s1.0, s1.1, cfg);
    var s3 := Continued(s2.0, s2.1, cfg);
    Continued(s3.0, s3.1, cfg)
  }

  /** Without another thread in between, the steps of a call do what the call does. */
  lemma CallIsStep(b: Fields, e: Event, cfg: Config)
    ensures WholeCall(b, e, cfg) == (Step(b, e, cfg), Idle)
  {
  }

  function CallActs(t: nat, e: Event): seq<Act> { [Act(t, Begin(e)), Act(t, Go), Act(t, Go), Act(t, Go)] }

  lemma RunOne(s: Shared, acts: seq<Act>, a: Act, cfg: Config)
    requires a.thread < |s.pcs|
    ensures RunSteps(s, acts + [a], cfg) == Step1(RunSteps(s, acts, cfg), a.thread, a.move, cfg)
  {
    assert (acts + [a])[..|acts|] == acts;
  }

  lemma CallRuns(s: Shared, acts: seq<Act>, t: nat, e: Event, cfg: Config)
    requires t < |s.pcs| && RunSteps(s, acts, cfg).pcs[t] == Idle
    ensures var r := RunSteps(s, acts, cfg);
            RunSteps(s, acts + CallActs(t, e), cfg) == Shared(Step(r.b, e, cfg), r.pcs)
  {
    hide RunSteps, Step, Begun, Continued;
    var r := RunSteps(s, acts, cfg);
    var a1 := acts + [Act(t, Begin(e))];
    var a2 := a1 + [Act(t, Go)];
    var a3 := a2 + [Act(t, Go)];
    assert acts + CallActs(t, e) == a3 + [Act(t, Go)];
    RunOne(s, acts, Act(t, Begin(e)), cfg);
    RunOne(s, a1, Act(t, Go), cfg);
    RunOne(s, a2, Act(t, Go), cfg);
    RunOne(s, a3, Act(t, Go), cfg);
    CallIsStep(r.b, e, cfg);
    assert r.pcs[t := Idle] == r.pcs;
  }

  function Sequentially(t: nat, es: seq<Event>): seq<Act> {
    if es == [] then [] else Sequentially(t, es[..|es| - 1]) + CallActs(t, es[|es| - 1])
  }

  /** Calls made one after the other give the run of the sequential breaker. */
  lemma {:induction false} SequentialRuns(n: nat, t: nat, es: seq<Event>, cfg: Config)
    requires t < n
    ensures RunSteps(Threads(n), Sequentially(t, es), cfg) == Shared(Run(FRESH, es, cfg), Threads(n).pcs)
  {
    hide RunSteps, Step, CallActs;
    if es == [] {
      NoSteps(Threads(n), cfg);
    } else {
      SequentialRuns(n, t, es[..|es| - 1], cfg);
      CallRuns(Threads(n), Sequentially(t, es[..|es| - 1]), t, es[|es| - 1], cfg);
    }
  }

  lemma NoSteps(s: Shared, cfg: Config)
    ensures RunSteps(s, [], cfg) == s
  {
  }

  // --------------------------------------------------------------- calls that overlap

  /** Not closed, and with fewer failures counted than it takes to open the breaker. */
  predicate Low(s: Shared, cfg: Config) { !s.b.state.Closed? && s.b.failures < cfg.maxFailures }

  /** A call that found the breaker closed, or closed it, clears the failures of a breaker that
      has been opened since. */
  predicate LateClear(s: Shared, a: Act)
    requires a.thread < |s.pcs|
  {
    a.move.Go? && s.pcs[a.thread].ClearFailures? && !s.b.state.Closed?
  }

  /** A call that counted enough failures opens the breaker after they have been cleared. */
  predicate LateTrip(s: Shared, a: Act, cfg: Config)
    requires a.thread < |s.pcs|
  {
    && a.move.Go? && s.b.failures < cfg.maxFailures
    && ((s.pcs[a.thread].TripClosed? && s.b.state.Closed?) || (s.pcs[a.thread].TripHalfOpen? && s.b.state.HalfOpen?))
  }

  predicate Late(s: Shared, a: Act, cfg: Config) {
    a.thread < |s.pcs| && (LateClear(s, a) || LateTrip(s, a, cfg))
  }

  predicate Unforced(acts: seq<Act>) {
    forall i :: 0 <= i < |acts| ==> !(acts[i].move.Begin? && acts[i].move.e.ForceOpen?)
  }

  lemma StepLow(s: Shared, a: Act, cfg: Config)
    requires Sane(cfg) && a.thread < |s.pcs| && !(a.move.Begin? && a.move.e.ForceOpen?)
    ensures var s' := Step1(s, a.thread, a.move, cfg);
            && (Late(s, a, cfg) ==> Low(s', cfg))
            && (!Late(s, a, cfg) && !Low(s, cfg) ==> !Low(s', cfg))
  {
  }

  ghost predicate EverLow(s: Shared, acts: seq<Act>, cfg: Config) {
    exists n :: 0 <= n <= |acts| && Low(RunSteps(s, acts[..n], cfg), cfg)
  }

  ghost predicate EverLate(s: Shared, acts: seq<Act>, cfg: Config) {
    exists n :: 0 <= n < |acts| && Late(RunSteps(s, acts[..n], cfg), acts[n], cfg)
  }

  lemma EverPrefix(s: Shared, acts: seq<Act>, cfg: Config)
    requires acts != []
    ensures var front := acts[..|acts| - 1];
            && (EverLow(s, acts, cfg) <==> EverLow(s, front, cfg) || Low(RunSteps(s, acts, cfg), cfg))
            && (EverLate(s, acts, cfg)
                <==> EverLate(s, front, cfg) || Late(RunSteps(s, front, cfg), acts[|acts| - 1], cfg))
  {
    hide RunSteps, Low, Late;
    var front := acts[..|acts| - 1];
    assert acts[..|acts|] == acts && forall n :: 0 <= n <= |front| ==> front[..n] == acts[..n];
    if Low(RunSteps(s, acts, cfg), cfg) {
      assert Low(RunSteps(s, acts[..|acts|], cfg), cfg);
    }
    if Late(RunSteps(s, front, cfg), acts[|acts| - 1], cfg) {
      assert Late(RunSteps(s, acts[..|front|], cfg), acts[|front|], cfg);
    }
    if EverLow(s, front, cfg) {
      var n :| 0 <= n <= |front| && Low(RunSteps(s, front[..n], cfg), cfg);
      assert Low(RunSteps(s, acts[..n], cfg), cfg);
    }
    if EverLate(s, front, cfg) {
      var n :| 0 <= n < |front| && Late(RunSteps(s, front[..n], cfg), front[n], cfg);
      assert Late(RunSteps(s, acts[..n], cfg), acts[n], cfg);
    }
  }

  lemma NeverAtStart(n: nat, cfg: Config)
    ensures !EverLow(Threads(n), [], cfg) && !EverLate(Threads(n), [], cfg)
  {
    var none: seq<Act> := [];
    assert none[..0] == none;
  }

  lemma LowNow(s: Shared, acts: seq<Act>, cfg: Config)
    requires Low(RunSteps(s, acts, cfg), cfg)
    ensures EverLow(s, acts, cfg)
  {
    assert acts[..|acts|] == acts;
  }

  /** In every interleaving without ForceOpen: the breaker is ever found unclosed with too few
      failures counted if and only if some call clears the failures of a breaker opened
      meanwhile, or opens it by failures cleared meanwhile. */
  lemma {:induction false} LowExactly(n: nat, acts: seq<Act>, cfg: Config)
    requires Sane(cfg) && Unforced(acts)
    ensures EverLow(Threads(n), acts, cfg) <==> EverLate(Threads(n), acts, cfg)
  {
    hide Low, Late, EverLow, EverLate, Step1;
    if acts == [] {
      NeverAtStart(n, cfg);
    } else {
      var front, a := acts[..|acts| - 1], acts[|acts| - 1];
      LowExactly(n, front, cfg);
      EverPrefix(Threads(n), acts, cfg);
      var r := RunSteps(Threads(n), front, cfg);
      if a.thread < |r.pcs| {
        StepLow(r, a, cfg);
      } else {
        NotLate(r, a, cfg);
      }
      if Low(r, cfg) {
        LowNow(Threads(n), front, cfg);
      }
    }
  }

  lemma NotLate(s: Shared, a: Act, cfg: Config)
    requires a.thread >= |s.pcs|
    ensures !Late(s, a, cfg)
  {
  }

  // ----------------------------------------------------------- how many threads

  /** What holds between the steps of a single thread. */
  predicate Alone(s: Shared, cfg: Config) {
    && |s.pcs| == 1 && !Low(s, cfg)
    && (s.pcs[0].ClearFailures? ==> s.b.state.Closed?)
    && (s.pcs[0].TripClosed? || s.pcs[0].TripHalfOpen? ==> s.b.failures >= cfg.maxFailures)
  }

  lemma {:induction false} AloneStays(acts: seq<Act>, cfg: Config)
    requires Sane(cfg) && Unforced(acts)
    ensures Alone(RunSteps(Threads(1), acts, cfg), cfg)
  {
    hide Step1;
    if acts != [] {
      var front, a := acts[..|acts| - 1], acts[|acts| - 1];
      AloneStays(front, cfg);
      if a.thread == 0 { AloneSteps(RunSteps(Threads(1), front, cfg), a.move, cfg); }
    }
  }

  lemma AloneSteps(s: Shared, move: Move, cfg: Config)
    requires Sane(cfg) && Alone(s, cfg) && !(move.Begin? && move.e.ForceOpen?)
    ensures Alone(Step1(s, 0, move, cfg), cfg)
  {
  }

  lemma {:induction false} NobodyThere(acts: seq<Act>, cfg: Config)
    ensures RunSteps(Threads(0), acts, cfg) == Threads(0)
  {
    if acts != [] {
      NobodyThere(acts[..|acts| - 1], cfg);
    }
  }

  /** No run of `n` threads without ForceOpen finds the breaker unclosed with too few failures
      counted. */
  ghost predicate NeverLow(n: nat, cfg: Config) {
    forall acts | Unforced(acts) :: !Low(RunSteps(Threads(n), acts, cfg), cfg)
  }

  function Failing(k: nat): seq<Event> {
    if k == 0 then [] else Failing(k - 1) + [Failure(0)]
  }

  lemma {:induction false} FailuresCount(k: nat, cfg: Config)
    requires Sane(cfg) && k <= cfg.maxFailures
    ensures Run(FRESH, Failing(k), cfg) == Fields(if k < cfg.maxFailures then Closed else Open, k, 0, 0)
  {
    if k > 0 {
      FailuresCount(k - 1, cfg);
      assert Failing(k)[..|Failing(k)| - 1] == Failing(k - 1);
    }
  }

  /** The first thread has found the breaker closed and is about to clear the failures, while
      the second one makes the calls. */
  lemma {:induction false} CallsMeanwhile(n: nat, es: seq<Event>, cfg: Config) returns (acts: seq<Act>)
    requires n >= 2 && forall i :: 0 <= i < |es| ==> !es[i].ForceOpen?
    ensures Unforced(acts)
    ensures RunSteps(Threads(n), acts, cfg) == Shared(Run(FRESH, es, cfg), Threads(n).pcs[0 := ClearFailures])
    decreases |es|
  {
    hide RunSteps, Step;
    if es == [] {
      NoSteps(Threads(n), cfg);
      RunOne(Threads(n), [], Act(0, Begin(Success)), cfg);
      acts := [] + [Act(0, Begin(Success))];
    } else {
      var front, e := es[..|es| - 1], es[|es| - 1];
      var before := CallsMeanwhile(n, front, cfg);
      CallRuns(Threads(n), before, 1, e, cfg);
      acts := before + CallActs(1, e);
    }
  }

  /** Two threads: as many failures as open the breaker, and the first thread clears them. */
  lemma ClearedMeanwhile(n: nat, cfg: Config) returns (acts: seq<Act>)
    requires Sane(cfg) && n >= 2
    ensures Unforced(acts) && Low(RunSteps(Threads(n), acts, cfg), cfg)
  {
    hide RunSteps, Run;
    FailuresCount(cfg.maxFailures, cfg);
    OnlyFailures(cfg.maxFailures);
    acts := CallsMeanwhile(n, Failing(cfg.maxFailures), cfg);
    RunOne(Threads(n), acts, Act(0, Go), cfg);
    acts := acts + [Act(0, Go)];
  }

  lemma {:induction false} OnlyFailures(k: nat)
    ensures forall i :: 0 <= i < |Failing(k)| ==> Failing(k)[i] == Failure(0)
  {
    if k > 0 {
      OnlyFailures(k - 1);
    }
  }

  /** For every configuration: without ForceOpen the breaker is never unclosed with too few
      failures counted if and only if at most one thread uses it. */
  lemma OneThreadExactly(n: nat, cfg: Config)
    requires Sane(cfg)
    ensures NeverLow(n, cfg) <==> n <= 1
  {
    hide RunSteps;
    if n <= 1 {
      forall acts | Unforced(acts)
        ensures !Low(RunSteps(Threads(n), acts, cfg), cfg)
      {
        if n == 0 { NobodyThere(acts, cfg); } else { AloneStays(acts, cfg); }
      }
    } else {
      var acts := ClearedMeanwhile(n, cfg);
    }
  }

  // ------------------------------------------------------------------ such a run

  const TWO: Config := Config(2, 10, 1)

  predicate Reaches(acts: seq<Act>, s: Shared) { RunSteps(Threads(2), acts, TWO) == s }

  lemma Then(acts: seq<Act>, a: Act, s: Shared, s': Shared)
    requires Reaches(acts, s) && a.thread < |s.pcs| && Step1(s, a.thread, a.move, TWO) == s'
    ensures Reaches(acts + [a], s')
  {
    assert (acts + [a])[..|acts|] == acts;
  }

  lemma ThenCall(acts: seq<Act>, e: Event, s: Shared)
    requires Reaches(acts, s) && |s.pcs| == 2 && s.pcs[1] == Idle
    ensures Reaches(acts + CallActs(1, e), Shared(Step(s.b, e, TWO), s.pcs))
  {
    hide RunSteps, Step, CallActs;
    CallRuns(Threads(2), acts, 1, e, TWO);
  }

  /** A success that found the breaker closed clears its failures after two failures have
      opened it; after the timeout a half-open failure then leaves it half-open, although
      nothing was forced. */
  lemma SuccessAcrossTrip() returns (acts: seq<Act>)
    ensures Unforced(acts)
    ensures Reaches(acts, Shared(Fields(HalfOpen, 1, 0, 1), [Idle, Idle]))
  {
    hide RunSteps;
    var pcs := [ClearFailures, Idle];
    var s0, s1 := Shared(FRESH, [Idle, Idle]), Shared(FRESH, pcs);
    assert Threads(2) == s0;
    NoSteps(Threads(2), TWO);
    Then([], Act(0, Begin(Success)), s0, s1);
    acts := [] + [Act(0, Begin(Success))];
    ThenCall(acts, Failure(0), s1);
    acts := acts + CallActs(1, Failure(0));
    ThenCall(acts, Failure(1), Shared(Fields(Closed, 1, 0, 0), pcs));
    acts := acts + CallActs(1, Failure(1));
    Then(acts, Act(0, Go), Shared(Fields(Open, 2, 0, 1), pcs), Shared(Fields(Open, 0, 0, 1), [Idle, Idle]));
    acts := acts + [Act(0, Go)];
    ThenCall(acts, Allow(11), Shared(Fields(Open, 0, 0, 1), [Idle, Idle]));
    acts := acts + CallActs(1, Allow(11));
    ThenCall(acts, Failure(12), Shared(Fields(HalfOpen, 0, 0, 1), [Idle, Idle]));
    acts := acts + CallActs(1, Failure(12));
  }
}

/** CircuitBreaker: three atomic counters and a state, used sequentially, and the simple
    three-state machine it refines.  The clock is an argument. */
module CircuitBreaker {

  datatype CircuitState = Closed | Open | HalfOpen

  datatype Config = Config(maxFailures: int, openTimeout: int, halfOpenProbes: int)

  datatype Event = Allow(now: int) | Success | Failure(now: int) | ForceClose | ForceOpen(now: int)

  /** The fields of the breaker. */
  datatype Fields = Fields(state: CircuitState, failures: int, successes: int, openedAt: int)

  const FRESH: Fields := Fields(Closed, 0, 0, 0)

  /** One call, on the fields. */
  function Step(b: Fields, e: Event, cfg: Config): Fields {
    match e
    case Allow(now) =>
      if b.state.Open? && now - b.openedAt >= cfg.openTimeout then b.(state := HalfOpen, successes := 0) else b
    case Success =>
      if b.state.HalfOpen? then
        if b.successes + 1 >= cfg.halfOpenProbes then b.(successes := b.successes + 1, state := Closed, failures := 0)
        else b.(successes := b.successes + 1)
      else if b.state.Closed? then b.(failures := 0)
      else b
    case Failure(now) =>
      var f := b.failures + 1;
      if f >= cfg.maxFailures && !b.state.Open? then b.(failures := f, state := Open, openedAt := now)
      else b.(failures := f)
    case ForceClose => b.(state := Closed, failures := 0)
    case ForceOpen(now) => b.(state := Open, openedAt := now)
  }

  /** What Allow answers. */
  predicate Allowed(b: Fields, now: int, cfg: Config) {
    !b.state.Open? || now - b.openedAt >= cfg.openTimeout
  }

  class Breaker {
    const cfg: Config
    var state: CircuitState
    var failures: int
    var successes: int
    var lastOpenTime: int

    ghost function View(): Fields
      reads this
    {
      Fields(state, failures, successes, lastOpenTime)
    }

    constructor (cfg: Config)
      ensures this.cfg == cfg && View() == FRESH
    {
      this.cfg := cfg;
      state, failures, successes, lastOpenTime := Closed, 0, 0, 0;
    }

    method AllowCall(now: int) returns (ok: bool)
      modifies this
      ensures View() == Step(old(View()), Allow(now), cfg) && ok == Allowed(old(View()), now, cfg)
    {
      match state {
        case Closed => return true;
        case Open =>
          if now - lastOpenTime >= cfg.openTimeout {
            state := HalfOpen;
            successes := 0;
            return true;
          }
          return false;
        case HalfOpen => return true;
      }
    }

    method RecordSuccess()
      modifies this
      ensures View() == Step(old(View()), Success, cfg)
    {
      match state {
        case HalfOpen =>
          successes := successes + 1;
          if successes >= cfg.halfOpenProbes {
            state := Closed;
            failures := 0;
          }
        case Closed => failures := 0;
        case Open =>
      }
    }

    method RecordFailure(now: int)
      modifies this
      ensures View() == Step(old(View()), Failure(now), cfg)
    {
      failures := failures + 1;
      if failures >= cfg.maxFailures {
        if state == Closed || state == HalfOpen {
          state := Open;
          lastOpenTime := now;
        }
      }
    }

    method ForceOpenAt(now: int)
      modifies this
      ensures View() == Step(old(View()), ForceOpen(now), cfg)
    {
      state := Open;
      lastOpenTime := now;
    }

    method ForceClosed()
      modifies this
      ensures View() == Step(old(View()), ForceClose, cfg)
    {
      state := Closed;
      failures := 0;
    }
  }

  // --------------------------------------------------------------- reference machine

  /** Closed after `streak` consecutive failures, open since a moment, or probing with a
      number of successes so far. */
  datatype Machine = Closed_(streak: nat) | Open_(since: int) | Probing(successes: nat)

  function MachineStep(m: Machine, e: Event, cfg: Config): Machine {
    match m
    case Closed_(k) =>
      (match e
       case Failure(now) => if k + 1 == cfg.maxFailures then Open_(now) else Closed_(k + 1)
       case Success => Closed_(0)
       case ForceClose => Closed_(0)
       case ForceOpen(now) => Open_(now)
       case Allow(_) => m)
    case Open_(since) =>
      (match e
       case Allow(now) => if now - since >= cfg.openTimeout then Probing(0) else m
       case ForceClose => Closed_(0)
       case ForceOpen(now) => Open_(now)
       case _ => m)
    case Probing(p) =>
      (match e
       case Failure(now) => Open_(now)
       case Success => if p + 1 == cfg.halfOpenProbes then Closed_(0) else Probing(p + 1)
       case ForceClose => Closed_(0)
       case ForceOpen(now) => Open_(now)
       case Allow(_) => m)
  }

  predicate Sane(cfg: Config) { cfg.maxFailures >= 1 && cfg.halfOpenProbes >= 1 }

  predicate Refines(b: Fields, m: Machine, cfg: Config) {
    match m
    case Closed_(k) => b.state.Closed? && b.failures == k < cfg.maxFailures
    case Open_(since) => b.state.Open? && b.openedAt == since && b.failures >= cfg.maxFailures
    case Probing(p) => b.state.HalfOpen? && b.successes == p < cfg.halfOpenProbes && b.failures >= cfg.maxFailures
  }

  lemma StepRefines(b: Fields, m: Machine, e: Event, cfg: Config)
    requires Sane(cfg) && Refines(b, m, cfg) && !e.ForceOpen?
    ensures Refines(Step(b, e, cfg), MachineStep(m, e, cfg), cfg)
  {
  }

  function Run(b: Fields, es: seq<Event>, cfg: Config): Fields {
    if es == [] then b else Step(Run(b, es[..|es| - 1], cfg), es[|es| - 1], cfg)
  }

  function MachineRun(m: Machine, es: seq<Event>, cfg: Config): Machine {
    if es == [] then m else MachineStep(MachineRun(m, es[..|es| - 1], cfg), es[|es| - 1], cfg)
  }

  predicate NeverForcedOpen(es: seq<Event>) { forall i :: 0 <= i < |es| ==> !es[i].ForceOpen? }

  /** In every run without ForceOpen the breaker follows the reference machine; so it is
      closed exactly while its failure count is below the limit. */
  lemma {:induction false} RunRefines(es: seq<Event>, cfg: Config)
    requires Sane(cfg) && NeverForcedOpen(es)
    ensures Refines(Run(FRESH, es, cfg), MachineRun(Closed_(0), es, cfg), cfg)
    ensures Run(FRESH, es, cfg).state.Closed? <==> Run(FRESH, es, cfg).failures < cfg.maxFailures
  {
    if es != [] {
      RunRefines(es[..|es| - 1], cfg);
      StepRefines(Run(FRESH, es[..|es| - 1], cfg), MachineRun(Closed_(0), es[..|es| - 1], cfg), es[|es| - 1], cfg);
    }
  }

  /** What the reference machine answers. */
  predicate MachineAllows(m: Machine, now: int, cfg: Config) {
    match m
    case Closed_(_) => true
    case Open_(since) => now - since >= cfg.openTimeout
    case Probing(_) => true
  }

  /** In every run without ForceOpen, Allow answers as the reference machine does: yes if
      closed or probing, and while open exactly from the timeout on. */
  lemma VerdictRefines(es: seq<Event>, now: int, cfg: Config)
    requires Sane(cfg) && NeverForcedOpen(es)
    ensures Allowed(Run(FRESH, es, cfg), now, cfg) <==> MachineAllows(MachineRun(Closed_(0), es, cfg), now, cfg)
  {
    hide Run, MachineRun;
    RunRefines(es, cfg);
  }

  // ------------------------------------------------------------- what histories mean

  /** Failures recorded since the last success or forced close. */
  function Streak(es: seq<Event>): nat {
    if es == [] then 0
    else
      var n := Streak(es[..|es| - 1]);
      match es[|es| - 1]
      case Failure(_) => n + 1
      case Success => 0
      case ForceClose => 0
      case _ => n
  }

  predicate IsIdle(b: Fields) { b.state.Closed? && b.failures == 0 }

  /** Whatever happened before, a closed breaker counts the failures of the current streak. */
  lemma {:induction false} ClosedCounts(b: Fields, es: seq<Event>, cfg: Config)
    requires Sane(cfg) && IsIdle(b)
    ensures Run(b, es, cfg).state.Closed? ==> Run(b, es, cfg).failures == Streak(es) < cfg.maxFailures
  {
    if es != [] {
      ClosedCounts(b, es[..|es| - 1], cfg);
    }
  }

  /** After any run that leaves the breaker closed, trips, recoveries and forced states
      included, the call that opens it is a forced one or exactly the failure that makes
      MaxFailures of them in a row. */
  lemma TripsExactly(b: Fields, es: seq<Event>, e: Event, cfg: Config)
    requires Sane(cfg) && IsIdle(b) && Run(b, es, cfg).state.Closed?
    ensures Run(b, es, cfg).failures == Streak(es) < cfg.maxFailures
    ensures Step(Run(b, es, cfg), e, cfg).state.Open? <==> e.ForceOpen? || Streak(es + [e]) == cfg.maxFailures
    ensures !Step(Run(b, es, cfg), e, cfg).state.Open? ==> Step(Run(b, es, cfg), e, cfg).state.Closed?
  {
    ClosedCounts(b, es, cfg);
    assert (es + [e])[..|es|] == es;
  }

  predicate TooEarly(es: seq<Event>, since: int, cfg: Config) {
    forall i :: 0 <= i < |es| ==>
      !es[i].ForceClose? && !es[i].ForceOpen? && (es[i].Allow? ==> es[i].now - since < cfg.openTimeout)
  }

  /** An open breaker denies every call, whatever is recorded meanwhile, until the
      timeout has passed. */
  lemma {:induction false} DeniesUntilTimeout(b: Fields, es: seq<Event>, now: int, cfg: Config)
    requires b.state.Open? && TooEarly(es, b.openedAt, cfg) && now - b.openedAt < cfg.openTimeout
    ensures var c := Run(b, es, cfg);
            c.state.Open? && c.openedAt == b.openedAt && !Allowed(c, now, cfg)
  {
    if es != [] {
      DeniesUntilTimeout(b, es[..|es| - 1], now, cfg);
    }
  }

  function Successes(es: seq<Event>): nat {
    if es == [] then 0 else Successes(es[..|es| - 1]) + if es[|es| - 1].Success? then 1 else 0
  }

  predicate OnlySuccesses(es: seq<Event>) {
    forall i :: 0 <= i < |es| ==> es[i].Allow? || es[i].Success?
  }

  lemma {:induction false} ProbesCounted(p: nat, es: seq<Event>, cfg: Config)
    requires OnlySuccesses(es) && p + Successes(es) < cfg.halfOpenProbes
    ensures MachineRun(Probing(p), es, cfg) == Probing(p + Successes(es))
  {
    if es != [] {
      ProbesCounted(p, es[..|es| - 1], cfg);
    }
  }

  /** A half-open breaker that has seen only successes, fewer than the probes required, is
      still half-open; the next call closes it exactly if it is the last success missing,
      and reopens it exactly if it is a failure. */
  lemma ProbingExactly(b: Fields, es: seq<Event>, e: Event, cfg: Config)
    requires Sane(cfg) && Refines(b, Probing(0), cfg) && OnlySuccesses(es) && !e.ForceOpen?
    requires Successes(es) < cfg.halfOpenProbes
    ensures var c := Step(Run(b, es, cfg), e, cfg);
            && Run(b, es, cfg).state.HalfOpen?
            && (c.state.Closed? <==> e.ForceClose? || Successes(es + [e]) == cfg.halfOpenProbes)
            && (c.state.Open? <==> e.Failure?)
  {
    ProbesCounted(0, es, cfg);
    RunFrom(b, Probing(0), es, cfg);
    StepRefines(Run(b, es, cfg), MachineRun(Probing(0), es, cfg), e, cfg);
    assert (es + [e])[..|es|] == es;
  }

  lemma {:induction false} RunFrom(b: Fields, m: Machine, es: seq<Event>, cfg: Config)
    requires Sane(cfg) && Refines(b, m, cfg) && NeverForcedOpen(es)
    ensures Refines(Run(b, es, cfg), MachineRun(m, es, cfg), cfg)
  {
    if es != [] {
      RunFrom(b, m, es[..|es| - 1], cfg);
      StepRefines(Run(b, es[..|es| - 1], cfg), MachineRun(m, es[..|es| - 1], cfg), es[|es| - 1], cfg);
    }
  }

  // ---------------------------------------------------------------- forced open

  /** The breaker shows the state of the reference machine. */
  predicate Agrees(b: Fields, m: Machine, cfg: Config) {
    match m
    case Closed_(k) => b.state.Closed? && b.failures == k < cfg.maxFailures
    case Open_(since) => b.state.Open? && b.openedAt == since
    case Probing(p) => b.state.HalfOpen? && b.successes == p < cfg.halfOpenProbes
  }

  /** It stops doing so exactly at a half-open failure that finds too low a count. */
  lemma StepAgrees(b: Fields, m: Machine, e: Event, cfg: Config)
    requires Sane(cfg) && Agrees(b, m, cfg)
    ensures Agrees(Step(b, e, cfg), MachineStep(m, e, cfg), cfg)
       <==> !(b.state.HalfOpen? && e.Failure? && b.failures + 1 < cfg.maxFailures)
  {
  }

  function Failures(es: seq<Event>): nat {
    if es == [] then 0 else Failures(es[..|es| - 1]) + if es[|es| - 1].Failure? then 1 else 0
  }

  /** How far into the history the breaker was last seen closed. */
  function LastClosed(b: Fields, es: seq<Event>, cfg: Config): (n: nat)
    ensures n <= |es|
  {
    if es == [] || Run(b, es, cfg).state.Closed? then |es| else LastClosed(b, es[..|es| - 1], cfg)
  }

  /** While not closed, the count is the streak that stood when the breaker left the closed
      state and all failures since; it left by that streak or by force. */
  lemma {:induction false} UnclosedCounts(b: Fields, es: seq<Event>, cfg: Config)
    requires Sane(cfg) && IsIdle(b) && !Run(b, es, cfg).state.Closed?
    ensures var n := LastClosed(b, es, cfg);
            && n < |es| && Run(b, es, cfg).failures == Streak(es[..n]) + Failures(es[n..])
            && (es[n].ForceOpen? || (es[n].Failure? && Streak(es[..n]) + 1 == cfg.maxFailures))
  {
    var front, e := es[..|es| - 1], es[|es| - 1];
    var n := LastClosed(b, es, cfg);
    assert es[..n] == front[..n] && es[n..][..|es| - n - 1] == front[n..];
    if Run(b, front, cfg).state.Closed? {
      ClosedCounts(b, front, cfg);
      assert n == |front| && es[n..] == [e] && es[..n] == front && [e][..0] == [];
    } else {
      UnclosedCounts(b, front, cfg);
    }
  }

  /** The history lets the next half-open failure go unnoticed: the breaker was forced open
      since it was last closed, and the failures counted are still too few. */
  predicate Underfed(b: Fields, es: seq<Event>, cfg: Config) {
    var n := LastClosed(b, es, cfg);
    n < |es| && es[n].ForceOpen? && Streak(es[..n]) + Failures(es[n..]) + 1 < cfg.maxFailures
  }

  lemma {:induction false} SomeFailure(es: seq<Event>)
    requires es != [] && es[0].Failure?
    ensures Failures(es) >= 1
  {
    if |es| > 1 {
      SomeFailure(es[..|es| - 1]);
    }
  }

  /** In every run, with forced states anywhere, a half-open breaker reopens on a failure
      exactly if its history is not of that kind. */
  lemma ReopensExactly(b: Fields, es: seq<Event>, now: int, cfg: Config)
    requires Sane(cfg) && IsIdle(b) && Run(b, es, cfg).state.HalfOpen?
    ensures Step(Run(b, es, cfg), Failure(now), cfg).state.Open? <==> !Underfed(b, es, cfg)
  {
    hide Streak, Failures;
    UnclosedCounts(b, es, cfg);
    var n := LastClosed(b, es, cfg);
    if es[n].Failure? {
      SomeFailure(es[n..]);
    }
  }

  ghost predicate Follows(b: Fields, es: seq<Event>, cfg: Config) {
    forall n :: 0 <= n <= |es| ==> Agrees(Run(b, es[..n], cfg), MachineRun(Closed_(0), es[..n], cfg), cfg)
  }

  predicate Unnoticed(b: Fields, es: seq<Event>, e: Event, cfg: Config) {
    Run(b, es, cfg).state.HalfOpen? && e.Failure? && Underfed(b, es, cfg)
  }

  ghost predicate AllNoticed(b: Fields, es: seq<Event>, cfg: Config) {
    forall n :: 0 <= n < |es| ==> !Unnoticed(b, es[..n], es[n], cfg)
  }

  lemma PrefixesOf(b: Fields, es: seq<Event>, cfg: Config)
    requires es != []
    ensures var front := es[..|es| - 1];
            && (Follows(b, es, cfg)
                <==> Follows(b, front, cfg) && Agrees(Run(b, es, cfg), MachineRun(Closed_(0), es, cfg), cfg))
            && (AllNoticed(b, es, cfg) <==> AllNoticed(b, front, cfg) && !Unnoticed(b, front, es[|es| - 1], cfg))
  {
    hide Run, MachineRun, Agrees, Unnoticed;
    var front := es[..|es| - 1];
    assert es[..|es|] == es && forall n :: 0 <= n <= |front| ==> front[..n] == es[..n];
  }

  /** In every run, with forced states anywhere, the breaker shows the state of the reference
      machine throughout exactly if no half-open failure goes unnoticed. */
  lemma {:induction false} FollowsExactly(b: Fields, es: seq<Event>, cfg: Config)
    requires Sane(cfg) && IsIdle(b)
    ensures Follows(b, es, cfg) <==> AllNoticed(b, es, cfg)
  {
    hide Follows, AllNoticed, Underfed, Step, MachineStep;
    if es == [] {
      AtStart(b, cfg);
    } else {
      var front, e := es[..|es| - 1], es[|es| - 1];
      FollowsExactly(b, front, cfg);
      PrefixesOf(b, es, cfg);
      if Follows(b, front, cfg) {
        FollowsAtEnd(b, front, cfg);
        StepAgrees(Run(b, front, cfg), MachineRun(Closed_(0), front, cfg), e, cfg);
        if Run(b, front, cfg).state.HalfOpen? && e.Failure? {
          ReopensExactly(b, front, e.now, cfg);
          FailureReopens(Run(b, front, cfg), e.now, cfg);
        }
      }
    }
  }

  lemma FailureReopens(b: Fields, now: int, cfg: Config)
    requires b.state.HalfOpen?
    ensures Step(b, Failure(now), cfg).state.Open? <==> b.failures + 1 >= cfg.maxFailures
  {
  }

  lemma AtStart(b: Fields, cfg: Config)
    requires Sane(cfg) && IsIdle(b)
    ensures Follows(b, [], cfg) && AllNoticed(b, [], cfg)
  {
    var es: seq<Event> := [];
    assert es[..0] == [];
  }

  lemma FollowsAtEnd(b: Fields, es: seq<Event>, cfg: Config)
    requires Follows(b, es, cfg)
    ensures Agrees(Run(b, es, cfg), MachineRun(Closed_(0), es, cfg), cfg)
  {
    assert es[..|es|] == es;
  }

  /** As long as a run follows the machine, Allow answers as the machine does, whatever was
      forced. */
  lemma VerdictFollows(b: Fields, es: seq<Event>, now: int, cfg: Config)
    requires Follows(b, es, cfg)
    ensures Allowed(Run(b, es, cfg), now, cfg) <==> MachineAllows(MachineRun(Closed_(0), es, cfg), now, cfg)
  {
    hide Run, MachineRun, Follows;
    FollowsAtEnd(b, es, cfg);
  }

  /** Forced open, probed after the timeout, and failed: with two failures allowed the breaker
      stays half-open where the machine opens. */
  lemma ForcedRun()
    ensures var cfg, es := Config(2, 10, 1), [ForceOpen(0), Allow(10), Failure(11)];
            Run(FRESH, es, cfg).state.HalfOpen? && MachineRun(Closed_(0), es, cfg) == Open_(11)
  {
    var cfg, es := Config(2, 10, 1), [ForceOpen(0), Allow(10), Failure(11)];
    var e2, e1 := es[..2], es[..1];
    assert e2[..1] == e1 && e1[..0] == [] && e1[0] == ForceOpen(0) && e2[1] == Allow(10);
    assert Run(FRESH, e1, cfg) == Fields(Open, 0, 0, 0) && Run(FRESH, e2, cfg) == Fields(HalfOpen, 0, 0, 0);
    assert MachineRun(Closed_(0), e1, cfg) == Open_(0) && MachineRun(Closed_(0), e2, cfg) == Probing(0);
  }

  // ---------------------------------------------------------- a call between two steps

  /** RecordFailure opens the breaker and only then stores the time.  A call of Allow between
      the two is judged by the time of the last opening before; if it is let through, the
      breaker is half-open and the time stored afterwards changes nothing about that. */
  lemma AllowBeforeStamp(b: Fields, failed: int, now: int, later: int, cfg: Config)
    requires b.state.Closed? && b.failures + 1 >= cfg.maxFailures
    ensures var tripped := b.(failures := b.failures + 1, state := Open);
            var probed := Step(tripped, Allow(now), cfg).(openedAt := failed);
            && tripped.(openedAt := failed) == Step(b, Failure(failed), cfg)
            && (Allowed(tripped, now, cfg) <==> now - b.openedAt >= cfg.openTimeout)
            && (Allowed(tripped, now, cfg) ==> probed.state.HalfOpen? && Allowed(probed, later, cfg))
            && (!Allowed(tripped, now, cfg) ==> probed == Step(b, Failure(failed), cfg))
  {
  }
}

/** executeRetriesOnly as a loop over a circuit breaker, and executeWithHedging as two
    racers and a caller taking atomic steps in any order.  Outcomes of the operation,
    timers and cancellations are inputs. */
module HedgedRetry {
  import CB = CircuitBreaker

  /** What one run of the operation returns; `retryable` is RetryableErrors on the error. */
  datatype Outcome = Ok(v: int) | Err(e: int, retryable: bool)

  datatype Result = Good(v: int) | Bad(e: int) | Cancelled | Panicked

  // ------------------------------------------------------------- retries, one racer

  /** `grow` is the multiplication of a backoff by BackoffMultiplier. */
  datatype Policy = Policy(max: nat, initial: int, maxBackoff: int, grow: int -> int)

  /** The backoff before the retry that follows attempt `k`. */
  function Backoff(p: Policy, k: nat): int {
    if k <= 1 then p.initial
    else
      var next := p.grow(Backoff(p, k - 1));
      if next > p.maxBackoff then p.maxBackoff else next
  }

  /** The policy stops after attempt `k`; drawing the jitter panics if the backoff is not
      positive. */
  predicate Stops(k: nat, p: Policy, outcome: nat -> Outcome, cancelled: nat -> bool) {
    outcome(k).Ok? || !outcome(k).retryable || k >= p.max || Backoff(p, k) <= 0 || cancelled(k)
  }

  /** The number of attempts made, counting from attempt `k`. */
  function Attempts(k: nat, p: Policy, outcome: nat -> Outcome, cancelled: nat -> bool): nat
    decreases if k < p.max then p.max - k else 0
  {
    if Stops(k, p, outcome, cancelled) then k else Attempts(k + 1, p, outcome, cancelled)
  }

  function ResultOf(n: nat, p: Policy, outcome: nat -> Outcome): Result {
    match outcome(n)
    case Ok(v) => Good(v)
    case Err(e, retryable) =>
      if !retryable || n >= p.max then Bad(e) else if Backoff(p, n) <= 0 then Panicked else Cancelled
  }

  /** What the breaker is told about attempts `1` to `n`. */
  function Recorded(n: nat, outcome: nat -> Outcome, clock: nat -> int): (es: seq<CB.Event>)
    ensures |es| == n
  {
    if n == 0 then []
    else Recorded(n - 1, outcome, clock) + [if outcome(n).Ok? then CB.Success else CB.Failure(clock(n))]
  }

  /** An attempt is recorded as a success exactly if it succeeded, at its own time. */
  lemma {:induction false} RecordedIs(n: nat, k: nat, outcome: nat -> Outcome, clock: nat -> int)
    requires 1 <= k <= n
    ensures var e := Recorded(n, outcome, clock)[k - 1];
            (e == CB.Success <==> outcome(k).Ok?) && (e == CB.Failure(clock(k)) <==> outcome(k).Err?)
  {
    if k < n {
      RecordedIs(n - 1, k, outcome, clock);
    }
  }

  /** The number of attempts made; none if none are allowed. */
  function RunsOf(p: Policy, outcome: nat -> Outcome, cancelled: nat -> bool): nat {
    if p.max == 0 then 0 else Attempts(1, p, outcome, cancelled)
  }

  /** Tells the breaker of the policy, if there is one, about an attempt. */
  method Record(breaker: CB.Breaker?, ok: bool, now: int)
    modifies breaker
    ensures breaker != null ==>
              breaker.View() == CB.Step(old(breaker.View()), if ok then CB.Success else CB.Failure(now), breaker.cfg)
  {
    if breaker != null {
      if ok {
        breaker.RecordSuccess();
      } else {
        breaker.RecordFailure(now);
      }
    }
  }

  /** The retry loop.  It stops at the first attempt that succeeds, cannot be retried, is
      the last allowed, would be followed by a backoff that is not positive, or is followed by
      a cancellation; each attempt is recorded once, if the policy has a breaker. */
  method ExecuteRetriesOnly(p: Policy, outcome: nat -> Outcome, cancelled: nat -> bool, clock: nat -> int,
                            breaker: CB.Breaker?) returns (r: Result, runs: nat)
    modifies breaker
    ensures runs == RunsOf(p, outcome, cancelled) <= p.max
    ensures r == if p.max == 0 then Good(0) else ResultOf(runs, p, outcome)
    ensures r.Panicked? <==> 1 <= runs < p.max && outcome(runs).Err? && outcome(runs).retryable && Backoff(p, runs) <= 0
    ensures breaker != null ==>
              breaker.View() == CB.Run(old(breaker.View()), Recorded(runs, outcome, clock), breaker.cfg)
  {
    hide CB.Step;
    r, runs := Good(0), 0;
    var attempt, backoff := 1, p.initial;
    while attempt <= p.max
      invariant 1 <= attempt <= p.max + 1 && runs == attempt - 1 && backoff == Backoff(p, attempt)
      invariant p.max == 0 ==> r == Good(0)
      invariant p.max > 0 ==> attempt <= p.max
      invariant p.max > 0 ==> Attempts(attempt, p, outcome, cancelled) == Attempts(1, p, outcome, cancelled)
      invariant breaker != null ==>
                  breaker.View() == CB.Run(old(breaker.View()), Recorded(runs, outcome, clock), breaker.cfg)
      decreases p.max - attempt
    {
      var res := outcome(attempt);
      runs := attempt;
      ghost var es := Recorded(runs, outcome, clock);
      assert es[..|es| - 1] == Recorded(runs - 1, outcome, clock);
      Record(breaker, res.Ok?, clock(attempt));
      if res.Ok? {
        return Good(res.v), runs;
      }
      if !res.retryable {
        return Bad(res.e), runs;
      }
      if attempt == p.max {
        return Bad(res.e), runs;
      }
      if backoff <= 0 {
        return Panicked, runs;
      }
      if cancelled(attempt) {
        return Cancelled, runs;
      }
      var next := p.grow(backoff);
      backoff := if next > p.maxBackoff then p.maxBackoff else next;
      attempt := attempt + 1;
    }
  }

  /** All attempts before the last failed in a way that may be retried. */
  lemma {:induction false} EarlierAttemptsFailed(k: nat, j: nat, p: Policy, outcome: nat -> Outcome,
                                                 cancelled: nat -> bool)
    requires k <= j < Attempts(k, p, outcome, cancelled)
    ensures outcome(j).Err? && outcome(j).retryable && !cancelled(j) && j < p.max && Backoff(p, j) > 0
    decreases j - k
  {
    if k < j {
      EarlierAttemptsFailed(k + 1, j, p, outcome, cancelled);
    }
  }

  predicate IsRetried(k: nat, p: Policy, outcome: nat -> Outcome, cancelled: nat -> bool) {
    outcome(k).Err? && outcome(k).retryable && Backoff(p, k) > 0 && !cancelled(k)
  }

  /** The last attempt decides the result, and its number is that of the first attempt that
      ends the loop. */
  lemma LastAttemptDecides(p: Policy, outcome: nat -> Outcome, cancelled: nat -> bool)
    requires p.max > 0
    ensures var n := RunsOf(p, outcome, cancelled);
            var last, r := outcome(n), ResultOf(n, p, outcome);
            && 1 <= n <= p.max
            && (forall j :: 1 <= j < n ==> IsRetried(j, p, outcome, cancelled))
            && if last.Ok? then r == Good(last.v)
               else if !last.retryable || n == p.max then r == Bad(last.e)
               else if Backoff(p, n) <= 0 then r == Panicked
               else cancelled(n) && r == Cancelled
  {
    AttemptsStop(1, p, outcome, cancelled);
    forall j | 1 <= j < RunsOf(p, outcome, cancelled) ensures IsRetried(j, p, outcome, cancelled) {
      EarlierAttemptsFailed(1, j, p, outcome, cancelled);
    }
  }

  lemma {:induction false} AttemptsStop(k: nat, p: Policy, outcome: nat -> Outcome, cancelled: nat -> bool)
    requires k <= p.max
    ensures var n := Attempts(k, p, outcome, cancelled); k <= n <= p.max && Stops(n, p, outcome, cancelled)
    decreases p.max - k
  {
    if !Stops(k, p, outcome, cancelled) {
      AttemptsStop(k + 1, p, outcome, cancelled);
    }
  }

  /** The initial backoff after `k` multiplications. */
  function Grown(p: Policy, k: nat): int {
    if k == 0 then p.initial else p.grow(Grown(p, k - 1))
  }

  /** If multiplying never shrinks a backoff, the one before retry `k` is the initial one
      multiplied `k - 1` times, up to MaxBackoff; only the first is not capped. */
  lemma {:induction false} BackoffGrowsToCap(p: Policy, k: nat)
    requires p.initial >= 0 && p.maxBackoff >= 0 && k >= 1
    requires forall b, c :: 0 <= b <= c ==> b <= p.grow(b) <= p.grow(c)
    ensures 0 <= Grown(p, k - 1) && Backoff(p, 1) == p.initial
    ensures k >= 2 ==> Backoff(p, k) == if Grown(p, k - 1) > p.maxBackoff then p.maxBackoff else Grown(p, k - 1)
  {
    if k >= 2 {
      BackoffGrowsToCap(p, k - 1);
      var b := Grown(p, k - 2);
      assert b <= p.grow(b);
      if k >= 3 && b > p.maxBackoff {
        assert p.maxBackoff <= p.grow(p.maxBackoff) <= p.grow(b);
      }
    }
  }

  /** Whatever happens, the policy returns and does not panic. */
  ghost predicate NeverPanics(p: Policy) {
    forall outcome: nat -> Outcome, cancelled: nat -> bool ::
      RunsOf(p, outcome, cancelled) >= 1 ==> ResultOf(RunsOf(p, outcome, cancelled), p, outcome) != Panicked
  }

  /** Every backoff that a retry can wait for is positive. */
  ghost predicate BackoffsPositive(p: Policy) {
    forall k :: 1 <= k < p.max ==> Backoff(p, k) > 0
  }

  const FAILS: nat -> Outcome := (k: nat) => Err(0, true)

  const STAYS: nat -> bool := (k: nat) => false

  /** An operation that always fails is tried up to the first backoff that is not positive. */
  lemma {:induction false} TriesUpTo(p: Policy, k: nat, n: nat)
    requires 1 <= k <= n < p.max && Backoff(p, n) <= 0 && forall j :: k <= j < n ==> Backoff(p, j) > 0
    ensures Attempts(k, p, FAILS, STAYS) == n
    decreases n - k
  {
    if k < n {
      TriesUpTo(p, k + 1, n);
    }
  }

  /** The first such backoff. */
  lemma {:induction false} FirstBad(p: Policy, k: nat) returns (n: nat)
    requires 1 <= k && Backoff(p, k) <= 0
    ensures 1 <= n <= k && Backoff(p, n) <= 0 && forall j :: 1 <= j < n ==> Backoff(p, j) > 0
  {
    if j :| 1 <= j < k && Backoff(p, j) <= 0 {
      n := FirstBad(p, j);
    } else {
      n := k;
    }
  }

  /** For every policy: it never panics if and only if every backoff that a retry can wait for
      is positive. */
  lemma PanicsExactly(p: Policy)
    ensures NeverPanics(p) <==> BackoffsPositive(p)
  {
    hide Backoff;
    if k :| 1 <= k < p.max && Backoff(p, k) <= 0 {
      var n := FirstBad(p, k);
      TriesUpTo(p, 1, n);
      assert RunsOf(p, FAILS, STAYS) == n && ResultOf(n, p, FAILS) == Panicked;
    }
  }

  ghost predicate GrowsPositive(p: Policy) { forall b :: b > 0 ==> p.grow(b) > 0 }

  lemma {:induction false} BackoffPositive(p: Policy, k: nat)
    requires p.initial > 0 && p.maxBackoff > 0 && GrowsPositive(p)
    ensures Backoff(p, k) > 0
  {
    if k > 1 {
      BackoffPositive(p, k - 1);
    }
  }

  /** If the multiplier keeps backoffs positive, the policy never panics if and only if it makes
      at most one attempt, or its initial backoff is positive and so is the largest one, as far
      as a second retry is allowed. */
  lemma GrowingPanicsExactly(p: Policy)
    requires GrowsPositive(p)
    ensures NeverPanics(p) <==> p.max <= 1 || (p.initial > 0 && (p.max == 2 || p.maxBackoff > 0))
  {
    PanicsExactly(p);
    if p.initial > 0 && p.maxBackoff > 0 {
      forall k | 1 <= k < p.max
        ensures Backoff(p, k) > 0
      {
        BackoffPositive(p, k);
      }
    } else if p.initial > 0 {
      assert Backoff(p, 2) <= 0;
    } else {
      assert Backoff(p, 1) <= 0;
    }
  }

  /** With the multiplier left at 0 the second retry panics, however large the other backoffs. */
  lemma UnsetMultiplierPanics(max: nat, initial: int, maxBackoff: int)
    requires max >= 3
    ensures !NeverPanics(Policy(max, initial, maxBackoff, (b: int) => 0))
  {
    var p := Policy(max, initial, maxBackoff, (b: int) => 0);
    PanicsExactly(p);
    assert Backoff(p, 2) <= 0;
  }

  // ------------------------------------------------------------- racers and caller

  /** A racer before launch, about to run attempt `a`, about to record its outcome,
      sleeping before the next attempt, with a result to send, or done. */
  datatype Racer = Unlaunched | Trying(a: nat) | Recording(a: nat, o: Outcome) | Sleeping(a: nat)
                 | Finished(r: Result) | Sent(r: Result)

  /** The caller in its first select, waiting for the primary alone because the token
      bucket was empty, waiting for the first or the second of two results, or back. */
  datatype Caller = Selecting | PrimaryOnly | AwaitFirst | AwaitSecond | Returned(r: Result)

  /** `runs` counts operation runs per racer, `records` breaker outcomes, `got` what the
      caller received, `blocked` whether a send on the channel ever had to wait. */
  datatype State = State(racers: seq<Racer>, runs: seq<nat>, records: nat, chan: seq<Result>,
                         caller: Caller, got: seq<Result>, blocked: bool)

  datatype Act = RunOp(i: nat, o: Outcome) | Record(i: nat) | Wake(i: nat) | Cancel(i: nat) | Send(i: nat)
               | HedgeTimer(token: bool) | Receive | ContextDone

  const CAPACITY: nat := 2

  const START: State := State([Trying(1), Unlaunched], [0, 0], 0, [], Selecting, [], false)

  function AfterRecord(a: nat, o: Outcome, max: nat): Racer {
    match o
    case Ok(v) => Finished(Good(v))
    case Err(e, retryable) => if !retryable || a >= max then Finished(Bad(e)) else Sleeping(a)
  }

  function RacerStep(s: State, act: Act, max: nat): State
    requires |s.racers| == 2 && |s.runs| == 2
  {
    match act
    case RunOp(i, o) =>
      if i < 2 && s.racers[i].Trying?
      then s.(racers := s.racers[i := Recording(s.racers[i].a, o)], runs := s.runs[i := s.runs[i] + 1]) else s
    case Record(i) =>
      if i < 2 && s.racers[i].Recording?
      then s.(racers := s.racers[i := AfterRecord(s.racers[i].a, s.racers[i].o, max)], records := s.records + 1) else s
    case Wake(i) =>
      if i < 2 && s.racers[i].Sleeping? then s.(racers := s.racers[i := Trying(s.racers[i].a + 1)]) else s
    case Cancel(i) =>
      if i < 2 && s.racers[i].Sleeping? then s.(racers := s.racers[i := Finished(Cancelled)]) else s
    case Send(i) =>
      if i < 2 && s.racers[i].Finished? then
        if |s.chan| < CAPACITY
        then s.(racers := s.racers[i := Sent(s.racers[i].r)], chan := s.chan + [s.racers[i].r])
        else s.(blocked := true)
      else s
    case _ => s
  }

  function CallerStep(s: State, act: Act): State
    requires |s.racers| == 2 && |s.runs| == 2
  {
    match act
    case HedgeTimer(token) =>
      if s.caller.Selecting? then
        if token then s.(caller := AwaitFirst, racers := s.racers[1 := Trying(1)]) else s.(caller := PrimaryOnly)
      else s
    case Receive =>
      if s.chan == [] || s.caller.Returned? then s
      else
        var r := s.chan[0];
        var s' := s.(chan := s.chan[1..], got := s.got + [r]);
        if s.caller.AwaitFirst? && !r.Good? then s'.(caller := AwaitSecond) else s'.(caller := Returned(r))
    case ContextDone =>
      if s.caller.Selecting? || s.caller.PrimaryOnly? then s.(caller := Returned(Cancelled)) else s
    case _ => s
  }

  function Step(s: State, act: Act, max: nat): State
    requires |s.racers| == 2 && |s.runs| == 2
  {
    if act.HedgeTimer? || act.Receive? || act.ContextDone? then CallerStep(s, act) else RacerStep(s, act, max)
  }

  // -------------------------------------------------------------------- invariant

  predicate RacerOk(r: Racer, runs: nat, max: nat) {
    match r
    case Unlaunched => runs == 0
    case Trying(a) => 1 <= a <= max && runs == a - 1
    case Recording(a, _) => 1 <= a <= max && runs == a
    case Sleeping(a) => 1 <= a < max && runs == a
    case Finished(_) => 1 <= runs <= max
    case Sent(_) => 1 <= runs <= max
  }

  function Unrecorded(r: Racer): nat { if r.Recording? then 1 else 0 }

  function SentBy(r: Racer): multiset<Result> { if r.Sent? then multiset{r.r} else multiset{} }

  predicate Hedged(s: State)
    requires |s.racers| == 2
  {
    !s.racers[1].Unlaunched?
  }

  predicate CallerOk(s: State)
    requires |s.racers| == 2
  {
    match s.caller
    case Selecting => s.got == [] && !Hedged(s)
    case PrimaryOnly => s.got == [] && !Hedged(s)
    case AwaitFirst => s.got == [] && Hedged(s)
    case AwaitSecond => |s.got| == 1 && !s.got[0].Good? && Hedged(s)
    case Returned(r) =>
      if Hedged(s) then s.got != [] && r == s.got[|s.got| - 1] && (!r.Good? ==> |s.got| == 2 && !s.got[0].Good?)
      else s.got == [r] || (s.got == [] && r == Cancelled)
  }

  /** Runs stay within the policy and every finished run is recorded. */
  predicate Counted(s: State, max: nat)
    requires |s.racers| == 2 && |s.runs| == 2
  {
    && RacerOk(s.racers[0], s.runs[0], max) && RacerOk(s.racers[1], s.runs[1], max)
    && s.records + Unrecorded(s.racers[0]) + Unrecorded(s.racers[1]) == s.runs[0] + s.runs[1]
  }

  /** What was sent is in the channel or with the caller. */
  ghost predicate Flows(s: State)
    requires |s.racers| == 2
  {
    multiset(s.chan) + multiset(s.got) == SentBy(s.racers[0]) + SentBy(s.racers[1])
  }

  ghost predicate Inv(s: State, max: nat) {
    |s.racers| == 2 && |s.runs| == 2 && Counted(s, max) && Flows(s) && !s.blocked && CallerOk(s)
  }

  lemma ChannelHasRoom(s: State, i: nat)
    requires |s.racers| == 2 && Flows(s) && i < 2 && !s.racers[i].Sent?
    ensures |s.chan| < CAPACITY
  {
    assert |multiset(s.chan) + multiset(s.got)| == |s.chan| + |s.got|;
  }

  lemma RacerCounts(s: State, act: Act, max: nat)
    requires max >= 1 && |s.racers| == 2 && |s.runs| == 2 && Counted(s, max)
    ensures Counted(RacerStep(s, act, max), max)
  {
  }

  lemma SendFlows(s: State, i: nat)
    requires |s.racers| == 2 && Flows(s) && i < 2 && s.racers[i].Finished?
    ensures Flows(s.(racers := s.racers[i := Sent(s.racers[i].r)], chan := s.chan + [s.racers[i].r]))
  {
    var r := s.racers[i].r;
    assert multiset(s.chan + [r]) == multiset(s.chan) + multiset{r};
    assert SentBy(s.racers[i]) == multiset{} && SentBy(Sent(r)) == multiset{r};
    var both := SentBy(s.racers[0]) + SentBy(s.racers[1]);
    var racers' := s.racers[i := Sent(r)];
    assert SentBy(racers'[0]) + SentBy(racers'[1]) == both + multiset{r};
  }

  /** Steps of a racer other than a send touch neither the channel nor the caller. */
  lemma QuietStep(s: State, act: Act, max: nat)
    requires |s.racers| == 2 && |s.runs| == 2 && !act.Send?
    ensures var s' := RacerStep(s, act, max);
            && s'.chan == s.chan && s'.got == s.got && s'.caller == s.caller && s'.blocked == s.blocked
            && |s'.racers| == 2
            && forall j :: 0 <= j < 2 ==> SameRole(s.racers[j], s'.racers[j])
  {
  }

  /** Launched or not, and what was sent if anything, are the same. */
  predicate SameRole(r: Racer, r': Racer) {
    (r.Unlaunched? <==> r'.Unlaunched?) && (r.Sent? || r'.Sent? ==> r == r')
  }

  lemma SameSent(r: Racer, r': Racer)
    requires SameRole(r, r')
    ensures SentBy(r) == SentBy(r')
  {
  }

  lemma QuietFlows(s: State, act: Act, max: nat)
    requires Inv(s, max) && !act.Send?
    ensures var s' := RacerStep(s, act, max); Flows(s') && !s'.blocked && CallerOk(s')
  {
    hide Counted, SentBy, RacerStep;
    QuietStep(s, act, max);
    var s' := RacerStep(s, act, max);
    SameSent(s.racers[0], s'.racers[0]);
    SameSent(s.racers[1], s'.racers[1]);
  }

  lemma RacerFlows(s: State, act: Act, max: nat)
    requires max >= 1 && Inv(s, max)
    ensures var s' := RacerStep(s, act, max); Flows(s') && !s'.blocked && CallerOk(s')
  {
    hide Counted, SentBy, Flows;
    if !act.Send? {
      QuietFlows(s, act, max);
    } else if act.i < 2 && s.racers[act.i].Finished? {
      ChannelHasRoom(s, act.i);
      SendFlows(s, act.i);
    }
  }

  lemma ReceiveFlows(s: State)
    requires |s.racers| == 2 && Flows(s) && s.chan != []
    ensures Flows(s.(chan := s.chan[1..], got := s.got + [s.chan[0]]))
  {
    hide SentBy;
    assert s.chan == [s.chan[0]] + s.chan[1..];
    assert multiset(s.chan) == multiset{s.chan[0]} + multiset(s.chan[1..]);
    assert multiset(s.got + [s.chan[0]]) == multiset(s.got) + multiset{s.chan[0]};
  }

  lemma CallerFlows(s: State, act: Act)
    requires |s.racers| == 2 && |s.runs| == 2 && Flows(s) && CallerOk(s)
    ensures Flows(CallerStep(s, act))
  {
    hide SentBy;
    if act.Receive? && s.chan != [] {
      ReceiveFlows(s);
    } else if act.HedgeTimer? && s.caller.Selecting? {
      LaunchSendsNothing();
    }
  }

  lemma LaunchSendsNothing()
    ensures SentBy(Unlaunched) == SentBy(Trying(1))
  {
  }

  lemma CallerStates(s: State, act: Act, max: nat)
    requires max >= 1 && Inv(s, max)
    ensures var s' := CallerStep(s, act); Counted(s', max) && !s'.blocked && CallerOk(s')
  {
    hide Flows;
  }

  function Run(acts: seq<Act>, max: nat): (s: State)
    ensures |s.racers| == 2 && |s.runs| == 2
  {
    if acts == [] then START else Step(Run(acts[..|acts| - 1], max), acts[|acts| - 1], max)
  }

  lemma StepLengths(s: State, act: Act, max: nat)
    requires |s.racers| == 2 && |s.runs| == 2
    ensures var s' := Step(s, act, max); |s'.racers| == 2 && |s'.runs| == 2
  {
  }

  lemma StartKeeps(max: nat)
    requires max >= 1
    ensures Inv(START, max)
  {
  }

  lemma {:induction false} RunKeeps(acts: seq<Act>, max: nat)
    requires max >= 1
    ensures Inv(Run(acts, max), max)
  {
    hide Counted, Flows, CallerOk, RacerStep, CallerStep;
    if acts == [] {
      StartKeeps(max);
    } else {
      RunKeeps(acts[..|acts| - 1], max);
      var s, act := Run(acts[..|acts| - 1], max), acts[|acts| - 1];
      RacerCounts(s, act, max);
      RacerFlows(s, act, max);
      CallerFlows(s, act);
      CallerStates(s, act, max);
      StepLengths(s, act, max);
    }
  }

  /** In every interleaving the operation runs at most MaxAttempts times per racer and so
      2*MaxAttempts in all, every run that is past its recording was recorded once, and no
      send ever blocks, whether or not the caller is still there. */
  lemma RunsBounded(acts: seq<Act>, max: nat)
    requires max >= 1
    ensures var s := Run(acts, max);
            && s.runs[0] <= max && s.runs[1] <= max && s.runs[0] + s.runs[1] <= 2 * max
            && s.records + Unrecorded(s.racers[0]) + Unrecorded(s.racers[1]) == s.runs[0] + s.runs[1]
            && !s.blocked
  {
    hide Run, Step;
    RunKeeps(acts, max);
  }

  /** The outcomes of the runs of racer `i`, and those it has recorded with the breaker. */
  function Ran(acts: seq<Act>, max: nat, i: nat): seq<Outcome>
    requires i < 2
  {
    if acts == [] then []
    else
      var front, a := acts[..|acts| - 1], acts[|acts| - 1];
      Ran(front, max, i) + if a.RunOp? && a.i == i && Run(front, max).racers[i].Trying? then [a.o] else []
  }

  function Told(acts: seq<Act>, max: nat, i: nat): seq<Outcome>
    requires i < 2
  {
    if acts == [] then []
    else
      var front, a := acts[..|acts| - 1], acts[|acts| - 1];
      var racer := Run(front, max).racers[i];
      Told(front, max, i) + if a.Record? && a.i == i && racer.Recording? then [racer.o] else []
  }

  /** In every interleaving each racer records the outcomes of its own runs, once each and in
      order; only that of the run it is about to record is missing. */
  lemma {:induction false} RecordsMatchRuns(acts: seq<Act>, max: nat, i: nat)
    requires i < 2 && max >= 1
    ensures var racer := Run(acts, max).racers[i];
            Ran(acts, max, i) == Told(acts, max, i) + if racer.Recording? then [racer.o] else []
    ensures |Ran(acts, max, i)| == Run(acts, max).runs[i]
  {
    hide Step;
    if acts != [] {
      var front := acts[..|acts| - 1];
      RecordsMatchRuns(front, max, i);
      RunKeeps(front, max);
      OutcomeMoves(Run(front, max), acts[|acts| - 1], max, i);
    }
  }

  /** What a step does to the outcome a racer is about to record. */
  function Due(r: Racer): seq<Outcome> { if r.Recording? then [r.o] else [] }

  lemma OutcomeMoves(s: State, act: Act, max: nat, i: nat)
    requires i < 2 && Inv(s, max)
    ensures var s' := Step(s, act, max);
            && |s'.racers| == 2 && |s'.runs| == 2
            && if act.RunOp? && act.i == i && s.racers[i].Trying? then
                 Due(s.racers[i]) == [] && Due(s'.racers[i]) == [act.o] && s'.runs[i] == s.runs[i] + 1
               else
                 && s'.runs[i] == s.runs[i]
                 && Due(s'.racers[i]) == if act.Record? && act.i == i && s.racers[i].Recording? then []
                                         else Due(s.racers[i])
  {
    hide Flows, Counted;
    StepLengths(s, act, max);
  }

  predicate Retried(told: seq<Outcome>) {
    forall j :: 0 <= j < |told| ==> told[j].Err? && told[j].retryable
  }

  /** The result `r` after the recorded outcomes `told`: every one but the last was retried,
      and the last one decides. */
  predicate Decides(told: seq<Outcome>, r: Result, max: nat) {
    && told != [] && Retried(told[..|told| - 1])
    && var last := told[|told| - 1];
       if last.Ok? then r == Good(last.v)
       else if !last.retryable || |told| == max then r == Bad(last.e)
       else r == Cancelled
  }

  predicate InStep(racer: Racer, told: seq<Outcome>, max: nat) {
    match racer
    case Unlaunched => told == []
    case Trying(a) => |told| == a - 1 && Retried(told)
    case Recording(a, _) => |told| == a - 1 && Retried(told)
    case Sleeping(a) => |told| == a && Retried(told)
    case Finished(r) => Decides(told, r, max)
    case Sent(r) => Decides(told, r, max)
  }

  /** What one step can make of a racer; `records` says that it records its outcome. */
  predicate Moves(r: Racer, r': Racer, records: bool, max: nat) {
    if records then r.Recording? && r' == AfterRecord(r.a, r.o, max)
    else
      || r' == r || (r.Unlaunched? && r' == Trying(1))
      || (r.Trying? && r'.Recording? && r'.a == r.a)
      || (r.Sleeping? && (r' == Trying(r.a + 1) || r' == Finished(Cancelled)))
      || (r.Finished? && r' == Sent(r.r))
  }

  lemma StepMoves(s: State, act: Act, max: nat, i: nat)
    requires i < 2 && Inv(s, max)
    ensures var s' := Step(s, act, max);
            |s'.racers| == 2 && Moves(s.racers[i], s'.racers[i], act == Act.Record(i) && s.racers[i].Recording?, max)
  {
    hide Flows, Counted, AfterRecord;
    StepLengths(s, act, max);
  }

  lemma MovesInStep(r: Racer, r': Racer, records: bool, max: nat, runs: nat, told: seq<Outcome>)
    requires Moves(r, r', records, max) && RacerOk(r, runs, max) && InStep(r, told, max)
    ensures InStep(r', told + if records then Due(r) else [], max)
  {
    if records {
      assert (told + [r.o])[..|told|] == told;
    } else {
      assert told + [] == told;
      assert r.Sleeping? ==> told[|told| - 1].retryable;
    }
  }

  lemma StaysInStep(s: State, act: Act, max: nat, i: nat, told: seq<Outcome>)
    requires i < 2 && Inv(s, max) && InStep(s.racers[i], told, max)
    ensures var s' := Step(s, act, max);
            |s'.racers| == 2
            && InStep(s'.racers[i], told + if act.Record? && act.i == i then Due(s.racers[i]) else [], max)
  {
    hide Flows, CallerOk, Step, Moves, InStep, RacerOk;
    StepMoves(s, act, max, i);
    var records := act == Act.Record(i) && s.racers[i].Recording?;
    MovesInStep(s.racers[i], Step(s, act, max).racers[i], records, max, s.runs[i], told);
  }

  /** In every interleaving the result of a racer is that of the outcomes of its own runs: a
      success exactly if the last was one, its error if it cannot be retried or was the last
      one allowed, and otherwise a cancellation; all runs before were retried. */
  lemma {:induction false} OutcomesDecide(acts: seq<Act>, max: nat, i: nat)
    requires i < 2 && max >= 1
    ensures InStep(Run(acts, max).racers[i], Told(acts, max, i), max)
  {
    hide Step, InStep;
    if acts == [] {
      AtStart(max, i);
    } else {
      var front := acts[..|acts| - 1];
      OutcomesDecide(front, max, i);
      RunKeeps(front, max);
      StaysInStep(Run(front, max), acts[|acts| - 1], max, i, Told(front, max, i));
    }
  }

  lemma AtStart(max: nat, i: nat)
    requires i < 2
    ensures InStep(START.racers[i], [], max)
  {
  }

  /** Some outcome recorded by a racer is a success. */
  predicate HasOk(told: seq<Outcome>) { exists j :: 0 <= j < |told| && told[j].Ok? }

  /** A racer succeeds exactly if one of its runs did. */
  lemma SucceededExactly(acts: seq<Act>, max: nat, i: nat)
    requires i < 2 && max >= 1
    ensures var racer := Run(acts, max).racers[i];
            && (Succeeded(racer) <==> HasOk(Told(acts, max, i)))
            && (Succeeded(racer) ==> Ok(racer.r.v) in Told(acts, max, i))
  {
    hide Run, Told;
    OutcomesDecide(acts, max, i);
    var told := Told(acts, max, i);
    assert forall j :: 0 <= j < |told| - 1 ==> told[j] == told[..|told| - 1][j];
  }

  predicate Succeeded(r: Racer) { (r.Finished? || r.Sent?) && r.r.Good? }

  /** Once both racers are launched, the caller returns a success exactly if some run of the
      operation that was recorded by then succeeded, and it is the value of such a run. */
  lemma SuccessExactly(acts: seq<Act>, max: nat)
    requires max >= 1 && Hedged(Run(acts, max)) && Run(acts, max).caller.Returned?
    ensures var s := Run(acts, max);
            && (s.caller.r.Good? <==> HasOk(Told(acts, max, 0)) || HasOk(Told(acts, max, 1)))
            && (s.caller.r.Good? ==> Ok(s.caller.r.v) in Told(acts, max, 0) + Told(acts, max, 1))
            && (s.racers[0] == Sent(s.caller.r) || s.racers[1] == Sent(s.caller.r))
  {
    hide Run, Step, Told, HasOk;
    RunKeeps(acts, max);
    SucceededExactly(acts, max, 0);
    SucceededExactly(acts, max, 1);
    var s := Run(acts, max);
    var all := SentBy(s.racers[0]) + SentBy(s.racers[1]);
    assert s.caller.r in s.got && s.caller.r in multiset(s.got);
    assert s.caller.r in all;
    if !s.caller.r.Good? {
      BothFailed(s, max);
    }
  }

  /** A hedge timer that fired with a token to spend, or a context that ended, while the caller
      was still waiting for it. */
  predicate Launches(acts: seq<Act>, n: nat, max: nat)
    requires n < |acts|
  {
    acts[n] == HedgeTimer(true) && Run(acts[..n], max).caller.Selecting?
  }

  predicate GivesUp(acts: seq<Act>, n: nat, max: nat)
    requires n < |acts|
  {
    acts[n] == ContextDone && (Run(acts[..n], max).caller.Selecting? || Run(acts[..n], max).caller.PrimaryOnly?)
  }

  /** In every interleaving the second racer was launched exactly if the hedge timer fired while
      the caller was selecting and found a token, and the caller returned without a result
      exactly if the context ended before there was one and before any hedge. */
  lemma {:induction false} HedgedExactly(acts: seq<Act>, max: nat)
    requires max >= 1
    ensures var s := Run(acts, max);
            && (Hedged(s) <==> exists n :: 0 <= n < |acts| && Launches(acts, n, max))
            && (s.caller.Returned? && s.got == [] <==> exists n :: 0 <= n < |acts| && GivesUp(acts, n, max))
  {
    hide Step, Launches, GivesUp;
    if acts != [] {
      var front, act := acts[..|acts| - 1], acts[|acts| - 1];
      HedgedExactly(front, max);
      RunKeeps(front, max);
      HedgeStep(Run(front, max), act, max);
      forall n | 0 <= n < |front|
        ensures Launches(acts, n, max) <==> Launches(front, n, max)
        ensures GivesUp(acts, n, max) <==> GivesUp(front, n, max)
      {
        SamePrefix(acts, front, n, max);
      }
      LastAct(acts, max);
    }
  }

  lemma SamePrefix(acts: seq<Act>, front: seq<Act>, n: nat, max: nat)
    requires n < |front| <= |acts| && front == acts[..|front|]
    ensures Launches(acts, n, max) <==> Launches(front, n, max)
    ensures GivesUp(acts, n, max) <==> GivesUp(front, n, max)
  {
    hide Run;
    assert acts[..n] == front[..n];
  }

  lemma LastAct(acts: seq<Act>, max: nat)
    requires acts != []
    ensures var s, act := Run(acts[..|acts| - 1], max), acts[|acts| - 1];
            && (Launches(acts, |acts| - 1, max) <==> act == HedgeTimer(true) && s.caller.Selecting?)
            && (GivesUp(acts, |acts| - 1, max) <==>
                act == ContextDone && (s.caller.Selecting? || s.caller.PrimaryOnly?))
  {
    hide Run;
  }

  lemma HedgeStep(s: State, act: Act, max: nat)
    requires Inv(s, max)
    ensures var s' := Step(s, act, max);
            && |s'.racers| == 2
            && (Hedged(s') <==> Hedged(s) || (act == HedgeTimer(true) && s.caller.Selecting?))
            && (s'.caller.Returned? && s'.got == [] <==>
                || (s.caller.Returned? && s.got == [])
                || (act == ContextDone && (s.caller.Selecting? || s.caller.PrimaryOnly?)))
  {
    hide Flows, Counted;
    StepLengths(s, act, max);
  }

  /** In every interleaving a racer that sleeps can be cancelled, and then sends that at once. */
  lemma CancelEnds(acts: seq<Act>, max: nat, i: nat)
    requires i < 2 && max >= 1 && Run(acts, max).racers[i].Sleeping?
    ensures Run(acts + [Cancel(i), Send(i)], max).racers[i] == Sent(Cancelled)
  {
    hide Flows, Counted, CallerOk, CallerStep;
    var cancelled := acts + [Cancel(i)];
    assert cancelled[..|acts|] == acts && acts + [Cancel(i), Send(i)] == cancelled + [Send(i)];
    assert (cancelled + [Send(i)])[..|cancelled|] == cancelled;
    RunKeeps(cancelled, max);
    ChannelHasRoom(Run(cancelled, max), i);
  }

  /** Without a hedge the caller returns what the primary sent, or was cancelled first. */
  lemma PrimaryAlone(acts: seq<Act>, max: nat)
    requires max >= 1 && !Hedged(Run(acts, max)) && Run(acts, max).caller.Returned?
    ensures var s := Run(acts, max);
            && Told(acts, max, 1) == []
            && (|| s.caller.r == Cancelled
                || (s.racers[0] == Sent(s.caller.r) && Decides(Told(acts, max, 0), s.caller.r, max)))
  {
    hide Run, Step, Told, Decides;
    RunKeeps(acts, max);
    OutcomesDecide(acts, max, 0);
    OutcomesDecide(acts, max, 1);
    var s := Run(acts, max);
    if s.got == [s.caller.r] {
      assert s.caller.r in multiset(s.got);
      assert s.caller.r in SentBy(s.racers[0]) + SentBy(s.racers[1]);
    }
  }

  lemma BothFailed(s: State, max: nat)
    requires Inv(s, max) && Hedged(s) && s.caller.Returned? && !s.caller.r.Good?
    ensures s.racers[0].Sent? && s.racers[1].Sent? && !s.racers[0].r.Good? && !s.racers[1].r.Good?
  {
    var all := SentBy(s.racers[0]) + SentBy(s.racers[1]);
    assert |all| == |multiset(s.chan) + multiset(s.got)| == |s.chan| + |s.got|;
    assert s.chan == [] && multiset(s.chan) == multiset{};
    assert all == multiset(s.got);
    assert s.got == [s.got[0], s.got[1]];
    assert s.racers[0].r in all && s.racers[1].r in all;
    assert forall r :: r in multiset(s.got) ==> r in s.got;
  }
}

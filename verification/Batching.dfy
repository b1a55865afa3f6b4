/** BatchScheduler: the loop that groups requests into batches, flushing on size or on a
    timer.  Channels and the timer are atomic steps; the handler's result is an input. */
module Batching {

  type Req = nat

  /** timer.C holds at most one tick; a running timer has not ticked yet. */
  datatype Timer = NoTimer | Timer(running: bool, tick: bool)

  datatype Outcome = Failed(err: int) | Results(resps: seq<int>)

  datatype Response = Resp(v: int) | SharedError(err: int) | CountError(got: nat, want: nat)

  datatype Flushed = Flushed(reqs: seq<Req>, outcome: Outcome)

  datatype Sent = Sent(req: Req, resp: Response)

  /** `listening` is timerChan being non-nil.  `received`, `flushed` and `sent` record the
      run; `inbox` is the content of the response channels, each with room for one, and
      `blocked` whether a send ever found its channel full. */
  datatype State = State(batch: seq<Req>, timer: Timer, listening: bool,
                         received: seq<Req>, flushed: seq<Flushed>, sent: seq<Sent>,
                         inbox: map<Req, Response>, blocked: bool)

  /** Arrive: a request is taken from reqCh.  Tick: select takes the timer case.  Expire:
      the timer fires.  Take: an invoker receives its response. */
  datatype Event = Arrive(r: Req, outcome: Outcome) | Tick(outcome: Outcome) | Expire | Take(r: Req)

  const START: State := State([], NoTimer, false, [], [], [], map[], false)

  /** The response for position `i` of a batch of `n` requests. */
  function ResponseAt(outcome: Outcome, i: nat, n: nat): Response {
    match outcome
    case Failed(e) => SharedError(e)
    case Results(rs) => if |rs| == n && i < n then Resp(rs[i]) else CountError(|rs|, n)
  }

  /** The responses for a whole batch, in order. */
  function Responses(reqs: seq<Req>, outcome: Outcome): (r: seq<Sent>)
    ensures |r| == |reqs|
  {
    seq(|reqs|, i requires 0 <= i < |reqs| => Sent(reqs[i], ResponseAt(outcome, i, |reqs|)))
  }

  function Deliver(inbox: map<Req, Response>, sends: seq<Sent>): map<Req, Response> {
    if sends == [] then inbox
    else Deliver(inbox, sends[..|sends| - 1])[sends[|sends| - 1].req := sends[|sends| - 1].resp]
  }

  predicate Blocks(inbox: map<Req, Response>, sends: seq<Sent>) {
    sends != [] && (Blocks(inbox, sends[..|sends| - 1])
                    || sends[|sends| - 1].req in Deliver(inbox, sends[..|sends| - 1]))
  }

  /** Stopping a timer and draining its channel. */
  function Stopped(t: Timer): Timer {
    if t.NoTimer? then t else Timer(false, if t.running then t.tick else false)
  }

  function Flush(s: State, outcome: Outcome): State {
    if s.batch == [] then s
    else
      var sends := Responses(s.batch, outcome);
      s.(batch := [], timer := Stopped(s.timer),
         listening := if s.timer.NoTimer? then s.listening else false,
         flushed := s.flushed + [Flushed(s.batch, outcome)], sent := s.sent + sends,
         inbox := Deliver(s.inbox, sends), blocked := s.blocked || Blocks(s.inbox, sends))
  }

  /** A request received while the batch is empty starts the timer. */
  function Enqueue(s: State, r: Req): State {
    var t := if s.batch == [] then Timer(true, Stopped(s.timer).Timer? && Stopped(s.timer).tick) else s.timer;
    s.(batch := s.batch + [r], received := s.received + [r], timer := t,
       listening := if s.batch == [] then true else s.listening)
  }

  function Step(s: State, e: Event, max: nat): State {
    match e
    case Arrive(r, outcome) =>
      var s' := Enqueue(s, r);
      if |s'.batch| >= max then Flush(s', outcome) else s'
    case Tick(outcome) =>
      Flush(if s.timer.Timer? then s.(timer := s.timer.(tick := false)) else s, outcome)
    case Expire => if s.timer.Timer? then s.(timer := Timer(false, true)) else s
    case Take(r) => s.(inbox := s.inbox - {r})
  }

  /** When each event can happen; every Invoke makes a new request. */
  predicate Enabled(s: State, e: Event) {
    match e
    case Arrive(r, _) => r !in s.received
    case Tick(_) => s.batch != [] && s.listening && s.timer.Timer? && s.timer.tick
    case Expire => s.timer.Timer? && s.timer.running
    case Take(r) => r in s.inbox
  }

  // -------------------------------------------------------------------- invariant

  function AllReqs(fs: seq<Flushed>): seq<Req> {
    if fs == [] then [] else AllReqs(fs[..|fs| - 1]) + fs[|fs| - 1].reqs
  }

  function AllSent(fs: seq<Flushed>): seq<Sent> {
    if fs == [] then [] else AllSent(fs[..|fs| - 1]) + Responses(fs[|fs| - 1].reqs, fs[|fs| - 1].outcome)
  }

  predicate Distinct(s: seq<Req>) { forall i, j :: 0 <= i < j < |s| ==> s[i] != s[j] }

  /** Batches keep the order of arrival and the size limit; every request flushed has been
      answered, in order; nothing pending has; no send blocked; and the timer is armed
      exactly while a batch is open. */
  ghost predicate Inv(s: State, max: nat) {
    && AllReqs(s.flushed) + s.batch == s.received && Distinct(s.received)
    && (forall k :: 0 <= k < |s.flushed| ==> 1 <= |s.flushed[k].reqs| <= max)
    && |s.batch| < max
    && s.sent == AllSent(s.flushed) && !s.blocked
    && (forall r :: r in s.inbox ==> r in AllReqs(s.flushed))
    && (s.batch == [] ==> !s.listening && (s.timer.Timer? ==> !s.timer.running && !s.timer.tick))
    && (s.batch != [] ==> s.listening && s.timer.Timer? && (s.timer.running <==> !s.timer.tick))
  }

  lemma InvAtStart(max: nat)
    requires max >= 1
    ensures Inv(START, max)
  {
  }

  predicate FreshSends(inbox: map<Req, Response>, sends: seq<Sent>) {
    && (forall i, j :: 0 <= i < j < |sends| ==> sends[i].req != sends[j].req)
    && (forall i :: 0 <= i < |sends| ==> sends[i].req !in inbox)
  }

  /** Sends to distinct requests with empty channels never block. */
  lemma {:induction false} FreshSendsPass(inbox: map<Req, Response>, sends: seq<Sent>)
    requires FreshSends(inbox, sends)
    ensures !Blocks(inbox, sends)
    ensures forall r :: r in Deliver(inbox, sends) <==> r in inbox || exists i :: 0 <= i < |sends| && sends[i].req == r
  {
    if sends != [] {
      FreshSendsPass(inbox, sends[..|sends| - 1]);
    }
  }

  lemma DistinctParts(a: seq<Req>, b: seq<Req>)
    requires Distinct(a + b)
    ensures Distinct(b) && forall r :: r in a ==> r !in b
  {
    forall i, j | 0 <= i < j < |b|
      ensures b[i] != b[j]
    {
      assert (a + b)[|a| + i] == b[i] && (a + b)[|a| + j] == b[j];
    }
    forall i, j | 0 <= i < |a| && 0 <= j < |b|
      ensures a[i] != b[j]
    {
      assert (a + b)[i] == a[i] && (a + b)[|a| + j] == b[j];
    }
  }

  /** Everything but the resting conditions on batch and timer. */
  ghost predicate Recorded(s: State, max: nat) {
    && AllReqs(s.flushed) + s.batch == s.received && Distinct(s.received)
    && (forall k :: 0 <= k < |s.flushed| ==> 1 <= |s.flushed[k].reqs| <= max)
    && s.sent == AllSent(s.flushed) && !s.blocked
    && (forall r :: r in s.inbox ==> r in AllReqs(s.flushed))
  }

  /** Answering the open batch blocks nowhere and fills only its own channels. */
  lemma FlushDelivers(s: State, outcome: Outcome, max: nat)
    requires Recorded(s, max)
    ensures !Blocks(s.inbox, Responses(s.batch, outcome))
    ensures forall r :: r in Deliver(s.inbox, Responses(s.batch, outcome)) ==> r in s.received
  {
    hide Blocks, Deliver, ResponseAt;
    var sends := Responses(s.batch, outcome);
    DistinctParts(AllReqs(s.flushed), s.batch);
    assert forall i :: 0 <= i < |sends| ==> sends[i].req == s.batch[i] && s.batch[i] in s.batch;
    FreshSendsPass(s.inbox, sends);
  }

  lemma FlushRestores(s: State, outcome: Outcome, max: nat)
    requires Recorded(s, max) && 1 <= |s.batch| <= max
    requires s.timer.Timer? && (s.timer.running ==> !s.timer.tick)
    ensures Inv(Flush(s, outcome), max)
  {
    hide Blocks, Deliver, Responses;
    var s' := Flush(s, outcome);
    FlushDelivers(s, outcome, max);
    assert s'.flushed[..|s'.flushed| - 1] == s.flushed;
    assert AllReqs(s'.flushed) == s.received && s.received + [] == s.received;
  }

  lemma EnqueueRecords(s: State, r: Req, max: nat)
    requires Recorded(s, max) && r !in s.received
    ensures Recorded(Enqueue(s, r), max)
  {
    assert (AllReqs(s.flushed) + s.batch) + [r] == AllReqs(s.flushed) + (s.batch + [r]);
  }

  /** Every step keeps the invariant. */
  lemma StepKeeps(s: State, e: Event, max: nat)
    requires max >= 1 && Inv(s, max) && Enabled(s, e)
    ensures Inv(Step(s, e, max), max)
  {
    match e
    case Arrive(r, outcome) =>
      EnqueueRecords(s, r, max);
      var s' := Enqueue(s, r);
      if |s'.batch| >= max { FlushRestores(s', outcome, max); }
    case Tick(outcome) =>
      FlushRestores(s.(timer := s.timer.(tick := false)), outcome, max);
    case Expire =>
    case Take(_) =>
  }

  // ------------------------------------------------------------------ whole runs

  function Run(es: seq<Event>, max: nat): State {
    if es == [] then START else Step(Run(es[..|es| - 1], max), es[|es| - 1], max)
  }

  ghost predicate Possible(es: seq<Event>, max: nat) {
    es == [] || (Possible(es[..|es| - 1], max) && Enabled(Run(es[..|es| - 1], max), es[|es| - 1]))
  }

  lemma {:induction false} RunKeeps(es: seq<Event>, max: nat)
    requires max >= 1 && Possible(es, max)
    ensures Inv(Run(es, max), max)
  {
    if es == [] {
      InvAtStart(max);
    } else {
      RunKeeps(es[..|es| - 1], max);
      StepKeeps(Run(es[..|es| - 1], max), es[|es| - 1], max);
    }
  }

  lemma {:induction false} SentIs(fs: seq<Flushed>, k: nat, i: nat) returns (n: nat)
    requires k < |fs| && i < |fs[k].reqs|
    ensures n < |AllSent(fs)| && AllSent(fs)[n] == Sent(fs[k].reqs[i], ResponseAt(fs[k].outcome, i, |fs[k].reqs|))
  {
    if k == |fs| - 1 {
      n := |AllSent(fs[..|fs| - 1])| + i;
    } else {
      n := SentIs(fs[..|fs| - 1], k, i);
    }
  }

  lemma {:induction false} SentReqs(fs: seq<Flushed>)
    ensures |AllSent(fs)| == |AllReqs(fs)|
    ensures forall n :: 0 <= n < |AllSent(fs)| ==> AllSent(fs)[n].req == AllReqs(fs)[n]
  {
    if fs != [] {
      SentReqs(fs[..|fs| - 1]);
    }
  }

  /** In every run, a request flushed at position `i` of a batch gets exactly one response: the
      error of the handler, the result with its own index, or, if the handler returned another
      number of results than there were requests, an error that says so. */
  lemma EveryRequestAnsweredOnce(es: seq<Event>, max: nat, k: nat, i: nat)
    requires max >= 1 && Possible(es, max)
    requires k < |Run(es, max).flushed| && i < |Run(es, max).flushed[k].reqs|
    ensures var s := Run(es, max);
            var f := s.flushed[k];
            exists n :: 0 <= n < |s.sent| && s.sent[n].req == f.reqs[i]
              && (forall m :: 0 <= m < |s.sent| && m != n ==> s.sent[m].req != f.reqs[i])
              && match f.outcome
                 case Failed(e) => s.sent[n].resp == SharedError(e)
                 case Results(rs) =>
                   if |rs| == |f.reqs| then s.sent[n].resp == Resp(rs[i])
                   else s.sent[n].resp == CountError(|rs|, |f.reqs|)
  {
    hide Run, Step;
    RunKeeps(es, max);
    var s := Run(es, max);
    var n := SentIs(s.flushed, k, i);
    SentReqs(s.flushed);
    DistinctPrefix(AllReqs(s.flushed), s.batch);
  }

  /** In every run, a request that arrives joins the open batch, which is flushed exactly if it
      is full then; a tick flushes the open batch; nothing else touches batches. */
  lemma FlushesExactly(es: seq<Event>, e: Event, max: nat)
    requires max >= 1 && Possible(es + [e], max)
    ensures var s, s' := Run(es, max), Run(es + [e], max);
            if e.Arrive? && |s.batch| + 1 == max
            then s'.batch == [] && s'.flushed == s.flushed + [Flushed(s.batch + [e.r], e.outcome)]
            else if e.Arrive? then s'.batch == s.batch + [e.r] && s'.flushed == s.flushed
            else if e.Tick? then s'.batch == [] && s'.flushed == s.flushed + [Flushed(s.batch, e.outcome)]
            else s'.batch == s.batch && s'.flushed == s.flushed
  {
    hide Responses, Deliver, Blocks;
    assert (es + [e])[..|es|] == es;
    RunKeeps(es, max);
  }

  /** In every run, an open batch can be flushed by its timer: it has fired, or it is running
      and the select can take its tick once it fires, but not before. */
  lemma TimerFlushes(es: seq<Event>, outcome: Outcome, max: nat)
    requires max >= 1 && Possible(es, max) && Run(es, max).batch != []
    ensures var s := Run(es, max);
            var more := if s.timer.Timer? && s.timer.running then [Expire, Tick(outcome)] else [Tick(outcome)];
            && (Possible(es + [Tick(outcome)], max) <==> !(s.timer.Timer? && s.timer.running))
            && Possible(es + more, max)
            && Run(es + more, max).batch == []
            && Run(es + more, max).flushed == s.flushed + [Flushed(s.batch, outcome)]
  {
    hide Responses, Deliver, Blocks;
    RunKeeps(es, max);
    var s, tick := Run(es, max), Tick(outcome);
    assert (es + [tick])[..|es|] == es;
    if s.timer.running {
      assert (es + [Expire])[..|es|] == es;
      assert es + [Expire, tick] == (es + [Expire]) + [tick];
      assert Possible(es + [Expire], max) && Enabled(Run(es + [Expire], max), tick);
      RunKeeps(es + [Expire], max);
      OneMore(es + [Expire], tick, max);
      FlushesExactly(es + [Expire], tick, max);
      FlushesExactly(es, Expire, max);
    } else {
      assert Enabled(s, tick);
      OneMore(es, tick, max);
      FlushesExactly(es, tick, max);
    }
  }

  lemma OneMore(es: seq<Event>, e: Event, max: nat)
    requires Possible(es, max) && Enabled(Run(es, max), e)
    ensures Possible(es + [e], max)
  {
    hide Enabled;
    assert (es + [e])[..|es|] == es;
  }

  /** An empty batch has no timer that could fire or tick. */
  lemma NoTimerWhenEmpty(es: seq<Event>, outcome: Outcome, max: nat)
    requires max >= 1 && Possible(es, max) && Run(es, max).batch == []
    ensures !Possible(es + [Expire], max) && !Possible(es + [Tick(outcome)], max)
  {
    hide Step;
    RunKeeps(es, max);
    NotEnabled(es, Expire, max);
    NotEnabled(es, Tick(outcome), max);
  }

  lemma NotEnabled(es: seq<Event>, e: Event, max: nat)
    requires !Enabled(Run(es, max), e)
    ensures !Possible(es + [e], max)
  {
    hide Enabled, Run;
    assert (es + [e])[..|es|] == es;
  }

  /** What `sent` says the response to `r` was, unless it has been taken. */
  ghost predicate Awaits(s: State, es: seq<Event>, r: Req) {
    if r in s.inbox then Take(r) !in es && Sent(r, s.inbox[r]) in s.sent
    else Take(r) in es || forall n :: 0 <= n < |s.sent| ==> s.sent[n].req != r
  }

  lemma {:induction false} DeliverAdds(inbox: map<Req, Response>, sends: seq<Sent>, r: Req)
    ensures var after := Deliver(inbox, sends);
            if (exists i :: 0 <= i < |sends| && sends[i].req == r) then r in after && Sent(r, after[r]) in sends
            else (r in after <==> r in inbox) && (r in inbox ==> after[r] == inbox[r])
  {
    if sends != [] {
      var front, last := sends[..|sends| - 1], sends[|sends| - 1];
      DeliverAdds(inbox, front, r);
      assert sends == front + [last];
      if last.req != r && exists i :: 0 <= i < |sends| && sends[i].req == r {
        var i :| 0 <= i < |sends| && sends[i].req == r;
        assert front[i].req == r;
      }
    }
  }

  lemma FlushAwaits(s: State, outcome: Outcome, es: seq<Event>, r: Req)
    requires Awaits(s, es, r) && (r in s.batch ==> Take(r) !in es)
    ensures Awaits(Flush(s, outcome), es, r)
  {
    hide Deliver, Blocks, ResponseAt;
    if s.batch != [] {
      var sends := Responses(s.batch, outcome);
      DeliverAdds(s.inbox, sends, r);
      var s' := Flush(s, outcome);
      assert s'.sent == s.sent + sends && s'.inbox == Deliver(s.inbox, sends);
      if i :| 0 <= i < |sends| && sends[i].req == r {
        assert r == s.batch[i];
      } else if r !in s'.inbox && Take(r) !in es {
        forall n | 0 <= n < |s'.sent| ensures s'.sent[n].req != r {
          if n >= |s.sent| { assert s'.sent[n] == sends[n - |s.sent|]; }
        }
      }
    }
  }

  /** In every run, a response waits for its invoker from the flush until it is taken: `r`
      has one waiting exactly if one was sent and none was taken, and it is the one sent. */
  lemma {:induction false} ResponseWaits(es: seq<Event>, max: nat, r: Req)
    requires max >= 1 && Possible(es, max)
    ensures Awaits(Run(es, max), es, r)
    ensures Take(r) in es ==> r in AllReqs(Run(es, max).flushed)
  {
    hide Step, Inv, Enabled, Awaits, AllReqs;
    if es == [] {
      NothingAwaited(r);
    } else {
      var front, e := es[..|es| - 1], es[|es| - 1];
      var s := Run(front, max);
      ResponseWaits(front, max, r);
      RunKeeps(front, max);
      StepAwaits(s, front, e, max, r);
      assert es == front + [e];
    }
  }

  lemma NothingAwaited(r: Req)
    ensures Awaits(START, [], r)
  {
  }

  lemma StepAwaits(s: State, es: seq<Event>, e: Event, max: nat, r: Req)
    requires max >= 1 && Inv(s, max) && Enabled(s, e) && Awaits(s, es, r)
    requires Take(r) in es ==> r in AllReqs(s.flushed)
    ensures Awaits(Step(s, e, max), es + [e], r)
    ensures Take(r) in es + [e] ==> r in AllReqs(Step(s, e, max).flushed)
  {
    hide Responses, Deliver, Blocks, Awaits;
    if r in AllReqs(s.flushed) { FlushedGrows(s, e, max, r); }
    match e
    case Arrive(q, outcome) =>
      var s' := Enqueue(s, q);
      QuietAwaits(s, s', es, e, r);
      PendingUntaken(s, [q], max, r);
      if |s'.batch| >= max { FlushAwaits(s', outcome, es + [e], r); }
    case Tick(outcome) =>
      var s' := s.(timer := s.timer.(tick := false));
      QuietAwaits(s, s', es, e, r);
      PendingUntaken(s, [], max, r);
      FlushAwaits(s', outcome, es + [e], r);
    case Expire => QuietAwaits(s, Step(s, e, max), es, e, r);
    case Take(q) => TakeAwaits(s, es, q, r);
  }

  /** A request that is pending or just arriving was not flushed before. */
  lemma PendingUntaken(s: State, next: seq<Req>, max: nat, r: Req)
    requires Inv(s, max) && forall i :: 0 <= i < |next| ==> next[i] !in s.received
    ensures r in s.batch + next ==> r !in AllReqs(s.flushed)
  {
    var done := AllReqs(s.flushed);
    forall i, j | 0 <= i < |done| && 0 <= j < |s.batch| ensures done[i] != s.batch[j] {
      assert s.received[i] == done[i] && s.received[|done| + j] == s.batch[j];
    }
    assert r in done ==> r in s.received;
  }

  lemma FlushedGrows(s: State, e: Event, max: nat, r: Req)
    requires r in AllReqs(s.flushed)
    ensures r in AllReqs(Step(s, e, max).flushed)
  {
    var s' := Step(s, e, max);
    if s'.flushed != s.flushed {
      assert s'.flushed[..|s'.flushed| - 1] == s.flushed;
    }
  }

  lemma QuietAwaits(s: State, s': State, es: seq<Event>, e: Event, r: Req)
    requires Awaits(s, es, r) && !e.Take? && s'.inbox == s.inbox && s'.sent == s.sent
    ensures Awaits(s', es + [e], r)
  {
  }

  lemma TakeAwaits(s: State, es: seq<Event>, q: Req, r: Req)
    requires Awaits(s, es, r) && q in s.inbox
    ensures Awaits(s.(inbox := s.inbox - {q}), es + [Take(q)], r)
  {
  }

  lemma DistinctPrefix(a: seq<Req>, b: seq<Req>)
    requires Distinct(a + b)
    ensures Distinct(a)
  {
    forall i, j | 0 <= i < j < |a|
      ensures a[i] != a[j]
    {
      assert (a + b)[i] == a[i] && (a + b)[j] == a[j];
    }
  }

  lemma PendingUnanswered(es: seq<Event>, max: nat, r: Req)
    requires max >= 1 && Possible(es, max) && r in Run(es, max).batch
    ensures forall n :: 0 <= n < |Run(es, max).sent| ==> Run(es, max).sent[n].req != r
  {
    hide Run, Step;
    RunKeeps(es, max);
    var s := Run(es, max);
    SentReqs(s.flushed);
    DistinctParts(AllReqs(s.flushed), s.batch);
    assert forall n :: 0 <= n < |s.sent| ==> AllReqs(s.flushed)[n] in AllReqs(s.flushed);
  }

  // ------------------------------------------------------------- the run loop itself

  class Scheduler {
    const max: nat
    var batch: seq<Req>
    var timer: Timer
    var listening: bool
    var inbox: map<Req, Response>
    // What has happened so far.
    ghost var received: seq<Req>
    ghost var flushed: seq<Flushed>
    ghost var sent: seq<Sent>
    ghost var blocked: bool

    ghost function View(): State
      reads this
    {
      State(batch, timer, listening, received, flushed, sent, inbox, blocked)
    }

    constructor (max: nat)
      ensures View() == START && this.max == max
    {
      this.max := max;
      batch, timer, listening, inbox := [], NoTimer, false, map[];
      received, flushed, sent, blocked := [], [], [], false;
    }

    /** One send on a response channel. */
    method Send(r: Req, resp: Response)
      modifies this`inbox, this`sent, this`blocked
      ensures inbox == old(inbox)[r := resp] && sent == old(sent) + [Sent(r, resp)]
      ensures blocked <==> old(blocked) || r in old(inbox)
    {
      blocked := blocked || r in inbox;
      inbox := inbox[r := resp];
      sent := sent + [Sent(r, resp)];
    }

    method StopTimer()
      modifies this`timer
      ensures timer == Stopped(old(timer))
    {
      if timer.Timer? {
        var fired := !timer.running;
        timer := timer.(running := false);
        if fired {
          timer := timer.(tick := false);
        }
      }
    }

    /** The flush closure, given what the handler returns for the batch. */
    method FlushBatch(outcome: Outcome)
      modifies this
      ensures View() == Flush(old(View()), outcome)
    {
      hide Deliver, Blocks;
      if |batch| == 0 {
        return;
      }
      ghost var sends := Responses(batch, outcome);
      ghost var n := |batch|;
      NoSends(inbox);
      for i := 0 to |batch|
        invariant batch == old(batch) && timer == old(timer) && listening == old(listening)
        invariant received == old(received) && flushed == old(flushed)
        invariant inbox == Deliver(old(inbox), sends[..i]) && sent == old(sent) + sends[..i]
        invariant blocked <==> old(blocked) || Blocks(old(inbox), sends[..i])
      {
        OneMoreSend(old(inbox), sends, i);
        assert sends[..i + 1] == sends[..i] + [sends[i]];
        if outcome.Failed? {
          Send(batch[i], SharedError(outcome.err));
        } else if |outcome.resps| != |batch| {
          Send(batch[i], CountError(|outcome.resps|, |batch|));
        } else {
          Send(batch[i], Resp(outcome.resps[i]));
        }
      }
      assert sends[..n] == sends;
      flushed := flushed + [Flushed(batch, outcome)];
      batch := [];
      if timer.Timer? {
        StopTimer();
        listening := false;
      }
    }

    /** The loop takes a request, from the blocking receive or from the select. */
    method OnRequest(r: Req, outcome: Outcome)
      modifies this
      ensures View() == Step(old(View()), Arrive(r, outcome), max)
    {
      hide Deliver, Blocks, Responses;
      received := received + [r];
      if |batch| == 0 {
        batch := batch + [r];
        if timer.NoTimer? {
          timer := Timer(true, false);
        } else {
          StopTimer();
          timer := timer.(running := true);
        }
        listening := true;
      } else {
        batch := batch + [r];
      }
      assert View() == Enqueue(old(View()), r);
      if |batch| >= max {
        FlushBatch(outcome);
      }
    }

    /** The select takes the timer case. */
    method OnTick(outcome: Outcome)
      modifies this
      ensures View() == Step(old(View()), Tick(outcome), max)
    {
      hide Deliver, Blocks, Responses;
      if timer.Timer? {
        timer := timer.(tick := false);
      }
      FlushBatch(outcome);
    }
  }

  lemma NoSends(inbox: map<Req, Response>)
    ensures Deliver(inbox, []) == inbox && !Blocks(inbox, [])
  {
  }

  lemma OneMoreSend(inbox: map<Req, Response>, sends: seq<Sent>, i: nat)
    requires i < |sends|
    ensures var before := Deliver(inbox, sends[..i]);
            && Deliver(inbox, sends[..i + 1]) == before[sends[i].req := sends[i].resp]
            && (Blocks(inbox, sends[..i + 1]) <==> Blocks(inbox, sends[..i]) || sends[i].req in before)
  {
    assert sends[..i + 1][..i] == sends[..i];
  }
}

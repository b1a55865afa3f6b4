/** LeastConnBalancer: counters addressed through immutable index snapshots.  Register
    holds a mutex; Next and Done are sequences of atomic steps that may interleave with it
    and with each other. */
module LeastConn {

  type Index = map<string, nat>

  /** The holder of the mutex is building the next snapshot. */
  datatype Mutex = Free | Held(building: Index)

  /** `index` is the published snapshot; `snaps` holds the snapshot each thread last loaded. */
  datatype State = State(index: Index, mutex: Mutex, eps: seq<int>, snaps: seq<Index>)

  /** Lock, AddTarget and Publish are the steps of Register; Load and Pick those of Next, and
      Load and Done those of Done. */
  datatype Act = Lock | AddTarget(target: string) | Publish
               | Load(thread: nat) | Pick(thread: nat, target: string) | Done(thread: nat, target: string)

  function Start(threads: nat): State { State(map[], Free, [], seq(threads, _ => map[])) }

  function Bump(eps: seq<int>, i: nat, d: int): seq<int> {
    if i < |eps| then eps[i := eps[i] + d] else eps
  }

  function Step(s: State, a: Act): State {
    match a
    case Lock => s.(mutex := Held(s.index))
    case AddTarget(t) =>
      if s.mutex.Held? && t !in s.mutex.building
      then s.(eps := s.eps + [0], mutex := Held(s.mutex.building[t := |s.eps|])) else s
    case Publish => if s.mutex.Held? then s.(index := s.mutex.building, mutex := Free) else s
    case Load(th) => if th < |s.snaps| then s.(snaps := s.snaps[th := s.index]) else s
    case Pick(th, t) =>
      if th < |s.snaps| && t in s.snaps[th] then s.(eps := Bump(s.eps, s.snaps[th][t], 1)) else s
    case Done(th, t) =>
      if th < |s.snaps| && t in s.snaps[th] then s.(eps := Bump(s.eps, s.snaps[th][t], -1)) else s
  }

  /** In every possible run a target is in the newest snapshot exactly if it has been added,
      and the published one is the newest whenever the mutex is free. */
  lemma {:induction false} RegisteredExactly(threads: nat, acts: seq<Act>, t: string)
    requires Possible(threads, acts)
    ensures t in Newest(Run(threads, acts)) <==> AddTarget(t) in acts
    ensures Run(threads, acts).mutex.Free? ==> (t in Run(threads, acts).index <==> AddTarget(t) in acts)
  {
    hide Net;
    if acts != [] {
      RegisteredExactly(threads, acts[..|acts| - 1], t);
      assert acts == acts[..|acts| - 1] + [acts[|acts| - 1]];
    }
  }

  /** In every possible run with the mutex free, a thread that loads the snapshot can pick
      exactly the targets that have been added. */
  lemma PicksAfterLoad(threads: nat, acts: seq<Act>, th: nat, t: string)
    requires Possible(threads, acts) && Run(threads, acts).mutex.Free? && th < threads
    ensures Possible(threads, acts + [Load(th), Pick(th, t)]) <==> AddTarget(t) in acts
  {
    hide Net;
    var s, more := Run(threads, acts), acts + [Load(th)];
    RegisteredExactly(threads, acts, t);
    ThreadsStay(threads, acts);
    assert more[..|acts|] == acts && acts + [Load(th), Pick(th, t)] == more + [Pick(th, t)];
    assert (more + [Pick(th, t)])[..|more|] == more;
    assert Possible(threads, more) && Run(threads, more).snaps[th] == s.index;
  }

  lemma {:induction false} ThreadsStay(threads: nat, acts: seq<Act>)
    ensures |Run(threads, acts).snaps| == threads
  {
    if acts != [] {
      ThreadsStay(threads, acts[..|acts| - 1]);
    }
  }

  /** Net effect of a run on a target: picks minus matching calls of Done. */
  function Net(acts: seq<Act>, t: string): int {
    if acts == [] then 0
    else
      Net(acts[..|acts| - 1], t) + Change(acts[|acts| - 1], t)
  }

  function Change(a: Act, t: string): int {
    match a
    case Pick(_, u) => if u == t then 1 else 0
    case Done(_, u) => if u == t then -1 else 0
    case _ => 0
  }

  function Run(threads: nat, acts: seq<Act>): State {
    if acts == [] then Start(threads) else Step(Run(threads, acts[..|acts| - 1]), acts[|acts| - 1])
  }

  /** The mutex is free for Lock and held for AddTarget and Publish; a thread picks from its
      snapshot; each Done matches a pick made before its thread loaded its snapshot, so that
      the target is in it. */
  predicate Enabled(s: State, acts: seq<Act>, a: Act) {
    match a
    case Lock => s.mutex.Free?
    case AddTarget(_) => s.mutex.Held?
    case Publish => s.mutex.Held?
    case Load(th) => th < |s.snaps|
    case Pick(th, t) => th < |s.snaps| && t in s.snaps[th]
    case Done(th, t) => th < |s.snaps| && t in s.snaps[th] && Net(acts, t) > 0
  }

  ghost predicate Possible(threads: nat, acts: seq<Act>) {
    acts == [] ||
    (Possible(threads, acts[..|acts| - 1])
     && Enabled(Run(threads, acts[..|acts| - 1]), acts[..|acts| - 1], acts[|acts| - 1]))
  }

  // -------------------------------------------------------------------- invariant

  /** The newest index, published or not. */
  function Newest(s: State): Index { if s.mutex.Held? then s.mutex.building else s.index }

  predicate Extends(big: Index, small: Index) {
    forall t :: t in small ==> t in big && big[t] == small[t]
  }

  predicate Addressing(ix: Index, n: nat) {
    && (forall t :: t in ix ==> ix[t] < n)
    && (forall t, u :: t in ix && u in ix && t != u ==> ix[t] != ix[u])
  }

  /** Snapshots only grow, so an older one addresses the same counters; and every counter
      is its target's net count. */
  ghost predicate Inv(s: State, acts: seq<Act>) {
    && Addressing(Newest(s), |s.eps|) && Extends(Newest(s), s.index)
    && (forall i :: 0 <= i < |s.snaps| ==> Extends(s.index, s.snaps[i]))
    && (forall t :: t in Newest(s) ==> s.eps[Newest(s)[t]] == Net(acts, t))
    && (forall t :: t !in s.index ==> Net(acts, t) == 0)
  }

  lemma NetStep(acts: seq<Act>, a: Act, t: string)
    ensures Net(acts + [a], t) == Net(acts, t) + Change(a, t)
  {
    assert (acts + [a])[..|acts|] == acts;
  }

  /** Registering a target appends a zero counter for it. */
  lemma AddKeeps(s: State, acts: seq<Act>, t: string)
    requires Inv(s, acts) && s.mutex.Held?
    ensures Inv(Step(s, AddTarget(t)), acts)
  {
    hide Net;
    if t !in s.mutex.building {
      assert t !in s.index;
    }
  }

  /** Counting one up or down, at the address any snapshot has for the target. */
  lemma BumpKeeps(s: State, acts: seq<Act>, a: Act, t: string, d: int)
    requires Inv(s, acts) && t in s.index
    requires forall u :: Net(acts + [a], u) == Net(acts, u) + if u == t then d else 0
    ensures Inv(s.(eps := Bump(s.eps, s.index[t], d)), acts + [a])
  {
    hide Net;
    var ix := Newest(s);
    assert ix[t] == s.index[t];
    assert forall u :: u in ix && u != t ==> ix[u] != ix[t];
  }

  lemma StepKeeps(s: State, acts: seq<Act>, a: Act)
    requires Inv(s, acts) && Enabled(s, acts, a)
    ensures Inv(Step(s, a), acts + [a])
  {
    hide Net, Bump, Addressing;
    forall t
      ensures Net(acts + [a], t) == Net(acts, t) + Change(a, t)
    {
      NetStep(acts, a, t);
    }
    match a
    case Lock =>
    case AddTarget(t) => AddKeeps(s, acts, t);
    case Publish =>
    case Load(th) =>
    case Pick(th, t) =>
      assert Extends(s.index, s.snaps[th]);
      BumpKeeps(s, acts, a, t, 1);
    case Done(th, t) =>
      assert Extends(s.index, s.snaps[th]);
      BumpKeeps(s, acts, a, t, -1);
  }

  lemma {:induction false} RunKeeps(threads: nat, acts: seq<Act>)
    requires Possible(threads, acts)
    ensures Inv(Run(threads, acts), acts)
  {
    if acts != [] {
      var front, a := acts[..|acts| - 1], acts[|acts| - 1];
      RunKeeps(threads, front);
      StepKeeps(Run(threads, front), front, a);
      assert acts == front + [a];
    }
  }

  /** Under every interleaving the counter of a registered target equals the picks minus
      the Done calls for it, and any snapshot a thread still holds finds the same counter. */
  lemma CountsConserved(threads: nat, acts: seq<Act>, t: string)
    requires Possible(threads, acts)
    ensures var s := Run(threads, acts);
            && (t in s.index ==> s.index[t] < |s.eps| && s.eps[s.index[t]] == Net(acts, t))
            && (t !in s.index ==> Net(acts, t) == 0)
            && forall i :: 0 <= i < |s.snaps| && t in s.snaps[i] ==> t in s.index && s.snaps[i][t] == s.index[t]
  {
    hide Net, Run;
    RunKeeps(threads, acts);
    var s := Run(threads, acts);
    forall i | 0 <= i < |s.snaps| && t in s.snaps[i]
      ensures t in s.index && s.snaps[i][t] == s.index[t]
    {
      assert Extends(s.index, s.snaps[i]);
    }
  }

  // --------------------------------------------------------------- sequential use

  lemma InBounds(ix: Index, n: nat)
    requires Addressing(ix, n)
    ensures forall t :: t in ix ==> ix[t] < n
  {
  }

  function LastNegative(c: seq<int>): (n: int)
    ensures -1 <= n < |c|
    ensures n >= 0 ==> c[n] < 0
    ensures forall j :: n < j < |c| ==> c[j] >= 0
  {
    if c == [] then -1 else if c[|c| - 1] < 0 then |c| - 1 else LastNegative(c[..|c| - 1])
  }

  /** Where the comparison starts: the scan takes a negative minimum for no minimum. */
  function Compared(c: seq<int>): (n: nat)
    requires c != []
    ensures n < |c|
  {
    if LastNegative(c) == |c| - 1 then |c| - 1 else LastNegative(c) + 1
  }

  /** `k` is the first of the smallest loads that are compared; with no negative load these
      are all of them. */
  predicate FirstLeast(c: seq<int>, k: nat) {
    && c != [] && Compared(c) <= k < |c|
    && (forall j :: Compared(c) <= j < |c| ==> c[k] <= c[j])
    && (forall j :: Compared(c) <= j < k ==> c[k] < c[j])
  }

  lemma OneLoad(c: seq<int>)
    requires |c| == 1
    ensures FirstLeast(c, 0)
  {
  }

  lemma NextLoad(c: seq<int>, best: nat, cur: int)
    requires FirstLeast(c, best)
    ensures FirstLeast(c + [cur], if c[best] < 0 || cur < c[best] then |c| else best)
  {
    var d := c + [cur];
    assert d[..|c|] == c;
    assert LastNegative(d) == if cur < 0 then |c| else LastNegative(c);
  }

  lemma AllCompared(c: seq<int>, k: nat)
    requires FirstLeast(c, k) && forall j :: 0 <= j < |c| ==> c[j] >= 0
    ensures forall j :: 0 <= j < |c| ==> c[k] <= c[j]
  {
    assert LastNegative(c) == -1;
  }

  class Balancer {
    var index: Index
    var eps: seq<int>

    ghost predicate Valid()
      reads this
    {
      Addressing(index, |eps|)
    }

    ghost function Count(t: string): int
      reads this
      requires Valid()
    {
      if t in index then eps[index[t]] else 0
    }

    constructor ()
      ensures Valid() && index == map[] && eps == []
    {
      index, eps := map[], [];
    }

    method Register(targets: seq<string>)
      requires Valid()
      modifies this
      ensures Valid() && Extends(index, old(index)) && old(eps) <= eps
      ensures forall t :: t in targets ==> t in index
      ensures forall t :: Count(t) == old(Count(t))
    {
      var next: Index := index;
      for k := 0 to |targets|
        invariant index == old(index) && Addressing(next, |eps|) && Extends(next, index)
        invariant old(eps) <= eps
        invariant forall t :: t in targets[..k] ==> t in next
        invariant forall t :: t in next ==> eps[next[t]] == old(Count(t))
      {
        assert forall t :: t in targets[..k + 1] ==> t in targets[..k] || t == targets[k];
        if targets[k] !in next {
          next := next[targets[k] := |eps|];
          eps := eps + [0];
        }
      }
      assert targets[..|targets|] == targets;
      index := next;
    }

    /** Picks the first target with the smallest counter and increments it; if there are
        negative counters, it does so among the targets behind the last of them. */
    method Next(targets: seq<string>) returns (selected: string, ok: bool)
      requires Valid()
      modifies this
      ensures Valid() && ok == (targets != [])
      ensures ok ==> exists k :: 0 <= k < |targets| && targets[k] == selected && FirstLeast(old(Loads(targets)), k)
      ensures forall t :: Count(t) == old(Count(t)) + if ok && t == selected then 1 else 0
    {
      hide FirstLeast;
      if |targets| == 0 {
        return "", false;
      }
      ghost var loads := Loads(targets);
      RegisterMissing(targets);
      InBounds(index, |eps|);
      var best, minActive := 0, -1;
      for k := 0 to |targets|
        invariant 0 <= best < |targets|
        invariant k == 0 ==> minActive == -1
        invariant k > 0 ==> best < k && minActive == loads[best] && FirstLeast(loads[..k], best)
        modifies {}
      {
        assert k > 0 ==> loads[..k + 1] == loads[..k] + [loads[k]];
        var cur := eps[index[targets[k]]];
        assert cur == loads[k];
        if k == 0 {
          OneLoad(loads[..1]);
        } else {
          NextLoad(loads[..k], best, cur);
        }
        if minActive < 0 || cur < minActive {
          minActive, best := cur, k;
        }
      }
      assert loads[..|targets|] == loads;
      selected, ok := targets[best], true;
      Add(targets[best], 1);
    }

    method RegisterMissing(targets: seq<string>)
      requires Valid()
      modifies this
      ensures Valid() && forall t :: t in targets ==> t in index
      ensures forall t :: Count(t) == old(Count(t))
    {
      hide Addressing;
      for k := 0 to |targets|
        invariant Valid() && forall j :: 0 <= j < k ==> targets[j] in index
        invariant forall t :: Count(t) == old(Count(t))
      {
        if targets[k] !in index {
          Register([targets[k]]);
          assert targets[k] in [targets[k]];
        }
      }
    }

    ghost function Loads(targets: seq<string>): (c: seq<int>)
      reads this
      requires Valid()
      ensures |c| == |targets| && forall k :: 0 <= k < |targets| ==> c[k] == Count(targets[k])
    {
      seq(|targets|, k reads this requires Valid() && 0 <= k < |targets| => Count(targets[k]))
    }

    /** An atomic add on the counter of a registered target. */
    method Add(t: string, d: int)
      requires Valid() && t in index
      modifies this
      ensures Valid() && index == old(index)
      ensures forall u :: Count(u) == old(Count(u)) + if u == t then d else 0
    {
      eps := eps[index[t] := eps[index[t]] + d];
    }

    method DoneWith(target: string)
      requires Valid()
      modifies this
      ensures Valid() && index == old(index)
      ensures forall t :: Count(t) == old(Count(t)) - if t == target && t in index then 1 else 0
    {
      if target in index {
        Add(target, -1);
      }
    }
  }

  /** A sequence of choices, each of a target whose count is smallest at the time. */
  ghost predicate LeastEachTime(targets: seq<string>, picks: seq<string>) {
    forall n :: 0 <= n < |picks| ==>
      picks[n] in targets && forall t :: t in targets ==> Times(picks[..n], picks[n]) <= Times(picks[..n], t)
  }

  function Times(picks: seq<string>, t: string): nat {
    if picks == [] then 0 else Times(picks[..|picks| - 1], t) + if picks[|picks| - 1] == t then 1 else 0
  }

  /** Without Done, counts over one target list never differ by more than one. */
  lemma {:induction false} Balanced(targets: seq<string>, picks: seq<string>, a: string, b: string)
    requires LeastEachTime(targets, picks) && a in targets && b in targets
    ensures Times(picks, a) <= Times(picks, b) + 1
  {
    if picks != [] {
      var front, last := picks[..|picks| - 1], picks[|picks| - 1];
      assert forall n :: 0 <= n < |front| ==> front[..n] == picks[..n];
      Balanced(targets, front, a, b);
      assert Times(front, last) <= Times(front, b);
    }
  }

  /** Calling Next repeatedly, with no Done between, on a balancer with no load. */
  method DrawMany(b: Balancer, targets: seq<string>, n: nat) returns (picks: seq<string>)
    requires b.Valid() && targets != [] && forall t :: b.Count(t) == 0
    modifies b
    ensures |picks| == n && LeastEachTime(targets, picks)
    ensures b.Valid() && forall t :: b.Count(t) == Times(picks, t)
  {
    hide LeastEachTime, Times, Addressing, FirstLeast;
    picks := [];
    NoPicks(targets);
    while |picks| < n
      invariant |picks| <= n && b.Valid() && LeastEachTime(targets, picks)
      invariant forall t :: b.Count(t) == Times(picks, t)
    {
      ghost var loads := b.Loads(targets);
      var selected, ok := b.Next(targets);
      ghost var k :| 0 <= k < |targets| && targets[k] == selected && FirstLeast(loads, k);
      AllCompared(loads, k);
      LeastOfAll(targets, picks, loads, k);
      OneMorePick(targets, picks, selected);
      picks := picks + [selected];
    }
  }

  lemma LeastOfAll(targets: seq<string>, picks: seq<string>, loads: seq<int>, k: nat)
    requires |loads| == |targets| && forall j :: 0 <= j < |targets| ==> loads[j] == Times(picks, targets[j])
    requires k < |targets| && forall j :: 0 <= j < |targets| ==> loads[k] <= loads[j]
    ensures forall t :: t in targets ==> Times(picks, targets[k]) <= Times(picks, t)
  {
    hide Times;
  }

  lemma NoPicks(targets: seq<string>)
    ensures LeastEachTime(targets, []) && forall t :: Times([], t) == 0
  {
  }

  lemma OneMorePick(targets: seq<string>, picks: seq<string>, p: string)
    requires LeastEachTime(targets, picks) && p in targets
    requires forall t :: t in targets ==> Times(picks, p) <= Times(picks, t)
    ensures LeastEachTime(targets, picks + [p])
    ensures forall t :: Times(picks + [p], t) == Times(picks, t) + if t == p then 1 else 0
  {
    var next := picks + [p];
    assert next[..|picks|] == picks;
    assert forall m :: 0 <= m < |picks| ==> next[..m] == picks[..m];
  }
}

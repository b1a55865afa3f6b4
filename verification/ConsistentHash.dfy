/** ConsistentHashBalancer: a sorted ring of virtual nodes with an ownership map, and the
    nearest-clockwise rule it implements.  The hash is an arbitrary function to 32 bits. */
module ConsistentHash {
  import opened Bytes
  import opened Decimal

  type u32 = h: nat | h < TWO_32

  type Hash = string -> u32

  /** The ring position of virtual node `i` of a node. */
  function Point(hash: Hash, node: string, i: nat): u32 {
    hash(node + "#" + Itoa(i))
  }

  /** No two virtual nodes of the given nodes share a position. */
  ghost predicate CollisionFree(hash: Hash, replicas: nat, nodes: set<string>) {
    forall a, b, i, j | a in nodes && b in nodes && 0 <= i < replicas && 0 <= j < replicas ::
      Point(hash, a, i) == Point(hash, b, j) ==> a == b && i == j
  }

  /** How far clockwise `p` lies from `h`. */
  function Distance(h: u32, p: u32): nat { (p - h) % TWO_32 }

  /** `r` is a target with a virtual node that no virtual node of a target precedes,
      going clockwise from the key's hash. */
  ghost predicate Nearest(hash: Hash, replicas: nat, targets: set<string>, key: string, r: string) {
    r in targets && exists i :: 0 <= i < replicas && Closest(hash, replicas, targets, key, Point(hash, r, i))
  }

  ghost predicate Closest(hash: Hash, replicas: nat, targets: set<string>, key: string, p: u32) {
    forall t, j :: t in targets && 0 <= j < replicas ==>
      Distance(hash(key), p) <= Distance(hash(key), Point(hash, t, j))
  }

  // ------------------------------------------------------------- laws of the rule

  lemma DistanceInjective(h: u32, p: u32, q: u32)
    requires Distance(h, p) == Distance(h, q)
    ensures p == q
  {
  }

  /** There is only one nearest target, so lookups that obey the rule agree whatever
      happened to the ring before. */
  lemma NearestUnique(hash: Hash, replicas: nat, targets: set<string>, key: string, r: string, s: string)
    requires CollisionFree(hash, replicas, targets)
    requires Nearest(hash, replicas, targets, key, r) && Nearest(hash, replicas, targets, key, s)
    ensures r == s
  {
    var i :| 0 <= i < replicas && Closest(hash, replicas, targets, key, Point(hash, r, i));
    var j :| 0 <= j < replicas && Closest(hash, replicas, targets, key, Point(hash, s, j));
    DistanceInjective(hash(key), Point(hash, r, i), Point(hash, s, j));
  }

  /** Dropping a target moves only the keys it had. */
  lemma DropDisturbsLittle(hash: Hash, replicas: nat, targets: set<string>, gone: string, key: string,
                           before: string, after: string)
    requires CollisionFree(hash, replicas, targets)
    requires Nearest(hash, replicas, targets, key, before)
    requires Nearest(hash, replicas, targets - {gone}, key, after)
    ensures before != gone ==> after == before
  {
    if before != gone {
      var i :| 0 <= i < replicas && Closest(hash, replicas, targets, key, Point(hash, before, i));
      assert Closest(hash, replicas, targets - {gone}, key, Point(hash, before, i));
      NearestUnique(hash, replicas, targets - {gone}, key, before, after);
    }
  }

  /** Adding a target moves keys only onto it. */
  lemma AddDisturbsLittle(hash: Hash, replicas: nat, targets: set<string>, fresh_: string, key: string,
                          before: string, after: string)
    requires CollisionFree(hash, replicas, targets + {fresh_})
    requires Nearest(hash, replicas, targets, key, before)
    requires Nearest(hash, replicas, targets + {fresh_}, key, after)
    ensures after == before || after == fresh_
  {
    if after != fresh_ {
      var i :| 0 <= i < replicas && Closest(hash, replicas, targets + {fresh_}, key, Point(hash, after, i));
      assert Closest(hash, replicas, targets, key, Point(hash, after, i));
      NearestUnique(hash, replicas, targets, key, before, after);
    }
  }

  // ---------------------------------------------------------------- library calls

  predicate Sorted(s: seq<u32>) {
    forall i, j :: 0 <= i < j < |s| ==> s[i] <= s[j]
  }

  function Insert(s: seq<u32>, p: u32): seq<u32> {
    if s == [] || p <= s[0] then [p] + s else [s[0]] + Insert(s[1..], p)
  }

  lemma {:induction false} InsertAdds(s: seq<u32>, p: u32)
    ensures multiset(Insert(s, p)) == multiset(s) + multiset{p}
  {
    if s != [] && p > s[0] {
      InsertAdds(s[1..], p);
      assert s == [s[0]] + s[1..];
    }
  }

  lemma InsertElements(s: seq<u32>, p: u32, q: u32)
    requires q in Insert(s, p)
    ensures q == p || q in s
  {
    InsertAdds(s, p);
    assert q in multiset(Insert(s, p));
  }

  lemma {:induction false} InsertSorts(s: seq<u32>, p: u32)
    requires Sorted(s)
    ensures Sorted(Insert(s, p))
  {
    if s != [] && p > s[0] {
      InsertSorts(s[1..], p);
      var r := Insert(s[1..], p);
      forall q | q in r
        ensures s[0] <= q
      {
        InsertElements(s[1..], p, q);
      }
      assert forall i :: 0 <= i < |r| ==> r[i] in r;
    }
  }

  /** sort.Slice on the ring. */
  method SortRing(s: seq<u32>) returns (r: seq<u32>)
    ensures Sorted(r) && multiset(r) == multiset(s)
  {
    r := [];
    for k := 0 to |s|
      invariant Sorted(r) && multiset(r) == multiset(s[..k])
    {
      InsertAdds(r, s[k]);
      InsertSorts(r, s[k]);
      assert s[..k + 1] == s[..k] + [s[k]];
      r := Insert(r, s[k]);
    }
    assert s[..|s|] == s;
  }

  /** sort.Search for the first position at or after `h`. */
  method Search(s: seq<u32>, h: u32) returns (k: nat)
    requires Sorted(s)
    ensures k <= |s|
    ensures forall i :: 0 <= i < k ==> s[i] < h
    ensures forall i :: k <= i < |s| ==> h <= s[i]
  {
    var lo, hi := 0, |s|;
    while lo < hi
      invariant 0 <= lo <= hi <= |s|
      invariant forall i :: 0 <= i < lo ==> s[i] < h
      invariant forall i :: hi <= i < |s| ==> h <= s[i]
    {
      var mid := lo + (hi - lo) / 2;
      if s[mid] >= h { hi := mid; } else { lo := mid + 1; }
    }
    k := lo;
  }

  // --------------------------------------------------------------- the ring's index

  /** Ring and ownership map hold exactly the first `counts[n]` points of every node `n`,
      each once. */
  ghost predicate Indexed(hash: Hash, counts: map<string, nat>, ring: seq<u32>, owner: map<u32, string>) {
    && (forall p :: p in ring <==> p in owner)
    && (forall p :: multiset(ring)[p] <= 1)
    && (forall p :: p in owner ==> owner[p] in counts && HasPoint(hash, owner[p], counts[owner[p]], p))
    && (forall n, i | n in counts && 0 <= i < counts[n] ::
          Point(hash, n, i) in owner && owner[Point(hash, n, i)] == n)
  }

  ghost predicate HasPoint(hash: Hash, node: string, count: nat, p: u32) {
    exists i :: 0 <= i < count && Point(hash, node, i) == p
  }

  function Full(nodes: set<string>, replicas: nat): map<string, nat> {
    map n | n in nodes :: replicas
  }

  /** `p` is the hash of the node's name, a hash sign and the decimal number `i`. */
  predicate NamedPoint(hash: Hash, node: string, i: nat, p: u32) {
    hash(node + "#" + Digits(i)) == p
  }

  /** The ring of the nodes `nodes` holds exactly their named points for the numbers below
      `replicas`, each of which belongs to a node that has it. */
  lemma RingIsExactly(hash: Hash, nodes: set<string>, replicas: nat, ring: seq<u32>, owner: map<u32, string>, p: u32)
    requires Indexed(hash, Full(nodes, replicas), ring, owner)
    ensures p in ring <==> exists n, i: nat :: n in nodes && i < replicas && NamedPoint(hash, n, i, p)
    ensures p in ring ==> owner[p] in nodes && exists i: nat :: i < replicas && NamedPoint(hash, owner[p], i, p)
  {
    if p in ring {
      var i :| 0 <= i < replicas && Point(hash, owner[p], i) == p;
      assert NamedPoint(hash, owner[p], i, p);
    }
    forall n, i: nat | n in nodes && i < replicas && NamedPoint(hash, n, i, p) ensures p in ring {
      assert Point(hash, n, i) in owner;
    }
  }

  lemma AddPoint(hash: Hash, replicas: nat, counts: map<string, nat>, ring: seq<u32>, owner: map<u32, string>,
                 node: string)
    requires Indexed(hash, counts, ring, owner) && CollisionFree(hash, replicas, counts.Keys)
    requires node in counts && counts[node] < replicas && forall n :: n in counts ==> counts[n] <= replicas
    ensures var p := Point(hash, node, counts[node]);
            p !in owner && Indexed(hash, counts[node := counts[node] + 1], ring + [p], owner[p := node])
  {
    var k := counts[node];
    var p := Point(hash, node, k);
    assert p !in owner;
    var counts', owner', ring' := counts[node := k + 1], owner[p := node], ring + [p];
    assert multiset(ring') == multiset(ring) + multiset{p};
    assert p !in multiset(ring);
    forall q | q in owner'
      ensures owner'[q] in counts' && HasPoint(hash, owner'[q], counts'[owner'[q]], q)
    {
      if q != p {
        var i :| 0 <= i < counts[owner[q]] && Point(hash, owner[q], i) == q;
      }
    }
  }

  lemma RingSorted(hash: Hash, counts: map<string, nat>, ring: seq<u32>, sorted: seq<u32>, owner: map<u32, string>)
    requires Indexed(hash, counts, ring, owner) && multiset(sorted) == multiset(ring)
    ensures Indexed(hash, counts, sorted, owner)
  {
    forall p
      ensures p in sorted <==> p in ring
    {
      assert p in sorted <==> p in multiset(sorted);
      assert p in ring <==> p in multiset(ring);
    }
  }

  // -------------------------------------------------------------- clockwise scanning

  /** The position `m` steps after `start` on a ring of `n`. */
  function Step(start: nat, m: nat, n: nat): nat
    requires start < n && m < n
  {
    if start + m < n then start + m else start + m - n
  }

  /** Where the scan for hash `h` starts. */
  ghost predicate StartsAt(ring: seq<u32>, h: u32, start: nat) {
    && start < |ring| && Sorted(ring)
    && (forall i :: start <= i < |ring| && start > 0 ==> h <= ring[i])
    && (forall i :: 0 <= i < start ==> ring[i] < h)
    && (start == 0 ==> (forall i :: 0 <= i < |ring| ==> h <= ring[i]) || (forall i :: 0 <= i < |ring| ==> ring[i] < h))
  }

  /** Positions are met in order of clockwise distance. */
  lemma ScanInOrder(ring: seq<u32>, h: u32, start: nat, m: nat, m': nat)
    requires StartsAt(ring, h, start) && m <= m' < |ring|
    ensures Distance(h, ring[Step(start, m, |ring|)]) <= Distance(h, ring[Step(start, m', |ring|)])
  {
    var a, b := Step(start, m, |ring|), Step(start, m', |ring|);
    DistanceIs(h, ring[a]);
    DistanceIs(h, ring[b]);
    if m < m' && (start + m' < |ring| || start + m >= |ring|) {
      assert a < b;
    }
  }

  lemma DistanceIs(h: u32, p: u32)
    ensures Distance(h, p) == if h <= p then p - h else p - h + TWO_32
  {
  }

  lemma StepCovers(start: nat, n: nat, i: nat) returns (m: nat)
    requires start < n && i < n
    ensures m < n && Step(start, m, n) == i
  {
    m := if i >= start then i - start else i - start + n;
  }

  /** The first position owned by a target is the nearest point of the targets. */
  lemma FirstIsNearest(hash: Hash, replicas: nat, registered: set<string>, ring: seq<u32>, owner: map<u32, string>,
                       targets: set<string>, key: string, start: nat, m: nat)
    requires Indexed(hash, Full(registered, replicas), ring, owner) && targets <= registered
    requires StartsAt(ring, hash(key), start) && m < |ring|
    requires ring[Step(start, m, |ring|)] in owner && owner[ring[Step(start, m, |ring|)]] in targets
    requires forall k :: 0 <= k < m ==> Unowned(ring, owner, targets, Step(start, k, |ring|))
    ensures Nearest(hash, replicas, targets, key, owner[ring[Step(start, m, |ring|)]])
  {
    var p := ring[Step(start, m, |ring|)];
    forall t, j | t in targets && 0 <= j < replicas
      ensures Distance(hash(key), p) <= Distance(hash(key), Point(hash, t, j))
    {
      var q := Point(hash, t, j);
      assert q in owner && owner[q] == t;
      var i :| 0 <= i < |ring| && ring[i] == q;
      var m' := StepCovers(start, |ring|, i);
      assert m' >= m;
      ScanInOrder(ring, hash(key), start, m, m');
    }
    assert Closest(hash, replicas, targets, key, p);
    assert HasPoint(hash, owner[p], replicas, p);
  }

  predicate Unowned(ring: seq<u32>, owner: map<u32, string>, targets: set<string>, k: nat) {
    k < |ring| && ring[k] in owner && owner[ring[k]] !in targets
  }

  /** Some position on the ring belongs to a target. */
  lemma SomeOwned(hash: Hash, replicas: nat, registered: set<string>, ring: seq<u32>, owner: map<u32, string>,
                  targets: set<string>, t: string) returns (k: nat)
    requires Indexed(hash, Full(registered, replicas), ring, owner) && replicas > 0
    requires targets <= registered && t in targets
    ensures k < |ring| && !Unowned(ring, owner, targets, k)
  {
    var q := Point(hash, t, 0);
    assert t in Full(registered, replicas) && q in owner && owner[q] == t;
    k :| 0 <= k < |ring| && ring[k] == q;
  }

  // ---------------------------------------------------------------------- removal

  /** The positions that do not belong to `node`. */
  function Kept(s: seq<u32>, owner: map<u32, string>, node: string): seq<u32> {
    if s == [] then []
    else
      var front, last := s[..|s| - 1], s[|s| - 1];
      Kept(front, owner, node) + if last in owner && owner[last] == node then [] else [last]
  }

  lemma {:induction false} KeptElements(s: seq<u32>, owner: map<u32, string>, node: string)
    ensures forall p :: p in Kept(s, owner, node) <==> p in s && !(p in owner && owner[p] == node)
    ensures multiset(Kept(s, owner, node)) <= multiset(s)
  {
    if s != [] {
      var front, last := s[..|s| - 1], s[|s| - 1];
      KeptElements(front, owner, node);
      assert s == front + [last];
    }
  }

  lemma {:induction false} KeptSorted(s: seq<u32>, owner: map<u32, string>, node: string)
    requires Sorted(s)
    ensures Sorted(Kept(s, owner, node))
  {
    if s != [] {
      var front, last := s[..|s| - 1], s[|s| - 1];
      KeptSorted(front, owner, node);
      KeptElements(front, owner, node);
      var r := Kept(front, owner, node);
      assert forall i :: 0 <= i < |r| ==> r[i] in r;
    }
  }

  lemma OnceOnly(s: seq<u32>, k: nat)
    requires k < |s| && forall p :: multiset(s)[p] <= 1
    ensures s[k] !in s[..k]
  {
    assert s == s[..k] + [s[k]] + s[k + 1..];
    assert multiset(s) == multiset(s[..k]) + multiset{s[k]} + multiset(s[k + 1..]);
    assert multiset(s)[s[k]] >= multiset(s[..k])[s[k]] + 1;
  }

  lemma RemovePoints(hash: Hash, replicas: nat, registered: set<string>, ring: seq<u32>, owner: map<u32, string>,
                     node: string, owner': map<u32, string>)
    requires Indexed(hash, Full(registered, replicas), ring, owner)
    requires forall p :: p in owner' <==> p in owner && owner[p] != node
    requires forall p :: p in owner' ==> owner'[p] == owner[p]
    ensures Indexed(hash, Full(registered - {node}, replicas), Kept(ring, owner, node), owner')
  {
    KeptElements(ring, owner, node);
    var counts, counts' := Full(registered, replicas), Full(registered - {node}, replicas);
    forall p
      ensures multiset(Kept(ring, owner, node))[p] <= 1
    {
      assert multiset(Kept(ring, owner, node))[p] <= multiset(ring)[p];
    }
    forall p | p in owner'
      ensures owner'[p] in counts' && HasPoint(hash, owner'[p], counts'[owner'[p]], p)
    {
      assert owner[p] in counts && HasPoint(hash, owner[p], counts[owner[p]], p);
    }
    forall n, i | n in counts' && 0 <= i < counts'[n]
      ensures Point(hash, n, i) in owner' && owner'[Point(hash, n, i)] == n
    {
      assert n in counts && owner[Point(hash, n, i)] == n;
    }
  }

  lemma RingFacts(hash: Hash, counts: map<string, nat>, ring: seq<u32>, owner: map<u32, string>)
    requires Indexed(hash, counts, ring, owner)
    ensures forall p :: p in ring <==> p in owner
    ensures forall p :: multiset(ring)[p] <= 1
  {
  }

  lemma StartFound(ring: seq<u32>, h: u32, k: nat)
    requires Sorted(ring) && ring != [] && k <= |ring|
    requires forall i :: 0 <= i < k ==> ring[i] < h
    requires forall i :: k <= i < |ring| ==> h <= ring[i]
    ensures StartsAt(ring, h, if k == |ring| then 0 else k)
  {
  }

  lemma StartIndex(ring: seq<u32>, h: u32, start: nat)
    requires StartsAt(ring, h, start)
    ensures start < |ring|
  {
  }

  lemma NextIndex(i: nat, n: nat)
    requires i < n
    ensures (i + 1) % n == if i + 1 == n then 0 else i + 1
  {
  }

  lemma NoPointsYet(hash: Hash, counts: map<string, nat>, ring: seq<u32>, owner: map<u32, string>, node: string)
    requires Indexed(hash, counts, ring, owner) && node !in counts
    ensures Indexed(hash, counts[node := 0], ring, owner)
  {
  }

  // ------------------------------------------------------------------- the balancer

  datatype Choice = Chosen(node: string) | NoTargets

  function SetOf(nodes: seq<string>): set<string> { set n | n in nodes }

  /** The answer for the targets that are on the ring; with none there it is the first in
      the list. */
  ghost predicate Answers(hash: Hash, replicas: nat, registered: set<string>, targets: seq<string>, key: string,
                          node: string)
    requires targets != []
  {
    var live := SetOf(targets) * registered;
    if live == {} then node == targets[0] else Nearest(hash, replicas, live, key, node)
  }

  lemma OwnersRegistered(hash: Hash, replicas: nat, registered: set<string>, ring: seq<u32>, owner: map<u32, string>)
    requires Indexed(hash, Full(registered, replicas), ring, owner)
    ensures forall p :: p in owner ==> owner[p] in registered
  {
    hide Point;
  }

  /** If the whole ring belongs to others, no target is on it. */
  lemma NothingLeft(hash: Hash, replicas: nat, registered: set<string>, ring: seq<u32>, owner: map<u32, string>,
                    live: set<string>, start: nat)
    requires replicas > 0 && Indexed(hash, Full(registered, replicas), ring, owner) && live <= registered
    requires ring == [] || start < |ring|
    requires forall k :: 0 <= k < |ring| ==> Unowned(ring, owner, live, Step(start, k, |ring|))
    ensures live == {}
  {
    hide Indexed, Full, Point;
    if t :| t in live {
      var k := SomeOwned(hash, replicas, registered, ring, owner, live, t);
      var m := StepCovers(start, |ring|, k);
    }
  }

  /** The read-locked half of NextWithKey, on a ring that other calls may have changed since
      the targets were registered. */
  method Lookup(hash: Hash, replicas: nat, ghost registered: set<string>, ring: seq<u32>, hashMap: map<u32, string>,
                targets: seq<string>, key: string) returns (node: string)
    requires replicas > 0 && Indexed(hash, Full(registered, replicas), ring, hashMap) && Sorted(ring)
    requires targets != []
    ensures Answers(hash, replicas, registered, targets, key, node)
  {
    hide Indexed, Sorted, CollisionFree, Point, Nearest, StartsAt, Full;
    var targetMap := SetOf(targets);
    ghost var live := targetMap * registered;
    OwnersRegistered(hash, replicas, registered, ring, hashMap);
    RingFacts(hash, Full(registered, replicas), ring, hashMap);
    if |ring| == 0 {
      NothingLeft(hash, replicas, registered, ring, hashMap, live, 0);
      return targets[0];
    }
    var h := hash(key);
    var idx := Search(ring, h);
    StartFound(ring, h, idx);
    if idx == |ring| {
      idx := 0;
    }
    StartIndex(ring, h, idx);
    var startIdx := idx;
    ghost var m := 0;
    while true
      invariant startIdx < |ring| && m < |ring| && idx == Step(startIdx, m, |ring|)
      invariant forall k :: 0 <= k < m ==> Unowned(ring, hashMap, live, Step(startIdx, k, |ring|))
      decreases |ring| - m
    {
      assert ring[idx] in ring;
      node := hashMap[ring[idx]];
      if node in targetMap {
        FirstIsNearest(hash, replicas, registered, ring, hashMap, live, key, startIdx, m);
        return;
      }
      StepOnward(startIdx, m, |ring|);
      idx := (idx + 1) % |ring|;
      m := m + 1;
      if idx == startIdx {
        break;
      }
    }
    NothingLeft(hash, replicas, registered, ring, hashMap, live, startIdx);
    return targets[0];
  }

  lemma StepOnward(start: nat, m: nat, n: nat)
    requires start < n && m < n
    ensures (Step(start, m, n) + 1) % n == if m + 1 == n then start else Step(start, m + 1, n)
    ensures m + 1 < n ==> Step(start, m + 1, n) != start
  {
    NextIndex(Step(start, m, n), n);
  }

  lemma FewerCollideLess(hash: Hash, replicas: nat, nodes: set<string>, fewer: set<string>)
    requires CollisionFree(hash, replicas, nodes) && fewer <= nodes
    ensures CollisionFree(hash, replicas, fewer)
  {
    hide Point;
  }

  class Balancer {
    const hash: Hash
    const replicas: nat
    var ring: seq<u32>
    var hashMap: map<u32, string>
    var registered: set<string>

    ghost predicate Consistent()
      reads this
    {
      replicas > 0 && Indexed(hash, Full(registered, replicas), ring, hashMap)
    }

    ghost predicate Valid()
      reads this
    {
      Consistent() && Sorted(ring)
    }

    constructor (hash: Hash, replicas: int)
      ensures Valid() && registered == {} && this.hash == hash
      ensures this.replicas == if replicas <= 0 then 50 else replicas
    {
      this.hash := hash;
      this.replicas := if replicas <= 0 then 50 else replicas;
      ring, hashMap, registered := [], map[], {};
    }

    /** Appends the virtual nodes of a node that is not registered yet. */
    method Register(node: string)
      requires Consistent() && node !in registered
      requires CollisionFree(hash, replicas, registered + {node})
      modifies this
      ensures Consistent() && registered == old(registered) + {node}
    {
      hide Indexed, CollisionFree, Point;
      ghost var counts := Full(registered, replicas)[node := 0];
      assert counts.Keys == registered + {node};
      registered := registered + {node};
      NoPointsYet(hash, Full(old(registered), replicas), ring, hashMap, node);
      for i := 0 to replicas
        invariant counts == Full(old(registered), replicas)[node := i] && counts.Keys == registered
        invariant Indexed(hash, counts, ring, hashMap)
        invariant registered == old(registered) + {node}
      {
        AddPoint(hash, replicas, counts, ring, hashMap, node);
        var h := Point(hash, node, i);
        ring := ring + [h];
        hashMap := hashMap[h := node];
        counts := counts[node := i + 1];
      }
      assert counts == Full(registered, replicas);
    }

    /** Registers every node of the list that is missing. */
    method RegisterAll(nodes: seq<string>) returns (added: bool)
      requires Consistent() && CollisionFree(hash, replicas, registered + SetOf(nodes))
      modifies this
      ensures Consistent() && registered == old(registered) + SetOf(nodes)
      ensures !added ==> ring == old(ring)
    {
      hide Indexed, CollisionFree, Full;
      added := false;
      for k := 0 to |nodes|
        invariant Consistent() && registered == old(registered) + SetOf(nodes[..k])
        invariant !added ==> ring == old(ring)
      {
        assert SetOf(nodes[..k + 1]) == SetOf(nodes[..k]) + {nodes[k]};
        if nodes[k] !in registered {
          FewerCollideLess(hash, replicas, old(registered) + SetOf(nodes), registered + {nodes[k]});
          Register(nodes[k]);
          added := true;
        }
      }
      assert nodes[..|nodes|] == nodes;
    }

    method Add(nodes: seq<string>)
      requires Valid() && CollisionFree(hash, replicas, registered + SetOf(nodes))
      modifies this
      ensures Valid() && registered == old(registered) + SetOf(nodes)
    {
      var added := RegisterAll(nodes);
      var sorted := SortRing(ring);
      RingSorted(hash, Full(registered, replicas), ring, sorted, hashMap);
      ring := sorted;
    }

    method Remove(node: string)
      requires Valid()
      modifies this
      ensures Valid() && registered == old(registered) - {node}
    {
      hide Indexed, Sorted, CollisionFree, Point;
      if node !in registered {
        return;
      }
      RingFacts(hash, Full(registered, replicas), ring, hashMap);
      var newRing := [];
      for k := 0 to |ring|
        invariant ring == old(ring) && registered == old(registered)
        invariant newRing == Kept(ring[..k], old(hashMap), node)
        invariant forall p :: p in hashMap <==> p in old(hashMap) && !(old(hashMap)[p] == node && p in ring[..k])
        invariant forall p :: p in hashMap ==> hashMap[p] == old(hashMap)[p]
      {
        var h := ring[k];
        OnceOnly(ring, k);
        assert ring[..k + 1] == ring[..k] + [h];
        if hashMap[h] == node {
          hashMap := hashMap - {h};
        } else {
          newRing := newRing + [h];
        }
      }
      assert ring[..|ring|] == ring;
      RemovePoints(hash, replicas, registered, ring, old(hashMap), node, hashMap);
      KeptSorted(ring, old(hashMap), node);
      registered := registered - {node};
      ring := newRing;
    }

    /** The write-locked half of NextWithKey. */
    method RegisterTargets(targets: seq<string>)
      requires Valid() && CollisionFree(hash, replicas, registered + SetOf(targets))
      modifies this
      ensures Valid() && registered == old(registered) + SetOf(targets)
    {
      hide Indexed, Sorted, CollisionFree, Point;
      var needsSort := RegisterAll(targets);
      if needsSort {
        var sorted := SortRing(ring);
        RingSorted(hash, Full(registered, replicas), ring, sorted, hashMap);
        ring := sorted;
      }
    }

    /** Calls of other threads. */
    method Interfere(changes: seq<Change>)
      requires Valid() && CollisionFree(hash, replicas, registered + AllAdded(changes))
      modifies this
      ensures Valid() && registered == RegisteredAfter(old(registered), changes)
    {
      hide Indexed, Sorted, CollisionFree, Point;
      ghost var all := registered + AllAdded(changes);
      for k := 0 to |changes|
        invariant Valid() && registered == RegisteredAfter(old(registered), changes[..k]) && registered <= all
      {
        assert changes[..k + 1][..k] == changes[..k];
        AddedWithin(changes, k);
        match changes[k] {
          case Added(nodes) =>
            FewerCollideLess(hash, replicas, all, registered + SetOf(nodes));
            Add(nodes);
          case Removed(node) => Remove(node);
        }
      }
      assert changes[..|changes|] == changes;
    }

    /** Whatever was registered or removed before, and whatever other threads add or remove
        between the two lock sections, the answer is the nearest of the targets still on the
        ring, or the first target if none is. */
    method NextWithKey(targets: seq<string>, key: string, between: seq<Change>) returns (r: Choice)
      requires Valid() && CollisionFree(hash, replicas, registered + SetOf(targets) + AllAdded(between))
      modifies this
      ensures targets == [] ==> r == NoTargets && unchanged(this)
      ensures targets != [] ==> Valid() && registered == RegisteredAfter(old(registered) + SetOf(targets), between)
      ensures targets != [] ==> r.Chosen? && Answers(hash, replicas, registered, targets, key, r.node)
    {
      hide Indexed, Sorted, CollisionFree, Point, Nearest, StartsAt, Answers;
      if |targets| == 0 {
        return NoTargets;
      }
      FewerCollideLess(hash, replicas, registered + SetOf(targets) + AllAdded(between), registered + SetOf(targets));
      RegisterTargets(targets);
      Interfere(between);
      var node := Lookup(hash, replicas, registered, ring, hashMap, targets, key);
      return Chosen(node);
    }
  }

  /** Calls of Add and Remove. */
  datatype Change = Added(nodes: seq<string>) | Removed(node: string)

  function RegisteredAfter(registered: set<string>, changes: seq<Change>): set<string> {
    if changes == [] then registered
    else
      var before := RegisteredAfter(registered, changes[..|changes| - 1]);
      match changes[|changes| - 1]
      case Added(nodes) => before + SetOf(nodes)
      case Removed(node) => before - {node}
  }

  /** Whether a call decides about a node. */
  predicate Mentions(c: Change, node: string) {
    match c
    case Added(nodes) => node in nodes
    case Removed(n) => n == node
  }

  /** A node is registered after any calls exactly if the last one about it added it, or there
      was none and it was registered before. */
  lemma {:induction false} RegisteredExactly(registered: set<string>, changes: seq<Change>, node: string)
    ensures node in RegisteredAfter(registered, changes) <==>
            || (node in registered && forall k :: 0 <= k < |changes| ==> !Mentions(changes[k], node))
            || exists k :: 0 <= k < |changes| && Mentions(changes[k], node) && changes[k].Added?
                           && forall j :: k < j < |changes| ==> !Mentions(changes[j], node)
  {
    if changes != [] {
      var front, last := changes[..|changes| - 1], changes[|changes| - 1];
      RegisteredExactly(registered, front, node);
      assert forall k :: 0 <= k < |front| ==> front[k] == changes[k];
      assert last == changes[|front|];
      if !Mentions(last, node) && node in RegisteredAfter(registered, changes) && node !in registered {
        var k :| 0 <= k < |front| && Mentions(front[k], node) && front[k].Added?
                 && forall j :: k < j < |front| ==> !Mentions(front[j], node);
        assert Mentions(changes[k], node);
      }
    }
  }

  function AllAdded(changes: seq<Change>): set<string> {
    if changes == [] then {}
    else AllAdded(changes[..|changes| - 1]) +
         match changes[|changes| - 1]
         case Added(nodes) => SetOf(nodes)
         case Removed(_) => {}
  }

  lemma {:induction false} AddedWithin(changes: seq<Change>, k: nat)
    requires k < |changes|
    ensures changes[k].Added? ==> SetOf(changes[k].nodes) <= AllAdded(changes)
  {
    var front := changes[..|changes| - 1];
    if k < |front| {
      AddedWithin(front, k);
    }
  }

  // ------------------------------------------------------- when the answer is right

  /** The answer is the nearest of the given targets if and only if that one is on the ring, or
      no target is and it happens to be the first in the list. */
  lemma AnswerExactly(hash: Hash, replicas: nat, registered: set<string>, targets: seq<string>, key: string,
                      node: string, best: string)
    requires targets != [] && CollisionFree(hash, replicas, SetOf(targets))
    requires Answers(hash, replicas, registered, targets, key, node)
    requires Nearest(hash, replicas, SetOf(targets), key, best)
    ensures node == best <==> best in registered || (SetOf(targets) * registered == {} && best == targets[0])
  {
    hide CollisionFree, Nearest, Point;
    var live := SetOf(targets) * registered;
    NearestIsTarget(hash, replicas, SetOf(targets), key, best);
    assert best in registered ==> best in live;
    if live != {} {
      NearestIsTarget(hash, replicas, live, key, node);
      if best in registered {
        NearestOfFewer(hash, replicas, SetOf(targets), live, key, best);
        FewerCollideLess(hash, replicas, SetOf(targets), live);
        NearestUnique(hash, replicas, live, key, node, best);
      }
    }
  }

  lemma NearestIsTarget(hash: Hash, replicas: nat, targets: set<string>, key: string, node: string)
    requires Nearest(hash, replicas, targets, key, node)
    ensures node in targets
  {
  }

  lemma NearestOfFewer(hash: Hash, replicas: nat, targets: set<string>, fewer: set<string>, key: string, node: string)
    requires Nearest(hash, replicas, targets, key, node) && fewer <= targets && node in fewer
    ensures Nearest(hash, replicas, fewer, key, node)
  {
    hide Point, Distance;
    var i :| 0 <= i < replicas && Closest(hash, replicas, targets, key, Point(hash, node, i));
    assert Closest(hash, replicas, fewer, key, Point(hash, node, i));
  }

  predicate RemovesNone(changes: seq<Change>, targets: set<string>) {
    forall i :: 0 <= i < |changes| && changes[i].Removed? ==> changes[i].node !in targets
  }

  lemma {:induction false} TargetsStay(registered: set<string>, targets: set<string>, changes: seq<Change>)
    requires targets <= registered && RemovesNone(changes, targets)
    ensures targets <= RegisteredAfter(registered, changes)
  {
    if changes != [] {
      var front := changes[..|changes| - 1];
      assert forall i :: 0 <= i < |front| ==> front[i] == changes[i];
      TargetsStay(registered, targets, front);
    }
  }

  /** As long as no other thread removes a given target in between, the answer depends on the
      hash, the targets and the key alone: it is the nearest target, whatever else was ever
      registered or removed, and the fallback is not used. */
  lemma Undisturbed(hash: Hash, replicas: nat, before: set<string>, targets: seq<string>, between: seq<Change>,
                    key: string, node: string)
    requires targets != [] && RemovesNone(between, SetOf(targets))
    requires Answers(hash, replicas, RegisteredAfter(before + SetOf(targets), between), targets, key, node)
    ensures Nearest(hash, replicas, SetOf(targets), key, node)
  {
    hide Nearest, RegisteredAfter;
    TargetsStay(before + SetOf(targets), SetOf(targets), between);
    assert targets[0] in SetOf(targets);
    assert SetOf(targets) * RegisteredAfter(before + SetOf(targets), between) == SetOf(targets);
  }

  /** A target removed by another thread in between is not on the ring and the answer all the
      same, if it was the only one. */
  lemma FallbackReached(hash: Hash, replicas: nat, before: set<string>, t: string, key: string)
    ensures var registered := RegisteredAfter(before + SetOf([t]), [Removed(t)]);
            t !in registered && Answers(hash, replicas, registered, [t], key, t)
  {
    var changes := [Removed(t)];
    assert changes[..0] == [];
    assert t !in RegisteredAfter(before + SetOf([t]), changes);
    assert SetOf([t]) * RegisteredAfter(before + SetOf([t]), changes) == {};
  }

  // ---------------------------------------------------------- disruption of lookups

  function EverAdded(a: seq<Change>, b: seq<Change>, c: seq<Change>): set<string> {
    AllAdded(a) + AllAdded(b) + AllAdded(c)
  }

  function Without(targets: seq<string>, gone: string): (rest: seq<string>)
    ensures forall t :: t in rest <==> t in targets && t != gone
  {
    if targets == [] then []
    else if targets[0] == gone then Without(targets[1..], gone)
    else [targets[0]] + Without(targets[1..], gone)
  }

  /** Two lookups of a key, the second without one of the targets, with any calls `meanwhile`
      and, between the lock sections of the two lookups, any calls `during1` and `during2` that
      remove no target looked up: only a key of the dropped target moves. */
  method LookupAfterDrop(b: Balancer, targets: seq<string>, gone: string, key: string, during1: seq<Change>,
                         meanwhile: seq<Change>, during2: seq<Change>) returns (before: Choice, after: Choice)
    requires b.Valid() && Without(targets, gone) != []
    requires RemovesNone(during1, SetOf(targets)) && RemovesNone(during2, SetOf(Without(targets, gone)))
    requires CollisionFree(b.hash, b.replicas,
                           b.registered + SetOf(targets) + EverAdded(during1, meanwhile, during2))
    modifies b
    ensures before.Chosen? && after.Chosen?
    ensures before.node != gone ==> after.node == before.node
  {
    hide CollisionFree, Nearest, Answers, RegisteredAfter, AllAdded, Without;
    ghost var all := b.registered + SetOf(targets) + EverAdded(during1, meanwhile, during2);
    ghost var start := b.registered;
    var rest := Without(targets, gone);
    SetWithout(targets, gone);
    assert rest[0] in targets;
    FewerCollideLess(b.hash, b.replicas, all, b.registered + SetOf(targets) + AllAdded(during1));
    before := b.NextWithKey(targets, key, during1);
    Undisturbed(b.hash, b.replicas, start, targets, during1, key, before.node);
    GrowsWithin(start + SetOf(targets), during1);
    FewerCollideLess(b.hash, b.replicas, all, b.registered + AllAdded(meanwhile));
    ghost var mid := b.registered;
    b.Interfere(meanwhile);
    GrowsWithin(mid, meanwhile);
    FewerCollideLess(b.hash, b.replicas, all, b.registered + SetOf(rest) + AllAdded(during2));
    ghost var now := b.registered;
    after := b.NextWithKey(rest, key, during2);
    Undisturbed(b.hash, b.replicas, now, rest, during2, key, after.node);
    FewerCollideLess(b.hash, b.replicas, all, SetOf(targets));
    DropDisturbsLittle(b.hash, b.replicas, SetOf(targets), gone, key, before.node, after.node);
  }

  /** The same with a target added: keys move only onto it. */
  method LookupAfterAdd(b: Balancer, targets: seq<string>, extra: string, key: string, during1: seq<Change>,
                        meanwhile: seq<Change>, during2: seq<Change>) returns (before: Choice, after: Choice)
    requires b.Valid() && targets != []
    requires RemovesNone(during1, SetOf(targets)) && RemovesNone(during2, SetOf(targets + [extra]))
    requires CollisionFree(b.hash, b.replicas,
                           b.registered + SetOf(targets + [extra]) + EverAdded(during1, meanwhile, during2))
    modifies b
    ensures before.Chosen? && after.Chosen?
    ensures after.node == before.node || after.node == extra
  {
    hide CollisionFree, Nearest, Answers, RegisteredAfter, AllAdded;
    ghost var all := b.registered + SetOf(targets + [extra]) + EverAdded(during1, meanwhile, during2);
    ghost var start := b.registered;
    var more := targets + [extra];
    assert SetOf(more) == SetOf(targets) + {extra};
    FewerCollideLess(b.hash, b.replicas, all, b.registered + SetOf(targets) + AllAdded(during1));
    before := b.NextWithKey(targets, key, during1);
    Undisturbed(b.hash, b.replicas, start, targets, during1, key, before.node);
    GrowsWithin(start + SetOf(targets), during1);
    FewerCollideLess(b.hash, b.replicas, all, b.registered + AllAdded(meanwhile));
    ghost var mid := b.registered;
    b.Interfere(meanwhile);
    GrowsWithin(mid, meanwhile);
    FewerCollideLess(b.hash, b.replicas, all, b.registered + SetOf(more) + AllAdded(during2));
    ghost var now := b.registered;
    after := b.NextWithKey(more, key, during2);
    Undisturbed(b.hash, b.replicas, now, more, during2, key, after.node);
    FewerCollideLess(b.hash, b.replicas, all, SetOf(targets) + {extra});
    AddDisturbsLittle(b.hash, b.replicas, SetOf(targets), extra, key, before.node, after.node);
  }

  lemma SetWithout(targets: seq<string>, gone: string)
    ensures SetOf(Without(targets, gone)) == SetOf(targets) - {gone}
  {
  }

  lemma {:induction false} GrowsWithin(registered: set<string>, changes: seq<Change>)
    ensures RegisteredAfter(registered, changes) <= registered + AllAdded(changes)
  {
    if changes != [] {
      GrowsWithin(registered, changes[..|changes| - 1]);
    }
  }
}

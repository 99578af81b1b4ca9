/** What the protocol guarantees over whole runs. */
module ChordRuns {
  import opened Common
  import opened RingArithmetic
  import opened ChordNode
  import opened ChordProtocol

  ghost predicate Executable(r: Ring, steps: seq<Step>)
    decreases |steps|
  {
    steps == [] || (Enabled(r, steps[0]) && Executable(Next(r, steps[0]), steps[1..]))
  }

  ghost function Execute(r: Ring, steps: seq<Step>): Ring
    requires Executable(r, steps)
    decreases |steps|
  {
    if steps == [] then r else Execute(Next(r, steps[0]), steps[1..])
  }

  lemma {:induction false} ExecuteInv(r: Ring, steps: seq<Step>)
    requires Inv(r) && Executable(r, steps)
    ensures Inv(Execute(r, steps))
    decreases |steps|
  {
    hide Inv;
    if steps != [] {
      StepInv(r, steps[0]);
      ExecuteInv(Next(r, steps[0]), steps[1..]);
    }
  }

  // ---------- one clockwise cycle ----------

  ghost function Successor(ring: set<Id>, n: Id): (x: Id)
    requires n in ring && |ring| >= 2
    ensures IsSuccessor(ring, n, x)
  {
    assert exists x :: IsSuccessor(ring, n, x) by {
      assert |ring - {n}| >= 1;
      var m :| m in ring - {n};
      var x := SuccessorExists(ring, n);
    }
    var x :| IsSuccessor(ring, n, x);
    x
  }

  /** The node `k` links after `n`. */
  ghost function Walk(ring: set<Id>, n: Id, k: nat): (x: Id)
    requires n in ring && |ring| >= 2
    ensures x in ring
  {
    if k == 0 then n else Successor(ring, Walk(ring, n, k - 1))
  }

  /** The members met strictly before `m` on the way round from `n`. */
  ghost function Before(ring: set<Id>, n: Id, m: Id): set<Id> {
    set x | x in ring && Offset(n, x) < Offset(n, m)
  }

  /** One link further along is one member further along, until the walk is back where it began. */
  lemma BeforeSuccessor(ring: set<Id>, n: Id, x: Id, y: Id)
    requires n in ring && x in ring && IsSuccessor(ring, x, y)
    ensures y != n ==> Before(ring, n, y) == Before(ring, n, x) + {x}
    ensures y == n ==> Before(ring, n, x) + {x} == ring
  {
    if y != n {
      assert Offset(x, y) <= Offset(x, n) || x == n;
      forall z | z in ring
        ensures Offset(n, z) < Offset(n, y) <==> Offset(n, z) < Offset(n, x) || z == x
      {
        assert z == x || Offset(x, y) <= Offset(x, z);
      }
    } else {
      forall z | z in ring
        ensures Offset(n, z) < Offset(n, x) || z == x
      {
        assert z == x || Offset(x, y) <= Offset(x, z);
      }
    }
  }

  lemma BeforeIsBelow(ring: set<Id>, n: Id, m: Id)
    requires m in ring
    ensures Before(ring, n, m) <= ring - {m} && Before(ring, n, n) == {}
  {
  }

  /** After fewer links than there are members the walk stands on the member with just that many
      members before it. */
  lemma {:induction false} WalkCounts(ring: set<Id>, n: Id, k: nat)
    requires n in ring && |ring| >= 2 && k < |ring|
    ensures |Before(ring, n, Walk(ring, n, k))| == k
  {
    hide IsSuccessor, Offset, Before;
    BeforeIsBelow(ring, n, n);
    if k > 0 {
      WalkCounts(ring, n, k - 1);
      var x := Walk(ring, n, k - 1);
      BeforeIsBelow(ring, n, x);
      BeforeSuccessor(ring, n, x, Successor(ring, x));
    }
  }

  lemma BeforeCount(ring: set<Id>, n: Id, x: Id)
    requires n in ring && x in ring && |ring| >= 2
    ensures |Before(ring, n, x)| < |ring|
    ensures var y := Successor(ring, x); y != n ==> |Before(ring, n, y)| == |Before(ring, n, x)| + 1
  {
    hide IsSuccessor, Offset, Before;
    BeforeIsBelow(ring, n, x);
    SubsetSize(Before(ring, n, x), ring - {x});
    BeforeSuccessor(ring, n, x, Successor(ring, x));
  }

  lemma WalkReturns(ring: set<Id>, n: Id)
    requires n in ring && |ring| >= 2
    ensures Walk(ring, n, |ring|) == n
  {
    hide IsSuccessor, Offset, Before;
    var x := Walk(ring, n, |ring| - 1);
    WalkCounts(ring, n, |ring| - 1);
    BeforeCount(ring, n, x);
    BeforeCount(ring, n, Walk(ring, n, |ring|));
  }

  /** The number of members before one says where on the way it is. */
  lemma BeforeOrder(ring: set<Id>, n: Id, x: Id, y: Id)
    requires x in ring && y in ring
    ensures |Before(ring, n, x)| < |Before(ring, n, y)| <==> Offset(n, x) < Offset(n, y)
    ensures |Before(ring, n, x)| == |Before(ring, n, y)| ==> x == y
  {
    if Offset(n, y) < Offset(n, x) {
      BeforeSmaller(ring, n, y, x);
    } else if Offset(n, x) < Offset(n, y) {
      BeforeSmaller(ring, n, x, y);
    }
  }

  lemma BeforeSmaller(ring: set<Id>, n: Id, x: Id, y: Id)
    requires x in ring && Offset(n, x) < Offset(n, y)
    ensures |Before(ring, n, x)| < |Before(ring, n, y)|
  {
    SubsetSize(Before(ring, n, x) + {x}, Before(ring, n, y));
  }

  /** Every member is reached, after as many links as there are members before it. */
  lemma WalkReaches(ring: set<Id>, n: Id, m: Id)
    requires n in ring && m in ring && |ring| >= 2
    ensures |Before(ring, n, m)| < |ring|
    ensures Walk(ring, n, |Before(ring, n, m)|) == m
  {
    hide IsSuccessor, Offset, Before;
    BeforeIsBelow(ring, n, m);
    SubsetSize(Before(ring, n, m), ring - {m});
    var k := |Before(ring, n, m)|;
    WalkCounts(ring, n, k);
    BeforeOrder(ring, n, Walk(ring, n, k), m);
  }

  /** The links of a state, delivered or in flight, are those of its members in clockwise order. */
  lemma LinksAreSuccessors(r: Ring, n: Id)
    requires Inv(r) && n in r.members && r.members != {n}
    ensures |r.members| >= 2
    ensures forall x :: PointsTo(r, n, x) <==> x == Successor(r.members, n)
  {
    assert r.members - {n} != {} && |r.members| == |r.members - {n}| + 1;
    if r.nodes[n].next.Some? {
      SuccessorUnique(r.members, n, r.nodes[n].next.value, Successor(r.members, n));
    } else {
      assert LinkMissing(r, n);
      var x :| Notify(n, x) in r.net;
      SuccessorUnique(r.members, n, x, Successor(r.members, n));
    }
  }

  /** Following successors from `n` visits every member once, in clockwise order, and comes back. */
  ghost predicate IsTour(ring: set<Id>, n: Id, tour: seq<Id>) {
    && |tour| == |ring| + 1 && tour[0] == n && tour[|ring|] == n
    && (forall m :: m in ring <==> m in tour[..|ring|])
    && (forall i, j :: 0 <= i < j < |ring| ==> Offset(n, tour[i]) < Offset(n, tour[j]))
  }

  ghost function Tour(ring: set<Id>, n: Id): (tour: seq<Id>)
    requires n in ring && |ring| >= 2
    ensures |tour| == |ring| + 1 && forall i :: 0 <= i <= |ring| ==> tour[i] == Walk(ring, n, i)
  {
    seq(|ring| + 1, i requires 0 <= i => Walk(ring, n, i))
  }

  lemma TourOrder(ring: set<Id>, n: Id, i: nat, j: nat)
    requires n in ring && |ring| >= 2 && i < j < |ring|
    ensures Offset(n, Tour(ring, n)[i]) < Offset(n, Tour(ring, n)[j])
  {
    hide Offset, IsSuccessor;
    WalkCounts(ring, n, i);
    WalkCounts(ring, n, j);
    BeforeOrder(ring, n, Walk(ring, n, i), Walk(ring, n, j));
  }

  lemma TourMeets(ring: set<Id>, n: Id, m: Id)
    requires n in ring && |ring| >= 2
    ensures m in ring <==> m in Tour(ring, n)[..|ring|]
  {
    hide Offset, IsSuccessor;
    var tour := Tour(ring, n);
    if m in ring {
      WalkReaches(ring, n, m);
      assert tour[..|ring|][|Before(ring, n, m)|] == m;
    }
  }

  lemma WalkStarts(ring: set<Id>, n: Id)
    requires n in ring && |ring| >= 2
    ensures Walk(ring, n, 0) == n
  {
  }

  lemma TourIsTour(ring: set<Id>, n: Id)
    requires n in ring && |ring| >= 2
    ensures IsTour(ring, n, Tour(ring, n))
  {
    hide Offset, IsSuccessor, Walk;
    var tour := Tour(ring, n);
    WalkReturns(ring, n);
    WalkStarts(ring, n);
    forall m
      ensures m in ring <==> m in tour[..|ring|]
    {
      TourMeets(ring, n, m);
    }
    forall i, j | 0 <= i < j < |ring|
      ensures Offset(n, tour[i]) < Offset(n, tour[j])
    {
      TourOrder(ring, n, i, j);
    }
  }

  /** In every reachable state the links form one cycle: a tour that starts anywhere meets every member
      exactly once, in clockwise order, and comes back. */
  lemma SingleClockwiseCycle(creator: Id, steps: seq<Step>, n: Id) returns (tour: seq<Id>)
    requires Executable(Created(creator), steps)
    requires var r := Execute(Created(creator), steps); n in r.members && r.members != {n}
    ensures var r := Execute(Created(creator), steps);
      && IsTour(r.members, n, tour)
      && forall i :: 0 <= i < |r.members| ==> PointsTo(r, tour[i], tour[i + 1])
  {
    CreatedInv(creator);
    ExecuteInv(Created(creator), steps);
    var r := Execute(Created(creator), steps);
    LinksAreSuccessors(r, n);
    tour := Tour(r.members, n);
    TourIsTour(r.members, n);
    hide Inv, IsTour, PointsTo;
    forall i | 0 <= i < |r.members|
      ensures PointsTo(r, tour[i], tour[i + 1])
    {
      TourFollowsLinks(r, n, i);
    }
  }

  lemma TourFollowsLinks(r: Ring, n: Id, i: nat)
    requires Inv(r) && n in r.members && 2 <= |r.members| && i < |r.members|
    ensures PointsTo(r, Tour(r.members, n)[i], Tour(r.members, n)[i + 1])
  {
    hide Inv, PointsTo, Offset, IsSuccessor;
    var at := Walk(r.members, n, i);
    assert |{at}| == 1;
    LinksAreSuccessors(r, at);
    assert Walk(r.members, n, i + 1) == Successor(r.members, at);
  }

  /** No notify sent in reply to a stabilize ever changes a link: the only notify that does is the first
      one a node receives. */
  lemma OnlyFirstNotifyMatters(creator: Id, steps: seq<Step>, d: Id, y: Id)
    requires Executable(Created(creator), steps)
    requires var r := Execute(Created(creator), steps); Enabled(r, Deliver(Notify(d, y))) && r.nodes[d].next.Some?
    ensures var r := Execute(Created(creator), steps);
      Next(r, Deliver(Notify(d, y))) == r.(net := r.net - multiset{Notify(d, y)})
  {
    CreatedInv(creator);
    ExecuteInv(Created(creator), steps);
    LaterNotifyIsIgnored(Execute(Created(creator), steps), d, y);
  }

  /** Once `n` has a link, its target knows about it or is about to. */
  lemma LinkSymmetry(creator: Id, steps: seq<Step>, n: Id)
    requires Executable(Created(creator), steps)
    requires var r := Execute(Created(creator), steps); n in r.members && n in r.nodes && r.nodes[n].next.Some?
    ensures var r := Execute(Created(creator), steps); var x := r.nodes[n].next.value;
      x in r.nodes && (Stabilize(x, n) in r.net || r.nodes[x].prev == Some(n))
  {
    CreatedInv(creator);
    ExecuteInv(Created(creator), steps);
    assert LinksInside(Execute(Created(creator), steps), n);
  }

  // ---------- convergence ----------

  /** A forwarded join request comes closer to its sender. */
  ghost function Weight(m: Msg): nat {
    match m
    case Join(dest, src) => 4 + Offset(dest, src)
    case Notify(_, _) => 1
    case Stabilize(_, _) => 2
  }

  ghost function Total(net: multiset<Msg>): nat {
    if net == multiset{} then 0 else
      var m :| m in net;
      Weight(m) + Total(net - multiset{m})
  }

  lemma TotalPicks(net: multiset<Msg>) returns (k: Msg)
    requires net != multiset{}
    ensures k in net && Total(net) == Weight(k) + Total(net - multiset{k})
  {
    k :| k in net && Total(net) == Weight(k) + Total(net - multiset{k});
  }

  lemma {:induction false} TotalRemove(net: multiset<Msg>, m: Msg)
    requires m in net
    ensures Total(net) == Weight(m) + Total(net - multiset{m})
    decreases |net|
  {
    hide Total, Weight;
    var k := TotalPicks(net);
    if k != m {
      TotalRemove(net - multiset{k}, m);
      TotalRemove(net - multiset{m}, k);
      assert net - multiset{k} - multiset{m} == net - multiset{m} - multiset{k};
    }
  }

  lemma TotalAdd(net: multiset<Msg>, m: Msg)
    ensures Total(net + multiset{m}) == Weight(m) + Total(net)
  {
    TotalRemove(net + multiset{m}, m);
    assert net + multiset{m} - multiset{m} == net;
  }

  ghost function Unlinked(r: Ring): set<Id> {
    set n | n in r.nodes && r.nodes[n].next.None?
  }

  ghost function Potential(r: Ring): nat {
    Total(r.net) + 2 * |Unlinked(r)|
  }

  lemma DeliverJoinLowers(r: Ring, d: Id, src: Id)
    requires Enabled(r, Deliver(Join(d, src))) && LinksInside(r, d)
    ensures Potential(Next(r, Deliver(Join(d, src)))) < Potential(r)
  {
    hide Total, Offset, InRange;
    var r' := Next(r, Deliver(Join(d, src)));
    var rest := r.net - multiset{Join(d, src)};
    TotalRemove(r.net, Join(d, src));
    if Admits(d, r.nodes[d], src) {
      var x := if r.nodes[d].next.None? then d else r.nodes[d].next.value;
      TotalAdd(rest, Notify(src, x));
      TotalAdd(rest + multiset{Notify(src, x)}, Stabilize(src, d));
      assert r'.net == rest + multiset{Notify(src, x)} + multiset{Stabilize(src, d)};
      SubsetSize(Unlinked(r'), Unlinked(r));
    } else {
      var x := r.nodes[d].next.value;
      ForwardComesCloser(d, x, src);
      TotalAdd(rest, Join(x, src));
      assert r'.net == rest + multiset{Join(x, src)};
      assert Unlinked(r') == Unlinked(r);
    }
  }

  /** A request that is not for the current node is closer to its target at the next one. */
  lemma ForwardComesCloser(d: Id, x: Id, target: Id)
    requires x != d && !InRange(d, x, target)
    ensures Offset(x, target) < Offset(d, target)
  {
  }

  lemma FirstNotifyLowers(r: Ring, d: Id, x: Id)
    requires Enabled(r, Deliver(Notify(d, x))) && r.nodes[d].next.None?
    ensures Potential(Next(r, Deliver(Notify(d, x)))) < Potential(r)
  {
    var r' := Next(r, Deliver(Notify(d, x)));
    var rest := r.net - multiset{Notify(d, x)};
    TotalRemove(r.net, Notify(d, x));
    TotalAdd(rest, Stabilize(x, d));
    assert r'.net == rest + multiset{Stabilize(x, d)};
    assert Unlinked(r) == Unlinked(r') + {d};
  }

  lemma LaterNotifyLowers(r: Ring, d: Id, x: Id)
    requires Notify(d, x) in r.net
    ensures Potential(r.(net := r.net - multiset{Notify(d, x)})) < Potential(r)
  {
    TotalRemove(r.net, Notify(d, x));
    assert Unlinked(r.(net := r.net - multiset{Notify(d, x)})) == Unlinked(r);
  }

  lemma DeliverStabilizeLowers(r: Ring, d: Id, src: Id)
    requires Enabled(r, Deliver(Stabilize(d, src)))
    ensures Potential(Next(r, Deliver(Stabilize(d, src)))) < Potential(r)
  {
    hide Total, Offset, InRange;
    var r' := Next(r, Deliver(Stabilize(d, src)));
    var rest := r.net - multiset{Stabilize(d, src)};
    TotalRemove(r.net, Stabilize(d, src));
    TotalAdd(rest, Notify(src, r'.nodes[d].prev.value));
    assert r'.net == rest + multiset{Notify(src, r'.nodes[d].prev.value)};
    assert Unlinked(r') == Unlinked(r);
  }

  lemma DeliverLowers(r: Ring, m: Msg)
    requires Inv(r) && Enabled(r, Deliver(m))
    ensures Potential(Next(r, Deliver(m))) < Potential(r)
  {
    assert LinksInside(r, m.dest);
    hide Potential;
    match m
    case Join(d, src) => DeliverJoinLowers(r, d, src);
    case Stabilize(d, src) => DeliverStabilizeLowers(r, d, src);
    case Notify(d, x) =>
      if r.nodes[d].next.None? {
        FirstNotifyLowers(r, d, x);
      } else {
        LaterNotifyIsIgnored(r, d, x);
        LaterNotifyLowers(r, d, x);
      }
  }

  /** Without newcomers, the number of messages still to be handled is bounded by the state alone. */
  lemma {:induction false} RunsAreFinite(r: Ring, steps: seq<Step>)
    requires Inv(r) && Executable(r, steps) && forall step :: step in steps ==> step.Deliver?
    ensures |steps| + Potential(Execute(r, steps)) <= Potential(r)
    decreases |steps|
  {
    hide Inv, Potential;
    if steps != [] {
      assert steps[0] in steps;
      DeliverLowers(r, steps[0].m);
      StepInv(r, steps[0]);
      RunsAreFinite(Next(r, steps[0]), steps[1..]);
    }
  }

  lemma MissingLinkIsOnItsWay(r: Ring, n: Id) returns (x: Id)
    requires LinksRight(r) && r.creator in r.members
    requires n in r.members && n in r.nodes && n != r.creator && r.nodes[n].next.None?
    ensures Notify(n, x) in r.net
  {
    assert LinkMissing(r, n);
    x :| Notify(n, x) in r.net;
  }

  /** Some message in flight can always be handled: a join request held back by a waiting node waits, in
      the end, for a notify. */
  lemma {:induction false} SomeDeliveryEnabled(r: Ring, m: Msg) returns (e: Msg)
    requires Inv(r) && m in r.net
    ensures Enabled(r, Deliver(e))
    decreases if m.Join? && m.dest in r.started && m.dest !in r.members then r.started[m.dest] + 1 else 0
  {
    hide LinksRight, LinksAnnounced;
    assert MsgInside(r, m);
    e := m;
    if m.Join? && m.dest != r.creator && r.nodes[m.dest].next.None? {
      var d := m.dest;
      if d in r.members {
        var x := MissingLinkIsOnItsWay(r, d);
        e := Notify(d, x);
      } else {
        var up :| Join(up, d) in r.net;
        assert MsgInside(r, Join(up, d));
        e := SomeDeliveryEnabled(r, Join(up, d));
      }
    }
  }

  /** With nothing in flight the ring is complete: all nodes are members, every node links to the next
      member clockwise, and `prev` undoes `next` and is undone by it. */
  ghost predicate Complete(r: Ring) {
    && r.members == r.nodes.Keys
    && forall n :: n in r.nodes && r.members != {n} ==> CompleteAt(r, n)
  }

  ghost predicate CompleteAt(r: Ring, n: Id)
    requires n in r.nodes
  {
    var l := r.nodes[n];
    && l.next.Some? && IsSuccessor(r.members, n, l.next.value)
    && l.prev.Some? && IsSuccessor(r.members, l.prev.value, n)
    && l.next.value in r.nodes && r.nodes[l.next.value].prev == Some(n)
    && l.prev.value in r.nodes && r.nodes[l.prev.value].next == Some(n)
  }

  lemma QuietHasNext(r: Ring, n: Id)
    requires LinksRight(r) && r.net == multiset{} && n in r.members && n in r.nodes && r.members != {n}
    ensures r.nodes[n].next.Some? && IsSuccessor(r.members, n, r.nodes[n].next.value)
  {
    assert r.nodes[n].next.None? ==> LinkMissing(r, n);
  }

  lemma QuietHasPrev(r: Ring, n: Id)
    requires Inv(r) && r.net == multiset{} && n in r.members && r.members != {n}
    ensures r.nodes[n].prev.Some?
    ensures var p := r.nodes[n].prev.value; p in r.members && IsSuccessor(r.members, p, n) && r.nodes[p].next == Some(n)
  {
    hide LinksRight, JoinsTravel, Offset, LinksInside, MsgInside;
    assert r.members - {n} != {};
    var m :| m in r.members - {n};
    var p := PredecessorExists(r.members, n);
    assert m in r.members && m != n;
    QuietHasNext(r, p);
    SuccessorUnique(r.members, p, n, r.nodes[p].next.value);
  }

  lemma QuietIsComplete(r: Ring)
    requires Inv(r) && r.net == multiset{}
    ensures Complete(r)
  {
    hide LinksRight, JoinsTravel, LinksAnnounced, LinksInside, IsSuccessor, MsgInside;
    QuietMembers(r);
    forall n | n in r.nodes && r.members != {n}
      ensures CompleteAt(r, n)
    {
      QuietHasNext(r, n);
      QuietHasPrev(r, n);
      QuietIsAnnounced(r, n);
    }
  }

  lemma QuietMembers(r: Ring)
    requires WellFormed(r) && JoinsTravel(r) && r.net == multiset{}
    ensures r.members == r.nodes.Keys
  {
  }

  lemma QuietIsAnnounced(r: Ring, n: Id)
    requires WellFormed(r) && LinksAnnounced(r) && r.net == multiset{} && n in r.nodes && r.nodes[n].next.Some?
    ensures r.nodes[n].next.value in r.nodes && r.nodes[r.nodes[n].next.value].prev == Some(n)
  {
    assert LinksInside(r, n);
  }

  /** From any reachable state, handling the messages in flight, in any order, reaches a complete ring:
      a run that cannot be continued has ended in one, and every run ends within the potential. */
  lemma RingCompletes(creator: Id, steps: seq<Step>, more: seq<Step>)
    requires Executable(Created(creator), steps)
    requires var r := Execute(Created(creator), steps);
      && Executable(r, more) && (forall step :: step in more ==> step.Deliver?)
    ensures var r := Execute(Created(creator), steps); var end := Execute(r, more);
      && |more| <= Potential(r)
      && ((forall e :: !Enabled(end, Deliver(e))) <==> end.net == multiset{})
      && ((forall e :: !Enabled(end, Deliver(e))) ==> Complete(end) && end.members >= r.members)
  {
    CreatedInv(creator);
    ExecuteInv(Created(creator), steps);
    var r := Execute(Created(creator), steps);
    ExecuteInv(r, more);
    RunsAreFinite(r, more);
    MembersStay(r, more);
    var end := Execute(r, more);
    if end.net != multiset{} {
      var m :| m in end.net;
      var e := SomeDeliveryEnabled(end, m);
    } else {
      QuietIsComplete(end);
    }
  }

  lemma {:induction false} MembersStay(r: Ring, steps: seq<Step>)
    requires Executable(r, steps)
    ensures r.members <= Execute(r, steps).members
    decreases |steps|
  {
    if steps != [] {
      MembersStay(Next(r, steps[0]), steps[1..]);
    }
  }
}

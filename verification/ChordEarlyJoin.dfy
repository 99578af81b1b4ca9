/** Why a node must not handle a join request before its own first notify: exactly then the ring breaks, and it
    need not mend. */
module ChordEarlyJoin {
  import opened Common
  import opened RingArithmetic
  import opened ChordNode
  import opened ChordProtocol
  import opened ChordRuns

  // ---------- exactly when a join request keeps the ring ----------

  /** The node that takes itself to be alone, though it is not. */
  lemma NotAlone(r: Ring, d: Id, src: Id)
    requires Inv(r) && Join(d, src) in r.net && d in r.nodes && !Enabled(r, Deliver(Join(d, src)))
    ensures d != r.creator && d != src && r.creator != src && r.nodes[d].next.None?
    ensures r.creator in r.members && src !in r.members && src in r.nodes && r.nodes[src] == Links(None, None)
  {
    assert MsgInside(r, Join(d, src)) && LinksInside(r, src);
  }

  /** Its answer sends the newcomer back to itself. */
  lemma EarlyGrant(r: Ring, d: Id, src: Id)
    requires Inv(r) && Join(d, src) in r.net && d in r.nodes && !Enabled(r, Deliver(Join(d, src)))
    ensures var r' := Next(r, Deliver(Join(d, src)));
      && r'.members == r.members + {src} && d in r'.nodes && src in r'.nodes && Notify(src, d) in r'.net
      && r'.nodes[d].next == Some(src) && r'.nodes[src].next.None?
  {
    hide Inv;
    NotAlone(r, d, src);
  }

  /** Two nodes that are each other's successor are the whole ring. */
  lemma OnlyTwo(ring: set<Id>, a: Id, b: Id, c: Id)
    requires IsSuccessor(ring, a, b) && IsSuccessor(ring, b, a) && c in ring
    ensures c == a || c == b
  {
    assert c != a ==> Offset(a, b) <= Offset(a, c);
    assert c != b ==> Offset(b, a) <= Offset(b, c);
  }

  lemma EarlyGrantBreaksLinks(r: Ring, d: Id, src: Id)
    requires Inv(r) && Join(d, src) in r.net && d in r.nodes && !Enabled(r, Deliver(Join(d, src)))
    ensures !LinksRight(Next(r, Deliver(Join(d, src))))
  {
    hide Inv, Next, IsSuccessor, Enabled;
    NotAlone(r, d, src);
    EarlyGrant(r, d, src);
    var r' := Next(r, Deliver(Join(d, src)));
    if LinksRight(r') {
      assert r.creator in r'.members && r'.members != {src};
      assert LinkMissing(r', src);
      assert IsSuccessor(r'.members, src, d);
      SuccessorInside(r'.members, src, d);
      assert IsSuccessor(r'.members, d, src);
      OnlyTwo(r'.members, d, src, r.creator);
    }
  }

  lemma SuccessorInside(ring: set<Id>, n: Id, x: Id)
    requires IsSuccessor(ring, n, x)
    ensures x in ring
  {
  }

  /** In every reachable state, handling a join request that is in flight keeps the ring right if and only if the
      node that handles it is the creator or has its link already. */
  lemma JoinKeepsTheRingExactlyWhen(creator: Id, steps: seq<Step>, d: Id, src: Id)
    requires Executable(Created(creator), steps) && Join(d, src) in Execute(Created(creator), steps).net
    ensures var r := Execute(Created(creator), steps);
      && d in r.nodes
      && var r' := Next(r, Deliver(Join(d, src)));
         && (LinksRight(r') <==> d == creator || r.nodes[d].next.Some?)
         && (Inv(r') <==> d == creator || r.nodes[d].next.Some?)
  {
    hide Next, LinksRight;
    CreatedInv(creator);
    ExecuteInv(Created(creator), steps);
    CreatorStays(Created(creator), steps);
    var r := Execute(Created(creator), steps);
    assert MsgInside(r, Join(d, src));
    if d == creator || r.nodes[d].next.Some? {
      StepInv(r, Deliver(Join(d, src)));
    } else {
      EarlyGrantBreaksLinks(r, d, src);
    }
  }

  lemma {:induction false} CreatorStays(r: Ring, steps: seq<Step>)
    requires Executable(r, steps)
    ensures Execute(r, steps).creator == r.creator
    decreases |steps|
  {
    if steps != [] {
      CreatorStays(Next(r, steps[0]), steps[1..]);
    }
  }

  // ---------- a ring that does not mend ----------

  lemma {:induction false} OneMore(r: Ring, steps: seq<Step>, step: Step)
    requires Executable(r, steps) && Enabled(Execute(r, steps), step)
    ensures Executable(r, steps + [step]) && Execute(r, steps + [step]) == Next(Execute(r, steps), step)
    decreases |steps|
  {
    hide Next;
    if steps == [] {
      assert [] + [step] == [step];
    } else {
      OneMore(Next(r, steps[0]), steps[1..], step);
      assert (steps + [step])[1..] == steps[1..] + [step];
    }
  }

  lemma JoinSent() returns (steps: seq<Step>, r: Ring)
    ensures Executable(Created(0), steps) && r == Execute(Created(0), steps)
    ensures r.creator == 0 && r.members == {0} && r.net == multiset{Join(0, 10)}
    ensures r.nodes == map[0 := Links(None, None), 10 := Links(None, None)]
  {
    steps := [Start(10, 0)];
    OneMore(Created(0), [], Start(10, 0));
    assert [] + steps == steps;
    r := Next(Created(0), Start(10, 0));
  }

  lemma JoinGranted() returns (steps: seq<Step>, r: Ring)
    ensures Executable(Created(0), steps) && r == Execute(Created(0), steps)
    ensures r.creator == 0 && r.members == {0, 10} && r.net == multiset{Notify(10, 0), Stabilize(10, 0)}
    ensures r.nodes == map[0 := Links(None, Some(10)), 10 := Links(None, None)]
  {
    hide Execute, Executable;
    var sent, before := JoinSent();
    OneMore(Created(0), sent, Deliver(Join(0, 10)));
    steps := sent + [Deliver(Join(0, 10))];
    r := Next(before, Deliver(Join(0, 10)));
    assert multiset{Join(0, 10)} - multiset{Join(0, 10)} == multiset{};
  }

  /** A reachable state: 10 has joined at 0 and waits for its first notify; 20 has registered at 10. */
  lemma EarlyJoin() returns (steps: seq<Step>, r: Ring)
    ensures Executable(Created(0), steps) && r == Execute(Created(0), steps)
    ensures r.creator == 0 && r.members == {0, 10}
    ensures r.nodes == map[0 := Links(None, Some(10)), 10 := Links(None, None), 20 := Links(None, None)]
    ensures r.net == multiset{Notify(10, 0), Stabilize(10, 0), Join(10, 20)}
  {
    hide Execute, Executable;
    var granted, before := JoinGranted();
    OneMore(Created(0), granted, Start(20, 10));
    steps := granted + [Start(20, 10)];
    r := Next(before, Start(20, 10));
  }

  /** What handling that request at once leads to, ... */
  lemma GrantTooEarly(r: Ring) returns (early: Ring)
    requires r.creator == 0 && r.members == {0, 10}
    requires r.nodes == map[0 := Links(None, Some(10)), 10 := Links(None, None), 20 := Links(None, None)]
    requires r.net == multiset{Notify(10, 0), Stabilize(10, 0), Join(10, 20)}
    ensures !Enabled(r, Deliver(Join(10, 20))) && early == Next(r, Deliver(Join(10, 20)))
    ensures early.members == {0, 10, 20}
    ensures early.nodes == map[0 := Links(None, Some(10)), 10 := Links(None, Some(20)), 20 := Links(None, None)]
    ensures early.net == multiset{Notify(10, 0), Stabilize(10, 0), Notify(20, 10), Stabilize(20, 10)}
  {
    early := Next(r, Deliver(Join(10, 20)));
  }

  ghost predicate OnlyDeliveries(steps: seq<Step>) {
    forall step :: step in steps ==> step.Deliver?
  }

  /** The ring of 0, 10 and 20 with these links and these messages in flight. */
  ghost predicate Three(r: Ring, zero: Links, ten: Links, twenty: Links, net: multiset<Msg>) {
    && r.members == {0, 10, 20} && r.net == net
    && r.nodes == map[0 := zero, 10 := ten, 20 := twenty]
  }

  /** One more message, other than a join request, is handled: the links and the messages after that. */
  lemma Handled(start: Ring, steps: seq<Step>, r: Ring, zero: Links, ten: Links, twenty: Links, net: multiset<Msg>,
                m: Msg, links: Links, rest: multiset<Msg>)
    returns (steps': seq<Step>, r': Ring)
    requires Executable(start, steps) && r == Execute(start, steps) && OnlyDeliveries(steps)
    requires Three(r, zero, ten, twenty, net) && m in net && !m.Join? && m.dest in {0, 10, 20}
    requires var before := if m.dest == 0 then zero else if m.dest == 10 then ten else twenty;
      var reaction := React(m.dest, before, m);
      links == reaction.links && rest == net - multiset{m} + reaction.sent
    ensures Executable(start, steps') && r' == Execute(start, steps') && OnlyDeliveries(steps')
    ensures Three(r', if m.dest == 0 then links else zero, if m.dest == 10 then links else ten,
                  if m.dest == 20 then links else twenty, rest)
  {
    hide Execute, Executable, OnNotify, OnStabilize;
    OneMore(start, steps, Deliver(m));
    steps' := steps + [Deliver(m)];
    r' := Next(r, Deliver(m));
  }

  /** First the notifies: the one to 10 comes too late, and 20 links to 10. */
  lemma NotifiesFirst(early: Ring) returns (steps: seq<Step>, r: Ring)
    requires Three(early, Links(None, Some(10)), Links(None, Some(20)), Links(None, None),
                   multiset{Notify(10, 0), Stabilize(10, 0), Notify(20, 10), Stabilize(20, 10)})
    ensures Executable(early, steps) && r == Execute(early, steps) && OnlyDeliveries(steps)
    ensures Three(r, Links(None, Some(10)), Links(None, Some(20)), Links(None, Some(10)),
                  multiset{Stabilize(10, 0), Stabilize(20, 10), Stabilize(10, 20)})
  {
    hide Execute, Executable, Three, OnlyDeliveries;
    var (linked, ten) := (Links(None, Some(10)), Links(None, Some(20)));
    var net0 := multiset{Notify(10, 0), Stabilize(10, 0), Notify(20, 10), Stabilize(20, 10)};
    var net1 := multiset{Stabilize(10, 0), Notify(20, 10), Stabilize(20, 10)};
    var net2 := multiset{Stabilize(10, 0), Stabilize(20, 10), Stabilize(10, 20)};
    NoSteps(early);
    steps, r := Handled(early, [], early, linked, ten, Links(None, None), net0, Notify(10, 0), ten, net1);
    steps, r := Handled(early, steps, r, linked, ten, Links(None, None), net1, Notify(20, 10), linked, net2);
  }

  /** Then 10 learns of 20 before it learns of 0. */
  lemma TwentyFirst(early: Ring, steps0: seq<Step>, r0: Ring) returns (steps: seq<Step>, r: Ring)
    requires Executable(early, steps0) && r0 == Execute(early, steps0) && OnlyDeliveries(steps0)
    requires Three(r0, Links(None, Some(10)), Links(None, Some(20)), Links(None, Some(10)),
                   multiset{Stabilize(10, 0), Stabilize(20, 10), Stabilize(10, 20)})
    ensures Executable(early, steps) && r == Execute(early, steps) && OnlyDeliveries(steps)
    ensures Three(r, Links(None, Some(10)), Links(Some(20), Some(20)), Links(None, Some(10)),
                  multiset{Stabilize(10, 0), Stabilize(20, 10)})
  {
    hide Execute, Executable, Three, OnlyDeliveries;
    var (linked, ten, met) := (Links(None, Some(10)), Links(None, Some(20)), Links(Some(20), Some(20)));
    var net2 := multiset{Stabilize(10, 0), Stabilize(20, 10), Stabilize(10, 20)};
    var net3 := multiset{Stabilize(10, 0), Stabilize(20, 10), Notify(20, 20)};
    var net4 := multiset{Stabilize(10, 0), Stabilize(20, 10)};
    steps, r := Handled(early, steps0, r0, linked, ten, linked, net2, Stabilize(10, 20), met, net3);
    steps, r := Handled(early, steps, r, linked, met, linked, net3, Notify(20, 20), linked, net4);
  }

  lemma NoSteps(r: Ring)
    ensures Executable(r, []) && Execute(r, []) == r && OnlyDeliveries([])
  {
  }

  /** At last 0 becomes the `prev` of 10, too late to be told to 20. */
  lemma ZeroLast(early: Ring, steps0: seq<Step>, r0: Ring) returns (steps: seq<Step>, r: Ring)
    requires Executable(early, steps0) && r0 == Execute(early, steps0) && OnlyDeliveries(steps0)
    requires Three(r0, Links(None, Some(10)), Links(Some(20), Some(20)), Links(None, Some(10)),
                   multiset{Stabilize(10, 0), Stabilize(20, 10)})
    ensures Executable(early, steps) && r == Execute(early, steps) && OnlyDeliveries(steps)
    ensures Three(r, Links(None, Some(10)), Links(Some(0), Some(20)), Links(Some(10), Some(10)), multiset{})
  {
    hide Execute, Executable, Three, OnlyDeliveries;
    var (zero, met, linked) := (Links(None, Some(10)), Links(Some(20), Some(20)), Links(None, Some(10)));
    var (ten, twenty) := (Links(Some(0), Some(20)), Links(Some(10), Some(10)));
    var net0 := multiset{Stabilize(10, 0), Stabilize(20, 10)};
    var net1 := multiset{Stabilize(20, 10), Notify(0, 0)};
    var net2, net3 := multiset{Stabilize(20, 10)}, multiset{Notify(10, 10)};
    steps, r := Handled(early, steps0, r0, zero, met, linked, net0, Stabilize(10, 0), ten, net1);
    steps, r := Handled(early, steps, r, zero, ten, linked, net1, Notify(0, 0), zero, net2);
    steps, r := Handled(early, steps, r, zero, ten, linked, net2, Stabilize(20, 10), twenty, net3);
    steps, r := Handled(early, steps, r, zero, ten, twenty, net3, Notify(10, 10), ten, multiset{});
  }

  /** A reachable state in which 10 waits for its first notify with a join request in flight to it. If it handles
      the request now, deliveries that are all in order lead to a ring at rest, with every node a member and nothing
      in flight, in which no link leads to 0, the creator. Without newcomers it stays that way. */
  lemma JoinBeforeNotifyBreaksTheRing() returns (steps: seq<Step>, more: seq<Step>)
    ensures Executable(Created(0), steps) && OnlyDeliveries(more)
    ensures var r := Execute(Created(0), steps);
      && Join(10, 20) in r.net && 10 in r.nodes && !Enabled(r, Deliver(Join(10, 20)))
      && var early := Next(r, Deliver(Join(10, 20)));
         && Executable(early, more)
         && var end := Execute(early, more);
            && end.net == multiset{} && end.members == end.nodes.Keys == {0, 10, 20}
            && forall n :: !PointsTo(end, n, 0)
  {
    hide Enabled, Next, Execute, Executable;
    var r, early, end;
    steps, r := EarlyJoin();
    early := GrantTooEarly(r);
    more, end := NotifiesFirst(early);
    more, end := TwentyFirst(early, more, end);
    more, end := ZeroLast(early, more, end);
  }
}

/** The whole ring: every node's links and the messages in flight, one step per handled message. */
module ChordProtocol {
  import opened Common
  import opened RingArithmetic
  import opened ChordNode

  /** `net` may deliver in any order, and neither loses nor duplicates. `members` are the nodes whose
      join request has been granted, `started` numbers the nodes in the order they came up; both are
      history that no handler reads. */
  datatype Ring = Ring(
    creator: Id,
    nodes: map<Id, Links>,
    net: multiset<Msg>,
    members: set<Id>,
    started: map<Id, nat>)

  datatype Step =
    | Start(id: Id, registrar: Id)
    | Deliver(m: Msg)

  function Created(creator: Id): Ring {
    Ring(creator, map[creator := Links(None, None)], multiset{}, {creator}, map[creator := 0])
  }

  /** A fresh node comes up and sends its join request to any node of its choice. A join request is
      handled only by a node that is not still waiting for its own first notify. */
  ghost predicate Enabled(r: Ring, step: Step) {
    match step
    case Start(id, registrar) => id !in r.nodes && registrar in r.nodes
    case Deliver(m) =>
      && m in r.net && m.dest in r.nodes
      && (m.Join? ==> m.dest == r.creator || r.nodes[m.dest].next.Some?)
  }

  ghost function Next(r: Ring, step: Step): Ring
    requires step.Deliver? ==> step.m.dest in r.nodes
  {
    match step
    case Start(id, registrar) =>
      r.(nodes := r.nodes[id := Links(None, None)],
         net := r.net + multiset{Join(registrar, id)},
         started := r.started[id := |r.started|])
    case Deliver(m) =>
      var reaction := React(m.dest, r.nodes[m.dest], m);
      r.(nodes := r.nodes[m.dest := reaction.links],
         net := r.net - multiset{m} + reaction.sent,
         members := if m.Join? && Admits(m.dest, r.nodes[m.dest], m.src) then r.members + {m.src} else r.members)
  }

  // ---------- the invariant ----------

  /** Where `n` points, counting an undelivered first notify as the link it will create. */
  ghost predicate PointsTo(r: Ring, n: Id, x: Id) {
    && n in r.nodes
    && match r.nodes[n].next
       case Some(y) => x == y
       case None => Notify(n, x) in r.net
  }

  ghost predicate WellFormed(r: Ring) {
    && r.creator in r.members && r.members <= r.nodes.Keys && r.started.Keys == r.nodes.Keys
    && (forall n :: n in r.started ==> r.started[n] < |r.started|)
    && (forall n :: n in r.nodes ==> LinksInside(r, n))
    && (forall m :: m in r.net ==> MsgInside(r, m))
  }

  ghost predicate LinksInside(r: Ring, n: Id)
    requires n in r.nodes
  {
    var l := r.nodes[n];
    && (n !in r.members ==> l == Links(None, None))
    && (l.prev.Some? ==> l.prev.value in r.members && l.prev.value != n)
    && (l.next.Some? ==> l.next.value in r.members && l.next.value != n)
  }

  ghost predicate MsgInside(r: Ring, m: Msg) {
    match m
    case Join(dest, src) =>
      && dest in r.nodes && src in r.nodes && src !in r.members && r.net[m] == 1
      && (dest !in r.members ==> dest in r.started && src in r.started && r.started[dest] < r.started[src])
    case Notify(dest, srv) => dest in r.members && srv in r.members
    case Stabilize(dest, src) =>
      dest in r.members && src in r.members && dest != src && src in r.nodes && r.nodes[src].next.Some?
  }

  /** A node is outside the ring exactly while its one join request is travelling. */
  ghost predicate JoinsTravel(r: Ring) {
    && (forall n :: n in r.nodes && n !in r.members ==> exists d :: Join(d, n) in r.net)
    && (forall d, e, n :: Join(d, n) in r.net && Join(e, n) in r.net ==> d == e)
  }

  /** What holds of a member whose link is still missing. */
  ghost predicate LinkMissing(r: Ring, n: Id) {
    if r.members == {n} then
      forall x :: Notify(n, x) !in r.net
    else
      && n != r.creator
      && (exists x :: Notify(n, x) in r.net)
      && (forall x :: Notify(n, x) in r.net ==> r.net[Notify(n, x)] == 1 && IsSuccessor(r.members, n, x))
      && (forall x, y :: Notify(n, x) in r.net && Notify(n, y) in r.net ==> x == y)
  }

  /** Every link, delivered or on its way, leads to the next member clockwise. */
  ghost predicate LinksRight(r: Ring) {
    forall n :: n in r.members && n in r.nodes ==>
      match r.nodes[n].next
      case Some(x) => IsSuccessor(r.members, n, x)
      case None => LinkMissing(r, n)
  }

  /** A link is known to its target, or the message that makes it known is in flight. */
  ghost predicate LinksAnnounced(r: Ring) {
    forall n, x :: n in r.nodes && r.nodes[n].next == Some(x) && x in r.nodes ==>
      Stabilize(x, n) in r.net || r.nodes[x].prev == Some(n)
  }

  ghost predicate Inv(r: Ring) {
    WellFormed(r) && JoinsTravel(r) && LinksRight(r) && LinksAnnounced(r)
  }

  // ---------- every step keeps it ----------

  lemma CreatedInv(creator: Id)
    ensures Inv(Created(creator))
  {
  }

  lemma StartWellFormed(r: Ring, id: Id, registrar: Id)
    requires WellFormed(r) && Enabled(r, Start(id, registrar))
    ensures WellFormed(Next(r, Start(id, registrar)))
  {
    var r' := Next(r, Start(id, registrar));
    assert r'.started.Keys == r.started.Keys + {id};
    assert |r'.started| == |r.started| + 1;
    assert forall m :: m in r'.net ==> m in r.net || m == Join(registrar, id);
    assert Join(registrar, id) in r.net ==> MsgInside(r, Join(registrar, id));
    forall m | m in r'.net
      ensures MsgInside(r', m)
    {
      if m in r.net {
        assert MsgInside(r, m);
      }
    }
    forall n | n in r'.nodes
      ensures LinksInside(r', n)
    {
      if n != id {
        assert LinksInside(r, n);
      }
    }
  }

  lemma StartJoinsTravel(r: Ring, id: Id, registrar: Id)
    requires WellFormed(r) && JoinsTravel(r) && Enabled(r, Start(id, registrar))
    ensures JoinsTravel(Next(r, Start(id, registrar)))
  {
    var r' := Next(r, Start(id, registrar));
    assert forall m :: m in r'.net <==> m in r.net || m == Join(registrar, id);
    assert forall d :: Join(d, id) in r.net ==> MsgInside(r, Join(d, id));
    forall n | n in r'.nodes && n !in r'.members
      ensures exists d :: Join(d, n) in r'.net
    {
      if n == id {
        assert Join(registrar, n) in r'.net;
      } else {
        var d :| Join(d, n) in r.net;
        assert Join(d, n) in r'.net;
      }
    }
  }

  lemma StartLinks(r: Ring, id: Id, registrar: Id)
    requires WellFormed(r) && LinksRight(r) && Enabled(r, Start(id, registrar))
    ensures LinksRight(Next(r, Start(id, registrar)))
  {
    hide IsSuccessor, Offset;
    var r' := Next(r, Start(id, registrar));
    assert forall m: Msg :: !m.Join? ==> r'.net[m] == r.net[m];
    forall n | n in r'.members && n in r'.nodes && r'.nodes[n].next.None?
      ensures LinkMissing(r', n)
    {
      assert LinkMissing(r, n);
    }
  }

  lemma StartLinksAnnounced(r: Ring, id: Id, registrar: Id)
    requires WellFormed(r) && LinksAnnounced(r) && Enabled(r, Start(id, registrar))
    ensures LinksAnnounced(Next(r, Start(id, registrar)))
  {
    var r' := Next(r, Start(id, registrar));
    forall n, x | n in r'.nodes && r'.nodes[n].next == Some(x) && x in r'.nodes
      ensures Stabilize(x, n) in r'.net || r'.nodes[x].prev == Some(n)
    {
      assert LinksInside(r, n);
    }
  }

  // A join request moves on.

  /** `x` is the next hop. */
  ghost predicate Forwards(r: Ring, r': Ring, d: Id, x: Id, src: Id) {
    && r' == r.(net := r'.net)
    && d in r.nodes && x in r.members && x != d && Join(d, src) in r.net
    && r'.net[Join(d, src)] == 0 && r'.net[Join(x, src)] == 1
    && forall m: Msg :: m != Join(d, src) && m != Join(x, src) ==> r'.net[m] == r.net[m]
  }

  lemma JoinIsForwarded(r: Ring, d: Id, src: Id) returns (x: Id)
    requires Inv(r) && Enabled(r, Deliver(Join(d, src))) && !Admits(d, r.nodes[d], src)
    ensures r.nodes[d].next == Some(x) && Forwards(r, Next(r, Deliver(Join(d, src))), d, x, src)
  {
    hide LinksAnnounced, IsSuccessor;
    x := r.nodes[d].next.value;
    assert LinksInside(r, d) && MsgInside(r, Join(d, src));
    assert Join(x, src) !in r.net;
    assert r.nodes[d := r.nodes[d]] == r.nodes;
  }

  lemma ForwardWellFormed(r: Ring, r': Ring, d: Id, x: Id, src: Id)
    requires WellFormed(r) && Forwards(r, r', d, x, src)
    ensures WellFormed(r')
  {
    assert MsgInside(r, Join(d, src));
    forall m | m in r'.net
      ensures MsgInside(r', m)
    {
      assert m == Join(x, src) || MsgInside(r, m);
    }
    forall n | n in r'.nodes
      ensures LinksInside(r', n)
    {
      assert LinksInside(r, n);
    }
  }

  lemma ForwardJoinsTravel(r: Ring, r': Ring, d: Id, x: Id, src: Id)
    requires JoinsTravel(r) && Forwards(r, r', d, x, src)
    ensures JoinsTravel(r')
  {
    forall n | n in r'.nodes && n !in r'.members
      ensures exists e :: Join(e, n) in r'.net
    {
      var e :| Join(e, n) in r.net;
      assert Join(if n == src then x else e, n) in r'.net;
    }
  }

  lemma ForwardLinks(r: Ring, r': Ring, d: Id, x: Id, src: Id)
    requires LinksRight(r) && LinksAnnounced(r) && Forwards(r, r', d, x, src)
    ensures LinksRight(r') && LinksAnnounced(r')
  {
    forall n | n in r'.members && n in r'.nodes && r'.nodes[n].next.None?
      ensures LinkMissing(r', n)
    {
      assert LinkMissing(r, n);
      assert forall y :: r'.net[Notify(n, y)] == r.net[Notify(n, y)];
    }
  }

  // A join request is granted.

  /** `d` takes `src` in; `x` is the old successor of `d`, or `d` itself when it was alone. */
  ghost predicate Grants(r: Ring, r': Ring, d: Id, x: Id, src: Id) {
    && r.creator in r.members && d in r.members && d in r.nodes && src in r.nodes && src !in r.members
    && r.nodes[src] == Links(None, None)
    && (if r.nodes[d].next.None? then r.members == {d} && x == d
        else r.nodes[d].next == Some(x) && InRange(d, x, src))
    && r' == r.(nodes := r.nodes[d := r.nodes[d].(next := Some(src))], net := r'.net, members := r.members + {src})
    && (forall e :: Join(e, src) !in r'.net)
    && (forall y :: Notify(src, y) in r'.net ==> y == x)
    && r'.net[Notify(src, x)] == 1 && r'.net[Stabilize(src, d)] == 1
    && forall m: Msg :: m != Join(d, src) && m != Notify(src, x) && m != Stabilize(src, d) ==> r'.net[m] == r.net[m]
  }

  /** A node that handles a join request without a link is alone. */
  lemma LinklessIsAlone(r: Ring, d: Id, src: Id)
    requires WellFormed(r) && LinksRight(r) && Enabled(r, Deliver(Join(d, src)))
    ensures r.nodes[d].next.None? ==> r.members == {d}
    ensures d in r.members
  {
    assert LinksInside(r, d);
    if r.nodes[d].next.None? {
      assert LinkMissing(r, d);
    }
  }

  /** What was in flight for `src` before it was taken in: only its join request. */
  lemma OnlyTheRequest(r: Ring, d: Id, src: Id)
    requires WellFormed(r) && JoinsTravel(r) && Join(d, src) in r.net
    ensures src in r.nodes && src !in r.members && r.nodes[src] == Links(None, None) && r.net[Join(d, src)] == 1
    ensures (forall e :: Join(e, src) in r.net ==> e == d) && (forall y :: Notify(src, y) !in r.net)
    ensures Stabilize(src, d) !in r.net
  {
    assert MsgInside(r, Join(d, src)) && LinksInside(r, src);
    assert forall y :: Notify(src, y) in r.net ==> MsgInside(r, Notify(src, y));
    assert Stabilize(src, d) in r.net ==> MsgInside(r, Stabilize(src, d));
  }

  lemma JoinIsGranted(r: Ring, d: Id, src: Id) returns (x: Id)
    requires Inv(r) && Enabled(r, Deliver(Join(d, src))) && Admits(d, r.nodes[d], src)
    ensures Grants(r, Next(r, Deliver(Join(d, src))), d, x, src)
  {
    hide LinksRight, LinksAnnounced, JoinsTravel, MsgInside, InRange, IsSuccessor;
    LinklessIsAlone(r, d, src);
    OnlyTheRequest(r, d, src);
    assert LinksInside(r, d);
    x := if r.nodes[d].next.None? then d else r.nodes[d].next.value;
    assert Next(r, Deliver(Join(d, src))).net
      == r.net - multiset{Join(d, src)} + multiset{Notify(src, x), Stabilize(src, d)};
  }

  lemma GrantWellFormed(r: Ring, r': Ring, d: Id, x: Id, src: Id)
    requires WellFormed(r) && Grants(r, r', d, x, src)
    ensures WellFormed(r')
  {
    assert LinksInside(r, d);
    forall m | m in r'.net
      ensures MsgInside(r', m)
    {
      assert m == Notify(src, x) || m == Stabilize(src, d) || MsgInside(r, m);
    }
    forall n | n in r'.nodes
      ensures LinksInside(r', n)
    {
      assert LinksInside(r, n);
    }
  }

  lemma GrantJoinsTravel(r: Ring, r': Ring, d: Id, x: Id, src: Id)
    requires JoinsTravel(r) && Grants(r, r', d, x, src)
    ensures JoinsTravel(r')
  {
    forall n | n in r'.nodes && n !in r'.members
      ensures exists e :: Join(e, n) in r'.net
    {
      var e :| Join(e, n) in r.net;
      assert Join(e, n) in r'.net;
    }
  }

  lemma GrantLinkMissing(r: Ring, r': Ring, d: Id, x: Id, src: Id, n: Id)
    requires LinksRight(r) && Grants(r, r', d, x, src) && n in r.members && n in r.nodes && n != d && r.nodes[n].next.None?
    requires forall y :: IsSuccessor(r.members, n, y) ==> IsSuccessor(r'.members, n, y)
    ensures LinkMissing(r', n)
  {
    assert LinkMissing(r, n) && r.members != {n} && r'.members != {n};
    var y :| Notify(n, y) in r.net;
    assert Notify(n, y) in r'.net;
  }

  lemma GrantLinkPending(r: Ring, r': Ring, d: Id, x: Id, src: Id)
    requires Grants(r, r', d, x, src) && IsSuccessor(r'.members, src, x)
    ensures LinkMissing(r', src)
  {
    assert d in r'.members && r'.members != {src};
    assert Notify(src, x) in r'.net;
  }

  lemma GrantLinksRight(r: Ring, r': Ring, d: Id, x: Id, src: Id)
    requires LinksRight(r) && Grants(r, r', d, x, src)
    ensures LinksRight(r')
  {
    hide Offset, LinkMissing;
    assert x != d ==> IsSuccessor(r.members, d, x);
    if x != d {
      Admit(r.members, d, x, src);
    }
    forall n | n in r'.members && n in r'.nodes
      ensures match r'.nodes[n].next
              case Some(y) => IsSuccessor(r'.members, n, y)
              case None => LinkMissing(r', n)
    {
      if n == src {
        GrantLinkPending(r, r', d, x, src);
      } else if n != d && r.nodes[n].next.None? {
        GrantLinkMissing(r, r', d, x, src, n);
      }
    }
  }

  lemma GrantLinksAnnounced(r: Ring, r': Ring, d: Id, x: Id, src: Id)
    requires WellFormed(r) && LinksAnnounced(r) && Grants(r, r', d, x, src)
    ensures LinksAnnounced(r')
  {
    forall n, y | n in r'.nodes && r'.nodes[n].next == Some(y) && y in r'.nodes
      ensures Stabilize(y, n) in r'.net || r'.nodes[y].prev == Some(n)
    {
      assert n == d || LinksInside(r, n);
    }
  }

  // A first notify arrives.

  ghost predicate Connects(r: Ring, r': Ring, d: Id, x: Id) {
    && d in r.members && d in r.nodes && r.nodes[d].next.None? && IsSuccessor(r.members, d, x)
    && r' == r.(nodes := r.nodes[d := r.nodes[d].(next := Some(x))], net := r'.net)
    && Stabilize(x, d) in r'.net
    && forall m: Msg :: m != Notify(d, x) && m != Stabilize(x, d) ==> r'.net[m] == r.net[m]
  }

  lemma FirstNotifyConnects(r: Ring, d: Id, x: Id)
    requires Inv(r) && Enabled(r, Deliver(Notify(d, x))) && r.nodes[d].next.None?
    ensures Connects(r, Next(r, Deliver(Notify(d, x))), d, x)
    ensures Next(r, Deliver(Notify(d, x))).net[Notify(d, x)] == 0
  {
    assert MsgInside(r, Notify(d, x)) && LinkMissing(r, d);
  }

  lemma ConnectWellFormed(r: Ring, r': Ring, d: Id, x: Id)
    requires WellFormed(r) && Connects(r, r', d, x) && r'.net[Notify(d, x)] == 0
    ensures WellFormed(r')
  {
    forall m | m in r'.net
      ensures MsgInside(r', m)
    {
      assert m == Stabilize(x, d) || MsgInside(r, m);
    }
    forall n | n in r'.nodes
      ensures LinksInside(r', n)
    {
      assert LinksInside(r, n);
    }
  }

  lemma ConnectJoinsTravel(r: Ring, r': Ring, d: Id, x: Id)
    requires JoinsTravel(r) && Connects(r, r', d, x)
    ensures JoinsTravel(r')
  {
    forall n | n in r'.nodes && n !in r'.members
      ensures exists e :: Join(e, n) in r'.net
    {
      var e :| Join(e, n) in r.net;
      assert Join(e, n) in r'.net;
    }
  }

  lemma ConnectLinksRight(r: Ring, r': Ring, d: Id, x: Id)
    requires LinksRight(r) && Connects(r, r', d, x)
    ensures LinksRight(r')
  {
    hide IsSuccessor;
    forall n | n in r'.members && n in r'.nodes && r'.nodes[n].next.None?
      ensures LinkMissing(r', n)
    {
      assert LinkMissing(r, n);
      assert forall y :: r'.net[Notify(n, y)] == r.net[Notify(n, y)];
    }
  }

  lemma ConnectLinksAnnounced(r: Ring, r': Ring, d: Id, x: Id)
    requires LinksAnnounced(r) && Connects(r, r', d, x)
    ensures LinksAnnounced(r')
  {
    hide IsSuccessor;
  }

  // Any later notify, and the reply to a stabilize: only `net` and one `prev` change.

  /** A notify that reaches a node with a link moves nothing: its payload is a member, and no member
      lies between a node and its successor. */
  lemma LaterNotifyIsIgnored(r: Ring, d: Id, y: Id)
    requires Inv(r) && Enabled(r, Deliver(Notify(d, y))) && r.nodes[d].next.Some?
    ensures OnNotify(d, r.nodes[d], y) == Reaction(r.nodes[d], multiset{})
    ensures Next(r, Deliver(Notify(d, y))) == r.(net := r.net - multiset{Notify(d, y)})
  {
    assert MsgInside(r, Notify(d, y)) && LinksInside(r, d);
    assert IsSuccessor(r.members, d, r.nodes[d].next.value);
    assert r.nodes[d := r.nodes[d]] == r.nodes;
  }

  /** Notifies to nodes that already have a link come and go; nothing else is sent. */
  ghost predicate Settles(r: Ring, r': Ring, gone: Msg) {
    && r'.nodes.Keys == r.nodes.Keys && r' == r.(nodes := r'.nodes, net := r'.net)
    && !gone.Join? && gone in r.net
    && (forall n :: n in r.nodes ==> r'.nodes[n].next == r.nodes[n].next)
    && (forall m: Msg :: m != gone && !(m.Notify? && m.dest in r.nodes && r.nodes[m.dest].next.Some?) ==>
          r'.net[m] == r.net[m])
    && (gone.Notify? ==> gone.dest in r.nodes && r.nodes[gone.dest].next.Some?)
  }

  lemma SettleWellFormed(r: Ring, r': Ring, gone: Msg)
    requires WellFormed(r) && Settles(r, r', gone)
    requires forall n :: n in r.nodes && r'.nodes[n] != r.nodes[n] ==> LinksInside(r', n)
    requires forall m :: m in r'.net && m !in r.net ==> MsgInside(r', m)
    ensures WellFormed(r')
  {
    forall m | m in r'.net
      ensures MsgInside(r', m)
    {
      if m in r.net {
        assert MsgInside(r, m);
      }
    }
    forall n | n in r'.nodes
      ensures LinksInside(r', n)
    {
      assert LinksInside(r, n);
    }
  }

  lemma SettleJoinsTravel(r: Ring, r': Ring, gone: Msg)
    requires JoinsTravel(r) && Settles(r, r', gone)
    ensures JoinsTravel(r')
  {
    forall n | n in r'.nodes && n !in r'.members
      ensures exists e :: Join(e, n) in r'.net
    {
      var e :| Join(e, n) in r.net;
      assert Join(e, n) in r'.net;
    }
  }

  lemma SettleLinksRight(r: Ring, r': Ring, gone: Msg)
    requires LinksRight(r) && Settles(r, r', gone)
    ensures LinksRight(r')
  {
    forall n | n in r'.members && n in r'.nodes && r'.nodes[n].next.None?
      ensures LinkMissing(r', n)
    {
      assert LinkMissing(r, n);
      assert forall x :: r'.net[Notify(n, x)] == r.net[Notify(n, x)];
    }
  }

  lemma LaterNotifyInv(r: Ring, d: Id, y: Id)
    requires Inv(r) && Enabled(r, Deliver(Notify(d, y))) && r.nodes[d].next.Some?
    ensures Inv(Next(r, Deliver(Notify(d, y))))
  {
    LaterNotifyIsIgnored(r, d, y);
    var r' := Next(r, Deliver(Notify(d, y)));
    SettleWellFormed(r, r', Notify(d, y));
    SettleJoinsTravel(r, r', Notify(d, y));
    SettleLinksRight(r, r', Notify(d, y));
  }

  lemma StabilizeSettles(r: Ring, d: Id, src: Id) returns (p: Id)
    requires WellFormed(r) && Enabled(r, Deliver(Stabilize(d, src)))
    ensures var r' := Next(r, Deliver(Stabilize(d, src)));
      && Settles(r, r', Stabilize(d, src)) && src in r.members
      && p in r.members && p != d && r'.nodes == r.nodes[d := r.nodes[d].(prev := Some(p))]
      && r'.net == r.net - multiset{Stabilize(d, src)} + multiset{Notify(src, p)}
      && forall m :: m in r'.net && m !in r.net ==> m == Notify(src, p)
  {
    hide Offset;
    assert MsgInside(r, Stabilize(d, src)) && LinksInside(r, d);
    p := Next(r, Deliver(Stabilize(d, src))).nodes[d].prev.value;
  }

  lemma StabilizeWellFormed(r: Ring, r': Ring, d: Id, src: Id, p: Id)
    requires WellFormed(r) && Settles(r, r', Stabilize(d, src)) && d in r.members && src in r.members && d in r.nodes
    requires p in r.members && p != d && r'.nodes == r.nodes[d := r.nodes[d].(prev := Some(p))]
    requires forall m :: m in r'.net && m !in r.net ==> m == Notify(src, p)
    ensures WellFormed(r')
  {
    assert LinksInside(r, d);
    SettleWellFormed(r, r', Stabilize(d, src));
  }

  lemma StabilizeLinksAnnounced(r: Ring, d: Id, src: Id)
    requires Inv(r) && Enabled(r, Deliver(Stabilize(d, src)))
    ensures LinksAnnounced(Next(r, Deliver(Stabilize(d, src))))
  {
    hide JoinsTravel, Offset;
    var r' := Next(r, Deliver(Stabilize(d, src)));
    assert MsgInside(r, Stabilize(d, src)) && LinksInside(r, d) && LinksInside(r, src);
    forall n, x | n in r'.nodes && r'.nodes[n].next == Some(x) && x in r'.nodes
      ensures Stabilize(x, n) in r'.net || r'.nodes[x].prev == Some(n)
    {
      assert LinksInside(r, n) && IsSuccessor(r.members, n, x);
      assert Stabilize(x, n) in r.net || r.nodes[x].prev == Some(n);
      if x == d {
        PrevIsKept(r, d, n, src);
      }
    }
  }

  /** On the arc that ends at `d`, the stabilize of the true predecessor wins and no other does. */
  lemma PrevIsKept(r: Ring, d: Id, n: Id, src: Id)
    requires n in r.members && src in r.members && src != d && IsSuccessor(r.members, n, d) && d in r.nodes
    requires LinksInside(r, d)
    ensures n == src ==> OnStabilize(d, r.nodes[d], src).links.prev == Some(n)
    ensures r.nodes[d].prev == Some(n) ==> OnStabilize(d, r.nodes[d], src).links.prev == Some(n)
  {
  }

  /** The invariant survives every enabled step. */
  lemma StepInv(r: Ring, step: Step)
    requires Inv(r) && Enabled(r, step)
    ensures Inv(Next(r, step))
  {
    hide Next, Admits, IsSuccessor, LinksAnnounced, LinksRight, JoinsTravel, Grants, Forwards, Settles;
    var r' := Next(r, step);
    match step
    case Start(id, registrar) =>
      StartWellFormed(r, id, registrar);
      StartJoinsTravel(r, id, registrar);
      StartLinks(r, id, registrar);
      StartLinksAnnounced(r, id, registrar);
    case Deliver(Join(d, src)) =>
      if Admits(d, r.nodes[d], src) {
        var x := JoinIsGranted(r, d, src);
        GrantWellFormed(r, r', d, x, src);
        GrantJoinsTravel(r, r', d, x, src);
        GrantLinksRight(r, r', d, x, src);
        GrantLinksAnnounced(r, r', d, x, src);
      } else {
        var x := JoinIsForwarded(r, d, src);
        ForwardWellFormed(r, r', d, x, src);
        ForwardJoinsTravel(r, r', d, x, src);
        ForwardLinks(r, r', d, x, src);
      }
    case Deliver(Notify(d, y)) =>
      if r.nodes[d].next.None? {
        FirstNotifyConnects(r, d, y);
        ConnectWellFormed(r, r', d, y);
        ConnectJoinsTravel(r, r', d, y);
        ConnectLinksRight(r, r', d, y);
        ConnectLinksAnnounced(r, r', d, y);
      } else {
        LaterNotifyInv(r, d, y);
      }
    case Deliver(Stabilize(d, src)) =>
      assert MsgInside(r, Stabilize(d, src));
      var p := StabilizeSettles(r, d, src);
      StabilizeWellFormed(r, r', d, src, p);
      SettleJoinsTravel(r, r', Stabilize(d, src));
      SettleLinksRight(r, r', Stabilize(d, src));
      StabilizeLinksAnnounced(r, d, src);
  }
}

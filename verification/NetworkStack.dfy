/** One node's network stack: what it does with a packet, and the routes it does it by. */
module NetworkStack {
  import opened Common
  import opened Topology
  import opened Dijkstra

  const PS_NODE_UNKNOWN := -1
  const PS_DEST_BROADCAST_ALL := -2
  const PS_DEST_BROADCAST_LIMIT := -3

  datatype Header = Header(srcNode: int, destNode: int, lastNode: int, ttl: int, alert: bool)

  datatype DropReason = TTLExceeded | NoDestination | NoRoute

  /** What becomes of a packet. A gate is named by the neighbour it leads to. */
  datatype Action =
    | Deliver
    | Drop(reason: DropReason)
    | Send(gate: Addr)
    | Flood(gates: seq<Addr>)

  class Packet {
    var srcNode: int
    var destNode: int
    var lastNode: int
    var ttl: int
    const alert: bool

    ghost function View(): Header
      reads this
    {
      Header(srcNode, destNode, lastNode, ttl, alert)
    }

    constructor (header: Header)
      ensures View() == header
    {
      srcNode, destNode, lastNode, ttl, alert := header.srcNode, header.destNode, header.lastNode, header.ttl, header.alert;
    }
  }

  /** How a packet reached the stack: from a local application, as a message of the stack to itself, or
      over a link. */
  datatype Origin = FromApplication | Local | FromLink

  /** A packet from an application gets this node as source and a fresh TTL, unless it is an alert that
      already names its source. */
  function Stamped(self: Addr, h: Header, origin: Origin): Header {
    if origin.FromApplication? && (!h.alert || h.srcNode == PS_NODE_UNKNOWN) then h.(srcNode := self, ttl := 0) else h
  }

  function Hop(self: Addr, h: Header): Header {
    h.(lastNode := self, ttl := h.ttl + 1)
  }

  function FloodGates(neighbors: seq<Addr>, h: Header): seq<Addr> {
    if neighbors == [] then [] else
      var rest := FloodGates(neighbors[..|neighbors| - 1], h);
      var last := neighbors[|neighbors| - 1];
      if h.destNode == PS_DEST_BROADCAST_ALL || last != h.lastNode then rest + [last] else rest
  }

  ghost predicate Distinct(gates: seq<Addr>) {
    forall i, j :: 0 <= i < j < |gates| ==> gates[i] != gates[j]
  }

  /** A broadcast leaves through every gate, but for the one to the last hop if it is limited. */
  lemma {:induction false} FloodsEachGate(neighbors: seq<Addr>, h: Header, g: Addr)
    ensures g in FloodGates(neighbors, h) <==>
      g in neighbors && (h.destNode == PS_DEST_BROADCAST_ALL || g != h.lastNode)
  {
    if neighbors != [] {
      var n := |neighbors| - 1;
      FloodsEachGate(neighbors[..n], h, g);
      assert neighbors == neighbors[..n] + [neighbors[n]];
    }
  }

  /** And through none twice. */
  lemma {:induction false} FloodsNoGateTwice(neighbors: seq<Addr>, h: Header)
    requires Distinct(neighbors)
    ensures Distinct(FloodGates(neighbors, h))
  {
    if neighbors != [] {
      var n := |neighbors| - 1;
      FloodsNoGateTwice(neighbors[..n], h);
      FloodsEachGate(neighbors[..n], h, neighbors[n]);
      assert neighbors[n] !in neighbors[..n];
    }
  }

  function OnSendOut(self: Addr, maxTTL: int, routes: map<Addr, Addr>, neighbors: seq<Addr>, h: Header): (Header, Action) {
    if h.ttl >= maxTTL then (h, Drop(TTLExceeded))
    else if h.destNode == PS_NODE_UNKNOWN then (h, Drop(NoDestination))
    else if h.destNode == PS_DEST_BROADCAST_ALL || h.destNode == PS_DEST_BROADCAST_LIMIT then
      (Hop(self, h), Flood(FloodGates(neighbors, h)))
    else if h.destNode >= 0 && h.destNode in routes then (Hop(self, h), Send(routes[h.destNode]))
    else (h, Drop(NoRoute))
  }

  /** The decision for a packet that is not a local message. */
  function OnMessage(self: Addr, maxTTL: int, routes: map<Addr, Addr>, neighbors: seq<Addr>, h0: Header, origin: Origin)
    : (Header, Action)
  {
    var h := Stamped(self, h0, origin);
    if origin.Local? || (h.alert && !origin.FromApplication?) || h.destNode == self then (h, Deliver)
    else OnSendOut(self, maxTTL, routes, neighbors, h)
  }

  /** A packet that starts here: its source and its hops are set. */
  predicate Starts(h: Header, origin: Origin) {
    origin.FromApplication? && (!h.alert || h.srcNode == PS_NODE_UNKNOWN)
  }

  /** Which packets are delivered, dropped for which reason, sent and flooded, and what a packet that leaves says of
      its way. */
  lemma DecisionTable(self: Addr, maxTTL: int, routes: map<Addr, Addr>, neighbors: seq<Addr>, h: Header, origin: Origin)
    ensures var (h', action) := OnMessage(self, maxTTL, routes, neighbors, h, origin);
      var hops := if Starts(h, origin) then 0 else h.ttl;
      var leaves := action.Send? || action.Flood?;
      var d := h.destNode;
      && (action.Deliver? <==> origin.Local? || (h.alert && !origin.FromApplication?) || d == self)
      && (action == Drop(TTLExceeded) <==> !action.Deliver? && hops >= maxTTL)
      && (action == Drop(NoDestination) <==> !action.Deliver? && hops < maxTTL && d == -1)
      && (action.Flood? <==> !action.Deliver? && hops < maxTTL && (d == -2 || d == -3))
      && (action.Send? <==> !action.Deliver? && hops < maxTTL && d >= 0 && d in routes)
      && (action.Send? ==> d in routes && action.gate == routes[d])
      && (action == Drop(NoRoute) <==> !action.Deliver? && hops < maxTTL && d !in {-1, -2, -3} && !(d >= 0 && d in routes))
      && h' == Header(if Starts(h, origin) then self else h.srcNode, d, if leaves then self else h.lastNode,
                      if leaves then hops + 1 else hops, h.alert)
  {
  }

  /** A limited broadcast never goes straight back over the link it came by. */
  lemma NeverStraightBack(n: Addr, maxTTL: int, routes: map<Addr, Addr>, neighbors: seq<Addr>, h: Header, origin: Origin,
                          m: Addr, maxTTL2: int, routes2: map<Addr, Addr>, neighbors2: seq<Addr>)
    requires h.destNode == PS_DEST_BROADCAST_LIMIT && OnMessage(n, maxTTL, routes, neighbors, h, origin).1.Flood?
    ensures var (h', _) := OnMessage(n, maxTTL, routes, neighbors, h, origin);
      var (_, next) := OnMessage(m, maxTTL2, routes2, neighbors2, h', FromLink);
      next.Flood? ==> n !in next.gates
  {
    hide FloodGates;
    var (h', _) := OnMessage(n, maxTTL, routes, neighbors, h, origin);
    FloodsEachGate(neighbors2, h', n);
  }

  class NetworkStack {
    const nodeAddr: Addr
    const maxTTL: int
    const neighbors: seq<Addr>
    var routes: map<Addr, Addr>

    constructor (nodeAddr: Addr, maxTTL: int, neighbors: seq<Addr>)
      ensures this.nodeAddr == nodeAddr && this.maxTTL == maxTTL && this.neighbors == neighbors && routes == map[]
    {
      this.nodeAddr, this.maxTTL, this.neighbors := nodeAddr, maxTTL, neighbors;
      routes := map[];
    }

    method AddRoute(dest: Addr, nextHop: Addr)
      modifies this`routes
      ensures routes == old(routes)[dest := nextHop]
    {
      routes := routes[dest := nextHop];
    }

    method LookupRoute(dest: int) returns (gate: Option<Addr>)
      ensures gate.None? ==> forall d :: d in routes ==> d != dest
      ensures gate.Some? ==> exists d :: d in routes && d == dest && routes[d] == gate.value
    {
      gate := if dest >= 0 && dest in routes then Some(routes[dest]) else None;
    }

    method SendOut(packet: Packet) returns (action: Action)
      modifies packet
      ensures (packet.View(), action) == OnSendOut(nodeAddr, maxTTL, routes, neighbors, old(packet.View()))
    {
      if packet.ttl >= maxTTL {
        action := Drop(TTLExceeded);
      } else if packet.destNode == PS_NODE_UNKNOWN {
        action := Drop(NoDestination);
      } else if packet.destNode == PS_DEST_BROADCAST_ALL || packet.destNode == PS_DEST_BROADCAST_LIMIT {
        var lastNode := packet.lastNode;
        packet.lastNode := nodeAddr;
        packet.ttl := packet.ttl + 1;
        var gates: seq<Addr> := [];
        for i := 0 to |neighbors|
          invariant gates == FloodGates(neighbors[..i], old(packet.View()))
        {
          assert neighbors[..i + 1][..i] == neighbors[..i];
          if packet.destNode == PS_DEST_BROADCAST_ALL || neighbors[i] != lastNode {
            gates := gates + [neighbors[i]];
          }
        }
        assert neighbors[..|neighbors|] == neighbors;
        action := Flood(gates);
      } else {
        var gate := LookupRoute(packet.destNode);
        if gate.Some? {
          packet.lastNode := nodeAddr;
          packet.ttl := packet.ttl + 1;
          action := Send(gate.value);
        } else {
          action := Drop(NoRoute);
        }
      }
    }

    method HandleMessage(packet: Packet, origin: Origin) returns (action: Action)
      modifies packet
      ensures (packet.View(), action) == OnMessage(nodeAddr, maxTTL, routes, neighbors, old(packet.View()), origin)
    {
      if origin.FromApplication? && (!packet.alert || packet.srcNode == PS_NODE_UNKNOWN) {
        packet.srcNode := nodeAddr;
        packet.ttl := 0;
      }
      if origin.Local? || (packet.alert && !origin.FromApplication?) || packet.destNode == nodeAddr {
        action := Deliver;
      } else {
        action := SendOut(packet);
      }
    }
  }

  // ---------- the routing daemon ----------

  /** Every other node of `g` is routed to the first hop of a shortest path. */
  ghost predicate Routed(g: Graph, self: Addr, routes: map<Addr, Addr>) {
    forall d :: d in g && d != self ==> d in routes && StartsShortest(g, self, d, routes[d])
  }

  lemma FirstHop(g: Graph, src: Addr, v: Addr, link: Link)
    requires BeginsShortest(g, src, v, link)
    ensures StartsShortest(g, src, v, link.dest)
  {
    var p :| IsShortest(g, p, src, v) && FirstLink(g, src, link, p);
    assert IsShortest(g, p, src, v) && |p| > 1 && p[1] == link.dest;
  }

  /** Run the search for this node and install a route for every result; fails when the search does. */
  method CalculateRoutes(stack: NetworkStack, g: Graph) returns (ok: bool)
    requires WellFormed(g) && stack.nodeAddr in g
    modifies stack`routes
    ensures ok <==> AllReachable(g, stack.nodeAddr)
    ensures ok ==> Routed(g, stack.nodeAddr, stack.routes)
    ensures forall d :: d !in g || d == stack.nodeAddr ==> (d in stack.routes <==> d in old(stack.routes))
    ensures !ok ==> stack.routes == old(stack.routes)
  {
    hide WellFormed, AllReachable, StartsShortest, BeginsShortest;
    var found := DoDijkstra(g, stack.nodeAddr);
    if found.None? {
      return false;
    }
    var paths := found.value;
    var todo: set<Addr> := paths.Keys;
    while todo != {}
      invariant todo <= paths.Keys
      invariant forall d :: d in paths && d !in todo ==>
        d in stack.routes && StartsShortest(g, stack.nodeAddr, d, stack.routes[d])
      invariant forall d :: d !in paths ==> (d in stack.routes <==> d in old(stack.routes))
    {
      var d :| d in todo;
      FirstHop(g, stack.nodeAddr, d, paths[d]);
      stack.AddRoute(d, paths[d].dest);
      todo := todo - {d};
    }
    ok := true;
  }

  ghost predicate StronglyConnected(g: Graph) {
    forall u :: u in g ==> AllReachable(g, u)
  }

  /** A link change makes every daemon of the network recalculate; the first failing search ends it. */
  method RecalculateAll(daemons: seq<NetworkStack>, g: Graph) returns (ok: bool)
    requires WellFormed(g)
    requires forall i :: 0 <= i < |daemons| ==> daemons[i].nodeAddr in g
    modifies daemons`routes
    ensures ok <==> forall i :: 0 <= i < |daemons| ==> AllReachable(g, daemons[i].nodeAddr)
    ensures StronglyConnected(g) ==> ok
    ensures ok ==> forall i :: 0 <= i < |daemons| ==> Routed(g, daemons[i].nodeAddr, daemons[i].routes)
  {
    hide WellFormed, AllReachable, Routed;
    for i := 0 to |daemons|
      invariant forall j :: 0 <= j < i ==> AllReachable(g, daemons[j].nodeAddr)
      invariant forall j :: 0 <= j < i ==> Routed(g, daemons[j].nodeAddr, daemons[j].routes)
    {
      ok := CalculateRoutes(daemons[i], g);
      if !ok {
        return;
      }
    }
    ok := true;
  }
}

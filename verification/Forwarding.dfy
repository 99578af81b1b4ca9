/** Hop-by-hop forwarding over a network in which every node is routed by shortest paths. */
module Forwarding {
  import opened Common
  import opened Topology
  import opened Dijkstra
  import opened NetworkStack

  /** The routes of all nodes. */
  type Tables = map<Addr, map<Addr, Addr>>

  ghost predicate AllRouted(g: Graph, tables: Tables) {
    && WellFormed(g) && tables.Keys == g.Keys
    && forall n :: n in g ==> Routed(g, n, tables[n])
  }

  // ---------- remaining distance ----------

  /** The weight of the lightest paths from `n` to `d`. */
  ghost predicate IsDistance(g: Graph, n: Addr, d: Addr, w: real) {
    exists p :: IsShortest(g, p, n, d) && Weight(g, p) == w
  }

  lemma DistanceUnique(g: Graph, n: Addr, d: Addr, w1: real, w2: real)
    requires IsDistance(g, n, d, w1) && IsDistance(g, n, d, w2)
    ensures w1 == w2
  {
    var p :| IsShortest(g, p, n, d) && Weight(g, p) == w1;
    var q :| IsShortest(g, q, n, d) && Weight(g, q) == w2;
    assert IsPath(g, p, n, d) && IsPath(g, q, n, d);
  }

  lemma {:induction false} WeightNotNegative(g: Graph, p: seq<Addr>, u: Addr, v: Addr)
    requires WellFormed(g) && IsPath(g, p, u, v)
    ensures Weight(g, p) >= 0.0 && (u != v ==> Weight(g, p) > 0.0)
    decreases |p|
  {
    if |p| > 1 {
      var w := p[|p| - 2];
      LinksInside(g, w);
      WeightNotNegative(g, p[..|p| - 1], u, w);
    }
  }

  lemma DistanceToSelf(g: Graph, d: Addr)
    requires WellFormed(g) && d in g
    ensures IsDistance(g, d, d, 0.0)
  {
    forall q | IsPath(g, q, d, d)
      ensures Weight(g, [d]) <= Weight(g, q)
    {
      WeightNotNegative(g, q, d, d);
    }
    assert IsShortest(g, [d], d, d);
  }

  /** The first hop of a shortest path is closer to the destination, by the weight of the link taken. */
  lemma HopIsCloser(g: Graph, n: Addr, d: Addr, x: Addr) returns (w: real)
    requires WellFormed(g) && StartsShortest(g, n, d, x)
    ensures n in g && x in g && x in g[n] && g[n][x] > 0.0
    ensures IsDistance(g, x, d, w) && IsDistance(g, n, d, g[n][x] + w)
  {
    var p :| IsShortest(g, p, n, d) && |p| > 1 && p[1] == x;
    var tail := p[1..];
    assert p[0] in g && p[1] in g[p[0]];
    TailIsPath(g, p, n, d);
    Prepend(g, n, tail, x, d);
    assert [n] + tail == p;
    w := Weight(g, tail);
    forall q | IsPath(g, q, x, d)
      ensures Weight(g, tail) <= Weight(g, q)
    {
      Prepend(g, n, q, x, d);
    }
    assert IsShortest(g, tail, x, d);
  }

  lemma TailIsPath(g: Graph, p: seq<Addr>, u: Addr, v: Addr)
    requires WellFormed(g) && IsPath(g, p, u, v) && |p| > 1
    ensures IsPath(g, p[1..], p[1], v)
  {
    var tail := p[1..];
    forall i | 0 <= i < |tail| - 1
      ensures tail[i] in g && tail[i + 1] in g[tail[i]]
    {
      assert tail[i] == p[i + 1] && tail[i + 1] == p[i + 2];
    }
  }

  ghost function Distance(g: Graph, n: Addr, d: Addr): (w: real)
    requires exists w :: IsDistance(g, n, d, w)
    ensures IsDistance(g, n, d, w)
  {
    var w :| IsDistance(g, n, d, w);
    w
  }

  lemma RoutedHop(g: Graph, tables: Tables, n: Addr, d: Addr) returns (w: real)
    requires AllRouted(g, tables) && n in g && d in g && n != d
    ensures n in tables && d in tables[n]
    ensures var x := tables[n][d]; x in g && x in g[n] && g[n][x] > 0.0 && IsDistance(g, x, d, w)
    ensures IsDistance(g, n, d, g[n][tables[n][d]] + w)
  {
    assert Routed(g, n, tables[n]);
    w := HopIsCloser(g, n, d, tables[n][d]);
  }

  /** What is left of the way from `n` to `d`. */
  ghost function Left(g: Graph, tables: Tables, n: Addr, d: Addr): (w: real)
    requires AllRouted(g, tables) && n in g && d in g
    ensures IsDistance(g, n, d, w)
  {
    assert exists w :: IsDistance(g, n, d, w) by {
      if n == d {
        DistanceToSelf(g, d);
      } else {
        var w := RoutedHop(g, tables, n, d);
      }
    }
    Distance(g, n, d)
  }

  /** On a routed network the next hop is a neighbour, and strictly closer by the weight of the link. */
  lemma NextHop(g: Graph, tables: Tables, n: Addr, d: Addr)
    requires AllRouted(g, tables) && n in g && d in g && n != d
    ensures n in tables && d in tables[n] && tables[n][d] in g && tables[n][d] in g[n]
    ensures g[n][tables[n][d]] > 0.0
    ensures Left(g, tables, n, d) == g[n][tables[n][d]] + Left(g, tables, tables[n][d], d)
  {
    hide AllRouted, IsDistance, WellFormed, Distance;
    var w := RoutedHop(g, tables, n, d);
    var x := tables[n][d];
    DistanceUnique(g, x, d, w, Left(g, tables, x, d));
    DistanceUnique(g, n, d, g[n][x] + w, Left(g, tables, n, d));
  }

  // ---------- the trip of a packet ----------

  /** The nodes strictly closer to `d` than `n` is. */
  ghost function Nearer(g: Graph, tables: Tables, n: Addr, d: Addr): set<Addr>
    requires AllRouted(g, tables) && n in g && d in g
  {
    set m | m in g && Left(g, tables, m, d) < Left(g, tables, n, d)
  }

  lemma NearerShrinks(g: Graph, tables: Tables, n: Addr, d: Addr)
    requires AllRouted(g, tables) && n in g && d in g && n != d
    ensures n in tables && d in tables[n] && tables[n][d] in g
    ensures var x := tables[n][d];
      x in Nearer(g, tables, n, d) && Nearer(g, tables, x, d) <= Nearer(g, tables, n, d) - {x}
    ensures |Nearer(g, tables, tables[n][d], d)| < |Nearer(g, tables, n, d)|
  {
    hide AllRouted, Left;
    NextHop(g, tables, n, d);
    var x := tables[n][d];
    SubsetSize(Nearer(g, tables, x, d), Nearer(g, tables, n, d) - {x});
  }

  /** The nodes a packet visits on its way from `n` to `d`, both included. */
  ghost function Trip(g: Graph, tables: Tables, n: Addr, d: Addr): (trip: seq<Addr>)
    requires AllRouted(g, tables) && n in g && d in g
    ensures |trip| > 0 && trip[0] == n && trip[|trip| - 1] == d
    decreases |Nearer(g, tables, n, d)|
  {
    if n == d then [d] else
      NearerShrinks(g, tables, n, d);
      [n] + Trip(g, tables, tables[n][d], d)
  }

  ghost function Hops(g: Graph, tables: Tables, n: Addr, d: Addr): nat
    requires AllRouted(g, tables) && n in g && d in g
  {
    |Trip(g, tables, n, d)| - 1
  }

  /** The route taken is a shortest path. */
  lemma {:induction false} TripIsShortest(g: Graph, tables: Tables, n: Addr, d: Addr)
    requires AllRouted(g, tables) && n in g && d in g
    ensures IsPath(g, Trip(g, tables, n, d), n, d)
    ensures IsDistance(g, n, d, Weight(g, Trip(g, tables, n, d)))
    decreases |Nearer(g, tables, n, d)|
  {
    hide AllRouted, IsDistance, Nearer, Left, WellFormed;
    if n == d {
      AllRoutedWellFormed(g, tables);
      DistanceToSelf(g, d);
    } else {
      NearerShrinks(g, tables, n, d);
      var x := tables[n][d];
      TripIsShortest(g, tables, x, d);
      var w := RoutedHop(g, tables, n, d);
      Prepend(g, n, Trip(g, tables, x, d), x, d);
      DistanceUnique(g, x, d, Weight(g, Trip(g, tables, x, d)), w);
    }
  }

  lemma AllRoutedWellFormed(g: Graph, tables: Tables)
    requires AllRouted(g, tables)
    ensures WellFormed(g) && tables.Keys == g.Keys
  {
  }

  /** The distance left falls at every hop, so no node is visited twice. */
  lemma {:induction false} TripFalls(g: Graph, tables: Tables, n: Addr, d: Addr)
    requires AllRouted(g, tables) && n in g && d in g
    ensures var trip := Trip(g, tables, n, d);
      && (forall i :: 0 < i < |trip| ==> trip[i] in Nearer(g, tables, n, d))
      && (forall i, j :: 0 <= i < j < |trip| ==> trip[i] != trip[j])
      && |trip| <= |Nearer(g, tables, n, d)| + 1
    decreases |Nearer(g, tables, n, d)|
  {
    hide AllRouted, Left;
    if n != d {
      NearerShrinks(g, tables, n, d);
      var x := tables[n][d];
      TripFalls(g, tables, x, d);
      var rest := Trip(g, tables, x, d);
      var trip := Trip(g, tables, n, d);
      assert trip == [n] + rest;
      assert n !in Nearer(g, tables, n, d);
      hide Nearer, Trip;
      forall i | 0 < i < |trip|
        ensures trip[i] in Nearer(g, tables, n, d)
      {
        assert trip[i] == rest[i - 1];
      }
      forall i, j | 0 <= i < j < |trip|
        ensures trip[i] != trip[j]
      {
        assert trip[j] == rest[j - 1];
        assert i > 0 ==> trip[i] == rest[i - 1];
      }
    }
  }

  // ---------- forwarding ----------

  datatype Fate = Delivered(at: Addr, ttl: int) | Lost(at: Addr, reason: DropReason)

  /** A packet that comes to `n` over a link is handled by the stack of `n`, and by the next stack if that
      one sends it on. */
  ghost function Journey(tables: Tables, maxTTL: int, n: Addr, h: Header): Fate
    requires n in tables
    decreases maxTTL - h.ttl
  {
    var (h', action) := OnMessage(n, maxTTL, tables[n], [], h, FromLink);
    match action
    case Deliver => Delivered(n, h'.ttl)
    case Drop(reason) => Lost(n, reason)
    case Send(gate) => if gate in tables then Journey(tables, maxTTL, gate, h') else Lost(n, NoRoute)
    case Flood(_) => Lost(n, NoDestination)
  }

  /** One hop of the journey follows one hop of the trip. */
  lemma JourneyStep(tables: Tables, maxTTL: int, n: Addr, h: Header)
    requires n in tables && h.destNode >= 0 && !h.alert
    ensures h.destNode == n ==> Journey(tables, maxTTL, n, h) == Delivered(n, h.ttl)
    ensures h.destNode != n && h.ttl >= maxTTL ==> Journey(tables, maxTTL, n, h) == Lost(n, TTLExceeded)
    ensures h.destNode != n && h.ttl < maxTTL && h.destNode in tables[n] && tables[n][h.destNode] in tables ==>
      Journey(tables, maxTTL, n, h) == Journey(tables, maxTTL, tables[n][h.destNode], Hop(n, h))
  {
  }

  /** A packet is delivered, after exactly the hops of the trip, if the TTL it has left allows that many;
      otherwise it is dropped for its TTL and for nothing else. */
  lemma {:induction false} JourneyFollowsTrip(g: Graph, tables: Tables, maxTTL: int, n: Addr, h: Header, d: Addr)
    requires AllRouted(g, tables) && n in g && d in g && h.destNode == d && !h.alert && n in tables
    ensures var hops := Hops(g, tables, n, d); var fate := Journey(tables, maxTTL, n, h);
      if hops == 0 || h.ttl + hops <= maxTTL then fate == Delivered(d, h.ttl + hops)
      else fate.Lost? && fate.reason == TTLExceeded
    decreases |Nearer(g, tables, n, d)|
  {
    hide AllRouted, Nearer, Left, Journey;
    JourneyStep(tables, maxTTL, n, h);
    if n != d {
      NearerShrinks(g, tables, n, d);
      AllRoutedWellFormed(g, tables);
      if h.ttl < maxTTL {
        JourneyFollowsTrip(g, tables, maxTTL, tables[n][d], Hop(n, h), d);
      }
    }
  }

  /** A packet that an application of `n` sends to `d` is delivered exactly when the route has at most
      `maxTTL` hops; the route is a shortest path, visits no node twice, and has fewer hops than there are
      nodes. */
  lemma DeliveredExactlyWhen(g: Graph, tables: Tables, maxTTL: int, n: Addr, h: Header, d: Addr)
    requires AllRouted(g, tables) && n in g && d in g && n != d && h.destNode == d && !h.alert && n in tables
    ensures var trip := Trip(g, tables, n, d); var hops := Hops(g, tables, n, d);
      var fate := Journey(tables, maxTTL, n, Stamped(n, h, FromApplication));
      && (fate.Delivered? <==> hops <= maxTTL)
      && (hops <= maxTTL ==> fate == Delivered(d, hops))
      && 0 < hops < |g|
      && (forall i, j :: 0 <= i < j <= hops ==> trip[i] != trip[j])
      && IsPath(g, trip, n, d) && IsDistance(g, n, d, Weight(g, trip))
  {
    hide AllRouted, Left, Journey, IsDistance, IsPath, Weight;
    JourneyFollowsTrip(g, tables, maxTTL, n, Stamped(n, h, FromApplication), d);
    TripFalls(g, tables, n, d);
    TripIsShortest(g, tables, n, d);
    SubsetSize(Nearer(g, tables, n, d), g.Keys - {n});
  }

  // ---------- from the daemons to delivery ----------

  /** Every node of the graph has exactly one daemon. */
  ghost predicate DaemonsOf(g: Graph, daemons: seq<NetworkStack>) {
    && (forall i :: 0 <= i < |daemons| ==> daemons[i].nodeAddr in g)
    && (forall n :: n in g ==> exists i :: 0 <= i < |daemons| && daemons[i].nodeAddr == n)
    && (forall i, j :: 0 <= i < j < |daemons| ==> daemons[i].nodeAddr != daemons[j].nodeAddr)
  }

  /** The routes that the stacks hold. */
  ghost function TablesOf(daemons: seq<NetworkStack>): (tables: Tables)
    reads daemons`routes
  {
    if daemons == [] then map[] else
      var last := daemons[|daemons| - 1];
      TablesOf(daemons[..|daemons| - 1])[last.nodeAddr := last.routes]
  }

  lemma {:induction false} TablesHold(daemons: seq<NetworkStack>)
    requires forall i, j :: 0 <= i < j < |daemons| ==> daemons[i].nodeAddr != daemons[j].nodeAddr
    ensures forall n :: n in TablesOf(daemons) <==> exists i :: 0 <= i < |daemons| && daemons[i].nodeAddr == n
    ensures forall i :: 0 <= i < |daemons| ==>
      daemons[i].nodeAddr in TablesOf(daemons) && TablesOf(daemons)[daemons[i].nodeAddr] == daemons[i].routes
  {
    if daemons != [] {
      TablesHold(daemons[..|daemons| - 1]);
    }
  }

  lemma RoutedEverywhere(g: Graph, daemons: seq<NetworkStack>)
    requires WellFormed(g) && DaemonsOf(g, daemons)
    requires forall i :: 0 <= i < |daemons| ==> Routed(g, daemons[i].nodeAddr, daemons[i].routes)
    ensures AllRouted(g, TablesOf(daemons))
  {
    hide Routed, WellFormed, TablesOf;
    var tables := TablesOf(daemons);
    TablesHold(daemons);
    assert tables.Keys == g.Keys;
    forall n | n in g
      ensures Routed(g, n, tables[n])
    {
      var i :| 0 <= i < |daemons| && daemons[i].nodeAddr == n;
      assert tables[daemons[i].nodeAddr] == daemons[i].routes;
    }
  }

  /** A packet of an application of `n` that is meant for the other node `d`. */
  ghost predicate Addressed(g: Graph, n: Addr, h: Header, d: Addr) {
    n in g && d in g && n != d && h.destNode == d && !h.alert
  }

  /** Packets from applications are delivered, by the trip, exactly when that has at most `maxTTL` hops. */
  ghost predicate ForwardsRight(g: Graph, tables: Tables, maxTTL: int) {
    AllRouted(g, tables) && forall n, d, h :: Addressed(g, n, h, d) ==>
      var (hops, fate) := (Hops(g, tables, n, d), Journey(tables, maxTTL, n, Stamped(n, h, FromApplication)));
      (fate.Delivered? <==> hops <= maxTTL) && (hops <= maxTTL ==> fate == Delivered(d, hops))
  }

  lemma RoutedForwardsRight(g: Graph, tables: Tables, maxTTL: int)
    requires AllRouted(g, tables)
    ensures ForwardsRight(g, tables, maxTTL)
  {
    hide AllRouted, Journey, Hops, Trip, Stamped, Weight, IsPath, IsDistance;
    AllRoutedWellFormed(g, tables);
    forall n, d, h | Addressed(g, n, h, d)
      ensures var (hops, fate) := (Hops(g, tables, n, d), Journey(tables, maxTTL, n, Stamped(n, h, FromApplication)));
        (fate.Delivered? <==> hops <= maxTTL) && (hops <= maxTTL ==> fate == Delivered(d, hops))
    {
      DeliveredExactlyWhen(g, tables, maxTTL, n, h, d);
    }
  }

  /** All daemons recalculate, which works out exactly on a strongly connected graph. From then on a packet from any
      application reaches any other node exactly when the way there has at most `maxTTL` hops. */
  method RecalculateNetwork(daemons: seq<NetworkStack>, g: Graph) returns (ok: bool)
    requires WellFormed(g) && DaemonsOf(g, daemons)
    modifies daemons`routes
    ensures ok <==> StronglyConnected(g)
    ensures ok ==> forall maxTTL :: ForwardsRight(g, TablesOf(daemons), maxTTL)
  {
    hide WellFormed, AllReachable, Routed, AllRouted, TablesOf, ForwardsRight;
    ok := RecalculateAll(daemons, g);
    if ok {
      forall n | n in g
        ensures AllReachable(g, n)
      {
        var i :| 0 <= i < |daemons| && daemons[i].nodeAddr == n;
      }
      RoutedEverywhere(g, daemons);
      forall maxTTL
        ensures ForwardsRight(g, TablesOf(daemons), maxTTL)
      {
        RoutedForwardsRight(g, TablesOf(daemons), maxTTL);
      }
    }
  }
}

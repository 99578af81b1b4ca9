/** Shortest paths from one node: the first link to take towards every other node. */
module Dijkstra {
  import opened Common
  import opened Topology

  datatype Link = Link(src: Addr, dest: Addr, weight: real)

  /** A distance, with INFINITY. */
  datatype Distance = Finite(d: real) | Infinite

  predicate Less(x: Distance, y: Distance) {
    x.Finite? && (y.Finite? ==> x.d < y.d)
  }

  type PathMap = map<Addr, Link>

  /** Every finite distance in `D` is the weight of the path in `paths`, and `P` has its first link. */
  ghost predicate Witnessed(g: Graph, src: Addr, D: map<Addr, Distance>, P: PathMap, paths: map<Addr, seq<Addr>>) {
    && D.Keys == g.Keys && src in g && D[src] == Finite(0.0) && src in paths && paths[src] == [src]
    && (forall v :: v in P ==> v in g && v != src)
    && forall v :: v in g && D[v].Finite? ==> WitnessedAt(g, src, D, P, paths, v)
  }

  ghost predicate WitnessedAt(g: Graph, src: Addr, D: map<Addr, Distance>, P: PathMap, paths: map<Addr, seq<Addr>>, v: Addr)
    requires v in D && D[v].Finite?
  {
    && v in paths && IsPath(g, paths[v], src, v) && Weight(g, paths[v]) == D[v].d >= 0.0
    && (v != src ==> |paths[v]| > 1 && v in P && FirstLink(g, src, P[v], paths[v]))
  }

  ghost predicate FirstLink(g: Graph, src: Addr, link: Link, path: seq<Addr>) {
    |path| > 1 && src in g && path[1] in g[src] && link == Link(src, path[1], g[src][path[1]])
  }

  /** The link from `u` to `v` cannot shorten the distance of `v` any more. */
  ghost predicate Relaxed(g: Graph, D: map<Addr, Distance>, u: Addr, v: Addr)
    requires u in g && u in D && v in D && v in g[u]
  {
    D[u].Finite? && D[v].Finite? && D[v].d <= D[u].d + g[u][v]
  }

  /** Handled nodes are no further away than the others, and their links are relaxed. */
  ghost predicate Settled(g: Graph, N: set<Addr>, D: map<Addr, Distance>) {
    && N <= g.Keys && D.Keys == g.Keys
    && (forall u, v :: u in g && u !in N && v in N ==> !Less(D[v], D[u]))
    && (forall u, v :: u in g && u !in N && v in g[u] && v in g ==> Relaxed(g, D, u, v))
  }

  /** Look at one link of `current`: is the way through it shorter than the best one known? */
  method RelaxLink(g: Graph, src: Addr, current: Addr, remote: Addr, D0: map<Addr, Distance>, P0: PathMap,
                   ghost paths0: map<Addr, seq<Addr>>)
    returns (D: map<Addr, Distance>, P: PathMap, ghost paths: map<Addr, seq<Addr>>)
    requires WellFormed(g) && current in g && remote in g[current] && remote != src && remote != current
    requires Witnessed(g, src, D0, P0, paths0) && D0.Keys == g.Keys && remote in g && D0[current].Finite?
    ensures Witnessed(g, src, D, P, paths)
    ensures var through := Finite(D0[current].d + g[current][remote]);
      D == if Less(through, D0[remote]) then D0[remote := through] else D0
  {
    hide Witnessed, WellFormed;
    D, P, paths := D0, P0, paths0;
    var through := D[current].d + g[current][remote];
    if Less(Finite(through), D[remote]) {
      WitnessedHas(g, src, D, P, paths, current);
      var first := if current == src then Link(src, remote, g[src][remote]) else P[current];
      LinksInside(g, current);
      RelaxOne(g, src, D, P, paths, current, remote, first);
      D := D[remote := Finite(through)];
      P := P[remote := first];
      paths := paths[remote := paths[current] + [remote]];
    }
  }

  /** No distance got worse, and only nodes not handled yet changed, to something beyond `current`. */
  ghost predicate Improved(D0: map<Addr, Distance>, D: map<Addr, Distance>, N: set<Addr>, current: Addr)
    requires D.Keys == D0.Keys && current in D0 && D0[current].Finite?
  {
    && (forall v :: v in D && v !in N ==> D[v] == D0[v])
    && (forall v :: v in D && v in N ==> D[v] == D0[v] || (D[v].Finite? && D[v].d > D0[current].d))
    && (forall v :: v in D ==> !Less(D0[v], D[v]))
  }

  lemma ImproveOne(g: Graph, D0: map<Addr, Distance>, D: map<Addr, Distance>, N: set<Addr>, current: Addr, remote: Addr)
    requires WellFormed(g) && current in g && remote in g[current] && remote in N && current !in N
    requires D.Keys == D0.Keys == g.Keys && D0[current].Finite? && Improved(D0, D, N, current)
    ensures D[current] == D0[current] && remote in D
    ensures var through := Finite(D[current].d + g[current][remote]);
      Less(through, D[remote]) ==> Improved(D0, D[remote := through], N, current)
  {
    LinksInside(g, current);
  }

  lemma KeepRelaxed(g: Graph, D: map<Addr, Distance>, links: set<Addr>, N: set<Addr>, current: Addr, remote: Addr)
    requires WellFormed(g) && current in g && remote in links && links <= g[current].Keys && N <= g.Keys && D.Keys == g.Keys
    requires D[current].Finite? && current !in N
    requires forall v :: v in N && v in g[current] && v !in links ==> Relaxed(g, D, current, v)
    ensures remote in D
    ensures var through := Finite(D[current].d + g[current][remote]);
      var D' := if remote in N && Less(through, D[remote]) then D[remote := through] else D;
      forall v :: v in N && v in g[current] && v !in links - {remote} ==> Relaxed(g, D', current, v)
  {
    LinksInside(g, current);
  }

  /** Look at every link of `current` to a node not handled yet. */
  method RelaxLinks(g: Graph, src: Addr, current: Addr, N: set<Addr>, D0: map<Addr, Distance>, P0: PathMap,
                    ghost paths0: map<Addr, seq<Addr>>)
    returns (D: map<Addr, Distance>, P: PathMap, ghost paths: map<Addr, seq<Addr>>)
    requires WellFormed(g) && current in g && current !in N && N <= g.Keys
    requires Witnessed(g, src, D0, P0, paths0) && D0[current].Finite? && src !in N
    ensures Witnessed(g, src, D, P, paths) && D.Keys == D0.Keys && Improved(D0, D, N, current)
    ensures forall v :: v in N && v in g[current] ==> Relaxed(g, D, current, v)
  {
    hide Witnessed, WellFormed, Improved, Relaxed, Less;
    D, P, paths := D0, P0, paths0;
    WitnessedHas(g, src, D, P, paths, current);
    NotWorse(D0, N, current);
    var links := g[current].Keys;
    while links != {}
      invariant links <= g[current].Keys && D.Keys == g.Keys
      invariant Witnessed(g, src, D, P, paths) && Improved(D0, D, N, current) && D[current] == D0[current]
      invariant forall v :: v in N && v in g[current] && v !in links ==> Relaxed(g, D, current, v)
    {
      var remote :| remote in links;
      KeepRelaxed(g, D, links, N, current, remote);
      links := links - {remote};
      if remote in N {
        ImproveOne(g, D0, D, N, current, remote);
        D, P, paths := RelaxLink(g, src, current, remote, D, P, paths);
      }
    }
  }

  lemma NotWorse(D: map<Addr, Distance>, N: set<Addr>, current: Addr)
    requires current in D && D[current].Finite?
    ensures Improved(D, D, N, current)
  {
  }

  lemma LinksInside(g: Graph, u: Addr)
    requires WellFormed(g) && u in g
    ensures forall v :: v in g[u] ==> v in g && g[u][v] > 0.0
  {
    forall v | v in g[u]
      ensures v in g && g[u][v] > 0.0
    {
      LinkInside(g, u, v);
    }
  }

  lemma LinkInside(g: Graph, u: Addr, v: Addr)
    requires WellFormed(g) && u in g && v in g[u]
    ensures v in g && g[u][v] > 0.0
  {
  }

  lemma WitnessedHas(g: Graph, src: Addr, D: map<Addr, Distance>, P: PathMap, paths: map<Addr, seq<Addr>>, v: Addr)
    requires Witnessed(g, src, D, P, paths) && v in g
    ensures D.Keys == g.Keys && src in g
    ensures D[v].Finite? ==> v in paths && (v != src ==> v in P)
  {
    assert D[v].Finite? ==> WitnessedAt(g, src, D, P, paths, v);
  }

  /** A shorter way to `remote` through `current` keeps every distance witnessed. */
  lemma RelaxOne(g: Graph, src: Addr, D: map<Addr, Distance>, P: PathMap, paths: map<Addr, seq<Addr>>,
                 current: Addr, remote: Addr, first: Link)
    requires Witnessed(g, src, D, P, paths)
    requires current in g && D[current].Finite? && remote in g[current] && g[current][remote] > 0.0
    requires remote in g && remote != src && remote != current
    requires current == src ==> remote in g[src] && first == Link(src, remote, g[src][remote])
    requires current != src ==> current in P && first == P[current]
    ensures current in paths
    ensures Witnessed(g, src, D[remote := Finite(D[current].d + g[current][remote])], P[remote := first],
                      paths[remote := paths[current] + [remote]])
  {
    var D', P' := D[remote := Finite(D[current].d + g[current][remote])], P[remote := first];
    assert WitnessedAt(g, src, D, P, paths, current);
    var path := paths[current] + [remote];
    var paths' := paths[remote := path];
    Extend(g, paths[current], src, current, remote);
    assert current != src ==> path[1] == paths[current][1];
    assert WitnessedAt(g, src, D', P', paths', remote);
    forall v | v in g && D'[v].Finite?
      ensures WitnessedAt(g, src, D', P', paths', v)
    {
      assert v == remote || WitnessedAt(g, src, D, P, paths, v);
    }
  }

  /** The node of `N` with the smallest finite distance; the old choice when there is none. */
  method ClosestNode(N: set<Addr>, D: map<Addr, Distance>, previous: Addr) returns (closest: Addr)
    requires N <= D.Keys
    ensures if forall v :: v in N ==> D[v].Infinite? then closest == previous
            else closest in N && D[closest].Finite? && forall v :: v in N ==> !Less(D[v], D[closest])
  {
    var minDist := Infinite;
    closest := previous;
    var todo := N;
    while todo != {}
      invariant todo <= N
      invariant minDist.Infinite? ==> closest == previous && forall v :: v in N - todo ==> D[v].Infinite?
      invariant minDist.Finite? ==> closest in N && D[closest] == minDist
      invariant forall v :: v in N - todo ==> !Less(D[v], minDist)
    {
      var i :| i in todo;
      if Less(D[i], minDist) {
        minDist, closest := D[i], i;
      }
      todo := todo - {i};
    }
  }

  /** The choice of the next node: the closest one left, or, when none is at a finite distance, a node
      handled before. */
  ghost predicate Chosen(N: set<Addr>, D: map<Addr, Distance>, closest: Addr)
    requires N <= D.Keys
  {
    if closest in N then D[closest].Finite? && forall v :: v in N ==> !Less(D[v], D[closest])
    else forall v :: v in N ==> D[v].Infinite?
  }

  lemma SettleCurrent(g: Graph, N: set<Addr>, D0: map<Addr, Distance>, D: map<Addr, Distance>, current: Addr)
    requires WellFormed(g) && Settled(g, N, D0) && current in N && Chosen(N, D0, current)
    requires D.Keys == g.Keys
    requires forall v :: v in g && v !in N - {current} ==> D[v] == D0[v]
    requires forall v :: v in N - {current} ==> D[v] == D0[v] || (D[v].Finite? && D[v].d > D0[current].d)
    requires forall v :: v in g ==> !Less(D0[v], D[v])
    requires forall v :: v in N - {current} && v in g[current] ==> Relaxed(g, D, current, v)
    ensures Settled(g, N - {current}, D)
  {
    LinksInside(g, current);
    hide WellFormed;
    forall u, v | u in g && u !in N - {current} && v in g[u] && v in g
      ensures Relaxed(g, D, u, v)
    {
      if u == current && v !in N - {current} {
        assert !Less(D0[current], D0[v]);
      } else if u != current {
        assert Relaxed(g, D0, u, v);
      }
    }
  }

  /** No path from a handled node leads to a node without a finite distance. */
  lemma {:induction false} NoWayIn(g: Graph, N: set<Addr>, D: map<Addr, Distance>, src: Addr, p: seq<Addr>, v: Addr)
    requires WellFormed(g) && Settled(g, N, D) && src in g && src !in N && IsPath(g, p, src, v)
    requires forall n :: n in N ==> D[n].Infinite?
    ensures v in g && v !in N
    decreases |p|
  {
    if |p| > 1 {
      var u := p[|p| - 2];
      NoWayIn(g, N, D, src, p[..|p| - 1], u);
      assert Relaxed(g, D, u, v);
    }
  }

  /** When every link is relaxed, no path is lighter than the distance found. */
  lemma {:induction false} DistanceIsLeast(g: Graph, D: map<Addr, Distance>, src: Addr, p: seq<Addr>, v: Addr)
    requires WellFormed(g) && Settled(g, {}, D) && src in g && D[src] == Finite(0.0) && IsPath(g, p, src, v)
    ensures v in g && D[v].Finite? && D[v].d <= Weight(g, p)
    decreases |p|
  {
    if |p| > 1 {
      var u := p[|p| - 2];
      DistanceIsLeast(g, D, src, p[..|p| - 1], u);
      assert Relaxed(g, D, u, v);
    }
  }

  /** `link` leaves `src` and begins a path to `v` of least weight. */
  ghost predicate BeginsShortest(g: Graph, src: Addr, v: Addr, link: Link) {
    exists p :: IsShortest(g, p, src, v) && FirstLink(g, src, link, p)
  }

  ghost predicate AllReachable(g: Graph, src: Addr) {
    forall v :: v in g ==> Reachable(g, src, v)
  }

  lemma FoundIsShortest(g: Graph, src: Addr, D: map<Addr, Distance>, p: seq<Addr>, v: Addr)
    requires WellFormed(g) && Settled(g, {}, D) && src in g && D[src] == Finite(0.0) && v in g && D[v].Finite?
    requires IsPath(g, p, src, v) && Weight(g, p) == D[v].d
    ensures IsShortest(g, p, src, v)
  {
    hide WellFormed, Settled;
    forall q | IsPath(g, q, src, v)
      ensures Weight(g, p) <= Weight(g, q)
    {
      DistanceIsLeast(g, D, src, q, v);
    }
  }

  lemma Found(g: Graph, src: Addr, D: map<Addr, Distance>, P: PathMap, paths: map<Addr, seq<Addr>>, v: Addr)
    requires WellFormed(g) && Witnessed(g, src, D, P, paths) && Settled(g, {}, D) && v in g && D[v].Finite?
    ensures Reachable(g, src, v) && (v != src ==> v in P && BeginsShortest(g, src, v, P[v]))
  {
    hide WellFormed, Settled, Weight;
    assert WitnessedAt(g, src, D, P, paths, v);
    FoundIsShortest(g, src, D, paths[v], v);
  }

  lemma AllFound(g: Graph, src: Addr, D: map<Addr, Distance>, P: PathMap, paths: map<Addr, seq<Addr>>)
    requires WellFormed(g) && Witnessed(g, src, D, P, paths) && Settled(g, {}, D)
    requires forall v :: v in g ==> D[v].Finite?
    ensures AllReachable(g, src) && P.Keys == g.Keys - {src}
    ensures forall v :: v in g && v != src ==> BeginsShortest(g, src, v, P[v])
  {
    hide WellFormed, Settled, WitnessedAt, Reachable, BeginsShortest;
    forall v | v in g
      ensures Reachable(g, src, v) && (v != src ==> v in P && BeginsShortest(g, src, v, P[v]))
    {
      Found(g, src, D, P, paths, v);
    }
  }

  /** The routes of one node. The search gives up (it hits its assertion) exactly when some node cannot be
      reached. */
  method DoDijkstra(g: Graph, src: Addr) returns (r: Option<PathMap>)
    requires WellFormed(g) && src in g
    ensures r.Some? <==> AllReachable(g, src)
    ensures r.Some? ==> r.value.Keys == g.Keys - {src}
    ensures r.Some? ==> forall v :: v in g && v != src ==> BeginsShortest(g, src, v, r.value[v])
  {
    hide WellFormed, Witnessed, AllReachable, BeginsShortest, Relaxed;
    var N: set<Addr> := g.Keys;
    var D: map<Addr, Distance> := map v | v in g :: if v == src then Finite(0.0) else Infinite;
    var P: PathMap := map[];
    ghost var paths: map<Addr, seq<Addr>> := map[src := [src]];
    Begin(g, src, D, P, paths);
    var closestNode := src;
    while N != {}
      invariant Witnessed(g, src, D, P, paths) && Settled(g, N, D)
      invariant Chosen(N, D, closestNode)
      invariant src !in N || closestNode == src
      invariant forall v :: v in g && v !in N ==> D[v].Finite?
    {
      var current := closestNode;
      if current !in N {
        Unreached(g, N, D, src);
        return None;
      }
      N := N - {current};
      ghost var D0 := D;
      D, P, paths := RelaxLinks(g, src, current, N, D, P, paths);
      WitnessedHas(g, src, D, P, paths, current);
      SettleCurrent(g, N + {current}, D0, D, current);
      closestNode := ClosestNode(N, D, closestNode);
    }
    AllFound(g, src, D, P, paths);
    return Some(P);
  }

  lemma Begin(g: Graph, src: Addr, D: map<Addr, Distance>, P: PathMap, paths: map<Addr, seq<Addr>>)
    requires src in g && D == (map v | v in g :: if v == src then Finite(0.0) else Infinite)
    requires P == map[] && paths == map[src := [src]]
    ensures Witnessed(g, src, D, P, paths) && Settled(g, g.Keys, D) && Chosen(g.Keys, D, src)
  {
  }

  lemma Unreached(g: Graph, N: set<Addr>, D: map<Addr, Distance>, src: Addr)
    requires WellFormed(g) && Settled(g, N, D) && src in g && src !in N && N != {}
    requires forall n :: n in N ==> D[n].Infinite?
    ensures !AllReachable(g, src)
  {
    var v :| v in N;
    if Reachable(g, src, v) {
      var p :| IsPath(g, p, src, v);
      NoWayIn(g, N, D, src, p, v);
    }
  }

  /** Two nodes without a link: from the first one the search runs into its assertion. */
  lemma SearchCanFail() returns (g: Graph)
    ensures WellFormed(g) && g.Keys == {1, 2} && !AllReachable(g, 1)
  {
    g := map[1 := map[], 2 := map[]];
    forall p: seq<Addr>
      ensures !IsPath(g, p, 1, 2)
    {
      assert |p| > 1 && p[0] == 1 ==> p[1] !in g[p[0]];
    }
    assert !Reachable(g, 1, 2);
  }
}

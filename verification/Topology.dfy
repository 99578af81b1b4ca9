/** The network graph that routes are computed on. */
module Topology {
  import opened Common

  type Addr = nat

  /** For every node, the weight of its link to each neighbour. */
  type Graph = map<Addr, map<Addr, real>>

  const NO_LINKS: map<Addr, real> := map[]

  /** Links end at nodes and have positive weights. */
  ghost predicate WellFormed(g: Graph) {
    forall u, v :: u in g && v in g[u] ==> v in g && g[u][v] > 0.0
  }

  /** The cost configured on a channel; a missing or non-positive cost counts as one hop. */
  function GetMetric(cost: Option<real>): (metric: real)
    ensures metric > 0.0
    ensures if cost.Some? && cost.value > 0.0 then metric == cost.value else metric == 1.0
  {
    if cost.Some? && cost.value > 0.0 then cost.value else 1.0
  }

  /** One node of the simulated network with its outgoing channels. */
  datatype NodeInfo = NodeInfo(addr: Addr, out: seq<(Addr, Option<real>)>)

  function WithNode(g: Graph, addr: Addr): Graph {
    if addr in g then g else g[addr := NO_LINKS]
  }

  function WithLink(g: Graph, src: Addr, dest: Addr, weight: real): Graph
    requires src in g
  {
    var links: map<Addr, real> := g[src];
    g[src := links[dest := weight]]
  }

  /** The graph with the first `k` channels of a node added. */
  function WithChannels(g: Graph, node: NodeInfo, k: nat): (g': Graph)
    requires node.addr in g && k <= |node.out|
    ensures node.addr in g'
  {
    if k == 0 then g else
      var (dest, cost) := node.out[k - 1];
      WithLink(WithNode(WithChannels(g, node, k - 1), dest), node.addr, dest, GetMetric(cost))
  }

  /** The graph of the first `n` nodes of a network. */
  function GraphOf(network: seq<NodeInfo>, n: nat): Graph
    requires n <= |network|
  {
    if n == 0 then map[] else
      var node := network[n - 1];
      WithChannels(WithNode(GraphOf(network, n - 1), node.addr), node, |node.out|)
  }

  lemma LinkWellFormed(g: Graph, src: Addr, dest: Addr, weight: real)
    requires WellFormed(g) && src in g && weight > 0.0
    ensures var g' := WithLink(WithNode(g, dest), src, dest, weight);
      && WellFormed(g') && g.Keys <= g'.Keys && dest in g'[src]
      && forall v :: v in g[src] ==> v in g'[src]
  {
  }

  lemma {:induction false} ChannelsWellFormed(g: Graph, node: NodeInfo, k: nat)
    requires WellFormed(g) && node.addr in g && k <= |node.out|
    ensures WellFormed(WithChannels(g, node, k)) && g.Keys <= WithChannels(g, node, k).Keys
    ensures forall i :: 0 <= i < k ==> node.out[i].0 in WithChannels(g, node, k)[node.addr]
  {
    hide WellFormed, WithLink, WithNode;
    if k > 0 {
      ChannelsWellFormed(g, node, k - 1);
      var (dest, cost) := node.out[k - 1];
      LinkWellFormed(WithChannels(g, node, k - 1), node.addr, dest, GetMetric(cost));
    }
  }

  /** Whatever the configured costs, the graph is well formed and has all nodes of the network. */
  lemma {:induction false} GraphWellFormed(network: seq<NodeInfo>, n: nat)
    requires n <= |network|
    ensures WellFormed(GraphOf(network, n))
    ensures forall i :: 0 <= i < n ==> network[i].addr in GraphOf(network, n)
  {
    hide WithLink, WithChannels;
    if n > 0 {
      GraphWellFormed(network, n - 1);
      var node := network[n - 1];
      ChannelsWellFormed(WithNode(GraphOf(network, n - 1), node.addr), node, |node.out|);
    }
  }

  // ---------- what is in the graph ----------

  datatype Channel = Channel(src: Addr, dest: Addr, cost: Option<real>)

  /** The channels of a node, in order. */
  function ChannelsOf(node: NodeInfo, k: nat): (c: seq<Channel>)
    requires k <= |node.out|
    ensures |c| == k
  {
    seq(k, i requires 0 <= i < k => Channel(node.addr, node.out[i].0, node.out[i].1))
  }

  /** The channels of the first `n` nodes. */
  function AllChannels(network: seq<NodeInfo>, n: nat): seq<Channel>
    requires n <= |network|
  {
    if n == 0 then [] else AllChannels(network, n - 1) + ChannelsOf(network[n - 1], |network[n - 1].out|)
  }

  ghost predicate Connects(c: seq<Channel>, i: int, u: Addr, v: Addr) {
    0 <= i < |c| && c[i].src == u && c[i].dest == v
  }

  /** The last channel from `u` to `v`. */
  ghost predicate LastConnects(c: seq<Channel>, i: int, u: Addr, v: Addr) {
    Connects(c, i, u, v) && forall j :: i < j < |c| ==> !Connects(c, j, u, v)
  }

  ghost predicate Linked(g: Graph, u: Addr, v: Addr) {
    u in g && v in g[u]
  }

  /** There is a link exactly if there is a channel, and the last of several gives its weight. */
  ghost predicate ShowsPair(g: Graph, c: seq<Channel>, u: Addr, v: Addr) {
    && (Linked(g, u, v) <==> exists i :: Connects(c, i, u, v))
    && (forall i :: LastConnects(c, i, u, v) ==> Linked(g, u, v) && g[u][v] == GetMetric(c[i].cost))
  }

  ghost predicate Shows(g: Graph, c: seq<Channel>) {
    forall u, v :: ShowsPair(g, c, u, v)
  }

  lemma ShowsNode(g: Graph, c: seq<Channel>, addr: Addr)
    requires Shows(g, c)
    ensures Shows(WithNode(g, addr), c)
  {
    forall u, v
      ensures ShowsPair(WithNode(g, addr), c, u, v)
    {
      assert ShowsPair(g, c, u, v);
    }
  }

  lemma PairLinked(g: Graph, c: seq<Channel>, one: Channel)
    requires one.src in g
    ensures ShowsPair(WithLink(g, one.src, one.dest, GetMetric(one.cost)), c + [one], one.src, one.dest)
  {
    hide GetMetric;
    var c' := c + [one];
    assert Connects(c', |c|, one.src, one.dest) && c'[|c|] == one;
  }

  lemma OtherPair(g: Graph, c: seq<Channel>, one: Channel, u: Addr, v: Addr)
    requires one.src in g && ShowsPair(g, c, u, v) && (u != one.src || v != one.dest)
    ensures ShowsPair(WithLink(g, one.src, one.dest, GetMetric(one.cost)), c + [one], u, v)
  {
    hide GetMetric;
    var (g', c') := (WithLink(g, one.src, one.dest, GetMetric(one.cost)), c + [one]);
    forall i
      ensures Connects(c', i, u, v) <==> Connects(c, i, u, v)
    {
    }
    assert Linked(g', u, v) <==> Linked(g, u, v);
    forall i | LastConnects(c', i, u, v)
      ensures LastConnects(c, i, u, v) && c'[i] == c[i]
    {
      assert Connects(c, i, u, v);
      assert forall j :: i < j < |c| ==> Connects(c, j, u, v) ==> Connects(c', j, u, v);
    }
  }

  lemma ShowsLink(g: Graph, c: seq<Channel>, one: Channel)
    requires Shows(g, c) && one.src in g
    ensures Shows(WithLink(g, one.src, one.dest, GetMetric(one.cost)), c + [one])
  {
    hide ShowsPair, WithLink, GetMetric;
    forall u, v
      ensures ShowsPair(WithLink(g, one.src, one.dest, GetMetric(one.cost)), c + [one], u, v)
    {
      if u == one.src && v == one.dest {
        PairLinked(g, c, one);
      } else {
        OtherPair(g, c, one, u, v);
      }
    }
  }

  lemma {:induction false} ShowsChannels(g: Graph, c: seq<Channel>, node: NodeInfo, k: nat)
    requires Shows(g, c) && node.addr in g && k <= |node.out|
    ensures Shows(WithChannels(g, node, k), c + ChannelsOf(node, k))
  {
    hide Shows, WithLink, WithNode;
    if k == 0 {
      assert c + ChannelsOf(node, 0) == c;
    } else {
      ShowsChannels(g, c, node, k - 1);
      var before := WithChannels(g, node, k - 1);
      var (dest, cost) := node.out[k - 1];
      var one := Channel(node.addr, dest, cost);
      ShowsNode(before, c + ChannelsOf(node, k - 1), dest);
      NodeStays(before, dest, node.addr);
      ShowsLink(WithNode(before, dest), c + ChannelsOf(node, k - 1), one);
      assert c + ChannelsOf(node, k - 1) + [one] == c + ChannelsOf(node, k);
    }
  }

  lemma NodeStays(g: Graph, addr: Addr, u: Addr)
    requires u in g
    ensures u in WithNode(g, addr)
  {
  }

  /** The graph shows exactly the channels of the network. */
  lemma {:induction false} GraphShowsNetwork(network: seq<NodeInfo>, n: nat)
    requires n <= |network|
    ensures Shows(GraphOf(network, n), AllChannels(network, n))
  {
    hide Shows, WithChannels, ChannelsOf;
    if n == 0 {
      NothingShown();
    } else {
      GraphShowsNetwork(network, n - 1);
      var node := network[n - 1];
      var g := GraphOf(network, n - 1);
      ShowsNode(g, AllChannels(network, n - 1), node.addr);
      ShowsChannels(WithNode(g, node.addr), AllChannels(network, n - 1), node, |node.out|);
    }
  }

  lemma NothingShown()
    ensures Shows(map[], [])
  {
  }

  class Topology {
    var graph: Graph

    constructor Empty()
      ensures graph == map[]
    {
      graph := map[];
    }

    /** A node unless it is there already. */
    method AddNodeFor(addr: Addr)
      modifies this
      ensures graph == WithNode(old(graph), addr)
    {
      if addr !in graph {
        graph := graph[addr := NO_LINKS];
      }
    }

    /** A link unless it is there already; then its weight changes. */
    method AddLinkTo(src: Addr, dest: Addr, weight: real)
      requires src in graph
      modifies this
      ensures graph == WithLink(old(graph), src, dest, weight)
    {
      var links: map<Addr, real> := graph[src];
      graph := graph[src := links[dest := weight]];
    }

    /** Extract the graph of a network. */
    method Extract(network: seq<NodeInfo>)
      requires graph == map[]
      modifies this
      ensures graph == GraphOf(network, |network|) && WellFormed(graph) && Shows(graph, AllChannels(network, |network|))
    {
      for i := 0 to |network|
        invariant graph == GraphOf(network, i)
      {
        AddNodeFor(network[i].addr);
        ghost var before := graph;
        for k := 0 to |network[i].out|
          invariant graph == WithChannels(before, network[i], k)
        {
          AddNodeFor(network[i].out[k].0);
          AddLinkTo(network[i].addr, network[i].out[k].0, GetMetric(network[i].out[k].1));
        }
      }
      GraphWellFormed(network, |network|);
      GraphShowsNetwork(network, |network|);
    }
  }

  // ---------- paths ----------

  ghost predicate IsPath(g: Graph, p: seq<Addr>, u: Addr, v: Addr) {
    && |p| > 0 && p[0] == u && p[|p| - 1] == v && u in g
    && forall i :: 0 <= i < |p| - 1 ==> p[i] in g && p[i + 1] in g[p[i]]
  }

  ghost function Weight(g: Graph, p: seq<Addr>): real
    requires |p| > 0 && forall i :: 0 <= i < |p| - 1 ==> p[i] in g && p[i + 1] in g[p[i]]
  {
    if |p| == 1 then 0.0 else Weight(g, p[..|p| - 1]) + g[p[|p| - 2]][p[|p| - 1]]
  }

  ghost predicate IsShortest(g: Graph, p: seq<Addr>, u: Addr, v: Addr) {
    IsPath(g, p, u, v) && forall q :: IsPath(g, q, u, v) ==> Weight(g, p) <= Weight(g, q)
  }

  ghost predicate Reachable(g: Graph, u: Addr, v: Addr) {
    exists p :: IsPath(g, p, u, v)
  }

  /** Going to `x` first is the beginning of a shortest path from `u` to `v`. */
  ghost predicate StartsShortest(g: Graph, u: Addr, v: Addr, x: Addr) {
    exists p :: IsShortest(g, p, u, v) && |p| > 1 && p[1] == x
  }

  /** A path and one more link. */
  lemma Extend(g: Graph, p: seq<Addr>, u: Addr, v: Addr, x: Addr)
    requires IsPath(g, p, u, v) && v in g && x in g[v]
    ensures IsPath(g, p + [x], u, x) && Weight(g, p + [x]) == Weight(g, p) + g[v][x]
  {
    assert (p + [x])[..|p|] == p;
  }

  /** One link and then a path. */
  lemma {:induction false} Prepend(g: Graph, u: Addr, p: seq<Addr>, x: Addr, v: Addr)
    requires u in g && x in g[u] && IsPath(g, p, x, v)
    ensures IsPath(g, [u] + p, u, v) && Weight(g, [u] + p) == g[u][x] + Weight(g, p)
    decreases |p|
  {
    var longer := [u] + p;
    assert forall i :: 0 < i < |longer| ==> longer[i] == p[i - 1];
    if |p| == 1 {
      assert longer[..1] == [u];
    } else {
      var w := p[|p| - 2];
      var shorter := p[..|p| - 1];
      Prepend(g, u, shorter, x, w);
      assert longer[..|longer| - 1] == [u] + shorter;
    }
  }
}

/**
 * `ResearchNode.Parents` and `ResearchNode.Children` as evidently
 * intended: besides the direct research neighbours, the research nodes at
 * the far end of every chain of dummy nodes. The code as written computes
 * these and drops them (see `ResearchNodes.Parents`).
 */
module ParentChains {
  import opened Seqs
  import opened ResearchDefs
  import opened Graph
  import opened ResearchNodes

  /** The dummy nodes among `ids`, in order (`OfType<DummyNode>()`). */
  function DummyOnly(g: Graph, ids: seq<NodeId>): (r: seq<NodeId>)
  {
    Filter(ids, (d: NodeId) => d < |g.nodes| && !IsResearch(g.nodes[d]))
  }

  /** `OfType<DummyNode>()` keeps exactly the dummy nodes. */
  lemma DummyOnlyMembers(g: Graph, ids: seq<NodeId>, d: NodeId)
    ensures d in DummyOnly(g, ids) <==> d in ids && d < |g.nodes| && !IsResearch(g.nodes[d])
  {
    if d in ids && d < |g.nodes| && !IsResearch(g.nodes[d]) {
      FilterKeeps(ids, (d: NodeId) => d < |g.nodes| && !IsResearch(g.nodes[d]), d);
    }
  }

  /** Research node `p` has an edge into `k`. */
  predicate DirectParent(g: Graph, p: NodeId, k: NodeId)
  {
    Edge(p, k) in g.edges && p < |g.nodes| && IsResearch(g.nodes[p])
  }

  /** Dummy node `d` has an edge into `k`. */
  predicate DummyParent(g: Graph, d: NodeId, k: NodeId)
  {
    Edge(d, k) in g.edges && d < |g.nodes| && !IsResearch(g.nodes[d])
  }

  /**
   * Research node `p` feeds node `k` through a chain of exactly `n` dummy
   * nodes: `p -> d1 -> ... -> dn -> k`.
   */
  ghost predicate Feeds(g: Graph, p: NodeId, k: NodeId, n: nat)
    decreases n
  {
    if n == 0 then DirectParent(g, p, k)
    else exists d: NodeId :: DummyParent(g, d, k) && Feeds(g, p, d, n - 1)
  }

  /** How many more dummies a chain may pass through. */
  datatype Fuel = Out | More(rest: Fuel)

  function Size(f: Fuel): nat
  {
    if f.Out? then 0 else 1 + Size(f.rest)
  }

  function FuelOf(n: nat): (f: Fuel)
    ensures Size(f) == n
  {
    if n == 0 then Out else More(FuelOf(n - 1))
  }

  /**
   * The research nodes that feed `k` through fewer than `Size(fuel)` dummies:
   * the research in-neighbours, then what each dummy in-neighbour leads
   * back to (a dummy's `Parent`).
   */
  function ChainParents(g: Graph, k: NodeId, fuel: Fuel): (ps: seq<NodeId>)
    decreases fuel, 0
  {
    if fuel.Out? then []
    else ResearchOnly(g, InNodes(g, k)) + ChainParentsOf(g, DummyOnly(g, InNodes(g, k)), fuel.rest)
  }

  /** `SelectMany(dn => dn.Parent)` over the dummies `ds`. */
  function ChainParentsOf(g: Graph, ds: seq<NodeId>, fuel: Fuel): (ps: seq<NodeId>)
    decreases fuel, |ds| + 1
  {
    if |ds| == 0 then [] else ChainParents(g, ds[0], fuel) + ChainParentsOf(g, ds[1..], fuel)
  }

  lemma {:induction false} ChainParentsOfMembers(g: Graph, ds: seq<NodeId>, fuel: Fuel, p: NodeId)
    ensures p in ChainParentsOf(g, ds, fuel) <==> exists d | d in ds :: p in ChainParents(g, d, fuel)
    decreases |ds|
  {
    if |ds| > 0 {
      var first, rest := ChainParents(g, ds[0], fuel), ChainParentsOf(g, ds[1..], fuel);
      assert ChainParentsOf(g, ds, fuel) == first + rest;
      ChainParentsOfMembers(g, ds[1..], fuel, p);
      if p in first + rest {
        if p in first {
          assert ds[0] in ds;
        } else {
          var d :| d in ds[1..] && p in ChainParents(g, d, fuel);
          assert d in ds;
        }
      }
      if exists d | d in ds :: p in ChainParents(g, d, fuel) {
        var d :| d in ds && p in ChainParents(g, d, fuel);
        if d != ds[0] {
          assert d in ds[1..];
        }
      }
    }
  }
  /**
   * One step back along the chains: a chain-following parent is a research
   * in-neighbour or a chain-following parent of a dummy in-neighbour.
   */
  lemma ChainParentsBack(g: Graph, k: NodeId, f: Fuel, p: NodeId) returns (direct: bool, d: NodeId)
    requires p in ChainParents(g, k, More(f))
    ensures direct ==> DirectParent(g, p, k)
    ensures !direct ==> DummyParent(g, d, k) && p in ChainParents(g, d, f)
  {
    var direct', ds := ResearchOnly(g, InNodes(g, k)), DummyOnly(g, InNodes(g, k));
    assert ChainParents(g, k, More(f)) == direct' + ChainParentsOf(g, ds, f);
    direct, d := p in direct', 0;
    ResearchOnlyMembers(g, InNodes(g, k), p);
    if !direct {
      ChainParentsOfMembers(g, ds, f, p);
      d :| d in ds && p in ChainParents(g, d, f);
      DummyOnlyMembers(g, InNodes(g, k), d);
    }
  }

  /** A research in-neighbour is a chain-following parent. */
  lemma DirectIsChainParent(g: Graph, k: NodeId, f: Fuel, p: NodeId)
    requires DirectParent(g, p, k)
    ensures p in ChainParents(g, k, More(f))
  {
    var direct, ds := ResearchOnly(g, InNodes(g, k)), DummyOnly(g, InNodes(g, k));
    assert ChainParents(g, k, More(f)) == direct + ChainParentsOf(g, ds, f);
    ResearchOnlyMembers(g, InNodes(g, k), p);
  }

  /** A chain-following parent of a dummy in-neighbour is a chain-following parent. */
  lemma ThroughDummyIsChainParent(g: Graph, k: NodeId, d: NodeId, f: Fuel, p: NodeId)
    requires DummyParent(g, d, k) && p in ChainParents(g, d, f)
    ensures p in ChainParents(g, k, More(f))
  {
    var direct, ds := ResearchOnly(g, InNodes(g, k)), DummyOnly(g, InNodes(g, k));
    assert ChainParents(g, k, More(f)) == direct + ChainParentsOf(g, ds, f);
    DummyOnlyMembers(g, InNodes(g, k), d);
    ChainParentsOfMembers(g, ds, f, p);
  }

  /** The graph with every edge turned around: children become parents. */
  function Reversed(g: Graph): (h: Graph)
    ensures h.nodes == g.nodes && forall a: NodeId, b: NodeId :: Edge(a, b) in h.edges <==> Edge(b, a) in g.edges
  {
    var es := seq(|g.edges|, i requires 0 <= i < |g.edges| => Edge(g.edges[i].dst, g.edges[i].src));
    assert forall a: NodeId, b: NodeId | Edge(b, a) in g.edges :: Edge(a, b) in es by {
      forall a: NodeId, b: NodeId | Edge(b, a) in g.edges ensures Edge(a, b) in es {
        var i :| 0 <= i < |g.edges| && g.edges[i] == Edge(b, a);
        assert es[i] == Edge(a, b);
      }
    }
    Graph(g.nodes, es)
  }

  /**
   * `ResearchNode.Parents` as evidently intended: the research
   * in-neighbours together with the research nodes at the far end of every
   * dummy chain into the node, chains of up to `|nodes|` dummies.
   */
  function ParentsIntended(g: Graph, k: NodeId): (ps: seq<NodeId>)
  {
    ChainParents(g, k, FuelOf(|g.nodes| + 1))
  }

  /** `ResearchNode.Children` as evidently intended: the same along reversed edges. */
  function ChildrenIntended(g: Graph, k: NodeId): (cs: seq<NodeId>)
  {
    ChainParents(Reversed(g), k, FuelOf(|g.nodes| + 1))
  }

  /** `k` has an edge into research node `c`. */
  predicate DirectChild(g: Graph, k: NodeId, c: NodeId)
  {
    Edge(k, c) in g.edges && c < |g.nodes| && IsResearch(g.nodes[c])
  }

  /** `k` has an edge into dummy node `d`. */
  predicate DummyChild(g: Graph, k: NodeId, d: NodeId)
  {
    Edge(k, d) in g.edges && d < |g.nodes| && !IsResearch(g.nodes[d])
  }

  /** Node `k` leads to research node `c` through exactly `n` dummies. */
  ghost predicate Leads(g: Graph, k: NodeId, c: NodeId, n: nat)
    decreases n
  {
    if n == 0 then DirectChild(g, k, c)
    else exists d: NodeId :: DummyChild(g, k, d) && Leads(g, d, c, n - 1)
  }
  /** Research node 0 reaches research node 2 through dummy node 1. */
  function ChainExample(): Graph
  {
    Graph([Node(Research(0), 1, 1.0), Node(Dummy, 2, 1.0), Node(Research(1), 3, 1.0)], [Edge(0, 1), Edge(1, 2)])
  }
}

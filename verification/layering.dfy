/**
 * Layer assignment (`Tree.HorizontalPositions`): every node gets an integer
 * layer `X`, either by longest-path depth (density mode) or by repeated
 * sweeps over the tech levels (tech-level mode); `Tree.Layering` then groups
 * the nodes by layer.
 */
module Layering {
  import opened Wrappers
  import opened Seqs
  import opened ResearchDefs
  import opened Graph

  // ---------------------------------------------------------------------------
  // Node.SetDepth

  /** The largest layer among the nodes `ids`. */
  function MaxX(g: Graph, ids: seq<NodeId>): (m: int)
    requires |ids| > 0 && forall i | 0 <= i < |ids| :: ids[i] < |g.nodes|
    ensures forall i | 0 <= i < |ids| :: g.nodes[ids[i]].x <= m
    ensures exists i | 0 <= i < |ids| :: g.nodes[ids[i]].x == m
  {
    if |ids| == 1 then g.nodes[ids[0]].x
    else
      var m := MaxX(g, ids[1..]);
      assert forall i | 1 <= i < |ids| :: ids[i] == ids[1..][i - 1];
      if g.nodes[ids[0]].x > m then g.nodes[ids[0]].x else m
  }

  /** The smallest layer among the nodes `ids`. */
  function MinX(g: Graph, ids: seq<NodeId>): (m: int)
    requires |ids| > 0 && forall i | 0 <= i < |ids| :: ids[i] < |g.nodes|
    ensures forall i | 0 <= i < |ids| :: m <= g.nodes[ids[i]].x
    ensures exists i | 0 <= i < |ids| :: g.nodes[ids[i]].x == m
  {
    if |ids| == 1 then g.nodes[ids[0]].x
    else
      var m := MinX(g, ids[1..]);
      assert forall i | 1 <= i < |ids| :: ids[i] == ids[1..][i - 1];
      if g.nodes[ids[0]].x < m then g.nodes[ids[0]].x else m
  }

  /**
   * The layer a node asks for: 1 for a root, otherwise one past the largest
   * layer among its in-nodes — the least layer strictly right of all of them.
   */
  function Desired(g: Graph, k: NodeId): (d: int)
    requires WellFormed(g)
    ensures forall p: NodeId | Edge(p, k) in g.edges :: g.nodes[p].x < d
    ensures (forall p: NodeId :: Edge(p, k) !in g.edges) ==> d == 1
    ensures d == 1 || exists p: NodeId | Edge(p, k) in g.edges :: p < |g.nodes| && g.nodes[p].x == d - 1
  {
    var ins := InNodes(g, k);
    assert forall i | 0 <= i < |ins| :: Edge(ins[i], k) in g.edges && EdgeIn(g, Edge(ins[i], k));
    if |ins| == 0 then 1
    else
      var m := MaxX(g, ins);
      assert forall p: NodeId | Edge(p, k) in g.edges :: p in ins;
      assert exists i | 0 <= i < |ins| :: g.nodes[ins[i]].x == m;
      m + 1
  }

  /**
   * `Node.SetDepth(min)`: the node moves to the larger of `min` and the
   * layer it asks for; nothing else changes.
   */
  function SetDepth(g: Graph, k: NodeId, min: int): (h: Graph)
    requires WellFormed(g) && k < |g.nodes|
    ensures |h.nodes| == |g.nodes| && h.edges == g.edges && WellFormed(h)
    ensures h.nodes[k].kind == g.nodes[k].kind && h.nodes[k].yf == g.nodes[k].yf
    ensures forall i: NodeId | i < |g.nodes| && i != k :: h.nodes[i] == g.nodes[i]
    ensures h.nodes[k].x >= min
    ensures forall p: NodeId | Edge(p, k) in g.edges :: g.nodes[p].x < h.nodes[k].x
    ensures (forall p: NodeId :: Edge(p, k) !in g.edges) ==> h.nodes[k].x == if min > 1 then min else 1
    ensures h.nodes[k].x == min || h.nodes[k].x == Desired(g, k)
  {
    var d := Desired(g, k);
    SetX(g, k, if min > d then min else d)
  }

  /** `SetDepth` reports a change exactly when the layer moved. */
  predicate Moved(g: Graph, h: Graph, k: NodeId)
    requires k < |g.nodes| && k < |h.nodes|
  {
    h.nodes[k].x != g.nodes[k].x
  }

  /** Only the layers move: kinds, rows and edges stay. */
  predicate SameShape(g: Graph, h: Graph)
  {
    && |h.nodes| == |g.nodes| && h.edges == g.edges
    && forall i | 0 <= i < |g.nodes| :: h.nodes[i].kind == g.nodes[i].kind && h.nodes[i].yf == g.nodes[i].yf
  }

  // ---------------------------------------------------------------------------
  // Density mode: the depth walk

  /** The in-neighbours of the node set `s`. */
  ghost function ParentSet(g: Graph, s: set<NodeId>): set<NodeId>
  {
    set e | e in g.edges && e.dst in s :: e.src
  }

  /**
   * The walk's `level` after `k` steps from `v`: the distinct in-neighbours
   * of the previous level, without `v` itself.
   */
  ghost function Lvl(g: Graph, v: NodeId, k: nat): set<NodeId>
  {
    if k == 0 then {v} else ParentSet(g, Lvl(g, v, k - 1)) - {v}
  }

  /**
   * The depth the walk reports when it stands at level `k` with depth `k + 1`:
   * it stops when the level has no in-neighbours, and aborts once the depth
   * passes 100.
   */
  ghost function DepthFrom(g: Graph, v: NodeId, k: nat): (d: nat)
    requires k <= 99
    ensures k + 1 <= d <= 101
    ensures d > k + 1 <==> ParentSet(g, Lvl(g, v, k)) != {}
    decreases 99 - k
  {
    if ParentSet(g, Lvl(g, v, k)) == {} then k + 1
    else if k + 2 > 100 then k + 2
    else DepthFrom(g, v, k + 1)
  }

  /** The depth `HorizontalPositionsByDensity` computes for `v`. */
  ghost function Depth(g: Graph, v: NodeId): nat
  {
    DepthFrom(g, v, 0)
  }

  function Members(s: seq<NodeId>): set<NodeId>
  {
    set n | n in s
  }

  /** The in-neighbours of a list of nodes, duplicates kept. */
  function InNodesOfAll(g: Graph, level: seq<NodeId>): (ps: seq<NodeId>)
    ensures forall u: NodeId :: u in ps <==> u in ParentSet(g, Members(level))
  {
    if |level| == 0 then []
    else
      var rest := InNodesOfAll(g, level[1..]);
      var ps := InNodes(g, level[0]) + rest;
      assert Members(level) == {level[0]} + Members(level[1..]);
      assert forall u: NodeId :: u in ps <==> u in ParentSet(g, Members(level)) by {
        forall u: NodeId ensures u in ps <==> u in ParentSet(g, Members(level)) {
          if u in ParentSet(g, Members(level)) {
            var e :| e in g.edges && e.dst in Members(level) && e.src == u;
            assert e == Edge(u, e.dst);
            if e.dst != level[0] {
              assert u in ParentSet(g, Members(level[1..]));
            }
          }
          if u in InNodes(g, level[0]) {
            assert Edge(u, level[0]) in g.edges;
          }
        }
      }
      ps
  }

  /** The walk's next level is level `k + 1`. */
  lemma LevelStep(g: Graph, v: NodeId, level: seq<NodeId>, k: nat)
    requires Members(level) == Lvl(g, v, k)
    ensures Members(Filter(Distinct(InNodesOfAll(g, level)), (n: NodeId) => n != v)) == Lvl(g, v, k + 1)
  {
    var ps := InNodesOfAll(g, level);
    var next := Filter(Distinct(ps), (n: NodeId) => n != v);
    forall u: NodeId ensures u in next <==> u in Lvl(g, v, k + 1) {
      if u in Distinct(ps) && u != v {
        FilterKeeps(Distinct(ps), (n: NodeId) => n != v, u);
      }
    }
  }

  /** The walk stops exactly when its level has no in-neighbour. */
  lemma LevelStops(g: Graph, v: NodeId, level: seq<NodeId>, k: nat)
    requires Members(level) == Lvl(g, v, k)
    ensures (|level| > 0 && |InNodesOfAll(g, level)| > 0) <==> ParentSet(g, Lvl(g, v, k)) != {}
  {
    var ps := InNodesOfAll(g, level);
    if |ps| > 0 {
      assert ps[0] in ps;
      assert ps[0] in ParentSet(g, Lvl(g, v, k));
    }
    if ParentSet(g, Lvl(g, v, k)) != {} {
      var u :| u in ParentSet(g, Lvl(g, v, k));
      assert u in ps;
      var e :| e in g.edges && e.dst in Lvl(g, v, k) && e.src == u;
      assert e.dst in level;
    }
  }

  /** The walk of `HorizontalPositionsByDensity` for one node. */
  method DensityDepth(g: Graph, v: NodeId) returns (depth: nat)
    ensures depth == Depth(g, v)
    ensures 1 <= depth <= 101
  {
    var level := [v];
    depth := 1;
    assert Members(level) == Lvl(g, v, 0);
    LevelStops(g, v, level, 0);
    while |level| > 0 && |InNodesOfAll(g, level)| > 0
      invariant 1 <= depth <= 100
      invariant Members(level) == Lvl(g, v, depth - 1)
      invariant DepthFrom(g, v, depth - 1) == Depth(g, v)
      invariant (|level| > 0 && |InNodesOfAll(g, level)| > 0) <==> ParentSet(g, Lvl(g, v, depth - 1)) != {}
      decreases 100 - depth
    {
      var ps := InNodesOfAll(g, level);
      LevelStep(g, v, level, depth - 1);
      depth := depth + 1;
      level := Filter(Distinct(ps), (n: NodeId) => n != v);
      if depth > 100 {
        return;
      }
      LevelStops(g, v, level, depth - 1);
    }
  }

  /** A node with no in-nodes has depth 1, and only such a node does. */
  lemma DepthOneIffRoot(g: Graph, v: NodeId)
    ensures Depth(g, v) == 1 <==> forall p: NodeId :: Edge(p, v) !in g.edges
  {
    assert Lvl(g, v, 0) == {v};
    if exists p: NodeId :: Edge(p, v) in g.edges {
      var p: NodeId :| Edge(p, v) in g.edges;
      assert p in ParentSet(g, Lvl(g, v, 0));
    }
  }

  /** Every edge goes from a lower to a higher rank: the graph is acyclic. */
  ghost predicate RankedGraph(g: Graph, rank: seq<nat>)
  {
    WellFormed(g) && |rank| == |g.nodes| && forall e | e in g.edges :: rank[e.src] < rank[e.dst]
  }

  /** On a ranked graph, level `k` of the walk from `v` lies `k` ranks below `v`. */
  lemma {:induction false} LvlBelowRank(g: Graph, rank: seq<nat>, v: NodeId, k: nat, u: NodeId)
    requires RankedGraph(g, rank) && v < |g.nodes| && u in Lvl(g, v, k)
    ensures u < |g.nodes| && rank[u] + k <= rank[v]
  {
    if k > 0 {
      var e :| e in g.edges && e.dst in Lvl(g, v, k - 1) && e.src == u;
      LvlBelowRank(g, rank, v, k - 1, e.dst);
    }
  }

  /** On a ranked graph, an edge `a -> b` puts `a`'s walk one level behind `b`'s. */
  lemma {:induction false} LvlEdge(g: Graph, rank: seq<nat>, a: NodeId, b: NodeId, k: nat)
    requires RankedGraph(g, rank) && Edge(a, b) in g.edges
    ensures Lvl(g, a, k) <= Lvl(g, b, k + 1)
  {
    assert EdgeIn(g, Edge(a, b));
    if k == 0 {
      assert a in ParentSet(g, Lvl(g, b, 0));
    } else {
      LvlEdge(g, rank, a, b, k - 1);
      forall u | u in Lvl(g, a, k) ensures u in Lvl(g, b, k + 1) {
        var e :| e in g.edges && e.dst in Lvl(g, a, k - 1) && e.src == u;
        assert u in ParentSet(g, Lvl(g, b, k));
        LvlBelowRank(g, rank, a, k, u);
      }
    }
  }

  lemma {:induction false} DepthFromEdge(g: Graph, rank: seq<nat>, a: NodeId, b: NodeId, k: nat)
    requires RankedGraph(g, rank) && Edge(a, b) in g.edges && k <= 98
    ensures DepthFrom(g, b, k + 1) >= if DepthFrom(g, a, k) + 1 < 101 then DepthFrom(g, a, k) + 1 else 101
    decreases 98 - k
  {
    if ParentSet(g, Lvl(g, a, k)) != {} {
      LvlEdge(g, rank, a, b, k);
      var u :| u in ParentSet(g, Lvl(g, a, k));
      var e :| e in g.edges && e.dst in Lvl(g, a, k) && e.src == u;
      assert u in ParentSet(g, Lvl(g, b, k + 1));
      if k < 98 {
        assert DepthFrom(g, a, k) == DepthFrom(g, a, k + 1);
        assert DepthFrom(g, b, k + 1) == DepthFrom(g, b, k + 2);
        DepthFromEdge(g, rank, a, b, k + 1);
      } else {
        assert DepthFrom(g, b, k + 1) == 101;
      }
    }
  }

  /** `p` is a path of in-edges that ends at `v`: each node is an in-node of the next. */
  ghost predicate PathTo(g: Graph, p: seq<NodeId>, v: NodeId)
  {
    |p| > 0 && p[|p| - 1] == v && forall i | 0 <= i < |p| - 1 :: Edge(p[i], p[i + 1]) in g.edges
  }

  /** Every node of level `k` starts a path of `k` edges to `v`. */
  lemma {:induction false} LvlPath(g: Graph, v: NodeId, k: nat, u: NodeId) returns (p: seq<NodeId>)
    requires u in Lvl(g, v, k)
    ensures PathTo(g, p, v) && |p| == k + 1 && p[0] == u
  {
    if k == 0 {
      p := [v];
    } else {
      var e :| e in g.edges && e.dst in Lvl(g, v, k - 1) && e.src == u;
      var q := LvlPath(g, v, k - 1, e.dst);
      p := [u] + q;
      forall i | 0 <= i < |p| - 1 ensures Edge(p[i], p[i + 1]) in g.edges {
        if i > 0 {
          assert p[i] == q[i - 1] && p[i + 1] == q[i];
        }
      }
    }
  }

  /** On a ranked graph, the start of a path of `k` edges to `v` lies on level `k`. */
  lemma {:induction false} PathInLvl(g: Graph, rank: seq<nat>, v: NodeId, p: seq<NodeId>)
    requires RankedGraph(g, rank) && v < |g.nodes| && PathTo(g, p, v)
    ensures p[0] in Lvl(g, v, |p| - 1)
    ensures |p| > 1 ==> p[0] in ParentSet(g, Lvl(g, v, |p| - 2))
    decreases |p|
  {
    if |p| > 1 {
      var q := p[1..];
      assert PathTo(g, q, v) by {
        forall i | 0 <= i < |q| - 1 ensures Edge(q[i], q[i + 1]) in g.edges {
          assert q[i] == p[i + 1] && q[i + 1] == p[i + 2];
        }
      }
      PathInLvl(g, rank, v, q);
      var e := Edge(p[0], q[0]);
      assert e in g.edges && EdgeIn(g, e);
      LvlBelowRank(g, rank, v, |q| - 1, q[0]);
      assert p[0] in ParentSet(g, Lvl(g, v, |q| - 1));
    }
  }

  /** A level with no in-neighbours bounds every path to `v`. */
  lemma NoLongerPath(g: Graph, rank: seq<nat>, v: NodeId, k: nat, p: seq<NodeId>)
    requires RankedGraph(g, rank) && v < |g.nodes| && PathTo(g, p, v)
    requires ParentSet(g, Lvl(g, v, k)) == {}
    ensures |p| <= k + 1
  {
    if |p| > k + 1 {
      var s := p[|p| - (k + 2)..];
      assert PathTo(g, s, v) by {
        forall i | 0 <= i < |s| - 1 ensures Edge(s[i], s[i + 1]) in g.edges {
          assert s[i] == p[|p| - (k + 2) + i];
        }
      }
      PathInLvl(g, rank, v, s);
    }
  }

  /** `DepthFrom` at a non-empty level `k` is the node count of the longest path, capped at 101. */
  lemma {:induction false} DepthFromLongest(g: Graph, rank: seq<nat>, v: NodeId, k: nat, w: NodeId) returns (p: seq<NodeId>)
    requires RankedGraph(g, rank) && v < |g.nodes| && k <= 99 && w in Lvl(g, v, k)
    ensures PathTo(g, p, v) && |p| == DepthFrom(g, v, k)
    ensures forall q | PathTo(g, q, v) :: |q| <= DepthFrom(g, v, k) || DepthFrom(g, v, k) == 101
    decreases 99 - k
  {
    if ParentSet(g, Lvl(g, v, k)) == {} {
      p := LvlPath(g, v, k, w);
      forall q | PathTo(g, q, v) ensures |q| <= k + 1 {
        NoLongerPath(g, rank, v, k, q);
      }
    } else {
      var u :| u in ParentSet(g, Lvl(g, v, k));
      var e :| e in g.edges && e.dst in Lvl(g, v, k) && e.src == u;
      assert EdgeIn(g, e);
      LvlBelowRank(g, rank, v, k, e.dst);
      assert u in Lvl(g, v, k + 1);
      if k == 99 {
        p := LvlPath(g, v, k + 1, u);
      } else {
        p := DepthFromLongest(g, rank, v, k + 1, u);
      }
    }
  }

  /**
   * On a ranked graph the depth walk measures the longest chain of in-edges
   * ending at `v`: `Depth(g, v)` is the number of nodes on such a longest
   * path, or 101 when some path has 101 nodes or more.
   */
  lemma DepthIsLongestPath(g: Graph, rank: seq<nat>, v: NodeId) returns (p: seq<NodeId>)
    requires RankedGraph(g, rank) && v < |g.nodes|
    ensures PathTo(g, p, v) && |p| == Depth(g, v)
    ensures forall q | PathTo(g, q, v) :: |q| <= Depth(g, v) || Depth(g, v) == 101
  {
    p := DepthFromLongest(g, rank, v, 0, v);
  }

  /**
   * On a ranked graph an edge `a -> b` makes `b` deeper than `a`, unless
   * `b`'s walk was cut off at 101.
   */
  lemma DepthEdge(g: Graph, rank: seq<nat>, a: NodeId, b: NodeId)
    requires RankedGraph(g, rank) && Edge(a, b) in g.edges
    ensures Depth(g, a) < Depth(g, b) || Depth(g, b) == 101
  {
    assert a in ParentSet(g, Lvl(g, b, 0));
    assert Depth(g, b) == DepthFrom(g, b, 1);
    DepthFromEdge(g, rank, a, b, 0);
  }

  lemma {:induction false} DepthFromBelowRank(g: Graph, rank: seq<nat>, v: NodeId, k: nat)
    requires RankedGraph(g, rank) && v < |g.nodes| && k <= rank[v] <= 99
    ensures DepthFrom(g, v, k) <= rank[v] + 1
    decreases rank[v] - k
  {
    if ParentSet(g, Lvl(g, v, k)) != {} {
      var u :| u in ParentSet(g, Lvl(g, v, k));
      var e :| e in g.edges && e.dst in Lvl(g, v, k) && e.src == u;
      LvlBelowRank(g, rank, v, k, e.dst);
      assert rank[u] < rank[e.dst];
      DepthFromBelowRank(g, rank, v, k + 1);
    }
  }

  /** The depth is at most one more than the rank: ranks below 100 keep the walk uncut. */
  lemma DepthBelowRank(g: Graph, rank: seq<nat>, v: NodeId)
    requires RankedGraph(g, rank) && v < |g.nodes| && rank[v] <= 99
    ensures Depth(g, v) <= rank[v] + 1
  {
    DepthFromBelowRank(g, rank, v, 0);
  }

  // ---------------------------------------------------------------------------
  // Density mode: the sweep over all nodes

  /** What the density sweep has established for the nodes before `i`. */
  ghost predicate DensityInv(g0: Graph, g: Graph, i: nat, unset: bool, rank: seq<nat>)
  {
    && WellFormed(g0) && SameShape(g0, g) && i <= |g.nodes|
    && (forall v: NodeId | v < i :: g.nodes[v].x >= Depth(g0, v))
    && (forall v: NodeId | v < i && (forall p: NodeId :: Edge(p, v) !in g.edges) :: g.nodes[v].x == 1)
    && (forall v: NodeId | i <= v < |g.nodes| :: g.nodes[v] == g0.nodes[v])
    && (unset ==> forall v: NodeId | v < i :: g.nodes[v].x == Depth(g0, v))
    && (unset ==> RankedGraph(g0, rank) && forall v: NodeId | v < |g0.nodes| :: g0.nodes[v].x <= 0 && rank[v] <= 99)
  }

  lemma DensityStep(g0: Graph, g: Graph, i: nat, unset: bool, rank: seq<nat>, d: nat)
    requires DensityInv(g0, g, i, unset, rank) && i < |g.nodes| && d == Depth(g0, i)
    ensures DensityInv(g0, SetDepth(g, i, d), i + 1, unset, rank)
  {
    var h := SetDepth(g, i, d);
    DepthOneIffRoot(g0, i);
    if unset {
      forall p: NodeId | Edge(p, i) in g.edges ensures g.nodes[p].x <= d - 1 {
        if p < i {
          DepthEdge(g0, rank, p, i);
          DepthBelowRank(g0, rank, i);
        }
      }
      if Desired(g, i) != 1 {
        var p: NodeId :| Edge(p, i) in g.edges && p < |g.nodes| && g.nodes[p].x == Desired(g, i) - 1;
      }
    }
  }

  /** Once every node sits on its depth, every edge points to a higher layer. */
  lemma DensityEdges(g0: Graph, g: Graph, unset: bool, rank: seq<nat>)
    requires DensityInv(g0, g, |g.nodes|, unset, rank)
    ensures unset ==> forall e | e in g.edges :: g.nodes[e.src].x < g.nodes[e.dst].x
  {
    if unset {
      forall e | e in g.edges ensures g.nodes[e.src].x < g.nodes[e.dst].x {
        assert EdgeIn(g0, e) && e == Edge(e.src, e.dst);
        DepthEdge(g0, rank, e.src, e.dst);
        DepthBelowRank(g0, rank, e.dst);
      }
    }
  }

  /**
   * `HorizontalPositionsByDensity`: every node, in node order, walks its
   * in-neighbours level by level and calls `SetDepth` with the depth found.
   * A root ends on layer 1 and no node ends left of its depth; on an acyclic
   * graph whose prerequisite chains are shorter than 100 nodes, starting
   * from unassigned layers, every node ends exactly on its depth and every
   * edge points to a higher layer.
   */
  method HorizontalPositionsByDensity(g0: Graph, ghost rank: seq<nat>) returns (g: Graph)
    requires WellFormed(g0)
    ensures SameShape(g0, g) && WellFormed(g)
    ensures forall v: NodeId | v < |g.nodes| :: g.nodes[v].x >= Depth(g0, v) >= 1
    ensures forall v: NodeId | v < |g.nodes| && (forall p: NodeId :: Edge(p, v) !in g.edges) :: g.nodes[v].x == 1
    ensures RankedGraph(g0, rank) && (forall v: NodeId | v < |g0.nodes| :: g0.nodes[v].x <= 0 && rank[v] <= 99) ==>
              (forall v: NodeId | v < |g.nodes| :: g.nodes[v].x == Depth(g0, v)) &&
              (forall e | e in g.edges :: g.nodes[e.src].x < g.nodes[e.dst].x)
  {
    g := g0;
    ghost var unset := RankedGraph(g0, rank) && forall v: NodeId | v < |g0.nodes| :: g0.nodes[v].x <= 0 && rank[v] <= 99;
    var i := 0;
    while i < |g.nodes|
      invariant DensityInv(g0, g, i, unset, rank)
      decreases |g.nodes| - i
    {
      var d := DensityDepth(g0, i);
      DensityStep(g0, g, i, unset, rank, d);
      g := SetDepth(g, i, d);
      i := i + 1;
    }
    DensityEdges(g0, g, unset, rank);
  }

  // ---------------------------------------------------------------------------
  // Tree.Layering

  /** The nodes among the first `k` whose layer is `d`, in node order. */
  function LayerUpTo(nodes: seq<Node>, d: int, k: nat): (ids: seq<NodeId>)
    requires k <= |nodes|
  {
    if k == 0 then []
    else
      var rest := LayerUpTo(nodes, d, k - 1);
      if nodes[k - 1].x == d then rest + [k - 1] else rest
  }

  lemma {:induction false} LayerUpToFacts(nodes: seq<Node>, d: int, k: nat)
    requires k <= |nodes|
    ensures forall j: NodeId :: j in LayerUpTo(nodes, d, k) <==> j < k && nodes[j].x == d
    ensures forall a, b | 0 <= a < b < |LayerUpTo(nodes, d, k)| :: LayerUpTo(nodes, d, k)[a] < LayerUpTo(nodes, d, k)[b]
    ensures forall a | 0 <= a < |LayerUpTo(nodes, d, k)| :: LayerUpTo(nodes, d, k)[a] < k
  {
    if k > 0 {
      LayerUpToFacts(nodes, d, k - 1);
    }
  }

  /** The largest layer among the first `k` nodes, or 0. */
  function TopLayer(nodes: seq<Node>, k: nat): (m: int)
    requires k <= |nodes|
  {
    if k == 0 then 0
    else
      var m := TopLayer(nodes, k - 1);
      if nodes[k - 1].x > m then nodes[k - 1].x else m
  }

  lemma {:induction false} TopLayerFacts(nodes: seq<Node>, k: nat)
    requires k <= |nodes|
    ensures TopLayer(nodes, k) >= 0 && forall j | 0 <= j < k :: nodes[j].x <= TopLayer(nodes, k)
    ensures TopLayer(nodes, k) == 0 || exists j | 0 <= j < k :: nodes[j].x == TopLayer(nodes, k)
  {
    if k > 0 {
      TopLayerFacts(nodes, k - 1);
    }
  }

  ghost predicate LayeringInv(g: Graph, layers: seq<seq<NodeId>>, k: nat)
    requires k <= |g.nodes|
  {
    && (forall j | 0 <= j < k :: g.nodes[j].x >= 1)
    && |layers| == TopLayer(g.nodes, k)
    && forall i | 0 <= i < |layers| :: layers[i] == LayerUpTo(g.nodes, i + 1, k)
  }

  /**
   * One step of `Tree.Layering`: add empty lists up to layer `x`, then
   * append `k` to list `x - 1`.
   */
  function AddToLayer(layers: seq<seq<NodeId>>, x: int, k: NodeId): (ls: seq<seq<NodeId>>)
    requires x >= 1
    ensures |ls| == if x > |layers| then x else |layers|
    ensures ls[x - 1] == (if x > |layers| then [] else layers[x - 1]) + [k]
    ensures forall i | 0 <= i < |ls| && i != x - 1 :: ls[i] == if i < |layers| then layers[i] else []
  {
    var grown := if x > |layers| then layers + seq(x - |layers|, _ => []) else layers;
    grown[x - 1 := grown[x - 1] + [k]]
  }

  lemma LayeringStep(g: Graph, layers: seq<seq<NodeId>>, k: nat)
    requires k < |g.nodes| && LayeringInv(g, layers, k) && g.nodes[k].x >= 1
    ensures LayeringInv(g, AddToLayer(layers, g.nodes[k].x, k), k + 1)
  {
    var x := g.nodes[k].x;
    var ls := AddToLayer(layers, x, k);
    TopLayerFacts(g.nodes, k);
    forall i | 0 <= i < |ls| ensures ls[i] == LayerUpTo(g.nodes, i + 1, k + 1) {
      var s := LayerUpTo(g.nodes, i + 1, k);
      if i >= |layers| && |s| > 0 {
        LayerUpToFacts(g.nodes, i + 1, k);
        HeadIn(s);
        assert false;
      }
    }
  }

  /**
   * `Tree.Layering`: the nodes grouped by layer, list `i` holding the nodes
   * of layer `i + 1` in node order, as many lists as the largest layer. A
   * node left of layer 1 makes the list index negative, which throws.
   */
  method LayeringOf(g: Graph) returns (r: Result<seq<seq<NodeId>>>)
    ensures r.Failure? <==> exists k: NodeId | k < |g.nodes| :: g.nodes[k].x < 1
    ensures r.Success? ==> forall i | 0 <= i < |r.value| :: r.value[i] == Layer(g, i + 1)
    ensures r.Success? ==> forall k: NodeId | k < |g.nodes| :: g.nodes[k].x <= |r.value|
    ensures r.Success? && |r.value| > 0 ==> exists k: NodeId | k < |g.nodes| :: g.nodes[k].x == |r.value|
  {
    var layers, k := CollectLayers(g);
    if k < |g.nodes| {
      return Failure("Index was out of range");
    }
    LayeringDone(g, layers);
    r := Success(layers);
  }

  /**
   * The loop of `Tree.Layering`: places nodes in node order until the end
   * or until a node left of layer 1, whose index `k` it returns.
   */
  method CollectLayers(g: Graph) returns (layers: seq<seq<NodeId>>, k: nat)
    ensures k <= |g.nodes| && LayeringInv(g, layers, k)
    ensures k < |g.nodes| ==> g.nodes[k].x < 1
  {
    layers, k := [], 0;
    while k < |g.nodes| && g.nodes[k].x >= 1
      invariant k <= |g.nodes|
      invariant LayeringInv(g, layers, k)
    {
      LayeringStep(g, layers, k);
      layers := AddToLayer(layers, g.nodes[k].x, k);
      k := k + 1;
    }
  }

  /** After the last node, list `i` is layer `i + 1` and the lists reach the largest layer. */
  lemma LayeringDone(g: Graph, layers: seq<seq<NodeId>>)
    requires LayeringInv(g, layers, |g.nodes|)
    ensures !exists k: NodeId | k < |g.nodes| :: g.nodes[k].x < 1
    ensures forall i | 0 <= i < |layers| :: layers[i] == Layer(g, i + 1)
    ensures forall k: NodeId | k < |g.nodes| :: g.nodes[k].x <= |layers|
    ensures |layers| > 0 ==> exists k: NodeId | k < |g.nodes| :: g.nodes[k].x == |layers|
  {
    TopLayerFacts(g.nodes, |g.nodes|);
    forall i | 0 <= i < |layers| ensures layers[i] == Layer(g, i + 1) {
      LayerUpToFacts(g.nodes, i + 1, |g.nodes|);
      AscendingUnique(layers[i], Layer(g, i + 1));
    }
  }
}

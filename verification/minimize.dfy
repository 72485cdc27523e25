/**
 * `Tree.MinimizeCrossings`: seed every layer's rows by descendant count,
 * then run barycentric sweeps and greedy sweeps, each phase for at most
 * fifty rounds. The greedy phase stops once two rounds have gone by
 * without progress; the barycentric phase stops only at a round with
 * progress after two rounds without.
 */
module Minimize {
  import opened Wrappers
  import opened Seqs
  import opened Graph
  import Sorting
  import opened Crossings
  import opened Greedy
  import opened Barycentre

  /** Both sweep phases stop after this many rounds. */
  const MaxIterations: nat := 50

  /** The key `OrderBy(n => n.Descendants.Count)` compares; `desc` stands for the count. */
  function ByDescendants(desc: NodeId -> nat): (NodeId, NodeId) -> bool
  {
    (a: NodeId, b: NodeId) => desc(a) <= desc(b)
  }

  lemma ByDescendantsPreorder(desc: NodeId -> nat)
    ensures Sorting.TotalPreorder(ByDescendants(desc))
  {
  }

  /** Layer `l` in ascending descendant count. */
  function StackOrder(g: Graph, l: int, desc: NodeId -> nat): (ids: seq<NodeId>)
  {
    Sorting.Sort(ByDescendants(desc), Layer(g, l))
  }

  /** The stack order holds every node of the layer exactly once. */
  lemma StackOrderIds(g: Graph, l: int, desc: NodeId -> nat)
    ensures NoDup(StackOrder(g, l, desc)) && IdsIn(g, StackOrder(g, l, desc))
    ensures forall k: NodeId :: k in StackOrder(g, l, desc) <==> k < |g.nodes| && g.nodes[k].x == l
  {
    var ids, order := Layer(g, l), StackOrder(g, l, desc);
    AscendingNoDup(ids);
    NoDupOfPermutation(ids, order);
    forall k: NodeId ensures k in order <==> k in ids {
      assert k in order <==> k in multiset(order);
    }
    forall t | 0 <= t < |order| ensures order[t] < |g.nodes| {
      assert order[t] in order;
    }
  }

  /** The rows `1 .. n`. */
  function FromOne(n: nat): (rows: seq<int>)
    ensures |rows| == n && forall t | 0 <= t < n :: rows[t] == t + 1
  {
    seq(n, t => t + 1)
  }

  /** One layer of the seeding loop: the `i`-th node of the stack order goes to row `i + 1`. */
  function StackLayer(g: Graph, l: int, desc: NodeId -> nat): (h: Graph)
  {
    StackOrderIds(g, l, desc);
    AssignRows(g, StackOrder(g, l, desc), FromOne(|StackOrder(g, l, desc)|))
  }

  /**
   * Layer `l` occupies exactly the rows `1 .. n` of its `n` nodes, and a
   * node with fewer descendants sits above one with more.
   */
  predicate Stacked(g: Graph, l: int, desc: NodeId -> nat)
  {
    RowsDistinct(g, l)
    && (forall k | 0 <= k < |g.nodes| && g.nodes[k].x == l :: Y(g.nodes[k]) <= |Layer(g, l)|)
    && (forall a, b | 0 <= a < |g.nodes| && 0 <= b < |g.nodes| && g.nodes[a].x == l && g.nodes[b].x == l
          && desc(a) < desc(b) :: Y(g.nodes[a]) < Y(g.nodes[b]))
  }

  /** Where node `k` of the layer stands in the stack order, and so its new row. */
  lemma StackIndex(g: Graph, l: int, desc: NodeId -> nat, k: NodeId) returns (t: nat)
    requires k < |g.nodes| && g.nodes[k].x == l
    ensures t < |StackOrder(g, l, desc)| && StackOrder(g, l, desc)[t] == k
    ensures Y(StackLayer(g, l, desc).nodes[k]) == t + 1
  {
    StackOrderIds(g, l, desc);
    var order := StackOrder(g, l, desc);
    assert k in order;
    t :| 0 <= t < |order| && order[t] == k;
  }

  /** Seeding a layer moves the rows of that layer only. */
  lemma StackLayerFrame(g: Graph, l: int, desc: NodeId -> nat)
    ensures LayerFrame(g, StackLayer(g, l, desc), l)
  {
    StackOrderIds(g, l, desc);
  }

  /** A seeded layer fills the rows `1 .. n`, one node per row. */
  lemma StackLayerRows(g: Graph, l: int, desc: NodeId -> nat)
    ensures RowsDistinct(StackLayer(g, l, desc), l)
    ensures forall k | 0 <= k < |g.nodes| && g.nodes[k].x == l :: Y(StackLayer(g, l, desc).nodes[k]) <= |Layer(g, l)|
  {
    var h := StackLayer(g, l, desc);
    StackLayerFrame(g, l, desc);
    forall k | 0 <= k < |h.nodes| && h.nodes[k].x == l
      ensures 1 <= Y(h.nodes[k]) <= |Layer(g, l)|
    {
      var t := StackIndex(g, l, desc, k);
    }
    forall a, b | 0 <= a < |h.nodes| && 0 <= b < |h.nodes| && a != b && h.nodes[a].x == l && h.nodes[b].x == l
      ensures Y(h.nodes[a]) != Y(h.nodes[b])
    {
      var ta := StackIndex(g, l, desc, a);
      var tb := StackIndex(g, l, desc, b);
    }
  }

  /** In a seeded layer a node with fewer descendants sits above one with more. */
  lemma StackLayerByDescendants(g: Graph, l: int, desc: NodeId -> nat, a: NodeId, b: NodeId)
    requires a < |g.nodes| && b < |g.nodes| && g.nodes[a].x == l && g.nodes[b].x == l
    requires desc(a) < desc(b)
    ensures Y(StackLayer(g, l, desc).nodes[a]) < Y(StackLayer(g, l, desc).nodes[b])
  {
    ByDescendantsPreorder(desc);
    Sorting.SortSorted(ByDescendants(desc), Layer(g, l));
    var ta := StackIndex(g, l, desc, a);
    var tb := StackIndex(g, l, desc, b);
    StackBefore(desc, StackOrder(g, l, desc), ta, tb);
  }

  /** In a list ascending by descendant count, a smaller count comes first. */
  lemma StackBefore(desc: NodeId -> nat, order: seq<NodeId>, i: nat, j: nat)
    requires Sorting.Sorted(ByDescendants(desc), order) && i < |order| && j < |order|
    requires desc(order[i]) < desc(order[j])
    ensures i < j
  {
  }

  /** Seeding a layer stacks it and moves nothing else. */
  lemma StackLayerStacks(g: Graph, l: int, desc: NodeId -> nat)
    ensures LayerFrame(g, StackLayer(g, l, desc), l)
    ensures Stacked(StackLayer(g, l, desc), l, desc)
  {
    var h := StackLayer(g, l, desc);
    StackLayerFrame(g, l, desc);
    StackLayerRows(g, l, desc);
    assert Layer(h, l) == Layer(g, l) by {
      AscendingUnique(Layer(h, l), Layer(g, l));
    }
    forall a, b | 0 <= a < |h.nodes| && 0 <= b < |h.nodes| && h.nodes[a].x == l && h.nodes[b].x == l
      && desc(a) < desc(b)
      ensures Y(h.nodes[a]) < Y(h.nodes[b])
    {
      StackLayerByDescendants(g, l, desc, a, b);
    }
  }

  /** Seeding one layer leaves the stacking of every other layer in place. */
  lemma StackedKept(g: Graph, h: Graph, l: int, m: int, desc: NodeId -> nat)
    requires LayerFrame(g, h, l) && l != m && Stacked(g, m, desc)
    ensures Stacked(h, m, desc)
  {
    assert Layer(h, m) == Layer(g, m) by {
      AscendingUnique(Layer(h, m), Layer(g, m));
    }
  }

  /** The layers before `x` are stacked, and only rows have moved since `g`. */
  ghost predicate SeededBelow(g: Graph, h: Graph, x: int, desc: NodeId -> nat)
  {
    RowFrame(g, h) && WellFormed(h) && 1 <= x && forall m | 1 <= m < x :: Stacked(h, m, desc)
  }

  /** Stacking layer `x` extends the stacked prefix by one layer. */
  lemma SeedStep(g: Graph, h: Graph, h': Graph, x: int, desc: NodeId -> nat)
    requires SeededBelow(g, h, x, desc)
    requires LayerFrame(h, h', x) && Stacked(h', x, desc)
    ensures SeededBelow(g, h', x + 1, desc)
  {
    forall m | 1 <= m < x ensures Stacked(h', m, desc) {
      StackedKept(h, h', x, m, desc);
    }
    assert forall e | e in h'.edges :: e in h.edges;
  }

  /** The seeding loop of `MinimizeCrossings`: layers `1 .. size`, each stacked by descendant count. */
  method SeedRows(g: Graph, size: int, desc: NodeId -> nat) returns (h: Graph)
    requires WellFormed(g)
    ensures RowFrame(g, h) && WellFormed(h)
    ensures forall m | 1 <= m <= size :: Stacked(h, m, desc)
  {
    h := g;
    var x := 1;
    while x <= size
      invariant SeededBelow(g, h, x, desc)
    {
      var h' := StackLayer(h, x, desc);
      StackLayerStacks(h, x, desc);
      SeedStep(g, h, h', x, desc);
      h := h';
      x := x + 1;
    }
  }

  /**
   * `Tree.MinimizeCrossings`. The barycentric phase runs while the last
   * round made no progress or burnout is left, the greedy phase while
   * burnout is left; each round without progress burns one unit, and
   * neither phase runs more than fifty rounds. So a barycentric phase that
   * stops early has had two rounds without progress and then one with.
   * A failing barycentric round ends the whole run. `bary` is the graph
   * between the two phases. The run needs no layer shape; only the claim
   * about the full crossing total asks that every edge rise by one layer
   * and no node lie beyond layer `size`.
   */
  method MinimizeCrossings(g: Graph, size: int, eps: real, desc: NodeId -> nat)
    returns (r: Result<Graph>, bary: Graph, baryRounds: nat, greedyRounds: nat)
    requires WellFormed(g) && eps >= 0.0
    ensures baryRounds <= MaxIterations && greedyRounds <= MaxIterations
    ensures r.Success? ==> 2 <= baryRounds && 2 <= greedyRounds
    ensures r.Success? && baryRounds < MaxIterations ==> 3 <= baryRounds
    ensures r.Success? ==> RowFrame(g, bary) && RowFrame(g, r.value) && WellFormed(r.value)
    ensures r.Success? && Proper(g) && WithinSize(g, size) ==>
              Proper(r.value) && TotalCrossings(r.value, size) <= TotalCrossings(bary, size)
  {
    var h := SeedRows(g, size, desc);

    var progress := false;
    var iteration, burnout := 0, 2;
    ghost var idle := 0;
    while (!progress || burnout > 0) && iteration < MaxIterations
      invariant RowFrame(g, h) && WellFormed(h)
      invariant iteration <= MaxIterations && burnout >= 2 - iteration
      invariant burnout == 2 - idle && idle + (if progress then 1 else 0) <= iteration
    {
      var step, p := BarymetricSweep(h, size, eps, iteration);
      iteration := iteration + 1;
      if step.Failure? {
        return Failure(step.error), h, iteration, 0;
      }
      h, progress := step.value, p;
      if !progress {
        burnout := burnout - 1;
        idle := idle + 1;
      }
    }
    bary, baryRounds := h, iteration;
    ghost var proper := Proper(g) && WithinSize(g, size);
    if proper {
      ProperSameLayers(g, h);
    }

    iteration, burnout := 0, 2;
    while burnout > 0 && iteration < MaxIterations
      invariant RowFrame(g, h) && WellFormed(h)
      invariant proper ==> Proper(h) && WithinSize(h, size) && TotalCrossings(h, size) <= TotalCrossings(bary, size)
      invariant iteration <= MaxIterations && burnout >= 2 - iteration
    {
      var h', p := GreedySweep(h, size, iteration);
      iteration := iteration + 1;
      h, progress := h', p;
      if !progress {
        burnout := burnout - 1;
      }
    }
    r, greedyRounds := Success(h), iteration;
  }
}

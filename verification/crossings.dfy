/**
 * Crossing counts of the layout (`Tree.Crossings`): per layer boundary, per
 * layer, and for the whole tree.
 */
module Crossings {
  import opened Seqs
  import opened Graph
  import Inversions

  type RowPair = Inversions.RowPair

  /** The rows `(In.Y, Out.Y)` of an edge. */
  function Ends(g: Graph, e: Edge): RowPair
  {
    if EdgeIn(g, e) then (Y(g.nodes[e.src]), Y(g.nodes[e.dst])) else (0, 0)
  }

  function Pairs(g: Graph, es: seq<Edge>): (ps: seq<RowPair>)
    ensures |ps| == |es|
    ensures forall i | 0 <= i < |es| :: ps[i] == Ends(g, es[i])
  {
    var f := (e: Edge) => Ends(g, e);
    forall i | 0 <= i < |es| ensures Map(es, f)[i] == Ends(g, es[i]) {
      MapAt(es, f, i);
    }
    Map(es, f)
  }

  predicate OnLayer(g: Graph, k: NodeId, l: int)
  {
    k < |g.nodes| && g.nodes[k].x == l
  }

  /** The end an edge is gathered by: its `Out` node for in-edges, its `In` node for out-edges. */
  function End(e: Edge, incoming: bool): NodeId
  {
    if incoming then e.dst else e.src
  }

  /** `ids.SelectMany(n => in ? n.InEdges : n.OutEdges)`. */
  function Gather(g: Graph, ids: seq<NodeId>, incoming: bool): (es: seq<Edge>)
    ensures forall e | e in es :: e in g.edges && End(e, incoming) in ids
  {
    if |ids| == 0 then []
    else (if incoming then InEdges(g, ids[0]) else OutEdges(g, ids[0])) + Gather(g, ids[1..], incoming)
  }

  /** The edges `Tree.Crossings(layer, in)` collects: into (or out of) the nodes of layer `l`. */
  function BoundaryEdges(g: Graph, l: int, incoming: bool): (es: seq<Edge>)
    ensures forall e | e in es :: e in g.edges && OnLayer(g, End(e, incoming), l)
  {
    Gather(g, Layer(g, l), incoming)
  }

  /** Gathering over duplicate-free ids collects every matching copy of an edge once. */
  lemma {:induction false} GatherCount(g: Graph, ids: seq<NodeId>, incoming: bool, e: Edge)
    requires NoDup(ids)
    ensures multiset(Gather(g, ids, incoming))[e] == if End(e, incoming) in ids then multiset(g.edges)[e] else 0
  {
    if |ids| > 0 {
      assert NoDup(ids[1..]);
      GatherCount(g, ids[1..], incoming, e);
      if incoming {
        FilterCount(g.edges, (c: Edge) => c.dst == ids[0], e);
      } else {
        FilterCount(g.edges, (c: Edge) => c.src == ids[0], e);
      }
      assert ids == [ids[0]] + ids[1..];
      assert ids[0] !in ids[1..];
    }
  }

  /** A boundary's edge list holds every edge ending on the layer, as often as the edge list does. */
  lemma BoundaryCount(g: Graph, l: int, incoming: bool, e: Edge)
    ensures multiset(BoundaryEdges(g, l, incoming))[e]
         == if OnLayer(g, End(e, incoming), l) then multiset(g.edges)[e] else 0
  {
    AscendingNoDup(Layer(g, l));
    GatherCount(g, Layer(g, l), incoming, e);
  }

  /** `Tree.Crossings(layer, in)`: the inversions among the boundary's sorted row pairs. */
  function BoundaryCrossings(g: Graph, l: int, incoming: bool): (c: nat)
    ensures |BoundaryEdges(g, l, incoming)| < 2 ==> c == 0
  {
    Inversions.Crossings(Pairs(g, BoundaryEdges(g, l, incoming)))
  }

  /**
   * The boundary count is the number of pairs of its edges that cross
   * geometrically, at most n(n-1)/2 for n edges, and zero exactly when the
   * Out rows never go down in (In.Y, Out.Y) order.
   */
  lemma BoundaryCrossingsMeaning(g: Graph, l: int, incoming: bool)
    ensures BoundaryCrossings(g, l, incoming) == Inversions.CrossPairs(Pairs(g, BoundaryEdges(g, l, incoming)))
    ensures 2 * BoundaryCrossings(g, l, incoming) <= |BoundaryEdges(g, l, incoming)| * (|BoundaryEdges(g, l, incoming)| - 1)
    ensures BoundaryCrossings(g, l, incoming) == 0
        <==> Inversions.NonDecreasing(Inversions.Outs(Inversions.SortedPairs(Pairs(g, BoundaryEdges(g, l, incoming)))))
  {
    var ps := Pairs(g, BoundaryEdges(g, l, incoming));
    Inversions.CrossingsAreCrossPairs(ps);
    Inversions.CrossingsBound(ps);
    Inversions.CrossingsZeroIff(ps);
  }

  /** Same nodes on the same layers, same edges: only rows may differ. */
  predicate SameLayers(g: Graph, h: Graph)
  {
    |h.nodes| == |g.nodes| && h.edges == g.edges
    && forall k | 0 <= k < |g.nodes| :: h.nodes[k].x == g.nodes[k].x
  }

  lemma {:induction false} GatherSameEdges(g: Graph, h: Graph, ids: seq<NodeId>, incoming: bool)
    requires h.edges == g.edges
    ensures Gather(h, ids, incoming) == Gather(g, ids, incoming)
  {
    if |ids| > 0 {
      GatherSameEdges(g, h, ids[1..], incoming);
    }
  }

  /**
   * A boundary's count only looks at the layers, the edges and the rows of
   * the edges it gathers: keep those and the count stays.
   */
  lemma BoundaryUnchanged(g: Graph, h: Graph, l: int, incoming: bool)
    requires SameLayers(g, h)
    requires forall e | e in BoundaryEdges(g, l, incoming) :: Ends(h, e) == Ends(g, e)
    ensures BoundaryEdges(h, l, incoming) == BoundaryEdges(g, l, incoming)
    ensures BoundaryCrossings(h, l, incoming) == BoundaryCrossings(g, l, incoming)
  {
    AscendingUnique(Layer(h, l), Layer(g, l));
    GatherSameEdges(g, h, Layer(g, l), incoming);
    var es := BoundaryEdges(g, l, incoming);
    assert Pairs(h, es) == Pairs(g, es);
  }

  /** Every edge rises by exactly one layer: the shape after edge normalisation. */
  predicate Proper(g: Graph)
  {
    WellFormed(g) && forall e | e in g.edges :: Span(g, e) == 1
  }

  /** On a proper graph, the edges out of layer `l` are the edges into layer `l + 1`. */
  lemma OutIsNextIn(g: Graph, l: int)
    requires Proper(g)
    ensures BoundaryCrossings(g, l, false) == BoundaryCrossings(g, l + 1, true)
  {
    var outs, ins := BoundaryEdges(g, l, false), BoundaryEdges(g, l + 1, true);
    forall e ensures multiset(outs)[e] == multiset(ins)[e] {
      BoundaryCount(g, l, false, e);
      BoundaryCount(g, l + 1, true, e);
    }
    assert multiset(outs) == multiset(ins);
    MapOfPermutation(outs, ins, (e: Edge) => Ends(g, e));
    Inversions.CrossingsOfPermutation(Pairs(g, outs), Pairs(g, ins));
  }

  /** `Tree.Crossings(layer)`: both boundaries of a layer, one at the outermost layers. */
  function LayerCrossings(g: Graph, size: int, l: int): (c: nat)
  {
    if l == 0 then BoundaryCrossings(g, l, false)
    else if l == size then BoundaryCrossings(g, l, true)
    else BoundaryCrossings(g, l, true) + BoundaryCrossings(g, l, false)
  }

  /** A layer's count is the sum of the boundary counts it looks at. */
  lemma LayerCrossingsOfBoundaries(g: Graph, size: int, l: int)
    ensures LayerCrossings(g, size, l)
         == (if l != 0 then BoundaryCrossings(g, l, true) else 0)
          + (if l != size || l == 0 then BoundaryCrossings(g, l, false) else 0)
  {
  }

  /** `f(lo) + ... + f(hi - 1)`. */
  function Sum(f: int -> nat, lo: int, hi: int): nat
    decreases hi - lo
  {
    if lo >= hi then 0 else f(lo) + Sum(f, lo + 1, hi)
  }

  /** The in-boundary count of every layer. */
  function InCount(g: Graph): int -> nat
  {
    b => BoundaryCrossings(g, b, true)
  }

  /** `Tree.Crossings()` as written: the in-boundaries of layers `1 .. Size.x - 1`. */
  function TotalCrossingsAsWritten(g: Graph, size: int): nat
  {
    Sum(InCount(g), 1, size)
  }

  /** The whole tree's crossing count: the in-boundaries of every layer `1 .. Size.x`. */
  function TotalCrossings(g: Graph, size: int): nat
  {
    Sum(InCount(g), 1, size + 1)
  }

  lemma {:induction false} SumZeroIff(f: int -> nat, lo: int, hi: int)
    ensures Sum(f, lo, hi) == 0 <==> forall b | lo <= b < hi :: f(b) == 0
    decreases hi - lo
  {
    if lo < hi {
      SumZeroIff(f, lo + 1, hi);
    }
  }

  /** The tree has no crossing exactly when no boundary between layers 1 and `Size.x` has one. */
  lemma TotalZeroIff(g: Graph, size: int)
    ensures TotalCrossings(g, size) == 0 <==> forall b | 1 <= b <= size :: BoundaryCrossings(g, b, true) == 0
  {
    var f := InCount(g);
    SumZeroIff(f, 1, size + 1);
    assert forall b :: f(b) == BoundaryCrossings(g, b, true);
  }

  lemma {:induction false} SumSame(f: int -> nat, f': int -> nat, lo: int, hi: int)
    requires forall b | lo <= b < hi :: f'(b) == f(b)
    ensures Sum(f', lo, hi) == Sum(f, lo, hi)
    decreases hi - lo
  {
    if lo < hi {
      SumSame(f, f', lo + 1, hi);
    }
  }

  /** When only the terms at `l` and `l + 1` differ, so do the sums, by as much. */
  lemma {:induction false} SumLocal(f: int -> nat, f': int -> nat, lo: int, hi: int, l: int)
    requires forall b | lo <= b < hi && b != l && b != l + 1 :: f'(b) == f(b)
    requires lo <= l && l + 1 < hi
    ensures Sum(f', lo, hi) - Sum(f, lo, hi) == f'(l) + f'(l + 1) - f(l) - f(l + 1)
    decreases hi - lo
  {
    if lo < l {
      SumLocal(f, f', lo + 1, hi, l);
    } else {
      SumSame(f, f', l + 2, hi);
    }
  }

  lemma {:induction false} SumSnoc(f: int -> nat, lo: int, hi: int)
    requires lo <= hi
    ensures Sum(f, lo, hi + 1) == Sum(f, lo, hi) + f(hi)
    decreases hi - lo
  {
    if lo < hi {
      SumSnoc(f, lo + 1, hi);
    }
  }

  /** The per-layer count `Tree.Crossings(layer)` as a function of the layer. */
  function LayerCount(g: Graph, size: int): int -> nat
  {
    l => LayerCrossings(g, size, l)
  }

  /** Sums of a per-layer count that adds up the in-boundaries on both sides. */
  lemma {:induction false} SumBothSides(lc: int -> nat, inc: int -> nat, size: int, k: int)
    requires 1 <= k <= size && lc(0) == inc(1)
    requires forall l | 1 <= l < size :: lc(l) == inc(l) + inc(l + 1)
    ensures Sum(lc, 0, k) == Sum(inc, 1, k) + Sum(inc, 1, k + 1)
    decreases k
  {
    if k == 1 {
      assert Sum(inc, 1, 2) == inc(1);
    } else {
      SumBothSides(lc, inc, size, k - 1);
      SumSnoc(lc, 0, k - 1);
      SumSnoc(inc, 1, k - 1);
      SumSnoc(inc, 1, k);
    }
  }

  lemma SumBothSidesAll(lc: int -> nat, inc: int -> nat, size: int)
    requires 1 <= size && lc(0) == inc(1) && lc(size) == inc(size)
    requires forall l | 1 <= l < size :: lc(l) == inc(l) + inc(l + 1)
    ensures Sum(lc, 0, size + 1) == 2 * Sum(inc, 1, size + 1)
  {
    SumBothSides(lc, inc, size, size);
    SumSnoc(lc, 0, size);
    SumSnoc(inc, 1, size);
  }

  /** On a proper graph a layer's count is its in-boundary plus the next layer's. */
  lemma LayerCountSides(g: Graph, size: int, l: int)
    requires Proper(g) && 0 <= l <= size
    ensures l == 0 && l != size ==> LayerCount(g, size)(l) == InCount(g)(1)
    ensures l != 0 && l == size ==> LayerCount(g, size)(l) == InCount(g)(l)
    ensures 0 < l < size ==> LayerCount(g, size)(l) == InCount(g)(l) + InCount(g)(l + 1)
  {
    var out, next := BoundaryCrossings(g, l, false), BoundaryCrossings(g, l + 1, true);
    OutIsNextIn(g, l);
    assert out == next && InCount(g)(l + 1) == next;
    if l == 0 {
      assert LayerCount(g, size)(l) == out;
    } else if l < size {
      assert LayerCount(g, size)(l) == BoundaryCrossings(g, l, true) + out;
    }
  }

  /**
   * On a graph whose edges span one layer, the per-layer counts of layers
   * `0 .. Size.x` add up to twice the crossings of the in-boundaries of
   * layers `1 .. Size.x`: each boundary is the out-boundary of one layer
   * and the in-boundary of the next.
   */
  lemma LayerSumCountsTwice(g: Graph, size: int)
    requires Proper(g) && 1 <= size
    ensures Sum(LayerCount(g, size), 0, size + 1) == 2 * TotalCrossings(g, size)
  {
    var lc, inc := LayerCount(g, size), InCount(g);
    LayerCountSides(g, size, 0);
    LayerCountSides(g, size, size);
    forall l | 1 <= l < size ensures lc(l) == inc(l) + inc(l + 1) {
      LayerCountSides(g, size, l);
    }
    SumBothSidesAll(lc, inc, size);
  }

  // ---------------------------------------------------------------------------
  // The as-written total misses the last boundary.

  /** Two layers of two nodes each, joined by two edges that cross. */
  function CrossedPair(): Graph
  {
    Graph([Node(Dummy, 1, 1.0), Node(Dummy, 1, 2.0), Node(Dummy, 2, 1.0), Node(Dummy, 2, 2.0)],
          [Edge(0, 3), Edge(1, 2)])
  }

  lemma CrossedPairLayers()
    ensures Layer(CrossedPair(), 1) == [0, 1] && Layer(CrossedPair(), 2) == [2, 3]
  {
    AscendingUnique(Layer(CrossedPair(), 1), [0, 1]);
    AscendingUnique(Layer(CrossedPair(), 2), [2, 3]);
  }

  lemma CrossedPairBoundaries()
    ensures BoundaryEdges(CrossedPair(), 1, true) == []
    ensures BoundaryEdges(CrossedPair(), 2, true) == [Edge(1, 2), Edge(0, 3)]
  {
    var g := CrossedPair();
    CrossedPairLayers();
    CrossedPairInEdges();
    assert Gather(g, [1], true) == [] + Gather(g, [], true);
    assert Gather(g, [3], true) == [Edge(0, 3)] + Gather(g, [], true);
    assert [0, 1][1..] == [1] && [2, 3][1..] == [3];
  }

  lemma CrossedPairInEdges()
    ensures InEdges(CrossedPair(), 0) == [] && InEdges(CrossedPair(), 1) == []
    ensures InEdges(CrossedPair(), 2) == [Edge(1, 2)] && InEdges(CrossedPair(), 3) == [Edge(0, 3)]
  {
    var es := CrossedPair().edges;
    assert es[1..] == [Edge(1, 2)] && es[1..][1..] == [];
  }

  lemma CrossedPairRows()
    ensures Pairs(CrossedPair(), [Edge(1, 2), Edge(0, 3)]) == [(2, 1), (1, 2)]
  {
    var g := CrossedPair();
    assert Y(g.nodes[0]) == 1 && Y(g.nodes[1]) == 2 && Y(g.nodes[2]) == 1 && Y(g.nodes[3]) == 2;
  }

  lemma OneCrossing()
    ensures Inversions.Crossings([(2, 1), (1, 2)]) == 1
  {
    var ps: seq<RowPair> := [(2, 1), (1, 2)];
    Inversions.CrossingsAreCrossPairs(ps);
    assert ps[1..] == [(1, 2)];
    assert Inversions.CrossCount(ps[0], ps[1..]) == 1;
  }

  lemma CrossedPairCounts()
    ensures BoundaryCrossings(CrossedPair(), 1, true) == 0
    ensures BoundaryCrossings(CrossedPair(), 2, true) == 1
  {
    CrossedPairBoundaries();
    CrossedPairRows();
    OneCrossing();
  }

  lemma CrossedPairProper()
    ensures Proper(CrossedPair())
  {
  }

  /**
   * With `Size.x == 2` the only crossing of the tree lies between layers 1
   * and 2; the as-written total never looks at that boundary and reports
   * none, while the corrected total counts it.
   */
  lemma LastBoundaryMissed()
    ensures Proper(CrossedPair())
    ensures BoundaryCrossings(CrossedPair(), 2, true) == 1
    ensures TotalCrossingsAsWritten(CrossedPair(), 2) == 0
    ensures TotalCrossings(CrossedPair(), 2) == 1
  {
    var f := InCount(CrossedPair());
    CrossedPairProper();
    CrossedPairCounts();
    assert f(1) == 0 && f(2) == 1;
    assert Sum(f, 3, 3) == 0;
    assert Sum(f, 2, 3) == 1;
  }
}

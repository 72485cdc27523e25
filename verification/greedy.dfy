/**
 * The greedy phase of crossing minimisation (`Tree.Swap`,
 * `Tree.GreedySweep_Layer`, `Tree.GreedySweep`): exchange the rows of two
 * nodes of a layer and keep the exchange only when it lowers that layer's
 * crossing count.
 */
module Greedy {
  import opened Wrappers
  import opened Seqs
  import opened Graph
  import opened Crossings

  const DifferentLayers: string := "Can't swap nodes on different layers"

  /** The rows (and everything else but `yf` beyond its row) agree node by node. */
  predicate SameRows(g: Graph, h: Graph)
  {
    SameLayers(g, h)
    && forall k | 0 <= k < |g.nodes| :: h.nodes[k].kind == g.nodes[k].kind && Y(h.nodes[k]) == Y(g.nodes[k])
  }

  /** `h` differs from `g` only in the rows of nodes on layer `l`. */
  predicate LayerFrame(g: Graph, h: Graph, l: int)
  {
    SameLayers(g, h)
    && forall k | 0 <= k < |g.nodes| ::
         h.nodes[k].kind == g.nodes[k].kind && (g.nodes[k].x != l ==> h.nodes[k] == g.nodes[k])
  }

  /** `h` differs from `g` only in rows. */
  predicate RowFrame(g: Graph, h: Graph)
  {
    SameLayers(g, h) && forall k | 0 <= k < |g.nodes| :: h.nodes[k].kind == g.nodes[k].kind
  }

  /**
   * `Tree.Swap(A, B)`: nodes on different layers are refused; otherwise the
   * two nodes exchange rows and nothing else changes.
   */
  function Swap(g: Graph, a: NodeId, b: NodeId): (r: Result<Graph>)
    requires a < |g.nodes| && b < |g.nodes|
    ensures r.Failure? <==> g.nodes[a].x != g.nodes[b].x
    ensures r.Failure? ==> r.error == DifferentLayers
    ensures r.Success? ==> LayerFrame(g, r.value, g.nodes[a].x)
    ensures r.Success? ==> Y(r.value.nodes[a]) == Y(g.nodes[b]) && Y(r.value.nodes[b]) == Y(g.nodes[a])
    ensures r.Success? ==> forall k | 0 <= k < |g.nodes| && k != a && k != b :: r.value.nodes[k] == g.nodes[k]
  {
    if g.nodes[a].x != g.nodes[b].x then Failure(DifferentLayers)
    else Success(SetRow(SetRow(g, a, Y(g.nodes[b])), b, Y(g.nodes[a])))
  }

  /**
   * Swapping back undoes a swap: every node is back on its row, and on
   * integral rows the graph is exactly the original.
   */
  lemma SwapBack(g: Graph, a: NodeId, b: NodeId)
    requires a < |g.nodes| && b < |g.nodes| && g.nodes[a].x == g.nodes[b].x
    ensures Swap(g, a, b).Success?
    ensures Swap(Swap(g, a, b).value, b, a).Success?
    ensures SameRows(g, Swap(Swap(g, a, b).value, b, a).value)
    ensures g.nodes[a].yf == Y(g.nodes[a]) as real && g.nodes[b].yf == Y(g.nodes[b]) as real
        ==> Swap(Swap(g, a, b).value, b, a).value == g
  {
    var h := Swap(Swap(g, a, b).value, b, a).value;
    if g.nodes[a].yf == Y(g.nodes[a]) as real && g.nodes[b].yf == Y(g.nodes[b]) as real {
      assert h.nodes == g.nodes;
    }
  }

  /** The rows of the nodes `ids`, in order. */
  function Rows(g: Graph, ids: seq<NodeId>): (ys: seq<int>)
    requires forall t | 0 <= t < |ids| :: ids[t] < |g.nodes|
    ensures |ys| == |ids|
  {
    seq(|ids|, t requires 0 <= t < |ids| => Y(g.nodes[ids[t]]))
  }

  /** A swap inside a duplicate-free id list permutes that list's rows. */
  lemma SwapPermutesRows(g: Graph, ids: seq<NodeId>, i: nat, j: nat)
    requires NoDup(ids) && forall t | 0 <= t < |ids| :: ids[t] < |g.nodes|
    requires i < |ids| && j < |ids| && g.nodes[ids[i]].x == g.nodes[ids[j]].x
    ensures Swap(g, ids[i], ids[j]).Success?
    ensures multiset(Rows(Swap(g, ids[i], ids[j]).value, ids)) == multiset(Rows(g, ids))
  {
    var h := Swap(g, ids[i], ids[j]).value;
    var s := Rows(g, ids);
    if i != j {
      assert Rows(h, ids) == s[i := s[j]][j := s[i]];
    } else {
      assert Rows(h, ids) == s;
    }
  }

  /** Layer crossings only look at layers, edges and rows. */
  lemma SameRowsCrossings(g: Graph, h: Graph, size: int, l: int)
    requires SameRows(g, h)
    ensures LayerCrossings(h, size, l) == LayerCrossings(g, size, l)
  {
    SameRowsBoundary(g, h, l, true);
    SameRowsBoundary(g, h, l, false);
    LayerCrossingsOfBoundaries(g, size, l);
    LayerCrossingsOfBoundaries(h, size, l);
  }

  lemma SameRowsBoundary(g: Graph, h: Graph, l: int, incoming: bool)
    requires SameRows(g, h)
    ensures BoundaryCrossings(h, l, incoming) == BoundaryCrossings(g, l, incoming)
  {
    forall e ensures Ends(h, e) == Ends(g, e) {
      if EdgeIn(g, e) {
        assert Y(h.nodes[e.src]) == Y(g.nodes[e.src]) && Y(h.nodes[e.dst]) == Y(g.nodes[e.dst]);
      }
    }
    BoundaryUnchanged(g, h, l, incoming);
  }

  /**
   * `Tree.GreedySweep_Layer(l)`: try every pair `i < j` of the layer's
   * nodes (in the list order `order`), keeping a swap only when the layer's
   * crossing count drops. A layer without crossings is left alone.
   */
  method GreedySweepLayer(g: Graph, size: int, l: int, order: seq<NodeId>) returns (h: Graph)
    requires forall t | 0 <= t < |order| :: order[t] < |g.nodes| && g.nodes[order[t]].x == l
    requires forall k: NodeId | k < |g.nodes| && g.nodes[k].x == l :: k in order
    requires NoDup(order)
    ensures LayerFrame(g, h, l)
    ensures LayerCrossings(h, size, l) <= LayerCrossings(g, size, l)
    ensures LayerCrossings(g, size, l) == 0 ==> h == g
    ensures multiset(Rows(h, order)) == multiset(Rows(g, order))
  {
    h := g;
    var crossings := LayerCrossings(g, size, l);
    if crossings == 0 {
      return;
    }
    var i := 0;
    while i < |order| - 1
      invariant LayerFrame(g, h, l)
      invariant crossings == LayerCrossings(h, size, l) <= LayerCrossings(g, size, l)
      invariant multiset(Rows(h, order)) == multiset(Rows(g, order))
    {
      var j := i + 1;
      while j < |order|
        invariant i < j
        invariant LayerFrame(g, h, l)
        invariant crossings == LayerCrossings(h, size, l) <= LayerCrossings(g, size, l)
        invariant multiset(Rows(h, order)) == multiset(Rows(g, order))
      {
        SwapPermutesRows(h, order, i, j);
        var swapped := Swap(h, order[i], order[j]).value;
        var candidate := LayerCrossings(swapped, size, l);
        if candidate < crossings {
          h, crossings := swapped, candidate;
        } else {
          SwapPermutesRows(swapped, order, j, i);
          SwapBack(h, order[i], order[j]);
          var back := Swap(swapped, order[j], order[i]).value;
          SameRowsCrossings(h, back, size, l);
          h := back;
        }
        j := j + 1;
      }
      i := i + 1;
    }
  }

  /** Every node lies on a layer no deeper than `size` (`Tree.Size.x`). */
  predicate WithinSize(g: Graph, size: int)
  {
    forall k | 0 <= k < |g.nodes| :: g.nodes[k].x <= size
  }

  /** Moving rows keeps every edge's span. */
  lemma ProperSameLayers(g: Graph, h: Graph)
    requires Proper(g) && SameLayers(g, h)
    ensures Proper(h)
  {
    forall e | e in h.edges ensures EdgeIn(h, e) && Span(h, e) == 1 {
      assert e in g.edges;
    }
  }

  /** Beyond the deepest layer there is nothing to cross. */
  lemma NothingBeyond(g: Graph, size: int)
    requires WithinSize(g, size)
    ensures BoundaryCrossings(g, size + 1, true) == 0
  {
    var ids := Layer(g, size + 1);
    if |ids| > 0 {
      HeadIn(ids);
      assert false;
    }
  }

  /**
   * On a proper graph, moving rows of layer `l` only touches the boundaries
   * into `l` and into `l + 1`.
   */
  lemma OtherBoundariesKept(g: Graph, h: Graph, l: int, b: int)
    requires Proper(g) && LayerFrame(g, h, l) && b != l && b != l + 1
    ensures BoundaryCrossings(h, b, true) == BoundaryCrossings(g, b, true)
  {
    forall e | e in BoundaryEdges(g, b, true) ensures Ends(h, e) == Ends(g, e) {
      assert g.nodes[e.dst].x == b && g.nodes[e.src].x == b - 1;
    }
    BoundaryUnchanged(g, h, b, true);
  }

  /**
   * On a proper graph, the change a layer's rows make to the whole tree's
   * count is exactly the change they make to that layer's own count.
   */
  lemma LayerChangeIsTotalChange(g: Graph, h: Graph, size: int, l: int)
    requires Proper(g) && WithinSize(g, size) && LayerFrame(g, h, l) && 1 <= l <= size
    ensures TotalCrossings(h, size) + LayerCrossings(g, size, l)
         == TotalCrossings(g, size) + LayerCrossings(h, size, l)
  {
    OthersKept(g, h, l);
    NothingBeyond(g, size);
    NothingBeyond(h, size);
    ProperSameLayers(g, h);
    LayerAsBoundaries(g, size, l);
    LayerAsBoundaries(h, size, l);
    TotalOfBoundaries(g, h, size, l);
  }

  /** The counting half of `LayerChangeIsTotalChange`, from the boundary facts alone. */
  lemma TotalOfBoundaries(g: Graph, h: Graph, size: int, l: int)
    requires 1 <= l <= size
    requires forall b | b != l && b != l + 1 :: BoundaryCrossings(h, b, true) == BoundaryCrossings(g, b, true)
    requires BoundaryCrossings(g, size + 1, true) == 0 && BoundaryCrossings(h, size + 1, true) == 0
    requires LayerCrossings(g, size, l)
          == BoundaryCrossings(g, l, true) + (if l < size then BoundaryCrossings(g, l + 1, true) else 0)
    requires LayerCrossings(h, size, l)
          == BoundaryCrossings(h, l, true) + (if l < size then BoundaryCrossings(h, l + 1, true) else 0)
    ensures TotalCrossings(h, size) + LayerCrossings(g, size, l)
         == TotalCrossings(g, size) + LayerCrossings(h, size, l)
  {
    var f, f' := InCount(g), InCount(h);
    assert forall b :: f(b) == BoundaryCrossings(g, b, true) && f'(b) == BoundaryCrossings(h, b, true);
    SumTwoChanged(f, f', size, l);
  }

  lemma OthersKept(g: Graph, h: Graph, l: int)
    requires Proper(g) && LayerFrame(g, h, l)
    ensures forall b | b != l && b != l + 1 :: BoundaryCrossings(h, b, true) == BoundaryCrossings(g, b, true)
  {
    forall b | b != l && b != l + 1 ensures BoundaryCrossings(h, b, true) == BoundaryCrossings(g, b, true) {
      OtherBoundariesKept(g, h, l, b);
    }
  }

  /** On a proper graph a layer's count is its in-boundary plus the next layer's. */
  lemma LayerAsBoundaries(g: Graph, size: int, l: int)
    requires Proper(g) && 1 <= l <= size
    ensures LayerCrossings(g, size, l)
         == BoundaryCrossings(g, l, true) + (if l < size then BoundaryCrossings(g, l + 1, true) else 0)
  {
    OutIsNextIn(g, l);
    LayerCrossingsOfBoundaries(g, size, l);
  }

  /** The sum over `1 .. size` when only the terms at `l` and `l + 1` may change. */
  lemma SumTwoChanged(f: int -> nat, f': int -> nat, size: int, l: int)
    requires 1 <= l <= size
    requires forall b | b != l && b != l + 1 :: f'(b) == f(b)
    requires f(size + 1) == 0 && f'(size + 1) == 0
    ensures Sum(f', 1, size + 1) + f(l) + (if l < size then f(l + 1) else 0)
         == Sum(f, 1, size + 1) + f'(l) + (if l < size then f'(l + 1) else 0)
  {
    if l < size {
      SumLocal(f, f', 1, size + 1, l);
    } else {
      SumSnoc(f, 1, size + 1);
      SumSnoc(f', 1, size + 1);
      SumLocal(f, f', 1, size + 2, l);
    }
  }

  /**
   * `Tree.GreedySweep(iteration)`: one greedy pass over layers `1 .. Size.x`,
   * upwards on even iterations and downwards on odd ones. `progress` compares
   * `Tree.Crossings()` before and after, the total that leaves out the last
   * layer's in-boundary. The sweep runs on any graph; when every edge
   * rises by one layer and no node lies beyond layer `size`, the full total
   * never rises.
   */
  method GreedySweep(g: Graph, size: int, iteration: nat) returns (h: Graph, progress: bool)
    requires WellFormed(g)
    ensures RowFrame(g, h) && WellFormed(h)
    ensures Proper(g) && WithinSize(g, size) ==>
              Proper(h) && WithinSize(h, size) && TotalCrossings(h, size) <= TotalCrossings(g, size)
    ensures progress <==> TotalCrossingsAsWritten(h, size) < TotalCrossingsAsWritten(g, size)
  {
    var before := TotalCrossingsAsWritten(g, size);
    ghost var total := TotalCrossings(g, size);
    ghost var proper := Proper(g) && WithinSize(g, size);
    h := g;
    if iteration % 2 == 0 {
      var l := 1;
      while l <= size
        invariant RowFrame(g, h) && WellFormed(h)
        invariant proper ==> Proper(h) && WithinSize(h, size) && TotalCrossings(h, size) <= total
      {
        h := SweepLayerOf(g, h, size, l);
        l := l + 1;
      }
    } else {
      var l := size;
      while l >= 1
        invariant RowFrame(g, h) && WellFormed(h)
        invariant proper ==> Proper(h) && WithinSize(h, size) && TotalCrossings(h, size) <= total
      {
        h := SweepLayerOf(g, h, size, l);
        l := l - 1;
      }
    }
    var after := TotalCrossingsAsWritten(h, size);
    progress := after < before;
  }

  /** One layer of a sweep, in the layer's node-list order. */
  method SweepLayerOf(g: Graph, h: Graph, size: int, l: int) returns (h': Graph)
    requires RowFrame(g, h) && WellFormed(h) && 1 <= l <= size
    ensures RowFrame(g, h') && WellFormed(h')
    ensures Proper(h) && WithinSize(h, size) ==>
              Proper(h') && WithinSize(h', size) && TotalCrossings(h', size) <= TotalCrossings(h, size)
  {
    var order := Layer(h, l);
    AscendingNoDup(order);
    forall t | 0 <= t < |order| ensures order[t] < |h.nodes| && h.nodes[order[t]].x == l {
      assert order[t] in order;
    }
    h' := GreedySweepLayer(h, size, l, order);
    if Proper(h) && WithinSize(h, size) {
      LayerChangeIsTotalChange(h, h', size, l);
      ProperSameLayers(h, h');
    }
  }
}

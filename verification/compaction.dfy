/**
 * Vertical compaction: stacking the separately laid out blocks of the
 * graph one below the other (`Tree.FitLayersInBounds`,
 * `Tree.PositionAllLayers`) and closing empty rows (`Tree.RemoveEmptyRows`).
 */
module Compaction {
  import opened Wrappers
  import opened Graph

  /** What `Max()` throws on an empty array. */
  const NoElements: string := "Sequence contains no elements"

  /** What an array index past the end throws. */
  const IndexOutOfRange: string := "Index was outside the bounds of the array."

  /** The starting shift of `FitLayersInBounds`. */
  const ShiftFloor: real := -99999.0

  /**
   * A laid out block of layers (a `NodeLayers`), seen through what the
   * compaction reads of it: the top and the bottom row position of each
   * of its layers.
   */
  datatype Block = Block(tops: seq<real>, bottoms: seq<real>)

  predicate ValidBlock(b: Block)
  {
    |b.tops| == |b.bottoms|
  }

  /** `NodeLayers.MoveVertically(dy)`: every node of the block moves down by `dy`. */
  function MoveVertically(b: Block, dy: real): (m: Block)
    ensures |m.tops| == |b.tops| && |m.bottoms| == |b.bottoms|
  {
    Block(seq(|b.tops|, i requires 0 <= i < |b.tops| => b.tops[i] + dy),
          seq(|b.bottoms|, i requires 0 <= i < |b.bottoms| => b.bottoms[i] + dy))
  }

  /** Moving down and back up again restores the block. */
  lemma MoveBack(b: Block, dy: real)
    ensures MoveVertically(MoveVertically(b, dy), -dy) == b
  {
    var m := MoveVertically(MoveVertically(b, dy), -dy);
    assert m.tops == b.tops;
    assert m.bottoms == b.bottoms;
  }

  /** Two moves add up. */
  lemma MoveTwice(b: Block, d1: real, d2: real)
    ensures MoveVertically(MoveVertically(b, d1), d2) == MoveVertically(b, d1 + d2)
  {
    var m := MoveVertically(MoveVertically(b, d1), d2);
    assert m.tops == MoveVertically(b, d1 + d2).tops;
    assert m.bottoms == MoveVertically(b, d1 + d2).bottoms;
  }

  /**
   * The shift the loop over the first `n` layers computes: the largest of
   * `ShiftFloor` and every `bounds[i] - tops[i]`.
   */
  function Shift(b: Block, bounds: seq<real>, n: nat): (dy: real)
    requires n <= |b.tops| && n <= |bounds|
    ensures dy >= ShiftFloor
    ensures forall i | 0 <= i < n :: dy >= bounds[i] - b.tops[i]
    ensures dy == ShiftFloor || exists i | 0 <= i < n :: dy == bounds[i] - b.tops[i]
  {
    if n == 0 then ShiftFloor
    else RMax(Shift(b, bounds, n - 1), bounds[n - 1] - b.tops[n - 1])
  }

  datatype Fitted = Fitted(block: Block, bounds: seq<real>, dy: real)

  /**
   * `Tree.FitLayersInBounds(layers, topBounds)`: move the block down just
   * far enough that every layer starts at or below its bound, then lower
   * each of those bounds to one past the layer's new bottom. A block with
   * more layers than there are bounds reads past the array.
   */
  function FitLayersInBounds(b: Block, bounds: seq<real>): (r: Result<Fitted>)
    requires ValidBlock(b)
    ensures r.Failure? <==> |b.tops| > |bounds|
    ensures r.Success? ==> ValidBlock(r.value.block) && |r.value.bounds| == |bounds|
    ensures r.Success? ==> r.value.block == MoveVertically(b, r.value.dy)
    ensures r.Success? ==> forall i | 0 <= i < |b.tops| :: r.value.block.tops[i] >= bounds[i]
    ensures r.Success? ==> forall i | 0 <= i < |bounds| :: r.value.bounds[i] >= bounds[i]
    ensures r.Success? ==> forall i | 0 <= i < |b.tops| :: r.value.bounds[i] >= r.value.block.bottoms[i] + 1.0
    ensures r.Success? ==> forall i | |b.tops| <= i < |bounds| :: r.value.bounds[i] == bounds[i]
    ensures r.Success? ==> forall i | 0 <= i < |b.tops| ::
              r.value.bounds[i] == bounds[i] || r.value.bounds[i] == r.value.block.bottoms[i] + 1.0
  {
    if |b.tops| > |bounds| then Failure(IndexOutOfRange)
    else
      var dy := Shift(b, bounds, |b.tops|);
      var m := MoveVertically(b, dy);
      Success(Fitted(m, seq(|bounds|, i requires 0 <= i < |bounds| =>
        if i < |b.tops| then RMax(bounds[i], m.bottoms[i] + 1.0) else bounds[i]), dy))
  }

  /**
   * The fit is as high as the bounds allow: unless the floor shift applies,
   * some layer of the block starts exactly at its bound.
   */
  lemma FitIsTight(b: Block, bounds: seq<real>)
    requires ValidBlock(b) && |b.tops| <= |bounds|
    requires Shift(b, bounds, |b.tops|) > ShiftFloor
    ensures exists i | 0 <= i < |b.tops| :: FitLayersInBounds(b, bounds).value.block.tops[i] == bounds[i]
  {
    var i :| 0 <= i < |b.tops| && Shift(b, bounds, |b.tops|) == bounds[i] - b.tops[i];
    assert FitLayersInBounds(b, bounds).value.block.tops[i] == bounds[i];
  }

  /** The largest bound. */
  function MaxOf(s: seq<real>): (m: real)
    requires |s| > 0
    ensures forall i | 0 <= i < |s| :: s[i] <= m
    ensures exists i | 0 <= i < |s| :: s[i] == m
  {
    if |s| == 1 then s[0] else RMax(MaxOf(s[..|s| - 1]), s[|s| - 1])
  }

  /** Block `q` lies wholly below block `p` on every layer both have. */
  predicate Below(p: Block, q: Block)
    requires ValidBlock(p) && ValidBlock(q)
  {
    forall i | 0 <= i < |p.tops| && 0 <= i < |q.tops| :: q.tops[i] >= p.bottoms[i] + 1.0
  }

  /**
   * The invariant of the placing loop: every placed block lies below
   * `upper` and below every block placed before it, and every bound lies
   * below `upper` and below every placed block.
   */
  predicate Stacked(placed: seq<Block>, bounds: seq<real>, upper: real)
  {
    (forall t | 0 <= t < |placed| :: ValidBlock(placed[t]) && |placed[t].tops| <= |bounds|)
    && (forall i | 0 <= i < |bounds| :: bounds[i] >= upper)
    && (forall t, i | 0 <= t < |placed| && 0 <= i < |placed[t].tops| :: placed[t].tops[i] >= upper)
    && (forall t, i | 0 <= t < |placed| && 0 <= i < |placed[t].tops| :: bounds[i] >= placed[t].bottoms[i] + 1.0)
    && (forall p, q | 0 <= p < q < |placed| :: Below(placed[p], placed[q]))
  }

  /** Every placed block is its input block moved vertically by the matching shift. */
  predicate MovedBy(blocks: seq<Block>, placed: seq<Block>, shifts: seq<real>)
  {
    |placed| == |blocks| == |shifts| && forall t | 0 <= t < |blocks| :: placed[t] == MoveVertically(blocks[t], shifts[t])
  }

  /** Every block lies below `upper` and below every block before it. */
  predicate InOrderBelow(placed: seq<Block>, upper: real)
  {
    (forall j, i | 0 <= j < |placed| && 0 <= i < |placed[j].tops| :: placed[j].tops[i] >= upper)
    && (forall p, q | 0 <= p < q < |placed| :: ValidBlock(placed[p]) && ValidBlock(placed[q]) && Below(placed[p], placed[q]))
  }

  /**
   * `bound` is the lowest line below `upper` and below every block: it
   * lies below all of them and is `upper` or one past a block's bottom.
   */
  predicate LowestBound(placed: seq<Block>, upper: real, bound: real)
  {
    && bound >= upper
    && (forall j, i | 0 <= j < |placed| && 0 <= i < |placed[j].tops| ::
          i < |placed[j].bottoms| && bound >= placed[j].bottoms[i] + 1.0)
    && (bound == upper || exists j, i | 0 <= j < |placed| && 0 <= i < |placed[j].tops| ::
          i < |placed[j].bottoms| && bound == placed[j].bottoms[i] + 1.0)
  }

  /**
   * Each block sits as high as the blocks before it allow: unless its
   * shift is the floor, one of its layers starts exactly at `upper` or one
   * past the bottom of an earlier block on that layer.
   */
  predicate SitsTight(placed: seq<Block>, shifts: seq<real>, upper: real)
    requires |shifts| == |placed|
  {
    forall j | 0 <= j < |placed| ::
      shifts[j] == ShiftFloor || exists i | 0 <= i < |placed[j].tops| ::
        placed[j].tops[i] == upper
        || exists p | 0 <= p < j :: i < |placed[p].tops| && i < |placed[p].bottoms| && placed[j].tops[i] == placed[p].bottoms[i] + 1.0
  }

  /** `Stacked` spelled out for the placed blocks alone. */
  lemma StackedOrder(placed: seq<Block>, bounds: seq<real>, upper: real)
    requires Stacked(placed, bounds, upper)
    ensures InOrderBelow(placed, upper)
  {
  }

  /** The largest bound lies below every placed block and below `upper`. */
  lemma MaxBoundBelow(placed: seq<Block>, bounds: seq<real>, upper: real)
    requires Stacked(placed, bounds, upper) && |bounds| > 0
    ensures MaxOf(bounds) >= upper
    ensures forall j, i | 0 <= j < |placed| && 0 <= i < |placed[j].tops| ::
              i < |placed[j].bottoms| && MaxOf(bounds) >= placed[j].bottoms[i] + 1.0
  {
    assert bounds[0] >= upper;
    forall j, i | 0 <= j < |placed| && 0 <= i < |placed[j].tops|
      ensures i < |placed[j].bottoms| && MaxOf(bounds) >= placed[j].bottoms[i] + 1.0
    {
      assert bounds[i] >= placed[j].bottoms[i] + 1.0;
    }
  }

  /** Fitting one more block keeps the stack. */
  lemma FitKeepsStack(placed: seq<Block>, bounds: seq<real>, upper: real, b: Block)
    requires Stacked(placed, bounds, upper) && ValidBlock(b) && |b.tops| <= |bounds|
    ensures Stacked(placed + [FitLayersInBounds(b, bounds).value.block], FitLayersInBounds(b, bounds).value.bounds, upper)
  {
    var f := FitLayersInBounds(b, bounds).value;
    var m := f.block;
    forall p | 0 <= p < |placed| ensures Below(placed[p], m) {
    }
    var placed' := placed + [m];
    assert forall p, q | 0 <= p < q < |placed'| :: Below(placed'[p], placed'[q]) by {
      forall p, q | 0 <= p < q < |placed'| ensures Below(placed'[p], placed'[q]) {
        if q < |placed| {
          assert Below(placed[p], placed[q]);
        }
      }
    }
  }

  /**
   * Position `y` on layer `i` is where the bounds can stand after the
   * blocks `placed`: the starting bound `upper`, or one past the bottom of a
   * placed block on that layer.
   */
  predicate Bounding(placed: seq<Block>, i: nat, y: real, upper: real)
  {
    y == upper || exists p | 0 <= p < |placed| :: i < |placed[p].tops| && i < |placed[p].bottoms| && y == placed[p].bottoms[i] + 1.0
  }

  /** Every bound is the starting bound or one past the bottom of a placed block. */
  predicate BoundsFrom(placed: seq<Block>, bounds: seq<real>, upper: real)
  {
    forall i | 0 <= i < |bounds| :: Bounding(placed, i, bounds[i], upper)
  }

  /** Every placed block was shifted by the floor, or touches the bounds left by the blocks before it. */
  predicate AllTight(placed: seq<Block>, shifts: seq<real>, upper: real)
    requires |shifts| == |placed|
  {
    forall t | 0 <= t < |placed| ::
      shifts[t] == ShiftFloor || exists i | 0 <= i < |placed[t].tops| :: Bounding(placed[..t], i, placed[t].tops[i], upper)
  }

  /** A position reachable from a prefix of the placed blocks stays reachable. */
  lemma BoundingGrows(placed: seq<Block>, m: Block, i: nat, y: real, upper: real)
    requires Bounding(placed, i, y, upper)
    ensures Bounding(placed + [m], i, y, upper)
  {
    if y != upper {
      var p :| 0 <= p < |placed| && i < |placed[p].tops| && i < |placed[p].bottoms| && y == placed[p].bottoms[i] + 1.0;
      assert (placed + [m])[p] == placed[p];
    }
  }

  /** Fitting one more block keeps every bound and every placed block accounted for. */
  lemma FitKeepsBounding(placed: seq<Block>, bounds: seq<real>, shifts: seq<real>, upper: real, b: Block)
    requires ValidBlock(b) && |b.tops| <= |bounds| && |shifts| == |placed|
    requires BoundsFrom(placed, bounds, upper) && AllTight(placed, shifts, upper)
    ensures var f := FitLayersInBounds(b, bounds).value;
            BoundsFrom(placed + [f.block], f.bounds, upper) && AllTight(placed + [f.block], shifts + [f.dy], upper)
  {
    var f := FitLayersInBounds(b, bounds).value;
    var placed', shifts' := placed + [f.block], shifts + [f.dy];
    forall i | 0 <= i < |f.bounds| ensures Bounding(placed', i, f.bounds[i], upper) {
      if f.bounds[i] == bounds[i] {
        BoundingGrows(placed, f.block, i, bounds[i], upper);
      } else {
        assert placed'[|placed|] == f.block;
      }
    }
    forall t | 0 <= t < |placed'|
      ensures shifts'[t] == ShiftFloor || exists i | 0 <= i < |placed'[t].tops| :: Bounding(placed'[..t], i, placed'[t].tops[i], upper)
    {
      if t < |placed| {
        assert placed'[..t] == placed[..t] && placed'[t] == placed[t] && shifts'[t] == shifts[t];
      } else {
        assert placed'[..t] == placed;
        if f.dy != ShiftFloor {
          FitIsTight(b, bounds);
          var i :| 0 <= i < |b.tops| && f.block.tops[i] == bounds[i];
          assert Bounding(placed'[..t], i, placed'[t].tops[i], upper);
        }
      }
    }
  }

  /** `AllTight` spelled out: a tight block touches `upper` or an earlier block's bottom. */
  lemma TightPlacement(placed: seq<Block>, shifts: seq<real>, upper: real)
    requires |shifts| == |placed| && AllTight(placed, shifts, upper)
    ensures SitsTight(placed, shifts, upper)
  {
    forall j | 0 <= j < |placed| && shifts[j] != ShiftFloor
      ensures exists i | 0 <= i < |placed[j].tops| ::
                placed[j].tops[i] == upper
                || exists p | 0 <= p < j :: i < |placed[p].tops| && i < |placed[p].bottoms| && placed[j].tops[i] == placed[p].bottoms[i] + 1.0
    {
      var i :| 0 <= i < |placed[j].tops| && Bounding(placed[..j], i, placed[j].tops[i], upper);
      if placed[j].tops[i] != upper {
        var p :| 0 <= p < j && i < |placed[..j][p].tops| && i < |placed[..j][p].bottoms| && placed[j].tops[i] == placed[..j][p].bottoms[i] + 1.0;
        assert placed[..j][p] == placed[p];
      }
    }
  }

  /** The blocks in place, the bounds they leave and the shift each one took. */
  datatype Placement = Placement(placed: seq<Block>, bounds: seq<real>, shifts: seq<real>)

  /** The state of the placing loop after the first `j` blocks. */
  predicate Placing(blocks: seq<Block>, j: nat, n: nat, upper: real, p: Placement)
  {
    && j <= |blocks| && |p.bounds| == n
    && (forall t | 0 <= t < j :: |blocks[t].tops| <= n)
    && MovedBy(blocks[..j], p.placed, p.shifts) && Stacked(p.placed, p.bounds, upper)
    && BoundsFrom(p.placed, p.bounds, upper) && AllTight(p.placed, p.shifts, upper)
  }

  /** Fitting block `j` extends the placing state by one block. */
  lemma PlaceStep(blocks: seq<Block>, j: nat, n: nat, upper: real, p: Placement)
    requires j < |blocks| && ValidBlock(blocks[j]) && |blocks[j].tops| <= n && Placing(blocks, j, n, upper, p)
    ensures var f := FitLayersInBounds(blocks[j], p.bounds).value;
            Placing(blocks, j + 1, n, upper, Placement(p.placed + [f.block], f.bounds, p.shifts + [f.dy]))
  {
    var f := FitLayersInBounds(blocks[j], p.bounds).value;
    var q := Placement(p.placed + [f.block], f.bounds, p.shifts + [f.dy]);
    FitKeepsStack(p.placed, p.bounds, upper, blocks[j]);
    assert Stacked(q.placed, q.bounds, upper);
    FitKeepsBounding(p.placed, p.bounds, p.shifts, upper, blocks[j]);
    assert BoundsFrom(q.placed, q.bounds, upper) && AllTight(q.placed, q.shifts, upper);
    MovedByStep(blocks, j, p.placed, p.shifts, f.block, f.dy);
    assert MovedBy(blocks[..j + 1], q.placed, q.shifts);
    assert forall t | 0 <= t < j + 1 :: |blocks[t].tops| <= n;
  }

  lemma MovedByStep(blocks: seq<Block>, j: nat, placed: seq<Block>, shifts: seq<real>, m: Block, dy: real)
    requires j < |blocks| && MovedBy(blocks[..j], placed, shifts) && m == MoveVertically(blocks[j], dy)
    ensures MovedBy(blocks[..j + 1], placed + [m], shifts + [dy])
  {
    assert blocks[..j + 1] == blocks[..j] + [blocks[j]];
  }

  /** The `foreach` of `PositionAllLayers`: fit the blocks in turn against bounds starting at `upper`. */
  method PlaceBlocks(blocks: seq<Block>, n: nat, upper: real) returns (r: Result<Placement>)
    requires forall j | 0 <= j < |blocks| :: ValidBlock(blocks[j])
    ensures r.Failure? <==> exists j | 0 <= j < |blocks| :: |blocks[j].tops| > n
    ensures r.Success? ==> Placing(blocks, |blocks|, n, upper, r.value)
  {
    var p := Placement([], seq(n, _ => upper), []);
    var j := 0;
    while j < |blocks|
      invariant Placing(blocks, j, n, upper, p)
    {
      var fit := FitLayersInBounds(blocks[j], p.bounds);
      if fit.Failure? {
        return Failure(fit.error);
      }
      PlaceStep(blocks, j, n, upper, p);
      p := Placement(p.placed + [fit.value.block], fit.value.bounds, p.shifts + [fit.value.dy]);
      j := j + 1;
    }
    r := Success(p);
  }

  /** The largest bound is `upper` or one past the bottom of a placed block. */
  lemma MaxBounding(placed: seq<Block>, bounds: seq<real>, upper: real)
    requires BoundsFrom(placed, bounds, upper) && |bounds| > 0
    ensures MaxOf(bounds) == upper || exists j, i | 0 <= j < |placed| && 0 <= i < |placed[j].tops| ::
              i < |placed[j].bottoms| && MaxOf(bounds) == placed[j].bottoms[i] + 1.0
  {
    var i :| 0 <= i < |bounds| && bounds[i] == MaxOf(bounds);
    assert Bounding(placed, i, bounds[i], upper);
  }

  /** The largest bound of a finished stack is the lowest bound below it. */
  lemma MaxIsLowestBound(placed: seq<Block>, bounds: seq<real>, upper: real)
    requires Stacked(placed, bounds, upper) && BoundsFrom(placed, bounds, upper) && |bounds| > 0
    ensures LowestBound(placed, upper, MaxOf(bounds))
  {
    MaxBoundBelow(placed, bounds, upper);
    MaxBounding(placed, bounds, upper);
  }

  /**
   * `Tree.PositionAllLayers(layerss)`: start every one of the `n` layer
   * bounds at `upper` (`mainGraphUpperbound`), fit the blocks in turn, and
   * return the blocks in place with the largest bound as the new upper
   * bound. Every block lies below `upper` and below every earlier block,
   * and the new bound lies below all of them. Each block sits as high as
   * that allows: unless the floor shift applied, one of its layers starts
   * exactly at `upper` or one past the bottom of an earlier block. The new
   * bound is `upper` or one past the bottom of some block, so it is the
   * lowest bound below all of them.
   */
  method PositionAllLayers(blocks: seq<Block>, n: nat, upper: real)
    returns (r: Result<seq<Block>>, upper': real, shifts: seq<real>)
    requires forall j | 0 <= j < |blocks| :: ValidBlock(blocks[j])
    ensures r.Failure? <==> n == 0 || exists j | 0 <= j < |blocks| :: |blocks[j].tops| > n
    ensures r.Success? ==> MovedBy(blocks, r.value, shifts)
    ensures r.Success? ==> InOrderBelow(r.value, upper)
    ensures r.Success? ==> LowestBound(r.value, upper, upper')
    ensures r.Success? ==> |shifts| == |r.value| && SitsTight(r.value, shifts, upper)
  {
    var pl := PlaceBlocks(blocks, n, upper);
    if pl.Failure? {
      return Failure(pl.error), upper, [];
    }
    shifts := pl.value.shifts;
    if n == 0 {
      return Failure(NoElements), upper, shifts;
    }
    var placed, bounds := pl.value.placed, pl.value.bounds;
    assert blocks[..|blocks|] == blocks;
    StackedOrder(placed, bounds, upper);
    MaxIsLowestBound(placed, bounds, upper);
    TightPlacement(placed, shifts, upper);
    upper' := MaxOf(bounds);
    r := Success(placed);
  }

  /** The nodes at or below row position `y`, each moved up one row. */
  function ShiftUp(g: Graph, y: int): (h: Graph)
    ensures |h.nodes| == |g.nodes| && h.edges == g.edges
    ensures forall k | 0 <= k < |g.nodes| ::
              h.nodes[k].kind == g.nodes[k].kind && h.nodes[k].x == g.nodes[k].x
              && h.nodes[k].yf == (if g.nodes[k].yf > y as real then g.nodes[k].yf - 1.0 else g.nodes[k].yf)
  {
    g.(nodes := seq(|g.nodes|, k requires 0 <= k < |g.nodes| =>
      if g.nodes[k].yf > y as real then g.nodes[k].(yf := g.nodes[k].yf - 1.0) else g.nodes[k]))
  }

  /** The largest `Yf` of a node. */
  function MaxYf(g: Graph): (m: real)
    requires |g.nodes| > 0
    decreases |g.nodes|
    ensures forall k | 0 <= k < |g.nodes| :: g.nodes[k].yf <= m
    ensures exists k | 0 <= k < |g.nodes| :: g.nodes[k].yf == m
  {
    if |g.nodes| == 1 then g.nodes[0].yf
    else RMax(MaxYf(g.(nodes := g.nodes[..|g.nodes| - 1])), g.nodes[|g.nodes| - 1].yf)
  }

  /** Some node sits on row `y`. */
  predicate Occupied(g: Graph, y: int)
  {
    exists k | 0 <= k < |g.nodes| :: Y(g.nodes[k]) == y
  }

  /** Only the `Yf` of nodes have changed. */
  predicate SameButRows(g: Graph, h: Graph)
  {
    |h.nodes| == |g.nodes| && h.edges == g.edges
    && forall k | 0 <= k < |g.nodes| :: h.nodes[k].kind == g.nodes[k].kind && h.nodes[k].x == g.nodes[k].x
  }

  /** `h` keeps the vertical order of the nodes of `g`, ties included. */
  predicate SameOrder(g: Graph, h: Graph)
    requires |h.nodes| == |g.nodes|
  {
    forall a, b | 0 <= a < |g.nodes| && 0 <= b < |g.nodes| ::
      g.nodes[a].yf < g.nodes[b].yf <==> h.nodes[a].yf < h.nodes[b].yf
  }

  /** Every row from 1 down to the lowest node holds a node. */
  predicate NoGaps(g: Graph)
  {
    forall k, y | 0 <= k < |g.nodes| && 1 <= y <= Y(g.nodes[k]) :: Occupied(g, y)
  }

  /**
   * Closing the empty row `y` keeps the vertical order: a node below the
   * empty row stays strictly above every node that moves.
   */
  lemma ShiftKeepsOrder(g: Graph, y: int)
    requires y >= 1 && !Occupied(g, y)
    ensures SameOrder(g, ShiftUp(g, y))
  {
    var h := ShiftUp(g, y);
    forall a | 0 <= a < |g.nodes| && g.nodes[a].yf <= y as real ensures g.nodes[a].yf < y as real {
      assert Y(g.nodes[a]) != y;
    }
    forall b | 0 <= b < |g.nodes| && g.nodes[b].yf > y as real ensures g.nodes[b].yf >= (y + 1) as real {
      assert Y(g.nodes[b]) != y;
    }
  }

  /** Closing the empty row `y` moves nobody onto or off the rows above it. */
  lemma ShiftKeepsRowsAbove(g: Graph, y: int, r: int)
    requires y >= 1 && !Occupied(g, y) && r < y
    ensures Occupied(ShiftUp(g, y), r) <==> Occupied(g, r)
  {
    var h := ShiftUp(g, y);
    if Occupied(g, r) {
      var k :| 0 <= k < |g.nodes| && Y(g.nodes[k]) == r;
      assert Y(h.nodes[k]) == r;
    }
    if Occupied(h, r) {
      var k :| 0 <= k < |h.nodes| && Y(h.nodes[k]) == r;
      assert Y(g.nodes[k]) == r;
    }
  }

  /** Closing a row lowers the largest `Yf` by one when some node lies beyond the row. */
  lemma ShiftLowersMax(g: Graph, y: int)
    requires |g.nodes| > 0 && y >= 1 && !Occupied(g, y)
    requires exists k | 0 <= k < |g.nodes| :: g.nodes[k].yf > y as real
    ensures MaxYf(ShiftUp(g, y)) == MaxYf(g) - 1.0
    ensures Trunc(MaxYf(g)) > y
  {
    var h := ShiftUp(g, y);
    var k :| 0 <= k < |g.nodes| && g.nodes[k].yf > y as real;
    assert Y(g.nodes[k]) != y;
    var top :| 0 <= top < |g.nodes| && g.nodes[top].yf == MaxYf(g);
    assert g.nodes[k].yf >= (y + 1) as real;
    assert h.nodes[top].yf == MaxYf(g) - 1.0;
    var top' :| 0 <= top' < |h.nodes| && h.nodes[top'].yf == MaxYf(h);
    assert g.nodes[top'].yf <= MaxYf(g);
  }

  /**
   * `Tree.RemoveEmptyRows()`: walk the rows from 1 towards the lowest
   * starting position; at an empty row pull every node beyond it up one
   * row, stop when there is nothing beyond it, else go on to the next row.
   * Without nodes, `Max` throws. Afterwards no row from 1 down to the
   * lowest node is empty, the nodes keep their vertical order, and nothing
   * but row positions has changed.
   */
  method RemoveEmptyRows(g: Graph) returns (r: Result<Graph>)
    ensures r.Failure? <==> |g.nodes| == 0
    ensures r.Success? ==> SameButRows(g, r.value) && SameOrder(g, r.value) && NoGaps(r.value)
  {
    if |g.nodes| == 0 {
      return Failure(NoElements);
    }
    var z := MaxYf(g);
    var h := g;
    var y := 1;
    while (y as real) < z
      invariant Compacting(g, h, y, z)
      decreases Trunc(z) + 1 - y, Trunc(MaxYf(h)) - y
    {
      if !Occupied(h, y) {
        if !exists k | 0 <= k < |h.nodes| :: h.nodes[k].yf > y as real {
          EmptyRowEnds(h, y);
          return Success(h);
        }
        CloseRow(g, h, y, z);
        h := ShiftUp(h, y);
      } else {
        y := y + 1;
      }
    }
    FullRowsEnd(h, y, z);
    r := Success(h);
  }

  /**
   * The invariant of the row walk: only rows have moved, in the same
   * order, nobody lies beyond the starting lowest position `z`, and every
   * row above `y` holds a node.
   */
  predicate Compacting(g: Graph, h: Graph, y: int, z: real)
  {
    SameButRows(g, h) && SameOrder(g, h)
    && |h.nodes| > 0 && MaxYf(h) <= z && y >= 1
    && forall t | 1 <= t < y :: Occupied(h, t)
  }

  /** The same order composes. */
  lemma SameOrderTrans(g: Graph, h: Graph, i: Graph)
    requires |h.nodes| == |g.nodes| == |i.nodes| && SameOrder(g, h) && SameOrder(h, i)
    ensures SameOrder(g, i)
  {
  }

  /** Closing the empty row `y` keeps the invariant and lifts the lowest node. */
  lemma CloseRow(g: Graph, h: Graph, y: int, z: real)
    requires Compacting(g, h, y, z) && !Occupied(h, y)
    requires exists k | 0 <= k < |h.nodes| :: h.nodes[k].yf > y as real
    ensures Compacting(g, ShiftUp(h, y), y, z)
    ensures 0 <= Trunc(MaxYf(ShiftUp(h, y))) - y < Trunc(MaxYf(h)) - y
  {
    var h' := ShiftUp(h, y);
    ShiftKeepsOrder(h, y);
    SameOrderTrans(g, h, h');
    ShiftLowersMax(h, y);
    forall t | 1 <= t < y ensures Occupied(h', t) {
      ShiftKeepsRowsAbove(h, y, t);
    }
  }

  /** Stopping at an empty row with nothing beyond it leaves no gap. */
  lemma EmptyRowEnds(h: Graph, y: int)
    requires y >= 1 && !Occupied(h, y) && forall t | 1 <= t < y :: Occupied(h, t)
    requires forall k | 0 <= k < |h.nodes| :: h.nodes[k].yf <= y as real
    ensures NoGaps(h)
  {
    forall k | 0 <= k < |h.nodes| ensures Y(h.nodes[k]) < y {
      assert Y(h.nodes[k]) != y;
    }
  }

  /** Running past the lowest starting position leaves no gap. */
  lemma FullRowsEnd(h: Graph, y: int, z: real)
    requires |h.nodes| > 0 && MaxYf(h) <= z && z <= y as real
    requires forall t | 1 <= t < y :: Occupied(h, t)
    ensures NoGaps(h)
  {
    forall k, t | 0 <= k < |h.nodes| && 1 <= t <= Y(h.nodes[k]) ensures Occupied(h, t) {
      if t == y {
        assert Y(h.nodes[k]) == y;
      }
    }
  }
}

/**
 * Singleton packing (`Tree.ProcessSingletons`, `Tree.PlaceSingletons`):
 * research nodes of the first layer without outgoing edges leave the
 * layered graph and are packed row by row into a grid above it, one block
 * of rows per tech level.
 */
module Singletons {
  import opened Wrappers
  import opened Seqs
  import opened Graph
  import ResearchDefs
  import Sorting

  /** What `x / 0` throws. */
  const DivideByZero: string := "Attempted to divide by zero."

  /** What `layers[0]` throws on an empty list. */
  const IndexOutOfRange: string := "Index was out of range"

  /** The initial value of `mainGraphUpperbound`. */
  const InitialUpperBound: real := 1.0

  /** Node `ids[t]` of a block starting at row `y0` sits in column `t % colNum`, row `y0 + t / colNum`. */
  predicate GridSpot(n: Node, t: nat, colNum: int, y0: int)
  {
    colNum > 0 && n.x == t % colNum + 1 && Y(n) == y0 + t / colNum
  }

  lemma MulSign(d: int, c: int)
    requires c > 0
    ensures d >= 1 ==> d * c >= c
    ensures d <= -1 ==> d * c <= -c
  {
  }

  /** Euclidean division has one quotient and one remainder. */
  lemma DivModUnique(a: int, c: int, q: int, r: int)
    requires 0 <= r < c && a == q * c + r
    ensures a / c == q && a % c == r
  {
    var q', r' := a / c, a % c;
    assert (q' - q) * c == r - r';
    MulSign(q' - q, c);
  }

  /** One more node: the column moves on, and wraps to the next row after the last column. */
  lemma DivModNext(i: int, c: int)
    requires 0 <= i && 0 < c
    ensures (i + 1) / c == i / c + (i % c + 1) / c
    ensures (i + 1) % c == (i % c + 1) % c
  {
    var q, r := i / c, i % c;
    if r + 1 == c {
      DivModUnique(i + 1, c, q + 1, 0);
      DivModUnique(r + 1, c, 1, 0);
    } else {
      DivModUnique(i + 1, c, q, r + 1);
      DivModUnique(r + 1, c, 0, r + 1);
    }
  }

  /** Rounding `n / c` up adds one row exactly when the last row is not full. */
  lemma CeilDiv(n: int, c: int)
    requires 0 <= n && 0 < c
    ensures (n + c - 1) / c == n / c + (if n % c == 0 then 0 else 1)
  {
    var q, r := n / c, n % c;
    if r == 0 {
      DivModUnique(n + c - 1, c, q, c - 1);
    } else {
      DivModUnique(n + c - 1, c, q + 1, r - 1);
    }
  }

  /** Each of `n` nodes lies above row `(n + c - 1) / c`. */
  lemma RowBelow(t: int, n: int, c: int)
    requires 0 <= t < n && 0 < c
    ensures t / c < (n + c - 1) / c
  {
    var q, q' := t / c, (n + c - 1) / c;
    assert (q' - q) * c > 0;
    MulSign(q' - q, c);
  }

  /**
   * `Tree.PlaceSingletons(singletons, colNum)`: fill the rows from
   * `(int) upper` downwards, `colNum` nodes to a row, and report the first
   * row left free: the last row used if it is full, the one after it if
   * not. With `colNum == 0` the first step divides by zero.
   */
  method PlaceSingletons(g: Graph, ids: seq<NodeId>, colNum: int, upper: real) returns (r: Result<Graph>, bound: int)
    requires forall t | 0 <= t < |ids| :: ids[t] < |g.nodes|
    requires colNum >= 0
    ensures r.Failure? <==> |ids| > 0 && colNum == 0
    ensures r.Success? ==> |r.value.nodes| == |g.nodes| && r.value.edges == g.edges
    ensures r.Success? ==> forall k | 0 <= k < |g.nodes| :: r.value.nodes[k].kind == g.nodes[k].kind
    ensures r.Success? ==> forall k | 0 <= k < |g.nodes| && k !in ids :: r.value.nodes[k] == g.nodes[k]
    ensures r.Success? && NoDup(ids) ==>
              forall t | 0 <= t < |ids| :: GridSpot(r.value.nodes[ids[t]], t, colNum, Trunc(upper))
    ensures r.Success? && |ids| == 0 ==> bound == Trunc(upper)
    ensures r.Success? && |ids| > 0 && colNum > 0 ==> bound == Trunc(upper) + (|ids| + colNum - 1) / colNum
  {
    var y0 := Trunc(upper);
    var x, y := 0, y0;
    var h := g;
    var i := 0;
    while i < |ids|
      invariant 0 <= i <= |ids|
      invariant colNum == 0 ==> i == 0 && x == 0 && y == y0
      invariant colNum > 0 ==> x == i % colNum && y == y0 + i / colNum
      invariant |h.nodes| == |g.nodes| && h.edges == g.edges
      invariant forall k | 0 <= k < |g.nodes| :: h.nodes[k].kind == g.nodes[k].kind
      invariant forall k | 0 <= k < |g.nodes| && k !in ids :: h.nodes[k] == g.nodes[k]
      invariant NoDup(ids) ==> forall t | 0 <= t < i :: GridSpot(h.nodes[ids[t]], t, colNum, y0)
    {
      var k := ids[i];
      h := SetRow(SetX(h, k, x + 1), k, y);
      if colNum == 0 {
        return Failure(DivideByZero), 0;
      }
      DivModNext(i, colNum);
      y := y + (x + 1) / colNum;
      x := (x + 1) % colNum;
      i := i + 1;
    }
    bound := if x == 0 then y else y + 1;
    if colNum > 0 {
      CeilDiv(i, colNum);
    }
    r := Success(h);
  }

  /** Nodes at distinct indices of a block get distinct grid cells, all above the reported bound. */
  lemma GridSpotsApart(a: Node, b: Node, s: nat, t: nat, n: nat, colNum: int, y0: int)
    requires GridSpot(a, s, colNum, y0) && GridSpot(b, t, colNum, y0) && s != t && s < n && t < n
    ensures a.x != b.x || Y(a) != Y(b)
    ensures y0 <= Y(a) < y0 + (n + colNum - 1) / colNum
  {
    RowBelow(s, n, colNum);
  }

  /** The nodes `ids` all sit in columns `1 .. colNum` and rows `lo .. hi - 1`. */
  predicate Packed(h: Graph, ids: seq<NodeId>, colNum: int, lo: int, hi: int)
  {
    forall k | k in ids :: k < |h.nodes| && 1 <= h.nodes[k].x <= colNum && lo <= Y(h.nodes[k]) < hi
  }

  /** No two of the nodes `ids` share a grid cell. */
  predicate CellsApart(h: Graph, ids: seq<NodeId>)
  {
    forall a, b | a in ids && b in ids && a != b && a < |h.nodes| && b < |h.nodes| ::
      h.nodes[a].x != h.nodes[b].x || Y(h.nodes[a]) != Y(h.nodes[b])
  }

  /** A block laid out on the grid keeps to its columns and its rows. */
  lemma BlockInRows(h: Graph, ids: seq<NodeId>, colNum: int, y0: int)
    requires colNum > 0 && forall t | 0 <= t < |ids| :: ids[t] < |h.nodes|
    requires forall t | 0 <= t < |ids| :: GridSpot(h.nodes[ids[t]], t, colNum, y0)
    ensures Packed(h, ids, colNum, y0, y0 + (|ids| + colNum - 1) / colNum)
  {
    forall k | k in ids
      ensures k < |h.nodes| && 1 <= h.nodes[k].x <= colNum
      ensures y0 <= Y(h.nodes[k]) < y0 + (|ids| + colNum - 1) / colNum
    {
      var t :| 0 <= t < |ids| && ids[t] == k;
      SpotInRows(h.nodes[k], t, |ids|, colNum, y0);
    }
  }

  /** The `t`-th of `n` grid spots lies in columns `1 .. colNum` and the block's rows. */
  lemma SpotInRows(node: Node, t: nat, n: nat, colNum: int, y0: int)
    requires t < n && GridSpot(node, t, colNum, y0)
    ensures 1 <= node.x <= colNum
    ensures y0 <= Y(node) < y0 + (n + colNum - 1) / colNum
  {
    RowBelow(t, n, colNum);
  }

  /** A duplicate-free block laid out on the grid has one node per cell. */
  lemma BlockCellsApart(h: Graph, ids: seq<NodeId>, colNum: int, y0: int)
    requires NoDup(ids) && forall t | 0 <= t < |ids| :: ids[t] < |h.nodes|
    requires forall t | 0 <= t < |ids| :: GridSpot(h.nodes[ids[t]], t, colNum, y0)
    ensures CellsApart(h, ids)
  {
    forall a, b | a in ids && b in ids && a != b && a < |h.nodes| && b < |h.nodes|
      ensures h.nodes[a].x != h.nodes[b].x || Y(h.nodes[a]) != Y(h.nodes[b])
    {
      var s :| 0 <= s < |ids| && ids[s] == a;
      var t :| 0 <= t < |ids| && ids[t] == b;
      GridSpotsApart(h.nodes[a], h.nodes[b], s, t, |ids|, colNum, y0);
    }
  }

  /** A node is a singleton when it is a research node with no outgoing edge. */
  predicate IsSingleton(g: Graph, k: NodeId)
  {
    k < |g.nodes| && IsResearch(g.nodes[k]) && |OutEdges(g, k)| == 0
  }

  function Lonely(g: Graph): NodeId -> bool
  {
    (k: NodeId) => IsSingleton(g, k)
  }

  /** The first layer keeps the nodes with an outgoing edge. */
  function HasOut(g: Graph): NodeId -> bool
  {
    (k: NodeId) => |OutEdges(g, k)| > 0
  }

  /** The tech level of a research node's record, `-1` for anything else. */
  function LevelKey(g: Graph, db: ResearchDefs.Db): NodeId -> int
  {
    (k: NodeId) => if k < |g.nodes| && g.nodes[k].kind.Research? && g.nodes[k].kind.rec < |db|
         then db[g.nodes[k].kind.rec].techLevel as int else -1
  }

  function ByKey(key: NodeId -> int): (NodeId, NodeId) -> bool
  {
    (a: NodeId, b: NodeId) => key(a) <= key(b)
  }

  lemma ByKeyPreorder(key: NodeId -> int)
    ensures Sorting.TotalPreorder(ByKey(key))
  {
  }

  /** The concatenation of a list of lists. */
  function Concat(gs: seq<seq<NodeId>>): seq<NodeId>
  {
    if |gs| == 0 then [] else gs[0] + Concat(gs[1..])
  }

  function SameKey(key: NodeId -> int, k: int): NodeId -> bool
  {
    (x: NodeId) => key(x) == k
  }

  function OtherKey(key: NodeId -> int, k: int): NodeId -> bool
  {
    (x: NodeId) => key(x) != k
  }

  /** Removing the first element's key leaves a shorter list. */
  lemma OtherKeyShorter(s: seq<NodeId>, key: NodeId -> int)
    requires |s| > 0
    ensures |Filter(s, OtherKey(key, key(s[0])))| < |s|
  {
    assert s == [s[0]] + s[1..];
  }

  /**
   * LINQ `GroupBy(key)`: one group per key in order of first appearance,
   * each holding that key's elements in order.
   */
  function GroupBy(s: seq<NodeId>, key: NodeId -> int): (gs: seq<seq<NodeId>>)
    decreases |s|
  {
    if |s| == 0 then []
    else
      OtherKeyShorter(s, key);
      [Filter(s, SameKey(key, key(s[0])))] + GroupBy(Filter(s, OtherKey(key, key(s[0]))), key)
  }

  /** The first group, then the groups of the rest. */
  lemma GroupByCons(s: seq<NodeId>, key: NodeId -> int)
    requires |s| > 0
    ensures var rest := Filter(s, OtherKey(key, key(s[0])));
            && |rest| < |s|
            && GroupBy(s, key) == [Filter(s, SameKey(key, key(s[0])))] + GroupBy(rest, key)
  {
    OtherKeyShorter(s, key);
  }

  lemma ConcatCons(a: seq<NodeId>, b: seq<seq<NodeId>>)
    ensures Concat([a] + b) == a + Concat(b)
  {
    assert ([a] + b)[1..] == b;
  }

  /** Together the groups hold exactly the elements of the input, each as often as there. */
  lemma {:induction false} GroupByMultiset(s: seq<NodeId>, key: NodeId -> int)
    ensures multiset(Concat(GroupBy(s, key))) == multiset(s)
    decreases |s|
  {
    if |s| > 0 {
      var k := key(s[0]);
      var same, rest := Filter(s, SameKey(key, k)), Filter(s, OtherKey(key, k));
      GroupByCons(s, key);
      GroupByMultiset(rest, key);
      ConcatCons(same, GroupBy(rest, key));
      forall x ensures multiset(Concat(GroupBy(s, key)))[x] == multiset(s)[x] {
        FilterCount(s, SameKey(key, k), x);
        FilterCount(s, OtherKey(key, k), x);
      }
    }
  }

  /** A group: non-empty, and every member has the first member's key. */
  predicate OneKey(grp: seq<NodeId>, key: NodeId -> int)
  {
    |grp| > 0 && forall x | x in grp :: key(x) == key(grp[0])
  }

  /** Every group is non-empty and holds elements of a single key. */
  lemma {:induction false} GroupByGroups(s: seq<NodeId>, key: NodeId -> int)
    ensures forall i | 0 <= i < |GroupBy(s, key)| :: OneKey(GroupBy(s, key)[i], key)
    decreases |s|
  {
    if |s| > 0 {
      var k := key(s[0]);
      var same, rest := Filter(s, SameKey(key, k)), Filter(s, OtherKey(key, k));
      GroupByCons(s, key);
      GroupByGroups(rest, key);
      FilterKeeps(s, SameKey(key, k), s[0]);
      assert OneKey(same, key);
    }
  }

  /** Different groups have different keys. */
  lemma {:induction false} GroupByKeysDistinct(s: seq<NodeId>, key: NodeId -> int)
    ensures var gs := GroupBy(s, key);
            forall i, j | 0 <= i < j < |gs| :: Apart(gs[i], gs[j], key)
    decreases |s|
  {
    if |s| > 0 {
      var rest := Filter(s, OtherKey(key, key(s[0])));
      GroupByCons(s, key);
      GroupByKeysDistinct(rest, key);
      LaterGroupsOtherKey(s, key);
    }
  }

  /** No member of `a` shares its key with a member of `b`. */
  predicate Apart(a: seq<NodeId>, b: seq<NodeId>, key: NodeId -> int)
  {
    forall x, y | x in a && y in b :: key(x) != key(y)
  }

  /** The groups after the first carry other keys than the first group's. */
  lemma LaterGroupsOtherKey(s: seq<NodeId>, key: NodeId -> int)
    requires |s| > 0
    ensures var gs := GroupBy(s, key);
            forall j | 1 <= j < |gs| :: Apart(gs[0], gs[j], key)
  {
    var k := key(s[0]);
    var same, rest := Filter(s, SameKey(key, k)), Filter(s, OtherKey(key, k));
    var gs, gr := GroupBy(s, key), GroupBy(rest, key);
    GroupByCons(s, key);
    GroupByMultiset(rest, key);
    forall j | 1 <= j < |gs| ensures Apart(gs[0], gs[j], key) {
      forall y | y in gs[j] ensures key(y) != k {
        ConcatMember(gr, j - 1, y);
        assert y in multiset(rest);
      }
    }
  }

  /** Every element of a group is in the concatenation. */
  lemma {:induction false} ConcatMember(gs: seq<seq<NodeId>>, i: nat, x: NodeId)
    requires i < |gs| && x in gs[i]
    ensures x in Concat(gs)
  {
    if i > 0 {
      ConcatMember(gs[1..], i - 1, x);
    }
  }

  /** The packing result: the graph, the layers without their singletons, the singletons. */
  datatype Packing = Packing(g: Graph, layers: seq<seq<NodeId>>, singletons: seq<NodeId>)

  /** The singletons of the first layer, stably sorted by tech level. */
  function SingletonsOf(g: Graph, db: ResearchDefs.Db, layer: seq<NodeId>): (s: seq<NodeId>)
  {
    Sorting.Sort(ByKey(LevelKey(g, db)), Filter(layer, Lonely(g)))
  }

  /** The singletons are the lonely nodes of the layer, each as often as there. */
  lemma SingletonsMembers(g: Graph, db: ResearchDefs.Db, layer: seq<NodeId>)
    ensures forall k: NodeId :: k in SingletonsOf(g, db, layer) <==> k in layer && Lonely(g)(k)
    ensures NoDup(layer) ==> NoDup(SingletonsOf(g, db, layer))
  {
    var s, f := SingletonsOf(g, db, layer), Filter(layer, Lonely(g));
    assert multiset(s) == multiset(f);
    forall k: NodeId ensures k in s <==> k in layer && Lonely(g)(k) {
      assert k in s <==> k in multiset(f);
      if k in layer && Lonely(g)(k) {
        FilterKeeps(layer, Lonely(g), k);
      }
    }
    if NoDup(layer) {
      FilterNoDup(layer, Lonely(g));
      NoDupOfPermutation(f, s);
    }
  }

  /** The singletons ascend in tech level. */
  lemma SingletonsAscend(g: Graph, db: ResearchDefs.Db, layer: seq<NodeId>)
    ensures Sorting.Sorted(ByKey(LevelKey(g, db)), SingletonsOf(g, db, layer))
  {
    ByKeyPreorder(LevelKey(g, db));
    Sorting.SortSorted(ByKey(LevelKey(g, db)), Filter(layer, Lonely(g)));
  }

  /** Filtering keeps a list duplicate-free. */
  lemma FilterNoDup(s: seq<NodeId>, p: NodeId -> bool)
    requires NoDup(s)
    ensures NoDup(Filter(s, p))
  {
    var f := Filter(s, p);
    forall x ensures multiset(f)[x] <= 1 {
      FilterCount(s, p, x);
      NoDupCount(s, x);
    }
    forall i, j | 0 <= i < j < |f| ensures f[i] != f[j] {
      if f[i] == f[j] {
        TwiceCount(f, i, j);
      }
    }
  }

  /** A duplicate-free concatenation has duplicate-free, disjoint parts. */
  lemma NoDupAppend(a: seq<NodeId>, b: seq<NodeId>)
    requires NoDup(a + b)
    ensures NoDup(a) && NoDup(b) && forall k | k in a :: k !in b
  {
    assert forall i | 0 <= i < |a| :: (a + b)[i] == a[i];
    assert forall i | 0 <= i < |b| :: (a + b)[|a| + i] == b[i];
    forall i, j | 0 <= i < |a| && 0 <= j < |b| ensures a[i] != b[j] {
      assert (a + b)[i] != (a + b)[|a| + j];
    }
  }

  /**
   * The `foreach` over the groups in `ProcessSingletons`: each group is
   * packed by `PlaceSingletons` into its own block of rows, starting where
   * the previous block left off.
   */
  method PlaceGroups(g: Graph, groups: seq<seq<NodeId>>, colNum: int, upper: real) returns (r: Result<Graph>, upper': real)
    requires forall i | 0 <= i < |groups| :: |groups[i]| > 0
    requires forall k | k in Concat(groups) :: k < |g.nodes|
    requires colNum >= 0
    ensures r.Failure? <==> |groups| > 0 && colNum == 0
    ensures |groups| == 0 ==> upper' == upper
    ensures r.Success? ==> |r.value.nodes| == |g.nodes| && r.value.edges == g.edges
    ensures r.Success? ==> forall k | 0 <= k < |g.nodes| :: r.value.nodes[k].kind == g.nodes[k].kind
    ensures r.Success? ==> forall k | 0 <= k < |g.nodes| && k !in Concat(groups) :: r.value.nodes[k] == g.nodes[k]
    ensures r.Success? && |groups| > 0 ==> Trunc(upper) <= Trunc(upper') && upper' == Trunc(upper') as real
    ensures r.Success? && NoDup(Concat(groups)) ==>
              Packed(r.value, Concat(groups), colNum, Trunc(upper), Trunc(upper')) && CellsApart(r.value, Concat(groups))
    decreases |groups|
  {
    if |groups| == 0 {
      return Success(g), upper;
    }
    var first, later := groups[0], groups[1..];
    ConcatCons(first, later);
    assert groups == [first] + later;
    assert forall t | 0 <= t < |first| :: first[t] in Concat(groups);
    var placed, bound := PlaceSingletons(g, first, colNum, upper);
    if placed.Failure? {
      return Failure(placed.error), upper;
    }
    var h1 := placed.value;
    assert forall k | k in Concat(later) :: k in Concat(groups);
    assert Trunc(upper) <= bound by {
      assert (|first| + colNum - 1) / colNum >= 0;
    }
    TruncOfInt(bound);
    r, upper' := PlaceGroups(h1, later, colNum, bound as real);
    if r.Success? {
      if |later| == 0 {
        assert upper' == bound as real;
      }
      assert Trunc(upper) <= Trunc(upper');
      if NoDup(Concat(groups)) {
        NoDupAppend(first, Concat(later));
        BlockInRows(h1, first, colNum, Trunc(upper));
        BlockCellsApart(h1, first, colNum, Trunc(upper));
        PacksJoin(h1, r.value, first, Concat(later), colNum, Trunc(upper), bound, Trunc(upper'));
      }
    }
  }

  /** Two blocks packed one below the other form one packed block. */
  lemma PacksJoin(h1: Graph, h2: Graph, a: seq<NodeId>, b: seq<NodeId>, colNum: int, lo: int, mid: int, hi: int)
    requires |h2.nodes| == |h1.nodes| && lo <= mid <= hi && forall k | k in a :: k !in b
    requires forall k | 0 <= k < |h1.nodes| && k !in b :: h2.nodes[k] == h1.nodes[k]
    requires Packed(h1, a, colNum, lo, mid) && CellsApart(h1, a)
    requires Packed(h2, b, colNum, mid, hi) && CellsApart(h2, b)
    ensures Packed(h2, a + b, colNum, lo, hi) && CellsApart(h2, a + b)
  {
    forall k | k in a + b ensures k in a || k in b {
    }
  }

  /**
   * `Tree.ProcessSingletons(layers)`. With tech levels kept apart nothing
   * happens. Otherwise the first layer's singletons, stably sorted by tech
   * level, leave that layer, and each tech level's singletons are packed
   * into a block of rows `|layers| - 1` columns wide, one block below the
   * other from row `(int) upper` on; `upper'` is the next free row. An
   * empty layer list fails on `layers[0]`, a single layer with singletons
   * on the division by zero columns.
   */
  method ProcessSingletons(g: Graph, db: ResearchDefs.Db, layers: seq<seq<NodeId>>, separate: bool, upper: real)
    returns (r: Result<Packing>, upper': real)
    requires forall i, t | 0 <= i < |layers| && 0 <= t < |layers[i]| :: layers[i][t] < |g.nodes|
    ensures separate ==> r == Success(Packing(g, layers, [])) && upper' == upper
    ensures !separate && |layers| == 0 ==> r == Failure(IndexOutOfRange)
    ensures !separate && |layers| > 0 ==>
              (r.Failure? <==> |layers| == 1 && exists k | k in layers[0] :: Lonely(g)(k))
    ensures r.Success? && !separate ==> r.value.layers == layers[0 := Filter(layers[0], HasOut(g))]
    ensures r.Success? && !separate ==>
              forall k: NodeId :: k in r.value.singletons <==> k in layers[0] && Lonely(g)(k)
    ensures r.Success? ==> Sorting.Sorted(ByKey(LevelKey(g, db)), r.value.singletons)
    ensures r.Success? ==> |r.value.g.nodes| == |g.nodes| && r.value.g.edges == g.edges
    ensures r.Success? ==> forall k | 0 <= k < |g.nodes| :: r.value.g.nodes[k].kind == g.nodes[k].kind
    ensures r.Success? ==> forall k | 0 <= k < |g.nodes| && k !in r.value.singletons :: r.value.g.nodes[k] == g.nodes[k]
    ensures r.Success? && |layers| > 0 && NoDup(layers[0]) ==>
              Packed(r.value.g, r.value.singletons, |layers| - 1, Trunc(upper), Trunc(upper'))
              && CellsApart(r.value.g, r.value.singletons)
  {
    if separate {
      return Success(Packing(g, layers, [])), upper;
    }
    if |layers| == 0 {
      return Failure(IndexOutOfRange), upper;
    }
    var singles := SingletonsOf(g, db, layers[0]);
    SingletonsMembers(g, db, layers[0]);
    SingletonsAscend(g, db, layers[0]);
    var placed;
    placed, upper' := PackSingletons(g, db, layers[0], |layers| - 1, upper);
    if placed.Failure? {
      return Failure(placed.error), upper;
    }
    r := Success(Packing(placed.value, layers[0 := Filter(layers[0], HasOut(g))], singles));
  }

  /** The packing step of `ProcessSingletons` for the first layer `layer`, in `colNum` columns. */
  method PackSingletons(g: Graph, db: ResearchDefs.Db, layer: seq<NodeId>, colNum: int, upper: real)
    returns (r: Result<Graph>, upper': real)
    requires forall t | 0 <= t < |layer| :: layer[t] < |g.nodes|
    requires colNum >= 0
    ensures r.Failure? <==> colNum == 0 && exists k | k in layer :: Lonely(g)(k)
    ensures r.Success? ==> |r.value.nodes| == |g.nodes| && r.value.edges == g.edges
    ensures r.Success? ==> forall k | 0 <= k < |g.nodes| :: r.value.nodes[k].kind == g.nodes[k].kind
    ensures r.Success? ==> forall k | 0 <= k < |g.nodes| && k !in SingletonsOf(g, db, layer) :: r.value.nodes[k] == g.nodes[k]
    ensures r.Success? && NoDup(layer) ==>
              Packed(r.value, SingletonsOf(g, db, layer), colNum, Trunc(upper), Trunc(upper'))
              && CellsApart(r.value, SingletonsOf(g, db, layer))
  {
    var singles := SingletonsOf(g, db, layer);
    var groups := GroupBy(singles, LevelKey(g, db));
    LevelGroups(g, db, layer);
    GroupMembers(singles, LevelKey(g, db));
    GroupByGroups(singles, LevelKey(g, db));
    assert forall i | 0 <= i < |groups| :: |groups[i]| > 0;
    r, upper' := PlaceGroups(g, groups, colNum, upper);
    if r.Success? && NoDup(layer) {
      SingletonsMembers(g, db, layer);
      PackedSameMembers(r.value, Concat(groups), singles, colNum, Trunc(upper), Trunc(upper'));
    }
  }

  /** Packing speaks of members only, not of their order. */
  lemma PackedSameMembers(h: Graph, a: seq<NodeId>, b: seq<NodeId>, colNum: int, lo: int, hi: int)
    requires forall k :: k in a <==> k in b
    requires Packed(h, a, colNum, lo, hi) && CellsApart(h, a)
    ensures Packed(h, b, colNum, lo, hi) && CellsApart(h, b)
  {
  }

  /** A layer has tech-level groups exactly when it has singletons, and they are nodes of the graph. */
  lemma LevelGroups(g: Graph, db: ResearchDefs.Db, layer: seq<NodeId>)
    requires forall t | 0 <= t < |layer| :: layer[t] < |g.nodes|
    ensures var groups := GroupBy(SingletonsOf(g, db, layer), LevelKey(g, db));
            && (|groups| > 0 <==> exists k | k in layer :: Lonely(g)(k))
            && (forall k | k in Concat(groups) :: k < |g.nodes|)
  {
    var singles := SingletonsOf(g, db, layer);
    SingletonsMembers(g, db, layer);
    GroupMembers(singles, LevelKey(g, db));
    if |singles| > 0 {
      assert singles[0] in singles;
    }
  }

  /** The groups hold the members of the input, duplicate-free when the input is. */
  lemma GroupMembers(s: seq<NodeId>, key: NodeId -> int)
    ensures forall k :: k in Concat(GroupBy(s, key)) <==> k in s
    ensures |GroupBy(s, key)| > 0 <==> |s| > 0
    ensures NoDup(s) ==> NoDup(Concat(GroupBy(s, key)))
  {
    var c := Concat(GroupBy(s, key));
    GroupByMultiset(s, key);
    forall k ensures k in c <==> k in s {
      assert k in c <==> k in multiset(c);
    }
    if NoDup(s) {
      NoDupOfPermutation(s, c);
    }
  }
}

/**
 * The barycentric phase of crossing minimisation (`Tree.GetBarycentre`,
 * `Tree.BarymetricSweep_Layer`, `Tree.BarymetricSweep`): every node of a
 * layer wants the mean row of its neighbours on the adjacent layer; the
 * nodes are sorted by that mean, grouped when their means lie within
 * `Epsilon`, and given consecutive rows from the top.
 */
module Barycentre {
  import opened Wrappers
  import opened Seqs
  import opened Graph
  import Sorting
  import opened Crossings
  import opened Greedy

  /** `float.MinValue`, the starting group key. */
  const FloatMin: real := -340282346638528859811704685463124688640.0

  /** What `groups[cur]` reports when no group has the key `cur` yet. */
  const NoGroupKey: string := "The given key was not present in the dictionary."

  predicate IdsIn(g: Graph, ids: seq<NodeId>)
  {
    forall t | 0 <= t < |ids| :: ids[t] < |g.nodes|
  }

  /** The sum of the `Yf` of the nodes `ids`. */
  function SumYf(g: Graph, ids: seq<NodeId>): real
    requires IdsIn(g, ids)
  {
    if |ids| == 0 then 0.0 else g.nodes[ids[0]].yf + SumYf(g, ids[1..])
  }

  /**
   * `Tree.GetBarycentre(node, neighbours)`: the mean `Yf` of the
   * neighbours, or the node's own `Yf` when it has none.
   */
  function GetBarycentre(g: Graph, k: NodeId, neighbours: seq<NodeId>): (m: real)
    requires k < |g.nodes| && IdsIn(g, neighbours)
    ensures |neighbours| == 0 ==> m == g.nodes[k].yf
    ensures |neighbours| > 0 ==> m * |neighbours| as real == SumYf(g, neighbours)
  {
    if |neighbours| == 0 then g.nodes[k].yf else SumYf(g, neighbours) / |neighbours| as real
  }

  /** Bounds on every neighbour's `Yf` bound their sum. */
  lemma {:induction false} SumYfBounded(g: Graph, ids: seq<NodeId>, lo: real, hi: real)
    requires IdsIn(g, ids)
    requires forall t | 0 <= t < |ids| :: lo <= g.nodes[ids[t]].yf <= hi
    ensures lo * |ids| as real <= SumYf(g, ids) <= hi * |ids| as real
  {
    if |ids| > 0 {
      SumYfBounded(g, ids[1..], lo, hi);
    }
  }

  /** The barycentre lies between the lowest and the highest neighbour. */
  lemma BarycentreBetween(g: Graph, k: NodeId, neighbours: seq<NodeId>, lo: real, hi: real)
    requires k < |g.nodes| && IdsIn(g, neighbours) && |neighbours| > 0
    requires forall t | 0 <= t < |neighbours| :: lo <= g.nodes[neighbours[t]].yf <= hi
    ensures lo <= GetBarycentre(g, k, neighbours) <= hi
  {
    SumYfBounded(g, neighbours, lo, hi);
    var n := |neighbours| as real;
    var m := GetBarycentre(g, k, neighbours);
    assert m * n >= lo * n && m * n <= hi * n;
  }

  /** A node with its barycentre. */
  datatype Mean = Mean(id: NodeId, value: real)

  /** The neighbours a sweep looks at: `InNodes` sweeping left to right, `OutNodes` otherwise. */
  function Neighbours(g: Graph, k: NodeId, left: bool): (ns: seq<NodeId>)
    requires WellFormed(g)
    ensures IdsIn(g, ns)
  {
    var ns := if left then InNodes(g, k) else OutNodes(g, k);
    assert forall t | 0 <= t < |ns| :: ns[t] in ns;
    ns
  }

  /** `Layer(layer).ToDictionary(n => n, n => GetBarycentre(...))`, in layer order. */
  function Means(g: Graph, ids: seq<NodeId>, left: bool): (ms: seq<Mean>)
    requires WellFormed(g) && IdsIn(g, ids)
    ensures |ms| == |ids|
    ensures forall t | 0 <= t < |ids| :: ms[t] == Mean(ids[t], GetBarycentre(g, ids[t], Neighbours(g, ids[t], left)))
  {
    if |ids| == 0 then []
    else [Mean(ids[0], GetBarycentre(g, ids[0], Neighbours(g, ids[0], left)))] + Means(g, ids[1..], left)
  }

  /** The key `OrderBy(n => n.Value)` compares. */
  function ByValue(): (Mean, Mean) -> bool
  {
    (a: Mean, b: Mean) => a.value <= b.value
  }

  lemma ByValuePreorder()
    ensures Sorting.TotalPreorder(ByValue())
  {
  }

  function Ids(ms: seq<Mean>): (ids: seq<NodeId>)
    ensures |ids| == |ms|
  {
    Map(ms, (m: Mean) => m.id)
  }

  lemma IdsAt(ms: seq<Mean>, t: nat)
    requires t < |ms|
    ensures Ids(ms)[t] == ms[t].id
  {
    MapAt(ms, (m: Mean) => m.id, t);
  }

  /** A group of nodes whose means lie within `Epsilon` of the group's first mean. */
  datatype Group = Group(key: real, members: seq<NodeId>)

  function Flatten(gs: seq<Group>): seq<NodeId>
  {
    if |gs| == 0 then [] else gs[0].members + Flatten(gs[1..])
  }

  lemma {:induction false} FlattenSnoc(gs: seq<Group>, x: Group)
    ensures Flatten(gs + [x]) == Flatten(gs) + x.members
  {
    if |gs| == 0 {
      assert gs + [x] == [x];
      assert Flatten([x][1..]) == [];
    } else {
      FlattenSnoc(gs[1..], x);
      assert (gs + [x])[1..] == gs[1..] + [x];
    }
  }

  predicate NonEmptyGroups(gs: seq<Group>)
  {
    forall i | 0 <= i < |gs| :: |gs[i].members| > 0
  }

  function Abs(r: real): real
  {
    if r < 0.0 then -r else r
  }

  /**
   * The grouping loop of `BarymetricSweep_Layer`, from the mean `ms[0]`
   * on, with current key `cur` and the groups `acc` built so far: a mean
   * more than `eps` away from `cur` opens a new group; otherwise it joins
   * the group of `cur`, which is missing only before the first group.
   */
  function GroupMeans(ms: seq<Mean>, eps: real, cur: real, acc: seq<Group>): (r: Result<seq<Group>>)
    requires |acc| > 0 ==> acc[|acc| - 1].key == cur
    ensures r.Failure? <==> |acc| == 0 && |ms| > 0 && Abs(ms[0].value - cur) <= eps
  {
    if |ms| == 0 then Success(acc)
    else if Abs(ms[0].value - cur) > eps then
      GroupMeans(ms[1..], eps, ms[0].value, acc + [Group(ms[0].value, [ms[0].id])])
    else if |acc| == 0 then Failure(NoGroupKey)
    else GroupMeans(ms[1..], eps, cur, JoinLast(acc, ms[0].id))
  }

  /** Add `k` to the last group. */
  function JoinLast(acc: seq<Group>, k: NodeId): (acc': seq<Group>)
    requires |acc| > 0
    ensures |acc'| == |acc| && acc'[|acc| - 1].key == acc[|acc| - 1].key
    ensures Flatten(acc') == Flatten(acc) + [k]
    ensures NonEmptyGroups(acc) ==> NonEmptyGroups(acc')
  {
    var last := acc[|acc| - 1];
    FlattenSnoc(acc[..|acc| - 1], Group(last.key, last.members + [k]));
    FlattenSnoc(acc[..|acc| - 1], last);
    assert acc == acc[..|acc| - 1] + [last];
    acc[..|acc| - 1] + [Group(last.key, last.members + [k])]
  }

  /**
   * Grouping keeps the sorted order: reading the groups front to back gives
   * back exactly the nodes, in the order they were sorted, and no group is
   * empty.
   */
  lemma {:induction false} GroupMeansKeepsOrder(ms: seq<Mean>, eps: real, cur: real, acc: seq<Group>)
    requires |acc| > 0 ==> acc[|acc| - 1].key == cur
    requires GroupMeans(ms, eps, cur, acc).Success?
    ensures Flatten(GroupMeans(ms, eps, cur, acc).value) == Flatten(acc) + Ids(ms)
    ensures NonEmptyGroups(acc) ==> NonEmptyGroups(GroupMeans(ms, eps, cur, acc).value)
    decreases |ms|
  {
    if |ms| > 0 {
      assert Ids(ms) == [ms[0].id] + Ids(ms[1..]) by {
        assert ms == [ms[0]] + ms[1..];
        MapAppend([ms[0]], ms[1..], (m: Mean) => m.id);
      }
      var r := GroupMeans(ms, eps, cur, acc);
      if Abs(ms[0].value - cur) > eps {
        var x := Group(ms[0].value, [ms[0].id]);
        assert r == GroupMeans(ms[1..], eps, ms[0].value, acc + [x]);
        FlattenSnoc(acc, x);
        GroupMeansKeepsOrder(ms[1..], eps, ms[0].value, acc + [x]);
        assert Flatten(r.value) == Flatten(acc) + [ms[0].id] + Ids(ms[1..]);
        assert NonEmptyGroups(acc) ==> NonEmptyGroups(acc + [x]);
      } else {
        var acc' := JoinLast(acc, ms[0].id);
        assert r == GroupMeans(ms[1..], eps, cur, acc');
        GroupMeansKeepsOrder(ms[1..], eps, cur, acc');
        assert Flatten(r.value) == Flatten(acc) + [ms[0].id] + Ids(ms[1..]);
      }
    }
  }

  /** Group keys strictly ascend, so no two groups share a key. */
  predicate KeysAscend(gs: seq<Group>)
  {
    forall i, j | 0 <= i < j < |gs| :: gs[i].key < gs[j].key
  }

  /**
   * With a non-negative epsilon and the means in ascending order, every
   * group opens with a key above all earlier keys. So the source's
   * dictionary of groups never overwrites a key, and enumerating it gives
   * the groups in the order they were opened, as the list here does.
   */
  lemma {:induction false} GroupKeysAscend(ms: seq<Mean>, eps: real, cur: real, acc: seq<Group>)
    requires eps >= 0.0 && Sorting.Sorted(ByValue(), ms)
    requires |acc| > 0 ==> acc[|acc| - 1].key == cur && forall i | 0 <= i < |ms| :: cur <= ms[i].value
    requires KeysAscend(acc)
    requires GroupMeans(ms, eps, cur, acc).Success?
    ensures KeysAscend(GroupMeans(ms, eps, cur, acc).value)
    decreases |ms|
  {
    if |ms| > 0 {
      assert Sorting.Sorted(ByValue(), ms[1..]) by {
        forall i, j | 0 <= i < j < |ms[1..]| ensures ms[1..][i].value <= ms[1..][j].value {
          assert ByValue()(ms[i + 1], ms[j + 1]);
        }
      }
      forall i | 0 <= i < |ms[1..]| ensures ms[0].value <= ms[1..][i].value {
        assert ByValue()(ms[0], ms[i + 1]);
      }
      if Abs(ms[0].value - cur) > eps {
        var acc' := acc + [Group(ms[0].value, [ms[0].id])];
        assert KeysAscend(acc') by {
          if |acc| > 0 {
            assert cur < ms[0].value;
          }
        }
        GroupKeysAscend(ms[1..], eps, ms[0].value, acc');
      } else {
        var acc' := JoinLast(acc, ms[0].id);
        assert forall i | 0 <= i < |acc'| :: acc'[i].key == acc[i].key;
        GroupKeysAscend(ms[1..], eps, cur, acc');
      }
    }
  }

  /**
   * The rows the positioning loop hands out, group by group, starting
   * with the counter at `y`: a group of `N` nodes with key `mean` starts at
   * `(int) Max(y, mean - (N - 1) / 2)` (integer halving) and takes
   * consecutive rows.
   */
  function Positions(gs: seq<Group>, y: int): (rows: seq<int>)
    ensures |rows| == |Flatten(gs)|
    ensures forall a, b | 0 <= a < b < |rows| :: rows[a] < rows[b]
    ensures forall a | 0 <= a < |rows| :: y <= rows[a]
  {
    if |gs| == 0 then []
    else
      var n := |gs[0].members|;
      var start := Trunc(RMax(y as real, gs[0].key - ((n - 1) / 2) as real));
      var rest := Positions(gs[1..], start + n);
      seq(n, i => start + i) + rest
  }

  /** The first group starts where the formula puts it. */
  lemma PositionsStart(gs: seq<Group>, y: int)
    requires |gs| > 0 && |gs[0].members| > 0
    ensures Positions(gs, y)[0]
         == Trunc(RMax(y as real, gs[0].key - ((|gs[0].members| - 1) / 2) as real))
  {
  }

  /** Give node `ids[t]` the row `rows[t]`. */
  function AssignRows(g: Graph, ids: seq<NodeId>, rows: seq<int>): (h: Graph)
    requires IdsIn(g, ids) && |rows| == |ids|
    ensures SameLayers(g, h)
    ensures forall k | 0 <= k < |g.nodes| :: h.nodes[k].kind == g.nodes[k].kind
    ensures forall k | 0 <= k < |g.nodes| && k !in ids :: h.nodes[k] == g.nodes[k]
    ensures NoDup(ids) ==> forall t | 0 <= t < |ids| :: Y(h.nodes[ids[t]]) == rows[t]
    decreases |ids|
  {
    if |ids| == 0 then g
    else
      var h := AssignRows(SetRow(g, ids[0], rows[0]), ids[1..], rows[1..]);
      assert forall k :: k in ids[1..] ==> k in ids;
      if NoDup(ids) then
        assert NoDup(ids[1..]);
        assert forall t | 1 <= t < |ids| :: ids[t] == ids[1..][t - 1] && ids[t] != ids[0];
        assert ids[0] !in ids[1..];
        h
      else h
  }

  /** The barycentre of node `k` for a sweep in direction `left`. */
  function MeanOf(g: Graph, k: NodeId, left: bool): real
    requires WellFormed(g) && k < |g.nodes|
  {
    GetBarycentre(g, k, Neighbours(g, k, left))
  }

  /** The layer's nodes sorted by barycentre (`OrderBy` is stable). */
  function SortedMeans(g: Graph, l: int, left: bool): (ms: seq<Mean>)
    requires WellFormed(g)
  {
    LayerIdsIn(g, l);
    Sorting.Sort(ByValue(), Means(g, Layer(g, l), left))
  }

  lemma LayerIdsIn(g: Graph, l: int)
    ensures IdsIn(g, Layer(g, l))
  {
    var ids := Layer(g, l);
    assert forall t | 0 <= t < |ids| :: ids[t] in ids;
  }

  lemma IdsOfMeans(g: Graph, ids: seq<NodeId>, left: bool)
    requires WellFormed(g) && IdsIn(g, ids)
    ensures Ids(Means(g, ids, left)) == ids
  {
    var ms := Means(g, ids, left);
    forall t | 0 <= t < |ids| ensures Ids(ms)[t] == ids[t] {
      IdsAt(ms, t);
    }
  }

  /** The sorted means ascend. */
  lemma SortedMeansAscend(g: Graph, l: int, left: bool)
    requires WellFormed(g)
    ensures Sorting.Sorted(ByValue(), SortedMeans(g, l, left))
  {
    LayerIdsIn(g, l);
    ByValuePreorder();
    Sorting.SortSorted(ByValue(), Means(g, Layer(g, l), left));
  }

  /** The sorted means are the layer's nodes, each once. */
  lemma SortedMeansIds(g: Graph, l: int, left: bool)
    requires WellFormed(g)
    ensures NoDup(Ids(SortedMeans(g, l, left)))
    ensures forall k: NodeId :: k in Ids(SortedMeans(g, l, left)) <==> k < |g.nodes| && g.nodes[k].x == l
  {
    var ids := Layer(g, l);
    LayerIdsIn(g, l);
    var ms := Means(g, ids, left);
    var sorted := SortedMeans(g, l, left);
    IdsOfMeans(g, ids, left);
    MapOfPermutation(sorted, ms, (m: Mean) => m.id);
    AscendingNoDup(ids);
    NoDupOfPermutation(ids, Ids(sorted));
    forall k: NodeId ensures k in Ids(sorted) <==> k in ids {
      assert k in Ids(sorted) <==> k in multiset(Ids(sorted));
    }
  }

  /** Every sorted mean is a node of the layer with its own barycentre. */
  lemma SortedMeansValues(g: Graph, l: int, left: bool, i: nat)
    requires WellFormed(g) && i < |SortedMeans(g, l, left)|
    ensures SortedMeans(g, l, left)[i].id < |g.nodes|
    ensures g.nodes[SortedMeans(g, l, left)[i].id].x == l
    ensures SortedMeans(g, l, left)[i].value == MeanOf(g, SortedMeans(g, l, left)[i].id, left)
  {
    var ids := Layer(g, l);
    LayerIdsIn(g, l);
    var ms := Means(g, ids, left);
    var m := SortedMeans(g, l, left)[i];
    assert m in multiset(ms);
    var t :| 0 <= t < |ms| && ms[t] == m;
    assert ids[t] in ids;
  }

  /**
   * The rows the sweep hands out to the sorted means, in that order:
   * group them, then position the groups from row 1.
   */
  function SweepRows(ms: seq<Mean>, eps: real): (r: Result<seq<int>>)
    requires eps >= 0.0
    ensures r.Failure? <==> |ms| > 0 && Abs(ms[0].value - FloatMin) <= eps
    ensures r.Success? ==> |r.value| == |ms|
    ensures r.Success? ==> forall a, b | 0 <= a < b < |ms| :: r.value[a] < r.value[b]
    ensures r.Success? ==> forall a | 0 <= a < |ms| :: 1 <= r.value[a]
  {
    var grouped := GroupMeans(ms, eps, FloatMin, []);
    if grouped.Failure? then Failure(grouped.error)
    else
      GroupMeansKeepsOrder(ms, eps, FloatMin, []);
      Success(Positions(grouped.value, 1))
  }

  /**
   * `Tree.BarymetricSweep_Layer(layer, left)`: sort the layer by
   * barycentre, group nearly equal means, and give the groups consecutive
   * rows from row 1. The only failure is the missing dictionary key when
   * the smallest mean lies within `eps` of `float.MinValue`.
   */
  function BarymetricSweepLayer(g: Graph, l: int, left: bool, eps: real): (r: Result<Graph>)
    requires WellFormed(g) && eps >= 0.0
    ensures r.Failure? <==> |Layer(g, l)| > 0 && Abs(SortedMeans(g, l, left)[0].value - FloatMin) <= eps
  {
    var sorted := SortedMeans(g, l, left);
    var rows := SweepRows(sorted, eps);
    if rows.Failure? then Failure(rows.error)
    else
      SortedMeansIds(g, l, left);
      assert IdsIn(g, Ids(sorted)) by {
        assert forall t | 0 <= t < |sorted| :: Ids(sorted)[t] in Ids(sorted);
      }
      Success(AssignRows(g, Ids(sorted), rows.value))
  }

  /** A layer's sweep changes the rows of that layer's nodes only. */
  lemma SweepLayerFrame(g: Graph, l: int, left: bool, eps: real)
    requires WellFormed(g) && eps >= 0.0 && BarymetricSweepLayer(g, l, left, eps).Success?
    ensures LayerFrame(g, BarymetricSweepLayer(g, l, left, eps).value, l)
  {
    SortedMeansIds(g, l, left);
  }

  /** Where node `k` of the layer stands in the sorted means, and the row it gets from there. */
  lemma SweepRowIndex(g: Graph, l: int, left: bool, eps: real, k: NodeId) returns (t: nat)
    requires WellFormed(g) && eps >= 0.0 && BarymetricSweepLayer(g, l, left, eps).Success?
    requires k < |g.nodes| && g.nodes[k].x == l
    ensures t < |SortedMeans(g, l, left)| && SweepRows(SortedMeans(g, l, left), eps).Success?
    ensures Ids(SortedMeans(g, l, left))[t] == k
    ensures Y(BarymetricSweepLayer(g, l, left, eps).value.nodes[k]) == SweepRows(SortedMeans(g, l, left), eps).value[t]
  {
    SortedMeansIds(g, l, left);
    var order := Ids(SortedMeans(g, l, left));
    assert k in order;
    t :| 0 <= t < |order| && order[t] == k;
  }

  /**
   * After a layer's sweep every one of its nodes sits on row 1 or below,
   * and no two of them share a row.
   */
  lemma SweepLayerRowsDistinct(g: Graph, l: int, left: bool, eps: real)
    requires WellFormed(g) && eps >= 0.0 && BarymetricSweepLayer(g, l, left, eps).Success?
    ensures var h := BarymetricSweepLayer(g, l, left, eps).value;
            && (forall k | 0 <= k < |g.nodes| && g.nodes[k].x == l :: Y(h.nodes[k]) >= 1)
            && (forall a, b | 0 <= a < |g.nodes| && 0 <= b < |g.nodes| && a != b && g.nodes[a].x == l && g.nodes[b].x == l
                  :: Y(h.nodes[a]) != Y(h.nodes[b]))
  {
    var h := BarymetricSweepLayer(g, l, left, eps).value;
    forall k | 0 <= k < |g.nodes| && g.nodes[k].x == l
      ensures Y(h.nodes[k]) >= 1
    {
      var t := SweepRowIndex(g, l, left, eps, k);
    }
    forall a, b | 0 <= a < |g.nodes| && 0 <= b < |g.nodes| && a != b && g.nodes[a].x == l && g.nodes[b].x == l
      ensures Y(h.nodes[a]) != Y(h.nodes[b])
    {
      var ta := SweepRowIndex(g, l, left, eps, a);
      var tb := SweepRowIndex(g, l, left, eps, b);
    }
  }

  /** Nodes with a smaller barycentre end on a higher (smaller) row. */
  lemma SweepLayerFollowsMeans(g: Graph, l: int, left: bool, eps: real, a: NodeId, b: NodeId)
    requires WellFormed(g) && eps >= 0.0 && BarymetricSweepLayer(g, l, left, eps).Success?
    requires a < |g.nodes| && b < |g.nodes| && g.nodes[a].x == l && g.nodes[b].x == l
    requires MeanOf(g, a, left) < MeanOf(g, b, left)
    ensures Y(BarymetricSweepLayer(g, l, left, eps).value.nodes[a]) < Y(BarymetricSweepLayer(g, l, left, eps).value.nodes[b])
  {
    SortedMeansIds(g, l, left);
    SortedMeansAscend(g, l, left);
    var sorted := SortedMeans(g, l, left);
    var order := Ids(sorted);
    assert a in order && b in order;
    var ia :| 0 <= ia < |order| && order[ia] == a;
    var ib :| 0 <= ib < |order| && order[ib] == b;
    IdsAt(sorted, ia);
    IdsAt(sorted, ib);
    SortedMeansValues(g, l, left, ia);
    SortedMeansValues(g, l, left, ib);
    BeforeInSorted(sorted, ia, ib);
    var rows := SweepRows(sorted, eps).value;
    assert Y(BarymetricSweepLayer(g, l, left, eps).value.nodes[a]) == rows[ia];
    assert Y(BarymetricSweepLayer(g, l, left, eps).value.nodes[b]) == rows[ib];
  }

  /** In an ascending list a strictly smaller mean comes first. */
  lemma BeforeInSorted(ms: seq<Mean>, i: nat, j: nat)
    requires Sorting.Sorted(ByValue(), ms) && i < |ms| && j < |ms|
    requires ms[i].value < ms[j].value
    ensures i < j
  {
  }

  /** The nodes of layer `l` sit on distinct rows, all at row 1 or below. */
  predicate RowsDistinct(g: Graph, l: int)
  {
    (forall k | 0 <= k < |g.nodes| && g.nodes[k].x == l :: Y(g.nodes[k]) >= 1)
    && (forall a, b | 0 <= a < |g.nodes| && 0 <= b < |g.nodes| && a != b && g.nodes[a].x == l && g.nodes[b].x == l
          :: Y(g.nodes[a]) != Y(g.nodes[b]))
  }

  /** Moving the rows of one layer leaves every other layer as it was. */
  lemma OtherLayerKept(g: Graph, h: Graph, l: int, m: int)
    requires LayerFrame(g, h, l) && l != m && RowsDistinct(g, m)
    ensures RowsDistinct(h, m)
  {
  }

  /**
   * `Tree.BarymetricSweep(iteration)`: on even iterations sweep layers
   * `2 .. size` against their left neighbours, on odd iterations layers
   * `size - 1 .. 1` against their right neighbours. A failing layer ends
   * the sweep. On success every swept layer holds distinct rows from row 1,
   * only rows have moved, and `progress` says that `Tree.Crossings()`, the
   * total that leaves out the last layer's in-boundary, fell.
   */
  method BarymetricSweep(g: Graph, size: int, eps: real, iteration: nat) returns (r: Result<Graph>, progress: bool)
    requires WellFormed(g) && eps >= 0.0
    ensures r.Success? ==> RowFrame(g, r.value) && WellFormed(r.value)
    ensures r.Success? && iteration % 2 == 0 ==> forall m | 2 <= m <= size :: RowsDistinct(r.value, m)
    ensures r.Success? && iteration % 2 == 1 ==> forall m | 1 <= m <= size - 1 :: RowsDistinct(r.value, m)
    ensures progress <==> r.Success? && TotalCrossingsAsWritten(r.value, size) < TotalCrossingsAsWritten(g, size)
  {
    var before := TotalCrossingsAsWritten(g, size);
    if iteration % 2 == 0 {
      r := SweepLeft(g, size, eps);
    } else {
      r := SweepRight(g, size, eps);
    }
    progress := r.Success? && TotalCrossingsAsWritten(r.value, size) < before;
  }

  /** The even-iteration sweep: layers `2 .. size`, each against its left neighbours. */
  method SweepLeft(g: Graph, size: int, eps: real) returns (r: Result<Graph>)
    requires WellFormed(g) && eps >= 0.0
    ensures r.Success? ==> RowFrame(g, r.value) && WellFormed(r.value)
    ensures r.Success? ==> forall m | 2 <= m <= size :: RowsDistinct(r.value, m)
  {
    var h := g;
    var i := 2;
    while i <= size
      invariant RowFrame(g, h) && WellFormed(h)
      invariant 2 <= i && forall m | 2 <= m < i :: RowsDistinct(h, m)
    {
      var step := SweepLayerOf(g, h, i, true, eps);
      if step.Failure? {
        return Failure(step.error);
      }
      h := step.value;
      i := i + 1;
    }
    r := Success(h);
  }

  /** The odd-iteration sweep: layers `size - 1 .. 1`, each against its right neighbours. */
  method SweepRight(g: Graph, size: int, eps: real) returns (r: Result<Graph>)
    requires WellFormed(g) && eps >= 0.0
    ensures r.Success? ==> RowFrame(g, r.value) && WellFormed(r.value)
    ensures r.Success? ==> forall m | 1 <= m <= size - 1 :: RowsDistinct(r.value, m)
  {
    var h := g;
    var i := size - 1;
    while i > 0
      invariant RowFrame(g, h) && WellFormed(h)
      invariant forall m | i < m <= size - 1 :: RowsDistinct(h, m)
    {
      var step := SweepLayerOf(g, h, i, false, eps);
      if step.Failure? {
        return Failure(step.error);
      }
      h := step.value;
      i := i - 1;
    }
    r := Success(h);
  }

  /**
   * One layer of a barycentric sweep on `h`, a row-rearrangement of `g`:
   * the swept layer ends with distinct rows and every other layer that had
   * them keeps them.
   */
  method SweepLayerOf(g: Graph, h: Graph, l: int, left: bool, eps: real) returns (r: Result<Graph>)
    requires RowFrame(g, h) && WellFormed(h) && eps >= 0.0
    ensures r == BarymetricSweepLayer(h, l, left, eps)
    ensures r.Success? ==> RowFrame(g, r.value) && WellFormed(r.value) && RowsDistinct(r.value, l)
    ensures r.Success? ==> forall m | m != l && RowsDistinct(h, m) :: RowsDistinct(r.value, m)
  {
    r := BarymetricSweepLayer(h, l, left, eps);
    if r.Success? {
      SweepLayerFrame(h, l, left, eps);
      SweepLayerRowsDistinct(h, l, left, eps);
      assert forall e | e in r.value.edges :: e in h.edges;
      forall m | m != l && RowsDistinct(h, m) ensures RowsDistinct(r.value, m) {
        OtherLayerKept(h, r.value, l, m);
      }
    }
  }
}

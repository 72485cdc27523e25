/**
 * Tech-level layer assignment (`Tree.HorizontalPositionsByTechLevels`):
 * repeated sweeps over the relevant tech levels in ascending order, each
 * level's nodes placed right of every earlier level, until a sweep changes
 * nothing or 50 sweeps have run; then the layer range of every tech level.
 */
module TechLayers {
  import opened Wrappers
  import opened Seqs
  import opened ResearchDefs
  import opened Graph
  import opened Layering
  import Builder

  /** Some record of the database has tech level `t`. */
  predicate HasLevel(db: Db, t: int)
  {
    exists r | 0 <= r < |db| :: db[r].techLevel == t
  }

  predicate Ascending(ts: seq<TechLevel>)
  {
    forall a, b | 0 <= a < b < |ts| :: ts[a] < ts[b]
  }

  /** The tech levels `t..` that some record has, ascending. */
  function LevelsFrom(db: Db, t: nat): (ts: seq<TechLevel>)
    requires t <= TechLevelCount
    ensures forall u: TechLevel :: u in ts <==> t <= u && HasLevel(db, u)
    ensures forall i | 0 <= i < |ts| :: t <= ts[i]
    ensures Ascending(ts)
    decreases TechLevelCount - t
  {
    if t == TechLevelCount then []
    else
      var rest := LevelsFrom(db, t + 1);
      if HasLevel(db, t) then [t as TechLevel] + rest else rest
  }

  /** `RelevantTechLevels`: every tech level some record has, ascending. */
  function RelevantTechLevels(db: Db): (ts: seq<TechLevel>)
    ensures forall u: TechLevel :: u in ts <==> HasLevel(db, u)
    ensures Ascending(ts)
  {
    LevelsFrom(db, 0)
  }

  /** A research node whose record is in the database. */
  predicate InDb(db: Db, n: Node)
  {
    n.kind.Research? && n.kind.rec < |db|
  }

  function Tech(db: Db, n: Node): TechLevel
    requires InDb(db, n)
  {
    db[n.kind.rec].techLevel
  }

  predicate OfLevel(db: Db, n: Node, t: int)
  {
    InDb(db, n) && Tech(db, n) == t
  }

  /** The research nodes of tech level `t`, in node order. */
  function LevelNodes(db: Db, g: Graph, t: int): (ids: seq<NodeId>)
    ensures forall k: NodeId :: k in ids <==> k < |g.nodes| && OfLevel(db, g.nodes[k], t)
    ensures forall j | 0 <= j < |ids| :: ids[j] < |g.nodes|
    ensures forall a, b | 0 <= a < b < |ids| :: ids[a] < ids[b]
  {
    var ids := NodesFrom(g.nodes, (n: Node) => OfLevel(db, n, t), 0);
    assert forall j | 0 <= j < |ids| :: ids[j] in ids;
    ids
  }

  /** Research nodes of a lower tech level among `ts` sit on lower layers. */
  ghost predicate LevelOrdered(db: Db, g: Graph, ts: seq<TechLevel>)
  {
    forall u: NodeId, v: NodeId | u < |g.nodes| && v < |g.nodes| && InDb(db, g.nodes[u]) && InDb(db, g.nodes[v]) ::
      Tech(db, g.nodes[u]) in ts && Tech(db, g.nodes[v]) in ts && Tech(db, g.nodes[u]) < Tech(db, g.nodes[v]) ==>
        g.nodes[u].x < g.nodes[v].x
  }

  /** Every edge into node `k` comes from a lower layer. */
  ghost predicate EdgesRise(g: Graph, k: NodeId)
    requires WellFormed(g) && k < |g.nodes|
  {
    forall p: NodeId | Edge(p, k) in g.edges :: g.nodes[p].x < g.nodes[k].x
  }

  // ---------------------------------------------------------------------------
  // One tech level of one sweep

  /** Some node's layer differs between `g0` and `g`. */
  ghost predicate AnyMoved(g0: Graph, g: Graph)
    requires |g.nodes| == |g0.nodes|
  {
    exists k: NodeId | k < |g.nodes| :: g.nodes[k].x != g0.nodes[k].x
  }

  /** With the same shape, the graphs differ exactly when some layer moved. */
  lemma AnyMovedIffChanged(g0: Graph, g: Graph)
    requires SameShape(g0, g)
    ensures AnyMoved(g0, g) <==> g != g0
  {
    if !AnyMoved(g0, g) {
      assert g.nodes == g0.nodes by {
        forall k | 0 <= k < |g.nodes| ensures g.nodes[k] == g0.nodes[k] {
          assert g.nodes[k].x == g0.nodes[k].x;
        }
      }
    }
  }

  ghost predicate SetLevelInv(g0: Graph, g: Graph, ids: seq<NodeId>, i: nat, min: int, changed: bool)
    requires i <= |ids|
  {
    && WellFormed(g0) && SameShape(g0, g) && WellFormed(g)
    && (forall j | 0 <= j < |ids| :: ids[j] < |g0.nodes|)
    && (forall k: NodeId | k < |g.nodes| && k !in ids[..i] :: g.nodes[k] == g0.nodes[k])
    && (forall j | 0 <= j < i :: g.nodes[ids[j]].x >= min)
    && (changed <==> AnyMoved(g0, g))
    && (!changed ==> forall j | 0 <= j < i :: EdgesRise(g, ids[j]))
  }

  lemma SetLevelFrame(g0: Graph, g: Graph, ids: seq<NodeId>, i: nat, min: int, changed: bool)
    requires i < |ids| && forall a, b | 0 <= a < b < |ids| :: ids[a] < ids[b]
    requires SetLevelInv(g0, g, ids, i, min, changed)
    ensures var h := SetDepth(g, ids[i], min);
            && (forall k: NodeId | k < |h.nodes| && k !in ids[..i + 1] :: h.nodes[k] == g0.nodes[k])
            && (forall j | 0 <= j <= i :: h.nodes[ids[j]].x >= min)
  {
    var k := ids[i];
    var h := SetDepth(g, k, min);
    assert ids[..i + 1] == ids[..i] + [k];
    forall j | 0 <= j < i ensures h.nodes[ids[j]] == g.nodes[ids[j]] {
      assert ids[j] < k;
    }
  }

  lemma SetLevelMoves(g0: Graph, g: Graph, ids: seq<NodeId>, i: nat, min: int, changed: bool)
    requires i < |ids| && forall a, b | 0 <= a < b < |ids| :: ids[a] < ids[b]
    requires SetLevelInv(g0, g, ids, i, min, changed)
    ensures var h := SetDepth(g, ids[i], min);
            (Moved(g, h, ids[i]) || changed) <==> AnyMoved(g0, h)
  {
    var k := ids[i];
    var h := SetDepth(g, k, min);
    assert k !in ids[..i] by {
      forall j | 0 <= j < i ensures ids[j] != k { }
    }
    assert g.nodes[k] == g0.nodes[k];
    if AnyMoved(g0, h) {
      var m: NodeId :| m < |h.nodes| && h.nodes[m].x != g0.nodes[m].x;
      if m != k {
        assert g.nodes[m].x != g0.nodes[m].x;
      }
    }
    if changed {
      var m: NodeId :| m < |g.nodes| && g.nodes[m].x != g0.nodes[m].x;
      assert m != k;
      assert h.nodes[m].x != g0.nodes[m].x;
    }
    if Moved(g, h, k) {
      assert h.nodes[k].x != g0.nodes[k].x;
    }
  }

  lemma SetLevelRises(g0: Graph, g: Graph, ids: seq<NodeId>, i: nat, min: int, changed: bool)
    requires i < |ids| && SetLevelInv(g0, g, ids, i, min, changed)
    requires var h := SetDepth(g, ids[i], min); !Moved(g, h, ids[i]) && !changed
    ensures var h := SetDepth(g, ids[i], min);
            h == g && forall j | 0 <= j <= i :: EdgesRise(h, ids[j])
  {
    var h := SetDepth(g, ids[i], min);
    assert h.nodes == g.nodes by {
      forall k | 0 <= k < |g.nodes| ensures h.nodes[k] == g.nodes[k] {
        if k == ids[i] {
          assert h.nodes[k].x == g.nodes[k].x;
        }
      }
    }
  }

  /**
   * The inner loop of a sweep: `SetDepth(min)` on every node of one tech
   * level, in node order. It reports a change exactly when some layer moved;
   * without a change every edge into these nodes already rises.
   */
  method SetLevel(g0: Graph, ids: seq<NodeId>, min: int) returns (g: Graph, changed: bool)
    requires WellFormed(g0)
    requires forall j | 0 <= j < |ids| :: ids[j] < |g0.nodes|
    requires forall a, b | 0 <= a < b < |ids| :: ids[a] < ids[b]
    ensures SameShape(g0, g) && WellFormed(g)
    ensures forall k: NodeId | k < |g.nodes| && k !in ids :: g.nodes[k] == g0.nodes[k]
    ensures forall j | 0 <= j < |ids| :: g.nodes[ids[j]].x >= min
    ensures changed <==> g != g0
    ensures !changed ==> forall j | 0 <= j < |ids| :: EdgesRise(g, ids[j])
  {
    g, changed := g0, false;
    var i := 0;
    while i < |ids|
      invariant i <= |ids|
      invariant SetLevelInv(g0, g, ids, i, min, changed)
    {
      SetLevelFrame(g0, g, ids, i, min, changed);
      SetLevelMoves(g0, g, ids, i, min, changed);
      var h := SetDepth(g, ids[i], min);
      if !Moved(g, h, ids[i]) && !changed {
        SetLevelRises(g0, g, ids, i, min, changed);
      }
      changed := Moved(g, h, ids[i]) || changed;
      g := h;
      i := i + 1;
    }
    assert ids[..i] == ids;
    AnyMovedIffChanged(g0, g);
  }

  // ---------------------------------------------------------------------------
  // One sweep

  /** A research node whose tech level is among the levels `done`. */
  predicate Done(db: Db, n: Node, done: seq<TechLevel>)
  {
    InDb(db, n) && Tech(db, n) in done
  }

  /** What a sweep has established after the levels `done`, with running minimum `min`. */
  ghost predicate PassInv(db: Db, g0: Graph, g: Graph, done: seq<TechLevel>, min: int, changed: bool)
  {
    && WellFormed(g0) && SameShape(g0, g) && WellFormed(g) && min >= 1
    && (forall k: NodeId | k < |g.nodes| && Done(db, g.nodes[k], done) :: 1 <= g.nodes[k].x < min)
    && (forall k: NodeId | k < |g.nodes| && !Done(db, g.nodes[k], done) :: g.nodes[k] == g0.nodes[k])
    && LevelOrdered(db, g, done)
    && (changed <==> AnyMoved(g0, g))
    && (!changed ==> forall k: NodeId | k < |g.nodes| && Done(db, g.nodes[k], done) :: EdgesRise(g, k))
  }

  /** What the inner loop did for tech level `t`, in terms of the node kinds. */
  ghost predicate LevelSet(db: Db, g: Graph, h: Graph, t: TechLevel, min: int, min': int, c: bool)
  {
    && SameShape(g, h) && WellFormed(h) && min <= min'
    && (forall k: NodeId | k < |h.nodes| && !OfLevel(db, g.nodes[k], t) :: h.nodes[k] == g.nodes[k])
    && (forall k: NodeId | k < |h.nodes| && OfLevel(db, g.nodes[k], t) :: min <= h.nodes[k].x < min')
    && (c <==> AnyMoved(g, h))
    && (!c ==> forall k: NodeId | k < |h.nodes| && OfLevel(db, g.nodes[k], t) :: EdgesRise(h, k))
  }

  lemma PassStepBounds(db: Db, g0: Graph, g: Graph, done: seq<TechLevel>, min: int, changed: bool,
                       h: Graph, t: TechLevel, min': int, c: bool)
    requires PassInv(db, g0, g, done, min, changed) && LevelSet(db, g, h, t, min, min', c)
    requires forall d | d in done :: d < t
    ensures forall k: NodeId | k < |h.nodes| && Done(db, h.nodes[k], done + [t]) :: 1 <= h.nodes[k].x < min'
    ensures LevelOrdered(db, h, done + [t])
  {
    forall k: NodeId | k < |h.nodes| && Done(db, h.nodes[k], done) ensures h.nodes[k] == g.nodes[k] {
      assert h.nodes[k].kind == g.nodes[k].kind;
    }
  }

  lemma PassStepFrame(db: Db, g0: Graph, g: Graph, done: seq<TechLevel>, min: int, changed: bool,
                      h: Graph, t: TechLevel, min': int, c: bool)
    requires PassInv(db, g0, g, done, min, changed) && LevelSet(db, g, h, t, min, min', c)
    ensures forall k: NodeId | k < |h.nodes| && !Done(db, h.nodes[k], done + [t]) :: h.nodes[k] == g0.nodes[k]
  {
    forall k: NodeId | k < |h.nodes| && !Done(db, h.nodes[k], done + [t]) ensures h.nodes[k] == g0.nodes[k] {
      assert h.nodes[k].kind == g.nodes[k].kind;
    }
  }

  lemma PassStepMoves(db: Db, g0: Graph, g: Graph, done: seq<TechLevel>, min: int, changed: bool,
                      h: Graph, t: TechLevel, min': int, c: bool)
    requires PassInv(db, g0, g, done, min, changed) && LevelSet(db, g, h, t, min, min', c)
    requires t !in done
    ensures (c || changed) <==> AnyMoved(g0, h)
  {
    if AnyMoved(g0, h) {
      var m: NodeId :| m < |h.nodes| && h.nodes[m].x != g0.nodes[m].x;
      if g.nodes[m].x == g0.nodes[m].x {
        assert h.nodes[m].x != g.nodes[m].x;
      }
    }
    if c {
      var m: NodeId :| m < |h.nodes| && h.nodes[m].x != g.nodes[m].x;
      assert OfLevel(db, g.nodes[m], t);
      assert !Done(db, g.nodes[m], done);
      assert h.nodes[m].x != g0.nodes[m].x;
    }
    if changed {
      var m: NodeId :| m < |g.nodes| && g.nodes[m].x != g0.nodes[m].x;
      assert Done(db, g.nodes[m], done);
      assert !OfLevel(db, g.nodes[m], t);
      assert h.nodes[m].x != g0.nodes[m].x;
    }
  }

  lemma PassStepRises(db: Db, g0: Graph, g: Graph, done: seq<TechLevel>, min: int, changed: bool,
                      h: Graph, t: TechLevel, min': int, c: bool)
    requires PassInv(db, g0, g, done, min, changed) && LevelSet(db, g, h, t, min, min', c)
    requires !c && !changed
    ensures forall k: NodeId | k < |h.nodes| && Done(db, h.nodes[k], done + [t]) :: EdgesRise(h, k)
  {
    AnyMovedIffChanged(g, h);
    forall k: NodeId | k < |h.nodes| && Done(db, h.nodes[k], done + [t]) ensures EdgesRise(h, k) {
      if !OfLevel(db, g.nodes[k], t) {
        assert Done(db, g.nodes[k], done);
      }
    }
  }

  lemma PassStep(db: Db, g0: Graph, g: Graph, done: seq<TechLevel>, min: int, changed: bool,
                 h: Graph, t: TechLevel, min': int, c: bool)
    requires PassInv(db, g0, g, done, min, changed) && LevelSet(db, g, h, t, min, min', c)
    requires forall d | d in done :: d < t
    ensures PassInv(db, g0, h, done + [t], min', c || changed)
  {
    PassStepBounds(db, g0, g, done, min, changed, h, t, min', c);
    PassStepFrame(db, g0, g, done, min, changed, h, t, min', c);
    PassStepMoves(db, g0, g, done, min, changed, h, t, min', c);
    if !c && !changed {
      PassStepRises(db, g0, g, done, min, changed, h, t, min', c);
    }
  }

  /** A level without nodes leaves the graph and the minimum as they are. */
  lemma EmptyLevelSet(db: Db, g: Graph, t: TechLevel, min: int)
    requires WellFormed(g) && |LevelNodes(db, g, t)| == 0
    ensures LevelSet(db, g, g, t, min, min, false)
  {
    forall k: NodeId | k < |g.nodes| ensures !OfLevel(db, g.nodes[k], t) {
      assert k !in LevelNodes(db, g, t);
    }
  }

  /** The inner loop's results, restated over node kinds. */
  lemma LevelSetFrom(db: Db, g: Graph, h: Graph, t: TechLevel, min: int, c: bool)
    requires WellFormed(g)
    requires var ids := LevelNodes(db, g, t);
      && |ids| > 0
      && SameShape(g, h) && WellFormed(h)
      && (forall k: NodeId | k < |h.nodes| && k !in ids :: h.nodes[k] == g.nodes[k])
      && (forall j | 0 <= j < |ids| :: h.nodes[ids[j]].x >= min)
      && (c <==> h != g)
      && (!c ==> forall j | 0 <= j < |ids| :: EdgesRise(h, ids[j]))
    ensures LevelSet(db, g, h, t, min, MaxX(h, LevelNodes(db, g, t)) + 1, c)
  {
    var ids := LevelNodes(db, g, t);
    AnyMovedIffChanged(g, h);
    assert h.nodes[ids[0]].x >= min;
    forall k: NodeId | k < |h.nodes| && OfLevel(db, g.nodes[k], t)
      ensures min <= h.nodes[k].x < MaxX(h, ids) + 1
      ensures !c ==> EdgesRise(h, k)
    {
      var j :| 0 <= j < |ids| && ids[j] == k;
    }
  }

  /** One tech level of a sweep: `SetDepth(min)` on its nodes, then the next minimum. */
  method PassLevel(db: Db, ghost g0: Graph, g: Graph, ghost done: seq<TechLevel>, t: TechLevel, min: int, changed: bool)
    returns (h: Graph, min': int, changed': bool)
    requires PassInv(db, g0, g, done, min, changed) && forall d | d in done :: d < t
    ensures PassInv(db, g0, h, done + [t], min', changed')
  {
    var ids := LevelNodes(db, g, t);
    if |ids| == 0 {
      EmptyLevelSet(db, g, t, min);
      PassStep(db, g0, g, done, min, changed, g, t, min, false);
      return g, min, changed;
    }
    var c;
    h, c := SetLevel(g, ids, min);
    LevelSetFrom(db, g, h, t, min, c);
    min' := MaxX(h, ids) + 1;
    PassStep(db, g0, g, done, min, changed, h, t, min', c);
    changed' := c || changed;
  }

  lemma PassEnd(db: Db, g0: Graph, g: Graph, ts: seq<TechLevel>, min: int, changed: bool)
    requires PassInv(db, g0, g, ts, min, changed)
    ensures SameShape(g0, g) && WellFormed(g)
    ensures forall k: NodeId | k < |g.nodes| && Done(db, g.nodes[k], ts) :: g.nodes[k].x >= 1
    ensures forall k: NodeId | k < |g.nodes| && !Done(db, g.nodes[k], ts) :: g.nodes[k] == g0.nodes[k]
    ensures LevelOrdered(db, g, ts)
    ensures changed <==> g != g0
    ensures !changed ==> forall k: NodeId | k < |g.nodes| && Done(db, g.nodes[k], ts) :: EdgesRise(g, k)
  {
    AnyMovedIffChanged(g0, g);
  }

  /**
   * One sweep of the do-while loop: the tech levels in ascending order, each
   * level's nodes moved to at least one past the previous level's rightmost
   * node. Levels without a node are skipped.
   */
  method TechPass(db: Db, g0: Graph, ts: seq<TechLevel>) returns (g: Graph, changed: bool)
    requires WellFormed(g0) && Ascending(ts)
    ensures SameShape(g0, g) && WellFormed(g)
    ensures forall k: NodeId | k < |g.nodes| && Done(db, g.nodes[k], ts) :: g.nodes[k].x >= 1
    ensures forall k: NodeId | k < |g.nodes| && !Done(db, g.nodes[k], ts) :: g.nodes[k] == g0.nodes[k]
    ensures LevelOrdered(db, g, ts)
    ensures changed <==> g != g0
    ensures !changed ==> forall k: NodeId | k < |g.nodes| && Done(db, g.nodes[k], ts) :: EdgesRise(g, k)
  {
    g, changed := g0, false;
    var min := 1;
    var i := 0;
    while i < |ts|
      invariant i <= |ts|
      invariant PassInv(db, g0, g, ts[..i], min, changed)
    {
      assert ts[..i + 1] == ts[..i] + [ts[i]];
      g, min, changed := PassLevel(db, g0, g, ts[..i], ts[i], min, changed);
      i := i + 1;
    }
    assert ts[..i] == ts;
    PassEnd(db, g0, g, ts, min, changed);
  }

  // ---------------------------------------------------------------------------
  // The sweeps and the tech-level bounds

  /** Every research node of the database has a relevant tech level. */
  lemma AllLevelsRelevant(db: Db, n: Node)
    requires InDb(db, n)
    ensures Done(db, n, RelevantTechLevels(db))
  {
    assert db[n.kind.rec].techLevel == Tech(db, n);
  }

  /**
   * `HorizontalPositionsByTechLevels`, layer part: sweeps until one changes
   * nothing, at most 50. Whatever the outcome, every research node ends on
   * layer 1 or beyond and strictly right of every node of a lower tech
   * level; when the sweeps settle, every edge into a research node rises.
   */
  method TechLevelSweeps(db: Db, g0: Graph) returns (g: Graph, sweeps: nat, settled: bool)
    requires WellFormed(g0)
    ensures SameShape(g0, g) && WellFormed(g)
    ensures 1 <= sweeps <= 50 && (!settled ==> sweeps == 50)
    ensures forall k: NodeId | k < |g.nodes| && !InDb(db, g.nodes[k]) :: g.nodes[k] == g0.nodes[k]
    ensures forall k: NodeId | k < |g.nodes| && InDb(db, g.nodes[k]) :: g.nodes[k].x >= 1
    ensures TechOrdered(db, g)
    ensures settled ==> forall k: NodeId | k < |g.nodes| && InDb(db, g.nodes[k]) :: EdgesRise(g, k)
  {
    var ts := RelevantTechLevels(db);
    var changed;
    g, changed := TechPass(db, g0, ts);
    sweeps := 1;
    while changed && sweeps < 50
      invariant 1 <= sweeps <= 50
      invariant SameShape(g0, g) && WellFormed(g)
      invariant forall k: NodeId | k < |g.nodes| && !Done(db, g.nodes[k], ts) :: g.nodes[k] == g0.nodes[k]
      invariant forall k: NodeId | k < |g.nodes| && Done(db, g.nodes[k], ts) :: g.nodes[k].x >= 1
      invariant LevelOrdered(db, g, ts)
      invariant !changed ==> forall k: NodeId | k < |g.nodes| && Done(db, g.nodes[k], ts) :: EdgesRise(g, k)
      decreases 50 - sweeps
    {
      ghost var before := g;
      g, changed := TechPass(db, g, ts);
      forall k: NodeId | k < |g.nodes| && !Done(db, g.nodes[k], ts) ensures g.nodes[k] == g0.nodes[k] {
        assert g.nodes[k].kind == before.nodes[k].kind;
      }
      sweeps := sweeps + 1;
    }
    settled := !changed;
    forall k: NodeId | k < |g.nodes| && InDb(db, g.nodes[k]) ensures Done(db, g.nodes[k], ts) {
      AllLevelsRelevant(db, g.nodes[k]);
    }
  }

  /** `IntRange(min, max)`. */
  datatype IntRange = IntRange(min: int, max: int)

  /** One left of the level's leftmost node up to its rightmost node. */
  function RangeOf(db: Db, g: Graph, t: TechLevel): (r: IntRange)
    requires |LevelNodes(db, g, t)| > 0
    ensures forall k: NodeId | k < |g.nodes| && OfLevel(db, g.nodes[k], t) :: r.min < g.nodes[k].x <= r.max
    ensures exists k: NodeId | k < |g.nodes| && OfLevel(db, g.nodes[k], t) :: g.nodes[k].x == r.max
    ensures exists k: NodeId | k < |g.nodes| && OfLevel(db, g.nodes[k], t) :: g.nodes[k].x == r.min + 1
  {
    var ids := LevelNodes(db, g, t);
    var r := IntRange(MinX(g, ids) - 1, MaxX(g, ids));
    assert forall k: NodeId | k < |g.nodes| && OfLevel(db, g.nodes[k], t) :: r.min < g.nodes[k].x <= r.max by {
      forall k: NodeId | k < |g.nodes| && OfLevel(db, g.nodes[k], t) ensures r.min < g.nodes[k].x <= r.max {
        assert k in ids;
        var j :| 0 <= j < |ids| && ids[j] == k;
      }
    }
    var j :| 0 <= j < |ids| && g.nodes[ids[j]].x == MaxX(g, ids);
    assert ids[j] in ids;
    var j' :| 0 <= j' < |ids| && g.nodes[ids[j']].x == MinX(g, ids);
    assert ids[j'] in ids;
    r
  }

  /** The layer range of every level of `ts` that has a node. */
  function BoundsOf(db: Db, g: Graph, ts: seq<TechLevel>): (b: map<TechLevel, IntRange>)
    ensures forall t: TechLevel :: t in b <==> t in ts && |LevelNodes(db, g, t)| > 0
    ensures forall t | t in b :: |LevelNodes(db, g, t)| > 0 && b[t] == RangeOf(db, g, t)
  {
    map t | t in ts && |LevelNodes(db, g, t)| > 0 :: RangeOf(db, g, t)
  }

  /** The stored `TechLevelBounds`: every relevant tech level that has a node. */
  function TechLevelBounds(db: Db, g: Graph): (b: map<TechLevel, IntRange>)
    ensures forall t: TechLevel :: t in b <==> exists k: NodeId | k < |g.nodes| :: OfLevel(db, g.nodes[k], t)
  {
    var b := BoundsOf(db, g, RelevantTechLevels(db));
    forall t: TechLevel ensures t in b <==> exists k: NodeId | k < |g.nodes| :: OfLevel(db, g.nodes[k], t) {
      if exists k: NodeId | k < |g.nodes| :: OfLevel(db, g.nodes[k], t) {
        var k: NodeId :| k < |g.nodes| && OfLevel(db, g.nodes[k], t);
        assert k in LevelNodes(db, g, t);
        AllLevelsRelevant(db, g.nodes[k]);
      }
      if t in b {
        var ids := LevelNodes(db, g, t);
        assert ids[0] in ids;
      }
    }
    b
  }

  /** Research nodes of a lower tech level sit on lower layers. */
  ghost predicate TechOrdered(db: Db, g: Graph)
  {
    forall u: NodeId, v: NodeId | u < |g.nodes| && v < |g.nodes| && InDb(db, g.nodes[u]) && InDb(db, g.nodes[v]) ::
      Tech(db, g.nodes[u]) < Tech(db, g.nodes[v]) ==> g.nodes[u].x < g.nodes[v].x
  }

  /**
   * Each range brackets its level's nodes, and when the nodes are ordered by
   * tech level a lower level's range ends where a higher level's range may
   * start at the earliest.
   */
  lemma BoundsOrdered(db: Db, g: Graph, t1: TechLevel, t2: TechLevel)
    requires TechOrdered(db, g)
    requires t1 in TechLevelBounds(db, g) && t2 in TechLevelBounds(db, g) && t1 < t2
    ensures TechLevelBounds(db, g)[t1].min < TechLevelBounds(db, g)[t1].max
    ensures TechLevelBounds(db, g)[t1].max <= TechLevelBounds(db, g)[t2].min
  {
    var b := TechLevelBounds(db, g);
    assert b[t1] == RangeOf(db, g, t1) && b[t2] == RangeOf(db, g, t2);
    RangesOrdered(db, g, t1, t2);
  }

  lemma RangesOrdered(db: Db, g: Graph, t1: TechLevel, t2: TechLevel)
    requires TechOrdered(db, g) && t1 < t2
    requires |LevelNodes(db, g, t1)| > 0 && |LevelNodes(db, g, t2)| > 0
    ensures RangeOf(db, g, t1).min < RangeOf(db, g, t1).max <= RangeOf(db, g, t2).min
  {
    var r1, r2 := RangeOf(db, g, t1), RangeOf(db, g, t2);
    var u: NodeId :| u < |g.nodes| && OfLevel(db, g.nodes[u], t1) && g.nodes[u].x == r1.max;
    var v: NodeId :| v < |g.nodes| && OfLevel(db, g.nodes[v], t2) && g.nodes[v].x == r2.min + 1;
    assert g.nodes[u].x < g.nodes[v].x;
  }

  /** Each stored range brackets the layers of its level's nodes. */
  lemma BoundsBracket(db: Db, g: Graph, t: TechLevel, k: NodeId)
    requires t in TechLevelBounds(db, g) && k < |g.nodes| && OfLevel(db, g.nodes[k], t)
    ensures TechLevelBounds(db, g)[t].min < g.nodes[k].x <= TechLevelBounds(db, g)[t].max
  {
    assert TechLevelBounds(db, g)[t] == RangeOf(db, g, t);
  }

  /** Every relevant tech level has a node. */
  predicate AllLevelsPlaced(db: Db, g: Graph)
  {
    var ts := RelevantTechLevels(db);
    forall i | 0 <= i < |ts| :: |LevelNodes(db, g, ts[i])| > 0
  }

  lemma AllLevelsPlacedIff(db: Db, g: Graph)
    ensures AllLevelsPlaced(db, g) <==>
            forall t: TechLevel | HasLevel(db, t) :: exists k: NodeId | k < |g.nodes| :: OfLevel(db, g.nodes[k], t)
  {
    var ts := RelevantTechLevels(db);
    if AllLevelsPlaced(db, g) {
      forall t: TechLevel | HasLevel(db, t) ensures exists k: NodeId | k < |g.nodes| :: OfLevel(db, g.nodes[k], t) {
        var i :| 0 <= i < |ts| && ts[i] == t;
        var ids := LevelNodes(db, g, t);
        assert ids[0] in ids;
      }
    } else {
      var i :| 0 <= i < |ts| && |LevelNodes(db, g, ts[i])| == 0;
      assert ts[i] in ts;
      forall k: NodeId | k < |g.nodes| ensures !OfLevel(db, g.nodes[k], ts[i]) {
        assert k !in LevelNodes(db, g, ts[i]);
      }
    }
  }

  /**
   * The bounds loop as written: `Min` over the nodes of every relevant tech
   * level, which throws when a relevant level has no node — when all records
   * of that level are hidden or locked.
   */
  function TechLevelBoundsAsWritten(db: Db, g: Graph): (r: Result<map<TechLevel, IntRange>>)
    ensures r.Failure? <==> exists t: TechLevel :: HasLevel(db, t) && forall k: NodeId | k < |g.nodes| :: !OfLevel(db, g.nodes[k], t)
    ensures r.Success? ==> r.value == TechLevelBounds(db, g)
  {
    AllLevelsPlacedIff(db, g);
    if AllLevelsPlaced(db, g) then Success(TechLevelBounds(db, g))
    else Failure("Sequence contains no elements")
  }

  /**
   * A hidden record is enough: its tech level is relevant, no node has it,
   * and the bounds loop as written fails where the skipping one does not.
   */
  lemma HiddenLevelBreaksBounds()
    ensures var db := [Record([0], 3, None, false, "a", "", 0.0)];
            var g := Graph([], []);
            && Builder.Populated(db, g)
            && TechLevelBoundsAsWritten(db, g).Failure?
            && TechLevelBounds(db, g) == map[]
  {
    var db := [Record([0], 3, None, false, "a", "", 0.0)];
    var g := Graph([], []);
    assert Builder.Hidden(db, 0);
    assert HasLevel(db, 3);
  }

  /**
   * `HorizontalPositionsByTechLevels`: the sweeps, then the layer range of
   * every tech level that has a node, ordered left to right by tech level.
   */
  method HorizontalPositionsByTechLevels(db: Db, g0: Graph)
    returns (g: Graph, sweeps: nat, settled: bool, bounds: map<TechLevel, IntRange>)
    requires WellFormed(g0)
    ensures SameShape(g0, g) && 1 <= sweeps <= 50
    ensures forall k: NodeId | k < |g.nodes| && InDb(db, g.nodes[k]) :: g.nodes[k].x >= 1
    ensures settled ==> forall k: NodeId | k < |g.nodes| && InDb(db, g.nodes[k]) :: EdgesRise(g, k)
    ensures forall t: TechLevel :: t in bounds <==> exists k: NodeId | k < |g.nodes| :: OfLevel(db, g.nodes[k], t)
    ensures forall t, k: NodeId | t in bounds && k < |g.nodes| && OfLevel(db, g.nodes[k], t) ::
              bounds[t].min < g.nodes[k].x <= bounds[t].max
    ensures forall t1, t2 | t1 in bounds && t2 in bounds && t1 < t2 :: bounds[t1].max <= bounds[t2].min
  {
    g, sweeps, settled := TechLevelSweeps(db, g0);
    bounds := TechLevelBounds(db, g);
    forall t, k: NodeId | t in bounds && k < |g.nodes| && OfLevel(db, g.nodes[k], t)
      ensures bounds[t].min < g.nodes[k].x <= bounds[t].max
    {
      BoundsBracket(db, g, t, k);
    }
    forall t1, t2 | t1 in bounds && t2 in bounds && t1 < t2 ensures bounds[t1].max <= bounds[t2].min {
      BoundsOrdered(db, g, t1, t2);
    }
  }
}

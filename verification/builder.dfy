/**
 * Building the layout graph from the research database: which records get a
 * node (`PopulateNodes`), the node lookup for a record, and one edge per
 * visible prerequisite (`CreateEdges`).
 */
module Builder {
  import opened Wrappers
  import opened Seqs
  import opened ResearchDefs
  import opened Graph

  /** A hidden record lists itself as a prerequisite. */
  predicate Hidden(db: Db, p: Id)
  {
    p < |db| && p in db[p].prereqs
  }

  /** A locked record reaches a hidden record through its prerequisites. */
  ghost predicate Locked(db: Db, p: Id)
  {
    exists y: Id :: Reaches(db, p, y) && Hidden(db, y)
  }

  /** The records that get a node. */
  ghost predicate Visible(db: Db, p: Id)
  {
    p < |db| && !Hidden(db, p) && !Locked(db, p)
  }

  /** Every prerequisite of a visible record is itself visible. */
  lemma VisiblePrereqVisible(db: Db, r: Id, q: Id)
    requires ValidDb(db) && Visible(db, r) && q in db[r].prereqs
    ensures q != r && Visible(db, q)
  {
    assert Step(db, r, q);
    ReachesDirect(db, r, q);
    forall y: Id | Reaches(db, q, y) && Hidden(db, y) ensures false {
      ReachesPrepend(db, r, q, y);
    }
  }

  /** The record a node stands for, or -1 for a dummy. */
  function RecOf(n: Node): int
  {
    match n.kind
    case Research(r) => r
    case Dummy => -1
  }

  /** A fresh `ResearchNode`: layer 0, one row below the record's vanilla `researchViewY`. */
  function NewResearchNode(db: Db, i: Id): (n: Node)
    requires i < |db|
    ensures n.kind == Research(i) && n.x == 0 && n.yf == db[i].viewY + 1.0
  {
    Node(Research(i), 0, db[i].viewY + 1.0)
  }

  predicate HasNode(nodes: seq<Node>, i: Id)
  {
    exists k | 0 <= k < |nodes| :: nodes[k].kind == Research(i)
  }

  /**
   * What `PopulateNodes` leaves behind: one fresh node per visible record, in
   * database order, and no edges.
   */
  ghost predicate Populated(db: Db, g: Graph)
  {
    && g.edges == []
    && (forall k | 0 <= k < |g.nodes| :: 0 <= RecOf(g.nodes[k]) < |db| && g.nodes[k] == NewResearchNode(db, RecOf(g.nodes[k])))
    && (forall a, b | 0 <= a < b < |g.nodes| :: RecOf(g.nodes[a]) < RecOf(g.nodes[b]))
    && (forall i: Id :: HasNode(g.nodes, i) <==> Visible(db, i))
  }

  /**
   * `Tree.PopulateNodes`: a node for every record that is neither hidden nor
   * locked. A record's own self reference does not lock it (its ancestor walk
   * skips it), but it hides it.
   */
  method PopulateNodes(db: Db) returns (g: Graph)
    requires ValidDb(db)
    ensures g.edges == []
    ensures forall k | 0 <= k < |g.nodes| :: 0 <= RecOf(g.nodes[k]) < |db| && g.nodes[k] == NewResearchNode(db, RecOf(g.nodes[k]))
    ensures forall i: Id :: HasNode(g.nodes, i) <==> i < |db| && !Hidden(db, i) && !Locked(db, i)
    ensures Populated(db, g)
  {
    var nodes: seq<Node> := [];
    var i := 0;
    while i < |db|
      invariant PopulatedUpTo(db, nodes, i)
    {
      var hidden := i in db[i].prereqs;
      var ancestors := Ancestors(db, i);
      var locked := exists k | 0 <= k < |ancestors| :: Hidden(db, ancestors[k]);
      LockedByAncestors(db, i, ancestors);
      ghost var before := nodes;
      if !hidden && !locked {
        nodes := nodes + [NewResearchNode(db, i)];
      }
      PopulateStep(db, before, nodes, i);
      i := i + 1;
    }
    g := Graph(nodes, []);
  }

  /** The loop invariant of `PopulateNodes`: the records before `i` are done. */
  ghost predicate PopulatedUpTo(db: Db, nodes: seq<Node>, i: nat)
  {
    && i <= |db|
    && (forall k | 0 <= k < |nodes| :: 0 <= RecOf(nodes[k]) < i && nodes[k] == NewResearchNode(db, RecOf(nodes[k])))
    && (forall a, b | 0 <= a < b < |nodes| :: RecOf(nodes[a]) < RecOf(nodes[b]))
    && (forall j: Id | j < i :: HasNode(nodes, j) <==> Visible(db, j))
    && (forall j: Id | j >= i :: !HasNode(nodes, j))
  }

  /** Some ancestor is hidden exactly when the record is locked. */
  lemma LockedByAncestors(db: Db, i: Id, ancestors: seq<Id>)
    requires forall y :: y in ancestors <==> Reaches(db, i, y)
    ensures (exists k | 0 <= k < |ancestors| :: Hidden(db, ancestors[k])) <==> Locked(db, i)
  {
    if Locked(db, i) {
      var y: Id :| Reaches(db, i, y) && Hidden(db, y);
      assert y in ancestors;
    }
  }

  /** Record `i` gets a node exactly when it is visible. */
  lemma PopulateStep(db: Db, before: seq<Node>, nodes: seq<Node>, i: Id)
    requires i < |db| && PopulatedUpTo(db, before, i)
    requires nodes == if Visible(db, i) then before + [NewResearchNode(db, i)] else before
    ensures PopulatedUpTo(db, nodes, i + 1)
  {
    if Visible(db, i) {
      assert nodes[|nodes| - 1].kind == Research(i);
    }
    forall j: Id ensures HasNode(nodes, j) <==> HasNode(before, j) || (j == i && Visible(db, i)) {
      if HasNode(before, j) {
        var k :| 0 <= k < |before| && before[k].kind == Research(j);
        assert nodes[k] == before[k];
      }
      if HasNode(nodes, j) && j != i {
        var k :| 0 <= k < |nodes| && nodes[k].kind == Research(j);
        assert k < |before|;
      }
    }
  }

  /** The node ids of research nodes standing for record `i`, ascending. */
  function NodesOf(g: Graph, i: Id): (ids: seq<NodeId>)
    ensures forall k: NodeId :: k in ids <==> k < |g.nodes| && g.nodes[k].kind == Research(i)
    ensures forall a, b | 0 <= a < b < |ids| :: ids[a] < ids[b]
  {
    NodesFrom(g.nodes, (n: Node) => n.kind == Research(i), 0)
  }

  /**
   * The `ResearchNode(def)` lookup: the first node standing for record `i`,
   * or nothing when the record got no node (it was hidden or locked).
   */
  function NodeFor(g: Graph, i: Id): (r: Option<NodeId>)
    ensures r.Some? ==> r.value < |g.nodes| && g.nodes[r.value].kind == Research(i)
    ensures r.Some? ==> forall k: NodeId | k < r.value :: g.nodes[k].kind != Research(i)
    ensures r.None? <==> !HasNode(g.nodes, i)
  {
    var ids := NodesOf(g, i);
    if |ids| == 0 then
      assert forall k | 0 <= k < |g.nodes| :: k !in ids;
      None
    else
      assert ids[0] in ids;
      assert forall k: NodeId | k < ids[0] :: k !in ids;
      Some(ids[0])
  }

  /** On a freshly populated graph a record has a node exactly when it is visible. */
  lemma NodeForVisible(db: Db, g: Graph, i: Id)
    requires Populated(db, g)
    ensures NodeFor(g, i).Some? <==> Visible(db, i)
    ensures NodeFor(g, i).Some? ==> RecOf(g.nodes[NodeFor(g, i).value]) == i
  {
  }

  // ---------------------------------------------------------------------------
  // CreateEdges

  /** The edges into node `k` from the nodes of the prerequisites `ps`; missing nodes are skipped. */
  function PrereqEdges(g: Graph, ps: seq<Id>, k: NodeId): (es: seq<Edge>)
    ensures forall e | e in es :: e.dst == k && e.src < |g.nodes| && exists q | q in ps :: NodeFor(g, q) == Some(e.src)
  {
    if |ps| == 0 then []
    else
      match NodeFor(g, ps[0])
      case None => PrereqEdges(g, ps[1..], k)
      case Some(p) => [Edge(p, k)] + PrereqEdges(g, ps[1..], k)
  }

  lemma {:induction false} PrereqEdgesComplete(g: Graph, ps: seq<Id>, k: NodeId, q: Id)
    requires q in ps && NodeFor(g, q).Some?
    ensures Edge(NodeFor(g, q).value, k) in PrereqEdges(g, ps, k)
  {
    if ps[0] != q {
      PrereqEdgesComplete(g, ps[1..], k, q);
    }
  }

  /** The new edges of the research nodes at positions `i..`, in node order. */
  function NewEdgesFrom(db: Db, g: Graph, i: nat): (es: seq<Edge>)
    requires i <= |g.nodes|
    ensures forall e | e in es :: i <= e.dst < |g.nodes| && e.src < |g.nodes|
    decreases |g.nodes| - i
  {
    if i == |g.nodes| then []
    else if g.nodes[i].kind.Research? then
      PrereqEdges(g, Pre(db, g.nodes[i].kind.rec), i) + NewEdgesFrom(db, g, i + 1)
    else NewEdgesFrom(db, g, i + 1)
  }

  /** An edge p -> k is new exactly when k is a research node and p is the node of one of its prerequisites. */
  predicate PrereqEdge(db: Db, g: Graph, e: Edge)
  {
    && e.dst < |g.nodes|
    && g.nodes[e.dst].kind.Research?
    && exists q | q in Pre(db, g.nodes[e.dst].kind.rec) :: NodeFor(g, q) == Some(e.src)
  }

  lemma {:induction false} NewEdgesFromExact(db: Db, g: Graph, i: nat, e: Edge)
    requires i <= |g.nodes|
    ensures e in NewEdgesFrom(db, g, i) <==> i <= e.dst && PrereqEdge(db, g, e)
    decreases |g.nodes| - i
  {
    if i < |g.nodes| {
      NewEdgesFromExact(db, g, i + 1, e);
      if e.dst == i && PrereqEdge(db, g, e) {
        var q :| q in Pre(db, g.nodes[i].kind.rec) && NodeFor(g, q) == Some(e.src);
        PrereqEdgesComplete(g, Pre(db, g.nodes[i].kind.rec), i, q);
      }
    }
  }

  /**
   * `Tree.CreateEdges`: for every research node, in node order, one edge from
   * each prerequisite's node, appended after the existing edges.
   */
  function CreateEdges(db: Db, g: Graph): (h: Graph)
    ensures h.nodes == g.nodes
    ensures |h.edges| >= |g.edges| && h.edges[..|g.edges|] == g.edges
    ensures WellFormed(g) ==> WellFormed(h)
    ensures forall e | e in h.edges[|g.edges|..] :: PrereqEdge(db, g, e)
  {
    var es := NewEdgesFrom(db, g, 0);
    forall e | e in es ensures PrereqEdge(db, g, e) {
      NewEdgesFromExact(db, g, 0, e);
    }
    assert (g.edges + es)[|g.edges|..] == es;
    g.(edges := g.edges + es)
  }

  /** Every prerequisite that has a node is linked to the node of its dependant. */
  lemma CreateEdgesComplete(db: Db, g: Graph, e: Edge)
    requires PrereqEdge(db, g, e)
    ensures e in CreateEdges(db, g).edges
  {
    NewEdgesFromExact(db, g, 0, e);
  }

  /**
   * On a freshly populated graph the edges mirror the prerequisite relation:
   * p -> k is an edge exactly when p's record is a prerequisite of k's record.
   */
  lemma EdgesMirrorPrerequisites(db: Db, g: Graph, p: NodeId, k: NodeId)
    requires ValidDb(db) && Populated(db, g) && p < |g.nodes| && k < |g.nodes|
    ensures Edge(p, k) in CreateEdges(db, g).edges <==> RecOf(g.nodes[p]) in db[RecOf(g.nodes[k])].prereqs
  {
    var h := CreateEdges(db, g);
    var r, q := RecOf(g.nodes[k]), RecOf(g.nodes[p]);
    assert g.nodes[k].kind == Research(r) && g.nodes[p].kind == Research(q);
    if Edge(p, k) in h.edges {
      assert Edge(p, k) in h.edges[|g.edges|..];
      var q' :| q' in Pre(db, r) && NodeFor(g, q') == Some(p);
    } else if q in db[r].prereqs {
      assert HasNode(g.nodes, r);
      VisiblePrereqVisible(db, r, q);
      NodeForVisible(db, g, q);
      var p' := NodeFor(g, q).value;
      assert p' == p;
      CreateEdgesComplete(db, g, Edge(p, k));
    }
  }
}

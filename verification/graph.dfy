/**
 * The layout graph: nodes (research nodes and dummies) at integer layer `X`
 * and real row coordinate `Yf`, and edges from a prerequisite (`In`) to the
 * node it unlocks (`Out`).
 */
module Graph {
  import opened Wrappers
  import opened Seqs
  import ResearchDefs

  /** A node is named by its position in the tree's node list. */
  type NodeId = nat

  datatype Kind = Research(rec: ResearchDefs.Id) | Dummy

  /** A node with its layer `x` and its real row coordinate `yf`. */
  datatype Node = Node(kind: Kind, x: int, yf: real)

  /** `Edge<Node, Node>`: `src` is the edge's `In` end, `dst` its `Out` end. */
  datatype Edge = Edge(src: NodeId, dst: NodeId)

  /** The tree's node list and global edge list, both in insertion order. */
  datatype Graph = Graph(nodes: seq<Node>, edges: seq<Edge>)

  /** A C# `(int)` cast of a real: truncation toward zero. */
  function Trunc(r: real): (k: int)
    ensures r >= 0.0 ==> k as real <= r < k as real + 1.0
    ensures r < 0.0 ==> k as real - 1.0 < r <= k as real
  {
    if r >= 0.0 then r.Floor else -((-r).Floor)
  }

  /** `Math.Max` and `Mathf.Max` on row positions. */
  function RMax(a: real, b: real): (m: real)
    ensures m >= a && m >= b && (m == a || m == b)
  {
    if a >= b then a else b
  }

  /** Casting a whole number to a real and back gives the number. */
  lemma TruncOfInt(k: int)
    ensures Trunc(k as real) == k
  {
  }

  /** Reading `Y` gives the integer row of `Yf`. */
  function Y(n: Node): int
  {
    Trunc(n.yf)
  }

  /** Writing `Y` puts the node exactly on that row and leaves everything else. */
  function WithY(n: Node, k: int): (m: Node)
    ensures Y(m) == k && m.yf == k as real
    ensures m.kind == n.kind && m.x == n.x
  {
    n.(yf := k as real)
  }

  /** Writing a row and reading it back is the identity on integral rows. */
  lemma WithYOwnRow(n: Node)
    requires n.yf == Y(n) as real
    ensures WithY(n, Y(n)) == n
  {
  }

  predicate IsResearch(n: Node)
  {
    n.kind.Research?
  }

  predicate EdgeIn(g: Graph, e: Edge)
  {
    e.src < |g.nodes| && e.dst < |g.nodes|
  }

  /** Both ends of every edge are nodes of the graph. */
  predicate WellFormed(g: Graph)
  {
    forall e | e in g.edges :: EdgeIn(g, e)
  }

  /** `Edge.Span`: how many layers the edge crosses. */
  function Span(g: Graph, e: Edge): int
    requires EdgeIn(g, e)
  {
    g.nodes[e.dst].x - g.nodes[e.src].x
  }

  /** The node ids `i..` (ascending) whose node satisfies `p`. */
  function NodesFrom(nodes: seq<Node>, p: Node -> bool, i: nat): (ids: seq<NodeId>)
    requires i <= |nodes|
    ensures forall k: NodeId :: k in ids <==> i <= k < |nodes| && p(nodes[k])
    ensures forall a, b | 0 <= a < b < |ids| :: ids[a] < ids[b]
    decreases |nodes| - i
  {
    if i == |nodes| then []
    else
      var rest := NodesFrom(nodes, p, i + 1);
      if p(nodes[i]) then
        assert forall a | 0 <= a < |rest| :: rest[a] in rest;
        [i] + rest
      else rest
  }

  /** `Tree.Layer(depth)`: the nodes with `X == depth`, in node-list order. */
  function Layer(g: Graph, depth: int): (ids: seq<NodeId>)
    ensures forall k: NodeId :: k in ids <==> k < |g.nodes| && g.nodes[k].x == depth
    ensures forall a, b | 0 <= a < b < |ids| :: ids[a] < ids[b]
  {
    NodesFrom(g.nodes, (n: Node) => n.x == depth, 0)
  }

  /** `Tree.Row(Y)`: the nodes with `Y == y`, in node-list order. */
  function Row(g: Graph, y: int): (ids: seq<NodeId>)
    ensures forall k: NodeId :: k in ids <==> k < |g.nodes| && Y(g.nodes[k]) == y
    ensures forall a, b | 0 <= a < b < |ids| :: ids[a] < ids[b]
  {
    NodesFrom(g.nodes, (n: Node) => Y(n) == y, 0)
  }

  /** Strictly ascending id lists are duplicate-free. */
  lemma AscendingNoDup(ids: seq<NodeId>)
    requires forall a, b | 0 <= a < b < |ids| :: ids[a] < ids[b]
    ensures NoDup(ids)
  {
  }

  /** Two strictly ascending id lists with the same members are equal. */
  lemma {:induction false} AscendingUnique(a: seq<NodeId>, b: seq<NodeId>)
    requires forall i, j | 0 <= i < j < |a| :: a[i] < a[j]
    requires forall i, j | 0 <= i < j < |b| :: b[i] < b[j]
    requires forall k: NodeId :: k in a <==> k in b
    ensures a == b
  {
    if |a| > 0 && |b| > 0 {
      assert a[0] in b && b[0] in a;
      var i :| 0 <= i < |b| && b[i] == a[0];
      var j :| 0 <= j < |a| && a[j] == b[0];
      assert a[0] == b[0];
      forall k: NodeId ensures k in a[1..] <==> k in b[1..] {
        if k in a[1..] {
          var i :| 1 <= i < |a| && a[i] == k;
          assert k in b && k != b[0];
        }
        if k in b[1..] {
          var i :| 1 <= i < |b| && b[i] == k;
          assert k in a && k != a[0];
        }
      }
      AscendingUnique(a[1..], b[1..]);
      assert a == [a[0]] + a[1..] && b == [b[0]] + b[1..];
    } else if |a| > 0 {
      HeadIn(a);
      assert false;
    } else if |b| > 0 {
      HeadIn(b);
      assert false;
    }
  }

  /** `Tree.NodeAt(X, Y)`: the first node at that position, if any. */
  function NodeAt(g: Graph, x: int, y: int): (r: Option<NodeId>)
    ensures r.Some? ==> r.value < |g.nodes| && g.nodes[r.value].x == x && Y(g.nodes[r.value]) == y
    ensures r.Some? ==> forall k: NodeId | k < r.value :: !(g.nodes[k].x == x && Y(g.nodes[k]) == y)
    ensures r.None? <==> forall k: NodeId | k < |g.nodes| :: !(g.nodes[k].x == x && Y(g.nodes[k]) == y)
  {
    var ids := NodesFrom(g.nodes, (n: Node) => n.x == x && Y(n) == y, 0);
    if |ids| == 0 then None
    else
      assert ids[0] in ids;
      assert forall k: NodeId | k < ids[0] :: k !in ids;
      Some(ids[0])
  }

  /** `Node.InEdges`: the edges ending at `k`, in creation order. */
  function InEdges(g: Graph, k: NodeId): (es: seq<Edge>)
    ensures forall e | e in es :: e in g.edges && e.dst == k
  {
    Filter(g.edges, (e: Edge) => e.dst == k)
  }

  /** `Node.OutEdges`: the edges leaving `k`, in creation order. */
  function OutEdges(g: Graph, k: NodeId): (es: seq<Edge>)
    ensures forall e | e in es :: e in g.edges && e.src == k
  {
    Filter(g.edges, (e: Edge) => e.src == k)
  }

  function Sources(es: seq<Edge>): (r: seq<NodeId>)
    ensures |r| == |es|
    ensures forall i | 0 <= i < |es| :: r[i] == es[i].src
  {
    if |es| == 0 then [] else [es[0].src] + Sources(es[1..])
  }

  function Targets(es: seq<Edge>): (r: seq<NodeId>)
    ensures |r| == |es|
    ensures forall i | 0 <= i < |es| :: r[i] == es[i].dst
  {
    if |es| == 0 then [] else [es[0].dst] + Targets(es[1..])
  }

  /** `Node.InNodes`: the `In` end of every in-edge. */
  function InNodes(g: Graph, k: NodeId): (ns: seq<NodeId>)
    ensures forall p: NodeId :: p in ns <==> Edge(p, k) in g.edges
  {
    var es := InEdges(g, k);
    forall p: NodeId | Edge(p, k) in g.edges ensures p in Sources(es) {
      FilterKeeps(g.edges, (e: Edge) => e.dst == k, Edge(p, k));
      var i :| 0 <= i < |es| && es[i] == Edge(p, k);
      assert Sources(es)[i] == p;
    }
    Sources(es)
  }

  /** `Node.OutNodes`: the `Out` end of every out-edge. */
  function OutNodes(g: Graph, k: NodeId): (ns: seq<NodeId>)
    ensures forall c: NodeId :: c in ns <==> Edge(k, c) in g.edges
  {
    var es := OutEdges(g, k);
    forall c: NodeId | Edge(k, c) in g.edges ensures c in Targets(es) {
      FilterKeeps(g.edges, (e: Edge) => e.src == k, Edge(k, c));
      var i :| 0 <= i < |es| && es[i] == Edge(k, c);
      assert Targets(es)[i] == c;
    }
    Targets(es)
  }

  /** Only the row of node `k` changes; the node list and edges stay. */
  function SetRow(g: Graph, k: NodeId, y: int): (h: Graph)
    requires k < |g.nodes|
    ensures |h.nodes| == |g.nodes| && h.edges == g.edges
    ensures Y(h.nodes[k]) == y && h.nodes[k].x == g.nodes[k].x && h.nodes[k].kind == g.nodes[k].kind
    ensures forall i: NodeId | i < |g.nodes| && i != k :: h.nodes[i] == g.nodes[i]
  {
    g.(nodes := g.nodes[k := WithY(g.nodes[k], y)])
  }

  /** Only the layer of node `k` changes. */
  function SetX(g: Graph, k: NodeId, x: int): (h: Graph)
    requires k < |g.nodes|
    ensures |h.nodes| == |g.nodes| && h.edges == g.edges
    ensures h.nodes[k].x == x && h.nodes[k].yf == g.nodes[k].yf && h.nodes[k].kind == g.nodes[k].kind
    ensures forall i: NodeId | i < |g.nodes| && i != k :: h.nodes[i] == g.nodes[i]
  {
    g.(nodes := g.nodes[k := g.nodes[k].(x := x)])
  }
}

/**
 * Edge normalisation (`Tree.NormalizeEdges`): every edge spanning more than
 * one layer is replaced by a chain of dummy nodes, one per layer in between,
 * so that afterwards no edge skips a layer.
 */
module Normalize {
  import opened Seqs
  import opened Graph

  /** An edge that skips at least one layer. */
  predicate Long(g: Graph, e: Edge)
  {
    EdgeIn(g, e) && Span(g, e) > 1
  }

  /** The long edges among `edges[i..]`, in edge order. */
  function LongFrom(g: Graph, i: nat): (es: seq<Edge>)
    requires i <= |g.edges|
    ensures forall e | e in es :: e in g.edges[i..] && Long(g, e)
    decreases |g.edges| - i
  {
    if i == |g.edges| then []
    else (if Long(g, g.edges[i]) then [g.edges[i]] else []) + LongFrom(g, i + 1)
  }

  /** The long edges, in edge order: the snapshot the loop walks. */
  function LongEdges(g: Graph): (es: seq<Edge>)
    ensures forall e | e in es :: e in g.edges && Long(g, e)
  {
    LongFrom(g, 0)
  }

  /** The snapshot from `i` holds every copy of every long edge of `edges[i..]`, and nothing else. */
  lemma {:induction false} LongFromCount(g: Graph, i: nat, e: Edge)
    requires i <= |g.edges|
    ensures multiset(LongFrom(g, i))[e] == if Long(g, e) then multiset(g.edges[i..])[e] else 0
    decreases |g.edges| - i
  {
    if i < |g.edges| {
      LongFromCount(g, i + 1, e);
      assert g.edges[i..] == [g.edges[i]] + g.edges[i + 1..];
    }
  }

  /** The snapshot holds every copy of every long edge, and nothing else. */
  lemma LongEdgesCount(g: Graph, e: Edge)
    ensures multiset(LongEdges(g))[e] == if Long(g, e) then multiset(g.edges)[e] else 0
  {
    LongFromCount(g, 0, e);
    assert g.edges[0..] == g.edges;
  }

  /**
   * Node `i` (0..s) of the chain replacing `a -> b` of span `s`, whose
   * dummies take the ids from `n`.
   */
  function ChainNode(a: NodeId, b: NodeId, n: nat, s: nat, i: nat): NodeId
  {
    if i == 0 then a else if i == s then b else n + i - 1
  }

  /** The chain's edges `In -> d1 -> ... -> d(s-1) -> Out`, in creation order. */
  function ChainEdges(a: NodeId, b: NodeId, n: nat, s: nat): (es: seq<Edge>)
    ensures |es| == s
    ensures forall i | 0 <= i < s :: es[i] == Edge(ChainNode(a, b, n, s, i), ChainNode(a, b, n, s, i + 1))
  {
    seq(s, i requires 0 <= i < s => Edge(ChainNode(a, b, n, s, i), ChainNode(a, b, n, s, i + 1)))
  }

  /** Dummy `d(i)` of a chain from `a`: on layer `a.X + i`, `i` row steps from `a`. */
  function DummyAt(a: Node, step: real, i: int): Node
  {
    Node(Dummy, a.x + i, a.yf + step * i as real)
  }

  /** The dummies `d1 .. d(s-1)`. */
  function Dummies(a: Node, s: nat, step: real): (ds: seq<Node>)
    requires s >= 1
    ensures |ds| == s - 1
    ensures forall j | 0 <= j < s - 1 :: ds[j] == DummyAt(a, step, j + 1)
  {
    seq(s - 1, j requires 0 <= j < s - 1 => DummyAt(a, step, j + 1))
  }

  /** The row step per layer between two nodes on different layers. */
  function Slope(a: Node, b: Node): real
    requires a.x < b.x
  {
    (b.yf - a.yf) / (b.x - a.x) as real
  }

  /** The per-layer row step of the chain for edge `e`. */
  function RowStep(g: Graph, e: Edge): real
    requires Long(g, e)
  {
    Slope(g.nodes[e.src], g.nodes[e.dst])
  }

  /**
   * The dummies lie evenly spaced on the segment from `In` to `Out`: one
   * more step past the last dummy lands exactly on `Out`'s layer and row.
   */
  lemma DummiesInterpolate(g: Graph, e: Edge)
    requires Long(g, e)
    ensures DummyAt(g.nodes[e.src], RowStep(g, e), Span(g, e)).x == g.nodes[e.dst].x
    ensures DummyAt(g.nodes[e.src], RowStep(g, e), Span(g, e)).yf == g.nodes[e.dst].yf
    ensures DummyAt(g.nodes[e.src], RowStep(g, e), 0).yf == g.nodes[e.src].yf
  {
    var a, b := g.nodes[e.src], g.nodes[e.dst];
    var s := Span(g, e) as real;
    assert RowStep(g, e) * s == b.yf - a.yf;
  }

  /** On the grown node list, chain node `i` sits on layer `In.X + i`, so every chain edge spans one layer. */
  lemma ChainSpans(g: Graph, e: Edge, h: Graph)
    requires WellFormed(g) && Long(g, e)
    requires h.nodes == g.nodes + Dummies(g.nodes[e.src], Span(g, e), RowStep(g, e))
    ensures forall c | c in ChainEdges(e.src, e.dst, |g.nodes|, Span(g, e)) :: EdgeIn(h, c) && Span(h, c) == 1
  {
    var s := Span(g, e);
    var n := |g.nodes|;
    var chain := ChainEdges(e.src, e.dst, n, s);
    forall i | 0 <= i <= s
      ensures ChainNode(e.src, e.dst, n, s, i) < |h.nodes|
      ensures h.nodes[ChainNode(e.src, e.dst, n, s, i)].x == g.nodes[e.src].x + i
    {
      if 0 < i < s {
        assert h.nodes[n + i - 1] == Dummies(g.nodes[e.src], s, RowStep(g, e))[i - 1];
      }
    }
    forall c | c in chain ensures EdgeIn(h, c) && Span(h, c) == 1 {
      var i :| 0 <= i < s && chain[i] == c;
    }
  }

  lemma RemoveFirstSubset(es: seq<Edge>, e: Edge)
    ensures forall c | c in RemoveFirst(es, e) :: c in es
  {
    forall c | c in RemoveFirst(es, e) ensures c in es {
      assert c in multiset(RemoveFirst(es, e));
    }
  }

  /**
   * One iteration: the long edge is removed and a chain of `Span - 1`
   * dummies is appended, linked `In -> d1 -> ... -> Out`.
   */
  function NormalizeEdge(g: Graph, e: Edge): (h: Graph)
    requires WellFormed(g) && e in g.edges && Long(g, e)
    ensures WellFormed(h)
    ensures h.nodes == g.nodes + Dummies(g.nodes[e.src], Span(g, e), RowStep(g, e))
    ensures multiset(h.edges) == multiset(g.edges) - multiset{e} + multiset(ChainEdges(e.src, e.dst, |g.nodes|, Span(g, e)))
    ensures |h.edges| == |g.edges| + Span(g, e) - 1
    ensures forall c | c in ChainEdges(e.src, e.dst, |g.nodes|, Span(g, e)) :: EdgeIn(h, c) && Span(h, c) == 1
  {
    var s := Span(g, e);
    var n := |g.nodes|;
    var chain := ChainEdges(e.src, e.dst, n, s);
    var h := Graph(g.nodes + Dummies(g.nodes[e.src], s, RowStep(g, e)), RemoveFirst(g.edges, e) + chain);
    ChainSpans(g, e, h);
    RemoveFirstSubset(g.edges, e);
    h
  }

  /** The `j`-th long edge of the snapshot. */
  function LongAt(g: Graph, j: nat): (e: Edge)
    requires j < |LongEdges(g)|
    ensures Long(g, e) && e in g.edges
  {
    assert LongEdges(g)[j] in LongEdges(g);
    LongEdges(g)[j]
  }

  /** The ids where the dummies of the `j`-th long edge start. */
  function Offset(g: Graph, j: nat): (n: nat)
    requires j <= |LongEdges(g)|
    ensures n >= |g.nodes|
  {
    if j == 0 then |g.nodes| else Offset(g, j - 1) + Span(g, LongAt(g, j - 1)) - 1
  }

  /**
   * The node list after the first `j` long edges are normalised: the
   * original nodes, then the dummies of each chain in creation order.
   */
  function NodesAfter(g: Graph, j: nat): (ns: seq<Node>)
    requires j <= |LongEdges(g)|
    ensures |ns| == Offset(g, j)
  {
    if j == 0 then g.nodes
    else
      var e := LongAt(g, j - 1);
      NodesAfter(g, j - 1) + Dummies(g.nodes[e.src], Span(g, e), RowStep(g, e))
  }

  /** The original nodes keep their ids, and every node after them is a dummy. */
  lemma {:induction false} NodesAfterShape(g: Graph, j: nat)
    requires j <= |LongEdges(g)|
    ensures NodesAfter(g, j)[..|g.nodes|] == g.nodes
    ensures forall k | |g.nodes| <= k < |NodesAfter(g, j)| :: NodesAfter(g, j)[k].kind == Dummy
  {
    if j > 0 {
      NodesAfterShape(g, j - 1);
      var prev := NodesAfter(g, j - 1);
      var e := LongAt(g, j - 1);
      var d := Dummies(g.nodes[e.src], Span(g, e), RowStep(g, e));
      assert NodesAfter(g, j) == prev + d;
      assert (prev + d)[..|g.nodes|] == prev[..|g.nodes|];
      forall k | |g.nodes| <= k < |NodesAfter(g, j)| ensures NodesAfter(g, j)[k].kind == Dummy {
        if k >= |prev| {
          assert NodesAfter(g, j)[k] == d[k - |prev|];
        } else {
          assert NodesAfter(g, j)[k] == prev[k];
        }
      }
    }
  }

  /** The chain edges of the first `j` long edges, in creation order. */
  function Chains(g: Graph, j: nat): seq<Edge>
    requires j <= |LongEdges(g)|
  {
    if j == 0 then []
    else
      var e := LongAt(g, j - 1);
      Chains(g, j - 1) + ChainEdges(e.src, e.dst, Offset(g, j - 1), Span(g, e))
  }

  /** What the loop has built after the first `j` long edges. */
  ghost predicate NormInv(g0: Graph, g: Graph, j: nat)
    requires j <= |LongEdges(g0)|
  {
    && WellFormed(g)
    && g.nodes == NodesAfter(g0, j)
    && multiset(g.edges) == multiset(g0.edges) - multiset(LongEdges(g0)[..j]) + multiset(Chains(g0, j))
    && (forall c | c in Chains(g0, j) :: EdgeIn(g, c) && Span(g, c) == 1)
  }

  lemma PrefixOfConcat<T>(a: seq<T>, b: seq<T>)
    ensures (a + b)[..|a|] == a
  {
  }

  /** Node ids of the original graph keep their node, so their edges keep their span. */
  lemma SpanOnPrefix(g0: Graph, g: Graph, e: Edge)
    requires |g0.nodes| <= |g.nodes| && g.nodes[..|g0.nodes|] == g0.nodes && EdgeIn(g0, e)
    ensures EdgeIn(g, e) && Span(g, e) == Span(g0, e)
  {
    assert g.nodes[e.src] == g.nodes[..|g0.nodes|][e.src];
    assert g.nodes[e.dst] == g.nodes[..|g0.nodes|][e.dst];
  }

  /** The next long edge is still present when its turn comes. */
  lemma NextLongPresent(g0: Graph, g: Graph, j: nat)
    requires j < |LongEdges(g0)| && NormInv(g0, g, j)
    ensures LongAt(g0, j) in g.edges
    ensures (multiset(g0.edges) - multiset(LongEdges(g0)[..j]))[LongAt(g0, j)] > 0
  {
    var long := LongEdges(g0);
    var e := LongAt(g0, j);
    PrefixCountBelow(long, j);
    LongEdgesCount(g0, e);
    assert multiset(long)[e] == multiset(g0.edges)[e];
    assert multiset(g.edges)[e] > 0;
  }

  /** Removing one copy of `e` from what is left of `A`, then adding `ch`, regroups. */
  lemma MultisetStep<T>(A: multiset<T>, L: multiset<T>, C: multiset<T>, ch: multiset<T>, e: T)
    requires (A - L)[e] > 0
    ensures (A - L + C) - multiset{e} + ch == A - (L + multiset{e}) + (C + ch)
  {
  }

  lemma PrefixSnoc<T>(s: seq<T>, j: nat)
    requires j < |s|
    ensures multiset(s[..j + 1]) == multiset(s[..j]) + multiset{s[j]}
  {
    assert s[..j + 1] == s[..j] + [s[j]];
  }

  /** The next long edge still has its original ends, hence its span and row step. */
  lemma StepEnds(g0: Graph, g: Graph, e: Edge)
    requires Long(g0, e)
    requires |g0.nodes| <= |g.nodes| && g.nodes[..|g0.nodes|] == g0.nodes
    ensures Long(g, e) && Span(g, e) == Span(g0, e)
    ensures g.nodes[e.src] == g0.nodes[e.src] && RowStep(g, e) == RowStep(g0, e)
  {
    SpanOnPrefix(g0, g, e);
    assert g.nodes[e.src] == g0.nodes[e.src] && g.nodes[e.dst] == g0.nodes[e.dst];
  }

  /** The edge multiset after one more long edge is replaced by its chain. */
  lemma StepEdges(g0: Graph, g: Graph, h: Graph, j: nat, n: nat, s: nat)
    requires j < |LongEdges(g0)|
    requires n == Offset(g0, j) && s == Span(g0, LongAt(g0, j))
    requires multiset(g.edges) == multiset(g0.edges) - multiset(LongEdges(g0)[..j]) + multiset(Chains(g0, j))
    requires (multiset(g0.edges) - multiset(LongEdges(g0)[..j]))[LongAt(g0, j)] > 0
    requires multiset(h.edges) == multiset(g.edges) - multiset{LongAt(g0, j)} + multiset(ChainEdges(LongAt(g0, j).src, LongAt(g0, j).dst, n, s))
    ensures multiset(h.edges) == multiset(g0.edges) - multiset(LongEdges(g0)[..j + 1]) + multiset(Chains(g0, j + 1))
  {
    var e := LongAt(g0, j);
    var ch := ChainEdges(e.src, e.dst, n, s);
    MultisetStep(multiset(g0.edges), multiset(LongEdges(g0)[..j]), multiset(Chains(g0, j)), multiset(ch), e);
    PrefixSnoc(LongEdges(g0), j);
    assert Chains(g0, j + 1) == Chains(g0, j) + ch;
  }

  /** Chain edges made earlier keep their span when more dummies are appended. */
  lemma StepChains(g0: Graph, g: Graph, h: Graph, j: nat)
    requires j < |LongEdges(g0)|
    requires |g.nodes| == Offset(g0, j) && |g.nodes| <= |h.nodes| && h.nodes[..|g.nodes|] == g.nodes
    requires forall c | c in Chains(g0, j) :: EdgeIn(g, c) && Span(g, c) == 1
    requires forall c | c in ChainEdges(LongAt(g0, j).src, LongAt(g0, j).dst, |g.nodes|, Span(g0, LongAt(g0, j))) :: EdgeIn(h, c) && Span(h, c) == 1
    ensures forall c | c in Chains(g0, j + 1) :: EdgeIn(h, c) && Span(h, c) == 1
  {
    forall c | c in Chains(g0, j + 1) ensures EdgeIn(h, c) && Span(h, c) == 1 {
      if c in Chains(g0, j) {
        SpanOnPrefix(g, h, c);
      }
    }
  }

  /** One loop iteration keeps the invariant; the edge count grows by one per dummy. */
  lemma NormStep(g0: Graph, g: Graph, j: nat)
    requires j < |LongEdges(g0)| && NormInv(g0, g, j)
    ensures LongAt(g0, j) in g.edges && Long(g, LongAt(g0, j))
    ensures NormInv(g0, NormalizeEdge(g, LongAt(g0, j)), j + 1)
    ensures |NormalizeEdge(g, LongAt(g0, j)).edges| - |NormalizeEdge(g, LongAt(g0, j)).nodes| == |g.edges| - |g.nodes|
  {
    var e := LongAt(g0, j);
    NextLongPresent(g0, g, j);
    NodesAfterShape(g0, j);
    StepEnds(g0, g, e);
    var h := NormalizeEdge(g, e);
    StepEdges(g0, g, h, j, |g.nodes|, Span(g, e));
    PrefixOfConcat(g.nodes, Dummies(g.nodes[e.src], Span(g, e), RowStep(g, e)));
    StepChains(g0, g, h, j);
  }

  /** An edge that is in the original graph but not among the long ones spans at most one layer. */
  lemma LeftoverShort(g0: Graph, g: Graph, e: Edge)
    requires WellFormed(g0) && NormInv(g0, g, |LongEdges(g0)|)
    requires (multiset(g0.edges) - multiset(LongEdges(g0)))[e] > 0
    ensures EdgeIn(g, e) && Span(g, e) <= 1
  {
    LongEdgesCount(g0, e);
    assert e in g0.edges;
    assert !Long(g0, e);
    NodesAfterShape(g0, |LongEdges(g0)|);
    SpanOnPrefix(g0, g, e);
  }

  /** Once every long edge is processed, no edge skips a layer. */
  lemma NormEnd(g0: Graph, g: Graph)
    requires WellFormed(g0) && NormInv(g0, g, |LongEdges(g0)|)
    ensures WellFormed(g) && g.nodes == NodesAfter(g0, |LongEdges(g0)|)
    ensures g.nodes[..|g0.nodes|] == g0.nodes
    ensures forall k | |g0.nodes| <= k < |g.nodes| :: g.nodes[k].kind == Dummy
    ensures forall e | e in g.edges :: Span(g, e) <= 1
    ensures multiset(g.edges) == multiset(g0.edges) - multiset(LongEdges(g0)) + multiset(Chains(g0, |LongEdges(g0)|))
  {
    var long := LongEdges(g0);
    NodesAfterShape(g0, |long|);
    assert long[..|long|] == long;
    forall e | e in g.edges ensures Span(g, e) <= 1 {
      assert e in multiset(g.edges);
      if e !in Chains(g0, |long|) {
        LeftoverShort(g0, g, e);
      }
    }
  }

  /**
   * `Tree.NormalizeEdges`: every long edge of the snapshot, in edge order, is
   * replaced by its dummy chain. Afterwards no edge spans more than one
   * layer; the original nodes keep their ids and the new ones are the chain
   * dummies; the long edges are gone and the chain edges are new, one more
   * edge than before per dummy.
   */
  method NormalizeEdges(g0: Graph) returns (g: Graph)
    requires WellFormed(g0)
    ensures WellFormed(g)
    ensures forall e | e in g.edges :: Span(g, e) <= 1
    ensures g.nodes == NodesAfter(g0, |LongEdges(g0)|)
    ensures g.nodes[..|g0.nodes|] == g0.nodes
    ensures forall k | |g0.nodes| <= k < |g.nodes| :: g.nodes[k].kind == Dummy
    ensures multiset(g.edges) == multiset(g0.edges) - multiset(LongEdges(g0)) + multiset(Chains(g0, |LongEdges(g0)|))
    ensures |g.edges| == |g0.edges| + |g.nodes| - |g0.nodes|
  {
    var long := LongEdges(g0);
    g := g0;
    var j := 0;
    assert long[..0] == [];
    while j < |long|
      invariant j <= |long|
      invariant NormInv(g0, g, j)
      invariant |g.edges| == |g0.edges| + |g.nodes| - |g0.nodes|
    {
      NormStep(g0, g, j);
      g := NormalizeEdge(g, LongAt(g0, j));
      j := j + 1;
    }
    NormEnd(g0, g);
  }
}

/**
 * What the chain-following parents and children are: exactly the research
 * nodes joined to the node through a chain of dummy nodes, and where they
 * differ from `ResearchNode.Parents` and `ResearchNode.Children` as written.
 */
module ChainFacts {
  import opened Graph
  import opened ResearchNodes
  import opened ParentChains

  /** A dummy parent fed through `m` dummies passes its feeder on through `m + 1`. */
  lemma FeedsStep(g: Graph, p: NodeId, k: NodeId, d: NodeId, m: nat) returns (n: nat)
    requires DummyParent(g, d, k) && Feeds(g, p, d, m)
    ensures n == m + 1 && Feeds(g, p, k, n)
  {
    n := m + 1;
  }

  /** Every chain-following parent feeds `k` through fewer than `Size(fuel)` dummies. */
  lemma {:induction false} ChainParentsSound(g: Graph, k: NodeId, fuel: Fuel, p: NodeId) returns (n: nat)
    requires p in ChainParents(g, k, fuel)
    ensures n < Size(fuel) && Feeds(g, p, k, n)
    decreases fuel
  {
    assert fuel.More?;
    var direct, d := ChainParentsBack(g, k, fuel.rest, p);
    if direct {
      n := 0;
    } else {
      var m := ChainParentsSound(g, d, fuel.rest, p);
      n := FeedsStep(g, p, k, d, m);
    }
  }

  /** Every research node feeding `k` through fewer than `Size(fuel)` dummies is a chain-following parent. */
  lemma {:induction false} ChainParentsComplete(g: Graph, k: NodeId, fuel: Fuel, p: NodeId, n: nat)
    requires n < Size(fuel) && Feeds(g, p, k, n)
    ensures p in ChainParents(g, k, fuel)
    decreases fuel
  {
    if n == 0 {
      DirectIsChainParent(g, k, fuel.rest, p);
    } else {
      var d: NodeId :| DummyParent(g, d, k) && Feeds(g, p, d, n - 1);
      ChainParentsComplete(g, d, fuel.rest, p, n - 1);
      ThroughDummyIsChainParent(g, k, d, fuel.rest, p);
    }
  }

  /**
   * The chain-following parents are exactly the research nodes that feed
   * `k` through fewer than `Size(fuel)` dummies.
   */
  lemma ChainParentsExact(g: Graph, k: NodeId, fuel: Fuel, p: NodeId)
    ensures p in ChainParents(g, k, fuel) <==> exists n: nat | n < Size(fuel) :: Feeds(g, p, k, n)
  {
    SoundDirection(g, k, fuel, p);
    CompleteDirection(g, k, fuel, p);
  }

  lemma SoundDirection(g: Graph, k: NodeId, fuel: Fuel, p: NodeId)
    ensures p in ChainParents(g, k, fuel) ==> exists n: nat | n < Size(fuel) :: Feeds(g, p, k, n)
  {
    if p in ChainParents(g, k, fuel) {
      var n := ChainParentsSound(g, k, fuel, p);
    }
  }

  lemma CompleteDirection(g: Graph, k: NodeId, fuel: Fuel, p: NodeId)
    ensures (exists n: nat | n < Size(fuel) :: Feeds(g, p, k, n)) ==> p in ChainParents(g, k, fuel)
  {
    if exists n: nat | n < Size(fuel) :: Feeds(g, p, k, n) {
      var n: nat :| n < Size(fuel) && Feeds(g, p, k, n);
      ChainParentsComplete(g, k, fuel, p, n);
    }
  }

  /** Leading to `c` along the edges is feeding `k` from `c` along the reversed edges. */
  lemma LeadsReversed(g: Graph, k: NodeId, c: NodeId, n: nat)
    ensures Leads(g, k, c, n) <==> Feeds(Reversed(g), c, k, n)
  {
    LeadsToFeeds(g, k, c, n);
    FeedsToLeads(g, k, c, n);
  }

  lemma {:induction false} LeadsToFeeds(g: Graph, k: NodeId, c: NodeId, n: nat)
    ensures Leads(g, k, c, n) ==> Feeds(Reversed(g), c, k, n)
    decreases n
  {
    if n > 0 && Leads(g, k, c, n) {
      var d: NodeId :| DummyChild(g, k, d) && Leads(g, d, c, n - 1);
      LeadsToFeeds(g, d, c, n - 1);
      assert DummyParent(Reversed(g), d, k);
    }
  }

  lemma {:induction false} FeedsToLeads(g: Graph, k: NodeId, c: NodeId, n: nat)
    ensures Feeds(Reversed(g), c, k, n) ==> Leads(g, k, c, n)
    decreases n
  {
    if n > 0 && Feeds(Reversed(g), c, k, n) {
      var d: NodeId :| DummyParent(Reversed(g), d, k) && Feeds(Reversed(g), c, d, n - 1);
      FeedsToLeads(g, d, c, n - 1);
      assert DummyChild(g, k, d);
    }
  }

  /** The intended parents are the research nodes feeding `k` through at most `|nodes|` dummies. */
  lemma ParentsIntendedExact(g: Graph, k: NodeId, p: NodeId)
    ensures p in ParentsIntended(g, k) <==> exists n: nat | n <= |g.nodes| :: Feeds(g, p, k, n)
  {
    ChainParentsExact(g, k, FuelOf(|g.nodes| + 1), p);
  }

  /** The intended children are the research nodes `k` leads to through at most `|nodes|` dummies. */
  lemma ChildrenIntendedExact(g: Graph, k: NodeId, c: NodeId)
    ensures c in ChildrenIntended(g, k) <==> exists n: nat | n <= |g.nodes| :: Leads(g, k, c, n)
  {
    ChildrenIntendedSound(g, k, c);
    ChildrenIntendedComplete(g, k, c);
  }

  lemma ChildrenIntendedSound(g: Graph, k: NodeId, c: NodeId)
    ensures c in ChildrenIntended(g, k) ==> exists n: nat | n <= |g.nodes| :: Leads(g, k, c, n)
  {
    if c in ChildrenIntended(g, k) {
      var n := ChainParentsSound(Reversed(g), k, FuelOf(|g.nodes| + 1), c);
      LeadsReversed(g, k, c, n);
    }
  }

  lemma ChildrenIntendedComplete(g: Graph, k: NodeId, c: NodeId)
    ensures (exists n: nat | n <= |g.nodes| :: Leads(g, k, c, n)) ==> c in ChildrenIntended(g, k)
  {
    if exists n: nat | n <= |g.nodes| :: Leads(g, k, c, n) {
      var n: nat :| n <= |g.nodes| && Leads(g, k, c, n);
      LeadsReversed(g, k, c, n);
      ChainParentsComplete(Reversed(g), k, FuelOf(|g.nodes| + 1), c, n);
    }
  }

  /** Without dummies in between, the intended parents are the parents as written. */
  lemma ParentsAgreeOnDirectEdges(g: Graph, k: NodeId, p: NodeId)
    ensures p in Parents(g, k) <==> Feeds(g, p, k, 0)
    ensures p in Parents(g, k) ==> p in ParentsIntended(g, k)
  {
    ParentsIntendedExact(g, k, p);
  }

  /**
   * A research parent behind a single dummy node, with no direct edge: the
   * parents as written miss it, the intended parents find it.
   */
  lemma ParentBehindDummyDropped(g: Graph, p: NodeId, d: NodeId, k: NodeId)
    requires DirectParent(g, p, d) && DummyParent(g, d, k) && Edge(p, k) !in g.edges
    ensures p !in Parents(g, k) && p in ParentsIntended(g, k)
  {
    assert Feeds(g, p, d, 0);
    assert Feeds(g, p, k, 1);
    ParentsIntendedExact(g, k, p);
  }

  /**
   * A research child behind a single dummy node, with no direct edge: the
   * children as written miss it, the intended children find it.
   */
  lemma ChildBehindDummyDropped(g: Graph, k: NodeId, d: NodeId, c: NodeId)
    requires DummyChild(g, k, d) && DirectChild(g, d, c) && Edge(k, c) !in g.edges
    ensures c !in Children(g, k) && c in ChildrenIntended(g, k)
  {
    assert Leads(g, d, c, 0);
    assert Leads(g, k, c, 1);
    ChildrenIntendedExact(g, k, c);
  }

  /** `0 -> dummy 1 -> 2` is such a graph, both ways round. */
  lemma ChainExampleDrops()
    ensures DirectParent(ChainExample(), 0, 1) && DummyParent(ChainExample(), 1, 2) && Edge(0, 2) !in ChainExample().edges
    ensures DummyChild(ChainExample(), 0, 1) && DirectChild(ChainExample(), 1, 2)
  {
  }
}

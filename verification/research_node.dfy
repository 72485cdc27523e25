/**
 * Node-level helpers of `ResearchNode`: the tie breaker used when ordering,
 * the layout priorities, search ranking, the recursive list of missing
 * prerequisites, and the research parents and children of a node.
 */
module ResearchNodes {
  import opened Seqs
  import opened Wrappers
  import opened ResearchDefs
  import opened Graph

  // ---------------------------------------------------------------------------
  // CompareTieBreaker

  /** `int.CompareTo`: the sign of x - y. */
  function CompareInt(x: int, y: int): (c: int)
    ensures c == -1 <==> x < y
    ensures c == 0 <==> x == y
    ensures c == 1 <==> x > y
  {
    if x < y then -1 else if x == y then 0 else 1
  }

  /** Ordinal string comparison, as a sign. */
  function CompareOrdinal(s: string, t: string): (c: int)
    ensures -1 <= c <= 1
    ensures c == 0 <==> s == t
  {
    if |s| == 0 && |t| == 0 then 0
    else if |s| == 0 then -1
    else if |t| == 0 then 1
    else if s[0] < t[0] then -1
    else if s[0] > t[0] then 1
    else
      var c := CompareOrdinal(s[1..], t[1..]);
      assert c == 0 ==> s == [s[0]] + s[1..] == [t[0]] + t[1..] == t;
      assert s == t ==> s[1..] == t[1..];
      c
  }

  /** `s` comes before `t`: a proper prefix, or smaller at the first difference. */
  ghost predicate StrLess(s: string, t: string)
  {
    exists k | 0 <= k <= |s| && k <= |t| ::
      s[..k] == t[..k] && ((k == |s| && k < |t|) || (k < |s| && k < |t| && s[k] < t[k]))
  }

  lemma {:induction false} CompareOrdinalIsStrLess(s: string, t: string)
    ensures CompareOrdinal(s, t) == -1 <==> StrLess(s, t)
  {
    if |s| > 0 && |t| > 0 && s[0] == t[0] {
      CompareOrdinalIsStrLess(s[1..], t[1..]);
      if StrLess(s, t) {
        var k :| 0 <= k <= |s| && k <= |t| && s[..k] == t[..k] && ((k == |s| && k < |t|) || (k < |s| && k < |t| && s[k] < t[k]));
        assert k > 0;
        assert s[1..][..k - 1] == s[1..k] == t[1..k] == t[1..][..k - 1];
      }
      if StrLess(s[1..], t[1..]) {
        var k :| 0 <= k <= |s| - 1 && k <= |t| - 1 && s[1..][..k] == t[1..][..k]
          && ((k == |s| - 1 && k < |t| - 1) || (k < |s| - 1 && k < |t| - 1 && s[1..][k] < t[1..][k]));
        assert s[..k + 1] == [s[0]] + s[1..][..k];
        assert t[..k + 1] == [t[0]] + t[1..][..k];
      }
    } else if |s| > 0 && |t| > 0 {
      if s[0] < t[0] {
        assert s[..0] == t[..0];
      }
      if StrLess(s, t) {
        var k :| 0 <= k <= |s| && k <= |t| && s[..k] == t[..k] && ((k == |s| && k < |t|) || (k < |s| && k < |t| && s[k] < t[k]));
        PrefixHeads(s, t, k);
      }
    } else if |s| == 0 && |t| > 0 {
      assert s[..0] == t[..0];
    }
  }

  /** Equal non-empty prefixes start with the same character. */
  lemma PrefixHeads(s: string, t: string, k: nat)
    requires k <= |s| && k <= |t| && s[..k] == t[..k]
    ensures k > 0 ==> s[0] == t[0]
  {
    if k > 0 {
      assert s[..k][0] == t[..k][0];
    }
  }

  lemma {:induction false} CompareOrdinalAntisymmetric(s: string, t: string)
    ensures CompareOrdinal(t, s) == -CompareOrdinal(s, t)
  {
    if |s| > 0 && |t| > 0 && s[0] == t[0] {
      CompareOrdinalAntisymmetric(s[1..], t[1..]);
    }
  }

  /** `modContentPack?.Name ?? ""`. */
  function ModName(r: Record): string
  {
    match r.modName
    case None => ""
    case Some(n) => n
  }

  /**
   * `ResearchNode.CompareTieBreaker(that)` for the research node of record
   * `self`: -1 against any dummy; otherwise tech level first, then mod name.
   */
  function CompareTieBreaker(db: Db, self: Id, that: Node): (c: int)
    requires self < |db| && (that.kind.Research? ==> that.kind.rec < |db|)
    ensures that.kind.Dummy? ==> c == -1
    ensures -1 <= c <= 1
    ensures that.kind.Research? ==>
      var o := db[that.kind.rec];
      && (c == -1 <==> db[self].techLevel < o.techLevel || (db[self].techLevel == o.techLevel && StrLess(ModName(db[self]), ModName(o))))
      && (c == 0 <==> db[self].techLevel == o.techLevel && ModName(db[self]) == ModName(o))
  {
    match that.kind
    case Dummy => -1
    case Research(o) =>
      var c1 := CompareInt(db[self].techLevel, db[o].techLevel);
      CompareOrdinalIsStrLess(ModName(db[self]), ModName(db[o]));
      if c1 != 0 then c1 else CompareOrdinal(ModName(db[self]), ModName(db[o]))
  }

  /** Between two research nodes the tie breaker is antisymmetric. */
  lemma TieBreakerAntisymmetric(db: Db, a: Id, b: Id, n: Node, m: Node)
    requires a < |db| && b < |db| && n.kind == Research(a) && m.kind == Research(b)
    ensures CompareTieBreaker(db, a, m) == -CompareTieBreaker(db, b, n)
  {
    CompareOrdinalAntisymmetric(ModName(db[a]), ModName(db[b]));
  }

  // ---------------------------------------------------------------------------
  // Priorities

  /** The number of edges of `es` that end at `k`. */
  function InDegree(es: seq<Edge>, k: NodeId): nat
  {
    if |es| == 0 then 0 else (if es[0].dst == k then 1 else 0) + InDegree(es[1..], k)
  }

  /** The number of edges of `es` that leave `k`. */
  function OutDegree(es: seq<Edge>, k: NodeId): nat
  {
    if |es| == 0 then 0 else (if es[0].src == k then 1 else 0) + OutDegree(es[1..], k)
  }

  lemma {:induction false} InEdgesCount(es: seq<Edge>, k: NodeId)
    ensures |Filter(es, (e: Edge) => e.dst == k)| == InDegree(es, k)
  {
    if |es| > 0 {
      InEdgesCount(es[1..], k);
    }
  }

  lemma {:induction false} OutEdgesCount(es: seq<Edge>, k: NodeId)
    ensures |Filter(es, (e: Edge) => e.src == k)| == OutDegree(es, k)
  {
    if |es| > 0 {
      OutEdgesCount(es[1..], k);
    }
  }

  /** `LayoutUpperPriority`: the number of edges into the node. */
  function LayoutUpperPriority(g: Graph, k: NodeId): (p: nat)
    ensures p == InDegree(g.edges, k)
  {
    InEdgesCount(g.edges, k);
    |InEdges(g, k)|
  }

  /** `LayoutLowerPriority`: the number of edges out of the node. */
  function LayoutLowerPriority(g: Graph, k: NodeId): (p: nat)
    ensures p == OutDegree(g.edges, k)
  {
    OutEdgesCount(g.edges, k);
    |OutEdges(g, k)|
  }

  /** `DefaultPriority`: the number of edges touching the node, a self loop counted twice. */
  function DefaultPriority(g: Graph, k: NodeId): (p: nat)
    ensures p == LayoutUpperPriority(g, k) + LayoutLowerPriority(g, k)
    ensures p == InDegree(g.edges, k) + OutDegree(g.edges, k)
  {
    |InEdges(g, k)| + |OutEdges(g, k)|
  }

  /** The sum of `f(k)` over the nodes `k < n`. */
  function SumIn(es: seq<Edge>, n: nat): nat
  {
    if n == 0 then 0 else SumIn(es, n - 1) + InDegree(es, n - 1)
  }

  function SumOut(es: seq<Edge>, n: nat): nat
  {
    if n == 0 then 0 else SumOut(es, n - 1) + OutDegree(es, n - 1)
  }

  lemma {:induction false} SumInCons(es: seq<Edge>, n: nat)
    requires |es| > 0
    ensures SumIn(es, n) == (if es[0].dst < n then 1 else 0) + SumIn(es[1..], n)
  {
    if n > 0 {
      SumInCons(es, n - 1);
    }
  }

  lemma {:induction false} SumOutCons(es: seq<Edge>, n: nat)
    requires |es| > 0
    ensures SumOut(es, n) == (if es[0].src < n then 1 else 0) + SumOut(es[1..], n)
  {
    if n > 0 {
      SumOutCons(es, n - 1);
    }
  }

  lemma {:induction false} SuffixSums(g: Graph, j: nat)
    requires WellFormed(g) && j <= |g.edges|
    ensures SumIn(g.edges[j..], |g.nodes|) == |g.edges| - j
    ensures SumOut(g.edges[j..], |g.nodes|) == |g.edges| - j
    decreases |g.edges| - j
  {
    if j < |g.edges| {
      var es := g.edges[j..];
      assert es[0] == g.edges[j] && g.edges[j] in g.edges;
      assert es[1..] == g.edges[j + 1..];
      SuffixSums(g, j + 1);
      SumInCons(es, |g.nodes|);
      SumOutCons(es, |g.nodes|);
    } else {
      assert g.edges[j..] == [];
      SumZero(g.edges[j..], |g.nodes|);
    }
  }

  lemma {:induction false} SumZero(es: seq<Edge>, n: nat)
    requires es == []
    ensures SumIn(es, n) == 0 && SumOut(es, n) == 0
  {
    if n > 0 {
      SumZero(es, n - 1);
    }
  }

  /**
   * Every edge is counted once as an in-edge and once as an out-edge: over a
   * well-formed graph the upper priorities and the lower priorities each sum
   * to the number of edges.
   */
  lemma PrioritiesSumToEdges(g: Graph)
    requires WellFormed(g)
    ensures SumIn(g.edges, |g.nodes|) == |g.edges|
    ensures SumOut(g.edges, |g.nodes|) == |g.edges|
  {
    SuffixSums(g, 0);
    assert g.edges[0..] == g.edges;
  }

  // ---------------------------------------------------------------------------
  // Matches

  function LowerChar(c: char): char
  {
    if 'A' <= c <= 'Z' then (c as int + 32) as char else c
  }

  /** `ToLower`, on ASCII letters. */
  function Lower(s: string): (r: string)
    ensures |r| == |s| && forall i | 0 <= i < |s| :: r[i] == LowerChar(s[i])
  {
    if |s| == 0 then [] else [LowerChar(s[0])] + Lower(s[1..])
  }

  /** `q` occurs in `s` starting at position `i`. */
  predicate OccursAt(s: string, q: string, i: nat)
  {
    i + |q| <= |s| && s[i..i + |q|] == q
  }

  /** `q` occurs in `s` at some position. */
  ghost predicate Occurs(s: string, q: string)
  {
    exists i: nat :: OccursAt(s, q, i)
  }

  /** `string.Contains`, scanning start positions left to right. */
  function Contains(s: string, q: string): (b: bool)
    ensures b <==> Occurs(s, q)
  {
    if OccursAt(s, q, 0) then true
    else if |s| == 0 then
      assert forall i: nat :: !OccursAt(s, q, i);
      false
    else
      var b := Contains(s[1..], q);
      forall i: nat ensures OccursAt(s[1..], q, i) <==> OccursAt(s, q, i + 1) {
        if i + |q| <= |s| - 1 {
          assert s[1..][i..i + |q|] == s[i + 1..i + 1 + |q|];
        }
      }
      assert Occurs(s, q) ==> b by {
        if Occurs(s, q) {
          var i: nat :| OccursAt(s, q, i);
          assert i > 0;
          assert OccursAt(s[1..], q, i - 1);
        }
      }
      b
  }

  /**
   * `ResearchNode.Matches(query)`: 1 when the lower-cased label contains the
   * lower-cased query, else 2 when an unlock's label does, else 3 when the
   * description does, else 0.
   */
  function Matches(title: string, unlockLabels: seq<string>, description: string, query: string): (r: int)
    ensures 0 <= r <= 3
    ensures r == 1 <==> Occurs(Lower(title), Lower(query))
    ensures r == 2 <==> !Occurs(Lower(title), Lower(query)) && exists u | u in unlockLabels :: Occurs(Lower(u), Lower(query))
    ensures r == 3 <==> !Occurs(Lower(title), Lower(query)) && (forall u | u in unlockLabels :: !Occurs(Lower(u), Lower(query)))
                        && Occurs(Lower(description), Lower(query))
  {
    var q := Lower(query);
    if Contains(Lower(title), q) then 1
    else if exists u | u in unlockLabels :: Contains(Lower(u), q) then 2
    else if Contains(Lower(description), q) then 3
    else 0
  }

  /** The empty query is found in every label. */
  lemma EmptyQueryMatchesLabel(title: string, unlockLabels: seq<string>, description: string)
    ensures Matches(title, unlockLabels, description, "") == 1
  {
    assert Lower(title)[0..0] == Lower("");
  }

  // ---------------------------------------------------------------------------
  // GetMissingRequiredRecursive

  predicate Unfinished(db: Db, q: Id)
  {
    q < |db| && !db[q].finished
  }

  /** The unfinished prerequisites of `r`, in list order (`Where(!IsFinished)`). */
  function UnfinishedPrereqs(db: Db, r: Id): (ps: seq<Id>)
    requires r < |db|
    ensures forall q | q in ps :: q in db[r].prereqs && Unfinished(db, q)
    ensures forall q | q in db[r].prereqs && Unfinished(db, q) :: q in ps
  {
    var ps := Filter(db[r].prereqs, (q: Id) => Unfinished(db, q));
    forall q | q in db[r].prereqs && Unfinished(db, q) ensures q in ps {
      FilterKeeps(db[r].prereqs, (q: Id) => Unfinished(db, q), q);
    }
    forall q | q in ps ensures q in db[r].prereqs && Unfinished(db, q) {
      var i :| 0 <= i < |ps| && ps[i] == q;
    }
    ps
  }

  /**
   * `rank` strictly decreases along every step from a ranked record to an
   * unfinished prerequisite, the only steps the recursion below takes.
   * Finished prerequisites need no rank, so cycles through finished
   * records are allowed.
   */
  ghost predicate UnfinishedRanked(db: Db, rank: map<Id, nat>)
  {
    forall x | x in rank ::
      && x < |db|
      && forall q | q in db[x].prereqs && Unfinished(db, q) :: q in rank && rank[q] < rank[x]
  }

  /** A rank of the whole database is one of its unfinished part. */
  lemma RankedIsUnfinishedRanked(db: Db, rank: map<Id, nat>)
    requires RankedOn(db, rank)
    ensures UnfinishedRanked(db, rank)
  {
  }

  /**
   * `ResearchNode.GetMissingRequiredRecursive`: the unfinished prerequisites,
   * then the missing prerequisites of each of them, de-duplicated. The source
   * recurses into unfinished prerequisites without a visited check, so the
   * recursion ends only when the unfinished prerequisites below `r` are
   * acyclic; `rank` witnesses that.
   */
  function MissingRequired(db: Db, ghost rank: map<Id, nat>, r: Id): (res: seq<Id>)
    requires ValidDb(db) && UnfinishedRanked(db, rank) && r in rank
    ensures NoDup(res)
    ensures db[r].prereqs == [] ==> res == []
    ensures forall y | y in res :: Unfinished(db, y)
    decreases rank[r], 1
  {
    var parents := UnfinishedPrereqs(db, r);
    Distinct(parents + MissingOfAll(db, rank, r, parents))
  }

  /** The missing prerequisites of every record of `ps`, concatenated. */
  function MissingOfAll(db: Db, ghost rank: map<Id, nat>, r: Id, ps: seq<Id>): (res: seq<Id>)
    requires ValidDb(db) && UnfinishedRanked(db, rank) && r in rank
    requires forall p | p in ps :: p in db[r].prereqs && Unfinished(db, p)
    ensures forall y | y in res :: Unfinished(db, y)
    decreases rank[r], 0, |ps|
  {
    if |ps| == 0 then []
    else
      assert ps[0] in ps;
      assert forall p | p in ps[1..] :: p in ps;
      MissingRequired(db, rank, ps[0]) + MissingOfAll(db, rank, r, ps[1..])
  }

  /** A prerequisite chain whose records after the first are all unfinished. */
  ghost predicate UnfinishedChain(db: Db, c: seq<Id>)
  {
    IsChain(db, c) && forall i | 1 <= i < |c| :: Unfinished(db, c[i])
  }

  /** `y` is reached from `x` through unfinished records only. */
  ghost predicate ReachesUnfinished(db: Db, x: Id, y: Id)
  {
    exists c :: UnfinishedChain(db, c) && c[0] == x && c[|c| - 1] == y
  }

  lemma ReachesUnfinishedPrepend(db: Db, r: Id, p: Id, y: Id)
    requires Step(db, r, p) && Unfinished(db, p) && ReachesUnfinished(db, p, y)
    ensures ReachesUnfinished(db, r, y)
  {
    var c :| UnfinishedChain(db, c) && c[0] == p && c[|c| - 1] == y;
    var c' := [r] + c;
    forall i | 1 <= i < |c'| ensures Unfinished(db, c'[i]) {
      assert c'[i] == c[i - 1];
    }
    assert UnfinishedChain(db, c');
  }

  lemma {:induction false} MissingOfAllMembers(db: Db, rank: map<Id, nat>, r: Id, ps: seq<Id>, y: Id)
    requires ValidDb(db) && UnfinishedRanked(db, rank) && r in rank
    requires forall p | p in ps :: p in db[r].prereqs && Unfinished(db, p)
    ensures y in MissingOfAll(db, rank, r, ps) <==> exists p | p in ps :: y in MissingRequired(db, rank, p)
  {
    if |ps| > 0 {
      assert forall p | p in ps[1..] :: p in ps;
      assert MissingOfAll(db, rank, r, ps) == MissingRequired(db, rank, ps[0]) + MissingOfAll(db, rank, r, ps[1..]);
      MissingOfAllMembers(db, rank, r, ps[1..], y);
      if exists p | p in ps :: y in MissingRequired(db, rank, p) {
        var p :| p in ps && y in MissingRequired(db, rank, p);
        assert p == ps[0] || p in ps[1..];
      }
    }
  }

  lemma MissingMembers(db: Db, rank: map<Id, nat>, r: Id, y: Id)
    requires ValidDb(db) && UnfinishedRanked(db, rank) && r in rank
    ensures y in MissingRequired(db, rank, r) <==>
      y in UnfinishedPrereqs(db, r) || exists p | p in UnfinishedPrereqs(db, r) :: y in MissingRequired(db, rank, p)
  {
    MissingOfAllMembers(db, rank, r, UnfinishedPrereqs(db, r), y);
  }

  lemma {:induction false} MissingRequiredSound(db: Db, rank: map<Id, nat>, r: Id, y: Id)
    requires ValidDb(db) && UnfinishedRanked(db, rank) && r in rank
    requires y in MissingRequired(db, rank, r)
    ensures ReachesUnfinished(db, r, y)
    decreases rank[r]
  {
    var parents := UnfinishedPrereqs(db, r);
    MissingMembers(db, rank, r, y);
    if y in parents {
      assert UnfinishedChain(db, [r, y]);
    } else {
      var p :| p in parents && y in MissingRequired(db, rank, p);
      MissingRequiredSound(db, rank, p, y);
      ReachesUnfinishedPrepend(db, r, p, y);
    }
  }

  lemma {:induction false} MissingRequiredComplete(db: Db, rank: map<Id, nat>, r: Id, y: Id)
    requires ValidDb(db) && UnfinishedRanked(db, rank) && r in rank
    requires ReachesUnfinished(db, r, y)
    ensures y in MissingRequired(db, rank, r)
    decreases rank[r]
  {
    MissingMembers(db, rank, r, y);
    var p, longer := FirstStep(db, r, y);
    assert p in UnfinishedPrereqs(db, r);
    assert rank[p] < rank[r];
    if longer {
      MissingRequiredComplete(db, rank, p, y);
    }
  }

  /** The first step of an unfinished chain, and whether the chain goes on from there. */
  lemma FirstStep(db: Db, r: Id, y: Id) returns (p: Id, longer: bool)
    requires ReachesUnfinished(db, r, y)
    ensures Step(db, r, p) && Unfinished(db, p)
    ensures longer ==> ReachesUnfinished(db, p, y)
    ensures !longer ==> p == y
  {
    var c :| UnfinishedChain(db, c) && c[0] == r && c[|c| - 1] == y;
    p, longer := c[1], |c| > 2;
    if longer {
      assert UnfinishedChain(db, c[1..]);
    }
  }

  /**
   * The missing prerequisites are exactly the records reached from `r`
   * through a chain of unfinished records.
   */
  lemma MissingRequiredExact(db: Db, rank: map<Id, nat>, r: Id, y: Id)
    requires ValidDb(db) && UnfinishedRanked(db, rank) && r in rank
    ensures y in MissingRequired(db, rank, r) <==> ReachesUnfinished(db, r, y)
  {
    if y in MissingRequired(db, rank, r) {
      MissingRequiredSound(db, rank, r, y);
    }
    if ReachesUnfinished(db, r, y) {
      MissingRequiredComplete(db, rank, r, y);
    }
  }

  /**
   * Record 0 is unfinished and needs record 1, which is finished and sits
   * on the cycle 1 -> 2 -> 1 of finished records.
   */
  function FinishedCycleDb(): (db: Db)
    ensures ValidDb(db)
  {
    [ Record([1], 0, None, false, "", "", 0.0),
      Record([2], 0, None, true, "", "", 0.0),
      Record([1], 0, None, true, "", "", 0.0) ]
  }

  /**
   * The recursion stops at once on record 0 of `FinishedCycleDb`, which can
   * be ranked for it although no rank of the whole database covers it.
   */
  lemma FinishedCycleMissesNothing()
    ensures UnfinishedRanked(FinishedCycleDb(), map[0 := 0])
    ensures MissingRequired(FinishedCycleDb(), map[0 := 0], 0) == []
    ensures forall rank | RankedOn(FinishedCycleDb(), rank) :: 0 !in rank
  {
    var db := FinishedCycleDb();
    assert UnfinishedPrereqs(db, 0) == [];
    assert 1 in db[0].prereqs && 2 in db[1].prereqs && 1 in db[2].prereqs;
  }

  // ---------------------------------------------------------------------------
  // Parents and Children

  /** LINQ `OfType<ResearchNode>()`: the research nodes among `ids`, in order. */
  function ResearchOnly(g: Graph, ids: seq<NodeId>): (r: seq<NodeId>)
  {
    Filter(ids, (p: NodeId) => p < |g.nodes| && IsResearch(g.nodes[p]))
  }

  /** `OfType<ResearchNode>()` keeps exactly the research nodes. */
  lemma ResearchOnlyMembers(g: Graph, ids: seq<NodeId>, p: NodeId)
    ensures p in ResearchOnly(g, ids) <==> p in ids && p < |g.nodes| && IsResearch(g.nodes[p])
  {
    if p in ids && p < |g.nodes| && IsResearch(g.nodes[p]) {
      FilterKeeps(ids, (p: NodeId) => p < |g.nodes| && IsResearch(g.nodes[p]), p);
    }
  }

  /**
   * `ResearchNode.Parents` as written: the research in-neighbours. The
   * parents reached through dummy nodes are computed and then dropped,
   * because the result of `Concat` is discarded.
   */
  function Parents(g: Graph, k: NodeId): (ps: seq<NodeId>)
    ensures forall p: NodeId :: p in ps <==> Edge(p, k) in g.edges && p < |g.nodes| && IsResearch(g.nodes[p])
  {
    forall p: NodeId ensures p in ResearchOnly(g, InNodes(g, k)) <==> p in InNodes(g, k) && p < |g.nodes| && IsResearch(g.nodes[p]) {
      ResearchOnlyMembers(g, InNodes(g, k), p);
    }
    ResearchOnly(g, InNodes(g, k))
  }

  /** `ResearchNode.Children` as written: the research out-neighbours only. */
  function Children(g: Graph, k: NodeId): (cs: seq<NodeId>)
    ensures forall c: NodeId :: c in cs <==> Edge(k, c) in g.edges && c < |g.nodes| && IsResearch(g.nodes[c])
  {
    forall c: NodeId ensures c in ResearchOnly(g, OutNodes(g, k)) <==> c in OutNodes(g, k) && c < |g.nodes| && IsResearch(g.nodes[c]) {
      ResearchOnlyMembers(g, OutNodes(g, k), c);
    }
    ResearchOnly(g, OutNodes(g, k))
  }
}

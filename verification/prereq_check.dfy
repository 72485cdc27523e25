/**
 * `Tree.CheckPrerequisites`: a first pass that drops every prerequisite already
 * implied by another one, and a second pass that raises tech levels until no
 * record has a lower tech level than one of its prerequisites.
 */
module PrereqCheck {
  import opened Seqs
  import opened ResearchDefs

  /** `List.Remove` on the prerequisites of record `r`. */
  function RemovePrereq(db: Db, r: Id, q: Id): (db': Db)
    requires r < |db|
    ensures |db'| == |db|
    ensures db'[r] == db[r].(prereqs := RemoveFirst(db[r].prereqs, q))
    ensures forall i | 0 <= i < |db| && i != r :: db'[i] == db[i]
  {
    db[r := db[r].(prereqs := RemoveFirst(db[r].prereqs, q))]
  }

  lemma {:induction false} RemoveFirstNoDup<T>(s: seq<T>, x: T)
    requires NoDup(s)
    ensures NoDup(RemoveFirst(s, x)) && x !in RemoveFirst(s, x)
  {
    if |s| > 0 && s[0] != x {
      assert NoDup(s[1..]);
      RemoveFirstNoDup(s[1..], x);
      assert s[0] !in s[1..];
      RemoveFirstMembers(s[1..], x, s[0]);
      NoDupCons(s[0], RemoveFirst(s[1..], x));
    }
  }

  /** Removing one prerequisite removes at most the step r -> q. */
  lemma StepAfterRemove(db: Db, r: Id, q: Id, a: Id, b: Id)
    requires r < |db|
    ensures Step(RemovePrereq(db, r, q), a, b) ==> Step(db, a, b)
    ensures Step(db, a, b) && (a != r || b != q) ==> Step(RemovePrereq(db, r, q), a, b)
  {
    if a == r {
      RemoveFirstMembers(db[r].prereqs, q, b);
    }
  }

  /** A chain starting at a ranked record stays strictly below its rank after the start. */
  lemma ChainBelow(db: Db, rank: map<Id, nat>, c: seq<Id>, i: nat)
    requires RankedOn(db, rank) && IsChain(db, c) && c[0] in rank && 0 < i < |c|
    ensures c[i] in rank && rank[c[i]] < rank[c[0]]
  {
    assert IsChain(db, c[..i + 1]);
    ChainRankDrops(db, rank, c[..i + 1]);
  }

  /** A chain that never leaves from `r` survives the removal of r -> q. */
  lemma ChainAvoidingR(db: Db, rank: map<Id, nat>, r: Id, q: Id, c: seq<Id>)
    requires r < |db| && RankedOn(db, rank) && r in rank && IsChain(db, c)
    requires c[0] in rank && rank[c[0]] < rank[r]
    ensures IsChain(RemovePrereq(db, r, q), c)
  {
    forall i | 0 <= i < |c| - 1 ensures Step(RemovePrereq(db, r, q), c[i], c[i + 1]) {
      if i > 0 {
        ChainBelow(db, rank, c, i);
      }
      assert c[i] != r;
      StepAfterRemove(db, r, q, c[i], c[i + 1]);
    }
  }

  /**
   * Every step of the old relation is still a path once r -> q is removed,
   * provided q is reached from another prerequisite `c1` of `r`.
   */
  lemma StepSurvivesRemove(db: Db, rank: map<Id, nat>, r: Id, q: Id, c1: Id, a: Id, b: Id)
    requires ValidDb(db) && RankedOn(db, rank) && r in rank
    requires Step(db, r, c1) && c1 != q && Reaches(db, c1, q)
    requires Step(db, a, b)
    ensures Reaches(RemovePrereq(db, r, q), a, b)
  {
    var db' := RemovePrereq(db, r, q);
    StepAfterRemove(db, r, q, a, b);
    if a == r && b == q {
      StepAfterRemove(db, r, q, r, c1);
      ReachesDirect(db', r, c1);
      var d :| IsChain(db, d) && d[0] == c1 && d[|d| - 1] == q;
      ChainAvoidingR(db, rank, r, q, d);
      ReachesTrans(db', r, c1, q);
    } else {
      ReachesDirect(db', a, b);
    }
  }

  /** A chain of the smaller relation is a chain of the larger one. */
  lemma RemoveShrinksReach(db: Db, r: Id, q: Id, x: Id, y: Id)
    requires r < |db|
    ensures Reaches(RemovePrereq(db, r, q), x, y) ==> Reaches(db, x, y)
  {
    var db' := RemovePrereq(db, r, q);
    if Reaches(db', x, y) {
      var c :| IsChain(db', c) && c[0] == x && c[|c| - 1] == y;
      forall i | 0 <= i < |c| - 1 ensures Step(db, c[i], c[i + 1]) {
        StepAfterRemove(db, r, q, c[i], c[i + 1]);
      }
      assert IsChain(db, c);
    }
  }

  lemma RemoveKeepsChains(db: Db, rank: map<Id, nat>, r: Id, q: Id, c1: Id, c: seq<Id>)
    requires ValidDb(db) && RankedOn(db, rank) && r in rank
    requires Step(db, r, c1) && c1 != q && Reaches(db, c1, q)
    requires IsChain(db, c)
    ensures Reaches(RemovePrereq(db, r, q), c[0], c[|c| - 1])
  {
    var db' := RemovePrereq(db, r, q);
    StepSurvivesRemove(db, rank, r, q, c1, c[0], c[1]);
    var i := 1;
    while i < |c| - 1
      invariant 1 <= i <= |c| - 1
      invariant Reaches(db', c[0], c[i])
    {
      StepSurvivesRemove(db, rank, r, q, c1, c[i], c[i + 1]);
      ReachesTrans(db', c[0], c[i], c[i + 1]);
      i := i + 1;
    }
  }

  /** Removing a prerequisite implied by another one keeps reachability exactly. */
  lemma RemoveKeepsReach(db: Db, rank: map<Id, nat>, r: Id, q: Id, c1: Id, x: Id, y: Id)
    requires ValidDb(db) && RankedOn(db, rank) && r in rank
    requires Step(db, r, c1) && c1 != q && Reaches(db, c1, q)
    ensures Reaches(RemovePrereq(db, r, q), x, y) <==> Reaches(db, x, y)
  {
    RemoveShrinksReach(db, r, q, x, y);
    if Reaches(db, x, y) {
      var c :| IsChain(db, c) && c[0] == x && c[|c| - 1] == y;
      RemoveKeepsChains(db, rank, r, q, c1, c);
    }
  }

  /**
   * If `r` reaches `q` and `q` reaches `a`, then some first step of `r` other
   * than `a` itself reaches `a`.
   */
  lemma DetourExists(db: Db, rank: map<Id, nat>, r: Id, q: Id, a: Id) returns (c1: Id)
    requires RankedOn(db, rank) && r in rank && Reaches(db, r, q) && Reaches(db, q, a)
    ensures Step(db, r, c1) && c1 != a && Reaches(db, c1, a)
  {
    var c :| IsChain(db, c) && c[0] == r && c[|c| - 1] == q;
    c1 := c[1];
    ReachesLowersRank(db, rank, r, q);
    ReachesLowersRank(db, rank, q, a);
    if |c| > 2 {
      assert IsChain(db, c[1..]);
      ReachesTrans(db, c1, q, a);
      ChainBelow(db, rank, c, 1);
      ReachesLowersRank(db, rank, c1, a);
    }
  }

  // ---------------------------------------------------------------------------
  // Pass 1

  /** Only the prerequisite lists may differ, and they only lose entries. */
  predicate OnlyPrereqsShrink(db0: Db, db: Db)
  {
    && |db| == |db0|
    && forall i | 0 <= i < |db| ::
         db[i] == db0[i].(prereqs := db[i].prereqs) && multiset(db[i].prereqs) <= multiset(db0[i].prereqs)
  }

  /** No prerequisite of `r` is reached from a prerequisite of `r`. */
  ghost predicate Irredundant(db: Db, r: Id)
  {
    r < |db| && forall q, q2 | q in db[r].prereqs && q2 in db[r].prereqs :: !Reaches(db, q2, q)
  }

  ghost predicate SameReach(db: Db, db0: Db)
  {
    forall x: Id, y: Id :: Reaches(db, x, y) <==> Reaches(db0, x, y)
  }

  lemma ShrinkKeepsValid(db0: Db, db: Db)
    requires ValidDb(db0) && OnlyPrereqsShrink(db0, db)
    ensures ValidDb(db)
  {
    forall i, q | 0 <= i < |db| && q in db[i].prereqs ensures q < |db| {
      assert q in multiset(db[i].prereqs);
      assert q in multiset(db0[i].prereqs);
      assert q in db0[i].prereqs;
    }
  }

  lemma ShrinkKeepsRank(db0: Db, db: Db, rank: map<Id, nat>)
    requires RankedOn(db0, rank) && OnlyPrereqsShrink(db0, db)
    ensures RankedOn(db, rank)
  {
    forall x, q | x in rank && q in db[x].prereqs ensures q in rank && rank[q] < rank[x] {
      assert q in multiset(db0[x].prereqs);
    }
  }

  /** The union of the ancestor lists of every entry of `ps` (`SelectMany(Ancestors)`). */
  method AncestorsOfAll(db: Db, ps: seq<Id>) returns (ancestors: seq<Id>)
    requires ValidDb(db) && forall q | q in ps :: q < |db|
    ensures forall y: Id :: y in ancestors <==> exists q | q in ps :: Reaches(db, q, y)
  {
    ancestors := [];
    var j := 0;
    while j < |ps|
      invariant 0 <= j <= |ps|
      invariant forall y: Id :: y in ancestors <==> exists q | q in ps[..j] :: Reaches(db, q, y)
    {
      assert ps[j] in ps;
      var a := Ancestors(db, ps[j]);
      assert ps[..j + 1] == ps[..j] + [ps[j]];
      ancestors := ancestors + a;
      j := j + 1;
    }
    assert ps[..j] == ps;
  }

  /** Removing one prerequisite that another prerequisite of `r` reaches keeps reachability. */
  lemma RemoveOneRedundant(db0: Db, db: Db, rank: map<Id, nat>, r: Id, a: Id)
    requires ValidDb(db0) && RankedOn(db0, rank) && r in rank
    requires OnlyPrereqsShrink(db0, db) && SameReach(db, db0) && RankedOn(db, rank)
    requires exists q | q in db0[r].prereqs :: Reaches(db0, q, a)
    ensures SameReach(RemovePrereq(db, r, a), db0)
  {
    ShrinkKeepsValid(db0, db);
    var q :| q in db0[r].prereqs && Reaches(db0, q, a);
    assert Step(db0, r, q);
    ReachesDirect(db0, r, q);
    var c1 := DetourExists(db, rank, r, q, a);
    forall x: Id, y: Id ensures Reaches(RemovePrereq(db, r, a), x, y) <==> Reaches(db, x, y) {
      RemoveKeepsReach(db, rank, r, a, c1, x, y);
    }
  }

  /** The removals of one turn only shrink the record's list. */
  lemma RemoveShrinks(db0: Db, db: Db, r: Id, a: Id)
    requires ValidDb(db0) && OnlyPrereqsShrink(db0, db) && r < |db|
    ensures OnlyPrereqsShrink(db0, RemovePrereq(db, r, a)) && ValidDb(RemovePrereq(db, r, a))
  {
    var db' := RemovePrereq(db, r, a);
    assert multiset(db'[r].prereqs) <= multiset(db[r].prereqs);
    ShrinkKeepsValid(db0, db');
  }

  /** What the removals of one turn keep, after removing the entries of `done`. */
  ghost predicate Progress(db0: Db, db: Db, r: Id, done: seq<Id>, rank: map<Id, nat>, ranked: bool)
  {
    && r < |db0|
    && ValidDb(db) && OnlyPrereqsShrink(db0, db)
    && (forall i | 0 <= i < |db| && i != r :: db[i] == db0[i])
    && (ranked ==> SameReach(db, db0) && RankedOn(db, rank))
    && (NoDup(db0[r].prereqs) ==> NoDup(db[r].prereqs) && forall a | a in done :: a !in db[r].prereqs)
  }

  lemma ProgressStep(db0: Db, db: Db, r: Id, done: seq<Id>, a: Id, rank: map<Id, nat>, ranked: bool)
    requires ValidDb(db0) && Progress(db0, db, r, done, rank, ranked)
    requires ranked ==> RankedOn(db0, rank) && r in rank && exists q | q in db0[r].prereqs :: Reaches(db0, q, a)
    ensures Progress(db0, RemovePrereq(db, r, a), r, done + [a], rank, ranked)
  {
    var db' := RemovePrereq(db, r, a);
    RemoveShrinks(db0, db, r, a);
    if ranked {
      RemoveOneRedundant(db0, db, rank, r, a);
      ShrinkKeepsRank(db0, db', rank);
    }
    if NoDup(db0[r].prereqs) {
      RemoveFirstNoDup(db[r].prereqs, a);
      forall b | b in done + [a] ensures b !in db'[r].prereqs {
        if b != a {
          assert b !in multiset(db[r].prereqs);
        }
      }
    }
  }

  /** `Remove` each entry of `redundant` from the prerequisites of `r`, in order. */
  method RemoveAll(db0: Db, r: Id, redundant: seq<Id>, ghost rank: map<Id, nat>) returns (db: Db)
    requires ValidDb(db0) && r < |db0|
    ensures ValidDb(db) && OnlyPrereqsShrink(db0, db)
    ensures forall i | 0 <= i < |db| && i != r :: db[i] == db0[i]
    ensures (RankedOn(db0, rank) && r in rank && forall a | a in redundant :: exists q | q in db0[r].prereqs :: Reaches(db0, q, a))
              ==> SameReach(db, db0) && RankedOn(db, rank)
    ensures NoDup(db0[r].prereqs) ==> NoDup(db[r].prereqs) && forall a | a in redundant :: a !in db[r].prereqs
  {
    db := db0;
    ghost var ranked := RankedOn(db0, rank) && r in rank && forall a | a in redundant :: exists q | q in db0[r].prereqs :: Reaches(db0, q, a);
    var k := 0;
    while k < |redundant|
      invariant 0 <= k <= |redundant|
      invariant Progress(db0, db, r, redundant[..k], rank, ranked)
    {
      assert redundant[k] in redundant;
      ProgressStep(db0, db, r, redundant[..k], redundant[k], rank, ranked);
      assert redundant[..k + 1] == redundant[..k] + [redundant[k]];
      db := RemovePrereq(db, r, redundant[k]);
      k := k + 1;
    }
    assert redundant[..k] == redundant;
  }

  /**
   * One record's turn in the first pass: every prerequisite that is an
   * ancestor of one of the prerequisites is removed (`Intersect`, then
   * `Remove` for each).
   */
  method CleanRecord(db0: Db, r: Id, ghost rank: map<Id, nat>) returns (db: Db)
    requires ValidDb(db0) && r < |db0|
    ensures ValidDb(db) && OnlyPrereqsShrink(db0, db)
    ensures forall i | 0 <= i < |db| && i != r :: db[i] == db0[i]
    ensures RankedOn(db0, rank) && r in rank ==> SameReach(db, db0) && RankedOn(db, rank)
    ensures RankedOn(db0, rank) && r in rank && NoDup(db0[r].prereqs) ==> Irredundant(db, r) && NoDup(db[r].prereqs)
  {
    var ps := db0[r].prereqs;
    if |ps| == 0 {
      return db0;
    }
    var ancestors := AncestorsOfAll(db0, ps);
    var implied := Filter(ancestors, (a: Id) => a in ps);
    var redundant := Distinct(implied);
    forall a | a in redundant ensures a in ancestors && a in ps {
      var i :| 0 <= i < |implied| && implied[i] == a;
    }
    forall a | a in ancestors && a in ps ensures a in redundant {
      FilterKeeps(ancestors, (a: Id) => a in ps, a);
    }
    db := RemoveAll(db0, r, redundant, rank);
    if RankedOn(db0, rank) && r in rank && NoDup(ps) {
      CleanedIrredundant(db0, db, r, ancestors, redundant);
    }
  }

  /** After the removals no remaining prerequisite is an ancestor of a remaining one. */
  lemma CleanedIrredundant(db0: Db, db: Db, r: Id, ancestors: seq<Id>, redundant: seq<Id>)
    requires r < |db0| && OnlyPrereqsShrink(db0, db) && SameReach(db, db0)
    requires forall y: Id :: y in ancestors <==> exists q | q in db0[r].prereqs :: Reaches(db0, q, y)
    requires forall a | a in ancestors && a in db0[r].prereqs :: a in redundant
    requires forall a | a in redundant :: a !in db[r].prereqs
    ensures Irredundant(db, r)
  {
    forall q, q2 | q in db[r].prereqs && q2 in db[r].prereqs ensures !Reaches(db, q2, q) {
      assert q2 in multiset(db0[r].prereqs) && q in multiset(db0[r].prereqs);
    }
  }

  /** What the first pass keeps after the turns of the records `done`. */
  ghost predicate PassInv(db0: Db, db: Db, recs: seq<Id>, done: seq<Id>, rank: map<Id, nat>, ranked: bool)
  {
    && ValidDb(db) && OnlyPrereqsShrink(db0, db)
    && (forall j | 0 <= j < |db| && j !in done :: db[j] == db0[j])
    && (ranked ==> SameReach(db, db0) && RankedOn(db, rank))
    && (ranked ==> forall r | r in done && NoDup(Pre(db0, r)) :: Irredundant(db, r) && NoDup(Pre(db, r)))
  }

  /** One more record's turn keeps `PassInv`. */
  lemma PassStep(db0: Db, before: Db, db: Db, recs: seq<Id>, done: seq<Id>, r: Id, rank: map<Id, nat>, ranked: bool)
    requires ValidDb(db0) && PassInv(db0, before, recs, done, rank, ranked) && r < |db0|
    requires ValidDb(db) && OnlyPrereqsShrink(before, db)
    requires forall i | 0 <= i < |db| && i != r :: db[i] == before[i]
    requires ranked ==> RankedOn(before, rank) && r in rank
    requires ranked ==> SameReach(db, before) && RankedOn(db, rank)
    requires ranked && NoDup(before[r].prereqs) ==> Irredundant(db, r) && NoDup(db[r].prereqs)
    ensures PassInv(db0, db, recs, done + [r], rank, ranked)
  {
    assert OnlyPrereqsShrink(db0, db) by {
      forall j | 0 <= j < |db| ensures multiset(db[j].prereqs) <= multiset(db0[j].prereqs) {
        assert multiset(db[j].prereqs) <= multiset(before[j].prereqs);
      }
    }
    if ranked {
      forall r' | r' in done + [r] && NoDup(Pre(db0, r'))
        ensures Irredundant(db, r') && NoDup(Pre(db, r'))
      {
        if r' != r {
          assert db[r'] == before[r'];
        } else if r !in done {
          assert before[r] == db0[r];
        }
      }
    }
  }

  /**
   * The first pass of `CheckPrerequisites` over the records that got a node,
   * in node order. On acyclic input it keeps reachability and leaves every
   * duplicate-free prerequisite list with no entry implied by another.
   */
  method RemoveRedundant(db0: Db, recs: seq<Id>, ghost rank: map<Id, nat>) returns (db: Db)
    requires ValidDb(db0) && forall r | r in recs :: r < |db0|
    ensures ValidDb(db) && OnlyPrereqsShrink(db0, db)
    ensures forall i | 0 <= i < |db| && i !in recs :: db[i] == db0[i]
    ensures RankedOn(db0, rank) && (forall r | r in recs :: r in rank) ==> SameReach(db, db0)
    ensures RankedOn(db0, rank) && (forall r | r in recs :: r in rank) ==>
              forall r | r in recs && NoDup(Pre(db0, r)) :: Irredundant(db, r)
  {
    db := db0;
    ghost var ranked := RankedOn(db0, rank) && (forall r | r in recs :: r in rank);
    var i := 0;
    while i < |recs|
      invariant 0 <= i <= |recs|
      invariant PassInv(db0, db, recs, recs[..i], rank, ranked)
    {
      var r := recs[i];
      assert r in recs;
      ghost var before := db;
      db := CleanRecord(db, r, rank);
      PassStep(db0, before, db, recs, recs[..i], r, rank, ranked);
      assert recs[..i + 1] == recs[..i] + [r];
      i := i + 1;
    }
    assert recs[..i] == recs;
  }

  // ---------------------------------------------------------------------------
  // Pass 2

  /** The highest tech level among the records `ps`. */
  function MaxTech(db: Db, ps: seq<Id>): (m: nat)
    requires |ps| > 0 && forall q: Id | q in ps :: q < |db|
    ensures forall q: Id | q in ps :: db[q].techLevel <= m
    ensures exists q: Id | q in ps :: db[q].techLevel == m
  {
    assert ps[0] in ps;
    if |ps| == 1 then db[ps[0]].techLevel
    else
      assert forall q: Id | q in ps[1..] :: q in ps;
      var m := MaxTech(db, ps[1..]);
      assert forall q: Id | q in ps :: q == ps[0] || q in ps[1..];
      if db[ps[0]].techLevel > m then db[ps[0]].techLevel else m
  }

  /** The highest tech level of the whole database (0 when it is empty). */
  function TopTech(db: Db): (m: nat)
    ensures forall i | 0 <= i < |db| :: db[i].techLevel <= m
  {
    if |db| == 0 then 0
    else
      var m := TopTech(db[..|db| - 1]);
      assert forall i | 0 <= i < |db| - 1 :: db[..|db| - 1][i] == db[i];
      if db[|db| - 1].techLevel > m then db[|db| - 1].techLevel else m
  }

  /** How far the first `n` tech levels are below `top`, summed. */
  function Gap(db: Db, top: nat, n: nat): nat
    requires n <= |db| && forall i | 0 <= i < |db| :: db[i].techLevel <= top
  {
    if n == 0 then 0 else Gap(db, top, n - 1) + (top - db[n - 1].techLevel)
  }

  lemma {:induction false} GapRaise(db: Db, top: nat, n: nat, r: Id, t: TechLevel)
    requires n <= |db| && forall i | 0 <= i < |db| :: db[i].techLevel <= top
    requires r < |db| && db[r].techLevel < t <= top
    ensures r < n ==> Gap(db[r := db[r].(techLevel := t)], top, n) < Gap(db, top, n)
    ensures r >= n ==> Gap(db[r := db[r].(techLevel := t)], top, n) == Gap(db, top, n)
  {
    if n > 0 {
      GapRaise(db, top, n - 1, r, t);
    }
  }

  /**
   * Raising `r` to the highest tech level among its prerequisites keeps the
   * database valid, only raises a level, and shrinks the total gap.
   */
  lemma RaiseStep(db0: Db, db: Db, top: nat, r: Id)
    requires ValidDb(db) && OnlyTechRises(db0, db, top) && r < |db|
    requires |db[r].prereqs| > 0 && exists q: Id | q in db[r].prereqs :: db[q].techLevel > db[r].techLevel
    ensures var raised := db[r := db[r].(techLevel := MaxTech(db, db[r].prereqs))];
            ValidDb(raised) && OnlyTechRises(db0, raised, top) && Gap(raised, top, |raised|) < Gap(db, top, |db|)
  {
    var t := MaxTech(db, db[r].prereqs);
    GapRaise(db, top, |db|, r, t);
  }

  /** No prerequisite of `r` has a higher tech level than `r`. */
  predicate TechSettled(db: Db, r: Id)
    requires ValidDb(db)
  {
    r < |db| && forall q: Id | q in db[r].prereqs :: db[q].techLevel <= db[r].techLevel
  }

  /** Only tech levels may differ, and they only rise, never above `top`. */
  predicate OnlyTechRises(db0: Db, db: Db, top: nat)
  {
    && |db| == |db0|
    && forall i | 0 <= i < |db| ::
         db[i] == db0[i].(techLevel := db[i].techLevel) && db0[i].techLevel <= db[i].techLevel <= top
  }

  /**
   * The second pass of `CheckPrerequisites`: a queue of records, first the
   * records with a node in node order; a record with a prerequisite of higher
   * tech level is raised to the highest prerequisite tech level and the
   * records `requeue` names for it (the node's descendants) are queued again.
   * Every raise lowers the total distance to the highest tech level, so the
   * queue empties on every input. When `requeue` names every dependant in
   * `recs`, the records of `recs` end with no prerequisite above them.
   */
  method FixTechLevels(db0: Db, recs: seq<Id>, requeue: Id -> seq<Id>) returns (db: Db)
    requires ValidDb(db0) && forall r | r in recs :: r < |db0|
    requires forall r: Id, x: Id | x in requeue(r) :: x < |db0|
    ensures ValidDb(db) && OnlyTechRises(db0, db, TopTech(db0))
    ensures (forall q: Id, x: Id | x in recs && q in db0[x].prereqs :: x in requeue(q)) ==>
              forall r | r in recs :: TechSettled(db, r)
  {
    db := db0;
    var top := TopTech(db0);
    var queue := recs;
    while |queue| > 0
      invariant Fixing(db0, db, top, recs, requeue, queue)
      decreases Gap(db, top, |db|), |queue|
    {
      var r := queue[0];
      assert r in queue;
      var ps := db[r].prereqs;
      if |ps| > 0 && exists q: Id | q in ps :: db[q].techLevel > db[r].techLevel {
        RaiseFixing(db0, db, top, recs, requeue, queue);
        db, queue := db[r := db[r].(techLevel := MaxTech(db, ps))], queue[1..] + requeue(r);
      } else {
        SkipFixing(db0, db, top, recs, requeue, queue);
        queue := queue[1..];
      }
    }
  }

  /** Every dependant of a record of `recs` is among the records `requeue` names for it. */
  ghost predicate Covered(db0: Db, recs: seq<Id>, requeue: Id -> seq<Id>)
  {
    forall q: Id, x: Id | x in recs && x < |db0| && q in db0[x].prereqs :: x in requeue(q)
  }

  /** The loop invariant of `FixTechLevels`. */
  ghost predicate Fixing(db0: Db, db: Db, top: nat, recs: seq<Id>, requeue: Id -> seq<Id>, queue: seq<Id>)
  {
    && ValidDb(db) && OnlyTechRises(db0, db, top)
    && (forall x: Id | x in queue :: x < |db|)
    && (Covered(db0, recs, requeue) ==> forall r | r in recs :: TechSettled(db, r) || r in queue)
  }

  /** Raising the head of the queue keeps the invariant and shrinks the gap. */
  lemma RaiseFixing(db0: Db, db: Db, top: nat, recs: seq<Id>, requeue: Id -> seq<Id>, queue: seq<Id>)
    requires Fixing(db0, db, top, recs, requeue, queue) && |queue| > 0 && queue[0] < |db|
    requires (forall r | r in recs :: r < |db0|) && forall r: Id, x: Id | x in requeue(r) :: x < |db0|
    requires |db[queue[0]].prereqs| > 0 && exists q: Id | q in db[queue[0]].prereqs :: db[q].techLevel > db[queue[0]].techLevel
    ensures var r := queue[0];
            var raised := db[r := db[r].(techLevel := MaxTech(db, db[r].prereqs))];
            Fixing(db0, raised, top, recs, requeue, queue[1..] + requeue(r)) && Gap(raised, top, |raised|) < Gap(db, top, |db|)
  {
    var r := queue[0];
    var t := MaxTech(db, db[r].prereqs);
    RaiseStep(db0, db, top, r);
    var raised := db[r := db[r].(techLevel := t)];
    assert forall x: Id | x in queue[1..] :: x in queue;
    if Covered(db0, recs, requeue) {
      RaiseSettles(db0, db, raised, recs, requeue, queue, t);
    }
  }

  /** Dropping a settled head of the queue keeps the invariant. */
  lemma SkipFixing(db0: Db, db: Db, top: nat, recs: seq<Id>, requeue: Id -> seq<Id>, queue: seq<Id>)
    requires Fixing(db0, db, top, recs, requeue, queue) && |queue| > 0 && queue[0] < |db|
    requires !(|db[queue[0]].prereqs| > 0 && exists q: Id | q in db[queue[0]].prereqs :: db[q].techLevel > db[queue[0]].techLevel)
    ensures Fixing(db0, db, top, recs, requeue, queue[1..])
  {
    assert forall x: Id | x in queue[1..] :: x in queue;
    if Covered(db0, recs, requeue) {
      SkipSettles(db, recs, queue);
    }
  }

  /**
   * Raising the head of the queue and queueing its dependants again keeps
   * every record of `recs` settled or queued.
   */
  lemma RaiseSettles(db0: Db, before: Db, db: Db, recs: seq<Id>, requeue: Id -> seq<Id>, queue: seq<Id>, t: TechLevel)
    requires ValidDb(before) && ValidDb(db) && |before| == |db0| && forall x | x in recs :: x < |db0|
    requires forall i | 0 <= i < |before| :: before[i].prereqs == db0[i].prereqs
    requires |queue| > 0 && queue[0] < |before|
    requires forall q: Id | q in before[queue[0]].prereqs :: before[q].techLevel <= t
    requires db == before[queue[0] := before[queue[0]].(techLevel := t)]
    requires Covered(db0, recs, requeue)
    requires forall x | x in recs :: TechSettled(before, x) || x in queue
    ensures forall x | x in recs :: TechSettled(db, x) || x in queue[1..] + requeue(queue[0])
  {
    var r := queue[0];
    forall x | x in recs ensures TechSettled(db, x) || x in queue[1..] + requeue(r) {
      if x == r {
        assert TechSettled(db, r);
      } else if r in db0[x].prereqs {
        assert x in requeue(r);
      } else if !TechSettled(db, x) {
        assert !TechSettled(before, x);
        assert x in queue && x != queue[0];
        assert x in queue[1..];
      }
    }
  }

  /** Dropping a settled head of the queue keeps every record of `recs` settled or queued. */
  lemma SkipSettles(db: Db, recs: seq<Id>, queue: seq<Id>)
    requires ValidDb(db) && |queue| > 0 && TechSettled(db, queue[0])
    requires forall x | x in recs :: TechSettled(db, x) || x in queue
    ensures forall x | x in recs :: TechSettled(db, x) || x in queue[1..]
  {
    forall x | x in recs && !TechSettled(db, x) ensures x in queue[1..] {
      assert x in queue && x != queue[0];
    }
  }

  /** Tech levels play no part in reachability. */
  lemma TechKeepsReach(db0: Db, db: Db, top: nat, x: Id, y: Id)
    requires OnlyTechRises(db0, db, top)
    ensures Reaches(db, x, y) <==> Reaches(db0, x, y)
  {
    assert forall a: Id, b: Id :: Step(db, a, b) <==> Step(db0, a, b);
    if Reaches(db, x, y) {
      var c :| IsChain(db, c) && c[0] == x && c[|c| - 1] == y;
      assert IsChain(db0, c);
    }
    if Reaches(db0, x, y) {
      var c :| IsChain(db0, c) && c[0] == x && c[|c| - 1] == y;
      assert IsChain(db, c);
    }
  }

  /**
   * `Tree.CheckPrerequisites`: both passes over the records with a node.
   * On acyclic input reachability is kept and duplicate-free prerequisite
   * lists end irredundant; when `requeue` names every dependant the tech
   * levels end settled.
   */
  method CheckPrerequisites(db0: Db, recs: seq<Id>, ghost rank: map<Id, nat>, requeue: Id -> seq<Id>) returns (db: Db)
    requires ValidDb(db0) && forall r | r in recs :: r < |db0|
    requires forall r: Id, x: Id | x in requeue(r) :: x < |db0|
    ensures ValidDb(db) && |db| == |db0|
    ensures forall i | 0 <= i < |db| :: db[i].techLevel >= db0[i].techLevel && multiset(db[i].prereqs) <= multiset(db0[i].prereqs)
    ensures RankedOn(db0, rank) && (forall r | r in recs :: r in rank) ==>
              SameReach(db, db0) && forall r | r in recs && NoDup(Pre(db0, r)) :: Irredundant(db, r)
    ensures (forall q: Id, x: Id | x in recs && q in db0[x].prereqs :: x in requeue(q)) ==>
              forall r | r in recs :: TechSettled(db, r)
  {
    var db1 := RemoveRedundant(db0, recs, rank);
    db := FixTechLevels(db1, recs, requeue);
    forall x: Id, y: Id ensures Reaches(db, x, y) <==> Reaches(db1, x, y) {
      TechKeepsReach(db1, db, TopTech(db1), x, y);
    }
    forall r | r in recs && Irredundant(db1, r) ensures Irredundant(db, r) {
      assert db[r].prereqs == db1[r].prereqs;
    }
    forall q: Id, x: Id | x in recs && q in db1[x].prereqs ensures q in db0[x].prereqs {
      assert q in multiset(db0[x].prereqs);
    }
  }
}

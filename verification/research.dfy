/**
 * Research records and the prerequisite relation between them, with the
 * ancestor and descendant walks of the `ResearchProjectDef` extensions.
 */
module ResearchDefs {
  import opened Wrappers
  import opened Seqs

  /** A record is named by its position in the definition database. */
  type Id = nat

  /** The number of `TechLevel` values (Undefined, Animal, ..., Archotech). */
  const TechLevelCount: nat := 8

  /** A `TechLevel` enum value, by its underlying number. */
  type TechLevel = t: nat | t < TechLevelCount

  /**
   * One research definition. A null prerequisite list is the empty list: every
   * place that reads it treats null and empty alike.
   */
  datatype Record = Record(
    prereqs: seq<Id>,
    techLevel: TechLevel,
    modName: Option<string>,
    finished: bool,
    title: string,
    description: string,
    viewY: real)

  /** `DefDatabase<ResearchProjectDef>.AllDefsListForReading`. */
  type Db = seq<Record>

  /** Every prerequisite reference names a record of the database. */
  predicate ValidDb(db: Db)
  {
    forall i, q | 0 <= i < |db| && q in db[i].prereqs :: q < |db|
  }

  function Pre(db: Db, x: Id): seq<Id>
  {
    if x < |db| then db[x].prereqs else []
  }

  /** `y` is a prerequisite of `x` other than `x` itself. */
  predicate Step(db: Db, x: Id, y: Id)
  {
    y in Pre(db, x) && y != x
  }

  /** A prerequisite chain c[0] -> c[1] -> ... of at least one step. */
  ghost predicate IsChain(db: Db, c: seq<Id>)
  {
    |c| >= 2 && forall i | 0 <= i < |c| - 1 :: Step(db, c[i], c[i + 1])
  }

  /** `y` is reached from `x` by following prerequisites, skipping self references. */
  ghost predicate Reaches(db: Db, x: Id, y: Id)
  {
    exists c :: IsChain(db, c) && c[0] == x && c[|c| - 1] == y
  }

  lemma ReachesDirect(db: Db, x: Id, y: Id)
    requires Step(db, x, y)
    ensures Reaches(db, x, y)
  {
    assert IsChain(db, [x, y]);
  }

  lemma ReachesNeedsStep(db: Db, x: Id, y: Id)
    ensures Reaches(db, x, y) ==> |Pre(db, x)| > 0
  {
    if Reaches(db, x, y) {
      var c :| IsChain(db, c) && c[0] == x && c[|c| - 1] == y;
      assert Step(db, c[0], c[1]);
    }
  }

  lemma ReachesExtend(db: Db, x: Id, y: Id, z: Id)
    requires Reaches(db, x, y) && Step(db, y, z)
    ensures Reaches(db, x, z)
  {
    var c :| IsChain(db, c) && c[0] == x && c[|c| - 1] == y;
    assert IsChain(db, c + [z]);
  }

  lemma ReachesPrepend(db: Db, x: Id, y: Id, z: Id)
    requires Step(db, x, y) && Reaches(db, y, z)
    ensures Reaches(db, x, z)
  {
    var c :| IsChain(db, c) && c[0] == y && c[|c| - 1] == z;
    assert IsChain(db, [x] + c);
  }

  lemma ReachesTrans(db: Db, x: Id, y: Id, z: Id)
    requires Reaches(db, x, y) && Reaches(db, y, z)
    ensures Reaches(db, x, z)
  {
    var c :| IsChain(db, c) && c[0] == x && c[|c| - 1] == y;
    var d :| IsChain(db, d) && d[0] == y && d[|d| - 1] == z;
    var e := c + d[1..];
    assert IsChain(db, e) by {
      forall i | 0 <= i < |e| - 1 ensures Step(db, e[i], e[i + 1]) {
        if i < |c| - 1 {
          assert e[i] == c[i] && e[i + 1] == c[i + 1];
        } else {
          assert e[i] == d[i - |c| + 1] && e[i + 1] == d[i - |c| + 2];
        }
      }
    }
  }

  /** A set holding the first steps from `r` and closed under steps holds all `r` reaches. */
  lemma ClosedContainsReached(db: Db, r: Id, s: set<Id>, y: Id)
    requires forall q | Step(db, r, q) :: q in s
    requires forall a, b | a in s && Step(db, a, b) :: b in s
    requires Reaches(db, r, y)
    ensures y in s
  {
    var c :| IsChain(db, c) && c[0] == r && c[|c| - 1] == y;
    var i := 1;
    while i < |c| - 1
      invariant 1 <= i <= |c| - 1
      invariant c[i] in s
    {
      assert Step(db, c[i], c[i + 1]);
      i := i + 1;
    }
  }

  // ---------------------------------------------------------------------------
  // Acyclicity, witnessed by a rank that drops along every prerequisite.

  /**
   * `rank` is defined on a set of records closed under prerequisites, and every
   * prerequisite has a strictly lower rank than the record listing it.
   */
  ghost predicate RankedOn(db: Db, rank: map<Id, nat>)
  {
    forall x | x in rank ::
      && x < |db|
      && rank[x] < |db|
      && forall q | q in db[x].prereqs :: q in rank && rank[q] < rank[x]
  }

  /**
   * `rank` is defined on a set of records closed under "lists as a
   * prerequisite", and every record listing a ranked record has a strictly
   * lower rank: the dependants of a ranked record hold no cycle. Records
   * outside, such as a hidden record that lists itself, need no rank.
   */
  ghost predicate DependantsRanked(db: Db, rank: map<Id, nat>)
  {
    forall x | x in rank ::
      && x < |db|
      && forall y | 0 <= y < |db| && x in db[y].prereqs :: y in rank && rank[y] < rank[x]
  }

  lemma {:induction false} ChainRankDrops(db: Db, rank: map<Id, nat>, c: seq<Id>)
    requires RankedOn(db, rank) && IsChain(db, c) && c[0] in rank
    ensures c[|c| - 1] in rank && rank[c[|c| - 1]] < rank[c[0]]
  {
    if |c| > 2 {
      assert IsChain(db, c[1..]);
      ChainRankDrops(db, rank, c[1..]);
    }
  }

  /** Under a rank nothing reaches itself. */
  lemma ReachesLowersRank(db: Db, rank: map<Id, nat>, x: Id, y: Id)
    requires RankedOn(db, rank) && x in rank && Reaches(db, x, y)
    ensures y in rank && rank[y] < rank[x]
  {
    var c :| IsChain(db, c) && c[0] == x && c[|c| - 1] == y;
    ChainRankDrops(db, rank, c);
  }

  // ---------------------------------------------------------------------------
  // Ancestors

  /** The ids below `n` that are not listed. */
  function Unlisted(n: nat, listed: set<Id>): nat
  {
    if n == 0 then 0 else Unlisted(n - 1, listed) + (if n - 1 in listed then 0 else 1)
  }

  lemma {:induction false} UnlistedAdd(n: nat, listed: set<Id>, p: Id)
    requires p < n && p !in listed
    ensures Unlisted(n, listed + {p}) == Unlisted(n, listed) - 1
    ensures Unlisted(n, listed) > 0
  {
    if p < n - 1 {
      UnlistedAdd(n - 1, listed, p);
    } else {
      UnlistedSame(n - 1, listed, listed + {p});
    }
  }

  lemma {:induction false} UnlistedSame(n: nat, a: set<Id>, b: set<Id>)
    requires forall i: Id | i < n :: i in a <==> i in b
    ensures Unlisted(n, a) == Unlisted(n, b)
  {
    if n > 0 {
      UnlistedSame(n - 1, a, b);
    }
  }

  function SeqSet(s: seq<Id>): set<Id>
  {
    set x | x in s
  }

  /** Stack entries (counted from the top) that are already on the result list. */
  function ListedCount(stack: seq<Id>, listed: set<Id>): nat
  {
    if |stack| == 0 then 0
    else ListedCount(stack[..|stack| - 1], listed) + (if stack[|stack| - 1] in listed then 1 else 0)
  }

  lemma {:induction false} ListedCountAppendUnlisted(stack: seq<Id>, pushes: seq<Id>, listed: set<Id>)
    requires forall y | y in pushes :: y !in listed
    ensures ListedCount(stack + pushes, listed) == ListedCount(stack, listed)
  {
    if |pushes| > 0 {
      var p := pushes[..|pushes| - 1];
      assert (stack + pushes)[..|stack + pushes| - 1] == stack + p;
      ListedCountAppendUnlisted(stack, p, listed);
    } else {
      assert stack + pushes == stack;
    }
  }

  /**
   * The walk's invariant: everything on the stack or the list is reached from
   * `r`, every first step is on one of them, and the list is closed under steps
   * up to what is still on the stack.
   */
  ghost predicate WalkInv(db: Db, r: Id, stack: seq<Id>, listed: seq<Id>)
  {
    && (forall y: Id | y in stack :: y < |db| && Reaches(db, r, y))
    && (forall y: Id | y in listed :: y < |db| && Reaches(db, r, y))
    && (forall q: Id | Step(db, r, q) :: q in stack || q in listed)
    && (forall a: Id, b: Id | a in listed && Step(db, a, b) :: b in listed || b in stack)
  }

  lemma WalkStep(db: Db, r: Id, stack: seq<Id>, listed: seq<Id>, pushes: seq<Id>)
    requires ValidDb(db) && WalkInv(db, r, stack, listed) && |stack| > 0
    requires forall b: Id | b in pushes :: Step(db, stack[|stack| - 1], b)
    requires forall b: Id | Step(db, stack[|stack| - 1], b) && b !in listed + [stack[|stack| - 1]] :: b in pushes
    ensures WalkInv(db, r, stack[..|stack| - 1] + pushes, listed + [stack[|stack| - 1]])
  {
    var parent := stack[|stack| - 1];
    var rest := stack[..|stack| - 1];
    var stack', listed' := rest + pushes, listed + [parent];
    assert stack == rest + [parent];
    assert parent in stack;
    forall y: Id | y in stack' ensures y < |db| && Reaches(db, r, y) {
      if y in pushes {
        ReachesExtend(db, r, parent, y);
      } else {
        assert y in rest && y in stack;
      }
    }
    forall y: Id | y in listed' ensures y < |db| && Reaches(db, r, y) {
      if y != parent {
        assert y in listed;
      }
    }
    forall q: Id | Step(db, r, q) ensures q in stack' || q in listed' {
      assert q in stack || q in listed;
      if q in stack && q != parent {
        assert q in rest;
      }
    }
    forall a: Id, b: Id | a in listed' && Step(db, a, b) ensures b in listed' || b in stack' {
      if a != parent {
        assert a in listed;
        assert b in listed || b in stack;
        if b in stack && b != parent {
          assert b in rest;
        }
      }
    }
  }

  /**
   * `ResearchProjectDef.Ancestors`: a stack walk over prerequisites. The record's
   * own self reference never enters the stack, a parent never pushes itself, and
   * nothing already listed is pushed again; the list is de-duplicated at the end.
   * The walk ends on every input, cyclic or not.
   */
  method Ancestors(db: Db, r: Id) returns (ancestors: seq<Id>)
    requires ValidDb(db) && r < |db|
    ensures NoDup(ancestors)
    ensures Pre(db, r) == [] ==> ancestors == []
    ensures forall y :: y in ancestors <==> Reaches(db, r, y)
  {
    var prerequisites: seq<Id> := [];
    if |db[r].prereqs| == 0 {
      forall y: Id ensures !Reaches(db, r, y) {
        ReachesNeedsStep(db, r, y);
      }
      return prerequisites;
    }
    var stack: seq<Id> := Filter<Id>(db[r].prereqs, (q: Id) => q != r);
    forall q: Id | Step(db, r, q) ensures q in stack {
      FilterKeeps<Id>(db[r].prereqs, (q: Id) => q != r, q);
    }
    forall y: Id | y in stack ensures y < |db| && Reaches(db, r, y) {
      ReachesDirect(db, r, y);
    }
    while |stack| > 0
      invariant WalkInv(db, r, stack, prerequisites)
      decreases Unlisted(|db|, SeqSet(prerequisites)), ListedCount(stack, SeqSet(prerequisites))
    {
      var parent := stack[|stack| - 1];
      assert parent in stack;
      ghost var oldListed := SeqSet(prerequisites);
      var listed := prerequisites + [parent];
      var pushes: seq<Id> := Filter<Id>(db[parent].prereqs, (g: Id) => g != parent && g !in listed);
      forall b: Id | Step(db, parent, b) && b !in listed ensures b in pushes {
        FilterKeeps<Id>(db[parent].prereqs, (g: Id) => g != parent && g !in listed, b);
      }
      WalkStep(db, r, stack, prerequisites, pushes);
      if parent in oldListed {
        assert SeqSet(listed) == oldListed;
        ListedCountAppendUnlisted(stack[..|stack| - 1], pushes, oldListed);
      } else {
        assert SeqSet(listed) == oldListed + {parent};
        UnlistedAdd(|db|, oldListed, parent);
      }
      stack := stack[..|stack| - 1] + pushes;
      prerequisites := listed;
    }
    forall y: Id | Reaches(db, r, y) ensures y in SeqSet(prerequisites) {
      ClosedContainsReached(db, r, SeqSet(prerequisites), y);
    }
    ancestors := Distinct(prerequisites);
  }

  // ---------------------------------------------------------------------------
  // Descendants

  /**
   * `ResearchProjectDef.Descendants`: every record that lists `r`, and every
   * record that lists one of those, and so on. The source walks a queue without
   * filtering visited records, so it ends only when the dependants of `r`
   * hold no cycle, which `rank` witnesses; the result is a hash set, so only
   * its contents are modelled.
   */
  function Descendants(db: Db, ghost rank: map<Id, nat>, r: Id): (d: set<Id>)
    requires ValidDb(db) && DependantsRanked(db, rank) && r in rank
    ensures forall x | x in d :: x < |db|
    decreases rank[r], |db| + 1
  {
    DescendantsFrom(db, rank, r, 0)
  }

  /** The descendants of `r` contributed by the records at positions `i..`. */
  function DescendantsFrom(db: Db, ghost rank: map<Id, nat>, r: Id, i: nat): (d: set<Id>)
    requires ValidDb(db) && DependantsRanked(db, rank) && r in rank && i <= |db|
    ensures forall x | x in d :: x < |db|
    decreases rank[r], |db| - i
  {
    if i == |db| then {}
    else if r in db[i].prereqs then
      assert rank[i] < rank[r];
      {i} + Descendants(db, rank, i) + DescendantsFrom(db, rank, r, i + 1)
    else DescendantsFrom(db, rank, r, i + 1)
  }

  lemma {:induction false} DescendantsFromSound(db: Db, rank: map<Id, nat>, r: Id, i: nat)
    requires ValidDb(db) && DependantsRanked(db, rank) && r in rank && i <= |db|
    ensures forall x | x in DescendantsFrom(db, rank, r, i) :: Reaches(db, x, r)
    decreases rank[r], |db| - i
  {
    if i < |db| {
      DescendantsFromSound(db, rank, r, i + 1);
      if r in db[i].prereqs {
        assert Step(db, i, r);
        ReachesDirect(db, i, r);
        DescendantsFromSound(db, rank, i, 0);
        forall x | x in Descendants(db, rank, i) ensures Reaches(db, x, r) {
          ReachesExtend(db, x, i, r);
        }
      }
    }
  }

  lemma {:induction false} DescendantsFromHoldsChildren(db: Db, rank: map<Id, nat>, r: Id, i: nat, c: Id)
    requires ValidDb(db) && DependantsRanked(db, rank) && r in rank && i <= c < |db|
    requires r in db[c].prereqs
    ensures c in DescendantsFrom(db, rank, r, i)
    ensures Descendants(db, rank, c) <= DescendantsFrom(db, rank, r, i)
    decreases c - i
  {
    if i < c {
      DescendantsFromHoldsChildren(db, rank, r, i + 1, c);
    }
  }

  /**
   * The descendants are exactly the records that reach `r` through prerequisites:
   * they include every record listing `r` and are closed under "is a prerequisite of".
   */
  lemma {:induction false} DescendantsExact(db: Db, rank: map<Id, nat>, r: Id, x: Id)
    requires ValidDb(db) && DependantsRanked(db, rank) && r in rank
    ensures x in Descendants(db, rank, r) <==> x < |db| && Reaches(db, x, r)
  {
    DescendantsFromSound(db, rank, r, 0);
    if x < |db| && Reaches(db, x, r) {
      var c :| IsChain(db, c) && c[0] == x && c[|c| - 1] == r;
      DescendantsOfChain(db, rank, c);
    }
  }

  lemma {:induction false} DescendantsOfChain(db: Db, rank: map<Id, nat>, c: seq<Id>)
    requires ValidDb(db) && DependantsRanked(db, rank) && IsChain(db, c) && c[0] < |db| && c[|c| - 1] in rank
    ensures c[|c| - 1] < |db|
    ensures c[0] in Descendants(db, rank, c[|c| - 1])
    decreases |c|
  {
    var last := c[|c| - 1];
    var prev := c[|c| - 2];
    if |c| == 2 {
      DescendantsFromHoldsChildren(db, rank, last, 0, c[0]);
    } else {
      var front := c[..|c| - 1];
      assert IsChain(db, front);
      DescendantsOfChain(db, rank, front);
      assert Step(db, prev, last);
      DescendantsFromHoldsChildren(db, rank, last, 0, prev);
    }
  }

  /**
   * Record 1 lists record 0; record 2 is hidden because it lists itself and
   * is unrelated to record 0.
   */
  function HiddenBesideDb(): (db: Db)
    ensures ValidDb(db)
  {
    [ Record([], 0, None, false, "", "", 0.0),
      Record([0], 0, None, false, "", "", 0.0),
      Record([2], 0, None, false, "", "", 0.0) ]
  }

  /**
   * The walk from record 0 of `HiddenBesideDb` finds record 1 only, although
   * the self-listing record 2 keeps every rank from covering the whole database.
   */
  lemma HiddenBesideDescendants()
    ensures DependantsRanked(HiddenBesideDb(), map[0 := 1, 1 := 0])
    ensures Descendants(HiddenBesideDb(), map[0 := 1, 1 := 0], 0) == {1}
    ensures forall rank | RankedOn(HiddenBesideDb(), rank) :: 2 !in rank
  {
    var db, rank := HiddenBesideDb(), map[0 := 1, 1 := 0];
    assert 2 in db[2].prereqs;
    assert Descendants(db, rank, 1) == {};
  }
}

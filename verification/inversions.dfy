/**
 * Crossing count of one layer boundary: the edges' (In.Y, Out.Y) row pairs are
 * sorted by In.Y then Out.Y and the inversions of the Out.Y sequence are counted.
 */
module Inversions {
  import opened Sorting

  /** The rows (In.Y, Out.Y) of one edge. */
  type RowPair = (int, int)

  /** `OrderBy(e => e.In.Y).ThenBy(e => e.Out.Y)` as a comparison. */
  predicate LexLe(a: RowPair, b: RowPair)
  {
    a.0 < b.0 || (a.0 == b.0 && a.1 <= b.1)
  }

  lemma LexLeIsTotalOrder()
    ensures TotalOrder(LexLe)
  {
  }

  function Outs(s: seq<RowPair>): (r: seq<int>)
    ensures |r| == |s|
    ensures forall i | 0 <= i < |s| :: r[i] == s[i].1
  {
    if |s| == 0 then [] else [s[0].1] + Outs(s[1..])
  }

  /** How many entries of `t` lie strictly below `v`. */
  function CountBelow(t: seq<int>, v: int): (n: nat)
    ensures n <= |t|
  {
    if |t| == 0 then 0 else (if t[0] < v then 1 else 0) + CountBelow(t[1..], v)
  }

  /** The number of pairs i < j with s[j] < s[i]. */
  function Inv(s: seq<int>): nat
  {
    if |s| == 0 then 0 else CountBelow(s[1..], s[0]) + Inv(s[1..])
  }

  predicate NonDecreasing(s: seq<int>)
  {
    forall i, j | 0 <= i < j < |s| :: s[i] <= s[j]
  }

  /** The edge list of a boundary in the order the crossing count walks it. */
  function SortedPairs(pairs: seq<RowPair>): (r: seq<RowPair>)
    ensures multiset(r) == multiset(pairs)
    ensures Sorted(LexLe, r)
  {
    LexLeIsTotalOrder();
    SortSorted(LexLe, pairs);
    Sort(LexLe, pairs)
  }

  /** `Tree.Crossings(layer, in)` once the boundary's edges are gathered. */
  function Crossings(pairs: seq<RowPair>): (c: nat)
    ensures |pairs| < 2 ==> c == 0
  {
    var s := SortedPairs(pairs);
    if |s| < 2 then 0 else Inv(Outs(s))
  }

  lemma {:induction false} CountBelowZero(t: seq<int>, v: int)
    ensures CountBelow(t, v) == 0 <==> forall j | 0 <= j < |t| :: v <= t[j]
  {
    if |t| > 0 {
      CountBelowZero(t[1..], v);
      assert forall j | 1 <= j < |t| :: t[1..][j - 1] == t[j];
    }
  }

  /** No inversion exactly when the sequence never goes down. */
  lemma {:induction false} InvZeroIff(s: seq<int>)
    ensures Inv(s) == 0 <==> NonDecreasing(s)
  {
    if |s| > 0 {
      InvZeroIff(s[1..]);
      CountBelowZero(s[1..], s[0]);
      assert forall i | 1 <= i < |s| :: s[1..][i - 1] == s[i];
      if NonDecreasing(s) {
        assert NonDecreasing(s[1..]);
      }
    }
  }

  /** At most every pair is inverted. */
  lemma {:induction false} InvBound(s: seq<int>)
    ensures 2 * Inv(s) <= |s| * (|s| - 1)
  {
    if |s| > 0 {
      InvBound(s[1..]);
      assert 2 * Inv(s) <= 2 * (|s| - 1) + (|s| - 1) * (|s| - 2);
      TriangleStep(|s|);
    }
  }

  lemma TriangleStep(n: int)
    ensures 2 * (n - 1) + (n - 1) * (n - 2) == n * (n - 1)
  {
  }

  /** A boundary has no crossing exactly when, in sorted order, the Out rows never go down. */
  lemma CrossingsZeroIff(pairs: seq<RowPair>)
    ensures Crossings(pairs) == 0 <==> NonDecreasing(Outs(SortedPairs(pairs)))
  {
    InvZeroIff(Outs(SortedPairs(pairs)));
  }

  /** A boundary with n edges has at most n(n-1)/2 crossings. */
  lemma CrossingsBound(pairs: seq<RowPair>)
    ensures 2 * Crossings(pairs) <= |pairs| * (|pairs| - 1)
  {
    InvBound(Outs(SortedPairs(pairs)));
  }

  // ---------------------------------------------------------------------------
  // An order-independent reference: pairs of segments that cross geometrically.

  /** Two segments between the same two layers cross strictly. */
  predicate Cross(a: RowPair, b: RowPair)
  {
    (a.0 < b.0 && b.1 < a.1) || (b.0 < a.0 && a.1 < b.1)
  }

  function CrossCount(x: RowPair, t: seq<RowPair>): nat
  {
    if |t| == 0 then 0 else (if Cross(x, t[0]) then 1 else 0) + CrossCount(x, t[1..])
  }

  /** The number of unordered pairs of segments that cross. */
  function CrossPairs(s: seq<RowPair>): nat
  {
    if |s| == 0 then 0 else CrossCount(s[0], s[1..]) + CrossPairs(s[1..])
  }

  lemma {:induction false} CrossCountInsert(z: RowPair, x: RowPair, t: seq<RowPair>)
    ensures CrossCount(z, Insert(LexLe, x, t)) == (if Cross(z, x) then 1 else 0) + CrossCount(z, t)
  {
    if |t| > 0 && !LexLe(x, t[0]) {
      CrossCountInsert(z, x, t[1..]);
    }
  }

  lemma {:induction false} CrossPairsInsert(x: RowPair, t: seq<RowPair>)
    ensures CrossPairs(Insert(LexLe, x, t)) == CrossCount(x, t) + CrossPairs(t)
  {
    if |t| > 0 && !LexLe(x, t[0]) {
      CrossPairsInsert(x, t[1..]);
      CrossCountInsert(t[0], x, t[1..]);
    }
  }

  lemma {:induction false} CrossCountSort(z: RowPair, s: seq<RowPair>)
    ensures CrossCount(z, Sort(LexLe, s)) == CrossCount(z, s)
  {
    if |s| > 0 {
      CrossCountSort(z, s[1..]);
      CrossCountInsert(z, s[0], Sort(LexLe, s[1..]));
    }
  }

  lemma {:induction false} CrossPairsSort(s: seq<RowPair>)
    ensures CrossPairs(Sort(LexLe, s)) == CrossPairs(s)
  {
    if |s| > 0 {
      CrossPairsSort(s[1..]);
      CrossPairsInsert(s[0], Sort(LexLe, s[1..]));
      CrossCountSort(s[0], s[1..]);
    }
  }

  /** Below a lexicographic minimum, "Out row lower" and "crosses" coincide. */
  lemma {:induction false} CountBelowIsCrossCount(x: RowPair, t: seq<RowPair>)
    requires forall j | 0 <= j < |t| :: LexLe(x, t[j])
    ensures CountBelow(Outs(t), x.1) == CrossCount(x, t)
  {
    if |t| > 0 {
      assert Outs(t)[1..] == Outs(t[1..]);
      CountBelowIsCrossCount(x, t[1..]);
    }
  }

  lemma {:induction false} SortedInvIsCrossPairs(s: seq<RowPair>)
    requires Sorted(LexLe, s)
    ensures Inv(Outs(s)) == CrossPairs(s)
  {
    if |s| > 0 {
      assert Outs(s)[1..] == Outs(s[1..]);
      SortedInvIsCrossPairs(s[1..]);
      CountBelowIsCrossCount(s[0], s[1..]);
    }
  }

  /**
   * The count is exactly the number of edge pairs that cross geometrically,
   * whatever order the edges were gathered in.
   */
  lemma CrossingsAreCrossPairs(pairs: seq<RowPair>)
    ensures Crossings(pairs) == CrossPairs(pairs)
  {
    var s := SortedPairs(pairs);
    SortedInvIsCrossPairs(s);
    CrossPairsSort(pairs);
    if |s| == 1 {
      assert CrossPairs(s) == CrossCount(s[0], []) + CrossPairs([]);
    }
  }

  /** Gathering the same edges in another order does not change the count. */
  lemma CrossingsOfPermutation(s: seq<RowPair>, t: seq<RowPair>)
    requires multiset(s) == multiset(t)
    ensures Crossings(s) == Crossings(t)
  {
    LexLeIsTotalOrder();
    SortDependsOnMultiset(LexLe, s, t);
  }

  /** The double loop of `Tree.Crossings(layer, in)` over the sorted edge list. */
  method CountInversions(pairs: seq<RowPair>) returns (inversions: nat)
    ensures inversions == Crossings(pairs)
  {
    var edges := SortedPairs(pairs);
    if |edges| < 2 {
      return 0;
    }
    ghost var outs := Outs(edges);
    ghost var total := Inv(outs);
    inversions := 0;
    var i := 0;
    while i < |edges| - 1
      invariant 0 <= i <= |edges| - 1
      invariant inversions + Inv(outs[i..]) == total
    {
      assert outs[i..][1..] == outs[i + 1..];
      var row := CountRow(edges, i);
      inversions := inversions + row;
      i := i + 1;
    }
    assert |outs[i..]| == 1 && outs[i..][1..] == [];
  }

  /** The inner loop: the edges after the `i`-th whose Out row lies below its Out row. */
  method CountRow(edges: seq<RowPair>, i: nat) returns (n: nat)
    requires i < |edges|
    ensures n == CountBelow(Outs(edges)[i + 1..], edges[i].1)
  {
    ghost var outs := Outs(edges);
    n := 0;
    var j := i + 1;
    while j < |edges|
      invariant i + 1 <= j <= |edges|
      invariant n + CountBelow(outs[j..], outs[i]) == CountBelow(outs[i + 1..], outs[i])
    {
      assert outs[j..][1..] == outs[j + 1..];
      if edges[j].1 < edges[i].1 {
        n := n + 1;
      }
      j := j + 1;
    }
  }
}

/** Small sequence helpers shared by the layout modules. */
module Seqs {

  /** No element occurs twice. */
  predicate NoDup<T(==)>(s: seq<T>)
  {
    forall i, j | 0 <= i < j < |s| :: s[i] != s[j]
  }

  /** LINQ `Distinct`: the first occurrence of every element, in order. */
  function Distinct<T(==,!new)>(s: seq<T>): (r: seq<T>)
    ensures NoDup(r)
    ensures forall x :: x in r <==> x in s
    ensures |r| <= |s|
  {
    if |s| == 0 then []
    else
      var d := Distinct(s[..|s| - 1]);
      assert forall x :: x in s <==> x in s[..|s| - 1] || x == s[|s| - 1] by {
        assert s == s[..|s| - 1] + [s[|s| - 1]];
      }
      if s[|s| - 1] in d then d else d + [s[|s| - 1]]
  }

  /** On a duplicate-free list `Distinct` changes nothing. */
  lemma {:induction false} DistinctOfNoDup<T(!new)>(s: seq<T>)
    requires NoDup(s)
    ensures Distinct(s) == s
  {
    if |s| > 0 {
      var p := s[..|s| - 1];
      assert NoDup(p);
      DistinctOfNoDup(p);
      assert s[|s| - 1] !in p;
      assert s == p + [s[|s| - 1]];
    }
  }

  /** The elements of `s` satisfying `p`, in order (LINQ `Where`). */
  function Filter<T>(s: seq<T>, p: T -> bool): (r: seq<T>)
    ensures |r| <= |s|
    ensures forall x | x in r :: x in s && p(x)
  {
    if |s| == 0 then []
    else (if p(s[0]) then [s[0]] else []) + Filter(s[1..], p)
  }

  /** Everything of `s` that satisfies `p` survives the filter. */
  lemma {:induction false} FilterKeeps<T>(s: seq<T>, p: T -> bool, x: T)
    requires x in s && p(x)
    ensures x in Filter(s, p)
  {
    if s[0] != x {
      FilterKeeps(s[1..], p, x);
    }
  }

  /** Filtering a concatenation filters each part. */
  lemma {:induction false} FilterAppend<T>(a: seq<T>, b: seq<T>, p: T -> bool)
    ensures Filter(a + b, p) == Filter(a, p) + Filter(b, p)
  {
    if |a| == 0 {
      assert a + b == b;
    } else {
      assert (a + b)[0] == a[0];
      assert (a + b)[1..] == a[1..] + b;
      FilterAppend(a[1..], b, p);
      var h := if p(a[0]) then [a[0]] else [];
      assert Filter(a + b, p) == h + Filter(a[1..] + b, p);
      assert Filter(a, p) == h + Filter(a[1..], p);
    }
  }

  /** The filter keeps every copy of an element that satisfies `p`, and none of the others. */
  lemma {:induction false} FilterCount<T>(s: seq<T>, p: T -> bool, x: T)
    ensures multiset(Filter(s, p))[x] == if p(x) then multiset(s)[x] else 0
  {
    if |s| > 0 {
      FilterCount(s[1..], p, x);
      assert s == [s[0]] + s[1..];
      var h := if p(s[0]) then [s[0]] else [];
      assert Filter(s, p) == h + Filter(s[1..], p);
    }
  }

  /** `List.Remove`: drops the first occurrence of `x`, if any. */
  function RemoveFirst<T(==)>(s: seq<T>, x: T): (r: seq<T>)
    ensures x in s ==> |r| == |s| - 1
    ensures x !in s ==> r == s
    ensures multiset(r) == multiset(s) - multiset{x}
  {
    if |s| == 0 then []
    else if s[0] == x then
      assert s == [s[0]] + s[1..];
      s[1..]
    else
      assert s == [s[0]] + s[1..];
      [s[0]] + RemoveFirst(s[1..], x)
  }

  /** `List.Remove` keeps every other element and adds none. */
  lemma {:induction false} RemoveFirstMembers<T>(s: seq<T>, x: T, y: T)
    ensures y in RemoveFirst(s, x) ==> y in s
    ensures y in s && y != x ==> y in RemoveFirst(s, x)
  {
    if |s| > 0 && s[0] != x {
      RemoveFirstMembers(s[1..], x, y);
      assert s == [s[0]] + s[1..];
    }
  }

  /** Putting a new value in front of a duplicate-free list keeps it duplicate-free. */
  lemma NoDupCons<T>(x: T, r: seq<T>)
    requires NoDup(r) && x !in r
    ensures NoDup([x] + r)
  {
    forall i, j | 0 <= i < j < |[x] + r| ensures ([x] + r)[i] != ([x] + r)[j] {
      assert ([x] + r)[j] == r[j - 1];
    }
  }

  /** The first element is a member: the hint that rules out impossible non-empty cases. */
  lemma HeadIn<T>(s: seq<T>)
    requires |s| > 0
    ensures s[0] in s
  {
  }

  /** A proper prefix holds fewer copies of the element that follows it than the whole list. */
  lemma PrefixCountBelow<T>(s: seq<T>, j: nat)
    requires j < |s|
    ensures multiset(s[..j])[s[j]] < multiset(s)[s[j]]
  {
    assert s == s[..j] + [s[j]] + s[j + 1..];
  }

  /** Dropping position `i` removes exactly one copy of its element. */
  lemma RemoveAtMultiset<T>(s: seq<T>, i: nat)
    requires i < |s|
    ensures multiset(s[..i] + s[i + 1..]) == multiset(s) - multiset{s[i]}
  {
    assert s == s[..i] + [s[i]] + s[i + 1..];
    assert multiset(s) == multiset(s[..i]) + multiset{s[i]} + multiset(s[i + 1..]);
  }

  /** `s.Select(f)`. */
  function Map<T, U>(s: seq<T>, f: T -> U): (r: seq<U>)
    ensures |r| == |s|
  {
    if |s| == 0 then [] else [f(s[0])] + Map(s[1..], f)
  }

  lemma {:induction false} MapAt<T, U>(s: seq<T>, f: T -> U, i: nat)
    requires i < |s|
    ensures Map(s, f)[i] == f(s[i])
  {
    if i > 0 {
      MapAt(s[1..], f, i - 1);
    }
  }

  lemma {:induction false} MapAppend<T, U>(a: seq<T>, b: seq<T>, f: T -> U)
    ensures Map(a + b, f) == Map(a, f) + Map(b, f)
  {
    if |a| > 0 {
      MapAppend(a[1..], b, f);
      assert (a + b)[1..] == a[1..] + b;
    } else {
      assert a + b == b;
    }
  }

  /** Mapping around position `i`. */
  lemma {:induction false} MapSplit<T, U>(b: seq<T>, i: nat, f: T -> U)
    requires i < |b|
    ensures Map(b, f) == Map(b[..i], f) + ([f(b[i])] + Map(b[i + 1..], f))
  {
    if i == 0 {
      assert b[..0] == [] && b[1..] == b[i + 1..];
    } else {
      var t := b[1..];
      MapSplit(t, i - 1, f);
      assert t[..i - 1] == b[..i][1..];
      assert t[i - 1] == b[i] && t[i..] == b[i + 1..];
      assert Map(b[..i], f) == [f(b[0])] + Map(t[..i - 1], f);
    }
  }

  /** Mapping a permutation gives a permutation. */
  lemma {:induction false} MapOfPermutation<T, U>(a: seq<T>, b: seq<T>, f: T -> U)
    requires multiset(a) == multiset(b)
    ensures multiset(Map(a, f)) == multiset(Map(b, f))
    decreases |a|
  {
    if |a| > 0 {
      assert a[0] in multiset(b);
      var i :| 0 <= i < |b| && b[i] == a[0];
      RestAfterMatch(a, b, i);
      MapOfPermutation(a[1..], b[..i] + b[i + 1..], f);
      MapMatched(a, b, i, f);
    } else {
      assert |b| == |multiset(b)| == 0;
    }
  }

  /** Taking a matched element out of two permutations leaves permutations. */
  lemma RestAfterMatch<T>(a: seq<T>, b: seq<T>, i: nat)
    requires multiset(a) == multiset(b) && 0 < |a| && i < |b| && b[i] == a[0]
    ensures multiset(a[1..]) == multiset(b[..i] + b[i + 1..])
  {
    assert a == [a[0]] + a[1..];
    assert multiset(a[1..]) == multiset(a) - multiset{a[0]};
    RemoveAtMultiset(b, i);
  }

  /** The inductive step: `a` and `b` agree once their matched heads are taken out. */
  lemma MapMatched<T, U>(a: seq<T>, b: seq<T>, i: nat, f: T -> U)
    requires 0 < |a| && i < |b| && b[i] == a[0]
    requires multiset(Map(a[1..], f)) == multiset(Map(b[..i] + b[i + 1..], f))
    ensures multiset(Map(a, f)) == multiset(Map(b, f))
  {
    MapSplit(b, i, f);
    MapAppend(b[..i], b[i + 1..], f);
    assert Map(a, f) == [f(a[0])] + Map(a[1..], f);
  }

  /** A duplicate-free list holds every value at most once. */
  lemma {:induction false} NoDupCount<T>(s: seq<T>, x: T)
    requires NoDup(s)
    ensures multiset(s)[x] <= 1
  {
    if |s| > 0 {
      assert NoDup(s[1..]);
      NoDupCount(s[1..], x);
      assert s == [s[0]] + s[1..];
      if x == s[0] {
        assert x !in s[1..];
      }
    }
  }

  /** A value at two positions is held at least twice. */
  lemma TwiceCount<T>(t: seq<T>, i: nat, j: nat)
    requires i < j < |t| && t[i] == t[j]
    ensures multiset(t)[t[i]] >= 2
  {
    assert t == t[..i] + [t[i]] + t[i + 1..j] + [t[j]] + t[j + 1..];
  }

  /** A permutation of a duplicate-free list is duplicate-free. */
  lemma NoDupOfPermutation<T>(s: seq<T>, t: seq<T>)
    requires NoDup(s) && multiset(s) == multiset(t)
    ensures NoDup(t)
  {
    forall i, j | 0 <= i < j < |t| ensures t[i] != t[j] {
      if t[i] == t[j] {
        TwiceCount(t, i, j);
        NoDupCount(s, t[i]);
      }
    }
  }
}

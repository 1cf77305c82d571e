/** Sorting and counting over sequences of option indices. */
module Sequences {

  predicate SortedAsc(s: seq<int>) {
    forall i, j :: 0 <= i < j < |s| ==> s[i] <= s[j]
  }

  /** No value occurs twice. */
  predicate Distinct<T(==)>(s: seq<T>) {
    forall i, j :: 0 <= i < j < |s| ==> s[i] != s[j]
  }

  /** Insert `x` before the first element not below it. */
  function Insert(x: int, s: seq<int>): (r: seq<int>)
    ensures |r| == |s| + 1
  {
    if s == [] then [x]
    else if x <= s[0] then [x] + s
    else [s[0]] + Insert(x, s[1..])
  }

  lemma {:induction false} InsertSorted(x: int, s: seq<int>)
    requires SortedAsc(s)
    ensures SortedAsc(Insert(x, s))
    ensures Insert(x, s)[0] == if s == [] || x <= s[0] then x else s[0]
  {
    if s != [] && x > s[0] {
      var rest := Insert(x, s[1..]);
      InsertSorted(x, s[1..]);
      var r := [s[0]] + rest;
      forall i, j | 0 <= i < j < |r|
        ensures r[i] <= r[j]
      {
        if i == 0 {
          assert s[0] <= rest[0] <= rest[j - 1];
        } else {
          assert r[i] == rest[i - 1] && r[j] == rest[j - 1];
        }
      }
    }
  }

  lemma {:induction false} InsertMultiset(x: int, s: seq<int>)
    ensures multiset(Insert(x, s)) == multiset(s) + multiset{x}
  {
    if s == [] {
      assert Insert(x, s) == [x];
    } else if x <= s[0] {
      assert Insert(x, s) == [x] + s;
    } else {
      var rest := Insert(x, s[1..]);
      InsertMultiset(x, s[1..]);
      assert Insert(x, s) == [s[0]] + rest;
      assert s == [s[0]] + s[1..];
      assert multiset(s) == multiset{s[0]} + multiset(s[1..]);
    }
  }

  /** Ascending numeric sort. JavaScript's argument-less `sort()` orders by the
      decimal strings of the values, which is the same order on 0..9. */
  function Sort(s: seq<int>): (r: seq<int>)
    ensures SortedAsc(r)
    ensures multiset(r) == multiset(s)
    ensures |r| == |s|
  {
    if s == [] then []
    else
      var rest := Sort(s[1..]);
      InsertSorted(s[0], rest);
      InsertMultiset(s[0], rest);
      assert s == [s[0]] + s[1..];
      Insert(s[0], rest)
  }

  lemma HeadIsLeast(s: seq<int>, x: int)
    requires SortedAsc(s) && s != []
    requires x in multiset(s)
    ensures s[0] <= x
  {
    assert x in s;
  }

  /** Two ascending sequences holding the same values are the same sequence. */
  lemma {:induction false} SortedUnique(a: seq<int>, b: seq<int>)
    requires SortedAsc(a) && SortedAsc(b)
    requires multiset(a) == multiset(b)
    ensures a == b
  {
    if a == [] {
      assert |b| == |multiset(b)| == 0;
    } else {
      assert |b| == |multiset(b)| == |multiset(a)| == |a|;
      HeadIsLeast(b, a[0]);
      HeadIsLeast(a, b[0]);
      assert a == [a[0]] + a[1..];
      assert b == [b[0]] + b[1..];
      assert a[0] == b[0];
      assert multiset(a) == multiset{a[0]} + multiset(a[1..]);
      assert multiset(b) == multiset{b[0]} + multiset(b[1..]);
      assert multiset(a[1..]) == multiset(a) - multiset{a[0]};
      assert multiset(b[1..]) == multiset(b) - multiset{b[0]};
      SortedUnique(a[1..], b[1..]);
    }
  }

  /** Comparing two lists after sorting both is comparing them as multisets:
      neither order nor position matters, but every repetition does. */
  lemma SortedEqualIffSameMultiset(a: seq<int>, b: seq<int>)
    ensures Sort(a) == Sort(b) <==> multiset(a) == multiset(b)
  {
    if multiset(a) == multiset(b) {
      SortedUnique(Sort(a), Sort(b));
    }
  }

  /** A sequence without repetitions has as many distinct values as entries. */
  lemma {:induction false} DistinctCardinality<T>(s: seq<T>)
    requires Distinct(s)
    ensures |set x | x in s| == |s|
  {
    if s != [] {
      var t := s[1..];
      assert s == [s[0]] + t;
      DistinctCardinality(t);
      assert s[0] !in t;
      assert (set x | x in s) == (set x | x in t) + {s[0]};
    }
  }

  /** For repetition-free lists, multiset equality is set equality. */
  lemma DistinctMultisetIsSet<T>(s: seq<T>, x: T)
    requires Distinct(s)
    ensures multiset(s)[x] == if x in s then 1 else 0
  {
    if s != [] {
      assert s == [s[0]] + s[1..];
      DistinctMultisetIsSet(s[1..], x);
    }
  }

  lemma SubsetCardinality<T>(a: set<T>, b: set<T>)
    requires a <= b
    ensures |a| <= |b|
    ensures |a| == |b| ==> a == b
  {
    assert b == a + (b - a);
    assert a * (b - a) == {};
  }

  /** Two lists without repetitions of the same length, one contained in the
      other, hold the same values. */
  lemma SameValues(a: seq<int>, b: seq<int>)
    requires Distinct(a) && Distinct(b) && |a| == |b|
    requires forall x :: x in a ==> x in b
    ensures multiset(a) == multiset(b)
  {
    DistinctCardinality(a);
    DistinctCardinality(b);
    var sa, sb := set x | x in a, set x | x in b;
    SubsetCardinality(sa, sb);
    forall x
      ensures multiset(a)[x] == multiset(b)[x]
    {
      assert x in a <==> x in sa;
      assert x in b <==> x in sb;
      DistinctMultisetIsSet(a, x);
      DistinctMultisetIsSet(b, x);
    }
  }

  /** A sequence in which no value occurs twice as a multiset element has no
      repeated entries. */
  lemma MultiplicityDistinct(s: seq<int>)
    requires forall x :: multiset(s)[x] <= 1
    ensures Distinct(s)
  {
    forall i, j | 0 <= i < j < |s|
      ensures s[i] != s[j]
    {
      assert s == s[..j] + s[j..];
      assert multiset(s)[s[j]] == multiset(s[..j])[s[j]] + multiset(s[j..])[s[j]];
      assert s[j] in s[j..] && s[i] in s[..j];
    }
  }

  /** `splice(indexOf(x), 1)`: the first occurrence of `x` removed. */
  function RemoveFirst(s: seq<int>, x: int): (r: seq<int>)
    requires x in s
    ensures |r| == |s| - 1
    ensures multiset(r) == multiset(s) - multiset{x}
  {
    if s[0] == x then
      assert s == [s[0]] + s[1..];
      s[1..]
    else
      assert s == [s[0]] + s[1..];
      [s[0]] + RemoveFirst(s[1..], x)
  }

  /** Number of `true` entries. */
  function CountTrue(s: seq<bool>): (n: nat)
    ensures n <= |s|
  {
    if s == [] then 0 else CountTrue(s[..|s| - 1]) + (if s[|s| - 1] then 1 else 0)
  }

  lemma {:induction false} CountTrueUpdate(s: seq<bool>, i: nat, b: bool)
    requires i < |s|
    ensures CountTrue(s[i := b]) == CountTrue(s) - (if s[i] then 1 else 0) + (if b then 1 else 0)
  {
    var t := s[i := b];
    if i < |s| - 1 {
      assert t[..|t| - 1] == s[..|s| - 1][i := b];
      CountTrueUpdate(s[..|s| - 1], i, b);
    } else {
      assert t[..|t| - 1] == s[..|s| - 1];
    }
  }

  /** No entry is `true` exactly when the count is 0, and every entry is
      exactly when the count is the length. */
  lemma {:induction false} CountTrueExtremes(s: seq<bool>)
    ensures CountTrue(s) == 0 <==> forall i :: 0 <= i < |s| ==> !s[i]
    ensures CountTrue(s) == |s| <==> forall i :: 0 <= i < |s| ==> s[i]
  {
    if s != [] {
      var init := s[..|s| - 1];
      CountTrueExtremes(init);
      assert forall i :: 0 <= i < |init| ==> init[i] == s[i];
    }
  }

  /** Two flag lists that agree everywhere count the same. */
  lemma {:induction false} CountTrueSame(s: seq<bool>, t: seq<bool>)
    requires |s| == |t|
    requires forall i :: 0 <= i < |s| ==> s[i] == t[i]
    ensures CountTrue(s) == CountTrue(t)
  {
    assert s == t;
  }
}

/** Sequence helpers shared by tree construction and sampling: subsequences,
    duplicate-freedom, and removal of the elements that occur in another list (the
    model of a loop that keeps `item` when `!other.contains(item)`). */
module Sequences {

  /** `r` can be obtained from `s` by deleting elements, without reordering. */
  ghost predicate Subsequence<T>(r: seq<T>, s: seq<T>)
    decreases |s|
  {
    if r == [] then true
    else if s == [] then false
    else (r[|r| - 1] == s[|s| - 1] && Subsequence(r[..|r| - 1], s[..|s| - 1]))
         || Subsequence(r, s[..|s| - 1])
  }

  predicate Distinct<T(==)>(s: seq<T>)
  {
    forall i, j :: 0 <= i < j < |s| ==> s[i] != s[j]
  }

  /** The elements of `s` that do not occur in `ex`, in their original order. */
  function Without<T(==)>(s: seq<T>, ex: seq<T>): (r: seq<T>)
    ensures |r| <= |s|
    ensures forall i :: 0 <= i < |r| ==> r[i] in s && r[i] !in ex
    decreases |s|
  {
    if s == [] then []
    else Without(s[..|s| - 1], ex) + (if s[|s| - 1] in ex then [] else [s[|s| - 1]])
  }

  /** An element survives exactly when it occurs in `s` and not in `ex`. */
  lemma {:induction false} WithoutMembers<T>(s: seq<T>, ex: seq<T>)
    ensures forall x :: x in Without(s, ex) <==> x in s && x !in ex
    decreases |s|
  {
    if s != [] {
      var init := s[..|s| - 1];
      assert s == init + [s[|s| - 1]];
      WithoutMembers(init, ex);
    }
  }

  /** Removal keeps every occurrence of an item that is not excluded and none of
      one that is. */
  lemma {:induction false} WithoutCount<T>(s: seq<T>, ex: seq<T>)
    ensures forall x :: multiset(Without(s, ex))[x] == if x in ex then 0 else multiset(s)[x]
    decreases |s|
  {
    if s != [] {
      var init, last := s[..|s| - 1], s[|s| - 1];
      WithoutCount(init, ex);
      assert s == init + [last];
      assert multiset(s) == multiset(init) + multiset{last};
      if last in ex {
        assert Without(s, ex) == Without(init, ex);
      } else {
        assert multiset(Without(s, ex)) == multiset(Without(init, ex)) + multiset{last};
      }
    }
  }

  /** Removal keeps the order of the surviving elements. */
  lemma {:induction false} WithoutIsSubsequence<T>(s: seq<T>, ex: seq<T>)
    ensures Subsequence(Without(s, ex), s)
    decreases |s|
  {
    if s != [] {
      var init := s[..|s| - 1];
      WithoutIsSubsequence(init, ex);
      var r := Without(s, ex);
      if s[|s| - 1] in ex {
        assert r == Without(init, ex);
      } else {
        assert r[..|r| - 1] == Without(init, ex);
      }
    }
  }

  /** Removing nothing that occurs in `s` gives `s` back. */
  lemma {:induction false} WithoutNothing<T>(s: seq<T>, ex: seq<T>)
    requires forall x :: x in ex ==> x !in s
    ensures Without(s, ex) == s
    decreases |s|
  {
    if s != [] {
      var init := s[..|s| - 1];
      assert s == init + [s[|s| - 1]];
      WithoutNothing(init, ex);
    }
  }

  /** Removal depends only on which elements of `s` the excluded list holds. */
  lemma {:induction false} WithoutCongruent<T>(s: seq<T>, ex: seq<T>, ex': seq<T>)
    requires forall x :: x in s ==> (x in ex <==> x in ex')
    ensures Without(s, ex) == Without(s, ex')
    decreases |s|
  {
    if s != [] {
      var init := s[..|s| - 1];
      assert s == init + [s[|s| - 1]];
      WithoutCongruent(init, ex, ex');
    }
  }

  /** Removal shortens `s` as soon as it removes something. */
  lemma {:induction false} WithoutShrinks<T>(s: seq<T>, ex: seq<T>, x: T)
    requires x in s && x in ex
    ensures |Without(s, ex)| < |s|
    decreases |s|
  {
    var init := s[..|s| - 1];
    assert s == init + [s[|s| - 1]];
    if s[|s| - 1] != x {
      WithoutShrinks(init, ex, x);
    }
  }

  /** Removing from a duplicate-free `s` every element that occurs in `ex`
      removes at most `|ex|` elements. */
  lemma {:induction false} RemovalBound<T>(s: seq<T>, ex: seq<T>)
    requires Distinct(s)
    ensures |Without(s, ex)| + |ex| >= |s|
    decreases |s|
  {
    if s != [] {
      var init, last := s[..|s| - 1], s[|s| - 1];
      assert s == init + [last];
      assert Distinct(init);
      assert last !in init;
      if last in ex {
        var ex' := Without(ex, [last]);
        WithoutShrinks(ex, [last], last);
        WithoutMembers(ex, [last]);
        WithoutCongruent(init, ex, ex');
        RemovalBound(init, ex');
      } else {
        RemovalBound(init, ex);
      }
    }
  }
}

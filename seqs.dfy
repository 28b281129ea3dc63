/**
  Sequence operations that stand for the Java stream stages the fleet reports
  are built from: `filter(...).collect(toList())` and `distinct()`.
 */
module Seqs {

  /** The elements of `s` that satisfy `p`, in their order in `s`. */
  function Filter<T(==,!new)>(s: seq<T>, p: T -> bool): (r: seq<T>)
    ensures |r| <= |s|
    ensures forall x :: x in r <==> x in s && p(x)
    decreases |s|
  {
    if s == [] then []
    else
      assert s == s[..|s| - 1] + [s[|s| - 1]];
      Filter(s[..|s| - 1], p) + (if p(s[|s| - 1]) then [s[|s| - 1]] else [])
  }

  /** Filtering distributes over concatenation: the relative order of the kept elements is the original one. */
  lemma {:induction false} FilterConcat<T(!new)>(a: seq<T>, b: seq<T>, p: T -> bool)
    ensures Filter(a + b, p) == Filter(a, p) + Filter(b, p)
    decreases |b|
  {
    if b == [] {
      assert a + b == a;
    } else {
      var b', x := b[..|b| - 1], b[|b| - 1];
      assert (a + b)[..|a + b| - 1] == a + b';
      assert (a + b)[|a + b| - 1] == x;
      FilterConcat(a, b', p);
    }
  }

  /** Filtering keeps every occurrence of a kept value and drops every other value. */
  lemma {:induction false} FilterMultiset<T(!new)>(s: seq<T>, p: T -> bool)
    ensures forall x :: multiset(Filter(s, p))[x] == if p(x) then multiset(s)[x] else 0
    decreases |s|
  {
    if s != [] {
      var s', y := s[..|s| - 1], s[|s| - 1];
      assert s == s' + [y];
      FilterMultiset(s', p);
    }
  }

  /** `s[i]` satisfies `p` and no later element of `s` does. */
  ghost predicate LastSatisfying<T>(s: seq<T>, p: T -> bool, i: int) {
    0 <= i < |s| && p(s[i]) && forall j :: i < j < |s| ==> !p(s[j])
  }

  /** The last kept element is the element of `s` at the last position that satisfies `p`. */
  lemma {:induction false} FilterLast<T(!new)>(s: seq<T>, p: T -> bool)
    requires Filter(s, p) != []
    ensures exists i :: LastSatisfying(s, p, i) && Filter(s, p)[|Filter(s, p)| - 1] == s[i]
    decreases |s|
  {
    var s', y := s[..|s| - 1], s[|s| - 1];
    var r, r' := Filter(s, p), Filter(s', p);
    assert r == r' + (if p(y) then [y] else []);
    if p(y) {
      assert LastSatisfying(s, p, |s| - 1) && r[|r| - 1] == s[|s| - 1];
    } else {
      FilterLast(s', p);
      var i :| LastSatisfying(s', p, i) && r'[|r'| - 1] == s'[i];
      assert LastSatisfying(s, p, i) && r[|r| - 1] == s[i] by {
        assert s[i] == s'[i];
        forall j | i < j < |s| ensures !p(s[j]) {
          if j < |s'| {
            assert s[j] == s'[j];
          }
        }
      }
    }
  }

  /** No value occurs twice in `s`. */
  predicate NoDuplicates<T(==,!new)>(s: seq<T>) {
    forall i, j :: 0 <= i < j < |s| ==> s[i] != s[j]
  }

  /** The values of `s`, each once. */
  function Distinct<T(==,!new)>(s: seq<T>): (r: seq<T>)
    ensures forall x :: x in r <==> x in s
    ensures NoDuplicates(r)
    decreases |s|
  {
    if s == [] then []
    else
      assert s == s[..|s| - 1] + [s[|s| - 1]];
      var d := Distinct(s[..|s| - 1]);
      if s[|s| - 1] in d then d else d + [s[|s| - 1]]
  }

  /** A sequence without duplicates is as long as the set of its values is large. */
  lemma {:induction false} NoDuplicatesCard<T(!new)>(s: seq<T>)
    requires NoDuplicates(s)
    ensures |s| == |set x | x in s|
    decreases |s|
  {
    if s != [] {
      var s', y := s[..|s| - 1], s[|s| - 1];
      assert s == s' + [y];
      assert NoDuplicates(s');
      NoDuplicatesCard(s');
      assert y !in s' by {
        forall k | 0 <= k < |s'| ensures s'[k] != y {
          assert s'[k] == s[k];
        }
      }
      assert (set x | x in s) == (set x | x in s') + {y};
    }
  }

  /** `distinct()` yields exactly one element per distinct value. */
  lemma DistinctCard<T(!new)>(s: seq<T>)
    ensures |Distinct(s)| == |set x | x in s|
  {
    NoDuplicatesCard(Distinct(s));
    assert (set x | x in Distinct(s)) == (set x | x in s);
  }
}

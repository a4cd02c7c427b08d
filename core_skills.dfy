/** Keeping the numbers below ten of a list, written once as a comprehension
    and once with `filter` and a lambda. The random sample is an input. */
module CoreSkills {

  /** `[num for num in xs if num < 10]` */
  function BelowTen(xs: seq<int>): (r: seq<int>)
    ensures |r| <= |xs|
    ensures forall k :: 0 <= k < |r| ==> r[k] < 10
    ensures forall x :: x in r <==> x in xs && x < 10
  {
    if xs == [] then []
    else (if xs[0] < 10 then [xs[0]] else []) + BelowTen(xs[1..])
  }

  /** Python's built-in `filter`: the elements satisfying `p`, in order. */
  function Filter<T(!new)>(p: T -> bool, xs: seq<T>): (r: seq<T>)
    ensures |r| <= |xs|
    ensures forall x :: x in r <==> x in xs && p(x)
  {
    if xs == [] then []
    else (if p(xs[0]) then [xs[0]] else []) + Filter(p, xs[1..])
  }

  /** `list(filter(lambda x: x < 10, xs))` */
  function BelowTenFiltered(xs: seq<int>): (r: seq<int>)
    ensures forall x :: x in r <==> x in xs && x < 10
  {
    Filter(x => x < 10, xs)
  }

  /** Both spellings compute the same list. */
  lemma {:induction false} FilterMatchesComprehension(xs: seq<int>)
    ensures BelowTenFiltered(xs) == BelowTen(xs)
  {
    if xs != [] {
      FilterMatchesComprehension(xs[1..]);
    }
  }

  /** `r` can be obtained from `xs` by deleting elements. */
  predicate IsSubsequence(r: seq<int>, xs: seq<int>)
    decreases |xs|
  {
    if r == [] then true
    else if xs == [] then false
    else (r[0] == xs[0] && IsSubsequence(r[1..], xs[1..])) || IsSubsequence(r, xs[1..])
  }

  /** The result keeps the relative order of the input. */
  lemma {:induction false} BelowTenIsSubsequence(xs: seq<int>)
    ensures IsSubsequence(BelowTen(xs), xs)
  {
    if xs != [] {
      BelowTenIsSubsequence(xs[1..]);
      if xs[0] < 10 {
        var r := BelowTen(xs);
        assert r == [xs[0]] + BelowTen(xs[1..]);
        assert r[0] == xs[0] && r[1..] == BelowTen(xs[1..]);
      } else {
        assert BelowTen(xs) == BelowTen(xs[1..]);
      }
    }
  }

  predicate Distinct(xs: seq<int>) {
    forall j, k :: 0 <= j < k < |xs| ==> xs[j] != xs[k]
  }

  /** A subsequence of a list without repeats has no repeats. */
  lemma {:induction false} SubsequenceKeepsDistinct(r: seq<int>, xs: seq<int>)
    requires IsSubsequence(r, xs) && Distinct(xs)
    ensures Distinct(r)
    decreases |xs|
  {
    if r != [] {
      assert xs != [];
      if r[0] == xs[0] && IsSubsequence(r[1..], xs[1..]) {
        SubsequenceKeepsDistinct(r[1..], xs[1..]);
        SubsequenceElements(r[1..], xs[1..]);
        forall k | 0 < k < |r| ensures r[0] != r[k] {
          assert r[k] == r[1..][k - 1];
          assert r[k] in xs[1..];
          var m :| 0 <= m < |xs[1..]| && xs[1..][m] == r[k];
          assert xs[m + 1] == r[k];
        }
      } else {
        SubsequenceKeepsDistinct(r, xs[1..]);
      }
    }
  }

  /** Every element of a subsequence comes from the list. */
  lemma {:induction false} SubsequenceElements(r: seq<int>, xs: seq<int>)
    requires IsSubsequence(r, xs)
    ensures forall x :: x in r ==> x in xs
    decreases |xs|
  {
    if r != [] {
      assert xs != [];
      if r[0] == xs[0] && IsSubsequence(r[1..], xs[1..]) {
        SubsequenceElements(r[1..], xs[1..]);
        forall x | x in r ensures x in xs {
          if x != r[0] {
            var k :| 0 <= k < |r| && r[k] == x;
            assert x in r[1..] && x in xs[1..];
          }
        }
      } else {
        SubsequenceElements(r, xs[1..]);
      }
    }
  }

  /** A list without repeats whose values lie in 1..n has at most n elements. */
  lemma {:induction false} DistinctBounded(r: seq<int>, n: nat)
    requires Distinct(r)
    requires forall k :: 0 <= k < |r| ==> 1 <= r[k] <= n
    ensures |r| <= n
  {
    if n == 0 {
      assert r == [];
    } else if n in r {
      var p :| 0 <= p < |r| && r[p] == n;
      var rest := r[..p] + r[p + 1..];
      assert forall k :: 0 <= k < |rest| ==> rest[k] == (if k < p then r[k] else r[k + 1]);
      DistinctBounded(rest, n - 1);
    } else {
      DistinctBounded(r, n - 1);
    }
  }

  /** For a sample of distinct numbers from 1 to 20 the result repeats nothing
      and has at most nine elements. */
  lemma BelowTenOfSample(xs: seq<int>)
    requires Distinct(xs)
    requires forall k :: 0 <= k < |xs| ==> 1 <= xs[k] <= 20
    ensures Distinct(BelowTen(xs))
    ensures |BelowTen(xs)| <= 9
  {
    var r := BelowTen(xs);
    BelowTenIsSubsequence(xs);
    SubsequenceKeepsDistinct(r, xs);
    forall k | 0 <= k < |r| ensures 1 <= r[k] <= 9 {
      assert r[k] in r;
    }
    DistinctBounded(r, 9);
  }
}

/** Order-preserving selection over sequences, the shape shared by the page's
    search filter and its delete-by-id update, and a pairwise property that
    selection keeps. */
module Seqs {

  /** Keeps the elements of `s` that satisfy `keep`, in their original order,
      as `Array.prototype.filter` does. */
  function Filter<T(==,!new)>(keep: T -> bool, s: seq<T>): (r: seq<T>)
    ensures |r| <= |s|
    decreases |s|
  {
    if |s| == 0 then []
    else if keep(s[0]) then [s[0]] + Filter(keep, s[1..])
    else Filter(keep, s[1..])
  }

  /** Soundness and completeness of the filter, with multiplicities: an element
      occurs in the result exactly as often as in the input when it passes,
      and not at all otherwise. */
  lemma {:induction false} FilterCounts<T(!new)>(keep: T -> bool, s: seq<T>)
    ensures forall x :: multiset(Filter(keep, s))[x] == if keep(x) then multiset(s)[x] else 0
    ensures forall x :: x in Filter(keep, s) <==> x in s && keep(x)
    decreases |s|
  {
    if |s| != 0 {
      assert s == [s[0]] + s[1..];
      FilterCounts(keep, s[1..]);
    }
  }

  /** Filtering commutes with concatenation: the kept elements of the front
      all come before the kept elements of the back. */
  lemma {:induction false} FilterConcat<T(!new)>(keep: T -> bool, a: seq<T>, b: seq<T>)
    ensures Filter(keep, a + b) == Filter(keep, a) + Filter(keep, b)
    decreases |a|
  {
    if |a| == 0 {
      assert a + b == b;
    } else {
      assert (a + b)[0] == a[0];
      assert (a + b)[1..] == a[1..] + b;
      FilterConcat(keep, a[1..], b);
    }
  }

  /** When every element passes, the filter returns its input unchanged. */
  lemma {:induction false} FilterKeepsAll<T(!new)>(keep: T -> bool, s: seq<T>)
    requires forall x :: x in s ==> keep(x)
    ensures Filter(keep, s) == s
    decreases |s|
  {
    if |s| != 0 {
      assert s[0] in s;
      assert forall x :: x in s[1..] ==> x in s;
      FilterKeepsAll(keep, s[1..]);
    }
  }

  /** Two tests that agree on every element of `s` select the same elements. */
  lemma {:induction false} FilterSameTest<T(!new)>(keep: T -> bool, other: T -> bool, s: seq<T>)
    requires forall x :: x in s ==> keep(x) == other(x)
    ensures Filter(keep, s) == Filter(other, s)
    decreases |s|
  {
    if |s| != 0 {
      assert s[0] in s;
      assert forall x :: x in s[1..] ==> x in s;
      FilterSameTest(keep, other, s[1..]);
    }
  }

  /** Filtering twice with the same test is filtering once. */
  lemma FilterIdempotent<T(!new)>(keep: T -> bool, s: seq<T>)
    ensures Filter(keep, Filter(keep, s)) == Filter(keep, s)
  {
    FilterCounts(keep, s);
    FilterKeepsAll(keep, Filter(keep, s));
  }

  /** `ok` holds of every ordered pair of positions in `s`. */
  ghost predicate Pairwise<T>(ok: (T, T) -> bool, s: seq<T>) {
    forall i, j :: 0 <= i < j < |s| ==> ok(s[i], s[j])
  }

  /** Selecting a subsequence keeps every pairwise property. */
  lemma {:induction false} FilterPairwise<T(!new)>(ok: (T, T) -> bool, keep: T -> bool, s: seq<T>)
    requires Pairwise(ok, s)
    ensures Pairwise(ok, Filter(keep, s))
    decreases |s|
  {
    if |s| != 0 {
      var t := s[1..];
      assert Pairwise(ok, t) by {
        forall i, j | 0 <= i < j < |t| ensures ok(t[i], t[j]) {
          assert t[i] == s[i + 1] && t[j] == s[j + 1];
        }
      }
      FilterPairwise(ok, keep, t);
      var ft := Filter(keep, t);
      if keep(s[0]) {
        var r := [s[0]] + ft;
        forall i, j | 0 <= i < j < |r| ensures ok(r[i], r[j]) {
          if i == 0 {
            FilterCounts(keep, t);
            assert r[j] in t;
            var k :| 0 <= k < |t| && t[k] == r[j];
            assert s[k + 1] == r[j];
          } else {
            assert r[i] == ft[i - 1] && r[j] == ft[j - 1];
          }
        }
      }
    }
  }
}

/** A stable comparison sort, the behaviour `Array.prototype.sort` guarantees:
    a comparator result `<= 0` lets the earlier element stay in front, so rows
    the comparator ties keep the order they arrived in. */
module StableSort {
  import opened Seqs

  /** The sign of `c(a, b)` is the opposite of the sign of `c(b, a)`. */
  ghost predicate SignSwaps<T(!new)>(c: (T, T) -> int) {
    forall a, b :: c(a, b) < 0 <==> c(b, a) > 0
  }

  /** "Not after" (`c(a, b) <= 0`) is transitive. */
  ghost predicate NotAfterTransitive<T(!new)>(c: (T, T) -> int) {
    forall a, b, d :: c(a, b) <= 0 && c(b, d) <= 0 ==> c(a, d) <= 0
  }

  /** A comparator the sort can honour: a total preorder read off the sign. */
  ghost predicate Consistent<T(!new)>(c: (T, T) -> int) {
    SignSwaps(c) && NotAfterTransitive(c)
  }

  /** No element is placed after one it must precede. */
  ghost predicate Sorted<T>(c: (T, T) -> int, s: seq<T>) {
    forall i, j :: 0 <= i < j < |s| ==> c(s[i], s[j]) <= 0
  }

  /** Each element may stand in front of its successor. */
  ghost predicate LocallySorted<T>(c: (T, T) -> int, s: seq<T>) {
    forall i :: 0 < i < |s| ==> c(s[i - 1], s[i]) <= 0
  }

  /** The elements the comparator ties with `k`. */
  function TiedWith<T>(c: (T, T) -> int, k: T): T -> bool {
    y => c(k, y) == 0
  }

  /** Places `x`, which arrived before every element of `s`, in front of the
      first element it does not have to follow. */
  function Insert<T(==)>(c: (T, T) -> int, x: T, s: seq<T>): (r: seq<T>)
    ensures |r| == |s| + 1
    ensures multiset(r) == multiset(s) + multiset{x}
    decreases |s|
  {
    if |s| == 0 then [x]
    else if c(x, s[0]) <= 0 then [x] + s
    else
      assert s == [s[0]] + s[1..];
      [s[0]] + Insert(c, x, s[1..])
  }

  /** Stable insertion sort: every element is inserted into the sorted rest
      of the sequence that followed it. */
  function Sort<T(==)>(c: (T, T) -> int, s: seq<T>): (r: seq<T>)
    ensures |r| == |s|
    ensures multiset(r) == multiset(s)
    decreases |s|
  {
    if |s| == 0 then []
    else
      assert s == [s[0]] + s[1..];
      Insert(c, s[0], Sort(c, s[1..]))
  }

  lemma {:induction false} InsertLocallySorted<T(!new)>(c: (T, T) -> int, x: T, s: seq<T>)
    requires SignSwaps(c)
    requires LocallySorted(c, s)
    ensures LocallySorted(c, Insert(c, x, s))
    ensures |s| > 0 ==> Insert(c, x, s)[0] == x || Insert(c, x, s)[0] == s[0]
    decreases |s|
  {
    if |s| != 0 && c(x, s[0]) > 0 {
      var t := s[1..];
      assert LocallySorted(c, t) by {
        forall i | 0 < i < |t| ensures c(t[i - 1], t[i]) <= 0 {
          assert t[i - 1] == s[i] && t[i] == s[i + 1];
        }
      }
      InsertLocallySorted(c, x, t);
      var rt := Insert(c, x, t);
      var r := [s[0]] + rt;
      assert c(s[0], x) <= 0;
      forall i | 0 < i < |r| ensures c(r[i - 1], r[i]) <= 0 {
        if i > 1 {
          assert r[i - 1] == rt[i - 2] && r[i] == rt[i - 1];
        } else if |t| > 0 && rt[0] == t[0] {
          assert s[1] == t[0];
        }
      }
    }
  }

  /** Neighbour order extends to the whole sequence when "not after" is transitive. */
  lemma {:induction false} LocallySortedIsSorted<T(!new)>(c: (T, T) -> int, s: seq<T>)
    requires NotAfterTransitive(c)
    requires LocallySorted(c, s)
    ensures Sorted(c, s)
  {
    forall i, j | 0 <= i < j < |s| ensures c(s[i], s[j]) <= 0 {
      var m := i + 1;
      while m < j
        invariant i < m <= j
        invariant c(s[i], s[m]) <= 0
      {
        assert c(s[m], s[m + 1]) <= 0;
        m := m + 1;
      }
    }
  }

  lemma {:induction false} SortLocallySorted<T(!new)>(c: (T, T) -> int, s: seq<T>)
    requires SignSwaps(c)
    ensures LocallySorted(c, Sort(c, s))
    decreases |s|
  {
    if |s| != 0 {
      SortLocallySorted(c, s[1..]);
      InsertLocallySorted(c, s[0], Sort(c, s[1..]));
    }
  }

  /** With a consistent comparator the result is in order. */
  lemma {:induction false} SortSorted<T(!new)>(c: (T, T) -> int, s: seq<T>)
    requires Consistent(c)
    ensures Sorted(c, Sort(c, s))
    decreases |s|
  {
    SortLocallySorted(c, s);
    LocallySortedIsSorted(c, Sort(c, s));
  }

  /** Inserting `x` puts it among the elements tied with `k` in front of all
      of them, provided `x` must not follow any of them. */
  lemma {:induction false} InsertStable<T(!new)>(c: (T, T) -> int, x: T, s: seq<T>, k: T)
    requires forall y :: y in s && c(k, x) == 0 && c(k, y) == 0 ==> c(x, y) <= 0
    ensures Filter(TiedWith(c, k), Insert(c, x, s))
         == Filter(TiedWith(c, k), [x]) + Filter(TiedWith(c, k), s)
    decreases |s|
  {
    var tied := TiedWith(c, k);
    if |s| == 0 {
      assert [x] + s == [x];
    } else if c(x, s[0]) <= 0 {
      FilterConcat(tied, [x], s);
    } else {
      var t := s[1..];
      assert s[0] in s;
      assert forall y :: y in t ==> y in s;
      InsertStable(c, x, t, k);
      assert [s[0]] + t == s;
      assert !(tied(x) && tied(s[0]));
      SwapUntied(tied, s[0], x, Insert(c, x, t), t);
    }
  }

  /** Moving an element past one of a different class does not change the
      order within either class. */
  lemma SwapUntied<T(!new)>(tied: T -> bool, a: T, x: T, r: seq<T>, t: seq<T>)
    requires !(tied(x) && tied(a))
    requires Filter(tied, r) == Filter(tied, [x]) + Filter(tied, t)
    ensures Filter(tied, [a] + r) == Filter(tied, [x]) + Filter(tied, [a] + t)
  {
    FilterConcat(tied, [a], r);
    FilterConcat(tied, [a], t);
    if tied(x) {
      assert Filter(tied, [a]) == [];
    } else {
      assert Filter(tied, [x]) == [];
    }
  }

  /** Two elements tied with the same key are tied with each other. */
  lemma TiedWithSameKey<T(!new)>(c: (T, T) -> int, k: T, x: T, y: T)
    requires Consistent(c)
    requires c(k, x) == 0 && c(k, y) == 0
    ensures c(x, y) == 0
  {
    assert c(x, k) == 0;
    assert c(y, k) == 0;
  }

  /** Stability: for every key `k`, the elements tied with `k` appear in the
      result in exactly the order they had in the input. */
  lemma {:induction false} SortStable<T(!new)>(c: (T, T) -> int, s: seq<T>, k: T)
    requires Consistent(c)
    ensures Filter(TiedWith(c, k), Sort(c, s)) == Filter(TiedWith(c, k), s)
    decreases |s|
  {
    if |s| != 0 {
      SortStable(c, s[1..], k);
      forall y | y in Sort(c, s[1..]) && c(k, s[0]) == 0 && c(k, y) == 0
        ensures c(s[0], y) <= 0
      {
        TiedWithSameKey(c, k, s[0], y);
      }
      InsertStable(c, s[0], Sort(c, s[1..]), k);
      FilterConcat(TiedWith(c, k), [s[0]], s[1..]);
      assert [s[0]] + s[1..] == s;
    }
  }

  /** A comparator that never asks to move an element leaves the input as it was. */
  lemma {:induction false} SortKeepsOrderWhenAllTied<T>(c: (T, T) -> int, s: seq<T>)
    requires forall a, b :: c(a, b) <= 0
    ensures Sort(c, s) == s
    decreases |s|
  {
    if |s| != 0 {
      SortKeepsOrderWhenAllTied(c, s[1..]);
      assert [s[0]] + s[1..] == s;
    }
  }
}

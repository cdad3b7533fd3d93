/**
 * The sequential, order-preserving filter that every
 * `list.parallelStream().filter(..).collect(toList())` of the library
 * computes.
 */
module Filters {
  import opened Sequences

  /** The elements of `s` that satisfy `keep`, in their original order. */
  function Filter<E>(s: seq<E>, keep: E -> bool): (r: seq<E>)
    ensures |r| <= |s|
    ensures forall x :: x in r ==> x in s && keep(x)
    ensures forall x :: x in s && keep(x) ==> x in r
  {
    if s == [] then []
    else if keep(s[0]) then [s[0]] + Filter(s[1..], keep)
    else Filter(s[1..], keep)
  }

  /** Filtering a concatenation filters each part: the kept elements keep their relative order. */
  lemma {:induction false} FilterAppend<E>(a: seq<E>, b: seq<E>, keep: E -> bool)
    ensures Filter(a + b, keep) == Filter(a, keep) + Filter(b, keep)
    decreases |a|
  {
    if a == [] {
      assert a + b == b;
    } else {
      assert (a + b)[1..] == a[1..] + b;
      FilterAppend(a[1..], b, keep);
    }
  }

  /** A filter that keeps everything leaves the sequence as it is. */
  lemma {:induction false} FilterKeepsAll<E>(s: seq<E>, keep: E -> bool)
    requires forall x :: x in s ==> keep(x)
    ensures Filter(s, keep) == s
    decreases |s|
  {
    if s != [] {
      FilterKeepsAll(s[1..], keep);
    }
  }

  /** Filtering twice with the same test changes nothing more. */
  lemma {:induction false} FilterIdempotent<E>(s: seq<E>, keep: E -> bool)
    ensures Filter(Filter(s, keep), keep) == Filter(s, keep)
  {
    FilterKeepsAll(Filter(s, keep), keep);
  }

  /** Filtering keeps a duplicate-free sequence duplicate-free. */
  lemma {:induction false} FilterDistinct<E>(s: seq<E>, keep: E -> bool)
    requires Distinct(s)
    ensures Distinct(Filter(s, keep))
    decreases |s|
  {
    if s != [] {
      FilterDistinct(s[1..], keep);
      var t := Filter(s[1..], keep);
      assert s[0] !in s[1..];
      if keep(s[0]) {
        var r := [s[0]] + t;
        assert Filter(s, keep) == r;
        forall i, j | 0 <= i < j < |r|
          ensures r[i] != r[j]
        {
          if i == 0 {
            assert r[j] == t[j - 1] && t[j - 1] in t;
          } else {
            assert r[i] == t[i - 1] && r[j] == t[j - 1];
          }
        }
      }
    }
  }

  /** Filtering keeps every copy of a kept element and no copy of another. */
  lemma {:induction false} FilterCount<E>(s: seq<E>, keep: E -> bool, x: E)
    ensures multiset(Filter(s, keep))[x] == if keep(x) then multiset(s)[x] else 0
    decreases |s|
  {
    if s != [] {
      FilterCount(s[1..], keep, x);
      assert s == [s[0]] + s[1..];
      assert multiset(s) == multiset{s[0]} + multiset(s[1..]);
    }
  }
}

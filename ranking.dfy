/** The final ordering of main.py:125-129: `sorted(..., key=..., reverse=True)`, which
    orders by a key tuple descending and, being stable even when reversed, keeps the
    input order of entries whose keys are equal. */
module Ranking {

  /** The sort key of main.py:127: (total count, number of distinct models). */
  type Rank = (nat, nat)

  /** `a >= b` in Python's lexicographic tuple order. */
  predicate RankAtLeast(a: Rank, b: Rank) {
    a.0 > b.0 || (a.0 == b.0 && a.1 >= b.1)
  }

  /** Every entry ranks at least as high as every entry after it. */
  ghost predicate Descending<T>(s: seq<T>, rank: T -> Rank) {
    forall i, j :: 0 <= i < j < |s| ==> RankAtLeast(rank(s[i]), rank(s[j]))
  }

  /** The entries of `s` whose rank is `r`, in their order in `s`. */
  function WithRank<T>(s: seq<T>, rank: T -> Rank, r: Rank): seq<T> {
    if s == [] then []
    else (if rank(s[0]) == r then [s[0]] else []) + WithRank(s[1..], rank, r)
  }

  /** Put `x` in front of the first entry of `s` it ranks at least as high as. */
  function Insert<T>(x: T, s: seq<T>, rank: T -> Rank): seq<T> {
    if s == [] then [x]
    else if RankAtLeast(rank(x), rank(s[0])) then [x] + s
    else [s[0]] + Insert(x, s[1..], rank)
  }

  /** `sorted(s, key=rank, reverse=True)`. */
  function SortByRank<T>(s: seq<T>, rank: T -> Rank): seq<T> {
    if s == [] then [] else Insert(s[0], SortByRank(s[1..], rank), rank)
  }

  lemma {:induction false} InsertPermutes<T>(x: T, s: seq<T>, rank: T -> Rank)
    ensures multiset(Insert(x, s, rank)) == multiset(s) + multiset{x}
  {
    if s != [] && !RankAtLeast(rank(x), rank(s[0])) {
      InsertPermutes(x, s[1..], rank);
      assert s == [s[0]] + s[1..];
    }
  }

  lemma {:induction false} InsertDescending<T>(x: T, s: seq<T>, rank: T -> Rank)
    requires Descending(s, rank)
    ensures Descending(Insert(x, s, rank), rank)
  {
    if s != [] && !RankAtLeast(rank(x), rank(s[0])) {
      var tail := Insert(x, s[1..], rank);
      InsertDescending(x, s[1..], rank);
      InsertPermutes(x, s[1..], rank);
      forall j | 0 <= j < |tail| ensures RankAtLeast(rank(s[0]), rank(tail[j])) {
        assert tail[j] in multiset(tail);
        if tail[j] != x {
          assert tail[j] in multiset(s[1..]);
          var k :| 0 <= k < |s[1..]| && s[1..][k] == tail[j];
          assert s[k + 1] == tail[j];
        }
      }
    }
  }

  lemma {:induction false} InsertStable<T>(x: T, s: seq<T>, rank: T -> Rank, r: Rank)
    requires Descending(s, rank)
    ensures WithRank(Insert(x, s, rank), rank, r)
         == (if rank(x) == r then [x] else []) + WithRank(s, rank, r)
  {
    if s == [] {
    } else if RankAtLeast(rank(x), rank(s[0])) {
      assert ([x] + s)[1..] == s;
    } else {
      InsertStable(x, s[1..], rank, r);
      assert ([s[0]] + Insert(x, s[1..], rank))[1..] == Insert(x, s[1..], rank);
    }
  }

  /** The ranking is a permutation of its input. */
  lemma {:induction false} SortPermutes<T>(s: seq<T>, rank: T -> Rank)
    ensures multiset(SortByRank(s, rank)) == multiset(s)
  {
    if s != [] {
      SortPermutes(s[1..], rank);
      InsertPermutes(s[0], SortByRank(s[1..], rank), rank);
      assert s == [s[0]] + s[1..];
    }
  }

  /** The ranking is non-increasing in the key. */
  lemma {:induction false} SortDescending<T>(s: seq<T>, rank: T -> Rank)
    ensures Descending(SortByRank(s, rank), rank)
  {
    if s != [] {
      SortDescending(s[1..], rank);
      InsertDescending(s[0], SortByRank(s[1..], rank), rank);
    }
  }

  /** The sort is stable: for every key, the entries carrying it appear in the ranking in
      the order they had in the input. */
  lemma {:induction false} SortStable<T>(s: seq<T>, rank: T -> Rank, r: Rank)
    ensures WithRank(SortByRank(s, rank), rank, r) == WithRank(s, rank, r)
  {
    if s != [] {
      SortStable(s[1..], rank, r);
      SortDescending(s[1..], rank);
      InsertStable(s[0], SortByRank(s[1..], rank), rank, r);
    }
  }

  /** Two positions holding the same entry put it in the multiset twice. */
  lemma RepeatCountsTwice<T>(a: seq<T>, i: nat, j: nat)
    requires i < j < |a| && a[i] == a[j]
    ensures multiset(a)[a[i]] >= 2
  {
    assert a == a[..j] + a[j..];
    assert a[i] in a[..j];
    assert a[j] == a[j..][0];
  }

  /** In a sequence without repeats, every entry occurs at most once. */
  lemma {:induction false} DistinctCountsOnce<T>(b: seq<T>, x: T)
    requires forall i, j :: 0 <= i < j < |b| ==> b[i] != b[j]
    ensures multiset(b)[x] <= 1
  {
    if b != [] {
      DistinctCountsOnce(b[1..], x);
      assert b == [b[0]] + b[1..];
      if b[0] == x {
        assert x !in b[1..];
      }
    }
  }

  /** A permutation of a sequence without repeated entries has none either. */
  lemma PermutationDistinct<T>(a: seq<T>, b: seq<T>)
    requires multiset(a) == multiset(b)
    requires forall i, j :: 0 <= i < j < |b| ==> b[i] != b[j]
    ensures forall i, j :: 0 <= i < j < |a| ==> a[i] != a[j]
  {
    forall i, j | 0 <= i < j < |a| ensures a[i] != a[j] {
      if a[i] == a[j] {
        RepeatCountsTwice(a, i, j);
        DistinctCountsOnce(b, a[i]);
      }
    }
  }
}

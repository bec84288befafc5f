/**
 * A stable sort by descending rank: what `Array.prototype.sort` computes
 * with the comparator `(a, b) => rank(b) - rank(a)` (the sort has been
 * required to be stable since ECMAScript 2019).
 */
module StableSort {

  /** Ranks never increase along `s`. */
  ghost predicate SortedDesc<T>(rank: T -> nat, s: seq<T>) {
    forall i, j :: 0 <= i < j < |s| ==> rank(s[i]) >= rank(s[j])
  }

  /** The elements of `s` whose rank is `k`, in their order in `s`. */
  function RankClass<T>(rank: T -> nat, s: seq<T>, k: nat): seq<T> {
    if s == [] then []
    else (if rank(s[0]) == k then [s[0]] else []) + RankClass(rank, s[1..], k)
  }

  /** Places `x` before the first element of `s` that does not outrank it. */
  function Insert<T>(rank: T -> nat, x: T, s: seq<T>): (r: seq<T>)
    ensures |r| == |s| + 1
    ensures multiset(r) == multiset(s) + multiset{x}
    ensures r[0] == x || (s != [] && r[0] == s[0])
  {
    if s == [] || rank(x) >= rank(s[0]) then [x] + s
    else
      assert s == [s[0]] + s[1..];
      [s[0]] + Insert(rank, x, s[1..])
  }

  /** Insertion sort: sorted, and a permutation of the input. */
  function SortDesc<T>(rank: T -> nat, s: seq<T>): (r: seq<T>)
    ensures multiset(r) == multiset(s)
    ensures SortedDesc(rank, r)
  {
    if s == [] then []
    else
      assert s == [s[0]] + s[1..];
      InsertSorted(rank, s[0], SortDesc(rank, s[1..]));
      Insert(rank, s[0], SortDesc(rank, s[1..]))
  }

  /** Inserting into a sorted list keeps it sorted. */
  lemma {:induction false} InsertSorted<T>(rank: T -> nat, x: T, s: seq<T>)
    requires SortedDesc(rank, s)
    ensures SortedDesc(rank, Insert(rank, x, s))
  {
    if s != [] && rank(x) < rank(s[0]) {
      var t := Insert(rank, x, s[1..]);
      InsertSorted(rank, x, s[1..]);
      assert rank(t[0]) <= rank(s[0]);
      var r := [s[0]] + t;
      forall i, j | 0 <= i < j < |r| ensures rank(r[i]) >= rank(r[j]) {
        assert r[j] == t[j - 1];
        if i > 0 {
          assert r[i] == t[i - 1];
        } else {
          assert rank(t[j - 1]) <= rank(t[0]);
        }
      }
    }
  }

  /** Inserting keeps every rank class in input order, whatever `s` is. */
  lemma {:induction false} InsertKeepsRankClass<T>(rank: T -> nat, x: T, s: seq<T>, k: nat)
    ensures RankClass(rank, Insert(rank, x, s), k) == RankClass(rank, [x] + s, k)
  {
    if s != [] && rank(x) < rank(s[0]) {
      InsertKeepsRankClass(rank, x, s[1..], k);
      assert ([s[0]] + Insert(rank, x, s[1..]))[1..] == Insert(rank, x, s[1..]);
      assert ([x] + s)[1..] == s;
      assert ([x] + s[1..])[1..] == s[1..];
    }
  }

  /**
   * Stability: the elements of each rank appear in the sorted result in the
   * same order as in the input.
   */
  lemma {:induction false} SortDescStable<T>(rank: T -> nat, s: seq<T>, k: nat)
    ensures RankClass(rank, SortDesc(rank, s), k) == RankClass(rank, s, k)
  {
    if s != [] {
      SortDescStable(rank, s[1..], k);
      InsertKeepsRankClass(rank, s[0], SortDesc(rank, s[1..]), k);
      assert ([s[0]] + SortDesc(rank, s[1..]))[1..] == SortDesc(rank, s[1..]);
    }
  }

  /** Sorting keeps the length and the set of elements. */
  lemma SortDescMembers<T>(rank: T -> nat, s: seq<T>)
    ensures |SortDesc(rank, s)| == |s|
    ensures forall x :: x in SortDesc(rank, s) <==> x in s
  {
    var r := SortDesc(rank, s);
    assert |r| == |multiset(r)| == |multiset(s)| == |s|;
    forall x ensures x in r <==> x in s {
      assert x in r <==> x in multiset(r);
      assert x in s <==> x in multiset(s);
    }
  }

  /** Replacing an element by one of equal rank keeps a list sorted. */
  lemma SortedReplace<T>(rank: T -> nat, s: seq<T>, i: nat, y: T)
    requires SortedDesc(rank, s) && i < |s| && rank(y) == rank(s[i])
    ensures SortedDesc(rank, s[i := y])
  {
  }

  /** Appending an element ranked at most every element keeps a list sorted. */
  lemma SortedSnoc<T>(rank: T -> nat, s: seq<T>, x: T)
    requires SortedDesc(rank, s)
    requires forall i :: 0 <= i < |s| ==> rank(x) <= rank(s[i])
    ensures SortedDesc(rank, s + [x])
  {
  }

  /** A prefix of a sorted list is sorted. */
  lemma SortedPrefix<T>(rank: T -> nat, s: seq<T>, n: nat)
    requires SortedDesc(rank, s) && n <= |s|
    ensures SortedDesc(rank, s[..n])
  {
  }

  /** In a sorted non-empty list the head has maximal rank and heads its rank class. */
  lemma SortedHead<T>(rank: T -> nat, r: seq<T>)
    requires r != [] && SortedDesc(rank, r)
    ensures forall i :: 0 <= i < |r| ==> rank(r[i]) <= rank(r[0])
    ensures RankClass(rank, r, rank(r[0])) == [r[0]] + RankClass(rank, r[1..], rank(r[0]))
  {
  }

  /**
   * The head of the sorted list is the first element of the input among
   * those of maximal rank.
   */
  lemma {:induction false} SortDescHead<T>(rank: T -> nat, s: seq<T>)
    requires s != []
    ensures forall x :: x in s ==> rank(x) <= rank(SortDesc(rank, s)[0])
    ensures RankClass(rank, s, rank(SortDesc(rank, s)[0])) != []
    ensures RankClass(rank, s, rank(SortDesc(rank, s)[0]))[0] == SortDesc(rank, s)[0]
  {
    var r := SortDesc(rank, s);
    SortDescMembers(rank, s);
    SortedHead(rank, r);
    var m := rank(r[0]);
    forall x | x in s ensures rank(x) <= m {
      var i :| 0 <= i < |r| && r[i] == x;
    }
    SortDescStable(rank, s, m);
    assert RankClass(rank, s, m) == RankClass(rank, r, m);
    assert RankClass(rank, r, m)[0] == r[0];
  }
}

/** Sequence helpers shared by the menu and the filename sanitiser. */
module Seqs {
  /** `s.slice(0, n)` and `s.substring(0, n)`: the first `n` elements, or all of them. */
  function Take<T>(s: seq<T>, n: nat): (r: seq<T>)
    ensures |r| == if |s| < n then |s| else n
    ensures r == s[..|r|]
  {
    if |s| <= n then s else s[..n]
  }

  /** A cut keeps only elements of the input, and is empty only when the input is or nothing is kept. */
  lemma TakeMembers<T>(s: seq<T>, n: nat)
    ensures forall x :: x in Take(s, n) ==> x in s
    ensures Take(s, n) == [] <==> s == [] || n == 0
  {
    var r := Take(s, n);
    forall x | x in r ensures x in s {
      var i :| 0 <= i < |r| && r[i] == x;
      assert s[i] == x;
    }
  }
}

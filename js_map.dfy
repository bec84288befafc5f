/**
 * Deduplication through `Array.from(new Map(s.map(f => [key(f), f])).values())`.
 * A JavaScript `Map` remembers keys in the order they were first set and
 * `set` on a present key replaces its value in place, so each key sits at
 * the position of its first occurrence and holds the last value set for it.
 */
module JsMap {
  import opened Wrappers
  import opened StableSort

  datatype Entry<V> = Entry(key: string, value: V)

  function EntryKeys<V>(m: seq<Entry<V>>): (r: seq<string>)
    ensures |r| == |m| && forall i :: 0 <= i < |m| ==> r[i] == m[i].key
  {
    seq(|m|, i requires 0 <= i < |m| => m[i].key)
  }

  /** `Map.prototype.values()` */
  function Values<V>(m: seq<Entry<V>>): (r: seq<V>)
    ensures |r| == |m| && forall i :: 0 <= i < |m| ==> r[i] == m[i].value
  {
    seq(|m|, i requires 0 <= i < |m| => m[i].value)
  }

  /** Position of the entry with key `k`, or `|m|` when there is none. */
  function Find<V>(m: seq<Entry<V>>, k: string): (i: nat)
    ensures i <= |m|
    ensures i < |m| ==> m[i].key == k
    ensures forall j :: 0 <= j < i ==> m[j].key != k
  {
    if m == [] then 0 else if m[0].key == k then 0 else 1 + Find(m[1..], k)
  }

  /** `Map.prototype.set`: replace in place when the key is present, else append. */
  function MapSet<V>(m: seq<Entry<V>>, k: string, v: V): seq<Entry<V>> {
    var i := Find(m, k);
    if i < |m| then m[i := Entry(k, v)] else m + [Entry(k, v)]
  }

  /** The keys of `s` under `key`. */
  function KeysOf<V>(key: V -> string, s: seq<V>): (r: seq<string>)
    ensures |r| == |s| && forall i :: 0 <= i < |s| ==> r[i] == key(s[i])
  {
    seq(|s|, i requires 0 <= i < |s| => key(s[i]))
  }

  /** `new Map(entries)`: `set` each entry from left to right. */
  function BuildMap<V>(key: V -> string, s: seq<V>): seq<Entry<V>>
    decreases |s|
  {
    if s == [] then []
    else
      var x := s[|s| - 1];
      MapSet(BuildMap(key, s[..|s| - 1]), key(x), x)
  }

  /** The deduplicated bucket. */
  function Unique<V>(key: V -> string, s: seq<V>): seq<V> {
    Values(BuildMap(key, s))
  }

  // ---- reference definitions ----

  /** The distinct keys of `ks` in order of first occurrence. */
  function Nub(ks: seq<string>): seq<string> {
    if ks == [] then []
    else
      var p := Nub(ks[..|ks| - 1]);
      if ks[|ks| - 1] in p then p else p + [ks[|ks| - 1]]
  }

  /** The last element of `s` whose key is `k`. */
  function LastWithKey<V>(key: V -> string, s: seq<V>, k: string): Option<V> {
    if s == [] then None
    else if key(s[|s| - 1]) == k then Some(s[|s| - 1])
    else LastWithKey(key, s[..|s| - 1], k)
  }

  /** Index of the first occurrence of `k` in `ks`, or `|ks|`. */
  function IndexOf(ks: seq<string>, k: string): nat {
    if ks == [] then 0 else if ks[0] == k then 0 else 1 + IndexOf(ks[1..], k)
  }

  ghost predicate Distinct(ks: seq<string>) {
    forall i, j :: 0 <= i < j < |ks| ==> ks[i] != ks[j]
  }

  // ---- lemmas ----

  /** `Nub` keeps each key of `ks` exactly once. */
  lemma {:induction false} NubSpec(ks: seq<string>)
    ensures Distinct(Nub(ks))
    ensures forall k :: k in Nub(ks) <==> k in ks
  {
    if ks != [] {
      var p := ks[..|ks| - 1];
      NubSpec(p);
      assert ks == p + [ks[|ks| - 1]];
    }
  }

  lemma {:induction false} IndexOfSnoc(ks: seq<string>, x: string, k: string)
    requires k in ks || k == x
    ensures IndexOf(ks + [x], k) == if k in ks then IndexOf(ks, k) else |ks|
  {
    if ks != [] {
      assert (ks + [x])[1..] == ks[1..] + [x];
      if ks[0] != k {
        IndexOfSnoc(ks[1..], x, k);
      }
    }
  }

  lemma {:induction false} IndexOfBound(ks: seq<string>, k: string)
    requires k in ks
    ensures IndexOf(ks, k) < |ks| && ks[IndexOf(ks, k)] == k
  {
    if ks[0] != k {
      IndexOfBound(ks[1..], k);
    }
  }

  /** The keys of `Nub` appear in the order of their first occurrences in `ks`. */
  lemma {:induction false} NubFirstOccurrenceOrder(ks: seq<string>)
    ensures forall i, j :: 0 <= i < j < |Nub(ks)| ==> IndexOf(ks, Nub(ks)[i]) < IndexOf(ks, Nub(ks)[j])
  {
    if ks != [] {
      var p, x := ks[..|ks| - 1], ks[|ks| - 1];
      assert ks == p + [x];
      NubFirstOccurrenceOrder(p);
      NubSpec(p);
      var q := Nub(p);
      var n := Nub(ks);
      assert n == if x in q then q else q + [x];
      forall i, j | 0 <= i < j < |n| ensures IndexOf(ks, n[i]) < IndexOf(ks, n[j]) {
        assert n[i] == q[i] && q[i] in q;
        assert n[i] in p;
        if j < |q| {
          assert n[j] == q[j] && q[j] in q;
          assert n[j] in p;
        } else {
          assert n[j] == x;
        }
        IndexOfSnoc(p, x, n[i]);
        IndexOfBound(p, n[i]);
        IndexOfSnoc(p, x, n[j]);
      }
    }
  }

  lemma {:induction false} LastWithKeySpec<V>(key: V -> string, s: seq<V>, k: string)
    ensures LastWithKey(key, s, k).Some? <==> k in KeysOf(key, s)
    ensures LastWithKey(key, s, k).Some? ==>
      LastWithKey(key, s, k).value in s && key(LastWithKey(key, s, k).value) == k
  {
    if s != [] {
      var p := s[..|s| - 1];
      LastWithKeySpec(key, p, k);
      assert s == p + [s[|s| - 1]];
      assert KeysOf(key, s) == KeysOf(key, p) + [key(s[|s| - 1])];
    }
  }

  /**
   * The map built from `s` has the keys of `s` in order of first occurrence,
   * each holding the last element of `s` with that key.
   */
  lemma {:induction false} BuildMapSpec<V>(key: V -> string, s: seq<V>)
    ensures EntryKeys(BuildMap(key, s)) == Nub(KeysOf(key, s))
    ensures forall i :: 0 <= i < |BuildMap(key, s)| ==>
      LastWithKey(key, s, BuildMap(key, s)[i].key) == Some(BuildMap(key, s)[i].value)
  {
    if s != [] {
      var p, x := s[..|s| - 1], s[|s| - 1];
      BuildMapSpec(key, p);
      var m := BuildMap(key, p);
      var k := key(x);
      assert KeysOf(key, s)[..|s| - 1] == KeysOf(key, p);
      NubSpec(KeysOf(key, p));
      var i := Find(m, k);
      var m' := BuildMap(key, s);
      assert m' == MapSet(m, k, x);
      if i < |m| {
        assert k in EntryKeys(m);
        assert EntryKeys(m') == EntryKeys(m);
        forall j | 0 <= j < |m'|
          ensures LastWithKey(key, s, m'[j].key) == Some(m'[j].value)
        {
          if j != i {
            assert EntryKeys(m)[j] != EntryKeys(m)[i];
          }
        }
      } else {
        assert k !in EntryKeys(m);
        assert EntryKeys(m') == EntryKeys(m) + [k];
      }
    }
  }

  /**
   * What deduplication promises: each key of `s` once, at the position of
   * its first occurrence, holding the last element of `s` with that key.
   */
  lemma UniqueSpec<V>(key: V -> string, s: seq<V>)
    ensures KeysOf(key, Unique(key, s)) == Nub(KeysOf(key, s))
    ensures forall i :: 0 <= i < |Unique(key, s)| ==>
      LastWithKey(key, s, key(Unique(key, s)[i])) == Some(Unique(key, s)[i])
  {
    var m := BuildMap(key, s);
    BuildMapSpec(key, s);
    forall i | 0 <= i < |m| ensures key(m[i].value) == m[i].key {
      LastWithKeySpec(key, s, m[i].key);
    }
  }

  /** Consequences stated without reference definitions. */
  lemma UniqueProperties<V>(key: V -> string, s: seq<V>)
    ensures forall i, j :: 0 <= i < j < |Unique(key, s)| ==> key(Unique(key, s)[i]) != key(Unique(key, s)[j])
    ensures forall x :: x in s ==> exists i :: 0 <= i < |Unique(key, s)| && key(Unique(key, s)[i]) == key(x)
    ensures forall x :: x in Unique(key, s) ==> x in s
    ensures |Unique(key, s)| <= |s|
    ensures Unique(key, s) == [] <==> s == []
  {
    var u := Unique(key, s);
    UniqueSpec(key, s);
    NubSpec(KeysOf(key, s));
    forall x | x in s ensures exists i :: 0 <= i < |u| && key(u[i]) == key(x) {
      var j :| 0 <= j < |s| && s[j] == x;
      assert key(x) in KeysOf(key, s);
      assert key(x) in Nub(KeysOf(key, s));
      assert key(x) in KeysOf(key, u);
    }
    forall x | x in u ensures x in s {
      var i :| 0 <= i < |u| && u[i] == x;
      LastWithKeySpec(key, s, key(u[i]));
    }
    NubLength(KeysOf(key, s));
    if s != [] {
      assert s[0] in s;
    }
  }

  lemma {:induction false} NubLength(ks: seq<string>)
    ensures |Nub(ks)| <= |ks|
  {
    if ks != [] {
      NubLength(ks[..|ks| - 1]);
    }
  }

  /** Each entry of the built map holds an element of `s` carrying the entry's key. */
  lemma BuildMapEntries<V>(key: V -> string, s: seq<V>)
    ensures forall i :: 0 <= i < |BuildMap(key, s)| ==>
      key(BuildMap(key, s)[i].value) == BuildMap(key, s)[i].key && BuildMap(key, s)[i].value in s
  {
    var m := BuildMap(key, s);
    BuildMapSpec(key, s);
    forall i | 0 <= i < |m| ensures key(m[i].value) == m[i].key && m[i].value in s {
      LastWithKeySpec(key, s, m[i].key);
    }
  }

  /**
   * Deduplicating a list sorted by descending rank keeps it sorted, provided
   * that elements sharing a key share a rank.
   */
  lemma {:induction false} UniqueKeepsSorted<V>(key: V -> string, rank: V -> nat, s: seq<V>)
    requires SortedDesc(rank, s)
    requires forall i, j :: 0 <= i < |s| && 0 <= j < |s| && key(s[i]) == key(s[j]) ==> rank(s[i]) == rank(s[j])
    ensures SortedDesc(rank, Unique(key, s))
  {
    if s != [] {
      var p, x := s[..|s| - 1], s[|s| - 1];
      assert forall i :: 0 <= i < |p| ==> p[i] == s[i];
      UniqueKeepsSorted(key, rank, p);
      var m := BuildMap(key, p);
      BuildMapEntries(key, p);
      var vs := Values(m);
      var i := Find(m, key(x));
      var r := Unique(key, s);
      assert r == Values(MapSet(m, key(x), x));
      if i < |m| {
        var j :| 0 <= j < |p| && p[j] == m[i].value;
        assert s[j] == m[i].value;
        assert r == vs[i := x];
        SortedReplace(rank, vs, i, x);
      } else {
        forall a | 0 <= a < |vs| ensures rank(x) <= rank(vs[a]) {
          var j :| 0 <= j < |p| && p[j] == m[a].value;
          assert s[j] == vs[a];
        }
        assert r == vs + [x];
        SortedSnoc(rank, vs, x);
      }
    }
  }

  lemma {:induction false} DistinctCount(ks: seq<string>)
    requires Distinct(ks)
    ensures |set k | k in ks| == |ks|
  {
    if ks != [] {
      var p := ks[..|ks| - 1];
      DistinctCount(p);
      assert ks == p + [ks[|ks| - 1]];
      assert (set k | k in ks) == (set k | k in p) + {ks[|ks| - 1]};
    }
  }

  /** Deduplication leaves one element per distinct key. */
  lemma UniqueCount<V>(key: V -> string, s: seq<V>)
    ensures |Unique(key, s)| == |set i | 0 <= i < |s| :: key(s[i])|
  {
    var ks := KeysOf(key, s);
    UniqueSpec(key, s);
    NubSpec(ks);
    DistinctCount(Nub(ks));
    assert (set k | k in Nub(ks)) == (set i | 0 <= i < |s| :: key(s[i]));
  }

  /** `UniqueCount` over the set of keys of the elements. */
  lemma UniqueCountSet<V>(key: V -> string, s: seq<V>)
    ensures |Unique(key, s)| == |set x | x in s :: key(x)|
  {
    UniqueCount(key, s);
    var byIndex := set i | 0 <= i < |s| :: key(s[i]);
    var byElement := set x | x in s :: key(x);
    forall k | k in byElement ensures k in byIndex {
      var x :| x in s && key(x) == k;
      var i :| 0 <= i < |s| && s[i] == x;
    }
    assert byIndex == byElement;
  }

  /** `UniqueCount` for any set holding exactly the keys of the input. */
  lemma UniqueCountKeys<V>(key: V -> string, s: seq<V>, keys: set<string>)
    requires forall x :: x in s ==> key(x) in keys
    requires forall k :: k in keys ==> exists x :: x in s && key(x) == k
    ensures |Unique(key, s)| == |keys|
  {
    UniqueCountSet(key, s);
    var byElement := set x | x in s :: key(x);
    assert byElement == keys;
  }

  /**
   * Sorting and then deduplicating: the result is drawn from the input,
   * keeps a representative of every key, and is empty only for an empty input.
   */
  lemma SortUniqueProperties<V>(key: V -> string, rank: V -> nat, s: seq<V>)
    ensures forall x :: x in Unique(key, SortDesc(rank, s)) ==> x in s
    ensures forall x :: x in s ==> exists i :: 0 <= i < |Unique(key, SortDesc(rank, s))| && key(Unique(key, SortDesc(rank, s))[i]) == key(x)
    ensures Unique(key, SortDesc(rank, s)) == [] <==> s == []
  {
    var t := SortDesc(rank, s);
    SortDescMembers(rank, s);
    UniqueProperties(key, t);
    forall x | x in Unique(key, t) ensures x in s {
      assert x in t;
    }
  }

  /**
   * Sorting and then deduplicating keeps one element per distinct key:
   * `keys` is any set holding exactly the keys of the input.
   */
  lemma SortUniqueCount<V>(key: V -> string, rank: V -> nat, s: seq<V>, keys: set<string>)
    requires forall x :: x in s ==> key(x) in keys
    requires forall k :: k in keys ==> exists x :: x in s && key(x) == k
    ensures |Unique(key, SortDesc(rank, s))| == |keys|
  {
    var t := SortDesc(rank, s);
    SortDescMembers(rank, s);
    UniqueCountSet(key, t);
    var sorted := set x | x in t :: key(x);
    forall k | k in keys ensures k in sorted {
      var x :| x in s && key(x) == k;
      assert x in t;
    }
    forall k | k in sorted ensures k in keys {
      var x :| x in t && key(x) == k;
      assert x in s;
    }
    assert sorted == keys;
  }
}

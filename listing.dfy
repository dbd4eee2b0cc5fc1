/** The sequence operations behind the commit and player listings: lodash's
    `uniqBy`/`uniq` and `reverse`, and SQL's `ORDER BY created_at`. */
module Listing {

  /** A listing entry: a commit or player name with the `created_at` of the
      row it was taken from. */
  datatype Stamped = Stamped(name: string, createdAt: int)

  function Keys<T, K>(s: seq<T>, key: T -> K): (ks: seq<K>)
    ensures |ks| == |s| && forall i :: 0 <= i < |s| ==> ks[i] == key(s[i])
  {
    seq(|s|, i requires 0 <= i < |s| => key(s[i]))
  }

  /** Index of the first element of `s` whose key is `k`, or `|s|`. */
  function FirstIndex<T, K(==)>(s: seq<T>, key: T -> K, k: K): (i: nat)
    ensures i <= |s|
    ensures forall j :: 0 <= j < i ==> key(s[j]) != k
    ensures i < |s| ==> key(s[i]) == k
  {
    if |s| == 0 then 0
    else if key(s[0]) == k then 0
    else
      var j := FirstIndex(s[1..], key, k);
      assert forall m :: 1 <= m < j + 1 ==> s[m] == s[1..][m - 1];
      1 + j
  }

  /** lodash `uniqBy(s, key)`: walks `s` in order and keeps an element only
      when no element kept before it has the same key. */
  function UniqBy<T, K(==)>(s: seq<T>, key: T -> K): seq<T> {
    if |s| == 0 then []
    else
      var kept := UniqBy(s[..|s| - 1], key);
      if key(s[|s| - 1]) in Keys(kept, key) then kept else kept + [s[|s| - 1]]
  }

  function Identity<T>(x: T): T {
    x
  }

  /** lodash `uniq(s)`: `uniqBy` on the elements themselves. */
  function Uniq<T(==)>(s: seq<T>): seq<T> {
    UniqBy(s, Identity)
  }

  /** Index of the first occurrence of `x` in `s`, or `|s|`. */
  function Position<T(==)>(s: seq<T>, x: T): nat {
    FirstIndex(s, Identity, x)
  }

  /** The first occurrence of `k` in `s` is also its first occurrence in any
      longer sequence that starts with `s`. */
  lemma FirstIndexOfPrefix<T, K>(s: seq<T>, n: nat, key: T -> K, k: K)
    requires n <= |s| && FirstIndex(s[..n], key, k) < n
    ensures FirstIndex(s, key, k) == FirstIndex(s[..n], key, k)
  {
    var i := FirstIndex(s[..n], key, k);
    assert key(s[i]) == k by { assert s[..n][i] == s[i]; }
    assert forall j :: 0 <= j < i ==> s[..n][j] == s[j];
  }

  /** No two elements of `r` share a key. */
  ghost predicate DistinctKeys<T, K>(r: seq<T>, key: T -> K) {
    forall i, j :: 0 <= i < j < |r| ==> key(r[i]) != key(r[j])
  }

  /** Each element of `r` is the first element of `s` with its key, and `r`
      lists them in the order in which their keys first occur in `s`. */
  ghost predicate FirstOccurrences<T, K>(s: seq<T>, r: seq<T>, key: T -> K) {
    && (forall i :: 0 <= i < |r| ==> FirstIndex(s, key, key(r[i])) < |s| && s[FirstIndex(s, key, key(r[i]))] == r[i])
    && (forall i, j :: 0 <= i < j < |r| ==> FirstIndex(s, key, key(r[i])) < FirstIndex(s, key, key(r[j])))
  }

  /** No two elements kept by `uniqBy` share a key. */
  lemma {:induction false} UniqByDistinct<T, K>(s: seq<T>, key: T -> K)
    ensures DistinctKeys(UniqBy(s, key), key)
  {
    if |s| > 0 {
      var kept := UniqBy(s[..|s| - 1], key);
      UniqByDistinct(s[..|s| - 1], key);
      var x := s[|s| - 1];
      if key(x) !in Keys(kept, key) {
        var r := kept + [x];
        assert UniqBy(s, key) == r;
        forall i, j | 0 <= i < j < |r| ensures key(r[i]) != key(r[j]) {
          if j == |kept| {
            assert r[i] == kept[i] && Keys(kept, key)[i] == key(r[i]);
          } else {
            assert r[i] == kept[i] && r[j] == kept[j];
          }
        }
      } else {
        assert UniqBy(s, key) == kept;
      }
    }
  }

  /** Every key of the input survives `uniqBy`. */
  lemma {:induction false} UniqByCovers<T, K>(s: seq<T>, key: T -> K)
    ensures forall x :: x in s ==> key(x) in Keys(UniqBy(s, key), key)
  {
    if |s| > 0 {
      var p := s[..|s| - 1];
      var kept := UniqBy(p, key);
      UniqByCovers(p, key);
      var r := UniqBy(s, key);
      assert Keys(r, key)[..|kept|] == Keys(kept, key);
      forall y | y in s ensures key(y) in Keys(r, key) {
        if y == s[|s| - 1] {
          if key(y) !in Keys(kept, key) { assert Keys(r, key)[|kept|] == key(y); }
        } else {
          assert s == p + [s[|s| - 1]];
          assert y in p;
        }
      }
    }
  }

  /** Each element kept by `uniqBy` is the FIRST element of the input with
      its key, and the kept elements appear in the order in which their keys
      first occur in the input. */
  lemma {:induction false} UniqByKeepsFirst<T, K>(s: seq<T>, key: T -> K)
    ensures FirstOccurrences(s, UniqBy(s, key), key)
  {
    if |s| > 0 {
      var n := |s| - 1;
      var p := s[..n];
      var x := s[n];
      var kept := UniqBy(p, key);
      UniqByKeepsFirst(p, key);
      forall i | 0 <= i < |kept|
        ensures FirstIndex(s, key, key(kept[i])) == FirstIndex(p, key, key(kept[i])) < n
        ensures s[FirstIndex(s, key, key(kept[i]))] == kept[i]
      {
        var f := FirstIndex(p, key, key(kept[i]));
        assert f < |p| && p[f] == kept[i];
        FirstIndexOfPrefix(s, n, key, key(kept[i]));
        assert s[f] == p[f];
      }
      forall i, j | 0 <= i < j < |kept|
        ensures FirstIndex(s, key, key(kept[i])) < FirstIndex(s, key, key(kept[j]))
      {
        assert FirstIndex(p, key, key(kept[i])) < FirstIndex(p, key, key(kept[j]));
      }
      if key(x) in Keys(kept, key) {
        assert UniqBy(s, key) == kept;
      } else {
        var r := kept + [x];
        assert UniqBy(s, key) == r;
        UniqByCovers(p, key);
        assert key(x) !in Keys(p, key);
        assert FirstIndex(s, key, key(x)) == n by {
          assert forall f :: 0 <= f < n ==> s[f] == p[f];
        }
        forall i | 0 <= i < |r|
          ensures FirstIndex(s, key, key(r[i])) < |s| && s[FirstIndex(s, key, key(r[i]))] == r[i]
        {
          if i < |kept| { assert r[i] == kept[i]; }
        }
        forall i, j | 0 <= i < j < |r|
          ensures FirstIndex(s, key, key(r[i])) < FirstIndex(s, key, key(r[j]))
        {
          assert r[i] == kept[i];
          if j < |kept| { assert r[j] == kept[j]; }
        }
      }
    }
  }

  /** An element of the `uniqBy` result is an element of the input. */
  lemma UniqBySubset<T, K>(s: seq<T>, key: T -> K)
    ensures forall y :: y in UniqBy(s, key) ==> y in s
  {
    UniqByKeepsFirst(s, key);
    var r := UniqBy(s, key);
    forall y | y in r ensures y in s {
      var i :| 0 <= i < |r| && r[i] == y;
    }
  }

  /** lodash `reverse`. */
  function Reverse<T>(s: seq<T>): (r: seq<T>)
    ensures |r| == |s| && forall i :: 0 <= i < |s| ==> r[i] == s[|s| - 1 - i]
  {
    seq(|s|, i requires 0 <= i < |s| => s[|s| - 1 - i])
  }

  predicate InOrder(a: Stamped, b: Stamped, ascending: bool) {
    if ascending then a.createdAt <= b.createdAt else a.createdAt >= b.createdAt
  }

  predicate Ordered(s: seq<Stamped>, ascending: bool) {
    forall i, j :: 0 <= i < j < |s| ==> InOrder(s[i], s[j], ascending)
  }

  function Insert(x: Stamped, s: seq<Stamped>, ascending: bool): (r: seq<Stamped>)
    requires Ordered(s, ascending)
    ensures Ordered(r, ascending) && multiset(r) == multiset(s) + multiset{x}
  {
    if |s| == 0 then [x]
    else if InOrder(x, s[0], ascending) then [x] + s
    else
      var t := Insert(x, s[1..], ascending);
      assert multiset(t) == multiset(s[1..]) + multiset{x};
      assert forall y :: y in t ==> InOrder(s[0], y, ascending) by {
        forall y | y in t ensures InOrder(s[0], y, ascending) {
          assert y in multiset(t);
          if y != x { assert y in multiset(s[1..]); }
        }
      }
      assert s == [s[0]] + s[1..];
      [s[0]] + t
  }

  /** `ORDER BY created_at` (ascending or descending). SQL leaves the order of
      rows with equal `created_at` open; this insertion sort picks one of the
      admissible orders. */
  function SortByTime(s: seq<Stamped>, ascending: bool): (r: seq<Stamped>)
    ensures Ordered(r, ascending) && multiset(r) == multiset(s)
  {
    if |s| == 0 then []
    else
      assert s == s[..|s| - 1] + [s[|s| - 1]];
      Insert(s[|s| - 1], SortByTime(s[..|s| - 1], ascending), ascending)
  }

  /** Reversing a sequence ordered one way orders it the other way. */
  lemma ReverseFlipsOrder(s: seq<Stamped>, ascending: bool)
    requires Ordered(s, ascending)
    ensures Ordered(Reverse(s), !ascending)
  {
    var r := Reverse(s);
    forall i, j | 0 <= i < j < |r| ensures InOrder(r[i], r[j], !ascending) {
      assert InOrder(s[|s| - 1 - j], s[|s| - 1 - i], ascending);
    }
  }

  /** What `uniq` promises: no duplicates, exactly the elements of the input,
      in the order in which they first occur there. */
  lemma UniqSpec<T>(s: seq<T>)
    ensures var r := Uniq(s);
      && (forall i, j :: 0 <= i < j < |r| ==> r[i] != r[j])
      && (forall x :: x in r <==> x in s)
      && (forall i, j :: 0 <= i < j < |r| ==> Position(s, r[i]) < Position(s, r[j]))
  {
    var r := Uniq(s);
    UniqByDistinct(s, Identity);
    UniqByCovers(s, Identity);
    UniqByKeepsFirst(s, Identity);
    UniqBySubset(s, Identity);
    forall i, j | 0 <= i < j < |r| ensures r[i] != r[j] {
      assert Identity(r[i]) != Identity(r[j]);
    }
    forall x | x in s ensures x in r {
      assert Identity(x) in Keys(r, Identity);
    }
  }

  function Name(e: Stamped): string {
    e.name
  }

  /** `uniqBy` by name keeps a timestamp order: it keeps a subsequence. */
  lemma UniqByNameKeepsOrder(s: seq<Stamped>, ascending: bool)
    requires Ordered(s, ascending)
    ensures Ordered(UniqBy(s, Name), ascending)
  {
    var r := UniqBy(s, Name);
    UniqByKeepsFirst(s, Name);
    forall i, j | 0 <= i < j < |r| ensures InOrder(r[i], r[j], ascending) {
      var fi, fj := FirstIndex(s, Name, Name(r[i])), FirstIndex(s, Name, Name(r[j]));
      assert fi < fj && s[fi] == r[i] && s[fj] == r[j];
    }
  }

  /** On input ordered by time, the entry `uniqBy` keeps for a name is the
      first in that order among all entries with the name: the earliest for
      an ascending input, the latest for a descending one. */
  lemma UniqByNameKeepsExtreme(s: seq<Stamped>, ascending: bool)
    requires Ordered(s, ascending)
    ensures forall e, x :: e in UniqBy(s, Name) && x in s && x.name == e.name ==> InOrder(e, x, ascending)
  {
    var r := UniqBy(s, Name);
    UniqByKeepsFirst(s, Name);
    forall e, x | e in r && x in s && x.name == e.name ensures InOrder(e, x, ascending) {
      var i :| 0 <= i < |r| && r[i] == e;
      var f := FirstIndex(s, Name, Name(e));
      var j :| 0 <= j < |s| && s[j] == x;
      assert Name(s[j]) == Name(e);
      assert f <= j;
      if f < j { assert InOrder(s[f], s[j], ascending); }
    }
  }

  /** The listing pipeline shared by `getListOfCommits` and
      `getListOfPlayers`: `select distinct` over (name, created_at) pairs,
      `ORDER BY created_at`, then `uniqBy` on the name. */
  function Listed(pairs: seq<Stamped>, ascending: bool): seq<Stamped> {
    UniqBy(SortByTime(Uniq(pairs), ascending), Name)
  }

  lemma SortedMembers(pairs: seq<Stamped>, ascending: bool)
    ensures forall e :: e in SortByTime(Uniq(pairs), ascending) <==> e in pairs
  {
    UniqSpec(pairs);
    var sorted := SortByTime(Uniq(pairs), ascending);
    assert forall e :: e in sorted <==> e in multiset(sorted);
    assert forall e :: e in Uniq(pairs) <==> e in multiset(Uniq(pairs));
  }

  /** No name is listed twice. */
  lemma ListedNamesDistinct(pairs: seq<Stamped>, ascending: bool)
    ensures var r := Listed(pairs, ascending);
      forall i, j :: 0 <= i < j < |r| ==> r[i].name != r[j].name
  {
    var r := Listed(pairs, ascending);
    UniqByDistinct(SortByTime(Uniq(pairs), ascending), Name);
    forall i, j | 0 <= i < j < |r| ensures r[i].name != r[j].name {
      assert Name(r[i]) != Name(r[j]);
    }
  }

  /** Every name of the input is listed. */
  lemma ListedCovers(pairs: seq<Stamped>, ascending: bool)
    ensures forall x :: x in pairs ==> x.name in Keys(Listed(pairs, ascending), Name)
  {
    SortedMembers(pairs, ascending);
    UniqByCovers(SortByTime(Uniq(pairs), ascending), Name);
  }

  /** Every listed entry is one of the input pairs. */
  lemma ListedFromPairs(pairs: seq<Stamped>, ascending: bool)
    ensures forall e :: e in Listed(pairs, ascending) ==> e in pairs
  {
    SortedMembers(pairs, ascending);
    UniqBySubset(SortByTime(Uniq(pairs), ascending), Name);
  }

  /** The entry listed for a name comes first in the sort order among that
      name's pairs. */
  lemma ListedExtreme(pairs: seq<Stamped>, ascending: bool)
    ensures forall e, x :: e in Listed(pairs, ascending) && x in pairs && x.name == e.name ==> InOrder(e, x, ascending)
  {
    SortedMembers(pairs, ascending);
    UniqByNameKeepsExtreme(SortByTime(Uniq(pairs), ascending), ascending);
  }

  /** The listing keeps the sort order. */
  lemma ListedOrdered(pairs: seq<Stamped>, ascending: bool)
    ensures Ordered(Listed(pairs, ascending), ascending)
  {
    UniqByNameKeepsOrder(SortByTime(Uniq(pairs), ascending), ascending);
  }
}

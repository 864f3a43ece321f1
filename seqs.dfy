/** Sequence operations the table scripts are built from: boolean-mask filters, counts,
    `head(n)`, sorting by a numeric column, `unique()` and `groupby(...).agg(count/sum)`. */
module Seqs {
  import opened Wrappers

  /** df[mask]: the elements satisfying p, in their original order. */
  function Filter<T(!new)>(s: seq<T>, p: T -> bool): (r: seq<T>)
    ensures |r| <= |s|
  {
    if s == [] then []
    else
      var rest := Filter(s[1..], p);
      if p(s[0]) then [s[0]] + rest else rest
  }

  /** The selection holds exactly the elements satisfying p. */
  lemma {:induction false} FilterSpec<T(!new)>(s: seq<T>, p: T -> bool)
    ensures forall i :: 0 <= i < |Filter(s, p)| ==> p(Filter(s, p)[i])
    ensures forall x :: x in Filter(s, p) <==> x in s && p(x)
  {
    if s != [] {
      assert s == [s[0]] + s[1..];
      FilterSpec(s[1..], p);
    }
  }

  /** A filter keeps each element at most as often as the input holds it. */
  lemma {:induction false} FilterSubMultiset<T(!new)>(s: seq<T>, p: T -> bool)
    ensures multiset(Filter(s, p)) <= multiset(s)
  {
    if s != [] {
      assert s == [s[0]] + s[1..];
      FilterSubMultiset(s[1..], p);
    }
  }

  /** A filter of a duplicate-free sequence is duplicate-free. */
  lemma {:induction false} FilterDistinct<T(!new)>(s: seq<T>, p: T -> bool)
    requires forall i, j :: 0 <= i < j < |s| ==> s[i] != s[j]
    ensures forall i, j :: 0 <= i < j < |Filter(s, p)| ==> Filter(s, p)[i] != Filter(s, p)[j]
  {
    if s != [] {
      var t := s[1..];
      assert forall i, j :: 0 <= i < j < |t| ==> t[i] == s[i + 1] && t[j] == s[j + 1];
      FilterDistinct(t, p);
      if p(s[0]) {
        FilterSpec(t, p);
        assert s[0] !in t;
        var r := Filter(s, p);
        assert r == [s[0]] + Filter(t, p);
        assert forall j :: 1 <= j < |r| ==> r[j] == Filter(t, p)[j - 1];
      }
    }
  }

  /** mask.sum(): how many elements satisfy p. */
  function Count<T(!new)>(s: seq<T>, p: T -> bool): nat
  {
    |Filter(s, p)|
  }

  /** Filter distributes over concatenation: a filtered table keeps the row order. */
  lemma {:induction false} FilterAppend<T(!new)>(a: seq<T>, b: seq<T>, p: T -> bool)
    ensures Filter(a + b, p) == Filter(a, p) + Filter(b, p)
  {
    if a == [] {
      assert a + b == b;
    } else {
      assert (a + b)[1..] == a[1..] + b;
      assert (a + b)[0] == a[0];
      FilterAppend(a[1..], b, p);
    }
  }

  /** Two complementary masks split a table: |df[m]| + |df[~m]| == |df|. */
  lemma {:induction false} CountComplement<T(!new)>(s: seq<T>, p: T -> bool, q: T -> bool)
    requires forall x :: p(x) != q(x)
    ensures Count(s, p) + Count(s, q) == |s|
  {
    if s != [] {
      CountComplement(s[1..], p, q);
    }
  }

  /** Two masks that never hold together select at most |s| rows between them. */
  lemma {:induction false} CountDisjoint<T(!new)>(s: seq<T>, p: T -> bool, q: T -> bool)
    requires forall x :: !(p(x) && q(x))
    ensures Count(s, p) + Count(s, q) <= |s|
  {
    if s != [] {
      CountDisjoint(s[1..], p, q);
    }
  }

  /** A stricter mask selects no more rows. */
  lemma {:induction false} CountMono<T(!new)>(s: seq<T>, p: T -> bool, q: T -> bool)
    requires forall x :: p(x) ==> q(x)
    ensures Count(s, p) <= Count(s, q)
  {
    if s != [] {
      CountMono(s[1..], p, q);
    }
  }

  /** `mask.mean() * 100`: the share of elements satisfying p, in percent; missing (NaN) on an empty sequence. */
  function Percent<T(!new)>(s: seq<T>, p: T -> bool): (r: Option<real>)
  {
    if s == [] then None else Some(Count(s, p) as real / |s| as real * 100.0)
  }

  /** The share is missing exactly on an empty sequence and otherwise lies between 0 and 100. */
  lemma PercentBounds<T(!new)>(s: seq<T>, p: T -> bool)
    ensures Percent(s, p).None? <==> s == []
    ensures Percent(s, p).Some? ==> 0.0 <= Percent(s, p).value <= 100.0
  {
    if s != [] {
      PercentOfWhole(Count(s, p) as real, |s| as real);
    }
  }

  /** A part of a positive whole is between 0 and 100 percent of it. */
  lemma PercentOfWhole(part: real, whole: real)
    requires 0.0 <= part <= whole && whole > 0.0
    ensures 0.0 <= part / whole * 100.0 <= 100.0
  {
    var f := part / whole;
    assert f * whole == part;
  }

  /** df.head(n). */
  function Take<T>(s: seq<T>, n: nat): (r: seq<T>)
    ensures |r| == if n < |s| then n else |s|
    ensures r <= s
  {
    if n < |s| then s[..n] else s
  }

  /** Non-increasing in key: the order sort_values(ascending=False) produces. */
  ghost predicate SortedDesc<T>(s: seq<T>, key: T -> real)
  {
    forall i, j :: 0 <= i < j < |s| ==> key(s[i]) >= key(s[j])
  }

  /** Inserts x in front of the first element whose key is not larger. */
  function InsertDesc<T(!new)>(x: T, s: seq<T>, key: T -> real): (r: seq<T>)
    ensures |r| == |s| + 1
    ensures multiset(r) == multiset(s) + multiset{x}
  {
    if s == [] || key(x) >= key(s[0]) then
      [x] + s
    else
      assert s == [s[0]] + s[1..];
      [s[0]] + InsertDesc(x, s[1..], key)
  }

  /** Insertion adds x and nothing else. */
  lemma {:induction false} InsertDescMembers<T(!new)>(x: T, s: seq<T>, key: T -> real)
    ensures forall y :: y in InsertDesc(x, s, key) <==> y == x || y in s
  {
    if s != [] && key(x) < key(s[0]) {
      assert s == [s[0]] + s[1..];
      InsertDescMembers(x, s[1..], key);
    }
  }

  /** Insertion keeps a sequence sorted. */
  lemma {:induction false} InsertDescSorted<T(!new)>(x: T, s: seq<T>, key: T -> real)
    requires SortedDesc(s, key)
    ensures SortedDesc(InsertDesc(x, s, key), key)
  {
    if s != [] && key(x) < key(s[0]) {
      var tail := s[1..];
      assert s == [s[0]] + tail;
      InsertDescSorted(x, tail, key);
      var rest := InsertDesc(x, tail, key);
      InsertDescMembers(x, tail, key);
      forall y | y in rest
        ensures key(s[0]) >= key(y)
      {
        if y != x {
          var j :| 0 <= j < |tail| && tail[j] == y;
          assert s[j + 1] == y;
        }
      }
      assert InsertDesc(x, s, key) == [s[0]] + rest;
      SortedCons(s[0], rest, key);
    }
  }

  /** A head with a key at least every key of a sorted tail gives a sorted sequence. */
  lemma SortedCons<T>(h: T, rest: seq<T>, key: T -> real)
    requires SortedDesc(rest, key)
    requires forall y :: y in rest ==> key(h) >= key(y)
    ensures SortedDesc([h] + rest, key)
  {
    var r := [h] + rest;
    forall i, j | 0 <= i < j < |r|
      ensures key(r[i]) >= key(r[j])
    {
      assert r[j] == rest[j - 1] && rest[j - 1] in rest;
      if i > 0 {
        assert r[i] == rest[i - 1];
      }
    }
  }

  /** Selecting rows of a sorted table keeps it sorted. */
  lemma {:induction false} FilterSortedDesc<T(!new)>(s: seq<T>, p: T -> bool, key: T -> real)
    requires SortedDesc(s, key)
    ensures SortedDesc(Filter(s, p), key)
  {
    if s != [] {
      var tail := s[1..];
      assert forall i, j :: 0 <= i < j < |tail| ==> tail[i] == s[i + 1] && tail[j] == s[j + 1];
      FilterSortedDesc(tail, p, key);
      if p(s[0]) {
        FilterSpec(tail, p);
        forall y | y in Filter(tail, p)
          ensures key(s[0]) >= key(y)
        {
          var j :| 0 <= j < |tail| && tail[j] == y;
          assert s[j + 1] == y;
        }
        SortedCons(s[0], Filter(tail, p), key);
      }
    }
  }

  /** sort_values(key, ascending=False): a permutation of s in non-increasing key order. */
  function SortDesc<T(!new)>(s: seq<T>, key: T -> real): (r: seq<T>)
    ensures SortedDesc(r, key)
    ensures multiset(r) == multiset(s)
    ensures |r| == |s|
  {
    if s == [] then []
    else
      assert s == [s[0]] + s[1..];
      var rest := SortDesc(s[1..], key);
      InsertDescSorted(s[0], rest, key);
      InsertDesc(s[0], rest, key)
  }

  /** df.nlargest(n, key): the n elements with the largest keys, largest first. */
  function Largest<T(!new)>(s: seq<T>, n: nat, key: T -> real): (r: seq<T>)
    ensures |r| == if n < |s| then n else |s|
    ensures SortedDesc(r, key)
    ensures multiset(r) <= multiset(s)
    ensures forall x, y :: x in r && y in multiset(s) - multiset(r) ==> key(x) >= key(y)
  {
    var sorted := SortDesc(s, key);
    var r := Take(sorted, n);
    assert r == sorted[..|r|];
    SortedPrefix(sorted, |r|, key);
    SplitSorted(sorted, |r|, key);
    r
  }

  /** A prefix of a sorted sequence is sorted and drawn from it. */
  lemma SortedPrefix<T>(sorted: seq<T>, k: nat, key: T -> real)
    requires SortedDesc(sorted, key) && k <= |sorted|
    ensures SortedDesc(sorted[..k], key)
    ensures multiset(sorted[..k]) <= multiset(sorted)
  {
    assert sorted == sorted[..k] + sorted[k..];
    assert multiset(sorted) == multiset(sorted[..k]) + multiset(sorted[k..]);
  }

  /** Cutting a sorted sequence at k: every element before the cut has a key at least that of every element after. */
  lemma SplitSorted<T(!new)>(sorted: seq<T>, k: nat, key: T -> real)
    requires SortedDesc(sorted, key) && k <= |sorted|
    ensures forall x, y :: x in sorted[..k] && y in multiset(sorted) - multiset(sorted[..k]) ==> key(x) >= key(y)
  {
    assert sorted == sorted[..k] + sorted[k..];
    assert multiset(sorted) == multiset(sorted[..k]) + multiset(sorted[k..]);
    assert multiset(sorted) - multiset(sorted[..k]) == multiset(sorted[k..]);
    forall x, y | x in sorted[..k] && y in multiset(sorted) - multiset(sorted[..k])
      ensures key(x) >= key(y)
    {
      var i :| 0 <= i < k && sorted[..k][i] == x;
      assert y in sorted[k..];
      var j :| 0 <= j < |sorted| - k && sorted[k..][j] == y;
      assert sorted[i] == x && sorted[k + j] == y;
    }
  }

  /** Two sequences with the same multiset have the same members. */
  lemma MultisetMembers<T>(r: seq<T>, s: seq<T>)
    requires multiset(r) == multiset(s)
    ensures forall x :: x in r <==> x in s
  {
    forall x
      ensures x in r <==> x in s
    {
      assert x in r <==> x in multiset(r);
      assert x in s <==> x in multiset(s);
    }
  }

  /** A permutation, or a sub-multiset, of a duplicate-free sequence is duplicate-free. */
  lemma DistinctMultiset<T>(s: seq<T>, r: seq<T>, i: int, j: int)
    requires forall a, b :: 0 <= a < b < |s| ==> s[a] != s[b]
    requires multiset(r) <= multiset(s)
    requires 0 <= i < j < |r|
    ensures r[i] != r[j]
  {
    if r[i] == r[j] {
      assert r == r[..j] + [r[j]] + r[j + 1..];
      assert r[i] in r[..j];
      assert multiset(r)[r[i]] >= 2;
      NoDupCount(s, r[i]);
    }
  }

  /** In a duplicate-free sequence every value occurs at most once. */
  lemma {:induction false} NoDupCount<T>(s: seq<T>, x: T)
    requires forall a, b :: 0 <= a < b < |s| ==> s[a] != s[b]
    ensures multiset(s)[x] <= 1
  {
    if s != [] {
      assert s == [s[0]] + s[1..];
      NoDupCount(s[1..], x);
      if s[0] == x {
        assert x !in s[1..];
      }
    }
  }

  /** Series.unique(): each value once, in order of first appearance. */
  function Distinct<T(!new,==)>(s: seq<T>): (r: seq<T>)
    ensures forall i, j :: 0 <= i < j < |r| ==> r[i] != r[j]
    ensures forall x :: x in r <==> x in s
    ensures |r| <= |s|
  {
    if s == [] then []
    else
      var d := Distinct(s[..|s| - 1]);
      assert s == s[..|s| - 1] + [s[|s| - 1]];
      if s[|s| - 1] in d then d else d + [s[|s| - 1]]
  }

  /** The group keys present in rows; a row whose key is missing (NaN) belongs to no group. */
  function PresentKeys<T, K(!new)>(rows: seq<T>, key: T -> Option<K>): (r: seq<K>)
    ensures forall k :: k in r <==> exists i :: 0 <= i < |rows| && key(rows[i]) == Some(k)
  {
    if rows == [] then []
    else
      var rest := PresentKeys(rows[1..], key);
      assert forall i :: 1 <= i < |rows| ==> rows[i] == rows[1..][i - 1];
      match key(rows[0])
      case Some(k) => [k] + rest
      case None => rest
  }

  /** Number of rows in the group k. */
  function KeyCount<T, K(==)>(rows: seq<T>, key: T -> Option<K>, k: K): nat
  {
    if rows == [] then 0
    else (if key(rows[0]) == Some(k) then 1 else 0) + KeyCount(rows[1..], key, k)
  }

  /** Number of rows in the group k that satisfy hit: `agg(lambda x: (x == ...).sum())`. */
  function KeyHits<T, K(==)>(rows: seq<T>, key: T -> Option<K>, hit: T -> bool, k: K): nat
  {
    if rows == [] then 0
    else (if key(rows[0]) == Some(k) && hit(rows[0]) then 1 else 0) + KeyHits(rows[1..], key, hit, k)
  }

  lemma {:induction false} HitsAtMostCount<T, K>(rows: seq<T>, key: T -> Option<K>, hit: T -> bool, k: K)
    ensures KeyHits(rows, key, hit, k) <= KeyCount(rows, key, k)
  {
    if rows != [] {
      HitsAtMostCount(rows[1..], key, hit, k);
    }
  }

  lemma {:induction false} PresentKeyCounted<T, K>(rows: seq<T>, key: T -> Option<K>, k: K)
    requires exists i :: 0 <= i < |rows| && key(rows[i]) == Some(k)
    ensures KeyCount(rows, key, k) >= 1
  {
    if key(rows[0]) != Some(k) {
      var i :| 0 <= i < |rows| && key(rows[i]) == Some(k);
      assert rows[1..][i - 1] == rows[i];
      PresentKeyCounted(rows[1..], key, k);
    }
  }

  /** Some row belongs to the group k. */
  predicate HasKey<T, K(==)>(rows: seq<T>, key: T -> Option<K>, k: K)
  {
    exists i :: 0 <= i < |rows| && key(rows[i]) == Some(k)
  }

  /** One row of `groupby(key).agg(...)`: the key, its row count and the number of its rows satisfying a mask. */
  datatype Group<K> = Group(key: K, count: nat, hits: nat)

  /** groupby(key) with dropna=True: one group per key value present, none for a missing key. */
  function GroupBy<T, K(!new,==)>(rows: seq<T>, key: T -> Option<K>, hit: T -> bool): (r: seq<Group<K>>)
    ensures forall i, j :: 0 <= i < j < |r| ==> r[i].key != r[j].key
    ensures forall i :: 0 <= i < |r| ==>
              r[i].count == KeyCount(rows, key, r[i].key) && r[i].hits == KeyHits(rows, key, hit, r[i].key)
    ensures forall i :: 0 <= i < |r| ==> 1 <= r[i].count && r[i].hits <= r[i].count
    ensures forall k :: (exists i :: 0 <= i < |r| && r[i].key == k) <==> HasKey(rows, key, k)
  {
    var ks := Distinct(PresentKeys(rows, key));
    var r := seq(|ks|, i requires 0 <= i < |ks| => Group(ks[i], KeyCount(rows, key, ks[i]), KeyHits(rows, key, hit, ks[i])));
    forall i | 0 <= i < |r|
      ensures 1 <= r[i].count && r[i].hits <= r[i].count
    {
      assert ks[i] in PresentKeys(rows, key);
      PresentKeyCounted(rows, key, ks[i]);
      HitsAtMostCount(rows, key, hit, ks[i]);
    }
    forall k | exists i :: 0 <= i < |rows| && key(rows[i]) == Some(k)
      ensures exists i :: 0 <= i < |r| && r[i].key == k
    {
      assert k in ks;
      var i :| 0 <= i < |ks| && ks[i] == k;
      assert r[i].key == k;
    }
    r
  }

  /** A key some row carries has its group. */
  lemma GroupOfKey<T, K(!new)>(rows: seq<T>, key: T -> Option<K>, hit: T -> bool, k: K)
    requires HasKey(rows, key, k)
    ensures exists i :: 0 <= i < |GroupBy(rows, key, hit)| && GroupBy(rows, key, hit)[i].key == k
  {
    var r := GroupBy(rows, key, hit);
    assert exists i :: 0 <= i < |r| && r[i].key == k;
  }

  /** The row count of a group, as a sort key. */
  function GroupCount<K>(g: Group<K>): real
  {
    g.count as real
  }

  /** The hit count of a group, as a sort key. */
  function GroupHits<K>(g: Group<K>): real
  {
    g.hits as real
  }
}

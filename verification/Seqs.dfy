/** Facts about finite sequences shared by the models: distinctness, the
    pigeonhole principle and rearrangement. */
module Seqs {

  datatype Option<+T> = None | Some(value: T)

  ghost predicate Distinct<T(!new)>(s: seq<T>) {
    forall i, j :: 0 <= i < j < |s| ==> s[i] != s[j]
  }

  /** Every element of a occurs in b. */
  ghost predicate Within<T(!new)>(a: seq<T>, b: seq<T>) {
    forall i :: 0 <= i < |a| ==> a[i] in b
  }

  function Without<T>(s: seq<T>, k: nat): (r: seq<T>)
    requires k < |s|
    ensures |r| == |s| - 1
  {
    s[..k] + s[k + 1..]
  }

  lemma MultisetWithout<T>(s: seq<T>, k: nat)
    requires k < |s|
    ensures multiset(s) == multiset(Without(s, k)) + multiset{s[k]}
  {
    assert s == s[..k] + [s[k]] + s[k + 1..];
  }

  /** Distinct numbers below n are at most n many. */
  lemma {:induction false} DistinctBound(s: seq<nat>, n: nat)
    requires Distinct(s)
    requires forall i :: 0 <= i < |s| ==> s[i] < n
    ensures |s| <= n
    decreases n
  {
    if s != [] {
      assert s[0] < n;
      if n - 1 in s {
        var k :| 0 <= k < |s| && s[k] == n - 1;
        DistinctBound(Without(s, k), n - 1);
      } else {
        DistinctBound(s, n - 1);
      }
    }
  }

  /** A distinct list inside another of the same length is a rearrangement of it. */
  lemma {:induction false} DistinctCover<T(!new)>(a: seq<T>, b: seq<T>)
    requires Distinct(a)
    requires Within(a, b)
    requires |b| <= |a|
    ensures multiset(a) == multiset(b)
    decreases |a|
  {
    if a == [] {
      assert b == [];
    } else {
      var k :| 0 <= k < |b| && b[k] == a[0];
      var rest := Without(b, k);
      forall i | 0 <= i < |a[1..]| ensures a[1..][i] in rest {
        var j :| 0 <= j < |b| && b[j] == a[i + 1];
        assert b[j] != b[k];
        assert b[j] == if j < k then rest[j] else rest[j - 1];
      }
      DistinctCover(a[1..], rest);
      MultisetWithout(b, k);
      assert a == [a[0]] + a[1..];
    }
  }

  /** Distinctness is a property of the contents. */
  lemma DistinctByCount<T(!new)>(s: seq<T>)
    ensures Distinct(s) <==> forall x :: multiset(s)[x] <= 1
  {
    if Distinct(s) {
      forall x ensures multiset(s)[x] <= 1 { CountOnce(s, x); }
    } else {
      var i, j :| 0 <= i < j < |s| && s[i] == s[j];
      assert s == s[..i] + [s[i]] + s[i + 1..j] + [s[j]] + s[j + 1..];
      assert multiset(s)[s[i]] >= 2;
    }
  }

  lemma {:induction false} CountOnce<T(!new)>(s: seq<T>, x: T)
    requires Distinct(s)
    ensures multiset(s)[x] <= 1
  {
    if s != [] {
      assert s == [s[0]] + s[1..];
      CountOnce(s[1..], x);
      if s[0] == x { assert x !in s[1..]; }
    }
  }

  /** Rearranged lists have the same members, length and distinctness. */
  lemma SameContents<T(!new)>(a: seq<T>, b: seq<T>)
    requires multiset(a) == multiset(b)
    ensures |a| == |b|
    ensures forall x :: x in a <==> x in b
    ensures Distinct(a) <==> Distinct(b)
  {
    assert |multiset(a)| == |a| && |multiset(b)| == |b|;
    forall x ensures x in a <==> x in b {
      assert x in a <==> x in multiset(a);
      assert x in b <==> x in multiset(b);
    }
    DistinctByCount(a);
    DistinctByCount(b);
  }

  /** Distinct numbers below their count are all of them. */
  lemma DistinctOnto(p: seq<nat>, i: nat)
    requires Distinct(p)
    requires forall k :: 0 <= k < |p| ==> p[k] < |p|
    requires i < |p|
    ensures i in p
  {
    var all := seq(|p|, k requires 0 <= k < |p| => k);
    forall k | 0 <= k < |p| ensures p[k] in all { assert all[p[k]] == p[k]; }
    DistinctCover(p, all);
    SameContents(p, all);
    assert all[i] == i;
  }

  /** A list of at most n elements that contains every number below n has exactly n. */
  lemma CoverLength(s: seq<nat>, n: nat)
    requires forall i :: 0 <= i < n ==> i in s
    requires |s| <= n
    ensures |s| == n
  {
    var all := seq(n, k requires 0 <= k < n => k);
    DistinctCover(all, s);
    SameContents(all, s);
  }

  ghost predicate Permutation(p: seq<nat>) {
    Distinct(p) && forall k :: 0 <= k < |p| ==> p[k] < |p|
  }

  /** Where a permutation sends an index from. */
  ghost function Position(p: seq<nat>, i: nat): (k: nat)
    requires Permutation(p) && i < |p|
    ensures k < |p| && p[k] == i
  {
    DistinctOnto(p, i);
    var k: nat :| k < |p| && p[k] == i;
    k
  }
}

/** Sequence operations the dashboard gets from Python and pandas: stable
    sorting with a key, unique values in order of first appearance,
    boolean-mask row selection and filtering. */
module Seqs {

  /** `le` is a total preorder: any two values compare, ties allowed. */
  ghost predicate TotalPreorder<T(!new)>(le: (T, T) -> bool) {
    && (forall a, b :: le(a, b) || le(b, a))
    && (forall a, b, c :: le(a, b) && le(b, c) ==> le(a, c))
  }

  predicate SortedBy<T>(s: seq<T>, le: (T, T) -> bool) {
    forall i, j :: 0 <= i < j < |s| ==> le(s[i], s[j])
  }

  predicate Distinct<T(==)>(s: seq<T>) {
    forall i, j :: 0 <= i < j < |s| ==> s[i] != s[j]
  }

  /** In a sorted sequence every element of the slice `s[lo..hi + 1]` is
      bounded by the slice's first and last elements. */
  lemma SortedSliceBounds<T>(s: seq<T>, le: (T, T) -> bool, lo: nat, hi: nat, x: T)
    requires SortedBy(s, le) && lo <= hi < |s| && x in s[lo..hi + 1]
    ensures x == s[lo] || le(s[lo], x)
    ensures x == s[hi] || le(x, s[hi])
  {
    var k :| 0 <= k < hi + 1 - lo && s[lo..hi + 1][k] == x;
    assert s[lo + k] == x;
  }

  /** The members of an inclusive slice are the elements at its positions. */
  lemma SliceMembers<T>(s: seq<T>, lo: nat, hi: nat, x: T)
    requires lo <= hi < |s|
    ensures x in s[lo..hi + 1] <==> exists i :: lo <= i <= hi && s[i] == x
  {
    if x in s[lo..hi + 1] {
      var k :| 0 <= k < hi + 1 - lo && s[lo..hi + 1][k] == x;
      assert s[lo + k] == x;
    }
    if exists i :: lo <= i <= hi && s[i] == x {
      var i :| lo <= i <= hi && s[i] == x;
      assert s[lo..hi + 1][i - lo] == x;
    }
  }

  // --------------------------------------------------------------- sorting

  /** Inserts `x` before the first element it is `le`; an element that ties
      with `x` therefore stays after it. */
  function InsertBy<T>(x: T, s: seq<T>, le: (T, T) -> bool): (r: seq<T>)
    ensures multiset(r) == multiset(s) + multiset{x}
    ensures |r| == |s| + 1
  {
    if s == [] || le(x, s[0]) then [x] + s
    else
      assert s == [s[0]] + s[1..];
      [s[0]] + InsertBy(x, s[1..], le)
  }

  /** A stable sort: Python's sorted(key=...) and pandas' sort_values over
      several columns both keep tied rows in their input order. */
  function SortBy<T>(s: seq<T>, le: (T, T) -> bool): (r: seq<T>)
    ensures multiset(r) == multiset(s)
    ensures |r| == |s|
  {
    if s == [] then []
    else
      assert s == [s[0]] + s[1..];
      InsertBy(s[0], SortBy(s[1..], le), le)
  }

  lemma {:induction false} InsertBySorted<T(!new)>(x: T, s: seq<T>, le: (T, T) -> bool)
    requires TotalPreorder(le) && SortedBy(s, le)
    ensures SortedBy(InsertBy(x, s, le), le)
    decreases |s|
  {
    if s == [] || le(x, s[0]) {
    } else {
      var t := InsertBy(x, s[1..], le);
      InsertBySorted(x, s[1..], le);
      forall y | y in t ensures le(s[0], y) {
        assert y in multiset(t);
        if y != x {
          assert y in multiset(s[1..]);
          var k :| 0 <= k < |s[1..]| && s[1..][k] == y;
          assert s[k + 1] == y;
        }
      }
      assert forall j :: 0 <= j < |t| ==> t[j] in t;
    }
  }

  /** The sort's result is ordered by `le`. */
  lemma {:induction false} SortBySorted<T(!new)>(s: seq<T>, le: (T, T) -> bool)
    requires TotalPreorder(le)
    ensures SortedBy(SortBy(s, le), le)
    decreases |s|
  {
    if s != [] {
      SortBySorted(s[1..], le);
      InsertBySorted(s[0], SortBy(s[1..], le), le);
    }
  }

  /** The elements of `s` that tie with `k`, in their order in `s`. */
  function Ties<T>(s: seq<T>, k: T, le: (T, T) -> bool): seq<T> {
    if s == [] then []
    else (if le(s[0], k) && le(k, s[0]) then [s[0]] else []) + Ties(s[1..], k, le)
  }

  lemma {:induction false} InsertByTies<T(!new)>(x: T, s: seq<T>, k: T, le: (T, T) -> bool)
    requires TotalPreorder(le)
    ensures Ties(InsertBy(x, s, le), k, le)
         == (if le(x, k) && le(k, x) then [x] else []) + Ties(s, k, le)
    decreases |s|
  {
    if s == [] || le(x, s[0]) {
      assert ([x] + s)[1..] == s;
    } else {
      var t := InsertBy(x, s[1..], le);
      assert ([s[0]] + t)[1..] == t;
      var head := if le(s[0], k) && le(k, s[0]) then [s[0]] else [];
      var tx := if le(x, k) && le(k, x) then [x] else [];
      InsertByTies(x, s[1..], k, le);
      assert Ties(InsertBy(x, s, le), k, le) == head + (tx + Ties(s[1..], k, le));
      assert Ties(s, k, le) == head + Ties(s[1..], k, le);
      if le(x, k) && le(k, x) {
        assert head == [];
      } else {
        assert tx == [];
      }
    }
  }

  /** Stability: the elements that tie with any `k` come out in the order
      they went in. */
  lemma {:induction false} SortByStable<T(!new)>(s: seq<T>, k: T, le: (T, T) -> bool)
    requires TotalPreorder(le)
    ensures Ties(SortBy(s, le), k, le) == Ties(s, k, le)
    decreases |s|
  {
    if s != [] {
      SortByStable(s[1..], k, le);
      InsertByTies(s[0], SortBy(s[1..], le), k, le);
    }
  }

  /** Sorting what is already sorted changes nothing. */
  lemma {:induction false} SortBySortedUnchanged<T(!new)>(s: seq<T>, le: (T, T) -> bool)
    requires SortedBy(s, le)
    ensures SortBy(s, le) == s
    decreases |s|
  {
    if s != [] {
      assert SortedBy(s[1..], le);
      SortBySortedUnchanged(s[1..], le);
      assert [s[0]] + s[1..] == s;
    }
  }

  lemma {:induction false} InsertByDistinct<T>(x: T, s: seq<T>, le: (T, T) -> bool)
    requires Distinct(s) && x !in s
    ensures Distinct(InsertBy(x, s, le))
    decreases |s|
  {
    if s == [] || le(x, s[0]) {
    } else {
      var t := InsertBy(x, s[1..], le);
      assert Distinct(s[1..]);
      InsertByDistinct(x, s[1..], le);
      forall y | y in t ensures y != s[0] {
        assert y in multiset(t);
        if y != x {
          assert y in multiset(s[1..]);
          var k :| 0 <= k < |s[1..]| && s[1..][k] == y;
          assert s[k + 1] == y;
        }
      }
      assert forall j :: 0 <= j < |t| ==> t[j] in t;
    }
  }

  lemma {:induction false} SortByDistinct<T>(s: seq<T>, le: (T, T) -> bool)
    requires Distinct(s)
    ensures Distinct(SortBy(s, le))
    decreases |s|
  {
    if s != [] {
      assert Distinct(s[1..]);
      SortByDistinct(s[1..], le);
      var t := SortBy(s[1..], le);
      assert s[0] !in s[1..];
      assert s[0] !in multiset(t);
      InsertByDistinct(s[0], t, le);
    }
  }

  // -------------------------------------------------------------- unique

  /** pandas' Series.unique(): every value once, in order of first
      appearance. */
  function Unique<T(==,!new)>(s: seq<T>): (r: seq<T>)
    ensures Distinct(r) && |r| <= |s|
    ensures forall x :: x in r <==> x in s
  {
    if s == [] then []
    else
      var init := s[..|s| - 1];
      var r := Unique(init);
      assert forall x :: x in s <==> x in init || x == s[|s| - 1] by {
        assert s == init + [s[|s| - 1]];
      }
      if s[|s| - 1] in r then r else r + [s[|s| - 1]]
  }

  /** First appearance: any value listed before another occurs in `s`
      before every occurrence of that other value. */
  lemma {:induction false} UniqueFirstAppearance<T(!new)>(s: seq<T>)
    ensures forall i, j, b :: 0 <= i < j < |Unique(s)| && 0 <= b < |s| && s[b] == Unique(s)[j]
                              ==> Unique(s)[i] in s[..b]
    decreases |s|
  {
    if s != [] {
      var init, last := s[..|s| - 1], s[|s| - 1];
      var u, r := Unique(init), Unique(s);
      UniqueFirstAppearance(init);
      assert s == init + [last];
      forall i, j, b | 0 <= i < j < |r| && 0 <= b < |s| && s[b] == r[j]
        ensures r[i] in s[..b]
      {
        assert r[i] == u[i];
        if b == |s| - 1 {
          assert s[..b] == init;
          assert u[i] in u;
        } else {
          assert s[b] == init[b] && init[b] in init;
          assert s[..b] == init[..b];
          assert r[j] in u;
          assert r[j] == u[j];
        }
      }
    }
  }

  // ------------------------------------------------------------- filters

  /** The elements of `s` that satisfy `p`, in order. */
  function Filter<T(!new)>(s: seq<T>, p: T -> bool): (r: seq<T>)
    ensures |r| <= |s|
    ensures forall x :: x in r <==> x in s && p(x)
    ensures multiset(r) <= multiset(s)
  {
    if s == [] then []
    else
      assert s == [s[0]] + s[1..];
      (if p(s[0]) then [s[0]] else []) + Filter(s[1..], p)
  }

  /** A mask keeps every occurrence of a matching element and none of
      the others: duplicates are kept as often as they occur. */
  lemma {:induction false} FilterCount<T(!new)>(s: seq<T>, p: T -> bool, x: T)
    ensures multiset(Filter(s, p))[x] == if p(x) then multiset(s)[x] else 0
    decreases |s|
  {
    if s != [] {
      FilterCount(s[1..], p, x);
      assert s == [s[0]] + s[1..];
    }
  }

  /** Filtering a sequence without repeats gives one without repeats. */
  lemma {:induction false} FilterDistinct<T(!new)>(s: seq<T>, p: T -> bool)
    requires Distinct(s)
    ensures Distinct(Filter(s, p))
    decreases |s|
  {
    if s != [] {
      var t := Filter(s[1..], p);
      assert Distinct(s[1..]);
      FilterDistinct(s[1..], p);
      if p(s[0]) {
        assert s[0] !in s[1..] by {
          forall k | 0 <= k < |s[1..]| ensures s[1..][k] != s[0] {
            assert s[1..][k] == s[k + 1];
          }
        }
        var r := [s[0]] + t;
        forall i, j | 0 <= i < j < |r| ensures r[i] != r[j] {
          assert r[j] == t[j - 1];
          if i > 0 {
            assert r[i] == t[i - 1];
          }
        }
      }
    }
  }

  /** A filter keeps the order of what it keeps. */
  lemma {:induction false} FilterSorted<T(!new)>(s: seq<T>, p: T -> bool, le: (T, T) -> bool)
    requires SortedBy(s, le)
    ensures SortedBy(Filter(s, p), le)
    decreases |s|
  {
    if s != [] {
      var t := Filter(s[1..], p);
      assert SortedBy(s[1..], le);
      FilterSorted(s[1..], p, le);
      if p(s[0]) {
        HeadBeforeFiltered(s, p, le);
        var r := [s[0]] + t;
        forall i, j | 0 <= i < j < |r| ensures le(r[i], r[j]) {
          assert r[j] == t[j - 1];
          if i > 0 {
            assert r[i] == t[i - 1];
          }
        }
      }
    }
  }

  lemma HeadBeforeFiltered<T(!new)>(s: seq<T>, p: T -> bool, le: (T, T) -> bool)
    requires s != [] && SortedBy(s, le)
    ensures forall j :: 0 <= j < |Filter(s[1..], p)| ==> le(s[0], Filter(s[1..], p)[j])
  {
    var t := Filter(s[1..], p);
    forall j | 0 <= j < |t| ensures le(s[0], t[j]) {
      assert t[j] in t;
      var k :| 0 <= k < |s[1..]| && s[1..][k] == t[j];
      assert s[k + 1] == t[j];
    }
  }

  // --------------------------------------------------- boolean-mask rows

  /** The positions where `keep` is true, in increasing order. */
  function KeptIndices(keep: seq<bool>): (idx: seq<nat>)
    ensures forall j :: 0 <= j < |idx| ==> idx[j] < |keep| && keep[idx[j]]
    ensures forall i :: 0 <= i < |keep| && keep[i] ==> i in idx
    ensures forall j, j' :: 0 <= j < j' < |idx| ==> idx[j] < idx[j']
  {
    if keep == [] then []
    else
      var n := |keep| - 1;
      var prev := KeptIndices(keep[..n]);
      if keep[n] then prev + [n] else prev
  }

  /** The elements of `s` at the positions `idx`. */
  function Pick<T>(s: seq<T>, idx: seq<nat>): (r: seq<T>)
    requires forall j :: 0 <= j < |idx| ==> idx[j] < |s|
    ensures |r| == |idx|
  {
    seq(|idx|, j requires 0 <= j < |idx| => s[idx[j]])
  }
}

/** Sequence operations shared by the table model and the metrics window:
    filtering (SQL WHERE, Array.prototype.filter), first match (rows[0]) and the
    subsequence order that filtering and slicing preserve. */
module Seqs {
  import opened Wrappers

  /** The elements of `s` that satisfy `keep`, in their original order. */
  function Where<T(==,!new)>(s: seq<T>, keep: T -> bool): (r: seq<T>)
    ensures |r| <= |s|
    ensures forall x :: x in r <==> x in s && keep(x)
    ensures forall x :: multiset(r)[x] == if keep(x) then multiset(s)[x] else 0
    decreases |s|
  {
    if |s| == 0 then []
    else
      var init := Where(s[..|s| - 1], keep);
      assert s == s[..|s| - 1] + [s[|s| - 1]];
      if keep(s[|s| - 1]) then init + [s[|s| - 1]] else init
  }

  /** The first element of `s` that satisfies `matches`, if any. */
  function First<T(==,!new)>(s: seq<T>, matches: T -> bool): (r: Option<T>)
    ensures r.None? <==> forall x :: x in s ==> !matches(x)
    ensures r.Some? ==> r.value in s && matches(r.value)
    ensures r.Some? ==> exists i :: 0 <= i < |s| && s[i] == r.value && forall j :: 0 <= j < i ==> !matches(s[j])
  {
    if |s| == 0 then None
    else if matches(s[0]) then Some(s[0])
    else
      var r := First(s[1..], matches);
      assert r.Some? ==> exists i :: 0 <= i < |s| && s[i] == r.value && forall j :: 0 <= j < i ==> !matches(s[j]) by {
        if r.Some? {
          var i :| 0 <= i < |s| - 1 && s[1..][i] == r.value && forall j :: 0 <= j < i ==> !matches(s[1..][j]);
          assert s[i + 1] == r.value;
          forall j | 0 <= j < i + 1 ensures !matches(s[j]) {
            if j > 0 {
              assert s[j] == s[1..][j - 1];
            }
          }
        }
      }
      r
  }

  /** No two elements of `s` have the same `key`. */
  ghost predicate DistinctBy<T, K>(s: seq<T>, key: T -> K)
  {
    forall i, j :: 0 <= i < j < |s| ==> key(s[i]) != key(s[j])
  }

  /** Appending an element whose key is new keeps the keys distinct. */
  lemma AppendKeepsDistinct<T, K>(s: seq<T>, x: T, key: T -> K)
    requires DistinctBy(s, key)
    requires forall y :: y in s ==> key(y) != key(x)
    ensures DistinctBy(s + [x], key)
  {
    var t := s + [x];
    forall i, j | 0 <= i < j < |t| ensures key(t[i]) != key(t[j]) {
      assert t[i] == s[i];
      if j < |s| {
        assert t[j] == s[j];
      } else {
        assert s[i] in s;
      }
    }
  }

  /** Filtering keeps distinct keys distinct. */
  lemma {:induction false} WhereKeepsDistinct<T(!new), K>(s: seq<T>, keep: T -> bool, key: T -> K)
    ensures DistinctBy(s, key) ==> DistinctBy(Where(s, keep), key)
    decreases |s|
  {
    if |s| > 0 && DistinctBy(s, key) {
      var init := s[..|s| - 1];
      var last := s[|s| - 1];
      assert DistinctBy(init, key) by {
        forall i, j | 0 <= i < j < |init| ensures key(init[i]) != key(init[j]) {
          assert init[i] == s[i] && init[j] == s[j];
        }
      }
      WhereKeepsDistinct(init, keep, key);
      if keep(last) {
        assert Where(s, keep) == Where(init, keep) + [last];
        forall y | y in Where(init, keep) ensures key(y) != key(last) {
          var i :| 0 <= i < |init| && init[i] == y;
          assert s[i] == y;
        }
        AppendKeepsDistinct(Where(init, keep), last, key);
      } else {
        assert Where(s, keep) == Where(init, keep);
      }
    }
  }

  /** `a` can be obtained from `b` by deleting elements: the order of what is kept is preserved. */
  ghost predicate IsSubseq<T>(a: seq<T>, b: seq<T>)
    decreases |b|
  {
    if |b| == 0 then |a| == 0
    else
      IsSubseq(a, b[..|b| - 1])
      || (|a| > 0 && a[|a| - 1] == b[|b| - 1] && IsSubseq(a[..|a| - 1], b[..|b| - 1]))
  }

  lemma {:induction false} EmptyIsSubseq<T>(b: seq<T>)
    ensures IsSubseq([], b)
    decreases |b|
  {
    if |b| > 0 {
      EmptyIsSubseq(b[..|b| - 1]);
    }
  }

  /** Filtering keeps the relative order of the elements it keeps. */
  lemma {:induction false} WhereIsSubseq<T(!new)>(s: seq<T>, keep: T -> bool)
    ensures IsSubseq(Where(s, keep), s)
    decreases |s|
  {
    if |s| == 0 {
    } else {
      var init := s[..|s| - 1];
      WhereIsSubseq(init, keep);
      var r := Where(s, keep);
      if keep(s[|s| - 1]) {
        assert r == Where(init, keep) + [s[|s| - 1]];
        assert r[..|r| - 1] == Where(init, keep);
      } else {
        assert r == Where(init, keep);
      }
    }
  }

  /** A suffix (JavaScript `slice(-n)`) keeps the relative order of what it keeps. */
  lemma {:induction false} SuffixIsSubseq<T>(b: seq<T>, k: nat)
    requires k <= |b|
    ensures IsSubseq(b[k..], b)
    decreases |b|
  {
    if k == |b| {
      assert b[k..] == [];
      EmptyIsSubseq(b);
    } else {
      var init := b[..|b| - 1];
      SuffixIsSubseq(init, k);
      assert b[k..][..|b[k..]| - 1] == init[k..];
    }
  }

  lemma {:induction false} SubseqTransitive<T>(a: seq<T>, b: seq<T>, c: seq<T>)
    requires IsSubseq(a, b) && IsSubseq(b, c)
    ensures IsSubseq(a, c)
    decreases |c|
  {
    if |c| == 0 {
    } else if IsSubseq(b, c[..|c| - 1]) {
      SubseqTransitive(a, b, c[..|c| - 1]);
    } else if IsSubseq(a, b[..|b| - 1]) {
      SubseqTransitive(a, b[..|b| - 1], c[..|c| - 1]);
    } else {
      SubseqTransitive(a[..|a| - 1], b[..|b| - 1], c[..|c| - 1]);
    }
  }

  /** Filtering a sequence extended by one element filters the old part and then decides the new one. */
  lemma WhereAppend<T(!new)>(s: seq<T>, x: T, keep: T -> bool)
    ensures Where(s + [x], keep) == Where(s, keep) + (if keep(x) then [x] else [])
  {
  }

  /** Filtering with a condition every element already meets changes nothing. */
  lemma {:induction false} WhereKeepsAll<T(!new)>(s: seq<T>, keep: T -> bool)
    requires forall x :: x in s ==> keep(x)
    ensures Where(s, keep) == s
    decreases |s|
  {
    if |s| > 0 {
      var init := s[..|s| - 1];
      assert s == init + [s[|s| - 1]];
      assert forall x :: x in init ==> x in s;
      WhereKeepsAll(init, keep);
      assert Where(s, keep) == Where(init, keep) + [s[|s| - 1]];
    }
  }

  /** The elements are in non-decreasing order of `key`. */
  predicate SortedBy<T>(s: seq<T>, key: T -> int)
  {
    forall i, j :: 0 <= i < j < |s| ==> key(s[i]) <= key(s[j])
  }

  /** `x` placed into a sequence sorted by `key`, before the first element with a larger key. */
  function InsertBy<T(==,!new)>(x: T, s: seq<T>, key: T -> int): (r: seq<T>)
    ensures multiset(r) == multiset(s) + multiset{x}
  {
    if |s| == 0 then [x]
    else if key(x) <= key(s[0]) then [x] + s
    else
      assert s == [s[0]] + s[1..];
      [s[0]] + InsertBy(x, s[1..], key)
  }

  lemma {:induction false} InsertBySorted<T(!new)>(x: T, s: seq<T>, key: T -> int)
    requires SortedBy(s, key)
    ensures SortedBy(InsertBy(x, s, key), key)
    decreases |s|
  {
    if |s| > 0 && key(x) > key(s[0]) {
      var tail := s[1..];
      assert SortedBy(tail, key) by {
        forall i, j | 0 <= i < j < |tail| ensures key(tail[i]) <= key(tail[j]) {
          assert tail[i] == s[i + 1] && tail[j] == s[j + 1];
        }
      }
      InsertBySorted(x, tail, key);
      var rest := InsertBy(x, tail, key);
      var r := InsertBy(x, s, key);
      assert r == [s[0]] + rest;
      forall j | 0 <= j < |rest| ensures key(s[0]) <= key(rest[j]) {
        assert rest[j] in multiset(rest);
        if rest[j] != x {
          assert rest[j] in multiset(tail);
          assert rest[j] in tail;
          var k :| 0 <= k < |tail| && tail[k] == rest[j];
          assert s[k + 1] == rest[j];
        }
      }
      forall i, j | 0 <= i < j < |r| ensures key(r[i]) <= key(r[j]) {
        if i > 0 {
          assert r[i] == rest[i - 1] && r[j] == rest[j - 1];
        } else {
          assert r[j] == rest[j - 1];
        }
      }
    }
  }

  /** A sort by `key` (insertion sort), as an ORDER BY clause produces. */
  function SortBy<T(==,!new)>(s: seq<T>, key: T -> int): (r: seq<T>)
    ensures SortedBy(r, key)
    ensures multiset(r) == multiset(s)
    ensures |r| == |s|
  {
    if |s| == 0 then []
    else
      assert s == [s[0]] + s[1..];
      var sortedTail := SortBy(s[1..], key);
      InsertBySorted(s[0], sortedTail, key);
      var r := InsertBy(s[0], sortedTail, key);
      assert |r| == |multiset(r)|;
      r
  }
}

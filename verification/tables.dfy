/** Generic operations on a table held as a sequence of rows: lookup by
    key, filtering, replacing rows in place and ordering newest first.
    Keys and timestamps are read through a function, so the same
    definitions serve users, projects, messages and the in-memory CMS list. */
module Tables {
  import opened Wrappers

  /** Some row carries key `k`. */
  predicate HasKey<T, K(==)>(s: seq<T>, key: T -> K, k: K) {
    exists i :: 0 <= i < |s| && key(s[i]) == k
  }

  /** No two rows share a key: the primary-key constraint. */
  predicate UniqueKeys<T, K(==)>(s: seq<T>, key: T -> K) {
    forall i, j :: 0 <= i < j < |s| ==> key(s[i]) != key(s[j])
  }

  /** Rows ordered by a timestamp, largest first. */
  predicate SortedDesc<T>(s: seq<T>, stamp: T -> int) {
    forall i, j :: 0 <= i < j < |s| ==> stamp(s[i]) >= stamp(s[j])
  }

  /** `r` is `s` with some rows left out and the rest in their original order. */
  predicate IsSubsequence<T(==)>(r: seq<T>, s: seq<T>)
    decreases |s|
  {
    |r| == 0 ||
    (|s| > 0 &&
      ((r[0] == s[0] && IsSubsequence(r[1..], s[1..])) || IsSubsequence(r, s[1..])))
  }

  /** The row with key `k`, if any (`SELECT ... WHERE key = k`, first row). */
  function Find<T, K(==)>(s: seq<T>, key: T -> K, k: K): (r: Option<T>)
    ensures r.Some? <==> HasKey(s, key, k)
    ensures r.Some? ==> r.value in s && key(r.value) == k
  {
    if |s| == 0 then None
    else if key(s[0]) == k then Some(s[0])
    else
      var r := Find(s[1..], key, k);
      assert HasKey(s, key, k) ==> key(s[0]) == k || HasKey(s[1..], key, k) by {
        if HasKey(s, key, k) {
          var i :| 0 <= i < |s| && key(s[i]) == k;
          if i > 0 {
            assert key(s[1..][i - 1]) == k;
          }
        }
      }
      r
  }

  /** With unique keys the row `Find` returns is the one at any index that
      carries the key. */
  lemma FindUnique<T, K>(s: seq<T>, key: T -> K, i: nat)
    requires UniqueKeys(s, key) && i < |s|
    ensures Find(s, key, key(s[i])) == Some(s[i])
  {
    var r := Find(s, key, key(s[i]));
    assert HasKey(s, key, key(s[i]));
    var j :| 0 <= j < |s| && s[j] == r.value;
    assert j == i;
  }

  /** `s.filter(f)`: exactly the rows satisfying `f`, in their original order. */
  function Filter<T(==,!new)>(s: seq<T>, f: T -> bool): (r: seq<T>)
    ensures forall x :: x in r <==> x in s && f(x)
    ensures IsSubsequence(r, s)
    ensures |r| <= |s|
  {
    if |s| == 0 then []
    else
      var rest := Filter(s[1..], f);
      assert forall x :: x in s <==> x == s[0] || x in s[1..];
      if f(s[0]) then
        assert ([s[0]] + rest)[1..] == rest;
        [s[0]] + rest
      else rest
  }

  /** Filtering twice with the same test changes nothing the second time. */
  lemma {:induction false} FilterIdempotent<T(!new)>(s: seq<T>, f: T -> bool)
    ensures Filter(Filter(s, f), f) == Filter(s, f)
    decreases |s|
  {
    if |s| > 0 {
      FilterIdempotent(s[1..], f);
      var rest := Filter(s[1..], f);
      if f(s[0]) {
        assert ([s[0]] + rest)[1..] == rest;
      }
    }
  }

  /** A filter that keeps every row returns the table unchanged. */
  lemma {:induction false} FilterKeepsAll<T(!new)>(s: seq<T>, f: T -> bool)
    requires forall i :: 0 <= i < |s| ==> f(s[i])
    ensures Filter(s, f) == s
    decreases |s|
  {
    if |s| > 0 {
      FilterKeepsAll(s[1..], f);
      assert [s[0]] + s[1..] == s;
    }
  }

  /** Filtering keeps keys unique. */
  lemma {:induction false} FilterUnique<T(!new), K>(s: seq<T>, f: T -> bool, key: T -> K)
    requires UniqueKeys(s, key)
    ensures UniqueKeys(Filter(s, f), key)
    decreases |s|
  {
    if |s| > 0 {
      FilterUnique(s[1..], f, key);
      var rest := Filter(s[1..], f);
      if f(s[0]) {
        var r := [s[0]] + rest;
        forall i, j | 0 <= i < j < |r|
          ensures key(r[i]) != key(r[j])
        {
          if i == 0 {
            assert r[j] in s[1..];
            var m :| 0 <= m < |s[1..]| && s[1..][m] == r[j];
            assert s[m + 1] == r[j];
          } else {
            assert r[i] == rest[i - 1] && r[j] == rest[j - 1];
          }
        }
      }
    }
  }

  /** Two tests that agree on every row of the table filter it alike. */
  lemma {:induction false} FilterAgree<T(!new)>(s: seq<T>, f: T -> bool, g: T -> bool)
    requires forall i :: 0 <= i < |s| ==> f(s[i]) == g(s[i])
    ensures Filter(s, f) == Filter(s, g)
    decreases |s|
  {
    if |s| > 0 {
      FilterAgree(s[1..], f, g);
    }
  }

  /** Filtering a table with one more row at the end adds that row at the
      end of the result when it passes. */
  lemma {:induction false} FilterAppend<T(!new)>(s: seq<T>, x: T, f: T -> bool)
    ensures Filter(s + [x], f) == Filter(s, f) + (if f(x) then [x] else [])
    decreases |s|
  {
    if |s| > 0 {
      FilterAppend(s[1..], x, f);
      assert (s + [x])[1..] == s[1..] + [x];
    } else {
      assert [] + [x] == [x];
    }
  }

  /** The number of rows satisfying `f`, as `s.filter(f).length`. */
  function Count<T(==,!new)>(s: seq<T>, f: T -> bool): (n: nat)
    ensures n <= |s|
    ensures n == |s| <==> forall i :: 0 <= i < |s| ==> f(s[i])
    ensures n == 0 <==> forall i :: 0 <= i < |s| ==> !f(s[i])
  {
    CountBounds(s, f);
    |Filter(s, f)|
  }

  lemma {:induction false} CountBounds<T(!new)>(s: seq<T>, f: T -> bool)
    ensures |Filter(s, f)| == |s| <==> forall i :: 0 <= i < |s| ==> f(s[i])
    ensures |Filter(s, f)| == 0 <==> forall i :: 0 <= i < |s| ==> !f(s[i])
    decreases |s|
  {
    if |s| > 0 {
      CountBounds(s[1..], f);
      assert forall i :: 1 <= i < |s| ==> s[i] == s[1..][i - 1];
    }
  }

  /** Replacing the row at `k` moves the count by what the old and the new
      row contribute. */
  lemma {:induction false} CountUpdate<T(!new)>(s: seq<T>, k: nat, x: T, f: T -> bool)
    requires k < |s|
    ensures Count(s[k := x], f) + (if f(s[k]) then 1 else 0)
         == Count(s, f) + (if f(x) then 1 else 0)
    decreases |s|
  {
    var t := s[k := x];
    assert t[1..] == if k == 0 then s[1..] else s[1..][k - 1 := x];
    if k > 0 {
      CountUpdate(s[1..], k - 1, x, f);
    }
  }

  /** Rows for which `f` holds are rewritten by `g`, every other row is kept,
      positions unchanged (`s.map(p => f(p) ? g(p) : p)`). */
  function ReplaceWhere<T>(s: seq<T>, f: T -> bool, g: T -> T): (r: seq<T>)
    ensures |r| == |s|
    ensures forall i :: 0 <= i < |s| && !f(s[i]) ==> r[i] == s[i]
    ensures forall i :: 0 <= i < |s| && f(s[i]) ==> r[i] == g(s[i])
  {
    seq(|s|, i requires 0 <= i < |s| => if f(s[i]) then g(s[i]) else s[i])
  }

  /** Inserts one row into a newest-first table behind every row that is
      at least as new. */
  function InsertDesc<T(==,!new)>(x: T, s: seq<T>, stamp: T -> int): (r: seq<T>)
    requires SortedDesc(s, stamp)
    ensures SortedDesc(r, stamp)
    ensures multiset(r) == multiset(s) + multiset{x}
    decreases |s|
  {
    if |s| == 0 then [x]
    else if stamp(x) > stamp(s[0]) then [x] + s
    else
      var rest := InsertDesc(x, s[1..], stamp);
      assert s == [s[0]] + s[1..];
      InsertBehindHead(x, s, rest, stamp);
      [s[0]] + rest
  }

  /** The head of a sorted table may stay in front of the insertion into its
      tail when the inserted row is not newer. */
  lemma InsertBehindHead<T>(x: T, s: seq<T>, rest: seq<T>, stamp: T -> int)
    requires |s| > 0 && SortedDesc(s, stamp) && stamp(x) <= stamp(s[0])
    requires SortedDesc(rest, stamp) && multiset(rest) == multiset(s[1..]) + multiset{x}
    ensures SortedDesc([s[0]] + rest, stamp)
  {
    var r := [s[0]] + rest;
    forall j | 1 <= j < |r|
      ensures stamp(r[0]) >= stamp(r[j])
    {
      var y := rest[j - 1];
      assert y in multiset(rest);
      if y != x {
        assert y in multiset(s[1..]);
        var k :| 0 <= k < |s[1..]| && s[1..][k] == y;
        assert s[k + 1] == y;
      }
    }
    forall i, j | 0 <= i < j < |r|
      ensures stamp(r[i]) >= stamp(r[j])
    {
      if i > 0 {
        assert r[i] == rest[i - 1] && r[j] == rest[j - 1];
      }
    }
  }

  /** `ORDER BY stamp DESC`: a permutation of the table, newest first. Rows
      with equal stamps keep their table order, but nothing relies on that. */
  function SortDesc<T(==,!new)>(s: seq<T>, stamp: T -> int): (r: seq<T>)
    ensures SortedDesc(r, stamp)
    ensures multiset(r) == multiset(s)
    ensures |r| == |s|
    decreases |s|
  {
    if |s| == 0 then []
    else
      assert s == [s[0]] + s[1..];
      InsertDesc(s[0], SortDesc(s[1..], stamp), stamp)
  }
}

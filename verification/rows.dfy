/** Sequences of table rows: selection, counting, first match, and the
    ordering and uniqueness facts the store keeps about row keys. */
module Rows {
  import opened Common

  /** The rows satisfying p, in table order (a WHERE clause). */
  function Filter<T(!new)>(s: seq<T>, p: T -> bool): (r: seq<T>)
    ensures |r| <= |s|
    ensures forall x :: x in r <==> x in s && p(x)
    ensures multiset(r) <= multiset(s)
  {
    if |s| == 0 then []
    else
      assert s == [s[0]] + s[1..];
      (if p(s[0]) then [s[0]] else []) + Filter(s[1..], p)
  }

  /** Number of rows satisfying p (a count(*) with a WHERE clause). */
  function Count<T>(s: seq<T>, p: T -> bool): nat
  {
    if |s| == 0 then 0 else (if p(s[0]) then 1 else 0) + Count(s[1..], p)
  }

  /** The first row satisfying p, if any (a db.get returning rows[0]). */
  function FindFirst<T>(s: seq<T>, p: T -> bool): (r: Option<T>)
    ensures r.Some? <==> exists i :: 0 <= i < |s| && p(s[i])
    ensures r.Some? ==> r.value in s && p(r.value)
    ensures r.Some? ==> exists i :: 0 <= i < |s| && s[i] == r.value && forall j :: 0 <= j < i ==> !p(s[j])
  {
    if |s| == 0 then None
    else if p(s[0]) then Some(s[0])
    else
      var r := FindFirst(s[1..], p);
      assert forall i :: 1 <= i < |s| ==> s[i] == s[1..][i - 1];
      r
  }

  /** Every row with f applied, in place (an UPDATE touching every row). */
  function MapRows<T>(s: seq<T>, f: T -> T): (r: seq<T>)
    ensures |r| == |s|
    ensures forall i :: 0 <= i < |s| ==> r[i] == f(s[i])
  {
    seq(|s|, i requires 0 <= i < |s| => f(s[i]))
  }

  /** Keys strictly increase along the table. */
  ghost predicate Increasing<T>(s: seq<T>, key: T -> int) {
    forall i, j :: 0 <= i < j < |s| ==> key(s[i]) < key(s[j])
  }

  /** No two rows share a key. */
  ghost predicate Distinct<T, K>(s: seq<T>, key: T -> K) {
    forall i, j :: 0 <= i < j < |s| ==> key(s[i]) != key(s[j])
  }

  lemma IncreasingTail<T>(s: seq<T>, key: T -> int)
    requires |s| > 0 && Increasing(s, key)
    ensures Increasing(s[1..], key)
    ensures forall x :: x in s[1..] ==> key(s[0]) < key(x)
  {
    forall x | x in s[1..]
      ensures key(s[0]) < key(x)
    {
      var j :| 0 <= j < |s[1..]| && s[1..][j] == x;
      assert s[j + 1] == x;
    }
  }

  lemma IncreasingCons<T>(a: T, rest: seq<T>, key: T -> int)
    requires Increasing(rest, key)
    requires forall x :: x in rest ==> key(a) < key(x)
    ensures Increasing([a] + rest, key)
  {
    var r := [a] + rest;
    forall i, j | 0 <= i < j < |r|
      ensures key(r[i]) < key(r[j])
    {
      assert r[j] == rest[j - 1];
      if i > 0 {
        assert r[i] == rest[i - 1];
      }
    }
  }

  /** Removing rows keeps the remaining keys in increasing order. */
  lemma {:induction false} FilterKeepsIncreasing<T(!new)>(s: seq<T>, p: T -> bool, key: T -> int)
    requires Increasing(s, key)
    ensures Increasing(Filter(s, p), key)
  {
    if |s| > 0 {
      IncreasingTail(s, key);
      FilterKeepsIncreasing(s[1..], p, key);
      if p(s[0]) {
        var rest := Filter(s[1..], p);
        assert Filter(s, p) == [s[0]] + rest;
        IncreasingCons(s[0], rest, key);
      }
    }
  }

  lemma DistinctTail<T, K>(s: seq<T>, key: T -> K)
    requires |s| > 0 && Distinct(s, key)
    ensures Distinct(s[1..], key)
    ensures forall x :: x in s[1..] ==> key(s[0]) != key(x)
  {
    forall x | x in s[1..]
      ensures key(s[0]) != key(x)
    {
      var j :| 0 <= j < |s[1..]| && s[1..][j] == x;
      assert s[j + 1] == x;
    }
    forall i, j | 0 <= i < j < |s[1..]|
      ensures key(s[1..][i]) != key(s[1..][j])
    {
      assert s[1..][i] == s[i + 1] && s[1..][j] == s[j + 1];
    }
  }

  lemma DistinctCons<T, K>(a: T, rest: seq<T>, key: T -> K)
    requires Distinct(rest, key)
    requires forall x :: x in rest ==> key(a) != key(x)
    ensures Distinct([a] + rest, key)
  {
    var r := [a] + rest;
    forall i, j | 0 <= i < j < |r|
      ensures key(r[i]) != key(r[j])
    {
      assert r[j] == rest[j - 1];
      if i > 0 {
        assert r[i] == rest[i - 1];
      }
    }
  }

  /** Removing rows keeps the remaining keys distinct. */
  lemma {:induction false} FilterKeepsDistinct<T(!new), K>(s: seq<T>, p: T -> bool, key: T -> K)
    requires Distinct(s, key)
    ensures Distinct(Filter(s, p), key)
  {
    if |s| > 0 {
      DistinctTail(s, key);
      FilterKeepsDistinct(s[1..], p, key);
      if p(s[0]) {
        var rest := Filter(s[1..], p);
        assert Filter(s, p) == [s[0]] + rest;
        DistinctCons(s[0], rest, key);
      }
    }
  }

  /** A count is the size of the corresponding selection. */
  lemma {:induction false} CountIsFilterSize<T(!new)>(s: seq<T>, p: T -> bool)
    ensures Count(s, p) == |Filter(s, p)|
  {
    if |s| > 0 {
      CountIsFilterSize(s[1..], p);
    }
  }

  /** With distinct keys, at most one row carries a given key. */
  lemma {:induction false} DistinctKeySelectsAtMostOne<T(!new), K>(s: seq<T>, key: T -> K, k: K)
    requires Distinct(s, key)
    ensures Count(s, x => key(x) == k) <= 1
  {
    if |s| > 0 {
      assert Distinct(s[1..], key) by {
        forall i, j | 0 <= i < j < |s[1..]|
          ensures key(s[1..][i]) != key(s[1..][j])
        {
          assert s[1..][i] == s[i + 1] && s[1..][j] == s[j + 1];
        }
      }
      DistinctKeySelectsAtMostOne(s[1..], key, k);
      if key(s[0]) == k {
        NoneAfter(s, key, k);
      }
    }
  }

  lemma {:induction false} NoneAfter<T(!new), K>(s: seq<T>, key: T -> K, k: K)
    requires Distinct(s, key) && |s| > 0 && key(s[0]) == k
    ensures Count(s[1..], x => key(x) == k) == 0
  {
    CountZero(s[1..], x => key(x) == k);
    forall i | 0 <= i < |s[1..]|
      ensures key(s[1..][i]) != k
    {
      assert s[1..][i] == s[i + 1];
    }
  }

  lemma {:induction false} CountZero<T>(s: seq<T>, p: T -> bool)
    ensures Count(s, p) == 0 <==> forall i :: 0 <= i < |s| ==> !p(s[i])
  {
    if |s| > 0 {
      CountZero(s[1..], p);
      assert forall i :: 1 <= i < |s| ==> s[i] == s[1..][i - 1];
    }
  }

  /** With distinct keys, a key identifies its row. */
  lemma DistinctKeyIdentifies<T, K>(s: seq<T>, key: T -> K, x: T, y: T)
    requires Distinct(s, key) && x in s && y in s && key(x) == key(y)
    ensures x == y
  {
    var i :| 0 <= i < |s| && s[i] == x;
    var j :| 0 <= j < |s| && s[j] == y;
    assert !(i < j) && !(j < i);
  }

  /** Increasing keys are distinct keys. */
  lemma IncreasingIsDistinct<T>(s: seq<T>, key: T -> int)
    requires Increasing(s, key)
    ensures Distinct(s, key)
  {
  }

  /** Counting over a pointwise-equivalent predicate gives the same number. */
  lemma {:induction false} CountCongruent<T>(s: seq<T>, p: T -> bool, q: T -> bool)
    requires forall x :: x in s ==> p(x) == q(x)
    ensures Count(s, p) == Count(s, q)
  {
    if |s| > 0 {
      assert forall x :: x in s[1..] ==> x in s;
      CountCongruent(s[1..], p, q);
    }
  }

  /** Counting rows that satisfy one of two exclusive predicates adds the counts. */
  lemma {:induction false} CountDisjointUnion<T>(s: seq<T>, p: T -> bool, q: T -> bool, pq: T -> bool)
    requires forall x :: x in s ==> !(p(x) && q(x)) && (pq(x) == (p(x) || q(x)))
    ensures Count(s, pq) == Count(s, p) + Count(s, q)
  {
    if |s| > 0 {
      assert forall x :: x in s[1..] ==> x in s;
      CountDisjointUnion(s[1..], p, q, pq);
    }
  }

  /** Every row either satisfies p or its complement. */
  lemma {:induction false} CountComplement<T>(s: seq<T>, p: T -> bool, notP: T -> bool)
    requires forall x :: x in s ==> notP(x) == !p(x)
    ensures Count(s, p) + Count(s, notP) == |s|
  {
    if |s| > 0 {
      assert forall x :: x in s[1..] ==> x in s;
      CountComplement(s[1..], p, notP);
    }
  }

  /** A selection every row passes keeps the whole table. */
  lemma {:induction false} FilterKeepsAll<T(!new)>(s: seq<T>, p: T -> bool)
    requires forall x :: x in s ==> p(x)
    ensures Filter(s, p) == s
  {
    if |s| > 0 {
      assert p(s[0]) by {
        assert s[0] in s;
      }
      forall x | x in s[1..]
        ensures p(x)
      {
        assert x in s;
      }
      FilterKeepsAll(s[1..], p);
      assert Filter(s, p) == [s[0]] + s[1..];
    }
  }

  /** Rewriting rows without touching their keys keeps the keys distinct. */
  lemma MapKeepsDistinct<T, K>(s: seq<T>, f: T -> T, key: T -> K)
    requires Distinct(s, key)
    requires forall x :: key(f(x)) == key(x)
    ensures Distinct(MapRows(s, f), key)
  {
  }
}

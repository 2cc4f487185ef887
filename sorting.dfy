/** Ordering helpers for the `order_by(...)` clauses the views use: a string
    order matching the database's code-point comparison, and an insertion
    sort with its two correctness lemmas (sorted, and a permutation). */
module Sorting {
  import opened Common

  /** `leq` is a total preorder on its argument type. */
  ghost predicate TotalPreorder<T(!new)>(leq: (T, T) -> bool) {
    && (forall a, b :: leq(a, b) || leq(b, a))
    && (forall a, b, c :: leq(a, b) && leq(b, c) ==> leq(a, c))
  }

  predicate SortedBy<T>(s: seq<T>, leq: (T, T) -> bool) {
    forall i, j :: 0 <= i < j < |s| ==> leq(s[i], s[j])
  }

  function Insert<T>(x: T, s: seq<T>, leq: (T, T) -> bool): (r: seq<T>)
    ensures multiset(r) == multiset(s) + multiset{x}
    ensures |r| == |s| + 1
  {
    if s == [] then [x]
    else if leq(x, s[0]) then [x] + s
    else
      assert s == [s[0]] + s[1..];
      [s[0]] + Insert(x, s[1..], leq)
  }

  /** Insertion sort: the order a query with `order_by` returns its rows in. */
  function Sort<T>(s: seq<T>, leq: (T, T) -> bool): (r: seq<T>)
    ensures multiset(r) == multiset(s)
    ensures |r| == |s|
  {
    if s == [] then []
    else
      assert s == [s[0]] + s[1..];
      Insert(s[0], Sort(s[1..], leq), leq)
  }

  lemma {:induction false} InsertSorted<T(!new)>(x: T, s: seq<T>, leq: (T, T) -> bool)
    requires TotalPreorder(leq)
    requires SortedBy(s, leq)
    ensures SortedBy(Insert(x, s, leq), leq)
  {
    if s != [] && !leq(x, s[0]) {
      InsertSorted(x, s[1..], leq);
      var r := Insert(x, s, leq);
      var tail := Insert(x, s[1..], leq);
      assert r == [s[0]] + tail;
      assert multiset(tail) == multiset(s[1..]) + multiset{x};
      forall j | 0 < j < |r|
        ensures leq(s[0], r[j])
      {
        assert r[j] == tail[j - 1];
        assert tail[j - 1] in multiset(tail);
        if tail[j - 1] == x {
          assert leq(s[0], x);
        } else {
          assert tail[j - 1] in multiset(s[1..]);
          var k :| 0 <= k < |s[1..]| && s[1..][k] == tail[j - 1];
          assert s[k + 1] == tail[j - 1];
        }
      }
    }
  }

  /** The sort yields an ordered permutation of its input. */
  lemma {:induction false} SortSorted<T(!new)>(s: seq<T>, leq: (T, T) -> bool)
    requires TotalPreorder(leq)
    ensures SortedBy(Sort(s, leq), leq)
    ensures multiset(Sort(s, leq)) == multiset(s)
  {
    if s != [] {
      SortSorted(s[1..], leq);
      InsertSorted(s[0], Sort(s[1..], leq), leq);
    }
  }

  /** `order_by(key)[:k]`: the first k rows in order. */
  function TopK<T>(s: seq<T>, k: nat, leq: (T, T) -> bool): (r: seq<T>)
    ensures |r| == if |s| <= k then |s| else k
  {
    var sorted := Sort(s, leq);
    if |sorted| <= k then sorted else sorted[..k]
  }

  /** The selected rows are ordered, come from the input, and none of them
      ranks below a row left out. */
  lemma {:induction false} TopKSelects<T(!new)>(s: seq<T>, k: nat, leq: (T, T) -> bool)
    requires TotalPreorder(leq)
    ensures SortedBy(TopK(s, k, leq), leq)
    ensures multiset(TopK(s, k, leq)) <= multiset(s)
    ensures forall i, j :: 0 <= i < |TopK(s, k, leq)| <= j < |s| ==> leq(TopK(s, k, leq)[i], Sort(s, leq)[j])
  {
    SortSorted(s, leq);
    var sorted := Sort(s, leq);
    var top := TopK(s, k, leq);
    assert top == sorted[..|top|];
    assert |sorted| == |multiset(sorted)| == |s|;
    PrefixSelects(sorted, |top|, leq);
  }

  /** A prefix of an ordered sequence is ordered, is part of it, and ranks
      below the rest. */
  lemma {:induction false} PrefixSelects<T>(sorted: seq<T>, n: nat, leq: (T, T) -> bool)
    requires SortedBy(sorted, leq) && n <= |sorted|
    ensures SortedBy(sorted[..n], leq)
    ensures multiset(sorted[..n]) <= multiset(sorted)
    ensures forall i, j :: 0 <= i < n <= j < |sorted| ==> leq(sorted[..n][i], sorted[j])
  {
    assert sorted == sorted[..n] + sorted[n..];
    assert multiset(sorted) == multiset(sorted[..n]) + multiset(sorted[n..]);
  }

  /** Pointwise form of `TopKSelects`: the selected rows come from the
      input and rank below every input row left out. */
  lemma {:induction false} TopKIsLeast<T(!new)>(s: seq<T>, k: nat, leq: (T, T) -> bool)
    requires TotalPreorder(leq)
    ensures forall x :: x in TopK(s, k, leq) ==> x in s
    ensures forall m, x :: m in TopK(s, k, leq) && x in s && x !in TopK(s, k, leq) ==> leq(m, x)
  {
    TopKSelects(s, k, leq);
    var top := TopK(s, k, leq);
    var sorted := Sort(s, leq);
    assert top == sorted[..|top|];
    forall x | x in top
      ensures x in s
    {
      assert x in multiset(top);
    }
    forall m, x | m in top && x in s && x !in top
      ensures leq(m, x)
    {
      assert x in multiset(sorted);
      var j :| 0 <= j < |sorted| && sorted[j] == x;
      var i :| 0 <= i < |top| && top[i] == m;
      assert j >= |top|;
    }
  }

  /** `.first()` on an ordered query: the first row in order, if any. */
  function FirstInOrder<T>(s: seq<T>, leq: (T, T) -> bool): Option<T> {
    if s == [] then None else Some(Sort(s, leq)[0])
  }

  /** The row `.first()` returns is a row of the query that ranks below
      every other, and there is one exactly when the query is not empty. */
  lemma {:induction false} FirstInOrderIsLeast<T(!new)>(s: seq<T>, leq: (T, T) -> bool)
    requires TotalPreorder(leq)
    ensures FirstInOrder(s, leq).None? <==> s == []
    ensures FirstInOrder(s, leq).Some? ==>
              FirstInOrder(s, leq).value in s && forall x :: x in s ==> leq(FirstInOrder(s, leq).value, x)
  {
    if s != [] {
      SortSorted(s, leq);
      var sorted := Sort(s, leq);
      assert sorted[0] in multiset(sorted);
      forall x | x in s
        ensures leq(sorted[0], x)
      {
        assert x in multiset(sorted);
        var j :| 0 <= j < |sorted| && sorted[j] == x;
        if j == 0 {
          assert leq(x, x) || leq(x, x);
        }
      }
    }
  }

  // ---------------------------------------------------------------------------
  // String order
  // ---------------------------------------------------------------------------

  /** Code-point lexicographic order on strings, as the database compares
      `CharField` values under its default collation. */
  predicate LexLeq(a: string, b: string) {
    if a == [] then true
    else if b == [] then false
    else if a[0] != b[0] then a[0] < b[0]
    else LexLeq(a[1..], b[1..])
  }

  lemma {:induction false} LexLeqTotal(a: string, b: string)
    ensures LexLeq(a, b) || LexLeq(b, a)
    ensures LexLeq(a, b) && LexLeq(b, a) ==> a == b
  {
    if a != [] && b != [] && a[0] == b[0] {
      LexLeqTotal(a[1..], b[1..]);
      assert a == [a[0]] + a[1..] && b == [b[0]] + b[1..];
    }
  }

  lemma {:induction false} LexLeqTransitive(a: string, b: string, c: string)
    requires LexLeq(a, b) && LexLeq(b, c)
    ensures LexLeq(a, c)
  {
    if a != [] && b != [] && c != [] && a[0] == b[0] && b[0] == c[0] {
      LexLeqTransitive(a[1..], b[1..], c[1..]);
    }
  }

  /** Order on pairs of strings: by the first, then the second. */
  predicate PairLeq(a: (string, string), b: (string, string)) {
    if a.0 != b.0 then LexLeq(a.0, b.0) else LexLeq(a.1, b.1)
  }

  lemma {:induction false} PairLeqIsTotalPreorder()
    ensures TotalPreorder(PairLeq)
  {
    forall a: (string, string), b: (string, string)
      ensures PairLeq(a, b) || PairLeq(b, a)
    {
      LexLeqTotal(a.0, b.0);
      LexLeqTotal(a.1, b.1);
    }
    forall a: (string, string), b: (string, string), c: (string, string) | PairLeq(a, b) && PairLeq(b, c)
      ensures PairLeq(a, c)
    {
      LexLeqTotal(a.0, b.0);
      LexLeqTotal(b.0, c.0);
      LexLeqTotal(a.0, c.0);
      if a.0 != b.0 && b.0 != c.0 {
        LexLeqTransitive(a.0, b.0, c.0);
      } else if a.0 == b.0 && b.0 == c.0 {
        LexLeqTransitive(a.1, b.1, c.1);
      }
    }
  }

  /** The order `order_by(f1, f2)` puts rows in, for a row's two string keys. */
  function ByPairKey<T>(key: T -> (string, string)): (T, T) -> bool {
    (a: T, b: T) => PairLeq(key(a), key(b))
  }

  lemma {:induction false} ByPairKeyIsTotalPreorder<T(!new)>(key: T -> (string, string))
    ensures TotalPreorder(ByPairKey(key))
  {
    PairLeqIsTotalPreorder();
    var leq := ByPairKey(key);
    forall a: T, b: T
      ensures leq(a, b) || leq(b, a)
    {
      assert PairLeq(key(a), key(b)) || PairLeq(key(b), key(a));
    }
    forall a: T, b: T, c: T | leq(a, b) && leq(b, c)
      ensures leq(a, c)
    {
      assert PairLeq(key(a), key(b)) && PairLeq(key(b), key(c));
    }
  }

  /** The order `order_by(f)` puts rows in, for a row's string key. */
  function ByKey<T>(key: T -> string): (T, T) -> bool {
    (a: T, b: T) => LexLeq(key(a), key(b))
  }

  lemma {:induction false} ByKeyIsTotalPreorder<T(!new)>(key: T -> string)
    ensures TotalPreorder(ByKey(key))
  {
    var leq := ByKey(key);
    forall a: T, b: T
      ensures leq(a, b) || leq(b, a)
    {
      LexLeqTotal(key(a), key(b));
    }
    forall a: T, b: T, c: T | leq(a, b) && leq(b, c)
      ensures leq(a, c)
    {
      LexLeqTransitive(key(a), key(b), key(c));
    }
  }

  // ---------------------------------------------------------------------------
  // Filtering
  // ---------------------------------------------------------------------------

  /** `queryset.filter(p)`: the rows satisfying `p`, in their order. */
  function Where<T(!new)>(s: seq<T>, p: T -> bool): (r: seq<T>)
    ensures |r| <= |s|
    ensures forall x :: x in r <==> x in s && p(x)
  {
    if s == [] then []
    else
      assert forall x :: x in s <==> x == s[0] || x in s[1..];
      (if p(s[0]) then [s[0]] else []) + Where(s[1..], p)
  }

  /** Each row occurs in a filter's result as often as in its input, if it passes. */
  lemma {:induction false} WhereMultiset<T(!new)>(s: seq<T>, p: T -> bool)
    ensures forall x :: multiset(Where(s, p))[x] == if p(x) then multiset(s)[x] else 0
  {
    if s != [] {
      WhereMultiset(s[1..], p);
      assert s == [s[0]] + s[1..];
    }
  }

  /** Filtering a permutation gives a permutation: the count of passing rows
      does not depend on their order. */
  lemma {:induction false} WherePermutation<T(!new)>(s: seq<T>, t: seq<T>, p: T -> bool)
    requires multiset(s) == multiset(t)
    ensures multiset(Where(s, p)) == multiset(Where(t, p))
    ensures |Where(s, p)| == |Where(t, p)|
  {
    WhereMultiset(s, p);
    WhereMultiset(t, p);
    assert |multiset(Where(s, p))| == |multiset(Where(t, p))|;
  }

  /** In an ordered sequence the first element ranks below every later one. */
  lemma {:induction false} HeadRanksFirst<T>(s: seq<T>, leq: (T, T) -> bool, x: T)
    requires SortedBy(s, leq) && s != [] && x in s[1..]
    ensures leq(s[0], x)
  {
    var k :| 0 <= k < |s[1..]| && s[1..][k] == x;
    assert s[k + 1] == x;
  }

  /** Filtering keeps the order of an ordered query. */
  lemma {:induction false} WhereKeepsOrder<T(!new)>(s: seq<T>, p: T -> bool, leq: (T, T) -> bool)
    requires SortedBy(s, leq)
    ensures SortedBy(Where(s, p), leq)
  {
    if s != [] {
      WhereKeepsOrder(s[1..], p, leq);
      var rest := Where(s[1..], p);
      if p(s[0]) {
        assert Where(s, p) == [s[0]] + rest;
        forall y | y in rest
          ensures leq(s[0], y)
        {
          HeadRanksFirst(s, leq, y);
        }
        ConsSorted(s[0], rest, leq);
      } else {
        assert Where(s, p) == rest;
      }
    }
  }

  /** An element ranking below every element of an ordered sequence can be put in front of it. */
  lemma {:induction false} ConsSorted<T>(x: T, s: seq<T>, leq: (T, T) -> bool)
    requires SortedBy(s, leq) && forall y :: y in s ==> leq(x, y)
    ensures SortedBy([x] + s, leq)
  {
    var r := [x] + s;
    forall i, j | 0 <= i < j < |r|
      ensures leq(r[i], r[j])
    {
      assert r[j] == s[j - 1] && s[j - 1] in s;
      if i > 0 {
        assert r[i] == s[i - 1];
      }
    }
  }
}

/**
 * `std::sort` under a comparator that orders by a lexicographic key.
 * `std::sort` is not stable, so what it promises is only a sorted
 * permutation; `SortByKey` is one such permutation, and `SortedUnique`
 * shows there is only one when the keys are distinct.
 */
module Sorting {
  import opened Ordering

  /** May an element with key `ka` come before one with key `kb`? */
  predicate InOrder(ka: seq<int>, kb: seq<int>, descending: bool) {
    if descending then LexLe(kb, ka) else LexLe(ka, kb)
  }

  lemma InOrderFacts(a: seq<int>, b: seq<int>, c: seq<int>, descending: bool)
    ensures InOrder(a, b, descending) || InOrder(b, a, descending)
    ensures InOrder(a, b, descending) && InOrder(b, a, descending) ==> a == b
    ensures InOrder(a, b, descending) && InOrder(b, c, descending) ==> InOrder(a, c, descending)
  {
    LexLeTotalOrder(a, b, c);
    LexLeTotalOrder(c, b, a);
  }

  ghost predicate SortedByKey<T>(s: seq<T>, key: T -> seq<int>, descending: bool) {
    forall i, j :: 0 <= i < j < |s| ==> InOrder(key(s[i]), key(s[j]), descending)
  }

  ghost predicate DistinctKeys<T>(s: seq<T>, key: T -> seq<int>) {
    forall i, j :: 0 <= i < j < |s| ==> key(s[i]) != key(s[j])
  }

  function Insert<T>(x: T, s: seq<T>, key: T -> seq<int>, descending: bool): seq<T> {
    if |s| == 0 then [x]
    else if InOrder(key(x), key(s[0]), descending) then [x] + s
    else [s[0]] + Insert(x, s[1..], key, descending)
  }

  /** Inserting adds exactly `x`. */
  lemma {:induction false} InsertPerm<T>(x: T, s: seq<T>, key: T -> seq<int>, descending: bool)
    ensures multiset(Insert(x, s, key, descending)) == multiset(s) + multiset{x}
  {
    if |s| > 0 {
      assert s == [s[0]] + s[1..];
      if !InOrder(key(x), key(s[0]), descending) {
        InsertPerm(x, s[1..], key, descending);
      }
    }
  }

  /** A head that may precede every element of a sorted sequence keeps it sorted. */
  lemma ConsSorted<T>(h: T, s: seq<T>, key: T -> seq<int>, descending: bool)
    requires SortedByKey(s, key, descending)
    requires forall j :: 0 <= j < |s| ==> InOrder(key(h), key(s[j]), descending)
    ensures SortedByKey([h] + s, key, descending)
  {
    forall i, j | 0 <= i < j < |s| + 1
      ensures InOrder(key(([h] + s)[i]), key(([h] + s)[j]), descending)
    {
      if i > 0 {
        assert ([h] + s)[i] == s[i - 1];
      }
      assert ([h] + s)[j] == s[j - 1];
    }
  }

  /** Inserting into a sorted sequence keeps it sorted. */
  lemma {:induction false} InsertSorted<T>(x: T, s: seq<T>, key: T -> seq<int>, descending: bool)
    requires SortedByKey(s, key, descending)
    ensures SortedByKey(Insert(x, s, key, descending), key, descending)
  {
    if |s| == 0 {
    } else if InOrder(key(x), key(s[0]), descending) {
      forall j | 0 <= j < |s|
        ensures InOrder(key(x), key(s[j]), descending)
      {
        InOrderFacts(key(x), key(s[0]), key(s[j]), descending);
      }
      ConsSorted(x, s, key, descending);
    } else {
      var t := s[1..];
      assert SortedByKey(t, key, descending) by {
        forall i, j | 0 <= i < j < |t|
          ensures InOrder(key(t[i]), key(t[j]), descending)
        {
          assert t[i] == s[i + 1] && t[j] == s[j + 1];
        }
      }
      InsertSorted(x, t, key, descending);
      InsertPerm(x, t, key, descending);
      var rt := Insert(x, t, key, descending);
      InOrderFacts(key(x), key(s[0]), key(s[0]), descending);
      forall j | 0 <= j < |rt|
        ensures InOrder(key(s[0]), key(rt[j]), descending)
      {
        assert rt[j] in multiset(rt);
        if rt[j] != x {
          assert rt[j] in multiset(t);
          var k :| 0 <= k < |t| && t[k] == rt[j];
          assert s[k + 1] == rt[j];
        }
      }
      ConsSorted(s[0], rt, key, descending);
    }
  }

  /** Insertion sort by key: one sorted permutation of `s`. */
  function SortByKey<T>(s: seq<T>, key: T -> seq<int>, descending: bool): (r: seq<T>)
    ensures multiset(r) == multiset(s)
    ensures SortedByKey(r, key, descending)
  {
    if |s| == 0 then []
    else
      var rest := SortByKey(s[1..], key, descending);
      InsertPerm(s[0], rest, key, descending);
      InsertSorted(s[0], rest, key, descending);
      assert s == [s[0]] + s[1..];
      Insert(s[0], rest, key, descending)
  }

  lemma SortedHeadsAgree<T>(a: seq<T>, b: seq<T>, key: T -> seq<int>, descending: bool)
    requires SortedByKey(a, key, descending) && SortedByKey(b, key, descending)
    requires multiset(a) == multiset(b)
    requires DistinctKeys(a, key)
    requires |a| > 0
    ensures |b| > 0 && a[0] == b[0]
  {
    assert a[0] in multiset(b);
    var k :| 0 <= k < |b| && b[k] == a[0];
    assert b[0] in multiset(a);
    var m :| 0 <= m < |a| && a[m] == b[0];
    if k > 0 && m > 0 {
      assert InOrder(key(b[0]), key(b[k]), descending);
      assert InOrder(key(a[0]), key(a[m]), descending);
      InOrderFacts(key(a[0]), key(a[m]), key(a[0]), descending);
      assert false;
    }
  }

  lemma TailsStaySorted<T>(a: seq<T>, key: T -> seq<int>, descending: bool)
    requires SortedByKey(a, key, descending) && DistinctKeys(a, key)
    requires |a| > 0
    ensures SortedByKey(a[1..], key, descending) && DistinctKeys(a[1..], key)
  {
    forall i, j | 0 <= i < j < |a| - 1
      ensures InOrder(key(a[1..][i]), key(a[1..][j]), descending) && key(a[1..][i]) != key(a[1..][j])
    {
      assert a[1..][i] == a[i + 1] && a[1..][j] == a[j + 1];
    }
  }

  /**
   * With distinct keys a sorted permutation is unique, so every correct
   * sort, stable or not, produces the same sequence.
   */
  lemma {:induction false} SortedUnique<T>(a: seq<T>, b: seq<T>, key: T -> seq<int>, descending: bool)
    requires SortedByKey(a, key, descending) && SortedByKey(b, key, descending)
    requires multiset(a) == multiset(b)
    requires DistinctKeys(a, key)
    ensures a == b
  {
    if |a| == 0 {
      assert |b| == |multiset(b)| == 0;
    } else {
      SortedHeadsAgree(a, b, key, descending);
      assert a == [a[0]] + a[1..];
      assert b == [b[0]] + b[1..];
      assert multiset(a[1..]) == multiset(a) - multiset{a[0]};
      assert multiset(b[1..]) == multiset(b) - multiset{b[0]};
      TailsStaySorted(a, key, descending);
      assert SortedByKey(b[1..], key, descending) by {
        forall i, j | 0 <= i < j < |b| - 1
          ensures InOrder(key(b[1..][i]), key(b[1..][j]), descending)
        {
          assert b[1..][i] == b[i + 1] && b[1..][j] == b[j + 1];
        }
      }
      SortedUnique(a[1..], b[1..], key, descending);
    }
  }

  /** `kb` strictly after `ka`: the comparator would put them in this order and they differ. */
  predicate StrictlyInOrder(ka: seq<int>, kb: seq<int>, descending: bool) {
    if descending then LexCompare(kb, ka) == Less else LexCompare(ka, kb) == Less
  }

  lemma {:induction false} ChainStep<T>(s: seq<T>, key: T -> seq<int>, descending: bool, i: int, j: int)
    requires forall k :: 0 <= k < |s| - 1 ==> StrictlyInOrder(key(s[k]), key(s[k + 1]), descending)
    requires 0 <= i < j < |s|
    ensures StrictlyInOrder(key(s[i]), key(s[j]), descending)
    decreases j - i
  {
    if j > i + 1 {
      ChainStep(s, key, descending, i, j - 1);
      var a, b, c := key(s[i]), key(s[j - 1]), key(s[j]);
      if descending {
        LexTransitive(c, b, a);
      } else {
        LexTransitive(a, b, c);
      }
    }
  }

  /** Strictly ordered neighbours make a sorted sequence with distinct keys. */
  lemma ChainSorted<T>(s: seq<T>, key: T -> seq<int>, descending: bool)
    requires forall k :: 0 <= k < |s| - 1 ==> StrictlyInOrder(key(s[k]), key(s[k + 1]), descending)
    ensures SortedByKey(s, key, descending) && DistinctKeys(s, key)
  {
    forall i, j | 0 <= i < j < |s|
      ensures InOrder(key(s[i]), key(s[j]), descending) && key(s[i]) != key(s[j])
    {
      ChainStep(s, key, descending, i, j);
      LexEqual(key(s[i]), key(s[j]));
      LexEqual(key(s[j]), key(s[i]));
    }
  }

  /**
   * A sort of `input` whose expected order has strictly ordered neighbours
   * can only produce that order.
   */
  lemma SortedResultIs<T>(input: seq<T>, expected: seq<T>, sorted: seq<T>, key: T -> seq<int>, descending: bool)
    requires forall k :: 0 <= k < |expected| - 1 ==> StrictlyInOrder(key(expected[k]), key(expected[k + 1]), descending)
    requires multiset(expected) == multiset(input) && multiset(sorted) == multiset(input)
    requires SortedByKey(sorted, key, descending)
    ensures sorted == expected
  {
    ChainSorted(expected, key, descending);
    SortedUnique(expected, sorted, key, descending);
  }
}

/** Sequence helpers shared by several tutorials: totals, flattening, tables. */
module Seqs {

  /** The arithmetic total of a sequence (a right fold of `+` starting at 0). */
  function Sum(s: seq<int>): int {
    if |s| == 0 then 0 else s[0] + Sum(s[1..])
  }

  /** Sum distributes over concatenation. */
  lemma {:induction false} SumAppend(a: seq<int>, b: seq<int>)
    ensures Sum(a + b) == Sum(a) + Sum(b)
  {
    if |a| == 0 {
      assert a + b == b;
    } else {
      assert (a + b)[1..] == a[1..] + b;
      SumAppend(a[1..], b);
    }
  }

  /** The concatenation of a sequence of sequences. */
  function Flatten<T>(parts: seq<seq<T>>): seq<T> {
    if |parts| == 0 then [] else parts[0] + Flatten(parts[1..])
  }

  lemma {:induction false} FlattenAppend<T>(a: seq<seq<T>>, b: seq<seq<T>>)
    ensures Flatten(a + b) == Flatten(a) + Flatten(b)
  {
    if |a| == 0 {
      assert a + b == b;
    } else {
      assert (a + b)[1..] == a[1..] + b;
      FlattenAppend(a[1..], b);
    }
  }

  /** Every element doubled, in order. */
  function Doubled(s: seq<int>): (r: seq<int>)
    ensures |r| == |s|
    ensures forall i :: 0 <= i < |s| ==> r[i] == 2 * s[i]
  {
    if |s| == 0 then [] else [2 * s[0]] + Doubled(s[1..])
  }

  /** Doubling every element doubles the total. */
  lemma {:induction false} SumDoubled(s: seq<int>)
    ensures Sum(Doubled(s)) == 2 * Sum(s)
  {
    if |s| > 0 {
      assert Doubled(s)[1..] == Doubled(s[1..]);
      SumDoubled(s[1..]);
    }
  }

  /**
   * The table a loop over the indices `0 .. n - 1` fills with `f(i)`:
   * built one entry at a time, in index order.
   */
  function Tabulate<T>(n: nat, f: int -> T): (table: seq<T>)
    ensures |table| == n
    ensures forall i :: 0 <= i < n ==> table[i] == f(i)
  {
    if n == 0 then [] else Tabulate(n - 1, f) + [f(n - 1)]
  }

  /** `n` copies of `c`. */
  function Copies(n: nat, c: int): (r: seq<int>)
    ensures |r| == n
    ensures forall i :: 0 <= i < n ==> r[i] == c
  {
    if n == 0 then [] else [c] + Copies(n - 1, c)
  }

  /** Adding `c` to itself `n` times gives `n * c`: multiplication as repeated addition. */
  lemma {:induction false} SumCopies(n: nat, c: int)
    ensures Sum(Copies(n, c)) == n * c
  {
    if n > 0 {
      assert Copies(n, c)[1..] == Copies(n - 1, c);
      SumCopies(n - 1, c);
    }
  }

  /** The elements in the opposite order. */
  function Reverse<T>(s: seq<T>): (r: seq<T>)
    ensures |r| == |s|
    ensures forall i :: 0 <= i < |s| ==> r[i] == s[|s| - 1 - i]
  {
    if |s| == 0 then [] else Reverse(s[1..]) + [s[0]]
  }
}

/**
 * `std::strong_ordering` and the lexicographic comparison that a defaulted
 * `operator<=>` performs member by member.
 */
module Ordering {

  datatype Ord = Less | Equal | Greater {
    /** The result of comparing the same two values the other way round. */
    function Flip(): Ord {
      match this
      case Less => Greater
      case Equal => Equal
      case Greater => Less
    }
  }

  /** `a <=> b` on `int`. */
  function CompareInt(a: int, b: int): (r: Ord)
    ensures r == Less <==> a < b
    ensures r == Equal <==> a == b
    ensures r == Greater <==> a > b
  {
    if a < b then Less else if a == b then Equal else Greater
  }

  /** Lexicographic chaining: the first comparison decides unless it is equal. */
  function Then(first: Ord, next: Ord): Ord {
    if first != Equal then first else next
  }

  /**
   * Lexicographic three-way comparison of integer sequences: the first
   * differing position decides, and a proper prefix compares less.
   */
  function LexCompare(a: seq<int>, b: seq<int>): Ord {
    if |a| == 0 && |b| == 0 then Equal
    else if |a| == 0 then Less
    else if |b| == 0 then Greater
    else Then(CompareInt(a[0], b[0]), LexCompare(a[1..], b[1..]))
  }

  /** Comparing sequences with heads `a` and `b`: the heads decide unless they tie. */
  lemma LexCons(a: int, x: seq<int>, b: int, y: seq<int>)
    ensures LexCompare([a] + x, [b] + y) == Then(CompareInt(a, b), LexCompare(x, y))
  {
    assert ([a] + x)[1..] == x;
    assert ([b] + y)[1..] == y;
  }

  /** Swapping the operands flips the result. */
  lemma {:induction false} LexFlip(a: seq<int>, b: seq<int>)
    ensures LexCompare(b, a) == LexCompare(a, b).Flip()
  {
    if |a| > 0 && |b| > 0 {
      LexFlip(a[1..], b[1..]);
    }
  }

  /** The comparison reports `Equal` exactly for equal sequences. */
  lemma {:induction false} LexEqual(a: seq<int>, b: seq<int>)
    ensures LexCompare(a, b) == Equal <==> a == b
  {
    if |a| > 0 && |b| > 0 {
      LexEqual(a[1..], b[1..]);
      if a[0] == b[0] && a[1..] == b[1..] {
        assert a == [a[0]] + a[1..];
        assert b == [b[0]] + b[1..];
      }
    }
  }

  /** `Less` is transitive. */
  lemma {:induction false} LexTransitive(a: seq<int>, b: seq<int>, c: seq<int>)
    requires LexCompare(a, b) == Less && LexCompare(b, c) == Less
    ensures LexCompare(a, c) == Less
  {
    if |a| > 0 && |b| > 0 && |c| > 0 {
      if a[0] == b[0] && b[0] == c[0] {
        LexTransitive(a[1..], b[1..], c[1..]);
      }
    }
  }

  /** `a <= b` in the lexicographic order. */
  predicate LexLe(a: seq<int>, b: seq<int>) {
    LexCompare(a, b) != Greater
  }

  /** `<=` is a total order on integer sequences. */
  lemma LexLeTotalOrder(a: seq<int>, b: seq<int>, c: seq<int>)
    ensures LexLe(a, a)
    ensures LexLe(a, b) || LexLe(b, a)
    ensures LexLe(a, b) && LexLe(b, a) ==> a == b
    ensures LexLe(a, b) && LexLe(b, c) ==> LexLe(a, c)
  {
    LexEqual(a, a);
    LexFlip(a, b);
    LexEqual(a, b);
    LexEqual(b, c);
    LexFlip(b, c);
    LexFlip(a, c);
    if LexLe(a, b) && LexLe(b, c) {
      if LexCompare(a, b) == Less && LexCompare(b, c) == Less {
        LexTransitive(a, b, c);
      }
    }
  }
}

/**
 * The recursive `fibonacci(int n)` that two tutorials define identically:
 * `n` itself for `n <= 1` (negative `n` included), else the sum of the two
 * previous values.
 */
module Fibonacci {

  function Fib(n: int): int
    decreases n
  {
    if n <= 1 then n else Fib(n - 1) + Fib(n - 2)
  }

  /** From 0 on the values are non-negative and never decrease. */
  lemma {:induction false} FibMonotone(n: int)
    requires n >= 0
    ensures 0 <= Fib(n) <= Fib(n + 1)
  {
    if n >= 1 {
      FibMonotone(n - 1);
    }
  }

  /** The values the demos print. */
  lemma FibExamples()
    ensures Fib(5) == 5
    ensures Fib(10) == 55
    ensures Fib(15) == 610
  {
    assert Fib(2) == 1;
    assert Fib(3) == 2;
    assert Fib(4) == 3;
    assert Fib(5) == 5;
    assert Fib(6) == 8;
    assert Fib(7) == 13;
    assert Fib(8) == 21;
    assert Fib(9) == 34;
    assert Fib(10) == 55;
    assert Fib(11) == 89;
    assert Fib(12) == 144;
    assert Fib(13) == 233;
    assert Fib(14) == 377;
  }

  /**
   * The state `(a, b)` of the iterative generator after `k` steps of
   * replacing `(a, b)` by `(b, a + b)`, starting from `(0, 1)`.
   */
  function FibState(k: nat): (int, int) {
    if k == 0 then (0, 1)
    else
      var (a, b) := FibState(k - 1);
      (b, a + b)
  }

  /** The iterative state always holds two consecutive recursive values. */
  lemma {:induction false} FibStateIsFib(k: nat)
    ensures FibState(k) == (Fib(k), Fib(k + 1))
  {
    if k > 0 {
      FibStateIsFib(k - 1);
    }
  }
}

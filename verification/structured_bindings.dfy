/** The structured-bindings tutorial: functions returning several values at once. */
module StructuredBindings {
  import opened CppInt

  /**
   * `calculate_stats(a, b, c)` without its `double` average: the smallest
   * and the largest of the three.
   */
  function CalculateStats(a: int, b: int, c: int): (r: (int, int))
    ensures r.0 == a || r.0 == b || r.0 == c
    ensures r.0 <= a && r.0 <= b && r.0 <= c
    ensures r.1 == a || r.1 == b || r.1 == c
    ensures r.1 >= a && r.1 >= b && r.1 >= c
  {
    (Min(Min(a, b), c), Max(Max(a, b), c))
  }

  /** The result does not depend on the order of the arguments, and min never exceeds max. */
  lemma CalculateStatsSymmetric(a: int, b: int, c: int)
    ensures CalculateStats(a, b, c) == CalculateStats(b, a, c) == CalculateStats(b, c, a)
    ensures CalculateStats(a, b, c).0 <= CalculateStats(a, b, c).1
  {
  }

  lemma CalculateStatsExample()
    ensures CalculateStats(10, 20, 15) == (10, 20)
  {
  }

  /** `divide_with_remainder`: C++ `/` and `%`, defined only for a non-zero divisor. */
  function DivideWithRemainder(dividend: int, divisor: int): (r: (int, int))
    requires divisor != 0
    ensures r.0 * divisor + r.1 == dividend
    ensures Abs(r.1) < Abs(divisor)
    ensures r.1 == 0 || (r.1 < 0 <==> dividend < 0)
  {
    QuotRem(dividend, divisor);
    (Quot(dividend, divisor), Rem(dividend, divisor))
  }

  /** The demo's 17 ÷ 5, and a negative dividend, whose remainder is negative too. */
  lemma DivideWithRemainderExamples()
    ensures DivideWithRemainder(17, 5) == (3, 2)
    ensures DivideWithRemainder(-17, 5) == (-3, -2)
    ensures DivideWithRemainder(17, -5) == (-3, 2)
  {
  }
}

/**
 * The error-handling example of the variant tutorial: `divide` returns a
 * `std::variant<Success, Error>`, which holds exactly one alternative.
 */
module Variant {
  import opened CppInt

  datatype DivResult = Success(value: int) | Error(message: string)

  /** `divide`: an error for a zero divisor, otherwise the truncated quotient. */
  function Divide(a: int, b: int): (r: DivResult)
    ensures r.Error? <==> b == 0
    ensures r.Error? ==> r.message == "Division by zero"
    ensures r.Success? ==> r.value * b + Rem(a, b) == a
  {
    if b == 0 then Error("Division by zero") else Success(Quot(a, b))
  }

  /**
   * The quotient is the one C++ `/` gives: whatever is left over is smaller
   * than the divisor and, when not zero, has the sign of the dividend; any
   * quotient with such a remainder is this one.
   */
  lemma DivideTruncates(a: int, b: int, q: int)
    requires b != 0
    ensures Abs(a - Divide(a, b).value * b) < Abs(b)
    ensures var rem := a - Divide(a, b).value * b; rem == 0 || (rem < 0 <==> a < 0)
    ensures Abs(a - q * b) < Abs(b) && (a - q * b == 0 || (a - q * b < 0 <==> a < 0)) ==> q == Divide(a, b).value
  {
    QuotRem(a, b);
    if Abs(a - q * b) < Abs(b) && (a - q * b == 0 || (a - q * b < 0 <==> a < 0)) {
      QuotUnique(a, b, q, a - q * b);
    }
  }

  /** A 32-bit `int`. */
  predicate IsInt32(x: int) {
    -0x8000_0000 <= x < 0x8000_0000
  }

  /** Dividing by at least 2 at least halves a non-negative number. */
  lemma HalvedAtLeast(x: int, y: int)
    requires x >= 0 && y >= 2
    ensures 2 * (x / y) <= x
  {
    assert x == (x / y) * y + x % y;
    MulAtMost(2, y, x / y);
  }

  /** The quotient of two `int`s is an `int`, except for the one overflowing case `INT_MIN / -1`. */
  lemma DivideFits(a: int, b: int)
    requires IsInt32(a) && IsInt32(b) && b != 0
    ensures IsInt32(Divide(a, b).value) <==> !(a == -0x8000_0000 && b == -1)
  {
    var sq := Abs(a) / Abs(b);
    if Abs(b) == 1 {
      assert sq == Abs(a);
      assert Divide(a, b).value == if b == 1 then a else -a;
    } else {
      HalvedAtLeast(Abs(a), Abs(b));
    }
  }

  /** The demo: 10 / 2 succeeds with 5, and 10 / 0 reports the error. */
  lemma DivideExamples()
    ensures Divide(10, 2) == Success(5)
    ensures Divide(10, 0) == Error("Division by zero")
    ensures Divide(-7, 2) == Success(-3)
  {
  }
}

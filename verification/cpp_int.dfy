/**
 * The parts of C++ integer semantics the tutorials depend on. Dafny's `int`
 * is unbounded and its `/` and `%` are Euclidean; C++ truncates toward zero
 * and converts negative values to `size_t` modulo 2^64.
 */
module CppInt {

  const SizeTModulus: int := 0x1_0000_0000_0000_0000

  /** `static_cast<size_t>(x)` for a signed `x`: reduction modulo 2^64. */
  function ToSizeT(x: int): (r: nat)
    ensures r < SizeTModulus
    ensures (r - x) % SizeTModulus == 0
    ensures 0 <= x < SizeTModulus ==> r == x
  {
    x % SizeTModulus
  }

  function Abs(x: int): nat {
    if x < 0 then -x else x
  }

  function Min(a: int, b: int): int {
    if a <= b then a else b
  }

  function Max(a: int, b: int): int {
    if a >= b then a else b
  }

  /** C++ `a / b` on `int`: the quotient truncated toward zero. */
  function Quot(a: int, b: int): int
    requires b != 0
  {
    var q := Abs(a) / Abs(b);
    if (a < 0) == (b < 0) then q else -q
  }

  /** C++ `a % b` on `int`: what is left after the truncated quotient. */
  function Rem(a: int, b: int): int
    requires b != 0
  {
    a - b * Quot(a, b)
  }

  /**
   * The defining properties of truncating division, stated without the
   * formula: the remainder is smaller than the divisor in magnitude and,
   * when not zero, has the sign of the dividend.
   */
  lemma QuotRem(a: int, b: int)
    requires b != 0
    ensures Quot(a, b) * b + Rem(a, b) == a
    ensures Abs(Rem(a, b)) < Abs(b)
    ensures Rem(a, b) == 0 || (Rem(a, b) < 0 <==> a < 0)
  {
    var q := Abs(a) / Abs(b);
    var m := Abs(a) % Abs(b);
    assert Abs(a) == Abs(b) * q + m;
    SignedRest(a, b, q, m, Quot(a, b));
    assert Quot(a, b) * b == b * Quot(a, b);
  }

  /** Giving the quotient of the magnitudes the sign of the result leaves the rest with the sign of `a`. */
  lemma SignedRest(a: int, b: int, q: int, m: int, quot: int)
    requires Abs(a) == Abs(b) * q + m
    requires quot == if (a < 0) == (b < 0) then q else -q
    ensures a - b * quot == if a >= 0 then m else -m
  {
    var n := Abs(b);
    if b > 0 && a >= 0 {
      assert b * quot == n * q;
    } else if b > 0 {
      assert b * quot == n * -q;
      MulNeg(n, q);
    } else if a >= 0 {
      assert b * quot == (-n) * (-q);
      MulNeg(n, -q);
      MulNeg(n, q);
    } else {
      assert b * quot == (-n) * q;
      MulNeg(n, q);
    }
  }

  /** Moving a minus sign out of a product. */
  lemma MulNeg(x: int, y: int)
    ensures (-x) * y == -(x * y) && x * (-y) == -(x * y)
  {
  }

  /** 256^i: the weight of byte i in a little-endian encoding. */
  function Pow256(i: nat): (r: nat)
    ensures r > 0
  {
    if i == 0 then 1 else 256 * Pow256(i - 1)
  }

  /** A positive multiple of a positive number is at least that number. */
  lemma MulAtLeast(k: int, m: int)
    requires k >= 1 && m > 0
    ensures k * m >= m
  {
    assert k * m == (k - 1) * m + m;
  }

  /** Peeling one factor off a product. */
  lemma MulPred(k: int, m: int)
    ensures k * m == (k - 1) * m + m
  {
  }

  /** Multiplying by a non-negative factor preserves `<=`. */
  lemma MulAtMost(a: int, b: int, p: int)
    requires a <= b && p >= 0
    ensures a * p <= b * p
  {
    assert b * p - a * p == (b - a) * p;
  }

  /** Division by a positive modulus is determined by any quotient/remainder pair. */
  lemma DivModUnique(v: int, m: int, q: int, r: int)
    requires m > 0 && v == q * m + r && 0 <= r < m
    ensures v / m == q && v % m == r
  {
    var q', r' := v / m, v % m;
    assert v == q' * m + r';
    assert (q - q') * m == r' - r;
    if q > q' {
      MulAtLeast(q - q', m);
    } else if q < q' {
      MulAtLeast(q' - q, m);
    }
  }

  /**
   * Dividing by `a` and then by `b` is dividing by `a * b`; the remainder
   * modulo `a * b` splits into the remainder modulo `a` and a multiple of `a`.
   */
  lemma DivDiv(v: int, a: int, b: int)
    requires a > 0 && b > 0
    ensures (v / a) / b == v / (a * b)
    ensures v % (a * b) == v % a + a * ((v / a) % b)
  {
    var q, r := v / a, v % a;
    var q2, r2 := q / b, q % b;
    assert v == q * a + r;
    assert q == q2 * b + r2;
    assert q * a == (q2 * b + r2) * a;
    assert (q2 * b + r2) * a == q2 * b * a + r2 * a;
    assert q2 * b * a == q2 * (a * b);
    MulAtMost(r2, b - 1, a);
    assert (b - 1) * a == a * b - a;
    DivModUnique(v, a * b, q2, a * r2 + r);
  }

  /** Reducing the running total before each addition does not change the result modulo `m`. */
  lemma ModAddStep(a: int, b: int, m: int)
    requires m > 0
    ensures (a % m + b) % m == (a + b) % m
  {
    var r := a % m + b;
    assert a == (a / m) * m + a % m;
    assert r == (r / m) * m + r % m;
    assert a + b == (a / m + r / m) * m + r % m;
    DivModUnique(a + b, m, a / m + r / m, r % m);
  }

  /** The magnitude of a product is the product of the magnitudes. */
  lemma AbsMul(x: int, y: int)
    ensures Abs(x * y) == Abs(x) * Abs(y)
  {
    if x < 0 && y < 0 {
      assert x * y == (-x) * (-y);
    } else if x < 0 {
      assert -(x * y) == (-x) * y;
    } else if y < 0 {
      assert -(x * y) == x * (-y);
    }
  }

  /** A multiple of `b` smaller than `b` in magnitude is zero. */
  lemma SmallMultiple(d: int, b: int, x: int)
    requires b != 0 && d * b == x && Abs(x) < Abs(b)
    ensures d == 0
  {
    if d != 0 {
      AbsMul(d, b);
      MulAtLeast(Abs(d), Abs(b));
    }
  }

  /** Two ways of writing `a` as a multiple of `b` plus a rest differ by a multiple of `b`. */
  lemma QuotientGap(a: int, b: int, q: int, r: int, q0: int, r0: int)
    requires q * b + r == a && q0 * b + r0 == a
    ensures (q - q0) * b == r0 - r
  {
    assert (q - q0) * b == q * b - q0 * b;
  }

  /**
   * Truncating division is the only quotient whose remainder is smaller
   * than the divisor in magnitude and, when not zero, has the sign of the
   * dividend.
   */
  lemma QuotUnique(a: int, b: int, q: int, r: int)
    requires b != 0 && q * b + r == a
    requires Abs(r) < Abs(b) && (r == 0 || (r < 0 <==> a < 0))
    ensures q == Quot(a, b) && r == Rem(a, b)
  {
    QuotRem(a, b);
    var q0, r0 := Quot(a, b), Rem(a, b);
    QuotientGap(a, b, q, r, q0, r0);
    assert Abs(r0 - r) < Abs(b) by {
      if a < 0 {
        assert r <= 0 && r0 <= 0;
      } else {
        assert r >= 0 && r0 >= 0;
      }
    }
    SmallMultiple(q - q0, b, r0 - r);
  }
}

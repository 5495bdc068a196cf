/**
 * The C++ integer facts the evaluator and the column sums depend on: the
 * limits of `long long` and `unsigned long long` from <climits>, and the
 * built-in `/` and `%`, which truncate toward zero where Dafny's are
 * Euclidean.
 */
module CppInt {
  const LLONG_MIN: int := -0x8000_0000_0000_0000
  const LLONG_MAX: int := 0x7fff_ffff_ffff_ffff
  const ULLONG_MAX: int := 0xffff_ffff_ffff_ffff

  predicate IsLong(x: int)
  {
    LLONG_MIN <= x <= LLONG_MAX
  }

  /** A value a `long long` can hold. */
  type Long = x: int | LLONG_MIN <= x <= LLONG_MAX

  /** A value an `unsigned long long` can hold. */
  type ULong = x: int | 0 <= x <= ULLONG_MAX

  function Abs(x: int): nat
  {
    if x < 0 then -x else x
  }

  /** C++ `a / b`: the mathematical quotient truncated toward zero. */
  function TruncDiv(a: int, b: int): int
    requires b != 0
  {
    if (a < 0) == (b < 0) then Abs(a) / Abs(b) else -(Abs(a) / Abs(b))
  }

  /** C++ `a % b`: what remains after the truncated quotient. */
  function TruncMod(a: int, b: int): int
    requires b != 0
  {
    a - b * TruncDiv(a, b)
  }

  /** The laws C++ guarantees for `/` and `%`: the remainder is smaller than the divisor and takes the sign of the dividend. */
  lemma TruncDivMod(a: int, b: int)
    requires b != 0
    ensures a == b * TruncDiv(a, b) + TruncMod(a, b)
    ensures Abs(TruncMod(a, b)) < Abs(b)
    ensures TruncMod(a, b) == 0 || ((TruncMod(a, b) < 0) == (a < 0))
  {
    TruncModValue(a, b);
  }

  /** The truncated remainder is the remainder of the magnitudes, with the sign of the dividend. */
  lemma TruncModValue(a: int, b: int)
    requires b != 0
    ensures TruncMod(a, b) == if a < 0 then -(Abs(a) % Abs(b)) else Abs(a) % Abs(b)
  {
    var q := Abs(a) / Abs(b);
    var r := Abs(a) % Abs(b);
    assert Abs(a) == Abs(b) * q + r;
    QuotientTimesDivisor(a, b);
  }

  /** The truncated quotient times the divisor is the product of the magnitudes, with the sign of the dividend. */
  lemma QuotientTimesDivisor(a: int, b: int)
    requires b != 0
    ensures b * TruncDiv(a, b) == if a < 0 then -(Abs(b) * (Abs(a) / Abs(b))) else Abs(b) * (Abs(a) / Abs(b))
  {
    var q := Abs(a) / Abs(b);
    if (a < 0) == (b < 0) {
      assert TruncDiv(a, b) == q;
    } else {
      assert TruncDiv(a, b) == -q;
      assert b * -q == -(b * q);
    }
  }

  lemma MulMonotone(x: int, y: int, d: int)
    requires x <= y && d > 0
    ensures x * d <= y * d
  {
    var n := y - x;
    assert y * d == x * d + n * d;
    assert n * d >= 0;
  }

  /** Comparing with a floor quotient is comparing the product. */
  lemma AboveQuotient(x: int, m: nat, d: int)
    requires d > 0
    ensures x > m / d <==> x * d > m
  {
    var q := m / d;
    assert m == d * q + m % d;
    assert d * q == q * d;
    if x > q {
      MulMonotone(q + 1, x, d);
      assert (q + 1) * d == q * d + d;
    } else {
      MulMonotone(x, q, d);
    }
  }
}

/**
 * C#'s integer division. On `int` operands C# truncates the quotient toward
 * zero (`-3 / 2 == -1`), while Dafny's `/` is Euclidean (`-3 / 2 == -2`), so
 * every `/` of the resizer is written with TruncDiv. Every divisor the
 * resizer uses is positive (a pixel extent or the constant 2).
 */
module CSharpInt {

  /**
   * The quotient C# computes for `a / b`: the remainder `a - q * b` has the
   * sign of the dividend and is smaller than the divisor.
   */
  function TruncDiv(a: int, b: int): (q: int)
    requires b > 0
    ensures a >= 0 ==> 0 <= a - q * b < b
    ensures a <= 0 ==> -b < a - q * b <= 0
  {
    if a >= 0 then
      assert a == (a / b) * b + a % b;
      a / b
    else
      assert -a == ((-a) / b) * b + (-a) % b;
      -((-a) / b)
  }

  /** Truncation is symmetric: negating the dividend negates the quotient. */
  lemma TruncDivNegate(a: int, b: int)
    requires b > 0
    ensures TruncDiv(-a, b) == -TruncDiv(a, b)
  {
  }

  /** For a non-negative dividend C# agrees with Dafny, and the quotient is at most the dividend. */
  lemma TruncDivNatural(a: int, b: int)
    requires a >= 0 && b > 0
    ensures TruncDiv(a, b) == a / b
    ensures 0 <= TruncDiv(a, b) <= a
  {
  }

  /** Euclidean division of a non-negative number: quotient and remainder rebuild the dividend. */
  lemma DivisionIdentity(a: int, b: int, q: int)
    requires a >= 0 && b > 0 && q == a / b
    ensures q >= 0 && a == q * b + a % b && 0 <= a % b
  {
  }

  /** Halving: `TruncDiv(o, 2)` lies between 0 and `o` and is `o / 2` rounded toward zero. */
  lemma TruncDivHalf(o: int)
    ensures o >= 0 ==> 0 <= TruncDiv(o, 2) <= o && 0 <= o - 2 * TruncDiv(o, 2) <= 1
    ensures o <= 0 ==> o <= TruncDiv(o, 2) <= 0 && -1 <= o - 2 * TruncDiv(o, 2) <= 0
    ensures o > 0 ==> TruncDiv(o, 2) < o
    ensures o < 0 ==> o < TruncDiv(o, 2)
  {
  }

  /** A quotient of positive numbers is zero exactly when the dividend is the smaller. */
  lemma TruncDivPositive(n: int, d: int)
    requires n > 0 && d > 0
    ensures 0 <= TruncDiv(n, d) <= n
    ensures n < d <==> TruncDiv(n, d) == 0
  {
    TruncDivNatural(n, d);
    var q := TruncDiv(n, d);
    if q >= 1 {
      MulMonotone(d, 1, q);
      assert d * q >= d;
    }
  }

  /** Multiplication by a non-negative factor is monotone. */
  lemma MulMonotone(a: int, x: int, y: int)
    requires a >= 0 && x <= y
    ensures a * x <= a * y
  {
  }

  /**
   * Scaling a positive extent `a` by the truncated ratio `n / d`: the result
   * is at most `a * n`, at least `a` when `n >= d`, and zero exactly when `n < d`.
   */
  lemma ScaleByRatio(a: int, n: int, d: int)
    requires a > 0 && n > 0 && d > 0
    ensures 0 <= a * TruncDiv(n, d) <= a * n
    ensures d <= n ==> a * TruncDiv(n, d) >= a
    ensures n < d <==> a * TruncDiv(n, d) == 0
  {
    var q := TruncDiv(n, d);
    TruncDivPositive(n, d);
    MulMonotone(a, 0, q);
    MulMonotone(a, q, n);
    if q >= 1 {
      MulMonotone(a, 1, q);
    } else {
      assert q == 0;
    }
  }
}

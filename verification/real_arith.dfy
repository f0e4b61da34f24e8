/** Small facts of real arithmetic, each stated over plain variables so that the
    statistics proofs can use them as single steps. */
module RealArith {

  /** The square of a real, kept as a named term so that sums of squares stay
      linear in it. */
  function Square(x: real): real
  {
    x * x
  }

  lemma SquareNonnegative(d: real)
    ensures Square(d) >= 0.0
  {
  }

  /** A non-zero real has a non-zero square: multiplying by the square of its
      inverse gives one. */
  lemma SquareNonzero(d: real)
    requires d != 0.0
    ensures Square(d) != 0.0
  {
    var e := 1.0 / d;
    assert d * e == 1.0;
    assert Square(d) * (e * e) == (d * e) * (d * e);
  }

  lemma SquarePositive(d: real)
    requires d != 0.0
    ensures Square(d) > 0.0
  {
    SquareNonnegative(d);
    SquareNonzero(d);
  }

  lemma MulPositive(a: real, b: real)
    requires a > 0.0 && b > 0.0
    ensures a * b > 0.0
  {
  }

  /** Squaring is strictly monotone on the non-negative reals. */
  lemma SquareMonotone(a: real, b: real)
    requires 0.0 <= a && 0.0 <= b
    ensures a < b <==> Square(a) < Square(b)
  {
    if a < b {
      assert Square(b) - Square(a) == (b - a) * (b + a);
      MulPositive(b - a, b + a);
    } else {
      assert Square(a) - Square(b) == (a - b) * (a + b);
      assert (a - b) * (a + b) >= 0.0;
    }
  }

  lemma DivNonnegative(a: real, n: real)
    requires a >= 0.0 && n > 0.0
    ensures a / n >= 0.0
  {
  }

  lemma DivPositive(a: real, n: real)
    requires a > 0.0 && n > 0.0
    ensures a / n > 0.0
  {
  }

  lemma MulSuccessor(n: real, c: real)
    ensures (n + 1.0) * c == n * c + c
  {
  }

  lemma DivAtMost(a: real, b: real, n: real)
    requires n > 0.0 && a <= n * b
    ensures a / n <= b
  {
  }

  lemma MulDivCancel(x: real, n: real)
    requires n != 0.0
    ensures n * (x / n) == x
    ensures (x * n) / n == x
  {
  }

  /** Expanding the square of a difference. */
  lemma SquareOfDifference(y: real, c: real)
    ensures Square(y - c) == Square(y) - 2.0 * c * y + Square(c)
  {
  }

  lemma SquareOfNegation(d: real)
    ensures Square(-d) == Square(d)
  {
  }

  /** `n` copies of `c` adding up to `s`, squared and summed. */
  lemma ScaleSquare(n: real, c: real, s: real)
    requires n * c == s
    ensures n * Square(c) == c * s
  {
  }

  /** For `n` values with sum `s`, average `c` and sum of squares `q`, the
      non-negative gap `q - c * s` bounds the square of the sum. */
  lemma CentredBound(s: real, q: real, n: real, c: real)
    requires n > 0.0 && n * c == s
    requires q - c * s >= 0.0
    ensures Square(s) <= n * q
  {
    assert n * (q - c * s) >= 0.0;
    assert n * (q - c * s) == n * q - Square(s);
  }

  /** The last step of Samuelson's inequality: a deviation whose square is at
      most `n - 1` times the rest of the sum of squares. */
  lemma SamuelsonStep(sq: real, total: real, n: real)
    requires sq <= (n - 1.0) * (total - sq)
    ensures n * sq <= (n - 1.0) * total
  {
  }

  /** A fraction of a non-negative quantity lies between zero and the whole. */
  lemma FractionOf(f: real, d: real)
    requires 0.0 <= f <= 1.0 && d >= 0.0
    ensures 0.0 <= f * d <= d
  {
    assert d - f * d == (1.0 - f) * d;
  }

  /** Going a fraction of a non-negative step from `lo` stays within the step. */
  lemma PartWay(lo: real, d: real, f: real)
    requires 0.0 <= f <= 1.0 && d >= 0.0
    ensures lo <= lo + f * d <= lo + d
  {
    FractionOf(f, d);
  }

  lemma SquareOfProduct(c: real, s: real)
    ensures Square(c * s) == Square(c) * Square(s)
  {
  }

  /** The inductive step of expanding a sum of squared deviations: `dev`,
      `sq`, `sum` and `n` are the totals with `y` added to `t`, `q`, `s` and `k`. */
  lemma DevStep(y: real, c: real, q: real, s: real, k: real, t: real,
                dev: real, sq: real, sum: real, n: real)
    requires t == q - 2.0 * c * s + k * Square(c)
    requires dev == Square(y - c) + t && sq == Square(y) + q
    requires sum == y + s && n == k + 1.0
    ensures dev == sq - 2.0 * c * sum + n * Square(c)
  {
    SquareOfDifference(y, c);
    MulSuccessor(k, Square(c));
  }
}

/** Small shared vocabulary: optional values, results with an error, and the
    integer operations of C++ that differ from Dafny's own. */
module Basics {

  datatype Option<+T> = None | Some(value: T)

  datatype Result<+T, +E> = Ok(value: T) | Err(error: E)

  function Abs(x: int): (r: nat)
    ensures r == x || r == -x
  {
    if x < 0 then -x else x
  }

  function Min(a: int, b: int): (r: int)
    ensures r <= a && r <= b
    ensures r == a || r == b
  {
    if a < b then a else b
  }

  function Max(a: int, b: int): (r: int)
    ensures r >= a && r >= b
    ensures r == a || r == b
  {
    if a < b then b else a
  }

  /** C++ integer division by a positive divisor: the quotient is truncated
      toward zero, unlike Dafny's Euclidean `/`, which floors. */
  function CDiv(a: int, b: int): (q: int)
    requires b > 0
    ensures a >= 0 ==> q == a / b
    ensures a < 0 ==> q == -((-a) / b)
  {
    if a >= 0 then a / b else -((-a) / b)
  }

  /** A non-negative multiple of a positive number. */
  lemma MulNonNegative(k: int, d: int)
    requires k >= 0 && d > 0
    ensures k * d >= 0
  {
  }

  /** Flooring division by a positive divisor keeps the order of its
      dividends. */
  lemma DivMonotone(a: int, b: int, d: int)
    requires d > 0 && a <= b
    ensures a / d <= b / d
  {
    var qa, qb := a / d, b / d;
    if qa > qb {
      MulNonNegative(qa - qb - 1, d);
      assert false;
    }
  }

  /** The quotient is determined by any decomposition with a remainder in
      range. */
  lemma DivUnique(a: int, d: int, q: int, r: int)
    requires d > 0 && 0 <= r < d && a == q * d + r
    ensures a / d == q
  {
    var q0 := a / d;
    if q0 > q {
      MulNonNegative(q0 - q - 1, d);
      assert false;
    } else if q0 < q {
      MulNonNegative(q - q0 - 1, d);
      assert false;
    }
  }

  /** A dividend between `lo * d` and `hi * d` has its quotient between `lo`
      and `hi`. */
  lemma DivBetween(a: int, d: int, lo: int, hi: int)
    requires d > 0 && lo * d <= a <= hi * d
    ensures lo <= a / d <= hi
  {
    DivUnique(lo * d, d, lo, 0);
    DivUnique(hi * d, d, hi, 0);
    DivMonotone(lo * d, a, d);
    DivMonotone(a, hi * d, d);
  }

  /** Dividends at least one divisor apart have distinct quotients. */
  lemma DivStep(a: int, b: int, d: int)
    requires d > 0 && a + d <= b
    ensures a / d < b / d
  {
    var q, r := a / d, a % d;
    assert a + d == (q + 1) * d + r;
    DivUnique(a + d, d, q + 1, r);
    DivMonotone(a + d, b, d);
  }

  /** What truncation toward zero means: the remainder `a - q * b` has the
      sign of the dividend and is smaller than the divisor, so negating the
      dividend negates the quotient. Dafny's `/` has neither property for a
      negative dividend. */
  lemma CDivTruncates(a: int, b: int)
    requires b > 0
    ensures a >= 0 ==> 0 <= a - CDiv(a, b) * b < b
    ensures a <= 0 ==> -b < a - CDiv(a, b) * b <= 0
    ensures CDiv(-a, b) == -CDiv(a, b)
  {
    var m := if a >= 0 then a else -a;
    var q, r := m / b, m % b;
    assert m == q * b + r && 0 <= r < b;
    if a < 0 {
      assert a - CDiv(a, b) * b == -(m - q * b);
    }
  }
}

/** The few facts about products and quotients the meters rest on. */
module Arith {

  lemma MulMono(c: int, a: int, b: int)
    requires c >= 0 && a <= b
    ensures c * a <= c * b
  {
    assert c * (b - a) >= 0;
  }

  lemma MulDistrib(c: int, a: int, b: int)
    ensures c * (a + b) == c * a + c * b
    ensures c * (a - b) == c * a - c * b
  {
  }

  /** Flooring division is the adjoint of multiplication. */
  lemma Quotient(x: int, d: int, q: int)
    requires d > 0
    ensures q <= x / d <==> d * q <= x
  {
    var k := x / d;
    assert d * k <= x < d * k + d;
    if q <= k {
      MulMono(d, q, k);
    } else {
      MulMono(d, k + 1, q);
      MulDistrib(d, k, 1);
    }
  }

  /** A whole number of divisors comes out of a quotient. */
  lemma QuotientShift(x: int, d: int, n: int)
    requires d > 0
    ensures (x - d * n) / d == x / d - n
  {
    var k := x / d;
    MulDistrib(d, k, n);
    Quotient(x, d, k);
    Quotient(x, d, k + 1);
    MulDistrib(d, k, 1);
    MulDistrib(d, k - n, 1);
    Quotient(x - d * n, d, k - n);
    Quotient(x - d * n, d, k - n + 1);
  }

  lemma RMulMono(c: real, a: real, b: real)
    requires c >= 0.0 && a <= b
    ensures c * a <= c * b
  {
    assert c * (b - a) >= 0.0;
  }

  lemma RMulStrict(c: real, a: real, b: real)
    requires c > 0.0 && a < b
    ensures c * a < c * b
  {
    assert c * (b - a) > 0.0;
  }

  lemma RBracket(rate: real, w: int, q: real)
    requires rate > 0.0 && w as real <= q < (w + 1) as real
    ensures rate * w as real <= rate * q < rate * (w + 1) as real
  {
    RMulMono(rate, w as real, q);
    RMulStrict(rate, q, (w + 1) as real);
  }

  /** The whole time in which no more than `amount` accrues at `rate`. */
  lemma RQuotient(amount: real, rate: real)
    requires rate > 0.0 && amount >= 0.0
    ensures var w := (amount / rate).Floor; w >= 0 && rate * w as real <= amount < rate * (w + 1) as real
  {
    var q := amount / rate;
    assert rate * q == amount;
    assert q >= 0.0;
    RBracket(rate, q.Floor, q);
    assert amount < rate * (q.Floor + 1) as real;
  }
}

/** Products, which the verifier needs to be told about one by one. */
module Arithmetic {

  lemma Times(x: nat, y: nat, k: nat)
    requires x <= y
    ensures 0 <= x * k <= y * k
  {
  }

  lemma Small(a: nat, max: nat)
    requires a < max
    ensures a % max == a
  {
  }

  lemma Quotients(p: int, q: int, k: nat)
    requires p <= q && k > 0
    ensures p / k <= q / k
  {
    if p / k > q / k {
      Below(q / k + 1, p / k, k);
    }
  }

  lemma Below(x: int, y: int, k: nat)
    requires x <= y
    ensures k * x <= k * y
  {
  }

  /** Quotient and remainder are the only way to write a number like this. */
  lemma OneQuotient(n: nat, unit: nat, high: nat, low: nat)
    requires unit > 0 && n == unit * high + low && low < unit
    ensures n / unit == high && n % unit == low
  {
    if n / unit > high {
      Below(high + 1, n / unit, unit);
    } else if n / unit < high {
      Below(n / unit + 1, high, unit);
    }
  }

  lemma QuotientTimes(a: nat, b: nat)
    requires b > 0
    ensures a / b * b <= a
  {
  }
}

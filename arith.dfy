/** Facts about multiplication and division on naturals and integers that
    the scrollbar, the gauge, the spinner and the cursor cell rely on. */
module Arith {
  lemma MulMonotone(a: nat, b: nat, n: nat)
    requires a <= b
    ensures a * n <= b * n
  {
    assert b * n == a * n + (b - a) * n;
  }

  lemma DivMonotone(x: nat, y: nat, n: nat)
    requires 0 < n && x <= y
    ensures x / n <= y / n
  {
    var qx, qy := x / n, y / n;
    if qx > qy {
      MulMonotone(qy + 1, qx, n);
    }
  }

  lemma DivBelow(x: nat, c: nat, n: nat)
    requires 0 < n && x < c * n
    ensures x / n < c
  {
    var q := x / n;
    if q >= c {
      MulMonotone(c, q, n);
    }
  }

  lemma MulDivCancel(a: nat, n: nat)
    requires 0 < n
    ensures a * n / n == a
  {
    var q := a * n / n;
    DivBelow(a * n, a + 1, n) by {
      assert (a + 1) * n == a * n + n;
    }
    if q < a {
      MulMonotone(q + 1, a, n);
    }
  }

  lemma MulDivAtMost(a: nat, b: nat, n: nat)
    requires 0 < n && b <= n
    ensures a * b / n <= a
  {
    MulMonotone(b, n, a);
    assert b * a == a * b && n * a == a * n;
    DivMonotone(a * b, a * n, n);
    MulDivCancel(a, n);
  }

  lemma MulDivMonotone(a: nat, b: nat, c: nat, n: nat)
    requires 0 < n && b <= c
    ensures a * b / n <= a * c / n
  {
    MulMonotone(b, c, a);
    assert b * a == a * b && c * a == a * c;
    DivMonotone(a * b, a * c, n);
  }

  lemma MulAwayFromZero(k: int, n: int)
    requires n > 0
    ensures k >= 1 ==> k * n >= n
    ensures k <= -1 ==> k * n <= -n
  {
    if k >= 1 {
      MulAtLeast(k, n);
    } else if k <= -1 {
      MulAtLeast(-k, n);
      assert (-k) * n == -(k * n);
    }
  }

  lemma {:induction false} MulAtLeast(k: nat, n: int)
    requires k >= 1 && n > 0
    ensures k * n >= n
    decreases k
  {
    if k > 1 {
      MulAtLeast(k - 1, n);
      assert k * n == (k - 1) * n + n;
    }
  }

  /** Euclidean division is unique: a remainder below the divisor fixes
      quotient and remainder. */
  lemma ModUnique(x: int, n: int, d: int, r: int)
    requires 0 <= r < n && x == d * n + r
    ensures x / n == d && x % n == r
  {
    var q, m := x / n, x % n;
    assert (d - q) * n == m - r;
    MulAwayFromZero(d - q, n);
  }
}

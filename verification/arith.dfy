/** Integer facts the progress and pagination arithmetic rests on. */
module Arith {
  lemma {:induction false} MulMonotone(d: nat, x: nat, y: nat)
    requires x <= y
    ensures d * x <= d * y
    decreases y - x
  {
    if x < y {
      MulMonotone(d, x, y - 1);
      assert d * y == d * (y - 1) + d;
    }
  }

  /** MulMonotone as an implication, for use where the order is not known. */
  lemma MulMonotoneIf(d: nat, x: int, y: int)
    ensures 0 <= x <= y ==> d * x <= d * y
  {
    if 0 <= x <= y {
      MulMonotone(d, x, y);
    }
  }

  /** `a / d` is at most `k` when `a` is below `(k + 1) * d`, and exactly `k` when `a == k * d`. */
  lemma DivBelow(a: nat, d: nat, k: nat)
    requires d > 0 && a < (k + 1) * d
    ensures a / d <= k
    ensures a == k * d ==> a / d == k
  {
    var q := a / d;
    var r := a % d;
    assert a == d * q + r && 0 <= r < d;
    MulMonotoneIf(d, k + 1, q);
    MulMonotoneIf(d, q + 1, k);
  }

  /** Division is determined by any quotient and remainder that fit. */
  lemma DivExact(a: nat, d: nat, q: nat, r: nat)
    requires d > 0 && r < d && a == d * q + r
    ensures a / d == q
  {
    var q' := a / d;
    var r' := a % d;
    assert a == d * q' + r' && 0 <= r' < d;
    MulMonotoneIf(d, q + 1, q');
    MulMonotoneIf(d, q' + 1, q);
  }

  /** Adding the divisor adds one to the quotient. */
  lemma DivShift(a: nat, d: nat)
    requires d > 0
    ensures (a + d) / d == a / d + 1
  {
    var q := a / d;
    var r := a % d;
    assert a + d == d * (q + 1) + r;
    DivExact(a + d, d, q + 1, r);
  }

  /** Division by a fixed divisor is monotone. */
  lemma DivMonotone(x: nat, y: nat, d: nat)
    requires x <= y && d > 0
    ensures x / d <= y / d
  {
    var qx, qy := x / d, y / d;
    assert x == d * qx + x % d && y == d * qy + y % d;
    MulMonotoneIf(d, qy + 1, qx);
  }

  /** `ceil(n / d)`, written `(n + d - 1) / d`: zero, one, or one more than for `n - d`. */
  lemma CeilDivCases(n: nat, d: nat)
    requires d > 0
    ensures n == 0 ==> (n + d - 1) / d == 0
    ensures 0 < n <= d ==> (n + d - 1) / d == 1
    ensures n > d ==> (n + d - 1) / d == (n - d + d - 1) / d + 1
  {
    if n == 0 {
      DivExact(d - 1, d, 0, d - 1);
    } else if n <= d {
      DivExact(n + d - 1, d, 1, n - 1);
    } else {
      DivShift(n - 1, d);
    }
  }
}

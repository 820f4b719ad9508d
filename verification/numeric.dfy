/**
 Fixed-width integer types of the lockup program, the checked subtraction it
 uses on them, and the facts about floor division that the unlock schedule
 rests on.
 */
module Numeric {

  const U64_LIMIT: int := 0x1_0000_0000_0000_0000
  const I64_MIN: int := -0x8000_0000_0000_0000
  const I64_LIMIT: int := 0x8000_0000_0000_0000

  /** Rust `u64`: token amounts and the period count. */
  type U64 = x: int | 0 <= x < U64_LIMIT

  /** Rust `i64`: Unix timestamps. */
  type I64 = x: int | I64_MIN <= x < I64_LIMIT

  /** The outcome of a computation that may hit a failed integrity check
      (a `.unwrap()` of a `None` in the program). */
  datatype Option<+T> = None | Some(value: T)

  /** `a.checked_sub(b)` on `u64`: defined exactly when it does not underflow,
      and then the partial inverse of addition. */
  function CheckedSub(a: U64, b: U64): (r: Option<U64>)
    ensures r.Some? <==> b <= a
    ensures r.Some? ==> r.value + b == a
  {
    if b <= a then Some(a - b) else None
  }

  /** `std::cmp::min` on `u64`. */
  function Min(a: U64, b: U64): (r: U64)
    ensures r <= a && r <= b
    ensures r == a || r == b
  {
    if a <= b then a else b
  }

  /** Cancelling a positive factor from a strict inequality. */
  lemma MulCancelLess(a: int, b: int, d: int)
    requires d > 0
    requires a * d < b * d
    ensures a < b
  {
  }

  /** Floor division lands on the largest multiple not above the dividend. */
  lemma FloorDivBracket(a: int, d: int)
    requires d > 0
    ensures (a / d) * d <= a < (a / d + 1) * d
    ensures a >= 0 ==> a / d >= 0
  {
  }

  /** Floor division is determined by the two inequalities that bracket it. */
  lemma FloorDivUnique(a: int, d: int, k: int)
    requires d > 0
    requires k * d <= a < (k + 1) * d
    ensures a / d == k
  {
    var q := a / d;
    MulCancelLess(k, q + 1, d);
    MulCancelLess(q, k + 1, d);
  }

  /** Floor division by a positive divisor is monotone in the dividend. */
  lemma FloorDivMonotone(a: int, b: int, d: int)
    requires a <= b
    requires d > 0
    ensures a / d <= b / d
  {
    MulCancelLess(a / d, b / d + 1, d);
  }

  /** A dividend below `m` divisors has a quotient below `m`. */
  lemma FloorDivBelow(a: int, d: int, m: int)
    requires d > 0
    requires a < m * d
    ensures a / d < m
  {
    MulCancelLess(a / d, m, d);
  }

  /** Multiplying both sides of `a <= b` by a non-negative factor. */
  lemma MulMonotone(a: int, b: int, c: int)
    requires a <= b
    requires c >= 0
    ensures a * c <= b * c
  {
  }

  /** A share `k / d` of an amount `n`, rounded down, with `k < d`, is below
      `n` (unless `n` is zero, when it is zero). */
  lemma ShareBelowWhole(k: int, d: int, n: int)
    requires 0 <= k < d
    requires n >= 0
    ensures 0 <= k * n / d <= n
    ensures n > 0 ==> k * n / d < n
  {
    MulMonotone(0, k, n);
    if n > 0 {
      assert k * n < d * n;
      FloorDivBelow(k * n, d, n);
    } else {
      assert k * n == 0;
    }
  }

  /** Multiplying both sides of `a < b` by a positive factor. */
  lemma MulStrictMonotone(a: int, b: int, c: int)
    requires a < b
    requires c > 0
    ensures a * c < b * c
  {
  }

  /** Cancelling a positive factor from a non-strict inequality. */
  lemma MulCancelLeq(a: int, b: int, d: int)
    requires d > 0
    requires a * d <= b * d
    ensures a <= b
  {
    assert a * d < (b + 1) * d;
    MulCancelLess(a, b + 1, d);
  }

  /** Two roundings down in a row stay below the exact ratio: if `r <= k * n / d`
      and `k <= e * d / s`, then `r <= e * n / s`. */
  lemma RoundedShareBelowExact(r: int, k: int, e: int, d: int, n: int, s: int)
    requires d > 0 && s > 0 && n >= 0
    requires r * d <= k * n
    requires k * s <= e * d
    ensures r * s <= e * n
  {
    MulMonotone(r * d, k * n, s);
    MulMonotone(k * s, e * d, n);
    assert (r * s) * d <= (e * n) * d by {
      assert (r * s) * d == (r * d) * s;
      assert (k * n) * s == (k * s) * n;
      assert (e * d) * n == (e * n) * d;
    }
    MulCancelLeq(r * s, e * n, d);
  }

  /** Two roundings down in a row lose less than one step of each: if
      `r + 1 > k * n / d` and `k + 1 > e / s`, then
      `(r + 1) * d * s > (e - s) * n`. */
  lemma RoundedShareLag(r: int, k: int, e: int, d: int, n: int, s: int)
    requires d > 0 && s > 0 && n >= 0
    requires k * n < (r + 1) * d
    requires e < (k + 1) * s
    ensures (r + 1) * d * s > (e - s) * n
  {
    assert e - s < k * s;
    MulMonotone(e - s, k * s, n);
    assert (k * s) * n == (k * n) * s;
    assert (k * n) * s < ((r + 1) * d) * s;
  }
}

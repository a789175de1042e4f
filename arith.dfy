/** Facts about multiplication, Euclidean division and remainder by a positive
    scale, which the clock and the message cursor are built from. */
module Arith {

  /** Euclidean division by `n` of a count below `k * n` leaves a quotient
      below `k`. */
  lemma DivMod(t: int, n: int, k: int)
    requires 0 < n && 0 <= t < k * n
    ensures t == (t / n) * n + t % n && 0 <= t % n < n
    ensures 0 <= t / n < k
  {
    if t / n >= k {
      MulMonotone(k, t / n, n);
    }
    if t / n < 0 {
      MulMonotone(t / n, -1, n);
    }
  }

  lemma {:induction false} MulMonotone(a: int, b: int, n: int)
    requires a <= b && 0 <= n
    ensures a * n <= b * n
    decreases b - a
  {
    if a < b {
      MulMonotone(a + 1, b, n);
      assert (a + 1) * n == a * n + n;
    }
  }

  /** Splitting a count at a scale `n` preserves order: comparing `x*n + r1` with
      `y*n + r2` is comparing (x, r1) with (y, r2) lexicographically. */
  lemma ScaledOrder(x: int, r1: int, y: int, r2: int, n: int)
    requires 0 < n && 0 <= r1 < n && 0 <= r2 < n
    ensures x * n + r1 < y * n + r2 <==> x < y || (x == y && r1 < r2)
    ensures x * n + r1 == y * n + r2 <==> x == y && r1 == r2
  {
    if x < y {
      MulMonotone(x + 1, y, n);
      assert (x + 1) * n == x * n + n;
    } else if y < x {
      MulMonotone(y + 1, x, n);
      assert (y + 1) * n == y * n + n;
    }
  }

  /** Quotient and remainder are unique: writing `x` as `q * n + r` with
      `0 <= r < n` gives the Euclidean quotient and remainder. */
  lemma DivModUnique(x: int, q: int, r: int, n: int)
    requires 0 < n && 0 <= r < n && x == q * n + r
    ensures x / n == q && x % n == r
  {
    ScaledOrder(q, r, x / n, x % n, n);
  }
}

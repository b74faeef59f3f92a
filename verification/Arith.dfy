/** Facts about Euclidean division and remainder that the clocks and the
    framebuffer share.  Every operand the drivers divide is non-negative, so
    this is also C's unsigned division. */
module Arith {

  /** Division rounded up, the form `(a + d - 1) / d` that the drivers write out. */
  function CeilDiv(a: int, d: int): int
    requires d > 0
  {
    (a + d - 1) / d
  }

  lemma MulMonotone(a: int, b: int, c: int)
    requires a <= b && c >= 0
    ensures a * c <= b * c
  {
  }

  /** The quotient and the remainder are the only pair that fits. */
  lemma DivUnique(a: int, d: int, q: int)
    requires d > 0 && q * d <= a < q * d + d
    ensures a / d == q && a % d == a - q * d
  {
    var p := a / d;
    assert a == p * d + a % d;
    if p < q {
      MulMonotone(p + 1, q, d);
    } else if q < p {
      MulMonotone(q + 1, p, d);
    }
  }

  /** `a / d` is the greatest k with k * d <= a. */
  lemma FloorGalois(a: int, d: int, k: int)
    requires d > 0
    ensures k <= a / d <==> k * d <= a
  {
    var q := a / d;
    assert a == q * d + a % d;
    if k <= q {
      MulMonotone(k, q, d);
    } else {
      MulMonotone(q + 1, k, d);
    }
  }

  /** `CeilDiv(a, d)` is the least k with a <= k * d. */
  lemma CeilGalois(a: int, d: int, k: int)
    requires d > 0
    ensures CeilDiv(a, d) <= k <==> a <= k * d
  {
    FloorGalois(a + d - 1, d, k + 1);
    assert (k + 1) * d == k * d + d;
  }

  /** The rounded-up quotient brackets its dividend. */
  lemma CeilBounds(a: int, d: int)
    requires d > 0
    ensures a <= CeilDiv(a, d) * d < a + d
  {
  }

  /** Rounding up commutes with taking away whole divisors. */
  lemma CeilShift(a: int, d: int, k: int)
    requires d > 0
    ensures CeilDiv(a - k * d, d) == CeilDiv(a, d) - k
  {
    CeilGalois(a, d, CeilDiv(a, d));
    CeilGalois(a, d, CeilDiv(a, d) - 1);
    var c := CeilDiv(a, d);
    assert (c - k) * d == c * d - k * d;
    assert (c - 1) * d == c * d - d;
    assert (c - k - 1) * d == c * d - k * d - d;
    CeilGalois(a - k * d, d, c - k);
    CeilGalois(a - k * d, d, c - k - 1);
  }

  /** Rounding up and down differ by one unless the division is exact. */
  lemma CeilOrFloor(a: int, d: int)
    requires d > 0
    ensures CeilDiv(a, d) == a / d + (if a % d == 0 then 0 else 1)
  {
    var q := a / d;
    assert a == q * d + a % d;
    if a % d == 0 {
      DivUnique(a + d - 1, d, q);
    } else {
      assert (q + 1) * d == q * d + d;
      DivUnique(a + d - 1, d, q + 1);
    }
  }

  /** Counting on from a remainder loses nothing: the carries add up. */
  lemma CountOn(n: int, x: int, d: int)
    requires d > 0
    ensures (n % d + x) / d == (n + x) / d - n / d
    ensures (n % d + x) % d == (n + x) % d
  {
    var q, s := n / d, (n + x) / d;
    assert n == q * d + n % d;
    assert n + x == s * d + (n + x) % d;
    assert (s - q) * d == s * d - q * d;
    DivUnique(n % d + x, d, s - q);
  }

  /** Counting x and then y is counting z = x + y. */
  lemma CountTwice(n: int, x: int, y: int, z: int, d: int, r: int)
    requires d > 0 && z == x + y && r == (n + x) % d
    ensures (r + y) % d == (n + z) % d
    ensures (n + x) / d + (r + y) / d == (n + z) / d
  {
    CountOn(n + x, y, d);
  }

  /** Adding whole divisors does not change the remainder. */
  lemma ModAddMultiple(a: int, d: int, k: int)
    requires d > 0
    ensures (a + k * d) % d == a % d && (a + k * d) / d == a / d + k
  {
    var q := a / d;
    assert a == q * d + a % d;
    assert (q + k) * d == q * d + k * d;
    DivUnique(a + k * d, d, q + k);
  }

  /** Taking one divisor away, as the loops that reduce a position do. */
  lemma ModDrop(a: int, d: int)
    requires d > 0
    ensures (a - d) % d == a % d
  {
    assert a + -1 * d == a - d;
    ModAddMultiple(a, d, -1);
  }

  /** A small remainder is the number itself. */
  lemma ModSmall(a: int, d: int)
    requires 0 <= a < d
    ensures a % d == a
  {
  }

  /** Two counts that wrap still differ by their true difference, if it is small. */
  lemma WrappedDifference(a: int, b: int, d: int)
    requires d > 0 && 0 <= a - b < d
    ensures (a % d - b % d) % d == a - b
    ensures (b % d + (a - b)) % d == a % d
  {
    var q, r := a / d, b / d;
    assert a == q * d + a % d && b == r * d + b % d;
    assert a % d - b % d == (a - b) + (r - q) * d;
    ModAddMultiple(a - b, d, r - q);
    ModSmall(a - b, d);
    CountOn(b, a - b, d);
  }

  /** A remainder may be taken first by any multiple of the divisor. */
  lemma ModOfMod(n: int, b: int, p: int)
    requires p > 0 && b > 0 && b % p == 0
    ensures (n % b) % p == n % p
  {
    var k, q := b / p, n / b;
    assert b == k * p;
    assert n == q * b + n % b;
    assert q * b == (q * k) * p by { MulAssoc(q, k, p); }
    ModAddMultiple(n % b, p, q * k);
  }

  lemma MulAssoc(a: int, b: int, c: int)
    ensures a * (b * c) == (a * b) * c
  {
  }

  /** Dividing out a unit and wrapping on a ring may be done in either order. */
  lemma DivOfMod(n: int, k: int, h: int)
    requires k > 0 && h > 0 && k * h > 0
    ensures (n % (k * h)) / h == (n / h) % k
  {
    var b := k * h;
    var q, r := n / b, n % b;
    assert n == q * b + r;
    MulAssoc(q, k, h);
    ModAddMultiple(r, h, q * k);
    assert n / h == r / h + q * k;
    FloorGalois(r, h, 0);
    FloorGalois(r, h, k);
    assert 0 <= r / h < k;
    DivUnique(n / h, k, q);
  }
}

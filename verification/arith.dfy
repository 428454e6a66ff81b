/**
 * Integer helpers shared by the price math: powers of two and ten, and the
 * facts about floor division that the proofs need.  Every division in the
 * modelled BigInt code has non-negative operands, where JavaScript's
 * truncating `/` and Dafny's Euclidean `/` agree.
 */
module Arith {

  function Pow2(k: nat): (r: nat)
    ensures r >= 1
  {
    if k == 0 then 1 else 2 * Pow2(k - 1)
  }

  function Pow10(k: nat): (r: nat)
    ensures r >= 1
  {
    if k == 0 then 1 else 10 * Pow10(k - 1)
  }

  /**
   * 2^96, the Q64.96 scale of a sqrt price.  It is kept symbolic, as a
   * power of two, so that the solver never multiplies 30-digit literals
   * inside non-linear goals.
   */
  const Q96: nat := Pow2(96)

  /** 2^192, the scale of a squared sqrt price. */
  const Q192: nat := Pow2(192)

  /** 10^18, the scale of an E18 price. */
  const E18: nat := Pow10(18)

  lemma {:induction false} Pow2Add(a: nat, b: nat)
    ensures Pow2(a + b) == Pow2(a) * Pow2(b)
  {
    if a > 0 {
      Pow2Add(a - 1, b);
      assert Pow2(a + b) == 2 * Pow2(a - 1 + b);
    }
  }

  lemma Pow2Of64()
    ensures Pow2(64) == 0x1_0000_0000_0000_0000
  {
    Pow2Of32();
    Pow2Add(32, 32);
  }

  lemma Pow2Of32()
    ensures Pow2(32) == 0x1_0000_0000
  {
    assert Pow2(16) == 0x1_0000 by { Pow2Add(8, 8); }
    Pow2Add(16, 16);
  }

  lemma Q192Square()
    ensures Q192 == Q96 * Q96
  {
    Pow2Add(96, 96);
  }

  lemma {:induction false} Pow10Add(a: nat, b: nat)
    ensures Pow10(a + b) == Pow10(a) * Pow10(b)
  {
    if a > 0 {
      Pow10Add(a - 1, b);
      assert Pow10(a + b) == 10 * Pow10(a - 1 + b);
    }
  }

  /** The floor quotient is the largest q with q * d <= n. */
  lemma DivBounds(n: int, d: int)
    requires d > 0
    ensures (n / d) * d <= n < (n / d) * d + d
  {
  }

  /** Anything whose multiple by d stays within n is at most n / d. */
  lemma LeDiv(c: int, n: int, d: int)
    requires d > 0 && c * d <= n
    ensures c <= n / d
  {
    DivBounds(n, d);
    if c > n / d {
      assert c >= n / d + 1;
      MulLeRight(n / d + 1, c, d);
    }
  }

  /** Anything whose multiple by d exceeds n is above n / d. */
  lemma DivLt(c: int, n: int, d: int)
    requires d > 0 && n < c * d
    ensures n / d < c
  {
    DivBounds(n, d);
    if n / d >= c {
      MulLeRight(c, n / d, d);
    }
  }

  lemma MulLeRight(a: int, b: int, d: int)
    requires a <= b && d >= 0
    ensures a * d <= b * d
  {
    assert b * d - a * d == (b - a) * d;
  }

  lemma DivMonotone(m: int, n: int, d: int)
    requires d > 0 && m <= n
    ensures m / d <= n / d
  {
    DivBounds(m, d);
    LeDiv(m / d, n, d);
  }

  /** A larger divisor gives a smaller quotient of a non-negative number. */
  lemma DivAntitone(n: nat, d: int, e: int)
    requires 0 < d <= e
    ensures n / e <= n / d
  {
    DivBounds(n, e);
    MulLeRight(d, e, n / e);
    assert (n / e) * d <= (n / e) * e;
    LeDiv(n / e, n, d);
  }

  /** A common positive factor cancels inside a floor quotient. */
  lemma DivCancel(a: nat, b: int, k: int)
    requires b > 0 && k > 0
    ensures (a * k) / (b * k) == a / b
  {
    var q := a / b;
    DivBounds(a, b);
    assert q * (b * k) == (q * b) * k;
    MulLeRight(q * b, a, k);
    LeDiv(q, a * k, b * k);
    assert (q + 1) * b > a;
    assert (q + 1) * (b * k) == ((q + 1) * b) * k;
    MulLtRight(a, (q + 1) * b, k);
    DivLt(q + 1, a * k, b * k);
  }

  lemma MulLtRight(a: int, b: int, d: int)
    requires a < b && d > 0
    ensures a * d < b * d
  {
    assert b * d - a * d == (b - a) * d;
  }

  /** Squaring is monotone on non-negative integers, both ways. */
  lemma SquareLe(a: nat, b: nat)
    requires a <= b
    ensures a * a <= b * b
  {
    MulLeRight(a, b, a);
    MulLeRight(a, b, b);
  }

  lemma SquareLtInv(a: nat, b: nat)
    requires a * a < b * b
    ensures a < b
  {
    if a >= b { SquareLe(b, a); }
  }

  /** A product of positive numbers is positive. */
  lemma SquareAboveDouble(h: nat)
    ensures 2 * h + 2 < (h + 2) * (h + 2)
  {
    MulNat(h, h + 2);
    assert (h + 2) * (h + 2) == h * (h + 2) + 2 * (h + 2);
  }

  lemma CeilFromAbove(s: int, d: int, n: int, b: int, t: int)
    requires d > 0 && t == b * d && (s - 1) * d < n <= t
    ensures s <= b
  {
    CeilAtMost(s, d, n, b);
  }

  lemma CeilFromBelow(s: int, d: int, n: int, b: int, t: int)
    requires d >= 2 && t == b * d && n <= s * d && t - 1 <= n
    ensures s >= b
  {
    MulSucc(b - 1, d);
    CeilAtLeast(s, d, n, b);
  }

  lemma ScaleAcross(a: nat, b: nat, k: int)
    requires k >= 1 && a * k <= b
    ensures a <= b * k
  {
    MulLeRight(1, k, a);
    MulLeRight(1, k, b);
  }

  lemma MulPos(a: int, b: int)
    requires a > 0 && b > 0
    ensures a * b > 0
  {
  }

  /** A product of naturals is a natural. */
  lemma MulNat(a: nat, b: nat)
    ensures a * b >= 0
  {
  }

  /** A product of four naturals is a natural. */
  lemma MulNat4(a: nat, b: nat, c: nat, e: nat)
    ensures a * b * c * e >= 0
  {
  }

  /** (q + 1) * d == q * d + d */
  lemma MulSucc(q: int, d: int)
    ensures (q + 1) * d == q * d + d
  {
  }

  /** a * b * c == (a * c) * b */
  lemma Regroup3(a: int, b: int, c: int)
    ensures a * b * c == (a * c) * b
  {
  }

  /** Scaling both sides of p <= p' by three naturals keeps the order. */
  lemma MulLe3(p: nat, p': nat, a: nat, b: nat, c: nat)
    requires p <= p'
    ensures p * a * b * c <= p' * a * b * c
  {
    MulLeRight(p, p', a);
    MulLeRight(p * a, p' * a, b);
    MulLeRight(p * a * b, p' * a * b, c);
  }

  /** The arithmetic-geometric mean inequality: 4ab <= (a + b)^2. */
  lemma AmGm(a: int, b: int)
    ensures 4 * (a * b) <= (a + b) * (a + b)
  {
    assert (a + b) * (a + b) - 4 * (a * b) == (a - b) * (a - b);
  }

  /** t^2 < (t + 1)^2 */
  lemma SquareLtSucc(t: nat)
    ensures t * t < (t + 1) * (t + 1)
  {
    assert (t + 1) * (t + 1) == t * t + 2 * t + 1;
  }

  /**
   * Any s with s^2 * d <= n lies at or below any s' with n' < (s'+1)^2 * d
   * once n <= n'; with n == n' this makes the bracketing s unique.
   */
  lemma RootBoundsMonotone(n: int, n': int, d: nat, s: nat, s': nat)
    requires d > 0 && n <= n'
    requires s * s * d <= n
    requires n' < (s' + 1) * (s' + 1) * d
    ensures s <= s'
  {
    if s > s' {
      SquareLe(s' + 1, s);
      MulLeRight((s' + 1) * (s' + 1), s * s, d);
    }
  }

  /** A floor quotient of a natural by a positive number is a natural. */
  lemma DivNat(n: int, d: int)
    requires n >= 0 && d > 0
    ensures n / d >= 0
  {
    DivBounds(n, d);
    LeDiv(0, n, d);
  }

  /** The quotient plus one for a non-zero remainder is the ceiling of n / d. */
  lemma CeilDivBounds(n: nat, d: nat)
    requires d > 0
    ensures var s := n / d + (if n % d == 0 then 0 else 1);
            (s - 1) * d < n <= s * d
  {
    var q := n / d;
    DivBounds(n, d);
    MulSucc(q, d);
    assert n == q * d + n % d;
    MulSucc(q - 1, d);
  }

  /** A ceiling s of n / d is at most any b with n <= b * d. */
  lemma CeilAtMost(s: int, d: int, n: int, b: int)
    requires d > 0 && (s - 1) * d < n <= b * d
    ensures s <= b
  {
    if s > b {
      MulLeRight(b, s - 1, d);
    }
  }

  /** A ceiling s of n / d is at least any b with (b - 1) * d < n. */
  lemma CeilAtLeast(s: int, d: int, n: int, b: int)
    requires d > 0 && n <= s * d && (b - 1) * d < n
    ensures s >= b
  {
    if s < b {
      MulLeRight(s, b - 1, d);
    }
  }

  /** (t^2 - 1) / t == t - 1 */
  lemma PredSquareDiv(t: int)
    requires t >= 1
    ensures (t * t - 1) / t == t - 1
  {
    MulSucc(t - 1, t);
    LeDiv(t - 1, t * t - 1, t);
    DivLt(t, t * t - 1, t);
  }

  /** Adding a multiple of a to the dividend adds the multiplier to the quotient. */
  lemma DivAddMul(x: int, m: int, a: int)
    requires a > 0
    ensures (x * a + m) / a == x + m / a
  {
    var q := m / a;
    DivBounds(m, a);
    assert (x + q) * a == x * a + q * a;
    MulSucc(x + q, a);
    LeDiv(x + q, x * a + m, a);
    DivLt(x + q + 1, x * a + m, a);
  }

  /** Parity ignores an even summand. */
  lemma ModTwoAddEven(k: int, y: int)
    ensures (2 * k + y) % 2 == y % 2
  {
  }

  /**
   * BigInt division as JavaScript performs it: the quotient is truncated
   * toward zero, so a negative dividend rounds up rather than down.
   */
  function TruncDiv(a: int, b: int): (q: int)
    requires b > 0
    ensures a >= 0 ==> q == a / b
    ensures a < 0 ==> q <= 0 && -q * b <= -a < (-q + 1) * b
  {
    if a >= 0 then a / b
    else
      DivBounds(-a, b);
      MulSucc(-a / b, b);
      -((-a) / b)
  }

  /** Truncation is symmetric about zero, unlike floor division. */
  lemma TruncDivNegate(a: int, b: int)
    requires b > 0
    ensures TruncDiv(-a, b) == -TruncDiv(a, b)
  {
    if a > 0 {
      assert TruncDiv(-a, b) == -(a / b);
    } else if a < 0 {
      assert TruncDiv(a, b) == -((-a) / b);
    }
  }

  /** n1 / d1 <= n2 / d2 whenever n1 * d2 <= n2 * d1 (cross-multiplied). */
  lemma DivCrossLe(n1: int, d1: int, n2: int, d2: int)
    requires d1 > 0 && d2 > 0 && n1 * d2 <= n2 * d1
    ensures n1 / d1 <= n2 / d2
  {
    var q := n1 / d1;
    DivBounds(n1, d1);
    MulLeRight(q * d1, n1, d2);
    assert q * d1 * d2 == (q * d2) * d1;
    assert (q * d2) * d1 <= n2 * d1;
    if q * d2 > n2 {
      MulLtRight(n2, q * d2, d1);
    }
    LeDiv(q, n2, d2);
  }
}

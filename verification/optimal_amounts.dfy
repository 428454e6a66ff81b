/**
 * The arbitrage bot's sizing math: a floor integer square root, the codec
 * between an E18 price and a Q64.96 sqrt price, the two fee-free
 * single-tick trade sizings (section 6.2.3 of the Uniswap v3 Core
 * whitepaper: moving the sqrt price by d moves L * d of token1 and
 * L * (1/sqrtLow - 1/sqrtHigh) of token0), and the choice of direction.
 * All BigInt divisions here have non-negative operands, so Dafny's `/`
 * is the source's `/`; a BigInt division by zero becomes a
 * DivisionByZero error and a thrown ordering check an OrderingViolation.
 */
module OptimalAmounts {
  import opened Arith
  import opened Wrappers

  /** Token decimals fixed by the sizing routine (USDC and yUSDC). */
  const Dec0: nat := 6
  const Dec1: nat := 6

  // ---------------------------------------------------------------------
  // Floor square root
  // ---------------------------------------------------------------------

  /**
   * Reference floor square root, by halving the argument: the unique r
   * with r^2 <= n < (r+1)^2.
   */
  function ISqrt(n: nat): (r: nat)
    ensures r * r <= n < (r + 1) * (r + 1)
  {
    if n < 2 then n
    else
      var s := ISqrt(n / 4);
      ISqrtStep(n, s);
      if (2 * s + 1) * (2 * s + 1) <= n then 2 * s + 1 else 2 * s
  }

  lemma ISqrtStep(n: nat, s: nat)
    requires s * s <= n / 4 < (s + 1) * (s + 1)
    ensures (2 * s) * (2 * s) <= n < (2 * s + 2) * (2 * s + 2)
  {
    DivBounds(n, 4);
    assert (2 * s) * (2 * s) == 4 * (s * s);
    assert (2 * s + 2) * (2 * s + 2) == 4 * ((s + 1) * (s + 1));
  }

  /**
   * The integer AM-GM step behind Newton's method: if x * (q + 1) > n
   * >= s^2 then x + q >= 2s.
   */
  lemma NewtonStepBound(n: nat, x: nat, q: nat, s: nat)
    requires x >= 1 && s * s <= n && n < q * x + x
    ensures 2 * s <= x + q
  {
    if x + q + 1 <= 2 * s {
      var b := q + 1;
      assert x * b == q * x + x;
      AmGm(x, b);
      SquareLe(x + b, 2 * s);
      assert false;
    }
  }

  /**
   * One Newton step never drops below the floor root.
   */
  lemma NewtonAboveRoot(n: nat, x: nat)
    requires x >= 1
    ensures (x + n / x) / 2 >= ISqrt(n)
  {
    DivBounds(n, x);
    NewtonStepBound(n, x, n / x, ISqrt(n));
  }

  /**
   * Above the floor root a Newton step strictly descends.
   */
  lemma NewtonDescends(n: nat, x: nat)
    requires x > ISqrt(n)
    ensures (x + n / x) / 2 < x
  {
    SquareLe(ISqrt(n) + 1, x);
    DivLt(x, n, x);
  }

  /**
   * For n >= 2 the floor root is positive and at most n / 2 + 1, the
   * source's starting guess.
   */
  lemma InitialGuessAbove(n: nat)
    requires n >= 2
    ensures 1 <= ISqrt(n) <= n / 2 + 1
  {
    var s, h := ISqrt(n), n / 2;
    assert n <= 2 * h + 1;
    SquareAboveDouble(h);
    SquareLtInv(s, h + 2);
    assert 1 * 1 < (s + 1) * (s + 1);
    SquareLtInv(1, s + 1);
  }

  /**
   * Newton's method exactly as the source writes it.  The starting guess
   * (n >> 1) + 1 equals n when n == 2, so the loop never runs and 2 is
   * returned although the floor root of 2 is 1; for every other n the
   * result is the floor root.
   */
  method SqrtBig(n: nat) returns (r: nat)
    ensures n != 2 ==> r == ISqrt(n)
    ensures n == 2 ==> r == 2
  {
    if n < 2 {
      return n;
    }
    InitialGuessAbove(n);
    var x0 := n;
    var x1 := n / 2 + 1;
    while x1 < x0
      invariant 1 <= ISqrt(n) <= x1 && ISqrt(n) <= x0
      invariant n == 2 ==> x0 == 2
      invariant (x0 == n && x1 == n / 2 + 1) || (x0 < n && x1 == (x0 + n / x0) / 2)
      decreases x0
    {
      x0 := x1;
      NewtonAboveRoot(n, x0);
      x1 := (x0 + n / x0) / 2;
    }
    if x0 < n && x0 > ISqrt(n) {
      NewtonDescends(n, x0);
    }
    r := x0;
  }

  /** The floor root of 2 is 1, so SqrtBig(2) == 2 is off by one. */
  lemma FloorRootOfTwo()
    ensures ISqrt(2) == 1
  {
    assert ISqrt(2 / 4) == 0;
  }

  /**
   * Newton's method started from the first Newton step of x0 = n, that
   * is (n + 1) / 2: the floor root for every n.
   */
  method SqrtBigCorrected(n: nat) returns (r: nat)
    ensures r == ISqrt(n)
  {
    if n < 2 {
      return n;
    }
    var x0 := n;
    var x1 := (n + 1) / 2;
    assert n / n == 1;
    NewtonAboveRoot(n, x0);
    InitialGuessAbove(n);
    while x1 < x0
      invariant 1 <= ISqrt(n) <= x0 && ISqrt(n) <= x1
      invariant x1 == (x0 + n / x0) / 2
      decreases x0
    {
      x0 := x1;
      x1 := (x0 + n / x0) / 2;
      NewtonAboveRoot(n, x0);
    }
    if x0 > ISqrt(n) {
      NewtonDescends(n, x0);
    }
    r := x0;
  }

  // ---------------------------------------------------------------------
  // E18 price <-> Q64.96 sqrt price
  // ---------------------------------------------------------------------

  /**
   * The floor root of floor(n / d) is the largest s with s^2 * d <= n.
   */
  lemma RootOfQuotientBounds(n: nat, d: nat)
    requires d > 0
    ensures var s := ISqrt(n / d); s * s * d <= n < (s + 1) * (s + 1) * d
  {
    var q, s := n / d, ISqrt(n / d);
    var lo, hi := s * s, (s + 1) * (s + 1);
    assert lo <= q < hi;
    DivBounds(n, d);
    MulLeRight(lo, q, d);
    MulLeRight(q + 1, hi, d);
    MulSucc(q, d);
  }

  /**
   * 10^(dec0 - dec1) when that exponent is non-negative, else 1.
   */
  function UpScale(dec0: nat, dec1: nat): (r: nat)
    ensures r >= 1
  {
    if dec0 >= dec1 then Pow10(dec0 - dec1) else 1
  }

  /**
   * 10^(dec1 - dec0) when dec0 - dec1 is negative, else 1.
   */
  function DownScale(dec0: nat, dec1: nat): (r: nat)
    ensures r >= 1
  {
    if dec0 >= dec1 then 1 else Pow10(dec1 - dec0)
  }

  /**
   * The two factors scale by 10^dec0 / 10^dec1 in lowest terms: one of
   * them is 1, and swapping the decimals swaps the factors.
   */
  lemma DecimalScales(dec0: nat, dec1: nat)
    ensures UpScale(dec0, dec1) * Pow10(dec1) == DownScale(dec0, dec1) * Pow10(dec0)
    ensures UpScale(dec0, dec1) == 1 || DownScale(dec0, dec1) == 1
    ensures UpScale(dec0, dec1) == DownScale(dec1, dec0)
  {
    if dec0 >= dec1 {
      Pow10Add(dec0 - dec1, dec1);
    } else {
      Pow10Add(dec1 - dec0, dec0);
    }
  }

  /**
   * The source's sqrt price of an E18 price: the largest s with
   * s^2 * 10^18 <= price * 10^(dec0 - dec1) * 2^192 (the decimal factor
   * multiplies the price when dec0 >= dec1 and divides it otherwise).
   */
  function SqrtPriceX96FromPriceE18(priceE18: nat, dec0: nat, dec1: nat): (s: nat)
    ensures var n, d := priceE18 * UpScale(dec0, dec1) * Q96 * Q96, DownScale(dec0, dec1) * E18;
            s * s * d <= n < (s + 1) * (s + 1) * d
  {
    var n: int := priceE18 * UpScale(dec0, dec1) * Q96 * Q96;
    var d: int := DownScale(dec0, dec1) * E18;
    assert n >= 0 by { MulNat4(priceE18, UpScale(dec0, dec1), Q96, Q96); }
    assert d > 0 by { MulPos(DownScale(dec0, dec1), E18); }
    RootOfQuotientBounds(n, d);
    ISqrt(n / d)
  }

  /**
   * The E18 price encoded by a sqrt price: s^2 * 10^(dec0 - dec1) * 10^18
   * / 2^192, rounded down.
   */
  function PriceFromSqrt(s: nat, dec0: nat, dec1: nat): (p: nat)
    ensures var d := Q96 * Q96 * DownScale(dec0, dec1);
            p * d <= s * s * UpScale(dec0, dec1) * E18 < p * d + d
  {
    var up, down := UpScale(dec0, dec1), DownScale(dec0, dec1);
    var n, d := s * s * up * E18, Q96 * Q96 * down;
    assert n >= 0 by { MulNat4(s, s, up, E18); }
    assert d > 0 by {
      MulPos(Q96, Q96);
      MulPos(Q96 * Q96, down);
    }
    DivBounds(n, d);
    n / d
  }

  /**
   * The inverse of PriceFromSqrt: the decimal factor 10^(dec0 - dec1)
   * divides the price instead of multiplying it.
   */
  function SqrtPriceX96FromPriceE18Corrected(priceE18: nat, dec0: nat, dec1: nat): (s: nat)
    ensures var n, d := priceE18 * DownScale(dec0, dec1) * Q96 * Q96, UpScale(dec0, dec1) * E18;
            s * s * d <= n < (s + 1) * (s + 1) * d
  {
    var n: int := priceE18 * DownScale(dec0, dec1) * Q96 * Q96;
    var d: int := UpScale(dec0, dec1) * E18;
    assert n >= 0 by { MulNat4(priceE18, DownScale(dec0, dec1), Q96, Q96); }
    assert d > 0 by { MulPos(UpScale(dec0, dec1), E18); }
    RootOfQuotientBounds(n, d);
    ISqrt(n / d)
  }

  /**
   * The sqrt price is the only s that brackets the scaled price.
   */
  lemma SqrtPriceX96Unique(p: nat, dec0: nat, dec1: nat, n: nat, d: nat, t: nat)
    requires n == p * UpScale(dec0, dec1) * Q96 * Q96 && d == DownScale(dec0, dec1) * E18
    requires t * t * d <= n < (t + 1) * (t + 1) * d
    ensures SqrtPriceX96FromPriceE18(p, dec0, dec1) == t
  {
    var s := SqrtPriceX96FromPriceE18(p, dec0, dec1);
    assert d > 0 by { MulPos(DownScale(dec0, dec1), E18); }
    RootBoundsMonotone(n, n, d, s, t);
    RootBoundsMonotone(n, n, d, t, s);
  }

  /**
   * With equal decimals (the bot's case) the two conversions coincide.
   */
  lemma CorrectedAgreesOnEqualDecimals(priceE18: nat, dec: nat)
    ensures SqrtPriceX96FromPriceE18Corrected(priceE18, dec, dec)
         == SqrtPriceX96FromPriceE18(priceE18, dec, dec)
  {
  }

  /**
   * A higher price never gives a lower sqrt price.
   */
  lemma SqrtPriceMonotone(p: nat, p': nat, dec0: nat, dec1: nat)
    requires p <= p'
    ensures SqrtPriceX96FromPriceE18(p, dec0, dec1) <= SqrtPriceX96FromPriceE18(p', dec0, dec1)
  {
    var up, d := UpScale(dec0, dec1), DownScale(dec0, dec1) * E18;
    var s, s' := SqrtPriceX96FromPriceE18(p, dec0, dec1), SqrtPriceX96FromPriceE18(p', dec0, dec1);
    var n, n' := p * up * Q96 * Q96, p' * up * Q96 * Q96;
    assert s * s * d <= n;
    assert n' < (s' + 1) * (s' + 1) * d;
    assert d > 0 by { MulPos(DownScale(dec0, dec1), E18); }
    assert n <= n' by { MulLe3(p, p', up, Q96, Q96); }
    RootBoundsMonotone(n, n', d, s, s');
  }

  /** The corrected conversion is monotone as well. */
  lemma SqrtPriceCorrectedMonotone(p: nat, p': nat, dec0: nat, dec1: nat)
    requires p <= p'
    ensures SqrtPriceX96FromPriceE18Corrected(p, dec0, dec1) <= SqrtPriceX96FromPriceE18Corrected(p', dec0, dec1)
  {
    var down, d := DownScale(dec0, dec1), UpScale(dec0, dec1) * E18;
    var s, s' := SqrtPriceX96FromPriceE18Corrected(p, dec0, dec1), SqrtPriceX96FromPriceE18Corrected(p', dec0, dec1);
    var n, n' := p * down * Q96 * Q96, p' * down * Q96 * Q96;
    assert s * s * d <= n;
    assert n' < (s' + 1) * (s' + 1) * d;
    assert d > 0 by { MulPos(UpScale(dec0, dec1), E18); }
    assert n <= n' by { MulLe3(p, p', down, Q96, Q96); }
    RootBoundsMonotone(n, n', d, s, s');
  }

  /**
   * If s^2 * up * 10^18 <= p * down * 2^192 then the price rebuilt from s
   * is at most p.
   */
  lemma RebuiltPriceBound(s: nat, p: nat, up: nat, down: nat)
    requires up >= 1 && down >= 1
    requires s * s * (up * E18) <= p * down * Q96 * Q96
    ensures (s * s * up * E18) / (Q96 * Q96 * down) <= p
  {
    RebuiltBound(s, p, up, down, E18, Q96);
  }

  lemma RebuiltBound(s: nat, p: nat, up: nat, down: nat, e: nat, q: nat)
    requires down >= 1 && q >= 1
    requires s * s * (up * e) <= p * down * q * q
    ensures (s * s * up * e) / (q * q * down) <= p
  {
    var n, d := s * s * up * e, q * q * down;
    assert d > 0 by {
      MulPos(q, q);
      MulPos(q * q, down);
    }
    assert n == s * s * (up * e);
    assert p * down * q * q == p * d;
    MulSucc(p, d);
    DivLt(p + 1, n, d);
  }

  /**
   * The round trip through the corrected conversion recovers the price up
   * to the rounding of the root, for every pair of decimals: decoding s
   * never overshoots, and decoding s + 1 never falls short.
   */
  lemma RoundTripCorrected(p: nat, dec0: nat, dec1: nat)
    ensures var s := SqrtPriceX96FromPriceE18Corrected(p, dec0, dec1);
            PriceFromSqrt(s, dec0, dec1) <= p <= PriceFromSqrt(s + 1, dec0, dec1)
  {
    var s := SqrtPriceX96FromPriceE18Corrected(p, dec0, dec1);
    RebuiltPriceBound(s, p, UpScale(dec0, dec1), DownScale(dec0, dec1));
    RebuiltAbove(s + 1, p, UpScale(dec0, dec1), DownScale(dec0, dec1), E18, Q96);
  }

  /** A price strictly below the rebuilt numerator is at most the decoded price. */
  lemma RebuiltAbove(t: nat, p: nat, up: nat, down: nat, e: nat, q: nat)
    requires down >= 1 && q >= 1
    requires p * down * q * q < t * t * (up * e)
    ensures p <= (t * t * up * e) / (q * q * down)
  {
    var n, d := t * t * up * e, q * q * down;
    assert d > 0 by {
      MulPos(q, q);
      MulPos(q * q, down);
    }
    assert n == t * t * (up * e);
    assert p * down * q * q == p * d;
    LeDiv(p, n, d);
  }

  /**
   * With equal decimals and a real price of at most 10^20, decoding the
   * corrected sqrt price recovers the E18 price to within one unit.
   */
  lemma RoundTripWithinOne(p: nat, dec: nat)
    requires p <= E18 * Pow10(20)
    ensures p <= PriceFromSqrt(SqrtPriceX96FromPriceE18Corrected(p, dec, dec), dec, dec) + 1
  {
    var s := SqrtPriceX96FromPriceE18Corrected(p, dec, dec);
    var k := Pow10(10);
    if p >= 1 {
      assert (p - 1) * (Q96 * Q96) < s * s * E18 by {
        assert s * s * E18 <= p * Q96 * Q96 < (s + 1) * (s + 1) * E18 by {
          CorrectedBracket(p, dec, s);
        }
        assert p <= E18 * (k * k) by { Pow10Add(10, 10); }
        Q96AboveScaledE18(k);
        WithinOneAlgebra(p, s, E18, Q96, k);
      }
      PriceAboveFloor(p, s, dec);
    }
  }

  /** A price p whose predecessor lies below s^2 / 2^192 is at most one above the decoded price. */
  lemma PriceAboveFloor(p: int, s: nat, dec: nat)
    requires (p - 1) * (Q96 * Q96) < s * s * E18
    ensures p <= PriceFromSqrt(s, dec, dec) + 1
  {
    var r, d := PriceFromSqrt(s, dec, dec), Q96 * Q96;
    assert s * s * E18 < r * d + d by {
      UnitFloor(r, s, E18, Q96, UpScale(dec, dec), DownScale(dec, dec));
    }
    MulSucc(r, d);
    if p - 1 >= r + 1 {
      MulPos(Q96, Q96);
      MulLeRight(r + 1, p - 1, d);
    }
  }

  /** With unit decimal factors the decoded price's bracket loses them. */
  lemma UnitFloor(r: int, s: int, e: int, q: int, up: int, down: int)
    requires up == 1 && down == 1
    requires s * s * up * e < r * (q * q * down) + q * q * down
    ensures s * s * e < r * (q * q) + q * q
  {
  }

  /** With equal decimals the corrected root brackets p * 2^192 / 10^18. */
  lemma CorrectedBracket(p: nat, dec: nat, s: nat)
    requires s == SqrtPriceX96FromPriceE18Corrected(p, dec, dec)
    ensures s * s * E18 <= p * Q96 * Q96 < (s + 1) * (s + 1) * E18
  {
    UnitScales(p, s, E18, Q96, UpScale(dec, dec), DownScale(dec, dec));
  }

  /** With unit decimal factors the root's bracket loses them. */
  lemma UnitScales(p: int, s: int, e: int, q: int, up: int, down: int)
    requires up == 1 && down == 1
    requires s * s * (up * e) <= p * down * q * q < (s + 1) * (s + 1) * (up * e)
    ensures s * s * e <= p * q * q < (s + 1) * (s + 1) * e
  {
  }

  /** 2^96 >= (2 * 10^10 + 1) * 10^18, the headroom RoundTripWithinOne needs. */
  lemma Q96AboveScaledE18(k: nat)
    requires k == Pow10(10)
    ensures Q96 >= (2 * k + 1) * E18
  {
    Q96Value();
    Pow10Values();
  }

  lemma Q96Value()
    ensures Q96 == 79228162514264337593543950336
  {
    Pow2Of64();
    Pow2Of32();
    Pow2Add(64, 32);
  }

  lemma Pow10Values()
    ensures Pow10(10) == 10000000000 && E18 == 1000000000000000000
  {
    assert Pow10(5) == 100000;
    assert Pow10(10) == 10000000000 by { Pow10Add(5, 5); }
    assert Pow10(8) == 100000000 by { Pow10Add(5, 3); }
    Pow10Add(10, 8);
  }

  /**
   * The step of RoundTripWithinOne over plain variables: when the root s
   * is at most k * q and q leaves room for (2k + 1) * e, the gap between
   * the squares of s and s + 1 is at most one unit of the price.
   */
  lemma WithinOneAlgebra(p: int, s: nat, e: nat, q: nat, k: nat)
    requires e >= 1 && q >= 1
    requires s * s * e <= p * q * q < (s + 1) * (s + 1) * e
    requires p <= e * (k * k)
    requires q >= (2 * k + 1) * e
    ensures (p - 1) * (q * q) < s * s * e
  {
    var kq := k * q;
    Assoc3(p, q, q);
    RootBelow(p, s, e, q, k);
    MulLeRight(2 * s + 1, 2 * kq + 1, e);
    var c := (2 * k + 1) * e;
    MulLeRight(c, q, q);
    ExpandHeadroom(q, k, e);
    MulNat(q - 1, e);
    ExpandSquareSucc(s, e);
  }

  /** The root of at most k^2 * q^2 is at most k * q. */
  lemma RootBelow(p: int, s: nat, e: nat, q: nat, k: nat)
    requires e >= 1
    requires s * s * e <= p * (q * q)
    requires p <= e * (k * k)
    ensures s <= k * q
  {
    var kq := k * q;
    MulLeRight(p, e * (k * k), q * q);
    Regroup4(e, k, q);
    if s > kq {
      SquareLe(kq + 1, s);
      SquareLtSucc(kq);
      MulLtRight(kq * kq, s * s, e);
      assert false;
    }
  }

  lemma Assoc3(a: int, b: int, c: int)
    ensures a * b * c == a * (b * c)
  {
  }

  lemma Regroup4(e: int, k: int, q: int)
    ensures e * (k * k) * (q * q) == (k * q) * (k * q) * e
  {
  }

  lemma ExpandHeadroom(q: int, k: int, e: int)
    ensures ((2 * k + 1) * e) * q == (2 * (k * q) + 1) * e + (q - 1) * e
  {
  }

  lemma ExpandSquareSucc(s: int, e: int)
    ensures (s + 1) * (s + 1) * e == s * s * e + (2 * s + 1) * e
  {
  }

  /**
   * The round trip through the source's conversion does not overshoot
   * while dec0 <= dec1.
   */
  lemma RoundTripAsWritten(p: nat, dec0: nat, dec1: nat)
    requires dec0 <= dec1
    ensures PriceFromSqrt(SqrtPriceX96FromPriceE18(p, dec0, dec1), dec0, dec1) <= p
  {
    var s := SqrtPriceX96FromPriceE18(p, dec0, dec1);
    var down := DownScale(dec0, dec1);
    assert UpScale(dec0, dec1) == 1;
    assert s * s * (down * E18) <= p * 1 * Q96 * Q96;
    AsWrittenRegroup(s, p, down);
    RebuiltPriceBound(s, p, 1, down);
  }

  lemma AsWrittenRegroup(s: nat, p: nat, down: nat)
    requires down >= 1
    requires s * s * (down * E18) <= p * 1 * Q96 * Q96
    ensures s * s * (1 * E18) <= p * down * Q96 * Q96
  {
    RegroupScaled(s, p, down, E18, Q96);
  }

  lemma RegroupScaled(s: nat, p: nat, down: nat, e: nat, q: nat)
    requires down >= 1
    requires s * s * (down * e) <= p * 1 * q * q
    ensures s * s * (1 * e) <= p * down * q * q
  {
    var sq, qq := s * s, q * q;
    var a, b := sq * e, p * qq;
    assert a >= 0 && b >= 0 by { MulNat(sq, e); MulNat(p, qq); }
    assert sq * (down * e) == a * down by { Regroup3(sq, down, e); }
    assert p * down * q * q == b * down by { Regroup3(p, down, qq); }
    ScaleAcross(a, b, down);
  }

  /**
   * With dec0 = 1 and dec1 = 0 the source's round trip multiplies the
   * price by 100: 0.4 (4 * 10^17 in E18) comes back as 40.
   */
  lemma RoundTripAsWrittenOvershoots()
    ensures SqrtPriceX96FromPriceE18(4 * Pow10(17), 1, 0) == 2 * Q96
    ensures PriceFromSqrt(SqrtPriceX96FromPriceE18(4 * Pow10(17), 1, 0), 1, 0) == 100 * (4 * Pow10(17))
  {
    var p := 4 * Pow10(17);
    var s := SqrtPriceX96FromPriceE18(p, 1, 0);
    var up, down := UpScale(1, 0), DownScale(1, 0);
    assert up == 10 && down == 1 by { assert Pow10(1) == 10; }
    assert s * s * (down * E18) <= p * up * Q96 * Q96 < (s + 1) * (s + 1) * (down * E18);
    assert E18 == 10 * Pow10(17);
    DoubleIsRoot(s, p, up, down, Pow10(17), E18, Q96);
    PriceOfDouble();
  }

  /** The as-written radicand for 0.4 with decimals (1, 0) is exactly (2 * 2^96)^2. */
  lemma DoubleIsRoot(s: nat, p: nat, up: nat, down: nat, a: nat, e: nat, q: nat)
    requires up == 10 && down == 1 && p == 4 * a && e == 10 * a && e > 0
    requires s * s * (down * e) <= p * up * q * q < (s + 1) * (s + 1) * (down * e)
    ensures s == 2 * q
  {
    var t := 2 * q;
    OvershootAlgebra(a, e, q);
    assert 4 * a * 10 * q * q < (t + 1) * (t + 1) * e by {
      SquareLtSucc(t);
      MulLtRight(t * t, (t + 1) * (t + 1), e);
    }
    RootBoundsMonotone(4 * a * 10 * q * q, 4 * a * 10 * q * q, e, s, t);
    RootBoundsMonotone(4 * a * 10 * q * q, 4 * a * 10 * q * q, e, t, s);
  }

  /** The sqrt price 2 * 2^96 reads back, with decimals (1, 0), as the E18 price 40. */
  lemma PriceOfDouble()
    ensures PriceFromSqrt(2 * Q96, 1, 0) == 40 * E18
  {
    assert UpScale(1, 0) == 10 && DownScale(1, 0) == 1;
    QuotientOfDouble(Q96, E18);
  }

  lemma QuotientOfDouble(q: nat, e: nat)
    requires q > 0
    ensures (2 * q) * (2 * q) * 10 * e / (q * q * 1) == 40 * e
  {
    var qq := q * q;
    MulPos(q, q);
    assert (2 * q) * (2 * q) * 10 * e == (40 * e) * qq;
    DivCancel(40 * e, 1, qq);
  }

  lemma OvershootAlgebra(a: nat, e: nat, q: nat)
    requires e == 10 * a
    ensures 4 * a * 10 * q * q == (2 * q) * (2 * q) * e
    ensures (2 * q) * (2 * q) * 10 * e == (40 * e) * (q * q)
  {
  }

  /**
   * The arithmetic of AdjacentPricesShareSqrtPrice over the atoms
   * e = 10^18, k and q = 2^96.
   */
  lemma AdjacentAlgebra(e: nat, k: nat, q: nat)
    requires e > 0 && q <= 2 * k * e
    ensures (k * q) * (k * q) * (1 * e) <= e * (k * k) * 1 * q * q
    ensures e * (k * k) * 1 * q * q < (k * q + 1) * (k * q + 1) * (1 * e)
    ensures (k * q) * (k * q) * (1 * e) <= (e * (k * k) + 1) * 1 * q * q
    ensures (e * (k * k) + 1) * 1 * q * q < (k * q + 1) * (k * q + 1) * (1 * e)
  {
    var t, n0, qq := k * q, e * (k * k) * 1 * q * q, q * q;
    assert t * t * (1 * e) == n0;
    assert (e * (k * k) + 1) * 1 * q * q == n0 + qq;
    assert (t + 1) * (t + 1) * (1 * e) == n0 + 2 * t * e + e;
    assert qq <= 2 * t * e by { MulLeRight(q, 2 * k * e, q); }
  }

  /**
   * Above about 1.6 * 10^39 (E18) the sqrt price is too coarse to tell
   * neighbouring prices apart: for every k with 2^96 <= 2 * k * 10^18 the
   * prices 10^18 * k^2 and 10^18 * k^2 + 1 share the sqrt price k * 2^96.
   */
  lemma AdjacentPricesShareSqrtPrice(k: nat)
    requires Q96 <= 2 * k * E18
    ensures SqrtPriceX96FromPriceE18Corrected(E18 * (k * k), Dec0, Dec1) == k * Q96
    ensures SqrtPriceX96FromPriceE18Corrected(E18 * (k * k) + 1, Dec0, Dec1) == k * Q96
  {
    var e, q := E18, Q96;
    assert UpScale(Dec0, Dec1) == 1 && DownScale(Dec0, Dec1) == 1;
    AdjacentAlgebra(e, k, q);
    MulNat(k, k);
    SqrtPriceX96Unique(e * (k * k), Dec0, Dec1, e * (k * k) * 1 * q * q, 1 * e, k * q);
    SqrtPriceX96Unique(e * (k * k) + 1, Dec0, Dec1, (e * (k * k) + 1) * 1 * q * q, 1 * e, k * q);
    CorrectedAgreesOnEqualDecimals(e * (k * k), Dec0);
    CorrectedAgreesOnEqualDecimals(e * (k * k) + 1, Dec0);
  }

  // ---------------------------------------------------------------------
  // Single-tick trade sizing
  // ---------------------------------------------------------------------

  datatype SizingError =
    | OrderingViolation  // the target is on the wrong side of the current price
    | DivisionByZero     // BigInt division by zero (zero price or zero liquidity)

  /** The amounts of one sizing and the sqrt price after sending amountIn. */
  datatype Swap = Swap(amountIn: nat, amountOut: nat, sqrtPost: nat, priceE18Post: nat)

  /**
   * The post-trade bracket of zeroForOne over the atoms x = L * 2^96 and
   * a = amount0In.
   */
  lemma ZeroForOneBracket(x: nat, a: nat, sa: nat, sb: nat)
    requires 0 < sb < sa && x > 0
    requires a * (sa * sb) <= x * (sa - sb)
    ensures sb * (a * sa + x) <= x * sa
    ensures x * sa < (sa + 1) * (a * sa + x)
  {
    assert a * (sa * sb) == sb * (a * sa);
    assert x * (sa - sb) == x * sa - x * sb;
    assert (sa + 1) * (a * sa + x) == sa * (a * sa) + a * sa + x * sa + x;
    MulNat(sa, a * sa);
    MulNat(a, sa);
  }

  /** Token0 in for a zeroForOne move: `L * (sa - sb) * Q96 / (sa * sb)`. */
  function ZeroForOneIn(L: nat, sa: nat, sb: nat): (a0: nat)
    requires 0 < sb < sa
    ensures L == 0 ==> a0 == 0
    ensures a0 * (sa * sb) <= L * (sa - sb) * Q96 < a0 * (sa * sb) + sa * sb
  {
    var num, den := L * (sa - sb) * Q96, sa * sb;
    assert den > 0 by { MulPos(sa, sb); }
    assert num >= 0 by { MulNat(L * (sa - sb), Q96); }
    DivNat(num, den);
    DivBounds(num, den);
    num / den
  }

  lemma ZeroForOnePostBounds(L: nat, sa: nat, sb: nat, a0: nat)
    requires 0 < sb < sa && L > 0
    requires a0 == ZeroForOneIn(L, sa, sb)
    ensures a0 * sa + L * Q96 > 0
    ensures sb <= (L * sa * Q96) / (a0 * sa + L * Q96) <= sa
  {
    var x := L * Q96;
    MulPos(L, Q96);
    MulPos(sa, sb);
    var m := L * (sa - sb) * Q96;
    assert m == x * (sa - sb) by { Regroup3(L, sa - sb, Q96); }
    DivBounds(m, sa * sb);
    ZeroForOneBracket(x, a0, sa, sb);
    var den := a0 * sa + x;
    assert L * sa * Q96 == x * sa by { Regroup3(L, sa, Q96); }
    LeDiv(sb, x * sa, den);
    DivLt(sa + 1, x * sa, den);
  }

  /**
   * zeroForOne: token0 in, token1 out, sqrt price moves down from sa
   * toward sb.  Fails exactly on sb >= sa, and with a zero divisor when
   * sb == 0 or L == 0; otherwise the post-trade sqrt price lands between
   * the target and the current price and token1 out is at most L * (sa - sb)
   * in Q96 units.
   */
  function ZeroForOneAmounts(L: nat, sa: nat, sb: nat): (r: Result<Swap, SizingError>)
    ensures r == Err(OrderingViolation) <==> sb >= sa
    ensures r == Err(DivisionByZero) <==> sb < sa && (sb == 0 || L == 0)
    ensures r.Ok? ==> sb <= r.value.sqrtPost <= sa
    ensures r.Ok? ==> r.value.amountOut * Q96 <= L * (sa - sb) < r.value.amountOut * Q96 + Q96
    ensures r.Ok? ==> r.value.amountIn * (sa * sb) <= L * (sa - sb) * Q96 < r.value.amountIn * (sa * sb) + sa * sb
    ensures r.Ok? ==>
      var den := r.value.amountIn * sa + L * Q96;
      r.value.sqrtPost * den <= L * sa * Q96 < r.value.sqrtPost * den + den
    ensures r.Ok? ==> r.value.priceE18Post == PriceFromSqrt(r.value.sqrtPost, Dec0, Dec1)
  {
    if sb >= sa then Err(OrderingViolation)
    else if sb == 0 then Err(DivisionByZero)
    else
      var d := sa - sb;
      var amount0In := ZeroForOneIn(L, sa, sb);
      var amount1Out := (L * d) / Q96;
      var den := amount0In * sa + L * Q96;
      if L == 0 then
        Err(DivisionByZero)
      else
        ZeroForOnePostBounds(L, sa, sb, amount0In);
        var sbPost := (L * sa * Q96) / den;
        DivBounds(L * d, Q96);
        DivBounds(L * sa * Q96, den);
        Ok(Swap(amount0In, amount1Out, sbPost, PriceFromSqrt(sbPost, Dec0, Dec1)))
  }

  lemma OneForZeroPostBounds(L: nat, sa: nat, sb: nat, a1: nat)
    requires sa < sb && L > 0
    requires a1 == (L * (sb - sa)) / Q96
    ensures sa <= sa + (a1 * Q96) / L <= sb
  {
    var d := sb - sa;
    DivBounds(L * d, Q96);
    assert a1 * Q96 <= d * L;
    MulNat(a1, Q96);
    LeDiv(0, a1 * Q96, L);
    DivMonotone(a1 * Q96, d * L, L);
    DivCancel(d, 1, L);
  }

  /**
   * oneForZero: token1 in, token0 out, sqrt price moves up from sa toward
   * sb.  Fails exactly on sb <= sa, and with a zero divisor when sa == 0
   * or L == 0; otherwise the post-trade sqrt price lands between the
   * current price and the target.
   */
  function OneForZeroAmounts(L: nat, sa: nat, sb: nat): (r: Result<Swap, SizingError>)
    ensures r == Err(OrderingViolation) <==> sb <= sa
    ensures r == Err(DivisionByZero) <==> sb > sa && (sa == 0 || L == 0)
    ensures r.Ok? ==> sa <= r.value.sqrtPost <= sb
    ensures r.Ok? ==> r.value.amountIn * Q96 <= L * (sb - sa) < r.value.amountIn * Q96 + Q96
    ensures r.Ok? ==>
      var m := L * (Q96 * Q96 / sa - Q96 * Q96 / sb);
      r.value.amountOut * Q96 <= m < r.value.amountOut * Q96 + Q96
    ensures r.Ok? ==>
      (r.value.sqrtPost - sa) * L <= r.value.amountIn * Q96 < (r.value.sqrtPost - sa) * L + L
    ensures r.Ok? ==> r.value.priceE18Post == PriceFromSqrt(r.value.sqrtPost, Dec0, Dec1)
  {
    if sb <= sa then Err(OrderingViolation)
    else if sa == 0 then Err(DivisionByZero)
    else
      var d := sb - sa;
      var qq := Q96 * Q96;
      assert L * d >= 0 by { MulNat(L, d); }
      var amount1In := (L * d) / Q96;
      assert qq / sb <= qq / sa by { MulNat(Q96, Q96); DivAntitone(qq, sa, sb); }
      var m := L * (qq / sa - qq / sb);
      assert m >= 0 by { MulNat(L, qq / sa - qq / sb); }
      var amount0Out := m / Q96;
      assert amount0Out >= 0 by { DivBounds(m, Q96); LeDiv(0, m, Q96); }
      if L == 0 then Err(DivisionByZero)
      else
        OneForZeroPostBounds(L, sa, sb, amount1In);
        DivBounds(L * d, Q96);
        DivBounds(m, Q96);
        DivBounds(amount1In * Q96, L);
        var sbPost := sa + (amount1In * Q96) / L;
        Ok(Swap(amount1In, amount0Out, sbPost, PriceFromSqrt(sbPost, Dec0, Dec1)))
  }

  /**
   * At most one of the two sizings accepts a pair of sqrt prices, and
   * neither accepts equal ones.
   */
  lemma SizingsAreExclusive(L: nat, sa: nat, sb: nat)
    ensures ZeroForOneAmounts(L, sa, sb).Ok? ==> OneForZeroAmounts(L, sa, sb) == Err(OrderingViolation)
    ensures OneForZeroAmounts(L, sa, sb).Ok? ==> ZeroForOneAmounts(L, sa, sb) == Err(OrderingViolation)
    ensures sa == sb ==>
      (ZeroForOneAmounts(L, sa, sb) == Err(OrderingViolation) && OneForZeroAmounts(L, sa, sb) == Err(OrderingViolation))
  {
  }

  // ---------------------------------------------------------------------
  // Direction selection
  // ---------------------------------------------------------------------

  /** "zeroForOne", "oneForZero", or "" when nothing is to be done. */
  datatype Direction = NoTrade | ZeroForOne | OneForZero

  datatype OptAmounts = OptAmounts(
    direction: Direction,
    amount0In: nat, amount1In: nat, amount0Out: nat, amount1Out: nat,
    sqrtPost: nat, priceE18Post: nat)

  /**
   * calcOptAmounts: derive both sqrt prices from the E18 prices (with the
   * corrected conversion, which equals the source's one on the bot's equal
   * decimals, see CorrectedAgreesOnEqualDecimals), pick the
   * direction by comparing the E18 prices, and size the trade.  Because
   * the direction comes from the E18 prices but the sizing guard compares
   * the derived sqrt prices, two different E18 prices with equal sqrt
   * prices (see AdjacentPricesShareSqrtPrice) make the sizing fail with an
   * ordering violation.
   */
  method CalcOptAmounts(L: nat, priceLP: nat, priceNAV: nat) returns (r: Result<OptAmounts, SizingError>)
    ensures priceLP == priceNAV ==> r == Ok(OptAmounts(NoTrade, 0, 0, 0, 0, 0, 0))
    ensures r.Ok? ==> (r.value.direction == ZeroForOne <==> priceLP > priceNAV)
    ensures r.Ok? ==> (r.value.direction == OneForZero <==> priceLP < priceNAV)
    ensures priceLP != priceNAV ==>
      var sa, sb := SqrtPriceX96FromPriceE18Corrected(priceLP, Dec0, Dec1), SqrtPriceX96FromPriceE18Corrected(priceNAV, Dec0, Dec1);
      (r == Err(OrderingViolation) <==> sa == sb) &&
      (r == Err(DivisionByZero) <==> sa != sb && (L == 0 || (priceLP > priceNAV && sb == 0) || (priceLP < priceNAV && sa == 0)))
    ensures r.Ok? && r.value.direction == ZeroForOne ==>
      var s := ZeroForOneAmounts(L, SqrtPriceX96FromPriceE18Corrected(priceLP, Dec0, Dec1), SqrtPriceX96FromPriceE18Corrected(priceNAV, Dec0, Dec1));
      s.Ok? && r.value == OptAmounts(ZeroForOne, s.value.amountIn, 0, 0, s.value.amountOut, s.value.sqrtPost, s.value.priceE18Post)
    ensures r.Ok? && r.value.direction == OneForZero ==>
      var s := OneForZeroAmounts(L, SqrtPriceX96FromPriceE18Corrected(priceLP, Dec0, Dec1), SqrtPriceX96FromPriceE18Corrected(priceNAV, Dec0, Dec1));
      s.Ok? && r.value == OptAmounts(OneForZero, 0, s.value.amountIn, s.value.amountOut, 0, s.value.sqrtPost, s.value.priceE18Post)
    ensures r == OptimalSizing(L, priceLP, priceNAV)
  {
    var sa := SqrtPriceX96FromPriceE18Corrected(priceLP, Dec0, Dec1);
    var sb := SqrtPriceX96FromPriceE18Corrected(priceNAV, Dec0, Dec1);
    var amount0In, amount1In, amount0Out, amount1Out, sbPost, priceE18Post := 0, 0, 0, 0, 0, 0;
    var direction := NoTrade;
    if priceLP > priceNAV {
      SqrtPriceCorrectedMonotone(priceNAV, priceLP, Dec0, Dec1);
      var result := ZeroForOneAmounts(L, sa, sb);
      if result.Err? {
        return Err(result.error);
      }
      amount0In, amount1Out := result.value.amountIn, result.value.amountOut;
      sbPost, priceE18Post := result.value.sqrtPost, result.value.priceE18Post;
      direction := ZeroForOne;
    } else if priceLP < priceNAV {
      SqrtPriceCorrectedMonotone(priceLP, priceNAV, Dec0, Dec1);
      var result := OneForZeroAmounts(L, sa, sb);
      if result.Err? {
        return Err(result.error);
      }
      amount1In, amount0Out := result.value.amountIn, result.value.amountOut;
      sbPost, priceE18Post := result.value.sqrtPost, result.value.priceE18Post;
      direction := OneForZero;
    }
    r := Ok(OptAmounts(direction, amount0In, amount1In, amount0Out, amount1Out, sbPost, priceE18Post));
  }

  /**
   * The sizing calcOptAmounts returns, as a value: the bot's cycle is
   * specified against it.  A trade is sized exactly when the prices differ.
   */
  function OptimalSizing(L: nat, priceLP: nat, priceNAV: nat): (r: Result<OptAmounts, SizingError>)
    ensures r.Ok? ==> (r.value.direction == NoTrade <==> priceLP == priceNAV)
  {
    var sa := SqrtPriceX96FromPriceE18Corrected(priceLP, Dec0, Dec1);
    var sb := SqrtPriceX96FromPriceE18Corrected(priceNAV, Dec0, Dec1);
    if priceLP > priceNAV then
      match ZeroForOneAmounts(L, sa, sb)
        case Err(e) => Err(e)
        case Ok(s) => Ok(OptAmounts(ZeroForOne, s.amountIn, 0, 0, s.amountOut, s.sqrtPost, s.priceE18Post))
    else if priceLP < priceNAV then
      match OneForZeroAmounts(L, sa, sb)
        case Err(e) => Err(e)
        case Ok(s) => Ok(OptAmounts(OneForZero, 0, s.amountIn, s.amountOut, 0, s.sqrtPost, s.priceE18Post))
    else Ok(OptAmounts(NoTrade, 0, 0, 0, 0, 0, 0))
  }
}

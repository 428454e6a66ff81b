/**
 * Pool-state math of the arbitrage bot: the conversion of a sqrt price
 * into an E18 price, the tick-to-sqrt-price routine (the bit-by-bit
 * product of TickMath in Uniswap v3, table constants for bits 1..19 and a
 * seed for bit 0), the amounts held by a position, the formatting of raw
 * amounts, the ordering of the two tokens and the liquidity table around
 * the current tick.  Chain reads arrive as parameters.
 */
module PoolState {
  import opened Arith
  import opened Wrappers
  import opened JsString
  import OptimalAmounts

  // ---------------------------------------------------------------------
  // Sqrt price at a tick
  // ---------------------------------------------------------------------

  /** 2^128, the Q128.128 scale of the intermediate ratio. */
  const Two128: nat := Pow2(128)

  /** 2^256 - 1, the largest uint256, divided by the ratio for positive ticks. */
  const MaxUint256: nat := Pow2(256) - 1

  /** The seed when bit 0 of |tick| is set: 2^128 / sqrt(1.0001). */
  const OddSeed: nat := 0xfffcb933bd6fad37aa2d162d1a594001

  /** The factor for bit i + 1 of |tick|: 2^128 / sqrt(1.0001)^(2^(i+1)). */
  const MulConst: seq<nat> := [
    0xfff97272373d413259a46990580e213a,
    0xfff2e50f5f656932ef12357cf3c7fdcc,
    0xffe5caca7e10e4e61c3624eaa0941cd0,
    0xffcb9843d60f6159c9db58835c926644,
    0xff973b41fa98c081472e6896dfb254c0,
    0xff2ea16466c96a3843ec78b326b52861,
    0xfe5dee046a99a2a811c461f1969c3053,
    0xfcbe86c7900a88aedcffc83b479aa3a4,
    0xf987a7253ac413176f2b074cf7815e54,
    0xf3392b0822b70005940c7a398e4b70f3,
    0xe7159475a2c29b7443b29c7fa6e889d9,
    0xd097f3bdfd2022b8845ad8f792aa5825,
    0xa9f746462d870fdf8a65dc1f90e061ea,
    0x70d869a156d2a1b890bb3df62baf32f7,
    0x31be135f97d08fd981231505542fcfa6,
    0x9aa508b5b7a84e1c677de54f3e99bc9,
    0x5d6af8dedb81196699c329225ee604,
    0x2216e584f5fa1ea926041bedfe98,
    0x48a170391f7dc42444e8fa2
  ]

  function Abs(x: int): nat
  {
    if x < 0 then -x else x
  }

  /** Bit i of a non-negative BigInt: `(n & (1n << i)) !== 0n`. */
  predicate Bit(n: nat, i: nat)
  {
    (n / Pow2(i)) % 2 == 1
  }

  function Seed(absTick: nat): nat
  {
    if Bit(absTick, 0) then OddSeed else Two128
  }

  /** The ratio after the loop has visited the first k table constants. */
  function RatioAfter(absTick: nat, k: nat): nat
    requires k <= |MulConst|
  {
    if k == 0 then Seed(absTick)
    else
      var r := RatioAfter(absTick, k - 1);
      if Bit(absTick, k) then MulShift128(r, MulConst[k - 1]) else r
  }

  /** The ratio with every table constant applied to the odd seed: the smallest reachable. */
  function AllApplied(k: nat): nat
    requires k <= |MulConst|
  {
    if k == 0 then OddSeed else MulShift128(AllApplied(k - 1), MulConst[k - 1])
  }

  /** `(r * c) >> 128n` */
  function MulShift128(r: nat, c: nat): nat
  {
    var p := r * c;
    assert p >= 0 by { MulNat(r, c); }
    DivNat(p, Two128);
    p / Two128
  }

  lemma Two128Value()
    ensures Two128 == 0x1_0000_0000_0000_0000_0000_0000_0000_0000
  {
    Pow2Of64();
    Pow2Add(64, 64);
  }

  /** Every table constant and the odd seed are below 2^128. */
  lemma ConstantsBelowTwo128()
    ensures OddSeed < Two128
    ensures forall i :: 0 <= i < |MulConst| ==> 0 < MulConst[i] < Two128
  {
    Two128Value();
  }

  /**
   * Evaluation of the all-bits ratio, constants 1 to 5: a step of the
   * proof of AllAppliedPositive, split up to keep each evaluation small.
   */
  lemma AllAppliedUpTo5()
    ensures AllApplied(5) == 339212217342146842559531600927033253847
  {
    Two128Value();
    assert AllApplied(0) == 340265354078544963557816517032075149313;
    assert AllApplied(1) == 340231330945450418515964920540021147198;
    assert AllApplied(2) == 340163294884840501567246455576441303173;
    assert AllApplied(3) == 340027263576413978334042125129128142263;
    assert AllApplied(4) == 339755364134575681238502878529008278326;
    assert AllApplied(5) == 339212217342146842559531600927033253847;
  }

  /**
   * Evaluation of the all-bits ratio, constants 6 to 10: a step of the
   * proof of AllAppliedPositive, split up to keep each evaluation small.
   */
  lemma AllAppliedUpTo10()
    requires AllApplied(5) == 339212217342146842559531600927033253847
    ensures AllApplied(10) == 307179074178916392659402722612948179612
  {
    Two128Value();
    assert AllApplied(6) == 338128527259088467778511436198880488164;
    assert AllApplied(7) == 335971522311117552149334092109581418674;
    assert AllApplied(8) == 331698704829854243503582989311158516586;
    assert AllApplied(9) == 323315401242583425022802937239550140918;
    assert AllApplied(10) == 307179074178916392659402722612948179612;
  }

  /**
   * Evaluation of the all-bits ratio, constants 11 to 15: a step of the
   * proof of AllAppliedPositive, split up to keep each evaluation small.
   */
  lemma AllAppliedUpTo15()
    requires AllApplied(10) == 307179074178916392659402722612948179612
    ensures AllApplied(15) == 12848018414553970828728179856918040433
  {
    Two128Value();
    assert AllApplied(11) == 277282266700509388632609933215391170106;
    assert AllApplied(12) == 225934749830749445986089663015556949343;
    assert AllApplied(13) == 150004713758184102711002566140788444799;
    assert AllApplied(14) == 66122407008436832627027740713496573149;
    assert AllApplied(15) == 12848018414553970828728179856918040433;
  }

  /**
   * The all-bits ratio, evaluated: it ends at 5800441176149320, still
   * positive.  With RatioBounds it is the proof step behind RatioPositive.
   */
  lemma AllAppliedPositive()
    ensures AllApplied(|MulConst|) == 5800441176149320
  {
    Two128Value();
    AllAppliedUpTo5();
    AllAppliedUpTo10();
    AllAppliedUpTo15();
    assert AllApplied(16) == 485077512873820763967752669154895175;
    assert AllApplied(17) == 691450548841240133896843047535567;
    assert AllApplied(18) == 1404950724947776134837143967;
    assert AllApplied(19) == 5800441176149320;
  }

  /** One table step never raises the ratio and preserves the order of two ratios. */
  lemma MulShiftBounds(a: nat, r: nat, c: nat)
    requires a <= r && c < Two128
    ensures MulShift128(a, c) <= MulShift128(r, c) <= r
  {
    MulLeRight(a, r, c);
    DivMonotone(a * c, r * c, Two128);
    MulLeRight(c, Two128, r);
    assert r * c <= r * Two128;
    DivMonotone(r * c, r * Two128, Two128);
    DivCancel(r, 1, Two128);
  }

  lemma MaxAboveTwo128()
    ensures 2 * Two128 <= MaxUint256 + 1
  {
    Pow2Add(128, 128);
    MulLeRight(2, Two128, Two128);
  }

  /** Every reachable ratio lies between the all-bits ratio and 2^128. */
  lemma {:induction false} RatioBounds(absTick: nat, k: nat)
    requires k <= |MulConst|
    ensures AllApplied(k) <= RatioAfter(absTick, k) <= Two128
  {
    ConstantsBelowTwo128();
    if k > 0 {
      RatioBounds(absTick, k - 1);
      var a, r, c := AllApplied(k - 1), RatioAfter(absTick, k - 1), MulConst[k - 1];
      MulShiftBounds(a, r, c);
      MulShiftBounds(a, a, c);
    }
  }

  /** No choice of bits drives the ratio to zero, so the inversion never divides by zero. */
  lemma RatioPositive(absTick: nat)
    ensures RatioAfter(absTick, |MulConst|) > 0
  {
    RatioBounds(absTick, |MulConst|);
    AllAppliedPositive();
  }

  /** The ratio after the loop, inverted for positive ticks. */
  function TickRatio(tick: int): (r: nat)
    ensures r > 0
  {
    var r := RatioAfter(Abs(tick), |MulConst|);
    RatioBounds(Abs(tick), |MulConst|);
    RatioPositive(Abs(tick));
    if tick > 0 then
      assert r <= MaxUint256 by { MaxAboveTwo128(); }
      LeDiv(1, MaxUint256, r);
      MaxUint256 / r
    else r
  }

  /** getSqrtPriceAtTick's result: the ratio shifted right by 32, rounded up. */
  function SqrtPriceAtTick(tick: int): (s: nat)
    ensures (s - 1) * Pow2(32) < TickRatio(tick) <= s * Pow2(32)
    ensures s >= 1
  {
    var ratio, unit := TickRatio(tick), Pow2(32);
    CeilDivBounds(ratio, unit);
    DivNat(ratio, unit);
    ratio / unit + if ratio % unit == 0 then 0 else 1
  }

  /**
   * getSqrtPriceAtTick: seed from bit 0 of |tick|, multiply in the table
   * constant of every set bit 1..19 (shifting right by 128 each time),
   * invert for positive ticks, and round up from Q128.128 to Q64.96.
   */
  method GetSqrtPriceAtTick(tick: int) returns (sqrtX96: nat)
    ensures sqrtX96 == SqrtPriceAtTick(tick)
  {
    var ratio := MultiplyInBits(Abs(tick));
    if tick > 0 {
      RatioPositive(Abs(tick));
      ratio := MaxUint256 / ratio;
    }
    var unit := Pow2(32);
    DivNat(ratio, unit);
    sqrtX96 := ratio / unit + if ratio % unit == 0 then 0 else 1;
  }

  /** The loop over bits 1..19 of |tick|, each set bit multiplying in its table constant. */
  method MultiplyInBits(absTick: nat) returns (ratio: nat)
    ensures ratio == RatioAfter(absTick, |MulConst|)
  {
    ratio := if Bit(absTick, 0) then OddSeed else Two128;
    for i := 0 to |MulConst|
      invariant ratio == RatioAfter(absTick, i)
    {
      if Bit(absTick, i + 1) {
        ratio := MulShift128(ratio, MulConst[i]);
      }
    }
  }

  lemma {:induction false} RatioAtZero(k: nat)
    requires k <= |MulConst|
    ensures RatioAfter(0, k) == Two128
  {
    if k > 0 {
      RatioAtZero(k - 1);
    }
  }

  /** Tick 0 is price 1: exactly 2^96, with no bit set, no inversion and no rounding. */
  lemma SqrtPriceAtTickZero()
    ensures SqrtPriceAtTick(0) == Q96
  {
    RatioAtZero(|MulConst|);
    var s, unit := SqrtPriceAtTick(0), Pow2(32);
    assert Two128 == Q96 * unit by { Pow2Add(96, 32); }
    CeilAtMost(s, unit, Two128, Q96);
    MulSucc(Q96 - 1, unit);
    CeilAtLeast(s, unit, Two128, Q96);
  }

  /** Non-positive ticks give a price of at most 1, non-negative ticks at least 1. */
  lemma SqrtPriceAtTickSign(tick: int)
    ensures tick <= 0 ==> SqrtPriceAtTick(tick) <= Q96
    ensures tick >= 0 ==> SqrtPriceAtTick(tick) >= Q96
  {
    if tick < 0 {
      NonPositiveTickAtMostQ96(tick);
    } else if tick > 0 {
      PositiveTickAtLeastQ96(tick);
    } else {
      SqrtPriceAtTickZero();
    }
  }

  lemma NonPositiveTickAtMostQ96(tick: int)
    requires tick <= 0
    ensures SqrtPriceAtTick(tick) <= Q96
  {
    var s, unit := SqrtPriceAtTick(tick), Pow2(32);
    var ratio := TickRatio(tick);
    RatioBounds(Abs(tick), |MulConst|);
    assert Two128 == Q96 * unit by { Pow2Add(96, 32); }
    CeilFromAbove(s, unit, ratio, Q96, Two128);
  }

  lemma PositiveTickAtLeastQ96(tick: int)
    requires tick > 0
    ensures SqrtPriceAtTick(tick) >= Q96
  {
    var s, unit := SqrtPriceAtTick(tick), Pow2(32);
    PositiveTickRatio(tick);
    assert Two128 == Q96 * unit by { Pow2Add(96, 32); }
    assert unit >= 2 by { Pow2Add(1, 31); }
    CeilFromBelow(s, unit, TickRatio(tick), Q96, Two128);
  }

  /** For a positive tick the inverted ratio is at least 2^128 - 1. */
  lemma PositiveTickRatio(tick: int)
    requires tick > 0
    ensures TickRatio(tick) >= Two128 - 1
  {
    var r := RatioAfter(Abs(tick), |MulConst|);
    RatioBounds(Abs(tick), |MulConst|);
    RatioPositive(Abs(tick));
    assert TickRatio(tick) == MaxUint256 / r;
    assert MaxUint256 == Two128 * Two128 - 1 by { Pow2Add(128, 128); }
    DivAntitone(MaxUint256, r, Two128);
    PredSquareDiv(Two128);
  }

  /**
   * The ratios at tick and -tick are reciprocal in Q128.128: for a positive
   * tick the ratio is 2^256 - 1 divided, rounding down, by the ratio at
   * -tick, which is the uninverted product of the table constants.
   */
  lemma TickRatioReciprocal(tick: int)
    requires tick > 0
    ensures TickRatio(-tick) == RatioAfter(Abs(tick), |MulConst|)
    ensures TickRatio(tick) == MaxUint256 / TickRatio(-tick)
    ensures TickRatio(tick) * TickRatio(-tick) <= MaxUint256 < TickRatio(tick) * TickRatio(-tick) + TickRatio(-tick)
  {
    assert Abs(-tick) == Abs(tick);
    DivBounds(MaxUint256, TickRatio(-tick));
  }

  /**
   * The sqrt prices at tick and -tick multiply to 2^192, a price of 1, up
   * to the rounding of the inversion and of the shift to Q64.96.
   */
  lemma SqrtPriceReciprocal(tick: int)
    requires tick > 0
    ensures var s, s' := SqrtPriceAtTick(tick), SqrtPriceAtTick(-tick);
            (s - 1) * (s' - 1) < Q192 <= s * s' + Pow2(64)
  {
    SqrtProductBelow(tick, SqrtPriceAtTick(tick), SqrtPriceAtTick(-tick));
    SqrtProductAbove(tick, SqrtPriceAtTick(tick), SqrtPriceAtTick(-tick));
  }

  lemma SqrtProductBelow(tick: int, s: nat, s': nat)
    requires tick > 0 && s == SqrtPriceAtTick(tick) && s' == SqrtPriceAtTick(-tick)
    ensures (s - 1) * (s' - 1) < Q192
  {
    var R: int, r: int := TickRatio(tick), TickRatio(-tick);
    var c: int, cc: int := Pow2(32), Pow2(64);
    assert cc == c * c by { Pow2Add(32, 32); }
    SqrtPriceBracket(tick, s, R, c);
    SqrtPriceBracket(-tick, s', r, c);
    assert R * r < Q192 * cc by {
      TickRatioReciprocal(tick);
      MaxAsQ192Scaled();
    }
    RootProductBelow(R, r, s, s', c, cc, Q192);
  }

  lemma SqrtProductAbove(tick: int, s: nat, s': nat)
    requires tick > 0 && s == SqrtPriceAtTick(tick) && s' == SqrtPriceAtTick(-tick)
    ensures Q192 <= s * s' + Pow2(64)
  {
    var R: int, r: int := TickRatio(tick), TickRatio(-tick);
    var c: int, cc: int := Pow2(32), Pow2(64);
    assert cc == c * c by { Pow2Add(32, 32); }
    SqrtPriceBracket(tick, s, R, c);
    SqrtPriceBracket(-tick, s', r, c);
    assert Q192 * cc <= R * r + r by {
      TickRatioReciprocal(tick);
      MaxAsQ192Scaled();
    }
    assert r <= cc * cc by {
      TickRatioReciprocal(tick);
      RatioBounds(Abs(tick), |MulConst|);
      Two128AsSquare();
    }
    RootProductAbove(R, r, s, s', c, cc, Q192);
  }

  /** The sqrt price at a tick is the ratio there divided by 2^32, rounded up. */
  lemma SqrtPriceBracket(tick: int, s: nat, R: nat, c: nat)
    requires s == SqrtPriceAtTick(tick) && R == TickRatio(tick) && c == Pow2(32)
    ensures s >= 1 && (s - 1) * c < R <= s * c
  {
  }

  /** 2^256 == 2^192 * 2^64 */
  lemma MaxAsQ192Scaled()
    ensures MaxUint256 + 1 == Q192 * Pow2(64)
  {
    Pow2Add(192, 64);
  }

  /** 2^128 == 2^64 * 2^64 */
  lemma Two128AsSquare()
    ensures Two128 == Pow2(64) * Pow2(64)
  {
    Pow2Add(64, 64);
  }

  /**
   * Ceilings s and s' of R / c and r / c, where R * r < Q * c^2, have
   * rounded-down predecessors multiplying below Q.
   */
  lemma RootProductBelow(R: nat, r: nat, s: nat, s': nat, c: nat, cc: nat, Q: nat)
    requires c >= 1 && cc == c * c && s >= 1 && s' >= 1
    requires (s - 1) * c < R && (s' - 1) * c < r
    requires R * r < Q * cc
    ensures (s - 1) * (s' - 1) < Q
  {
    MulPos(c, c);
    ProductLt((s - 1) * c, R, (s' - 1) * c, r);
    RegroupPair(s - 1, s' - 1, c);
    if (s - 1) * (s' - 1) >= Q {
      MulLeRight(Q, (s - 1) * (s' - 1), cc);
    }
  }

  /**
   * Ceilings s and s' of R / c and r / c, where Q * c^2 <= R * r + r and
   * r <= c^4, multiply to at least Q - c^2.
   */
  lemma RootProductAbove(R: nat, r: nat, s: nat, s': nat, c: nat, cc: nat, Q: nat)
    requires c >= 1 && cc == c * c
    requires R <= s * c && r <= s' * c
    requires Q * cc <= R * r + r
    requires r <= cc * cc
    ensures Q <= s * s' + cc
  {
    MulPos(c, c);
    ProductLe(R, s * c, r, s' * c);
    RegroupPair(s, s', c);
    assert (s * s') * cc + cc * cc == (s * s' + cc) * cc;
    if Q > s * s' + cc {
      MulLtRight(s * s' + cc, Q, cc);
    }
  }

  /** a * b < A * B for 0 <= a < A and 0 <= b < B. */
  lemma ProductLt(a: nat, A: nat, b: nat, B: nat)
    requires a < A && b < B
    ensures a * b < A * B
  {
    MulLeRight(b, B, a);
    MulLtRight(a, A, B);
  }

  /** a * b <= A * B for 0 <= a <= A and 0 <= b <= B. */
  lemma ProductLe(a: nat, A: nat, b: nat, B: nat)
    requires a <= A && b <= B
    ensures a * b <= A * B
  {
    MulLeRight(b, B, a);
    MulLeRight(a, A, B);
  }

  /** (a * c) * (b * c) == (a * b) * (c * c) */
  lemma RegroupPair(a: int, b: int, c: int)
    ensures (a * c) * (b * c) == (a * b) * (c * c)
  {
  }

  /** Bit i of n (i < j) is bit i of n mod 2^j. */
  lemma BitOfLowPart(n: nat, i: nat, j: nat)
    requires i < j
    ensures Bit(n, i) == Bit(n % Pow2(j), i)
  {
    var a, h := Pow2(i), Pow2(j - i - 1);
    var b := Pow2(j - i);
    assert b == 2 * h;
    assert Pow2(j) == a * b by {
      Pow2Add(i, j - i);
    }
    ParityBelowModulus(n, a, h, Pow2(j));
  }

  /** Reducing n modulo an even multiple 2h*a of a keeps the parity of n / a. */
  lemma ParityBelowModulus(n: int, a: int, h: int, p: int)
    requires a > 0 && h > 0 && p == a * (2 * h)
    ensures (n / a) % 2 == ((n % p) / a) % 2
  {
    var q, m := n / p, n % p;
    assert n == q * p + m;
    assert q * p == (2 * (q * h)) * a;
    DivAddMul(2 * (q * h), m, a);
    ModTwoAddEven(q * h, m / a);
  }

  lemma {:induction false} RatioAfterLowBits(n: nat, k: nat)
    requires k <= |MulConst|
    ensures RatioAfter(n, k) == RatioAfter(n % Pow2(20), k)
  {
    BitOfLowPart(n, k, 20);
    if k > 0 {
      RatioAfterLowBits(n, k - 1);
    }
  }

  /**
   * Only bits 0..19 of |tick| and the sign of tick matter: the table stops
   * at bit 19, so higher bits of |tick| are ignored.
   */
  lemma SqrtPriceAtTickLowBits(tick: int, tick': int)
    requires Abs(tick) % Pow2(20) == Abs(tick') % Pow2(20)
    requires (tick > 0) == (tick' > 0)
    ensures SqrtPriceAtTick(tick) == SqrtPriceAtTick(tick')
  {
    RatioAfterLowBits(Abs(tick), |MulConst|);
    RatioAfterLowBits(Abs(tick'), |MulConst|);
  }

  // ---------------------------------------------------------------------
  // E18 price of a sqrt price
  // ---------------------------------------------------------------------

  /** sqrtPriceToPriceE18: s^2 * 10^dec0 * 10^18 / (2^192 * 10^dec1), rounded down. */
  function SqrtPriceToPriceE18(sqrtX96: nat, dec0: nat, dec1: nat): (p: nat)
    ensures var d := Q192 * Pow10(dec1);
            p * d <= sqrtX96 * sqrtX96 * Pow10(dec0) * E18 < p * d + d
  {
    var num, scaleIn, scaleOut := sqrtX96 * sqrtX96, Pow10(dec0), Pow10(dec1);
    var n, d := num * scaleIn * E18, Q192 * scaleOut;
    assert n >= 0 by { MulNat4(sqrtX96, sqrtX96, scaleIn, E18); }
    assert d > 0 by { MulPos(Q192, scaleOut); }
    assert n / d >= 0 by { DivNat(n, d); }
    DivBounds(n, d);
    n / d
  }

  lemma CancelRegroup(x: int, u: int, e: int, k: int, q: int, w: int)
    ensures x * (u * k) * e == (x * u * e) * k
    ensures q * q * (w * k) == (q * q * w) * k
  {
  }

  /**
   * The pool checker's price conversion and the optimiser's decoder agree:
   * cancelling the common 10^min(dec0, dec1) leaves the same quotient.
   */
  lemma SqrtPriceToPriceE18AgreesWithDecoder(sqrtX96: nat, dec0: nat, dec1: nat)
    ensures SqrtPriceToPriceE18(sqrtX96, dec0, dec1) == OptimalAmounts.PriceFromSqrt(sqrtX96, dec0, dec1)
  {
    var m := if dec0 <= dec1 then dec0 else dec1;
    var k := Pow10(m);
    var up, down := OptimalAmounts.UpScale(dec0, dec1), OptimalAmounts.DownScale(dec0, dec1);
    assert Pow10(dec0) == up * k by { Pow10Add(dec0 - m, m); }
    assert Pow10(dec1) == down * k by { Pow10Add(dec1 - m, m); }
    Q192Square();
    var x := sqrtX96 * sqrtX96;
    CancelRegroup(x, up, E18, k, Q96, down);
    assert x * up * E18 >= 0 by { MulNat4(sqrtX96, sqrtX96, up, E18); }
    assert Q96 * Q96 * down > 0 by {
      MulPos(Q96, Q96);
      MulPos(Q96 * Q96, down);
    }
    DivCancel(x * up * E18, Q96 * Q96 * down, k);
  }

  /** At sqrt price 2^96 with equal decimals the price is exactly 1.0 (10^18). */
  lemma PriceAtUnitSqrtPrice(dec: nat)
    ensures SqrtPriceToPriceE18(Q96, dec, dec) == E18
  {
    SqrtPriceToPriceE18AgreesWithDecoder(Q96, dec, dec);
    assert Q96 * Q96 > 0 by { MulPos(Q96, Q96); }
    UnitFactorCancels(Q96 * Q96, E18);
  }

  lemma UnitFactorCancels(x: int, e: int)
    requires x > 0
    ensures (x * 1 * e) / (x * 1) == e
  {
    assert x * 1 * e == e * x;
    LeDiv(e, e * x, x);
    MulSucc(e, x);
    DivLt(e + 1, e * x, x);
  }


  // ---------------------------------------------------------------------
  // Amounts held by a position
  // ---------------------------------------------------------------------

  /** Raw token amounts; BigInt values, negative when the inputs are inconsistent. */
  datatype Amounts = Amounts(amount0: int, amount1: int)

  /** BigInt division by zero throws a RangeError. */
  datatype AmountsError = DivisionByZero

  function Min(a: int, b: int): int { if a <= b then a else b }

  function Max(a: int, b: int): int { if a >= b then a else b }

  /** The smaller of the sqrt prices at the two range ticks. */
  function LowerSqrt(tickLower: int, tickUpper: int): (s: nat)
    ensures s >= 1
  {
    var sl, su := SqrtPriceAtTick(tickLower), SqrtPriceAtTick(tickUpper);
    if sl < su then sl else su
  }

  /** The larger of the sqrt prices at the two range ticks. */
  function UpperSqrt(tickLower: int, tickUpper: int): (s: nat)
    ensures s >= LowerSqrt(tickLower, tickUpper)
  {
    var sl, su := SqrtPriceAtTick(tickLower), SqrtPriceAtTick(tickUpper);
    if sl < su then su else sl
  }

  /**
   * Token0 held by liquidity L between sqrt prices a and b:
   * L * (b - a) * 2^96 / (b * a), truncated toward zero as BigInt division
   * does, so the amount is negative, and rounded up, when a > b.
   */
  function Amount0Between(L: nat, a: nat, b: nat): (r: int)
    requires a > 0 && b > 0
    ensures a <= b ==> 0 <= r && r * (b * a) <= L * (b - a) * Q96 < r * (b * a) + b * a
    ensures a > b ==> r <= 0 && -r * (b * a) <= L * (a - b) * Q96 < -r * (b * a) + b * a
  {
    var n, d := L * (b - a) * Q96, b * a;
    assert d > 0 by { MulPos(b, a); }
    if a <= b then
      assert n >= 0 by { MulNat(L, b - a); MulNat(L * (b - a), Q96); }
      DivBounds(n, d);
      DivNat(n, d);
      TruncDiv(n, d)
    else
      assert -n == L * (a - b) * Q96;
      assert -n >= 0 by { MulNat(L, a - b); MulNat(L * (a - b), Q96); }
      TruncDivNegate(-n, d);
      DivBounds(-n, d);
      DivNat(-n, d);
      TruncDiv(n, d)
  }

  /**
   * Token1 held by liquidity L between sqrt prices a and b:
   * L * (b - a) / 2^96, truncated toward zero.
   */
  function Amount1Between(L: nat, a: nat, b: nat): (r: int)
    ensures a <= b ==> 0 <= r && r * Q96 <= L * (b - a) < r * Q96 + Q96
    ensures a > b ==> r <= 0 && -r * Q96 <= L * (a - b) < -r * Q96 + Q96
  {
    var n := L * (b - a);
    if a <= b then
      assert n >= 0 by { MulNat(L, b - a); }
      DivBounds(n, Q96);
      DivNat(n, Q96);
      TruncDiv(n, Q96)
    else
      assert -n == L * (a - b);
      assert -n >= 0 by { MulNat(L, a - b); }
      TruncDivNegate(-n, Q96);
      DivBounds(-n, Q96);
      DivNat(-n, Q96);
      TruncDiv(n, Q96)
  }

  /**
   * Swapping the two ends of a price interval negates both amounts, exactly:
   * truncation toward zero is symmetric about zero.
   */
  lemma AmountsBetweenAntisymmetric(L: nat, a: nat, b: nat)
    requires a > 0 && b > 0
    ensures Amount0Between(L, a, b) == -Amount0Between(L, b, a)
    ensures Amount1Between(L, a, b) == -Amount1Between(L, b, a)
  {
    assert b * a == a * b;
    assert L * (b - a) * Q96 == -(L * (a - b) * Q96);
    TruncDivNegate(L * (a - b) * Q96, b * a);
    assert L * (b - a) == -(L * (a - b));
    TruncDivNegate(L * (a - b), Q96);
  }

  /**
   * calculateTokenAmounts: below the range the position is all token0,
   * above it all token1, and inside it token0 for [price, upper] and
   * token1 for [lower, price].  Inside the range a zero sqrt price is a
   * BigInt division by zero.
   */
  function CalculateTokenAmounts(liquidity: nat, currentTick: int, sqrtPriceX96: nat,
                                 tickLower: int, tickUpper: int): (r: Result<Amounts, AmountsError>)
    ensures r.Err? <==> Min(tickLower, tickUpper) <= currentTick <= Max(tickLower, tickUpper) && sqrtPriceX96 == 0
    ensures currentTick < Min(tickLower, tickUpper) ==>
              var l, u := LowerSqrt(tickLower, tickUpper), UpperSqrt(tickLower, tickUpper);
              && r.Ok? && r.value.amount1 == 0 && r.value.amount0 >= 0
              && r.value.amount0 * (u * l) <= liquidity * (u - l) * Q96 < r.value.amount0 * (u * l) + u * l
    ensures currentTick > Max(tickLower, tickUpper) ==>
              var l, u := LowerSqrt(tickLower, tickUpper), UpperSqrt(tickLower, tickUpper);
              && r.Ok? && r.value.amount0 == 0 && r.value.amount1 >= 0
              && r.value.amount1 * Q96 <= liquidity * (u - l) < r.value.amount1 * Q96 + Q96
    ensures r.Ok? && Min(tickLower, tickUpper) <= currentTick <= Max(tickLower, tickUpper) ==>
              && sqrtPriceX96 > 0
              && r.value.amount0 == Amount0Between(liquidity, sqrtPriceX96, UpperSqrt(tickLower, tickUpper))
              && r.value.amount1 == Amount1Between(liquidity, LowerSqrt(tickLower, tickUpper), sqrtPriceX96)
    ensures r.Ok? && LowerSqrt(tickLower, tickUpper) <= sqrtPriceX96 <= UpperSqrt(tickLower, tickUpper) ==>
              r.value.amount0 >= 0 && r.value.amount1 >= 0
  {
    var lower, upper := LowerSqrt(tickLower, tickUpper), UpperSqrt(tickLower, tickUpper);
    if currentTick < Min(tickLower, tickUpper) then
      Ok(Amounts(Amount0Between(liquidity, lower, upper), 0))
    else if currentTick > Max(tickLower, tickUpper) then
      Ok(Amounts(0, Amount1Between(liquidity, lower, upper)))
    else if sqrtPriceX96 == 0 then
      Err(DivisionByZero)
    else
      Ok(Amounts(Amount0Between(liquidity, sqrtPriceX96, upper), Amount1Between(liquidity, lower, sqrtPriceX96)))
  }

  /** Swapping the two range ticks changes nothing. */
  lemma CalculateTokenAmountsSymmetric(liquidity: nat, currentTick: int, sqrtPriceX96: nat, a: int, b: int)
    ensures CalculateTokenAmounts(liquidity, currentTick, sqrtPriceX96, a, b)
         == CalculateTokenAmounts(liquidity, currentTick, sqrtPriceX96, b, a)
  {
    assert LowerSqrt(a, b) == LowerSqrt(b, a);
    assert UpperSqrt(a, b) == UpperSqrt(b, a);
  }

  /**
   * The three cases meet at the range edges: inside the range with the
   * price at the lower sqrt price the amounts are those below the range,
   * and with the price at the upper sqrt price those above it.
   */
  lemma RangeEdgesMatch(liquidity: nat, tickLower: int, tickUpper: int, below: int, inside: int, above: int)
    requires below < Min(tickLower, tickUpper) <= inside <= Max(tickLower, tickUpper) < above
    ensures CalculateTokenAmounts(liquidity, inside, LowerSqrt(tickLower, tickUpper), tickLower, tickUpper)
         == CalculateTokenAmounts(liquidity, below, LowerSqrt(tickLower, tickUpper), tickLower, tickUpper)
    ensures CalculateTokenAmounts(liquidity, inside, UpperSqrt(tickLower, tickUpper), tickLower, tickUpper)
         == CalculateTokenAmounts(liquidity, above, UpperSqrt(tickLower, tickUpper), tickLower, tickUpper)
  {
    var lower, upper := LowerSqrt(tickLower, tickUpper), UpperSqrt(tickLower, tickUpper);
    assert Amount1Between(liquidity, lower, lower) == 0;
    assert Amount0Between(liquidity, upper, upper) == 0;
  }

  lemma Amount0Cross(L: nat, q: nat, b: int, s: int, s': int)
    requires 0 < s <= s' <= b
    ensures (L * (b - s') * q) * (b * s) <= (L * (b - s) * q) * (b * s')
  {
    var c := L * q * b;
    assert c >= 0 by { MulNat(L, q); MulNat(L * q, b); }
    assert (L * (b - s') * q) * (b * s) == c * ((b - s') * s);
    assert (L * (b - s) * q) * (b * s') == c * ((b - s) * s');
    MulLeRight(s, s', b);
    assert (b - s') * s <= (b - s) * s';
    MulLeRight((b - s') * s, (b - s) * s', c);
  }

  /**
   * Inside the range a higher price means less token0 and more token1.
   */
  lemma AmountsMonotoneInPrice(L: nat, a: nat, b: nat, s: nat, s': nat)
    requires a <= s <= s' <= b && s > 0
    ensures Amount0Between(L, s', b) <= Amount0Between(L, s, b)
    ensures Amount1Between(L, a, s) <= Amount1Between(L, a, s')
  {
    var n, n' := L * (b - s) * Q96, L * (b - s') * Q96;
    assert n >= 0 by { MulNat(L, b - s); MulNat(L * (b - s), Q96); }
    assert n' >= 0 by { MulNat(L, b - s'); MulNat(L * (b - s'), Q96); }
    assert b * s > 0 && b * s' > 0 by { MulPos(b, s); MulPos(b, s'); }
    Amount0Cross(L, Q96, b, s, s');
    DivCrossLe(n', b * s', n, b * s);
    var m, m' := L * (s - a), L * (s' - a);
    assert m >= 0 by { MulNat(L, s - a); }
    MulLeRight(s - a, s' - a, L);
    DivMonotone(m, m', Q96);
  }

  // ---------------------------------------------------------------------
  // Token ordering
  // ---------------------------------------------------------------------

  /** The pool's two currencies in pool order, each with its decimals. */
  datatype TokenPair = TokenPair(token0: string, token1: string, dec0: nat, dec1: nat)

  /**
   * currency0 is the token whose lower-cased address compares smaller;
   * the decimals travel with their token.
   */
  function OrderTokens(raw0: string, raw1: string, dec0: nat, dec1: nat): (p: TokenPair)
    ensures p == TokenPair(raw0, raw1, dec0, dec1) || p == TokenPair(raw1, raw0, dec1, dec0)
    ensures !Less(ToLower(p.token1), ToLower(p.token0))
    ensures ToLower(raw0) != ToLower(raw1) ==> Less(ToLower(p.token0), ToLower(p.token1))
  {
    LessTrichotomy(ToLower(raw0), ToLower(raw1));
    if Less(ToLower(raw0), ToLower(raw1)) then TokenPair(raw0, raw1, dec0, dec1)
    else TokenPair(raw1, raw0, dec1, dec0)
  }

  /** Which of the two raw addresses is given first does not matter once they differ. */
  lemma OrderTokensSymmetric(a: string, b: string, da: nat, db: nat)
    requires ToLower(a) != ToLower(b)
    ensures OrderTokens(a, b, da, db) == OrderTokens(b, a, db, da)
  {
    LessTrichotomy(ToLower(a), ToLower(b));
  }

  /** Ordering an ordered pair again changes nothing. */
  lemma OrderTokensIdempotent(raw0: string, raw1: string, dec0: nat, dec1: nat)
    requires ToLower(raw0) != ToLower(raw1)
    ensures var p := OrderTokens(raw0, raw1, dec0, dec1);
            OrderTokens(p.token0, p.token1, p.dec0, p.dec1) == p
  {
  }

  // ---------------------------------------------------------------------
  // Tick window and liquidity table
  // ---------------------------------------------------------------------

  /** Tick spacing of the pool. */
  const TickSpacing: int := 60

  /** Spacing steps shown on each side of the current band. */
  const WindowSteps: int := 20

  /** The full-range position whose amounts the checker reports. */
  const FullRangeLower: int := -887272
  const FullRangeUpper: int := 887272

  /**
   * The tick window: base is the current tick rounded down to a multiple
   * of the spacing (Math.floor on the quotient), and the window holds
   * base + i * spacing for i from -20 to 20.
   */
  method BuildTickWindow(tickNow: int) returns (base: int, ticks: seq<int>)
    ensures base % TickSpacing == 0 && base <= tickNow < base + TickSpacing
    ensures base == (tickNow / TickSpacing) * TickSpacing
    ensures |ticks| == 2 * WindowSteps + 1
    ensures forall j :: 0 <= j < |ticks| ==> ticks[j] == base + (j - WindowSteps) * TickSpacing
    ensures ticks[WindowSteps] == base
  {
    base := (tickNow / TickSpacing) * TickSpacing;
    ticks := [];
    var i := -WindowSteps;
    while i <= WindowSteps
      invariant -WindowSteps <= i <= WindowSteps + 1
      invariant |ticks| == i + WindowSteps
      invariant forall j :: 0 <= j < |ticks| ==> ticks[j] == base + (j - WindowSteps) * TickSpacing
    {
      ticks := ticks + [base + i * TickSpacing];
      i := i + 1;
    }
  }

  /** Consecutive window ticks are one spacing apart, and the current tick lies in the middle band. */
  lemma WindowShape(tickNow: int, base: int, ticks: seq<int>)
    requires base <= tickNow < base + TickSpacing
    requires |ticks| == 2 * WindowSteps + 1
    requires forall j :: 0 <= j < |ticks| ==> ticks[j] == base + (j - WindowSteps) * TickSpacing
    ensures forall j :: 0 < j < |ticks| ==> ticks[j] - ticks[j - 1] == TickSpacing
    ensures ticks[WindowSteps] <= tickNow < ticks[WindowSteps + 1]
    ensures forall j :: 0 <= j < |ticks| ==> (ticks[j] >= base <==> j >= WindowSteps)
  {
  }

  /** liquidityGross and liquidityNet of one initialised tick. */
  datatype TickLiquidity = TickLiquidity(liquidityGross: nat, liquidityNet: int)

  /** One row of the liquidity table. */
  datatype TickRow = TickRow(tick: int, sqrtAtTick: nat, liquidityGross: nat, liquidityNet: int, lAfterUp: int)

  /** The liquidityNet of the first k ticks that lie at or above base. */
  function NetCrossedUp(ticks: seq<int>, nets: seq<int>, base: int, k: nat): int
    requires k <= |ticks| == |nets|
  {
    if k == 0 then 0
    else NetCrossedUp(ticks, nets, base, k - 1) + (if ticks[k - 1] >= base then nets[k - 1] else 0)
  }

  function Sum(s: seq<int>): int
  {
    if |s| == 0 then 0 else Sum(s[..|s| - 1]) + s[|s| - 1]
  }

  /** The row the table holds for the j-th window tick. */
  function ExpectedRow(ticks: seq<int>, base: int, lNow: nat, liquidity: seq<TickLiquidity>, j: nat): TickRow
    requires |liquidity| == |ticks| && j < |ticks|
  {
    TickRow(ticks[j], SqrtPriceAtTick(ticks[j]), liquidity[j].liquidityGross, liquidity[j].liquidityNet,
            lNow + NetCrossedUp(ticks, Nets(liquidity), base, j + 1))
  }

  /**
   * The liquidity table: each row holds the tick, its sqrt price, its
   * liquidity data, and the active liquidity after crossing it upwards.
   * A cursor starts at the current liquidity and takes in liquidityNet
   * at every tick at or above base; rows below base repeat the cursor.
   */
  method BuildLiquidityTable(ticks: seq<int>, base: int, lNow: nat, liquidity: seq<TickLiquidity>)
    returns (rows: seq<TickRow>)
    requires |liquidity| == |ticks|
    ensures |rows| == |ticks|
    ensures forall j :: 0 <= j < |rows| ==> rows[j] == ExpectedRow(ticks, base, lNow, liquidity, j)
  {
    var cursor: int := lNow;
    rows := [];
    for i := 0 to |ticks|
      invariant |rows| == i
      invariant cursor == lNow + NetCrossedUp(ticks, Nets(liquidity), base, i)
      invariant forall j :: 0 <= j < i ==> rows[j] == ExpectedRow(ticks, base, lNow, liquidity, j)
    {
      var t := ticks[i];
      var sqrtAtTick := GetSqrtPriceAtTick(t);
      var lAfterUp := if t >= base then cursor + liquidity[i].liquidityNet else cursor;
      if t >= base {
        cursor := lAfterUp;
      }
      var row := TickRow(t, sqrtAtTick, liquidity[i].liquidityGross, liquidity[i].liquidityNet, lAfterUp);
      assert row == ExpectedRow(ticks, base, lNow, liquidity, i);
      rows := rows + [row];
    }
  }

  function Nets(liquidity: seq<TickLiquidity>): (nets: seq<int>)
    ensures |nets| == |liquidity|
    ensures forall i :: 0 <= i < |liquidity| ==> nets[i] == liquidity[i].liquidityNet
  {
    seq(|liquidity|, i requires 0 <= i < |liquidity| => liquidity[i].liquidityNet)
  }

  /**
   * Over the tick window the liquidity after crossing up is the current
   * liquidity below base, and from base on the current liquidity plus the
   * liquidityNet of every tick from base through that tick.
   */
  lemma {:induction false} WindowLiquidity(base: int, ticks: seq<int>, nets: seq<int>, k: nat)
    requires |ticks| == |nets| == 2 * WindowSteps + 1 && k <= |ticks|
    requires forall j :: 0 <= j < |ticks| ==> ticks[j] == base + (j - WindowSteps) * TickSpacing
    ensures NetCrossedUp(ticks, nets, base, k) == if k <= WindowSteps then 0 else Sum(nets[WindowSteps..k])
  {
    if k > 0 {
      WindowLiquidity(base, ticks, nets, k - 1);
      if k > WindowSteps + 1 {
        assert nets[WindowSteps..k][..k - 1 - WindowSteps] == nets[WindowSteps..k - 1];
      } else if k == WindowSteps + 1 {
        assert nets[WindowSteps..k][..0] == [];
      }
    }
  }

  // ---------------------------------------------------------------------
  // The pool check
  // ---------------------------------------------------------------------

  /** What checkPool hands back: the current liquidity and the full-range amounts. */
  datatype PoolReport = PoolReport(lNow: nat, amount0: int, amount1: int)

  datatype PoolOutcome = NotInitialized | Checked(report: PoolReport)

  /**
   * checkPool, with the chain reads (slot0, the current liquidity and the
   * liquidity of every window tick) passed in: an uninitialised pool
   * (sqrt price 0) stops early; otherwise the window and the liquidity
   * table are built and the amounts of a full-range position holding the
   * current liquidity are reported.
   */
  method CheckPool(sqrtPriceX96: nat, tickNow: int, lNow: nat, liquidityAt: int -> TickLiquidity)
    returns (outcome: PoolOutcome, rows: seq<TickRow>)
    ensures sqrtPriceX96 == 0 <==> outcome == NotInitialized
    ensures sqrtPriceX96 == 0 ==> rows == []
    ensures outcome.Checked? ==>
              outcome.report.lNow == lNow &&
              CalculateTokenAmounts(lNow, tickNow, sqrtPriceX96, FullRangeLower, FullRangeUpper)
                == Ok(Amounts(outcome.report.amount0, outcome.report.amount1))
    ensures outcome.Checked? ==>
              |rows| == 2 * WindowSteps + 1 &&
              (forall j :: 0 <= j < WindowSteps ==> rows[j].lAfterUp == lNow) &&
              (forall j :: WindowSteps <= j < |rows| ==>
                 rows[j].lAfterUp == lNow + Sum(Nets(Liquidities(rows))[WindowSteps..j + 1]))
    ensures outcome.Checked? ==>
              forall j :: 0 <= j < |rows| ==>
                && rows[j].tick == (tickNow / TickSpacing) * TickSpacing + (j - WindowSteps) * TickSpacing
                && rows[j].sqrtAtTick == SqrtPriceAtTick(rows[j].tick)
                && TickLiquidity(rows[j].liquidityGross, rows[j].liquidityNet) == liquidityAt(rows[j].tick)
  {
    if sqrtPriceX96 == 0 {
      return NotInitialized, [];
    }
    var base, ticks := BuildTickWindow(tickNow);
    var liquidity := seq(|ticks|, i requires 0 <= i < |ticks| => liquidityAt(ticks[i]));
    rows := BuildLiquidityTable(ticks, base, lNow, liquidity);
    TableRows(base, ticks, lNow, liquidity, rows);
    var amounts := CalculateTokenAmounts(lNow, tickNow, sqrtPriceX96, FullRangeLower, FullRangeUpper);
    outcome := Checked(PoolReport(lNow, amounts.value.amount0, amounts.value.amount1));
  }

  /** The rows of a table built over a window: their ticks, prices, liquidity data and running liquidity. */
  lemma TableRows(base: int, ticks: seq<int>, lNow: nat, liquidity: seq<TickLiquidity>, rows: seq<TickRow>)
    requires |ticks| == |liquidity| == |rows| == 2 * WindowSteps + 1
    requires forall j :: 0 <= j < |ticks| ==> ticks[j] == base + (j - WindowSteps) * TickSpacing
    requires forall j :: 0 <= j < |rows| ==> rows[j] == ExpectedRow(ticks, base, lNow, liquidity, j)
    ensures Liquidities(rows) == liquidity
    ensures forall j :: 0 <= j < WindowSteps ==> rows[j].lAfterUp == lNow
    ensures forall j :: WindowSteps <= j < |rows| ==>
              rows[j].lAfterUp == lNow + Sum(Nets(Liquidities(rows))[WindowSteps..j + 1])
    ensures forall j :: 0 <= j < |rows| ==>
              && rows[j].tick == ticks[j] && rows[j].sqrtAtTick == SqrtPriceAtTick(ticks[j])
              && TickLiquidity(rows[j].liquidityGross, rows[j].liquidityNet) == liquidity[j]
  {
    assert Liquidities(rows) == liquidity;
    forall j | 0 <= j < |rows|
      ensures rows[j].lAfterUp == lNow + (if j < WindowSteps then 0 else Sum(Nets(liquidity)[WindowSteps..j + 1]))
    {
      WindowLiquidity(base, ticks, Nets(liquidity), j + 1);
    }
  }

  /** The liquidity data the rows carry. */
  function Liquidities(rows: seq<TickRow>): (ls: seq<TickLiquidity>)
    ensures |ls| == |rows|
    ensures forall i :: 0 <= i < |rows| ==> ls[i] == TickLiquidity(rows[i].liquidityGross, rows[i].liquidityNet)
  {
    seq(|rows|, i requires 0 <= i < |rows| => TickLiquidity(rows[i].liquidityGross, rows[i].liquidityNet))
  }
}

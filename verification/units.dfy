/**
 * Display of raw BigInt token amounts as decimal strings with a given
 * number of decimals (formatUnits of the pool checker): the decimal digits
 * of |amount| are left-padded with zeros to decimals + 1 characters, the
 * last `decimals` of them form the fraction, trailing zeros of the
 * fraction are dropped, and the point is dropped with an empty fraction.
 * ParseUnits is the reading back of such a string, with ethers' grammar.
 * EthersFormatUnits is ethers' own formatUnits, which the dashboard uses:
 * it differs only in keeping ".0" for an empty fraction.
 */
module Units {
  import opened Arith
  import opened Wrappers

  predicate IsDigit(c: char)
  {
    '0' <= c <= '9'
  }

  predicate AllDigits(s: string)
  {
    forall i :: 0 <= i < |s| ==> IsDigit(s[i])
  }

  function DigitChar(d: nat): (c: char)
    requires d < 10
    ensures IsDigit(c) && c as int - '0' as int == d
  {
    ('0' as int + d) as char
  }

  /** The number a string of decimal digits denotes; "" denotes 0. */
  function Value(s: string): nat
    requires AllDigits(s)
  {
    if |s| == 0 then 0 else Value(s[..|s| - 1]) * 10 + (s[|s| - 1] as int - '0' as int)
  }

  /** BigInt toString: the decimal digits of n, without leading zeros. */
  function NatToDigits(n: nat): (r: string)
    ensures |r| >= 1 && AllDigits(r)
    ensures |r| > 1 ==> r[0] != '0'
    ensures Value(r) == n
  {
    if n < 10 then [DigitChar(n)]
    else
      var p := NatToDigits(n / 10);
      var r := p + [DigitChar(n % 10)];
      assert r[..|r| - 1] == p;
      r
  }

  function Zeros(k: nat): (r: string)
    ensures |r| == k && AllDigits(r)
    ensures forall i :: 0 <= i < k ==> r[i] == '0'
  {
    seq(k, _ => '0')
  }

  /** String.prototype.padStart(width, "0"). */
  function PadStart(s: string, width: nat): (r: string)
    ensures |r| == if |s| >= width then |s| else width
    ensures r == Zeros(|r| - |s|) + s
  {
    if |s| >= width then
      assert Zeros(0) + s == s;
      s
    else Zeros(width - |s|) + s
  }

  /** s.replace(/0+$/, ""): the longest prefix that does not end in '0'. */
  function TrimTrailingZeros(s: string): (r: string)
    ensures |r| <= |s| && s == r + Zeros(|s| - |r|)
    ensures |r| == 0 || r[|r| - 1] != '0'
  {
    if |s| == 0 || s[|s| - 1] != '0' then
      assert s + Zeros(0) == s;
      s
    else
      var r := TrimTrailingZeros(s[..|s| - 1]);
      assert s == s[..|s| - 1] + ['0'];
      assert Zeros(|s| - |r|) == Zeros(|s| - 1 - |r|) + ['0'];
      r
  }

  /** The digits of |amount| left-padded with zeros to decimals + 1 characters. */
  function PaddedDigits(amount: int, decimals: nat): (str: string)
    ensures |str| >= decimals + 1 && AllDigits(str)
    ensures decimals == 0 ==> str == NatToDigits(if amount < 0 then -amount else amount)
  {
    var digits := NatToDigits(if amount < 0 then -amount else amount);
    var str := PadStart(digits, decimals + 1);
    assert str == Zeros(|str| - |digits|) + digits;
    assert decimals == 0 ==> Zeros(0) + digits == digits;
    str
  }

  /** Everything but the last `decimals` characters. */
  function IntPart(str: string, decimals: nat): (r: string)
    requires |str| >= decimals + 1 && AllDigits(str)
    ensures |r| >= 1 && AllDigits(r) && str == r + str[|str| - decimals..]
    ensures decimals == 0 ==> r == str
  {
    str[..|str| - decimals]
  }

  /** The last `decimals` characters without their trailing zeros. */
  function FracPart(str: string, decimals: nat): (r: string)
    requires |str| >= decimals && AllDigits(str)
    ensures AllDigits(r) && |r| <= decimals && (|r| == 0 || r[|r| - 1] != '0')
    ensures str[|str| - decimals..] == r + Zeros(decimals - |r|)
  {
    var frac0 := str[|str| - decimals..];
    var r := TrimTrailingZeros(frac0);
    assert forall i :: 0 <= i < |r| ==> r[i] == frac0[i];
    r
  }

  /** The integer part, then a point and the fraction when the fraction is non-empty. */
  function Join(intPart: string, fracPart: string): (body: string)
    requires |intPart| >= 1 && AllDigits(intPart) && AllDigits(fracPart)
    requires |fracPart| == 0 || fracPart[|fracPart| - 1] != '0'
    ensures |body| > 0 && IsDigit(body[0]) && body[|body| - 1] != '.'
    ensures '.' in body ==> body[|body| - 1] != '0'
    ensures |fracPart| == 0 ==> body == intPart
  {
    if |fracPart| > 0 then intPart + "." + fracPart
    else
      assert forall c :: c in intPart ==> IsDigit(c);
      intPart
  }

  /**
   * formatUnits: sign, integer part, and the fraction without its
   * trailing zeros (with no point when that fraction is empty).
   */
  function FormatUnits(amount: int, decimals: nat): (r: string)
    ensures |r| > 0 && (r[0] == '-' <==> amount < 0)
    ensures r[|r| - 1] != '.'
    ensures '.' in r ==> r[|r| - 1] != '0'
    ensures decimals == 0 ==>
              r == (if amount < 0 then "-" else "") + NatToDigits(if amount < 0 then -amount else amount)
  {
    var str := PaddedDigits(amount, decimals);
    var body := Join(IntPart(str, decimals), FracPart(str, decimals));
    SignedShape(amount < 0, body);
    (if amount < 0 then "-" else "") + body
  }

  lemma SignedShape(negative: bool, body: string)
    requires |body| > 0 && IsDigit(body[0]) && body[|body| - 1] != '.'
    requires '.' in body ==> body[|body| - 1] != '0'
    ensures var r := (if negative then "-" else "") + body;
            |r| > 0 && (r[0] == '-' <==> negative) && r[|r| - 1] != '.' &&
            ('.' in r ==> r[|r| - 1] != '0')
  {
    var r := (if negative then "-" else "") + body;
    assert r[|r| - 1] == body[|body| - 1];
    assert '.' in r ==> '.' in body;
  }

  /** The index of the first c in s, or |s| when there is none. */
  function FirstIndex(s: string, c: char): (k: nat)
    ensures k <= |s| && (k < |s| ==> s[k] == c)
    ensures forall i :: 0 <= i < k ==> s[i] != c
  {
    if |s| == 0 then 0
    else if s[0] == c then 0
    else 1 + FirstIndex(s[1..], c)
  }

  /**
   * The text before the first '.' and the text after it ("" when there is
   * no point); the point is the only character dropped.
   */
  function SplitAtPoint(body: string): (r: (string, string))
    ensures '.' !in r.0
    ensures '.' in body ==> body == r.0 + "." + r.1
    ensures '.' !in body ==> r == (body, "")
  {
    var k := FirstIndex(body, '.');
    if k < |body| then
      assert body == body[..k] + "." + body[k + 1..];
      (body[..k], body[k + 1..])
    else
      (body, "")
  }

  predicate AllZeros(s: string)
  {
    forall i :: 0 <= i < |s| ==> s[i] == '0'
  }

  /** Integer digits and fraction digits read as a multiple of 10^-decimals. */
  function Scaled(intPart: string, fracPart: string, decimals: nat): int
    requires AllDigits(intPart) && AllDigits(fracPart) && |fracPart| <= decimals
  {
    Value(intPart) * Pow10(decimals) + Value(fracPart) * Pow10(decimals - |fracPart|)
  }

  /**
   * Scaled, when the parts are digits and not both empty (an empty integer
   * part reads as 0); fraction digits beyond `decimals` are dropped when
   * they are all zeros and make the string unreadable otherwise.
   */
  function ScaledValue(intPart: string, fracPart: string, decimals: nat): (r: Option<int>)
    ensures r.Some? ==>
              && AllDigits(intPart) && AllDigits(fracPart) && |intPart| + |fracPart| > 0
              && Value(intPart) * Pow10(decimals) <= r.value < (Value(intPart) + 1) * Pow10(decimals)
              && r.value >= 0
  {
    if |intPart| + |fracPart| == 0 || !AllDigits(intPart) || !AllDigits(fracPart) then None
    else if |fracPart| <= decimals then
      MulNat(Value(intPart), Pow10(decimals));
      ScaledBounds(intPart, fracPart, decimals);
      Some(Scaled(intPart, fracPart, decimals))
    else if !AllZeros(fracPart[decimals..]) then None
    else
      MulNat(Value(intPart), Pow10(decimals));
      ScaledBounds(intPart, fracPart[..decimals], decimals);
      Some(Scaled(intPart, fracPart[..decimals], decimals))
  }

  predicate Negative(s: string)
  {
    |s| > 0 && s[0] == '-'
  }

  /** The string without its leading '-'. */
  function Unsigned(s: string): string
  {
    if Negative(s) then s[1..] else s
  }

  /**
   * ethers.parseUnits: an optional '-', digits, optionally a point, and
   * digits, with at least one digit in all; the amount is the number times
   * 10^decimals, which must be whole.
   */
  function ParseUnits(s: string, decimals: nat): (r: Option<int>)
    ensures r.Some? ==>
              var parts := SplitAtPoint(Unsigned(s));
              && AllDigits(parts.0) && AllDigits(parts.1) && |parts.0| + |parts.1| > 0
              && (if Negative(s) then r.value <= 0 else r.value >= 0)
              && var m := if r.value < 0 then -r.value else r.value;
                 Value(parts.0) * Pow10(decimals) <= m < (Value(parts.0) + 1) * Pow10(decimals)
  {
    var parts := SplitAtPoint(Unsigned(s));
    match ScaledValue(parts.0, parts.1, decimals)
    case None => None
    case Some(v) =>
      var m: int := v;
      Some(if Negative(s) then -m else m)
  }

  /** The split at the first point is the only one with no point before it. */
  lemma SplitUnique(x: string, y: string, x': string, y': string)
    requires '.' !in x && '.' !in x' && x + "." + y == x' + "." + y'
    ensures x == x' && y == y'
  {
    var b := x + "." + y;
    assert |x| == |x'| by {
      assert b[|x|] == '.' && b[|x'|] == '.';
      assert forall i :: 0 <= i < |x| ==> b[i] == x[i] != '.';
      assert forall i :: 0 <= i < |x'| ==> b[i] == x'[i] != '.';
    }
    assert x == b[..|x|] == x';
    assert y == b[|x| + 1..] == y';
  }

  /** Text appended after a point extends the fraction. */
  lemma SplitAppend(b: string, x: string)
    requires '.' in b
    ensures SplitAtPoint(b + x) == (SplitAtPoint(b).0, SplitAtPoint(b).1 + x)
  {
    var w, f := SplitAtPoint(b).0, SplitAtPoint(b).1;
    assert b + x == w + "." + (f + x);
    assert '.' in b + x by { assert (b + x)[|w|] == '.'; }
    var r := SplitAtPoint(b + x);
    SplitUnique(r.0, r.1, w, f + x);
  }

  /** Appending to a non-empty string keeps its sign. */
  lemma UnsignedAppend(s: string, x: string)
    requires |s| > 0
    ensures Negative(s + x) == Negative(s) && Unsigned(s + x) == Unsigned(s) + x
  {
    if Negative(s) {
      assert (s + x)[1..] == s[1..] + x;
    }
  }

  /** An empty integer part reads as 0: ".5" is "0.5", "-.5" is "-0.5". */
  lemma ParseUnitsLeadingPoint(negative: bool, f: string, decimals: nat)
    requires |f| > 0
    ensures var sign := if negative then "-" else "";
            ParseUnits(sign + "." + f, decimals) == ParseUnits(sign + "0." + f, decimals)
  {
    var sign := if negative then "-" else "";
    var s1, s2 := sign + "." + f, sign + "0." + f;
    assert Unsigned(s1) == "." + f by {
      assert s1[0] == (if negative then '-' else '.');
      if negative { assert s1[1..] == "." + f; }
    }
    assert Unsigned(s2) == "0" + "." + f by {
      assert s2[0] == (if negative then '-' else '0');
      if negative { assert s2[1..] == "0" + "." + f; }
    }
    assert Negative(s1) == Negative(s2) == negative;
    assert "." + f == "" + "." + f;
    SplitUnique(SplitAtPoint(Unsigned(s1)).0, SplitAtPoint(Unsigned(s1)).1, "", f);
    SplitUnique(SplitAtPoint(Unsigned(s2)).0, SplitAtPoint(Unsigned(s2)).1, "0", f);
    ScaledEmptyWhole(f, decimals);
    ParseUnitsOfParts(s1, s2, decimals);
  }

  /** Two strings with the same sign and equally valued parts parse alike. */
  lemma ParseUnitsOfParts(s1: string, s2: string, decimals: nat)
    requires Negative(s1) == Negative(s2)
    requires var p1, p2 := SplitAtPoint(Unsigned(s1)), SplitAtPoint(Unsigned(s2));
             ScaledValue(p1.0, p1.1, decimals) == ScaledValue(p2.0, p2.1, decimals)
    ensures ParseUnits(s1, decimals) == ParseUnits(s2, decimals)
  {
  }

  lemma ScaledEmptyWhole(f: string, decimals: nat)
    requires |f| > 0
    ensures ScaledValue("", f, decimals) == ScaledValue("0", f, decimals)
  {
    assert Value("0") == 0 by { assert "0"[..0] == ""; }
  }

  /** An unsigned string parses as the scaled value of its two parts. */
  lemma ParseUnitsBySplit(s: string, w: string, f: string, decimals: nat)
    requires !Negative(s) && '.' in s && s == w + "." + f && '.' !in w
    ensures ParseUnits(s, decimals) == ScaledValue(w, f, decimals)
  {
    SplitUnique(SplitAtPoint(s).0, SplitAtPoint(s).1, w, f);
  }

  /** Zeros beyond the 6th fraction digit are accepted and dropped. */
  lemma ParseUnitsExcessZero()
    ensures ParseUnits("1.5000000", 6) == Some(1500000)
  {
    ParseUnitsBySplit("1.5000000", "1", "5000000", 6);
    ScaledExcessZero();
  }

  lemma ScaledExcessZero()
    ensures ScaledValue("1", "5000000", 6) == Some(1500000)
  {
    var f := "5000000";
    assert f == "500000" + "0";
    FiveHundredThousand();
    ValueAppend("500000", "0");
    ScaledDroppingZeros("1", f, 6);
    ScaledOneFive();
  }

  /** Zeros past `decimals` fraction digits are dropped. */
  lemma ScaledDroppingZeros(w: string, f: string, decimals: nat)
    requires AllDigits(w) && AllDigits(f) && |f| > decimals && AllZeros(f[decimals..])
    ensures ScaledValue(w, f, decimals) == Some(Scaled(w, f[..decimals], decimals))
  {
  }

  lemma ScaledOneFive()
    ensures AllDigits("500000") && Scaled("1", "500000", 6) == 1500000
  {
    FiveHundredThousand();
    assert Value("1") == 1;
    assert Pow10(6) == 1000000;
  }

  lemma FiveHundredThousand()
    ensures AllDigits("500000") && Value("500000") == 500000
  {
    assert "500000" == "5" + Zeros(5);
    ValueAppend("5", Zeros(5));
    ValueZeros(5);
    assert Value("5") == 5;
    assert Pow10(5) == 100000;
  }

  /** A non-zero 7th fraction digit is rejected at 6 decimals. */
  lemma ParseUnitsExcessNonZero()
    ensures ParseUnits("1.5000001", 6) == None
  {
    ParseUnitsBySplit("1.5000001", "1", "5000001", 6);
    ScaledExcessNonZero();
  }

  lemma ScaledExcessNonZero()
    ensures ScaledValue("1", "5000001", 6) == None
  {
    assert "5000001"[6..] == "1";
  }

  /** ".5" reads as "0.5". */
  lemma ParseUnitsBareFraction()
    ensures ParseUnits(".5", 6) == Some(500000)
  {
    ParseUnitsBySplit(".5", "", "5", 6);
    ScaledEmptyWhole("5", 6);
    ScaledZeroPointFive();
  }

  lemma ParseZeroPointFive()
    ensures ParseUnits("0.5", 6) == Some(500000)
  {
    ParseUnitsBySplit("0.5", "0", "5", 6);
    ScaledZeroPointFive();
  }

  lemma ScaledZeroPointFive()
    ensures ScaledValue("0", "5", 6) == Some(500000)
  {
    assert Value("0") == 0 && Value("5") == 5;
    assert Pow10(5) == 100000;
  }

  /** A trailing point is accepted; nothing, a bare point or a bare sign is not. */
  lemma ParseUnitsEdgeForms()
    ensures ParseUnits("1.", 6) == Some(1000000)
    ensures ParseUnits("", 6) == None
    ensures ParseUnits(".", 6) == None
    ensures ParseUnits("-", 6) == None
  {
    ParseUnitsBySplit("1.", "1", "", 6);
    ScaledOneWhole();
    ParseUnitsBySplit(".", "", "", 6);
    assert Unsigned("-") == "";
  }

  lemma ScaledOneWhole()
    ensures ScaledValue("1", "", 6) == Some(1000000)
  {
    assert Value("1") == 1;
    assert Pow10(6) == 1000000;
  }

  /** A zero appended to a fraction changes nothing, even past `decimals` digits. */
  lemma ParseUnitsTrailingZero(s: string, decimals: nat)
    requires '.' in Unsigned(s) && ParseUnits(s, decimals).Some?
    ensures ParseUnits(s + "0", decimals) == ParseUnits(s, decimals)
  {
    UnsignedAppend(s, "0");
    SplitAppend(Unsigned(s), "0");
    var w, f := SplitAtPoint(Unsigned(s)).0, SplitAtPoint(Unsigned(s)).1;
    ScaledTrailingZero(w, f, decimals);
  }

  lemma ScaledTrailingZero(w: string, f: string, decimals: nat)
    requires ScaledValue(w, f, decimals).Some?
    ensures ScaledValue(w, f + "0", decimals) == ScaledValue(w, f, decimals)
  {
    var f' := f + "0";
    assert f'[..|f|] == f;
    assert AllDigits(f');
    if |f| < decimals {
      ScaledAppendZero(w, f, decimals);
    } else {
      assert f'[decimals..] == f[decimals..] + "0";
      assert f'[..decimals] == f[..decimals];
      if |f| == decimals {
        assert f[..decimals] == f;
      }
    }
  }

  /** Within `decimals` digits, a zero appended to the fraction scales it by 10 and the unit by 1/10. */
  lemma ScaledAppendZero(w: string, f: string, decimals: nat)
    requires AllDigits(w) && AllDigits(f) && |f| < decimals
    ensures AllDigits(f + "0") && Scaled(w, f + "0", decimals) == Scaled(w, f, decimals)
  {
    var f', k := f + "0", decimals - |f|;
    assert f'[..|f|] == f;
    assert Value(f') == Value(f) * 10;
    var p := Pow10(k - 1);
    assert Pow10(k) == 10 * p;
    assert Value(f) * 10 * p == Value(f) * (10 * p);
  }

  /** A non-zero digit past `decimals` fraction digits makes the string unreadable. */
  lemma ParseUnitsExcessDigit(s: string, decimals: nat, c: char)
    requires '.' in Unsigned(s) && ParseUnits(s, decimals).Some?
    requires |SplitAtPoint(Unsigned(s)).1| >= decimals && '1' <= c <= '9'
    ensures ParseUnits(s + [c], decimals).None?
  {
    UnsignedAppend(s, [c]);
    SplitAppend(Unsigned(s), [c]);
    var parts := SplitAtPoint(Unsigned(s));
    ScaledExcessDigit(parts.0, parts.1, decimals, c);
  }

  lemma ScaledExcessDigit(w: string, f: string, decimals: nat, c: char)
    requires |f| >= decimals && '1' <= c <= '9'
    ensures ScaledValue(w, f + [c], decimals).None?
  {
    var f' := f + [c];
    assert f'[decimals..][|f'| - 1 - decimals] == c;
  }

  /** The digits of s denote less than 10^|s|. */
  lemma {:induction false} ValueBelow(s: string)
    requires AllDigits(s)
    ensures Value(s) < Pow10(|s|)
  {
    if |s| > 0 {
      ValueBelow(s[..|s| - 1]);
    }
  }

  /** The fraction adds less than one whole unit to the integer part. */
  lemma ScaledBounds(intPart: string, fracPart: string, decimals: nat)
    requires AllDigits(intPart) && AllDigits(fracPart) && |fracPart| <= decimals
    ensures Value(intPart) * Pow10(decimals) <= Scaled(intPart, fracPart, decimals)
                                            < (Value(intPart) + 1) * Pow10(decimals)
  {
    var x := Value(fracPart) * Pow10(decimals - |fracPart|);
    FractionBelowUnit(fracPart, decimals);
    assert Scaled(intPart, fracPart, decimals) == Value(intPart) * Pow10(decimals) + x;
    MulSucc(Value(intPart), Pow10(decimals));
  }

  /** A fraction of at most `decimals` digits, scaled to `decimals` places, is below one unit. */
  lemma FractionBelowUnit(fracPart: string, decimals: nat)
    requires AllDigits(fracPart) && |fracPart| <= decimals
    ensures 0 <= Value(fracPart) * Pow10(decimals - |fracPart|) < Pow10(decimals)
  {
    var k := decimals - |fracPart|;
    var v, p, q := Value(fracPart), Pow10(|fracPart|), Pow10(k);
    ValueBelow(fracPart);
    Pow10Add(|fracPart|, k);
    MulLeRight(v + 1, p, q);
    MulSucc(v, q);
    MulNat(v, q);
  }

  lemma {:induction false} ValueAppend(x: string, y: string)
    requires AllDigits(x) && AllDigits(y)
    ensures AllDigits(x + y)
    ensures Value(x + y) == Value(x) * Pow10(|y|) + Value(y)
  {
    if |y| == 0 {
      assert x + y == x;
    } else {
      var y', c := y[..|y| - 1], y[|y| - 1] as int - '0' as int;
      assert (x + y)[..|x + y| - 1] == x + y';
      ValueAppend(x, y');
      var vx, p := Value(x), Pow10(|y'|);
      assert Value(x + y) == (vx * p + Value(y')) * 10 + c;
      ShiftDigit(vx, p, Value(y'));
      assert Pow10(|y|) == 10 * p;
    }
  }

  lemma ShiftDigit(a: int, p: int, w: int)
    ensures (a * p + w) * 10 == a * (10 * p) + w * 10
  {
  }

  lemma {:induction false} ValueZeros(k: nat)
    ensures Value(Zeros(k)) == 0
  {
    if k > 0 {
      assert Zeros(k)[..k - 1] == Zeros(k - 1);
      ValueZeros(k - 1);
    }
  }

  /** Zero padding does not change the value of the digits. */
  lemma PaddedValue(amount: int, decimals: nat)
    ensures Value(PaddedDigits(amount, decimals)) == if amount < 0 then -amount else amount
  {
    var digits := NatToDigits(if amount < 0 then -amount else amount);
    var str := PaddedDigits(amount, decimals);
    var k := |str| - |digits|;
    assert str == Zeros(k) + digits;
    ValueAppend(Zeros(k), digits);
    ValueZeros(k);
  }

  /** A digit string is its integer part scaled by 10^decimals plus its fraction, scaled back up. */
  lemma SplitValue(str: string, decimals: nat)
    requires |str| >= decimals + 1 && AllDigits(str)
    ensures Value(str) == Scaled(IntPart(str, decimals), FracPart(str, decimals), decimals)
  {
    var intPart, frac0 := IntPart(str, decimals), str[|str| - decimals..];
    ValueAppend(intPart, frac0);
    var fracPart := FracPart(str, decimals);
    var z := decimals - |fracPart|;
    ValueAppend(fracPart, Zeros(z));
    ValueZeros(z);
  }

  /** The amount a formatted string denotes: integer part and fraction scaled by 10^decimals. */
  lemma FormatParts(amount: int, decimals: nat)
    ensures var str := PaddedDigits(amount, decimals);
            Scaled(IntPart(str, decimals), FracPart(str, decimals), decimals)
              == (if amount < 0 then -amount else amount)
  {
    PaddedValue(amount, decimals);
    SplitValue(PaddedDigits(amount, decimals), decimals);
  }

  lemma FirstPointAfterDigits(d: string, rest: string)
    requires AllDigits(d)
    ensures FirstIndex(d + rest, '.') == if '.' in rest then |d| + FirstIndex(rest, '.') else |d| + |rest|
    decreases |d|
  {
    if |d| > 0 {
      assert (d + rest)[1..] == d[1..] + rest;
      FirstPointAfterDigits(d[1..], rest);
    } else {
      assert d + rest == rest;
      if '.' !in rest {
        NoPointEnd(rest);
      }
    }
  }

  lemma NoPointEnd(s: string)
    requires '.' !in s
    ensures FirstIndex(s, '.') == |s|
  {
  }

  /** A signed, joined amount splits back into its sign, integer part and fraction. */
  lemma SplitJoined(negative: bool, intPart: string, fracPart: string)
    requires |intPart| >= 1 && AllDigits(intPart) && AllDigits(fracPart)
    requires |fracPart| == 0 || fracPart[|fracPart| - 1] != '0'
    ensures var s := (if negative then "-" else "") + Join(intPart, fracPart);
            (|s| > 0 && s[0] == '-') == negative &&
            SplitAtPoint(if negative then s[1..] else s) == (intPart, fracPart)
  {
    var body := Join(intPart, fracPart);
    SignPrefix(negative, body);
    SplitBody(intPart, fracPart);
  }

  /** A sign prefix is recognised and stripped, leaving the body. */
  lemma SignPrefix(negative: bool, body: string)
    requires |body| > 0 && body[0] != '-'
    ensures var s := (if negative then "-" else "") + body;
            (|s| > 0 && s[0] == '-') == negative && (if negative then s[1..] else s) == body
  {
    if negative {
      var s := "-" + body;
      assert s[1..] == body;
    } else {
      assert "" + body == body;
    }
  }

  /** Splitting a joined body at its first point gives back the two parts. */
  lemma SplitBody(intPart: string, fracPart: string)
    requires |intPart| >= 1 && AllDigits(intPart) && AllDigits(fracPart)
    requires |fracPart| == 0 || fracPart[|fracPart| - 1] != '0'
    ensures SplitAtPoint(Join(intPart, fracPart)) == (intPart, fracPart)
  {
    var body := Join(intPart, fracPart);
    var k := FirstIndex(body, '.');
    if |fracPart| > 0 {
      assert body == intPart + ("." + fracPart);
      FirstPointAfterDigits(intPart, "." + fracPart);
      assert k == |intPart| < |body|;
      assert body[k + 1..] == fracPart;
    } else {
      assert body == intPart + "";
      FirstPointAfterDigits(intPart, "");
      assert k == |body|;
    }
    assert body[..k] == intPart;
  }

  lemma ParseOfParts(s: string, decimals: nat, negative: bool, intPart: string, fracPart: string, v: int)
    requires Negative(s) == negative
    requires SplitAtPoint(Unsigned(s)) == (intPart, fracPart)
    requires ScaledValue(intPart, fracPart, decimals).Some? && ScaledValue(intPart, fracPart, decimals).value == v
    ensures ParseUnits(s, decimals) == Some(if negative then -v else v)
  {
  }

  /** Reading a formatted amount back gives the amount. */
  lemma ParseFormatRoundTrip(amount: int, decimals: nat)
    ensures ParseUnits(FormatUnits(amount, decimals), decimals) == Some(amount)
  {
    var str := PaddedDigits(amount, decimals);
    var intPart, fracPart := IntPart(str, decimals), FracPart(str, decimals);
    var s := FormatUnits(amount, decimals);
    var v := Scaled(intPart, fracPart, decimals);
    assert Negative(s) == (amount < 0) && SplitAtPoint(Unsigned(s)) == (intPart, fracPart) by {
      FormatUnitsParts(amount, decimals);
      SplitJoined(amount < 0, intPart, fracPart);
    }
    assert ScaledValue(intPart, fracPart, decimals) == Some(v);
    assert v == (if amount < 0 then -amount else amount) by { FormatParts(amount, decimals); }
    ParseOfParts(s, decimals, amount < 0, intPart, fracPart, v);
  }

  lemma FormatUnitsParts(amount: int, decimals: nat)
    ensures var str := PaddedDigits(amount, decimals);
            FormatUnits(amount, decimals)
              == (if amount < 0 then "-" else "") + Join(IntPart(str, decimals), FracPart(str, decimals))
  {
  }

  /**
   * ethers' formatUnits, which the dApp cards use: the sign, integer part
   * and trimmed fraction of FormatUnits, except that with decimals > 0 the
   * point and at least one fraction digit are always written ("1.0" where
   * FormatUnits writes "1"); with 0 decimals, plain digits.
   */
  function EthersFormatUnits(amount: int, decimals: nat): (r: string)
    ensures decimals == 0 ==> r == FormatUnits(amount, 0)
    ensures decimals > 0 ==> '.' in r && IsDigit(r[|r| - 1])
  {
    if decimals == 0 then FormatUnits(amount, 0)
    else
      var str := PaddedDigits(amount, decimals);
      PointJoin(if amount < 0 then "-" else "", IntPart(str, decimals), FracPart(str, decimals))
  }

  /** The sign, the integer part, a point, and the fraction, or "0" when it is empty. */
  function PointJoin(sign: string, intPart: string, frac: string): (r: string)
    requires AllDigits(frac)
    ensures '.' in r && IsDigit(r[|r| - 1])
  {
    var tail := if frac == "" then "0" else frac;
    assert IsDigit(tail[|tail| - 1]);
    var r := sign + intPart + "." + tail;
    assert r[|sign + intPart|] == '.';
    assert r[|r| - 1] == tail[|tail| - 1];
    r
  }

  /**
   * The two formatters differ only on amounts whose fraction is empty:
   * there ethers appends ".0" (with decimals > 0), elsewhere they agree.
   */
  lemma EthersFormatVsFormatUnits(amount: int, decimals: nat)
    ensures EthersFormatUnits(amount, decimals) ==
      if decimals > 0 && '.' !in FormatUnits(amount, decimals) then FormatUnits(amount, decimals) + ".0"
      else FormatUnits(amount, decimals)
  {
    if decimals > 0 {
      var str := PaddedDigits(amount, decimals);
      var sign := if amount < 0 then "-" else "";
      var intPart, frac := IntPart(str, decimals), FracPart(str, decimals);
      FormatUnitsParts(amount, decimals);
      assert FormatUnits(amount, decimals) == sign + Join(intPart, frac);
      assert EthersFormatUnits(amount, decimals) == PointJoin(sign, intPart, frac);
      JoinedForms(sign, intPart, frac);
    }
  }

  /** With a point and "0" for an empty fraction, a joined amount gains ".0" exactly when it has no point. */
  lemma JoinedForms(sign: string, intPart: string, frac: string)
    requires '.' !in sign
    requires |intPart| >= 1 && AllDigits(intPart) && AllDigits(frac)
    requires |frac| == 0 || frac[|frac| - 1] != '0'
    ensures var f := sign + Join(intPart, frac);
            PointJoin(sign, intPart, frac) == if '.' !in f then f + ".0" else f
  {
    var f := sign + Join(intPart, frac);
    assert PointJoin(sign, intPart, frac) == sign + intPart + "." + (if frac == "" then "0" else frac);
    if frac == "" {
      assert f == sign + intPart;
      assert '.' !in f by {
        forall i | 0 <= i < |f|
          ensures f[i] != '.'
        {
          if i < |sign| {
            assert f[i] == sign[i] && sign[i] in sign;
          } else {
            assert f[i] == intPart[i - |sign|];
          }
        }
      }
    } else {
      assert f == sign + intPart + "." + frac;
      assert f[|sign + intPart|] == '.';
    }
  }

  /** A point with nothing after it changes nothing: "1." reads as "1". */
  lemma ParseUnitsBarePoint(s: string, decimals: nat)
    requires '.' !in Unsigned(s) && |s| > 0
    ensures '.' in Unsigned(s + ".")
    ensures ParseUnits(s + ".", decimals) == ParseUnits(s, decimals)
  {
    var u := Unsigned(s);
    UnsignedAppend(s, ".");
    assert u + "." == u + "." + "";
    assert (u + ".")[|u|] == '.';
    var r := SplitAtPoint(u + ".");
    SplitUnique(r.0, r.1, u, "");
  }

  lemma NoPointUnsigned(s: string)
    requires '.' !in s
    ensures '.' !in Unsigned(s)
  {
    if Negative(s) {
      assert forall i :: 0 <= i < |s| - 1 ==> s[1..][i] == s[i + 1];
    }
  }

  /** Reading back what ethers' formatUnits writes gives the amount. */
  lemma EthersParseFormatRoundTrip(amount: int, decimals: nat)
    ensures ParseUnits(EthersFormatUnits(amount, decimals), decimals) == Some(amount)
  {
    var s := FormatUnits(amount, decimals);
    ParseFormatRoundTrip(amount, decimals);
    EthersFormatVsFormatUnits(amount, decimals);
    if decimals > 0 && '.' !in s {
      NoPointUnsigned(s);
      ParseUnitsBarePoint(s, decimals);
      ParseUnitsTrailingZero(s + ".", decimals);
      assert s + ".0" == (s + ".") + "0";
    }
  }

  /**
   * One whole token unit, at any positive number of decimals: FormatUnits
   * writes "1", ethers writes "1.0".
   */
  lemma EthersFormatWholeUnit(decimals: nat)
    requires decimals > 0
    ensures FormatUnits(Pow10(decimals), decimals) == "1"
    ensures EthersFormatUnits(Pow10(decimals), decimals) == "1.0"
  {
    FormatUnitsWholeUnit(decimals);
    EthersFormatVsFormatUnits(Pow10(decimals), decimals);
    PointZeroAfterOne(FormatUnits(Pow10(decimals), decimals), EthersFormatUnits(Pow10(decimals), decimals));
  }

  lemma PointZeroAfterOne(f: string, e: string)
    requires f == "1" && e == (if '.' !in f then f + ".0" else f)
    ensures e == "1.0"
  {
  }

  lemma FormatUnitsWholeUnit(decimals: nat)
    ensures FormatUnits(Pow10(decimals), decimals) == "1"
  {
    var str := PaddedDigits(Pow10(decimals), decimals);
    PowerDigits(decimals);
    assert str == "1" + Zeros(decimals);
    assert IntPart(str, decimals) == "1";
    assert str[|str| - decimals..] == Zeros(decimals);
    TrimZeros(decimals);
    FormatUnitsParts(Pow10(decimals), decimals);
  }

  /** The digits of 10^k are a 1 and k zeros. */
  lemma {:induction false} PowerDigits(k: nat)
    ensures NatToDigits(Pow10(k)) == "1" + Zeros(k)
  {
    if k > 0 {
      PowerDigits(k - 1);
      var n := Pow10(k);
      assert n / 10 == Pow10(k - 1) && n % 10 == 0;
      assert Zeros(k) == Zeros(k - 1) + "0";
    }
  }

  /** A run of zeros trims to nothing. */
  lemma {:induction false} TrimZeros(k: nat)
    ensures TrimTrailingZeros(Zeros(k)) == ""
  {
    if k > 0 {
      assert Zeros(k)[..k - 1] == Zeros(k - 1);
      TrimZeros(k - 1);
    }
  }
}

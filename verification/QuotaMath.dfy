/**
 Saturating quota conversions (common/quota_math.go) and the per-token charge built on them
 (controller/channel-test.go).

 A float64 is NaN, an infinity or a finite real.  The one place where its limited precision matters, the
 conversion of a rounded decimal, uses an explicit 53-bit round-half-even.
 */
module QuotaMath {
  import opened Common

  const MAX_QUOTA := 0x7FFF_FFFF
  const MIN_QUOTA := -0x8000_0000
  const TWO_53 := 0x20_0000_0000_0000
  const MAX_WALLET_QUOTA := TWO_53 - 1

  datatype Float = NaN | NegInf | Finite(value: real) | PosInf

  datatype ClampKind = Overflow | Underflow | NotANumber

  /** A converted quota and, when it was saturated, why. */
  datatype Conversion = Conversion(quota: int, clamp: Option<ClampKind>)

  /** math.Round and decimal.Round(0) */
  function RoundHalfAway(x: real): int {
    if x >= 0.0 then (x + 0.5).Floor else -((-x + 0.5).Floor)
  }

  /** Go's int(x) for a float in range */
  function Truncate(x: real): int {
    if x >= 0.0 then x.Floor else -((-x).Floor)
  }

  function SaturateBounded(v: Float, max: int, min: int): Conversion {
    match v
    case NaN => Conversion(0, Some(NotANumber))
    case PosInf => Conversion(max, Some(Overflow))
    case NegInf => Conversion(min, Some(Underflow))
    case Finite(x) =>
      if x > max as real then Conversion(max, Some(Overflow))
      else if x < min as real then Conversion(min, Some(Underflow))
      else Conversion(Truncate(x), None)
  }

  function Saturate(v: Float): Conversion {
    SaturateBounded(v, MAX_QUOTA, MIN_QUOTA)
  }

  function RoundFloat(v: Float): Float {
    if v.Finite? then Finite(RoundHalfAway(v.value) as real) else v
  }

  function QuotaFromFloatChecked(v: Float): Conversion { Saturate(v) }

  function QuotaRoundChecked(v: Float): Conversion { Saturate(RoundFloat(v)) }

  function QuotaFromDecimalChecked(d: real): Conversion { Saturate(ToFloat(RoundHalfAway(d))) }

  /** The strict variants turn a clamp into an error. */
  function Strict(c: Conversion): Option<int> {
    if c.clamp.Some? then None else Some(c.quota)
  }

  function WalletQuotaFromDecimalStrict(d: real): Option<int> {
    Strict(SaturateBounded(ToFloat(RoundHalfAway(d)), MAX_WALLET_QUOTA, -MAX_WALLET_QUOTA))
  }

  // ---------------------------------------------------------------- integers as float64

  function Pow2(k: nat): (p: nat)
    ensures p >= 1
  {
    if k == 0 then 1 else 2 * Pow2(k - 1)
  }

  /** The leading 53 bits of `n` and the number of bits cut off. */
  function Leading(n: nat): (nat, nat) {
    if n < TWO_53 then (n, 0) else var (q, k) := Leading(n / 2); (q, k + 1)
  }

  /** The float64 nearest to `n`, ties to an even significand; still an integer. */
  function Nearest(n: nat): int {
    var (q, k) := Leading(n);
    var unit := Pow2(k);
    var rest := n - q * unit;
    if 2 * rest > unit || (2 * rest == unit && q % 2 == 1) then (q + 1) * unit else q * unit
  }

  function ToFloat(n: int): Float {
    if n >= 0 then (if Nearest(n) >= Pow2(1024) then PosInf else Finite(Nearest(n) as real))
    else if Nearest(-n) >= Pow2(1024) then NegInf
    else Finite(-(Nearest(-n) as real))
  }

  lemma {:induction false} LeadingBounds(n: nat)
    ensures var (q, k) := Leading(n); q * Pow2(k) <= n < (q + 1) * Pow2(k)
    ensures n >= TWO_53 ==> Leading(n).0 >= TWO_53 / 2 && Leading(n).1 >= 1
    ensures n < TWO_53 ==> Leading(n) == (n, 0)
  {
    if n >= TWO_53 {
      LeadingBounds(n / 2);
      var (q, k) := Leading(n / 2);
      var p := Pow2(k);
      assert q * (2 * p) == 2 * (q * p) && (q + 1) * (2 * p) == 2 * ((q + 1) * p);
    }
  }

  /** Exact below 2^53, never below 2^53 from there on, and off by at most half a unit. */
  lemma NearestBounds(n: nat)
    ensures n < TWO_53 ==> Nearest(n) == n
    ensures n >= TWO_53 ==> Nearest(n) >= TWO_53
    ensures var unit: int := Pow2(Leading(n).1); -unit <= 2 * (Nearest(n) - n) <= unit
  {
    LeadingBounds(n);
    hide Leading;
    var (q, k) := Leading(n);
    var unit := Pow2(k);
    assert (q + 1) * unit == q * unit + unit;
    if n >= TWO_53 {
      assert unit == 2 * Pow2(k - 1);
      MulAtLeast(q, TWO_53 / 2, unit, 2);
    }
  }

  lemma MulAtLeast(a: nat, b: nat, c: nat, d: nat)
    requires a >= b && c >= d
    ensures a * c >= b * d
  {
  }

  lemma {:induction false} Pow2Large(k: nat)
    requires k >= 53
    ensures Pow2(k) >= TWO_53
  {
    if k == 53 {
      Pow2Is53();
    } else {
      Pow2Large(k - 1);
    }
  }

  lemma Pow2Is53()
    ensures Pow2(53) == TWO_53
  {
    assert Pow2(10) == 1024;
    assert Pow2(20) == 1024 * 1024 by { Pow2Add(10, 10); }
    assert Pow2(40) == 1024 * 1024 * 1024 * 1024 by { Pow2Add(20, 20); }
    assert Pow2(50) == 1024 * 1024 * 1024 * 1024 * 1024 by { Pow2Add(40, 10); }
    assert Pow2(53) == 8 * Pow2(50);
  }

  lemma {:induction false} Pow2Add(a: nat, b: nat)
    ensures Pow2(a + b) == Pow2(a) * Pow2(b)
  {
    if b > 0 {
      Pow2Add(a, b - 1);
    }
  }

  /** What a rounded decimal looks like after passing through float64: itself, or something at least 2^53. */
  lemma ThroughFloat(n: int)
    ensures -TWO_53 < n < TWO_53 ==> ToFloat(n) == Finite(n as real)
    ensures n >= TWO_53 ==> ToFloat(n).PosInf? || (ToFloat(n).Finite? && ToFloat(n).value >= TWO_53 as real)
    ensures n <= -TWO_53 ==> ToFloat(n).NegInf? || (ToFloat(n).Finite? && ToFloat(n).value <= -(TWO_53 as real))
  {
    NearestBounds(if n >= 0 then n else -n);
    Pow2Large(1024);
  }

  // ---------------------------------------------------------------- what the conversions promise

  /** Half-away-from-zero: the nearest integer, and on a tie the one with the larger magnitude. */
  lemma RoundIsNearest(x: real)
    ensures var n := RoundHalfAway(x) as real;
            && -0.5 <= n - x <= 0.5
            && (n - x == 0.5 ==> x >= 0.0) && (n - x == -0.5 ==> x < 0.0)
    ensures RoundHalfAway(-x) == -RoundHalfAway(x)
  {
  }

  /** Truncation drops the fraction towards zero. */
  lemma TruncateIs(x: real)
    ensures x >= 0.0 ==> 0.0 <= Truncate(x) as real <= x < Truncate(x) as real + 1.0
    ensures x <= 0.0 ==> Truncate(x) as real - 1.0 < x <= Truncate(x) as real <= 0.0
  {
  }

  /** The bounds of a quota and of a wallet, and what becomes of values that are no numbers. */
  lemma SpecialValues()
    ensures MAX_QUOTA == 2147483647 && MIN_QUOTA == -2147483648 && MAX_WALLET_QUOTA == 9007199254740991
    ensures QuotaFromFloatChecked(NaN) == QuotaRoundChecked(NaN) == Conversion(0, Some(NotANumber))
    ensures QuotaFromFloatChecked(PosInf) == QuotaRoundChecked(PosInf) == Conversion(2147483647, Some(Overflow))
    ensures QuotaFromFloatChecked(NegInf) == QuotaRoundChecked(NegInf) == Conversion(-2147483648, Some(Underflow))
  {
  }

  lemma RoundMonotone(x: real, y: real)
    requires x <= y
    ensures RoundHalfAway(x) <= RoundHalfAway(y)
  {
  }

  /** The order on float64 values other than NaN. */
  predicate Leq(v: Float, w: Float) {
    match (v, w)
    case (NaN, _) => false
    case (_, NaN) => false
    case (NegInf, _) => true
    case (_, PosInf) => true
    case (Finite(x), Finite(y)) => x <= y
    case _ => false
  }

  function Limit(n: int, max: int, min: int): int {
    if n > max then max else if n < min then min else n
  }

  /** QuotaRound reports a clamp exactly when the rounded value is out of range (or there is none). */
  lemma RoundConversion(x: real)
    ensures var c := QuotaRoundChecked(Finite(x)); var n := RoundHalfAway(x);
            && c.quota == Limit(n, MAX_QUOTA, MIN_QUOTA)
            && (c.clamp.None? <==> MIN_QUOTA <= n <= MAX_QUOTA)
            && (c.clamp == Some(Overflow) <==> n > MAX_QUOTA) && (c.clamp == Some(Underflow) <==> n < MIN_QUOTA)
  {
  }

  /** So does QuotaFromDecimal, although the rounded decimal passes through float64 first. */
  lemma DecimalConversion(d: real)
    ensures var c := QuotaFromDecimalChecked(d); var n := RoundHalfAway(d);
            && c.quota == Limit(n, MAX_QUOTA, MIN_QUOTA)
            && (c.clamp.None? <==> MIN_QUOTA <= n <= MAX_QUOTA)
            && (c.clamp == Some(Overflow) <==> n > MAX_QUOTA) && (c.clamp == Some(Underflow) <==> n < MIN_QUOTA)
  {
    ThroughFloat(RoundHalfAway(d));
  }

  /**
   QuotaFromFloat truncates but compares first.  Its result is the truncated value limited to the range; a
   clamp is reported without need exactly for values strictly between a bound and the next integer outward.
   */
  lemma TruncatingConversion(x: real)
    ensures var c := QuotaFromFloatChecked(Finite(x)); var n := Truncate(x);
            && c.quota == Limit(n, MAX_QUOTA, MIN_QUOTA)
            && ((c.clamp.None? <==> MIN_QUOTA <= n <= MAX_QUOTA) <==>
                  !(MAX_QUOTA as real < x < (MAX_QUOTA + 1) as real)
                  && !((MIN_QUOTA - 1) as real < x < MIN_QUOTA as real))
  {
  }

  /** Half a unit above the maximum: the truncated value fits, and a clamp is reported all the same. */
  lemma NeedlessClamp()
    ensures var x := MAX_QUOTA as real + 0.5;
            Truncate(x) == MAX_QUOTA && QuotaFromFloatChecked(Finite(x)) == Conversion(MAX_QUOTA, Some(Overflow))
  {
  }

  lemma FloatConversionsAreMonotone(v: Float, w: Float)
    requires Leq(v, w)
    ensures MIN_QUOTA <= QuotaFromFloatChecked(v).quota <= QuotaFromFloatChecked(w).quota <= MAX_QUOTA
    ensures MIN_QUOTA <= QuotaRoundChecked(v).quota <= QuotaRoundChecked(w).quota <= MAX_QUOTA
  {
    if v.Finite? && w.Finite? {
      TruncatingConversion(v.value);
      TruncatingConversion(w.value);
      QuotaRoundMonotone(v.value, w.value);
    } else if v.Finite? {
      TruncatingConversion(v.value);
      RoundConversion(v.value);
    } else if w.Finite? {
      TruncatingConversion(w.value);
      RoundConversion(w.value);
    }
  }

  /** Every conversion is total, stays within the int32 range, and never reverses an order. */
  lemma ConversionsAreMonotone(v: Float, w: Float, d: real, e: real)
    requires Leq(v, w) && d <= e
    ensures MIN_QUOTA <= QuotaFromFloatChecked(v).quota <= QuotaFromFloatChecked(w).quota <= MAX_QUOTA
    ensures MIN_QUOTA <= QuotaRoundChecked(v).quota <= QuotaRoundChecked(w).quota <= MAX_QUOTA
    ensures MIN_QUOTA <= QuotaFromDecimalChecked(d).quota <= QuotaFromDecimalChecked(e).quota <= MAX_QUOTA
  {
    FloatConversionsAreMonotone(v, w);
    RoundMonotone(d, e);
    DecimalConversion(d);
    DecimalConversion(e);
  }

  /**
   A wallet amount is accepted exactly when its half-away-from-zero rounding is at most 2^53 - 1 in
   magnitude, and then it is that rounding, bit for bit.
   */
  lemma WalletIsExact(d: real)
    ensures WalletQuotaFromDecimalStrict(d).Some? <==> -MAX_WALLET_QUOTA <= RoundHalfAway(d) <= MAX_WALLET_QUOTA
    ensures WalletQuotaFromDecimalStrict(d).Some? ==> WalletQuotaFromDecimalStrict(d).value == RoundHalfAway(d)
  {
    ThroughFloat(RoundHalfAway(d));
  }

  /** The bound cannot be raised by one: 2^53 and 2^53 + 1 are the same float64. */
  lemma WalletBoundIsTight()
    ensures ToFloat(TWO_53) == ToFloat(TWO_53 + 1) == Finite(TWO_53 as real)
  {
    Pow2Large(1024);
    Pow2Is53();
    assert Leading(TWO_53) == (TWO_53 / 2, 1) == Leading(TWO_53 + 1);
    assert Pow2(1) == 2;
    NearestBounds(TWO_53);
    assert Nearest(TWO_53 + 1) == TWO_53;
    Pow2Strict(53, 1024);
  }

  lemma {:induction false} Pow2Strict(a: nat, b: nat)
    requires a < b
    ensures Pow2(a) < Pow2(b)
  {
    if a + 1 < b {
      Pow2Strict(a, b - 1);
    }
  }

  // ---------------------------------------------------------------- the charge of a channel test

  const QUOTA_PER_UNIT := 500000.0

  datatype PriceData = PriceData(usePrice: bool, modelPrice: real, modelRatio: real, completionRatio: real)

  function QuotaRound(x: real): int { QuotaRoundChecked(Finite(x)).quota }

  /** A token count times a ratio. */
  function Scaled(x: real, ratio: real): real { x * ratio }

  /** Prompt tokens plus an amount for the completion tokens, each rounded and saturated. */
  function SumTokens(promptTokens: int, completion: real): int {
    QuotaRound(promptTokens as real + QuotaRound(completion) as real)
  }

  function WeightedTokens(completionRatio: real, promptTokens: int, completionTokens: int): int {
    SumTokens(promptTokens, Scaled(completionTokens as real, completionRatio))
  }

  function RatioQuota(modelRatio: real, tokens: int): int {
    QuotaRound(Scaled(tokens as real, modelRatio))
  }

  /** settleTestQuota without tiered billing. */
  function Charge(price: PriceData, promptTokens: int, completionTokens: int): int {
    if price.usePrice then QuotaFromFloatChecked(Finite(price.modelPrice * QUOTA_PER_UNIT)).quota
    else
      var quota := RatioQuota(price.modelRatio, WeightedTokens(price.completionRatio, promptTokens, completionTokens));
      if price.modelRatio != 0.0 && quota <= 0 then 1 else quota
  }

  lemma QuotaRoundMonotone(x: real, y: real)
    requires x <= y
    ensures MIN_QUOTA <= QuotaRound(x) <= QuotaRound(y) <= MAX_QUOTA
  {
    RoundMonotone(x, y);
    RoundConversion(x);
    RoundConversion(y);
  }

  lemma ScaledMonotone(x: real, y: real, f: real)
    requires x <= y && f >= 0.0
    ensures Scaled(x, f) <= Scaled(y, f)
  {
  }

  /** The two inner roundings, for the weighted completion tokens `x` and `y`. */
  lemma TokensMonotone(x: real, y: real, p: int, p': int)
    requires x <= y && p <= p'
    ensures SumTokens(p, x) <= SumTokens(p', y)
  {
    hide QuotaRound;
    QuotaRoundMonotone(x, y);
    QuotaRoundMonotone(p as real + QuotaRound(x) as real, p' as real + QuotaRound(y) as real);
  }

  /** More tokens never cost less. */
  lemma ChargeIsMonotone(price: PriceData, p: int, c: int, p': int, c': int)
    requires p <= p' && c <= c' && price.modelRatio >= 0.0 && price.completionRatio >= 0.0
    ensures Charge(price, p, c) <= Charge(price, p', c')
  {
    hide QuotaRound, Scaled, SumTokens;
    ScaledMonotone(c as real, c' as real, price.completionRatio);
    TokensMonotone(Scaled(c as real, price.completionRatio), Scaled(c' as real, price.completionRatio), p, p');
    var w, w' := WeightedTokens(price.completionRatio, p, c), WeightedTokens(price.completionRatio, p', c');
    ScaledMonotone(w as real, w' as real, price.modelRatio);
    QuotaRoundMonotone(Scaled(w as real, price.modelRatio), Scaled(w' as real, price.modelRatio));
  }

  /** A ratio-priced test costs between 1 and MAX_QUOTA exactly when the ratio is not zero; else nothing. */
  lemma ChargeRange(price: PriceData, p: int, c: int)
    requires !price.usePrice
    ensures 1 <= Charge(price, p, c) <= MAX_QUOTA <==> price.modelRatio != 0.0
    ensures price.modelRatio == 0.0 ==> Charge(price, p, c) == 0
  {
  }

  predicate Within(x: real, y: real, h: real) {
    x - y <= h && y - x <= h
  }

  /** None of the three roundings saturates. */
  predicate Unsaturated(promptTokens: int, completion: real, ratio: real) {
    && QuotaRoundChecked(Finite(completion)).clamp.None?
    && QuotaRoundChecked(Finite(promptTokens as real + QuotaRound(completion) as real)).clamp.None?
    && QuotaRoundChecked(Finite(Scaled(SumTokens(promptTokens, completion) as real, ratio))).clamp.None?
  }

  lemma ScaledAbove(x: real, y: real, f: real)
    requires x - y <= 0.5 && f >= 0.0
    ensures Scaled(x, f) - Scaled(y, f) <= 0.5 * f
  {
    assert (0.5 - (x - y)) * f >= 0.0;
    assert (0.5 - (x - y)) * f == 0.5 * f - (x * f - y * f);
  }

  lemma ScaledWithin(x: real, y: real, f: real)
    requires Within(x, y, 0.5) && f >= 0.0
    ensures Within(Scaled(x, f), Scaled(y, f), 0.5 * f)
  {
    hide Scaled;
    ScaledAbove(x, y, f);
    ScaledAbove(y, x, f);
  }

  /** Rounding without saturation adds at most one half to the distance from `exact`. */
  lemma RoundWithin(x: real, exact: real, h: real)
    requires QuotaRoundChecked(Finite(x)).clamp.None? && Within(x, exact, h)
    ensures Within(QuotaRound(x) as real, exact, h + 0.5)
  {
    RoundConversion(x);
    RoundIsNearest(x);
  }

  /** The weighted tokens are within half a quota of the exact sum: only one of their roundings matters. */
  lemma TokensWithin(p: int, x: real)
    requires QuotaRoundChecked(Finite(x)).clamp.None?
    requires QuotaRoundChecked(Finite(p as real + QuotaRound(x) as real)).clamp.None?
    ensures Within(SumTokens(p, x) as real, p as real + x, 0.5)
  {
    hide QuotaRoundChecked;
    RoundWithin(x, x, 0.0);
    IntegerRound(p + QuotaRound(x));
    assert p as real + QuotaRound(x) as real == (p + QuotaRound(x)) as real;
  }

  lemma IntegerRound(n: int)
    requires QuotaRoundChecked(Finite(n as real)).clamp.None?
    ensures QuotaRound(n as real) == n
  {
    RoundConversion(n as real);
  }

  /**
   Rounding three times costs at most half a quota for the result and half a quota's worth of ratio for the
   tokens: the charge before the minimum-charge rule is that close to ratio * (prompt + completion * weight).
   */
  lemma ChargeError(price: PriceData, p: int, c: int)
    requires price.modelRatio >= 0.0
    requires Unsaturated(p, Scaled(c as real, price.completionRatio), price.modelRatio)
    ensures var quota := RatioQuota(price.modelRatio, WeightedTokens(price.completionRatio, p, c));
            var exact := Scaled(p as real + Scaled(c as real, price.completionRatio), price.modelRatio);
            Within(quota as real, exact, 0.5 * price.modelRatio + 0.5)
  {
    hide QuotaRoundChecked, QuotaRound, Scaled, SumTokens, Within;
    var x := Scaled(c as real, price.completionRatio);
    TokensWithin(p, x);
    var w := SumTokens(p, x) as real;
    ScaledWithin(w, p as real + x, price.modelRatio);
    RoundWithin(Scaled(w, price.modelRatio), Scaled(p as real + x, price.modelRatio), 0.5 * price.modelRatio);
  }

  /** The exact product a ratio-priced test is charged for. */
  function ExactProduct(price: PriceData, p: int, c: int): real {
    (p as real + c as real * price.completionRatio) * price.modelRatio
  }

  /** Without saturation a charge above 1 is within half a ratio plus one half of the exact product. */
  lemma ChargeNearProduct(price: PriceData, p: int, c: int)
    requires !price.usePrice && price.modelRatio >= 0.0
    requires Unsaturated(p, Scaled(c as real, price.completionRatio), price.modelRatio)
    ensures Charge(price, p, c) > 1 ==>
              Within(Charge(price, p, c) as real, ExactProduct(price, p, c), 0.5 * price.modelRatio + 0.5)
    ensures ExactProduct(price, p, c) > 0.5 * price.modelRatio + 1.5 ==> Charge(price, p, c) > 1
  {
    ChargeError(price, p, c);
    ExactProductIs(price, p, c);
    hide Scaled, Unsaturated, WeightedTokens, RatioQuota, ExactProduct;
  }

  lemma ExactProductIs(price: PriceData, p: int, c: int)
    ensures ExactProduct(price, p, c)
            == Scaled(p as real + Scaled(c as real, price.completionRatio), price.modelRatio)
  {
  }

  /** A charge of 1 is the minimum rule: the rounded product is at most 1 and the ratio is not zero. */
  lemma MinimumCharge(price: PriceData, p: int, c: int)
    requires !price.usePrice
    ensures var quota := RatioQuota(price.modelRatio, WeightedTokens(price.completionRatio, p, c));
            && (Charge(price, p, c) == 1 <==> quota <= 1 && (price.modelRatio != 0.0 || quota == 1))
            && (quota > 1 ==> Charge(price, p, c) == quota)
            && (price.modelRatio == 0.0 ==> Charge(price, p, c) == 0)
  {
    ChargeRange(price, p, c);
    hide RatioQuota, WeightedTokens;
  }

  /** Whole ratios are charged exactly. */
  lemma WholeRatioCharge(p: nat, c: nat, completionRatio: nat, modelRatio: nat)
    requires (p + c * completionRatio) * modelRatio <= 2147483647 && p + c * completionRatio <= 2147483647
    requires c * completionRatio <= 2147483647
    ensures var price := PriceData(false, 0.0, modelRatio as real, completionRatio as real);
            var product := (p + c * completionRatio) * modelRatio;
            Charge(price, p, c) == if product == 0 && modelRatio != 0 then 1 else product
  {
    var price := PriceData(false, 0.0, modelRatio as real, completionRatio as real);
    var x, t := c * completionRatio, p + c * completionRatio;
    WholeProduct(c, completionRatio);
    WholeRound(x);
    WholeRound(t);
    assert p as real + x as real == t as real;
    WholeProduct(t, modelRatio);
    WholeProductNat(t, modelRatio);
    WholeRound(t * modelRatio);
    hide QuotaRound, Scaled;
  }

  lemma WholeProduct(a: int, b: int)
    ensures Scaled(a as real, b as real) == (a * b) as real
  {
  }

  lemma WholeProductNat(a: nat, b: nat)
    ensures a * b >= 0
  {
  }

  lemma WholeRound(n: int)
    requires 0 <= n <= 2147483647
    ensures QuotaRound(n as real) == n
  {
    RoundConversion(n as real);
    RoundIsNearest(n as real);
  }

  /** 1000 prompt and 500 completion tokens at ratio 1 and completion ratio 2 cost 2000. */
  lemma ChargeExample()
    ensures Charge(PriceData(false, 0.0, 1.0, 2.0), 1000, 500) == 2000
  {
    WholeRatioCharge(1000, 500, 2, 1);
  }

  /** A fixed price costs 500000 quota a unit, truncated and kept in the range of a quota, whatever the tokens. */
  lemma FixedPriceCharge(price: PriceData, p: int, c: int)
    requires price.usePrice
    ensures var product, charge := price.modelPrice * 500000.0, Charge(price, p, c) as real;
            && (0.0 <= product < 2147483648.0 ==> charge <= product < charge + 1.0)
            && (-2147483649.0 < product <= 0.0 ==> charge - 1.0 < product <= charge)
            && (product >= 2147483648.0 ==> charge == 2147483647.0)
            && (product <= -2147483649.0 ==> charge == -2147483648.0)
  {
    TruncatingConversion(price.modelPrice * QUOTA_PER_UNIT);
    TruncateIs(price.modelPrice * QUOTA_PER_UNIT);
  }
}

/**
  The standalone pricing formulas of src/utils/calculations.ts: the
  custom-resource rate, the SWAT-team rate and the AED-pivot currency
  conversion. Amounts are exact rationals; `Math.round` is JsMath.Round.
 */
module Calculations {
  import opened JsMath

  /** SWAT_TEAM_DISCOUNT of src/lib/constants.ts: the fixed 20% team discount. */
  const SWAT_TEAM_DISCOUNT: real := 0.2

  /** The reference currency every rate is stored in and every conversion pivots through. */
  const AED: string := "AED"

  /** `calculateCustomResourceRate`: the monthly rate, rounded once to a whole
      unit; the result is the integer nearest to the exact product
      (halves upward). */
  function CustomResourceRate(baseRate: real, regionalMultiplier: real, seniorityMultiplier: real): (rate: int)
    ensures rate as real - 0.5 <= baseRate * regionalMultiplier * seniorityMultiplier < rate as real + 0.5
  {
    Round(baseRate * regionalMultiplier * seniorityMultiplier)
  }

  /** The regional and seniority multipliers play symmetric roles. */
  lemma CustomResourceRateSymmetric(baseRate: real, regionalMultiplier: real, seniorityMultiplier: real)
    ensures CustomResourceRate(baseRate, regionalMultiplier, seniorityMultiplier)
         == CustomResourceRate(baseRate, seniorityMultiplier, regionalMultiplier)
  {
    assert baseRate * regionalMultiplier * seniorityMultiplier
        == baseRate * seniorityMultiplier * regionalMultiplier;
  }

  /** `calculateSwatTeamRate`: the running value is multiplied by the
      seniority, the workload fraction, the duration discount and the team
      discount, and only the final value is rounded, so the result is the
      integer nearest to the exact product. */
  function SwatTeamRate(baseRate: real, seniorityMultiplier: real, workloadPercentage: real,
                        durationDiscount: real, swatDiscount: real := SWAT_TEAM_DISCOUNT): (rate: int)
    ensures var exact := baseRate * seniorityMultiplier * (workloadPercentage / 100.0)
                         * (1.0 - durationDiscount / 100.0) * (1.0 - swatDiscount);
            rate as real - 0.5 <= exact < rate as real + 0.5
  {
    var baseWithSeniority := baseRate * seniorityMultiplier;
    var withWorkload := baseWithSeniority * (workloadPercentage / 100.0);
    var withDurationDiscount := withWorkload * (1.0 - durationDiscount / 100.0);
    var withSwatDiscount := withDurationDiscount * (1.0 - swatDiscount);
    Round(withSwatDiscount)
  }

  /** Full time, no duration discount and no team discount: the SWAT rate is
      the custom-resource rate with a neutral regional multiplier. */
  lemma SwatWithoutDiscountsIsCustomRate(baseRate: real, seniorityMultiplier: real)
    ensures SwatTeamRate(baseRate, seniorityMultiplier, 100.0, 0.0, 0.0)
         == CustomResourceRate(baseRate, 1.0, seniorityMultiplier)
  {
  }

  /** With non-negative factors and a team discount of at most 100%, a larger
      duration discount never raises the SWAT rate. */
  lemma SwatRateMonotoneInDuration(baseRate: real, seniorityMultiplier: real, workloadPercentage: real,
                                   smaller: real, larger: real, swatDiscount: real)
    requires baseRate >= 0.0 && seniorityMultiplier >= 0.0 && workloadPercentage >= 0.0
    requires swatDiscount <= 1.0
    requires smaller <= larger
    ensures SwatTeamRate(baseRate, seniorityMultiplier, workloadPercentage, larger, swatDiscount)
         <= SwatTeamRate(baseRate, seniorityMultiplier, workloadPercentage, smaller, swatDiscount)
  {
    var w := baseRate * seniorityMultiplier * (workloadPercentage / 100.0);
    var s := 1.0 - swatDiscount;
    assert w >= 0.0 && s >= 0.0;
    var ws := w * s;
    assert ws >= 0.0;
    assert (1.0 - larger / 100.0) <= (1.0 - smaller / 100.0);
    assert ws * (1.0 - larger / 100.0) <= ws * (1.0 - smaller / 100.0);
    assert w * (1.0 - larger / 100.0) * s == ws * (1.0 - larger / 100.0);
    assert w * (1.0 - smaller / 100.0) * s == ws * (1.0 - smaller / 100.0);
    RoundMonotonic(w * (1.0 - larger / 100.0) * s, w * (1.0 - smaller / 100.0) * s);
  }

  /** At most full time, a non-negative duration discount and a team discount
      between 0 and 100%: the SWAT rate never exceeds the undiscounted
      full-time rate `round(base × seniority)`. */
  lemma SwatRateAtMostFullRate(baseRate: real, seniorityMultiplier: real, workloadPercentage: real,
                               durationDiscount: real, swatDiscount: real)
    requires baseRate >= 0.0 && seniorityMultiplier >= 0.0
    requires 0.0 <= workloadPercentage <= 100.0
    requires durationDiscount >= 0.0
    requires 0.0 <= swatDiscount <= 1.0
    ensures SwatTeamRate(baseRate, seniorityMultiplier, workloadPercentage, durationDiscount, swatDiscount)
         <= Round(baseRate * seniorityMultiplier)
  {
    var b := baseRate * seniorityMultiplier;
    assert b >= 0.0;
    RoundOfDiscountedAtMost(b, workloadPercentage / 100.0, 1.0 - durationDiscount / 100.0, 1.0 - swatDiscount);
  }

  /** Rounding a non-negative amount scaled by three factors of at most 1,
      two of them non-negative, gives at most the rounded amount. */
  lemma RoundOfDiscountedAtMost(b: real, f: real, d: real, s: real)
    requires b >= 0.0 && 0.0 <= f <= 1.0 && d <= 1.0 && 0.0 <= s <= 1.0
    ensures Round(b * f * d * s) <= Round(b)
  {
    ScaleDown(b, f);
    assert b * f <= b;
    ScaleDown(b * f, s);
    assert b * f * s <= b * f;
    ScaleDown(b * f * s, d);
    assert b * f * s * d <= b * f * s;
    SwapLastTwo(b * f, d, s);
    assert b * f * d * s <= b;
    RoundMonotonic(b * f * d * s, b);
  }

  lemma SwapLastTwo(x: real, y: real, z: real)
    ensures x * y * z == x * z * y
  {
  }

  /** Scaling a non-negative amount by a factor of at most 1 does not raise it. */
  lemma ScaleDown(x: real, t: real)
    requires x >= 0.0 && t <= 1.0
    ensures x * t <= x
    ensures t >= 0.0 ==> x * t >= 0.0
  {
    assert x * t == x - x * (1.0 - t);
    assert x * (1.0 - t) >= 0.0;
  }

  /** Units of `code` per AED, as the conversion uses it: AED itself is 1
      whatever the table says. */
  function UnitsPerAed(code: string, exchangeRates: map<string, real>): (units: real)
    requires code == AED || code in exchangeRates
  {
    if code == AED then 1.0 else exchangeRates[code]
  }

  /** The rates a conversion reads are present: the source (divided by) is
      non-zero, the target is present; neither is read for AED or for a
      conversion to the same currency. */
  predicate CanConvert(fromCurrency: string, toCurrency: string, exchangeRates: map<string, real>)
  {
    fromCurrency == toCurrency ||
    ((fromCurrency == AED || (fromCurrency in exchangeRates && exchangeRates[fromCurrency] != 0.0)) &&
     (toCurrency == AED || toCurrency in exchangeRates))
  }

  /** `convertCurrency`: the same currency passes through untouched;
      otherwise the amount is taken to AED, then to the target, and rounded
      to whole cents. */
  function ConvertCurrency(amount: real, fromCurrency: string, toCurrency: string,
                           exchangeRates: map<string, real>): (converted: real)
    requires CanConvert(fromCurrency, toCurrency, exchangeRates)
    ensures fromCurrency == toCurrency ==> converted == amount
    ensures fromCurrency != toCurrency ==>
              var exact := amount / UnitsPerAed(fromCurrency, exchangeRates) * UnitsPerAed(toCurrency, exchangeRates);
              IsCents(converted) && converted - 0.005 <= exact < converted + 0.005
  {
    if fromCurrency == toCurrency then amount
    else
      var amountInAed := if fromCurrency == AED then amount else amount / exchangeRates[fromCurrency];
      var convertedAmount := if toCurrency == AED then amountInAed else amountInAed * exchangeRates[toCurrency];
      RoundCents(convertedAmount)
  }

  /** AED is the pivot: converting from AED never reads a source rate,
      converting to AED never multiplies, and any other pair divides by the
      source rate and multiplies by the target rate before one cent rounding. */
  lemma ConvertPivotsThroughAed(amount: real, fromCurrency: string, toCurrency: string,
                                exchangeRates: map<string, real>)
    requires fromCurrency != toCurrency
    requires CanConvert(fromCurrency, toCurrency, exchangeRates)
    ensures fromCurrency == AED ==>
              ConvertCurrency(amount, fromCurrency, toCurrency, exchangeRates)
              == RoundCents(amount * exchangeRates[toCurrency])
    ensures toCurrency == AED ==>
              ConvertCurrency(amount, fromCurrency, toCurrency, exchangeRates)
              == RoundCents(amount / exchangeRates[fromCurrency])
    ensures fromCurrency != AED && toCurrency != AED ==>
              ConvertCurrency(amount, fromCurrency, toCurrency, exchangeRates)
              == RoundCents(amount / exchangeRates[fromCurrency] * exchangeRates[toCurrency])
  {
    var converted := ConvertCurrency(amount, fromCurrency, toCurrency, exchangeRates);
    var exact := amount / UnitsPerAed(fromCurrency, exchangeRates) * UnitsPerAed(toCurrency, exchangeRates);
    if fromCurrency == AED {
      assert exact == amount * exchangeRates[toCurrency];
    } else if toCurrency == AED {
      assert exact == amount / exchangeRates[fromCurrency];
    } else {
      assert exact == amount / exchangeRates[fromCurrency] * exchangeRates[toCurrency];
    }
    CentsWindowUnique(exact, converted, RoundCents(exact));
  }

  /** From AED, two rate tables that agree on the target give the same result,
      whatever either says about AED itself. */
  lemma ConvertFromAedIgnoresSourceRate(amount: real, toCurrency: string,
                                        rates1: map<string, real>, rates2: map<string, real>)
    requires toCurrency != AED ==>
               toCurrency in rates1 && toCurrency in rates2 && rates1[toCurrency] == rates2[toCurrency]
    ensures ConvertCurrency(amount, AED, toCurrency, rates1) == ConvertCurrency(amount, AED, toCurrency, rates2)
  {
    if toCurrency != AED {
      var exact := amount / UnitsPerAed(AED, rates1) * UnitsPerAed(toCurrency, rates1);
      assert exact == amount / UnitsPerAed(AED, rates2) * UnitsPerAed(toCurrency, rates2);
      CentsWindowUnique(exact, ConvertCurrency(amount, AED, toCurrency, rates1),
                        ConvertCurrency(amount, AED, toCurrency, rates2));
    }
  }

  /** Converting there and back loses at most half a cent on the way back plus
      half a cent of the intermediate currency, scaled by the rate ratio. */
  lemma ConvertRoundTrip(amount: real, a: string, b: string, exchangeRates: map<string, real>)
    requires a != b
    requires a == AED || (a in exchangeRates && exchangeRates[a] > 0.0)
    requires b == AED || (b in exchangeRates && exchangeRates[b] > 0.0)
    ensures var there := ConvertCurrency(amount, a, b, exchangeRates);
            var back := ConvertCurrency(there, b, a, exchangeRates);
            Abs(back - amount)
              <= (1.0 + UnitsPerAed(a, exchangeRates) / UnitsPerAed(b, exchangeRates)) / 200.0
  {
    var ra := UnitsPerAed(a, exchangeRates);
    var rb := UnitsPerAed(b, exchangeRates);
    var there := ConvertCurrency(amount, a, b, exchangeRates);
    var back := ConvertCurrency(there, b, a, exchangeRates);
    ConvertWindow(amount, a, b, exchangeRates, ra, rb);
    ConvertWindow(there, b, a, exchangeRates, rb, ra);
    RoundTripError(amount, there, back, ra, rb);
  }

  /** The rounding window of one conversion, with the two rates named. */
  lemma ConvertWindow(amount: real, fromCurrency: string, toCurrency: string,
                      exchangeRates: map<string, real>, rFrom: real, rTo: real)
    requires fromCurrency != toCurrency
    requires CanConvert(fromCurrency, toCurrency, exchangeRates)
    requires rFrom == UnitsPerAed(fromCurrency, exchangeRates) && rTo == UnitsPerAed(toCurrency, exchangeRates)
    ensures var converted := ConvertCurrency(amount, fromCurrency, toCurrency, exchangeRates);
            converted - 0.005 <= amount / rFrom * rTo < converted + 0.005
  {
  }

  /** The arithmetic behind ConvertRoundTrip: two half-cent errors, the first
      carried back through the ratio of the rates. */
  lemma RoundTripError(amount: real, there: real, back: real, ra: real, rb: real)
    requires ra > 0.0 && rb > 0.0
    requires there - 0.005 <= amount / ra * rb < there + 0.005
    requires back - 0.005 <= there / rb * ra < back + 0.005
    ensures Abs(back - amount) <= (1.0 + ra / rb) / 200.0
  {
    var q := ra / rb;
    assert q > 0.0;
    var e1 := there - amount / ra * rb;
    var e2 := back - there / rb * ra;
    assert -0.005 * q <= e1 * q <= 0.005 * q;
    assert amount / ra * rb * q == amount;
    assert there / rb * ra == there * q;
    assert back - amount == e2 + e1 * q;
  }
}

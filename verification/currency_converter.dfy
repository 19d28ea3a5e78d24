/**
  The pure parts of hooks/use-currency-converter.ts: the code → rate
  dictionary derived from the currency list, the hook's own AED-pivot
  `convertCurrency`, `getCurrencySymbol`, and the default substitution
  applied to a freshly fetched rate feed.
 */
module CurrencyConverter {
  import opened Tables
  import opened JsMath
  import Calculations

  /** The currency list used when the table or the feed cannot be read. */
  const FallbackCurrencies: seq<Currency> := [
    Currency("AED", "UAE Dirham", "\U{062F}.\U{0625}", 1.0),
    Currency("USD", "US Dollar", "$", 0.27),
    Currency("EUR", "Euro", "\U{20AC}", 0.25),
    Currency("GBP", "British Pound", "\U{00A3}", 0.21),
    Currency("PKR", "Pakistani Rupee", "\U{20A8}", 76.5)
  ]

  /** DEFAULT_EXCHANGE_RATES of src/lib/constants.ts: the hard-coded rates
      per AED that stand in for a missing feed value. */
  const DefaultExchangeRates: map<string, real> :=
    map["AED" := 1.0, "USD" := 0.27, "EUR" := 0.25, "GBP" := 0.21, "PKR" := 76.5]

  /** The dictionary `currencies.forEach(c => rates[c.code] = c.exchange_rate)`
      leaves behind, written as a fold from the left. */
  function RatesOf(currencies: seq<Currency>): (rates: map<string, real>)
  {
    if currencies == [] then map[]
    else
      var last := currencies[|currencies| - 1];
      RatesOf(currencies[..|currencies| - 1])[last.code := last.exchangeRate]
  }

  /** The dictionary has exactly one key per currency code in the list. */
  lemma {:induction false} RatesOfKeys(currencies: seq<Currency>)
    ensures RatesOf(currencies).Keys == set i | 0 <= i < |currencies| :: currencies[i].code
  {
    if currencies != [] {
      var front := currencies[..|currencies| - 1];
      RatesOfKeys(front);
      assert forall i :: 0 <= i < |front| ==> front[i] == currencies[i];
      var codes := set i | 0 <= i < |currencies| :: currencies[i].code;
      var frontCodes := set i | 0 <= i < |front| :: front[i].code;
      assert codes == frontCodes + {currencies[|currencies| - 1].code} by {
        forall c | c in codes ensures c in frontCodes + {currencies[|currencies| - 1].code} {
          var i :| 0 <= i < |currencies| && currencies[i].code == c;
          if i < |front| {
            assert front[i].code == c;
          }
        }
      }
    }
  }

  /** A code's entry holds the rate of its LAST occurrence in the list: a
      later entry with the same code overwrites an earlier one. */
  lemma {:induction false} RatesOfLastWins(currencies: seq<Currency>, i: int)
    requires 0 <= i < |currencies|
    requires forall j :: i < j < |currencies| ==> currencies[j].code != currencies[i].code
    ensures currencies[i].code in RatesOf(currencies)
    ensures RatesOf(currencies)[currencies[i].code] == currencies[i].exchangeRate
  {
    if i < |currencies| - 1 {
      var front := currencies[..|currencies| - 1];
      assert front[i] == currencies[i];
      RatesOfLastWins(front, i);
    }
  }

  /** The `exchangeRates` derivation: a loop over the list writing each
      code's rate into the dictionary. The result is keyed by exactly the
      listed codes, each holding the rate of its last occurrence. */
  method DeriveExchangeRates(currencies: seq<Currency>) returns (rates: map<string, real>)
    ensures rates == RatesOf(currencies)
    ensures rates.Keys == set i | 0 <= i < |currencies| :: currencies[i].code
    ensures forall i ::
              (0 <= i < |currencies| &&
               forall j :: i < j < |currencies| ==> currencies[j].code != currencies[i].code) ==>
              rates[currencies[i].code] == currencies[i].exchangeRate
  {
    rates := map[];
    var n := 0;
    while n < |currencies|
      invariant 0 <= n <= |currencies|
      invariant rates == RatesOf(currencies[..n])
    {
      assert currencies[..n + 1][..n] == currencies[..n];
      rates := rates[currencies[n].code := currencies[n].exchangeRate];
      n := n + 1;
    }
    assert currencies[..n] == currencies;
    RatesOfKeys(currencies);
    forall i | 0 <= i < |currencies| &&
               (forall j :: i < j < |currencies| ==> currencies[j].code != currencies[i].code)
      ensures rates[currencies[i].code] == currencies[i].exchangeRate
    {
      RatesOfLastWins(currencies, i);
    }
  }

  /** The hook's `convertCurrency`, reading rates from the derived dictionary:
      the same currency passes through untouched, and every conversion
      agrees with the standalone `convertCurrency` of src/utils. */
  function ConvertCurrency(currencies: seq<Currency>, amount: real,
                           fromCurrency: string, toCurrency: string): (converted: real)
    requires Calculations.CanConvert(fromCurrency, toCurrency, RatesOf(currencies))
    ensures fromCurrency == toCurrency ==> converted == amount
    ensures converted == Calculations.ConvertCurrency(amount, fromCurrency, toCurrency, RatesOf(currencies))
  {
    var exchangeRates := RatesOf(currencies);
    if fromCurrency == toCurrency then amount
    else
      var amountInAed := if fromCurrency == Calculations.AED then amount else amount / exchangeRates[fromCurrency];
      var convertedAmount := if toCurrency == Calculations.AED then amountInAed else amountInAed * exchangeRates[toCurrency];
      HookConversionAgrees(amount, fromCurrency, toCurrency, exchangeRates, convertedAmount);
      RoundCents(convertedAmount)
  }

  /** The hook repeats the standalone conversion's arithmetic: on any rate
      table, its amount before rounding is the standalone exact amount, so
      the two give the same cents. */
  lemma HookConversionAgrees(amount: real, fromCurrency: string, toCurrency: string,
                             exchangeRates: map<string, real>, convertedAmount: real)
    requires fromCurrency != toCurrency
    requires Calculations.CanConvert(fromCurrency, toCurrency, exchangeRates)
    requires var amountInAed := if fromCurrency == Calculations.AED then amount else amount / exchangeRates[fromCurrency];
             convertedAmount == if toCurrency == Calculations.AED then amountInAed else amountInAed * exchangeRates[toCurrency]
    ensures RoundCents(convertedAmount) == Calculations.ConvertCurrency(amount, fromCurrency, toCurrency, exchangeRates)
  {
    assert convertedAmount == amount / Calculations.UnitsPerAed(fromCurrency, exchangeRates)
                                     * Calculations.UnitsPerAed(toCurrency, exchangeRates);
    CentsWindowUnique(convertedAmount, RoundCents(convertedAmount),
                      Calculations.ConvertCurrency(amount, fromCurrency, toCurrency, exchangeRates));
  }

  /** `getCurrencySymbol`: the symbol of the first currency with that code;
      the code itself when no currency has it or its symbol is empty (`||`
      treats "" as false). */
  function GetCurrencySymbol(currencies: seq<Currency>, currencyCode: string): (symbol: string)
    ensures (forall i :: 0 <= i < |currencies| ==> currencies[i].code != currencyCode) ==> symbol == currencyCode
    ensures forall i :: FirstMatch(currencies, CurrencyCode, currencyCode, i) ==>
              symbol == if currencies[i].symbol != [] then currencies[i].symbol else currencyCode
  {
    var found := Find(currencies, CurrencyCode, currencyCode);
    if found.Some? && found.value.symbol != [] then found.value.symbol else currencyCode
  }

  /** `data.rates.X || default`: a fed rate that is missing or zero falls
      back to the hard-coded default. */
  function FedOrDefault(fetched: map<string, real>, code: string): (rate: real)
    requires code in DefaultExchangeRates
  {
    if code in fetched && fetched[code] != 0.0 then fetched[code] else DefaultExchangeRates[code]
  }

  /** The `newRates` dictionary built from a fetched feed: the five known
      codes, AED pinned at 1 whatever the feed says, every other code taken
      from the feed unless missing or zero. */
  function NewRates(fetched: map<string, real>): (rates: map<string, real>)
    ensures rates.Keys == DefaultExchangeRates.Keys
    ensures rates[Calculations.AED] == 1.0
    ensures forall c :: c in rates && c != Calculations.AED ==>
              rates[c] == if c in fetched && fetched[c] != 0.0 then fetched[c] else DefaultExchangeRates[c]
  {
    map["AED" := 1.0,
        "USD" := FedOrDefault(fetched, "USD"),
        "EUR" := FedOrDefault(fetched, "EUR"),
        "GBP" := FedOrDefault(fetched, "GBP"),
        "PKR" := FedOrDefault(fetched, "PKR")]
  }

  /** A feed that reports no negative rate yields only strictly positive
      rates, so any conversion between the five codes is defined, in both
      directions. */
  lemma NewRatesPositive(fetched: map<string, real>)
    requires forall c :: c in fetched ==> fetched[c] >= 0.0
    ensures forall c :: c in NewRates(fetched) ==> NewRates(fetched)[c] > 0.0
    ensures forall a, b :: a in NewRates(fetched) && b in NewRates(fetched) ==>
              Calculations.CanConvert(a, b, NewRates(fetched))
  {
    var rates := NewRates(fetched);
    forall c | c in rates ensures rates[c] > 0.0 {
      assert c in DefaultExchangeRates;
      if c != Calculations.AED {
        assert DefaultExchangeRates[c] > 0.0;
      }
    }
  }

  /** An empty or all-zero feed leaves exactly the default rates. */
  lemma NewRatesOfDeadFeed(fetched: map<string, real>)
    requires forall c :: c in fetched ==> fetched[c] == 0.0
    ensures NewRates(fetched) == DefaultExchangeRates
  {
  }

  /** The fallback currency list has distinct codes, AED at rate 1, strictly
      positive rates, and derives exactly the default rate dictionary. */
  lemma FallbackCurrenciesWellFormed()
    ensures DistinctBy(FallbackCurrencies, CurrencyCode)
    ensures FallbackCurrencies[0].code == Calculations.AED && FallbackCurrencies[0].exchangeRate == 1.0
    ensures forall i :: 0 <= i < |FallbackCurrencies| ==> FallbackCurrencies[i].exchangeRate > 0.0
    ensures RatesOf(FallbackCurrencies) == DefaultExchangeRates
  {
    var cs := FallbackCurrencies;
    assert cs[..1][..0] == [] && cs[..2][..1] == cs[..1] && cs[..3][..2] == cs[..2];
    assert cs[..4][..3] == cs[..3] && cs[..4] == cs[..|cs| - 1];
    assert RatesOf(cs[..1]) == map["AED" := 1.0];
    assert RatesOf(cs[..2]) == map["AED" := 1.0, "USD" := 0.27];
    assert RatesOf(cs[..3]) == map["AED" := 1.0, "USD" := 0.27, "EUR" := 0.25];
    assert RatesOf(cs[..4]) == map["AED" := 1.0, "USD" := 0.27, "EUR" := 0.25, "GBP" := 0.21];
  }

  /** The round-trip error grows with the rate ratio: on the default rates,
      one rupee sent to pounds rounds to 0.00 and comes back as nothing,
      a loss of a whole unit rather than a couple of cents. */
  lemma RoundTripCanLoseTheAmount()
    ensures var there := Calculations.ConvertCurrency(1.0, "PKR", "GBP", DefaultExchangeRates);
            there == 0.0 && Calculations.ConvertCurrency(there, "GBP", "PKR", DefaultExchangeRates) == 0.0
  {
    var there := Calculations.ConvertCurrency(1.0, "PKR", "GBP", DefaultExchangeRates);
    assert there - 0.005 <= 1.0 / 76.5 * 0.21 < there + 0.005;
    var n := (there * 100.0).Floor;
    assert n as real == there * 100.0;
    assert n == 0;
  }
}

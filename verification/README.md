# Rate-card calculator: pricing core in Dafny

This project models the deterministic pricing core of the rate-card
calculator. The core covers:

- the two monthly-rate formulas: a custom resource priced by role, region and
  seniority; a SWAT-team member priced by role, seniority, workload and
  engagement length;
- the AED-pivot currency conversion with rounding to cents;
- the `calculateRate` closures of the two calculator hooks, which look the
  chosen ids up in their tables and return 0 for an incomplete selection;
- the currency hook's code-to-rate dictionary, its symbol lookup and the rule
  that fills in default rates for a fetched feed;
- the small helpers of `lib/utils.ts`: the e-mail check, percentage and
  discount rounding, and the symbol choice of `formatCurrency`.

Numbers are exact rationals (`real`). JavaScript's `Math.round(x)` is
`Floor(x + 1/2)` (`JsMath.Round`), which rounds halves upward. Rounding to
cents is `Round(100·x) / 100` (`JsMath.RoundCents`). Lookups by id are one
generic first-match search (`Tables.Find`), the model of `Array.prototype.find`.

Modules and files:

- `jsmath.dfy` (JsMath): `Math.round` and cent rounding, plus an absolute-value helper used only to state the round-trip error bound.
- `tables.dfy` (Tables): the table row types of `lib/supabase.ts` and first-match lookup.
- `calculations.dfy` (Calculations): `src/utils/calculations.ts`.
- `custom_resource.dfy` (CustomResourceCalculator): `hooks/use-custom-resource-calculator.ts`.
- `swat_team.dfy` (SwatTeamCalculator): `hooks/use-swat-team-calculator.ts`.
- `currency_converter.dfy` (CurrencyConverter): `hooks/use-currency-converter.ts`.
- `utils.dfy` (Utils): `lib/utils.ts`.

The `exchangeRates` derivation is a `forEach` loop that writes into a
dictionary. Its model is a method with a `while` loop (`DeriveExchangeRates`),
proved against a left fold (`RatesOf`): the keys are exactly the listed codes,
and for a repeated code the last entry wins. Everything else in the core is
expression code and is modelled as functions and lemmas.

`validateEmail` tests the regular expression `^[^\s@]+@[^\s@]+\.[^\s@]+$`. Its
model is a small automaton (`Utils.Accepts`). `\s` is JavaScript's whitespace
class. The automaton is proved to accept exactly the strings that split as a
non-empty local part, an '@', and a domain. Neither part may contain
whitespace or '@'. The domain must contain a '.' that is neither its first nor
its last character.

A round trip through a second currency is not within a fixed number of
rounding units. The proved bound is half a cent of the original currency plus
half a cent of the intermediate one, converted back: `(1 + ra/rb) / 200`.
With the default rates, one rupee sent to pounds rounds to 0.00 and comes
back as 0 (`CurrencyConverter.RoundTripCanLoseTheAmount`).

## Model

| member | source | states |
|---|---|---|
| JsMath.Round | src/utils/calculations.ts:7 | `Math.round(x)` is the integer n with n − ½ ≤ x < n + ½ (halves round up) |
| JsMath.RoundOfInteger | src/utils/calculations.ts:22 | rounding an integer value leaves it unchanged |
| JsMath.RoundMonotonic | src/utils/calculations.ts:22 | `Math.round` never decreases as its argument grows |
| JsMath.RoundCents | src/utils/calculations.ts:36 | `Math.round(x*100)/100` is a whole number of cents within half a cent of x |
| JsMath.CentsWindowUnique | src/utils/calculations.ts:36 | two whole-cent values within half a cent of the same amount are equal, so the cent rounding is determined by the exact amount |
| Tables.Find | hooks/use-custom-resource-calculator.ts:98-100 | `find` returns nothing exactly when no entry has the id, and otherwise an entry with the id that has no earlier match |
| Tables.FindReturnsFirst | hooks/use-custom-resource-calculator.ts:98-100 | the entry `find` returns is the first entry with the id |
| Tables.FindDistinct | hooks/use-swat-team-calculator.ts:120-123 | in a table with distinct ids, looking up an entry's id returns that entry |
| Calculations.CustomResourceRate | src/utils/calculations.ts:2-8 | the custom-resource rate is the integer nearest to base × regional × seniority (halves up) |
| Calculations.CustomResourceRateSymmetric | src/utils/calculations.ts:7 | swapping the regional and seniority multipliers does not change the rate |
| Calculations.SwatTeamRate | src/utils/calculations.ts:10-23 | the SWAT rate is the integer nearest to base × seniority × pct/100 × (1 − disc/100) × (1 − swat), rounded once; swat defaults to 0.2 |
| Calculations.SwatWithoutDiscountsIsCustomRate | src/utils/calculations.ts:15-22 | at full time, with no duration and no team discount, the SWAT rate is the custom rate with regional multiplier 1 |
| Calculations.SwatRateMonotoneInDuration | src/utils/calculations.ts:19-22 | with non-negative factors and swat ≤ 1, a larger duration discount never raises the SWAT rate |
| Calculations.SwatRateAtMostFullRate | src/utils/calculations.ts:17-22 | with non-negative factors, pct in 0..100, disc ≥ 0 and swat in 0..1, the SWAT rate is at most round(base × seniority) |
| Calculations.ConvertCurrency | src/utils/calculations.ts:25-37 | the same currency returns the amount unrounded; otherwise the result is whole cents within half a cent of amount ÷ (units per AED of the source) × (units per AED of the target), with AED counting as 1 |
| Calculations.ConvertPivotsThroughAed | src/utils/calculations.ts:33-36 | from AED the result is round₂(amount × rate[to]); to AED it is round₂(amount ÷ rate[from]); otherwise round₂(amount ÷ rate[from] × rate[to]) |
| Calculations.ConvertFromAedIgnoresSourceRate | src/utils/calculations.ts:33 | from AED, the table's own AED entry is never consulted: two tables that agree on the target give the same result |
| Calculations.ConvertRoundTrip | src/utils/calculations.ts:31-36 | converting a → b → a with positive rates is off by at most (1 + ra/rb)/200 |
| Calculations.RoundTripError | src/utils/calculations.ts:36 | two half-cent roundings, the first scaled back by ra/rb, bound the round-trip error |
| CustomResourceCalculator.CalculateRate | hooks/use-custom-resource-calculator.ts:93-108 | an empty id gives 0; an id missing from its table gives 0; otherwise the rate equals `CustomResourceRate` on the entries `find` returns |
| CustomResourceCalculator.PriceSelection | hooks/use-custom-resource-calculator.ts:104-105 | the closure's own product of base rate, regional and seniority multipliers, rounded, equals the standalone `CustomResourceRate` |
| CustomResourceCalculator.CalculateRateUsesFirstMatches | hooks/use-custom-resource-calculator.ts:98-105 | with duplicate ids, the first matching region, role and seniority entries price the selection |
| CustomResourceCalculator.NonZeroRateMeansResolved | hooks/use-custom-resource-calculator.ts:96-102 | a non-zero rate implies all three ids are non-empty and present in their tables |
| CustomResourceCalculator.FallbackTablesWellFormed | hooks/use-custom-resource-calculator.ts:24-84 | the fallback region, role and seniority tables have distinct ids; region and seniority multipliers are ≥ 1 |
| CustomResourceCalculator.FallbackWorkedExample | hooks/use-custom-resource-calculator.ts:26-105 | middle-east / full-stack-developer / advanced on the fallback tables prices at 14375 |
| SwatTeamCalculator.CalculateRate | hooks/use-swat-team-calculator.ts:115-136 | an empty id gives 0; an id missing from its table gives 0; otherwise the rate equals `SwatTeamRate` at the default 20% team discount on the entries `find` returns |
| SwatTeamCalculator.PriceSelection | hooks/use-swat-team-calculator.ts:127-133 | the closure's chain (seniority, workload fraction, duration discount, literal factor 0.8, one rounding) equals the standalone `SwatTeamRate` at its default 20% team discount |
| SwatTeamCalculator.FixedDiscountIsDefault | hooks/use-swat-team-calculator.ts:131 | the literal factor 0.8 is the same as applying the default team discount of 0.2 |
| SwatTeamCalculator.CalculateRateUsesFirstMatches | hooks/use-swat-team-calculator.ts:120-133 | with duplicate ids, the first matching entries of the four tables price the selection |
| SwatTeamCalculator.CalculateRateAtMostFullRate | hooks/use-swat-team-calculator.ts:128-133 | with non-negative factors, workload ≤ 100% and discount ≥ 0, the quote is at most round(base × seniority) |
| SwatTeamCalculator.FallbackTablesWellFormed | hooks/use-swat-team-calculator.ts:24-106 | the fallback tables have distinct ids, workloads in (0, 100], and duration discounts that never fall as months grow |
| SwatTeamCalculator.FallbackWorkedExample | hooks/use-swat-team-calculator.ts:28-133 | backend-developer / advanced / 4-days / 3-months on the fallback tables prices at 6840 |
| CurrencyConverter.RatesOfKeys | hooks/use-currency-converter.ts:57-63 | the derived dictionary's keys are exactly the listed currency codes |
| CurrencyConverter.RatesOfLastWins | hooks/use-currency-converter.ts:59-61 | a code maps to the rate of its last occurrence in the list |
| CurrencyConverter.DeriveExchangeRates | hooks/use-currency-converter.ts:57-63 | the loop builds the left-fold dictionary: keys are the listed codes, each holding the rate of its last occurrence |
| CurrencyConverter.ConvertCurrency | hooks/use-currency-converter.ts:104-111 | the hook's conversion returns the amount for the same currency and otherwise agrees with `Calculations.ConvertCurrency` on the derived dictionary |
| CurrencyConverter.HookConversionAgrees | hooks/use-currency-converter.ts:107-110 | on any rate table, the hook's unrounded amount is the standalone exact amount, so its cents equal `Calculations.ConvertCurrency` |
| CurrencyConverter.GetCurrencySymbol | hooks/use-currency-converter.ts:113-115 | the symbol of the first currency with the code; the code itself when none has it or that symbol is empty |
| CurrencyConverter.NewRates | hooks/use-currency-converter.ts:71-77 | the fed dictionary has exactly the five default codes, AED = 1, and every other code takes the feed's value unless it is missing or zero, in which case it takes the default |
| CurrencyConverter.NewRatesPositive | hooks/use-currency-converter.ts:71-77 | a feed with no negative rate gives strictly positive rates, so every conversion among the five codes is defined |
| CurrencyConverter.NewRatesOfDeadFeed | hooks/use-currency-converter.ts:73-76 | an empty or all-zero feed leaves exactly the default rates |
| CurrencyConverter.FallbackCurrenciesWellFormed | hooks/use-currency-converter.ts:43-49 | the fallback list has distinct codes, AED first at rate 1, all rates > 0, and it derives exactly the default rate dictionary |
| CurrencyConverter.RoundTripCanLoseTheAmount | src/utils/calculations.ts:25-37 | on the default rates, 1 PKR converts to 0.00 GBP and back to 0 |
| Utils.ValidateEmail | lib/utils.ts:26-29 | the regular-expression test holds exactly when the address splits at an '@' after a non-empty local part, with a well-formed domain |
| Utils.AcceptsLocal | lib/utils.ts:27 | after a non-empty local part, the rest matches exactly when it is more local part, an '@', then a well-formed domain |
| Utils.AcceptsAtSign | lib/utils.ts:27 | after the '@', the rest matches exactly when it is a well-formed domain |
| Utils.AcceptsDomain | lib/utils.ts:27 | after a domain character, the rest matches exactly when it is plain and has a '.' before its last character |
| Utils.ValidateEmailSplit | lib/utils.ts:27 | `local + "@" + domain` passes exactly when local is non-empty and plain and the domain is well-formed |
| Utils.ValidateEmailRejects | lib/utils.ts:27 | any whitespace, no '@', or two '@'s make the check fail |
| Utils.CalculatePercentage | lib/utils.ts:31-33 | the result is the integer nearest to value × percentage/100 (halves up) |
| Utils.ApplyDiscount | lib/utils.ts:35-37 | the result is the integer nearest to value × (1 − discount/100) (halves up) |
| Utils.PercentageAndDiscountEdges | lib/utils.ts:31-37 | 100% of v is round(v) and 0% is 0; a 0% discount gives round(v) and a 100% discount gives 0 |
| Utils.DiscountIsComplementaryPercentage | lib/utils.ts:32-36 | a discount of d% equals keeping (100 − d)% |
| Utils.CurrencySymbol | lib/utils.ts:9-17 | the fixed symbol for AED, USD, EUR, GBP and PKR; the code itself for any other code |
| Utils.FormatCurrency | lib/utils.ts:8-24 | the text is the chosen symbol followed by the amount's text |
| Utils.SymbolSourcesAgree | lib/utils.ts:9-17 | for every code, `formatCurrency`'s symbol matches the one `getCurrencySymbol` finds in the hook's fallback currency list |

## Left out

- Supabase queries, react-query caching (`staleTime`, `refetchInterval`,
  `invalidateQueries`), toasts and console logging are I/O and library
  behaviour. The fallback tables they return on failure are modelled as
  constants.
- `fetchAndPersistExchangeRates` (network fetch, database updates,
  `Promise.all`) is I/O. Only its `newRates` substitution is modelled, with the
  fetched feed as a parameter.
- The `lastUpdated` timestamp and `new Date()` depend on the clock and are left out.
- `refreshRates` (a refetch) is I/O and is left out.
- UI components, pages, the quote dialog and the send-quote API route
  (database insert, mail transport, HTML templating) are presentation or I/O.
- `cn` is a thin wrapper over clsx and tailwind-merge and is left out.
- Utils.FormatCurrency: the number-to-text step (`toLocaleString` with no
  fraction digits) is library formatting. It is taken as a parameter, so
  digit grouping and rounding of the amount are not modelled.
- Calculations.ConvertCurrency: a missing or zero source rate, or a missing
  target rate, gives NaN or Infinity in the source. These are excluded by the
  precondition `CanConvert` instead of being modelled as values.
- CurrencyConverter.ConvertCurrency: same precondition, on the dictionary
  derived from the currency list.
- IEEE-754 floating point is not modelled. All arithmetic is exact, so results
  may differ from the browser's in the last bit, and so may a rounding that
  lands exactly on a half.
- Utils.CurrencySymbol: keys inherited from JavaScript's object prototype
  (such as `"toString"`) are not modelled. The symbol table is a plain map.
- CurrencyConverter.RatesOf: the source writes rates into a plain JavaScript
  object. A code such as `"__proto__"` is not stored as a key there, and an
  inherited key such as `"constructor"` reads as present. The model's map has
  neither effect.
- CurrencyConverter.ConvertCurrency: reads the same plain object, so the
  prototype-key effects above are not modelled for it either.
- Utils.ValidateEmail: JavaScript strings are UTF-16 code units. The model
  works on Dafny characters, so a character outside the Basic Multilingual
  Plane counts as one character rather than two. This makes no difference to
  the pattern, which only looks at whitespace, '@' and '.'.
- NewRates: a feed value of NaN (falsy in JavaScript) is not representable
  and is not modelled.
- `Tables`: the optional `created_at`, `category` and `last_updated` fields
  of the table rows are not read by the core and are left out. The row field
  `label` is named `caption`, because `label` is a Dafny keyword. Every numeric
  field, `months` included, is a `real`, standing for a JavaScript `number`.

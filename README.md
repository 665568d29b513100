# Subscription billing engine — a Dafny model

This project models the billing core of a subscription tracker. It covers:

- **Next payment dates.** A subscription is anchored on a start date and has a billing period: weekly, monthly, every three months, every six months, yearly, or lifetime. The next payment date is found by stepping the anchor forward one interval at a time until it is strictly after today. A payment is *near* when it is between 0 and a threshold of days away.
- **Monthly totals.**
  - Each subscription is normalised to a monthly cost: 4.33 weeks to a month, a third for a quarterly price, a sixth, a twelfth, and nothing for a lifetime purchase.
  - That cost is converted to roubles and the results are added up.
  - A second total counts only the strictly monthly subscriptions.
- **Currency.**
  - An amount is converted to roubles through the first stored rate for its currency. Roubles, and currencies without a rate, pass through unchanged.
  - The Central Bank of Russia daily quotes become at most two rate rows, USD then EUR, each worth Value / Nominal.
  - Stored rates go stale after 24 hours.
- **The rate cache.** Stored rates are served while the newest row is fresh. Otherwise the quotes are fetched and upserted by currency code, with a fallback to the stale cache, or to nothing, when the fetch fails.
- **Error translation.** An ordered chain of substring and pattern rules runs over the lower-cased message. The first rule that matches gives a fixed Russian message. A message no rule matches is returned unchanged.

Modules:

- `Types` (`types.dfy`): the records and enumerations.
- `Calendar` (`calendar.dfy`): the date arithmetic the calculator takes from its date library.
- `PaymentDates` (`date.dfy`), `Totals` (`totals.dfy`), `CurrencyConversion` (`currency.dfy`), `ExchangeRates` (`exchange_rates.dfy`) and `ErrorTranslations` (`error_translations.dfy`): one module per source file.

**Modelling choices**

- Dates are valid proleptic-Gregorian days (`Calendar.Date`).
- Adding months clamps the day to the end of the target month, as the date library does. A year is twelve months, and a week is seven days.
- Day distances use a closed-form day number.
- The rollover loop of `getNextPaymentDate` is a `while` loop. It is proved against `Iterate`, the interval applied k times in succession. The loop terminates on the measure (months until today, 31 − day of month).
- Money and rates are exact reals.
- Clock readings (today, now) are parameters.
- The rate table is a `map` from currency code to row, held by the class `RateTable`. Its methods update the map in place.

**Where the code and its documentation disagree.** The doc comment of `getNextPaymentDate` (lib/utils/date.ts:28) gives the formula StartDate + N × Interval. The loop (lib/utils/date.ts:60-62) instead adds one interval to the *previous* result, so a clamped month end carries forward into later dates. The model follows the code. `PaymentDates.RolloverDriftsFromAnchor` shows the difference:

- two monthly steps from 31 January 2024 give 29 March;
- two months added to the anchor at once give 31 March.

## Model

| member | source | states |
|---|---|---|
| Calendar.DaysInMonth | lib/utils/date.ts:61 | month lengths are 28–31, and 29 exactly for February of a leap year |
| Calendar.AddMonths | lib/utils/date.ts:61 | adding n months moves the month index by exactly n; the day is kept when the target month has it, otherwise it is clamped to that month's last day, and it never grows |
| Calendar.AddMonthsAdvances | lib/utils/date.ts:61 | adding at least one month gives a strictly later date |
| Calendar.AddFewDays | lib/utils/date.ts:61 | adding 1–28 days gives a strictly later date |
| Calendar.AddFewDaysCount | lib/utils/date.ts:61 | adding n ≤ 28 days moves the day number by exactly n |
| Calendar.AddDaysCount | lib/utils/date.ts:61 | adding any n days moves the day number by exactly n |
| Calendar.BeforeIsLexicographic | lib/utils/date.ts:48 | date order is the lexicographic order on (year, month, day), and equal sort keys mean equal dates |
| Calendar.BeforeTransitive | lib/utils/date.ts:60 | date order is transitive |
| Calendar.DayNumberMonotone | lib/utils/date.ts:79-80 | a date is before another exactly when its day number is smaller, and two dates are equal exactly when their day numbers are |
| Calendar.DayNumberStrict | lib/utils/date.ts:79-80 | an earlier date has a strictly smaller day number |
| Calendar.DayNumberWithinYear | lib/utils/date.ts:79-80 | a date's day number lies between the first day of its year and the first day of the next year |
| Calendar.YearStep | lib/utils/date.ts:79-80 | the days before year y + 1 are the days before y plus the length of y |
| Calendar.MonthStep | lib/utils/date.ts:79-80 | the days before month m + 1 are the days before m plus the length of m, and December ends the year |
| Calendar.DaysBeforeYearMonotone | lib/utils/date.ts:79-80 | every later year starts at least 365 days further on |
| Calendar.DaysBeforeMonthMonotone | lib/utils/date.ts:79-80 | a later month of the same year starts after every day of an earlier month |
| PaymentDates.PeriodToDuration | lib/utils/date.ts:7-24 | there is no duration exactly for the lifetime period |
| PaymentDates.AddDuration | lib/utils/date.ts:61 | weeks move strictly forward; months move the month index by exactly that many months; years keep the month and move the year by that many; for months and years the day is kept when the target month has it and otherwise clamped to that month's last day |
| PaymentDates.Step | lib/utils/date.ts:61 | one billing interval always moves strictly forward |
| PaymentDates.StepOnCalendar | lib/utils/date.ts:7-24 | a weekly interval is exactly 7 days; the other periods are exactly 1, 3, 6 or 12 calendar months, keeping the day of the month or clamping it to the end of a shorter month |
| PaymentDates.StepIsAdd | lib/utils/date.ts:52-61 | the loop's `add` of the period's duration is the billing step |
| PaymentDates.NextPaymentDate | lib/utils/date.ts:34-65 | lifetime gives no date, and only lifetime does; a start after today is returned as it is; otherwise the result is the start stepped k ≥ 1 times, where step k − 1 was not after today; every result is after today and not before the start |
| PaymentDates.IterateSteps | lib/utils/date.ts:60-62 | every successive step of the rollover is strictly later than the one before |
| PaymentDates.IterateMonths | lib/utils/date.ts:60-62 | k steps of a month-based period move the month index by exactly k intervals, so only the day of the month drifts |
| PaymentDates.IncreasingSeries | lib/utils/date.ts:60-62 | a series that increases at each step increases between any two indices |
| PaymentDates.CrossingUnique | lib/utils/date.ts:60-62 | a strictly increasing series of dates passes today at one index only |
| PaymentDates.RolloverCountUnique | lib/utils/date.ts:60-62 | only one number of steps takes the date from "not after today" to "after today", so the loop's result is determined by its inputs |
| PaymentDates.MonthEndRollsToLeapDay | lib/utils/date.ts:58-64 | a monthly subscription anchored on 31 January 2024 and seen on 15 February 2024 is next due on 29 February 2024 |
| PaymentDates.JanuaryEndStep | lib/utils/date.ts:61 | one monthly step from 31 January 2024 is 29 February 2024 |
| PaymentDates.RolloverDriftsFromAnchor | lib/utils/date.ts:28-62 | stepping twice from 31 January 2024 gives 29 March, while adding two months to the anchor gives 31 March |
| PaymentDates.AddDaysAll | lib/utils/date.ts:79-80 | for every n, n days after a date is n day numbers later |
| PaymentDates.IsPaymentDateNear | lib/utils/date.ts:70-83 | a missing date is never near; a past date is never near; a date n days ahead is near exactly when n ≤ the threshold |
| CurrencyConversion.FindRate | lib/utils/currency.ts:67 | no index exactly when no row quotes the currency; otherwise the index of the first row that does |
| CurrencyConversion.ConvertToRub | lib/utils/currency.ts:58-74 | roubles are unchanged; a currency no row quotes is unchanged; otherwise the amount times the rate of the first row quoting it |
| CurrencyConversion.ConvertToRubNonNegative | lib/utils/currency.ts:58-74 | a non-negative amount with non-negative rates converts to a non-negative amount |
| CurrencyConversion.ConvertToRubLinear | lib/utils/currency.ts:58-74 | conversion is additive in the amount and maps 0 to 0 |
| CurrencyConversion.RateFromQuote | lib/utils/currency.ts:32-36 | a row carries the quote's code and the current time, and its rate times the nominal is the quoted value |
| CurrencyConversion.ConvertCbrToExchangeRates | lib/utils/currency.ts:25-49 | the pushed list is the USD row (when quoted) followed by the EUR row (when quoted) |
| CurrencyConversion.QuoteRates | lib/utils/currency.ts:25-49 | at most two rows; a USD row exactly when USD is quoted and an EUR row exactly when EUR is quoted; USD comes before EUR; each rate is Value / Nominal, stamped now |
| CurrencyConversion.QuoteRatesIgnoresOthers | lib/utils/currency.ts:30-46 | currencies other than USD and EUR in the feed do not affect the rows |
| CurrencyConversion.ShouldUpdate | lib/utils/currency.ts:99-112 | no stamp asks for a refresh; an unparsable stamp never does; otherwise a refresh is due exactly when at least 86 400 000 ms have passed, and never for a future stamp |
| CurrencyConversion.StalenessIsMonotone | lib/utils/currency.ts:106-111 | once a stamp is stale it stays stale as time passes |
| Totals.MonthlyCost | lib/utils/totals.ts:9-34 | the monthly cost is the cost times the period's factor in the reference table `MonthlyFactor` (4.33, 1, 1/3, 1/6, 1/12, 0) |
| Totals.MonthlyCostIsScaled | lib/utils/totals.ts:9-34 | lifetime costs 0; 3, 6 or 12 months of the monthly cost give back the cost; a non-negative cost gives a non-negative monthly cost |
| Totals.MonthlyCostExamples | lib/utils/totals.ts:16-30 | 1200 a year and 300 a quarter are 100 a month; 100 a week is 433 a month |
| Totals.AddMonthly | lib/utils/totals.ts:49-62 | skipping a zero monthly cost changes nothing: each reduce step adds exactly the subscription's monthly cost in roubles (`MonthlyContribution`) |
| Totals.FoldMonthly | lib/utils/totals.ts:48-63 | the reduce from any start value equals that value plus the reference sum `SumMonthly` of the contributions |
| Totals.MonthlyTotal | lib/utils/totals.ts:44-64 | the monthly total is the reference sum `SumMonthly` of the contributions |
| Totals.SumMonthlyAppend | lib/utils/totals.ts:48-63 | the sum of contributions over two lists in succession is the sum of the two sums |
| Totals.MonthlyTotalSplits | lib/utils/totals.ts:44-64 | the monthly total of no subscriptions is 0, of one its contribution, and of two lists one after the other the sum of their totals |
| Totals.SumMonthlyNonNegative | lib/utils/totals.ts:48-63 | non-negative costs and rates give a non-negative sum |
| Totals.MonthlyTotalNonNegative | lib/utils/totals.ts:44-64 | non-negative costs and rates give a non-negative monthly total |
| Totals.MonthlyOnes | lib/utils/totals.ts:80-82 | the kept subscriptions are exactly the strictly monthly ones of the input, all of them and nothing else, and no more numerous than the input |
| Totals.AddMonthlyOnly | lib/utils/totals.ts:79-91 | a strictly monthly subscription takes the monthly-total step `AddMonthly`; any other period leaves the total as it is |
| Totals.FoldMonthlyOnly | lib/utils/totals.ts:78-92 | the monthly-only reduce is the monthly-total reduce over just the strictly monthly subscriptions (`MonthlyOnes`) |
| Totals.MonthlyOnlyTotal | lib/utils/totals.ts:74-93 | the monthly-only total is the monthly total of the strictly monthly subscriptions |
| Totals.MonthlyOnesAppend | lib/utils/totals.ts:80-82 | filtering two lists in succession is filtering each |
| Totals.MonthlyOnlyTotalSplits | lib/utils/totals.ts:74-93 | the monthly-only total of no subscriptions is 0; of one, its cost in roubles when it is strictly monthly and 0 otherwise; of two lists one after the other, the sum of their totals |
| Totals.MonthlyOnlyIgnoresOtherPeriods | lib/utils/totals.ts:80-82 | a subscription that is not strictly monthly never changes the monthly-only total, wherever it stands |
| Totals.MonthlyOnesNonNegative | lib/utils/totals.ts:80-82 | filtering keeps costs non-negative |
| Totals.MonthlyOnlyTotalNonNegative | lib/utils/totals.ts:74-93 | non-negative costs and rates give a non-negative monthly-only total |
| Totals.TotalsExample | lib/utils/totals.ts:44-93 | 1000 RUB a month plus 10 USD a year at 90 RUB per dollar total 1075 RUB a month, and 1000 RUB for the monthly-only total |
| ExchangeRates.NewestFirst | app/actions/exchange-rates.ts:18-21 | a newest-first read of the table has at most two rows, and is non-empty whenever the table holds a row |
| ExchangeRates.CacheIsFresh | app/actions/exchange-rates.ts:24-28 | an empty or missing read is never fresh; a non-empty read is fresh exactly when its first row is less than 86 400 000 ms older than now |
| ExchangeRates.FreshnessIsNewestRow | app/actions/exchange-rates.ts:24-28 | judging freshness on the first row of the newest-first read is the same as asking whether any stored row is fresh |
| ExchangeRates.NewestRowFirst | app/actions/exchange-rates.ts:18-21 | the first row of the newest-first read is at least as recent as every stored row |
| ExchangeRates.RateTable.constructor | app/actions/exchange-rates.ts:18-21 | a table built from rows filed under their own codes is valid and holds those rows |
| ExchangeRates.RateTable.Upsert | app/actions/exchange-rates.ts:38-51 | every upserted code is stored; the codes stored are the old ones plus the upserted ones; the last row upserted for a code is its stored row; other codes keep their rows |
| ExchangeRates.RateTable.GetExchangeRates | app/actions/exchange-rates.ts:14-65 | a fresh cache is returned as read and nothing is written; a successful refresh returns exactly the converted quotes, stores each under its code and leaves other codes alone; a failed refresh returns the stale cache when one was read and is non-empty, otherwise nothing, and writes nothing |
| ErrorTranslations.LowerChar | lib/utils/error-translations.ts:5 | the result is never an upper-case letter; non-upper-case characters are kept; A–Z and А–Я move up 32 code points and U+0400–U+040F (Ё among them) move up 80 |
| ErrorTranslations.ToLower | lib/utils/error-translations.ts:5 | the same length; no upper-case letter remains; other characters are kept; each upper-case letter is mapped as by `LowerChar` (A–Z and А–Я up 32, U+0400–U+040F up 80) |
| ErrorTranslations.ToLowerIdempotent | lib/utils/error-translations.ts:5 | lower-casing twice is lower-casing once |
| ErrorTranslations.LowerCaseIsKept | lib/utils/error-translations.ts:5 | a string without upper-case letters is its own lower-case form |
| ErrorTranslations.Contains | lib/utils/error-translations.ts:8-62 | the empty string occurs in every message, and nothing longer than the message occurs in it |
| ErrorTranslations.ContainsIsSubstring | lib/utils/error-translations.ts:8-62 | `includes` holds exactly when the message is some text, then the phrase, then some text |
| ErrorTranslations.TranslateError | lib/utils/error-translations.ts:4-75 | when no rule matches, the message is returned unchanged (also by the subscription rule); the result is always the message or one of the twelve fixed translations |
| ErrorTranslations.FirstMatchDecides | lib/utils/error-translations.ts:8-62 | the first rule, in source order, that matches the lower-cased message decides the translation |
| ErrorTranslations.TranslationIgnoresCase | lib/utils/error-translations.ts:5 | when a rule matches, a message and its lower-cased form have the same translation; when none does, each is returned as it is |
| ErrorTranslations.SameTranslationUpToCase | lib/utils/error-translations.ts:5-62 | two messages with the same lower-cased form get the same translation whenever a rule matches them |
| ErrorTranslations.InvalidEmailMatchesPattern | lib/utils/error-translations.ts:35-39 | a message containing "invalid email" matches the `invalid.*email` pattern |
| ErrorTranslations.EmailRuleNeedsTheWords | lib/utils/error-translations.ts:35-41 | every alternative of the e-mail rule, both patterns included, needs "email" and "invalid" in the message, and the `email\s+address` pattern needs "address" too |
| ErrorTranslations.EmailAndInvalidOnOneLine | lib/utils/error-translations.ts:35-41 | "email" and "invalid" on one line, in either order, give the e-mail format message unless an earlier rule matches |
| ErrorTranslations.LineBreakSeparates | lib/utils/error-translations.ts:39 | "email", a line break, then "invalid" does not match the pattern `email.*invalid` or its reverse; the same words without the line break do |
| ErrorTranslations.LoginRuleComesFirst | lib/utils/error-translations.ts:8-41 | "email invalid credentials" matches the e-mail rule but is translated as a login failure, because that rule comes first |

## Left out

- Network and database I/O are left out. This covers `fetchCBRExchangeRates` (lib/utils/currency.ts:8-20) and the Supabase client, read and upserts in `getExchangeRates`. Their outcomes are parameters of `GetExchangeRates`: the rows the ordered read returns (or none), and the quote map (or none when the fetch throws).
- `formatCurrency` (lib/utils/currency.ts:79-93) is left out. It is display formatting through `Intl.NumberFormat` and has no logic of its own to prove.
- The clock is left out. "Today" (local midnight) and "now" (milliseconds) are parameters. One `now` stands for both `new Date()` calls in `convertCBRToExchangeRates` (lib/utils/currency.ts:35, 44) and for the `new Date()` of the staleness test (lib/utils/currency.ts:107), so a refreshed row is stamped with the same instant at which the cache was judged stale.
- Time zones, daylight-saving shifts and times of day are left out. Dates are calendar days, and the ceiling of the millisecond difference in `isPaymentDateNear` (lib/utils/date.ts:79-80) is the whole-day difference of their day numbers.
- Floating point is left out. Costs, the 4.33 factor, rates and divisions are exact reals, so rounding is not modelled.
- Logging through `console.warn` and `console.error` is left out.
- Upsert errors are left out. The source ignores the error results of its upserts and never throws from them, so a partial write is not modelled.
- The `default` branches of `periodToDuration` and `getMonthlyCost`, and the null-duration return of `getNextPaymentDate` (lib/utils/date.ts:53-55), are left out. The period type is a closed enumeration, and a non-lifetime period always has a duration.
- The date-string parsing of `getNextPaymentDate` (a string start becomes `new Date(startDate)`) is left out. The start is already a calendar day.
- ExchangeRates.RateTable.GetExchangeRates: takes stored timestamps as milliseconds, so a stored `updated_at` that fails to parse, for which the staleness test answers "not stale", is modelled only in `ShouldUpdate` (as `Unparsable`) and not through the cache.
- CurrencyConversion.ConvertCbrToExchangeRates: requires a non-zero Nominal for the USD and EUR quotes (`UsableQuotes`). With a zero nominal the source would store Infinity or NaN, which reals cannot represent.
- ErrorTranslations.ToLower: covers only A–Z, А–Я and the Cyrillic capitals U+0400–U+040F (Ё among them). Other Unicode case mappings of `toLowerCase` are not modelled, including ones that change the length or map to an ASCII letter, such as U+0130 and the Kelvin sign.
- ErrorTranslations.IsCyrillicLetter: the `[а-яё]` test with the `i` flag is taken as а–я, ё, А–Я and Ё. Both outcomes of that test return the message unchanged, so this does not affect any result.
- ErrorTranslations.EmailAndInvalidOnOneLine: the e-mail rule fires for "email" before "invalid", or the reverse, only when no line break lies between them. The `.` of the pattern does not match line terminators, so the statement is restricted to one line. `LineBreakSeparates` shows the two-line case.

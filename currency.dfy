/** Currency conversion and rate staleness of lib/utils/currency.ts: the
    conversion of an amount to roubles through a list of rate rows, the
    transformation of a Central Bank of Russia quote map into rate rows, and
    the 24-hour staleness test. Amounts and rates are exact reals; clock
    readings are parameters, in milliseconds since the epoch. */
module CurrencyConversion {
  import opened Types

  /** The position of the first row quoting `code` (Array.prototype.find),
      or None when no row does. */
  function FindRate(rates: seq<Rate>, code: Currency): (r: Option<nat>)
    ensures r.None? <==> forall i :: 0 <= i < |rates| ==> rates[i].code != code
    ensures r.Some? ==> r.value < |rates| && rates[r.value].code == code
                        && forall j :: 0 <= j < r.value ==> rates[j].code != code
  {
    if rates == [] then None
    else if rates[0].code == code then Some(0)
    else match FindRate(rates[1..], code)
      case None => None
      case Some(i) => Some(i + 1)
  }

  /** convertToRUB: roubles are returned as they are; another currency is
      multiplied by the rate of the first row that quotes it; a currency no
      row quotes is passed through unconverted (the source logs a warning). */
  function ConvertToRub(amount: real, from: Currency, rates: seq<Rate>): (r: real)
    ensures from == RUB ==> r == amount
    ensures (forall i :: 0 <= i < |rates| ==> rates[i].code != from) ==> r == amount
    ensures forall i :: 0 <= i < |rates| && rates[i].code == from && from != RUB
                        && (forall j :: 0 <= j < i ==> rates[j].code != from)
                        ==> r == amount * rates[i].rateToRub
  {
    if from == RUB then amount
    else match FindRate(rates, from)
      case None => amount
      case Some(i) => amount * rates[i].rateToRub
  }

  /** Every rate in the list is non-negative. */
  predicate NonNegativeRates(rates: seq<Rate>) {
    forall i :: 0 <= i < |rates| ==> rates[i].rateToRub >= 0.0
  }

  /** With a non-negative amount and non-negative rates the converted amount is
      non-negative. */
  lemma ConvertToRubNonNegative(amount: real, from: Currency, rates: seq<Rate>)
    requires amount >= 0.0 && NonNegativeRates(rates)
    ensures ConvertToRub(amount, from, rates) >= 0.0
  {
    var found := FindRate(rates, from);
    if from != RUB && found.Some? {
      Product(amount, rates[found.value].rateToRub);
    }
  }

  lemma Product(a: real, b: real)
    requires a >= 0.0 && b >= 0.0
    ensures a * b >= 0.0
  {
  }

  /** Conversion is linear in the amount: it scales by one factor that depends
      only on the currency and the rate list. */
  lemma ConvertToRubLinear(a: real, b: real, from: Currency, rates: seq<Rate>)
    ensures ConvertToRub(a + b, from, rates) == ConvertToRub(a, from, rates) + ConvertToRub(b, from, rates)
    ensures ConvertToRub(0.0, from, rates) == 0.0
  {
    var found := FindRate(rates, from);
    if from != RUB && found.Some? {
      var k := rates[found.value].rateToRub;
      assert (a + b) * k == a * k + b * k;
    }
  }

  // ---------------------------------------------------------------------
  // CBR quotes

  /** The row made from one quote: roubles per single unit. */
  function RateFromQuote(code: RateCode, q: Quote, now: int): (r: Rate)
    requires q.nominal != 0.0
    ensures r.code == code && r.updatedAt == now
    ensures r.rateToRub * q.nominal == q.value
  {
    Rate(code, q.value / q.nominal, now)
  }

  /** Only the quotes the conversion reads must have a usable nominal. */
  predicate UsableQuotes(cbr: QuoteMap) {
    ("USD" in cbr ==> cbr["USD"].nominal != 0.0) && ("EUR" in cbr ==> cbr["EUR"].nominal != 0.0)
  }

  /** The rows convertCBRToExchangeRates produces: a USD row exactly when USD
      is quoted and an EUR row exactly when EUR is quoted, USD first, no
      currency twice, every row worth Value / Nominal of its quote and stamped
      `now`; every other currency of the feed is ignored. */
  function QuoteRates(cbr: QuoteMap, now: int): (rs: seq<Rate>)
    requires UsableQuotes(cbr)
    ensures |rs| <= 2
    ensures (exists i :: 0 <= i < |rs| && rs[i].code == USD) <==> "USD" in cbr
    ensures (exists i :: 0 <= i < |rs| && rs[i].code == EUR) <==> "EUR" in cbr
    ensures forall i, j :: 0 <= i < j < |rs| ==> rs[i].code == USD && rs[j].code == EUR
    ensures forall i :: 0 <= i < |rs| ==>
              var q := cbr[if rs[i].code == USD then "USD" else "EUR"];
              rs[i].rateToRub * q.nominal == q.value && rs[i].updatedAt == now
  {
    var usd := if "USD" in cbr then [RateFromQuote(USD, cbr["USD"], now)] else [];
    var eur := if "EUR" in cbr then [RateFromQuote(EUR, cbr["EUR"], now)] else [];
    assert "USD" in cbr ==> (usd + eur)[0].code == USD;
    assert "EUR" in cbr ==> (usd + eur)[|usd + eur| - 1].code == EUR;
    usd + eur
  }

  /** convertCBRToExchangeRates, pushing onto a local list as the source does. */
  method ConvertCbrToExchangeRates(cbr: QuoteMap, now: int) returns (rates: seq<Rate>)
    requires UsableQuotes(cbr)
    ensures rates == QuoteRates(cbr, now)
  {
    rates := [];
    if "USD" in cbr {
      rates := rates + [RateFromQuote(USD, cbr["USD"], now)];
    }
    if "EUR" in cbr {
      rates := rates + [RateFromQuote(EUR, cbr["EUR"], now)];
    }
  }

  /** The quote conversion depends only on the USD and EUR entries of the feed. */
  lemma QuoteRatesIgnoresOthers(cbr: QuoteMap, key: string, q: Quote, now: int)
    requires UsableQuotes(cbr) && key != "USD" && key != "EUR"
    ensures UsableQuotes(cbr[key := q]) && QuoteRates(cbr[key := q], now) == QuoteRates(cbr, now)
  {
  }

  // ---------------------------------------------------------------------
  // Staleness

  /** A stored timestamp as the staleness test sees it: missing (null or the
      empty string), unparsable (the date library yields NaN) or a time. */
  datatype Stamp = Absent | Unparsable | Millis(ms: int)

  /** The freshness window: 24 hours. */
  const StalenessWindowMs: int := 24 * 60 * 60 * 1000

  /** shouldUpdateExchangeRates: refresh when no timestamp is stored, or when
      at least 24 hours have passed; an unparsable timestamp compares as NaN
      and never asks for a refresh; a timestamp in the future is fresh. */
  function ShouldUpdate(last: Stamp, now: int): (r: bool)
    ensures last.Absent? ==> r
    ensures last.Unparsable? ==> !r
    ensures last.Millis? ==> (r <==> now - last.ms >= 86_400_000)
    ensures last.Millis? && last.ms > now ==> !r
  {
    match last
    case Absent => true
    case Unparsable => false
    case Millis(t) => now - t >= StalenessWindowMs
  }

  /** Once stale, a timestamp stays stale as time goes on. */
  lemma StalenessIsMonotone(t: int, now: int, later: int)
    requires now <= later && ShouldUpdate(Millis(t), now)
    ensures ShouldUpdate(Millis(t), later)
  {
  }
}

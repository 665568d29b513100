/** The value types the billing engine works on: the period and currency
    enumerations of a subscription, the exchange-rate record and the quote map
    returned by the Central Bank of Russia daily feed. */
module Types {

  datatype Option<+T> = None | Some(value: T)

  /** Billing period of a subscription ("weekly" … "lifetime"). */
  datatype Period = Weekly | Monthly | ThreeMonths | SixMonths | Yearly | Lifetime

  /** The currencies a subscription may be priced in. RUB is the reporting currency. */
  datatype Currency = RUB | USD | EUR

  /** Only foreign currencies carry a stored rate. */
  type RateCode = c: Currency | c != RUB witness USD

  /** A calendar day, proleptic Gregorian; validity is the subset type Calendar.Date. */
  datatype Ymd = Ymd(year: int, month: int, day: int)

  /** A subscription snapshot as the billing engine reads it (identity, name and
      flags are not used by the engine and are not modelled). */
  datatype Subscription = Subscription(cost: real, currency: Currency, period: Period, startDate: Ymd)

  /** One exchange-rate row: roubles per unit of `code`, stamped with the time
      (milliseconds since the epoch) it was recorded. */
  datatype Rate = Rate(code: RateCode, rateToRub: real, updatedAt: int)

  /** One entry of the CBR quote map: `value` roubles buy `nominal` units. */
  datatype Quote = Quote(charCode: string, value: real, nominal: real)

  /** The CBR quote map, keyed by character code ("USD", "EUR", …). */
  type QuoteMap = map<string, Quote>
}

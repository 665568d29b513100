/** The rate-cache policy of app/actions/exchange-rates.ts (getExchangeRates):
    serve the stored rates while the newest one is under 24 hours old;
    otherwise fetch the Central Bank quotes, upsert one row per currency code
    and return the fresh rows; when the fetch fails, fall back to the stored
    rows or to nothing. The database table is a map from currency code to its
    row; the ordered read of the table and the outcome of the fetch are inputs. */
module ExchangeRates {
  import opened Types
  import opened CurrencyConversion

  /** `listing` is what the ordered read of `rows` returns: every row once,
      newest `updatedAt` first (rows with equal stamps in any order). Such a
      read is empty only when the table is, and has at most two rows, one per
      stored currency code. */
  predicate NewestFirst(listing: seq<Rate>, rows: map<RateCode, Rate>)
    ensures NewestFirst(listing, rows) ==> |listing| <= 2
    ensures NewestFirst(listing, rows) ==> forall c :: c in rows ==> |listing| > 0
  {
    var ok :=
      && (forall i :: 0 <= i < |listing| ==> listing[i].code in rows && rows[listing[i].code] == listing[i])
      && (forall i, j :: 0 <= i < j < |listing| ==> listing[i].code != listing[j].code)
      && (forall c :: c in rows ==> exists i :: 0 <= i < |listing| && listing[i].code == c)
      && (forall i, j :: 0 <= i < j < |listing| ==> listing[i].updatedAt >= listing[j].updatedAt);
    if ok then AtMostTwoCodes(listing); true else false
  }

  /** Three rows would need three distinct codes, and only USD and EUR exist. */
  lemma AtMostTwoCodes(listing: seq<Rate>)
    requires forall i, j :: 0 <= i < j < |listing| ==> listing[i].code != listing[j].code
    ensures |listing| <= 2
  {
    if |listing| > 2 {
      var a, b, c := listing[0].code, listing[1].code, listing[2].code;
      assert false;
    }
  }

  /** The early-return test: a non-empty read whose first row is not stale,
      that is, whose first row is less than 24 hours older than `now` (or
      dated after it). An empty or missing read is never fresh. */
  predicate CacheIsFresh(cached: Option<seq<Rate>>, now: int)
    ensures CacheIsFresh(cached, now) ==> cached.Some? && |cached.value| > 0
    ensures cached.Some? && |cached.value| > 0 ==>
              (CacheIsFresh(cached, now) <==> now - cached.value[0].updatedAt < 86_400_000)
  {
    cached.Some? && |cached.value| > 0 && !ShouldUpdate(Millis(cached.value[0].updatedAt), now)
  }

  /** Freshness is judged on the first row only; because the read is newest
      first, that is the same as asking whether any stored row is fresh, so
      older rows may be stale while the cache is still served. */
  lemma FreshnessIsNewestRow(listing: seq<Rate>, rows: map<RateCode, Rate>, now: int)
    requires NewestFirst(listing, rows)
    ensures CacheIsFresh(Some(listing), now) <==>
              exists c :: c in rows && !ShouldUpdate(Millis(rows[c].updatedAt), now)
  {
    if exists c :: c in rows && !ShouldUpdate(Millis(rows[c].updatedAt), now) {
      var c :| c in rows && !ShouldUpdate(Millis(rows[c].updatedAt), now);
      NewestRowFirst(listing, rows, c);
    }
    if CacheIsFresh(Some(listing), now) {
      var c := listing[0].code;
      assert c in rows && rows[c] == listing[0];
    }
  }

  /** The first row of the read is at least as recent as every stored row. */
  lemma NewestRowFirst(listing: seq<Rate>, rows: map<RateCode, Rate>, c: RateCode)
    requires NewestFirst(listing, rows) && c in rows
    ensures |listing| > 0 && listing[0].updatedAt >= rows[c].updatedAt
  {
    var i :| 0 <= i < |listing| && listing[i].code == c;
    if i > 0 {
      assert listing[0].updatedAt >= listing[i].updatedAt;
    }
  }

  /** The exchange_rates table. The map holds at most one row per currency
      code, which is what upserting on the code keeps true. */
  class RateTable {
    var rows: map<RateCode, Rate>

    /** Each row is filed under its own code. */
    ghost predicate Valid()
      reads this
    {
      forall c :: c in rows ==> rows[c].code == c
    }

    constructor (initial: map<RateCode, Rate>)
      requires forall c :: c in initial ==> initial[c].code == c
      ensures Valid() && rows == initial
    {
      rows := initial;
    }

    /** The upsert loop: each row replaces the stored row of its code, or is
        added when the code has none; rows of other codes are kept. */
    method Upsert(rates: seq<Rate>)
      requires Valid()
      modifies this
      ensures Valid()
      ensures forall i :: 0 <= i < |rates| ==> rates[i].code in rows
      ensures forall c :: c in rows <==> c in old(rows) || exists i :: 0 <= i < |rates| && rates[i].code == c
      ensures forall i :: 0 <= i < |rates| && (forall j :: i < j < |rates| ==> rates[j].code != rates[i].code)
                ==> rows[rates[i].code] == rates[i]
      ensures forall c :: c in old(rows) && (forall i :: 0 <= i < |rates| ==> rates[i].code != c)
                ==> rows[c] == old(rows)[c]
    {
      for i := 0 to |rates|
        invariant Valid()
        invariant forall j :: 0 <= j < i ==> rates[j].code in rows
        invariant forall c :: c in rows <==> c in old(rows) || exists j :: 0 <= j < i && rates[j].code == c
        invariant forall j :: 0 <= j < i && (forall k :: j < k < i ==> rates[k].code != rates[j].code)
                    ==> rows[rates[j].code] == rates[j]
        invariant forall c :: c in old(rows) && (forall j :: 0 <= j < i ==> rates[j].code != c)
                    ==> rows[c] == old(rows)[c]
      {
        rows := rows[rates[i].code := rates[i]];
      }
    }

    /** getExchangeRates. `cached` is the result of the ordered read (None when
        the read returns no data); `fetched` is the quote map, or None when
        the fetch throws. */
    method GetExchangeRates(cached: Option<seq<Rate>>, fetched: Option<QuoteMap>, now: int)
      returns (result: seq<Rate>)
      requires Valid()
      requires cached.Some? ==> NewestFirst(cached.value, rows)
      requires fetched.Some? ==> UsableQuotes(fetched.value)
      modifies this
      ensures Valid()
      // A fresh cache is returned as read, with no writes.
      ensures CacheIsFresh(cached, now) ==> result == cached.value && rows == old(rows)
      // A successful refresh returns exactly the converted quotes and upserts them.
      ensures !CacheIsFresh(cached, now) && fetched.Some? ==>
                result == QuoteRates(fetched.value, now)
                && (forall i :: 0 <= i < |result| ==> result[i].code in rows && rows[result[i].code] == result[i])
                && (forall c :: (forall i :: 0 <= i < |result| ==> result[i].code != c) ==>
                      (c in rows <==> c in old(rows)) && (c in rows ==> rows[c] == old(rows)[c]))
      // A failed refresh falls back to the stale cache, or to nothing, and writes nothing.
      ensures !CacheIsFresh(cached, now) && fetched.None? ==>
                result == (if cached.Some? && |cached.value| > 0 then cached.value else [])
                && rows == old(rows)
    {
      if CacheIsFresh(cached, now) {
        return cached.value;
      }
      match fetched {
        case None =>
          if cached.Some? && |cached.value| > 0 {
            return cached.value;
          }
          return [];
        case Some(cbr) =>
          var rates := ConvertCbrToExchangeRates(cbr, now);
          Upsert(rates);
          return rates;
      }
    }
  }
}

/** The period normaliser and the two monthly totals of lib/utils/totals.ts.
    Both totals are left folds (Array.prototype.reduce, starting from 0) over
    the subscription list; every term is converted to roubles. */
module Totals {
  import opened Types
  import opened CurrencyConversion

  /** The monthly-equivalent factor of each period, as a reference table:
      4.33 weeks to a month, one month, a third, a sixth, a twelfth, and
      nothing for a one-off lifetime purchase. */
  function MonthlyFactor(p: Period): real {
    match p
    case Weekly => 4.33
    case Monthly => 1.0
    case ThreeMonths => 1.0 / 3.0
    case SixMonths => 1.0 / 6.0
    case Yearly => 1.0 / 12.0
    case Lifetime => 0.0
  }

  /** getMonthlyCost: the cost scaled by the period's factor. */
  function MonthlyCost(s: Subscription): (r: real)
    ensures r == s.cost * MonthlyFactor(s.period)
  {
    if s.period == Lifetime then 0.0
    else match s.period
      case Weekly => s.cost * 4.33
      case Monthly => s.cost
      case ThreeMonths => s.cost / 3.0
      case SixMonths => s.cost / 6.0
      case Yearly => s.cost / 12.0
  }

  /** A lifetime purchase costs nothing a month, and the cost of one interval
      is recovered by multiplying back (three months of a quarterly price, and
      so on). */
  lemma MonthlyCostIsScaled(s: Subscription)
    ensures s.period == Lifetime ==> MonthlyCost(s) == 0.0
    ensures s.period == ThreeMonths ==> 3.0 * MonthlyCost(s) == s.cost
    ensures s.period == SixMonths ==> 6.0 * MonthlyCost(s) == s.cost
    ensures s.period == Yearly ==> 12.0 * MonthlyCost(s) == s.cost
    ensures s.cost >= 0.0 ==> MonthlyCost(s) >= 0.0
  {
  }

  /** The figures of the period table: 1200 a year and 300 a quarter are 100 a
      month, 100 a week is 433 a month. */
  lemma MonthlyCostExamples(c: Currency, d: Ymd)
    ensures MonthlyCost(Subscription(1200.0, c, Yearly, d)) == 100.0
    ensures MonthlyCost(Subscription(300.0, c, ThreeMonths, d)) == 100.0
    ensures MonthlyCost(Subscription(100.0, c, Weekly, d)) == 433.0
  {
  }

  // ---------------------------------------------------------------------
  // calculateMonthlyTotal

  /** The reducer of calculateMonthlyTotal: a subscription whose monthly cost
      is zero leaves the total as it is; any other adds its monthly cost in
      roubles. Skipping the zero costs changes nothing: each step adds exactly
      the subscription's contribution. */
  function AddMonthly(total: real, s: Subscription, rates: seq<Rate>): (r: real)
    ensures r == total + MonthlyContribution(s, rates)
  {
    var monthly := MonthlyCost(s);
    ConvertToRubLinear(0.0, 0.0, s.currency, rates);
    if monthly == 0.0 then total else total + ConvertToRub(monthly, s.currency, rates)
  }

  /** The reduce from any start value: that value plus the sum of the
      contributions. */
  function FoldMonthly(total: real, subs: seq<Subscription>, rates: seq<Rate>): (r: real)
    ensures r == total + SumMonthly(subs, rates)
    decreases |subs|
  {
    if subs == [] then total else FoldMonthly(AddMonthly(total, subs[0], rates), subs[1..], rates)
  }

  /** calculateMonthlyTotal: the fold started at 0, which is the sum of the
      contributions. */
  function MonthlyTotal(subs: seq<Subscription>, rates: seq<Rate>): (r: real)
    ensures r == SumMonthly(subs, rates)
  {
    FoldMonthly(0.0, subs, rates)
  }

  /** The contribution of one subscription: its monthly cost in roubles. */
  function MonthlyContribution(s: Subscription, rates: seq<Rate>): real {
    ConvertToRub(MonthlyCost(s), s.currency, rates)
  }

  /** Reference sum: the contributions added up from the right. */
  function SumMonthly(subs: seq<Subscription>, rates: seq<Rate>): real
    decreases |subs|
  {
    if subs == [] then 0.0 else MonthlyContribution(subs[0], rates) + SumMonthly(subs[1..], rates)
  }

  lemma {:induction false} SumMonthlyAppend(xs: seq<Subscription>, ys: seq<Subscription>, rates: seq<Rate>)
    ensures SumMonthly(xs + ys, rates) == SumMonthly(xs, rates) + SumMonthly(ys, rates)
    decreases |xs|
  {
    if xs == [] {
      assert xs + ys == ys;
    } else {
      assert (xs + ys)[0] == xs[0] && (xs + ys)[1..] == xs[1..] + ys;
      SumMonthlyAppend(xs[1..], ys, rates);
    }
  }

  /** The monthly total of an empty list is 0, of one subscription its
      contribution, and the total of two lists one after the other is the sum
      of their totals. */
  lemma MonthlyTotalSplits(xs: seq<Subscription>, ys: seq<Subscription>, rates: seq<Rate>)
    ensures MonthlyTotal([], rates) == 0.0
    ensures forall s :: MonthlyTotal([s], rates) == MonthlyContribution(s, rates)
    ensures MonthlyTotal(xs + ys, rates) == MonthlyTotal(xs, rates) + MonthlyTotal(ys, rates)
  {
    forall s ensures MonthlyTotal([s], rates) == MonthlyContribution(s, rates) {
      assert [s][1..] == [];
    }
    SumMonthlyAppend(xs, ys, rates);
  }

  predicate NonNegativeCosts(subs: seq<Subscription>) {
    forall i :: 0 <= i < |subs| ==> subs[i].cost >= 0.0
  }

  lemma {:induction false} SumMonthlyNonNegative(subs: seq<Subscription>, rates: seq<Rate>)
    requires NonNegativeCosts(subs) && NonNegativeRates(rates)
    ensures SumMonthly(subs, rates) >= 0.0
    decreases |subs|
  {
    if subs != [] {
      MonthlyCostIsScaled(subs[0]);
      ConvertToRubNonNegative(MonthlyCost(subs[0]), subs[0].currency, rates);
      assert NonNegativeCosts(subs[1..]) by {
        forall i | 0 <= i < |subs[1..]| ensures subs[1..][i].cost >= 0.0 {
          assert subs[1..][i] == subs[i + 1];
        }
      }
      SumMonthlyNonNegative(subs[1..], rates);
    }
  }

  /** With non-negative costs and rates the monthly total is non-negative. */
  lemma MonthlyTotalNonNegative(subs: seq<Subscription>, rates: seq<Rate>)
    requires NonNegativeCosts(subs) && NonNegativeRates(rates)
    ensures MonthlyTotal(subs, rates) >= 0.0
  {
    SumMonthlyNonNegative(subs, rates);
  }

  // ---------------------------------------------------------------------
  // calculateMonthlyOnlyTotal

  /** The reducer of calculateMonthlyOnlyTotal: only strictly monthly
      subscriptions count, at their unscaled cost in roubles, which is the step
      of the monthly-total reduce for them. */
  function AddMonthlyOnly(total: real, s: Subscription, rates: seq<Rate>): (r: real)
    ensures s.period == Monthly ==> r == AddMonthly(total, s, rates)
    ensures s.period != Monthly ==> r == total
  {
    if s.period != Monthly then total else total + ConvertToRub(s.cost, s.currency, rates)
  }

  /** The monthly-only reduce is the monthly-total reduce restricted to the
      strictly monthly subscriptions: the other periods are ignored, and a
      monthly subscription counts at its cost converted to roubles. */
  function FoldMonthlyOnly(total: real, subs: seq<Subscription>, rates: seq<Rate>): (r: real)
    ensures r == FoldMonthly(total, MonthlyOnes(subs), rates)
    decreases |subs|
  {
    if subs == [] then total
    else
      assert subs[0].period == Monthly ==> MonthlyOnes(subs)[1..] == MonthlyOnes(subs[1..]);
      FoldMonthlyOnly(AddMonthlyOnly(total, subs[0], rates), subs[1..], rates)
  }

  /** calculateMonthlyOnlyTotal: the fold started at 0, which is the monthly
      total of the strictly monthly subscriptions. */
  function MonthlyOnlyTotal(subs: seq<Subscription>, rates: seq<Rate>): (r: real)
    ensures r == MonthlyTotal(MonthlyOnes(subs), rates)
  {
    FoldMonthlyOnly(0.0, subs, rates)
  }

  /** The strictly monthly subscriptions of a list, in order. */
  function MonthlyOnes(subs: seq<Subscription>): (r: seq<Subscription>)
    ensures forall i :: 0 <= i < |r| ==> r[i].period == Monthly
    ensures forall s :: s in r <==> s in subs && s.period == Monthly
    ensures |r| <= |subs|
    decreases |subs|
  {
    if subs == [] then []
    else if subs[0].period == Monthly then [subs[0]] + MonthlyOnes(subs[1..])
    else MonthlyOnes(subs[1..])
  }

  lemma {:induction false} MonthlyOnesAppend(xs: seq<Subscription>, ys: seq<Subscription>)
    ensures MonthlyOnes(xs + ys) == MonthlyOnes(xs) + MonthlyOnes(ys)
    decreases |xs|
  {
    if xs == [] {
      assert xs + ys == ys;
    } else {
      assert (xs + ys)[0] == xs[0] && (xs + ys)[1..] == xs[1..] + ys;
      MonthlyOnesAppend(xs[1..], ys);
    }
  }

  /** The monthly-only total of an empty list is 0, of one subscription its
      cost in roubles when it is strictly monthly and 0 otherwise, and the
      total of two lists one after the other is the sum of their totals. */
  lemma MonthlyOnlyTotalSplits(xs: seq<Subscription>, ys: seq<Subscription>, rates: seq<Rate>)
    ensures MonthlyOnlyTotal([], rates) == 0.0
    ensures forall s :: MonthlyOnlyTotal([s], rates) ==
              if s.period == Monthly then ConvertToRub(s.cost, s.currency, rates) else 0.0
    ensures MonthlyOnlyTotal(xs + ys, rates) == MonthlyOnlyTotal(xs, rates) + MonthlyOnlyTotal(ys, rates)
  {
    forall s ensures MonthlyOnlyTotal([s], rates) ==
               if s.period == Monthly then ConvertToRub(s.cost, s.currency, rates) else 0.0
    {
      assert [s][1..] == [];
      assert MonthlyOnlyTotal([s], rates) == FoldMonthlyOnly(AddMonthlyOnly(0.0, s, rates), [], rates);
    }
    MonthlyOnesAppend(xs, ys);
    MonthlyTotalSplits(MonthlyOnes(xs), MonthlyOnes(ys), rates);
  }

  /** A subscription that is not strictly monthly never changes the
      monthly-only total, wherever it stands in the list. */
  lemma MonthlyOnlyIgnoresOtherPeriods(xs: seq<Subscription>, s: Subscription, ys: seq<Subscription>, rates: seq<Rate>)
    requires s.period != Monthly
    ensures MonthlyOnlyTotal(xs + [s] + ys, rates) == MonthlyOnlyTotal(xs + ys, rates)
  {
    assert MonthlyOnlyTotal([s], rates) == 0.0 by {
      assert [s][1..] == [];
      assert FoldMonthlyOnly(0.0, [s], rates) == FoldMonthlyOnly(0.0, [], rates);
    }
    MonthlyOnlyTotalSplits(xs + [s], ys, rates);
    MonthlyOnlyTotalSplits(xs, [s], rates);
    MonthlyOnlyTotalSplits(xs, ys, rates);
  }

  lemma {:induction false} MonthlyOnesNonNegative(subs: seq<Subscription>)
    requires NonNegativeCosts(subs)
    ensures NonNegativeCosts(MonthlyOnes(subs))
    decreases |subs|
  {
    if subs != [] {
      assert NonNegativeCosts(subs[1..]) by {
        forall i | 0 <= i < |subs[1..]| ensures subs[1..][i].cost >= 0.0 {
          assert subs[1..][i] == subs[i + 1];
        }
      }
      MonthlyOnesNonNegative(subs[1..]);
    }
  }

  /** With non-negative costs and rates the monthly-only total is non-negative. */
  lemma MonthlyOnlyTotalNonNegative(subs: seq<Subscription>, rates: seq<Rate>)
    requires NonNegativeCosts(subs) && NonNegativeRates(rates)
    ensures MonthlyOnlyTotal(subs, rates) >= 0.0
  {
    MonthlyOnesNonNegative(subs);
    MonthlyTotalNonNegative(MonthlyOnes(subs), rates);
  }

  /** A worked example: 1000 RUB a month plus 10 USD a year at 90 RUB
      per dollar come to 1075 RUB a month in all, and to 1000 RUB counting the
      strictly monthly subscription only. */
  lemma TotalsExample(d: Ymd, t: int)
    ensures var subs := [Subscription(1000.0, RUB, Monthly, d), Subscription(10.0, USD, Yearly, d)];
            var rates := [Rate(USD, 90.0, t)];
            MonthlyTotal(subs, rates) == 1075.0 && MonthlyOnlyTotal(subs, rates) == 1000.0
  {
    var a, b := Subscription(1000.0, RUB, Monthly, d), Subscription(10.0, USD, Yearly, d);
    var rates := [Rate(USD, 90.0, t)];
    assert [a, b] == [a] + [b];
    assert FindRate(rates, USD) == Some(0);
    assert MonthlyContribution(a, rates) == 1000.0;
    assert MonthlyContribution(b, rates) == 75.0;
    MonthlyTotalSplits([a], [b], rates);
    MonthlyOnlyTotalSplits([a], [b], rates);
    assert [a][1..] == [] && [b][1..] == [];
    assert MonthlyOnlyTotal([a], rates) == FoldMonthlyOnly(1000.0, [], rates);
    assert MonthlyOnlyTotal([b], rates) == FoldMonthlyOnly(0.0, [], rates);
  }
}

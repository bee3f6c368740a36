/** Revenue aggregation (`GetCurrentRevenueAsync`, `GetForecastRevenueAsync`):
    the sum of contract prices over signed contracts (current) or over
    signed-or-active contracts (forecast), optionally for one product, in
    PLN or converted at an exchange rate. The rate lookup is an external
    HTTP call; its answer is a parameter. */
module RevenueCalculator {
  import opened Outcome
  import opened LedgerModel
  import ExpirySweep

  datatype Basis = Current | Forecast

  /** Which contracts a sum runs over; `OpenOnly` (active and unsigned) is
      the difference between the two bases. */
  datatype Selection = SignedOnly | SignedOrActive | OpenOnly

  function SelectionOf(b: Basis): Selection {
    match b
    case Current => SignedOnly
    case Forecast => SignedOrActive
  }

  predicate Selected(c: Contract, sel: Selection, productFilter: Option<int>) {
    && (match sel
        case SignedOnly => c.isSigned
        case SignedOrActive => c.isSigned || c.isActive
        case OpenOnly => c.isActive && !c.isSigned)
    && (productFilter.None? || c.productId == productFilter.value)
  }

  function PriceSum(cs: seq<Contract>, sel: Selection, productFilter: Option<int>): real {
    if |cs| == 0 then 0.0
    else PriceSum(cs[..|cs| - 1], sel, productFilter)
         + (if Selected(cs[|cs| - 1], sel, productFilter) then cs[|cs| - 1].price else 0.0)
  }

  /** Forecast revenue is current revenue plus the value of the contracts
      that are still open. */
  lemma {:induction false} ForecastIsCurrentPlusOpen(cs: seq<Contract>, productFilter: Option<int>)
    ensures PriceSum(cs, SignedOrActive, productFilter)
            == PriceSum(cs, SignedOnly, productFilter) + PriceSum(cs, OpenOnly, productFilter)
  {
    if |cs| > 0 {
      ForecastIsCurrentPlusOpen(cs[..|cs| - 1], productFilter);
    }
  }

  /** With non-negative prices every revenue sum is non-negative. */
  lemma {:induction false} PriceSumNonNegative(cs: seq<Contract>, sel: Selection, productFilter: Option<int>)
    requires forall k :: 0 <= k < |cs| ==> cs[k].price >= 0.0
    ensures PriceSum(cs, sel, productFilter) >= 0.0
  {
    if |cs| > 0 {
      PriceSumNonNegative(cs[..|cs| - 1], sel, productFilter);
    }
  }

  /** Expiring contracts are unsigned and stay unsigned, so a sweep never
      changes current revenue. */
  lemma {:induction false} SweepKeepsCurrentRevenue(cs: seq<Contract>, now: int, productFilter: Option<int>)
    ensures PriceSum(ExpirySweep.ExpireContracts(cs, now), SignedOnly, productFilter) == PriceSum(cs, SignedOnly, productFilter)
  {
    if |cs| > 0 {
      var init := cs[..|cs| - 1];
      var r := ExpirySweep.ExpireContracts(cs, now);
      assert r[..|r| - 1] == ExpirySweep.ExpireContracts(init, now);
      SweepKeepsCurrentRevenue(init, now, productFilter);
    }
  }

  /** Whitespace as `char.IsWhiteSpace` defines it (Unicode categories Zs,
      Zl, Zp and the control characters U+0009..U+000D, U+0085). */
  predicate IsWhiteSpace(c: char) {
    || ('\U{0009}' <= c <= '\U{000D}') || c == '\U{0020}' || c == '\U{0085}' || c == '\U{00A0}'
    || c == '\U{1680}' || ('\U{2000}' <= c <= '\U{200A}') || c == '\U{2028}' || c == '\U{2029}'
    || c == '\U{202F}' || c == '\U{205F}' || c == '\U{3000}'
  }

  /** `string.IsNullOrWhiteSpace(currency) || currency == "PLN"`. */
  predicate IsBaseCurrency(currency: Option<string>) {
    currency.None? || (forall k :: 0 <= k < |currency.value| ==> IsWhiteSpace(currency.value[k])) || currency.value == "PLN"
  }

  /** How the external rate lookup can fail: the currency is missing from
      the rate table, or the service answered badly. */
  datatype RateFailure = RateMissing | ServiceFailed

  datatype RevenueReport = RevenueReport(amount: real, currency: string, exchangeRate: real)

  /** `rate` is the answer the exchange service would give for PLN to
      `currency`; it is consulted only for a non-PLN currency. */
  function Revenue(cs: seq<Contract>, basis: Basis, productFilter: Option<int>, currency: Option<string>,
                   rate: Result<real, RateFailure>): (r: Result<RevenueReport, LedgerError>)
    ensures IsBaseCurrency(currency) ==>
              r == Ok(RevenueReport(PriceSum(cs, SelectionOf(basis), productFilter), "PLN", 1.0))
    ensures !IsBaseCurrency(currency) && rate.Ok? ==>
              && r.Ok? && r.value.currency == currency.value && r.value.exchangeRate == rate.value
              && r.value.amount == PriceSum(cs, SelectionOf(basis), productFilter) * rate.value
    ensures !IsBaseCurrency(currency) && rate == Err(RateMissing) ==> r == Err(RateNotFound)
    ensures !IsBaseCurrency(currency) && rate == Err(ServiceFailed) ==> r == Err(ExchangeServiceFailure)
  {
    var sum := PriceSum(cs, SelectionOf(basis), productFilter);
    if IsBaseCurrency(currency) then Ok(RevenueReport(sum, "PLN", 1.0))
    else
      match rate
      case Ok(x) => Ok(RevenueReport(sum * x, currency.value, x))
      case Err(RateMissing) => Err(RateNotFound)
      case Err(ServiceFailed) => Err(ExchangeServiceFailure)
  }

  /** In any currency, forecast revenue exceeds current revenue by the
      converted value of the open contracts; with non-negative prices and
      rate, the forecast is never below the current figure. */
  lemma ForecastCoversCurrent(cs: seq<Contract>, productFilter: Option<int>, currency: Option<string>,
                              rate: Result<real, RateFailure>)
    requires Revenue(cs, Current, productFilter, currency, rate).Ok?
    ensures var cur := Revenue(cs, Current, productFilter, currency, rate).value;
            var fc := Revenue(cs, Forecast, productFilter, currency, rate).value;
            fc.amount == cur.amount + PriceSum(cs, OpenOnly, productFilter) * cur.exchangeRate
            && fc.currency == cur.currency && fc.exchangeRate == cur.exchangeRate
  {
    ForecastIsCurrentPlusOpen(cs, productFilter);
  }

  /** The documented example: a signed 5000 contract and an open 3000 one
      for the same product give current revenue 5000 and forecast 8000. */
  lemma RevenueExample()
    ensures var cs := [Contract(1, 7, "1.0", 0, 10, 5000.0, 0, true, false), Contract(2, 7, "1.0", 0, 10, 3000.0, 0, false, true)];
            && Revenue(cs, Current, Some(7), None, Err(ServiceFailed)) == Ok(RevenueReport(5000.0, "PLN", 1.0))
            && Revenue(cs, Forecast, Some(7), Some("PLN"), Err(ServiceFailed)) == Ok(RevenueReport(8000.0, "PLN", 1.0))
  {
    var cs := [Contract(1, 7, "1.0", 0, 10, 5000.0, 0, true, false), Contract(2, 7, "1.0", 0, 10, 3000.0, 0, false, true)];
    assert cs[..1] == [cs[0]];
    assert cs[..1][..0] == [];
    assert PriceSum(cs[..1], SignedOnly, Some(7)) == 5000.0;
    assert PriceSum(cs, SignedOnly, Some(7)) == 5000.0;
    assert PriceSum(cs[..1], SignedOrActive, Some(7)) == 5000.0;
    assert PriceSum(cs, SignedOrActive, Some(7)) == 8000.0;
  }
}

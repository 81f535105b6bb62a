/** The practice-2 conversion service (practice-2/main.go, CurrencyService): a directional
    5x5 rate table, rebuilt on every call, and a lookup that fails for a missing pair. The
    request and response types live in a `currency` package that is not part of this model;
    their fields are the ones main.go reads and writes. */
module CurrencyService {
  import opened Results

  datatype ConvertCurrencyRequest =
    ConvertCurrencyRequest(amount: real, fromCurrency: string, toCurrency: string)

  datatype ConvertCurrencyResponse =
    ConvertCurrencyResponse(convertedAmount: real, fromCurrency: string, toCurrency: string, rate: real)

  /** The codes the table knows. */
  const Codes: set<string> := {"USD", "EUR", "GBP", "JPY", "UAH"}

  /** The rate table: rates[from][to]. */
  function Rates(): (rates: map<string, map<string, real>>)
  {
    map[
      "USD" := map["EUR" := 0.93, "GBP" := 0.79, "JPY" := 152.0, "UAH" := 41.5],
      "EUR" := map["USD" := 1.07, "GBP" := 0.85, "JPY" := 163.0, "UAH" := 44.6],
      "GBP" := map["USD" := 1.26, "EUR" := 1.18, "JPY" := 192.0, "UAH" := 52.5],
      "JPY" := map["USD" := 0.0066, "EUR" := 0.0061, "GBP" := 0.0052, "UAH" := 0.27],
      "UAH" := map["USD" := 0.024, "EUR" := 0.022, "GBP" := 0.019, "JPY" := 3.7]
    ]
  }

  /** `rates[from][to]` with its `ok`: a missing outer key reads as an empty inner map. */
  function LookupRate(from: string, to: string): (r: Option<real>)
    ensures from !in Rates() ==> r.None?
  {
    if from in Rates() && to in Rates()[from] then Some(Rates()[from][to]) else None
  }

  /** The pairs the table is meant to cover: every ordered pair of two distinct known codes. */
  predicate SupportedPair(from: string, to: string) {
    from in Codes && to in Codes && from != to
  }

  /** The not-found message names both codes, in order. */
  function NotFound(from: string, to: string): (m: string)
    ensures |m| == |from| + |to| + 34
    ensures m[30..30 + |from|] == from && m[34 + |from|..] == to
  {
    "conversion rate not found for " + from + " to " + to
  }

  function ConvertCurrency(request: ConvertCurrencyRequest): (r: Result<ConvertCurrencyResponse>)
    ensures r.Ok? <==> SupportedPair(request.fromCurrency, request.toCurrency)
    ensures r.Ok? ==>
              r.value.fromCurrency == request.fromCurrency && r.value.toCurrency == request.toCurrency
              && LookupRate(request.fromCurrency, request.toCurrency) == Some(r.value.rate)
              && r.value.convertedAmount == request.amount * r.value.rate
    ensures r.Err? ==> r.msg == NotFound(request.fromCurrency, request.toCurrency)
  {
    TableCoversSupportedPairs(request.fromCurrency, request.toCurrency);
    match LookupRate(request.fromCurrency, request.toCurrency)
    case None => Err(NotFound(request.fromCurrency, request.toCurrency))
    case Some(rate) =>
      Ok(ConvertCurrencyResponse(request.amount * rate, request.fromCurrency, request.toCurrency, rate))
  }

  /** The context-aware entry point ignores its context and delegates. */
  function ConvertCurrencyContext<Ctx>(ctx: Ctx, request: ConvertCurrencyRequest): (r: Result<ConvertCurrencyResponse>)
    ensures r == ConvertCurrency(request)
  {
    ConvertCurrency(request)
  }

  // ------------------------------------------------ properties

  /** The table holds a rate for exactly the ordered pairs of two distinct known codes: no
      self-pair, no unknown or empty code. */
  lemma TableCoversSupportedPairs(from: string, to: string)
    ensures LookupRate(from, to).Some? <==> SupportedPair(from, to)
  {
    assert Rates().Keys == Codes;
    if from in Codes {
      assert Rates()[from].Keys == Codes - {from};
    }
  }

  /** The table has one row per known code, and each row lists every other code. */
  lemma RateTableShape(from: string)
    ensures Rates().Keys == Codes
    ensures from in Codes ==> Rates()[from].Keys == Codes - {from}
  {
  }

  lemma KnownCodes()
    ensures |Codes| == 5
  {
  }

  /** The table is directional: the rate back is never the reciprocal of the rate there. */
  lemma TableIsNotInverted(from: string, to: string)
    requires SupportedPair(from, to)
    ensures Rates()[from][to] * Rates()[to][from] != 1.0
  {
  }

  lemma UsdEurExample()
    ensures LookupRate("USD", "EUR") == Some(0.93) && LookupRate("EUR", "USD") == Some(1.07)
  {
  }

  /** A request the table cannot serve, same-currency or with an unknown or empty code, is
      answered with the not-found error. */
  lemma MissingPairs(amount: real, c: string)
    ensures ConvertCurrency(ConvertCurrencyRequest(amount, c, c)) == Err(NotFound(c, c))
    ensures ConvertCurrency(ConvertCurrencyRequest(amount, "", "")) == Err(NotFound("", ""))
    ensures c !in Codes ==> ConvertCurrency(ConvertCurrencyRequest(amount, c, "USD")).Err?
  {
  }
}

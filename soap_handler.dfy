/** The practice-1 SOAP endpoint (practice-1/soap/handler.go): a chain of checks, each of which
    answers with a Client fault and status 400, then a two-entry conversion answered with 200.
    The handler writes exactly one response per call, so it is a function from its inputs to
    that response. */
module SoapHandler {
  import opened Results
  import opened SoapTypes

  const StatusOK := 200
  const StatusBadRequest := 400

  const UAHtoUSDRate: real := 0.025
  const USDtoUAHRate: real := 40.0

  /** The outcome of reading the request body. The bytes themselves are not modelled: what
      the XML decoder makes of them is the separate ParseResult input. */
  datatype ReadResult = ReadOk | ReadErr(msg: string)

  /** The XML decoder's verdict on the body that was read. */
  datatype ParseResult = Parsed(envelope: Envelope) | ParseErr(msg: string)

  /** The single response: status, the Content-Type the handler sets itself (None when it
      leaves it to the framework's XML renderer) and the envelope rendered. */
  datatype Reply = Reply(status: int, contentType: Option<string>, envelope: Envelope)

  /** Only the two named codes, and never a code with itself. */
  predicate IsValidCurrencyPair(from: Currency, to: Currency)
    ensures IsValidCurrencyPair(from, to) ==> from != to && from in {UAH, USD} && to in {UAH, USD}
  {
    (from == UAH && to == USD) || (from == USD && to == UAH)
  }

  /** The rate and converted amount; a pair without a case yields Go's zero values. */
  function ConvertCurrency(amount: real, from: Currency, to: Currency): (r: (real, real))
    ensures r.1 == amount * r.0
    ensures r.0 != 0.0 <==> IsValidCurrencyPair(from, to)
  {
    if from == UAH && to == USD then (UAHtoUSDRate, amount * UAHtoUSDRate)
    else if from == USD && to == UAH then (USDtoUAHRate, amount * USDtoUAHRate)
    else (0.0, 0.0)
  }

  function ClientFault(faultString: string, detail: string): (r: Reply)
    ensures r.status == StatusBadRequest && r.contentType == None
    ensures ExactlyOne(r.envelope.body) && r.envelope.body.fault == Some(Fault("Client", faultString, detail))
  {
    Reply(StatusBadRequest, None, FaultEnvelope(Fault("Client", faultString, detail)))
  }

  /** The invalid-pair detail names both currencies, in order. */
  function UnsupportedPairDetail(from: Currency, to: Currency): (d: string)
    ensures |d| == |from| + |to| + 37
    ensures d[16..16 + |from|] == from && d[20 + |from|..20 + |from| + |to|] == to
  {
    "Conversion from " + from + " to " + to + " is not supported"
  }

  function HandleCurrencyConversion(contentType: string, read: ReadResult, parse: ParseResult): (r: Reply)
    ensures ExactlyOne(r.envelope.body)
    ensures r.status == StatusOK || r.status == StatusBadRequest
    ensures r.status == StatusOK <==> r.envelope.body.response.Some?
    ensures r.status == StatusBadRequest <==> r.envelope.body.fault.Some?
    ensures r.status == StatusBadRequest ==> r.envelope.body.fault.value.faultCode == "Client" && r.contentType == None
    ensures r.status == StatusOK ==> r.contentType == Some("text/xml")
  {
    if contentType != "text/xml" then
      ClientFault("Invalid Content-Type. Expected text/xml", "")
    else if read.ReadErr? then
      ClientFault("Failed to read request body", read.msg)
    else if parse.ParseErr? then
      ClientFault("Failed to parse SOAP envelope", parse.msg)
    else if parse.envelope.body.request.None? then
      ClientFault("Missing currency conversion request", "")
    else
      var req := parse.envelope.body.request.value;
      if !IsValidCurrencyPair(req.fromCurrency, req.toCurrency) then
        ClientFault("Invalid currency pair", UnsupportedPairDetail(req.fromCurrency, req.toCurrency))
      else
        var (rate, convertedAmount) := ConvertCurrency(req.amount, req.fromCurrency, req.toCurrency);
        Reply(StatusOK, Some("text/xml"),
          ResponseEnvelope(ConvertCurrencyResponse(convertedAmount, req.fromCurrency, req.toCurrency, rate)))
  }

  // ------------------------------------------------ the checks, as an independent reference

  datatype Check = ContentTypeCheck | ReadCheck | ParseCheck | RequestCheck | PairCheck

  /** The order in which the handler applies its checks. */
  const CheckOrder: seq<Check> := [ContentTypeCheck, ReadCheck, ParseCheck, RequestCheck, PairCheck]

  /** Whether a check, taken on its own, rejects the inputs. */
  predicate Fails(c: Check, contentType: string, read: ReadResult, parse: ParseResult) {
    match c
    case ContentTypeCheck => contentType != "text/xml"
    case ReadCheck => read.ReadErr?
    case ParseCheck => parse.ParseErr?
    case RequestCheck => !(parse.Parsed? && parse.envelope.body.request.Some?)
    case PairCheck =>
      !(parse.Parsed? && parse.envelope.body.request.Some?
        && IsValidCurrencyPair(parse.envelope.body.request.value.fromCurrency,
                               parse.envelope.body.request.value.toCurrency))
  }

  /** The faultstring each check reports; no two checks share one. */
  function FaultString(c: Check): string {
    match c
    case ContentTypeCheck => "Invalid Content-Type. Expected text/xml"
    case ReadCheck => "Failed to read request body"
    case ParseCheck => "Failed to parse SOAP envelope"
    case RequestCheck => "Missing currency conversion request"
    case PairCheck => "Invalid currency pair"
  }

  /** The position of the first failing check in `checks`, or |checks| when all pass. */
  function FirstFailure(checks: seq<Check>, contentType: string, read: ReadResult, parse: ParseResult): (k: nat)
    ensures k <= |checks|
    ensures k < |checks| ==> Fails(checks[k], contentType, read, parse)
    ensures forall j :: 0 <= j < k ==> !Fails(checks[j], contentType, read, parse)
  {
    if checks == [] then 0
    else if Fails(checks[0], contentType, read, parse) then 0
    else 1 + FirstFailure(checks[1..], contentType, read, parse)
  }

  // ------------------------------------------------ properties

  lemma FaultStringsDistinct(c1: Check, c2: Check)
    requires c1 != c2
    ensures FaultString(c1) != FaultString(c2)
  {
  }

  /** A failing request is answered by the first check that fails, in CheckOrder: a 400
      Client fault with that check's faultstring and the detail the check supplies. */
  lemma FirstFailingCheckDecides(contentType: string, read: ReadResult, parse: ParseResult)
    ensures var k := FirstFailure(CheckOrder, contentType, read, parse);
            var r := HandleCurrencyConversion(contentType, read, parse);
            k < |CheckOrder| ==>
              r.status == StatusBadRequest
              && r.envelope.body.fault.value.faultString == FaultString(CheckOrder[k])
              && (CheckOrder[k] == ContentTypeCheck || CheckOrder[k] == RequestCheck ==> r.envelope.body.fault.value.detail == "")
              && (CheckOrder[k] == ReadCheck ==> r.envelope.body.fault.value.detail == read.msg)
              && (CheckOrder[k] == ParseCheck ==> r.envelope.body.fault.value.detail == parse.msg)
              && (CheckOrder[k] == PairCheck ==>
                    var req := parse.envelope.body.request.value;
                    r.envelope.body.fault.value.detail == UnsupportedPairDetail(req.fromCurrency, req.toCurrency))
  {
    var k := FirstFailure(CheckOrder, contentType, read, parse);
    if k < |CheckOrder| {
      FailsInOrder(contentType, read, parse, k);
    }
  }

  /** Unfolds the first `k` checks of CheckOrder, which pass, and the k-th, which fails. */
  lemma FailsInOrder(contentType: string, read: ReadResult, parse: ParseResult, k: nat)
    requires k < |CheckOrder| && Fails(CheckOrder[k], contentType, read, parse)
    requires forall j :: 0 <= j < k ==> !Fails(CheckOrder[j], contentType, read, parse)
    ensures k == 0 <==> contentType != "text/xml"
    ensures k == 1 <==> contentType == "text/xml" && read.ReadErr?
    ensures k == 2 <==> contentType == "text/xml" && read.ReadOk? && parse.ParseErr?
    ensures k == 3 <==> contentType == "text/xml" && read.ReadOk? && parse.Parsed? && parse.envelope.body.request.None?
    ensures k == 4 ==> contentType == "text/xml" && read.ReadOk? && parse.Parsed? && parse.envelope.body.request.Some?
  {
    if k > 0 { assert !Fails(CheckOrder[0], contentType, read, parse); }
    if k > 1 { assert !Fails(CheckOrder[1], contentType, read, parse); }
    if k > 2 { assert !Fails(CheckOrder[2], contentType, read, parse); }
    if k > 3 { assert !Fails(CheckOrder[3], contentType, read, parse); }
  }

  /** A request passes every check exactly when it is answered with 200; the response then
      echoes the requested currencies and carries the rate and amount ConvertCurrency gives. */
  lemma AllChecksPassIffSuccess(contentType: string, read: ReadResult, parse: ParseResult)
    ensures var r := HandleCurrencyConversion(contentType, read, parse);
            (r.status == StatusOK <==> forall j :: 0 <= j < |CheckOrder| ==> !Fails(CheckOrder[j], contentType, read, parse))
    ensures var r := HandleCurrencyConversion(contentType, read, parse);
            r.status == StatusOK ==>
              parse.Parsed? && parse.envelope.body.request.Some?
              && var req := parse.envelope.body.request.value;
                 var resp := r.envelope.body.response.value;
                 resp.fromCurrency == req.fromCurrency && resp.toCurrency == req.toCurrency
                 && (resp.rate, resp.convertedAmount) == ConvertCurrency(req.amount, req.fromCurrency, req.toCurrency)
                 && resp.convertedAmount == req.amount * resp.rate && resp.rate != 0.0
  {
    var r := HandleCurrencyConversion(contentType, read, parse);
    if forall j :: 0 <= j < |CheckOrder| ==> !Fails(CheckOrder[j], contentType, read, parse) {
      assert !Fails(CheckOrder[0], contentType, read, parse);
      assert !Fails(CheckOrder[1], contentType, read, parse);
      assert !Fails(CheckOrder[2], contentType, read, parse);
      assert !Fails(CheckOrder[4], contentType, read, parse);
    } else {
      var k := FirstFailure(CheckOrder, contentType, read, parse);
      FirstFailingCheckDecides(contentType, read, parse);
    }
  }

  /** A wrong Content-Type is answered before the body is read or parsed: whatever those
      would give, the reply is the same. The comparison is exact, so a charset parameter fails. */
  lemma ContentTypeCheckedFirst(contentType: string, read1: ReadResult, parse1: ParseResult,
                                read2: ReadResult, parse2: ParseResult)
    requires contentType != "text/xml"
    ensures HandleCurrencyConversion(contentType, read1, parse1) == HandleCurrencyConversion(contentType, read2, parse2)
    ensures HandleCurrencyConversion(contentType, read1, parse1) == ClientFault("Invalid Content-Type. Expected text/xml", "")
  {
  }

  /** A failed read is answered before the decoder's verdict is consulted. */
  lemma ReadFailureIgnoresParse(msg: string, parse1: ParseResult, parse2: ParseResult)
    ensures HandleCurrencyConversion("text/xml", ReadErr(msg), parse1) == HandleCurrencyConversion("text/xml", ReadErr(msg), parse2)
    ensures HandleCurrencyConversion("text/xml", ReadErr(msg), parse1) == ClientFault("Failed to read request body", msg)
  {
  }

  /** Exactly the two pairs UAH->USD and USD->UAH pass; in particular no currency converts to itself. */
  lemma ValidPairs(from: Currency, to: Currency)
    ensures IsValidCurrencyPair(from, to) <==> (from, to) in {(UAH, USD), (USD, UAH)}
    ensures !IsValidCurrencyPair(from, from)
  {
  }

  /** Each direction uses its own constant; nothing is derived by inverting the other. */
  lemma DirectionalRates(amount: real)
    ensures ConvertCurrency(amount, UAH, USD) == (UAHtoUSDRate, amount * UAHtoUSDRate)
    ensures ConvertCurrency(amount, USD, UAH) == (USDtoUAHRate, amount * USDtoUAHRate)
  {
  }

  /** Conversion is linear in the amount and unguarded: 0 gives 0, a negative amount is
      converted by the same formula. */
  lemma ConversionIsLinear(a: real, b: real, from: Currency, to: Currency)
    ensures ConvertCurrency(0.0, from, to).1 == 0.0
    ensures ConvertCurrency(a + b, from, to).1 == ConvertCurrency(a, from, to).1 + ConvertCurrency(b, from, to).1
    ensures ConvertCurrency(-a, from, to).1 == -ConvertCurrency(a, from, to).1
    ensures ConvertCurrency(a, from, to).0 == ConvertCurrency(b, from, to).0
  {
  }

  /** The worked examples: 100 UAH is 2.5 USD, 10 USD is 400 UAH, UAH->JPY is refused. */
  lemma Scenarios()
    ensures var r := HandleCurrencyConversion("text/xml", ReadOk,
                       Parsed(Envelope(Body(None, Some(ConvertCurrencyRequest(100.0, UAH, USD)), None))));
            r.status == 200 && r.envelope.body.response == Some(ConvertCurrencyResponse(2.5, UAH, USD, 0.025))
    ensures var r := HandleCurrencyConversion("text/xml", ReadOk,
                       Parsed(Envelope(Body(None, Some(ConvertCurrencyRequest(10.0, USD, UAH)), None))));
            r.status == 200 && r.envelope.body.response == Some(ConvertCurrencyResponse(400.0, USD, UAH, 40.0))
    ensures var r := HandleCurrencyConversion("text/xml", ReadOk,
                       Parsed(Envelope(Body(None, Some(ConvertCurrencyRequest(1.0, UAH, "JPY")), None))));
            r == ClientFault("Invalid currency pair", UnsupportedPairDetail(UAH, "JPY"))
    ensures HandleCurrencyConversion("application/json", ReadOk, ParseErr("EOF")).status == 400
  {
  }
}

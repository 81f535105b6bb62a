/** The data types of the practice-1 SOAP service (practice-1/soap/types.go). */
module SoapTypes {
  import opened Results

  /** A currency is a plain string code; only two codes are given names. */
  type Currency = string

  const USD: Currency := "USD"
  const UAH: Currency := "UAH"

  /** The SOAP 1.1 envelope namespace that qualifies Envelope, Body and Fault. */
  const EnvelopeNamespace: string := "http://schemas.xmlsoap.org/soap/envelope/"

  datatype Fault = Fault(faultCode: string, faultString: string, detail: string)

  datatype ConvertCurrencyRequest =
    ConvertCurrencyRequest(amount: real, fromCurrency: Currency, toCurrency: Currency)

  datatype ConvertCurrencyResponse =
    ConvertCurrencyResponse(convertedAmount: real, fromCurrency: Currency, toCurrency: Currency, rate: real)

  /** The Body holds three optional variants, as the Go struct's three pointers do: a decoded
      document may populate none or several of them, so "exactly one" is a predicate proved of
      what the handler builds rather than a property of the type. */
  datatype Body = Body(
    fault: Option<Fault>,
    request: Option<ConvertCurrencyRequest>,
    response: Option<ConvertCurrencyResponse>)

  datatype Envelope = Envelope(body: Body)

  /** How many of the three variants are populated. */
  function Populated(b: Body): (n: nat)
    ensures n <= 3
    ensures n == 0 <==> b.fault.None? && b.request.None? && b.response.None?
  {
    (if b.fault.Some? then 1 else 0)
    + (if b.request.Some? then 1 else 0)
    + (if b.response.Some? then 1 else 0)
  }

  predicate ExactlyOne(b: Body) {
    Populated(b) == 1
  }

  /** An envelope holding only the given fault. */
  function FaultEnvelope(f: Fault): (e: Envelope)
    ensures ExactlyOne(e.body) && e.body.fault == Some(f)
  {
    Envelope(Body(Some(f), None, None))
  }

  /** An envelope holding only the given response. */
  function ResponseEnvelope(r: ConvertCurrencyResponse): (e: Envelope)
    ensures ExactlyOne(e.body) && e.body.response == Some(r)
  {
    Envelope(Body(None, None, Some(r)))
  }
}

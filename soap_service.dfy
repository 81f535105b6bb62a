/** The practice-2 SOAP endpoint (practice-2/main.go, SOAPHandler, sendSOAPResponse and
    sendSOAPFault). Every failure is a Server fault with status 500; a non-POST request gets a
    plain 405. XML encoding may fail; its verdict is the pure `encode` parameter (None when the
    envelope encodes, Some(error text) when it does not). */
module SoapService {
  import opened Results
  import opened CurrencyService
  import opened HttpResponse

  const StatusMethodNotAllowed := 405
  const StatusInternalServerError := 500

  const ContentTypeKey := "Content-Type"
  const XmlContentType := "text/xml; charset=utf-8"

  datatype Fault = Fault(faultCode: string, faultString: string, detail: string)

  /** This variant's Body has an untyped Content slot (always a conversion response here) and
      an optional Fault. */
  datatype Body = Body(content: Option<ConvertCurrencyResponse>, fault: Option<Fault>)

  datatype Envelope = Envelope(body: Body)

  type Encoder = Envelope -> Option<string>

  datatype ReadResult = ReadOk | ReadErr(msg: string)

  /** The loosely typed parse: any Envelope/Body/ConvertCurrencyRequest path. `request` is None
      when the document has no such element; its fields are then Go's zero values. */
  datatype LooseRequest = LooseRequest(amount: real, fromCurrency: string, toCurrency: string)
  datatype ParseResult = Parsed(request: Option<LooseRequest>) | ParseErr(msg: string)

  /** The status, headers and body a fresh writer ends up with. */
  datatype Outcome = Outcome(status: int, header: map<string, string>, body: seq<Chunk<Envelope>>)

  function FaultEnvelope(faultString: string, detail: string): (e: Envelope)
    ensures e.body.content.None? && e.body.fault == Some(Fault("Server", faultString, detail))
  {
    Envelope(Body(None, Some(Fault("Server", faultString, detail))))
  }

  function ResponseEnvelope(content: ConvertCurrencyResponse): (e: Envelope)
    ensures e.body.fault.None? && e.body.content == Some(content)
  {
    Envelope(Body(Some(content), None))
  }

  /** net/http's Error helper applied to header map `h`. */
  function PlainErrorHeader(h: map<string, string>): map<string, string> {
    (h - {"Content-Length"})[ContentTypeKey := "text/plain; charset=utf-8"]["X-Content-Type-Options" := "nosniff"]
  }

  /** What sendSOAPFault leaves behind: always status 500 and one chunk, the Server fault
      envelope when it encodes and a plain "Internal Server Error" when it does not. */
  function FaultOutcome(h: map<string, string>, faultString: string, detail: string, encode: Encoder): (o: Outcome)
    ensures o.status == StatusInternalServerError && |o.body| == 1
    ensures encode(FaultEnvelope(faultString, detail)).None? ==>
              o.body[0] == XmlDocument(FaultEnvelope(faultString, detail))
              && ContentTypeKey in o.header && o.header[ContentTypeKey] == XmlContentType
    ensures encode(FaultEnvelope(faultString, detail)).Some? ==>
              o.body[0] == PlainText("Internal Server Error" + "\n")
  {
    var env := FaultEnvelope(faultString, detail);
    if encode(env).Some? then
      Outcome(StatusInternalServerError, PlainErrorHeader(h), [PlainText("Internal Server Error" + "\n")])
    else
      Outcome(StatusInternalServerError, h[ContentTypeKey := XmlContentType], [XmlDocument(env)])
  }

  /** What sendSOAPResponse leaves behind: the response envelope with the default status 200,
      or, when it does not encode, the "Failed to encode response" fault. */
  function ResponseOutcome(h: map<string, string>, content: ConvertCurrencyResponse, encode: Encoder): (o: Outcome)
    ensures |o.body| == 1
    ensures o.status == StatusOK <==> encode(ResponseEnvelope(content)).None?
    ensures o.status == StatusOK ==> o.body == [XmlDocument(ResponseEnvelope(content))] && o.header == h
  {
    var env := ResponseEnvelope(content);
    match encode(env)
    case None => Outcome(StatusOK, h, [XmlDocument(env)])
    case Some(err) => FaultOutcome(h, "Failed to encode response", err, encode)
  }

  /** The typed request built from the loose parse. */
  function TypedRequest(parsed: Option<LooseRequest>): (r: ConvertCurrencyRequest)
    ensures parsed.None? ==> r == ConvertCurrencyRequest(0.0, "", "")
    ensures parsed.Some? ==>
              r.amount == parsed.value.amount && r.fromCurrency == parsed.value.fromCurrency
              && r.toCurrency == parsed.value.toCurrency
  {
    match parsed
    case None => ConvertCurrencyRequest(0.0, "", "")
    case Some(q) => ConvertCurrencyRequest(q.amount, q.fromCurrency, q.toCurrency)
  }

  /** What SOAPHandler leaves behind on a fresh writer. */
  function HandlerOutcome(httpMethod: string, read: ReadResult, parse: ParseResult, encode: Encoder): (o: Outcome)
    ensures |o.body| == 1
  {
    if httpMethod != "POST" then
      Outcome(StatusMethodNotAllowed, PlainErrorHeader(map[]), [PlainText("Method not allowed" + "\n")])
    else
      var h := map[ContentTypeKey := XmlContentType];
      if read.ReadErr? then FaultOutcome(h, "Failed to read request body", read.msg, encode)
      else if parse.ParseErr? then FaultOutcome(h, "Failed to parse request", parse.msg, encode)
      else
        match ConvertCurrency(TypedRequest(parse.request))
        case Err(e) => FaultOutcome(h, "Failed to process request", e, encode)
        case Ok(response) => ResponseOutcome(h, response, encode)
  }

  // ------------------------------------------------ the imperative handler

  method SendSOAPFault(w: ResponseWriter<Envelope>, faultString: string, detail: string, encode: Encoder)
    modifies w
    ensures var o := FaultOutcome(old(w.header), faultString, detail, encode);
            w.header == o.header && w.body == old(w.body) + o.body && w.wroteHeader
            && w.status == if old(w.wroteHeader) then old(w.status) else o.status
  {
    var envelope := FaultEnvelope(faultString, detail);
    var err := encode(envelope);
    if err.Some? {
      Error(w, "Internal Server Error", StatusInternalServerError);
      return;
    }
    w.SetHeader(ContentTypeKey, XmlContentType);
    w.WriteHeader(StatusInternalServerError);
    w.Write(XmlDocument(envelope));
  }

  method SendSOAPResponse(w: ResponseWriter<Envelope>, content: ConvertCurrencyResponse, encode: Encoder)
    modifies w
    ensures var o := ResponseOutcome(old(w.header), content, encode);
            w.header == o.header && w.body == old(w.body) + o.body && w.wroteHeader
            && w.status == if old(w.wroteHeader) then old(w.status) else o.status
  {
    var envelope := ResponseEnvelope(content);
    var err := encode(envelope);
    if err.Some? {
      SendSOAPFault(w, "Failed to encode response", err.value, encode);
      return;
    }
    w.Write(XmlDocument(envelope));
  }

  method SOAPHandler(w: ResponseWriter<Envelope>, httpMethod: string, read: ReadResult, parse: ParseResult, encode: Encoder)
    requires w.Unused()
    modifies w
    ensures var o := HandlerOutcome(httpMethod, read, parse, encode);
            w.wroteHeader && w.status == o.status && w.header == o.header && w.body == o.body
  {
    if httpMethod != "POST" {
      Error(w, "Method not allowed", StatusMethodNotAllowed);
      return;
    }
    w.SetHeader(ContentTypeKey, XmlContentType);

    if read.ReadErr? {
      SendSOAPFault(w, "Failed to read request body", read.msg, encode);
      return;
    }

    if parse.ParseErr? {
      SendSOAPFault(w, "Failed to parse request", parse.msg, encode);
      return;
    }

    var request := TypedRequest(parse.request);

    var response := ConvertCurrency(request);
    if response.Err? {
      SendSOAPFault(w, "Failed to process request", response.msg, encode);
      return;
    }

    SendSOAPResponse(w, response.value, encode);
  }

  // ------------------------------------------------ properties

  /** A non-POST request is refused with a plain 405 and no SOAP envelope. */
  lemma NonPostIsPlain405(httpMethod: string, read: ReadResult, parse: ParseResult, encode: Encoder)
    requires httpMethod != "POST"
    ensures var o := HandlerOutcome(httpMethod, read, parse, encode);
            o.status == StatusMethodNotAllowed && o.body == [PlainText("Method not allowed" + "\n")]
            && ContentTypeKey in o.header && o.header[ContentTypeKey] == "text/plain; charset=utf-8"
  {
  }

  /** Every POST that does not succeed is answered with status 500 and either a Server fault
      envelope, sent as `text/xml; charset=utf-8`, or, when even that does not encode, a plain
      "Internal Server Error". No Client fault and no 400 exist in this variant. */
  lemma EveryFailureIsServerFault(httpMethod: string, read: ReadResult, parse: ParseResult, encode: Encoder)
    requires httpMethod == "POST"
    ensures var o := HandlerOutcome(httpMethod, read, parse, encode);
            o.status == StatusOK || o.status == StatusInternalServerError
    ensures var o := HandlerOutcome(httpMethod, read, parse, encode);
            o.status == StatusInternalServerError ==>
              o.body == [PlainText("Internal Server Error" + "\n")]
              || (o.body[0].XmlDocument? && o.body[0].doc.body.content.None?
                  && o.body[0].doc.body.fault.Some? && o.body[0].doc.body.fault.value.faultCode == "Server"
                  && ContentTypeKey in o.header && o.header[ContentTypeKey] == XmlContentType)
  {
  }

  /** A POST succeeds exactly when the body is read, parses, names a pair in the rate table and
      the response encodes; the reply then carries only that response, with status 200. */
  lemma SuccessIffConverted(httpMethod: string, read: ReadResult, parse: ParseResult, encode: Encoder)
    requires httpMethod == "POST"
    ensures var o := HandlerOutcome(httpMethod, read, parse, encode);
            o.status == StatusOK <==>
              read.ReadOk? && parse.Parsed?
              && ConvertCurrency(TypedRequest(parse.request)).Ok?
              && encode(ResponseEnvelope(ConvertCurrency(TypedRequest(parse.request)).value)).None?
    ensures var o := HandlerOutcome(httpMethod, read, parse, encode);
            o.status == StatusOK ==>
              var response := ConvertCurrency(TypedRequest(parse.request)).value;
              o.body == [XmlDocument(ResponseEnvelope(response))]
              && ContentTypeKey in o.header && o.header[ContentTypeKey] == XmlContentType
              && SupportedPair(response.fromCurrency, response.toCurrency)
  {
  }

  /** Each stage reports its own faultstring with the error text as detail. */
  lemma StageFaultStrings(read: ReadResult, parse: ParseResult, encode: Encoder)
    ensures var o := HandlerOutcome("POST", read, parse, encode);
            var h := map[ContentTypeKey := XmlContentType];
            (read.ReadErr? ==> o == FaultOutcome(h, "Failed to read request body", read.msg, encode))
            && (read.ReadOk? && parse.ParseErr? ==> o == FaultOutcome(h, "Failed to parse request", parse.msg, encode))
            && (read.ReadOk? && parse.Parsed? && ConvertCurrency(TypedRequest(parse.request)).Err? ==>
                  o == FaultOutcome(h, "Failed to process request", ConvertCurrency(TypedRequest(parse.request)).msg, encode))
  {
  }

  /** A parsed document without a ConvertCurrencyRequest is not reported as missing: its empty
      currencies fail the lookup and it surfaces as "Failed to process request". */
  lemma MissingRequestIsProcessFault(encode: Encoder)
    ensures HandlerOutcome("POST", ReadOk, Parsed(None), encode)
            == FaultOutcome(map[ContentTypeKey := XmlContentType], "Failed to process request", NotFound("", ""), encode)
  {
  }

  /** When the response does not encode, the reply is the "Failed to encode response" Server
      fault carrying the encoder's error text. */
  lemma EncodeFailureIsServerFault(h: map<string, string>, content: ConvertCurrencyResponse, encode: Encoder)
    requires encode(ResponseEnvelope(content)).Some?
    ensures ResponseOutcome(h, content, encode)
            == FaultOutcome(h, "Failed to encode response", encode(ResponseEnvelope(content)).value, encode)
  {
  }
}

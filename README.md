# SOAP currency conversion, modelled in Dafny

This project models the SOAP currency-conversion endpoints of the repository, in its two
variants, each as written:

- **practice-1** (`practice-1/soap/`): a gin handler that runs a fixed chain of checks
  (Content-Type, body read, envelope parse, request present, currency pair). Each failing
  check answers with its own SOAP `Client` fault and status 400. If every check passes, it
  converts UAH to USD or USD to UAH with two constant rates and answers 200 with an envelope
  holding only the response. The handler writes exactly one response per call, so it is
  modelled as the pure function `SoapHandler.HandleCurrencyConversion`. Its inputs are the
  Content-Type header, the outcome of reading the body and the XML decoder's verdict.
  The types of `types.go` are datatypes (`SoapTypes`). The XML mapping that their struct tags
  declare is modelled over an abstract element tree (`SoapCodec`), and it is proved to
  round-trip.
- **practice-2** (`practice-2/main.go`): a `net/http` handler. Non-POST requests get a plain
  405. Every other failure becomes a `Server` fault with status 500 through `sendSOAPFault`.
  The conversion looks the pair up in a directional 5×5 rate table (`CurrencyService`).
  The handler and its two send helpers change the `http.ResponseWriter` step by step, so they
  are methods over a writer class (`HttpResponse.ResponseWriter`). Each method is proved to
  leave the writer in the state a specification function describes (`SoapService.HandlerOutcome`
  and friends). The properties are proved about those functions.

Amounts and rates are `real`. Every rate literal is an exact decimal, and the only arithmetic
is one multiplication. Reading the body, decoding XML and (in practice-2) encoding XML are
inputs. `ReadResult`, `ParseResult` and an `encode` oracle stand for them.

How the two variants behave where they differ, or where they depart from plain SOAP usage:

- practice-1 answers every fault as `Client` with status 400. It sets `text/xml` itself only
  on success.
- practice-2 answers every fault as `Server` with status 500, sent as
  `text/xml; charset=utf-8`.
- A document whose Envelope has no Body element decodes as an empty Body, not as an error
  (`SoapCodec.DecodeEnvelope`). The practice-1 handler then answers "Missing currency
  conversion request".
- The Go Body struct can hold zero or several variants, so `SoapTypes.Body` has three optional
  fields. For practice-1, "exactly one variant" (`SoapTypes.ExactlyOne`) is proved of every
  envelope the handler builds. For practice-2, the same fact is the ensures of
  `SoapService.FaultEnvelope` (a fault and no content) and `SoapService.ResponseEnvelope`
  (content and no fault).
- practice-1's pair check is the hard-coded predicate `isValidCurrencyPair`, not a table lookup.
- practice-2 does not reject a document without a `ConvertCurrencyRequest` as missing.

Rebuilding the table on every call, and the absence of state between requests, show up as
determinism: every conversion here is a Dafny function, so identical requests give
identical results.

## Model

| member | source | states |
|---|---|---|
| `SoapTypes.Populated` | practice-1/soap/types.go:19-25 | counts the populated Body variants; zero exactly when Fault, Request and Response are all nil |
| `SoapTypes.FaultEnvelope` | practice-1/soap/handler.go:22-29 | the fault envelope the handler builds holds exactly one variant, the given fault |
| `SoapTypes.ResponseEnvelope` | practice-1/soap/handler.go:97-105 | the success envelope holds exactly one variant, the given response |
| `SoapCodec.EncodeFault` | practice-1/soap/types.go:27-33 | the Fault element is in the envelope namespace; `detail` is written only when non-empty (2 or 3 children) |
| `SoapCodec.EncodeRequest` | practice-1/soap/types.go:35-41 | the request is the unqualified element `ConvertCurrencyRequest` |
| `SoapCodec.EncodeResponse` | practice-1/soap/types.go:43-50 | the response is the unqualified element `ConvertCurrencyResponse` |
| `SoapCodec.EncodeBody` | practice-1/soap/types.go:19-25 | nil variants are omitted: the Body element has one child per populated variant |
| `SoapCodec.EncodeEnvelope` | practice-1/soap/types.go:13-17 | the Envelope element is namespaced and has exactly one child, the Body |
| `SoapCodec.LastMatch` | practice-1/soap/types.go:19-50 | the position of the last child whose name matches a tag: it matches and no later child does; -1 when none matches |
| `SoapCodec.FindLast` | practice-1/soap/types.go:19-25 | the last child whose name matches a tag (the child at `LastMatch`), whose value a field keeps once every match has been decoded into it; nothing is found exactly when no child matches |
| `SoapCodec.DecodeField` | practice-1/soap/types.go:19-50 | a field receives every matching child in document order: the decode succeeds exactly when every matching child decodes, and then the field holds the last match's value, or its previous value when nothing matches |
| `SoapCodec.LaterMatchWins` | practice-1/soap/types.go:19-25 | of two matching children, the later one is the one the field keeps |
| `SoapCodec.EarlierFailureFails` | practice-1/soap/types.go:22-40 | an unparsable `amount` before a good one, and a malformed `ConvertCurrencyRequest` before a well-formed one, make the decode fail |
| `SoapCodec.DecodeText` | practice-1/soap/types.go:30-32 | a string field with no matching element decodes as ""; it fails exactly when some matching child is a number leaf; otherwise it holds the last match's text, or "" when that is a nested element (which has no character data of its own) |
| `SoapCodec.NestedElementIsEmptyText` | practice-1/soap/types.go:39-40 | a string field holding a nested element decodes as "", not as an error |
| `SoapCodec.DecodeNumber` | practice-1/soap/types.go:38 | a float field with no matching element decodes as 0; it fails exactly when some matching child is a leaf with non-empty text; otherwise it holds the last match's number, or 0 when that is a nested element |
| `SoapCodec.DecodeFault` | practice-1/soap/types.go:27-33 | an empty Fault element decodes to the zero fault; decoding fails only when one of its three fields fails |
| `SoapCodec.DecodeRequest` | practice-1/soap/types.go:35-41 | an empty request element decodes to amount 0 and empty currencies; decoding fails only when one of its three fields fails |
| `SoapCodec.DecodeResponse` | practice-1/soap/types.go:43-50 | an empty response element decodes to zero values; decoding fails only when one of its four fields fails |
| `SoapCodec.DecodeOptional` | practice-1/soap/types.go:22-24 | a pointer variant stays nil when no element has its name; the decode fails exactly when some matching element fails to decode; otherwise it points to the last match's decoded value |
| `SoapCodec.DecodeBody` | practice-1/soap/types.go:19-25 | each variant is populated exactly when a child with its element name is present; an empty Body decodes with no variant |
| `SoapCodec.DecodeEnvelope` | practice-1/soap/types.go:13-17 | a root that is not the namespaced Envelope is an error; a missing Body decodes as a Body with no variant |
| `SoapCodec.FindLastSole` | practice-1/soap/types.go:19-50 | when exactly one child matches a tag, the decoder picks that child |
| `SoapCodec.DecodeFieldSole` | practice-1/soap/types.go:19-50 | when exactly one child matches a tag and it decodes, the field ends with that child's value |
| `SoapCodec.ResponseRoundTrip` | practice-1/soap/types.go:43-50 | decoding an encoded response gives back all four fields |
| `SoapCodec.RequestRoundTrip` | practice-1/soap/types.go:35-41 | decoding an encoded request gives back amount, fromCurrency and toCurrency |
| `SoapCodec.FaultRoundTrip` | practice-1/soap/types.go:27-33 | decoding an encoded fault gives it back, an omitted empty detail included |
| `SoapCodec.BodyLayout` | practice-1/soap/types.go:19-25 | an encoded Body lists the fault, then the request, then the response, each under its own name |
| `SoapCodec.FaultVariantRoundTrip` | practice-1/soap/types.go:22 | the Fault variant is recovered from an encoded Body by element name alone |
| `SoapCodec.RequestVariantRoundTrip` | practice-1/soap/types.go:23 | the Request variant is recovered from an encoded Body by element name alone |
| `SoapCodec.ResponseVariantRoundTrip` | practice-1/soap/types.go:24 | the Response variant is recovered from an encoded Body by element name alone |
| `SoapCodec.BodyRoundTrip` | practice-1/soap/types.go:19-25 | any Body, with any combination of variants, survives encode then decode |
| `SoapCodec.EnvelopeRoundTrip` | practice-1/soap/types.go:13-25 | any Envelope survives encode then decode |
| `SoapCodec.ElementNamespaces` | practice-1/soap/types.go:13-50 | Envelope, Body and Fault carry the SOAP 1.1 envelope namespace; the request and response elements carry none |
| `SoapCodec.SingleVariantSingleChild` | practice-1/soap/types.go:19-25 | an envelope built with one variant serialises only that child |
| `SoapCodec.DetailOmittedWhenEmpty` | practice-1/soap/types.go:32 | the fault has a `detail` child if and only if the detail is non-empty |
| `SoapHandler.IsValidCurrencyPair` | practice-1/soap/handler.go:109-112 | a valid pair is two different codes, each UAH or USD |
| `SoapHandler.UnsupportedPairDetail` | practice-1/soap/handler.go:85 | the invalid-pair detail names the source currency and then the target currency |
| `SoapHandler.ConvertCurrency` | practice-1/soap/handler.go:114-125 | convertedAmount = amount × rate, and the rate is non-zero exactly for the pairs `isValidCurrencyPair` accepts (other pairs give the zero values) |
| `SoapHandler.ClientFault` | practice-1/soap/handler.go:22-29 | every fault reply is status 400 with a `Client` fault and nothing else in the Body |
| `SoapHandler.HandleCurrencyConversion` | practice-1/soap/handler.go:18-107 | exactly one Body variant; status is 200 or 400; 200 exactly when the Response is populated, 400 exactly when the Fault is; faults are `Client`; success sets `text/xml` itself |
| `SoapHandler.FirstFailure` | practice-1/soap/handler.go:20-90 | the position of the first failing check: every earlier check passes and the one found fails |
| `SoapHandler.FaultStringsDistinct` | practice-1/soap/handler.go:26-84 | the five checks report five distinct faultstrings |
| `SoapHandler.FirstFailingCheckDecides` | practice-1/soap/handler.go:20-90 | a failing request gets a 400 with the faultstring of the first failing check in order; detail is empty for Content-Type and missing request, the error text for read and parse, and "Conversion from f to t is not supported" for the pair |
| `SoapHandler.FailsInOrder` | practice-1/soap/handler.go:20-90 | which input condition makes each position of the check order the first failure |
| `SoapHandler.AllChecksPassIffSuccess` | practice-1/soap/handler.go:76-106 | status 200 if and only if every check passes; the response then echoes From and To and carries rate and convertedAmount from `convertCurrency`, with a non-zero rate |
| `SoapHandler.ContentTypeCheckedFirst` | practice-1/soap/handler.go:20-31 | any Content-Type other than exactly `text/xml` is answered with the Content-Type fault (empty detail), whatever the read and parse would give |
| `SoapHandler.ReadFailureIgnoresParse` | practice-1/soap/handler.go:33-46 | a read failure is answered with "Failed to read request body" and its error text, whatever the parse would give |
| `SoapHandler.ValidPairs` | practice-1/soap/handler.go:109-112 | exactly (UAH,USD) and (USD,UAH) are valid; no same-currency pair is |
| `SoapHandler.DirectionalRates` | practice-1/soap/handler.go:13-16 | UAH→USD uses 0.025 and USD→UAH uses 40.0, each its own constant |
| `SoapHandler.ConversionIsLinear` | practice-1/soap/handler.go:114-125 | amount 0 gives 0; conversion is additive and sign-symmetric, so negative amounts are converted unguarded; the rate does not depend on the amount |
| `SoapHandler.Scenarios` | practice-1/soap/handler.go:18-125 | 100 UAH→USD is 2.5 at rate 0.025; 10 USD→UAH is 400 at rate 40; UAH→JPY is the invalid-pair fault; `application/json` is a 400 |
| `CurrencyService.ConvertCurrency` | practice-2/main.go:19-47 | succeeds exactly for ordered pairs of two distinct codes among USD, EUR, GBP, JPY and UAH; on success it echoes From and To, takes the table rate and multiplies; otherwise it fails with "conversion rate not found for f to t" |
| `CurrencyService.LookupRate` | practice-2/main.go:34 | a code with no row in the table finds no rate, as indexing the nil inner map does |
| `CurrencyService.NotFound` | practice-2/main.go:36 | the not-found message names the source code and then the target code |
| `CurrencyService.RateTableShape` | practice-2/main.go:22-28 | the table `Rates` has one row per known code, and each row lists every other code |
| `CurrencyService.ConvertCurrencyContext` | practice-2/main.go:49-52 | returns what `ConvertCurrency` returns for the same request, whatever the context |
| `CurrencyService.TableCoversSupportedPairs` | practice-2/main.go:22-28 | the table has a rate exactly for the ordered pairs of two distinct known codes: no self-pair, no unknown or empty code |
| `CurrencyService.KnownCodes` | practice-2/main.go:22-28 | the table knows five distinct codes |
| `CurrencyService.TableIsNotInverted` | practice-2/main.go:22-28 | for every pair the rate back is not the reciprocal of the rate there |
| `CurrencyService.UsdEurExample` | practice-2/main.go:23-24 | USD→EUR is 0.93 while EUR→USD is 1.07 |
| `CurrencyService.MissingPairs` | practice-2/main.go:34-37 | same-currency, empty and unknown codes give the not-found error |
| `HttpResponse.ResponseWriter.SetHeader` | practice-2/main.go:83 | sets one header and changes nothing else |
| `HttpResponse.ResponseWriter.WriteHeader` | practice-2/main.go:169 | the first call fixes the status; later calls change nothing |
| `HttpResponse.ResponseWriter.Write` | practice-2/main.go:145 | appends to the body; a write before any status sends 200 |
| `HttpResponse.Error` | practice-2/main.go:80 | a plain-text reply: text/plain Content-Type, the given status, the message and a newline |
| `SoapService.FaultEnvelope` | practice-2/main.go:150-160 | the fault envelope has no Content and a `Server` fault with the given faultstring and detail |
| `SoapService.ResponseEnvelope` | practice-2/main.go:133-137 | the response envelope has only Content and no Fault |
| `SoapService.FaultOutcome` | practice-2/main.go:148-171 | a fault reply is always status 500 with one chunk: the Server fault envelope sent as `text/xml; charset=utf-8`, or a plain "Internal Server Error" when it does not encode |
| `SoapService.ResponseOutcome` | practice-2/main.go:131-146 | status 200 exactly when the response encodes, and the body is then that envelope with the headers untouched |
| `SoapService.TypedRequest` | practice-2/main.go:112-117 | the typed request copies the parsed fields; a missing request element gives amount 0 and empty currencies |
| `SoapService.HandlerOutcome` | practice-2/main.go:75-129 | every request gets exactly one body chunk |
| `SoapService.SendSOAPFault` | practice-2/main.go:148-171 | leaves the writer as `FaultOutcome` describes |
| `SoapService.SendSOAPResponse` | practice-2/main.go:131-146 | leaves the writer as `ResponseOutcome` describes, falling back to the encode fault |
| `SoapService.SOAPHandler` | practice-2/main.go:75-129 | leaves a fresh writer as `HandlerOutcome` describes |
| `SoapService.NonPostIsPlain405` | practice-2/main.go:79-82 | a non-POST request gets a plain-text 405 "Method not allowed" and no envelope |
| `SoapService.EveryFailureIsServerFault` | practice-2/main.go:86-171 | a POST ends with 200 or 500; every 500 is a `Server` fault envelope sent as `text/xml; charset=utf-8`, or the plain "Internal Server Error" |
| `SoapService.SuccessIffConverted` | practice-2/main.go:119-146 | a POST succeeds exactly when read, parse, lookup and encoding all succeed; the body is then only the response, for a supported pair |
| `SoapService.StageFaultStrings` | practice-2/main.go:86-124 | read, parse and lookup failures report "Failed to read request body", "Failed to parse request" and "Failed to process request", each with the error text as detail |
| `SoapService.MissingRequestIsProcessFault` | practice-2/main.go:93-124 | a document without `ConvertCurrencyRequest` is answered with "Failed to process request", detail "conversion rate not found for  to " |
| `SoapService.EncodeFailureIsServerFault` | practice-2/main.go:139-142 | a response that does not encode becomes the "Failed to encode response" fault carrying the encoder's error text |

## Left out

- XML bytes: `xml.Unmarshal`, `xml.MarshalIndent`, gin's `c.XML`, the XML declaration and the indentation. Practice-1's codec works on an element tree. The handlers take the decode outcome as an input (`ParseResult`). Practice-2 takes an `encode` oracle.
- Floating-point: IEEE-754 rounding and the text form of numbers. Amounts and rates are `real`, and an element-tree leaf is either text or a number.
- Leaf kinds: a leaf's kind comes from the Go field that writes it. String fields write `Text` leaves, and float fields write `Number` leaves. An inbound document can hold either kind in any field, and two such cases differ from Go (the next two lines).
- SoapCodec.DecodeNumber: a `Text` leaf with non-empty text in a float field fails, even when it reads as a number. Go's `strconv.ParseFloat(strings.TrimSpace(..))` would read `Text("1.5")` as 1.5. The model has no number parser for text.
- SoapCodec.DecodeText: a number leaf in a string field is an error in the model. Go would keep the number's text, but the model has no text form for numbers.
- Repeated elements: Go's decoder merges a repeated struct element into the same value. `SoapCodec.DecodeOptional` keeps only the last match's decoded value. Every match is still decoded, and any failure fails the whole decode.
- Decoder error texts: the model uses its own error texts, and only whether an error occurs is modelled. Go's `Unmarshal` reports the first failure in document order. The model reports a failing field but does not fix which one.
- XML namespaces: Go's namespace-inheritance quirks on unqualified child elements are not modelled. Names are compared as the struct tags declare them.
- practice-2's loose parse: its own parse (`xml:"Envelope"` without a namespace, so any namespace is accepted) is not modelled. `SoapService.ParseResult` gives only what it yields.
- practice-1 fault headers: on fault paths, gin's default Content-Type for `c.XML` is not modelled. `Reply.contentType` records only the header the handler sets itself.
- Header timing: net/http does not send a header set after the status line. The model does not capture this, because no modelled path sets a header after writing.
- HTTP plumbing: `io.ReadAll` is modelled as the `ReadResult` input. `defer r.Body.Close()`, the request context (ignored by `ConvertCurrencyContext`), routing and `main` are left out.
- practice-1/main.go: route registration, swagger and environment loading.
- `WSDLFileServer` (practice-2/main.go:174-197): filesystem I/O.
- The `currency` package of practice-2 is not part of this model. Its request and response types are reconstructed from the fields main.go uses.
- practice-3 (JWT, middleware, SQL-backed events and users): not part of the SOAP pipeline.

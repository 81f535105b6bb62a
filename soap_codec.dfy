/** The XML mapping that the struct tags of practice-1/soap/types.go declare, over an abstract
    element tree. Bytes, indentation and number formatting are below this level: a leaf holds
    either text or a number. */
module SoapCodec {
  import opened Results
  import opened SoapTypes

  /** An element name as written: `space` is "" for an unqualified name. */
  datatype Name = Name(space: string, local: string)

  /** A leaf's character data. The encoder picks the kind from the field that writes it: a
      string field writes `Text`, a float field writes `Number`. A decoded document may hold
      either kind in any field. */
  datatype Value = Text(s: string) | Number(x: real)

  datatype Element = Leaf(name: Name, value: Value) | Node(name: Name, children: seq<Element>)

  /** A struct tag: a local name, plus a namespace the element must carry when not "". */
  datatype Tag = Tag(space: string, local: string)

  /** The decoder's matching rule: local names agree, and a qualified tag also demands its namespace. */
  predicate Matches(t: Tag, n: Name) {
    n.local == t.local && (t.space == "" || t.space == n.space)
  }

  function NameOf(t: Tag): Name {
    Name(t.space, t.local)
  }

  const EnvelopeTag := Tag(EnvelopeNamespace, "Envelope")
  const BodyTag := Tag(EnvelopeNamespace, "Body")
  const FaultTag := Tag(EnvelopeNamespace, "Fault")
  const RequestTag := Tag("", "ConvertCurrencyRequest")
  const ResponseTag := Tag("", "ConvertCurrencyResponse")
  const FaultCodeTag := Tag("", "faultcode")
  const FaultStringTag := Tag("", "faultstring")
  const DetailTag := Tag("", "detail")
  const AmountTag := Tag("", "amount")
  const FromTag := Tag("", "fromCurrency")
  const ToTag := Tag("", "toCurrency")
  const ConvertedAmountTag := Tag("", "convertedAmount")
  const RateTag := Tag("", "rate")

  // ---------------------------------------------------------------- encoding

  function TextLeaf(t: Tag, s: string): Element {
    Leaf(NameOf(t), Text(s))
  }

  function NumberLeaf(t: Tag, x: real): Element {
    Leaf(NameOf(t), Number(x))
  }

  /** `detail` carries `omitempty`: an empty detail produces no element. */
  function EncodeFault(f: Fault): (e: Element)
    ensures e.Node? && e.name == NameOf(FaultTag)
    ensures |e.children| == if f.detail == "" then 2 else 3
  {
    Node(NameOf(FaultTag),
      [TextLeaf(FaultCodeTag, f.faultCode), TextLeaf(FaultStringTag, f.faultString)]
      + (if f.detail == "" then [] else [TextLeaf(DetailTag, f.detail)]))
  }

  function EncodeRequest(r: ConvertCurrencyRequest): (e: Element)
    ensures e.Node? && e.name == NameOf(RequestTag)
  {
    Node(NameOf(RequestTag),
      [NumberLeaf(AmountTag, r.amount), TextLeaf(FromTag, r.fromCurrency), TextLeaf(ToTag, r.toCurrency)])
  }

  function EncodeResponse(r: ConvertCurrencyResponse): (e: Element)
    ensures e.Node? && e.name == NameOf(ResponseTag)
  {
    Node(NameOf(ResponseTag),
      [NumberLeaf(ConvertedAmountTag, r.convertedAmount), TextLeaf(FromTag, r.fromCurrency),
       TextLeaf(ToTag, r.toCurrency), NumberLeaf(RateTag, r.rate)])
  }

  /** The three variants carry `omitempty`: a nil variant produces no element; fields keep
      their declaration order (Fault, Request, Response). */
  function EncodeBody(b: Body): (e: Element)
    ensures e.Node? && e.name == NameOf(BodyTag)
    ensures |e.children| == Populated(b)
  {
    Node(NameOf(BodyTag),
      (if b.fault.Some? then [EncodeFault(b.fault.value)] else [])
      + (if b.request.Some? then [EncodeRequest(b.request.value)] else [])
      + (if b.response.Some? then [EncodeResponse(b.response.value)] else []))
  }

  function EncodeEnvelope(e: Envelope): (x: Element)
    ensures x.Node? && x.name == NameOf(EnvelopeTag) && |x.children| == 1
  {
    Node(NameOf(EnvelopeTag), [EncodeBody(e.body)])
  }

  // ---------------------------------------------------------------- decoding

  function Children(e: Element): seq<Element> {
    if e.Node? then e.children else []
  }

  /** The position of the last child matching a tag, or -1 when none does. */
  function LastMatch(cs: seq<Element>, t: Tag): (k: int)
    ensures -1 <= k < |cs|
    ensures k >= 0 ==> Matches(t, cs[k].name)
    ensures forall j :: k < j < |cs| ==> !Matches(t, cs[j].name)
    decreases |cs|
  {
    if cs == [] then -1
    else if Matches(t, cs[|cs| - 1].name) then |cs| - 1
    else LastMatch(cs[..|cs| - 1], t)
  }

  /** The last match of a sequence, in terms of the last match of its tail. */
  lemma LastMatchTail(cs: seq<Element>, t: Tag)
    requires cs != []
    ensures LastMatch(cs, t) == if LastMatch(cs[1..], t) >= 0 then LastMatch(cs[1..], t) + 1
                                else if Matches(t, cs[0].name) then 0 else -1
  {
  }

  /** The last child matching a tag: the one whose value a field keeps once every match has
      been decoded into it. */
  function FindLast(cs: seq<Element>, t: Tag): (r: Option<Element>)
    ensures r.None? <==> forall i :: 0 <= i < |cs| ==> !Matches(t, cs[i].name)
    ensures r.Some? ==> 0 <= LastMatch(cs, t) && r.value == cs[LastMatch(cs, t)]
  {
    var k := LastMatch(cs, t);
    if k < 0 then None else Some(cs[k])
  }

  /** A struct field receives every matching child in document order: each decoded child
      overwrites the value the earlier ones left, and the first child that fails to decode
      stops the whole decode. `current` is the value the field holds so far. */
  function DecodeField<T>(cs: seq<Element>, t: Tag, decode: Element -> Result<T>, current: T): (r: Result<T>)
    ensures r.Ok? <==> forall i :: 0 <= i < |cs| && Matches(t, cs[i].name) ==> decode(cs[i]).Ok?
    ensures r.Ok? && LastMatch(cs, t) < 0 ==> r.value == current
    ensures r.Ok? && LastMatch(cs, t) >= 0 ==> r == decode(cs[LastMatch(cs, t)])
    decreases |cs|
  {
    if cs == [] then Ok(current)
    else
      LastMatchTail(cs, t);
      assert forall i :: 1 <= i < |cs| ==> cs[i] == cs[1..][i - 1];
      if !Matches(t, cs[0].name) then DecodeField(cs[1..], t, decode, current)
      else
        match decode(cs[0])
        case Err(m) => Err(m)
        case Ok(v) => DecodeField(cs[1..], t, decode, v)
  }

  /** What one element contributes to a string field: a text leaf its text, a nested element
      the character data directly inside it, of which this tree has none. */
  function TextValue(e: Element): Result<string> {
    match e
    case Leaf(_, Text(s)) => Ok(s)
    case Leaf(_, Number(_)) => Err("cannot decode element " + e.name.local + " as text")
    case Node(_, _) => Ok("")
  }

  /** What one element contributes to a float field: empty text or a nested element (no
      character data) means 0, a number leaf its value, other text fails as the float parser does. */
  function NumberValue(e: Element): Result<real> {
    match e
    case Leaf(_, Number(x)) => Ok(x)
    case Leaf(_, Text(s)) => if s == "" then Ok(0.0) else Err("cannot parse " + s + " as float")
    case Node(_, _) => Ok(0.0)
  }

  /** A string field: absent means "", otherwise the last match's text; any matching number
      leaf fails, wherever it stands. */
  function DecodeText(cs: seq<Element>, t: Tag): (r: Result<string>)
    ensures (forall i :: 0 <= i < |cs| ==> !Matches(t, cs[i].name)) ==> r == Ok("")
    ensures r.Ok? <==> forall i :: 0 <= i < |cs| && Matches(t, cs[i].name) ==> !(cs[i].Leaf? && cs[i].value.Number?)
    ensures r.Ok? && FindLast(cs, t).Some? && FindLast(cs, t).value.Leaf? ==> r == Ok(FindLast(cs, t).value.value.s)
    ensures FindLast(cs, t).Some? && FindLast(cs, t).value.Node? ==> r.Ok? ==> r == Ok("")
  {
    DecodeField(cs, t, TextValue, "")
  }

  /** A float field: absent means 0, otherwise the last match's value; any matching leaf with
      non-empty text fails, wherever it stands. */
  function DecodeNumber(cs: seq<Element>, t: Tag): (r: Result<real>)
    ensures (forall i :: 0 <= i < |cs| ==> !Matches(t, cs[i].name)) ==> r == Ok(0.0)
    ensures r.Ok? <==> forall i :: 0 <= i < |cs| && Matches(t, cs[i].name) ==>
                         !(cs[i].Leaf? && cs[i].value.Text? && cs[i].value.s != "")
    ensures r.Ok? && FindLast(cs, t).Some? && FindLast(cs, t).value.Leaf? && FindLast(cs, t).value.value.Number?
            ==> r == Ok(FindLast(cs, t).value.value.x)
    ensures FindLast(cs, t).Some? && FindLast(cs, t).value.Node? ==> r.Ok? ==> r == Ok(0.0)
  {
    DecodeField(cs, t, NumberValue, 0.0)
  }

  /** An element with no children decodes to the zero fault. */
  function DecodeFault(e: Element): (r: Result<Fault>)
    ensures Children(e) == [] ==> r == Ok(Fault("", "", ""))
    ensures r.Err? <==> DecodeText(Children(e), FaultCodeTag).Err? || DecodeText(Children(e), FaultStringTag).Err?
                        || DecodeText(Children(e), DetailTag).Err?
  {
    var cs := Children(e);
    match (DecodeText(cs, FaultCodeTag), DecodeText(cs, FaultStringTag), DecodeText(cs, DetailTag))
    case (Ok(c), Ok(s), Ok(d)) => Ok(Fault(c, s, d))
    case (Err(m), _, _) => Err(m)
    case (_, Err(m), _) => Err(m)
    case (_, _, Err(m)) => Err(m)
  }

  /** An element with no children decodes to the zero request. */
  function DecodeRequest(e: Element): (r: Result<ConvertCurrencyRequest>)
    ensures Children(e) == [] ==> r == Ok(ConvertCurrencyRequest(0.0, "", ""))
    ensures r.Err? <==> DecodeNumber(Children(e), AmountTag).Err? || DecodeText(Children(e), FromTag).Err?
                        || DecodeText(Children(e), ToTag).Err?
  {
    var cs := Children(e);
    match (DecodeNumber(cs, AmountTag), DecodeText(cs, FromTag), DecodeText(cs, ToTag))
    case (Ok(a), Ok(f), Ok(t)) => Ok(ConvertCurrencyRequest(a, f, t))
    case (Err(m), _, _) => Err(m)
    case (_, Err(m), _) => Err(m)
    case (_, _, Err(m)) => Err(m)
  }

  /** An element with no children decodes to the zero response. */
  function DecodeResponse(e: Element): (r: Result<ConvertCurrencyResponse>)
    ensures Children(e) == [] ==> r == Ok(ConvertCurrencyResponse(0.0, "", "", 0.0))
    ensures r.Err? <==> DecodeNumber(Children(e), ConvertedAmountTag).Err? || DecodeText(Children(e), FromTag).Err?
                        || DecodeText(Children(e), ToTag).Err? || DecodeNumber(Children(e), RateTag).Err?
  {
    var cs := Children(e);
    match (DecodeNumber(cs, ConvertedAmountTag), DecodeText(cs, FromTag), DecodeText(cs, ToTag), DecodeNumber(cs, RateTag))
    case (Ok(c), Ok(f), Ok(t), Ok(r)) => Ok(ConvertCurrencyResponse(c, f, t, r))
    case (Err(m), _, _, _) => Err(m)
    case (_, Err(m), _, _) => Err(m)
    case (_, _, Err(m), _) => Err(m)
    case (_, _, _, Err(m)) => Err(m)
  }

  function Wrap<T>(r: Result<T>): Result<Option<T>> {
    match r
    case Ok(v) => Ok(Some(v))
    case Err(m) => Err(m)
  }

  /** A pointer field: an absent element leaves it nil; otherwise every matching element is
      decoded, the first failure stops the decode, and the last match is the one kept. */
  function DecodeOptional<T>(cs: seq<Element>, t: Tag, decode: Element -> Result<T>): (r: Result<Option<T>>)
    ensures r.Ok? <==> forall i :: 0 <= i < |cs| && Matches(t, cs[i].name) ==> decode(cs[i]).Ok?
    ensures FindLast(cs, t).None? ==> r == Ok(None)
    ensures r.Ok? && FindLast(cs, t).Some? ==>
              decode(FindLast(cs, t).value).Ok? && r == Ok(Some(decode(FindLast(cs, t).value).value))
  {
    DecodeField(cs, t, e => Wrap(decode(e)), None)
  }

  /** The variant is chosen by element name alone; there is no discriminator field. */
  function DecodeBody(e: Element): (r: Result<Body>)
    ensures Children(e) == [] ==> r == Ok(Body(None, None, None))
    ensures r.Ok? ==> (r.value.fault.Some? <==> FindLast(Children(e), FaultTag).Some?)
    ensures r.Ok? ==> (r.value.request.Some? <==> FindLast(Children(e), RequestTag).Some?)
    ensures r.Ok? ==> (r.value.response.Some? <==> FindLast(Children(e), ResponseTag).Some?)
  {
    var cs := Children(e);
    match (DecodeOptional(cs, FaultTag, DecodeFault), DecodeOptional(cs, RequestTag, DecodeRequest),
           DecodeOptional(cs, ResponseTag, DecodeResponse))
    case (Ok(f), Ok(q), Ok(r)) => Ok(Body(f, q, r))
    case (Err(m), _, _) => Err(m)
    case (_, Err(m), _) => Err(m)
    case (_, _, Err(m)) => Err(m)
  }

  /** The root must be the namespaced Envelope; a missing Body element is not an error and
      yields a Body with no variant populated. */
  function DecodeEnvelope(e: Element): (r: Result<Envelope>)
    ensures !Matches(EnvelopeTag, e.name) ==> r.Err?
    ensures Matches(EnvelopeTag, e.name) && (forall i :: 0 <= i < |Children(e)| ==> !Matches(BodyTag, Children(e)[i].name))
            ==> r == Ok(Envelope(Body(None, None, None)))
  {
    if !Matches(EnvelopeTag, e.name) then Err("expected element type <Envelope> but have <" + e.name.local + ">")
    else
      match DecodeOptional(Children(e), BodyTag, DecodeBody)
      case Ok(None) => Ok(Envelope(Body(None, None, None)))
      case Ok(Some(b)) => Ok(Envelope(b))
      case Err(m) => Err(m)
  }

  // ---------------------------------------------------------------- properties

  /** When exactly one child matches a tag, the field receives that child. */
  lemma FindLastSole(cs: seq<Element>, t: Tag, i: nat)
    requires i < |cs| && Matches(t, cs[i].name)
    requires forall j :: 0 <= j < |cs| && j != i ==> !Matches(t, cs[j].name)
    ensures FindLast(cs, t) == Some(cs[i])
  {
    var k := LastMatch(cs, t);
    assert !(i > k);
  }

  /** When exactly one child matches a tag and it decodes, the field ends with its value. */
  lemma DecodeFieldSole<T>(cs: seq<Element>, t: Tag, i: nat, decode: Element -> Result<T>, current: T)
    requires i < |cs| && Matches(t, cs[i].name)
    requires forall j :: 0 <= j < |cs| && j != i ==> !Matches(t, cs[j].name)
    requires decode(cs[i]).Ok?
    ensures DecodeField(cs, t, decode, current) == decode(cs[i])
  {
  }

  /** Of two matching children, the later one is the one whose value a field keeps. */
  lemma LaterMatchWins(a: Element, b: Element, t: Tag)
    requires Matches(t, a.name) && Matches(t, b.name)
    ensures FindLast([a, b], t) == Some(b)
  {
  }

  /** A matching child that fails to decode makes the whole decode fail, even when a later
      match for the same field would decode: an unparsable amount before a good one, and a
      malformed request element before a well-formed one. */
  lemma EarlierFailureFails(x: real, q: ConvertCurrencyRequest)
    ensures DecodeRequest(Node(NameOf(RequestTag), [TextLeaf(AmountTag, "abc"), NumberLeaf(AmountTag, x)])).Err?
    ensures DecodeBody(Node(NameOf(BodyTag), [Node(NameOf(RequestTag), [TextLeaf(AmountTag, "abc")]), EncodeRequest(q)])).Err?
  {
  }

  /** A nested element in a string field decodes as "", not as an error. */
  lemma NestedElementIsEmptyText(inner: Element, t: Tag)
    ensures DecodeText([Node(NameOf(t), [inner])], t) == Ok("")
  {
  }

  /** Encoding a response and decoding it again gives back all four fields. */
  lemma ResponseRoundTrip(r: ConvertCurrencyResponse)
    ensures DecodeResponse(EncodeResponse(r)) == Ok(r)
  {
    var cs := Children(EncodeResponse(r));
    DecodeFieldSole(cs, ConvertedAmountTag, 0, NumberValue, 0.0);
    DecodeFieldSole(cs, FromTag, 1, TextValue, "");
    DecodeFieldSole(cs, ToTag, 2, TextValue, "");
    DecodeFieldSole(cs, RateTag, 3, NumberValue, 0.0);
  }

  lemma RequestRoundTrip(r: ConvertCurrencyRequest)
    ensures DecodeRequest(EncodeRequest(r)) == Ok(r)
  {
    var cs := Children(EncodeRequest(r));
    DecodeFieldSole(cs, AmountTag, 0, NumberValue, 0.0);
    DecodeFieldSole(cs, FromTag, 1, TextValue, "");
    DecodeFieldSole(cs, ToTag, 2, TextValue, "");
  }

  /** Holds although `detail` is omitted when empty: the decoder's default for it is "". */
  lemma FaultRoundTrip(f: Fault)
    ensures DecodeFault(EncodeFault(f)) == Ok(f)
  {
    var cs := Children(EncodeFault(f));
    DecodeFieldSole(cs, FaultCodeTag, 0, TextValue, "");
    DecodeFieldSole(cs, FaultStringTag, 1, TextValue, "");
    if f.detail != "" {
      DecodeFieldSole(cs, DetailTag, 2, TextValue, "");
    }
  }

  /** The children of an encoded body: the fault (if any), then the request, then the response. */
  lemma BodyLayout(b: Body)
    ensures var cs := Children(EncodeBody(b));
            var nf := if b.fault.Some? then 1 else 0;
            var nq := if b.request.Some? then 1 else 0;
            |cs| == Populated(b)
            && (forall j :: 0 <= j < |cs| ==>
                  cs[j].name == (if j < nf then NameOf(FaultTag) else if j < nf + nq then NameOf(RequestTag) else NameOf(ResponseTag)))
            && (b.fault.Some? ==> cs[0] == EncodeFault(b.fault.value))
            && (b.request.Some? ==> cs[nf] == EncodeRequest(b.request.value))
            && (b.response.Some? ==> cs[nf + nq] == EncodeResponse(b.response.value))
  {
  }

  lemma FaultVariantRoundTrip(b: Body)
    ensures DecodeOptional(Children(EncodeBody(b)), FaultTag, DecodeFault) == Ok(b.fault)
  {
    BodyLayout(b);
    if b.fault.Some? {
      FindLastSole(Children(EncodeBody(b)), FaultTag, 0);
      FaultRoundTrip(b.fault.value);
    }
  }

  lemma RequestVariantRoundTrip(b: Body)
    ensures DecodeOptional(Children(EncodeBody(b)), RequestTag, DecodeRequest) == Ok(b.request)
  {
    BodyLayout(b);
    if b.request.Some? {
      FindLastSole(Children(EncodeBody(b)), RequestTag, if b.fault.Some? then 1 else 0);
      RequestRoundTrip(b.request.value);
    }
  }

  lemma ResponseVariantRoundTrip(b: Body)
    ensures DecodeOptional(Children(EncodeBody(b)), ResponseTag, DecodeResponse) == Ok(b.response)
  {
    BodyLayout(b);
    if b.response.Some? {
      FindLastSole(Children(EncodeBody(b)), ResponseTag, Populated(b) - 1);
      ResponseRoundTrip(b.response.value);
    }
  }

  /** Each variant of an encoded body is found under its own tag, and only there. */
  lemma BodyRoundTrip(b: Body)
    ensures DecodeBody(EncodeBody(b)) == Ok(b)
  {
    FaultVariantRoundTrip(b);
    RequestVariantRoundTrip(b);
    ResponseVariantRoundTrip(b);
  }

  /** Every envelope survives an encode followed by a decode, whichever variants it holds. */
  lemma EnvelopeRoundTrip(e: Envelope)
    ensures DecodeEnvelope(EncodeEnvelope(e)) == Ok(e)
  {
    BodyRoundTrip(e.body);
    var cs := Children(EncodeEnvelope(e));
    assert FindLast(cs, BodyTag) == Some(cs[0]);
  }

  /** Envelope, Body and Fault are written in the SOAP envelope namespace; the request and
      response elements carry no namespace. */
  lemma ElementNamespaces(e: Envelope)
    ensures EncodeEnvelope(e).name.space == EnvelopeNamespace
    ensures EncodeEnvelope(e).children[0].name == Name(EnvelopeNamespace, "Body")
    ensures forall c <- EncodeBody(e.body).children ::
              (c.name.local == "Fault" ==> c.name.space == EnvelopeNamespace)
              && (c.name.local in {"ConvertCurrencyRequest", "ConvertCurrencyResponse"} ==> c.name.space == "")
  {
  }

  /** A body holding one variant is written with exactly that one child element. */
  lemma SingleVariantSingleChild(b: Body)
    requires ExactlyOne(b)
    ensures |EncodeBody(b).children| == 1
    ensures b.fault.Some? ==> EncodeBody(b).children[0] == EncodeFault(b.fault.value)
    ensures b.request.Some? ==> EncodeBody(b).children[0] == EncodeRequest(b.request.value)
    ensures b.response.Some? ==> EncodeBody(b).children[0] == EncodeResponse(b.response.value)
  {
  }

  /** The fault element has a `detail` child exactly when the detail text is not empty. */
  lemma DetailOmittedWhenEmpty(f: Fault)
    ensures (exists i :: 0 <= i < |EncodeFault(f).children| && Matches(DetailTag, EncodeFault(f).children[i].name))
            <==> f.detail != ""
  {
    var cs := EncodeFault(f).children;
    if f.detail != "" {
      assert Matches(DetailTag, cs[2].name);
    }
  }
}

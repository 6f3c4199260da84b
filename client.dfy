/** The response pipeline of src/client.rs: building a request, dispatching on the status of
    the reply, and turning a body into a response through a fixed chain, parse the XML text
    into a document and then decode the feed from that document, which stops at the first
    failing step. The HTTP transport and the XML parser are libraries outside this model; they
    appear as function parameters. */
module Client {
  import opened Wrappers
  import opened Digits
  import opened Xml
  import opened Feed

  /** An HTTP status code (a `u16`). */
  type StatusCode = n: nat | n < 0x1_0000

  /** A failure reported by the HTTP transport, with the transport's own description. */
  datatype HttpError = HttpError(message: string)

  /** A failure of the XML parser on text that is not well-formed XML, with the parser's description. */
  datatype XmlParseError = XmlParseError(message: string)

  datatype RssError =
    | Http(http: HttpError)
    | UnexpectedResponse(code: StatusCode)
    | XmlDecode(decode: DecodeError)
    | XmlParse(parse: XmlParseError)

  /** `Document::parse`: text to element tree, or a parse error. */
  type Parser = string -> Result<Document, XmlParseError>

  /** A transport request: its HTTP method and its target URL. */
  datatype Request = Request(verb: string, url: string)

  datatype RssRequest = RssRequest(req: Request)

  /** `RssRequest::new`: a GET request for `url`; the transport decides whether the URL is
      acceptable, and its refusal is reported as `Http`. */
  function NewRequest(url: string, open: (string, string) -> Result<Request, HttpError>): (r: Result<RssRequest, RssError>)
    ensures r.Success? <==> open("GET", url).Success?
    ensures r.Success? ==> r.value.req == open("GET", url).value
    ensures r.Failure? ==> r.error == Http(open("GET", url).error)
  {
    match open("GET", url)
    case Success(req) => Success(RssRequest(req))
    case Failure(err) => Failure(Http(err))
  }

  /** A response: the body text together with the document and the feed derived from it. */
  datatype RssResponse = RssResponse(body: string, document: Document, feed: Feed)

  /** The invariant every response value keeps: its document is what the parser makes of its
      body, and its feed is what the decoder makes of that document. */
  predicate DerivedFrom(r: RssResponse, parse: Parser) {
    parse(r.body) == Success(r.document) && DecodeFeed(r.document) == Success(r.feed)
  }

  /** `RssResponse::from_string`: parse, then decode; either failure discards everything
      built so far and only the error is returned. */
  function FromString(s: string, parse: Parser): (r: Result<RssResponse, RssError>)
    ensures r.Success? <==> parse(s).Success? && DecodeFeed(parse(s).value).Success?
    ensures r.Success? ==> r.value.body == s && DerivedFrom(r.value, parse)
    ensures parse(s).Failure? ==> r == Failure(XmlParse(parse(s).error))
    ensures parse(s).Success? && DecodeFeed(parse(s).value).Failure? ==>
      r == Failure(XmlDecode(DecodeFeed(parse(s).value).error))
  {
    var document :- match parse(s)
      case Success(d) => Success(d)
      case Failure(err) => Failure(XmlParse(err));
    var feed :- match DecodeFeed(document)
      case Success(f) => Success(f)
      case Failure(err) => Failure(XmlDecode(err));
    Success(RssResponse(s, document, feed))
  }

  /** The half-open range 200..300 of successful statuses: exactly the 2xx class of status
      codes (section 15.3 of RFC 9110), so no 1xx, 3xx, 4xx or 5xx code is let through. */
  function IsSuccessStatus(code: StatusCode): (b: bool)
    ensures b <==> code / 100 == 2
  {
    200 <= code < 300
  }

  /** What `exec` makes of a reply once the transport has delivered its status: a successful
      status sends the body through the parse-then-decode chain; any other status, redirects
      included, is `UnexpectedResponse` and the body is not looked at. */
  function Respond(status: StatusCode, body: Result<string, HttpError>, parse: Parser): (r: Result<RssResponse, RssError>)
    ensures !IsSuccessStatus(status) ==> r == Failure(UnexpectedResponse(status))
    ensures IsSuccessStatus(status) && body.Failure? ==> r == Failure(Http(body.error))
    ensures IsSuccessStatus(status) && body.Success? ==> r == FromString(body.value, parse)
  {
    if IsSuccessStatus(status) then
      var text :- match body
        case Success(t) => Success(t)
        case Failure(err) => Failure(Http(err));
      var document :- match parse(text)
        case Success(d) => Success(d)
        case Failure(err) => Failure(XmlParse(err));
      var feed :- match DecodeFeed(document)
        case Success(f) => Success(f)
        case Failure(err) => Failure(XmlDecode(err));
      Success(RssResponse(text, document, feed))
    else
      Failure(UnexpectedResponse(status))
  }

  /** A reply handle of the transport: its status, what reading its body will yield, and
      whether the body has been read. */
  class Response {
    const status: StatusCode
    const body: Result<string, HttpError>
    var bodyRead: bool

    constructor (status: StatusCode, body: Result<string, HttpError>)
      ensures this.status == status && this.body == body && !bodyRead
    {
      this.status := status;
      this.body := body;
      bodyRead := false;
    }

    /** `resp.text()`: reads the whole body. */
    method Text() returns (r: Result<string, HttpError>)
      modifies this
      ensures r == body && bodyRead
    {
      r := body;
      bodyRead := true;
    }
  }

  /** `RssRequest::exec`: sends the request with the transport `send`, then dispatches on the
      status of the reply. The body is read exactly when the status is successful, and the
      result is what `Respond` makes of that reply. */
  method Exec(request: RssRequest, send: Request -> Result<Response, HttpError>, parse: Parser)
    returns (r: Result<RssResponse, RssError>)
    requires send(request.req).Success? ==> !send(request.req).value.bodyRead
    modifies if send(request.req).Success? then {send(request.req).value} else {}
    ensures send(request.req).Failure? ==> r == Failure(Http(send(request.req).error))
    ensures send(request.req).Success? ==>
      var resp := send(request.req).value;
      && r == Respond(resp.status, resp.body, parse)
      && (resp.bodyRead <==> IsSuccessStatus(resp.status))
  {
    var sent := send(request.req);
    if sent.Failure? {
      return Failure(Http(sent.error));
    }
    var resp := sent.value;
    if 200 <= resp.status < 300 {
      var body := resp.Text();
      if body.Failure? {
        return Failure(Http(body.error));
      }
      r := FromString(body.value, parse);
    } else {
      r := Failure(UnexpectedResponse(resp.status));
    }
  }

  // ---------------------------------------------------------------- Display

  function DescribeDecodeError(e: DecodeError): string {
    match e
    case MissingField(f) => "missing field `" + f + "`"
    case InvalidBool(f, t) => "invalid boolean `" + t + "` for field `" + f + "`"
    case InvalidNumber(f, t) => "invalid number `" + t + "` for field `" + f + "`"
    case UnknownVariant(f, t) => "unknown variant `" + t + "` for field `" + f + "`"
    case InvalidDate(f, _) => "invalid date for field `" + f + "`"
  }

  const HTTP_PREFIX: string := "http error: "
  const UNEXPECTED_PREFIX: string := "unexpected response code "
  const DECODE_PREFIX: string := "xml decode error: "
  const PARSE_PREFIX: string := "xml parse error: "

  /** The fixed text each error's message starts with. */
  function Prefix(e: RssError): string {
    match e
    case Http(_) => HTTP_PREFIX
    case UnexpectedResponse(_) => UNEXPECTED_PREFIX
    case XmlDecode(_) => DECODE_PREFIX
    case XmlParse(_) => PARSE_PREFIX
  }

  /** `Display for RssError`: the variant's fixed prefix followed by the status code in decimal
      or the nested error's description. */
  function Display(e: RssError): (s: string)
    ensures |Prefix(e)| <= |s| && s[..|Prefix(e)|] == Prefix(e)
  {
    match e
    case Http(err) => HTTP_PREFIX + err.message
    case UnexpectedResponse(code) => UNEXPECTED_PREFIX + Decimal(code)
    case XmlDecode(err) => DECODE_PREFIX + DescribeDecodeError(err)
    case XmlParse(err) => PARSE_PREFIX + err.message
  }

  // ---------------------------------------------------------------- properties

  /** Status dispatch: exactly the statuses 200 through 299 go to the chain; 300, every other
      redirect status and every error status become `UnexpectedResponse` with that code. */
  lemma StatusDispatch(status: StatusCode, body: Result<string, HttpError>, parse: Parser)
    ensures Respond(status, body, parse).Failure? && Respond(status, body, parse).error.UnexpectedResponse?
      <==> status < 200 || 300 <= status
    ensures Respond(status, body, parse).Failure? && Respond(status, body, parse).error.UnexpectedResponse? ==>
      Respond(status, body, parse).error.code == status
  {
  }

  /** For an unsuccessful status neither the body nor the parser matters: the outcome is the
      same whatever the body and whatever the parser would do with it. */
  lemma UnsuccessfulIgnoresBody(status: StatusCode, b1: Result<string, HttpError>, b2: Result<string, HttpError>, p1: Parser, p2: Parser)
    requires !IsSuccessStatus(status)
    ensures Respond(status, b1, p1) == Respond(status, b2, p2)
  {
  }

  /** Parse failures stop the chain: the result is `XmlParse` whatever the decoder would say. */
  lemma ParseFailureStopsChain(s: string, parse: Parser)
    requires parse(s).Failure?
    ensures FromString(s, parse) == Failure(XmlParse(parse(s).error))
    ensures forall status: StatusCode :: IsSuccessStatus(status) ==>
      Respond(status, Success(s), parse) == Failure(XmlParse(parse(s).error))
  {
  }

  /** A response only ever exists fully built: whatever `exec` or `from_string` return on
      success holds a feed decoded from the document parsed from exactly the body supplied. */
  lemma ResponsesAreWhole(status: StatusCode, body: string, parse: Parser)
    requires Respond(status, Success(body), parse).Success?
    ensures IsSuccessStatus(status)
    ensures Respond(status, Success(body), parse).value.body == body
    ensures DerivedFrom(Respond(status, Success(body), parse).value, parse)
    ensures Respond(status, Success(body), parse) == FromString(body, parse)
  {
  }

  /** The decoder's verdict decides a parsed body: `XmlDecode` carries its error. */
  lemma DecodeFailureReported(s: string, parse: Parser, doc: Document)
    requires parse(s) == Success(doc) && DecodeFeed(doc).Failure?
    ensures FromString(s, parse) == Failure(XmlDecode(DecodeFeed(doc).error))
  {
  }

  /** The message of `UnexpectedResponse(code)` is "unexpected response code " and the code in
      decimal, and the code can be read back from it. */
  lemma UnexpectedResponseMessage(code: StatusCode)
    ensures Display(UnexpectedResponse(code)) == "unexpected response code " + Decimal(code)
    ensures ParseU32(Display(UnexpectedResponse(code))[|UNEXPECTED_PREFIX|..]) == Some(code)
  {
    ParseU32Decimal(code);
    assert Display(UnexpectedResponse(code))[|UNEXPECTED_PREFIX|..] == Decimal(code);
  }

  /** The four prefixes differ in their first or fifth character. */
  lemma PrefixesByChars(a: RssError, b: RssError)
    requires Prefix(a)[0] == Prefix(b)[0] && Prefix(a)[4] == Prefix(b)[4]
    ensures Prefix(a) == Prefix(b)
  {
  }

  /** Two `UnexpectedResponse` messages are equal only for the same code. */
  lemma UnexpectedCodes(a: StatusCode, b: StatusCode)
    requires Display(UnexpectedResponse(a)) == Display(UnexpectedResponse(b))
    ensures a == b
  {
    var n := |UNEXPECTED_PREFIX|;
    assert Display(UnexpectedResponse(a))[n..] == Decimal(a);
    assert Display(UnexpectedResponse(b))[n..] == Decimal(b);
    DecimalInjective(a, b);
  }

  /** Messages tell the error kinds apart: two errors with the same message are of the same
      kind, and two `UnexpectedResponse` messages are equal only for the same code. */
  lemma DisplayDistinguishesKinds(a: RssError, b: RssError)
    requires Display(a) == Display(b)
    ensures Prefix(a) == Prefix(b)
    ensures a.UnexpectedResponse? ==> b == a
  {
    var s := Display(a);
    assert s[0] == Prefix(a)[0] && s[0] == Prefix(b)[0];
    assert s[4] == Prefix(a)[4] && s[4] == Prefix(b)[4];
    PrefixesByChars(a, b);
    if a.UnexpectedResponse? {
      assert b.UnexpectedResponse?;
      UnexpectedCodes(a.code, b.code);
    }
  }
}

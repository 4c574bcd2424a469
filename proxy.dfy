// The live serverless conversion proxy (netlify/functions/convert.js,
// lines 244-304): a request body plus the answer the conversion service would
// give, mapped to the outbound request and the HTTP response.

module Proxy {
  import opened Options
  import opened Utils

  newtype byte = x: int | 0 <= x < 256

  /**
   * What `JSON.parse(event.body)` yields, as far as the handler can tell.
   * A body that is not JSON, or that is absent, makes `JSON.parse` throw;
   * the literal `null` parses but cannot be destructured. Any other value is
   * read for its four string properties, which may be absent.
   */
  datatype ParsedBody =
    | Unparsable
    | NullBody
    | Fields(fileData: Option<string>, fromFormat: Option<string>,
             toFormat: Option<string>, filename: Option<string>)

  /** A status that makes `response.ok` false. */
  type ErrorStatus = s: nat | !(200 <= s < 300) witness 500

  /**
   * The conversion service's answer to the outbound request: a 2xx reply and
   * its body bytes, a non-2xx reply and its body text, or an exception from
   * `fetch`, `text()` or `buffer()`.
   */
  datatype Upstream =
    | Accepted(data: seq<byte>)
    | Rejected(status: ErrorStatus, text: string)
    | Threw(message: string)

  /** The POST the handler sends: its URL, headers and `FileBytes` field. */
  datatype Outbound = Outbound(url: string, apiKeyHeader: Option<string>,
                               contentType: string, fileBytes: string)

  /** The JSON body of the response. */
  datatype ResponseBody =
    | Failure(error: string)
    | Success(data: seq<byte>, contentType: string, filename: string)

  /** `jsonHeader` records whether a `Content-Type: application/json` header is set. */
  datatype Response = Response(statusCode: nat, jsonHeader: bool, body: ResponseBody)

  /** The outbound request, if one is made, and the response. */
  datatype Exchange = Exchange(outbound: Option<Outbound>, response: Response)

  const EndpointPrefix := "https://api.cloudmersive.com/convert/"
  const MsgMissingFields := "Missing required fields"
  const MsgUpstreamPrefix := "Cloudmersive error: "
  const MsgInternal := "Internal server error"
  const OctetStream := "application/octet-stream"
  const Json := "application/json"

  /** JavaScript truthiness of an optional string property. */
  predicate Present(v: Option<string>)
  {
    v.Some? && v.value != ""
  }

  predicate Complete(body: ParsedBody)
  {
    body.Fields? && Present(body.fileData) && Present(body.fromFormat)
    && Present(body.toFormat) && Present(body.filename)
  }

  function Endpoint(fromFormat: string, toFormat: string): string
  {
    EndpointPrefix + fromFormat + "/to/" + toFormat
  }

  function UpstreamError(status: nat, text: string): string
  {
    MsgUpstreamPrefix + NatToString(status) + " " + text
  }

  /**
   * The handler. `apiKey` is the process environment's key, which is sent
   * as a header whether or not it is set.
   */
  function Handle(body: ParsedBody, apiKey: Option<string>, upstream: Upstream): (x: Exchange)
    ensures x.outbound.Some? <==> Complete(body)
    ensures x.response.body.Success? <==> x.response.statusCode == 200
    ensures x.response.body.Success? ==> x.response.jsonHeader
    ensures x.response.statusCode == 400 && x.response.body == Failure(MsgMissingFields)
            <==> body.Fields? && !Complete(body)
    ensures !body.Fields? ==> x.response == Response(500, false, Failure(MsgInternal))
  {
    match body
    case Unparsable => Exchange(None, Response(500, false, Failure(MsgInternal)))
    case NullBody => Exchange(None, Response(500, false, Failure(MsgInternal)))
    case Fields(fileData, fromFormat, toFormat, filename) =>
      if !Complete(body) then
        Exchange(None, Response(400, false, Failure(MsgMissingFields)))
      else
        var out := Outbound(Endpoint(fromFormat.value, toFormat.value), apiKey, Json, fileData.value);
        var resp :=
          match upstream
          case Rejected(status, text) =>
            Response(status, false, Failure(UpstreamError(status, text)))
          case Threw(_) =>
            Response(500, false, Failure(MsgInternal))
          case Accepted(data) =>
            Response(200, true, Success(data, OctetStream, filename.value));
        Exchange(Some(out), resp)
  }

  // ---------------------------------------------------------------------------
  // Properties

  /** A body with a missing or empty field is answered 400 before any request is sent. */
  lemma BadInputNeverCallsOut(body: ParsedBody, apiKey: Option<string>, upstream: Upstream)
    requires body.Fields?
    requires !Present(body.fileData) || !Present(body.fromFormat)
             || !Present(body.toFormat) || !Present(body.filename)
    ensures Handle(body, apiKey, upstream).outbound == None
    ensures Handle(body, apiKey, upstream).response == Response(400, false, Failure(MsgMissingFields))
  {
  }

  /** Without an outbound request the service's answer cannot matter. */
  lemma NoCallNoDependence(body: ParsedBody, apiKey: Option<string>, u1: Upstream, u2: Upstream)
    requires Handle(body, apiKey, u1).outbound.None?
    ensures Handle(body, apiKey, u1) == Handle(body, apiKey, u2)
  {
  }

  /** The response never depends on the API key; it is only forwarded. */
  lemma ResponseIgnoresApiKey(body: ParsedBody, k1: Option<string>, k2: Option<string>, upstream: Upstream)
    ensures Handle(body, k1, upstream).response == Handle(body, k2, upstream).response
    ensures Handle(body, k1, upstream).outbound.Some? ==>
              Handle(body, k1, upstream).outbound.value.apiKeyHeader == k1
  {
  }

  /** The outbound request carries both formats and the file data verbatim. */
  lemma OutboundCarriesInputs(body: ParsedBody, apiKey: Option<string>, upstream: Upstream)
    requires Complete(body)
    ensures var out := Handle(body, apiKey, upstream).outbound.value;
            && out.url == EndpointPrefix + body.fromFormat.value + "/to/" + body.toFormat.value
            && out.fileBytes == body.fileData.value
            && out.contentType == Json
  {
  }

  /** Length of the leading run of characters other than '/'. */
  function SegmentLength(s: string): (n: nat)
    ensures n <= |s|
  {
    if s == [] || s[0] == '/' then 0 else 1 + SegmentLength(s[1..])
  }

  lemma {:induction false} SegmentBeforeSlash(f: string, rest: string)
    requires '/' !in f
    requires rest != [] && rest[0] == '/'
    ensures SegmentLength(f + rest) == |f|
  {
    if f != [] {
      assert (f + rest)[1..] == f[1..] + rest;
      SegmentBeforeSlash(f[1..], rest);
    }
  }

  /**
   * When the input format holds no '/', the URL determines both formats, so
   * no two distinct conversions share an endpoint.
   */
  lemma EndpointInjective(f1: string, t1: string, f2: string, t2: string)
    requires '/' !in f1 && '/' !in f2
    requires Endpoint(f1, t1) == Endpoint(f2, t2)
    ensures f1 == f2 && t1 == t2
  {
    var p := |EndpointPrefix|;
    var e := Endpoint(f1, t1);
    assert e[p..] == f1 + ("/to/" + t1);
    assert e[p..] == f2 + ("/to/" + t2);
    SegmentBeforeSlash(f1, "/to/" + t1);
    SegmentBeforeSlash(f2, "/to/" + t2);
    assert f1 == e[p..][..|f1|] == f2;
    assert t1 == e[p + |f1| + 4..] == t2;
  }

  /** A non-2xx answer is passed through with its own status and body text. */
  lemma StatusPassedThrough(body: ParsedBody, apiKey: Option<string>, status: ErrorStatus, text: string)
    requires Complete(body)
    ensures var r := Handle(body, apiKey, Rejected(status, text)).response;
            r.statusCode == status && r.body == Failure(UpstreamError(status, text))
  {
  }

  /** The status printed in an upstream error message reads back as that status. */
  function ReadUpstreamStatus(error: string): Option<nat>
  {
    var p := |MsgUpstreamPrefix|;
    if |error| >= p && error[..p] == MsgUpstreamPrefix && SpanDigits(error[p..]) > 0 then
      Some(ParseNat(error[p..][..SpanDigits(error[p..])]))
    else
      None
  }

  lemma UpstreamErrorNamesStatus(status: nat, text: string)
    ensures ReadUpstreamStatus(UpstreamError(status, text)) == Some(status)
  {
    var p := |MsgUpstreamPrefix|;
    var e := UpstreamError(status, text);
    assert e == MsgUpstreamPrefix + (NatToString(status) + " " + text);
    assert e[..p] == MsgUpstreamPrefix;
    assert e[p..] == NatToString(status) + (" " + text);
    ReadNumeral(status, " " + text);
  }

  /** A successful conversion answers with the caller's own filename, unchanged. */
  lemma FilenameNotRewritten(body: ParsedBody, apiKey: Option<string>, data: seq<byte>)
    requires Complete(body)
    ensures Handle(body, apiKey, Accepted(data)).response
            == Response(200, true, Success(data, OctetStream, body.filename.value))
  {
  }

  /** An exception is answered 500 with a fixed text; its message is never exposed. */
  lemma ExceptionHidden(body: ParsedBody, apiKey: Option<string>, message: string)
    ensures Handle(body, apiKey, Threw(message)).response.body.Failure?
    ensures Handle(body, apiKey, Threw(message)).response
            == Handle(body, apiKey, Threw("")).response
    ensures Complete(body) ==>
              Handle(body, apiKey, Threw(message)).response == Response(500, false, Failure(MsgInternal))
  {
  }
}

/** The request path of the proxy: which status the client sees and where the request
    is sent (`proxyHandler`), and the insecure listener's redirect (`redirectHTTP`).
    The upstream exchange itself is a parameter: given the outbound request it yields
    either a transport failure or the upstream response. */
module Proxy {
  import opened Registry
  import opened Selector
  import opened Escape

  const StatusMovedPermanently: int := 301
  const StatusBadGateway: int := 502
  const StatusServiceUnavailable: int := 503

  newtype byte = x: int | 0 <= x < 256

  type Header = map<string, seq<string>>

  /** An inbound request: method (`verb`), `Host`, request URI (path and query), headers, body. */
  datatype Request = Request(verb: string, host: ByteString, requestURI: ByteString, header: Header, body: seq<byte>)

  /** The request replayed towards a backend. */
  datatype Outbound = Outbound(verb: string, url: string, header: Header, body: seq<byte>)

  /** What the upstream call produced. The client parses any three-digit status, so a
      response status may lie anywhere in `[0, 999]`. */
  datatype Upstream = UpstreamFailure | UpstreamResponse(status: int, header: Header, body: seq<byte>)

  /** What the client receives. `NoResponse` is a handler that panicked before writing
      a status: the server recovers and drops the connection. */
  datatype Reply =
    | ErrorReply(status: int, message: string)
    | Relayed(status: int, header: Header, body: seq<byte>)
    | Redirect(status: int, location: string)
    | NoResponse

  /** `WriteHeader` accepts only status codes in `[100, 999]` and panics on any other. */
  predicate ValidStatus(code: int)
  {
    100 <= code <= 999
  }

  /** The reply, whether an outbound request was sent, and the registry afterwards. */
  datatype Exchange = Exchange(reply: Reply, sent: Option<Outbound>, pool: Pool)

  /** The request as replayed to backend `b`: same method, headers and body, sent to the
      backend's URL followed by the original request URI. */
  function ForwardTo(b: Backend, req: Request): (out: Outbound)
    ensures |out.url| == |b.url| + |req.requestURI|
    ensures out.url[..|b.url|] == b.url && out.url[|b.url|..] == req.requestURI
    ensures out.verb == req.verb && out.header == req.header && out.body == req.body
  {
    Outbound(req.verb, b.url + req.requestURI, req.header, req.body)
  }

  /** Handling one request on the secure listener: select a backend (one atomic step on
      the registry), then forward and relay. 503 when no backend is healthy, 502 when the
      upstream call fails, otherwise the upstream status, headers and body unchanged,
      unless `WriteHeader` rejects the upstream status, in which case the client gets no
      response. The outcome of the upstream call never touches any health flag. */
  function ProxyHandler(p: Pool, req: Request, upstream: Outbound -> Upstream): (x: Exchange)
    ensures x.pool == Select(p).pool
    ensures x.pool.backends == p.backends
    ensures x.sent.None? <==> NoneHealthy(p)
    ensures x.sent.None? ==> x.reply == ErrorReply(StatusServiceUnavailable, "Service Unavailable")
    ensures x.sent.Some? ==>
      && Select(p).selection.Picked?
      && x.sent.value == ForwardTo(p.backends[Select(p).selection.index], req)
      && IsHealthy(p, Select(p).selection.index)
    ensures x.sent.Some? && upstream(x.sent.value).UpstreamFailure? ==>
      x.reply == ErrorReply(StatusBadGateway, "Upstream Error")
    ensures x.sent.Some? && upstream(x.sent.value).UpstreamResponse? ==>
      var u := upstream(x.sent.value);
      x.reply == if ValidStatus(u.status) then Relayed(u.status, u.header, u.body) else NoResponse
  {
    var s := Select(p);
    match s.selection
    case NoHealthyBackend =>
      Exchange(ErrorReply(StatusServiceUnavailable, "Service Unavailable"), None, s.pool)
    case Picked(k) =>
      var out := ForwardTo(p.backends[k], req);
      var reply := match upstream(out)
        case UpstreamFailure => ErrorReply(StatusBadGateway, "Upstream Error")
        case UpstreamResponse(status, header, body) =>
          if ValidStatus(status) then Relayed(status, header, body) else NoResponse;
      Exchange(reply, Some(out), s.pool)
  }

  /** The client-visible status of the secure listener: 503 exactly when no backend is
      healthy; otherwise 502 when the upstream call failed, else the upstream status when
      `WriteHeader` accepts it, and no status at all when it does not. */
  lemma ClientStatus(p: Pool, req: Request, upstream: Outbound -> Upstream)
    ensures NoneHealthy(p) ==> ProxyHandler(p, req, upstream).reply.status == StatusServiceUnavailable
    ensures !NoneHealthy(p) ==>
      var k := Select(p).selection.index;
      var u := upstream(ForwardTo(p.backends[k], req));
      var reply := ProxyHandler(p, req, upstream).reply;
      if u.UpstreamFailure? then reply.ErrorReply? && reply.status == StatusBadGateway
      else if ValidStatus(u.status) then reply.Relayed? && reply.status == u.status
      else reply.NoResponse?
  {
  }

  /** The insecure listener's handler: every request it handles is answered with a
      permanent redirect to the same host and request URI under the `https` scheme. The
      `Location` value is the scheme followed by the host and the request URI, each with
      its bytes at or above 0x80 percent-escaped; so it is always ASCII, and it is the
      target verbatim exactly when host and request URI are ASCII. */
  function RedirectHTTP(req: Request): (r: Reply)
    ensures r.Redirect? && r.status == StatusMovedPermanently
    ensures IsAscii(r.location)
    ensures r.location == "https://" + req.host + req.requestURI <==> IsAscii(req.host) && IsAscii(req.requestURI)
    ensures r.location == "https://" + HexEscapeNonAscii(req.host) + HexEscapeNonAscii(req.requestURI)
    ensures IsAscii(req.host) && IsAscii(req.requestURI) ==>
      && |r.location| == |"https://"| + |req.host| + |req.requestURI|
      && r.location[..8] == "https://"
      && r.location[8..8 + |req.host|] == req.host
      && r.location[8 + |req.host|..] == req.requestURI
  {
    var target := "https://" + req.host + req.requestURI;
    TargetAscii(req.host, req.requestURI);
    EscapeKeepsOnlyAscii(target);
    EscapeTarget(req.host, req.requestURI);
    Redirect(StatusMovedPermanently, HexEscapeNonAscii(target))
  }

  /** The redirect target is ASCII exactly when its host and request URI are. */
  lemma TargetAscii(host: ByteString, uri: ByteString)
    ensures IsAscii("https://" + host + uri) <==> IsAscii(host) && IsAscii(uri)
  {
    var target := "https://" + host + uri;
    assert forall i :: 0 <= i < |host| ==> host[i] == target[8 + i];
    assert forall i :: 0 <= i < |uri| ==> uri[i] == target[8 + |host| + i];
  }

  /** The scheme prefix is plain ASCII, so escaping leaves it alone. */
  lemma SchemeIsAscii()
    ensures IsByteString("https://") && IsAscii("https://")
    ensures HexEscapeNonAscii("https://") == "https://"
  {
    SchemeBytes();
    EscapeKeepsOnlyAscii("https://");
  }

  /** The scheme prefix is made of bytes below 0x80. */
  lemma SchemeBytes()
    ensures IsByteString("https://") && IsAscii("https://")
  {
  }

  /** Escaping the redirect target escapes its host and its request URI separately
      and leaves the scheme alone. */
  lemma EscapeTarget(host: ByteString, uri: ByteString)
    ensures HexEscapeNonAscii("https://" + host + uri)
      == "https://" + HexEscapeNonAscii(host) + HexEscapeNonAscii(uri)
  {
    SchemeIsAscii();
    var scheme: ByteString := "https://";
    ConcatBytes(scheme, host);
    var front: ByteString := scheme + host;
    EscapeConcat(front, uri);
    EscapeConcat(scheme, host);
  }

  /** A byte at or above 0x80 alone is escaped to `%` and two hex digits. */
  lemma EscapeHighByte(c: char, hi: nat, lo: nat)
    requires c as int == 16 * hi + lo && 8 <= hi < 16 && lo < 16
    ensures HexEscapeNonAscii([c]) == ['%', HexDigit(hi), HexDigit(lo)]
  {
    assert [c][1..] == [];
    assert (c as int) / 16 == hi && (c as int) % 16 == lo;
    assert HexDigits(hi) == [HexDigit(hi)];
    assert HexDigits(c as int) == [HexDigit(hi), HexDigit(lo)];
    assert EscapeChar(c) == ['%', HexDigit(hi), HexDigit(lo)];
  }

  /** A non-ASCII request target is escaped byte by byte: a path ending in the two
      UTF-8 bytes of `é` (0xC3 0xA9) is redirected with those bytes written `%c3%a9`. */
  lemma RedirectEscapesNonAscii(host: ByteString, path: ByteString)
    requires IsAscii(host) && IsAscii(path)
    ensures RedirectHTTP(Request("GET", host, path + "\U{C3}\U{A9}", map[], [])).location
      == "https://" + host + path + "%c3%a9"
  {
    EAcuteEscape();
    ConcatBytes(path, "\U{C3}\U{A9}");
    EscapeConcat(path, "\U{C3}\U{A9}");
    EscapeKeepsOnlyAscii(host);
    EscapeKeepsOnlyAscii(path);
  }

  /** The two UTF-8 bytes of `é` escape to `%c3%a9`. */
  lemma EAcuteEscape()
    ensures IsByteString("\U{C3}\U{A9}")
    ensures HexEscapeNonAscii("\U{C3}\U{A9}") == "%c3%a9"
  {
    assert "\U{C3}\U{A9}" == ['\U{C3}'] + "\U{A9}";
    EscapeCons('\U{C3}', "\U{A9}");
    EscapeHighByte('\U{A9}', 10, 9);
    assert EscapeChar('\U{C3}') == "%c3";
  }
}

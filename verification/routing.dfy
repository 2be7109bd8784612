/**
 * The plain-HTTP side of src/main.rs: the request router that the HTTP
 * server calls for every request, and the conversion of argument-parsing
 * errors into the application's error type.
 */
module Routing {
  import opened Common

  /** A header as received: its name and its raw value bytes. */
  datatype Header = Header(name: string, value: seq<byte>)

  /** What the router looks at: the method (`verb`), the path part of the URI, and the headers in order. */
  datatype Request = Request(verb: string, path: string, headers: seq<Header>)

  /** `u8::to_ascii_lowercase` on characters: only A-Z change. */
  function AsciiLower(c: char): (r: char)
    ensures 'A' <= c <= 'Z' ==> r as int == c as int + 32
    ensures !('A' <= c <= 'Z') ==> r == c
  {
    if 'A' <= c <= 'Z' then (c as int + 32) as char else c
  }

  /** `str::eq_ignore_ascii_case`. */
  predicate EqIgnoreAsciiCase(a: string, b: string)
  {
    |a| == |b| && forall i :: 0 <= i < |a| ==> AsciiLower(a[i]) == AsciiLower(b[i])
  }

  /** The position of the first header called `name` (ignoring ASCII case), or |headers| if none is. */
  function FirstMatch(headers: seq<Header>, name: string): (i: nat)
    ensures i <= |headers|
    ensures forall j :: 0 <= j < i ==> !EqIgnoreAsciiCase(headers[j].name, name)
    ensures i < |headers| ==> EqIgnoreAsciiCase(headers[i].name, name)
  {
    if headers == [] then 0
    else if EqIgnoreAsciiCase(headers[0].name, name) then 0
    else
      var i := FirstMatch(headers[1..], name);
      assert forall j :: 1 <= j <= i ==> headers[j] == headers[1..][j - 1];
      1 + i
  }

  /** `HeaderMap::get`: the value of the first header called `name`, names compared without ASCII case. */
  function HeaderGet(headers: seq<Header>, name: string): (r: Option<seq<byte>>)
    ensures r.None? <==> forall i :: 0 <= i < |headers| ==> !EqIgnoreAsciiCase(headers[i].name, name)
    ensures r.Some? ==> r.value == headers[FirstMatch(headers, name)].value
  {
    var i := FirstMatch(headers, name);
    if i < |headers| then Some(headers[i].value) else None
  }

  /** The bytes of "websocket", the only `upgrade` header value that starts the WebSocket phase. */
  const WebSocketValue: seq<byte> := [119, 101, 98, 115, 111, 99, 107, 101, 116]

  /** The bytes of "404". */
  const NotFound: seq<byte> := [52, 48, 52]

  datatype Body = IndexPage | Fixed(bytes: seq<byte>)

  datatype Response = Response(status: nat, contentType: string, body: Body)

  /** The request asks to switch to WebSocket on the index path. */
  predicate IsUpgrade(req: Request)
  {
    req.verb == "GET" && req.path == "/" && HeaderGet(req.headers, "upgrade") == Some(WebSocketValue)
  }

  /**
   * The service passed to the HTTP server: the index page for GET /, an
   * error carrying "WebSocket" to break out of HTTP for an upgrade request,
   * and 404 for everything else.
   */
  function Service(req: Request): (r: Result<Response, string>)
    ensures r.Err? <==> IsUpgrade(req)
    ensures r.Err? ==> r.error == "WebSocket"
    ensures r.Ok? && req.verb == "GET" && req.path == "/" ==>
      r.value == Response(200, "text/html", IndexPage)
    ensures !(req.verb == "GET" && req.path == "/") ==>
      r == Ok(Response(404, "text/text", Fixed(NotFound)))
  {
    if req.verb == "GET" && req.path == "/" then
      match HeaderGet(req.headers, "upgrade")
      case Some(value) =>
        if value == WebSocketValue then Err("WebSocket")
        else Ok(Response(200, "text/html", IndexPage))
      case None => Ok(Response(200, "text/html", IndexPage))
    else
      Ok(Response(404, "text/text", Fixed(NotFound)))
  }

  /** Two header lists that differ only in the ASCII case of their names. */
  predicate SameButCase(hs: seq<Header>, gs: seq<Header>)
  {
    |hs| == |gs| &&
    forall i :: 0 <= i < |hs| ==> EqIgnoreAsciiCase(hs[i].name, gs[i].name) && hs[i].value == gs[i].value
  }

  /** Looking up a header does not depend on how the client capitalised header names. */
  lemma HeaderGetIgnoresCase(hs: seq<Header>, gs: seq<Header>, name: string)
    requires SameButCase(hs, gs)
    ensures HeaderGet(hs, name) == HeaderGet(gs, name)
  {
  }

  /** So routing, too, is the same however the client capitalised header names. */
  lemma ServiceIgnoresCase(req: Request, headers: seq<Header>)
    requires SameButCase(req.headers, headers)
    ensures Service(req) == Service(req.(headers := headers))
  {
  }

  /** Errors of the argument parser (src/args.rs); `ArgsIo` is its `IoError` variant. */
  datatype ArgsError = BadBindAddress | P12DecryptError | P12ParseError | ArgsIo(error: IoError)

  /** The application's error type: `FromArgs` is its `ArgsError` variant, `AppIo` its `IoError` variant. */
  datatype AppError = FromArgs(cause: ArgsError) | AppIo(error: IoError) | Other(message: string)

  /** `From<io::Error> for AppError`. */
  function FromIoError(e: IoError): AppError
  {
    AppIo(e)
  }

  /** `From<ArgsError> for AppError`: an I/O error is unwrapped, every other error is kept whole. */
  function FromArgsError(e: ArgsError): (r: AppError)
    ensures !r.Other?
    ensures r.AppIo? <==> e.ArgsIo?
    ensures e.ArgsIo? ==> r.error == e.error
    ensures !e.ArgsIo? ==> r.cause == e
  {
    match e
    case ArgsIo(err) => AppIo(err)
    case _ => FromArgs(e)
  }

  /** The two conversions agree on I/O errors, and no two argument errors convert alike. */
  lemma ConversionsAgree(e: IoError, a: ArgsError, b: ArgsError)
    ensures FromArgsError(ArgsIo(e)) == FromIoError(e)
    ensures FromArgsError(a) == FromArgsError(b) ==> a == b
  {
  }
}

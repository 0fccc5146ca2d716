/**
 * The per-connection decision logic of the server: from the decoded request
 * text to the one response written back (or none). The socket, the accept
 * loop and logging are outside this module: the decoded data is an input,
 * and what would be written to the connection is recorded in `sent`.
 */
module HttpServer {
  import opened Wrappers
  import opened Strings
  import opened HttpRequest
  import opened HttpResponse
  import opened Routing

  /** What `conn.recv(1024).decode()` produced for one connection. */
  datatype Received = Decoded(text: string) | Undecodable

  /** What one call of `handle_request` does with its connection. */
  datatype Outcome =
    | Silent                    // returns without writing anything
    | Sent(response: BuiltResponse)  // writes exactly this response
    | Raised                    // `send_response` raises: the handler returned a non-Response; nothing is written

  /** The `{'error': message}` content of the pipeline's own error responses. */
  function ErrorContent(message: string): Json
  {
    JObject(map["error" := JString(message)])
  }

  /** `send_response` applied to a handler's result. */
  function Deliver(result: HandlerResult): Outcome
  {
    match result
    case Returns(response) => Sent(response)
    case ReturnsOther => Raised
  }

  /** Route dispatch: the first matching route's handler, else 404. */
  function Dispatch(routes: seq<Route>, request: Request): Outcome
  {
    match FirstMatch(routes, request.httpMethod, request.path)
    case Some(i) => Deliver(routes[i].handler(request))
    case None => Sent(NewResponse(404, ErrorContent("Route not found")))
  }

  /** The authorization guard, then dispatch. `None` means no predicate is configured. */
  function Authorize(routes: seq<Route>, auth: Option<Headers -> bool>, request: Request): Outcome
  {
    if auth.Some? && !auth.value(request.headers) then Sent(NewResponse(403, ErrorContent("Forbidden")))
    else Dispatch(routes, request)
  }

  /** A `Content-Type` header is present and is not exactly `application/json`. */
  predicate BadContentType(headers: Headers)
  {
    "Content-Type" in headers && headers["Content-Type"] != "application/json"
  }

  /** `handle_request`: the empty-data check, the Content-Type guard, the authorization guard, then dispatch. */
  function Decide(routes: seq<Route>, auth: Option<Headers -> bool>, input: Received): Outcome
  {
    match input
    case Undecodable => Sent(NewResponse(400, ErrorContent("Invalid request format")))
    case Decoded(data) =>
      if data == "" then Silent
      else
        var request := Parse(data);
        if BadContentType(request.headers) then Sent(NewResponse(400, ErrorContent("Invalid Content-Type")))
        else Authorize(routes, auth, request)
  }

  /** The text written to the connection for an outcome. */
  function Written(outcome: Outcome, encode: Json -> string): seq<string>
  {
    if outcome.Sent? then [ToHttpResponse(outcome.response, encode)] else []
  }

  /** `STATUS_MESSAGES`, used only for log lines: unlike the response table it has 403. */
  function LogStatusText(code: int): (text: string)
    ensures code == 200 ==> text == "OK"
    ensures code == 400 ==> text == "Bad Request"
    ensures code == 403 ==> text == "Forbidden"
    ensures code == 404 ==> text == "Not Found"
    ensures code != 200 && code != 400 && code != 403 && code != 404 ==> text == "Unknown"
  {
    var table := map[200 := "OK", 400 := "Bad Request", 403 := "Forbidden", 404 := "Not Found"];
    if code in table then table[code] else "Unknown"
  }

  /**
   * A server with a fixed route table and optional authorization predicate.
   * `encode` stands for `json.dumps`; `sent` is what has been written to the
   * connections handled so far, in order.
   */
  class Server {
    const routes: seq<Route>
    const authHandler: Option<Headers -> bool>
    const encode: Json -> string
    var sent: seq<string>

    constructor (routes: seq<Route>, authHandler: Option<Headers -> bool>, encode: Json -> string)
      ensures this.routes == routes && this.authHandler == authHandler && this.encode == encode
      ensures sent == []
    {
      this.routes := routes;
      this.authHandler := authHandler;
      this.encode := encode;
      sent := [];
    }

    /** `send_response`: a non-Response raises (reported as `raised`); a Response is serialised and written. */
    method SendResponse(result: HandlerResult) returns (raised: bool)
      modifies this`sent
      ensures raised <==> result.ReturnsOther?
      ensures sent == old(sent) + (if result.Returns? then [ToHttpResponse(result.response, encode)] else [])
    {
      if result.ReturnsOther? {
        return true;
      }
      sent := sent + [ToHttpResponse(result.response, encode)];
      raised := false;
    }

    /** `handle_request` for one connection, as the guard sequence and route loop are written. */
    method HandleRequest(input: Received) returns (outcome: Outcome)
      modifies this`sent
      ensures outcome == Decide(routes, authHandler, input)
      ensures sent == old(sent) + Written(outcome, encode)
    {
      if input.Undecodable? {
        var response := NewResponse(400, ErrorContent("Invalid request format"));
        var raised := SendResponse(Returns(response));
        return Sent(response);
      }
      var data := input.text;
      if data == "" {
        return Silent;
      }
      var request := FromRaw(data);
      if "Content-Type" in request.headers && request.headers["Content-Type"] != "application/json" {
        var response := NewResponse(400, ErrorContent("Invalid Content-Type"));
        var raised := SendResponse(Returns(response));
        return Sent(response);
      }
      assert Decide(routes, authHandler, input) == Authorize(routes, authHandler, request);
      if authHandler.Some? && !authHandler.value(request.headers) {
        var response := NewResponse(403, ErrorContent("Forbidden"));
        var raised := SendResponse(Returns(response));
        return Sent(response);
      }
      assert Decide(routes, authHandler, input) == Dispatch(routes, request);
      var i := 0;
      while i < |routes|
        invariant 0 <= i <= |routes|
        invariant forall j :: 0 <= j < i ==> !routes[j].Matches(request.httpMethod, request.path)
        invariant sent == old(sent)
      {
        var route := routes[i];
        if route.Matches(request.httpMethod, request.path) {
          FirstMatchIs(routes, request.httpMethod, request.path, i);
          var result := route.handler(request);
          var raised := SendResponse(result);
          return if raised then Raised else Sent(result.response);
        }
        i := i + 1;
      }
      var response := NewResponse(404, ErrorContent("Route not found"));
      var raised := SendResponse(Returns(response));
      return Sent(response);
    }
  }

  // ---------------------------------------------------------------------
  // What the decision logic promises.

  /** Empty data: return without writing anything. */
  lemma EmptyInputIsSilent(routes: seq<Route>, auth: Option<Headers -> bool>)
    ensures Decide(routes, auth, Decoded("")) == Silent
  {
  }

  /**
   * One response per connection that sent data: nothing is written only for
   * empty data, or when the chosen handler returned a non-Response. Data
   * that could not be decoded gets 400 `Invalid request format`.
   */
  lemma OneResponsePerCall(routes: seq<Route>, auth: Option<Headers -> bool>, input: Received, encode: Json -> string)
    ensures Decide(routes, auth, input).Silent? <==> input == Decoded("")
    ensures |Written(Decide(routes, auth, input), encode)| == if Decide(routes, auth, input).Sent? then 1 else 0
    ensures Decide(routes, auth, input).Raised? ==>
      input.Decoded? && exists i :: 0 <= i < |routes| && routes[i].handler(Parse(input.text)).ReturnsOther?
    ensures input.Undecodable? ==>
      Decide(routes, auth, input) == Sent(NewResponse(400, ErrorContent("Invalid request format")))
  {
    if Decide(routes, auth, input).Raised? {
      var request := Parse(input.text);
      var i := FirstMatch(routes, request.httpMethod, request.path).value;
      assert routes[i].handler(request).ReturnsOther?;
    }
  }

  /**
   * Whatever is written reads back as `HTTP/1.1`, the response's code, the
   * response table's text for that code, the one Content-Type line and the
   * encoded content.
   */
  lemma WrittenResponseReadsBack(routes: seq<Route>, auth: Option<Headers -> bool>, input: Received, encode: Json -> string)
    requires Decide(routes, auth, input).Sent?
    ensures var r := Decide(routes, auth, input).response;
      Written(Decide(routes, auth, input), encode) == [ToHttpResponse(r, encode)]
      && ReadResponse(ToHttpResponse(r, encode))
         == Some(Reading("HTTP/1.1", r.statusCode, StatusText(r.statusCode), [ContentTypeLine], encode(r.content)))
  {
    BuiltResponseReadsBack(Decide(routes, auth, input).response, encode);
  }

  /** A non-JSON Content-Type gets 400 whatever the predicate and the routes are: this guard runs first. */
  lemma ContentTypeGuard(routes: seq<Route>, auth: Option<Headers -> bool>, data: string)
    requires data != "" && BadContentType(Parse(data).headers)
    ensures Decide(routes, auth, Decoded(data)) == Sent(NewResponse(400, ErrorContent("Invalid Content-Type")))
  {
  }

  /** No Content-Type, or exactly `application/json`, passes the guard to authorization. */
  lemma ContentTypeAdmitted(routes: seq<Route>, auth: Option<Headers -> bool>, data: string)
    requires data != ""
    requires "Content-Type" !in Parse(data).headers || Parse(data).headers["Content-Type"] == "application/json"
    ensures Decide(routes, auth, Decoded(data)) == Authorize(routes, auth, Parse(data))
  {
  }

  /** A configured predicate that refuses the headers gives 403 whatever the routes are: no handler runs. */
  lemma AuthorizationGuard(routes: seq<Route>, auth: Headers -> bool, request: Request)
    requires !auth(request.headers)
    ensures Authorize(routes, Some(auth), request) == Sent(NewResponse(403, ErrorContent("Forbidden")))
  {
  }

  /** Without a predicate nothing is refused at the authorization stage. */
  lemma OpenAccess(routes: seq<Route>, request: Request)
    ensures Authorize(routes, None, request) == Dispatch(routes, request)
  {
  }

  /** A predicate that refuses everything makes every request that passes the Content-Type guard a 403. */
  lemma DenyAllForbidsEverything(routes: seq<Route>, data: string)
    requires data != "" && !BadContentType(Parse(data).headers)
    ensures Decide(routes, Some((h: Headers) => false), Decoded(data))
         == Sent(NewResponse(403, ErrorContent("Forbidden")))
  {
  }

  /** The response is the first matching route's handler result; later routes are not consulted. */
  lemma DispatchToFirstMatch(routes: seq<Route>, request: Request, i: nat)
    requires i < |routes| && routes[i].Matches(request.httpMethod, request.path)
    requires forall j :: 0 <= j < i ==> !routes[j].Matches(request.httpMethod, request.path)
    ensures Dispatch(routes, request) == Deliver(routes[i].handler(request))
  {
    FirstMatchIs(routes, request.httpMethod, request.path, i);
  }

  /** No matching route: 404 `Route not found`. */
  lemma NoRouteIsNotFound(routes: seq<Route>, request: Request)
    requires forall j :: 0 <= j < |routes| ==> !routes[j].Matches(request.httpMethod, request.path)
    ensures Dispatch(routes, request) == Sent(NewResponse(404, ErrorContent("Route not found")))
  {
  }

  /**
   * Malformed data becomes the sentinel and is answered 404, unless the
   * predicate refuses empty headers or some route is registered for the
   * empty method and path.
   */
  lemma MalformedRequestIsNotFound(routes: seq<Route>, auth: Option<Headers -> bool>, data: string)
    requires data != "" && Parse(data) == Sentinel()
    requires auth.None? || auth.value(map[])
    requires forall j :: 0 <= j < |routes| ==> !routes[j].Matches("", "")
    ensures Decide(routes, auth, Decoded(data)) == Sent(NewResponse(404, ErrorContent("Route not found")))
  {
  }

  /** The 403 goes out with the status line `HTTP/1.1 403 Unknown`, since the response table lacks 403. */
  lemma ForbiddenOnTheWire(routes: seq<Route>, auth: Headers -> bool, data: string, encode: Json -> string)
    requires data != "" && !BadContentType(Parse(data).headers) && !auth(Parse(data).headers)
    ensures |Written(Decide(routes, Some(auth), Decoded(data)), encode)| == 1
    ensures ReadResponse(Written(Decide(routes, Some(auth), Decoded(data)), encode)[0])
         == Some(Reading("HTTP/1.1", 403, "Unknown", [ContentTypeLine], encode(ErrorContent("Forbidden"))))
  {
    var response := NewResponse(403, ErrorContent("Forbidden"));
    assert Decide(routes, Some(auth), Decoded(data)) == Sent(response);
    assert Written(Sent(response), encode) == [ToHttpResponse(response, encode)];
    ForbiddenIsUnknown(ErrorContent("Forbidden"), encode);
  }

  /**
   * `GET / HTTP/1.1` followed by a blank line, with a `GET /` route first
   * and no predicate, is answered by that route's handler, which sees no
   * headers and the empty body stored as `{}`.
   */
  lemma RootRequestReachesRootHandler(handler: Request -> HandlerResult, others: seq<Route>)
    ensures Decide([Route("GET", "/", handler)] + others, None, Decoded("GET / HTTP/1.1\r\n\r\n"))
         == Deliver(handler(Request("GET", "/", map[], EmptyDict)))
  {
    RootRequestParses();
    var routes := [Route("GET", "/", handler)] + others;
    DispatchToFirstMatch(routes, Request("GET", "/", map[], EmptyDict), 0);
  }

  lemma RootRequestParses()
    ensures Parse("GET / HTTP/1.1\r\n\r\n") == Request("GET", "/", map[], EmptyDict)
  {
    RootTokensAreWords();
    RootRequestComposes();
    ParseCompose("GET", "/", "HTTP/1.1", [], "");
  }

  lemma RootTokensAreWords()
    ensures IsWord("GET") && IsWord("/") && IsWord("HTTP/1.1")
  {
  }

  lemma RootRequestComposes()
    ensures Compose("GET", "/", "HTTP/1.1", [], "") == "GET / HTTP/1.1\r\n\r\n"
  {
    RootRequestLine();
    var line := Join(["GET", "/", "HTTP/1.1"], " ");
    assert HeadLines(line, []) == [line];
    assert Join([line], CRLF) == line;
    assert line + BlankLine + "" == "GET / HTTP/1.1\r\n\r\n";
  }

  lemma RootRequestLine()
    ensures Join(["GET", "/", "HTTP/1.1"], " ") == "GET / HTTP/1.1"
  {
    assert ["GET", "/", "HTTP/1.1"][1..] == ["/", "HTTP/1.1"];
    assert ["/", "HTTP/1.1"][1..] == ["HTTP/1.1"];
    assert Join(["/", "HTTP/1.1"], " ") == "/ HTTP/1.1";
  }

  /** The log table and the response table disagree only on 403. */
  lemma StatusTablesDifferOnlyAt403(code: int)
    ensures LogStatusText(code) == StatusText(code) <==> code != 403
  {
  }
}

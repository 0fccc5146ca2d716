# simple-http-server — a Dafny model of the request pipeline

This project models the part of the simple HTTP server that turns one
connection's decoded request text into at most one response written back.
It covers four pieces:

- **Request parsing** (`HttpRequest`): the request is split at the first
  blank line. The head is split into lines, and the request line is split on
  whitespace into method, path and version. Header lines are folded into a
  dictionary. Any malformed request becomes the empty sentinel request;
  parsing never raises.
- **Responses** (`HttpResponse`): a status code and a JSON content value. The
  status text is looked up once in a fixed table, and falsy content becomes
  `{}`. The serialisation is a status line, one `Content-Type:
  application/json` header, a blank line and the encoded content.
- **Routes** (`Routing`): a route binds an exact, case-sensitive (method,
  path) pair to a handler. A request goes to the first matching route in
  registration order.
- **The server's per-connection logic** (`HttpServer`): the `Server` class
  fixes the route table, the optional authorization predicate and the JSON
  encoder. It records in `sent` every response written so far.
  `HandleRequest` follows `handle_request` step by step:
  1. stop silently on empty data;
  2. answer 400 when a `Content-Type` header is present and is not
     `application/json`;
  3. answer 403 when the predicate refuses the headers;
  4. run the loop over the routes, which calls the first matching handler;
  5. otherwise answer 404.

  `SendResponse` implements `send_response`: it raises when a handler
  returned something other than a response, and otherwise appends the
  serialisation to `sent`.

`Strings` models the Python string operations the parser relies on:
- `str.find`;
- `split(sep, 1)` with two-name unpacking;
- `split(sep)`;
- argument-less `split()`.

Each is a function, and the lemmas state how it splits text built by joining.
`Wrappers` holds `Option`.

Each imperative piece is proved against a pure specification:
- `BuildHeaderDict` (the header loop) equals the fold `HeaderMap`.
- `FromRaw` equals `Parse`.
- `Server.HandleRequest` returns the decision function `Decide`, and appends
  exactly `Written(Decide(...))` to `sent`.

The lemmas state what the source promises about those functions.

Two quirks of the code are kept on purpose:
- The response table in `response.py` has no entry for 403. The 403 that the
  authorization guard sends therefore goes out as `HTTP/1.1 403 Unknown`; see
  `ForbiddenIsUnknown` and `ForbiddenOnTheWire`. Only the server's log
  table, `STATUS_MESSAGES`, has 403 (`StatusTablesDifferOnlyAt403`).
- `body or {}` stores an empty body, including the sentinel's `''`, as an
  empty dictionary (`Body.EmptyDict`).

## Model

| member | source | states |
|---|---|---|
| Strings.IndexOf | request.py:39 | `str.find`: a result is an occurrence of the separator with none starting earlier; no result means the separator occurs nowhere |
| Strings.SplitOnce | request.py:39 | `split(sep, 1)` unpacked into two names fails exactly when the separator is absent; otherwise the text is head + separator + tail, and the head starts no occurrence |
| Strings.Split | request.py:40 | `split(sep)` gives at least one piece, no piece holds the separator, and joining the pieces with it gives the text back |
| Strings.Words | request.py:41 | every token of `split()` is non-empty and free of whitespace; `WordsOfSpaced` and `SpacedWords` pin the tokens down as the maximal non-whitespace runs, in order |
| Strings.WordsOfSpaced | request.py:41 | words with any whitespace runs before, between (non-empty) and after them split back into exactly those words |
| Strings.SpacedWords | request.py:41 | every text is its `split()` tokens with whitespace runs before, between (non-empty) and after them, so the tokens are its maximal non-whitespace runs in order |
| Strings.WordsOfJoin | request.py:41 | whitespace-free words joined by single spaces split back into exactly those words |
| Strings.SplitJoinedLines | request.py:40 | lines without line breaks, joined by CRLF, split back into exactly those lines |
| Strings.BlankLineEndsHead | request.py:39 | in a head whose lines hold no line break and whose later lines are not empty, the first blank line is the one right after the head |
| HttpRequest.NewRequest | request.py:12-25 | method and path are stored as given; a missing header map becomes empty; the body is `{}` exactly when it is missing or empty, and is kept otherwise |
| HttpRequest.Sentinel | request.py:51 | the failure result is method `''`, path `''`, no headers and body `{}` |
| HttpRequest.SplitField | request.py:45-46 | a line has no field exactly when it lacks `": "`; otherwise the line is name + `": "` + value, and the name holds no `": "` |
| HttpRequest.HeaderMap | request.py:43-47 | the fold of the header loop; no contract of its own: `BuildHeaderDict` is proved equal to it, and `HeaderMapKeys`, `LastOccurrenceWins`, `LineWithoutSeparatorSkipped` and `HeaderMapOfFields` state what it holds |
| HttpRequest.Store | request.py:45-47 | one iteration of the header loop; no contract of its own: `StoreKeys`, `StoreValue` and `StoreSkips` state its effect, which `HeaderMapKeys` and `LastOccurrenceWins` carry to the whole loop |
| HttpRequest.BuildHeaderDict | request.py:43-47 | the header loop builds exactly the left fold `HeaderMap` of the header lines |
| HttpRequest.Parse | request.py:28-51 | the result is the sentinel, or its method and path are whitespace-free non-empty tokens; the method is empty exactly for the sentinel |
| HttpRequest.FromRaw | request.py:28-51 | `from_raw`, with its header loop run as a loop, returns exactly `Parse` of the input, and never fails |
| HttpRequest.SentinelExactlyOnFailure | request.py:38-51 | the sentinel comes back exactly when the input has no blank line or its request line is not three tokens |
| HttpRequest.LooseRequestLineTokens | request.py:41 | `GET  /<TAB>HTTP/1.1 `, with doubled spaces, a tab and a trailing space, still gives the three tokens `GET`, `/`, `HTTP/1.1` |
| HttpRequest.NoBlankLineGivesSentinel | request.py:39 | input without `\r\n\r\n` parses to the empty sentinel |
| HttpRequest.BodyFollowsFirstBlankLine | request.py:39 | the body is everything after the FIRST blank line, later blank lines included; an empty remainder is stored as `{}` |
| HttpRequest.LineWithoutSeparatorSkipped | request.py:44-45 | removing a header line without `": "` from anywhere in the list leaves the header map unchanged |
| HttpRequest.HeaderMapKeys | request.py:43-47 | a name is in the header map exactly when some header line carries it |
| HttpRequest.LastOccurrenceWins | request.py:46-47 | for a repeated name, the map holds the value of the last line that carries it |
| HttpRequest.SplitFieldLine | request.py:46 | `name: value`, with no `": "` in the name, splits back into that name and value even when the value holds `": "` |
| HttpRequest.HeaderMapOfFields | request.py:43-47 | folding the lines of sendable fields gives the field map in which later fields overwrite earlier ones |
| HttpRequest.ParseCompose | request.py:39-49 | parsing `M P V`, CRLF-joined `name: value` lines, a blank line and a body recovers M, P, the header map (last duplicate wins) and the body; V is dropped |
| HttpResponse.StatusText | response.py:24 | 200, 400 and 404 give `OK`, `Bad Request` and `Not Found`; every other code, 403 included, gives `Unknown`; the text has no line break |
| HttpResponse.Falsy | response.py:25 | the values `content or {}` replaces: `None`, `False`, `0`, `''`, `[]` and `{}`; no contract of its own: `NewResponse` states the replacement |
| HttpResponse.NewResponse | response.py:15-25 | the code is kept and the text comes from the table; truthy content is kept; falsy content becomes `{}`; the result is a `BuiltResponse` |
| HttpResponse.IntToDecimal | response.py:34 | `str(code)` is a non-empty string of digits and a sign; `DecimalRoundTrip` states that it reads back as the code |
| HttpResponse.DecimalRoundTrip | response.py:34 | the decimal text `str(code)` reads back as the code |
| HttpResponse.ToHttpResponse | response.py:27-37 | `to_http_response`; no contract of its own: `WireShape`, `ResponseSplits`, `ReadBack` and `BuiltResponseReadsBack` state what it produces |
| HttpResponse.WireShape | response.py:34-37 | the serialisation is the status line and the Content-Type line, CRLF-joined, then a blank line, then the encoded content |
| HttpResponse.ResponseSplits | response.py:34-36 | the first blank line of the serialisation sits right after the Content-Type line, and everything after it is the encoded content |
| HttpResponse.StatusLineSplits | response.py:34 | the status line splits at its first two spaces into `HTTP/1.1`, `str(code)` and the status text |
| HttpResponse.ReadBack | response.py:27-37 | a client reads every serialised response whose status text has no line break back as `HTTP/1.1`, its code, its status text, exactly one header line (the Content-Type line) and the encoded content as the body |
| HttpResponse.BuiltResponseReadsBack | response.py:15-37 | every response the constructor builds reads back as `HTTP/1.1`, its code, the table's text for that code, the one Content-Type line and its encoded content |
| HttpResponse.ForbiddenIsUnknown | response.py:13 | a 403 response has the status line `HTTP/1.1 403 Unknown`, and reads back that way |
| Routing.Route.Matches | route.py:39 | `matches`: exact equality on method and path; no contract of its own: `NoCaseFolding`, `NoTrailingSlashNormalisation` and `FirstMatch` state its consequences |
| Routing.FirstMatch | server.py:131-136 | the chosen index matches, and no earlier route matches; no index means no route matches |
| Routing.FirstMatchIs | server.py:131-136 | a matching route with no matching route before it is the one chosen |
| Routing.EarlierDuplicateWins | server.py:131-136 | of two routes on the same pair, the later one is never chosen |
| Routing.NoCaseFolding | route.py:39 | `get` does not match a `GET` route |
| Routing.NoTrailingSlashNormalisation | route.py:39 | `/about/` does not match an `/about` route |
| HttpServer.Server.constructor | server.py:57-58 | the routes and the authorization predicate are stored as given, and nothing has been sent |
| HttpServer.Server.SendResponse | server.py:143-156 | a non-Response result raises and writes nothing; a Response appends exactly its serialisation to what was sent |
| HttpServer.Server.HandleRequest | server.py:96-141 | the outcome is `Decide` of the input, and what is written is exactly the serialisation of the response sent, or nothing |
| HttpServer.Decide | server.py:104-141 | what `handle_request` sends; no contract of its own: `HandleRequest` is proved equal to it, and the lemmas below state its promises |
| HttpServer.BadContentType | server.py:112 | the Content-Type guard's condition; no contract of its own: `ContentTypeGuard` and `ContentTypeAdmitted` state both sides of it |
| HttpServer.Authorize | server.py:124-128 | the authorization guard, then dispatch; no contract of its own: `AuthorizationGuard`, `OpenAccess` and `DenyAllForbidsEverything` state it |
| HttpServer.Dispatch | server.py:131-141 | the route loop and the 404 fallback; no contract of its own: `DispatchToFirstMatch`, `NoRouteIsNotFound` and `Routing.FirstMatch` state it |
| HttpServer.Deliver | server.py:154-156 | `send_response` on a handler's result; no contract of its own: `Server.SendResponse` and `OneResponsePerCall` state it |
| HttpServer.LogStatusText | server.py:12-17 | `STATUS_MESSAGES.get(code, 'Unknown')`: 200, 400, 403 and 404 give `OK`, `Bad Request`, `Forbidden` and `Not Found`; every other code gives `Unknown` |
| HttpServer.WrittenResponseReadsBack | server.py:143-156 | whatever one call writes is a single serialised response that reads back as `HTTP/1.1`, its code, the response table's text for that code, the Content-Type line and the encoded content |
| HttpServer.EmptyInputIsSilent | server.py:106-108 | empty data writes nothing |
| HttpServer.OneResponsePerCall | server.py:104-141 | nothing is written only for empty data or a handler returning a non-Response; otherwise exactly one response is written; a decode failure gets 400 `Invalid request format` |
| HttpServer.ContentTypeGuard | server.py:112-116 | a `Content-Type` other than `application/json` gives 400 `Invalid Content-Type`, whatever the predicate and the routes are |
| HttpServer.ContentTypeAdmitted | server.py:112-124 | no `Content-Type`, or exactly `application/json`, passes on to the authorization stage |
| HttpServer.AuthorizationGuard | server.py:124-128 | a predicate that refuses the headers gives 403 `Forbidden`, whatever the routes are |
| HttpServer.OpenAccess | server.py:124 | without a predicate the authorization stage passes every request on to dispatch |
| HttpServer.DenyAllForbidsEverything | server.py:112-128 | a predicate that refuses everything answers 403 to every request that passes the Content-Type guard |
| HttpServer.DispatchToFirstMatch | server.py:131-136 | the outcome is the first matching route's handler result; later routes are not consulted |
| HttpServer.NoRouteIsNotFound | server.py:139-141 | no matching route gives 404 `Route not found` |
| HttpServer.MalformedRequestIsNotFound | server.py:110-141 | malformed data is answered 404, unless the predicate refuses empty headers or a route is registered for method `''` and path `''` |
| HttpServer.ForbiddenOnTheWire | server.py:124-126 | a refused request writes exactly one response, which reads back as `HTTP/1.1 403 Unknown` with the encoded `{"error": "Forbidden"}` body |
| HttpServer.RootRequestReachesRootHandler | server.py:110-136 | `GET / HTTP/1.1` and a blank line, with a `GET /` route first and no predicate, reaches that route's handler with no headers and body `{}` |
| HttpServer.StatusTablesDifferOnlyAt403 | server.py:12-17 | the log table and the response table give the same text for every code except 403 |

## Left out

- Sockets and the accept loop are not modelled. This covers `Server.start`, `signal_handler`, `shutdown`, the socket setup in `__init__`, `recv(1024)` and `sendall`. These are I/O, timeouts and asynchronous signals. The decoded text of one connection is the input (`Received`), and what `sendall` would write is appended to `sent`.
- UTF-8 encoding and decoding: a decode failure is just the input `Undecodable`. The 400 it gets is modelled. Right after that 400, the source's log line uses the unbound `request`, and the resulting crash is not modelled.
- Host and port: they only configure the socket.
- `log_message`, the timestamps and the log lines: output formatting only. `STATUS_MESSAGES` appears only through `LogStatusText`, for comparison with the response table.
- `json.dumps`: a library function. It is the parameter `encode` of the server and of the serialisation, so JSON escaping and formatting are not modelled. A JSON object is a `map`, so the insertion order of a dictionary's keys, which `json.dumps` follows, is not modelled either. Nor is re-parsing the body back into the content: the model proves only that the body is `encode` of the content.
- JSON floating-point numbers: not part of `Json`.
- A handler's response is a `BuiltResponse`, one the `Response` constructor builds; a response whose fields a handler changes after construction is not modelled.
- Handlers and the authorization predicate are total functions given as parameters. An exception raised inside one is not modelled. A handler's non-Response return value is modelled as `ReturnsOther`.
- The example handlers `handle_root`, `handle_about`, `custom_auth_handler` and the `__main__` wiring: demonstration code.
- `str.split()` whitespace: `Strings.IsSpace` fixes the set as the code points for which Python's `str.isspace()` holds.
- `Route.__init__` and `Route.matches` are a datatype constructor and a pure predicate. They store the fields unchanged and change nothing by construction, so no separate lemma states it. The same holds for `to_http_response`, which is a function of the response.
- Python's dynamic typing beyond the handler result: method, path, headers and body are always strings and a string map.

/**
 * The route table: each route binds an exact (method, path) pair to a
 * handler, and a request is dispatched to the first route, in registration
 * order, whose pair equals the request's.
 */
module Routing {
  import opened Wrappers
  import opened HttpRequest
  import opened HttpResponse

  /**
   * What a handler hands back: a response built by the `Response`
   * constructor, or, since Python does not check a handler's return type,
   * something that is not a `Response` at all.
   */
  datatype HandlerResult = Returns(response: BuiltResponse) | ReturnsOther

  /** A route; the constructor stores the method, path and handler as given. */
  datatype Route = Route(httpMethod: string, path: string, handler: Request -> HandlerResult)
  {
    /** `Route.matches`: exact, case-sensitive equality on both method and path. */
    predicate Matches(m: string, p: string)
    {
      httpMethod == m && path == p
    }
  }

  /** The index of the first route that matches, scanning in registration order. */
  function FirstMatch(routes: seq<Route>, m: string, p: string): (r: Option<nat>)
    ensures r.Some? ==> r.value < |routes| && routes[r.value].Matches(m, p)
    ensures r.Some? ==> forall j :: 0 <= j < r.value ==> !routes[j].Matches(m, p)
    ensures r.None? <==> forall j :: 0 <= j < |routes| ==> !routes[j].Matches(m, p)
    decreases |routes|
  {
    if routes == [] then None
    else if routes[0].Matches(m, p) then Some(0)
    else
      match FirstMatch(routes[1..], m, p)
      case None => None
      case Some(k) => Some(k + 1)
  }

  /** A route that matches and is preceded by no matching route is the one chosen. */
  lemma FirstMatchIs(routes: seq<Route>, m: string, p: string, i: nat)
    requires i < |routes| && routes[i].Matches(m, p)
    requires forall j :: 0 <= j < i ==> !routes[j].Matches(m, p)
    ensures FirstMatch(routes, m, p) == Some(i)
  {
  }

  /** Of two routes for the same pair, the later one is never chosen. */
  lemma EarlierDuplicateWins(routes: seq<Route>, i: nat, j: nat)
    requires i < j < |routes|
    requires routes[i].httpMethod == routes[j].httpMethod && routes[i].path == routes[j].path
    ensures FirstMatch(routes, routes[j].httpMethod, routes[j].path).Some?
    ensures FirstMatch(routes, routes[j].httpMethod, routes[j].path).value <= i
  {
  }

  /** Matching does not fold case: a `get` request does not match a `GET` route. */
  lemma NoCaseFolding(path: string, handler: Request -> HandlerResult)
    ensures !Route("GET", path, handler).Matches("get", path)
  {
  }

  /** Matching does not normalise paths: `/about/` does not match an `/about` route. */
  lemma NoTrailingSlashNormalisation(handler: Request -> HandlerResult)
    ensures !Route("GET", "/about", handler).Matches("GET", "/about/")
  {
  }
}

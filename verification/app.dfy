/** The application of lib.rs: the ordered route table, the error handlers by status code,
    and the decision `handle` takes for each request. Handlers are opaque: the model says
    which handler is invoked and with which request and response, and which fixed answer the
    dispatcher or a default handler sends. */
module App {
  import opened Wrappers
  import opened Strings
  import opened Http
  import opened Routing
  import opened Jars
  import Requests
  import Responses
  import RoutingProofs

  datatype Rask = Rask(routes: seq<Route>, errorHandlers: map<StatusCode, Handler>, secret: string)

  /** What every application built by the operations below satisfies: the two error handlers
      the dispatcher looks up are present (so the source's map indexing cannot panic), and
      every route holds a compiled pattern. */
  predicate Valid(app: Rask) {
    StatusNotFound in app.errorHandlers && StatusInternalServerError in app.errorHandlers
    && forall i :: 0 <= i < |app.routes| ==> Canonical(app.routes[i].pattern)
  }

  /** `Rask::new(secret)`: no routes, and the default handlers for 404 and 500. */
  function New(secret: string): (app: Rask)
    ensures Valid(app)
    ensures app.routes == [] && app.secret == secret
    ensures app.errorHandlers.Keys == {StatusNotFound, StatusInternalServerError}
    ensures app.errorHandlers[StatusNotFound] == DefaultNotFoundHandler
    ensures app.errorHandlers[StatusInternalServerError] == DefaultInternalErrorHandler
  {
    Rask([], map[StatusNotFound := DefaultNotFoundHandler,
                 StatusInternalServerError := DefaultInternalErrorHandler], secret)
  }

  /** `register(route, handler)`: appends a route for every method. The source panics when
      the template does not compile; here that is the failure. */
  function Register(app: Rask, template: string, handler: Handler): (r: Result<Rask, CompileError>)
    ensures r.Success? <==> Compile(template).Success?
    ensures r.Failure? ==> r.error == Compile(template).error
    ensures r.Success? ==>
              r.value.routes == app.routes + [Route(Compile(template).value, handler, [])]
    ensures r.Success? ==> r.value.errorHandlers == app.errorHandlers && r.value.secret == app.secret
    ensures r.Success? && Valid(app) ==> Valid(r.value)
  {
    var route :- NewRoute(template, handler);
    Success(app.(routes := app.routes + [route]))
  }

  /** `register_with_methods(route, methods, handler)`: appends a route restricted to the
      given methods (an empty list accepts every method). */
  function RegisterWithMethods(app: Rask, template: string, methods: seq<Method>, handler: Handler)
    : (r: Result<Rask, CompileError>)
    ensures r.Success? <==> Compile(template).Success?
    ensures r.Failure? ==> r.error == Compile(template).error
    ensures r.Success? ==>
              r.value.routes == app.routes + [Route(Compile(template).value, handler, methods)]
    ensures r.Success? ==> r.value.errorHandlers == app.errorHandlers && r.value.secret == app.secret
    ensures r.Success? && Valid(app) ==> Valid(r.value)
  {
    var route :- RouteWithMethods(template, handler, methods);
    Success(app.(routes := app.routes + [route]))
  }

  /** `register_error_handler(status, handler)`: installs or replaces the handler for one
      status code; only 404 and 500 are ever looked up. */
  function RegisterErrorHandler(app: Rask, status: StatusCode, handler: Handler): (r: Rask)
    ensures r.errorHandlers.Keys == app.errorHandlers.Keys + {status}
    ensures r.errorHandlers[status] == handler
    ensures forall c :: c in app.errorHandlers && c != status ==> r.errorHandlers[c] == app.errorHandlers[c]
    ensures r.routes == app.routes && r.secret == app.secret
    ensures Valid(app) ==> Valid(r)
  {
    app.(errorHandlers := app.errorHandlers[status := handler])
  }

  // ---------------------------------------------------------------------------
  // Route lookup (find_route)
  // ---------------------------------------------------------------------------

  datatype RouteResult = Found(index: nat) | MethodNotAllowed | NotFound

  predicate NoMatchBefore(routes: seq<Route>, path: string, i: int) {
    forall j :: 0 <= j < i && j < |routes| ==> !Matches(routes[j].pattern, path)
  }

  /** Reference reading of the scan: route `i` is the first whose pattern matches. */
  predicate IsFirstMatch(routes: seq<Route>, path: string, i: int) {
    0 <= i < |routes| && Matches(routes[i].pattern, path) && NoMatchBefore(routes, path, i)
  }

  function FindRouteFrom(routes: seq<Route>, path: string, verb: Method, i: nat): (r: RouteResult)
    requires i <= |routes| && NoMatchBefore(routes, path, i)
    ensures r.Found? ==> IsFirstMatch(routes, path, r.index) && Allows(routes[r.index], verb)
    ensures r.MethodNotAllowed? ==>
              exists j :: IsFirstMatch(routes, path, j) && !Allows(routes[j], verb)
    ensures r.NotFound? ==> NoMatchBefore(routes, path, |routes|)
    decreases |routes| - i
  {
    if i == |routes| then NotFound
    else if Matches(routes[i].pattern, path) then
      if Allows(routes[i], verb) then Found(i) else MethodNotAllowed
    else FindRouteFrom(routes, path, verb, i + 1)
  }

  /** `find_route`: the first route whose pattern matches decides; its method list gives
      `Found` or `MethodNotAllowed`, and later routes are never consulted. */
  function FindRoute(routes: seq<Route>, path: string, verb: Method): (r: RouteResult)
    ensures r.Found? <==>
              exists i :: IsFirstMatch(routes, path, i) && Allows(routes[i], verb)
    ensures r.Found? ==> IsFirstMatch(routes, path, r.index) && Allows(routes[r.index], verb)
    ensures r.MethodNotAllowed? <==>
              exists i :: IsFirstMatch(routes, path, i) && !Allows(routes[i], verb)
    ensures r.NotFound? <==> forall i :: 0 <= i < |routes| ==> !Matches(routes[i].pattern, path)
  {
    var r := FindRouteFrom(routes, path, verb, 0);
    assert forall i, j :: IsFirstMatch(routes, path, i) && IsFirstMatch(routes, path, j) ==> i == j;
    r
  }

  /** Routes after the first matching one never change the outcome. */
  lemma FindRouteIgnoresLater(routes: seq<Route>, extra: seq<Route>, path: string, verb: Method)
    requires !FindRoute(routes, path, verb).NotFound?
    ensures FindRoute(routes + extra, path, verb) == FindRoute(routes, path, verb)
  {
    var all := routes + extra;
    var i :| 0 <= i < |routes| && Matches(routes[i].pattern, path);
    var first :| IsFirstMatch(routes, path, first) by {
      FirstMatchExists(routes, path, i);
    }
    assert IsFirstMatch(all, path, first);
  }

  lemma {:induction false} FirstMatchExists(routes: seq<Route>, path: string, i: nat)
    requires i < |routes| && Matches(routes[i].pattern, path)
    ensures exists j :: IsFirstMatch(routes, path, j)
    decreases i
  {
    if !NoMatchBefore(routes, path, i) {
      var j :| 0 <= j < i && !(!Matches(routes[j].pattern, path));
      FirstMatchExists(routes, path, j);
    } else {
      assert IsFirstMatch(routes, path, i);
    }
  }

  /** The outcome a single route gives on its own, were it at position `index`. */
  function SoleOutcome(route: Route, index: nat, path: string, verb: Method): RouteResult {
    if !Matches(route.pattern, path) then NotFound
    else if Allows(route, verb) then Found(index)
    else MethodNotAllowed
  }

  /** Appending a route keeps every outcome the table already gave except `NotFound`, which
      the new route alone now decides. */
  lemma AppendRouteOutcome(routes: seq<Route>, route: Route, path: string, verb: Method)
    ensures !FindRoute(routes, path, verb).NotFound? ==>
              FindRoute(routes + [route], path, verb) == FindRoute(routes, path, verb)
    ensures FindRoute(routes, path, verb).NotFound? ==>
              FindRoute(routes + [route], path, verb) == SoleOutcome(route, |routes|, path, verb)
  {
    var all := routes + [route];
    if !FindRoute(routes, path, verb).NotFound? {
      FindRouteIgnoresLater(routes, [route], path, verb);
    } else {
      assert forall j :: 0 <= j < |routes| ==> all[j] == routes[j];
      assert all[|routes|] == route;
      if Matches(route.pattern, path) {
        assert IsFirstMatch(all, path, |routes|);
      }
    }
  }

  /** Registering keeps every outcome the application already gave except `NotFound`. */
  lemma RegisterKeepsEarlierOutcomes(app: Rask, template: string, methods: seq<Method>,
                                     handler: Handler, path: string, verb: Method)
    requires RegisterWithMethods(app, template, methods, handler).Success?
    ensures var app' := RegisterWithMethods(app, template, methods, handler).value;
            var route := Route(Compile(template).value, handler, methods);
            (!FindRoute(app.routes, path, verb).NotFound? ==>
               FindRoute(app'.routes, path, verb) == FindRoute(app.routes, path, verb)) &&
            (FindRoute(app.routes, path, verb).NotFound? ==>
               FindRoute(app'.routes, path, verb) == SoleOutcome(route, |app.routes|, path, verb))
  {
    AppendRouteOutcome(app.routes, Route(Compile(template).value, handler, methods), path, verb);
  }

  // ---------------------------------------------------------------------------
  // Request targets (get_path_and_query_string)
  // ---------------------------------------------------------------------------

  /** What the URL library's `parse_path` returns for an absolute path: the path segments and
      the optional query string, or a parse error. */
  datatype PathParse = Parsed(segments: seq<string>, query: Option<string>) | Unparsable

  /** The request target forms of the HTTP library; only an absolute path is served. */
  datatype RequestUri =
    | AbsolutePath(parse: PathParse)
    | AbsoluteUri(uri: string)
    | Authority(authority: string)
    | Star

  /** `path.iter().fold("", |a, b| a + "/" + b)`. */
  function FoldPath(segments: seq<string>): string
    decreases |segments|
  {
    if segments == [] then ""
    else FoldPath(segments[..|segments| - 1]) + "/" + segments[|segments| - 1]
  }

  /** The folded path is the segments, each preceded by `/`. */
  lemma {:induction false} FoldPathJoin(segments: seq<string>)
    ensures FoldPath(segments) == Join([""] + segments, '/')
    decreases |segments|
  {
    if segments != [] {
      var init, last := segments[..|segments| - 1], segments[|segments| - 1];
      FoldPathJoin(init);
      JoinSnoc([""] + init, last, '/');
      assert [""] + init + [last] == [""] + segments;
    }
  }

  /** Separator-free segments can be read back from the folded path. */
  lemma FoldPathSplit(segments: seq<string>)
    requires forall i :: 0 <= i < |segments| ==> '/' !in segments[i]
    ensures Split(FoldPath(segments), '/') == [""] + segments
  {
    FoldPathJoin(segments);
    var pieces := [""] + segments;
    forall i | 0 <= i < |pieces| ensures '/' !in pieces[i] {
      if i > 0 { assert pieces[i] == segments[i - 1]; }
    }
    SplitJoin(pieces, '/');
  }

  /** `get_path_and_query_string`: only an absolute path that the URL library parses gives
      a path and query; every other target is refused. */
  function GetPathAndQueryString(uri: RequestUri): (r: Option<(string, Option<string>)>)
    ensures r.Some? <==> uri.AbsolutePath? && uri.parse.Parsed?
    ensures r.Some? ==> r.value.0 == Join([""] + uri.parse.segments, '/')
    ensures r.Some? ==> r.value.1 == uri.parse.query
  {
    match uri
    case AbsolutePath(Parsed(segments, query)) =>
      FoldPathJoin(segments);
      Some((FoldPath(segments), query))
    case _ => None
  }

  // ---------------------------------------------------------------------------
  // Dispatch (the HTTP handler of Rask)
  // ---------------------------------------------------------------------------

  /** What one request leads to: a handler invoked with a request and a response, or a fixed
      answer the dispatcher sends itself. */
  datatype Action =
    | Invoke(handler: Handler, request: Requests.Request, response: Responses.Response)
    | Send(body: string, status: StatusCode)

  const MethodNotAllowedBody: string := "405 Method Not Allowed"

  /** The response every handler receives: status 200, nothing written, and the jar read
      from the request's `Cookie` header (already decoded with the application secret) or a
      new empty jar when there is none. */
  function HandlerResponse(inbound: Option<Jar>): (r: Responses.Response)
    ensures r.status == StatusOk && r.body == "" && r.headers == map[]
    ensures r.jar == Some(if inbound.Some? then inbound.value else Empty)
  {
    Responses.New().(jar := Some(if inbound.Some? then inbound.value else Empty))
  }

  /** `handle(req, res)`: the decision taken for a request with the given method, target and
      decoded `Cookie` header. The lemmas after it state each branch. */
  function Handle(app: Rask, verb: Method, uri: RequestUri, inbound: Option<Jar>): (a: Action)
    requires Valid(app)
    ensures a.Invoke? ==> a.response == HandlerResponse(inbound)
    ensures a.Send? ==> a == Send(MethodNotAllowedBody, StatusMethodNotAllowed)
  {
    var response := HandlerResponse(inbound);
    match GetPathAndQueryString(uri)
    case None =>
      Invoke(app.errorHandlers[StatusInternalServerError], Requests.New(None, None, None), response)
    case Some((path, query)) =>
      match FindRoute(app.routes, path, verb)
      case Found(i) =>
        var route := app.routes[i];
        Invoke(route.handler, Requests.New(CaptureVars(route.pattern, path), Some(path), query), response)
      case MethodNotAllowed =>
        Send(MethodNotAllowedBody, StatusMethodNotAllowed)
      case NotFound =>
        Invoke(app.errorHandlers[StatusNotFound], Requests.New(None, Some(path), query), response)
  }

  /** A target the URL library cannot split goes to the 500 handler with an empty request. */
  lemma HandleBadTarget(app: Rask, verb: Method, uri: RequestUri, inbound: Option<Jar>)
    requires Valid(app) && GetPathAndQueryString(uri).None?
    ensures Handle(app, verb, uri, inbound)
            == Invoke(app.errorHandlers[StatusInternalServerError],
                      Requests.Request(None, map[], map[]), HandlerResponse(inbound))
  {
  }

  /** The first matching route refuses the method: the dispatcher answers 405 itself. */
  lemma HandleMethodNotAllowed(app: Rask, verb: Method, uri: RequestUri, inbound: Option<Jar>)
    requires Valid(app) && GetPathAndQueryString(uri).Some?
    ensures var path := GetPathAndQueryString(uri).value.0;
            Handle(app, verb, uri, inbound).Send? <==>
              exists i :: IsFirstMatch(app.routes, path, i) && !Allows(app.routes[i], verb)
  {
  }

  /** The first matching route accepts the method: its handler runs with the path, the
      decoded query string and exactly the route's named captures. */
  lemma HandleFound(app: Rask, verb: Method, uri: RequestUri, inbound: Option<Jar>, i: nat)
    requires Valid(app) && GetPathAndQueryString(uri).Some?
    requires IsFirstMatch(app.routes, GetPathAndQueryString(uri).value.0, i)
    requires Allows(app.routes[i], verb)
    ensures var (path, query) := GetPathAndQueryString(uri).value;
            var a := Handle(app, verb, uri, inbound);
            a.Invoke? && a.handler == app.routes[i].handler
            && a.request == Requests.New(CaptureVars(app.routes[i].pattern, path), Some(path), query)
            && a.request.path == Some(path)
            && a.request.vars.Keys == Names(app.routes[i].pattern)
  {
    var path := GetPathAndQueryString(uri).value.0;
    assert FindRoute(app.routes, path, verb) == Found(i);
    CapturedNames(app.routes[i].pattern, path);
  }

  /** No route matches: the 404 handler runs with the path, the query and no captures. */
  lemma HandleNotFound(app: Rask, verb: Method, uri: RequestUri, inbound: Option<Jar>)
    requires Valid(app) && GetPathAndQueryString(uri).Some?
    requires forall i :: 0 <= i < |app.routes| ==>
               !Matches(app.routes[i].pattern, GetPathAndQueryString(uri).value.0)
    ensures var (path, query) := GetPathAndQueryString(uri).value;
            var a := Handle(app, verb, uri, inbound);
            a == Invoke(app.errorHandlers[StatusNotFound], Requests.New(None, Some(path), query),
                        HandlerResponse(inbound))
            && a.request.vars == map[]
  {
  }

  /** A matching compiled pattern captures exactly its group names. */
  lemma CapturedNames(p: Pattern, path: string)
    requires Canonical(p) && Matches(p, path)
    ensures CaptureVars(p, path).Some?
    ensures CaptureVars(p, path).value.Keys == Names(p)
  {
    RoutingProofs.VarsLookup(p, Match(p, path).value);
  }

  // ---------------------------------------------------------------------------
  // Default handlers and the answer a request receives
  // ---------------------------------------------------------------------------

  datatype Output = Output(body: string, status: StatusCode)

  /** `default_404_handler` and `default_500_handler`; a user handler's answer is not
      known to the model. */
  function DefaultOutput(h: Handler): (r: Option<Output>)
    ensures h.UserHandler? <==> r.None?
    ensures h == DefaultNotFoundHandler ==> r == Some(Output("404 Not Found", StatusNotFound))
    ensures h == DefaultInternalErrorHandler ==>
              r == Some(Output("500 Internal server error", StatusInternalServerError))
  {
    match h
    case DefaultNotFoundHandler => Some(Output("404 Not Found", StatusNotFound))
    case DefaultInternalErrorHandler => Some(Output("500 Internal server error", StatusInternalServerError))
    case UserHandler(_) => None
  }

  /** The answer sent for a request, when it does not depend on a user handler. */
  function Answer(app: Rask, verb: Method, uri: RequestUri, inbound: Option<Jar>): Option<Output>
    requires Valid(app)
  {
    match Handle(app, verb, uri, inbound)
    case Send(body, status) => Some(Output(body, status))
    case Invoke(h, _, _) => DefaultOutput(h)
  }

  /** With the default error handlers in place, the user-visible statuses the dispatcher
      produces on its own: 500 for an unusable target, 405 for a method the first matching
      route refuses, 404 when nothing matches. */
  lemma DispatcherStatuses(app: Rask, verb: Method, uri: RequestUri, inbound: Option<Jar>)
    requires Valid(app)
    requires app.errorHandlers[StatusNotFound] == DefaultNotFoundHandler
    requires app.errorHandlers[StatusInternalServerError] == DefaultInternalErrorHandler
    ensures GetPathAndQueryString(uri).None? ==>
              Answer(app, verb, uri, inbound) == Some(Output("500 Internal server error", 500))
    ensures GetPathAndQueryString(uri).Some? &&
            FindRoute(app.routes, GetPathAndQueryString(uri).value.0, verb).MethodNotAllowed? ==>
              Answer(app, verb, uri, inbound) == Some(Output("405 Method Not Allowed", 405))
    ensures GetPathAndQueryString(uri).Some? &&
            FindRoute(app.routes, GetPathAndQueryString(uri).value.0, verb).NotFound? ==>
              Answer(app, verb, uri, inbound) == Some(Output("404 Not Found", 404))
  {
  }
}

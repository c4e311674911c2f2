# rask routing, dispatch, query strings and cookie jar — a Dafny model

rask is a micro web framework. An application (`Rask`) holds:

- an ordered table of routes, each a URL template such as `/profile/{name}` or `/static/**`, compiled to an anchored matcher, with a handler and an optional list of allowed HTTP methods;
- a map from status code to error handler, seeded with default handlers for 404 and 500;
- a secret for encrypted cookies.

For each request, rask:

1. rebuilds the path and query string from the request target;
2. picks the first route whose matcher accepts the path;
3. either invokes that route's handler with the named captures and the decoded query string, answers `405 Method Not Allowed`, or invokes the 404 or 500 handler.

Handlers reach cookies through the response they are given, which carries an optional cookie jar. The crate also defines two facades over a shared, optional jar cell, though dispatch never builds them:

- `Cookies` works on the plain space;
- `Session` works on the encrypted space.

The model is split into these modules:

- `Routing` (routing.dfy). A route template compiles to a list of tokens: `Slash | Lit(word) | Named(name) | Wild`. These stand for the regular-expression pieces `/`, `/word`, `/(?P<name>\w*)` and `/(.*)`. A recursive matcher plays the anchored regex. Its `Wild` tries the longest newline-free remainder first, as the greedy `.*` does. The regex source text is kept (`RegexSource`) because route equality compares it.
- `RoutingProofs` and `TemplateProofs`. The matcher is sound (every match rebuilds the path from its captures). It accepts every admissible filling of a pattern (`Fill`/`Match`). It gives back exactly the filled values when the filling is greedy-safe. Compilation inverts the template printer. Compilation fails on the inputs where the source panics. Route equality is pattern equality.
- `QueryString` (query.dfy). `parse_query_string`, with a reference reading (`ValuesOf`) and an encoder it inverts.
- `Requests`, `Responses`, `Jars`, `Sessions`, `Cookies`: the request record, the response state and its cookie operations, and the two facades. Facades built from one `SharedJar` object see each other's writes.
- `App` (app.dfy). Construction, registration, `find_route`, `get_path_and_query_string`, the dispatch decision in `handle`, and the default 404/500 handlers.
- `Scenarios`. Complete requests pushed through the model: a captured profile page, a method refused with 405, a path that misses the one registered route and is answered with 404, and an unknown path in an empty table answered with 404.

Behaviour that panics in the source is a `Failure` value here. This covers a template that does not compile, and a cookie write on a response or facade without a jar. The failure carries the source's panic message where there is one.

## Model

| member | source | states |
|---|---|---|
| Routing.CompileSegment | src/routing.rs:57-77 | A segment compiles exactly when it is empty, `{word*}`, `word*` or `**`, tried in that order. The token it yields prints back as the same segment. Anything else is an `UnrecognisedSegment` failure. |
| Routing.CompileSegments | src/routing.rs:45-49 | The segments compile together exactly when each one does. The pattern's segment texts are the input segments, in order. |
| Routing.CheckNames | src/routing.rs:51-54 | Passes exactly when every capture name is valid for the regex library and no name repeats, or collides with one already seen. |
| Routing.Compile | src/routing.rs:44-55 | A successful compilation is canonical: well-formed tokens with valid, distinct capture names. It has one token per `/` in the template. |
| Routing.NewRoute | src/routing.rs:23-29 | `Route::new` succeeds exactly when the template compiles. It keeps the handler and has an empty method list. |
| Routing.RouteWithMethods | src/routing.rs:31-41 | `Route::with_methods` succeeds exactly when the template compiles. It keeps the handler and copies the method list. |
| Routing.Match | src/routing.rs:51-75 | `is_match`/`captures` of the anchored expression. A successful match holds one capture per token. With `MatchSound` and `MatchComplete` it accepts exactly the admissible fillings of the pattern. |
| Routing.TryWild | src/routing.rs:73-75 | The greedy `(.*)`: it tries the longest newline-free prefix first and gives back one character at a time. A success holds one capture for the wildcard and one per remaining token. |
| Routing.Vars | src/request.rs:29-33 | The named captures collected by name have exactly the pattern's capture names as keys. |
| Routing.CaptureVars | src/lib.rs:279 | The captures exist exactly when the route's matcher accepts the path. They are keyed by exactly the pattern's capture names. |
| RoutingProofs.MatchSound | src/routing.rs:51 | A match consumes the whole path (the expression is anchored at both ends). Every capture fits its token, and substituting the captures into the pattern rebuilds the path exactly. |
| RoutingProofs.MatchFill | src/routing.rs:57-75 | Substitute a word for every `{n}` and a newline-free text for every `**`, where `/` is allowed only in a final first wildcard. The resulting path matches, and gives back exactly the substituted values. |
| RoutingProofs.MatchComplete | src/lib.rs:232 | Every admissible filling is accepted: a word for each `{n}` and a newline-free text for each `**`, with `/` allowed in any wildcard. This covers templates with `**` before the last segment or with several `**`. |
| RoutingProofs.TryWildSucceeds | src/routing.rs:73-75 | If the rest of the pattern matches after some split point within the wildcard's reach, the greedy wildcard succeeds. |
| RoutingProofs.WildBeforeLiteral | src/routing.rs:73-75 | `/**/x` accepts `/a/b/x`: a wildcard ahead of a literal may hold further `/`. |
| RoutingProofs.TooFewSlashes | src/routing.rs:58-75 | A path with fewer `/` than the pattern has tokens never matches. |
| RoutingProofs.VarsLookup | src/request.rs:29-33 | The map of named captures has exactly the pattern's capture names as keys. Each name maps to the value captured at its position. |
| RoutingProofs.RouteRoundTrip | src/routing.rs:44-75 | For a compiled template and admissible, greedy-safe substitutions (`/` only in a final, first wildcard), the filled path matches. Its captures are exactly the template's names, each bound to the substituted value. |
| RoutingProofs.CapturesCoverNames | src/request.rs:29-33 | When a compiled route matches, the captured variables are defined for exactly the template's capture names. |
| RoutingProofs.CaptureFreeMatchesExactly | src/routing.rs:58-71 | A pattern of slashes and literals only matches exactly its own template text. |
| RoutingProofs.NamedSegmentMatch | src/routing.rs:65-67 | `{n}` matches exactly `/` followed by zero or more word characters, and captures them. |
| RoutingProofs.WildSegmentMatch | src/routing.rs:73-75 | `**` matches exactly `/` followed by any newline-free remainder, including further `/`, and captures the remainder. |
| TemplateProofs.CompileOfTemplate | src/routing.rs:44-55 | Compiling the printed template of a canonical pattern, after any slash-free prefix, gives the pattern back. |
| TemplateProofs.CompileShape | src/routing.rs:45-48 | A template that compiles is a slash-free prefix followed by the printed template of its pattern. |
| TemplateProofs.DropBeforeFirstSlash | src/routing.rs:45-47 | Whatever precedes the first `/` is discarded. |
| TemplateProofs.TrailingSlash | src/routing.rs:58-60 | Appending `/` to a compiling template appends one required `Slash` token. |
| TemplateProofs.RootTemplate | src/routing.rs:58-60 | `/` compiles to a single `Slash`, which accepts exactly the path `/`. |
| TemplateProofs.ForeignCharRejected | src/routing.rs:62-63 | A segment after the first `/` that holds a character outside word characters, braces and `*` makes compilation fail. |
| TemplateProofs.EmptyNameRejected | src/routing.rs:51-53 | `/{}` fails to compile because the empty capture name is invalid. |
| TemplateProofs.DuplicateNameRejected | src/routing.rs:51-53 | Using one valid capture name twice fails to compile with a duplicate-name error. |
| TemplateProofs.SameRouteIffSamePattern | src/routing.rs:16-19 | `Routing.SameRoute`, the model of `PartialEq for Route`, compares the regex text only. Two routes compare equal exactly when their patterns are equal; handler and methods are ignored. |
| QueryString.Insert | src/request.rs:49 | `MultiMap::insert` adds the key if new. The key's list becomes its old list (empty if new) with the value appended at the end. Every other key's values are unchanged. |
| QueryString.SplitPair | src/request.rs:43-45 | The key never contains `=`. A piece with `=` is key, `=`, value, cut at the first `=`. A piece without `=` is the key with an empty value. |
| QueryString.Pairs | src/request.rs:40-46 | One pair per `&`-separated piece (one more than the number of `&`), each piece cut at its first `=` as `SplitPair` states. |
| QueryString.Collect | src/request.rs:46-50 | Inserting the pairs in order never stores the empty key, and every stored key holds at least one value. `CollectValues` states the values exactly. |
| QueryString.Decode | src/request.rs:38-52 | The decoded map has no empty key, and every key holds at least one value. |
| QueryString.CollectValues | src/request.rs:47-50 | After the in-order inserts, a key is present exactly when it is non-empty and some pair carries it. Its values are exactly those pairs' values, in order. |
| QueryString.DecodeValues | src/request.rs:38-52 | The same, for the pieces of a query string. |
| QueryString.DecodeFirstValue | src/request.rs:72-79 | Indexing a decoded key gives the value of the first piece that carries it. |
| QueryString.DecodeEncode | src/request.rs:40-50 | Decoding the `&`/`=` encoding of pairs gives every non-empty key exactly its values, in order. |
| QueryString.DecodeDistinctKeys | src/request.rs:62-70 | Pairs with distinct non-empty keys decode to one entry per key, holding just that key's value. |
| QueryString.DecodeEmpty | src/request.rs:40-47 | The empty query string decodes to the empty map. |
| QueryString.DecodeOne | src/request.rs:54-60 | `key=value` decodes to the single entry `key -> [value]`. |
| QueryString.DecodeTwo | src/request.rs:40-50 | Two pairs decode to their keys, with the values collected in order. |
| QueryString.DecodeRepeatedKey | src/request.rs:72-79 | `a=1&a=2` decodes to `a -> [1, 2]`. |
| QueryString.DecodeDropsEmptyKey | src/request.rs:44-47 | In `=x&k=` the empty key is dropped and the missing value reads as the empty string. |
| Requests.New | src/request.rs:22-35 | `gets` is empty without a query string. Otherwise it is the decoded query: one entry per non-empty key, holding its values in order. `vars` is empty without captures, else exactly the captures. The path is kept. |
| Responses.New | src/response.rs:15-22 | A new response has status 200, an empty body, no headers and an empty jar. |
| Responses.NoCookies | src/response.rs:24-31 | The same, but with no jar. |
| Responses.Redirect | src/response.rs:33-39 | Status becomes 302. `has::<Location>()` compares header names without regard to ASCII case: when a header named `Location` in any case is present, the headers are kept as they are. Otherwise `Location` is added with the target, and no other stored name equals `Location` up to case. Headers of other names, the body and the jar are unchanged. A header map with no two names that differ only in case keeps that property. |
| Responses.RedirectIdempotent | src/response.rs:36-38 | A second redirect never changes the first one's response, whatever the case of the header names. |
| Responses.RedirectKeepsLowercaseLocation | src/response.rs:36-38 | A `location` header stored in lower case counts as present: a redirect leaves it as the only header. |
| Responses.SetCookie | src/response.rs:41-46 | Fails with the source's message exactly when there is no jar. Otherwise it writes the key into the plain space only. Other keys, the encrypted space, status, body and headers are unchanged. |
| Responses.SetSession | src/response.rs:48-53 | Fails with the source's message exactly when there is no jar. Otherwise it writes the key into the encrypted space only, and everything else is unchanged. |
| Responses.PopSession | src/response.rs:55-59 | A silent no-op without a jar. Otherwise it removes the key from the encrypted space and leaves everything else unchanged. |
| Responses.CookieSupport | src/response.rs:15-53 | Cookie and session writes succeed on `new()` and fail on `no_cookies()`. Popping on `no_cookies()` changes nothing. |
| Responses.PopAfterSetSession | src/response.rs:48-59 | Popping a session key that was just set, when it was absent before, restores the response. |
| Jars.Find | src/session.rs:19 | The crate's `find` then the value: nothing exactly when the space lacks the key, else the stored value. |
| Jars.Add | src/session.rs:26 | The crate's `add`: the space's keys gain the key. `FindAfterAdd` gives its reads. |
| Jars.Remove | src/session.rs:33 | The crate's `remove`: the space's keys lose the key. `FindAfterRemove` gives its reads. |
| Jars.FindAfterAdd | src/session.rs:24-29 | Reading after a write gives the written value for that key and space. Every other key and space reads as before. |
| Jars.FindAfterRemove | src/session.rs:31-36 | Reading after a removal gives nothing for that key and space. Every other key and space reads as before. |
| Jars.AddAdd | src/cookies.rs:24-29 | Writing one key twice keeps only the second value. |
| Sessions.Get | src/session.rs:17-22 | Nothing without a jar. Otherwise the value stored in the encrypted space, if any. |
| Sessions.Set | src/session.rs:24-29 | Fails with "cant set on a cookieless.." exactly when there is no jar. Otherwise the key reads back as the value. Other keys and the plain space are unchanged. |
| Sessions.Pop | src/session.rs:31-36 | Fails with "cant pop on a cookieless.." exactly when there is no jar, unlike `pop_session`. Otherwise the key is gone and other keys and the plain space are unchanged. |
| Sessions.Session.Store | src/session.rs:24-29 | `Session::set` through the shared cell. It fails with "cant set on a cookieless.." exactly when the cell holds no jar, and then leaves the cell unchanged. Otherwise the cell holds exactly `Set`'s jar: the key reads as the value, other keys and the plain space as before. |
| Sessions.Session.Discard | src/session.rs:31-36 | `Session::pop` through the shared cell. It fails with "cant pop on a cookieless.." exactly when the cell holds no jar, and then leaves the cell unchanged. Otherwise the cell holds exactly `Pop`'s jar: the key is gone, other keys and the plain space are as before. |
| Sessions.PopAfterSet | src/session.rs:24-36 | Setting a fresh key and then popping it gives back the original jar. |
| Sessions.SharedCellWrites | src/session.rs:7-29 | Two session facades built on one shared jar: a value set through one is read back through the other. |
| Sessions.CookielessCellRefuses | src/session.rs:24-29 | On a shared cell without a jar, setting fails with the source's message and the other facade reads nothing. |
| Cookies.Get | src/cookies.rs:17-22 | Nothing without a jar. Otherwise the value stored in the plain space, if any. |
| Cookies.Set | src/cookies.rs:24-29 | Fails with "cant set on a cookieless.." exactly when there is no jar. Otherwise the key reads back as the value. Other keys and the encrypted space are unchanged. |
| Cookies.CookieFacade.Store | src/cookies.rs:24-29 | `Cookies::set` through the shared cell. It fails with "cant set on a cookieless.." exactly when the cell holds no jar, and then leaves the cell unchanged. Otherwise the cell holds exactly `Set`'s jar: the key reads as the value, other keys and the encrypted space as before. |
| Cookies.SharedCellWrites | src/cookies.rs:7-29 | A cookie set through one facade is seen through a second facade on the same jar. That a session facade on the jar does not see it holds for the two-map jar only (see Left out). |
| Cookies.SpacesIndependent | src/cookies.rs:24-29 | In the two-map jar, a cookie write never changes what a session read gives, and the reverse. The crate shares one name space between the two (see Left out). |
| App.New | src/lib.rs:122-131 | A new application has no routes, the given secret, and exactly the default handlers for 404 and 500, so it satisfies the dispatch invariant. |
| App.Register | src/lib.rs:189-192 | Succeeds exactly when the template compiles, and fails with the compiler's error otherwise. It appends exactly one route with no method restriction. Earlier routes, the error handlers and the invariant are kept. |
| App.RegisterWithMethods | src/lib.rs:214-222 | The same, with the given method list on the appended route. |
| App.RegisterErrorHandler | src/lib.rs:226-228 | Inserts or overwrites one status's handler. Every other handler and the routes are unchanged, so the 404 and 500 handlers stay present. |
| App.FindRouteFrom | src/lib.rs:231-242 | The scan from route `i`, when no earlier route matched: `Found(j)` only for the first matching route when it allows the method, `MethodNotAllowed` only when that first match refuses it, `NotFound` only when no route matches at all. |
| App.FindRoute | src/lib.rs:230-243 | `Found(i)` exactly when route `i` is the first whose matcher accepts the path and it allows the method. `MethodNotAllowed` exactly when that first match does not allow the method. `NotFound` exactly when no route matches. |
| App.FindRouteIgnoresLater | src/lib.rs:231-239 | Once a route matches, routes after it are never consulted. |
| App.RegisterKeepsEarlierOutcomes | src/lib.rs:189-243 | Registering a route keeps every earlier lookup outcome except `NotFound`. That outcome is now decided by the new route alone. |
| App.GetPathAndQueryString | src/lib.rs:302-321 | Defined exactly for a parsable absolute path. The path is `/` followed by each segment, in order, and the query string is passed through. |
| App.FoldPathSplit | src/lib.rs:308 | Splitting the rebuilt path at `/` gives back an empty head followed by the segments. |
| App.HandlerResponse | src/lib.rs:255-263 | Every handler receives a 200 response with no body or headers, carrying the request's jar or a fresh empty one. |
| App.Handle | src/lib.rs:253-291 | Every invoked handler gets the request's response. The only direct answer is "405 Method Not Allowed" with status 405. |
| App.HandleBadTarget | src/lib.rs:265-272 | A target that is not a parsable absolute path invokes the 500 handler with no path, query or captures. |
| App.HandleFound | src/lib.rs:277-282 | The first matching route that allows the method is invoked. It gets the path, the decoded query and captures keyed by exactly its capture names. |
| App.HandleMethodNotAllowed | src/lib.rs:283-285 | The 405 answer is sent exactly when the first matching route refuses the method. |
| App.HandleNotFound | src/lib.rs:286-289 | When no route matches, the 404 handler is invoked with the path and query but no captures. |
| App.DefaultOutput | src/lib.rs:294-300 | The default 404 handler answers "404 Not Found" with 404, and the default 500 handler answers "500 Internal server error" with 500. User handlers produce no default output. |
| App.DispatcherStatuses | src/lib.rs:253-300 | With the default error handlers, an unusable target is answered with 500, a refused method with 405 and an unknown path with 404. |
| Scenarios.ScenarioProfile | src/lib.rs:214-282 | `/profile/{name}` registered for GET. A GET of `/profile/<word>?x=1` invokes its handler with `name` captured and `x -> [1]` decoded. |
| Scenarios.ScenarioMethodNotAllowed | src/lib.rs:214-285 | `/create` registered for POST only. A GET of `/create` is answered with 405. |
| Scenarios.ScenarioNotFound | src/lib.rs:122-131 | With no routes registered, every parsable path goes to the default 404 handler and is answered with 404. |
| Scenarios.ScenarioMissAmongRoutes | src/lib.rs:230-243 | `/profile/{name}` registered for GET. A GET of `/nope/<word>` is not matched by that route, so the first-match search ends in `NotFound`. The default 404 handler is invoked with the path and no captures, and answers 404. |

## Left out

- Transport: the HTTP server, `run`, host parsing and the `HttpHandler` plumbing are left out. They are network I/O. The request method, the request target and the inbound jar are parameters of `App.Handle`.
- Target parsing: the URL library's `parse_path` is a foreign call. Its result is an input: `Parsed(segments, query)` or `Unparsable`.
- The regex engine: replaced by the token matcher. `\w` is ASCII letters, digits and `_`. The regex library's `\w` is Unicode, so non-ASCII word characters are not modelled.
- Capture-name rules: a capture name is accepted when it is non-empty and does not start with a digit. This rule belongs to the regex library, which is not part of this model.
- Compile: the failure is a value with an error kind (`UnrecognisedSegment`, `InvalidCaptureName`, `DuplicateCaptureName`), not the regex library's exact panic text.
- The cookie crate: signing, encryption, `Set-Cookie` serialisation and `Cookie` header decoding are foreign code. A cookie removal also sends an expiring cookie to the client; that is not modelled either. In the crate, the encrypted view shares one name space with the plain jar; the model keeps two separate maps.
- Facade wiring: session.rs and cookies.rs define the facades, but lib.rs declares only the `routing`, `response` and `request` modules (src/lib.rs:69-71). Nothing constructs a facade, and `Request` has no facade field. The model states the facades' own behaviour over a shared cell; it does not claim that handlers reach them during dispatch.
- Cookies.SpacesIndependent: holds for the model's two separate maps only. In the cookie crate the encrypted view shares the plain jar's name space, so a same-named session write replaces a plain cookie and the reverse. The same caveat applies to the session-facade half of `Cookies.SharedCellWrites`.
- Header names: the header map is a map from names, as spelled, to values; names compare by ASCII case folding only, since header field names are case-insensitive ASCII tokens (section 3.2 of RFC 7230). Typed header values other than `Location` are not modelled.
- Responses.New: the `secret` argument only keys the crate's encryption, so it is dropped.
- Response transmission: lib.rs calls `Response::new(res, jar)` and `send`, but response.rs defines neither. The response a handler receives is `App.HandlerResponse`. A direct answer is the `Send(body, status)` action. What a default handler sends is `App.DefaultOutput`.
- Handlers: a handler is an opaque identifier, and the model records which one would be invoked and with what. User handlers' own behaviour, and the `Sync`/`Send` bounds, are out of scope.
- src/servestatic.rs is a file-system access and is not part of this model. Logging is left out too.
- App.Handle: its own contract states only what holds on every branch. Each branch is stated exactly by `HandleBadTarget`, `HandleFound`, `HandleMethodNotAllowed` and `HandleNotFound`.
- Code against docs: the route documentation says `{name}` matches "/" plus a word. The code captures `\w*`, so the empty capture is accepted, and the model follows the code.
- Templates: `**` is not required to be the last segment, and the text before the first `/` of a template is silently dropped. The model follows the code in both.
- Query strings: the query string is not percent-decoded, neither in the source nor in the model.
- Wildcards: a `**` captures through `.*`, which stops at a newline, so a path containing a newline is not matched by it.

/** Whole-request walk-throughs: an application is built with the registration operations
    and one request is dispatched through it. The templates and paths of these walk-throughs
    are parameters pinned to literals by `requires`, which keeps the literals folded. */
module Scenarios {
  import opened Wrappers
  import opened Strings
  import opened Http
  import opened Routing
  import opened RoutingProofs
  import opened TemplateProofs
  import opened QueryString
  import opened App
  import Requests

  lemma ProfileCanonical()
    ensures Canonical([Lit("profile"), Named("name")])
  {
    var p := [Lit("profile"), Named("name")];
    assert AllWord("profile") && AllWord("name");
    assert ValidCaptureName("name");
    assert WellFormed(p) && ValidNames(p) && DistinctNames(p);
  }

  lemma ProfileTemplate()
    ensures Template([Lit("profile"), Named("name")]) == "/profile/{name}"
  {
    var p := [Lit("profile"), Named("name")];
    assert SegmentText(Named("name")) == "{name}";
    assert Texts(p) == ["profile", "{name}"];
    assert [""] + Texts(p) == ["", "profile", "{name}"];
    JoinTriple("", "profile", "{name}", '/');
    assert "" + ['/'] + "profile" + ['/'] + "{name}" == "/profile/{name}";
  }

  lemma ProfileCompiles(template: string)
    requires template == "/profile/{name}"
    ensures Compile(template) == Success([Lit("profile"), Named("name")])
  {
    var p := [Lit("profile"), Named("name")];
    ProfileCanonical();
    ProfileTemplate();
    assert "" + Template(p) == template;
    CompileOfTemplate("", p);
  }

  lemma ProfilePathMatches(name: string)
    requires AllWord(name)
    ensures CaptureVars([Lit("profile"), Named("name")], "/profile/" + name)
            == Some(map["name" := name])
  {
    var p := [Lit("profile"), Named("name")];
    var vals := ["", name];
    assert AllWord("profile") && AllWord("name");
    assert WellFormed(p);
    assert Admissible(p, vals);
    assert Fill(p[1..], vals[1..]) == "/" + name + Fill([], []);
    assert Fill(p, vals) == "/profile/" + name;
    MatchFill(p, vals);
    assert Vars(p[1..], vals[1..]) == map["name" := name] by {
      assert p[1..][1..] == [] && vals[1..][1..] == [];
    }
  }

  lemma ProfileTarget(name: string, query: string)
    ensures GetPathAndQueryString(AbsolutePath(Parsed(["profile", name], Some(query))))
            == Some(("/profile/" + name, Some(query)))
  {
    assert [""] + ["profile", name] == ["", "profile", name];
    JoinTriple("", "profile", name, '/');
    assert "/profile/" + name == "" + ['/'] + "profile" + ['/'] + name;
  }

  lemma ProfileRequest(name: string, query: string)
    requires query == "x=1" && AllWord(name)
    ensures Requests.New(CaptureVars([Lit("profile"), Named("name")], "/profile/" + name),
                         Some("/profile/" + name), Some(query))
            == Requests.Request(Some("/profile/" + name), map["x" := ["1"]], map["name" := name])
  {
    ProfilePathMatches(name);
    assert Decode(query) == map["x" := ["1"]] by {
      assert '&' !in "x" && '=' !in "x" && '&' !in "1";
      assert PairText(("x", "1")) == query;
      DecodeOne(("x", "1"));
    }
  }

  /** Route `/profile/{name}` for GET only; `GET /profile/alice?x=1` reaches its handler with
      `vars == {name: alice}` and `gets == {x: [1]}` (any word stands in for `alice`). */
  lemma ScenarioProfile(secret: string, template: string, name: string, query: string)
    requires template == "/profile/{name}" && query == "x=1"
    requires AllWord(name)
    ensures RegisterWithMethods(New(secret), template, [Get], UserHandler(1)).Success?
    ensures var app := RegisterWithMethods(New(secret), template, [Get], UserHandler(1)).value;
            var uri := AbsolutePath(Parsed(["profile", name], Some(query)));
            Handle(app, Get, uri, None)
            == Invoke(UserHandler(1),
                      Requests.Request(Some("/profile/" + name), map["x" := ["1"]], map["name" := name]),
                      HandlerResponse(None))
  {
    ProfileCompiles(template);
    var p := [Lit("profile"), Named("name")];
    var app := RegisterWithMethods(New(secret), template, [Get], UserHandler(1)).value;
    var uri := AbsolutePath(Parsed(["profile", name], Some(query)));
    var path := "/profile/" + name;
    ProfileTarget(name, query);
    ProfilePathMatches(name);
    assert app.routes == [Route(p, UserHandler(1), [Get])];
    assert IsFirstMatch(app.routes, path, 0);
    assert Allows(app.routes[0], Get);
    ProfileRequest(name, query);
  }

  lemma CreateTemplate()
    ensures Template([Lit("create")]) == "/create"
  {
    assert Texts([Lit("create")]) == ["create"];
    JoinPair("", "create", '/');
    assert [""] + ["create"] == ["", "create"];
  }

  lemma CreateCompiles(template: string)
    requires template == "/create"
    ensures Compile(template) == Success([Lit("create")])
  {
    var p := [Lit("create")];
    assert AllWord("create");
    assert Canonical(p);
    CreateTemplate();
    assert "" + Template(p) == template;
    CompileOfTemplate("", p);
  }

  lemma CreateMatches(path: string)
    requires path == "/create"
    ensures Matches([Lit("create")], path)
  {
    var p := [Lit("create")];
    assert AllWord("create");
    assert WellFormed(p) && Admissible(p, [""]);
    assert Fill(p, [""]) == path by {
      assert Fill(p[1..], [""][1..]) == "";
    }
    MatchFill(p, [""]);
  }

  lemma CreateTarget(path: string)
    requires path == "/create"
    ensures GetPathAndQueryString(AbsolutePath(Parsed(["create"], None))) == Some((path, None))
  {
    JoinPair("", "create", '/');
    assert [""] + ["create"] == ["", "create"];
    assert path == "" + ['/'] + "create";
  }

  lemma CreateRouteTable(secret: string, template: string)
    requires template == "/create"
    ensures RegisterWithMethods(New(secret), template, [Post], UserHandler(2)).Success?
    ensures var app := RegisterWithMethods(New(secret), template, [Post], UserHandler(2)).value;
            Valid(app) && FindRoute(app.routes, template, Get) == MethodNotAllowed
  {
    CreateCompiles(template);
    CreateMatches(template);
    var app := RegisterWithMethods(New(secret), template, [Post], UserHandler(2)).value;
    assert app.routes == [Route([Lit("create")], UserHandler(2), [Post])];
    assert IsFirstMatch(app.routes, template, 0);
    assert !Allows(app.routes[0], Get);
  }

  /** Route `/create` for POST only; `GET /create` is answered 405 by the dispatcher and no
      handler runs. */
  lemma ScenarioMethodNotAllowed(secret: string, template: string)
    requires template == "/create"
    ensures RegisterWithMethods(New(secret), template, [Post], UserHandler(2)).Success?
    ensures var app := RegisterWithMethods(New(secret), template, [Post], UserHandler(2)).value;
            var uri := AbsolutePath(Parsed(["create"], None));
            Handle(app, Get, uri, None) == Send("405 Method Not Allowed", 405)
            && Answer(app, Get, uri, None) == Some(Output("405 Method Not Allowed", 405))
  {
    CreateRouteTable(secret, template);
    CreateTarget(template);
  }

  /** With no routes, any parsed path goes to the default not-found handler with no
      captures, and the answer is 404. */
  lemma ScenarioNotFound(secret: string, segments: seq<string>, query: Option<string>)
    ensures var app := New(secret);
            var uri := AbsolutePath(Parsed(segments, query));
            var path := Join([""] + segments, '/');
            Handle(app, Get, uri, None)
            == Invoke(DefaultNotFoundHandler, Requests.New(None, Some(path), query), HandlerResponse(None))
            && Handle(app, Get, uri, None).request.vars == map[]
            && Answer(app, Get, uri, None) == Some(Output("404 Not Found", 404))
  {
  }

  lemma NopeMisses(first: string, name: string)
    requires first == "nope"
    ensures !Matches([Lit("profile"), Named("name")], "/" + first + "/" + name)
  {
    var s := "/" + first + "/" + name;
    assert s[0] == '/' && s[1..][0] == 'n';
    assert !("profile" <= s[1..]);
  }

  lemma ProfileRouteTable(secret: string, template: string)
    requires template == "/profile/{name}"
    ensures RegisterWithMethods(New(secret), template, [Get], UserHandler(1)).Success?
    ensures var app := RegisterWithMethods(New(secret), template, [Get], UserHandler(1)).value;
            Valid(app) && app.routes == [Route([Lit("profile"), Named("name")], UserHandler(1), [Get])]
            && app.errorHandlers[StatusNotFound] == DefaultNotFoundHandler
            && app.errorHandlers[StatusInternalServerError] == DefaultInternalErrorHandler
  {
    ProfileCompiles(template);
  }

  lemma NopeTarget(first: string, name: string)
    ensures GetPathAndQueryString(AbsolutePath(Parsed([first, name], None)))
            == Some(("/" + first + "/" + name, None))
  {
    assert [""] + [first, name] == ["", first, name];
    JoinTriple("", first, name, '/');
    assert "/" + first + "/" + name == "" + ['/'] + first + ['/'] + name;
  }

  /** Route `/profile/{name}` for GET only; `GET /nope/<word>` passes the registered route
      by and reaches the default not-found handler with no captures, answered 404. */
  lemma ScenarioMissAmongRoutes(secret: string, template: string, first: string, name: string)
    requires template == "/profile/{name}" && first == "nope"
    ensures RegisterWithMethods(New(secret), template, [Get], UserHandler(1)).Success?
    ensures var app := RegisterWithMethods(New(secret), template, [Get], UserHandler(1)).value;
            var uri := AbsolutePath(Parsed([first, name], None));
            var path := "/" + first + "/" + name;
            Handle(app, Get, uri, None)
            == Invoke(DefaultNotFoundHandler, Requests.New(None, Some(path), None), HandlerResponse(None))
            && Answer(app, Get, uri, None) == Some(Output("404 Not Found", 404))
  {
    ProfileRouteTable(secret, template);
    var app := RegisterWithMethods(New(secret), template, [Get], UserHandler(1)).value;
    var uri := AbsolutePath(Parsed([first, name], None));
    NopeTarget(first, name);
    NopeMisses(first, name);
    HandleNotFound(app, Get, uri, None);
    DispatcherStatuses(app, Get, uri, None);
  }
}

/** Route templates and their compiled matchers.

    A template such as `/profile/{name}` or `/static` followed by `**` is cut at every `/`;
    everything before the first `/` is dropped and each remaining segment becomes one token.
    The source renders the tokens as an anchored regular expression; here they are kept as a
    datatype and matched by a recursive function that follows the expression's
    leftmost-first (greedy) priorities. */
module Routing {
  import opened Wrappers
  import opened Strings
  import opened Http

  /** One compiled segment:
      - `Slash` for an empty segment, matching `/`;
      - `Lit(w)` for a word-only segment, matching `/w`;
      - `Named(n)` for `{n}`, matching `/` and a run of word characters captured as `n`;
      - `Wild` for `**`, matching `/` and the rest of the line (an unnamed capture). */
  datatype Token = Slash | Lit(word: string) | Named(name: string) | Wild

  type Pattern = seq<Token>

  datatype CompileError =
    | UnrecognisedSegment(segment: string)
    | InvalidCaptureName(name: string)
    | DuplicateCaptureName(name: string)

  // ---------------------------------------------------------------------------
  // Well-formed patterns and their template text
  // ---------------------------------------------------------------------------

  predicate WellFormedToken(t: Token) {
    match t
    case Slash => true
    case Lit(w) => |w| > 0 && AllWord(w)
    case Named(n) => AllWord(n)
    case Wild => true
  }

  predicate WellFormed(p: Pattern) {
    forall i :: 0 <= i < |p| ==> WellFormedToken(p[i])
  }

  /** The regular-expression library accepts a group name when it is non-empty and does not
      start with a digit (all its characters are already word characters here). */
  predicate ValidCaptureName(n: string) {
    |n| > 0 && !IsDigit(n[0])
  }

  predicate ValidNames(p: Pattern) {
    forall i :: 0 <= i < |p| && p[i].Named? ==> ValidCaptureName(p[i].name)
  }

  predicate DistinctNames(p: Pattern) {
    forall i, j :: 0 <= i < j < |p| && p[i].Named? && p[j].Named? ==> p[i].name != p[j].name
  }

  /** What a successful compilation produces. */
  predicate Canonical(p: Pattern) {
    WellFormed(p) && ValidNames(p) && DistinctNames(p)
  }

  function Names(p: Pattern): set<string> {
    set i | 0 <= i < |p| && p[i].Named? :: p[i].name
  }

  /** The template segment a token is written as. */
  function SegmentText(t: Token): string {
    match t
    case Slash => ""
    case Lit(w) => w
    case Named(n) => "{" + n + "}"
    case Wild => "**"
  }

  function Texts(p: Pattern): (r: seq<string>)
    ensures |r| == |p|
    ensures forall i :: 0 <= i < |p| ==> r[i] == SegmentText(p[i])
  {
    seq(|p|, i requires 0 <= i < |p| => SegmentText(p[i]))
  }

  /** The template a pattern is written as: each segment preceded by `/`. */
  function Template(p: Pattern): string {
    Join([""] + Texts(p), '/')
  }

  // ---------------------------------------------------------------------------
  // Compilation (routing.rs: create_routing_rule, create_regex_for_named)
  // ---------------------------------------------------------------------------

  predicate IsBraced(seg: string) {
    |seg| >= 2 && seg[0] == '{' && seg[|seg| - 1] == '}' && AllWord(seg[1..|seg| - 1])
  }

  /** Classifies one segment. The alternatives are tried in the source's order: empty, then
      `{word*}`, then `word*`, then `**`; anything else aborts compilation. */
  function CompileSegment(seg: string): (r: Result<Token, CompileError>)
    ensures r.Success? ==> WellFormedToken(r.value) && SegmentText(r.value) == seg
    ensures r.Failure? <==> !(seg == "" || IsBraced(seg) || AllWord(seg) || seg == "**")
    ensures r.Failure? ==> r.error == UnrecognisedSegment(seg)
  {
    if seg == "" then Success(Slash)
    else if IsBraced(seg) then
      assert seg == "{" + seg[1..|seg| - 1] + "}";
      Success(Named(seg[1..|seg| - 1]))
    else if AllWord(seg) then Success(Lit(seg))
    else if seg == "**" then Success(Wild)
    else Failure(UnrecognisedSegment(seg))
  }

  /** Compiles the segments in order and stops at the first one that is not recognised. */
  function CompileSegments(segs: seq<string>): (r: Result<Pattern, CompileError>)
    ensures r.Success? ==> WellFormed(r.value) && Texts(r.value) == segs
    ensures r.Failure? <==> exists i :: 0 <= i < |segs| && CompileSegment(segs[i]).Failure?
    decreases |segs|
  {
    if segs == [] then Success([])
    else
      match CompileSegment(segs[0])
      case Failure(e) => Failure(e)
      case Success(t) =>
        match CompileSegments(segs[1..])
        case Failure(e) =>
          SegmentsTail(segs);
          Failure(e)
        case Success(rest) =>
          SegmentsTail(segs);
          PrependToken(t, rest);
          Success([t] + rest)
  }

  lemma SegmentsTail(segs: seq<string>)
    requires |segs| > 0
    ensures segs == [segs[0]] + segs[1..]
    ensures (exists i :: 0 <= i < |segs| && CompileSegment(segs[i]).Failure?) <==>
              CompileSegment(segs[0]).Failure? ||
              exists i :: 0 <= i < |segs[1..]| && CompileSegment(segs[1..][i]).Failure?
  {
    if exists i :: 0 <= i < |segs[1..]| && CompileSegment(segs[1..][i]).Failure? {
      var i :| 0 <= i < |segs[1..]| && CompileSegment(segs[1..][i]).Failure?;
      assert segs[1..][i] == segs[i + 1];
    }
    if exists i :: 0 <= i < |segs| && CompileSegment(segs[i]).Failure? {
      var i :| 0 <= i < |segs| && CompileSegment(segs[i]).Failure?;
      if i > 0 {
        assert segs[1..][i - 1] == segs[i];
      }
    }
  }

  lemma PrependToken(t: Token, rest: Pattern)
    ensures Texts([t] + rest) == [SegmentText(t)] + Texts(rest)
    ensures WellFormed([t] + rest) <==> WellFormedToken(t) && WellFormed(rest)
  {
    var p := [t] + rest;
    assert forall i :: 1 <= i < |p| ==> p[i] == rest[i - 1];
    assert Texts(p) == [SegmentText(t)] + Texts(rest);
    if WellFormed(p) {
      PrependWellFormed(t, rest);
    }
  }

  lemma PrependWellFormed(t: Token, rest: Pattern)
    requires WellFormed([t] + rest)
    ensures WellFormedToken(t) && WellFormed(rest)
  {
    var p := [t] + rest;
    assert WellFormedToken(p[0]);
    forall i | 0 <= i < |rest| ensures WellFormedToken(rest[i]) {
      assert rest[i] == p[i + 1];
    }
  }

  /** The group-name checks of the regular-expression parser, left to right: the first
      named token whose name is invalid, or was already used, is reported. */
  function CheckNames(p: Pattern, seen: set<string>): (r: Outcome<CompileError>)
    ensures r.Pass? <==> ValidNames(p) && DistinctNames(p) && Names(p) !! seen
    decreases |p|
  {
    if p == [] then Pass
    else if p[0].Named? && !ValidCaptureName(p[0].name) then Fail(InvalidCaptureName(p[0].name))
    else if p[0].Named? && p[0].name in seen then Fail(DuplicateCaptureName(p[0].name))
    else
      var seen' := if p[0].Named? then seen + {p[0].name} else seen;
      var r := CheckNames(p[1..], seen');
      NamesCons(p);
      r
  }

  /** `Names`, `ValidNames` and `DistinctNames` of a pattern in terms of its head and tail. */
  lemma NamesCons(p: Pattern)
    requires |p| > 0
    ensures Names(p) == (if p[0].Named? then {p[0].name} else {}) + Names(p[1..])
    ensures ValidNames(p) <==> (p[0].Named? ==> ValidCaptureName(p[0].name)) && ValidNames(p[1..])
    ensures DistinctNames(p) <==>
              (p[0].Named? ==> p[0].name !in Names(p[1..])) && DistinctNames(p[1..])
  {
    var q := p[1..];
    assert forall i :: 1 <= i < |p| ==> p[i] == q[i - 1];
    if DistinctNames(q) && (p[0].Named? ==> p[0].name !in Names(q)) {
      forall i, j | 0 <= i < j < |p| && p[i].Named? && p[j].Named?
        ensures p[i].name != p[j].name
      {
        if i == 0 {
          assert q[j - 1].name in Names(q);
        } else {
          assert q[i - 1].name != q[j - 1].name;
        }
      }
    }
    if DistinctNames(p) && p[0].Named? {
      forall j | 0 <= j < |q| && q[j].Named? ensures q[j].name != p[0].name {
        assert p[j + 1] == q[j];
      }
    }
    if DistinctNames(p) {
      forall i, j | 0 <= i < j < |q| && q[i].Named? && q[j].Named?
        ensures q[i].name != q[j].name
      {
        assert p[i + 1] == q[i] && p[j + 1] == q[j];
      }
    }
  }

  /** `create_routing_rule`: drop everything up to the first `/`, compile each remaining
      segment, then let the group-name checks run over the assembled pattern. */
  function Compile(template: string): (r: Result<Pattern, CompileError>)
    ensures r.Success? ==> Canonical(r.value)
    ensures r.Success? ==> |r.value| == Count(template, '/')
  {
    var p :- CompileSegments(Split(template, '/')[1..]);
    match CheckNames(p, {})
    case Pass => Success(p)
    case Fail(e) => Failure(e)
  }

  // ---------------------------------------------------------------------------
  // Matching and capture extraction (the anchored expression `^...$`)
  // ---------------------------------------------------------------------------

  function Cons(v: string, r: Option<seq<string>>): Option<seq<string>> {
    match r
    case None => None
    case Some(vs) => Some([v] + vs)
  }

  /** Matches the whole of `s` against `p`. On success the result holds one string per
      token: what a `Named` or `Wild` token captured, and "" for `Slash` and `Lit`. */
  function Match(p: Pattern, s: string): (r: Option<seq<string>>)
    ensures r.Some? ==> |r.value| == |p|
    decreases |p|, 0, 0
  {
    if p == [] then (if s == "" then Some([]) else None)
    else if s == "" || s[0] != '/' then None
    else
      var t := s[1..];
      match p[0]
      case Slash => Cons("", Match(p[1..], t))
      case Lit(w) => if w <= t then Cons("", Match(p[1..], t[|w|..])) else None
      case Named(_) =>
        var k := WordRun(t);
        Cons(t[..k], Match(p[1..], t[k..]))
      case Wild => TryWild(p[1..], t, LineRun(t))
  }

  /** The greedy `(.*)`: try the longest newline-free prefix of `t` first and give back one
      character at a time until the rest of the pattern matches what is left. */
  function TryWild(rest: Pattern, t: string, k: nat): (r: Option<seq<string>>)
    requires k <= LineRun(t)
    ensures r.Some? ==> |r.value| == |rest| + 1
    decreases |rest|, 1, k
  {
    match Match(rest, t[k..])
    case Some(vs) => Some([t[..k]] + vs)
    case None => if k == 0 then None else TryWild(rest, t, k - 1)
  }

  /** `Regex::is_match`. */
  predicate Matches(p: Pattern, path: string) {
    Match(p, path).Some?
  }

  /** The named captures of one match, by name (`Captures::iter_named` collected). */
  function Vars(p: Pattern, vals: seq<string>): (r: map<string, string>)
    requires |vals| == |p|
    ensures r.Keys == Names(p)
    decreases |p|
  {
    if p == [] then map[]
    else
      NamesCons(p);
      var m := Vars(p[1..], vals[1..]);
      if p[0].Named? then m[p[0].name := vals[0]] else m
  }

  /** `Regex::captures` followed by the collection of the named groups. */
  function CaptureVars(p: Pattern, path: string): (r: Option<map<string, string>>)
    ensures r.Some? <==> Matches(p, path)
    ensures r.Some? ==> r.value.Keys == Names(p)
  {
    match Match(p, path)
    case None => None
    case Some(vals) => Some(Vars(p, vals))
  }

  // ---------------------------------------------------------------------------
  // The text of the compiled expression, and routes
  // ---------------------------------------------------------------------------

  function TokenRegex(t: Token): string {
    match t
    case Slash => "/"
    case Lit(w) => "/" + w
    case Named(n) => "/(?P<" + n + ">\\w*)"
    case Wild => "/(.*)"
  }

  function RegexBody(p: Pattern): string
    decreases |p|
  {
    if p == [] then "" else TokenRegex(p[0]) + RegexBody(p[1..])
  }

  /** The string the source hands to `Regex::new`. */
  function RegexSource(p: Pattern): string {
    "^" + RegexBody(p) + "$"
  }

  datatype Route = Route(pattern: Pattern, handler: Handler, methods: seq<Method>)

  /** `Route::new`: a route for every method. */
  function NewRoute(template: string, handler: Handler): (r: Result<Route, CompileError>)
    ensures r.Success? <==> Compile(template).Success?
    ensures r.Success? ==> r.value.methods == [] && r.value.handler == handler
    ensures r.Success? ==> r.value.pattern == Compile(template).value
  {
    var p :- Compile(template);
    Success(Route(p, handler, []))
  }

  /** `Route::with_methods`: a route restricted to a copy of the given methods. */
  function RouteWithMethods(template: string, handler: Handler, methods: seq<Method>)
    : (r: Result<Route, CompileError>)
    ensures r.Success? <==> Compile(template).Success?
    ensures r.Success? ==> r.value.methods == methods && r.value.handler == handler
    ensures r.Success? ==> r.value.pattern == Compile(template).value
  {
    var p :- Compile(template);
    Success(Route(p, handler, methods))
  }

  /** `PartialEq for Route`: two routes are equal when their expressions have the same
      text; handler and methods are ignored. */
  predicate SameRoute(a: Route, b: Route) {
    RegexSource(a.pattern) == RegexSource(b.pattern)
  }

  /** The route accepts the request method: an empty list accepts every method. */
  predicate Allows(r: Route, m: Method) {
    r.methods == [] || m in r.methods
  }
}

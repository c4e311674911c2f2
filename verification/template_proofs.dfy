/** Compilation and template text are inverse to each other, and the text of the compiled
    expression identifies the pattern. */
module TemplateProofs {
  import opened Wrappers
  import opened Strings
  import opened Routing
  import opened RoutingProofs

  // ---------------------------------------------------------------------------
  // Compiling the template text of a pattern gives the pattern back
  // ---------------------------------------------------------------------------

  lemma TextsSlashFree(p: Pattern)
    requires WellFormed(p)
    ensures forall i :: 0 <= i < |Texts(p)| ==> '/' !in Texts(p)[i]
  {
    forall i | 0 <= i < |p| ensures '/' !in SegmentText(p[i]) {
      assert WellFormedToken(p[i]);
      match p[i]
      case Slash =>
      case Lit(w) => WordHasNoSlash(w);
      case Named(n) =>
        WordHasNoSlash(n);
        assert "{" + n + "}" == ['{'] + n + ['}'];
      case Wild =>
    }
  }

  lemma CompileSegmentText(t: Token)
    requires WellFormedToken(t)
    ensures CompileSegment(SegmentText(t)) == Success(t)
  {
    var seg := SegmentText(t);
    match t
    case Slash =>
    case Lit(w) =>
      assert !IsWordChar('{');
      assert !IsBraced(seg);
    case Named(n) =>
      assert seg[1..|seg| - 1] == n;
      assert IsBraced(seg);
    case Wild =>
      assert !IsWordChar('*');
      assert !IsBraced(seg);
      assert !AllWord(seg);
  }

  lemma {:induction false} CompileTexts(p: Pattern)
    requires WellFormed(p)
    ensures CompileSegments(Texts(p)) == Success(p)
    decreases |p|
  {
    if p != [] {
      WellFormedTail(p);
      CompileSegmentText(p[0]);
      assert Texts(p)[0] == SegmentText(p[0]);
      assert Texts(p)[1..] == Texts(p[1..]);
      CompileTexts(p[1..]);
      assert p == [p[0]] + p[1..];
    }
  }

  /** Every canonical pattern is the compilation of its template, whatever separator-free
      text precedes the first `/`. */
  lemma CompileOfTemplate(pre: string, p: Pattern)
    requires Canonical(p)
    requires '/' !in pre
    ensures Compile(pre + Template(p)) == Success(p)
  {
    var texts := Texts(p);
    JoinHead(pre, texts, '/');
    TextsSlashFree(p);
    SplitJoin([pre] + texts, '/');
    assert Split(pre + Template(p), '/')[1..] == texts;
    CompileTexts(p);
    assert Names(p) !! {};
  }

  /** Conversely, a template that compiles is the text before its first `/` followed by the
      template of the compiled pattern: that leading text plays no part. */
  lemma CompileShape(template: string)
    requires Compile(template).Success?
    ensures '/' !in Split(template, '/')[0]
    ensures template == Split(template, '/')[0] + Template(Compile(template).value)
  {
    var parts := Split(template, '/');
    var p := Compile(template).value;
    assert CompileSegments(parts[1..]) == Success(p);
    assert Texts(p) == parts[1..];
    assert parts == [parts[0]] + parts[1..];
    JoinHead(parts[0], parts[1..], '/');
  }

  /** Text before the first `/` is discarded. */
  lemma DropBeforeFirstSlash(pre: string, rest: string)
    requires '/' !in pre
    ensures Compile(pre + "/" + rest) == Compile("/" + rest)
  {
    SplitAfterPrefix(pre, rest, '/');
    SplitAfterPrefix("", rest, '/');
    assert "" + ['/'] + rest == "/" + rest;
  }

  lemma TemplateSnocSlash(p: Pattern)
    ensures Template(p + [Slash]) == Template(p) + "/"
    decreases |p|
  {
    if p == [] {
      TemplateOfRoot();
      assert p + [Slash] == [Slash];
      assert Texts(p) == [];
      assert [""] + Texts(p) == [""];
    } else {
      TemplateCons(p);
      TemplateCons(p + [Slash]);
      assert (p + [Slash])[1..] == p[1..] + [Slash];
      TemplateSnocSlash(p[1..]);
    }
  }

  lemma TemplateOfRoot()
    ensures Template([Slash]) == "/"
  {
    assert Texts([Slash]) == [""];
    assert [""] + Texts([Slash]) == ["", ""];
    assert Join(["", ""], '/') == "" + "/" + Join([""], '/');
  }

  lemma CanonicalSnocSlash(p: Pattern)
    requires Canonical(p)
    ensures Canonical(p + [Slash])
  {
    var q := p + [Slash];
    assert forall i :: 0 <= i < |p| ==> q[i] == p[i];
    assert WellFormed(q);
    assert ValidNames(q);
    assert DistinctNames(q);
  }

  /** A trailing `/` in a template adds a required trailing slash to the matcher. */
  lemma TrailingSlash(template: string)
    requires Compile(template).Success?
    ensures Compile(template + "/") == Success(Compile(template).value + [Slash])
  {
    var p := Compile(template).value;
    var pre := Split(template, '/')[0];
    CompileShape(template);
    TemplateSnocSlash(p);
    CanonicalSnocSlash(p);
    assert template + "/" == pre + Template(p + [Slash]);
    CompileOfTemplate(pre, p + [Slash]);
  }

  /** The template `/` compiles to a matcher accepting exactly `/`. */
  lemma RootTemplate(s: string)
    ensures Compile("/") == Success([Slash])
    ensures Matches([Slash], s) <==> s == "/"
  {
    TemplateOfRoot();
    assert "" + Template([Slash]) == "/";
    CompileOfTemplate("", [Slash]);
    CaptureFreeMatchesExactly([Slash], s);
  }

  /** A segment holding a character that is neither a word character nor part of the
      `{…}` or `**` forms (such as `-` or `.`) is not recognised. */
  lemma SegmentWithForeignChar(seg: string, j: nat)
    requires j < |seg|
    requires !IsWordChar(seg[j]) && seg[j] != '{' && seg[j] != '}' && seg[j] != '*'
    ensures CompileSegment(seg).Failure?
  {
  }

  /** A template with such a segment after its first `/` does not compile. */
  lemma ForeignCharRejected(template: string, i: nat, j: nat)
    requires 1 <= i < |Split(template, '/')|
    requires j < |Split(template, '/')[i]|
    requires var c := Split(template, '/')[i][j];
             !IsWordChar(c) && c != '{' && c != '}' && c != '*'
    ensures Compile(template).Failure?
  {
    var segs := Split(template, '/')[1..];
    SegmentWithForeignChar(segs[i - 1], j);
    assert CompileSegments(segs).Failure?;
  }

  lemma CompileBraced(n: string)
    requires AllWord(n)
    ensures Split("/{" + n + "}", '/')[1..] == [SegmentText(Named(n))]
    ensures CompileSegments([SegmentText(Named(n))]) == Success([Named(n)])
  {
    WordHasNoSlash(n);
    var seg := SegmentText(Named(n));
    assert '/' !in seg by {
      assert seg == ['{'] + n + ['}'];
    }
    assert "/{" + n + "}" == Join(["", seg], '/');
    SplitJoin(["", seg], '/');
    assert Texts([Named(n)]) == [seg];
    CompileTexts([Named(n)]);
  }

  /** An empty group name is refused. */
  lemma EmptyNameRejected()
    ensures Compile("/{}") == Failure(InvalidCaptureName(""))
  {
    CompileBraced("");
    assert "/{" + "" + "}" == "/{}";
    assert CheckNames([Named("")], {}) == Fail(InvalidCaptureName(""));
  }

  lemma SplitTwice(seg: string)
    requires '/' !in seg
    ensures Split("/" + seg + "/" + seg, '/')[1..] == [seg, seg]
  {
    assert Join([seg], '/') == seg;
    assert Join([seg, seg], '/') == seg + "/" + seg by {
      assert [seg, seg][1..] == [seg];
    }
    assert Join(["", seg, seg], '/') == "" + "/" + Join([seg, seg], '/') by {
      assert ["", seg, seg][1..] == [seg, seg];
    }
    assert "/" + seg + "/" + seg == Join(["", seg, seg], '/');
    SplitJoin(["", seg, seg], '/');
    assert ["", seg, seg][1..] == [seg, seg];
  }

  lemma CheckNamesDuplicate(n: string)
    requires ValidCaptureName(n)
    ensures CheckNames([Named(n), Named(n)], {}) == Fail(DuplicateCaptureName(n))
  {
    var p := [Named(n), Named(n)];
    assert p[1..] == [Named(n)];
    assert CheckNames(p[1..], {n}) == Fail(DuplicateCaptureName(n));
  }

  /** A group name used twice is refused. */
  lemma DuplicateNameRejected(n: string)
    requires AllWord(n) && ValidCaptureName(n)
    ensures Compile("/" + SegmentText(Named(n)) + "/" + SegmentText(Named(n)))
            == Failure(DuplicateCaptureName(n))
  {
    var p := [Named(n), Named(n)];
    var seg := SegmentText(Named(n));
    WordHasNoSlash(n);
    assert '/' !in seg by {
      assert seg == ['{'] + n + ['}'];
    }
    assert Texts(p) == [seg, seg];
    CompileTexts(p);
    SplitTwice(seg);
    CheckNamesDuplicate(n);
  }

  // ---------------------------------------------------------------------------
  // The expression text determines the pattern
  // ---------------------------------------------------------------------------

  /** Each token's text starts with its only `/`. */
  lemma TokenRegexShape(t: Token)
    requires WellFormedToken(t)
    ensures |TokenRegex(t)| >= 1 && TokenRegex(t)[0] == '/'
    ensures forall i :: 1 <= i < |TokenRegex(t)| ==> TokenRegex(t)[i] != '/'
  {
    match t
    case Slash =>
    case Lit(w) => WordHasNoSlash(w);
    case Named(n) =>
      WordHasNoSlash(n);
      var r := TokenRegex(t);
      assert r == "/(?P<" + n + ">\\w*)";
      forall i | 1 <= i < |r| ensures r[i] != '/' {
        if 5 <= i < 5 + |n| {
          assert r[i] == n[i - 5];
        }
      }
    case Wild =>
  }

  lemma TokenRegexInjective(a: Token, b: Token)
    requires WellFormedToken(a) && WellFormedToken(b)
    requires TokenRegex(a) == TokenRegex(b)
    ensures a == b
  {
    var r := TokenRegex(a);
    assert !IsWordChar('(');
    match a {
      case Slash =>
        assert |r| == 1;
      case Lit(w) =>
        assert r[1] == w[0];
        match b {
          case Lit(w') => assert w == r[1..] == w';
          case _ =>
        }
      case Named(n) =>
        assert r[1] == '(' && r[2] == '?';
        match b {
          case Named(n') =>
            assert |n| == |n'|;
            assert n == r[5..5 + |n|] == n';
          case _ =>
        }
      case Wild =>
        assert r[1] == '(' && r[2] == '.';
    }
  }

  /** Two concatenations of a `/`-led, otherwise `/`-free piece and a rest that is empty or
      starts with `/` agree only if the first pieces have the same length. */
  lemma SameFirstPiece(x: string, bx: string, y: string, ys: string)
    requires |x| >= 1 && forall i :: 1 <= i < |x| ==> x[i] != '/'
    requires |y| >= 1 && forall i :: 1 <= i < |y| ==> y[i] != '/'
    requires bx == [] || bx[0] == '/'
    requires ys == [] || ys[0] == '/'
    requires x + bx == y + ys
    ensures |x| == |y|
  {
    if |x| < |y| {
      ConcatLeft(y, ys, |x|);
      assert false;
    }
    if |y| < |x| {
      ConcatLeft(x, bx, |y|);
      assert false;
    }
  }

  lemma ConcatLeft(a: string, b: string, k: nat)
    requires k < |a|
    ensures (a + b)[k] == a[k]
  {
  }

  lemma RegexBodyStart(p: Pattern)
    requires WellFormed(p) && p != []
    ensures |RegexBody(p)| >= 1 && RegexBody(p)[0] == '/'
  {
    TokenRegexShape(p[0]);
  }

  lemma {:induction false} RegexBodyInjective(p: Pattern, q: Pattern)
    requires WellFormed(p) && WellFormed(q)
    requires RegexBody(p) == RegexBody(q)
    ensures p == q
    decreases |p|
  {
    if p == [] || q == [] {
      if p != [] { RegexBodyStart(p); }
      if q != [] { RegexBodyStart(q); }
    } else {
      WellFormedTail(p);
      WellFormedTail(q);
      var x, y := TokenRegex(p[0]), TokenRegex(q[0]);
      var bx, ys := RegexBody(p[1..]), RegexBody(q[1..]);
      TokenRegexShape(p[0]);
      TokenRegexShape(q[0]);
      if p[1..] != [] { RegexBodyStart(p[1..]); }
      if q[1..] != [] { RegexBodyStart(q[1..]); }
      assert x + bx == y + ys;
      assert bx == [] || bx[0] == '/' by {
        if p[1..] == [] { assert bx == []; }
      }
      assert ys == [] || ys[0] == '/' by {
        if q[1..] == [] { assert ys == []; }
      }
      SameFirstPiece(x, bx, y, ys);
      assert x == (x + bx)[..|x|] && y == (y + ys)[..|y|];
      assert bx == (x + bx)[|x|..] && ys == (y + ys)[|y|..];
      TokenRegexInjective(p[0], q[0]);
      RegexBodyInjective(p[1..], q[1..]);
      assert p == [p[0]] + p[1..] && q == [q[0]] + q[1..];
    }
  }

  /** Route equality compares expression text only, and for compiled routes that is the
      same as comparing patterns: handlers and method lists are ignored. */
  lemma SameRouteIffSamePattern(a: Route, b: Route)
    requires WellFormed(a.pattern) && WellFormed(b.pattern)
    ensures SameRoute(a, b) <==> a.pattern == b.pattern
  {
    if SameRoute(a, b) {
      var ra, rb := RegexSource(a.pattern), RegexSource(b.pattern);
      assert RegexBody(a.pattern) == ra[1..|ra| - 1];
      assert RegexBody(b.pattern) == rb[1..|rb| - 1];
      RegexBodyInjective(a.pattern, b.pattern);
    }
  }
}

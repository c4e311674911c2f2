/** What the compiled matchers accept and capture, stated against an independent
    description: a path is an admissible filling of the pattern's slots. */
module RoutingProofs {
  import opened Wrappers
  import opened Strings
  import opened Routing

  // ---------------------------------------------------------------------------
  // Filling a pattern's slots
  // ---------------------------------------------------------------------------

  /** The text a token stands for once its slot holds `v`. */
  function Piece(t: Token, v: string): string {
    match t
    case Slash => ""
    case Lit(w) => w
    case Named(_) => v
    case Wild => v
  }

  /** The path obtained by substituting `vals[i]` for the i-th token. */
  function Fill(p: Pattern, vals: seq<string>): string
    requires |vals| == |p|
    decreases |p|
  {
    if p == [] then "" else "/" + Piece(p[0], vals[0]) + Fill(p[1..], vals[1..])
  }

  /** What a slot may hold: nothing for `Slash` and `Lit`, a word for `Named`, a line for
      `Wild`. */
  predicate SlotFits(t: Token, v: string) {
    match t
    case Slash => v == ""
    case Lit(_) => v == ""
    case Named(_) => AllWord(v)
    case Wild => NoNewline(v)
  }

  predicate Admissible(p: Pattern, vals: seq<string>) {
    |vals| == |p| && forall i :: 0 <= i < |p| ==> SlotFits(p[i], vals[i])
  }

  predicate NoWildBefore(p: Pattern, i: int) {
    forall j :: 0 <= j < i && j < |p| ==> !p[j].Wild?
  }

  /** A `Wild` slot may hold a `/` only when it is the last token and the first `Wild`;
      otherwise a greedy earlier wildcard would swallow part of the filling. */
  predicate GreedySafe(p: Pattern, vals: seq<string>) {
    |vals| == |p| &&
    forall i :: 0 <= i < |p| && p[i].Wild? && '/' in vals[i] ==> i == |p| - 1 && NoWildBefore(p, i)
  }

  lemma AdmissibleCons(p: Pattern, vals: seq<string>)
    requires |p| > 0 && |vals| == |p|
    ensures Admissible(p, vals) <==> SlotFits(p[0], vals[0]) && Admissible(p[1..], vals[1..])
  {
    if SlotFits(p[0], vals[0]) && Admissible(p[1..], vals[1..]) {
      forall i | 0 <= i < |p| ensures SlotFits(p[i], vals[i]) {
        if i > 0 {
          assert p[i] == p[1..][i - 1] && vals[i] == vals[1..][i - 1];
        }
      }
    }
    if Admissible(p, vals) {
      forall i | 0 <= i < |p| - 1 ensures SlotFits(p[1..][i], vals[1..][i]) {
        assert p[1..][i] == p[i + 1] && vals[1..][i] == vals[i + 1];
      }
    }
  }

  lemma WordHasNoSlash(v: string)
    requires AllWord(v)
    ensures '/' !in v
  {
    forall i | 0 <= i < |v| ensures v[i] != '/' {
      assert IsWordChar(v[i]);
    }
  }

  lemma CountPresent(s: string, i: nat, c: char)
    requires i < |s| && s[i] == c
    ensures Count(s, c) >= 1
  {
    assert s == s[..i] + s[i..];
    CountAppend(s[..i], s[i..], c);
  }

  // ---------------------------------------------------------------------------
  // Soundness: whatever matches is an admissible filling, and the whole path is used
  // ---------------------------------------------------------------------------

  lemma {:induction false} MatchSound(p: Pattern, s: string)
    requires Match(p, s).Some?
    ensures Admissible(p, Match(p, s).value)
    ensures Fill(p, Match(p, s).value) == s
    decreases |p|, 0, 0
  {
    var vals := Match(p, s).value;
    if p != [] {
      var t := s[1..];
      assert s == "/" + t;
      match p[0]
      case Slash =>
        MatchSound(p[1..], t);
        AdmissibleCons(p, vals);
      case Lit(w) =>
        assert t == w + t[|w|..];
        MatchSound(p[1..], t[|w|..]);
        AdmissibleCons(p, vals);
      case Named(_) =>
        var k := WordRun(t);
        assert t == t[..k] + t[k..];
        MatchSound(p[1..], t[k..]);
        AdmissibleCons(p, vals);
      case Wild =>
        assert p == [Wild] + p[1..];
        TryWildSound(p[1..], t, LineRun(t));
    }
  }

  lemma {:induction false} TryWildSound(rest: Pattern, t: string, k: nat)
    requires k <= LineRun(t)
    requires TryWild(rest, t, k).Some?
    ensures Admissible([Wild] + rest, TryWild(rest, t, k).value)
    ensures Fill([Wild] + rest, TryWild(rest, t, k).value) == "/" + t
    decreases |rest|, 1, k
  {
    match Match(rest, t[k..])
    case Some(vs) =>
      MatchSound(rest, t[k..]);
      WildHead(rest, t, k, vs);
    case None =>
      TryWildSound(rest, t, k - 1);
  }

  /** A newline-free prefix in front of an admissible filling of the rest is an admissible
      filling of `[Wild] + rest`. */
  lemma WildHead(rest: Pattern, t: string, k: nat, vs: seq<string>)
    requires k <= LineRun(t)
    requires Admissible(rest, vs) && Fill(rest, vs) == t[k..]
    ensures Admissible([Wild] + rest, [t[..k]] + vs)
    ensures Fill([Wild] + rest, [t[..k]] + vs) == "/" + t
  {
    var p := [Wild] + rest;
    var vals := [t[..k]] + vs;
    assert p[1..] == rest && vals[1..] == vs;
    assert NoNewline(t[..k]) by {
      assert forall i :: 0 <= i < k ==> t[..k][i] == t[..LineRun(t)][i];
    }
    AdmissibleCons(p, vals);
    assert t == t[..k] + t[k..];
  }

  // ---------------------------------------------------------------------------
  // Every token needs its own `/`
  // ---------------------------------------------------------------------------

  lemma {:induction false} FillSlashes(p: Pattern, vals: seq<string>)
    requires |vals| == |p|
    ensures Count(Fill(p, vals), '/') >= |p|
    ensures (forall i :: 0 <= i < |p| ==> '/' !in Piece(p[i], vals[i])) ==>
              Count(Fill(p, vals), '/') == |p|
    decreases |p|
  {
    if p != [] {
      var piece := Piece(p[0], vals[0]);
      var rest := Fill(p[1..], vals[1..]);
      FillSlashes(p[1..], vals[1..]);
      assert Fill(p, vals) == "/" + (piece + rest);
      CountAppend("/", piece + rest, '/');
      CountAppend(piece, rest, '/');
      assert Count("/", '/') == 1 by {
        assert "/"[1..] == "";
      }
      if forall i :: 0 <= i < |p| ==> '/' !in Piece(p[i], vals[i]) {
        CountAbsent(piece, '/');
        forall i | 0 <= i < |p| - 1 ensures '/' !in Piece(p[1..][i], vals[1..][i]) {
          assert p[1..][i] == p[i + 1] && vals[1..][i] == vals[i + 1];
        }
      }
    }
  }

  /** No match is possible on a string with fewer `/` than the pattern has tokens. */
  lemma TooFewSlashes(p: Pattern, s: string)
    requires Count(s, '/') < |p|
    ensures Match(p, s).None?
  {
    if Match(p, s).Some? {
      MatchSound(p, s);
      FillSlashes(p, Match(p, s).value);
    }
  }

  // ---------------------------------------------------------------------------
  // Completeness: the greedy matcher recovers every safe filling
  // ---------------------------------------------------------------------------

  lemma {:induction false} TryWildFinds(rest: Pattern, t: string, k: nat, j: nat)
    requires j <= k <= LineRun(t)
    requires Match(rest, t[j..]).Some?
    requires forall m :: j < m <= k ==> Match(rest, t[m..]).None?
    ensures TryWild(rest, t, k) == Some([t[..j]] + Match(rest, t[j..]).value)
    decreases k
  {
    if k > j {
      assert Match(rest, t[k..]).None?;
      TryWildFinds(rest, t, k - 1, j);
    }
  }

  lemma WordRunStops(v: string, f: string)
    requires AllWord(v)
    requires f == "" || f[0] == '/'
    ensures WordRun(v + f) == |v|
  {
    var t := v + f;
    var k := WordRun(t);
    assert forall i :: 0 <= i < |v| ==> t[i] == v[i];
    assert |t| > |v| ==> t[|v|] == '/';
  }

  lemma LineRunCovers(v: string, f: string)
    requires NoNewline(v)
    ensures LineRun(v + f) >= |v|
  {
    var t := v + f;
    assert forall i :: 0 <= i < |v| ==> t[i] == v[i];
  }

  lemma FillShape(p: Pattern, vals: seq<string>)
    requires |vals| == |p|
    ensures Fill(p, vals) == "" <==> p == []
    ensures p != [] ==> Fill(p, vals)[0] == '/'
  {
  }

  lemma GreedySafeTail(p: Pattern, vals: seq<string>)
    requires |p| > 0 && GreedySafe(p, vals)
    ensures GreedySafe(p[1..], vals[1..])
    ensures p[0].Wild? ==>
              forall i :: 0 <= i < |p| - 1 && p[1..][i].Wild? ==> '/' !in vals[1..][i]
  {
    var q, ws := p[1..], vals[1..];
    forall i | 0 <= i < |q| && q[i].Wild? && '/' in ws[i]
      ensures i == |q| - 1 && NoWildBefore(q, i)
    {
      assert p[i + 1] == q[i] && vals[i + 1] == ws[i];
      assert NoWildBefore(p, i + 1);
      forall j | 0 <= j < i ensures !q[j].Wild? {
        assert q[j] == p[j + 1];
      }
    }
    if p[0].Wild? {
      forall i | 0 <= i < |q| && q[i].Wild? ensures '/' !in ws[i] {
        assert p[i + 1] == q[i] && vals[i + 1] == ws[i];
        assert !NoWildBefore(p, i + 1);
      }
    }
  }

  lemma WellFormedTail(p: Pattern)
    requires |p| > 0 && WellFormed(p)
    ensures WellFormedToken(p[0]) && WellFormed(p[1..])
  {
    assert forall i :: 0 <= i < |p| - 1 ==> p[1..][i] == p[i + 1];
  }

  /** Substituting a word for every `{n}` and a line for every `**` (a line with `/` only in
      the first and last wildcard) gives a path that matches, with exactly those captures. */
  lemma {:induction false} MatchFill(p: Pattern, vals: seq<string>)
    requires WellFormed(p)
    requires Admissible(p, vals)
    requires GreedySafe(p, vals)
    ensures Match(p, Fill(p, vals)) == Some(vals)
    decreases |p|
  {
    if p == [] {
      assert vals == [];
    } else {
      var s := Fill(p, vals);
      var rest, vs := p[1..], vals[1..];
      var f := Fill(rest, vs);
      var v := vals[0];
      var t := s[1..];
      assert s == "/" + (Piece(p[0], v) + f);
      assert t == Piece(p[0], v) + f;
      AdmissibleCons(p, vals);
      GreedySafeTail(p, vals);
      WellFormedTail(p);
      MatchFill(rest, vs);
      FillShape(rest, vs);
      assert vals == [v] + vs;
      match p[0]
      case Slash =>
        assert t == f;
      case Lit(w) =>
        assert t[|w|..] == f;
      case Named(_) =>
        WordRunStops(v, f);
        assert t[..|v|] == v && t[|v|..] == f;
      case Wild =>
        WildFill(rest, vs, v);
    }
  }

  /** Once some split point at or below `k` lets the rest match, giving back characters
      reaches one. */
  lemma {:induction false} TryWildSucceeds(rest: Pattern, t: string, k: nat, j: nat)
    requires j <= k <= LineRun(t)
    requires Match(rest, t[j..]).Some?
    ensures TryWild(rest, t, k).Some?
    decreases k
  {
    if Match(rest, t[k..]).None? {
      TryWildSucceeds(rest, t, k - 1, j);
    }
  }

  /** Every admissible filling matches, whatever the wildcards hold: the path is accepted,
      though with two wildcards the captures may split differently than filled. */
  lemma {:induction false} MatchComplete(p: Pattern, vals: seq<string>)
    requires WellFormed(p)
    requires Admissible(p, vals)
    ensures Matches(p, Fill(p, vals))
    decreases |p|
  {
    if p != [] {
      var s := Fill(p, vals);
      var rest, vs := p[1..], vals[1..];
      var f := Fill(rest, vs);
      var v := vals[0];
      var t := s[1..];
      assert s == "/" + (Piece(p[0], v) + f);
      assert t == Piece(p[0], v) + f;
      AdmissibleCons(p, vals);
      WellFormedTail(p);
      MatchComplete(rest, vs);
      FillShape(rest, vs);
      match p[0]
      case Slash =>
        assert t == f;
      case Lit(w) =>
        assert t[|w|..] == f;
      case Named(_) =>
        WordRunStops(v, f);
        assert t[|v|..] == f;
      case Wild =>
        LineRunCovers(v, f);
        assert t[|v|..] == f;
        TryWildSucceeds(rest, t, LineRun(t), |v|);
    }
  }

  /** A wildcard ahead of a literal still accepts a remainder holding further `/`. */
  lemma WildBeforeLiteral(a: string, b: string)
    requires AllWord(a) && AllWord(b)
    ensures Matches([Wild, Lit("x")], "/" + a + "/" + b + "/x")
  {
    var p, vals := [Wild, Lit("x")], [a + "/" + b, ""];
    assert AllWord("x");
    assert WellFormed(p);
    forall c | c in a + "/" + b ensures c != '\n' {
      assert c in a || c == '/' || c in b;
    }
    assert Admissible(p, vals);
    assert Fill(p, vals) == "/" + a + "/" + b + "/x";
    MatchComplete(p, vals);
  }

  /** The `Wild` step of `MatchFill`: with the tail already recovered, the greedy wildcard
      gives back characters exactly down to the filled value. */
  lemma WildFill(rest: Pattern, vs: seq<string>, v: string)
    requires WellFormed(rest) && Admissible(rest, vs) && GreedySafe(rest, vs)
    requires NoNewline(v)
    requires rest != [] ==>
               '/' !in v && forall i :: 0 <= i < |rest| && rest[i].Wild? ==> '/' !in vs[i]
    requires Match(rest, Fill(rest, vs)) == Some(vs)
    ensures TryWild(rest, v + Fill(rest, vs), LineRun(v + Fill(rest, vs))) == Some([v] + vs)
  {
    var f := Fill(rest, vs);
    var t := v + f;
    LineRunCovers(v, f);
    FillShape(rest, vs);
    assert t[..|v|] == v && t[|v|..] == f;
    if rest != [] {
      PiecesSlashFree(rest, vs);
      FillSlashes(rest, vs);
      forall m | |v| < m <= LineRun(t) ensures Match(rest, t[m..]).None? {
        LongerWildFails(rest, v, f, m);
      }
    }
    TryWildFinds(rest, t, LineRun(t), |v|);
  }

  lemma PiecesSlashFree(p: Pattern, vals: seq<string>)
    requires WellFormed(p) && Admissible(p, vals)
    requires forall i :: 0 <= i < |p| && p[i].Wild? ==> '/' !in vals[i]
    ensures forall i :: 0 <= i < |p| ==> '/' !in Piece(p[i], vals[i])
  {
    forall i | 0 <= i < |p| ensures '/' !in Piece(p[i], vals[i]) {
      assert WellFormedToken(p[i]) && SlotFits(p[i], vals[i]);
      match p[i]
      case Slash =>
      case Lit(w) => WordHasNoSlash(w);
      case Named(_) => WordHasNoSlash(vals[i]);
      case Wild =>
    }
  }

  /** If the wildcard took more than `v`, it took the `/` that starts the filling of the
      rest, and what is left has too few separators for the rest to match. */
  lemma LongerWildFails(rest: Pattern, v: string, f: string, m: nat)
    requires '/' !in v
    requires f != [] ==> f[0] == '/'
    requires Count(f, '/') == |rest|
    requires |v| < m <= |v + f|
    ensures Match(rest, (v + f)[m..]).None?
  {
    var t := v + f;
    assert t[|v|] == '/';
    CountAbsent(v, '/');
    CountAppend(v, f, '/');
    assert t == t[..m] + t[m..];
    CountAppend(t[..m], t[m..], '/');
    CountPresent(t[..m], |v|, '/');
    TooFewSlashes(rest, t[m..]);
  }

  // ---------------------------------------------------------------------------
  // Captures by name
  // ---------------------------------------------------------------------------

  lemma {:induction false} VarsLookup(p: Pattern, vals: seq<string>)
    requires |vals| == |p| && DistinctNames(p)
    ensures Vars(p, vals).Keys == Names(p)
    ensures forall i :: 0 <= i < |p| && p[i].Named? ==> Vars(p, vals)[p[i].name] == vals[i]
    decreases |p|
  {
    if p != [] {
      NamesCons(p);
      VarsLookup(p[1..], vals[1..]);
      forall i | 0 <= i < |p| && p[i].Named? ensures Vars(p, vals)[p[i].name] == vals[i] {
        if i > 0 {
          assert p[i] == p[1..][i - 1] && vals[i] == vals[1..][i - 1];
          if p[0].Named? {
            assert p[0].name != p[i].name;
          }
        }
      }
    }
  }

  /** The round trip through a compiled template: fill each `{n}` with a word and each `**`
      with a line, match, and read back exactly those values under their names. */
  lemma RouteRoundTrip(template: string, vals: seq<string>)
    requires Compile(template).Success?
    requires Admissible(Compile(template).value, vals)
    requires GreedySafe(Compile(template).value, vals)
    ensures var p := Compile(template).value;
            var c := CaptureVars(p, Fill(p, vals));
            c.Some? && c.value.Keys == Names(p) &&
            forall i :: 0 <= i < |p| && p[i].Named? ==> c.value[p[i].name] == vals[i]
  {
    var p := Compile(template).value;
    MatchFill(p, vals);
    VarsLookup(p, vals);
  }

  /** Whenever a compiled route matches, it captures exactly one value per name. */
  lemma CapturesCoverNames(template: string, path: string)
    requires Compile(template).Success?
    requires Matches(Compile(template).value, path)
    ensures CaptureVars(Compile(template).value, path).Some?
    ensures CaptureVars(Compile(template).value, path).value.Keys == Names(Compile(template).value)
  {
    var p := Compile(template).value;
    VarsLookup(p, Match(p, path).value);
  }

  // ---------------------------------------------------------------------------
  // What single tokens and capture-free patterns accept
  // ---------------------------------------------------------------------------

  predicate CaptureFree(p: Pattern) {
    forall i :: 0 <= i < |p| ==> p[i].Slash? || p[i].Lit?
  }

  function Blanks(n: nat): (r: seq<string>)
    ensures |r| == n && forall i :: 0 <= i < n ==> r[i] == ""
  {
    seq(n, _ => "")
  }

  lemma JoinHead(a: string, rest: seq<string>, sep: char)
    ensures Join([a] + rest, sep) == a + Join([""] + rest, sep)
  {
    if rest != [] {
      assert ([a] + rest)[1..] == rest;
      assert ([""] + rest)[1..] == rest;
    }
  }

  lemma TemplateCons(p: Pattern)
    requires p != []
    ensures Template(p) == "/" + SegmentText(p[0]) + Template(p[1..])
  {
    assert Texts(p) == [SegmentText(p[0])] + Texts(p[1..]);
    assert ([""] + Texts(p))[1..] == Texts(p);
    JoinHead(SegmentText(p[0]), Texts(p[1..]), '/');
  }

  lemma {:induction false} FillBlanksIsTemplate(p: Pattern)
    requires CaptureFree(p)
    ensures Fill(p, Blanks(|p|)) == Template(p)
    decreases |p|
  {
    if p != [] {
      TemplateCons(p);
      assert Blanks(|p|)[1..] == Blanks(|p| - 1);
      assert CaptureFree(p[1..]) by {
        assert forall i :: 0 <= i < |p| - 1 ==> p[1..][i] == p[i + 1];
      }
      FillBlanksIsTemplate(p[1..]);
    }
  }

  /** A pattern without captures accepts its own template text and nothing else: never a
      longer path, a shorter one, or one that only contains it. */
  lemma CaptureFreeMatchesExactly(p: Pattern, s: string)
    requires WellFormed(p) && CaptureFree(p)
    ensures Matches(p, s) <==> s == Template(p)
  {
    var b := Blanks(|p|);
    FillBlanksIsTemplate(p);
    if Matches(p, s) {
      MatchSound(p, s);
      var vals := Match(p, s).value;
      assert vals == b by {
        forall i | 0 <= i < |p| ensures vals[i] == "" {
          assert SlotFits(p[i], vals[i]);
        }
      }
    }
    if s == Template(p) {
      MatchFill(p, b);
    }
  }

  /** `{n}` accepts `/` followed by zero or more word characters and captures them. */
  lemma NamedSegmentMatch(n: string, s: string)
    requires AllWord(n)
    ensures Match([Named(n)], s) ==
              if |s| > 0 && s[0] == '/' && AllWord(s[1..]) then Some([s[1..]]) else None
  {
    var p := [Named(n)];
    if |s| > 0 && s[0] == '/' && AllWord(s[1..]) {
      assert Fill(p, [s[1..]]) == s;
      MatchFill(p, [s[1..]]);
    } else if Match(p, s).Some? {
      MatchSound(p, s);
    }
  }

  /** `**` accepts `/` followed by the rest of the line, including further `/`. */
  lemma WildSegmentMatch(s: string)
    ensures Match([Wild], s) ==
              if |s| > 0 && s[0] == '/' && NoNewline(s[1..]) then Some([s[1..]]) else None
  {
    var p := [Wild];
    if |s| > 0 && s[0] == '/' && NoNewline(s[1..]) {
      assert Fill(p, [s[1..]]) == s;
      MatchFill(p, [s[1..]]);
    } else if Match(p, s).Some? {
      MatchSound(p, s);
    }
  }
}

/** Character classes and the `split`/`join` primitives that the routing and query-string
    code build on. */
module Strings {

  /** The regular-expression class `\w`, restricted to its ASCII members. */
  predicate IsWordChar(c: char) {
    ('a' <= c <= 'z') || ('A' <= c <= 'Z') || ('0' <= c <= '9') || c == '_'
  }

  predicate IsDigit(c: char) {
    '0' <= c <= '9'
  }

  /** ASCII lower-casing; every other character is left alone. */
  function ToLower(c: char): (d: char)
    ensures 'A' <= c <= 'Z' ==> d as int == c as int + 32
    ensures !('A' <= c <= 'Z') ==> d == c
  {
    if 'A' <= c <= 'Z' then (c as int + 32) as char else c
  }

  /** The string with every ASCII capital lower-cased: the key under which two names that
      differ only in ASCII case compare equal. */
  function FoldCase(s: string): (r: string)
    ensures |r| == |s|
    ensures forall i :: 0 <= i < |s| ==> r[i] == ToLower(s[i])
    decreases |s|
  {
    if s == [] then [] else [ToLower(s[0])] + FoldCase(s[1..])
  }

  /** The whole string is made of word characters (matches `^\w*$`). */
  predicate AllWord(s: string) {
    forall i :: 0 <= i < |s| ==> IsWordChar(s[i])
  }

  /** The string contains no newline (matches `^.*$` when `.` excludes a newline). */
  predicate NoNewline(s: string) {
    forall i :: 0 <= i < |s| ==> s[i] != '\n'
  }

  /** Length of the longest prefix made of word characters. */
  function WordRun(s: string): (k: nat)
    ensures k <= |s|
    ensures AllWord(s[..k])
    ensures k < |s| ==> !IsWordChar(s[k])
    decreases |s|
  {
    if s == [] || !IsWordChar(s[0]) then 0
    else
      var k := 1 + WordRun(s[1..]);
      assert s[..k] == [s[0]] + s[1..][..k - 1];
      k
  }

  /** Length of the longest prefix without a newline. */
  function LineRun(s: string): (k: nat)
    ensures k <= |s|
    ensures NoNewline(s[..k])
    ensures k < |s| ==> s[k] == '\n'
    decreases |s|
  {
    if s == [] || s[0] == '\n' then 0
    else
      var k := 1 + LineRun(s[1..]);
      assert s[..k] == [s[0]] + s[1..][..k - 1];
      k
  }

  /** Position of the first occurrence of `c`. */
  function IndexOf(s: string, c: char): (i: nat)
    requires c in s
    ensures i < |s| && s[i] == c
    ensures c !in s[..i]
    decreases |s|
  {
    if s[0] == c then 0
    else
      var i := 1 + IndexOf(s[1..], c);
      assert s[..i] == [s[0]] + s[1..][..i - 1];
      i
  }

  /** The first `c` after a `c`-free prefix is found right after that prefix. */
  lemma {:induction false} IndexAfterPrefix(pre: string, rest: string, c: char)
    requires c !in pre
    ensures c in pre + [c] + rest
    ensures IndexOf(pre + [c] + rest, c) == |pre|
    decreases |pre|
  {
    var s := pre + [c] + rest;
    assert s[|pre|] == c;
    if pre != [] {
      assert s[0] == pre[0];
      assert s[1..] == pre[1..] + [c] + rest;
      IndexAfterPrefix(pre[1..], rest, c);
    }
  }

  /** Number of occurrences of `c`. */
  function Count(s: string, c: char): nat
    decreases |s|
  {
    if s == [] then 0 else (if s[0] == c then 1 else 0) + Count(s[1..], c)
  }

  lemma {:induction false} CountAppend(a: string, b: string, c: char)
    ensures Count(a + b, c) == Count(a, c) + Count(b, c)
    decreases |a|
  {
    if a == [] {
      assert a + b == b;
    } else {
      assert (a + b)[1..] == a[1..] + b;
      CountAppend(a[1..], b, c);
    }
  }

  lemma {:induction false} CountAbsent(s: string, c: char)
    requires c !in s
    ensures Count(s, c) == 0
    decreases |s|
  {
    if s != [] {
      assert c !in s[1..];
      CountAbsent(s[1..], c);
    }
  }

  /** Joins pieces with `sep` between consecutive pieces; the inverse of `Split`. */
  function Join(pieces: seq<string>, sep: char): string
    decreases |pieces|
  {
    if pieces == [] then ""
    else if |pieces| == 1 then pieces[0]
    else pieces[0] + [sep] + Join(pieces[1..], sep)
  }

  lemma JoinPair(a: string, b: string, sep: char)
    ensures Join([a, b], sep) == a + [sep] + b
  {
    assert [a, b][1..] == [b];
  }

  lemma JoinTriple(a: string, b: string, c: string, sep: char)
    ensures Join([a, b, c], sep) == a + [sep] + b + [sep] + c
  {
    assert [a, b, c][1..] == [b, c];
    JoinPair(b, c, sep);
  }

  /** Appending one more piece adds a separator and that piece. */
  lemma {:induction false} JoinSnoc(pieces: seq<string>, last: string, sep: char)
    requires pieces != []
    ensures Join(pieces + [last], sep) == Join(pieces, sep) + [sep] + last
    decreases |pieces|
  {
    var all := pieces + [last];
    assert all[1..] == pieces[1..] + [last];
    if |pieces| == 1 {
      assert all[1..] == [last];
    } else {
      JoinSnoc(pieces[1..], last, sep);
    }
  }

  /** `str::split(sep)` in Rust: every occurrence of `sep` separates two pieces, so the
      result always has one more piece than `s` has separators. */
  function Split(s: string, sep: char): (r: seq<string>)
    ensures |r| == Count(s, sep) + 1
    ensures forall i :: 0 <= i < |r| ==> sep !in r[i]
    ensures Join(r, sep) == s
    decreases |s|
  {
    if sep !in s then
      CountAbsent(s, sep);
      [s]
    else
      var i := IndexOf(s, sep);
      CutAtSeparator(s, i, sep);
      [s[..i]] + Split(s[i + 1..], sep)
  }

  /** Cutting `s` at its first separator: the separator count drops by one and joining the
      two halves back with the separator restores `s`. */
  lemma CutAtSeparator(s: string, i: nat, sep: char)
    requires i < |s| && s[i] == sep && sep !in s[..i]
    ensures Count(s, sep) == Count(s[i + 1..], sep) + 1
    ensures s == s[..i] + [sep] + s[i + 1..]
  {
    assert s == s[..i] + ([sep] + s[i + 1..]);
    CountAbsent(s[..i], sep);
    CountAppend(s[..i], [sep] + s[i + 1..], sep);
    CountAppend([sep], s[i + 1..], sep);
    assert Count([sep], sep) == 1 by {
      assert [sep][1..] == [];
    }
  }

  /** Splitting is the unique way to cut a string into separator-free pieces whose join is
      the string. */
  lemma {:induction false} SplitJoin(pieces: seq<string>, sep: char)
    requires |pieces| >= 1
    requires forall i :: 0 <= i < |pieces| ==> sep !in pieces[i]
    ensures Split(Join(pieces, sep), sep) == pieces
    decreases |pieces|
  {
    var s := Join(pieces, sep);
    if |pieces| == 1 {
      assert s == pieces[0];
    } else {
      var p := pieces[0];
      var tail := Join(pieces[1..], sep);
      assert s == p + [sep] + tail;
      assert s[|p|] == sep;
      assert sep in s;
      var i := IndexOf(s, sep);
      assert i == |p|;
      assert s[..i] == p;
      assert s[i + 1..] == tail;
      SplitJoin(pieces[1..], sep);
      assert pieces == [p] + pieces[1..];
    }
  }

  /** Splitting a string that starts with a separator-free prefix and then a separator:
      the prefix is the first piece, and the rest is split on its own. */
  lemma SplitAfterPrefix(pre: string, rest: string, sep: char)
    requires sep !in pre
    ensures Split(pre + [sep] + rest, sep) == [pre] + Split(rest, sep)
  {
    var ps := Split(rest, sep);
    assert Join([pre] + ps, sep) == pre + [sep] + rest by {
      assert ([pre] + ps)[1..] == ps;
    }
    SplitJoin([pre] + ps, sep);
  }
}

/** The query-string decoder of request.rs (`parse_query_string`) and the multi-valued map it
    fills. The text is cut at every `&`; each piece is cut at its first `=` into key and
    value (no `=` means an empty value); pieces with an empty key are dropped; the remaining
    pairs are inserted in order, so a repeated key collects its values in the order they
    appear. No percent-decoding takes place. */
module QueryString {
  import opened Strings

  /** A map from a key to every value given for it, in insertion order. Indexing a key
      (`m["key"]` in the source) yields the first of them. */
  type MultiMap = map<string, seq<string>>

  type Pair = (string, string)

  /** `MultiMap::insert`: appends the value to the key's list, creating the list when the
      key is new. */
  function Insert(m: MultiMap, k: string, v: string): (r: MultiMap)
    ensures r.Keys == m.Keys + {k}
    ensures r[k] == (if k in m then m[k] else []) + [v]
    ensures forall k' :: k' in m && k' != k ==> r[k'] == m[k']
  {
    m[k := (if k in m then m[k] else []) + [v]]
  }

  /** `splitn(2, '=')` with the missing second half read as "". */
  function SplitPair(piece: string): (kv: Pair)
    ensures '=' !in kv.0
    ensures '=' in piece ==> piece == kv.0 + "=" + kv.1
    ensures '=' !in piece ==> kv == (piece, "")
  {
    if '=' in piece then
      var i := IndexOf(piece, '=');
      assert piece == piece[..i] + "=" + piece[i + 1..];
      (piece[..i], piece[i + 1..])
    else (piece, "")
  }

  /** The pairs of a query string, one per `&`-separated piece, before the empty-key
      filter. */
  function Pairs(q: string): (r: seq<Pair>)
    ensures |r| == Count(q, '&') + 1
    ensures forall i :: 0 <= i < |r| ==> r[i] == SplitPair(Split(q, '&')[i])
  {
    var pieces := Split(q, '&');
    seq(|pieces|, i requires 0 <= i < |pieces| => SplitPair(pieces[i]))
  }

  /** Inserts the pairs in order, skipping those whose key is empty. */
  function Collect(pairs: seq<Pair>): (m: MultiMap)
    ensures "" !in m
    ensures forall k :: k in m ==> |m[k]| > 0
    decreases |pairs|
  {
    if pairs == [] then map[]
    else
      var m := Collect(pairs[..|pairs| - 1]);
      var last := pairs[|pairs| - 1];
      if last.0 == "" then m else Insert(m, last.0, last.1)
  }

  /** `parse_query_string`. */
  function Decode(q: string): (m: MultiMap)
    ensures "" !in m
    ensures forall k :: k in m ==> |m[k]| > 0
  {
    Collect(Pairs(q))
  }

  /** Reference reading: the values paired with `k`, in order of appearance. */
  function ValuesOf(pairs: seq<Pair>, k: string): seq<string>
    decreases |pairs|
  {
    if pairs == [] then []
    else (if pairs[0].0 == k then [pairs[0].1] else []) + ValuesOf(pairs[1..], k)
  }

  lemma {:induction false} ValuesOfSnoc(pairs: seq<Pair>, x: Pair, k: string)
    ensures ValuesOf(pairs + [x], k) == ValuesOf(pairs, k) + (if x.0 == k then [x.1] else [])
    decreases |pairs|
  {
    if pairs == [] {
      assert ([] + [x])[1..] == [];
      assert [] + [x] == [x];
    } else {
      assert (pairs + [x])[1..] == pairs[1..] + [x];
      ValuesOfSnoc(pairs[1..], x, k);
    }
  }

  /** Collecting keeps, for every non-empty key, exactly the values paired with it in
      order; a key is present exactly when it is non-empty and paired at least once. */
  lemma {:induction false} CollectValues(pairs: seq<Pair>, k: string)
    ensures k in Collect(pairs) <==> k != "" && ValuesOf(pairs, k) != []
    ensures k in Collect(pairs) ==> Collect(pairs)[k] == ValuesOf(pairs, k)
    decreases |pairs|
  {
    if pairs != [] {
      var init, last := pairs[..|pairs| - 1], pairs[|pairs| - 1];
      assert pairs == init + [last];
      CollectValues(init, k);
      ValuesOfSnoc(init, last, k);
    }
  }

  /** What decoding keeps for a key, in terms of the pieces of the query string. */
  lemma DecodeValues(q: string, k: string)
    ensures k in Decode(q) <==> k != "" && ValuesOf(Pairs(q), k) != []
    ensures k in Decode(q) ==> Decode(q)[k] == ValuesOf(Pairs(q), k)
  {
    CollectValues(Pairs(q), k);
  }

  /** The first value kept for a key belongs to the first piece carrying that key. */
  lemma {:induction false} ValuesOfHead(pairs: seq<Pair>, k: string)
    requires ValuesOf(pairs, k) != []
    ensures exists i :: 0 <= i < |pairs| && pairs[i].0 == k && ValuesOf(pairs, k)[0] == pairs[i].1
                        && forall j :: 0 <= j < i ==> pairs[j].0 != k
    decreases |pairs|
  {
    if pairs[0].0 != k {
      ValuesOfHead(pairs[1..], k);
      var i :| 0 <= i < |pairs[1..]| && pairs[1..][i].0 == k
               && ValuesOf(pairs[1..], k)[0] == pairs[1..][i].1
               && forall j :: 0 <= j < i ==> pairs[1..][j].0 != k;
      assert pairs[i + 1] == pairs[1..][i];
      forall j | 0 <= j < i + 1 ensures pairs[j].0 != k {
        if j > 0 { assert pairs[j] == pairs[1..][j - 1]; }
      }
    }
  }

  /** Indexing the decoded map by a key (`m["key"]`) gives the value of the first piece
      with that key. */
  lemma DecodeFirstValue(q: string, k: string)
    requires k in Decode(q)
    ensures exists i :: 0 <= i < |Pairs(q)| && Pairs(q)[i].0 == k && Decode(q)[k][0] == Pairs(q)[i].1
                        && forall j :: 0 <= j < i ==> Pairs(q)[j].0 != k
  {
    DecodeValues(q, k);
    ValuesOfHead(Pairs(q), k);
  }

  // ---------------------------------------------------------------------------
  // An encoder the decoder inverts
  // ---------------------------------------------------------------------------

  function PairText(kv: Pair): string {
    kv.0 + "=" + kv.1
  }

  /** Writes pairs as `k=v` joined by `&`. */
  function Encode(pairs: seq<Pair>): string {
    Join(seq(|pairs|, i requires 0 <= i < |pairs| => PairText(pairs[i])), '&')
  }

  /** Pairs the encoder can write unambiguously: keys free of `&` and `=`, values free of
      `&`. */
  predicate Encodable(pairs: seq<Pair>) {
    forall i :: 0 <= i < |pairs| ==>
      '&' !in pairs[i].0 && '=' !in pairs[i].0 && '&' !in pairs[i].1
  }

  lemma SplitPairText(kv: Pair)
    requires '=' !in kv.0
    ensures SplitPair(PairText(kv)) == kv
  {
    var piece := PairText(kv);
    assert piece == kv.0 + ['='] + kv.1;
    IndexAfterPrefix(kv.0, kv.1, '=');
    assert piece[..|kv.0|] == kv.0 && piece[|kv.0| + 1..] == kv.1;
  }

  /** The pieces of an encoding are the pairs again. */
  lemma PairsOfEncode(pairs: seq<Pair>)
    requires Encodable(pairs) && pairs != []
    ensures Pairs(Encode(pairs)) == pairs
  {
    var texts := seq(|pairs|, i requires 0 <= i < |pairs| => PairText(pairs[i]));
    forall i | 0 <= i < |texts| ensures '&' !in texts[i] {
      assert texts[i] == pairs[i].0 + "=" + pairs[i].1;
    }
    SplitJoin(texts, '&');
    forall i | 0 <= i < |pairs| ensures Pairs(Encode(pairs))[i] == pairs[i] {
      SplitPairText(pairs[i]);
    }
  }

  /** Decoding an encoding gives every non-empty key exactly its values, in order. */
  lemma DecodeEncode(pairs: seq<Pair>, k: string)
    requires Encodable(pairs) && k != ""
    ensures k in Decode(Encode(pairs)) <==> ValuesOf(pairs, k) != []
    ensures k in Decode(Encode(pairs)) ==> Decode(Encode(pairs))[k] == ValuesOf(pairs, k)
  {
    DecodeValues(Encode(pairs), k);
    if pairs == [] {
      assert Encode(pairs) == "";
      assert Pairs("") == [("", "")];
      assert ValuesOf([("", "")], k) == [] by {
        assert [("", "")][1..] == [];
      }
    } else {
      PairsOfEncode(pairs);
    }
  }

  predicate DistinctKeys(pairs: seq<Pair>) {
    forall i, j :: 0 <= i < j < |pairs| ==> pairs[i].0 != pairs[j].0
  }

  lemma {:induction false} ValuesOfAbsent(pairs: seq<Pair>, k: string)
    requires forall i :: 0 <= i < |pairs| ==> pairs[i].0 != k
    ensures ValuesOf(pairs, k) == []
    decreases |pairs|
  {
    if pairs != [] {
      ValuesOfAbsent(pairs[1..], k);
    }
  }

  lemma {:induction false} ValuesOfDistinct(pairs: seq<Pair>, i: nat)
    requires DistinctKeys(pairs) && i < |pairs|
    ensures ValuesOf(pairs, pairs[i].0) == [pairs[i].1]
    decreases |pairs|
  {
    if i == 0 {
      ValuesOfAbsent(pairs[1..], pairs[0].0);
    } else {
      assert pairs[1..][i - 1] == pairs[i];
      ValuesOfDistinct(pairs[1..], i - 1);
    }
  }

  /** Encodable pairs with distinct non-empty keys decode to one entry per key holding
      just that key's value. */
  lemma DecodeDistinctKeys(pairs: seq<Pair>)
    requires Encodable(pairs) && DistinctKeys(pairs)
    requires forall i :: 0 <= i < |pairs| ==> pairs[i].0 != ""
    ensures Decode(Encode(pairs)).Keys == set i | 0 <= i < |pairs| :: pairs[i].0
    ensures forall i :: 0 <= i < |pairs| ==> Decode(Encode(pairs))[pairs[i].0] == [pairs[i].1]
  {
    var m := Decode(Encode(pairs));
    forall i | 0 <= i < |pairs| ensures pairs[i].0 in m && m[pairs[i].0] == [pairs[i].1] {
      DecodeEncode(pairs, pairs[i].0);
      ValuesOfDistinct(pairs, i);
    }
    forall k | k in m ensures exists i :: 0 <= i < |pairs| && pairs[i].0 == k {
      DecodeEncode(pairs, k);
      if forall i :: 0 <= i < |pairs| ==> pairs[i].0 != k {
        ValuesOfAbsent(pairs, k);
        assert false;
      }
    }
  }

  // ---------------------------------------------------------------------------
  // Worked examples
  // ---------------------------------------------------------------------------

  /** An empty query string gives an empty map. */
  lemma DecodeEmpty()
    ensures Decode("") == map[]
  {
    assert Pairs("") == [("", "")];
    assert [("", "")][..0] == [];
  }

  lemma EncodeOne(x: Pair)
    ensures Encode([x]) == PairText(x)
  {
    assert seq(1, i requires 0 <= i < 1 => PairText([x][i])) == [PairText(x)];
  }

  lemma ValuesOfOne(x: Pair, k: string)
    ensures ValuesOf([x], k) == if x.0 == k then [x.1] else []
  {
    assert [x][1..] == [];
  }

  /** A single pair with a non-empty key decodes to that key and value. */
  lemma DecodeOne(x: Pair)
    requires Encodable([x]) && x.0 != ""
    ensures Decode(PairText(x)) == map[x.0 := [x.1]]
  {
    EncodeOne(x);
    var m := Decode(PairText(x));
    forall k | k in m ensures k == x.0 {
      DecodeEncode([x], k);
      ValuesOfOne(x, k);
    }
    DecodeEncode([x], x.0);
    ValuesOfOne(x, x.0);
    assert m.Keys == {x.0};
  }

  lemma EncodeTwo(x: Pair, y: Pair)
    ensures Encode([x, y]) == PairText(x) + "&" + PairText(y)
  {
    var texts := [PairText(x), PairText(y)];
    assert seq(2, i requires 0 <= i < 2 => PairText([x, y][i])) == texts;
    assert texts[1..] == [PairText(y)];
    assert Join(texts[1..], '&') == PairText(y);
    assert Join(texts, '&') == texts[0] + ['&'] + Join(texts[1..], '&');
  }

  lemma ValuesOfTwo(x: Pair, y: Pair, k: string)
    ensures ValuesOf([x, y], k) == (if x.0 == k then [x.1] else []) + (if y.0 == k then [y.1] else [])
  {
    assert [x, y][1..] == [y] && [y][1..] == [];
    assert ValuesOf([y], k) == (if y.0 == k then [y.1] else []) + ValuesOf([], k);
    assert ValuesOf([x, y], k) == (if x.0 == k then [x.1] else []) + ValuesOf([y], k);
  }

  /** The decoding of two encodable pairs. */
  lemma DecodeTwo(x: Pair, y: Pair, k: string)
    requires Encodable([x, y]) && k != ""
    ensures k in Decode(PairText(x) + "&" + PairText(y)) <==> k == x.0 || k == y.0
    ensures k in Decode(PairText(x) + "&" + PairText(y)) ==>
              Decode(PairText(x) + "&" + PairText(y))[k]
              == (if x.0 == k then [x.1] else []) + (if y.0 == k then [y.1] else [])
  {
    EncodeTwo(x, y);
    ValuesOfTwo(x, y, k);
    DecodeEncode([x, y], k);
  }

  // The literals below are parameters pinned by `requires`, which keeps them folded.
  /** Repeated keys keep their values in order: `a=1&a=2` gives `a -> [1, 2]`. */
  lemma DecodeRepeatedKey(q: string)
    requires q == "a=1&a=2"
    ensures Decode(q) == map["a" := ["1", "2"]]
  {
    var x, y := ("a", "1"), ("a", "2");
    assert q == PairText(x) + "&" + PairText(y);
    assert Encodable([x, y]) by {
      assert '&' !in "a" && '=' !in "a" && '&' !in "1" && '&' !in "2";
    }
    forall k | k in Decode(q) ensures k == "a" {
      DecodeTwo(x, y, k);
    }
    DecodeTwo(x, y, "a");
    var m := Decode(q);
    assert m.Keys == {"a"};
    assert m["a"] == ["1"] + ["2"] == ["1", "2"];
  }

  /** An empty key is dropped and a missing value reads as "": `=x&k=` gives `k -> [""]`. */
  lemma DecodeDropsEmptyKey(q: string)
    requires q == "=x&k="
    ensures Decode(q) == map["k" := [""]]
  {
    var x, y := ("", "x"), ("k", "");
    assert q == PairText(x) + "&" + PairText(y);
    assert Encodable([x, y]) by {
      assert '&' !in "k" && '=' !in "k" && '&' !in "x";
    }
    forall k | k in Decode(q) ensures k == "k" {
      DecodeTwo(x, y, k);
    }
    DecodeTwo(x, y, "k");
    var m := Decode(q);
    assert m.Keys == {"k"};
    assert m["k"] == [] + [""] == [""];
  }
}

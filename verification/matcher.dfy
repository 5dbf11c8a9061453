/**
  The regular expressions the autocorrect compiler builds, and what they
  match.

  The compiler escapes every key, joins the keys with `|` and builds the
  expression `(k1|…|kn)$`. Instead of a regular-expression engine, the model
  reads the source back into its list of literal alternatives and defines
  `exec` on that list: the leftmost position from which the rest of the
  string is one of the alternatives. In unicode mode (`u` flag) the search
  moves by code point, so it never starts between the two halves of a
  surrogate pair.
 */
module Matcher {
  import opened Utf16
  import opened Seqs

  const Backslash: Unit := 0x5C
  const Bar: Unit := 0x7C
  const OpenParen: Unit := 0x28
  const CloseParen: Unit := 0x29
  const Dollar: Unit := 0x24

  /** The characters `. * + ? ^ $ { } ( ) | [ ] \` the compiler escapes. */
  predicate IsSpecial(u: int)
  {
    u == 0x2E || u == 0x2A || u == 0x2B || u == 0x3F || u == 0x5E || u == 0x24 || u == 0x7B
    || u == 0x7D || u == 0x28 || u == 0x29 || u == 0x7C || u == 0x5B || u == 0x5D || u == 0x5C
  }

  /** `s.replace(/[.*+?^${}()|[\]\\]/g, "\\$&")`: a backslash before every
      special character. */
  function Escape(s: seq<Unit>): (r: seq<Unit>)
    ensures |r| >= |s|
  {
    if |s| == 0 then []
    else (if IsSpecial(s[0]) then [Backslash, s[0]] else [s[0]]) + Escape(s[1..])
  }

  function EscapeAll(keys: seq<seq<Unit>>): (r: seq<seq<Unit>>)
    ensures |r| == |keys|
    ensures forall i :: 0 <= i < |keys| ==> r[i] == Escape(keys[i])
  {
    seq(|keys|, i requires 0 <= i < |keys| => Escape(keys[i]))
  }

  /** `parts.join("|")`. */
  function Join(parts: seq<seq<Unit>>): seq<Unit>
  {
    if |parts| == 0 then []
    else if |parts| == 1 then parts[0]
    else parts[0] + [Bar] + Join(parts[1..])
  }

  /** The source `(${escaped.join("|")})$`. */
  function Source(keys: seq<seq<Unit>>): seq<Unit>
  {
    [OpenParen] + Join(EscapeAll(keys)) + [CloseParen, Dollar]
  }

  /** Reads the body of an alternation: `\x` is the literal x for a special
      x, an unescaped `|` ends an alternative, any other special character
      or escape is not a literal and gives `None`. */
  function ParseBody(body: seq<Unit>, current: seq<Unit>, done: seq<seq<Unit>>): Option<seq<seq<Unit>>>
    decreases |body|
  {
    if |body| == 0 then Some(done + [current])
    else if body[0] == Backslash then
      if 2 <= |body| && IsSpecial(body[1]) then ParseBody(body[2..], current + [body[1]], done) else None
    else if body[0] == Bar then ParseBody(body[1..], [], done + [current])
    else if IsSpecial(body[0]) then None
    else ParseBody(body[1..], current + [body[0]], done)
  }

  /** The literal alternatives of a source `(a1|…|an)$`, or `None` when the
      source has another form. */
  function ParseSource(src: seq<Unit>): Option<seq<seq<Unit>>>
  {
    if |src| < 3 || src[0] != OpenParen || src[|src| - 2..] != [CloseParen, Dollar] then None
    else ParseBody(src[1..|src| - 2], [], [])
  }

  lemma {:induction false} ParseEscaped(s: seq<Unit>, rest: seq<Unit>, current: seq<Unit>, done: seq<seq<Unit>>)
    ensures ParseBody(Escape(s) + rest, current, done) == ParseBody(rest, current + s, done)
    decreases |s|
  {
    if |s| == 0 {
      assert Escape(s) + rest == rest;
      assert current + s == current;
    } else {
      var e := Escape(s);
      ParseEscaped(s[1..], rest, current + [s[0]], done);
      assert current + [s[0]] + s[1..] == current + s;
      if IsSpecial(s[0]) {
        assert e + rest == [Backslash, s[0]] + (Escape(s[1..]) + rest);
        assert (e + rest)[2..] == Escape(s[1..]) + rest;
      } else {
        assert e + rest == [s[0]] + (Escape(s[1..]) + rest);
        assert (e + rest)[1..] == Escape(s[1..]) + rest;
      }
    }
  }

  lemma {:induction false} ParseJoined(keys: seq<seq<Unit>>, done: seq<seq<Unit>>)
    requires |keys| > 0
    ensures ParseBody(Join(EscapeAll(keys)), [], done) == Some(done + keys)
    decreases |keys|
  {
    var escaped := EscapeAll(keys);
    if |keys| == 1 {
      ParseEscaped(keys[0], [], [], done);
      assert Escape(keys[0]) + [] == Escape(keys[0]);
      assert [] + keys[0] == keys[0];
      assert done + [keys[0]] == done + keys;
    } else {
      assert escaped[1..] == EscapeAll(keys[1..]);
      var tail := Join(EscapeAll(keys[1..]));
      assert Join(escaped) == Escape(keys[0]) + ([Bar] + tail);
      ParseEscaped(keys[0], [Bar] + tail, [], done);
      assert ([Bar] + tail)[1..] == tail;
      assert [] + keys[0] == keys[0];
      ParseJoined(keys[1..], done + [keys[0]]);
      assert done + [keys[0]] + keys[1..] == done + keys;
    }
  }

  /** Escaping makes every alternative match its key literally: the source
      built from a non-empty list of keys reads back as exactly those keys,
      whatever special characters they hold. */
  lemma SourceReadsBack(keys: seq<seq<Unit>>)
    requires |keys| > 0
    ensures ParseSource(Source(keys)) == Some(keys)
  {
    var src := Source(keys);
    var body := Join(EscapeAll(keys));
    assert src[1..|src| - 2] == body;
    assert src[|src| - 2..] == [CloseParen, Dollar];
    ParseJoined(keys, []);
    assert [] + keys == keys;
  }

  /** An empty list gives the source `()$`: one empty alternative. */
  lemma EmptySourceReadsBack()
    ensures Source([]) == [OpenParen, CloseParen, Dollar]
    ensures ParseSource(Source([])) == Some([[]])
  {
    var src := Source([]);
    assert src == [OpenParen, CloseParen, Dollar];
    assert src[1..|src| - 2] == [];
    var none: seq<seq<Unit>> := [];
    assert none + [[]] == [[]];
    assert ParseBody([], [], none) == Some(none + [[]]);
  }

  /** A compiled expression: an end-anchored alternation, or (only in the
      corrected compiler) an expression that never matches. */
  datatype Pattern = Alternation(source: seq<Unit>, unicode: bool) | Nothing

  datatype Match = Match(index: nat, text: seq<Unit>)

  /** Position p splits a surrogate pair. */
  predicate MidPair(s: seq<Unit>, p: int)
  {
    0 < p < |s| && IsHigh(s[p - 1]) && IsLow(s[p])
  }

  /** The alternation matches at p: the rest of the string is one of the
      alternatives, and in unicode mode p is a code-point boundary. */
  predicate MatchesAt(alts: seq<seq<Unit>>, unicode: bool, s: seq<Unit>, p: int)
  {
    0 <= p <= |s| && !(unicode && MidPair(s, p)) && s[p..] in alts
  }

  function ExecFrom(alts: seq<seq<Unit>>, unicode: bool, s: seq<Unit>, p: nat): (r: Option<Match>)
    requires p <= |s|
    ensures r.Some? ==> p <= r.value.index <= |s| && MatchesAt(alts, unicode, s, r.value.index)
                        && r.value.text == s[r.value.index..]
    ensures r.Some? ==> forall q :: p <= q < r.value.index ==> !MatchesAt(alts, unicode, s, q)
    ensures r.None? ==> forall q :: p <= q <= |s| ==> !MatchesAt(alts, unicode, s, q)
    decreases |s| - p
  {
    if MatchesAt(alts, unicode, s, p) then Some(Match(p, s[p..]))
    else if p == |s| then None
    else ExecFrom(alts, unicode, s, p + 1)
  }

  /** `pattern.exec(s)`. A source that does not read back as literal
      alternatives is outside the model (the compiler never builds one) and
      matches nothing here. */
  function Exec(pattern: Pattern, s: seq<Unit>): (r: Option<Match>)
    ensures r.Some? ==> r.value.index <= |s| && r.value.text == s[r.value.index..]
  {
    match pattern
    case Nothing => None
    case Alternation(src, unicode) =>
      match ParseSource(src)
      case None => None
      case Some(alts) => ExecFrom(alts, unicode, s, 0)
  }

  /** `pattern.test(s)`. */
  predicate Test(pattern: Pattern, s: seq<Unit>)
  {
    Exec(pattern, s).Some?
  }

  /** `k` is a suffix of `s` that the search can reach. */
  predicate SuffixKey(keys: seq<seq<Unit>>, unicode: bool, s: seq<Unit>, k: seq<Unit>)
  {
    k in keys && |k| <= |s| && s[|s| - |k|..] == k && !(unicode && MidPair(s, |s| - |k|))
  }

  /** What `exec` reports on `s` when the expression stands for the list
      `keys`: the longest key that ends `s`, at the index where it starts,
      and nothing exactly when no key ends `s`. */
  ghost predicate ReportsLongestSuffix(keys: seq<seq<Unit>>, unicode: bool, s: seq<Unit>, r: Option<Match>)
  {
    (r.None? <==> forall k :: k in keys ==> !SuffixKey(keys, unicode, s, k))
    && (r.Some? ==>
          SuffixKey(keys, unicode, s, r.value.text) && r.value.index == |s| - |r.value.text|
          && forall k :: SuffixKey(keys, unicode, s, k) ==> |k| <= |r.value.text|)
  }

  /** What `exec` reports on `s` for the expression the compiler as written
      builds from `keys`: an empty match at the end of every string when
      there are no keys, else the longest key ending `s`. */
  ghost predicate ReportsAsWritten(keys: seq<seq<Unit>>, unicode: bool, s: seq<Unit>, r: Option<Match>)
  {
    if |keys| == 0 then r == Some(Match(|s|, [])) else ReportsLongestSuffix(keys, unicode, s, r)
  }

  /** The alternation of a non-empty list of keys reports the longest key
      that ends the string. */
  lemma AlternationFindsLongestSuffix(keys: seq<seq<Unit>>, unicode: bool, s: seq<Unit>)
    requires |keys| > 0
    ensures ReportsLongestSuffix(keys, unicode, s, Exec(Alternation(Source(keys), unicode), s))
  {
    SourceReadsBack(keys);
    var r := ExecFrom(keys, unicode, s, 0);
    assert Exec(Alternation(Source(keys), unicode), s) == r;
    forall k | SuffixKey(keys, unicode, s, k)
      ensures MatchesAt(keys, unicode, s, |s| - |k|)
    {
    }
    if r.Some? {
      var m := r.value;
      assert s[|s| - |m.text|..] == m.text;
      forall k | SuffixKey(keys, unicode, s, k)
        ensures |k| <= |m.text|
      {
        assert MatchesAt(keys, unicode, s, |s| - |k|);
      }
    } else {
      forall k | k in keys
        ensures !SuffixKey(keys, unicode, s, k)
      {
        assert !MatchesAt(keys, unicode, s, |s| - |k|) || |k| > |s|;
      }
    }
  }

  /** The alternation of the empty list, `()$`, matches every string with
      an empty match at its end. */
  lemma EmptyAlternationMatchesEverything(unicode: bool, s: seq<Unit>)
    ensures Exec(Alternation(Source([]), unicode), s) == Some(Match(|s|, []))
  {
    EmptySourceReadsBack();
    var r := ExecFrom([[]], unicode, s, 0);
    assert s[|s|..] == [];
    assert MatchesAt([[]], unicode, s, |s|);
    if r.Some? {
      assert r.value.text in [[]];
    }
  }

  lemma AlternationReportsAsWritten(keys: seq<seq<Unit>>, unicode: bool)
    ensures forall s :: ReportsAsWritten(keys, unicode, s, Exec(Alternation(Source(keys), unicode), s))
  {
    forall s
      ensures ReportsAsWritten(keys, unicode, s, Exec(Alternation(Source(keys), unicode), s))
    {
      if |keys| == 0 {
        EmptyAlternationMatchesEverything(unicode, s);
      } else {
        AlternationFindsLongestSuffix(keys, unicode, s);
      }
    }
  }

  /** `new RegExp(`(${escaped.join("|")})$`, flags)` as written: with no
      keys the expression matches everywhere. */
  function CompileAsWritten(keys: seq<seq<Unit>>, unicode: bool): (p: Pattern)
    ensures forall s :: ReportsAsWritten(keys, unicode, s, Exec(p, s))
  {
    AlternationReportsAsWritten(keys, unicode);
    Alternation(Source(keys), unicode)
  }

  /** The same, with an empty list compiled to an expression that never
      matches: `exec` then always reports the longest key ending the
      string. */
  function Compile(keys: seq<seq<Unit>>, unicode: bool): (p: Pattern)
    ensures |keys| > 0 ==> p == CompileAsWritten(keys, unicode)
    ensures |keys| == 0 ==> p == Nothing
    ensures forall s :: ReportsLongestSuffix(keys, unicode, s, Exec(p, s))
  {
    if |keys| == 0 then Nothing else CompileAsWritten(keys, unicode)
  }

  /** The compiled expression reports the longest key that ends the string,
      at the index where it starts; it reports nothing exactly when no key
      ends the string. */
  lemma ExecFindsLongestSuffix(keys: seq<seq<Unit>>, unicode: bool, s: seq<Unit>)
    ensures Exec(Compile(keys, unicode), s).None? <==> forall k :: k in keys ==> !SuffixKey(keys, unicode, s, k)
    ensures Exec(Compile(keys, unicode), s).Some? ==>
              var m := Exec(Compile(keys, unicode), s).value;
              SuffixKey(keys, unicode, s, m.text) && m.index == |s| - |m.text|
              && forall k :: SuffixKey(keys, unicode, s, k) ==> |k| <= |m.text|
  {
    assert ReportsLongestSuffix(keys, unicode, s, Exec(Compile(keys, unicode), s));
  }

  /** As written, the empty list matches every string, with an empty match
      at its end; the corrected compiler's pattern matches nothing. */
  lemma EmptyListMatchesEverything(unicode: bool, s: seq<Unit>)
    ensures Exec(CompileAsWritten([], unicode), s) == Some(Match(|s|, []))
    ensures Exec(Compile([], unicode), s) == None
  {
    assert ReportsAsWritten([], unicode, s, Exec(CompileAsWritten([], unicode), s));
  }
}

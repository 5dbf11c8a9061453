/**
  Concrete keystrokes through the compiler and the keystroke handler,
  showing where the handler as written and the corrected one part ways.
 */
module Scenarios {
  import opened Utf16
  import opened Seqs
  import JsString
  import Compiler
  import Matcher
  import Numerals
  import opened Autocorrect

  const Copyright: seq<Unit> := [0x28, 0x63, 0x29]
  const Smiley: seq<Unit> := [0x3A, 0x29]
  const SlightSmile: seq<Unit> := [0xD83D, 0xDE42]
  const Space: seq<Unit> := [0x20]

  /** A dictionary of `(c)` → © and `:)` → 🙂; neither key occurs in the
      other, so it has no antipatterns. */
  const Faces: seq<Compiler.Entry> := [Compiler.Entry(Copyright, [0xA9]), Compiler.Entry(Smiley, SlightSmile)]

  const AllOn := Compiler.Settings(true, true, true, true)
  const SymbolsOff := Compiler.Settings(true, false, true, true)

  /** The number branch's label, unused in these scenarios. */
  function NoLabel(number: seq<Unit>, fraction: Option<seq<Unit>>): seq<Unit>
  {
    number
  }

  /** "Hello :)" with a space typed after the smiley. */
  const Hello: seq<Unit> := [0x48, 0x65, 0x6C, 0x6C, 0x6F, 0x20, 0x3A, 0x29]

  lemma FacesHaveNoAntipatterns()
    ensures Compiler.DictionaryAntipatterns(Faces) == []
  {
    var keys: seq<seq<Unit>> := [Copyright, Smiley];
    assert Compiler.Keys(Faces) == keys;
    forall j: int
      ensures !JsString.OccursAt(Copyright, Smiley, j)
    {
      if 0 <= j <= 1 {
        assert Copyright[j..j + 2][0] == Copyright[j] != Smiley[0];
      }
    }
    assert !JsString.OccursAt(Smiley, Copyright, 0);
    assert Compiler.AntipatternOf(Copyright, keys) == None;
    assert Compiler.AntipatternOf(Smiley, keys) == None;
    var rest := keys[1..];
    assert rest[0] == Smiley && |rest[1..]| == 0;
    var none: seq<seq<Unit>> := [];
    assert Compiler.Antipatterns(rest[1..], keys) == none;
    assert Compiler.Antipatterns(rest, keys) == none;
    assert Compiler.Antipatterns(keys, keys) == none;
  }

  const FaceKeys: seq<seq<Unit>> := [Copyright, Smiley]
  const Window: seq<Unit> := [0x20, 0x3A, 0x29]
  const Lookahead: seq<Unit> := [0x3A, 0x29, 0x20]

  lemma SmileyEndsWindow()
    ensures Matcher.Exec(Matcher.Compile(FaceKeys, true), Window) == Some(Matcher.Match(1, Smiley))
  {
    Matcher.ExecFindsLongestSuffix(FaceKeys, true, Window);
    assert Matcher.SuffixKey(FaceKeys, true, Window, Smiley);
    assert !Matcher.SuffixKey(FaceKeys, true, Window, Copyright);
  }

  lemma NoKeyEndsLookahead()
    ensures Matcher.Exec(Matcher.Compile(FaceKeys, true), Lookahead) == None
  {
    Matcher.ExecFindsLongestSuffix(FaceKeys, true, Lookahead);
    assert !Matcher.SuffixKey(FaceKeys, true, Lookahead, Smiley);
    assert !Matcher.SuffixKey(FaceKeys, true, Lookahead, Copyright);
  }

  /** Both compilers build the same symbol expression for the faces, with
      a longest key of three units. */
  lemma FacesCompile(c: Compiler.Compiled)
    requires c == Compiler.ApplySettings(Faces, AllOn, true) || c == Compiler.ApplySettingsAsWritten(Faces, AllOn, true)
    ensures c.symbolpatterns == Matcher.Compile(FaceKeys, true) && c.longest == 3
    ensures c.autocorrections == Faces
    ensures PreviousText(c, Hello, 8) == Window
  {
    assert Compiler.Keys(Faces) == FaceKeys;
    assert Compiler.Longest(FaceKeys) == 3;
    HelloWindow(c);
  }

  /** With keys at most three units long, the window before the caret in
      "Hello :)" is " :)". */
  lemma HelloWindow(c: Compiler.Compiled)
    requires c.longest == 3
    ensures PreviousText(c, Hello, 8) == Window
  {
    assert JsString.Slice(Hello, 5, 8) == Window;
  }

  /** Compiled faces with no antipatterns: typing a space after the smiley
      leaves no key at the end of the lookahead window, so the smiley is
      replaced. */
  lemma FacesSubstituteWithoutAntipatterns(c: Compiler.Compiled)
    requires c.symbolpatterns == Matcher.Compile(FaceKeys, true) && c.longest == 3
    requires c.autocorrections == Faces && c.antipatterns == Matcher.Nothing
    ensures SymbolEdit(c, Corrected, Hello, 8, Space, Matcher.Match(1, Smiley)) == Some(Edit(2, SlightSmile + Space))
  {
    assert JsString.Slice(Hello, 6, 8) + Space == Lookahead;
    NoKeyEndsLookahead();
    assert Compiler.Lookup(Faces, Smiley) == Some(SlightSmile);
  }

  /** Compiled faces whose antipattern expression is the as-written `()$`:
      it matches the lookahead window, so nothing is replaced. */
  lemma FacesBlockedByEmptyAntipatterns(c: Compiler.Compiled)
    requires c.longest == 3 && c.antipatterns == Matcher.CompileAsWritten([], true)
    ensures SymbolEdit(c, Corrected, Hello, 8, Space, Matcher.Match(1, Smiley)) == None
  {
    assert JsString.Slice(Hello, 6, 8) + Space == Lookahead;
    Matcher.EmptyListMatchesEverything(true, Lookahead);
  }

  /** As written, the empty antipattern list compiles to an expression that
      matches every window, so the smiley is never replaced. */
  lemma EmptyAntipatternsBlockSubstitution(flags: Flags)
    ensures Decide(Compiler.ApplySettingsAsWritten(Faces, AllOn, true), flags, Corrected, NoLabel, Hello, 8, Space) == None
  {
    var c := Compiler.ApplySettingsAsWritten(Faces, AllOn, true);
    FacesCompile(c);
    assert c.antipatterns == Matcher.CompileAsWritten([], true) by {
      FacesHaveNoAntipatterns();
    }
    SmileyEndsWindow();
    FacesBlockedByEmptyAntipatterns(c);
    DecideBySymbol(c, flags, Corrected, NoLabel, Hello, 8, Space, Matcher.Match(1, Smiley));
  }

  /** The corrected compiler replaces the smiley with its emoji and keeps
      the typed space. */
  lemma CorrectedCompilerSubstitutes(flags: Flags)
    ensures Decide(Compiler.ApplySettings(Faces, AllOn, true), flags, Corrected, NoLabel, Hello, 8, Space) == Some(Edit(2, SlightSmile + Space))
  {
    var c := Compiler.ApplySettings(Faces, AllOn, true);
    FacesCompile(c);
    assert c.antipatterns == Matcher.Nothing by {
      FacesHaveNoAntipatterns();
    }
    SmileyEndsWindow();
    FacesSubstituteWithoutAntipatterns(c);
    DecideBySymbol(c, flags, Corrected, NoLabel, Hello, 8, Space, Matcher.Match(1, Smiley));
  }

  /** "1/2" before the caret. */
  const OneHalf: seq<Unit> := [0x31, 0x2F, 0x32]

  /** "1/2" is a fraction literal from its first unit on. */
  lemma OneHalfIsFraction()
    ensures Numerals.FindFraction(OneHalf) == Some(Numerals.Literal(0, [0x31], Some([0x32])))
  {
    var s := OneHalf;
    assert Numerals.Shape(s[0..], Numerals.Slash, true) by {
      assert s[0..][1] == Numerals.Slash && s[0..][..1] == [0x31] && s[0..][2..] == [0x32];
    }
    assert !Numerals.EndsWithSepDigits(s[..0], Numerals.Slash);
    assert Numerals.MatchesAt(s, Numerals.Slash, true, 0);
    var r := Numerals.FindFraction(s).value;
    assert r.index == 0;
    assert Numerals.Text(r, Numerals.Slash) == s;
    assert |r.head| + 1 + |r.tail.value| == 3;
    assert r.head == [0x31];
    assert r.tail.value == s[2..];
  }

  /** A space after "1/2" finishes the literal. */
  lemma SpaceFinishesOneHalf()
    ensures Numerals.FindFraction(OneHalf + Space).None?
  {
    Numerals.OtherCharacterEndsLiteral(OneHalf, Numerals.Slash, true, 0x20);
  }

  /** One half has its own vulgar-fraction character. */
  lemma OneHalfLabel()
    ensures Numerals.FractionLabel(1, 2) == [0xBD]
  {
    Numerals.FractionLookupFindsEntry(1);
  }

  /** As written, switching symbols off leaves an empty dictionary whose
      expression matches every window, so the fraction is not converted; the
      corrected compiler converts it to ½ and keeps the typed space. */
  lemma EmptyDictionaryBlocksFractions(flags: Flags)
    ensures Decide(Compiler.ApplySettingsAsWritten(Faces, SymbolsOff, true), flags, Corrected, NoLabel, OneHalf, 3, Space) == None
  {
    var c := Compiler.ApplySettingsAsWritten(Faces, SymbolsOff, true);
    var none: seq<seq<Unit>> := [];
    assert Compiler.Keys(c.autocorrections) == none;
    assert Compiler.DictionaryAntipatterns(c.autocorrections) == none;
    var window := PreviousText(c, OneHalf, 3);
    Matcher.EmptyListMatchesEverything(true, window);
    var m := Matcher.Match(|window|, []);
    var lookahead := JsString.Slice(OneHalf, 3, 3) + Space;
    Matcher.EmptyListMatchesEverything(true, lookahead);
    assert SymbolEdit(c, Corrected, OneHalf, 3, Space, m) == None;
    DecideBySymbol(c, flags, Corrected, NoLabel, OneHalf, 3, Space, m);
  }

  lemma OneHalfLabelReplacesAll()
    ensures MinimalEdit(OneHalf, Numerals.FractionLabel(Numerals.DigitsValue([0x31]), Numerals.DigitsValue([0x32])), Space)
              == Some(Edit(3, [0xBD, 0x20]))
  {
    OneHalfLabel();
    assert Numerals.DigitsValue([0x31]) == 1 && Numerals.DigitsValue([0x32]) == 2;
    var half: seq<Unit> := [0xBD];
    MinimalEditReplacesAll(OneHalf, half, Space);
    assert half + Space == [0xBD, 0x20];
  }

  /** Typing a space after "1/2" converts it to ½, keeping the space. */
  lemma OneHalfConverts()
    ensures FractionEdit(OneHalf, 3, Space) == Some(Edit(3, [0xBD, 0x20]))
  {
    OneHalfIsFraction();
    SpaceFinishesOneHalf();
    assert JsString.Slice(OneHalf, 0, 3) == OneHalf;
    var m := Numerals.Literal(0, [0x31], Some([0x32]));
    FinishedLiteralGetsFractionEdit(OneHalf, 3, Space, m);
    assert Numerals.Text(m, Numerals.Slash) == OneHalf;
    OneHalfLabelReplacesAll();
  }

  /** With symbols switched off, the corrected compiler's expression never
      matches, so a finished fraction is always converted: for "1/2" and a
      space that is "½ " (OneHalfConverts). */
  lemma CorrectedCompilerConvertsFractions(symbols: seq<Compiler.Entry>, s: Compiler.Settings, unicode: bool, flags: Flags,
                                           outputLabel: (seq<Unit>, Option<seq<Unit>>) -> seq<Unit>,
                                           value: seq<Unit>, caret: nat, inserted: seq<Unit>)
    requires !s.autocorrectSymbols && flags.fracts && !IsQuote(inserted)
    ensures FractionEdit(value, caret, inserted).Some? ==>
              Decide(Compiler.ApplySettings(symbols, s, unicode), flags, Corrected, outputLabel, value, caret, inserted)
                == FractionEdit(value, caret, inserted)
  {
    var c := Compiler.ApplySettings(symbols, s, unicode);
    Compiler.SymbolPatternFindsLongestKey(symbols, s, unicode, PreviousText(c, value, caret));
    DecideByConversion(c, flags, Corrected, outputLabel, value, caret, inserted);
  }

  const AB: seq<Unit> := [0x61, 0x62]
  const BC: seq<Unit> := [0x62, 0x63]
  const ABXY: seq<Unit> := [0x61, 0x62, 0x78, 0x79]
  const ABX: seq<Unit> := [0x61, 0x62, 0x78]
  const LetterC: seq<Unit> := [0x63]
  /** The text before the caret, and the lookahead window after typing `c`. */
  const ZZAB: seq<Unit> := [0x7A, 0x7A, 0x61, 0x62]
  const ZABC: seq<Unit> := [0x7A, 0x61, 0x62, 0x63]

  /** `ab` → A, `bc` → B and `abxy` → X: two keys that overlap by one unit,
      and a longest key of four units that contains `ab` and so gives the
      antipattern `abx`. */
  const Overlapping: seq<Compiler.Entry> :=
    [Compiler.Entry(AB, [0x41]), Compiler.Entry(BC, [0x42]), Compiler.Entry(ABXY, [0x58])]
  const OverlappingKeys: seq<seq<Unit>> := [AB, BC, ABXY]

  /** Neither short key occurs in another key. */
  lemma ShortKeysOccurNowhere()
    ensures JsString.IndexOf(AB, BC) == -1 && JsString.IndexOf(AB, ABXY) == -1
    ensures JsString.IndexOf(BC, AB) == -1 && JsString.IndexOf(BC, ABXY) == -1
  {
    assert AB[0..2] == AB && BC[0..2] == BC;
  }

  /** `ab` occurs at the start of `abxy`, and `bc` nowhere in it. */
  lemma LongKeyHoldsAB()
    ensures JsString.IndexOf(ABXY, BC) == -1 && JsString.IndexOf(ABXY, AB) == 0
  {
    forall j: int
      ensures !JsString.OccursAt(ABXY, BC, j)
    {
      if 0 <= j <= 2 {
        assert ABXY[j..j + 2][0] == ABXY[j] && ABXY[j..j + 2][1] == ABXY[j + 1];
      }
    }
    assert JsString.OccursAt(ABXY, AB, 0) by {
      assert ABXY[0..2] == AB;
    }
  }

  /** A key in which no other key occurs pushes no antipattern. */
  lemma NoInnerKeyNoAntipattern(x: seq<Unit>, keys: seq<seq<Unit>>)
    requires forall i :: 0 <= i < |keys| ==> !Compiler.Contained(x, keys[i])
    ensures Compiler.AntipatternOf(x, keys) == None
  {
  }

  /** The outer loop pushes `abx` for `abxy`: the earliest inner key is `ab`
      at 0, and two units follow it. */
  lemma LongKeyAntipattern()
    ensures Compiler.AntipatternOf(ABXY, OverlappingKeys) == Some(ABX)
  {
    var keys := OverlappingKeys;
    LongKeyHoldsAB();
    assert Compiler.Contained(ABXY, keys[0]);
    assert !Compiler.Contained(ABXY, keys[1]) && !Compiler.Contained(ABXY, keys[2]);
    var st := Compiler.Scan(ABXY, keys);
    assert st.index == 0 && st.length == 2;
    assert JsString.Slice(ABXY, 0, -1) == ABX;
  }

  /** The outer loop pushes only `abx`, once for `abxy`. */
  lemma LongKeyPushed()
    ensures Compiler.Antipatterns([ABXY], OverlappingKeys) == [ABX]
  {
    var none: seq<seq<Unit>> := [];
    LongKeyAntipattern();
    assert [ABXY][1..] == none;
    assert Compiler.Antipatterns(none, OverlappingKeys) == none;
  }

  lemma OverlappingPushed()
    ensures Compiler.Antipatterns(OverlappingKeys, OverlappingKeys) == [ABX]
  {
    var keys := OverlappingKeys;
    ShortKeysOccurNowhere();
    NoInnerKeyNoAntipattern(AB, keys);
    NoInnerKeyNoAntipattern(BC, keys);
    LongKeyPushed();
    assert keys[1..][1..] == [ABXY];
    assert Compiler.Antipatterns(keys[1..], keys) == [ABX];
  }

  lemma OverlappingAntipatterns()
    ensures Compiler.DictionaryAntipatterns(Overlapping) == [ABX]
  {
    assert Compiler.Keys(Overlapping) == OverlappingKeys;
    OverlappingPushed();
    Compiler.DedupIdempotent([ABX]);
  }

  /** The longest of the three keys has four units. */
  lemma OverlappingLongest()
    ensures Compiler.Longest(OverlappingKeys) == 4
  {
    var keys := OverlappingKeys;
    var r := Compiler.Longest(keys);
    assert |keys[2]| <= r;
    var i :| 0 <= i < |keys| && |keys[i]| == r;
  }

  /** With symbols switched on the dictionary is the whole list, whose
      longest key has four units. */
  lemma OverlappingDictionary()
    ensures Compiler.Dictionary(Overlapping, AllOn) == Overlapping
    ensures Compiler.Longest(Compiler.Keys(Compiler.Dictionary(Overlapping, AllOn))) == 4
  {
    assert Compiler.Keys(Overlapping) == OverlappingKeys;
    OverlappingLongest();
  }

  /** With symbols switched on, the as-written compile keeps the whole list
      and behaves as the compiler as written promises. */
  lemma CompiledWithSymbolsOn(c: Compiler.Compiled, symbols: seq<Compiler.Entry>, s: Compiler.Settings)
    requires s.autocorrectSymbols && c == Compiler.ApplySettingsAsWritten(symbols, s, true)
    ensures c.autocorrections == symbols && c.longest == Compiler.Longest(Compiler.Keys(symbols))
    ensures Compiler.CompiledAsWritten(c, symbols, true)
  {
    Compiler.ApplySettingsAsWrittenObserved(symbols, s, true);
  }

  /** What the expressions of such a compile report on the text before the
      caret and on the lookahead window. */
  lemma OverlappingReports(c: Compiler.Compiled)
    requires Compiler.CompiledAsWritten(c, Overlapping, true)
    ensures Matcher.ReportsLongestSuffix(OverlappingKeys, true, ZZAB, Matcher.Exec(c.symbolpatterns, ZZAB))
    ensures Matcher.ReportsLongestSuffix(OverlappingKeys, true, ZABC, Matcher.Exec(c.symbolpatterns, ZABC))
    ensures Matcher.ReportsLongestSuffix([ABX], true, ZABC, Matcher.Exec(c.antipatterns, ZABC))
  {
    assert Compiler.Keys(Overlapping) == OverlappingKeys;
    OverlappingAntipatterns();
    assert Matcher.ReportsAsWritten(OverlappingKeys, true, ZZAB, Matcher.Exec(c.symbolpatterns, ZZAB));
    assert Matcher.ReportsAsWritten(OverlappingKeys, true, ZABC, Matcher.Exec(c.symbolpatterns, ZABC));
    assert Matcher.ReportsAsWritten([ABX], true, ZABC, Matcher.Exec(c.antipatterns, ZABC));
  }

  /** Of the three keys only `ab` ends `zzab`. */
  lemma ReportedAB(r: Option<Matcher.Match>)
    requires Matcher.ReportsLongestSuffix(OverlappingKeys, true, ZZAB, r)
    ensures r == Some(Matcher.Match(2, AB))
  {
    var keys := OverlappingKeys;
    assert ZZAB[2..] == AB && ZZAB[2..] != BC && ZZAB[0..] != ABXY;
    assert Matcher.SuffixKey(keys, true, ZZAB, AB);
  }

  /** Of the three keys only `bc` ends `zabc`. */
  lemma ReportedBC(r: Option<Matcher.Match>)
    requires Matcher.ReportsLongestSuffix(OverlappingKeys, true, ZABC, r)
    ensures r == Some(Matcher.Match(2, BC))
  {
    var keys := OverlappingKeys;
    assert ZABC[2..] == BC && ZABC[2..] != AB && ZABC[0..] != ABXY;
    assert Matcher.SuffixKey(keys, true, ZABC, BC);
  }

  /** The antipattern `abx` does not end `zabc`. */
  lemma ReportedNoAntipattern(r: Option<Matcher.Match>)
    requires Matcher.ReportsLongestSuffix([ABX], true, ZABC, r)
    ensures r == None
  {
    assert ZABC[1..] != ABX;
  }

  /** Hence `ab` at 2 before the caret, `bc` at 2 in the lookahead window,
      and no antipattern there. */
  lemma OverlappingMatches(c: Compiler.Compiled)
    requires Compiler.CompiledAsWritten(c, Overlapping, true)
    ensures Matcher.Exec(c.symbolpatterns, ZZAB) == Some(Matcher.Match(2, AB))
    ensures Matcher.Exec(c.symbolpatterns, ZABC) == Some(Matcher.Match(2, BC))
    ensures Matcher.Exec(c.antipatterns, ZABC) == None
  {
    OverlappingReports(c);
    ReportedAB(Matcher.Exec(c.symbolpatterns, ZZAB));
    ReportedBC(Matcher.Exec(c.symbolpatterns, ZABC));
    ReportedNoAntipattern(Matcher.Exec(c.antipatterns, ZABC));
  }

  /** With the caret at 4 the window is all of `zzab`, and after typing `c`
      the lookahead window is `zabc`. */
  lemma OverlappingWindows(c: Compiler.Compiled)
    requires c.longest == 4
    ensures PreviousText(c, ZZAB, 4) == ZZAB
    ensures JsString.Slice(ZZAB, 1, 4) + LetterC == ZABC
  {
    assert JsString.Slice(ZZAB, 0, 4) == ZZAB;
  }

  /** The symbol branch for `zzab`, caret 4 and typed `c`: `ab` ends the
      window at index 2, and `bc` ends the lookahead window at index 2 as
      well, although it starts one unit later in the text. The test as
      written keeps `ab`; the corrected one replaces it by `A`. */
  lemma OverlappingSymbolEdits(c: Compiler.Compiled)
    requires c.autocorrections == Overlapping && c.longest == 4
    requires Matcher.Exec(c.symbolpatterns, ZABC) == Some(Matcher.Match(2, BC))
    requires Matcher.Exec(c.antipatterns, ZABC) == None
    ensures SymbolEdit(c, AsWritten, ZZAB, 4, LetterC, Matcher.Match(2, AB)) == None
    ensures SymbolEdit(c, Corrected, ZZAB, 4, LetterC, Matcher.Match(2, AB)) == Some(Edit(2, [0x41, 0x63]))
  {
    OverlappingWindows(c);
    assert Compiler.Lookup(Overlapping, AB) == Some([0x41]);
    var a: seq<Unit> := [0x41];
    assert a + LetterC == [0x41, 0x63];
  }

  /** With the caret right after `zzab`, exactly the longest key's length
      from the start, typing `c` makes `bc` end the lookahead window at the
      same window index as `ab` ends the window before it. On the compile as
      written, whose antipattern `abx` does not match, the test as written
      takes that for an earlier match and keeps `ab`; the corrected test
      replaces it. */
  lemma OffByOneAtLongest(flags: Flags)
    ensures Decide(Compiler.ApplySettingsAsWritten(Overlapping, AllOn, true), flags, AsWritten, NoLabel, ZZAB, 4, LetterC) == None
    ensures Decide(Compiler.ApplySettingsAsWritten(Overlapping, AllOn, true), flags, Corrected, NoLabel, ZZAB, 4, LetterC)
              == Some(Edit(2, [0x41, 0x63]))
  {
    var c := Compiler.ApplySettingsAsWritten(Overlapping, AllOn, true);
    OverlappingDictionary();
    CompiledWithSymbolsOn(c, Overlapping, AllOn);
    OverlappingDecisions(c, flags);
  }

  /** The same on any compile that behaves like the as-written one. */
  lemma OverlappingDecisions(c: Compiler.Compiled, flags: Flags)
    requires c.autocorrections == Overlapping && c.longest == 4
    requires Compiler.CompiledAsWritten(c, Overlapping, true)
    ensures Decide(c, flags, AsWritten, NoLabel, ZZAB, 4, LetterC) == None
    ensures Decide(c, flags, Corrected, NoLabel, ZZAB, 4, LetterC) == Some(Edit(2, [0x41, 0x63]))
  {
    OverlappingMatches(c);
    OverlappingSymbolEdits(c);
    OverlappingDecision(c, flags, AsWritten);
    OverlappingDecision(c, flags, Corrected);
  }

  /** The symbol branch decides: `ab` ends the window before the caret. */
  lemma OverlappingDecision(c: Compiler.Compiled, flags: Flags, v: Variant)
    requires c.autocorrections == Overlapping && c.longest == 4
    requires Matcher.Exec(c.symbolpatterns, ZZAB) == Some(Matcher.Match(2, AB))
    ensures Decide(c, flags, v, NoLabel, ZZAB, 4, LetterC) == SymbolEdit(c, v, ZZAB, 4, LetterC, Matcher.Match(2, AB))
  {
    OverlappingWindows(c);
    DecideBySymbol(c, flags, v, NoLabel, ZZAB, 4, LetterC, Matcher.Match(2, AB));
  }
}

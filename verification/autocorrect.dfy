/**
  The content script's keystroke handler and its one-level undo.

  On each `beforeinput` event that inserts text, the handler decides from
  the text before the caret and the typed text whether to put a smart quote
  in place of a typed quote, replace a dictionary key that ends at the
  caret, or convert a finished fraction or number. It then replaces
  `deletecount` code units before the caret with `insert`, and records what
  it did. A backspace right after, at the same element and caret, puts the
  removed text back. The page's elements, selection and editing commands
  are not modelled: an event carries the element's identity, its text and
  its caret, and the handler's answer is a `Reaction`.
 */
module Autocorrect {
  import opened Utf16
  import opened Seqs
  import opened JsString
  import Matcher
  import Compiler
  import Numerals

  datatype InputType =
    | InsertText | InsertCompositionText | InsertParagraph | InsertLineBreak
    | DeleteContentBackward | OtherInput

  /** The four input types the handler looks at. */
  predicate Handled(t: InputType)
  {
    t == InsertText || t == InsertCompositionText || t == InsertParagraph || t == InsertLineBreak
  }

  const Newline: seq<Unit> := [0x0A]
  const Apostrophe: seq<Unit> := [0x27]
  const DoubleQuote: seq<Unit> := [0x22]
  const SlashText: seq<Unit> := [0x2F]
  const DotText: seq<Unit> := [0x2E]

  /** The text an event inserts: a line break for the paragraph and line
      break types, else the event's data. */
  function Typed(t: InputType, data: seq<Unit>): seq<Unit>
  {
    if t == InsertParagraph || t == InsertLineBreak then Newline else data
  }

  predicate IsQuote(s: seq<Unit>) { s == Apostrophe || s == DoubleQuote }

  /** The typographic quote for a typed `'` or `"`: the opening one when the
      character before the caret is white space or there is none, else the
      closing one. */
  function SmartQuote(typed: seq<Unit>, previousChar: seq<Unit>): (r: seq<Unit>)
    requires IsQuote(typed)
    ensures |r| == 1
    ensures typed == Apostrophe ==> (r == [0x2018] <==> AllSpace(previousChar)) && (r == [0x2019] <==> !AllSpace(previousChar))
    ensures typed == DoubleQuote ==> (r == [0x201C] <==> AllSpace(previousChar)) && (r == [0x201D] <==> !AllSpace(previousChar))
  {
    if typed == Apostrophe then (if AllSpace(previousChar) then [0x2018] else [0x2019])
    else (if AllSpace(previousChar) then [0x201C] else [0x201D])
  }

  /** The settings the content script received. */
  datatype Flags = Flags(quotes: bool, fracts: bool, numbers: bool)

  /** What the handler does: delete `deletecount` code units before the caret
      and insert `insert` there. */
  datatype Edit = Edit(deletecount: nat, insert: seq<Unit>)

  /** Which test decides that the match after the keystroke starts later
      than the match before it. */
  datatype Variant = AsWritten | Corrected

  /** `caretposition <= longest ? a < b : a <= b` as written; the corrected
      test switches at `caretposition < longest`. */
  predicate Earlier(v: Variant, caret: int, longest: int, before: int, after: int)
  {
    match v
    case AsWritten => if caret <= longest then before < after else before <= after
    case Corrected => if caret < longest then before < after else before <= after
  }

  /** Where the window `previousText` starts in the element's text. */
  function WindowStart(caret: int, longest: int): int
  {
    if caret < longest then 0 else caret - longest
  }

  /** Where the lookahead window (the last `longest - 1` units and the typed
      text) starts in the element's text. */
  function LookaheadStart(caret: int, longest: int): int
  {
    if caret < longest - 1 then 0 else caret - (longest - 1)
  }

  /** The corrected test compares where the two matches start in the
      element's text: the match before the keystroke starts first. */
  lemma EarlierComparesStarts(caret: nat, longest: nat, before: int, after: int)
    requires longest >= 1
    ensures Earlier(Corrected, caret, longest, before, after) <==>
              WindowStart(caret, longest) + before < LookaheadStart(caret, longest) + after
  {
  }

  /** The written test differs from the corrected one exactly when the caret
      is at `longest` and both matches start at the same window index, where
      the match after the keystroke in fact starts one unit later. */
  lemma AsWrittenOffByOne(caret: nat, longest: nat, before: int, after: int)
    requires longest >= 1
    ensures Earlier(AsWritten, caret, longest, before, after) != Earlier(Corrected, caret, longest, before, after)
            <==> caret == longest && before == after
    ensures caret == longest && before == after ==>
              !Earlier(AsWritten, caret, longest, before, after)
              && WindowStart(caret, longest) + before < LookaheadStart(caret, longest) + after
  {
  }

  /** The symbol branch once the symbol expression matched `m` in the window
      before the caret: the substitution, unless an antipattern matches the
      lookahead window or the match after the keystroke does not start
      later. */
  function SymbolEdit(c: Compiler.Compiled, v: Variant, value: seq<Unit>, caret: nat, inserted: seq<Unit>, m: Matcher.Match): Option<Edit>
  {
    var length := c.longest - 1;
    var text := Slice(value, if caret < length then 0 else caret - length, caret) + inserted;
    var after := Matcher.Exec(c.symbolpatterns, text);
    if !Matcher.Test(c.antipatterns, text) && (after.None? || Earlier(v, caret, c.longest, m.index, after.value.index)) then
      var replacement := match Compiler.Lookup(c.autocorrections, m.text) case Some(r) => r case None => Undefined;
      Some(Edit(|m.text|, replacement + inserted))
    else None
  }

  /** `firstDifferenceIndex(a, b)` from position `i` on. */
  function FirstDifferenceFrom(a: seq<Unit>, b: seq<Unit>, i: nat): (r: nat)
    requires i <= |a| && i <= |b| && a[..i] == b[..i]
    ensures i <= r <= |a| && r <= |b| && a[..r] == b[..r]
    ensures r == |a| || r == |b| || a[r] != b[r]
    ensures r == |a| && r == |b| ==> a == b
    decreases |a| - i
  {
    if i == |a| || i == |b| || a[i] != b[i] then
      assert a[..|a|] == a && b[..|b|] == b;
      i
    else
      assert a[..i + 1] == a[..i] + [a[i]] && b[..i + 1] == b[..i] + [b[i]];
      FirstDifferenceFrom(a, b, i + 1)
  }

  /** `firstDifferenceIndex(a, b)`: -1 for equal strings, else the length of
      their longest common prefix. */
  function FirstDifferenceIndex(a: seq<Unit>, b: seq<Unit>): (r: int)
    ensures r == -1 <==> a == b
    ensures r >= 0 ==> r <= |a| && r <= |b| && a[..r] == b[..r] && (r == |a| || r == |b| || a[r] != b[r])
    ensures r >= 0 ==> forall j :: 0 <= j < r ==> a[j] == b[j]
  {
    if a == b then -1 else FirstDifferenceFrom(a, b, 0)
  }

  /** No common prefix of two strings is longer than the one
      `FirstDifferenceIndex` finds. */
  lemma FirstDifferenceIsLongest(a: seq<Unit>, b: seq<Unit>, j: nat)
    requires a != b
    requires j <= |a| && j <= |b| && a[..j] == b[..j]
    ensures j <= FirstDifferenceIndex(a, b)
  {
    forall i | 0 <= i < j
      ensures a[i] == b[i]
    {
      assert a[..j][i] == a[i] && b[..j][i] == b[i];
    }
  }

  /** The conversion of `literal` to `output` as the fewest deletions: keep
      the prefix the two share, delete the rest of the literal, insert the
      rest of the output and the typed text. */
  function MinimalEdit(literal: seq<Unit>, output: seq<Unit>, inserted: seq<Unit>): (r: Option<Edit>)
    ensures r.None? <==> output == literal
    ensures r.Some? ==> r.value.deletecount <= |literal|
  {
    var index := FirstDifferenceIndex(output, literal);
    if index >= 0 then Some(Edit(|literal| - index, output[index..] + inserted)) else None
  }

  /** Applying the minimal edit to a text ending in the literal gives the
      text with the output and the typed text in the literal's place, and it
      keeps the longest prefix of the literal it can. */
  lemma MinimalEditRebuilds(before: seq<Unit>, literal: seq<Unit>, output: seq<Unit>, inserted: seq<Unit>)
    requires MinimalEdit(literal, output, inserted).Some?
    ensures var e := MinimalEdit(literal, output, inserted).value;
            var prefix := before + literal;
            prefix[..|prefix| - e.deletecount] + e.insert == before + output + inserted
    ensures var e := MinimalEdit(literal, output, inserted).value;
            forall j :: 0 <= j <= |output| && j <= |literal| && output[..j] == literal[..j] ==> |literal| - e.deletecount >= j
  {
    var e := MinimalEdit(literal, output, inserted).value;
    var index := FirstDifferenceIndex(output, literal);
    var prefix := before + literal;
    assert prefix[..|prefix| - e.deletecount] == before + literal[..index];
    assert output == output[..index] + output[index..];
    forall j | 0 <= j <= |output| && j <= |literal| && output[..j] == literal[..j]
      ensures |literal| - e.deletecount >= j
    {
      FirstDifferenceIsLongest(output, literal, j);
    }
  }

  /** The fraction branch: a fraction literal at the caret that the typed
      text finishes becomes its label. */
  function FractionEdit(value: seq<Unit>, caret: nat, inserted: seq<Unit>): (r: Option<Edit>)
    ensures r.Some? && caret <= |value| ==> r.value.deletecount <= caret
  {
    var before := Slice(value, 0, caret);
    match Numerals.FindFraction(before)
    case None => None
    case Some(m) =>
      if inserted == SlashText || Numerals.FindFraction(before + inserted).Some? then None
      else
        var output := Numerals.FractionLabel(Numerals.DigitsValue(m.head), Numerals.DigitsValue(m.tail.value));
        MinimalEdit(Numerals.Text(m, Numerals.Slash), output, inserted)
  }

  /** The number branch, with `outputLabel` (floating-point arithmetic
      against fractions and the constants π and e) as a parameter that
      receives the number and its fraction part (with its dot). */
  function NumberEdit(value: seq<Unit>, caret: nat, inserted: seq<Unit>,
                      outputLabel: (seq<Unit>, Option<seq<Unit>>) -> seq<Unit>): (r: Option<Edit>)
    ensures r.Some? && caret <= |value| ==> r.value.deletecount <= caret
  {
    var before := Slice(value, 0, caret);
    match Numerals.FindNumber(before)
    case None => None
    case Some(m) =>
      if inserted == DotText || Numerals.FindNumber(before + inserted).Some? then None
      else
        var fractionpart := match m.tail case Some(t) => Some([Numerals.Dot] + t) case None => None;
        MinimalEdit(Numerals.Text(m, Numerals.Dot), outputLabel(Numerals.Text(m, Numerals.Dot), fractionpart), inserted)
  }

  /** The window of the last `longest` units before the caret. */
  function PreviousText(c: Compiler.Compiled, value: seq<Unit>, caret: nat): seq<Unit>
  {
    Slice(value, if caret < c.longest then 0 else caret - c.longest, caret)
  }

  /** The decision of the handler for the typed text `inserted` at `caret`:
      the edit, or `None` when the event's default action goes ahead. */
  function Decide(c: Compiler.Compiled, flags: Flags, v: Variant,
                  outputLabel: (seq<Unit>, Option<seq<Unit>>) -> seq<Unit>,
                  value: seq<Unit>, caret: nat, inserted: seq<Unit>): (r: Option<Edit>)
    ensures r.Some? && caret <= |value| ==> r.value.deletecount <= caret
    ensures flags.quotes && IsQuote(inserted) ==> r.Some?
  {
    var quoted := flags.quotes && IsQuote(inserted);
    var quote := if quoted then Some(Edit(0, SmartQuote(inserted, Slice(value, if caret < 1 then 0 else caret - 1, caret)))) else None;
    var previousText := PreviousText(c, value, caret);
    match Matcher.Exec(c.symbolpatterns, previousText)
    case Some(m) =>
      var e := SymbolEdit(c, v, value, caret, inserted, m);
      if e.Some? then e else quote
    case None =>
      if quoted then quote
      else
        var fraction := if flags.fracts then FractionEdit(value, caret, inserted) else None;
        if fraction.Some? then fraction
        else if flags.numbers then NumberEdit(value, caret, inserted, outputLabel)
        else None
  }

  /** Once a dictionary key ends the window before the caret, only the
      symbol branch can change a typed text that is not a quote. */
  lemma DecideBySymbol(c: Compiler.Compiled, flags: Flags, v: Variant,
                       outputLabel: (seq<Unit>, Option<seq<Unit>>) -> seq<Unit>,
                       value: seq<Unit>, caret: nat, inserted: seq<Unit>, m: Matcher.Match)
    requires Matcher.Exec(c.symbolpatterns, PreviousText(c, value, caret)) == Some(m)
    requires !IsQuote(inserted)
    ensures Decide(c, flags, v, outputLabel, value, caret, inserted) == SymbolEdit(c, v, value, caret, inserted, m)
  {
  }

  /** When no dictionary key ends the window before the caret, a typed text
      that is not a quote goes to the fraction branch first, then to the
      number branch. */
  lemma DecideByConversion(c: Compiler.Compiled, flags: Flags, v: Variant,
                           outputLabel: (seq<Unit>, Option<seq<Unit>>) -> seq<Unit>,
                           value: seq<Unit>, caret: nat, inserted: seq<Unit>)
    requires Matcher.Exec(c.symbolpatterns, PreviousText(c, value, caret)).None?
    requires !IsQuote(inserted)
    ensures flags.fracts && FractionEdit(value, caret, inserted).Some? ==>
              Decide(c, flags, v, outputLabel, value, caret, inserted) == FractionEdit(value, caret, inserted)
    ensures !(flags.fracts && FractionEdit(value, caret, inserted).Some?) ==>
              Decide(c, flags, v, outputLabel, value, caret, inserted) ==
                (if flags.numbers then NumberEdit(value, caret, inserted, outputLabel) else None)
  {
  }

  /** A typed quote after white space (or at the start) becomes an opening
      quote, after anything else a closing one, unless a dictionary key ends
      at the caret. */
  lemma TypedQuoteBecomesSmartQuote(c: Compiler.Compiled, flags: Flags, v: Variant,
                                    outputLabel: (seq<Unit>, Option<seq<Unit>>) -> seq<Unit>,
                                    value: seq<Unit>, caret: nat)
    requires flags.quotes && 0 < caret <= |value|
    requires Matcher.Exec(c.symbolpatterns, PreviousText(c, value, caret)).None?
    ensures Decide(c, flags, v, outputLabel, value, caret, Apostrophe) ==
              Some(Edit(0, if IsSpace(value[caret - 1]) then [0x2018] else [0x2019]))
    ensures Decide(c, flags, v, outputLabel, value, caret, DoubleQuote) ==
              Some(Edit(0, if IsSpace(value[caret - 1]) then [0x201C] else [0x201D]))
  {
    var previous := Slice(value, caret - 1, caret);
    assert previous == [value[caret - 1]];
    assert AllSpace(previous) <==> IsSpace(value[caret - 1]);
  }

  /** A substitution deletes exactly the matched text, which ends at the
      caret, and inserts the replacement looked up for it and the typed
      text. */
  lemma SymbolEditDeletesMatch(c: Compiler.Compiled, v: Variant, value: seq<Unit>, caret: nat, inserted: seq<Unit>, m: Matcher.Match)
    requires caret <= |value|
    requires m.index <= |PreviousText(c, value, caret)| && m.text == PreviousText(c, value, caret)[m.index..]
    requires SymbolEdit(c, v, value, caret, inserted, m).Some?
    ensures var e := SymbolEdit(c, v, value, caret, inserted, m).value;
            e.deletecount == |m.text| <= caret && value[caret - |m.text|..caret] == m.text
            && (Compiler.Lookup(c.autocorrections, m.text).Some? ==> e.insert == Compiler.Lookup(c.autocorrections, m.text).value + inserted)
  {
    SymbolEditShape(c, v, value, caret, inserted, m);
    MatchEndsAtCaret(c, value, caret, m);
  }

  /** The edit of a symbol substitution deletes the match and inserts its
      replacement before the typed text. */
  lemma SymbolEditShape(c: Compiler.Compiled, v: Variant, value: seq<Unit>, caret: nat, inserted: seq<Unit>, m: Matcher.Match)
    requires SymbolEdit(c, v, value, caret, inserted, m).Some?
    ensures var e := SymbolEdit(c, v, value, caret, inserted, m).value;
            e.deletecount == |m.text|
            && (Compiler.Lookup(c.autocorrections, m.text).Some? ==> e.insert == Compiler.Lookup(c.autocorrections, m.text).value + inserted)
  {
  }

  /** A match that runs to the end of the window before the caret is the
      text just before the caret. */
  lemma MatchEndsAtCaret(c: Compiler.Compiled, value: seq<Unit>, caret: nat, m: Matcher.Match)
    requires caret <= |value|
    requires m.index <= |PreviousText(c, value, caret)| && m.text == PreviousText(c, value, caret)[m.index..]
    ensures |m.text| <= caret && value[caret - |m.text|..caret] == m.text
  {
    var window := PreviousText(c, value, caret);
    var start := if caret < c.longest then 0 else caret - c.longest;
    assert window == value[start..caret];
    assert value[caret - |m.text|..caret] == window[m.index..];
  }

  /** When a symbol is substituted, the units deleted before the caret are
      exactly a key of the dictionary, the longest one ending the window
      before the caret, and the inserted text is that key's replacement
      followed by the typed text as typed (a smart quote is dropped). */
  lemma SymbolSubstitutionReplacesKey(symbols: seq<Compiler.Entry>, s: Compiler.Settings, unicode: bool,
                                      v: Variant, value: seq<Unit>, caret: nat, inserted: seq<Unit>,
                                      m: Matcher.Match, e: Edit)
    requires caret <= |value|
    requires var c := Compiler.ApplySettings(symbols, s, unicode);
             Matcher.Exec(c.symbolpatterns, PreviousText(c, value, caret)) == Some(m)
             && SymbolEdit(c, v, value, caret, inserted, m) == Some(e)
    ensures var c := Compiler.ApplySettings(symbols, s, unicode);
            var keys := Compiler.Keys(c.autocorrections);
            var window := PreviousText(c, value, caret);
            var key := Slice(value, caret - e.deletecount, caret);
            e.deletecount <= caret && key == m.text
            && Matcher.SuffixKey(keys, unicode, window, key)
            && Compiler.Lookup(c.autocorrections, key).Some?
            && e.insert == Compiler.Lookup(c.autocorrections, key).value + inserted
            && (forall k :: Matcher.SuffixKey(keys, unicode, window, k) ==> |k| <= |key|)
  {
    var c := Compiler.ApplySettings(symbols, s, unicode);
    var window := PreviousText(c, value, caret);
    assert Matcher.ReportsLongestSuffix(Compiler.Keys(c.autocorrections), unicode, window, Some(m));
    SubstitutionOfReportedKey(c, unicode, v, value, caret, inserted, m, e);
  }

  /** The same for any compile whose key expression reports the longest key
      of its dictionary that ends the window, as the match `m`. */
  lemma SubstitutionOfReportedKey(c: Compiler.Compiled, unicode: bool, v: Variant, value: seq<Unit>, caret: nat,
                                  inserted: seq<Unit>, m: Matcher.Match, e: Edit)
    requires caret <= |value|
    requires Matcher.Exec(c.symbolpatterns, PreviousText(c, value, caret)) == Some(m)
    requires Matcher.ReportsLongestSuffix(Compiler.Keys(c.autocorrections), unicode, PreviousText(c, value, caret), Some(m))
    requires SymbolEdit(c, v, value, caret, inserted, m) == Some(e)
    ensures e.deletecount <= caret && Slice(value, caret - e.deletecount, caret) == m.text
    ensures Matcher.SuffixKey(Compiler.Keys(c.autocorrections), unicode, PreviousText(c, value, caret), m.text)
    ensures Compiler.Lookup(c.autocorrections, m.text).Some?
    ensures e.insert == Compiler.Lookup(c.autocorrections, m.text).value + inserted
    ensures forall k :: Matcher.SuffixKey(Compiler.Keys(c.autocorrections), unicode, PreviousText(c, value, caret), k) ==> |k| <= |m.text|
  {
    SymbolEditDeletesMatch(c, v, value, caret, inserted, m);
  }

  /** A label that shares no first unit with the literal replaces all of
      it. */
  lemma MinimalEditReplacesAll(literal: seq<Unit>, output: seq<Unit>, inserted: seq<Unit>)
    requires |literal| > 0 && |output| > 0 && output[0] != literal[0]
    ensures MinimalEdit(literal, output, inserted) == Some(Edit(|literal|, output + inserted))
  {
    assert output[0..] == output;
  }

  /** The minimal edit for a literal that ends at the caret, applied to the
      text before the caret. */
  lemma MinimalEditAtCaret(value: seq<Unit>, caret: nat, index: nat, literal: seq<Unit>, output: seq<Unit>, inserted: seq<Unit>, e: Edit)
    requires caret <= |value| && index + |literal| == caret && value[index..caret] == literal
    requires MinimalEdit(literal, output, inserted) == Some(e)
    ensures e.deletecount <= caret
    ensures value[..caret - e.deletecount] + e.insert == value[..index] + output + inserted
  {
    var head := value[..index];
    var before := value[..caret];
    assert before == head + literal;
    MinimalEditRebuilds(head, literal, output, inserted);
    var kept := caret - e.deletecount;
    assert value[..kept] == before[..kept];
  }

  /** A fraction edit happens only for a fraction literal at the caret that
      the typed text neither is `/` for nor extends, and it is the minimal
      edit from the literal to the fraction's label. */
  lemma FractionEditNeedsFinishedLiteral(value: seq<Unit>, caret: nat, inserted: seq<Unit>)
    requires caret <= |value|
    requires FractionEdit(value, caret, inserted).Some?
    ensures var before := Slice(value, 0, caret);
            Numerals.FindFraction(before).Some?
            && var m := Numerals.FindFraction(before).value;
            m.tail.Some? && inserted != SlashText && Numerals.FindFraction(before + inserted).None?
            && FractionEdit(value, caret, inserted) ==
                 MinimalEdit(Numerals.Text(m, Numerals.Slash), Numerals.FractionLabel(Numerals.DigitsValue(m.head), Numerals.DigitsValue(m.tail.value)), inserted)
  {
  }

  /** Conversely, a fraction literal at the caret that the typed text
      neither is `/` for nor extends gets the minimal edit to its label. */
  lemma FinishedLiteralGetsFractionEdit(value: seq<Unit>, caret: nat, inserted: seq<Unit>, m: Numerals.Literal)
    requires Numerals.FindFraction(Slice(value, 0, caret)) == Some(m)
    requires inserted != SlashText && Numerals.FindFraction(Slice(value, 0, caret) + inserted).None?
    ensures m.tail.Some?
    ensures FractionEdit(value, caret, inserted) ==
              MinimalEdit(Numerals.Text(m, Numerals.Slash), Numerals.FractionLabel(Numerals.DigitsValue(m.head), Numerals.DigitsValue(m.tail.value)), inserted)
  {
  }

  /** When a fraction is converted, the text before the caret loses the
      fraction literal and gains its label and the typed text. */
  lemma FractionConversionRebuilds(value: seq<Unit>, caret: nat, inserted: seq<Unit>, e: Edit)
    requires caret <= |value|
    requires FractionEdit(value, caret, inserted) == Some(e)
    ensures Numerals.FindFraction(value[..caret]).Some?
            && var m := Numerals.FindFraction(value[..caret]).value;
            m.tail.Some? && m.index + |m.head| + 1 + |m.tail.value| == caret
            && e.deletecount <= caret
            && value[m.index..caret] == m.head + [Numerals.Slash] + m.tail.value
            && value[..caret - e.deletecount] + e.insert ==
                 value[..m.index] + Numerals.FractionLabel(Numerals.DigitsValue(m.head), Numerals.DigitsValue(m.tail.value)) + inserted
  {
    FractionEditNeedsFinishedLiteral(value, caret, inserted);
    var before := Slice(value, 0, caret);
    assert before == value[..caret];
    var m := Numerals.FindFraction(before).value;
    var literal := Numerals.Text(m, Numerals.Slash);
    var output := Numerals.FractionLabel(Numerals.DigitsValue(m.head), Numerals.DigitsValue(m.tail.value));
    assert before[m.index..] == literal;
    assert value[m.index..caret] == literal;
    MinimalEditAtCaret(value, caret, m.index, literal, output, inserted, e);
  }

  /** The undo record: what the last autocorrection inserted, what it
      removed (with the typed text), and where it left the caret in which
      element. */
  datatype Record = Record(insertedText: seq<Unit>, deletedText: seq<Unit>, lastTarget: Option<nat>, lastCaret: int)

  /** A `beforeinput` event: its type and data, the element's identity and
      text, and the caret (`None` when there is no single collapsed caret). */
  datatype Event = Event(inputType: InputType, data: seq<Unit>, target: nat, value: seq<Unit>, caret: Option<nat>)

  /** The event's default action goes ahead, or the handler prevents it and
      replaces `deletecount` units before the caret with `insert`. */
  datatype Reaction = Default | Replace(deletecount: nat, insert: seq<Unit>)

  /** The content script's state: the settings it received (`None` before
      any arrived), the undo record, and whether a handler is running. */
  datatype Content = Content(flags: Flags, compiled: Option<Compiler.Compiled>, record: Record, running: bool)

  datatype Failure = SettingsNotReceived

  /** The `autocorrectContent` message from the background: `numbers` is
      `None` when the sender leaves the field out. */
  datatype Message = Message(enabled: bool, quotes: bool, fracts: bool, numbers: Option<bool>, compiled: Compiler.Compiled)

  /** The message `sendSettings` and the background's reply build as
      written: the settings have no number option, so the message has no
      `numbers` field. */
  function SentAsWritten(s: Compiler.Settings, c: Compiler.Compiled): (m: Message)
    ensures m.numbers.None?
    ensures m.enabled == s.enabled && m.quotes == s.quotes && m.fracts == s.fracts && m.compiled == c
  {
    Message(s.enabled, s.quotes, s.fracts, None, c)
  }

  /** The corrected message also carries the `autocorrectUnicodeNumbers`
      option. */
  function SentCorrected(s: Compiler.Settings, numbersOption: bool, c: Compiler.Compiled): (m: Message)
    ensures m.numbers == Some(numbersOption)
    ensures m.enabled == s.enabled && m.quotes == s.quotes && m.fracts == s.fracts && m.compiled == c
  {
    Message(s.enabled, s.quotes, s.fracts, Some(numbersOption), c)
  }

  /** `handleResponse` for an `autocorrectContent` message: every field is
      taken from the message, and a missing `numbers` reads as `undefined`,
      which the number branch's test treats as false. The undo record and
      the running flag stay. */
  function Receive(st: Content, m: Message): (r: Content)
    ensures r.flags.quotes == m.quotes && r.flags.fracts == m.fracts
    ensures r.flags.numbers <==> m.numbers == Some(true)
    ensures r.compiled == Some(m.compiled)
    ensures r.record == st.record && r.running == st.running
  {
    st.(flags := Flags(m.quotes, m.fracts, m.numbers == Some(true)), compiled := Some(m.compiled))
  }

  /** As written, the number option never reaches the content script: after
      any message from the background, a typed text that no key, quote or
      fraction claims is let through, whatever the number branch would do. */
  lemma NumbersNeverArrive(st: Content, s: Compiler.Settings, c: Compiler.Compiled, v: Variant,
                           outputLabel: (seq<Unit>, Option<seq<Unit>>) -> seq<Unit>,
                           value: seq<Unit>, caret: nat, inserted: seq<Unit>)
    requires Matcher.Exec(c.symbolpatterns, PreviousText(c, value, caret)).None?
    requires !IsQuote(inserted)
    requires !(s.fracts && FractionEdit(value, caret, inserted).Some?)
    ensures !Receive(st, SentAsWritten(s, c)).flags.numbers
    ensures Decide(c, Receive(st, SentAsWritten(s, c)).flags, v, outputLabel, value, caret, inserted) == None
  {
    var r := Receive(st, SentAsWritten(s, c));
    DecideByConversion(c, r.flags, v, outputLabel, value, caret, inserted);
  }

  /** With the corrected message and the number option on, the same typed
      text gets the number branch's edit. */
  lemma NumbersArriveCorrected(st: Content, s: Compiler.Settings, c: Compiler.Compiled, v: Variant,
                               outputLabel: (seq<Unit>, Option<seq<Unit>>) -> seq<Unit>,
                               value: seq<Unit>, caret: nat, inserted: seq<Unit>)
    requires Matcher.Exec(c.symbolpatterns, PreviousText(c, value, caret)).None?
    requires !IsQuote(inserted)
    requires !(s.fracts && FractionEdit(value, caret, inserted).Some?)
    ensures Receive(st, SentCorrected(s, true, c)).flags.numbers
    ensures Decide(c, Receive(st, SentCorrected(s, true, c)).flags, v, outputLabel, value, caret, inserted)
            == NumberEdit(value, caret, inserted, outputLabel)
  {
    var r := Receive(st, SentCorrected(s, true, c));
    DecideByConversion(c, r.flags, v, outputLabel, value, caret, inserted);
  }

  /** The text and caret after a replacement. */
  function ApplyReplace(value: seq<Unit>, caret: nat, deletecount: nat, insert: seq<Unit>): (r: (seq<Unit>, nat))
    requires deletecount <= caret <= |value|
    ensures r.1 <= |r.0|
    ensures r.0[..r.1] == value[..caret - deletecount] + insert
    ensures r.0[r.1..] == value[caret..]
  {
    var text := value[..caret - deletecount] + insert + value[caret..];
    var at := caret - deletecount + |insert|;
    assert text[..at] == value[..caret - deletecount] + insert;
    (text, at)
  }

  /** The `autocorrect` handler: throws when no settings arrived; otherwise
      either lets the event through or replaces text and records the undo. */
  function OnInput(st: Content, v: Variant, outputLabel: (seq<Unit>, Option<seq<Unit>>) -> seq<Unit>, ev: Event): (r: Result<(Content, Reaction), Failure>)
    ensures r.Err? <==> Handled(ev.inputType) && st.compiled.None?
    ensures r.Ok? && r.value.1 == Default ==> r.value.0 == st
    ensures r.Ok? && r.value.1.Replace? ==>
              Handled(ev.inputType) && !st.running && ev.caret.Some?
              && r.value.0.record.lastTarget == Some(ev.target)
              && r.value.0.record.insertedText == r.value.1.insert
              && (ev.caret.value <= |ev.value| ==>
                    r.value.0.record.lastCaret == ev.caret.value - r.value.1.deletecount + |r.value.1.insert|)
  {
    if !Handled(ev.inputType) then Ok((st, Default))
    else if st.compiled.None? then Err(SettingsNotReceived)
    else if st.running then Ok((st, Default))
    else match ev.caret
      case None => Ok((st, Default))
      case Some(caret) =>
        var inserted := Typed(ev.inputType, ev.data);
        match Decide(st.compiled.value, st.flags, v, outputLabel, ev.value, caret, inserted)
        case None => Ok((st, Default))
        case Some(e) => Ok(Commit(st, ev, caret, inserted, e))
  }

  /** The end of the `autocorrect` handler once it decided on `e`: delete
      the removed text, insert, and record both for the undo. */
  function Commit(st: Content, ev: Event, caret: nat, inserted: seq<Unit>, e: Edit): (r: (Content, Reaction))
    ensures r.1.Replace? && r.1.insert == e.insert && r.0.record.insertedText == e.insert
    ensures r.0.record.lastTarget == Some(ev.target)
    ensures r.0.flags == st.flags && r.0.compiled == st.compiled && r.0.running == st.running
    ensures e.deletecount <= caret <= |ev.value| ==>
              r.1.deletecount == e.deletecount
              && r.0.record.deletedText == ev.value[caret - e.deletecount..caret] + inserted
              && r.0.record.lastCaret == caret - e.deletecount + |e.insert|
  {
    var removed := if e.deletecount > 0 then Slice(ev.value, caret - e.deletecount, caret) else [];
    var record := Record(e.insert, removed + inserted, Some(ev.target), caret - e.deletecount + |e.insert|);
    (st.(record := record), Replace(|removed|, e.insert))
  }

  /** The `undoAutocorrect` handler: a backspace at the element and caret the
      last autocorrection left puts back what it removed; any backspace with a
      caret forgets the record. */
  function OnBackspace(st: Content, ev: Event): (r: (Content, Reaction))
    ensures ev.inputType == DeleteContentBackward && !st.running && ev.caret.Some? ==> r.0.record.lastTarget.None?
    ensures r.1.Replace? <==> ev.inputType == DeleteContentBackward && !st.running && ev.caret.Some?
                              && st.record.lastTarget == Some(ev.target) && ev.caret.value == st.record.lastCaret
    ensures r.1.Replace? ==> r.1 == Replace(|st.record.insertedText|, st.record.deletedText)
    ensures r.0.flags == st.flags && r.0.compiled == st.compiled && r.0.running == st.running
    ensures r.0.record.insertedText == st.record.insertedText && r.0.record.deletedText == st.record.deletedText
    ensures r.0.record.lastCaret == st.record.lastCaret
    ensures !(ev.inputType == DeleteContentBackward && !st.running && ev.caret.Some?) ==> r == (st, Default)
  {
    if ev.inputType != DeleteContentBackward || st.running then (st, Default)
    else match ev.caret
      case None => (st, Default)
      case Some(caret) =>
        var cleared := st.(record := st.record.(lastTarget := None));
        if st.record.lastTarget == Some(ev.target) && caret == st.record.lastCaret then
          (cleared, Replace(|st.record.insertedText|, st.record.deletedText))
        else (cleared, Default)
  }

  /** Replacing `deletecount` units before the caret with `insert`, then
      `|insert|` units before the new caret with what was removed and the
      typed text, gives the text with the typed text inserted unchanged. */
  lemma ReplaceThenRestore(value: seq<Unit>, caret: nat, deletecount: nat, insert: seq<Unit>, inserted: seq<Unit>)
    requires deletecount <= caret <= |value|
    ensures var (value', caret') := ApplyReplace(value, caret, deletecount, insert);
            |insert| <= caret' <= |value'|
            && ApplyReplace(value', caret', |insert|, value[caret - deletecount..caret] + inserted)
                 == ApplyReplace(value, caret, 0, inserted)
  {
    var (value', caret') := ApplyReplace(value, caret, deletecount, insert);
    var start := caret - deletecount;
    assert value'[..caret' - |insert|] == value[..start];
    assert value[..start] + (value[start..caret] + inserted) == value[..caret] + inserted;
  }

  /** An input event the handler answers with a replacement comes from the
      decision `e` at the event's caret, which the handler commits. */
  lemma OnInputCommits(st: Content, v: Variant, outputLabel: (seq<Unit>, Option<seq<Unit>>) -> seq<Unit>, ev: Event, caret: nat)
    returns (e: Edit)
    requires ev.caret == Some(caret)
    requires OnInput(st, v, outputLabel, ev).Ok? && OnInput(st, v, outputLabel, ev).value.1.Replace?
    ensures Handled(ev.inputType) && !st.running && st.compiled.Some?
    ensures Decide(st.compiled.value, st.flags, v, outputLabel, ev.value, caret, Typed(ev.inputType, ev.data)) == Some(e)
    ensures OnInput(st, v, outputLabel, ev) == Ok(Commit(st, ev, caret, Typed(ev.inputType, ev.data), e))
  {
    e := Decide(st.compiled.value, st.flags, v, outputLabel, ev.value, caret, Typed(ev.inputType, ev.data)).value;
  }

  /** Undo right after an autocorrection restores the text the user typed:
      the element then holds what it would hold had the typed text gone in
      unchanged, with the caret after it; and a second backspace is not an
      undo. */
  lemma UndoRestoresTypedText(st: Content, v: Variant, outputLabel: (seq<Unit>, Option<seq<Unit>>) -> seq<Unit>,
                              ev: Event, caret: nat, other: Event)
    requires ev.caret == Some(caret) && caret <= |ev.value|
    requires OnInput(st, v, outputLabel, ev).Ok? && OnInput(st, v, outputLabel, ev).value.1.Replace?
    ensures var (st', reaction) := OnInput(st, v, outputLabel, ev).value;
            reaction.deletecount <= caret
            && var (value', caret') := ApplyReplace(ev.value, caret, reaction.deletecount, reaction.insert);
               var back := Event(DeleteContentBackward, [], ev.target, value', Some(caret'));
               var (st'', undo) := OnBackspace(st', back);
               undo.Replace? && undo.deletecount <= caret' <= |value'|
               && ApplyReplace(value', caret', undo.deletecount, undo.insert)
                    == ApplyReplace(ev.value, caret, 0, Typed(ev.inputType, ev.data))
               && OnBackspace(st'', other).1 == Default
  {
    var e := OnInputCommits(st, v, outputLabel, ev, caret);
    var (st', reaction) := Commit(st, ev, caret, Typed(ev.inputType, ev.data), e);
    ReplaceThenRestore(ev.value, caret, e.deletecount, e.insert, Typed(ev.inputType, ev.data));
  }
}

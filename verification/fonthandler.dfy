/**
  The older context-menu handler: its own `changeFont`, which indexes the
  raw glyph strings of `fonts` by code unit, a comparison-based toggle, the
  `changeCase` table keyed by the menu ids, the menu ids derived from the
  labels, and the dispatch of a menu click.
 */
module FontHandler {
  import opened Utf16
  import opened JsString
  import opened Seqs
  import opened Casing
  import opened Glyphs
  import Fonts
  import Transformation

  /** `font.length` read on `undefined`. */
  datatype Failure = TypeError

  // ----- change font -----

  /** The letter `c` after the loop body, with `font` a raw glyph string:
      `font[i]` is the single code unit at index i. */
  function UnitLetter(font: seq<Unit>, c: CodePoint): seq<Unit>
  {
    match Dispatch(font, c, 127)
    case Keep => EncodeOne(c)
    case Glyph(u) => [u]
    case Missing => Undefined
  }

  /** The loop over the letters `cs` with `font` the value of `fonts[afont]`
      (`None` for `undefined`): the first letter whose code is in the range
      reads `font.length` and throws when there is no table. */
  function ChangeFontLetters(font: Option<seq<Unit>>, cs: seq<CodePoint>): (r: Result<seq<Unit>, Failure>)
    ensures r.Err? <==> font.None? && exists k :: 0 <= k < |cs| && 33 <= cs[k] <= 127
    ensures font.Some? ==> r == Ok(MapCodePoints(cs, c => UnitLetter(font.value, c)))
    ensures font.None? && r.Ok? ==> r.value == Encode(cs)
  {
    FirstUnitInAsciiRange(if |cs| == 0 then 0 else cs[0], 33, 127);
    if |cs| == 0 then Ok([])
    else if 33 <= FirstUnit(cs[0]) <= 127 && font.None? then Err(TypeError)
    else
      var letter := if font.Some? then UnitLetter(font.value, cs[0]) else EncodeOne(cs[0]);
      match ChangeFontLetters(font, cs[1..])
      case Err(e) => Err(e)
      case Ok(rest) => Ok(letter + rest)
  }

  /** `changeFont(text, afont)` over the `fonts` object. */
  function ChangeFont(fonts: map<string, seq<Unit>>, text: seq<Unit>, afont: string): (r: Result<seq<Unit>, Failure>)
    ensures r.Err? <==> afont !in fonts && exists k :: 0 <= k < |Decode(text)| && 33 <= Decode(text)[k] <= 127
    ensures afont !in fonts && r.Ok? ==> r.value == text
  {
    EncodeDecode(text);
    ChangeFontLetters(if afont in fonts then Some(fonts[afont]) else None, Decode(text))
  }

  /** With a glyph string free of surrogates, reading it by code unit is
      reading it by code point: the older loop gives what the newer one
      gives on the same table. */
  lemma BmpTablesAgree(fonts: map<string, seq<Unit>>, text: seq<Unit>, afont: string)
    requires afont in fonts
    requires forall i :: 0 <= i < |fonts[afont]| ==> !IsHigh(fonts[afont][i]) && !IsLow(fonts[afont][i])
    ensures Decode(fonts[afont]) == fonts[afont]
    ensures ChangeFont(fonts, text, afont)
            == Ok(Transformation.FontText(fonts[afont], text, 127))
  {
    var font := fonts[afont];
    DecodeNoSurrogates(font);
    var cs := Decode(text);
    forall k | 0 <= k < |cs|
      ensures UnitLetter(font, cs[k]) == Transformation.FontLetter(font, cs[k], 127)
    {
    }
    MapCodePointsAgree(cs, c => UnitLetter(font, c), c => Transformation.FontLetter(font, c, 127));
  }

  /** Every letter of `gs` is astral. */
  predicate AllAstral(gs: seq<CodePoint>)
  {
    forall i :: 0 <= i < |gs| ==> 0x1_0000 <= gs[i]
  }

  lemma {:induction false} AstralLength(gs: seq<CodePoint>)
    requires AllAstral(gs)
    ensures |Encode(gs)| == 2 * |gs|
    ensures |gs| > 0 ==> Encode(gs)[0] == EncodeOne(gs[0])[0] && IsHigh(Encode(gs)[0])
    decreases |gs|
  {
    if |gs| > 0 {
      AstralLength(gs[1..]);
    }
  }

  /** A font of 62 astral letters is a string of 124 code units, a length
      the loop does not know: a capital becomes a lone high surrogate and a
      small letter is left as it is, where reading the table by code point
      gives the letters' own glyphs. */
  lemma AstralTableBreaksLetters(fonts: map<string, seq<Unit>>, afont: string, gs: seq<CodePoint>)
    requires afont in fonts && fonts[afont] == Encode(gs)
    requires |gs| == 62 && AllAstral(gs)
    ensures |fonts[afont]| == 124
    ensures ChangeFont(fonts, [0x41, 0x61], afont) == Ok([Encode(gs)[0], 0x61])
    ensures IsHigh(Encode(gs)[0])
    ensures Transformation.FontText(gs, [0x41, 0x61], 126) == EncodeOne(gs[0]) + EncodeOne(gs[26])
  {
    AstralLength(gs);
    var font := fonts[afont];
    var text: seq<Unit> := [0x41, 0x61];
    assert Decode(text) == [0x41, 0x61] by {
      assert Decode(text[1..]) == [0x61] by { assert text[1..] == [0x61]; }
    }
    assert UnitLetter(font, 0x41) == [font[0]];
    assert UnitLetter(font, 0x61) == [0x61];
    assert ChangeFontLetters(Some(font), [0x61]) == Ok([0x61]) by {
      assert [0x61][1..] == [];
    }
    assert ChangeFontLetters(Some(font), [0x41, 0x61]) == Ok([font[0], 0x61]) by {
      var cs: seq<CodePoint> := [0x41, 0x61];
      assert cs[0] == 0x41 && cs[1..] == [0x61];
      assert ChangeFontLetters(Some(font), cs) == Ok(UnitLetter(font, 0x41) + [0x61]);
      assert [font[0]] + [0x61] == [font[0], 0x61];
    }
    var new1: CodePoint -> seq<Unit> := c => Transformation.FontLetter(gs, c, 126);
    assert MapCodePoints([0x41, 0x61], new1) == new1(0x41) + MapCodePoints([0x61], new1);
    assert MapCodePoints([0x61], new1) == new1(0x61) + MapCodePoints([], new1);
  }

  // ----- case changes -----

  /** A letter equal to its lowercase but not its uppercase is uppercased; one
      equal to its uppercase but not its lowercase is lowercased. */
  function ToggleLetterByComparison(cm: CaseMapping, c: CodePoint): seq<Unit>
  {
    var letter := EncodeOne(c);
    var upper := cm.upper(letter);
    var lower := cm.lower(letter);
    if letter == lower && letter != upper then upper
    else if letter == upper && letter != lower then lower
    else letter
  }

  function ToggleCase(cm: CaseMapping, text: seq<Unit>): seq<Unit>
  {
    MapCodePoints(Decode(text), c => ToggleLetterByComparison(cm, c))
  }

  /** The comparison-based toggle and the property-based toggle of the newer
      handler treat a letter differently exactly when it changes under both
      mappings (a titlecase letter such as U+01C5): the newer one uppercases
      it, this one keeps it. */
  lemma ToggleLetterVersusProperties(cm: CaseMapping, c: CodePoint)
    requires Consistent(cm)
    ensures ToggleLetterByComparison(cm, c) != Transformation.ToggleLetter(cm, c)
            <==> cm.changesWhenUppercased(c) && cm.changesWhenLowercased(c)
    ensures cm.changesWhenUppercased(c) && cm.changesWhenLowercased(c) ==>
              ToggleLetterByComparison(cm, c) == EncodeOne(c)
  {
  }

  /** Without such letters the two toggles agree on the whole text. */
  lemma ToggleCasesAgree(cm: CaseMapping, text: seq<Unit>)
    requires Consistent(cm)
    requires forall k :: 0 <= k < |Decode(text)| ==>
               !(cm.changesWhenUppercased(Decode(text)[k]) && cm.changesWhenLowercased(Decode(text)[k]))
    ensures ToggleCase(cm, text) == Transformation.ToggleCase(cm, text)
  {
    var cs := Decode(text);
    forall k | 0 <= k < |cs|
      ensures ToggleLetterByComparison(cm, cs[k]) == Transformation.ToggleLetter(cm, cs[k])
    {
      ToggleLetterVersusProperties(cm, cs[k]);
    }
    MapCodePointsAgree(cs, c => ToggleLetterByComparison(cm, c), c => Transformation.ToggleLetter(cm, c));
  }

  /** `changeCase`, keyed by the menu ids. */
  function CaseByMenuId(): map<string, Fonts.Case>
  {
    map c: Fonts.Case | c in Fonts.Cases :: Fonts.CaseDescription(c) := c
  }

  /** The `changeCase` table has exactly the four entries. */
  lemma CaseByMenuIdEntries()
    ensures CaseByMenuId().Keys == {"lowercase", "uppercase", "capitalize-each-word", "toggle-case"}
    ensures CaseByMenuId()["lowercase"] == Fonts.Lowercase
    ensures CaseByMenuId()["uppercase"] == Fonts.Uppercase
    ensures CaseByMenuId()["capitalize-each-word"] == Fonts.Capitalize
    ensures CaseByMenuId()["toggle-case"] == Fonts.Toggle
  {
  }

  function ApplyCase(cm: CaseMapping, c: Fonts.Case, text: seq<Unit>): seq<Unit>
  {
    match c
    case Lowercase => cm.lower(text)
    case Uppercase => cm.upper(text)
    case Capitalize => Transformation.CapitalizeEachWord(cm, cm.lower(text))
    case Toggle => ToggleCase(cm, text)
  }

  // ----- menu ids -----

  function LowerChar(ch: char): char
  {
    if 'A' <= ch <= 'Z' then (ch as int + 32) as char else ch
  }

  /** `id.toLowerCase().split(" ").join("-")` on an ASCII label. */
  function MenuId(name: string): (r: string)
    ensures |r| == |name|
    ensures forall i :: 0 <= i < |r| ==> r[i] != ' ' && !('A' <= r[i] <= 'Z')
  {
    seq(|name|, i requires 0 <= i < |name| => if name[i] == ' ' then '-' else LowerChar(name[i]))
  }

  /** Deriving a menu id from a menu id changes nothing. */
  lemma MenuIdIdempotent(name: string)
    ensures MenuId(MenuId(name)) == MenuId(name)
  {
  }

  const CaseLabels: seq<string> := ["Lowercase", "Uppercase", "Capitalize Each Word", "Toggle Case"]

  const FontLabels: seq<string> := [
    "Superscript", "Small Caps", "All Small Caps", "Unicase", "separator", "Serif bold",
    "Serif italic", "Serif bold italic", "Sans-serif", "Sans-serif bold", "Sans-serif italic",
    "Sans-serif bold italic", "Script", "Script bold", "Fraktur", "Fraktur bold", "Monospace",
    "Double-struck", "separator", "Circled", "Circled (black)", "Squared", "Squared (black)",
    "Fullwidth"]

  /** The menu ids the click handler's `switch` lists for fonts. */
  const SwitchFontIds: seq<string> := [
    "superscript", "small-caps", "all-small-caps", "unicase", "serif-bold", "serif-italic",
    "serif-bold-italic", "sans-serif", "sans-serif-bold", "sans-serif-italic",
    "sans-serif-bold-italic", "script", "script-bold", "fraktur", "fraktur-bold", "monospace",
    "double-struck", "circled", "circled-(black)", "squared", "squared-(black)", "fullwidth"]

  /** Every case label yields a key of `changeCase`. */
  lemma CaseLabelsYieldCaseKeys()
    ensures forall i :: 0 <= i < |CaseLabels| ==> MenuId(CaseLabels[i]) in CaseByMenuId()
  {
    CaseByMenuIdEntries();
    assert MenuId(CaseLabels[0]) == "lowercase";
    assert MenuId(CaseLabels[1]) == "uppercase";
    assert MenuId(CaseLabels[2]) == "capitalize-each-word";
    assert MenuId(CaseLabels[3]) == "toggle-case";
  }

  /** The menu id of each font label, four or five at a time. */
  lemma FontLabelIds1()
    ensures MenuId("Superscript") == "superscript"
    ensures MenuId("Small Caps") == "small-caps"
    ensures MenuId("All Small Caps") == "all-small-caps"
    ensures MenuId("Unicase") == "unicase"
  {
  }

  lemma FontLabelIds2()
    ensures MenuId("Serif bold") == "serif-bold"
    ensures MenuId("Serif italic") == "serif-italic"
    ensures MenuId("Serif bold italic") == "serif-bold-italic"
    ensures MenuId("Sans-serif") == "sans-serif"
  {
  }

  lemma FontLabelIds3()
    ensures MenuId("Sans-serif bold") == "sans-serif-bold"
    ensures MenuId("Sans-serif italic") == "sans-serif-italic"
    ensures MenuId("Sans-serif bold italic") == "sans-serif-bold-italic"
    ensures MenuId("Script") == "script"
  {
  }

  lemma FontLabelIds4()
    ensures MenuId("Script bold") == "script-bold"
    ensures MenuId("Fraktur") == "fraktur"
    ensures MenuId("Fraktur bold") == "fraktur-bold"
    ensures MenuId("Monospace") == "monospace"
    ensures MenuId("Double-struck") == "double-struck"
  {
  }

  lemma FontLabelIds5()
    ensures MenuId("Circled") == "circled"
    ensures MenuId("Circled (black)") == "circled-(black)"
    ensures MenuId("Squared") == "squared"
    ensures MenuId("Squared (black)") == "squared-(black)"
    ensures MenuId("Fullwidth") == "fullwidth"
  {
  }

  /** The font labels yield the ids the click handler lists, in the same
      order, skipping the two separators. */
  lemma FontLabelsYieldSwitchIds()
    ensures forall i :: 0 <= i < |FontLabels| ==>
              (FontLabels[i] == "separator" <==> i == 4 || i == 18)
    ensures forall i :: 0 <= i < |FontLabels| && FontLabels[i] != "separator" ==>
              MenuId(FontLabels[i]) == SwitchFontIds[if i < 4 then i else if i < 18 then i - 1 else i - 2]
  {
    FontLabelIds1();
    FontLabelIds2();
    FontLabelIds3();
    FontLabelIds4();
    FontLabelIds5();
  }

  /** Every id the click handler lists for fonts is a key of `fonts`. */
  lemma SwitchFontIdsAreFontKeys()
    ensures forall i :: 0 <= i < |SwitchFontIds| ==> SwitchFontIds[i] in Fonts.FontKeys
  {
  }

  /** Every font label but the two separators yields a key of `fonts`. */
  lemma FontLabelsYieldFontKeys()
    ensures forall i :: 0 <= i < |FontLabels| && FontLabels[i] != "separator" ==>
              MenuId(FontLabels[i]) in Fonts.FontKeys
  {
    FontLabelsYieldSwitchIds();
    SwitchFontIdsAreFontKeys();
    forall i | 0 <= i < |FontLabels| && FontLabels[i] != "separator"
      ensures MenuId(FontLabels[i]) in Fonts.FontKeys
    {
      var j := if i < 4 then i else if i < 18 then i - 1 else i - 2;
      assert MenuId(FontLabels[i]) == SwitchFontIds[j];
    }
  }

  // ----- click handling -----

  /** `handle(info, tab)`: the text inserted into the page, or `None` when
      there is no selected text and nothing happens. `normalize` stands for
      `String.prototype.normalize()`. */
  function Handle(glyphs: string -> seq<Unit>, cm: CaseMapping, normalize: seq<Unit> -> seq<Unit>,
                  selection: seq<Unit>, menuItemId: string): Option<Result<seq<Unit>, Failure>>
  {
    if |selection| == 0 then None
    else
      var text := normalize(selection);
      if menuItemId in CaseByMenuId() then Some(Ok(ApplyCase(cm, CaseByMenuId()[menuItemId], text)))
      else if menuItemId in SwitchFontIds then Some(ChangeFont(Fonts.FontsObject(glyphs), text, menuItemId))
      else Some(Ok([]))
  }

  /** The text a click inserts: the table lookups never throw, because every
      id of the `switch` has a table. A click with no selection does
      nothing, and an id the `switch` does not list inserts the empty
      string. Whether the script carrying the text into the page runs is a
      separate matter: see `InjectedCodeAsWritten`. */
  lemma HandleOutcome(glyphs: string -> seq<Unit>, cm: CaseMapping, normalize: seq<Unit> -> seq<Unit>,
                      selection: seq<Unit>, menuItemId: string)
    ensures Handle(glyphs, cm, normalize, selection, menuItemId).None? <==> |selection| == 0
    ensures Handle(glyphs, cm, normalize, selection, menuItemId).Some? ==>
              Handle(glyphs, cm, normalize, selection, menuItemId).value.Ok?
    ensures |selection| > 0 && menuItemId !in CaseByMenuId() && menuItemId !in SwitchFontIds ==>
              Handle(glyphs, cm, normalize, selection, menuItemId) == Some(Ok([]))
  {
    SwitchFontIdsAreFontKeys();
    Fonts.FontsObjectKeys(glyphs);
  }

  // ----- injection into the page -----

  const QuoteUnit: Unit := 0x22
  const BackslashUnit: Unit := 0x5C
  const LineFeed: Unit := 0x0A
  const CarriageReturn: Unit := 0x0D

  /** `insertIntoPage(` and `);`, around the string literal. */
  const CallOpen: seq<Unit> := Units("insertIntoPage(")
  const CallClose: seq<Unit> := Units(");")

  /** The value of the escape `\u` (the second unit), for the four escapes
      this model writes. */
  function EscapedValue(u: Unit): Option<Unit>
  {
    if u == QuoteUnit || u == BackslashUnit then Some(u)
    else if u == 0x6E then Some(LineFeed)
    else if u == 0x72 then Some(CarriageReturn)
    else None
  }

  /** Reads the body of a double-quoted string literal up to its closing
      quote: the literal's value and what follows the quote. `None` when the
      text ends first or holds a raw line break, which a literal cannot, or
      uses an escape other than `\"`, `\\`, `\n` and `\r`, which this
      reader does not cover. */
  function ReadLiteral(s: seq<Unit>): Option<(seq<Unit>, seq<Unit>)>
    decreases |s|
  {
    if |s| == 0 then None
    else if s[0] == QuoteUnit then Some(([], s[1..]))
    else if s[0] == LineFeed || s[0] == CarriageReturn then None
    else if s[0] == BackslashUnit then
      if |s| < 2 then None
      else match EscapedValue(s[1])
        case None => None
        case Some(c) =>
          match ReadLiteral(s[2..])
          case None => None
          case Some((v, rest)) => Some(([c] + v, rest))
    else
      match ReadLiteral(s[1..])
      case None => None
      case Some((v, rest)) => Some(([s[0]] + v, rest))
  }

  /** The argument of a script of the form `insertIntoPage("…");`, or
      `None` when the script is not one call with one string literal. */
  function ReadCall(code: seq<Unit>): Option<seq<Unit>>
  {
    var n := |CallOpen| + 1;
    if |code| < n || code[..n] != CallOpen + [QuoteUnit] then None
    else match ReadLiteral(code[n..])
      case Some((v, rest)) => if rest == CallClose then Some(v) else None
      case None => None
  }

  /** The script `handle` runs in the page as written: the output between
      double quotes, nothing escaped. */
  function InjectedCodeAsWritten(output: seq<Unit>): (code: seq<Unit>)
    ensures |code| == |CallOpen| + |output| + 2 + |CallClose|
  {
    CallOpen + [QuoteUnit] + output + [QuoteUnit] + CallClose
  }

  /** A unit as a string literal must write it: a backslash before `"` and
      `\`, and `\n`, `\r` for the two line breaks. */
  function EscapeUnit(u: Unit): (r: seq<Unit>)
    ensures 1 <= |r| <= 2
    ensures forall i :: 0 <= i < |r| ==> r[i] != LineFeed && r[i] != CarriageReturn
  {
    if u == QuoteUnit || u == BackslashUnit then [BackslashUnit, u]
    else if u == LineFeed then [BackslashUnit, 0x6E]
    else if u == CarriageReturn then [BackslashUnit, 0x72]
    else [u]
  }

  function Escape(s: seq<Unit>): (r: seq<Unit>)
    ensures |s| <= |r| <= 2 * |s|
    ensures forall i :: 0 <= i < |r| ==> r[i] != LineFeed && r[i] != CarriageReturn
  {
    if |s| == 0 then [] else EscapeUnit(s[0]) + Escape(s[1..])
  }

  /** The injected script with the output escaped as a string literal. */
  function InjectedCode(output: seq<Unit>): (code: seq<Unit>)
    ensures |code| >= |CallOpen| + |output| + 2 + |CallClose|
  {
    CallOpen + [QuoteUnit] + Escape(output) + [QuoteUnit] + CallClose
  }

  /** Reading one escaped unit: the literal's value starts with the unit,
      and the rest reads on. */
  lemma ReadEscapedUnit(u: Unit, t: seq<Unit>)
    ensures ReadLiteral(EscapeUnit(u) + t)
            == match ReadLiteral(t) case None => None case Some((v, rest)) => Some(([u] + v, rest))
  {
    var e := EscapeUnit(u) + t;
    if |EscapeUnit(u)| == 2 {
      assert e[2..] == t;
    } else {
      assert e[1..] == t;
    }
  }

  /** An escaped literal reads back as the text it escapes, and reading
      stops at its closing quote. */
  lemma {:induction false} ReadEscaped(s: seq<Unit>, tail: seq<Unit>)
    ensures ReadLiteral(Escape(s) + [QuoteUnit] + tail) == Some((s, tail))
    decreases |s|
  {
    if |s| == 0 {
      assert Escape(s) + [QuoteUnit] + tail == [QuoteUnit] + tail;
    } else {
      var t := Escape(s[1..]) + [QuoteUnit] + tail;
      ReadEscaped(s[1..], tail);
      assert Escape(s) + [QuoteUnit] + tail == EscapeUnit(s[0]) + t;
      ReadEscapedUnit(s[0], t);
      assert [s[0]] + s[1..] == s;
    }
  }

  /** The escaped script is one call whose argument is exactly the output. */
  lemma InjectedCodeReadsBack(output: seq<Unit>)
    ensures ReadCall(InjectedCode(output)) == Some(output)
  {
    var code := InjectedCode(output);
    var n := |CallOpen| + 1;
    assert code[..n] == CallOpen + [QuoteUnit];
    assert code[n..] == Escape(output) + [QuoteUnit] + CallClose;
    ReadEscaped(output, CallClose);
  }

  /** Output without quotes, backslashes and line breaks needs no escape:
      there the script as written is the escaped one. */
  lemma {:induction false} EscapeKeepsPlainText(s: seq<Unit>)
    requires forall i :: 0 <= i < |s| ==> s[i] !in {QuoteUnit, BackslashUnit, LineFeed, CarriageReturn}
    ensures Escape(s) == s
    decreases |s|
  {
    if |s| > 0 {
      EscapeKeepsPlainText(s[1..]);
      assert [s[0]] + s[1..] == s;
    }
  }

  lemma InjectedCodeAsWrittenForPlainText(output: seq<Unit>)
    requires forall i :: 0 <= i < |output| ==> output[i] !in {QuoteUnit, BackslashUnit, LineFeed, CarriageReturn}
    ensures InjectedCodeAsWritten(output) == InjectedCode(output)
    ensures ReadCall(InjectedCodeAsWritten(output)) == Some(output)
  {
    EscapeKeepsPlainText(output);
    InjectedCodeReadsBack(output);
  }

  /** A selection that is a single `"` (kept by every case change and by
      the fonts without punctuation) makes the script as written
      `insertIntoPage(""");`: the literal closes at the second quote and a
      third one follows, so it is not one call with the output; the escaped
      script inserts the quote. */
  lemma QuoteBreaksInjection()
    ensures ReadCall(InjectedCodeAsWritten([QuoteUnit])) == None
    ensures ReadCall(InjectedCode([QuoteUnit])) == Some([QuoteUnit])
  {
    var code := InjectedCodeAsWritten([QuoteUnit]);
    var n := |CallOpen| + 1;
    assert code[..n] == CallOpen + [QuoteUnit];
    var lit := [QuoteUnit, QuoteUnit] + CallClose;
    assert code[n..] == lit;
    assert lit[0] == QuoteUnit && lit[1..] == [QuoteUnit] + CallClose;
    assert CallClose[0] == ")"[0] as int == 0x29;
    assert ([QuoteUnit] + CallClose)[0] != CallClose[0];
    InjectedCodeReadsBack([QuoteUnit]);
  }
}

/**
  The text transformations of the newer handler: `getTransformationType`
  and `transformText` dispatch on the id prefix to one of the four case
  changes or to the font change.

  CASE_ID_PREFIX, FONT_ID_PREFIX and the `fontLetters` tables (one array of
  letters per font id) are not defined in the data module of this model, so
  they are carried in `Config`.
 */
module Transformation {
  import opened Utf16
  import opened JsString
  import opened Seqs
  import opened Casing
  import opened Glyphs
  import Fonts

  datatype TransformationType = CasingType | FontType

  /** The errors the handler throws. */
  datatype Failure =
    | UnknownTransformation  // neither prefix matches the id
    | NotAFunction           // `changeCase[id]` is undefined
    | UnknownFont            // no letter table for the id

  datatype Config = Config(casePrefix: string, fontPrefix: string, fontLetters: map<string, seq<CodePoint>>)

  /** The type of a transformation id; the case prefix is tested first. */
  function GetTransformationType(cfg: Config, id: string): (r: Result<TransformationType, Failure>)
    ensures r == Ok(CasingType) <==> StartsWith(id, cfg.casePrefix)
    ensures r == Ok(FontType) <==> !StartsWith(id, cfg.casePrefix) && StartsWith(id, cfg.fontPrefix)
    ensures r.Err? <==> !StartsWith(id, cfg.casePrefix) && !StartsWith(id, cfg.fontPrefix)
    ensures r.Err? ==> r.error == UnknownTransformation
  {
    if StartsWith(id, cfg.casePrefix) then Ok(CasingType)
    else if StartsWith(id, cfg.fontPrefix) then Ok(FontType)
    else Err(UnknownTransformation)
  }

  /** `changeCase`: the four case changes under their ids. */
  function CaseTable(cfg: Config): map<string, Fonts.Case>
  {
    map[cfg.casePrefix + "Lowercase" := Fonts.Lowercase,
        cfg.casePrefix + "Uppercase" := Fonts.Uppercase,
        cfg.casePrefix + "CapitalizeEachWord" := Fonts.Capitalize,
        cfg.casePrefix + "ToggleCase" := Fonts.Toggle]
  }

  /** Two different suffixes after the same prefix give different ids. */
  lemma PrefixedDiffer(p: string, a: string, b: string)
    requires a != b
    ensures p + a != p + b
  {
    assert (p + a)[|p|..] == a;
    assert (p + b)[|p|..] == b;
  }

  /** Every id of `changeCase` carries the case prefix, the four ids are
      distinct, and each names its own case change. */
  lemma CaseTableEntries(cfg: Config)
    ensures |CaseTable(cfg)| == 4
    ensures forall id :: id in CaseTable(cfg) ==> StartsWith(id, cfg.casePrefix)
    ensures CaseTable(cfg)[cfg.casePrefix + "Lowercase"] == Fonts.Lowercase
    ensures CaseTable(cfg)[cfg.casePrefix + "Uppercase"] == Fonts.Uppercase
    ensures CaseTable(cfg)[cfg.casePrefix + "CapitalizeEachWord"] == Fonts.Capitalize
    ensures CaseTable(cfg)[cfg.casePrefix + "ToggleCase"] == Fonts.Toggle
  {
    var p := cfg.casePrefix;
    PrefixedDiffer(p, "Lowercase", "Uppercase");
    PrefixedDiffer(p, "Lowercase", "CapitalizeEachWord");
    PrefixedDiffer(p, "Lowercase", "ToggleCase");
    PrefixedDiffer(p, "Uppercase", "CapitalizeEachWord");
    PrefixedDiffer(p, "Uppercase", "ToggleCase");
    PrefixedDiffer(p, "CapitalizeEachWord", "ToggleCase");
    forall id | id in CaseTable(cfg)
      ensures StartsWith(id, p)
    {
      assert id[..|p|] == p;
    }
  }

  /** One case change applied to the whole text. */
  function ApplyCase(cm: CaseMapping, c: Fonts.Case, text: seq<Unit>): seq<Unit>
  {
    match c
    case Lowercase => cm.lower(text)
    case Uppercase => cm.upper(text)
    case Capitalize => CapitalizeEachWord(cm, cm.lower(text))
    case Toggle => ToggleCase(cm, text)
  }

  // ----- toggle case -----

  /** Uppercase a letter that changes when uppercased, else lowercase one
      that changes when lowercased, else keep it. */
  function ToggleLetter(cm: CaseMapping, c: CodePoint): seq<Unit>
  {
    if cm.changesWhenUppercased(c) then cm.upper(EncodeOne(c))
    else if cm.changesWhenLowercased(c) then cm.lower(EncodeOne(c))
    else EncodeOne(c)
  }

  function ToggleCase(cm: CaseMapping, text: seq<Unit>): seq<Unit>
  {
    MapCodePoints(Decode(text), c => ToggleLetter(cm, c))
  }

  /** Text without a letter that either mapping changes comes back unchanged. */
  lemma ToggleCaseKeepsCaseless(cm: CaseMapping, text: seq<Unit>)
    requires forall k :: 0 <= k < |Decode(text)| ==>
               !cm.changesWhenUppercased(Decode(text)[k]) && !cm.changesWhenLowercased(Decode(text)[k])
    ensures ToggleCase(cm, text) == text
  {
    MapCodePointsIdentity(text, c => ToggleLetter(cm, c));
  }

  /** The unit-level effect of toggling with the ASCII mapping. */
  function SwapAsciiCase(u: Unit): (r: Unit)
    ensures IsAsciiLower(u) ==> r == u - 0x20
    ensures IsAsciiUpper(u) ==> r == u + 0x20
    ensures !IsAsciiLower(u) && !IsAsciiUpper(u) ==> r == u
  {
    if IsAsciiLower(u) then u - 0x20 else if IsAsciiUpper(u) then u + 0x20 else u
  }

  /** With the ASCII mapping, toggling swaps the case of each ASCII letter
      and leaves every other code unit where it was. */
  lemma ToggleAsciiSwapsLetters(text: seq<Unit>)
    ensures |ToggleCase(Ascii, text)| == |text|
    ensures forall i :: 0 <= i < |text| ==> ToggleCase(Ascii, text)[i] == SwapAsciiCase(text[i])
  {
    var f := c => ToggleLetter(Ascii, c);
    forall c: CodePoint | c < 0x1_0000
      ensures f(c) == [SwapAsciiCase(c)]
    {
      assert EncodeOne(c) == [c];
    }
    MapCodePointsUnitwise(text, f, SwapAsciiCase);
  }

  /** Toggling twice with the ASCII mapping gives the text back. */
  lemma ToggleAsciiTwice(text: seq<Unit>)
    ensures ToggleCase(Ascii, ToggleCase(Ascii, text)) == text
  {
    var once := ToggleCase(Ascii, text);
    ToggleAsciiSwapsLetters(text);
    ToggleAsciiSwapsLetters(once);
  }

  // ----- capitalize each word -----

  /** No `\s` letter among cs[j..i]. */
  predicate NoSpaceIn(cs: seq<CodePoint>, j: int, i: int)
    requires 0 <= j <= i <= |cs|
  {
    forall m :: j <= m < i ==> !IsSpace(cs[m])
  }

  /** An alphabetic letter comes before position i in the same
      whitespace-free run. */
  predicate AlphaBefore(cm: CaseMapping, cs: seq<CodePoint>, i: int)
    requires 0 <= i <= |cs|
  {
    exists j :: 0 <= j < i && cm.alphabetic(cs[j]) && NoSpaceIn(cs, j, i)
  }

  /** The letter at k is the first alphabetic letter of its whitespace-free run. */
  predicate StartsWord(cm: CaseMapping, cs: seq<CodePoint>, k: int)
    requires 0 <= k < |cs|
  {
    cm.alphabetic(cs[k]) && !AlphaBefore(cm, cs, k)
  }

  /** The global replacement of an alphabetic letter and the non-space
      letters after it, where the letter begins the text or follows a
      non-alphabetic letter, computed from letter i on. `inMatch` says the
      letter before i belongs to a match; a match goes on over every
      non-space letter, and only its first letter is uppercased. */
  function CapitalizeFrom(cm: CaseMapping, cs: seq<CodePoint>, i: nat, inMatch: bool): seq<Unit>
    requires i <= |cs|
    decreases |cs| - i
  {
    if i == |cs| then []
    else if inMatch && !IsSpace(cs[i]) then EncodeOne(cs[i]) + CapitalizeFrom(cm, cs, i + 1, true)
    else if cm.alphabetic(cs[i]) && (i == 0 || !cm.alphabetic(cs[i - 1])) then
      cm.upper(EncodeOne(cs[i])) + CapitalizeFrom(cm, cs, i + 1, true)
    else EncodeOne(cs[i]) + CapitalizeFrom(cm, cs, i + 1, false)
  }

  function CapitalizeEachWord(cm: CaseMapping, text: seq<Unit>): seq<Unit>
  {
    CapitalizeFrom(cm, Decode(text), 0, false)
  }

  /** The reference: each letter, uppercased when it starts a word. */
  function CapitalizedLetters(cm: CaseMapping, cs: seq<CodePoint>): (p: seq<seq<Unit>>)
    ensures |p| == |cs|
    ensures forall k :: 0 <= k < |cs| ==>
              p[k] == (if StartsWord(cm, cs, k) then cm.upper(EncodeOne(cs[k])) else EncodeOne(cs[k]))
  {
    seq(|cs|, k requires 0 <= k < |cs| =>
      if StartsWord(cm, cs, k) then cm.upper(EncodeOne(cs[k])) else EncodeOne(cs[k]))
  }

  /** Inside a run that already holds an alphabetic letter, a non-space
      letter does not start a word and the run goes on. */
  lemma ContinueRun(cm: CaseMapping, cs: seq<CodePoint>, i: nat)
    requires i < |cs|
    requires AlphaBefore(cm, cs, i) && !IsSpace(cs[i])
    ensures !StartsWord(cm, cs, i) && AlphaBefore(cm, cs, i + 1)
  {
    var j :| 0 <= j < i && cm.alphabetic(cs[j]) && NoSpaceIn(cs, j, i);
    assert NoSpaceIn(cs, j, i + 1);
  }

  /** Where the replacement starts a match, the letter starts a word. */
  lemma BeginRun(cm: CaseMapping, cs: seq<CodePoint>, i: nat)
    requires SpacesAreNotAlphabetic(cm)
    requires i < |cs|
    requires !(AlphaBefore(cm, cs, i) && !IsSpace(cs[i]))
    requires cm.alphabetic(cs[i]) && (i == 0 || !cm.alphabetic(cs[i - 1]))
    ensures StartsWord(cm, cs, i) && AlphaBefore(cm, cs, i + 1)
  {
    assert !IsSpace(cs[i]);
    assert NoSpaceIn(cs, i, i + 1);
  }

  /** Elsewhere the letter does not start a word, and no alphabetic letter
      is pending in the run after it. */
  lemma OutsideRun(cm: CaseMapping, cs: seq<CodePoint>, i: nat)
    requires SpacesAreNotAlphabetic(cm)
    requires i < |cs|
    requires !(AlphaBefore(cm, cs, i) && !IsSpace(cs[i]))
    requires !(cm.alphabetic(cs[i]) && (i == 0 || !cm.alphabetic(cs[i - 1])))
    ensures !StartsWord(cm, cs, i) && !AlphaBefore(cm, cs, i + 1)
  {
    assert !cm.alphabetic(cs[i]) by {
      if cm.alphabetic(cs[i]) {
        assert !IsSpace(cs[i - 1]);
        assert NoSpaceIn(cs, i - 1, i);
      }
    }
    forall j | 0 <= j < i && cm.alphabetic(cs[j])
      ensures !NoSpaceIn(cs, j, i + 1)
    {
      if !IsSpace(cs[i]) {
        assert !NoSpaceIn(cs, j, i);
        var m :| j <= m < i && IsSpace(cs[m]);
      }
    }
  }

  /** One letter of the replacement: the letter as the reference writes it,
      then the rest, with a match pending exactly when an alphabetic letter
      came before in the run. */
  lemma CapitalizeStep(cm: CaseMapping, cs: seq<CodePoint>, i: nat, inMatch: bool)
    requires SpacesAreNotAlphabetic(cm)
    requires i < |cs|
    requires inMatch == AlphaBefore(cm, cs, i)
    ensures CapitalizeFrom(cm, cs, i, inMatch) ==
              CapitalizedLetters(cm, cs)[i] + CapitalizeFrom(cm, cs, i + 1, AlphaBefore(cm, cs, i + 1))
  {
    if inMatch && !IsSpace(cs[i]) {
      ContinueRun(cm, cs, i);
    } else if cm.alphabetic(cs[i]) && (i == 0 || !cm.alphabetic(cs[i - 1])) {
      BeginRun(cm, cs, i);
    } else {
      OutsideRun(cm, cs, i);
    }
  }

  lemma {:induction false} CapitalizeFromFollowsReference(cm: CaseMapping, cs: seq<CodePoint>, i: nat, inMatch: bool)
    requires SpacesAreNotAlphabetic(cm)
    requires i <= |cs|
    requires inMatch == AlphaBefore(cm, cs, i)
    ensures CapitalizeFrom(cm, cs, i, inMatch) == Concat(CapitalizedLetters(cm, cs)[i..])
    decreases |cs| - i
  {
    var p := CapitalizedLetters(cm, cs);
    if i < |cs| {
      assert Concat(p[i..]) == p[i] + Concat(p[i + 1..]) by {
        assert p[i..][1..] == p[i + 1..];
      }
      CapitalizeStep(cm, cs, i, inMatch);
      CapitalizeFromFollowsReference(cm, cs, i + 1, AlphaBefore(cm, cs, i + 1));
    }
  }

  /** Capitalize-each-word uppercases exactly the first alphabetic letter of
      every whitespace-free run and copies every other letter. */
  lemma CapitalizeEachWordFollowsReference(cm: CaseMapping, text: seq<Unit>)
    requires SpacesAreNotAlphabetic(cm)
    ensures CapitalizeEachWord(cm, text) == Concat(CapitalizedLetters(cm, Decode(text)))
  {
    var cs := Decode(text);
    assert !AlphaBefore(cm, cs, 0);
    CapitalizeFromFollowsReference(cm, cs, 0, false);
    assert CapitalizedLetters(cm, cs)[0..] == CapitalizedLetters(cm, cs);
  }

  // ----- change font -----

  /** What replaces the letter `c` with the letter table `font`, when `last`
      is the last code the range test admits. */
  function FontLetter(font: seq<CodePoint>, c: CodePoint, last: int): seq<Unit>
    requires 33 <= last < 0xD800
  {
    match Dispatch(font, c, last)
    case Keep => EncodeOne(c)
    case Glyph(g) => EncodeOne(g)
    case Missing => Undefined
  }

  function FontText(font: seq<CodePoint>, text: seq<Unit>, last: int): seq<Unit>
    requires 33 <= last < 0xD800
  {
    MapCodePoints(Decode(text), c => FontLetter(font, c, last))
  }

  lemma FontTextOfOneLetter(font: seq<CodePoint>, c: Unit, last: int)
    requires 33 <= last < 0xD800
    requires !IsHigh(c) && !IsLow(c)
    ensures FontText(font, [c], last) == FontLetter(font, c, last)
  {
    var f: CodePoint -> seq<Unit> := c => FontLetter(font, c, last);
    assert Decode([c]) == [c];
    assert MapCodePoints([c], f) == f(c) + MapCodePoints([c][1..], f);
    assert [c][1..] == [];
  }

  /** `changeFont` as written: the range test admits DEL (127). */
  function ChangeFontAsWritten(fontLetters: map<string, seq<CodePoint>>, text: seq<Unit>, id: string): (r: Result<seq<Unit>, Failure>)
    ensures r.Err? <==> id !in fontLetters
    ensures r.Err? ==> r.error == UnknownFont
  {
    if id !in fontLetters then Err(UnknownFont) else Ok(FontText(fontLetters[id], text, 127))
  }

  /** `changeFont` with the range test stopping at `~` (126). */
  function ChangeFont(fontLetters: map<string, seq<CodePoint>>, text: seq<Unit>, id: string): (r: Result<seq<Unit>, Failure>)
    ensures r.Err? <==> id !in fontLetters
    ensures r.Err? ==> r.error == UnknownFont
  {
    if id !in fontLetters then Err(UnknownFont) else Ok(FontText(fontLetters[id], text, 126))
  }

  /** The layout's letter for `c`: the reference for `FontLetter`. */
  function LayoutLetter(font: seq<CodePoint>, c: CodePoint): seq<Unit>
  {
    match LayoutLookup(font, c)
    case Keep => EncodeOne(c)
    case Glyph(g) => EncodeOne(g)
    case Missing => Undefined
  }

  /** Every letter of the text is replaced by the entry the table's layout
      assigns to it, and kept when the layout assigns none. */
  lemma ChangeFontFollowsLayout(fontLetters: map<string, seq<CodePoint>>, text: seq<Unit>, id: string)
    requires id in fontLetters
    ensures ChangeFont(fontLetters, text, id)
            == Ok(MapCodePoints(Decode(text), c => LayoutLetter(fontLetters[id], c)))
  {
    var font := fontLetters[id];
    forall k | 0 <= k < |Decode(text)|
      ensures FontLetter(font, Decode(text)[k], 126) == LayoutLetter(font, Decode(text)[k])
    {
      DispatchFollowsLayout(font, Decode(text)[k]);
    }
    MapCodePointsAgree(Decode(text), c => FontLetter(font, c, 126), c => LayoutLetter(font, c));
  }

  /** A text none of whose letters is in `!`..`~` comes back unchanged:
      space, controls, DEL and every non-ASCII letter, astral ones included. */
  lemma ChangeFontKeepsOtherText(fontLetters: map<string, seq<CodePoint>>, text: seq<Unit>, id: string)
    requires id in fontLetters
    requires forall k :: 0 <= k < |Decode(text)| ==> !(33 <= Decode(text)[k] <= 126)
    ensures ChangeFont(fontLetters, text, id) == Ok(text)
  {
    var font := fontLetters[id];
    forall k | 0 <= k < |Decode(text)|
      ensures FontLetter(font, Decode(text)[k], 126) == EncodeOne(Decode(text)[k])
    {
      FirstUnitInAsciiRange(Decode(text)[k], 33, 126);
    }
    MapCodePointsIdentity(text, c => FontLetter(font, c, 126));
  }

  /** DEL with a 94-letter table: the code as written appends "undefined";
      the corrected range keeps DEL. */
  lemma ChangeFontDelReadsPastTable(fontLetters: map<string, seq<CodePoint>>, id: string)
    requires id in fontLetters && |fontLetters[id]| == 94
    ensures ChangeFontAsWritten(fontLetters, [0x7F], id) == Ok(Undefined)
    ensures ChangeFont(fontLetters, [0x7F], id) == Ok([0x7F])
  {
    var font := fontLetters[id];
    DelIsTheOnlyDifference(font, 0x7F);
    FontTextOfOneLetter(font, 0x7F, 127);
    FontTextOfOneLetter(font, 0x7F, 126);
  }

  /** On text without DEL the written and the corrected range agree. */
  lemma ChangeFontAgreesWithoutDel(fontLetters: map<string, seq<CodePoint>>, text: seq<Unit>, id: string)
    requires forall k :: 0 <= k < |Decode(text)| ==> Decode(text)[k] != 0x7F
    ensures ChangeFontAsWritten(fontLetters, text, id) == ChangeFont(fontLetters, text, id)
  {
    if id in fontLetters {
      var font := fontLetters[id];
      forall k | 0 <= k < |Decode(text)|
        ensures FontLetter(font, Decode(text)[k], 127) == FontLetter(font, Decode(text)[k], 126)
      {
        DelIsTheOnlyDifference(font, Decode(text)[k]);
      }
      MapCodePointsAgree(Decode(text), c => FontLetter(font, c, 127), c => FontLetter(font, c, 126));
    }
  }

  // ----- dispatch -----

  /** `transformText`: casing ids go to `changeCase`, font ids to
      `changeFont` as written, whose range test admits DEL. */
  function TransformText(cfg: Config, cm: CaseMapping, text: seq<Unit>, id: string): (r: Result<seq<Unit>, Failure>)
    ensures StartsWith(id, cfg.casePrefix) ==> (r.Ok? <==> id in CaseTable(cfg))
    ensures StartsWith(id, cfg.casePrefix) && id in CaseTable(cfg) ==> r == Ok(ApplyCase(cm, CaseTable(cfg)[id], text))
    ensures StartsWith(id, cfg.casePrefix) && id !in CaseTable(cfg) ==> r == Err(NotAFunction)
    ensures !StartsWith(id, cfg.casePrefix) && StartsWith(id, cfg.fontPrefix) ==> r == ChangeFontAsWritten(cfg.fontLetters, text, id)
    ensures !StartsWith(id, cfg.casePrefix) && !StartsWith(id, cfg.fontPrefix) ==> r == Err(UnknownTransformation)
  {
    match GetTransformationType(cfg, id)
    case Err(e) => Err(e)
    case Ok(CasingType) =>
      if id in CaseTable(cfg) then Ok(ApplyCase(cm, CaseTable(cfg)[id], text)) else Err(NotAFunction)
    case Ok(FontType) => ChangeFontAsWritten(cfg.fontLetters, text, id)
  }

  /** An id that starts with the font prefix but not the case prefix
      succeeds exactly when it has a letter table. */
  lemma FontIdsNeedTables(cfg: Config, cm: CaseMapping, text: seq<Unit>, id: string)
    requires !StartsWith(id, cfg.casePrefix) && StartsWith(id, cfg.fontPrefix)
    ensures TransformText(cfg, cm, text, id).Ok? <==> id in cfg.fontLetters
  {
  }

  /** A font id changes a text without DEL as the corrected font change
      does, and DEL with a 94-letter table into "undefined". */
  lemma FontIdsFollowCorrectedWithoutDel(cfg: Config, cm: CaseMapping, text: seq<Unit>, id: string)
    requires !StartsWith(id, cfg.casePrefix) && StartsWith(id, cfg.fontPrefix)
    ensures (forall k :: 0 <= k < |Decode(text)| ==> Decode(text)[k] != 0x7F)
              ==> TransformText(cfg, cm, text, id) == ChangeFont(cfg.fontLetters, text, id)
    ensures id in cfg.fontLetters && |cfg.fontLetters[id]| == 94 ==> TransformText(cfg, cm, [0x7F], id) == Ok(Undefined)
  {
    if forall k :: 0 <= k < |Decode(text)| ==> Decode(text)[k] != 0x7F {
      ChangeFontAgreesWithoutDel(cfg.fontLetters, text, id);
    }
    if id in cfg.fontLetters && |cfg.fontLetters[id]| == 94 {
      ChangeFontDelReadsPastTable(cfg.fontLetters, id);
    }
  }

  /** Each of the four case ids reaches its own case change. */
  lemma CaseIdsReachTheirChange(cfg: Config, cm: CaseMapping, text: seq<Unit>)
    ensures TransformText(cfg, cm, text, cfg.casePrefix + "Lowercase") == Ok(cm.lower(text))
    ensures TransformText(cfg, cm, text, cfg.casePrefix + "Uppercase") == Ok(cm.upper(text))
    ensures TransformText(cfg, cm, text, cfg.casePrefix + "CapitalizeEachWord")
            == Ok(CapitalizeEachWord(cm, cm.lower(text)))
    ensures TransformText(cfg, cm, text, cfg.casePrefix + "ToggleCase") == Ok(ToggleCase(cm, text))
  {
    CaseTableEntries(cfg);
  }
}

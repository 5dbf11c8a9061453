/**
  The static data of the font and case menus: the CASE and FONT symbols,
  their string-keyed inverses, the context-menu order with its translation
  keys, and the `fonts` table of glyph strings.

  The nineteen literal glyph strings of `fonts` are a parameter (`glyphs`);
  the three tables built from the small-capital letters are spelled out.
 */
module Fonts {
  import opened Utf16
  import opened JsString
  import opened Seqs

  /** The CASE symbols, in declaration order. */
  datatype Case = Capitalize | Lowercase | Toggle | Uppercase

  const Cases: seq<Case> := [Capitalize, Lowercase, Toggle, Uppercase]

  function CaseDescription(c: Case): string
  {
    match c
    case Capitalize => "capitalize-each-word"
    case Lowercase => "lowercase"
    case Toggle => "toggle-case"
    case Uppercase => "uppercase"
  }

  /** The FONT symbols, in declaration order. */
  datatype Font =
    | AllSmallCaps | CircledBlack | Circled | DoubleStruck | FrakturBold | Fullwidth
    | Monospace | SansSerifBoldItalic | SansSerifBold | SansSerifItalic | SansSerif
    | ScriptBold | ScriptFraktur | Script | SerifBoldItalic | SerifBold | SerifItalic
    | SmallCaps | SquaredBlack | Squared | Superscript | Unicase

  const Fonts: seq<Font> := [
    AllSmallCaps, CircledBlack, Circled, DoubleStruck, FrakturBold, Fullwidth,
    Monospace, SansSerifBoldItalic, SansSerifBold, SansSerifItalic, SansSerif,
    ScriptBold, ScriptFraktur, Script, SerifBoldItalic, SerifBold, SerifItalic,
    SmallCaps, SquaredBlack, Squared, Superscript, Unicase]

  function FontDescription(f: Font): string
  {
    match f
    case AllSmallCaps => "all-small-caps"
    case CircledBlack => "circledBlack"
    case Circled => "circled"
    case DoubleStruck => "double-struck"
    case FrakturBold => "fraktur-bold"
    case Fullwidth => "fullwidth"
    case Monospace => "monospace"
    case SansSerifBoldItalic => "sans-serif-bold-italic"
    case SansSerifBold => "sans-serif-bold"
    case SansSerifItalic => "sans-serif-italic"
    case SansSerif => "sans-serif"
    case ScriptBold => "script-bold"
    case ScriptFraktur => "script-fraktur"
    case Script => "script"
    case SerifBoldItalic => "serif-bold-italic"
    case SerifBold => "serif-bold"
    case SerifItalic => "serif-italic"
    case SmallCaps => "small-caps"
    case SquaredBlack => "squared-black"
    case Squared => "squared"
    case Superscript => "superscript"
    case Unicase => "unicase"
  }

  /** `Symbol(d).toString()`. */
  function SymbolString(d: string): string
  {
    "Symbol(" + d + ")"
  }

  /** `Object.fromEntries`: a later entry with the same key overrides an earlier one. */
  function FromEntries<V>(entries: seq<(string, V)>): map<string, V>
  {
    if |entries| == 0 then map[]
    else FromEntries(entries[..|entries| - 1])[entries[|entries| - 1].0 := entries[|entries| - 1].1]
  }

  /** The keys of `Object.fromEntries` are the keys of the entries. */
  lemma {:induction false} FromEntriesKeys<V>(entries: seq<(string, V)>)
    ensures forall k :: k in FromEntries(entries) <==> exists i :: 0 <= i < |entries| && entries[i].0 == k
    decreases |entries|
  {
    if |entries| > 0 {
      var front := entries[..|entries| - 1];
      FromEntriesKeys(front);
      var last := entries[|entries| - 1];
      assert FromEntries(entries).Keys == FromEntries(front).Keys + {last.0};
      forall k
        ensures k in FromEntries(entries) <==> exists i :: 0 <= i < |entries| && entries[i].0 == k
      {
        if k in FromEntries(front) {
          var i :| 0 <= i < |front| && front[i].0 == k;
          assert entries[i] == front[i];
        }
        if exists i :: 0 <= i < |entries| && entries[i].0 == k {
          var i :| 0 <= i < |entries| && entries[i].0 == k;
          if i < |front| {
            assert front[i] == entries[i];
          }
        }
      }
    }
  }

  /** With distinct keys, `Object.fromEntries` holds exactly the given pairs. */
  lemma {:induction false} FromEntriesDistinct<V>(entries: seq<(string, V)>)
    requires forall i, j :: 0 <= i < j < |entries| ==> entries[i].0 != entries[j].0
    ensures forall k :: k in FromEntries(entries) <==> exists i :: 0 <= i < |entries| && entries[i].0 == k
    ensures forall i :: 0 <= i < |entries| ==> FromEntries(entries)[entries[i].0] == entries[i].1
    ensures |FromEntries(entries)| == |entries|
    decreases |entries|
  {
    FromEntriesKeys(entries);
    if |entries| > 0 {
      var front := entries[..|entries| - 1];
      FromEntriesDistinct(front);
      var m := FromEntries(entries);
      var last := entries[|entries| - 1];
      assert m == FromEntries(front)[last.0 := last.1];
      forall i | 0 <= i < |front|
        ensures front[i].0 != last.0
      {
        assert front[i] == entries[i];
      }
      assert last.0 !in FromEntries(front);
      forall i | 0 <= i < |entries|
        ensures m[entries[i].0] == entries[i].1
      {
        if i < |entries| - 1 {
          assert entries[i] == front[i];
        }
      }
    }
  }

  /** `caseByString`: each CASE symbol keyed by its `toString()`. */
  function CaseByString(): map<string, Case>
  {
    FromEntries(seq(|Cases|, i requires 0 <= i < |Cases| => (SymbolString(CaseDescription(Cases[i])), Cases[i])))
  }

  /** `fontByString`: each FONT symbol keyed by its `toString()`. */
  function FontByString(): map<string, Font>
  {
    FromEntries(seq(|Fonts|, i requires 0 <= i < |Fonts| => (SymbolString(FontDescription(Fonts[i])), Fonts[i])))
  }

  lemma CasesListed(c: Case)
    ensures c in Cases
  {
  }

  /** Where a FONT symbol stands in the list of all of them. */
  function FontPosition(f: Font): (r: nat)
    ensures r < |Fonts| && Fonts[r] == f
  {
    match f
    case AllSmallCaps => 0
    case CircledBlack => 1
    case Circled => 2
    case DoubleStruck => 3
    case FrakturBold => 4
    case Fullwidth => 5
    case Monospace => 6
    case SansSerifBoldItalic => 7
    case SansSerifBold => 8
    case SansSerifItalic => 9
    case SansSerif => 10
    case ScriptBold => 11
    case ScriptFraktur => 12
    case Script => 13
    case SerifBoldItalic => 14
    case SerifBold => 15
    case SerifItalic => 16
    case SmallCaps => 17
    case SquaredBlack => 18
    case Squared => 19
    case Superscript => 20
    case Unicase => 21
  }

  lemma CaseDescriptionsDistinct()
    ensures forall i, j :: 0 <= i < j < |Cases| ==> CaseDescription(Cases[i]) != CaseDescription(Cases[j])
  {
  }

  lemma FontDescriptionsDistinct()
    ensures forall i, j :: 0 <= i < j < |Fonts| ==> FontDescription(Fonts[i]) != FontDescription(Fonts[j])
  {
  }

  /** `caseByString` inverts `toString()` on the four CASE symbols: every
      symbol is found under its own string, and nothing else is a key. */
  lemma CaseByStringInverts()
    ensures forall c: Case :: SymbolString(CaseDescription(c)) in CaseByString()
                               && CaseByString()[SymbolString(CaseDescription(c))] == c
    ensures forall s :: s in CaseByString() ==> SymbolString(CaseDescription(CaseByString()[s])) == s
    ensures |CaseByString()| == 4
  {
    var entries := seq(|Cases|, i requires 0 <= i < |Cases| => (SymbolString(CaseDescription(Cases[i])), Cases[i]));
    CaseDescriptionsDistinct();
    assert forall i, j :: 0 <= i < j < |entries| ==> entries[i].0 != entries[j].0 by {
      forall i, j | 0 <= i < j < |entries|
        ensures entries[i].0 != entries[j].0
      {
        if entries[i].0 == entries[j].0 {
          SymbolStringInjective(CaseDescription(Cases[i]), CaseDescription(Cases[j]));
        }
      }
    }
    FromEntriesDistinct(entries);
    var m := CaseByString();
    forall c: Case
      ensures SymbolString(CaseDescription(c)) in m && m[SymbolString(CaseDescription(c))] == c
    {
      CasesListed(c);
      var i := FirstIndex(Cases, c);
      assert entries[i].0 == SymbolString(CaseDescription(c));
    }
  }

  lemma FontEntryKeysDistinct(entries: seq<(string, Font)>)
    requires entries == seq(|Fonts|, i requires 0 <= i < |Fonts| => (SymbolString(FontDescription(Fonts[i])), Fonts[i]))
    ensures forall i, j :: 0 <= i < j < |entries| ==> entries[i].0 != entries[j].0
  {
    FontDescriptionsDistinct();
    forall i, j | 0 <= i < j < |entries|
      ensures entries[i].0 != entries[j].0
    {
      if entries[i].0 == entries[j].0 {
        SymbolStringInjective(FontDescription(Fonts[i]), FontDescription(Fonts[j]));
      }
    }
  }

  /** `fontByString` inverts `toString()` on the 22 FONT symbols. */
  lemma FontByStringInverts()
    ensures forall f: Font :: SymbolString(FontDescription(f)) in FontByString()
                               && FontByString()[SymbolString(FontDescription(f))] == f
    ensures forall s :: s in FontByString() ==> SymbolString(FontDescription(FontByString()[s])) == s
  {
    forall f: Font
      ensures SymbolString(FontDescription(f)) in FontByString() && FontByString()[SymbolString(FontDescription(f))] == f
    {
      FontFoundByString(f);
    }
    forall s | s in FontByString()
      ensures SymbolString(FontDescription(FontByString()[s])) == s
    {
      FontStringKey(s);
    }
  }

  lemma FontFoundByString(f: Font)
    ensures SymbolString(FontDescription(f)) in FontByString() && FontByString()[SymbolString(FontDescription(f))] == f
  {
    var entries := seq(|Fonts|, i requires 0 <= i < |Fonts| => (SymbolString(FontDescription(Fonts[i])), Fonts[i]));
    FontEntryKeysDistinct(entries);
    FromEntriesDistinct(entries);
    var i := FontPosition(f);
    assert entries[i] == (SymbolString(FontDescription(f)), f);
  }

  lemma FontStringKey(s: string)
    requires s in FontByString()
    ensures SymbolString(FontDescription(FontByString()[s])) == s
  {
    var entries := seq(|Fonts|, i requires 0 <= i < |Fonts| => (SymbolString(FontDescription(Fonts[i])), Fonts[i]));
    FontEntryKeysDistinct(entries);
    FromEntriesDistinct(entries);
    var i :| 0 <= i < |entries| && entries[i].0 == s;
    assert FontByString()[s] == Fonts[i];
  }

  lemma SymbolStringInjective(a: string, b: string)
    requires SymbolString(a) == SymbolString(b)
    ensures a == b
  {
    assert a == SymbolString(a)[7..|SymbolString(a)| - 1];
    assert b == SymbolString(b)[7..|SymbolString(b)| - 1];
  }

  /** An entry of the context menu: a separator or one of the symbols. */
  datatype MenuEntry = Separator | CaseEntry(c: Case) | FontEntry(f: Font)

  /** `contextMenuList`. */
  const ContextMenuList: seq<MenuEntry> := [
    CaseEntry(Lowercase), CaseEntry(Uppercase), CaseEntry(Capitalize), CaseEntry(Toggle),
    Separator,
    FontEntry(Superscript), FontEntry(SmallCaps), FontEntry(AllSmallCaps), FontEntry(Unicase),
    Separator,
    FontEntry(SerifBold), FontEntry(SerifItalic), FontEntry(SerifBoldItalic), FontEntry(SansSerif),
    FontEntry(SansSerifBold), FontEntry(SansSerifItalic), FontEntry(SansSerifBoldItalic),
    FontEntry(Script), FontEntry(ScriptBold), FontEntry(ScriptFraktur), FontEntry(FrakturBold),
    FontEntry(Monospace), FontEntry(DoubleStruck),
    Separator,
    FontEntry(Circled), FontEntry(CircledBlack), FontEntry(Squared), FontEntry(SquaredBlack),
    FontEntry(Fullwidth)]

  /** `menuTranslation`: the message key of each symbol's menu title. */
  const MenuTranslation: map<MenuEntry, string> := map[
    CaseEntry(Lowercase) := "menuCaseLowercase",
    CaseEntry(Uppercase) := "menuCaseUppercase",
    CaseEntry(Capitalize) := "menuCaseCapitalizeEachWord",
    CaseEntry(Toggle) := "menuCaseToggleCase",
    FontEntry(Superscript) := "menuFontSuperscript",
    FontEntry(SmallCaps) := "menuFontSmallCaps",
    FontEntry(AllSmallCaps) := "menuFontAllSmallCaps",
    FontEntry(Unicase) := "menuFontUnicase",
    FontEntry(SerifBold) := "menuFontSerifBold",
    FontEntry(SerifItalic) := "menuFontSerifItalic",
    FontEntry(SerifBoldItalic) := "menuFontSerifBoldItalic",
    FontEntry(SansSerif) := "menuFontSansSerif",
    FontEntry(SansSerifBold) := "menuFontSansSerifBold",
    FontEntry(SansSerifItalic) := "menuFontSansSerifItalic",
    FontEntry(SansSerifBoldItalic) := "menuFontSansSerifBoldItalic",
    FontEntry(Script) := "menuFontScript",
    FontEntry(ScriptBold) := "menuFontScriptBold",
    FontEntry(ScriptFraktur) := "menuFontScriptFraktur",
    FontEntry(FrakturBold) := "menuFontFrakturBold",
    FontEntry(Monospace) := "menuFontMonospace",
    FontEntry(DoubleStruck) := "menuFontDoubleStruck",
    FontEntry(Circled) := "menuFontCircled",
    FontEntry(CircledBlack) := "menuFontCircledBlack",
    FontEntry(Squared) := "menuFontSquared",
    FontEntry(SquaredBlack) := "menuFontSquaredBlack",
    FontEntry(Fullwidth) := "menuFontFullwidth"]

  /** Every entry of the menu but the separators has a translation key, and
      the separators have none. */
  lemma ContextMenuTranslated()
    ensures forall i :: 0 <= i < |ContextMenuList| ==>
              (ContextMenuList[i] in MenuTranslation <==> !ContextMenuList[i].Separator?)
    ensures forall e :: e in MenuTranslation ==> e in ContextMenuList
  {
  }

  /** The menu holds exactly three separators, at positions 4, 9 and 23. */
  lemma ContextMenuSeparators()
    ensures forall i :: 0 <= i < |ContextMenuList| ==>
              (ContextMenuList[i].Separator? <==> i == 4 || i == 9 || i == 23)
  {
  }

  /** No symbol is in the menu twice. */
  lemma ContextMenuHasNoDuplicates()
    ensures forall i, j :: 0 <= i < j < |ContextMenuList| && !ContextMenuList[i].Separator? ==>
              ContextMenuList[i] != ContextMenuList[j]
  {
  }

  /** Every CASE and FONT symbol has a translation key, so by
      `ContextMenuTranslated` every symbol is in the menu. */
  lemma EverySymbolTranslated()
    ensures forall c: Case :: CaseEntry(c) in MenuTranslation
    ensures forall f: Font :: FontEntry(f) in MenuTranslation
  {
    forall c: Case
      ensures CaseEntry(c) in MenuTranslation
    {
      match c
      case Capitalize =>
      case Lowercase =>
      case Toggle =>
      case Uppercase =>
    }
    forall f: Font
      ensures FontEntry(f) in MenuTranslation
    {
      match f
      case AllSmallCaps => case CircledBlack => case Circled => case DoubleStruck =>
      case FrakturBold => case Fullwidth => case Monospace => case SansSerifBoldItalic =>
      case SansSerifBold => case SansSerifItalic => case SansSerif => case ScriptBold =>
      case ScriptFraktur => case Script => case SerifBoldItalic => case SerifBold =>
      case SerifItalic => case SmallCaps => case SquaredBlack => case Squared =>
      case Superscript => case Unicase =>
    }
  }

  /** The small-capital letters ᴀ ʙ ᴄ ᴅ ᴇ ꜰ ɢ ʜ ɪ ᴊ ᴋ ʟ ᴍ ɴ ᴏ ᴘ ꞯ ʀ ꜱ ᴛ ᴜ ᴠ ᴡ x ʏ ᴢ. */
  const SmallCapsLetters: seq<Unit> := [
    0x1D00, 0x0299, 0x1D04, 0x1D05, 0x1D07, 0xA730, 0x0262, 0x029C, 0x026A, 0x1D0A,
    0x1D0B, 0x029F, 0x1D0D, 0x0274, 0x1D0F, 0x1D18, 0xA7AF, 0x0280, 0xA731, 0x1D1B,
    0x1D1C, 0x1D20, 0x1D21, 0x0078, 0x028F, 0x1D22]

  lemma SmallCapsLettersInBmp()
    ensures forall i :: 0 <= i < |SmallCapsLetters| ==> SmallCapsLetters[i] < 0xD800
  {
  }

  lemma SmallCapsLettersDecode()
    ensures Decode(SmallCapsLetters) == SmallCapsLetters
  {
    SmallCapsLettersInBmp();
    DecodeBelowSurrogates(SmallCapsLetters);
  }

  const AsciiCapitals: seq<Unit> := seq(26, i requires 0 <= i < 26 => 0x41 + i)
  const AsciiSmall: seq<Unit> := seq(26, i requires 0 <= i < 26 => 0x61 + i)

  /** The keys of `fonts` whose value is a literal glyph string. */
  const LiteralFontKeys: seq<string> := [
    "serif-bold", "serif-italic", "serif-bold-italic", "sans-serif", "sans-serif-bold",
    "sans-serif-italic", "sans-serif-bold-italic", "script", "script-bold", "fraktur",
    "fraktur-bold", "monospace", "double-struck", "circled", "circled-(black)", "squared",
    "squared-(black)", "fullwidth", "superscript"]

  const FontKeys: set<string> := (set k | k in LiteralFontKeys) + {"small-caps", "all-small-caps", "unicase"}

  /** `fonts`, given the literal glyph strings. */
  function FontsObject(glyphs: string -> seq<Unit>): map<string, seq<Unit>>
  {
    (map k | k in LiteralFontKeys :: glyphs(k))
    + map["small-caps" := AsciiCapitals + SmallCapsLetters,
          "all-small-caps" := SmallCapsLetters,
          "unicase" := SmallCapsLetters + AsciiSmall]
  }

  lemma FontsObjectKeys(glyphs: string -> seq<Unit>)
    ensures FontsObject(glyphs).Keys == FontKeys
  {
  }

  /** `small-caps` is A-Z followed by the 26 small capitals; it holds no
      surrogate, so it has 52 code units and 52 code points. */
  lemma SmallCapsTable(glyphs: string -> seq<Unit>)
    ensures "small-caps" in FontsObject(glyphs)
    ensures var t := FontsObject(glyphs)["small-caps"];
      |t| == 52 && Decode(t) == t && t[..26] == AsciiCapitals && t[26..] == SmallCapsLetters
  {
    var t := FontsObject(glyphs)["small-caps"];
    assert t == AsciiCapitals + SmallCapsLetters;
    SmallCapsLettersInBmp();
    forall i | 0 <= i < |t|
      ensures t[i] < 0xD800
    {
      if i < 26 {
        assert t[i] == AsciiCapitals[i];
      } else {
        assert t[i] == SmallCapsLetters[i - 26];
      }
    }
    DecodeBelowSurrogates(t);
  }

  /** `all-small-caps` is exactly the 26 small capitals. */
  lemma AllSmallCapsTable(glyphs: string -> seq<Unit>)
    ensures "all-small-caps" in FontsObject(glyphs)
    ensures var t := FontsObject(glyphs)["all-small-caps"];
      |t| == 26 && Decode(t) == t && t == SmallCapsLetters
  {
    var t := FontsObject(glyphs)["all-small-caps"];
    assert t == SmallCapsLetters;
    SmallCapsLettersDecode();
  }

  /** `unicase` is the 26 small capitals followed by a-z. */
  lemma UnicaseTable(glyphs: string -> seq<Unit>)
    ensures "unicase" in FontsObject(glyphs)
    ensures var t := FontsObject(glyphs)["unicase"];
      |t| == 52 && Decode(t) == t && t[..26] == SmallCapsLetters && t[26..] == AsciiSmall
  {
    var t := FontsObject(glyphs)["unicase"];
    assert t == SmallCapsLetters + AsciiSmall;
    SmallCapsLettersInBmp();
    forall i | 0 <= i < |t|
      ensures t[i] < 0xD800
    {
      if i < 26 {
        assert t[i] == SmallCapsLetters[i];
      }
    }
    DecodeBelowSurrogates(t);
  }

  /** The keys of the `fonts` object are strings, so `fontMap`, built from
      `Object.getOwnPropertySymbols(fonts)`, has no entries. */
  datatype PropertyKey = StringKey(name: string) | SymbolKey(id: nat)

  function OwnPropertySymbols(keys: set<PropertyKey>): set<PropertyKey>
  {
    set k | k in keys && k.SymbolKey?
  }

  function FontMap(glyphs: string -> seq<Unit>): (m: map<PropertyKey, seq<CodePoint>>)
    ensures m == map[]
  {
    var fonts := FontsObject(glyphs);
    var keys := set name | name in fonts :: StringKey(name);
    map k | k in OwnPropertySymbols(keys) :: PropertyValue(fonts, k)
  }

  /** `Array.from(fonts[k])` for a key of the object. */
  function PropertyValue(fonts: map<string, seq<Unit>>, k: PropertyKey): seq<CodePoint>
  {
    if k.StringKey? && k.name in fonts then Decode(fonts[k.name]) else []
  }

  /** A description none of whose length-and-first-letter pairs occurs
      among the literal keys, and that is none of the three computed keys,
      is not a key of `fonts`. */
  lemma NotAFontKey(d: string)
    requires |d| > 0
    requires forall i :: 0 <= i < |LiteralFontKeys| ==> |LiteralFontKeys[i]| != |d| || LiteralFontKeys[i][0] != d[0]
    requires d != "small-caps" && d != "all-small-caps" && d != "unicase"
    ensures d !in FontKeys
  {
  }

  /** Every other FONT description is a key of `fonts`. */
  lemma DescriptionIsTableKey(f: Font)
    requires f !in {CircledBlack, ScriptFraktur, SquaredBlack}
    ensures FontDescription(f) in FontKeys
  {
    match f
    case AllSmallCaps =>
    case CircledBlack => assert false;
    case Circled => assert LiteralFontKeys[13] == "circled";
    case DoubleStruck => assert LiteralFontKeys[12] == "double-struck";
    case FrakturBold => assert LiteralFontKeys[10] == "fraktur-bold";
    case Fullwidth => assert LiteralFontKeys[17] == "fullwidth";
    case Monospace => assert LiteralFontKeys[11] == "monospace";
    case SansSerifBoldItalic => assert LiteralFontKeys[6] == "sans-serif-bold-italic";
    case SansSerifBold => assert LiteralFontKeys[4] == "sans-serif-bold";
    case SansSerifItalic => assert LiteralFontKeys[5] == "sans-serif-italic";
    case SansSerif => assert LiteralFontKeys[3] == "sans-serif";
    case ScriptBold => assert LiteralFontKeys[8] == "script-bold";
    case ScriptFraktur => assert false;
    case Script => assert LiteralFontKeys[7] == "script";
    case SerifBoldItalic => assert LiteralFontKeys[2] == "serif-bold-italic";
    case SerifBold => assert LiteralFontKeys[0] == "serif-bold";
    case SerifItalic => assert LiteralFontKeys[1] == "serif-italic";
    case SmallCaps =>
    case SquaredBlack => assert false;
    case Squared => assert LiteralFontKeys[15] == "squared";
    case Superscript => assert LiteralFontKeys[18] == "superscript";
    case Unicase =>
  }

  lemma OddDescriptionIsNotKey(f: Font)
    requires f in {CircledBlack, ScriptFraktur, SquaredBlack}
    ensures FontDescription(f) !in FontKeys
  {
    if f == CircledBlack {
      NotAFontKey("circledBlack");
    } else if f == ScriptFraktur {
      NotAFontKey("script-fraktur");
    } else {
      NotAFontKey("squared-black");
    }
  }

  /** Three FONT descriptions are not keys of `fonts`: the table spells them
      `circled-(black)`, `fraktur` and `squared-(black)`. */
  lemma FontDescriptionsVersusTableKeys(f: Font)
    ensures FontDescription(f) in FontKeys <==> f !in {CircledBlack, ScriptFraktur, SquaredBlack}
  {
    if f in {CircledBlack, ScriptFraktur, SquaredBlack} {
      OddDescriptionIsNotKey(f);
    } else {
      DescriptionIsTableKey(f);
    }
  }
}

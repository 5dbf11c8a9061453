# Unicodify in Dafny

This is a Dafny model of the core of Unicodify, a browser extension that
rewrites text as it is typed or selected. The model covers three parts.

* **Text transformation.** A context-menu click changes the case of a
  selection (lowercase, uppercase, capitalize each word, toggle case) or
  rewrites its ASCII characters in a Unicode "font" (bold, script,
  fraktur, circled, …). This appears twice: in the current
  `UnicodeTransformationHandler.js` and in the older `UnicodeFontHandler.js`,
  together with the `Fonts.js` data.
  * Modules: `Transformation`, `FontHandler`, `Fonts`, `Glyphs`, `Casing`.
* **Autocorrect compilation.** The background script turns the settings
  and the symbol dictionary into three things:
  * the dictionary itself;
  * the length of its longest key;
  * two end-anchored regular expressions: one matching any key, and one
    matching the "antipatterns", which are prefixes of keys that must not
    fire early.
  * Modules: `Compiler`, `Matcher`.
* **The keystroke decision with one-level undo.** On every typed
  character the content script decides among four outcomes:
  * a smart quote;
  * a symbol substitution;
  * a fraction or number conversion;
  * nothing.

  It then applies the edit and remembers it, so that an immediate
  backspace restores what was typed.
  * Modules: `Autocorrect`, `Numerals`.

## How JavaScript is modelled

* **Strings.** Strings are sequences of UTF-16 code units (`Utf16.Unit`).
  `for … of` iterates by code point, which `Utf16.Decode` models: a lone
  surrogate passes through as its own code point. `JsString` holds
  `slice`, `indexOf`, `startsWith` and the `\s` white-space class.
* **Regular expressions.** There is no regular-expression engine. The
  compiler's `(k1|…|kn)$` source is read back into its literal
  alternatives (`Matcher.ParseSource`), and `exec` is defined on that list
  as the leftmost start from which the rest of the string is one of them.
  In `u` mode the search never starts inside a surrogate pair.
* **Fraction and number regular expressions.** Their lookbehinds are
  modelled explicitly in `Numerals`.
* **The handlers.** They are pure functions from state and event to new
  state and reaction:
  * `Autocorrect.OnInput` for `autocorrect`;
  * `Autocorrect.OnBackspace` for `undoAutocorrect`.

  The DOM edit is `Autocorrect.ApplyReplace`, which deletes `deletecount`
  units before the caret and inserts the new text there.
* **Source bugs.** Where the source has one, the model keeps both
  behaviours: a `Variant` (`AsWritten` or `Corrected`) or two functions
  (`…AsWritten` and the corrected one). See "## Findings".

## Model

| member | source | states |
|---|---|---|
| Transformation.GetTransformationType | src/common/modules/UnicodeTransformationHandler.js:37-45 | An id with the case prefix is a casing id. Otherwise one with the font prefix is a font id. Any other id is an error; it is an error exactly when it has neither prefix. |
| Transformation.TransformText | src/common/modules/UnicodeTransformationHandler.js:12-21 | A casing id succeeds exactly when it names one of the four case changes. It then applies that change; an unlisted casing id fails because it is not a function. A font id runs the font change as written, DEL included. Any other id is an error. |
| Transformation.CaseTableEntries | src/common/modules/UnicodeTransformationHandler.js:134-139 | The case table has exactly four ids, all carrying the case prefix, mapped to lowercase, uppercase, capitalize and toggle. |
| Transformation.CaseIdsReachTheirChange | src/common/modules/UnicodeTransformationHandler.js:134-139 | Each of the four casing ids runs its change. Capitalize-each-word lower-cases the text first. |
| Transformation.FontIdsNeedTables | src/common/modules/UnicodeTransformationHandler.js:70-74 | A font id succeeds exactly when the font table has that font; otherwise the transformation throws. |
| Transformation.FontIdsFollowCorrectedWithoutDel | src/common/modules/UnicodeTransformationHandler.js:12-21 | A font id changes a text without DEL exactly as the corrected font change does. DEL with a 94-entry table becomes "undefined". |
| Transformation.ChangeFont | src/common/modules/UnicodeTransformationHandler.js:70-74 | The font change fails, with the unknown-font error, exactly when the font is missing. |
| Transformation.ChangeFontAsWritten | src/common/modules/UnicodeTransformationHandler.js:70-74 | The font change as written, whose range test admits DEL, also fails with the unknown-font error exactly when the font is missing. |
| Transformation.ChangeFontFollowsLayout | src/common/modules/UnicodeTransformationHandler.js:77-99 | The corrected font change replaces each code point by its entry in the font layout, an independent description of how the 94, 26, 36, 52 and 62-letter tables are laid out. |
| Transformation.ChangeFontKeepsOtherText | src/common/modules/UnicodeTransformationHandler.js:77-99 | Text without printable ASCII comes back unchanged. |
| Transformation.ChangeFontDelReadsPastTable | src/common/modules/UnicodeTransformationHandler.js:79-81 | As written, DEL (code 127) with a 94-entry table reads one past the table and yields "undefined". The corrected change keeps DEL. |
| Transformation.ChangeFontAgreesWithoutDel | src/common/modules/UnicodeTransformationHandler.js:79-81 | On any text without DEL the as-written and corrected font changes agree. |
| Transformation.ToggleCaseKeepsCaseless | src/common/modules/UnicodeTransformationHandler.js:110-126 | Toggling case leaves text whose code points change under neither case mapping untouched. |
| Transformation.ToggleAsciiSwapsLetters | src/common/modules/UnicodeTransformationHandler.js:110-126 | With ASCII case data, toggle case swaps the case of every letter, position by position, and keeps the length. |
| Transformation.ToggleAsciiTwice | src/common/modules/UnicodeTransformationHandler.js:110-126 | With ASCII case data, toggling twice gives back the original text. |
| Transformation.CapitalizeEachWordFollowsReference | src/common/modules/UnicodeTransformationHandler.js:53-58 | The left-to-right replace loop upper-cases exactly one code point per run of non-white-space characters: the first alphabetic one, if any. Everything else is kept, so "a1b" gives "A1b" and "1a" gives "1A". The loop equals that per-position reference definition. |
| Glyphs.DispatchFollowsLayout | src/common/modules/UnicodeTransformationHandler.js:79-96 | The branch cascade on table length and character class picks the same glyph as the reference layout (blocks of letters and digits per table size). Below 127 it yields "keep" exactly where the layout has no slot. |
| Glyphs.DelIsTheOnlyDifference | src/common/modules/UnicodeTransformationHandler.js:79-81 | The cascade bounded by 127 differs from the one bounded by 126 only for DEL with a 94-entry table, where it reads a missing entry. |
| Utf16.EncodeDecode | src/common/modules/UnicodeTransformationHandler.js:77-98 | Iterating a string by code point and concatenating the pieces gives back the string, lone surrogates included. |
| Utf16.DecodeEncode | src/common/modules/UnicodeTransformationHandler.js:77-98 | Decoding the encoding of well-formed code points returns them. |
| FontHandler.ChangeFont | src/common/modules/UnicodeFontHandler.js:21-49 | The older font change throws only when the font is missing and the text contains a character in 33..127. With a missing font and no such character it returns the text unchanged. |
| FontHandler.BmpTablesAgree | src/common/modules/UnicodeFontHandler.js:21-49 | For a table without surrogates, indexing the glyph string by code unit is the same as the newer handler's code-point font change. |
| FontHandler.AstralTableBreaksLetters | src/common/modules/UnicodeFontHandler.js:21-49 | An astral 62-letter font is 124 units long, so the older handler maps "A" to a lone high surrogate and leaves "a" alone. The per-code-point change maps both letters. |
| FontHandler.ToggleLetterVersusProperties | src/common/modules/UnicodeFontHandler.js:68-82 | Toggling by comparing upper- and lower-cased forms differs from the property-based toggle exactly on code points that change under both mappings; the comparison keeps those. |
| FontHandler.ToggleCasesAgree | src/common/modules/UnicodeFontHandler.js:68-82 | On text without such code points the older and newer toggle case agree. |
| FontHandler.CaseByMenuIdEntries | src/common/modules/UnicodeFontHandler.js:91-96 | The case table of the older handler has exactly the four menu ids and maps each to its change. |
| FontHandler.MenuId | src/common/modules/UnicodeFontHandler.js:167 | A menu id keeps the label's length and has no spaces or capitals. |
| FontHandler.MenuIdIdempotent | src/common/modules/UnicodeFontHandler.js:194 | Deriving an id from an id changes nothing. |
| FontHandler.CaseLabelsYieldCaseKeys | src/common/modules/UnicodeFontHandler.js:165-171 | Every case label yields an id the case table knows, so the menu title call never fails. |
| FontHandler.FontLabelsYieldSwitchIds | src/common/modules/UnicodeFontHandler.js:185-201 | Positions 4 and 18 of the font labels are the two separators. Every other label yields, in order, the id the click handler's switch lists. |
| FontHandler.SwitchFontIdsAreFontKeys | src/common/modules/UnicodeFontHandler.js:119-140 | Every font id the click handler's switch accepts is a key of the fonts table. |
| FontHandler.FontLabelsYieldFontKeys | src/common/modules/UnicodeFontHandler.js:194-198 | Every font label yields a key of the fonts table, so the menu title call finds a font. |
| FontHandler.HandleOutcome | src/common/modules/UnicodeFontHandler.js:105-145 | A click computes a text exactly when there is a selection, and the table lookups never fail, because every id the switch lists has a table. An id neither table lists gives the empty string. |
| FontHandler.QuoteBreaksInjection | src/common/modules/UnicodeFontHandler.js:146-149 | As written, a selected `"` gives the script `insertIntoPage(""");`, which is not one call with one string literal. The escaped script passes the quote. |
| FontHandler.InjectedCodeAsWrittenForPlainText | src/common/modules/UnicodeFontHandler.js:146-149 | For output without quotes, backslashes and line breaks, the script as written equals the escaped one, and its argument reads back as exactly the output. |
| FontHandler.InjectedCodeReadsBack | src/common/modules/UnicodeFontHandler.js:146-149 | Corrected: with the output escaped as a string literal, the script is one `insertIntoPage` call whose argument reads back as exactly the output, for every output. |
| FontHandler.ReadEscaped | src/common/modules/UnicodeFontHandler.js:147 | An escaped string literal reads back as the text it escapes, and reading stops at its closing quote. |
| Fonts.CaseByStringInverts | src/common/modules/data/Fonts.js:39-43 | `caseByString` maps each case's description string back to that case, has four entries, and every key is the description of its value. |
| Fonts.FontByStringInverts | src/common/modules/data/Fonts.js:86-90 | `fontByString` maps each font's description string back to that font, and every key is the description of its value. |
| Fonts.SymbolStringInjective | src/common/modules/data/Fonts.js:39-43 | Distinct descriptions give distinct `Symbol(…)` strings. |
| Fonts.ContextMenuTranslated | src/common/modules/data/Fonts.js:101-167 | Every non-separator entry of the menu list has a translation, and every translated entry appears in the menu list. |
| Fonts.ContextMenuSeparators | src/common/modules/data/Fonts.js:101-131 | The menu list has separators at positions 4, 9 and 23 and nowhere else. |
| Fonts.ContextMenuHasNoDuplicates | src/common/modules/data/Fonts.js:101-131 | No case or font appears twice in the menu list. |
| Fonts.EverySymbolTranslated | src/common/modules/data/Fonts.js:140-167 | Every case and every font has a translation key. |
| Fonts.FontsObjectKeys | src/common/modules/data/Fonts.js:177-201 | The fonts object has exactly the 22 listed font names as keys. |
| Fonts.SmallCapsTable | src/common/modules/data/Fonts.js:198 | The small-caps font is 52 BMP units: the ASCII capitals, then the 26 small capitals. |
| Fonts.AllSmallCapsTable | src/common/modules/data/Fonts.js:199 | The all-small-caps font is exactly the 26 small capitals, all in the BMP. |
| Fonts.UnicaseTable | src/common/modules/data/Fonts.js:200 | The unicase font is 52 BMP units: the small capitals, then the ASCII lowercase letters. |
| Fonts.FontMap | src/common/modules/data/Fonts.js:213-218 | `fontMap` is empty: the fonts object has string keys only, and it is built from the object's own symbol keys. |
| Fonts.FontDescriptionsVersusTableKeys | src/common/modules/data/Fonts.js:52-75 | A FONT description is a key of the fonts table except for circledBlack, script-fraktur and squared-black, which the table spells differently. |
| Compiler.Lookup | src/content_scripts/autocorrect.js:314 | A dictionary lookup succeeds exactly for a key of the table and returns that key's own entry. |
| Compiler.Dictionary | src/background/modules/AutocorrectHandler.js:35-40 | Looking a key up in the autocorrections finds the symbol table's entry when symbols are enabled, and nothing otherwise. |
| Compiler.Longest | src/background/modules/AutocorrectHandler.js:42-49 | `longest` bounds every key's length and is attained by some key; it is 0 for an empty dictionary. |
| Compiler.Scan | src/background/modules/AutocorrectHandler.js:59-77 | The inner loop finds the earliest index at which another key occurs in x, and the longest such key at that index. It reports (|x|, 0) only when no other key occurs. |
| Compiler.ChosenIsScanned | src/background/modules/AutocorrectHandler.js:59-77 | Any key that occurs earliest in x, and is longest there, has exactly the index and length the loop reports. |
| Compiler.ScannedIsChosen | src/background/modules/AutocorrectHandler.js:59-77 | Whatever the loop reports is the position and length of such an earliest-longest key. |
| Compiler.AntipatternOfChosen | src/background/modules/AutocorrectHandler.js:78-83 | A key yields an antipattern exactly when another key occurs inside it leaving more than one unit after it. The antipattern is the key cut one unit past that inner key. |
| Compiler.AntipatternOf | src/background/modules/AutocorrectHandler.js:78-83 | What the outer loop pushes for a key is the key cut one unit past the earliest-longest inner key, and only when more than one unit follows that inner key. |
| JsString.IndexOf | src/background/modules/AutocorrectHandler.js:67 | `indexOf` is -1 exactly when the key occurs nowhere in x. Otherwise it is the first position where it occurs. |
| Compiler.AntipatternsOfKeys | src/background/modules/AutocorrectHandler.js:58-84 | The collected antipatterns are exactly the antipatterns of the individual keys. |
| Compiler.Dedup | src/background/modules/AutocorrectHandler.js:85 | The filter keeps each element once, at its first position, and loses none. |
| Compiler.KeptInFirstOccurrenceOrder | src/background/modules/AutocorrectHandler.js:85 | The kept elements are in the order of their first occurrences in the list. |
| Compiler.DedupIdempotent | src/background/modules/AutocorrectHandler.js:85 | Removing duplicates from a list without duplicates, or twice, changes nothing. |
| Compiler.ApplySettingsAsWrittenObserved | src/background/modules/AutocorrectHandler.js:34-92 | As written, compilation keeps the dictionary and sets `longest` to the length of a longest key (0 for none). Its expressions' `exec` reports the longest key or antipattern ending a text. For an empty list they give an empty match at the end of every text. So with symbols off the key expression matches everything. |
| Compiler.ApplySettingsObserved | src/background/modules/AutocorrectHandler.js:34-92 | Corrected: the same, except that the expression of an empty list matches nothing, so with symbols off the key expression never matches. |
| Compiler.SymbolPatternFindsLongestKey | src/background/modules/AutocorrectHandler.js:88-91 | With the corrected compiler, the key expression finds nothing exactly when no key ends the text. Otherwise it reports the longest key that ends the text, at the position where that key starts, and the key is in the dictionary. With symbols off it never matches. |
| Compiler.AsWrittenSymbolPattern | src/background/modules/AutocorrectHandler.js:88-91 | The as-written key expression gives an empty match at the end of every text when the dictionary is empty. Otherwise it finds exactly what the corrected one finds. |
| Compiler.LongestBoundsEveryKey | src/background/modules/AutocorrectHandler.js:42-49 | The compiled `longest` bounds every key of the compiled dictionary and is attained when non-zero. |
| Compiler.SetSettingsBackgroundObserved | src/background/modules/AutocorrectHandler.js:110-119 | The background handler stores the settings. When autocorrect is enabled, it stores the as-written compile of the new dictionary in `u` mode; with symbols off, that key expression matches every text. When autocorrect is disabled, the compiled state stays. |
| Compiler.SetSettingsCommonObserved | src/common/modules/AutocorrectHandler.js:114-120 | The shared handler stores the settings and always the as-written compile, without `u` mode. With symbols off, that key expression matches every text. |
| Compiler.RunBackgroundDisabled | src/background/modules/AutocorrectHandler.js:110-119 | A run of settings changes that are all disabled leaves the compiled state as it was. |
| Compiler.RunBackgroundKeepsLastEnabled | src/background/modules/AutocorrectHandler.js:110-119 | After a run of changes, the compiled state is the as-written compile of the last enabled change. |
| Compiler.RunCommonKeepsLast | src/common/modules/AutocorrectHandler.js:114-120 | After a run of changes, the shared handler's compiled state is the as-written compile of the last change. |
| Matcher.SourceReadsBack | src/background/modules/AutocorrectHandler.js:53-55 | Escaping makes each alternative literal: the source built from any non-empty list of keys reads back as exactly that list, whatever special characters the keys hold. |
| Matcher.EmptySourceReadsBack | src/background/modules/AutocorrectHandler.js:90-91 | An empty list gives the source `()$`, which is one empty alternative. |
| Matcher.EmptyListMatchesEverything | src/background/modules/AutocorrectHandler.js:90-91 | As written, the expression of an empty list matches every string with an empty match at its end. The corrected one matches nothing. |
| Matcher.ExecFindsLongestSuffix | src/background/modules/AutocorrectHandler.js:90-91 | The expression's leftmost match is the longest key that ends the string. It finds nothing exactly when no key ends the string. |
| Matcher.Exec | src/content_scripts/autocorrect.js:306 | A match of the compiled expression always runs from its index to the end of the text. |
| Matcher.ExecFrom | src/content_scripts/autocorrect.js:306 | The search reports the leftmost start at which an alternative takes the rest of the text, and never one inside a surrogate pair in `u` mode. It finds nothing exactly when no start matches. |
| Matcher.Compile | src/background/modules/AutocorrectHandler.js:90-91 | Corrected: the expression's `exec` reports the longest key ending any text, and nothing when no key does. For a non-empty list it is the as-written expression; for an empty one it matches nothing. |
| Matcher.CompileAsWritten | src/background/modules/AutocorrectHandler.js:90-91 | As written, for a non-empty list `exec` reports the longest key ending any text, and nothing when no key does. For an empty list it gives an empty match at the end of every text. |
| Matcher.AlternationFindsLongestSuffix | src/background/modules/AutocorrectHandler.js:90-91 | For a non-empty list, the leftmost match of the end-anchored alternation is the longest key ending the text, starting where that key starts. |
| Numerals.Find | src/content_scripts/autocorrect.js:322-324 | The literal found is the leftmost match. It is the whole rest of the text, one or more digits optionally followed by a separator and more digits, with no separator-digit run before it. It is missing exactly when nothing matches. |
| Numerals.FindTakesWholeLiteral | src/content_scripts/autocorrect.js:322 | The found literal is not preceded by a digit. |
| Numerals.DigitExtendsLiteral | src/content_scripts/autocorrect.js:325-327 | Typing a digit after a literal still leaves a literal at the end, so no conversion fires mid-number. |
| Numerals.OtherCharacterEndsLiteral | src/content_scripts/autocorrect.js:325-327 | After any non-digit the text no longer ends with a literal, so the conversion may fire. |
| Numerals.FindFractionGlyph | src/content_scripts/autocorrect.js:331 | The search finds a glyph exactly when the table has that numerator/denominator pair, and returns that entry's glyph. |
| Numerals.FractionLookupFindsEntry | src/content_scripts/autocorrect.js:3-22 | Each vulgar fraction is found by its own pair (the pairs are distinct). |
| Numerals.Decimal | src/content_scripts/autocorrect.js:337 | The decimal text of n is non-empty digits, with no leading zero, whose value is n. |
| Numerals.FractionLabel | src/content_scripts/autocorrect.js:331-338 | The label is the single vulgar-fraction glyph when the table has the pair. Otherwise it is numerator, fraction slash, denominator. It never contains "/". |
| Autocorrect.SmartQuote | src/content_scripts/autocorrect.js:294-304 | A typed ' or " becomes the opening quote exactly when the character before the caret is white space or absent, else the closing quote. |
| Autocorrect.TypedQuoteBecomesSmartQuote | src/content_scripts/autocorrect.js:294-304 | With quotes on and no symbol ending the window, a typed quote is replaced by its smart form without deleting anything. |
| Autocorrect.FirstDifferenceIndex | src/content_scripts/autocorrect.js:256-265 | The index is -1 exactly for equal strings. Otherwise both agree before it and it is the end of one of them or a position where they differ. |
| Autocorrect.FirstDifferenceIsLongest | src/content_scripts/autocorrect.js:256-265 | No common prefix is longer than the index. |
| Autocorrect.MinimalEdit | src/content_scripts/autocorrect.js:339-343 | There is no edit exactly when the label equals the literal; an edit never deletes more than the literal. |
| Autocorrect.MinimalEditRebuilds | src/content_scripts/autocorrect.js:339-343 | Deleting and inserting turns "text + literal" into "text + label + typed", and keeps the longest common prefix in place. |
| Autocorrect.MinimalEditReplacesAll | src/content_scripts/autocorrect.js:339-343 | When the first units differ, the whole literal is replaced by label and typed text. |
| Autocorrect.FractionEditNeedsFinishedLiteral | src/content_scripts/autocorrect.js:320-345 | A fraction edit happens only when the text before the caret ends with n/d, the typed text is not "/", and the text with it typed no longer ends with a fraction. The edit is then the minimal edit to its label. |
| Autocorrect.FinishedLiteralGetsFractionEdit | src/content_scripts/autocorrect.js:320-345 | Conversely, under those conditions the fraction edit is that minimal edit. |
| Autocorrect.FractionConversionRebuilds | src/content_scripts/autocorrect.js:318-347 | After a fraction edit, the text up to the caret reads as before, with n/d replaced by its label followed by the typed text. |
| Autocorrect.FractionEdit | src/content_scripts/autocorrect.js:320-347 | A fraction edit never deletes past the start of the text. |
| Autocorrect.NumberEdit | src/content_scripts/autocorrect.js:349-368 | A number edit never deletes past the start of the text. |
| Autocorrect.Decide | src/content_scripts/autocorrect.js:290-368 | No edit deletes past the start of the text, and with quotes on a typed quote always produces an edit. |
| Autocorrect.DecideBySymbol | src/content_scripts/autocorrect.js:305-317 | When a key ends the window, the decision is the symbol branch alone: no fraction or number conversion is tried. |
| Autocorrect.DecideByConversion | src/content_scripts/autocorrect.js:318-368 | Otherwise the fraction conversion wins when enabled and applicable, then the number conversion when enabled, else nothing. |
| Autocorrect.EarlierComparesStarts | src/content_scripts/autocorrect.js:309-312 | The corrected earlier-match test holds exactly when the window match starts before the look-ahead match, in absolute positions. |
| Autocorrect.AsWrittenOffByOne | src/content_scripts/autocorrect.js:309-312 | The as-written test differs from the corrected one exactly when the caret equals `longest` and the two relative indexes are equal. There it rejects a match that does start earlier. |
| Autocorrect.SymbolEditDeletesMatch | src/content_scripts/autocorrect.js:305-316 | A symbol edit deletes exactly the matched key, which lies just before the caret, and inserts its replacement followed by the typed text. |
| Autocorrect.SymbolSubstitutionReplacesKey | src/content_scripts/autocorrect.js:305-316 | For a compiled dictionary, a symbol substitution deletes the longest key ending the window, which is in the dictionary, and inserts that key's replacement followed by the typed text. |
| Autocorrect.ApplyReplace | src/content_scripts/autocorrect.js:370-379 | Replacing leaves the text before the deleted part and after the caret intact, with the inserted text in between and the caret after it. |
| Autocorrect.OnInput | src/content_scripts/autocorrect.js:273-389 | A handled input before the settings arrive is an error. Doing nothing leaves the state alone. A replacement happens only for a handled input, not re-entrant, with a caret. It records the target, the inserted text and the caret after the insertion. |
| Autocorrect.Commit | src/content_scripts/autocorrect.js:370-386 | A commit replaces with the decided edit and records the deleted text plus the typed text, the inserted text, the target and the new caret; settings are unchanged. |
| Autocorrect.OnBackspace | src/content_scripts/autocorrect.js:397-426 | Backspace undoes exactly when the target and caret are the ones recorded. The undo deletes the inserted text and restores the deleted text. Any handled backspace forgets the target. A non-backspace, a re-entrant event or one without a caret changes nothing and lets the event through. The recorded texts and caret, the settings and the compile never change. |
| Autocorrect.OnInputCommits | src/content_scripts/autocorrect.js:273-389 | Every replacement is the commit of the decided edit. |
| Autocorrect.ReplaceThenRestore | src/content_scripts/autocorrect.js:370-426 | Replacing and then undoing gives the text with only the typed character inserted. |
| Autocorrect.UndoRestoresTypedText | src/content_scripts/autocorrect.js:370-426 | After any autocorrection, an immediate backspace restores exactly what the user typed. A second backspace does nothing special. |
| Autocorrect.SentAsWritten | src/background/modules/AutocorrectHandler.js:127-148 | The settings message carries the enabled, quote and fraction flags and the compile, and no `numbers` field. |
| Autocorrect.SentCorrected | src/background/modules/AutocorrectHandler.js:127-148 | Corrected: the message also carries the number option. |
| Autocorrect.Receive | src/content_scripts/autocorrect.js:435-446 | Receiving takes the flags and the compile from the message; a missing `numbers` reads as false. The undo record and the running flag stay. |
| Autocorrect.NumbersNeverArrive | src/content_scripts/autocorrect.js:349 | As written, after any message from the background the number flag is off. So a typed text that no key, quote or fraction claims is let through, whatever the number branch would do. |
| Autocorrect.NumbersArriveCorrected | src/content_scripts/autocorrect.js:349 | With the corrected message and the number option on, the same typed text gets the number branch's edit. |
| Scenarios.FacesHaveNoAntipatterns | src/background/modules/AutocorrectHandler.js:58-85 | Neither key of the dictionary {"(c)": "©", ":)": "🙂"} occurs inside the other, so it has no antipatterns. |
| Scenarios.FacesCompile | src/background/modules/AutocorrectHandler.js:34-92 | That dictionary compiles to its two keys with longest 3, and the window before the caret in "Hello :)" is " :)". |
| Scenarios.EmptyAntipatternsBlockSubstitution | src/background/modules/AutocorrectHandler.js:91 | As written, typing a space after "Hello :)" substitutes nothing, because the empty antipattern expression matches everything. |
| Scenarios.CorrectedCompilerSubstitutes | src/background/modules/AutocorrectHandler.js:91 | With the corrected compiler, ":)" followed by a space becomes "🙂 ". |
| Scenarios.EmptyDictionaryBlocksFractions | src/background/modules/AutocorrectHandler.js:90 | As written, with symbols off, "1/2" followed by a space is never converted, because the empty key expression matches everything. |
| Scenarios.CorrectedCompilerConvertsFractions | src/background/modules/AutocorrectHandler.js:90 | With the corrected compiler and symbols switched off, whatever the dictionary, a finished fraction is always converted: the handler's decision is the fraction edit. |
| Scenarios.OneHalfConverts | src/content_scripts/autocorrect.js:320-345 | The fraction branch replaces all of "1/2" by "½" followed by the space. |
| Scenarios.OffByOneAtLongest | src/content_scripts/autocorrect.js:309-312 | The as-written compile of the keys "ab", "bc" and "abxy" has the antipattern "abx". With the text "zzab", the caret at 4 and "c" typed, the as-written test keeps "ab", although it starts before "bc". The corrected test replaces it by "A". |
| Scenarios.OverlappingAntipatterns | src/background/modules/AutocorrectHandler.js:58-85 | In the dictionary {"ab", "bc", "abxy"}, only "abxy" holds another key ("ab" at its start), so the only antipattern is "abx". |
| Scenarios.OverlappingMatches | src/content_scripts/autocorrect.js:305-311 | On that compile, "ab" ends "zzab" at 2, "bc" ends the look-ahead window "zabc" at 2, and the antipattern does not match there. |

## Left out

- The DOM: reading the caret and value of inputs and content-editable
  elements, `deleteCaret`, `insertAtCaret` and `insertIntoPage`. The caret
  and value are event fields, and the edit is `ApplyReplace`.
- `countChars` counts graphemes when deleting. The model deletes by code
  units, so it assumes the deleted text has as many graphemes as units.
- `outputLabel`, which formats numbers with fractions and the constants π
  and e using floating point, is a parameter of the number branch.
- The locale case data (`toLocaleUpperCase`, `toLocaleLowerCase`), the
  Unicode properties Changes_When_Uppercased, Changes_When_Lowercased and
  Alphabetic, and `normalize`. They are parameters; an ASCII instance is
  given.
- The message plumbing: the listeners, the Chrome regular-expression
  rebuild, and the tab query that sends settings to every tab. The message
  and `handleResponse` are modelled as `SentAsWritten` and `Receive`.
  Which listeners `enabled` attaches is not modelled.
- The script the context-menu click injects is modelled as text only,
  with a reader for the form `insertIntoPage("…");`. The reader covers the escapes `\"`, `\\`, `\n` and `\r`, and rejects any
  other.
- Concurrency: the `running` flag is a re-entrancy boolean.
- Number parsing beyond plain digit runs: `parseInt` precision and
  exponent notation.
- Null event data: typed data is a sequence, and an empty one stands for
  a missing one.
- `fontLetters`, `CASE_ID_PREFIX`, `FONT_ID_PREFIX`,
  `TRANSFORMATION_TYPE` and the Symbols.js table are not part of this
  model. They are parameters.
- The literal glyph strings of the fonts. They are a parameter; only the
  small-caps letters are concrete.
- The regular-expression engine. It is replaced by the
  literal-alternatives model, and a source that does not read back as
  literals matches nothing.
- Autocorrect.Decide: it states only the bound on deletion and the quote
  case. Each branch is characterised by DecideBySymbol, DecideByConversion
  and the lemmas about each branch.
- Autocorrect.FractionEdit, Autocorrect.NumberEdit: their own contracts
  state only the deletion bound. FractionEditNeedsFinishedLiteral,
  FinishedLiteralGetsFractionEdit and FractionConversionRebuilds
  characterise the fraction branch. The number branch shares the minimal
  edit (MinimalEditRebuilds) but has no rebuild lemma of its own, because
  its label comes from the floating-point formatting left out above.

## Findings

| source | as written | input that shows it | evidently intended | confidence | as-written member | corrected member |
|---|---|---|---|---|---|---|
| src/common/modules/UnicodeTransformationHandler.js:79-81 | characters with code 33..127 are looked up, so DEL (127) indexes entry 94 of a 94-entry table | DEL changed in a 94-entry font such as fullwidth: "undefined" is appended | only the printable range 33..126 is mapped, and DEL is kept | high; not executed | Transformation.ChangeFontDelReadsPastTable | Transformation.ChangeFontAgreesWithoutDel |
| src/common/modules/UnicodeFontHandler.js:29-42 | the font string is indexed by UTF-16 unit, while astral fonts store two units per letter | "Aa" in serif bold: "A" becomes a lone high surrogate, "a" is kept | index the font by code point, as the newer handler does | high; not executed | FontHandler.AstralTableBreaksLetters | Transformation.ChangeFontFollowsLayout |
| src/background/modules/AutocorrectHandler.js:90-91 | an empty list of keys compiles to `()$`, which matches every string | dictionary {"(c)", ":)"} has no antipatterns, so ":)" is never substituted; with symbols off, "1/2" is never converted | an empty list compiles to an expression that never matches | high; not executed | Scenarios.EmptyAntipatternsBlockSubstitution | Scenarios.CorrectedCompilerSubstitutes |
| src/content_scripts/autocorrect.js:312 | the window is compared with `caretposition <= longest`, but the look-ahead already starts one later when the caret equals `longest` | keys "ab", "bc", "abxy" (antipattern "abx"), text "zzab", caret 4, typing "c": "ab" is not substituted | compare with `caretposition < longest`, i.e. compare absolute start positions | medium; not executed | Scenarios.OffByOneAtLongest | Autocorrect.EarlierComparesStarts |
| src/common/modules/UnicodeFontHandler.js:146-149 | the output is put between double quotes in the injected script without escaping | a selection `"`: the script `insertIntoPage(""");` is not one call with the output | escape the output as a string literal | high; not executed | FontHandler.QuoteBreaksInjection | FontHandler.InjectedCodeReadsBack |
| src/background/modules/AutocorrectHandler.js:127-148 | the settings message has no `numbers` field, so the content script's destructuring sets `numbers` to undefined and the number branch never runs | any settings message, then a typed space after a number that no key, quote or fraction claims: nothing is converted | send the `autocorrectUnicodeNumbers` option as `numbers` | high; not executed | Autocorrect.NumbersNeverArrive | Autocorrect.NumbersArriveCorrected |

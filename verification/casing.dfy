/**
  Case mapping as the casing transformations see it.

  `toLocaleUpperCase`, `toLocaleLowerCase` and the Unicode properties
  Changes_When_Uppercased, Changes_When_Lowercased and Alphabetic come from
  the browser's Unicode data; a `CaseMapping` carries them as functions. The
  `Ascii` mapping is a concrete instance that changes only the letters A-Z
  and a-z, used for the concrete lemmas.
 */
module Casing {
  import opened Utf16
  import opened JsString

  datatype CaseMapping = CaseMapping(
    upper: seq<Unit> -> seq<Unit>,
    lower: seq<Unit> -> seq<Unit>,
    changesWhenUppercased: CodePoint -> bool,
    changesWhenLowercased: CodePoint -> bool,
    alphabetic: CodePoint -> bool)

  /** The two properties say exactly whether the mapping changes the letter,
      as Unicode defines them. */
  predicate Consistent(cm: CaseMapping)
  {
    (forall c: CodePoint :: cm.changesWhenUppercased(c) <==> cm.upper(EncodeOne(c)) != EncodeOne(c))
    && (forall c: CodePoint :: cm.changesWhenLowercased(c) <==> cm.lower(EncodeOne(c)) != EncodeOne(c))
  }

  /** No `\s` character is alphabetic, as in Unicode. */
  predicate SpacesAreNotAlphabetic(cm: CaseMapping)
  {
    forall c: CodePoint :: IsSpace(c) ==> !cm.alphabetic(c)
  }

  predicate IsAsciiUpper(c: int) { 0x41 <= c <= 0x5A }
  predicate IsAsciiLower(c: int) { 0x61 <= c <= 0x7A }

  function AsciiUpperUnit(u: Unit): (r: Unit)
    ensures IsAsciiLower(u) ==> r == u - 0x20
    ensures !IsAsciiLower(u) ==> r == u
  {
    if IsAsciiLower(u) then u - 0x20 else u
  }

  function AsciiLowerUnit(u: Unit): (r: Unit)
    ensures IsAsciiUpper(u) ==> r == u + 0x20
    ensures !IsAsciiUpper(u) ==> r == u
  {
    if IsAsciiUpper(u) then u + 0x20 else u
  }

  /** `toUpperCase` restricted to ASCII letters: a unit-by-unit map. */
  function AsciiUpper(s: seq<Unit>): (r: seq<Unit>)
    ensures |r| == |s|
    ensures forall i :: 0 <= i < |s| ==> r[i] == AsciiUpperUnit(s[i])
  {
    seq(|s|, i requires 0 <= i < |s| => AsciiUpperUnit(s[i]))
  }

  function AsciiLower(s: seq<Unit>): (r: seq<Unit>)
    ensures |r| == |s|
    ensures forall i :: 0 <= i < |s| ==> r[i] == AsciiLowerUnit(s[i])
  {
    seq(|s|, i requires 0 <= i < |s| => AsciiLowerUnit(s[i]))
  }

  const Ascii: CaseMapping := CaseMapping(
    AsciiUpper, AsciiLower,
    c => IsAsciiLower(c), c => IsAsciiUpper(c), c => IsAsciiUpper(c) || IsAsciiLower(c))

  /** The ASCII instance satisfies both assumptions the casing lemmas make. */
  lemma AsciiIsWellBehaved()
    ensures Consistent(Ascii)
    ensures SpacesAreNotAlphabetic(Ascii)
  {
    forall c: CodePoint
      ensures Ascii.changesWhenUppercased(c) <==> Ascii.upper(EncodeOne(c)) != EncodeOne(c)
      ensures Ascii.changesWhenLowercased(c) <==> Ascii.lower(EncodeOne(c)) != EncodeOne(c)
    {
      var e := EncodeOne(c);
      assert Ascii.upper(e) == AsciiUpper(e) && Ascii.lower(e) == AsciiLower(e);
      if c < 0x1_0000 {
        assert AsciiUpper(e)[0] == AsciiUpperUnit(c);
        assert AsciiLower(e)[0] == AsciiLowerUnit(c);
      } else {
        assert AsciiUpper(e) == e;
        assert AsciiLower(e) == e;
      }
    }
  }
}

/**
  The two numeric literals the keystroke handler converts, and the labels it
  converts them to.

  The fraction expression `(?<!\/\d*)(?<numerator>\d+)\/(?<denominator>\d+)$`
  and the number expression `(?<!\.\d*)\d+(?<fractionpart>\.\d+)?$` have the
  same form: digits, a separator and digits, at the end of the string, not
  preceded by the separator and digits. The fraction requires the separator
  part; the number makes it optional. `exec` reports the leftmost position
  where the form matches.
 */
module Numerals {
  import opened Utf16
  import opened Seqs

  const Slash: Unit := 0x2F
  const Dot: Unit := 0x2E
  const FractionSlash: Unit := 0x2044

  predicate IsDigit(u: int) { 0x30 <= u <= 0x39 }

  predicate AllDigits(t: seq<Unit>)
  {
    forall i :: 0 <= i < |t| ==> IsDigit(t[i])
  }

  /** The text after position `p` has the form `\d+` (when the separator part
      is optional) or `\d+ sep \d+`. */
  predicate Shape(t: seq<Unit>, sep: Unit, sepRequired: bool)
  {
    (!sepRequired && |t| > 0 && AllDigits(t))
    || exists k :: 0 < k < |t| - 1 && t[k] == sep && AllDigits(t[..k]) && AllDigits(t[k + 1..])
  }

  /** The lookbehind `sep \d*` matches just before the position. */
  predicate EndsWithSepDigits(t: seq<Unit>, sep: Unit)
  {
    exists k :: 0 <= k < |t| && t[k] == sep && AllDigits(t[k + 1..])
  }

  predicate MatchesAt(s: seq<Unit>, sep: Unit, sepRequired: bool, p: int)
  {
    0 <= p <= |s| && Shape(s[p..], sep, sepRequired) && !EndsWithSepDigits(s[..p], sep)
  }

  /** The search of the expression engine: the first position from `p` on
      where the expression matches. */
  function LeftmostFrom(s: seq<Unit>, sep: Unit, sepRequired: bool, p: nat): (r: Option<nat>)
    requires p <= |s|
    ensures r.Some? ==> p <= r.value <= |s| && MatchesAt(s, sep, sepRequired, r.value)
    ensures r.Some? ==> forall q :: p <= q < r.value ==> !MatchesAt(s, sep, sepRequired, q)
    ensures r.None? ==> forall q :: p <= q <= |s| ==> !MatchesAt(s, sep, sepRequired, q)
    decreases |s| - p
  {
    if MatchesAt(s, sep, sepRequired, p) then Some(p)
    else if p == |s| then None
    else LeftmostFrom(s, sep, sepRequired, p + 1)
  }

  /** A match: where it starts, the digits before the separator, and the
      digits after it when the separator part is present. */
  datatype Literal = Literal(index: nat, head: seq<Unit>, tail: Option<seq<Unit>>)

  /** The whole matched text of a literal. */
  function Text(m: Literal, sep: Unit): seq<Unit>
  {
    match m.tail
    case None => m.head
    case Some(t) => m.head + [sep] + t
  }

  /** The groups of a text of the expression's form. */
  function Split(t: seq<Unit>, sep: Unit, p: nat): Literal
  {
    if sep in t then
      var k := FirstIndex(t, sep);
      Literal(p, t[..k], Some(t[k + 1..]))
    else Literal(p, t, None)
  }

  /** Splitting a text of the expression's form at its separator gives the
      two groups back. */
  lemma SplitShape(t: seq<Unit>, sep: Unit, sepRequired: bool, p: nat)
    requires !IsDigit(sep)
    requires Shape(t, sep, sepRequired)
    ensures var m := Split(t, sep, p);
            m.index == p && Text(m, sep) == t && |m.head| > 0 && AllDigits(m.head)
            && (m.tail.Some? ==> |m.tail.value| > 0 && AllDigits(m.tail.value))
            && (sepRequired ==> m.tail.Some?)
  {
    if sep in t {
      var f := FirstIndex(t, sep);
      assert !AllDigits(t) by {
        assert !IsDigit(t[f]);
      }
      var k :| 0 < k < |t| - 1 && t[k] == sep && AllDigits(t[..k]) && AllDigits(t[k + 1..]);
      assert forall j :: 0 <= j < k ==> t[j] != sep by {
        forall j | 0 <= j < k
          ensures t[j] != sep
        {
          assert t[..k][j] == t[j];
        }
      }
      assert f == k;
      assert t == t[..k] + [sep] + t[k + 1..];
    } else {
      assert forall k :: 0 <= k < |t| ==> t[k] != sep;
    }
  }

  /** `regex.exec(s)`: the leftmost match and its groups. */
  function Find(s: seq<Unit>, sep: Unit, sepRequired: bool): (r: Option<Literal>)
    requires !IsDigit(sep)
    ensures r.Some? ==> MatchesAt(s, sep, sepRequired, r.value.index)
                        && (forall q :: 0 <= q < r.value.index ==> !MatchesAt(s, sep, sepRequired, q))
                        && s[r.value.index..] == Text(r.value, sep)
                        && |r.value.head| > 0 && AllDigits(r.value.head)
                        && (r.value.tail.Some? ==> |r.value.tail.value| > 0 && AllDigits(r.value.tail.value))
                        && (sepRequired ==> r.value.tail.Some?)
    ensures r.None? <==> forall q :: !MatchesAt(s, sep, sepRequired, q)
  {
    match LeftmostFrom(s, sep, sepRequired, 0)
    case None => None
    case Some(p) =>
      SplitShape(s[p..], sep, sepRequired, p);
      Some(Split(s[p..], sep, p))
  }

  /** The fraction expression on the text before the caret. */
  function FindFraction(s: seq<Unit>): Option<Literal>
  {
    Find(s, Slash, true)
  }

  /** The number expression on the text before the caret. */
  function FindNumber(s: seq<Unit>): Option<Literal>
  {
    Find(s, Dot, false)
  }

  lemma ShapeConsDigit(d: Unit, t: seq<Unit>, sep: Unit, sepRequired: bool)
    requires IsDigit(d) && Shape(t, sep, sepRequired)
    ensures Shape([d] + t, sep, sepRequired)
  {
    var t' := [d] + t;
    if !sepRequired && |t| > 0 && AllDigits(t) {
      assert AllDigits(t');
    } else {
      var k :| 0 < k < |t| - 1 && t[k] == sep && AllDigits(t[..k]) && AllDigits(t[k + 1..]);
      assert t'[k + 1] == sep;
      assert t'[..k + 1] == [d] + t[..k];
      assert t'[k + 2..] == t[k + 1..];
    }
  }

  lemma ShapeSnocDigit(t: seq<Unit>, c: Unit, sep: Unit, sepRequired: bool)
    requires IsDigit(c) && Shape(t, sep, sepRequired)
    ensures Shape(t + [c], sep, sepRequired)
  {
    var t' := t + [c];
    if !sepRequired && |t| > 0 && AllDigits(t) {
      assert AllDigits(t');
    } else {
      var k :| 0 < k < |t| - 1 && t[k] == sep && AllDigits(t[..k]) && AllDigits(t[k + 1..]);
      assert t'[..k] == t[..k];
      assert t'[k + 1..] == t[k + 1..] + [c];
      assert t'[k] == sep;
    }
  }

  lemma LookbehindExtends(s: seq<Unit>, i: nat, sep: Unit)
    requires 0 < i <= |s| && IsDigit(s[i - 1]) && EndsWithSepDigits(s[..i - 1], sep)
    ensures EndsWithSepDigits(s[..i], sep)
  {
    var t := s[..i - 1];
    var k :| 0 <= k < |t| && t[k] == sep && AllDigits(t[k + 1..]);
    assert s[..i][k + 1..] == t[k + 1..] + [s[i - 1]];
    assert s[..i][k] == sep;
  }

  /** The match takes in every digit before it: the character before the
      match is not a digit. */
  lemma FindTakesWholeLiteral(s: seq<Unit>, sep: Unit, sepRequired: bool)
    requires !IsDigit(sep)
    requires Find(s, sep, sepRequired).Some?
    ensures var i := Find(s, sep, sepRequired).value.index;
            i == 0 || !IsDigit(s[i - 1])
  {
    var i := Find(s, sep, sepRequired).value.index;
    if i > 0 && IsDigit(s[i - 1]) {
      assert s[i - 1..] == [s[i - 1]] + s[i..];
      ShapeConsDigit(s[i - 1], s[i..], sep, sepRequired);
      if EndsWithSepDigits(s[..i - 1], sep) {
        LookbehindExtends(s, i, sep);
      }
      assert MatchesAt(s, sep, sepRequired, i - 1);
    }
  }

  /** A literal is converted only once it is finished: typing another digit
      after a match leaves a match at the end, so the expression still
      matches the extended text. */
  lemma DigitExtendsLiteral(s: seq<Unit>, sep: Unit, sepRequired: bool, c: Unit)
    requires !IsDigit(sep)
    requires Find(s, sep, sepRequired).Some?
    requires IsDigit(c)
    ensures Find(s + [c], sep, sepRequired).Some?
  {
    var i := Find(s, sep, sepRequired).value.index;
    var s' := s + [c];
    assert s'[i..] == s[i..] + [c];
    assert s'[..i] == s[..i];
    ShapeSnocDigit(s[i..], c, sep, sepRequired);
    assert MatchesAt(s', sep, sepRequired, i);
  }

  /** Typing a character that is neither a digit nor the separator ends the
      literal: the expression no longer matches. */
  lemma OtherCharacterEndsLiteral(s: seq<Unit>, sep: Unit, sepRequired: bool, c: Unit)
    requires !IsDigit(sep)
    requires !IsDigit(c)
    ensures Find(s + [c], sep, sepRequired).None?
  {
    var s' := s + [c];
    forall q | 0 <= q <= |s'|
      ensures !Shape(s'[q..], sep, sepRequired)
    {
      var t := s'[q..];
      if |t| > 0 {
        assert t[|t| - 1] == c;
        assert !AllDigits(t);
        forall k | 0 < k < |t| - 1 && t[k] == sep && AllDigits(t[..k])
          ensures !AllDigits(t[k + 1..])
        {
          assert t[k + 1..][|t| - k - 2] == c;
        }
      }
    }
  }

  /** The `afractions` table: each vulgar-fraction character with its
      numerator and denominator, in property order. */
  datatype VulgarFraction = VulgarFraction(glyph: Unit, numerator: nat, denominator: nat)

  const Fractions: seq<VulgarFraction> := [
    VulgarFraction(0x00BC, 1, 4), VulgarFraction(0x00BD, 1, 2), VulgarFraction(0x00BE, 3, 4),
    VulgarFraction(0x2150, 1, 7), VulgarFraction(0x2151, 1, 9), VulgarFraction(0x2152, 1, 10),
    VulgarFraction(0x2153, 1, 3), VulgarFraction(0x2154, 2, 3), VulgarFraction(0x2155, 1, 5),
    VulgarFraction(0x2156, 2, 5), VulgarFraction(0x2157, 3, 5), VulgarFraction(0x2158, 4, 5),
    VulgarFraction(0x2159, 1, 6), VulgarFraction(0x215A, 5, 6), VulgarFraction(0x215B, 1, 8),
    VulgarFraction(0x215C, 3, 8), VulgarFraction(0x215D, 5, 8), VulgarFraction(0x215E, 7, 8)]

  /** `Object.entries(afractions).find(([, [n, d]]) => n === numerator && d === denominator)`. */
  function FindFractionGlyph(table: seq<VulgarFraction>, n: nat, d: nat): (r: Option<Unit>)
    ensures r.None? <==> forall i :: 0 <= i < |table| ==> !(table[i].numerator == n && table[i].denominator == d)
    ensures r.Some? ==> exists i :: 0 <= i < |table| && table[i] == VulgarFraction(r.value, n, d)
  {
    if |table| == 0 then None
    else if table[0].numerator == n && table[0].denominator == d then Some(table[0].glyph)
    else
      var r := FindFractionGlyph(table[1..], n, d);
      assert forall i :: 1 <= i < |table| ==> table[1..][i - 1] == table[i];
      r
  }

  /** The value of a digit string (`Number.parseInt(digits, 10)`). */
  function DigitsValue(ds: seq<Unit>): nat
  {
    if |ds| == 0 then 0 else 10 * DigitsValue(ds[..|ds| - 1]) + (if IsDigit(ds[|ds| - 1]) then ds[|ds| - 1] - 0x30 else 0)
  }

  /** The decimal numeral of `n`, as template interpolation prints it. */
  function Decimal(n: nat): (r: seq<Unit>)
    ensures |r| > 0 && AllDigits(r)
    ensures DigitsValue(r) == n
    ensures n > 0 ==> r[0] != 0x30
    decreases n
  {
    if n < 10 then [0x30 + n]
    else
      var r := Decimal(n / 10) + [0x30 + n % 10];
      assert r[..|r| - 1] == Decimal(n / 10);
      r
  }

  /** The label of a fraction: its vulgar-fraction character when the table
      lists it, else the numerator, U+2044 FRACTION SLASH and the denominator. */
  function FractionLabel(n: nat, d: nat): (r: seq<Unit>)
    ensures FindFractionGlyph(Fractions, n, d).Some? ==> r == [FindFractionGlyph(Fractions, n, d).value]
    ensures FindFractionGlyph(Fractions, n, d).None? ==> r == Decimal(n) + [FractionSlash] + Decimal(d)
    ensures Slash !in r
  {
    match FindFractionGlyph(Fractions, n, d)
    case Some(g) =>
      assert g != Slash by {
        var i :| 0 <= i < |Fractions| && Fractions[i] == VulgarFraction(g, n, d);
        FractionGlyphsAreNotSlash(i);
      }
      [g]
    case None =>
      var r := Decimal(n) + [FractionSlash] + Decimal(d);
      assert forall i :: 0 <= i < |r| ==> r[i] != Slash by {
        forall i | 0 <= i < |r|
          ensures r[i] != Slash
        {
          if i < |Decimal(n)| {
            assert r[i] == Decimal(n)[i];
          } else if i > |Decimal(n)| {
            assert r[i] == Decimal(d)[i - |Decimal(n)| - 1];
          }
        }
      }
      r
  }

  /** No vulgar-fraction character is a solidus. */
  lemma FractionGlyphsAreNotSlash(i: nat)
    requires i < |Fractions|
    ensures Fractions[i].glyph != Slash
  {
  }

  /** No two entries of the table share a numerator and denominator. */
  lemma FractionPairsDistinct()
    ensures forall i, j :: 0 <= i < j < |Fractions| ==>
              (Fractions[i].numerator, Fractions[i].denominator) != (Fractions[j].numerator, Fractions[j].denominator)
  {
  }

  /** Looking up the pair of any entry of the table yields that entry's
      character. */
  lemma FractionLookupFindsEntry(i: nat)
    requires i < |Fractions|
    ensures FindFractionGlyph(Fractions, Fractions[i].numerator, Fractions[i].denominator) == Some(Fractions[i].glyph)
  {
    FractionPairsDistinct();
    var r := FindFractionGlyph(Fractions, Fractions[i].numerator, Fractions[i].denominator);
    var j :| 0 <= j < |Fractions| && Fractions[j] == VulgarFraction(r.value, Fractions[i].numerator, Fractions[i].denominator);
    assert i == j;
  }
}

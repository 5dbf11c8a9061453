/**
  JavaScript strings as sequences of UTF-16 code units.

  A JavaScript string may hold lone surrogates, so a code unit is any value
  in 0..0xFFFF and a code point is any value in 0..0x10FFFF (surrogates
  included). Iterating a string with `for..of` or `Array.from` yields code
  points: a high surrogate directly followed by a low surrogate is read as
  one astral code point, every other unit is read on its own.
 */
module Utf16 {

  type Unit = x: int | 0 <= x < 0x1_0000
  type CodePoint = x: int | 0 <= x < 0x11_0000

  predicate IsHigh(u: int) { 0xD800 <= u < 0xDC00 }
  predicate IsLow(u: int) { 0xDC00 <= u < 0xE000 }

  /** The astral code point written as the pair (h, l). */
  function Combine(h: Unit, l: Unit): (c: CodePoint)
    requires IsHigh(h) && IsLow(l)
    ensures 0x1_0000 <= c
  {
    0x1_0000 + (h - 0xD800) * 0x400 + (l - 0xDC00)
  }

  /** The code units of one code point, as `String.fromCodePoint` writes them. */
  function EncodeOne(c: CodePoint): (u: seq<Unit>)
    ensures |u| == (if c < 0x1_0000 then 1 else 2)
    ensures c < 0x1_0000 ==> u[0] == c
    ensures 0x1_0000 <= c ==> IsHigh(u[0]) && IsLow(u[1]) && Combine(u[0], u[1]) == c
  {
    if c < 0x1_0000 then [c]
    else
      var v := c - 0x1_0000;
      [0xD800 + v / 0x400, 0xDC00 + v % 0x400]
  }

  /** Concatenation of the code units of every code point, in order. */
  function Encode(cs: seq<CodePoint>): seq<Unit>
  {
    if |cs| == 0 then [] else EncodeOne(cs[0]) + Encode(cs[1..])
  }

  /** The code points a `for..of` loop over the string visits. */
  function Decode(u: seq<Unit>): seq<CodePoint>
  {
    if |u| == 0 then []
    else if 2 <= |u| && IsHigh(u[0]) && IsLow(u[1]) then [Combine(u[0], u[1])] + Decode(u[2..])
    else [u[0]] + Decode(u[1..])
  }

  /** The first code unit of a code point: what `letter.charCodeAt(0)` reads. */
  function FirstUnit(c: CodePoint): Unit
  {
    EncodeOne(c)[0]
  }

  /** A code-point sequence that `Decode` can produce: no lone high surrogate
      is directly followed by a lone low surrogate (they would pair up). */
  ghost predicate Canonical(cs: seq<CodePoint>)
  {
    forall i :: 0 <= i < |cs| - 1 ==> !(IsHigh(cs[i]) && IsLow(cs[i + 1]))
  }

  /** The string "undefined", which `+=` appends for a missing array element. */
  const Undefined: seq<Unit> := [0x75, 0x6E, 0x64, 0x65, 0x66, 0x69, 0x6E, 0x65, 0x64]

  lemma EncodeAppend(a: seq<CodePoint>, b: seq<CodePoint>)
    ensures Encode(a + b) == Encode(a) + Encode(b)
  {
    if |a| == 0 {
      assert a + b == b;
    } else {
      assert (a + b)[1..] == a[1..] + b;
      EncodeAppend(a[1..], b);
    }
  }

  /** Every code point decoded from a pair re-encodes to exactly that pair. */
  lemma EncodeCombine(h: Unit, l: Unit)
    requires IsHigh(h) && IsLow(l)
    ensures EncodeOne(Combine(h, l)) == [h, l]
  {
    var v := (h - 0xD800) * 0x400 + (l - 0xDC00);
    assert 0 <= l - 0xDC00 < 0x400;
    assert v / 0x400 == h - 0xD800 && v % 0x400 == l - 0xDC00 by {
      DivModUnique(v, h - 0xD800, l - 0xDC00);
    }
  }

  lemma DivModUnique(v: int, q: int, r: int)
    requires 0 <= r < 0x400 && v == q * 0x400 + r
    ensures v / 0x400 == q && v % 0x400 == r
  {
  }

  /** Iterating a string and concatenating the visited code points gives the
      string back, whatever surrogates it holds. */
  lemma {:induction false} EncodeDecode(u: seq<Unit>)
    ensures Encode(Decode(u)) == u
    decreases |u|
  {
    if |u| == 0 {
    } else if 2 <= |u| && IsHigh(u[0]) && IsLow(u[1]) {
      EncodeDecode(u[2..]);
      EncodeCombine(u[0], u[1]);
      assert Encode(Decode(u)) == EncodeOne(Combine(u[0], u[1])) + Encode(Decode(u[2..]));
      assert u == [u[0], u[1]] + u[2..];
    } else {
      EncodeDecode(u[1..]);
      assert Encode(Decode(u)) == EncodeOne(u[0]) + Encode(Decode(u[1..]));
      assert u == [u[0]] + u[1..];
    }
  }

  /** Decoding undoes encoding for every canonical code-point sequence. */
  lemma {:induction false} DecodeEncode(cs: seq<CodePoint>)
    requires Canonical(cs)
    ensures Decode(Encode(cs)) == cs
    decreases |cs|
  {
    if |cs| > 0 {
      var c := cs[0];
      var rest := cs[1..];
      assert Canonical(rest);
      DecodeEncode(rest);
      var e := Encode(rest);
      assert Encode(cs) == EncodeOne(c) + e;
      if c < 0x1_0000 {
        var u := [c] + e;
        assert !(2 <= |u| && IsHigh(u[0]) && IsLow(u[1])) by {
          if |rest| > 0 {
            // the next code point is what the second unit starts
            assert e == EncodeOne(rest[0]) + Encode(rest[1..]);
            assert u[1] == EncodeOne(rest[0])[0];
            assert !(IsHigh(cs[0]) && IsLow(cs[1]));
          }
        }
        assert u[1..] == e;
      } else {
        var p := EncodeOne(c);
        var u := p + e;
        assert u[2..] == e;
        assert u[0] == p[0] && u[1] == p[1];
      }
    }
  }

  /** The range test of the font loops reads the first code unit; for the
      printable-ASCII bounds it is the same as testing the code point. */
  lemma FirstUnitInAsciiRange(c: CodePoint, lo: int, hi: int)
    requires 0 <= lo <= hi < 0xD800
    ensures lo <= FirstUnit(c) <= hi <==> lo <= c <= hi
  {
  }

  /** A sequence of code units that holds no surrogate decodes unit by unit. */
  lemma {:induction false} DecodeNoSurrogates(u: seq<Unit>)
    requires forall i :: 0 <= i < |u| ==> !IsHigh(u[i]) && !IsLow(u[i])
    ensures Decode(u) == u
    decreases |u|
  {
    if |u| > 0 {
      DecodeNoSurrogates(u[1..]);
      assert u == [u[0]] + u[1..];
    }
  }

  /** Code units below the surrogate range decode to themselves. */
  lemma DecodeBelowSurrogates(u: seq<Unit>)
    requires forall i :: 0 <= i < |u| ==> u[i] < 0xD800
    ensures Decode(u) == u
  {
    DecodeNoSurrogates(u);
  }

  /** The output of a loop `for (letter of text) output += f(letter)`. */
  function MapCodePoints(cs: seq<CodePoint>, f: CodePoint -> seq<Unit>): seq<Unit>
  {
    if |cs| == 0 then [] else f(cs[0]) + MapCodePoints(cs[1..], f)
  }

  /** Two per-letter rules that agree on every letter of the text give the same output. */
  lemma {:induction false} MapCodePointsAgree(cs: seq<CodePoint>, f: CodePoint -> seq<Unit>, g: CodePoint -> seq<Unit>)
    requires forall k :: 0 <= k < |cs| ==> f(cs[k]) == g(cs[k])
    ensures MapCodePoints(cs, f) == MapCodePoints(cs, g)
    decreases |cs|
  {
    if |cs| > 0 {
      MapCodePointsAgree(cs[1..], f, g);
    }
  }

  /** A rule that writes every letter back as it was leaves the text unchanged. */
  lemma {:induction false} MapCodePointsIdentity(u: seq<Unit>, f: CodePoint -> seq<Unit>)
    requires forall k :: 0 <= k < |Decode(u)| ==> f(Decode(u)[k]) == EncodeOne(Decode(u)[k])
    ensures MapCodePoints(Decode(u), f) == u
  {
    MapCodePointsEncode(Decode(u), f);
    EncodeDecode(u);
  }

  lemma {:induction false} MapCodePointsEncode(cs: seq<CodePoint>, f: CodePoint -> seq<Unit>)
    requires forall k :: 0 <= k < |cs| ==> f(cs[k]) == EncodeOne(cs[k])
    ensures MapCodePoints(cs, f) == Encode(cs)
    decreases |cs|
  {
    if |cs| > 0 {
      MapCodePointsEncode(cs[1..], f);
    }
  }

  /** A per-letter rule that maps every BMP letter to one unit by `g`, and
      keeps astral letters, acts on the code units one by one (surrogates,
      which `g` keeps, stay where they are). */
  lemma {:induction false} MapCodePointsUnitwise(u: seq<Unit>, f: CodePoint -> seq<Unit>, g: Unit -> Unit)
    requires forall c: CodePoint :: c < 0x1_0000 ==> f(c) == [g(c)]
    requires forall c: CodePoint :: 0x1_0000 <= c ==> f(c) == EncodeOne(c)
    requires forall x: Unit :: IsHigh(x) || IsLow(x) ==> g(x) == x
    ensures |MapCodePoints(Decode(u), f)| == |u|
    ensures forall i :: 0 <= i < |u| ==> MapCodePoints(Decode(u), f)[i] == g(u[i])
    decreases |u|
  {
    var m := MapCodePoints(Decode(u), f);
    if |u| == 0 {
    } else if 2 <= |u| && IsHigh(u[0]) && IsLow(u[1]) {
      var c := Combine(u[0], u[1]);
      MapCodePointsUnitwise(u[2..], f, g);
      EncodeCombine(u[0], u[1]);
      assert Decode(u) == [c] + Decode(u[2..]);
      assert m == f(c) + MapCodePoints(Decode(u[2..]), f);
      assert f(c) == [g(u[0]), g(u[1])];
    } else {
      MapCodePointsUnitwise(u[1..], f, g);
      assert Decode(u) == [u[0]] + Decode(u[1..]);
      assert m == f(u[0]) + MapCodePoints(Decode(u[1..]), f);
      assert f(u[0]) == [g(u[0])];
    }
  }
}

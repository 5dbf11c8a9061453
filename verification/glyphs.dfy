/**
  The table lookup both `changeFont` loops share: which entry of a font table
  replaces a character, decided by the character's code and the table's
  length. A table of 94 entries covers `!` to `~`; shorter tables cover the
  capitals, then (52 and 62) the small letters, then (36 and 62) the digits,
  and the 26- and 36-entry tables give small letters the capitals' glyphs.
 */
module Glyphs {
  import opened Utf16
  import opened Seqs
  import Casing

  /** What the loop does with one character: keep it, put a table entry in
      its place, or read past the end of the table (`font[i]` is `undefined`). */
  datatype Lookup<T> = Keep | Glyph(glyph: T) | Missing

  predicate IsDigit(c: int) { 0x30 <= c <= 0x39 }

  /** `font[i]` for an index the loop computed. */
  function At<T>(table: seq<T>, i: int): (r: Lookup<T>)
    requires 0 <= i
    ensures !r.Keep?
    ensures r.Glyph? <==> i < |table|
    ensures r.Glyph? ==> r.glyph == table[i]
  {
    if i < |table| then Glyph(table[i]) else Missing
  }

  /** The branch the loop body takes for the letter `c`. `last` is the last
      code the range test admits: 127 as written, 126 once DEL is excluded.
      The test reads the letter's first code unit; inside the range the
      letter is a single ASCII unit, so the letter comparisons read `c`. */
  function Dispatch<T>(table: seq<T>, c: CodePoint, last: int): Lookup<T>
    requires 33 <= last < 0xD800
  {
    var code := FirstUnit(c);
    FirstUnitInAsciiRange(c, 33, last);
    if !(33 <= code <= last) then Keep
    else if |table| == 94 then At(table, code - 0x21)
    else if Casing.IsAsciiUpper(c) then At(table, code - 0x41)
    else if Casing.IsAsciiLower(c) then
      if |table| == 26 || |table| == 26 + 10 then At(table, code - 0x61)
      else if |table| == 26 + 26 || |table| == 26 + 26 + 10 then At(table, code - 0x61 + 26)
      else Keep
    else if IsDigit(c) then
      if |table| == 26 + 10 then At(table, code - 0x30 + 26)
      else if |table| == 26 + 26 + 10 then At(table, code - 0x30 + 26 + 26)
      else Keep
    else Keep
  }

  /** A run of consecutive codes that occupies consecutive table entries. */
  datatype Block = Block(first: int, count: nat)

  /** The characters a table of `n` entries provides glyphs for, in table order. */
  function Layout(n: nat): seq<Block>
  {
    if n == 94 then [Block(0x21, 94)]
    else if n == 36 then [Block(0x41, 26), Block(0x30, 10)]
    else if n == 52 then [Block(0x41, 26), Block(0x61, 26)]
    else if n == 62 then [Block(0x41, 26), Block(0x61, 26), Block(0x30, 10)]
    else [Block(0x41, 26)]
  }

  /** Position of `c` in a table laid out as `blocks`, counting from `offset`. */
  function BlockIndex(blocks: seq<Block>, c: int, offset: nat): (r: Option<nat>)
    ensures r.Some? ==> offset <= r.value
  {
    if |blocks| == 0 then None
    else if blocks[0].first <= c < blocks[0].first + blocks[0].count then Some(offset + (c - blocks[0].first))
    else BlockIndex(blocks[1..], c, offset + blocks[0].count)
  }

  /** A code outside every block has no position. */
  lemma {:induction false} BlockIndexOutside(blocks: seq<Block>, c: int, offset: nat)
    requires forall k :: 0 <= k < |blocks| ==> !(blocks[k].first <= c < blocks[k].first + blocks[k].count)
    ensures BlockIndex(blocks, c, offset) == None
    decreases |blocks|
  {
    if |blocks| > 0 {
      BlockIndexOutside(blocks[1..], c, offset + blocks[0].count);
    }
  }

  /** The table position of `c`: its own, or for a small letter in a table
      without small letters of its own, the position of its capital. */
  function LayoutIndex(n: nat, c: int): Option<nat>
  {
    match BlockIndex(Layout(n), c, 0)
    case Some(i) => Some(i)
    case None =>
      if (n == 26 || n == 36) && Casing.IsAsciiLower(c) then BlockIndex(Layout(n), c - 0x20, 0) else None
  }

  /** The reference lookup read off the layouts. */
  function LayoutLookup<T>(table: seq<T>, c: int): Lookup<T>
  {
    match LayoutIndex(|table|, c)
    case None => Keep
    case Some(i) => if i < |table| then Glyph(table[i]) else Missing
  }

  /** With DEL excluded, the branches of the loop pick exactly the entry the
      layout of the table's length assigns to the character, for tables of
      every length. */
  lemma DispatchFollowsLayout<T>(table: seq<T>, c: CodePoint)
    ensures Dispatch(table, c, 126) == LayoutLookup(table, c)
  {
    FirstUnitInAsciiRange(c, 33, 126);
    var n := |table|;
    if 33 <= c <= 126 {
      assert FirstUnit(c) == c;
      if n == 94 {
      } else if Casing.IsAsciiUpper(c) {
        assert BlockIndex(Layout(n), c, 0) == Some(c - 0x41);
      } else if Casing.IsAsciiLower(c) {
        if n == 26 || n == 36 {
          BlockIndexOutside(Layout(n), c, 0);
          assert BlockIndex(Layout(n), c - 0x20, 0) == Some(c - 0x61);
        } else if n == 52 || n == 62 {
          assert BlockIndex(Layout(n), c, 0) == Some(26 + (c - 0x61));
        } else {
          BlockIndexOutside(Layout(n), c, 0);
        }
      } else if IsDigit(c) {
        if n == 36 {
          assert BlockIndex(Layout(n), c, 0) == Some(26 + (c - 0x30));
        } else if n == 62 {
          var l := Layout(n);
          assert BlockIndex(l, c, 0) == BlockIndex(l[1..], c, 26) == BlockIndex(l[2..], c, 52);
        } else {
          BlockIndexOutside(Layout(n), c, 0);
        }
      } else {
        BlockIndexOutside(Layout(n), c, 0);
      }
    } else {
      BlockIndexOutside(Layout(n), c, 0);
    }
  }

  /** The range test as written and the one without DEL take different
      branches for exactly one case: DEL itself, with a 94-entry table, where
      the written test reads one entry past the end. */
  lemma DelIsTheOnlyDifference<T>(table: seq<T>, c: CodePoint)
    ensures Dispatch(table, c, 127) != Dispatch(table, c, 126) <==> c == 0x7F && |table| == 94
    ensures c == 0x7F && |table| == 94 ==> Dispatch(table, c, 127) == Missing && Dispatch(table, c, 126) == Keep
  {
    FirstUnitInAsciiRange(c, 33, 127);
    FirstUnitInAsciiRange(c, 33, 126);
  }
}

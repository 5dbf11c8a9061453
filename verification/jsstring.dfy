/**
  The few JavaScript string primitives the core relies on, over UTF-16 code
  units: `slice` with its clamping of negative and oversized bounds,
  `indexOf`, `startsWith`, and the `\s` class of regular expressions.
 */
module JsString {
  import opened Utf16

  /** A string literal of this model written as code units (every character
      of `s` is in the Basic Multilingual Plane and not a surrogate). */
  function Units(s: string): (u: seq<Unit>)
    requires forall i :: 0 <= i < |s| ==> (s[i] as int) < 0xD800
    ensures |u| == |s|
    ensures forall i :: 0 <= i < |s| ==> u[i] == s[i] as int
  {
    seq(|s|, i requires 0 <= i < |s| => s[i] as int)
  }

  /** How `slice` reads one bound: negative counts from the end, and the
      result is clamped to 0..len. */
  function SliceBound(i: int, len: nat): (r: nat)
    ensures r <= len
    ensures 0 <= i <= len ==> r == i
    ensures i < 0 && -i <= len ==> r == len + i
  {
    if i < 0 then (if len + i < 0 then 0 else len + i)
    else if i > len then len
    else i
  }

  /** `s.slice(start, end)`. */
  function Slice<T>(s: seq<T>, start: int, end: int): (r: seq<T>)
    ensures 0 <= start <= end <= |s| ==> r == s[start..end]
    ensures |r| <= |s|
  {
    var a := SliceBound(start, |s|);
    var b := SliceBound(end, |s|);
    if a < b then s[a..b] else []
  }

  /** `t` occurs in `s` starting at `i`. */
  predicate OccursAt<T(==)>(s: seq<T>, t: seq<T>, i: int)
  {
    0 <= i && i + |t| <= |s| && s[i..i + |t|] == t
  }

  function IndexFrom<T(==)>(s: seq<T>, t: seq<T>, i: nat): (r: int)
    requires i <= |s|
    ensures r == -1 || (i <= r && OccursAt(s, t, r))
    ensures forall j :: i <= j < (if r == -1 then |s| + 1 else r) ==> !OccursAt(s, t, j)
    decreases |s| - i
  {
    if i + |t| > |s| then -1
    else if s[i..i + |t|] == t then i
    else if i == |s| then -1
    else IndexFrom(s, t, i + 1)
  }

  /** `s.indexOf(t)`: the first position where `t` occurs, or -1. */
  function IndexOf<T(==)>(s: seq<T>, t: seq<T>): (r: int)
    ensures r == -1 <==> forall j :: !OccursAt(s, t, j)
    ensures r != -1 ==> 0 <= r && OccursAt(s, t, r) && forall j :: 0 <= j < r ==> !OccursAt(s, t, j)
  {
    var r := IndexFrom(s, t, 0);
    assert forall j :: OccursAt(s, t, j) ==> 0 <= j <= |s|;
    r
  }

  /** `s.startsWith(p)`. */
  predicate StartsWith<T(==)>(s: seq<T>, p: seq<T>)
  {
    |p| <= |s| && s[..|p|] == p
  }

  /** The `\s` class: ECMAScript WhiteSpace and LineTerminator code points. */
  predicate IsSpace(c: int)
  {
    c == 0x09 || c == 0x0A || c == 0x0B || c == 0x0C || c == 0x0D || c == 0x20
    || c == 0xA0 || c == 0x1680 || (0x2000 <= c <= 0x200A) || c == 0x2028 || c == 0x2029
    || c == 0x202F || c == 0x205F || c == 0x3000 || c == 0xFEFF
  }

  /** Every element of `s` is a `\s` character (`/^\s*$/u.test(s)`). */
  predicate AllSpace(s: seq<Unit>)
  {
    forall i :: 0 <= i < |s| ==> IsSpace(s[i])
  }
}

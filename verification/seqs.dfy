/** Small sequence utilities shared by the model, and its result type. */
module Seqs {

  datatype Option<+T> = None | Some(value: T)

  /** A computation that either returns a value or throws the error `error`. */
  datatype Result<+T, +E> = Ok(value: T) | Err(error: E)

  /** The pieces written one after the other (`output += piece` in a loop). */
  function Concat<T>(pieces: seq<seq<T>>): seq<T>
  {
    if |pieces| == 0 then [] else pieces[0] + Concat(pieces[1..])
  }

  lemma {:induction false} ConcatAppend<T>(a: seq<seq<T>>, b: seq<seq<T>>)
    ensures Concat(a + b) == Concat(a) + Concat(b)
    decreases |a|
  {
    if |a| == 0 {
      assert a + b == b;
    } else {
      assert (a + b)[1..] == a[1..] + b;
      ConcatAppend(a[1..], b);
    }
  }

  /** When every piece is a single element, writing them out gives those elements. */
  lemma {:induction false} ConcatSingletons<T>(pieces: seq<seq<T>>, s: seq<T>)
    requires |pieces| == |s|
    requires forall i :: 0 <= i < |s| ==> pieces[i] == [s[i]]
    ensures Concat(pieces) == s
    decreases |s|
  {
    if |s| > 0 {
      ConcatSingletons(pieces[1..], s[1..]);
      assert s == [s[0]] + s[1..];
    }
  }

  /** A suffix is its first element followed by the next suffix. */
  lemma SuffixCons<T>(s: seq<T>, i: nat)
    requires i < |s|
    ensures s[i..] == [s[i]] + s[i + 1..]
  {
  }

  /** No element occurs twice. */
  predicate Distinct<T(==)>(s: seq<T>)
  {
    forall i, j :: 0 <= i < j < |s| ==> s[i] != s[j]
  }

  /** `s.indexOf(x)` on an array: the first position holding `x`. */
  function FirstIndex<T(==)>(s: seq<T>, x: T): (r: nat)
    requires x in s
    ensures r < |s| && s[r] == x
    ensures forall j :: 0 <= j < r ==> s[j] != x
  {
    if s[0] == x then 0 else 1 + FirstIndex(s[1..], x)
  }

  /** Number of positions of `s` holding `x`. */
  function Count<T(==)>(s: seq<T>, x: T): nat
  {
    if |s| == 0 then 0 else (if s[0] == x then 1 else 0) + Count(s[1..], x)
  }

  function Max(a: int, b: int): int { if a < b then b else a }
}

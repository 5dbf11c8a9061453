/**
  The autocorrect compiler of both `AutocorrectHandler.js` files.

  From the symbols table and the settings it builds the dictionary, the
  length of its longest key, an expression matching any key at the end of a
  string, and an expression matching the "antipatterns": for a key x that
  contains a shorter key y, the prefix of x that runs one character past y.
  While the user is typing x, that prefix tells the keystroke handler not to
  replace y yet. The background variant compiles in unicode mode and only
  when autocorrect is enabled; the older variant compiles without the `u`
  flag, on every settings change.
 */
module Compiler {
  import opened Utf16
  import opened Seqs
  import opened JsString
  import Matcher

  /** One property of the symbols table: a key and its replacement. The
      table is a sequence in property order. */
  datatype Entry = Entry(key: seq<Unit>, replacement: seq<Unit>)

  function Keys(table: seq<Entry>): (r: seq<seq<Unit>>)
    ensures |r| == |table|
    ensures forall i :: 0 <= i < |table| ==> r[i] == table[i].key
  {
    seq(|table|, i requires 0 <= i < |table| => table[i].key)
  }

  /** Property names of an object are distinct. */
  predicate ValidTable(table: seq<Entry>)
  {
    Distinct(Keys(table))
  }

  /** `autocorrections[key]`; `None` stands for `undefined`. */
  function Lookup(table: seq<Entry>, key: seq<Unit>): (r: Option<seq<Unit>>)
    ensures r.Some? <==> key in Keys(table)
    ensures r.Some? ==> Entry(key, r.value) in table
  {
    if |table| == 0 then None
    else if table[0].key == key then Some(table[0].replacement)
    else
      assert Keys(table) == [table[0].key] + Keys(table[1..]);
      Lookup(table[1..], key)
  }

  /** The settings the compiler reads. `enabled` exists only in the
      background variant. */
  datatype Settings = Settings(enabled: bool, autocorrectSymbols: bool, quotes: bool, fracts: bool)

  /** `Object.assign(autocorrections, symbols)` when symbols are switched on,
      else the empty object. */
  function Dictionary(symbols: seq<Entry>, s: Settings): (r: seq<Entry>)
    ensures s.autocorrectSymbols ==> r == symbols
    ensures !s.autocorrectSymbols ==> r == []
    ensures forall k :: Lookup(r, k) == (if s.autocorrectSymbols then Lookup(symbols, k) else None)
  {
    if s.autocorrectSymbols then symbols else []
  }

  /** The length of the longest key, 0 for no keys, as the loop over the
      keys computes it. */
  function Longest(keys: seq<seq<Unit>>): (r: nat)
    ensures forall i :: 0 <= i < |keys| ==> |keys[i]| <= r
    ensures |keys| == 0 ==> r == 0
    ensures |keys| > 0 ==> exists i :: 0 <= i < |keys| && |keys[i]| == r
  {
    if |keys| == 0 then 0
    else
      var m := Longest(keys[..|keys| - 1]);
      var k := keys[|keys| - 1];
      if |k| > m then |k| else m
  }

  /** `y` is another key that occurs in `x`. */
  predicate Contained(x: seq<Unit>, y: seq<Unit>)
  {
    y != x && IndexOf(x, y) >= 0
  }

  /** The inner loop's variables `index` and `length`. */
  datatype Earliest = Earliest(index: int, length: nat)

  /** One turn of the inner loop, for the key `y`. */
  function ScanStep(x: seq<Unit>, y: seq<Unit>, st: Earliest): Earliest
  {
    if x == y then st
    else
      var a := IndexOf(x, y);
      if a >= 0 && a < st.index then Earliest(a, |y|)
      else if a >= 0 && a == st.index && |y| > st.length then Earliest(st.index, |y|)
      else st
  }

  /** The inner loop over the keys `ys`, for the key `x`: the earliest
      position at which another key occurs in `x`, and the longest key
      occurring there. */
  function Scan(x: seq<Unit>, ys: seq<seq<Unit>>): (r: Earliest)
    ensures 0 <= r.index <= |x|
    ensures forall i :: 0 <= i < |ys| && Contained(x, ys[i]) ==> r.index <= IndexOf(x, ys[i])
    ensures forall i :: 0 <= i < |ys| && Contained(x, ys[i]) && IndexOf(x, ys[i]) == r.index ==> |ys[i]| <= r.length
    ensures r.index < |x| || r.length > 0 ==>
              exists i :: 0 <= i < |ys| && Contained(x, ys[i]) && IndexOf(x, ys[i]) == r.index && |ys[i]| == r.length
  {
    if |ys| == 0 then Earliest(|x|, 0)
    else
      var prev := Scan(x, ys[..|ys| - 1]);
      var y := ys[|ys| - 1];
      assert forall i :: 0 <= i < |ys| - 1 ==> ys[..|ys| - 1][i] == ys[i];
      var r := ScanStep(x, y, prev);
      assert r != prev ==> Contained(x, ys[|ys| - 1]);
      r
  }

  /** `y` is the key the inner loop settles on for `x`: among the other keys
      occurring in `x`, one that occurs first, and among those, a longest. */
  predicate Chosen(x: seq<Unit>, keys: seq<seq<Unit>>, y: seq<Unit>)
  {
    y in keys && Contained(x, y)
    && (forall z :: z in keys && Contained(x, z) ==> IndexOf(x, y) <= IndexOf(x, z))
    && (forall z :: z in keys && Contained(x, z) && IndexOf(x, z) == IndexOf(x, y) ==> |z| <= |y|)
  }

  /** The antipattern the outer loop pushes for the key `x`, if any. */
  function AntipatternOf(x: seq<Unit>, keys: seq<seq<Unit>>): (r: Option<seq<Unit>>)
    ensures var st := Scan(x, keys);
            r.Some? ==> st.index + st.length + 1 < |x| && r.value == x[..st.index + st.length + 1]
  {
    var st := Scan(x, keys);
    if st.length > 0 then
      var rem := |x| - (st.index + st.length);
      if rem > 1 then Some(Slice(x, 0, -(rem - 1))) else None
    else None
  }

  /** An antipattern is pushed exactly when the inner loop found a
      non-empty key with at least two characters after it. */
  lemma AntipatternOfPushed(x: seq<Unit>, keys: seq<seq<Unit>>)
    ensures var st := Scan(x, keys);
            AntipatternOf(x, keys).Some? <==> st.length > 0 && |x| - (st.index + st.length) > 1
  {
  }

  /** A chosen key sits where the inner loop ends up, with its length. */
  lemma ChosenIsScanned(x: seq<Unit>, keys: seq<seq<Unit>>, y: seq<Unit>)
    requires Chosen(x, keys, y)
    ensures IndexOf(x, y) == Scan(x, keys).index && |y| == Scan(x, keys).length
  {
    var st := Scan(x, keys);
    var j :| 0 <= j < |keys| && keys[j] == y;
    assert st.index <= IndexOf(x, y);
    if st.index < |x| || st.length > 0 {
      var i :| 0 <= i < |keys| && Contained(x, keys[i]) && IndexOf(x, keys[i]) == st.index && |keys[i]| == st.length;
      assert keys[i] in keys;
    }
  }

  lemma ChosenKeysScanned(x: seq<Unit>, keys: seq<seq<Unit>>)
    ensures forall y :: Chosen(x, keys, y) ==> IndexOf(x, y) == Scan(x, keys).index && |y| == Scan(x, keys).length
  {
    forall y | Chosen(x, keys, y)
      ensures IndexOf(x, y) == Scan(x, keys).index && |y| == Scan(x, keys).length
    {
      ChosenIsScanned(x, keys, y);
    }
  }

  /** When the inner loop found a non-empty key, that key is chosen. */
  lemma ScannedIsChosen(x: seq<Unit>, keys: seq<seq<Unit>>)
    requires Scan(x, keys).length > 0
    ensures exists y :: Chosen(x, keys, y) && IndexOf(x, y) == Scan(x, keys).index && |y| == Scan(x, keys).length
  {
    var st := Scan(x, keys);
    var i :| 0 <= i < |keys| && Contained(x, keys[i]) && IndexOf(x, keys[i]) == st.index && |keys[i]| == st.length;
    var y := keys[i];
    forall z | z in keys && Contained(x, z)
      ensures IndexOf(x, y) <= IndexOf(x, z)
      ensures IndexOf(x, z) == IndexOf(x, y) ==> |z| <= |y|
    {
      var k :| 0 <= k < |keys| && keys[k] == z;
    }
    assert Chosen(x, keys, y);
  }

  /** An antipattern is pushed for `x` exactly when the chosen key is not
      empty and at least two characters of `x` follow it; it is the prefix of
      `x` that ends one character after the chosen key. */
  lemma AntipatternOfChosen(x: seq<Unit>, keys: seq<seq<Unit>>)
    ensures AntipatternOf(x, keys).Some? <==>
              exists y :: Chosen(x, keys, y) && |y| > 0 && |x| - (IndexOf(x, y) + |y|) > 1
    ensures forall y :: Chosen(x, keys, y) && AntipatternOf(x, keys).Some? ==>
              AntipatternOf(x, keys).value == x[..IndexOf(x, y) + |y| + 1]
  {
    var st := Scan(x, keys);
    AntipatternOfPushed(x, keys);
    ChosenKeysScanned(x, keys);
    if st.length > 0 {
      ScannedIsChosen(x, keys);
    }
  }

  /** Every antipattern the outer loop over `xs` pushes, in order. */
  function Antipatterns(xs: seq<seq<Unit>>, keys: seq<seq<Unit>>): seq<seq<Unit>>
  {
    if |xs| == 0 then []
    else
      (match AntipatternOf(xs[0], keys) case Some(a) => [a] case None => []) + Antipatterns(xs[1..], keys)
  }

  /** The pushed list holds exactly the antipatterns of the keys. */
  lemma {:induction false} AntipatternsOfKeys(xs: seq<seq<Unit>>, keys: seq<seq<Unit>>)
    ensures forall a :: a in Antipatterns(xs, keys) <==> exists i :: 0 <= i < |xs| && AntipatternOf(xs[i], keys) == Some(a)
    decreases |xs|
  {
    if |xs| > 0 {
      AntipatternsOfKeys(xs[1..], keys);
      var rest := Antipatterns(xs[1..], keys);
      var here := match AntipatternOf(xs[0], keys) case Some(a) => [a] case None => [];
      assert Antipatterns(xs, keys) == here + rest;
      forall a | a in here + rest
        ensures exists i :: 0 <= i < |xs| && AntipatternOf(xs[i], keys) == Some(a)
      {
        if a !in here {
          var i :| 0 <= i < |xs[1..]| && AntipatternOf(xs[1..][i], keys) == Some(a);
          assert AntipatternOf(xs[i + 1], keys) == Some(a);
        }
      }
      forall a | exists i :: 0 <= i < |xs| && AntipatternOf(xs[i], keys) == Some(a)
        ensures a in here + rest
      {
        var i :| 0 <= i < |xs| && AntipatternOf(xs[i], keys) == Some(a);
        if i > 0 {
          assert AntipatternOf(xs[1..][i - 1], keys) == Some(a);
        }
      }
    }
  }

  /** The elements of `s` from position `i` on that occur there for the first
      time (`filter((item, pos) => s.indexOf(item) === pos)`). */
  function KeepFirst<T(==,!new)>(s: seq<T>, i: nat): seq<T>
    requires i <= |s|
    decreases |s| - i
  {
    if i == |s| then []
    else
      var rest := KeepFirst(s, i + 1);
      if FirstIndex(s, s[i]) == i then [s[i]] + rest else rest
  }

  /** Everything the filter keeps from position `i` on first occurs at or
      after `i`. */
  lemma {:induction false} KeptOccurFirstLater<T(!new)>(s: seq<T>, i: nat)
    requires i <= |s|
    ensures forall j :: 0 <= j < |KeepFirst(s, i)| ==>
              KeepFirst(s, i)[j] in s && i <= FirstIndex(s, KeepFirst(s, i)[j])
    decreases |s| - i
  {
    if i < |s| {
      var rest := KeepFirst(s, i + 1);
      KeptOccurFirstLater(s, i + 1);
      if FirstIndex(s, s[i]) == i {
        var r := [s[i]] + rest;
        assert KeepFirst(s, i) == r;
        assert forall j :: 0 < j < |r| ==> r[j] == rest[j - 1];
      }
    }
  }

  /** Every element whose first occurrence is at or after `i` is kept. */
  lemma {:induction false} FirstOccurrencesKept<T(!new)>(s: seq<T>, i: nat)
    requires i <= |s|
    ensures forall x :: x in s && i <= FirstIndex(s, x) ==> x in KeepFirst(s, i)
    decreases |s| - i
  {
    if i < |s| {
      FirstOccurrencesKept(s, i + 1);
      forall x | x in s && i <= FirstIndex(s, x)
        ensures x in KeepFirst(s, i)
      {
        if x != s[i] {
          assert s[FirstIndex(s, x)] == x;
        }
      }
    }
  }

  /** Every element of r occurs in s, and r lists them in the order of
      their first occurrences in s. */
  predicate InFirstOccurrenceOrder<T(==)>(s: seq<T>, r: seq<T>)
  {
    forall j, k :: 0 <= j < k < |r| ==> r[j] in s && r[k] in s && FirstIndex(s, r[j]) < FirstIndex(s, r[k])
  }

  /** The filter keeps elements in the order of their first occurrences. */
  lemma {:induction false} KeptInFirstOccurrenceOrder<T(!new)>(s: seq<T>, i: nat)
    requires i <= |s|
    ensures InFirstOccurrenceOrder(s, KeepFirst(s, i))
    decreases |s| - i
  {
    if i < |s| {
      var rest := KeepFirst(s, i + 1);
      KeptInFirstOccurrenceOrder(s, i + 1);
      if FirstIndex(s, s[i]) == i {
        KeptOccurFirstLater(s, i + 1);
        var r := [s[i]] + rest;
        assert KeepFirst(s, i) == r;
        forall j, k | 0 <= j < k < |r|
          ensures r[j] in s && r[k] in s && FirstIndex(s, r[j]) < FirstIndex(s, r[k])
        {
          assert r[k] == rest[k - 1];
          if 0 < j {
            assert r[j] == rest[j - 1];
          }
        }
      } else {
        assert KeepFirst(s, i) == rest;
      }
    } else {
      assert |KeepFirst(s, i)| == 0;
    }
  }

  /** Order-preserving removal of repeated elements: the result holds every
      element once, in the order of first occurrence. */
  function Dedup<T(==,!new)>(s: seq<T>): (r: seq<T>)
    ensures Distinct(r)
    ensures forall x :: x in r <==> x in s
    ensures forall j, k :: 0 <= j < k < |r| ==> FirstIndex(s, r[j]) < FirstIndex(s, r[k])
  {
    KeptOccurFirstLater(s, 0);
    FirstOccurrencesKept(s, 0);
    KeptInFirstOccurrenceOrder(s, 0);
    KeepFirst(s, 0)
  }

  /** In a list without repeats, every element first occurs at its own position. */
  lemma FirstIndexOfDistinct<T>(s: seq<T>, i: nat)
    requires Distinct(s)
    requires i < |s|
    ensures FirstIndex(s, s[i]) == i
  {
    var f := FirstIndex(s, s[i]);
    assert s[f] == s[i];
  }

  lemma {:induction false} KeepFirstOfDistinct<T(!new)>(s: seq<T>, i: nat)
    requires i <= |s|
    requires forall k :: i <= k < |s| ==> FirstIndex(s, s[k]) == k
    ensures KeepFirst(s, i) == s[i..]
    decreases |s| - i
  {
    if i < |s| {
      KeepFirstOfDistinct(s, i + 1);
      KeepFirstKeeps(s, i);
      SuffixCons(s, i);
    }
  }

  lemma KeepFirstKeeps<T(!new)>(s: seq<T>, i: nat)
    requires i < |s| && FirstIndex(s, s[i]) == i
    ensures KeepFirst(s, i) == [s[i]] + KeepFirst(s, i + 1)
  {
  }

  /** Removing repeats from a list without repeats changes nothing, so a
      second pass is the identity. */
  lemma DedupIdempotent<T(!new)>(s: seq<T>)
    ensures Distinct(s) ==> Dedup(s) == s
    ensures Dedup(Dedup(s)) == Dedup(s)
  {
    if Distinct(s) {
      forall k | 0 <= k < |s| ensures FirstIndex(s, s[k]) == k {
        FirstIndexOfDistinct(s, k);
      }
      KeepFirstOfDistinct(s, 0);
    }
    var d := Dedup(s);
    forall k | 0 <= k < |d| ensures FirstIndex(d, d[k]) == k {
      FirstIndexOfDistinct(d, k);
    }
    KeepFirstOfDistinct(d, 0);
  }

  /** What the compiler hands to the keystroke handler. */
  datatype Compiled = Compiled(
    autocorrections: seq<Entry>,
    longest: nat,
    symbolpatterns: Matcher.Pattern,
    antipatterns: Matcher.Pattern)

  /** The deduplicated antipatterns of a dictionary. */
  function DictionaryAntipatterns(dict: seq<Entry>): seq<seq<Unit>>
  {
    Dedup(Antipatterns(Keys(dict), Keys(dict)))
  }

  /** `applySettings` as written: both expressions built from their lists
      whatever their length. */
  function ApplySettingsAsWritten(symbols: seq<Entry>, s: Settings, unicode: bool): (r: Compiled)
    ensures r.autocorrections == Dictionary(symbols, s)
    ensures r.longest == Longest(Keys(Dictionary(symbols, s)))
    ensures r.symbolpatterns == Matcher.CompileAsWritten(Keys(Dictionary(symbols, s)), unicode)
    ensures r.antipatterns == Matcher.CompileAsWritten(DictionaryAntipatterns(Dictionary(symbols, s)), unicode)
  {
    var dict := Dictionary(symbols, s);
    Compiled(dict, Longest(Keys(dict)), Matcher.CompileAsWritten(Keys(dict), unicode),
             Matcher.CompileAsWritten(DictionaryAntipatterns(dict), unicode))
  }

  /** `applySettings` with an empty list compiled to an expression that
      matches nothing. */
  function ApplySettings(symbols: seq<Entry>, s: Settings, unicode: bool): (r: Compiled)
    ensures r.autocorrections == Dictionary(symbols, s)
    ensures r.longest == Longest(Keys(Dictionary(symbols, s)))
    ensures r.symbolpatterns == Matcher.Compile(Keys(Dictionary(symbols, s)), unicode)
    ensures r.antipatterns == Matcher.Compile(DictionaryAntipatterns(Dictionary(symbols, s)), unicode)
  {
    var dict := Dictionary(symbols, s);
    Compiled(dict, Longest(Keys(dict)), Matcher.Compile(Keys(dict), unicode),
             Matcher.Compile(DictionaryAntipatterns(dict), unicode))
  }

  /** What a compile of `dict` gives the keystroke handler when the
      compiler builds it as written: the dictionary, its longest key length,
      and a key and an antipattern expression whose `exec` reports the
      longest key (antipattern) ending a text, or an empty match at the end
      of every text for an empty list. */
  ghost predicate CompiledAsWritten(c: Compiled, dict: seq<Entry>, unicode: bool)
  {
    c.autocorrections == dict
    && (forall k :: k in Keys(dict) ==> |k| <= c.longest)
    && (c.longest == 0 || exists k :: k in Keys(dict) && |k| == c.longest)
    && (forall text :: Matcher.ReportsAsWritten(Keys(dict), unicode, text, Matcher.Exec(c.symbolpatterns, text)))
    && (forall text :: Matcher.ReportsAsWritten(DictionaryAntipatterns(dict), unicode, text, Matcher.Exec(c.antipatterns, text)))
  }

  /** The same for the corrected compiler, whose expressions report the
      longest key (antipattern) ending a text and nothing for an empty list. */
  ghost predicate CompiledCorrected(c: Compiled, dict: seq<Entry>, unicode: bool)
  {
    c.autocorrections == dict
    && (forall k :: k in Keys(dict) ==> |k| <= c.longest)
    && (c.longest == 0 || exists k :: k in Keys(dict) && |k| == c.longest)
    && (forall text :: Matcher.ReportsLongestSuffix(Keys(dict), unicode, text, Matcher.Exec(c.symbolpatterns, text)))
    && (forall text :: Matcher.ReportsLongestSuffix(DictionaryAntipatterns(dict), unicode, text, Matcher.Exec(c.antipatterns, text)))
  }

  /** Compiling as written gives the handler the dictionary of the
      settings, its longest key length, and expressions whose `exec` reports
      the longest key or antipattern ending a text; with symbols switched
      off the key expression matches at the end of every text. */
  lemma ApplySettingsAsWrittenObserved(symbols: seq<Entry>, s: Settings, unicode: bool)
    ensures CompiledAsWritten(ApplySettingsAsWritten(symbols, s, unicode), Dictionary(symbols, s), unicode)
    ensures !s.autocorrectSymbols ==>
              forall text :: Matcher.Exec(ApplySettingsAsWritten(symbols, s, unicode).symbolpatterns, text) == Some(Matcher.Match(|text|, []))
  {
    var c := ApplySettingsAsWritten(symbols, s, unicode);
    var keys := Keys(Dictionary(symbols, s));
    assert forall text :: Matcher.ReportsAsWritten(keys, unicode, text, Matcher.Exec(c.symbolpatterns, text));
    if !s.autocorrectSymbols {
      assert keys == [];
    }
  }

  /** The corrected compile gives the same dictionary and length, and
      expressions whose `exec` reports the longest key or antipattern ending
      a text and nothing otherwise; with symbols switched off the key
      expression never matches. */
  lemma ApplySettingsObserved(symbols: seq<Entry>, s: Settings, unicode: bool)
    ensures CompiledCorrected(ApplySettings(symbols, s, unicode), Dictionary(symbols, s), unicode)
    ensures !s.autocorrectSymbols ==> forall text :: Matcher.Exec(ApplySettings(symbols, s, unicode).symbolpatterns, text).None?
  {
    var c := ApplySettings(symbols, s, unicode);
    var keys := Keys(Dictionary(symbols, s));
    assert forall text :: Matcher.ReportsLongestSuffix(keys, unicode, text, Matcher.Exec(c.symbolpatterns, text));
    if !s.autocorrectSymbols {
      assert keys == [];
    }
  }

  /** With the corrected compiler, the compiled symbol expression finds, at
      the end of any string, the longest dictionary key ending there, and
      nothing when no key does; with symbols switched off it finds nothing. */
  lemma SymbolPatternFindsLongestKey(symbols: seq<Entry>, s: Settings, unicode: bool, text: seq<Unit>)
    ensures var c := ApplySettings(symbols, s, unicode);
            var keys := Keys(c.autocorrections);
            (Matcher.Exec(c.symbolpatterns, text).None? <==> forall k :: k in keys ==> !Matcher.SuffixKey(keys, unicode, text, k))
            && (Matcher.Exec(c.symbolpatterns, text).Some? ==>
                  var m := Matcher.Exec(c.symbolpatterns, text).value;
                  Matcher.SuffixKey(keys, unicode, text, m.text) && m.index == |text| - |m.text|
                  && Lookup(c.autocorrections, m.text).Some?
                  && forall k :: Matcher.SuffixKey(keys, unicode, text, k) ==> |k| <= |m.text|)
    ensures !s.autocorrectSymbols ==> Matcher.Exec(ApplySettings(symbols, s, unicode).symbolpatterns, text).None?
  {
    var c := ApplySettings(symbols, s, unicode);
    assert Matcher.ReportsLongestSuffix(Keys(c.autocorrections), unicode, text, Matcher.Exec(c.symbolpatterns, text));
  }

  /** As written, the compiled symbol expression behaves the same for a
      non-empty dictionary; for an empty one (symbols switched off, or an
      empty table) it reports an empty match at the end of every text. */
  lemma AsWrittenSymbolPattern(symbols: seq<Entry>, s: Settings, unicode: bool, text: seq<Unit>)
    ensures var c := ApplySettingsAsWritten(symbols, s, unicode);
            var keys := Keys(c.autocorrections);
            (|keys| == 0 ==> Matcher.Exec(c.symbolpatterns, text) == Some(Matcher.Match(|text|, [])))
            && (|keys| > 0 ==> Matcher.Exec(c.symbolpatterns, text) == Matcher.Exec(ApplySettings(symbols, s, unicode).symbolpatterns, text))
  {
    var c := ApplySettingsAsWritten(symbols, s, unicode);
    assert Matcher.ReportsAsWritten(Keys(c.autocorrections), unicode, text, Matcher.Exec(c.symbolpatterns, text));
  }

  /** Every key of the dictionary is at most `longest` long, and some key is
      exactly that long unless the dictionary is empty. */
  lemma LongestBoundsEveryKey(symbols: seq<Entry>, s: Settings, unicode: bool)
    ensures var c := ApplySettings(symbols, s, unicode);
            (forall k :: k in Keys(c.autocorrections) ==> |k| <= c.longest)
            && (c.longest == 0 || exists k :: k in Keys(c.autocorrections) && |k| == c.longest)
  {
  }

  /** The compiler's state in the background page: the last settings, and
      what it last compiled. `None` stands for the initial empty arrays,
      which are not expressions. */
  datatype CompilerState = CompilerState(settings: Settings, compiled: Option<Compiled>)

  /** `setSettings` of the background page: recompiles (in unicode mode) only
      when autocorrect is enabled. */
  function SetSettingsBackground(st: CompilerState, symbols: seq<Entry>, s: Settings): (r: CompilerState)
    ensures r.settings == s
    ensures s.enabled ==> r.compiled == Some(ApplySettingsAsWritten(symbols, s, true))
    ensures !s.enabled ==> r.compiled == st.compiled
  {
    CompilerState(s, if s.enabled then Some(ApplySettingsAsWritten(symbols, s, true)) else st.compiled)
  }

  /** `setSettings` of the older variant: recompiles (without the `u` flag)
      on every call. */
  function SetSettingsCommon(st: CompilerState, symbols: seq<Entry>, s: Settings): (r: CompilerState)
    ensures r.settings == s
    ensures r.compiled == Some(ApplySettingsAsWritten(symbols, s, false))
  {
    CompilerState(s, Some(ApplySettingsAsWritten(symbols, s, false)))
  }

  /** What the background page holds after a settings change: with
      autocorrect enabled, the as-written compile of the new dictionary in
      unicode mode, so that with symbols off the key expression matches at
      the end of every text; with it disabled, what it held before. */
  lemma SetSettingsBackgroundObserved(st: CompilerState, symbols: seq<Entry>, s: Settings)
    ensures var r := SetSettingsBackground(st, symbols, s);
            r.settings == s
            && (s.enabled ==> r.compiled.Some? && CompiledAsWritten(r.compiled.value, Dictionary(symbols, s), true))
            && (s.enabled && !s.autocorrectSymbols ==>
                  forall text :: Matcher.Exec(r.compiled.value.symbolpatterns, text) == Some(Matcher.Match(|text|, [])))
            && (!s.enabled ==> r.compiled == st.compiled)
  {
    ApplySettingsAsWrittenObserved(symbols, s, true);
  }

  /** What the older variant holds after any settings change: the as-written
      compile of the new dictionary without the `u` flag. */
  lemma SetSettingsCommonObserved(st: CompilerState, symbols: seq<Entry>, s: Settings)
    ensures var r := SetSettingsCommon(st, symbols, s);
            r.settings == s && r.compiled.Some? && CompiledAsWritten(r.compiled.value, Dictionary(symbols, s), false)
            && (!s.autocorrectSymbols ==>
                  forall text :: Matcher.Exec(r.compiled.value.symbolpatterns, text) == Some(Matcher.Match(|text|, [])))
  {
    ApplySettingsAsWrittenObserved(symbols, s, false);
  }

  function RunBackground(st: CompilerState, symbols: seq<Entry>, changes: seq<Settings>): CompilerState
    decreases |changes|
  {
    if |changes| == 0 then st else RunBackground(SetSettingsBackground(st, symbols, changes[0]), symbols, changes[1..])
  }

  function RunCommon(st: CompilerState, symbols: seq<Entry>, changes: seq<Settings>): CompilerState
    decreases |changes|
  {
    if |changes| == 0 then st else RunCommon(SetSettingsCommon(st, symbols, changes[0]), symbols, changes[1..])
  }

  /** After any non-empty run of settings changes, the older variant holds
      the compile of the last change. */
  lemma {:induction false} RunCommonKeepsLast(st: CompilerState, symbols: seq<Entry>, changes: seq<Settings>)
    requires |changes| > 0
    ensures RunCommon(st, symbols, changes).compiled == Some(ApplySettingsAsWritten(symbols, changes[|changes| - 1], false))
    decreases |changes|
  {
    var next := SetSettingsCommon(st, symbols, changes[0]);
    var rest := changes[1..];
    assert RunCommon(st, symbols, changes) == RunCommon(next, symbols, rest);
    if |rest| == 0 {
      assert RunCommon(next, symbols, rest) == next;
      assert changes[0] == changes[|changes| - 1];
    } else {
      RunCommonKeepsLast(next, symbols, rest);
      assert rest[|rest| - 1] == changes[|changes| - 1];
    }
  }

  /** Changes with autocorrect disabled leave the background page's compiled
      state as it was. */
  lemma {:induction false} RunBackgroundDisabled(st: CompilerState, symbols: seq<Entry>, changes: seq<Settings>)
    requires forall i :: 0 <= i < |changes| ==> !changes[i].enabled
    ensures RunBackground(st, symbols, changes).compiled == st.compiled
    decreases |changes|
  {
    if |changes| > 0 {
      var next := SetSettingsBackground(st, symbols, changes[0]);
      assert forall j :: 0 <= j < |changes| - 1 ==> changes[1..][j] == changes[j + 1];
      RunBackgroundDisabled(next, symbols, changes[1..]);
    }
  }

  /** After a run of settings changes, the background page holds what the
      last change with autocorrect enabled compiled. */
  lemma {:induction false} RunBackgroundKeepsLastEnabled(st: CompilerState, symbols: seq<Entry>, changes: seq<Settings>, i: nat)
    requires i < |changes| && changes[i].enabled
    requires forall j :: i < j < |changes| ==> !changes[j].enabled
    ensures RunBackground(st, symbols, changes).compiled == Some(ApplySettingsAsWritten(symbols, changes[i], true))
    decreases |changes|
  {
    var next := SetSettingsBackground(st, symbols, changes[0]);
    assert forall j :: 0 <= j < |changes| - 1 ==> changes[1..][j] == changes[j + 1];
    if i == 0 {
      RunBackgroundDisabled(next, symbols, changes[1..]);
    } else {
      RunBackgroundKeepsLastEnabled(next, symbols, changes[1..], i - 1);
    }
  }
}

/**
 * The small string and container helpers of the bug injector
 * (`map_get_default`, `parse_commas_strings`, `StripPrefix`), and the
 * separator split they and the driver script rely on.
 */
module Strings {
  import opened Wrappers

  /** Looks `key` up in `m`, giving `default` (the default-constructed value) when it is absent. */
  function MapGetDefault<K, V>(m: map<K, V>, key: K, default: V): (r: V)
    ensures key in m ==> r == m[key]
    ensures key !in m ==> r == default
  {
    if key in m then m[key] else default
  }

  /**
   * What the take-once tables rely on: once a key is erased, looking it up
   * gives the default, and every other key looks up as before.
   */
  lemma LookupAfterErase<K, V>(m: map<K, V>, key: K, default: V)
    ensures MapGetDefault(m - {key}, key, default) == default
    ensures forall k | k != key :: MapGetDefault(m - {key}, k, default) == MapGetDefault(m, k, default)
  {
  }

  /**
   * Splits `s` at every occurrence of `sep`. There is always at least one
   * part; `n` separators give `n + 1` parts, and no part holds `sep`.
   * Defined from the back, the way a left-to-right scanner builds it.
   */
  function SplitOn(s: string, sep: char): (parts: seq<string>)
    ensures |parts| >= 1
    decreases |s|
  {
    if s == [] then [[]]
    else
      var init := SplitOn(s[..|s| - 1], sep);
      var c := s[|s| - 1];
      if c == sep then init + [[]]
      else init[..|init| - 1] + [init[|init| - 1] + [c]]
  }

  /** No part holds the separator. */
  lemma {:induction false} SplitPartsFree(s: string, sep: char)
    ensures var parts := SplitOn(s, sep);
      forall i | 0 <= i < |parts| :: sep !in parts[i]
    decreases |s|
  {
    if s != [] {
      var pre, c := s[..|s| - 1], s[|s| - 1];
      assert s == pre + [c];
      SplitPartsFree(pre, sep);
      SplitSnoc(pre, c, sep);
      var init, parts := SplitOn(pre, sep), SplitOn(s, sep);
      forall i | 0 <= i < |parts|
        ensures sep !in parts[i]
      {
        if i < |init| - 1 {
          assert parts[i] == init[i];
        } else if c != sep {
          assert parts[i] == init[|init| - 1] + [c];
          assert sep !in init[|init| - 1];
        }
      }
    }
  }

  /** Joins non-empty `parts` with `sep` between neighbours. */
  function JoinWith(parts: seq<string>, sep: char): string
    requires |parts| >= 1
  {
    if |parts| == 1 then parts[0]
    else JoinWith(parts[..|parts| - 1], sep) + [sep] + parts[|parts| - 1]
  }

  /** Joining after a new empty last part appends one separator. */
  lemma JoinNewPart(init: seq<string>, sep: char)
    requires |init| >= 1
    ensures JoinWith(init + [[]], sep) == JoinWith(init, sep) + [sep]
  {
    assert (init + [[]])[..|init|] == init;
  }

  /** Joining after extending the last part by `c` appends `c`. */
  lemma JoinExtendLast(init: seq<string>, c: char, sep: char)
    requires |init| >= 1
    ensures JoinWith(init[..|init| - 1] + [init[|init| - 1] + [c]], sep) == JoinWith(init, sep) + [c]
  {
    var parts := init[..|init| - 1] + [init[|init| - 1] + [c]];
    if |init| > 1 {
      assert parts[..|parts| - 1] == init[..|init| - 1];
      var front := JoinWith(init[..|init| - 1], sep);
      assert JoinWith(parts, sep) == front + [sep] + (init[|init| - 1] + [c]);
      assert JoinWith(init, sep) == front + [sep] + init[|init| - 1];
    }
  }

  /** Splitting and joining again gives back the original text. */
  lemma {:induction false} JoinSplit(s: string, sep: char)
    ensures JoinWith(SplitOn(s, sep), sep) == s
    decreases |s|
  {
    if s != [] {
      var pre := s[..|s| - 1];
      JoinSplit(pre, sep);
      if s[|s| - 1] == sep {
        JoinNewPart(SplitOn(pre, sep), sep);
      } else {
        JoinExtendLast(SplitOn(pre, sep), s[|s| - 1], sep);
      }
      assert s == pre + [s[|s| - 1]];
    }
  }

  /** There is a single part exactly when `sep` does not occur in `s`. */
  lemma {:induction false} SplitSingle(s: string, sep: char)
    ensures |SplitOn(s, sep)| == 1 <==> sep !in s
    decreases |s|
  {
    if s != [] {
      var pre := s[..|s| - 1];
      SplitSingle(pre, sep);
      assert s == pre + [s[|s| - 1]];
      assert sep in s <==> sep in pre || s[|s| - 1] == sep;
    }
  }

  /** The text after the last `sep` in `s`, all of `s` when there is none (`s[s.rfind(sep) + 1:]`). */
  function AfterLast(s: string, sep: char): string
    decreases |s|
  {
    if s == [] then []
    else if s[|s| - 1] == sep then []
    else AfterLast(s[..|s| - 1], sep) + [s[|s| - 1]]
  }

  /** `last` is a tail of `s` that follows the last `sep` of `s`, or is all of `s` when `sep` does not occur. */
  predicate LastPartFacts(s: string, sep: char, last: string)
  {
    && |last| <= |s| && s[|s| - |last|..] == last
    && (sep in s ==> |last| < |s| && s[|s| - |last| - 1] == sep)
    && (sep !in s ==> last == s)
  }

  /** The text after the last separator is a separator-free tail preceded by the separator (or the whole text). */
  lemma {:induction false} AfterLastFacts(s: string, sep: char)
    ensures LastPartFacts(s, sep, AfterLast(s, sep))
    ensures sep !in AfterLast(s, sep)
    decreases |s|
  {
    if s != [] {
      var pre, c := s[..|s| - 1], s[|s| - 1];
      assert s == pre + [c];
      AfterLastFacts(pre, sep);
      if c == sep {
        LastPartSep(s, sep);
      } else {
        LastPartSnoc(pre, c, sep, AfterLast(pre, sep));
        assert sep !in AfterLast(pre, sep) + [c];
      }
    }
  }

  /** The last part of the split is the text after the last separator. */
  lemma {:induction false} SplitLast(s: string, sep: char)
    ensures var parts := SplitOn(s, sep);
      parts[|parts| - 1] == AfterLast(s, sep)
    decreases |s|
  {
    if s != [] {
      var pre, c := s[..|s| - 1], s[|s| - 1];
      assert s == pre + [c];
      SplitLast(pre, sep);
      SplitSnoc(pre, c, sep);
    }
  }

  /** Appending separator-free text extends the text after the last separator by it. */
  lemma {:induction false} AfterLastExtend(p: string, y: string, sep: char)
    requires sep !in y
    ensures AfterLast(p + y, sep) == AfterLast(p, sep) + y
    decreases |y|
  {
    if y == [] {
      assert p + y == p;
    } else {
      var y', c := y[..|y| - 1], y[|y| - 1];
      assert y == y' + [c];
      assert c != sep by { assert c in y; }
      AfterLastExtend(p, y', sep);
      var q := p + y';
      assert (q + [c])[..|q + [c]| - 1] == q;
      assert p + y == q + [c];
      assert AfterLast(p, sep) + y' + [c] == AfterLast(p, sep) + y;
    }
  }

  /** After a separator and separator-free `x`, the text after the last separator is `x`. */
  lemma AfterSep(p: string, x: string, sep: char)
    requires sep !in x
    ensures AfterLast(p + [sep] + x, sep) == x
  {
    AfterLastExtend(p + [sep], x, sep);
    assert AfterLast(p + [sep], sep) == [];
  }

  /** A text that ends with the separator has an empty last part. */
  lemma LastPartSep(s: string, sep: char)
    requires s != [] && s[|s| - 1] == sep
    ensures LastPartFacts(s, sep, [])
  {
    assert s[|s| - 1] in s;
  }

  /** Appending a non-separator character to the text extends its last part by it. */
  lemma LastPartSnoc(pre: string, c: char, sep: char, t: string)
    requires c != sep && LastPartFacts(pre, sep, t)
    ensures LastPartFacts(pre + [c], sep, t + [c])
  {
    var s := pre + [c];
    assert s[|s| - |t| - 1..] == pre[|pre| - |t|..] + [c];
    assert sep in s <==> sep in pre by {
      assert forall x :: x in s <==> x in pre || x == c;
    }
    if sep in pre {
      assert s[|s| - |t| - 2] == pre[|pre| - |t| - 1];
    }
  }

  /**
   * The fields `std::getline(ss, field, ',')` extracts from `list`: the
   * comma-separated parts, except that a final empty part (an empty list or
   * a trailing comma) is not extracted.
   */
  function Fields(list: string): (fs: seq<string>)
  {
    var parts := SplitOn(list, ',');
    if parts[|parts| - 1] == [] then parts[..|parts| - 1] else parts
  }

  /** The set of the elements of `ps`. */
  function Elems(ps: seq<string>): set<string>
  {
    set i | 0 <= i < |ps| :: ps[i]
  }

  /** What one more character does to the parts: a separator opens a new empty part, anything else extends the last one. */
  lemma SplitSnoc(s: string, c: char, sep: char)
    ensures var parts := SplitOn(s, sep);
      var next := SplitOn(s + [c], sep);
      && (c == sep ==> next == parts + [[]])
      && (c != sep ==> next == parts[..|parts| - 1] + [parts[|parts| - 1] + [c]])
  {
    assert (s + [c])[..|s + [c]| - 1] == s;
  }

  lemma ElemsSnoc(ps: seq<string>, x: string)
    ensures Elems(ps + [x]) == Elems(ps) + {x}
  {
    var qs := ps + [x];
    assert forall i | 0 <= i < |ps| :: qs[i] == ps[i];
    assert qs[|ps|] == x;
  }

  /** After scanning `s`, `field` is the field being read and `result` holds the fields completed before it. */
  predicate ScanState(s: string, field: string, result: set<string>)
  {
    var parts := SplitOn(s, ',');
    field == parts[|parts| - 1] && result == Elems(parts[..|parts| - 1])
  }

  /** Scanning one more character: a comma completes the current field, anything else extends it. */
  lemma ScanStep(s: string, c: char, field: string, result: set<string>)
    requires ScanState(s, field, result)
    ensures c == ',' ==> ScanState(s + [c], "", result + {field})
    ensures c != ',' ==> ScanState(s + [c], field + [c], result)
  {
    var parts := SplitOn(s, ',');
    SplitSnoc(s, c, ',');
    if c == ',' {
      ElemsSnoc(parts[..|parts| - 1], field);
      assert parts == parts[..|parts| - 1] + [field];
    }
  }

  /** At the end of the text the fields read are the fields of the text, none holding a comma. */
  lemma ScanDone(s: string, field: string, result: set<string>)
    requires ScanState(s, field, result)
    ensures var all := if field != "" then result + {field} else result;
      all == Elems(Fields(s)) && forall f | f in all :: ',' !in f
  {
    var parts := SplitOn(s, ',');
    if field != "" {
      ElemsSnoc(parts[..|parts| - 1], field);
      assert parts == parts[..|parts| - 1] + [field];
    }
    FieldsFree(s);
  }

  /** No field holds a comma. */
  lemma FieldsFree(s: string)
    ensures forall f | f in Elems(Fields(s)) :: ',' !in f
  {
    var fs := Fields(s);
    forall f | f in Elems(fs)
      ensures ',' !in f
    {
      var i :| 0 <= i < |fs| && fs[i] == f;
      PartFree(s, ',', i);
    }
  }

  lemma PartFree(s: string, sep: char, i: nat)
    requires i < |SplitOn(s, sep)|
    ensures sep !in SplitOn(s, sep)[i]
  {
    SplitPartsFree(s, sep);
  }

  /** `parse_commas_strings`: the set of comma-separated fields of `list`. */
  method ParseCommasStrings(list: string) returns (result: set<string>)
    ensures result == Elems(Fields(list))
    ensures forall f | f in result :: ',' !in f
    ensures list == [] ==> result == {}
  {
    result := {};
    var field := "";
    var i := 0;
    while i < |list|
      invariant 0 <= i <= |list|
      invariant ScanState(list[..i], field, result)
      decreases |list| - i
    {
      assert list[..i + 1] == list[..i] + [list[i]];
      ScanStep(list[..i], list[i], field, result);
      if list[i] == ',' {
        result := result + {field};
        field := "";
      } else {
        field := field + [list[i]];
      }
      i := i + 1;
    }
    assert list[..|list|] == list;
    ScanDone(list, field, result);
    if field != "" {
      result := result + {field};
    }
  }

  /** Whether `prefix` is a prefix of `s` (what `s.compare(0, |prefix|, prefix) == 0` tests). */
  predicate IsPrefix(prefix: string, s: string)
  {
    |prefix| <= |s| && s[..|prefix|] == prefix
  }

  /**
   * `StripPrefix`: removes `prefix` and then every '/' that follows it.
   * A `filename` that does not start with `prefix` aborts the tool (`None`).
   */
  method StripPrefix(filename: string, prefix: string) returns (r: Option<string>)
    ensures r.None? <==> !IsPrefix(prefix, filename)
    ensures r.Some? ==>
      var cut := |filename| - |r.value|;
      && |prefix| <= cut <= |filename|
      && filename[cut..] == r.value
      && (forall j | |prefix| <= j < cut :: filename[j] == '/')
      && (r.value == [] || r.value[0] != '/')
  {
    if !(|prefix| <= |filename| && filename[..|prefix|] == prefix) {
      return None;
    }
    var prefixLen := |prefix|;
    while prefixLen < |filename| && filename[prefixLen] == '/'
      invariant |prefix| <= prefixLen <= |filename|
      invariant forall j | |prefix| <= j < prefixLen :: filename[j] == '/'
    {
      prefixLen := prefixLen + 1;
    }
    r := Some(filename[prefixLen..]);
  }
}

/**
 * The file-name helpers of the driver script: `basename`, `get_suffix`,
 * the decimal rendering of a bug id and `fuzzed_input_for_bug`, which
 * names the mutated copy of an input file after the bug it triggers.
 */
module Naming {
  import opened Strings

  /** `os.path.basename`: the text after the last '/' (all of `path` when there is none). */
  function Basename(path: string): string
  {
    AfterLast(path, '/')
  }

  /** The base name is the slash-free tail of the path after its last slash. */
  lemma BasenameSpec(path: string)
    ensures var name := Basename(path);
      && '/' !in name
      && |name| <= |path| && path[|path| - |name|..] == name
      && ('/' !in path ==> name == path)
      && ('/' in path ==> path[|path| - |name| - 1] == '/')
  {
    AfterLastFacts(path, '/');
  }

  /** `os.path.join(a, b)` for a `b` that is not absolute. */
  function PathJoin(a: string, b: string): string
  {
    if b != [] && b[0] == '/' then b
    else if a == [] || a[|a| - 1] == '/' then a + b
    else a + "/" + b
  }

  /** `get_suffix`: "" when the base name holds no '.', otherwise "." and the text after its last '.'. */
  function GetSuffix(fn: string): string
  {
    var split := SplitOn(Basename(fn), '.');
    if |split| == 1 then "" else "." + split[|split| - 1]
  }

  /** A character missing from `s` is missing from every tail of `s`. */
  lemma NotInTail(s: string, t: string, c: char)
    requires c !in s && |t| <= |s| && s[|s| - |t|..] == t
    ensures c !in t
  {
    forall k | 0 <= k < |t|
      ensures t[k] != c
    {
      assert s[|s| - |t| + k] == t[k];
    }
  }

  /** A tail of a tail is a tail. */
  lemma TailOfTail(s: string, t: string, u: string)
    requires |t| <= |s| && s[|s| - |t|..] == t
    requires |u| <= |t| && t[|t| - |u|..] == u
    ensures |u| <= |s| && s[|s| - |u|..] == u
  {
    assert s[|s| - |t|..][|t| - |u|..] == s[|s| - |u|..];
  }

  /** The suffix is "." and the text after the last dot of the base name, or nothing when the base name has no dot. */
  lemma SuffixForm(fn: string)
    ensures var name := Basename(fn);
      GetSuffix(fn) == if '.' in name then "." + AfterLast(name, '.') else ""
  {
    SplitSingle(Basename(fn), '.');
    SplitLast(Basename(fn), '.');
  }

  /** In a slash-free name that holds a dot, the text from its last dot on is a dot- and slash-free tail of it. */
  lemma DottedTail(name: string, suf: string)
    requires '/' !in name && '.' in name && suf == "." + AfterLast(name, '.')
    ensures && '.' !in suf[1..] && '/' !in suf
      && |suf| <= |name| && name[|name| - |suf|..] == suf
  {
    var last := AfterLast(name, '.');
    AfterLastFacts(name, '.');
    assert suf[1..] == last;
    assert name[|name| - |last| - 1..] == suf by {
      assert name[|name| - |last| - 1..] == [name[|name| - |last| - 1]] + name[|name| - |last|..];
    }
    NotInTail(name, suf, '/');
  }

  /** What `GetSuffix` gives: the empty text exactly when the base name has no dot, else a dotted tail of `fn` with no further dot or slash. */
  lemma GetSuffixSpec(fn: string)
    ensures var suf := GetSuffix(fn);
      && (suf == "" <==> '.' !in Basename(fn))
      && (suf != "" ==>
            && suf[0] == '.' && '.' !in suf[1..] && '/' !in suf
            && |suf| <= |fn| && fn[|fn| - |suf|..] == suf)
  {
    var name := Basename(fn);
    BasenameSpec(fn);
    SuffixForm(fn);
    if '.' in name {
      DottedSuffixTail(fn, name, GetSuffix(fn));
    }
  }

  /** "." and the text after the last dot of a slash-free tail of `fn` that holds a dot is a dot- and slash-free tail of `fn`. */
  lemma DottedSuffixTail(fn: string, name: string, suf: string)
    requires |name| <= |fn| && fn[|fn| - |name|..] == name && '/' !in name && '.' in name
    requires suf == "." + AfterLast(name, '.')
    ensures && suf[0] == '.' && '.' !in suf[1..] && '/' !in suf
      && |suf| <= |fn| && fn[|fn| - |suf|..] == suf
  {
    DottedTail(name, suf);
    TailOfTail(fn, name, suf);
  }

  /** The decimal digit for `d`. */
  function Digit(d: nat): (c: char)
    requires d < 10
    ensures '0' <= c <= '9'
  {
    ['0', '1', '2', '3', '4', '5', '6', '7', '8', '9'][d]
  }

  predicate AllDigits(s: string)
  {
    forall i | 0 <= i < |s| :: '0' <= s[i] <= '9'
  }

  /** Python's `"{}".format(n)` for a non-negative integer: its digits, most significant first, with no leading zero. */
  function Decimal(n: nat): (s: string)
    ensures |s| >= 1 && AllDigits(s)
    ensures |s| > 1 ==> s[0] != '0'
  {
    if n < 10 then [Digit(n)] else Decimal(n / 10) + [Digit(n % 10)]
  }

  /** The value of a string of decimal digits. */
  function DigitsValue(s: string): nat
    requires AllDigits(s)
  {
    if s == [] then 0 else 10 * DigitsValue(s[..|s| - 1]) + (s[|s| - 1] as int - '0' as int)
  }

  lemma DigitValue(d: nat)
    requires d < 10
    ensures Digit(d) as int - '0' as int == d
  {
  }

  /** Reading the digits of `Decimal(n)` gives `n` back. */
  lemma {:induction false} DecimalRoundTrip(n: nat)
    ensures DigitsValue(Decimal(n)) == n
  {
    if n < 10 {
      DigitValue(n);
    } else {
      DecimalRoundTrip(n / 10);
      DigitValue(n % 10);
      var s := Decimal(n);
      assert s[..|s| - 1] == Decimal(n / 10);
    }
  }

  /** Different numbers render differently. */
  lemma DecimalInjective(i: nat, j: nat)
    requires Decimal(i) == Decimal(j)
    ensures i == j
  {
    DecimalRoundTrip(i);
    DecimalRoundTrip(j);
  }

  /** The marker text between the unsuffixed input name and the bug id. */
  const FuzzedMarker: string := "-fuzzed-"

  /** `unfuzzed_input_for_bug`: the input of the bug's trigger, looked up under the project's `inputs` directory. */
  function UnfuzzedInputForBug(topDir: string, inputFile: string): string
  {
    PathJoin(PathJoin(topDir, "inputs"), Basename(inputFile))
  }

  /** The part of `unfuzzed` before its suffix. */
  function Unsuffixed(unfuzzed: string): (pref: string)
  {
    var suff := GetSuffix(unfuzzed);
    if suff != "" && |suff| <= |unfuzzed| then unfuzzed[..|unfuzzed| - |suff|] else unfuzzed
  }

  /** The text `fuzzed_input_for_bug` puts between the unsuffixed part and the suffix. */
  function FuzzedTag(bugId: nat): string
  {
    FuzzedMarker + Decimal(bugId)
  }

  /** `fuzzed_input_for_bug`, given the unfuzzed input path. */
  function FuzzedInputForBug(unfuzzed: string, bugId: nat): string
  {
    Unsuffixed(unfuzzed) + FuzzedTag(bugId) + GetSuffix(unfuzzed)
  }

  /** The unsuffixed part and the suffix make up the input path again. */
  lemma UnsuffixedSplit(unfuzzed: string)
    ensures Unsuffixed(unfuzzed) + GetSuffix(unfuzzed) == unfuzzed
  {
    GetSuffixSpec(unfuzzed);
  }

  /** The base name of a path extended by slash-free text is extended by the same text. */
  lemma BasenameExtend(p: string, y: string)
    requires '/' !in y
    ensures Basename(p + y) == Basename(p) + y
  {
    AfterLastExtend(p, y, '/');
  }

  /** A dotted tail without further dot or slash is the suffix. */
  lemma SuffixOfDotted(p: string, x: string)
    requires '.' !in x && '/' !in x
    ensures GetSuffix(p + ['.'] + x) == "." + x
  {
    var q := p + ['.'] + x;
    assert q == p + (['.'] + x);
    BasenameExtend(p, ['.'] + x);
    var name := Basename(p) + ['.'] + x;
    assert Basename(q) == name;
    assert name[|Basename(p)|] == '.';
    SuffixForm(q);
    AfterSep(Basename(p), x, '.');
  }

  /** Slash- and dot-free text appended after a dot-free base name leaves the suffix empty. */
  lemma NoSuffixExtend(p: string, y: string)
    requires '.' !in Basename(p) && '.' !in y && '/' !in y
    ensures GetSuffix(p + y) == ""
  {
    BasenameExtend(p, y);
    assert forall ch :: ch in Basename(p) + y <==> ch in Basename(p) || ch in y;
    SuffixForm(p + y);
  }

  /** The text `fuzzed_input_for_bug` puts between the unsuffixed part and the suffix holds no dot and no slash. */
  lemma MarkerFree(bugId: nat)
    ensures '.' !in FuzzedTag(bugId) && '/' !in FuzzedTag(bugId)
  {
    var mid := FuzzedTag(bugId);
    forall k | 0 <= k < |mid|
      ensures mid[k] != '.' && mid[k] != '/'
    {
      if k >= |FuzzedMarker| {
        assert mid[k] == Decimal(bugId)[k - |FuzzedMarker|];
      }
    }
  }

  /** The fuzzed input has the suffix of the unfuzzed one. */
  lemma FuzzedKeepsSuffix(unfuzzed: string, bugId: nat)
    ensures GetSuffix(FuzzedInputForBug(unfuzzed, bugId)) == GetSuffix(unfuzzed)
  {
    if GetSuffix(unfuzzed) == "" {
      FuzzedUnsuffixed(unfuzzed, bugId);
    } else {
      FuzzedSuffixed(unfuzzed, bugId);
    }
  }

  lemma FuzzedUnsuffixed(unfuzzed: string, bugId: nat)
    requires GetSuffix(unfuzzed) == ""
    ensures GetSuffix(FuzzedInputForBug(unfuzzed, bugId)) == ""
  {
    var tag := FuzzedTag(bugId);
    GetSuffixSpec(unfuzzed);
    MarkerFree(bugId);
    assert FuzzedInputForBug(unfuzzed, bugId) == unfuzzed + tag;
    NoSuffixExtend(unfuzzed, tag);
  }

  lemma FuzzedSuffixed(unfuzzed: string, bugId: nat)
    requires GetSuffix(unfuzzed) != ""
    ensures GetSuffix(FuzzedInputForBug(unfuzzed, bugId)) == GetSuffix(unfuzzed)
  {
    GetSuffixSpec(unfuzzed);
    DottedFuzzed(Unsuffixed(unfuzzed), FuzzedTag(bugId), GetSuffix(unfuzzed));
  }

  /** A dotted suffix without further dot or slash survives any prefix. */
  lemma DottedFuzzed(pref: string, mid: string, suff: string)
    requires suff != [] && suff[0] == '.' && '.' !in suff[1..] && '/' !in suff
    ensures GetSuffix(pref + mid + suff) == suff
  {
    var x := suff[1..];
    assert suff == ['.'] + x;
    assert '/' !in x by { NotInTail(suff, x, '/'); }
    SuffixOfDotted(pref + mid, x);
    assert pref + mid + suff == pref + mid + ['.'] + x;
  }

  /** Different bugs get different fuzzed inputs from the same input. */
  lemma FuzzedInjective(unfuzzed: string, i: nat, j: nat)
    requires FuzzedInputForBug(unfuzzed, i) == FuzzedInputForBug(unfuzzed, j)
    ensures i == j
  {
    var pref, suff := Unsuffixed(unfuzzed), GetSuffix(unfuzzed);
    var fi, fj := FuzzedInputForBug(unfuzzed, i), FuzzedInputForBug(unfuzzed, j);
    var lo := |pref| + |FuzzedMarker|;
    assert |Decimal(i)| == |Decimal(j)|;
    assert fi[lo..lo + |Decimal(i)|] == Decimal(i);
    assert fj[lo..lo + |Decimal(j)|] == Decimal(j);
    DecimalInjective(i, j);
  }

  /**
   * `fuzzed_input_for_bug` as the driver calls it, on the path of
   * `unfuzzed_input_for_bug`: the input's base name directly under the
   * project's `inputs` directory, and a fuzzed name that keeps the suffix of
   * the recorded input file.
   */
  lemma FuzzedInputOfRecordedFile(topDir: string, inputFile: string, bugId: nat)
    ensures var u := UnfuzzedInputForBug(topDir, inputFile);
      && u == PathJoin(topDir, "inputs") + "/" + Basename(inputFile)
      && Basename(u) == Basename(inputFile)
      && GetSuffix(FuzzedInputForBug(u, bugId)) == GetSuffix(inputFile)
  {
    var dir := PathJoin(topDir, "inputs");
    var name := Basename(inputFile);
    var u := UnfuzzedInputForBug(topDir, inputFile);
    BasenameSpec(inputFile);
    assert dir != [] && dir[|dir| - 1] == 's';
    assert name == [] || name[0] != '/' by {
      if name != [] { assert name[0] in name; }
    }
    assert u == dir + "/" + name;
    AfterSep(dir, name, '/');
    assert Basename(u) == name;
    FuzzedKeepsSuffix(u, bugId);
  }
}

/**
 * The edit accumulator of the bug injector (class `Insertions`): text
 * fragments gathered per source location and rendered, at the end of a
 * translation unit, as zero-length replacements.
 */
module Edits {

  /** A source location; locations are ordered by their raw encoding, modelled as a number. */
  type SourceLocation = nat

  /** The fragment lists of all populated locations (the `impl` map). */
  type FragmentMap = map<SourceLocation, seq<string>>

  /** A replacement of `length` characters at `offset` by `text`. */
  datatype Replacement = Replacement(offset: SourceLocation, length: nat, text: string)

  /** The fragments already registered at `loc` (empty when none). */
  function FragmentsAt(m: FragmentMap, loc: SourceLocation): seq<string>
  {
    if loc in m then m[loc] else []
  }

  /** Every populated location holds at least one fragment. */
  predicate NoEmptyLists(m: FragmentMap)
  {
    forall loc | loc in m :: m[loc] != []
  }

  /**
   * The map after `InsertAfter(loc, s)`: an empty `s` changes nothing; `s` is
   * appended unless it already is the last fragment at `loc`, and ")" is
   * always appended.
   */
  function InsertedAfter(m: FragmentMap, loc: SourceLocation, s: string): (r: FragmentMap)
    ensures s == "" ==> r == m
    ensures s != "" ==> loc in r && r[loc] != [] && r[loc][|r[loc]| - 1] == s
    ensures s != "" ==> r.Keys == m.Keys + {loc}
    ensures forall l | l in m && l != loc :: r[l] == m[l]
    ensures s != "" && (FragmentsAt(m, loc) == [] || FragmentsAt(m, loc)[|FragmentsAt(m, loc)| - 1] != s || s == ")")
      ==> r[loc] == FragmentsAt(m, loc) + [s]
    ensures s != ")" && FragmentsAt(m, loc) != [] && FragmentsAt(m, loc)[|FragmentsAt(m, loc)| - 1] == s
      ==> r == m
    ensures NoEmptyLists(m) ==> NoEmptyLists(r)
  {
    if s == "" then m
    else
      var strs := FragmentsAt(m, loc);
      if strs == [] || strs[|strs| - 1] != s || s == ")" then m[loc := strs + [s]] else m
  }

  /**
   * The map after `InsertBefore(loc, s)`: an empty `s` changes nothing; `s` is
   * prepended unless it already is the first fragment at `loc`, and "(" is
   * always prepended.
   */
  function InsertedBefore(m: FragmentMap, loc: SourceLocation, s: string): (r: FragmentMap)
    ensures s == "" ==> r == m
    ensures s != "" ==> loc in r && r[loc] != [] && r[loc][0] == s
    ensures s != "" ==> r.Keys == m.Keys + {loc}
    ensures forall l | l in m && l != loc :: r[l] == m[l]
    ensures s != "" && (FragmentsAt(m, loc) == [] || FragmentsAt(m, loc)[0] != s || s == "(")
      ==> r[loc] == [s] + FragmentsAt(m, loc)
    ensures s != "(" && FragmentsAt(m, loc) != [] && FragmentsAt(m, loc)[0] == s
      ==> r == m
    ensures NoEmptyLists(m) ==> NoEmptyLists(r)
  {
    if s == "" then m
    else
      var strs := FragmentsAt(m, loc);
      if strs == [] || strs[0] != s || s == "(" then m[loc := [s] + strs] else m
  }

  /** The text of a fragment list, fragments concatenated in list order. */
  function Concat(frags: seq<string>): string
  {
    if frags == [] then "" else Concat(frags[..|frags| - 1]) + frags[|frags| - 1]
  }

  /** Concatenation distributes over joining fragment lists. */
  lemma {:induction false} ConcatAppend(a: seq<string>, b: seq<string>)
    ensures Concat(a + b) == Concat(a) + Concat(b)
    decreases |b|
  {
    if b == [] {
      assert a + b == a;
    } else {
      var b', x := b[..|b| - 1], b[|b| - 1];
      ConcatAppend(a, b');
      var ab := a + b;
      assert ab[..|ab| - 1] == a + b' && ab[|ab| - 1] == x;
      assert Concat(ab) == Concat(a + b') + x;
      assert Concat(b) == Concat(b') + x;
      assert Concat(a) + Concat(b') + x == Concat(a) + (Concat(b') + x);
    }
  }

  /** The least element of a non-empty set of locations. */
  ghost function MinLocation(s: set<SourceLocation>): (k: SourceLocation)
    requires s != {}
    ensures k in s && forall x | x in s :: k <= x
  {
    var x :| x in s;
    if s - {x} == {} then
      assert s == (s - {x}) + {x};
      x
    else
      var y := MinLocation(s - {x});
      assert forall z | z in s :: z == x || z in s - {x};
      if x < y then x else y
  }

  /** The locations of `s` in ascending order. */
  ghost function SortedLocations(s: set<SourceLocation>): seq<SourceLocation>
    decreases |s|
  {
    if s == {} then [] else [MinLocation(s)] + SortedLocations(s - {MinLocation(s)})
  }

  /** `SortedLocations` lists every location of `s` exactly once. */
  lemma {:induction false} SortedLocationsMembers(s: set<SourceLocation>)
    ensures |SortedLocations(s)| == |s|
    ensures forall x :: x in SortedLocations(s) <==> x in s
    decreases |s|
  {
    if s != {} {
      var k := MinLocation(s);
      SortedLocationsMembers(s - {k});
      var rest := SortedLocations(s - {k});
      assert SortedLocations(s) == [k] + rest;
      assert |s - {k}| == |s| - 1;
      assert forall x :: x in [k] + rest <==> x == k || x in rest;
    }
  }

  /** Strictly ascending. */
  predicate Ascending(ks: seq<SourceLocation>)
  {
    forall i, j | 0 <= i < j < |ks| :: ks[i] < ks[j]
  }

  lemma {:induction false} SortedLocationsAscending(s: set<SourceLocation>)
    ensures Ascending(SortedLocations(s))
    decreases |s|
  {
    if s != {} {
      var k := MinLocation(s);
      SortedLocationsAscending(s - {k});
      SortedLocationsMembers(s - {k});
      AscendingStep(s, k, SortedLocations(s - {k}));
    }
  }

  /** The least location of `s` in front of an ascending listing of the rest of `s` is ascending. */
  lemma AscendingStep(s: set<SourceLocation>, k: SourceLocation, rest: seq<SourceLocation>)
    requires k in s && forall x | x in s :: k <= x
    requires Ascending(rest) && forall x :: x in rest <==> x in s - {k}
    ensures Ascending([k] + rest)
  {
    forall x | x in rest
      ensures k < x
    {
      assert x in s - {k};
    }
    AscendingCons(k, rest);
  }

  /** A location below every element of an ascending list extends it ascending. */
  lemma AscendingCons(k: SourceLocation, rest: seq<SourceLocation>)
    requires Ascending(rest)
    requires forall x | x in rest :: k < x
    ensures Ascending([k] + rest)
  {
    var ks := [k] + rest;
    forall i, j | 0 <= i < j < |ks|
      ensures ks[i] < ks[j]
    {
      assert ks[j] == rest[j - 1] && rest[j - 1] in rest;
      if i > 0 {
        assert ks[i] == rest[i - 1];
      }
    }
  }

  /** Listing a set in ascending order starts with its least element. */
  lemma SortedStep(s: set<SourceLocation>, k: SourceLocation)
    requires k in s && forall x | x in s :: k <= x
    ensures SortedLocations(s) == [k] + SortedLocations(s - {k})
  {
    assert MinLocation(s) == k;
  }

  /** One zero-length replacement per location of `ks`, carrying that location's text. */
  function ReplacementsFor(m: FragmentMap, ks: seq<SourceLocation>): seq<Replacement>
    requires forall i | 0 <= i < |ks| :: ks[i] in m
  {
    if ks == [] then [] else ReplacementsFor(m, ks[..|ks| - 1]) + [Replacement(ks[|ks| - 1], 0, Concat(m[ks[|ks| - 1]]))]
  }

  /** Extending the locations by one extends the replacements by that location's. */
  lemma ReplacementsForSnoc(m: FragmentMap, ks: seq<SourceLocation>, k: SourceLocation)
    requires forall i | 0 <= i < |ks| :: ks[i] in m
    requires k in m
    ensures ReplacementsFor(m, ks + [k]) == ReplacementsFor(m, ks) + [Replacement(k, 0, Concat(m[k]))]
  {
    assert (ks + [k])[..|ks|] == ks;
  }

  /** The `i`-th replacement belongs to the `i`-th location. */
  lemma {:induction false} ReplacementsForAt(m: FragmentMap, ks: seq<SourceLocation>)
    requires forall i | 0 <= i < |ks| :: ks[i] in m
    ensures var out := ReplacementsFor(m, ks);
      |out| == |ks| && forall i | 0 <= i < |ks| :: out[i] == Replacement(ks[i], 0, Concat(m[ks[i]]))
    decreases |ks|
  {
    if ks != [] {
      ReplacementsForAt(m, ks[..|ks| - 1]);
    }
  }

  /** What `render` appends: the replacements of all populated locations, in ascending order. */
  ghost function Rendered(m: FragmentMap): seq<Replacement>
  {
    SortedLocationsMembers(m.Keys);
    ReplacementsFor(m, SortedLocations(m.Keys))
  }

  /**
   * `render` produces exactly one replacement per populated location, in
   * ascending location order, each of length 0 and carrying the
   * concatenation of that location's fragments.
   */
  lemma RenderedShape(m: FragmentMap)
    ensures var out := Rendered(m);
      && |out| == |m|
      && (forall i | 0 <= i < |out| ::
            out[i].offset in m && out[i].length == 0 && out[i].text == Concat(m[out[i].offset]))
      && (forall loc | loc in m :: exists i | 0 <= i < |out| :: out[i].offset == loc)
      && (forall i, j | 0 <= i < j < |out| :: out[i].offset < out[j].offset)
  {
    var ks := SortedLocations(m.Keys);
    SortedLocationsMembers(m.Keys);
    SortedLocationsAscending(m.Keys);
    ReplacementsForAt(m, ks);
    assert forall loc | loc in m :: loc in ks;
  }

  /** One iteration of `render`: the least remaining location moves from the to-do set to the done list. */
  lemma RenderStep(m: FragmentMap, out: seq<Replacement>, done: seq<SourceLocation>, rest: set<SourceLocation>, loc: SourceLocation)
    requires rest <= m.Keys && loc in rest && forall x | x in rest :: loc <= x
    requires forall i | 0 <= i < |done| :: done[i] in m
    requires SortedLocations(m.Keys) == done + SortedLocations(rest)
    ensures SortedLocations(m.Keys) == (done + [loc]) + SortedLocations(rest - {loc})
    ensures out + ReplacementsFor(m, done + [loc]) == (out + ReplacementsFor(m, done)) + [Replacement(loc, 0, Concat(m[loc]))]
  {
    SortedStep(rest, loc);
    assert done + ([loc] + SortedLocations(rest - {loc})) == (done + [loc]) + SortedLocations(rest - {loc});
    ReplacementsForSnoc(m, done, loc);
    assert out + (ReplacementsFor(m, done) + [Replacement(loc, 0, Concat(m[loc]))])
      == (out + ReplacementsFor(m, done)) + [Replacement(loc, 0, Concat(m[loc]))];
  }

  /** Moving a remaining location to the done list keeps every done location populated and shrinks the to-do set. */
  lemma RenderProgress(m: FragmentMap, done: seq<SourceLocation>, rest: set<SourceLocation>, loc: SourceLocation)
    requires rest <= m.Keys && loc in rest
    requires forall i | 0 <= i < |done| :: done[i] in m
    ensures rest - {loc} <= m.Keys && |rest - {loc}| < |rest|
    ensures forall i | 0 <= i < |done + [loc]| :: (done + [loc])[i] in m
  {
    assert rest == (rest - {loc}) + {loc};
    forall i | 0 <= i < |done + [loc]|
      ensures (done + [loc])[i] in m
    {
      if i < |done| {
        assert (done + [loc])[i] == done[i];
      }
    }
  }

  /** The text a location's fragments stream out, in list order. */
  method ConcatFragments(frags: seq<string>) returns (text: string)
    ensures text == Concat(frags)
  {
    text := "";
    var i := 0;
    while i < |frags|
      invariant 0 <= i <= |frags|
      invariant text == Concat(frags[..i])
    {
      assert frags[..i + 1][..i] == frags[..i];
      text := text + frags[i];
      i := i + 1;
    }
    assert frags[..|frags|] == frags;
  }

  /**
   * Keeps track of a list of insertions per source location, with the
   * de-duplication rule of `InsertAfter`/`InsertBefore`.
   */
  class Insertions {
    var impl: FragmentMap

    /** No populated location has an empty fragment list. */
    predicate Valid()
      reads this
    {
      NoEmptyLists(impl)
    }

    constructor ()
      ensures Valid() && impl == map[]
    {
      impl := map[];
    }

    /** `clear`: forgets every insertion (done at the start of each translation unit). */
    method Clear()
      modifies this
      ensures Valid() && impl == map[]
    {
      impl := map[];
    }

    method InsertAfter(loc: SourceLocation, str: string)
      requires Valid()
      modifies this
      ensures Valid()
      ensures impl == InsertedAfter(old(impl), loc, str)
    {
      if str != "" {
        var strs := if loc in impl then impl[loc] else [];
        if strs == [] || strs[|strs| - 1] != str || str == ")" {
          impl := impl[loc := strs + [str]];
        }
      }
    }

    method InsertBefore(loc: SourceLocation, str: string)
      requires Valid()
      modifies this
      ensures Valid()
      ensures impl == InsertedBefore(old(impl), loc, str)
    {
      if str != "" {
        var strs := if loc in impl then impl[loc] else [];
        if strs == [] || strs[0] != str || str == "(" {
          impl := impl[loc := [str] + strs];
        }
      }
    }

    /**
     * `render`: appends to `out` one replacement per populated location in
     * ascending order; what `out` held before stays in front.
     */
    method Render(out: seq<Replacement>) returns (result: seq<Replacement>)
      requires Valid()
      ensures result == out + Rendered(impl)
    {
      result := out;
      var rest := impl.Keys;
      ghost var done: seq<SourceLocation> := [];
      while rest != {}
        invariant rest <= impl.Keys
        invariant forall i | 0 <= i < |done| :: done[i] in impl
        invariant SortedLocations(impl.Keys) == done + SortedLocations(rest)
        invariant result == out + ReplacementsFor(impl, done)
        decreases |rest|
      {
        var loc :| loc in rest && forall x | x in rest :: loc <= x;
        RenderStep(impl, out, done, rest, loc);
        RenderProgress(impl, done, rest, loc);
        var text := ConcatFragments(impl[loc]);
        result := result + [Replacement(loc, 0, text)];
        done := done + [loc];
        rest := rest - {loc};
      }
      assert SortedLocations(rest) == [];
      assert done + [] == done;
    }
  }

  /** Inserting the same fragment twice in a row after a location is the same as inserting it once, except for ")". */
  lemma AfterIdempotent(m: FragmentMap, loc: SourceLocation, s: string)
    requires s != ")"
    ensures InsertedAfter(InsertedAfter(m, loc, s), loc, s) == InsertedAfter(m, loc, s)
  {
  }

  /** Inserting the same fragment twice in a row before a location is the same as inserting it once, except for "(". */
  lemma BeforeIdempotent(m: FragmentMap, loc: SourceLocation, s: string)
    requires s != "("
    ensures InsertedBefore(InsertedBefore(m, loc, s), loc, s) == InsertedBefore(m, loc, s)
  {
  }

  /** Two ")" inserted after a location both appear, in order, in its rendered text. */
  lemma ClosingParensKept(m: FragmentMap, loc: SourceLocation)
    ensures var r := InsertedAfter(InsertedAfter(m, loc, ")"), loc, ")");
      Concat(r[loc]) == Concat(FragmentsAt(m, loc)) + "))"
  {
    var f := FragmentsAt(m, loc);
    var r1 := InsertedAfter(m, loc, ")");
    assert FragmentsAt(r1, loc) == f + [")"];
    var r2 := InsertedAfter(r1, loc, ")");
    assert r2[loc] == f + [")", ")"];
    ConcatAppend(f, [")", ")"]);
    ConcatPair(")", ")");
  }

  lemma ConcatPair(a: string, b: string)
    ensures Concat([a, b]) == a + b
  {
    assert [a, b][..1] == [a];
    assert [a][..0] == [];
    assert Concat([a]) == "" + a == a;
  }

  /** Two "(" inserted before a location both appear at the front of its rendered text. */
  lemma OpeningParensKept(m: FragmentMap, loc: SourceLocation)
    ensures var r := InsertedBefore(InsertedBefore(m, loc, "("), loc, "(");
      Concat(r[loc]) == "((" + Concat(FragmentsAt(m, loc))
  {
    var f := FragmentsAt(m, loc);
    var r1 := InsertedBefore(m, loc, "(");
    assert FragmentsAt(r1, loc) == ["("] + f;
    var r2 := InsertedBefore(r1, loc, "(");
    assert r2[loc] == ["(", "("] + f;
    ConcatAppend(["(", "("], f);
    ConcatPair("(", "(");
  }
}

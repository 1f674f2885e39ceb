/**
 * Bug validation in the driver script: locating the line of the injected
 * trigger (`get_trigger_line`) and deciding from a run of the fuzzed input
 * whether a bug is real (`validate_bug`). Running the program and the
 * debugger are left to the caller: their results come in as parameters.
 */
module Validation {
  import opened Wrappers
  import opened Records
  import opened Naming

  /** `needle` occurs in `line` starting at index `i`. */
  predicate OccursAt(line: string, needle: string, i: int)
  {
    0 <= i <= |line| - |needle| && line[i..i + |needle|] == needle
  }

  /** Python's `needle in line` on strings. */
  predicate Contains(line: string, needle: string)
  {
    exists i | 0 <= i <= |line| - |needle| :: OccursAt(line, needle, i)
  }

  /** The text the injector emits where a bug's trigger value is read. */
  function LavaGetText(triggerId: nat): string
  {
    "lava_get(" + Decimal(triggerId) + ")"
  }

  /** The 1-based numbers of the lines of `lines` that contain `needle`, in file order. */
  function MatchingLines(lines: seq<string>, needle: string): (ls: seq<int>)
    ensures forall l | l in ls :: 1 <= l <= |lines| && Contains(lines[l - 1], needle)
    ensures forall i | 0 <= i < |lines| && Contains(lines[i], needle) :: i + 1 in ls
    ensures forall a, b | 0 <= a < b < |ls| :: ls[a] < ls[b]
  {
    if lines == [] then []
    else
      var init := MatchingLines(lines[..|lines| - 1], needle);
      assert forall i | 0 <= i < |lines| - 1 :: lines[..|lines| - 1][i] == lines[i];
      assert forall a | 0 <= a < |init| :: init[a] in init;
      if Contains(lines[|lines| - 1], needle) then init + [|lines|] else init
  }

  function Abs(x: int): nat
  {
    if x < 0 then -x else x
  }

  /** The ordering of the `(distance, line)` tuples `min` compares: by distance, then by line. */
  predicate NoFarther(l: int, m: int, begin: int)
  {
    Abs(l - begin) < Abs(m - begin) || (Abs(l - begin) == Abs(m - begin) && l <= m)
  }

  /** `l` is a candidate and no other candidate comes before it. */
  predicate IsClosest(l: int, cands: seq<int>, begin: int)
  {
    l in cands && forall m | m in cands :: NoFarther(l, m, begin)
  }

  /** `min(distances)[1]`: the candidate line closest to `begin`, the smaller one on a tie; nothing when there is no candidate. */
  function Closest(cands: seq<int>, begin: int): (r: Option<int>)
    ensures r.None? <==> cands == []
    ensures r.Some? ==> IsClosest(r.value, cands, begin)
  {
    if cands == [] then None
    else
      var rest := Closest(cands[1..], begin);
      assert forall m | m in cands :: m == cands[0] || m in cands[1..];
      if rest.None? || NoFarther(cands[0], rest.value, begin) then Some(cands[0])
      else rest
  }

  /** At most one candidate is closest: the choice is fully determined. */
  lemma ClosestUnique(l: int, l': int, cands: seq<int>, begin: int)
    requires IsClosest(l, cands, begin) && IsClosest(l', cands, begin)
    ensures l == l'
  {
    assert NoFarther(l, l', begin) && NoFarther(l', l, begin);
  }

  /**
   * `get_trigger_line`: the line of the attack point's file that reads the
   * trigger and lies closest to the attack point's recorded begin line.
   * With no such line `min` raises, which is `None` here.
   */
  function GetTriggerLine(lines: seq<string>, triggerId: nat, beginLine: int): (r: Option<int>)
  {
    Closest(MatchingLines(lines, LavaGetText(triggerId)), beginLine)
  }

  /** What `GetTriggerLine` promises: a line that reads the trigger, none closer to the begin line (ties to the smaller number), and a result whenever some line reads it. */
  lemma TriggerLineSpec(lines: seq<string>, triggerId: nat, beginLine: int)
    ensures var r := GetTriggerLine(lines, triggerId, beginLine);
      var needle := LavaGetText(triggerId);
      && (r.None? <==> forall i | 0 <= i < |lines| :: !Contains(lines[i], needle))
      && (r.Some? ==> 1 <= r.value <= |lines| && Contains(lines[r.value - 1], needle))
      && (r.Some? ==> forall i | 0 <= i < |lines| && Contains(lines[i], needle) :: NoFarther(r.value, i + 1, beginLine))
  {
    var needle := LavaGetText(triggerId);
    var ls := MatchingLines(lines, needle);
    if ls != [] {
      assert ls[0] in ls;
      assert Contains(lines[ls[0] - 1], needle);
    }
  }

  /** The exit codes `validate_bug` takes as memory corruption. */
  predicate IndicatesCorruption(rv: int)
  {
    rv in [-6, -11, 134, 139]
  }

  const SigAbrt := 6
  const SigSegv := 11

  /** The exit code of a process killed by signal `sig`: negated when run directly, 128 added when run through a shell. */
  predicate KilledBy(rv: int, sig: int)
  {
    rv == -sig || rv == 128 + sig
  }

  /** The exit codes taken as corruption are exactly those of a process killed by SIGABRT or SIGSEGV. */
  lemma CorruptionSignals(rv: int)
    ensures IndicatesCorruption(rv) <==> KilledBy(rv, SigAbrt) || KilledBy(rv, SigSegv)
  {
  }

  /** The two output streams of a run. */
  datatype Output = Output(stdout: string, stderr: string)

  /** How `validate_bug` ends. */
  datatype Outcome =
    | Returns(verdict: bool)   // returns True or False
    | ReturnsNone           // falls off the end: a printf leak whose output did not change
    | AssertionFails        // `assert rv == 0` for a fake bug
    | KeyMissing            // no recorded unfuzzed output for the input of a printf leak

  /** Whether the caller, `validate_bugs`, counts the bug as real (the outcome is truthy). */
  predicate CountedReal(o: Outcome)
  {
    o == Returns(true)
  }

  /**
   * The verdict of `validate_bug` once the fuzzed input has run with exit
   * code `rv` and output `outp`. `stacktraceAgrees` stands for the
   * debugger check `check_stacktrace_bug`, consulted only when
   * `checkStacktrace` is set. A real bug other than a printf leak, checked
   * without stack traces, is real exactly when the exit code indicates
   * corruption; a fake bug is never real and fails the assertion unless the
   * run exits with 0; and overall a bug is counted exactly when it is real
   * and either a printf leak whose output changed or a corrupting crash
   * (at the trigger line, when that is checked).
   */
  function ClassifyRun(fakeDua: bool, bugType: BugType, rv: int, outp: Output,
                       unfuzzedOutputs: map<string, Output>, inputFile: string,
                       checkStacktrace: bool, stacktraceAgrees: bool): (o: Outcome)
    ensures !fakeDua && bugType != PrintfLeakBug && !checkStacktrace ==>
      o.Returns? && (CountedReal(o) <==> rv in {-6, -11, 134, 139})
    ensures fakeDua ==> !CountedReal(o) && (o == AssertionFails <==> rv != 0) && (rv == 0 ==> o == Returns(false))
    ensures CountedReal(o) <==>
      && !fakeDua
      && (bugType == PrintfLeakBug ==> inputFile in unfuzzedOutputs && outp != unfuzzedOutputs[inputFile])
      && (bugType != PrintfLeakBug ==> IndicatesCorruption(rv) && (checkStacktrace ==> stacktraceAgrees))
  {
    if !fakeDua then
      if bugType == PrintfLeakBug then
        if inputFile !in unfuzzedOutputs then KeyMissing
        else if outp != unfuzzedOutputs[inputFile] then Returns(true)
        else ReturnsNone
      else if IndicatesCorruption(rv) then
        if checkStacktrace then Returns(stacktraceAgrees) else Returns(true)
      else Returns(false)
    else if rv == 0 then Returns(false)
    else AssertionFails
  }
}

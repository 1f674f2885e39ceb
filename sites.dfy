/**
 * What the bug injector emits at each visited site, and the tables it
 * consumes while doing so: the bug-loading loop of the driver, the siphons
 * of a query point (`SiphonsForLocation`), the return-buffer attacks
 * (`AttackRetBuffer`) and the pointer attacks (`AttackExpression`). Each
 * site's entries are erased once emitted, so nothing is injected twice.
 */
module Sites {
  import opened Wrappers
  import opened Words
  import opened Strings
  import opened Records
  import opened LExprs
  import opened Triggers
  import opened Tables
  import opened Edits
  import opened Modify

  /** The `-action` option. */
  datatype Action = Queries | InjectBugs | InstrumentMain

  /** `LIf(ast_name, Set(lval_bytes))`: copies the selected bytes into their slot when the lvalue is there. */
  datatype Siphon = Siphon(guard: string, target: LvalBytes, slot: nat, argDataflow: bool)

  /**
   * The return-buffer attack: when `test` holds, point the stack pointer at
   * byte `offset` of `buffer` and return.
   */
  datatype RetBufferAttack = RetBufferAttack(test: LExpr, buffer: string, offset: nat)

  /** The trigger and the extra values of a consistent bug hold slots. */
  lemma SlottedParts(b: Bug, slots: SlotMap)
    requires Slotted(b, slots)
    ensures KeyOf(b.trigger) in slots
    ensures forall i | 0 <= i < |b.extras| :: KeyOf(b.extras[i]) in slots
  {
    assert BugMarks(b)[0] == b.trigger;
    assert forall i | 0 <= i < |b.extras| :: BugMarks(b)[i + 1] == b.extras[i];
  }

  /** The siphon emitted for `lb`, writing its registered slot. */
  function SiphonFor(lb: LvalBytes, slots: SlotMap, argDataflow: bool): Siphon
    requires KeyOf(lb) in slots
  {
    Siphon(lb.lval.astName, lb, slots[KeyOf(lb)], argDataflow)
  }

  /** The number of bugs of kind `t` in `bugs`. */
  function CountKind(bugs: seq<Bug>, t: BugType): (n: nat)
    ensures n <= |bugs|
  {
    if bugs == [] then 0
    else CountKind(bugs[..|bugs| - 1], t) + (if bugs[|bugs| - 1].bugType == t then 1 else 0)
  }

  /** How many `rand()` results attacking `bugs` draws: twelve (three `alphanum(4)`) per relational bug. */
  function DrawsNeeded(bugs: seq<Bug>): nat
  {
    12 * CountKind(bugs, RelWrite)
  }

  /** Every bug is well formed and its values hold slots. */
  predicate Attackable(bugs: seq<Bug>, slots: SlotMap)
  {
    forall b | b in bugs :: WellFormed(b) && Slotted(b, slots)
  }

  lemma AttackablePrefix(bugs: seq<Bug>, slots: SlotMap, n: nat)
    requires Attackable(bugs, slots) && n <= |bugs|
    ensures Attackable(bugs[..n], slots)
  {
    assert forall b | b in bugs[..n] :: b in bugs;
  }

  /** The magic value `threeDuaTest` writes into the copy of a bug with magic value `magic`, given its twelve draws. */
  function ComboMagic(magic: Word64, ds: seq<nat>): Word
    requires 12 <= |ds|
  {
    RelationMagic(magic % 3, BigEndian(AlnumCodes(ds[0..4], 4)) % W32,
      BigEndian(AlnumCodes(ds[4..8], 4)) % W32, BigEndian(AlnumCodes(ds[8..12], 4)) % W32)
  }

  /** The relational test `threeDuaTest` builds for a bug with magic value `magic`, given its twelve draws. */
  function ComboTest(magic: Word64, triggerSlot: nat, xSlot: nat, ySlot: nat, argDataflow: bool, ds: seq<nat>): LExpr
    requires 12 <= |ds|
  {
    RelationTest(magic % 3, triggerSlot, xSlot, ySlot, ComboMagic(magic, ds), argDataflow)
  }

  /**
   * The pointer addends one bug contributes: its pointer attack for a
   * pointer-arithmetic bug, the relational test times the first extra value
   * for a relational-write bug, and nothing for the other kinds.
   */
  function BugAddends(b: Bug, slots: SlotMap, knobTrigger: bool, argDataflow: bool, ds: seq<nat>): (r: seq<LExpr>)
    requires WellFormed(b) && Slotted(b, slots)
    requires b.bugType == RelWrite ==> 12 <= |ds|
    ensures |r| == if b.bugType == PtrAdd || b.bugType == RelWrite then 1 else 0
  {
    SlottedParts(b, slots);
    var t := slots[KeyOf(b.trigger)];
    if b.bugType == PtrAdd then
      [if knobTrigger then KnobTriggerAttack(b.magicKt, t, argDataflow) else TraditionalAttack(b.magic, t, argDataflow)]
    else if b.bugType == RelWrite then
      var x, y := slots[KeyOf(b.extras[0])], slots[KeyOf(b.extras[1])];
      [LBinop(Times, ComboTest(b.magic, t, x, y, argDataflow, ds), Get(x, argDataflow))]
    else []
  }

  /**
   * The pointer addends of all `bugs` at one attack point, in order, each
   * relational bug taking the next twelve draws; one addend per
   * pointer-arithmetic or relational-write bug.
   */
  function AttackAddends(bugs: seq<Bug>, slots: SlotMap, knobTrigger: bool, argDataflow: bool, draws: seq<nat>): (r: seq<LExpr>)
    requires Attackable(bugs, slots)
    requires DrawsNeeded(bugs) <= |draws|
    ensures |r| == CountKind(bugs, PtrAdd) + CountKind(bugs, RelWrite)
  {
    if bugs == [] then []
    else
      var init := bugs[..|bugs| - 1];
      var b := bugs[|bugs| - 1];
      AttackablePrefix(bugs, slots, |bugs| - 1);
      AttackAddends(init, slots, knobTrigger, argDataflow, draws)
        + BugAddends(b, slots, knobTrigger, argDataflow, draws[DrawsNeeded(init)..])
  }

  /**
   * Whether bug `b`'s trigger condition holds at run time: the trigger
   * value equals the magic value (or, knob-trigger style, one half equals
   * the 16-bit magic value), or the relation chosen with the draws holds.
   */
  predicate Fires(b: Bug, slots: SlotMap, knobTrigger: bool, ds: seq<nat>, env: Env)
    requires WellFormed(b) && Slotted(b, slots)
    requires b.bugType == RelWrite ==> 12 <= |ds|
  {
    SlottedParts(b, slots);
    var v := env(slots[KeyOf(b.trigger)]);
    if b.bugType == PtrAdd then
      if knobTrigger then v / 0x1_0000 == b.magicKt || v % 0x1_0000 == b.magicKt else v == Low32(b.magic)
    else if b.bugType == RelWrite then
      var x, y := env(slots[KeyOf(b.extras[0])]), env(slots[KeyOf(b.extras[1])]);
      RelationLhs(b.magic % 3, v, x, y) == ComboMagic(b.magic, ds)
    else false
  }

  /** Whether some bug of `bugs` fires, with the draws handed out as `AttackAddends` hands them out. */
  predicate SomeFires(bugs: seq<Bug>, slots: SlotMap, knobTrigger: bool, draws: seq<nat>, env: Env)
    requires Attackable(bugs, slots)
    requires DrawsNeeded(bugs) <= |draws|
  {
    if bugs == [] then false
    else
      var init := bugs[..|bugs| - 1];
      AttackablePrefix(bugs, slots, |bugs| - 1);
      SomeFires(init, slots, knobTrigger, draws, env)
        || Fires(bugs[|bugs| - 1], slots, knobTrigger, draws[DrawsNeeded(init)..], env)
  }

  /** A relational bug's addend is 0 at run time when its relation does not hold. */
  lemma DormantRelation(magic: Word64, triggerSlot: nat, xSlot: nat, ySlot: nat, argDataflow: bool, ds: seq<nat>, env: Env)
    requires 12 <= |ds|
    requires RelationLhs(magic % 3, env(triggerSlot), env(xSlot), env(ySlot)) != ComboMagic(magic, ds)
    ensures Eval(LBinop(Times, ComboTest(magic, triggerSlot, xSlot, ySlot, argDataflow, ds), Get(xSlot, argDataflow)), env) == 0
  {
    var m := ComboMagic(magic, ds);
    var lhs := RelationLhs(magic % 3, env(triggerSlot), env(xSlot), env(ySlot));
    var test := RelationTest(magic % 3, triggerSlot, xSlot, ySlot, m, argDataflow);
    assert test == ComboTest(magic, triggerSlot, xSlot, ySlot, argDataflow, ds);
    RelationTestValue(magic % 3, triggerSlot, xSlot, ySlot, m, argDataflow, env);
    Low32Word(m);
    ZeroTimes(test, Get(xSlot, argDataflow), env);
  }

  /** A product whose left operand is 0 is 0. */
  lemma ZeroTimes(l: LExpr, r: LExpr, env: Env)
    requires Eval(l, env) == 0
    ensures Eval(LBinop(Times, l, r), env) == 0
  {
    BinopValue(Times, l, r, env);
  }

  /** The addend of a bug that does not fire is 0 at run time. */
  lemma DormantAddend(b: Bug, slots: SlotMap, knobTrigger: bool, argDataflow: bool, ds: seq<nat>, env: Env)
    requires WellFormed(b) && Slotted(b, slots)
    requires b.bugType == PtrAdd || b.bugType == RelWrite
    requires b.bugType == RelWrite ==> 12 <= |ds|
    requires !Fires(b, slots, knobTrigger, ds, env)
    ensures Eval(BugAddends(b, slots, knobTrigger, argDataflow, ds)[0], env) == 0
  {
    SlottedParts(b, slots);
    var t := slots[KeyOf(b.trigger)];
    if b.bugType == PtrAdd {
      if knobTrigger {
        KnobTriggerValue(b.magicKt, t, argDataflow, env);
      }
    } else {
      DormantRelation(b.magic, t, slots[KeyOf(b.extras[0])], slots[KeyOf(b.extras[1])], argDataflow, ds, env);
    }
  }

  /** A bug's addends are worth nothing at run time unless it fires. */
  lemma DormantBug(prefix: seq<LExpr>, b: Bug, slots: SlotMap, knobTrigger: bool, argDataflow: bool, ds: seq<nat>, env: Env)
    requires WellFormed(b) && Slotted(b, slots)
    requires b.bugType == RelWrite ==> 12 <= |ds|
    requires !Fires(b, slots, knobTrigger, ds, env)
    ensures Eval(LSum(prefix + BugAddends(b, slots, knobTrigger, argDataflow, ds)), env) == Eval(LSum(prefix), env)
  {
    var added := BugAddends(b, slots, knobTrigger, argDataflow, ds);
    if added != [] {
      DormantAddend(b, slots, knobTrigger, argDataflow, ds, env);
    }
    SumOfZero(prefix, added, env);
  }

  /** Appending at most one term worth 0 leaves a sum unchanged. */
  lemma SumOfZero(prefix: seq<LExpr>, added: seq<LExpr>, env: Env)
    requires |added| <= 1
    requires added != [] ==> Eval(added[0], env) == 0
    ensures Eval(LSum(prefix + added), env) == Eval(LSum(prefix), env)
  {
    if added == [] {
      assert prefix + added == prefix;
    } else {
      SumSnoc(prefix, added[0], env);
      assert prefix + added == prefix + [added[0]];
    }
  }

  /**
   * The injected formula is dormant: when no bug at the attack point fires,
   * the sum added to the attacked value is 0, so the program computes what
   * it computed before the injection.
   */
  lemma {:induction false} AttackDormant(bugs: seq<Bug>, slots: SlotMap, knobTrigger: bool, argDataflow: bool, draws: seq<nat>, env: Env)
    requires Attackable(bugs, slots)
    requires DrawsNeeded(bugs) <= |draws|
    requires !SomeFires(bugs, slots, knobTrigger, draws, env)
    ensures Eval(LSum(AttackAddends(bugs, slots, knobTrigger, argDataflow, draws)), env) == 0
  {
    if bugs != [] {
      var init := bugs[..|bugs| - 1];
      AttackablePrefix(bugs, slots, |bugs| - 1);
      AttackDormant(init, slots, knobTrigger, argDataflow, draws, env);
      DormantBug(AttackAddends(init, slots, knobTrigger, argDataflow, draws), bugs[|bugs| - 1], slots,
        knobTrigger, argDataflow, draws[DrawsNeeded(init)..], env);
    }
  }

  /**
   * A lone pointer-arithmetic bug that fires, in the traditional style, adds
   * its whole trigger value to the attacked pointer.
   */
  lemma LoneBugFires(b: Bug, slots: SlotMap, argDataflow: bool, draws: seq<nat>, env: Env)
    requires WellFormed(b) && Slotted(b, slots) && b.bugType == PtrAdd
    requires Fires(b, slots, false, draws, env)
    ensures KeyOf(b.trigger) in slots
    ensures Eval(LSum(AttackAddends([b], slots, false, argDataflow, draws)), env) == Low32(b.magic)
  {
    SlottedParts(b, slots);
    assert [b][..0] == [];
    SumSnoc([], TraditionalAttack(b.magic, slots[KeyOf(b.trigger)], argDataflow), env);
  }

  /** The return-buffer attacks of `bugs`, in order: one per return-buffer bug. */
  function RetBufferAttacks(bugs: seq<Bug>, slots: SlotMap, argDataflow: bool): (r: seq<RetBufferAttack>)
    requires Attackable(bugs, slots)
    ensures |r| == CountKind(bugs, RetBuffer)
  {
    if bugs == [] then []
    else
      var b := bugs[|bugs| - 1];
      AttackablePrefix(bugs, slots, |bugs| - 1);
      SlottedParts(b, slots);
      RetBufferAttacks(bugs[..|bugs| - 1], slots, argDataflow)
        + if b.bugType == RetBuffer then
            [RetBufferAttack(Test(b.magic, slots[KeyOf(b.trigger)], argDataflow), b.extras[0].lval.astName, b.extras[0].selected.low)]
          else []
  }

  /**
   * The pointer addends `AttackExpression` builds: the bugs' attacks in
   * inject mode, the attack-point hypercall in query mode, nothing otherwise.
   */
  function PointerAddends(bugMap: BugMap, slots: SlotMap, key: AtpKey, action: Action, knobTrigger: bool,
                          argDataflow: bool, stringId: nat, draws: seq<nat>): (r: seq<LExpr>)
    requires BugsConsistent(bugMap, slots)
    requires action == InjectBugs ==> DrawsNeeded(MapGetDefault(bugMap, key, [])) <= |draws|
  {
    if action == InjectBugs then
      var bugs := MapGetDefault(bugMap, key, []);
      assert bugs == [] || key in bugMap;
      AttackAddends(bugs, slots, knobTrigger, argDataflow, draws)
    else if action == Queries then [AtpQuery(stringId, key.atpType)]
    else []
  }

  /** The bugs queued at an attack point of consistent tables can be attacked. */
  lemma QueuedAttackable(bugMap: BugMap, slots: SlotMap, key: AtpKey)
    requires BugsConsistent(bugMap, slots)
    ensures Attackable(MapGetDefault(bugMap, key, []), slots)
  {
  }

  /** The siphons queued at a location of consistent tables hold slots and are distinct by key. */
  lemma QueuedSiphons(siphons: SiphonMap, slots: SlotMap, loc: AstLoc)
    requires SiphonsConsistent(siphons, slots)
    ensures forall lb | lb in MapGetDefault(siphons, loc, []) :: KeyOf(lb) in slots
    ensures DistinctKeys(MapGetDefault(siphons, loc, []))
  {
  }

  /** Erasing an attack point or a location keeps the tables consistent. */
  lemma EraseKeepsConsistent(bugMap: BugMap, siphons: SiphonMap, slots: SlotMap, key: AtpKey, loc: AstLoc)
    requires Consistent(bugMap, siphons, slots)
    ensures Consistent(bugMap - {key}, siphons, slots)
    ensures Consistent(bugMap, siphons - {loc}, slots)
  {
  }

  /**
   * Take once: after inject mode has erased an attack point's queue, a
   * second `AttackExpression` there builds no addend, so it leaves the
   * expression alone.
   */
  lemma AttackedOnce(bugMap: BugMap, slots: SlotMap, key: AtpKey, knobTrigger: bool, argDataflow: bool,
                     stringId: nat, draws: seq<nat>)
    requires BugsConsistent(bugMap, slots)
    ensures BugsConsistent(bugMap - {key}, slots)
    ensures MapGetDefault(bugMap - {key}, key, []) == []
    ensures PointerAddends(bugMap - {key}, slots, key, InjectBugs, knobTrigger, argDataflow, stringId, draws) == []
  {
    LookupAfterErase(bugMap, key, []);
  }

  /**
   * The loop of `SiphonsForLocation`: one siphon per queued value, in
   * order; values distinct by key in a dense registry write distinct slots.
   */
  method EmitSiphons(queued: seq<LvalBytes>, slots: SlotMap, argDataflow: bool) returns (siphons: seq<Siphon>)
    requires forall lb | lb in queued :: KeyOf(lb) in slots
    ensures |siphons| == |queued|
    ensures forall i | 0 <= i < |queued| :: siphons[i] == SiphonFor(queued[i], slots, argDataflow)
    ensures DistinctKeys(queued) && Dense(slots) ==> forall i, j | 0 <= i < j < |siphons| :: siphons[i].slot != siphons[j].slot
  {
    siphons := [];
    for i := 0 to |queued|
      invariant |siphons| == i
      invariant forall k | 0 <= k < i :: siphons[k] == SiphonFor(queued[k], slots, argDataflow)
    {
      siphons := siphons + [SiphonFor(queued[i], slots, argDataflow)];
    }
    if DistinctKeys(queued) && Dense(slots) {
      forall i, j | 0 <= i < j < |siphons|
        ensures siphons[i].slot != siphons[j].slot
      {
        assert KeyOf(queued[i]) != KeyOf(queued[j]);
      }
    }
  }

  /** The loop of `AttackRetBuffer`: the return-buffer attacks of `bugs`. */
  method EmitRetBufferAttacks(bugs: seq<Bug>, slots: SlotMap, argDataflow: bool) returns (attacks: seq<RetBufferAttack>)
    requires Attackable(bugs, slots)
    ensures attacks == RetBufferAttacks(bugs, slots, argDataflow)
  {
    attacks := [];
    for i := 0 to |bugs|
      invariant Attackable(bugs[..i], slots)
      invariant attacks == RetBufferAttacks(bugs[..i], slots, argDataflow)
    {
      var bug := bugs[i];
      assert bugs[..i + 1][..i] == bugs[..i];
      AttackablePrefix(bugs, slots, i + 1);
      SlottedParts(bug, slots);
      if bug.bugType == RetBuffer {
        var buffer := bug.extras[0];
        var test := Test(bug.magic, slots[KeyOf(bug.trigger)], argDataflow);
        attacks := attacks + [RetBufferAttack(test, buffer.lval.astName, buffer.selected.low)];
      }
    }
    assert bugs[..|bugs|] == bugs;
  }

  /**
   * The addends of one bug. A relational bug is attacked through a private
   * copy, whose magic value `threeDuaTest` rewrites with the draws `ds`.
   */
  method AttackOne(bug: Bug, slots: SlotMap, knobTrigger: bool, argDataflow: bool, ds: seq<nat>) returns (added: seq<LExpr>)
    requires WellFormed(bug) && Slotted(bug, slots)
    requires bug.bugType == RelWrite ==> 12 <= |ds|
    ensures added == BugAddends(bug, slots, knobTrigger, argDataflow, ds)
  {
    SlottedParts(bug, slots);
    var t := slots[KeyOf(bug.trigger)];
    if bug.bugType == PtrAdd {
      var attack := if knobTrigger then KnobTriggerAttack(bug.magicKt, t, argDataflow) else TraditionalAttack(bug.magic, t, argDataflow);
      added := [attack];
    } else if bug.bugType == RelWrite {
      var copy := new BugCopy(bug);
      var x, y := slots[KeyOf(bug.extras[0])], slots[KeyOf(bug.extras[1])];
      var combo := ThreeDuaTest(copy, t, x, y, argDataflow, ds);
      added := [LBinop(Times, combo, Get(x, argDataflow))];
    } else {
      added := [];
    }
  }

  /** The loop of `AttackExpression` in inject mode: the pointer addends of `bugs`, in order. */
  method BuildAttackAddends(bugs: seq<Bug>, slots: SlotMap, knobTrigger: bool, argDataflow: bool, draws: seq<nat>)
    returns (addends: seq<LExpr>)
    requires Attackable(bugs, slots)
    requires DrawsNeeded(bugs) <= |draws|
    ensures addends == AttackAddends(bugs, slots, knobTrigger, argDataflow, draws)
  {
    addends := [];
    var used := 0;
    for i := 0 to |bugs|
      invariant used == DrawsNeeded(bugs[..i]) <= DrawsNeeded(bugs)
      invariant Attackable(bugs[..i], slots)
      invariant addends == AttackAddends(bugs[..i], slots, knobTrigger, argDataflow, draws)
    {
      var bug := bugs[i];
      assert bugs[..i + 1][..i] == bugs[..i];
      AttackablePrefix(bugs, slots, i + 1);
      DrawsMonotone(bugs, i + 1);
      var added := AttackOne(bug, slots, knobTrigger, argDataflow, draws[used..]);
      addends := addends + added;
      if bug.bugType == RelWrite {
        used := used + 12;
      }
    }
    assert bugs[..|bugs|] == bugs;
  }

  /**
   * The injector's global tables: the bugs still to be attacked per attack
   * point, the siphons still to be emitted per location, the slot registry,
   * and the count of attack-point queries added.
   */
  class SiteTables {
    var bugsWithAtpAt: BugMap
    var siphonsAt: SiphonMap
    var dataSlots: SlotMap
    var numAtpQueries: nat

    predicate Valid()
      reads this
    {
      Consistent(bugsWithAtpAt, siphonsAt, dataSlots)
    }

    constructor ()
      ensures Valid()
      ensures bugsWithAtpAt == map[] && siphonsAt == map[] && dataSlots == map[] && numAtpQueries == 0
    {
      bugsWithAtpAt := map[];
      siphonsAt := map[];
      dataSlots := map[];
      numAtpQueries := 0;
    }

    /**
     * `mark_for_siphon`: queues `lb` at its lvalue's location (once per key)
     * and registers a slot for it unless it has one (`MarkKeepsConsistent`
     * shows that this keeps the tables consistent).
     */
    method MarkForSiphon(lb: LvalBytes)
      modifies this
      ensures siphonsAt == SiphonMarked(old(siphonsAt), lb)
      ensures dataSlots == SlotMarked(old(dataSlots), lb)
      ensures bugsWithAtpAt == old(bugsWithAtpAt) && numAtpQueries == old(numAtpQueries)
    {
      var loc := lb.lval.loc;
      siphonsAt := siphonsAt[loc := SetInserted(MapGetDefault(siphonsAt, loc, []), lb)];
      if KeyOf(lb) !in dataSlots {
        dataSlots := dataSlots[KeyOf(lb) := |dataSlots|];
      }
    }

    /** One round of the loading loop: queue `bug` at its attack point, then mark its trigger and its extra values. */
    method LoadBug(bug: Bug)
      modifies this
      ensures bugsWithAtpAt == BugPushed(old(bugsWithAtpAt), bug)
      ensures siphonsAt == SiphonsMarked(old(siphonsAt), BugMarks(bug))
      ensures dataSlots == SlotsMarked(old(dataSlots), BugMarks(bug))
      ensures numAtpQueries == old(numAtpQueries)
    {
      ghost var s1, d1 := siphonsAt, dataSlots;
      var key := AtpKeyOf(bug);
      bugsWithAtpAt := bugsWithAtpAt[key := MapGetDefault(bugsWithAtpAt, key, []) + [bug]];
      ghost var pushed := bugsWithAtpAt;
      MarkForSiphon(bug.trigger);
      SiphonsMarkedSnoc(s1, [], bug.trigger);
      SlotsMarkedSnoc(d1, [], bug.trigger);
      assert BugMarks(bug)[..1] == [] + [bug.trigger];
      for j := 0 to |bug.extras|
        invariant siphonsAt == SiphonsMarked(s1, BugMarks(bug)[..j + 1])
        invariant dataSlots == SlotsMarked(d1, BugMarks(bug)[..j + 1])
        invariant bugsWithAtpAt == pushed
        invariant numAtpQueries == old(numAtpQueries)
      {
        MarkForSiphon(bug.extras[j]);
        assert BugMarks(bug)[..j + 2] == BugMarks(bug)[..j + 1] + [bug.extras[j]];
        SiphonsMarkedSnoc(s1, BugMarks(bug)[..j + 1], bug.extras[j]);
        SlotsMarkedSnoc(d1, BugMarks(bug)[..j + 1], bug.extras[j]);
      }
      assert BugMarks(bug)[..|bug.extras| + 1] == BugMarks(bug);
    }

    /**
     * The loading loop of the driver: each bug is queued at its attack point,
     * then its trigger and its extra values are marked for siphoning.
     */
    method LoadBugs(bugs: seq<Bug>)
      requires Valid()
      requires forall b | b in bugs :: WellFormed(b)
      modifies this
      ensures Valid()
      ensures bugsWithAtpAt == BugsPushed(old(bugsWithAtpAt), bugs)
      ensures siphonsAt == SiphonsMarked(old(siphonsAt), Marks(bugs))
      ensures dataSlots == SlotsMarked(old(dataSlots), Marks(bugs))
      ensures numAtpQueries == old(numAtpQueries)
    {
      ghost var b0, s0, d0 := bugsWithAtpAt, siphonsAt, dataSlots;
      for i := 0 to |bugs|
        invariant bugsWithAtpAt == BugsPushed(b0, bugs[..i])
        invariant siphonsAt == SiphonsMarked(s0, Marks(bugs[..i]))
        invariant dataSlots == SlotsMarked(d0, Marks(bugs[..i]))
        invariant numAtpQueries == old(numAtpQueries)
      {
        ghost var done := Marks(bugs[..i]);
        assert bugs[..i + 1][..i] == bugs[..i];
        LoadBug(bugs[i]);
        SiphonsMarkedAppend(s0, done, BugMarks(bugs[i]));
        SlotsMarkedAppend(d0, done, BugMarks(bugs[i]));
      }
      assert bugs[..|bugs|] == bugs;
      LoadKeepsConsistent(b0, s0, d0, bugs);
    }

    /**
     * `SiphonsForLocation`: the siphons queued at `loc`, in queue order, each
     * writing its registered slot, no two the same slot; `loc`'s queue is then
     * erased, so a second call at `loc` emits nothing.
     */
    method SiphonsForLocation(loc: AstLoc, argDataflow: bool) returns (siphons: seq<Siphon>)
      requires Valid()
      modifies this
      ensures Valid()
      ensures var queued := MapGetDefault(old(siphonsAt), loc, []);
        && |siphons| == |queued|
        && (forall i | 0 <= i < |queued| :: KeyOf(queued[i]) in dataSlots && siphons[i] == SiphonFor(queued[i], dataSlots, argDataflow))
      ensures forall i, j | 0 <= i < j < |siphons| :: siphons[i].slot != siphons[j].slot
      ensures siphonsAt == old(siphonsAt) - {loc} && MapGetDefault(siphonsAt, loc, []) == []
      ensures bugsWithAtpAt == old(bugsWithAtpAt) && dataSlots == old(dataSlots) && numAtpQueries == old(numAtpQueries)
    {
      QueuedSiphons(siphonsAt, dataSlots, loc);
      EraseKeepsConsistent(bugsWithAtpAt, siphonsAt, dataSlots, AtpKey(loc, QueryPoint), loc);
      siphons := EmitSiphons(MapGetDefault(siphonsAt, loc, []), dataSlots, argDataflow);
      siphonsAt := siphonsAt - {loc};
    }

    /**
     * `AttackRetBuffer`: the return-buffer attacks of the bugs queued at
     * `loc`'s query point, in queue order; that queue is then erased.
     */
    method AttackRetBuffer(loc: AstLoc, argDataflow: bool) returns (attacks: seq<RetBufferAttack>)
      requires Valid()
      modifies this
      ensures Valid()
      ensures var key := AtpKey(loc, QueryPoint);
        && Attackable(MapGetDefault(old(bugsWithAtpAt), key, []), dataSlots)
        && attacks == RetBufferAttacks(MapGetDefault(old(bugsWithAtpAt), key, []), dataSlots, argDataflow)
        && bugsWithAtpAt == old(bugsWithAtpAt) - {key} && MapGetDefault(bugsWithAtpAt, key, []) == []
      ensures siphonsAt == old(siphonsAt) && dataSlots == old(dataSlots) && numAtpQueries == old(numAtpQueries)
    {
      var key := AtpKey(loc, QueryPoint);
      QueuedAttackable(bugsWithAtpAt, dataSlots, key);
      EraseKeepsConsistent(bugsWithAtpAt, siphonsAt, dataSlots, key, loc);
      attacks := EmitRetBufferAttacks(MapGetDefault(bugsWithAtpAt, key, []), dataSlots, argDataflow);
      bugsWithAtpAt := bugsWithAtpAt - {key};
    }

    /**
     * `AttackExpression` at the expression `toAttack` (an attack point of
     * kind `atpType` at `astLoc`): in inject mode, the attacks of the bugs
     * queued there, after which the queue is erased; in query mode the
     * attack-point hypercall, counted. A non-empty list of addends is added
     * to the expression through `mod`, rendered by `render`.
     */
    method AttackExpression(mod: Modifier, toAttack: Stmt, parent: Option<StmtKind>, astLoc: AstLoc, atpType: AtpType,
                            action: Action, knobTrigger: bool, argDataflow: bool, stringId: nat, draws: seq<nat>,
                            render: LExpr -> string)
      requires Valid() && mod.Valid()
      requires action == InjectBugs ==> DrawsNeeded(MapGetDefault(bugsWithAtpAt, AtpKey(astLoc, atpType), [])) <= |draws|
      modifies this, mod, mod.Insert
      ensures Valid() && mod.Valid()
      ensures var key := AtpKey(astLoc, atpType);
        var addends := PointerAddends(old(bugsWithAtpAt), old(dataSlots), key, action, knobTrigger, argDataflow, stringId, draws);
        && (addends == [] ==> mod.Insert.impl == old(mod.Insert.impl))
        && (addends != [] ==> mod.Insert.impl == Added(old(mod.Insert.impl), toAttack, render(LSum(addends)), parent))
        && bugsWithAtpAt == (if action == InjectBugs then old(bugsWithAtpAt) - {key} else old(bugsWithAtpAt))
        && (action == InjectBugs ==> MapGetDefault(bugsWithAtpAt, key, []) == [])
      ensures numAtpQueries == old(numAtpQueries) + (if action == Queries then 1 else 0)
      ensures siphonsAt == old(siphonsAt) && dataSlots == old(dataSlots)
    {
      var key := AtpKey(astLoc, atpType);
      ghost var expected := PointerAddends(bugsWithAtpAt, dataSlots, key, action, knobTrigger, argDataflow, stringId, draws);
      var pointerAddends: seq<LExpr> := [];
      if action == InjectBugs {
        QueuedAttackable(bugsWithAtpAt, dataSlots, key);
        EraseKeepsConsistent(bugsWithAtpAt, siphonsAt, dataSlots, key, astLoc);
        pointerAddends := BuildAttackAddends(MapGetDefault(bugsWithAtpAt, key, []), dataSlots, knobTrigger, argDataflow, draws);
        bugsWithAtpAt := bugsWithAtpAt - {key};
      } else if action == Queries {
        pointerAddends := [AtpQuery(stringId, atpType)];
        numAtpQueries := numAtpQueries + 1;
      }
      assert pointerAddends == expected;
      if pointerAddends != [] {
        mod.Change(toAttack);
        mod.Add(render(LSum(pointerAddends)), parent);
      }
    }
  }

  /** Attacking a prefix never needs more draws than attacking the whole list. */
  lemma {:induction false} DrawsMonotone(bugs: seq<Bug>, n: nat)
    requires n <= |bugs|
    ensures DrawsNeeded(bugs[..n]) <= DrawsNeeded(bugs)
    decreases |bugs|
  {
    if n < |bugs| {
      DrawsMonotone(bugs[..|bugs| - 1], n);
      assert bugs[..|bugs| - 1][..n] == bugs[..n];
    } else {
      assert bugs[..n] == bugs;
    }
  }
}

/**
 * The bookkeeping tables of the bug injector, as values: the slot registry
 * (`data_slots`), the siphons still to be emitted per location
 * (`siphons_at`) and the bugs still to be attacked per attack point
 * (`bugs_with_atp_at`), with the updates `mark_for_siphon`, the bug-loading
 * loop and the consume-once erases make to them.
 */
module Tables {
  import opened Wrappers
  import opened Strings
  import opened Records

  /**
   * The identity of an `LvalBytes` as an ordered-map key: its `operator<`
   * compares the lvalue's id and the selected range, nothing else.
   */
  datatype SlotKey = SlotKey(lvalId: nat, selected: Range)

  function KeyOf(lb: LvalBytes): SlotKey
  {
    SlotKey(lb.lval.id, lb.selected)
  }

  /** The key of `bugs_with_atp_at`: an attack point's location and kind. */
  datatype AtpKey = AtpKey(loc: AstLoc, atpType: AtpType)

  function AtpKeyOf(b: Bug): AtpKey
  {
    AtpKey(b.atpLoc, b.atpType)
  }

  type SlotMap = map<SlotKey, nat>
  type SiphonMap = map<AstLoc, seq<LvalBytes>>
  type BugMap = map<AtpKey, seq<Bug>>

  // ---------------------------------------------------------------- slots

  /** Some key holds slot `i`. */
  predicate HasSlot(slots: SlotMap, i: nat)
  {
    exists k | k in slots :: slots[k] == i
  }

  /** The slots handed out are exactly `0 .. |slots| - 1`, each to one key. */
  predicate Dense(slots: SlotMap)
  {
    && (forall k | k in slots :: slots[k] < |slots|)
    && (forall k1, k2 | k1 in slots && k2 in slots && slots[k1] == slots[k2] :: k1 == k2)
    && (forall i: nat | i < |slots| :: HasSlot(slots, i))
  }

  /**
   * `data_slots.insert({lval_bytes, data_slots.size()})`: a key not yet
   * registered gets the next slot; a registered key keeps its slot.
   */
  function SlotMarked(slots: SlotMap, lb: LvalBytes): SlotMap
  {
    if KeyOf(lb) in slots then slots else slots[KeyOf(lb) := |slots|]
  }

  /** `Slot`: the slot of `lb`; `data_slots.at` throws (`None`) for an unregistered key. */
  function Slot(slots: SlotMap, lb: LvalBytes): (r: Option<nat>)
    ensures r.Some? <==> KeyOf(lb) in slots
    ensures r.Some? ==> r.value == slots[KeyOf(lb)]
    ensures Dense(slots) && r.Some? ==> r.value < |slots|
  {
    if KeyOf(lb) in slots then Some(slots[KeyOf(lb)]) else None
  }

  /**
   * Marking registers `lb`; a new key gets the number of slots before the
   * call and the registry grows by one; an existing key changes nothing;
   * no slot is ever reassigned.
   */
  lemma SlotMarkedSpec(slots: SlotMap, lb: LvalBytes)
    ensures var r := SlotMarked(slots, lb);
      && Slot(r, lb).Some?
      && (KeyOf(lb) in slots ==> r == slots)
      && (KeyOf(lb) !in slots ==> r[KeyOf(lb)] == |slots| && |r| == |slots| + 1 && r.Keys == slots.Keys + {KeyOf(lb)})
      && (forall k | k in slots :: k in r && r[k] == slots[k])
  {
  }

  /** Marking the same bytes twice is marking them once. */
  lemma SlotMarkedIdempotent(slots: SlotMap, lb: LvalBytes)
    ensures SlotMarked(SlotMarked(slots, lb), lb) == SlotMarked(slots, lb)
  {
  }

  /** Marking keeps the registry dense. */
  lemma MarkKeepsDense(slots: SlotMap, lb: LvalBytes)
    requires Dense(slots)
    ensures Dense(SlotMarked(slots, lb))
  {
    var k := KeyOf(lb);
    if k !in slots {
      var r := slots[k := |slots|];
      assert |r| == |slots| + 1;
      forall i: nat | i < |r|
        ensures HasSlot(r, i)
      {
        if i < |slots| {
          assert HasSlot(slots, i);
          var j :| j in slots && slots[j] == i;
          assert r[j] == i;
        } else {
          assert r[k] == i;
        }
      }
    }
  }

  /** `SlotMarked` over a list of bytes, in order. */
  function SlotsMarked(slots: SlotMap, lbs: seq<LvalBytes>): SlotMap
  {
    if lbs == [] then slots else SlotMarked(SlotsMarked(slots, lbs[..|lbs| - 1]), lbs[|lbs| - 1])
  }

  /** Marking a list keeps the registry dense and keeps every old slot. */
  lemma {:induction false} MarkAllDense(slots: SlotMap, lbs: seq<LvalBytes>)
    requires Dense(slots)
    ensures var r := SlotsMarked(slots, lbs);
      && Dense(r)
      && (forall k | k in slots :: k in r && r[k] == slots[k])
  {
    if lbs != [] {
      var init := lbs[..|lbs| - 1];
      var mid := SlotsMarked(slots, init);
      MarkAllDense(slots, init);
      MarkKeepsDense(mid, lbs[|lbs| - 1]);
      SlotMarkedSpec(mid, lbs[|lbs| - 1]);
    }
  }

  /** Marking a list registers every element of it, and every key registered before. */
  lemma {:induction false} MarkAllRegisters(slots: SlotMap, lbs: seq<LvalBytes>)
    ensures var r := SlotsMarked(slots, lbs);
      && slots.Keys <= r.Keys
      && (forall lb | lb in lbs :: KeyOf(lb) in r)
  {
    if lbs != [] {
      var init := lbs[..|lbs| - 1];
      var mid := SlotsMarked(slots, init);
      MarkAllRegisters(slots, init);
      SlotMarkedSpec(mid, lbs[|lbs| - 1]);
      assert lbs == init + [lbs[|lbs| - 1]];
    }
  }

  // -------------------------------------------------------------- siphons

  /** `s` holds an element whose key is `k`. */
  predicate HasKey(s: seq<LvalBytes>, k: SlotKey)
  {
    exists i | 0 <= i < |s| :: KeyOf(s[i]) == k
  }

  /** No two elements of `s` share a key. */
  predicate DistinctKeys(s: seq<LvalBytes>)
  {
    forall i, j | 0 <= i < j < |s| :: KeyOf(s[i]) != KeyOf(s[j])
  }

  /** `vector_set::insert`: appends `x` unless an element with its key is already there. */
  function SetInserted(s: seq<LvalBytes>, x: LvalBytes): seq<LvalBytes>
  {
    if HasKey(s, KeyOf(x)) then s else s + [x]
  }

  /** Insertion keeps the earlier elements in front, in order, and adds at most `x`, once per key. */
  lemma SetInsertedSpec(s: seq<LvalBytes>, x: LvalBytes)
    ensures var r := SetInserted(s, x);
      && |s| <= |r| && r[..|s|] == s
      && HasKey(r, KeyOf(x))
      && (forall i | |s| <= i < |r| :: r[i] == x)
      && (forall k :: HasKey(r, k) <==> HasKey(s, k) || k == KeyOf(x))
      && (DistinctKeys(s) ==> DistinctKeys(r))
  {
    var r := SetInserted(s, x);
    if !HasKey(s, KeyOf(x)) {
      assert r[|s|] == x;
      forall k
        ensures HasKey(r, k) <==> HasKey(s, k) || k == KeyOf(x)
      {
        if HasKey(r, k) {
          var i :| 0 <= i < |r| && KeyOf(r[i]) == k;
          if i < |s| {
            assert s[i] == r[i];
          }
        }
        if HasKey(s, k) {
          var i :| 0 <= i < |s| && KeyOf(s[i]) == k;
          assert r[i] == s[i];
        }
      }
    }
  }

  /** `siphons_at[lval_bytes.lval->loc].insert(lval_bytes)`. */
  function SiphonMarked(siphons: SiphonMap, lb: LvalBytes): SiphonMap
  {
    siphons[lb.lval.loc := SetInserted(MapGetDefault(siphons, lb.lval.loc, []), lb)]
  }

  /** `SiphonMarked` over a list of bytes, in order. */
  function SiphonsMarked(siphons: SiphonMap, lbs: seq<LvalBytes>): SiphonMap
  {
    if lbs == [] then siphons else SiphonMarked(SiphonsMarked(siphons, lbs[..|lbs| - 1]), lbs[|lbs| - 1])
  }

  /** Some element of `lbs` has its lvalue at `loc` and has key `k`. */
  predicate QueuedFor(lbs: seq<LvalBytes>, loc: AstLoc, k: SlotKey)
  {
    exists i | 0 <= i < |lbs| :: lbs[i].lval.loc == loc && KeyOf(lbs[i]) == k
  }

  lemma QueuedForSnoc(init: seq<LvalBytes>, x: LvalBytes, loc: AstLoc, k: SlotKey)
    ensures QueuedFor(init + [x], loc, k) <==> QueuedFor(init, loc, k) || (x.lval.loc == loc && KeyOf(x) == k)
  {
    var lbs := init + [x];
    if QueuedFor(lbs, loc, k) {
      var i :| 0 <= i < |lbs| && lbs[i].lval.loc == loc && KeyOf(lbs[i]) == k;
      if i < |init| {
        assert init[i] == lbs[i];
      }
    }
    if QueuedFor(init, loc, k) {
      var i :| 0 <= i < |init| && init[i].lval.loc == loc && KeyOf(init[i]) == k;
      assert lbs[i] == init[i];
    }
    assert lbs[|init|] == x;
  }

  /**
   * Starting from no siphons, the keys queued at `loc` after marking `lbs`
   * are exactly the keys of the elements of `lbs` whose lvalue is at `loc`.
   */
  lemma {:induction false} SiphonKeysAt(lbs: seq<LvalBytes>, loc: AstLoc, k: SlotKey)
    ensures HasKey(MapGetDefault(SiphonsMarked(map[], lbs), loc, []), k) <==> QueuedFor(lbs, loc, k)
  {
    if lbs != [] {
      var init := lbs[..|lbs| - 1];
      var x := lbs[|lbs| - 1];
      assert lbs == init + [x];
      SiphonKeysAt(init, loc, k);
      QueuedForSnoc(init, x, loc, k);
      var before := SiphonsMarked(map[], init);
      if x.lval.loc == loc {
        SetInsertedSpec(MapGetDefault(before, loc, []), x);
      }
    }
  }

  // ----------------------------------------------------------------- bugs

  /** `bugs_with_atp_at[key].push_back(bug)`. */
  function BugPushed(bugMap: BugMap, b: Bug): BugMap
  {
    bugMap[AtpKeyOf(b) := MapGetDefault(bugMap, AtpKeyOf(b), []) + [b]]
  }

  /** `BugPushed` over a list of bugs, in order. */
  function BugsPushed(bugMap: BugMap, bugs: seq<Bug>): BugMap
  {
    if bugs == [] then bugMap else BugPushed(BugsPushed(bugMap, bugs[..|bugs| - 1]), bugs[|bugs| - 1])
  }

  /** The bugs of `bugs` whose attack point is `key`, in order. */
  function BugsAt(bugs: seq<Bug>, key: AtpKey): (r: seq<Bug>)
    ensures forall b | b in r :: b in bugs && AtpKeyOf(b) == key
    ensures forall b | b in bugs && AtpKeyOf(b) == key :: b in r
  {
    if bugs == [] then []
    else
      var init := BugsAt(bugs[..|bugs| - 1], key);
      var b := bugs[|bugs| - 1];
      assert bugs == bugs[..|bugs| - 1] + [b];
      if AtpKeyOf(b) == key then init + [b] else init
  }

  /**
   * After pushing `bugs`, the list at each attack point is the old list
   * followed by that point's bugs in their order in `bugs`.
   */
  lemma {:induction false} PushedLists(bugMap: BugMap, bugs: seq<Bug>, key: AtpKey)
    ensures MapGetDefault(BugsPushed(bugMap, bugs), key, []) == MapGetDefault(bugMap, key, []) + BugsAt(bugs, key)
    ensures key in BugsPushed(bugMap, bugs) <==> key in bugMap || BugsAt(bugs, key) != []
  {
    if bugs != [] {
      var init := bugs[..|bugs| - 1];
      PushedLists(bugMap, init, key);
      var b := bugs[|bugs| - 1];
      if AtpKeyOf(b) == key {
        assert MapGetDefault(bugMap, key, []) + BugsAt(bugs, key) == MapGetDefault(bugMap, key, []) + BugsAt(init, key) + [b];
      }
    }
  }

  /** The ids of the bugs that are still to be attacked (the "Failed bugs" report). */
  function FailedBugIds(bugMap: BugMap): set<nat>
  {
    set k, b | k in bugMap && b in bugMap[k] :: b.id
  }

  /**
   * Loading `bugs` into an empty table and then consuming the attack points
   * in `consumed` leaves exactly the bugs whose attack point was never
   * consumed to be reported as failed.
   */
  lemma FailedAfterConsuming(bugs: seq<Bug>, consumed: set<AtpKey>)
    ensures FailedBugIds(BugsPushed(map[], bugs) - consumed) == set b | b in bugs && AtpKeyOf(b) !in consumed :: b.id
  {
    var m := BugsPushed(map[], bugs);
    var left := m - consumed;
    forall id | id in FailedBugIds(left)
      ensures id in set b | b in bugs && AtpKeyOf(b) !in consumed :: b.id
    {
      var k: AtpKey, b: Bug :| k in left && b in left[k] && b.id == id;
      PushedLists(map[], bugs, k);
    }
    forall b | b in bugs && AtpKeyOf(b) !in consumed
      ensures b.id in FailedBugIds(left)
    {
      var k := AtpKeyOf(b);
      PushedLists(map[], bugs, k);
      assert b in BugsAt(bugs, k);
      assert k in left && b in left[k];
    }
  }

  /** Nothing is reported exactly when every loaded bug's attack point was consumed. */
  lemma NoFailuresIffAllConsumed(bugs: seq<Bug>, consumed: set<AtpKey>)
    ensures FailedBugIds(BugsPushed(map[], bugs) - consumed) == {}
        <==> forall b | b in bugs :: AtpKeyOf(b) in consumed
  {
    FailedAfterConsuming(bugs, consumed);
    var missed := set b | b in bugs && AtpKeyOf(b) !in consumed :: b.id;
    if missed == {} {
      forall b | b in bugs
        ensures AtpKeyOf(b) in consumed
      {
        assert AtpKeyOf(b) !in consumed ==> b.id in missed;
      }
    }
    if forall b | b in bugs :: AtpKeyOf(b) in consumed {
      assert forall id | id in missed :: false;
    }
  }

  // ------------------------------------------------------------- loading

  /** The extra values a bug's kind indexes are present (`extra_duas[0]`, `extra_duas[1]`). */
  predicate WellFormed(b: Bug)
  {
    && (b.bugType == RelWrite ==> |b.extras| >= 2)
    && (b.bugType == RetBuffer ==> |b.extras| >= 1)
  }

  /** What loading a bug marks for siphoning: its trigger, then its extra values. */
  function BugMarks(b: Bug): seq<LvalBytes>
  {
    [b.trigger] + b.extras
  }

  /** What loading `bugs` marks, in order. */
  function Marks(bugs: seq<Bug>): seq<LvalBytes>
  {
    if bugs == [] then [] else Marks(bugs[..|bugs| - 1]) + BugMarks(bugs[|bugs| - 1])
  }

  /** Every value of a loaded bug is marked. */
  lemma {:induction false} MarksCover(bugs: seq<Bug>)
    ensures forall b, lb | b in bugs && lb in BugMarks(b) :: lb in Marks(bugs)
  {
    if bugs != [] {
      var init := bugs[..|bugs| - 1];
      MarksCover(init);
      assert bugs == init + [bugs[|bugs| - 1]];
    }
  }

  /** All of `b`'s values hold slots. */
  predicate Slotted(b: Bug, slots: SlotMap)
  {
    forall lb | lb in BugMarks(b) :: KeyOf(lb) in slots
  }

  /** Every queued siphon sits at its lvalue's location, holds a slot, and is queued once per key. */
  predicate SiphonsConsistent(siphons: SiphonMap, slots: SlotMap)
  {
    forall loc | loc in siphons ::
      && DistinctKeys(siphons[loc])
      && forall lb | lb in siphons[loc] :: lb.lval.loc == loc && KeyOf(lb) in slots
  }

  /** Every queued bug sits at its attack point, is well formed, and its values hold slots. */
  predicate BugsConsistent(bugMap: BugMap, slots: SlotMap)
  {
    forall key | key in bugMap ::
      forall b | b in bugMap[key] :: AtpKeyOf(b) == key && WellFormed(b) && Slotted(b, slots)
  }

  /** The invariant of the three tables. */
  predicate Consistent(bugMap: BugMap, siphons: SiphonMap, slots: SlotMap)
  {
    Dense(slots) && SiphonsConsistent(siphons, slots) && BugsConsistent(bugMap, slots)
  }

  /** Marking siphons whose keys are registered keeps the siphon table consistent. */
  lemma {:induction false} SiphonsMarkedConsistent(siphons: SiphonMap, slots: SlotMap, lbs: seq<LvalBytes>)
    requires SiphonsConsistent(siphons, slots)
    requires forall lb | lb in lbs :: KeyOf(lb) in slots
    ensures SiphonsConsistent(SiphonsMarked(siphons, lbs), slots)
  {
    if lbs != [] {
      var init := lbs[..|lbs| - 1];
      var x := lbs[|lbs| - 1];
      assert lbs == init + [x];
      SiphonsMarkedConsistent(siphons, slots, init);
      SiphonMarkedConsistent(SiphonsMarked(siphons, init), slots, x);
    }
  }

  /** Marking one siphon whose key is registered keeps the siphon table consistent. */
  lemma SiphonMarkedConsistent(siphons: SiphonMap, slots: SlotMap, x: LvalBytes)
    requires SiphonsConsistent(siphons, slots) && KeyOf(x) in slots
    ensures SiphonsConsistent(SiphonMarked(siphons, x), slots)
  {
    var old_ := MapGetDefault(siphons, x.lval.loc, []);
    SetInsertedSpec(old_, x);
    var r := SetInserted(old_, x);
    forall lb | lb in r
      ensures lb.lval.loc == x.lval.loc && KeyOf(lb) in slots
    {
      var i :| 0 <= i < |r| && r[i] == lb;
      if i < |old_| {
        assert old_[i] == lb;
      }
    }
  }

  /** Growing the registry keeps every consistent table consistent. */
  lemma MoreSlots(bugMap: BugMap, siphons: SiphonMap, slots: SlotMap, slots': SlotMap)
    requires slots.Keys <= slots'.Keys
    requires SiphonsConsistent(siphons, slots) && BugsConsistent(bugMap, slots)
    ensures SiphonsConsistent(siphons, slots') && BugsConsistent(bugMap, slots')
  {
  }

  /** Pushing well-formed bugs whose values are registered keeps the bug table consistent. */
  lemma {:induction false} BugsPushedConsistent(bugMap: BugMap, slots: SlotMap, bugs: seq<Bug>)
    requires BugsConsistent(bugMap, slots)
    requires forall b | b in bugs :: WellFormed(b) && Slotted(b, slots)
    ensures BugsConsistent(BugsPushed(bugMap, bugs), slots)
  {
    if bugs != [] {
      var init := bugs[..|bugs| - 1];
      assert bugs == init + [bugs[|bugs| - 1]];
      BugsPushedConsistent(bugMap, slots, init);
    }
  }

  /** Loading well-formed bugs into consistent tables gives consistent tables. */
  lemma LoadKeepsConsistent(bugMap: BugMap, siphons: SiphonMap, slots: SlotMap, bugs: seq<Bug>)
    requires Consistent(bugMap, siphons, slots)
    requires forall b | b in bugs :: WellFormed(b)
    ensures Consistent(BugsPushed(bugMap, bugs), SiphonsMarked(siphons, Marks(bugs)), SlotsMarked(slots, Marks(bugs)))
  {
    var marks := Marks(bugs);
    var slots' := SlotsMarked(slots, marks);
    MarkAllDense(slots, marks);
    MarkAllRegisters(slots, marks);
    MarksCover(bugs);
    MoreSlots(bugMap, siphons, slots, slots');
    SiphonsMarkedConsistent(siphons, slots', marks);
    BugsPushedConsistent(bugMap, slots', bugs);
  }

  /** Marking one value keeps the tables consistent. */
  lemma MarkKeepsConsistent(bugMap: BugMap, siphons: SiphonMap, slots: SlotMap, lb: LvalBytes)
    requires Consistent(bugMap, siphons, slots)
    ensures Consistent(bugMap, SiphonMarked(siphons, lb), SlotMarked(slots, lb))
  {
    var slots' := SlotMarked(slots, lb);
    MarkKeepsDense(slots, lb);
    SlotMarkedSpec(slots, lb);
    MoreSlots(bugMap, siphons, slots, slots');
    SiphonMarkedConsistent(siphons, slots', lb);
  }

  /** Marking one more value extends the marked list by it. */
  lemma SiphonsMarkedSnoc(siphons: SiphonMap, lbs: seq<LvalBytes>, x: LvalBytes)
    ensures SiphonsMarked(siphons, lbs + [x]) == SiphonMarked(SiphonsMarked(siphons, lbs), x)
  {
    assert (lbs + [x])[..|lbs|] == lbs;
  }

  /** Registering one more value extends the registered list by it. */
  lemma SlotsMarkedSnoc(slots: SlotMap, lbs: seq<LvalBytes>, x: LvalBytes)
    ensures SlotsMarked(slots, lbs + [x]) == SlotMarked(SlotsMarked(slots, lbs), x)
  {
    assert (lbs + [x])[..|lbs|] == lbs;
  }

  /** Marking `a` and then `b` is marking `a + b`. */
  lemma {:induction false} SiphonsMarkedAppend(siphons: SiphonMap, a: seq<LvalBytes>, b: seq<LvalBytes>)
    ensures SiphonsMarked(SiphonsMarked(siphons, a), b) == SiphonsMarked(siphons, a + b)
    decreases |b|
  {
    if b == [] {
      assert a + b == a;
    } else {
      var init, x := b[..|b| - 1], b[|b| - 1];
      SiphonsMarkedAppend(siphons, a, init);
      assert a + b == (a + init) + [x];
      SiphonsMarkedSnoc(siphons, a + init, x);
    }
  }

  /** Registering `a` and then `b` is registering `a + b`. */
  lemma {:induction false} SlotsMarkedAppend(slots: SlotMap, a: seq<LvalBytes>, b: seq<LvalBytes>)
    ensures SlotsMarked(SlotsMarked(slots, a), b) == SlotsMarked(slots, a + b)
    decreases |b|
  {
    if b == [] {
      assert a + b == a;
    } else {
      var init, x := b[..|b| - 1], b[|b| - 1];
      SlotsMarkedAppend(slots, a, init);
      assert a + b == (a + init) + [x];
      SlotsMarkedSnoc(slots, a + init, x);
    }
  }
}

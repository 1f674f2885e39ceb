# LAVA bug injection: a Dafny model of the injector core and the driver script

LAVA adds synthetic, input-triggered memory-safety bugs to C programs.

The source-to-source injector (`lavaTool.cpp`) works in three steps:

1. It loads the chosen bugs into per-attack-point queues.
2. It gives every tainted byte range a slot of the global `data` array.
3. While walking the program, it adds three kinds of code:
   - *siphons* that copy those bytes into their slots;
   - pointer addends that are zero unless the slot holds a magic value;
   - return-buffer attacks.

The driver script (`lava.py`) works from the other side:

- it writes that magic value into copies of the program's inputs (`mutfile`);
- it names the copies (`get_suffix`, `fuzzed_input_for_bug`);
- it finds the line of the injected trigger (`get_trigger_line`);
- it decides from a run whether an injected bug is real (`validate_bug`).

The modules, bottom to top:

| module | file | what it holds |
|---|---|---|
| `Wrappers` | `wrappers.dfy` | `Option` and `Result` |
| `Words` | `words.dfy` | 32-bit unsigned words as integers modulo 2^32, with bitwise AND, XOR and right shift defined bit by bit |
| `Records` | `records.dfy` | the database records the injector reads: bugs, tainted byte ranges (`LvalBytes`), AST locations |
| `Strings` | `strings.dfy` | `map_get_default`, `parse_commas_strings` and `StripPrefix` |
| `Naming` | `naming.dfy` | `basename`, `get_suffix` and the fuzzed-input naming |
| `Edits` | `edits.dfy` | the `Insertions` class: per-location fragment lists and their rendering into replacements |
| `Modify` | `modifier.dfy` | the `Modifier` class: insertions around one AST node and its parenthesisation rules |
| `LExprs` | `lexpr.dfy` | the generated C expressions as an abstract tree, evaluated as the C code does, on `uint32_t` |
| `Triggers` | `triggers.dfy` | `Get`, `Test`, `twoDuaTest`, `traditionalAttack`, `knobTriggerAttack`, `alphanum`, `rand_ascii4` and `threeDuaTest` |
| `Tables` | `tables.dfy` | the slot registry, the siphon and bug queues, and the leftovers report; described as pure functions with their invariants |
| `Sites` | `sites.dfy` | the `SiteTables` class that holds those tables, and the injector operations on it: `mark_for_siphon`, the bug-loading loop, `SiphonsForLocation` (take once), `AttackRetBuffer` and `AttackExpression` |
| `Fuzzing` | `fuzzing.dfy` | `mutfile` |
| `Validation` | `validation.dfy` | `get_trigger_line` and the classification made by `validate_bug` |

How each kind of code is modelled:

- **Code that changes state.** The injector's global tables and its two editing classes are Dafny classes. Their methods carry `modifies` clauses and state the whole new state through a function of the old state. The invariants those functions keep are proved as lemmas.
- **Loops.** The source's loops are loops with invariants (`while` or `for`):
  - `alphanum`, `rand_ascii4`, `parse_commas_strings` and the slash-skipping loop of `StripPrefix`;
  - the render loop and its fragment concatenation;
  - the bug-loading loop and its inner loop over a bug's extra ranges;
  - the emit loops of `SiphonsForLocation` and `AttackRetBuffer`, and the addend loop of `AttackExpression`;
  - the two nested loops of `mutfile`.
- **Inputs from outside.** Calls to `rand()` become a sequence of draws given by the caller, and so do file contents, the debugger's verdict and the clang services the injector uses.

## Model

| member | source | states |
|---|---|---|
| `Strings.LookupAfterErase` | src_clang/lavaTool.cpp:167-176 | after a key is erased, `map_get_default` gives the default for it and the old value for every other key; this is what makes each queue take-once |
| `Strings.ParseCommasStrings` | src_clang/lavaTool.cpp:178-186 | the set of `getline` fields of the list: interior empty fields are kept, a final empty field is dropped; no field holds a comma; the empty list gives the empty set |
| `Strings.FieldsFree` | src_clang/lavaTool.cpp:178-186 | no field produced by splitting on commas holds a comma |
| `Strings.StripPrefix` | src_clang/lavaTool.cpp:202-210 | fails (the source's `assert(false)`) exactly when `prefix` is not a prefix; otherwise returns the rest of the name with the leading slashes after the prefix removed |
| `Strings.JoinSplit` | scripts/lava.py:461-466 | joining the parts of `str.split` with the separator gives back the string |
| `Strings.SplitSingle` | scripts/lava.py:461-463 | `split` yields a single part exactly when the separator does not occur |
| `Strings.SplitPartsFree` | scripts/lava.py:461-466 | no part of `split` holds the separator |
| `Strings.SplitLast` | scripts/lava.py:466 | the last part of `split` is the text after the last separator |
| `Strings.AfterLastFacts` | scripts/lava.py:462 | the text after the last separator is a separator-free tail preceded by the separator, or, without a separator, the whole string |
| `Naming.BasenameSpec` | scripts/lava.py:462 | the base name is the slash-free tail of the path after its last slash, the whole path when it holds no slash |
| `Naming.SuffixForm` | scripts/lava.py:461-466 | the suffix is "." and the text after the last dot of the base name, or "" when the base name has no dot |
| `Naming.GetSuffixSpec` | scripts/lava.py:461-466 | `get_suffix` gives "" exactly when the base name has no dot; otherwise a tail of the path that starts with its only dot and holds no slash |
| `Naming.SuffixOfDotted` | scripts/lava.py:461-466 | a path ending in a dot and dot- and slash-free text has that dotted text as its suffix |
| `Naming.NoSuffixExtend` | scripts/lava.py:461-466 | appending dot- and slash-free text to a path whose base name is dot-free leaves the suffix empty |
| `Naming.DecimalRoundTrip` | scripts/lava.py:483 | the decimal rendering of a number reads back as that number |
| `Naming.DecimalInjective` | scripts/lava.py:533 | different numbers render differently |
| `Naming.UnsuffixedSplit` | scripts/lava.py:529-532 | the part before the suffix followed by the suffix is the input path again |
| `Naming.MarkerFree` | scripts/lava.py:533 | the inserted text `-fuzzed-<id>` holds no dot and no slash |
| `Naming.FuzzedKeepsSuffix` | scripts/lava.py:529-533 | a fuzzed input has the same suffix as its input, so the program still sees the file type |
| `Naming.FuzzedUnsuffixed` | scripts/lava.py:529-533 | an input without a suffix gives a fuzzed name without a suffix |
| `Naming.FuzzedSuffixed` | scripts/lava.py:529-533 | an input with a suffix gives a fuzzed name with the same suffix |
| `Naming.FuzzedInputOfRecordedFile` | scripts/lava.py:525-533 | the unfuzzed input is the recorded file's base name directly under the `inputs` directory, and its fuzzed name keeps the recorded file's suffix |
| `Naming.FuzzedInjective` | scripts/lava.py:529-533 | different bugs get different fuzzed file names from the same input |
| `Edits.InsertedAfter` | src_clang/lavaTool.cpp:394-401 | an empty string changes nothing; otherwise the string ends the location's list, and it is appended unless it already ends the list, where ")" is always appended; other locations are untouched; no list becomes empty |
| `Edits.InsertedBefore` | src_clang/lavaTool.cpp:403-410 | the mirror of `InsertedAfter` at the front of the list, with "(" always prepended |
| `Edits.AfterIdempotent` | src_clang/lavaTool.cpp:397 | inserting the same text other than ")" twice after a location is the same as inserting it once |
| `Edits.BeforeIdempotent` | src_clang/lavaTool.cpp:406 | inserting the same text other than "(" twice before a location is the same as inserting it once |
| `Edits.ClosingParensKept` | src_clang/lavaTool.cpp:397-398 | two ")" inserted after a location both stay |
| `Edits.OpeningParensKept` | src_clang/lavaTool.cpp:406-407 | two "(" inserted before a location both stay |
| `Edits.ConcatAppend` | src_clang/lavaTool.cpp:416 | concatenating two fragment lists is concatenating their texts |
| `Edits.ConcatPair` | src_clang/lavaTool.cpp:416 | two fragments render as their concatenation |
| `Edits.SortedLocationsMembers` | src_clang/lavaTool.cpp:414 | the `std::map` iteration order lists every location with fragments exactly once |
| `Edits.SortedLocationsAscending` | src_clang/lavaTool.cpp:414 | that iteration order is strictly increasing |
| `Edits.ReplacementsForAt` | src_clang/lavaTool.cpp:414-418 | one zero-length replacement per location, at that location, with the concatenated fragments as its text |
| `Edits.RenderedShape` | src_clang/lavaTool.cpp:412-419 | the rendering has one replacement per location, in increasing location order, each the concatenation of that location's list |
| `Edits.ConcatFragments` | src_clang/lavaTool.cpp:416 | the stream concatenation of a fragment list is its text |
| `Edits.Insertions.constructor` | src_clang/lavaTool.cpp:385-391 | starts with no insertions |
| `Edits.Insertions.Clear` | src_clang/lavaTool.cpp:392 | removes all insertions |
| `Edits.Insertions.InsertAfter` | src_clang/lavaTool.cpp:394-401 | the new map is `InsertedAfter` of the old one |
| `Edits.Insertions.InsertBefore` | src_clang/lavaTool.cpp:403-410 | the new map is `InsertedBefore` of the old one |
| `Edits.Insertions.Render` | src_clang/lavaTool.cpp:412-419 | appends exactly the rendering of the map to `out`; the map is unchanged |
| `Modify.AfterLoc` | src_clang/lavaTool.cpp:450-461 | the position after a node is no earlier than its last token's start; for a node whose last token starts no earlier than its first and has positive length, it lies strictly after the position before the node |
| `Modify.InnerParensStep` | src_clang/lavaTool.cpp:492-498 | a conditional node, or a binary operator that is neither multiplicative nor additive, gets "(" before and ")" after; other nodes are untouched |
| `Modify.OperatedFragments` | src_clang/lavaTool.cpp:482-489 | `Operate("+")` appends " + addend" after the node, and wraps the node in its own parentheses unless there is no parent or the parent is a subscript or a parenthesis |
| `Modify.AddedFragments` | src_clang/lavaTool.cpp:491-500 | on a fresh node, `Add` leaves at its front an outer "(" (if needed) then an inner "(" (if needed), and at its back the inner ")", " + addend", then the outer ")"; nothing else changes |
| `Modify.BracketText` | src_clang/lavaTool.cpp:491-500 | those fragment lists concatenate to the expected bracket texts |
| `Modify.AddedText` | src_clang/lavaTool.cpp:482-500 | the text around a fresh node after `Add` is `((node) + addend)` with each pair of parentheses present exactly when its rule asks for it |
| `Modify.Modifier.constructor` | src_clang/lavaTool.cpp:437 | the modifier shares the given `Insertions` and points at no node |
| `Modify.Modifier.Change` | src_clang/lavaTool.cpp:473-476 | points the modifier at the node |
| `Modify.Modifier.InsertBefore` | src_clang/lavaTool.cpp:463-466 | inserts before the node's first token |
| `Modify.Modifier.InsertAfter` | src_clang/lavaTool.cpp:468-471 | inserts after the node's last token |
| `Modify.Modifier.Parenthesize` | src_clang/lavaTool.cpp:478-480 | "(" before the node and ")" after it |
| `Modify.Modifier.Operate` | src_clang/lavaTool.cpp:482-489 | the operand after the node, then the parent-dependent parentheses |
| `Modify.Modifier.Add` | src_clang/lavaTool.cpp:491-500 | the precedence parentheses, then `Operate("+")` |
| `Modify.Modifier.InsertAt` | src_clang/lavaTool.cpp:502-504 | inserts before the given location |
| `LExprs.SumSnoc` | src_clang/lavaTool.cpp:585-586 | the generated sum of addends is the 32-bit sum of their values |
| `Words.LowHalf` | src_clang/lavaTool.cpp:370 | `v & 0x0000ffff` is the low 16 bits |
| `Words.HighHalf` | src_clang/lavaTool.cpp:372 | `(v & 0xffff0000) >> 16` is the high 16 bits |
| `Words.Xor32Cancel` | src_clang/lavaTool.cpp:270-272 | XOR with the same word twice gives back the original |
| `Triggers.Get` | src_clang/lavaTool.cpp:256-258 | the read of a slot, in either hypercall flavour, evaluates to the slot's value |
| `Triggers.Test` | src_clang/lavaTool.cpp:266-268 | evaluates to 1 exactly when the trigger slot holds the bug's magic, else 0 |
| `Triggers.TraditionalAttack` | src_clang/lavaTool.cpp:359-361 | evaluates to the trigger's value when it equals the magic, else 0 |
| `Triggers.GatedValue` | src_clang/lavaTool.cpp:379-380 | a value multiplied by a magic test is the value when the test holds, else 0 |
| `Triggers.LowerHalfValue` | src_clang/lavaTool.cpp:370 | the generated lower-half expression evaluates to the low 16 bits of the trigger |
| `Triggers.UpperHalfValue` | src_clang/lavaTool.cpp:372 | the generated upper-half expression evaluates to the high 16 bits of the trigger |
| `Triggers.KnobTriggerValue` | src_clang/lavaTool.cpp:369-380 | the knob attack evaluates to the lower half when the upper half is the 16-bit magic, plus the upper half when the lower half is |
| `Triggers.KnobTriggerCases` | src_clang/lavaTool.cpp:369-380 | the trigger splits into its halves; the knob attack is 0 when neither half is the 16-bit magic, the lower half when only the upper one is, the upper half when only the lower one is |
| `Triggers.TwoDuaTest` | src_clang/lavaTool.cpp:270-272 | evaluates to 1 exactly when the XOR of trigger and extra value is the magic |
| `Triggers.TwoDuaSolution` | src_clang/lavaTool.cpp:270-272 | an extra value equal to the trigger XORed with the magic passes the test |
| `Triggers.AlnumCode` | src_clang/lavaTool.cpp:284-290 | every drawn character is a digit or an ASCII letter |
| `Triggers.AlnumTableChars` | src_clang/lavaTool.cpp:284-287 | the table has 62 entries, all digits or letters |
| `Triggers.PrintableCode` | src_clang/lavaTool.cpp:277 | every drawn code is printable ASCII, in [0x20, 0x7f) |
| `Triggers.PackStep` | src_clang/lavaTool.cpp:276-279 | adding a byte, then shifting left by 8, keeps the accumulator equal to the big-endian value of the bytes so far, modulo 2^32 |
| `Triggers.Alphanum` | src_clang/lavaTool.cpp:283-296 | returns 0 for a non-positive length, otherwise the drawn characters packed big-endian modulo 2^32 (so only the last four survive) |
| `Triggers.RandAscii4` | src_clang/lavaTool.cpp:274-281 | returns the four drawn printable codes packed big-endian |
| `Triggers.FourBytes` | src_clang/lavaTool.cpp:274-296 | four bytes pack without wrapping, the first one in the top byte |
| `Triggers.AlnumWord` | src_clang/lavaTool.cpp:283-296 | `alphanum(4)` is four alphanumeric bytes, the first drawn in the top byte |
| `Triggers.PrintableWord` | src_clang/lavaTool.cpp:274-281 | `rand_ascii4()` is four printable bytes, the first drawn in the top byte |
| `Triggers.BugCopy.constructor` | src_clang/lavaTool.cpp:560-562 | the private copy of the bug holds the bug's record and magic |
| `Triggers.ChooseMagic` | src_clang/lavaTool.cpp:318-335 | the new magic is `(a+b)*c`, `a*b-c` or `(a+2)*(b+1)*(c+3)` in `uint32_t` arithmetic, depending on the relation; for the first two relations it is the value the relation's test computes from a trigger `a` and extras `b` and `c` |
| `Triggers.ThreeDuaTest` | src_clang/lavaTool.cpp:298-357 | takes twelve draws; picks the relation from the old magic modulo 3; overwrites the copy's magic with that relation's value of three `alphanum(4)` words; returns that relation's test |
| `Triggers.RelationTestValue` | src_clang/lavaTool.cpp:337-356 | each relation's test evaluates to 1 exactly when its left-hand side equals the magic in `uint32_t` arithmetic |
| `Triggers.RelationRoundTrip` | src_clang/lavaTool.cpp:312-347 | for the first two relations, a trigger holding `a` and extras holding `b` and `c` pass the test built from `a`, `b` and `c` |
| `Triggers.ThirdRelationMismatch` | src_clang/lavaTool.cpp:330-350 | for the third relation, the words "0000", "0001" and "0000" in the trigger and the extras fail the test built from them: it reads the trigger where its magic formula has the first extra |
| `Tables.Slot` | src_clang/lavaTool.cpp:252-254 | the slot of a range is defined exactly when the range is registered, and is then the registered slot; in a dense registry it indexes the `data` array, being below the number of slots |
| `Tables.SlotMarkedSpec` | src_clang/lavaTool.cpp:1269 | registering a new key gives it the next slot, the map's size; registering a present key changes nothing |
| `Tables.SlotMarkedIdempotent` | src_clang/lavaTool.cpp:1269 | registering the same range twice is registering it once |
| `Tables.MarkKeepsDense` | src_clang/lavaTool.cpp:1269 | the registered slots stay exactly 0 to n-1, each used once |
| `Tables.MarkAllDense` | src_clang/lavaTool.cpp:1261-1270 | registering any list of ranges keeps the slots dense and leaves earlier slots unchanged |
| `Tables.MarkAllRegisters` | src_clang/lavaTool.cpp:1261-1270 | after registering a list, every earlier key and every key of the list is registered |
| `Tables.SetInsertedSpec` | src_clang/lavaTool.cpp:1264 | the `vector_set` insert keeps the order, appends a new key at the end, leaves a present key alone, and keeps keys distinct |
| `Tables.QueuedForSnoc` | src_clang/lavaTool.cpp:1264 | a key is queued by a longer list exactly when it was queued before or is the new element's key at its location |
| `Tables.SiphonKeysAt` | src_clang/lavaTool.cpp:1261-1264 | after marking a list, a location's siphon queue holds a key exactly when some marked range at that location has it |
| `Tables.BugsAt` | src_clang/lavaTool.cpp:1309-1312 | the loaded bugs whose attack point is the given one, and all of them |
| `Tables.PushedLists` | src_clang/lavaTool.cpp:1309-1312 | after loading, an attack point's queue is its old queue followed by the loaded bugs for it, in load order |
| `Tables.FailedAfterConsuming` | src_clang/lavaTool.cpp:1351-1366 | the "Failed bugs" ids are exactly the loaded bugs whose attack point was never consumed |
| `Tables.NoFailuresIffAllConsumed` | src_clang/lavaTool.cpp:1352-1366 | the failure report is empty exactly when every loaded bug's attack point was consumed |
| `Tables.MarksCover` | src_clang/lavaTool.cpp:1314-1320 | the trigger and every extra range of each loaded bug are marked |
| `Tables.SiphonsMarkedConsistent` | src_clang/lavaTool.cpp:1261-1264 | queuing registered ranges keeps every siphon queue at its own location, registered and free of duplicates |
| `Tables.SiphonMarkedConsistent` | src_clang/lavaTool.cpp:1264 | the same for a single range |
| `Tables.MoreSlots` | src_clang/lavaTool.cpp:1269 | registering more slots keeps the queues consistent |
| `Tables.BugsPushedConsistent` | src_clang/lavaTool.cpp:1312 | queuing well-formed bugs whose ranges are registered keeps every bug queue consistent |
| `Tables.LoadKeepsConsistent` | src_clang/lavaTool.cpp:1309-1321 | the loading loop keeps the tables consistent |
| `Tables.MarkKeepsConsistent` | src_clang/lavaTool.cpp:1261-1270 | `mark_for_siphon` keeps the tables consistent |
| `Tables.SiphonsMarkedAppend` | src_clang/lavaTool.cpp:1309-1321 | queuing siphons for two lists in turn is queuing them for the concatenation |
| `Tables.SlotsMarkedAppend` | src_clang/lavaTool.cpp:1309-1321 | registering two lists in turn is registering their concatenation |
| `Sites.BugAddends` | src_clang/lavaTool.cpp:565-574 | one pointer addend for a pointer-add or relational-write bug, none for the other kinds |
| `Sites.AttackAddends` | src_clang/lavaTool.cpp:557-575 | one addend per pointer-add or relational-write bug in the queue |
| `Sites.DormantRelation` | src_clang/lavaTool.cpp:571-573 | a relational-write addend is 0 when its relation does not hold |
| `Sites.DormantAddend` | src_clang/lavaTool.cpp:565-574 | a bug whose trigger does not fire adds 0 |
| `Sites.DormantBug` | src_clang/lavaTool.cpp:565-586 | such a bug leaves the sum of addends unchanged |
| `Sites.AttackDormant` | src_clang/lavaTool.cpp:557-586 | when no queued bug fires, the added sum evaluates to 0, so the attacked pointer is unchanged |
| `Sites.LoneBugFires` | src_clang/lavaTool.cpp:359-361 | with one pointer-add bug whose trigger holds the magic, the added sum is the magic |
| `Sites.RetBufferAttacks` | src_clang/lavaTool.cpp:674-697 | one return-buffer attack per return-buffer bug in the queue |
| `Sites.QueuedAttackable` | src_clang/lavaTool.cpp:549-551 | every queued bug is well formed with registered ranges, and the empty default queue is too |
| `Sites.QueuedSiphons` | src_clang/lavaTool.cpp:658 | a location's siphon queue holds registered, distinct ranges |
| `Sites.AttackedOnce` | src_clang/lavaTool.cpp:547-577 | once inject mode has erased an attack point's queue, the tables stay consistent and a second attack there builds no addend, so the expression is left alone |
| `Sites.EraseKeepsConsistent` | src_clang/lavaTool.cpp:577 | erasing a queue keeps the tables consistent |
| `Sites.EmitSiphons` | src_clang/lavaTool.cpp:658-660 | one siphon per queued range, in order, each writing the range's slot; distinct keys in dense slots write distinct slots |
| `Sites.EmitRetBufferAttacks` | src_clang/lavaTool.cpp:674-697 | emits exactly the return-buffer attacks of the queue |
| `Sites.AttackOne` | src_clang/lavaTool.cpp:565-574 | the addends of one bug |
| `Sites.BuildAttackAddends` | src_clang/lavaTool.cpp:557-575 | the loop builds exactly the addends of the queue |
| `Sites.DrawsMonotone` | src_clang/lavaTool.cpp:557-575 | a prefix of the queue needs no more draws than the whole queue |
| `Sites.SiteTables.constructor` | src_clang/lavaTool.cpp:123-163 | all tables empty, no queries counted |
| `Sites.SiteTables.MarkForSiphon` | src_clang/lavaTool.cpp:1261-1270 | queues the range at its location (without duplicates) and registers its slot; nothing else changes |
| `Sites.SiteTables.LoadBug` | src_clang/lavaTool.cpp:1310-1320 | queues the bug at its attack point and marks its trigger and its extra ranges |
| `Sites.SiteTables.LoadBugs` | src_clang/lavaTool.cpp:1309-1321 | queues every bug and marks all their ranges, in order, keeping the tables consistent |
| `Sites.SiteTables.SiphonsForLocation` | src_clang/lavaTool.cpp:656-669 | the siphons of the location's queue, in order and at distinct slots; the queue is erased and then looks up empty, so a second call emits nothing |
| `Sites.SiteTables.AttackRetBuffer` | src_clang/lavaTool.cpp:671-701 | the return-buffer attacks queued at the location's query point; that queue is erased and then looks up empty |
| `Sites.SiteTables.AttackExpression` | src_clang/lavaTool.cpp:538-586 | in inject mode, the queued bugs' addends added to the expression, then the queue is erased and looks up empty; in query mode, the query hypercall added and counted; no change to the expression when there is no addend |
| `Fuzzing.PlainMagic` | scripts/lava.py:248-259 | without the knob, the magic exists exactly for ids up to `lava`, and is `lava` minus the id |
| `Fuzzing.KnobMagicHalves` | scripts/lava.py:253-257 | with the knob, a magic exists exactly for knobs in [0, 0xffff); its high half is the knob and its low half is `lava`'s low half minus the id, modulo 2^16 |
| `Fuzzing.PackLE` | scripts/lava.py:257-259 | `struct.pack("<I")` gives four bytes |
| `Fuzzing.UnpackPack` | scripts/lava.py:257-259 | the four packed bytes read back, little-endian, as the value |
| `Fuzzing.PackUnpack` | scripts/lava.py:257-259 | packing the value of four bytes gives back those bytes |
| `Fuzzing.WritesSnoc` | scripts/lava.py:263-266 | the writes of one more list follow those of the earlier lists |
| `Fuzzing.Applied` | scripts/lava.py:263-266 | overwriting keeps the file's length |
| `Fuzzing.AppliedLast` | scripts/lava.py:263-266 | an offset holds the byte of the last write to it |
| `Fuzzing.UntouchedBytes` | scripts/lava.py:263-266 | an offset that no write names keeps its original byte |
| `Fuzzing.LaterListWins` | scripts/lava.py:263-266 | the last list's writes survive in the result |
| `Fuzzing.FieldReadsMagic` | scripts/lava.py:252-266 | the four distinct first offsets of the last list read back, little-endian, as the magic |
| `Fuzzing.AppliedSnoc` | scripts/lava.py:266 | one more write updates one byte |
| `Fuzzing.WritesPrefix` | scripts/lava.py:263-266 | the writes of the first lists are a prefix of all the writes |
| `Fuzzing.PrefixOutOfRange` | scripts/lava.py:263-266 | an offset past the end in the first lists is past the end for all of them |
| `Fuzzing.OverwriteFirstFour` | scripts/lava.py:264-266 | writes one list's first four offsets into the byte array, and reports failure exactly when one of them is past the end |
| `Fuzzing.MutFile` | scripts/lava.py:252-268 | fails with the magic's error when there is no magic; fails with an offset error exactly when some written offset is past the end; otherwise returns the input with every write applied and its length kept |
| `Validation.MatchingLines` | scripts/lava.py:483-485 | exactly the 1-based numbers of the lines that contain the needle, in increasing order |
| `Validation.Closest` | scripts/lava.py:487-490 | no result exactly for no candidate; otherwise a candidate that no other is closer to the begin line than, the smaller line number on a tie |
| `Validation.ClosestUnique` | scripts/lava.py:487-490 | the closest candidate is unique |
| `Validation.TriggerLineSpec` | scripts/lava.py:481-490 | the trigger line reads `lava_get(<id>)` and is closest to the begin line; there is a result exactly when some line reads the trigger |
| `Validation.CorruptionSignals` | scripts/lava.py:566-569 | the exit codes taken as corruption are exactly those of death by SIGABRT or SIGSEGV, run directly or through a shell |
| `Validation.ClassifyRun` | scripts/lava.py:560-588 | a real bug counts exactly when it is a printf leak whose output changed, or another kind whose exit code shows corruption (and whose stack trace agrees, when checked); a fake bug never counts and fails its assertion exactly when the exit code is not 0 |

## Left out

- **Modelled as abstract trees.** The header that defines the generated-expression builders (`LHex`, `LBinop`, `MagicTest`, `LIf`, `LAsm`) is not part of this model.
- **How `MagicTest` is evaluated.** It is taken to be `value == magic ? 1 : 0` on `uint32_t`.
- **Shifts.** A right shift of 32 or more gives 0.
- **Rendering to C text.** The `render` of the generated code is a parameter.
- `Triggers.RelationRoundTrip`: stated for the first two relations only. For the third, the test as written multiplies by `trigger + 1` where its magic formula has `extra0 + 1`, so the round trip does not hold (`Triggers.ThirdRelationMismatch`). The model follows the code as written.
- **Relation choice.** `threeDuaTest` picks its relation from the bug's old magic modulo 3. Only the private copy of the bug changes.
- **Competition mode.** The `LAVALOG` wrapping of attacks and of return-buffer attacks is not modelled. It is a reporting option that leaves the attack arithmetic unchanged.
- **Early return.** The empty-queue early return for competitions is not modelled either.
- **Other handlers.** The match handlers that call these operations (the clang AST walk, the choice of attack points, the handling of function arguments) are outside this core. `GetASTLoc`, `GetStringID` and `Lexer::MeasureTokenLength` are parameters: `AstLoc`, `stringId`, and a node's last-token length.
- **Slot keys.** An `LvalBytes` is compared by lval id and byte range, following its ordering operator. The ordering itself is not modelled.
- **`vector_set`.** It is modelled by its effect: insertion order is kept and duplicates are dropped.
- **Bug records.** They are assumed well formed:
  - a relational-write bug has at least two extra ranges;
  - a return-buffer bug has at least one;
  - pointer-add and printf-leak bugs need none.
- **The database.** It is a list of records passed in.
- **The leftovers report.** The "Failed to inject" report is modelled by the set of bug ids it prints and the queues it lists. Their text and order are left out.
- **Randomness.** `rand()` is a sequence of draws passed in. `threeDuaTest` takes twelve draws per relational-write bug, in queue order.
- **`parse_commas<uint32_t>`.** Not modelled. Bug ids come in as records.
- **`mutfile` I/O.** Reading and writing the files are left out: the file is the byte sequence passed in and returned. An offset past the end raises before anything is written, and the model returns an error in that case.
- **Negative offsets.** Python's negative offsets (counting from the end) are not modelled: offsets are natural numbers.
- **The knob.** The knob is Python's unbounded int. The `|` of the knob and the low half is modelled as a sum, which is the same because the low half is below 2^16. A negative knob is refused by `struct.pack`, and so is an id above `lava` without the knob.
- **`validate_bug`'s setup.** Running the program, building, the database updates and printing are left out. The exit code and output of the run are parameters. The debugger check `check_stacktrace_bug` is the boolean `stacktraceAgrees`.
- **The unfuzzed outputs.** `unfuzzed_outputs` is keyed by the base name of the input. The lookup in `validate_bug` uses the bug's recorded input file. A key that is missing raises: this is `KeyMissing`.
- **`validate_bugs`.** Its loop over bugs and the yield computed from the results (floating point) are left out.
- **`get_trigger_line` I/O.** Reading the file is left out: the file is its list of lines.

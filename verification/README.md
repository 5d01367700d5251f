# Inscryption API core, modelled in Dafny

This project models six parts of the Inscryption modding API (CardLoaderPlugin) and its community patch:

- **SlotAttackPatch** (`slot_attack.dfy`): the Harmony transpiler `SlotAttackSlotPatches.Transpiler`. It rewrites the IL of `CombatPhaseManager.SlotAttackSlot` in three stages:
  - it stores a modified attack in a custom field and reads it back in place of `get_Attack`;
  - it replaces the direct-damage trigger with `TriggerOnDirectDamageTriggers`;
  - it nests the rest of the attack under a null check of `opposingSlot.Card`.

  The instruction stream is a `seq<Instr>` (module `Il`, in `il.dfy`). Each instruction holds an opcode, an operand and the branch labels it carries.
- **DirectDamage** (`direct_damage.dfy`): `DamageToDealThisPhase`. It sorts the `IModifyDirectDamage` handlers by priority, folds them over the attack, and signs the result by side and turn.
- **Opponents** (`opponents.dfy`), from `OpponentManager`:
  - the boss registry and the sequencer-id lookup;
  - the `PreviousBosses` run-state text codec;
  - `ProcessBossType`;
  - the `MapGenerator.CreateNode` and Trapper/Trader scenery transpilers.
- **Boons** (`boons.dfy`), from `BoonManager`:
  - registering boons and keeping `AllBoonsCopy` in sync;
  - the live `BoonBehaviour` instances created before combat and on `DeckInfo.AddBoon`, with their instance numbers;
  - the deck's boon list;
  - the rule-book page range.
- **Pelts** (`pelts.dfy`), from `PeltManager`:
  - pelt prices (C# truncating division, multipliers, the cap and the floor of 1);
  - the base-pelt table and the cached `AllPelts` list;
  - `New`/`Add`, the name lookup, and the pelts sold at the Trader.
- **EnergyDrone** (`energy_drone.dfy`), from the community patch's `ActOneEnergyDrone`:
  - per-act drone configuration and the scene test;
  - the card-pool scan in `TryEnableEnergy`;
  - `CleanUp`;
  - the energy-cell animations.
- **PixelDecals** (`pixel_decals.dfy`), from `PixelCardManager`:
  - the custom GBC decal registry;
  - the `DisplayInfo` postfix that clears and rebuilds a pixel card's decals.

`Wrappers` (`wrappers.dfy`) holds `Option` and `Result`. An exception the C# code throws is a `Fail(fault)`:

- `ArgumentOutOfRangeException` is `OutOfRange`;
- `FormatException` is `BadFormat`;
- `InvalidOperationException` from `First` is `NoMatch`;
- `ArgumentNullException` is `NullArgument`;
- `NullReferenceException` is `NullReference`.
- `InvalidCastException` is `InvalidCast`.

`Seqs` (`seqs.dfy`) holds search, insertion, counting and filtering on sequences. `Text` (`text.dfy`) holds the .NET string operations the code relies on: `ToLowerInvariant` on ASCII, `Contains`, `IsNullOrWhiteSpace`, `int.ToString`, `int.Parse` and `Split(',')`.

Calls into the game and into Unity are parameters, as follows:

- **Environment:** the current scene name, the save file's act flags, the turn manager's state, the region tier, the story and challenge flags.
- **Content:** the card pool, the player's deck, the calling mod's GUID, the tier-name function.

## Model

| member | source | states |
|---|---|---|
| SlotAttackPatch.CaptureIsFirst | InscryptionAPI/Triggers/SlotAttackSlotPatches.cs:120-141 | A capture variable assigned only while it is still null ends up with the operand of the first matching instruction of the scanned range, and stays null when nothing matches |
| SlotAttackPatch.CaptureIsCopied | InscryptionAPI/Triggers/SlotAttackSlotPatches.cs:123-128 | Whatever a capture holds is null or the operand of some matching instruction inside the scanned range |
| SlotAttackPatch.CaptureLastIsNearest | InscryptionAPI/Triggers/SlotAttackSlotPatches.cs:175-183 | The backward search for `opposingSlot` (which stops before index 0) yields the operand of the matching instruction nearest to the anchor, or null when there is none |
| SlotAttackPatch.FindMarker | InscryptionAPI/Triggers/SlotAttackSlotPatches.cs:120-131 | The found index is the first `stfld` directly preceded by `ldc.i4.m1` at or after the start; no result means no such pair exists in the rest of the stream |
| SlotAttackPatch.FindMarkerIs | InscryptionAPI/Triggers/SlotAttackSlotPatches.cs:120-131 | Any index that is a marker with no marker before it (from the start) is the one the search returns |
| SlotAttackPatch.SpliceAfterMarker | InscryptionAPI/Triggers/SlotAttackSlotPatches.cs:133-156 | The scan after the marker either leaves the stream untouched (no store found) or makes it exactly six instructions longer |
| SlotAttackPatch.SpliceAfterMarkerAt | InscryptionAPI/Triggers/SlotAttackSlotPatches.cs:133-153 | When `k` is the first `stfld` after the marker, the guard is inserted right after `k` and nowhere else |
| SlotAttackPatch.OpposingCardNullCheck | InscryptionAPI/Triggers/SlotAttackSlotPatches.cs:110-162 | Throws `ArgumentOutOfRangeException` exactly when the index holds the `GlobalTriggerHandler.Instance` call and is the last instruction (the read of `codes[i + 1]`). The only other throw is the `InvalidCastException` of the `(MethodInfo)` cast at line 137, and it needs the seed. A miss leaves the stream unchanged; a hit needs the seed (the `Instance` call followed by `ldc.i4.7`) and adds six instructions |
| SlotAttackPatch.NullCheckCastFailure | InscryptionAPI/Triggers/SlotAttackSlotPatches.cs:133-137 | The cast throws only when some `call` after the seed has an operand that is not a method, such as a constructor |
| SlotAttackPatch.NullCheckCastsMethods | InscryptionAPI/Triggers/SlotAttackSlotPatches.cs:110-162 | When every `call` after the index names a method, the null check throws exactly when the seed call is the last instruction |
| SlotAttackPatch.NullCheckThrowsOnNonMethodCall | InscryptionAPI/Triggers/SlotAttackSlotPatches.cs:131-137 | When the first `call` after the seed's first marker, met before any `stfld`, has an operand that is not a method, the null check throws `InvalidCastException` |
| SlotAttackPatch.NullCheckAtMarker | InscryptionAPI/Triggers/SlotAttackSlotPatches.cs:131-157 | Once the seed's first marker is found, the cast of the first `call` in the scan after it decides: a non-method operand throws, and otherwise the result is the splice after the marker |
| SlotAttackPatch.NullCheckSplicesAfterFirstStore | InscryptionAPI/Triggers/SlotAttackSlotPatches.cs:113-153 | For a seed at `i`, its first marker `m` and the first store `k` after it, the result is the stream with the guard inserted after `k`; the guard's field and `get_Card` operands are the first ones between seed and marker, and its inequality call and break label are the first ones between marker and store. When that inequality call's operand is not a method, the cast throws instead |
| SlotAttackPatch.NullCheckMisses | InscryptionAPI/Triggers/SlotAttackSlotPatches.cs:120-161 | A seed with no marker after it reports no hit and changes nothing. One whose first marker has no later store changes nothing either, unless a `call` with a non-method operand follows the marker, which makes the cast throw. The outer scan stops at the first marker |
| SlotAttackPatch.CaptureResolves | InscryptionAPI/Triggers/SlotAttackSlotPatches.cs:123-141 | In a stream whose branches resolve, a captured operand that is a label names a label the stream defines |
| SlotAttackPatch.BranchCaptureIsLabel | InscryptionAPI/Triggers/SlotAttackSlotPatches.cs:140-141 | In a stream whose branches resolve, the captured `brfalse` operand is a label exactly when a `brfalse` lies in the scanned range, and null otherwise |
| SlotAttackPatch.NullGuardFits | InscryptionAPI/Triggers/SlotAttackSlotPatches.cs:146-152 | The six guard instructions carry no labels. Given operands that resolve, their branches resolve exactly when the break label is a label |
| SlotAttackPatch.GuardFits | InscryptionAPI/Triggers/SlotAttackSlotPatches.cs:139-152 | In a stream whose branches resolve, the guard carries no labels of its own, and its branches all resolve exactly when a `brfalse` lies between the marker and the store. Without one, the captured break label stays null and the guard's `brfalse` has no target |
| SlotAttackPatch.SpliceAfterMarkerKeepsLabels | InscryptionAPI/Triggers/SlotAttackSlotPatches.cs:133-153 | Splicing the guard defines exactly the labels defined before. The result's branches all resolve exactly when nothing was spliced or a `brfalse` precedes the first store after the marker |
| SlotAttackPatch.NullCheckKeepsBranchesResolved | InscryptionAPI/Triggers/SlotAttackSlotPatches.cs:110-162 | The null-check rewrite never changes the set of defined labels. A miss keeps every branch resolvable. A hit keeps them resolvable exactly when a `brfalse` lies between the seed's first marker and the first store after it; otherwise the emitted `brfalse` dangles |
| SlotAttackPatch.BranchBeforeFirstStore | InscryptionAPI/Triggers/SlotAttackSlotPatches.cs:133-153 | When `k` is the first store after the marker, a `brfalse` precedes the first store exactly when one lies between the marker and `k` |
| SlotAttackPatch.NullGuardStackNeutral | InscryptionAPI/Triggers/SlotAttackSlotPatches.cs:146-152 | `if (this.opposingSlot.Card != null)` leaves the evaluation stack as deep as it found it |
| SlotAttackPatch.StoreModifiedAttack | InscryptionAPI/Triggers/SlotAttackSlotPatches.cs:198-211 | The custom-field store is thirteen instructions long, the amount `index` advances past it |
| SlotAttackPatch.StoreModifiedAttackStackNeutral | InscryptionAPI/Triggers/SlotAttackSlotPatches.cs:198-211 | The inserted `CustomFields.Set(..., DamageToDealThisPhase(...))` statement leaves the evaluation stack as deep as it found it |
| SlotAttackPatch.ComputeAndSetDelta | InscryptionAPI/Triggers/SlotAttackSlotPatches.cs:209-211 | Computing, boxing and storing the damage consumes the four values pushed before it |
| SlotAttackPatch.AttackingSlotLoadDelta | InscryptionAPI/Triggers/SlotAttackSlotPatches.cs:199-201 | Loading `this.<>8__1.attackingSlot` pushes exactly one value |
| SlotAttackPatch.ExpandLength | InscryptionAPI/Triggers/SlotAttackSlotPatches.cs:215-228 | Each `get_Attack` replaced grows the stream by one instruction, and at most the requested number of replacements happen |
| SlotAttackPatch.ExpandSkipsPrefix | InscryptionAPI/Triggers/SlotAttackSlotPatches.cs:218-220 | Instructions that are not `get_Attack` calls are passed over unchanged |
| SlotAttackPatch.ExpandNothing | InscryptionAPI/Triggers/SlotAttackSlotPatches.cs:215-228 | With no rounds left, or no `get_Attack` call ahead, nothing is rewritten |
| SlotAttackPatch.ReplaceOnePass | InscryptionAPI/Triggers/SlotAttackSlotPatches.cs:218-226 | One pass of the inner loop, which turns the first `get_Attack` into `ldstr "modifiedAttack"; callvirt CustomFields.Get<int>`, agrees with the reference expansion of the remaining rounds |
| SlotAttackPatch.ReplaceAttackReads | InscryptionAPI/Triggers/SlotAttackSlotPatches.cs:213-228 | The two-round loop leaves the prefix before its start untouched and replaces exactly the first `rounds` `get_Attack` calls after it; the index it leaves lies inside the stream |
| SlotAttackPatch.ReplaceAttackReadsLength | InscryptionAPI/Triggers/SlotAttackSlotPatches.cs:215-228 | The stream grows by the smaller of the round count and the number of `get_Attack` calls after the start |
| SlotAttackPatch.StoreAndReplace | InscryptionAPI/Triggers/SlotAttackSlotPatches.cs:196-230 | The insertion succeeds exactly when its start lies within the list (`List.Insert` accepts `Count`); the index it reports lies past the thirteen inserted instructions |
| SlotAttackPatch.StoreAndReplaceShape | InscryptionAPI/Triggers/SlotAttackSlotPatches.cs:196-228 | The result is the prefix, then the custom-field store, then the tail with its first two `get_Attack` calls replaced |
| SlotAttackPatch.FindStoreFields | InscryptionAPI/Triggers/SlotAttackSlotPatches.cs:175-194 | Fails only when the display-class reference is the last instruction (the read of `codes[i + 1]`); the opposing-slot operand is the nearest reference before the anchor |
| SlotAttackPatch.StoreFieldsFromFirstReference | InscryptionAPI/Triggers/SlotAttackSlotPatches.cs:185-194 | The display class and attacking slot come from the first display-class reference after `index + 2` and the instruction following it; with no such reference both stay null |
| SlotAttackPatch.ModifyDirectDamageCheck | InscryptionAPI/Triggers/SlotAttackSlotPatches.cs:165-233 | Not at a `CanAttackDirectly` call: no hit and nothing changes; at one that is the last instruction, the insertion at `index + 2` throws; no other case fails except the forward capture reading past the end |
| SlotAttackPatch.ModifyDirectDamageCheckShape | InscryptionAPI/Triggers/SlotAttackSlotPatches.cs:165-228 | A hit keeps the code through `index + 1`, then has the store built from the captured fields, then the tail with its first two `get_Attack` calls replaced; the stream grows by 13 plus the number replaced |
| SlotAttackPatch.AttackReadSameEffect | InscryptionAPI/Triggers/SlotAttackSlotPatches.cs:222-223 | Replacing a `get_Attack` call by the custom-field read leaves the stack effect of the surrounding code unchanged |
| SlotAttackPatch.ReplaceTriggerCall | InscryptionAPI/Triggers/SlotAttackSlotPatches.cs:267-280 | Code before the start is never touched; with no `ldc.i4.7` ahead the stream is left as it is |
| SlotAttackPatch.ReplaceTriggerCallAt | InscryptionAPI/Triggers/SlotAttackSlotPatches.cs:267-280 | With `t` the first `ldc.i4.7` after the start: a negative removal count (`t` less than two past the start) throws; otherwise the instructions from the start up to `t - 2` are replaced by the three-instruction dispatch call and the index moves past it |
| SlotAttackPatch.DuplicateThisLoad | InscryptionAPI/Triggers/SlotAttackSlotPatches.cs:253-265 | Either nothing is inserted and the index stays, or exactly one instruction is inserted and the index moves by one |
| SlotAttackPatch.DuplicateThisLoadAt | InscryptionAPI/Triggers/SlotAttackSlotPatches.cs:253-265 | The `ldarg.0` nearest before the start (at index 1 or later) is the one duplicated, in place |
| SlotAttackPatch.CallTriggerOnDirectDamage | InscryptionAPI/Triggers/SlotAttackSlotPatches.cs:235-283 | Not at a `get_Card` call: no hit and nothing changes; at one, a successful rewrite reports a hit |
| SlotAttackPatch.CallTriggerDuplicatesNearestThisLoad | InscryptionAPI/Triggers/SlotAttackSlotPatches.cs:235-265 | The rewritten stream starts with the code through the `get_Card` call, with its nearest earlier `ldarg.0` doubled |
| SlotAttackPatch.CallTriggerWithoutThisLoad | InscryptionAPI/Triggers/SlotAttackSlotPatches.cs:253-265 | Without an `ldarg.0` between index 1 and the `get_Card` call, the code through that call is kept as it was |
| SlotAttackPatch.DispatchCallStackNeutral | InscryptionAPI/Triggers/SlotAttackSlotPatches.cs:275-277 | The call to `TriggerOnDirectDamageTriggers` consumes the card left on the stack together with the slot it loads |
| SlotAttackPatch.GuardLoopSkips | InscryptionAPI/Triggers/SlotAttackSlotPatches.cs:95-99 | When every position from `c` up to `i` reports no hit, the loop started at `c` gives what the loop started at `i` gives |
| SlotAttackPatch.NullCheckLoopShape | InscryptionAPI/Triggers/SlotAttackSlotPatches.cs:95-99 | Each try keeps the stream or adds one guard, so the whole loop keeps it or adds exactly one guard, and keeps it when no seed call lies ahead |
| SlotAttackPatch.NullCheckFrom | InscryptionAPI/Triggers/SlotAttackSlotPatches.cs:95-99 | The innermost loop changes the stream by one six-instruction guard or not at all, and not at all when no seed call follows |
| SlotAttackPatch.NullCheckFromFirstHit | InscryptionAPI/Triggers/SlotAttackSlotPatches.cs:95-99 | If every position before `i` misses and `i` hits, the loop's result is the null check's rewrite at `i` |
| SlotAttackPatch.TriggerAndGuard | InscryptionAPI/Triggers/SlotAttackSlotPatches.cs:91-101 | Without a `get_Card` call after the damage store, the later stages leave the stream as the first stage left it. The case with one is composed by `SlotAttackPatch.TranspileComposesStages` |
| SlotAttackPatch.Transpile | InscryptionAPI/Triggers/SlotAttackSlotPatches.cs:81-108 | A method body without a `CanAttackDirectly` call is returned unchanged. What the three stages do together is stated by `SlotAttackPatch.TranspileComposesStages` |
| SlotAttackPatch.TranspileStopsAfterStore | InscryptionAPI/Triggers/SlotAttackSlotPatches.cs:86-104 | The damage store is anchored at the first `CanAttackDirectly` call; when no `get_Card` call follows, the store's output is the transpiler's result |
| SlotAttackPatch.TranspileComposesStages | InscryptionAPI/Triggers/SlotAttackSlotPatches.cs:81-108 | With the first `CanAttackDirectly` call at `a`, the first later `get_Card` call at `b` and the first null-check hit at `c`, the result is the three stages composed: the code through `a + 1` is kept and the damage store follows it; `c` is a seed; the result is six instructions longer than the trigger stage's output |
| DirectDamage.InsertByPriority | InscryptionAPI/Triggers/SlotAttackSlotPatches.cs:47-51 | Inserting a handler adds exactly that handler and loses none |
| DirectDamage.InsertByPriorityKeepsOrder | InscryptionAPI/Triggers/SlotAttackSlotPatches.cs:48-51 | Inserting into a list of non-increasing priorities keeps it non-increasing |
| DirectDamage.SortByPriority | InscryptionAPI/Triggers/SlotAttackSlotPatches.cs:47-51 | The handlers are reordered (a permutation) into non-increasing priority, one of the orders the comparator `b - a` allows |
| DirectDamage.ApplyModifiersAppend | InscryptionAPI/Triggers/SlotAttackSlotPatches.cs:53-57 | Folding over two lists in a row equals folding the second over the first's result |
| DirectDamage.ApplyModifiersUnanswered | InscryptionAPI/Triggers/SlotAttackSlotPatches.cs:53-57 | When no handler responds, the damage comes out unchanged |
| DirectDamage.ApplyModifiersSkipsSilent | InscryptionAPI/Triggers/SlotAttackSlotPatches.cs:53-57 | A handler that never responds can be dropped without changing the result |
| DirectDamage.SignRule | InscryptionAPI/Triggers/SlotAttackSlotPatches.cs:59-76 | The result is the damage or its negation, and it is negated whenever both slots are on the same side |
| DirectDamage.SignRuleIsTurnRule | InscryptionAPI/Triggers/SlotAttackSlotPatches.cs:59-76 | The damage is positive exactly when the slots are on opposite sides and the attacker belongs to the side whose turn it is |
| DirectDamage.DamageToDealThisPhase | InscryptionAPI/Triggers/SlotAttackSlotPatches.cs:41-77 | The dealt damage is plus or minus the modified damage, and minus it when the card attacks its own side |
| DirectDamage.DamageWithoutModifiers | InscryptionAPI/Triggers/SlotAttackSlotPatches.cs:41-77 | With no responding handler, the dealt damage is the attack value signed by the side rule |
| Opponents.Initial | InscryptionAPI/Encounters/OpponentManager.cs:79 | At start `AllOpponents` is the base-game list and nothing has been added |
| Opponents.Add | InscryptionAPI/Encounters/OpponentManager.cs:86-92 | Appends one opponent with the given id and sequencer, no mask, and the node animation copied (or empty when null); `AllOpponents` becomes base game plus added |
| Opponents.SequencerIdFor | InscryptionAPI/Encounters/OpponentManager.cs:167-172 | `First` throws exactly when no opponent has the id; otherwise the result is the sequencer of an opponent with that id |
| Opponents.SequencerIdIsFirst | InscryptionAPI/Encounters/OpponentManager.cs:170 | The sequencer returned is the first matching opponent's |
| Opponents.AddKeepsLookups | InscryptionAPI/Encounters/OpponentManager.cs:73-92 | Adding an opponent never changes a lookup that already succeeded, and an id that was unknown now resolves to the new sequencer |
| Opponents.WritePreviousBosses | InscryptionAPI/Encounters/OpponentManager.cs:118-131 | The setter's loop writes the ids' decimals separated by single commas |
| Opponents.SerializedCommas | InscryptionAPI/Encounters/OpponentManager.cs:118-131 | A non-empty list is written as non-empty text with one comma fewer than ids, neither first nor last |
| Opponents.ParseAll | InscryptionAPI/Encounters/OpponentManager.cs:112 | Parsing the pieces yields one id per piece, each the piece's value, or a format error |
| Opponents.ParseAllOfDecimals | InscryptionAPI/Encounters/OpponentManager.cs:112-127 | Parsing the decimals the setter writes gives back the ids |
| Opponents.ReadPreviousBosses | InscryptionAPI/Encounters/OpponentManager.cs:95-117 | A missing value reads as no bosses; a comma-free value reads as at most one |
| Opponents.ReadIsSplitAndParse | InscryptionAPI/Encounters/OpponentManager.cs:104-114 | The single-boss branch agrees with splitting on commas and parsing each piece |
| Opponents.ReadOfWrite | InscryptionAPI/Encounters/OpponentManager.cs:95-131 | Reading back a non-empty list the setter stored gives the same list |
| Opponents.EmptyListDoesNotRoundTrip | InscryptionAPI/Encounters/OpponentManager.cs:100-130 | The empty list is stored as "" and reading "" back throws a format error |
| Opponents.ReadPreviousBossesFixed | InscryptionAPI/Encounters/OpponentManager.cs:95-117 | Reads "" as the empty list and otherwise as the getter does |
| Opponents.ReadFixedOfWrite | InscryptionAPI/Encounters/OpponentManager.cs:95-131 | With the corrected reader, every stored list reads back unchanged |
| Opponents.ProcessBossType | InscryptionAPI/Encounters/OpponentManager.cs:238-252 | Reads the list through the getter as written. A stored text the getter rejects makes the node throw, the empty text included. With nothing stored, tiers 0-2 get the three defaults and a later tier throws. A chosen boss is a recorded one, or a default when none is recorded |
| Opponents.ProcessBossTypeFixed | InscryptionAPI/Encounters/OpponentManager.cs:238-252 | Over the corrected getter, a missing or empty stored list gives the default for tiers 0-2; a chosen boss is a recorded one or a default |
| Opponents.ProcessBossTypeOfStored | InscryptionAPI/Encounters/OpponentManager.cs:238-252 | For a stored non-empty list, the boss of tier `t` is its `t`-th entry, and a tier past the end throws. A stored empty list throws a format error as written; with the corrected getter it gives the `t`-th default |
| Opponents.CreateNodeTranspiler | InscryptionAPI/Encounters/OpponentManager.cs:204-236 | Without a store to `bossType` the method is unchanged; otherwise it grows by exactly two instructions |
| Opponents.CreateNodeInsertsAfterFirstStore | InscryptionAPI/Encounters/OpponentManager.cs:221-233 | `ldloc.0; call ProcessBossType` goes right after the first store to `bossType` |
| Opponents.ProcessCallStackNeutral | InscryptionAPI/Encounters/OpponentManager.cs:228-229 | The inserted call leaves the evaluation stack as it found it |
| Opponents.CreateNodeKeepsLabels | InscryptionAPI/Encounters/OpponentManager.cs:221-233 | The output's branches resolve exactly when the input's do, and it defines the same labels |
| Opponents.PreventCallsTranspiler | InscryptionAPI/Encounters/OpponentManager.cs:318-343 | The length is preserved; without `ldstr "knives_table_exit"` nothing changes; it fails only when that load is the last instruction |
| Opponents.PreventCallsReplacesNext | InscryptionAPI/Encounters/OpponentManager.cs:330-340 | Exactly the instruction after the first `knives_table_exit` load becomes the call to `PlayAnimation`; past the end it throws |
| Opponents.PreventCallsSameEffect | InscryptionAPI/Encounters/OpponentManager.cs:336 | `PlayAnimation(animation, key)` has the stack effect of the `Animation.Play(key)` call it replaces |
| Boons.FindBoon | InscryptionAPI/Boons/BoonManager.cs:92 | A found boon has the requested type and is registered; nothing is found exactly when no registered boon has that type |
| Boons.FindBoonIs | InscryptionAPI/Boons/BoonManager.cs:92 | `List.Find` returns the first registered boon of the type: when two boons share a type, the earlier one is found |
| Boons.FindBoonAppend | InscryptionAPI/Boons/BoonManager.cs:42 | Registering a boon does not change which boon an existing type finds; a new type finds the boon just registered |
| Boons.OnlyStackingBoonsRepeat | InscryptionAPI/Boons/BoonManager.cs:93 | In any reachable state, two live instances of one type both come from a stackable boon |
| Boons.Initial | InscryptionAPI/Boons/BoonManager.cs:13-15 | The initial state, with no custom boons and no instances, satisfies the invariant |
| Boons.SyncCardList | InscryptionAPI/Boons/BoonManager.cs:60-64 | `AllBoonsCopy` becomes the base-game boons followed by the custom boons' data; nothing else changes |
| Boons.New | InscryptionAPI/Boons/BoonManager.cs:17-44 | Registers exactly one boon carrying the given type, name (also displayed), description, handler, stacking, rulebook flag, and minor-effect flag (the negation of "appears in Leshy trials"); the invariant is kept |
| Boons.NewKeepsValid | InscryptionAPI/Boons/BoonManager.cs:75-78 | Appending a boon and re-syncing the card list keeps the invariant |
| Boons.CreateInstance | InscryptionAPI/Boons/BoonManager.cs:92-103 | Only a boon with a `BoonBehaviour` handler that stacks, or has no live instance, gets a new instance, numbered one past the live instances of its type; the registry is untouched |
| Boons.CreateInstanceKeepsValid | InscryptionAPI/Boons/BoonManager.cs:92-103 | Creating an instance keeps the invariant |
| Boons.AddBoon | InscryptionAPI/Boons/BoonManager.cs:147-166 | Outside an ongoing battle nothing happens; otherwise at most one instance is appended; the registry and invariant are preserved |
| Boons.DestroyAllInstances | InscryptionAPI/Boons/BoonManager.cs:85 | All instances are gone, the registry is unchanged, and the invariant holds |
| Boons.ClearBoons | InscryptionAPI/Boons/BoonManager.cs:170-173 | Clearing the deck's boons destroys every instance and keeps the invariant |
| Boons.CleanupCalls | InscryptionAPI/Boons/BoonManager.cs:127-140 | One cleanup loop calls back exactly the live instances that respond, once each and in list order, each in the loop's pre- or post-battle form: the `k`-th call goes to the `k`-th responding instance, and there are as many calls as responding instances |
| Boons.CleanupPhase | InscryptionAPI/Boons/BoonManager.cs:125-143 | Every responding live instance gets its pre-battle cleanup, and every post-battle cleanup comes after all the pre-battle ones; only live, responding instances are called back. Afterwards no instance is left, the invariant holds, and the registry and card list are untouched |
| Boons.CreateForDeck | InscryptionAPI/Boons/BoonManager.cs:88-111 | The deck loop only appends instances and leaves the registry alone. For every type, the live count afterwards follows the creation rule over the deck's entries of that type: a stacking boon gains one per entry; a non-stacking boon ends with one if it had none; a boon without a `BoonBehaviour` handler gains none |
| Boons.CreateForDeckKeepsValid | InscryptionAPI/Boons/BoonManager.cs:88-111 | The deck loop keeps the invariant |
| Boons.ActivatePreCombatBoons | InscryptionAPI/Boons/BoonManager.cs:83-121 | Keeps the invariant. With boons disabled or no deck there are no instances. Otherwise, for every type, the count is what the creation rule gives from zero over that type's deck entries: one per entry for a stacking boon, one for a non-stacking boon, none without a handler |
| Boons.ActivateCreatesOnePerBoon | InscryptionAPI/Boons/BoonManager.cs:85-103 | A deck holding one eligible boon yields exactly one instance, numbered 1, since old instances are destroyed first |
| Boons.RemoveNulls | InscryptionAPI/Boons/BoonManager.cs:188-191 | The result is the list's non-null entries, in their original order and with their multiplicity. No null remains, and no entry is invented |
| Boons.RemoveNullsIdempotent | InscryptionAPI/Boons/BoonManager.cs:190 | Removing nulls twice is removing them once |
| Boons.GetBoons | InscryptionAPI/Boons/BoonManager.cs:177-184 | The list is reloaded (with nulls removed) exactly when both lists exist and their counts differ; the ids are never touched and the result is the deck's list |
| Boons.MinOf | InscryptionAPI/Boons/BoonManager.cs:204 | The minimum is an element and bounds every element from below |
| Boons.MaxOf | InscryptionAPI/Boons/BoonManager.cs:205 | The maximum is an element and bounds every element from above |
| Boons.BoonPageRange | InscryptionAPI/Boons/BoonManager.cs:197-209 | There is a range exactly when custom boons exist; it is the half-open span from the least to one past the greatest custom type, both attained |
| Boons.ShownPagesInRange | InscryptionAPI/Boons/BoonManager.cs:203-213 | Every page the filter keeps lies inside the constructed range |
| Pelts.TruncDiv | InscryptionAPI/Pelts/PeltManager.cs:44 | C# integer division: the quotient's magnitude is the quotient of the magnitudes, and a non-zero quotient is positive exactly when the operands agree in sign |
| Pelts.TruncDivOfNatural | InscryptionAPI/Pelts/PeltManager.cs:44 | On natural operands C# division and Euclidean division agree |
| Pelts.TruncDivOfNegative | InscryptionAPI/Pelts/PeltManager.cs:44 | On `-1 / 2` C# division gives 0 where Euclidean division gives -1 |
| Pelts.Multiplier | InscryptionAPI/Pelts/PeltManager.cs:42-43 | A multiplier is at least 1; it is 1 exactly when its condition is off or the configured value is at most 1, and the configured value otherwise |
| Pelts.CustomBuyPrice | InscryptionAPI/Pelts/PeltManager.cs:38-49 | The price is at least 1 and at most a positive cap; it is the computed price, 1, or the cap, and it is the computed price whenever that already lies within bounds |
| Pelts.PlainCustomPrice | InscryptionAPI/Pelts/PeltManager.cs:38-49 | With no modifier active, default adjustment and no cap, the price is the base price plus the region tier, floored at 1 |
| Pelts.BasePeltPrices | InscryptionAPI/Pelts/PeltManager.cs:62-75 | Three prices; the golden pelt costs at most 20; all are at least 1 for a non-negative region tier |
| Pelts.BasePricesUnmodified | InscryptionAPI/Pelts/PeltManager.cs:62-75 | Without modifiers the prices are 2, 4 plus the tier, and 7 plus twice the tier capped at 20; the hare pelt stays at 2 with both modifiers |
| Pelts.BaseIndex | InscryptionAPI/Pelts/PeltManager.cs:15 | Finds the base-pelt table row of a name, and nothing exactly when the name is not a base-pelt name |
| Pelts.BuyPrice | InscryptionAPI/Pelts/PeltManager.cs:13-49 | A custom pelt costs its computed price; a base pelt costs its table price, and throws (null tuple) exactly when its name is not in the table; a price read is at least 1 for a non-negative tier |
| Pelts.CreateBasePelts | InscryptionAPI/Pelts/PeltManager.cs:96-121 | Three base pelts (hare, wolf, golden) sold by the Trapper; the wolf adds one extra ability; the golden offers four cards, drawn from Nature rares; the others offer eight Nature trader cards |
| Pelts.BasePeltsPriceFromTable | InscryptionAPI/Pelts/PeltManager.cs:83-94 | Each base pelt's price is its row of the base price table |
| Pelts.AllPelts | InscryptionAPI/Pelts/PeltManager.cs:77-81 | The base pelts are created once and cached; the result is base pelts followed by added ones |
| Pelts.AllPeltsCached | InscryptionAPI/Pelts/PeltManager.cs:79 | A second call changes nothing and returns the same list |
| Pelts.Add | InscryptionAPI/Pelts/PeltManager.cs:164-176 | A blank name is refused and nothing changes; the plugin GUID defaults to the caller's; an object is appended only if not already present, so objects stay distinct |
| Pelts.AddTwiceOnce | InscryptionAPI/Pelts/PeltManager.cs:174-175 | Adding the same object twice registers it once |
| Pelts.New | InscryptionAPI/Pelts/PeltManager.cs:138-158 | Throws `ArgumentNullException` exactly when no card-choice function is given; otherwise the new pelt carries the given card, tier name, price, abilities, offer count and choices, and is registered as `Add` does |
| Pelts.GetPelt | InscryptionAPI/Pelts/PeltManager.cs:196-199 | Looking up a pelt fills the base-pelt cache as `AllPelts` does |
| Pelts.FirstNamed | InscryptionAPI/Pelts/PeltManager.cs:198 | A found pelt is listed and has the name; nothing is found exactly when no pelt has it |
| Pelts.FirstNamedIsFirst | InscryptionAPI/Pelts/PeltManager.cs:198 | The pelt found is the first one with the name |
| Pelts.BaseNamesShadowCustom | InscryptionAPI/Pelts/PeltManager.cs:196-199 | A base-pelt name always finds the base pelt, whatever mods add under the same name |
| Pelts.GetCostOfPelt | InscryptionAPI/Pelts/PeltManager.cs:185-194 | An unknown name costs 1, a known pelt costs its buy price; a cost is at least 1 for a non-negative tier |
| Pelts.AllPeltsAvailableAtTrader | InscryptionAPI/Pelts/PeltManager.cs:178-183 | A pelt is offered exactly when it is among all pelts and sold by the Trapper; the list has as many entries as all pelts has pelts sold by the Trapper |
| Pelts.TraderKeepsOrder | InscryptionAPI/Pelts/PeltManager.cs:178-183 | `Where` keeps the order and repeats of `AllPelts`: the offered list is the base pelts the Trapper sells, then the added pelts it sells, in registration order |
| Pelts.BasePeltsAtTrader | InscryptionAPI/Pelts/PeltManager.cs:178-183 | On first use the offered list starts with the three base pelts, in table order, followed by exactly the added pelts the Trapper sells |
| EnergyDrone.NewEnergyConfigInfo | InscryptionCommunityPatch/ResourceManagers/ActOneEnergyDrone.cs:17-29 | Each flag is on when the pool has the matching resource or its setting is on; the default-drone flag follows its setting |
| EnergyDrone.BuildZoneConfigs | InscryptionCommunityPatch/ResourceManagers/ActOneEnergyDrone.cs:34-40 | Every temple gets the configuration built from the same pool flags |
| EnergyDrone.TypeInitZoneConfigs | InscryptionCommunityPatch/ResourceManagers/ActOneEnergyDrone.cs:34-40 | At type initialisation every temple's configuration is built while both pool flags are still false |
| EnergyDrone.ConfigZone | InscryptionCommunityPatch/ResourceManagers/ActOneEnergyDrone.cs:66-78 | Act 3 uses Tech, then Grimora uses Undead, Magnificus uses Wizard, anything else Nature, in that order of precedence |
| EnergyDrone.GetEnergyConfig | InscryptionCommunityPatch/ResourceManagers/ActOneEnergyDrone.cs:66-78 | Act 3 gets the Tech configuration, Grimora the Undead, Magnificus the Wizard, and anything else the Nature. Outside Act 3 the entry is that of the temple whose pool `TryEnableEnergy` scans |
| EnergyDrone.TargetTemple | InscryptionCommunityPatch/ResourceManagers/ActOneEnergyDrone.cs:105-107 | The scanned temple is never Tech: Undead for Grimora, then Wizard for Magnificus, else Nature |
| EnergyDrone.TempleSelectionsAgree | InscryptionCommunityPatch/ResourceManagers/ActOneEnergyDrone.cs:66-107 | Outside Act 3 the scanned temple and the configured zone coincide; in Act 3 they never do |
| EnergyDrone.SceneCanHaveEnergyDrone | InscryptionCommunityPatch/ResourceManagers/ActOneEnergyDrone.cs:42-49 | With the name lower-cased: a qualifying scene names part1, Magnificus or Grimora. A part1 scene qualifies exactly when it names neither the sanctum nor the finale. Any scene naming Magnificus or Grimora without part1 qualifies |
| EnergyDrone.SceneTestIgnoresCase | InscryptionCommunityPatch/ResourceManagers/ActOneEnergyDrone.cs:44 | Lower-casing the name first does not change the verdict |
| EnergyDrone.CurrentSceneCanHaveEnergyDrone | InscryptionCommunityPatch/ResourceManagers/ActOneEnergyDrone.cs:51-61 | A missing or empty scene name never qualifies; any other is judged by the scene test |
| EnergyDrone.CardIsVisible | InscryptionCommunityPatch/ResourceManagers/ActOneEnergyDrone.cs:88-96 | A card of another temple is invisible; a card of the temple is visible exactly when it has a choice-node, trader-offer or rare category |
| EnergyDrone.PoolHasEnergy | InscryptionCommunityPatch/ResourceManagers/ActOneEnergyDrone.cs:109 | True exactly when some visible card costs energy |
| EnergyDrone.PoolHasGems | InscryptionCommunityPatch/ResourceManagers/ActOneEnergyDrone.cs:110 | True exactly when some visible card costs gems |
| EnergyDrone.TryEnableEnergyAsWritten | InscryptionCommunityPatch/ResourceManagers/ActOneEnergyDrone.cs:98-117 | Skips exactly the scenes the scene test rejects; records both pool flags; wakes the drone as the stored configuration says |
| EnergyDrone.AsWrittenIgnoresPool | InscryptionCommunityPatch/ResourceManagers/ActOneEnergyDrone.cs:19-21 | With the configurations built at type initialisation, the drone wakes exactly when the drone or drone-mox setting is on, whatever the pool holds |
| EnergyDrone.TryEnableEnergy | InscryptionCommunityPatch/ResourceManagers/ActOneEnergyDrone.cs:98-117 | As written, except the drone wakes exactly when the pool has energy or gems or a drone setting is on, and the stored configuration agrees |
| EnergyDrone.PoolFlagsReachDrone | InscryptionCommunityPatch/ResourceManagers/ActOneEnergyDrone.cs:109-116 | An Act 1 pool with one energy card and all settings off: as written the drone stays asleep, corrected it wakes |
| EnergyDrone.CleanUp | InscryptionCommunityPatch/ResourceManagers/ActOneEnergyDrone.cs:199-218 | With energy configured, energy and max energy are reset to 0; with mox configured, gems are cleared; the drone closes its cells and leaves the board exactly when configured and present; its gems go off only with drone mox and a gem module |
| EnergyDrone.CleanUpIdempotent | InscryptionCommunityPatch/ResourceManagers/ActOneEnergyDrone.cs:199-218 | Cleaning up twice leaves the resources as cleaning up once |
| EnergyDrone.ShowAddEnergy | InscryptionCommunityPatch/ResourceManagers/ActOneEnergyDrone.cs:249-265 | When active, lights one cell per energy gained, in ascending order, covering exactly the cells from old to new energy; when inactive, does nothing |
| EnergyDrone.ShowSpendEnergy | InscryptionCommunityPatch/ResourceManagers/ActOneEnergyDrone.cs:267-287 | When active, turns off one cell per energy spent, in descending order, covering exactly the cells from new to old energy; when inactive, does nothing |
| EnergyDrone.SpendUndoesAdd | InscryptionCommunityPatch/ResourceManagers/ActOneEnergyDrone.cs:249-287 | Spending an amount turns off, in reverse order, exactly the cells gaining it lit |
| EnergyDrone.ShowAddMaxEnergy | InscryptionCommunityPatch/ResourceManagers/ActOneEnergyDrone.cs:235-247 | When active, the cell opened is the one gaining the last unit of the new maximum would light |
| PixelDecals.Initial | InscryptionAPI/PixelCard/PixelCardManager.cs:22 | The registry starts empty |
| PixelDecals.AddGBCDecal | InscryptionAPI/PixelCard/PixelCardManager.cs:24-36 | The new decal, a fresh object, is never already contained, so it is always appended and returned |
| PixelDecals.AddTwiceKeepsFirst | InscryptionAPI/PixelCard/PixelCardManager.cs:24-36 | Registering one texture name twice keeps both entries, and lookups by that name find the first |
| PixelDecals.ShowsDecalsEitherGrouping | InscryptionAPI/PixelCard/PixelCardManager.cs:88 | Whether the display test is grouped as written or as `(a or b) and c`, it decides the same |
| PixelDecals.ShowsDecals | InscryptionAPI/PixelCard/PixelCardManager.cs:88 | The snapshot displayer always shows decals, the preview panel never does, and outside the GBC card battle only the snapshot does |
| PixelDecals.FindDecal | InscryptionAPI/PixelCard/PixelCardManager.cs:154 | A found decal is registered under the id; nothing is found exactly when no decal has that texture name |
| PixelDecals.FindDecalIs | InscryptionAPI/PixelCard/PixelCardManager.cs:154 | The decal found is the first registered with the name |
| PixelDecals.ResolveIds | InscryptionAPI/PixelCard/PixelCardManager.cs:152-158 | The entries are the known ids, in order and with repeats; each carries the texture of the first decal registered under its name |
| PixelDecals.KnownIdsMembers | InscryptionAPI/PixelCard/PixelCardManager.cs:152-158 | An id survives the filter exactly when it is listed and a decal is registered under it; when every id is known, all survive |
| PixelDecals.ResolveIdsAppend | InscryptionAPI/PixelCard/PixelCardManager.cs:150-158 | Resolving two id lists in a row is resolving their concatenation |
| PixelDecals.ResolveModDecalsFlat | InscryptionAPI/PixelCard/PixelCardManager.cs:149-159 | The nested loop over mods and their ids resolves the flattened id list in order |
| PixelDecals.ClearDecals | InscryptionAPI/PixelCard/PixelCardManager.cs:98-110 | No decal child survives the clearing |
| PixelDecals.GemBorder | InscryptionAPI/PixelCard/PixelCardManager.cs:112-119 | The gemified border and its three gem lights: four decals, the border first |
| PixelDecals.BorderFor | InscryptionAPI/PixelCard/PixelCardManager.cs:112-119 | The border is added exactly for a gemified card that does not already show one |
| PixelDecals.DecalChildren | InscryptionAPI/PixelCard/PixelCardManager.cs:161-165 | One decal child per resolved texture, named after it, in order |
| PixelDecals.AddedDecals | InscryptionAPI/PixelCard/PixelCardManager.cs:146-165 | Everything added for the card's mods is a decal |
| PixelDecals.AddDecalToCard | InscryptionAPI/PixelCard/PixelCardManager.cs:92-166 | Nothing happens without `CardElements`. Otherwise the non-decal children are kept, in order and first, followed by the border when due. Then, when the card has mods, one decal per known id of its mods, in order |
| PixelDecals.DisplayIdempotent | InscryptionAPI/PixelCard/PixelCardManager.cs:92-166 | Displaying a card a second time gives the same children as displaying it once |
| PixelDecals.DecalPatches | InscryptionAPI/PixelCard/PixelCardManager.cs:84-90 | A card the display test rejects is left alone. One it accepts keeps its non-decal children, and each decal it then shows is the border or is named by a known id of its mods |
| PixelDecals.DecalPatchesIdempotent | InscryptionAPI/PixelCard/PixelCardManager.cs:84-166 | Running the postfix twice on the same card gives what running it once gives |
| PixelDecals.RebuildDisplayedFrom | InscryptionAPI/PixelCard/PixelCardManager.cs:98-166 | The rebuilt children keep the non-decal children and show only the border or decals named by the mods' known ids |
| PixelDecals.RebuildKeepsPlain | InscryptionAPI/PixelCard/PixelCardManager.cs:98-119 | Clearing the decals of the rebuilt children gives back exactly the kept ones |
| PixelDecals.AddedDecalsNamed | InscryptionAPI/PixelCard/PixelCardManager.cs:149-165 | Every decal added for a card is named by a known id of its mods, and none is added without mods |
| Text.Lower | InscryptionCommunityPatch/ResourceManagers/ActOneEnergyDrone.cs:44 | Lower-casing keeps the length and maps each character independently |
| Text.LowerIdempotent | InscryptionCommunityPatch/ResourceManagers/ActOneEnergyDrone.cs:44 | Lower-casing twice is lower-casing once |
| Text.ContainsAt | InscryptionCommunityPatch/ResourceManagers/ActOneEnergyDrone.cs:45-48 | `Contains` holds exactly when the text occurs at some position |
| Text.LowerOfLowerCase | InscryptionCommunityPatch/ResourceManagers/ActOneEnergyDrone.cs:44 | A text with no upper-case ASCII letter is its own lower-case form |
| Text.IntToString | InscryptionAPI/Encounters/OpponentManager.cs:127 | An integer's decimal text is non-empty and comma-free |
| Text.ParseInt | InscryptionAPI/Encounters/OpponentManager.cs:104-112 | A text `int.Parse` accepts is non-empty and has no comma, and a negative value has a leading minus sign |
| Text.ParseOfToString | InscryptionAPI/Encounters/OpponentManager.cs:107-127 | `int.Parse` reads back every integer's decimal text |
| Text.SplitCommas | InscryptionAPI/Encounters/OpponentManager.cs:112 | Splitting on commas gives at least one piece, none containing a comma |
| Text.SplitOfJoin | InscryptionAPI/Encounters/OpponentManager.cs:112-129 | Splitting comma-joined comma-free pieces gives the pieces back |
| Text.JoinOfSplit | InscryptionAPI/Encounters/OpponentManager.cs:112-129 | Joining the split pieces with commas gives the text back |
| Text.JoinCommasCount | InscryptionAPI/Encounters/OpponentManager.cs:120-129 | Joining `n` comma-free pieces puts exactly `n - 1` commas in the text |

## Left out

- Harmony, reflection and the game: `MethodInfo` lookups and `AccessTools` are left out, as are coroutines, `yield` and `WaitForSeconds`, Unity objects and components, audio and logging.
- Host members: transpilers compare members through the `Il.Member` enumeration, so an operand is identified by the member it names. A string or type-token operand whose text happens to equal a member's signature is not treated as naming that member.
- Captures that meet a null operand: the source's `== null` tests let a later match overwrite a capture whose first match had a null operand. The model's capture stops at the first match whatever its operand. A `call`, `callvirt`, `ldfld` or `brfalse` with a null operand is not valid IL.
- Operand kinds: `Il.Operand` names methods, constructors, fields, strings, labels and type tokens. Harmony's other operand kinds (locals, arguments, numbers) are not modelled. The `(MethodInfo)` cast succeeds on a method or null and fails on every other kind.
- Stack effects: these are modelled only for the opcodes the rewrites touch. Any other opcode's effect is unknown.
- `int.Parse`: the model accepts an optional `-` and decimal digits only. .NET also accepts surrounding whitespace and a leading `+`, and throws `OverflowException` on out-of-range values.
- C# `int` overflow: not modelled in the price, damage or priority arithmetic. `DirectDamage.SortByPriority` assumes the comparator `b - a` does not overflow.
- `List.Sort`: it is not stable, so the sort is specified as any permutation of non-increasing priority. `DamageToDealThisPhase` takes the order as a parameter constrained to be one.
- Enum values: the three first bosses are assumed to have the values 1, 2 and 3. `IsOpponentSlot` is taken to be the negation of `IsPlayerSlot`.
- `Opponents.PreventCallsTranspiler`: the replaced instruction's labels are dropped, as `new CodeInstruction` drops them. `codes[i].operand == "knives_table_exit"` compares object references in C# and is modelled as text equality.
- Omitted patches and helpers, because they do not touch the modelled state:
  - boss spawning and prefab paths;
  - `CloneCardInfo`;
  - `CustomBossExhaustionSequence`;
  - the scenery-disabling prefixes;
  - `GenBaseGameOpponents`: the base-game list is a parameter.
- `TriggerOnDirectDamageTriggers`: left out because it only runs game triggers.
- Pelts:
  - `GetTierNameFromPelt` and `ToTitleCase` are the parameter `tierNameOf`, and `GetModIdFromCallstack` is the parameter `callingModId`;
  - `CreateDialogueEvents` and `ModifyCardChoiceAtTrader` are omitted;
  - a `CardChoices` function is represented by which pool it draws from.
- `Pelts.GetPelt`: its contract states only the cache effect. The pelt it finds is stated by `Pelts.FirstNamed`, `Pelts.FirstNamedIsFirst` and `Pelts.BaseNamesShadowCustom`.
- Boons:
  - what the behaviour callbacks do is not modelled. `Boons.CleanupPhase` records which cleanup callbacks run and in what order; the pre/post activation callbacks are not modelled, and neither is Unity's destroyed-object test (`bb &&`), since the listed instances are taken to be live;
  - `AddComponent(handler) as BoonBehaviour` is modelled by the handler's `isBoonBehaviour` flag. `AddBoon` does not test `IsSubclassOf`, but its null test on the `as` cast has the same effect;
  - the rule-book icon test is a parameter, and page construction and insertion are omitted.
- Energy drone:
  - `SetOnBoard`, `ResourcesManager.Setup`, the gem postfixes, `UpkeepPhase`, `AwakeDrone` and `AttachDroneToScale` are not modelled;
  - the cell animations are modelled as the sequence of cell calls, without the timing and audio pitch;
  - `ShowAddMaxEnergy`'s `OpenCell` is modelled by the index of the cell it opens.
- Pixel cards:
  - the appearance-behaviour displayers and portrait overrides (lines 121-144 of `PixelCardManager.cs`) are not modelled, nor are `GetCorrectCardComponentInAct2`, `ClearTempDecals`, `PixelUpdateBackground`, `Initialise` or sprite conversion;
  - `PixelCurrentDeckPatch` is not part of this model;
  - `ToString()` of a decal's texture object is not modelled; textures are handles.
- Object identity and later mutation: pelts, boons, opponents and decals are immutable records, so the model keeps the values an object had when it was registered.
  - `PeltManager.New` returns the registered object "so a chain can continue" (`PeltManager.cs` line 132), and a caller may change it afterwards.
  - `Add` assigns `pluginGuid ??=` on the object it is given, which the caller may share with other code.
  - A registered `PixelDecalData` can be changed through a kept reference.

  None of these later changes, or their effect on the registries, is modelled. A pelt's identity is its `objectId` field, which is what `Contains` compares. The registered entry, however, is a copy, so a change made through one reference does not reach the others.
- `Text.Lower`: models `ToLowerInvariant` on the ASCII letters only, because the scene names it is applied to are ASCII. Non-ASCII upper-case letters, which .NET also lower-cases, are left unchanged.
- `SlotAttackPatch.GuardFits`: when no `brfalse` lies between the marker and the store, the source emits `brfalse` with a null operand. The model states only that the branches then no longer resolve. What Harmony or the runtime does with such code is not modelled.
- `Opponents.ProcessBossType`: the region tier is taken as a natural number. A negative tier throws in the source and is not modelled.
- `SlotAttackPatch.StoreModifiedAttack`: its own contract states only the length. The block's content and position are stated by `SlotAttackPatch.ModifyDirectDamageCheckShape`.
- `Opponents.ReadPreviousBosses`: its own contract states only the missing-value and single-value cases. The general behaviour is stated by `Opponents.ReadIsSplitAndParse` and `Opponents.ReadOfWrite`.

## Findings

| source | as written | input that shows it | evidently intended | confidence | as-written member | corrected member |
|---|---|---|---|---|---|---|
| InscryptionAPI/Encounters/OpponentManager.cs:100-130 | The setter stores an empty boss list as "". The getter sends "", which has no comma, to `int.Parse`, which throws `FormatException`. | `RunStateOpponents = []`, then read `RunStateOpponents` | An empty stored list reads back as empty, as `ProcessBossType`'s empty-list default (lines 244-249) expects | medium; not executed | Opponents.EmptyListDoesNotRoundTrip | Opponents.ProcessBossTypeFixed |
| InscryptionCommunityPatch/ResourceManagers/ActOneEnergyDrone.cs:19-40 | `ZoneConfigs` is built at type initialisation, while `PoolHasEnergy`/`PoolHasGems` are still false. `TryEnableEnergy` sets the pool flags later (lines 109-110) but reads the stored configuration (line 115), so the pool never reaches the drone decision. | Act 1 scene "part1", all settings off, the pool holding one Nature choice-node card with energy cost 1 | The drone wakes when the pool has energy or gem cards, as the `ConfigDrone` documentation (line 26) says | medium; not executed | EnergyDrone.PoolFlagsReachDrone | EnergyDrone.TryEnableEnergy |

/** `BoonManager`: custom boons, the list of all boons the game loads, the
    live boon-behaviour instances created for a battle, the deck's boon list,
    and the rulebook's boon page range. */
module Boons {
  import opened Wrappers
  import opened Seqs

  /** A value of the game's `BoonData.Type` enum, which `GuidManager` extends
      with fresh values for modded boons. */
  type BoonType = int

  /** Handle of a Unity texture. */
  type TextureRef = nat

  datatype BoonData = BoonData(
    boonType: BoonType,
    name: string,
    displayedName: string,
    description: string,
    icon: TextureRef,
    cardArt: TextureRef,
    minorEffect: bool)

  /** The handler type given to `New`, by name, and whether it derives from
      `BoonBehaviour`: only such a type yields a behaviour when added as a
      component (`AddComponent(type) as BoonBehaviour` is `null` otherwise). */
  datatype HandlerType = HandlerType(typeName: string, isBoonBehaviour: bool)

  datatype FullBoon = FullBoon(boon: BoonData, handler: Option<HandlerType>, appearInRulebook: bool, stacks: bool)

  /** A live `BoonBehaviour`: the boon it was created for and its number among
      the instances of that boon type. */
  datatype Instance = Instance(boon: FullBoon, instanceNumber: nat)

  /** The base-game boons, the ones added by mods, `AllBoonsCopy`, and
      `BoonBehaviour.Instances`. */
  datatype BoonState = BoonState(
    baseGame: seq<BoonData>,
    newBoons: seq<FullBoon>,
    allBoonsCopy: seq<BoonData>,
    instances: seq<Instance>)

  function TypeOf(i: Instance): BoonType {
    i.boon.boon.boonType
  }

  /** The `BoonData` of each custom boon. */
  function DataOf(boons: seq<FullBoon>): (r: seq<BoonData>)
    ensures |r| == |boons|
    ensures forall k :: 0 <= k < |r| ==> r[k] == boons[k].boon
  {
    if |boons| == 0 then [] else [boons[0].boon] + DataOf(boons[1..])
  }

  /** `NewBoons.ToList().Find(x => x.boon.type == t)`: the first custom boon of
      the type, or `null`. */
  function FindBoon(boons: seq<FullBoon>, t: BoonType): (r: Option<FullBoon>)
    ensures r.Some? ==> r.value.boon.boonType == t && r.value in boons
    ensures r.None? <==> forall k :: 0 <= k < |boons| ==> boons[k].boon.boonType != t
  {
    if |boons| == 0 then None
    else if boons[0].boon.boonType == t then Some(boons[0])
    else FindBoon(boons[1..], t)
  }

  /** `List.Find` returns the first boon of the type: when two registered
      boons share a type (a second `New` with the same GUID and name gets
      the same enum value), the earlier one governs. */
  lemma {:induction false} FindBoonIs(boons: seq<FullBoon>, t: BoonType, k: nat)
    requires k < |boons| && boons[k].boon.boonType == t
    requires forall j :: 0 <= j < k ==> boons[j].boon.boonType != t
    ensures FindBoon(boons, t) == Some(boons[k])
    decreases k
  {
    if k > 0 {
      FindBoonIs(boons[1..], t, k - 1);
    }
  }

  /** Appending a boon never changes which boon a known type finds. */
  lemma {:induction false} FindBoonAppend(boons: seq<FullBoon>, b: FullBoon, t: BoonType)
    ensures FindBoon(boons, t).Some? ==> FindBoon(boons + [b], t) == FindBoon(boons, t)
    ensures FindBoon(boons, t).None? && b.boon.boonType == t ==> FindBoon(boons + [b], t) == Some(b)
    decreases |boons|
  {
    if |boons| == 0 {
      assert boons + [b] == [b];
    } else {
      assert (boons + [b])[1..] == boons[1..] + [b];
      FindBoonAppend(boons[1..], b, t);
    }
  }

  /** `BoonBehaviour.CountInstancesOfType(t)`. */
  function CountOfType(instances: seq<Instance>, t: BoonType): (n: nat)
    ensures n <= |instances|
  {
    if |instances| == 0 then 0
    else CountOfType(instances[..|instances| - 1], t) + (if TypeOf(instances[|instances| - 1]) == t then 1 else 0)
  }

  lemma CountOfTypeSnoc(instances: seq<Instance>, i: Instance, t: BoonType)
    ensures CountOfType(instances + [i], t) == CountOfType(instances, t) + (if TypeOf(i) == t then 1 else 0)
  {
    assert (instances + [i])[..|instances|] == instances;
  }

  /** An instance of type `t` makes the count of `t` positive. */
  lemma {:induction false} CountOfTypePositive(instances: seq<Instance>, k: nat)
    requires k < |instances|
    ensures CountOfType(instances, TypeOf(instances[k])) >= 1
    decreases |instances|
  {
    if k < |instances| - 1 {
      CountOfTypePositive(instances[..|instances| - 1], k);
    }
  }

  /** Two distinct instances of type `t` make the count of `t` at least two. */
  lemma {:induction false} CountOfTypeTwo(instances: seq<Instance>, i: nat, j: nat)
    requires i < j < |instances| && TypeOf(instances[i]) == TypeOf(instances[j])
    ensures CountOfType(instances, TypeOf(instances[i])) >= 2
    decreases |instances|
  {
    var front := instances[..|instances| - 1];
    if j < |instances| - 1 {
      CountOfTypeTwo(front, i, j);
    } else {
      CountOfTypePositive(front, i);
    }
  }

  /** The state the manager keeps consistent:
      - `AllBoonsCopy` is the base-game boons followed by the custom ones;
      - every instance belongs to the custom boon its type finds;
      - every instance is numbered one past the instances of its type
        created before it;
      - a boon that does not stack has only one instance. */
  predicate Valid(s: BoonState) {
    && s.allBoonsCopy == s.baseGame + DataOf(s.newBoons)
    && Owned(s.newBoons, s.instances)
    && Numbered(s.instances)
    && SingleUnlessStacking(s.instances)
  }

  predicate Owned(boons: seq<FullBoon>, instances: seq<Instance>) {
    forall k :: 0 <= k < |instances| ==> FindBoon(boons, TypeOf(instances[k])) == Some(instances[k].boon)
  }

  predicate Numbered(instances: seq<Instance>) {
    forall k :: 0 <= k < |instances| ==>
      instances[k].instanceNumber == CountOfType(instances[..k], TypeOf(instances[k])) + 1
  }

  predicate SingleUnlessStacking(instances: seq<Instance>) {
    forall k :: 0 <= k < |instances| && !instances[k].boon.stacks ==> CountOfType(instances, TypeOf(instances[k])) == 1
  }

  /** Two live instances of the same type both come from a boon that stacks. */
  lemma OnlyStackingBoonsRepeat(s: BoonState, i: nat, j: nat)
    requires Valid(s)
    requires i < j < |s.instances| && TypeOf(s.instances[i]) == TypeOf(s.instances[j])
    ensures s.instances[i].boon.stacks && s.instances[j].boon.stacks
  {
    CountOfTypeTwo(s.instances, i, j);
  }

  /** State after type initialisation. */
  function Initial(baseGame: seq<BoonData>): (s: BoonState)
    ensures Valid(s) && s.newBoons == [] && s.instances == []
  {
    BoonState(baseGame, [], baseGame, [])
  }

  /** `SyncCardList`, run on every change of `NewBoons`. */
  function SyncCardList(s: BoonState): (r: BoonState)
    ensures r.allBoonsCopy == r.baseGame + DataOf(r.newBoons)
    ensures r.baseGame == s.baseGame && r.newBoons == s.newBoons && r.instances == s.instances
  {
    s.(allBoonsCopy := s.baseGame + DataOf(s.newBoons))
  }

  /** `BoonManager.New`: the boon type is the enum value `GuidManager`
      allocates for the mod's GUID and name, passed in here. */
  function New(s: BoonState, boonType: BoonType, name: string, handler: Option<HandlerType>, description: string,
               icon: TextureRef, cardArt: TextureRef, stackable: bool, appearInLeshyTrials: bool,
               appearInRulebook: bool): (res: (BoonState, BoonType))
    ensures res.1 == boonType
    ensures |res.0.newBoons| == |s.newBoons| + 1 && res.0.newBoons[..|s.newBoons|] == s.newBoons
    ensures var fb := res.0.newBoons[|s.newBoons|];
      && fb.stacks == stackable && fb.boon.minorEffect == !appearInLeshyTrials
      && fb.appearInRulebook == appearInRulebook && fb.handler == handler
      && fb.boon.boonType == boonType && fb.boon.name == name && fb.boon.displayedName == name
      && fb.boon.description == description
    ensures Valid(s) ==> Valid(res.0)
  {
    var data := BoonData(boonType, name, name, description, icon, cardArt, !appearInLeshyTrials);
    var fb := FullBoon(data, handler, appearInRulebook, stackable);
    NewKeepsValid(s, fb);
    (SyncCardList(s.(newBoons := s.newBoons + [fb])), boonType)
  }

  lemma NewKeepsValid(s: BoonState, fb: FullBoon)
    ensures Valid(s) ==> Valid(SyncCardList(s.(newBoons := s.newBoons + [fb])))
  {
    if Valid(s) {
      forall k | 0 <= k < |s.instances|
        ensures FindBoon(s.newBoons + [fb], TypeOf(s.instances[k])) == Some(s.instances[k].boon)
      {
        FindBoonAppend(s.newBoons, fb, TypeOf(s.instances[k]));
      }
    }
  }

  /** Whether a behaviour is created for a boon of type `t`: the type must
      belong to a custom boon whose handler is a `BoonBehaviour`, and the boon
      must stack or have no instance yet. */
  predicate CreatesInstance(s: BoonState, t: BoonType) {
    var nb := FindBoon(s.newBoons, t);
    && nb.Some? && nb.value.handler.Some? && nb.value.handler.value.isBoonBehaviour
    && (nb.value.stacks || CountOfType(s.instances, t) < 1)
  }

  /** The instance-creation step shared by `ActivatePreCombatBoons` and
      `AddBoon`: a new behaviour numbered one past the instances of its type,
      appended to the instances. */
  function CreateInstance(s: BoonState, t: BoonType): (r: BoonState)
    ensures r.baseGame == s.baseGame && r.newBoons == s.newBoons && r.allBoonsCopy == s.allBoonsCopy
    ensures !CreatesInstance(s, t) ==> r == s
    ensures CreatesInstance(s, t) ==>
      r.instances == s.instances + [Instance(FindBoon(s.newBoons, t).value, CountOfType(s.instances, t) + 1)]
  {
    if CreatesInstance(s, t) then
      s.(instances := s.instances + [Instance(FindBoon(s.newBoons, t).value, CountOfType(s.instances, t) + 1)])
    else s
  }

  lemma CreateInstanceKeepsValid(s: BoonState, t: BoonType)
    ensures Valid(s) ==> Valid(CreateInstance(s, t))
  {
    if Valid(s) && CreatesInstance(s, t) {
      var nb := FindBoon(s.newBoons, t).value;
      var i := Instance(nb, CountOfType(s.instances, t) + 1);
      AppendKeepsNumbered(s.instances, i);
      AppendKeepsSingle(s.newBoons, s.instances, i);
    }
  }

  lemma AppendKeepsNumbered(instances: seq<Instance>, i: Instance)
    requires Numbered(instances)
    requires i.instanceNumber == CountOfType(instances, TypeOf(i)) + 1
    ensures Numbered(instances + [i])
  {
    var r := instances + [i];
    forall k | 0 <= k < |r|
      ensures r[k].instanceNumber == CountOfType(r[..k], TypeOf(r[k])) + 1
    {
      if k < |instances| {
        assert r[..k] == instances[..k];
      } else {
        assert r[..k] == instances;
      }
    }
  }

  /** A new instance of a boon type keeps non-stacking boons single when the
      boon stacks or had no instance. */
  lemma AppendKeepsSingle(boons: seq<FullBoon>, instances: seq<Instance>, i: Instance)
    requires Owned(boons, instances) && SingleUnlessStacking(instances)
    requires FindBoon(boons, TypeOf(i)) == Some(i.boon)
    requires i.boon.stacks || CountOfType(instances, TypeOf(i)) < 1
    ensures SingleUnlessStacking(instances + [i])
  {
    var r := instances + [i];
    forall k | 0 <= k < |r| && !r[k].boon.stacks
      ensures CountOfType(r, TypeOf(r[k])) == 1
    {
      CountOfTypeSnoc(instances, i, TypeOf(r[k]));
      if k < |instances| && TypeOf(instances[k]) == TypeOf(i) {
        assert false;
      }
    }
  }

  /** `TurnManager.Instance` during an `AddBoon` call: present, and if so
      its flags. */
  datatype Turn = NoTurnManager | Turn(gameEnded: bool, gameEnding: bool, isSetupPhase: bool, hasOpponent: bool)

  /** A battle is under way: not over, not ending, past setup, with an
      opponent. */
  predicate InBattle(turn: Turn) {
    turn.Turn? && !turn.gameEnded && !turn.gameEnding && !turn.isSetupPhase && turn.hasOpponent
  }

  /** The `DeckInfo.AddBoon` postfix: outside a battle nothing happens. */
  function AddBoon(s: BoonState, turn: Turn, t: BoonType): (r: BoonState)
    ensures !InBattle(turn) ==> r == s
    ensures Valid(s) ==> Valid(r)
    ensures r.baseGame == s.baseGame && r.newBoons == s.newBoons && r.allBoonsCopy == s.allBoonsCopy
    ensures |s.instances| <= |r.instances| <= |s.instances| + 1 && r.instances[..|s.instances|] == s.instances
  {
    if InBattle(turn) then
      CreateInstanceKeepsValid(s, t);
      CreateInstance(s, t)
    else s
  }

  /** `BoonBehaviour.DestroyAllInstances`, which ends `ClearBoons` and the
      cleanup-phase postfix and starts `ActivatePreCombatBoons`. */
  function DestroyAllInstances(s: BoonState): (r: BoonState)
    ensures r.instances == []
    ensures r.baseGame == s.baseGame && r.newBoons == s.newBoons && r.allBoonsCopy == s.allBoonsCopy
    ensures Valid(s) ==> Valid(r)
  {
    s.(instances := [])
  }

  /** The `DeckInfo.ClearBoons` postfix. */
  function ClearBoons(s: BoonState): (r: BoonState)
    ensures r.instances == [] && (Valid(s) ==> Valid(r))
  {
    DestroyAllInstances(s)
  }

  /** A behaviour callback the cleanup phase runs on a live instance. */
  datatype Cleanup = PreBattleCleanup(who: Instance) | PostBattleCleanup(who: Instance)

  function CallFor(x: Instance, post: bool): Cleanup {
    if post then PostBattleCleanup(x) else PreBattleCleanup(x)
  }

  /** One callback per instance, in order. */
  function CallsFor(xs: seq<Instance>, post: bool): (r: seq<Cleanup>)
    ensures |r| == |xs|
    ensures forall k :: 0 <= k < |r| ==> r[k] == CallFor(xs[k], post)
  {
    if |xs| == 0 then [] else [CallFor(xs[0], post)] + CallsFor(xs[1..], post)
  }

  /** One `foreach` of the cleanup postfix: the callback of every instance
      that responds, once each, in instance order. */
  function CleanupCalls(instances: seq<Instance>, responds: Instance -> bool, post: bool): (r: seq<Cleanup>)
    ensures |r| <= |instances|
    ensures forall k :: 0 <= k < |r| ==> r[k].who in instances && responds(r[k].who) && r[k].PostBattleCleanup? == post
    ensures forall x :: x in instances && responds(x) ==> CallFor(x, post) in r
    ensures |r| == CountWhere(instances, responds)
    ensures forall k :: 0 <= k < |r| ==> r[k] == CallFor(Filter(instances, responds)[k], post)
  {
    var kept := Filter(instances, responds);
    FilterMembers(instances, responds);
    var r := CallsFor(kept, post);
    assert forall x :: x in kept ==> CallFor(x, post) in r by {
      forall x | x in kept
        ensures CallFor(x, post) in r
      {
        var j :| 0 <= j < |kept| && kept[j] == x;
        assert r[j] == CallFor(x, post);
      }
    }
    r
  }

  /** The `TurnManager.CleanupPhase` postfix: the pre-battle cleanup of every
      responding instance, then (after the phase itself) the post-battle
      cleanup of every responding instance, then all instances are
      destroyed. What the callbacks do is left out. */
  function CleanupPhase(s: BoonState, respondsPre: Instance -> bool, respondsPost: Instance -> bool): (r: (seq<Cleanup>, BoonState))
    ensures forall i, j :: 0 <= i < j < |r.0| && r.0[i].PostBattleCleanup? ==> r.0[j].PostBattleCleanup?
    ensures forall k :: 0 <= k < |r.0| ==> r.0[k].who in s.instances
    ensures forall x :: x in s.instances && respondsPre(x) ==> PreBattleCleanup(x) in r.0
    ensures forall x :: x in s.instances && respondsPost(x) ==> PostBattleCleanup(x) in r.0
    ensures forall k :: 0 <= k < |r.0| ==> if r.0[k].PreBattleCleanup? then respondsPre(r.0[k].who) else respondsPost(r.0[k].who)
    ensures r.1.instances == [] && (Valid(s) ==> Valid(r.1))
    ensures r.1.baseGame == s.baseGame && r.1.newBoons == s.newBoons && r.1.allBoonsCopy == s.allBoonsCopy
  {
    var pre := CleanupCalls(s.instances, respondsPre, false);
    var post := CleanupCalls(s.instances, respondsPost, true);
    (pre + post, DestroyAllInstances(s))
  }

  /** Whether a boon of type `t` has a behaviour: a custom boon whose
      handler is a `BoonBehaviour`. */
  predicate HasBehaviour(boons: seq<FullBoon>, t: BoonType) {
    var nb := FindBoon(boons, t);
    nb.Some? && nb.value.handler.Some? && nb.value.handler.value.isBoonBehaviour
  }

  /** The number of `Some(t)` entries of a deck's boon list. */
  function Occurrences(deck: seq<Option<BoonType>>, t: BoonType): (n: nat)
    ensures n <= |deck|
  {
    if |deck| == 0 then 0 else (if deck[0] == Some(t) then 1 else 0) + Occurrences(deck[1..], t)
  }

  /** How many instances of `t` there are after `n` creation attempts
      starting from `c`: a boon without behaviour gets none, a stacking boon
      one per attempt, any other boon one unless it already has one. */
  function CountAfter(boons: seq<FullBoon>, t: BoonType, c: nat, n: nat): nat {
    if !HasBehaviour(boons, t) || n == 0 then c
    else if FindBoon(boons, t).value.stacks then c + n
    else if c >= 1 then c else 1
  }

  /** Creates instances for the deck's boons in order, skipping destroyed
      (`null`) entries: the existing instances stay in front, and each boon
      type ends with the count its occurrences in the deck call for. */
  function CreateForDeck(s: BoonState, deck: seq<Option<BoonType>>): (r: BoonState)
    ensures r.baseGame == s.baseGame && r.newBoons == s.newBoons && r.allBoonsCopy == s.allBoonsCopy
    ensures |s.instances| <= |r.instances| <= |s.instances| + |deck|
    ensures r.instances[..|s.instances|] == s.instances
    ensures forall t :: CountOfType(r.instances, t) == CountAfter(s.newBoons, t, CountOfType(s.instances, t), Occurrences(deck, t))
    decreases |deck|
  {
    if |deck| == 0 then s
    else
      var next := if deck[0].Some? then CreateInstance(s, deck[0].value) else s;
      var r := CreateForDeck(next, deck[1..]);
      CreateStepCounts(s, deck, r);
      r
  }

  /** One deck entry followed by the rest: the first entry is one creation
      attempt for its type, which composes with the rest's attempts. */
  lemma CreateStepCounts(s: BoonState, deck: seq<Option<BoonType>>, r: BoonState)
    requires |deck| > 0
    requires var next := if deck[0].Some? then CreateInstance(s, deck[0].value) else s;
      && |next.instances| <= |r.instances| && r.instances[..|next.instances|] == next.instances
      && forall t :: CountOfType(r.instances, t) == CountAfter(next.newBoons, t, CountOfType(next.instances, t), Occurrences(deck[1..], t))
    ensures |s.instances| <= |r.instances| && r.instances[..|s.instances|] == s.instances
    ensures forall t :: CountOfType(r.instances, t) == CountAfter(s.newBoons, t, CountOfType(s.instances, t), Occurrences(deck, t))
  {
    var next := if deck[0].Some? then CreateInstance(s, deck[0].value) else s;
    assert r.instances[..|s.instances|] == r.instances[..|next.instances|][..|s.instances|];
    forall t
      ensures CountOfType(r.instances, t) == CountAfter(s.newBoons, t, CountOfType(s.instances, t), Occurrences(deck, t))
    {
      if deck[0].Some? && CreatesInstance(s, deck[0].value) {
        var i := Instance(FindBoon(s.newBoons, deck[0].value).value, CountOfType(s.instances, deck[0].value) + 1);
        CountOfTypeSnoc(s.instances, i, t);
      }
    }
  }

  lemma {:induction false} CreateForDeckKeepsValid(s: BoonState, deck: seq<Option<BoonType>>)
    requires Valid(s)
    ensures Valid(CreateForDeck(s, deck))
    decreases |deck|
  {
    if |deck| > 0 {
      var next := if deck[0].Some? then CreateInstance(s, deck[0].value) else s;
      if deck[0].Some? {
        CreateInstanceKeepsValid(s, deck[0].value);
      }
      CreateForDeckKeepsValid(next, deck[1..]);
    }
  }

  lemma ActivateKeepsValid(cleared: BoonState, deck: seq<Option<BoonType>>)
    ensures Valid(cleared) ==> Valid(CreateForDeck(cleared, deck))
  {
    if Valid(cleared) {
      CreateForDeckKeepsValid(cleared, deck);
    }
  }

  /** The `ActivatePreCombatBoons` postfix, up to its first yield for each
      instance: all instances are destroyed, then, when boons are enabled and
      the run has a deck with a boon list, one is created per deck boon. The
      pre- and post-activation callbacks are left out. */
  function ActivatePreCombatBoons(s: BoonState, boonsEnabled: bool, deck: Option<seq<Option<BoonType>>>): (r: BoonState)
    ensures Valid(s) ==> Valid(r)
    ensures !boonsEnabled || deck.None? ==> r.instances == []
    ensures deck.Some? ==> |r.instances| <= |deck.value|
    ensures boonsEnabled && deck.Some? ==>
      forall t :: CountOfType(r.instances, t) == CountAfter(s.newBoons, t, 0, Occurrences(deck.value, t))
  {
    var cleared := DestroyAllInstances(s);
    if boonsEnabled && deck.Some? then
      ActivateKeepsValid(cleared, deck.value);
      CreateForDeck(cleared, deck.value)
    else cleared
  }

  /** A deck holding a single boon with a behaviour gets exactly one
      instance, numbered 1, whatever was live before. */
  lemma ActivateCreatesOnePerBoon(s: BoonState, t: BoonType)
    requires Valid(s)
    requires CreatesInstance(DestroyAllInstances(s), t)
    ensures |ActivatePreCombatBoons(s, true, Some([Some(t)])).instances| == 1
    ensures ActivatePreCombatBoons(s, true, Some([Some(t)])).instances[0].instanceNumber == 1
  {
    var cleared := DestroyAllInstances(s);
    assert CreateForDeck(cleared, [Some(t)]) == CreateForDeck(CreateInstance(cleared, t), []);
  }

  // ---------------------------------------------------------------------------
  // The deck's boon list

  predicate IsPresent(x: Option<BoonData>) {
    x.Some?
  }

  /** The `DeckInfo.LoadBoons` postfix: `boons.RemoveAll(x => x == null)`,
      which keeps the other entries in their order, repeats included. */
  function RemoveNulls(boons: seq<Option<BoonData>>): (r: seq<Option<BoonData>>)
    ensures forall k :: 0 <= k < |r| ==> r[k].Some?
    ensures forall x :: x in boons && x.Some? ==> x in r
    ensures forall x :: x in r ==> x in boons
    ensures r == Filter(boons, IsPresent)
    ensures |r| == CountWhere(boons, IsPresent)
    decreases |boons|
  {
    if |boons| == 0 then []
    else (if boons[0].Some? then [boons[0]] else []) + RemoveNulls(boons[1..])
  }

  /** Removing nulls twice removes nothing more. */
  lemma {:induction false} RemoveNullsIdempotent(boons: seq<Option<BoonData>>)
    ensures RemoveNulls(RemoveNulls(boons)) == RemoveNulls(boons)
    decreases |boons|
  {
    if |boons| > 0 {
      RemoveNullsIdempotent(boons[1..]);
      var rest := RemoveNulls(boons[1..]);
      if boons[0].Some? {
        assert ([boons[0]] + rest)[1..] == rest;
      } else {
        assert [] + rest == rest;
      }
    }
  }

  /** The deck's boon list and boon ids (either may be `null`). */
  datatype Deck = Deck(boons: Option<seq<Option<BoonData>>>, boonIds: Option<seq<BoonType>>)

  /** The `DeckInfo.Boons` getter postfix. `reload` is the game's own
      `LoadBoons`, which rebuilds the list from the ids; the postfix then
      drops the nulls. The list is reloaded only when both are present and
      their counts differ. */
  function GetBoons(deck: Deck, reload: seq<BoonType> -> seq<Option<BoonData>>): (r: (Deck, Option<seq<Option<BoonData>>>))
    ensures r.1 == r.0.boons && r.0.boonIds == deck.boonIds
    ensures deck.boons.None? || deck.boonIds.None? || |deck.boons.value| == |deck.boonIds.value| ==> r.0 == deck
    ensures deck.boons.Some? && deck.boonIds.Some? && |deck.boons.value| != |deck.boonIds.value| ==>
      r.1 == Some(RemoveNulls(reload(deck.boonIds.value)))
  {
    if deck.boons.Some? && deck.boonIds.Some? && |deck.boons.value| != |deck.boonIds.value| then
      var loaded := deck.(boons := Some(RemoveNulls(reload(deck.boonIds.value))));
      (loaded, loaded.boons)
    else (deck, deck.boons)
  }

  // ---------------------------------------------------------------------------
  // The rulebook's boon pages

  function MinOf(s: seq<int>): (m: int)
    requires |s| > 0
    ensures m in s && forall k :: 0 <= k < |s| ==> m <= s[k]
  {
    if |s| == 1 then s[0]
    else
      var rest := MinOf(s[1..]);
      assert forall k :: 1 <= k < |s| ==> s[k] == s[1..][k - 1];
      if s[0] <= rest then s[0] else rest
  }

  function MaxOf(s: seq<int>): (m: int)
    requires |s| > 0
    ensures m in s && forall k :: 0 <= k < |s| ==> s[k] <= m
  {
    if |s| == 1 then s[0]
    else
      var rest := MaxOf(s[1..]);
      assert forall k :: 1 <= k < |s| ==> s[k] == s[1..][k - 1];
      if s[0] >= rest then s[0] else rest
  }

  function CustomIds(boons: seq<FullBoon>): (r: seq<int>)
    ensures |r| == |boons|
    ensures forall k :: 0 <= k < |r| ==> r[k] == boons[k].boon.boonType
  {
    if |boons| == 0 then [] else [boons[0].boon.boonType] + CustomIds(boons[1..])
  }

  /** The `[start, end)` index range the `ConstructPageData` postfix hands to
      `ConstructPages` for the boon section: from the smallest custom boon id
      to one past the largest. Without custom boons nothing is added. */
  function BoonPageRange(boons: seq<FullBoon>): (r: Option<(int, int)>)
    ensures r.None? <==> |boons| == 0
    ensures r.Some? ==> r.value.0 < r.value.1
    ensures r.Some? ==> forall k :: 0 <= k < |boons| ==> r.value.0 <= boons[k].boon.boonType < r.value.1
    ensures r.Some? ==> exists k :: 0 <= k < |boons| && boons[k].boon.boonType == r.value.0
    ensures r.Some? ==> exists k :: 0 <= k < |boons| && boons[k].boon.boonType == r.value.1 - 1
  {
    if |boons| == 0 then None
    else
      var ids := CustomIds(boons);
      Some((MinOf(ids), MaxOf(ids) + 1))
  }

  /** The page filter: the Part 1 rulebook, a boon with an icon, a custom id,
      and the first custom boon with that id shown in the rulebook (`false`
      when there is none). */
  predicate ShowsPage(boons: seq<FullBoon>, part1Rulebook: bool, hasIcon: BoonType -> bool, index: int) {
    && part1Rulebook && hasIcon(index) && index in CustomIds(boons)
    && var fb := FindBoon(boons, index); fb.Some? && fb.value.appearInRulebook
  }

  /** Every page the filter keeps lies inside the range, so the range covers
      all custom boons shown. */
  lemma ShownPagesInRange(boons: seq<FullBoon>, part1Rulebook: bool, hasIcon: BoonType -> bool, index: int)
    requires ShowsPage(boons, part1Rulebook, hasIcon, index)
    ensures BoonPageRange(boons).Some?
    ensures BoonPageRange(boons).value.0 <= index < BoonPageRange(boons).value.1
  {
    var ids := CustomIds(boons);
    var k :| 0 <= k < |ids| && ids[k] == index;
  }
}

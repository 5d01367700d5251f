/** `OpponentManager`: the registry of boss opponents, the run-state list of
    bosses already fought (stored as text in the modded save), the lookup of
    a boss's special sequencer, and the two transpilers it applies to the
    map generator and to the Trapper/Trader phase change. */
module Opponents {
  import opened Wrappers
  import opened Seqs
  import opened Text
  import opened Il

  /** A value of the game's `Opponent.Type` enum, which `GuidManager` extends
      with fresh values for modded opponents. */
  type OpponentId = int

  // The three first bosses of the game's enum, in its declaration order.
  const ProspectorBoss: OpponentId := 1
  const AnglerBoss: OpponentId := 2
  const TrapperTraderBoss: OpponentId := 3

  /** Handle of a Unity texture. */
  type TextureRef = nat

  /** Handle of a Leshy mask; `NoMask` is `MaskManager.NoMask`. */
  type MaskRef = nat
  const NoMask: MaskRef := 0

  datatype FullOpponent = FullOpponent(
    id: OpponentId,
    maskType: MaskRef,
    opponentType: string,        // the `Opponent` subclass, by name
    specialSequencerId: string,
    nodeAnimation: seq<TextureRef>)

  /** The base-game opponents, the ones added by mods, and `AllOpponents`,
      which the collection-changed handler recomputes on every addition. */
  datatype Registry = Registry(
    baseGame: seq<FullOpponent>,
    newOpponents: seq<FullOpponent>,
    all: seq<FullOpponent>)

  /** `AllOpponents` is the base-game list followed by the added ones. */
  predicate Synced(r: Registry) {
    r.all == r.baseGame + r.newOpponents
  }

  /** State after type initialisation: `AllOpponents` is a copy of the
      base-game list. */
  function Initial(baseGame: seq<FullOpponent>): (r: Registry)
    ensures Synced(r) && r.newOpponents == []
  {
    Registry(baseGame, [], baseGame)
  }

  /** `OpponentManager.Add`: the id is the enum value `GuidManager` allocates
      for the mod's GUID and name, passed in here. A missing node animation
      leaves the empty default list; a given one is copied. */
  function Add(r: Registry, id: OpponentId, opponentType: string, sequencerId: string,
               nodeAnimation: Option<seq<TextureRef>>): (res: (Registry, FullOpponent))
    ensures res.0.baseGame == r.baseGame && res.0.newOpponents == r.newOpponents + [res.1]
    ensures Synced(res.0)
    ensures res.1.id == id && res.1.specialSequencerId == sequencerId && res.1.maskType == NoMask
    ensures res.1.nodeAnimation == if nodeAnimation.Some? then nodeAnimation.value else []
  {
    var opp := FullOpponent(id, NoMask, opponentType, sequencerId, nodeAnimation.GetOr([]));
    var added := r.newOpponents + [opp];
    (Registry(r.baseGame, added, r.baseGame + added), opp)
  }

  predicate HasId(o: FullOpponent, bossType: OpponentId) {
    o.id == bossType
  }

  /** `AllOpponents.First(o => o.Id == bossType).SpecialSequencerId`, the
      replacement of `BossBattleSequencer.GetSequencerIdForBoss`; `First`
      throws when no opponent has the id. */
  function SequencerIdFor(all: seq<FullOpponent>, bossType: OpponentId): (r: Result<string>)
    ensures r.Fail? <==> forall k :: 0 <= k < |all| ==> all[k].id != bossType
    ensures r.Ok? ==> exists k :: 0 <= k < |all| && all[k].id == bossType && r.value == all[k].specialSequencerId
  {
    match FindFirst(all, 0, |all|, o => HasId(o, bossType))
    case Some(k) => Ok(all[k].specialSequencerId)
    case None => Fail(NoMatch)
  }

  /** The lookup answers with the first opponent carrying the id. */
  lemma SequencerIdIsFirst(all: seq<FullOpponent>, bossType: OpponentId, k: nat)
    requires k < |all| && all[k].id == bossType
    requires forall u :: 0 <= u < k ==> all[u].id != bossType
    ensures SequencerIdFor(all, bossType) == Ok(all[k].specialSequencerId)
  {
    FindFirstIs(all, 0, |all|, o => HasId(o, bossType), k);
  }

  /** Adding an opponent never changes the answer for an id already known,
      and an id not known before answers with the added opponent's
      sequencer. */
  lemma AddKeepsLookups(r: Registry, id: OpponentId, opponentType: string, sequencerId: string,
                        nodeAnimation: Option<seq<TextureRef>>, bossType: OpponentId)
    requires Synced(r)
    ensures var after := Add(r, id, opponentType, sequencerId, nodeAnimation).0;
      SequencerIdFor(r.all, bossType).Ok? ==> SequencerIdFor(after.all, bossType) == SequencerIdFor(r.all, bossType)
    ensures var after := Add(r, id, opponentType, sequencerId, nodeAnimation).0;
      SequencerIdFor(r.all, id).Fail? ==> SequencerIdFor(after.all, id) == Ok(sequencerId)
  {
    var (after, opp) := Add(r, id, opponentType, sequencerId, nodeAnimation);
    assert after.all == r.all + [opp];
    match FindFirst(r.all, 0, |r.all|, o => HasId(o, bossType)) {
      case Some(k) => SequencerIdIsFirst(after.all, bossType, k);
      case None =>
    }
    if SequencerIdFor(r.all, id).Fail? {
      SequencerIdIsFirst(after.all, id, |r.all|);
    }
  }

  // ---------------------------------------------------------------------------
  // RunStateOpponents: the bosses already fought, kept in the run state as text

  /** The decimal form of each id. */
  function Decimals(ids: seq<OpponentId>): (r: seq<string>)
    ensures |r| == |ids|
    ensures forall k :: 0 <= k < |r| ==> r[k] == IntToString(ids[k])
  {
    if |ids| == 0 then [] else [IntToString(ids[0])] + Decimals(ids[1..])
  }

  /** The text the setter stores: the ids in decimal, separated by commas. */
  function SerializeBosses(ids: seq<OpponentId>): string {
    JoinCommas(Decimals(ids))
  }

  /** The setter's loop: a comma before every id but the first, then the id. */
  method WritePreviousBosses(ids: seq<OpponentId>) returns (result: string)
    ensures result == SerializeBosses(ids)
  {
    result := "";
    var i := 0;
    while i < |ids|
      invariant 0 <= i <= |ids|
      invariant result == JoinCommas(Decimals(ids[..i]))
    {
      if i > 0 {
        result := result + ",";
      }
      result := result + IntToString(ids[i]);
      assert ids[..i + 1] == ids[..i] + [ids[i]];
      DecimalsSnoc(ids[..i], ids[i]);
      if i > 0 {
        JoinCommasSnoc(Decimals(ids[..i]), IntToString(ids[i]));
      } else {
        assert Decimals(ids[..1]) == [IntToString(ids[0])];
      }
      i := i + 1;
    }
    assert ids[..i] == ids;
  }

  lemma {:induction false} DecimalsSnoc(ids: seq<OpponentId>, id: OpponentId)
    ensures Decimals(ids + [id]) == Decimals(ids) + [IntToString(id)]
  {
  }

  /** The stored text has no comma before the first id or after the last,
      and exactly one between two consecutive ids. */
  lemma SerializedCommas(ids: seq<OpponentId>)
    requires |ids| >= 1
    ensures var text := SerializeBosses(ids);
      && |text| >= 1
      && CountWhere(text, IsComma) == |ids| - 1
      && text[0] != ',' && text[|text| - 1] != ','
  {
    var parts := Decimals(ids);
    JoinCommasCount(parts);
    JoinCommasEnds(parts);
  }

  lemma {:induction false} JoinCommasEnds(parts: seq<string>)
    requires |parts| >= 1
    requires forall k :: 0 <= k < |parts| ==> |parts[k]| >= 1 && ',' !in parts[k]
    ensures var text := JoinCommas(parts);
      |text| >= 1 && text[0] == parts[0][0] && text[|text| - 1] == parts[|parts| - 1][|parts[|parts| - 1]| - 1]
    decreases |parts|
  {
    if |parts| > 1 {
      JoinCommasEnds(parts[1..]);
    }
  }

  /** `int.Parse` of every piece; one bad piece throws. */
  function ParseAll(pieces: seq<string>): (r: Result<seq<OpponentId>>)
    ensures r.Ok? ==> |r.value| == |pieces|
    ensures r.Ok? ==> forall k :: 0 <= k < |pieces| ==> ParseInt(pieces[k]) == Some(r.value[k])
    ensures r.Fail? ==> r.fault == BadFormat
  {
    if |pieces| == 0 then Ok([])
    else match ParseInt(pieces[0])
      case None => Fail(BadFormat)
      case Some(n) =>
        var rest :- ParseAll(pieces[1..]);
        Ok([n] + rest)
  }

  /** The getter: a missing value is the empty list, a comma-free value one
      id, anything else the ids between the commas. */
  function ReadPreviousBosses(value: Option<string>): (r: Result<seq<OpponentId>>)
    ensures value.None? ==> r == Ok([])
    ensures value.Some? && ',' !in value.value ==> r.Ok? ==> |r.value| == 1
  {
    match value
    case None => Ok([])
    case Some(text) =>
      if ',' !in text then
        match ParseInt(text)
        case Some(n) => Ok([n])
        case None => Fail(BadFormat)
      else ParseAll(SplitCommas(text))
  }

  /** The comma-free branch is the general one: a stored value reads as the
      ids between its commas. */
  lemma ReadIsSplitAndParse(text: string)
    ensures ReadPreviousBosses(Some(text)) == ParseAll(SplitCommas(text))
  {
    if ',' !in text {
      SplitPrefix(text, "");
      assert text + "" == text;
      assert SplitCommas(text) == [text];
      assert ParseAll([text][1..]) == Ok([]);
      match ParseInt(text) {
        case Some(n) =>
          assert [n] + [] == [n];
          assert ParseAll([text]) == Ok([n]);
        case None => assert ParseAll([text]) == Fail(BadFormat);
      }
    }
  }

  /** Every non-empty list of ids survives being stored and read back. */
  lemma ReadOfWrite(ids: seq<OpponentId>)
    requires |ids| >= 1
    ensures ReadPreviousBosses(Some(SerializeBosses(ids))) == Ok(ids)
  {
    var parts := Decimals(ids);
    SplitOfJoin(parts);
    ReadIsSplitAndParse(SerializeBosses(ids));
    forall k | 0 <= k < |ids|
      ensures ParseInt(parts[k]) == Some(ids[k])
    {
      ParseOfToString(ids[k]);
    }
    ParseAllOfDecimals(ids);
  }

  lemma {:induction false} ParseAllOfDecimals(ids: seq<OpponentId>)
    ensures ParseAll(Decimals(ids)) == Ok(ids)
    decreases |ids|
  {
    if |ids| > 0 {
      var parts := Decimals(ids);
      var rest := Decimals(ids[1..]);
      assert parts == [IntToString(ids[0])] + rest;
      assert parts[0] == IntToString(ids[0]) && parts[1..] == rest;
      ParseOfToString(ids[0]);
      ParseAllOfDecimals(ids[1..]);
      assert ParseAll(rest) == Ok(ids[1..]);
      assert ParseAll(parts) == Ok([ids[0]] + ids[1..]);
      assert [ids[0]] + ids[1..] == ids;
    }
  }

  /** The empty list is stored as the empty text, which the getter hands to
      `int.Parse`: it throws instead of giving the empty list back. */
  lemma EmptyListDoesNotRoundTrip()
    ensures SerializeBosses([]) == ""
    ensures ReadPreviousBosses(Some(SerializeBosses([]))) == Fail(BadFormat)
  {
    assert ParseInt("") == None;
  }

  /** The getter with the empty text read as the empty list, like a missing
      value. */
  function ReadPreviousBossesFixed(value: Option<string>): (r: Result<seq<OpponentId>>)
    ensures value.None? || value == Some("") ==> r == Ok([])
    ensures value.Some? && value.value != "" ==> r == ReadPreviousBosses(value)
  {
    if value == Some("") then Ok([]) else ReadPreviousBosses(value)
  }

  /** With the fix every list, the empty one included, survives the round
      trip. */
  lemma ReadFixedOfWrite(ids: seq<OpponentId>)
    ensures ReadPreviousBossesFixed(Some(SerializeBosses(ids))) == Ok(ids)
  {
    if |ids| == 0 {
      assert SerializeBosses(ids) == "";
    } else {
      ReadOfWrite(ids);
      SerializedCommas(ids);
    }
  }

  // ---------------------------------------------------------------------------
  // ProcessBossType

  /** The bosses of a run that has not recorded any. */
  const DefaultBosses: seq<OpponentId> := [ProspectorBoss, AnglerBoss, TrapperTraderBoss]

  /** The boss for region `tier`: the recorded list (or the default three,
      when it is empty) indexed by the tier; an index past the end throws. */
  function BossForTier(bosses: seq<OpponentId>, tier: nat): (r: Result<OpponentId>)
    ensures r.Ok? ==> (r.value in bosses) || (bosses == [] && r.value in DefaultBosses)
    ensures r.Fail? <==> tier >= (if bosses == [] then |DefaultBosses| else |bosses|)
  {
    var list := if |bosses| == 0 then DefaultBosses else bosses;
    if tier < |list| then Ok(list[tier]) else Fail(OutOfRange)
  }

  /** `MapGenerator_CreateNode.ProcessBossType`: the boss of a boss node,
      read through the `RunStateOpponents` getter as written, so a stored
      text the getter rejects (the empty text among them) throws. */
  function ProcessBossType(stored: Option<string>, tier: nat): (r: Result<OpponentId>)
    ensures ReadPreviousBosses(stored).Fail? ==> r.Fail?
    ensures stored == Some("") ==> r == Fail(BadFormat)
    ensures stored.None? ==> (r.Ok? <==> tier < 3) && (r.Ok? ==> r.value == DefaultBosses[tier])
    ensures r.Ok? ==> var bosses := ReadPreviousBosses(stored).value;
      (r.value in bosses) || (bosses == [] && r.value in DefaultBosses)
  {
    var bosses :- ReadPreviousBosses(stored);
    BossForTier(bosses, tier)
  }

  /** `ProcessBossType` over the corrected getter: an empty stored text
      falls back to the default bosses, as a missing one does. */
  function ProcessBossTypeFixed(stored: Option<string>, tier: nat): (r: Result<OpponentId>)
    ensures ReadPreviousBossesFixed(stored).Fail? ==> r.Fail?
    ensures stored.None? || stored == Some("") ==> (r.Ok? <==> tier < 3) && (r.Ok? ==> r.value == DefaultBosses[tier])
    ensures r.Ok? ==> var bosses := ReadPreviousBossesFixed(stored).value;
      (r.value in bosses) || (bosses == [] && r.value in DefaultBosses)
  {
    var bosses :- ReadPreviousBossesFixed(stored);
    BossForTier(bosses, tier)
  }

  /** Reading back what the setter stored, the boss for tier `t` is the
      `t`-th recorded one. An empty record makes the node throw as written,
      while the corrected getter gives the `t`-th default. */
  lemma ProcessBossTypeOfStored(ids: seq<OpponentId>, tier: nat)
    ensures |ids| >= 1 ==>
      ProcessBossType(Some(SerializeBosses(ids)), tier) == if tier < |ids| then Ok(ids[tier]) else Fail(OutOfRange)
    ensures ids == [] ==> ProcessBossType(Some(SerializeBosses(ids)), tier) == Fail(BadFormat)
    ensures var list := if |ids| == 0 then DefaultBosses else ids;
      ProcessBossTypeFixed(Some(SerializeBosses(ids)), tier) == if tier < |list| then Ok(list[tier]) else Fail(OutOfRange)
  {
    ReadFixedOfWrite(ids);
    if |ids| >= 1 {
      ReadOfWrite(ids);
    } else {
      EmptyListDoesNotRoundTrip();
    }
  }

  // ---------------------------------------------------------------------------
  // MapGenerator_CreateNode.Transpiler

  predicate IsBossTypeStore(i: Instr) {
    IsOpOn(i, Stfld, BossTypeField)
  }

  /** `ProcessBossType(nodeData)`, with `nodeData` in local 0. */
  function ProcessCall(): seq<Instr> {
    [Emit(Ldloc0, NoOperand), Emit(Call, Method(Il.ProcessBossType, 1, 0))]
  }

  /** Inserts the call right after the first store to `bossType`. */
  function CreateNodeTranspiler(codes: seq<Instr>): (r: seq<Instr>)
    ensures (forall k :: 0 <= k < |codes| ==> !IsBossTypeStore(codes[k])) ==> r == codes
    ensures |r| == |codes| || |r| == |codes| + 2
  {
    match FindFirst(codes, 0, |codes|, IsBossTypeStore)
    case None => codes
    case Some(k) => InsertAt(codes, k + 1, ProcessCall())
  }

  /** With `k` the first store to `bossType`, the output is the input with
      the call between `codes[k]` and `codes[k + 1]`. */
  lemma CreateNodeInsertsAfterFirstStore(codes: seq<Instr>, k: nat)
    requires k < |codes| && IsBossTypeStore(codes[k])
    requires forall u :: 0 <= u < k ==> !IsBossTypeStore(codes[u])
    ensures CreateNodeTranspiler(codes) == codes[..k + 1] + ProcessCall() + codes[k + 1..]
  {
    FindFirstIs(codes, 0, |codes|, IsBossTypeStore, k);
  }

  /** The inserted call leaves the stack as it found it. */
  lemma ProcessCallStackNeutral()
    ensures StackNeutral(ProcessCall())
  {
    assert NetDelta(ProcessCall()[1..]) == Some(-1);
  }

  /** The insertion defines no label, moves none and branches nowhere, so
      the output's branches resolve exactly when the input's do. */
  lemma CreateNodeKeepsLabels(codes: seq<Instr>)
    ensures LabelsResolve(CreateNodeTranspiler(codes)) <==> LabelsResolve(codes)
    ensures forall l :: DefinesLabel(CreateNodeTranspiler(codes), l) <==> DefinesLabel(codes, l)
  {
    match FindFirst(codes, 0, |codes|, IsBossTypeStore)
    case None =>
    case Some(k) =>
      assert CreateNodeTranspiler(codes) == codes[..k + 1] + ProcessCall() + codes[k + 1..];
      SpliceKeepsLabels(codes, k + 1, ProcessCall());
  }

  // ---------------------------------------------------------------------------
  // PreventCallsOnScenary_Patches.Transpiler

  const ExitAnimation := "knives_table_exit"

  predicate IsExitAnimationName(i: Instr) {
    i.op == Ldstr && i.arg == Str(ExitAnimation)
  }

  /** `PlayAnimation(animation, key)`: pops both, pushes the `bool`. */
  function PlayAnimationCall(): Instr {
    Emit(Call, Method(Il.PlayAnimation, 2, 1))
  }

  /** Replaces the instruction after the first `ldstr "knives_table_exit"` (the
      `Animation.Play` call) by the call to `PlayAnimation`; indexing past the
      end throws. */
  function PreventCallsTranspiler(codes: seq<Instr>): (r: Result<seq<Instr>>)
    ensures r.Ok? ==> |r.value| == |codes|
    ensures (forall k :: 0 <= k < |codes| ==> !IsExitAnimationName(codes[k])) ==> r == Ok(codes)
    ensures r.Fail? ==> |codes| >= 1 && IsExitAnimationName(codes[|codes| - 1])
  {
    match FindFirst(codes, 0, |codes|, IsExitAnimationName)
    case None => Ok(codes)
    case Some(i) =>
      if i + 1 == |codes| then Fail(OutOfRange)
      else Ok(codes[i + 1 := PlayAnimationCall()])
  }

  /** With `i` the first matching `ldstr`, only `codes[i + 1]` changes. */
  lemma PreventCallsReplacesNext(codes: seq<Instr>, i: nat)
    requires i < |codes| && IsExitAnimationName(codes[i])
    requires forall u :: 0 <= u < i ==> !IsExitAnimationName(codes[u])
    ensures i + 1 == |codes| ==> PreventCallsTranspiler(codes) == Fail(OutOfRange)
    ensures i + 1 < |codes| ==> PreventCallsTranspiler(codes) == Ok(codes[i + 1 := PlayAnimationCall()])
  {
    FindFirstIs(codes, 0, |codes|, IsExitAnimationName, i);
  }

  /** The replacement has the stack effect of the `Animation.Play(string)`
      call it stands for (`this` and the key in, a `bool` out), so code
      around it is unaffected. */
  lemma PreventCallsSameEffect(pre: seq<Instr>, play: Instr, post: seq<Instr>)
    requires play.op == Callvirt && play.arg.Method? && play.arg.pops == 2 && play.arg.pushes == 1
    requires NetDelta(pre).Some? && NetDelta(post).Some?
    ensures NetDelta(pre + [play] + post) == NetDelta(pre + [PlayAnimationCall()] + post)
  {
    assert NetDelta([PlayAnimationCall()]) == Some(-1);
    SameEffectReplacement(pre, play, [PlayAnimationCall()], post);
  }
}

/** `PeltManager`: the pelts the Trapper sells and the Trader accepts, their
    prices, and the registry of custom pelts. */
module Pelts {
  import opened Wrappers
  import opened Seqs
  import opened Text

  /** C#'s `/` on `int`: the quotient of the magnitudes, negated when the
      operands' signs differ, so it is truncated toward zero. */
  function TruncDiv(a: int, b: int): (q: int)
    requires b != 0
    ensures Abs(q) == Abs(a) / Abs(b)
    ensures q != 0 ==> (q > 0 <==> (a > 0 <==> b > 0))
  {
    var m := Abs(a) / Abs(b);
    QuotientNonNegative(Abs(a), Abs(b));
    if (a >= 0) == (b > 0) then m else -m
  }

  lemma QuotientNonNegative(x: int, y: int)
    requires x >= 0 && y > 0
    ensures x / y >= 0
    ensures x == 0 ==> x / y == 0
  {
  }

  function Abs(x: int): (r: int)
    ensures r >= 0
  {
    if x < 0 then -x else x
  }

  /** On a non-negative dividend and a positive divisor, truncation and
      Dafny's Euclidean division agree. */
  lemma TruncDivOfNatural(a: int, b: int)
    requires a >= 0 && b > 0
    ensures TruncDiv(a, b) == a / b
  {
  }

  /** On a negative dividend they differ: C# gives `-1 / 2 == 0`. */
  lemma TruncDivOfNegative()
    ensures TruncDiv(-1, 2) == 0 && -1 / 2 == -1
  {
  }

  function Min(a: int, b: int): int {
    if a <= b then a else b
  }

  function Max(a: int, b: int): int {
    if a >= b then a else b
  }

  /** The game state the prices read: the `TrapperTraderDefeated` story
      event, the `ExpensivePelts` challenge, the buy-pelts sequencer's
      `TrapperBossDefeated` flag, and `RunState.CurrentRegionTier`. */
  datatype Context = Context(trapperTraderDefeated: bool, expensivePelts: bool, trapperBossDefeated: bool, regionTier: int)

  /** `BuyPriceAdjustment`: the default adds the region tier at the time the
      price is read; a mod may install any function. */
  datatype Adjustment = AddRegionTier | CustomAdjustment(f: int -> int)

  function Adjust(a: Adjustment, basePrice: int, regionTier: int): int {
    match a
    case AddRegionTier => basePrice + regionTier
    case CustomAdjustment(f) => f(basePrice)
  }

  /** Which cards the Trader offers for a pelt: the unlocked Nature trader
      offers, the unlocked Nature rares, or a mod's own function. */
  datatype ChoicePool = TraderOfferNature | RareNature | CustomChoices(functionId: nat)

  /** A base-game pelt (`VanillaPeltData`, whose price comes from the base
      price table) or any other pelt. */
  datatype PeltKind = Vanilla | Custom

  /** `PeltData`. `objectId` stands for the object's identity, which is what
      `List.Contains` compares. The Trader's per-card callback is left out. */
  datatype PeltData = PeltData(
    objectId: nat,
    kind: PeltKind,
    pluginGuid: Option<string>,
    cardName: Option<string>,
    tierName: Option<string>,
    soldByTrapper: bool,
    choices: ChoicePool,
    adjustment: Adjustment,
    baseBuyPrice: int,
    maxBuyPrice: int,
    extraAbilitiesToAdd: int,
    choicesOfferedByTrader: int,
    bossDefeatedPriceReduction: int,
    expensivePeltsPriceMultiplier: int)

  /** A `new PeltData()` with the field initialisers' defaults. */
  function DefaultPelt(objectId: nat, kind: PeltKind, cardName: Option<string>, choices: ChoicePool): PeltData {
    PeltData(objectId, kind, None, cardName, None, true, choices, AddRegionTier, 0, 0, 0, 8, 2, 2)
  }

  /** A configured multiplier: 1 when its condition is off or the configured
      value is not positive, the configured value otherwise. */
  function Multiplier(active: bool, configured: int): (m: int)
    ensures m >= 1
    ensures m == 1 <==> !active || configured <= 1
    ensures m != 1 ==> m == configured
  {
    if !active then 1 else if configured <= 0 then 1 else configured
  }

  /** The price before clamping: the adjusted base, truncated by the
      boss-defeat divisor, times the challenge multiplier. */
  function UnclampedPrice(p: PeltData, ctx: Context): int {
    var bossDefeatMult := Multiplier(ctx.trapperTraderDefeated, p.bossDefeatedPriceReduction);
    var challengeMult := Multiplier(ctx.expensivePelts, p.expensivePeltsPriceMultiplier);
    TruncDiv(Adjust(p.adjustment, p.baseBuyPrice, ctx.regionTier), bossDefeatMult) * challengeMult
  }

  /** `PeltData.BuyPrice` of a custom pelt: the unclamped price, capped by a
      positive `maxBuyPrice`, and never below 1. */
  function CustomBuyPrice(p: PeltData, ctx: Context): (r: int)
    ensures r >= 1
    ensures p.maxBuyPrice > 0 ==> r <= p.maxBuyPrice
    ensures r == UnclampedPrice(p, ctx) || r == 1 || r == p.maxBuyPrice
    ensures 1 <= UnclampedPrice(p, ctx) && (p.maxBuyPrice <= 0 || UnclampedPrice(p, ctx) <= p.maxBuyPrice) ==>
      r == UnclampedPrice(p, ctx)
  {
    var finalPrice := UnclampedPrice(p, ctx);
    var capped := if p.maxBuyPrice > 0 then Min(p.maxBuyPrice, finalPrice) else finalPrice;
    Max(1, capped)
  }

  /** With no defeat and no challenge, and the default adjustment, a custom
      pelt costs its base price plus the region tier, clamped. */
  lemma PlainCustomPrice(p: PeltData, ctx: Context)
    requires !ctx.trapperTraderDefeated && !ctx.expensivePelts && p.adjustment == AddRegionTier
    requires p.maxBuyPrice <= 0
    ensures CustomBuyPrice(p, ctx) == Max(1, p.baseBuyPrice + ctx.regionTier)
  {
    assert TruncDiv(p.baseBuyPrice + ctx.regionTier, 1) == p.baseBuyPrice + ctx.regionTier;
  }

  /** The base pelts' card names: Hare, Wolf, Golden. */
  function BasePeltNames(): (r: seq<string>)
    ensures |r| == 3
  {
    ["PeltHare", "PeltWolf", "PeltGolden"]
  }

  /** `BasePeltPrices`: 2, 4 + tier and 7 + 2 tier (the last capped at 20),
      halved (truncating) once the Trapper is defeated and doubled under the
      Expensive Pelts challenge. */
  function BasePeltPrices(ctx: Context): (r: seq<int>)
    ensures |r| == 3
    ensures r[2] <= 20
    ensures ctx.regionTier >= 0 ==> forall k :: 0 <= k < 3 ==> r[k] >= 1
  {
    var e := if ctx.expensivePelts then 2 else 1;
    var d := if ctx.trapperBossDefeated then 2 else 1;
    [TruncDiv(2, d) * e, TruncDiv(4 + ctx.regionTier, d) * e, Min(20, TruncDiv(7 + ctx.regionTier * 2, d) * e)]
  }

  /** Without either modifier the table is the base 2, 4 and 7 raised by the
      region tier; both modifiers together leave the Hare price at 2. */
  lemma BasePricesUnmodified(ctx: Context)
    ensures !ctx.expensivePelts && !ctx.trapperBossDefeated ==>
      BasePeltPrices(ctx) == [2, 4 + ctx.regionTier, Min(20, 7 + 2 * ctx.regionTier)]
    ensures ctx.expensivePelts && ctx.trapperBossDefeated ==> BasePeltPrices(ctx)[0] == 2
  {
  }

  /** Position of a card name in the base-name table, as
      `GetBasePeltData().Find` matches it. */
  function BaseIndex(name: Option<string>): (r: Option<nat>)
    ensures r.Some? ==> r.value < 3 && name == Some(BasePeltNames()[r.value])
    ensures r.None? ==> forall k :: 0 <= k < 3 ==> name != Some(BasePeltNames()[k])
  {
    if name == Some("PeltHare") then Some(0)
    else if name == Some("PeltWolf") then Some(1)
    else if name == Some("PeltGolden") then Some(2)
    else None
  }

  /** `BuyPrice` of any pelt: a base pelt reads the base price table by its
      card name, and throws when the name is not in it (`Find` returns
      `null`); any other pelt uses the configured formula. */
  function BuyPrice(p: PeltData, ctx: Context): (r: Result<int>)
    ensures p.kind == Custom ==> r == Ok(CustomBuyPrice(p, ctx))
    ensures p.kind == Vanilla ==> (r.Fail? <==> BaseIndex(p.cardName).None?)
    ensures p.kind == Vanilla && r.Ok? ==> r.value == BasePeltPrices(ctx)[BaseIndex(p.cardName).value]
    ensures r.Ok? && (p.kind == Custom || ctx.regionTier >= 0) ==> r.value >= 1
  {
    match p.kind
    case Custom => Ok(CustomBuyPrice(p, ctx))
    case Vanilla =>
      match BaseIndex(p.cardName)
      case None => Fail(NullReference)
      case Some(i) => Ok(BasePeltPrices(ctx)[i])
  }

  /** `CreateBasePelts`: one base pelt per base name, sold by the Trapper,
      offering eight Nature trader cards; the Wolf pelt adds one sigil and the
      Golden pelt offers four Nature rares. `firstId` is the identity of the
      first new object. */
  function CreateBasePelts(firstId: nat): (r: seq<PeltData>)
    ensures |r| == 3
    ensures forall k :: 0 <= k < 3 ==>
      r[k].kind == Vanilla && r[k].soldByTrapper && r[k].cardName == Some(BasePeltNames()[k])
    ensures r[0].extraAbilitiesToAdd == 0 && r[1].extraAbilitiesToAdd == 1 && r[2].extraAbilitiesToAdd == 0
    ensures r[0].choicesOfferedByTrader == 8 && r[1].choicesOfferedByTrader == 8 && r[2].choicesOfferedByTrader == 4
    ensures r[0].choices == TraderOfferNature && r[1].choices == TraderOfferNature && r[2].choices == RareNature
  {
    var names := BasePeltNames();
    var pelts := [DefaultPelt(firstId, Vanilla, Some(names[0]), TraderOfferNature),
                  DefaultPelt(firstId + 1, Vanilla, Some(names[1]), TraderOfferNature),
                  DefaultPelt(firstId + 2, Vanilla, Some(names[2]), TraderOfferNature)];
    var wolf := pelts[1].(extraAbilitiesToAdd := 1);
    var golden := pelts[2].(choicesOfferedByTrader := 4, choices := RareNature);
    pelts[1 := wolf][2 := golden]
  }

  /** Every base pelt's price is read from the table at its own position. */
  lemma BasePeltsPriceFromTable(firstId: nat, ctx: Context, k: nat)
    requires k < 3
    ensures BuyPrice(CreateBasePelts(firstId)[k], ctx) == Ok(BasePeltPrices(ctx)[k])
  {
  }

  /** The lazily created base pelts and `AllNewPelts`. */
  datatype PeltRegistry = PeltRegistry(basePelts: Option<seq<PeltData>>, newPelts: seq<PeltData>)

  /** `AllPelts`: creates the base pelts on first use (`??=`), then returns
      them followed by the custom ones. */
  function AllPelts(reg: PeltRegistry, firstId: nat): (r: (PeltRegistry, seq<PeltData>))
    ensures r.0.newPelts == reg.newPelts && r.0.basePelts.Some?
    ensures reg.basePelts.Some? ==> r.0 == reg
    ensures reg.basePelts.None? ==> r.0.basePelts == Some(CreateBasePelts(firstId))
    ensures r.1 == r.0.basePelts.value + reg.newPelts
  {
    var reg' := if reg.basePelts.None? then reg.(basePelts := Some(CreateBasePelts(firstId))) else reg;
    (reg', reg'.basePelts.value + reg'.newPelts)
  }

  /** The base pelts are created once: a second call sees the same list
      whatever identities it would have used. */
  lemma AllPeltsCached(reg: PeltRegistry, firstId: nat, laterId: nat)
    ensures var first := AllPelts(reg, firstId); AllPelts(first.0, laterId) == first
  {
  }

  /** Some pelt in the list is this very object. */
  predicate HasObject(pelts: seq<PeltData>, objectId: nat) {
    exists k :: 0 <= k < |pelts| && pelts[k].objectId == objectId
  }

  /** No object appears twice. */
  predicate DistinctObjects(pelts: seq<PeltData>) {
    forall i, j :: 0 <= i < j < |pelts| ==> pelts[i].objectId != pelts[j].objectId
  }

  /** `string.IsNullOrWhiteSpace`. */
  predicate IsNullOrBlank(s: Option<string>) {
    s.None? || IsBlank(s.value)
  }

  /** `Add`: data without a card name is refused (an error is logged); its
      plugin GUID defaults to the calling mod's; an object already registered
      is not added again. Returns the registry and the (updated) object. */
  function Add(reg: PeltRegistry, data: PeltData, callingModId: string): (r: (PeltRegistry, PeltData))
    ensures IsNullOrBlank(data.cardName) ==> r == (reg, data)
    ensures r.0.basePelts == reg.basePelts
    ensures !IsNullOrBlank(data.cardName) ==>
      r.1 == data.(pluginGuid := Some(data.pluginGuid.GetOr(callingModId)))
    ensures !IsNullOrBlank(data.cardName) && !HasObject(reg.newPelts, data.objectId) ==>
      r.0.newPelts == reg.newPelts + [r.1]
    ensures HasObject(reg.newPelts, data.objectId) ==> r.0 == reg
    ensures DistinctObjects(reg.newPelts) ==> DistinctObjects(r.0.newPelts)
  {
    if IsNullOrBlank(data.cardName) then (reg, data)
    else
      var d := data.(pluginGuid := Some(data.pluginGuid.GetOr(callingModId)));
      if HasObject(reg.newPelts, d.objectId) then (reg, d)
      else (reg.(newPelts := reg.newPelts + [d]), d)
  }

  /** Adding the same object twice registers it once. */
  lemma AddTwiceOnce(reg: PeltRegistry, data: PeltData, callingModId: string)
    ensures var once := Add(reg, data, callingModId);
      Add(once.0, data, callingModId).0 == once.0
  {
    var once := Add(reg, data, callingModId);
    if !IsNullOrBlank(data.cardName) && !HasObject(reg.newPelts, data.objectId) {
      assert once.0.newPelts[|reg.newPelts|].objectId == data.objectId;
    }
  }

  /** The card a new pelt is made for: its `name` and `displayedName`. */
  datatype PeltCard = PeltCard(name: Option<string>, displayedName: string)

  /** `New`: refuses a missing card-choice function, otherwise builds a custom
      pelt with the given prices and Trader settings and adds it. The tier
      name is `GetTierNameFromPelt` of the displayed name, passed in as
      `tierNameOf`. */
  function New(reg: PeltRegistry, pluginGuid: Option<string>, card: PeltCard, baseBuyPrice: int,
               extraAbilitiesToAdd: int, choicesOfferedByTrader: int, choices: Option<ChoicePool>,
               objectId: nat, tierNameOf: string -> string, callingModId: string): (r: Result<(PeltRegistry, PeltData)>)
    ensures r.Fail? <==> choices.None?
    ensures r.Fail? ==> r.fault == NullArgument
    ensures r.Ok? ==> var p := r.value.1;
      && p.kind == Custom && p.objectId == objectId && p.cardName == card.name
      && p.tierName == Some(tierNameOf(card.displayedName)) && p.choices == choices.value
      && p.baseBuyPrice == baseBuyPrice && p.extraAbilitiesToAdd == extraAbilitiesToAdd
      && p.choicesOfferedByTrader == choicesOfferedByTrader
      && p.maxBuyPrice == 0 && p.soldByTrapper
    ensures r.Ok? && !IsNullOrBlank(card.name) && !HasObject(reg.newPelts, objectId) ==>
      r.value.0.newPelts == reg.newPelts + [r.value.1]
  {
    if choices.None? then Fail(NullArgument)
    else
      var data := DefaultPelt(objectId, Custom, card.name, choices.value).(
        pluginGuid := pluginGuid,
        tierName := Some(tierNameOf(card.displayedName)),
        baseBuyPrice := baseBuyPrice,
        extraAbilitiesToAdd := extraAbilitiesToAdd,
        choicesOfferedByTrader := choicesOfferedByTrader);
      Ok(Add(reg, data, callingModId))
  }

  /** `GetPelt`: the first pelt of `AllPelts` with the card name, or `null`. */
  function GetPelt(reg: PeltRegistry, name: Option<string>, firstId: nat): (r: (PeltRegistry, Option<PeltData>))
    ensures r.0 == AllPelts(reg, firstId).0
  {
    var all := AllPelts(reg, firstId);
    (all.0, FirstNamed(all.1, name))
  }

  /** The first pelt of `pelts` with the card name. */
  function FirstNamed(pelts: seq<PeltData>, name: Option<string>): (r: Option<PeltData>)
    ensures r.Some? ==> r.value in pelts && r.value.cardName == name
    ensures r.None? <==> forall k :: 0 <= k < |pelts| ==> pelts[k].cardName != name
  {
    if |pelts| == 0 then None
    else if pelts[0].cardName == name then Some(pelts[0])
    else FirstNamed(pelts[1..], name)
  }

  /** `FirstNamed` picks the match with no earlier match. */
  lemma {:induction false} FirstNamedIsFirst(pelts: seq<PeltData>, name: Option<string>, k: nat)
    requires k < |pelts| && pelts[k].cardName == name
    requires forall j :: 0 <= j < k ==> pelts[j].cardName != name
    ensures FirstNamed(pelts, name) == Some(pelts[k])
    decreases k
  {
    if k > 0 {
      FirstNamedIsFirst(pelts[1..], name, k - 1);
    }
  }

  /** A base pelt's name always finds the base pelt, even when a custom pelt
      reuses the name. */
  lemma BaseNamesShadowCustom(reg: PeltRegistry, firstId: nat, k: nat)
    requires k < 3
    requires reg.basePelts.None? || reg.basePelts == Some(CreateBasePelts(firstId))
    ensures GetPelt(reg, Some(BasePeltNames()[k]), firstId).1 == Some(CreateBasePelts(firstId)[k])
  {
    var all := AllPelts(reg, firstId).1;
    var base := CreateBasePelts(firstId);
    assert all[..3] == base;
    forall j | 0 <= j < k
      ensures all[j].cardName != Some(BasePeltNames()[k])
    {
      assert all[j] == base[j];
    }
    FirstNamedIsFirst(all, Some(BasePeltNames()[k]), k);
  }

  /** `GetCostOfPelt`: 1 for an unknown name, the pelt's price otherwise. */
  function GetCostOfPelt(reg: PeltRegistry, ctx: Context, name: Option<string>, firstId: nat): (r: (PeltRegistry, Result<int>))
    ensures r.0 == AllPelts(reg, firstId).0
    ensures GetPelt(reg, name, firstId).1.None? ==> r.1 == Ok(1)
    ensures GetPelt(reg, name, firstId).1.Some? ==> r.1 == BuyPrice(GetPelt(reg, name, firstId).1.value, ctx)
    ensures r.1.Ok? && ctx.regionTier >= 0 ==> r.1.value >= 1
  {
    var found := GetPelt(reg, name, firstId);
    match found.1
    case None => (found.0, Ok(1))
    case Some(p) => (found.0, BuyPrice(p, ctx))
  }

  predicate IsSoldByTrapper(p: PeltData) {
    p.soldByTrapper
  }

  /** `AllPeltsAvailableAtTrader`: the pelts of `AllPelts` the Trapper sells,
      in order. */
  function AllPeltsAvailableAtTrader(reg: PeltRegistry, firstId: nat): (r: (PeltRegistry, seq<PeltData>))
    ensures r.0 == AllPelts(reg, firstId).0
    ensures forall p :: p in r.1 <==> p in AllPelts(reg, firstId).1 && p.soldByTrapper
    ensures |r.1| == CountWhere(AllPelts(reg, firstId).1, IsSoldByTrapper)
  {
    var all := AllPelts(reg, firstId);
    FilterMembers(all.1, IsSoldByTrapper);
    (all.0, Filter(all.1, IsSoldByTrapper))
  }

  /** The Trader's list keeps the order of `AllPelts`: the base pelts the
      Trapper sells, then the added pelts it sells, in registration order. */
  lemma {:induction false} TraderKeepsOrder(reg: PeltRegistry, firstId: nat)
    ensures AllPeltsAvailableAtTrader(reg, firstId).1 ==
      Filter(AllPelts(reg, firstId).0.basePelts.value, IsSoldByTrapper) + Filter(reg.newPelts, IsSoldByTrapper)
  {
    FilterAppend(AllPelts(reg, firstId).0.basePelts.value, reg.newPelts, IsSoldByTrapper);
  }

  /** On first use every base pelt is available at the Trader, all three
      first and in table order, followed by the added pelts the Trapper
      sells. */
  lemma BasePeltsAtTrader(reg: PeltRegistry, firstId: nat)
    requires reg.basePelts.None?
    ensures var offered := AllPeltsAvailableAtTrader(reg, firstId).1;
      |offered| >= 3 && offered[..3] == CreateBasePelts(firstId)
      && offered[3..] == Filter(reg.newPelts, IsSoldByTrapper)
  {
    var base := CreateBasePelts(firstId);
    TraderKeepsOrder(reg, firstId);
    FilterAll(base, IsSoldByTrapper);
    var offered := AllPeltsAvailableAtTrader(reg, firstId).1;
    assert offered == base + Filter(reg.newPelts, IsSoldByTrapper);
  }
}

/** `PixelCardManager`: the registry of custom GBC card decals and how the
    pixel card displayer rebuilds a card's decals. */
module PixelDecals {
  import opened Wrappers
  import opened Seqs

  /** Handle of a Unity texture. */
  type TextureRef = nat

  /** `PixelDecalData`; `objectId` stands for the object's identity, which is
      what `List.Contains` compares. */
  datatype PixelDecalData = PixelDecalData(objectId: nat, pluginGuid: Option<string>, textureName: Option<string>, texture: TextureRef)

  /** `CustomPixelDecals`, with the identity the next `new` object gets. */
  datatype DecalRegistry = DecalRegistry(decals: seq<PixelDecalData>, nextObject: nat)

  /** Every registered object was allocated before the next one. */
  predicate Allocated(reg: DecalRegistry) {
    forall k :: 0 <= k < |reg.decals| ==> reg.decals[k].objectId < reg.nextObject
  }

  function Initial(): (reg: DecalRegistry)
    ensures Allocated(reg) && reg.decals == []
  {
    DecalRegistry([], 0)
  }

  /** `AddGBCDecal`: builds a new record and adds it unless the list already
      holds that very object, which a fresh object never is. */
  function AddGBCDecal(reg: DecalRegistry, pluginGuid: Option<string>, textureName: Option<string>, texture: TextureRef): (r: (DecalRegistry, PixelDecalData))
    ensures r.1 == PixelDecalData(reg.nextObject, pluginGuid, textureName, texture)
    ensures Allocated(reg) ==> r.0.decals == reg.decals + [r.1]
    ensures Allocated(reg) ==> Allocated(r.0)
    ensures r.0.nextObject == reg.nextObject + 1
  {
    var result := PixelDecalData(reg.nextObject, pluginGuid, textureName, texture);
    var contains := exists k :: 0 <= k < |reg.decals| && reg.decals[k].objectId == result.objectId;
    var decals := if contains then reg.decals else reg.decals + [result];
    (DecalRegistry(decals, reg.nextObject + 1), result)
  }

  /** Registering the same texture name twice keeps both records, and lookups
      keep finding the first. */
  lemma AddTwiceKeepsFirst(reg: DecalRegistry, guid: Option<string>, name: string, t1: TextureRef, t2: TextureRef)
    requires Allocated(reg)
    requires FindDecal(reg.decals, name).None?
    ensures var once := AddGBCDecal(reg, guid, Some(name), t1);
      var twice := AddGBCDecal(once.0, guid, Some(name), t2);
      |twice.0.decals| == |reg.decals| + 2 && FindDecal(twice.0.decals, name) == Some(once.1)
  {
    var once := AddGBCDecal(reg, guid, Some(name), t1);
    var twice := AddGBCDecal(once.0, guid, Some(name), t2);
    assert twice.0.decals == reg.decals + [once.1] + [twice.1];
    FindDecalIs(twice.0.decals, name, |reg.decals|);
  }

  /** The `DisplayInfo` postfix's test: the snapshot displayer always, and in
      the GBC card battle every displayer except the preview panel (`&&`
      binds tighter than `||`). */
  predicate ShowsDecals(objectName: string, sceneName: string): (r: bool)
    ensures objectName == "PixelSnap" ==> r
    ensures objectName == "CardPreviewPanel" ==> !r
    ensures sceneName != "GBC_CardBattle" ==> (r <==> objectName == "PixelSnap")
  {
    objectName == "PixelSnap" || (sceneName == "GBC_CardBattle" && objectName != "CardPreviewPanel")
  }

  /** The grouping does not matter: the snapshot displayer is never the
      preview panel, so reading the test as `(a || b) && c` decides the same. */
  lemma ShowsDecalsEitherGrouping(objectName: string, sceneName: string)
    ensures ShowsDecals(objectName, sceneName) <==>
      (objectName == "PixelSnap" || sceneName == "GBC_CardBattle") && objectName != "CardPreviewPanel"
  {
    if objectName == "PixelSnap" {
      assert |objectName| != |"CardPreviewPanel"|;
    }
  }

  /** `CustomPixelDecals.Find(x => x.TextureName == decalId)`. */
  function FindDecal(decals: seq<PixelDecalData>, decalId: string): (r: Option<PixelDecalData>)
    ensures r.Some? ==> r.value in decals && r.value.textureName == Some(decalId)
    ensures r.None? <==> forall k :: 0 <= k < |decals| ==> decals[k].textureName != Some(decalId)
  {
    if |decals| == 0 then None
    else if decals[0].textureName == Some(decalId) then Some(decals[0])
    else FindDecal(decals[1..], decalId)
  }

  lemma {:induction false} FindDecalIs(decals: seq<PixelDecalData>, decalId: string, k: nat)
    requires k < |decals| && decals[k].textureName == Some(decalId)
    requires forall j :: 0 <= j < k ==> decals[j].textureName != Some(decalId)
    ensures FindDecal(decals, decalId) == Some(decals[k])
    decreases k
  {
    if k > 0 {
      FindDecalIs(decals[1..], decalId, k - 1);
    }
  }

  /** A decal to draw: its texture and the name of the object that shows it. */
  datatype Resolved = Resolved(texture: TextureRef, name: string)

  /** The ids some registered decal carries as its texture name, in order
      and with repeats kept. */
  function KnownIds(decals: seq<PixelDecalData>, ids: seq<string>): (r: seq<string>)
    ensures |r| <= |ids|
    decreases |ids|
  {
    if |ids| == 0 then []
    else if FindDecal(decals, ids[0]).Some? then [ids[0]] + KnownIds(decals, ids[1..])
    else KnownIds(decals, ids[1..])
  }

  /** `KnownIds` keeps exactly the known ids, and keeps them all when every
      id is known. */
  lemma {:induction false} KnownIdsMembers(decals: seq<PixelDecalData>, ids: seq<string>)
    ensures forall x :: x in KnownIds(decals, ids) <==> x in ids && FindDecal(decals, x).Some?
    ensures (forall j :: 0 <= j < |ids| ==> FindDecal(decals, ids[j]).Some?) ==> KnownIds(decals, ids) == ids
    decreases |ids|
  {
    if |ids| > 0 {
      KnownIdsMembers(decals, ids[1..]);
      assert ids == [ids[0]] + ids[1..];
    }
  }

  /** The decals a list of ids resolves to: one per known id, in the ids'
      order and with repeats kept, each drawing the texture of the first
      decal registered under that id; unknown ids are skipped. */
  function ResolveIds(decals: seq<PixelDecalData>, ids: seq<string>): (r: seq<Resolved>)
    ensures |r| == |KnownIds(decals, ids)|
    ensures forall k :: 0 <= k < |r| ==> r[k].name == KnownIds(decals, ids)[k]
    ensures forall k :: 0 <= k < |r| ==>
      FindDecal(decals, r[k].name).Some? && r[k].texture == FindDecal(decals, r[k].name).value.texture
    decreases |ids|
  {
    if |ids| == 0 then []
    else
      var rest := ResolveIds(decals, ids[1..]);
      match FindDecal(decals, ids[0])
      case None => rest
      case Some(d) => [Resolved(d.texture, ids[0])] + rest
  }

  lemma {:induction false} ResolveIdsAppend(decals: seq<PixelDecalData>, a: seq<string>, b: seq<string>)
    ensures ResolveIds(decals, a + b) == ResolveIds(decals, a) + ResolveIds(decals, b)
    decreases |a|
  {
    if |a| == 0 {
      assert a + b == b;
    } else {
      assert (a + b)[1..] == a[1..] + b;
      ResolveIdsAppend(decals, a[1..], b);
    }
  }

  /** Decal resolution in `AddDecalToCard`: the card's modifications in order,
      each one's decal ids in order. */
  function ResolveModDecals(decals: seq<PixelDecalData>, modDecalIds: seq<seq<string>>): (r: seq<Resolved>)
    decreases |modDecalIds|
  {
    if |modDecalIds| == 0 then [] else ResolveIds(decals, modDecalIds[0]) + ResolveModDecals(decals, modDecalIds[1..])
  }

  /** Visiting the modifications one by one resolves the same decals as
      resolving all their ids in one list. */
  lemma {:induction false} ResolveModDecalsFlat(decals: seq<PixelDecalData>, modDecalIds: seq<seq<string>>)
    ensures ResolveModDecals(decals, modDecalIds) == ResolveIds(decals, Flatten(modDecalIds))
    decreases |modDecalIds|
  {
    if |modDecalIds| > 0 {
      ResolveModDecalsFlat(decals, modDecalIds[1..]);
      ResolveIdsAppend(decals, modDecalIds[0], Flatten(modDecalIds[1..]));
    }
  }

  /** A child object of the card's `CardElements`: its name and whether it
      carries a `DecalIdentifier`. */
  datatype Child = Child(name: string, isDecal: bool)

  predicate IsPlainChild(c: Child) {
    !c.isDecal
  }

  /** The existing decals are detached, so lookups by name no longer see them. */
  function ClearDecals(children: seq<Child>): (r: seq<Child>)
    ensures forall k :: 0 <= k < |r| ==> !r[k].isDecal
  {
    Filter(children, IsPlainChild)
  }

  predicate HasChildNamed(children: seq<Child>, name: string) {
    exists k :: 0 <= k < |children| && children[k].name == name
  }

  /** The gemified border and its three gem lights, all decals. */
  function GemBorder(): (r: seq<Child>)
    ensures |r| == 4 && r[0].name == "PixelGemifiedBorder"
    ensures forall k :: 0 <= k < |r| ==> r[k].isDecal
  {
    [Child("PixelGemifiedBorder", true), Child("PixelGemifiedBlue", true),
     Child("PixelGemifiedGreen", true), Child("PixelGemifiedOrange", true)]
  }

  function DecalChildren(resolved: seq<Resolved>): (r: seq<Child>)
    ensures |r| == |resolved|
    ensures forall k :: 0 <= k < |r| ==> r[k] == Child(resolved[k].name, true)
  {
    if |resolved| == 0 then [] else [Child(resolved[0].name, true)] + DecalChildren(resolved[1..])
  }

  /** `AddDecalToCard`, on the children of `CardElements` (`None` when the
      displayer has none, in which case nothing happens): the old decals go,
      the gem border is added to a gemified card that has no border child
      left, and, for a displayed `PlayableCard` (`modDecalIds` present), one
      decal per resolved id follows. The appearance-behaviour displayers are
      left out. */
  function AddDecalToCard(decals: seq<PixelDecalData>, cardElements: Option<seq<Child>>, gemified: bool,
                          modDecalIds: Option<seq<seq<string>>>): (r: Option<seq<Child>>)
    ensures r.None? <==> cardElements.None?
    ensures r.Some? ==> ClearDecals(cardElements.value) <= r.value
    ensures r.Some? && modDecalIds.None? ==>
      r.value == ClearDecals(cardElements.value) + BorderFor(ClearDecals(cardElements.value), gemified)
    ensures r.Some? && modDecalIds.Some? ==> var kept := ClearDecals(cardElements.value);
      r.value == kept + BorderFor(kept, gemified) + DecalChildren(ResolveIds(decals, Flatten(modDecalIds.value)))
  {
    match cardElements
    case None => None
    case Some(children) =>
      match modDecalIds
      case None => Some(Rebuild(ClearDecals(children), gemified, AddedDecals(decals, modDecalIds)))
      case Some(mods) =>
        ResolveModDecalsFlat(decals, mods);
        Some(Rebuild(ClearDecals(children), gemified, AddedDecals(decals, modDecalIds)))
  }

  /** The children after the display: the kept ones, the border if due, and
      the card's decals. */
  function Rebuild(kept: seq<Child>, gemified: bool, added: seq<Child>): seq<Child> {
    kept + BorderFor(kept, gemified) + added
  }

  /** One decal child per resolved id of a displayed card, none without one. */
  function AddedDecals(decals: seq<PixelDecalData>, modDecalIds: Option<seq<seq<string>>>): (r: seq<Child>)
    ensures forall k :: 0 <= k < |r| ==> r[k].isDecal
  {
    if modDecalIds.None? then [] else DecalChildren(ResolveModDecals(decals, modDecalIds.value))
  }

  /** The border is added only to a gemified card without a border child. */
  function BorderFor(kept: seq<Child>, gemified: bool): (r: seq<Child>)
    ensures r != [] <==> gemified && !HasChildNamed(kept, "PixelGemifiedBorder")
    ensures r != [] ==> r == GemBorder()
  {
    if gemified && !HasChildNamed(kept, "PixelGemifiedBorder") then GemBorder() else []
  }

  lemma {:induction false} ClearDecalsOfClean(children: seq<Child>)
    requires forall k :: 0 <= k < |children| ==> !children[k].isDecal
    ensures ClearDecals(children) == children
    decreases |children|
  {
    if |children| > 0 {
      ClearDecalsOfClean(children[1..]);
      assert children == [children[0]] + children[1..];
    }
  }

  lemma {:induction false} ClearDecalsAppend(a: seq<Child>, b: seq<Child>)
    ensures ClearDecals(a + b) == ClearDecals(a) + ClearDecals(b)
    decreases |a|
  {
    if |a| == 0 {
      assert a + b == b;
    } else {
      assert (a + b)[1..] == a[1..] + b;
      ClearDecalsAppend(a[1..], b);
    }
  }

  /** Every child `AddDecalToCard` adds is a decal, which the next call
      detaches first: displaying a card again rebuilds the same children. */
  lemma DisplayIdempotent(decals: seq<PixelDecalData>, children: seq<Child>, gemified: bool, modDecalIds: Option<seq<seq<string>>>)
    ensures var once := AddDecalToCard(decals, Some(children), gemified, modDecalIds).value;
      AddDecalToCard(decals, Some(once), gemified, modDecalIds).value == once
  {
    var kept := ClearDecals(children);
    var added := AddedDecals(decals, modDecalIds);
    var border := BorderFor(kept, gemified);
    var once := Rebuild(kept, gemified, added);
    assert once == kept + (border + added);
    AllDecals(border, added);
    ClearAfterDisplay(kept, border + added);
  }

  lemma AllDecals(a: seq<Child>, b: seq<Child>)
    requires forall k :: 0 <= k < |a| ==> a[k].isDecal
    requires forall k :: 0 <= k < |b| ==> b[k].isDecal
    ensures forall k :: 0 <= k < |a + b| ==> (a + b)[k].isDecal
  {
  }

  /** Clearing plain children followed by decals leaves the plain children. */
  lemma ClearAfterDisplay(kept: seq<Child>, added: seq<Child>)
    requires forall k :: 0 <= k < |kept| ==> !kept[k].isDecal
    requires forall k :: 0 <= k < |added| ==> added[k].isDecal
    ensures ClearDecals(kept + added) == kept
  {
    ClearDecalsOfClean(kept);
    ClearDecalsAppend(kept, added);
    NoPlainChildren(added);
  }

  lemma {:induction false} NoPlainChildren(children: seq<Child>)
    requires forall k :: 0 <= k < |children| ==> children[k].isDecal
    ensures ClearDecals(children) == []
    decreases |children|
  {
    if |children| > 0 {
      NoPlainChildren(children[1..]);
    }
  }

  /** The `DisplayInfo` postfix: the children after the display, or `None`
      when the card has no `CardElements`. A displayer that does not show
      decals is left alone; one that does keeps exactly its plain children,
      in order, and every decal it ends with is part of the gem border or is
      named by a known decal id of the card's modifications. */
  function DecalPatches(decals: seq<PixelDecalData>, objectName: string, sceneName: string,
                        cardElements: Option<seq<Child>>, gemified: bool, modDecalIds: Option<seq<seq<string>>>): (r: Option<seq<Child>>)
    ensures !ShowsDecals(objectName, sceneName) ==> r == cardElements
    ensures r.None? <==> cardElements.None?
    ensures ShowsDecals(objectName, sceneName) && r.Some? ==> DisplayedFrom(r.value, cardElements.value, gemified, decals, modDecalIds)
  {
    if !ShowsDecals(objectName, sceneName) then cardElements
    else match cardElements
      case None => None
      case Some(children) =>
        RebuildDisplayedFrom(decals, children, gemified, modDecalIds);
        AddDecalToCard(decals, cardElements, gemified, modDecalIds)
  }

  /** `out` keeps exactly the plain children of `children`, in order, and
      every decal in it is part of the gem border due to the card or is
      named by a known decal id of the card's modifications. */
  predicate DisplayedFrom(out: seq<Child>, children: seq<Child>, gemified: bool, decals: seq<PixelDecalData>,
                          modDecalIds: Option<seq<seq<string>>>) {
    && ClearDecals(out) == ClearDecals(children)
    && forall k :: 0 <= k < |out| && out[k].isDecal ==>
         out[k] in BorderFor(ClearDecals(children), gemified)
         || (modDecalIds.Some? && out[k].name in KnownIds(decals, Flatten(modDecalIds.value)))
  }

  /** The children a display rebuilds are displayed from the ones it found. */
  lemma RebuildDisplayedFrom(decals: seq<PixelDecalData>, children: seq<Child>, gemified: bool, modDecalIds: Option<seq<seq<string>>>)
    ensures DisplayedFrom(Rebuild(ClearDecals(children), gemified, AddedDecals(decals, modDecalIds)), children, gemified, decals, modDecalIds)
  {
    var kept := ClearDecals(children);
    var added := AddedDecals(decals, modDecalIds);
    RebuildKeepsPlain(kept, gemified, added);
    RebuildDecalsOrigin(decals, kept, gemified, modDecalIds);
  }

  lemma RebuildDecalsOrigin(decals: seq<PixelDecalData>, kept: seq<Child>, gemified: bool, modDecalIds: Option<seq<seq<string>>>)
    requires forall k :: 0 <= k < |kept| ==> !kept[k].isDecal
    ensures var out := Rebuild(kept, gemified, AddedDecals(decals, modDecalIds));
      forall k :: 0 <= k < |out| && out[k].isDecal ==>
        out[k] in BorderFor(kept, gemified)
        || (modDecalIds.Some? && out[k].name in KnownIds(decals, Flatten(modDecalIds.value)))
  {
    var added := AddedDecals(decals, modDecalIds);
    var border := BorderFor(kept, gemified);
    AddedDecalsNamed(decals, modDecalIds);
    assert Rebuild(kept, gemified, added) == kept + (border + added);
    match modDecalIds {
      case None => DecalsOfParts(kept, border, added, []);
      case Some(mods) => DecalsOfParts(kept, border, added, KnownIds(decals, Flatten(mods)));
    }
  }

  /** A rebuild keeps exactly the plain children it starts from, in order. */
  lemma RebuildKeepsPlain(kept: seq<Child>, gemified: bool, added: seq<Child>)
    requires forall k :: 0 <= k < |kept| ==> !kept[k].isDecal
    requires forall k :: 0 <= k < |added| ==> added[k].isDecal
    ensures ClearDecals(Rebuild(kept, gemified, added)) == kept
  {
    var border := BorderFor(kept, gemified);
    assert Rebuild(kept, gemified, added) == kept + (border + added);
    AllDecals(border, added);
    ClearAfterDisplay(kept, border + added);
  }

  /** Every decal a display adds for the card's modifications is named by a
      known id. */
  lemma AddedDecalsNamed(decals: seq<PixelDecalData>, modDecalIds: Option<seq<seq<string>>>)
    ensures var added := AddedDecals(decals, modDecalIds);
      forall j :: 0 <= j < |added| ==> modDecalIds.Some? && added[j].name in KnownIds(decals, Flatten(modDecalIds.value))
  {
    if modDecalIds.Some? {
      ResolveModDecalsFlat(decals, modDecalIds.value);
      var added := AddedDecals(decals, modDecalIds);
      forall j | 0 <= j < |added|
        ensures added[j].name in KnownIds(decals, Flatten(modDecalIds.value))
      {
        assert added[j].name == KnownIds(decals, Flatten(modDecalIds.value))[j];
      }
    }
  }

  lemma DecalsOfParts(kept: seq<Child>, border: seq<Child>, added: seq<Child>, names: seq<string>)
    requires forall k :: 0 <= k < |kept| ==> !kept[k].isDecal
    requires forall j :: 0 <= j < |added| ==> added[j].name in names
    ensures forall k :: 0 <= k < |kept + (border + added)| && (kept + (border + added))[k].isDecal ==>
      (kept + (border + added))[k] in border || (kept + (border + added))[k].name in names
  {
    var out := kept + (border + added);
    forall k | 0 <= k < |out| && out[k].isDecal
      ensures out[k] in border || out[k].name in names
    {
      if k < |kept| + |border| {
        assert out[k] == border[k - |kept|];
      } else {
        assert out[k] == added[k - |kept| - |border|];
      }
    }
  }

  /** Running the postfix a second time changes nothing. */
  lemma DecalPatchesIdempotent(decals: seq<PixelDecalData>, objectName: string, sceneName: string,
                               cardElements: Option<seq<Child>>, gemified: bool, modDecalIds: Option<seq<seq<string>>>)
    ensures var once := DecalPatches(decals, objectName, sceneName, cardElements, gemified, modDecalIds);
      DecalPatches(decals, objectName, sceneName, once, gemified, modDecalIds) == once
  {
    if ShowsDecals(objectName, sceneName) && cardElements.Some? {
      DisplayIdempotent(decals, cardElements.value, gemified, modDecalIds);
    }
  }
}

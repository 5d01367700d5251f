/** The rewrites `SlotAttackSlotPatches` applies to the compiled body of the
    enumerator behind `CombatPhaseManager.SlotAttackSlot`:

    - `ModifyDirectDamageCheck` stores the modified direct damage in a custom
      field right after the `CanAttackDirectly` test and reads it back in
      place of the next two `get_Attack` calls;
    - `CallTriggerOnDirectDamage` replaces the vanilla `DealDamageDirectly`
      trigger call by a call to the extensible trigger dispatch;
    - `OpposingCardNullCheck` adds an `opposingSlot.Card != null` guard after
      the `CardGettingAttacked` trigger;

    and `Transpile`, which finds the three anchors in that order. */
module SlotAttackPatch {
  import opened Wrappers
  import opened Seqs
  import opened Il

  /** Key of the custom field holding the modified attack. */
  const ModifiedAttackKey := "modifiedAttack"

  // Members the inserted code calls, with their stack arity.
  const GetCardMethod := Method(GetCard, 1, 1)
  const NewDamageMethod := Method(NewDamage, 2, 1)
  const NewTriggersMethod := Method(NewTriggers, 2, 1)
  const SetCustomFieldMethod := Method(SetCustomField, 3, 0)
  const GetCustomFieldMethod := Method(GetCustomFieldInt, 2, 1)
  const BoxedInt := TypeToken("System.Int32")

  /** Outcome of a rewrite step: whether its anchor was found, the rewritten
      stream, and the position the caller's loop variable is left at (the
      `ref int index` of the helpers). */
  datatype Step = Step(hit: bool, codes: seq<Instr>, index: nat)

  // The instruction shapes the scans look for.
  predicate IsSeedCall(i: Instr) { IsOpOn(i, Call, GlobalTriggerInstance) }
  predicate IsOpposingSlotLoad(i: Instr) { IsOpOn(i, Ldfld, OpposingSlotField) }
  predicate IsGetCardCall(i: Instr) { IsOpOn(i, Callvirt, GetCard) }
  predicate IsGetAttackCall(i: Instr) { IsOpOn(i, Callvirt, GetAttack) }
  predicate IsCanAttackDirectlyCall(i: Instr) { IsOpOn(i, Callvirt, CanAttackDirectly) }
  predicate IsAnyCall(i: Instr) { i.op == Call }
  predicate IsBranchIfFalse(i: Instr) { i.op == Brfalse }
  predicate IsFieldStore(i: Instr) { i.op == Stfld }
  predicate IsThisLoad(i: Instr) { i.op == Ldarg0 }
  predicate IsPushSeven(i: Instr) { i.op == LdcI4_7 }
  /** Any instruction whose operand prints as the `opposingSlot` field. */
  predicate RefersToOpposingSlot(i: Instr) { Names(i.arg, OpposingSlotField) }
  /** Any instruction whose operand prints as the compiler's display-class field. */
  predicate RefersToCombatPhase(i: Instr) { Names(i.arg, CombatPhaseField) }

  /** The operand of the first instruction of `s[lo..hi]` satisfying `p`, or
      `null` when there is none: a capture variable that is only assigned
      while it is still `null`, so the first writer wins. */
  function Capture(s: seq<Instr>, lo: nat, hi: nat, p: Instr -> bool): Operand
    requires hi <= |s|
  {
    match FindFirst(s, lo, hi, p)
    case Some(t) => s[t].arg
    case None => NoOperand
  }

  /** The capture holds the operand of the first match, and stays `null` when
      nothing matches. */
  lemma CaptureIsFirst(s: seq<Instr>, lo: nat, hi: nat, p: Instr -> bool)
    requires hi <= |s|
    ensures (forall t :: lo <= t < hi ==> !p(s[t])) ==> Capture(s, lo, hi, p) == NoOperand
    ensures forall t :: lo <= t < hi && p(s[t]) && (forall u :: lo <= u < t ==> !p(s[u])) ==> Capture(s, lo, hi, p) == s[t].arg
  {
    forall t | lo <= t < hi && p(s[t]) && (forall u :: lo <= u < t ==> !p(s[u]))
      ensures Capture(s, lo, hi, p) == s[t].arg
    {
      FindFirstIs(s, lo, hi, p, t);
    }
  }

  /** A captured operand is `null` or copied from a matching instruction. */
  lemma CaptureIsCopied(s: seq<Instr>, lo: nat, hi: nat, p: Instr -> bool)
    requires hi <= |s|
    ensures var o := Capture(s, lo, hi, p);
      o == NoOperand || exists t :: lo <= t < hi && p(s[t]) && o == s[t].arg
  {
  }

  /** The operand of the last instruction of `s[lo..hi]` satisfying `p`, or
      `null`: a downward scan that stops at its first hit. */
  function CaptureLast(s: seq<Instr>, lo: nat, hi: nat, p: Instr -> bool): Operand
    requires hi <= |s|
  {
    match FindLast(s, lo, hi, p)
    case Some(t) => s[t].arg
    case None => NoOperand
  }

  /** The backward capture holds the operand of the match nearest to `hi`. */
  lemma CaptureLastIsNearest(s: seq<Instr>, lo: nat, hi: nat, p: Instr -> bool)
    requires hi <= |s|
    ensures (forall t :: lo <= t < hi ==> !p(s[t])) ==> CaptureLast(s, lo, hi, p) == NoOperand
    ensures forall t :: lo <= t < hi && p(s[t]) && (forall u :: t < u < hi ==> !p(s[u])) ==> CaptureLast(s, lo, hi, p) == s[t].arg
  {
    forall t | lo <= t < hi && p(s[t]) && (forall u :: t < u < hi ==> !p(s[u]))
      ensures CaptureLast(s, lo, hi, p) == s[t].arg
    {
      FindLastIs(s, lo, hi, p, t);
    }
  }

  // ---------------------------------------------------------------------------
  // OpposingCardNullCheck

  /** `codes[i]` calls `GlobalTriggerHandler.Instance` and is followed by
      `ldc.i4.7` (the `CardGettingAttacked` trigger). */
  predicate IsSeed(codes: seq<Instr>, i: nat) {
    i + 1 < |codes| && IsSeedCall(codes[i]) && codes[i + 1].op == LdcI4_7
  }

  /** `codes[j]` is a `stfld` directly preceded by `ldc.i4.m1`. */
  predicate IsMarker(codes: seq<Instr>, j: nat) {
    1 <= j < |codes| && codes[j].op == Stfld && codes[j - 1].op == LdcI4_M1
  }

  /** First marker at or after `from`. */
  function FindMarker(codes: seq<Instr>, from: nat): (r: Option<nat>)
    requires from >= 1
    ensures r.Some? ==> from <= r.value < |codes| && IsMarker(codes, r.value)
    ensures r.Some? ==> forall j :: from <= j < r.value ==> !IsMarker(codes, j)
    ensures r.None? ==> forall j :: from <= j < |codes| ==> !IsMarker(codes, j)
    decreases |codes| - from
  {
    if from >= |codes| then None
    else if IsMarker(codes, from) then Some(from)
    else FindMarker(codes, from + 1)
  }

  /** `if (this.opposingSlot.Card != null)`, branching to the captured label. */
  function NullGuard(opposingSlot: Operand, getCard: Operand, inequality: Operand, breakLabel: Operand): seq<Instr> {
    [ Emit(Ldarg0, NoOperand), Emit(Ldfld, opposingSlot), Emit(Callvirt, getCard),
      Emit(Ldnull, NoOperand), Emit(Call, inequality), Emit(Brfalse, breakLabel) ]
  }

  /** The guard built for seed `i`, marker `m` and store `k`: the field and the
      `get_Card` call are the first ones between the seed and the marker, the
      inequality call and the branch the first ones between the marker and
      the store. */
  function GuardFor(codes: seq<Instr>, i: nat, m: nat, k: nat): seq<Instr>
    requires m < k < |codes|
  {
    NullGuard(
      Capture(codes, i + 1, m + 1, IsOpposingSlotLoad),
      Capture(codes, i + 1, m + 1, IsGetCardCall),
      Capture(codes, m + 1, k + 1, IsAnyCall),
      Capture(codes, m + 1, k + 1, IsBranchIfFalse))
  }

  datatype Patched = Patched(hit: bool, codes: seq<Instr>)

  /** The splice once the seed at `i` and the marker at `m` are found: the
      guard goes after the first `stfld` following the marker, if any. */
  function SpliceAfterMarker(codes: seq<Instr>, i: nat, m: nat): (r: Patched)
    requires m < |codes|
    ensures !r.hit ==> r.codes == codes
    ensures r.hit ==> |r.codes| == |codes| + 6
  {
    match FindFirst(codes, m + 1, |codes|, IsFieldStore)
    case None => Patched(false, codes)
    case Some(k) => Patched(true, InsertAt(codes, k + 1, GuardFor(codes, i, m, k)))
  }

  /** `(MethodInfo)operand`: a method, or `null`, casts; a constructor or
      any other operand throws `InvalidCastException`. */
  predicate CastsToMethod(o: Operand) {
    o.NoOperand? || o.Method?
  }

  /** Where the scan after the marker at `m` stops: just past the first
      `stfld` after it, or at the end of the stream when there is none. */
  function InnerScanEnd(codes: seq<Instr>, m: nat): (e: nat)
    requires m < |codes|
    ensures m + 1 <= e <= |codes|
    ensures forall u :: m < u < e - 1 ==> !IsFieldStore(codes[u])
    ensures e == |codes| || (m < e - 1 && IsFieldStore(codes[e - 1]))
  {
    match FindFirst(codes, m + 1, |codes|, IsFieldStore)
    case None => |codes|
    case Some(k) => k + 1
  }

  /** Tries the null-guard splice with `codes[i]` as seed. Reading `codes[i + 1]`
      when the seed call is the last instruction throws, and so does the
      `(MethodInfo)` cast of the first `call` operand the scan after the
      marker meets, when that operand is not a method. */
  function OpposingCardNullCheck(codes: seq<Instr>, i: nat): (r: Result<Patched>)
    requires i < |codes|
    ensures r == Fail(OutOfRange) <==> IsSeedCall(codes[i]) && i + 1 == |codes|
    ensures r.Fail? ==> r.fault == OutOfRange || r.fault == InvalidCast
    ensures r == Fail(InvalidCast) ==> IsSeed(codes, i)
    ensures r.Ok? && !r.value.hit ==> r.value.codes == codes
    ensures r.Ok? && r.value.hit ==> IsSeed(codes, i) && |r.value.codes| == |codes| + 6
  {
    if !IsSeedCall(codes[i]) then Ok(Patched(false, codes))
    else if i + 1 == |codes| then Fail(OutOfRange)
    else if codes[i + 1].op != LdcI4_7 then Ok(Patched(false, codes))
    else match FindMarker(codes, i + 1)
      case None => Ok(Patched(false, codes))
      case Some(m) =>
        if !CastsToMethod(Capture(codes, m + 1, InnerScanEnd(codes, m), IsAnyCall)) then Fail(InvalidCast)
        else Ok(SpliceAfterMarker(codes, i, m))
  }

  /** The cast throws only on a `call` after the seed whose operand is not a
      method. */
  lemma NullCheckCastFailure(codes: seq<Instr>, i: nat)
    requires i < |codes| && OpposingCardNullCheck(codes, i) == Fail(InvalidCast)
    ensures exists k :: i + 1 < k < |codes| && IsAnyCall(codes[k]) && !CastsToMethod(codes[k].arg)
  {
    var m := FindMarker(codes, i + 1).value;
    var e := InnerScanEnd(codes, m);
    var t := FindFirst(codes, m + 1, e, IsAnyCall).value;
    assert IsAnyCall(codes[t]) && !CastsToMethod(codes[t].arg);
  }

  /** A stream whose `call` instructions after the seed all name methods
      never reaches the cast failure: the null check throws only on reading
      past the end. */
  lemma NullCheckCastsMethods(codes: seq<Instr>, i: nat)
    requires i < |codes|
    requires forall k :: i < k < |codes| && IsAnyCall(codes[k]) ==> CastsToMethod(codes[k].arg)
    ensures OpposingCardNullCheck(codes, i).Fail? <==> IsSeedCall(codes[i]) && i + 1 == |codes|
  {
    if OpposingCardNullCheck(codes, i) == Fail(InvalidCast) {
      NullCheckCastFailure(codes, i);
    }
  }

  /** The first `call` met after the marker, before any `stfld`, calls a
      constructor (or has any other non-method operand): the cast throws. */
  lemma NullCheckThrowsOnNonMethodCall(codes: seq<Instr>, i: nat, m: nat, c: nat)
    requires IsSeed(codes, i)
    requires i + 1 <= m < c < |codes|
    requires IsMarker(codes, m) && forall j :: i + 1 <= j < m ==> !IsMarker(codes, j)
    requires IsAnyCall(codes[c]) && !CastsToMethod(codes[c].arg)
    requires forall u :: m < u < c ==> !IsAnyCall(codes[u]) && !IsFieldStore(codes[u])
    ensures OpposingCardNullCheck(codes, i) == Fail(InvalidCast)
  {
    assert FindMarker(codes, i + 1) == Some(m) by {
      FindMarkerIs(codes, i + 1, m);
    }
    NullCheckAtMarker(codes, i, m);
    var e := InnerScanEnd(codes, m);
    assert c < e;
    assert FindFirst(codes, m + 1, e, IsAnyCall) == Some(c) by {
      FindFirstIs(codes, m + 1, e, IsAnyCall, c);
    }
  }

  lemma FindMarkerIs(codes: seq<Instr>, from: nat, m: nat)
    requires 1 <= from <= m && IsMarker(codes, m)
    requires forall j :: from <= j < m ==> !IsMarker(codes, j)
    ensures FindMarker(codes, from) == Some(m)
    decreases m - from
  {
    if from < m {
      FindMarkerIs(codes, from + 1, m);
    }
  }

  /** The guard goes right after the first `stfld` that follows the first
      `ldc.i4.m1; stfld` marker after the seed; the original instructions are
      all kept, in order, around it, unless the first `call` between the
      marker and the store has an operand the `(MethodInfo)` cast rejects. */
  lemma NullCheckSplicesAfterFirstStore(codes: seq<Instr>, i: nat, m: nat, k: nat)
    requires IsSeed(codes, i)
    requires i + 1 <= m < k < |codes|
    requires IsMarker(codes, m) && forall j :: i + 1 <= j < m ==> !IsMarker(codes, j)
    requires codes[k].op == Stfld && forall j :: m < j < k ==> codes[j].op != Stfld
    ensures CastsToMethod(Capture(codes, m + 1, k + 1, IsAnyCall)) ==>
      OpposingCardNullCheck(codes, i) == Ok(Patched(true, codes[..k + 1] + GuardFor(codes, i, m, k) + codes[k + 1..]))
    ensures !CastsToMethod(Capture(codes, m + 1, k + 1, IsAnyCall)) ==>
      OpposingCardNullCheck(codes, i) == Fail(InvalidCast)
  {
    assert InnerScanEnd(codes, m) == k + 1;
    assert FindMarker(codes, i + 1) == Some(m) by {
      FindMarkerIs(codes, i + 1, m);
    }
    NullCheckAtMarker(codes, i, m);
    var cap := Capture(codes, m + 1, k + 1, IsAnyCall);
    assert Capture(codes, m + 1, InnerScanEnd(codes, m), IsAnyCall) == cap;
    if CastsToMethod(cap) {
      SpliceAfterMarkerAt(codes, i, m, k);
    } else {
      assert OpposingCardNullCheck(codes, i) == Fail(InvalidCast);
    }
  }

  /** Once the seed's first marker is found, the cast decides between the
      throw and the splice. */
  lemma NullCheckAtMarker(codes: seq<Instr>, i: nat, m: nat)
    requires IsSeed(codes, i) && i + 1 <= m < |codes| && FindMarker(codes, i + 1) == Some(m)
    ensures OpposingCardNullCheck(codes, i) ==
      if CastsToMethod(Capture(codes, m + 1, InnerScanEnd(codes, m), IsAnyCall)) then Ok(SpliceAfterMarker(codes, i, m))
      else Fail(InvalidCast)
  {
    assert IsSeedCall(codes[i]) && i + 1 < |codes| && codes[i + 1].op == LdcI4_7;
  }

  lemma SpliceAfterMarkerAt(codes: seq<Instr>, i: nat, m: nat, k: nat)
    requires m < k < |codes| && codes[k].op == Stfld
    requires forall j :: m < j < k ==> codes[j].op != Stfld
    ensures SpliceAfterMarker(codes, i, m) == Patched(true, InsertAt(codes, k + 1, GuardFor(codes, i, m, k)))
  {
    assert FindFirst(codes, m + 1, |codes|, IsFieldStore) == Some(k) by {
      FindFirstIs(codes, m + 1, |codes|, IsFieldStore, k);
    }
  }

  /** Without a marker after the seed, or without a `stfld` after the marker,
      nothing is inserted. In the second case the scan runs to the end of the
      stream, so a non-method `call` operand after the marker still throws. */
  lemma NullCheckMisses(codes: seq<Instr>, i: nat)
    requires IsSeed(codes, i)
    requires (forall j :: i + 1 <= j < |codes| ==> !IsMarker(codes, j))
          || (exists m :: i + 1 <= m < |codes| && IsMarker(codes, m)
                && (forall j :: i + 1 <= j < m ==> !IsMarker(codes, j))
                && (forall j :: m < j < |codes| ==> codes[j].op != Stfld))
    ensures OpposingCardNullCheck(codes, i) == Ok(Patched(false, codes))
         || OpposingCardNullCheck(codes, i) == Fail(InvalidCast)
    ensures (forall j :: i + 1 <= j < |codes| ==> !IsMarker(codes, j)) ==>
      OpposingCardNullCheck(codes, i) == Ok(Patched(false, codes))
    ensures (forall k :: i < k < |codes| && IsAnyCall(codes[k]) ==> CastsToMethod(codes[k].arg)) ==>
      OpposingCardNullCheck(codes, i) == Ok(Patched(false, codes))
  {
    if exists m :: i + 1 <= m < |codes| && IsMarker(codes, m)
         && (forall j :: i + 1 <= j < m ==> !IsMarker(codes, j))
         && (forall j :: m < j < |codes| ==> codes[j].op != Stfld) {
      var m :| i + 1 <= m < |codes| && IsMarker(codes, m)
         && (forall j :: i + 1 <= j < m ==> !IsMarker(codes, j))
         && (forall j :: m < j < |codes| ==> codes[j].op != Stfld);
      FindMarkerIs(codes, i + 1, m);
    }
  }

  /** Between the marker at `m` and the first `stfld` after it lies a
      `brfalse`, whose label the guard's branch can copy. */
  predicate BranchBeforeStore(codes: seq<Instr>, m: nat) {
    exists j :: m < j < |codes| && IsBranchIfFalse(codes[j]) && forall u :: m < u < j ==> !IsFieldStore(codes[u])
  }

  /** A capture from a stream whose branches resolve is a label only when
      the stream defines it. */
  lemma CaptureResolves(s: seq<Instr>, lo: nat, hi: nat, p: Instr -> bool)
    requires hi <= |s| && LabelsResolve(s)
    ensures var o := Capture(s, lo, hi, p); o.Label? ==> DefinesLabel(s, o.id)
  {
    CaptureIsCopied(s, lo, hi, p);
    var o := Capture(s, lo, hi, p);
    if o != NoOperand {
      var t :| lo <= t < hi && p(s[t]) && o == s[t].arg;
      assert Resolves(s[t], s);
    }
  }

  /** In a stream whose branches resolve, the captured `brfalse` operand is a
      label exactly when a `brfalse` lies in the range, and `null` otherwise. */
  lemma BranchCaptureIsLabel(s: seq<Instr>, lo: nat, hi: nat)
    requires hi <= |s| && LabelsResolve(s)
    ensures var o := Capture(s, lo, hi, IsBranchIfFalse);
      && (o.Label? <==> exists j :: lo <= j < hi && IsBranchIfFalse(s[j]))
      && ((forall j :: lo <= j < hi ==> !IsBranchIfFalse(s[j])) ==> o == NoOperand)
  {
    match FindFirst(s, lo, hi, IsBranchIfFalse)
    case None =>
    case Some(b) =>
      assert Resolves(s[b], s);
  }

  /** The guard is label-free; given operands that resolve in `s`, its
      branches resolve exactly when the break label is a label. */
  lemma NullGuardFits(slot: Operand, getCard: Operand, inequality: Operand, breakLabel: Operand, s: seq<Instr>)
    requires slot.Label? ==> DefinesLabel(s, slot.id)
    requires getCard.Label? ==> DefinesLabel(s, getCard.id)
    requires inequality.Label? ==> DefinesLabel(s, inequality.id)
    requires breakLabel.Label? ==> DefinesLabel(s, breakLabel.id)
    ensures LabelFree(NullGuard(slot, getCard, inequality, breakLabel))
    ensures FitsInto(NullGuard(slot, getCard, inequality, breakLabel), s) <==> breakLabel.Label?
  {
    var g := NullGuard(slot, getCard, inequality, breakLabel);
    assert !breakLabel.Label? ==> !Resolves(g[5], s);
  }

  /** The guard's operands are copied from the stream (or are `null`): it
      carries no labels, and in a stream whose branches resolve, its own
      resolve exactly when a `brfalse` lies between the marker and the store.
      Without one, `op_BreakLabel` stays `null` and the guard ends in a
      `brfalse` with no target. */
  lemma GuardFits(codes: seq<Instr>, i: nat, m: nat, k: nat)
    requires m < k < |codes| && LabelsResolve(codes)
    ensures LabelFree(GuardFor(codes, i, m, k))
    ensures FitsInto(GuardFor(codes, i, m, k), codes) <==> exists j :: m < j <= k && IsBranchIfFalse(codes[j])
    ensures (forall j :: m < j <= k ==> !IsBranchIfFalse(codes[j])) ==>
      GuardFor(codes, i, m, k)[5] == Emit(Brfalse, NoOperand)
  {
    CaptureResolves(codes, i + 1, m + 1, IsOpposingSlotLoad);
    CaptureResolves(codes, i + 1, m + 1, IsGetCardCall);
    CaptureResolves(codes, m + 1, k + 1, IsAnyCall);
    CaptureResolves(codes, m + 1, k + 1, IsBranchIfFalse);
    BranchCaptureIsLabel(codes, m + 1, k + 1);
    NullGuardFits(
      Capture(codes, i + 1, m + 1, IsOpposingSlotLoad),
      Capture(codes, i + 1, m + 1, IsGetCardCall),
      Capture(codes, m + 1, k + 1, IsAnyCall),
      Capture(codes, m + 1, k + 1, IsBranchIfFalse),
      codes);
  }

  /** Splicing the guard after the marker defines no new label and moves
      none; the result's branches all resolve exactly when nothing was
      spliced or a `brfalse` precedes the store. */
  lemma SpliceAfterMarkerKeepsLabels(codes: seq<Instr>, i: nat, m: nat)
    requires m < |codes| && LabelsResolve(codes)
    ensures var r := SpliceAfterMarker(codes, i, m);
      LabelsResolve(r.codes) <==> !r.hit || BranchBeforeStore(codes, m)
    ensures forall l :: DefinesLabel(SpliceAfterMarker(codes, i, m).codes, l) <==> DefinesLabel(codes, l)
  {
    var found := FindFirst(codes, m + 1, |codes|, IsFieldStore);
    if found.Some? {
      var k := found.value;
      var g := GuardFor(codes, i, m, k);
      GuardFits(codes, i, m, k);
      assert SpliceAfterMarker(codes, i, m).codes == codes[..k + 1] + g + codes[k + 1..];
      SpliceKeepsLabels(codes, k + 1, g);
      BranchBeforeFirstStore(codes, m, k);
    }
  }

  /** With `k` the first store after the marker, a `brfalse` precedes the
      store exactly when one lies in `codes[m + 1..k + 1]`. */
  lemma BranchBeforeFirstStore(codes: seq<Instr>, m: nat, k: nat)
    requires m < k < |codes| && IsFieldStore(codes[k])
    requires forall u :: m < u < k ==> !IsFieldStore(codes[u])
    ensures BranchBeforeStore(codes, m) <==> exists j :: m < j <= k && IsBranchIfFalse(codes[j])
  {
    if BranchBeforeStore(codes, m) {
      var j :| m < j < |codes| && IsBranchIfFalse(codes[j]) && forall u :: m < u < j ==> !IsFieldStore(codes[u]);
      assert j <= k;
    }
    if exists j :: m < j <= k && IsBranchIfFalse(codes[j]) {
      var j :| m < j <= k && IsBranchIfFalse(codes[j]);
      assert forall u :: m < u < j ==> !IsFieldStore(codes[u]);
    }
  }

  /** The whole rewrite defines exactly the labels of its input. A stream
      whose branches resolve keeps them resolving on a miss; on a hit it does
      exactly when a `brfalse` lies between the seed's first marker and the
      store after it. */
  lemma NullCheckKeepsBranchesResolved(codes: seq<Instr>, i: nat)
    requires i < |codes| && LabelsResolve(codes)
    requires OpposingCardNullCheck(codes, i).Ok?
    ensures var r := OpposingCardNullCheck(codes, i).value;
      !r.hit ==> LabelsResolve(r.codes)
    ensures var r := OpposingCardNullCheck(codes, i).value;
      r.hit ==> (LabelsResolve(r.codes) <==>
        exists m :: i + 1 <= m < |codes| && IsMarker(codes, m)
          && (forall j :: i + 1 <= j < m ==> !IsMarker(codes, j)) && BranchBeforeStore(codes, m))
    ensures forall l :: DefinesLabel(OpposingCardNullCheck(codes, i).value.codes, l) <==> DefinesLabel(codes, l)
  {
    var r := OpposingCardNullCheck(codes, i).value;
    if r.hit {
      var m := FindMarker(codes, i + 1).value;
      assert r == SpliceAfterMarker(codes, i, m);
      SpliceAfterMarkerKeepsLabels(codes, i, m);
      forall m' | i + 1 <= m' < |codes| && IsMarker(codes, m') && (forall j :: i + 1 <= j < m' ==> !IsMarker(codes, j))
        ensures m' == m
      {
        FindMarkerIs(codes, i + 1, m');
      }
    }
  }

  /** With well-typed captures (`get_Card` pops the slot and pushes the card,
      `op_Inequality` pops two objects and pushes a bool), the guard leaves
      the evaluation stack as it found it. */
  lemma NullGuardStackNeutral(opposingSlot: Operand, getCard: Operand, inequality: Operand, breakLabel: Operand)
    requires getCard.Method? && getCard.pops == 1 && getCard.pushes == 1
    requires inequality.Method? && inequality.pops == 2 && inequality.pushes == 1
    ensures StackNeutral(NullGuard(opposingSlot, getCard, inequality, breakLabel))
  {
    var g := NullGuard(opposingSlot, getCard, inequality, breakLabel);
    assert NetDelta(g[5..]) == Some(-1);
    assert NetDelta(g[4..]) == Some(-2);
    assert NetDelta(g[3..]) == Some(-1);
    assert NetDelta(g[2..]) == Some(-1);
    assert NetDelta(g[1..]) == Some(-1);
  }

  // ---------------------------------------------------------------------------
  // ModifyDirectDamageCheck

  /** The three fields the damage store reads: the compiler's display class,
      its attacking slot, and the enumerator's opposing slot. */
  datatype StoreFields = StoreFields(displayClass: Operand, attackingSlot: Operand, opposingSlot: Operand)

  /** `this.<>8__1.attackingSlot`. */
  function AttackingSlotLoad(f: StoreFields): seq<Instr> {
    [Emit(Ldarg0, NoOperand), Emit(Ldfld, f.displayClass), Emit(Ldfld, f.attackingSlot)]
  }

  /** `this.opposingSlot`. */
  function OpposingSlotLoad(f: StoreFields): seq<Instr> {
    [Emit(Ldarg0, NoOperand), Emit(Ldfld, f.opposingSlot)]
  }

  /** `.Card, "modifiedAttack"` after the attacking slot. */
  function CardAndKey(): seq<Instr> {
    [Emit(Callvirt, GetCardMethod), Emit(Ldstr, Str(ModifiedAttackKey))]
  }

  /** `CustomFields.Set(card, key, (object)DamageToDealThisPhase(attacking, opposing))`
      once its arguments are on the stack. */
  function ComputeAndSet(): seq<Instr> {
    [Emit(Callvirt, NewDamageMethod), Emit(Box, BoxedInt), Emit(Call, SetCustomFieldMethod)]
  }

  /** `CustomFields.Set(this.<>8__1.attackingSlot.Card, "modifiedAttack",
      DamageToDealThisPhase(this.<>8__1.attackingSlot, this.opposingSlot))`. */
  function StoreModifiedAttack(f: StoreFields): (block: seq<Instr>)
    ensures |block| == 13
  {
    AttackingSlotLoad(f) + CardAndKey() + AttackingSlotLoad(f) + OpposingSlotLoad(f) + ComputeAndSet()
  }

  /** `CustomFields.Get<int>(card, "modifiedAttack")`, which stands in for
      `card.Attack`: the card is already on the stack. */
  function ModifiedAttackRead(): seq<Instr> {
    [Emit(Ldstr, Str(ModifiedAttackKey)), Emit(Callvirt, GetCustomFieldMethod)]
  }

  function Min(a: nat, b: nat): nat {
    if a <= b then a else b
  }

  /** Reference definition: walk `s` and expand each of the first `n`
      `get_Attack` calls into the custom-field read. */
  function ExpandAttackReads(s: seq<Instr>, n: nat): seq<Instr> {
    if |s| == 0 then []
    else if n > 0 && IsGetAttackCall(s[0]) then ModifiedAttackRead() + ExpandAttackReads(s[1..], n - 1)
    else [s[0]] + ExpandAttackReads(s[1..], n)
  }

  /** Each expansion adds one instruction, and at most `n` happen. */
  lemma {:induction false} ExpandLength(s: seq<Instr>, n: nat)
    ensures |ExpandAttackReads(s, n)| == |s| + Min(n, CountWhere(s, IsGetAttackCall))
    decreases |s|
  {
    if |s| > 0 {
      if n > 0 && IsGetAttackCall(s[0]) {
        ExpandLength(s[1..], n - 1);
      } else {
        ExpandLength(s[1..], n);
      }
    }
  }

  lemma {:induction false} ExpandSkipsPrefix(a: seq<Instr>, b: seq<Instr>, n: nat)
    requires forall k :: 0 <= k < |a| ==> !IsGetAttackCall(a[k])
    ensures ExpandAttackReads(a + b, n) == a + ExpandAttackReads(b, n)
    decreases |a|
  {
    if |a| == 0 {
      assert a + b == b;
    } else {
      assert (a + b)[1..] == a[1..] + b;
      ExpandSkipsPrefix(a[1..], b, n);
    }
  }

  lemma {:induction false} ExpandNothing(s: seq<Instr>, n: nat)
    requires n == 0 || forall k :: 0 <= k < |s| ==> !IsGetAttackCall(s[k])
    ensures ExpandAttackReads(s, n) == s
    decreases |s|
  {
    if |s| > 0 {
      ExpandNothing(s[1..], n);
    }
  }

  /** One pass of the replacement loop: rewriting the first `get_Attack` call
      at or after `from` (at `t`) and continuing after the inserted pair
      agrees with the reference expansion. */
  lemma ReplaceOnePass(codes: seq<Instr>, from: nat, t: nat, rounds: nat)
    requires from <= t < |codes| && IsGetAttackCall(codes[t]) && rounds > 0
    requires forall k :: from <= k < t ==> !IsGetAttackCall(codes[k])
    ensures var next := codes[..t] + ModifiedAttackRead() + codes[t + 1..];
      t + 2 <= |next| && next[t + 2..] == codes[t + 1..]
      && next[..t + 2] + ExpandAttackReads(codes[t + 1..], rounds - 1)
         == codes[..from] + ExpandAttackReads(codes[from..], rounds)
  {
    var next := codes[..t] + ModifiedAttackRead() + codes[t + 1..];
    assert next[t + 2..] == codes[t + 1..];
    var tail := [codes[t]] + codes[t + 1..];
    assert codes[from..] == codes[from..t] + tail;
    ExpandSkipsPrefix(codes[from..t], tail, rounds);
    assert tail[1..] == codes[t + 1..];
    var e := ExpandAttackReads(codes[t + 1..], rounds - 1);
    assert ExpandAttackReads(tail, rounds) == ModifiedAttackRead() + e;
    assert next[..t + 2] == codes[..from] + codes[from..t] + ModifiedAttackRead();
    assert codes[..from] + ExpandAttackReads(codes[from..], rounds)
        == codes[..from] + (codes[from..t] + (ModifiedAttackRead() + e));
  }

  /** The two passes of the `for (int c = 0; c < 2; c++)` loop, generalised to
      `rounds` passes: each pass scans forward from where the last one stopped
      and rewrites the `get_Attack` call it finds. Also returns the caller's
      index, left just after the last rewrite. */
  function ReplaceAttackReads(codes: seq<Instr>, from: nat, rounds: nat): (r: (seq<Instr>, nat))
    requires from <= |codes|
    ensures r.0 == codes[..from] + ExpandAttackReads(codes[from..], rounds)
    ensures from <= r.1 <= |r.0|
    decreases rounds
  {
    if rounds == 0 then
      ExpandNothing(codes[from..], 0);
      assert codes == codes[..from] + codes[from..];
      (codes, from)
    else match FindFirst(codes, from, |codes|, IsGetAttackCall)
      case None =>
        ExpandNothing(codes[from..], rounds);
        assert codes == codes[..from] + codes[from..];
        (codes, from)
      case Some(t) =>
        ReplaceOnePass(codes, from, t, rounds);
        ReplaceAttackReads(codes[..t] + ModifiedAttackRead() + codes[t + 1..], t + 2, rounds - 1)
  }

  /** The replacement adds one instruction per rewritten read. */
  lemma ReplaceAttackReadsLength(codes: seq<Instr>, from: nat, rounds: nat)
    requires from <= |codes|
    ensures |ReplaceAttackReads(codes, from, rounds).0| == |codes| + Min(rounds, CountWhere(codes[from..], IsGetAttackCall))
  {
    ExpandLength(codes[from..], rounds);
  }

  /** Inserts the damage store at `start` and rewrites the next two attack
      reads after it; inserting beyond the end of the list throws. */
  function StoreAndReplace(codes: seq<Instr>, start: nat, f: StoreFields): (r: Result<Step>)
    ensures r.Ok? <==> start <= |codes|
    ensures r.Ok? ==> r.value.hit && start + 13 <= r.value.index <= |r.value.codes|
  {
    if start > |codes| then Fail(OutOfRange)
    else
      var (rewritten, next) := ReplaceAttackReads(InsertAt(codes, start, StoreModifiedAttack(f)), start + 13, 2);
      Ok(Step(true, rewritten, next))
  }

  /** The store sits at `start`, everything before it is untouched, and what
      follows it is the original tail with its first two attack reads
      rewritten. */
  lemma StoreAndReplaceShape(codes: seq<Instr>, start: nat, f: StoreFields)
    requires start <= |codes|
    ensures var out := StoreAndReplace(codes, start, f).value.codes;
      && start + 13 <= |out|
      && out[..start] == codes[..start]
      && out[start..start + 13] == StoreModifiedAttack(f)
      && out[start + 13..] == ExpandAttackReads(codes[start..], 2)
  {
    var spliced := InsertAt(codes, start, StoreModifiedAttack(f));
    assert spliced[start + 13..] == codes[start..];
    var out := ReplaceAttackReads(spliced, start + 13, 2).0;
    assert out == spliced[..start + 13] + ExpandAttackReads(codes[start..], 2);
    assert out[..start + 13] == spliced[..start + 13];
    assert out[..start] == spliced[..start + 13][..start];
    assert out[start..start + 13] == spliced[..start + 13][start..];
  }

  /** The two scans around the anchor at `index`: the nearest `opposingSlot`
      reference before it (never looking at index 0), and the first
      display-class reference from `index + 2` on together with the operand of
      the instruction after it. Reading past the end throws. */
  function FindStoreFields(codes: seq<Instr>, index: nat): (r: Result<StoreFields>)
    requires index < |codes|
    ensures r.Fail? ==> RefersToCombatPhase(codes[|codes| - 1])
    ensures r.Ok? ==> r.value.opposingSlot == CaptureLast(codes, 1, index, RefersToOpposingSlot)
  {
    var opposingSlot := CaptureLast(codes, 1, index, RefersToOpposingSlot);
    match FindFirst(codes, index + 2, |codes|, RefersToCombatPhase)
    case Some(d) =>
      if d + 1 == |codes| then Fail(OutOfRange)
      else Ok(StoreFields(codes[d].arg, codes[d + 1].arg, opposingSlot))
    case None => Ok(StoreFields(NoOperand, NoOperand, opposingSlot))
  }

  /** The display class and attacking slot come from the first display-class
      reference after the anchor, and are `null` when there is none. */
  lemma StoreFieldsFromFirstReference(codes: seq<Instr>, index: nat)
    requires index < |codes|
    ensures forall d ::
              (index + 2 <= d < |codes| - 1 && RefersToCombatPhase(codes[d])
               && (forall u :: index + 2 <= u < d ==> !RefersToCombatPhase(codes[u]))) ==>
              FindStoreFields(codes, index) == Ok(StoreFields(codes[d].arg, codes[d + 1].arg, CaptureLast(codes, 1, index, RefersToOpposingSlot)))
    ensures (forall d :: index + 2 <= d < |codes| ==> !RefersToCombatPhase(codes[d])) ==>
              FindStoreFields(codes, index) == Ok(StoreFields(NoOperand, NoOperand, CaptureLast(codes, 1, index, RefersToOpposingSlot)))
  {
    forall d | index + 2 <= d < |codes| - 1 && RefersToCombatPhase(codes[d])
        && (forall u :: index + 2 <= u < d ==> !RefersToCombatPhase(codes[u]))
      ensures FindStoreFields(codes, index) == Ok(StoreFields(codes[d].arg, codes[d + 1].arg, CaptureLast(codes, 1, index, RefersToOpposingSlot)))
    {
      FindFirstIs(codes, index + 2, |codes|, RefersToCombatPhase, d);
    }
  }

  /** Tries the damage-store splice with `codes[index]` as anchor. The store
      goes two instructions after the anchor (after the branch on its
      result). */
  function ModifyDirectDamageCheck(codes: seq<Instr>, index: nat): (r: Result<Step>)
    requires index < |codes|
    ensures !IsCanAttackDirectlyCall(codes[index]) ==> r == Ok(Step(false, codes, index))
    ensures IsCanAttackDirectlyCall(codes[index]) && index + 1 == |codes| ==> r.Fail?
    ensures r.Fail? ==> index + 1 == |codes| || RefersToCombatPhase(codes[|codes| - 1])
    ensures r.Ok? && r.value.hit ==> IsCanAttackDirectlyCall(codes[index]) && index + 2 <= |codes|
  {
    if !IsCanAttackDirectlyCall(codes[index]) then Ok(Step(false, codes, index))
    else
      var f :- FindStoreFields(codes, index);
      StoreAndReplace(codes, index + 2, f)
  }

  /** When the anchor is found and nothing throws, the output is the input
      with the damage store two instructions after the anchor and the first
      two `get_Attack` calls after that rewritten: the method grows by 13
      instructions plus one per rewritten read. */
  lemma ModifyDirectDamageCheckShape(codes: seq<Instr>, index: nat)
    requires index < |codes| && ModifyDirectDamageCheck(codes, index).Ok?
    requires ModifyDirectDamageCheck(codes, index).value.hit
    ensures FindStoreFields(codes, index).Ok?
    ensures var out := ModifyDirectDamageCheck(codes, index).value.codes;
      && index + 2 <= |codes| && index + 15 <= |out|
      && out[..index + 2] == codes[..index + 2]
      && out[index + 2..index + 15] == StoreModifiedAttack(FindStoreFields(codes, index).value)
      && out[index + 15..] == ExpandAttackReads(codes[index + 2..], 2)
      && |out| == |codes| + 13 + Min(2, CountWhere(codes[index + 2..], IsGetAttackCall))
  {
    var f := FindStoreFields(codes, index).value;
    assert ModifyDirectDamageCheck(codes, index) == StoreAndReplace(codes, index + 2, f);
    StoreAndReplaceShape(codes, index + 2, f);
    ExpandLength(codes[index + 2..], 2);
  }

  lemma AttackingSlotLoadDelta(f: StoreFields)
    ensures NetDelta(AttackingSlotLoad(f)) == Some(1)
  {
    var s := AttackingSlotLoad(f);
    assert NetDelta(s[2..]) == Some(0);
    assert NetDelta(s[1..]) == Some(0);
  }

  lemma ComputeAndSetDelta()
    ensures NetDelta(ComputeAndSet()) == Some(-4)
  {
    var s := ComputeAndSet();
    assert NetDelta(s[2..]) == Some(-3);
    assert NetDelta(s[1..]) == Some(-3);
  }

  /** The stored block is stack-neutral whatever the captured fields are: it
      pushes the card, the key, the two slots, and the call to `Set` consumes
      them all. */
  lemma StoreModifiedAttackStackNeutral(f: StoreFields)
    ensures StackNeutral(StoreModifiedAttack(f))
  {
    var slot := AttackingSlotLoad(f);
    var key := CardAndKey();
    var opp := OpposingSlotLoad(f);
    AttackingSlotLoadDelta(f);
    assert NetDelta(key[1..]) == Some(1);
    assert NetDelta(opp[1..]) == Some(0);
    ComputeAndSetDelta();
    NetDeltaAppend(slot, key);
    NetDeltaAppend(slot + key, slot);
    NetDeltaAppend(slot + key + slot, opp);
    NetDeltaAppend(slot + key + slot + opp, ComputeAndSet());
  }

  /** The custom-field read has the same stack effect as the `get_Attack`
      call it replaces, so code around it is unaffected. */
  lemma AttackReadSameEffect(pre: seq<Instr>, attackCall: Instr, post: seq<Instr>)
    requires attackCall.op == Callvirt && attackCall.arg == Method(GetAttack, 1, 1)
    requires NetDelta(pre).Some? && NetDelta(post).Some?
    ensures NetDelta(pre + [attackCall] + post) == NetDelta(pre + ModifiedAttackRead() + post)
  {
    SameEffectReplacement(pre, attackCall, ModifiedAttackRead(), post);
  }

  // ---------------------------------------------------------------------------
  // CallTriggerOnDirectDamage

  /** `TriggerOnDirectDamageTriggers(<card already on the stack>, this.opposingSlot)`. */
  function DispatchCall(opposingSlot: Operand): seq<Instr> {
    [Emit(Ldarg0, NoOperand), Emit(Ldfld, opposingSlot), Emit(Callvirt, NewTriggersMethod)]
  }

  /** Removes `codes[at..t - 2]`, where `codes[t]` is the first `ldc.i4.7` at
      or after `at`, and inserts the dispatch call in its place. A negative
      removal count (`t < at + 2`) throws. */
  function ReplaceTriggerCall(codes: seq<Instr>, at: nat, opposingSlot: Operand): (r: Result<Step>)
    requires at <= |codes|
    ensures r.Ok? ==> r.value.hit && at <= |r.value.codes| && r.value.codes[..at] == codes[..at]
    ensures (forall t :: at <= t < |codes| ==> !IsPushSeven(codes[t])) ==> r == Ok(Step(true, codes, at))
  {
    match FindFirst(codes, at, |codes|, IsPushSeven)
    case None => Ok(Step(true, codes, at))
    case Some(t) =>
      if t < at + 2 then Fail(OutOfRange)
      else
        var kept := codes[..at] + codes[t - 2..];
        assert kept[..at] == codes[..at];
        Ok(Step(true, InsertAt(kept, at, DispatchCall(opposingSlot)), at + 3))
  }

  /** With `codes[t]` the first `ldc.i4.7` at or after `at`: everything from
      `at` up to the two instructions before it is replaced by the dispatch
      call, and the call leaves the index after itself; fewer than two
      instructions between `at` and `t` make the removal count negative. */
  lemma ReplaceTriggerCallAt(codes: seq<Instr>, at: nat, opposingSlot: Operand, t: nat)
    requires at <= t < |codes| && IsPushSeven(codes[t])
    requires forall u :: at <= u < t ==> !IsPushSeven(codes[u])
    ensures t < at + 2 ==> ReplaceTriggerCall(codes, at, opposingSlot) == Fail(OutOfRange)
    ensures t >= at + 2 ==>
      ReplaceTriggerCall(codes, at, opposingSlot) == Ok(Step(true, codes[..at] + DispatchCall(opposingSlot) + codes[t - 2..], at + 3))
  {
    FindFirstIs(codes, at, |codes|, IsPushSeven, t);
  }

  /** The backward scan for `ldarg.0` from `start - 1` down to index 1: the
      nearest one found gets a copy inserted in front of it, shifting the
      caller's index by one. */
  function DuplicateThisLoad(codes: seq<Instr>, start: nat): (r: (seq<Instr>, nat))
    requires start <= |codes|
    ensures r.1 <= |r.0|
    ensures r.1 == start ==> r.0 == codes
    ensures r.1 == start + 1 ==> |r.0| == |codes| + 1
  {
    match FindLast(codes, 1, start, IsThisLoad)
    case Some(t) => (InsertAt(codes, t, [Emit(Ldarg0, NoOperand)]), start + 1)
    case None => (codes, start)
  }

  /** Tries the trigger substitution with `codes[index]` as anchor: a
      `get_Card` call. Scanning backwards (never down to index 0) it captures
      the nearest `opposingSlot` reference and duplicates the nearest
      `ldarg.0`; then it replaces the trigger call. */
  function CallTriggerOnDirectDamage(codes: seq<Instr>, index: nat): (r: Result<Step>)
    requires index < |codes|
    ensures !IsGetCardCall(codes[index]) ==> r == Ok(Step(false, codes, index))
    ensures IsGetCardCall(codes[index]) && r.Ok? ==> r.value.hit && index + 1 <= |r.value.codes|
  {
    if !IsGetCardCall(codes[index]) then Ok(Step(false, codes, index))
    else
      var dup := DuplicateThisLoad(codes, index + 1);
      ReplaceTriggerCall(dup.0, dup.1, CaptureLast(codes, 1, index + 1, RefersToOpposingSlot))
  }

  /** The nearest `ldarg.0` below `start` (but not at 0) gets a copy in front
      of it, and the index moves past the insertion. */
  lemma DuplicateThisLoadAt(codes: seq<Instr>, start: nat, t: nat)
    requires 1 <= t < start <= |codes| && IsThisLoad(codes[t])
    requires forall u :: t < u < start ==> !IsThisLoad(codes[u])
    ensures DuplicateThisLoad(codes, start).1 == start + 1
    ensures DuplicateThisLoad(codes, start).0[..start + 1] == codes[..t] + [Emit(Ldarg0, NoOperand)] + codes[t..start]
  {
    FindLastIs(codes, 1, start, IsThisLoad, t);
    var dup := InsertAt(codes, t, [Emit(Ldarg0, NoOperand)]);
    assert dup == codes[..t] + [Emit(Ldarg0, NoOperand)] + codes[t..];
    assert dup[..start + 1] == codes[..t] + [Emit(Ldarg0, NoOperand)] + codes[t..start];
  }

  /** When there is an `ldarg.0` at some `t` in `1..index`, the nearest one
      is duplicated: a fresh `ldarg.0` is inserted in front of it and
      everything up to the anchor is otherwise kept. */
  lemma CallTriggerDuplicatesNearestThisLoad(codes: seq<Instr>, index: nat, t: nat)
    requires index < |codes| && IsGetCardCall(codes[index])
    requires 1 <= t <= index && IsThisLoad(codes[t])
    requires forall u :: t < u <= index ==> !IsThisLoad(codes[u])
    ensures var r := CallTriggerOnDirectDamage(codes, index);
      r.Ok? ==> codes[..t] + [Emit(Ldarg0, NoOperand)] + codes[t..index + 1] <= r.value.codes
  {
    var dup := DuplicateThisLoad(codes, index + 1);
    var kept := codes[..t] + [Emit(Ldarg0, NoOperand)] + codes[t..index + 1];
    assert dup.1 == index + 2 && dup.0[..index + 2] == kept by {
      DuplicateThisLoadAt(codes, index + 1, t);
    }
    var r := ReplaceTriggerCall(dup.0, dup.1, CaptureLast(codes, 1, index + 1, RefersToOpposingSlot));
    assert CallTriggerOnDirectDamage(codes, index) == r;
  }

  /** Without an `ldarg.0` in `1..index` (index 0 is never inspected),
      nothing before the trigger call is touched. */
  lemma CallTriggerWithoutThisLoad(codes: seq<Instr>, index: nat)
    requires index < |codes| && IsGetCardCall(codes[index])
    requires forall u :: 1 <= u <= index ==> !IsThisLoad(codes[u])
    ensures var r := CallTriggerOnDirectDamage(codes, index);
      r.Ok? ==> codes[..index + 1] <= r.value.codes
  {
  }

  /** The dispatch call consumes the card left on the stack, like the
      trigger-handler call sequence it replaces: it loads the slot and pops
      both. */
  lemma DispatchCallStackNeutral(opposingSlot: Operand)
    ensures StackNeutral(DispatchCall(opposingSlot))
  {
    var d := DispatchCall(opposingSlot);
    assert NetDelta(d[2..]) == Some(-1);
    assert NetDelta(d[1..]) == Some(-1);
  }

  // ---------------------------------------------------------------------------
  // Transpiler

  /** The innermost loop: `at(j)` is the outcome of the null guard at
      position `j`; positions `c`, `c + 1`, ... are tried until one throws or
      splices. */
  function GuardLoop(codes: seq<Instr>, c: nat, at: nat -> Result<Patched>): Result<seq<Instr>>
    decreases |codes| - c
  {
    if c >= |codes| then Ok(codes)
    else
      var p :- at(c);
      if p.hit then Ok(p.codes) else GuardLoop(codes, c + 1, at)
  }

  /** The null guard at each position of `codes`. */
  function NullCheckAt(codes: seq<Instr>): nat -> Result<Patched> {
    (j: nat) => if j < |codes| then OpposingCardNullCheck(codes, j) else Ok(Patched(false, codes))
  }

  /** The loop passes over positions that report no hit. */
  lemma {:induction false} GuardLoopSkips(codes: seq<Instr>, c: nat, i: nat, at: nat -> Result<Patched>)
    requires c <= i <= |codes|
    requires forall j :: c <= j < i ==> at(j) == Ok(Patched(false, codes))
    ensures GuardLoop(codes, c, at) == GuardLoop(codes, i, at)
    decreases i - c
  {
    if c < i {
      GuardLoopSkips(codes, c + 1, i, at);
    }
  }

  /** A loop whose every step keeps the stream or grows it by a guard ends
      with the stream kept or grown by one guard; with no seed call left, it
      keeps the stream. */
  lemma {:induction false} NullCheckLoopShape(codes: seq<Instr>, c: nat)
    ensures var r := GuardLoop(codes, c, NullCheckAt(codes));
      && (r.Ok? ==> r.value == codes || |r.value| == |codes| + 6)
      && ((forall j :: c <= j < |codes| ==> !IsSeedCall(codes[j])) ==> r == Ok(codes))
    decreases |codes| - c
  {
    if c < |codes| {
      assert NullCheckAt(codes)(c) == OpposingCardNullCheck(codes, c);
      NullCheckLoopShape(codes, c + 1);
    }
  }

  /** The innermost loop over the stream's own positions, from `c` on. */
  function NullCheckFrom(codes: seq<Instr>, c: nat): (r: Result<seq<Instr>>)
    ensures r.Ok? ==> r.value == codes || |r.value| == |codes| + 6
    ensures (forall j :: c <= j < |codes| ==> !IsSeedCall(codes[j])) ==> r == Ok(codes)
  {
    NullCheckLoopShape(codes, c);
    GuardLoop(codes, c, NullCheckAt(codes))
  }

  /** The stages after the damage store: the first `get_Card` call from the
      store's index on anchors the trigger substitution, and the null guard
      is tried from the index that leaves. */
  function TriggerAndGuard(s1: Step): (r: Result<seq<Instr>>)
    ensures (forall b :: s1.index <= b < |s1.codes| ==> !IsGetCardCall(s1.codes[b])) ==> r == Ok(s1.codes)
  {
    match FindFirst(s1.codes, s1.index, |s1.codes|, IsGetCardCall)
    case None => Ok(s1.codes)
    case Some(b) =>
      var s2 :- CallTriggerOnDirectDamage(s1.codes, b);
      NullCheckFrom(s2.codes, s2.index)
  }

  /** `SlotAttackSlotPatches.Transpiler`: the first `CanAttackDirectly` call
      anchors the damage store; from there the first `get_Card` call anchors
      the trigger substitution; from there the first seed anchors the null
      guard. A stage whose anchor is missing ends the rewrite. */
  function Transpile(codes: seq<Instr>): (r: Result<seq<Instr>>)
    ensures (forall a :: 0 <= a < |codes| ==> !IsCanAttackDirectlyCall(codes[a])) ==> r == Ok(codes)
  {
    match FindFirst(codes, 0, |codes|, IsCanAttackDirectlyCall)
    case None => Ok(codes)
    case Some(a) =>
      var s1 :- ModifyDirectDamageCheck(codes, a);
      TriggerAndGuard(s1)
  }

  /** The damage store is anchored at the first `CanAttackDirectly` call; if
      no `get_Card` call follows it, its output is the transpiler's. */
  lemma TranspileStopsAfterStore(codes: seq<Instr>, a: nat)
    requires a < |codes| && IsCanAttackDirectlyCall(codes[a])
    requires forall u :: 0 <= u < a ==> !IsCanAttackDirectlyCall(codes[u])
    requires ModifyDirectDamageCheck(codes, a).Ok?
    requires var s1 := ModifyDirectDamageCheck(codes, a).value;
      forall b :: s1.index <= b < |s1.codes| ==> !IsGetCardCall(s1.codes[b])
    ensures Transpile(codes) == Ok(ModifyDirectDamageCheck(codes, a).value.codes)
  {
    FindFirstIs(codes, 0, |codes|, IsCanAttackDirectlyCall, a);
  }

  /** The guard loop stops at the first position whose splice succeeds: if
      every earlier position from `c` reports no hit, the result is that
      position's splice. */
  lemma NullCheckFromFirstHit(codes: seq<Instr>, c: nat, i: nat)
    requires c <= i < |codes|
    requires forall j :: c <= j < i ==> OpposingCardNullCheck(codes, j) == Ok(Patched(false, codes))
    requires OpposingCardNullCheck(codes, i).Ok? && OpposingCardNullCheck(codes, i).value.hit
    ensures NullCheckFrom(codes, c) == Ok(OpposingCardNullCheck(codes, i).value.codes)
  {
    var at := NullCheckAt(codes);
    forall j | c <= j < i
      ensures at(j) == Ok(Patched(false, codes))
    {
      assert at(j) == OpposingCardNullCheck(codes, j);
    }
    GuardLoopSkips(codes, c, i, at);
    assert at(i) == OpposingCardNullCheck(codes, i);
  }

  /** When all three anchors are found and no stage throws, the transpiler's
      output is the composition of the stages: the damage store at the first
      `CanAttackDirectly` call `a`, then the trigger substitution at the first
      `get_Card` call `b` after the store, then the null guard at the first
      seed `c` after the substitution whose splice succeeds. The stages'
      own shape lemmas then give the content: the store sits right after the
      anchor's branch and the guard adds six instructions. */
  lemma TranspileComposesStages(codes: seq<Instr>, a: nat, b: nat, c: nat)
    requires a < |codes| && IsCanAttackDirectlyCall(codes[a])
    requires forall u :: 0 <= u < a ==> !IsCanAttackDirectlyCall(codes[u])
    requires ModifyDirectDamageCheck(codes, a).Ok?
    requires var s1 := ModifyDirectDamageCheck(codes, a).value;
      && s1.index <= b < |s1.codes| && IsGetCardCall(s1.codes[b])
      && (forall u :: s1.index <= u < b ==> !IsGetCardCall(s1.codes[u]))
      && CallTriggerOnDirectDamage(s1.codes, b).Ok?
    requires var s2 := CallTriggerOnDirectDamage(ModifyDirectDamageCheck(codes, a).value.codes, b).value;
      && s2.index <= c < |s2.codes|
      && (forall j :: s2.index <= j < c ==> OpposingCardNullCheck(s2.codes, j) == Ok(Patched(false, s2.codes)))
      && OpposingCardNullCheck(s2.codes, c).Ok? && OpposingCardNullCheck(s2.codes, c).value.hit
    ensures var s1 := ModifyDirectDamageCheck(codes, a).value;
      && s1.codes[..a + 2] == codes[..a + 2]
      && s1.codes[a + 2..a + 15] == StoreModifiedAttack(FindStoreFields(codes, a).value)
    ensures var s2 := CallTriggerOnDirectDamage(ModifyDirectDamageCheck(codes, a).value.codes, b).value;
      var out := OpposingCardNullCheck(s2.codes, c).value.codes;
      && IsSeed(s2.codes, c)
      && Transpile(codes) == Ok(out)
      && |out| == |s2.codes| + 6
  {
    var s1 := ModifyDirectDamageCheck(codes, a).value;
    ModifyDirectDamageCheckShape(codes, a);
    FindFirstIs(codes, 0, |codes|, IsCanAttackDirectlyCall, a);
    FindFirstIs(s1.codes, s1.index, |s1.codes|, IsGetCardCall, b);
    var s2 := CallTriggerOnDirectDamage(s1.codes, b).value;
    NullCheckFromFirstHit(s2.codes, s2.index, c);
    assert TriggerAndGuard(s1) == NullCheckFrom(s2.codes, s2.index);
  }
}

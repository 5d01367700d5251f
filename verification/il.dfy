/** The instruction stream the transpilers rewrite: a list of CIL instructions,
    each an opcode, an operand and the branch labels attached to it (Harmony's
    `CodeInstruction`). Only the opcodes the rewrites look for or emit are
    named; every other opcode is `Other`. */
module Il {
  import opened Wrappers

  datatype Opcode =
    | Ldarg0 | Ldloc0 | Ldnull | LdcI4_M1 | LdcI4_7 | Ldstr
    | Ldfld | Stfld | Box | Pop
    | Call | Callvirt | Brfalse
    | Other(mnemonic: string)

  /** The host members the modelled transpilers look for or emit. Each one
      is identified by the text its `ToString()` prints (`Signature`); every
      other field or method is an `OtherMember` carrying that text. */
  datatype Member =
    | GlobalTriggerInstance          // GlobalTriggerHandler.Instance getter
    | GetCard                        // CardSlot.Card getter
    | GetAttack                      // PlayableCard.Attack getter
    | OpposingSlotField              // the enumerator's `opposingSlot`
    | CombatPhaseField               // the enumerator's display-class field `<>8__1`
    | CanAttackDirectly              // PlayableCard.CanAttackDirectly(CardSlot)
    | NewDamage                      // SlotAttackSlotPatches.DamageToDealThisPhase
    | NewTriggers                    // SlotAttackSlotPatches.TriggerOnDirectDamageTriggers
    | SetCustomField                 // CustomFields.Set
    | GetCustomFieldInt              // CustomFields.Get<int>
    | BossTypeField                  // BossBattleNodeData.bossType
    | ProcessBossType                // MapGenerator_CreateNode.ProcessBossType
    | PlayAnimation                  // PreventCallsOnScenary_Patches.PlayAnimation
    | OtherMember(signature: string)

  /** What `ToString()` prints for each member. */
  function Signature(m: Member): string {
    match m
    case GlobalTriggerInstance => "DiskCardGame.GlobalTriggerHandler get_Instance()"
    case GetCard => "DiskCardGame.PlayableCard get_Card()"
    case GetAttack => "Int32 get_Attack()"
    case OpposingSlotField => "DiskCardGame.CardSlot opposingSlot"
    case CombatPhaseField => "DiskCardGame.CombatPhaseManager+<>c__DisplayClass5_0 <>8__1"
    case CanAttackDirectly => "Boolean CanAttackDirectly(DiskCardGame.CardSlot)"
    case NewDamage => "Int32 DamageToDealThisPhase(DiskCardGame.CardSlot, DiskCardGame.CardSlot)"
    case NewTriggers => "System.Collections.IEnumerator TriggerOnDirectDamageTriggers(DiskCardGame.PlayableCard, DiskCardGame.CardSlot)"
    case SetCustomField => "Void Set(System.Object, System.String, System.Object)"
    case GetCustomFieldInt => "Int32 Get[Int32](System.Object, System.String)"
    case BossTypeField => "Type bossType"
    case ProcessBossType => "Void ProcessBossType(DiskCardGame.NodeData)"
    case PlayAnimation => "Boolean PlayAnimation(UnityEngine.Animation, System.String)"
    case OtherMember(text) => text
  }

  /** An operand: a host field, method or constructor, a string literal, a
      branch label, a type token, or nothing (`null`). A method carries how
      many stack slots a call to it pops (arguments, including `this`) and
      pushes (0 or 1 for the return value); a constructor called in place
      (`call instance void T::.ctor`, on a local struct) pops the address
      and its arguments and pushes nothing. A constructor is a
      `ConstructorInfo`, not a `MethodInfo`. */
  datatype Operand =
    | NoOperand
    | Field(fieldMember: Member)
    | Method(methodMember: Member, pops: nat, pushes: nat)
    | Constructor(ctorMember: Member, ctorPops: nat)
    | Str(text: string)
    | Label(id: nat)
    | TypeToken(typeName: string)

  datatype Instr = Instr(op: Opcode, arg: Operand, labels: set<nat>)

  /** `new CodeInstruction(op, operand)`: a fresh instruction carries no labels. */
  function Emit(op: Opcode, arg: Operand): (i: Instr)
    ensures i.labels == {}
  {
    Instr(op, arg, {})
  }

  /** `operand?.ToString() == Signature(m)` for a canonical operand: the
      operand is field or method `m`. */
  predicate Names(o: Operand, m: Member) {
    match o
    case Field(f) => f == m
    case Method(f, _, _) => f == m
    case _ => false
  }

  /** `codes[i].opcode == op && codes[i].operand.ToString() == Signature(m)`. */
  predicate IsOpOn(i: Instr, op: Opcode, m: Member) {
    i.op == op && Names(i.arg, m)
  }

  /** Net change of the evaluation-stack depth caused by one instruction, when
      it is determined by the opcode and operand. */
  function Delta(i: Instr): Option<int> {
    match i.op
    case Ldarg0 => Some(1)
    case Ldloc0 => Some(1)
    case Ldnull => Some(1)
    case LdcI4_M1 => Some(1)
    case LdcI4_7 => Some(1)
    case Ldstr => Some(1)
    case Ldfld => Some(0)
    case Box => Some(0)
    case Stfld => Some(-2)
    case Pop => Some(-1)
    case Brfalse => Some(-1)
    case Call => CallDelta(i.arg)
    case Callvirt => CallDelta(i.arg)
    case Other(_) => None
  }

  function CallDelta(o: Operand): Option<int> {
    match o
    case Method(_, pops, pushes) => Some(pushes as int - pops as int)
    case Constructor(_, pops) => Some(-(pops as int))
    case _ => None
  }

  /** Net stack effect of a block, defined when every instruction's is. */
  function NetDelta(block: seq<Instr>): Option<int> {
    if |block| == 0 then Some(0)
    else match (Delta(block[0]), NetDelta(block[1..]))
      case (Some(d), Some(rest)) => Some(d + rest)
      case _ => None
  }

  /** A block that leaves the evaluation stack as deep as it found it. */
  predicate StackNeutral(block: seq<Instr>) {
    NetDelta(block) == Some(0)
  }

  lemma {:induction false} NetDeltaAppend(a: seq<Instr>, b: seq<Instr>)
    requires NetDelta(a).Some? && NetDelta(b).Some?
    ensures NetDelta(a + b) == Some(NetDelta(a).value + NetDelta(b).value)
    decreases |a|
  {
    if |a| == 0 {
      assert a + b == b;
    } else {
      assert (a + b)[1..] == a[1..] + b;
      NetDeltaAppend(a[1..], b);
    }
  }

  /** Replacing one instruction by a block of the same net effect keeps the
      effect of any enclosing stretch of code. */
  lemma SameEffectReplacement(pre: seq<Instr>, replaced: Instr, block: seq<Instr>, post: seq<Instr>)
    requires NetDelta(pre).Some? && NetDelta(post).Some? && Delta(replaced).Some?
    requires NetDelta(block) == Delta(replaced)
    ensures NetDelta(pre + [replaced] + post) == NetDelta(pre + block + post)
  {
    assert NetDelta([replaced]) == Delta(replaced);
    NetDeltaAppend(pre, [replaced]);
    NetDeltaAppend(pre + [replaced], post);
    NetDeltaAppend(pre, block);
    NetDeltaAppend(pre + block, post);
  }

  /** Some instruction of `s` carries label `l`. */
  predicate DefinesLabel(s: seq<Instr>, l: nat) {
    exists t :: 0 <= t < |s| && l in s[t].labels
  }

  /** Instruction `i` branches correctly within `s`: a label operand refers
      to a label some instruction of `s` carries, and a `brfalse` has a label
      operand at all (a `brfalse` whose operand is `null` has nowhere to go). */
  predicate Resolves(i: Instr, s: seq<Instr>) {
    && (i.arg.Label? ==> DefinesLabel(s, i.arg.id))
    && (i.op == Brfalse ==> i.arg.Label?)
  }

  /** No branch of the stream dangles. */
  predicate LabelsResolve(s: seq<Instr>) {
    forall t :: 0 <= t < |s| ==> Resolves(s[t], s)
  }

  /** A block that carries no labels of its own. */
  predicate LabelFree(block: seq<Instr>) {
    forall t :: 0 <= t < |block| ==> block[t].labels == {}
  }

  /** A label-free block whose branches all resolve within `s`. */
  predicate FitsInto(block: seq<Instr>, s: seq<Instr>) {
    LabelFree(block) && forall t :: 0 <= t < |block| ==> Resolves(block[t], s)
  }

  /** Where each instruction of a splice comes from. */
  lemma SpliceIndex(s: seq<Instr>, at: nat, block: seq<Instr>, t: nat)
    requires at <= |s| && t < |s| + |block|
    ensures t < at ==> (s[..at] + block + s[at..])[t] == s[t]
    ensures at <= t < at + |block| ==> (s[..at] + block + s[at..])[t] == block[t - at]
    ensures at + |block| <= t ==> (s[..at] + block + s[at..])[t] == s[t - |block|]
  {
  }

  lemma SpliceDefinesSame(s: seq<Instr>, at: nat, block: seq<Instr>, l: nat)
    requires at <= |s| && LabelFree(block)
    ensures DefinesLabel(s[..at] + block + s[at..], l) <==> DefinesLabel(s, l)
  {
    var r := s[..at] + block + s[at..];
    if DefinesLabel(r, l) {
      var t :| 0 <= t < |r| && l in r[t].labels;
      SpliceIndex(s, at, block, t);
      if t >= at + |block| {
        assert l in s[t - |block|].labels;
      }
    }
    if DefinesLabel(s, l) {
      var t :| 0 <= t < |s| && l in s[t].labels;
      if t < at {
        SpliceIndex(s, at, block, t);
      } else {
        SpliceIndex(s, at, block, t + |block|);
        assert l in r[t + |block|].labels;
      }
    }
  }

  /** Splicing a label-free block into a stream defines exactly the labels it
      defined before, so the result's branches all resolve exactly when the
      stream's did and the block's resolve within the stream. */
  lemma SpliceKeepsLabels(s: seq<Instr>, at: nat, block: seq<Instr>)
    requires at <= |s| && LabelFree(block)
    ensures forall l :: DefinesLabel(s[..at] + block + s[at..], l) <==> DefinesLabel(s, l)
    ensures LabelsResolve(s[..at] + block + s[at..]) <==> LabelsResolve(s) && FitsInto(block, s)
  {
    var r := s[..at] + block + s[at..];
    forall l
      ensures DefinesLabel(r, l) <==> DefinesLabel(s, l)
    {
      SpliceDefinesSame(s, at, block, l);
    }
    forall i: Instr
      ensures Resolves(i, r) <==> Resolves(i, s)
    {
    }
    if LabelsResolve(r) {
      forall t | 0 <= t < |s|
        ensures Resolves(s[t], s)
      {
        if t < at {
          SpliceIndex(s, at, block, t);
        } else {
          SpliceIndex(s, at, block, t + |block|);
        }
      }
      forall t | 0 <= t < |block|
        ensures Resolves(block[t], s)
      {
        SpliceIndex(s, at, block, t + at);
      }
    }
    if LabelsResolve(s) && FitsInto(block, s) {
      forall t | 0 <= t < |r|
        ensures Resolves(r[t], r)
      {
        SpliceIndex(s, at, block, t);
      }
    }
  }
}

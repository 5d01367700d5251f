/** `SlotAttackSlotPatches.DamageToDealThisPhase`: the direct damage a card
    deals when nothing blocks it. The `IModifyDirectDamage` handlers found in
    the scene are sorted by descending priority and folded over the attack
    value; the result is then signed by which sides the two slots are on and
    whose turn it is. */
module DirectDamage {

  /** The three callbacks of an `IModifyDirectDamage` handler of type `H`. The
      opposing slot and the attacking card are the same for every call of one
      phase, so they are folded into the functions; what varies is the
      running damage and the card's original attack. */
  datatype Hooks<!H> = Hooks(
    priority: (H, int) -> int,          // TriggerPriority(opposingSlot, damage, card)
    respondsTo: (H, int, int) -> bool,  // RespondsToModifyDirectDamage(opposingSlot, damage, card, originalDamage)
    onModify: (H, int, int) -> int)     // OnModifyDirectDamage(opposingSlot, damage, card, originalDamage)

  /** The sides of the two slots and of the turn. An opponent slot is one that
      is not a player slot. */
  datatype Sides = Sides(attackerIsPlayer: bool, opposingIsPlayer: bool, isPlayerTurn: bool)

  /** Priorities never increase along `order`. */
  predicate NonIncreasing<H>(hooks: Hooks<H>, order: seq<H>, damage: int) {
    forall i, j :: 0 <= i < j < |order| ==> hooks.priority(order[i], damage) >= hooks.priority(order[j], damage)
  }

  /** `order` is one of the lists `List.Sort` may leave with the comparator
      `b.priority - a.priority`: a permutation of `handlers` by descending
      priority. The sort is not stable, so handlers of equal priority may come
      in any order. */
  predicate IsPriorityOrder<H(==)>(hooks: Hooks<H>, order: seq<H>, handlers: seq<H>, damage: int) {
    multiset(order) == multiset(handlers) && NonIncreasing(hooks, order, damage)
  }

  /** Places `h` before the first element of `sorted` whose priority is not
      higher than its own. */
  function InsertByPriority<H(==)>(hooks: Hooks<H>, h: H, sorted: seq<H>, damage: int): (r: seq<H>)
    ensures multiset(r) == multiset(sorted) + multiset{h}
  {
    if |sorted| == 0 || hooks.priority(sorted[0], damage) <= hooks.priority(h, damage) then [h] + sorted
    else
      assert sorted == [sorted[0]] + sorted[1..];
      [sorted[0]] + InsertByPriority(hooks, h, sorted[1..], damage)
  }

  /** Inserting into a list sorted by descending priority keeps it sorted. */
  lemma {:induction false} InsertByPriorityKeepsOrder<H>(hooks: Hooks<H>, h: H, sorted: seq<H>, damage: int)
    requires NonIncreasing(hooks, sorted, damage)
    ensures NonIncreasing(hooks, InsertByPriority(hooks, h, sorted, damage), damage)
    decreases |sorted|
  {
    if |sorted| > 0 && hooks.priority(sorted[0], damage) > hooks.priority(h, damage) {
      var tail := sorted[1..];
      var rest := InsertByPriority(hooks, h, tail, damage);
      InsertByPriorityKeepsOrder(hooks, h, tail, damage);
      var r := [sorted[0]] + rest;
      forall j | 0 <= j < |rest|
        ensures hooks.priority(sorted[0], damage) >= hooks.priority(rest[j], damage)
      {
        assert rest[j] in multiset(rest);
        if rest[j] != h {
          assert rest[j] in multiset(tail);
          var u :| 0 <= u < |tail| && tail[u] == rest[j];
          assert sorted[u + 1] == rest[j];
        }
      }
      forall i, j | 0 <= i < j < |r|
        ensures hooks.priority(r[i], damage) >= hooks.priority(r[j], damage)
      {
        assert r[j] == rest[j - 1];
        if i > 0 {
          assert r[i] == rest[i - 1];
        }
      }
    }
  }

  /** An insertion sort: one of the orders the sort may produce. */
  function SortByPriority<H(==)>(hooks: Hooks<H>, handlers: seq<H>, damage: int): (order: seq<H>)
    ensures IsPriorityOrder(hooks, order, handlers, damage)
  {
    if |handlers| == 0 then []
    else
      var rest := SortByPriority(hooks, handlers[1..], damage);
      InsertByPriorityKeepsOrder(hooks, handlers[0], rest, damage);
      assert handlers == [handlers[0]] + handlers[1..];
      InsertByPriority(hooks, handlers[0], rest, damage)
  }

  /** The `foreach` over the sorted handlers: a responding handler replaces
      the running damage by its result, any other handler leaves it. */
  function ApplyModifiers<H>(hooks: Hooks<H>, order: seq<H>, damage: int, original: int): int
    decreases |order|
  {
    if |order| == 0 then damage
    else
      var h := order[0];
      var next := if hooks.respondsTo(h, damage, original) then hooks.onModify(h, damage, original) else damage;
      ApplyModifiers(hooks, order[1..], next, original)
  }

  /** Folding over two lists in turn is folding over their concatenation. */
  lemma {:induction false} ApplyModifiersAppend<H>(hooks: Hooks<H>, a: seq<H>, b: seq<H>, damage: int, original: int)
    ensures ApplyModifiers(hooks, a + b, damage, original)
         == ApplyModifiers(hooks, b, ApplyModifiers(hooks, a, damage, original), original)
    decreases |a|
  {
    if |a| == 0 {
      assert a + b == b;
    } else {
      var h := a[0];
      var next := if hooks.respondsTo(h, damage, original) then hooks.onModify(h, damage, original) else damage;
      assert (a + b)[1..] == a[1..] + b;
      ApplyModifiersAppend(hooks, a[1..], b, next, original);
    }
  }

  /** When no handler responds, the damage is the card's attack. */
  lemma {:induction false} ApplyModifiersUnanswered<H>(hooks: Hooks<H>, order: seq<H>, damage: int, original: int)
    requires forall k, x :: 0 <= k < |order| ==> !hooks.respondsTo(order[k], x, original)
    ensures ApplyModifiers(hooks, order, damage, original) == damage
    decreases |order|
  {
    if |order| > 0 {
      ApplyModifiersUnanswered(hooks, order[1..], damage, original);
    }
  }

  /** A handler that never responds has no effect wherever it stands. */
  lemma ApplyModifiersSkipsSilent<H>(hooks: Hooks<H>, a: seq<H>, h: H, b: seq<H>, damage: int, original: int)
    requires forall x :: !hooks.respondsTo(h, x, original)
    ensures ApplyModifiers(hooks, a + [h] + b, damage, original) == ApplyModifiers(hooks, a + b, damage, original)
  {
    var mid := ApplyModifiers(hooks, a, damage, original);
    ApplyModifiersAppend(hooks, a + [h], b, damage, original);
    ApplyModifiersAppend(hooks, a, [h], damage, original);
    ApplyModifiersAppend(hooks, a, b, damage, original);
    assert ApplyModifiers(hooks, [h], mid, original) == ApplyModifiers(hooks, [], mid, original);
  }

  /** The sign rule after the fold, branch by branch as written. */
  function SignRule(damage: int, sides: Sides): (r: int)
    ensures r == damage || r == -damage
    ensures sides.attackerIsPlayer == sides.opposingIsPlayer ==> r == -damage
  {
    if sides.attackerIsPlayer == sides.opposingIsPlayer then -damage
    else if sides.isPlayerTurn then
      if !sides.attackerIsPlayer then (if sides.opposingIsPlayer then -damage else damage)
      else damage
    else if sides.attackerIsPlayer then (if !sides.opposingIsPlayer then -damage else damage)
    else damage
  }

  /** The damage is positive exactly when the two slots are on different
      sides and the attacker's side has the turn; otherwise it is negated. */
  lemma SignRuleIsTurnRule(damage: int, sides: Sides)
    ensures SignRule(damage, sides)
         == if sides.attackerIsPlayer != sides.opposingIsPlayer && sides.attackerIsPlayer == sides.isPlayerTurn
            then damage else -damage
  {
  }

  /** `DamageToDealThisPhase(attackingSlot, opposingSlot)`, given the card's
      attack, the handlers found, and the order the sort left them in. */
  function DamageToDealThisPhase<H(==)>(attack: int, hooks: Hooks<H>, handlers: seq<H>, order: seq<H>, sides: Sides): (r: int)
    requires IsPriorityOrder(hooks, order, handlers, attack)
    ensures var folded := ApplyModifiers(hooks, order, attack, attack);
      (r == folded || r == -folded)
      && (sides.attackerIsPlayer == sides.opposingIsPlayer ==> r == -folded)
  {
    SignRule(ApplyModifiers(hooks, order, attack, attack), sides)
  }

  /** Without a responding handler, the damage is the card's attack, signed. */
  lemma DamageWithoutModifiers<H>(attack: int, hooks: Hooks<H>, handlers: seq<H>, order: seq<H>, sides: Sides)
    requires IsPriorityOrder(hooks, order, handlers, attack)
    requires forall k, x :: 0 <= k < |handlers| ==> !hooks.respondsTo(handlers[k], x, attack)
    ensures DamageToDealThisPhase(attack, hooks, handlers, order, sides) == SignRule(attack, sides)
  {
    forall k, x | 0 <= k < |order|
      ensures !hooks.respondsTo(order[k], x, attack)
    {
      assert order[k] in multiset(handlers);
      var j :| 0 <= j < |handlers| && handlers[j] == order[k];
    }
    ApplyModifiersUnanswered(hooks, order, attack, attack);
  }
}

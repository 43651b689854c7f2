/** The owner of combat relationships (CR 506.4): mutable combat state and the attacking and
    blocking marks of the cards involved. */
module CombatRelationships {
  import opened Wrappers
  import opened CombatRelations

  class Combatant {
    const objectId: string
    var onBattlefield: bool
    var controller: string
    var phasedOut: bool
    var attacking: Option<string>
    var blocking: Option<string>

    constructor (objectId: string, controller: string)
      ensures this.objectId == objectId && this.controller == controller
      ensures onBattlefield && !phasedOut && attacking == None && blocking == None
    {
      this.objectId, this.controller := objectId, controller;
      onBattlefield, phasedOut, attacking, blocking := true, false, None, None;
    }
  }

  class CombatState {
    var attackers: map<string, string>
    var contexts: map<string, TargetContext>
    var blockers: map<string, seq<string>>

    constructor ()
      ensures attackers == map[] && contexts == map[] && blockers == map[]
    {
      attackers, contexts, blockers := map[], map[], map[];
    }
  }

  type Cards = map<string, Combatant>

  predicate Filed(cards: Cards) {
    forall id :: id in cards ==> cards[id].objectId == id
  }

  predicate Fit(card: Combatant, controller: string)
    reads card`onBattlefield, card`controller, card`phasedOut
  {
    card.onBattlefield && card.controller == controller && !card.phasedOut
  }

  function FieldFor(cards: Cards, controller: string): Field
    reads cards.Values`onBattlefield, cards.Values`controller, cards.Values`phasedOut
  {
    Field(controller, cards.Keys, set id | id in cards && Fit(cards[id], controller))
  }

  function AttackingOf(cards: Cards): map<string, Option<string>>
    reads cards.Values`attacking
  {
    map id | id in cards :: cards[id].attacking
  }

  function BlockingOf(cards: Cards): map<string, Option<string>>
    reads cards.Values`blocking
  {
    map id | id in cards :: cards[id].blocking
  }

  /** The relationships that the objects hold. */
  function RelationsOf(combat: CombatState, cards: Cards): Relations
    reads combat, cards.Values
  {
    Relations(combat.attackers, combat.contexts, combat.blockers, AttackingOf(cards), BlockingOf(cards))
  }

  method MarkAttacking(cards: Cards, card: Combatant, target: string)
    requires Filed(cards) && card.objectId in cards && cards[card.objectId] == card
    modifies card`attacking
    ensures AttackingOf(cards) == old(AttackingOf(cards))[card.objectId := Some(target)]
  {
    ghost var before := AttackingOf(cards);
    card.attacking := Some(target);
    assert AttackingOf(cards) == before[card.objectId := Some(target)];
  }

  method MarkBlocking(cards: Cards, card: Combatant, attacker: string)
    requires Filed(cards) && card.objectId in cards && cards[card.objectId] == card
    modifies card`blocking
    ensures BlockingOf(cards) == old(BlockingOf(cards))[card.objectId := Some(attacker)]
  {
    ghost var before := BlockingOf(cards);
    card.blocking := Some(attacker);
    assert BlockingOf(cards) == before[card.objectId := Some(attacker)];
  }

  /** Every object is known; those fit for a declaration are on the battlefield, under the
      declaring player's control and not phased out. */
  lemma FitForDeclaration(cards: Cards, controller: string)
    ensures var f := FieldFor(cards, controller);
            && f.controller == controller && (forall id :: id in f.known <==> id in cards)
            && forall id :: id in f.fit <==>
                 id in cards && cards[id].onBattlefield && cards[id].controller == controller && !cards[id].phasedOut
  {
  }

  lemma FieldIs(cards: Cards, controller: string, id: string)
    ensures id in FieldFor(cards, controller).known <==> id in cards
    ensures id in FieldFor(cards, controller).fit <==> id in cards && Fit(cards[id], controller)
    ensures id in cards ==> cards[id] in cards.Values
    ensures FieldFor(cards, controller).controller == controller
  {
    if id in cards { assert cards[id] in cards.Values; }
  }

  lemma {:induction false} ErrorAppends(r: Relations, f: Field, xs: seq<AttackAssignment>, i: nat)
    requires i < |xs| && FirstAttackError(r, f, xs[..i]) == None
    ensures FirstAttackError(r, f, xs[..i + 1]) == AttackError(r, f, xs[i])
    decreases |xs|
  {
    hide AttackError;
    if i > 0 {
      assert xs[..i][1..] == xs[1..][..i - 1] && xs[..i + 1][1..] == xs[1..][..i];
      ErrorAppends(r, f, xs[1..], i - 1);
    } else {
      assert xs[..1][1..] == [];
    }
  }

  lemma {:induction false} ErrorStays(r: Relations, f: Field, xs: seq<AttackAssignment>, i: nat)
    requires i <= |xs| && FirstAttackError(r, f, xs[..i]).Some?
    ensures FirstAttackError(r, f, xs) == FirstAttackError(r, f, xs[..i])
    decreases |xs|
  {
    hide AttackError;
    assert i > 0;
    if AttackError(r, f, xs[0]) == None {
      assert xs[..i][1..] == xs[1..][..i - 1];
      ErrorStays(r, f, xs[1..], i - 1);
    }
  }

  lemma WithAttackersStep(r: Relations, xs: seq<AttackAssignment>, i: nat)
    requires i < |xs|
    ensures WithAttackers(r, xs[..i + 1]) == WithAttacker(WithAttackers(r, xs[..i]), xs[i])
  {
    assert xs[..i + 1][..i] == xs[..i];
  }

  /** Checking one more assignment. */
  lemma CheckedStep(r: Relations, f: Field, xs: seq<AttackAssignment>, i: nat)
    requires i < |xs| && Checked(r, f, xs[..i]).Ok?
    ensures var x, before := xs[i], Checked(r, f, xs[..i]).value;
            if x.attacker !in f.known then Checked(r, f, xs) == Err(UnknownAttacker)
            else if x.attacker in f.fit && x.attacker in r.attackers then Checked(r, f, xs) == Err(AlreadyAttacking)
            else Checked(r, f, xs[..i + 1]) == Ok(before + if x.attacker in f.fit then [x] else [])
  {
    hide FirstAttackError;
    ErrorAppends(r, f, xs, i);
    assert xs[..i + 1][..i] == xs[..i];
    if AttackError(r, f, xs[i]).Some? {
      ErrorStays(r, f, xs, i + 1);
    }
  }

  lemma CheckedNothing(r: Relations, f: Field)
    ensures Checked(r, f, []) == Ok([])
  {
  }

  /** Checks the whole batch and picks the assignments whose attacker survived. */
  method CheckAttacks(combat: CombatState, cards: Cards, controller: string, assignments: seq<AttackAssignment>)
    returns (r: Result<seq<AttackAssignment>, Error>)
    requires Filed(cards)
    ensures r == Checked(RelationsOf(combat, cards), FieldFor(cards, controller), assignments)
  {
    ghost var start, field := RelationsOf(combat, cards), FieldFor(cards, controller);
    assert start.attackers == combat.attackers;
    hide *;
    CheckedNothing(start, field);
    var committed: seq<AttackAssignment> := [];
    var i := 0;
    assert assignments[..0] == [];
    while i < |assignments|
      invariant 0 <= i <= |assignments|
      invariant Checked(start, field, assignments[..i]) == Ok(committed)
    {
      var x := assignments[i];
      FieldIs(cards, controller, x.attacker);
      CheckedStep(start, field, assignments, i);
      if x.attacker !in cards {
        return Err(UnknownAttacker);
      }
      if Fit(cards[x.attacker], controller) {
        if x.attacker in combat.attackers {
          return Err(AlreadyAttacking);
        }
        committed := committed + [x];
      } else {
        assert committed + [] == committed;
      }
      i := i + 1;
    }
    assert assignments[..i] == assignments;
    return Ok(committed);
  }

  /** Writes the picked assignments one after the other. */
  method WriteAttacks(combat: CombatState, cards: Cards, committed: seq<AttackAssignment>)
    requires Filed(cards) && forall x :: x in committed ==> x.attacker in cards
    modifies combat`attackers, combat`contexts, cards.Values`attacking
    ensures RelationsOf(combat, cards) == WithAttackers(old(RelationsOf(combat, cards)), committed)
  {
    hide AttackingOf, BlockingOf;
    ghost var start := RelationsOf(combat, cards);
    var i := 0;
    assert committed[..0] == [];
    assert WithAttackers(start, []) == start;
    hide WithAttackers;
    while i < |committed|
      invariant 0 <= i <= |committed|
      invariant RelationsOf(combat, cards) == WithAttackers(start, committed[..i])
    {
      var x := committed[i];
      assert x in committed;
      WithAttackersStep(start, committed, i);
      assert cards[x.attacker] in cards.Values;
      MarkAttacking(cards, cards[x.attacker], x.context.target);
      combat.attackers := combat.attackers[x.attacker := x.context.target];
      combat.contexts := combat.contexts[x.attacker := x.context];
      i := i + 1;
    }
    assert committed[..i] == committed;
  }

  /** Commits the attackers that survived the declaration; the whole batch is checked before
      the first write, so a rejection writes nothing. */
  method CommitAttackDeclaration(combat: CombatState, cards: Cards, controller: string,
                                 assignments: seq<AttackAssignment>)
    returns (r: Result<seq<AttackAssignment>, Error>)
    requires Filed(cards)
    modifies combat`attackers, combat`contexts, cards.Values`attacking
    ensures var outcome := AttackCommitted(old(RelationsOf(combat, cards)), FieldFor(cards, controller), assignments);
            && (r.Ok? <==> outcome.Ok?)
            && (r.Err? ==> outcome == Err(r.error) && RelationsOf(combat, cards) == old(RelationsOf(combat, cards)))
            && (r.Ok? ==> RelationsOf(combat, cards) == outcome.value)
    ensures r.Ok? ==> r.value == Surviving(FieldFor(cards, controller), assignments)
  {
    hide FieldFor, RelationsOf, Surviving, WithAttackers, FirstAttackError, UniqueAttackers;
    FieldIs(cards, controller, "");
    if controller == "" { return Err(NoController); }
    if !UniqueAttackers(assignments) { return Err(Repeated); }
    var checked := CheckAttacks(combat, cards, controller, assignments);
    if checked.Err? { return Err(checked.error); }
    forall x | x in checked.value ensures x.attacker in cards {
      FieldIs(cards, controller, x.attacker);
    }
    WriteAttacks(combat, cards, checked.value);
    return Ok(checked.value);
  }

  lemma {:induction false} StopsAtFirstError(r: Relations, f: Field, xs: seq<BlockAssignment>, k: nat)
    requires k <= |xs| && BlockLoop(r, f, xs[..k]).error.Some?
    ensures BlockLoop(r, f, xs) == BlockLoop(r, f, xs[..k])
    decreases |xs|
  {
    if k == |xs| {
      assert xs[..k] == xs;
    } else {
      var n := |xs| - 1;
      assert xs[..n][..k] == xs[..k];
      StopsAtFirstError(r, f, xs[..n], k);
    }
  }

  lemma BlockStep(r: Relations, f: Field, xs: seq<BlockAssignment>, i: nat)
    requires i < |xs| && BlockLoop(r, f, xs[..i]).error == None
    ensures var before := BlockLoop(r, f, xs[..i]);
            var x := xs[i];
            var here := before.relations;
            BlockLoop(r, f, xs[..i + 1]) ==
            if x.attacker !in f.known || x.attacker !in here.attackers then before.(error := Some(NotAttacking))
            else if x.blocker !in f.known then before.(error := Some(UnknownBlocker))
            else if x.blocker !in f.fit then before
            else if x.blocker in BlockersOf(here, x.attacker) then before.(error := Some(AlreadyBlocking))
            else BlockProgress(here.(blockers :=
                                     here.blockers[x.attacker := BlockersOf(here, x.attacker) + [x.blocker]],
                                     blocking := here.blocking[x.blocker := Some(x.attacker)]),
                               before.committed + [x], None)
  {
    assert xs[..i + 1][..i] == xs[..i];
  }

  lemma BlockStarts(r: Relations, f: Field, xs: seq<BlockAssignment>)
    ensures BlockLoop(r, f, []) == BlockProgress(r, [], None)
    ensures BlockOutcome(r, f, xs) ==
            if f.controller == "" then BlockProgress(r, [], Some(NoController))
            else if !UniqueBlockers(xs) then BlockProgress(r, [], Some(Repeated))
            else BlockLoop(r, f, xs)
  {
  }

  lemma BlockersAre(combat: CombatState, cards: Cards, attacker: string)
    ensures BlockersOf(RelationsOf(combat, cards), attacker) ==
            if attacker in combat.blockers then combat.blockers[attacker] else []
  {
  }

  /** Commits blockers one at a time: a rejection keeps what was already written. */
  method CommitBlockDeclaration(combat: CombatState, cards: Cards, controller: string,
                                assignments: seq<BlockAssignment>)
    returns (r: Result<seq<BlockAssignment>, Error>)
    requires Filed(cards)
    modifies combat`blockers, cards.Values`blocking
    ensures var outcome := BlockOutcome(old(RelationsOf(combat, cards)), FieldFor(cards, controller), assignments);
            && RelationsOf(combat, cards) == outcome.relations
            && r == match outcome.error case None => Ok(outcome.committed) case Some(e) => Err(e)
  {
    hide FieldFor, AttackingOf, BlockingOf, BlockLoop, BlockOutcome, BlockersOf, UniqueBlockers;
    ghost var start, field := RelationsOf(combat, cards), FieldFor(cards, controller);
    BlockStarts(start, field, assignments);
    FieldIs(cards, controller, "");
    if controller == "" { return Err(NoController); }
    if !UniqueBlockers(assignments) { return Err(Repeated); }
    var committed: seq<BlockAssignment> := [];
    var i := 0;
    assert assignments[..0] == [];
    while i < |assignments|
      invariant 0 <= i <= |assignments|
      invariant BlockLoop(start, field, assignments[..i]) == BlockProgress(RelationsOf(combat, cards), committed, None)
    {
      var x := assignments[i];
      FieldIs(cards, controller, x.attacker);
      FieldIs(cards, controller, x.blocker);
      BlockStep(start, field, assignments, i);
      BlockersAre(combat, cards, x.attacker);
      if x.attacker !in cards || x.attacker !in combat.attackers {
        StopsAtFirstError(start, field, assignments, i + 1);
        return Err(NotAttacking);
      }
      if x.blocker !in cards {
        StopsAtFirstError(start, field, assignments, i + 1);
        return Err(UnknownBlocker);
      }
      if Fit(cards[x.blocker], controller) {
        var existing := if x.attacker in combat.blockers then combat.blockers[x.attacker] else [];
        if x.blocker in existing {
          StopsAtFirstError(start, field, assignments, i + 1);
          return Err(AlreadyBlocking);
        }
        combat.blockers := combat.blockers[x.attacker := existing + [x.blocker]];
        MarkBlocking(cards, cards[x.blocker], x.attacker);
        committed := committed + [x];
      }
      i := i + 1;
    }
    assert assignments[..i] == assignments;
    return Ok(committed);
  }

  datatype Removal = Removal(wasAttacker: bool, removedAsBlocker: bool)

  /** Drops one object's current roles and keeps the record of who blocked it. */
  method RemoveCombatRelationships(combat: CombatState, cards: Cards, objectId: string)
    returns (r: Result<Removal, Error>)
    modifies combat
    ensures if objectId == ""
            then r == Err(NoObject) && RelationsOf(combat, cards) == old(RelationsOf(combat, cards))
            else r.Ok? && RelationsOf(combat, cards) == Removed(old(RelationsOf(combat, cards)), objectId)
    ensures r.Ok? ==> (r.value.wasAttacker <==> objectId in old(combat.attackers))
    ensures r.Ok? ==>
              (r.value.removedAsBlocker <==> exists a :: a in old(combat.blockers)
                                              && objectId in old(combat.blockers)[a])
  {
    if objectId == "" { return Err(NoObject); }
    var wasAttacker := objectId in combat.attackers;
    var removed := exists a :: a in combat.blockers && objectId in combat.blockers[a];
    combat.blockers := map a | a in combat.blockers :: Omit(combat.blockers[a], objectId);
    if wasAttacker {
      combat.attackers := combat.attackers - {objectId};
      combat.contexts := combat.contexts - {objectId};
    } else {
      assert combat.attackers - {objectId} == combat.attackers;
    }
    return Ok(Removal(wasAttacker, removed));
  }
}

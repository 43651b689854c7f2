/** Captured declarations in the answers' own fields: which readings are accepted, and the order in
    which an event lists what was declared. */
module CaptureLaws {
  import opened Wrappers
  import opened Orders
  import opened KeywordTriggers
  import opened Participants
  import Blocks = BlockTransitions
  import Attacks = AttackTransitions

  /** Nonempty names, each once. */
  predicate Names(ids: seq<string>) {
    (forall i :: 0 <= i < |ids| ==> ids[i] != "") && forall i, j :: 0 <= i < j < |ids| ==> ids[i] != ids[j]
  }

  /** The answer for an object is complete, is about that object, and lists instances in printed
      order. */
  predicate Answered<E>(f: Answers<E>, id: string) {
    && f(id).identity.objectId == id && id != ""
    && f(id).identity.logicalId != "" && f(id).identity.reference != "" && f(id).controller != ""
    && f(id).specs == Printed(f(id).specs)
  }

  predicate ToldApart<E>(f: Answers<E>, c: string, d: string) {
    f(c).identity.logicalId != f(d).identity.logicalId && f(c).identity.reference != f(d).identity.reference
  }

  lemma NamesAreClean(ids: seq<string>)
    ensures CleanIds(ids) <==> Names(ids)
  {
  }

  // ----- blocks -----

  predicate Blocking(q: Blocks.Query, a: string, b: string) {
    a in q.attackers && b in q.blockers(a)
  }

  ghost predicate InBlock(q: Blocks.Query, id: string) {
    exists a, b :: Blocking(q, a, b) && (a == id || b == id)
  }

  lemma SteadyIs<E(!new)>(f: Answers<E>, ids: set<string>)
    ensures Steady(f, ids) <==> forall id :: id in ids ==> Answered(f, id)
  {
    hide Printed;
    forall id ensures Answering(f, id) <==> Answered(f, id) {
    }
  }

  lemma BlocksNamed(q: Blocks.Query)
    ensures Blocks.CleanQuery(q) <==> Names(q.attackers) && forall a :: a in q.attackers ==> Names(q.blockers(a))
  {
    hide CleanIds, Names;
    NamesAreClean(q.attackers);
    forall a ensures CleanIds(q.blockers(a)) <==> Names(q.blockers(a)) {
      NamesAreClean(q.blockers(a));
    }
  }

  lemma BlocksInvolved(q: Blocks.Query)
    ensures forall id :: id in Blocks.Involved(q) <==> InBlock(q, id)
    ensures Blocks.Relations(q) == {} <==> forall a :: a in q.attackers ==> q.blockers(a) == []
    ensures forall x: Blocks.Assignment :: x in Blocks.Relations(q) <==> Blocking(q, x.attacker, x.blocker)
  {
    forall a, b | Blocking(q, a, b) ensures Blocks.Assignment(a, b) in Blocks.Relations(q) {
    }
    forall id | id in Blocks.Involved(q) ensures InBlock(q, id) {
      var x :| x in Blocks.Relations(q) && (x.attacker == id || x.blocker == id);
      assert Blocking(q, x.attacker, x.blocker);
    }
    forall id | InBlock(q, id) ensures id in Blocks.Involved(q) {
      var a, b :| Blocking(q, a, b) && (a == id || b == id);
      assert Blocks.Assignment(a, b) in Blocks.Relations(q);
    }
    forall a | a in q.attackers && q.blockers(a) != [] ensures Blocks.Relations(q) != {} {
      assert Blocking(q, a, q.blockers(a)[0]);
      assert Blocks.Assignment(a, q.blockers(a)[0]) in Blocks.Relations(q);
    }
  }

  lemma BlocksAdmissible(q: Blocks.Query)
    ensures Blocks.Admissible(q) <==>
            && q.turn >= 0 && q.epoch >= 0 && q.activePlayer != ""
            && (forall a, b :: Blocking(q, a, b) ==> a != b && q.participant(a).controller == q.activePlayer)
            && (forall a, b, c :: Blocking(q, a, b) && Blocking(q, c, b) ==> a == c)
            && forall c, d :: InBlock(q, c) && InBlock(q, d) && c != d ==> ToldApart(q.participant, c, d)
  {
    hide Blocks.Relations, Blocks.Involved, Blocking, InBlock, Blocks.Admissible;
    BlocksInvolved(q);
    AdmissibleParts(q);
    assert UniqueAnswers(q.participant, Blocks.Involved(q)) <==>
           forall c, d :: InBlock(q, c) && InBlock(q, d) && c != d ==> ToldApart(q.participant, c, d);
    forall a, b ensures Blocking(q, a, b) <==> Blocks.Assignment(a, b) in Blocks.Relations(q) {
    }
    assert Blocks.SingleAttackers(q) <==> forall a, b, c :: Blocking(q, a, b) && Blocking(q, c, b) ==> a == c by {
      if Blocks.SingleAttackers(q) {
        forall a, b, c | Blocking(q, a, b) && Blocking(q, c, b) ensures a == c {
          assert Blocks.Assignment(a, b) in Blocks.Relations(q) && Blocks.Assignment(c, b) in Blocks.Relations(q);
        }
      }
    }
    assert Blocks.AttackersHeld(q) <==>
           forall a, b :: Blocking(q, a, b) ==> a != b && q.participant(a).controller == q.activePlayer by {
      if Blocks.AttackersHeld(q) {
        forall a, b | Blocking(q, a, b) ensures a != b && q.participant(a).controller == q.activePlayer {
          assert Blocks.Assignment(a, b) in Blocks.Relations(q);
        }
      }
    }
  }

  lemma AdmissibleParts(q: Blocks.Query)
    ensures Blocks.Admissible(q) <==>
            && q.turn >= 0 && q.epoch >= 0 && q.activePlayer != ""
            && UniqueAnswers(q.participant, Blocks.Involved(q)) && Blocks.SingleAttackers(q) && Blocks.AttackersHeld(q)
  {
    hide Blocks.Relations, Blocks.Involved, Blocks.SingleAttackers, Blocks.AttackersHeld;
  }

  /** A reading of blocks is accepted exactly when attackers and each attacker's blockers are
      nonempty names without repeats and, if anything blocks: the turn and epoch are not negative
      and the active player has a name; every creature involved has a complete answer of its own;
      each attacker is the active player's and does not block itself; no creature blocks two
      attackers; and different creatures have different logical identities and references. */
  lemma BlocksAccepted(q: Blocks.Query)
    ensures Blocks.Outcome(q).Ok? <==>
            && Names(q.attackers) && (forall a :: a in q.attackers ==> Names(q.blockers(a)))
            && ((forall a :: a in q.attackers ==> q.blockers(a) == [])
                || (&& q.turn >= 0 && q.epoch >= 0 && q.activePlayer != ""
                    && (forall id :: InBlock(q, id) ==> Answered(q.participant, id))
                    && (forall a, b :: Blocking(q, a, b) ==>
                          a != b && q.participant(a).controller == q.activePlayer)
                    && (forall a, b, c :: Blocking(q, a, b) && Blocking(q, c, b) ==> a == c)
                    && forall c, d :: InBlock(q, c) && InBlock(q, d) && c != d ==> ToldApart(q.participant, c, d)))
  {
    hide *;
    Blocks.AcceptedIff(q);
    BlocksNamed(q);
    BlocksInvolved(q);
    SteadyIs(q.participant, Blocks.Involved(q));
    BlocksAdmissible(q);
  }

  /** An event lists its blocks by the references of the attackers, and one attacker's by those of
      its blockers. */
  lemma BlocksByReference(q: Blocks.Query, i: nat, j: nat)
    requires Steady(q.participant, Blocks.Involved(q)) && UniqueAnswers(q.participant, Blocks.Involved(q))
    requires i < j < |Blocks.Described(q).assignments|
    ensures var xs, f := Blocks.Described(q).assignments, q.participant;
            || StrLess(f(xs[i].attacker).identity.reference, f(xs[j].attacker).identity.reference)
            || (xs[i].attacker == xs[j].attacker
                && StrLess(f(xs[i].blocker).identity.reference, f(xs[j].blocker).identity.reference))
  {
    hide Blocks.Relations, Blocks.Involved, Blocks.Described, Blocks.RelationKey, Blocks.AssignmentKey, CapturedById,
         KeyLess, Steady, UniqueAnswers;
    var xs, f := Blocks.Described(q).assignments, q.participant;
    Blocks.DescribedIs(q);
    Blocks.InvolvedIs(q);
    var x, y := xs[i], xs[j];
    assert x in xs && y in xs;
    assert ByKey(Blocks.RelationKey(q))(x, y);
    KeyTrichotomy(Blocks.RelationKey(q)(x), Blocks.RelationKey(q)(x));
    Blocks.AttackerInvolved(q, x);
    Blocks.AttackerInvolved(q, y);
    BlockKeySteps(f, Blocks.Involved(q), x, y);
  }

  lemma BlockKeySteps(f: Answers<()>, ids: set<string>, x: Blocks.Assignment, y: Blocks.Assignment)
    requires x.attacker in ids && x.blocker in ids && y.attacker in ids && y.blocker in ids && x != y
    requires UniqueAnswers(f, ids)
    requires KeyLess(Blocks.AssignmentKey(CapturedById(f, ids))(x), Blocks.AssignmentKey(CapturedById(f, ids))(y))
    ensures || StrLess(f(x.attacker).identity.reference, f(y.attacker).identity.reference)
            || (x.attacker == y.attacker
                && StrLess(f(x.blocker).identity.reference, f(y.blocker).identity.reference))
  {
    var byId := CapturedById(f, ids);
    var p, q := Blocks.AssignmentKey(byId)(x).parts, Blocks.AssignmentKey(byId)(y).parts;
    TupLessStep(p, q);
    TupLessStep(p[1..], q[1..]);
  }

  // ----- attacks -----

  predicate InAttack(q: Attacks.Query, id: string) {
    id in q.attackers || id in q.sources
  }

  predicate Attackable(r: Attacks.Recipient, player: string) {
    && r.reference != "" && r.defendingPlayer != "" && r.defendingPlayer != player
    && (r.kind == Attacks.Player ==> r.logicalId == None && r.reference == r.defendingPlayer)
    && (r.kind != Attacks.Player ==> r.logicalId != None && r.logicalId != Some(""))
  }

  /** A reading of attacks is accepted exactly when attackers and trigger sources are nonempty names
      without repeats and, if anything attacks: the turn and epoch are not negative and the active
      player has a name; everything involved has a complete answer of its own, is the active
      player's, attacks or has an instance, and has instances of attack keywords only; each
      attacker is a creature and attacks another player, named as such, or a named permanent of
      one; and different objects have different logical identities and references. */
  lemma AttacksAccepted(q: Attacks.Query)
    ensures Attacks.Outcome(q).Ok? <==>
            && Names(q.attackers) && Names(q.sources)
            && (q.attackers == []
                || (&& q.turn >= 0 && q.epoch >= 0 && q.activePlayer != ""
                    && (forall id :: InAttack(q, id) ==>
                          && Answered(q.participant, id) && q.participant(id).controller == q.activePlayer
                          && (id in q.attackers || q.participant(id).specs != [])
                          && forall s: Spec :: s in q.participant(id).specs ==>
                               s.kind in {Exalted, BattleCry, Melee, Mentor, Dethrone, Training})
                    && (forall a :: a in q.attackers ==>
                          q.participant(a).aspect.isCreature && Attackable(q.recipient(a), q.activePlayer))
                    && forall c, d :: InAttack(q, c) && InAttack(q, d) && c != d ==> ToldApart(q.participant, c, d)))
  {
    hide *;
    Attacks.AcceptedIff(q);
    Attacks.InvolvedIs(q);
    AttacksNamed(q);
    SteadyIs(q.participant, Attacks.Involved(q));
    AttacksAdmissible(q);
    assert forall id :: InAttack(q, id) <==> id in Attacks.Involved(q) by { InAttackIs(q); }
  }

  lemma InAttackIs(q: Attacks.Query)
    ensures forall id :: InAttack(q, id) <==> id in Attacks.Involved(q)
  {
  }

  lemma AttacksNamed(q: Attacks.Query)
    ensures Attacks.CleanQuery(q) <==> Names(q.attackers) && Names(q.sources)
  {
    NamesAreClean(q.attackers);
    NamesAreClean(q.sources);
  }

  lemma AttacksAdmissible(q: Attacks.Query)
    ensures Attacks.Admissible(q) <==>
            && q.turn >= 0 && q.epoch >= 0 && q.activePlayer != ""
            && (forall id :: InAttack(q, id) ==>
                  && q.participant(id).controller == q.activePlayer
                  && (id in q.attackers || q.participant(id).specs != [])
                  && forall s: Spec :: s in q.participant(id).specs ==>
                       s.kind in {Exalted, BattleCry, Melee, Mentor, Dethrone, Training})
            && (forall a :: a in q.attackers ==>
                  q.participant(a).aspect.isCreature && Attackable(q.recipient(a), q.activePlayer))
            && forall c, d :: InAttack(q, c) && InAttack(q, d) && c != d ==> ToldApart(q.participant, c, d)
  {
    hide Attacks.Involved, InAttack;
    InAttackIs(q);
    forall id ensures Attacks.MayTrigger(q, id) <==>
                      && q.participant(id).controller == q.activePlayer
                      && (id in q.attackers || q.participant(id).specs != [])
                      && forall s: Spec :: s in q.participant(id).specs ==>
                           s.kind in {Exalted, BattleCry, Melee, Mentor, Dethrone, Training}
    {
    }
    forall a ensures Attacks.MayAttack(q, a) <==>
                     q.participant(a).aspect.isCreature && Attackable(q.recipient(a), q.activePlayer)
    {
    }
    assert UniqueAnswers(q.participant, Attacks.Involved(q)) <==>
           forall c, d :: InAttack(q, c) && InAttack(q, d) && c != d ==> ToldApart(q.participant, c, d);
  }

  /** An event lists its attacks by the references of the attackers. */
  lemma AttacksByReference(q: Attacks.Query, i: nat, j: nat)
    requires Steady(q.participant, Attacks.Involved(q)) && UniqueAnswers(q.participant, Attacks.Involved(q))
    requires i < j < |Attacks.Described(q).assignments|
    ensures var xs, f := Attacks.Described(q).assignments, q.participant;
            StrLess(f(xs[i].attacker).identity.reference, f(xs[j].attacker).identity.reference)
  {
    hide Attacks.Involved, Attacks.Described, Attacks.DeclarationKey, Attacks.AssignmentKey, CapturedById, KeyLess,
         Steady, UniqueAnswers;
    var xs, f := Attacks.Described(q).assignments, q.participant;
    Attacks.DescribedIs(q);
    Attacks.InvolvedIs(q);
    var x, y := xs[i], xs[j];
    assert x in xs && y in xs;
    assert ByKey(Attacks.DeclarationKey(q))(x, y);
    ByKeyOrder(Attacks.DeclarationKey(q));
    SortedIsDistinct(ByKey(Attacks.DeclarationKey(q)), xs);
    AttackKeySteps(f, Attacks.Involved(q), x, y);
  }

  lemma AttackKeySteps(f: Answers<Attacks.Aspect>, ids: set<string>, x: Attacks.Assignment, y: Attacks.Assignment)
    requires x.attacker in ids && y.attacker in ids && x.attacker != y.attacker && UniqueAnswers(f, ids)
    requires KeyLess(Attacks.AssignmentKey(CapturedById(f, ids))(x), Attacks.AssignmentKey(CapturedById(f, ids))(y))
    ensures StrLess(f(x.attacker).identity.reference, f(y.attacker).identity.reference)
  {
    var byId := CapturedById(f, ids);
    var p, q := Attacks.AssignmentKey(byId)(x).parts, Attacks.AssignmentKey(byId)(y).parts;
    TupLessStep(p, q);
  }

  // ----- sealed events -----

  lemma ParticipantsAscend<E(!new)>(ps: seq<Participant<E>>, i: nat, j: nat)
    requires UniqueIdentities(ps) && ps == Sort(ByKey(ParticipantKey), ps) && i < j < |ps|
    ensures StrLess(ps[i].identity.reference, ps[j].identity.reference)
  {
    hide KeyLess, Sort;
    forall k, l | 0 <= k < l < |ps| ensures ParticipantKey(ps[k]) != ParticipantKey(ps[l]) {
      assert ParticipantKey(ps[k]).parts[1] != ParticipantKey(ps[l]).parts[1];
    }
    SortByUniqueKey(ParticipantKey, ps);
    assert ByKey(ParticipantKey)(ps[i], ps[j]);
    ParticipantSteps(ps[i], ps[j]);
  }

  /** An event of blocks that its constructor accepts lists participants by reference, and blocks by
      the reference of the attacker and then that of the blocker. */
  lemma BlockEventOrdered(t: Blocks.Transition, i: nat, j: nat)
    requires Blocks.ValidTransition(t) && i < j
    ensures j < |t.participants| ==>
              StrLess(t.participants[i].identity.reference, t.participants[j].identity.reference)
    ensures j < |t.assignments| ==>
              var x, y, byId := t.assignments[i], t.assignments[j], ById(t.participants);
              && x.attacker in byId && x.blocker in byId && y.attacker in byId && y.blocker in byId
              && (StrLess(byId[x.attacker].identity.reference, byId[y.attacker].identity.reference)
                  || (x.attacker == y.attacker
                      && StrLess(byId[x.blocker].identity.reference, byId[y.blocker].identity.reference)))
  {
    hide KeyLess, Sort, ParticipantKey, Blocks.AssignmentKey, ById, UniqueIdentities, Sealed, StrLess;
    if j < |t.participants| { ParticipantsAscend(t.participants, i, j); }
    if j < |t.assignments| {
      Blocks.ValidIsCoherent(t);
      BlockKeysDiffer(t);
      var key := Blocks.AssignmentKey(ById(t.participants));
      SortByUniqueKey(key, t.assignments);
      assert ByKey(key)(t.assignments[i], t.assignments[j]);
      Blocks.Closed(t, i);
      Blocks.Closed(t, j);
      BlockEventSteps(t, t.assignments[i], t.assignments[j]);
    }
  }

  lemma BlockKeysDiffer(t: Blocks.Transition)
    requires Blocks.Coherent(t)
    ensures UniqueKeys(Blocks.AssignmentKey(ById(t.participants)), t.assignments)
  {
    hide ById, Blocks.Named, Ids, UniqueIdentities;
    var key := Blocks.AssignmentKey(ById(t.participants));
    forall k, l | 0 <= k < l < |t.assignments| ensures key(t.assignments[k]) != key(t.assignments[l]) {
      assert key(t.assignments[k]).parts[3] != key(t.assignments[l]).parts[3];
    }
  }

  lemma BlockEventSteps(t: Blocks.Transition, x: Blocks.Assignment, y: Blocks.Assignment)
    requires UniqueIdentities(t.participants) && x != y
    requires var byId := ById(t.participants);
             && x.attacker in byId && x.blocker in byId && y.attacker in byId && y.blocker in byId
             && KeyLess(Blocks.AssignmentKey(byId)(x), Blocks.AssignmentKey(byId)(y))
    ensures var byId := ById(t.participants);
            || StrLess(byId[x.attacker].identity.reference, byId[y.attacker].identity.reference)
            || (x.attacker == y.attacker
                && StrLess(byId[x.blocker].identity.reference, byId[y.blocker].identity.reference))
  {
    hide ById, StrLess;
    var byId := ById(t.participants);
    ByIdFinds(t.participants);
    var p, q := Blocks.AssignmentKey(byId)(x).parts, Blocks.AssignmentKey(byId)(y).parts;
    TupLessStep(p, q);
    TupLessStep(p[1..], q[1..]);
    ReferenceDecides(t.participants, x.attacker, y.attacker);
    ReferenceDecides(t.participants, x.blocker, y.blocker);
  }

  lemma ReferenceDecides<E(!new)>(ps: seq<Participant<E>>, c: string, d: string)
    requires UniqueIdentities(ps) && c in ById(ps) && d in ById(ps)
    ensures ById(ps)[c].identity.reference == ById(ps)[d].identity.reference ==> c == d
  {
    hide ById;
    ByIdFinds(ps);
    var i :| 0 <= i < |ps| && ps[i] == ById(ps)[c];
    var j :| 0 <= j < |ps| && ps[j] == ById(ps)[d];
    assert i < j || j < i || i == j;
  }

  /** An event of attacks that its constructor accepts lists participants, and attacks by their
      attackers, in the order of references. */
  lemma AttackEventOrdered(t: Attacks.Transition, i: nat, j: nat)
    requires Attacks.ValidTransition(t) && i < j
    ensures j < |t.participants| ==>
              StrLess(t.participants[i].identity.reference, t.participants[j].identity.reference)
    ensures j < |t.assignments| ==>
              var x, y, byId := t.assignments[i], t.assignments[j], ById(t.participants);
              && x.attacker in byId && y.attacker in byId
              && StrLess(byId[x.attacker].identity.reference, byId[y.attacker].identity.reference)
  {
    hide KeyLess, Sort, ParticipantKey, Attacks.AssignmentKey, ById, UniqueIdentities, Sealed, StrLess;
    if j < |t.participants| { ParticipantsAscend(t.participants, i, j); }
    if j < |t.assignments| {
      Attacks.ValidIsCoherent(t);
      AttackKeysDiffer(t);
      var key := Attacks.AssignmentKey(ById(t.participants));
      SortByUniqueKey(key, t.assignments);
      assert ByKey(key)(t.assignments[i], t.assignments[j]);
      Attacks.Closed(t, i);
      Attacks.Closed(t, j);
      AttackEventSteps(t, t.assignments[i], t.assignments[j]);
    }
  }

  lemma AttackKeysDiffer(t: Attacks.Transition)
    requires Attacks.Coherent(t)
    ensures UniqueKeys(Attacks.AssignmentKey(ById(t.participants)), t.assignments)
  {
    hide ById, Ids, UniqueIdentities;
    var key := Attacks.AssignmentKey(ById(t.participants));
    forall k, l | 0 <= k < l < |t.assignments| ensures key(t.assignments[k]) != key(t.assignments[l]) {
      assert key(t.assignments[k]).parts[1] != key(t.assignments[l]).parts[1];
    }
  }

  lemma AttackEventSteps(t: Attacks.Transition, x: Attacks.Assignment, y: Attacks.Assignment)
    requires UniqueIdentities(t.participants) && x.attacker != y.attacker
    requires var byId := ById(t.participants);
             && x.attacker in byId && y.attacker in byId
             && KeyLess(Attacks.AssignmentKey(byId)(x), Attacks.AssignmentKey(byId)(y))
    ensures var byId := ById(t.participants);
            StrLess(byId[x.attacker].identity.reference, byId[y.attacker].identity.reference)
  {
    hide ById, StrLess;
    var byId := ById(t.participants);
    var p, q := Attacks.AssignmentKey(byId)(x).parts, Attacks.AssignmentKey(byId)(y).parts;
    TupLessStep(p, q);
    ReferenceDecides(t.participants, x.attacker, y.attacker);
  }
}

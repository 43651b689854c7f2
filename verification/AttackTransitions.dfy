/** Attack transitions: capturing one canonical event when attackers are declared. An event is
    identified by its contents. */
module AttackTransitions {
  import opened Wrappers
  import opened Orders
  import opened KeywordTriggers
  import opened Participants

  datatype Aspect = Aspect(isCreature: bool, power: Option<int>)

  type Creature = Participant<Aspect>

  datatype RecipientKind = Player | Planeswalker | Battle

  datatype Recipient = Recipient(kind: RecipientKind, reference: string, defendingPlayer: string,
                                 logicalId: Option<string>)

  /** What the recipient constructor accepts. */
  predicate ValidRecipient(r: Recipient) {
    && r.reference != "" && r.defendingPlayer != ""
    && if r.kind == Player then r.logicalId.None? && r.reference == r.defendingPlayer
       else r.logicalId.Some? && r.logicalId.value != ""
  }

  datatype Assignment = Assignment(attacker: string, recipient: Recipient)

  datatype Transition = Transition(turn: int, epoch: int, activePlayer: string,
                                   participants: seq<Creature>, assignments: seq<Assignment>)

  // ----- sealed events -----

  predicate AttackKind(k: Kind) {
    k == Exalted || k == BattleCry || k == Melee || k == Mentor || k == Dethrone || k == Training
  }

  predicate AttackSpecs(p: Creature) {
    forall i :: 0 <= i < |p.specs| ==> AttackKind(p.specs[i].kind)
  }

  function AssignmentKey(byId: map<string, Creature>): Assignment -> Key {
    (x: Assignment) => Tup([Str(Reference(byId, x.attacker)), Str(x.attacker)])
  }

  predicate OneRecipientEach(xs: seq<Assignment>) {
    forall i, j :: 0 <= i < j < |xs| ==> xs[i].attacker != xs[j].attacker
  }

  function AttackerIds(xs: seq<Assignment>): set<string> {
    set i | 0 <= i < |xs| :: xs[i].attacker
  }

  predicate Declarable(byId: map<string, Creature>, player: string, x: Assignment) {
    && x.attacker in byId && byId[x.attacker].controller == player && byId[x.attacker].aspect.isCreature
    && ValidRecipient(x.recipient) && x.recipient.defendingPlayer != player
  }

  /** The active player's, and either attacking or with something that may trigger. */
  predicate Represented(p: Creature, player: string, attackers: set<string>) {
    && Sealed(p) && AttackSpecs(p) && p.controller == player
    && (p.identity.objectId in attackers || p.specs != [])
  }

  /** What the event constructor accepts. */
  predicate ValidTransition(t: Transition) {
    && t.turn >= 0 && t.epoch >= 0 && t.activePlayer != ""
    && t.participants != [] && t.assignments != []
    && UniqueIdentities(t.participants)
    && OneRecipientEach(t.assignments)
    && (forall i :: 0 <= i < |t.assignments| ==> Declarable(ById(t.participants), t.activePlayer, t.assignments[i]))
    && (forall i :: 0 <= i < |t.participants| ==>
        Represented(t.participants[i], t.activePlayer, AttackerIds(t.assignments)))
    && t.participants == Sort(ByKey(ParticipantKey), t.participants)
    && t.assignments == Sort(ByKey(AssignmentKey(ById(t.participants))), t.assignments)
  }

  /** What the derivation needs of an event: known, distinct participants, with every attacker
      among them declared once. */
  predicate Coherent(t: Transition) {
    && UniqueIdentities(t.participants)
    && OneRecipientEach(t.assignments)
    && AttackerIds(t.assignments) <= Ids(t.participants)
    && forall i :: 0 <= i < |t.participants| ==> Known(t.participants[i])
  }

  lemma ValidIsCoherent(t: Transition)
    requires ValidTransition(t)
    ensures Coherent(t)
  {
    hide UniqueIdentities, OneRecipientEach, Sort, ById, AssignmentKey, ParticipantKey, Known, AttackSpecs,
         ValidRecipient;
    forall i | 0 <= i < |t.participants| ensures Known(t.participants[i]) {
      assert Represented(t.participants[i], t.activePlayer, AttackerIds(t.assignments));
    }
    forall i | 0 <= i < |t.assignments| ensures t.assignments[i].attacker in Ids(t.participants) {
      assert Declarable(ById(t.participants), t.activePlayer, t.assignments[i]);
      UniqueIndex(t.participants);
    }
  }

  lemma UniqueIndex(ps: seq<Creature>)
    requires UniqueIdentities(ps)
    ensures forall id :: id in ById(ps) <==> id in Ids(ps)
  {
    hide ById, Ids;
    IdsAre(ps);
    ByIdFinds(ps);
  }

  /** Every attacker is a participant. */
  lemma Closed(t: Transition, k: nat)
    requires Coherent(t) && k < |t.assignments|
    ensures var byId, x := ById(t.participants), t.assignments[k];
            && x.attacker in byId && byId[x.attacker] in t.participants
               && byId[x.attacker].identity.objectId == x.attacker
  {
    hide Known, ById;
    IdsAre(t.participants);
    ByIdFinds(t.participants);
    assert t.assignments[k].attacker in AttackerIds(t.assignments);
  }

  // ----- capturing -----

  /** What the engine answers while a transition is captured. */
  datatype Query = Query(turn: int, epoch: int, activePlayer: string, attackers: seq<string>, sources: seq<string>,
                         participant: Answers<Aspect>, recipient: string -> Recipient)

  predicate CleanQuery(q: Query) {
    CleanIds(q.attackers) && CleanIds(q.sources)
  }

  function Involved(q: Query): set<string> {
    (set a | a in q.attackers) + (set s | s in q.sources)
  }

  /** The declared attacks. */
  function Declared(q: Query): set<Assignment> {
    set a | a in q.attackers :: Assignment(a, q.recipient(a))
  }

  function DeclarationKey(q: Query): Assignment -> Key {
    AssignmentKey(CapturedById(q.participant, Involved(q)))
  }

  lemma KeysIdentify(q: Query)
    ensures InjectiveOn(DeclarationKey(q), Declared(q))
  {
    hide Reference;
    var key := DeclarationKey(q);
    forall x, y | x in Declared(q) && y in Declared(q) && key(x) == key(y) ensures x == y {
      assert key(x).parts[1] == key(y).parts[1];
    }
  }

  /** The event a query describes: its attacks and participants in canonical order. */
  function Described(q: Query): Transition
    requires Steady(q.participant, Involved(q))
  {
    KeysIdentify(q);
    Transition(q.turn, q.epoch, q.activePlayer, InOrder(q.participant, Involved(q)),
               SortSet(DeclarationKey(q), Declared(q)))
  }

  function Outcome(q: Query): Result<Option<Transition>, Error> {
    if !CleanQuery(q) then Err(Malformed)
    else if q.attackers == [] then Ok(None)
    else if Steady(q.participant, Involved(q)) && ValidTransition(Described(q)) then Ok(Some(Described(q)))
    else Err(Malformed)
  }

  predicate MayAttack(q: Query, a: string) {
    && q.participant(a).aspect.isCreature
    && ValidRecipient(q.recipient(a)) && q.recipient(a).defendingPlayer != q.activePlayer
  }

  predicate MayTrigger(q: Query, id: string) {
    && AttackSpecs(q.participant(id)) && q.participant(id).controller == q.activePlayer
    && (id in q.attackers || q.participant(id).specs != [])
  }

  /** What can be asked of the answers themselves before capturing. */
  predicate Admissible(q: Query) {
    && q.turn >= 0 && q.epoch >= 0 && q.activePlayer != ""
    && UniqueAnswers(q.participant, Involved(q))
    && (forall a :: a in q.attackers ==> MayAttack(q, a))
    && (forall id :: id in Involved(q) ==> MayTrigger(q, id))
  }

  lemma OutcomeCases(q: Query)
    ensures !CleanQuery(q) ==> Outcome(q) == Err(Malformed)
    ensures CleanQuery(q) && q.attackers == [] ==> Outcome(q) == Ok(None)
    ensures CleanQuery(q) && q.attackers != [] && !Steady(q.participant, Involved(q)) ==> Outcome(q) == Err(Malformed)
    ensures CleanQuery(q) && q.attackers != [] && Steady(q.participant, Involved(q)) ==>
              Outcome(q) == if ValidTransition(Described(q)) then Ok(Some(Described(q))) else Err(Malformed)
  {
  }

  lemma DescribedIs(q: Query)
    requires Steady(q.participant, Involved(q))
    ensures InjectiveOn(DeclarationKey(q), Declared(q))
    ensures Described(q) == Transition(q.turn, q.epoch, q.activePlayer, InOrder(q.participant, Involved(q)),
                                       SortSet(DeclarationKey(q), Declared(q)))
  {
    KeysIdentify(q);
  }

  lemma AttackersListed(q: Query, xs: seq<Assignment>)
    requires Distinct(xs) && forall x :: x in xs <==> x in Declared(q)
    ensures OneRecipientEach(xs) && AttackerIds(xs) == (set a | a in q.attackers)
  {
    forall i | 0 <= i < |xs| ensures xs[i].attacker in q.attackers && xs[i].recipient == q.recipient(xs[i].attacker) {
      assert xs[i] in Declared(q);
    }
    forall a | a in q.attackers ensures a in AttackerIds(xs) {
      var x := Assignment(a, q.recipient(a));
      assert x in Declared(q);
      var i :| 0 <= i < |xs| && xs[i] == x;
    }
  }

  lemma InvolvedIs(q: Query)
    ensures forall id :: id in Involved(q) <==> id in q.attackers || id in q.sources
    ensures DeclarationKey(q) == AssignmentKey(CapturedById(q.participant, Involved(q)))
  {
  }

  /** The constructor accepts what was captured exactly when the answers are admissible;
      closure and canonical order never fail. */
  lemma AcceptedIff(q: Query)
    ensures Outcome(q).Ok? <==>
              CleanQuery(q) && (q.attackers == [] || (Steady(q.participant, Involved(q)) && Admissible(q)))
  {
    hide UniqueIdentities, OneRecipientEach, Sort, ById, AssignmentKey, ParticipantKey, Declarable,
         Represented, UniqueAnswers, MayAttack, MayTrigger, Declared, Involved, Described, Outcome, CleanQuery, Steady,
         CapturedById, DeclarationKey, Lists, InOrder, UniqueObjects;
    OutcomeCases(q);
    if CleanQuery(q) && q.attackers != [] && Steady(q.participant, Involved(q)) {
      var t, f, ids := Described(q), q.participant, Involved(q);
      DescribedIs(q);
      InvolvedIs(q);
      OrderedFacts(f, ids);
      SortedSetFacts(DeclarationKey(q), Declared(q));
      AttackersListed(q, t.assignments);
      UniqueIff(f, ids, t.participants);
      var a := q.attackers[0];
      assert a in q.attackers && a in Ids(t.participants) && a in AttackerIds(t.assignments);
      RepresentedIff(q, t.participants);
      if ValidTransition(t) || Admissible(q) {
        DeclarableIff(q, t.assignments);
      }
    }
  }

  /** All attacks are declarable exactly when every attacker may attack, given that all
      participants are the active player's. */
  lemma DeclarableIff(q: Query, xs: seq<Assignment>)
    requires forall x :: x in xs <==> x in Declared(q)
    requires forall id :: id in Involved(q) ==> MayTrigger(q, id)
    ensures (forall i :: 0 <= i < |xs| ==> Declarable(CapturedById(q.participant, Involved(q)), q.activePlayer, xs[i]))
            <==> forall a :: a in q.attackers ==> MayAttack(q, a)
  {
    InvolvedIs(q);
    forall a | a in q.attackers
      ensures Declarable(CapturedById(q.participant, Involved(q)), q.activePlayer, Assignment(a, q.recipient(a)))
              <==> MayAttack(q, a)
    {
    }
    DeclaredEach(q, xs);
  }

  lemma DeclaredEach(q: Query, xs: seq<Assignment>)
    requires forall x :: x in xs <==> x in Declared(q)
    ensures forall i :: 0 <= i < |xs| ==>
              xs[i].attacker in q.attackers && xs[i] == Assignment(xs[i].attacker, q.recipient(xs[i].attacker))
    ensures forall a :: a in q.attackers ==> Assignment(a, q.recipient(a)) in xs
  {
    forall i | 0 <= i < |xs|
      ensures xs[i].attacker in q.attackers && xs[i] == Assignment(xs[i].attacker, q.recipient(xs[i].attacker))
    {
      assert xs[i] in Declared(q);
    }
    forall a | a in q.attackers ensures Assignment(a, q.recipient(a)) in xs {
      assert Assignment(a, q.recipient(a)) in Declared(q);
    }
  }

  lemma RepresentedIff(q: Query, ps: seq<Creature>)
    requires Steady(q.participant, Involved(q)) && Lists(q.participant, Involved(q), ps)
    ensures (forall i :: 0 <= i < |ps| ==> Represented(ps[i], q.activePlayer, set a | a in q.attackers))
            <==> forall id :: id in Involved(q) ==> MayTrigger(q, id)
  {
    ListedBoth(q.participant, Involved(q), ps);
    forall i | 0 <= i < |ps|
      ensures Represented(ps[i], q.activePlayer, set a | a in q.attackers) <==> MayTrigger(q, ps[i].identity.objectId)
    {
      SteadyAt(q.participant, Involved(q), ps[i].identity.objectId);
    }
  }

  lemma ListedBoth(f: Answers<Aspect>, ids: set<string>, ps: seq<Creature>)
    requires Lists(f, ids, ps)
    ensures forall i :: 0 <= i < |ps| ==> ps[i].identity.objectId in ids && ps[i] == f(ps[i].identity.objectId)
    ensures forall id :: id in ids ==> exists i :: 0 <= i < |ps| && ps[i].identity.objectId == id
  {
    hide Occurs;
    forall id | id in ids ensures exists i :: 0 <= i < |ps| && ps[i].identity.objectId == id {
      OccursAt(f, id, ps);
    }
  }

  /** What is captured does not depend on the order in which attackers or trigger sources are
      listed. */
  lemma EnumerationIsIrrelevant(q: Query, r: Query)
    requires (q.turn, q.epoch, q.activePlayer) == (r.turn, r.epoch, r.activePlayer)
    requires q.participant == r.participant && q.recipient == r.recipient
    requires multiset(q.attackers) == multiset(r.attackers) && multiset(q.sources) == multiset(r.sources)
    ensures Outcome(q) == Outcome(r)
  {
    hide *;
    assert CleanQuery(q) == CleanQuery(r) by { SameClean(q, r); }
    SameSets(q, r);
    InvolvedIs(q);
    InvolvedIs(r);
    if Steady(q.participant, Involved(q)) {
      DescribedIs(q);
      DescribedIs(r);
    }
    OutcomeCases(q);
    OutcomeCases(r);
  }

  lemma SameClean(q: Query, r: Query)
    requires multiset(q.attackers) == multiset(r.attackers) && multiset(q.sources) == multiset(r.sources)
    ensures CleanQuery(q) == CleanQuery(r)
  {
    CleanPermutes(q.attackers, r.attackers);
    CleanPermutes(q.sources, r.sources);
  }

  lemma SameSets(q: Query, r: Query)
    requires multiset(q.attackers) == multiset(r.attackers) && multiset(q.sources) == multiset(r.sources)
    requires q.recipient == r.recipient
    ensures Involved(q) == Involved(r) && Declared(q) == Declared(r) && (q.attackers == [] <==> r.attackers == [])
  {
    SameMultiset(q.attackers, r.attackers);
    SameMultiset(q.sources, r.sources);
    assert |multiset(q.attackers)| == |q.attackers| && |multiset(r.attackers)| == |r.attackers|;
  }

  // ----- the capturing loops -----

  /** Pairs every attacker with its recipient. */
  method DeclaredAttacks(q: Query) returns (xs: seq<Assignment>)
    requires CleanQuery(q)
    ensures Distinct(xs) && forall x :: x in xs <==> x in Declared(q)
  {
    xs := [];
    for k := 0 to |q.attackers|
      invariant |xs| == k && forall i :: 0 <= i < k ==> xs[i] == Assignment(q.attackers[i], q.recipient(q.attackers[i]))
    {
      xs := xs + [Assignment(q.attackers[k], q.recipient(q.attackers[k]))];
    }
    forall x ensures x in xs <==> x in Declared(q) {
      if x in Declared(q) {
        var i :| 0 <= i < |q.attackers| && q.attackers[i] == x.attacker;
        assert xs[i] == x;
      }
    }
  }

  /** Captures one canonical event after attackers are declared; none when nothing attacks. */
  method Build(q: Query) returns (r: Result<Option<Transition>, Error>)
    ensures r == Outcome(q)
  {
    hide *;
    OutcomeCases(q);
    if !CleanQuery(q) { return Err(Malformed); }
    if q.attackers == [] { return Ok(None); }
    InvolvedIs(q);
    var ids := (set a | a in q.attackers) + (set s | s in q.sources);
    assert ids == Involved(q);
    var captured := Capture(q.participant, ids);
    if captured.Err? { return Err(Malformed); }
    var (participants, byId) := captured.value;
    var xs := DeclaredAttacks(q);
    DescribedIs(q);
    SortOfListing(DeclarationKey(q), xs, Declared(q));
    var assignments := Sort(ByKey(AssignmentKey(byId)), xs);
    var t := Transition(q.turn, q.epoch, q.activePlayer, participants, assignments);
    if !ValidTransition(t) { return Err(Malformed); }
    return Ok(Some(t));
  }
}

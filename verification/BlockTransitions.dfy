/** Block transitions: capturing one canonical event when blocks are declared. An event is
    identified by its contents. */
module BlockTransitions {
  import opened Wrappers
  import opened Orders
  import opened KeywordTriggers
  import opened Participants

  /** Block participants record nothing beyond what every participant does. */
  type Creature = Participant<()>

  datatype Assignment = Assignment(attacker: string, blocker: string)

  datatype Transition = Transition(turn: int, epoch: int, activePlayer: string,
                                   participants: seq<Creature>, assignments: seq<Assignment>)

  // ----- sealed events -----

  function AssignmentKey(byId: map<string, Creature>): Assignment -> Key {
    (x: Assignment) => Tup([Str(Reference(byId, x.attacker)), Str(Reference(byId, x.blocker)), Str(x.attacker),
                            Str(x.blocker)])
  }

  predicate OneAttackerEach(xs: seq<Assignment>) {
    forall i, j :: 0 <= i < j < |xs| ==> xs[i].blocker != xs[j].blocker
  }

  function Named(xs: seq<Assignment>): set<string> {
    if xs == [] then {} else Named(xs[..|xs| - 1]) + {xs[|xs| - 1].attacker, xs[|xs| - 1].blocker}
  }

  lemma {:induction false} NamedBy(xs: seq<Assignment>)
    ensures forall id :: id in Named(xs) <==> exists x :: x in xs && (x.attacker == id || x.blocker == id)
  {
    if xs == [] {
    } else {
      var n := |xs| - 1;
      NamedBy(xs[..n]);
      assert xs == xs[..n] + [xs[n]];
    }
  }

  predicate Declarable(byId: map<string, Creature>, player: string, x: Assignment) {
    x.attacker != x.blocker && x.attacker in byId && byId[x.attacker].controller == player
  }

  /** What the event constructor accepts. */
  predicate ValidTransition(t: Transition) {
    && t.turn >= 0 && t.epoch >= 0 && t.activePlayer != ""
    && t.participants != [] && t.assignments != []
    && (forall i :: 0 <= i < |t.participants| ==> Sealed(t.participants[i]))
    && UniqueIdentities(t.participants)
    && OneAttackerEach(t.assignments)
    && Ids(t.participants) == Named(t.assignments)
    && t.participants == Sort(ByKey(ParticipantKey), t.participants)
    && t.assignments == Sort(ByKey(AssignmentKey(ById(t.participants))), t.assignments)
    && forall i :: 0 <= i < |t.assignments| ==> Declarable(ById(t.participants), t.activePlayer, t.assignments[i])
  }

  /** What the derivation needs of an event: closed relationships between known, distinct
      participants. */
  predicate Coherent(t: Transition) {
    && UniqueIdentities(t.participants)
    && OneAttackerEach(t.assignments)
    && Ids(t.participants) == Named(t.assignments)
    && (forall i :: 0 <= i < |t.participants| ==> Known(t.participants[i]))
    && (forall i :: 0 <= i < |t.assignments| ==> t.assignments[i].attacker != t.assignments[i].blocker)
  }

  lemma ValidIsCoherent(t: Transition)
    requires ValidTransition(t)
    ensures Coherent(t)
  {
    hide UniqueIdentities, OneAttackerEach, Named, Ids, Sort, ById, AssignmentKey, ParticipantKey, Known;
    forall i | 0 <= i < |t.assignments| ensures t.assignments[i].attacker != t.assignments[i].blocker {
      assert Declarable(ById(t.participants), t.activePlayer, t.assignments[i]);
    }
  }

  /** Both sides of every assignment are participants. */
  lemma Closed(t: Transition, k: nat)
    requires Coherent(t) && k < |t.assignments|
    ensures var byId, x := ById(t.participants), t.assignments[k];
            && x.attacker in byId && x.blocker in byId
            && byId[x.attacker] in t.participants && byId[x.blocker] in t.participants
            && byId[x.attacker].identity.objectId == x.attacker && byId[x.blocker].identity.objectId == x.blocker
  {
    hide Known, ById, Ids, Named;
    ByIdFinds(t.participants);
    IdsAre(t.participants);
    NamedBy(t.assignments);
    var x := t.assignments[k];
    assert x in t.assignments;
    assert x.attacker in Named(t.assignments) && x.blocker in Named(t.assignments);
    assert x.attacker in Ids(t.participants) && x.blocker in Ids(t.participants);
  }

  // ----- capturing -----

  /** What the engine answers while a transition is captured. */
  datatype Query = Query(turn: int, epoch: int, activePlayer: string, attackers: seq<string>,
                         blockers: string -> seq<string>, participant: Answers<()>)

  predicate CleanQuery(q: Query) {
    CleanIds(q.attackers) && forall i :: 0 <= i < |q.attackers| ==> CleanIds(q.blockers(q.attackers[i]))
  }

  /** The declared blocks. */
  function Relations(q: Query): set<Assignment> {
    set a, b | a in q.attackers && b in q.blockers(a) :: Assignment(a, b)
  }

  function InvolvedIn(xs: set<Assignment>): set<string> {
    (set x | x in xs :: x.attacker) + (set x | x in xs :: x.blocker)
  }

  function Involved(q: Query): set<string> {
    InvolvedIn(Relations(q))
  }

  function RelationKey(q: Query): Assignment -> Key {
    AssignmentKey(CapturedById(q.participant, Involved(q)))
  }

  lemma KeysIdentify(q: Query)
    ensures InjectiveOn(RelationKey(q), Relations(q))
  {
    hide Relations, Reference;
    var key := RelationKey(q);
    forall x, y | x in Relations(q) && y in Relations(q) && key(x) == key(y) ensures x == y {
      assert key(x).parts[2] == key(y).parts[2] && key(x).parts[3] == key(y).parts[3];
    }
  }

  /** The event a query describes: its relations and participants in canonical order. */
  function Described(q: Query): Transition
    requires Steady(q.participant, Involved(q))
  {
    KeysIdentify(q);
    Transition(q.turn, q.epoch, q.activePlayer, InOrder(q.participant, Involved(q)),
               SortSet(RelationKey(q), Relations(q)))
  }

  function Outcome(q: Query): Result<Option<Transition>, Error> {
    if !CleanQuery(q) then Err(Malformed)
    else if Relations(q) == {} then Ok(None)
    else if Steady(q.participant, Involved(q)) && ValidTransition(Described(q)) then Ok(Some(Described(q)))
    else Err(Malformed)
  }

  /** One attacker for each blocker. */
  predicate SingleAttackers(q: Query) {
    forall x, y :: x in Relations(q) && y in Relations(q) && x.blocker == y.blocker ==> x == y
  }

  predicate AttackersHeld(q: Query) {
    forall x :: x in Relations(q) ==> x.attacker != x.blocker && q.participant(x.attacker).controller == q.activePlayer
  }

  /** What can be asked of the answers themselves before capturing. */
  predicate Admissible(q: Query) {
    && q.turn >= 0 && q.epoch >= 0 && q.activePlayer != ""
    && UniqueAnswers(q.participant, Involved(q)) && SingleAttackers(q) && AttackersHeld(q)
  }

  lemma DescribedIs(q: Query)
    requires Steady(q.participant, Involved(q))
    ensures InjectiveOn(RelationKey(q), Relations(q))
    ensures Described(q) == Transition(q.turn, q.epoch, q.activePlayer, InOrder(q.participant, Involved(q)),
                                       SortSet(RelationKey(q), Relations(q)))
  {
    KeysIdentify(q);
  }

  lemma InvolvedIs(q: Query)
    ensures Involved(q) == InvolvedIn(Relations(q))
    ensures RelationKey(q) == AssignmentKey(CapturedById(q.participant, Involved(q)))
  {
  }

  lemma NamedAre(xs: seq<Assignment>, rel: set<Assignment>)
    requires forall x :: x in xs <==> x in rel
    ensures Named(xs) == InvolvedIn(rel)
  {
    hide Named;
    NamedBy(xs);
  }

  /** The constructor accepts what was captured exactly when the answers are admissible;
      closure and canonical order never fail. */
  lemma AcceptedIff(q: Query)
    ensures Outcome(q).Ok? <==>
              CleanQuery(q) && (Relations(q) == {} || (Steady(q.participant, Involved(q)) && Admissible(q)))
  {
    hide UniqueIdentities, OneAttackerEach, Named, Ids, Sort, ById, AssignmentKey, ParticipantKey, Sealed, Declarable,
         UniqueAnswers, SingleAttackers, AttackersHeld, Relations, Involved, Described, Outcome, CleanQuery, Steady,
         CapturedById, RelationKey, Lists, InOrder, UniqueObjects;
    OutcomeCases(q);
    if CleanQuery(q) && Relations(q) != {} && Steady(q.participant, Involved(q)) {
      var t := Described(q);
      DescribedIs(q);
      InvolvedIs(q);
      OrderedFacts(q.participant, Involved(q));
      SortedSetFacts(RelationKey(q), Relations(q));
      NamedAre(t.assignments, Relations(q));
      UniqueIff(q.participant, Involved(q), t.participants);
      SingleIff(q, t.assignments);
      HeldIff(q, t.assignments);
      var x :| x in Relations(q);
      assert x in t.assignments;
      AttackerInvolved(q, x);
      IdsOfNone();
    }
  }

  lemma SingleIff(q: Query, xs: seq<Assignment>)
    requires Distinct(xs) && forall x :: x in xs <==> x in Relations(q)
    ensures OneAttackerEach(xs) <==> SingleAttackers(q)
  {
    hide Relations;
    if OneAttackerEach(xs) {
      forall x, y | x in Relations(q) && y in Relations(q) && x.blocker == y.blocker ensures x == y {
        assert x in xs && y in xs;
      }
    } else {
      var i, j :| 0 <= i < j < |xs| && xs[i].blocker == xs[j].blocker;
      assert xs[i] in xs && xs[j] in xs;
    }
  }

  lemma HeldIff(q: Query, xs: seq<Assignment>)
    requires forall x :: x in xs <==> x in Relations(q)
    ensures AttackersHeld(q) <==>
              forall i :: 0 <= i < |xs| ==> Declarable(CapturedById(q.participant, Involved(q)), q.activePlayer, xs[i])
  {
    var byId := CapturedById(q.participant, Involved(q));
    forall x | x in Relations(q)
      ensures Declarable(byId, q.activePlayer, x) <==>
                x.attacker != x.blocker && q.participant(x.attacker).controller == q.activePlayer
    {
    }
    if !AttackersHeld(q) {
      var x :| x in Relations(q)
        && !(x.attacker != x.blocker && q.participant(x.attacker).controller == q.activePlayer);
      assert x in xs;
    } else {
      forall i | 0 <= i < |xs| ensures Declarable(byId, q.activePlayer, xs[i]) {
        assert xs[i] in xs;
      }
    }
  }

  lemma AttackerInvolved(q: Query, x: Assignment)
    requires x in Relations(q)
    ensures x.attacker in Involved(q) && x.blocker in Involved(q)
  {
    hide Relations;
  }

  lemma IdsOfNone()
    ensures Ids<()>([]) == {}
  {
  }

  /** What is captured does not depend on the order in which attackers or blockers are listed. */
  lemma EnumerationIsIrrelevant(q: Query, r: Query)
    requires (q.turn, q.epoch, q.activePlayer) == (r.turn, r.epoch, r.activePlayer) && q.participant == r.participant
    requires multiset(q.attackers) == multiset(r.attackers)
    requires forall a :: a in q.attackers ==> multiset(q.blockers(a)) == multiset(r.blockers(a))
    ensures Outcome(q) == Outcome(r)
  {
    hide *;
    SameClean(q, r);
    SameRelations(q, r);
    InvolvedIs(q);
    InvolvedIs(r);
    if Steady(q.participant, Involved(q)) {
      DescribedIs(q);
      DescribedIs(r);
    }
    OutcomeCases(q);
    OutcomeCases(r);
  }

  lemma SameRelations(q: Query, r: Query)
    requires multiset(q.attackers) == multiset(r.attackers)
    requires forall a :: a in q.attackers ==> multiset(q.blockers(a)) == multiset(r.blockers(a))
    ensures Relations(q) == Relations(r)
  {
    SameMultiset(q.attackers, r.attackers);
    forall a | a in q.attackers ensures SameElements(q.blockers(a), r.blockers(a)) {
      SameMultiset(q.blockers(a), r.blockers(a));
    }
    forall x ensures x in Relations(q) <==> x in Relations(r) {
    }
  }

  lemma SameClean(q: Query, r: Query)
    requires multiset(q.attackers) == multiset(r.attackers)
    requires forall a :: a in q.attackers ==> multiset(q.blockers(a)) == multiset(r.blockers(a))
    ensures CleanQuery(q) == CleanQuery(r)
  {
    hide CleanIds;
    SameMultiset(q.attackers, r.attackers);
    CleanPermutes(q.attackers, r.attackers);
    forall a | a in q.attackers ensures CleanIds(q.blockers(a)) == CleanIds(r.blockers(a)) {
      CleanPermutes(q.blockers(a), r.blockers(a));
    }
    CleanAre(q);
    CleanAre(r);
  }

  lemma CleanAre(q: Query)
    ensures CleanQuery(q) <==> CleanIds(q.attackers) && forall a :: a in q.attackers ==> CleanIds(q.blockers(a))
  {
    hide CleanIds;
    if CleanQuery(q) {
      forall a | a in q.attackers ensures CleanIds(q.blockers(a)) {
        var i :| 0 <= i < |q.attackers| && q.attackers[i] == a;
      }
    }
  }

  // ----- the capturing loops -----

  function Blocks(attacker: string, blockers: seq<string>): seq<Assignment> {
    seq(|blockers|, i requires 0 <= i < |blockers| => Assignment(attacker, blockers[i]))
  }

  /** `xs` lists the blocks against the first `k` attackers, each once. */
  ghost predicate ListsBlocks(q: Query, k: nat, xs: seq<Assignment>)
    requires k <= |q.attackers|
  {
    Distinct(xs) && forall x :: x in xs <==> x.attacker in q.attackers[..k] && x.blocker in q.blockers(x.attacker)
  }

  lemma ListsOneMore(q: Query, k: nat, xs: seq<Assignment>)
    requires k < |q.attackers| && ListsBlocks(q, k, xs) && CleanIds(q.attackers) && CleanIds(q.blockers(q.attackers[k]))
    ensures var a := q.attackers[k]; ListsBlocks(q, k + 1, xs + Blocks(a, q.blockers(a)))
  {
    var a := q.attackers[k];
    var bs := q.blockers(a);
    var added := Blocks(a, bs);
    forall x ensures x in added <==> x.attacker == a && x.blocker in bs {
      if x.attacker == a && x.blocker in bs {
        var i :| 0 <= i < |bs| && bs[i] == x.blocker;
        assert added[i] == x;
      }
    }
    assert q.attackers[..k + 1] == q.attackers[..k] + [a];
    assert a !in q.attackers[..k];
    ConcatDistinct(xs, added);
  }

  lemma InvolvedGrows(xs: seq<Assignment>, a: string, bs: seq<string>)
    ensures InvolvedIn(set x | x in xs + Blocks(a, bs)) ==
            InvolvedIn(set x | x in xs) + if bs == [] then {} else {a} + set i | 0 <= i < |bs| :: bs[i]
  {
    var before, after := set x | x in xs, set x | x in xs + Blocks(a, bs);
    forall i | 0 <= i < |bs| ensures Assignment(a, bs[i]) in after {
      assert Blocks(a, bs)[i] in Blocks(a, bs);
    }
    var added: set<string> := if bs == [] then {} else {a} + set i | 0 <= i < |bs| :: bs[i];
    forall id | id in added ensures id in InvolvedIn(after) {
      var k := if id == a then 0 else var i :| 0 <= i < |bs| && bs[i] == id; i;
      assert Assignment(a, bs[k]) in after;
    }
  }

  /** Lists the declared blocks and the objects in them. */
  method DeclaredBlocks(q: Query) returns (r: Result<(seq<Assignment>, set<string>), Error>)
    ensures r.Ok? <==> CleanQuery(q)
    ensures r.Ok? ==>
              && Distinct(r.value.0) && (forall x :: x in r.value.0 <==> x in Relations(q))
              && r.value.1 == Involved(q)
  {
    hide CleanIds;
    if !CleanIds(q.attackers) { return Err(Malformed); }
    var xs: seq<Assignment>, ids: set<string> := [], {};
    for k := 0 to |q.attackers|
      invariant ListsBlocks(q, k, xs) && ids == InvolvedIn(set x | x in xs)
      invariant forall i :: 0 <= i < k ==> CleanIds(q.blockers(q.attackers[i]))
    {
      var a := q.attackers[k];
      var bs := q.blockers(a);
      if !CleanIds(bs) { return Err(Malformed); }
      ListsOneMore(q, k, xs);
      InvolvedGrows(xs, a, bs);
      if bs == [] {
        assert xs + [] == xs;
      } else {
        xs := xs + Blocks(a, bs);
        ids := ids + ({a} + set i | 0 <= i < |bs| :: bs[i]);
      }
    }
    return Ok((xs, ids));
  }

  /** Captures one canonical event after all blocks are declared; none when nothing blocks. */
  method Build(q: Query) returns (r: Result<Option<Transition>, Error>)
    ensures r == Outcome(q)
  {
    hide *;
    OutcomeCases(q);
    var listed := DeclaredBlocks(q);
    if listed.Err? { return Err(Malformed); }
    var (xs, ids) := listed.value;
    if xs == [] { return Ok(None); }
    assert xs[0] in Relations(q);
    var captured := Capture(q.participant, ids);
    if captured.Err? { return Err(Malformed); }
    var (participants, byId) := captured.value;
    InvolvedIs(q);
    DescribedIs(q);
    SortOfListing(RelationKey(q), xs, Relations(q));
    var assignments := Sort(ByKey(AssignmentKey(byId)), xs);
    var t := Transition(q.turn, q.epoch, q.activePlayer, participants, assignments);
    if !ValidTransition(t) { return Err(Malformed); }
    return Ok(Some(t));
  }

  lemma OutcomeCases(q: Query)
    ensures !CleanQuery(q) ==> Outcome(q) == Err(Malformed)
    ensures CleanQuery(q) && Relations(q) == {} ==> Outcome(q) == Ok(None)
    ensures CleanQuery(q) && Relations(q) != {} && !Steady(q.participant, Involved(q)) ==> Outcome(q) == Err(Malformed)
    ensures CleanQuery(q) && Relations(q) != {} && Steady(q.participant, Involved(q)) ==>
              Outcome(q) == if ValidTransition(Described(q)) then Ok(Some(Described(q))) else Err(Malformed)
  {
  }
}

/** The closed combat-damage snapshot (CR 510) and the proposal that each seat draws from it. */
module DamageSnapshot {
  import opened Wrappers
  import opened Orders
  import opened DamageAssignment

  datatype Participant = Participant(
    objectId: string,
    reference: string,
    controller: string,
    power: int,
    toughness: int,
    marked: nat,
    keywords: set<string>,
    assigns: bool,
    logicalId: string)

  datatype RecipientKind = PlayerRecipient | PlaneswalkerRecipient | BattleRecipient

  datatype Recipient = Recipient(
    reference: string,
    logicalId: string,
    controller: string,
    kind: RecipientKind,
    legal: bool,
    objectId: Option<string>)

  datatype Attack = Attack(source: string, recipient: Recipient)

  datatype Block = Block(attacker: string, blocker: string)

  datatype Snapshot = Snapshot(
    stepId: string,
    stepIndex: nat,
    firstStrike: bool,
    activePlayer: string,
    participants: seq<Participant>,
    attacks: seq<Attack>,
    blocks: seq<Block>,
    wasBlocked: set<string>)

  // ----- closure -----

  function Ids(ps: seq<Participant>): (r: seq<string>)
    ensures |r| == |ps| && forall i :: 0 <= i < |ps| ==> r[i] == ps[i].objectId
  {
    seq(|ps|, i requires 0 <= i < |ps| => ps[i].objectId)
  }

  function Refs(ps: seq<Participant>): (r: seq<string>)
    ensures |r| == |ps| && forall i :: 0 <= i < |ps| ==> r[i] == ps[i].reference
  {
    seq(|ps|, i requires 0 <= i < |ps| => ps[i].reference)
  }

  function LogicalIds(ps: seq<Participant>): (r: seq<string>)
    ensures |r| == |ps| && forall i :: 0 <= i < |ps| ==> r[i] == ps[i].logicalId
  {
    seq(|ps|, i requires 0 <= i < |ps| => ps[i].logicalId)
  }

  function AttackIds(attacks: seq<Attack>): (r: seq<string>)
    ensures |r| == |attacks| && forall i :: 0 <= i < |attacks| ==> r[i] == attacks[i].source
  {
    seq(|attacks|, i requires 0 <= i < |attacks| => attacks[i].source)
  }

  predicate ValidParticipant(p: Participant) {
    p.objectId != "" && p.reference != "" && p.controller != "" && p.logicalId != ""
  }

  predicate ValidRecipient(r: Recipient) {
    && r.reference != "" && r.logicalId != "" && r.controller != ""
    && if r.kind.PlayerRecipient? then r.objectId == None else r.objectId.Some? && r.objectId.value != ""
  }

  function Find(ps: seq<Participant>, id: string): (r: Option<Participant>)
    ensures r.Some? ==> r.value in ps && r.value.objectId == id
    ensures r.None? <==> id !in Ids(ps)
  {
    if ps == [] then None
    else if ps[0].objectId == id then Some(ps[0])
    else
      assert Ids(ps) == [ps[0].objectId] + Ids(ps[1..]);
      Find(ps[1..], id)
  }

  predicate DistinctBlocks(blocks: seq<Block>) {
    forall i, j :: 0 <= i < j < |blocks| ==> blocks[i] != blocks[j]
  }

  predicate IsBlocker(s: Snapshot, id: string) {
    exists b :: b in s.blocks && b.blocker == id
  }

  /** Every reference resolves, and every participant has exactly one side of combat. */
  predicate ValidSnapshot(s: Snapshot) {
    && s.stepId != "" && s.activePlayer != ""
    && (forall p :: p in s.participants ==> ValidParticipant(p))
    && (forall a :: a in s.attacks ==> ValidRecipient(a.recipient))
    && Pairwise(Ids(s.participants)) && Pairwise(Refs(s.participants)) && Pairwise(LogicalIds(s.participants))
    && Pairwise(AttackIds(s.attacks))
    && (forall a :: a in s.attacks ==>
          var p := Find(s.participants, a.source); p.Some? && p.value.controller == s.activePlayer)
    && DistinctBlocks(s.blocks)
    && (forall b :: b in s.blocks ==> b.attacker in AttackIds(s.attacks) && Find(s.participants, b.blocker).Some?)
    && (forall b :: b in s.blocks ==> b.blocker !in AttackIds(s.attacks))
    && (forall p :: p in s.participants ==> p.objectId in AttackIds(s.attacks) || IsBlocker(s, p.objectId))
    && (forall id :: id in s.wasBlocked ==> id in AttackIds(s.attacks))
    && forall b :: b in s.blocks ==> b.attacker in s.wasBlocked
  }

  // ----- one seat's proposal -----

  function AttackOf(attacks: seq<Attack>, id: string): (r: Option<Attack>)
    ensures r.Some? ==> r.value in attacks && r.value.source == id
    ensures r.None? <==> id !in AttackIds(attacks)
  {
    if attacks == [] then None
    else if attacks[0].source == id then Some(attacks[0])
    else
      assert AttackIds(attacks) == [attacks[0].source] + AttackIds(attacks[1..]);
      AttackOf(attacks[1..], id)
  }

  /** Blockers of an attacker, in snapshot order. */
  function BlockersOf(ps: seq<Participant>, blocks: seq<Block>, attacker: string): seq<Participant> {
    if blocks == [] then []
    else
      var p := Find(ps, blocks[0].blocker);
      (if blocks[0].attacker == attacker && p.Some? then [p.value] else []) + BlockersOf(ps, blocks[1..], attacker)
  }

  /** Attackers that a blocker blocks, in snapshot order. */
  function BlockedBy(ps: seq<Participant>, blocks: seq<Block>, blocker: string): seq<Participant> {
    if blocks == [] then []
    else
      var p := Find(ps, blocks[0].attacker);
      (if blocks[0].blocker == blocker && p.Some? then [p.value] else []) + BlockedBy(ps, blocks[1..], blocker)
  }

  predicate TramplesOver(s: Snapshot, p: Participant) {
    var attack := AttackOf(s.attacks, p.objectId);
    attack.Some? && p.objectId in s.wasBlocked && "trample" in p.keywords && attack.value.recipient.legal
  }

  /** A blocked attacker damages its blockers, and with trample also a legal recipient; an
      unblocked one its legal recipient; a blocker the attackers it blocks. */
  function TargetsOf(s: Snapshot, p: Participant): seq<string> {
    match AttackOf(s.attacks, p.objectId)
    case Some(attack) =>
      if p.objectId in s.wasBlocked then
        Refs(BlockersOf(s.participants, s.blocks, p.objectId))
        + if TramplesOver(s, p) then [attack.recipient.reference] else []
      else if attack.recipient.legal then [attack.recipient.reference] else []
    case None => Refs(BlockedBy(s.participants, s.blocks, p.objectId))
  }

  function Clamped(power: int): nat {
    if power < 0 then 0 else power
  }

  function SourceOf(s: Snapshot, p: Participant): SourceSpec {
    SourceSpec(p.reference, p.controller, p.logicalId, Clamped(p.power), TargetsOf(s, p))
  }

  function StatesOf(ps: seq<Participant>): (r: seq<Blocker>)
    ensures |r| == |ps| && forall i :: 0 <= i < |ps| ==>
              r[i] == Blocker(ps[i].reference, CreatureState(ps[i].toughness, ps[i].marked))
  {
    seq(|ps|, i requires 0 <= i < |ps| => Blocker(ps[i].reference, CreatureState(ps[i].toughness, ps[i].marked)))
  }

  function TramplerOf(s: Snapshot, p: Participant): TrampleSpec
    requires TramplesOver(s, p)
  {
    TrampleSpec(p.reference, AttackOf(s.attacks, p.objectId).value.recipient.reference,
                StatesOf(BlockersOf(s.participants, s.blocks, p.objectId)))
  }

  predicate Takes(p: Participant, seat: string) {
    p.controller == seat && p.assigns
  }

  function SeatOnly(ps: seq<Participant>, seat: string): (r: seq<Participant>)
    ensures forall p :: p in r <==> p in ps && Takes(p, seat)
  {
    if ps == [] then []
    else
      var n := |ps| - 1;
      SeatOnly(ps[..n], seat) + if Takes(ps[n], seat) then [ps[n]] else []
  }

  function SourcesOf(s: Snapshot, ps: seq<Participant>): (r: seq<SourceSpec>)
    ensures |r| == |ps| && forall i :: 0 <= i < |ps| ==> r[i] == SourceOf(s, ps[i])
  {
    seq(|ps|, i requires 0 <= i < |ps| => SourceOf(s, ps[i]))
  }

  function TramplersOf(s: Snapshot, ps: seq<Participant>): seq<TrampleSpec> {
    if ps == [] then []
    else
      var n := |ps| - 1;
      TramplersOf(s, ps[..n]) + if TramplesOver(s, ps[n]) then [TramplerOf(s, ps[n])] else []
  }

  function AttackingRefs(s: Snapshot, ps: seq<Participant>): (r: set<string>)
    ensures forall a :: a in r ==> a in Refs(ps)
    ensures forall p :: p in ps && AttackOf(s.attacks, p.objectId).Some? ==> p.reference in r
  {
    if ps == [] then {}
    else
      var n := |ps| - 1;
      assert Refs(ps) == Refs(ps[..n]) + [ps[n].reference];
      assert ps == ps[..n] + [ps[n]];
      AttackingRefs(s, ps[..n]) + if AttackOf(s.attacks, ps[n].objectId).Some? then {ps[n].reference} else {}
  }

  function DeathtouchRefs(s: Snapshot, ps: seq<Participant>): (r: set<string>)
    ensures r <= AttackingRefs(s, ps)
  {
    if ps == [] then {}
    else
      var n := |ps| - 1;
      var p := ps[n];
      DeathtouchRefs(s, ps[..n])
      + if AttackOf(s.attacks, p.objectId).Some? && "deathtouch" in p.keywords then {p.reference} else {}
  }

  function DraftOf(s: Snapshot, seat: string): Proposal {
    var ps := SeatOnly(s.participants, seat);
    Proposal(s.stepId, seat, SourcesOf(s, ps),
             AttackingRefs(s, ps), DeathtouchRefs(s, ps), TramplersOf(s, ps))
  }

  /** The seat's proposal, when it passes the proposal's own checks. */
  function ProposalOf(s: Snapshot, seat: string): Option<Proposal> {
    if ValidProposal(DraftOf(s, seat)) then Some(DraftOf(s, seat)) else None
  }

  /** No trampling attacker of the seat would spill onto one of its own blockers. */
  ghost predicate SpillsApart(s: Snapshot, seat: string) {
    forall p :: p in s.participants && Takes(p, seat) && TramplesOver(s, p) ==>
      AttackOf(s.attacks, p.objectId).value.recipient.reference
      !in Refs(BlockersOf(s.participants, s.blocks, p.objectId))
  }

  // ----- the builder's proposal is well formed -----

  lemma RefDecides(ps: seq<Participant>, p: Participant, q: Participant)
    requires p in ps && q in ps
    ensures Pairwise(Refs(ps)) && p.reference == q.reference ==> p == q
    ensures Pairwise(Ids(ps)) && p.objectId == q.objectId ==> p == q
    ensures Pairwise(LogicalIds(ps)) && p.logicalId == q.logicalId ==> p == q
  {
    var i :| 0 <= i < |ps| && ps[i] == p;
    var j :| 0 <= j < |ps| && ps[j] == q;
    if i != j {
      var a, b := if i < j then i else j, if i < j then j else i;
      assert Refs(ps)[a] == ps[a].reference && Refs(ps)[b] == ps[b].reference;
      assert Ids(ps)[a] == ps[a].objectId && Ids(ps)[b] == ps[b].objectId;
      assert LogicalIds(ps)[a] == ps[a].logicalId && LogicalIds(ps)[b] == ps[b].logicalId;
    }
  }

  /** Members of `part` are pairwise different members of `ps`. */
  ghost predicate PartOf(part: seq<Participant>, ps: seq<Participant>) {
    Distinct(part) && forall p :: p in part ==> p in ps
  }

  lemma PartKeepsNames(part: seq<Participant>, ps: seq<Participant>)
    requires PartOf(part, ps) && Pairwise(Refs(ps)) && Pairwise(LogicalIds(ps))
    ensures Pairwise(Refs(part)) && Pairwise(LogicalIds(part))
  {
    forall i, j | 0 <= i < j < |part|
      ensures part[i].reference != part[j].reference && part[i].logicalId != part[j].logicalId
    {
      assert part[i] in part && part[j] in part && part[i] != part[j];
      RefDecides(ps, part[i], part[j]);
    }
  }

  lemma {:induction false} SeatOnlyIsPart(ps: seq<Participant>, seat: string)
    requires Distinct(ps)
    ensures PartOf(SeatOnly(ps, seat), ps)
    decreases |ps|
  {
    if ps == [] {
    } else {
      var n := |ps| - 1;
      SeatOnlyIsPart(ps[..n], seat);
      assert ps[n] !in ps[..n];
    }
  }

  lemma RefsDistinct(ps: seq<Participant>)
    requires Pairwise(Refs(ps))
    ensures Distinct(ps)
  {
    forall i, j | 0 <= i < j < |ps| ensures ps[i] != ps[j] {
      assert Refs(ps)[i] != Refs(ps)[j];
    }
  }

  lemma {:induction false} BlockersArePart(ps: seq<Participant>, blocks: seq<Block>, attacker: string)
    requires DistinctBlocks(blocks)
    ensures PartOf(BlockersOf(ps, blocks, attacker), ps)
    ensures forall p :: p in BlockersOf(ps, blocks, attacker) ==> Block(attacker, p.objectId) in blocks
  {
    if blocks == [] {
    } else {
      BlockersArePart(ps, blocks[1..], attacker);
      assert blocks == [blocks[0]] + blocks[1..];
      assert forall b :: b in blocks[1..] ==> b in blocks;
      assert blocks[0].attacker == attacker ==> blocks[0] == Block(attacker, blocks[0].blocker);
    }
  }

  lemma {:induction false} BlockedArePart(ps: seq<Participant>, blocks: seq<Block>, blocker: string)
    requires DistinctBlocks(blocks)
    ensures PartOf(BlockedBy(ps, blocks, blocker), ps)
    ensures forall p :: p in BlockedBy(ps, blocks, blocker) ==> Block(p.objectId, blocker) in blocks
  {
    if blocks == [] {
    } else {
      BlockedArePart(ps, blocks[1..], blocker);
      assert blocks == [blocks[0]] + blocks[1..];
      assert forall b :: b in blocks[1..] ==> b in blocks;
      assert blocks[0].blocker == blocker ==> blocks[0] == Block(blocks[0].attacker, blocker);
    }
  }

  lemma NamesNonempty(part: seq<Participant>, s: Snapshot)
    requires NamedApart(s) && PartOf(part, s.participants)
    ensures "" !in Refs(part)
  {
    forall i | 0 <= i < |part| ensures Refs(part)[i] != "" {
      assert part[i] in part && ValidParticipant(part[i]);
    }
  }

  /** The targets of a participant are distinct and nonempty, provided a trampler's recipient
      is not also one of its blockers. */
  lemma TargetsAreProper(s: Snapshot, p: Participant)
    requires NamedApart(s) && p in s.participants
    ensures "" !in TargetsOf(s, p)
    ensures Pairwise(TargetsOf(s, p)) <==>
            (TramplesOver(s, p) ==> AttackOf(s.attacks, p.objectId).value.recipient.reference
                                    !in Refs(BlockersOf(s.participants, s.blocks, p.objectId)))
  {
    hide BlockersOf, BlockedBy;
    BlockersArePart(s.participants, s.blocks, p.objectId);
    BlockedArePart(s.participants, s.blocks, p.objectId);
    var blockers, blocked := BlockersOf(s.participants, s.blocks, p.objectId),
      BlockedBy(s.participants, s.blocks, p.objectId);
    NamesNonempty(blockers, s);
    NamesNonempty(blocked, s);
    PartKeepsNames(blockers, s.participants);
    PartKeepsNames(blocked, s.participants);
    var attack := AttackOf(s.attacks, p.objectId);
    if attack.Some? {
      assert ValidRecipient(attack.value.recipient);
      AppendPairwise(Refs(blockers), attack.value.recipient.reference);
      assert Refs(blockers) + [] == Refs(blockers);
    }
  }

  /** Everything in the snapshot has a name of its own; nothing here is said about closure. */
  ghost predicate NamedApart(s: Snapshot) {
    && Pairwise(Ids(s.participants)) && Pairwise(Refs(s.participants)) && Pairwise(LogicalIds(s.participants))
    && DistinctBlocks(s.blocks) && s.stepId != ""
    && (forall a :: a in s.attacks ==> ValidRecipient(a.recipient))
    && (forall p :: p in s.participants ==> ValidParticipant(p))
  }

  lemma SnapshotParts(s: Snapshot)
    requires ValidSnapshot(s)
    ensures NamedApart(s)
  {
  }

  lemma AppendPairwise(xs: seq<string>, x: string)
    requires Pairwise(xs)
    ensures Pairwise(xs + [x]) <==> x !in xs
  {
    if x in xs {
      var i :| 0 <= i < |xs| && xs[i] == x;
      assert (xs + [x])[i] == (xs + [x])[|xs|];
    }
  }

  lemma {:induction false} TramplersMembers(s: Snapshot, ps: seq<Participant>)
    requires Distinct(ps) && Pairwise(Refs(ps))
    ensures forall t :: t in TramplersOf(s, ps) ==> exists p :: p in ps && TramplesOver(s, p) && t == TramplerOf(s, p)
    ensures Pairwise(TramplerNames(TramplersOf(s, ps)))
    decreases |ps|
  {
    hide TramplesOver, TramplerOf;
    if ps == [] {
    } else {
      var n := |ps| - 1;
      assert Refs(ps[..n]) == Refs(ps)[..n];
      TramplersMembers(s, ps[..n]);
      var before := TramplersOf(s, ps[..n]);
      assert forall p :: p in ps[..n] ==> p in ps;
      if TramplesOver(s, ps[n]) {
        TramplerNamed(s, ps[n]);
        forall i | 0 <= i < |before| ensures before[i].attacker != ps[n].reference {
          assert before[i] in before;
          var p :| p in ps[..n] && TramplesOver(s, p) && before[i] == TramplerOf(s, p);
          TramplerNamed(s, p);
          var k :| 0 <= k < n && ps[..n][k] == p;
          assert Refs(ps)[k] != Refs(ps)[n];
        }
      }
    }
  }

  lemma TramplerNamed(s: Snapshot, p: Participant)
    requires TramplesOver(s, p)
    ensures TramplerOf(s, p).attacker == p.reference
  {
  }

  lemma {:induction false} ExceptLast(xs: seq<string>, x: string)
    requires x !in xs
    ensures Except(xs + [x], x) == xs && Except(xs, x) == xs
  {
    if xs == [] {
      assert ([] + [x])[1..] == [];
    } else {
      ExceptLast(xs[1..], x);
      assert (xs + [x])[1..] == xs[1..] + [x];
    }
  }

  lemma TrampleSpecMatches(s: Snapshot, p: Participant, q: Participant)
    requires NamedApart(s) && p in s.participants && q in s.participants && TramplesOver(s, p)
    requires AttackOf(s.attacks, p.objectId).value.recipient.reference
             !in Refs(BlockersOf(s.participants, s.blocks, p.objectId))
    ensures TrampleMatches(TramplerOf(s, p), SourceOf(s, q))
    ensures Pairwise(BlockerNames(TramplerOf(s, p).blockers))
  {
    hide BlockersOf;
    RefDecides(s.participants, p, q);
    var blockers := BlockersOf(s.participants, s.blocks, p.objectId);
    BlockersArePart(s.participants, s.blocks, p.objectId);
    PartKeepsNames(blockers, s.participants);
    assert BlockerNames(StatesOf(blockers)) == Refs(blockers);
    ExceptLast(Refs(blockers), AttackOf(s.attacks, p.objectId).value.recipient.reference);
  }

  /** From a closed snapshot the seat's proposal is well formed exactly when no trampling
      attacker of the seat spills onto its own blocker. */
  lemma ProposalBuildsIff(s: Snapshot, seat: string)
    requires ValidSnapshot(s) && seat != ""
    ensures ProposalOf(s, seat).Some? <==> SpillsApart(s, seat)
  {
    hide ValidSnapshot, NamedApart, TargetsOf, ValidSource;
    SnapshotParts(s);
    if SpillsApart(s, seat) {
      DraftIsValid(s, seat);
    } else if ValidProposal(DraftOf(s, seat)) {
      var p :| p in s.participants && Takes(p, seat) && TramplesOver(s, p)
        && AttackOf(s.attacks, p.objectId).value.recipient.reference
           in Refs(BlockersOf(s.participants, s.blocks, p.objectId));
      CollisionIsRejected(s, seat, p);
      assert false;
    }
  }

  lemma CollisionIsRejected(s: Snapshot, seat: string, p: Participant)
    requires NamedApart(s) && p in s.participants && Takes(p, seat) && TramplesOver(s, p)
    requires AttackOf(s.attacks, p.objectId).value.recipient.reference
             in Refs(BlockersOf(s.participants, s.blocks, p.objectId))
    ensures !ValidProposal(DraftOf(s, seat))
  {
    hide TargetsOf;
    TargetsAreProper(s, p);
    var ps := SeatOnly(s.participants, seat);
    assert p in ps;
    var i :| 0 <= i < |ps| && ps[i] == p;
    assert DraftOf(s, seat).sources[i] == SourceOf(s, p);
    assert !ValidSource(DraftOf(s, seat).sources[i]);
  }

  /** A trampling attacker of a planeswalker that is also a creature, and blocks it. */
  function Collision(): Snapshot {
    Snapshot("s", 0, false, "p",
             [Participant("a", "A", "p", 1, 1, 0, {"trample"}, true, "la"),
              Participant("w", "W", "q", 1, 1, 0, {}, true, "lw")],
             [Attack("a", Recipient("W", "lw", "q", PlaneswalkerRecipient, true, Some("w")))],
             [Block("a", "w")], {"a"})
  }

  /** The snapshot's closure checks accept it, and the attacker's seat has no proposal. */
  lemma CollisionIsClosed()
    ensures ValidSnapshot(Collision()) && !SpillsApart(Collision(), "p") && ProposalOf(Collision(), "p") == None
  {
    hide ProposalOf;
    var s := Collision();
    CollisionFinds();
    CollisionNames();
    var a, w := s.participants[0], s.participants[1];
    assert AttackIds(s.attacks) == ["a"];
    assert s.blocks[0] in s.blocks && IsBlocker(s, "w");
    assert ValidSnapshot(s) by { hide Find, TramplesOver; }
    assert a in s.participants && Takes(a, "p") && TramplesOver(s, a);
    ProposalBuildsIff(s, "p");
  }

  lemma CollisionNames()
    ensures var ps := Collision().participants;
            Pairwise(Ids(ps)) && Pairwise(Refs(ps)) && Pairwise(LogicalIds(ps)) && "a" != "w"
  {
    assert "a"[0] == 'a' && "w"[0] == 'w' && "A"[0] == 'A' && "W"[0] == 'W';
    assert "la"[1] == 'a' && "lw"[1] == 'w';
  }

  lemma CollisionFinds()
    ensures var s := Collision();
            && Find(s.participants, "a") == Some(s.participants[0])
            && Find(s.participants, "w") == Some(s.participants[1])
            && Refs(BlockersOf(s.participants, s.blocks, "a")) == ["W"]
  {
    CollisionNames();
    var s := Collision();
    var w := s.participants[1];
    assert s.participants[1..][0] == w && Find(s.participants[1..], "w") == Some(w);
    assert BlockersOf(s.participants, s.blocks[1..], "a") == [];
    assert BlockersOf(s.participants, s.blocks, "a") == [w];
  }

  lemma DraftSources(s: Snapshot, seat: string)
    requires NamedApart(s) && SpillsApart(s, seat)
    ensures var draft := DraftOf(s, seat);
            && Pairwise(SourceNames(draft.sources)) && Pairwise(LogicalNames(draft.sources))
            && forall i :: 0 <= i < |draft.sources| ==>
                 ValidSource(draft.sources[i]) && draft.sources[i].controller == seat
    ensures var ps := SeatOnly(s.participants, seat);
            && PartOf(ps, s.participants) && Pairwise(Refs(ps))
            && SourceNames(DraftOf(s, seat).sources) == Refs(ps)
  {
    hide TargetsOf, TramplesOver, BlockersOf, SeatOnly;
    RefsDistinct(s.participants);
    SeatOnlyIsPart(s.participants, seat);
    var ps, draft := SeatOnly(s.participants, seat), DraftOf(s, seat);
    PartKeepsNames(ps, s.participants);
    assert SourceNames(draft.sources) == Refs(ps) && LogicalNames(draft.sources) == LogicalIds(ps);
    forall i | 0 <= i < |ps| ensures ValidSource(draft.sources[i]) && draft.sources[i].controller == seat {
      assert ps[i] in ps;
      TargetsAreProper(s, ps[i]);
      assert ValidParticipant(ps[i]);
    }
  }

  lemma DraftSets(s: Snapshot, seat: string)
    ensures var draft := DraftOf(s, seat);
            && (forall a :: a in draft.attacking ==> a in Refs(SeatOnly(s.participants, seat)))
            && draft.deathtouch <= draft.attacking
    ensures forall p :: p in SeatOnly(s.participants, seat) && TramplesOver(s, p) ==>
            p.reference in DraftOf(s, seat).attacking
  {
    hide TargetsOf, TramplersOf, SeatOnly, AttackingRefs, DeathtouchRefs;
  }

  lemma DraftTramplers(s: Snapshot, seat: string, t: TrampleSpec)
    requires NamedApart(s) && SpillsApart(s, seat) && t in DraftOf(s, seat).tramplers
    ensures t.attacker in DraftOf(s, seat).attacking && Pairwise(BlockerNames(t.blockers))
    ensures forall spec :: spec in DraftOf(s, seat).sources ==> TrampleMatches(t, spec)
  {
    hide *;
    DraftSources(s, seat);
    DraftSets(s, seat);
    var ps, draft := SeatOnly(s.participants, seat), DraftOf(s, seat);
    DraftParts(s, seat);
    PartIsDistinct(ps, s.participants);
    TramplersMembers(s, ps);
    var p :| p in ps && TramplesOver(s, p) && t == TramplerOf(s, p);
    TramplerNamed(s, p);
    SpillApart(s, seat, p);
    TrampleSpecMatches(s, p, p);
    forall spec | spec in draft.sources ensures TrampleMatches(t, spec) {
      var i :| 0 <= i < |ps| && draft.sources[i] == spec;
      assert ps[i] in ps;
      TrampleSpecMatches(s, p, ps[i]);
    }
  }

  lemma DraftParts(s: Snapshot, seat: string)
    ensures DraftOf(s, seat).sources == SourcesOf(s, SeatOnly(s.participants, seat))
    ensures DraftOf(s, seat).tramplers == TramplersOf(s, SeatOnly(s.participants, seat))
  {
  }

  lemma PartIsDistinct(part: seq<Participant>, ps: seq<Participant>)
    requires PartOf(part, ps)
    ensures Distinct(part) && forall p :: p in part ==> p in ps
  {
  }

  lemma SpillApart(s: Snapshot, seat: string, p: Participant)
    requires SpillsApart(s, seat) && p in s.participants && Takes(p, seat) && TramplesOver(s, p)
    ensures AttackOf(s.attacks, p.objectId).Some?
    ensures AttackOf(s.attacks, p.objectId).value.recipient.reference
            !in Refs(BlockersOf(s.participants, s.blocks, p.objectId))
  {
  }

  lemma DraftIsValid(s: Snapshot, seat: string)
    requires NamedApart(s) && seat != "" && SpillsApart(s, seat)
    ensures ValidProposal(DraftOf(s, seat))
  {
    hide TargetsOf, TramplesOver, TrampleMatches, TramplersOf, BlockersOf, SeatOnly, ValidSource;
    DraftSources(s, seat);
    DraftSets(s, seat);
    TramplersMembers(s, SeatOnly(s.participants, seat));
    forall t | t in DraftOf(s, seat).tramplers
      ensures t.attacker in DraftOf(s, seat).attacking && Pairwise(BlockerNames(t.blockers))
      ensures forall spec :: spec in DraftOf(s, seat).sources ==> TrampleMatches(t, spec)
    {
      DraftTramplers(s, seat, t);
    }
  }

  lemma {:induction false} BlocksSomebody(ps: seq<Participant>, blocks: seq<Block>, blocker: string)
    requires forall b :: b in blocks ==> Find(ps, b.attacker).Some?
    requires exists b :: b in blocks && b.blocker == blocker
    ensures BlockedBy(ps, blocks, blocker) != []
  {
    hide Find;
    var b :| b in blocks && b.blocker == blocker;
    assert blocks[0] in blocks;
    if blocks[0].blocker != blocker {
      assert blocks == [blocks[0]] + blocks[1..];
      assert b in blocks[1..];
      BlocksSomebody(ps, blocks[1..], blocker);
    }
  }

  /** Every participant of a closed snapshot attacks or blocks somebody. */
  lemma NobodyIsIdle(s: Snapshot, p: Participant)
    requires ValidSnapshot(s) && p in s.participants && AttackOf(s.attacks, p.objectId) == None
    ensures BlockedBy(s.participants, s.blocks, p.objectId) != []
  {
    forall b | b in s.blocks ensures Find(s.participants, b.attacker).Some? {
      var i :| 0 <= i < |s.attacks| && AttackIds(s.attacks)[i] == b.attacker;
      assert s.attacks[i] in s.attacks;
    }
    assert IsBlocker(s, p.objectId);
    BlocksSomebody(s.participants, s.blocks, p.objectId);
  }

  /** Parts of the draft read off the first participants. */
  ghost predicate Drafted(s: Snapshot, ps: seq<Participant>, sources: seq<SourceSpec>, attacking: set<string>,
                          deathtouch: set<string>, tramplers: seq<TrampleSpec>) {
    && sources == SourcesOf(s, ps)
    && attacking == AttackingRefs(s, ps)
    && deathtouch == DeathtouchRefs(s, ps)
    && tramplers == TramplersOf(s, ps)
  }

  lemma DraftOneMore(s: Snapshot, ps: seq<Participant>, p: Participant, sources: seq<SourceSpec>,
                     attacking: set<string>,
                     deathtouch: set<string>, tramplers: seq<TrampleSpec>)
    requires Drafted(s, ps, sources, attacking, deathtouch, tramplers)
    ensures var attacks := AttackOf(s.attacks, p.objectId).Some?;
            Drafted(s, ps + [p], sources + [SourceOf(s, p)],
                    attacking + (if attacks then {p.reference} else {}),
                    deathtouch + (if attacks && "deathtouch" in p.keywords then {p.reference} else {}),
                    tramplers + if TramplesOver(s, p) then [TramplerOf(s, p)] else [])
  {
    hide TargetsOf, SourceOf, TramplesOver, TramplerOf, AttackOf;
    assert SourcesOf(s, ps + [p]) == SourcesOf(s, ps) + [SourceOf(s, p)];
  }

  lemma DraftStarts(s: Snapshot)
    ensures Drafted(s, [], [], {}, {}, [])
  {
  }

  lemma DraftIs(s: Snapshot, seat: string, sources: seq<SourceSpec>, attacking: set<string>,
                deathtouch: set<string>, tramplers: seq<TrampleSpec>)
    requires Drafted(s, SeatOnly(s.participants, seat), sources, attacking, deathtouch, tramplers)
    ensures DraftOf(s, seat) == Proposal(s.stepId, seat, sources, attacking, deathtouch, tramplers)
    ensures ProposalOf(s, seat) == if ValidProposal(DraftOf(s, seat)) then Some(DraftOf(s, seat)) else None
  {
    hide SourcesOf, TramplersOf, ValidProposal;
  }

  lemma SeatOneMore(s: Snapshot, seat: string, i: nat)
    requires i < |s.participants|
    ensures SeatOnly(s.participants[..i + 1], seat) ==
            SeatOnly(s.participants[..i], seat) + if Takes(s.participants[i], seat) then [s.participants[i]] else []
  {
    assert s.participants[..i + 1][..i] == s.participants[..i];
  }

  lemma TargetsCases(s: Snapshot, p: Participant)
    ensures TargetsOf(s, p) ==
            if AttackOf(s.attacks, p.objectId).Some? then
              var recipient := AttackOf(s.attacks, p.objectId).value.recipient;
              if p.objectId in s.wasBlocked then
                Refs(BlockersOf(s.participants, s.blocks, p.objectId))
                + if "trample" in p.keywords && recipient.legal then [recipient.reference] else []
              else if recipient.legal then [recipient.reference] else []
            else Refs(BlockedBy(s.participants, s.blocks, p.objectId))
    ensures TramplesOver(s, p) <==>
            AttackOf(s.attacks, p.objectId).Some? && p.objectId in s.wasBlocked && "trample" in p.keywords
            && AttackOf(s.attacks, p.objectId).value.recipient.legal
  {
  }

  /** Lowers the snapshot into the seat's proposal; none when the proposal's checks fail. */
  method BuildProposal(s: Snapshot, seat: string) returns (r: Option<Proposal>)
    requires ValidSnapshot(s)
    ensures r == ProposalOf(s, seat)
  {
    hide *;
    var sources: seq<SourceSpec>, tramplers: seq<TrampleSpec> := [], [];
    var attacking: set<string>, deathtouch: set<string> := {}, {};
    DraftStarts(s);
    NoSeat(seat);
    assert s.participants[..0] == [];
    var i := 0;
    while i < |s.participants|
      invariant 0 <= i <= |s.participants|
      invariant Drafted(s, SeatOnly(s.participants[..i], seat), sources, attacking, deathtouch, tramplers)
    {
      var p := s.participants[i];
      SeatOneMore(s, seat, i);
      TakesIs(p, seat);
      if p.controller == seat && p.assigns {
        DraftOneMore(s, SeatOnly(s.participants[..i], seat), p, sources, attacking, deathtouch, tramplers);
        TargetsCases(s, p);
        var targets: seq<string>;
        var attack := AttackOf(s.attacks, p.objectId);
        if attack.Some? {
          attacking := attacking + {p.reference};
          deathtouch := deathtouch + if "deathtouch" in p.keywords then {p.reference} else {};
          var blockers := BlockersOf(s.participants, s.blocks, p.objectId);
          var recipient := attack.value.recipient;
          if p.objectId in s.wasBlocked {
            targets := Refs(blockers);
            if "trample" in p.keywords && recipient.legal {
              targets := targets + [recipient.reference];
              TramplerIs(s, p);
              tramplers := tramplers + [TrampleSpec(p.reference, recipient.reference, StatesOf(blockers))];
            }
          } else {
            targets := if recipient.legal then [recipient.reference] else [];
          }
        } else {
          NobodyIsIdle(s, p);
          assert attacking + {} == attacking && deathtouch + {} == deathtouch;
          targets := Refs(BlockedBy(s.participants, s.blocks, p.objectId));
        }
        assert tramplers + [] == tramplers;
        SourceIs(s, p);
        assert targets == TargetsOf(s, p);
        sources := sources + [SourceSpec(p.reference, p.controller, p.logicalId, Clamped(p.power), targets)];
      } else {
        assert SeatOnly(s.participants[..i], seat) + [] == SeatOnly(s.participants[..i], seat);
      }
      i := i + 1;
    }
    assert s.participants[..i] == s.participants;
    DraftIs(s, seat, sources, attacking, deathtouch, tramplers);
    var proposal := Proposal(s.stepId, seat, sources, attacking, deathtouch, tramplers);
    return if ValidProposal(proposal) then Some(proposal) else None;
  }

  lemma NoSeat(seat: string)
    ensures SeatOnly([], seat) == []
  {
  }

  lemma TakesIs(p: Participant, seat: string)
    ensures Takes(p, seat) <==> p.controller == seat && p.assigns
  {
  }

  lemma TramplerIs(s: Snapshot, p: Participant)
    requires TramplesOver(s, p)
    ensures AttackOf(s.attacks, p.objectId).Some?
    ensures TramplerOf(s, p) ==
            TrampleSpec(p.reference, AttackOf(s.attacks, p.objectId).value.recipient.reference,
                        StatesOf(BlockersOf(s.participants, s.blocks, p.objectId)))
  {
  }

  lemma SourceIs(s: Snapshot, p: Participant)
    ensures SourceOf(s, p) == SourceSpec(p.reference, p.controller, p.logicalId, Clamped(p.power), TargetsOf(s, p))
  {
  }
}

/** Combat damage in the reading's own fields: which readings make a snapshot, the order in which
    it lists them, whom each participant may damage, and what a seat is asked for. */
module DamageLaws {
  import opened Wrappers
  import opened Orders
  import opened DamageAssignment
  import opened DamageSnapshot
  import Capture = SnapshotCapture
  import Laws = CaptureLaws
  import Participants

  // ----- accepted readings -----

  predicate Blocking(q: Capture.Query, a: string, b: string) {
    a in q.attackers && b in q.blockers(a)
  }

  predicate Named(p: Participant, id: string) {
    p.objectId == id && id != "" && p.reference != "" && p.controller != "" && p.logicalId != ""
  }

  /** A player has no object; a permanent has one. */
  predicate Addressed(r: Recipient) {
    && r.reference != "" && r.logicalId != "" && r.controller != ""
    && (r.kind == PlayerRecipient ==> r.objectId == None)
    && (r.kind != PlayerRecipient ==> r.objectId != None && r.objectId != Some(""))
  }

  /** What the reading must say of each object, attack and block. */
  ghost predicate Closed(q: Capture.Query) {
    && (forall id :: id in q.ids ==> Named(q.participant(id), id))
    && (forall c, d :: c in q.ids && d in q.ids && c != d ==>
          && q.participant(c).reference != q.participant(d).reference
          && q.participant(c).logicalId != q.participant(d).logicalId)
    && (forall a :: a in q.attackers ==>
          a in q.ids && q.participant(a).controller == q.activePlayer && Addressed(q.recipient(a)))
    && (forall a, b :: Blocking(q, a, b) ==> b in q.ids && b !in q.attackers && q.blocked(a))
    && (forall id :: id in q.ids ==> id in q.attackers || exists a :: Blocking(q, a, id))
  }

  ghost predicate Listed(q: Capture.Query) {
    Laws.Names(q.ids) && Laws.Names(q.attackers) && forall a :: a in q.attackers ==> Laws.Names(q.blockers(a))
  }

  lemma ReadableIs(q: Capture.Query)
    ensures Capture.Readable(q) <==>
            && Listed(q) && (forall id :: id in q.ids ==> q.participant(id).objectId == id)
            && (forall a :: a in q.attackers ==> a in q.ids)
            && forall a, b :: Blocking(q, a, b) ==> b in q.ids
  {
    hide Laws.Names, Participants.CleanIds;
    Laws.NamesAreClean(q.ids);
    Laws.NamesAreClean(q.attackers);
    forall a ensures Capture.CleanBlockers(q, a) <==>
                     Laws.Names(q.blockers(a)) && forall b :: b in q.blockers(a) ==> b in q.ids
    {
      Laws.NamesAreClean(q.blockers(a));
    }
    if forall a, b :: Blocking(q, a, b) ==> b in q.ids {
      forall a, b | a in q.attackers && b in q.blockers(a) ensures b in q.ids {
        assert Blocking(q, a, b);
      }
    }
  }

  /** A reading makes a snapshot exactly when participants, attackers and blockers are nonempty names
      without repeats, step and active player have names, every participant answers for itself
      with complete names of its own, attackers are the active player's participants with a
      recipient that has an object exactly if it is no player, blockers are participants that do
      not attack and only blocked attackers have some, and everybody attacks or blocks. */
  lemma SnapshotAccepted(q: Capture.Query)
    ensures Capture.Outcome(q).Ok? <==> Listed(q) && q.stepId != "" && q.activePlayer != "" && Closed(q)
  {
    hide *;
    ReadableIs(q);
    OutcomeIs(q);
    if Closed(q) { ClosedIsApart(q); }
    if Capture.Readable(q) && Capture.UniqueRefs(q) {
      ValidIff(q);
    }
    assert Closed(q) ==> forall id :: id in q.ids ==> q.participant(id).objectId == id by {
      if Closed(q) { ClosedIsApart(q); }
    }
  }

  lemma OutcomeIs(q: Capture.Query)
    ensures Capture.Outcome(q).Ok? <==>
            Capture.Readable(q) && Capture.UniqueRefs(q) && ValidSnapshot(Capture.Described(q))
  {
    hide Capture.Readable, Capture.UniqueRefs, ValidSnapshot, Capture.Described;
  }

  lemma ClosedIsApart(q: Capture.Query)
    requires Closed(q)
    ensures Capture.UniqueRefs(q) && (forall id :: id in q.ids ==> q.participant(id).objectId == id)
    ensures forall a :: a in q.attackers ==> a in q.ids
    ensures forall a, b :: Blocking(q, a, b) ==> b in q.ids
  {
  }

  /** What the captured lists hold, whatever their order. */
  ghost predicate Lists(q: Capture.Query, s: Snapshot) {
    && Distinct(s.participants) && Distinct(s.attacks) && Distinct(s.blocks)
    && (forall p :: p in s.participants <==> p.objectId in q.ids && p == q.participant(p.objectId))
    && (forall x :: x in s.attacks <==> x.source in q.attackers && x.recipient == q.recipient(x.source))
    && (forall x :: x in s.blocks <==> Blocking(q, x.attacker, x.blocker))
    && (forall a :: a in s.wasBlocked <==> a in q.attackers && q.blocked(a))
  }

  lemma DescribedLists(q: Capture.Query)
    requires Capture.Readable(q) && Capture.UniqueRefs(q)
    ensures var s := Capture.Described(q);
            Lists(q, s) && s.stepId == q.stepId && s.activePlayer == q.activePlayer
  {
    hide *;
    ReadableIs(q);
    Capture.DescribedIs(q);
    SortedSetFacts(Capture.ParticipantKey, Capture.People(q));
    SortedSetFacts(Capture.AttackKey(Capture.ByIdOf(q)), Capture.Attacks(q));
    SortedSetFacts(Capture.BlockKey(Capture.ByIdOf(q)), Capture.Blocks(q));
    SetsRead(q);
    ListsIs(q, Capture.Described(q));
  }

  lemma SetsRead(q: Capture.Query)
    requires forall id :: id in q.ids ==> q.participant(id).objectId == id
    ensures forall p :: p in Capture.People(q) <==> p.objectId in q.ids && p == q.participant(p.objectId)
    ensures forall x :: x in Capture.Attacks(q) <==> x.source in q.attackers && x.recipient == q.recipient(x.source)
    ensures forall x :: x in Capture.Blocks(q) <==> Blocking(q, x.attacker, x.blocker)
    ensures forall a :: a in Capture.Blocked(q) <==> a in q.attackers && q.blocked(a)
  {
  }

  lemma ListsIs(q: Capture.Query, s: Snapshot)
    requires Distinct(s.participants) && Distinct(s.attacks) && Distinct(s.blocks)
    requires forall p :: p in s.participants <==> p in Capture.People(q)
    requires forall x :: x in s.attacks <==> x in Capture.Attacks(q)
    requires forall x :: x in s.blocks <==> x in Capture.Blocks(q)
    requires s.wasBlocked == Capture.Blocked(q)
    requires forall id :: id in q.ids ==> q.participant(id).objectId == id
    ensures Lists(q, s)
  {
    hide Blocking, Capture.People, Capture.Attacks, Capture.Blocks, Capture.Blocked;
    SetsRead(q);
  }

  lemma AttackNames(q: Capture.Query, s: Snapshot)
    requires Lists(q, s)
    ensures Pairwise(AttackIds(s.attacks)) && forall a :: a in AttackIds(s.attacks) <==> a in q.attackers
  {
    forall a | a in q.attackers ensures a in AttackIds(s.attacks) {
      var x := Attack(a, q.recipient(a));
      assert x in s.attacks;
      var i :| 0 <= i < |s.attacks| && s.attacks[i] == x;
      assert AttackIds(s.attacks)[i] == a;
    }
    forall a | a in AttackIds(s.attacks) ensures a in q.attackers {
      var i :| 0 <= i < |s.attacks| && AttackIds(s.attacks)[i] == a;
      assert s.attacks[i] in s.attacks;
    }
    forall i, j | 0 <= i < j < |s.attacks| ensures s.attacks[i].source != s.attacks[j].source {
      assert s.attacks[i] in s.attacks && s.attacks[j] in s.attacks;
    }
  }

  lemma ParticipantNames(q: Capture.Query, s: Snapshot)
    requires Lists(q, s) && Capture.UniqueRefs(q) && forall id :: id in q.ids ==> q.participant(id).objectId == id
    ensures Pairwise(Ids(s.participants)) && Pairwise(Refs(s.participants))
    ensures Pairwise(LogicalIds(s.participants)) <==>
            forall c, d :: c in q.ids && d in q.ids && c != d ==>
              q.participant(c).logicalId != q.participant(d).logicalId
    ensures forall id :: Find(s.participants, id).Some? <==> id in q.ids
    ensures forall id :: id in q.ids ==> Find(s.participants, id) == Some(q.participant(id))
  {
    var ps := s.participants;
    forall i, j | 0 <= i < j < |ps| ensures ps[i].objectId != ps[j].objectId && ps[i].reference != ps[j].reference {
      assert ps[i] in ps && ps[j] in ps && ps[i] != ps[j];
    }
    forall id ensures (Find(ps, id).Some? <==> id in q.ids)
                      && (id in q.ids ==> Find(ps, id) == Some(q.participant(id))) {
      FindsIt(q, s, id);
    }
    if Pairwise(LogicalIds(ps)) {
      forall c, d | c in q.ids && d in q.ids && c != d
        ensures q.participant(c).logicalId != q.participant(d).logicalId
      {
        assert q.participant(c) in ps && q.participant(d) in ps;
        RefDecides(ps, q.participant(c), q.participant(d));
      }
    } else {
      var i, j :| 0 <= i < j < |ps| && LogicalIds(ps)[i] == LogicalIds(ps)[j];
      assert ps[i] in ps && ps[j] in ps && ps[i].objectId != ps[j].objectId;
    }
  }

  lemma FindsIt(q: Capture.Query, s: Snapshot, id: string)
    requires Lists(q, s) && forall x :: x in q.ids ==> q.participant(x).objectId == x
    ensures Find(s.participants, id).Some? <==> id in q.ids
    ensures id in q.ids ==> Find(s.participants, id) == Some(q.participant(id))
  {
    var ps := s.participants;
    if id in q.ids {
      assert q.participant(id) in ps;
      var i :| 0 <= i < |ps| && ps[i] == q.participant(id);
      assert Ids(ps)[i] == id;
    }
  }

  /** What is known of the captured lists before any check. */
  ghost predicate Indexed(q: Capture.Query, s: Snapshot) {
    && Lists(q, s) && (forall a :: a in AttackIds(s.attacks) <==> a in q.attackers)
    && (forall id :: Find(s.participants, id).Some? <==> id in q.ids)
    && (forall id :: id in q.ids ==> Find(s.participants, id) == Some(q.participant(id)))
    && (forall id :: id in q.ids ==> q.participant(id).objectId == id && id != "")
    && (forall a :: a in q.attackers ==> a in q.ids)
    && forall a, b :: Blocking(q, a, b) ==> b in q.ids
  }

  lemma NamesByParts(q: Capture.Query, s: Snapshot)
    requires Indexed(q, s)
    ensures (forall p :: p in s.participants ==> ValidParticipant(p)) <==>
            forall id :: id in q.ids ==> Named(q.participant(id), id)
    ensures (forall x :: x in s.attacks ==> ValidRecipient(x.recipient)) <==>
            forall a :: a in q.attackers ==> Addressed(q.recipient(a))
  {
    hide Find, AttackIds;
    forall id | id in q.ids ensures q.participant(id) in s.participants {
    }
    forall a | a in q.attackers ensures Attack(a, q.recipient(a)) in s.attacks {
    }
    forall r ensures ValidRecipient(r) <==> Addressed(r) {
    }
    if forall x :: x in s.attacks ==> ValidRecipient(x.recipient) {
      forall a | a in q.attackers ensures Addressed(q.recipient(a)) {
        assert ValidRecipient(Attack(a, q.recipient(a)).recipient);
      }
    }
  }

  lemma SidesByParts(q: Capture.Query, s: Snapshot)
    requires Indexed(q, s)
    ensures (forall x :: x in s.attacks ==>
               var p := Find(s.participants, x.source); p.Some? && p.value.controller == s.activePlayer) <==>
            forall a :: a in q.attackers ==> q.participant(a).controller == s.activePlayer
    ensures (forall b :: b in s.blocks ==> b.blocker !in AttackIds(s.attacks)) <==>
            forall a, b :: Blocking(q, a, b) ==> b !in q.attackers
    ensures (forall b :: b in s.blocks ==> b.attacker in s.wasBlocked) <==>
            forall a, b :: Blocking(q, a, b) ==> q.blocked(a)
    ensures (forall p :: p in s.participants ==> p.objectId in AttackIds(s.attacks) || IsBlocker(s, p.objectId)) <==>
            forall id :: id in q.ids ==> id in q.attackers || exists a :: Blocking(q, a, id)
  {
    hide Find, AttackIds, Blocking;
    forall a, b | Blocking(q, a, b) ensures Block(a, b) in s.blocks {
    }
    forall a | a in q.attackers ensures Attack(a, q.recipient(a)) in s.attacks {
    }
    forall id | id in q.ids ensures q.participant(id) in s.participants {
    }
    forall id ensures IsBlocker(s, id) <==> exists a :: Blocking(q, a, id) {
      if a :| Blocking(q, a, id) { assert Block(a, id) in s.blocks; }
      if b :| b in s.blocks && b.blocker == id { assert Blocking(q, b.attacker, id); }
    }
    if forall b :: b in s.blocks ==> b.blocker !in AttackIds(s.attacks) {
      forall a, b | Blocking(q, a, b) ensures b !in q.attackers { assert Block(a, b).blocker !in AttackIds(s.attacks); }
    }
    if forall b :: b in s.blocks ==> b.attacker in s.wasBlocked {
      forall a, b | Blocking(q, a, b) ensures q.blocked(a) { assert Block(a, b).attacker in s.wasBlocked; }
    } else {
      var b :| b in s.blocks && b.attacker !in s.wasBlocked;
      assert Blocking(q, b.attacker, b.blocker) && !q.blocked(b.attacker) by { BlockingIs(q, b.attacker, b.blocker); }
    }
    if forall x :: x in s.attacks ==>
         var p := Find(s.participants, x.source); p.Some? && p.value.controller == s.activePlayer {
      forall a | a in q.attackers ensures q.participant(a).controller == s.activePlayer {
        assert Find(s.participants, Attack(a, q.recipient(a)).source).value.controller == s.activePlayer;
      }
    }
  }

  lemma BlockingIs(q: Capture.Query, a: string, b: string)
    ensures Blocking(q, a, b) <==> a in q.attackers && b in q.blockers(a)
  {
  }

  lemma ValidIs(s: Snapshot)
    ensures ValidSnapshot(s) <==>
            && s.stepId != "" && s.activePlayer != ""
            && (forall p :: p in s.participants ==> ValidParticipant(p))
            && (forall a :: a in s.attacks ==> ValidRecipient(a.recipient))
            && Pairwise(Ids(s.participants)) && Pairwise(Refs(s.participants)) && Pairwise(LogicalIds(s.participants))
            && Pairwise(AttackIds(s.attacks))
            && (forall x :: x in s.attacks ==>
                  var p := Find(s.participants, x.source); p.Some? && p.value.controller == s.activePlayer)
            && DistinctBlocks(s.blocks)
            && (forall b :: b in s.blocks ==>
                  b.attacker in AttackIds(s.attacks) && Find(s.participants, b.blocker).Some?)
            && (forall b :: b in s.blocks ==> b.blocker !in AttackIds(s.attacks))
            && (forall p :: p in s.participants ==> p.objectId in AttackIds(s.attacks) || IsBlocker(s, p.objectId))
            && (forall id :: id in s.wasBlocked ==> id in AttackIds(s.attacks))
            && forall b :: b in s.blocks ==> b.attacker in s.wasBlocked
  {
    hide ValidParticipant, ValidRecipient, Pairwise, Ids, Refs, LogicalIds, AttackIds, Find, DistinctBlocks, IsBlocker;
  }

  lemma ResolvesByParts(q: Capture.Query, s: Snapshot)
    requires Indexed(q, s)
    ensures DistinctBlocks(s.blocks)
    ensures forall b :: b in s.blocks ==> b.attacker in AttackIds(s.attacks) && Find(s.participants, b.blocker).Some?
    ensures forall id :: id in s.wasBlocked ==> id in AttackIds(s.attacks)
  {
    hide Find, AttackIds;
    forall b | b in s.blocks ensures b.attacker in q.attackers && b.blocker in q.ids {
      assert Blocking(q, b.attacker, b.blocker);
    }
  }

  lemma IndexedIs(q: Capture.Query, s: Snapshot)
    requires Lists(q, s) && Capture.Readable(q) && Capture.UniqueRefs(q)
    ensures Indexed(q, s) && Pairwise(AttackIds(s.attacks))
    ensures Pairwise(Ids(s.participants)) && Pairwise(Refs(s.participants))
    ensures Pairwise(LogicalIds(s.participants)) <==>
            forall c, d :: c in q.ids && d in q.ids && c != d ==>
              q.participant(c).logicalId != q.participant(d).logicalId
  {
    hide Lists, Find, AttackIds, Pairwise, Ids, Refs, LogicalIds, Capture.Readable, Capture.UniqueRefs, Blocking;
    ReadableIs(q);
    AttackNames(q, s);
    ParticipantNames(q, s);
    assert forall id :: id in q.ids ==> id != "";
  }

  lemma ClosedIff(q: Capture.Query)
    requires Capture.Readable(q) && Capture.UniqueRefs(q)
    ensures Closed(q) <==>
            && (forall id :: id in q.ids ==> Named(q.participant(id), id))
            && (forall c, d :: c in q.ids && d in q.ids && c != d ==>
                  q.participant(c).logicalId != q.participant(d).logicalId)
            && (forall a :: a in q.attackers ==> Addressed(q.recipient(a)))
            && (forall a :: a in q.attackers ==> q.participant(a).controller == q.activePlayer)
            && (forall a, b :: Blocking(q, a, b) ==> b !in q.attackers)
            && (forall a, b :: Blocking(q, a, b) ==> q.blocked(a))
            && (forall id :: id in q.ids ==> id in q.attackers || exists a :: Blocking(q, a, id))
  {
    hide Named, Addressed, Blocking, Capture.Readable;
    ReadableIs(q);
  }

  lemma ValidIff(q: Capture.Query)
    requires Capture.Readable(q) && Capture.UniqueRefs(q)
    ensures ValidSnapshot(Capture.Described(q)) <==> q.stepId != "" && q.activePlayer != "" && Closed(q)
  {
    hide *;
    DescribedLists(q);
    var s := Capture.Described(q);
    IndexedIs(q, s);
    ValidIs(s);
    NamesByParts(q, s);
    SidesByParts(q, s);
    ResolvesByParts(q, s);
    ClosedIff(q);
  }

  // ----- the order of what was read -----

  lemma PairSteps(a: string, b: string, c: string, d: string)
    requires KeyLess(Tup([Str(a), Str(b)]), Tup([Str(c), Str(d)]))
    ensures StrLess(a, c) || (a == c && StrLess(b, d))
  {
    var p, q := [Str(a), Str(b)], [Str(c), Str(d)];
    TupLessStep(p, q);
    TupLessStep(p[1..], q[1..]);
    TupLessStep(p[2..], q[2..]);
  }

  /** A snapshot lists its participants by reference, its attacks by the reference of the attacker,
      and its blocks by the reference of the attacker and then that of the blocker. */
  lemma ListedByReference(q: Capture.Query, i: nat, j: nat)
    requires Capture.Readable(q) && Capture.UniqueRefs(q) && i < j
    ensures var s, f := Capture.Described(q), q.participant;
            && (j < |s.participants| ==> StrLess(s.participants[i].reference, s.participants[j].reference))
            && (j < |s.attacks| ==> StrLess(f(s.attacks[i].source).reference, f(s.attacks[j].source).reference))
            && (j < |s.blocks| ==>
                  || StrLess(f(s.blocks[i].attacker).reference, f(s.blocks[j].attacker).reference)
                  || (s.blocks[i].attacker == s.blocks[j].attacker
                      && StrLess(f(s.blocks[i].blocker).reference, f(s.blocks[j].blocker).reference)))
  {
    hide *;
    var s := Capture.Described(q);
    Capture.DescribedIs(q);
    DescribedLists(q);
    ReadableIs(q);
    SortedSetFacts(Capture.ParticipantKey, Capture.People(q));
    if j < |s.participants| { PeopleByReference(q, s, i, j); }
    if j < |s.attacks| { AttacksByReference(q, s, i, j); }
    if j < |s.blocks| { BlocksByReference(q, s, i, j); }
  }

  lemma PeopleByReference(q: Capture.Query, s: Snapshot, i: nat, j: nat)
    requires Lists(q, s) && Capture.UniqueRefs(q) && Sorted(ByKey(Capture.ParticipantKey), s.participants)
    requires i < j < |s.participants|
    ensures StrLess(s.participants[i].reference, s.participants[j].reference)
  {
    var p, r := s.participants[i], s.participants[j];
    assert p in s.participants && r in s.participants && p != r;
    assert ByKey(Capture.ParticipantKey)(p, r);
    assert KeyLess(Capture.ParticipantKey(p), Capture.ParticipantKey(r));
    hide KeyLess;
    PairSteps(p.reference, p.objectId, r.reference, r.objectId);
  }

  lemma AttacksByReference(q: Capture.Query, s: Snapshot, i: nat, j: nat)
    requires Lists(q, s) && Capture.UniqueRefs(q) && Sorted(ByKey(Capture.AttackKey(Capture.ByIdOf(q))), s.attacks)
    requires (forall a :: a in q.attackers ==> a in q.ids) && i < j < |s.attacks|
    ensures StrLess(q.participant(s.attacks[i].source).reference, q.participant(s.attacks[j].source).reference)
  {
    var x, y := s.attacks[i], s.attacks[j];
    assert x in s.attacks && y in s.attacks && x != y;
    assert ByKey(Capture.AttackKey(Capture.ByIdOf(q)))(x, y);
    hide KeyLess;
    PairSteps(q.participant(x.source).reference, x.source, q.participant(y.source).reference, y.source);
  }

  lemma BlocksByReference(q: Capture.Query, s: Snapshot, i: nat, j: nat)
    requires Lists(q, s) && Capture.UniqueRefs(q) && Sorted(ByKey(Capture.BlockKey(Capture.ByIdOf(q))), s.blocks)
    requires (forall a :: a in q.attackers ==> a in q.ids) && (forall a, b :: Blocking(q, a, b) ==> b in q.ids)
    requires i < j < |s.blocks|
    ensures var x, y, f := s.blocks[i], s.blocks[j], q.participant;
            || StrLess(f(x.attacker).reference, f(y.attacker).reference)
            || (x.attacker == y.attacker && StrLess(f(x.blocker).reference, f(y.blocker).reference))
  {
    var x, y, f := s.blocks[i], s.blocks[j], q.participant;
    assert x in s.blocks && y in s.blocks;
    assert Blocking(q, x.attacker, x.blocker) && Blocking(q, y.attacker, y.blocker);
    assert ByKey(Capture.BlockKey(Capture.ByIdOf(q)))(x, y);
    hide KeyLess;
    PairSteps(f(x.attacker).reference, f(x.blocker).reference, f(y.attacker).reference, f(y.blocker).reference);
  }

  // ----- targets -----

  lemma {:induction false} FindIn(ps: seq<Participant>, p: Participant)
    requires Pairwise(Ids(ps)) && p in ps
    ensures Find(ps, p.objectId) == Some(p)
  {
    if ps[0] == p {
    } else {
      var rest := ps[1..];
      assert ps == [ps[0]] + rest;
      assert Ids(ps)[1..] == Ids(rest);
      PairwiseTail(Ids(ps));
      FindIn(rest, p);
      var i :| 0 <= i < |rest| && rest[i] == p;
      assert Ids(ps)[0] != Ids(ps)[i + 1];
    }
  }

  lemma PairwiseTail(names: seq<string>)
    requires Pairwise(names) && names != []
    ensures Pairwise(names[1..])
  {
    forall i, j | 0 <= i < j < |names[1..]| ensures names[1..][i] != names[1..][j] {
      assert names[i + 1] != names[j + 1];
    }
  }

  /** The two sides of the blocks of one participant. */
  lemma {:induction false} OpponentsAre(ps: seq<Participant>, blocks: seq<Block>, id: string, p: Participant)
    requires Pairwise(Ids(ps))
    ensures p in BlockersOf(ps, blocks, id) <==> p in ps && Block(id, p.objectId) in blocks
    ensures p in BlockedBy(ps, blocks, id) <==> p in ps && Block(p.objectId, id) in blocks
  {
    hide Find;
    if blocks == [] {
    } else {
      OpponentsAre(ps, blocks[1..], id, p);
      assert blocks == [blocks[0]] + blocks[1..];
      assert blocks[0] == Block(blocks[0].attacker, blocks[0].blocker);
      if p in ps { FindIn(ps, p); }
    }
  }

  lemma RefsHave(ps: seq<Participant>, r: string)
    ensures r in Refs(ps) <==> exists p :: p in ps && p.reference == r
  {
    if p :| p in ps && p.reference == r {
      var i :| 0 <= i < |ps| && ps[i] == p;
      assert Refs(ps)[i] == r;
    }
  }

  /** Whom a participant of a closed snapshot may damage: those that block it or that it blocks; and
      if it attacks, a legal recipient, unless it was blocked and does not trample. */
  lemma TargetsIff(s: Snapshot, p: Participant, r: string)
    requires ValidSnapshot(s) && p in s.participants
    ensures r in TargetsOf(s, p) <==>
            || (exists o :: o in s.participants && o.reference == r
                  && (Block(p.objectId, o.objectId) in s.blocks || Block(o.objectId, p.objectId) in s.blocks))
            || (exists x :: x in s.attacks && x.source == p.objectId && x.recipient.legal && x.recipient.reference == r
                  && (p.objectId in s.wasBlocked ==> "trample" in p.keywords))
  {
    hide ValidSnapshot, BlockersOf, BlockedBy, AttackOf, TargetsOf, Pairwise, Ids, Refs;
    var id := p.objectId;
    var blockers, blocked := BlockersOf(s.participants, s.blocks, id), BlockedBy(s.participants, s.blocks, id);
    SidesAreApart(s, id);
    AttackIsOnly(s, id);
    forall o ensures (o in blockers <==> o in s.participants && Block(id, o.objectId) in s.blocks)
                     && (o in blocked <==> o in s.participants && Block(o.objectId, id) in s.blocks) {
      OpponentsAre(s.participants, s.blocks, id, o);
    }
    RefsHave(blockers, r);
    RefsHave(blocked, r);
    TargetsCases(s, p);
  }

  lemma SidesAreApart(s: Snapshot, id: string)
    requires ValidSnapshot(s)
    ensures Pairwise(Ids(s.participants))
    ensures forall b: Block :: b in s.blocks ==> AttackOf(s.attacks, b.attacker).Some? && b.attacker in s.wasBlocked
    ensures forall b: Block :: b in s.blocks ==> AttackOf(s.attacks, b.blocker).None?
  {
    hide AttackOf;
  }

  lemma AttackIsOnly(s: Snapshot, id: string)
    requires ValidSnapshot(s)
    ensures forall x :: x in s.attacks && x.source == id <==> AttackOf(s.attacks, id) == Some(x)
  {
    hide Find, IsBlocker;
    assert Pairwise(AttackIds(s.attacks));
    forall x ensures x in s.attacks && x.source == id <==> AttackOf(s.attacks, id) == Some(x) {
      if x in s.attacks && x.source == id { AttackFound(s.attacks, x); }
    }
  }

  lemma {:induction false} AttackFound(attacks: seq<Attack>, x: Attack)
    requires Pairwise(AttackIds(attacks)) && x in attacks
    ensures AttackOf(attacks, x.source) == Some(x)
  {
    if attacks[0] == x {
    } else {
      var rest := attacks[1..];
      assert attacks == [attacks[0]] + rest;
      assert AttackIds(attacks)[1..] == AttackIds(rest);
      PairwiseTail(AttackIds(attacks));
      AttackFound(rest, x);
      var i :| 0 <= i < |rest| && rest[i] == x;
      assert AttackIds(attacks)[0] != AttackIds(attacks)[i + 1];
    }
  }

  /** Blocks are listed so that those of one attacker go by the references of its blockers, and those
      of one blocker by the references of the attackers. */
  ghost predicate ByReferences(blocks: seq<Block>, name: string -> string) {
    forall m, n :: 0 <= m < n < |blocks| ==>
      && (blocks[m].attacker == blocks[n].attacker ==> StrLess(name(blocks[m].blocker), name(blocks[n].blocker)))
      && (blocks[m].blocker == blocks[n].blocker ==> StrLess(name(blocks[m].attacker), name(blocks[n].attacker)))
  }

  ghost predicate RefsAscend(ps: seq<Participant>) {
    forall i, j :: 0 <= i < j < |ps| ==> StrLess(ps[i].reference, ps[j].reference)
  }

  lemma AscendPrepend(p: Participant, ps: seq<Participant>)
    requires RefsAscend(ps) && forall o :: o in ps ==> StrLess(p.reference, o.reference)
    ensures RefsAscend([p] + ps)
  {
    hide StrLess;
  }

  /** Then an attacker's blockers are ordered by reference, and so are a blocker's attackers. */
  lemma {:induction false} OpponentsByReference(ps: seq<Participant>, blocks: seq<Block>, id: string,
                                                name: string -> string)
    requires Pairwise(Ids(ps)) && ByReferences(blocks, name) && forall o :: o in ps ==> name(o.objectId) == o.reference
    ensures RefsAscend(BlockersOf(ps, blocks, id)) && RefsAscend(BlockedBy(ps, blocks, id))
  {
    hide Find, StrLess, Ids, Pairwise, RefsAscend, ByReferences;
    if blocks == [] {
      NobodyAscends();
    } else {
      var first, rest := blocks[0], blocks[1..];
      FirstAhead(blocks, name);
      OpponentsByReference(ps, rest, id, name);
      var blockers, blocked := BlockersOf(ps, rest, id), BlockedBy(ps, rest, id);
      assert [] + blockers == blockers && [] + blocked == blocked;
      forall o | o in blockers && first.attacker == id ensures StrLess(name(first.blocker), o.reference) {
        OpponentsAre(ps, rest, id, o);
        assert Block(id, o.objectId) in rest;
      }
      forall o | o in blocked && first.blocker == id ensures StrLess(name(first.attacker), o.reference) {
        OpponentsAre(ps, rest, id, o);
        assert Block(o.objectId, id) in rest;
      }
      var p, q := Find(ps, first.blocker), Find(ps, first.attacker);
      if first.attacker == id && p.Some? { AscendPrepend(p.value, blockers); }
      if first.blocker == id && q.Some? { AscendPrepend(q.value, blocked); }
    }
  }

  lemma NobodyAscends()
    ensures RefsAscend([])
  {
  }

  lemma FirstAhead(blocks: seq<Block>, name: string -> string)
    requires blocks != [] && ByReferences(blocks, name)
    ensures ByReferences(blocks[1..], name)
    ensures forall b :: b in blocks[1..] && b.attacker == blocks[0].attacker ==>
              StrLess(name(blocks[0].blocker), name(b.blocker))
    ensures forall b :: b in blocks[1..] && b.blocker == blocks[0].blocker ==>
              StrLess(name(blocks[0].attacker), name(b.attacker))
  {
    forall n | 0 < n < |blocks|
      ensures blocks[0].attacker == blocks[n].attacker ==> StrLess(name(blocks[0].blocker), name(blocks[n].blocker))
      ensures blocks[0].blocker == blocks[n].blocker ==> StrLess(name(blocks[0].attacker), name(blocks[n].attacker))
    {
    }
  }

  /** The blocks of every snapshot read from the game are listed so. */
  lemma CapturedByReferences(q: Capture.Query)
    requires Capture.Readable(q) && Capture.UniqueRefs(q)
    ensures ByReferences(Capture.Described(q).blocks, (id: string) => q.participant(id).reference)
  {
    hide Capture.Readable, Capture.UniqueRefs, Capture.Described, StrLess;
    var blocks := Capture.Described(q).blocks;
    DescribedLists(q);
    forall m, n | 0 <= m < n < |blocks|
      ensures blocks[m].attacker == blocks[n].attacker ==>
                StrLess(q.participant(blocks[m].blocker).reference, q.participant(blocks[n].blocker).reference)
      ensures blocks[m].blocker == blocks[n].blocker ==>
                StrLess(q.participant(blocks[m].attacker).reference, q.participant(blocks[n].attacker).reference)
    {
      ListedByReference(q, m, n);
      assert blocks[m] != blocks[n];
      StrTrichotomy(q.participant(blocks[m].attacker).reference, q.participant(blocks[m].attacker).reference);
    }
  }

  // ----- what a seat is asked for -----

  /** The seat's own participants that assign damage now. */
  predicate Asks(s: Snapshot, seat: string, p: Participant) {
    p in s.participants && p.controller == seat && p.assigns
  }

  predicate Attacks(s: Snapshot, p: Participant) {
    exists x :: x in s.attacks && x.source == p.objectId
  }

  lemma NamedStep(s: Snapshot, ps: seq<Participant>)
    ensures ps == [] ==> AttackingRefs(s, ps) == {} && DeathtouchRefs(s, ps) == {}
    ensures ps != [] ==>
              var front, p := ps[..|ps| - 1], ps[|ps| - 1];
              && AttackingRefs(s, ps) == AttackingRefs(s, front) + (if Attacks(s, p) then {p.reference} else {})
              && DeathtouchRefs(s, ps) ==
                 DeathtouchRefs(s, front) + if Attacks(s, p) && "deathtouch" in p.keywords then {p.reference} else {}
  {
    hide Attacks;
    if ps != [] { AttacksIff(s, ps[|ps| - 1]); }
  }

  /** Some attacker in the list has the reference, and deathtouch if that is asked for. */
  ghost predicate AttackerNamed(s: Snapshot, ps: seq<Participant>, r: string, deathtouch: bool) {
    exists p :: p in ps && Attacks(s, p) && (deathtouch ==> "deathtouch" in p.keywords) && p.reference == r
  }

  lemma AttackerNamedStep(s: Snapshot, ps: seq<Participant>, r: string, deathtouch: bool)
    ensures ps == [] ==> !AttackerNamed(s, ps, r, deathtouch)
    ensures ps != [] ==>
              var front, p := ps[..|ps| - 1], ps[|ps| - 1];
              AttackerNamed(s, ps, r, deathtouch) <==>
              || AttackerNamed(s, front, r, deathtouch)
              || (Attacks(s, p) && (deathtouch ==> "deathtouch" in p.keywords) && p.reference == r)
  {
    hide Attacks;
    if ps != [] { assert ps == ps[..|ps| - 1] + [ps[|ps| - 1]]; }
  }

  lemma {:induction false} AttackingAre(s: Snapshot, ps: seq<Participant>, r: string)
    ensures r in AttackingRefs(s, ps) <==> AttackerNamed(s, ps, r, false)
    ensures r in DeathtouchRefs(s, ps) <==> AttackerNamed(s, ps, r, true)
    decreases |ps|
  {
    hide *;
    NamedStep(s, ps);
    AttackerNamedStep(s, ps, r, false);
    AttackerNamedStep(s, ps, r, true);
    if ps == [] {
    } else {
      AttackingAre(s, ps[..|ps| - 1], r);
    }
  }

  lemma AttacksIff(s: Snapshot, p: Participant)
    ensures Attacks(s, p) <==> AttackOf(s.attacks, p.objectId).Some?
  {
    if x :| x in s.attacks && x.source == p.objectId {
      var i :| 0 <= i < |s.attacks| && s.attacks[i] == x;
      assert AttackIds(s.attacks)[i] == p.objectId;
    }
  }

  lemma {:induction false} TramplersAre(s: Snapshot, ps: seq<Participant>, t: TrampleSpec)
    ensures t in TramplersOf(s, ps) <==> exists p :: p in ps && TramplesOver(s, p) && TramplerOf(s, p) == t
    decreases |ps|
  {
    hide TramplesOver, TramplerOf;
    if ps == [] {
    } else {
      var n := |ps| - 1;
      TramplersAre(s, ps[..n], t);
      assert ps == ps[..n] + [ps[n]];
    }
  }

  /** A seat is asked for each of its assigning participants: its power if that is positive, to its
      targets. Attackers among them are named as such, those with deathtouch as having it; and each
      that was blocked, tramples and has a legal recipient may spill onto that recipient past its
      blockers, whose toughness and marked damage count. */
  lemma DraftMeaning(s: Snapshot, seat: string)
    requires ValidSnapshot(s)
    ensures var draft := DraftOf(s, seat);
            && draft.actor == seat
            && (forall spec :: spec in draft.sources <==>
                  exists p :: Asks(s, seat, p)
                    && spec == SourceSpec(p.reference, seat, p.logicalId, if p.power > 0 then p.power else 0,
                                          TargetsOf(s, p)))
            && (forall r :: r in draft.attacking <==> exists p :: Asks(s, seat, p) && Attacks(s, p) && p.reference == r)
            && (forall r :: r in draft.deathtouch <==>
                  exists p :: Asks(s, seat, p) && Attacks(s, p) && "deathtouch" in p.keywords && p.reference == r)
            && (forall t :: t in draft.tramplers <==>
                  exists p, x :: Asks(s, seat, p) && Spills(s, p, x) && t.attacker == p.reference
                    && t.spill == x.recipient.reference
                    && t.blockers == StatesOf(BlockersOf(s.participants, s.blocks, p.objectId)))
  {
    hide *;
    DraftIs(s, seat, DraftOf(s, seat).sources, DraftOf(s, seat).attacking, DraftOf(s, seat).deathtouch,
            DraftOf(s, seat).tramplers) by { DraftedSelf(s, seat); }
    DraftedSelf(s, seat);
    SourcesMeaning(s, seat);
    SetsMeaning(s, seat);
    TramplersMeaning(s, seat);
  }

  /** The attack was blocked, the attacker tramples, and the recipient is legal. */
  predicate Spills(s: Snapshot, p: Participant, x: Attack) {
    && x in s.attacks && x.source == p.objectId && x.recipient.legal
    && p.objectId in s.wasBlocked && "trample" in p.keywords
  }

  lemma DraftedSelf(s: Snapshot, seat: string)
    ensures DraftOf(s, seat).actor == seat
    ensures Drafted(s, SeatOnly(s.participants, seat), DraftOf(s, seat).sources, DraftOf(s, seat).attacking,
                    DraftOf(s, seat).deathtouch, DraftOf(s, seat).tramplers)
  {
    hide TargetsOf, TramplersOf, AttackingRefs, DeathtouchRefs;
  }

  lemma AsksIff(s: Snapshot, seat: string, p: Participant)
    ensures p in SeatOnly(s.participants, seat) <==> Asks(s, seat, p)
  {
  }

  lemma SourcesMeaning(s: Snapshot, seat: string)
    ensures forall spec :: spec in DraftOf(s, seat).sources <==>
              exists p :: Asks(s, seat, p)
                && spec == SourceSpec(p.reference, seat, p.logicalId, if p.power > 0 then p.power else 0,
                                      TargetsOf(s, p))
  {
    hide SourceOf, SeatOnly, Asks;
    var ps, sources := SeatOnly(s.participants, seat), DraftOf(s, seat).sources;
    DraftParts(s, seat);
    forall p ensures p in ps <==> Asks(s, seat, p) { AsksIff(s, seat, p); }
    forall spec ensures spec in sources <==> exists p :: Asks(s, seat, p) && spec == SourceOf(s, p) {
      if spec in sources {
        var i :| 0 <= i < |sources| && sources[i] == spec;
        assert ps[i] in ps;
      }
      if p :| Asks(s, seat, p) && spec == SourceOf(s, p) {
        assert p in ps;
        var i :| 0 <= i < |ps| && ps[i] == p;
        assert sources[i] == spec;
      }
    }
    forall p | Asks(s, seat, p)
      ensures SourceOf(s, p) ==
              SourceSpec(p.reference, seat, p.logicalId, if p.power > 0 then p.power else 0, TargetsOf(s, p))
    {
      AskedSource(s, seat, p);
    }
  }

  lemma AskedSource(s: Snapshot, seat: string, p: Participant)
    requires Asks(s, seat, p)
    ensures SourceOf(s, p) ==
            SourceSpec(p.reference, seat, p.logicalId, if p.power > 0 then p.power else 0, TargetsOf(s, p))
  {
    hide TargetsOf;
  }

  lemma SetsMeaning(s: Snapshot, seat: string)
    ensures forall r :: r in DraftOf(s, seat).attacking <==>
              exists p :: Asks(s, seat, p) && Attacks(s, p) && p.reference == r
    ensures forall r :: r in DraftOf(s, seat).deathtouch <==>
              exists p :: Asks(s, seat, p) && Attacks(s, p) && "deathtouch" in p.keywords && p.reference == r
  {
    hide TargetsOf, TramplersOf, AttackingRefs, DeathtouchRefs, Attacks, Asks, SeatOnly;
    forall p ensures p in SeatOnly(s.participants, seat) <==> Asks(s, seat, p) { AsksIff(s, seat, p); }
    var ps := SeatOnly(s.participants, seat);
    forall r ensures r in AttackingRefs(s, ps) <==> exists p :: p in ps && Attacks(s, p) && p.reference == r {
      AttackingAre(s, ps, r);
      assert AttackerNamed(s, ps, r, false) <==> exists p :: p in ps && Attacks(s, p) && p.reference == r;
    }
    forall r ensures r in DeathtouchRefs(s, ps) <==>
                     exists p :: p in ps && Attacks(s, p) && "deathtouch" in p.keywords && p.reference == r
    {
      AttackingAre(s, ps, r);
    }
    DraftSetsAre(s, seat);
  }

  lemma DraftSetsAre(s: Snapshot, seat: string)
    ensures DraftOf(s, seat).attacking == AttackingRefs(s, SeatOnly(s.participants, seat))
    ensures DraftOf(s, seat).deathtouch == DeathtouchRefs(s, SeatOnly(s.participants, seat))
  {
    hide SeatOnly, AttackingRefs, DeathtouchRefs, SourcesOf, TramplersOf;
  }

  lemma TramplersMeaning(s: Snapshot, seat: string)
    requires ValidSnapshot(s)
    ensures forall t :: t in DraftOf(s, seat).tramplers <==>
              exists p, x :: Asks(s, seat, p) && Spills(s, p, x) && t.attacker == p.reference
                && t.spill == x.recipient.reference
                && t.blockers == StatesOf(BlockersOf(s.participants, s.blocks, p.objectId))
  {
    hide *;
    DraftParts(s, seat);
    forall t
      ensures t in DraftOf(s, seat).tramplers <==>
              exists p, x :: Asks(s, seat, p) && Spills(s, p, x) && t.attacker == p.reference
                && t.spill == x.recipient.reference
                && t.blockers == StatesOf(BlockersOf(s.participants, s.blocks, p.objectId))
    {
      TramplersAre(s, SeatOnly(s.participants, seat), t);
      forall p ensures p in SeatOnly(s.participants, seat) <==> Asks(s, seat, p) { AsksIff(s, seat, p); }
      forall p
        ensures TramplesOver(s, p) && TramplerOf(s, p) == t <==>
                exists x :: Spills(s, p, x) && t.attacker == p.reference && t.spill == x.recipient.reference
                  && t.blockers == StatesOf(BlockersOf(s.participants, s.blocks, p.objectId))
      {
        TramplerIff(s, p, t);
      }
    }
  }

  lemma TramplerIff(s: Snapshot, p: Participant, t: TrampleSpec)
    requires ValidSnapshot(s)
    ensures TramplesOver(s, p) && TramplerOf(s, p) == t <==>
            exists x :: Spills(s, p, x) && t.attacker == p.reference && t.spill == x.recipient.reference
              && t.blockers == StatesOf(BlockersOf(s.participants, s.blocks, p.objectId))
  {
    hide ValidSnapshot, AttackOf, BlockersOf, StatesOf;
    AttackIsOnly(s, p.objectId);
    var attack := AttackOf(s.attacks, p.objectId);
    if x :| x in s.attacks && x.source == p.objectId {
      assert attack == Some(x);
    }
    if TramplesOver(s, p) {
      assert Spills(s, p, attack.value);
    }
  }

  // ----- proposals -----

  /** A proposal is well formed exactly when it names a step and an actor; its sources are the actor's,
      named apart, with distinct named targets; what attacks is a source and what has deathtouch
      attacks; and each trampling source, named once, attacks and has for its targets distinct
      blockers in order and what it spills onto. */
  lemma ProposalIsWellFormed(p: Proposal)
    ensures ValidProposal(p) <==>
            && p.step != "" && p.actor != ""
            && (forall s :: s in p.sources ==>
                  && s.source != "" && s.logicalId != "" && s.controller == p.actor && "" !in s.targets
                  && forall i, j :: 0 <= i < j < |s.targets| ==> s.targets[i] != s.targets[j])
            && (forall i, j :: 0 <= i < j < |p.sources| ==>
                  p.sources[i].source != p.sources[j].source && p.sources[i].logicalId != p.sources[j].logicalId)
            && (forall a :: a in p.attacking ==> exists s :: s in p.sources && s.source == a)
            && p.deathtouch <= p.attacking
            && (forall i, j :: 0 <= i < j < |p.tramplers| ==> p.tramplers[i].attacker != p.tramplers[j].attacker)
            && forall t :: t in p.tramplers ==>
                 && t.attacker in p.attacking
                 && (forall i, j :: 0 <= i < j < |t.blockers| ==> t.blockers[i].reference != t.blockers[j].reference)
                 && forall s :: s in p.sources && s.source == t.attacker ==>
                      t.spill in s.targets && BlockerNames(t.blockers) == Except(s.targets, t.spill)
  {
    hide Except, BlockerNames, SourceNames, LogicalNames, TramplerNames;
    SourcesNamed(p);
    forall s | s in p.sources ensures exists i :: 0 <= i < |p.sources| && p.sources[i] == s {
    }
    forall t: TrampleSpec
      ensures Pairwise(BlockerNames(t.blockers)) <==>
              forall i, j :: 0 <= i < j < |t.blockers| ==> t.blockers[i].reference != t.blockers[j].reference
    {
      BlockersNamed(t);
    }
  }

  lemma BlockersNamed(t: TrampleSpec)
    ensures Pairwise(BlockerNames(t.blockers)) <==>
            forall i, j :: 0 <= i < j < |t.blockers| ==> t.blockers[i].reference != t.blockers[j].reference
  {
    if Pairwise(BlockerNames(t.blockers)) {
      forall i, j | 0 <= i < j < |t.blockers| ensures t.blockers[i].reference != t.blockers[j].reference {
        assert BlockerNames(t.blockers)[i] != BlockerNames(t.blockers)[j];
      }
    }
  }

  lemma SourcesNamed(p: Proposal)
    ensures Pairwise(SourceNames(p.sources)) && Pairwise(LogicalNames(p.sources)) <==>
            forall i, j :: 0 <= i < j < |p.sources| ==>
              p.sources[i].source != p.sources[j].source && p.sources[i].logicalId != p.sources[j].logicalId
    ensures forall a :: a in SourceNames(p.sources) <==> exists s :: s in p.sources && s.source == a
    ensures Pairwise(TramplerNames(p.tramplers)) <==>
            forall i, j :: 0 <= i < j < |p.tramplers| ==> p.tramplers[i].attacker != p.tramplers[j].attacker
  {
    var names, logical, ts := SourceNames(p.sources), LogicalNames(p.sources), TramplerNames(p.tramplers);
    forall i, j | 0 <= i < j < |p.sources|
      ensures names[i] == p.sources[i].source && names[j] == p.sources[j].source
      ensures logical[i] == p.sources[i].logicalId && logical[j] == p.sources[j].logicalId
    {
    }
    if Pairwise(names) && Pairwise(logical) {
      forall i, j | 0 <= i < j < |p.sources|
        ensures p.sources[i].source != p.sources[j].source && p.sources[i].logicalId != p.sources[j].logicalId
      {
        assert names[i] != names[j] && logical[i] != logical[j];
      }
    }
    if Pairwise(ts) {
      forall i, j | 0 <= i < j < |p.tramplers| ensures p.tramplers[i].attacker != p.tramplers[j].attacker {
        assert ts[i] != ts[j];
      }
    }
    forall s | s in p.sources ensures s.source in names {
      var i :| 0 <= i < |p.sources| && p.sources[i] == s;
      assert names[i] == s.source;
    }
  }
}

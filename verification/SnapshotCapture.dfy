/** Building the combat-damage snapshot: one reading of the game, put in canonical order. */
module SnapshotCapture {
  import opened Wrappers
  import opened Orders
  import opened DamageSnapshot
  import KeywordTriggers
  import Participants

  datatype Error = Malformed

  /** What the engine answers while a snapshot is read. */
  datatype Query = Query(stepId: string, stepIndex: nat, firstStrike: bool, activePlayer: string,
                         ids: seq<string>, participant: string -> Participant,
                         attackers: seq<string>, recipient: string -> Recipient,
                         blockers: string -> seq<string>, blocked: string -> bool)

  function ParticipantKey(p: Participant): Key {
    Tup([Str(p.reference), Str(p.objectId)])
  }

  function RefIn(byId: map<string, Participant>, id: string): string {
    if id in byId then byId[id].reference else ""
  }

  function AttackKey(byId: map<string, Participant>): Attack -> Key {
    (x: Attack) => Tup([Str(RefIn(byId, x.source)), Str(x.source)])
  }

  /** Blocks are ordered by references alone. */
  function BlockKey(byId: map<string, Participant>): Block -> Key {
    (x: Block) => Tup([Str(RefIn(byId, x.attacker)), Str(RefIn(byId, x.blocker))])
  }

  function ByIdOf(q: Query): map<string, Participant> {
    map id | id in q.ids :: q.participant(id)
  }

  function People(q: Query): set<Participant> {
    set id | id in q.ids :: q.participant(id)
  }

  function Attacks(q: Query): set<Attack> {
    set a | a in q.attackers :: Attack(a, q.recipient(a))
  }

  function Blocks(q: Query): set<Block> {
    set a, b | a in q.attackers && b in q.blockers(a) :: Block(a, b)
  }

  function Blocked(q: Query): set<string> {
    set a | a in q.attackers && q.blocked(a)
  }

  predicate Steady(q: Query) {
    forall id :: id in q.ids ==> q.participant(id).objectId == id
  }

  predicate CleanBlockers(q: Query, a: string) {
    Participants.CleanIds(q.blockers(a)) && forall b :: b in q.blockers(a) ==> b in q.ids
  }

  /** The builder's own checks. */
  predicate Readable(q: Query) {
    && Participants.CleanIds(q.ids) && Steady(q)
    && Participants.CleanIds(q.attackers) && (forall a :: a in q.attackers ==> a in q.ids)
    && forall a :: a in q.attackers ==> CleanBlockers(q, a)
  }

  predicate UniqueRefs(q: Query) {
    forall c, d :: c in q.ids && d in q.ids && q.participant(c).reference == q.participant(d).reference ==> c == d
  }

  lemma KeysIdentify(q: Query)
    requires Readable(q)
    ensures InjectiveOn(ParticipantKey, People(q))
    ensures InjectiveOn(AttackKey(ByIdOf(q)), Attacks(q))
    ensures UniqueRefs(q) ==> InjectiveOn(BlockKey(ByIdOf(q)), Blocks(q))
  {
    ParticipantKeysIdentify(q);
    AttackKeysIdentify(q);
    if UniqueRefs(q) { BlockKeysIdentify(q); }
  }

  lemma ParticipantKeysIdentify(q: Query)
    requires Steady(q)
    ensures InjectiveOn(ParticipantKey, People(q))
  {
    forall x, y | x in People(q) && y in People(q) && ParticipantKey(x) == ParticipantKey(y) ensures x == y {
      assert ParticipantKey(x).parts[1] == ParticipantKey(y).parts[1];
    }
  }

  lemma AttackKeysIdentify(q: Query)
    ensures InjectiveOn(AttackKey(ByIdOf(q)), Attacks(q))
  {
    hide RefIn;
    var key := AttackKey(ByIdOf(q));
    forall x, y | x in Attacks(q) && y in Attacks(q) && key(x) == key(y) ensures x == y {
      assert key(x).parts[1] == key(y).parts[1];
    }
  }

  lemma BlockKeysIdentify(q: Query)
    requires Readable(q) && UniqueRefs(q)
    ensures InjectiveOn(BlockKey(ByIdOf(q)), Blocks(q))
  {
    hide Readable;
    var key := BlockKey(ByIdOf(q));
    forall x, y | x in Blocks(q) && y in Blocks(q) && key(x) == key(y) ensures x == y {
      assert key(x).parts[0] == key(y).parts[0] && key(x).parts[1] == key(y).parts[1];
      EndsListed(q, x);
      EndsListed(q, y);
    }
  }

  lemma EndsListed(q: Query, x: Block)
    requires Readable(q) && x in Blocks(q)
    ensures x.attacker in q.ids && x.blocker in q.ids
  {
    assert CleanBlockers(q, x.attacker);
  }

  /** The snapshot a query describes. */
  function Described(q: Query): Snapshot
    requires Readable(q) && UniqueRefs(q)
  {
    KeysIdentify(q);
    Snapshot(q.stepId, q.stepIndex, q.firstStrike, q.activePlayer,
             SortSet(ParticipantKey, People(q)), SortSet(AttackKey(ByIdOf(q)), Attacks(q)),
             SortSet(BlockKey(ByIdOf(q)), Blocks(q)), Blocked(q))
  }

  function Outcome(q: Query): Result<Snapshot, Error> {
    if Readable(q) && UniqueRefs(q) && ValidSnapshot(Described(q)) then Ok(Described(q)) else Err(Malformed)
  }

  lemma DescribedIs(q: Query)
    requires Readable(q) && UniqueRefs(q)
    ensures InjectiveOn(ParticipantKey, People(q)) && InjectiveOn(AttackKey(ByIdOf(q)), Attacks(q))
    ensures InjectiveOn(BlockKey(ByIdOf(q)), Blocks(q))
    ensures Described(q) ==
            Snapshot(q.stepId, q.stepIndex, q.firstStrike, q.activePlayer,
                     SortSet(ParticipantKey, People(q)), SortSet(AttackKey(ByIdOf(q)), Attacks(q)),
                     SortSet(BlockKey(ByIdOf(q)), Blocks(q)), Blocked(q))
  {
    KeysIdentify(q);
  }

  /** The same reading, enumerated differently. */
  ghost predicate SameReading(q: Query, r: Query) {
    && (q.stepId, q.stepIndex, q.firstStrike, q.activePlayer) == (r.stepId, r.stepIndex, r.firstStrike, r.activePlayer)
    && q.participant == r.participant && q.recipient == r.recipient && q.blocked == r.blocked
    && multiset(q.ids) == multiset(r.ids) && multiset(q.attackers) == multiset(r.attackers)
    && forall a :: a in q.attackers ==> multiset(q.blockers(a)) == multiset(r.blockers(a))
  }

  lemma SameMembers(q: Query, r: Query)
    requires SameReading(q, r)
    ensures forall id :: id in q.ids <==> id in r.ids
    ensures forall a :: a in q.attackers <==> a in r.attackers
    ensures forall a, b :: a in q.attackers ==> (b in q.blockers(a) <==> b in r.blockers(a))
    ensures Participants.CleanIds(q.ids) == Participants.CleanIds(r.ids)
    ensures Participants.CleanIds(q.attackers) == Participants.CleanIds(r.attackers)
    ensures forall a :: a in q.attackers ==>
            Participants.CleanIds(q.blockers(a)) == Participants.CleanIds(r.blockers(a))
  {
    hide Participants.CleanIds;
    SameMultiset(q.ids, r.ids);
    SameMultiset(q.attackers, r.attackers);
    Participants.CleanPermutes(q.ids, r.ids);
    Participants.CleanPermutes(q.attackers, r.attackers);
    forall a | a in q.attackers
      ensures SameElements(q.blockers(a), r.blockers(a))
      ensures Participants.CleanIds(q.blockers(a)) == Participants.CleanIds(r.blockers(a))
    {
      SameMultiset(q.blockers(a), r.blockers(a));
      Participants.CleanPermutes(q.blockers(a), r.blockers(a));
    }
  }

  lemma SameParts(q: Query, r: Query)
    requires SameReading(q, r)
    ensures Readable(q) == Readable(r) && UniqueRefs(q) == UniqueRefs(r)
    ensures ByIdOf(q) == ByIdOf(r) && People(q) == People(r) && Attacks(q) == Attacks(r)
    ensures Blocks(q) == Blocks(r) && Blocked(q) == Blocked(r)
  {
    SameMembers(q, r);
    hide Participants.CleanIds;
    forall a | a in q.attackers ensures CleanBlockers(q, a) == CleanBlockers(r, a) {
    }
    assert Readable(q) == Readable(r) by { hide CleanBlockers; }
    assert Blocks(q) == Blocks(r) by {
      forall x ensures x in Blocks(q) <==> x in Blocks(r) {
      }
    }
  }

  /** The snapshot does not depend on the order in which participants, attackers or blockers
      are listed, even though blocks are sorted by reference alone. */
  lemma EnumerationIsIrrelevant(q: Query, r: Query)
    requires SameReading(q, r)
    ensures Outcome(q) == Outcome(r)
  {
    SameParts(q, r);
    if Readable(q) && UniqueRefs(q) {
      DescribedIs(q);
      DescribedIs(r);
    }
  }

  // ----- the reading loops -----

  /** Asks for every participant in the order given. */
  method ReadPeople(q: Query) returns (r: Result<seq<Participant>, Error>)
    requires Participants.CleanIds(q.ids)
    ensures r.Ok? <==> Steady(q)
    ensures r.Ok? ==> Distinct(r.value) && forall p :: p in r.value <==> p in People(q)
  {
    var people: seq<Participant> := [];
    for i := 0 to |q.ids|
      invariant |people| == i && forall k :: 0 <= k < i ==> people[k] == q.participant(q.ids[k])
    {
      people := people + [q.participant(q.ids[i])];
    }
    if exists i :: 0 <= i < |people| && people[i].objectId != q.ids[i] {
      return Err(Malformed);
    }
    forall id | id in q.ids ensures q.participant(id).objectId == id {
      var k :| 0 <= k < |q.ids| && q.ids[k] == id;
      assert people[k].objectId == id;
    }
    forall p | p in People(q) ensures p in people {
      var id :| id in q.ids && p == q.participant(id);
      var k :| 0 <= k < |q.ids| && q.ids[k] == id;
      assert people[k] == p;
    }
    return Ok(people);
  }

  method ReadAttacks(q: Query) returns (xs: seq<Attack>)
    requires Participants.CleanIds(q.attackers)
    ensures Distinct(xs) && forall x :: x in xs <==> x in Attacks(q)
  {
    xs := [];
    for i := 0 to |q.attackers|
      invariant |xs| == i && forall k :: 0 <= k < i ==> xs[k] == Attack(q.attackers[k], q.recipient(q.attackers[k]))
    {
      xs := xs + [Attack(q.attackers[i], q.recipient(q.attackers[i]))];
    }
    forall x ensures x in xs <==> x in Attacks(q) {
      if x in Attacks(q) {
        var k :| 0 <= k < |q.attackers| && q.attackers[k] == x.source;
        assert xs[k] == x;
      }
    }
  }

  function BlocksOn(a: string, bs: seq<string>): seq<Block> {
    seq(|bs|, i requires 0 <= i < |bs| => Block(a, bs[i]))
  }

  /** What has been read once the attackers in `done` are behind. */
  ghost predicate Behind(q: Query, done: set<string>, xs: seq<Block>, was: set<string>) {
    && Distinct(xs)
    && (forall x: Block :: x in xs <==> x.attacker in done && x.blocker in q.blockers(x.attacker))
    && was == set a | a in done && q.blocked(a)
  }

  lemma BehindOneMore(q: Query, done: set<string>, xs: seq<Block>, was: set<string>, a: string)
    requires Behind(q, done, xs, was) && a !in done && Participants.CleanIds(q.blockers(a))
    ensures Behind(q, done + {a}, xs + BlocksOn(a, q.blockers(a)), was + if q.blocked(a) then {a} else {})
  {
    var bs := q.blockers(a);
    var added := BlocksOn(a, bs);
    forall x: Block ensures x in added <==> x.attacker == a && x.blocker in bs {
      if x.attacker == a && x.blocker in bs {
        var i :| 0 <= i < |bs| && bs[i] == x.blocker;
        assert added[i] == x;
      }
    }
    KeywordTriggers.ConcatDistinct(xs, added);
  }

  /** Reads the blocks of every attack, and which attackers were blocked. */
  method ReadBlocks(q: Query, attacks: seq<Attack>) returns (r: Result<(seq<Block>, set<string>), Error>)
    requires Distinct(attacks) && forall x :: x in attacks <==> x in Attacks(q)
    ensures r.Ok? <==> forall a :: a in q.attackers ==> CleanBlockers(q, a)
    ensures r.Ok? ==> Distinct(r.value.0) && (forall x :: x in r.value.0 <==> x in Blocks(q)) && r.value.1 == Blocked(q)
  {
    hide BlocksOn;
    var xs: seq<Block>, was: set<string> := [], {};
    ghost var done: set<string> := {};
    AttacksAre(q, attacks);
    for i := 0 to |attacks|
      invariant done == set k | 0 <= k < i :: attacks[k].source
      invariant Behind(q, done, xs, was)
      invariant forall a :: a in done ==> CleanBlockers(q, a)
    {
      var a := attacks[i].source;
      var bs := q.blockers(a);
      if !Participants.CleanIds(bs) || exists b :: b in bs && b !in q.ids {
        return Err(Malformed);
      }
      BehindOneMore(q, done, xs, was, a);
      if q.blocked(a) { was := was + {a}; } else { assert was + {} == was; }
      xs := xs + BlocksOn(a, bs);
      done := done + {a};
    }
    return Ok((xs, was));
  }

  lemma AttacksAre(q: Query, attacks: seq<Attack>)
    requires Distinct(attacks) && forall x :: x in attacks <==> x in Attacks(q)
    ensures forall i :: 0 <= i < |attacks| ==> attacks[i].source in q.attackers
    ensures forall i, j :: 0 <= i < j < |attacks| ==> attacks[i].source != attacks[j].source
    ensures forall a :: a in q.attackers ==> exists i :: 0 <= i < |attacks| && attacks[i].source == a
  {
    forall i | 0 <= i < |attacks|
      ensures attacks[i].source in q.attackers
              && attacks[i] == Attack(attacks[i].source, q.recipient(attacks[i].source))
    {
      assert attacks[i] in Attacks(q);
    }
    forall a | a in q.attackers ensures exists i :: 0 <= i < |attacks| && attacks[i].source == a {
      assert Attack(a, q.recipient(a)) in attacks;
    }
  }

  lemma SharedRefRefused(q: Query, s: Snapshot)
    requires Readable(q) && !UniqueRefs(q) && forall p :: p in s.participants <==> p in People(q)
    ensures !ValidSnapshot(s)
  {
    var c, d :| c in q.ids && d in q.ids && q.participant(c).reference == q.participant(d).reference && c != d;
    assert q.participant(c) in People(q) && q.participant(d) in People(q);
    var i :| 0 <= i < |s.participants| && s.participants[i] == q.participant(c);
    var j :| 0 <= j < |s.participants| && s.participants[j] == q.participant(d);
    assert i != j;
    assert Refs(s.participants)[i] == Refs(s.participants)[j];
  }

  lemma SortKeepsMembers<T(!new)>(lt: (T, T) -> bool, listing: seq<T>)
    ensures forall x :: x in Sort(lt, listing) <==> x in listing
    ensures Distinct(listing) ==> Distinct(Sort(lt, listing))
  {
    SortElements(lt, listing);
    if Distinct(listing) { DistinctSortDistinct(lt, listing); }
  }

  /** Reads one coherent snapshot, and refuses a malformed reading. */
  method Build(q: Query) returns (r: Result<Snapshot, Error>)
    ensures r == Outcome(q)
  {
    hide ValidSnapshot, Described, Sort, SortSet, UniqueRefs, ParticipantKey, AttackKey, BlockKey, ByIdOf, Blocks,
         Blocked, CleanBlockers;
    hide Participants.CleanIds, Attacks, People, Steady, Distinct, InjectiveOn;
    if !Participants.CleanIds(q.ids) { return Err(Malformed); }
    var people := ReadPeople(q);
    if people.Err? { return Err(Malformed); }
    var participants := Sort(ByKey(ParticipantKey), people.value);
    if !Participants.CleanIds(q.attackers) { return Err(Malformed); }
    if exists a :: a in q.attackers && a !in q.ids { return Err(Malformed); }
    var byId := ByIdOf(q);
    var listed := ReadAttacks(q);
    var attacks := Sort(ByKey(AttackKey(byId)), listed);
    SortKeepsMembers(ByKey(AttackKey(byId)), listed);
    var read := ReadBlocks(q, attacks);
    if read.Err? { return Err(Malformed); }
    var blocks := Sort(ByKey(BlockKey(byId)), read.value.0);
    var s := Snapshot(q.stepId, q.stepIndex, q.firstStrike, q.activePlayer, participants, attacks, blocks,
                      read.value.1);
    if UniqueRefs(q) {
      DescribedIs(q);
      SortOfListing(ParticipantKey, people.value, People(q));
      SortOfListing(AttackKey(byId), listed, Attacks(q));
      SortOfListing(BlockKey(byId), read.value.0, Blocks(q));
    } else {
      SortKeepsMembers(ByKey(ParticipantKey), people.value);
      SharedRefRefused(q, s);
    }
    if !ValidSnapshot(s) { return Err(Malformed); }
    return Ok(s);
  }
}

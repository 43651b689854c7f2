/** Deriving the Exalted, Battle Cry and Melee triggers that a sealed attack transition causes
    (CR 702.83, CR 702.91, CR 702.121). An occurrence is identified by its contents. */
module AttackTriggers {
  import opened Orders
  import opened KeywordTriggers
  import opened Participants
  import opened AttackTransitions

  datatype Occurrence = Occurrence(transition: Transition, kind: Kind, controller: string,
                                   source: Identity, affected: seq<Identity>, amount: int, index: int)

  function IdentityKey(i: Identity): Key {
    Tup([Str(i.reference), Str(i.objectId)])
  }

  /** What the occurrence constructor accepts. */
  predicate ValidOccurrence(o: Occurrence) {
    && (o.kind == Exalted || o.kind == BattleCry || o.kind == Melee)
    && o.controller != "" && ValidIdentity(o.source)
    && (forall i :: 0 <= i < |o.affected| ==> ValidIdentity(o.affected[i]))
    && (forall i, j :: 0 <= i < j < |o.affected| ==> o.affected[i].objectId != o.affected[j].objectId)
    && o.affected == Sort(ByKey(IdentityKey), o.affected)
    && o.amount >= 0 && o.index >= 0
    && (o.kind != Melee ==> o.amount == 1)
    && (o.kind == Exalted ==> |o.affected| == 1)
    && (o.kind == Melee ==> o.affected == [o.source])
    && (o.kind == BattleCry ==> o.source !in o.affected)
  }

  function References(ids: seq<Identity>): (r: seq<Key>)
    ensures |r| == |ids| && forall i :: 0 <= i < |r| ==> r[i] == Str(ids[i].reference)
  {
    seq(|ids|, i requires 0 <= i < |ids| => Str(ids[i].reference))
  }

  function OccurrenceKey(o: Occurrence): Key {
    Tup([Str(o.source.reference), Str(KindName(o.kind)), Tup(References(o.affected)), Num(o.index)])
  }

  // ----- what is due -----

  function Attacker(t: Transition, k: nat): Creature
    requires Coherent(t) && k < |t.assignments|
  {
    Closed(t, k);
    ById(t.participants)[t.assignments[k].attacker]
  }

  function Attackers(t: Transition, n: nat): seq<Creature>
    requires Coherent(t) && n <= |t.assignments|
  {
    hide Coherent;
    if n == 0 then [] else Attackers(t, n - 1) + [Attacker(t, n - 1)]
  }

  /** The identities in a list other than one object's. */
  function Except(ps: seq<Creature>, id: string): seq<Identity> {
    if ps == [] then []
    else Except(ps[..|ps| - 1], id) + if ps[|ps| - 1].identity.objectId != id then [ps[|ps| - 1].identity] else []
  }

  /** The other attacking creatures, in canonical order. */
  function Others(t: Transition, id: string): seq<Identity>
    requires Coherent(t)
  {
    Sort(ByKey(IdentityKey), Except(Attackers(t, |t.assignments|), id))
  }

  /** The players attacked directly. */
  function DirectOpponents(t: Transition): set<string> {
    set i | 0 <= i < |t.assignments|
      && t.assignments[i].recipient.kind == Player :: t.assignments[i].recipient.reference
  }

  /** One Exalted trigger for each instance on any participant, for a creature attacking alone. */
  ghost predicate ExaltedDue(t: Transition, o: Occurrence)
    requires Coherent(t)
  {
    |t.assignments| == 1 && exists k :: 0 <= k < |t.participants| && ExaltedOf(t, t.participants[k], o)
  }

  ghost predicate ExaltedOf(t: Transition, p: Creature, o: Occurrence)
    requires Coherent(t) && |t.assignments| == 1
  {
    && 0 <= o.index < |Instances(p.specs, Exalted)|
    && o == Occurrence(t, Exalted, p.controller, p.identity, [Attacker(t, 0).identity], 1, o.index)
  }

  /** One Battle Cry trigger for each instance on an attacker, over all the other attackers. */
  ghost predicate BattleCryDue(t: Transition, o: Occurrence)
    requires Coherent(t)
  {
    exists k :: 0 <= k < |t.assignments| && BattleCryOf(t, Attacker(t, k), o)
  }

  ghost predicate BattleCryOf(t: Transition, p: Creature, o: Occurrence)
    requires Coherent(t)
  {
    && 0 <= o.index < |Instances(p.specs, BattleCry)|
    && o == Occurrence(t, BattleCry, p.controller, p.identity, Others(t, p.identity.objectId), 1, o.index)
  }

  /** One Melee trigger for each instance on an attacker, counting the players attacked. */
  ghost predicate MeleeDue(t: Transition, o: Occurrence)
    requires Coherent(t)
  {
    exists k :: 0 <= k < |t.assignments| && MeleeOf(t, Attacker(t, k), o)
  }

  ghost predicate MeleeOf(t: Transition, p: Creature, o: Occurrence) {
    && 0 <= o.index < |Instances(p.specs, Melee)|
    && o == Occurrence(t, Melee, p.controller, p.identity, [p.identity], |DirectOpponents(t)|, o.index)
  }

  ghost predicate Due(t: Transition, o: Occurrence)
    requires Coherent(t)
  {
    ExaltedDue(t, o) || BattleCryDue(t, o) || MeleeDue(t, o)
  }

  // ----- facts about a sealed event -----

  lemma AttackerIs(t: Transition, k: nat)
    requires Coherent(t) && k < |t.assignments|
    ensures var p := Attacker(t, k);
            && t.assignments[k].attacker in ById(t.participants) && p == ById(t.participants)[t.assignments[k].attacker]
            && p in t.participants && p.identity.objectId == t.assignments[k].attacker && Known(p)
  {
    Closed(t, k);
  }

  lemma AttackersDiffer(t: Transition, i: nat, j: nat)
    requires Coherent(t) && i < j < |t.assignments|
    ensures Attacker(t, i) != Attacker(t, j)
    ensures Attacker(t, i).identity.objectId != Attacker(t, j).identity.objectId
  {
    AttackerIs(t, i);
    AttackerIs(t, j);
  }

  lemma {:induction false} AttackersAre(t: Transition, n: nat, k: nat)
    requires Coherent(t) && n <= |t.assignments|
    ensures |Attackers(t, n)| == n && (k < n ==> Attackers(t, n)[k] == Attacker(t, k))
  {
    hide Coherent, Attacker;
    if n == 0 {
    } else {
      AttackersAre(t, n - 1, k);
    }
  }

  lemma {:induction false} ExceptAre(ps: seq<Creature>, id: string)
    requires UniqueObjects(ps)
    ensures forall i: Identity :: i in Except(ps, id) <==> i.objectId != id && exists p :: p in ps && p.identity == i
    ensures forall i, j :: 0 <= i < j < |Except(ps, id)| ==> Except(ps, id)[i].objectId != Except(ps, id)[j].objectId
  {
    if ps == [] {
    } else {
      var n := |ps| - 1;
      var front, last := ps[..n], ps[n];
      assert ps == front + [last];
      ExceptAre(front, id);
      forall i: Identity ensures i in Except(ps, id) <==> i.objectId != id && exists p :: p in ps && p.identity == i {
        if p :| p in ps && p.identity == i {
          assert p in front || p == last;
        }
        assert last in ps;
      }
      forall p | p in front ensures p.identity.objectId != last.identity.objectId {
      }
    }
  }

  /** Battle Cry's affected creatures: exactly the other attackers, distinct, in canonical
      order. */
  lemma OthersAre(t: Transition, id: string)
    requires Coherent(t)
    ensures forall i: Identity :: i in Others(t, id) <==>
              i.objectId != id && exists k :: 0 <= k < |t.assignments| && Attacker(t, k).identity == i
    ensures forall i, j :: 0 <= i < j < |Others(t, id)| ==> Others(t, id)[i].objectId != Others(t, id)[j].objectId
    ensures Sorted(ByKey(IdentityKey), Others(t, id)) && Others(t, id) == Sort(ByKey(IdentityKey), Others(t, id))
  {
    hide Coherent, Attackers, Attacker, Except, Sort, Sorted, IdentityKey, UniqueObjects;
    var ps := Attackers(t, |t.assignments|);
    AttackersUnique(t);
    ExceptAre(ps, id);
    var others := Except(ps, id);
    IdentitiesSort(others);
    forall i: Identity ensures i in Others(t, id) <==>
              i.objectId != id && exists k :: 0 <= k < |t.assignments| && Attacker(t, k).identity == i
    {
      AttackerListed(t, i);
    }
  }

  lemma AttackerListed(t: Transition, i: Identity)
    requires Coherent(t)
    ensures (exists p :: p in Attackers(t, |t.assignments|) && p.identity == i) <==>
            exists k :: 0 <= k < |t.assignments| && Attacker(t, k).identity == i
  {
    hide Coherent, Attackers, Attacker;
    var n := |t.assignments|;
    var ps := Attackers(t, n);
    AttackersAre(t, n, 0);
    if p :| p in ps && p.identity == i {
      var k :| 0 <= k < |ps| && ps[k] == p;
      AttackersAre(t, n, k);
    }
    if k :| 0 <= k < n && Attacker(t, k).identity == i {
      AttackersAre(t, n, k);
      assert ps[k] in ps;
    }
  }

  lemma AttackersUnique(t: Transition)
    requires Coherent(t)
    ensures UniqueObjects(Attackers(t, |t.assignments|))
  {
    hide Coherent, Attackers, Attacker;
    var ps := Attackers(t, |t.assignments|);
    AttackersAre(t, |t.assignments|, 0);
    forall i, j | 0 <= i < j < |ps| ensures ps[i].identity.objectId != ps[j].identity.objectId {
      AttackersAre(t, |t.assignments|, i);
      AttackersAre(t, |t.assignments|, j);
      AttackersDiffer(t, i, j);
    }
  }

  lemma IdentitiesSort(ids: seq<Identity>)
    requires forall i, j :: 0 <= i < j < |ids| ==> ids[i].objectId != ids[j].objectId
    ensures var s := Sort(ByKey(IdentityKey), ids);
            && (forall i :: i in s <==> i in ids) && Sorted(ByKey(IdentityKey), s)
            && Sort(ByKey(IdentityKey), s) == s
            && forall i, j :: 0 <= i < j < |s| ==> s[i].objectId != s[j].objectId
  {
    var s := Sort(ByKey(IdentityKey), ids);
    IdentityKeysUnique(ids);
    SortByUniqueKey(IdentityKey, ids);
    ByKeyOrder(IdentityKey);
    SortOfSorted(ByKey(IdentityKey), s);
    ObjectsUnique(ids, s);
  }

  lemma IdentityKeysUnique(ids: seq<Identity>)
    requires forall i, j :: 0 <= i < j < |ids| ==> ids[i].objectId != ids[j].objectId
    ensures UniqueKeys(IdentityKey, ids)
  {
    forall i, j | 0 <= i < j < |ids| ensures IdentityKey(ids[i]) != IdentityKey(ids[j]) {
      assert IdentityKey(ids[i]).parts[1] != IdentityKey(ids[j]).parts[1];
    }
  }

  lemma ObjectsUnique(ids: seq<Identity>, s: seq<Identity>)
    requires multiset(s) == multiset(ids)
    requires forall i, j :: 0 <= i < j < |ids| ==> ids[i].objectId != ids[j].objectId
    ensures forall i, j :: 0 <= i < j < |s| ==> s[i].objectId != s[j].objectId
  {
    hide KeyLess;
    var key := (i: Identity) => Str(i.objectId);
    assert UniqueKeys(key, ids);
    UniqueKeysPermute(key, s, ids);
    forall i, j | 0 <= i < j < |s| ensures s[i].objectId != s[j].objectId {
      assert key(s[i]) != key(s[j]);
    }
  }

  // ----- jobs -----

  type Work = Job<Creature, seq<Identity>>
  type Sketch = Draft<Creature, seq<Identity>>

  /** The same amount for every instance. */
  function Each(specs: seq<Spec>, kind: Kind, amount: nat): (r: seq<nat>)
    ensures |r| == |Instances(specs, kind)| && forall i :: 0 <= i < |r| ==> r[i] == amount
  {
    seq(|Instances(specs, kind)|, _ => amount)
  }

  function ExaltedJob(t: Transition, k: nat): Work
    requires Coherent(t) && k < |t.participants|
  {
    var p := t.participants[k];
    Job(Exalted, p, if |t.assignments| == 1 then [Attacker(t, 0).identity] else [],
        if |t.assignments| == 1 then Each(p.specs, Exalted, 1) else [])
  }

  function BattleCryJob(t: Transition, k: nat): Work
    requires Coherent(t) && k < |t.assignments|
  {
    var p := Attacker(t, k);
    Job(BattleCry, p, Others(t, p.identity.objectId), Each(p.specs, BattleCry, 1))
  }

  function MeleeJob(t: Transition, k: nat): Work
    requires Coherent(t) && k < |t.assignments|
  {
    var p := Attacker(t, k);
    Job(Melee, p, [p.identity], Each(p.specs, Melee, |DirectOpponents(t)|))
  }

  /** The contributions of the first `n` participants and the first `m` attackers. */
  function Jobs(t: Transition, n: nat, m: nat): seq<Work>
    requires Coherent(t) && n <= |t.participants| && m <= |t.assignments|
  {
    hide Coherent;
    if m > 0 then Jobs(t, n, m - 1) + [BattleCryJob(t, m - 1)] + [MeleeJob(t, m - 1)]
    else if n > 0 then Jobs(t, n - 1, 0) + [ExaltedJob(t, n - 1)]
    else []
  }

  function AllJobs(t: Transition): seq<Work>
    requires Coherent(t)
  {
    Jobs(t, |t.participants|, |t.assignments|)
  }

  lemma {:induction false} JobAt(t: Transition, n: nat, m: nat, j: nat)
    requires Coherent(t) && n <= |t.participants| && m <= |t.assignments|
    ensures |Jobs(t, n, m)| == n + 2 * m
    ensures j < n ==> Jobs(t, n, m)[j] == ExaltedJob(t, j)
    ensures j < m ==> Jobs(t, n, m)[n + 2 * j] == BattleCryJob(t, j) && Jobs(t, n, m)[n + 2 * j + 1] == MeleeJob(t, j)
  {
    hide Coherent, ExaltedJob, BattleCryJob, MeleeJob;
    if m > 0 { JobAt(t, n, m - 1, j); }
    else if n > 0 { JobAt(t, n - 1, 0, j); }
  }

  /** Where each job of the transition stands. */
  lemma JobCases(t: Transition, i: nat) returns (k: nat)
    requires Coherent(t) && i < |AllJobs(t)|
    ensures var n := |t.participants|;
            if i < n then k == i && AllJobs(t)[i] == ExaltedJob(t, i)
            else k < |t.assignments| &&
                 ((i == n + 2 * k && AllJobs(t)[i] == BattleCryJob(t, k))
                  || (i == n + 2 * k + 1 && AllJobs(t)[i] == MeleeJob(t, k)))
  {
    hide Coherent, ExaltedJob, BattleCryJob, MeleeJob, Jobs;
    var n := |t.participants|;
    k := if i < n then i else (i - n) / 2;
    JobAt(t, n, |t.assignments|, k);
  }

  lemma HeadsDiffer(t: Transition)
    requires Coherent(t)
    ensures DistinctHeads(AllJobs(t))
  {
    var jobs := AllJobs(t);
    forall i, j | 0 <= i < j < |jobs| ensures jobs[i].kind != jobs[j].kind || jobs[i].source != jobs[j].source {
      var k := JobCases(t, i);
      var l := JobCases(t, j);
      if j < |t.participants| {
      } else if i >= |t.participants| && k != l {
        AttackersDiffer(t, k, l);
      }
    }
  }

  // ----- announcing -----

  function Announced(t: Transition, d: Sketch): Occurrence {
    Occurrence(t, d.kind, d.source.controller, d.source.identity, d.affected, d.amount, d.index)
  }

  function DraftKey(d: Sketch): Key {
    Tup([Str(d.source.identity.reference), Str(KindName(d.kind)), Tup(References(d.affected)), Num(d.index)])
  }

  lemma JobIsDue(t: Transition, j: nat, d: Sketch)
    requires Coherent(t) && j < |AllJobs(t)| && FromJob(AllJobs(t)[j], d)
    ensures d.source in t.participants && Due(t, Announced(t, d)) && ValidOccurrence(Announced(t, d))
  {
    var k := JobCases(t, j);
    if j < |t.participants| {
      ExaltedAnnounced(t, k, d);
    } else if AllJobs(t)[j] == BattleCryJob(t, k) {
      BattleCryAnnounced(t, k, d);
    } else {
      MeleeAnnounced(t, k, d);
    }
  }

  lemma SingleSorted(i: Identity)
    ensures Sort(ByKey(IdentityKey), [i]) == [i]
  {
    IdentitiesSort([i]);
  }

  lemma ExaltedAnnounced(t: Transition, k: nat, d: Sketch)
    requires Coherent(t) && k < |t.participants| && FromJob(ExaltedJob(t, k), d)
    ensures d.source in t.participants && Due(t, Announced(t, d)) && ValidOccurrence(Announced(t, d))
  {
    if |t.assignments| == 1 {
      AttackerIs(t, 0);
      SingleSorted(Attacker(t, 0).identity);
    }
    assert ExaltedOf(t, t.participants[k], Announced(t, d));
  }

  lemma BattleCryAnnounced(t: Transition, k: nat, d: Sketch)
    requires Coherent(t) && k < |t.assignments| && FromJob(BattleCryJob(t, k), d)
    ensures d.source in t.participants && Due(t, Announced(t, d)) && ValidOccurrence(Announced(t, d))
  {
    hide Coherent, Attacker, Instances, Others, ExaltedDue, MeleeDue, Sort, IdentityKey, ValidIdentity;
    AttackerIs(t, k);
    OthersAre(t, d.source.identity.objectId);
    OthersValid(t, d.source.identity.objectId);
    assert BattleCryOf(t, Attacker(t, k), Announced(t, d));
  }

  lemma OthersValid(t: Transition, id: string)
    requires Coherent(t)
    ensures forall i :: 0 <= i < |Others(t, id)| ==> ValidIdentity(Others(t, id)[i])
  {
    hide Coherent, Attacker, Others;
    OthersAre(t, id);
    var others := Others(t, id);
    forall i | 0 <= i < |others| ensures ValidIdentity(others[i]) {
      assert others[i] in others;
      var k :| 0 <= k < |t.assignments| && Attacker(t, k).identity == others[i];
      AttackerIs(t, k);
    }
  }

  lemma MeleeAnnounced(t: Transition, k: nat, d: Sketch)
    requires Coherent(t) && k < |t.assignments| && FromJob(MeleeJob(t, k), d)
    ensures d.source in t.participants && Due(t, Announced(t, d)) && ValidOccurrence(Announced(t, d))
  {
    hide Coherent, Attacker, Instances, ExaltedDue, BattleCryDue, Sort, IdentityKey, DirectOpponents;
    AttackerIs(t, k);
    SingleSorted(Attacker(t, k).identity);
    assert MeleeOf(t, Attacker(t, k), Announced(t, d));
  }

  lemma ExaltedWitness(t: Transition, o: Occurrence) returns (k: nat)
    requires Coherent(t) && ExaltedDue(t, o)
    ensures k < |t.participants| && 0 <= o.index
    ensures var d := Draft(Exalted, t.participants[k], o.affected, 1, o.index);
            FromJob(ExaltedJob(t, k), d) && Announced(t, d) == o
  {
    hide Coherent, Attacker, Instances;
    k :| 0 <= k < |t.participants| && ExaltedOf(t, t.participants[k], o);
  }

  lemma BattleCryWitness(t: Transition, o: Occurrence) returns (k: nat)
    requires Coherent(t) && BattleCryDue(t, o)
    ensures k < |t.assignments| && 0 <= o.index
    ensures var d := Draft(BattleCry, Attacker(t, k), o.affected, 1, o.index);
            FromJob(BattleCryJob(t, k), d) && Announced(t, d) == o
  {
    hide Coherent, Attacker, Instances, Others;
    k :| 0 <= k < |t.assignments| && BattleCryOf(t, Attacker(t, k), o);
  }

  lemma MeleeWitness(t: Transition, o: Occurrence) returns (k: nat)
    requires Coherent(t) && MeleeDue(t, o)
    ensures k < |t.assignments| && 0 <= o.index && 0 <= o.amount
    ensures var d := Draft(Melee, Attacker(t, k), o.affected, o.amount, o.index);
            FromJob(MeleeJob(t, k), d) && Announced(t, d) == o
  {
    hide Coherent, Attacker, Instances, DirectOpponents;
    k :| 0 <= k < |t.assignments| && MeleeOf(t, Attacker(t, k), o);
  }

  lemma DueHasJob(t: Transition, o: Occurrence)
    requires Coherent(t) && Due(t, o)
    ensures exists j, d :: 0 <= j < |AllJobs(t)| && FromJob(AllJobs(t)[j], d) && Announced(t, d) == o
  {
    AllJobsIs(t);
    var n := |t.participants|;
    if ExaltedDue(t, o) {
      var k := ExaltedWitness(t, o);
      JobAt(t, n, |t.assignments|, k);
      var d := Draft(Exalted, t.participants[k], o.affected, 1, o.index);
      assert FromJob(AllJobs(t)[k], d);
    } else if BattleCryDue(t, o) {
      var k := BattleCryWitness(t, o);
      JobAt(t, n, |t.assignments|, k);
      var d := Draft(BattleCry, Attacker(t, k), o.affected, 1, o.index);
      assert FromJob(AllJobs(t)[n + 2 * k], d);
    } else {
      var k := MeleeWitness(t, o);
      JobAt(t, n, |t.assignments|, k);
      var d := Draft(Melee, Attacker(t, k), o.affected, o.amount, o.index);
      assert FromJob(AllJobs(t)[n + 2 * k + 1], d);
    }
  }

  lemma DraftsKeyed(t: Transition)
    requires Coherent(t)
    ensures UniqueKeys(DraftKey, Drafts(AllJobs(t)))
  {
    var ds := Drafts(AllJobs(t));
    HeadsDiffer(t);
    DraftsAreDistinct(AllJobs(t));
    forall d | d in ds ensures d.source in t.participants {
      DraftMembers(AllJobs(t), d);
      var j :| 0 <= j < |AllJobs(t)| && FromJob(AllJobs(t)[j], d);
      JobIsDue(t, j, d);
    }
    forall d, e | d in ds && e in ds && DraftKey(d) == DraftKey(e) ensures d == e {
      SameHead(t.participants, d, e);
      HeadsTellApart(AllJobs(t), d, e);
    }
    DistinctKeyed(ds);
  }

  lemma SameHead(ps: seq<Creature>, d: Sketch, e: Sketch)
    requires UniqueIdentities(ps) && d.source in ps && e.source in ps && DraftKey(d) == DraftKey(e)
    ensures d.kind == e.kind && d.source == e.source && d.index == e.index
  {
    hide References;
    var k, l := DraftKey(d).parts, DraftKey(e).parts;
    assert k[0] == l[0] && k[1] == l[1] && k[3] == l[3];
    KindNamesDiffer(d.kind, e.kind);
  }

  lemma DistinctKeyed(ds: seq<Sketch>)
    requires Distinct(ds) && forall d, e :: d in ds && e in ds && DraftKey(d) == DraftKey(e) ==> d == e
    ensures UniqueKeys(DraftKey, ds)
  {
    hide DraftKey;
    forall i, j | 0 <= i < j < |ds| ensures DraftKey(ds[i]) != DraftKey(ds[j]) {
      assert ds[i] in ds && ds[j] in ds;
    }
  }

  // ----- the derivation -----

  ghost function DueIn(t: Transition): Occurrence -> bool
    requires Coherent(t)
  {
    (o: Occurrence) => Due(t, o)
  }

  function Announcing(t: Transition): Sketch -> Occurrence {
    (d: Sketch) => Announced(t, d)
  }

  /** The transition's occurrences, in the order they are put on the stack. */
  ghost predicate Derives(t: Transition, os: seq<Occurrence>)
    requires Coherent(t)
  {
    Announces(OccurrenceKey, DueIn(t), ValidOccurrence, os) && |os| == Owed(AllJobs(t))
  }

  /** The derivation is a function of the event. */
  lemma DerivationIsDetermined(t: Transition, os: seq<Occurrence>, qs: seq<Occurrence>)
    requires Coherent(t) && Derives(t, os) && Derives(t, qs)
    ensures os == qs && Distinct(os)
  {
    hide Announces, Coherent;
    AnnouncementIsDetermined(OccurrenceKey, DueIn(t), ValidOccurrence, os, qs);
  }

  lemma DerivesIs(t: Transition, os: seq<Occurrence>)
    requires Coherent(t)
    ensures Derives(t, os) <==> Announces(OccurrenceKey, DueIn(t), ValidOccurrence, os) && |os| == Owed(AllJobs(t))
  {
    hide Announces, Coherent;
  }

  lemma EveryJobAnnounceable(t: Transition)
    requires Coherent(t)
    ensures Announceable(AllJobs(t), Announcing(t), DueIn(t), ValidOccurrence)
    ensures forall d :: OccurrenceKey(Announcing(t)(d)) == DraftKey(d)
  {
    hide Coherent, AllJobs, FromJob, Due, ValidOccurrence;
    forall d | Contributed(AllJobs(t), d) ensures Due(t, Announced(t, d)) && ValidOccurrence(Announced(t, d)) {
      var j :| 0 <= j < |AllJobs(t)| && FromJob(AllJobs(t)[j], d);
      JobIsDue(t, j, d);
    }
    forall o | Due(t, o) ensures exists d :: Contributed(AllJobs(t), d) && Announcing(t)(d) == o {
      DueHasJob(t, o);
      var j, d :| 0 <= j < |AllJobs(t)| && FromJob(AllJobs(t)[j], d) && Announced(t, d) == o;
      assert Contributed(AllJobs(t), d) && Announcing(t)(d) == o;
    }
    forall d ensures OccurrenceKey(Announcing(t)(d)) == DraftKey(d) {
    }
  }

  /** Derives the Exalted, Battle Cry and Melee triggers of a sealed transition. No occurrence
      is ever refused. */
  method Derive(t: Transition) returns (os: seq<Occurrence>)
    requires Coherent(t)
    ensures Derives(t, os)
  {
    hide Coherent, Announces, Announceable, UniqueKeys, Drafts, DraftKey, OccurrenceKey, ValidOccurrence, Sort,
         KeyLess, AllJobs;
    var byId := ById(t.participants);
    var attackers: seq<Creature> := [];
    for k := 0 to |t.assignments|
      invariant attackers == Attackers(t, k)
    {
      AttackerIs(t, k);
      attackers := attackers + [byId[t.assignments[k].attacker]];
    }
    AttackersAre(t, |t.assignments|, 0);
    var opponents := DirectOpponents(t);
    var drafts := DraftExalted(t, attackers);
    for m := 0 to |attackers|
      invariant drafts == Drafts(Jobs(t, |t.participants|, m))
    {
      var source := attackers[m];
      AttackersAre(t, |t.assignments|, m);
      DraftsStep(Jobs(t, |t.participants|, m), BattleCryJob(t, m));
      DraftsStep(Jobs(t, |t.participants|, m) + [BattleCryJob(t, m)], MeleeJob(t, m));
      var others := Sort(ByKey(IdentityKey), Except(attackers, source.identity.objectId));
      drafts := Enqueue(drafts, Job(BattleCry, source, others, Each(source.specs, BattleCry, 1)));
      drafts := Enqueue(drafts, Job(Melee, source, [source.identity], Each(source.specs, Melee, |opponents|)));
    }
    AllJobsIs(t);
    DraftsKeyed(t);
    EveryJobAnnounceable(t);
    os := Announce(AllJobs(t), drafts, DraftKey, Announcing(t), ValidOccurrence, OccurrenceKey, DueIn(t));
    DerivesIs(t, os);
  }

  /** Drafts every participant's Exalted instances for a lone attacker. */
  method DraftExalted(t: Transition, attackers: seq<Creature>) returns (drafts: seq<Sketch>)
    requires Coherent(t) && attackers == Attackers(t, |t.assignments|)
    ensures drafts == Drafts(Jobs(t, |t.participants|, 0))
  {
    hide Coherent, Attacker, Attackers, Each, JobDrafts;
    drafts := [];
    AttackersAre(t, |t.assignments|, 0);
    if |attackers| == 1 {
      var lone := attackers[0];
      for n := 0 to |t.participants|
        invariant drafts == Drafts(Jobs(t, n, 0))
      {
        var source := t.participants[n];
        DraftsStep(Jobs(t, n, 0), ExaltedJob(t, n));
        drafts := Enqueue(drafts, Job(Exalted, source, [lone.identity], Each(source.specs, Exalted, 1)));
      }
    } else {
      NothingExalted(t, |t.participants|);
    }
  }

  lemma {:induction false} NothingExalted(t: Transition, n: nat)
    requires Coherent(t) && |t.assignments| != 1 && n <= |t.participants|
    ensures Drafts(Jobs(t, n, 0)) == []
  {
    hide Coherent, Attacker, Each, JobDrafts;
    if n == 0 {
    } else {
      NothingExalted(t, n - 1);
      DraftsStep(Jobs(t, n - 1, 0), ExaltedJob(t, n - 1));
      assert JobDrafts(ExaltedJob(t, n - 1)) == [];
    }
  }

  lemma AllJobsIs(t: Transition)
    requires Coherent(t)
    ensures AllJobs(t) == Jobs(t, |t.participants|, |t.assignments|)
  {
    hide Coherent, Jobs;
  }

  // ----- the order of the occurrences -----

  lemma KindsInOrder(k: Kind, l: Kind)
    requires StrLess(KindName(k), KindName(l))
    requires (k == Exalted || k == BattleCry || k == Melee) && (l == Exalted || l == BattleCry || l == Melee)
    ensures k == BattleCry || (k == Exalted && l == Melee)
    ensures l != BattleCry
  {
    StrTrichotomy(KindName(k), KindName(k));
    assert KindName(BattleCry)[0] == 'b' && KindName(Exalted)[0] == 'e' && KindName(Melee)[0] == 'm';
  }

  lemma KeySteps(o: Occurrence, q: Occurrence)
    requires KeyLess(OccurrenceKey(o), OccurrenceKey(q))
    ensures || StrLess(o.source.reference, q.source.reference)
            || (o.source.reference == q.source.reference
                && (StrLess(KindName(o.kind), KindName(q.kind))
                    || (KindName(o.kind) == KindName(q.kind) && (o.affected != q.affected || o.index < q.index))))
  {
    hide KindName, References;
    var k, l := OccurrenceKey(o).parts, OccurrenceKey(q).parts;
    TupLessIff(k, l);
    var i :| 0 <= i <= |k| && i < |l| && k[..i] == l[..i] && (i == |k| || KeyLess(k[i], l[i]));
    forall j | 0 <= j < i ensures k[j] == l[j] {
      assert k[j] == k[..i][j] == l[..i][j] == l[j];
    }
    assert i <= 3;
    if i == 2 && o.affected == q.affected { KeyTrichotomy(k[2], l[2]); }
  }

  /** What is due names a participant, and its kind and source settle what it affects. */
  lemma DueSource(t: Transition, o: Occurrence) returns (p: Creature)
    requires Coherent(t) && Due(t, o)
    ensures p in t.participants && o.source == p.identity
    ensures o.kind == Exalted || o.kind == BattleCry || o.kind == Melee
    ensures o.kind == BattleCry ==> o.affected == Others(t, o.source.objectId)
    ensures o.kind == Melee ==> o.affected == [o.source]
    ensures o.kind == Exalted ==> |t.assignments| == 1 && o.affected == [Attacker(t, 0).identity]
  {
    hide Coherent, Attacker, Others, Instances, DirectOpponents;
    if ExaltedDue(t, o) {
      var k :| 0 <= k < |t.participants| && ExaltedOf(t, t.participants[k], o);
      p := t.participants[k];
    } else if BattleCryDue(t, o) {
      var k :| 0 <= k < |t.assignments| && BattleCryOf(t, Attacker(t, k), o);
      p := Attacker(t, k);
      AttackerIs(t, k);
    } else {
      var k :| 0 <= k < |t.assignments| && MeleeOf(t, Attacker(t, k), o);
      p := Attacker(t, k);
      AttackerIs(t, k);
    }
  }

  lemma SameReference(ps: seq<Creature>, p: Creature, q: Creature)
    requires UniqueIdentities(ps) && p in ps && q in ps && p.identity.reference == q.identity.reference
    ensures p == q
  {
  }

  /** The occurrences go by the references of their sources; one source's go by kind, and
      those of one kind by the index of the instance. */
  lemma DerivedOrder(t: Transition, os: seq<Occurrence>, i: nat, j: nat)
    requires Coherent(t) && Derives(t, os) && i < j < |os|
    ensures || StrLess(os[i].source.reference, os[j].source.reference)
            || (os[i].source == os[j].source
                && ((os[i].kind == BattleCry && os[j].kind == Exalted)
                    || (os[i].kind == BattleCry && os[j].kind == Melee)
                    || (os[i].kind == Exalted && os[j].kind == Melee)
                    || (os[i].kind == os[j].kind && os[i].index < os[j].index)))
  {
    hide Attacker, Others, Due, KeyLess, OccurrenceKey, KindName, ValidOccurrence;
    var o, q := os[i], os[j];
    DerivesIs(t, os);
    assert ByKey(OccurrenceKey)(o, q);
    assert DueIn(t)(o) && DueIn(t)(q);
    var m := DueSource(t, o);
    var n := DueSource(t, q);
    KeySteps(o, q);
    KindNamesDiffer(o.kind, q.kind);
    if o.source.reference == q.source.reference {
      SameReference(t.participants, m, n);
      if StrLess(KindName(o.kind), KindName(q.kind)) { KindsInOrder(o.kind, q.kind); }
    }
  }

  lemma IdentitySteps(i: Identity, j: Identity)
    requires KeyLess(IdentityKey(i), IdentityKey(j))
    ensures StrLess(i.reference, j.reference) || i.reference == j.reference
  {
    var p, q := IdentityKey(i).parts, IdentityKey(j).parts;
    TupLessStep(p, q);
  }

  /** The creatures that Battle Cry affects stand in the order of their references. */
  lemma OthersByReference(t: Transition, id: string, i: nat, j: nat)
    requires Coherent(t) && i < j < |Others(t, id)|
    ensures StrLess(Others(t, id)[i].reference, Others(t, id)[j].reference)
  {
    hide Attacker, Others, KeyLess, IdentityKey;
    OthersAre(t, id);
    var others := Others(t, id);
    assert ByKey(IdentityKey)(others[i], others[j]);
    IdentitySteps(others[i], others[j]);
    assert others[i] in others && others[j] in others;
    var k :| 0 <= k < |t.assignments| && Attacker(t, k).identity == others[i];
    var l :| 0 <= l < |t.assignments| && Attacker(t, l).identity == others[j];
    AttackerIs(t, k);
    AttackerIs(t, l);
    if others[i].reference == others[j].reference {
      SameReference(t.participants, Attacker(t, k), Attacker(t, l));
      assert false;
    }
  }

  // ----- what Melee counts -----

  /** Some creature attacks the player directly. */
  predicate AttackedDirectly(t: Transition, player: string) {
    exists i :: 0 <= i < |t.assignments|
      && t.assignments[i].recipient.kind == Player && t.assignments[i].recipient.defendingPlayer == player
  }

  /** The players attacked directly, each once. */
  ghost predicate ListsAttackedPlayers(t: Transition, players: seq<string>) {
    Distinct(players) && forall s :: s in players <==> AttackedDirectly(t, s)
  }

  lemma DirectlyAttacked(t: Transition, s: string)
    requires ValidTransition(t)
    ensures s in DirectOpponents(t) <==> AttackedDirectly(t, s)
  {
    hide UniqueIdentities, OneRecipientEach, Sort, ById, AssignmentKey, ParticipantKey, Represented;
    forall i | 0 <= i < |t.assignments| && t.assignments[i].recipient.kind == Player
      ensures t.assignments[i].recipient.reference == t.assignments[i].recipient.defendingPlayer
    {
      assert Declarable(ById(t.participants), t.activePlayer, t.assignments[i]);
    }
  }

  lemma MeleeOccurrence(t: Transition, os: seq<Occurrence>, o: Occurrence)
    requires Coherent(t) && Derives(t, os) && o in os && o.kind == Melee
    ensures o.amount == |DirectOpponents(t)|
  {
    hide Coherent, ExaltedDue, BattleCryDue, ValidOccurrence, OccurrenceKey, DirectOpponents, Attacker, Instances;
    DerivesIs(t, os);
    assert DueIn(t)(o);
    DueKinds(t, o);
    var k :| 0 <= k < |t.assignments| && MeleeOf(t, Attacker(t, k), o);
  }

  lemma DueKinds(t: Transition, o: Occurrence)
    requires Coherent(t) && Due(t, o)
    ensures o.kind == Exalted ==> ExaltedDue(t, o)
    ensures o.kind == BattleCry ==> BattleCryDue(t, o)
    ensures o.kind == Melee ==> MeleeDue(t, o)
  {
    hide Coherent, Attacker, Others, DirectOpponents, Instances;
  }

  /** Melee counts the players attacked directly, each once; attacked permanents do not count. */
  lemma MeleeCountsPlayers(t: Transition, os: seq<Occurrence>, o: Occurrence) returns (players: seq<string>)
    requires ValidTransition(t) && Coherent(t) && Derives(t, os) && o in os && o.kind == Melee
    ensures ListsAttackedPlayers(t, players) && o.amount == |players|
    ensures o.amount == 0 <==>
            forall i :: 0 <= i < |t.assignments| ==> t.assignments[i].recipient.kind != Player
  {
    hide ValidTransition, Coherent, Derives, DirectOpponents;
    MeleeOccurrence(t, os, o);
    players := Listing(DirectOpponents(t));
    forall s ensures s in players <==> AttackedDirectly(t, s) {
      DirectlyAttacked(t, s);
    }
    ListingSize(players, DirectOpponents(t));
    if i :| 0 <= i < |t.assignments| && t.assignments[i].recipient.kind == Player {
      assert AttackedDirectly(t, t.assignments[i].recipient.defendingPlayer);
      assert players != [];
    }
    if players != [] {
      assert players[0] in players;
    }
  }

  // ----- retargeting between permanents -----

  /** The same attack, except that attacks on permanents may be on other permanents. */
  ghost predicate Retargeted(t: Transition, u: Transition) {
    && t.participants == u.participants && |t.assignments| == |u.assignments|
    && forall i :: 0 <= i < |t.assignments| ==>
         && t.assignments[i].attacker == u.assignments[i].attacker
         && (t.assignments[i].recipient == u.assignments[i].recipient
             || (t.assignments[i].recipient.kind != Player && u.assignments[i].recipient.kind != Player))
  }

  /** The same occurrences, for another event. */
  function Moved(os: seq<Occurrence>, u: Transition): (r: seq<Occurrence>)
    ensures |r| == |os| && forall i :: 0 <= i < |os| ==> r[i] == os[i].(transition := u)
  {
    seq(|os|, i requires 0 <= i < |os| => os[i].(transition := u))
  }

  lemma SameAttackers(t: Transition, u: Transition)
    requires Coherent(t) && Coherent(u) && Retargeted(t, u)
    ensures forall k :: 0 <= k < |t.assignments| ==> Attacker(t, k) == Attacker(u, k)
  {
    hide Coherent, ById;
  }

  lemma {:induction false} SameAttackerList(t: Transition, u: Transition, n: nat)
    requires Coherent(t) && Coherent(u) && Retargeted(t, u) && n <= |t.assignments|
    ensures Attackers(t, n) == Attackers(u, n)
  {
    hide Coherent, Attacker;
    if n == 0 {
    } else {
      SameAttackers(t, u);
      SameAttackerList(t, u, n - 1);
    }
  }

  lemma DueMoves(t: Transition, u: Transition, o: Occurrence)
    requires Coherent(t) && Coherent(u) && Retargeted(t, u) && Due(t, o)
    ensures Due(u, o.(transition := u))
  {
    hide Coherent, Attacker, Attackers, Instances, Except, Sort, DirectOpponents;
    var x := o.(transition := u);
    SameAttackers(t, u);
    SameAttackerList(t, u, |t.assignments|);
    if ExaltedDue(t, o) {
      var k :| 0 <= k < |t.participants| && ExaltedOf(t, t.participants[k], o);
      assert ExaltedOf(u, u.participants[k], x);
    } else if BattleCryDue(t, o) {
      var k :| 0 <= k < |t.assignments| && BattleCryOf(t, Attacker(t, k), o);
      assert BattleCryOf(u, Attacker(u, k), x);
    } else {
      var k :| 0 <= k < |t.assignments| && MeleeOf(t, Attacker(t, k), o);
      SameOpponents(t, u);
      assert MeleeOf(u, Attacker(u, k), x);
    }
  }

  lemma SameOpponents(t: Transition, u: Transition)
    requires Retargeted(t, u)
    ensures DirectOpponents(t) == DirectOpponents(u)
  {
    forall s ensures s in DirectOpponents(t) <==> s in DirectOpponents(u) {
      if s in DirectOpponents(t) {
        var i :| 0 <= i < |t.assignments| && t.assignments[i].recipient.kind == Player
                 && t.assignments[i].recipient.reference == s;
        assert u.assignments[i].recipient == t.assignments[i].recipient;
      }
      if s in DirectOpponents(u) {
        var i :| 0 <= i < |u.assignments| && u.assignments[i].recipient.kind == Player
                 && u.assignments[i].recipient.reference == s;
        assert t.assignments[i].recipient == u.assignments[i].recipient;
      }
    }
  }

  lemma MovedIsDue(t: Transition, u: Transition, os: seq<Occurrence>, o: Occurrence)
    requires Coherent(t) && Coherent(u) && Retargeted(t, u) && forall x :: x in os <==> Due(t, x)
    ensures o in Moved(os, u) <==> Due(u, o)
  {
    hide Coherent, Due;
    var ms := Moved(os, u);
    if o in ms {
      var i :| 0 <= i < |ms| && ms[i] == o;
      assert os[i] in os;
      DueMoves(t, u, os[i]);
    }
    if Due(u, o) {
      DueMoves(u, t, o);
      DueNames(u, o);
      var x := o.(transition := t);
      assert x in os;
      var i :| 0 <= i < |os| && os[i] == x;
      assert ms[i] == o;
    }
  }

  lemma MovedIsValid(os: seq<Occurrence>, u: Transition, o: Occurrence)
    requires o in Moved(os, u) && forall x :: x in os ==> ValidOccurrence(x)
    ensures ValidOccurrence(o)
  {
    hide ValidOccurrence;
    var i :| 0 <= i < |os| && Moved(os, u)[i] == o;
    assert os[i] in os;
    ValidMoves(os[i], u);
  }

  /** Which permanents are attacked does not matter: moving attacks between permanents leaves
      the same occurrences in the same order. */
  lemma RetargetingPermanents(t: Transition, u: Transition, os: seq<Occurrence>, qs: seq<Occurrence>)
    requires Coherent(t) && Coherent(u) && Retargeted(t, u) && Derives(t, os) && Derives(u, qs)
    ensures qs == Moved(os, u)
  {
    hide Coherent, Due, OccurrenceKey, ValidOccurrence, KeyLess, ByKey, Sorted, Retargeted;
    DerivesIs(t, os);
    DerivesIs(u, qs);
    assert forall o :: o in os <==> Due(t, o) by {
      forall o ensures o in os <==> Due(t, o) { assert DueIn(t)(o) == Due(t, o); }
    }
    var ms := Moved(os, u);
    MovedSorted(os, u);
    forall o ensures (o in ms <==> DueIn(u)(o)) && (o in ms ==> ValidOccurrence(o)) {
      MovedIsDue(t, u, os, o);
      if o in ms { MovedIsValid(os, u, o); }
    }
    assert Announces(OccurrenceKey, DueIn(u), ValidOccurrence, ms);
    AnnouncementIsDetermined(OccurrenceKey, DueIn(u), ValidOccurrence, ms, qs);
  }

  lemma DueNames(t: Transition, o: Occurrence)
    requires Coherent(t) && Due(t, o)
    ensures o.transition == t
  {
    hide Coherent, Attacker, Others, DirectOpponents, Instances;
  }

  lemma ValidMoves(o: Occurrence, u: Transition)
    requires ValidOccurrence(o)
    ensures ValidOccurrence(o.(transition := u))
  {
  }

  lemma MovedKey(o: Occurrence, u: Transition)
    ensures OccurrenceKey(o.(transition := u)) == OccurrenceKey(o)
  {
  }

  lemma MovedSorted(os: seq<Occurrence>, u: Transition)
    requires Sorted(ByKey(OccurrenceKey), os)
    ensures Sorted(ByKey(OccurrenceKey), Moved(os, u))
  {
    hide KeyLess, OccurrenceKey;
    var ms := Moved(os, u);
    forall i, j | 0 <= i < j < |ms| ensures ByKey(OccurrenceKey)(ms[i], ms[j]) {
      assert ByKey(OccurrenceKey)(os[i], os[j]);
      MovedKey(os[i], u);
      MovedKey(os[j], u);
    }
  }

  /** Every derived occurrence is complete: its source, controller and the creatures it affects have
      names, the latter without repeats; Battle Cry leaves out its source, Melee affects its source
      alone, Exalted one creature, and only Melee counts. */
  lemma DerivedIsComplete(t: Transition, os: seq<Occurrence>, o: Occurrence)
    requires Coherent(t) && Derives(t, os) && o in os
    ensures o.kind in {Exalted, BattleCry, Melee} && o.controller != "" && o.amount >= 0 && o.index >= 0
    ensures o.source.objectId != "" && o.source.logicalId != "" && o.source.reference != ""
    ensures forall i: Identity :: i in o.affected ==> i.objectId != "" && i.logicalId != "" && i.reference != ""
    ensures forall i, j :: 0 <= i < j < |o.affected| ==> o.affected[i].objectId != o.affected[j].objectId
    ensures o.kind == BattleCry ==> o.source !in o.affected && o.amount == 1
    ensures o.kind == Melee ==> o.affected == [o.source]
    ensures o.kind == Exalted ==> |o.affected| == 1 && o.amount == 1
  {
    hide Coherent, Due, OccurrenceKey, Sort;
    DerivesIs(t, os);
  }
}

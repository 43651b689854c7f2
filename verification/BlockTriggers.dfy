/** Deriving the Flanking and Bushido triggers that a sealed block transition causes
    (CR 702.25, CR 702.45). An occurrence is identified by its contents. */
module BlockTriggers {
  import opened Orders
  import opened KeywordTriggers
  import opened Participants
  import opened BlockTransitions

  datatype Occurrence = Occurrence(transition: Transition, kind: Kind, controller: string,
                                   source: Identity, affected: Identity, amount: int, index: int)

  /** What the occurrence constructor accepts. */
  predicate ValidOccurrence(o: Occurrence) {
    && o.controller != "" && ValidIdentity(o.source) && ValidIdentity(o.affected)
    && o.amount >= 1 && o.index >= 0
    && (o.kind == Flanking ==> o.amount == 1 && o.source != o.affected)
    && (o.kind == Bushido ==> o.source == o.affected)
  }

  function OccurrenceKey(o: Occurrence): Key {
    Tup([Str(o.source.reference), Str(KindName(o.kind)), Str(o.affected.reference), Num(o.index), Num(o.amount)])
  }

  /** One Flanking trigger for each instance on an attacker and each of its blockers without
      flanking. */
  ghost predicate FlankingDue(t: Transition, o: Occurrence) {
    exists k :: 0 <= k < |t.assignments| && FlankingOf(t, t.assignments[k], o)
  }

  ghost predicate FlankingOf(t: Transition, x: Assignment, o: Occurrence) {
    var byId := ById(t.participants);
    && x.attacker in byId && x.blocker in byId
    && var attacker, blocker := byId[x.attacker], byId[x.blocker];
       && (forall i :: 0 <= i < |blocker.specs| ==> blocker.specs[i].kind != Flanking)
       && 0 <= o.index < |Instances(attacker.specs, Flanking)|
       && o == Occurrence(t, Flanking, attacker.controller, attacker.identity, blocker.identity, 1, o.index)
  }

  /** One Bushido trigger for each instance on a creature that blocks or is blocked, however
      many creatures it meets. */
  ghost predicate BushidoDue(t: Transition, o: Occurrence) {
    exists k :: 0 <= k < |t.participants| && BushidoOf(t, t.participants[k], o)
  }

  ghost predicate BushidoOf(t: Transition, p: Creature, o: Occurrence) {
    && 0 <= o.index < |Instances(p.specs, Bushido)|
    && o == Occurrence(t, Bushido, p.controller, p.identity, p.identity, Instances(p.specs, Bushido)[o.index].amount,
                       o.index)
  }

  ghost predicate Due(t: Transition, o: Occurrence) {
    FlankingDue(t, o) || BushidoDue(t, o)
  }

  type Work = Job<Creature, Creature>
  type Sketch = Draft<Creature, Creature>

  function FlankingJob(t: Transition, k: nat): Work
    requires Coherent(t) && k < |t.assignments|
  {
    Closed(t, k);
    var byId, x := ById(t.participants), t.assignments[k];
    var attacker, blocker := byId[x.attacker], byId[x.blocker];
    Job(Flanking, attacker, blocker, if Has(blocker.specs, Flanking) then [] else Amounts(attacker.specs, Flanking))
  }

  function BushidoJob(t: Transition, k: nat): Work
    requires k < |t.participants|
  {
    var p := t.participants[k];
    Job(Bushido, p, p, Amounts(p.specs, Bushido))
  }

  /** The contributions of the first `m` assignments and the first `n` participants. */
  function Jobs(t: Transition, m: nat, n: nat): seq<Work>
    requires Coherent(t) && m <= |t.assignments| && n <= |t.participants|
  {
    FlankingJobs(t, m) + BushidoJobs(t, n)
  }

  function FlankingJobs(t: Transition, m: nat): seq<Work>
    requires Coherent(t) && m <= |t.assignments|
  {
    hide Coherent;
    if m == 0 then [] else FlankingJobs(t, m - 1) + [FlankingJob(t, m - 1)]
  }

  lemma {:induction false} FlankingJobsAre(t: Transition, m: nat, k: nat)
    requires Coherent(t) && m <= |t.assignments|
    ensures |FlankingJobs(t, m)| == m && (k < m ==> FlankingJobs(t, m)[k] == FlankingJob(t, k))
  {
    hide Coherent, FlankingJob;
    if m == 0 {
    } else {
      FlankingJobsAre(t, m - 1, k);
    }
  }

  function BushidoJobs(t: Transition, n: nat): (r: seq<Work>)
    requires n <= |t.participants|
    ensures |r| == n && forall k :: 0 <= k < n ==> r[k] == BushidoJob(t, k)
  {
    hide BushidoJob;
    if n == 0 then [] else BushidoJobs(t, n - 1) + [BushidoJob(t, n - 1)]
  }

  function AllJobs(t: Transition): seq<Work>
    requires Coherent(t)
  {
    Jobs(t, |t.assignments|, |t.participants|)
  }

  lemma JobsDistinct(t: Transition)
    requires Coherent(t)
    ensures DistinctJobs(AllJobs(t))
  {
    var jobs := AllJobs(t);
    forall i, j | 0 <= i < j < |jobs|
      ensures jobs[i].kind != jobs[j].kind || jobs[i].source != jobs[j].source || jobs[i].affected != jobs[j].affected
    {
      JobsDiffer(t, i, j);
    }
  }

  lemma JobAt(t: Transition, j: nat)
    requires Coherent(t) && j < |AllJobs(t)|
    ensures j < |t.assignments| + |t.participants|
    ensures AllJobs(t)[j] == if j < |t.assignments| then FlankingJob(t, j) else BushidoJob(t, j - |t.assignments|)
  {
    hide Coherent, FlankingJob, BushidoJob, BushidoJobs, FlankingJobs;
    FlankingJobsAre(t, |t.assignments|, j);
  }

  lemma JobCount(t: Transition)
    requires Coherent(t)
    ensures |AllJobs(t)| == |t.assignments| + |t.participants|
  {
    hide Coherent, FlankingJob, BushidoJob, BushidoJobs, FlankingJobs;
    FlankingJobsAre(t, |t.assignments|, 0);
  }

  lemma JobsDiffer(t: Transition, i: nat, j: nat)
    requires Coherent(t) && i < j < |AllJobs(t)|
    ensures var x, y := AllJobs(t)[i], AllJobs(t)[j];
            x.kind != y.kind || x.source != y.source || x.affected != y.affected
  {
    var m := |t.assignments|;
    JobAt(t, i);
    JobAt(t, j);
    TransitionFacts(t);
    if j < m {
      FlankingJobIs(t, i);
      FlankingJobIs(t, j);
      Closed(t, i);
      Closed(t, j);
      assert t.assignments[i].blocker != t.assignments[j].blocker;
    } else {
      BushidoJobIs(t, j - m);
      if i < m {
        FlankingJobIs(t, i);
      } else {
        BushidoJobIs(t, i - m);
      }
    }
  }

  lemma TransitionFacts(t: Transition)
    requires Coherent(t)
    ensures UniqueIdentities(t.participants) && OneAttackerEach(t.assignments)
    ensures Ids(t.participants) == Named(t.assignments)
    ensures forall p :: p in t.participants ==> Known(p)
    ensures forall i :: 0 <= i < |t.assignments| ==> t.assignments[i].attacker != t.assignments[i].blocker
  {
  }

  /** Amount apart, the sort key already tells any two drafts of one transition apart. */
  function DraftKey(d: Sketch): Key {
    Tup([Str(d.source.identity.reference), Str(KindName(d.kind)), Str(d.affected.identity.reference), Num(d.index),
         Num(d.amount)])
  }

  ghost predicate Among(t: Transition, d: Sketch) {
    d.source in t.participants && d.affected in t.participants
  }

  lemma JobsAmong(t: Transition, j: nat, d: Sketch)
    requires Coherent(t) && j < |AllJobs(t)| && FromJob(AllJobs(t)[j], d)
    ensures Among(t, d)
  {
    JobAt(t, j);
    if j < |t.assignments| {
      FlankingJobIs(t, j);
      Closed(t, j);
    } else {
      BushidoJobIs(t, j - |t.assignments|);
    }
  }

  lemma DraftsKeyed(t: Transition)
    requires Coherent(t)
    ensures UniqueKeys(DraftKey, Drafts(AllJobs(t)))
  {
    hide *;
    var ds := Drafts(AllJobs(t));
    TransitionFacts(t);
    JobsDistinct(t);
    DraftsAreDistinct(AllJobs(t));
    forall d | d in ds ensures Among(t, d) {
      DraftMembers(AllJobs(t), d);
      var j :| 0 <= j < |AllJobs(t)| && FromJob(AllJobs(t)[j], d);
      JobsAmong(t, j, d);
    }
    DistinctKeyed(t, ds);
  }

  lemma DistinctKeyed(t: Transition, ds: seq<Sketch>)
    requires UniqueIdentities(t.participants) && Distinct(ds) && forall d :: d in ds ==> Among(t, d)
    ensures UniqueKeys(DraftKey, ds)
  {
    forall i, j | 0 <= i < j < |ds| ensures DraftKey(ds[i]) != DraftKey(ds[j]) {
      assert ds[i] in ds && ds[j] in ds;
    }
  }

  function Announced(t: Transition, d: Sketch): Occurrence {
    Occurrence(t, d.kind, d.source.controller, d.source.identity, d.affected.identity, d.amount, d.index)
  }

  lemma JobIsDue(t: Transition, j: nat, d: Sketch)
    requires Coherent(t) && j < |AllJobs(t)| && FromJob(AllJobs(t)[j], d)
    ensures Due(t, Announced(t, d)) && ValidOccurrence(Announced(t, d))
  {
    TransitionFacts(t);
    JobAt(t, j);
    var m := |t.assignments|;
    if j < m {
      FlankingJobIs(t, j);
      FlankingAnnounced(t, j, d);
    } else {
      BushidoJobIs(t, j - m);
    }
  }

  lemma FlankingAnnounced(t: Transition, k: nat, d: Sketch)
    requires Coherent(t) && k < |t.assignments| && FromJob(FlankingJob(t, k), d)
    ensures Due(t, Announced(t, d)) && ValidOccurrence(Announced(t, d))
  {
    hide Coherent, ById, UniqueIdentities, Named, OneAttackerEach;
    TransitionFacts(t);
    Closed(t, k);
    assert FlankingOf(t, t.assignments[k], Announced(t, d));
  }

  lemma DueHasJob(t: Transition, o: Occurrence)
    requires Coherent(t) && Due(t, o)
    ensures exists j, d :: 0 <= j < |AllJobs(t)| && FromJob(AllJobs(t)[j], d) && Announced(t, d) == o
  {
    hide Coherent, FlankingDue, BushidoDue, AllJobs, FromJob, FlankingJob, BushidoJob, Announced;
    JobCount(t);
    var m := |t.assignments|;
    if FlankingDue(t, o) {
      var k := FlankingWitness(t, o);
      JobAt(t, k);
      var d := Draft(Flanking, FlankingJob(t, k).source, FlankingJob(t, k).affected, 1, o.index);
      assert FromJob(AllJobs(t)[k], d) && Announced(t, d) == o;
    } else {
      var k := BushidoWitness(t, o);
      JobAt(t, m + k);
      var d := Draft(Bushido, t.participants[k], t.participants[k], o.amount, o.index);
      assert FromJob(AllJobs(t)[m + k], d) && Announced(t, d) == o;
    }
  }

  lemma FlankingWitness(t: Transition, o: Occurrence) returns (k: nat)
    requires Coherent(t) && FlankingDue(t, o)
    ensures k < |t.assignments| && 0 <= o.index
    ensures var job := FlankingJob(t, k);
            var d := Draft(Flanking, job.source, job.affected, 1, o.index);
            FromJob(job, d) && Announced(t, d) == o
  {
    hide Coherent, ById;
    k :| 0 <= k < |t.assignments| && FlankingOf(t, t.assignments[k], o);
    Closed(t, k);
  }

  lemma BushidoWitness(t: Transition, o: Occurrence) returns (k: nat)
    requires BushidoDue(t, o)
    ensures k < |t.participants| && 0 <= o.index && 0 <= o.amount
    ensures var d := Draft(Bushido, t.participants[k], t.participants[k], o.amount, o.index);
            FromJob(BushidoJob(t, k), d) && Announced(t, d) == o
  {
    k :| 0 <= k < |t.participants| && BushidoOf(t, t.participants[k], o);
  }

  ghost function DueIn(t: Transition): Occurrence -> bool
    requires Coherent(t)
  {
    (o: Occurrence) => Due(t, o)
  }

  function Announcing(t: Transition): Sketch -> Occurrence {
    (d: Sketch) => Announced(t, d)
  }

  /** The transition's occurrences, in the order they are put on the stack. */
  ghost predicate Derives(t: Transition, os: seq<Occurrence>)
    requires Coherent(t)
  {
    Announces(OccurrenceKey, DueIn(t), ValidOccurrence, os) && |os| == Owed(AllJobs(t))
  }

  /** The derivation is a function of the event. */
  lemma DerivationIsDetermined(t: Transition, os: seq<Occurrence>, qs: seq<Occurrence>)
    requires Coherent(t) && Derives(t, os) && Derives(t, qs)
    ensures os == qs && Distinct(os)
  {
    hide Announces, Coherent;
    AnnouncementIsDetermined(OccurrenceKey, DueIn(t), ValidOccurrence, os, qs);
  }

  lemma DerivesIs(t: Transition, os: seq<Occurrence>)
    requires Coherent(t)
    ensures Derives(t, os) <==> Announces(OccurrenceKey, DueIn(t), ValidOccurrence, os) && |os| == Owed(AllJobs(t))
  {
    hide Announces, Coherent;
  }

  lemma EveryJobAnnounceable(t: Transition)
    requires Coherent(t)
    ensures Announceable(AllJobs(t), Announcing(t), DueIn(t), ValidOccurrence)
    ensures forall d :: OccurrenceKey(Announcing(t)(d)) == DraftKey(d)
  {
    hide Coherent, AllJobs, FromJob, Due, ValidOccurrence;
    forall d | Contributed(AllJobs(t), d) ensures Due(t, Announced(t, d)) && ValidOccurrence(Announced(t, d)) {
      var j :| 0 <= j < |AllJobs(t)| && FromJob(AllJobs(t)[j], d);
      JobIsDue(t, j, d);
    }
    forall o | Due(t, o) ensures exists d :: Contributed(AllJobs(t), d) && Announcing(t)(d) == o {
      DueHasJob(t, o);
      var j, d :| 0 <= j < |AllJobs(t)| && FromJob(AllJobs(t)[j], d) && Announced(t, d) == o;
      assert Contributed(AllJobs(t), d) && Announcing(t)(d) == o;
    }
    forall d ensures OccurrenceKey(Announcing(t)(d)) == DraftKey(d) {
    }
  }

  /** Derives the Flanking and Bushido triggers of a sealed transition. No occurrence is ever
      refused. */
  method Derive(t: Transition) returns (os: seq<Occurrence>)
    requires Coherent(t)
    ensures Derives(t, os)
  {
    hide *;
    var byId := ById(t.participants);
    var drafts: seq<Sketch> := [];
    var blocked: set<string>, blocking: set<string> := {}, {};
    NoJobs(t);
    for m := 0 to |t.assignments|
      invariant drafts == Drafts(Jobs(t, m, 0))
      invariant blocked + blocking == Named(t.assignments[..m])
    {
      var x := t.assignments[m];
      Closed(t, m);
      var attacker, blocker := byId[x.attacker], byId[x.blocker];
      blocked := blocked + {attacker.identity.objectId};
      blocking := blocking + {blocker.identity.objectId};
      NamedStep(t.assignments, m);
      FlankingJobIs(t, m);
      FlankingStep(t, m);
      DraftsStep(Jobs(t, m, 0), FlankingJob(t, m));
      if Has(blocker.specs, Flanking) {
        EmptyJob(FlankingJob(t, m));
        assert drafts + [] == drafts;
        continue;
      }
      drafts := Enqueue(drafts, Job(Flanking, attacker, blocker, Amounts(attacker.specs, Flanking)));
    }
    assert t.assignments[..|t.assignments|] == t.assignments;
    TransitionFacts(t);
    for n := 0 to |t.participants|
      invariant drafts == Drafts(Jobs(t, |t.assignments|, n))
    {
      var source := t.participants[n];
      Listed(t.participants, n);
      assert source.identity.objectId in blocked + blocking;
      if source.identity.objectId !in blocked + blocking {
        continue;
      }
      BushidoJobIs(t, n);
      BushidoStep(t, n);
      DraftsStep(Jobs(t, |t.assignments|, n), BushidoJob(t, n));
      drafts := Enqueue(drafts, Job(Bushido, source, source, Amounts(source.specs, Bushido)));
    }
    AllJobsIs(t);
    DraftsKeyed(t);
    EveryJobAnnounceable(t);
    os := Announce(AllJobs(t), drafts, DraftKey, Announcing(t), ValidOccurrence, OccurrenceKey, DueIn(t));
    DerivesIs(t, os);
  }

  lemma NoJobs(t: Transition)
    requires Coherent(t)
    ensures Jobs(t, 0, 0) == [] && Drafts(Jobs(t, 0, 0)) == [] && Named(t.assignments[..0]) == {}
  {
    hide Coherent;
  }

  lemma NamedStep(xs: seq<Assignment>, m: nat)
    requires m < |xs|
    ensures Named(xs[..m + 1]) == Named(xs[..m]) + {xs[m].attacker, xs[m].blocker}
  {
    assert xs[..m + 1][..m] == xs[..m];
  }

  lemma FlankingJobIs(t: Transition, m: nat)
    requires Coherent(t) && m < |t.assignments|
    ensures var byId, x := ById(t.participants), t.assignments[m];
            && x.attacker in byId && x.blocker in byId
            && FlankingJob(t, m) == Job(Flanking, byId[x.attacker], byId[x.blocker],
                 if Has(byId[x.blocker].specs, Flanking) then [] else Amounts(byId[x.attacker].specs, Flanking))
  {
    hide Coherent;
    Closed(t, m);
  }

  lemma FlankingStep(t: Transition, m: nat)
    requires Coherent(t) && m < |t.assignments|
    ensures Jobs(t, m + 1, 0) == Jobs(t, m, 0) + [FlankingJob(t, m)]
  {
    hide Coherent, FlankingJob;
    assert FlankingJobs(t, m + 1) == FlankingJobs(t, m) + [FlankingJob(t, m)];
  }

  lemma Listed(ps: seq<Creature>, n: nat)
    requires n < |ps|
    ensures ps[n].identity.objectId in Ids(ps)
  {
    IdsAre(ps);
  }

  lemma EmptyJob(job: Work)
    requires job.amounts == []
    ensures JobDrafts(job) == []
  {
  }

  lemma BushidoJobIs(t: Transition, n: nat)
    requires n < |t.participants|
    ensures var p := t.participants[n]; BushidoJob(t, n) == Job(Bushido, p, p, Amounts(p.specs, Bushido))
  {
  }

  lemma BushidoStep(t: Transition, n: nat)
    requires Coherent(t) && n < |t.participants|
    ensures Jobs(t, |t.assignments|, n + 1) == Jobs(t, |t.assignments|, n) + [BushidoJob(t, n)]
  {
    hide Coherent, FlankingJobs, BushidoJob;
  }

  lemma AllJobsIs(t: Transition)
    requires Coherent(t)
    ensures AllJobs(t) == Jobs(t, |t.assignments|, |t.participants|)
  {
  }

  // ----- the order of the occurrences -----

  lemma KeySteps(o: Occurrence, q: Occurrence)
    requires KeyLess(OccurrenceKey(o), OccurrenceKey(q))
    ensures || StrLess(o.source.reference, q.source.reference)
            || (o.source.reference == q.source.reference
                && (StrLess(KindName(o.kind), KindName(q.kind))
                    || (KindName(o.kind) == KindName(q.kind)
                        && (StrLess(o.affected.reference, q.affected.reference)
                            || (o.affected.reference == q.affected.reference
                                && (o.index < q.index || (o.index == q.index && o.amount < q.amount)))))))
  {
    hide KindName, StrLess;
    var k, l := OccurrenceKey(o).parts, OccurrenceKey(q).parts;
    TupLessStep(k, l);
    TupLessStep(k[1..], l[1..]);
    TupLessStep(k[2..], l[2..]);
    TupLessStep(k[3..], l[3..]);
    TupLessStep(k[4..], l[4..]);
    TupLessStep(k[5..], l[5..]);
    assert k[1..][1..] == k[2..] && k[2..][1..] == k[3..] && k[3..][1..] == k[4..] && k[4..][1..] == k[5..];
    assert l[1..][1..] == l[2..] && l[2..][1..] == l[3..] && l[3..][1..] == l[4..] && l[4..][1..] == l[5..];
  }

  /** What is due is of these kinds, names participants, and its instance settles its amount. */
  lemma DueParties(t: Transition, o: Occurrence) returns (p: Creature, q: Creature)
    requires Coherent(t) && Due(t, o)
    ensures p in t.participants && q in t.participants && o.source == p.identity && o.affected == q.identity
    ensures o.kind == Flanking || o.kind == Bushido
    ensures 0 <= o.index && (o.kind == Flanking ==> o.amount == 1)
    ensures o.kind == Bushido ==>
              o.index < |Instances(p.specs, Bushido)| && o.amount == Instances(p.specs, Bushido)[o.index].amount
  {
    hide Coherent, Instances, ById;
    if FlankingDue(t, o) {
      var k :| 0 <= k < |t.assignments| && FlankingOf(t, t.assignments[k], o);
      Closed(t, k);
      p, q := ById(t.participants)[t.assignments[k].attacker], ById(t.participants)[t.assignments[k].blocker];
    } else {
      var k :| 0 <= k < |t.participants| && BushidoOf(t, t.participants[k], o);
      p, q := t.participants[k], t.participants[k];
    }
  }

  lemma SameReference(ps: seq<Creature>, p: Creature, q: Creature)
    requires UniqueIdentities(ps) && p in ps && q in ps && p.identity.reference == q.identity.reference
    ensures p == q
  {
  }

  /** The occurrences go by the references of their sources; of one source's, Bushido comes before
      Flanking; those of one kind go by the references of what they affect, and then by the index of
      the instance. */
  lemma DerivedOrder(t: Transition, os: seq<Occurrence>, i: nat, j: nat)
    requires Coherent(t) && Derives(t, os) && i < j < |os|
    ensures var o, q := os[i], os[j];
            || StrLess(o.source.reference, q.source.reference)
            || (o.source == q.source
                && ((o.kind == Bushido && q.kind == Flanking)
                    || (o.kind == q.kind
                        && (StrLess(o.affected.reference, q.affected.reference)
                            || (o.affected == q.affected && o.index < q.index)))))
  {
    hide Due, KeyLess, OccurrenceKey, KindName, ValidOccurrence, Instances, StrLess;
    var o, q := os[i], os[j];
    DerivesIs(t, os);
    assert ByKey(OccurrenceKey)(o, q);
    assert DueIn(t)(o) && DueIn(t)(q);
    var m, n := DueParties(t, o);
    var m', n' := DueParties(t, q);
    KeySteps(o, q);
    KindNamesDiffer(o.kind, q.kind);
    KindsInOrder();
    if o.source.reference == q.source.reference {
      SameReference(t.participants, m, m');
      if o.affected.reference == q.affected.reference { SameReference(t.participants, n, n'); }
    }
  }

  lemma KindsInOrder()
    ensures !StrLess(KindName(Flanking), KindName(Bushido))
    ensures forall k: Kind :: !StrLess(KindName(k), KindName(k))
  {
    assert KindName(Flanking)[0] == 'f' && KindName(Bushido)[0] == 'b';
    forall k: Kind ensures !StrLess(KindName(k), KindName(k)) { StrTrichotomy(KindName(k), KindName(k)); }
  }

  /** Every derived occurrence is complete: its source, controller and the creature it affects have
      names; Flanking counts one and affects another creature, Bushido counts and affects its own. */
  lemma DerivedIsComplete(t: Transition, os: seq<Occurrence>, o: Occurrence)
    requires Coherent(t) && Derives(t, os) && o in os
    ensures o.kind in {Flanking, Bushido} && o.controller != "" && o.amount >= 1 && o.index >= 0
    ensures o.source.objectId != "" && o.source.logicalId != "" && o.source.reference != ""
    ensures o.affected.objectId != "" && o.affected.logicalId != "" && o.affected.reference != ""
    ensures o.kind == Flanking ==> o.amount == 1 && o.source != o.affected
    ensures o.kind == Bushido ==> o.source == o.affected
  {
    hide Coherent, Due, OccurrenceKey;
    DerivesIs(t, os);
    assert DueIn(t)(o);
    var p, q := DueParties(t, o);
  }
}

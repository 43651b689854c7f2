/** Announcing combat damage in active-player-first order (CR 510.1), and what the announced
    damage adds up to. */
module DamageSequence {
  import opened Wrappers
  import opened DamageAssignment
  import opened DamageSnapshot

  datatype Announcement = Announcement(
    actor: string,
    index: nat,
    automatic: bool,
    proposalId: string,
    assignments: seq<Assignment>)

  datatype Sequence = Sequence(actors: seq<string>, cursor: nat, announcements: seq<Announcement>)

  predicate ValidAnnouncement(a: Announcement) {
    && a.actor != "" && a.proposalId != ""
    && PairsDiffer(RowsOf(a.assignments))
    && forall x :: x in a.assignments ==> x.amount > 0
  }

  /** Announcements precede the cursor, one per actor, in actor order. */
  predicate ValidSequence(q: Sequence) {
    && "" !in q.actors && Pairwise(q.actors)
    && q.cursor <= |q.actors| && |q.announcements| == q.cursor
    && forall i :: 0 <= i < q.cursor ==>
         q.announcements[i].index == i && q.announcements[i].actor == q.actors[i]
           && ValidAnnouncement(q.announcements[i])
  }

  function PendingActor(q: Sequence): Option<string> {
    if q.cursor < |q.actors| then Some(q.actors[q.cursor]) else None
  }

  function Collected(announcements: seq<Announcement>): seq<Assignment> {
    if announcements == [] then []
    else Collected(announcements[..|announcements| - 1]) + announcements[|announcements| - 1].assignments
  }

  /** Only the pending actor may announce, and only a proper announcement. */
  function Announce(q: Sequence, actor: string, proposalId: string, assignments: seq<Assignment>, automatic: bool)
    : (r: Option<Sequence>)
    requires ValidSequence(q)
    ensures r.Some? ==> ValidSequence(r.value)
  {
    if PendingActor(q) != Some(actor) then None
    else
      var a := Announcement(actor, q.cursor, automatic, proposalId, assignments);
      if !ValidAnnouncement(a) then None
      else Some(Sequence(q.actors, q.cursor + 1, q.announcements + [a]))
  }

  /** Only the actor whose turn it is may announce, under a name, for a proposal, with positive amounts
      and no repeated pair; and what has been announced is by the first of the distinct actors, in order. */
  lemma AnnounceIff(q: Sequence, actor: string, proposalId: string, assignments: seq<Assignment>, automatic: bool)
    requires ValidSequence(q)
    ensures var r := Announce(q, actor, proposalId, assignments, automatic);
            && (r.Some? <==>
                  && |q.announcements| < |q.actors| && q.actors[|q.announcements|] == actor
                  && proposalId != "" && (forall a :: a in assignments ==> a.amount > 0)
                  && forall i, j :: 0 <= i < j < |assignments| ==>
                       (assignments[i].source, assignments[i].target) != (assignments[j].source, assignments[j].target))
            && (r.Some? ==>
                  && r.value.actors == q.actors
                  && r.value.announcements ==
                     q.announcements + [Announcement(actor, |q.announcements|, automatic, proposalId, assignments)])
    ensures |q.announcements| <= |q.actors| && forall i, j :: 0 <= i < j < |q.actors| ==> q.actors[i] != q.actors[j]
    ensures forall i :: 0 <= i < |q.announcements| ==> q.announcements[i].actor == q.actors[i]
  {
    if |q.announcements| < |q.actors| { assert q.actors[|q.announcements|] in q.actors; }
  }

  /** The uniqueness gate: nonempty names, no negative amount, no repeated pair. */
  predicate PassesGate(rows: seq<Row>) {
    && (forall row :: row in rows ==> row.source != "" && row.target != "" && row.amount >= 0)
    && PairsDiffer(rows)
  }

  function Indexed(rows: seq<Row>): (r: seq<(nat, Assignment)>)
    requires forall row :: row in rows ==> row.amount >= 0
    ensures |r| == |rows|
    ensures forall i :: 0 <= i < |rows| ==> r[i] == (i, Assignment(rows[i].source, rows[i].target, rows[i].amount))
  {
    seq(|rows|, i requires 0 <= i < |rows| =>
      assert rows[i] in rows; (i, Assignment(rows[i].source, rows[i].target, rows[i].amount)))
  }

  /** Checks a batch row by row and keeps the row indices. */
  method CanonicalValues(rows: seq<Row>) returns (r: Option<seq<(nat, Assignment)>>)
    ensures r.Some? <==> PassesGate(rows)
    ensures r.Some? ==> r.value == Indexed(rows)
  {
    var values: seq<(nat, Assignment)> := [];
    var seen: set<Pair> := {};
    var i := 0;
    while i < |rows|
      invariant 0 <= i <= |rows| && |values| == i
      invariant forall k :: 0 <= k < i ==> rows[k].source != "" && rows[k].target != "" && rows[k].amount >= 0
      invariant forall k :: 0 <= k < i ==> values[k] == (k, Assignment(rows[k].source, rows[k].target, rows[k].amount))
      invariant forall k :: 0 <= k < i ==> (rows[k].source, rows[k].target) in seen
      invariant forall pair :: pair in seen ==> exists k :: 0 <= k < i && pair == (rows[k].source, rows[k].target)
      invariant forall j, k :: 0 <= j < k < i ==> rows[j].source != rows[k].source || rows[j].target != rows[k].target
    {
      if rows[i].source == "" || rows[i].target == "" || rows[i].amount < 0 {
        assert rows[i] in rows;
        return None;
      }
      var pair := (rows[i].source, rows[i].target);
      if pair in seen {
        return None;
      }
      seen := seen + {pair};
      values := values + [(i, Assignment(rows[i].source, rows[i].target, rows[i].amount))];
      i := i + 1;
    }
    assert forall row :: row in rows ==> exists k :: 0 <= k < |rows| && rows[k] == row;
    return Some(values);
  }

  // ----- damage due -----

  function SumOf(assignments: seq<Assignment>): nat {
    if assignments == [] then 0 else SumOf(assignments[..|assignments| - 1]) + assignments[|assignments| - 1].amount
  }

  /** The damage a participant must assign: its power if that is positive and it has a target. */
  function DueOf(s: Snapshot, p: Participant): nat {
    if p.assigns && p.power > 0 && TargetsOf(s, p) != [] then p.power else 0
  }

  function DueBy(s: Snapshot, ps: seq<Participant>, seat: string): nat {
    if ps == [] then 0
    else
      var n := |ps| - 1;
      DueBy(s, ps[..n], seat) + if ps[n].controller == seat then DueOf(s, ps[n]) else 0
  }

  function DueInAll(s: Snapshot, ps: seq<Participant>): nat {
    if ps == [] then 0 else DueInAll(s, ps[..|ps| - 1]) + DueOf(s, ps[|ps| - 1])
  }

  function DueByActors(s: Snapshot, ps: seq<Participant>, actors: seq<string>): nat {
    if actors == [] then 0
    else DueByActors(s, ps, actors[..|actors| - 1]) + DueBy(s, ps, actors[|actors| - 1])
  }

  lemma {:induction false} DueOneMore(s: Snapshot, ps: seq<Participant>, p: Participant, actors: seq<string>)
    requires Pairwise(actors)
    ensures DueByActors(s, ps + [p], actors) ==
            DueByActors(s, ps, actors) + if p.controller in actors then DueOf(s, p) else 0
    decreases |actors|
  {
    hide DueOf;
    if actors == [] {
    } else {
      var n := |actors| - 1;
      assert actors == actors[..n] + [actors[n]];
      assert actors[n] !in actors[..n];
      DueOneMore(s, ps, p, actors[..n]);
      assert (ps + [p])[..|ps|] == ps;
    }
  }

  lemma {:induction false} NobodyOwes(s: Snapshot, actors: seq<string>)
    ensures DueByActors(s, [], actors) == 0
    decreases |actors|
  {
    if actors == [] {
    } else {
      NobodyOwes(s, actors[..|actors| - 1]);
    }
  }

  /** Distinct actors that cover every controller owe together what all participants owe. */
  lemma {:induction false} ActorsOweAll(s: Snapshot, ps: seq<Participant>, actors: seq<string>)
    requires Pairwise(actors) && forall p :: p in ps ==> p.controller in actors
    ensures DueByActors(s, ps, actors) == DueInAll(s, ps)
    decreases |ps|
  {
    hide DueOf;
    if ps == [] {
      NobodyOwes(s, actors);
    } else {
      var n := |ps| - 1;
      assert ps == ps[..n] + [ps[n]];
      assert ps[n] in ps && forall p :: p in ps[..n] ==> p in ps;
      ActorsOweAll(s, ps[..n], actors);
      DueOneMore(s, ps[..n], ps[n], actors);
    }
  }

  // ----- one seat's result adds up -----

  function TotalOver(rows: seq<Row>, names: seq<string>): int {
    if names == [] then 0 else TotalOver(rows, names[..|names| - 1]) + Total(rows, names[|names| - 1])
  }

  function SumRequired(sources: seq<SourceSpec>): nat {
    if sources == [] then 0 else SumRequired(sources[..|sources| - 1]) + Required(sources[|sources| - 1])
  }

  lemma {:induction false} TotalOverOneMore(rows: seq<Row>, row: Row, names: seq<string>)
    requires Pairwise(names)
    ensures TotalOver(rows + [row], names) == TotalOver(rows, names) + if row.source in names then row.amount else 0
    decreases |names|
  {
    assert (rows + [row])[..|rows|] == rows;
    if names == [] {
    } else {
      var n := |names| - 1;
      assert names == names[..n] + [names[n]];
      assert names[n] !in names[..n];
      TotalOverOneMore(rows, row, names[..n]);
    }
  }

  lemma {:induction false} TotalOverNothing(names: seq<string>)
    ensures TotalOver([], names) == 0
    decreases |names|
  {
    if names == [] {
    } else {
      TotalOverNothing(names[..|names| - 1]);
    }
  }

  lemma {:induction false} SumIsTotalOver(assignments: seq<Assignment>, names: seq<string>)
    requires Pairwise(names) && forall a :: a in assignments ==> a.source in names
    ensures SumOf(assignments) == TotalOver(RowsOf(assignments), names)
    decreases |assignments|
  {
    if assignments == [] {
      TotalOverNothing(names);
      assert RowsOf([]) == [];
    } else {
      var n := |assignments| - 1;
      SumIsTotalOver(assignments[..n], names);
      assert RowsOf(assignments) == RowsOf(assignments[..n]) + [RowsOf(assignments)[n]];
      TotalOverOneMore(RowsOf(assignments[..n]), RowsOf(assignments)[n], names);
      assert assignments[n] in assignments;
    }
  }

  lemma {:induction false} TotalOverIsRequired(rows: seq<Row>, sources: seq<SourceSpec>)
    requires forall s :: s in sources ==> Total(rows, s.source) == Required(s)
    ensures TotalOver(rows, SourceNames(sources)) == SumRequired(sources)
    decreases |sources|
  {
    hide Total, Required;
    if sources == [] {
    } else {
      var n := |sources| - 1;
      assert SourceNames(sources)[..n] == SourceNames(sources[..n]);
      assert sources[n] in sources && forall s :: s in sources[..n] ==> s in sources;
      TotalOverIsRequired(rows, sources[..n]);
    }
  }

  lemma {:induction false} RequiredIsDue(s: Snapshot, ps: seq<Participant>, seat: string)
    ensures SumRequired(SourcesOf(s, SeatOnly(ps, seat))) == DueBy(s, ps, seat)
    decreases |ps|
  {
    hide TargetsOf;
    if ps == [] {
    } else {
      var n := |ps| - 1;
      RequiredIsDue(s, ps[..n], seat);
      var before := SeatOnly(ps[..n], seat);
      if Takes(ps[n], seat) {
        var sources := SourcesOf(s, before + [ps[n]]);
        assert sources[..|sources| - 1] == SourcesOf(s, before);
      } else {
        assert before + [] == before;
      }
    }
  }

  /** An accepted submission for a seat assigns all that the seat owes. */
  lemma SeatAssignsItsDue(s: Snapshot, seat: string, rows: seq<Row>)
    requires ProposalOf(s, seat).Some? && Accepts(ProposalOf(s, seat).value, rows)
    ensures SumOf(ResultOf(rows, ProposalOf(s, seat).value.sources)) == DueBy(s, s.participants, seat)
  {
    hide ValidProposal, Accepts, ResultOf, Total, SourcesOf, SeatOnly, TramplersOf, AttackingRefs, DeathtouchRefs,
         HasLethal;
    var p := ProposalOf(s, seat).value;
    var r := ResultOf(rows, p.sources);
    AcceptedResult(p, rows);
    ProposalNames(p);
    forall a | a in r ensures a.source in SourceNames(p.sources) {
      var u :| u in p.sources && u.source == a.source && a.target in u.targets;
      var i :| 0 <= i < |p.sources| && p.sources[i] == u;
      assert SourceNames(p.sources)[i] == a.source;
    }
    SumIsTotalOver(r, SourceNames(p.sources));
    TotalOverIsRequired(RowsOf(r), p.sources);
    RequiredIsDue(s, s.participants, seat);
  }

  lemma ProposalNames(p: Proposal)
    requires ValidProposal(p)
    ensures Pairwise(SourceNames(p.sources))
    ensures forall u :: u in p.sources ==> u.source != "" && "" !in u.targets
  {
    forall u | u in p.sources ensures u.source != "" && "" !in u.targets {
      var i :| 0 <= i < |p.sources| && p.sources[i] == u;
      assert ValidSource(p.sources[i]);
    }
  }

  // ----- the whole announcement -----

  function Flatten(results: seq<seq<Assignment>>): seq<Assignment> {
    if results == [] then [] else Flatten(results[..|results| - 1]) + results[|results| - 1]
  }

  /** Every actor's result was accepted by that actor's own proposal. */
  ghost predicate Answers(s: Snapshot, actors: seq<string>, results: seq<seq<Assignment>>) {
    && |results| == |actors|
    && forall i :: 0 <= i < |actors| ==> AnswersFor(s, actors[i], results[i])
  }

  ghost predicate AnswersFor(s: Snapshot, seat: string, result: seq<Assignment>) {
    && ProposalOf(s, seat).Some?
    && exists rows :: Accepts(ProposalOf(s, seat).value, rows)
        && result == ResultOf(rows, ProposalOf(s, seat).value.sources)
  }

  /** The sequence after the first `count` actors have announced their results. */
  function AnnouncedBy(actors: seq<string>, results: seq<seq<Assignment>>, proposalId: string,
                       count: nat): Option<Sequence>
    requires "" !in actors && Pairwise(actors) && |results| == |actors| && count <= |actors|
    ensures AnnouncedBy(actors, results, proposalId, count).Some? ==>
              ValidSequence(AnnouncedBy(actors, results, proposalId, count).value)
  {
    if count == 0 then Some(Sequence(actors, 0, []))
    else
      match AnnouncedBy(actors, results, proposalId, count - 1)
      case None => None
      case Some(q) => Announce(q, actors[count - 1], proposalId, results[count - 1], false)
  }

  /** Proper results are announced without ever getting stuck, in actor order. */
  lemma {:induction false} AnnouncementsNeverStick(actors: seq<string>, results: seq<seq<Assignment>>,
                                                   proposalId: string, count: nat)
    requires "" !in actors && Pairwise(actors) && |results| == |actors| && count <= |actors| && proposalId != ""
    requires forall i :: 0 <= i < |results| ==>
               PairsDiffer(RowsOf(results[i])) && forall a :: a in results[i] ==> a.amount > 0
    ensures var q := AnnouncedBy(actors, results, proposalId, count);
            && q.Some? && q.value.actors == actors && q.value.cursor == count
            && PendingActor(q.value) == (if count < |actors| then Some(actors[count]) else None)
            && Collected(q.value.announcements) == Flatten(results[..count])
  {
    if count == 0 {
      assert results[..0] == [];
    } else {
      AnnouncementsNeverStick(actors, results, proposalId, count - 1);
      var before := AnnouncedBy(actors, results, proposalId, count - 1).value;
      FlattenOneMore(results, count - 1);
    }
  }

  lemma FlattenOneMore(results: seq<seq<Assignment>>, i: nat)
    requires i < |results|
    ensures Flatten(results[..i + 1]) == Flatten(results[..i]) + results[i]
  {
    assert results[..i + 1][..i] == results[..i];
  }

  lemma {:induction false} SumConcat(a: seq<Assignment>, b: seq<Assignment>)
    ensures SumOf(a + b) == SumOf(a) + SumOf(b)
    decreases |b|
  {
    if b == [] {
      assert a + b == a;
    } else {
      SumConcat(a, b[..|b| - 1]);
      assert (a + b)[..|a + b| - 1] == a + b[..|b| - 1];
    }
  }

  lemma {:induction false} FlattenAddsUp(s: Snapshot, actors: seq<string>, results: seq<seq<Assignment>>)
    requires Answers(s, actors, results)
    ensures SumOf(Flatten(results)) == DueByActors(s, s.participants, actors)
    decreases |actors|
  {
    hide AnswersFor, ProposalOf, DueBy;
    if actors == [] {
    } else {
      var n := |actors| - 1;
      FlattenAddsUp(s, actors[..n], results[..n]);
      SumConcat(Flatten(results[..n]), results[n]);
      AnswerAddsUp(s, actors[n], results[n]);
    }
  }

  lemma AnswerAddsUp(s: Snapshot, seat: string, result: seq<Assignment>)
    requires AnswersFor(s, seat, result)
    ensures SumOf(result) == DueBy(s, s.participants, seat)
  {
    hide ProposalOf, Accepts, ResultOf;
    var rows :| Accepts(ProposalOf(s, seat).value, rows) && result == ResultOf(rows, ProposalOf(s, seat).value.sources);
    SeatAssignsItsDue(s, seat, rows);
  }

  /** Each assignment of a seat's answer comes from a participant that the seat controls. */
  ghost predicate FromSeat(s: Snapshot, seat: string, a: Assignment) {
    exists p :: p in s.participants && p.reference == a.source && p.controller == seat
  }

  lemma AnswerIsProper(s: Snapshot, seat: string, result: seq<Assignment>)
    requires AnswersFor(s, seat, result)
    ensures PairsDiffer(RowsOf(result))
    ensures forall a :: a in result ==> a.amount > 0 && a.source != "" && a.target != "" && FromSeat(s, seat, a)
  {
    hide ValidProposal, Accepts, ResultOf, TargetsOf, TramplersOf, AttackingRefs, DeathtouchRefs, PairsDiffer, Total,
         HasLethal;
    var p := ProposalOf(s, seat).value;
    var rows :| Accepts(p, rows) && result == ResultOf(rows, p.sources);
    AcceptedResult(p, rows);
    ProposalNames(p);
    forall a | a in result ensures a.source != "" && a.target != "" && FromSeat(s, seat, a) {
      var u :| u in p.sources && u.source == a.source && a.target in u.targets;
      var i :| 0 <= i < |p.sources| && p.sources[i] == u;
      var ps := SeatOnly(s.participants, seat);
      assert ps[i] in ps && ps[i].reference == a.source;
    }
  }

  lemma {:induction false} FlattenIsProper(s: Snapshot, actors: seq<string>, results: seq<seq<Assignment>>)
    requires Pairwise(Refs(s.participants)) && Pairwise(actors) && Answers(s, actors, results)
    ensures PassesGate(RowsOf(Flatten(results)))
    ensures forall a :: a in Flatten(results) ==> exists i :: 0 <= i < |actors| && FromSeat(s, actors[i], a)
    decreases |actors|
  {
    hide AnswersFor;
    if actors == [] {
    } else {
      var n := |actors| - 1;
      var front, last := Flatten(results[..n]), results[n];
      FlattenIsProper(s, actors[..n], results[..n]);
      AnswerIsProper(s, actors[n], last);
      forall a, b | a in front && b in last ensures a.source != b.source {
        var i :| 0 <= i < n && FromSeat(s, actors[..n][i], a);
        assert actors[i] != actors[n];
      }
      GateConcat(front, last);
      forall a | a in Flatten(results) ensures exists i :: 0 <= i < |actors| && FromSeat(s, actors[i], a) {
        if a in front {
          var i :| 0 <= i < n && FromSeat(s, actors[..n][i], a);
          assert FromSeat(s, actors[i], a);
        } else {
          assert FromSeat(s, actors[n], a);
        }
      }
    }
  }

  lemma GateConcat(front: seq<Assignment>, last: seq<Assignment>)
    requires PassesGate(RowsOf(front)) && PairsDiffer(RowsOf(last))
    requires forall a :: a in last ==> a.source != "" && a.target != ""
    requires forall a, b :: a in front && b in last ==> a.source != b.source
    ensures PassesGate(RowsOf(front + last))
  {
    var rows := RowsOf(front + last);
    assert rows == RowsOf(front) + RowsOf(last);
    forall i | 0 <= i < |rows| ensures rows[i].source != "" && rows[i].target != "" && rows[i].amount >= 0 {
      if i < |front| { assert RowsOf(front)[i] in RowsOf(front); } else { assert last[i - |front|] in last; }
    }
    forall i, j | 0 <= i < j < |rows| ensures rows[i].source != rows[j].source || rows[i].target != rows[j].target {
      if i < |front| <= j { assert front[i] in front && last[j - |front|] in last; }
    }
  }

  /** When distinct actors cover every controller and each announces a result that their own
      proposal accepts, nobody is left to announce, the damage collected is the clamped power
      of all assigning participants that have targets, and the final gate accepts it. */
  lemma AnnouncedDamageIsConserved(s: Snapshot, actors: seq<string>, results: seq<seq<Assignment>>, proposalId: string)
    requires ValidSnapshot(s) && "" !in actors && Pairwise(actors) && proposalId != ""
    requires forall p :: p in s.participants ==> p.controller in actors
    requires Answers(s, actors, results)
    ensures var q := AnnouncedBy(actors, results, proposalId, |actors|);
            && q.Some? && PendingActor(q.value) == None
            && SumOf(Collected(q.value.announcements)) == DueInAll(s, s.participants)
            && PassesGate(RowsOf(Collected(q.value.announcements)))
  {
    hide ValidSnapshot, AnswersFor, PairsDiffer, DueInAll, DueByActors, SumOf, Flatten, RowsOf, PassesGate,
         Collected, AnnouncedBy;
    SnapshotParts(s);
    forall i | 0 <= i < |results|
      ensures PairsDiffer(RowsOf(results[i])) && forall a :: a in results[i] ==> a.amount > 0
    {
      AnswerIsProper(s, actors[i], results[i]);
    }
    AnnouncementsNeverStick(actors, results, proposalId, |actors|);
    assert results[..|actors|] == results;
    FlattenAddsUp(s, actors, results);
    ActorsOweAll(s, s.participants, actors);
    FlattenIsProper(s, actors, results);
  }

  /** Every seat whose tramplers spill apart has an answer to give. */
  lemma EverySeatCanAnswer(s: Snapshot, seat: string) returns (result: seq<Assignment>)
    requires ValidSnapshot(s) && seat != "" && SpillsApart(s, seat)
    ensures AnswersFor(s, seat, result)
  {
    hide ValidSnapshot, SpillsApart, Accepts, ResultOf, ValidProposal;
    ProposalBuildsIff(s, seat);
    var p := ProposalOf(s, seat).value;
    SomeSubmissionIsAccepted(p);
    result := ResultOf(RowsOf(Concentrated(p, p.sources)), p.sources);
  }
}

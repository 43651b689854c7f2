/** One seat's division of combat damage (CR 510.1) with trample's lethal-before-spill rule
    (CR 702.19b): which submissions a proposal accepts, and what they become. */
module DamageAssignment {
  import opened Wrappers
  import opened Orders

  datatype Assignment = Assignment(source: string, target: string, amount: nat)

  /** A submitted row, before any check. */
  datatype Row = Row(source: string, target: string, amount: int)

  datatype CreatureState = CreatureState(toughness: int, marked: nat)

  datatype SourceSpec = SourceSpec(source: string, controller: string, logicalId: string, power: nat,
                                   targets: seq<string>)

  datatype Blocker = Blocker(reference: string, state: CreatureState)

  datatype TrampleSpec = TrampleSpec(attacker: string, spill: string, blockers: seq<Blocker>)

  datatype Proposal = Proposal(
    step: string,
    actor: string,
    sources: seq<SourceSpec>,
    attacking: set<string>,
    deathtouch: set<string>,
    tramplers: seq<TrampleSpec>)

  // ----- well-formed proposals -----

  predicate Pairwise(xs: seq<string>) {
    forall i, j :: 0 <= i < j < |xs| ==> xs[i] != xs[j]
  }

  function SourceNames(sources: seq<SourceSpec>): (r: seq<string>)
    ensures |r| == |sources| && forall i :: 0 <= i < |sources| ==> r[i] == sources[i].source
  {
    seq(|sources|, i requires 0 <= i < |sources| => sources[i].source)
  }

  function LogicalNames(sources: seq<SourceSpec>): (r: seq<string>)
    ensures |r| == |sources| && forall i :: 0 <= i < |sources| ==> r[i] == sources[i].logicalId
  {
    seq(|sources|, i requires 0 <= i < |sources| => sources[i].logicalId)
  }

  function BlockerNames(blockers: seq<Blocker>): (r: seq<string>)
    ensures |r| == |blockers| && forall i :: 0 <= i < |blockers| ==> r[i] == blockers[i].reference
  {
    seq(|blockers|, i requires 0 <= i < |blockers| => blockers[i].reference)
  }

  function TramplerNames(ts: seq<TrampleSpec>): (r: seq<string>)
    ensures |r| == |ts| && forall i :: 0 <= i < |ts| ==> r[i] == ts[i].attacker
  {
    seq(|ts|, i requires 0 <= i < |ts| => ts[i].attacker)
  }

  function Except(xs: seq<string>, x: string): (r: seq<string>)
    ensures forall y :: y in r <==> y in xs && y != x
  {
    if xs == [] then []
    else (if xs[0] == x then [] else [xs[0]]) + Except(xs[1..], x)
  }

  /** The trampling source's targets are its blockers, in order, and the spill target. */
  predicate TrampleMatches(t: TrampleSpec, s: SourceSpec) {
    t.attacker == s.source ==> t.spill in s.targets && BlockerNames(t.blockers) == Except(s.targets, t.spill)
  }

  predicate ValidSource(s: SourceSpec) {
    s.source != "" && s.controller != "" && s.logicalId != "" && "" !in s.targets && Pairwise(s.targets)
  }

  predicate ValidProposal(p: Proposal) {
    && p.step != "" && p.actor != ""
    && (forall i :: 0 <= i < |p.sources| ==> ValidSource(p.sources[i]) && p.sources[i].controller == p.actor)
    && Pairwise(SourceNames(p.sources)) && Pairwise(LogicalNames(p.sources))
    && (forall a :: a in p.attacking ==> a in SourceNames(p.sources))
    && p.deathtouch <= p.attacking
    && Pairwise(TramplerNames(p.tramplers))
    && (forall t :: t in p.tramplers ==>
          && t.attacker in p.attacking && Pairwise(BlockerNames(t.blockers))
          && forall s :: s in p.sources ==> TrampleMatches(t, s))
  }

  // ----- sums over rows -----

  function Total(rows: seq<Row>, source: string): int {
    if rows == [] then 0
    else
      var last := rows[|rows| - 1];
      Total(rows[..|rows| - 1], source) + if last.source == source then last.amount else 0
  }

  function Amount(rows: seq<Row>, source: string, target: string): int {
    if rows == [] then 0
    else
      var last := rows[|rows| - 1];
      Amount(rows[..|rows| - 1], source, target)
      + if last.source == source && last.target == target then last.amount else 0
  }

  function AmountOver(rows: seq<Row>, source: string, targets: seq<string>): int {
    if targets == [] then 0 else Amount(rows, source, targets[0]) + AmountOver(rows, source, targets[1..])
  }

  predicate PairsDiffer(rows: seq<Row>) {
    forall i, j :: 0 <= i < j < |rows| ==> rows[i].source != rows[j].source || rows[i].target != rows[j].target
  }

  predicate LegalRow(sources: seq<SourceSpec>, row: Row) {
    row.amount >= 0
    && exists s :: s in sources && s.source == row.source && s.power > 0 && row.target in s.targets
  }

  function Required(s: SourceSpec): nat {
    if s.targets == [] then 0 else s.power
  }

  // ----- the canonical result -----

  function Lines(rows: seq<Row>, source: string, targets: seq<string>): seq<Assignment> {
    if targets == [] then []
    else
      var amount := Amount(rows, source, targets[0]);
      (if amount > 0 then [Assignment(source, targets[0], amount)] else []) + Lines(rows, source, targets[1..])
  }

  /** Positive amounts in source order, then target order. */
  function ResultOf(rows: seq<Row>, sources: seq<SourceSpec>): seq<Assignment> {
    if sources == [] then []
    else Lines(rows, sources[0].source, sources[0].targets) + ResultOf(rows, sources[1..])
  }

  // ----- trample -----

  function Spilled(assignments: seq<Assignment>, attacker: string, spill: string): nat {
    if assignments == [] then 0
    else
      var last := assignments[|assignments| - 1];
      Spilled(assignments[..|assignments| - 1], attacker, spill)
      + if last.source == attacker && last.target == spill then last.amount else 0
  }

  /** Damage that all attacking sources together assign to a blocker. */
  function AssignedTo(assignments: seq<Assignment>, attacking: set<string>, blocker: string): nat {
    if assignments == [] then 0
    else
      var last := assignments[|assignments| - 1];
      AssignedTo(assignments[..|assignments| - 1], attacking, blocker)
      + if last.source in attacking && last.target == blocker then last.amount else 0
  }

  predicate DeathtouchLethal(a: Assignment, deathtouch: set<string>) {
    a.amount > 0 && a.source in deathtouch
  }

  predicate HasLethal(p: Proposal, assignments: seq<Assignment>, b: Blocker) {
    || (exists a :: a in assignments && a.target == b.reference && a.source in p.attacking
         && DeathtouchLethal(a, p.deathtouch))
    || b.state.marked + AssignedTo(assignments, p.attacking, b.reference) >= b.state.toughness
  }

  /** Nothing spills until every blocker has lethal damage assigned. */
  predicate TrampleAllowed(p: Proposal, assignments: seq<Assignment>, t: TrampleSpec) {
    Spilled(assignments, t.attacker, t.spill) > 0 ==> forall b :: b in t.blockers ==> HasLethal(p, assignments, b)
  }

  // ----- acceptance -----

  predicate Accepts(p: Proposal, rows: seq<Row>) {
    && (forall row :: row in rows ==> LegalRow(p.sources, row))
    && PairsDiffer(rows)
    && (forall s :: s in p.sources ==> Total(rows, s.source) == Required(s))
    && forall t :: t in p.tramplers ==> TrampleAllowed(p, ResultOf(rows, p.sources), t)
  }

  function RowsOf(assignments: seq<Assignment>): (rows: seq<Row>)
    ensures |rows| == |assignments|
    ensures forall i :: 0 <= i < |rows| ==>
              rows[i] == Row(assignments[i].source, assignments[i].target, assignments[i].amount)
  {
    seq(|assignments|, i requires 0 <= i < |assignments| =>
      Row(assignments[i].source, assignments[i].target, assignments[i].amount))
  }

  // ----- sums agree -----

  lemma {:induction false} OverOneMoreRow(rows: seq<Row>, row: Row, source: string, targets: seq<string>)
    requires Pairwise(targets)
    ensures AmountOver(rows + [row], source, targets) ==
            AmountOver(rows, source, targets) + if row.source == source && row.target in targets then row.amount else 0
  {
    assert (rows + [row])[..|rows|] == rows;
    if targets == [] {
    } else {
      assert Pairwise(targets[1..]) by {
        forall i, j | 0 <= i < j < |targets[1..]| ensures targets[1..][i] != targets[1..][j] {
          assert targets[i + 1] != targets[j + 1];
        }
      }
      assert targets[0] !in targets[1..] by {
        forall i | 0 <= i < |targets[1..]| ensures targets[1..][i] != targets[0] {
          assert targets[i + 1] != targets[0];
        }
      }
      OverOneMoreRow(rows, row, source, targets[1..]);
      assert targets == [targets[0]] + targets[1..];
    }
  }

  lemma {:induction false} NothingOver(source: string, targets: seq<string>)
    ensures AmountOver([], source, targets) == 0
  {
    if targets == [] {
    } else {
      NothingOver(source, targets[1..]);
    }
  }

  /** What a source's rows assign is what its targets receive. */
  lemma {:induction false} TotalIsOverTargets(rows: seq<Row>, source: string, targets: seq<string>)
    requires Pairwise(targets)
    requires forall row :: row in rows && row.source == source ==> row.target in targets
    ensures Total(rows, source) == AmountOver(rows, source, targets)
    decreases |rows|
  {
    if rows == [] {
      NothingOver(source, targets);
    } else {
      var n := |rows| - 1;
      TotalIsOverTargets(rows[..n], source, targets);
      assert rows == rows[..n] + [rows[n]];
      OverOneMoreRow(rows[..n], rows[n], source, targets);
    }
  }

  lemma {:induction false} AmountOfPermutation(rows: seq<Row>, others: seq<Row>, source: string, target: string)
    requires multiset(rows) == multiset(others)
    ensures Amount(rows, source, target) == Amount(others, source, target)
    ensures Total(rows, source) == Total(others, source)
    decreases |rows|
  {
    if rows == [] {
      assert |others| == |multiset(others)| == 0;
    } else {
      var n := |rows| - 1;
      var row := rows[n];
      assert rows == rows[..n] + [row];
      assert row in multiset(others);
      var k :| 0 <= k < |others| && others[k] == row;
      var before, after := others[..k], others[k + 1..];
      assert others == before + [row] + after;
      CancelElement(rows[..n], row, before, after);
      AmountOfPermutation(rows[..n], before + after, source, target);
      SumsConcat(before, after, source, target);
      SumsConcat(before + [row], after, source, target);
      assert (before + [row])[..k] == before;
    }
  }

  lemma {:induction false} SumsConcat(a: seq<Row>, b: seq<Row>, source: string, target: string)
    ensures Amount(a + b, source, target) == Amount(a, source, target) + Amount(b, source, target)
    ensures Total(a + b, source) == Total(a, source) + Total(b, source)
    decreases |b|
  {
    if b == [] {
      assert a + b == a;
    } else {
      var n := |b| - 1;
      SumsConcat(a, b[..n], source, target);
      assert (a + b)[..|a + b| - 1] == a + b[..n];
    }
  }

  /** The result depends on the amounts per pair only. */
  lemma {:induction false} LinesByAmounts(rows: seq<Row>, others: seq<Row>, source: string, targets: seq<string>)
    requires forall t :: t in targets ==> Amount(rows, source, t) == Amount(others, source, t)
    ensures Lines(rows, source, targets) == Lines(others, source, targets)
    ensures AmountOver(rows, source, targets) == AmountOver(others, source, targets)
  {
    if targets == [] {
    } else {
      assert targets[0] in targets;
      assert forall t :: t in targets[1..] ==> t in targets;
      LinesByAmounts(rows, others, source, targets[1..]);
    }
  }

  ghost predicate SameAmounts(rows: seq<Row>, others: seq<Row>, sources: seq<SourceSpec>) {
    forall s, t :: s in sources && t in s.targets ==> Amount(rows, s.source, t) == Amount(others, s.source, t)
  }

  lemma {:induction false} ResultByAmounts(rows: seq<Row>, others: seq<Row>, sources: seq<SourceSpec>)
    requires SameAmounts(rows, others, sources)
    ensures ResultOf(rows, sources) == ResultOf(others, sources)
  {
    if sources == [] {
    } else {
      assert sources[0] in sources;
      LinesByAmounts(rows, others, sources[0].source, sources[0].targets);
      assert forall s :: s in sources[1..] ==> s in sources;
      ResultByAmounts(rows, others, sources[1..]);
    }
  }

  /** A legal row of a source goes to one of that source's targets. */
  lemma RowsGoToTargets(p: Proposal, rows: seq<Row>, s: SourceSpec)
    requires ValidProposal(p) && s in p.sources
    requires forall row :: row in rows ==> LegalRow(p.sources, row)
    ensures Pairwise(s.targets)
    ensures forall row :: row in rows && row.source == s.source ==> row.target in s.targets && s.power > 0
  {
    var k :| 0 <= k < |p.sources| && p.sources[k] == s;
    assert ValidSource(p.sources[k]);
    forall row | row in rows && row.source == s.source ensures row.target in s.targets && s.power > 0 {
      var u :| u in p.sources && u.source == row.source && u.power > 0 && row.target in u.targets;
    }
  }

  /** Legal rows with the same amounts per pair are accepted alike, with the same result. */
  lemma SameAmountsSameVerdict(p: Proposal, rows: seq<Row>, others: seq<Row>)
    requires ValidProposal(p) && Accepts(p, rows)
    requires forall row :: row in others ==> LegalRow(p.sources, row)
    requires PairsDiffer(others) && SameAmounts(rows, others, p.sources)
    ensures Accepts(p, others) && ResultOf(others, p.sources) == ResultOf(rows, p.sources)
  {
    hide ValidProposal, LegalRow, TrampleAllowed;
    ResultByAmounts(rows, others, p.sources);
    forall s | s in p.sources ensures Total(others, s.source) == Required(s) {
      RowsGoToTargets(p, rows, s);
      RowsGoToTargets(p, others, s);
      TotalIsOverTargets(rows, s.source, s.targets);
      TotalIsOverTargets(others, s.source, s.targets);
      LinesByAmounts(rows, others, s.source, s.targets);
    }
  }

  /** Reordering the submitted rows changes neither the verdict nor the result. */
  lemma RowOrderIsIrrelevant(p: Proposal, rows: seq<Row>, others: seq<Row>)
    requires ValidProposal(p) && multiset(rows) == multiset(others)
    ensures Accepts(p, rows) <==> Accepts(p, others)
    ensures Accepts(p, rows) ==> ResultOf(others, p.sources) == ResultOf(rows, p.sources)
  {
    hide *;
    if Accepts(p, rows) { ReorderedIsAccepted(p, rows, others); }
    if Accepts(p, others) { ReorderedIsAccepted(p, others, rows); }
  }

  lemma ReorderedIsAccepted(p: Proposal, rows: seq<Row>, others: seq<Row>)
    requires ValidProposal(p) && Accepts(p, rows) && multiset(rows) == multiset(others)
    ensures Accepts(p, others) && ResultOf(others, p.sources) == ResultOf(rows, p.sources)
  {
    hide ValidProposal, LegalRow, TrampleAllowed;
    SameMultiset(rows, others);
    forall s, t | s in p.sources && t in s.targets ensures Amount(rows, s.source, t) == Amount(others, s.source, t) {
      AmountOfPermutation(rows, others, s.source, t);
    }
    PairsPermute(rows, others);
    SameAmountsSameVerdict(p, rows, others);
  }

  function RowKey(row: Row): Key { Tup([Str(row.source), Str(row.target)]) }

  lemma RowKeyIsPair(a: Row, b: Row)
    ensures RowKey(a) == RowKey(b) <==> a.source == b.source && a.target == b.target
  {
    if RowKey(a) == RowKey(b) {
      assert RowKey(a).parts[0] == RowKey(b).parts[0] && RowKey(a).parts[1] == RowKey(b).parts[1];
    }
  }

  lemma PairsPermute(rows: seq<Row>, others: seq<Row>)
    requires multiset(rows) == multiset(others) && PairsDiffer(rows)
    ensures PairsDiffer(others)
  {
    forall i, j | 0 <= i < j < |rows| ensures RowKey(rows[i]) != RowKey(rows[j]) { RowKeyIsPair(rows[i], rows[j]); }
    UniqueKeysPermute(RowKey, others, rows);
    forall i, j | 0 <= i < j < |others|
      ensures others[i].source != others[j].source || others[i].target != others[j].target
    {
      RowKeyIsPair(others[i], others[j]);
    }
  }

  /** The rows without those zero rows that `keep` does not name. */
  function Thinned(rows: seq<Row>, keep: Row -> bool): (r: seq<Row>)
    ensures forall row :: row in r <==> row in rows && (row.amount != 0 || keep(row))
  {
    if rows == [] then []
    else
      var n := |rows| - 1;
      Thinned(rows[..n], keep) + if rows[n].amount == 0 && !keep(rows[n]) then [] else [rows[n]]
  }

  lemma SumsOfOne(row: Row, source: string, target: string)
    ensures Amount([row], source, target) == if row.source == source && row.target == target then row.amount else 0
    ensures Total([row], source) == if row.source == source then row.amount else 0
    ensures Amount([], source, target) == 0 && Total([], source) == 0
  {
    assert [row][..0] == [];
  }

  lemma {:induction false} ThinnedKeepsSums(rows: seq<Row>, keep: Row -> bool, source: string, target: string)
    ensures Amount(Thinned(rows, keep), source, target) == Amount(rows, source, target)
    decreases |rows|
  {
    hide Amount, Total;
    if rows == [] {
    } else {
      var n := |rows| - 1;
      var front := Thinned(rows[..n], keep);
      ThinnedKeepsSums(rows[..n], keep, source, target);
      assert rows == rows[..n] + [rows[n]];
      SumsConcat(rows[..n], [rows[n]], source, target);
      SumsConcat(front, [rows[n]], source, target);
      SumsOfOne(rows[n], source, target);
      if rows[n].amount == 0 { assert front + [] == front; }
    }
  }

  lemma {:induction false} ThinnedKeepsPairs(rows: seq<Row>, keep: Row -> bool)
    requires PairsDiffer(rows)
    ensures PairsDiffer(Thinned(rows, keep))
    decreases |rows|
  {
    if rows == [] {
    } else {
      var n := |rows| - 1;
      ThinnedKeepsPairs(rows[..n], keep);
      PairsAppend(Thinned(rows[..n], keep), rows[n]);
      assert Thinned(rows[..n], keep) + [] == Thinned(rows[..n], keep);
    }
  }

  lemma PairsAppend(front: seq<Row>, last: Row)
    requires PairsDiffer(front) && forall row :: row in front ==> row.source != last.source || row.target != last.target
    ensures PairsDiffer(front + [last])
  {
    forall i | 0 <= i < |front| ensures front[i].source != last.source || front[i].target != last.target {
      assert front[i] in front;
    }
  }

  /** Dropping zero rows changes neither the verdict nor the result; they matter only in that
      they must be legal and repeat no pair. */
  lemma ZeroRowsAreIrrelevant(p: Proposal, rows: seq<Row>, keep: Row -> bool)
    requires ValidProposal(p)
    ensures Accepts(p, rows) <==>
              && (forall row :: row in rows ==> LegalRow(p.sources, row)) && PairsDiffer(rows)
              && Accepts(p, Thinned(rows, keep))
    ensures Accepts(p, rows) ==> ResultOf(Thinned(rows, keep), p.sources) == ResultOf(rows, p.sources)
  {
    hide ValidProposal, LegalRow, TrampleAllowed, Thinned, PairsDiffer;
    var thinned := Thinned(rows, keep);
    forall s, t | s in p.sources && t in s.targets ensures Amount(rows, s.source, t) == Amount(thinned, s.source, t) {
      ThinnedKeepsSums(rows, keep, s.source, t);
    }
    if Accepts(p, rows) {
      ThinnedKeepsPairs(rows, keep);
      SameAmountsSameVerdict(p, rows, thinned);
    }
    if (forall row :: row in rows ==> LegalRow(p.sources, row)) && PairsDiffer(rows) && Accepts(p, thinned) {
      SameAmountsSameVerdict(p, thinned, rows);
    }
  }

  // ----- the result as a submission -----

  lemma {:induction false} AmountsNonnegative(rows: seq<Row>, source: string, target: string)
    requires forall row :: row in rows ==> row.amount >= 0
    ensures Amount(rows, source, target) >= 0
    ensures Amount(rows, source, target) > 0 ==> exists row :: row in rows && row.source == source
                                                  && row.target == target
    decreases |rows|
  {
    if rows == [] {
    } else {
      var n := |rows| - 1;
      AmountsNonnegative(rows[..n], source, target);
      assert rows[n] in rows && forall row :: row in rows[..n] ==> row in rows;
    }
  }

  lemma RowsOfConcat(a: seq<Assignment>, b: seq<Assignment>)
    ensures RowsOf(a + b) == RowsOf(a) + RowsOf(b)
  {
  }

  lemma {:induction false} LinesAmount(rows: seq<Row>, name: string, targets: seq<string>, source: string,
                                       target: string)
    requires Pairwise(targets) && forall row :: row in rows ==> row.amount >= 0
    ensures Amount(RowsOf(Lines(rows, name, targets)), source, target) ==
            if source == name && target in targets then Amount(rows, name, target) else 0
  {
    hide Amount, Total;
    SumsOfOne(Row("", "", 0), source, target);
    if targets == [] {
      assert RowsOf([]) == [];
    } else {
      var rest := targets[1..];
      LinesAmount(rows, name, rest, source, target);
      AmountsNonnegative(rows, name, targets[0]);
      var amount := Amount(rows, name, targets[0]);
      var tail := Lines(rows, name, rest);
      if amount > 0 {
        var first := Assignment(name, targets[0], amount);
        RowsOfConcat([first], tail);
        assert RowsOf([first]) == [Row(name, targets[0], amount)];
        SumsConcat(RowsOf([first]), RowsOf(tail), source, target);
        SumsOfOne(Row(name, targets[0], amount), source, target);
      } else {
        assert [] + tail == tail;
      }
      assert targets == [targets[0]] + rest;
    }
  }

  /** Sources with distinct names and distinct targets. */
  ghost predicate ProperSources(sources: seq<SourceSpec>) {
    Pairwise(SourceNames(sources)) && forall s :: s in sources ==> Pairwise(s.targets)
  }

  lemma ProperTail(sources: seq<SourceSpec>)
    requires ProperSources(sources) && sources != []
    ensures ProperSources(sources[1..]) && Pairwise(sources[0].targets)
    ensures forall s :: s in sources[1..] ==> s.source != sources[0].source
  {
    assert SourceNames(sources)[1..] == SourceNames(sources[1..]);
    assert sources[0] in sources;
    forall s | s in sources[1..] ensures s.source != sources[0].source && s in sources {
      var i :| 0 <= i < |sources[1..]| && sources[1..][i] == s;
      assert SourceNames(sources)[1..][i] == s.source;
    }
  }

  lemma ProposalSourcesProper(p: Proposal)
    requires ValidProposal(p)
    ensures ProperSources(p.sources)
  {
    forall s | s in p.sources ensures Pairwise(s.targets) {
      var i :| 0 <= i < |p.sources| && p.sources[i] == s;
      assert ValidSource(p.sources[i]);
    }
  }

  /** The result assigns to each pair exactly what the rows did. */
  lemma {:induction false} ResultAmount(rows: seq<Row>, sources: seq<SourceSpec>, source: string, target: string)
    requires ProperSources(sources) && forall row :: row in rows ==> row.amount >= 0
    ensures Amount(RowsOf(ResultOf(rows, sources)), source, target) ==
            if exists s :: s in sources && s.source == source && target in s.targets
            then Amount(rows, source, target) else 0
  {
    hide Amount, Total, Lines, ProperSources;
    SumsOfOne(Row("", "", 0), source, target);
    if sources == [] {
      assert RowsOf([]) == [];
    } else {
      ProperTail(sources);
      var first, rest := sources[0], sources[1..];
      ResultAmount(rows, rest, source, target);
      LinesAmount(rows, first.source, first.targets, source, target);
      var a, b := Lines(rows, first.source, first.targets), ResultOf(rows, rest);
      RowsOfConcat(a, b);
      SumsConcat(RowsOf(a), RowsOf(b), source, target);
      assert sources == [first] + rest;
    }
  }

  lemma {:induction false} LinesMembers(rows: seq<Row>, name: string, targets: seq<string>)
    requires Pairwise(targets)
    ensures forall a :: a in Lines(rows, name, targets) ==>
              a.source == name && a.target in targets && a.amount > 0 && a.amount == Amount(rows, name, a.target)
    ensures PairsDiffer(RowsOf(Lines(rows, name, targets)))
  {
    hide Amount;
    LinesAre(rows, name, targets);
    if targets == [] {
    } else {
      LinesMembers(rows, name, targets[1..]);
      var tail := Lines(rows, name, targets[1..]);
      forall i | 0 <= i < |tail| ensures tail[i].target != targets[0] { assert tail[i] in tail; }
    }
  }

  lemma {:induction false} LinesAre(rows: seq<Row>, name: string, targets: seq<string>)
    ensures forall a :: a in Lines(rows, name, targets) ==>
              a.source == name && a.target in targets && a.amount > 0 && a.amount == Amount(rows, name, a.target)
  {
    hide Amount;
    if targets == [] {
    } else {
      LinesAre(rows, name, targets[1..]);
      assert targets == [targets[0]] + targets[1..];
    }
  }

  lemma {:induction false} ResultMembers(rows: seq<Row>, sources: seq<SourceSpec>)
    requires ProperSources(sources)
    ensures forall a :: a in ResultOf(rows, sources) ==>
              a.amount > 0 && a.amount == Amount(rows, a.source, a.target)
              && exists s :: s in sources && s.source == a.source && a.target in s.targets
    ensures PairsDiffer(RowsOf(ResultOf(rows, sources)))
  {
    hide Amount, Lines, ProperSources;
    if sources == [] {
    } else {
      ProperTail(sources);
      var first, rest := sources[0], sources[1..];
      LinesMembers(rows, first.source, first.targets);
      ResultMembers(rows, rest);
      var a, b := Lines(rows, first.source, first.targets), ResultOf(rows, rest);
      assert sources == [first] + rest;
      forall i, j | 0 <= i < |a| && 0 <= j < |b| ensures a[i].source != b[j].source {
        assert a[i] in a && b[j] in b;
      }
      assert first in sources;
    }
  }

  /** An accepted submission's result is itself accepted, with itself as the result. */
  lemma ResultIsCanonical(p: Proposal, rows: seq<Row>)
    requires ValidProposal(p) && Accepts(p, rows)
    ensures var r := ResultOf(rows, p.sources);
            Accepts(p, RowsOf(r)) && ResultOf(RowsOf(r), p.sources) == r
  {
    hide ValidProposal, ProperSources, Amount, TrampleAllowed;
    ProposalSourcesProper(p);
    var r := ResultOf(rows, p.sources);
    forall s, t | s in p.sources && t in s.targets
      ensures Amount(rows, s.source, t) == Amount(RowsOf(r), s.source, t)
    {
      ResultAmount(rows, p.sources, s.source, t);
    }
    ResultMembers(rows, p.sources);
    forall row | row in RowsOf(r) ensures LegalRow(p.sources, row) {
      var i :| 0 <= i < |r| && RowsOf(r)[i] == row;
      assert r[i] in r;
      ResultRowIsLegal(p, rows, r[i]);
    }
    SameAmountsSameVerdict(p, rows, RowsOf(r));
  }

  lemma ResultRowIsLegal(p: Proposal, rows: seq<Row>, a: Assignment)
    requires forall row :: row in rows ==> LegalRow(p.sources, row)
    requires a.amount > 0 && a.amount == Amount(rows, a.source, a.target)
    ensures LegalRow(p.sources, Row(a.source, a.target, a.amount))
  {
    hide Amount;
    AmountsNonnegative(rows, a.source, a.target);
    var row :| row in rows && row.source == a.source && row.target == a.target;
    assert LegalRow(p.sources, row);
  }

  lemma {:induction false} SpilledIsAmount(assignments: seq<Assignment>, attacker: string, spill: string)
    ensures Spilled(assignments, attacker, spill) == Amount(RowsOf(assignments), attacker, spill)
    decreases |assignments|
  {
    if assignments == [] {
    } else {
      var n := |assignments| - 1;
      SpilledIsAmount(assignments[..n], attacker, spill);
      assert RowsOf(assignments)[..n] == RowsOf(assignments[..n]);
    }
  }

  /** What acceptance means for the result: distinct legal pairs with positive amounts, each
      source assigning exactly its power (nothing without targets), and no trample damage
      past a blocker that lacks lethal damage. */
  lemma AcceptedResult(p: Proposal, rows: seq<Row>)
    requires ValidProposal(p) && Accepts(p, rows)
    ensures var r := ResultOf(rows, p.sources);
            && PairsDiffer(RowsOf(r))
            && (forall a :: a in r ==>
                  a.amount > 0 && exists s :: s in p.sources && s.source == a.source && a.target in s.targets)
            && (forall s :: s in p.sources ==> Total(RowsOf(r), s.source) == Required(s))
            && (forall t, b :: t in p.tramplers && b in t.blockers && Amount(RowsOf(r), t.attacker, t.spill) > 0 ==>
                  HasLethal(p, r, b))
  {
    hide ValidProposal, ProperSources, Amount, LegalRow, HasLethal;
    ProposalSourcesProper(p);
    ResultIsCanonical(p, rows);
    ResultMembers(rows, p.sources);
    var r := ResultOf(rows, p.sources);
    forall t, b | t in p.tramplers && b in t.blockers && Amount(RowsOf(r), t.attacker, t.spill) > 0
      ensures HasLethal(p, r, b)
    {
      SpilledIsAmount(r, t.attacker, t.spill);
      assert TrampleAllowed(p, r, t);
    }
  }

  // ----- some submission is always accepted -----

  /** The first blocker of a trampling source, if it has one. */
  function FirstBlocker(ts: seq<TrampleSpec>, source: string): (r: Option<string>)
    ensures r.Some? ==> exists t :: t in ts && t.attacker == source && t.blockers != []
                         && t.blockers[0].reference == r.value
    ensures r.None? ==> forall t :: t in ts && t.attacker == source ==> t.blockers == []
  {
    if ts == [] then None
    else if ts[0].attacker == source && ts[0].blockers != [] then Some(ts[0].blockers[0].reference)
    else FirstBlocker(ts[1..], source)
  }

  /** Where the whole damage of a source can go without spilling. */
  function Choice(p: Proposal, s: SourceSpec): string
    requires s.targets != []
  {
    var blocker := FirstBlocker(p.tramplers, s.source);
    if blocker.Some? then blocker.value else s.targets[0]
  }

  function Concentrated(p: Proposal, sources: seq<SourceSpec>): seq<Assignment> {
    if sources == [] then []
    else
      var s := sources[0];
      (if s.power > 0 && s.targets != [] then [Assignment(s.source, Choice(p, s), s.power)] else [])
      + Concentrated(p, sources[1..])
  }

  /** A proposal names each trampling source once, and its spec fits the source. */
  lemma OnlyTrampler(p: Proposal, s: SourceSpec, t: TrampleSpec)
    requires ValidProposal(p) && s in p.sources && t in p.tramplers && t.attacker == s.source
    ensures TrampleMatches(t, s) && forall u :: u in p.tramplers && u.attacker == s.source ==> u == t
  {
    hide TrampleMatches, ValidSource, SourceNames, LogicalNames, BlockerNames;
    var names := TramplerNames(p.tramplers);
    var i :| 0 <= i < |p.tramplers| && p.tramplers[i] == t;
    forall u | u in p.tramplers && u.attacker == s.source ensures u == t {
      var j :| 0 <= j < |p.tramplers| && p.tramplers[j] == u;
      assert names[i] == names[j];
    }
  }

  lemma ChoiceIsTarget(p: Proposal, s: SourceSpec)
    requires ValidProposal(p) && s in p.sources && s.targets != []
    ensures Choice(p, s) in s.targets
    ensures forall t :: t in p.tramplers && t.attacker == s.source && Choice(p, s) == t.spill ==> t.blockers == []
  {
    hide ValidProposal;
    var blocker := FirstBlocker(p.tramplers, s.source);
    if blocker.Some? {
      var t :| t in p.tramplers && t.attacker == s.source && t.blockers != []
        && t.blockers[0].reference == blocker.value;
      OnlyTrampler(p, s, t);
      assert BlockerNames(t.blockers)[0] == blocker.value;
      assert blocker.value in Except(s.targets, t.spill);
    }
  }

  lemma {:induction false} ConcentratedSums(p: Proposal, sources: seq<SourceSpec>, s: SourceSpec, target: string)
    requires ProperSources(sources)
    ensures s in sources ==>
              Total(RowsOf(Concentrated(p, sources)), s.source) == Required(s)
              && Amount(RowsOf(Concentrated(p, sources)), s.source, target) ==
                 if s.targets != [] && target == Choice(p, s) then s.power else 0
    ensures (forall u :: u in sources ==> u.source != s.source) ==>
              Total(RowsOf(Concentrated(p, sources)), s.source) == 0
              && Amount(RowsOf(Concentrated(p, sources)), s.source, target) == 0
  {
    hide Amount, Total, Choice, ProperSources;
    SumsOfOne(Row("", "", 0), s.source, target);
    if sources == [] {
      assert RowsOf([]) == [];
    } else {
      ProperTail(sources);
      var first, rest := sources[0], sources[1..];
      assert sources == [first] + rest;
      ConcentratedSums(p, rest, s, target);
      var tail := Concentrated(p, rest);
      if first.power > 0 && first.targets != [] {
        var a := Assignment(first.source, Choice(p, first), first.power);
        RowsOfConcat([a], tail);
        assert RowsOf([a]) == [Row(a.source, a.target, a.amount)];
        SumsConcat(RowsOf([a]), RowsOf(tail), s.source, target);
        SumsOfOne(Row(a.source, a.target, a.amount), s.source, target);
      } else {
        assert [] + tail == tail;
      }
    }
  }

  lemma {:induction false} ConcentratedMembers(p: Proposal, sources: seq<SourceSpec>)
    requires ProperSources(sources)
    ensures forall a :: a in Concentrated(p, sources) ==>
              exists s :: s in sources && s.power > 0 && s.targets != []
                && a == Assignment(s.source, Choice(p, s), s.power)
    ensures PairsDiffer(RowsOf(Concentrated(p, sources)))
  {
    hide Choice, ProperSources;
    if sources == [] {
    } else {
      ProperTail(sources);
      var first, rest := sources[0], sources[1..];
      assert sources == [first] + rest && first in sources;
      ConcentratedMembers(p, rest);
      var tail := Concentrated(p, rest);
      forall i | 0 <= i < |tail| ensures tail[i].source != first.source { assert tail[i] in tail; }
    }
  }

  /** No deadlock: concentrating each source's damage where it spills nothing is accepted. */
  lemma SomeSubmissionIsAccepted(p: Proposal)
    requires ValidProposal(p)
    ensures Accepts(p, RowsOf(Concentrated(p, p.sources)))
  {
    hide Choice, ProperSources, Amount, Total, HasLethal, Spilled, Concentrated, ValidProposal;
    ProposalSourcesProper(p);
    var all := Concentrated(p, p.sources);
    var rows := RowsOf(all);
    ConcentratedMembers(p, p.sources);
    forall row | row in rows ensures LegalRow(p.sources, row) {
      var i :| 0 <= i < |all| && rows[i] == row;
      assert all[i] in all;
      var s :| s in p.sources && s.power > 0 && s.targets != []
        && all[i] == Assignment(s.source, Choice(p, s), s.power);
      ChoiceIsTarget(p, s);
    }
    forall s | s in p.sources ensures Total(rows, s.source) == Required(s) {
      ConcentratedSums(p, p.sources, s, "");
    }
    forall t | t in p.tramplers ensures TrampleAllowed(p, ResultOf(rows, p.sources), t) {
      ConcentratedSpillsNothing(p, t);
    }
  }

  lemma ConcentratedSpillsNothing(p: Proposal, t: TrampleSpec)
    requires ValidProposal(p) && t in p.tramplers
    ensures TrampleAllowed(p, ResultOf(RowsOf(Concentrated(p, p.sources)), p.sources), t)
  {
    hide Choice, ProperSources, Amount, HasLethal, Spilled, Concentrated;
    var rows := RowsOf(Concentrated(p, p.sources));
    ProposalSourcesProper(p);
    var s := TramplerSource(p, t);
    ConcentratedSums(p, p.sources, s, t.spill);
    ResultAmount(rows, p.sources, t.attacker, t.spill);
    SpilledIsAmount(ResultOf(rows, p.sources), t.attacker, t.spill);
    if s.targets != [] { ChoiceIsTarget(p, s); }
  }

  lemma TramplerSource(p: Proposal, t: TrampleSpec) returns (s: SourceSpec)
    requires ValidProposal(p) && t in p.tramplers
    ensures s in p.sources && s.source == t.attacker
  {
    assert t.attacker in SourceNames(p.sources);
    var i :| 0 <= i < |p.sources| && SourceNames(p.sources)[i] == t.attacker;
    s := p.sources[i];
  }

  // ----- forced assignments -----

  function ForcedLines(sources: seq<SourceSpec>): seq<Assignment> {
    if sources == [] then []
    else
      var s := sources[0];
      (if s.power > 0 && s.targets != [] then [Assignment(s.source, s.targets[0], s.power)] else [])
      + ForcedLines(sources[1..])
  }

  /** The forced assignments, unless some source has a division to make. */
  function AutomaticAssignments(p: Proposal): Option<seq<Assignment>> {
    if exists s :: s in p.sources && |s.targets| > 1 then None else Some(ForcedLines(p.sources))
  }

  lemma {:induction false} ForcedIsConcentrated(p: Proposal, sources: seq<SourceSpec>)
    requires ValidProposal(p) && forall s :: s in sources ==> s in p.sources && |s.targets| <= 1
    ensures ForcedLines(sources) == Concentrated(p, sources)
  {
    hide ValidProposal, Choice;
    if sources == [] {
    } else {
      assert sources[0] in sources;
      if sources[0].targets != [] { ChoiceIsTarget(p, sources[0]); }
      ForcedIsConcentrated(p, sources[1..]);
    }
  }

  lemma {:induction false} ForcedResult(p: Proposal, rows: seq<Row>, sources: seq<SourceSpec>)
    requires ValidProposal(p) && Accepts(p, rows) && forall s :: s in sources ==> s in p.sources && |s.targets| <= 1
    ensures ResultOf(rows, sources) == ForcedLines(sources)
  {
    hide ValidProposal, Accepts, Amount, Total;
    if sources == [] {
    } else {
      var s := sources[0];
      assert s in sources;
      OnlyTargetGetsAll(p, rows, s);
      LinesOfFew(rows, s.source, s.targets);
      ForcedResult(p, rows, sources[1..]);
    }
  }

  lemma LinesOfFew(rows: seq<Row>, source: string, targets: seq<string>)
    requires |targets| <= 1
    ensures Lines(rows, source, targets) ==
            if targets != [] && Amount(rows, source, targets[0]) > 0
            then [Assignment(source, targets[0], Amount(rows, source, targets[0]))] else []
  {
    hide Amount;
    if targets != [] { assert targets[1..] == []; }
  }

  lemma OnlyTargetGetsAll(p: Proposal, rows: seq<Row>, s: SourceSpec)
    requires ValidProposal(p) && Accepts(p, rows) && s in p.sources && |s.targets| <= 1
    ensures s.targets != [] ==> Amount(rows, s.source, s.targets[0]) == s.power
  {
    hide ValidProposal, LegalRow, TrampleAllowed, Amount, Total;
    if s.targets != [] {
      RowsGoToTargets(p, rows, s);
      TotalIsOverTargets(rows, s.source, s.targets);
      assert s.targets[1..] == [];
      assert AmountOver(rows, s.source, s.targets[1..]) == 0;
      assert Required(s) == s.power;
      assert Total(rows, s.source) == Required(s);
    }
  }

  /** Assignments are made automatically exactly when no source has two targets; then they are
      accepted as they are, and nothing else is. */
  lemma AutomaticIsTheOnlyResult(p: Proposal)
    requires ValidProposal(p)
    ensures AutomaticAssignments(p).Some? <==> forall s :: s in p.sources ==> |s.targets| <= 1
    ensures AutomaticAssignments(p).Some? ==>
              var forced := AutomaticAssignments(p).value;
              && Accepts(p, RowsOf(forced)) && ResultOf(RowsOf(forced), p.sources) == forced
              && forall rows :: Accepts(p, rows) ==> ResultOf(rows, p.sources) == forced
  {
    hide ValidProposal, Accepts;
    if AutomaticAssignments(p).Some? {
      ForcedIsConcentrated(p, p.sources);
      SomeSubmissionIsAccepted(p);
      forall rows | Accepts(p, rows) ensures ResultOf(rows, p.sources) == ForcedLines(p.sources) {
        ForcedResult(p, rows, p.sources);
      }
    }
  }

  // ----- the validator -----

  function FindSource(sources: seq<SourceSpec>, name: string): (r: Option<SourceSpec>)
    ensures r.Some? ==> r.value in sources && r.value.source == name
    ensures r.None? ==> forall s :: s in sources ==> s.source != name
  {
    if sources == [] then None
    else if sources[0].source == name then Some(sources[0])
    else FindSource(sources[1..], name)
  }

  lemma LegalRowIs(p: Proposal, row: Row)
    requires ValidProposal(p)
    ensures LegalRow(p.sources, row) <==>
            var s := FindSource(p.sources, row.source);
            s.Some? && s.value.power > 0 && row.target in s.value.targets && row.amount >= 0
  {
    var s := FindSource(p.sources, row.source);
    if LegalRow(p.sources, row) {
      var u :| u in p.sources && u.source == row.source && u.power > 0 && row.target in u.targets;
    }
  }

  type Pair = (string, string)

  ghost predicate HasPair(rows: seq<Row>, pair: Pair) {
    exists i :: 0 <= i < |rows| && rows[i].source == pair.0 && rows[i].target == pair.1
  }

  /** The dictionaries built from the first rows. */
  ghost predicate Tallied(rows: seq<Row>, parsed: map<Pair, int>, totals: map<string, int>) {
    && PairsDiffer(rows)
    && (forall pair: Pair :: pair in parsed <==> HasPair(rows, pair))
    && (forall pair: Pair :: Amount(rows, pair.0, pair.1) == if pair in parsed then parsed[pair] else 0)
    && forall s :: Total(rows, s) == if s in totals then totals[s] else 0
  }

  lemma TallyNothing()
    ensures Tallied([], map[], map[])
  {
  }

  lemma TallyRow(rows: seq<Row>, i: nat, parsed: map<Pair, int>, totals: map<string, int>)
    requires i < |rows| && Tallied(rows[..i], parsed, totals)
    ensures var row := rows[i];
            var pair := (row.source, row.target);
            var total := (if row.source in totals then totals[row.source] else 0) + row.amount;
            if pair in parsed then !PairsDiffer(rows)
            else Tallied(rows[..i + 1], parsed[pair := row.amount], totals[row.source := total])
  {
    var row := rows[i];
    var pair := (row.source, row.target);
    if pair in parsed {
      assert HasPair(rows[..i], pair);
      var k :| 0 <= k < i && rows[..i][k].source == row.source && rows[..i][k].target == row.target;
      assert rows[k] == rows[..i][k];
    } else {
      var more := parsed[pair := row.amount];
      assert rows[..i + 1] == rows[..i] + [row];
      assert rows[..i + 1][..i] == rows[..i];
      forall other: Pair ensures other in more <==> HasPair(rows[..i + 1], other) {
        HasPairAppend(rows, i, other);
      }
      assert PairsDiffer(rows[..i + 1]) by {
        forall j, k | 0 <= j < k < i + 1
          ensures rows[j].source != rows[k].source || rows[j].target != rows[k].target
        {
          assert rows[j] == rows[..i][j];
          if k < i { assert rows[k] == rows[..i][k]; }
        }
      }
    }
  }

  lemma HasPairAppend(rows: seq<Row>, i: nat, pair: Pair)
    requires i < |rows|
    ensures HasPair(rows[..i + 1], pair) <==> HasPair(rows[..i], pair) || (rows[i].source, rows[i].target) == pair
  {
    if HasPair(rows[..i], pair) {
      var k :| 0 <= k < i && rows[..i][k].source == pair.0 && rows[..i][k].target == pair.1;
      assert rows[..i + 1][k] == rows[..i][k];
    }
    if (rows[i].source, rows[i].target) == pair { assert rows[..i + 1][i] == rows[i]; }
    if HasPair(rows[..i + 1], pair) {
      var k :| 0 <= k < i + 1 && rows[..i + 1][k].source == pair.0 && rows[..i + 1][k].target == pair.1;
      if k < i { assert rows[..i][k] == rows[..i + 1][k]; } else { assert rows[..i + 1][i] == rows[i]; }
    }
  }

  lemma {:induction false} LinesStep(rows: seq<Row>, source: string, targets: seq<string>, i: nat)
    requires i < |targets|
    ensures Lines(rows, source, targets[..i + 1]) ==
            Lines(rows, source, targets[..i])
            + if Amount(rows, source, targets[i]) > 0
              then [Assignment(source, targets[i], Amount(rows, source, targets[i]))] else []
  {
    hide Amount;
    if i > 0 {
      LinesStep(rows, source, targets[1..], i - 1);
      assert targets[..i + 1][1..] == targets[1..][..i] && targets[..i][1..] == targets[1..][..i - 1];
    } else {
      assert targets[..1][1..] == [] && targets[..0] == [];
    }
  }

  lemma {:induction false} ResultStep(rows: seq<Row>, sources: seq<SourceSpec>, i: nat)
    requires i < |sources|
    ensures ResultOf(rows, sources[..i + 1]) ==
            ResultOf(rows, sources[..i]) + Lines(rows, sources[i].source, sources[i].targets)
  {
    hide Lines;
    if i > 0 {
      ResultStep(rows, sources[1..], i - 1);
      assert sources[..i + 1][1..] == sources[1..][..i] && sources[..i][1..] == sources[1..][..i - 1];
    } else {
      assert sources[..1][1..] == [] && sources[..0] == [];
    }
  }

  lemma TallyLooksUp(rows: seq<Row>, parsed: map<Pair, int>, totals: map<string, int>, s: string, t: string)
    requires Tallied(rows, parsed, totals)
    ensures Amount(rows, s, t) == if (s, t) in parsed then parsed[(s, t)] else 0
    ensures Total(rows, s) == if s in totals then totals[s] else 0
    ensures PairsDiffer(rows)
  {
    var pair: Pair := (s, t);
    assert Amount(rows, pair.0, pair.1) == if pair in parsed then parsed[pair] else 0;
  }

  /** Parses the rows into per-pair and per-source dictionaries; none when a row is illegal or
      repeats a pair. */
  method Parse(p: Proposal, rows: seq<Row>) returns (ok: bool, parsed: map<Pair, int>, totals: map<string, int>)
    requires ValidProposal(p)
    ensures ok ==> Tallied(rows, parsed, totals) && forall k :: 0 <= k < |rows| ==> LegalRow(p.sources, rows[k])
    ensures !ok ==> !Accepts(p, rows)
  {
    hide ValidProposal, TrampleAllowed, Tallied, LegalRow, Total, Required;
    parsed, totals := map[], map[];
    TallyNothing();
    assert rows[..0] == [];
    var i := 0;
    while i < |rows|
      invariant 0 <= i <= |rows|
      invariant Tallied(rows[..i], parsed, totals)
      invariant forall k :: 0 <= k < i ==> LegalRow(p.sources, rows[k])
    {
      var row := rows[i];
      var source := FindSource(p.sources, row.source);
      LegalRowIs(p, row);
      if source.None? || source.value.power == 0 || row.target !in source.value.targets || row.amount < 0 {
        return false, parsed, totals;
      }
      var pair := (row.source, row.target);
      TallyRow(rows, i, parsed, totals);
      if pair in parsed {
        return false, parsed, totals;
      }
      parsed := parsed[pair := row.amount];
      totals := totals[row.source := (if row.source in totals then totals[row.source] else 0) + row.amount];
      i := i + 1;
    }
    assert rows[..i] == rows;
    return true, parsed, totals;
  }

  /** The positive parsed amounts in source order, then target order. */
  method Collect(p: Proposal, ghost rows: seq<Row>, parsed: map<Pair, int>, ghost totals: map<string, int>)
    returns (assignments: seq<Assignment>)
    requires Tallied(rows, parsed, totals)
    ensures assignments == ResultOf(rows, p.sources)
  {
    assignments := [];
    var i := 0;
    assert p.sources[..0] == [];
    while i < |p.sources|
      invariant 0 <= i <= |p.sources|
      invariant assignments == ResultOf(rows, p.sources[..i])
    {
      var s := p.sources[i];
      var j := 0;
      assert s.targets[..0] == [];
      ghost var before := assignments;
      while j < |s.targets|
        invariant 0 <= j <= |s.targets|
        invariant assignments == before + Lines(rows, s.source, s.targets[..j])
      {
        var pair := (s.source, s.targets[j]);
        TallyLooksUp(rows, parsed, totals, s.source, s.targets[j]);
        LinesStep(rows, s.source, s.targets, j);
        if pair in parsed && parsed[pair] > 0 {
          assignments := assignments + [Assignment(s.source, s.targets[j], parsed[pair])];
        }
        j := j + 1;
      }
      assert s.targets[..j] == s.targets;
      ResultStep(rows, p.sources, i);
      i := i + 1;
    }
    assert p.sources[..i] == p.sources;
  }

  /** Validates a submission: none when it is rejected, else its canonical assignments. */
  method Validate(p: Proposal, rows: seq<Row>) returns (r: Option<seq<Assignment>>)
    requires ValidProposal(p)
    ensures r == if Accepts(p, rows) then Some(ResultOf(rows, p.sources)) else None
  {
    var ok, parsed, totals := Parse(p, rows);
    if !ok { return None; }
    TallyLooksUp(rows, parsed, totals, "", "");
    var i := 0;
    while i < |p.sources|
      invariant 0 <= i <= |p.sources|
      invariant forall k :: 0 <= k < i ==> Total(rows, p.sources[k].source) == Required(p.sources[k])
    {
      var s := p.sources[i];
      TallyLooksUp(rows, parsed, totals, s.source, "");
      if (if s.source in totals then totals[s.source] else 0) != Required(s) { return None; }
      i := i + 1;
    }
    var assignments := Collect(p, rows, parsed, totals);
    i := 0;
    while i < |p.tramplers|
      invariant 0 <= i <= |p.tramplers|
      invariant forall k :: 0 <= k < i ==> TrampleAllowed(p, assignments, p.tramplers[k])
    {
      if !TrampleAllowed(p, assignments, p.tramplers[i]) { return None; }
      i := i + 1;
    }
    return Some(assignments);
  }
}

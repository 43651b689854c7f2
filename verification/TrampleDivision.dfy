/** What trample lets through (CR 702.19b, CR 702.2c), over the rows of a submission: how much
    each blocker must be dealt before anything spills, and how much can spill. */
module TrampleDivision {
  import opened Orders
  import opened DamageAssignment

  // ----- lethal damage over rows -----

  /** What the attacking sources assign to a target between them. */
  function FromAttackers(rows: seq<Row>, sources: seq<SourceSpec>, attacking: set<string>, target: string): int {
    if sources == [] then 0
    else
      (if sources[0].source in attacking then Amount(rows, sources[0].source, target) else 0)
      + FromAttackers(rows, sources[1..], attacking, target)
  }

  /** Some point of deathtouch damage goes to the target. */
  predicate DeathtouchRow(p: Proposal, rows: seq<Row>, target: string) {
    exists row :: row in rows && row.source in p.deathtouch && row.target == target && row.amount > 0
  }

  /** What spilling asks of one blocker. */
  predicate LethalRows(p: Proposal, rows: seq<Row>, b: Blocker) {
    || DeathtouchRow(p, rows, b.reference)
    || b.state.marked + FromAttackers(rows, p.sources, p.attacking, b.reference) >= b.state.toughness
  }

  /** No pair is repeated, no amount is negative, and each row is from a source that deals
      damage to one of its targets. */
  ghost predicate LegalRows(p: Proposal, rows: seq<Row>) {
    && (forall i, j :: 0 <= i < j < |rows| ==> (rows[i].source, rows[i].target) != (rows[j].source, rows[j].target))
    && forall row :: row in rows ==>
         && row.amount >= 0
         && exists s :: s in p.sources && s.source == row.source && s.power > 0 && row.target in s.targets
  }

  ghost predicate Complete(p: Proposal, rows: seq<Row>) {
    forall s :: s in p.sources ==> Total(rows, s.source) == if s.targets == [] then 0 else s.power
  }

  lemma {:induction false} PositiveRow(rows: seq<Row>, source: string, target: string)
    requires forall row :: row in rows ==> row.amount >= 0
    ensures Amount(rows, source, target) >= 0
    ensures Amount(rows, source, target) > 0 <==>
            exists row :: row in rows && row.source == source && row.target == target && row.amount > 0
    decreases |rows|
  {
    if rows == [] {
    } else {
      var n := |rows| - 1;
      PositiveRow(rows[..n], source, target);
      assert rows == rows[..n] + [rows[n]];
    }
  }

  lemma {:induction false} OneMoreRow(rows: seq<Row>, row: Row, sources: seq<SourceSpec>, attacking: set<string>,
                                      target: string)
    requires Pairwise(SourceNames(sources))
    ensures FromAttackers(rows + [row], sources, attacking, target) ==
            FromAttackers(rows, sources, attacking, target)
            + if row.source in SourceNames(sources) && row.source in attacking && row.target == target then row.amount
              else 0
  {
    hide Amount;
    if sources == [] {
    } else {
      var names := SourceNames(sources);
      assert names[1..] == SourceNames(sources[1..]) && names == [names[0]] + names[1..];
      assert names[0] !in names[1..] by {
        forall i | 0 <= i < |names[1..]| ensures names[1..][i] != names[0] { assert names[0] != names[i + 1]; }
      }
      PairwiseTail(names);
      OneMoreRow(rows, row, sources[1..], attacking, target);
      SumsConcat(rows, [row], sources[0].source, target);
      SumsOfOne(row, sources[0].source, target);
    }
  }

  lemma PairwiseTail(names: seq<string>)
    requires Pairwise(names) && names != []
    ensures Pairwise(names[1..])
  {
    forall i, j | 0 <= i < j < |names[1..]| ensures names[1..][i] != names[1..][j] {
      assert names[i + 1] != names[j + 1];
    }
  }

  lemma {:induction false} NoRowsNothing(sources: seq<SourceSpec>, attacking: set<string>, target: string)
    ensures FromAttackers([], sources, attacking, target) == 0
  {
    if sources == [] {
    } else {
      NoRowsNothing(sources[1..], attacking, target);
    }
  }

  /** What is assigned to a blocker adds up over the attackers. */
  lemma {:induction false} AssignedAddsUp(assignments: seq<Assignment>, sources: seq<SourceSpec>,
                                          attacking: set<string>, target: string)
    requires Pairwise(SourceNames(sources))
    requires forall a :: a in assignments ==> a.source in SourceNames(sources)
    ensures AssignedTo(assignments, attacking, target) ==
            FromAttackers(RowsOf(assignments), sources, attacking, target)
    decreases |assignments|
  {
    hide FromAttackers;
    if assignments == [] {
      NoRowsNothing(sources, attacking, target);
      assert RowsOf([]) == [];
    } else {
      var n := |assignments| - 1;
      var last := assignments[n];
      assert assignments == assignments[..n] + [last];
      AssignedAddsUp(assignments[..n], sources, attacking, target);
      OneMoreRow(RowsOf(assignments[..n]), Row(last.source, last.target, last.amount), sources, attacking, target);
      assert RowsOf(assignments) == RowsOf(assignments[..n]) + [Row(last.source, last.target, last.amount)];
    }
  }

  lemma {:induction false} FromSameAmounts(rows: seq<Row>, others: seq<Row>, sources: seq<SourceSpec>,
                                           attacking: set<string>, target: string)
    requires forall s :: s in sources ==> Amount(rows, s.source, target) == Amount(others, s.source, target)
    ensures FromAttackers(rows, sources, attacking, target) == FromAttackers(others, sources, attacking, target)
  {
    if sources == [] {
    } else {
      assert sources[0] in sources && forall s :: s in sources[1..] ==> s in sources;
      FromSameAmounts(rows, others, sources[1..], attacking, target);
    }
  }

  lemma LegalRowsFacts(p: Proposal, rows: seq<Row>)
    requires ValidProposal(p) && LegalRows(p, rows)
    ensures ProperSources(p.sources) && Pairwise(SourceNames(p.sources))
    ensures forall row :: row in rows ==> row.amount >= 0
    ensures p.deathtouch <= p.attacking
  {
    ProposalSourcesProper(p);
  }

  /** The result assigns what the rows assign, for every pair. */
  lemma ResultKeepsAmounts(p: Proposal, rows: seq<Row>, source: string, target: string)
    requires ValidProposal(p) && LegalRows(p, rows)
    ensures Amount(RowsOf(ResultOf(rows, p.sources)), source, target) == Amount(rows, source, target)
  {
    hide ValidProposal, Amount, ProperSources;
    LegalRowsFacts(p, rows);
    ResultAmount(rows, p.sources, source, target);
    PositiveRow(rows, source, target);
    if row :| row in rows && row.source == source && row.target == target && row.amount > 0 {
      assert LegalRow(p.sources, row);
    }
  }

  lemma ResultSources(p: Proposal, rows: seq<Row>)
    requires ValidProposal(p) && LegalRows(p, rows)
    ensures forall a :: a in ResultOf(rows, p.sources) ==> a.source in SourceNames(p.sources) && a.amount > 0
  {
    hide ValidProposal, Amount, ProperSources;
    LegalRowsFacts(p, rows);
    ResultMembers(rows, p.sources);
    forall a | a in ResultOf(rows, p.sources) ensures a.source in SourceNames(p.sources) {
      var s :| s in p.sources && s.source == a.source && a.target in s.targets;
      var i :| 0 <= i < |p.sources| && p.sources[i] == s;
      assert SourceNames(p.sources)[i] == a.source;
    }
  }

  lemma DeathtouchInRows(p: Proposal, rows: seq<Row>, target: string)
    requires ValidProposal(p) && LegalRows(p, rows)
    ensures DeathtouchRow(p, rows, target) <==>
            exists a :: a in ResultOf(rows, p.sources) && a.target == target && a.source in p.attacking
              && a.amount > 0 && a.source in p.deathtouch
  {
    hide ValidProposal, Amount, ProperSources, ResultOf, LegalRows;
    LegalRowsFacts(p, rows);
    var r := ResultOf(rows, p.sources);
    forall source ensures Amount(RowsOf(r), source, target) == Amount(rows, source, target) {
      ResultKeepsAmounts(p, rows, source, target);
    }
    if row :| row in rows && row.source in p.deathtouch && row.target == target && row.amount > 0 {
      PositiveRow(rows, row.source, target);
      PositiveRow(RowsOf(r), row.source, target);
      var x :| x in RowsOf(r) && x.source == row.source && x.target == target && x.amount > 0;
      var i :| 0 <= i < |RowsOf(r)| && RowsOf(r)[i] == x;
      assert r[i] in r;
    }
    if a :| a in r && a.target == target && a.source in p.attacking && a.amount > 0 && a.source in p.deathtouch {
      var i :| 0 <= i < |r| && r[i] == a;
      assert RowsOf(r)[i] in RowsOf(r);
      PositiveRow(RowsOf(r), a.source, target);
      PositiveRow(rows, a.source, target);
    }
  }

  lemma LethalIff(p: Proposal, rows: seq<Row>, b: Blocker)
    requires ValidProposal(p) && LegalRows(p, rows)
    ensures HasLethal(p, ResultOf(rows, p.sources), b) <==> LethalRows(p, rows, b)
  {
    hide ValidProposal, Amount, ProperSources, ResultOf, FromAttackers, LegalRows;
    LegalRowsFacts(p, rows);
    ResultSources(p, rows);
    var r := ResultOf(rows, p.sources);
    DeathtouchInRows(p, rows, b.reference);
    AssignedAddsUp(r, p.sources, p.attacking, b.reference);
    forall s | s in p.sources
      ensures Amount(RowsOf(r), s.source, b.reference) == Amount(rows, s.source, b.reference)
    {
      ResultKeepsAmounts(p, rows, s.source, b.reference);
    }
    FromSameAmounts(RowsOf(r), rows, p.sources, p.attacking, b.reference);
  }

  lemma LegalRowsIs(p: Proposal, rows: seq<Row>)
    ensures LegalRows(p, rows) <==> PairsDiffer(rows) && forall row :: row in rows ==> LegalRow(p.sources, row)
  {
  }

  lemma CompleteIs(p: Proposal, rows: seq<Row>)
    ensures Complete(p, rows) <==> forall s :: s in p.sources ==> Total(rows, s.source) == Required(s)
  {
    hide Total;
  }

  /** A submission is accepted exactly when its rows are legal and repeat no pair, every source
      with targets assigns its power, and wherever a trampling source spills each of its blockers
      is dealt deathtouch damage or, with its marked damage and what all attackers assign to it
      between them, its toughness. */
  lemma AcceptedIff(p: Proposal, rows: seq<Row>)
    requires ValidProposal(p)
    ensures Accepts(p, rows) <==>
            && LegalRows(p, rows) && Complete(p, rows)
            && forall t, b :: t in p.tramplers && b in t.blockers && Amount(rows, t.attacker, t.spill) > 0 ==>
                 LethalRows(p, rows, b)
  {
    hide ValidProposal, Amount, LethalRows, HasLethal, ResultOf, Total, LegalRow, LegalRows, PairsDiffer, Complete,
         Required, Spilled;
    LegalRowsIs(p, rows);
    CompleteIs(p, rows);
    if LegalRows(p, rows) {
      var r := ResultOf(rows, p.sources);
      forall t | t in p.tramplers
        ensures TrampleAllowed(p, r, t) <==>
                (Amount(rows, t.attacker, t.spill) > 0 ==> forall b :: b in t.blockers ==> LethalRows(p, rows, b))
      {
        SpilledIsAmount(r, t.attacker, t.spill);
        ResultKeepsAmounts(p, rows, t.attacker, t.spill);
        forall b | b in t.blockers ensures HasLethal(p, r, b) <==> LethalRows(p, rows, b) {
          LethalIff(p, rows, b);
        }
      }
      assert Accepts(p, rows) <==>
             Complete(p, rows) && forall t :: t in p.tramplers ==> TrampleAllowed(p, r, t);
    }
  }

  // ----- a lone attacker -----

  /** What one attacker must assign to a blocker before it spills. */
  function Needs(b: Blocker, deathtouch: bool): nat {
    if b.state.marked >= b.state.toughness then 0
    else if deathtouch then 1
    else b.state.toughness - b.state.marked
  }

  function Needed(blockers: seq<Blocker>, deathtouch: bool): nat {
    if blockers == [] then 0 else Needs(blockers[0], deathtouch) + Needed(blockers[1..], deathtouch)
  }

  lemma {:induction false} FromOneAttacker(rows: seq<Row>, sources: seq<SourceSpec>, attacker: string, target: string)
    requires Pairwise(SourceNames(sources))
    ensures FromAttackers(rows, sources, {attacker}, target) ==
            if attacker in SourceNames(sources) then Amount(rows, attacker, target) else 0
  {
    hide Amount;
    if sources == [] {
    } else {
      var names := SourceNames(sources);
      assert names[1..] == SourceNames(sources[1..]) && names == [names[0]] + names[1..];
      assert names[0] !in names[1..] by {
        forall i | 0 <= i < |names[1..]| ensures names[1..][i] != names[0] { assert names[0] != names[i + 1]; }
      }
      PairwiseTail(names);
      FromOneAttacker(rows, sources[1..], attacker, target);
    }
  }

  lemma OnlyOneTramples(p: Proposal, t: TrampleSpec, u: TrampleSpec)
    requires ValidProposal(p) && p.attacking == {t.attacker} && t in p.tramplers && u in p.tramplers
    ensures u == t
  {
    hide ValidSource, TrampleMatches;
    var s := TramplerSource(p, t);
    OnlyTrampler(p, s, t);
  }

  /** For a lone trampling attacker: it may spill exactly when every blocker is assigned what its
      toughness lacks beyond its marked damage, or one point if that is more and the attacker
      has deathtouch. */
  lemma LoneTrampler(p: Proposal, rows: seq<Row>, t: TrampleSpec)
    requires ValidProposal(p) && t in p.tramplers && p.attacking == {t.attacker}
    ensures Accepts(p, rows) <==>
            && LegalRows(p, rows) && Complete(p, rows)
            && (Amount(rows, t.attacker, t.spill) > 0 ==>
                  forall b :: b in t.blockers ==>
                    Amount(rows, t.attacker, b.reference) >= Needs(b, t.attacker in p.deathtouch))
  {
    hide ValidProposal, Amount, FromAttackers, Total, Accepts, LethalRows;
    AcceptedIff(p, rows);
    forall u | u in p.tramplers ensures u == t { OnlyOneTramples(p, t, u); }
    if LegalRows(p, rows) {
      forall b ensures LethalRows(p, rows, b) <==>
                       Amount(rows, t.attacker, b.reference) >= Needs(b, t.attacker in p.deathtouch) {
        LoneLethal(p, rows, t, b);
      }
    }
  }

  lemma LoneLethal(p: Proposal, rows: seq<Row>, t: TrampleSpec, b: Blocker)
    requires ValidProposal(p) && t in p.tramplers && p.attacking == {t.attacker} && LegalRows(p, rows)
    ensures LethalRows(p, rows, b) <==>
            Amount(rows, t.attacker, b.reference) >= Needs(b, t.attacker in p.deathtouch)
  {
    hide ValidProposal, Amount, FromAttackers, LegalRows, ProperSources;
    LegalRowsFacts(p, rows);
    TramplerNamed(p, t);
    FromOneAttacker(rows, p.sources, t.attacker, b.reference);
    PositiveRow(rows, t.attacker, b.reference);
  }

  lemma TramplerNamed(p: Proposal, t: TrampleSpec)
    requires ValidProposal(p) && t in p.tramplers
    ensures t.attacker in SourceNames(p.sources) && t.attacker in p.attacking
  {
  }

  // ----- how much can spill -----

  lemma {:induction false} OverExcept(rows: seq<Row>, source: string, targets: seq<string>, spill: string)
    requires Pairwise(targets)
    ensures AmountOver(rows, source, targets) ==
            AmountOver(rows, source, Except(targets, spill))
            + if spill in targets then Amount(rows, source, spill) else 0
  {
    hide Amount;
    if targets == [] {
    } else {
      PairwiseTail(targets);
      OverExcept(rows, source, targets[1..], spill);
      assert targets == [targets[0]] + targets[1..];
      assert targets[0] !in targets[1..] by {
        forall i | 0 <= i < |targets[1..]| ensures targets[1..][i] != targets[0] {
          assert targets[0] != targets[i + 1];
        }
      }
      var rest := Except(targets[1..], spill);
      assert ([] + rest) == rest && ([targets[0]] + rest)[1..] == rest;
    }
  }

  lemma {:induction false} OverBlockers(rows: seq<Row>, source: string, blockers: seq<Blocker>, deathtouch: bool)
    requires forall b :: b in blockers ==> Amount(rows, source, b.reference) >= Needs(b, deathtouch)
    ensures AmountOver(rows, source, BlockerNames(blockers)) >= Needed(blockers, deathtouch)
  {
    hide Amount, Needs;
    if blockers == [] {
    } else {
      assert blockers[0] in blockers && forall b :: b in blockers[1..] ==> b in blockers;
      OverBlockers(rows, source, blockers[1..], deathtouch);
      assert BlockerNames(blockers)[1..] == BlockerNames(blockers[1..]);
    }
  }

  /** What a lone attacker spills, its blockers' needs leave over. */
  lemma SpillIsBounded(p: Proposal, rows: seq<Row>, t: TrampleSpec, s: SourceSpec)
    requires ValidProposal(p) && t in p.tramplers && p.attacking == {t.attacker}
    requires s in p.sources && s.source == t.attacker
    requires Accepts(p, rows) && Amount(rows, t.attacker, t.spill) > 0
    ensures Amount(rows, t.attacker, t.spill) + Needed(t.blockers, t.attacker in p.deathtouch) <= s.power
  {
    hide ValidProposal, Amount, Total, LegalRow, PairsDiffer, TrampleAllowed, Needs;
    LoneTrampler(p, rows, t);
    OnlyTrampler(p, s, t);
    RowsGoToTargets(p, rows, s);
    TotalIsOverTargets(rows, s.source, s.targets);
    OverExcept(rows, s.source, s.targets, t.spill);
    OverBlockers(rows, s.source, t.blockers, t.attacker in p.deathtouch);
  }

  /** Each blocker's needs, and something extra for the first. */
  function Shares(source: string, blockers: seq<Blocker>, deathtouch: bool, extra: nat): seq<Row> {
    if blockers == [] then []
    else [Row(source, blockers[0].reference, Needs(blockers[0], deathtouch) + extra)]
         + Shares(source, blockers[1..], deathtouch, 0)
  }

  lemma {:induction false} NothingFrom(rows: seq<Row>, source: string, target: string)
    ensures (forall row :: row in rows ==> row.source != source) ==>
              Total(rows, source) == 0 && Amount(rows, source, target) == 0
    ensures (forall row :: row in rows ==> row.target != target) ==> Amount(rows, source, target) == 0
    decreases |rows|
  {
    if rows == [] {
    } else {
      var n := |rows| - 1;
      assert rows == rows[..n] + [rows[n]];
      NothingFrom(rows[..n], source, target);
    }
  }

  lemma {:induction false} SharesDiffer(source: string, blockers: seq<Blocker>, deathtouch: bool, extra: nat)
    requires Pairwise(BlockerNames(blockers))
    ensures forall row :: row in Shares(source, blockers, deathtouch, extra) ==>
              row.source == source && row.amount >= 0 && row.target in BlockerNames(blockers)
    ensures PairsDiffer(Shares(source, blockers, deathtouch, extra))
  {
    hide Needs;
    if blockers == [] {
    } else {
      var names := BlockerNames(blockers);
      NamesTail(blockers);
      SharesDiffer(source, blockers[1..], deathtouch, 0);
      var tail := Shares(source, blockers[1..], deathtouch, 0);
      forall i | 0 <= i < |tail| ensures tail[i].target != names[0] { assert tail[i] in tail; }
    }
  }

  lemma NamesTail(blockers: seq<Blocker>)
    requires Pairwise(BlockerNames(blockers)) && blockers != []
    ensures var names := BlockerNames(blockers);
            && names[1..] == BlockerNames(blockers[1..]) && names == [names[0]] + names[1..]
            && Pairwise(names[1..]) && names[0] !in names[1..]
  {
    var names := BlockerNames(blockers);
    PairwiseTail(names);
    forall i | 0 <= i < |names[1..]| ensures names[1..][i] != names[0] { assert names[0] != names[i + 1]; }
  }

  lemma {:induction false} SharesSums(source: string, blockers: seq<Blocker>, deathtouch: bool, extra: nat,
                                      target: string)
    ensures var rows := Shares(source, blockers, deathtouch, extra);
            && Total(rows, source) == Needed(blockers, deathtouch) + (if blockers == [] then 0 else extra)
            && Amount(rows, source, target) >= 0
            && forall b :: b in blockers && b.reference == target ==>
                 Amount(rows, source, target) >= Needs(b, deathtouch)
  {
    hide Amount, Total, Needs;
    SumsOfOne(Row("", "", 0), source, target);
    if blockers == [] {
    } else {
      SharesSums(source, blockers[1..], deathtouch, 0, target);
      var head := Row(source, blockers[0].reference, Needs(blockers[0], deathtouch) + extra);
      SumsConcat([head], Shares(source, blockers[1..], deathtouch, 0), source, target);
      SumsOfOne(head, source, target);
      assert blockers == [blockers[0]] + blockers[1..];
    }
  }

  /** The rows of the other sources. */
  function Without(rows: seq<Row>, source: string): (r: seq<Row>)
    ensures forall row :: row in r <==> row in rows && row.source != source
  {
    if rows == [] then []
    else
      var n := |rows| - 1;
      Without(rows[..n], source) + if rows[n].source == source then [] else [rows[n]]
  }

  lemma {:induction false} WithoutKeeps(rows: seq<Row>, name: string, source: string, target: string)
    requires source != name
    ensures Total(Without(rows, name), source) == Total(rows, source)
    ensures Amount(Without(rows, name), source, target) == Amount(rows, source, target)
    decreases |rows|
  {
    hide Amount, Total;
    if rows == [] {
    } else {
      var n := |rows| - 1;
      var front := Without(rows[..n], name);
      WithoutKeeps(rows[..n], name, source, target);
      assert rows == rows[..n] + [rows[n]];
      SumsConcat(rows[..n], [rows[n]], source, target);
      SumsConcat(front, [rows[n]], source, target);
      SumsOfOne(rows[n], source, target);
      assert front + [] == front;
    }
  }

  lemma {:induction false} WithoutDiffers(rows: seq<Row>, name: string)
    requires PairsDiffer(rows)
    ensures PairsDiffer(Without(rows, name))
    decreases |rows|
  {
    if rows == [] {
    } else {
      var n := |rows| - 1;
      var front := Without(rows[..n], name);
      WithoutDiffers(rows[..n], name);
      assert front + [] == front;
      PairsAppend(front, rows[n]);
    }
  }

  /** One source assigns its blockers' needs, spills `spilled` and gives the rest to its first
      blocker; the other sources concentrate their damage. */
  function Division(p: Proposal, t: TrampleSpec, deathtouch: bool, extra: nat, spilled: nat): seq<Row> {
    Without(RowsOf(Concentrated(p, p.sources)), t.attacker)
    + (Shares(t.attacker, t.blockers, deathtouch, extra) + [Row(t.attacker, t.spill, spilled)])
  }

  lemma DivisionSums(p: Proposal, t: TrampleSpec, deathtouch: bool, extra: nat, spilled: nat, source: string,
                     target: string)
    requires t.blockers != [] && t.spill !in BlockerNames(t.blockers) && Pairwise(BlockerNames(t.blockers))
    ensures var rows := Division(p, t, deathtouch, extra, spilled);
            && (source != t.attacker ==>
                  && Total(rows, source) == Total(RowsOf(Concentrated(p, p.sources)), source)
                  && Amount(rows, source, target) == Amount(RowsOf(Concentrated(p, p.sources)), source, target))
            && (source == t.attacker ==>
                  && Total(rows, source) == Needed(t.blockers, deathtouch) + extra + spilled
                  && Amount(rows, source, t.spill) == spilled
                  && forall b :: b in t.blockers && b.reference == target ==>
                       Amount(rows, source, target) >= Needs(b, deathtouch))
  {
    hide Amount, Total, Needs, Concentrated;
    var all := RowsOf(Concentrated(p, p.sources));
    var others, shares, last := Without(all, t.attacker), Shares(t.attacker, t.blockers, deathtouch, extra),
                                Row(t.attacker, t.spill, spilled);
    SharesDiffer(t.attacker, t.blockers, deathtouch, extra);
    forall x: string
      ensures Amount(others + (shares + [last]), source, x) ==
              Amount(others, source, x) + Amount(shares, source, x) + Amount([last], source, x)
      ensures Total(others + (shares + [last]), source) ==
              Total(others, source) + Total(shares, source) + Total([last], source)
    {
      SumsConcat(others, shares + [last], source, x);
      SumsConcat(shares, [last], source, x);
    }
    SumsOfOne(last, source, target);
    SumsOfOne(last, source, t.spill);
    if source == t.attacker {
      NothingFrom(others, source, target);
      NothingFrom(others, source, t.spill);
      NothingFrom(shares, source, t.spill);
      SharesSums(source, t.blockers, deathtouch, extra, target);
    } else {
      WithoutKeeps(all, t.attacker, source, target);
      NothingFrom(shares, source, target);
    }
  }

  lemma DivisionRows(p: Proposal, t: TrampleSpec, s: SourceSpec, deathtouch: bool, extra: nat, spilled: nat)
    requires ValidProposal(p) && t in p.tramplers && s in p.sources && s.source == t.attacker && s.power > 0
    ensures var rows := Division(p, t, deathtouch, extra, spilled);
            PairsDiffer(rows) && forall row :: row in rows ==> LegalRow(p.sources, row)
  {
    hide ValidProposal, Needs, Concentrated, Shares, Without;
    SomeSubmissionIsAccepted(p);
    OnlyTrampler(p, s, t);
    SpillApart(p, t, s);
    var all := RowsOf(Concentrated(p, p.sources));
    var others, shares, last := Without(all, t.attacker), Shares(t.attacker, t.blockers, deathtouch, extra),
                                Row(t.attacker, t.spill, spilled);
    WithoutDiffers(all, t.attacker);
    SharesDiffer(t.attacker, t.blockers, deathtouch, extra);
    PairsAppend(shares, last);
    DifferentSources(others, shares + [last], t.attacker);
    forall row | row in others + (shares + [last]) ensures LegalRow(p.sources, row) {
      if row in others {
        assert row in all;
      } else {
        assert row == last || row in shares;
      }
    }
  }

  lemma SpillApart(p: Proposal, t: TrampleSpec, s: SourceSpec)
    requires ValidProposal(p) && t in p.tramplers && s in p.sources && s.source == t.attacker
    ensures Pairwise(BlockerNames(t.blockers)) && t.spill !in BlockerNames(t.blockers)
    ensures t.spill in s.targets && forall b :: b in BlockerNames(t.blockers) ==> b in s.targets
  {
    OnlyTrampler(p, s, t);
  }

  lemma DifferentSources(others: seq<Row>, own: seq<Row>, name: string)
    requires PairsDiffer(others) && PairsDiffer(own)
    requires (forall row :: row in others ==> row.source != name) && forall row :: row in own ==> row.source == name
    ensures PairsDiffer(others + own)
  {
    forall i, j | 0 <= i < |others| && 0 <= j < |own| ensures others[i].source != own[j].source {
      assert others[i] in others && own[j] in own;
    }
  }

  /** Whoever else attacks, a trampling source can spill any part of what its blockers' needs
      leave over. */
  lemma SpillIsPossible(p: Proposal, t: TrampleSpec, s: SourceSpec, spilled: nat)
    requires ValidProposal(p) && t in p.tramplers && s in p.sources && s.source == t.attacker && t.blockers != []
    requires spilled == 0 || spilled + Needed(t.blockers, t.attacker in p.deathtouch) <= s.power
    ensures exists rows :: Accepts(p, rows) && Amount(rows, t.attacker, t.spill) == spilled
  {
    hide ValidProposal, Needs, Needed, Concentrated, Accepts, Amount, Total, Division, LegalRows, LegalRow, LethalRows;
    if spilled == 0 {
      SomeSubmissionIsAccepted(p);
      ConcentratedElsewhere(p, t);
    } else {
      var deathtouch := t.attacker in p.deathtouch;
      var extra := s.power - spilled - Needed(t.blockers, deathtouch);
      var rows := Division(p, t, deathtouch, extra, spilled);
      DivisionRows(p, t, s, deathtouch, extra, spilled);
      LegalRowsIs(p, rows);
      SpillApart(p, t, s);
      DivisionSums(p, t, deathtouch, extra, spilled, s.source, t.spill);
      DivisionIsComplete(p, t, s, extra, spilled);
      forall u, b | u in p.tramplers && b in u.blockers && Amount(rows, u.attacker, u.spill) > 0
        ensures LethalRows(p, rows, b)
      {
        DivisionIsLethal(p, t, s, extra, spilled, u, b);
      }
      AcceptedIff(p, rows);
    }
  }

  /** Concentrated damage goes to blockers first. */
  lemma ConcentratedElsewhere(p: Proposal, t: TrampleSpec)
    requires ValidProposal(p) && t in p.tramplers && t.blockers != []
    ensures Amount(RowsOf(Concentrated(p, p.sources)), t.attacker, t.spill) == 0
  {
    hide ValidProposal, Amount, Total, Concentrated, ProperSources;
    var s := TramplerSource(p, t);
    ProposalSourcesProper(p);
    ConcentratedSums(p, p.sources, s, t.spill);
    if s.targets != [] { ChoiceIsTarget(p, s); }
  }

  lemma DivisionIsComplete(p: Proposal, t: TrampleSpec, s: SourceSpec, extra: nat, spilled: nat)
    requires ValidProposal(p) && t in p.tramplers && s in p.sources && s.source == t.attacker && t.blockers != []
    requires s.power == extra + spilled + Needed(t.blockers, t.attacker in p.deathtouch)
    ensures Complete(p, Division(p, t, t.attacker in p.deathtouch, extra, spilled))
  {
    hide ValidProposal, Needed, Concentrated, Amount, Total, Division, ProperSources;
    SpillApart(p, t, s);
    ProposalSourcesProper(p);
    forall u | u in p.sources
      ensures Total(Division(p, t, t.attacker in p.deathtouch, extra, spilled), u.source) ==
              if u.targets == [] then 0 else u.power
    {
      DivisionSums(p, t, t.attacker in p.deathtouch, extra, spilled, u.source, "");
      ConcentratedSums(p, p.sources, u, "");
      if u.source == s.source { SameSource(p, s, u); }
    }
  }

  lemma SameSource(p: Proposal, s: SourceSpec, u: SourceSpec)
    requires ValidProposal(p) && s in p.sources && u in p.sources && s.source == u.source
    ensures s == u
  {
    var i :| 0 <= i < |p.sources| && p.sources[i] == s;
    var j :| 0 <= j < |p.sources| && p.sources[j] == u;
    assert SourceNames(p.sources)[i] == SourceNames(p.sources)[j];
  }

  lemma DivisionIsLethal(p: Proposal, t: TrampleSpec, s: SourceSpec, extra: nat, spilled: nat, u: TrampleSpec,
                         b: Blocker)
    requires ValidProposal(p) && t in p.tramplers && s in p.sources && s.source == t.attacker && t.blockers != []
    requires u in p.tramplers && b in u.blockers
    requires LegalRows(p, Division(p, t, t.attacker in p.deathtouch, extra, spilled))
    requires Amount(Division(p, t, t.attacker in p.deathtouch, extra, spilled), u.attacker, u.spill) > 0
    ensures LethalRows(p, Division(p, t, t.attacker in p.deathtouch, extra, spilled), b)
  {
    hide ValidProposal, Needed, Concentrated, Amount, Total, Division, LegalRows, FromAttackers;
    var rows := Division(p, t, t.attacker in p.deathtouch, extra, spilled);
    SpillApart(p, t, s);
    if u.attacker != t.attacker {
      DivisionSums(p, t, t.attacker in p.deathtouch, extra, spilled, u.attacker, u.spill);
      ConcentratedElsewhere(p, u);
      assert false;
    } else {
      OnlyTrampler(p, s, t);
      assert u == t;
      DivisionSums(p, t, t.attacker in p.deathtouch, extra, spilled, t.attacker, b.reference);
      EnoughIsLethal(p, rows, t, b);
    }
  }

  /** One attacker that meets a blocker's needs makes its damage lethal. */
  lemma EnoughIsLethal(p: Proposal, rows: seq<Row>, t: TrampleSpec, b: Blocker)
    requires ValidProposal(p) && t in p.tramplers && LegalRows(p, rows)
    requires Amount(rows, t.attacker, b.reference) >= Needs(b, t.attacker in p.deathtouch)
    ensures LethalRows(p, rows, b)
  {
    hide ValidProposal, Amount, FromAttackers, LegalRows;
    LegalRowsFacts(p, rows);
    TramplerNamed(p, t);
    PositiveRow(rows, t.attacker, b.reference);
    AtLeastOne(rows, p.sources, p.attacking, t.attacker, b.reference);
  }

  lemma {:induction false} AtLeastOne(rows: seq<Row>, sources: seq<SourceSpec>, attacking: set<string>,
                                      attacker: string, target: string)
    requires forall row :: row in rows ==> row.amount >= 0
    ensures FromAttackers(rows, sources, attacking, target) >= 0
    ensures attacker in SourceNames(sources) && attacker in attacking ==>
              FromAttackers(rows, sources, attacking, target) >= Amount(rows, attacker, target)
  {
    hide Amount;
    if sources == [] {
    } else {
      AtLeastOne(rows, sources[1..], attacking, attacker, target);
      PositiveRow(rows, sources[0].source, target);
      assert SourceNames(sources) == [sources[0].source] + SourceNames(sources[1..]);
    }
  }

  /** The tight bound for a lone trampling attacker with blockers: it can spill an amount exactly
      when it is nothing or what the blockers need leaves it over. */
  lemma SpillableIff(p: Proposal, t: TrampleSpec, s: SourceSpec, spilled: nat)
    requires ValidProposal(p) && t in p.tramplers && p.attacking == {t.attacker}
    requires s in p.sources && s.source == t.attacker && t.blockers != []
    ensures (exists rows :: Accepts(p, rows) && Amount(rows, t.attacker, t.spill) == spilled)
       <==> spilled == 0 || spilled + Needed(t.blockers, t.attacker in p.deathtouch) <= s.power
  {
    hide ValidProposal, Accepts, Amount, Needed;
    if rows :| Accepts(p, rows) && Amount(rows, t.attacker, t.spill) == spilled && spilled > 0 {
      SpillIsBounded(p, rows, t, s);
    }
    if spilled == 0 || spilled + Needed(t.blockers, t.attacker in p.deathtouch) <= s.power {
      SpillIsPossible(p, t, s, spilled);
    }
  }
}

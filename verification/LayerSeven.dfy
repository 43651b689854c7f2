/** Power and toughness (CR 613.4): what layer 7 makes of the characteristics entering it. */
module LayerSeven {
  import opened Wrappers
  import opened Characteristics
  import opened EffectOrder
  import opened ContinuousEffects

  predicate IsPower(op: Operation) {
    op.SetPowerToughness? || op.ModifyPowerToughness? || op.SwitchPowerToughness?
  }

  function Phase(op: Operation): nat
    requires IsPower(op)
  {
    if op.SetPowerToughness? then 0 else if op.ModifyPowerToughness? then 1 else 2
  }

  /** Sets, then modifications, then switches. */
  ghost predicate Phased(ops: seq<Operation>) {
    && (forall i :: 0 <= i < |ops| ==> IsPower(ops[i]))
    && forall i, j :: 0 <= i < j < |ops| ==> Phase(ops[i]) <= Phase(ops[j])
  }

  type Pair = (Option<int>, Option<int>)

  /** The last value set, or the entering one. */
  function LastSet(ops: seq<Operation>, entering: Pair): Pair {
    if ops == [] then entering
    else
      var op := ops[|ops| - 1];
      if op.SetPowerToughness? then (Some(op.p), Some(op.t)) else LastSet(ops[..|ops| - 1], entering)
  }

  function PowerDelta(ops: seq<Operation>): int {
    if ops == [] then 0
    else
      var op := ops[|ops| - 1];
      PowerDelta(ops[..|ops| - 1]) + if op.ModifyPowerToughness? then op.dp else 0
  }

  function ToughnessDelta(ops: seq<Operation>): int {
    if ops == [] then 0
    else
      var op := ops[|ops| - 1];
      ToughnessDelta(ops[..|ops| - 1]) + if op.ModifyPowerToughness? then op.dt else 0
  }

  function Switches(ops: seq<Operation>): nat {
    if ops == [] then 0
    else Switches(ops[..|ops| - 1]) + if ops[|ops| - 1].SwitchPowerToughness? then 1 else 0
  }

  /** Last set value plus the sum of the deltas, switched when the number of switches is odd;
      an unset value stays unset. */
  function ClosedForm(ops: seq<Operation>, entering: Pair): Pair {
    var (p, t) := LastSet(ops, entering);
    var sum := (Plus(p, PowerDelta(ops)), Plus(t, ToughnessDelta(ops)));
    if Switches(ops) % 2 == 0 then sum else (sum.1, sum.0)
  }

  function PairOf(t: Traits): Pair { (t.stats.power, t.stats.toughness) }

  /** The same characteristics with other power and toughness. */
  function WithPair(t: Traits, pair: Pair): Traits {
    t.(stats := t.stats.(power := pair.0, toughness := pair.1))
  }

  lemma {:induction false} OnlySetsBefore(ops: seq<Operation>)
    requires Phased(ops) && forall i :: 0 <= i < |ops| ==> ops[i].SetPowerToughness?
    ensures PowerDelta(ops) == 0 && ToughnessDelta(ops) == 0 && Switches(ops) == 0
  {
    if ops == [] {
    } else {
      OnlySetsBefore(ops[..|ops| - 1]);
    }
  }

  lemma {:induction false} NoSwitchBefore(ops: seq<Operation>)
    requires Phased(ops) && forall i :: 0 <= i < |ops| ==> !ops[i].SwitchPowerToughness?
    ensures Switches(ops) == 0
  {
    if ops == [] {
    } else {
      NoSwitchBefore(ops[..|ops| - 1]);
    }
  }

  /** What one operation of layer 7 does to power and toughness. */
  function PairAfter(op: Operation, pair: Pair): Pair
    requires IsPower(op)
  {
    match op
    case SetPowerToughness(p, t) => (Some(p), Some(t))
    case ModifyPowerToughness(dp, dt) => (Plus(pair.0, dp), Plus(pair.1, dt))
    case SwitchPowerToughness => (pair.1, pair.0)
  }

  /** One more operation of a later phase keeps the closed form. */
  lemma ClosedFormStep(front: seq<Operation>, op: Operation, entering: Pair)
    requires Phased(front + [op])
    ensures ClosedForm(front + [op], entering) == PairAfter(op, ClosedForm(front, entering))
  {
    var ops := front + [op];
    assert ops[..|ops| - 1] == front;
    PhasedFront(front, op);
    forall i | 0 <= i < |front| ensures Phase(front[i]) <= Phase(op) { assert Phase(ops[i]) <= Phase(ops[|front|]); }
    if op.SetPowerToughness? {
      OnlySetsBefore(front);
    } else if op.ModifyPowerToughness? {
      NoSwitchBefore(front);
    }
  }

  /** Phased operations have the closed form, and touch nothing but power and toughness. */
  lemma {:induction false} PhasedClosedForm(rules: Rules, t: Traits, ops: seq<Operation>)
    requires Phased(ops)
    ensures AppliedAll(rules, t, ops) == WithPair(t, ClosedForm(ops, PairOf(t)))
    decreases |ops|
  {
    hide Phased;
    if ops == [] {
    } else {
      var n := |ops| - 1;
      var front, last := ops[..n], ops[n];
      assert ops == front + [last];
      PhasedFront(front, last);
      PhasedClosedForm(rules, t, front);
      ClosedFormStep(front, last, PairOf(t));
    }
  }

  lemma PhasedFront(front: seq<Operation>, last: Operation)
    requires Phased(front + [last])
    ensures Phased(front) && IsPower(last)
  {
    var ops := front + [last];
    assert IsPower(ops[|front|]);
    forall i | 0 <= i < |front| ensures IsPower(front[i]) { assert IsPower(ops[i]); }
    forall i, j | 0 <= i < j < |front| ensures Phase(front[i]) <= Phase(front[j]) {
      assert Phase(ops[i]) <= Phase(ops[j]);
    }
  }

  const POWER_PLACES: seq<Place> := [Power7a, Power7b, Power7c, Power7d]
  const EARLIER_PLACES: seq<Place> := [Copy1a, Copy1b, Control2, Text3, Type4, Color5, Ability6]

  /** Phase of the operations that belong in a sublayer of layer 7. */
  function PlacePhase(p: Place): nat {
    match p case Power7c => 1 case Power7d => 2 case _ => 0
  }

  /** Sets only in 7a and 7b, modifications only in 7c, switches only in 7d. */
  ghost predicate Conforming(index: Index) {
    forall id :: id in index && index[id].place in POWER_PLACES ==>
      forall op :: op in index[id].operations ==> IsPower(op) && Phase(op) == PlacePhase(index[id].place)
  }

  /** The operations of the named effects, in order. */
  function OperationsOf(index: Index, ids: seq<string>): seq<Operation>
    requires forall id :: id in ids ==> id in index
  {
    if ids == [] then []
    else OperationsOf(index, ids[..|ids| - 1]) + index[ids[|ids| - 1]].operations
  }

  /** The named effects that apply to the object as its characteristics stand. */
  function ApplicableAmong(rules: Rules, ctx: Context, index: Index, ids: seq<string>, t: Traits): (r: seq<string>)
    requires forall id :: id in ids ==> id in index
    ensures forall id :: id in r ==> id in ids
  {
    if ids == [] then []
    else
      var n := |ids| - 1;
      ApplicableAmong(rules, ctx, index, ids[..n], t)
      + if Applicable(rules, ctx, index[ids[n]], t) then [ids[n]] else []
  }

  /** The effects come in sublayer order. */
  ghost predicate InPhaseOrder(index: Index, ids: seq<string>) {
    && (forall id :: id in ids ==> id in index && index[id].place in POWER_PLACES)
    && forall i, j :: 0 <= i < j < |ids| ==> PlacePhase(index[ids[i]].place) <= PlacePhase(index[ids[j]].place)
  }

  lemma {:induction false} AppliedAllConcat(rules: Rules, t: Traits, a: seq<Operation>, b: seq<Operation>)
    ensures AppliedAll(rules, t, a + b) == AppliedAll(rules, AppliedAll(rules, t, a), b)
    decreases |b|
  {
    hide Applied;
    if b == [] {
      assert a + b == a;
    } else {
      var n := |b| - 1;
      AppliedAllConcat(rules, t, a, b[..n]);
      assert (a + b)[..|a + b| - 1] == a + b[..n];
    }
  }

  /** The highest phase among the operations of conforming effects in order is their last. */
  lemma {:induction false} OperationsPhased(index: Index, ids: seq<string>, limit: nat)
    requires Conforming(index) && InPhaseOrder(index, ids)
    requires forall id :: id in ids ==> PlacePhase(index[id].place) <= limit
    ensures Phased(OperationsOf(index, ids))
    ensures forall op :: op in OperationsOf(index, ids) ==> Phase(op) <= limit
    decreases |ids|
  {
    hide Phased, Phase, IsPower, PlacePhase;
    if ids == [] {
      NothingPhased();
    } else {
      var n := |ids| - 1;
      var front, e := ids[..n], index[ids[n]];
      assert ids[n] in ids && forall id :: id in front ==> id in ids;
      forall id | id in front ensures PlacePhase(index[id].place) <= PlacePhase(e.place) {
        var i :| 0 <= i < n && front[i] == id;
        assert ids[i] == id;
      }
      OperationsPhased(index, front, PlacePhase(e.place));
      PhasedConcat(OperationsOf(index, front), e.operations, PlacePhase(e.place));
    }
  }

  lemma NothingPhased()
    ensures Phased([])
  {
  }

  lemma PhasedConcat(a: seq<Operation>, b: seq<Operation>, phase: nat)
    requires Phased(a) && forall op :: op in a ==> Phase(op) <= phase
    requires forall op :: op in b ==> IsPower(op) && Phase(op) == phase
    ensures Phased(a + b)
  {
    forall i, j | 0 <= i < j < |a + b| ensures Phase((a + b)[i]) <= Phase((a + b)[j]) {
      if i < |a| <= j { assert a[i] in a && b[j - |a|] in b; }
      if |a| <= i { assert b[i - |a|] in b && b[j - |a|] in b; }
    }
  }

  lemma OrderFront(index: Index, ids: seq<string>)
    requires ids != [] && InPhaseOrder(index, ids)
    ensures InPhaseOrder(index, ids[..|ids| - 1])
    ensures ids[|ids| - 1] in index && index[ids[|ids| - 1]].place in POWER_PLACES
    ensures forall x :: x in ids[..|ids| - 1] ==> PlacePhase(index[x].place) <= PlacePhase(index[ids[|ids| - 1]].place)
  {
    var n := |ids| - 1;
    assert ids[n] in ids;
    forall x | x in ids[..n] ensures x in ids && PlacePhase(index[x].place) <= PlacePhase(index[ids[n]].place) {
      var i :| 0 <= i < n && ids[..n][i] == x;
      assert ids[i] == x && ids[i] in ids;
    }
    forall i, j | 0 <= i < j < n ensures PlacePhase(index[ids[..n][i]].place) <= PlacePhase(index[ids[..n][j]].place) {
      assert ids[..n][i] == ids[i] && ids[..n][j] == ids[j];
    }
  }

  lemma {:induction false} SublistInOrder(rules: Rules, ctx: Context, index: Index, ids: seq<string>, t: Traits)
    requires InPhaseOrder(index, ids)
    ensures InPhaseOrder(index, ApplicableAmong(rules, ctx, index, ids, t))
    decreases |ids|
  {
    if ids == [] {
    } else {
      var n := |ids| - 1;
      OrderFront(index, ids);
      SublistInOrder(rules, ctx, index, ids[..n], t);
    }
  }

  /** Within layer 7 the object query sees the same row throughout, so which effects apply is
      settled by the characteristics entering the layer. */
  lemma {:induction false} LayerSevenRun(rules: Rules, ctx: Context, index: Index, ids: seq<string>, g: Progress)
    requires WellIndexed(index) && Conforming(index) && InPhaseOrder(index, ids)
    ensures var applied := ApplicableAmong(rules, ctx, index, ids, g.traits);
            var h := Run(rules, ctx, index, ids, g);
            && h.applied == g.applied + applied
            && h.traits == AppliedAll(rules, g.traits, OperationsOf(index, applied))
            && Phased(OperationsOf(index, applied))
    decreases |ids|
  {
    hide Conforming, Phased, Applicable, Step, RowOf;
    var applied := ApplicableAmong(rules, ctx, index, ids, g.traits);
    SublistInOrder(rules, ctx, index, ids, g.traits);
    OperationsPhased(index, applied, 2);
    if ids == [] {
    } else {
      var n := |ids| - 1;
      var front, e := ids[..n], index[ids[n]];
      OrderFront(index, ids);
      LayerSevenRun(rules, ctx, index, front, g);
      var before := ApplicableAmong(rules, ctx, index, front, g.traits);
      OneMoreEffect(rules, ctx, index, before, ids[n], g, Run(rules, ctx, index, front, g));
    }
  }

  lemma OneMoreEffect(rules: Rules, ctx: Context, index: Index, before: seq<string>, id: string, g: Progress,
                      h: Progress)
    requires WellIndexed(index) && id in index && index[id].place in POWER_PLACES
    requires forall x :: x in before ==> x in index
    requires Phased(OperationsOf(index, before))
    requires h.applied == g.applied + before && h.traits == AppliedAll(rules, g.traits, OperationsOf(index, before))
    ensures var applied := before + if Applicable(rules, ctx, index[id], g.traits) then [id] else [];
            var after := Step(rules, ctx, index[id], h);
            && (forall x :: x in applied ==> x in index)
            && after.applied == g.applied + applied
            && after.traits == AppliedAll(rules, g.traits, OperationsOf(index, applied))
  {
    hide Phased, RowOf, InScope, AppliedAll;
    RowUnchanged(rules, g.traits, OperationsOf(index, before));
    if Applicable(rules, ctx, index[id], g.traits) {
      assert (before + [id])[..|before|] == before;
      AppliedAllConcat(rules, g.traits, OperationsOf(index, before), index[id].operations);
    } else {
      assert before + [] == before;
    }
  }

  lemma RowUnchanged(rules: Rules, t: Traits, ops: seq<Operation>)
    requires Phased(ops)
    ensures RowOf(AppliedAll(rules, t, ops)) == RowOf(t)
  {
    hide Phased, ClosedForm;
    PhasedClosedForm(rules, t, ops);
  }

  // ----- the whole evaluation -----

  lemma {:induction false} RunConcat(rules: Rules, ctx: Context, index: Index, a: seq<string>, b: seq<string>,
                                     g: Progress)
    requires forall id :: id in a + b ==> id in index
    ensures Run(rules, ctx, index, a + b, g) == Run(rules, ctx, index, b, Run(rules, ctx, index, a, g))
    decreases |b|
  {
    hide Step;
    assert forall id :: id in a ==> id in a + b;
    assert forall id :: id in b ==> id in a + b;
    if b == [] {
      assert a + b == a;
    } else {
      var n := |b| - 1;
      assert (a + b)[..|a + b| - 1] == a + b[..n];
      RunConcat(rules, ctx, index, a, b[..n], g);
    }
  }

  lemma {:induction false} OrderPlacesConcat(index: Index, a: seq<Place>, b: seq<Place>)
    ensures OrderPlaces(index, a + b) == OrderPlaces(index, a) + OrderPlaces(index, b)
  {
    hide Ordered, At;
    if a == [] {
      assert a + b == b;
    } else {
      assert (a + b)[1..] == a[1..] + b;
      OrderPlacesConcat(index, a[1..], b);
    }
  }

  lemma {:induction false} PlacesInPhaseOrder(index: Index, places: seq<Place>)
    requires forall i :: 0 <= i < |places| ==> places[i] in POWER_PLACES
    requires forall i, j :: 0 <= i < j < |places| ==> PlacePhase(places[i]) <= PlacePhase(places[j])
    ensures InPhaseOrder(index, OrderPlaces(index, places))
  {
    hide Ordered, PlacePhase;
    if places == [] {
    } else {
      var head, tail := Ordered(index, At(index, places[0])), OrderPlaces(index, places[1..]);
      PlacesInPhaseOrder(index, places[1..]);
      OrderedIsPermutation(index, At(index, places[0]));
      forall id | id in tail ensures PlacePhase(places[0]) <= PlacePhase(index[id].place) {
        var k :| 0 <= k < |places[1..]| && places[1..][k] == index[id].place;
        assert places[k + 1] == index[id].place;
      }
      JoinPhases(index, head, tail, places[0]);
    }
  }

  lemma JoinPhases(index: Index, head: seq<string>, tail: seq<string>, p: Place)
    requires p in POWER_PLACES && InPhaseOrder(index, tail)
    requires forall id :: id in head ==> id in index && index[id].place == p
    requires forall id :: id in tail ==> PlacePhase(p) <= PlacePhase(index[id].place)
    ensures InPhaseOrder(index, head + tail)
  {
    hide PlacePhase;
    var ids := head + tail;
    forall i, j | 0 <= i < j < |ids| ensures PlacePhase(index[ids[i]].place) <= PlacePhase(index[ids[j]].place) {
      if i < |head| {
        assert head[i] in head;
        if j < |head| { assert head[j] in head; } else { assert tail[j - |head|] in tail; }
      }
    }
  }

  /** With sets only in 7a and 7b, modifications only in 7c and switches only in 7d, the final
      power and toughness are the closed form of the applied layer-7 operations on the values
      that enter layer 7; nothing else changes there. */
  lemma FinalPowerAndToughness(rules: Rules, ctx: Context, t: Traits, effects: seq<Effect>)
    requires UniqueIds(Present(effects)) && Conforming(IndexOf(Present(effects)))
    ensures var index := IndexOf(Present(effects));
            var entering := RunPlaces(rules, ctx, index, EARLIER_PLACES, Progress(t, [], Absent(effects)));
            var settled := ApplicableAmong(rules, ctx, index, OrderPlaces(index, POWER_PLACES), entering.traits);
            var ops := OperationsOf(index, settled);
            var r := EvaluationOf(rules, t, effects, ctx).value;
            && r.applied == entering.applied + settled
            && r.characteristics ==
               Snapshot(rules, WithPair(entering.traits, ClosedForm(ops, PairOf(entering.traits))))
  {
    hide Run, OrderPlaces, Conforming, InPhaseOrder, IndexOf, UniqueIds, Present, Absent, CyclesAt, ClosedForm,
         AppliedAll,
         ApplicableAmong, OperationsOf, Snapshot, WithPair, Phased;
    var index := IndexOf(Present(effects));
    var g := Progress(t, [], Absent(effects));
    assert PLACES == EARLIER_PLACES + POWER_PLACES;
    OrderPlacesConcat(index, EARLIER_PLACES, POWER_PLACES);
    RunConcat(rules, ctx, index, OrderPlaces(index, EARLIER_PLACES), OrderPlaces(index, POWER_PLACES), g);
    var entering := RunPlaces(rules, ctx, index, EARLIER_PLACES, g);
    PlacesInPhaseOrder(index, POWER_PLACES);
    LayerSevenRun(rules, ctx, index, OrderPlaces(index, POWER_PLACES), entering);
    var settled := ApplicableAmong(rules, ctx, index, OrderPlaces(index, POWER_PLACES), entering.traits);
    PhasedClosedForm(rules, entering.traits, OperationsOf(index, settled));
  }

  /** Operations are phased exactly when each sets, modifies or switches power and toughness, no set
      comes after a modification or switch, and no modification after a switch. */
  lemma PhasedIff(ops: seq<Operation>)
    ensures Phased(ops) <==>
            && (forall op :: op in ops ==>
                  op.SetPowerToughness? || op.ModifyPowerToughness? || op.SwitchPowerToughness?)
            && forall i, j :: 0 <= i < j < |ops| ==>
                 && (ops[j].SetPowerToughness? ==> ops[i].SetPowerToughness?)
                 && (ops[j].ModifyPowerToughness? ==> !ops[i].SwitchPowerToughness?)
  {
    forall i | 0 <= i < |ops| ensures ops[i] in ops {
    }
  }

  /** Effects conform exactly when those of layers 7a and 7b only set, those of 7c only modify and
      those of 7d only switch. */
  lemma ConformingIff(index: Index)
    ensures Conforming(index) <==>
            forall id, op :: id in index && op in index[id].operations ==>
              match index[id].place
              case Power7a => op.SetPowerToughness?
              case Power7b => op.SetPowerToughness?
              case Power7c => op.ModifyPowerToughness?
              case Power7d => op.SwitchPowerToughness?
              case _ => true
  {
  }
}

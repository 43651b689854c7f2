/** Evaluation of continuous effects on one object (CR 613). */
module ContinuousEffects {
  import opened Wrappers
  import opened Orders
  import opened Characteristics
  import opened EffectOrder

  datatype Error = DuplicateEffectId

  // ----- order across layers and sublayers -----

  function At(index: Index, p: Place): (s: set<string>)
    ensures s <= index.Keys
  {
    set id | id in index && index[id].place == p
  }

  function OrderPlaces(index: Index, places: seq<Place>): (r: seq<string>)
    ensures forall id :: id in r <==> id in index && index[id].place in places
  {
    if places == [] then []
    else
      OrderedIsPermutation(index, At(index, places[0]));
      Ordered(index, At(index, places[0])) + OrderPlaces(index, places[1..])
  }

  function CyclesIn(index: Index, group: set<string>): seq<seq<string>>
    requires group <= index.Keys
  {
    if Residue(index, group) == {} then [] else [InKeyOrder(index, Residue(index, group))]
  }

  function CyclesAt(index: Index, places: seq<Place>): seq<seq<string>> {
    if places == [] then [] else CyclesIn(index, At(index, places[0])) + CyclesAt(index, places[1..])
  }

  /** All effects in the order in which they apply. */
  function FullOrder(index: Index): seq<string> { OrderPlaces(index, PLACES) }

  lemma PlacesSorted()
    ensures Sorted(ByKey(PlaceKey), PLACES) && StrictOrder(ByKey(PlaceKey)) && forall p: Place :: p in PLACES
  {
    ByKeyOrder(PlaceKey);
    var lt := ByKey(PlaceKey);
    forall i | 0 <= i < |PLACES| - 1 ensures lt(PLACES[i], PLACES[i + 1]) {
      StepUp(PLACES[i], PLACES[i + 1]);
    }
    AdjacentSorted(lt, PLACES);
    forall p: Place ensures p in PLACES {
      assert PLACES[Position(p)] == p;
    }
  }

  function Position(p: Place): (i: nat)
    ensures i < 11
  {
    match p
    case Copy1a => 0 case Copy1b => 1 case Control2 => 2 case Text3 => 3 case Type4 => 4 case Color5 => 5
    case Ability6 => 6 case Power7a => 7 case Power7b => 8 case Power7c => 9 case Power7d => 10
  }

  lemma StepUp(p: Place, q: Place)
    requires Layer(p) < Layer(q) || (Layer(p) == Layer(q) && SublayerRank(p) < SublayerRank(q))
    ensures KeyLess(PlaceKey(p), PlaceKey(q))
  {
    var a, b := PlaceKey(p).parts, PlaceKey(q).parts;
    assert TupLess(a[1..], b[1..]) <==> SublayerRank(p) < SublayerRank(q);
  }

  lemma {:induction false} AdjacentSorted<T(!new)>(lt: (T, T) -> bool, s: seq<T>)
    requires StrictOrder(lt) && forall i :: 0 <= i < |s| - 1 ==> lt(s[i], s[i + 1])
    ensures Sorted(lt, s)
  {
    if s == [] {
    } else {
      forall i | 0 <= i < |s[1..]| - 1 ensures lt(s[1..][i], s[1..][i + 1]) {
        assert lt(s[i + 1], s[i + 2]);
      }
      AdjacentSorted(lt, s[1..]);
      forall j | 0 < j < |s| ensures lt(s[0], s[j]) {
        if j > 1 { assert s[1..][0] == s[1] && s[1..][j - 1] == s[j]; }
      }
      forall i, j | 0 <= i < j < |s| ensures lt(s[i], s[j]) {
        if i > 0 { assert s[1..][i - 1] == s[i] && s[1..][j - 1] == s[j]; }
      }
    }
  }

  /** Places without effects contribute nothing to the order. */
  lemma {:induction false} SkipEmptyPlaces(index: Index, all: seq<Place>, used: seq<Place>)
    requires StrictOrder(ByKey(PlaceKey)) && Sorted(ByKey(PlaceKey), all) && Sorted(ByKey(PlaceKey), used)
    requires forall p :: p in used ==> p in all
    requires forall p :: p in all && At(index, p) != {} ==> p in used
    ensures OrderPlaces(index, all) == OrderPlaces(index, used)
    ensures CyclesAt(index, all) == CyclesAt(index, used)
    decreases all
  {
    hide ByKey, PlaceKey;
    if all == [] {
      if used != [] { NonEmptyHasElement(used); assert false; }
    } else if used != [] && used[0] == all[0] {
      forall p ensures (p in used[1..] <==> p in used && p != used[0]) && (p in all[1..] <==> p in all && p != all[0]) {
        TailMembership(ByKey(PlaceKey), used, p);
        TailMembership(ByKey(PlaceKey), all, p);
      }
      SkipEmptyPlaces(index, all[1..], used[1..]);
    } else {
      HeadUnused(all, used);
      forall p ensures p in all[1..] <==> p in all && p != all[0] {
        TailMembership(ByKey(PlaceKey), all, p);
      }
      SkipEmptyPlaces(index, all[1..], used);
    }
  }

  lemma HeadUnused(all: seq<Place>, used: seq<Place>)
    requires StrictOrder(ByKey(PlaceKey)) && Sorted(ByKey(PlaceKey), all) && Sorted(ByKey(PlaceKey), used)
    requires all != [] && (forall p :: p in used ==> p in all) && (used == [] || used[0] != all[0])
    ensures all[0] !in used
  {
    hide PlaceKey, ByKey;
    var lt := ByKey(PlaceKey);
    if used != [] {
      assert used[0] in all;
      var k :| 0 <= k < |all| && all[k] == used[0];
      assert lt(all[0], used[0]);
      forall i | 0 <= i < |used| ensures used[i] != all[0] {
        if i > 0 { assert lt(used[0], used[i]) && lt(all[0], used[i]); }
      }
    }
  }

  predicate UniqueIds(effects: seq<Effect>) {
    forall i, j :: 0 <= i < j < |effects| ==> effects[i].id != effects[j].id
  }

  function IndexOf(effects: seq<Effect>): (index: Index)
    ensures WellIndexed(index)
    ensures forall id :: id in index ==> index[id] in effects
    ensures forall e :: e in effects ==> e.id in index
  {
    if effects == [] then map[]
    else
      var last := effects[|effects| - 1];
      IndexOf(effects[..|effects| - 1])[last.id := last]
  }

  lemma IndexHasAll(effects: seq<Effect>)
    requires UniqueIds(effects)
    ensures forall e :: e in effects ==> e.id in IndexOf(effects) && IndexOf(effects)[e.id] == e
  {
    var index := IndexOf(effects);
    forall e | e in effects ensures index[e.id] == e {
      var i :| 0 <= i < |effects| && effects[i] == e;
      assert index[e.id] in effects;
      var j :| 0 <= j < |effects| && effects[j] == index[e.id];
      assert effects[i].id == effects[j].id;
    }
  }

  /** Groups effects by layer and sublayer, and orders each group by dependency. */
  method OrderContinuousEffects(effects: seq<Effect>)
    returns (r: Result<(seq<string>, seq<seq<string>>), Error>)
    ensures r.Ok? <==> UniqueIds(effects)
    ensures r.Ok? ==> r.value == (FullOrder(IndexOf(effects)), CyclesAt(IndexOf(effects), PLACES))
  {
    hide *;
    if !UniqueIds(effects) {
      return Err(DuplicateEffectId);
    }
    var index, groups := GroupEffects(effects);
    var ordered, cycles := OrderGroups(index, groups);
    return Ok((ordered, cycles));
  }

  method GroupEffects(effects: seq<Effect>) returns (index: Index, groups: map<Place, set<string>>)
    requires UniqueIds(effects)
    ensures index == IndexOf(effects) && Grouped(index, groups)
  {
    groups, index := map[], map[];
    var i := 0;
    assert effects[..0] == [];
    while i < |effects|
      invariant 0 <= i <= |effects|
      invariant index == IndexOf(effects[..i]) && Grouped(index, groups)
    {
      var effect := effects[i];
      GroupsStep(effects, i, groups);
      var group := if effect.place in groups then groups[effect.place] else {};
      groups := groups[effect.place := group + {effect.id}];
      index := index[effect.id := effect];
      i := i + 1;
    }
    assert effects[..i] == effects;
  }

  method OrderGroups(index: Index, groups: map<Place, set<string>>)
    returns (ordered: seq<string>, cycles: seq<seq<string>>)
    requires Grouped(index, groups)
    ensures ordered == FullOrder(index) && cycles == CyclesAt(index, PLACES)
  {
    hide *;
    PlacesSorted();
    GroupsAre(index, groups);
    var keys := SortSet(PlaceKey, groups.Keys);
    ordered, cycles := [], [];
    var i := 0;
    assert keys[..0] == [];
    OrderNothing(index);
    while i < |keys|
      invariant 0 <= i <= |keys|
      invariant ordered == OrderPlaces(index, keys[..i]) && cycles == CyclesAt(index, keys[..i])
    {
      assert keys[i] in groups;
      var group, groupCycles := DependencyOrder(index, groups[keys[i]]);
      CyclesInIs(index, groups[keys[i]]);
      OrderOneMore(index, keys, i);
      ordered := ordered + group;
      cycles := cycles + groupCycles;
      i := i + 1;
    }
    assert keys[..i] == keys;
    SkipEmptyPlaces(index, PLACES, keys);
    FullOrderIs(index);
  }

  lemma OrderNothing(index: Index)
    ensures OrderPlaces(index, []) == [] && CyclesAt(index, []) == []
  {
  }

  lemma CyclesInIs(index: Index, group: set<string>)
    requires group <= index.Keys
    ensures CyclesIn(index, group) ==
            if Residue(index, group) == {} then [] else [InKeyOrder(index, Residue(index, group))]
  {
    hide Residue, InKeyOrder;
  }

  /** `groups` holds the nonempty groups of the index. */
  ghost predicate Grouped(index: Index, groups: map<Place, set<string>>) {
    forall p: Place :: if p in groups then groups[p] == At(index, p) else At(index, p) == {}
  }

  lemma GroupsStep(effects: seq<Effect>, i: nat, groups: map<Place, set<string>>)
    requires i < |effects| && UniqueIds(effects) && Grouped(IndexOf(effects[..i]), groups)
    ensures var e := effects[i];
            var group := if e.place in groups then groups[e.place] else {};
            && IndexOf(effects[..i + 1]) == IndexOf(effects[..i])[e.id := e]
            && Grouped(IndexOf(effects[..i])[e.id := e], groups[e.place := group + {e.id}])
  {
    hide At, Grouped, IndexOf, UniqueIds;
    IndexStep(effects, i);
    FreshId(effects, i);
    GroupedGrows(IndexOf(effects[..i]), groups, effects[i]);
  }

  lemma GroupedGrows(index: Index, groups: map<Place, set<string>>, e: Effect)
    requires e.id !in index && Grouped(index, groups)
    ensures var group := if e.place in groups then groups[e.place] else {};
            Grouped(index[e.id := e], groups[e.place := group + {e.id}])
  {
    hide At;
    var group := if e.place in groups then groups[e.place] else {};
    var after := groups[e.place := group + {e.id}];
    forall p: Place
      ensures if p in after then after[p] == At(index[e.id := e], p) else At(index[e.id := e], p) == {}
    {
      AtGrows(index, e, p);
      if p != e.place { assert At(index, p) + {} == At(index, p); }
    }
  }

  lemma IndexIds(effects: seq<Effect>, id: string)
    ensures id in IndexOf(effects) <==> exists k :: 0 <= k < |effects| && effects[k].id == id
  {
    var index := IndexOf(effects);
    if id in index { assert index[id] in effects && index[id].id == id; }
    forall k | 0 <= k < |effects| && effects[k].id == id ensures id in index {
      assert effects[k] in effects;
    }
  }

  lemma FreshId(effects: seq<Effect>, i: nat)
    requires i < |effects| && UniqueIds(effects)
    ensures effects[i].id !in IndexOf(effects[..i])
  {
    hide IndexOf;
    IndexIds(effects[..i], effects[i].id);
    forall k | 0 <= k < i ensures effects[..i][k].id != effects[i].id {
      assert effects[k].id != effects[i].id;
    }
  }

  lemma IndexStep(effects: seq<Effect>, i: nat)
    requires i < |effects|
    ensures IndexOf(effects[..i + 1]) == IndexOf(effects[..i])[effects[i].id := effects[i]]
  {
    assert effects[..i + 1][..i] == effects[..i];
  }

  lemma AtGrows(index: Index, e: Effect, p: Place)
    requires e.id !in index
    ensures At(index[e.id := e], p) == At(index, p) + if p == e.place then {e.id} else {}
  {
  }

  lemma GroupsAre(index: Index, groups: map<Place, set<string>>)
    requires Grouped(index, groups)
    ensures InjectiveOn(PlaceKey, groups.Keys)
    ensures forall p :: p in groups ==> groups[p] == At(index, p) && groups[p] <= index.Keys
    ensures forall p: Place :: At(index, p) != {} ==> p in groups
  {
    forall p, q | p in groups.Keys && q in groups.Keys && PlaceKey(p) == PlaceKey(q) ensures p == q {
      assert PlaceKey(p).parts == PlaceKey(q).parts;
      assert PlaceKey(p).parts[0] == PlaceKey(q).parts[0] && PlaceKey(p).parts[1] == PlaceKey(q).parts[1];
    }
  }

  lemma {:induction false} OrderOneMore(index: Index, places: seq<Place>, i: nat)
    requires i < |places|
    ensures OrderPlaces(index, places[..i + 1]) == OrderPlaces(index, places[..i]) +
            Ordered(index, At(index, places[i]))
    ensures CyclesAt(index, places[..i + 1]) == CyclesAt(index, places[..i]) + CyclesIn(index, At(index, places[i]))
    decreases |places|
  {
    hide Ordered, CyclesIn, At;
    if i > 0 {
      OrderOneMore(index, places[1..], i - 1);
      assert places[..i + 1][1..] == places[1..][..i] && places[..i][1..] == places[1..][..i - 1];
    } else {
      assert places[..1] == [places[0]] && places[..0] == [] && places[..1][1..] == [];
    }
  }

  lemma FullOrderIs(index: Index)
    ensures FullOrder(index) == OrderPlaces(index, PLACES)
  {
  }

  // ----- evaluation -----

  /** The object being evaluated; an empty string stands for a missing identity. */
  datatype Context = Context(objectId: string, logicalId: string)

  datatype Evaluation = Evaluation(
    characteristics: Traits,
    applied: seq<string>,
    cycles: seq<seq<string>>,
    inapplicable: seq<string>)

  datatype Progress = Progress(traits: Traits, applied: seq<string>, skipped: seq<string>)

  predicate SourceAbsent(e: Effect) { e.whileSourcePresent && !e.sourcePresent }

  /** The effect's identity scope, if it has one, admits the object. */
  predicate InScope(ctx: Context, e: Effect) {
    && (e.attachedTo.Some? ==> Identity(ctx.objectId, ctx.logicalId) == e.attachedTo.value)
    && (e.locked != {} ==>
         ctx.objectId != "" && ctx.logicalId != "" && Identity(ctx.objectId, ctx.logicalId) in e.locked)
  }

  /** Applicability is read off the characteristics that earlier effects produced. */
  predicate Applicable(rules: Rules, ctx: Context, e: Effect, t: Traits) {
    InScope(ctx, e) && rules.matches(e.applies, RowOf(t))
  }

  function Snapshot(rules: Rules, t: Traits): Traits {
    t.(skills := t.skills.(fragments := rules.canonicalFragments(t.skills.fragments)))
  }

  function AfterEffect(rules: Rules, e: Effect, t: Traits): Traits {
    var after := AppliedAll(rules, t, e.operations);
    if e.place == Copy1a then after.(copiable := Some(Snapshot(rules, after))) else after
  }

  function Step(rules: Rules, ctx: Context, e: Effect, g: Progress): Progress {
    if Applicable(rules, ctx, e, g.traits)
    then Progress(AfterEffect(rules, e, g.traits), g.applied + [e.id], g.skipped)
    else g.(skipped := g.skipped + [e.id])
  }

  function Run(rules: Rules, ctx: Context, index: Index, ids: seq<string>, g: Progress): Progress
    requires forall id :: id in ids ==> id in index
  {
    if ids == [] then g
    else
      var n := |ids| - 1;
      Step(rules, ctx, index[ids[n]], Run(rules, ctx, index, ids[..n], g))
  }

  function Present(effects: seq<Effect>): (r: seq<Effect>) {
    if effects == [] then []
    else
      var n := |effects| - 1;
      Present(effects[..n]) + if SourceAbsent(effects[n]) then [] else [effects[n]]
  }

  function Absent(effects: seq<Effect>): (r: seq<string>) {
    if effects == [] then []
    else
      var n := |effects| - 1;
      Absent(effects[..n]) + if SourceAbsent(effects[n]) then [effects[n].id] else []
  }

  function RunPlaces(rules: Rules, ctx: Context, index: Index, places: seq<Place>, g: Progress): Progress {
    Run(rules, ctx, index, OrderPlaces(index, places), g)
  }

  /** What evaluating the effects on the characteristics gives. */
  function EvaluationOf(rules: Rules, t: Traits, effects: seq<Effect>, ctx: Context): Result<Evaluation, Error> {
    var present := Present(effects);
    if !UniqueIds(present) then Err(DuplicateEffectId)
    else
      var index := IndexOf(present);
      var g := RunPlaces(rules, ctx, index, PLACES, Progress(t, [], Absent(effects)));
      Ok(Evaluation(Snapshot(rules, g.traits), g.applied, CyclesAt(index, PLACES), g.skipped))
  }

  lemma PresentStep(effects: seq<Effect>, i: nat)
    requires i < |effects|
    ensures Present(effects[..i + 1]) == Present(effects[..i]) + if SourceAbsent(effects[i]) then [] else [effects[i]]
    ensures Absent(effects[..i + 1]) == Absent(effects[..i]) + if SourceAbsent(effects[i]) then [effects[i].id] else []
  {
    assert effects[..i + 1][..i] == effects[..i];
  }

  lemma EvaluationUnfolds(rules: Rules, t: Traits, effects: seq<Effect>, ctx: Context)
    ensures var index := IndexOf(Present(effects));
                    var g := Run(rules, ctx, index, FullOrder(index), Progress(t, [], Absent(effects)));
            EvaluationOf(rules, t, effects, ctx) ==
            if !UniqueIds(Present(effects)) then Err(DuplicateEffectId)
            else Ok(Evaluation(Snapshot(rules, g.traits), g.applied, CyclesAt(index, PLACES), g.skipped))
  {
  }

  lemma RunStep(rules: Rules, ctx: Context, index: Index, ids: seq<string>, i: nat, g: Progress)
    requires i < |ids| && forall id :: id in ids ==> id in index
    ensures Run(rules, ctx, index, ids[..i + 1], g) ==
            Step(rules, ctx, index[ids[i]], Run(rules, ctx, index, ids[..i], g))
  {
    assert ids[..i + 1][..i] == ids[..i];
  }

  /** Applies the effects to the mutable characteristics, in order. */
  method Evaluate(rules: Rules, state: CharacteristicState, effects: seq<Effect>, ctx: Context)
    returns (r: Result<Evaluation, Error>)
    modifies state
    ensures r == EvaluationOf(rules, old(state.View()), effects, ctx)
    ensures r.Ok? ==> Snapshot(rules, state.View()) == r.value.characteristics
    ensures r.Err? ==> state.View() == old(state.View())
  {
    ghost var start := state.View();
    var present: seq<Effect>, inapplicable: seq<string> := [], [];
    var i := 0;
    assert effects[..0] == [];
    while i < |effects|
      invariant 0 <= i <= |effects|
      invariant present == Present(effects[..i]) && inapplicable == Absent(effects[..i])
      invariant state.View() == start
    {
      PresentStep(effects, i);
      if SourceAbsent(effects[i]) {
        inapplicable := inapplicable + [effects[i].id];
      } else {
        present := present + [effects[i]];
      }
      i := i + 1;
    }
    assert effects[..i] == effects;
    var order := OrderContinuousEffects(present);
    EvaluationUnfolds(rules, start, effects, ctx);
    if order.Err? {
      return Err(DuplicateEffectId);
    }
    var ordered := order.value.0;
    var index := IndexOf(present);
    ghost var g0 := Progress(start, [], inapplicable);
    FullOrderIs(index);
    var applied: seq<string> := [];
    i := 0;
    assert ordered[..0] == [];
    while i < |ordered|
      invariant 0 <= i <= |ordered|
      invariant Progress(state.View(), applied, inapplicable) == Run(rules, ctx, index, ordered[..i], g0)
    {
      assert ordered[i] in ordered;
      var effect := index[ordered[i]];
      assert effect.id == ordered[i];
      RunStep(rules, ctx, index, ordered, i, g0);
      if Applicable(rules, ctx, effect, state.View()) {
        state.ApplyAll(rules, effect.operations);
        if effect.place == Copy1a {
          state.RecordCopiable(Snapshot(rules, state.View()));
        }
        applied := applied + [effect.id];
      } else {
        inapplicable := inapplicable + [effect.id];
      }
      i := i + 1;
    }
    assert ordered[..i] == ordered;
    return Ok(Evaluation(Snapshot(rules, state.View()), applied, order.value.1, inapplicable));
  }
}

/** The order of continuous effects in closed form (CR 613.3, CR 613.7, CR 613.8): for every two
    effects, which of them applies first. */
module LayerOrder {
  import opened Wrappers
  import opened Orders
  import opened Characteristics
  import opened EffectOrder
  import opened ContinuousEffects
  import opened EffectLaws

  // ----- keys in the effects' own fields -----

  /** Characteristic-defining effects come first, then earlier timestamps, then lesser ids. */
  predicate Earlier(index: Index, a: string, b: string)
    requires a in index && b in index
  {
    var e, f := index[a], index[b];
    if e.definesCharacteristics != f.definesCharacteristics then e.definesCharacteristics
    else if e.timestamp != f.timestamp then e.timestamp < f.timestamp
    else StrLess(a, b)
  }

  lemma KeysAreFields(index: Index, a: string, b: string)
    requires a in index && b in index
    ensures KeyLess(OrderKey(index)(a), OrderKey(index)(b)) <==> Earlier(index, a, b)
  {
    var p, q := OrderKey(index)(a).parts, OrderKey(index)(b).parts;
    TupLessIff(p, q);
    assert p[..0] == q[..0];
    assert p[0] == q[0] ==> p[..1] == q[..1];
    assert p[0] == q[0] && p[1] == q[1] ==> p[..2] == q[..2];
    forall k | 0 < k <= 3 && p[..k] == q[..k] ensures p[0] == q[0] && (k > 1 ==> p[1] == q[1]) {
      assert p[..k][0] == q[..k][0] && (k > 1 ==> p[..k][1] == q[..k][1]);
    }
    if p[..3] == q[..3] {
      assert p[..3][2] == q[..3][2];
      StrTrichotomy(a, b);
    }
  }

  // ----- waves -----

  /** How many batches are emitted before the effect's own. */
  ghost function Wave(index: Index, s: set<string>, id: string): nat
    requires s <= index.Keys && id in s
    decreases s
  {
    var ready := Ready(index, s);
    if ready == {} || id in ready then 0 else 1 + Wave(index, s - ready, id)
  }

  lemma WaveStep(index: Index, s: set<string>, id: string)
    requires s <= index.Keys && id in s && Ready(index, s) != {}
    ensures id in Ready(index, s) ==> Wave(index, s, id) == 0
    ensures id !in Ready(index, s) ==> Wave(index, s, id) == 1 + Wave(index, s - Ready(index, s), id)
  {
    hide Ready;
  }

  lemma WaveStuck(index: Index, s: set<string>, id: string)
    requires s <= index.Keys && id in s && Ready(index, s) == {}
    ensures Wave(index, s, id) == 0
  {
    hide Ready;
  }

  lemma OnlyInHead(head: seq<string>, tail: seq<string>, a: string, b: string)
    requires b !in tail
    ensures Precedes(head + tail, a, b) <==> Precedes(head, a, b)
  {
    if Precedes(head, a, b) {
      var i, j :| 0 <= i < j < |head| && head[i] == a && head[j] == b;
      assert (head + tail)[i] == a && (head + tail)[j] == b;
    }
    if Precedes(head + tail, a, b) {
      var i, j :| 0 <= i < j < |head + tail| && (head + tail)[i] == a && (head + tail)[j] == b;
      assert j >= |head| ==> tail[j - |head|] == b;
    }
  }

  lemma NotBack(head: seq<string>, tail: seq<string>, a: string, b: string)
    requires a !in head && b !in tail
    ensures !Precedes(head + tail, a, b)
  {
    OnlyInHead(head, tail, a, b);
  }

  /** The whole order: of two effects the one of the earlier batch applies first, and of two in
      one batch the one that the effects' own fields put earlier. */
  lemma {:induction false} PrecedesIff(index: Index, s: set<string>, a: string, b: string)
    requires s <= index.Keys && a in s && b in s && a != b
    ensures Precedes(Ordered(index, s), a, b) <==>
            || Wave(index, s, a) < Wave(index, s, b)
            || (Wave(index, s, a) == Wave(index, s, b) && Earlier(index, a, b))
    decreases s
  {
    hide InKeyOrder, Precedes, Ordered, Residue, OrderKey, KeyLess, Ready, Wave, Earlier;
    KeysAreFields(index, a, b);
    var ready := Ready(index, s);
    if ready == {} {
      Stuck(index, s);
      WaveStuck(index, s, a);
      WaveStuck(index, s, b);
      KeyOrderPrecedes(index, s, a, b);
    } else {
      Unfold(index, s);
      WaveStep(index, s, a);
      WaveStep(index, s, b);
      var head, tail := InKeyOrder(index, ready), Ordered(index, s - ready);
      OrderedIsPermutation(index, s - ready);
      if a in ready && b in ready {
        OnlyInHead(head, tail, a, b);
        KeyOrderPrecedes(index, ready, a, b);
      } else if a in ready {
        AcrossConcat(head, tail, a, b);
      } else if b in ready {
        NotBack(head, tail, a, b);
      } else {
        PrecedesIff(index, s - ready, a, b);
        OnlyInTail(head, tail, a, b);
      }
    }
  }

  lemma ReadyIs(index: Index, s: set<string>, id: string)
    requires s <= index.Keys && id in s
    ensures id in Ready(index, s) <==> index[id].dependsOn * s == {}
  {
  }

  /** The effect comes one batch after the last of its dependencies in the group, and in the first
      batch exactly when it has none. */
  ghost predicate OneAfterLast(index: Index, s: set<string>, id: string)
    requires s <= index.Keys && id in s
  {
    && (forall dep :: dep in index[id].dependsOn * s ==> Wave(index, s, dep) < Wave(index, s, id))
    && (Wave(index, s, id) == 0 <==> index[id].dependsOn * s == {})
    && (Wave(index, s, id) > 0 ==>
          exists dep :: dep in index[id].dependsOn * s && Wave(index, s, dep) + 1 == Wave(index, s, id))
  }

  lemma FirstBatch(index: Index, s: set<string>, id: string)
    requires s <= index.Keys && id in Ready(index, s)
    ensures OneAfterLast(index, s, id)
  {
    hide Wave;
    WaveStep(index, s, id);
  }

  lemma LaterBatch(index: Index, s: set<string>, id: string)
    requires s <= index.Keys && id in s && id !in Ready(index, s) && Ready(index, s) != {}
    requires OneAfterLast(index, s - Ready(index, s), id)
    ensures OneAfterLast(index, s, id)
  {
    hide Wave, Ready;
    var ready := Ready(index, s);
    var rest := s - ready;
    ReadyIs(index, s, id);
    WaveStep(index, s, id);
    forall dep | dep in index[id].dependsOn * s
      ensures Wave(index, s, dep) < Wave(index, s, id)
      ensures dep in rest ==> Wave(index, s, dep) == 1 + Wave(index, rest, dep)
    {
      WaveStep(index, s, dep);
    }
    if Wave(index, rest, id) > 0 {
      var dep :| dep in index[id].dependsOn * rest && Wave(index, rest, dep) + 1 == Wave(index, rest, id);
      assert dep in index[id].dependsOn * s;
    } else {
      var dep :| dep in index[id].dependsOn * s;
      assert dep !in index[id].dependsOn * rest;
      WaveStep(index, s, dep);
    }
  }

  /** An effect that is not stuck comes one batch after the last of its dependencies in the
      group; without any it is in the first batch. */
  lemma {:induction false} WaveIsDepth(index: Index, s: set<string>, id: string)
    requires s <= index.Keys && id in s && id !in Residue(index, s)
    ensures OneAfterLast(index, s, id)
    decreases s
  {
    hide Ordered, Residue, Wave, Ready, OneAfterLast;
    if Ready(index, s) == {} {
      Stuck(index, s);
      assert false;
    } else if id in Ready(index, s) {
      FirstBatch(index, s, id);
    } else {
      Unfold(index, s);
      WaveIsDepth(index, s - Ready(index, s), id);
      LaterBatch(index, s, id);
    }
  }

  /** What is stuck comes in one last batch. */
  lemma {:induction false} StuckComesLast(index: Index, s: set<string>, id: string, stuck: string)
    requires s <= index.Keys && id in s && stuck in Residue(index, s)
    ensures if id in Residue(index, s) then Wave(index, s, id) == Wave(index, s, stuck)
            else Wave(index, s, id) < Wave(index, s, stuck)
    decreases s
  {
    hide Ordered, Residue, Wave, Ready;
    var ready := Ready(index, s);
    if ready == {} {
      Stuck(index, s);
      WaveStuck(index, s, id);
      WaveStuck(index, s, stuck);
    } else {
      Unfold(index, s);
      WaveStep(index, s, id);
      WaveStep(index, s, stuck);
      if id !in ready { StuckComesLast(index, s - ready, id, stuck); }
    }
  }

  /** Effects that depend on nothing in the group: the order is that of the effects' own fields. */
  lemma FreeEffectsByFields(index: Index, s: set<string>, a: string, b: string)
    requires s <= index.Keys && a in s && b in s && a != b
    requires index[a].dependsOn * s == {} && index[b].dependsOn * s == {}
    ensures var e, f := index[a], index[b];
            Precedes(Ordered(index, s), a, b) <==>
            || (e.definesCharacteristics && !f.definesCharacteristics)
            || (e.definesCharacteristics == f.definesCharacteristics && e.timestamp < f.timestamp)
            || (e.definesCharacteristics == f.definesCharacteristics && e.timestamp == f.timestamp && StrLess(a, b))
  {
    hide Precedes, Ordered, Wave;
    PrecedesIff(index, s, a, b);
    assert a in Ready(index, s) && b in Ready(index, s);
    WaveStep(index, s, a);
    WaveStep(index, s, b);
  }

  /** Stuck effects: the same. */
  lemma StuckEffectsByFields(index: Index, s: set<string>, a: string, b: string)
    requires s <= index.Keys && a in Residue(index, s) && b in Residue(index, s) && a != b
    ensures var e, f := index[a], index[b];
            Precedes(Ordered(index, s), a, b) <==>
            || (e.definesCharacteristics && !f.definesCharacteristics)
            || (e.definesCharacteristics == f.definesCharacteristics && e.timestamp < f.timestamp)
            || (e.definesCharacteristics == f.definesCharacteristics && e.timestamp == f.timestamp && StrLess(a, b))
  {
    hide Precedes, Ordered, Residue, OrderKey, KeyLess;
    ResidueOrder(index, s, a, b);
    KeysAreFields(index, a, b);
  }

  // ----- across layers -----

  lemma {:induction false} PlacesOrder(index: Index, places: seq<Place>, i: nat, j: nat, a: string, b: string)
    requires Distinct(places) && i < |places| && j < |places|
    requires a in index && b in index && index[a].place == places[i] && index[b].place == places[j]
    ensures Precedes(OrderPlaces(index, places), a, b) <==>
            i < j || (i == j && Precedes(Ordered(index, At(index, places[i])), a, b))
  {
    hide Precedes, Ordered;
    var group, rest := At(index, places[0]), places[1..];
    var head, tail := Ordered(index, group), OrderPlaces(index, rest);
    OrderedIsPermutation(index, group);
    assert Distinct(rest) by {
      forall k, l | 0 <= k < l < |rest| ensures rest[k] != rest[l] { assert places[k + 1] != places[l + 1]; }
    }
    assert places[0] !in rest by {
      forall k | 0 <= k < |rest| ensures rest[k] != places[0] { assert places[k + 1] != places[0]; }
    }
    assert i > 0 ==> rest[i - 1] == places[i] && places[i] in rest;
    assert j > 0 ==> rest[j - 1] == places[j] && places[j] in rest;
    if i == 0 && j == 0 {
      OnlyInHead(head, tail, a, b);
    } else if i == 0 {
      AcrossConcat(head, tail, a, b);
    } else if j == 0 {
      NotBack(head, tail, a, b);
    } else {
      PlacesOrder(index, rest, i - 1, j - 1, a, b);
      OnlyInTail(head, tail, a, b);
    }
  }

  lemma FullOrderByPlace(index: Index, a: string, b: string)
    requires a in index && b in index
    ensures var p, q := index[a].place, index[b].place;
            Precedes(FullOrder(index), a, b) <==>
            Position(p) < Position(q) || (p == q && Precedes(Ordered(index, At(index, p)), a, b))
  {
    hide *;
    var p, q := index[a].place, index[b].place;
    PlacesAre(p, q);
    FullOrderIs(index);
    PlacesOrder(index, PLACES, Position(p), Position(q), a, b);
  }

  lemma PlacesAre(p: Place, q: Place)
    ensures Distinct(PLACES) && Position(p) < |PLACES| && Position(q) < |PLACES|
    ensures PLACES[Position(p)] == p && PLACES[Position(q)] == q && (Position(p) == Position(q) <==> p == q)
  {
    hide PlaceKey, KeyLess;
    PlacesSorted();
    SortedIsDistinct(ByKey(PlaceKey), PLACES);
  }

  /** Of any two effects, which applies first: the one in the earlier of the layers and sublayers
      1a, 1b, 2, 3, 4, 5, 6, 7a, 7b, 7c, 7d; inside one of them the one of the earlier batch; and
      inside a batch the one that the effects' own fields put earlier. */
  lemma AppliesFirstIff(index: Index, a: string, b: string)
    requires a in index && b in index && a != b
    ensures var p, q := index[a].place, index[b].place;
            Precedes(FullOrder(index), a, b) <==>
            || Position(p) < Position(q)
            || (p == q && Wave(index, At(index, p), a) < Wave(index, At(index, p), b))
            || (p == q && Wave(index, At(index, p), a) == Wave(index, At(index, p), b) && Earlier(index, a, b))
  {
    hide Precedes, Ordered, OrderPlaces, Wave, Earlier, FullOrder;
    FullOrderByPlace(index, a, b);
    if index[a].place == index[b].place {
      PrecedesIff(index, At(index, index[a].place), a, b);
    }
  }

  // ----- one and two effects -----

  lemma {:induction false} PlacesDistinct(index: Index, places: seq<Place>)
    requires Distinct(places)
    ensures Distinct(OrderPlaces(index, places))
  {
    hide Ordered;
    if places == [] {
    } else {
      var rest := places[1..];
      assert Distinct(rest) by {
        forall k, l | 0 <= k < l < |rest| ensures rest[k] != rest[l] { assert places[k + 1] != places[l + 1]; }
      }
      assert places[0] !in rest by {
        forall k | 0 <= k < |rest| ensures rest[k] != places[0] { assert places[k + 1] != places[0]; }
      }
      PlacesDistinct(index, rest);
      OrderedIsPermutation(index, At(index, places[0]));
      DistinctConcat(Ordered(index, At(index, places[0])), OrderPlaces(index, rest));
    }
  }

  /** Every effect applies once. */
  lemma FullOrderLists(index: Index)
    ensures Distinct(FullOrder(index)) && forall id :: id in FullOrder(index) <==> id in index
  {
    hide PlaceKey, KeyLess;
    PlacesSorted();
    SortedIsDistinct(ByKey(PlaceKey), PLACES);
    PlacesDistinct(index, PLACES);
    FullOrderIs(index);
  }

  lemma FewInOrder(s: seq<string>, a: string, b: string)
    requires Distinct(s) && a in s && forall x :: x in s ==> x == a || x == b
    ensures a == b || b !in s ==> s == [a]
    ensures a != b && Precedes(s, a, b) ==> s == [a, b]
  {
    ListingSize(s, if b in s then {a, b} else {a});
    assert s[0] in s && s[|s| - 1] in s;
  }

  lemma RunNone(rules: Rules, ctx: Context, index: Index, g: Progress)
    ensures Run(rules, ctx, index, [], g) == g
  {
  }

  lemma RunOne(rules: Rules, ctx: Context, index: Index, a: string, g: Progress)
    requires a in index
    ensures Run(rules, ctx, index, [a], g) == Step(rules, ctx, index[a], g)
  {
    hide Step;
    assert [a][..0] == [];
  }

  lemma RunTwo(rules: Rules, ctx: Context, index: Index, a: string, b: string, g: Progress)
    requires a in index && b in index
    ensures Run(rules, ctx, index, [a, b], g) == Step(rules, ctx, index[b], Step(rules, ctx, index[a], g))
  {
    hide Step;
    assert [a, b][..1] == [a];
    RunOne(rules, ctx, index, a, g);
  }

  lemma NoEffect()
    ensures Present([]) == [] && Absent([]) == [] && IndexOf([]) == map[]
  {
  }

  lemma OneEffect(e: Effect)
    ensures Present([e]) == if SourceAbsent(e) then [] else [e]
    ensures Absent([e]) == if SourceAbsent(e) then [e.id] else []
    ensures IndexOf([e]) == map[e.id := e]
  {
    hide Present, Absent, IndexOf, SourceAbsent;
    assert [e][..0] == [] && [e][..1] == [e];
    NoEffect();
    PresentStep([e], 0);
    IndexStep([e], 0);
  }

  /** The same characteristics with ability fragments in canonical form. */
  function Canonical(rules: Rules, t: Traits): Traits {
    Traits(t.face, t.kinds,
           Skills(t.skills.abilities, rules.canonicalFragments(t.skills.fragments), t.skills.activated), t.stats,
           t.copiable)
  }

  /** What one applied effect leaves: a copy effect records what it made of the object. */
  function Presented(rules: Rules, e: Effect, t: Traits): Traits {
    Canonical(rules, Traits(t.face, t.kinds, t.skills, t.stats,
                            if e.place == Copy1a then Some(Canonical(rules, t)) else t.copiable))
  }

  /** An effect applies to an object when its identity scope admits the object and its query matches
      the object's characteristics. */
  predicate Affects(rules: Rules, e: Effect, t: Traits, ctx: Context) {
    && (e.attachedTo.Some? ==>
          ctx.objectId == e.attachedTo.value.objectId && ctx.logicalId == e.attachedTo.value.logicalId)
    && (e.locked != {} ==>
          ctx.objectId != "" && ctx.logicalId != "" && Identity(ctx.objectId, ctx.logicalId) in e.locked)
    && rules.matches(e.applies, Row(t.face.name, t.face.controller, t.kinds.cardTypes, t.kinds.subtypes,
                                    t.kinds.supertypes, t.kinds.colors, t.skills.abilities,
                                    t.face.manaValue.Floor))
  }

  lemma LoneStep(rules: Rules, t: Traits, e: Effect, ctx: Context)
    ensures var g := Step(rules, ctx, e, Progress(t, [], []));
            && (Affects(rules, e, t, ctx) ==>
                  && g.applied == [e.id] && g.skipped == []
                  && Snapshot(rules, g.traits) == Presented(rules, e, AppliedAll(rules, t, e.operations)))
            && (!Affects(rules, e, t, ctx) ==>
                  g.applied == [] && g.skipped == [e.id] && Snapshot(rules, g.traits) == Canonical(rules, t))
  {
    hide AppliedAll;
  }

  /** One effect by itself: it applies exactly when its source is there if it must be and it affects
      the object; what is then presented is what its operations make of the object. */
  lemma LoneEffect(rules: Rules, t: Traits, e: Effect, ctx: Context)
    ensures var applies := (e.whileSourcePresent ==> e.sourcePresent) && Affects(rules, e, t, ctx);
            var r := EvaluationOf(rules, t, [e], ctx);
            && r.Ok?
            && r.value.applied == (if applies then [e.id] else [])
            && r.value.inapplicable == (if applies then [] else [e.id])
            && r.value.characteristics == (if applies then Presented(rules, e, AppliedAll(rules, t, e.operations))
                                           else Canonical(rules, t))
  {
    hide AppliedAll, CyclesAt, OrderPlaces, EvaluationOf, FullOrder, Run, Present, Absent, IndexOf, Step, Affects,
         Presented;
    OneEffect(e);
    NoEffect();
    EvaluationUnfolds(rules, t, [e], ctx);
    if SourceAbsent(e) {
      FullOrderLists(map[]);
      if FullOrder(map[]) != [] { NonEmptyHasElement(FullOrder(map[])); assert false; }
      RunNone(rules, ctx, map[], Progress(t, [], [e.id]));
    } else {
      var index := map[e.id := e];
      FullOrderLists(index);
      FewInOrder(FullOrder(index), e.id, e.id);
      RunOne(rules, ctx, index, e.id, Progress(t, [], []));
      LoneStep(rules, t, e, ctx);
    }
  }

  lemma TwoEffects(d: Effect, e: Effect)
    requires d.id != e.id && !SourceAbsent(d) && !SourceAbsent(e)
    ensures Present([d, e]) == [d, e] && Absent([d, e]) == [] && UniqueIds([d, e])
    ensures IndexOf([d, e]) == map[d.id := d, e.id := e]
  {
    hide Present, Absent, IndexOf, SourceAbsent;
    assert [d, e][..1] == [d] && [d, e][..2] == [d, e];
    OneEffect(d);
    PresentStep([d, e], 1);
    IndexStep([d, e], 1);
  }

  /** Two independent effects of one layer and sublayer. */
  predicate SideBySide(d: Effect, e: Effect) {
    && d.id != e.id && d.place == e.place
    && (d.whileSourcePresent ==> d.sourcePresent) && (e.whileSourcePresent ==> e.sourcePresent)
    && d.dependsOn * {d.id, e.id} == {} && e.dependsOn * {d.id, e.id} == {}
  }

  lemma DefinitionFirst(rules: Rules, t: Traits, d: Effect, e: Effect, ctx: Context)
    requires SideBySide(d, e) && d.definesCharacteristics && !e.definesCharacteristics
    ensures var g := Step(rules, ctx, e, Step(rules, ctx, d, Progress(t, [], [])));
            var r := EvaluationOf(rules, t, [d, e], ctx);
            r.Ok? && r.value.applied == g.applied && r.value.characteristics == Snapshot(rules, g.traits)
  {
    hide Step, Snapshot, CyclesAt, OrderPlaces, EvaluationOf, FullOrder, Run, Present, Absent, IndexOf, Ordered,
         Precedes;
    TwoEffects(d, e);
    EvaluationUnfolds(rules, t, [d, e], ctx);
    var index: Index := map[d.id := d, e.id := e];
    var group := At(index, d.place);
    assert group == {d.id, e.id};
    FullOrderByPlace(index, d.id, e.id);
    FreeEffectsByFields(index, group, d.id, e.id);
    FullOrderLists(index);
    FewInOrder(FullOrder(index), d.id, e.id);
    RunTwo(rules, ctx, index, d.id, e.id, Progress(t, [], []));
  }

  /** A characteristic-defining effect never undoes an ordinary one: whatever the defining effect
      does to the colours and whenever either began, the colours are those the ordinary effect
      sets. */
  lemma DefinitionIsOverridden(rules: Rules, t: Traits, d: Effect, e: Effect, words: set<string>, ctx: Context)
    requires SideBySide(d, e) && d.place == Color5 && d.definesCharacteristics && !e.definesCharacteristics
    requires e.operations == [SetColors(words)] && e.attachedTo == None && e.locked == {}
    requires forall row :: rules.matches(e.applies, row)
    ensures forall effects :: effects == [d, e] || effects == [e, d] ==>
              var r := EvaluationOf(rules, t, effects, ctx);
              r.Ok? && r.value.characteristics.kinds.colors == set w | w in words :: rules.upper(w)
  {
    hide EvaluationOf, Step;
    DefinitionFirst(rules, t, d, e, ctx);
    InputOrderIsIrrelevant(rules, t, ctx, [d, e], [e, d]);
    SetsColors(rules, ctx, e, words, Step(rules, ctx, d, Progress(t, [], [])));
  }

  lemma SetsColors(rules: Rules, ctx: Context, e: Effect, words: set<string>, g: Progress)
    requires e.operations == [SetColors(words)] && e.attachedTo == None && e.locked == {} && e.place == Color5
    requires forall row :: rules.matches(e.applies, row)
    ensures Snapshot(rules, Step(rules, ctx, e, g).traits).kinds.colors == set w | w in words :: rules.upper(w)
  {
    assert [SetColors(words)][..0] == [];
    assert AppliedAll(rules, g.traits, e.operations) == Applied(rules, g.traits, SetColors(words));
  }
}

/** Laws of evaluating continuous effects: input order is irrelevant, inert effects do not
    interfere. */
module EffectLaws {
  import opened Wrappers
  import opened Orders
  import opened Characteristics
  import opened EffectOrder
  import opened ContinuousEffects

  // ----- input order -----

  lemma {:induction false} PresentCount(effects: seq<Effect>, x: Effect)
    ensures multiset(Present(effects))[x] == if SourceAbsent(x) then 0 else multiset(effects)[x]
    decreases |effects|
  {
    if effects == [] {
    } else {
      var n := |effects| - 1;
      PresentCount(effects[..n], x);
      assert effects == effects[..n] + [effects[n]];
    }
  }

  lemma {:induction false} AbsentConcat(s: seq<Effect>, t: seq<Effect>)
    ensures Absent(s + t) == Absent(s) + Absent(t)
    decreases |t|
  {
    if t == [] {
      assert s + t == s;
    } else {
      var n := |t| - 1;
      AbsentConcat(s, t[..n]);
      assert (s + t)[..|s + t| - 1] == s + t[..n];
    }
  }

  lemma {:induction false} AbsentPermutes(s: seq<Effect>, t: seq<Effect>)
    requires multiset(s) == multiset(t)
    ensures multiset(Absent(s)) == multiset(Absent(t))
    decreases |s|
  {
    if s == [] {
      assert |t| == |multiset(t)| == 0;
    } else {
      var n := |s| - 1;
      var e := s[n];
      assert s == s[..n] + [e];
      assert e in multiset(t);
      var k :| 0 <= k < |t| && t[k] == e;
      var before, after := t[..k], t[k + 1..];
      assert t == before + [e] + after;
      CancelElement(s[..n], e, before, after);
      AbsentPermutes(s[..n], before + after);
      AbsentConcat(s[..n], [e]);
      AbsentConcat(before, after);
      AbsentConcat(before + [e], after);
      AbsentConcat(before, [e]);
    }
  }

  function IdKey(e: Effect): Key { Str(e.id) }

  lemma UniqueIdsPermute(s: seq<Effect>, t: seq<Effect>)
    requires multiset(s) == multiset(t) && UniqueIds(s)
    ensures UniqueIds(t)
  {
    assert UniqueKeys(IdKey, s);
    UniqueKeysPermute(IdKey, t, s);
    forall i, j | 0 <= i < j < |t| ensures t[i].id != t[j].id {
      assert IdKey(t[i]) != IdKey(t[j]);
    }
  }

  lemma IndexPermutes(s: seq<Effect>, t: seq<Effect>)
    requires multiset(s) == multiset(t) && UniqueIds(s) && UniqueIds(t)
    ensures IndexOf(s) == IndexOf(t)
  {
    SameMultiset(s, t);
    IndexHasAll(s);
    IndexHasAll(t);
    var x, y := IndexOf(s), IndexOf(t);
    forall id | id in x ensures id in y && x[id] == y[id] {
      assert x[id] in t;
    }
    forall id | id in y ensures id in x {
      assert y[id] in s;
    }
  }

  /** What was skipped before a run changes nothing but the list of what was skipped. */
  lemma {:induction false} RunSkipped(rules: Rules, ctx: Context, index: Index, ids: seq<string>, g: Progress,
                                      h: Progress)
    returns (more: seq<string>)
    requires forall id :: id in ids ==> id in index
    requires g.traits == h.traits && g.applied == h.applied
    ensures var a, b := Run(rules, ctx, index, ids, g), Run(rules, ctx, index, ids, h);
            && a.traits == b.traits && a.applied == b.applied
            && a.skipped == g.skipped + more && b.skipped == h.skipped + more
    decreases |ids|
  {
    if ids == [] {
      more := [];
    } else {
      var n := |ids| - 1;
      var before := RunSkipped(rules, ctx, index, ids[..n], g, h);
      var e := index[ids[n]];
      more := if Applicable(rules, ctx, e, Run(rules, ctx, index, ids[..n], g).traits) then before else before + [e.id];
    }
  }

  /** Permuting the effects changes neither the characteristics, nor the applied effects and
      their order, nor the cycles; the inapplicable effects are listed in another order. */
  lemma InputOrderIsIrrelevant(rules: Rules, t: Traits, ctx: Context, s: seq<Effect>, s': seq<Effect>)
    requires multiset(s) == multiset(s')
    ensures var r, r' := EvaluationOf(rules, t, s, ctx), EvaluationOf(rules, t, s', ctx);
            && (r.Ok? <==> r'.Ok?)
            && (r.Ok? ==>
                  && r.value.characteristics == r'.value.characteristics
                  && r.value.applied == r'.value.applied
                  && r.value.cycles == r'.value.cycles
                  && multiset(r.value.inapplicable) == multiset(r'.value.inapplicable))
  {
    hide Run, IndexOf, OrderPlaces, CyclesAt, Present, Absent;
    forall x ensures multiset(Present(s))[x] == multiset(Present(s'))[x] {
      PresentCount(s, x);
      PresentCount(s', x);
    }
    assert multiset(Present(s)) == multiset(Present(s'));
    AbsentPermutes(s, s');
    if UniqueIds(Present(s)) {
      UniqueIdsPermute(Present(s), Present(s'));
      IndexPermutes(Present(s), Present(s'));
      var index := IndexOf(Present(s));
      var more := RunSkipped(rules, ctx, index, OrderPlaces(index, PLACES),
                             Progress(t, [], Absent(s)), Progress(t, [], Absent(s')));
    } else if UniqueIds(Present(s')) {
      UniqueIdsPermute(Present(s'), Present(s));
      assert false;
    }
  }

  // ----- inert effects -----

  ghost predicate Agree(index: Index, other: Index, s: set<string>) {
    s <= index.Keys && s <= other.Keys && forall id :: id in s ==> index[id] == other[id]
  }

  lemma KeyOrderFrame(index: Index, other: Index, s: set<string>)
    requires Agree(index, other, s)
    ensures InKeyOrder(index, s) == InKeyOrder(other, s)
  {
    hide KeyLess;
    var key, r := OrderKey(index), InKeyOrder(other, s);
    ByKeyOrder(key);
    OrderKeyInjective(other, s);
    OrderKeyInjective(index, s);
    forall id | id in s ensures OrderKey(index)(id) == OrderKey(other)(id) {
    }
    assert Sorted(ByKey(OrderKey(other)), r);
    SameKeysSorted(key, OrderKey(other), r);
    SortedUnique(ByKey(key), InKeyOrder(index, s), r);
  }

  lemma SameKeysSorted(key: string -> Key, other: string -> Key, r: seq<string>)
    requires Sorted(ByKey(other), r) && forall id :: id in r ==> key(id) == other(id)
    ensures Sorted(ByKey(key), r)
  {
    hide KeyLess;
    forall i, j | 0 <= i < j < |r| ensures ByKey(key)(r[i], r[j]) {
      assert ByKey(other)(r[i], r[j]);
    }
  }

  lemma {:induction false} OrderFrame(index: Index, other: Index, s: set<string>)
    requires Agree(index, other, s)
    ensures Ordered(index, s) == Ordered(other, s)
    decreases s
  {
    hide InKeyOrder, Ordered;
    var ready := Ready(index, s);
    assert ready == Ready(other, s);
    if ready == {} {
      Stuck(index, s);
      Stuck(other, s);
      KeyOrderFrame(index, other, s);
    } else {
      Unfold(index, s);
      Unfold(other, s);
      KeyOrderFrame(index, other, ready);
      OrderFrame(index, other, s - ready);
    }
  }

  /** No effect of the index depends on `id`. */
  ghost predicate NobodyDepends(index: Index, id: string) {
    forall x :: x in index ==> id !in index[x].dependsOn
  }

  lemma OrderWithNewcomer(index: Index, e: Effect, p: Place)
    requires e.id !in index && NobodyDepends(index, e.id)
    ensures var more := index[e.id := e];
            Without(Ordered(more, At(more, p)), e.id) == Ordered(index, At(index, p))
  {
    hide Ordered, Without, InKeyOrder;
    var more := index[e.id := e];
    var group := At(more, p);
    AtGrows(index, e, p);
    if p == e.place {
      assert Independent(more, group, e.id);
      OrderWithout(more, group, e.id);
      assert group - {e.id} == At(index, p);
    } else {
      assert group == At(index, p);
      OrderedIsPermutation(more, group);
      WithoutAbsent(Ordered(more, group), e.id);
    }
    OrderFrame(index, more, At(index, p));
  }

  lemma {:induction false} PlacesWithNewcomer(index: Index, e: Effect, places: seq<Place>)
    requires e.id !in index && NobodyDepends(index, e.id)
    ensures Without(OrderPlaces(index[e.id := e], places), e.id) == OrderPlaces(index, places)
  {
    hide Ordered, At;
    if places == [] {
    } else {
      var more := index[e.id := e];
      OrderWithNewcomer(index, e, places[0]);
      PlacesWithNewcomer(index, e, places[1..]);
      WithoutConcat(Ordered(more, At(more, places[0])), OrderPlaces(more, places[1..]), e.id);
    }
  }

  /** Two runs agree on what they made of the object and on what they applied. */
  predicate Alike(g: Progress, h: Progress) {
    g.traits == h.traits && g.applied == h.applied
  }

  lemma StepAlike(rules: Rules, ctx: Context, e: Effect, g: Progress, h: Progress)
    requires Alike(g, h)
    ensures Alike(Step(rules, ctx, e, g), Step(rules, ctx, e, h))
    ensures !InScope(ctx, e) ==> Alike(Step(rules, ctx, e, g), h)
  {
    hide AfterEffect;
  }

  lemma {:induction false} RunWithInert(rules: Rules, ctx: Context, index: Index, e: Effect, ids: seq<string>,
                                        g: Progress)
    requires e.id !in index && !InScope(ctx, e)
    requires forall id :: id in ids ==> id == e.id || id in index
    ensures Alike(Run(rules, ctx, index[e.id := e], ids, g), Run(rules, ctx, index, Without(ids, e.id), g))
    decreases |ids|
  {
    hide Alike, Step, InScope, Without;
    if ids == [] {
      RunNothing(rules, ctx, index, e, g);
    } else {
      var n := |ids| - 1;
      var front, last := ids[..n], ids[n];
      var others := Without(front, e.id);
      RunWithInert(rules, ctx, index, e, front, g);
      assert ids == front + [last];
      WithoutConcat(front, [last], e.id);
      WithoutOne(last, e.id);
      var a, b := Run(rules, ctx, index[e.id := e], front, g), Run(rules, ctx, index, others, g);
      StepAlike(rules, ctx, index[e.id := e][last], a, b);
      if last == e.id {
        assert others + [] == others;
      } else {
        assert (others + [last])[..|others|] == others;
      }
    }
  }

  lemma RunNothing(rules: Rules, ctx: Context, index: Index, e: Effect, g: Progress)
    ensures Alike(Run(rules, ctx, index[e.id := e], [], g), Run(rules, ctx, index, Without([], e.id), g))
  {
  }

  lemma WithoutOne(x: string, id: string)
    ensures Without([x], id) == if x == id then [] else [x]
  {
    assert [x][1..] == [];
  }

  /** Two evaluations agree on characteristics and applied effects. */
  predicate SameOutcome(r: Result<Evaluation, Error>, r': Result<Evaluation, Error>) {
    && (r.Ok? <==> r'.Ok?)
    && (r.Ok? ==> r.value.characteristics == r'.value.characteristics && r.value.applied == r'.value.applied)
  }

  lemma NewcomerAbsent(rules: Rules, t: Traits, ctx: Context, s: seq<Effect>, e: Effect)
    requires SourceAbsent(e)
    ensures SameOutcome(EvaluationOf(rules, t, s, ctx), EvaluationOf(rules, t, s + [e], ctx))
  {
    hide Run, OrderPlaces, CyclesAt, IndexOf, UniqueIds;
    assert (s + [e])[..|s|] == s;
    assert Present(s + [e]) == Present(s);
    if UniqueIds(Present(s)) {
      var index := IndexOf(Present(s));
      var more := RunSkipped(rules, ctx, index, OrderPlaces(index, PLACES),
                             Progress(t, [], Absent(s)), Progress(t, [], Absent(s + [e])));
    }
  }

  lemma {:induction false} PresentMember(s: seq<Effect>, x: Effect)
    requires x in Present(s)
    ensures x in s && !SourceAbsent(x)
    decreases |s|
  {
    var n := |s| - 1;
    if x in Present(s[..n]) {
      PresentMember(s[..n], x);
    }
  }

  lemma NewcomerPresent(rules: Rules, t: Traits, ctx: Context, s: seq<Effect>, e: Effect)
    requires !SourceAbsent(e) && !InScope(ctx, e)
    requires forall x :: x in s && !SourceAbsent(x) ==> x.id != e.id && e.id !in x.dependsOn
    ensures SameOutcome(EvaluationOf(rules, t, s, ctx), EvaluationOf(rules, t, s + [e], ctx))
  {
    hide Run, OrderPlaces, CyclesAt, InScope, UniqueIds, Without, Present, Absent, EvaluationOf, Snapshot;
    var present := Present(s);
    forall x | x in present ensures x in s && !SourceAbsent(x) { PresentMember(s, x); }
    assert (s + [e])[..|s|] == s && (s + [e])[..|s| + 1] == s + [e];
    PresentStep(s + [e], |s|);
    assert Present(s + [e]) == present + [e] && Absent(s + [e]) == Absent(s);
    UniqueAppend(present, e);
    EvaluationUnfolds(rules, t, s, ctx);
    EvaluationUnfolds(rules, t, s + [e], ctx);
    if UniqueIds(present) {
      var index := IndexOf(present);
      IndexStep(present + [e], |present|);
      assert (present + [e])[..|present|] == present && (present + [e])[..|present| + 1] == present + [e];
      IndexIds(present, e.id);
      assert IndexOf(present + [e]) == index[e.id := e];
      PlacesWithNewcomer(index, e, PLACES);
      FullOrderIs(index);
      FullOrderIs(index[e.id := e]);
      RunWithInert(rules, ctx, index, e, OrderPlaces(index[e.id := e], PLACES), Progress(t, [], Absent(s)));
    }
  }

  lemma UniqueAppend(s: seq<Effect>, e: Effect)
    requires forall x :: x in s ==> x.id != e.id
    ensures UniqueIds(s + [e]) <==> UniqueIds(s)
  {
    if UniqueIds(s + [e]) { PrefixUnique(s, e); }
  }

  lemma PrefixUnique(s: seq<Effect>, e: Effect)
    requires UniqueIds(s + [e])
    ensures UniqueIds(s)
  {
    forall i, j | 0 <= i < j < |s| ensures s[i].id != s[j].id {
      assert (s + [e])[i].id != (s + [e])[j].id;
    }
  }

  /** An inert effect may be added anywhere, and the characteristics and the applied effects stay
      as they were: one whose source is absent always, and one that is out of scope when no effect
      with a present source shares its id or depends on it. */
  lemma InertEffectsDoNotInterfere(rules: Rules, t: Traits, ctx: Context, s: seq<Effect>, k: nat, e: Effect)
    requires k <= |s| && ((e.whileSourcePresent && !e.sourcePresent) || !InScope(ctx, e))
    requires (e.whileSourcePresent && !e.sourcePresent)
             || forall x :: x in s && (x.whileSourcePresent ==> x.sourcePresent) ==>
                  x.id != e.id && e.id !in x.dependsOn
    ensures var r, r' := EvaluationOf(rules, t, s, ctx), EvaluationOf(rules, t, s[..k] + [e] + s[k..], ctx);
            && (r.Ok? <==> r'.Ok?)
            && (r.Ok? ==>
                  r.value.characteristics == r'.value.characteristics && r.value.applied == r'.value.applied)
  {
    hide EvaluationOf;
    assert s == s[..k] + s[k..];
    InputOrderIsIrrelevant(rules, t, ctx, s[..k] + [e] + s[k..], s + [e]);
    if SourceAbsent(e) {
      NewcomerAbsent(rules, t, ctx, s, e);
    } else {
      NewcomerPresent(rules, t, ctx, s, e);
    }
  }
}

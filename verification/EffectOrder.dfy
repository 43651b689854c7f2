/** Order of continuous effects (CR 613): by layer and sublayer, and inside one of them by
    dependency, with whatever dependency cannot order falling back to timestamps. */
module EffectOrder {
  import opened Wrappers
  import opened Orders
  import opened Characteristics

  /** Layers with their sublayers. */
  datatype Place =
    | Copy1a | Copy1b | Control2 | Text3 | Type4 | Color5 | Ability6
    | Power7a | Power7b | Power7c | Power7d

  const PLACES: seq<Place> :=
    [Copy1a, Copy1b, Control2, Text3, Type4, Color5, Ability6, Power7a, Power7b, Power7c, Power7d]

  function Layer(p: Place): nat {
    match p
    case Copy1a => 1 case Copy1b => 1 case Control2 => 2 case Text3 => 3 case Type4 => 4 case Color5 => 5
    case Ability6 => 6 case Power7a => 7 case Power7b => 7 case Power7c => 7 case Power7d => 7
  }

  function SublayerRank(p: Place): nat {
    match p
    case Copy1b => 1 case Power7b => 1 case Power7c => 2 case Power7d => 3
    case _ => 0
  }

  function PlaceKey(p: Place): Key { Tup([Num(Layer(p)), Num(SublayerRank(p))]) }

  datatype Identity = Identity(objectId: string, logicalId: string)

  datatype Effect = Effect(
    id: string,
    place: Place,
    timestamp: nat,
    operations: seq<Operation>,
    dependsOn: set<string>,
    definesCharacteristics: bool,
    whileSourcePresent: bool,
    sourcePresent: bool,
    applies: Query,
    locked: set<Identity>,
    attachedTo: Option<Identity>)

  /** Effects by their unique ids. */
  type Index = map<string, Effect>

  ghost predicate WellIndexed(index: Index) {
    forall id :: id in index ==> index[id].id == id
  }

  /** Characteristic-defining effects first, then timestamp, then id. */
  function OrderKey(index: Index): string -> Key {
    id => if id in index
          then Tup([Num(if index[id].definesCharacteristics then 0 else 1), Num(index[id].timestamp), Str(id)])
          else Tup([Num(2), Num(0), Str(id)])
  }

  lemma OrderKeyInjective(index: Index, s: set<string>)
    ensures InjectiveOn(OrderKey(index), s)
  {
    forall x, y | x in s && y in s && OrderKey(index)(x) == OrderKey(index)(y) ensures x == y {
      assert OrderKey(index)(x).parts[2] == Str(x) && OrderKey(index)(y).parts[2] == Str(y);
    }
  }

  function InKeyOrder(index: Index, s: set<string>): (r: seq<string>)
    ensures forall x :: x in r <==> x in s
    ensures Distinct(r)
  {
    OrderKeyInjective(index, s);
    ByKeyOrder(OrderKey(index));
    var r := SortSet(OrderKey(index), s);
    SortedIsDistinct(ByKey(OrderKey(index)), r);
    r
  }

  // ----- dependency order inside one group -----

  /** Effects that depend on no remaining effect. */
  function Ready(index: Index, remaining: set<string>): (r: set<string>)
    requires remaining <= index.Keys
    ensures r <= remaining
  {
    set id | id in remaining && index[id].dependsOn * remaining == {}
  }

  function Ordered(index: Index, remaining: set<string>): (r: seq<string>)
    requires remaining <= index.Keys
    decreases remaining
  {
    if remaining == {} then []
    else
      var ready := Ready(index, remaining);
      if ready != {} then InKeyOrder(index, ready) + Ordered(index, remaining - ready)
      else InKeyOrder(index, remaining)
  }

  /** What is left when no remaining effect is ready. */
  function Residue(index: Index, remaining: set<string>): (r: set<string>)
    requires remaining <= index.Keys
    ensures r <= remaining
    decreases remaining
  {
    if remaining == {} || Ready(index, remaining) == {} then remaining
    else Residue(index, remaining - Ready(index, remaining))
  }

  /** The loop that repeatedly emits what is ready, and reports a stuck rest as a cycle. */
  method DependencyOrder(index: Index, group: set<string>) returns (ordered: seq<string>, cycles: seq<seq<string>>)
    requires group <= index.Keys
    ensures ordered == Ordered(index, group)
    ensures cycles == if Residue(index, group) == {} then [] else [InKeyOrder(index, Residue(index, group))]
  {
    hide InKeyOrder, Ready;
    var remaining := group;
    ordered, cycles := [], [];
    while remaining != {}
      invariant remaining <= group
      invariant cycles == [] || (remaining == {} && cycles == [InKeyOrder(index, Residue(index, group))])
      invariant cycles == [] ==> Residue(index, remaining) == Residue(index, group)
      invariant cycles != [] ==> Residue(index, group) != {}
      invariant ordered + Ordered(index, remaining) == Ordered(index, group)
      decreases remaining
    {
      var ready := Ready(index, remaining);
      if ready != {} {
        ordered := ordered + InKeyOrder(index, ready);
        remaining := remaining - ready;
      } else {
        var cycle := InKeyOrder(index, remaining);
        cycles := cycles + [cycle];
        ordered := ordered + cycle;
        remaining := {};
      }
    }
  }

  /** The order is a permutation of the group. */
  lemma {:induction false} OrderedIsPermutation(index: Index, s: set<string>)
    requires s <= index.Keys
    ensures forall id :: id in Ordered(index, s) <==> id in s
    ensures Distinct(Ordered(index, s))
    decreases s
  {
    hide Ordered, InKeyOrder, Ready;
    if Ready(index, s) == {} {
      Stuck(index, s);
    } else {
      Unfold(index, s);
      OrderedIsPermutation(index, s - Ready(index, s));
      DistinctConcat(InKeyOrder(index, Ready(index, s)), Ordered(index, s - Ready(index, s)));
    }
  }

  lemma DistinctConcat(s: seq<string>, t: seq<string>)
    requires Distinct(s) && Distinct(t) && forall x :: x in s ==> x !in t
    ensures Distinct(s + t)
  {
    forall i, j | 0 <= i < j < |s + t| ensures (s + t)[i] != (s + t)[j] {
      if i < |s| <= j { assert s[i] in s && t[j - |s|] in t; }
    }
  }

  /** `a` comes before `b` in `s`. */
  ghost predicate Precedes(s: seq<string>, a: string, b: string) {
    exists i, j :: 0 <= i < j < |s| && s[i] == a && s[j] == b
  }

  /** Outside the residue every effect follows all its dependencies in the group. */
  lemma {:induction false} DependenciesComeFirst(index: Index, s: set<string>, id: string, dep: string)
    requires s <= index.Keys && id in s && dep in s
    requires dep in index[id].dependsOn && id !in Residue(index, s)
    ensures Precedes(Ordered(index, s), dep, id)
    decreases s
  {
    hide InKeyOrder, Precedes, Ordered, Residue;
    var ready := Ready(index, s);
    assert dep in index[id].dependsOn * s;
    if ready == {} {
      Stuck(index, s);
      assert false;
    }
    Unfold(index, s);
    var head, tail := InKeyOrder(index, ready), Ordered(index, s - ready);
    if dep in ready {
      OrderedIsPermutation(index, s - ready);
      AcrossConcat(head, tail, dep, id);
    } else {
      DependenciesComeFirst(index, s - ready, id, dep);
      InTail(head, tail, dep, id);
    }
  }

  lemma AcrossConcat(head: seq<string>, tail: seq<string>, a: string, b: string)
    requires a in head && b in tail
    ensures Precedes(head + tail, a, b)
  {
    var i :| 0 <= i < |head| && head[i] == a;
    var j :| 0 <= j < |tail| && tail[j] == b;
    assert (head + tail)[i] == a && (head + tail)[|head| + j] == b;
  }

  lemma InTail(head: seq<string>, tail: seq<string>, a: string, b: string)
    requires Precedes(tail, a, b)
    ensures Precedes(head + tail, a, b)
  {
    var i, j :| 0 <= i < j < |tail| && tail[i] == a && tail[j] == b;
    assert (head + tail)[|head| + i] == a && (head + tail)[|head| + j] == b;
  }

  /** Every member depends on a member. */
  ghost predicate SelfSupporting(index: Index, u: set<string>)
    requires u <= index.Keys
  {
    forall id :: id in u ==> index[id].dependsOn * u != {}
  }

  /** The residue is self-supporting and contains every self-supporting part of the group. */
  lemma {:induction false} ResidueIsLargest(index: Index, s: set<string>)
    requires s <= index.Keys
    ensures SelfSupporting(index, Residue(index, s))
    ensures forall u :: u <= s && SelfSupporting(index, u) ==> u <= Residue(index, s)
    decreases s
  {
    var ready := Ready(index, s);
    if s == {} || ready == {} {
      forall id | id in s ensures index[id].dependsOn * s != {} {
        assert id !in ready;
      }
    } else {
      ResidueIsLargest(index, s - ready);
      forall u | u <= s && SelfSupporting(index, u) ensures u <= s - ready {
        forall id | id in u ensures id !in ready {
          assert index[id].dependsOn * u <= index[id].dependsOn * s;
        }
      }
    }
  }

  /** A dependency walk inside `s`: each effect depends on the next. */
  ghost predicate Walk(index: Index, s: set<string>, w: seq<string>)
    requires s <= index.Keys
  {
    && (forall i :: 0 <= i < |w| ==> w[i] in s)
    && forall i :: 0 <= i < |w| - 1 ==> w[i + 1] in index[w[i]].dependsOn
  }

  ghost predicate Cycle(index: Index, s: set<string>, w: seq<string>)
    requires s <= index.Keys
  {
    |w| >= 2 && Walk(index, s, w) && w[0] == w[|w| - 1]
  }

  lemma {:induction false} WalkOfLength(index: Index, u: set<string>, n: nat) returns (w: seq<string>)
    requires u <= index.Keys && u != {} && SelfSupporting(index, u)
    ensures |w| == n + 1 && Walk(index, u, w)
  {
    if n == 0 {
      var id :| id in u;
      w := [id];
    } else {
      var v := WalkOfLength(index, u, n - 1);
      var last := v[n - 1];
      assert last in u && index[last].dependsOn * u != {};
      var next :| next in index[last].dependsOn * u;
      w := v + [next];
      forall i | 0 <= i < n ensures w[i + 1] in index[w[i]].dependsOn {
        if i < n - 1 { assert w[i] == v[i] && w[i + 1] == v[i + 1]; }
      }
    }
  }

  lemma {:induction false} Pigeonhole(w: seq<string>, u: set<string>)
    requires |w| > |u| && forall i :: 0 <= i < |w| ==> w[i] in u
    ensures exists i, j :: 0 <= i < j < |w| && w[i] == w[j]
    decreases |w|
  {
    if w == [] {
    } else {
      var last := w[|w| - 1];
      if last in w[..|w| - 1] {
        var i :| 0 <= i < |w| - 1 && w[i] == last;
        assert w[i] == w[|w| - 1];
      } else {
        var front := w[..|w| - 1];
        forall i | 0 <= i < |front| ensures front[i] in u - {last} {
          assert front[i] in front;
        }
        Pigeonhole(front, u - {last});
        var i, j :| 0 <= i < j < |front| && front[i] == front[j];
        assert w[i] == w[j];
      }
    }
  }

  lemma CycleSupportsItself(index: Index, s: set<string>, w: seq<string>)
    requires s <= index.Keys && Cycle(index, s, w)
    ensures var u := set id | id in w; u <= s && u != {} && SelfSupporting(index, u)
  {
    var u := set id | id in w;
    assert w[0] in u;
    forall id | id in u ensures index[id].dependsOn * u != {} {
      var i :| 0 <= i < |w| && w[i] == id;
      var k := if i < |w| - 1 then i else 0;
      assert w[k] == id && w[k + 1] in index[w[k]].dependsOn && w[k + 1] in u;
      assert w[k + 1] in index[id].dependsOn * u;
    }
  }

  lemma SelfSupportHasCycle(index: Index, s: set<string>, u: set<string>) returns (cycle: seq<string>)
    requires s <= index.Keys && u <= s && u != {} && SelfSupporting(index, u)
    ensures Cycle(index, s, cycle)
  {
    hide SelfSupporting;
    var w := WalkOfLength(index, u, |u|);
    Pigeonhole(w, u);
    var i, j :| 0 <= i < j < |w| && w[i] == w[j];
    cycle := w[i..j + 1];
    forall k | 0 <= k < |cycle| ensures cycle[k] in s {
      assert cycle[k] == w[i + k];
    }
    forall k | 0 <= k < |cycle| - 1 ensures cycle[k + 1] in index[cycle[k]].dependsOn {
      assert cycle[k] == w[i + k] && cycle[k + 1] == w[i + k + 1];
    }
  }

  /** A cycle is reported exactly when the dependencies inside the group are cyclic. */
  lemma ResidueIffCycle(index: Index, s: set<string>)
    requires s <= index.Keys
    ensures Residue(index, s) != {} <==> exists w :: Cycle(index, s, w)
  {
    hide Residue, SelfSupporting, Cycle;
    ResidueIsLargest(index, s);
    if Residue(index, s) != {} {
      var w := SelfSupportHasCycle(index, s, Residue(index, s));
    }
    if w :| Cycle(index, s, w) {
      CycleSupportsItself(index, s, w);
    }
  }

  // ----- what is stuck without being on a cycle -----

  ghost predicate LiesOnCycle(index: Index, s: set<string>, id: string)
    requires s <= index.Keys
  {
    exists w :: Cycle(index, s, w) && id in w
  }

  /** The effects of the group that lie on a cycle inside it. */
  ghost function Looped(index: Index, s: set<string>): set<string>
    requires s <= index.Keys
  {
    set id | id in s && LiesOnCycle(index, s, id)
  }

  lemma LoopedIsStuck(index: Index, s: set<string>)
    requires s <= index.Keys
    ensures Looped(index, s) <= Residue(index, s)
  {
    hide Residue, SelfSupporting, Cycle;
    ResidueIsLargest(index, s);
    forall id | id in Looped(index, s) ensures id in Residue(index, s) {
      var w :| Cycle(index, s, w) && id in w;
      CycleSupportsItself(index, s, w);
      assert id in set x | x in w;
    }
  }

  /** What is stuck is just the loops exactly when every effect that depends on a looped effect
      is looped itself. */
  lemma ResidueIsLoopsIff(index: Index, s: set<string>)
    requires s <= index.Keys
    ensures Residue(index, s) == Looped(index, s) <==>
            forall id :: id in s && index[id].dependsOn * Looped(index, s) != {} ==> id in Looped(index, s)
  {
    hide Residue, Looped;
    var stuck, loops := Residue(index, s), Looped(index, s);
    ResidueIsLargest(index, s);
    LoopedIsStuck(index, s);
    if stuck == loops {
      forall id | id in s && index[id].dependsOn * loops != {} ensures id in loops {
        StuckAlong(index, s, id);
      }
    } else if forall id :: id in s && index[id].dependsOn * loops != {} ==> id in loops {
      UnloopedSupport(index, s);
      assert false;
    }
  }

  /** Whatever depends on something stuck is stuck. */
  lemma StuckAlong(index: Index, s: set<string>, id: string)
    requires s <= index.Keys && id in s && index[id].dependsOn * Residue(index, s) != {}
    ensures id in Residue(index, s)
  {
    hide Residue, SelfSupporting;
    ResidueIsLargest(index, s);
    var u := Residue(index, s) + {id};
    SupportExtends(index, Residue(index, s), id);
    assert u <= Residue(index, s);
    assert id in u;
  }

  lemma SupportExtends(index: Index, u: set<string>, id: string)
    requires u <= index.Keys && id in index && SelfSupporting(index, u) && index[id].dependsOn * u != {}
    ensures SelfSupporting(index, u + {id})
  {
    forall x | x in u + {id} ensures index[x].dependsOn * (u + {id}) != {} {
      assert index[x].dependsOn * u <= index[x].dependsOn * (u + {id});
    }
  }

  lemma SupportHoldsLoop(index: Index, s: set<string>, u: set<string>)
    requires u <= s <= index.Keys && u != {} && SelfSupporting(index, u)
    ensures exists id :: id in u && id in Looped(index, s)
  {
    hide Cycle, SelfSupporting;
    var w := SelfSupportHasCycle(index, u, u);
    CycleWidens(index, u, s, w);
    assert LiesOnCycle(index, s, w[0]);
  }

  /** If only looped effects depend on looped ones, what is stuck without being looped would
      support itself, and so would hold a loop of its own. */
  lemma UnloopedSupport(index: Index, s: set<string>)
    requires s <= index.Keys
    requires forall id :: id in s && index[id].dependsOn * Looped(index, s) != {} ==> id in Looped(index, s)
    ensures Residue(index, s) <= Looped(index, s)
  {
    hide Residue, Looped;
    ResidueIsLargest(index, s);
    var u := Residue(index, s) - Looped(index, s);
    forall id | id in u ensures index[id].dependsOn * u != {} {
      assert id in s && id !in Looped(index, s);
      assert index[id].dependsOn * Looped(index, s) == {};
      assert index[id].dependsOn * Residue(index, s) != {};
      forall y | y in index[id].dependsOn * Residue(index, s) ensures y in index[id].dependsOn * u {
        assert y !in index[id].dependsOn * Looped(index, s);
      }
    }
    if u != {} {
      SupportHoldsLoop(index, s, u);
      assert false;
    }
  }

  lemma CycleWidens(index: Index, u: set<string>, s: set<string>, w: seq<string>)
    requires u <= s <= index.Keys && Cycle(index, u, w)
    ensures Cycle(index, s, w) && w != [] && w[0] in w && w[0] in u
  {
  }

  /** Inside the residue the order is that of the keys; the rest of the group comes first. */
  lemma {:induction false} ResidueOrder(index: Index, s: set<string>, a: string, b: string)
    requires s <= index.Keys && a in s && b in Residue(index, s) && a != b
    ensures Precedes(Ordered(index, s), a, b) <==>
            (a in Residue(index, s) ==> KeyLess(OrderKey(index)(a), OrderKey(index)(b)))
    decreases s
  {
    hide InKeyOrder, Precedes, Ordered, Residue, OrderKey, KeyLess;
    var ready := Ready(index, s);
    if ready == {} {
      Stuck(index, s);
      KeyOrderPrecedes(index, s, a, b);
    } else {
      Unfold(index, s);
      var head, tail := InKeyOrder(index, ready), Ordered(index, s - ready);
      OrderedIsPermutation(index, s - ready);
      if a in ready {
        AcrossConcat(head, tail, a, b);
      } else {
        ResidueOrder(index, s - ready, a, b);
        OnlyInTail(head, tail, a, b);
      }
    }
  }

  lemma OnlyInTail(head: seq<string>, tail: seq<string>, a: string, b: string)
    requires a !in head
    ensures Precedes(head + tail, a, b) <==> Precedes(tail, a, b)
  {
    if Precedes(tail, a, b) { InTail(head, tail, a, b); }
    if Precedes(head + tail, a, b) {
      var i, j :| 0 <= i < j < |head + tail| && (head + tail)[i] == a && (head + tail)[j] == b;
      assert i >= |head|;
      assert tail[i - |head|] == a && tail[j - |head|] == b;
    }
  }

  lemma KeyOrderPrecedes(index: Index, s: set<string>, a: string, b: string)
    requires a in s && b in s && a != b
    ensures Precedes(InKeyOrder(index, s), a, b) <==> KeyLess(OrderKey(index)(a), OrderKey(index)(b))
  {
    hide OrderKey, KeyLess;
    var key := OrderKey(index);
    OrderKeyInjective(index, s);
    var r := InKeyOrder(index, s);
    assert Sorted(ByKey(key), r);
    var i :| 0 <= i < |r| && r[i] == a;
    var j :| 0 <= j < |r| && r[j] == b;
    KeyTrichotomy(key(a), key(b));
    if i < j {
      assert ByKey(key)(r[i], r[j]);
    } else {
      assert ByKey(key)(r[j], r[i]);
    }
  }

  /** Whoever depends on itself is looped. */
  lemma SelfDependence(index: Index, s: set<string>, id: string)
    requires s <= index.Keys && id in s && id in index[id].dependsOn
    ensures id in Looped(index, s)
  {
    var w := [id, id];
    assert Cycle(index, s, w) && w[0] in w;
  }

  /** An effect applies after everything it depends on. */
  ghost predicate Follows(index: Index, s: set<string>, id: string)
    requires s <= index.Keys && id in s
  {
    forall dep :: dep in s && dep in index[id].dependsOn ==> Precedes(Ordered(index, s), dep, id)
  }

  /** The effect's key comes after the key of everything stuck that it depends on. */
  ghost predicate KeyFollows(index: Index, s: set<string>, id: string)
    requires s <= index.Keys && id in s
  {
    forall dep :: dep in Residue(index, s) && dep in index[id].dependsOn ==>
      KeyLess(OrderKey(index)(dep), OrderKey(index)(id))
  }

  /** Every effect outside the loops follows all its dependencies exactly when, among what is
      stuck, the keys happen to put it after its stuck dependencies. */
  lemma LooseEffectsFollowIff(index: Index, s: set<string>)
    requires s <= index.Keys
    ensures (forall id :: id in s && id !in Looped(index, s) ==> Follows(index, s, id)) <==>
            (forall id :: id in Residue(index, s) && id !in Looped(index, s) ==> KeyFollows(index, s, id))
  {
    hide Looped, Residue, Follows, KeyFollows;
    forall id | id in s && id !in Looped(index, s)
      ensures if id in Residue(index, s) then Follows(index, s, id) <==> KeyFollows(index, s, id)
              else Follows(index, s, id)
    {
      LooseEffectFollows(index, s, id);
    }
  }

  lemma LooseEffectFollows(index: Index, s: set<string>, id: string)
    requires s <= index.Keys && id in s && id !in Looped(index, s)
    ensures if id in Residue(index, s) then Follows(index, s, id) <==> KeyFollows(index, s, id)
            else Follows(index, s, id)
  {
    hide Looped, Residue, Ordered, Precedes, KeyLess, OrderKey;
    forall dep | dep in s && dep in index[id].dependsOn
      ensures if id in Residue(index, s) && dep in Residue(index, s)
              then Precedes(Ordered(index, s), dep, id) <==> KeyLess(OrderKey(index)(dep), OrderKey(index)(id))
              else Precedes(Ordered(index, s), dep, id)
    {
      if dep == id { SelfDependence(index, s, id); }
      if id in Residue(index, s) {
        ResidueOrder(index, s, dep, id);
      } else {
        DependenciesComeFirst(index, s, id, dep);
      }
    }
  }

  /** Two effects that depend on each other, and an earlier one that depends on the first. */
  function Stragglers(e: Effect): Index {
    map["a" := e.(id := "a", timestamp := 1, dependsOn := {"b"}),
        "b" := e.(id := "b", timestamp := 2, dependsOn := {"a"}),
        "c" := e.(id := "c", timestamp := 0, dependsOn := {"a"})]
  }

  lemma StragglersAre(e: Effect)
    ensures var index := Stragglers(e);
            && index.Keys == {"a", "b", "c"} && "a" != "c" && "b" != "c"
            && index["a"].dependsOn == {"b"} && index["b"].dependsOn == {"a"} && index["c"].dependsOn == {"a"}
            && KeyLess(OrderKey(index)("c"), OrderKey(index)("a"))
  {
    assert "a"[0] == 'a' && "b"[0] == 'b' && "c"[0] == 'c';
    var p, q := OrderKey(Stragglers(e))("c").parts, OrderKey(Stragglers(e))("a").parts;
    assert p[0] == q[0] && p[1..][0] == Num(0) && q[1..][0] == Num(1);
    assert TupLess(p[1..], q[1..]);
  }

  /** All three are stuck, the third is on no cycle, and yet it applies before the effect it
      depends on. */
  lemma StuckOutsideTheLoop(e: Effect)
    ensures var index := Stragglers(e);
            var s := {"a", "b", "c"};
            && s == index.Keys && Residue(index, s) == s && Looped(index, s) == {"a", "b"}
            && Precedes(Ordered(index, s), "c", "a")
  {
    hide *;
    var index, s := Stragglers(e), {"a", "b", "c"};
    StragglersAre(e);
    StragglersStuck(index, s);
    StragglersLooped(index, s);
    ResidueOrder(index, s, "c", "a");
  }

  lemma StragglersLooped(index: Index, s: set<string>)
    requires s == {"a", "b", "c"} == index.Keys && "a" != "c" && "b" != "c"
    requires index["a"].dependsOn == {"b"} && index["b"].dependsOn == {"a"} && index["c"].dependsOn == {"a"}
    ensures Looped(index, s) == {"a", "b"}
  {
    hide LiesOnCycle;
    TwoLoop(index, s, "a", "b");
    NobodyNeeds(index, s, "c");
  }

  lemma StragglersStuck(index: Index, s: set<string>)
    requires s == {"a", "b", "c"} == index.Keys
    requires index["a"].dependsOn == {"b"} && index["b"].dependsOn == {"a"} && index["c"].dependsOn == {"a"}
    ensures Residue(index, s) == s
  {
    hide Residue, SelfSupporting;
    forall id | id in s ensures index[id].dependsOn * s != {} {
      assert "b" in index["a"].dependsOn * s;
      assert "a" in index["b"].dependsOn * s;
      assert "a" in index["c"].dependsOn * s;
    }
    AllStuck(index, s);
  }

  lemma AllStuck(index: Index, s: set<string>)
    requires s <= index.Keys && forall id :: id in s ==> index[id].dependsOn * s != {}
    ensures Residue(index, s) == s
  {
    assert Ready(index, s) == {};
  }

  lemma TwoLoop(index: Index, s: set<string>, a: string, b: string)
    requires s <= index.Keys && a in s && b in s && b in index[a].dependsOn && a in index[b].dependsOn
    ensures a in Looped(index, s) && b in Looped(index, s)
  {
    var w := [a, b, a];
    assert Cycle(index, s, w) && w[0] in w && w[1] in w;
  }

  lemma NobodyNeeds(index: Index, s: set<string>, id: string)
    requires s <= index.Keys && forall x :: x in s ==> id !in index[x].dependsOn
    ensures id !in Looped(index, s)
  {
    forall w | Cycle(index, s, w) ensures id !in w {
      forall i | 0 < i < |w| ensures w[i] != id {
        assert w[i - 1 + 1] in index[w[i - 1]].dependsOn;
      }
    }
  }

  // ----- an effect that nothing depends on -----

  function Without(s: seq<string>, id: string): (r: seq<string>)
    ensures forall x :: x in r <==> x in s && x != id
  {
    if s == [] then [] else (if s[0] == id then [] else [s[0]]) + Without(s[1..], id)
  }

  lemma {:induction false} WithoutConcat(s: seq<string>, t: seq<string>, id: string)
    ensures Without(s + t, id) == Without(s, id) + Without(t, id)
  {
    if s == [] {
      assert s + t == t;
    } else {
      assert (s + t)[1..] == s[1..] + t;
      WithoutConcat(s[1..], t, id);
    }
  }

  lemma {:induction false} WithoutAbsent(s: seq<string>, id: string)
    requires id !in s
    ensures Without(s, id) == s
  {
    if s == [] {
    } else {
      WithoutAbsent(s[1..], id);
    }
  }

  lemma {:induction false} WithoutSorted(lt: (string, string) -> bool, s: seq<string>, id: string)
    requires Sorted(lt, s)
    ensures Sorted(lt, Without(s, id))
  {
    if s == [] {
    } else {
      WithoutSorted(lt, s[1..], id);
      var rest := Without(s[1..], id);
      forall y | y in rest ensures lt(s[0], y) {
        assert y in s[1..];
        var k :| 0 <= k < |s[1..]| && s[1..][k] == y;
        assert s[k + 1] == y;
      }
    }
  }

  /** Removing an id from a key order gives the key order of the smaller set. */
  lemma InKeyOrderWithout(index: Index, s: set<string>, id: string)
    ensures Without(InKeyOrder(index, s), id) == InKeyOrder(index, s - {id})
  {
    var key := OrderKey(index);
    ByKeyOrder(key);
    OrderKeyInjective(index, s);
    OrderKeyInjective(index, s - {id});
    WithoutSorted(ByKey(key), InKeyOrder(index, s), id);
    SortedUnique(ByKey(key), Without(InKeyOrder(index, s), id), InKeyOrder(index, s - {id}));
  }

  /** No other effect of the group lists `id` among its dependencies. */
  ghost predicate Independent(index: Index, s: set<string>, id: string)
    requires s <= index.Keys
  {
    forall x :: x in s && x != id ==> id !in index[x].dependsOn
  }

  lemma ReadyWithout(index: Index, s: set<string>, id: string)
    requires s <= index.Keys && Independent(index, s, id)
    ensures Ready(index, s) - {id} == Ready(index, s - {id})
  {
    forall x | x in s && x != id
      ensures index[x].dependsOn * s == {} <==> index[x].dependsOn * (s - {id}) == {}
    {
      assert index[x].dependsOn * s == index[x].dependsOn * (s - {id});
    }
  }

  lemma Unfold(index: Index, s: set<string>)
    requires s <= index.Keys && Ready(index, s) != {}
    ensures Ordered(index, s) == InKeyOrder(index, Ready(index, s)) + Ordered(index, s - Ready(index, s))
    ensures Residue(index, s) == Residue(index, s - Ready(index, s))
  {
    hide InKeyOrder;
  }

  lemma Stuck(index: Index, s: set<string>)
    requires s <= index.Keys && Ready(index, s) == {}
    ensures Ordered(index, s) == InKeyOrder(index, s) && Residue(index, s) == s
  {
    hide InKeyOrder;
    if s == {} { NothingInOrder(index); }
  }

  /** An effect that no other depends on does not move the others, and joins or leaves the
      residue alone. */
  lemma {:induction false} OrderWithout(index: Index, s: set<string>, id: string)
    requires s <= index.Keys && id in s && Independent(index, s, id)
    ensures Without(Ordered(index, s), id) == Ordered(index, s - {id})
    ensures Residue(index, s) - {id} == Residue(index, s - {id})
    decreases s
  {
    hide Ordered, Residue, InKeyOrder, Without;
    var ready, others := Ready(index, s), s - {id};
    ReadyWithout(index, s, id);
    if ready == {} {
      Stuck(index, s);
      Stuck(index, others);
      InKeyOrderWithout(index, s, id);
    } else {
      Unfold(index, s);
      var head, tail := InKeyOrder(index, ready), Ordered(index, s - ready);
      InKeyOrderWithout(index, ready, id);
      WithoutConcat(head, tail, id);
      assert others - (ready - {id}) == (s - ready) - {id};
      if id in ready {
        assert (s - ready) - {id} == s - ready;
        OrderedIsPermutation(index, s - ready);
        WithoutAbsent(tail, id);
      } else {
        assert Independent(index, s - ready, id);
        OrderWithout(index, s - ready, id);
      }
      if ready - {id} == {} {
        assert others == s - ready;
        NothingInOrder(index);
        assert [] + tail == tail;
      } else {
        Unfold(index, others);
      }
    }
  }

  lemma NothingInOrder(index: Index)
    ensures InKeyOrder(index, {}) == []
  {
    var r := InKeyOrder(index, {});
    if r != [] { NonEmptyHasElement(r); assert false; }
  }
}

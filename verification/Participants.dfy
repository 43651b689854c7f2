/** The participants of a declaration, and how they are captured: asked for one at a time in
    no particular order, then put in one canonical order. `aspect` is whatever else a kind of
    declaration records about a participant. */
module Participants {
  import opened Wrappers
  import opened Orders
  import opened KeywordTriggers

  datatype Participant<E> = Participant(identity: Identity, controller: string, specs: seq<Spec>, aspect: E)

  datatype Error = Malformed

  /** What the participant constructor accepts. */
  predicate Known<E>(p: Participant<E>) {
    ValidIdentity(p.identity) && p.controller != ""
  }

  /** What it leaves behind: instances in printed order. */
  predicate Sealed<E>(p: Participant<E>) {
    Known(p) && p.specs == Printed(p.specs)
  }

  function ById<E>(ps: seq<Participant<E>>): map<string, Participant<E>> {
    if ps == [] then map[] else ById(ps[..|ps| - 1])[ps[|ps| - 1].identity.objectId := ps[|ps| - 1]]
  }

  function Ids<E>(ps: seq<Participant<E>>): set<string> {
    if ps == [] then {} else Ids(ps[..|ps| - 1]) + {ps[|ps| - 1].identity.objectId}
  }

  lemma {:induction false} IdsAre<E>(ps: seq<Participant<E>>)
    ensures forall id :: id in Ids(ps) <==> exists i :: 0 <= i < |ps| && ps[i].identity.objectId == id
  {
    if ps == [] {
    } else {
      var front := ps[..|ps| - 1];
      IdsAre(front);
      assert forall i :: 0 <= i < |front| ==> front[i] == ps[i];
    }
  }

  function Reference<E>(byId: map<string, Participant<E>>, id: string): string {
    if id in byId then byId[id].identity.reference else ""
  }

  function ParticipantKey<E>(p: Participant<E>): Key {
    Tup([Str(p.identity.reference), Str(p.identity.objectId)])
  }

  predicate UniqueIdentities<E>(ps: seq<Participant<E>>) {
    forall i, j :: 0 <= i < j < |ps| ==>
      && ps[i].identity.objectId != ps[j].identity.objectId
      && ps[i].identity.logicalId != ps[j].identity.logicalId
      && ps[i].identity.reference != ps[j].identity.reference
  }

  ghost predicate UniqueObjects<E>(ps: seq<Participant<E>>) {
    forall i, j :: 0 <= i < j < |ps| ==> ps[i].identity.objectId != ps[j].identity.objectId
  }

  /** With unique ids the index finds exactly the listed participants. */
  lemma {:induction false} ByIdFinds<E(!new)>(ps: seq<Participant<E>>)
    requires UniqueObjects(ps)
    ensures forall i :: 0 <= i < |ps| ==>
              ps[i].identity.objectId in ById(ps) && ById(ps)[ps[i].identity.objectId] == ps[i]
    ensures forall id :: id in ById(ps) ==> ById(ps)[id] in ps && ById(ps)[id].identity.objectId == id
  {
    if ps == [] {
    } else {
      var n := |ps| - 1;
      assert forall i :: 0 <= i < n ==> ps[..n][i] == ps[i];
      ByIdFinds(ps[..n]);
      var m := ById(ps[..n]);
      forall i | 0 <= i < n ensures ps[i].identity.objectId in ById(ps) && ById(ps)[ps[i].identity.objectId] == ps[i] {
        assert ps[..n][i].identity.objectId in m;
      }
      forall id | id in ById(ps) ensures ById(ps)[id] in ps && ById(ps)[id].identity.objectId == id {
        if id != ps[n].identity.objectId { assert m[id] in ps[..n]; }
      }
    }
  }

  // ----- queries -----

  /** The engine's answers, by object id. */
  type Answers<!E> = string -> Participant<E>

  predicate CleanIds(ids: seq<string>) {
    "" !in ids && forall i, j :: 0 <= i < j < |ids| ==> ids[i] != ids[j]
  }

  lemma CleanPermutes(s: seq<string>, t: seq<string>)
    requires multiset(s) == multiset(t)
    ensures CleanIds(s) == CleanIds(t)
  {
    SameMultiset(s, t);
    if CleanIds(s) { UniqueKeysPermute(StrKey, t, s); }
    if CleanIds(t) { UniqueKeysPermute(StrKey, s, t); }
  }

  predicate Answering<E>(f: Answers<E>, id: string) {
    f(id).identity.objectId == id && Sealed(f(id))
  }

  /** Every answer is a sealed participant with the identity that was asked for. */
  predicate Steady<E>(f: Answers<E>, ids: set<string>) {
    forall id :: id in ids ==> Answering(f, id)
  }

  function Captured<E(==,!new)>(f: Answers<E>, ids: set<string>): set<Participant<E>> {
    set id | id in ids :: f(id)
  }

  function CapturedById<E>(f: Answers<E>, ids: set<string>): map<string, Participant<E>> {
    map id | id in ids :: f(id)
  }

  lemma ReferencesIdentify<E(!new)>(f: Answers<E>, ids: set<string>)
    requires Steady(f, ids)
    ensures InjectiveOn(ParticipantKey, Captured(f, ids))
  {
    hide Sealed;
    forall x, y | x in Captured(f, ids) && y in Captured(f, ids) && ParticipantKey(x) == ParticipantKey(y)
      ensures x == y
    {
      assert ParticipantKey(x).parts[1] == ParticipantKey(y).parts[1];
      var c :| c in ids && x == f(c);
      var d :| d in ids && y == f(d);
      assert Answering(f, c) && Answering(f, d);
    }
  }

  /** The captured participants in canonical order. */
  function InOrder<E(==,!new)>(f: Answers<E>, ids: set<string>): seq<Participant<E>>
    requires Steady(f, ids)
  {
    ReferencesIdentify(f, ids);
    SortSet(ParticipantKey, Captured(f, ids))
  }

  ghost predicate Lists<E(!new)>(f: Answers<E>, ids: set<string>, ps: seq<Participant<E>>) {
    && Distinct(ps)
    && (forall i :: 0 <= i < |ps| ==> ps[i].identity.objectId in ids && ps[i] == f(ps[i].identity.objectId))
    && (forall id :: id in ids ==> Occurs(f, id, ps))
  }

  ghost predicate Occurs<E(!new)>(f: Answers<E>, id: string, ps: seq<Participant<E>>) {
    exists i :: 0 <= i < |ps| && ps[i] == f(id) && ps[i].identity.objectId == id
  }

  /** In canonical order, participants list the answers, are indexed by them, and stay put. */
  lemma OrderedFacts<E(!new)>(f: Answers<E>, ids: set<string>)
    requires Steady(f, ids)
    ensures var ps := InOrder(f, ids);
            && Lists(f, ids, ps) && UniqueObjects(ps) && Ids(ps) == ids && ById(ps) == CapturedById(f, ids)
            && Sort(ByKey(ParticipantKey), ps) == ps
            && forall i :: 0 <= i < |ps| ==> Sealed(ps[i])
  {
    var ps := InOrder(f, ids);
    InOrderIs(f, ids);
    SortedSetFacts(ParticipantKey, Captured(f, ids));
    forall i | 0 <= i < |ps|
      ensures ps[i].identity.objectId in ids && ps[i] == f(ps[i].identity.objectId) && Sealed(ps[i])
    {
      assert ps[i] in Captured(f, ids);
      Answerer(f, ids, ps[i]);
    }
    forall id | id in ids ensures Occurs(f, id, ps) {
      IsCaptured(f, ids, id);
    }
    ListedIndex(f, ids, ps);
  }

  lemma InOrderIs<E(!new)>(f: Answers<E>, ids: set<string>)
    requires Steady(f, ids)
    ensures InjectiveOn(ParticipantKey, Captured(f, ids))
            && InOrder(f, ids) == SortSet(ParticipantKey, Captured(f, ids))
  {
    ReferencesIdentify(f, ids);
  }

  lemma Answerer<E(!new)>(f: Answers<E>, ids: set<string>, p: Participant<E>)
    requires Steady(f, ids) && p in Captured(f, ids)
    ensures p.identity.objectId in ids && p == f(p.identity.objectId) && Sealed(p)
  {
    hide Sealed;
    var id :| id in ids && p == f(id);
    assert Answering(f, id);
  }

  lemma IsCaptured<E(!new)>(f: Answers<E>, ids: set<string>, id: string)
    requires Steady(f, ids) && id in ids
    ensures f(id) in Captured(f, ids) && f(id).identity.objectId == id
  {
    assert Answering(f, id);
  }

  lemma ListedIndex<E(!new)>(f: Answers<E>, ids: set<string>, ps: seq<Participant<E>>)
    requires Lists(f, ids, ps) && UniqueObjects(ps)
    ensures Ids(ps) == ids && ById(ps) == CapturedById(f, ids)
  {
    var m := ById(ps);
    forall id ensures (id in ids <==> id in m) && (id in ids <==> id in Ids(ps)) && (id in m ==> m[id] == f(id)) {
      IndexedAt(f, ids, ps, id);
    }
    assert m.Keys == ids;
  }

  lemma IndexedAt<E(!new)>(f: Answers<E>, ids: set<string>, ps: seq<Participant<E>>, id: string)
    requires Lists(f, ids, ps) && UniqueObjects(ps)
    ensures id in ids <==> id in ById(ps)
    ensures id in ids <==> id in Ids(ps)
    ensures id in ById(ps) ==> ById(ps)[id] == f(id)
  {
    hide ById, Ids, Occurs;
    IdsAre(ps);
    ByIdFinds(ps);
    if id in ids {
      OccursAt(f, id, ps);
    }
  }

  lemma OccursAt<E(!new)>(f: Answers<E>, id: string, ps: seq<Participant<E>>)
    requires Occurs(f, id, ps)
    ensures exists i :: 0 <= i < |ps| && ps[i] == f(id) && ps[i].identity.objectId == id
  {
  }

  /** The answers for distinct objects differ in logical identity and in reference. */
  predicate UniqueAnswers<E>(f: Answers<E>, ids: set<string>) {
    forall c, d :: c in ids && d in ids && c != d ==>
      f(c).identity.logicalId != f(d).identity.logicalId && f(c).identity.reference != f(d).identity.reference
  }

  lemma UniqueIff<E(!new)>(f: Answers<E>, ids: set<string>, ps: seq<Participant<E>>)
    requires Lists(f, ids, ps) && UniqueObjects(ps)
    ensures UniqueIdentities(ps) <==> UniqueAnswers(f, ids)
  {
    hide Occurs;
    if UniqueIdentities(ps) {
      forall c, d | c in ids && d in ids && c != d
        ensures f(c).identity.logicalId != f(d).identity.logicalId && f(c).identity.reference != f(d).identity.reference
      {
        OccursAt(f, c, ps);
        OccursAt(f, d, ps);
        var i :| 0 <= i < |ps| && ps[i] == f(c) && ps[i].identity.objectId == c;
        var j :| 0 <= j < |ps| && ps[j] == f(d) && ps[j].identity.objectId == d;
      }
    }
  }

  // ----- capturing -----

  /** The objects in `done` have been asked for, each once, and answered as themselves. */
  ghost predicate Asked<E(!new)>(f: Answers<E>, done: set<string>, captured: seq<Participant<E>>,
                                 byId: map<string, Participant<E>>) {
    byId == CapturedById(f, done) && Steady(f, done) && AskedFor(f, done, captured)
  }

  ghost predicate AskedFor<E(!new)>(f: Answers<E>, done: set<string>, captured: seq<Participant<E>>) {
    Distinct(captured) && forall p :: p in captured <==> p in Captured(f, done)
  }

  lemma AskedOneMore<E(!new)>(f: Answers<E>, done: set<string>, captured: seq<Participant<E>>,
                              byId: map<string, Participant<E>>, id: string)
    requires Asked(f, done, captured, byId) && id !in done && Answering(f, id)
    ensures Asked(f, done + {id}, captured + [f(id)], byId[id := f(id)])
  {
    hide AskedFor, Answering;
    CapturedOneMore(f, done, captured, id);
  }

  lemma CapturedOneMore<E(!new)>(f: Answers<E>, done: set<string>, captured: seq<Participant<E>>, id: string)
    requires AskedFor(f, done, captured) && id !in done && Answering(f, id) && Steady(f, done)
    ensures AskedFor(f, done + {id}, captured + [f(id)])
  {
    var p := f(id);
    hide Steady, Sealed;
    if p in captured {
      Answerer(f, done, p);
      assert false;
    }
    assert Distinct([p]);
    ConcatDistinct(captured, [p]);
    forall x ensures x in captured + [p] <==> x in Captured(f, done + {id}) {
    }
  }

  lemma AskedOrder<E(!new)>(f: Answers<E>, ids: set<string>, captured: seq<Participant<E>>,
                            byId: map<string, Participant<E>>)
    requires Asked(f, ids, captured, byId)
    ensures Steady(f, ids) && byId == CapturedById(f, ids)
    ensures Sort(ByKey(ParticipantKey), captured) == InOrder(f, ids)
  {
    hide ParticipantKey, Captured, Sort, Steady, CapturedById;
    InOrderIs(f, ids);
    SortOfListing(ParticipantKey, captured, Captured(f, ids));
  }

  /** Asks for every object, in no particular order. */
  method Capture<E(==,!new)>(f: Answers<E>, ids: set<string>)
    returns (r: Result<(seq<Participant<E>>, map<string, Participant<E>>), Error>)
    ensures r.Ok? <==> Steady(f, ids)
    ensures r.Ok? ==>
              && r.value.0 == InOrder(f, ids)
              && r.value.1 == CapturedById(f, ids)
  {
    var pending := ids;
    var captured: seq<Participant<E>> := [];
    var byId: map<string, Participant<E>> := map[];
    assert ids - pending == {};
    while pending != {}
      invariant pending <= ids && Asked(f, ids - pending, captured, byId)
      decreases |pending|
    {
      var id :| id in pending;
      var p := f(id);
      if !Answering(f, id) {
        return Err(Malformed);
      }
      AskedOneMore(f, ids - pending, captured, byId, id);
      captured := captured + [p];
      byId := byId[id := p];
      assert ids - (pending - {id}) == (ids - pending) + {id};
      pending := pending - {id};
    }
    assert ids - pending == ids;
    AskedOrder(f, ids, captured, byId);
    return Ok((Sort(ByKey(ParticipantKey), captured), byId));
  }

  lemma SteadyAt<E(!new)>(f: Answers<E>, ids: set<string>, id: string)
    requires Steady(f, ids) && id in ids
    ensures Answering(f, id)
  {
  }

  /** Captured participants stand in the order of their references. */
  lemma OrderedByReference<E(!new)>(f: Answers<E>, ids: set<string>, i: nat, j: nat)
    requires Steady(f, ids) && UniqueAnswers(f, ids) && i < j < |InOrder(f, ids)|
    ensures StrLess(InOrder(f, ids)[i].identity.reference, InOrder(f, ids)[j].identity.reference)
  {
    hide KeyLess, ParticipantKey, InOrder, Sealed;
    InOrderIs(f, ids);
    OrderedFacts(f, ids);
    var ps := InOrder(f, ids);
    assert ByKey(ParticipantKey)(ps[i], ps[j]);
    ParticipantSteps(ps[i], ps[j]);
    UniqueIff(f, ids, ps);
  }

  lemma ParticipantSteps<E>(p: Participant<E>, q: Participant<E>)
    requires KeyLess(ParticipantKey(p), ParticipantKey(q))
    ensures StrLess(p.identity.reference, q.identity.reference) || p.identity.reference == q.identity.reference
  {
    var k, l := ParticipantKey(p).parts, ParticipantKey(q).parts;
    TupLessStep(k, l);
  }
}

/** Resolving Cascade (CR 702.85): exile from the top of the library until a nonland card of
    lesser mana value is exiled. */
module Cascade {
  import opened Wrappers

  datatype Zone = Exile | Elsewhere

  /** What the resolution reads of a card. */
  datatype Facts = Facts(owned: bool, physical: bool, registered: bool, frontIsLand: bool, manaValue: real)

  /** Where a replacement may send a card that is moved to exile. */
  type Destinations = string -> Zone

  type Records = map<string, Facts>

  datatype Error = ForeignCard | UnregisteredCard

  predicate Eligible(records: Records, limit: real, id: string) {
    id in records && !records[id].frontIsLand && records[id].manaValue < limit
  }

  predicate Movable(records: Records, id: string) {
    id in records && records[id].owned && records[id].physical
  }

  /** The i-th card from the top; the top of the library is its last element. */
  function FromTop(library: seq<string>, i: nat): string
    requires i < |library|
  {
    library[|library| - 1 - i]
  }

  /** Those of the first `count` cards from the top that reached exile, top-down. */
  function ExiledOf(library: seq<string>, destinations: Destinations, count: nat): (r: seq<string>)
    requires count <= |library|
    ensures |r| <= count
  {
    if count == 0 then []
    else
      var id := FromTop(library, count - 1);
      ExiledOf(library, destinations, count - 1) + if destinations(id) == Exile then [id] else []
  }

  /** The i-th card from the top reached exile and may be cast. */
  predicate Hits(library: seq<string>, destinations: Destinations, records: Records, limit: real, i: nat)
    requires i < |library|
  {
    destinations(FromTop(library, i)) == Exile && Eligible(records, limit, FromTop(library, i))
  }

  /** `count` cards were moved and the search ended there. */
  ghost predicate EndsAt(library: seq<string>, destinations: Destinations, records: Records, limit: real,
                         count: nat, candidate: Option<string>)
  {
    && count <= |library|
    && (candidate.None? ==>
          count == |library| && forall i :: 0 <= i < count ==> !Hits(library, destinations, records, limit, i))
    && (candidate.Some? ==>
          && count > 0 && candidate.value == FromTop(library, count - 1)
          && Hits(library, destinations, records, limit, count - 1)
          && forall i :: 0 <= i < count - 1 ==> !Hits(library, destinations, records, limit, i))
  }

  /** The i-th card may be moved and, if it reached exile, is registered. */
  predicate Passable(library: seq<string>, destinations: Destinations, records: Records, i: nat)
    requires i < |library|
  {
    var id := FromTop(library, i);
    Movable(records, id) && (destinations(id) == Exile ==> records[id].registered)
  }

  /** The first `count` cards are all passable. */
  ghost predicate AllPassable(library: seq<string>, destinations: Destinations, records: Records, count: nat) {
    count <= |library| && forall i :: 0 <= i < count ==> Passable(library, destinations, records, i)
  }

  /** The first `count` cards are moved without ending the search. */
  ghost predicate Passed(library: seq<string>, destinations: Destinations, records: Records, limit: real, count: nat) {
    && AllPassable(library, destinations, records, count)
    && forall i :: 0 <= i < count ==> !Hits(library, destinations, records, limit, i)
  }

  /** The search breaks off with `e` once `count` cards were moved: before a card that may not
      be moved, or after moving one into exile that is not registered. */
  ghost predicate BreaksAt(library: seq<string>, destinations: Destinations, records: Records, limit: real,
                           count: nat, e: Error)
  {
    match e
    case ForeignCard =>
      && count < |library| && Passed(library, destinations, records, limit, count)
      && !Movable(records, FromTop(library, count))
    case UnregisteredCard =>
      && 0 < count <= |library| && Passed(library, destinations, records, limit, count - 1)
      && Movable(records, FromTop(library, count - 1)) && destinations(FromTop(library, count - 1)) == Exile
      && !records[FromTop(library, count - 1)].registered
  }

  /** The search ends with every moved card passable. */
  ghost predicate EndsWell(library: seq<string>, destinations: Destinations, records: Records, limit: real) {
    exists count: nat, candidate ::
      EndsAt(library, destinations, records, limit, count, candidate)
        && AllPassable(library, destinations, records, count)
  }

  /** A search that breaks off does not also end. */
  lemma BreakingIsNotEnding(library: seq<string>, destinations: Destinations, records: Records, limit: real,
                            count: nat, e: Error)
    requires BreaksAt(library, destinations, records, limit, count, e)
    ensures !EndsWell(library, destinations, records, limit)
  {
    hide Hits, Movable;
    var broken := if e == ForeignCard then count else count - 1;
    forall n: nat, candidate | EndsAt(library, destinations, records, limit, n, candidate)
      ensures !AllPassable(library, destinations, records, n)
    {
      assert candidate.Some? ==> Hits(library, destinations, records, limit, n - 1);
      assert n > broken;
      assert !Passable(library, destinations, records, broken);
    }
  }

  /** The search ends in one way only. */
  lemma EndIsDetermined(library: seq<string>, destinations: Destinations, records: Records, limit: real,
                        m: nat, c: Option<string>, n: nat, d: Option<string>)
    requires EndsAt(library, destinations, records, limit, m, c) && EndsAt(library, destinations, records, limit, n, d)
    ensures m == n && c == d
  {
    assert c.Some? <==> m > 0 && Hits(library, destinations, records, limit, m - 1);
    assert d.Some? <==> n > 0 && Hits(library, destinations, records, limit, n - 1);
  }

  /** The candidate is the last exiled card and the only eligible one among them. */
  lemma {:induction false} CandidateIsLast(library: seq<string>, destinations: Destinations, records: Records,
                                           limit: real, count: nat)
    requires 0 < count <= |library| && Hits(library, destinations, records, limit, count - 1)
    requires forall i :: 0 <= i < count - 1 ==> !Hits(library, destinations, records, limit, i)
    ensures var exiled := ExiledOf(library, destinations, count);
            && exiled != [] && exiled[|exiled| - 1] == FromTop(library, count - 1)
            && Eligible(records, limit, exiled[|exiled| - 1])
            && forall i :: 0 <= i < |exiled| - 1 ==> !Eligible(records, limit, exiled[i])
  {
    NoneEligible(library, destinations, records, limit, count - 1);
  }

  lemma {:induction false} NoneEligible(library: seq<string>, destinations: Destinations, records: Records, limit: real,
                                        count: nat)
    requires count <= |library| && forall i :: 0 <= i < count ==> !Hits(library, destinations, records, limit, i)
    ensures forall i :: 0 <= i < |ExiledOf(library, destinations, count)| ==>
              !Eligible(records, limit, ExiledOf(library, destinations, count)[i])
  {
    if count == 0 {
    } else {
      NoneEligible(library, destinations, records, limit, count - 1);
      assert !Hits(library, destinations, records, limit, count - 1);
    }
  }

  class Host {
    var library: seq<string>
    const destinations: Destinations

    constructor (library: seq<string>, destinations: Destinations)
      ensures this.library == library && this.destinations == destinations
    {
      this.library := library;
      this.destinations := destinations;
    }

    /** Moves the top card towards exile and reports where it ended up. */
    method MoveTop(id: string) returns (zone: Zone)
      requires library != [] && library[|library| - 1] == id
      modifies this`library
      ensures library == old(library)[..|old(library)| - 1] && zone == destinations(id)
    {
      library := library[..|library| - 1];
      zone := destinations(id);
    }

    /** Exiles until a card hits. The library keeps what was not moved; `exiled` is what
        reached exile, top-down; running out of library means there is no candidate. It
        succeeds exactly when every moved card may be moved and every exiled one is registered. */
    method ExileUntilHit(records: Records, limit: real)
      returns (r: Result<(seq<string>, Option<string>), Error>, ghost count: nat)
      modifies this`library
      ensures count <= |old(library)| && library == old(library)[..|old(library)| - count]
      ensures r.Ok? <==> EndsWell(old(library), destinations, records, limit)
      ensures r.Ok? ==>
                && EndsAt(old(library), destinations, records, limit, count, r.value.1)
                && AllPassable(old(library), destinations, records, count)
                && r.value.0 == ExiledOf(old(library), destinations, count)
                && (r.value.1.None? ==> library == [])
      ensures r.Err? ==> BreaksAt(old(library), destinations, records, limit, count, r.error)
    {
      hide EndsWell;
      ghost var start := library;
      var exiled: seq<string> := [];
      count := 0;
      while library != []
        invariant count <= |start| && library == start[..|start| - count]
        invariant exiled == ExiledOf(start, destinations, count)
        invariant Passed(start, destinations, records, limit, count)
        decreases |library|
      {
        var id := library[|library| - 1];
        assert id == FromTop(start, count);
        if id !in records || !records[id].owned || !records[id].physical {
          BreakingIsNotEnding(start, destinations, records, limit, count, ForeignCard);
          return Err(ForeignCard), count;
        }
        var zone := MoveTop(id);
        count := count + 1;
        if zone == Exile {
          exiled := exiled + [id];
          if !records[id].registered {
            BreakingIsNotEnding(start, destinations, records, limit, count, UnregisteredCard);
            return Err(UnregisteredCard), count;
          }
          if !records[id].frontIsLand && records[id].manaValue < limit {
            EndingWell(start, destinations, records, limit, count, Some(id));
            return Ok((exiled, Some(id))), count;
          }
        } else {
          assert exiled + [] == exiled;
        }
      }
      EndingWell(start, destinations, records, limit, count, None);
      return Ok((exiled, None)), count;
    }
  }

  lemma EndingWell(library: seq<string>, destinations: Destinations, records: Records, limit: real,
                   count: nat, candidate: Option<string>)
    requires EndsAt(library, destinations, records, limit, count, candidate)
    requires AllPassable(library, destinations, records, count)
    ensures EndsWell(library, destinations, records, limit)
  {
  }

  datatype Resolution =
    | ControllerLeft
    | OfferCast(candidate: string, cleanup: seq<string>)
    | Cleanup(exiled: seq<string>, unavailable: Option<string>)

  /** Resolves one Cascade trigger: offers the candidate when it can be cast, and otherwise
      cleans up everything exiled. */
  method ResolveCascade(host: Host, controllerActive: bool, records: Records, limit: real, castable: string -> bool)
    returns (r: Result<Resolution, Error>)
    modifies host`library
    ensures !controllerActive ==> r == Ok(ControllerLeft) && host.library == old(host.library)
    ensures controllerActive ==> (r.Ok? <==> EndsWell(old(host.library), host.destinations, records, limit))
    ensures controllerActive && r.Ok? ==>
              exists count: nat, candidate: Option<string> ::
                && EndsAt(old(host.library), host.destinations, records, limit, count, candidate)
                && host.library == old(host.library)[..|old(host.library)| - count]
                && var exiled := ExiledOf(old(host.library), host.destinations, count);
                   r.value == if candidate.Some? && castable(candidate.value) then OfferCast(candidate.value, exiled)
                              else Cleanup(exiled, candidate)
    ensures controllerActive && r.Err? ==>
              exists count: nat ::
                && BreaksAt(old(host.library), host.destinations, records, limit, count, r.error)
                && count <= |old(host.library)| && host.library == old(host.library)[..|old(host.library)| - count]
  {
    if !controllerActive {
      return Ok(ControllerLeft);
    }
    hide EndsAt, BreaksAt, EndsWell;
    var result, count := host.ExileUntilHit(records, limit);
    if result.Err? {
      return Err(result.error);
    }
    var exiled, candidate := result.value.0, result.value.1;
    if candidate.Some? && castable(candidate.value) {
      return Ok(OfferCast(candidate.value, exiled));
    }
    return Ok(Cleanup(exiled, candidate));
  }
}

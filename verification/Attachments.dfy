/** The owner of attachment relations (CR 701.3): shared card and player objects whose two
    sides of the relation are rewritten in place. */
module Attachments {
  import opened Wrappers
  import opened AttachmentLinks

  class Card {
    const objectId: string
    var attachedTo: Option<string>
    var attachments: seq<string>
    var timestamp: int

    constructor (objectId: string)
      ensures this.objectId == objectId && attachedTo == None && attachments == [] && timestamp == 0
    {
      this.objectId := objectId;
      attachedTo, attachments, timestamp := None, [], 0;
    }
  }

  class Player {
    const seat: string
    var attachments: seq<string>

    constructor (seat: string)
      ensures this.seat == seat && attachments == []
    {
      this.seat := seat;
      attachments := [];
    }
  }

  type Cards = map<string, Card>
  type Players = Option<map<string, Player>>

  /** The players that were supplied. */
  function Seats(players: Players): map<string, Player> {
    match players case None => map[] case Some(m) => m
  }

  /** Every card is filed under its own id and every player under their own seat, and no card
      id reads like a player target. */
  predicate Filed(cards: Cards, players: Players) {
    && (forall id :: id in cards ==> cards[id].objectId == id && !NamesPlayer(id))
    && forall seat :: seat in Seats(players) ==> Seats(players)[seat].seat == seat
  }

  function TargetsOf(cards: Cards): map<string, Option<string>>
    reads cards.Values`attachedTo
  {
    map id | id in cards :: cards[id].attachedTo
  }

  function CardListsOf(cards: Cards): map<string, seq<string>>
    reads cards.Values`attachments
  {
    map id | id in cards :: cards[id].attachments
  }

  function SeatListsOf(players: Players): map<string, seq<string>>
    reads Seats(players).Values`attachments
  {
    map seat | seat in Seats(players) :: Seats(players)[seat].attachments
  }

  function StampsOf(cards: Cards): map<string, int>
    reads cards.Values`timestamp
  {
    map id | id in cards :: cards[id].timestamp
  }

  /** The relation that the objects hold. */
  function LinksOf(cards: Cards, players: Players): Links
    reads cards.Values, Seats(players).Values
  {
    Links(TargetsOf(cards), CardListsOf(cards), SeatListsOf(players), StampsOf(cards))
  }

  predicate Authoritative(cards: Cards, card: Card) {
    card.objectId in cards && cards[card.objectId] == card
  }

  datatype Transition = Transition(
    source: string,
    previous: Option<string>,
    target: Option<string>,
    changed: bool,
    timestamp: int)

  /** The object on the other side of a relation. */
  datatype Holder = Nobody | OnCard(card: Card) | OnPlayer(player: Player)

  /** The reciprocal holder of the source's current relation. */
  method PreviousTarget(cards: Cards, players: Players, source: Card) returns (r: Result<Holder, Error>)
    requires Filed(cards, players) && Authoritative(cards, source)
    ensures r.Ok? <==> Previous(LinksOf(cards, players), source.objectId).Ok?
    ensures r.Err? ==> r.error == NotReciprocal
    ensures r.Ok? ==> Holds(cards, players, source, r.value)
  {
    match source.attachedTo
    case None => return Ok(Nobody);
    case Some(target) =>
      if target in cards {
        var card := cards[target];
        return if source.objectId in card.attachments then Ok(OnCard(card)) else Err(NotReciprocal);
      }
      if NamesPlayer(target) && SeatOf(target) in Seats(players) {
        PlayerTargetOfSeat(target);
        var player := Seats(players)[SeatOf(target)];
        return if source.objectId in player.attachments then Ok(OnPlayer(player)) else Err(NotReciprocal);
      }
      return Err(NotReciprocal);
  }

  /** Rewrites the list of a card. */
  method SetCardList(cards: Cards, players: Players, card: Card, list: seq<string>)
    requires Filed(cards, players) && Authoritative(cards, card)
    modifies card`attachments
    ensures LinksOf(cards, players) == old(LinksOf(cards, players)).(
              cardLists := old(LinksOf(cards, players)).cardLists[card.objectId := list])
  {
    hide StampsOf, TargetsOf, SeatListsOf;
    ghost var before := CardListsOf(cards);
    card.attachments := list;
    assert CardListsOf(cards) == before[card.objectId := list];
  }

  /** Rewrites the list of a player. */
  method SetPlayerList(cards: Cards, players: Players, player: Player, list: seq<string>)
    requires Filed(cards, players) && player.seat in Seats(players) && Seats(players)[player.seat] == player
    modifies player`attachments
    ensures LinksOf(cards, players) == old(LinksOf(cards, players)).(
              seatLists := old(LinksOf(cards, players)).seatLists[player.seat := list])
  {
    hide StampsOf, TargetsOf, CardListsOf;
    ghost var before := SeatListsOf(players);
    player.attachments := list;
    assert SeatListsOf(players) == before[player.seat := list];
  }

  /** Rewrites the target that a card names. */
  method SetTarget(cards: Cards, players: Players, card: Card, target: Option<string>)
    requires Filed(cards, players) && Authoritative(cards, card)
    modifies card`attachedTo
    ensures card.attachedTo == target
    ensures LinksOf(cards, players) == old(LinksOf(cards, players)).(
              attachedTo := old(LinksOf(cards, players)).attachedTo[card.objectId := target])
  {
    hide StampsOf, CardListsOf, SeatListsOf;
    ghost var before := TargetsOf(cards);
    card.attachedTo := target;
    assert TargetsOf(cards) == before[card.objectId := target];
  }

  /** Rewrites the timestamp of a card. */
  method SetTimestamp(cards: Cards, players: Players, card: Card, timestamp: int)
    requires Filed(cards, players) && Authoritative(cards, card)
    modifies card`timestamp
    ensures card.timestamp == timestamp
    ensures LinksOf(cards, players) == old(LinksOf(cards, players)).(
              stamps := old(LinksOf(cards, players)).stamps[card.objectId := timestamp])
  {
    hide TargetsOf, CardListsOf, SeatListsOf;
    ghost var before := StampsOf(cards);
    card.timestamp := timestamp;
    assert StampsOf(cards) == before[card.objectId := timestamp];
  }

  /** The holder is the object that the source names. */
  predicate Holds(cards: Cards, players: Players, source: Card, holder: Holder)
    reads source
  {
    match holder
    case Nobody => source.attachedTo == None
    case OnCard(card) => source.attachedTo == Some(card.objectId) && Authoritative(cards, card)
    case OnPlayer(player) =>
      && source.attachedTo == Some(PlayerTarget(player.seat))
      && player.seat in Seats(players) && Seats(players)[player.seat] == player
  }

  /** Takes the source off the list of its previous holder. */
  method RemovePrevious(cards: Cards, players: Players, source: Card, holder: Holder)
    requires Filed(cards, players) && Authoritative(cards, source)
    requires Holds(cards, players, source, holder)
    requires source.attachedTo.Some? ==> HasTarget(LinksOf(cards, players), source.attachedTo.value)
    modifies cards.Values`attachments, Seats(players).Values`attachments
    ensures LinksOf(cards, players) ==
            Unlist(old(LinksOf(cards, players)), source.objectId, source.attachedTo)
  {
    hide LinksOf, RemoveFirst;
    ListsOf(cards, players);
    match holder
    case Nobody =>
    case OnCard(card) =>
      assert card in cards.Values by { assert cards[card.objectId] == card; }
      SetCardList(cards, players, card, RemoveFirst(card.attachments, source.objectId));
    case OnPlayer(player) =>
      assert player in Seats(players).Values by { assert Seats(players)[player.seat] == player; }
      SetPlayerList(cards, players, player, RemoveFirst(player.attachments, source.objectId));
  }

  lemma ListsOf(cards: Cards, players: Players)
    requires Filed(cards, players)
    ensures var l := LinksOf(cards, players);
            && WellFormed(l) && WellKeyed(l)
            && (forall id :: id in l.cardLists <==> id in cards)
            && (forall seat :: seat in l.seatLists <==> seat in Seats(players))
            && (forall id :: id in cards ==> l.cardLists[id] == cards[id].attachments)
            && (forall id :: id in cards ==> l.attachedTo[id] == cards[id].attachedTo)
            && (forall id :: id in cards ==> l.stamps[id] == cards[id].timestamp)
            && (forall seat :: seat in Seats(players) ==> l.seatLists[seat] == Seats(players)[seat].attachments)
  {
  }

  lemma LinkedCard(cards: Cards, players: Players, card: Card)
    requires Filed(cards, players) && Authoritative(cards, card)
    ensures card in cards.Values
    ensures var l := LinksOf(cards, players);
            && card.objectId in l.attachedTo && card.objectId in l.cardLists
            && l.attachedTo[card.objectId] == card.attachedTo
            && l.cardLists[card.objectId] == card.attachments
            && HasTarget(l, card.objectId) && ListAt(l, card.objectId) == card.attachments
  {
    assert cards[card.objectId] == card;
  }

  /** Takes the source off its previous holder, and has it name and be stamped for the new one. */
  method Rename(cards: Cards, players: Players, source: Card, holder: Holder, target: string, timestamp: int)
    requires Filed(cards, players) && Authoritative(cards, source)
    requires Holds(cards, players, source, holder)
    requires source.attachedTo.Some? ==> HasTarget(LinksOf(cards, players), source.attachedTo.value)
    modifies cards.Values`attachments, Seats(players).Values`attachments, source`attachedTo, source`timestamp
    ensures source.attachedTo == Some(target) && source.timestamp == timestamp
    ensures var cleared := Unlist(old(LinksOf(cards, players)), source.objectId, old(source.attachedTo));
            LinksOf(cards, players) ==
            cleared.(attachedTo := cleared.attachedTo[source.objectId := Some(target)],
                     stamps := cleared.stamps[source.objectId := timestamp])
  {
    hide *;
    LinkedCard(cards, players, source);
    RemovePrevious(cards, players, source, holder);
    SetTarget(cards, players, source, Some(target));
    SetTimestamp(cards, players, source, timestamp);
  }

  /** Attaches the source to the target card and stamps it; a rejection writes nothing. */
  method AttachObjects(cards: Cards, players: Players, source: Card, target: Card, timestamp: int)
    returns (r: Result<Transition, Error>)
    requires Filed(cards, players)
    modifies cards.Values, Seats(players).Values
    ensures r.Ok? <==>
            && Authoritative(cards, source) && Authoritative(cards, target)
            && AttachedToCard(old(LinksOf(cards, players)), source.objectId, target.objectId, timestamp).Ok?
    ensures r.Err? && Authoritative(cards, source) && Authoritative(cards, target) ==>
              AttachedToCard(old(LinksOf(cards, players)), source.objectId, target.objectId, timestamp) == Err(r.error)
    ensures LinksOf(cards, players) ==
            if r.Err? then old(LinksOf(cards, players))
            else AttachedToCard(old(LinksOf(cards, players)), source.objectId, target.objectId, timestamp).value
    ensures r.Ok? ==>
              r.value == Transition(source.objectId, old(source.attachedTo), Some(target.objectId),
                                    old(source.attachedTo) != Some(target.objectId), source.timestamp)
  {
    hide LinksOf, RemoveFirst, Unlist, ListAt, Holds;
    if source.objectId == target.objectId { return Err(SelfAttachment); }
    if !Authoritative(cards, source) { return Err(UnknownSource); }
    if !Authoritative(cards, target) { return Err(UnknownTarget); }
    LinkedCard(cards, players, source);
    LinkedCard(cards, players, target);
    if timestamp < 0 { return Err(BadTimestamp); }
    var previous := PreviousTarget(cards, players, source);
    if previous.Err? { return Err(previous.error); }
    var named := source.attachedTo;
    if named == Some(target.objectId) {
      return Ok(Transition(source.objectId, named, named, false, source.timestamp));
    }
    if source.objectId in target.attachments { return Err(AlreadyNamed); }
    Rename(cards, players, source, previous.value, target.objectId, timestamp);
    LinkedCard(cards, players, target);
    var list := target.attachments + [source.objectId];
    SetCardList(cards, players, target, list);
    return Ok(Transition(source.objectId, named, Some(target.objectId), true, timestamp));
  }

  /** The checks of an attachment to a player, and its effect, step by step. */
  lemma SeatSteps(l: Links, s: string, seat: string, stamp: int)
    requires WellFormed(l)
    ensures var r := AttachedToSeat(l, s, seat, stamp);
            if s !in l.attachedTo then r == Err(UnknownSource)
            else if seat !in l.seatLists then r == Err(UnknownTarget)
            else if stamp < 0 then r == Err(BadTimestamp)
            else if !ValidSeat(seat) then r == Err(BadSeat)
            else
              var t := PlayerTarget(seat);
              var list := l.seatLists[seat];
              if Previous(l, s).Err? then r.Err? && r.error == Previous(l, s).error == NotReciprocal
              else if l.attachedTo[s] == Some(t) then r == Ok(l)
              else if s in list then r == Err(AlreadyNamed)
              else
                && (l.attachedTo[s].Some? ==> HasTarget(l, l.attachedTo[s].value))
                && var cleared := Unlist(l, s, l.attachedTo[s]);
                && seat in cleared.seatLists
                && r == Ok(cleared.(attachedTo := cleared.attachedTo[s := Some(t)],
                                    stamps := cleared.stamps[s := stamp],
                                    seatLists := cleared.seatLists[seat := cleared.seatLists[seat] + [s]]))
  {
    hide RemoveFirst;
    if s in l.attachedTo && seat in l.seatLists && stamp >= 0 && ValidSeat(seat) {
      var t := PlayerTarget(seat);
      if Previous(l, s).Ok? && l.attachedTo[s] != Some(t) {
        if s !in l.seatLists[seat] {
          var cleared := Unlist(l, s, l.attachedTo[s]);
          var named := cleared.(attachedTo := cleared.attachedTo[s := Some(t)], stamps := cleared.stamps[s := stamp]);
          assert seat in cleared.seatLists && t !in cleared.cardLists;
        }
      }
    }
  }

  /** Attaches the source to a player and stamps it; a rejection writes nothing. */
  method AttachToPlayer(cards: Cards, players: map<string, Player>, source: Card, seat: string, timestamp: int)
    returns (r: Result<Transition, Error>)
    requires Filed(cards, Some(players))
    modifies cards.Values, players.Values
    ensures r.Ok? <==>
            && Authoritative(cards, source)
            && AttachedToSeat(old(LinksOf(cards, Some(players))), source.objectId, seat, timestamp).Ok?
    ensures r.Err? && Authoritative(cards, source) ==>
              AttachedToSeat(old(LinksOf(cards, Some(players))), source.objectId, seat, timestamp) == Err(r.error)
    ensures LinksOf(cards, Some(players)) ==
            if r.Err? then old(LinksOf(cards, Some(players)))
            else AttachedToSeat(old(LinksOf(cards, Some(players))), source.objectId, seat, timestamp).value
    ensures r.Ok? ==>
              r.value == Transition(source.objectId, old(source.attachedTo), Some(PlayerTarget(seat)),
                                    old(source.attachedTo) != Some(PlayerTarget(seat)), source.timestamp)
  {
    SeatSteps(LinksOf(cards, Some(players)), source.objectId, seat, timestamp);
    if !Authoritative(cards, source) { return Err(UnknownSource); }
    LinkedCard(cards, Some(players), source);
    if seat !in players { return Err(UnknownTarget); }
    var target := players[seat];
    if timestamp < 0 { return Err(BadTimestamp); }
    if !ValidSeat(seat) { return Err(BadSeat); }
    var targetId := PlayerTarget(seat);
    var previous := PreviousTarget(cards, Some(players), source);
    if previous.Err? { return Err(previous.error); }
    var named := source.attachedTo;
    if named == Some(targetId) {
      return Ok(Transition(source.objectId, named, named, false, source.timestamp));
    }
    if source.objectId in target.attachments { return Err(AlreadyNamed); }
    Rename(cards, Some(players), source, previous.value, targetId, timestamp);
    var list := target.attachments + [source.objectId];
    SetPlayerList(cards, Some(players), target, list);
    return Ok(Transition(source.objectId, named, Some(targetId), true, timestamp));
  }

  /** Removes the source's relation without restamping it; a rejection writes nothing. */
  method DetachObject(cards: Cards, players: Players, source: Card) returns (r: Result<Transition, Error>)
    requires Filed(cards, players)
    modifies cards.Values, Seats(players).Values
    ensures r.Ok? <==> Authoritative(cards, source) && Detached(old(LinksOf(cards, players)), source.objectId).Ok?
    ensures LinksOf(cards, players) ==
            if r.Err? then old(LinksOf(cards, players))
            else Detached(old(LinksOf(cards, players)), source.objectId).value
    ensures r.Ok? ==>
              r.value == Transition(source.objectId, old(source.attachedTo), None, old(source.attachedTo).Some?,
                                    old(source.timestamp))
    ensures r.Err? && Authoritative(cards, source) ==>
              Detached(old(LinksOf(cards, players)), source.objectId) == Err(r.error)
  {
    hide LinksOf, RemoveFirst, Unlist, WithList, ListAt, Holds;
    if !Authoritative(cards, source) { return Err(UnknownSource); }
    LinkedCard(cards, players, source);
    var named := source.attachedTo;
    if named == None {
      DetachNothing(LinksOf(cards, players), source.objectId);
      return Ok(Transition(source.objectId, None, None, false, source.timestamp));
    }
    var previous := PreviousTarget(cards, players, source);
    if previous.Err? { return Err(previous.error); }
    ghost var stamp := source.timestamp;
    RemovePrevious(cards, players, source, previous.value);
    SetTarget(cards, players, source, None);
    return Ok(Transition(source.objectId, named, None, true, source.timestamp));
  }

  /** Detaches the card and everything attached to it. From a reciprocal relation this never
      fails, and leaves exactly the relation without the card. */
  method ClearObjectAttachmentRelations(cards: Cards, players: Players, card: Card)
    returns (r: Result<seq<Transition>, Error>)
    requires Filed(cards, players) && Authoritative(cards, card)
    modifies cards.Values, Seats(players).Values
    ensures var outcome := ClearOutcome(old(LinksOf(cards, players)), card.objectId);
            LinksOf(cards, players) == outcome.links && (r.Ok? <==> outcome.error == None)
    ensures old(Reciprocal(LinksOf(cards, players))) ==>
              && r.Ok?
              && LinksOf(cards, players) == Cleared(old(LinksOf(cards, players)), card.objectId)
              && Reciprocal(LinksOf(cards, players))
  {
    hide *;
    ghost var l := LinksOf(cards, players);
    ListsOf(cards, players);
    LinkedCard(cards, players, card);
    if Reciprocal(l) { ClearingIsExact(l, card.objectId); }
    ghost var outcome := ClearOutcome(l, card.objectId);
    ClearStarts(l, card.objectId);
    var transitions: seq<Transition> := [];
    if card.attachedTo != None {
      var detached := DetachObject(cards, players, card);
      if detached.Err? { return Err(detached.error); }
      transitions := transitions + [detached.value];
    }
    LinkedCard(cards, players, card);
    var sources := card.attachments;
    var i := 0;
    assert sources[0..] == sources;
    while i < |sources|
      invariant 0 <= i <= |sources|
      invariant DetachEach(LinksOf(cards, players), sources[i..], card.objectId) == outcome
    {
      DetachEachStep(LinksOf(cards, players), sources, i, card.objectId);
      ListsOf(cards, players);
      if sources[i] !in cards { return Err(NotReciprocal); }
      var source := cards[sources[i]];
      FiledAt(cards, players, sources[i]);
      if source.attachedTo != Some(card.objectId) { return Err(NotReciprocal); }
      var detached := DetachObject(cards, players, source);
      if detached.Err? { return Err(detached.error); }
      transitions := transitions + [detached.value];
      i := i + 1;
    }
    DetachEachEnds(LinksOf(cards, players), sources, card.objectId);
    return Ok(transitions);
  }

  lemma FiledAt(cards: Cards, players: Players, id: string)
    requires Filed(cards, players) && id in cards
    ensures cards[id].objectId == id && Authoritative(cards, cards[id])
  {
  }

  lemma ClearStarts(l: Links, c: string)
    requires c in l.attachedTo && WellKeyed(l)
    ensures ClearOutcome(l, c) ==
            if l.attachedTo[c] == None then DetachEach(l, l.cardLists[c], c)
            else if Detached(l, c).Err? then Outcome(l, Some(Detached(l, c).error))
            else DetachEach(Detached(l, c).value, Detached(l, c).value.cardLists[c], c)
  {
  }

  lemma DetachEachStep(l: Links, sources: seq<string>, i: nat, c: string)
    requires i < |sources|
    ensures DetachEach(l, sources[i..], c) ==
            if sources[i] !in l.attachedTo || l.attachedTo[sources[i]] != Some(c) then Outcome(l, Some(NotReciprocal))
            else if Detached(l, sources[i]).Err? then Outcome(l, Some(Detached(l, sources[i]).error))
            else DetachEach(Detached(l, sources[i]).value, sources[i + 1..], c)
  {
    assert sources[i..][1..] == sources[i + 1..];
  }

  lemma DetachEachEnds(l: Links, sources: seq<string>, c: string)
    ensures DetachEach(l, sources[|sources|..], c) == Outcome(l, None)
  {
  }
}

/** The attachment relation (CR 701.3) as a value: which target each source names, and which
    sources each target lists, with the steps that change it. */
module AttachmentLinks {
  import opened Wrappers
  import opened Orders

  const PLAYER_PREFIX := "player:"

  predicate NamesPlayer(target: string) {
    |target| >= 7 && target[..7] == PLAYER_PREFIX
  }

  function SeatOf(target: string): string
    requires NamesPlayer(target)
  {
    target[7..]
  }

  function PlayerTarget(seat: string): (target: string)
    ensures NamesPlayer(target) && SeatOf(target) == seat
  {
    PLAYER_PREFIX + seat
  }

  lemma PlayerTargetOfSeat(target: string)
    requires NamesPlayer(target)
    ensures PlayerTarget(SeatOf(target)) == target
  {
    assert target == target[..7] + target[7..];
  }

  datatype Error =
    | SelfAttachment | UnknownSource | UnknownTarget | BadTimestamp | BadSeat | NotReciprocal | AlreadyNamed

  /** Targets named by cards, sources listed by cards and by players, and card timestamps. */
  datatype Links = Links(
    attachedTo: map<string, Option<string>>,
    cardLists: map<string, seq<string>>,
    seatLists: map<string, seq<string>>,
    stamps: map<string, int>)

  ghost predicate WellFormed(l: Links) {
    && l.attachedTo.Keys == l.cardLists.Keys == l.stamps.Keys
    && forall id :: id in l.cardLists ==> !NamesPlayer(id)
  }

  predicate HasTarget(l: Links, target: string) {
    target in l.cardLists || (NamesPlayer(target) && SeatOf(target) in l.seatLists)
  }

  function ListAt(l: Links, target: string): seq<string>
    requires HasTarget(l, target)
  {
    if target in l.cardLists then l.cardLists[target] else l.seatLists[SeatOf(target)]
  }

  function WithList(l: Links, target: string, list: seq<string>): Links
    requires HasTarget(l, target)
  {
    if target in l.cardLists then l.(cardLists := l.cardLists[target := list])
    else l.(seatLists := l.seatLists[SeatOf(target) := list])
  }

  lemma WithListLooksUp(l: Links, target: string, list: seq<string>, other: string)
    requires WellFormed(l) && HasTarget(l, target)
    ensures WellFormed(WithList(l, target, list))
    ensures HasTarget(WithList(l, target, list), other) <==> HasTarget(l, other)
    ensures HasTarget(l, other) ==>
              ListAt(WithList(l, target, list), other) == if other == target then list else ListAt(l, other)
  {
    if NamesPlayer(target) { PlayerTargetOfSeat(target); }
    if NamesPlayer(other) { PlayerTargetOfSeat(other); }
  }

  /** A source names a target iff the target lists it, and no list repeats a source. */
  ghost predicate Reciprocal(l: Links) {
    && WellFormed(l)
    && (forall s :: s in l.attachedTo && l.attachedTo[s].Some? ==>
          HasTarget(l, l.attachedTo[s].value) && s in ListAt(l, l.attachedTo[s].value))
    && forall t :: HasTarget(l, t) ==>
         && Distinct(ListAt(l, t))
         && forall s :: s in ListAt(l, t) ==> s in l.attachedTo && l.attachedTo[s] == Some(t)
  }

  /** The same, as multiplicities: exactly one listing where the source names the target, and
      no listing anywhere else. */
  lemma ReciprocalMultiplicity(l: Links, s: string, t: string)
    requires Reciprocal(l) && HasTarget(l, t) && s in l.attachedTo
    ensures multiset(ListAt(l, t))[s] == if l.attachedTo[s] == Some(t) then 1 else 0
  {
    DistinctByMultiset(ListAt(l, t));
    assert s in ListAt(l, t) <==> s in multiset(ListAt(l, t));
  }

  /** Drops the first occurrence. */
  function RemoveFirst(list: seq<string>, x: string): (r: seq<string>) {
    if list == [] then []
    else if list[0] == x then list[1..]
    else [list[0]] + RemoveFirst(list[1..], x)
  }

  lemma {:induction false} RemoveFirstDistinct(list: seq<string>, x: string)
    requires Distinct(list)
    ensures Distinct(RemoveFirst(list, x))
    ensures forall y :: y in RemoveFirst(list, x) <==> y in list && y != x
  {
    if list == [] {
    } else {
      var rest := list[1..];
      assert list == [list[0]] + rest;
      assert Distinct(rest) by {
        forall i, j | 0 <= i < j < |rest| ensures rest[i] != rest[j] { assert list[i + 1] != list[j + 1]; }
      }
      assert list[0] !in rest by {
        forall i | 0 <= i < |rest| ensures rest[i] != list[0] { assert list[i + 1] != list[0]; }
      }
      RemoveFirstDistinct(rest, x);
    }
  }

  // ----- steps -----

  /** The target a source names, provided that target lists it. */
  function Previous(l: Links, s: string): Result<Option<string>, Error>
    requires s in l.attachedTo
  {
    match l.attachedTo[s]
    case None => Ok(None)
    case Some(t) => if HasTarget(l, t) && s in ListAt(l, t) then Ok(Some(t)) else Err(NotReciprocal)
  }

  function Unlist(l: Links, s: string, previous: Option<string>): Links
    requires previous.Some? ==> HasTarget(l, previous.value)
  {
    match previous
    case None => l
    case Some(t) => WithList(l, t, RemoveFirst(ListAt(l, t), s))
  }

  /** Attaching a known source to a known target. */
  function Attached(l: Links, s: string, t: string, stamp: int): Result<Links, Error>
    requires s in l.attachedTo && HasTarget(l, t)
  {
    var previous := Previous(l, s);
    if previous.Err? then Err(previous.error)
    else if l.attachedTo[s] == Some(t) then Ok(l)
    else if s in ListAt(l, t) then Err(AlreadyNamed)
    else
      var cleared := Unlist(l, s, previous.value);
      assert HasTarget(cleared, t);
      var named := cleared.(attachedTo := cleared.attachedTo[s := Some(t)], stamps := cleared.stamps[s := stamp]);
      Ok(WithList(named, t, ListAt(named, t) + [s]))
  }

  /** Attaching a card to a card, with every check in order. */
  function AttachedToCard(l: Links, s: string, t: string, stamp: int): Result<Links, Error> {
    if s == t then Err(SelfAttachment)
    else if s !in l.attachedTo then Err(UnknownSource)
    else if t !in l.cardLists then Err(UnknownTarget)
    else if stamp < 0 then Err(BadTimestamp)
    else Attached(l, s, t, stamp)
  }

  predicate ValidSeat(seat: string) {
    seat != "" && !NamesPlayer(seat)
  }

  /** Attaching a card to a player, with every check in order. */
  function AttachedToSeat(l: Links, s: string, seat: string, stamp: int): Result<Links, Error> {
    if s !in l.attachedTo then Err(UnknownSource)
    else if seat !in l.seatLists then Err(UnknownTarget)
    else if stamp < 0 then Err(BadTimestamp)
    else if !ValidSeat(seat) then Err(BadSeat)
    else Attached(l, s, PlayerTarget(seat), stamp)
  }

  function Detached(l: Links, s: string): Result<Links, Error> {
    if s !in l.attachedTo then Err(UnknownSource)
    else
      var previous := Previous(l, s);
      if previous.Err? then Err(previous.error)
      else
        var cleared := Unlist(l, s, previous.value);
        Ok(cleared.(attachedTo := cleared.attachedTo[s := None]))
  }

  /** Everything that touched the card is gone; nothing else moved. */
  function Cleared(l: Links, c: string): Links {
    Links(
      map s | s in l.attachedTo :: if s == c || l.attachedTo[s] == Some(c) then None else l.attachedTo[s],
      map t | t in l.cardLists :: if t == c then [] else RemoveFirst(l.cardLists[t], c),
      map t | t in l.seatLists :: RemoveFirst(l.seatLists[t], c),
      l.stamps)
  }

  // ----- what the steps keep -----

  lemma UnlistKeeps(l: Links, s: string)
    requires Reciprocal(l) && s in l.attachedTo
    ensures Previous(l, s) == Ok(l.attachedTo[s])
    ensures var after := Unlist(l, s, l.attachedTo[s]);
            && WellFormed(after) && after.attachedTo == l.attachedTo && after.stamps == l.stamps
            && forall t :: (HasTarget(after, t) <==> HasTarget(l, t))
                 && (HasTarget(l, t) ==>
                       Distinct(ListAt(after, t)) && forall x :: x in ListAt(after, t) <==> x in ListAt(l, t) && x != s)
  {
    hide RemoveFirst;
    var after := Unlist(l, s, l.attachedTo[s]);
    forall t
      ensures HasTarget(after, t) <==> HasTarget(l, t)
      ensures HasTarget(l, t) ==>
                Distinct(ListAt(after, t)) && forall x :: x in ListAt(after, t) <==> x in ListAt(l, t) && x != s
    {
      if l.attachedTo[s].Some? {
        var p := l.attachedTo[s].value;
        WithListLooksUp(l, p, RemoveFirst(ListAt(l, p), s), t);
        RemoveFirstDistinct(ListAt(l, p), s);
      }
    }
    if l.attachedTo[s].Some? {
      var p := l.attachedTo[s].value;
      WithListLooksUp(l, p, RemoveFirst(ListAt(l, p), s), p);
    }
  }

  /** The lists of `after` are those of `l` with `s` moved to the target `to`. */
  ghost predicate Moved(l: Links, after: Links, s: string, to: Option<string>) {
    && WellFormed(after) && after.attachedTo == l.attachedTo[s := to]
    && forall x :: (HasTarget(after, x) <==> HasTarget(l, x))
         && (HasTarget(l, x) ==>
               && Distinct(ListAt(after, x))
               && forall y :: y in ListAt(after, x) <==> (y in ListAt(l, x) && y != s) || (y == s && to == Some(x)))
  }

  lemma MovedIsReciprocal(l: Links, after: Links, s: string, to: Option<string>)
    requires Reciprocal(l) && s in l.attachedTo && Moved(l, after, s, to)
    requires to.Some? ==> HasTarget(l, to.value)
    ensures Reciprocal(after)
  {
    hide HasTarget, ListAt, WellFormed;
  }

  lemma AttachedKeeps(l: Links, s: string, t: string, stamp: int)
    requires Reciprocal(l) && s in l.attachedTo && HasTarget(l, t)
    ensures Attached(l, s, t, stamp).Ok?
    ensures Reciprocal(Attached(l, s, t, stamp).value)
    ensures Attached(l, s, t, stamp).value.attachedTo == l.attachedTo[s := Some(t)]
  {
    hide RemoveFirst, Unlist, Reciprocal;
    UnlistKeeps(l, s);
    if l.attachedTo[s] != Some(t) {
      NotYetListed(l, s, t);
      var cleared := Unlist(l, s, l.attachedTo[s]);
      var named := cleared.(attachedTo := cleared.attachedTo[s := Some(t)], stamps := cleared.stamps[s := stamp]);
      assert WellFormed(named);
      assert ListAt(named, t) == ListAt(cleared, t);
      var list := ListAt(named, t) + [s];
      var after := WithList(named, t, list);
      WithListLooksUp(named, t, list, t);
      forall x
        ensures HasTarget(after, x) <==> HasTarget(l, x)
        ensures HasTarget(l, x) ==>
                  && Distinct(ListAt(after, x))
                  && forall y :: y in ListAt(after, x) <==>
                       (y in ListAt(l, x) && y != s) || (y == s && Some(t) == Some(x))
      {
        WithListLooksUp(named, t, list, x);
        assert HasTarget(named, x) <==> HasTarget(cleared, x);
        assert HasTarget(named, x) ==> ListAt(named, x) == ListAt(cleared, x);
      }
      MovedIsReciprocal(l, after, s, Some(t));
    } else {
      assert l.attachedTo[s := Some(t)] == l.attachedTo;
    }
  }

  lemma NotYetListed(l: Links, s: string, t: string)
    requires Reciprocal(l) && s in l.attachedTo && HasTarget(l, t) && l.attachedTo[s] != Some(t)
    ensures s !in ListAt(l, t)
  {
  }

  lemma DetachedKeeps(l: Links, s: string)
    requires Reciprocal(l) && s in l.attachedTo
    ensures Detached(l, s).Ok?
    ensures Reciprocal(Detached(l, s).value)
    ensures Detached(l, s).value.attachedTo == l.attachedTo[s := None]
  {
    hide RemoveFirst, Unlist, Reciprocal;
    UnlistKeeps(l, s);
    var cleared := Unlist(l, s, l.attachedTo[s]);
    var after := cleared.(attachedTo := cleared.attachedTo[s := None]);
    forall x
      ensures HasTarget(after, x) <==> HasTarget(l, x)
      ensures HasTarget(l, x) ==> ListAt(after, x) == ListAt(cleared, x)
    {
      assert HasTarget(after, x) <==> HasTarget(cleared, x);
    }
    MovedIsReciprocal(l, after, s, None);
  }

  // ----- clearing a card -----

  /** Where a loop of detachments ends, and with which error if it stops early. */
  datatype Outcome = Outcome(links: Links, error: Option<Error>)

  /** Detaches each listed source in turn, checking that it still names the card. */
  function DetachEach(l: Links, sources: seq<string>, c: string): Outcome
    decreases |sources|
  {
    if sources == [] then Outcome(l, None)
    else if sources[0] !in l.attachedTo || l.attachedTo[sources[0]] != Some(c) then Outcome(l, Some(NotReciprocal))
    else
      match Detached(l, sources[0])
      case Err(error) => Outcome(l, Some(error))
      case Ok(after) => DetachEach(after, sources[1..], c)
  }

  /** Detaches the card, then everything attached to it. */
  function ClearOutcome(l: Links, c: string): Outcome
    requires c in l.attachedTo && WellKeyed(l)
  {
    if l.attachedTo[c] == None then DetachEach(l, l.cardLists[c], c)
    else
      match Detached(l, c)
      case Err(error) => Outcome(l, Some(error))
      case Ok(after) => DetachEach(after, after.cardLists[c], c)
  }

  predicate WellKeyed(l: Links) {
    l.attachedTo.Keys == l.cardLists.Keys
  }

  /** Detaching the whole list of a card empties that list and nothing else. */
  lemma {:induction false} DetachEachEmpties(l: Links, c: string)
    requires Reciprocal(l) && c in l.cardLists
    ensures DetachEach(l, l.cardLists[c], c) ==
            Outcome(l.(attachedTo := map s | s in l.attachedTo ::
                         if l.attachedTo[s] == Some(c) then None else l.attachedTo[s],
                       cardLists := l.cardLists[c := []]), None)
    decreases |l.cardLists[c]|
  {
    var list := l.cardLists[c];
    assert ListAt(l, c) == list;
    if list == [] {
      forall s | s in l.attachedTo ensures l.attachedTo[s] == Some(c) ==> s in ListAt(l, c) {
      }
      assert l.cardLists[c := []] == l.cardLists;
      assert l.attachedTo ==
             map s | s in l.attachedTo :: if l.attachedTo[s] == Some(c) then None else l.attachedTo[s];
    } else {
      var s := list[0];
      assert s in ListAt(l, c);
      DetachedKeeps(l, s);
      var after := Detached(l, s).value;
      assert after == l.(cardLists := l.cardLists[c := list[1..]], attachedTo := l.attachedTo[s := None]);
      DetachEachEmpties(after, c);
      assert after.cardLists[c := []] == l.cardLists[c := []];
    }
  }

  lemma RemoveAbsent(list: seq<string>, x: string)
    requires x !in list
    ensures RemoveFirst(list, x) == list
  {
  }

  /** Clearing a card of a reciprocal relation never fails and leaves exactly the relation
      without the card; that relation is reciprocal again. */
  lemma ClearingIsExact(l: Links, c: string)
    requires Reciprocal(l) && c in l.attachedTo
    ensures ClearOutcome(l, c) == Outcome(Cleared(l, c), None)
    ensures Reciprocal(Cleared(l, c))
  {
    hide RemoveFirst, DetachEach, Reciprocal, Detached;
    DetachedKeeps(l, c);
    DetachedIs(l, c);
    var detached := Detached(l, c).value;
    SameKeys(l);
    DetachEachEmpties(detached, c);
    assert ClearOutcome(l, c) == DetachEach(detached, detached.cardLists[c], c) by {
      if l.attachedTo[c] == None { DetachNothing(l, c); }
    }
    var after := DetachEach(detached, detached.cardLists[c], c).links;
    assert after.attachedTo == Cleared(l, c).attachedTo;
    assert after.cardLists == Cleared(l, c).cardLists;
    assert after.seatLists == Cleared(l, c).seatLists;
    ClearedIsReciprocal(l, c);
  }

  lemma SameKeys(l: Links)
    requires Reciprocal(l)
    ensures l.attachedTo.Keys == l.cardLists.Keys
  {
  }

  lemma DetachNothing(l: Links, s: string)
    requires s in l.attachedTo && l.attachedTo[s] == None
    ensures Detached(l, s) == Ok(l)
  {
    assert l.attachedTo[s := None] == l.attachedTo;
  }

  lemma NotListed(l: Links, s: string, t: string)
    requires Reciprocal(l) && s in l.attachedTo && HasTarget(l, t) && l.attachedTo[s] != Some(t)
    ensures RemoveFirst(ListAt(l, t), s) == ListAt(l, t)
  {
    NotYetListed(l, s, t);
    RemoveAbsent(ListAt(l, t), s);
  }

  lemma DetachedList(l: Links, s: string, t: string)
    requires Reciprocal(l) && s in l.attachedTo
    ensures Detached(l, s).Ok?
    ensures var after := Detached(l, s).value;
            && (HasTarget(after, t) <==> HasTarget(l, t))
            && (HasTarget(l, t) ==> ListAt(after, t) == RemoveFirst(ListAt(l, t), s))
            && after.stamps == l.stamps && after.seatLists.Keys == l.seatLists.Keys
  {
    hide RemoveFirst;
    DetachedKeeps(l, s);
    if HasTarget(l, t) && l.attachedTo[s] != Some(t) { NotListed(l, s, t); }
    if l.attachedTo[s].Some? {
      var p := l.attachedTo[s].value;
      WithListLooksUp(l, p, RemoveFirst(ListAt(l, p), s), t);
    }
  }

  lemma DetachedIs(l: Links, s: string)
    requires Reciprocal(l) && s in l.attachedTo
    ensures var after := Detached(l, s).value;
            && after.stamps == l.stamps
            && after.cardLists.Keys == l.cardLists.Keys && after.seatLists.Keys == l.seatLists.Keys
            && (forall t :: t in l.cardLists ==> after.cardLists[t] == RemoveFirst(l.cardLists[t], s))
            && (forall seat :: seat in l.seatLists ==> after.seatLists[seat] == RemoveFirst(l.seatLists[seat], s))
  {
    DetachedKeeps(l, s);
    SameKeys(l);
    var after := Detached(l, s).value;
    SameKeys(after);
    DetachedList(l, s, "");
    forall t | t in l.cardLists ensures after.cardLists[t] == RemoveFirst(l.cardLists[t], s) {
      DetachedList(l, s, t);
    }
    forall seat | seat in l.seatLists ensures after.seatLists[seat] == RemoveFirst(l.seatLists[seat], s) {
      DetachedList(l, s, PlayerTarget(seat));
    }
  }

  lemma ClearedIsReciprocal(l: Links, c: string)
    requires Reciprocal(l) && c in l.attachedTo
    ensures Reciprocal(Cleared(l, c))
  {
    hide RemoveFirst;
    var after := Cleared(l, c);
    forall t
      ensures HasTarget(after, t) <==> HasTarget(l, t)
      ensures HasTarget(l, t) ==>
                && Distinct(ListAt(after, t))
                && forall x :: x in ListAt(after, t) <==> x in ListAt(l, t) && x != c && t != c
    {
      if HasTarget(l, t) { RemoveFirstDistinct(ListAt(l, t), c); }
    }
  }

  /** Nothing names the cleared card, it names nothing, and it is listed nowhere. */
  lemma ClearedTouchesNothing(l: Links, c: string)
    requires Reciprocal(l) && c in l.attachedTo
    ensures var after := Cleared(l, c);
            && after.attachedTo[c] == None && after.cardLists[c] == []
            && (forall s :: s in after.attachedTo ==> after.attachedTo[s] != Some(c))
            && (forall t :: HasTarget(after, t) ==> c !in ListAt(after, t))
            && (forall s :: s in l.attachedTo && s != c && l.attachedTo[s] != Some(c) ==>
                  after.attachedTo[s] == l.attachedTo[s])
            && (forall t :: HasTarget(l, t) && t != c && c !in ListAt(l, t) ==> ListAt(after, t) == ListAt(l, t))
            && after.stamps == l.stamps
  {
    hide RemoveFirst;
    var after := Cleared(l, c);
    forall t | HasTarget(l, t)
      ensures c !in ListAt(after, t)
      ensures t != c && c !in ListAt(l, t) ==> ListAt(after, t) == ListAt(l, t)
    {
      RemoveFirstDistinct(ListAt(l, t), c);
      if c !in ListAt(l, t) { RemoveAbsent(ListAt(l, t), c); }
    }
  }

  // ----- whole runs -----

  datatype Operation =
    | ToCard(source: string, target: string, stamp: int)
    | ToSeat(source: string, seat: string, stamp: int)
    | Detach(source: string)
    | Clear(card: string)

  /** One operation; a rejected attachment or detachment changes nothing. */
  function After(l: Links, op: Operation): Links
    requires WellKeyed(l)
  {
    match op
    case ToCard(s, t, stamp) => (match AttachedToCard(l, s, t, stamp) case Ok(after) => after case Err(_) => l)
    case ToSeat(s, seat, stamp) => (match AttachedToSeat(l, s, seat, stamp) case Ok(after) => after case Err(_) => l)
    case Detach(s) => (match Detached(l, s) case Ok(after) => after case Err(_) => l)
    case Clear(c) => if c in l.attachedTo then ClearOutcome(l, c).links else l
  }

  lemma AfterKeeps(l: Links, op: Operation)
    requires Reciprocal(l)
    ensures Reciprocal(After(l, op))
  {
    match op
    case ToCard(s, t, stamp) =>
      if AttachedToCard(l, s, t, stamp).Ok? { AttachedKeeps(l, s, t, stamp); }
    case ToSeat(s, seat, stamp) =>
      if AttachedToSeat(l, s, seat, stamp).Ok? { AttachedKeeps(l, s, PlayerTarget(seat), stamp); }
    case Detach(s) =>
      if s in l.attachedTo { DetachedKeeps(l, s); }
    case Clear(c) =>
      if c in l.attachedTo { ClearingIsExact(l, c); }
  }

  /** The relation is the same from both sides in every reachable state. */
  ghost predicate Reaches(l: Links, ops: seq<Operation>, after: Links)
    decreases |ops|
  {
    if ops == [] then after == l
    else WellKeyed(l) && Reaches(After(l, ops[0]), ops[1..], after)
  }

  lemma {:induction false} EveryRunIsReciprocal(l: Links, ops: seq<Operation>, after: Links)
    requires Reciprocal(l) && Reaches(l, ops, after)
    ensures Reciprocal(after)
    decreases |ops|
  {
    hide After;
    if ops == [] {
    } else {
      AfterKeeps(l, ops[0]);
      EveryRunIsReciprocal(After(l, ops[0]), ops[1..], after);
    }
  }

  /** In a reciprocal relation only the checks that do not look at the relation can reject. */
  lemma OnlyRequestsAreRejected(l: Links, s: string, t: string, seat: string, stamp: int)
    requires Reciprocal(l)
    ensures AttachedToCard(l, s, t, stamp).Ok? <==> s != t && s in l.attachedTo && t in l.cardLists && stamp >= 0
    ensures AttachedToSeat(l, s, seat, stamp).Ok? <==>
            && s in l.attachedTo && seat in l.seatLists && stamp >= 0
            && seat != "" && !(|seat| >= 7 && seat[..7] == "player:")
    ensures Detached(l, s).Ok? <==> s in l.attachedTo
  {
    hide Reciprocal;
    if s in l.attachedTo {
      DetachedKeeps(l, s);
      if t in l.cardLists { AttachedKeeps(l, s, t, stamp); }
      if seat in l.seatLists { AttachedKeeps(l, s, PlayerTarget(seat), stamp); }
    }
  }

  /** What a request does to a reciprocal relation, which determines all membership of the lists: an
      accepted attachment renames and restamps the source alone and lists it last at its target, unless
      it is attached there already; a detachment unnames the source alone; clearing leaves the relation
      without the card; and a rejected request changes nothing. */
  lemma RequestsTakeEffect(l: Links, s: string, t: string, seat: string, stamp: int)
    requires Reciprocal(l)
    ensures var m := After(l, ToCard(s, t, stamp));
            if s != t && s in l.attachedTo && t in l.cardLists && stamp >= 0 && l.attachedTo[s] != Some(t) then
              && m.attachedTo == l.attachedTo[s := Some(t)] && m.stamps == l.stamps[s := stamp]
              && t in m.cardLists && m.cardLists[t] != [] && m.cardLists[t][|m.cardLists[t]| - 1] == s
            else m == l
    ensures var m := After(l, ToSeat(s, seat, stamp));
            if s in l.attachedTo && seat in l.seatLists && stamp >= 0
               && seat != "" && !(|seat| >= 7 && seat[..7] == "player:")
               && l.attachedTo[s] != Some("player:" + seat) then
              && m.attachedTo == l.attachedTo[s := Some("player:" + seat)] && m.stamps == l.stamps[s := stamp]
              && seat in m.seatLists && m.seatLists[seat] != [] && m.seatLists[seat][|m.seatLists[seat]| - 1] == s
            else m == l
    ensures var m := After(l, Detach(s));
            if s in l.attachedTo then m.attachedTo == l.attachedTo[s := None] && m.stamps == l.stamps else m == l
    ensures After(l, Clear(s)) == if s in l.attachedTo then Cleared(l, s) else l
  {
    OnlyRequestsAreRejected(l, s, t, seat, stamp);
    if s in l.attachedTo { ClearingIsExact(l, s); }
    if s in l.attachedTo { UnlistKeeps(l, s); }
  }
}

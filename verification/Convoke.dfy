/** The Convoke payment planner (CR 702.51): a table of remainders per selected set of
    permanents, and the search for an affordable plan with the fewest permanents. */
module Convoke {
  import opened Wrappers
  import opened Orders

  // ----- mana vectors -----

  /** Amounts of GENERIC, W, U, B, R, G and C, in that order. */
  type Vec = seq<nat>

  predicate IsVec(v: Vec) { |v| == 7 }

  /** The symbols a permanent can pay; colourless is not among them. */
  datatype Symbol = White | Blue | Black | Red | Green | Generic

  /** Position of a symbol in the payment order. */
  function Rank(s: Symbol): nat {
    match s
    case White => 0
    case Blue => 1
    case Black => 2
    case Red => 3
    case Green => 4
    case Generic => 5
  }

  /** Position of a symbol in a mana vector. */
  function Slot(s: Symbol): (slot: nat)
    ensures slot < 6
  {
    if s == Generic then 0 else Rank(s) + 1
  }

  const PAYMENT_SYMBOLS: seq<Symbol> := [White, Blue, Black, Red, Green, Generic]

  function Payable(v: Vec): nat
    requires IsVec(v)
  {
    v[0] + v[1] + v[2] + v[3] + v[4] + v[5]
  }

  function NatKeys(v: seq<nat>): (ks: seq<Key>)
    ensures |ks| == |v| && forall i :: 0 <= i < |v| ==> ks[i] == Num(v[i])
  {
    seq(|v|, i requires 0 <= i < |v| => Num(v[i]))
  }

  function VecKey(v: Vec): Key { Tup(NatKeys(v)) }

  lemma VecKeyInjective(u: Vec, v: Vec)
    requires VecKey(u) == VecKey(v)
    ensures u == v
  {
    assert |NatKeys(u)| == |NatKeys(v)|;
    forall i | 0 <= i < |u| ensures u[i] == v[i] {
      assert NatKeys(u)[i] == NatKeys(v)[i];
    }
  }

  // ----- candidates and contributions -----

  datatype Candidate = Candidate(ref: string, objectId: string, logicalId: string, colors: set<Symbol>)

  datatype Contribution = Contribution(candidate: Candidate, symbol: Symbol)

  datatype Plan = Plan(requirements: Vec, remaining: Vec, contributions: seq<Contribution>)

  datatype Error = DuplicateIdentity | ExceedsCost | WrongRemainder

  predicate Allowed(c: Candidate, s: Symbol) {
    s == Generic || s in c.colors
  }

  function CandidateKey(c: Candidate): Key {
    Tup([Str(c.objectId), Str(c.logicalId), Str(c.ref)])
  }

  function ContributionKey(c: Contribution): Key { CandidateKey(c.candidate) }

  predicate DistinctIdentities(cs: seq<Candidate>) {
    && (forall i, j :: 0 <= i < j < |cs| ==> cs[i].objectId != cs[j].objectId)
    && (forall i, j :: 0 <= i < j < |cs| ==> cs[i].logicalId != cs[j].logicalId)
  }

  predicate DistinctRefs(cs: seq<Candidate>) {
    forall i, j :: 0 <= i < j < |cs| ==> cs[i].ref != cs[j].ref
  }

  /** Candidates in canonical order with unique identities. */
  ghost predicate Canonical(cs: seq<Candidate>) {
    Sorted(ByKey(CandidateKey), cs) && DistinctIdentities(cs) && DistinctRefs(cs)
  }

  function CanonicalCandidates(cs: seq<Candidate>): Result<seq<Candidate>, Error> {
    var result := Sort(ByKey(CandidateKey), cs);
    if DistinctIdentities(result) && DistinctRefs(result) then Ok(result) else Err(DuplicateIdentity)
  }

  function Candidates(cs: seq<Contribution>): (r: seq<Candidate>)
    ensures |r| == |cs| && forall i :: 0 <= i < |cs| ==> r[i] == cs[i].candidate
  {
    seq(|cs|, i requires 0 <= i < |cs| => cs[i].candidate)
  }

  /** Canonical candidates are the input in canonical order. */
  lemma CanonicalCandidatesAre(cs: seq<Candidate>)
    ensures var r := CanonicalCandidates(cs);
            r.Ok? ==> Canonical(r.value) && SameElements(r.value, cs) && |r.value| == |cs|
  {
    var s := Sort(ByKey(CandidateKey), cs);
    if DistinctIdentities(s) {
      assert UniqueKeys(CandidateKey, s);
      SortByUniqueKey(CandidateKey, cs);
    }
  }

  /** Canonical candidates depend on the candidates only, not on their order. */
  lemma InputOrderIsIrrelevant(cs: seq<Candidate>, ds: seq<Candidate>)
    requires multiset(cs) == multiset(ds)
    ensures CanonicalCandidates(cs) == CanonicalCandidates(ds)
  {
    hide ByKey, Sort, Sorted;
    var s, t := Sort(ByKey(CandidateKey), cs), Sort(ByKey(CandidateKey), ds);
    if DistinctIdentities(s) || DistinctIdentities(t) {
      assert UniqueKeys(CandidateKey, s) || UniqueKeys(CandidateKey, t) by {
        forall x: Candidate, y: Candidate | x.objectId != y.objectId ensures CandidateKey(x) != CandidateKey(y) {
        }
      }
      if UniqueKeys(CandidateKey, s) {
        UniqueKeysPermute(CandidateKey, t, s);
      } else {
        UniqueKeysPermute(CandidateKey, s, t);
      }
      SortByUniqueKey(CandidateKey, cs);
      SortByUniqueKey(CandidateKey, ds);
      SameMultiset(cs, ds);
      ByKeyOrder(CandidateKey);
      SortedUnique(ByKey(CandidateKey), s, t);
    }
  }

  // ----- assignments -----

  /** One allowed symbol per selected permanent, in order. */
  ghost predicate Assigns(selected: seq<Candidate>, cs: seq<Contribution>) {
    && |cs| == |selected|
    && forall i :: 0 <= i < |cs| ==> cs[i].candidate == selected[i] && Allowed(selected[i], cs[i].symbol)
  }

  ghost function Paid(cs: seq<Contribution>, slot: nat): nat {
    if cs == [] then 0
    else Paid(cs[..|cs| - 1], slot) + if Slot(cs[|cs| - 1].symbol) == slot then 1 else 0
  }

  /** Conservation: what the contributions pay and what remains add up to the cost. */
  ghost predicate Leaves(base: Vec, cs: seq<Contribution>, rem: Vec) {
    IsVec(base) && IsVec(rem) && forall slot :: 0 <= slot < 7 ==> rem[slot] + Paid(cs, slot) == base[slot]
  }

  function Ranks(cs: seq<Contribution>): (ks: seq<Key>)
    ensures |ks| == |cs| && forall i :: 0 <= i < |cs| ==> ks[i] == Num(Rank(cs[i].symbol))
  {
    seq(|cs|, i requires 0 <= i < |cs| => Num(Rank(cs[i].symbol)))
  }

  /** Lexicographic comparison of the paid symbols in payment order. */
  predicate Before(a: seq<Contribution>, b: seq<Contribution>) {
    TupLess(Ranks(a), Ranks(b))
  }

  /** The lexicographically least assignment that leaves `rem`. */
  ghost predicate IsBest(base: Vec, selected: seq<Candidate>, rem: Vec, cs: seq<Contribution>) {
    && Assigns(selected, cs) && Leaves(base, cs, rem)
    && forall other :: Assigns(selected, other) && Leaves(base, other, rem) ==> other == cs || Before(cs, other)
  }

  ghost predicate Reachable(base: Vec, selected: seq<Candidate>, rem: Vec) {
    exists cs :: Assigns(selected, cs) && Leaves(base, cs, rem)
  }

  /** Exactly one entry per reachable remainder: its best assignment. */
  ghost predicate IsTable(base: Vec, selected: seq<Candidate>, states: map<Vec, seq<Contribution>>) {
    && (forall rem :: Reachable(base, selected, rem) ==> rem in states)
    && forall rem :: rem in states ==> IsBest(base, selected, rem, states[rem])
  }

  /** The remainder after the contributions are spent one by one, as the plan checks it. */
  function Spend(base: Vec, cs: seq<Contribution>): (r: Option<Vec>)
    requires IsVec(base)
    ensures r.Some? ==> IsVec(r.value)
  {
    if cs == [] then Some(base)
    else
      match Spend(base, cs[..|cs| - 1])
      case None => None
      case Some(v) =>
        var slot := Slot(cs[|cs| - 1].symbol);
        if v[slot] == 0 then None else Some(v[slot := v[slot] - 1])
  }

  lemma {:induction false} SpendIsConservation(base: Vec, cs: seq<Contribution>, rem: Vec)
    requires IsVec(base)
    ensures Spend(base, cs) == Some(rem) <==> Leaves(base, cs, rem)
    ensures Leaves(base, cs, rem) ==> Payable(base) == Payable(rem) + |cs| && rem[6] == base[6]
    decreases |cs|
  {
    if cs == [] {
      if Leaves(base, cs, rem) {
        forall i | 0 <= i < 7 ensures rem[i] == base[i] { assert rem[i] + Paid(cs, i) == base[i]; }
        assert rem == base;
      }
    } else {
      var front, slot := cs[..|cs| - 1], Slot(cs[|cs| - 1].symbol);
      match Spend(base, front) {
        case Some(v) =>
          SpendIsConservation(base, front, v);
          LeavesOne(base, front, v, slot, cs, rem);
        case None =>
      }
      if Leaves(base, cs, rem) {
        LeavesFront(base, cs, rem);
        SpendIsConservation(base, front, rem[slot := rem[slot] + 1]);
      }
    }
  }

  /** Taking back the last contribution. */
  lemma LeavesFront(base: Vec, cs: seq<Contribution>, rem: Vec)
    requires cs != [] && Leaves(base, cs, rem)
    ensures var slot := Slot(cs[|cs| - 1].symbol);
            Leaves(base, cs[..|cs| - 1], rem[slot := rem[slot] + 1])
  {
    var front, slot := cs[..|cs| - 1], Slot(cs[|cs| - 1].symbol);
    forall i | 0 <= i < 7 ensures rem[slot := rem[slot] + 1][i] + Paid(front, i) == base[i] {
      assert rem[i] + Paid(cs, i) == base[i];
    }
  }

  lemma LeavesOne(base: Vec, front: seq<Contribution>, v: Vec, slot: nat, cs: seq<Contribution>, rem: Vec)
    requires cs != [] && front == cs[..|cs| - 1] && slot == Slot(cs[|cs| - 1].symbol)
    requires Leaves(base, front, v)
    ensures Leaves(base, cs, rem) <==> v[slot] > 0 && rem == v[slot := v[slot] - 1]
  {
    if Leaves(base, cs, rem) {
      forall i | 0 <= i < 7 ensures rem[i] == if i == slot then v[i] - 1 else v[i] {
        assert rem[i] + Paid(cs, i) == base[i] && v[i] + Paid(front, i) == base[i];
      }
    }
  }

  // ----- comparing assignments -----

  predicate NotAfter(a: seq<Contribution>, b: seq<Contribution>) {
    a == b || Before(a, b)
  }

  lemma SameRanks(selected: seq<Candidate>, a: seq<Contribution>, b: seq<Contribution>)
    requires Assigns(selected, a) && Assigns(selected, b) && Ranks(a) == Ranks(b)
    ensures a == b
  {
    forall i | 0 <= i < |a| ensures a[i] == b[i] {
      assert Ranks(a)[i] == Ranks(b)[i];
    }
  }

  lemma Comparable(selected: seq<Candidate>, a: seq<Contribution>, b: seq<Contribution>)
    requires Assigns(selected, a) && Assigns(selected, b)
    ensures NotAfter(a, b) || Before(b, a)
    ensures NotAfter(a, b) ==> !Before(b, a)
  {
    TupTrichotomy(Ranks(a), Ranks(b));
    if Ranks(a) == Ranks(b) { SameRanks(selected, a, b); }
  }

  lemma NotAfterTransitive(a: seq<Contribution>, b: seq<Contribution>, c: seq<Contribution>)
    requires NotAfter(a, b) && NotAfter(b, c)
    ensures NotAfter(a, c)
  {
    if Before(a, b) && Before(b, c) { TupTransitive(Ranks(a), Ranks(b), Ranks(c)); }
  }

  lemma {:induction false} TupLessAppend(p: seq<Key>, q: seq<Key>, x: Key, y: Key)
    requires |p| == |q| && TupLess(p, q)
    ensures TupLess(p + [x], q + [y])
  {
    assert (p + [x])[1..] == p[1..] + [x] && (q + [y])[1..] == q[1..] + [y];
    if !KeyLess(p[0], q[0]) { TupLessAppend(p[1..], q[1..], x, y); }
  }

  lemma NotAfterAppend(a: seq<Contribution>, b: seq<Contribution>, x: Contribution)
    requires |a| == |b| && NotAfter(a, b)
    ensures NotAfter(a + [x], b + [x])
  {
    if Before(a, b) {
      var k := Num(Rank(x.symbol));
      TupLessAppend(Ranks(a), Ranks(b), k, k);
      assert Ranks(a + [x]) == Ranks(a) + [k] && Ranks(b + [x]) == Ranks(b) + [k];
    }
  }

  // ----- one permanent at a time -----

  type Proposal = (Vec, seq<Contribution>)

  /** Replaces the entry for a remainder only by a strictly earlier proposal. */
  function Offer(next: map<Vec, seq<Contribution>>, rem: Vec, proposal: seq<Contribution>)
    : map<Vec, seq<Contribution>>
  {
    if rem !in next || Before(proposal, next[rem]) then next[rem := proposal] else next
  }

  /** `next` keeps, per remainder, the earliest of the proposals made so far. */
  ghost predicate Keeps(selected: seq<Candidate>, next: map<Vec, seq<Contribution>>, made: set<Proposal>) {
    && (forall x :: x in made ==> Assigns(selected, x.1) && x.0 in next && NotAfter(next[x.0], x.1))
    && forall rem :: rem in next ==> (rem, next[rem]) in made
  }

  lemma OfferKeeps(selected: seq<Candidate>, next: map<Vec, seq<Contribution>>, made: set<Proposal>,
                   rem: Vec, proposal: seq<Contribution>)
    requires Keeps(selected, next, made) && Assigns(selected, proposal)
    ensures Keeps(selected, Offer(next, rem, proposal), made + {(rem, proposal)})
  {
    var after := Offer(next, rem, proposal);
    if rem in next {
      assert (rem, next[rem]) in made;
      Comparable(selected, proposal, next[rem]);
      Comparable(selected, next[rem], proposal);
    }
    forall x | x in made + {(rem, proposal)} ensures x.0 in after && NotAfter(after[x.0], x.1) {
      if x in made && x.0 == rem && after[rem] == proposal {
        NotAfterTransitive(proposal, next[rem], x.1);
      }
    }
  }

  function Lowered(rem: Vec, s: Symbol): Vec
    requires IsVec(rem) && rem[Slot(s)] > 0
  {
    rem[Slot(s) := rem[Slot(s)] - 1]
  }

  predicate Payer(rem: Vec, c: Candidate, s: Symbol) {
    IsVec(rem) && rem[Slot(s)] > 0 && Allowed(c, s)
  }

  function ProposalFor(states: map<Vec, seq<Contribution>>, c: Candidate, rem: Vec, s: Symbol): Proposal
    requires rem in states && Payer(rem, c, s)
  {
    (Lowered(rem, s), states[rem] + [Contribution(c, s)])
  }

  ghost predicate IsProposal(states: map<Vec, seq<Contribution>>, c: Candidate, x: Proposal) {
    exists rem, s :: rem in states && Payer(rem, c, s) && x == ProposalFor(states, c, rem, s)
  }

  /** `made` holds exactly the proposals for one more permanent. */
  ghost predicate AllProposals(states: map<Vec, seq<Contribution>>, c: Candidate, made: set<Proposal>) {
    && (forall x :: x in made ==> IsProposal(states, c, x))
    && forall rem, s :: rem in states && Payer(rem, c, s) ==> ProposalFor(states, c, rem, s) in made
  }

  lemma ProposalIsAssignment(base: Vec, selected: seq<Candidate>, states: map<Vec, seq<Contribution>>,
                             c: Candidate, rem: Vec, s: Symbol)
    requires IsTable(base, selected, states) && rem in states && Payer(rem, c, s)
    ensures var x := ProposalFor(states, c, rem, s);
            Assigns(selected + [c], x.1) && Leaves(base, x.1, x.0)
  {
    var x := ProposalFor(states, c, rem, s);
    assert x.1[..|x.1| - 1] == states[rem];
    assert IsBest(base, selected, rem, states[rem]);
    LeavesOne(base, states[rem], rem, Slot(s), x.1, x.0);
  }

  /** Optimal substructure: every longer assignment is matched by a proposal no later. */
  lemma AssignmentIsMatched(base: Vec, selected: seq<Candidate>, states: map<Vec, seq<Contribution>>,
                            c: Candidate, rem: Vec, cs: seq<Contribution>) returns (before: Vec, s: Symbol)
    requires IsTable(base, selected, states)
    requires Assigns(selected + [c], cs) && Leaves(base, cs, rem)
    ensures before in states && Payer(before, c, s)
    ensures ProposalFor(states, c, before, s).0 == rem
    ensures NotAfter(ProposalFor(states, c, before, s).1, cs)
  {
    hide Before, Ranks, Paid;
    var n := |selected|;
    var front := cs[..n];
    assert cs == front + [cs[n]] && cs[n].candidate == c;
    s := cs[n].symbol;
    before := rem[Slot(s) := rem[Slot(s)] + 1];
    LeavesFront(base, cs, rem);
    assert Assigns(selected, front) by {
      forall i | 0 <= i < n ensures cs[i].candidate == selected[i] && Allowed(selected[i], cs[i].symbol) {
        assert (selected + [c])[i] == selected[i];
      }
    }
    assert Reachable(base, selected, before);
    assert IsBest(base, selected, before, states[before]);
    NotAfterAppend(states[before], front, cs[n]);
    assert cs[n] == Contribution(c, s);
  }

  /** The table of one more permanent. */
  lemma TableStep(base: Vec, selected: seq<Candidate>, states: map<Vec, seq<Contribution>>,
                  c: Candidate, next: map<Vec, seq<Contribution>>, made: set<Proposal>)
    requires IsTable(base, selected, states)
    requires AllProposals(states, c, made) && Keeps(selected + [c], next, made)
    ensures IsTable(base, selected + [c], next)
  {
    forall rem, cs | Assigns(selected + [c], cs) && Leaves(base, cs, rem)
      ensures rem in next && NotAfter(next[rem], cs)
    {
      var before, s := AssignmentIsMatched(base, selected, states, c, rem, cs);
      var x := ProposalFor(states, c, before, s);
      assert x in made;
      NotAfterTransitive(next[rem], x.1, cs);
    }
    forall rem | rem in next ensures IsBest(base, selected + [c], rem, next[rem]) {
      assert IsProposal(states, c, (rem, next[rem]));
      var before, s :| before in states && Payer(before, c, s) && (rem, next[rem]) == ProposalFor(states, c, before, s);
      ProposalIsAssignment(base, selected, states, c, before, s);
    }
  }

  /** Symbols the permanent can still pay, in payment order. */
  function Choices(symbols: seq<Symbol>, rem: Vec, c: Candidate): (r: seq<Symbol>)
    ensures forall s :: s in r <==> s in symbols && Payer(rem, c, s)
  {
    if symbols == [] then []
    else (if Payer(rem, c, symbols[0]) then [symbols[0]] else []) + Choices(symbols[1..], rem, c)
  }

  lemma EverySymbolListed(s: Symbol)
    ensures s in PAYMENT_SYMBOLS
  {
    assert PAYMENT_SYMBOLS[Rank(s)] == s;
  }

  lemma VecKeysInjective(s: set<Vec>)
    ensures InjectiveOn(VecKey, s)
  {
    forall x, y | x in s && y in s && VecKey(x) == VecKey(y) ensures x == y {
      VecKeyInjective(x, y);
    }
  }

  /** Extends the table of `selected` by one permanent. */
  method Extend(base: Vec, ghost selected: seq<Candidate>, states: map<Vec, seq<Contribution>>, candidate: Candidate)
    returns (next: map<Vec, seq<Contribution>>)
    requires IsTable(base, selected, states)
    ensures IsTable(base, selected + [candidate], next)
  {
    hide *;
    next := map[];
    ghost var made: set<Proposal> := {};
    NothingKept(selected + [candidate]);
    VecKeysInjective(states.Keys);
    var order := SortSet(VecKey, states.Keys);
    var i := 0;
    while i < |order|
      invariant 0 <= i <= |order|
      invariant Keeps(selected + [candidate], next, made)
      invariant forall x :: x in made ==> IsProposal(states, candidate, x)
      invariant forall k, s :: 0 <= k < i && Payer(order[k], candidate, s) ==>
                  ProposalFor(states, candidate, order[k], s) in made
    {
      var remaining := order[i];
      var choices := Choices(PAYMENT_SYMBOLS, remaining, candidate);
      var j := 0;
      while j < |choices|
        invariant 0 <= j <= |choices|
        invariant Keeps(selected + [candidate], next, made)
        invariant forall x :: x in made ==> IsProposal(states, candidate, x)
        invariant forall k, s :: 0 <= k < i && Payer(order[k], candidate, s) ==>
                    ProposalFor(states, candidate, order[k], s) in made
        invariant forall k :: 0 <= k < j ==> ProposalFor(states, candidate, remaining, choices[k]) in made
      {
        assert choices[j] in choices;
        ghost var x := ProposalFor(states, candidate, remaining, choices[j]);
        ProposalIsAssignment(base, selected, states, candidate, remaining, choices[j]);
        MadeFrom(states, candidate, remaining, choices[j]);
        var lowered := Lowered(remaining, choices[j]);
        var proposal := states[remaining] + [Contribution(candidate, choices[j])];
        OfferKeeps(selected + [candidate], next, made, lowered, proposal);
        next := Offer(next, lowered, proposal);
        made := made + {x};
        j := j + 1;
      }
      forall s | Payer(remaining, candidate, s) ensures ProposalFor(states, candidate, remaining, s) in made {
        EverySymbolListed(s);
        assert s in choices;
      }
      i := i + 1;
    }
    AllMade(states, candidate, order, made);
    TableStep(base, selected, states, candidate, next, made);
  }

  lemma NothingKept(selected: seq<Candidate>)
    ensures Keeps(selected, map[], {})
  {
  }

  lemma MadeFrom(states: map<Vec, seq<Contribution>>, c: Candidate, rem: Vec, s: Symbol)
    requires rem in states && Payer(rem, c, s)
    ensures IsVec(rem) && rem[Slot(s)] > 0
    ensures ProposalFor(states, c, rem, s) == (Lowered(rem, s), states[rem] + [Contribution(c, s)])
    ensures IsProposal(states, c, ProposalFor(states, c, rem, s))
  {
  }

  lemma AllMade(states: map<Vec, seq<Contribution>>, c: Candidate, order: seq<Vec>, made: set<Proposal>)
    requires forall rem :: rem in order <==> rem in states
    requires forall x :: x in made ==> IsProposal(states, c, x)
    requires forall k, s :: 0 <= k < |order| && Payer(order[k], c, s) ==> ProposalFor(states, c, order[k], s) in made
    ensures AllProposals(states, c, made)
  {
    forall rem, s | rem in states && Payer(rem, c, s) ensures ProposalFor(states, c, rem, s) in made {
      assert rem in order;
    }
  }

  // ----- plans -----

  lemma {:induction false} SpendStops(base: Vec, cs: seq<Contribution>, i: nat)
    requires IsVec(base) && i <= |cs| && Spend(base, cs[..i]) == None
    ensures Spend(base, cs) == None
    decreases |cs|
  {
    if i < |cs| {
      assert cs[..|cs| - 1][..i] == cs[..i];
      SpendStops(base, cs[..|cs| - 1], i);
    } else {
      assert cs[..i] == cs;
    }
  }

  /** Builds a plan, rejecting repeated identities and contributions that do not conserve
      the announced cost. */
  method MakePlan(requirements: Vec, remaining: Vec, contributions: seq<Contribution>) returns (r: Result<Plan, Error>)
    requires IsVec(requirements) && IsVec(remaining)
    ensures var canonical := Sort(ByKey(ContributionKey), contributions);
            && (r.Ok? <==> DistinctIdentities(Candidates(canonical)) && Leaves(requirements, canonical, remaining))
            && (r.Ok? ==> r.value == Plan(requirements, remaining, canonical))
  {
    hide Leaves, Paid, Sort, DistinctIdentities;
    var canonical := Sort(ByKey(ContributionKey), contributions);
    if !DistinctIdentities(Candidates(canonical)) {
      return Err(DuplicateIdentity);
    }
    SpendIsConservation(requirements, canonical, remaining);
    var expected, i := requirements, 0;
    while i < |canonical|
      invariant 0 <= i <= |canonical|
      invariant Spend(requirements, canonical[..i]) == Some(expected)
    {
      var slot := Slot(canonical[i].symbol);
      assert canonical[..i + 1][..i] == canonical[..i];
      if expected[slot] == 0 {
        SpendStops(requirements, canonical, i + 1);
        return Err(ExceedsCost);
      }
      expected := expected[slot := expected[slot] - 1];
      i := i + 1;
    }
    assert canonical[..i] == canonical;
    if expected != remaining {
      return Err(WrongRemainder);
    }
    return Ok(Plan(requirements, remaining, canonical));
  }

  /** One plan per reachable remainder, in remainder order, each the best for its remainder. */
  ghost predicate IsPlanList(base: Vec, selected: seq<Candidate>, plans: seq<Plan>) {
    && (forall i, j :: 0 <= i < j < |plans| ==> KeyLess(VecKey(plans[i].remaining), VecKey(plans[j].remaining)))
    && (forall i :: 0 <= i < |plans| ==>
          plans[i].requirements == base && IsBest(base, selected, plans[i].remaining, plans[i].contributions))
    && forall rem :: Reachable(base, selected, rem) ==> exists i :: 0 <= i < |plans| && plans[i].remaining == rem
  }

  lemma {:induction false} PrefixReachable(base: Vec, selected: seq<Candidate>, i: nat, cs: seq<Contribution>, rem: Vec)
    returns (before: Vec)
    requires i <= |selected| && Assigns(selected, cs) && Leaves(base, cs, rem)
    ensures Reachable(base, selected[..i], before)
    decreases |selected|
  {
    if i == |selected| {
      assert selected[..i] == selected;
      before := rem;
    } else {
      var n := |selected| - 1;
      LeavesFront(base, cs, rem);
      assert selected[..n][..i] == selected[..i];
      var slot := Slot(cs[n].symbol);
      before := PrefixReachable(base, selected[..n], i, cs[..n], rem[slot := rem[slot] + 1]);
    }
  }

  /** Nothing is reachable with more permanents than the cost has payable symbols. */
  lemma TooManyPermanents(base: Vec, selected: seq<Candidate>)
    requires IsVec(base) && |selected| > Payable(base)
    ensures forall rem :: !Reachable(base, selected, rem)
  {
    forall cs, rem | Assigns(selected, cs) && Leaves(base, cs, rem) ensures false {
      SpendIsConservation(base, cs, rem);
    }
  }

  /** The contributions of an assignment to canonical candidates are already canonical. */
  lemma AssignmentIsCanonical(selected: seq<Candidate>, cs: seq<Contribution>)
    requires Canonical(selected) && Assigns(selected, cs)
    ensures Sort(ByKey(ContributionKey), cs) == cs && Candidates(cs) == selected
  {
    ByKeyOrder(ContributionKey);
    var byCandidate, byContribution := ByKey(CandidateKey), ByKey(ContributionKey);
    forall i, j | 0 <= i < j < |cs| ensures byContribution(cs[i], cs[j]) {
      assert byCandidate(selected[i], selected[j]);
      assert KeyLess(CandidateKey(selected[i]), CandidateKey(selected[j]));
      assert ContributionKey(cs[i]) == CandidateKey(selected[i]);
      assert ContributionKey(cs[j]) == CandidateKey(selected[j]);
    }
    assert Candidates(cs) == selected;
    SortOfSorted(ByKey(ContributionKey), cs);
  }

  lemma StartTable(base: Vec)
    requires IsVec(base)
    ensures IsTable(base, [], map[base := []])
  {
    forall rem, cs | Assigns([], cs) && Leaves(base, cs, rem) ensures rem == base && cs == [] {
      SpendIsConservation(base, cs, rem);
      assert cs == [];
    }
    SpendIsConservation(base, [], base);
  }

  lemma DeadEnd(base: Vec, selected: seq<Candidate>, i: nat)
    requires i <= |selected| && IsTable(base, selected[..i], map[])
    ensures IsPlanList(base, selected, [])
  {
    forall rem, cs | Assigns(selected, cs) && Leaves(base, cs, rem) ensures false {
      var before := PrefixReachable(base, selected, i, cs, rem);
    }
  }

  /** The canonical plans of the selected permanents. Building them never fails. */
  method PlansForSelected(base: Vec, candidates: seq<Candidate>) returns (r: Result<seq<Plan>, Error>)
    requires IsVec(base)
    ensures CanonicalCandidates(candidates).Err? <==> r.Err?
    ensures r.Ok? ==> IsPlanList(base, CanonicalCandidates(candidates).value, r.value)
  {
    hide *;
    var canonical := CanonicalCandidates(candidates);
    if canonical.Err? {
      return Err(canonical.error);
    }
    CanonicalCandidatesAre(candidates);
    var selected := canonical.value;
    if |selected| > Payable(base) {
      TooManyPermanents(base, selected);
      NoPlans(base, selected);
      return Ok([]);
    }
    var states: map<Vec, seq<Contribution>> := map[base := []];
    StartTable(base);
    assert selected[..0] == [];
    var i := 0;
    while i < |selected|
      invariant 0 <= i <= |selected|
      invariant IsTable(base, selected[..i], states)
    {
      states := Extend(base, selected[..i], states, selected[i]);
      assert selected[..i + 1] == selected[..i] + [selected[i]];
      i := i + 1;
      if states == map[] {
        DeadEnd(base, selected, i);
        return Ok([]);
      }
    }
    assert selected[..i] == selected;
    VecKeysInjective(states.Keys);
    var order := SortSet(VecKey, states.Keys);
    var plans: seq<Plan> := [];
    i := 0;
    while i < |order|
      invariant 0 <= i <= |order| && |plans| == i
      invariant forall k :: 0 <= k < i ==> plans[k] == Plan(base, order[k], states[order[k]])
    {
      TableEntry(base, selected, states, order[i]);
      var plan := MakePlan(base, order[i], states[order[i]]);
      plans := plans + [plan.value];
      i := i + 1;
    }
    PlansOfTable(base, selected, states, order, plans);
    return Ok(plans);
  }

  lemma NoPlans(base: Vec, selected: seq<Candidate>)
    requires forall rem :: !Reachable(base, selected, rem)
    ensures IsPlanList(base, selected, [])
  {
  }

  lemma TableEntry(base: Vec, selected: seq<Candidate>, states: map<Vec, seq<Contribution>>, rem: Vec)
    requires Canonical(selected) && IsTable(base, selected, states) && rem in states
    ensures IsVec(rem) && Leaves(base, states[rem], rem)
    ensures Sort(ByKey(ContributionKey), states[rem]) == states[rem]
    ensures DistinctIdentities(Candidates(states[rem]))
  {
    assert IsBest(base, selected, rem, states[rem]);
    AssignmentIsCanonical(selected, states[rem]);
  }

  lemma PlansOfTable(base: Vec, selected: seq<Candidate>, states: map<Vec, seq<Contribution>>,
                     order: seq<Vec>, plans: seq<Plan>)
    requires IsTable(base, selected, states)
    requires Sorted(ByKey(VecKey), order) && forall rem :: rem in order <==> rem in states
    requires |plans| == |order| && forall k :: 0 <= k < |order| ==> plans[k] == Plan(base, order[k], states[order[k]])
    ensures IsPlanList(base, selected, plans)
  {
    forall i, j | 0 <= i < j < |plans| ensures KeyLess(VecKey(plans[i].remaining), VecKey(plans[j].remaining)) {
      assert ByKey(VecKey)(order[i], order[j]);
    }
    forall i | 0 <= i < |plans| ensures IsBest(base, selected, plans[i].remaining, plans[i].contributions) {
      assert order[i] in order;
    }
    forall rem | Reachable(base, selected, rem) ensures exists i :: 0 <= i < |plans| && plans[i].remaining == rem {
      assert rem in order;
      var i :| 0 <= i < |order| && order[i] == rem;
      assert plans[i].remaining == rem;
    }
  }

  // ----- choosing a plan -----

  type Affordability = Plan -> bool

  /** Every remainder's best plan for these permanents is unaffordable. */
  ghost predicate NoneAffordable(base: Vec, selected: seq<Candidate>, affordable: Affordability) {
    forall rem, cs :: IsBest(base, selected, rem, cs) ==> !affordable(Plan(base, rem, cs))
  }

  /** An affordable plan for exactly these permanents, the first in remainder order. */
  ghost predicate IsFirstAffordable(base: Vec, selected: seq<Candidate>, affordable: Affordability, plan: Plan) {
    && plan.requirements == base && affordable(plan)
    && IsBest(base, selected, plan.remaining, plan.contributions)
    && forall rem, cs :: IsBest(base, selected, rem, cs) && KeyLess(VecKey(rem), VecKey(plan.remaining)) ==>
         !affordable(Plan(base, rem, cs))
  }

  lemma BestIsUnique(base: Vec, selected: seq<Candidate>, rem: Vec, a: seq<Contribution>, b: seq<Contribution>)
    requires IsBest(base, selected, rem, a) && IsBest(base, selected, rem, b)
    ensures a == b
  {
    Comparable(selected, a, b);
  }

  lemma ListedBest(base: Vec, selected: seq<Candidate>, plans: seq<Plan>, rem: Vec, cs: seq<Contribution>)
    returns (i: nat)
    requires IsPlanList(base, selected, plans) && IsBest(base, selected, rem, cs)
    ensures i < |plans| && plans[i] == Plan(base, rem, cs)
  {
    assert Reachable(base, selected, rem);
    i :| 0 <= i < |plans| && plans[i].remaining == rem;
    BestIsUnique(base, selected, rem, plans[i].contributions, cs);
  }

  lemma FirstInList(base: Vec, selected: seq<Candidate>, plans: seq<Plan>, affordable: Affordability, i: nat)
    requires IsPlanList(base, selected, plans) && i < |plans| && affordable(plans[i])
    requires forall k :: 0 <= k < i ==> !affordable(plans[k])
    ensures IsFirstAffordable(base, selected, affordable, plans[i])
  {
    forall rem, cs | IsBest(base, selected, rem, cs) && KeyLess(VecKey(rem), VecKey(plans[i].remaining))
      ensures !affordable(Plan(base, rem, cs))
    {
      var k := ListedBest(base, selected, plans, rem, cs);
      if k > i { KeyTrichotomy(VecKey(plans[i].remaining), VecKey(rem)); }
      if k == i { KeyTrichotomy(VecKey(rem), VecKey(rem)); }
    }
  }

  method SelectPlan(base: Vec, candidates: seq<Candidate>, affordable: Affordability)
    returns (r: Result<Option<Plan>, Error>)
    requires IsVec(base)
    ensures CanonicalCandidates(candidates).Err? <==> r.Err?
    ensures r.Ok? ==>
              var selected := CanonicalCandidates(candidates).value;
              match r.value
              case None => NoneAffordable(base, selected, affordable)
              case Some(plan) => IsFirstAffordable(base, selected, affordable, plan)
  {
    hide *;
    var plans := PlansForSelected(base, candidates);
    if plans.Err? {
      return Err(plans.error);
    }
    ghost var selected := CanonicalCandidates(candidates).value;
    var i := 0;
    while i < |plans.value|
      invariant 0 <= i <= |plans.value|
      invariant forall k :: 0 <= k < i ==> !affordable(plans.value[k])
    {
      if affordable(plans.value[i]) {
        FirstInList(base, selected, plans.value, affordable, i);
        return Ok(Some(plans.value[i]));
      }
      i := i + 1;
    }
    NoneInList(base, selected, plans.value, affordable);
    return Ok(None);
  }

  lemma NoneInList(base: Vec, selected: seq<Candidate>, plans: seq<Plan>, affordable: Affordability)
    requires IsPlanList(base, selected, plans)
    requires forall k :: 0 <= k < |plans| ==> !affordable(plans[k])
    ensures NoneAffordable(base, selected, affordable)
  {
    forall rem, cs | IsBest(base, selected, rem, cs) ensures !affordable(Plan(base, rem, cs)) {
      var k := ListedBest(base, selected, plans, rem, cs);
    }
  }

  // ----- the smallest selection -----

  function Prepend<T>(x: T, ss: seq<seq<T>>): (r: seq<seq<T>>)
    ensures |r| == |ss| && forall i :: 0 <= i < |ss| ==> r[i] == [x] + ss[i]
  {
    seq(|ss|, i requires 0 <= i < |ss| => [x] + ss[i])
  }

  /** Selections of `count` positions of `s`, in lexicographic order of positions. */
  function Combinations<T>(s: seq<T>, count: nat): (r: seq<seq<T>>) {
    if count == 0 then [[]]
    else if s == [] then []
    else Prepend(s[0], Combinations(s[1..], count - 1)) + Combinations(s[1..], count)
  }

  /** A set of permanents out of `ordered`, listed in canonical order. */
  ghost predicate IsSelection(selected: seq<Candidate>, ordered: seq<Candidate>) {
    Sorted(ByKey(CandidateKey), selected) && forall c :: c in selected ==> c in ordered
  }

  lemma SortedTail(ordered: seq<Candidate>)
    requires Sorted(ByKey(CandidateKey), ordered)
    ensures ordered != [] ==> Sorted(ByKey(CandidateKey), ordered[1..])
    ensures IsSelection([], ordered)
  {
    hide ByKey, CandidateKey;
  }

  lemma SelectHead(ordered: seq<Candidate>, tail: seq<Candidate>)
    requires Sorted(ByKey(CandidateKey), ordered) && ordered != [] && IsSelection(tail, ordered[1..])
    ensures IsSelection([ordered[0]] + tail, ordered)
  {
    hide ByKey, CandidateKey;
    var lt := ByKey(CandidateKey);
    forall c | c in tail ensures lt(ordered[0], c) {
      assert c in ordered[1..];
      var i :| 0 <= i < |ordered[1..]| && ordered[1..][i] == c;
      assert lt(ordered[0], ordered[i + 1]);
    }
    PrependSorted(lt, ordered[0], tail);
  }

  lemma {:induction false} CombinationIsSelection(ordered: seq<Candidate>, count: nat, k: nat)
    requires Sorted(ByKey(CandidateKey), ordered) && k < |Combinations(ordered, count)|
    ensures IsSelection(Combinations(ordered, count)[k], ordered) && |Combinations(ordered, count)[k]| == count
    decreases ordered, count
  {
    hide ByKey, CandidateKey, Sorted, IsSelection;
    SortedTail(ordered);
    if count == 0 {
    } else {
      var tails := Combinations(ordered[1..], count - 1);
      var later := Combinations(ordered[1..], count);
      if k < |tails| {
        CombinationIsSelection(ordered[1..], count - 1, k);
        SelectHead(ordered, tails[k]);
      } else {
        CombinationIsSelection(ordered[1..], count, k - |tails|);
        SelectionWidens(ordered, later[k - |tails|]);
      }
    }
  }

  lemma SelectionWidens(ordered: seq<Candidate>, selected: seq<Candidate>)
    requires ordered != [] && IsSelection(selected, ordered[1..])
    ensures IsSelection(selected, ordered)
  {
    forall c | c in selected ensures c in ordered {
      assert c in ordered[1..];
    }
  }

  lemma {:induction false} SelectionIsCombination(ordered: seq<Candidate>, selected: seq<Candidate>)
    requires Sorted(ByKey(CandidateKey), ordered) && IsSelection(selected, ordered)
    ensures selected in Combinations(ordered, |selected|)
  {
    hide ByKey, CandidateKey;
    if selected == [] {
    } else {
      ByKeyOrder(CandidateKey);
      assert selected[0] in ordered;
      var rest := ordered[1..];
      if selected[0] == ordered[0] {
        forall c | c in selected[1..] ensures c in rest {
          TailMembership(ByKey(CandidateKey), selected, c);
          TailMembership(ByKey(CandidateKey), ordered, c);
        }
        SelectionIsCombination(rest, selected[1..]);
        var tails := Combinations(rest, |selected| - 1);
        var i :| 0 <= i < |tails| && tails[i] == selected[1..];
        assert Prepend(ordered[0], tails)[i] == selected;
      } else {
        forall c | c in selected ensures c in rest {
          HeadIsLeast(ordered, selected, c);
          TailMembership(ByKey(CandidateKey), ordered, c);
        }
        SelectionIsCombination(rest, selected);
      }
    }
  }

  lemma HeadIsLeast(ordered: seq<Candidate>, selected: seq<Candidate>, c: Candidate)
    requires Sorted(ByKey(CandidateKey), ordered) && IsSelection(selected, ordered)
    requires ordered != [] && selected != [] && selected[0] != ordered[0] && c in selected
    ensures c != ordered[0]
  {
    var lt := ByKey(CandidateKey);
    ByKeyOrder(CandidateKey);
    assert selected[0] in ordered;
    assert lt(ordered[0], selected[0]);
    var i :| 0 <= i < |selected| && selected[i] == c;
    if i > 0 {
      assert lt(selected[0], selected[i]);
      assert lt(ordered[0], selected[i]);
    }
  }

  lemma SelectionIsCanonical(selected: seq<Candidate>, ordered: seq<Candidate>)
    requires Canonical(ordered) && IsSelection(selected, ordered)
    ensures CanonicalCandidates(selected) == Ok(selected)
  {
    hide ByKey, CandidateKey;
    ByKeyOrder(CandidateKey);
    SortOfSorted(ByKey(CandidateKey), selected);
    SortedIsDistinct(ByKey(CandidateKey), selected);
    forall i, j | 0 <= i < j < |selected|
      ensures selected[i].objectId != selected[j].objectId && selected[i].logicalId != selected[j].logicalId
           && selected[i].ref != selected[j].ref
    {
      assert selected[i] in ordered && selected[j] in ordered && selected[i] != selected[j];
      var a :| 0 <= a < |ordered| && ordered[a] == selected[i];
      var b :| 0 <= b < |ordered| && ordered[b] == selected[j];
      assert a < b || b < a;
    }
  }

  lemma {:induction false} CombinationsRunOut<T>(s: seq<T>, count: nat)
    requires count > |s|
    ensures |Combinations(s, count)| == 0
  {
    if s == [] {
    } else {
      CombinationsRunOut(s[1..], count - 1);
      CombinationsRunOut(s[1..], count);
    }
  }

  lemma SelectionFits(ordered: seq<Candidate>, selected: seq<Candidate>)
    requires Sorted(ByKey(CandidateKey), ordered) && IsSelection(selected, ordered)
    ensures |selected| <= |ordered|
  {
    SelectionIsCombination(ordered, selected);
    if |selected| > |ordered| {
      CombinationsRunOut(ordered, |selected|);
      assert false;
    }
  }

  /** A selection of more permanents than the search tries has no plan at all. */
  lemma BeyondMaximum(base: Vec, ordered: seq<Candidate>, maximum: nat, selected: seq<Candidate>,
                      affordable: Affordability)
    requires IsVec(base) && Sorted(ByKey(CandidateKey), ordered) && IsSelection(selected, ordered)
    requires maximum == if |ordered| < Payable(base) then |ordered| else Payable(base)
    requires |selected| > maximum
    ensures NoneAffordable(base, selected, affordable)
  {
    SelectionFits(ordered, selected);
    TooManyPermanents(base, selected);
    forall rem, cs ensures IsBest(base, selected, rem, cs) ==> Reachable(base, selected, rem) {
    }
  }

  function SelectionKeys(selected: seq<Candidate>): (ks: seq<Key>)
    ensures |ks| == |selected| && forall i :: 0 <= i < |ks| ==> ks[i] == CandidateKey(selected[i])
  {
    seq(|selected|, i requires 0 <= i < |selected| => CandidateKey(selected[i]))
  }

  function SelectionKey(selected: seq<Candidate>): Key { Tup(SelectionKeys(selected)) }

  lemma SelectionKeyStep(s: seq<Candidate>, t: seq<Candidate>)
    requires s != [] && t != []
    ensures KeyLess(CandidateKey(s[0]), CandidateKey(t[0])) ==> KeyLess(SelectionKey(s), SelectionKey(t))
    ensures s[0] == t[0] && KeyLess(SelectionKey(s[1..]), SelectionKey(t[1..])) ==>
              KeyLess(SelectionKey(s), SelectionKey(t))
  {
    assert SelectionKeys(s)[1..] == SelectionKeys(s[1..]) && SelectionKeys(t)[1..] == SelectionKeys(t[1..]);
  }

  /** Combinations come in the order of the permanents they name. */
  lemma {:induction false} CombinationsInOrder(ordered: seq<Candidate>, count: nat, i: nat, j: nat)
    requires Sorted(ByKey(CandidateKey), ordered) && i < j < |Combinations(ordered, count)|
    ensures KeyLess(SelectionKey(Combinations(ordered, count)[i]), SelectionKey(Combinations(ordered, count)[j]))
    decreases ordered, count
  {
    hide KeyLess, CandidateKey, SelectionKey, Sorted, IsSelection, ByKey, Combinations;
    CombinationsUnfold(ordered, count);
    var all, rest := Combinations(ordered, count), ordered[1..];
    var tails, later := Combinations(rest, count - 1), Combinations(rest, count);
    SortedTail(ordered);
    if i >= |tails| {
      CombinationsInOrder(rest, count, i - |tails|, j - |tails|);
    } else {
      assert all[i] == [ordered[0]] + tails[i];
      if j < |tails| {
        CombinationsInOrder(rest, count - 1, i, j);
        assert all[j] == [ordered[0]] + tails[j] && all[i][1..] == tails[i] && all[j][1..] == tails[j];
      } else {
        assert all[j] == later[j - |tails|];
        CombinationIsSelection(rest, count, j - |tails|);
        HeadBefore(ordered, all[j]);
      }
      SelectionKeyStep(all[i], all[j]);
    }
  }

  lemma CombinationsUnfold(ordered: seq<Candidate>, count: nat)
    requires |Combinations(ordered, count)| >= 2
    ensures count > 0 && ordered != []
    ensures Combinations(ordered, count) ==
            Prepend(ordered[0], Combinations(ordered[1..], count - 1)) + Combinations(ordered[1..], count)
  {
    hide Prepend;
  }

  lemma HeadBefore(ordered: seq<Candidate>, selected: seq<Candidate>)
    requires Sorted(ByKey(CandidateKey), ordered) && ordered != []
    requires selected != [] && IsSelection(selected, ordered[1..])
    ensures KeyLess(CandidateKey(ordered[0]), CandidateKey(selected[0]))
  {
    hide KeyLess, CandidateKey;
    assert selected[0] in ordered[1..];
    var k :| 0 <= k < |ordered[1..]| && ordered[1..][k] == selected[0];
    assert ByKey(CandidateKey)(ordered[0], ordered[k + 1]);
  }

  /** Selections of the same size that come earlier are among the earlier combinations. */
  lemma EarlierSelection(base: Vec, ordered: seq<Candidate>, count: nat, i: nat, affordable: Affordability,
                         selected: seq<Candidate>)
    requires Sorted(ByKey(CandidateKey), ordered) && i < |Combinations(ordered, count)|
    requires forall k :: 0 <= k < i ==> NoneAffordable(base, Combinations(ordered, count)[k], affordable)
    requires IsSelection(selected, ordered) && |selected| == count
    requires KeyLess(SelectionKey(selected), SelectionKey(Combinations(ordered, count)[i]))
    ensures NoneAffordable(base, selected, affordable)
  {
    hide KeyLess, CandidateKey, SelectionKey, Sorted, IsSelection, NoneAffordable, Combinations;
    SelectionIsCombination(ordered, selected);
    var all := Combinations(ordered, count);
    var k :| 0 <= k < |all| && all[k] == selected;
    KeyTrichotomy(SelectionKey(selected), SelectionKey(all[i]));
    if k > i { CombinationsInOrder(ordered, count, i, k); }
  }

  /** A first affordable plan with the fewest permanents, and of those selections the first; none
      when no selection has one. */
  ghost predicate IsFewest(base: Vec, ordered: seq<Candidate>, affordable: Affordability, r: Option<Plan>) {
    match r
    case None => forall selected :: IsSelection(selected, ordered) ==> NoneAffordable(base, selected, affordable)
    case Some(plan) =>
      var used := Candidates(plan.contributions);
      && IsSelection(used, ordered) && IsFirstAffordable(base, used, affordable, plan)
      && forall selected :: IsSelection(selected, ordered) && Preferred(selected, used) ==>
           NoneAffordable(base, selected, affordable)
  }

  /** Fewer permanents, or as many and earlier ones. */
  predicate Preferred(selected: seq<Candidate>, used: seq<Candidate>) {
    |selected| < |used| || (|selected| == |used| && KeyLess(SelectionKey(selected), SelectionKey(used)))
  }

  /** The search's answer is determined by the cost, the permanents and the test. */
  lemma FewestIsDetermined(base: Vec, ordered: seq<Candidate>, affordable: Affordability, r: Option<Plan>,
                           r': Option<Plan>)
    requires Canonical(ordered)
    requires IsFewest(base, ordered, affordable, r) && IsFewest(base, ordered, affordable, r')
    ensures r == r'
  {
    hide Canonical, IsSelection, NoneAffordable, IsFirstAffordable, Preferred;
    if r.Some? {
      FirstAffordableExists(base, Candidates(r.value.contributions), affordable, r.value);
    }
    if r'.Some? {
      FirstAffordableExists(base, Candidates(r'.value.contributions), affordable, r'.value);
    }
    if r.Some? && r'.Some? {
      PreferredIsTotal(ordered, Candidates(r.value.contributions), Candidates(r'.value.contributions));
      FirstIsDetermined(base, Candidates(r.value.contributions), affordable, r.value, r'.value);
    }
  }

  lemma PreferredIsTotal(ordered: seq<Candidate>, s: seq<Candidate>, t: seq<Candidate>)
    requires Canonical(ordered) && IsSelection(s, ordered) && IsSelection(t, ordered)
    ensures s == t || Preferred(s, t) || Preferred(t, s)
  {
    hide KeyLess;
    KeyTrichotomy(SelectionKey(s), SelectionKey(t));
    if SelectionKey(s) == SelectionKey(t) {
      forall i | 0 <= i < |s| ensures s[i] == t[i] {
        assert SelectionKeys(s)[i] == SelectionKeys(t)[i];
        SameObject(ordered, s[i], t[i]);
      }
    }
  }

  lemma SameObject(ordered: seq<Candidate>, c: Candidate, d: Candidate)
    requires Canonical(ordered) && c in ordered && d in ordered && CandidateKey(c) == CandidateKey(d)
    ensures c == d
  {
    assert CandidateKey(c).parts[0] == CandidateKey(d).parts[0];
  }

  lemma FirstIsDetermined(base: Vec, selected: seq<Candidate>, affordable: Affordability, p: Plan, q: Plan)
    requires IsFirstAffordable(base, selected, affordable, p) && IsFirstAffordable(base, selected, affordable, q)
    ensures p == q
  {
    hide KeyLess, IsBest;
    KeyTrichotomy(VecKey(p.remaining), VecKey(q.remaining));
    assert p == Plan(base, p.remaining, p.contributions) && q == Plan(base, q.remaining, q.contributions);
    if VecKey(p.remaining) == VecKey(q.remaining) {
      VecKeyInjective(p.remaining, q.remaining);
      BestIsUnique(base, selected, p.remaining, p.contributions, q.contributions);
    }
  }

  /** For tests that look only at the remainder and the selected permanents, a search for the
      fewest permanents finds no plan exactly when no assignment to any selection is affordable. */
  lemma FewestIsComplete(base: Vec, ordered: seq<Candidate>, affordable: Affordability)
    ensures RemainderOnly(affordable) ==>
              forall r :: IsFewest(base, ordered, affordable, r) ==>
                (r == None <==> forall selected :: IsSelection(selected, ordered) ==>
                 NoAssignmentAffordable(base, selected, affordable))
  {
    hide RemainderOnly, IsSelection, NoneAffordable, NoAssignmentAffordable, IsBest;
    if RemainderOnly(affordable) {
      forall selected
        ensures NoneAffordable(base, selected, affordable) <==> NoAssignmentAffordable(base, selected, affordable)
      {
        RemaindersSuffice(base, selected, affordable);
      }
      forall r | IsFewest(base, ordered, affordable, r) && r.Some?
        ensures IsSelection(Candidates(r.value.contributions), ordered)
        ensures !NoneAffordable(base, Candidates(r.value.contributions), affordable)
      {
        FirstAffordableExists(base, Candidates(r.value.contributions), affordable, r.value);
      }
    }
  }

  lemma FirstAffordableExists(base: Vec, selected: seq<Candidate>, affordable: Affordability, plan: Plan)
    requires IsFirstAffordable(base, selected, affordable, plan)
    ensures !NoneAffordable(base, selected, affordable)
  {
    hide IsBest;
    assert plan == Plan(base, plan.remaining, plan.contributions);
  }

  /** An affordable plan with the fewest permanents, or none when no selection has one. */
  method FindPlan(base: Vec, candidates: seq<Candidate>, affordable: Affordability)
    returns (r: Result<Option<Plan>, Error>)
    requires IsVec(base)
    ensures CanonicalCandidates(candidates).Err? <==> r.Err?
    ensures r.Ok? ==> IsFewest(base, CanonicalCandidates(candidates).value, affordable, r.value)
    ensures r.Ok? && RemainderOnly(affordable) ==>
              (r.value == None <==>
               forall selected :: IsSelection(selected, CanonicalCandidates(candidates).value) ==>
                 NoAssignmentAffordable(base, selected, affordable))
  {
    hide *;
    var canonical := CanonicalCandidates(candidates);
    if canonical.Err? {
      return Err(canonical.error);
    }
    CanonicalCandidatesAre(candidates);
    var ordered := canonical.value;
    FewestIsComplete(base, ordered, affordable);
    CanonicalIsSorted(ordered);
    var maximum := if |ordered| < Payable(base) then |ordered| else Payable(base);
    var count := 0;
    while count <= maximum
      invariant 0 <= count <= maximum + 1
      invariant forall selected :: IsSelection(selected, ordered) && |selected| < count ==>
                  NoneAffordable(base, selected, affordable)
    {
      var choices := Combinations(ordered, count);
      var i := 0;
      while i < |choices|
        invariant 0 <= i <= |choices|
        invariant forall k :: 0 <= k < i ==> NoneAffordable(base, choices[k], affordable)
      {
        CombinationIsSelection(ordered, count, i);
        SelectionIsCanonical(choices[i], ordered);
        var plan := SelectPlan(base, choices[i], affordable);
        if plan.value.Some? {
          PlanUses(base, choices[i], affordable, plan.value.value);
          forall selected | IsSelection(selected, ordered) && Preferred(selected, choices[i])
            ensures NoneAffordable(base, selected, affordable)
          {
            PreferredIs(selected, choices[i]);
            if |selected| == count { EarlierSelection(base, ordered, count, i, affordable, selected); }
          }
          FewestFound(base, ordered, affordable, plan.value.value);
          return Ok(plan.value);
        }
        i := i + 1;
      }
      forall selected | IsSelection(selected, ordered) && |selected| == count
        ensures NoneAffordable(base, selected, affordable)
      {
        SelectionIsCombination(ordered, selected);
        var k :| 0 <= k < |choices| && choices[k] == selected;
      }
      count := count + 1;
    }
    forall selected | IsSelection(selected, ordered) ensures NoneAffordable(base, selected, affordable) {
      if |selected| > maximum { BeyondMaximum(base, ordered, maximum, selected, affordable); }
    }
    NoFewest(base, ordered, affordable);
    return Ok(None);
  }

  lemma FewestFound(base: Vec, ordered: seq<Candidate>, affordable: Affordability, plan: Plan)
    requires IsSelection(Candidates(plan.contributions), ordered)
    requires IsFirstAffordable(base, Candidates(plan.contributions), affordable, plan)
    requires forall selected ::
               IsSelection(selected, ordered) && Preferred(selected, Candidates(plan.contributions)) ==>
                 NoneAffordable(base, selected, affordable)
    ensures IsFewest(base, ordered, affordable, Some(plan))
  {
  }

  lemma PreferredIs(s: seq<Candidate>, t: seq<Candidate>)
    ensures Preferred(s, t) <==> |s| < |t| || (|s| == |t| && KeyLess(SelectionKey(s), SelectionKey(t)))
  {
    hide KeyLess, SelectionKey;
  }

  lemma NoFewest(base: Vec, ordered: seq<Candidate>, affordable: Affordability)
    requires forall selected :: IsSelection(selected, ordered) ==> NoneAffordable(base, selected, affordable)
    ensures IsFewest(base, ordered, affordable, None)
  {
  }

  lemma CanonicalIsSorted(cs: seq<Candidate>)
    requires Canonical(cs)
    ensures Sorted(ByKey(CandidateKey), cs)
  {
  }

  lemma PlanUses(base: Vec, selected: seq<Candidate>, affordable: Affordability, plan: Plan)
    requires IsFirstAffordable(base, selected, affordable, plan)
    ensures Candidates(plan.contributions) == selected
  {
  }

  // ----- what considering only the best plans loses -----

  /** All assignments to the selected permanents. */
  ghost function AllAssignments(selected: seq<Candidate>): (r: set<seq<Contribution>>) {
    if selected == [] then {[]}
    else
      var n := |selected| - 1;
      set front, s | front in AllAssignments(selected[..n]) && s in PAYMENT_SYMBOLS
        :: front + [Contribution(selected[n], s)]
  }

  lemma {:induction false} EveryAssignmentListed(selected: seq<Candidate>, cs: seq<Contribution>)
    requires Assigns(selected, cs)
    ensures cs in AllAssignments(selected)
    decreases |selected|
  {
    if selected == [] {
    } else {
      var n := |selected| - 1;
      EveryAssignmentListed(selected[..n], cs[..n]);
      EverySymbolListed(cs[n].symbol);
      assert cs == cs[..n] + [Contribution(selected[n], cs[n].symbol)];
    }
  }

  function SymbolsKey(cs: seq<Contribution>): Key { Tup(Ranks(cs)) }

  /** Every reachable remainder has a best assignment. */
  lemma BestExists(base: Vec, selected: seq<Candidate>, rem: Vec) returns (best: seq<Contribution>)
    requires Reachable(base, selected, rem)
    ensures IsBest(base, selected, rem, best)
  {
    hide Assigns, Leaves, AllAssignments;
    var s := set cs | cs in AllAssignments(selected) && Assigns(selected, cs) && Leaves(base, cs, rem);
    forall cs | Assigns(selected, cs) && Leaves(base, cs, rem) ensures cs in s {
      EveryAssignmentListed(selected, cs);
    }
    forall a, b | a in s && b in s && SymbolsKey(a) == SymbolsKey(b) ensures a == b {
      SameRanks(selected, a, b);
    }
    var cs :| Assigns(selected, cs) && Leaves(base, cs, rem);
    assert cs in s;
    LeastExists(SymbolsKey, s);
    best :| IsLeast(SymbolsKey, s, best);
    forall other | Assigns(selected, other) && Leaves(base, other, rem) && other != best ensures Before(best, other) {
      assert other in s;
    }
  }

  /** Affordability that depends only on the remainder and the selected permanents. */
  ghost predicate RemainderOnly(affordable: Affordability) {
    forall p: Plan, q: Plan ::
      (&& p.requirements == q.requirements
       && p.remaining == q.remaining
       && Candidates(p.contributions) == Candidates(q.contributions))
      ==> affordable(p) == affordable(q)
  }

  /** No assignment at all to these permanents is affordable. */
  ghost predicate NoAssignmentAffordable(base: Vec, selected: seq<Candidate>, affordable: Affordability) {
    forall rem, cs :: Assigns(selected, cs) && Leaves(base, cs, rem) ==> !affordable(Plan(base, rem, cs))
  }

  /** Then looking only at best plans misses no affordable assignment. */
  lemma RemaindersSuffice(base: Vec, selected: seq<Candidate>, affordable: Affordability)
    requires RemainderOnly(affordable)
    ensures NoneAffordable(base, selected, affordable) <==> NoAssignmentAffordable(base, selected, affordable)
  {
    if NoneAffordable(base, selected, affordable) {
      forall rem, cs | Assigns(selected, cs) && Leaves(base, cs, rem) ensures !affordable(Plan(base, rem, cs)) {
        assert Reachable(base, selected, rem);
        var best := BestExists(base, selected, rem);
        var p, q := Plan(base, rem, cs), Plan(base, rem, best);
        assert Candidates(p.contributions) == Candidates(q.contributions);
      }
    }
  }

  /** The test never finds only assignments that were dropped. */
  ghost predicate MissesNothing(base: Vec, selected: seq<Candidate>, affordable: Affordability) {
    NoneAffordable(base, selected, affordable) ==> NoAssignmentAffordable(base, selected, affordable)
  }

  /** Different assignments leave different remainders. */
  ghost predicate RemaindersTellApart(base: Vec, selected: seq<Candidate>) {
    forall rem, a, b ::
      Assigns(selected, a) && Leaves(base, a, rem) && Assigns(selected, b) && Leaves(base, b, rem) ==> a == b
  }

  /** The test that accepts one assignment only. */
  function Only(cs: seq<Contribution>): Affordability {
    (p: Plan) => p.contributions == cs
  }

  lemma RemainderIsDetermined(base: Vec, cs: seq<Contribution>, v: Vec, w: Vec)
    requires Leaves(base, cs, v) && Leaves(base, cs, w)
    ensures v == w
  {
    forall slot: nat | slot < 7 ensures v[slot] == w[slot] {
      assert v[slot] + Paid(cs, slot) == base[slot] == w[slot] + Paid(cs, slot);
    }
  }

  /** A test for an assignment that is not the best for its remainder is shown no such plan. */
  lemma OnlyIsMissed(base: Vec, selected: seq<Candidate>, rem: Vec, cs: seq<Contribution>)
    requires Assigns(selected, cs) && Leaves(base, cs, rem) && !IsBest(base, selected, rem, cs)
    ensures NoneAffordable(base, selected, Only(cs)) && !NoAssignmentAffordable(base, selected, Only(cs))
  {
    hide Assigns, Leaves;
    forall v, best | IsBest(base, selected, v, best) ensures !Only(cs)(Plan(base, v, best)) {
      if best == cs { RemainderIsDetermined(base, cs, v, rem); }
    }
    assert Only(cs)(Plan(base, rem, cs));
  }

  /** Looking only at best plans is harmless for every test exactly when no two different
      assignments leave the same remainder. */
  lemma NothingIsMissedIff(base: Vec, selected: seq<Candidate>)
    ensures (forall affordable: Affordability :: MissesNothing(base, selected, affordable)) <==>
            RemaindersTellApart(base, selected)
  {
    hide Assigns, Leaves, NoneAffordable, NoAssignmentAffordable;
    if RemaindersTellApart(base, selected) {
      forall affordable: Affordability ensures MissesNothing(base, selected, affordable) {
        ApartMissesNothing(base, selected, affordable);
      }
    } else {
      var rem, a, b :| Assigns(selected, a) && Leaves(base, a, rem) && Assigns(selected, b) && Leaves(base, b, rem)
        && a != b;
      if IsBest(base, selected, rem, a) && IsBest(base, selected, rem, b) {
        BestIsUnique(base, selected, rem, a, b);
      }
      var dropped := if IsBest(base, selected, rem, a) then b else a;
      OnlyIsMissed(base, selected, rem, dropped);
      assert !MissesNothing(base, selected, Only(dropped));
    }
  }

  lemma ApartMissesNothing(base: Vec, selected: seq<Candidate>, affordable: Affordability)
    requires RemaindersTellApart(base, selected)
    ensures MissesNothing(base, selected, affordable)
  {
    hide Assigns, Leaves;
    forall rem, cs | Assigns(selected, cs) && Leaves(base, cs, rem) ensures IsBest(base, selected, rem, cs) {
    }
  }

  lemma PaidByTwo(x: Contribution, y: Contribution, slot: nat)
    ensures Paid([x, y], slot) == (if Slot(x.symbol) == slot then 1 else 0) + (if Slot(y.symbol) == slot then 1 else 0)
  {
    assert [x, y][..1] == [x] && [x][..0] == [];
    assert Paid([x], slot) == if Slot(x.symbol) == slot then 1 else 0;
  }

  /** Two permanents that can both pay white or blue: the assignment that pays blue first
      leaves the same remainder as the best one, so no plan is ever made of it, and a test that
      would accept just this assignment is told that nothing is affordable. */
  lemma LaterAssignmentsAreDropped(a: Candidate, b: Candidate)
    requires a.colors == {White, Blue} && b.colors == {White, Blue}
    ensures var base: Vec := [0, 1, 1, 0, 0, 0, 0];
            var later := [Contribution(a, Blue), Contribution(b, White)];
            && Assigns([a, b], later)
            && Leaves(base, later, [0, 0, 0, 0, 0, 0, 0])
            && !IsBest(base, [a, b], [0, 0, 0, 0, 0, 0, 0], later)
            && NoneAffordable(base, [a, b], Only(later))
            && Only(later)(Plan(base, [0, 0, 0, 0, 0, 0, 0], later))
  {
    var base: Vec := [0, 1, 1, 0, 0, 0, 0];
    var zero: Vec := [0, 0, 0, 0, 0, 0, 0];
    var later := [Contribution(a, Blue), Contribution(b, White)];
    var sooner := [Contribution(a, White), Contribution(b, Blue)];
    forall slot: nat | slot < 7
      ensures zero[slot] + Paid(later, slot) == base[slot] && zero[slot] + Paid(sooner, slot) == base[slot]
    {
      PaidByTwo(later[0], later[1], slot);
      PaidByTwo(sooner[0], sooner[1], slot);
    }
    Comparable([a, b], sooner, later);
    assert Ranks(sooner)[0] == Num(0) && Ranks(later)[0] == Num(1);
    assert Before(sooner, later);
  }
}

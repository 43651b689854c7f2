/** Convoke payments read off the mana vector itself: position 0 is generic mana, and positions 1 to
    6 are white, blue, black, red, green and colourless. */
module ConvokePayments {
  import opened Orders
  import opened Convoke

  // ----- what is paid -----

  /** How many contributions pay a symbol. */
  function Payers(cs: seq<Contribution>, s: Symbol): nat {
    |set i | 0 <= i < |cs| && cs[i].symbol == s|
  }

  lemma OneMorePayer(cs: seq<Contribution>, c: Contribution, s: Symbol)
    ensures Payers(cs + [c], s) == Payers(cs, s) + if c.symbol == s then 1 else 0
  {
    var more := cs + [c];
    var before, after := set i | 0 <= i < |cs| && cs[i].symbol == s, set i | 0 <= i < |more| && more[i].symbol == s;
    forall i ensures i in after <==> i in before || (i == |cs| && c.symbol == s) {
    }
    assert after == if c.symbol == s then before + {|cs|} else before;
  }

  /** Each position of the vector is paid by the contributions of its own symbol, and the
      colourless one by none. */
  lemma {:induction false} PaidCounts(cs: seq<Contribution>)
    ensures Paid(cs, 0) == Payers(cs, Generic) && Paid(cs, 1) == Payers(cs, White) && Paid(cs, 2) == Payers(cs, Blue)
    ensures Paid(cs, 3) == Payers(cs, Black) && Paid(cs, 4) == Payers(cs, Red) && Paid(cs, 5) == Payers(cs, Green)
    ensures Paid(cs, 6) == 0
    decreases |cs|
  {
    hide Payers;
    if cs == [] {
      NoPayers();
    } else {
      var front, last := cs[..|cs| - 1], cs[|cs| - 1];
      PaidCounts(front);
      assert cs == front + [last];
      forall s: Symbol ensures Payers(cs, s) == Payers(front, s) + if last.symbol == s then 1 else 0 {
        OneMorePayer(front, last, s);
      }
    }
  }

  lemma NoPayers()
    ensures forall s: Symbol :: Payers([], s) == 0
  {
  }

  /** Conservation, position by position: an assignment leaves a remainder exactly when its
      generic, white, blue, black, red and green payments and the remainder add up to the cost,
      and colourless mana is untouched. */
  lemma LeavesIff(base: Vec, cs: seq<Contribution>, rem: Vec)
    requires IsVec(base) && IsVec(rem)
    ensures Leaves(base, cs, rem) <==>
            && rem[0] + Payers(cs, Generic) == base[0]
            && rem[1] + Payers(cs, White) == base[1] && rem[2] + Payers(cs, Blue) == base[2]
            && rem[3] + Payers(cs, Black) == base[3] && rem[4] + Payers(cs, Red) == base[4]
            && rem[5] + Payers(cs, Green) == base[5] && rem[6] == base[6]
  {
    hide Payers, Paid;
    PaidCounts(cs);
    if Leaves(base, cs, rem) {
      assert forall slot :: 0 <= slot < 7 ==> rem[slot] + Paid(cs, slot) == base[slot];
      assert rem[0] + Paid(cs, 0) == base[0] && rem[1] + Paid(cs, 1) == base[1] && rem[2] + Paid(cs, 2) == base[2];
      assert rem[3] + Paid(cs, 3) == base[3] && rem[4] + Paid(cs, 4) == base[4] && rem[5] + Paid(cs, 5) == base[5];
      assert rem[6] + Paid(cs, 6) == base[6];
    }
  }

  // ----- one permanent -----

  /** One point less in a position that has some. */
  predicate Less(base: Vec, position: nat, rem: Vec) {
    IsVec(base) && position < 7 && base[position] > 0 && rem == base[position := base[position] - 1]
  }

  lemma OnePayment(base: Vec, c: Candidate, s: Symbol, position: nat, rem: Vec)
    requires IsVec(base)
    requires position == match s case Generic => 0 case White => 1 case Blue => 2 case Black => 3 case Red => 4
                         case Green => 5
    ensures Leaves(base, [Contribution(c, s)], rem) <==> Less(base, position, rem)
  {
    hide Payers;
    var cs := [Contribution(c, s)];
    forall t: Symbol ensures Payers(cs, t) == if t == s then 1 else 0 {
      NoPayers();
      OneMorePayer([], Contribution(c, s), t);
      assert [] + cs == cs;
    }
    if IsVec(rem) { LeavesIff(base, cs, rem); }
  }

  /** One permanent pays one point of generic mana or one of a colour it has, each from its own
      position. */
  lemma OnePermanentPays(base: Vec, c: Candidate, rem: Vec)
    requires IsVec(base)
    ensures Reachable(base, [c], rem) <==>
            || Less(base, 0, rem)
            || (White in c.colors && Less(base, 1, rem)) || (Blue in c.colors && Less(base, 2, rem))
            || (Black in c.colors && Less(base, 3, rem)) || (Red in c.colors && Less(base, 4, rem))
            || (Green in c.colors && Less(base, 5, rem))
  {
    hide Leaves, Less;
    OnePayment(base, c, Generic, 0, rem);
    OnePayment(base, c, White, 1, rem);
    OnePayment(base, c, Blue, 2, rem);
    OnePayment(base, c, Black, 3, rem);
    OnePayment(base, c, Red, 4, rem);
    OnePayment(base, c, Green, 5, rem);
    if cs: seq<Contribution> :| Assigns([c], cs) && Leaves(base, cs, rem) {
      assert cs == [Contribution(c, cs[0].symbol)];
    }
    forall s: Symbol | (s == Generic || s in c.colors) && Leaves(base, [Contribution(c, s)], rem)
      ensures Reachable(base, [c], rem)
    {
      assert Assigns([c], [Contribution(c, s)]);
    }
  }

  // ----- the orders -----

  /** Assignments of the same permanents are compared where they first differ: white is paid
      before blue, black, red, green and generic mana, in that order. */
  lemma BeforeIff(a: seq<Contribution>, b: seq<Contribution>)
    requires |a| == |b|
    ensures Before(a, b) <==>
            exists k, i, j ::
              && 0 <= k < |a| && 0 <= i < j < 6
              && a[k].symbol == PAYMENT_SYMBOLS[i] && b[k].symbol == PAYMENT_SYMBOLS[j]
              && forall l :: 0 <= l < k ==> a[l].symbol == b[l].symbol
  {
    hide Rank, TupLess, KeyLess;
    TupLessIff(Ranks(a), Ranks(b));
    if Before(a, b) {
      var k :| 0 <= k <= |a| && k < |b| && Ranks(a)[..k] == Ranks(b)[..k]
               && (k == |a| || KeyLess(Ranks(a)[k], Ranks(b)[k]));
      forall l | 0 <= l < k ensures a[l].symbol == b[l].symbol {
        assert Ranks(a)[l] == Ranks(a)[..k][l] == Ranks(b)[..k][l] == Ranks(b)[l];
        SameRank(a[l].symbol, b[l].symbol);
      }
      RankLess(a[k].symbol, b[k].symbol);
    }
    if k, i, j :|
         && 0 <= k < |a| && 0 <= i < j < 6
         && a[k].symbol == PAYMENT_SYMBOLS[i] && b[k].symbol == PAYMENT_SYMBOLS[j]
         && forall l :: 0 <= l < k ==> a[l].symbol == b[l].symbol {
      RankLess(a[k].symbol, b[k].symbol);
      assert Ranks(a)[..k] == Ranks(b)[..k];
    }
  }

  lemma SameRank(s: Symbol, t: Symbol)
    ensures Num(Rank(s)) == Num(Rank(t)) ==> s == t
  {
  }

  lemma RankLess(s: Symbol, t: Symbol)
    ensures KeyLess(Num(Rank(s)), Num(Rank(t))) <==>
            exists i, j :: 0 <= i < j < 6 && s == PAYMENT_SYMBOLS[i] && t == PAYMENT_SYMBOLS[j]
  {
    RanksInOrder();
    assert s == PAYMENT_SYMBOLS[Rank(s)] && t == PAYMENT_SYMBOLS[Rank(t)];
  }

  lemma RanksInOrder()
    ensures forall s: Symbol :: Rank(s) < 6 && PAYMENT_SYMBOLS[Rank(s)] == s
    ensures forall i :: 0 <= i < 6 ==> Rank(PAYMENT_SYMBOLS[i]) == i
    ensures PAYMENT_SYMBOLS == [White, Blue, Black, Red, Green, Generic]
  {
  }

  /** Remainders are compared at the first position where they differ, generic mana first. */
  lemma RemaindersByPosition(u: Vec, v: Vec)
    requires IsVec(u) && IsVec(v)
    ensures KeyLess(VecKey(u), VecKey(v)) <==> exists k :: 0 <= k < 7 && u[..k] == v[..k] && u[k] < v[k]
  {
    hide TupLess;
    var p, q := NatKeys(u), NatKeys(v);
    TupLessIff(p, q);
    if k :| 0 <= k <= |p| && k < |q| && p[..k] == q[..k] && (k == |p| || KeyLess(p[k], q[k])) {
      forall l | 0 <= l < k ensures u[l] == v[l] { assert p[l] == p[..k][l] == q[..k][l] == q[l]; }
      assert u[..k] == v[..k];
    }
    if k :| 0 <= k < 7 && u[..k] == v[..k] && u[k] < v[k] {
      forall l | 0 <= l < k ensures p[l] == q[l] { assert u[..k][l] == v[..k][l]; }
      assert p[..k] == q[..k];
    }
  }

  /** Permanents stand in the order of their object ids. */
  lemma CandidatesById(candidates: seq<Candidate>, i: nat, j: nat)
    requires CanonicalCandidates(candidates).Ok? && i < j < |CanonicalCandidates(candidates).value|
    ensures var r := CanonicalCandidates(candidates).value; StrLess(r[i].objectId, r[j].objectId)
  {
    hide Sort, TupLess, CanonicalCandidates;
    CanonicalCandidatesAre(candidates);
    var r := CanonicalCandidates(candidates).value;
    assert ByKey(CandidateKey)(r[i], r[j]);
    var p, q := CandidateKey(r[i]).parts, CandidateKey(r[j]).parts;
    TupLessStep(p, q);
    assert KeyLess(CandidateKey(r[i]), CandidateKey(r[j]));
  }
}

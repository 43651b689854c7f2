/** What requirements and restrictions mean for a declaration (CR 508.1c, CR 508.1d, CR 701.15),
    in their own fields. */
module DeclarationLaws {
  import opened Wrappers
  import opened Orders
  import opened DeclarationConstraints

  // ----- one variable at a time -----

  /** An option of the variable that costs nothing, or that the declaration already pays for. */
  predicate Open(p: Problem, d: Declaration, v: string, o: string) {
    && v in p.domains && o in p.domains[v]
    && ((v, o) !in p.costed || (v in d && d[v] == o))
  }

  predicate Available(p: Problem, d: Declaration, v: string, choice: Option<string>) {
    choice.Some? ==> Open(p, d, v, choice.value)
  }

  /** Whether choosing the option, or omitting the variable, meets a requirement on it. */
  predicate Meets(r: Requirement, choice: Option<string>) {
    match r.kind
    case Choose => choice != None
    case ChooseOption => choice == r.option
    case ChooseOptionIn => choice.Some? && choice.value in r.options
    case OptionUsed => false
  }

  /** How many of the variable's requirements the choice meets. */
  function Met(rs: seq<Requirement>, v: string, choice: Option<string>): nat {
    if rs == [] then 0
    else (if rs[0].variable == Some(v) && Meets(rs[0], choice) then 1 else 0) + Met(rs[1..], v, choice)
  }

  /** Every requirement concerns one variable. */
  predicate OnVariables(rs: seq<Requirement>) {
    forall r :: r in rs ==> r.variable.Some? && r.kind != OptionUsed
  }

  /** No choice open to the variable meets more of its requirements than the one made. */
  ghost predicate Settled(p: Problem, d: Declaration, v: string) {
    forall choice :: Available(p, d, v, choice) ==> Met(p.requirements, v, choice) <= Met(p.requirements, v, Get(d, v))
  }

  function With(d: Declaration, v: string, choice: Option<string>): Declaration {
    if choice.Some? then d[v := choice.value] else d - {v}
  }

  lemma WithGets(d: Declaration, v: string, choice: Option<string>)
    ensures Get(With(d, v, choice), v) == choice
    ensures forall u :: u != v ==> Get(With(d, v, choice), u) == Get(d, u)
  {
  }

  lemma SatisfiesAt(r: Requirement, d: Declaration)
    requires r.variable.Some? && r.kind != OptionUsed
    ensures Satisfies(r, d) <==> Meets(r, Get(d, r.variable.value))
  {
  }

  /** Changing one variable changes what is met by that variable's requirements alone. */
  lemma {:induction false} ChangeOne(rs: seq<Requirement>, d: Declaration, v: string, choice: Option<string>)
    requires OnVariables(rs)
    ensures |Filtered(rs, With(d, v, choice), true)| + Met(rs, v, Get(d, v)) ==
            |Filtered(rs, d, true)| + Met(rs, v, choice)
  {
    hide Satisfies, Meets, Get, With;
    if rs == [] {
    } else {
      WithGets(d, v, choice);
      assert rs[0] in rs;
      SatisfiesAt(rs[0], d);
      SatisfiesAt(rs[0], With(d, v, choice));
      ChangeOne(rs[1..], d, v, choice);
    }
  }

  /** Settling the remaining variables one by one never meets less. */
  lemma {:induction false} SettlingImproves(p: Problem, d: Declaration, e: Declaration, vs: set<string>)
    requires OnVariables(p.requirements) && forall v :: v in vs ==> Settled(p, d, v)
    requires forall v :: v !in vs ==> Get(e, v) == Get(d, v)
    requires forall v :: v in vs ==> Available(p, d, v, Get(e, v))
    ensures Count(p, e) <= Count(p, d)
    decreases vs
  {
    hide Get, With, Available, Met;
    if vs == {} {
      SameGets(d, e);
    } else {
      var v :| v in vs;
      var f := With(e, v, Get(d, v));
      WithGets(e, v, Get(d, v));
      ChangeOne(p.requirements, e, v, Get(d, v));
      SettlingImproves(p, d, f, vs - {v});
    }
  }

  lemma SameGets(d: Declaration, e: Declaration)
    requires forall v :: Get(e, v) == Get(d, v)
    ensures d == e
  {
    forall v ensures (v in d <==> v in e) && (v in d ==> d[v] == e[v]) {
      assert Get(e, v) == Get(d, v);
    }
  }

  lemma Choosable(p: Problem, d: Declaration, e: Declaration)
    requires p.restrictions == []
    ensures Feasible(p, Elected(p, d), e) <==> forall v :: v in e ==> Open(p, d, v, e[v])
  {
    forall v | v in e ensures Free(p, Elected(p, d), v, e[v]) <==>
                              (v, e[v]) !in p.costed || (v in d && d[v] == e[v]) {
    }
  }

  /** Without restrictions legality is decided variable by variable. */
  lemma LegalByVariable(p: Problem, d: Declaration)
    requires p.restrictions == [] && OnVariables(p.requirements) && InDomains(p, d)
    ensures IsLegal(p, d) <==> forall v :: v in p.domains ==> Settled(p, d, v)
  {
    hide Met, Feasible, Settled;
    Choosable(p, d, d);
    if forall v :: v in p.domains ==> Settled(p, d, v) {
      forall e | Feasible(p, Elected(p, d), e) ensures Count(p, e) <= Count(p, d) {
        Choosable(p, d, e);
        SettlingImproves(p, d, e, p.domains.Keys);
      }
      assert IsMaximum(p, Elected(p, d), Count(p, d));
    } else {
      var v :| v in p.domains && !Settled(p, d, v);
      Unsettled(p, d, v);
    }
  }

  lemma Unsettled(p: Problem, d: Declaration, v: string)
    requires p.restrictions == [] && OnVariables(p.requirements) && InDomains(p, d) && !Settled(p, d, v)
    ensures !IsLegal(p, d)
  {
    hide Met, Feasible, Open;
    var choice :| Available(p, d, v, choice) && Met(p.requirements, v, choice) > Met(p.requirements, v, Get(d, v));
    var e := With(d, v, choice);
    ChangeOne(p.requirements, d, v, choice);
    Choosable(p, d, e);
    forall u | u in e ensures Open(p, d, u, e[u]) {
      if u != v { OwnChoice(p, d, u); }
    }
    assert Feasible(p, Elected(p, d), e);
  }

  lemma OwnChoice(p: Problem, d: Declaration, v: string)
    requires InDomains(p, d) && v in d
    ensures Open(p, d, v, d[v])
  {
  }

  // ----- one requirement for each variable -----

  predicate OneForEach(rs: seq<Requirement>) {
    OnVariables(rs) && forall i, j :: 0 <= i < j < |rs| ==> rs[i].variable != rs[j].variable
  }

  lemma {:induction false} MetByOne(rs: seq<Requirement>, v: string, choice: Option<string>)
    requires OneForEach(rs)
    ensures forall r :: r in rs && r.variable == Some(v) ==> Met(rs, v, choice) == if Meets(r, choice) then 1 else 0
    ensures (forall r :: r in rs ==> r.variable != Some(v)) ==> Met(rs, v, choice) == 0
  {
    hide Meets;
    if rs == [] {
    } else {
      var first, rest := rs[0], rs[1..];
      assert OneForEach(rest) by {
        forall i, j | 0 <= i < j < |rest| ensures rest[i].variable != rest[j].variable {
          assert rs[i + 1].variable != rs[j + 1].variable;
        }
      }
      MetByOne(rest, v, choice);
      forall r | r in rest ensures r.variable != first.variable {
        var i :| 0 <= i < |rest| && rest[i] == r;
        assert rs[0].variable != rs[i + 1].variable;
      }
      assert rs == [first] + rest;
    }
  }

  /** What one requirement on its own asks of a declaration: if some open option, or omission,
      meets it, the declaration must. */
  predicate Asked(p: Problem, d: Declaration, r: Requirement)
    requires r.variable.Some?
  {
    var v := r.variable.value;
    match r.kind
    case Choose => (exists o :: o in Domain(p, v) && Open(p, d, v, o)) ==> v in d
    case ChooseOption =>
      if r.option == None then v !in d else Open(p, d, v, r.option.value) ==> v in d && d[v] == r.option.value
    case ChooseOptionIn => (exists o :: o in r.options && Open(p, d, v, o)) ==> v in d && d[v] in r.options
    case OptionUsed => true
  }

  function Domain(p: Problem, v: string): seq<string> {
    if v in p.domains then p.domains[v] else []
  }

  lemma SettledIsAsked(p: Problem, d: Declaration, r: Requirement)
    requires OneForEach(p.requirements) && r in p.requirements && InDomains(p, d)
    ensures Settled(p, d, r.variable.value) <==> Asked(p, d, r)
  {
    assert r.variable.Some? && r.kind != OptionUsed;
    hide Met, InDomains, OneForEach;
    var v := r.variable.value;
    forall choice ensures Met(p.requirements, v, choice) == if Meets(r, choice) then 1 else 0 {
      MetByOne(p.requirements, v, choice);
    }
    assert Settled(p, d, v) <==>
           ((exists choice :: Available(p, d, v, choice) && Meets(r, choice)) ==> Meets(r, Get(d, v)));
    MeetableIff(p, d, r);
    if v in d { OwnChoice(p, d, v); }
  }

  /** Whether anything open to the variable meets the requirement. */
  lemma MeetableIff(p: Problem, d: Declaration, r: Requirement)
    requires r.variable.Some? && r.kind != OptionUsed
    ensures var v := r.variable.value;
            (exists choice :: Available(p, d, v, choice) && Meets(r, choice)) <==>
            match r.kind
            case Choose => exists o :: o in Domain(p, v) && Open(p, d, v, o)
            case ChooseOption => r.option == None || Open(p, d, v, r.option.value)
            case ChooseOptionIn => exists o :: o in r.options && Open(p, d, v, o)
            case OptionUsed => false
  {
    var v := r.variable.value;
    if choice :| Available(p, d, v, choice) && Meets(r, choice) {
      assert choice.Some? ==> choice.value in Domain(p, v);
    }
    forall o | Open(p, d, v, o) ensures Available(p, d, v, Some(o)) {
    }
    if r.kind == Choose {
      if o :| o in Domain(p, v) && Open(p, d, v, o) { assert Meets(r, Some(o)); }
    } else if r.kind == ChooseOption {
      assert Meets(r, r.option);
      if r.option == None || Open(p, d, v, r.option.value) { assert Available(p, d, v, r.option); }
    } else {
      if o :| o in r.options && Open(p, d, v, o) { assert Meets(r, Some(o)); }
    }
  }

  /** With one requirement for each variable and no restrictions, a declaration is legal exactly
      when it does what each requirement asks: a creature that must be chosen is, if an option is
      open to it; one that must choose an option does, if that option is open; one that must
      choose among options chooses one of them, if one of them is open. */
  lemma LegalIffAsked(p: Problem, d: Declaration)
    requires p.restrictions == [] && OneForEach(p.requirements) && InDomains(p, d)
    ensures IsLegal(p, d) <==> forall r :: r in p.requirements ==> Asked(p, d, r)
  {
    hide Settled, Asked, InDomains, IsLegal;
    LegalByVariable(p, d);
    forall r | r in p.requirements ensures Settled(p, d, r.variable.value) <==> Asked(p, d, r) {
      SettledIsAsked(p, d, r);
    }
    forall v ensures Settled(p, d, v) || (v in p.domains && exists r :: r in p.requirements && r.variable == Some(v))
    {
      UnaskedIsSettled(p, d, v);
    }
  }

  lemma UnaskedIsSettled(p: Problem, d: Declaration, v: string)
    requires OneForEach(p.requirements)
    ensures Settled(p, d, v) || exists r :: r in p.requirements && r.variable == Some(v)
    ensures v !in p.domains && InDomains(p, d) ==> Settled(p, d, v)
  {
    hide OneForEach, Met;
    if forall r :: r in p.requirements ==> r.variable != Some(v) {
      forall choice ensures Met(p.requirements, v, choice) == 0 { MetByOne(p.requirements, v, choice); }
    }
  }

  // ----- an option that must be used -----

  lemma CountOfOne(p: Problem, r: Requirement, d: Declaration)
    requires p.requirements == [r]
    ensures Count(p, d) == if Satisfies(r, d) then 1 else 0
  {
    hide Satisfies;
    assert p.requirements[1..] == [];
    assert Filtered([], d, true) == [];
  }

  /** An option that must be used is, if it is open to some variable. */
  lemma LegalIffUsed(p: Problem, d: Declaration, r: Requirement, option: string)
    requires p.restrictions == [] && p.requirements == [r] && InDomains(p, d)
    requires r.kind == OptionUsed && r.option == Some(option)
    ensures IsLegal(p, d) <==>
            ((exists v :: v in p.domains && Open(p, d, v, option)) ==> exists v :: v in d && d[v] == option)
  {
    hide Feasible, Count, Open;
    Choosable(p, d, d);
    forall v | v in d ensures Open(p, d, v, d[v]) { OwnChoice(p, d, v); }
    forall e ensures Count(p, e) == if exists v :: v in e && e[v] == option then 1 else 0 {
      CountOfOne(p, r, e);
    }
    forall e ensures Feasible(p, Elected(p, d), e) <==> forall v :: v in e ==> Open(p, d, v, e[v]) {
      Choosable(p, d, e);
    }
    if v :| v in p.domains && Open(p, d, v, option) {
      var e: Declaration := map[v := option];
      assert e[v] == option && Feasible(p, Elected(p, d), e);
      assert Count(p, e) == 1;
    }
    if (exists v :: v in p.domains && Open(p, d, v, option)) ==> exists v :: v in d && d[v] == option {
      forall e | Feasible(p, Elected(p, d), e) ensures Count(p, e) <= Count(p, d) {
        OpenInDomain(p, d, e);
      }
      assert IsMaximum(p, Elected(p, d), Count(p, d));
    }
  }

  lemma OpenInDomain(p: Problem, d: Declaration, e: Declaration)
    ensures forall v :: v in e && Open(p, d, v, e[v]) ==> v in p.domains
  {
  }

  // ----- goad -----

  /** What goading a creature requires, for each player that goaded it: that it attack, and that it
      attack one of the players listed as others. */
  predicate Goads(rs: seq<Requirement>, creature: string, others: seq<seq<string>>) {
    && |rs| == 2 * |others|
    && forall i :: 0 <= i < |others| ==>
         && rs[2 * i].kind == Choose && rs[2 * i].variable == Some(creature)
         && rs[2 * i + 1].kind == ChooseOptionIn && rs[2 * i + 1].variable == Some(creature)
         && rs[2 * i + 1].options == others[i]
  }

  /** How many of the lists have the player. */
  function Listings(others: seq<seq<string>>, player: string): (n: nat)
    ensures n <= |others|
    ensures n == |others| <==> forall i :: 0 <= i < |others| ==> player in others[i]
    ensures n == 0 <==> forall i :: 0 <= i < |others| ==> player !in others[i]
  {
    if others == [] then 0
    else (if player in others[0] then 1 else 0) + Listings(others[1..], player)
  }

  lemma {:induction false} MetByGoaded(rs: seq<Requirement>, creature: string, others: seq<seq<string>>,
                                       choice: Option<string>)
    requires Goads(rs, creature, others)
    ensures Met(rs, creature, choice) == if choice == None then 0 else |others| + Listings(others, choice.value)
  {
    if others == [] {
    } else {
      GoadsTail(rs, creature, others);
      assert rs[1..][1..] == rs[2..] && rs[1..][0] == rs[1];
      MetByGoaded(rs[2..], creature, others[1..], choice);
    }
  }

  lemma GoadsTail(rs: seq<Requirement>, creature: string, others: seq<seq<string>>)
    requires Goads(rs, creature, others) && others != []
    ensures |rs| >= 2 && Goads(rs[2..], creature, others[1..])
    ensures rs[0].kind == Choose && rs[0].variable == Some(creature)
    ensures rs[1].kind == ChooseOptionIn && rs[1].variable == Some(creature) && rs[1].options == others[0]
  {
    var rest := rs[2..];
    forall i | 0 <= i < |others[1..]|
      ensures rest[2 * i].kind == Choose && rest[2 * i].variable == Some(creature)
      ensures rest[2 * i + 1].kind == ChooseOptionIn && rest[2 * i + 1].variable == Some(creature)
      ensures rest[2 * i + 1].options == others[1..][i]
    {
      assert rest[2 * i] == rs[2 * (i + 1)] && rest[2 * i + 1] == rs[2 * (i + 1) + 1];
    }
    assert rs[2 * 0].kind == Choose && rs[2 * 0 + 1].kind == ChooseOptionIn && rs[2 * 0 + 1].options == others[0];
  }

  lemma GoadsOnVariables(rs: seq<Requirement>, creature: string, others: seq<seq<string>>)
    requires Goads(rs, creature, others)
    ensures OnVariables(rs) && forall r :: r in rs ==> r.variable == Some(creature)
  {
    forall k | 0 <= k < |rs|
      ensures rs[k].variable == Some(creature) && rs[k].kind != OptionUsed
    {
      var i := k / 2;
      assert rs[2 * i].kind == Choose && rs[2 * i + 1].kind == ChooseOptionIn;
      assert k == 2 * i || k == 2 * i + 1;
    }
  }

  lemma {:induction false} MetElsewhere(rs: seq<Requirement>, v: string, choice: Option<string>)
    requires forall r :: r in rs ==> r.variable != Some(v)
    ensures Met(rs, v, choice) == 0
  {
    if rs == [] {
    } else {
      assert rs[0] in rs;
      MetElsewhere(rs[1..], v, choice);
    }
  }

  /** A goaded creature attacks if it can, and then a player listed as often as any it could
      attack. */
  lemma GoadedAttack(p: Problem, d: Declaration, creature: string, others: seq<seq<string>>)
    requires p.restrictions == [] && InDomains(p, d) && Goads(p.requirements, creature, others) && others != []
    ensures IsLegal(p, d) <==>
            forall o :: Open(p, d, creature, o) ==>
              creature in d && Listings(others, o) <= Listings(others, d[creature])
  {
    hide Met, Settled, IsLegal, Goads, Listings, Open;
    GoadsOnVariables(p.requirements, creature, others);
    LegalByVariable(p, d);
    forall v ensures v != creature ==> Settled(p, d, v) {
      if v != creature { UnaskedElsewhere(p, d, v); }
    }
    forall choice ensures Met(p.requirements, creature, choice) ==
                          if choice == None then 0 else |others| + Listings(others, choice.value) {
      MetByGoaded(p.requirements, creature, others, choice);
    }
    GoadedSettled(p, d, creature, others);
    if exists o :: Open(p, d, creature, o) {
      assert creature in p.domains by { OpenOnly(p, d, creature); }
    }
    if creature in d { OwnChoice(p, d, creature); }
  }

  lemma UnaskedElsewhere(p: Problem, d: Declaration, v: string)
    requires forall r :: r in p.requirements ==> r.variable != Some(v)
    ensures Settled(p, d, v)
  {
    hide Met, Available;
    forall choice ensures Met(p.requirements, v, choice) == 0 { MetElsewhere(p.requirements, v, choice); }
  }

  lemma OpenOnly(p: Problem, d: Declaration, v: string)
    ensures (exists o :: Open(p, d, v, o)) ==> v in p.domains
  {
  }

  lemma GoadedSettled(p: Problem, d: Declaration, creature: string, others: seq<seq<string>>)
    requires others != []
    requires forall choice :: Met(p.requirements, creature, choice) ==
                              if choice == None then 0 else |others| + Listings(others, choice.value)
    ensures Settled(p, d, creature) <==>
            forall o :: Open(p, d, creature, o) ==>
              creature in d && Listings(others, o) <= Listings(others, d[creature])
  {
    hide Met, Listings, Open;
    forall o ensures Available(p, d, creature, Some(o)) <==> Open(p, d, creature, o) {
    }
    if Settled(p, d, creature) {
      forall o | Open(p, d, creature, o)
        ensures creature in d && Listings(others, o) <= Listings(others, d[creature])
      {
        assert Available(p, d, creature, Some(o));
      }
    }
  }

  /** Whenever a goaded creature could attack a player that none of its goads excludes, the legal
      declarations are exactly those in which it attacks such a player. */
  lemma GoadedElsewhere(p: Problem, d: Declaration, creature: string, others: seq<seq<string>>, player: string)
    requires p.restrictions == [] && InDomains(p, d) && Goads(p.requirements, creature, others) && others != []
    requires Open(p, d, creature, player) && forall i :: 0 <= i < |others| ==> player in others[i]
    ensures IsLegal(p, d) <==> creature in d && forall i :: 0 <= i < |others| ==> d[creature] in others[i]
  {
    hide IsLegal, Goads, Open, InDomains;
    GoadedAttack(p, d, creature, others);
    if creature in d && forall i :: 0 <= i < |others| ==> d[creature] in others[i] {
      assert Listings(others, d[creature]) == |others|;
    }
    assert Listings(others, player) == |others|;
  }

  // ----- restrictions -----

  /** The selection of a variable is one that the restriction counts. */
  predicate Counted(r: Restriction, d: Declaration, v: string) {
    && v in d
    && (r.kind == MinimumOptionUses || r.kind == MaximumOptionUses ==> r.option == Some(d[v]))
    && (r.kind == MinimumVariableSelections ==> v in r.variables)
  }

  /** At least `n` different selections are counted. */
  ghost predicate AtLeast(r: Restriction, d: Declaration, n: nat) {
    exists vs: seq<string> :: |vs| == n && Distinct(vs) && forall v :: v in vs ==> Counted(r, d, v)
  }

  lemma {:induction false} SelectedIsSize(variables: seq<string>, d: Declaration)
    requires Distinct(variables)
    ensures Selected(variables, d) == |set v | v in variables && v in d|
  {
    if variables == [] {
      assert (set v | v in variables && v in d) == {};
    } else {
      var rest := variables[1..];
      assert Distinct(rest) by {
        forall i, j | 0 <= i < j < |rest| ensures rest[i] != rest[j] {
          assert variables[i + 1] != variables[j + 1];
        }
      }
      assert variables[0] !in rest by {
        forall i | 0 <= i < |rest| ensures rest[i] != variables[0] { assert variables[0] != variables[i + 1]; }
      }
      SelectedIsSize(rest, d);
      var now, before := set v | v in variables && v in d, set v | v in rest && v in d;
      assert variables == [variables[0]] + rest;
      assert now == if variables[0] in d then before + {variables[0]} else before;
    }
  }

  /** What is measured is how many selections are counted. */
  lemma MeasuredIsSize(r: Restriction, d: Declaration)
    requires Distinct(r.variables)
    ensures Measured(r, d) == |set v | v in d && Counted(r, d, v)|
  {
    var counted := set v | v in d && Counted(r, d, v);
    SelectedIsSize(r.variables, d);
    if r.kind == MinimumVariableSelections {
      assert counted == set v | v in r.variables && v in d;
    } else if r.kind == MinimumOptionUses || r.kind == MaximumOptionUses {
      if r.option.Some? {
        assert counted == set v | v in d && d[v] == r.option.value;
      } else {
        assert counted == {};
      }
    } else {
      assert counted == d.Keys && |d| == |d.Keys|;
    }
  }

  lemma AtLeastIff(r: Restriction, d: Declaration, n: nat)
    requires Distinct(r.variables)
    ensures AtLeast(r, d, n) <==> Measured(r, d) >= n
  {
    hide Counted, Measured;
    MeasuredIsSize(r, d);
    var counted := set v | v in d && Counted(r, d, v);
    var all := Listing(counted);
    ListingSize(all, counted);
    if n <= |all| {
      var vs := all[..n];
      assert forall v :: v in vs ==> v in all;
      assert forall v :: v in vs ==> Counted(r, d, v);
    }
    if AtLeast(r, d, n) {
      var vs: seq<string> :| |vs| == n && Distinct(vs) && forall v :: v in vs ==> Counted(r, d, v);
      var some := set v | v in vs;
      ListingSize(vs, some);
      CountedIsDeclared(r, d);
      SubsetSize(some, counted);
    }
  }

  lemma CountedIsDeclared(r: Restriction, d: Declaration)
    ensures forall v :: Counted(r, d, v) ==> v in d
  {
  }

  /** A restriction is broken exactly when the variable that triggers it, if it has one, is
      declared, some selection is counted if it binds only then, and there are too few different
      counted selections for a minimum or too many for a maximum. */
  lemma ViolatedIff(r: Restriction, d: Declaration)
    requires Distinct(r.variables)
    ensures Violated(r, d) <==>
            && (r.trigger.Some? ==> r.trigger.value in d)
            && (r.whenUsed ==> exists v :: Counted(r, d, v))
            && match r.kind
               case MinimumVariableSelections => !AtLeast(r, d, r.count)
               case MinimumOptionUses => !AtLeast(r, d, r.count)
               case MaximumOptionUses => AtLeast(r, d, r.count + 1)
               case MinimumTotalSelections => !AtLeast(r, d, r.count)
               case MaximumTotalSelections => AtLeast(r, d, r.count + 1)
  {
    hide Counted, Measured, AtLeast;
    AtLeastIff(r, d, r.count);
    AtLeastIff(r, d, r.count + 1);
    MeasuredIsSize(r, d);
    CountedIsDeclared(r, d);
    var counted := set v | v in d && Counted(r, d, v);
    assert Measured(r, d) == 0 <==> counted == {};
    if v :| Counted(r, d, v) { assert v in counted; }
  }
}

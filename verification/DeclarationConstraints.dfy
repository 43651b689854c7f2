/** Combat declaration problems (CR 508.1d and 509.1c): every variable may be omitted
    or select one option; restrictions are inviolable; a legal declaration meets as many
    requirements as any restriction-free declaration that elects no further costs. */
module DeclarationConstraints {
  import opened Wrappers
  import opened Orders

  type Declaration = map<string, string>
  type Selection = (string, string)

  datatype RequirementKind = Choose | ChooseOption | ChooseOptionIn | OptionUsed

  datatype Requirement = Requirement(
    id: string,
    kind: RequirementKind,
    variable: Option<string>,
    option: Option<string>,
    options: seq<string>)

  datatype RestrictionKind =
    | MinimumVariableSelections
    | MinimumOptionUses
    | MaximumOptionUses
    | MinimumTotalSelections
    | MaximumTotalSelections

  datatype Restriction = Restriction(
    id: string,
    kind: RestrictionKind,
    option: Option<string>,
    count: nat,
    whenUsed: bool,
    trigger: Option<string>,
    variables: seq<string>)

  datatype Problem = Problem(
    domains: map<string, seq<string>>,
    requirements: seq<Requirement>,
    restrictions: seq<Restriction>,
    costed: set<Selection>,
    maxStates: nat)

  datatype Error = NotEligible | NotLegalOption | UnrepresentedCost | SearchLimit

  // ----- requirements and restrictions -----

  /** The textual form of an optional name; a missing name reads "None". */
  function Text(name: Option<string>): string {
    match name case None => "None" case Some(s) => s
  }

  function Get(d: Declaration, variable: string): Option<string> {
    if variable in d then Some(d[variable]) else None
  }

  predicate Satisfies(r: Requirement, d: Declaration) {
    match r.kind
    case Choose => r.variable.Some? && r.variable.value in d
    case ChooseOption => Get(d, Text(r.variable)) == r.option
    case ChooseOptionIn =>
      var chosen := Get(d, Text(r.variable));
      chosen.Some? && chosen.value in r.options
    case OptionUsed => r.option.Some? && exists v :: v in d && d[v] == r.option.value
  }

  function Uses(option: Option<string>, d: Declaration): nat {
    match option
    case None => 0
    case Some(o) => |set v | v in d && d[v] == o|
  }

  function Selected(variables: seq<string>, d: Declaration): nat {
    if variables == [] then 0
    else (if variables[0] in d then 1 else 0) + Selected(variables[1..], d)
  }

  function Measured(r: Restriction, d: Declaration): nat {
    match r.kind
    case MinimumVariableSelections => Selected(r.variables, d)
    case MinimumOptionUses => Uses(r.option, d)
    case MaximumOptionUses => Uses(r.option, d)
    case MinimumTotalSelections => |d|
    case MaximumTotalSelections => |d|
  }

  predicate IsMaximumKind(kind: RestrictionKind) {
    kind.MaximumOptionUses? || kind.MaximumTotalSelections?
  }

  predicate Violated(r: Restriction, d: Declaration) {
    if r.trigger.Some? && r.trigger.value !in d then false
    else if r.whenUsed && Measured(r, d) == 0 then false
    else if IsMaximumKind(r.kind) then Measured(r, d) > r.count
    else Measured(r, d) < r.count
  }

  function RestrictionErrors(rs: seq<Restriction>, d: Declaration): (errors: seq<string>)
    ensures errors == [] <==> forall r :: r in rs ==> !Violated(r, d)
  {
    if rs == [] then []
    else (if Violated(rs[0], d) then [rs[0].id] else []) + RestrictionErrors(rs[1..], d)
  }

  /** Requirement ids with the given outcome, in requirement order. */
  function Filtered(rs: seq<Requirement>, d: Declaration, met: bool): (ids: seq<string>)
    ensures |ids| <= |rs|
  {
    if rs == [] then []
    else (if Satisfies(rs[0], d) == met then [rs[0].id] else []) + Filtered(rs[1..], d, met)
  }

  function Satisfied(p: Problem, d: Declaration): (ids: seq<string>)
    ensures |ids| <= |p.requirements|
  {
    Filtered(p.requirements, d, true)
  }

  function Count(p: Problem, d: Declaration): (n: nat)
    ensures n <= |p.requirements|
  {
    |Satisfied(p, d)|
  }

  // ----- the mathematical maximum -----

  predicate Free(p: Problem, enabled: set<Selection>, variable: string, option: string) {
    (variable, option) !in p.costed || (variable, option) in enabled
  }

  /** A partial map into the domains that uses no costed option outside `enabled`. */
  ghost predicate Admissible(p: Problem, enabled: set<Selection>, d: Declaration) {
    forall v :: v in d ==> v in p.domains && d[v] in p.domains[v] && Free(p, enabled, v, d[v])
  }

  ghost predicate Unrestricted(p: Problem, d: Declaration) {
    forall r :: r in p.restrictions ==> !Violated(r, d)
  }

  ghost predicate Feasible(p: Problem, enabled: set<Selection>, d: Declaration) {
    Admissible(p, enabled, d) && Unrestricted(p, d)
  }

  /** `m` is met by some restriction-free admissible declaration, or is zero. */
  ghost predicate Attained(p: Problem, enabled: set<Selection>, m: nat) {
    m == 0 || exists d :: Feasible(p, enabled, d) && Count(p, d) == m
  }

  /** `m` is the greatest number of requirements met by any restriction-free
      admissible declaration, and zero when there is none. */
  ghost predicate IsMaximum(p: Problem, enabled: set<Selection>, m: nat) {
    && Attained(p, enabled, m)
    && forall d :: Feasible(p, enabled, d) ==> Count(p, d) <= m
  }

  lemma {:induction false} MaximumExists(p: Problem, enabled: set<Selection>, bound: nat)
    requires forall d :: Feasible(p, enabled, d) ==> Count(p, d) <= bound
    ensures exists m :: IsMaximum(p, enabled, m)
  {
    if Attained(p, enabled, bound) {
      assert IsMaximum(p, enabled, bound);
    } else {
      MaximumExists(p, enabled, bound - 1);
    }
  }

  ghost function Maximum(p: Problem, enabled: set<Selection>): (m: nat)
    ensures IsMaximum(p, enabled, m)
    ensures forall k: nat :: IsMaximum(p, enabled, k) ==> k == m
  {
    MaximumExists(p, enabled, |p.requirements|);
    var m: nat :| IsMaximum(p, enabled, m);
    m
  }

  // ----- the search -----

  function Dedup(s: seq<string>, seen: set<string>): (r: seq<string>)
    ensures forall o :: o in r <==> o in s && o !in seen
    ensures Distinct(r)
  {
    if s == [] then []
    else if s[0] in seen then Dedup(s[1..], seen)
    else [s[0]] + Dedup(s[1..], seen + {s[0]})
  }

  function FreeOnly(p: Problem, enabled: set<Selection>, variable: string, s: seq<string>): (r: seq<string>)
    ensures forall o :: o in r <==> o in s && Free(p, enabled, variable, o)
  {
    if s == [] then []
    else (if Free(p, enabled, variable, s[0]) then [s[0]] else []) + FreeOnly(p, enabled, variable, s[1..])
  }

  /** The options tried for a variable: its domain without repeats, in order, minus
      the costed options that are not enabled. */
  function FreeDomain(p: Problem, enabled: set<Selection>, variable: string): (r: seq<string>)
    requires variable in p.domains
    ensures forall o :: o in r <==> o in p.domains[variable] && Free(p, enabled, variable, o)
  {
    FreeOnly(p, enabled, variable, Dedup(p.domains[variable], {}))
  }

  function Variables(p: Problem): (r: seq<string>)
    ensures forall v :: v in r <==> v in p.domains
    ensures Distinct(r)
  {
    ByKeyOrder(StrKey);
    var r := SortSet(StrKey, p.domains.Keys);
    SortedIsDistinct(ByKey(StrKey), r);
    r
  }

  /** The branching factors of the search: one branch per free option, one for omission. */
  ghost function Widths(p: Problem, enabled: set<Selection>): (ws: seq<nat>)
    ensures |ws| == |Variables(p)|
    ensures forall i :: 0 <= i < |ws| ==> ws[i] == |FreeDomain(p, enabled, Variables(p)[i])| + 1
  {
    seq(|Variables(p)|, i requires 0 <= i < |Variables(p)| => |FreeDomain(p, enabled, Variables(p)[i])| + 1)
  }

  /** `k` copies of `n`, added up. */
  ghost function Repeat(k: nat, n: nat): nat {
    if k == 0 then 0 else n + Repeat(k - 1, n)
  }

  lemma RepeatIsProduct(k: nat, n: nat)
    ensures Repeat(k, n) == k * n
  {
  }

  lemma RepeatStep(i: nat, n: nat)
    ensures Repeat(i + 1, n) == n + Repeat(i, n) && Repeat(0, n) == 0
  {
  }

  /** Number of nodes of a full search tree with the given branching factors. */
  ghost function Tree(ws: seq<nat>): (n: nat) {
    if ws == [] then 1
    else 1 + Repeat(ws[0], Tree(ws[1..]))
  }

  /** The product of the factors. */
  ghost function Product(ws: seq<nat>): (n: nat) {
    if ws == [] then 1
    else Repeat(ws[0], Product(ws[1..]))
  }

  /** The sum over k from 0 to `last` of the product of the first k branching factors. */
  ghost function SumOfProducts(ws: seq<nat>, last: nat): nat
    requires last <= |ws|
  {
    Product(ws[..last]) + if last == 0 then 0 else SumOfProducts(ws, last - 1)
  }

  lemma {:induction false} SumOfProductsStep(ws: seq<nat>, last: nat)
    requires 0 < last <= |ws|
    ensures SumOfProducts(ws, last) == 1 + ws[0] * SumOfProducts(ws[1..], last - 1)
  {
    hide Repeat;
    assert ws[..last][1..] == ws[1..][..last - 1];
    var x := Product(ws[1..][..last - 1]);
    RepeatIsProduct(ws[0], x);
    if last > 1 {
      SumOfProductsStep(ws, last - 1);
    }
  }

  /** The full tree has the sum over k <= n of the product of the first k factors as
      its number of nodes. */
  lemma {:induction false} TreeIsSumOfProducts(ws: seq<nat>)
    ensures Tree(ws) == SumOfProducts(ws, |ws|)
  {
    if ws == [] {
    } else {
      TreeIsSumOfProducts(ws[1..]);
      RepeatIsProduct(ws[0], Tree(ws[1..]));
      SumOfProductsStep(ws, |ws|);
    }
  }

  /** `d` is a feasible completion of `prefix`, which fixes the first `index` variables. */
  ghost predicate Completes(p: Problem, enabled: set<Selection>, prefix: Declaration, index: nat, d: Declaration)
    requires index <= |Variables(p)|
  {
    && Feasible(p, enabled, d)
    && forall i :: 0 <= i < index ==> Get(d, Variables(p)[i]) == Get(prefix, Variables(p)[i])
  }

  ghost predicate IsPrefix(p: Problem, enabled: set<Selection>, prefix: Declaration, index: nat)
    requires index <= |Variables(p)|
  {
    && Admissible(p, enabled, prefix)
    && forall v :: v in prefix ==> v in Variables(p)[..index]
  }

  /** `champion` attains `best`, once any requirement has been met. */
  ghost predicate IsChampion(p: Problem, enabled: set<Selection>, champion: Declaration, best: nat) {
    best == 0 || (Feasible(p, enabled, champion) && Count(p, champion) == best)
  }

  /** No feasible completion of `prefix` meets more than `best` requirements. */
  ghost predicate Bounded(p: Problem, enabled: set<Selection>, prefix: Declaration, index: nat, best: nat)
    requires index <= |Variables(p)|
  {
    forall d :: Completes(p, enabled, prefix, index, d) ==> Count(p, d) <= best
  }

  /** The prefix with the next variable's k-th free option selected. */
  ghost function Branch(p: Problem, enabled: set<Selection>, prefix: Declaration, index: nat, k: nat): Declaration
    requires index < |Variables(p)| && k < |FreeDomain(p, enabled, Variables(p)[index])|
  {
    prefix[Variables(p)[index] := FreeDomain(p, enabled, Variables(p)[index])[k]]
  }

  /** The branches of the first `n` options below a node are bounded. */
  ghost predicate BoundedBranches(p: Problem, enabled: set<Selection>, prefix: Declaration, index: nat, n: nat,
                                  best: nat)
    requires index < |Variables(p)| && n <= |FreeDomain(p, enabled, Variables(p)[index])|
  {
    forall k :: 0 <= k < n ==>
      Bounded(p, enabled, Branch(p, enabled, prefix, index, k), index + 1,
              best)
  }

  lemma NoBranches(p: Problem, enabled: set<Selection>, prefix: Declaration, index: nat, best: nat)
    requires index < |Variables(p)|
    ensures BoundedBranches(p, enabled, prefix, index, 0, best)
  {
  }

  lemma OneMoreBranch(p: Problem, enabled: set<Selection>, prefix: Declaration, index: nat, n: nat, best: nat)
    requires index < |Variables(p)| && n < |FreeDomain(p, enabled, Variables(p)[index])|
    requires BoundedBranches(p, enabled, prefix, index, n, best)
    requires Bounded(p, enabled, Branch(p, enabled, prefix, index, n),
                     index + 1, best)
    ensures BoundedBranches(p, enabled, prefix, index, n + 1, best)
  {
  }

  lemma BranchesGrow(p: Problem, enabled: set<Selection>, prefix: Declaration, index: nat, n: nat, b: nat, c: nat)
    requires index < |Variables(p)| && n <= |FreeDomain(p, enabled, Variables(p)[index])|
    requires BoundedBranches(p, enabled, prefix, index, n, b) && b <= c
    ensures BoundedBranches(p, enabled, prefix, index, n, c)
  {
    forall k | 0 <= k < n
      ensures Bounded(p, enabled, Branch(p, enabled, prefix, index, k),
                      index + 1, c)
    {
    }
  }

  lemma AllMetBounds(p: Problem, enabled: set<Selection>, prefix: Declaration, index: nat)
    requires index <= |Variables(p)|
    ensures Bounded(p, enabled, prefix, index, |p.requirements|)
  {
  }

  lemma OnlyCompletion(p: Problem, enabled: set<Selection>, prefix: Declaration, d: Declaration)
    requires IsPrefix(p, enabled, prefix, |Variables(p)|)
    requires Completes(p, enabled, prefix, |Variables(p)|, d)
    ensures d == prefix
  {
    hide Variables, FreeDomain, Unrestricted;
    forall v | v in d || v in prefix ensures Get(d, v) == Get(prefix, v) {
      assert v in Variables(p);
      var i :| 0 <= i < |Variables(p)| && Variables(p)[i] == v;
    }
    forall v ensures v in d <==> v in prefix {
      if v in d || v in prefix { assert Get(d, v) == Get(prefix, v); }
    }
    forall v | v in d ensures d[v] == prefix[v] {
      assert Get(d, v) == Get(prefix, v);
    }
  }

  // ----- what the search visits -----

  /** Some feasible completion of `prefix` meets every requirement. */
  ghost predicate HasComplete(p: Problem, enabled: set<Selection>, prefix: Declaration, index: nat)
    requires index <= |Variables(p)|
  {
    exists d :: Completes(p, enabled, prefix, index, d) && Count(p, d) == |p.requirements|
  }

  /** The nodes visited from a node on, in search order up to the first leaf that is
      restriction-free and meets every requirement. */
  ghost function Visits(p: Problem, enabled: set<Selection>, prefix: Declaration, index: nat): nat
    requires index <= |Variables(p)|
    decreases |Variables(p)| - index, 1, 0
  {
    1 + if index == |Variables(p)| then 0 else VisitsFrom(p, enabled, prefix, index, 0)
  }

  /** Of these, the ones below the node from its k-th branch on; omission is the last branch. */
  ghost function VisitsFrom(p: Problem, enabled: set<Selection>, prefix: Declaration, index: nat, k: nat): nat
    requires index < |Variables(p)| && k <= |FreeDomain(p, enabled, Variables(p)[index])|
    decreases |Variables(p)| - index, 0, |FreeDomain(p, enabled, Variables(p)[index])| - k
  {
    if k == |FreeDomain(p, enabled, Variables(p)[index])| then Visits(p, enabled, prefix, index + 1)
    else
      var branch := Branch(p, enabled, prefix, index, k);
      Visits(p, enabled, branch, index + 1)
      + if HasComplete(p, enabled, branch, index + 1) then 0 else VisitsFrom(p, enabled, prefix, index, k + 1)
  }

  lemma BranchCompletes(p: Problem, enabled: set<Selection>, prefix: Declaration, index: nat, k: nat)
    requires index < |Variables(p)| && k < |FreeDomain(p, enabled, Variables(p)[index])|
    ensures HasComplete(p, enabled, Branch(p, enabled, prefix, index, k), index + 1) ==>
              HasComplete(p, enabled, prefix, index)
  {
    hide Variables, FreeDomain, Feasible;
    var branch := Branch(p, enabled, prefix, index, k);
    forall d | Completes(p, enabled, branch, index + 1, d) ensures Completes(p, enabled, prefix, index, d) {
      forall i | 0 <= i < index ensures Get(d, Variables(p)[i]) == Get(prefix, Variables(p)[i]) {
        assert Variables(p)[i] != Variables(p)[index];
        assert Get(d, Variables(p)[i]) == Get(branch, Variables(p)[i]);
      }
    }
  }

  lemma OmissionCompletes(p: Problem, enabled: set<Selection>, prefix: Declaration, index: nat)
    requires index < |Variables(p)|
    ensures HasComplete(p, enabled, prefix, index + 1) ==> HasComplete(p, enabled, prefix, index)
  {
    hide Feasible;
    forall d | Completes(p, enabled, prefix, index + 1, d) ensures Completes(p, enabled, prefix, index, d) {
    }
  }

  /** The search visits no more than the full tree, and all of it when nothing can meet every
      requirement. */
  lemma {:induction false} VisitsWithinTree(p: Problem, enabled: set<Selection>, prefix: Declaration, index: nat)
    requires index <= |Variables(p)|
    ensures 1 <= Visits(p, enabled, prefix, index) <= Tree(Widths(p, enabled)[index..])
    ensures !HasComplete(p, enabled, prefix, index) ==>
              Visits(p, enabled, prefix, index) == Tree(Widths(p, enabled)[index..])
    decreases |Variables(p)| - index, 1, 0
  {
    hide *;
    if index == |Variables(p)| {
      LeafVisits(p, enabled, prefix);
      TreeIsPositive(Widths(p, enabled)[index..]);
    } else {
      VisitsStep(p, enabled, prefix, index, 0);
      TreeUnfolds(p, enabled, index);
      VisitsFromWithinTree(p, enabled, prefix, index, 0);
    }
  }

  lemma {:induction false} VisitsFromWithinTree(p: Problem, enabled: set<Selection>, prefix: Declaration, index: nat,
                                                k: nat)
    requires index < |Variables(p)| && k <= |FreeDomain(p, enabled, Variables(p)[index])|
    ensures var below := Tree(Widths(p, enabled)[index + 1..]);
            var most := Repeat(|FreeDomain(p, enabled, Variables(p)[index])| - k, below) + below;
            && VisitsFrom(p, enabled, prefix, index, k) <= most
            && (!HasComplete(p, enabled, prefix, index) ==> VisitsFrom(p, enabled, prefix, index, k) == most)
    decreases |Variables(p)| - index, 0, |FreeDomain(p, enabled, Variables(p)[index])| - k
  {
    hide HasComplete, Tree, Branch, Visits, Repeat, Variables, FreeDomain;
    var left := |FreeDomain(p, enabled, Variables(p)[index])| - k;
    var below := Tree(Widths(p, enabled)[index + 1..]);
    RepeatStep(if left == 0 then 0 else left - 1, below);
    if left == 0 {
      OmissionCompletes(p, enabled, prefix, index);
      VisitsWithinTree(p, enabled, prefix, index + 1);
    } else {
      BranchCompletes(p, enabled, prefix, index, k);
      VisitsWithinTree(p, enabled, Branch(p, enabled, prefix, index, k), index + 1);
      VisitsFromWithinTree(p, enabled, prefix, index, k + 1);
    }
  }

  lemma BoundedHasNone(p: Problem, enabled: set<Selection>, prefix: Declaration, index: nat, best: nat)
    requires index <= |Variables(p)| && Bounded(p, enabled, prefix, index, best) && best < |p.requirements|
    ensures !HasComplete(p, enabled, prefix, index)
  {
    hide Completes;
  }

  /** What one more branch adds to the visits. */
  lemma VisitsStep(p: Problem, enabled: set<Selection>, prefix: Declaration, index: nat, k: nat)
    requires index < |Variables(p)| && k <= |FreeDomain(p, enabled, Variables(p)[index])|
    ensures Visits(p, enabled, prefix, index) == 1 + VisitsFrom(p, enabled, prefix, index, 0)
    ensures VisitsFrom(p, enabled, prefix, index, k) ==
            if k == |FreeDomain(p, enabled, Variables(p)[index])| then Visits(p, enabled, prefix, index + 1)
            else
              var branch := prefix[Variables(p)[index] := FreeDomain(p, enabled, Variables(p)[index])[k]];
              Visits(p, enabled, branch, index + 1)
              + if HasComplete(p, enabled, branch, index + 1) then 0 else VisitsFrom(p, enabled, prefix, index, k + 1)
  {
    hide HasComplete, Variables, FreeDomain;
  }

  lemma BranchIs(p: Problem, enabled: set<Selection>, prefix: Declaration, index: nat, k: nat)
    requires index < |Variables(p)| && k < |FreeDomain(p, enabled, Variables(p)[index])|
    ensures Branch(p, enabled, prefix, index, k) ==
            prefix[Variables(p)[index] := FreeDomain(p, enabled, Variables(p)[index])[k]]
  {
  }

  datatype Signal = Continue | Stop | LimitExceeded

  /** The depth-first search with its shared declaration, best count and state counter. */
  class Search {
    const problem: Problem
    const enabled: set<Selection>
    const variables: seq<string>
    var declaration: Declaration
    var best: nat
    ghost var champion: Declaration
    var states: nat

    constructor (p: Problem, enabled: set<Selection>)
      ensures problem == p && this.enabled == enabled && variables == Variables(p)
      ensures declaration == map[] && best == 0 && states == 0
    {
      problem, this.enabled, variables := p, enabled, Variables(p);
      declaration, best, states := map[], 0, 0;
      champion := map[];
    }

    /** A leaf of the search: scores the declaration when no restriction forbids it. */
    method Score() returns (signal: Signal)
      requires variables == Variables(problem)
      requires IsPrefix(problem, enabled, declaration, |variables|)
      requires IsChampion(problem, enabled, champion, best)
      modifies this`best, this`champion
      ensures best >= old(best) && IsChampion(problem, enabled, champion, best)
      ensures signal == if Unrestricted(problem, declaration) && best == |problem.requirements| then Stop else Continue
      ensures Bounded(problem, enabled, declaration, |variables|, best)
      ensures old(best) < |problem.requirements| ==>
                if signal == Stop then HasComplete(problem, enabled, declaration, |variables|)
                else best < |problem.requirements|
    {
      forall d | Completes(problem, enabled, declaration, |variables|, d) ensures d == declaration {
        OnlyCompletion(problem, enabled, declaration, d);
      }
      if RestrictionErrors(problem.restrictions, declaration) != [] {
        return Continue;
      }
      assert Completes(problem, enabled, declaration, |variables|, declaration);
      var met := Count(problem, declaration);
      if met > best {
        best, champion := met, declaration;
      }
      return if best == |problem.requirements| then Stop else Continue;
    }

    /** Visits every completion of the current declaration of the first `index`
        variables, stopping early once every requirement is met. */
    method Visit(index: nat) returns (signal: Signal)
      requires variables == Variables(problem) && index <= |variables|
      requires IsPrefix(problem, enabled, declaration, index)
      requires IsChampion(problem, enabled, champion, best) && best < |problem.requirements|
      requires states <= problem.maxStates
      modifies this
      ensures IsChampion(problem, enabled, champion, best) && best >= old(best)
      ensures signal.Stop? ==> best == |problem.requirements| && HasComplete(problem, enabled, old(declaration), index)
      ensures !signal.LimitExceeded? ==> Bounded(problem, enabled, old(declaration), index, best)
      ensures signal.Continue? ==> declaration == old(declaration) && best < |problem.requirements|
      ensures signal.Continue? ==> states == old(states) + Tree(Widths(problem, enabled)[index..])
      ensures states <= old(states) + Tree(Widths(problem, enabled)[index..])
      ensures !signal.LimitExceeded? ==> states == old(states) + Visits(problem, enabled, old(declaration), index)
      ensures signal.LimitExceeded? <==>
              old(states) + Visits(problem, enabled, old(declaration), index) > problem.maxStates
      ensures if signal.LimitExceeded? then states == problem.maxStates + 1 else states <= problem.maxStates
      decreases |variables| - index, 1
    {
      hide *;
      ghost var prefix := declaration;
      VisitsWithinTree(problem, enabled, prefix, index);
      states := states + 1;
      if states > problem.maxStates {
        return LimitExceeded;
      }
      if index == |variables| {
        LeafVisits(problem, enabled, prefix);
        signal := Score();
      } else {
        VisitsStep(problem, enabled, prefix, index, 0);
        signal := VisitBranches(index);
      }
      if signal == Continue { BoundedHasNone(problem, enabled, prefix, index, best); }
    }

    /** The branches below a node: one for each free option of its variable, then omission. */
    method VisitBranches(index: nat) returns (signal: Signal)
      requires variables == Variables(problem) && index < |variables|
      requires IsPrefix(problem, enabled, declaration, index)
      requires IsChampion(problem, enabled, champion, best) && best < |problem.requirements|
      requires states <= problem.maxStates
      modifies this
      ensures IsChampion(problem, enabled, champion, best) && best >= old(best)
      ensures signal.Stop? ==> best == |problem.requirements| && HasComplete(problem, enabled, old(declaration), index)
      ensures !signal.LimitExceeded? ==> Bounded(problem, enabled, old(declaration), index, best)
      ensures signal.Continue? ==> declaration == old(declaration) && best < |problem.requirements|
      ensures !signal.LimitExceeded? ==>
                states == old(states) + VisitsFrom(problem, enabled, old(declaration), index, 0)
      ensures signal.LimitExceeded? <==>
              old(states) + VisitsFrom(problem, enabled, old(declaration), index, 0) > problem.maxStates
      ensures if signal.LimitExceeded? then states == problem.maxStates + 1 else states <= problem.maxStates
      decreases |variables| - index, 0
    {
      hide *;
      ghost var prefix := declaration;
      ghost var due := states + VisitsFrom(problem, enabled, prefix, index, 0);
      var variable := variables[index];
      var options := FreeDomain(problem, enabled, variable);
      NextIsUnassigned(problem, enabled, prefix, index);
      NoBranches(problem, enabled, prefix, index, best);
      var i := 0;
      while i < |options|
        invariant 0 <= i <= |options|
        invariant declaration - {variable} == prefix
        invariant IsChampion(problem, enabled, champion, best) && old(best) <= best < |problem.requirements|
        invariant states + VisitsFrom(problem, enabled, prefix, index, i) == due && states <= problem.maxStates
        invariant BoundedBranches(problem, enabled, prefix, index, i, best)
      {
        VisitsStep(problem, enabled, prefix, index, i);
        BranchIs(problem, enabled, prefix, index, i);
        BranchCompletes(problem, enabled, prefix, index, i);
        ghost var before := best;
        declaration := declaration[variable := options[i]];
        ghost var branch := prefix[variable := options[i]];
        assert declaration == branch;
        PrefixExtends(problem, enabled, prefix, index, options[i]);
        signal := Visit(index + 1);
        if signal != Continue {
          if signal == Stop { AllMetBounds(problem, enabled, prefix, index); }
          return;
        }
        BoundedHasNone(problem, enabled, branch, index + 1, best);
        BranchesGrow(problem, enabled, prefix, index, i, before, best);
        OneMoreBranch(problem, enabled, prefix, index, i, best);
        i := i + 1;
      }
      declaration := declaration - {variable};
      PrefixOmits(problem, enabled, prefix, index);
      OmissionCompletes(problem, enabled, prefix, index);
      VisitsStep(problem, enabled, prefix, index, i);
      ghost var before := best;
      signal := Visit(index + 1);
      if signal != LimitExceeded {
        BranchesGrow(problem, enabled, prefix, index, i, before, best);
        BranchesBound(problem, enabled, prefix, index, best);
      }
    }
  }

  lemma LeafVisits(p: Problem, enabled: set<Selection>, prefix: Declaration)
    ensures Visits(p, enabled, prefix, |Variables(p)|) == 1
  {
  }

  lemma TreeUnfolds(p: Problem, enabled: set<Selection>, index: nat)
    requires index < |Variables(p)|
    ensures var below := Tree(Widths(p, enabled)[index + 1..]);
            Tree(Widths(p, enabled)[index..]) ==
            1 + Repeat(|FreeDomain(p, enabled, Variables(p)[index])|, below) + below
  {
    hide Variables, FreeDomain;
    assert Widths(p, enabled)[index..][1..] == Widths(p, enabled)[index + 1..];
  }

  lemma TreeIsPositive(ws: seq<nat>)
    ensures Tree(ws) >= 1 && (ws == [] ==> Tree(ws) == 1)
  {
  }

  lemma PrefixOmits(p: Problem, enabled: set<Selection>, prefix: Declaration, index: nat)
    requires index < |Variables(p)| && IsPrefix(p, enabled, prefix, index)
    ensures IsPrefix(p, enabled, prefix, index + 1)
  {
  }

  lemma PrefixExtends(p: Problem, enabled: set<Selection>, prefix: Declaration, index: nat, option: string)
    requires index < |Variables(p)| && IsPrefix(p, enabled, prefix, index)
    requires option in FreeDomain(p, enabled, Variables(p)[index])
    ensures IsPrefix(p, enabled, prefix[Variables(p)[index] := option], index + 1)
  {
    hide Variables, FreeDomain;
  }

  lemma NextIsUnassigned(p: Problem, enabled: set<Selection>, prefix: Declaration, index: nat)
    requires index < |Variables(p)| && IsPrefix(p, enabled, prefix, index)
    ensures Variables(p)[index] !in prefix
  {
    var vs := Variables(p);
    forall i | 0 <= i < index ensures vs[..index][i] != vs[index] {
      assert vs[i] != vs[index];
    }
  }

  /** A completion that omits the next variable. */
  lemma OmissionBranch(p: Problem, enabled: set<Selection>, prefix: Declaration, index: nat, d: Declaration)
    requires index < |Variables(p)| && IsPrefix(p, enabled, prefix, index)
    requires Completes(p, enabled, prefix, index, d) && Variables(p)[index] !in d
    ensures Completes(p, enabled, prefix, index + 1, d)
  {
    hide Variables, FreeDomain, Unrestricted;
    NextIsUnassigned(p, enabled, prefix, index);
  }

  /** A completion that selects one of the next variable's free options. */
  lemma OptionBranch(p: Problem, enabled: set<Selection>, prefix: Declaration, index: nat, d: Declaration)
    returns (k: nat)
    requires index < |Variables(p)| && IsPrefix(p, enabled, prefix, index)
    requires Completes(p, enabled, prefix, index, d) && Variables(p)[index] in d
    ensures k < |FreeDomain(p, enabled, Variables(p)[index])|
    ensures Completes(p, enabled, Branch(p, enabled, prefix, index, k),
                      index + 1, d)
  {
    hide Variables, FreeDomain, Unrestricted;
    var v := Variables(p)[index];
    var options := FreeDomain(p, enabled, v);
    assert d[v] in options;
    k :| 0 <= k < |options| && options[k] == d[v];
    var extended := prefix[v := options[k]];
    forall i | 0 <= i < index + 1 ensures Get(d, Variables(p)[i]) == Get(extended, Variables(p)[i]) {
      if i < index {
        assert Variables(p)[i] != v;
        assert Get(d, Variables(p)[i]) == Get(prefix, Variables(p)[i]);
      }
    }
  }

  /** Bounding every branch below a node bounds the node. */
  lemma BranchesBound(p: Problem, enabled: set<Selection>, prefix: Declaration, index: nat, best: nat)
    requires index < |Variables(p)| && IsPrefix(p, enabled, prefix, index)
    requires Bounded(p, enabled, prefix, index + 1, best)
    requires BoundedBranches(p, enabled, prefix, index, |FreeDomain(p, enabled, Variables(p)[index])|, best)
    ensures Bounded(p, enabled, prefix, index, best)
  {
    forall d | Completes(p, enabled, prefix, index, d) ensures Count(p, d) <= best {
      if Variables(p)[index] in d {
        var k := OptionBranch(p, enabled, prefix, index, d);
        assert Bounded(p, enabled, Branch(p, enabled, prefix, index, k),
                       index + 1, best);
      } else {
        OmissionBranch(p, enabled, prefix, index, d);
      }
    }
  }

  // ----- the maximum, declarations and their evaluation -----

  /** What a full search visits: the sum over k of the product of the first k branching factors. */
  ghost function States(p: Problem, enabled: set<Selection>): nat {
    SumOfProducts(Widths(p, enabled), |Variables(p)|)
  }

  /** The greatest number of requirements a restriction-free declaration can meet with the
      given costed options enabled; rejected when an enabled option is not costed or
      when the search outgrows its state budget. */
  method MaximumSatisfied(p: Problem, enabled: set<Selection>) returns (r: Result<nat, Error>)
    requires p.maxStates > 0
    ensures r.Ok? ==> r.value == Maximum(p, enabled)
    ensures p.requirements == [] ==> r.Ok?
    ensures p.requirements != [] && !(enabled <= p.costed) <==> r == Err(UnrepresentedCost)
    ensures r == Err(SearchLimit) ==> States(p, enabled) > p.maxStates
    ensures p.requirements != [] && enabled <= p.costed && Maximum(p, enabled) < |p.requirements| ==>
              (r == Err(SearchLimit) <==> States(p, enabled) > p.maxStates)
    ensures p.requirements != [] && enabled <= p.costed ==>
              (r == Err(SearchLimit) <==> Visits(p, enabled, map[], 0) > p.maxStates)
    ensures r.Err? ==> r.error.UnrepresentedCost? || r.error.SearchLimit?
  {
    if p.requirements == [] {
      MaximumIs(p, enabled, 0);
      return Ok(0);
    }
    if !(enabled <= p.costed) {
      return Err(UnrepresentedCost);
    }
    var search := new Search(p, enabled);
    assert IsPrefix(p, enabled, map[], 0);
    var signal := search.Visit(0);
    assert Widths(p, enabled)[0..] == Widths(p, enabled);
    TreeIsSumOfProducts(Widths(p, enabled));
    VisitsWithinTree(p, enabled, map[], 0);
    if signal == LimitExceeded {
      return Err(SearchLimit);
    }
    forall d | Feasible(p, enabled, d) ensures Count(p, d) <= search.best {
      assert Completes(p, enabled, map[], 0, d);
    }
    MaximumIs(p, enabled, search.best);
    return Ok(search.best);
  }

  lemma MaximumIs(p: Problem, enabled: set<Selection>, m: nat)
    requires Attained(p, enabled, m)
    requires forall d :: Feasible(p, enabled, d) ==> Count(p, d) <= m
    ensures Maximum(p, enabled) == m
  {
    assert IsMaximum(p, enabled, m);
  }

  ghost predicate InDomains(p: Problem, d: Declaration) {
    forall v :: v in d ==> v in p.domains && d[v] in p.domains[v]
  }

  /** The costed options that the declaration itself selects. */
  function Elected(p: Problem, d: Declaration): set<Selection> {
    set v | v in d && (v, d[v]) in p.costed :: (v, d[v])
  }

  /** Legality as CR 508.1d states it: no restriction disobeyed, and as many requirements
      met as possible without electing any further cost. */
  ghost predicate IsLegal(p: Problem, d: Declaration) {
    InDomains(p, d) && Unrestricted(p, d) && Count(p, d) == Maximum(p, Elected(p, d))
  }

  /** The entries as a map; of entries for one variable the last decides. */
  function DeclarationOf(items: seq<Selection>): Declaration {
    if items == [] then map[]
    else
      var n := |items| - 1;
      DeclarationOf(items[..n])[items[n].0 := items[n].1]
  }

  predicate EntryLegal(p: Problem, item: Selection) {
    item.0 in p.domains && item.1 in p.domains[item.0]
  }

  predicate EntriesLegal(p: Problem, items: seq<Selection>) {
    forall i :: 0 <= i < |items| ==> EntryLegal(p, items[i])
  }

  /** The first entry outside the issued problem, and the error it causes. */
  ghost predicate FirstIllegal(p: Problem, items: seq<Selection>, i: nat, e: Error) {
    && i < |items| && !EntryLegal(p, items[i]) && EntriesLegal(p, items[..i])
    && e == if items[i].0 in p.domains then NotLegalOption else NotEligible
  }

  lemma {:induction false} LegalEntriesInDomains(p: Problem, items: seq<Selection>)
    requires EntriesLegal(p, items)
    ensures InDomains(p, DeclarationOf(items))
    decreases |items|
  {
    if items == [] {
    } else {
      LegalEntriesInDomains(p, items[..|items| - 1]);
    }
  }

  /** Rejects the first entry outside the issued problem; otherwise the entries as a map. */
  method Canonical(p: Problem, items: seq<Selection>) returns (r: Result<Declaration, Error>)
    ensures r.Ok? <==> EntriesLegal(p, items)
    ensures r.Ok? ==> r.value == DeclarationOf(items)
    ensures r.Err? ==> r.error != SearchLimit && exists i :: FirstIllegal(p, items, i, r.error)
  {
    var canonical: Declaration := map[];
    var i := 0;
    while i < |items|
      invariant 0 <= i <= |items|
      invariant EntriesLegal(p, items[..i])
      invariant canonical == DeclarationOf(items[..i])
    {
      assert items[..i + 1][..i] == items[..i];
      if items[i].0 !in p.domains {
        assert FirstIllegal(p, items, i, NotEligible);
        return Err(NotEligible);
      }
      if items[i].1 !in p.domains[items[i].0] {
        assert FirstIllegal(p, items, i, NotLegalOption);
        return Err(NotLegalOption);
      }
      canonical := canonical[items[i].0 := items[i].1];
      i := i + 1;
    }
    assert items[..i] == items;
    return Ok(canonical);
  }

  function IdsOutside(rs: seq<Requirement>, ids: set<string>): seq<string> {
    if rs == [] then []
    else (if rs[0].id in ids then [] else [rs[0].id]) + IdsOutside(rs[1..], ids)
  }

  datatype Evaluation = Evaluation(
    satisfied: seq<string>,
    unmet: seq<string>,
    maximum: nat,
    restrictionErrors: seq<string>)
  {
    predicate Legal() {
      restrictionErrors == [] && |satisfied| == maximum
    }
  }

  /** The evaluation of a declaration: its verdict is legality as CR 508.1d states it. */
  ghost predicate IsEvaluation(p: Problem, d: Declaration, e: Evaluation) {
    && (e.Legal() <==> IsLegal(p, d))
    && e.satisfied == Filtered(p.requirements, d, true)
    && e.unmet == Filtered(p.requirements, d, false)
    && e.maximum == Maximum(p, Elected(p, d))
    && (e.restrictionErrors == [] <==> Unrestricted(p, d))
  }

  /** What evaluating the entries may answer. The search limit is met only by legal entries of
      a problem with requirements, only when the full tree outgrows the budget and, unless every
      requirement can be met, exactly then. */
  ghost predicate Answers(p: Problem, items: seq<Selection>, r: Result<Evaluation, Error>) {
    var d := DeclarationOf(items);
    var costs := Elected(p, d);
    && (r.Ok? ==> EntriesLegal(p, items) && InDomains(p, d) && IsEvaluation(p, d, r.value))
    && (r.Err? ==>
          if r.error == SearchLimit then EntriesLegal(p, items) else exists i :: FirstIllegal(p, items, i, r.error))
    && (EntriesLegal(p, items) ==>
          (r == Err(SearchLimit) <==> p.requirements != [] && Visits(p, costs, map[], 0) > p.maxStates))
    && (r == Err(SearchLimit) ==> p.requirements != [] && States(p, costs) > p.maxStates)
    && (EntriesLegal(p, items) && p.requirements != [] && Maximum(p, costs) < |p.requirements| ==>
          (r == Err(SearchLimit) <==> States(p, costs) > p.maxStates))
  }

  function EvaluationOf(p: Problem, d: Declaration, maximum: nat): Evaluation {
    var satisfied := Satisfied(p, d);
    Evaluation(satisfied, IdsOutside(p.requirements, set x | x in satisfied), maximum,
               RestrictionErrors(p.restrictions, d))
  }

  lemma EvaluationIsRight(p: Problem, d: Declaration)
    requires InDomains(p, d)
    requires forall i, j :: 0 <= i < j < |p.requirements| ==> p.requirements[i].id != p.requirements[j].id
    ensures IsEvaluation(p, d, EvaluationOf(p, d, Maximum(p, Elected(p, d))))
  {
    hide Violated, Satisfies, Filtered, Maximum, IdsOutside, InDomains, Elected;
    UnmetIsComplement(p.requirements, d);
  }

  /** Evaluates a declaration of the problem. */
  method Evaluate(p: Problem, items: seq<Selection>) returns (r: Result<Evaluation, Error>)
    requires p.maxStates > 0
    requires forall i, j :: 0 <= i < j < |p.requirements| ==> p.requirements[i].id != p.requirements[j].id
    ensures Answers(p, items, r)
  {
    hide EntriesLegal, EntryLegal, FirstIllegal, Maximum, DeclarationOf, States, InDomains, IsEvaluation,
         EvaluationOf;
    var canonical := Canonical(p, items);
    if canonical.Err? {
      return Err(canonical.error);
    }
    var d := canonical.value;
    LegalEntriesInDomains(p, items);
    EvaluationIsRight(p, d);
    var maximum := MaximumSatisfied(p, Elected(p, d));
    if maximum.Err? {
      return Err(maximum.error);
    }
    return Ok(EvaluationOf(p, d, maximum.value));
  }

  lemma {:induction false} FilteredIds(rs: seq<Requirement>, d: Declaration, id: string)
    ensures id in Filtered(rs, d, true) <==> exists i :: 0 <= i < |rs| && rs[i].id == id && Satisfies(rs[i], d)
  {
    if rs == [] {
    } else {
      FilteredIds(rs[1..], d, id);
      if id in Filtered(rs[1..], d, true) {
        var i :| 0 <= i < |rs[1..]| && rs[1..][i].id == id && Satisfies(rs[1..][i], d);
        assert rs[i + 1].id == id;
      }
      if i :| 0 <= i < |rs| && rs[i].id == id && Satisfies(rs[i], d) && i > 0 {
        assert rs[1..][i - 1] == rs[i];
      }
    }
  }

  lemma {:induction false} OutsideIsUnmet(all: seq<Requirement>, from: nat, d: Declaration, ids: set<string>)
    requires from <= |all|
    requires forall i, j :: 0 <= i < j < |all| ==> all[i].id != all[j].id
    requires ids == set x | x in Filtered(all, d, true)
    ensures IdsOutside(all[from..], ids) == Filtered(all[from..], d, false)
    decreases |all| - from
  {
    if from < |all| {
      OutsideIsUnmet(all, from + 1, d, ids);
      assert all[from..][1..] == all[from + 1..];
      FilteredIds(all, d, all[from].id);
      assert all[from].id in ids <==> Satisfies(all[from], d);
    }
  }

  lemma UnmetIsComplement(rs: seq<Requirement>, d: Declaration)
    requires forall i, j :: 0 <= i < j < |rs| ==> rs[i].id != rs[j].id
    ensures IdsOutside(rs, set x | x in Filtered(rs, d, true)) == Filtered(rs, d, false)
  {
    OutsideIsUnmet(rs, 0, d, set x | x in Filtered(rs, d, true));
    assert rs[0..] == rs;
  }

  // ----- laws of the maximum -----

  /** Enabling more costs can only raise the maximum. */
  lemma MaximumIsMonotone(p: Problem, few: set<Selection>, many: set<Selection>)
    requires few <= many
    ensures Maximum(p, few) <= Maximum(p, many)
  {
    var m := Maximum(p, few);
    if m > 0 {
      var d :| Feasible(p, few, d) && Count(p, d) == m;
    }
  }

  /** A restriction-free declaration never beats the maximum it is judged against. */
  lemma NeverAboveMaximum(p: Problem, d: Declaration)
    requires InDomains(p, d) && Unrestricted(p, d)
    ensures Count(p, d) <= Maximum(p, Elected(p, d))
  {
  }

  /** A best declaration for an enabled set is legal in its own right, although it is judged
      against the smaller set of costs that it elects itself. */
  lemma BestIsLegal(p: Problem, enabled: set<Selection>, d: Declaration)
    requires Feasible(p, enabled, d) && Count(p, d) == Maximum(p, enabled)
    ensures IsLegal(p, d)
  {
    NeverAboveMaximum(p, d);
    assert Elected(p, d) <= enabled;
    MaximumIsMonotone(p, Elected(p, d), enabled);
  }

  /** Some feasible declaration attains the maximum whenever any is feasible. */
  lemma BestExists(p: Problem, enabled: set<Selection>, d: Declaration) returns (best: Declaration)
    requires Feasible(p, enabled, d)
    ensures Feasible(p, enabled, best) && Count(p, best) == Maximum(p, enabled)
  {
    if Maximum(p, enabled) == 0 {
      best := d;
    } else {
      best :| Feasible(p, enabled, best) && Count(p, best) == Maximum(p, enabled);
    }
  }

  /** Legal declarations exist exactly when restriction-free declarations do. */
  lemma LegalDeclarationExists(p: Problem)
    ensures (exists d :: IsLegal(p, d)) <==> (exists d :: InDomains(p, d) && Unrestricted(p, d))
  {
    if d: Declaration :| InDomains(p, d) && Unrestricted(p, d) {
      assert Feasible(p, p.costed, d);
      var best := BestExists(p, p.costed, d);
      BestIsLegal(p, p.costed, best);
    }
  }

  /** No cost is ever compulsory: a legal declaration that elects no cost exists exactly
      when a restriction-free declaration that elects no cost does. */
  lemma CostsAreNeverCompulsory(p: Problem)
    ensures (exists d :: IsLegal(p, d) && Elected(p, d) == {})
       <==> (exists d :: InDomains(p, d) && Unrestricted(p, d) && Elected(p, d) == {})
  {
    if d: Declaration :| InDomains(p, d) && Unrestricted(p, d) && Elected(p, d) == {} {
      var best := BestExists(p, {}, d);
      BestIsLegal(p, {}, best);
      ElectsNothing(p, best);
    }
  }

  lemma ElectsNothing(p: Problem, d: Declaration)
    requires Admissible(p, {}, d)
    ensures Elected(p, d) == {}
  {
    forall v | v in d ensures (v, d[v]) !in p.costed {
      assert Free(p, {}, v, d[v]);
    }
  }

  // ----- laws of the restrictions -----

  ghost predicate PartOf(d: Declaration, e: Declaration) {
    forall v :: v in d ==> v in e && e[v] == d[v]
  }

  lemma {:induction false} SelectedGrows(variables: seq<string>, d: Declaration, e: Declaration)
    requires PartOf(d, e)
    ensures Selected(variables, d) <= Selected(variables, e)
  {
    if variables == [] {
    } else {
      SelectedGrows(variables[1..], d, e);
    }
  }

  lemma SubsetSize<T>(a: set<T>, b: set<T>)
    requires a <= b
    ensures |a| <= |b|
  {
    assert b == a + (b - a);
  }

  lemma MeasuredGrows(r: Restriction, d: Declaration, e: Declaration)
    requires PartOf(d, e)
    ensures Measured(r, d) <= Measured(r, e)
  {
    SelectedGrows(r.variables, d, e);
    SubsetSize(d.Keys, e.Keys);
    assert |d| == |d.Keys| && |e| == |e.Keys|;
    if r.option.Some? {
      SubsetSize(set v | v in d && d[v] == r.option.value, set v | v in e && e[v] == r.option.value);
    }
  }

  /** A maximum broken by part of a declaration is broken by the whole; an unconditional
      minimum met by part of a declaration is met by the whole. */
  lemma RestrictionsAreMonotone(r: Restriction, d: Declaration, e: Declaration)
    requires PartOf(d, e)
    ensures IsMaximumKind(r.kind) && Violated(r, d) ==> Violated(r, e)
    ensures !IsMaximumKind(r.kind) && r.trigger == None && !r.whenUsed && !Violated(r, d) ==> !Violated(r, e)
  {
    MeasuredGrows(r, d, e);
  }

  lemma {:induction false} NothingSelected(variables: seq<string>)
    ensures Selected(variables, map[]) == 0
  {
    if variables == [] {
    } else {
      NothingSelected(variables[1..]);
    }
  }

  /** Declaring nothing breaks a restriction only if it is an untriggered, unconditional,
      positive minimum; so a problem without such a restriction has a legal declaration. */
  lemma DeclaringNothing(p: Problem)
    ensures Unrestricted(p, map[]) <==>
            forall r :: r in p.restrictions ==>
              IsMaximumKind(r.kind) || r.trigger.Some? || r.whenUsed || r.count == 0
    ensures Unrestricted(p, map[]) ==> exists d :: IsLegal(p, d) && Elected(p, d) == {}
  {
    var none: Declaration := map[];
    forall r: Restriction
      ensures Violated(r, none) <==> !(IsMaximumKind(r.kind) || r.trigger.Some? || r.whenUsed || r.count == 0)
    {
      NothingSelected(r.variables);
      assert Measured(r, none) == 0 by {
        if r.option.Some? { assert (set v | v in none && none[v] == r.option.value) == {}; }
      }
    }
    assert InDomains(p, none) && Elected(p, none) == {};
    CostsAreNeverCompulsory(p);
  }

  // ----- budgets that reach a legal declaration -----

  lemma {:induction false} WiderTree(few: seq<nat>, many: seq<nat>)
    requires |few| == |many| && forall i :: 0 <= i < |few| ==> few[i] <= many[i]
    ensures Tree(few) <= Tree(many)
  {
    if few == [] {
    } else {
      WiderTree(few[1..], many[1..]);
      WiderRepeat(few[0], Tree(few[1..]), many[0], Tree(many[1..]));
    }
  }

  lemma {:induction false} WiderRepeat(k: nat, n: nat, l: nat, m: nat)
    requires k <= l && n <= m
    ensures Repeat(k, n) <= Repeat(l, m)
  {
    if k == 0 {
    } else {
      WiderRepeat(k - 1, n, l - 1, m);
    }
  }

  lemma {:induction false} MoreIsFree(p: Problem, few: set<Selection>, many: set<Selection>, variable: string,
                                      s: seq<string>)
    requires few <= many
    ensures |FreeOnly(p, few, variable, s)| <= |FreeOnly(p, many, variable, s)|
  {
    if s == [] {
    } else {
      MoreIsFree(p, few, many, variable, s[1..]);
    }
  }

  /** Enabling more costs can only enlarge the search. */
  lemma MoreStates(p: Problem, few: set<Selection>, many: set<Selection>)
    requires few <= many
    ensures States(p, few) <= States(p, many)
  {
    hide FreeOnly, Tree;
    var ws, vs := Widths(p, few), Widths(p, many);
    forall i | 0 <= i < |ws| ensures ws[i] <= vs[i] {
      var v := Variables(p)[i];
      assert v in Variables(p);
      MoreIsFree(p, few, many, v, Dedup(p.domains[v], {}));
    }
    WiderTree(ws, vs);
    TreeIsSumOfProducts(ws);
    TreeIsSumOfProducts(vs);
  }

  /** Every declaration can be written as entries. */
  lemma {:induction false} EntriesOf(d: Declaration) returns (items: seq<Selection>)
    ensures DeclarationOf(items) == d && forall i :: 0 <= i < |items| ==> items[i].0 in d && d[items[i].0] == items[i].1
    decreases |d|
  {
    if d == map[] {
      items := [];
    } else {
      var v :| v in d;
      var rest := EntriesOf(d - {v});
      items := rest + [(v, d[v])];
      assert items[..|items| - 1] == rest;
      assert (d - {v})[v := d[v]] == d;
    }
  }

  /** Whatever the evaluation answers to the entries, it judges them legal. */
  ghost predicate JudgedLegal(p: Problem, items: seq<Selection>) {
    forall r :: Answers(p, items, r) ==> r.Ok? && r.value.Legal()
  }

  /** When a search over every option fits the budget and some declaration is restriction-free,
      some declaration is submitted, evaluated and judged legal. */
  lemma SomeDeclarationIsJudgedLegal(p: Problem)
    requires States(p, p.costed) <= p.maxStates
    requires exists d :: InDomains(p, d) && Unrestricted(p, d)
    ensures exists items :: JudgedLegal(p, items)
  {
    LegalDeclarationExists(p);
    var d :| IsLegal(p, d);
    var items := EntriesOf(d);
    MoreStates(p, Elected(p, d), p.costed);
    forall r | Answers(p, items, r) ensures r.Ok? && r.value.Legal() {
    }
    assert JudgedLegal(p, items);
  }

}

/** Combat relationships (CR 506.4) as a value: current attackers with their recipients, and
    the blockers recorded for each attacker, which outlive the attacker's removal. */
module CombatRelations {
  import opened Wrappers
  import opened Orders

  datatype TargetKind = PlayerTarget | PlaneswalkerTarget | BattleTarget

  datatype TargetContext = TargetContext(
    target: string,
    kind: TargetKind,
    defendingPlayer: string,
    logicalId: Option<string>)

  datatype AttackEntry = AttackEntry(attacker: string, context: TargetContext)

  /** What the attack assignment's constructor accepts. */
  predicate ValidAttack(x: AttackEntry) {
    && x.attacker != "" && x.context.target != "" && x.context.defendingPlayer != ""
    && if x.context.kind == PlayerTarget
       then x.context.target == x.context.defendingPlayer && x.context.logicalId == None
       else x.context.logicalId.Some? && x.context.logicalId.value != ""
  }

  type AttackAssignment = x: AttackEntry | ValidAttack(x)
    witness AttackEntry("a", TargetContext("p", PlayerTarget, "p", None))

  datatype BlockEntry = BlockEntry(blocker: string, attacker: string)

  /** What the block assignment's constructor accepts. */
  predicate ValidBlock(x: BlockEntry) {
    x.blocker != "" && x.attacker != "" && x.blocker != x.attacker
  }

  type BlockAssignment = x: BlockEntry | ValidBlock(x)
    witness BlockEntry("b", "bb")

  datatype Error =
    | NoController | NoObject | Repeated | UnknownAttacker | AlreadyAttacking | NotAttacking | UnknownBlocker
    | AlreadyBlocking

  datatype Relations = Relations(
    attackers: map<string, string>,
    contexts: map<string, TargetContext>,
    blockers: map<string, seq<string>>,
    attacking: map<string, Option<string>>,
    blocking: map<string, Option<string>>)

  /** The declaring player, the cards that exist, and those on the battlefield under that
      player's control. */
  datatype Field = Field(controller: string, known: set<string>, fit: set<string>)

  // ----- attack declarations -----

  predicate UniqueAttackers(xs: seq<AttackAssignment>) {
    forall i, j :: 0 <= i < j < |xs| ==> xs[i].attacker != xs[j].attacker
  }

  /** The first reason to reject an assignment, if there is one. */
  function AttackError(r: Relations, f: Field, x: AttackAssignment): Option<Error> {
    if x.attacker !in f.known then Some(UnknownAttacker)
    else if x.attacker in f.fit && x.attacker in r.attackers then Some(AlreadyAttacking)
    else None
  }

  function FirstAttackError(r: Relations, f: Field, xs: seq<AttackAssignment>): (e: Option<Error>)
    ensures e == None <==> forall x :: x in xs ==> AttackError(r, f, x) == None
  {
    if xs == [] then None
    else if AttackError(r, f, xs[0]).Some? then AttackError(r, f, xs[0])
    else FirstAttackError(r, f, xs[1..])
  }

  /** The assignments whose attacker is still on the battlefield under the same control. */
  function Surviving(f: Field, xs: seq<AttackAssignment>): (r: seq<AttackAssignment>)
    ensures forall x :: x in r <==> x in xs && x.attacker in f.fit
  {
    if xs == [] then []
    else
      var n := |xs| - 1;
      Surviving(f, xs[..n]) + if xs[n].attacker in f.fit then [xs[n]] else []
  }

  function WithAttacker(r: Relations, x: AttackAssignment): Relations {
    r.(attackers := r.attackers[x.attacker := x.context.target],
       contexts := r.contexts[x.attacker := x.context],
       attacking := r.attacking[x.attacker := Some(x.context.target)])
  }

  function WithAttackers(r: Relations, xs: seq<AttackAssignment>): Relations {
    if xs == [] then r else WithAttacker(WithAttackers(r, xs[..|xs| - 1]), xs[|xs| - 1])
  }

  /** The whole batch is checked first; what survives is committed. */
  function Checked(r: Relations, f: Field, xs: seq<AttackAssignment>): Result<seq<AttackAssignment>, Error> {
    match FirstAttackError(r, f, xs)
    case Some(e) => Err(e)
    case None => Ok(Surviving(f, xs))
  }

  /** Commits a whole attack declaration or nothing. */
  function AttackCommitted(r: Relations, f: Field, xs: seq<AttackAssignment>): Result<Relations, Error> {
    if f.controller == "" then Err(NoController)
    else if !UniqueAttackers(xs) then Err(Repeated)
    else
      match Checked(r, f, xs)
      case Err(e) => Err(e)
      case Ok(surviving) => Ok(WithAttackers(r, surviving))
  }

  // ----- block declarations -----

  predicate UniqueBlockers(xs: seq<BlockAssignment>) {
    forall i, j :: 0 <= i < j < |xs| ==> xs[i].blocker != xs[j].blocker
  }

  function BlockersOf(r: Relations, attacker: string): seq<string> {
    if attacker in r.blockers then r.blockers[attacker] else []
  }

  function BlockError(r: Relations, f: Field, x: BlockAssignment): Option<Error> {
    if x.attacker !in f.known || x.attacker !in r.attackers then Some(NotAttacking)
    else if x.blocker !in f.known then Some(UnknownBlocker)
    else if x.blocker in f.fit && x.blocker in BlockersOf(r, x.attacker) then Some(AlreadyBlocking)
    else None
  }

  function WithBlocker(r: Relations, x: BlockAssignment): Relations {
    r.(blockers := r.blockers[x.attacker := BlockersOf(r, x.attacker) + [x.blocker]],
       blocking := r.blocking[x.blocker := Some(x.attacker)])
  }

  /** State, committed assignments and error of a partly processed block declaration. */
  datatype BlockProgress = BlockProgress(relations: Relations, committed: seq<BlockAssignment>, error: Option<Error>)

  /** Checks and writes one assignment at a time, stopping at the first error. */
  function BlockLoop(r: Relations, f: Field, xs: seq<BlockAssignment>): BlockProgress {
    if xs == [] then BlockProgress(r, [], None)
    else
      var n := |xs| - 1;
      var before := BlockLoop(r, f, xs[..n]);
      if before.error.Some? then before
      else if BlockError(before.relations, f, xs[n]).Some? then
        before.(error := BlockError(before.relations, f, xs[n]))
      else if xs[n].blocker !in f.fit then before
      else BlockProgress(WithBlocker(before.relations, xs[n]), before.committed + [xs[n]], None)
  }

  function BlockOutcome(r: Relations, f: Field, xs: seq<BlockAssignment>): BlockProgress {
    if f.controller == "" then BlockProgress(r, [], Some(NoController))
    else if !UniqueBlockers(xs) then BlockProgress(r, [], Some(Repeated))
    else BlockLoop(r, f, xs)
  }

  // ----- removal -----

  function Omit(list: seq<string>, id: string): (r: seq<string>)
    ensures forall x :: x in r <==> x in list && x != id
  {
    if list == [] then []
    else
      var n := |list| - 1;
      Omit(list[..n], id) + if list[n] == id then [] else [list[n]]
  }

  /** Drops the object's current roles; who blocked a removed attacker stays on record. */
  function Removed(r: Relations, id: string): Relations {
    r.(attackers := r.attackers - {id},
       contexts := if id in r.attackers then r.contexts - {id} else r.contexts,
       blockers := map a | a in r.blockers :: Omit(r.blockers[a], id))
  }

  // ----- invariants of every run -----

  ghost predicate Consistent(r: Relations) {
    && r.attackers.Keys == r.contexts.Keys
    && (forall a :: a in r.attackers ==> r.contexts[a].target == r.attackers[a])
    && forall a :: a in r.blockers ==> Distinct(r.blockers[a])
  }

  ghost predicate Unused(r: Relations, id: string) {
    id !in r.attackers && id !in r.contexts && forall a :: a in r.blockers ==> id !in r.blockers[a]
  }

  lemma {:induction false} WithAttackersKeeps(r: Relations, xs: seq<AttackAssignment>)
    requires Consistent(r)
    ensures Consistent(WithAttackers(r, xs)) && WithAttackers(r, xs).blockers == r.blockers
    decreases |xs|
  {
    if xs == [] {
    } else {
      WithAttackersKeeps(r, xs[..|xs| - 1]);
    }
  }

  lemma {:induction false} BlockLoopKeeps(r: Relations, f: Field, xs: seq<BlockAssignment>)
    requires Consistent(r)
    ensures Consistent(BlockLoop(r, f, xs).relations)
    ensures BlockLoop(r, f, xs).relations.attackers == r.attackers
    ensures r.blockers.Keys <= BlockLoop(r, f, xs).relations.blockers.Keys
    decreases |xs|
  {
    if xs == [] {
    } else {
      BlockLoopKeeps(r, f, xs[..|xs| - 1]);
    }
  }

  lemma {:induction false} OmitDistinct(list: seq<string>, id: string)
    requires Distinct(list)
    ensures Distinct(Omit(list, id))
    decreases |list|
  {
    if list == [] {
    } else {
      var n := |list| - 1;
      OmitDistinct(list[..n], id);
      assert list[n] !in list[..n];
    }
  }

  /** A removed object has no current role, and nobody else's role changes. */
  lemma RemovedIsUnused(r: Relations, id: string)
    requires Consistent(r)
    ensures Consistent(Removed(r, id)) && Unused(Removed(r, id), id)
    ensures forall a :: a != id ==> (a in r.attackers <==> a in Removed(r, id).attackers)
    ensures Removed(r, id).blockers.Keys == r.blockers.Keys
    ensures forall a, b :: a in r.blockers && b != id ==> (b in r.blockers[a] <==> b in Removed(r, id).blockers[a])
  {
    forall a | a in r.blockers ensures Distinct(Omit(r.blockers[a], id)) {
      OmitDistinct(r.blockers[a], id);
    }
  }

  datatype Operation =
    | Attack(attackField: Field, attacks: seq<AttackAssignment>)
    | Block(blockField: Field, blocks: seq<BlockAssignment>)
    | Remove(id: string)

  /** One operation, with whatever a failing block declaration has already written. */
  function After(r: Relations, op: Operation): Relations {
    match op
    case Attack(f, xs) => (var c := AttackCommitted(r, f, xs); if c.Ok? then c.value else r)
    case Block(f, xs) => BlockOutcome(r, f, xs).relations
    case Remove(id) => if id == "" then r else Removed(r, id)
  }

  function Run(r: Relations, ops: seq<Operation>): Relations {
    if ops == [] then r else After(Run(r, ops[..|ops| - 1]), ops[|ops| - 1])
  }

  lemma AfterKeeps(r: Relations, op: Operation)
    requires Consistent(r)
    ensures Consistent(After(r, op)) && r.blockers.Keys <= After(r, op).blockers.Keys
  {
    match op
    case Attack(f, xs) => WithAttackersKeeps(r, Surviving(f, xs));
    case Block(f, xs) => BlockLoopKeeps(r, f, xs);
    case Remove(id) => RemovedIsUnused(r, id);
  }

  /** In every run recipients match attackers, no blocker repeats, and the record of which
      attackers were blocked only grows. */
  lemma {:induction false} EveryRunIsConsistent(r: Relations, ops: seq<Operation>, k: nat)
    requires Consistent(r) && k <= |ops|
    ensures Consistent(Run(r, ops)) && Run(r, ops[..k]).blockers.Keys <= Run(r, ops).blockers.Keys
    decreases |ops|
  {
    hide After, Consistent;
    if ops == [] {
      assert ops[..k] == ops;
    } else {
      var n := |ops| - 1;
      if k <= n {
        assert ops[..n][..k] == ops[..k];
        EveryRunIsConsistent(r, ops[..n], k);
      } else {
        assert ops[..k] == ops;
        EveryRunIsConsistent(r, ops[..n], n);
      }
      AfterKeeps(Run(r, ops[..n]), ops[n]);
    }
  }

  /** A player is attacked as itself; anything else has a logical identity. */
  predicate Attackable(c: TargetContext) {
    && c.target != "" && c.defendingPlayer != ""
    && (c.kind == PlayerTarget ==> c.target == c.defendingPlayer && c.logicalId == None)
    && (c.kind != PlayerTarget ==> c.logicalId != None && c.logicalId != Some(""))
  }

  lemma AttacksAreAttackable(x: AttackEntry)
    ensures ValidAttack(x) <==> x.attacker != "" && Attackable(x.context)
  {
  }

  /** Every recorded context is one an attack may have, and no record of blockers names nobody or
      the blocked attacker itself. */
  ghost predicate Proper(r: Relations) {
    && (forall a :: a in r.contexts ==> a != "" && Attackable(r.contexts[a]))
    && forall a :: a in r.blockers ==> a != "" && a !in r.blockers[a] && "" !in r.blockers[a]
  }

  lemma {:induction false} WithAttackersProper(r: Relations, xs: seq<AttackAssignment>)
    requires Proper(r)
    ensures Proper(WithAttackers(r, xs))
    decreases |xs|
  {
    hide Attackable;
    if xs == [] {
    } else {
      AttacksAreAttackable(xs[|xs| - 1]);
      WithAttackersProper(r, xs[..|xs| - 1]);
    }
  }

  lemma {:induction false} BlockLoopProper(r: Relations, f: Field, xs: seq<BlockAssignment>)
    requires Proper(r)
    ensures Proper(BlockLoop(r, f, xs).relations)
    decreases |xs|
  {
    hide Attackable;
    if xs == [] {
    } else {
      BlockLoopProper(r, f, xs[..|xs| - 1]);
    }
  }

  /** In every run each recorded attack stays one that can be made, no creature is recorded as
      blocking itself, and no recorded identity is empty. */
  lemma {:induction false} EveryRunIsProper(r: Relations, ops: seq<Operation>)
    requires Proper(r)
    ensures Proper(Run(r, ops))
    decreases |ops|
  {
    hide Proper, WithAttackers, BlockLoop;
    if ops == [] {
    } else {
      var before, op := Run(r, ops[..|ops| - 1]), ops[|ops| - 1];
      EveryRunIsProper(r, ops[..|ops| - 1]);
      match op
      case Attack(f, xs) => WithAttackersProper(before, Surviving(f, xs));
      case Block(f, xs) => BlockLoopProper(before, f, xs);
      case Remove(id) => RemovedProper(before, id);
    }
  }

  lemma RemovedProper(r: Relations, id: string)
    requires Proper(r)
    ensures Proper(Removed(r, id))
  {
    hide ValidAttack;
  }

  // ----- failure of a block declaration -----

  /** Nothing was committed before the declaration ended. */
  lemma {:induction false} UnchangedIffNothingCommitted(r: Relations, f: Field, xs: seq<BlockAssignment>)
    ensures var p := BlockLoop(r, f, xs);
            && (p.committed == [] ==> p.relations == r)
            && (forall a :: |BlockersOf(r, a)| <= |BlockersOf(p.relations, a)|)
            && (forall x :: x in p.committed ==> |BlockersOf(r, x.attacker)| < |BlockersOf(p.relations, x.attacker)|)
    decreases |xs|
  {
    if xs == [] {
    } else {
      UnchangedIffNothingCommitted(r, f, xs[..|xs| - 1]);
    }
  }

  /** What the loop has written for other blockers does not change the guard of an assignment. */
  lemma {:induction false} GuardStands(r: Relations, f: Field, xs: seq<BlockAssignment>, x: BlockAssignment)
    requires forall i :: 0 <= i < |xs| ==> xs[i].blocker != x.blocker
    ensures BlockError(BlockLoop(r, f, xs).relations, f, x) == BlockError(r, f, x)
    decreases |xs|
  {
    if xs == [] {
    } else {
      GuardStands(r, f, xs[..|xs| - 1], x);
    }
  }

  /** The first assignment that the relations as they stand forbid. */
  ghost predicate FirstForbidden(r: Relations, f: Field, xs: seq<BlockAssignment>, k: nat) {
    k < |xs| && BlockError(r, f, xs[k]).Some? && forall i :: 0 <= i < k ==> BlockError(r, f, xs[i]) == None
  }

  lemma LoopStep(r: Relations, f: Field, xs: seq<BlockAssignment>)
    requires xs != [] && UniqueBlockers(xs)
    ensures var n := |xs| - 1;
            var before := BlockLoop(r, f, xs[..n]);
            var e := BlockError(r, f, xs[n]);
            && UniqueBlockers(xs[..n])
            && (before.error.Some? ==> BlockLoop(r, f, xs) == before)
            && (before.error == None && e.Some? ==> BlockLoop(r, f, xs) == before.(error := e))
            && (before.error == None && e == None ==> BlockLoop(r, f, xs).error == None)
  {
    hide BlockError;
    GuardStands(r, f, xs[..|xs| - 1], xs[|xs| - 1]);
  }

  /** The loop fails exactly when the relations as they stood before it forbid an assignment. */
  lemma {:induction false} LoopFailsIff(r: Relations, f: Field, xs: seq<BlockAssignment>)
    requires UniqueBlockers(xs)
    ensures BlockLoop(r, f, xs).error == None <==> forall i :: 0 <= i < |xs| ==> BlockError(r, f, xs[i]) == None
    decreases |xs|
  {
    hide BlockError;
    if xs == [] {
    } else {
      LoopStep(r, f, xs);
      LoopFailsIff(r, f, xs[..|xs| - 1]);
    }
  }

  /** It ends at the first such assignment. */
  lemma {:induction false} LoopStopsAt(r: Relations, f: Field, xs: seq<BlockAssignment>, k: nat)
    requires UniqueBlockers(xs) && FirstForbidden(r, f, xs, k)
    ensures UniqueBlockers(xs[..k]) && BlockLoop(r, f, xs[..k]).error == None
    ensures BlockLoop(r, f, xs) == BlockLoop(r, f, xs[..k]).(error := BlockError(r, f, xs[k]))
    decreases |xs|
  {
    hide BlockError, BlockLoop;
    var n := |xs| - 1;
    LoopStep(r, f, xs);
    if k == n {
      LoopFailsIff(r, f, xs[..k]);
    } else {
      assert xs[..n][..k] == xs[..k];
      LoopStopsAt(r, f, xs[..n], k);
    }
  }

  /** A declaration with unique blockers is rejected exactly when the relations as they stand
      forbid one of its assignments, and the first such assignment decides the error. */
  lemma BlockRejectedIff(r: Relations, f: Field, xs: seq<BlockAssignment>)
    requires f.controller != "" && UniqueBlockers(xs)
    ensures BlockOutcome(r, f, xs).error.Some? <==> exists k: nat :: FirstForbidden(r, f, xs, k)
    ensures forall k: nat :: FirstForbidden(r, f, xs, k) ==> BlockOutcome(r, f, xs).error == BlockError(r, f, xs[k])
  {
    hide BlockError, BlockLoop;
    LoopFailsIff(r, f, xs);
    if BlockLoop(r, f, xs).error.Some? {
      FirstForbiddenExists(r, f, xs);
    }
    forall k: nat | FirstForbidden(r, f, xs, k) ensures BlockLoop(r, f, xs).error == BlockError(r, f, xs[k]) {
      LoopStopsAt(r, f, xs, k);
    }
  }

  lemma {:induction false} FirstForbiddenExists(r: Relations, f: Field, xs: seq<BlockAssignment>)
    requires exists i :: 0 <= i < |xs| && BlockError(r, f, xs[i]).Some?
    ensures exists k: nat :: FirstForbidden(r, f, xs, k)
    decreases |xs|
  {
    hide BlockError;
    var n := |xs| - 1;
    var front := xs[..n];
    assert forall i :: 0 <= i < n ==> front[i] == xs[i];
    if exists i :: 0 <= i < n && BlockError(r, f, front[i]).Some? {
      FirstForbiddenExists(r, f, front);
      var k: nat :| FirstForbidden(r, f, front, k);
      assert FirstForbidden(r, f, xs, k);
    } else {
      assert FirstForbidden(r, f, xs, n);
    }
  }

  lemma {:induction false} CommittedAreFit(r: Relations, f: Field, xs: seq<BlockAssignment>)
    requires BlockLoop(r, f, xs).error == None
    ensures BlockLoop(r, f, xs).committed == [] <==> forall i :: 0 <= i < |xs| ==> xs[i].blocker !in f.fit
    decreases |xs|
  {
    if xs == [] {
    } else {
      var n := |xs| - 1;
      CommittedAreFit(r, f, xs[..n]);
      assert forall i :: 0 <= i < n ==> xs[..n][i] == xs[i];
    }
  }

  /** A block declaration whose k-th assignment is the first that the relations forbid writes
      nothing exactly when no earlier assignment has a blocker that is still fit to block. */
  lemma FailedBlockWritesNothingIff(r: Relations, f: Field, xs: seq<BlockAssignment>, k: nat)
    requires f.controller != "" && UniqueBlockers(xs) && FirstForbidden(r, f, xs, k)
    ensures BlockOutcome(r, f, xs).error.Some?
    ensures BlockOutcome(r, f, xs).relations == r <==> forall i :: 0 <= i < k ==> xs[i].blocker !in f.fit
  {
    hide BlockError, BlockLoop;
    LoopStopsAt(r, f, xs, k);
    var before := BlockLoop(r, f, xs[..k]);
    UnchangedIffNothingCommitted(r, f, xs[..k]);
    assert forall i :: 0 <= i < k ==> xs[..k][i] == xs[i];
    CommittedAreFit(r, f, xs[..k]);
    if before.committed != [] {
      assert before.committed[0] in before.committed;
    }
  }

  /** A player is attacked by `a`; nobody blocks yet. */
  function Attacked(): Relations {
    var nowhere := map["a" := None, "b" := None, "c" := None];
    Relations(map["a" := "P"], map["a" := TargetContext("P", PlayerTarget, "P", None)], map[], nowhere, nowhere)
  }

  lemma AttackedIsProper()
    ensures Consistent(Attacked()) && Proper(Attacked())
  {
  }

  /** One creature that may block `a`, and one that names no attacker. */
  function HalfGood(): seq<BlockAssignment> {
    [BlockEntry("b", "a"), BlockEntry("c", "z")]
  }

  lemma FirstHalfIsForbiddenLater(f: Field)
    requires f == Field("d", {"a", "b", "c"}, {"b", "c"})
    ensures UniqueBlockers(HalfGood()) && FirstForbidden(Attacked(), f, HalfGood(), 1)
    ensures BlockError(Attacked(), f, HalfGood()[1]) == Some(NotAttacking)
  {
    hide BlockLoop;
    assert "b"[0] == 'b' && "c"[0] == 'c' && "z"[0] == 'z' && "a"[0] == 'a';
  }

  /** A declaration whose second blocker names no attacker keeps the first block it wrote. */
  lemma FailedBlockCanWrite()
    ensures var p := BlockOutcome(Attacked(), Field("d", {"a", "b", "c"}, {"b", "c"}), HalfGood());
            && Consistent(Attacked()) && Proper(Attacked())
            && p.error == Some(NotAttacking) && p.relations.blockers == map["a" := ["b"]]
  {
    hide Consistent, Proper, UniqueBlockers, FirstForbidden;
    AttackedIsProper();
    var f, r, xs := Field("d", {"a", "b", "c"}, {"b", "c"}), Attacked(), HalfGood();
    FirstHalfIsForbiddenLater(f);
    LoopStopsAt(r, f, xs, 1);
    assert xs[..1][..0] == [];
    assert BlockLoop(r, f, xs[..1]).relations == WithBlocker(r, xs[0]);
    assert BlockersOf(r, "a") + ["b"] == ["b"];
  }

  ghost predicate Declares(xs: seq<AttackAssignment>, a: string) {
    exists i :: 0 <= i < |xs| && xs[i].attacker == a
  }

  lemma DeclaresStep(xs: seq<AttackAssignment>, a: string)
    requires xs != []
    ensures var n := |xs| - 1; Declares(xs, a) <==> Declares(xs[..n], a) || xs[n].attacker == a
  {
    var n := |xs| - 1;
    if i :| 0 <= i < n && xs[..n][i].attacker == a { assert xs[i].attacker == a; }
    if i :| 0 <= i < n && xs[i].attacker == a { assert xs[..n][i].attacker == a; }
  }

  /** A committed attack declaration adds exactly the declared attackers, each with its own
      recipient, and leaves every other attacker as it was. */
  lemma {:induction false} CommittedAttackers(r: Relations, xs: seq<AttackAssignment>, a: string)
    requires UniqueAttackers(xs)
    ensures var after := WithAttackers(r, xs);
            && (a in after.attackers <==> a in r.attackers || Declares(xs, a))
            && (!Declares(xs, a) && a in r.attackers ==> after.attackers[a] == r.attackers[a])
            && (forall i :: 0 <= i < |xs| && xs[i].attacker == a ==>
                  after.attackers[a] == xs[i].context.target && a in after.contexts
                    && after.contexts[a] == xs[i].context)
    decreases |xs|
  {
    hide Declares;
    if xs == [] {
      NobodyDeclares(a);
    } else {
      var n := |xs| - 1;
      CommittedAttackers(r, xs[..n], a);
      DeclaresStep(xs, a);
      forall i | 0 <= i < n && xs[i].attacker == a ensures xs[..n][i] == xs[i] && Declares(xs[..n], a) {
        DeclaresAt(xs[..n], i);
      }
    }
  }

  lemma NobodyDeclares(a: string)
    ensures !Declares([], a)
  {
  }

  lemma DeclaresAt(xs: seq<AttackAssignment>, i: nat)
    requires i < |xs|
    ensures Declares(xs, xs[i].attacker)
  {
  }

  // ----- refusals in explicit terms -----

  /** An attack declaration is refused exactly when nobody declares it, an attacker is declared twice,
      or some attacker is unknown or is fit and attacks already. */
  lemma AttackRejectedIff(r: Relations, f: Field, xs: seq<AttackAssignment>)
    ensures AttackCommitted(r, f, xs).Err? <==>
            || f.controller == ""
            || (exists i, j :: 0 <= i < j < |xs| && xs[i].attacker == xs[j].attacker)
            || exists i :: 0 <= i < |xs| &&
                 (xs[i].attacker !in f.known || (xs[i].attacker in f.fit && xs[i].attacker in r.attackers))
  {
    if FirstAttackError(r, f, xs) != None {
      var x :| x in xs && AttackError(r, f, x) != None;
      var i :| 0 <= i < |xs| && xs[i] == x;
    }
    forall i | 0 <= i < |xs| ensures xs[i] in xs {
    }
  }

  /** A block declaration is refused exactly when nobody declares it, a blocker is declared twice, or
      the relations as they stand forbid an assignment: its attacker is unknown or does not attack, its
      blocker is unknown, or its blocker is fit and blocks that attacker already. */
  lemma BlockRefusedIff(r: Relations, f: Field, xs: seq<BlockAssignment>)
    ensures BlockOutcome(r, f, xs).error.Some? <==>
            || f.controller == ""
            || (exists i, j :: 0 <= i < j < |xs| && xs[i].blocker == xs[j].blocker)
            || exists i :: 0 <= i < |xs| &&
                 (|| xs[i].attacker !in f.known || xs[i].attacker !in r.attackers || xs[i].blocker !in f.known
                  || (xs[i].blocker in f.fit && xs[i].attacker in r.blockers
                      && xs[i].blocker in r.blockers[xs[i].attacker]))
  {
    hide BlockLoop;
    if f.controller != "" && UniqueBlockers(xs) { LoopFailsIff(r, f, xs); }
  }

  /** One more operation of a run: a refused attack declaration writes nothing, a block declaration
      writes what it wrote before it was refused, and an object without identity is not removed. */
  lemma RunExtends(r: Relations, ops: seq<Operation>, f: Field, xs: seq<AttackAssignment>, ys: seq<BlockAssignment>,
                   id: string)
    ensures var before := Run(r, ops);
            && Run(r, ops + [Attack(f, xs)]) ==
               (match AttackCommitted(before, f, xs) case Ok(written) => written case Err(_) => before)
            && Run(r, ops + [Block(f, ys)]) == BlockOutcome(before, f, ys).relations
            && Run(r, ops + [Remove(id)]) == if id == "" then before else Removed(before, id)
  {
    hide AttackCommitted, BlockOutcome, Removed;
    forall op ensures (ops + [op])[..|ops|] == ops {
    }
  }
}

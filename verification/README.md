# A verified model of the Quorune rules kernel

This project models the deterministic core of Quorune, a Magic: The Gathering rules engine, and
proves what that core is for: that a combat declaration is judged against the true maximum, that a
Convoke payment is the least one with the fewest permanents, that continuous effects come out the
same in whatever order they were collected, that combat damage is conserved and its assignment
never deadlocks, that linked relations stay reciprocal over every run, and that declaration
triggers come out exactly once each.

Rule numbers (CR) are those of the Magic Comprehensive Rules.

## How it is laid out

| module | what it models |
|---|---|
| `Orders`, `Wrappers` | strings and tuples in the host language's order, stable sorting, options and results |
| `DeclarationConstraints`, `DeclarationLaws` | the declaration optimiser: requirements, restrictions, the depth-first search with its shared declaration, best count and state budget, and the verdict; what requirements and restrictions ask, in their own fields |
| `Convoke`, `ConvokePayments` | the table of remainders, payment plans, and the smallest-selection search; payments and orders position by position |
| `Characteristics`, `OperationLaws`, `EffectOrder`, `ContinuousEffects` | the mutable characteristics with their operations, the dependency order of one group, and the layered evaluation |
| `EffectLaws`, `LayerOrder`, `LayerSeven` | laws of whole evaluations: order independence, non-interference, which effect applies first, final power and toughness |
| `SnapshotCapture`, `DamageSnapshot`, `DamageAssignment`, `DamageSequence` | the combat-damage pipeline from the reading of the game to the final gate |
| `DamageLaws`, `TrampleDivision` | which readings make a snapshot, what a seat is asked for, and what trample lets through |
| `AttachmentLinks`, `Attachments` | attachments as a relation with its laws, and the objects that hold it |
| `CombatRelations`, `CombatRelationships` | attack and block relationships as a relation with its laws, and the objects that hold it |
| `KeywordTriggers`, `Participants` | printed keyword instances, and participants captured in no particular order |
| `BlockTransitions`, `BlockTriggers`, `AttackTransitions`, `AttackTriggers`, `CaptureLaws` | sealed declaration events, the readings they are made of, and the triggers derived from them |
| `Cascade` | the loop that exiles from the top of the library |

Code that works by changing things step by step is modelled by methods with loops, or by classes
whose methods write their fields; each such method is tied by its `ensures` to a property or to a
function of its inputs, and the laws are proved about that.

## What the code does where one might expect otherwise

- The dependency "cycle" that an evaluation reports is everything that was stuck, including effects
  that merely depend on a loop (`quorune/continuous_effects.py:164-176`), and all of it is applied in
  key order. `EffectOrder.StuckOutsideTheLoop` is a group in which an effect outside the loop is
  therefore applied before the effect it depends on. `EffectOrder.ResidueIsLoopsIff` says exactly when
  only loops are stuck, and `EffectOrder.LooseEffectsFollowIff` exactly when every effect outside the
  loops still follows its dependencies.
- `commit_block_declaration` writes inside its checking loop
  (`quorune/combat_relationship_state.py:185-214`), so a rejected declaration can leave blocks behind.
  `CombatRelations.FailedBlockCanWrite` is a concrete declaration that does.
  `CombatRelations.BlockRejectedIff` and `CombatRelations.FailedBlockWritesNothingIff` say, from the
  relations as they stand before the declaration, exactly when it is rejected and exactly when a
  rejection has written nothing.
- A Convoke plan is made only of the least assignment for its remainder
  (`quorune/convoke.py:361-371`), so an affordability test that looks at anything but the remainder and
  the selected permanents may be shown no plan it would have accepted
  (`Convoke.LaterAssignmentsAreDropped`). `Convoke.RemaindersSuffice` says that tests which look at
  nothing else miss nothing, and `Convoke.NothingIsMissedIff` exactly for which costs and selections
  no test misses anything.
- A snapshot's closure checks do not stop an attacked permanent from being one of the trampling
  attacker's own blockers, as when an animated planeswalker blocks its attacker
  (`DamageSnapshot.CollisionIsClosed`); the proposal's checks do.
  `DamageSnapshot.ProposalBuildsIff` gives the exact condition.
- Block relationships of a damage snapshot are sorted by references alone
  (`quorune/combat_damage_snapshot.py:335-340`). The order is still determined, because a reading with
  a repeated reference is refused.
- A `choose_option` requirement whose option is null is met by omission
  (`quorune/combat_constraints.py:42-43`). The model keeps the null, and no theorem needs it excluded.

## Model

| member | source | states |
|---|---|---|
| `Orders.StrLessIff` | quorune/convoke.py:310-325 | names are compared where they first differ, a proper prefix coming first |
| `Orders.TupLessIff` | quorune/convoke.py:310-325 | sort keys are compared at the first component where they differ |
| `DeclarationConstraints.RestrictionErrors` | quorune/combat_constraints.py:237-245 | no error is reported exactly when no restriction is violated |
| `DeclarationConstraints.TreeIsSumOfProducts` | quorune/combat_constraints.py:286-312 | a full search visits the sum over k up to the number of variables of the product of the first k branching factors |
| `DeclarationConstraints.VisitsWithinTree` | quorune/combat_constraints.py:286-312 | the nodes visited up to the first complete leaf are at most the full tree, and all of it when no completion meets every requirement |
| `DeclarationConstraints.Search.Visit` | quorune/combat_constraints.py:286-312 | backtracking restores the shared declaration, the nodes visited are exactly those in search order up to the first restriction-free leaf that meets every requirement, at most the full tree below the node, the limit is raised exactly when they outgrow the budget, and no feasible completion meets more than the best count; an early exit means every requirement was met |
| `DeclarationConstraints.MaximumSatisfied` | quorune/combat_constraints.py:257-314 | a returned value is the greatest number of requirements met by any restriction-free declaration over free and enabled options; the search-limit error is raised exactly when the nodes up to the first complete leaf outgrow the budget, so only when the full tree does and, unless every requirement can be met, exactly then |
| `DeclarationConstraints.Canonical` | quorune/combat_constraints.py:214-235 | entries are accepted exactly when each names an eligible object and a legal option, the first offending entry decides the error, and the result is the map of the entries, the last one for a variable deciding |
| `DeclarationConstraints.Evaluate` | quorune/combat_constraints.py:316-339 | the verdict is legality as CR 508.1d states it; met and unmet requirements are exact and in order; the maximum is that of the costs the declaration elects itself; an illegal entry is reported by the first one; for legal entries the search limit is raised exactly when there are requirements and the nodes visited for the elected costs outgrow the budget |
| `DeclarationConstraints.MaximumIsMonotone` | quorune/combat_constraints.py:263-281 | enabling more costed options never lowers the maximum |
| `DeclarationConstraints.NeverAboveMaximum` | quorune/combat_constraints.py:172-174 | a restriction-free declaration never meets more than the maximum computed for it |
| `DeclarationConstraints.LegalDeclarationExists` | quorune/combat_constraints.py:316-339 | some declaration is legal exactly when some declaration is restriction-free, although each is judged against a maximum that depends on itself |
| `DeclarationConstraints.SomeDeclarationIsJudgedLegal` | quorune/combat_constraints.py:257-339 | when a search over every option fits the budget and some declaration is restriction-free, some entries can be submitted that every possible answer of the evaluation judges legal |
| `DeclarationConstraints.CostsAreNeverCompulsory` | quorune/combat_constraints.py:316-339 | a legal declaration that elects no cost exists exactly when a restriction-free declaration that elects no cost does |
| `DeclarationConstraints.RestrictionsAreMonotone` | quorune/combat_constraints.py:100-163 | a broken maximum stays broken and a met unconditional minimum stays met as a declaration grows |
| `DeclarationConstraints.DeclaringNothing` | quorune/combat_constraints.py:100-163 | declaring nothing is restriction-free exactly when every minimum is triggered, conditional or zero, and then a legal declaration without costs exists |
| `DeclarationLaws.LegalByVariable` | quorune/combat_constraints.py:38-50 | without restrictions a declaration is legal exactly when no variable had a choice open to it, omission or an option that is free or already paid for, that meets more of the requirements on that variable |
| `DeclarationLaws.LegalIffAsked` | quorune/combat_constraints.py:38-50 | with one requirement for each variable: legal exactly when a variable that must be chosen is, if some option is open to it; one that must take an option does, if that option is open; and one that must take one of several does, if one of them is open |
| `DeclarationLaws.LegalIffUsed` | quorune/combat_constraints.py:38-50 | an option that must be used is used by a legal declaration exactly if it is open to some variable |
| `DeclarationLaws.GoadedAttack` | quorune/engine.py:5460-5487 | a creature goaded any number of times attacks if it can, and then a player whom as many of its goads allow as any player it could attack |
| `DeclarationLaws.GoadedElsewhere` | quorune/engine.py:5460-5487 | whenever a goaded creature could attack a player that no goad excludes, the legal declarations are exactly those in which it attacks such a player |
| `DeclarationLaws.ViolatedIff` | quorune/combat_constraints.py:100-163 | a restriction is broken exactly when its trigger, if any, is declared, something is counted if it binds only then, and there are too few different counted selections for a minimum or too many for a maximum |
| `Convoke.InputOrderIsIrrelevant` | quorune/convoke.py:310-332 | permuting the candidates changes neither acceptance nor the canonical list |
| `Convoke.SpendIsConservation` | quorune/convoke.py:222-229 | spending one symbol at a time succeeds with a remainder exactly when contributions and remainder add up to the cost, and the total drops by one per permanent |
| `Convoke.MakePlan` | quorune/convoke.py:178-229 | a plan is accepted exactly when its permanents are distinct and its contributions conserve the announced cost |
| `Convoke.AssignmentIsMatched` | quorune/convoke.py:347-372 | optimal substructure: every assignment to one more permanent is matched by a proposal built from a kept entry that is no later |
| `Convoke.Extend` | quorune/convoke.py:347-372 | one pass over the table turns the best assignments for the first permanents into the best assignments for one more |
| `Convoke.PlansForSelected` | quorune/convoke.py:335-382 | exactly one plan per remainder reachable by a legal one-symbol-per-permanent assignment, in remainder order, each the lexicographically least for its remainder; no plan's own check ever fails |
| `Convoke.BestExists` | quorune/convoke.py:361-371 | every reachable remainder has a least assignment |
| `Convoke.TooManyPermanents` | quorune/convoke.py:343-345 | with more permanents than payable symbols nothing is reachable, so returning no plan is complete |
| `Convoke.SelectPlan` | quorune/convoke.py:388-397 | the first affordable plan in remainder order, and none exactly when no best plan is affordable |
| `Convoke.SelectionIsCombination` | quorune/convoke.py:414-415 | every selection of permanents is among the combinations of its size |
| `Convoke.BeyondMaximum` | quorune/convoke.py:410-413 | selections larger than the search tries have no plan at all |
| `Convoke.FindPlan` | quorune/convoke.py:400-419 | an affordable plan with the fewest permanents of any selection, of those selections the first in the order of the permanents' identities, and of its plans the first in remainder order; none exactly when no selection of any size has an affordable plan and, for tests that look only at the remainder and the selected permanents, exactly when no assignment to any selection is affordable |
| `Convoke.CombinationsInOrder` | quorune/convoke.py:414-415 | selections of one size come in the order of the permanents they name |
| `Convoke.FewestIsDetermined` | quorune/convoke.py:400-419 | the cost, the permanents and the affordability test determine the answer of the search |
| `ConvokePayments.PaidCounts` | quorune/convoke.py:11-13 | positions 0 to 5 of the vector are paid by exactly the generic, white, blue, black, red and green contributions, and position 6 by none |
| `ConvokePayments.LeavesIff` | quorune/convoke.py:222-229 | conservation position by position, colourless mana untouched |
| `ConvokePayments.OnePermanentPays` | quorune/convoke.py:347-358 | one permanent lowers the cost by one at position 0 or at the position of one of its colours, and nowhere else |
| `ConvokePayments.BeforeIff` | quorune/convoke.py:361-371 | assignments are compared at the first permanent where they differ, by the order white, blue, black, red, green, generic |
| `ConvokePayments.RemaindersByPosition` | quorune/convoke.py:375-382 | remainders are compared at the first position where they differ, generic mana first |
| `ConvokePayments.CandidatesById` | quorune/convoke.py:310-332 | accepted permanents stand in the order of their object ids |
| `Convoke.RemaindersSuffice` | quorune/convoke.py:385-397 | when affordability looks only at the remainder and the selected permanents, looking at best plans misses no affordable assignment |
| `Convoke.NothingIsMissedIff` | quorune/convoke.py:361-397 | for a cost and a selection, no affordability test at all misses an affordable assignment exactly when no two different assignments leave the same remainder |
| `Convoke.LaterAssignmentsAreDropped` | quorune/convoke.py:361-371 | a concrete legal assignment of which no plan is made, because a lesser one leaves the same remainder, and a test that would accept it and is told that nothing is affordable |
| `Characteristics.CharacteristicState.Apply` | quorune/continuous_effects.py:327-416 | one operation performed in place gives exactly the specified characteristics and touches no other field |
| `OperationLaws.AbilityOperations` | quorune/continuous_effects.py:285-296 | an added ability is there in some spelling and was appended only if it was not; a removed one is there in none, every other as often as before; removing what was just added gives what removing it before would have |
| `OperationLaws.FragmentRemoval` | quorune/continuous_effects.py:311-317 | removing a fragment removes all its copies and nothing else |
| `EffectOrder.DependencyOrder` | quorune/continuous_effects.py:131-177 | the loop terminates with the specified order and reports the stuck residue, in key order, when there is one |
| `EffectOrder.OrderedIsPermutation` | quorune/continuous_effects.py:131-177 | every effect of the group is ordered exactly once |
| `EffectOrder.DependenciesComeFirst` | quorune/continuous_effects.py:147-163 | outside the residue every effect follows each of its dependencies in the group |
| `EffectOrder.ResidueIsLargest` | quorune/continuous_effects.py:164-176 | the residue is the largest set whose every member depends on a member |
| `EffectOrder.ResidueIffCycle` | quorune/continuous_effects.py:164-176 | the residue is empty exactly when the dependencies inside the group are acyclic |
| `EffectOrder.ResidueIsLoopsIff` | quorune/continuous_effects.py:164-176 | what is stuck is just the effects on cycles exactly when every effect of the group that depends on one lies on a cycle itself |
| `EffectOrder.ResidueOrder` | quorune/continuous_effects.py:164-176 | the rest of the group comes before the residue, and inside the residue the order is that of the keys |
| `EffectOrder.LooseEffectsFollowIff` | quorune/continuous_effects.py:147-176 | every effect on no cycle follows all its dependencies in the group exactly when each stuck one among them has a key after those of its stuck dependencies |
| `EffectOrder.StuckOutsideTheLoop` | quorune/continuous_effects.py:164-176 | a concrete group in which an effect on no cycle is stuck and applies before the effect it depends on |
| `EffectOrder.OrderWithout` | quorune/continuous_effects.py:131-177 | an effect no other depends on does not move the others, and joins or leaves the residue alone |
| `LayerOrder.PrecedesIff` | quorune/continuous_effects.py:131-177 | which of any two effects of a group comes first: the one of the earlier batch and, inside a batch, the one that defines characteristics, is older, or has the lesser id |
| `LayerOrder.WaveIsDepth` | quorune/continuous_effects.py:147-163 | an effect that is not stuck comes one batch after the last of its dependencies in the group, and in the first batch exactly when it has none there |
| `LayerOrder.StuckComesLast` | quorune/continuous_effects.py:164-176 | everything stuck comes in one batch after all others |
| `LayerOrder.FreeEffectsByFields` | quorune/continuous_effects.py:153-159 | of two effects that depend on nothing in the group, one precedes the other exactly when it alone defines characteristics, or both or neither do and it is older, or they are equally old and its id is the lesser |
| `LayerOrder.StuckEffectsByFields` | quorune/continuous_effects.py:164-176 | the same for two effects that are stuck |
| `ContinuousEffects.OrderContinuousEffects` | quorune/continuous_effects.py:180-204 | duplicate ids are refused, and the groups come in layer and sublayer order, each dependency-ordered |
| `ContinuousEffects.SkipEmptyPlaces` | quorune/continuous_effects.py:189-203 | places without effects contribute nothing, so walking the used places is walking all layers |
| `LayerOrder.AppliesFirstIff` | quorune/continuous_effects.py:180-204 | which of any two effects of a whole evaluation applies first: by layer and sublayer, then by batch, then by their own fields |
| `ContinuousEffects.Evaluate` | quorune/continuous_effects.py:419-486 | evaluation in place gives the specified characteristics, applied list, cycles and skipped list; a rejection leaves the characteristics alone |
| `LayerOrder.LoneEffect` | quorune/continuous_effects.py:419-485 | one effect by itself applies exactly when its source is there if it must be, its attached object and locked identities admit the object, and its query matches the object; what its operations make of the object is presented, and recorded by a copy effect |
| `LayerOrder.DefinitionIsOverridden` | quorune/characteristic_evaluation.py:310-322 | a characteristic-defining colour effect never undoes an ordinary one that sets colours, whatever their timestamps and in whatever order they were collected |
| `EffectLaws.InputOrderIsIrrelevant` | quorune/continuous_effects.py:419-486 | permuting the effects changes neither the characteristics, nor the applied list, nor the cycles |
| `EffectLaws.InertEffectsDoNotInterfere` | quorune/continuous_effects.py:419-486 | a source-absent effect, whatever its id and whoever names it, or one scoped to other objects whose id no source-present effect shares or depends on, may be inserted anywhere without changing characteristics or applied list |
| `LayerSeven.PhasedClosedForm` | quorune/continuous_effects.py:393-413 | sets, then modifications, then switches give the last set value plus the deltas, swapped for an odd number of switches, and touch nothing else; an unset value stays unset |
| `LayerSeven.PhasedIff` | quorune/continuous_effects.py:393-413 | the operations that have a closed form are exactly those in which no set comes after a modification or switch and no modification after a switch |
| `LayerSeven.LayerSevenRun` | quorune/continuous_effects.py:437-480 | within layer 7 which effects apply is settled by the characteristics entering it |
| `LayerSeven.ConformingIff` | quorune/continuous_effects.py:393-413 | the effects that have one are exactly those that in 7a and 7b only set, in 7c only modify and in 7d only switch |
| `LayerSeven.FinalPowerAndToughness` | quorune/continuous_effects.py:437-480 | with each operation in its own sublayer the final power and toughness of a whole evaluation are the closed form of the applied layer-7 operations |
| `SnapshotCapture.Build` | quorune/combat_damage_snapshot.py:269-350 | reading the game gives the canonically ordered snapshot of what was read, and every malformed reading is refused |
| `SnapshotCapture.EnumerationIsIrrelevant` | quorune/combat_damage_snapshot.py:269-350 | listing participants, attackers or blockers in another order gives the same snapshot or the same refusal |
| `DamageLaws.SnapshotAccepted` | quorune/combat_damage_snapshot.py:180-350 | which readings of the game make a snapshot, in the fields of what was read |
| `DamageLaws.ListedByReference` | quorune/combat_damage_snapshot.py:283-340 | participants are listed by reference, attacks by that of the attacker, blocks by that of the attacker and then that of the blocker |
| `DamageSnapshot.NobodyIsIdle` | quorune/combat_damage_snapshot.py:226-234 | in a closed snapshot every participant attacks or blocks somebody, so the builder's last error is dead |
| `DamageSnapshot.TargetsAreProper` | quorune/combat_damage_assignment.py:269-308 | a participant's targets are nonempty names, and distinct exactly unless it tramples over to a recipient that is one of its own blockers |
| `DamageLaws.TargetsIff` | quorune/combat_damage_assignment.py:269-308 | whom a participant of a closed snapshot may damage: whoever it blocks or is blocked by, and a legal recipient of its attack unless it was blocked and does not trample |
| `DamageLaws.OpponentsByReference` | quorune/combat_damage_assignment.py:246-308 | an attacker's blockers, and a blocker's attackers, are targets in the order of their references |
| `DamageLaws.CapturedByReferences` | quorune/combat_damage_snapshot.py:335-340 | every snapshot read from the game lists its blocks so that these orders hold |
| `DamageLaws.DraftMeaning` | quorune/combat_damage_assignment.py:231-329 | a seat is asked for the positive power of each of its assigning participants; its attackers, those with deathtouch and those that may spill, past which blockers, are named exactly |
| `DamageSnapshot.BuildProposal` | quorune/combat_damage_assignment.py:231-329 | the builder's loop gives exactly the seat's proposal over all its assigning participants, and fails exactly when the proposal's own checks do |
| `DamageSnapshot.ProposalBuildsIff` | quorune/combat_damage_assignment.py:65-131 | from a closed snapshot the proposal is well formed exactly when no trampling attacker of the seat would spill onto its own blocker |
| `DamageLaws.ProposalIsWellFormed` | quorune/combat_damage_assignment.py:65-131 | what the proposal's own checks accept, in its fields |
| `DamageSnapshot.CollisionIsClosed` | quorune/combat_damage_snapshot.py:180-242 | a concrete closed snapshot, an attacked planeswalker blocking its trampling attacker, whose attacking seat has no proposal |
| `DamageAssignment.Parse` | quorune/combat_damage_assignment.py:176-200 | on success every row was legal and the dictionaries hold each pair's amount and each source's total; what is refused no rule would accept |
| `DamageAssignment.Validate` | quorune/combat_damage_assignment.py:176-228 | a submission is accepted exactly when it is legal, complete and trample-conforming, with its canonical assignments as the result |
| `DamageAssignment.RowOrderIsIrrelevant` | quorune/combat_damage_assignment.py:176-228 | reordering the rows changes neither verdict nor result |
| `DamageAssignment.ZeroRowsAreIrrelevant` | quorune/combat_damage_assignment.py:176-228 | a submission is accepted exactly when its rows are legal and repeat no pair and it is accepted without any of its zero rows, and the result is the same |
| `DamageAssignment.ResultIsCanonical` | quorune/combat_damage_assignment.py:176-228 | an accepted result validates again, to itself |
| `DamageAssignment.AcceptedResult` | quorune/combat_damage_assignment.py:200-228 | an accepted result has distinct legal pairs with positive amounts, each source assigns exactly its power (nothing without targets), and nothing spills before every blocker has lethal damage |
| `TrampleDivision.AcceptedIff` | quorune/combat_damage_trample.py:24-55 | a submission is accepted exactly when its rows are legal, every source with targets assigns its power, and wherever a trampler spills each of its blockers is dealt a point of deathtouch damage or, by all attackers between them and with its marked damage, its toughness |
| `TrampleDivision.LoneTrampler` | quorune/combat_damage_trample.py:35-55 | a lone trampling attacker may spill exactly when each blocker is assigned what its toughness exceeds its marked damage by, or one point of that with deathtouch |
| `TrampleDivision.SpillIsPossible` | quorune/combat_damage_trample.py:24-55 | whoever else attacks, a trampler can spill any part of its power that its blockers' needs leave over |
| `TrampleDivision.SpillableIff` | quorune/combat_damage_trample.py:24-55 | the tight bound: a lone trampler with blockers can spill a positive amount exactly when that and its blockers' needs fit into its power |
| `DamageAssignment.SomeSubmissionIsAccepted` | quorune/combat_damage_trample.py:9-55 | every well-formed proposal has an accepted submission: trample never deadlocks |
| `DamageAssignment.AutomaticIsTheOnlyResult` | quorune/combat_damage_assignment.py:165-174 | assignments are made automatically exactly when no source has two targets, and then they are accepted and no other result is |
| `DamageSequence.CanonicalValues` | quorune/combat_damage_events.py:13-49 | the gate accepts a batch exactly when its names are nonempty, no amount is negative and no pair repeats, and numbers the rows in order |
| `DamageSequence.AnnounceIff` | quorune/combat_damage_sequence.py:161-195 | only the actor whose turn it is may announce, with positive amounts and no repeated pair, and what has been announced is by the first actors in their order |
| `DamageSequence.SeatAssignsItsDue` | quorune/combat_damage_assignment.py:200-228 | an accepted submission for a seat assigns in total the clamped power of the seat's participants that have targets |
| `DamageSequence.AnnouncementsNeverStick` | quorune/combat_damage_sequence.py:161-195 | proper results are announced in actor order without ever being refused |
| `DamageSequence.AnnouncedDamageIsConserved` | quorune/combat_damage_sequence.py:161-195 | when distinct actors covering every controller have announced accepted results, nobody is left, the damage collected is the clamped power of all assigning participants with targets, and the final gate accepts |
| `DamageSequence.EverySeatCanAnswer` | quorune/combat_damage_assignment.py:231-329 | every seat whose tramplers spill apart from their blockers has an answer to give |
| `AttachmentLinks.ReciprocalMultiplicity` | quorune/attachments.py:69-90 | reciprocity as multiplicities: one listing where the source names the target and none anywhere else |
| `AttachmentLinks.ClearingIsExact` | quorune/attachments.py:291-309 | clearing a card of a reciprocal relation never fails, leaves exactly the relation without the card, and is reciprocal again |
| `AttachmentLinks.ClearedTouchesNothing` | quorune/attachments.py:291-309 | afterwards the card names nothing, nothing names it, and it is listed nowhere |
| `AttachmentLinks.EveryRunIsReciprocal` | quorune/attachments.py:149-309 | every run of attachments, detachments and clearings from a reciprocal relation stays reciprocal |
| `AttachmentLinks.OnlyRequestsAreRejected` | quorune/attachments.py:149-288 | from a reciprocal relation an operation is rejected only for what was asked, never for a broken link |
| `AttachmentLinks.RequestsTakeEffect` | quorune/attachments.py:149-288 | an accepted attachment renames and restamps the source alone and lists it last at its target, unless it is attached there already; a detachment unnames the source alone; clearing leaves the relation without the card; a rejected request changes nothing |
| `Attachments.PreviousTarget` | quorune/attachments.py:69-90 | the holder found is the object the source names, provided it lists the source |
| `Attachments.AttachObjects` | quorune/attachments.py:149-205 | attaching in place gives the specified relation, stamps the source, and writes nothing when rejected |
| `Attachments.AttachToPlayer` | quorune/attachments.py:208-257 | attaching to a player in place gives the specified relation, and writes nothing when rejected |
| `Attachments.DetachObject` | quorune/attachments.py:260-288 | detaching in place gives the specified relation without restamping, and writes nothing when rejected |
| `Attachments.ClearObjectAttachmentRelations` | quorune/attachments.py:291-309 | clearing in place never fails from a reciprocal relation and gives exactly the relation without the card |
| `CombatRelations.EveryRunIsConsistent` | quorune/combat_relationship_state.py:93-256 | over every run attackers match their target contexts, no blocker list repeats, and the record of blocked attackers only grows |
| `CombatRelations.EveryRunIsProper` | quorune/combat_relationship_state.py:19-256 | what the constructors of assignments refuse never shows up: over every run each recorded attack is one that can be made, no creature is recorded as blocking itself, and no recorded identity is empty |
| `CombatRelations.RunExtends` | quorune/combat_relationship_state.py:93-256 | over a run a refused attack declaration writes nothing and a block declaration what it wrote before it was refused |
| `CombatRelations.CommittedAttackers` | quorune/combat_relationship_state.py:93-149 | writing the surviving assignments adds exactly their attackers, each with its own recipient and context, and leaves the others alone |
| `CombatRelations.AttackRejectedIff` | quorune/combat_relationship_state.py:93-149 | an attack declaration is refused exactly when it has no controller, repeats an attacker, or names one that is unknown or that is fit and attacks already |
| `CombatRelations.RemovedIsUnused` | quorune/combat_relationship_state.py:218-256 | a removed object has no current role and nobody else's changes; who was blocked stays on record |
| `CombatRelations.BlockRejectedIff` | quorune/combat_relationship_state.py:185-214 | a declaration with unique blockers is rejected exactly when the relations as they stand before it forbid one of its assignments, and the first such assignment decides the error |
| `CombatRelations.BlockRefusedIff` | quorune/combat_relationship_state.py:152-214 | a block declaration is refused exactly when it has no controller, repeats a blocker, or the relations as they stand have an attacker of it unknown or not attacking, a blocker unknown, or a fit blocker already blocking that attacker |
| `CombatRelations.FailedBlockWritesNothingIff` | quorune/combat_relationship_state.py:185-214 | with the first assignment that the relations as they stand forbid in k-th place, nothing is written exactly when no earlier assignment has a blocker still fit to block |
| `CombatRelations.FailedBlockCanWrite` | quorune/combat_relationship_state.py:185-214 | a concrete rejected declaration, on relationships that a run can leave, that keeps the block it wrote first |
| `CombatRelationships.FitForDeclaration` | quorune/combat_relationship_state.py:121-131 | the objects fit for a declaration, read off the objects themselves: on the battlefield, under the declaring player's control and not phased out |
| `CombatRelationships.CommitAttackDeclaration` | quorune/combat_relationship_state.py:93-149 | committing in place gives the specified relationships; a missing controller, a repeated attacker and every other rejection write nothing |
| `CombatRelationships.CommitBlockDeclaration` | quorune/combat_relationship_state.py:152-215 | committing in place gives the specified relationships, including what a rejection has already written; a missing controller or a repeated blocker writes nothing |
| `CombatRelationships.RemoveCombatRelationships` | quorune/combat_relationship_state.py:218-256 | removing in place gives the specified relationships, and a missing object identity is refused and changes nothing |
| `KeywordTriggers.PrintingIsCanonical` | quorune/block_transitions.py:114-123 | equal multisets of instances are stored alike, so an instance keeps its index however instances were listed |
| `KeywordTriggers.PrintedInOrder` | quorune/block_transitions.py:114-123 | instances are stored by the numerals of their amounts as text, then by keyword name |
| `KeywordTriggers.KindsByName` | quorune/block_transitions.py:114-123 | the keyword names in order: battle cry, bushido, dethrone, exalted, flanking, melee, mentor, training |
| `KeywordTriggers.InstanceAt` | quorune/block_transitions.py:737-753 | an instance has as its index how many of its keyword were printed before it, and each printed instance has one |
| `KeywordTriggers.EachInstanceOnce` | quorune/block_transitions.py:737-753 | each instance of a due keyword contributes exactly one draft |
| `KeywordTriggers.Announce` | quorune/block_transitions.py:755-775 | when what is drafted is due and valid, what is due is drafted, and keys tell drafts apart, sorting and constructing yields a strictly sorted list of exactly what is due, and no occurrence is refused |
| `Participants.OrderedFacts` | quorune/block_transitions.py:479-491 | participants in canonical order list the answers, are indexed by them, and sorting again changes nothing |
| `Participants.Capture` | quorune/block_transitions.py:479-491 | asking for the participants in any order gives the same canonical list, and is refused exactly when an answer is malformed or not the one asked for |
| `Participants.OrderedByReference` | quorune/block_transitions.py:487-492 | captured participants stand in the order of their references |
| `BlockTransitions.Build` | quorune/block_transitions.py:447-515 | the captured event is the one the declared blocks describe; no event when nothing blocks; every malformed query is refused |
| `BlockTransitions.AcceptedIff` | quorune/block_transitions.py:241-351 | the event constructor accepts what was captured exactly when the answers themselves are admissible; closure and canonical order never fail |
| `CaptureLaws.BlocksAccepted` | quorune/block_transitions.py:241-351 | which readings of blocks are accepted, in the fields of what was read |
| `CaptureLaws.BlocksByReference` | quorune/block_transitions.py:492-506 | blocks are listed by the reference of the attacker, then that of the blocker |
| `BlockTransitions.EnumerationIsIrrelevant` | quorune/block_transitions.py:447-515 | listing attackers or blockers in another order gives the same event |
| `BlockTransitions.ValidIsCoherent` | quorune/block_transitions.py:269-340 | an event the constructor accepts is coherent, which is all the derivation needs |
| `CaptureLaws.BlockEventOrdered` | quorune/block_transitions.py:309-334 | an event the constructor accepts lists participants by reference, and blocks by the reference of the attacker and then that of the blocker |
| `BlockTriggers.Derive` | quorune/block_transitions.py:705-775 | exactly one Flanking per instance per non-flanking blocker and one Bushido per instance per participant, strictly sorted, and no occurrence is refused |
| `BlockTriggers.DerivationIsDetermined` | quorune/block_transitions.py:755-775 | the occurrences are distinct and their list is a function of the event |
| `BlockTriggers.DerivedOrder` | quorune/block_transitions.py:755-764 | occurrences go by the reference of their source, Bushido before Flanking, then by the reference of what they affect and the index of the instance |
| `BlockTriggers.DerivedIsComplete` | quorune/block_transitions.py:558-603 | every derived occurrence meets what its constructor asks, in its own fields |
| `AttackTransitions.Build` | quorune/attack_transition_model.py:543-596 | the captured event is the one the declared attacks describe; no event without attackers; every malformed query is refused |
| `AttackTransitions.AcceptedIff` | quorune/attack_transition_model.py:333-445 | the event constructor accepts what was captured exactly when the answers themselves are admissible |
| `CaptureLaws.AttacksAccepted` | quorune/attack_transition_model.py:333-445 | which readings of attacks are accepted, in the fields of what was read |
| `CaptureLaws.AttacksByReference` | quorune/attack_transition_model.py:575-590 | attacks are listed by the reference of the attacker |
| `AttackTransitions.EnumerationIsIrrelevant` | quorune/attack_transition_model.py:543-596 | listing attackers or trigger sources in another order gives the same event |
| `AttackTransitions.ValidIsCoherent` | quorune/attack_transition_model.py:361-397 | an event the constructor accepts is coherent, which is all the derivation needs |
| `CaptureLaws.AttackEventOrdered` | quorune/attack_transition_model.py:412-436 | an event the constructor accepts lists participants, and attacks by their attackers, in the order of references |
| `AttackTriggers.OthersAre` | quorune/attack_transition_model.py:875-891 | Battle Cry affects exactly the other attackers, each once, in canonical order |
| `AttackTriggers.OthersByReference` | quorune/attack_transition_model.py:875-888 | the creatures Battle Cry affects stand in the order of their references |
| `AttackTriggers.Derive` | quorune/attack_transition_model.py:822-915 | exactly one Exalted per instance for a lone attacker, one Battle Cry per instance over all other attackers, one Melee per instance counting the distinct players attacked, strictly sorted, and no occurrence is refused |
| `AttackTriggers.MeleeCountsPlayers` | quorune/attack_transition_model.py:836-840 | each Melee occurrence counts the players attacked directly, each once, and attacked permanents not at all; so it counts none exactly when no player is attacked |
| `AttackTriggers.RetargetingPermanents` | quorune/attack_transition_model.py:836-891 | moving attacks between permanents leaves the same occurrences in the same order |
| `AttackTriggers.DerivedOrder` | quorune/attack_transition_model.py:896-903 | occurrences go by the reference of their source, then Battle Cry, Exalted, Melee, then by the index of the instance |
| `AttackTriggers.DerivedIsComplete` | quorune/attack_transition_model.py:639-713 | every derived occurrence meets what its constructor asks, in its own fields |
| `AttackTriggers.DerivationIsDetermined` | quorune/attack_transition_model.py:896-915 | the occurrences are distinct and their list is a function of the event |
| `Cascade.Host.ExileUntilHit` | quorune/cascade.py:160-193 | the library keeps what was not moved, what was exiled is what reached exile, top-down, and without a candidate the library is empty; it succeeds exactly when every moved card may be moved and every exiled one is registered, and otherwise names the card that broke it off |
| `Cascade.CandidateIsLast` | quorune/cascade.py:188-193 | the candidate is the last exiled card and the only eligible one among them |
| `Cascade.EndIsDetermined` | quorune/cascade.py:164-193 | where the search ends, and with which candidate, is determined by the library |
| `Cascade.ResolveCascade` | quorune/cascade.py:146-213 | a castable candidate is offered with everything exiled; otherwise everything exiled is cleaned up; a controller that has left moves nothing; it fails exactly when the exiling breaks off, with the library as it was then |

## Left out

- Error wording, labels and log messages: only which error is raised, or that one is, is modelled.
- Hashes and identifiers derived from contents: events and occurrences are identified by their contents, as if the hash were injective.
- Dictionary, JSON and schema checks, and round trips through dictionaries: closed field sets and type checks are datatypes here.
- Turning raw declaration keys and options into text: entries are taken as text, and of two with one text the last decides.
- Ability-fragment canonical forms, text appending and replacement, the object query, case folding and upper case are uninterpreted parameters of the layer evaluation; the query sees a row without power and toughness, as the engine passes it.
- Malformed operation payloads of the layer evaluation, unknown copy fields, and a copy payload that names the recorded copiable values: operations are typed values here.
- The order of the list of inapplicable effects: it follows the input, and is claimed only up to permutation.
- The list of transitions that clearing a card returns: only the relation it leaves is modelled.
- The automatic flag of an announcement: it does not influence acceptance.
- How the player's library is updated by a move is a contract: the top card leaves the library, wherever a replacement sends it.
- Random ordering of the cards put on the bottom after Cascade, and the casting itself.
- Resolving the derived triggers, their stack items and their labels: thin wrappers over the engine.
- Targeted attack triggers (Mentor, Dethrone, Training): they are carried as instances, and nothing is derived from them in the modelled functions.
- Engine adapters, command line, arena, storage, locks and client code.
- Integer widths: the engine's integers are unbounded, and so are the model's.

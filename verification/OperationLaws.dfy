/** What single operations do to abilities and ability fragments. */
module OperationLaws {
  import opened Characteristics

  /** An ability is there in some spelling. */
  predicate Spelled(rules: Rules, abilities: seq<string>, ability: string) {
    exists a :: a in abilities && rules.fold(a) == rules.fold(ability)
  }

  lemma {:induction false} OthersStay(rules: Rules, abilities: seq<string>, ability: string, x: string)
    ensures multiset(WithoutAbility(rules, abilities, ability))[x] ==
            if rules.fold(x) == rules.fold(ability) then 0 else multiset(abilities)[x]
  {
    if abilities == [] {
    } else {
      OthersStay(rules, abilities[1..], ability, x);
      assert abilities == [abilities[0]] + abilities[1..];
    }
  }

  lemma {:induction false} NothingToRemove(rules: Rules, abilities: seq<string>, ability: string)
    requires forall a :: a in abilities ==> rules.fold(a) != rules.fold(ability)
    ensures WithoutAbility(rules, abilities, ability) == abilities
  {
    if abilities == [] {
    } else {
      NothingToRemove(rules, abilities[1..], ability);
    }
  }

  lemma {:induction false} RemoveFromBoth(rules: Rules, s: seq<string>, t: seq<string>, ability: string)
    ensures WithoutAbility(rules, s + t, ability) ==
            WithoutAbility(rules, s, ability) + WithoutAbility(rules, t, ability)
  {
    if s == [] {
      assert s + t == t;
    } else {
      assert (s + t)[1..] == s[1..] + t;
      RemoveFromBoth(rules, s[1..], t, ability);
    }
  }

  /** After adding an ability it is there in some spelling, and it was appended only if it was not
      there before; after removing it it is there in none, every other ability as often as before;
      and removing what was just added gives back what removing it before would have. */
  lemma AbilityOperations(rules: Rules, t: Traits, ability: string)
    ensures var before, added, removed := t.skills.abilities, Applied(rules, t, AddAbility(ability)),
                                          Applied(rules, t, RemoveAbility(ability));
            && Spelled(rules, added.skills.abilities, ability)
            && added.skills.abilities == (if Spelled(rules, before, ability) then before else before + [ability])
            && !Spelled(rules, removed.skills.abilities, ability)
            && (forall x :: multiset(removed.skills.abilities)[x] ==
                            if rules.fold(x) == rules.fold(ability) then 0 else multiset(before)[x])
            && Applied(rules, added, RemoveAbility(ability)).skills.abilities == removed.skills.abilities
  {
    hide Applied, WithoutAbility;
    var before := t.skills.abilities;
    var removed := WithoutAbility(rules, before, ability);
    AbilitiesAfter(rules, t, ability);
    AbilitiesAfter(rules, Applied(rules, t, AddAbility(ability)), ability);
    OneAbility(rules, ability);
    forall x ensures multiset(removed)[x] == if rules.fold(x) == rules.fold(ability) then 0 else multiset(before)[x] {
      OthersStay(rules, before, ability, x);
    }
    forall x | x in removed ensures rules.fold(x) != rules.fold(ability) {
      assert x in multiset(removed);
    }
    assert (before + [ability])[|before|] == ability && ability in before + [ability];
    RemoveFromBoth(rules, before, [ability], ability);
    assert removed + [] == removed;
  }

  lemma AbilitiesAfter(rules: Rules, t: Traits, ability: string)
    ensures Applied(rules, t, AddAbility(ability)).skills.abilities ==
            if Spelled(rules, t.skills.abilities, ability) then t.skills.abilities else t.skills.abilities + [ability]
    ensures Applied(rules, t, RemoveAbility(ability)).skills.abilities ==
            WithoutAbility(rules, t.skills.abilities, ability)
  {
    hide WithoutAbility;
  }

  lemma OneAbility(rules: Rules, ability: string)
    ensures WithoutAbility(rules, [ability], ability) == []
  {
    assert [ability][1..] == [];
  }

  lemma {:induction false} FragmentsStay(fragments: seq<string>, fragment: string, x: string)
    ensures multiset(WithoutFragment(fragments, fragment))[x] == if x == fragment then 0 else multiset(fragments)[x]
  {
    if fragments == [] {
    } else {
      FragmentsStay(fragments[1..], fragment, x);
      assert fragments == [fragments[0]] + fragments[1..];
    }
  }

  /** Removing an ability fragment removes every copy of it and nothing else. */
  lemma FragmentRemoval(rules: Rules, t: Traits, fragment: string)
    ensures var s := Applied(rules, t, RemoveFragment(fragment)).skills;
            && (forall x :: multiset(s.fragments)[x] == if x == fragment then 0 else multiset(t.skills.fragments)[x])
            && s.abilities == t.skills.abilities && s.activated == t.skills.activated
  {
    forall x ensures multiset(WithoutFragment(t.skills.fragments, fragment))[x] ==
                     if x == fragment then 0 else multiset(t.skills.fragments)[x] {
      FragmentsStay(t.skills.fragments, fragment, x);
    }
  }
}

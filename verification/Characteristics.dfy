/** Characteristics of one object and the operations of continuous effects on them. */
module Characteristics {
  import opened Wrappers

  datatype Print = Print(
    name: string,
    controller: Option<string>,
    manaCost: string,
    manaValue: real,
    text: string,
    executableText: string)

  datatype Kinds = Kinds(
    supertypes: set<string>,
    cardTypes: set<string>,
    subtypes: set<string>,
    colors: set<string>)

  datatype Skills = Skills(
    abilities: seq<string>,
    fragments: seq<string>,
    activated: seq<string>)

  datatype Stats = Stats(
    power: Option<int>,
    toughness: Option<int>,
    loyalty: Option<int>,
    defense: Option<int>)

  /** A snapshot of an object's characteristics. */
  datatype Traits = Traits(face: Print, kinds: Kinds, skills: Skills, stats: Stats, copiable: Option<Traits>)

  datatype TypeField = Supertypes | CardTypes | Subtypes

  /** The fields named by a copy effect; the others keep their values. */
  datatype CopyValues = CopyValues(
    name: Option<string>,
    controller: Option<string>,
    manaCost: Option<string>,
    manaValue: Option<real>,
    text: Option<string>,
    executableText: Option<string>,
    supertypes: Option<set<string>>,
    cardTypes: Option<set<string>>,
    subtypes: Option<set<string>>,
    colors: Option<set<string>>,
    abilities: Option<seq<string>>,
    fragments: Option<seq<string>>,
    activated: Option<seq<string>>,
    power: Option<Option<int>>,
    toughness: Option<Option<int>>,
    loyalty: Option<Option<int>>,
    defense: Option<Option<int>>)

  datatype FaceDownValues = FaceDownValues(
    name: Option<string>,
    manaCost: Option<string>,
    manaValue: Option<real>,
    text: Option<string>,
    supertypes: Option<set<string>>,
    cardTypes: Option<set<string>>,
    subtypes: Option<set<string>>,
    colors: Option<set<string>>,
    abilities: Option<seq<string>>,
    power: Option<int>,
    toughness: Option<int>)

  datatype Operation =
    | CopyInto(values: CopyValues)
    | TurnFaceDown(faceDown: FaceDownValues)
    | SetController(seat: string)
    | ReplaceText(from: string, to: string)
    | SetTypes(field: TypeField, words: set<string>)
    | AddTypes(field: TypeField, words: set<string>)
    | RemoveTypes(field: TypeField, words: set<string>)
    | SetColors(words: set<string>)
    | AddColors(words: set<string>)
    | RemoveColors(words: set<string>)
    | RemoveAllColors
    | AddAbility(ability: string)
    | RemoveAbility(ability: string)
    | AddRulesText(line: string)
    | AddFragment(fragment: string)
    | RemoveFragment(fragment: string)
    | RemoveAllAbilities
    | SetPowerToughness(p: int, t: int)
    | ModifyPowerToughness(dp: int, dt: int)
    | SwitchPowerToughness

  /** What an object query can see of an object: everything but power and toughness. */
  datatype Row = Row(
    name: string,
    controller: Option<string>,
    cardTypes: set<string>,
    subtypes: set<string>,
    supertypes: set<string>,
    colors: set<string>,
    keywords: seq<string>,
    manaValue: int)

  datatype Query = Query(description: string)

  /** Parts of the engine that the layer interpreter calls: the object query, the canonical
      form of ability fragments, text editing, case folding and upper case. */
  datatype Rules = Rules(
    matches: (Query, Row) -> bool,
    canonicalFragments: seq<string> -> seq<string>,
    appendLine: (string, string) -> string,
    replaceAll: (string, string, string) -> string,
    fold: string -> string,
    upper: string -> string)

  function RowOf(t: Traits): Row {
    Row(t.face.name, t.face.controller, t.kinds.cardTypes, t.kinds.subtypes, t.kinds.supertypes, t.kinds.colors,
        t.skills.abilities, t.face.manaValue.Floor)
  }

  function Or<T>(value: Option<T>, default: T): T {
    if value.Some? then value.value else default
  }

  function CopiedPrint(f: Print, v: CopyValues): Print {
    Print(Or(v.name, f.name), if v.controller.Some? then v.controller else f.controller,
          Or(v.manaCost, f.manaCost), Or(v.manaValue, f.manaValue),
          Or(v.text, f.text), Or(v.executableText, Or(v.text, f.executableText)))
  }

  function CopiedKinds(k: Kinds, v: CopyValues): Kinds {
    Kinds(Or(v.supertypes, k.supertypes), Or(v.cardTypes, k.cardTypes), Or(v.subtypes, k.subtypes),
          Or(v.colors, k.colors))
  }

  function CopiedSkills(rules: Rules, s: Skills, v: CopyValues): Skills {
    Skills(Or(v.abilities, s.abilities),
           if v.fragments.Some? then rules.canonicalFragments(v.fragments.value) else s.fragments,
           Or(v.activated, s.activated))
  }

  function CopiedStats(s: Stats, v: CopyValues): Stats {
    Stats(Or(v.power, s.power), Or(v.toughness, s.toughness), Or(v.loyalty, s.loyalty), Or(v.defense, s.defense))
  }

  function Copied(rules: Rules, t: Traits, v: CopyValues): Traits {
    Traits(CopiedPrint(t.face, v), CopiedKinds(t.kinds, v), CopiedSkills(rules, t.skills, v), CopiedStats(t.stats, v),
           t.copiable)
  }

  function FaceDownPrint(f: Print, v: FaceDownValues): Print {
    Print(Or(v.name, ""), f.controller, Or(v.manaCost, ""), Or(v.manaValue, 0.0), Or(v.text, ""), Or(v.text, ""))
  }

  function FaceDownKinds(v: FaceDownValues): Kinds {
    Kinds(Or(v.supertypes, {}), Or(v.cardTypes, {"Creature"}), Or(v.subtypes, {}), Or(v.colors, {}))
  }

  function FaceDownStats(s: Stats, v: FaceDownValues): Stats {
    s.(power := Some(Or(v.power, 2)), toughness := Some(Or(v.toughness, 2)))
  }

  function FaceDown(t: Traits, v: FaceDownValues): Traits {
    Traits(FaceDownPrint(t.face, v), FaceDownKinds(v), Skills(Or(v.abilities, []), [], []),
           FaceDownStats(t.stats, v), t.copiable)
  }

  function TypesOf(k: Kinds, field: TypeField): set<string> {
    match field case Supertypes => k.supertypes case CardTypes => k.cardTypes case Subtypes => k.subtypes
  }

  function WithTypes(k: Kinds, field: TypeField, words: set<string>): Kinds {
    match field
    case Supertypes => k.(supertypes := words)
    case CardTypes => k.(cardTypes := words)
    case Subtypes => k.(subtypes := words)
  }

  predicate HasAbility(rules: Rules, abilities: seq<string>, ability: string) {
    exists a :: a in abilities && rules.fold(a) == rules.fold(ability)
  }

  function WithoutAbility(rules: Rules, abilities: seq<string>, ability: string): seq<string> {
    if abilities == [] then []
    else (if rules.fold(abilities[0]) == rules.fold(ability) then [] else [abilities[0]])
         + WithoutAbility(rules, abilities[1..], ability)
  }

  function WithoutFragment(fragments: seq<string>, fragment: string): seq<string> {
    if fragments == [] then []
    else (if fragments[0] == fragment then [] else [fragments[0]]) + WithoutFragment(fragments[1..], fragment)
  }

  function Plus(value: Option<int>, delta: int): Option<int> {
    if value.Some? then Some(value.value + delta) else None
  }

  function AppliedPrint(rules: Rules, f: Print, op: Operation): Print {
    match op
    case SetController(seat) => f.(controller := Some(seat))
    case ReplaceText(from, to) =>
      f.(text := rules.replaceAll(f.text, from, to), executableText := rules.replaceAll(f.executableText, from, to))
    case AddRulesText(line) => f.(text := rules.appendLine(f.text, line))
    case _ => f
  }

  /** Colour words as a colour operation reads them. */
  function Uppercase(rules: Rules, words: set<string>): set<string> {
    set w | w in words :: rules.upper(w)
  }

  function AppliedKinds(rules: Rules, k: Kinds, op: Operation): Kinds {
    match op
    case SetTypes(f, words) => WithTypes(k, f, words)
    case AddTypes(f, words) => WithTypes(k, f, TypesOf(k, f) + words)
    case RemoveTypes(f, words) => WithTypes(k, f, TypesOf(k, f) - words)
    case SetColors(words) => k.(colors := Uppercase(rules, words))
    case AddColors(words) => k.(colors := k.colors + Uppercase(rules, words))
    case RemoveColors(words) => k.(colors := k.colors - Uppercase(rules, words))
    case RemoveAllColors => k.(colors := {})
    case _ => k
  }

  function AppliedSkills(rules: Rules, s: Skills, op: Operation): Skills {
    match op
    case ReplaceText(_, _) => s.(activated := [])
    case AddAbility(a) => if HasAbility(rules, s.abilities, a) then s else s.(abilities := s.abilities + [a])
    case RemoveAbility(a) => s.(abilities := WithoutAbility(rules, s.abilities, a))
    case AddFragment(f) => s.(fragments := rules.canonicalFragments(s.fragments + [f]))
    case RemoveFragment(f) => s.(fragments := WithoutFragment(s.fragments, f))
    case RemoveAllAbilities => Skills([], [], [])
    case _ => s
  }

  function AppliedStats(s: Stats, op: Operation): Stats {
    match op
    case SetPowerToughness(p, q) => s.(power := Some(p), toughness := Some(q))
    case ModifyPowerToughness(dp, dt) => s.(power := Plus(s.power, dp), toughness := Plus(s.toughness, dt))
    case SwitchPowerToughness => s.(power := s.toughness, toughness := s.power)
    case _ => s
  }

  /** The characteristics after one operation. */
  function Applied(rules: Rules, t: Traits, op: Operation): Traits {
    if op.CopyInto? then Copied(rules, t, op.values)
    else if op.TurnFaceDown? then FaceDown(t, op.faceDown)
    else
      Traits(AppliedPrint(rules, t.face, op), AppliedKinds(rules, t.kinds, op), AppliedSkills(rules, t.skills, op),
             AppliedStats(t.stats, op), t.copiable)
  }

  function AppliedAll(rules: Rules, t: Traits, ops: seq<Operation>): Traits {
    if ops == [] then t
    else Applied(rules, AppliedAll(rules, t, ops[..|ops| - 1]), ops[|ops| - 1])
  }

  /** The mutable characteristics that effects rewrite in place. */
  class CharacteristicState {
    var name: string
    var controller: Option<string>
    var manaCost: string
    var manaValue: real
    var text: string
    var executableText: string
    var supertypes: set<string>
    var cardTypes: set<string>
    var subtypes: set<string>
    var colors: set<string>
    var abilities: seq<string>
    var fragments: seq<string>
    var activated: seq<string>
    var power: Option<int>
    var toughness: Option<int>
    var loyalty: Option<int>
    var defense: Option<int>
    var copiable: Option<Traits>

    constructor (t: Traits)
      ensures View() == t
    {
      name, controller, manaCost, manaValue := t.face.name, t.face.controller, t.face.manaCost, t.face.manaValue;
      text, executableText := t.face.text, t.face.executableText;
      supertypes, cardTypes := t.kinds.supertypes, t.kinds.cardTypes;
      subtypes, colors := t.kinds.subtypes, t.kinds.colors;
      abilities, fragments, activated := t.skills.abilities, t.skills.fragments, t.skills.activated;
      power, toughness, loyalty, defense := t.stats.power, t.stats.toughness, t.stats.loyalty, t.stats.defense;
      copiable := t.copiable;
    }

    function PrintView(): Print
      reads this`name, this`controller, this`manaCost, this`manaValue, this`text, this`executableText
    {
      Print(name, controller, manaCost, manaValue, text, executableText)
    }

    function KindsView(): Kinds
      reads this`supertypes, this`cardTypes, this`subtypes, this`colors
    {
      Kinds(supertypes, cardTypes, subtypes, colors)
    }

    function SkillsView(): Skills
      reads this`abilities, this`fragments, this`activated
    {
      Skills(abilities, fragments, activated)
    }

    function StatsView(): Stats
      reads this`power, this`toughness, this`loyalty, this`defense
    {
      Stats(power, toughness, loyalty, defense)
    }

    function View(): Traits
      reads this
    {
      Traits(PrintView(), KindsView(), SkillsView(), StatsView(), copiable)
    }

    method CopyFrom(rules: Rules, v: CopyValues)
      modifies this
      ensures View() == Copied(rules, old(View()), v)
    {
      hide PrintView, KindsView, SkillsView, StatsView, CopiedPrint, CopiedKinds, CopiedSkills, CopiedStats;
      CopyPrint(v);
      CopyKinds(v);
      CopySkills(rules, v);
      CopyStats(v);
    }

    method CopySkills(rules: Rules, v: CopyValues)
      modifies this`abilities, this`fragments, this`activated
      ensures SkillsView() == CopiedSkills(rules, old(SkillsView()), v)
    {
      abilities, activated := Or(v.abilities, abilities), Or(v.activated, activated);
      if v.fragments.Some? { fragments := rules.canonicalFragments(v.fragments.value); }
    }

    method CopyStats(v: CopyValues)
      modifies this`power, this`toughness, this`loyalty, this`defense
      ensures StatsView() == CopiedStats(old(StatsView()), v)
    {
      power, toughness := Or(v.power, power), Or(v.toughness, toughness);
      loyalty, defense := Or(v.loyalty, loyalty), Or(v.defense, defense);
    }

    method CopyPrint(v: CopyValues)
      modifies this`name, this`controller, this`manaCost, this`manaValue, this`text, this`executableText
      ensures PrintView() == CopiedPrint(old(PrintView()), v)
    {
      name, controller := Or(v.name, name), if v.controller.Some? then v.controller else controller;
      manaCost, manaValue := Or(v.manaCost, manaCost), Or(v.manaValue, manaValue);
      if v.text.Some? {
        text := v.text.value;
        if v.executableText.None? { executableText := text; }
      }
      executableText := Or(v.executableText, executableText);
    }

    method CopyKinds(v: CopyValues)
      modifies this`supertypes, this`cardTypes, this`subtypes, this`colors
      ensures KindsView() == CopiedKinds(old(KindsView()), v)
    {
      supertypes, cardTypes := Or(v.supertypes, supertypes), Or(v.cardTypes, cardTypes);
      subtypes, colors := Or(v.subtypes, subtypes), Or(v.colors, colors);
    }

    method BecomeFaceDown(v: FaceDownValues)
      modifies this
      ensures View() == FaceDown(old(View()), v)
    {
      hide PrintView, KindsView, SkillsView, StatsView, FaceDownPrint, FaceDownKinds, FaceDownStats, Or;
      HidePrint(v);
      HideKinds(v);
      HideSkills(v);
      HideStats(v);
    }

    method HidePrint(v: FaceDownValues)
      modifies this`name, this`manaCost, this`manaValue, this`text, this`executableText
      ensures PrintView() == FaceDownPrint(old(PrintView()), v)
    {
      name, manaCost, manaValue := Or(v.name, ""), Or(v.manaCost, ""), Or(v.manaValue, 0.0);
      text := Or(v.text, "");
      executableText := text;
    }

    method HideKinds(v: FaceDownValues)
      modifies this`supertypes, this`cardTypes, this`subtypes, this`colors
      ensures KindsView() == FaceDownKinds(v)
    {
      supertypes, cardTypes := Or(v.supertypes, {}), Or(v.cardTypes, {"Creature"});
      subtypes, colors := Or(v.subtypes, {}), Or(v.colors, {});
    }

    method HideSkills(v: FaceDownValues)
      modifies this`abilities, this`fragments, this`activated
      ensures SkillsView() == Skills(Or(v.abilities, []), [], [])
    {
      abilities, fragments, activated := Or(v.abilities, []), [], [];
    }

    method HideStats(v: FaceDownValues)
      modifies this`power, this`toughness
      ensures StatsView() == FaceDownStats(old(StatsView()), v)
    {
      power, toughness := Some(Or(v.power, 2)), Some(Or(v.toughness, 2));
    }

    method ApplyKinds(rules: Rules, op: Operation)
      modifies this`supertypes, this`cardTypes, this`subtypes, this`colors
      ensures KindsView() == AppliedKinds(rules, old(KindsView()), op)
    {
      if op.SetTypes? || op.AddTypes? || op.RemoveTypes? {
        var current :=
          match op.field case Supertypes => supertypes case CardTypes => cardTypes case Subtypes => subtypes;
        var words := if op.SetTypes? then op.words else if op.AddTypes? then current + op.words else current - op.words;
        match op.field
        case Supertypes => supertypes := words;
        case CardTypes => cardTypes := words;
        case Subtypes => subtypes := words;
      } else if op.SetColors? || op.AddColors? || op.RemoveColors? {
        var values := set w | w in op.words :: rules.upper(w);
        colors := if op.SetColors? then values else if op.AddColors? then colors + values else colors - values;
      } else if op.RemoveAllColors? {
        colors := {};
      }
    }

    method ApplySkills(rules: Rules, op: Operation)
      modifies this`abilities, this`fragments, this`activated
      ensures SkillsView() == AppliedSkills(rules, old(SkillsView()), op)
    {
      hide WithoutAbility, HasAbility, WithoutFragment;
      match op
      case ReplaceText(_, _) => activated := [];
      case AddAbility(a) => if !HasAbility(rules, abilities, a) { abilities := abilities + [a]; }
      case RemoveAbility(a) => abilities := WithoutAbility(rules, abilities, a);
      case AddFragment(f) => fragments := rules.canonicalFragments(fragments + [f]);
      case RemoveFragment(f) => fragments := WithoutFragment(fragments, f);
      case RemoveAllAbilities => abilities, fragments, activated := [], [], [];
      case _ =>
    }

    method ApplyStats(op: Operation)
      modifies this`power, this`toughness
      ensures StatsView() == AppliedStats(old(StatsView()), op)
    {
      match op
      case SetPowerToughness(p, t) => power, toughness := Some(p), Some(t);
      case ModifyPowerToughness(dp, dt) =>
        if power.Some? { power := Some(power.value + dp); }
        if toughness.Some? { toughness := Some(toughness.value + dt); }
      case SwitchPowerToughness => power, toughness := toughness, power;
      case _ =>
    }

    method ApplyPrint(rules: Rules, op: Operation)
      modifies this`controller, this`text, this`executableText
      ensures PrintView() == AppliedPrint(rules, old(PrintView()), op)
    {
      match op
      case SetController(seat) => controller := Some(seat);
      case ReplaceText(from, to) =>
        text := rules.replaceAll(text, from, to);
        executableText := rules.replaceAll(executableText, from, to);
      case AddRulesText(line) => text := rules.appendLine(text, line);
      case _ =>
    }

    /** Performs one operation in place. */
    method Apply(rules: Rules, op: Operation)
      modifies this
      ensures View() == Applied(rules, old(View()), op)
    {
      hide AppliedPrint, AppliedKinds, AppliedSkills, AppliedStats, Copied, FaceDown;
      hide PrintView, KindsView, SkillsView, StatsView;
      if op.CopyInto? {
        CopyFrom(rules, op.values);
      } else if op.TurnFaceDown? {
        BecomeFaceDown(op.faceDown);
      } else {
        ApplyPrint(rules, op);
        ApplyKinds(rules, op);
        ApplySkills(rules, op);
        ApplyStats(op);
      }
    }

    /** Fixes the copiable values that later copies see. */
    method RecordCopiable(values: Traits)
      modifies this`copiable
      ensures View() == old(View()).(copiable := Some(values))
    {
      copiable := Some(values);
    }

    /** Performs the operations of one effect in order. */
    method ApplyAll(rules: Rules, ops: seq<Operation>)
      modifies this
      ensures View() == AppliedAll(rules, old(View()), ops)
    {
      ghost var start := View();
      var i := 0;
      while i < |ops|
        invariant 0 <= i <= |ops|
        invariant View() == AppliedAll(rules, start, ops[..i])
      {
        Apply(rules, ops[i]);
        assert ops[..i + 1][..i] == ops[..i];
        i := i + 1;
      }
      assert ops[..i] == ops;
    }
  }
}

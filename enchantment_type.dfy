/** EcoEnchant.EnchantmentType: the categories of enchantment (normal, curse,
    special, artifact, spell and any added by extensions), each holding the
    colour and singularity it last computed from the configuration. */
module EnchantmentTypes {
  import opened Base

  /** What the rules read at a reload: the lang file's strings and the main
      config's booleans. */
  datatype Snapshot = Snapshot(lang: map<string, string>, flags: map<string, bool>)

  /** FileConfiguration.getString: null when the path is absent. */
  function LangString(s: Snapshot, path: string): (r: Option<string>)
    ensures r.Some? <==> path in s.lang
    ensures path in s.lang ==> r.value == s.lang[path]
  {
    if path in s.lang then Some(s.lang[path]) else None
  }

  /** FileConfiguration.getBool: false when the path is absent. */
  function ConfigBool(s: Snapshot, path: string): (b: bool)
    ensures b <==> path in s.flags && s.flags[path]
  {
    path in s.flags && s.flags[path]
  }

  /** The colour callable held as data: a fixed colour, or a lang lookup. */
  datatype ColorRule = FixedColor(color: string) | LangColor(path: string)

  /** The singularity callable held as data: a fixed flag, or "not allowed
      multiple" read from the config. */
  datatype SingularRule = FixedSingular(singular: bool) | DenyMultiple(path: string)

  /** Only a lang lookup can give null, and only when its path is absent. */
  function EvalColor(r: ColorRule, s: Snapshot): (c: Option<string>)
    ensures c.None? <==> r.LangColor? && r.path !in s.lang
    ensures r.LangColor? && r.path in s.lang ==> c == Some(s.lang[r.path])
  {
    match r
    case FixedColor(c) => Some(c)
    case LangColor(path) => LangString(s, path)
  }

  /** A configured singularity holds exactly when its flag is absent or
      false. */
  function EvalSingular(r: SingularRule, s: Snapshot): (b: bool)
    ensures r.DenyMultiple? ==> (b <==> r.path !in s.flags || !s.flags[r.path])
  {
    match r
    case FixedSingular(b) => b
    case DenyMultiple(path) => !ConfigBool(s, path)
  }

  /** A rule fixed at construction gives the same value under every
      configuration, so a reload leaves such a type as it was. */
  lemma FixedRulesIgnoreSnapshot(c: ColorRule, g: SingularRule, s1: Snapshot, s2: Snapshot)
    requires c.FixedColor? && g.FixedSingular?
    ensures EvalColor(c, s1) == EvalColor(c, s2) == Some(c.color)
    ensures EvalSingular(g, s1) == EvalSingular(g, s2) == g.singular
  {
  }

  /** A configurable singularity holds exactly when the config does not
      allow multiple enchantments of the type; an absent flag counts as
      false, so the type is then singular. */
  lemma DenyMultipleMeaning(path: string, s: Snapshot)
    ensures EvalSingular(DenyMultiple(path), s) <==> !(path in s.flags && s.flags[path])
    ensures path !in s.flags ==> EvalSingular(DenyMultiple(path), s)
  {
  }

  class EnchantmentType {
    const name: string
    const colorRule: ColorRule
    const singularRule: SingularRule
    /** null when the lang file has no colour for the type. */
    var color: Option<string>
    var singular: bool

    /** The type's two derived fields agree with its rules under s. */
    ghost predicate Resolved(s: Snapshot)
      reads this
    {
      color == EvalColor(colorRule, s) && singular == EvalSingular(singularRule, s)
    }

    /** The three Java constructors: a fixed singularity and colour, a fixed
        singularity with a colour callable, or two callables. Each evaluates
        its rules once. */
    constructor (name: string, singularRule: SingularRule, colorRule: ColorRule, s: Snapshot)
      ensures this.name == name && this.colorRule == colorRule && this.singularRule == singularRule
      ensures Resolved(s)
    {
      this.name := name;
      this.colorRule := colorRule;
      this.singularRule := singularRule;
      color := EvalColor(colorRule, s);
      singular := EvalSingular(singularRule, s);
    }

    /** Call both rules again and store their results; nothing else changes. */
    method Refresh(s: Snapshot)
      modifies this
      ensures Resolved(s)
    {
      color := EvalColor(colorRule, s);
      singular := EvalSingular(singularRule, s);
    }
  }

  /** The static list of every type constructed, with the five built in. */
  class TypeRegistry {
    const normal: EnchantmentType
    const curse: EnchantmentType
    const special: EnchantmentType
    const artifact: EnchantmentType
    const spell: EnchantmentType
    var values: seq<EnchantmentType>

    /** The built-in types come first, in declaration order, and every type
        is listed once. */
    ghost predicate Valid()
      reads this
    {
      && |values| >= 5
      && values[..5] == [normal, curse, special, artifact, spell]
      && forall i, j :: 0 <= i < j < |values| ==> values[i] != values[j]
    }

    /** Static initialisation: the five built-in types and their rules. */
    constructor (s: Snapshot)
      ensures Valid() && values == [normal, curse, special, artifact, spell]
      ensures normal.name == "normal" && normal.singularRule == FixedSingular(false)
      ensures normal.colorRule == LangColor("not-curse-color")
      ensures curse.name == "curse" && curse.singularRule == FixedSingular(false)
      ensures curse.colorRule == LangColor("curse-color")
      ensures special.name == "special" && special.singularRule == DenyMultiple("types.special.allow-multiple")
      ensures special.colorRule == LangColor("special-color")
      ensures artifact.name == "artifact" && artifact.singularRule == DenyMultiple("types.artifact.allow-multiple")
      ensures artifact.colorRule == LangColor("artifact-color")
      ensures spell.name == "spell" && spell.singularRule == FixedSingular(true)
      ensures spell.colorRule == LangColor("spell-color")
      ensures forall t :: t in values ==> t.Resolved(s)
    {
      var n := new EnchantmentType("normal", FixedSingular(false), LangColor("not-curse-color"), s);
      var c := new EnchantmentType("curse", FixedSingular(false), LangColor("curse-color"), s);
      var sp := new EnchantmentType("special", DenyMultiple("types.special.allow-multiple"), LangColor("special-color"), s);
      var a := new EnchantmentType("artifact", DenyMultiple("types.artifact.allow-multiple"), LangColor("artifact-color"), s);
      var sl := new EnchantmentType("spell", FixedSingular(true), LangColor("spell-color"), s);
      normal, curse, special, artifact, spell := n, c, sp, a, sl;
      values := [n, c, sp, a, sl];
    }

    /** Constructing a further type (as an extension does) appends it. */
    method NewType(name: string, singularRule: SingularRule, colorRule: ColorRule, s: Snapshot)
      returns (t: EnchantmentType)
      requires Valid()
      modifies this
      ensures Valid() && fresh(t)
      ensures values == old(values) + [t]
      ensures t.name == name && t.colorRule == colorRule && t.singularRule == singularRule
      ensures t.Resolved(s)
    {
      t := new EnchantmentType(name, singularRule, colorRule, s);
      values := values + [t];
    }

    /** EnchantmentType.update(): refresh every registered type. The list
        itself is neither extended nor shortened. */
    method Update(s: Snapshot)
      requires Valid()
      modifies set t | t in values
      ensures Valid() && values == old(values)
      ensures forall t :: t in values ==> t.Resolved(s)
    {
      var i := 0;
      while i < |values|
        invariant 0 <= i <= |values|
        invariant forall j :: 0 <= j < i ==> values[j].Resolved(s)
      {
        values[i].Refresh(s);
        i := i + 1;
      }
    }

    /** getValues(): the list as a value, so a caller's later changes to it
        cannot reach the registry. */
    function GetValues(): (r: seq<EnchantmentType>)
      reads this
      requires Valid()
      ensures |r| >= 5 && r[..5] == [normal, curse, special, artifact, spell]
      ensures |r| == |values| && forall i :: 0 <= i < |r| ==> r[i] == values[i]
    {
      values
    }
  }

}

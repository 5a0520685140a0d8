/** EcoEnchant: one configurable enchantment, reloaded in place from its
    config and re-published into the host's table on every reload; and the
    directory of all of them. */
module EcoEnchants {
  import opened Base
  import opened Text
  import opened EnchantmentTypes
  import opened Host

  /** An enchantment rarity; it may carry a colour that overrides the type's. */
  datatype Rarity = Rarity(name: string, customColor: Option<string>)

  /** A named group of item materials an enchantment may be applied to. */
  datatype Target = Target(name: string, materials: set<Material>)

  /** The values update() reads from the enchantment's config, with the lang
      strings already merged in. None stands for an absent path (for rarity:
      a name that resolves to no rarity). */
  datatype EnchantmentConfig = EnchantmentConfig(
    name: string,
    description: string,
    rarity: Option<Rarity>,
    conflicts: set<NamespacedKey>,
    grindstoneable: Option<bool>,
    table: Option<bool>,
    villager: Option<bool>,
    loot: Option<bool>,
    maximumLevel: Option<int>,
    disabledInWorlds: seq<string>,
    targets: set<Target>,
    enabled: Option<bool>)

  /** getBool(path, default) and getInt(path, default): the value at the
      path, or the default when the path is absent. */
  function ValueOr<T>(o: Option<T>, default: T): (r: T)
    ensures o.None? ==> r == default
    ensures o.Some? ==> r == o.value
  {
    if o.Some? then o.value else default
  }

  /** Every material of every target group. */
  ghost function MaterialsOf(targets: set<Target>): (r: set<Material>)
    ensures forall m :: m in r <==> exists t :: t in targets && m in t.materials
  {
    set t, m | t in targets && m in t.materials :: m
  }

  lemma MaterialsOfAdd(done: set<Target>, t: Target)
    ensures MaterialsOf(done + {t}) == MaterialsOf(done) + t.materials
  {
    forall m | m in MaterialsOf(done + {t}) ensures m in MaterialsOf(done) + t.materials {
      var u :| u in done + {t} && m in u.materials;
    }
  }

  /** The permission name: the key with every underscore removed
      (key.replaceAll("_", "")). */
  function PermissionName(key: string): (p: string)
    ensures p == Without(key, '_')
    ensures '_' !in p && |p| <= |key|
  {
    RemoveAllChar(key, '_');
    RemoveAll(key, "_")
  }

  /** a is b with some elements left out, the rest in their order. */
  ghost predicate Subsequence(a: seq<string>, b: seq<string>)
    decreases |b|
  {
    if a == [] then true
    else if b == [] then false
    else (a[0] == b[0] && Subsequence(a[1..], b[1..])) || Subsequence(a, b[1..])
  }

  /** Keep the worlds, in order, whose lower-cased name is in names. */
  function SelectWorlds(worlds: seq<string>, names: set<string>): (r: seq<string>)
    ensures |r| <= |worlds| && Subsequence(r, worlds)
    ensures forall w :: w in r <==> w in worlds && Lower(w) in names
  {
    if worlds == [] then []
    else
      var rest := SelectWorlds(worlds[1..], names);
      if Lower(worlds[0]) in names then
        assert ([worlds[0]] + rest)[1..] == rest;
        [worlds[0]] + rest
      else
        assert [] + rest == rest;
        rest
  }

  function LowerNames(worlds: seq<string>): (r: seq<string>)
    ensures |r| == |worlds| && forall i :: 0 <= i < |worlds| ==> r[i] == Lower(worlds[i])
  {
    seq(|worlds|, i requires 0 <= i < |worlds| => Lower(worlds[i]))
  }

  /** getDisabledWorlds as the source has it: the configured names whose
      lower-cased form names an existing world are kept as configured, and a
      world is returned when its lower-cased name is among those kept. */
  function DisabledWorldsAsWritten(disabled: set<string>, worlds: seq<string>): (r: seq<string>)
    ensures Subsequence(r, worlds)
    ensures forall w :: w in r <==> w in worlds && Lower(w) in disabled
  {
    var worldNames := LowerNames(worlds);
    var existing := set d | d in disabled && Lower(d) in worldNames;
    forall w | w in worlds ensures Lower(w) in existing <==> Lower(w) in disabled {
      var i :| 0 <= i < |worlds| && worlds[i] == w;
      assert worldNames[i] == Lower(w);
      LowerTwice(w);
    }
    SelectWorlds(worlds, existing)
  }

  /** The case-insensitive filter the source evidently intends: the kept
      names are lower-cased before the worlds are matched against them. */
  function DisabledWorlds(disabled: set<string>, worlds: seq<string>): (r: seq<string>)
    ensures Subsequence(r, worlds)
    ensures forall w :: w in r <==> w in worlds && exists d :: d in disabled && Lower(d) == Lower(w)
  {
    var worldNames := LowerNames(worlds);
    var existing := set d | d in disabled && Lower(d) in worldNames :: Lower(d);
    assert forall w :: w in worlds ==> Lower(w) in worldNames by {
      forall w | w in worlds ensures Lower(w) in worldNames {
        var i :| 0 <= i < |worlds| && worlds[i] == w;
        assert worldNames[i] == Lower(w);
      }
    }
    SelectWorlds(worlds, existing)
  }

  /** A disabled world configured with a capital letter is never reported by
      the source's filter, though the intended filter reports it. */
  lemma DisabledWorldsCaseCounterexample()
    ensures DisabledWorldsAsWritten({"World"}, ["World"]) == []
    ensures DisabledWorlds({"World"}, ["World"]) == ["World"]
  {
    assert Lower("World") == "world";
    assert "World" != "world";
    assert LowerNames(["World"]) == ["world"] by {
      assert LowerNames(["World"])[0] == Lower("World");
    }
    var existing := set d | d in {"World"} && Lower(d) in LowerNames(["World"]);
    assert "World" in existing;
    assert existing == {"World"};
    assert SelectWorlds(["World"], existing) == [] by {
      assert ["World"][1..] == [];
    }
    var fixed := set d | d in {"World"} && Lower(d) in LowerNames(["World"]) :: Lower(d);
    assert fixed == {"world"};
    assert SelectWorlds(["World"], fixed) == ["World"] by {
      assert ["World"][1..] == [];
    }
  }

  /** When every configured name is already lower case the source's filter
      gives the intended result. */
  lemma DisabledWorldsAgreeOnLowerCase(disabled: set<string>, worlds: seq<string>)
    requires forall d :: d in disabled ==> Lower(d) == d
    ensures DisabledWorldsAsWritten(disabled, worlds) == DisabledWorlds(disabled, worlds)
  {
    var worldNames := LowerNames(worlds);
    var a := set d | d in disabled && Lower(d) in worldNames;
    var b := set d | d in disabled && Lower(d) in worldNames :: Lower(d);
    assert a == b;
  }

  lemma SharedElement<T>(a: set<T>, b: set<T>)
    ensures a * b != {} <==> exists c :: c in a && c in b
  {
    if exists c :: c in a && c in b {
      var c :| c in a && c in b;
      assert c in a * b;
    }
  }

  class EcoEnchant {
    const key: NamespacedKey
    const permissionName: string
    const etype: EnchantmentType
    var name: string
    var description: string
    var grindstoneable: bool
    var canGetFromTable: bool
    var canGetFromVillager: bool
    var canGetFromLoot: bool
    var maxLvl: int
    var conflicts: set<NamespacedKey>
    var rarity: Option<Rarity>
    var target: set<Target>
    var targetMaterials: set<Material>
    var disabledWorldNames: set<string>
    var enabled: bool

    /** Every reloadable field holds what cfg says, with the source's defaults
        for absent paths: false for the flags, 1 for the maximum level, true
        for enabled. */
    ghost predicate Loaded(cfg: EnchantmentConfig)
      reads this
    {
      ScalarsLoaded(cfg) && SetsLoaded(cfg)
    }

    ghost predicate ScalarsLoaded(cfg: EnchantmentConfig)
      reads this`name, this`description, this`rarity, this`conflicts, this`grindstoneable,
            this`canGetFromTable, this`canGetFromVillager, this`canGetFromLoot, this`maxLvl, this`enabled
    {
      && name == cfg.name
      && description == cfg.description
      && rarity == cfg.rarity
      && conflicts == cfg.conflicts
      && grindstoneable == ValueOr(cfg.grindstoneable, false)
      && canGetFromTable == ValueOr(cfg.table, false)
      && canGetFromVillager == ValueOr(cfg.villager, false)
      && canGetFromLoot == ValueOr(cfg.loot, false)
      && maxLvl == ValueOr(cfg.maximumLevel, 1)
      && enabled == ValueOr(cfg.enabled, true)
    }

    /** The three sets hold this load's values and nothing of an earlier one:
        the disabled worlds and target groups as configured, and exactly the
        materials of those groups. */
    ghost predicate SetsLoaded(cfg: EnchantmentConfig)
      reads this`disabledWorldNames, this`target, this`targetMaterials
    {
      && disabledWorldNames == (set w | w in cfg.disabledInWorlds)
      && target == cfg.targets
      && targetMaterials == MaterialsOf(cfg.targets)
    }

    /** The fields as Java leaves them when the prerequisites are not met
        (the empty name stands for null). */
    ghost predicate Blank()
      reads this
    {
      && name == "" && description == "" && rarity == None && conflicts == {}
      && !grindstoneable && !canGetFromTable && !canGetFromVillager && !canGetFromLoot
      && maxLvl == 0 && target == {} && targetMaterials == {} && disabledWorldNames == {} && !enabled
    }

    /** How the host's table sees this enchantment. */
    function Handle(types: TypeRegistry): (h: Enchantment)
      reads this
      ensures h.key == key && h.name == name && (h.cursed <==> etype == types.curse)
    {
      Enchantment(key, name, IsCursed(types))
    }

    /** Only with every prerequisite met is the enchantment loaded from its
        config and filed in the directory. */
    constructor (key: string, etype: EnchantmentType, prerequisitesMet: bool, cfg: EnchantmentConfig,
                 types: TypeRegistry, host: HostRegistry, dir: Directory)
      requires dir.Valid()
      modifies host, dir
      ensures this.key == Minecraft(key) && permissionName == PermissionName(key) && this.etype == etype
      ensures dir.Valid()
      ensures prerequisitesMet ==> Loaded(cfg)
      ensures prerequisitesMet ==> host.Current() == Republish(old(host.Current()), Handle(types), host.shape)
      ensures prerequisitesMet ==> dir.byKey == old(dir.byKey)[this.key := this]
      ensures !prerequisitesMet ==> Blank() && unchanged(host) && unchanged(dir)
    {
      this.key := Minecraft(key);
      this.etype := etype;
      permissionName := PermissionName(key);
      name, description, rarity, conflicts := "", "", None, {};
      grindstoneable, canGetFromTable, canGetFromVillager, canGetFromLoot := false, false, false, false;
      maxLvl, target, targetMaterials, disabledWorldNames, enabled := 0, {}, {}, {}, false;
      new;
      if prerequisitesMet {
        Update(cfg, types, host);
        dir.AddNewEcoEnchant(this);
      }
    }

    /** update(): reload every field from cfg, replacing the old sets rather
        than adding to them, then re-publish into the host's table. */
    method Update(cfg: EnchantmentConfig, types: TypeRegistry, host: HostRegistry)
      modifies this, host
      ensures Loaded(cfg)
      ensures host.Current() == Republish(old(host.Current()), Handle(types), host.shape)
      ensures Indexed(old(host.Current())) ==> Indexed(host.Current())
    {
      Load(cfg);
      Register(types, host);
    }

    /** The field assignments of update(). In the source the sets are
        refilled between the scalar fields and enabled; no assignment reads
        another field, so the order is immaterial. */
    method Load(cfg: EnchantmentConfig)
      modifies this
      ensures Loaded(cfg)
    {
      LoadScalars(cfg);
      ReloadSets(cfg);
    }

    method LoadScalars(cfg: EnchantmentConfig)
      modifies this`name, this`description, this`rarity, this`conflicts, this`grindstoneable,
               this`canGetFromTable, this`canGetFromVillager, this`canGetFromLoot, this`maxLvl, this`enabled
      ensures ScalarsLoaded(cfg)
    {
      rarity := cfg.rarity;
      conflicts := cfg.conflicts;
      grindstoneable := ValueOr(cfg.grindstoneable, false);
      canGetFromTable := ValueOr(cfg.table, false);
      canGetFromVillager := ValueOr(cfg.villager, false);
      canGetFromLoot := ValueOr(cfg.loot, false);
      maxLvl := ValueOr(cfg.maximumLevel, 1);
      name := cfg.name;
      description := cfg.description;
      enabled := ValueOr(cfg.enabled, true);
    }

    /** Clear each set, then refill it: the disabled worlds and the target
        groups as configured and, group by group, the groups' materials. */
    method ReloadSets(cfg: EnchantmentConfig)
      modifies this`disabledWorldNames, this`target, this`targetMaterials
      ensures SetsLoaded(cfg)
    {
      disabledWorldNames := {};
      disabledWorldNames := disabledWorldNames + set w | w in cfg.disabledInWorlds;
      target := {};
      targetMaterials := {};
      target := target + cfg.targets;
      var pending := target;
      while pending != {}
        modifies this`targetMaterials
        invariant pending <= target
        invariant targetMaterials == MaterialsOf(target - pending)
        decreases pending
      {
        var t :| t in pending;
        MaterialsOfAdd(target - pending, t);
        assert (target - pending) + {t} == target - (pending - {t});
        targetMaterials := targetMaterials + t.materials;
        pending := pending - {t};
      }
      assert target - {} == target;
    }

    /** register(): with both maps found, evict this key and this name, and
        every name bound to this key (scanning a copy of the name map while
        removing from the map itself); then open the guard and insert. A
        missing field ends the rewrite silently. */
    method Register(types: TypeRegistry, host: HostRegistry)
      modifies host
      ensures host.Current() == Republish(old(host.Current()), Handle(types), host.shape)
      ensures Indexed(old(host.Current())) ==> Indexed(host.Current())
    {
      if Indexed(host.Current()) {
        RepublishIndexed(host.Current(), Handle(types), host.shape);
      }
      if !(host.shape.hasByKey && host.shape.hasByName) {
        return;
      }
      var h := Handle(types);
      Evict(host, key, h.name);
      if !host.shape.hasAcceptingNew {
        return;
      }
      host.acceptingNew := true;
      host.RegisterEnchantment(h);
    }

    /** The removals of register(): the key, the name, then every name bound
        to the key. */
    static method Evict(host: HostRegistry, k: NamespacedKey, name: string)
      modifies host`byKey, host`byName
      ensures host.byKey == old(host.byKey) - {k}
      ensures host.byName == EvictIdentity(old(host.byName), k, name)
    {
      host.byKey := host.byKey - {k};
      host.byName := host.byName - {name};
      DropNamesOf(host, k);
    }

    /** The scan of register(): walk a copy of the name map and remove from
        the map itself every name bound to an enchantment with key k. */
    static method DropNamesOf(host: HostRegistry, k: NamespacedKey)
      modifies host`byName
      ensures host.byName == map n | n in old(host.byName) && old(host.byName)[n].key != k :: old(host.byName)[n]
    {
      var clone := host.byName;
      var pending := clone.Keys;
      while pending != {}
        invariant pending <= clone.Keys
        invariant forall n :: n in host.byName <==> n in clone && (n in pending || clone[n].key != k)
        invariant forall n :: n in host.byName ==> host.byName[n] == clone[n]
        decreases pending
      {
        var n :| n in pending;
        if clone[n].key == k {
          host.byName := host.byName - {n};
        }
        pending := pending - {n};
      }
    }

    function ConflictsWith(e: NamespacedKey): (r: bool)
      reads this
      ensures r <==> e in conflicts
    {
      e in conflicts
    }

    /** Whether any of es is among this enchantment's conflicts. Only this
        enchantment's own list is consulted. */
    function ConflictsWithAny(es: set<NamespacedKey>): (r: bool)
      reads this
      ensures r <==> conflicts * es != {}
      ensures r <==> exists e :: e in es && ConflictsWith(e)
    {
      SharedElement(conflicts, es);
      exists c :: c in conflicts && c in es
    }

    /** Books always take the enchantment; any other material only when a
        target group lists it. */
    function CanEnchantItem(m: Material): (r: bool)
      reads this
      ensures IsBook(m) ==> r
      ensures !IsBook(m) ==> (r <==> m in targetMaterials)
    {
      m in targetMaterials || m == BOOK || m == ENCHANTED_BOOK
    }

    function IsCursed(types: TypeRegistry): (r: bool)
      ensures r <==> etype == types.curse
    {
      etype == types.curse
    }

    /** The description wrapped at width: lines that fit, with nothing but
        whitespace lost. */
    function GetDescription(width: nat): (lines: seq<string>)
      reads this
      ensures lines != []
      ensures Join(lines, " ") == Join(Words(description), " ")
      ensures forall i :: 0 <= i < |lines| ==> |lines[i]| <= width || ' ' !in lines[i]
    {
      WrapRoundTrip(description, width);
      WrapWidth(description, width);
      Wrap(description, width)
    }

    /** The worlds, in the host's order, whose name matches a configured
        disabled world regardless of case. */
    function GetDisabledWorlds(worlds: seq<string>): (r: seq<string>)
      reads this
      ensures Subsequence(r, worlds)
      ensures forall w :: w in r <==> w in worlds && exists d :: d in disabledWorldNames && Lower(d) == Lower(w)
    {
      DisabledWorlds(disabledWorldNames, worlds)
    }
  }

  /** After a reload the enchantment applies to books and to exactly the
      materials of the freshly configured targets; nothing of an earlier
      load survives. */
  lemma ReloadedTargets(e: EcoEnchant, cfg: EnchantmentConfig, m: Material)
    requires e.Loaded(cfg)
    ensures e.CanEnchantItem(m) <==> IsBook(m) || exists t :: t in cfg.targets && m in t.materials
  {
  }

  /** The process-wide index of every loaded EcoEnchant, by key. */
  class Directory {
    var byKey: map<NamespacedKey, EcoEnchant>

    ghost predicate Valid()
      reads this
    {
      forall k :: k in byKey ==> byKey[k].key == k
    }

    constructor ()
      ensures byKey == map[] && Valid()
    {
      byKey := map[];
    }

    method AddNewEcoEnchant(e: EcoEnchant)
      requires Valid()
      modifies this
      ensures Valid() && byKey == old(byKey)[e.key := e]
    {
      byKey := byKey[e.key := e];
    }
  }

}

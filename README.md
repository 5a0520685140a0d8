# EcoEnchants registry and display cache

A model of two parts of the EcoEnchants plugin for Minecraft servers.

- **Enchantment definition and registration** (`EcoEnchant`). Each custom enchantment reloads its
  fields from its config in place. It then re-publishes itself into the server's own enchantment
  table: the static `byKey` and `byName` maps and the `acceptingNew` guard, which `register()`
  reaches by reflection. The member predicates (`conflictsWith`, `conflictsWithAny`,
  `canEnchantItem`, `isCursed`) and the disabled-world filter are included. So is the nested
  `EnchantmentType` registry. Each type stores the colour and singularity it last computed from
  the configuration.
- **Display cache** (`EnchantmentCache`). `update()` empties the cache and renders one
  `CacheEntry` per server enchantment. Each entry gets a coloured name, description lines with a
  prefix, a plain-text description and a type. `getEntry` looks an entry up by key name. When
  nothing matches, it builds a stand-in entry.

Modules, in dependency order:

- `Base` (`base.dfy`): keys, the server's view of an enchantment, materials, and Java's `null` strings.
- `Text` (`text.dfy`): literal `replaceAll`, line flattening, joining, and the word wrapper.
- `EnchantmentTypes` (`enchantment_type.dfy`): the `EnchantmentType` class and the static list of types.
- `Host` (`host.dfy`): the server's enchantment table as a class, with the re-publishing rewrite as a function on its value.
- `EcoEnchants` (`eco_enchant.dfy`): the `EcoEnchant` class, the world filter, and the directory of loaded enchantments.
- `Display` (`enchantment_cache.dfy`): `CacheEntry`, the rendering rules, and the `EnchantmentCache` class.

How Java constructs are modelled:

- The config and the lang file are inputs. `EnchantmentConfig` holds the values `update()` reads. `Snapshot` holds the strings and booleans the type rules and the cache read.
- A lang string that may be `null` is an `Option`. `JavaString` renders `None` as `"null"`, as `String.valueOf` and string concatenation do.
- The type callables are data (`ColorRule`, `SingularRule`), evaluated against a `Snapshot`.
- The cache's `HashSet` is a sequence in the server's enchantment order.
- `update()` of the cache reads the directory and the two types through a snapshot (`View`) taken when it starts. Nothing in the loop writes what it reads, so reading once gives the same values.

## Model

| member | source | states |
|---|---|---|
| Base.Minecraft | Plugin/src/main/java/com/willfp/ecoenchants/enchantments/EcoEnchant.java:82 | The enchantment's key keeps the given name and lives in the `minecraft` namespace. |
| EcoEnchants.PermissionName | Plugin/src/main/java/com/willfp/ecoenchants/enchantments/EcoEnchant.java:85 | The permission name is the key with every underscore deleted and nothing else changed (it equals `Without(key, '_')`). No underscore remains, and it is no longer than the key. |
| Text.RemoveAllChar | Plugin/src/main/java/com/willfp/ecoenchants/enchantments/EcoEnchant.java:85 | Left-to-right removal of a one-character pattern agrees with the reference definition `Without`. |
| EcoEnchants.EcoEnchant.constructor | Plugin/src/main/java/com/willfp/ecoenchants/enchantments/EcoEnchant.java:81-104 | The key, permission name and type are always set. With the prerequisites met, the enchantment is loaded from its config, re-published into the server's table and filed in the directory under its key. Otherwise the reloadable fields hold their blank values (Java's defaults, with `null` strings and a `null` conflict set as empty), and the table and the directory are unchanged. |
| EcoEnchants.Directory.AddNewEcoEnchant | Plugin/src/main/java/com/willfp/ecoenchants/enchantments/EcoEnchant.java:103 | The directory files the enchantment under its key and stays indexed by key. |
| EcoEnchants.EcoEnchant.Update | Plugin/src/main/java/com/willfp/ecoenchants/enchantments/EcoEnchant.java:110-131 | Every reloadable field holds this load's value, with defaults for absent paths. The server's table is then the re-published table, and a table indexed before stays indexed. |
| EcoEnchants.EcoEnchant.Load | Plugin/src/main/java/com/willfp/ecoenchants/enchantments/EcoEnchant.java:112-127 | All field assignments of `update()` together establish `Loaded(cfg)`. |
| EcoEnchants.EcoEnchant.LoadScalars | Plugin/src/main/java/com/willfp/ecoenchants/enchantments/EcoEnchant.java:112-127 | The scalar fields hold the config's values. Absent flags are false, an absent maximum level is 1, and an absent `enabled` is true. |
| EcoEnchants.ValueOr | Plugin/src/main/java/com/willfp/ecoenchants/enchantments/EcoEnchant.java:114-127 | An absent config value gives the default, and a present one gives its value. |
| EcoEnchants.MaterialsOf | Plugin/src/main/java/com/willfp/ecoenchants/enchantments/EcoEnchant.java:126 | A material is included exactly when some target group lists it. |
| EcoEnchants.DisabledWorldsAsWritten | Plugin/src/main/java/com/willfp/ecoenchants/enchantments/EcoEnchant.java:307-311 | As written, a world is returned exactly when its lower-cased name is itself one of the configured names, case included. The result keeps the world order. |
| EcoEnchants.EcoEnchant.ReloadSets | Plugin/src/main/java/com/willfp/ecoenchants/enchantments/EcoEnchant.java:121-126 | The disabled worlds and the targets are exactly the configured ones. The target materials are exactly the union of the targets' materials. Nothing of an earlier load survives. |
| EcoEnchants.ReloadedTargets | Plugin/src/main/java/com/willfp/ecoenchants/enchantments/EcoEnchant.java:123-126 | After a reload, a material is accepted exactly when it is a book or belongs to a freshly configured target. |
| EcoEnchants.EcoEnchant.Register | Plugin/src/main/java/com/willfp/ecoenchants/enchantments/EcoEnchant.java:138-164 | The table becomes `Republish(old table, this enchantment, which fields exist)`. An indexed table stays indexed. A missing field ends the rewrite without an error. |
| EcoEnchants.EcoEnchant.DropNamesOf | Plugin/src/main/java/com/willfp/ecoenchants/enchantments/EcoEnchant.java:149-154 | Scanning a copy of the name map removes exactly the names bound to an enchantment with this key. Every other binding is kept. |
| Host.Insert | Plugin/src/main/java/com/willfp/ecoenchants/enchantments/EcoEnchant.java:161 | The enchantment is bound under its key and its name, and the guard is untouched. |
| Host.EvictIdentity | Plugin/src/main/java/com/willfp/ecoenchants/enchantments/EcoEnchant.java:147-154 | A name stays bound exactly when it is not this enchantment's name and its enchantment has another key. Kept names keep their enchantments. |
| Host.Republish | Plugin/src/main/java/com/willfp/ecoenchants/enchantments/EcoEnchant.java:138-164 | If either map is missing, the table is untouched. Otherwise the key and the name end up bound exactly when the guard field exists. The guard is open afterwards exactly when it was open before or every field was found. |
| EcoEnchants.EcoEnchant.Evict | Plugin/src/main/java/com/willfp/ecoenchants/enchantments/EcoEnchant.java:146-154 | The key is removed from the key map, and the name map becomes the evicted map: neither the name nor any name bound to the key is left. |
| Host.HostRegistry.RegisterEnchantment | Plugin/src/main/java/com/willfp/ecoenchants/enchantments/EcoEnchant.java:161 | It may only be called with the key and the name free and registrations open. It then binds the enchantment under both. |
| Host.EvictionFreesSlot | Plugin/src/main/java/com/willfp/ecoenchants/enchantments/EcoEnchant.java:146-154 | After the eviction, the key and the name are free and no name is bound to the key. This is the server's insert precondition. |
| Host.RepublishBinds | Plugin/src/main/java/com/willfp/ecoenchants/enchantments/EcoEnchant.java:146-161 | With every field found, the enchantment is bound under its key and its name, and registrations are open. No other name reaches its key. |
| Host.RepublishOrphans | Plugin/src/main/java/com/willfp/ecoenchants/enchantments/EcoEnchant.java:156-163 | When the guard field is missing, the old bindings are still evicted, the enchantment is not re-inserted, and the guard is untouched. |
| Host.RepublishKeepsOthers | Plugin/src/main/java/com/willfp/ecoenchants/enchantments/EcoEnchant.java:146-154 | Bindings of other keys are untouched. The one exception is the binding under this enchantment's name. No binding appears except this enchantment's own. |
| Host.RepublishIndexed | Plugin/src/main/java/com/willfp/ecoenchants/enchantments/EcoEnchant.java:138-164 | Re-publishing keeps the table indexed. Each binding sits under its own key or name, and each name binding is backed by a key binding. |
| Host.RepublishIdempotent | Plugin/src/main/java/com/willfp/ecoenchants/enchantments/EcoEnchant.java:138-164 | Re-publishing twice gives the same table as re-publishing once, so repeated reloads do not pile up bindings. |
| Host.IndexedIdentitiesUnique | Plugin/src/main/java/com/willfp/ecoenchants/enchantments/EcoEnchant.java:150-153 | In an indexed table, two names bound to the same key are the same name. |
| EcoEnchants.EcoEnchant.ConflictsWith | Plugin/src/main/java/com/willfp/ecoenchants/enchantments/EcoEnchant.java:381-384 | True exactly when the key is in this enchantment's conflicts. |
| EcoEnchants.EcoEnchant.ConflictsWithAny | Plugin/src/main/java/com/willfp/ecoenchants/enchantments/EcoEnchant.java:262-264 | True exactly when the conflicts and the given set intersect. Equivalently, some given enchantment conflicts with this one by this enchantment's own list. |
| EcoEnchants.EcoEnchant.CanEnchantItem | Plugin/src/main/java/com/willfp/ecoenchants/enchantments/EcoEnchant.java:393-395 | Books and enchanted books are always accepted. Any other material is accepted exactly when it is a target material. |
| EcoEnchants.EcoEnchant.IsCursed | Plugin/src/main/java/com/willfp/ecoenchants/enchantments/EcoEnchant.java:371-373 | True exactly when the type is the curse type. |
| EcoEnchants.EcoEnchant.Handle | Plugin/src/main/java/com/willfp/ecoenchants/enchantments/EcoEnchant.java:371-373 | The server sees this enchantment's key and name, and sees it as cursed exactly when its type is the curse type. |
| EcoEnchants.EcoEnchant.GetDescription | Plugin/src/main/java/com/willfp/ecoenchants/enchantments/EcoEnchant.java:216-218 | There is at least one line. Joined by spaces, the lines give the description's words joined by spaces. Every line fits the width unless it is a single longer word. |
| Text.Wrap | Plugin/src/main/java/com/willfp/ecoenchants/enchantments/EcoEnchant.java:217 | Wrapping always gives at least one line, even for a text without words. |
| Text.WrapRoundTrip | Plugin/src/main/java/com/willfp/ecoenchants/enchantments/EcoEnchant.java:217 | Wrapping loses only whitespace: the lines joined by single spaces equal the words joined by single spaces. |
| Text.WrapWidth | Plugin/src/main/java/com/willfp/ecoenchants/enchantments/EcoEnchant.java:217 | Every wrapped line fits the width, unless it is one word longer than the width (long words are not broken). |
| Text.WordsKeepText | Plugin/src/main/java/com/willfp/ecoenchants/enchantments/EcoEnchant.java:217 | Laid end to end, the words are the text's non-space characters in order. |
| Text.WrapAvoid | Plugin/src/main/java/com/willfp/ecoenchants/display/EnchantmentCache.java:40-44 | A non-space character absent from the text is absent from every wrapped line. |
| EcoEnchants.EcoEnchant.GetDisabledWorlds | Plugin/src/main/java/com/willfp/ecoenchants/enchantments/EcoEnchant.java:307-311 | The intended filter: a world is returned exactly when its name matches a configured disabled world in any case. The result keeps the server's world order (a subsequence of the worlds). |
| EcoEnchants.DisabledWorlds | Plugin/src/main/java/com/willfp/ecoenchants/enchantments/EcoEnchant.java:307-311 | The same iff, on a set of configured names and the server's world list. |
| EcoEnchants.DisabledWorldsCaseCounterexample | Plugin/src/main/java/com/willfp/ecoenchants/enchantments/EcoEnchant.java:309-310 | As written, the filter drops a world configured with a capital letter ("World"). The intended filter returns it. |
| EcoEnchants.DisabledWorldsAgreeOnLowerCase | Plugin/src/main/java/com/willfp/ecoenchants/enchantments/EcoEnchant.java:307-311 | When every configured name is already lower case, the filter as written and the intended filter agree. |
| EcoEnchants.SelectWorlds | Plugin/src/main/java/com/willfp/ecoenchants/enchantments/EcoEnchant.java:310 | A world is kept exactly when its lower-cased name is among the kept names. The result is a subsequence of the worlds, in their order. |
| Base.Lower | Plugin/src/main/java/com/willfp/ecoenchants/enchantments/EcoEnchant.java:308-310 | Lower-casing keeps the length and lower-cases each character on its own. |
| Base.LowerTwice | Plugin/src/main/java/com/willfp/ecoenchants/enchantments/EcoEnchant.java:309-310 | Lower-casing twice is the same as lower-casing once. |
| EcoEnchants.LowerNames | Plugin/src/main/java/com/willfp/ecoenchants/enchantments/EcoEnchant.java:308 | Each world name is lower-cased, and positions are kept. |
| EnchantmentTypes.EnchantmentType.constructor | Plugin/src/main/java/com/willfp/ecoenchants/enchantments/EcoEnchant.java:421-452 | The name and both rules are stored, and the colour and singularity are what the rules give under the current configuration. |
| EnchantmentTypes.EnchantmentType.Refresh | Plugin/src/main/java/com/willfp/ecoenchants/enchantments/EcoEnchant.java:454-457 | The colour and singularity are again what the rules give under the new configuration. |
| EnchantmentTypes.EvalColor | Plugin/src/main/java/com/willfp/ecoenchants/enchantments/EcoEnchant.java:400-404 | A colour rule gives `null` exactly when it is a lang lookup whose path is absent. A lookup whose path is present gives the stored string. |
| EnchantmentTypes.EvalSingular | Plugin/src/main/java/com/willfp/ecoenchants/enchantments/EcoEnchant.java:402-403 | A configured singularity holds exactly when its flag is absent or false. |
| EnchantmentTypes.FixedRulesIgnoreSnapshot | Plugin/src/main/java/com/willfp/ecoenchants/enchantments/EcoEnchant.java:421-436 | A fixed colour or singularity gives the same value under every configuration, so refreshing does not change it. |
| EnchantmentTypes.DenyMultipleMeaning | Plugin/src/main/java/com/willfp/ecoenchants/enchantments/EcoEnchant.java:402-403 | The special and artifact types are singular exactly when multiples are not allowed. An absent flag makes them singular. |
| EnchantmentTypes.ConfigBool | Plugin/src/main/java/com/willfp/ecoenchants/enchantments/EcoEnchant.java:402-403 | A config boolean is true exactly when it is present and set. |
| EnchantmentTypes.LangString | Plugin/src/main/java/com/willfp/ecoenchants/enchantments/EcoEnchant.java:400-404 | A lang lookup gives the stored string when the path exists, and `null` otherwise. |
| EnchantmentTypes.TypeRegistry.constructor | Plugin/src/main/java/com/willfp/ecoenchants/enchantments/EcoEnchant.java:398-404 | The five built-in types are listed in declaration order, with their names and rules, each resolved under the configuration. |
| EnchantmentTypes.TypeRegistry.NewType | Plugin/src/main/java/com/willfp/ecoenchants/enchantments/EcoEnchant.java:445-452 | A newly constructed type is appended to the list. The built-in prefix and the absence of duplicates are kept. |
| EnchantmentTypes.TypeRegistry.Update | Plugin/src/main/java/com/willfp/ecoenchants/enchantments/EcoEnchant.java:471-473 | Every listed type is refreshed, and the list is neither extended nor shortened. |
| EnchantmentTypes.TypeRegistry.GetValues | Plugin/src/main/java/com/willfp/ecoenchants/enchantments/EcoEnchant.java:475-477 | The result holds the listed types in order, starting with the five built-in ones. It is a value, so later changes to it cannot reach the registry. |
| Display.EnchantmentCache.constructor | Plugin/src/main/java/com/willfp/ecoenchants/display/EnchantmentCache.java:15 | The cache starts empty. |
| Display.EnchantmentCache.GetEntry | Plugin/src/main/java/com/willfp/ecoenchants/display/EnchantmentCache.java:17-20 | When some cached entry's key has the same name, the result is the first such entry. Otherwise the stand-in is named by the prefix, the grey code and the key, is raw-named by the key, and has the one line "No Description Found" behind the prefix, with its own plain text, and the normal type. |
| Display.FindFirst | Plugin/src/main/java/com/willfp/ecoenchants/display/EnchantmentCache.java:18 | It gives the position of the first entry whose key has name k, and none exactly when no entry has it. |
| Display.FallbackPlainText | Plugin/src/main/java/com/willfp/ecoenchants/display/EnchantmentCache.java:19 | With the marker prefix and a two-character colour code, the stand-in's plain text is "No Description Found " (the sentence and one trailing space). |
| Display.EnchantmentCache.GetCache | Plugin/src/main/java/com/willfp/ecoenchants/display/EnchantmentCache.java:22-24 | The result holds the same entries as the cache, position by position. It is a value, so changes to it cannot reach the cache. |
| Display.EnchantmentCache.Update | Plugin/src/main/java/com/willfp/ecoenchants/display/EnchantmentCache.java:26-68 | Afterwards the cache is exactly one rendering per server enchantment, in order, from the state at the start of the call. No earlier entry survives. The warnings are exactly the key names of definitions with an unusable rarity, in order. |
| Display.KeyNamedIgnoresNamespace | Plugin/src/main/java/com/willfp/ecoenchants/display/EnchantmentCache.java:18 | Matching compares only the key's name: changing the namespace does not change which names an entry matches. |
| Display.LangPath | Plugin/src/main/java/com/willfp/ecoenchants/display/EnchantmentCache.java:41-46 | The path starts with `enchantments.` and ends with the field. Its length is that prefix, the key name, a dot and the field together. |
| Display.LangPathIgnoresCase | Plugin/src/main/java/com/willfp/ecoenchants/display/EnchantmentCache.java:41-46 | Two enchantments whose key names agree ignoring case read the same lang paths. |
| Display.SourceOf | Plugin/src/main/java/com/willfp/ecoenchants/display/EnchantmentCache.java:33-48 | An enchantment counts as one of the plugin's exactly when the directory has its key, and then it takes the definition's rarity and type. Any other enchantment is a curse exactly when the server marks it cursed and normal otherwise, with that type's colour. |
| Display.NameColor | Plugin/src/main/java/com/willfp/ecoenchants/display/EnchantmentCache.java:50-57 | The colour is the type's, or the rarity's own colour for a definition with a rarity. A curse, or an enchantment that is not the plugin's, always gets the type's colour. |
| Display.EntryOf | Plugin/src/main/java/com/willfp/ecoenchants/display/EnchantmentCache.java:29-66 | The entry belongs to the enchantment, carries the looked-up type and raw name, and its plain text is derived from its own description lines. |
| Display.StringDescription | Plugin/src/main/java/com/willfp/ecoenchants/display/EnchantmentCache.java:87-96 | The plain text is never longer than the built string of lines and spaces. What it is for rendered lines is stated by `Display.PlainDescription`. |
| Text.RemoveAll | Plugin/src/main/java/com/willfp/ecoenchants/display/EnchantmentCache.java:95-96 | Removing a pattern never lengthens the string. |
| Display.EntriesOfEach | Plugin/src/main/java/com/willfp/ecoenchants/display/EnchantmentCache.java:27-66 | The rendering has one entry per enchantment, and entry i is the one made for enchantment i. |
| Display.EntriesOfSnoc | Plugin/src/main/java/com/willfp/ecoenchants/display/EnchantmentCache.java:28-66 | Rendering one more enchantment appends exactly its entry. |
| Display.CachedLookup | Plugin/src/main/java/com/willfp/ecoenchants/display/EnchantmentCache.java:17-18 | After an update, a lookup by key name finds the entry made for the first enchantment with that key name. It finds nothing exactly when no enchantment has it. |
| Display.BuildEntry | Plugin/src/main/java/com/willfp/ecoenchants/display/EnchantmentCache.java:29-66 | The loop body gives exactly the entry the rendering rules define. It warns exactly when the enchantment is a definition with an unusable rarity. |
| Display.ViewOf | Plugin/src/main/java/com/willfp/ecoenchants/display/EnchantmentCache.java:33-53 | The snapshot has a definition for exactly the directory's keys, each read from the enchantment filed there. It also has the normal and curse types with their current colours. |
| Display.ForeignEntry | Plugin/src/main/java/com/willfp/ecoenchants/display/EnchantmentCache.java:38-50 | An enchantment without a definition takes its raw name from the lang file. Its type is the curse type exactly when the server marks it cursed, and the normal type otherwise. Its name is in that type's colour. |
| Display.DefinitionEntry | Plugin/src/main/java/com/willfp/ecoenchants/display/EnchantmentCache.java:33-64 | A definition supplies the raw name and type. The name takes the rarity's colour when the rarity exists and has its own colour and the type is not curse. Otherwise it takes the type's colour. |
| Display.InvalidRaritiesListed | Plugin/src/main/java/com/willfp/ecoenchants/display/EnchantmentCache.java:52-60 | A key name is warned about exactly when some enchantment with that name has a definition without a usable rarity. |
| Display.InvalidRarities | Plugin/src/main/java/com/willfp/ecoenchants/display/EnchantmentCache.java:58-60 | There is at most one warning per enchantment. |
| Display.EntryLines | Plugin/src/main/java/com/willfp/ecoenchants/display/EnchantmentCache.java:63-65 | There is one description line per wrapped line, and there is at least one line. Each line is the prefix, the description colour and the wrapped line. |
| Display.PrefixAll | Plugin/src/main/java/com/willfp/ecoenchants/display/EnchantmentCache.java:65 | Replacing in place leaves every line with the prefix in front and changes nothing else. |
| Display.Prefixed | Plugin/src/main/java/com/willfp/ecoenchants/display/EnchantmentCache.java:65 | Line for line, each result is the prefix followed by the original line. |
| Display.NewCacheEntry | Plugin/src/main/java/com/willfp/ecoenchants/display/EnchantmentCache.java:79-97 | The fields are stored as given. The builder loop yields the lines, each followed by a space, with the markers and then the description colour removed. |
| Text.FlattenIsJoin | Plugin/src/main/java/com/willfp/ecoenchants/display/EnchantmentCache.java:87-94 | The built string is the lines joined by single spaces, plus one trailing space. |
| Text.RemoveAllAbsent | Plugin/src/main/java/com/willfp/ecoenchants/display/EnchantmentCache.java:95-96 | Removal leaves a string without the pattern unchanged. |
| Text.RemoveAllSkip | Plugin/src/main/java/com/willfp/ecoenchants/display/EnchantmentCache.java:95-96 | A leading part without the pattern's first character is kept, and removal goes on behind it. |
| Display.StripPrefix | Plugin/src/main/java/com/willfp/ecoenchants/display/EnchantmentCache.java:96 | Removing the description colour from lines that each start with it gives back the bare lines, provided the colour's first character (the section sign) occurs in no line. |
| Display.StripMarker | Plugin/src/main/java/com/willfp/ecoenchants/display/EnchantmentCache.java:95 | Removing the marker from lines behind marker and a two-character colour code leaves the lines behind the colour code, provided no line contains a section sign. |
| Display.PlainDescription | Plugin/src/main/java/com/willfp/ecoenchants/display/EnchantmentCache.java:87-96 | For lines rendered behind the marker and a two-character colour code, the plain text is the bare lines, each followed by a space, provided no line contains a section sign. |
| Display.PlainLine | Plugin/src/main/java/com/willfp/ecoenchants/display/EnchantmentCache.java:87-96 | A single line without section signs behind the marker alone comes back as the line and a space, with a two-character colour code. |
| Display.EntryPlainText | Plugin/src/main/java/com/willfp/ecoenchants/display/EnchantmentCache.java:87-96 | With the marker prefix, a two-character colour code and a text without section signs, an entry's plain text is the words of its text separated by single spaces, with one trailing space. |

## Left out

- Permission creation, `EnchantmentUtils.registerPlaceholders`, `loadFromLang` and the config and lang loading. These are server and file I/O, so config values are inputs.
- `StringUtils.translate` on the name and description: the translated strings are taken as given.
- The reflection in `register()`. The three static fields are plain state, and `Shape` says which fields the lookup finds. A missing field is modelled as the swallowed exception at the point of the lookup.
- `parallelStream` in the cache's `update()` runs as a sequential loop. Its unsynchronised `HashSet` adds are a race, and concurrency is not modelled.
- Display.EnchantmentCache.GetEntry: `findFirst` over a `HashSet` picks an unspecified match. The model keeps the cache as a sequence in server order and picks the first match. It also does not merge two entries that are equal objects.
- `Logger.warn`: the warnings are returned as the list of key names, without the message text.
- Text.Wrap: a greedy stand-in for Apache `WordUtils.wrap` with `wrapLongWords=false`. It splits on spaces only. Other whitespace, and line breaks already in the text, are not treated specially. It also collapses runs of spaces into one and drops leading and trailing spaces, even where `WordUtils.wrap` would return a short text unchanged (`"a  b"` at width 10 stays `"a  b"` there, and becomes `["a b"]` here).
- `Bukkit.getWorlds()`: the world names are a parameter.
- Only types made by `TypeRegistry` (its constructor and `NewType`) are listed and refreshed. In Java every `EnchantmentType` constructor appends to the list. The model's bare `EnchantmentType` constructor does not, and the `EcoEnchant` constructor accepts any type, including one the registry would never refresh.
- Base.Minecraft: any string is accepted as a key. Whatever key validation the server's `NamespacedKey.minecraft` performs (for example, a restricted character set) is not modelled.
- Base.Lower: only ASCII letters are lower-cased. `String.toLowerCase` also folds other scripts.
- `EcoEnchants.getFromEnchantment` and `EcoEnchants.addNewEcoEnchant` belong to `EcoEnchants.java`, which is not part of this model. The `Directory` class is a map by key with those two operations.
- `EnchantDisplay.PREFIX` and `EnchantDisplay.descriptionColor` come from a file that is not part of this model, so they are the `Style` parameter.
- Display.EntryPlainText: proved only when the prefix is the marker "§w", the description colour is a two-character colour code, and the text has no section sign. Translated descriptions may carry colour codes of their own, and then the plain text also loses every occurrence of the description colour inside the text, which the model does not describe. The model treats `descriptionColor` as a literal pattern, though `replaceAll` reads it as a regular expression.
- EcoEnchants.EcoEnchant.LoadScalars: the maximum level is the configured integer or 1. As in the code, it is not forced to be at least 1.
- EcoEnchants.EcoEnchant.ConflictsWith: conflicts are checked on this enchantment's own list only, as the code does. The relation is not made symmetric.
- EnchantmentTypes.EnchantmentType.Refresh: an absent lang colour becomes `null`, as in the code. The previous colour is not kept.
- A lookup of an enchantment type by name does not exist in the code and is not modelled.
- The wrap width from `lore.describe.wrap` is a natural number. A negative configured width is not modelled.
- The cache is cleared and then refilled, so a concurrent reader could see it half built. Readers that run concurrently with `update()` are not modelled.
- `Enchantment.values()` is the parameter `es`.
- EcoEnchants.EcoEnchant.constructor: when the prerequisites are not met, Java leaves `name`, `description` and `conflicts` as `null`. The model makes the two strings `""` and the conflicts the empty set. On such an object `conflictsWith` and `conflictsWithAny` throw a `NullPointerException` in Java, while the model answers false.
- `getTarget`, `getRawTargets`, `getConfig`, `getName`, `getMaxLevel`, `getStartLevel`, `getItemTarget`, `isTreasure` and the `EnchantmentType` getters just return a field or a constant, and are read as fields.

## Findings

| source | as written | input that shows it | evidently intended | confidence | as-written member | corrected member |
|---|---|---|---|---|---|---|
| Plugin/src/main/java/com/willfp/ecoenchants/enchantments/EcoEnchant.java:309-310 | The kept disabled names stay as configured. Line 310 compares each world's lower-cased name against them. | disabled worlds {"World"}, server worlds ["World"]: the result is empty | Lower-case the kept names too, so the match ignores case in both directions | not executed | EcoEnchants.DisabledWorldsCaseCounterexample | EcoEnchants.EcoEnchant.GetDisabledWorlds |

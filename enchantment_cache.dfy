/** The display cache: for every enchantment the host knows, the coloured
    name, the prefixed description lines, a plain-text description and the
    type that enchantment lore is rendered with. */
module Display {
  import opened Base
  import opened Text
  import opened EnchantmentTypes
  import opened EcoEnchants

  /** EnchantDisplay.PREFIX and EnchantDisplay.descriptionColor. */
  datatype Style = Style(prefix: string, descriptionColor: string)

  /** One cached rendering. */
  datatype CacheEntry = CacheEntry(
    enchantment: Enchantment,
    name: string,
    rawName: string,
    description: seq<string>,
    stringDescription: string,
    etype: EnchantmentType)

  /** The invisible marker colour code the display prefix is built from. */
  const MARKER: string := "\U{A7}w"

  /** The section sign that starts every colour code. */
  const SECTION: char := '\U{A7}'

  /** The plain-text description a CacheEntry keeps: the lines, each followed
      by a space, with every marker and every description colour code
      removed. */
  function StringDescription(lines: seq<string>, descriptionColor: string): (r: string)
    ensures |r| <= |Flatten(lines)|
  {
    RemoveAll(RemoveAll(Flatten(lines), MARKER), descriptionColor)
  }

  /** Every line with p put in front of it. */
  function Prefixed(lines: seq<string>, p: string): (r: seq<string>)
    ensures |r| == |lines| && forall i :: 0 <= i < |r| ==> r[i] == p + lines[i]
  {
    seq(|lines|, i requires 0 <= i < |lines| => p + lines[i])
  }

  lemma PrefixedCons(l: string, ls: seq<string>, p: string)
    ensures Prefixed([l] + ls, p) == [p + l] + Prefixed(ls, p)
  {
    assert Prefixed([l] + ls, p)[1..] == Prefixed(ls, p);
  }

  /** The CacheEntry constructor: the fields as given, and the plain-text
      description built by appending each line and a space. */
  method NewCacheEntry(e: Enchantment, name: string, rawName: string, lines: seq<string>,
                       t: EnchantmentType, descriptionColor: string) returns (c: CacheEntry)
    ensures c.enchantment == e && c.name == name && c.rawName == rawName
    ensures c.description == lines && c.etype == t
    ensures c.stringDescription == StringDescription(lines, descriptionColor)
  {
    var builder := "";
    var i := 0;
    while i < |lines|
      invariant 0 <= i <= |lines|
      invariant builder == Flatten(lines[..i])
    {
      assert lines[..i + 1][..i] == lines[..i];
      builder := builder + lines[i];
      builder := builder + " ";
      i := i + 1;
    }
    assert lines[..|lines|] == lines;
    var plain := RemoveAll(builder, MARKER);
    plain := RemoveAll(plain, descriptionColor);
    c := CacheEntry(e, name, rawName, lines, plain, t);
  }

  /** List.replaceAll on the fixed-size list of description lines: put p in
      front of every line, in place. */
  method PrefixAll(a: array<string>, p: string)
    modifies a
    ensures a[..] == Prefixed(old(a[..]), p)
  {
    var i := 0;
    while i < a.Length
      invariant 0 <= i <= a.Length
      invariant forall j :: 0 <= j < i ==> a[j] == p + old(a[j])
      invariant forall j :: i <= j < a.Length ==> a[j] == old(a[j])
    {
      a[i] := p + a[i];
      i := i + 1;
    }
  }

  /** Does the entry belong to an enchantment whose key has name k (the
      namespace is not compared)? */
  predicate KeyNamed(c: CacheEntry, k: string) {
    c.enchantment.key.key == k
  }

  /** Entries whose keys differ only in the namespace match the same names. */
  lemma KeyNamedIgnoresNamespace(c: CacheEntry, ns: string, k: string)
    ensures var moved := c.(enchantment := c.enchantment.(key := c.enchantment.key.(namespace := ns)));
      KeyNamed(moved, k) <==> KeyNamed(c, k)
  {
  }

  /** The position of the first entry whose key has name k. */
  function FindFirst(entries: seq<CacheEntry>, k: string): (r: Option<nat>)
    ensures r.Some? ==> r.value < |entries| && KeyNamed(entries[r.value], k)
    ensures r.Some? ==> forall j :: 0 <= j < r.value ==> !KeyNamed(entries[j], k)
    ensures r.None? <==> forall j :: 0 <= j < |entries| ==> !KeyNamed(entries[j], k)
    decreases |entries|
  {
    if entries == [] then None
    else if KeyNamed(entries[0], k) then Some(0)
    else
      var rest := FindFirst(entries[1..], k);
      if rest.Some? then Some(rest.value + 1) else None
  }

  /** The lang path of one of an enchantment's strings. */
  function LangPath(e: Enchantment, field: string): (p: string)
    ensures |p| == 14 + |e.key.key| + |field|
    ensures p[..13] == "enchantments." && p[|p| - |field|..] == field
  {
    "enchantments." + Lower(e.key.key) + "." + field
  }

  /** The lang path depends only on the key name, and ignores its case. */
  lemma LangPathIgnoresCase(e1: Enchantment, e2: Enchantment, field: string)
    requires Lower(e1.key.key) == Lower(e2.key.key)
    ensures LangPath(e1, field) == LangPath(e2, field)
  {
  }

  /** What rendering reads from one EcoEnchant: its name, description and
      rarity, its type, and that type's current colour. */
  datatype Definition = Definition(name: string, description: string, rarity: Option<Rarity>,
                                   etype: EnchantmentType, typeColor: Option<string>)

  /** What update() reads from the process: every definition by key, and the
      normal and curse types with their current colours. */
  datatype View = View(defs: map<NamespacedKey, Definition>,
                       normal: EnchantmentType, normalColor: Option<string>,
                       curse: EnchantmentType, curseColor: Option<string>)

  function DefinitionOf(d: EcoEnchant): Definition
    reads d, d.etype
  {
    Definition(d.name, d.description, d.rarity, d.etype, d.etype.color)
  }

  /** The snapshot of the directory and the types that update() renders. */
  function ViewOf(dir: Directory, types: TypeRegistry): (v: View)
    reads dir, dir.byKey.Values, (set d | d in dir.byKey.Values :: d.etype), types.normal, types.curse
    ensures v.defs.Keys == dir.byKey.Keys
    ensures forall k :: k in dir.byKey ==> v.defs[k] == DefinitionOf(dir.byKey[k])
    ensures v.normal == types.normal && v.curse == types.curse
  {
    View(map k | k in dir.byKey :: DefinitionOf(dir.byKey[k]),
         types.normal, types.normal.color, types.curse, types.curse.color)
  }

  /** Whether an enchantment is one of the plugin's and, when it is, the
      rarity its definition holds (None: the configured rarity is unknown). */
  datatype Origin = Foreign | Custom(rarity: Option<Rarity>)

  /** What update() looks up about one enchantment before rendering it: the
      uncoloured name, the text the description lines are wrapped from, the
      type and that type's colour. */
  datatype Source = Source(origin: Origin, rawName: string, text: string, etype: EnchantmentType, typeColor: Option<string>)

  /** The lookups: a definition supplies its name, description, rarity and
      type; any other enchantment takes its name and description from the
      lang file and is a curse or normal as the host marks it. */
  function SourceOf(e: Enchantment, v: View, s: Snapshot): (src: Source)
    ensures src.origin.Custom? <==> e.key in v.defs
    ensures e.key in v.defs ==> src.origin.rarity == v.defs[e.key].rarity && src.etype == v.defs[e.key].etype
    ensures e.key !in v.defs ==> (src.etype == v.curse || src.etype == v.normal)
    ensures e.key !in v.defs && !e.cursed ==> src.etype == v.normal && src.typeColor == v.normalColor
    ensures e.key !in v.defs && e.cursed ==> src.etype == v.curse && src.typeColor == v.curseColor
  {
    if e.key in v.defs then
      var d := v.defs[e.key];
      Source(Custom(d.rarity), d.name, d.description, d.etype, d.typeColor)
    else
      Source(Foreign, JavaString(LangString(s, LangPath(e, "name"))),
             JavaString(LangString(s, LangPath(e, "description"))),
             if e.cursed then v.curse else v.normal,
             if e.cursed then v.curseColor else v.normalColor)
  }

  /** The colour the name is rendered in: a rarity's own colour wins over the
      type's, except for curses. */
  function NameColor(src: Source, curse: EnchantmentType): (c: Option<string>)
    ensures src.etype == curse || src.origin.Foreign? ==> c == src.typeColor
    ensures c == src.typeColor || (src.origin.Custom? && src.origin.rarity.Some? && c == src.origin.rarity.value.customColor)
    ensures c != src.typeColor ==> c.Some?
  {
    if src.origin.Custom? && src.origin.rarity.Some? && src.origin.rarity.value.customColor.Some? && src.etype != curse
    then src.origin.rarity.value.customColor
    else src.typeColor
  }

  /** What update() caches for one enchantment. */
  function EntryOf(e: Enchantment, v: View, s: Snapshot, width: nat, style: Style): (c: CacheEntry)
    ensures c.enchantment == e && c.etype == SourceOf(e, v, s).etype && c.rawName == SourceOf(e, v, s).rawName
    ensures c.stringDescription == StringDescription(c.description, style.descriptionColor)
  {
    var src := SourceOf(e, v, s);
    var description := Prefixed(Wrap(src.text, width), style.prefix + style.descriptionColor);
    CacheEntry(e, JavaString(NameColor(src, v.curse)) + src.rawName, src.rawName, description,
               StringDescription(description, style.descriptionColor), src.etype)
  }

  /** What update() caches for the first n of the host's enchantments, in
      their order. */
  function EntriesOf(es: seq<Enchantment>, n: nat, v: View, s: Snapshot, width: nat, style: Style): (r: seq<CacheEntry>)
    requires n <= |es|
    ensures |r| == n
  {
    seq(n, i requires 0 <= i < n => EntryOf(es[i], v, s, width, style))
  }

  /** One entry per enchantment, in the host's order, each made for that
      enchantment. */
  lemma EntriesOfEach(es: seq<Enchantment>, v: View, s: Snapshot, width: nat, style: Style)
    ensures var r := EntriesOf(es, |es|, v, s, width, style);
      && |r| == |es|
      && forall i :: 0 <= i < |es| ==> r[i] == EntryOf(es[i], v, s, width, style) && r[i].enchantment == es[i]
  {
  }

  /** Rendering one more enchantment appends its entry. */
  lemma EntriesOfSnoc(es: seq<Enchantment>, n: nat, v: View, s: Snapshot, width: nat, style: Style)
    requires n < |es|
    ensures EntriesOf(es, n + 1, v, s, width, style) == EntriesOf(es, n, v, s, width, style) + [EntryOf(es[n], v, s, width, style)]
  {
    var longer := EntriesOf(es, n + 1, v, s, width, style);
    var shorter := EntriesOf(es, n, v, s, width, style);
    assert longer[..n] == shorter;
    assert longer == longer[..n] + [longer[n]];
  }

  /** A definition with an unusable rarity: update() warns about it. */
  predicate InvalidRarity(e: Enchantment, v: View) {
    e.key in v.defs && v.defs[e.key].rarity.None?
  }

  /** The key names update() warns about for the first n of the host's
      enchantments, in their order. */
  function InvalidRarities(es: seq<Enchantment>, n: nat, v: View): (r: seq<string>)
    requires n <= |es|
    ensures |r| <= n
  {
    if n == 0 then []
    else InvalidRarities(es, n - 1, v) + (if InvalidRarity(es[n - 1], v) then [es[n - 1].key.key] else [])
  }

  /** A key name is warned about exactly when some enchantment with that key
      name has a definition whose rarity is unusable. */
  lemma {:induction false} InvalidRaritiesListed(es: seq<Enchantment>, n: nat, v: View)
    requires n <= |es|
    ensures forall k :: k in InvalidRarities(es, n, v) <==>
              exists i :: 0 <= i < n && InvalidRarity(es[i], v) && es[i].key.key == k
  {
    if n > 0 {
      InvalidRaritiesListed(es, n - 1, v);
    }
  }

  /** An enchantment that is not one of the plugin's is rendered from the
      lang file, as a curse exactly when the host marks it cursed, in its
      type's colour. */
  lemma ForeignEntry(e: Enchantment, v: View, s: Snapshot, width: nat, style: Style)
    requires e.key !in v.defs && v.normal != v.curse
    ensures var c := EntryOf(e, v, s, width, style);
      && c.enchantment == e
      && (c.etype == v.curse <==> e.cursed)
      && (c.etype == v.normal <==> !e.cursed)
      && c.rawName == JavaString(LangString(s, LangPath(e, "name")))
      && c.name == JavaString(if e.cursed then v.curseColor else v.normalColor) + c.rawName
  {
  }

  /** A definition is rendered with its own name and type; its name takes the
      rarity's colour when the rarity has one and the type is not curse, and
      the type's colour otherwise. */
  lemma DefinitionEntry(e: Enchantment, v: View, s: Snapshot, width: nat, style: Style)
    requires e.key in v.defs
    ensures var d := v.defs[e.key];
      var c := EntryOf(e, v, s, width, style);
      && c.enchantment == e && c.rawName == d.name && c.etype == d.etype
      && (d.rarity.Some? && d.rarity.value.customColor.Some? && d.etype != v.curse ==>
            c.name == d.rarity.value.customColor.value + d.name)
      && (!(d.rarity.Some? && d.rarity.value.customColor.Some?) || d.etype == v.curse ==>
            c.name == JavaString(d.typeColor) + d.name)
  {
  }

  /** Every description line is a wrapped line of the text behind the
      display prefix and the description colour. */
  lemma EntryLines(e: Enchantment, v: View, s: Snapshot, width: nat, style: Style)
    ensures var c := EntryOf(e, v, s, width, style);
      var lines := Wrap(SourceOf(e, v, s).text, width);
      && |c.description| == |lines| > 0
      && forall i :: 0 <= i < |lines| ==> c.description[i] == style.prefix + style.descriptionColor + lines[i]
  {
  }

  /** A description colour the marker-stripping relies on: a section sign
      and one code character that is neither the marker's nor a section
      sign. */
  predicate ColorCode(dc: string) {
    |dc| == 2 && dc[0] == SECTION && dc[1] != 'w' && dc[1] != SECTION
  }

  /** A leading q is removed and the rest of the line is kept. */
  lemma StripStep(q: string, l: string, x: string)
    requires q != [] && q[0] != ' ' && q[0] !in l
    ensures RemoveAll((q + l) + " " + x, q) == (l + " ") + RemoveAll(x, q)
  {
    assert (q + l) + " " + x == q + ((l + " ") + x);
    RemoveAllLeading(q, (l + " ") + x);
    RemoveAllSkip(l + " ", x, q);
  }

  /** Lines that each start with q, whose first character occurs nowhere
      else, lose exactly those prefixes. */
  lemma {:induction false} StripPrefix(ls: seq<string>, q: string)
    requires q != [] && q[0] != ' '
    requires forall i :: 0 <= i < |ls| ==> q[0] !in ls[i]
    ensures RemoveAll(Flatten(Prefixed(ls, q)), q) == Flatten(ls)
    decreases |ls|
  {
    if ls == [] {
      assert Prefixed(ls, q) == [];
    } else {
      var l, rest := ls[0], ls[1..];
      assert ls == [l] + rest;
      PrefixedCons(l, rest, q);
      FlattenCons(q + l, Prefixed(rest, q));
      FlattenCons(l, rest);
      StripPrefix(rest, q);
      StripStep(q, l, Flatten(Prefixed(rest, q)));
    }
  }

  /** A colour code is not the marker and cannot start one, so the scan
      keeps it. */
  lemma CodeKept(dc: string, y: string)
    requires ColorCode(dc)
    ensures RemoveAll(dc + y, MARKER) == dc + RemoveAll(y, MARKER)
  {
    var t := dc + y;
    assert |MARKER| == 2 && MARKER[0] == SECTION && MARKER[1] == 'w';
    assert t[..2] != MARKER by { assert t[..2][1] == dc[1]; }
    assert t[1..] == [dc[1]] + y;
    RemoveAllSkip([dc[1]], y, MARKER);
    assert [t[0]] + ([dc[1]] + RemoveAll(y, MARKER)) == dc + RemoveAll(y, MARKER);
  }

  /** The marker in front of one line behind the colour code is removed,
      and the rest of that line is kept. */
  lemma MarkerStep(dc: string, l: string, x: string)
    requires ColorCode(dc) && SECTION !in l
    ensures RemoveAll(((MARKER + dc) + l) + " " + x, MARKER) == (dc + l) + " " + RemoveAll(x, MARKER)
  {
    var y := (l + " ") + x;
    assert ((MARKER + dc) + l) + " " + x == MARKER + (dc + y);
    RemoveAllLeading(MARKER, dc + y);
    CodeKept(dc, y);
    assert MARKER[0] == SECTION;
    RemoveAllSkip(l + " ", x, MARKER);
  }

  /** With the marker in front of the colour code, removing the markers
      leaves each line behind the colour code alone. */
  lemma {:induction false} StripMarker(ls: seq<string>, dc: string)
    requires ColorCode(dc)
    requires forall i :: 0 <= i < |ls| ==> SECTION !in ls[i]
    ensures RemoveAll(Flatten(Prefixed(ls, MARKER + dc)), MARKER) == Flatten(Prefixed(ls, dc))
    decreases |ls|
  {
    var m := MARKER + dc;
    if ls == [] {
      assert Prefixed(ls, m) == [] && Prefixed(ls, dc) == [];
    } else {
      var l, rest := ls[0], ls[1..];
      assert ls == [l] + rest;
      PrefixedCons(l, rest, m);
      PrefixedCons(l, rest, dc);
      FlattenCons(m + l, Prefixed(rest, m));
      FlattenCons(dc + l, Prefixed(rest, dc));
      StripMarker(rest, dc);
      MarkerStep(dc, l, Flatten(Prefixed(rest, m)));
    }
  }

  /** The plain-text description of lines rendered behind the marker and a
      colour code is the lines themselves, each followed by a space. */
  lemma PlainDescription(ls: seq<string>, dc: string)
    requires ColorCode(dc)
    requires forall i :: 0 <= i < |ls| ==> SECTION !in ls[i]
    ensures StringDescription(Prefixed(ls, MARKER + dc), dc) == Flatten(ls)
  {
    StripMarker(ls, dc);
    StripPrefix(ls, dc);
  }

  /** With the display prefix being the marker and a plain colour code for
      descriptions, an entry's plain-text description is the words of its
      text separated by single spaces, with one trailing space. */
  lemma EntryPlainText(e: Enchantment, v: View, s: Snapshot, width: nat, style: Style)
    requires style.prefix == MARKER && ColorCode(style.descriptionColor)
    requires SECTION !in SourceOf(e, v, s).text
    ensures EntryOf(e, v, s, width, style).stringDescription == Join(Words(SourceOf(e, v, s).text), " ") + " "
  {
    var text := SourceOf(e, v, s).text;
    var lines := Wrap(text, width);
    WrapAvoid(text, width, SECTION);
    PlainDescription(lines, style.descriptionColor);
    FlattenIsJoin(lines);
    WrapRoundTrip(text, width);
  }

  /** One line behind the marker alone comes back as the line and a space. */
  lemma PlainLine(t: string, dc: string)
    requires ColorCode(dc) && SECTION !in t
    ensures StringDescription([MARKER + t], dc) == t + " "
  {
    var line := t + " ";
    FlattenCons(MARKER + t, []);
    assert Flatten([MARKER + t]) == MARKER + line by {
      assert [MARKER + t] + [] == [MARKER + t];
    }
    RemoveAllLeading(MARKER, line);
    assert SECTION !in line;
    RemoveAllSkip(line, [], MARKER);
    RemoveAllSkip(line, [], dc);
    assert line + [] == line;
  }

  /** The stand-in entry's plain text is the stand-in sentence. */
  lemma FallbackPlainText(style: Style)
    requires style.prefix == MARKER && ColorCode(style.descriptionColor)
    ensures StringDescription([style.prefix + "No Description Found"], style.descriptionColor) == "No Description Found "
  {
    PlainLine("No Description Found", style.descriptionColor);
  }

  /** After an update, a lookup by key name finds the entry of the first
      enchantment with that key name, and no entry when there is none. */
  lemma CachedLookup(es: seq<Enchantment>, v: View, s: Snapshot, width: nat, style: Style, k: string)
    ensures var entries := EntriesOf(es, |es|, v, s, width, style);
      var r := FindFirst(entries, k);
      && (r.None? <==> forall i :: 0 <= i < |es| ==> es[i].key.key != k)
      && (r.Some? ==> r.value < |es| && es[r.value].key.key == k
                      && (forall j :: 0 <= j < r.value ==> es[j].key.key != k)
                      && entries[r.value] == EntryOf(es[r.value], v, s, width, style))
  {
    var entries := EntriesOf(es, |es|, v, s, width, style);
    forall i | 0 <= i < |es| ensures KeyNamed(entries[i], k) <==> es[i].key.key == k {
      assert entries[i].enchantment == EntryOf(es[i], v, s, width, style).enchantment == es[i];
    }
  }

  /** Render one enchantment as update() does, and report whether it warns. */
  method BuildEntry(e: Enchantment, v: View, s: Snapshot, width: nat, style: Style)
    returns (c: CacheEntry, warn: bool)
    ensures c == EntryOf(e, v, s, width, style)
    ensures warn <==> InvalidRarity(e, v)
  {
    var lines: seq<string>;
    var rawName: string;
    var t: EnchantmentType;
    var color: Option<string>;
    if e.key in v.defs {
      var d := v.defs[e.key];
      lines := Wrap(d.description, width);
      rawName := d.name;
      t := d.etype;
      color := d.typeColor;
    } else {
      lines := Wrap(JavaString(LangString(s, LangPath(e, "description"))), width);
      rawName := JavaString(LangString(s, LangPath(e, "name")));
      t, color := if e.cursed then v.curse else v.normal, if e.cursed then v.curseColor else v.normalColor;
    }
    warn := false;
    if e.key in v.defs {
      var rarity := v.defs[e.key].rarity;
      if rarity.Some? {
        if rarity.value.customColor.Some? && t != v.curse {
          color := rarity.value.customColor;
        }
      } else {
        warn := true;
      }
    }
    var a := new string[|lines|](j requires 0 <= j < |lines| => lines[j]);
    assert a[..] == lines;
    PrefixAll(a, style.prefix + style.descriptionColor);
    c := NewCacheEntry(e, JavaString(color) + rawName, rawName, a[..], t, style.descriptionColor);
  }

  class EnchantmentCache {
    var cache: seq<CacheEntry>

    constructor ()
      ensures cache == []
    {
      cache := [];
    }

    /** getEntry: the first cached entry whose key has the same name as e's;
        without one, a stand-in of the normal type named after the key. */
    method GetEntry(e: Enchantment, style: Style, types: TypeRegistry) returns (c: CacheEntry)
      ensures FindFirst(cache, e.key.key).Some? ==>
                exists j :: 0 <= j < |cache| && c == cache[j] && KeyNamed(c, e.key.key)
                  && forall i :: 0 <= i < j ==> !KeyNamed(cache[i], e.key.key)
      ensures FindFirst(cache, e.key.key).None? ==>
                && c.enchantment == e
                && c.name == style.prefix + "\U{A7}7" + e.key.key
                && c.rawName == e.key.key
                && c.description == [style.prefix + "No Description Found"]
                && c.stringDescription == StringDescription(c.description, style.descriptionColor)
                && c.etype == types.normal
    {
      var fallback := NewCacheEntry(e, style.prefix + "\U{A7}7" + e.key.key, e.key.key,
                                    [style.prefix + "No Description Found"], types.normal, style.descriptionColor);
      var found := FindFirst(cache, e.key.key);
      if found.Some? {
        c := cache[found.value];
      } else {
        c := fallback;
      }
    }

    /** getCache: a copy holding the same entries. */
    function GetCache(): (r: seq<CacheEntry>)
      reads this
      ensures |r| == |cache| && forall i :: 0 <= i < |r| ==> r[i] == cache[i]
    {
      cache
    }

    /** update(): empty the cache, then render every enchantment the host
        knows, with a warning for each definition whose rarity is unusable. */
    method Update(es: seq<Enchantment>, dir: Directory, types: TypeRegistry, s: Snapshot, width: nat, style: Style)
      returns (warned: seq<string>)
      modifies this`cache
      ensures cache == EntriesOf(es, |es|, old(ViewOf(dir, types)), s, width, style)
      ensures warned == InvalidRarities(es, |es|, old(ViewOf(dir, types)))
    {
      var v := ViewOf(dir, types);
      var entries := [];
      warned := [];
      var i := 0;
      while i < |es|
        invariant 0 <= i <= |es|
        invariant entries == EntriesOf(es, i, v, s, width, style)
        invariant warned == InvalidRarities(es, i, v)
      {
        var c, warn := BuildEntry(es[i], v, s, width, style);
        EntriesOfSnoc(es, i, v, s, width, style);
        entries := entries + [c];
        if warn {
          warned := warned + [es[i].key.key];
        }
        i := i + 1;
      }
      cache := entries;
    }
  }

}

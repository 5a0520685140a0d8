/** The host server's own enchantment table (the static byKey, byName and
    acceptingNew fields of its Enchantment class), and what re-publishing an
    enchantment into it does. */
module Host {
  import opened Base

  /** The three static fields as one value. */
  datatype Table = Table(byKey: map<NamespacedKey, Enchantment>, byName: map<string, Enchantment>, acceptingNew: bool)

  /** Which of the private fields the reflection can locate. */
  datatype Shape = Shape(hasByKey: bool, hasByName: bool, hasAcceptingNew: bool)

  /** Every binding is filed under the enchantment's own key or name, and
      every name binding is backed by the key binding of the same
      enchantment. */
  ghost predicate Indexed(t: Table) {
    && (forall k :: k in t.byKey ==> t.byKey[k].key == k)
    && (forall n :: n in t.byName ==> t.byName[n].name == n)
    && (forall n :: n in t.byName ==> t.byName[n].key in t.byKey && t.byKey[t.byName[n].key] == t.byName[n])
  }

  /** In an indexed table no two names resolve to the same identity. */
  lemma IndexedIdentitiesUnique(t: Table, n1: string, n2: string)
    requires Indexed(t)
    requires n1 in t.byName && n2 in t.byName && t.byName[n1].key == t.byName[n2].key
    ensures n1 == n2
  {
    assert t.byName[n1] == t.byKey[t.byName[n1].key] == t.byName[n2];
  }

  /** registerEnchantment's insertion, once its checks have passed. */
  function Insert(t: Table, e: Enchantment): (r: Table)
    ensures e.key in r.byKey && r.byKey[e.key] == e && e.name in r.byName && r.byName[e.name] == e
    ensures r.acceptingNew == t.acceptingNew
  {
    Table(t.byKey[e.key := e], t.byName[e.name := e], t.acceptingNew)
  }

  /** The name bindings left after removing the one under name and every one
      whose enchantment has key k. */
  function EvictIdentity(byName: map<string, Enchantment>, k: NamespacedKey, name: string): (r: map<string, Enchantment>)
    ensures forall n :: n in r <==> n in byName && n != name && byName[n].key != k
    ensures forall n :: n in r ==> r[n] == byName[n]
  {
    map n | n in byName && n != name && byName[n].key != k :: byName[n]
  }

  /** EcoEnchant.register() on the table: with both maps found, evict every
      binding of e's key and of e's name; then, with the guard found, open it
      and insert e. A missing field stops the rewrite where the lookup of that
      field stands. */
  function Republish(t: Table, e: Enchantment, shape: Shape): (r: Table)
    ensures !(shape.hasByKey && shape.hasByName) ==> r == t
    ensures shape.hasByKey && shape.hasByName ==>
              (e.key in r.byKey <==> shape.hasAcceptingNew) && (e.name in r.byName <==> shape.hasAcceptingNew)
    ensures r.acceptingNew == (t.acceptingNew || (shape.hasByKey && shape.hasByName && shape.hasAcceptingNew))
  {
    if !(shape.hasByKey && shape.hasByName) then t
    else
      var evicted := Table(t.byKey - {e.key}, EvictIdentity(t.byName, e.key, e.name), t.acceptingNew);
      if !shape.hasAcceptingNew then evicted
      else Insert(evicted.(acceptingNew := true), e)
  }

  /** The eviction establishes exactly what registerEnchantment demands: the
      key and the name are free, and no name is left bound to the key. */
  lemma EvictionFreesSlot(t: Table, e: Enchantment)
    ensures e.key !in t.byKey - {e.key}
    ensures e.name !in EvictIdentity(t.byName, e.key, e.name)
    ensures forall n :: n in EvictIdentity(t.byName, e.key, e.name) ==>
              EvictIdentity(t.byName, e.key, e.name)[n].key != e.key
  {
  }

  /** With every field found, e ends up bound under its key and its name, the
      guard is open, and e's key is reachable through no other name. */
  lemma RepublishBinds(t: Table, e: Enchantment, shape: Shape)
    requires shape.hasByKey && shape.hasByName && shape.hasAcceptingNew
    ensures var r := Republish(t, e, shape);
      && e.key in r.byKey && r.byKey[e.key] == e
      && e.name in r.byName && r.byName[e.name] == e
      && r.acceptingNew
      && forall n :: n in r.byName && r.byName[n].key == e.key ==> n == e.name
  {
  }

  /** With the guard field missing the old bindings are still evicted and e
      is left out of the table. */
  lemma RepublishOrphans(t: Table, e: Enchantment, shape: Shape)
    requires shape.hasByKey && shape.hasByName && !shape.hasAcceptingNew
    ensures var r := Republish(t, e, shape);
      && e.key !in r.byKey && e.name !in r.byName
      && (forall n :: n in r.byName ==> r.byName[n].key != e.key)
      && r.acceptingNew == t.acceptingNew
  {
  }

  /** Bindings of other identities are untouched, except the one filed under
      e's name, which goes whatever enchantment it held; and once the maps are
      found, no new binding other than e's appears. */
  lemma RepublishKeepsOthers(t: Table, e: Enchantment, shape: Shape)
    ensures var r := Republish(t, e, shape);
      && (forall k :: k in t.byKey && k != e.key ==> k in r.byKey && r.byKey[k] == t.byKey[k])
      && (forall n :: n in t.byName && n != e.name && t.byName[n].key != e.key ==>
            n in r.byName && r.byName[n] == t.byName[n])
      && (forall k :: k in r.byKey && k != e.key ==> k in t.byKey)
      && (shape.hasByKey && shape.hasByName ==>
            forall n :: n in r.byName && n != e.name ==> n in t.byName && t.byName[n].key != e.key)
  {
  }

  /** Republishing keeps the table indexed. */
  lemma RepublishIndexed(t: Table, e: Enchantment, shape: Shape)
    requires Indexed(t)
    ensures Indexed(Republish(t, e, shape))
  {
    if shape.hasByKey && shape.hasByName {
      var ev := Table(t.byKey - {e.key}, EvictIdentity(t.byName, e.key, e.name), t.acceptingNew);
      assert Indexed(ev);
      if shape.hasAcceptingNew {
        var r := Insert(ev.(acceptingNew := true), e);
        forall n | n in r.byName
          ensures r.byName[n].key in r.byKey && r.byKey[r.byName[n].key] == r.byName[n]
        {
          if n != e.name {
            assert r.byName[n] == ev.byName[n];
            assert ev.byName[n].key != e.key;
          }
        }
      }
    }
  }

  /** Reloading twice publishes the same table as reloading once. */
  lemma {:induction false} RepublishIdempotent(t: Table, e: Enchantment, shape: Shape)
    ensures Republish(Republish(t, e, shape), e, shape) == Republish(t, e, shape)
  {
    var r := Republish(t, e, shape);
    if shape.hasByKey && shape.hasByName {
      var r2 := Republish(r, e, shape);
      if shape.hasAcceptingNew {
        assert r.byKey - {e.key} == t.byKey - {e.key};
        assert EvictIdentity(r.byName, e.key, e.name) == EvictIdentity(t.byName, e.key, e.name);
      } else {
        assert r.byKey - {e.key} == r.byKey;
        assert EvictIdentity(r.byName, e.key, e.name) == r.byName;
      }
      assert r2.byKey == r.byKey;
      assert r2.byName == r.byName;
    }
  }

  class HostRegistry {
    var byKey: map<NamespacedKey, Enchantment>
    var byName: map<string, Enchantment>
    var acceptingNew: bool
    const shape: Shape

    /** The three fields as one value. */
    function Current(): Table
      reads this
    {
      Table(byKey, byName, acceptingNew)
    }

    constructor (t: Table, shape: Shape)
      ensures Current() == t && this.shape == shape
    {
      byKey, byName, acceptingNew := t.byKey, t.byName, t.acceptingNew;
      this.shape := shape;
    }

    /** Enchantment.registerEnchantment: it throws unless the key and the name
        are free and registrations are being accepted, so its callers must
        make sure of all three. */
    method RegisterEnchantment(e: Enchantment)
      requires e.key !in byKey && e.name !in byName && acceptingNew
      modifies this
      ensures Current() == Insert(old(Current()), e)
    {
      byKey := byKey[e.key := e];
      byName := byName[e.name := e];
    }
  }

}

/** The entity manager of `src/ECS/EntityManager.{h,cpp}`: the id pool, the
    per-entity signatures, the component-type registry and one storage
    per registered type.

    Component types are identified by a tag of type `Tag` (the source's
    `std::type_index`), and every storage holds values of one type `V`. */
module EntityManagement {
  import opened Identity
  import opened Wrappers
  import opened ComponentStore
  import opened EntityQueries

  /** `mNextComponentType` has reached MAX_COMPONENT_TYPES: the source would
      index `mComponentArrays` out of range and `bitset::set` would throw. */
  datatype RegistryError = TooManyComponentTypes

  /** The storage in one slot of `mComponentArrays` holds `e`. */
  predicate StoreHolds<V>(o: Option<Store<V>>, e: Entity)
  {
    o.Some? && e < |o.value.entityToIndex| && o.value.entityToIndex[e] != MAX_MARKER
  }

  /** `std::make_unique<ComponentArray<T>>()`: a packed storage holding nothing. */
  function NewStore<V>(blank: V): (s: Store<V>)
    ensures Packed(s) && Contents(s) == map[]
    ensures forall e :: !StoreHolds(Some(s), e)
  {
    EmptyIsPacked(seq(MAX_ENTITIES, _ => blank));
    Empty(seq(MAX_ENTITIES, _ => blank), MAX_MARKER)
  }

  /** A storage slot after `EntityDestroyed(e)`; an empty slot is skipped. */
  function Destroyed<V>(o: Option<Store<V>>, e: Entity): (r: Option<Store<V>>)
    requires o.Some? ==> Packed(o.value)
    requires e < MAX_ENTITIES
    ensures r.Some? <==> o.Some?
    ensures r.Some? ==> Packed(r.value) && Contents(r.value) == Contents(o.value) - {e}
  {
    match o
    case None => None
    case Some(s) =>
      RemoveKeepsPacked(s, e);
      Some(RemoveWith(s, e, MAX_MARKER))
  }

  /** Every slot of `mComponentArrays` after `EntityDestroyed(e)`. */
  function DestroyedAll<V>(stores: seq<Option<Store<V>>>, e: Entity): (r: seq<Option<Store<V>>>)
    requires forall i :: 0 <= i < |stores| && stores[i].Some? ==> Packed(stores[i].value)
    requires e < MAX_ENTITIES
    ensures |r| == |stores|
    ensures forall i :: 0 <= i < |r| ==> r[i] == Destroyed(stores[i], e)
  {
    seq(|stores|, i requires 0 <= i < |stores| => Destroyed(stores[i], e))
  }

  /** What a storage slot holds, as a map; nothing while it is empty. */
  ghost function Stored<V>(o: Option<Store<V>>): map<Entity, V>
  {
    if o.Some? && Packed(o.value) then Contents(o.value) else map[]
  }

  /** The values `StoreHolds` reads, for a packed storage. */
  lemma HoldsIsContents<V>(o: Option<Store<V>>, e: Entity)
    requires o.Some? ==> Packed(o.value)
    requires e < MAX_ENTITIES
    ensures StoreHolds(o, e) <==> o.Some? && e in Contents(o.value)
  {
  }

  // ---------------------------------------------------------------------
  // Signatures mirror the storages
  // ---------------------------------------------------------------------

  /** One signature per entity and one storage slot per type id; every
      storage is packed, and bit i of an entity's signature is set exactly
      when storage i holds that entity. */
  ghost predicate Mirror<V>(sigs: seq<Signature>, stores: seq<Option<Store<V>>>)
  {
    |sigs| == MAX_ENTITIES && |stores| == MAX_COMPONENT_TYPES &&
    (forall i :: 0 <= i < |stores| && stores[i].Some? ==> Packed(stores[i].value)) &&
    (forall e, i :: 0 <= e < |sigs| && i in sigs[e] ==> i < |stores|) &&
    (forall e, i :: 0 <= e < |sigs| && 0 <= i < |stores| ==> (i in sigs[e] <==> StoreHolds(stores[i], e)))
  }

  /** The constructor's tables are mirrored. */
  lemma MirrorFresh<V>()
    ensures Mirror<V>(seq(MAX_ENTITIES, _ => {}), seq(MAX_COMPONENT_TYPES, _ => None))
  {
  }

  /** A new, empty storage in an unused slot keeps the mirror: no signature
      can have that bit yet. */
  lemma MirrorRegister<V>(sigs: seq<Signature>, stores: seq<Option<Store<V>>>, next: nat, blank: V)
    requires Mirror(sigs, stores) && next < MAX_COMPONENT_TYPES && stores[next].None?
    ensures Mirror(sigs, stores[next := Some(NewStore(blank))])
  {
    var t := stores[next := Some(NewStore(blank))];
    forall e, i | 0 <= e < |sigs| && i in sigs[e] ensures i < |t| && StoreHolds(t[i], e) {
      assert i < |stores| && StoreHolds(stores[i], e);
    }
  }

  /** Replacing storage `ct` and the signature of `e` keeps the mirror when
      no other entity's membership in `ct` changes, no other bit of `e`
      changes, and the new bit `ct` of `e` matches the new storage. */
  lemma MirrorReplace<V>(sigs: seq<Signature>, stores: seq<Option<Store<V>>>, e: Entity, ct: ComponentType,
                         sig: Signature, u: Option<Store<V>>)
    requires Mirror(sigs, stores) && e < MAX_ENTITIES && ct < MAX_COMPONENT_TYPES
    requires u.Some? && Packed(u.value)
    requires forall x :: 0 <= x < MAX_ENTITIES && x != e ==> (StoreHolds(u, x) <==> StoreHolds(stores[ct], x))
    requires sig - {ct} == sigs[e] - {ct}
    requires ct in sig <==> StoreHolds(u, e)
    ensures Mirror(sigs[e := sig], stores[ct := u])
  {
    var sigs', stores' := sigs[e := sig], stores[ct := u];
    forall x, i | 0 <= x < |sigs'| && i in sigs'[x] ensures i < |stores'| {
      if x != e {
        assert i in sigs[x];
      } else if i != ct {
        assert i in sig - {ct};
      }
    }
    forall x, i | 0 <= x < |sigs'| && 0 <= i < |stores'| ensures i in sigs'[x] <==> StoreHolds(stores'[i], x) {
      if x == e && i == ct {
      } else if i == ct {
        assert i in sigs[x] <==> StoreHolds(stores[i], x);
      } else {
        if x == e {
          assert i in sig <==> i in sig - {ct};
          assert i in sigs[e] <==> i in sigs[e] - {ct};
        }
        assert i in sigs[x] <==> StoreHolds(stores[i], x);
      }
    }
  }

  /** AddComponent: the value goes into storage `ct` and bit `ct` is set. */
  lemma MirrorInsert<V>(sigs: seq<Signature>, stores: seq<Option<Store<V>>>, e: Entity, ct: ComponentType, v: V)
    requires Mirror(sigs, stores) && e < MAX_ENTITIES && ct < MAX_COMPONENT_TYPES && stores[ct].Some?
    ensures CanInsert(stores[ct].value, e, MAX_MARKER)
    ensures Mirror(sigs[e := sigs[e] + {ct}], stores[ct := Some(InsertWith(stores[ct].value, e, v, MAX_MARKER))])
  {
    var s := stores[ct].value;
    InsertKeepsPacked(s, e, v);
    var u := Some(InsertWith(s, e, v, MAX_MARKER));
    forall x | 0 <= x < MAX_ENTITIES ensures StoreHolds(u, x) <==> x == e || StoreHolds(stores[ct], x) {
      HoldsIsContents(u, x);
      HoldsIsContents(stores[ct], x);
    }
    assert sigs[e] + {ct} - {ct} == sigs[e] - {ct};
    MirrorReplace(sigs, stores, e, ct, sigs[e] + {ct}, u);
  }

  /** RemoveComponent: the entity leaves storage `ct` and bit `ct` is cleared. */
  lemma MirrorRemove<V>(sigs: seq<Signature>, stores: seq<Option<Store<V>>>, e: Entity, ct: ComponentType)
    requires Mirror(sigs, stores) && e < MAX_ENTITIES && ct < MAX_COMPONENT_TYPES && stores[ct].Some?
    ensures CanRemove(stores[ct].value, e, MAX_MARKER)
    ensures Mirror(sigs[e := sigs[e] - {ct}], stores[ct := Some(RemoveWith(stores[ct].value, e, MAX_MARKER))])
  {
    var s := stores[ct].value;
    RemoveKeepsPacked(s, e);
    var u := Some(RemoveWith(s, e, MAX_MARKER));
    forall x | 0 <= x < MAX_ENTITIES ensures StoreHolds(u, x) <==> x != e && StoreHolds(stores[ct], x) {
      HoldsIsContents(u, x);
      HoldsIsContents(stores[ct], x);
    }
    assert sigs[e] - {ct} - {ct} == sigs[e] - {ct};
    MirrorReplace(sigs, stores, e, ct, sigs[e] - {ct}, u);
  }

  /** DestroyEntity: the signature is reset and every storage drops `e`. */
  lemma MirrorDestroy<V>(sigs: seq<Signature>, stores: seq<Option<Store<V>>>, e: Entity)
    requires Mirror(sigs, stores) && e < MAX_ENTITIES
    ensures Mirror(sigs[e := {}], DestroyedAll(stores, e))
  {
    var stores' := DestroyedAll(stores, e);
    var sigs' := sigs[e := {}];
    forall x, i | 0 <= x < MAX_ENTITIES && 0 <= i < MAX_COMPONENT_TYPES
      ensures StoreHolds(stores'[i], x) <==> x != e && StoreHolds(stores[i], x)
    {
      HoldsIsContents(stores'[i], x);
      HoldsIsContents(stores[i], x);
    }
    forall x, i | 0 <= x < |sigs'| && i in sigs'[x] ensures i < |stores'| && StoreHolds(stores'[i], x) {
      assert i in sigs[x];
      assert i < |stores| && StoreHolds(stores[i], x);
    }
    forall x, i | 0 <= x < |sigs'| && 0 <= i < |stores'| && StoreHolds(stores'[i], x) ensures i in sigs'[x] {
      assert StoreHolds(stores[i], x);
    }
  }

  // ---------------------------------------------------------------------
  // The component-type registry
  // ---------------------------------------------------------------------

  /** `mComponentTypes` hands out distinct ids below `mNextComponentType`;
      `mComponentNames` has an entry for every id handed out, each naming a
      registered tag, and names every tag under its own id. */
  ghost predicate Registry<Tag>(types: map<Tag, ComponentType>, names: map<ComponentType, Tag>, next: nat)
  {
    next <= MAX_COMPONENT_TYPES &&
    (forall t :: t in types ==> types[t] < next) &&
    (forall t, u :: t in types && u in types && types[t] == types[u] ==> t == u) &&
    (forall i: ComponentType :: i in names <==> i < next) &&
    (forall i :: i in names ==> names[i] in types) &&
    (forall t :: t in types ==> names[types[t]] == t)
  }

  /** Registering keeps the registry consistent and never renumbers a tag. */
  lemma RegistryRegister<Tag>(types: map<Tag, ComponentType>, names: map<ComponentType, Tag>, next: nat, tag: Tag)
    requires Registry(types, names, next) && next < MAX_COMPONENT_TYPES
    ensures Registry(MapInsert(types, tag, next), names[next := tag], next + 1)
    ensures forall t :: t in types ==> MapInsert(types, tag, next)[t] == types[t]
  {
    var names' := names[next := tag];
    if tag in types {
      assert MapInsert(types, tag, next) == types;
      forall t | t in types ensures names'[types[t]] == t {
        assert types[t] < next;
      }
    } else {
      var types' := types[tag := next];
      assert MapInsert(types, tag, next) == types';
      forall t | t in types' ensures names'[types'[t]] == t {
        if t != tag {
          assert types[t] < next;
        }
      }
      forall t, u | t in types' && u in types' && types'[t] == types'[u] ensures t == u {
        if t != tag {
          assert types[t] < next;
        }
        if u != tag {
          assert types[u] < next;
        }
      }
    }
  }

  /** The requested signature: the ids of the requested tags. */
  ghost function TypeIds<Tag>(types: map<Tag, ComponentType>, tags: seq<Tag>): Signature
  {
    set t | t in tags && t in types :: types[t]
  }

  /** The registry's three fields together: `mComponentTypes`,
      `mComponentNames` and `mNextComponentType`. */
  datatype TypeTable<Tag> = TypeTable(types: map<Tag, ComponentType>, names: map<ComponentType, Tag>, next: nat)

  /** The registry after one lookup of `tag` (`GetComponentType`): a known
      tag leaves it as it is; a new tag gets the next id, is named under it,
      and the counter moves on; with every id used, nothing changes. */
  function LookUp<Tag>(t: TypeTable<Tag>, tag: Tag): (r: TypeTable<Tag>)
    ensures tag in t.types || t.next >= MAX_COMPONENT_TYPES ==> r == t
    ensures tag !in t.types && t.next < MAX_COMPONENT_TYPES ==>
      tag in r.types && r.types[tag] == t.next && r.next == t.next + 1 && t.next in r.names && r.names[t.next] == tag
    ensures forall u :: u in t.types ==> u in r.types && r.types[u] == t.types[u]
    ensures forall u :: u in r.types ==> u in t.types || u == tag
  {
    if tag in t.types || t.next >= MAX_COMPONENT_TYPES then t
    else TypeTable(t.types[tag := t.next], t.names[t.next := tag], t.next + 1)
  }

  /** The registry after looking up `tags` from first to last. */
  function LookUpAll<Tag>(t: TypeTable<Tag>, tags: seq<Tag>): TypeTable<Tag>
    decreases |tags|
  {
    if |tags| == 0 then t else LookUpAll(LookUp(t, tags[0]), tags[1..])
  }

  /** Looking up several tags keeps every id handed out, adds only the tags
      asked for, and never lowers the counter. */
  lemma {:induction false} LookUpAllExtends<Tag>(t: TypeTable<Tag>, tags: seq<Tag>)
    ensures var r := LookUpAll(t, tags);
      (forall u :: u in t.types ==> u in r.types && r.types[u] == t.types[u]) &&
      (forall u :: u in r.types ==> u in t.types || u in tags) &&
      t.next <= r.next
    decreases |tags|
  {
    if |tags| > 0 {
      var s := LookUp(t, tags[0]);
      LookUpAllExtends(s, tags[1..]);
      var r := LookUpAll(t, tags);
      assert r == LookUpAll(s, tags[1..]);
      forall u | u in r.types ensures u in t.types || u in tags {
        if u !in t.types {
          assert u in s.types ==> u == tags[0];
          if u !in s.types {
            assert u in tags[1..];
          }
        }
      }
    }
  }

  /** Once every id is used, no lookup changes the registry. */
  lemma {:induction false} FullTableFixed<Tag>(t: TypeTable<Tag>, tags: seq<Tag>)
    requires t.next >= MAX_COMPONENT_TYPES
    ensures LookUpAll(t, tags) == t
    decreases |tags|
  {
    if |tags| > 0 {
      FullTableFixed(LookUp(t, tags[0]), tags[1..]);
    }
  }

  /** Looking up the same tags again changes nothing: every first use is
      remembered. */
  lemma {:induction false} LookUpAllOnce<Tag>(t: TypeTable<Tag>, tags: seq<Tag>)
    requires forall u :: u in tags ==> u in t.types
    ensures LookUpAll(t, tags) == t
    decreases |tags|
  {
    if |tags| > 0 {
      assert tags[0] in tags;
      forall u | u in tags[1..] ensures u in t.types {
        assert u in tags;
      }
      LookUpAllOnce(t, tags[1..]);
    }
  }

  /** Ids follow first use: from an empty registry, the uses `a, b, a, c`
      give `a`, `b`, `c` the ids 0, 1, 2, and the repeated `a` changes
      nothing. */
  lemma {:induction false} NumberedInOrder<Tag>(a: Tag, b: Tag, c: Tag)
    requires a != b && a != c && b != c
    ensures var t := LookUpAll(TypeTable(map[], map[], 0), [a, b, a, c]);
      t.types == map[a := 0, b := 1, c := 2] && t.names == map[0 := a, 1 := b, 2 := c] && t.next == 3
  {
    var t0: TypeTable<Tag> := TypeTable(map[], map[], 0);
    var t1 := LookUp(t0, a);
    var t2 := LookUp(t1, b);
    var t3 := LookUp(t2, c);
    assert [a, b, a, c][1..] == [b, a, c] && [b, a, c][1..] == [a, c] && [a, c][1..] == [c] && [c][1..] == [];
    assert LookUpAll(t0, [a, b, a, c]) == LookUpAll(t2, [a, c]);
    assert LookUp(t2, a) == t2;
    assert LookUpAll(t2, [a, c]) == LookUpAll(t2, [c]);
    assert LookUpAll(t2, [c]) == LookUpAll(t3, []);
    assert t3.types == map[a := 0, b := 1, c := 2];
  }

  // ---------------------------------------------------------------------
  // The manager
  // ---------------------------------------------------------------------

  class EntityManager<Tag(==), V> {
    /** The value a new storage's slots start with (`T`'s default value). */
    const blank: V
    /** `mComponentArrays`: slot `i` holds storage `i` once type `i` exists. */
    const storages: array<Option<Store<V>>>
    /** `mComponentTypes`. */
    var componentTypes: map<Tag, ComponentType>
    /** `mComponentNames`, with a tag standing for the type's name. */
    var componentNames: map<ComponentType, Tag>
    /** `mEntitySignatures`. */
    const signatures: array<Signature>
    /** `mAvailableEntities`, used front-to-back as a queue. */
    var available: seq<Entity>
    /** `mActiveEntities`, in creation order. */
    var active: seq<Entity>
    /** `mLivingEntityCount`. */
    var livingCount: nat
    /** `mNextComponentType`. */
    var nextComponentType: nat

    ghost predicate Valid()
      reads this, storages, signatures
    {
      storages.Length == MAX_COMPONENT_TYPES && signatures.Length == MAX_ENTITIES &&
      Pool(active, available) && livingCount == |active| &&
      Registry(componentTypes, componentNames, nextComponentType) &&
      (forall i :: 0 <= i < MAX_COMPONENT_TYPES ==> (storages[i].Some? <==> i < nextComponentType)) &&
      Mirror(signatures[..], storages[..])
    }

    /** The state the constructor builds and Clear restores. */
    ghost predicate IsFresh()
      reads this, storages, signatures
    {
      storages.Length == MAX_COMPONENT_TYPES && signatures.Length == MAX_ENTITIES &&
      available == Ascending(1, MAX_ENTITIES) && active == [] && livingCount == 0 &&
      nextComponentType == 0 && componentTypes == map[] && componentNames == map[] &&
      signatures[..] == seq(MAX_ENTITIES, _ => {}) &&
      storages[..] == seq(MAX_COMPONENT_TYPES, _ => None)
    }

    /** What storage `i` holds, as a map; nothing while the slot is empty. */
    ghost function StoredIn(i: nat): map<Entity, V>
      reads this, storages
      requires i < storages.Length
    {
      Stored(storages[i])
    }

    /** The registry's fields as one value. */
    function Table(): TypeTable<Tag>
      reads this
    {
      TypeTable(componentTypes, componentNames, nextComponentType)
    }

    twostate predicate SamePool()
      reads this
    {
      available == old(available) && active == old(active) && livingCount == old(livingCount)
    }

    twostate predicate SameRegistry()
      reads this
    {
      componentTypes == old(componentTypes) && componentNames == old(componentNames) &&
      nextComponentType == old(nextComponentType)
    }

    lemma FreshIsValid()
      requires IsFresh()
      ensures Valid()
    {
      FreshPool();
      MirrorFresh<V>();
      forall i | 0 <= i < MAX_COMPONENT_TYPES ensures storages[i] == None {
        assert storages[..][i] == storages[i];
      }
    }

    /** The constructor queues every id 1 .. MAX_ENTITIES-1 in ascending order. */
    constructor (blank: V)
      ensures Valid() && IsFresh()
      ensures this.blank == blank && fresh(storages) && fresh(signatures)
    {
      this.blank := blank;
      storages := new Option<Store<V>>[MAX_COMPONENT_TYPES](_ => None);
      signatures := new Signature[MAX_ENTITIES](_ => {});
      componentTypes := map[];
      componentNames := map[];
      active := [];
      livingCount := 0;
      nextComponentType := 0;
      new;
      var ids := [];
      for entity := 1 to MAX_ENTITIES
        invariant ids == Ascending(1, entity)
      {
        ids := ids + [entity];
      }
      available := ids;
      assert signatures[..] == seq(MAX_ENTITIES, _ => {});
      assert storages[..] == seq(MAX_COMPONENT_TYPES, _ => None);
      FreshIsValid();
    }

    /** `IsValid`: an id in range that is not waiting in the queue, which
        for a consistent manager means a living entity. */
    function IsValid(e: Entity): (b: bool)
      reads this, storages, signatures
      ensures Valid() ==> (b <==> e in active)
    {
      e != INVALID_ENTITY && e < MAX_ENTITIES && e !in available
    }

    /** `GetEntityCount`. */
    function GetEntityCount(): (n: nat)
      reads this, storages, signatures
      requires Valid()
      ensures n == |active| && n + |available| == MAX_ENTITIES - 1
    {
      PoolSize(active, available);
      livingCount
    }

    /** `GetSignature`. */
    function GetSignature(e: Entity): (sig: Signature)
      reads this, storages, signatures
      requires e < signatures.Length
      ensures Valid() ==> forall i :: i in sig ==> i < MAX_COMPONENT_TYPES
      ensures Valid() ==> forall i :: 0 <= i < MAX_COMPONENT_TYPES ==> (i in sig <==> StoreHolds(storages[i], e))
    {
      assert Valid() ==> signatures[..][e] == signatures[e] && forall i :: 0 <= i < MAX_COMPONENT_TYPES ==> storages[..][i] == storages[i];
      signatures[e]
    }

    /** `SetSignature`: overwrites one entity's signature and nothing else. */
    method SetSignature(e: Entity, sig: Signature)
      requires e < signatures.Length
      modifies signatures
      ensures signatures[..] == old(signatures[..])[e := sig]
    {
      signatures[e] := sig;
    }

    /** `CreateEntity`: the front of the queue becomes the newest living
        entity; with the queue empty the result is INVALID_ENTITY and
        nothing changes. */
    method CreateEntity() returns (e: Entity)
      requires Valid()
      modifies this
      ensures Valid() && SameRegistry()
      ensures old(available) == [] ==> e == INVALID_ENTITY && SamePool()
      ensures old(available) == [] <==> old(livingCount) == MAX_ENTITIES - 1
      ensures old(available) != [] ==>
        e == old(available)[0] && !old(IsValid(e)) && IsValid(e) &&
        available == old(available)[1..] && active == old(active) + [e] &&
        livingCount == old(livingCount) + 1
    {
      PoolSize(active, available);
      if available == [] {
        return INVALID_ENTITY;
      }
      e := available[0];
      PoolCreate(active, available);
      available := available[1..];
      active := active + [e];
      livingCount := livingCount + 1;
    }

    /** `DestroyEntity`: an invalid id is ignored; a living entity leaves
        the active list (the others keep their order), loses its signature
        and every component, and goes to the back of the queue. */
    method DestroyEntity(e: Entity)
      requires Valid()
      modifies this, storages, signatures
      ensures Valid() && SameRegistry()
      ensures !old(IsValid(e)) ==>
        SamePool() && signatures[..] == old(signatures[..]) && storages[..] == old(storages[..])
      ensures old(IsValid(e)) ==>
        active == EraseFirst(old(active), e) && available == old(available) + [e] &&
        livingCount == old(livingCount) - 1 && !IsValid(e) &&
        signatures[..] == old(signatures[..])[e := {}] &&
        storages[..] == DestroyedAll(old(storages[..]), e)
      ensures forall i :: 0 <= i < MAX_COMPONENT_TYPES ==>
        StoredIn(i) == if old(IsValid(e)) then old(StoredIn(i)) - {e} else old(StoredIn(i))
    {
      if !IsValid(e) {
        return;
      }
      PoolDestroy(active, available, e);
      MirrorDestroy(signatures[..], storages[..], e);
      active := EraseFirst(active, e);
      signatures[e] := {};
      NotifyDestroyed(e);
      available := available + [e];
      livingCount := livingCount - 1;
    }

    /** The loop of `DestroyEntity` over `mComponentArrays`: every storage
        that exists is told `EntityDestroyed(e)`. */
    method NotifyDestroyed(e: Entity)
      requires storages.Length == MAX_COMPONENT_TYPES && e < MAX_ENTITIES
      requires forall i :: 0 <= i < MAX_COMPONENT_TYPES && storages[i].Some? ==> Packed(storages[i].value)
      modifies storages
      ensures storages[..] == DestroyedAll(old(storages[..]), e)
      ensures forall i :: 0 <= i < MAX_COMPONENT_TYPES ==> StoredIn(i) == old(StoredIn(i)) - {e}
    {
      ghost var stores := DestroyedAll(storages[..], e);
      for i := 0 to MAX_COMPONENT_TYPES
        invariant forall j :: 0 <= j < i ==> storages[j] == stores[j]
        invariant forall j :: i <= j < MAX_COMPONENT_TYPES ==> storages[j] == old(storages[j])
      {
        if storages[i].Some? {
          storages[i] := Destroyed(storages[i], e);
        }
      }
      assert storages[..] == stores;
      forall i | 0 <= i < MAX_COMPONENT_TYPES ensures StoredIn(i) == old(StoredIn(i)) - {e} {
        assert storages[i] == Destroyed(old(storages[i]), e);
      }
    }

    /** `Clear`: back to the state the constructor builds. */
    method Clear()
      requires storages.Length == MAX_COMPONENT_TYPES && signatures.Length == MAX_ENTITIES
      modifies this, storages, signatures
      ensures Valid() && IsFresh()
    {
      for e := 0 to MAX_ENTITIES
        invariant forall x :: 0 <= x < e ==> signatures[x] == {}
        modifies signatures
      {
        signatures[e] := {};
      }
      for i := 0 to MAX_COMPONENT_TYPES
        invariant forall j :: 0 <= j < i ==> storages[j] == None
        modifies storages
      {
        if storages[i].Some? {
          storages[i] := None;
        }
      }
      active := [];
      var ids := [];
      for entity := 1 to MAX_ENTITIES
        invariant ids == Ascending(1, entity)
      {
        ids := ids + [entity];
      }
      available := ids;
      livingCount := 0;
      nextComponentType := 0;
      componentTypes := map[];
      componentNames := map[];
      assert signatures[..] == seq(MAX_ENTITIES, _ => {});
      assert storages[..] == seq(MAX_COMPONENT_TYPES, _ => None);
      FreshIsValid();
    }

    /** `RegisterComponentType`: a new, empty storage in slot
        `mNextComponentType`, the tag entered (unless already there) and the
        counter advanced. With all MAX_COMPONENT_TYPES slots used it reports
        the overflow and changes nothing. */
    method RegisterComponentType(tag: Tag) returns (r: Outcome<RegistryError>)
      requires Valid()
      modifies this, storages
      ensures Valid() && SamePool()
      ensures old(nextComponentType) == MAX_COMPONENT_TYPES ==>
        r == Fail(TooManyComponentTypes) && SameRegistry() && storages[..] == old(storages[..])
      ensures old(nextComponentType) < MAX_COMPONENT_TYPES ==>
        r == Pass && nextComponentType == old(nextComponentType) + 1 &&
        componentTypes == MapInsert(old(componentTypes), tag, old(nextComponentType)) &&
        componentNames == old(componentNames)[old(nextComponentType) := tag] &&
        storages[..] == old(storages[..])[old(nextComponentType) := Some(NewStore(blank))]
    {
      if nextComponentType == MAX_COMPONENT_TYPES {
        return Fail(TooManyComponentTypes);
      }
      RegistryRegister(componentTypes, componentNames, nextComponentType, tag);
      MirrorRegister(signatures[..], storages[..], nextComponentType, blank);
      componentTypes := MapInsert(componentTypes, tag, nextComponentType);
      componentNames := MapInsert(componentNames, nextComponentType, tag);
      storages[nextComponentType] := Some(NewStore(blank));
      nextComponentType := nextComponentType + 1;
      r := Pass;
    }

    /** `GetComponentType`: the tag's id, registering it first if needed.
        Ids, once handed out, never change. */
    method GetComponentType(tag: Tag) returns (r: Result<ComponentType, RegistryError>)
      requires Valid()
      modifies this, storages
      ensures Valid() && SamePool()
      ensures Table() == LookUp(old(Table()), tag)
      ensures r.Success? <==> tag in componentTypes
      ensures r.Success? ==> componentTypes[tag] == r.value && r.value < nextComponentType
      ensures r.Success? ==> componentTypes == old(componentTypes)[tag := r.value]
      ensures forall t :: t in old(componentTypes) ==> t in componentTypes && componentTypes[t] == old(componentTypes)[t]
      ensures tag in old(componentTypes) ==> SameRegistry() && storages[..] == old(storages[..])
      ensures forall i :: 0 <= i < MAX_COMPONENT_TYPES ==> StoredIn(i) == old(StoredIn(i))
      ensures tag !in old(componentTypes) && old(nextComponentType) < MAX_COMPONENT_TYPES ==>
        r == Success(old(nextComponentType)) && nextComponentType == old(nextComponentType) + 1 &&
        componentTypes == old(componentTypes)[tag := r.value] &&
        componentNames == old(componentNames)[r.value := tag] &&
        storages[..] == old(storages[..])[r.value := Some(NewStore(blank))]
      ensures tag !in old(componentTypes) && old(nextComponentType) == MAX_COMPONENT_TYPES ==>
        r == Failure(TooManyComponentTypes) && SameRegistry() && storages[..] == old(storages[..])
    {
      if tag !in componentTypes {
        var registered := RegisterComponentType(tag);
        if registered.Fail? {
          return Failure(registered.error);
        }
        return Success(nextComponentType - 1);
      }
      return Success(componentTypes[tag]);
    }
  
    /** `AddComponent`: the type is looked up (registered on first use), the
        value stored under the entity (overwriting an earlier one) and the
        type's bit set; no other storage and no other signature changes. */
    method AddComponent(e: Entity, tag: Tag, v: V) returns (r: Outcome<RegistryError>)
      requires Valid() && e < MAX_ENTITIES
      modifies this, storages, signatures
      ensures Valid() && SamePool()
      ensures Table() == LookUp(old(Table()), tag)
      ensures r.Pass? <==> tag in old(componentTypes) || old(nextComponentType) < MAX_COMPONENT_TYPES
      ensures r.Fail? ==> SameRegistry() && storages[..] == old(storages[..]) && signatures[..] == old(signatures[..])
      ensures r.Pass? ==> (tag in componentTypes &&
        var ct := componentTypes[tag];
        componentTypes == old(componentTypes)[tag := ct] &&
        (tag in old(componentTypes) ==> SameRegistry()) &&
        StoredIn(ct) == old(StoredIn(ct))[e := v] &&
        (forall i :: 0 <= i < MAX_COMPONENT_TYPES && i != ct ==> StoredIn(i) == old(StoredIn(i))) &&
        signatures[..] == old(signatures[..])[e := old(signatures[e]) + {ct}])
    {
      var t := GetComponentType(tag);
      if t.Failure? {
        return Fail(t.error);
      }
      var ct := t.value;
      Attach(e, ct, v);
      return Pass;
    }

    /** The rest of `AddComponent` once the type id is known: `InsertData`
        into storage `ct`, then the signature gains bit `ct`. */
    method Attach(e: Entity, ct: ComponentType, v: V)
      requires Valid() && e < MAX_ENTITIES && ct < nextComponentType
      modifies storages, signatures
      ensures Valid()
      ensures StoredIn(ct) == old(StoredIn(ct))[e := v]
      ensures forall i :: 0 <= i < MAX_COMPONENT_TYPES && i != ct ==> storages[i] == old(storages[i])
      ensures signatures[..] == old(signatures[..])[e := old(signatures[e]) + {ct}]
    {
      var s := storages[ct].value;
      ghost var sigs0, stores0 := signatures[..], storages[..];
      MirrorInsert(sigs0, stores0, e, ct, v);
      InsertKeepsPacked(s, e, v);
      storages[ct] := Some(InsertWith(s, e, v, MAX_MARKER));
      var sig := GetSignature(e);
      SetSignature(e, sig + {ct});
      assert storages[..] == stores0[ct := Some(InsertWith(s, e, v, MAX_MARKER))];
      assert signatures[..] == sigs0[e := sigs0[e] + {ct}];
    }

    /** `RemoveComponent`: the entity's value of that type is dropped (if
        any) and the type's bit cleared; nothing else changes. */
    method RemoveComponent(e: Entity, tag: Tag) returns (r: Outcome<RegistryError>)
      requires Valid() && e < MAX_ENTITIES
      modifies this, storages, signatures
      ensures Valid() && SamePool()
      ensures Table() == LookUp(old(Table()), tag)
      ensures r.Pass? <==> tag in old(componentTypes) || old(nextComponentType) < MAX_COMPONENT_TYPES
      ensures r.Fail? ==> SameRegistry() && storages[..] == old(storages[..]) && signatures[..] == old(signatures[..])
      ensures r.Pass? ==> (tag in componentTypes &&
        var ct := componentTypes[tag];
        componentTypes == old(componentTypes)[tag := ct] &&
        (tag in old(componentTypes) ==> SameRegistry()) &&
        StoredIn(ct) == old(StoredIn(ct)) - {e} &&
        (forall i :: 0 <= i < MAX_COMPONENT_TYPES && i != ct ==> StoredIn(i) == old(StoredIn(i))) &&
        signatures[..] == old(signatures[..])[e := old(signatures[e]) - {ct}])
    {
      var t := GetComponentType(tag);
      if t.Failure? {
        return Fail(t.error);
      }
      var ct := t.value;
      Detach(e, ct);
      return Pass;
    }

    /** The rest of `RemoveComponent` once the type id is known:
        `RemoveData` from storage `ct`, then the signature loses bit `ct`. */
    method Detach(e: Entity, ct: ComponentType)
      requires Valid() && e < MAX_ENTITIES && ct < nextComponentType
      modifies storages, signatures
      ensures Valid()
      ensures StoredIn(ct) == old(StoredIn(ct)) - {e}
      ensures forall i :: 0 <= i < MAX_COMPONENT_TYPES && i != ct ==> storages[i] == old(storages[i])
      ensures forall i :: 0 <= i < MAX_COMPONENT_TYPES && i != ct ==> StoredIn(i) == old(StoredIn(i))
      ensures signatures[..] == old(signatures[..])[e := old(signatures[e]) - {ct}]
    {
      var s := storages[ct].value;
      ghost var sigs0, stores0 := signatures[..], storages[..];
      MirrorRemove(sigs0, stores0, e, ct);
      RemoveKeepsPacked(s, e);
      storages[ct] := Some(RemoveWith(s, e, MAX_MARKER));
      var sig := GetSignature(e);
      SetSignature(e, sig - {ct});
      assert storages[..] == stores0[ct := Some(RemoveWith(s, e, MAX_MARKER))];
      assert signatures[..] == sigs0[e := sigs0[e] - {ct}];
    }

    /** `GetComponent`: the entity's value of that type, or none (the
        source's null pointer); present exactly when the signature has the
        type's bit. Registering an unknown type adds only an empty storage. */
    method GetComponent(e: Entity, tag: Tag) returns (r: Result<Option<V>, RegistryError>)
      requires Valid() && e < MAX_ENTITIES
      modifies this, storages
      ensures Valid() && SamePool()
      ensures Table() == LookUp(old(Table()), tag)
      ensures r.Success? <==> tag in componentTypes
      ensures r.Success? ==> (componentTypes[tag] < MAX_COMPONENT_TYPES &&
        r.value == (if e in StoredIn(componentTypes[tag]) then Some(StoredIn(componentTypes[tag])[e]) else None) &&
        (r.value.Some? <==> componentTypes[tag] in signatures[e]))
      ensures forall i :: 0 <= i < MAX_COMPONENT_TYPES ==> StoredIn(i) == old(StoredIn(i))
      ensures forall t :: t in old(componentTypes) ==> t in componentTypes && componentTypes[t] == old(componentTypes)[t]
    {
      ghost var before := storages[..];
      var t := GetComponentType(tag);
      if t.Failure? {
        return Failure(t.error);
      }
      var ct := t.value;
      var s := storages[ct].value;
      GetMatchesContents(s, e);
      HoldsIsContents(storages[ct], e);
      assert storages[..][ct] == storages[ct];
      return Success(GetWith(s, e, MAX_MARKER));
    }

    /** `HasComponent`: whether the entity has a value of that type, which
        is whether its signature has the type's bit. */
    method HasComponent(e: Entity, tag: Tag) returns (r: Result<bool, RegistryError>)
      requires Valid() && e < MAX_ENTITIES
      modifies this, storages
      ensures Valid() && SamePool()
      ensures Table() == LookUp(old(Table()), tag)
      ensures r.Success? <==> tag in componentTypes
      ensures r.Success? ==> (componentTypes[tag] < MAX_COMPONENT_TYPES &&
        (r.value <==> e in StoredIn(componentTypes[tag])) &&
        (r.value <==> componentTypes[tag] in signatures[e]))
      ensures forall i :: 0 <= i < MAX_COMPONENT_TYPES ==> StoredIn(i) == old(StoredIn(i))
      ensures forall t :: t in old(componentTypes) ==> t in componentTypes && componentTypes[t] == old(componentTypes)[t]
    {
      var t := GetComponentType(tag);
      if t.Failure? {
        return Failure(t.error);
      }
      var ct := t.value;
      var s := storages[ct].value;
      GetMatchesContents(s, e);
      HoldsIsContents(storages[ct], e);
      assert storages[..][ct] == storages[ct];
      return Success(HasWith(s, e, MAX_MARKER));
    }

    /** One tag of `GetComponentSignature`: its id (registered on first use)
        joins the ids of the tags before it. */
    method AddTypeId(tags: seq<Tag>, k: nat, sig: Signature) returns (r: Result<Signature, RegistryError>)
      requires Valid() && k < |tags|
      requires forall j :: 0 <= j < k ==> tags[j] in componentTypes
      requires sig == TypeIds(componentTypes, tags[..k])
      modifies this, storages
      ensures Valid() && SamePool()
      ensures Table() == LookUp(old(Table()), tags[k])
      ensures r.Success? <==> tags[k] in componentTypes
      ensures r.Success? ==> r.value == TypeIds(componentTypes, tags[..k + 1])
      ensures r.Failure? ==> nextComponentType == MAX_COMPONENT_TYPES
      ensures forall i :: 0 <= i < MAX_COMPONENT_TYPES ==> StoredIn(i) == old(StoredIn(i))
      ensures forall t :: t in old(componentTypes) ==> t in componentTypes && componentTypes[t] == old(componentTypes)[t]
    {
      ghost var types := componentTypes;
      var t := GetComponentType(tags[k]);
      if t.Failure? {
        return Failure(t.error);
      }
      TypeIdsExtend(types, componentTypes, tags, k);
      return Success(sig + {t.value});
    }

    /** `GetComponentSignature`: the ids of the requested types, each
        registered on first use in the order given. */
    method GetComponentSignature(tags: seq<Tag>) returns (r: Result<Signature, RegistryError>)
      requires Valid()
      modifies this, storages
      ensures Valid() && SamePool()
      ensures Table() == LookUpAll(old(Table()), tags)
      ensures r.Success? <==> forall t :: t in tags ==> t in componentTypes
      ensures r.Success? ==> r.value == TypeIds(componentTypes, tags)
      ensures r.Failure? ==> nextComponentType == MAX_COMPONENT_TYPES
      ensures forall i :: 0 <= i < MAX_COMPONENT_TYPES ==> StoredIn(i) == old(StoredIn(i))
      ensures forall t :: t in old(componentTypes) ==> t in componentTypes && componentTypes[t] == old(componentTypes)[t]
    {
      var sig: Signature := {};
      for k := 0 to |tags|
        invariant Valid() && SamePool()
        invariant forall j :: 0 <= j < k ==> tags[j] in componentTypes
        invariant sig == TypeIds(componentTypes, tags[..k])
        invariant forall i :: 0 <= i < MAX_COMPONENT_TYPES ==> StoredIn(i) == old(StoredIn(i))
        invariant forall t :: t in old(componentTypes) ==> t in componentTypes && componentTypes[t] == old(componentTypes)[t]
        invariant LookUpAll(old(Table()), tags) == LookUpAll(Table(), tags[k..])
      {
        ghost var before := Table();
        var step := AddTypeId(tags, k, sig);
        assert tags[k..][1..] == tags[k + 1..];
        assert LookUpAll(before, tags[k..]) == LookUpAll(Table(), tags[k + 1..]);
        if step.Failure? {
          assert tags[k] in tags;
          FullTableFixed(Table(), tags[k + 1..]);
          return step;
        }
        sig := step.value;
      }
      assert tags[..|tags|] == tags;
      assert tags[|tags|..] == [];
      return Success(sig);
    }

    /** `GetEntitiesWith` of `src/ECS/EntityManager.h`: the living entities
        whose signature holds every requested type, in creation order. */
    method GetEntitiesWith(tags: seq<Tag>) returns (r: Result<seq<Entity>, RegistryError>)
      requires Valid()
      modifies this, storages
      ensures Valid() && SamePool()
      ensures Table() == LookUpAll(old(Table()), tags)
      ensures r.Success? <==> forall t :: t in tags ==> t in componentTypes
      ensures r.Success? ==> r.value == Matching(active, signatures[..], TypeIds(componentTypes, tags))
      ensures forall i :: 0 <= i < MAX_COMPONENT_TYPES ==> StoredIn(i) == old(StoredIn(i))
    {
      var required := GetComponentSignature(tags);
      if required.Failure? {
        return Failure(required.error);
      }
      var matching := FilterMatching(active, signatures[..], required.value);
      return Success(matching);
    }

    /** `GetEntitiesWith` of `ECS/EntityManager.inl`: the same test over
        the ids 1 .. MAX_ENTITIES in ascending order, skipping every id
        `IsValid` rejects (the last one, MAX_ENTITIES, always). */
    method GetEntitiesWithScan(tags: seq<Tag>) returns (r: Result<seq<Entity>, RegistryError>)
      requires Valid()
      modifies this, storages
      ensures Valid() && SamePool()
      ensures Table() == LookUpAll(old(Table()), tags)
      ensures r.Success? <==> forall t :: t in tags ==> t in componentTypes
      ensures r.Success? ==> r.value == Matching(ValidIds(ScanRange(), available), signatures[..], TypeIds(componentTypes, tags))
      ensures forall i :: 0 <= i < MAX_COMPONENT_TYPES ==> StoredIn(i) == old(StoredIn(i))
    {
      var required := GetComponentSignature(tags);
      if required.Failure? {
        return Failure(required.error);
      }
      var matching := ScanMatching(available, signatures[..], required.value);
      return Success(matching);
    }
  }

  /** The requested signature grows by one id per tag. */
  lemma TypeIdsExtend<Tag>(types: map<Tag, ComponentType>, types': map<Tag, ComponentType>, tags: seq<Tag>, k: nat)
    requires k < |tags| && tags[k] in types'
    requires forall j :: 0 <= j < k ==> tags[j] in types
    requires forall t :: t in types ==> t in types' && types'[t] == types[t]
    ensures TypeIds(types', tags[..k + 1]) == TypeIds(types, tags[..k]) + {types'[tags[k]]}
  {
    var before, after := tags[..k], tags[..k + 1];
    assert after == before + [tags[k]];
    forall i ensures i in TypeIds(types', after) <==> i in TypeIds(types, before) + {types'[tags[k]]} {
      if i in TypeIds(types', after) {
        var t :| t in after && t in types' && types'[t] == i;
        if t != tags[k] {
          assert t in before;
        }
      }
      if i in TypeIds(types, before) {
        var t :| t in before && t in types && types[t] == i;
        assert t in after;
      }
    }
  }

  /** The signatures of two different registered types, each asked for on
      its own, are single, different bits. */
  lemma DistinctTypesDistinctSignatures<Tag>(types: map<Tag, ComponentType>, names: map<ComponentType, Tag>, next: nat, t: Tag, u: Tag)
    requires Registry(types, names, next) && t in types && u in types && t != u
    ensures TypeIds(types, [t]) == {types[t]} && TypeIds(types, [u]) == {types[u]}
    ensures TypeIds(types, [t]) != TypeIds(types, [u])
  {
    assert types[t] in TypeIds(types, [t]);
    assert types[u] in TypeIds(types, [u]);
  }

  /** Freed ids are reused first-in first-out, and only after the ids never
      handed out: destroying the first entity does not make the next
      CreateEntity return 1. */
  method RecyclingOrder<Tag(==), V>(blank: V) returns (first: Entity, second: Entity, next: Entity)
    ensures first == 1 && second == 2 && next == 3
  {
    var m := new EntityManager<Tag, V>(blank);
    first := m.CreateEntity();
    second := m.CreateEntity();
    assert m.active == [1, 2];
    m.DestroyEntity(first);
    next := m.CreateEntity();
  }

  /** Component types are numbered by first use, whichever operation uses
      them: on a manager with no types yet, adding values of types `a` and
      then `b` passes and gives them ids 0 and 1. */
  method NumberedByFirstUse<V>(m: EntityManager<int, V>, e: Entity, v: V, w: V, a: int, b: int)
    returns (added: bool, ids: (ComponentType, ComponentType))
    requires m.Valid() && m.nextComponentType == 0 && e < MAX_ENTITIES && a != b
    modifies m, m.storages, m.signatures
    ensures added && ids == (0, 1)
  {
    var r1 := m.AddComponent(e, a, v);
    var r2 := m.AddComponent(e, b, w);
    added := r1.Pass? && r2.Pass?;
    ids := (m.componentTypes[a], m.componentTypes[b]);
  }
}

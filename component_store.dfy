/** Sparse-set component storage (`ComponentArray<T>`).

    The repository has two generations of this class: src/ECS/ComponentArray.h
    marks an entity without a slot by storing MAX_ENTITIES in its
    entity-to-index entry, ECS/ComponentArray.h stores INVALID_ENTITY (0)
    there. Their code is otherwise the same, so the model writes each
    operation once, over a `Store` value and the `absent` marker, and a class
    `ComponentArray` keeps the three arrays in place and is proved against
    those functions. The first half of the module states what the
    MAX_ENTITIES generation guarantees (the packed invariant, `Packed`); the
    second half what goes wrong with the marker 0. */
module ComponentStore {
  import opened Identity
  import opened Wrappers

  /** The storage's state: the dense values, the two index maps, the size. */
  datatype Store<T> = Store(values: seq<T>, entityToIndex: seq<nat>, indexToEntity: seq<nat>, size: nat)

  /** The absence markers of the two generations. */
  const MAX_MARKER: nat := MAX_ENTITIES
  const ZERO_MARKER: nat := INVALID_ENTITY

  /** All three maps hold MAX_ENTITIES entries, and size fits the capacity. */
  predicate WellSized<T>(s: Store<T>)
  {
    |s.values| == MAX_ENTITIES && |s.entityToIndex| == MAX_ENTITIES &&
    |s.indexToEntity| == MAX_ENTITIES && s.size <= MAX_ENTITIES
  }

  /** A fresh storage: every entity-to-index entry holds the marker, every
      index-to-entity entry INVALID_ENTITY, size 0. `values` is whatever the
      default-constructed array holds. */
  function Empty<T>(values: seq<T>, absent: nat): (s: Store<T>)
    requires |values| == MAX_ENTITIES
    ensures WellSized(s) && s.size == 0
    ensures forall e :: 0 <= e < MAX_ENTITIES ==> s.entityToIndex[e] == absent
  {
    Store(values, seq(MAX_ENTITIES, _ => absent), seq(MAX_ENTITIES, _ => INVALID_ENTITY), 0)
  }

  /** HasData: the entity's entry is not the marker. */
  predicate HasWith<T>(s: Store<T>, e: Entity, absent: nat)
    requires WellSized(s) && e < MAX_ENTITIES
  {
    s.entityToIndex[e] != absent
  }

  /** What InsertData indexes without checking: a present entity's slot
      and, for an absent one, the next free slot. */
  predicate CanInsert<T>(s: Store<T>, e: Entity, absent: nat)
  {
    WellSized(s) && e < MAX_ENTITIES &&
    (if s.entityToIndex[e] != absent then s.entityToIndex[e] < MAX_ENTITIES else s.size < MAX_ENTITIES)
  }

  /** InsertData: overwrite the value of a present entity; otherwise
      append it at dense index `size`, record both map directions and grow. */
  function InsertWith<T>(s: Store<T>, e: Entity, v: T, absent: nat): (r: Store<T>)
    requires CanInsert(s, e, absent)
    ensures WellSized(r)
    ensures r.entityToIndex[e] < MAX_ENTITIES && r.values[r.entityToIndex[e]] == v
    ensures r.size == if HasWith(s, e, absent) then s.size else s.size + 1
    ensures forall f :: 0 <= f < MAX_ENTITIES && f != e ==> r.entityToIndex[f] == s.entityToIndex[f]
    ensures forall i :: 0 <= i < MAX_ENTITIES && i != r.entityToIndex[e] ==> r.values[i] == s.values[i]
  {
    if s.entityToIndex[e] != absent then
      s.(values := s.values[s.entityToIndex[e] := v])
    else
      var newIndex := s.size;
      Store(s.values[newIndex := v], s.entityToIndex[e := newIndex],
            s.indexToEntity[newIndex := e], s.size + 1)
  }

  /** What RemoveData indexes without checking. */
  predicate CanRemove<T>(s: Store<T>, e: Entity, absent: nat)
  {
    WellSized(s) && e < MAX_ENTITIES &&
    (s.entityToIndex[e] != absent ==>
       0 < s.size && s.entityToIndex[e] < MAX_ENTITIES && s.indexToEntity[s.size - 1] < MAX_ENTITIES)
  }

  /** RemoveData: nothing for an absent entity; otherwise copy the last
      value into the hole, repoint both maps at the moved entity, then mark
      the removed entity and the last slot unused and shrink. */
  function RemoveWith<T>(s: Store<T>, e: Entity, absent: nat): (r: Store<T>)
    requires CanRemove(s, e, absent)
    ensures WellSized(r)
    ensures !HasWith(s, e, absent) ==> r == s
    ensures HasWith(s, e, absent) ==>
      r.size == s.size - 1 && r.entityToIndex[e] == absent && r.indexToEntity[r.size] == INVALID_ENTITY &&
      r.values[s.entityToIndex[e]] == s.values[s.size - 1]
    ensures HasWith(s, e, absent) && s.indexToEntity[s.size - 1] != e ==>
      r.entityToIndex[s.indexToEntity[s.size - 1]] == s.entityToIndex[e]
  {
    if s.entityToIndex[e] == absent then s
    else
      var removed := s.entityToIndex[e];
      var last := s.size - 1;
      var moved := s.indexToEntity[last];
      var values := s.values[removed := s.values[last]];
      var toIndex := s.entityToIndex[moved := removed];
      var toEntity := s.indexToEntity[removed := moved];
      Store(values, toIndex[e := absent], toEntity[last := INVALID_ENTITY], last)
  }

  /** GetData / GetComponent: the slot's value, or None ("nullptr"). */
  function GetWith<T>(s: Store<T>, e: Entity, absent: nat): (r: Option<T>)
    requires WellSized(s) && e < MAX_ENTITIES
    requires s.entityToIndex[e] != absent ==> s.entityToIndex[e] < MAX_ENTITIES
    ensures r.Some? <==> HasWith(s, e, absent)
  {
    if s.entityToIndex[e] == absent then None else Some(s.values[s.entityToIndex[e]])
  }

  // ---------------------------------------------------------------------
  // The MAX_ENTITIES generation (src/ECS/ComponentArray.h)
  // ---------------------------------------------------------------------

  /** The packed invariant: the first `size` slots name distinct entities
      whose entries point back at them, every entry that is not the marker
      points into the first `size` slots and back, and every slot from
      `size` on holds INVALID_ENTITY. */
  ghost predicate Packed<T>(s: Store<T>)
  {
    WellSized(s) &&
    (forall i :: 0 <= i < s.size ==>
       s.indexToEntity[i] < MAX_ENTITIES && s.entityToIndex[s.indexToEntity[i]] == i) &&
    (forall e :: 0 <= e < MAX_ENTITIES && s.entityToIndex[e] != MAX_MARKER ==>
       s.entityToIndex[e] < s.size && s.indexToEntity[s.entityToIndex[e]] == e) &&
    (forall i :: s.size <= i < MAX_ENTITIES ==> s.indexToEntity[i] == INVALID_ENTITY)
  }

  /** The entities that own a slot, with their values. */
  ghost function Contents<T>(s: Store<T>): map<Entity, T>
    requires Packed(s)
  {
    map e | 0 <= e < MAX_ENTITIES && s.entityToIndex[e] != MAX_MARKER :: s.values[s.entityToIndex[e]]
  }

  /** The entities in dense order. */
  ghost function Dense<T>(s: Store<T>): seq<Entity>
    requires Packed(s)
  {
    s.indexToEntity[..s.size]
  }

  /** A fresh storage is packed and holds no entity. */
  lemma EmptyIsPacked<T>(values: seq<T>)
    requires |values| == MAX_ENTITIES
    ensures Packed(Empty(values, MAX_MARKER))
    ensures Contents(Empty(values, MAX_MARKER)) == map[]
  {
  }

  /** The number of distinct elements of the first `n` entries of an
      injective sequence is `n`. */
  lemma {:induction false} InjectivePrefixCard(f: seq<nat>, n: nat)
    requires n <= |f|
    requires forall i, j :: 0 <= i < j < n ==> f[i] != f[j]
    ensures |set i | 0 <= i < n :: f[i]| == n
  {
    if n > 0 {
      InjectivePrefixCard(f, n - 1);
      var prev := set i | 0 <= i < n - 1 :: f[i];
      assert (set i | 0 <= i < n :: f[i]) == prev + {f[n - 1]};
      assert f[n - 1] !in prev;
    }
  }

  /** The naturals below `n`. */
  ghost function Below(n: nat): set<nat>
  {
    if n == 0 then {} else Below(n - 1) + {n - 1}
  }

  /** `Below(n)` holds exactly the `n` naturals below `n`. */
  lemma {:induction false} BelowCard(n: nat)
    ensures |Below(n)| == n
    ensures forall x: nat :: x in Below(n) <==> x < n
  {
    if n > 0 {
      BelowCard(n - 1);
      var below := Below(n - 1);
      assert Below(n) == below + {n - 1};
      assert n - 1 !in below;
    }
  }

  /** The storage holds exactly `size` entities. */
  lemma ContentsCard<T>(s: Store<T>)
    requires Packed(s)
    ensures |Contents(s).Keys| == s.size
    ensures Contents(s).Keys == set i | 0 <= i < s.size :: s.indexToEntity[i]
  {
    var keys := set i | 0 <= i < s.size :: s.indexToEntity[i];
    forall e | e in Contents(s) ensures e in keys {
      assert s.indexToEntity[s.entityToIndex[e]] == e;
    }
    forall i | 0 <= i < s.size ensures s.indexToEntity[i] in Contents(s) {
      assert s.entityToIndex[s.indexToEntity[i]] == i;
    }
    assert Contents(s).Keys == keys;
    InjectivePrefixCard(s.indexToEntity, s.size);
  }

  /** Pigeonhole: an entity without a slot leaves room for one more, so the
      unchecked `mIndexToEntity[mSize]` of InsertData stays in range. */
  lemma AbsentLeavesRoom<T>(s: Store<T>, e: Entity)
    requires Packed(s) && e < MAX_ENTITIES && s.entityToIndex[e] == MAX_MARKER
    ensures s.size < MAX_ENTITIES
  {
    ContentsCard(s);
    assert e !in Contents(s).Keys;
    RoomBeside(Contents(s).Keys, e, MAX_ENTITIES);
  }

  /** A set of naturals below `n` that misses one of them has fewer than
      `n` elements. */
  lemma RoomBeside(keys: set<nat>, e: nat, n: nat)
    requires forall x :: x in keys ==> x < n
    requires e < n && e !in keys
    ensures |keys| < n
  {
    var grown := keys + {e};
    assert |grown| == |keys| + 1;
    BelowCard(n);
    SubsetCard(grown, Below(n));
  }

  /** A subset is no larger than its superset. */
  lemma SubsetCard(a: set<nat>, b: set<nat>)
    requires a <= b
    ensures |a| <= |b|
  {
    assert b == a + (b - a);
  }

  /** Inserting into a packed storage: the insert is in range, the storage
      stays packed, and the entity now maps to `v` with no other entry
      touched. A present entity is overwritten in place (size and both maps
      unchanged); an absent one lands at the old size. */
  lemma InsertKeepsPacked<T>(s: Store<T>, e: Entity, v: T)
    requires Packed(s) && e < MAX_ENTITIES
    ensures CanInsert(s, e, MAX_MARKER)
    ensures Packed(InsertWith(s, e, v, MAX_MARKER))
    ensures Contents(InsertWith(s, e, v, MAX_MARKER)) == Contents(s)[e := v]
    ensures e in Contents(s) ==>
      var t := InsertWith(s, e, v, MAX_MARKER);
      t.size == s.size && t.entityToIndex == s.entityToIndex && t.indexToEntity == s.indexToEntity
    ensures e !in Contents(s) ==>
      var t := InsertWith(s, e, v, MAX_MARKER);
      t.size == s.size + 1 && t.entityToIndex[e] == s.size && t.indexToEntity[s.size] == e &&
      Dense(t) == Dense(s) + [e]
  {
    if s.entityToIndex[e] == MAX_MARKER {
      InsertAbsentKeepsPacked(s, e, v);
    } else {
      InsertPresentKeepsPacked(s, e, v);
    }
  }

  /** Overwriting a present entity's value keeps the slots as they are. */
  lemma InsertPresentKeepsPacked<T>(s: Store<T>, e: Entity, v: T)
    requires Packed(s) && e < MAX_ENTITIES && s.entityToIndex[e] != MAX_MARKER
    ensures CanInsert(s, e, MAX_MARKER)
    ensures Packed(InsertWith(s, e, v, MAX_MARKER))
    ensures Contents(InsertWith(s, e, v, MAX_MARKER)) == Contents(s)[e := v]
  {
    var t := InsertWith(s, e, v, MAX_MARKER);
    assert t.entityToIndex == s.entityToIndex && t.indexToEntity == s.indexToEntity && t.size == s.size;
    assert Packed(t);
    assert Contents(t).Keys == Contents(s)[e := v].Keys;
    forall x | x in Contents(t) ensures Contents(t)[x] == Contents(s)[e := v][x] {
      if x != e {
        assert s.indexToEntity[s.entityToIndex[x]] == x;
      }
    }
  }

  /** Appending an absent entity at dense index `size` keeps the storage packed. */
  lemma InsertAbsentKeepsPacked<T>(s: Store<T>, e: Entity, v: T)
    requires Packed(s) && e < MAX_ENTITIES && s.entityToIndex[e] == MAX_MARKER
    ensures CanInsert(s, e, MAX_MARKER)
    ensures Packed(InsertWith(s, e, v, MAX_MARKER))
    ensures Contents(InsertWith(s, e, v, MAX_MARKER)) == Contents(s)[e := v]
  {
    AbsentLeavesRoom(s, e);
    var t := InsertWith(s, e, v, MAX_MARKER);
    assert Packed(t);
    assert Contents(t).Keys == Contents(s)[e := v].Keys;
  }

  /** The swap-with-last removal of a present entity keeps the storage packed. */
  lemma RemovePresentKeepsPacked<T>(s: Store<T>, e: Entity)
    requires Packed(s) && e < MAX_ENTITIES && s.entityToIndex[e] != MAX_MARKER
    ensures CanRemove(s, e, MAX_MARKER)
    ensures Packed(RemoveWith(s, e, MAX_MARKER))
  {
    var t := RemoveWith(s, e, MAX_MARKER);
    var removed := s.entityToIndex[e];
    var moved := s.indexToEntity[s.size - 1];
    assert s.entityToIndex[moved] == s.size - 1;
    assert s.indexToEntity[removed] == e;
    forall i | 0 <= i < t.size
      ensures t.indexToEntity[i] < MAX_ENTITIES && t.entityToIndex[t.indexToEntity[i]] == i
    {
      if i != removed {
        assert s.entityToIndex[s.indexToEntity[i]] == i;
      }
    }
    forall x | 0 <= x < MAX_ENTITIES && t.entityToIndex[x] != MAX_MARKER
      ensures t.entityToIndex[x] < t.size && t.indexToEntity[t.entityToIndex[x]] == x
    {
      if x != moved {
        assert s.indexToEntity[s.entityToIndex[x]] == x;
      }
    }
  }

  /** The removal of a present entity loses exactly that entity and keeps
      every other value. */
  lemma RemovePresentContents<T>(s: Store<T>, e: Entity)
    requires Packed(s) && e < MAX_ENTITIES && s.entityToIndex[e] != MAX_MARKER
    requires CanRemove(s, e, MAX_MARKER) && Packed(RemoveWith(s, e, MAX_MARKER))
    ensures Contents(RemoveWith(s, e, MAX_MARKER)) == Contents(s) - {e}
  {
    var t := RemoveWith(s, e, MAX_MARKER);
    var removed := s.entityToIndex[e];
    var moved := s.indexToEntity[s.size - 1];
    assert s.entityToIndex[moved] == s.size - 1;
    assert s.indexToEntity[removed] == e;
    assert t.entityToIndex == s.entityToIndex[moved := removed][e := MAX_MARKER];
    assert t.values == s.values[removed := s.values[s.size - 1]];
    assert Contents(t).Keys == Contents(s).Keys - {e};
    forall x | x in Contents(t) ensures Contents(t)[x] == Contents(s)[x] {
      if x != moved {
        assert s.indexToEntity[s.entityToIndex[x]] == x;
      }
    }
  }

  /** Removing from a packed storage: the removal is in range, the storage
      stays packed and loses exactly `e`; every other entity keeps its
      value. In dense order the last entity moves into the hole. */
  lemma RemoveKeepsPacked<T>(s: Store<T>, e: Entity)
    requires Packed(s) && e < MAX_ENTITIES
    ensures CanRemove(s, e, MAX_MARKER)
    ensures Packed(RemoveWith(s, e, MAX_MARKER))
    ensures Contents(RemoveWith(s, e, MAX_MARKER)) == Contents(s) - {e}
    ensures e !in Contents(s) ==> RemoveWith(s, e, MAX_MARKER) == s
    ensures e in Contents(s) ==>
      var t := RemoveWith(s, e, MAX_MARKER);
      var hole := s.entityToIndex[e];
      t.size == s.size - 1 &&
      Dense(t) == Dense(s)[hole := Dense(s)[s.size - 1]][..s.size - 1]
  {
    if s.entityToIndex[e] != MAX_MARKER {
      RemovePresentKeepsPacked(s, e);
      RemovePresentContents(s, e);
      var t := RemoveWith(s, e, MAX_MARKER);
      var last := s.size - 1;
      assert Dense(t) == Dense(s)[s.entityToIndex[e] := Dense(s)[last]][..last];
    } else {
      assert Contents(s) - {e} == Contents(s);
    }
  }

  /** Removing the entity that sits in the last slot still leaves it
      absent: the marker is written after the moved entity (itself) has
      been repointed. */
  lemma RemoveLastSlotLeavesAbsent<T>(s: Store<T>, e: Entity)
    requires Packed(s) && e < MAX_ENTITIES
    requires s.size > 0 && s.indexToEntity[s.size - 1] == e
    ensures CanRemove(s, e, MAX_MARKER)
    ensures var t := RemoveWith(s, e, MAX_MARKER);
      t.entityToIndex[e] == MAX_MARKER && t.indexToEntity[s.size - 1] == INVALID_ENTITY &&
      t.size == s.size - 1
  {
    assert s.entityToIndex[e] == s.size - 1;
  }

  /** HasData and GetData read the contents. */
  lemma GetMatchesContents<T>(s: Store<T>, e: Entity)
    requires Packed(s) && e < MAX_ENTITIES
    ensures HasWith(s, e, MAX_MARKER) <==> e in Contents(s)
    ensures GetWith(s, e, MAX_MARKER) == if e in Contents(s) then Some(Contents(s)[e]) else None
  {
  }

  // ---------------------------------------------------------------------
  // The INVALID_ENTITY generation (ECS/ComponentArray.h)
  // ---------------------------------------------------------------------

  /** What the marker-0 storage keeps: slots 1 .. size-1 are mirrored by
      their entity's entry, and an entry that is not 0 points into the
      first `size` slots and back. Slot 0 is not mirrored: its entity's
      entry is 0, which reads as "absent". */
  ghost predicate ZeroConsistent<T>(s: Store<T>)
  {
    WellSized(s) &&
    (forall i :: 0 <= i < s.size ==> s.indexToEntity[i] < MAX_ENTITIES) &&
    (forall i :: 0 < i < s.size ==> s.entityToIndex[s.indexToEntity[i]] == i) &&
    (forall e :: 0 <= e < MAX_ENTITIES && s.entityToIndex[e] != ZERO_MARKER ==>
       s.entityToIndex[e] < s.size && s.indexToEntity[s.entityToIndex[e]] == e)
  }

  lemma ZeroEmptyConsistent<T>(values: seq<T>)
    requires |values| == MAX_ENTITIES
    ensures ZeroConsistent(Empty(values, ZERO_MARKER))
  {
  }

  /** With marker 0, InsertData keeps `ZeroConsistent`, whenever the
      storage has room for an entity that reads as absent. */
  lemma ZeroInsertConsistent<T>(s: Store<T>, e: Entity, v: T)
    requires ZeroConsistent(s) && e < MAX_ENTITIES
    requires s.entityToIndex[e] == ZERO_MARKER ==> s.size < MAX_ENTITIES
    ensures CanInsert(s, e, ZERO_MARKER)
    ensures ZeroConsistent(InsertWith(s, e, v, ZERO_MARKER))
  {
    var t := InsertWith(s, e, v, ZERO_MARKER);
    if s.entityToIndex[e] == ZERO_MARKER {
      forall i | 0 < i < t.size ensures t.entityToIndex[t.indexToEntity[i]] == i {
        if i < s.size {
          assert s.entityToIndex[s.indexToEntity[i]] == i;
        }
      }
      forall x | 0 <= x < MAX_ENTITIES && t.entityToIndex[x] != ZERO_MARKER
        ensures t.entityToIndex[x] < t.size && t.indexToEntity[t.entityToIndex[x]] == x
      {
        if x != e {
          assert s.indexToEntity[s.entityToIndex[x]] == x;
        }
      }
    }
  }

  /** With marker 0, RemoveData is in range and keeps `ZeroConsistent`. */
  lemma ZeroRemoveConsistent<T>(s: Store<T>, e: Entity)
    requires ZeroConsistent(s) && e < MAX_ENTITIES
    ensures CanRemove(s, e, ZERO_MARKER)
    ensures ZeroConsistent(RemoveWith(s, e, ZERO_MARKER))
  {
    if s.entityToIndex[e] != ZERO_MARKER {
      var t := RemoveWith(s, e, ZERO_MARKER);
      var removed := s.entityToIndex[e];
      var last := s.size - 1;
      var moved := s.indexToEntity[last];
      assert s.entityToIndex[moved] == last;
      assert s.indexToEntity[removed] == e;
      forall i | 0 < i < t.size ensures t.entityToIndex[t.indexToEntity[i]] == i {
        if i != removed {
          assert s.entityToIndex[s.indexToEntity[i]] == i;
        }
      }
      forall x | 0 <= x < MAX_ENTITIES && t.entityToIndex[x] != ZERO_MARKER
        ensures t.entityToIndex[x] < t.size && t.indexToEntity[t.entityToIndex[x]] == x
      {
        if x != moved {
          assert s.indexToEntity[s.entityToIndex[x]] == x;
        }
      }
    }
  }

  /** The first insert into an empty marker-0 storage is invisible: the
      entity lands at dense index 0, which is the marker, so HasData is
      false and GetData is None although size is 1. */
  lemma ZeroFirstInsertHidden<T>(values: seq<T>, e: Entity, v: T)
    requires |values| == MAX_ENTITIES && e < MAX_ENTITIES
    ensures CanInsert(Empty(values, ZERO_MARKER), e, ZERO_MARKER)
    ensures var t := InsertWith(Empty(values, ZERO_MARKER), e, v, ZERO_MARKER);
      !HasWith(t, e, ZERO_MARKER) && GetWith(t, e, ZERO_MARKER) == None &&
      t.size == 1 && t.indexToEntity[0] == e
  {
  }

  /** Slot 0 is never touched by RemoveData: a removal needs a nonzero
      entry, so both the hole and the last slot lie above 0, and nothing is
      ever moved into slot 0. Whatever entity the first insert put there
      stays there, reading as absent. */
  lemma ZeroSlotZeroStuck<T>(s: Store<T>, e: Entity)
    requires ZeroConsistent(s) && e < MAX_ENTITIES && s.size > 0
    ensures CanRemove(s, e, ZERO_MARKER)
    ensures var t := RemoveWith(s, e, ZERO_MARKER);
      t.size > 0 && t.indexToEntity[0] == s.indexToEntity[0] && t.values[0] == s.values[0]
  {
    if s.entityToIndex[e] != ZERO_MARKER {
      assert s.indexToEntity[s.entityToIndex[e]] == e;
    }
  }

  /** Re-inserting the entity of slot 0 appends a second slot for it: the
      storage then holds the same entity twice and counts it twice. */
  lemma ZeroReinsertDuplicates<T>(s: Store<T>, v: T)
    requires ZeroConsistent(s) && 0 < s.size < MAX_ENTITIES
    requires s.entityToIndex[s.indexToEntity[0]] == ZERO_MARKER
    ensures CanInsert(s, s.indexToEntity[0], ZERO_MARKER)
    ensures var e := s.indexToEntity[0];
      var t := InsertWith(s, e, v, ZERO_MARKER);
      t.size == s.size + 1 && t.indexToEntity[0] == e && t.indexToEntity[s.size] == e &&
      HasWith(t, e, ZERO_MARKER)
  {
  }

  /** Away from slot 0 the two generations differ only in the marker: a
      present entity is overwritten alike, and a removal gives the same
      storage up to the marker written into the removed entity's entry. */
  lemma MarkersAgreeAwayFromSlotZero<T>(s: Store<T>, e: Entity, v: T)
    requires WellSized(s) && e < MAX_ENTITIES
    requires 0 < s.entityToIndex[e] < s.size && s.indexToEntity[s.size - 1] < MAX_ENTITIES
    ensures InsertWith(s, e, v, ZERO_MARKER) == InsertWith(s, e, v, MAX_MARKER)
    ensures var z := RemoveWith(s, e, ZERO_MARKER);
      var m := RemoveWith(s, e, MAX_MARKER);
      z == m.(entityToIndex := m.entityToIndex[e := ZERO_MARKER])
  {
  }

  // ---------------------------------------------------------------------
  // The class that keeps the arrays in place
  // ---------------------------------------------------------------------

  /** ComponentArray<T>: three fixed arrays of MAX_ENTITIES entries and the
      size, updated in place. `absent` is the generation's marker. */
  class ComponentArray<T(0)> {
    const absent: nat
    const components: array<T>
    const entityToIndex: array<nat>
    const indexToEntity: array<nat>
    var size: nat

    /** The arrays as a `Store` value. */
    ghost function State(): Store<T>
      reads this, components, entityToIndex, indexToEntity
    {
      Store(components[..], entityToIndex[..], indexToEntity[..], size)
    }

    /** The generation's invariant holds of the arrays. */
    ghost predicate Valid()
      reads this, components, entityToIndex, indexToEntity
    {
      entityToIndex != indexToEntity &&
      components as object != entityToIndex as object && components as object != indexToEntity as object &&
      (absent == MAX_MARKER || absent == ZERO_MARKER) &&
      (absent == MAX_MARKER ==> Packed(State())) &&
      (absent == ZERO_MARKER ==> ZeroConsistent(State()))
    }

    /** src/ECS/ComponentArray.h: entries filled with MAX_ENTITIES. */
    constructor MaxSentinel()
      ensures Valid() && absent == MAX_MARKER
      ensures fresh(components) && fresh(entityToIndex) && fresh(indexToEntity)
      ensures State() == Empty(components[..], MAX_MARKER)
      ensures Contents(State()) == map[]
    {
      absent := MAX_MARKER;
      components := new T[MAX_ENTITIES];
      entityToIndex := new nat[MAX_ENTITIES](_ => MAX_MARKER);
      indexToEntity := new nat[MAX_ENTITIES](_ => INVALID_ENTITY);
      size := 0;
      new;
      assert State() == Empty(components[..], MAX_MARKER);
      EmptyIsPacked(components[..]);
    }

    /** ECS/ComponentArray.h: entries filled with INVALID_ENTITY. */
    constructor ZeroSentinel()
      ensures Valid() && absent == ZERO_MARKER
      ensures fresh(components) && fresh(entityToIndex) && fresh(indexToEntity)
      ensures State() == Empty(components[..], ZERO_MARKER)
    {
      absent := ZERO_MARKER;
      components := new T[MAX_ENTITIES];
      entityToIndex := new nat[MAX_ENTITIES](_ => ZERO_MARKER);
      indexToEntity := new nat[MAX_ENTITIES](_ => INVALID_ENTITY);
      size := 0;
      new;
      assert State() == Empty(components[..], ZERO_MARKER);
    }

    /** InsertData. With marker 0 the caller must leave room for an entity
        that reads as absent, since nothing else guarantees it. */
    method InsertData(e: Entity, v: T)
      requires Valid() && e < MAX_ENTITIES
      requires absent == ZERO_MARKER && entityToIndex[e] == ZERO_MARKER ==> size < MAX_ENTITIES
      modifies this, components, entityToIndex, indexToEntity
      ensures Valid()
      ensures CanInsert(old(State()), e, absent) && State() == InsertWith(old(State()), e, v, absent)
      ensures absent == MAX_MARKER ==> Contents(State()) == Contents(old(State()))[e := v]
    {
      if absent == MAX_MARKER {
        InsertKeepsPacked(State(), e, v);
      } else {
        ZeroInsertConsistent(State(), e, v);
      }
      ghost var target := InsertWith(State(), e, v, absent);
      if entityToIndex[e] != absent {
        components[entityToIndex[e]] := v;
        assert components[..] == target.values;
        assert State() == target;
        return;
      }
      var newIndex := size;
      entityToIndex[e] := newIndex;
      indexToEntity[newIndex] := e;
      components[newIndex] := v;
      size := size + 1;
      assert components[..] == target.values;
      assert entityToIndex[..] == target.entityToIndex;
      assert indexToEntity[..] == target.indexToEntity;
      assert State() == target;
    }

    /** RemoveData: swap-with-last removal. */
    method RemoveData(e: Entity)
      requires Valid() && e < MAX_ENTITIES
      modifies this, components, entityToIndex, indexToEntity
      ensures Valid()
      ensures CanRemove(old(State()), e, absent) && State() == RemoveWith(old(State()), e, absent)
      ensures absent == MAX_MARKER ==> Contents(State()) == Contents(old(State())) - {e}
    {
      if absent == MAX_MARKER {
        RemoveKeepsPacked(State(), e);
      } else {
        ZeroRemoveConsistent(State(), e);
      }
      ghost var target := RemoveWith(State(), e, absent);
      if entityToIndex[e] == absent {
        return;
      }
      var indexOfRemovedEntity := entityToIndex[e];
      var indexOfLastElement := size - 1;
      components[indexOfRemovedEntity] := components[indexOfLastElement];
      var entityOfLastElement := indexToEntity[indexOfLastElement];
      entityToIndex[entityOfLastElement] := indexOfRemovedEntity;
      indexToEntity[indexOfRemovedEntity] := entityOfLastElement;
      entityToIndex[e] := absent;
      indexToEntity[indexOfLastElement] := INVALID_ENTITY;
      size := size - 1;
      assert components[..] == target.values;
      assert entityToIndex[..] == target.entityToIndex;
      assert indexToEntity[..] == target.indexToEntity;
      assert State() == target;
    }

    /** EntityDestroyed: RemoveData when the entity has a slot. */
    method EntityDestroyed(e: Entity)
      requires Valid() && e < MAX_ENTITIES
      modifies this, components, entityToIndex, indexToEntity
      ensures Valid()
      ensures CanRemove(old(State()), e, absent) && State() == RemoveWith(old(State()), e, absent)
    {
      if entityToIndex[e] != absent {
        RemoveData(e);
      }
    }

    /** HasData. */
    function HasData(e: Entity): (b: bool)
      requires Valid() && e < MAX_ENTITIES
      reads this, components, entityToIndex, indexToEntity
      ensures absent == MAX_MARKER ==> (b <==> e in Contents(State()))
      ensures absent == ZERO_MARKER && b ==> entityToIndex[e] < size
    {
      entityToIndex[e] != absent
    }

    /** GetData, and the typed GetComponent with the same body: the slot's
        value, or None exactly when HasData is false. */
    function GetData(e: Entity): (r: Option<T>)
      requires Valid() && e < MAX_ENTITIES
      reads this, components, entityToIndex, indexToEntity
      ensures r.None? <==> !HasData(e)
      ensures absent == MAX_MARKER ==>
        r == if e in Contents(State()) then Some(Contents(State())[e]) else None
    {
      if entityToIndex[e] == absent then None else Some(components[entityToIndex[e]])
    }

    /** GetComponents: the whole backing array; its first `size` values
        belong to the entities in dense order. */
    function GetComponents(): (vals: seq<T>)
      requires Valid()
      reads this, components, entityToIndex, indexToEntity
      ensures |vals| == MAX_ENTITIES && size <= |vals|
      ensures absent == MAX_MARKER ==> forall i :: 0 <= i < size ==>
        indexToEntity[i] in Contents(State()) && vals[i] == Contents(State())[indexToEntity[i]]
    {
      components[..]
    }

    /** GetSize: with marker MAX_ENTITIES, the number of entities held. */
    function GetSize(): (n: nat)
      requires Valid()
      reads this, components, entityToIndex, indexToEntity
      ensures n <= MAX_ENTITIES
      ensures absent == MAX_MARKER ==> n == |Contents(State()).Keys|
    {
      if absent == MAX_MARKER then ContentsCard(State()); size else size
    }
  }
}

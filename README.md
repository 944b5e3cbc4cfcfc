# Lite2D core, modelled in Dafny

Lite2D is a small C++/SDL3 2D engine built around an entity-component-system
(ECS). This project models four parts of it and proves properties of each.

- **Component storage** (`component_store.dfy`).
  - `ComponentArray<T>` is a sparse set: a dense array of values, plus the two index maps `mEntityToIndex` and `mIndexToEntity`, plus `mSize`.
  - Insert appends a value. Remove swaps the last value into the hole.
  - The two generations differ only in the marker for an absent entity:
    - `src/ECS/ComponentArray.h` uses `MAX_ENTITIES`;
    - `ECS/ComponentArray.h` uses `INVALID_ENTITY`, which is 0 and so is also dense index 0.
  - The operations are written once, as functions over a `Store` value with the marker as a parameter.
  - The class `ComponentArray` keeps the three arrays and `mSize` in place. Its methods are proved to compute exactly those functions.
  - The packed invariant and the abstraction `Contents` (entity → value) are proved for the `MAX_ENTITIES` generation.
  - For the 0 generation, the weaker invariant it really keeps is proved, together with the way it goes wrong (see Findings).
- **Entity manager** (`entity_manager.dfy`, `entity_queries.dfy`, `identity.dfy`).
  - The id pool: a FIFO queue of free ids, the list of active ids in creation order, and the living count.
  - One signature per entity, a set of component-type ids.
  - The lazily grown registry from type tag to id, and one storage per registered type.
  - The invariant tying these together:
    - the active and free lists partition 1..`MAX_ENTITIES`-1;
    - the count is the length of the active list;
    - bit *i* of an entity's signature is set exactly when storage *i* holds that entity.
  - Both query variants:
    - creation order over the active list (`src/ECS/EntityManager.h`);
    - ascending id order over a scan of 1..`MAX_ENTITIES` (`ECS/EntityManager.inl`).
  - The two variants are proved to return the same entities.
- **System registry** (`systems.dfy`).
  - Systems are keyed by an abstract type tag.
  - The execution list holds each registered system exactly once, in registration order.
  - The signature map is bookkeeping only. `OnEntitySignatureChanged` creates empty entries in it.
  - The run loops return the systems they call, in call order: running only the enabled ones for `UpdateSystems`, all of them for `InitializeAllSystems` and `ShutdownAllSystems`.
  - `EnableSystem` changes the first system with that name. `OnEntityDestroyed` does nothing.
- **Small state machines.**
  - The key and mouse-button state machine (None/Pressed/Held/Released) of both input managers (`key_states.dfy`, `input.dfy`, `legacy_input.dfy`).
  - The two pause/unpause timers, with 64-bit wrap-around written out (`timers.dfy`).
  - The Snake game's rules (`snake_head.dfy`, `game_state.dfy`, `snake_input.dfy`):
    - the head's anti-reversal turn rule;
    - the score, high-score and level counters;
    - the key mapping and the MENU/PLAYING/PAUSED/GAME_OVER screen transitions.

Some source files are duplicates, and one pair disagrees:

- `ECS/EntityManager.cpp` is identical to `src/ECS/EntityManager.cpp`.
- The template operations of `ECS/EntityManager.inl` are identical to those of `src/ECS/EntityManager.h`, except `GetEntitiesWith`.
- `src/ECS/System.h` is identical to `ECS/System.h`.
- `ECS/SystemManager.inl` is identical to the templates in `src/ECS/SystemManager.h`.
- The `Model` rows cite one copy of each duplicate.
- `ECS/EntityManager.h` does not declare the `mActiveEntities` list that both `.cpp` files use. The model therefore pairs both `.cpp` files with the state layout of `src/ECS/EntityManager.h`.

Calls the model cannot see are replaced as follows:

- **Clock readings** (`SDL_GetPerformanceCounter`, `SDL_GetTicks`) become a parameter `now`.
- **SDL events** become the datatype `KeyStates.Event`.
- **Entity-manager lookups in the Snake input system** become nullable object parameters.
- **A system's `Update`, `Initialize` and `Shutdown`** become the trace returned by the registry loops.

## Model

| member | source | states |
|---|---|---|
| Identity.ConstantsFitTheirWidths | ECS/Entity.h:9-17 | The invalid id is 0 and `MAX_ENTITIES` is 10000, so usable ids are 1..9999 and fit in 32 bits; `MAX_COMPONENT_TYPES` is 64 and fits in the 8-bit `ComponentType`. |
| Wrappers.MapInsert | src/ECS/SystemManager.h:93 | `unordered_map::insert`: the key is present afterwards, an existing entry is never overwritten, a new key gets the value, other keys keep theirs. |
| ComponentStore.Empty | src/ECS/ComponentArray.h:21-26 | A new storage has size 0 and every entity slot holds the absent marker. |
| ComponentStore.HasWith | src/ECS/ComponentArray.h:74-76 | `HasData` on a storage value: the entity's entry is not the marker. It has no contract of its own; `GetWith` and `GetMatchesContents` tie it to the value returned and to the entities held. |
| ComponentStore.InsertWith | src/ECS/ComponentArray.h:29-42 | The result keeps the capacity; the entity's entry points at a slot holding the new value; size stays for a present entity and grows by one for an absent one; no other entity's entry and no other slot's value changes. |
| ComponentStore.RemoveWith | src/ECS/ComponentArray.h:45-63 | The result keeps the capacity. An absent entity leaves the storage as it was. For a present one: it is marked absent, size drops by one, the vacated last slot names `INVALID_ENTITY`, the hole receives the last value, and the moved entity's entry points at the hole. |
| ComponentStore.GetWith | src/ECS/ComponentArray.h:66-71 | A value exactly when `HasWith` holds. |
| ComponentStore.EmptyIsPacked | src/ECS/ComponentArray.h:21-26 | A new `MAX_ENTITIES`-marker storage satisfies the packed invariant and holds no entity. |
| ComponentStore.ContentsCard | src/ECS/ComponentArray.h:105 | In a packed storage the number of entities held equals `mSize`, and they are exactly the entities of the dense prefix. |
| ComponentStore.AbsentLeavesRoom | src/ECS/ComponentArray.h:36-41 | While some entity is absent the dense array is not full, so appending at `mSize` stays in bounds. |
| ComponentStore.RoomBeside | src/ECS/ComponentArray.h:37-39 | Pigeonhole over entity ids: a set of ids below `MAX_ENTITIES` that misses one of them has fewer than `MAX_ENTITIES` elements. |
| ComponentStore.InsertPresentKeepsPacked | src/ECS/ComponentArray.h:30-33 | Overwriting a present entity's value keeps the storage packed and changes only that entity's value. |
| ComponentStore.InsertAbsentKeepsPacked | src/ECS/ComponentArray.h:37-41 | Appending an absent entity stays in range, keeps the storage packed and adds exactly that entity with its value. |
| ComponentStore.InsertKeepsPacked | src/ECS/ComponentArray.h:29-42 | Insert keeps the packed invariant and maps the entity to the new value. A present entity is overwritten in place with size and both maps unchanged; an absent one lands at old `mSize` with both maps recording it and size up by one. |
| ComponentStore.RemoveKeepsPacked | src/ECS/ComponentArray.h:45-63 | Remove keeps the packed invariant and drops exactly that entity, every other keeping its value. An absent entity changes nothing; a present one has the last element moved into its hole and size down by one. |
| ComponentStore.RemoveLastSlotLeavesAbsent | src/ECS/ComponentArray.h:55-61 | Removing the entity in the last dense slot still leaves it absent, because its marker is written after the self-repoint. |
| ComponentStore.GetMatchesContents | src/ECS/ComponentArray.h:66-76 | `HasData` holds exactly for the entities held, and `GetData` returns the held value or nothing. |
| ComponentStore.ZeroEmptyConsistent | ECS/ComponentArray.h:20-24 | A new 0-marker storage satisfies that generation's invariant. |
| ComponentStore.ZeroInsertConsistent | ECS/ComponentArray.h:27-40 | Insert into a 0-marker storage keeps its invariant: every entity with a nonzero entry points at a dense slot holding it. |
| ComponentStore.ZeroRemoveConsistent | ECS/ComponentArray.h:43-61 | Remove from a 0-marker storage keeps the same invariant. |
| ComponentStore.ZeroFirstInsertHidden | ECS/ComponentArray.h:35-38 | The first insert into an empty 0-marker storage puts the entity at index 0, so `HasData` is false and `GetData` yields nothing although size is 1. |
| ComponentStore.ZeroSlotZeroStuck | ECS/ComponentArray.h:43-61 | In the 0-marker storage a removal never touches dense slot 0: its entity and value stay. |
| ComponentStore.ZeroReinsertDuplicates | ECS/ComponentArray.h:27-40 | Re-inserting the entity stuck in slot 0 appends a second slot for it, so the storage holds it twice. |
| ComponentStore.MarkersAgreeAwayFromSlotZero | ECS/ComponentArray.h:27-61 | For an entity at a nonzero dense index, both generations overwrite alike and remove alike up to the marker written back. |
| ComponentStore.ComponentArray.MaxSentinel | src/ECS/ComponentArray.h:21-26 | The constructor fills the entity map with `MAX_ENTITIES`: a new, valid, empty storage. |
| ComponentStore.ComponentArray.ZeroSentinel | ECS/ComponentArray.h:20-24 | The constructor fills both maps with 0: a new storage of the 0 generation. |
| ComponentStore.ComponentArray.InsertData | src/ECS/ComponentArray.h:29-42 | The arrays change exactly as `InsertWith` says; for the `MAX_ENTITIES` marker the held map gains or overwrites the entity's value. |
| ComponentStore.ComponentArray.RemoveData | src/ECS/ComponentArray.h:45-63 | The arrays change exactly as `RemoveWith` says; for the `MAX_ENTITIES` marker the held map loses exactly that entity. |
| ComponentStore.ComponentArray.EntityDestroyed | src/ECS/ComponentArray.h:79-83 | Behaves exactly as `RemoveData`. |
| ComponentStore.ComponentArray.HasData | src/ECS/ComponentArray.h:74-76 | True exactly when the entity is held (`MAX_ENTITIES` marker); in the 0 generation true implies a dense index below size. |
| ComponentStore.ComponentArray.GetData | src/ECS/ComponentArray.h:66-71 | Null exactly when `HasData` is false; otherwise the value held for the entity. |
| ComponentStore.ComponentArray.GetComponents | src/ECS/ComponentArray.h:100-102 | The whole dense array; each slot below size holds the value of the entity recorded there. |
| ComponentStore.ComponentArray.GetSize | src/ECS/ComponentArray.h:105 | `mSize`, which is the number of entities held. |
| EntityQueries.Ascending | src/ECS/EntityManager.cpp:11-13 | The ids `lo..hi-1` in order. |
| EntityQueries.AscendingIsIncreasing | src/ECS/EntityManager.cpp:11-13 | That list is strictly increasing, has no duplicates and holds exactly the ids in range. |
| EntityQueries.EraseFirst | src/ECS/EntityManager.cpp:40-43 | `find` then `erase`: a present id is removed once, others keep their order; an absent id changes nothing. |
| EntityQueries.Matching | src/ECS/EntityManager.h:199-206 | The ids whose signature contains the required one, as a subsequence of the input (its order kept). |
| EntityQueries.ValidIds | ECS/EntityManager.inl:99-100 | The ids the scan does not skip: in range and not free, in scan order. |
| EntityQueries.MatchingSnoc | src/ECS/EntityManager.h:199-206 | One more visited id is appended to the matches exactly when its signature holds every required type. |
| EntityQueries.ValidIdsStep | ECS/EntityManager.inl:99-100 | One more scanned id is kept exactly when `IsValid` accepts it. |
| EntityQueries.FilterMatching | src/ECS/EntityManager.h:199-206 | The loop over `mActiveEntities` returns exactly `Matching` of them, in their order. |
| EntityQueries.ScanMatching | ECS/EntityManager.inl:98-108 | The loop over 1..`MAX_ENTITIES` returns exactly `Matching` of the ids `IsValid` accepts, in ascending order. |
| EntityQueries.ScanRange | ECS/EntityManager.inl:99 | The scan visits 1..`MAX_ENTITIES` in increasing order. |
| EntityQueries.FreshPool | src/ECS/EntityManager.cpp:8-14 | No active ids with the free queue 1..`MAX_ENTITIES`-1 satisfies the pool invariant. |
| EntityQueries.PoolSize | src/ECS/EntityManager.cpp:16-20 | Active plus free ids number `MAX_ENTITIES`-1; the queue is empty exactly when all ids are active. |
| EntityQueries.PoolCreate | src/ECS/EntityManager.cpp:22-31 | Moving the queue's front to the end of the active list keeps the invariant; that id was free and is in range. |
| EntityQueries.PoolDestroy | src/ECS/EntityManager.cpp:39-59 | A valid id is active; erasing it and appending it to the queue keeps the invariant. |
| EntityQueries.QueriesAgree | ECS/EntityManager.inl:90-111 | The active-list query and the full scan return the same entities: the living ones matching the signature, the first in creation order, the second in ascending order. |
| EntityManagement.NewStore | src/ECS/EntityManager.h:119 | A newly created storage is packed and holds nothing. |
| EntityManagement.Destroyed | src/ECS/EntityManager.cpp:50-54 | An existing storage loses exactly the destroyed entity; an empty slot stays empty. |
| EntityManagement.DestroyedAll | src/ECS/EntityManager.cpp:50-54 | Every slot of the storage array is updated as `Destroyed` says. |
| EntityManagement.MirrorFresh | src/ECS/EntityManager.h:77-87 | Empty signatures and no storages agree. |
| EntityManagement.MirrorRegister | src/ECS/EntityManager.h:118-119 | Adding an empty storage keeps signature bits and storage contents in agreement. |
| EntityManagement.MirrorReplace | src/ECS/EntityManager.h:148-165 | Replacing one storage and one signature keeps them in agreement when only that entity's membership in that type changes and its bit follows it. |
| EntityManagement.MirrorInsert | src/ECS/EntityManager.h:148-153 | Inserting into storage *ct* and setting bit *ct* keeps them in agreement. |
| EntityManagement.MirrorRemove | src/ECS/EntityManager.h:160-165 | Removing from storage *ct* and clearing bit *ct* keeps them in agreement. |
| EntityManagement.MirrorDestroy | src/ECS/EntityManager.cpp:45-54 | Emptying the signature and removing the entity from every storage keeps them in agreement. |
| EntityManagement.RegistryRegister | src/ECS/EntityManager.h:110-123 | Registering keeps the registry consistent (distinct ids below the counter, names for every id) and never renumbers a known tag. |
| EntityManagement.TypeIdsExtend | src/ECS/EntityManager.h:217-222 | Folding one more tag into the signature adds exactly its id. |
| EntityManagement.LookUp | src/ECS/EntityManager.h:125-137 | One lookup: a known tag, or a full registry, leaves it unchanged; a new tag gets id `next`, is named under it, and `next` rises by one; no known id changes and no other tag appears. |
| EntityManagement.LookUpAllExtends | src/ECS/EntityManager.h:110-137 | Looking up a sequence of tags keeps every id already given, adds only tags from the sequence, and never lowers the counter. |
| EntityManagement.FullTableFixed | src/ECS/EntityManager.h:110-137 | With every id used, looking up any tags changes nothing. |
| EntityManagement.LookUpAllOnce | src/ECS/EntityManager.h:128-136 | Looking up tags that are all known changes nothing, so later uses return the same ids. |
| EntityManagement.NumberedInOrder | src/ECS/EntityManager.h:110-137 | From an empty registry the uses `a, b, a, c` give ids 0, 1, 2 in first-use order, and the repeat changes nothing. |
| EntityManagement.NumberedByFirstUse | src/ECS/EntityManager.h:125-154 | On a manager with no types, two `AddComponent` calls for new types both pass, and the types get ids 0 and 1. |
| EntityManagement.DistinctTypesDistinctSignatures | src/ECS/EntityManager.h:217-222 | Two different registered types have single-bit, different signatures. |
| EntityManagement.EntityManager.FreshIsValid | src/ECS/EntityManager.cpp:8-14 | The constructed state satisfies the manager's invariant. |
| EntityManagement.EntityManager.constructor | src/ECS/EntityManager.cpp:8-14 | Free queue 1..`MAX_ENTITIES`-1 ascending, nothing active, count 0, no types, no storages, empty signatures. |
| EntityManagement.EntityManager.IsValid | src/ECS/EntityManager.cpp:62-72 | For a consistent manager, valid exactly when the id is active. |
| EntityManagement.EntityManager.GetEntityCount | src/ECS/EntityManager.h:63 | The number of active ids; it and the free ids total `MAX_ENTITIES`-1. |
| EntityManagement.EntityManager.GetSignature | src/ECS/EntityManager.cpp:106-108 | Only type ids below 64, and bit *i* is set exactly when storage *i* holds the entity. |
| EntityManagement.EntityManager.SetSignature | src/ECS/EntityManager.cpp:102-104 | Overwrites one entity's signature and no other. |
| EntityManagement.EntityManager.CreateEntity | src/ECS/EntityManager.cpp:16-32 | Pops the queue's front, appends it to the active list and counts it; the id was invalid and is now valid. With the queue empty (all ids living) it returns `INVALID_ENTITY` and changes nothing. |
| EntityManagement.EntityManager.DestroyEntity | src/ECS/EntityManager.cpp:34-60 | An invalid id changes nothing. A valid one leaves the active list (others in order), loses its signature and every component, goes to the back of the queue and is uncounted. |
| EntityManagement.EntityManager.NotifyDestroyed | src/ECS/EntityManager.cpp:50-54 | Every existing storage loses the entity and nothing else. |
| EntityManagement.EntityManager.Clear | src/ECS/EntityManager.cpp:74-100 | Restores exactly the constructed state. |
| EntityManagement.EntityManager.RegisterComponentType | src/ECS/EntityManager.h:110-123 | A new empty storage at the counter's slot, the tag entered unless already known, the id named, the counter advanced; past 64 types an error and no change. |
| EntityManagement.EntityManager.GetComponentType | src/ECS/EntityManager.h:125-137 | A known tag's id with nothing changed; an unknown tag is registered at the next id; ids once given never change. The registry ends as `LookUp` of the tag says: unchanged for a known tag, the next id for a new one. |
| EntityManagement.EntityManager.AddComponent | src/ECS/EntityManager.h:139-154 | The value is stored (overwriting) under the type's id and exactly that bit is added to that entity's signature; no other storage or signature changes. The registry ends as `LookUp` of the tag says: unchanged for a known tag, the next id for a new one. |
| EntityManagement.EntityManager.Attach | src/ECS/EntityManager.h:148-153 | Storage *ct* maps the entity to the value, other storages are untouched, bit *ct* is added. |
| EntityManagement.EntityManager.RemoveComponent | src/ECS/EntityManager.h:156-166 | Only that type's value and bit are removed; the entity's other components are unchanged. The registry ends as `LookUp` of the tag says: unchanged for a known tag, the next id for a new one. |
| EntityManagement.EntityManager.Detach | src/ECS/EntityManager.h:160-165 | Storage *ct* drops the entity, other storages are untouched, bit *ct* is cleared. |
| EntityManagement.EntityManager.GetComponent | src/ECS/EntityManager.h:168-179 | The held value or null, present exactly when the signature has the type's bit; stored data does not change. The registry ends as `LookUp` of the tag says: unchanged for a known tag, the next id for a new one. |
| EntityManagement.EntityManager.HasComponent | src/ECS/EntityManager.h:181-186 | True exactly when the storage holds the entity, which is when the signature has the bit. The registry ends as `LookUp` of the tag says: unchanged for a known tag, the next id for a new one. |
| EntityManagement.EntityManager.AddTypeId | src/ECS/EntityManager.h:220 | One more requested type: its id joins those of the types before it, registered on first use; fails only when the registry is full. The registry ends as `LookUp` of the tag says: unchanged for a known tag, the next id for a new one. |
| EntityManagement.EntityManager.GetComponentSignature | src/ECS/EntityManager.h:217-222 | The set of the requested types' ids, registering unknown ones. The registry ends as `LookUpAll` of the tags says: each new tag gets the next id in order, known ids stay, no other tag appears. |
| EntityManagement.EntityManager.GetEntitiesWith | src/ECS/EntityManager.h:188-209 | Exactly the active entities whose signature contains the requested one, in creation order. The registry ends as `LookUpAll` of the tags says: each new tag gets the next id in order, known ids stay, no other tag appears. |
| EntityManagement.EntityManager.GetEntitiesWithScan | ECS/EntityManager.inl:90-111 | The same test over 1..`MAX_ENTITIES` ascending, skipping invalid ids (including `MAX_ENTITIES`) before any signature read. The registry ends as `LookUpAll` of the tags says: each new tag gets the next id in order, known ids stay, no other tag appears. |
| EntityManagement.RecyclingOrder | src/ECS/EntityManager.cpp:16-60 | Freed ids are reused only after the never-used ones: create 1, create 2, destroy 1, the next id is 3. |
| Systems.System.constructor | ECS/System.h:38 | A new system is enabled. |
| Systems.System.SetEnabled | ECS/System.h:34-35 | Afterwards `IsEnabled` returns the given flag. |
| Systems.System.IsEnabled | ECS/System.h:35 | The flag alone. It has no contract of its own; `SetEnabled(b)` makes it `b`. |
| Systems.System.Initialize | ECS/System.h:25 | The default hook. It has no modifies clause, so it changes nothing. |
| Systems.System.Shutdown | ECS/System.h:28 | The default hook. It has no modifies clause, so it changes nothing. |
| Systems.EnabledSystems | ECS/SystemManager.cpp:9-13 | Exactly the enabled systems of the list, no more than it holds. |
| Systems.EnabledSystemsConcat | ECS/SystemManager.cpp:8-14 | Filtering commutes with concatenation, so enabled systems run in registration order. |
| Systems.AllEnabledRunAll | ECS/SystemManager.cpp:8-14 | With every system enabled, all run, in order. |
| Systems.FirstNamed | ECS/SystemManager.cpp:51-56 | The index of the first system with the name, or the length if none; all before it have other names. |
| Systems.RegisteredExtend | src/ECS/SystemManager.h:82-87 | Recording a new type's new instance and appending it keeps each type listed exactly once at its instance's position. |
| Systems.FillUnsigned | ECS/SystemManager.cpp:24-35 | Every registered type gets an empty signature entry if it had none; existing entries are kept. |
| Systems.SystemManager.constructor | src/ECS/SystemManager.h:57-63 | No systems, signatures or execution list. |
| Systems.SystemManager.RegisterSystem | src/ECS/SystemManager.h:71-88 | A known type returns its instance with nothing changed; a new one is created enabled, recorded, appended to the execution order, and the count rises by one. |
| Systems.SystemManager.SetSystemSignature | src/ECS/SystemManager.h:90-94 | Records a signature only for a type without one; otherwise nothing changes. |
| Systems.SystemManager.GetSystem | src/ECS/SystemManager.h:96-104 | The registered instance (which is in the execution list), or null exactly for an unregistered type. |
| Systems.SystemManager.GetSystemCount | src/ECS/SystemManager.h:49 | The number of types, equal to the length of the execution list. |
| Systems.SystemManager.UpdateSystems | ECS/SystemManager.cpp:8-14 | The systems updated are exactly the enabled ones, in registration order. |
| Systems.SystemManager.OnEntitySignatureChanged | ECS/SystemManager.cpp:22-36 | No system changes; unsigned registered types gain an empty signature, signed ones keep theirs. |
| Systems.SystemManager.OnEntityDestroyed | ECS/SystemManager.cpp:16-20 | It has no modifies clause, so it changes nothing. |
| Systems.SystemManager.InitializeAllSystems | ECS/SystemManager.cpp:38-42 | Every registered system, once, in order, whatever its flag. |
| Systems.SystemManager.ShutdownAllSystems | ECS/SystemManager.cpp:44-48 | Every registered system, once, in order, whatever its flag. |
| Systems.SystemManager.EnableSystem | ECS/SystemManager.cpp:50-57 | Only the first system with the name gets the flag; all other flags keep their values. |
| Systems.SignatureFrozenByEntityChange | ECS/SystemManager.cpp:27 | After a signature change, a later `SetSystemSignature` for a registered type is ignored. |
| Systems.EnableSystemFirstMatchOnly | ECS/SystemManager.cpp:50-57 | With two systems of the same name only the first is disabled. |
| Systems.DisabledSystemSkipped | ECS/SystemManager.cpp:8-14 | A disabled system is skipped and the enabled one after it runs. |
| KeyStates.Pressing | src/Input/InputManager.h:24-35 | A first key-down makes an absent or None key Pressed; Pressed, Held or Released stays; no other key changes. |
| KeyStates.Releasing | src/Input/InputManager.h:37-51 | A key-up makes Pressed or Held Released; Released or None stays; the key is not down afterwards; no other key changes. |
| KeyStates.Settled | src/Input/InputManager.h:84-103 | Released entries are erased, Pressed become Held, Held and None stay, no key is added. |
| KeyStates.SettledIsIdempotent | src/Input/InputManager.h:84-103 | A second update in one frame changes nothing. |
| KeyStates.PressLifecycle | src/Input/InputManager.h:24-103 | Down, update, up, update: Pressed, then Held, then Released, then no entry. |
| KeyStates.Settle | src/Input/InputManager.h:84-103 | The erase-while-iterating loop computes `Settled`. |
| Input.InputManager.constructor | src/Input/InputManager.h:18 | Both state maps start empty. |
| Input.InputManager.FeedEvent | src/Input/InputManager.h:21-80 | Key and button events change their map as `Pressing`/`Releasing` say, repeats and other events change nothing, and the flag reports an up event with no entry. |
| Input.InputManager.IsKeyPressed | src/Input/InputManager.h:142-145 | A key pressed this frame is Held after the next `Update`. |
| Input.InputManager.IsKeyHeld | src/Input/InputManager.h:147-150 | A held key, or one pressed this frame, is Held after the next `Update`. |
| Input.InputManager.IsKeyReleased | src/Input/InputManager.h:152-155 | A key released this frame has no entry after the next `Update`. |
| Input.InputManager.IsMouseButtonPressed | src/Input/InputManager.h:181-185 | A button pressed this frame is Held after the next `Update`. |
| Input.InputManager.IsMouseButtonHeld | src/Input/InputManager.h:187-190 | A held button stays Held after the next `Update`. |
| Input.InputManager.IsMouseButtonReleased | src/Input/InputManager.h:192-195 | A button released this frame has no entry after the next `Update`. |
| Input.InputManager.Update | src/Input/InputManager.h:83-124 | Both maps settle. |
| Input.KeyQueriesAgree | src/Input/InputManager.h:142-155 | A pressed key is held; a held key is not released. |
| Input.ButtonQueriesExclusive | src/Input/InputManager.h:181-195 | A button is at most one of pressed, held, released. |
| Input.PressedKeyHeldButtonNot | src/Input/InputManager.h:187-190 | In the frame of the press a key is held but a button is not; after the update the button is. |
| Input.KeyPressFrames | src/Input/InputManager.h:21-155 | A press seen frame by frame, with a repeat in between: pressed, held, released, gone. |
| Input.KeyUpWithoutDown | src/Input/InputManager.h:37-51 | A lone key-up is reported and adds nothing. |
| LegacyInput.InputManager.constructor | InputManager.h:30-31 | No keys; no current event; `noPrevEvent` set. |
| LegacyInput.InputManager.FeedEvent | InputManager.h:34-71 | Records the event; keys change as in the newer manager; mouse events change nothing. |
| LegacyInput.InputManager.Update | InputManager.h:74-100 | The key map settles. |
| LegacyInput.InputManager.IsKeyPressed | InputManager.h:103-106 | A key pressed this frame is Held after the next `Update`. |
| LegacyInput.InputManager.IsKeyHeld | InputManager.h:108-115 | A held key, or one pressed this frame, is Held after the next `Update`. |
| LegacyInput.InputManager.IsKeyReleased | InputManager.h:117-120 | A key released this frame has no entry after the next `Update`. |
| LegacyInput.MouseEventsIgnored | InputManager.h:34-71 | A mouse-up with a number equal to a pressed key's code leaves it pressed. |
| Clock.Sub64 | src/Utils/timer.h:44 | `Uint64` subtraction: the difference, plus 2^64 when it would be negative. |
| Clock.ResumeContinues | src/Utils/timer.h:30-45 | Resuming with start `now - p` reads `p` plus the time since `now`, whatever wraps. |
| Clock.PausedIntervalExcluded | src/Utils/timer.h:23-45 | Start, pause, resume, read: the running time before the pause plus the time since the resume. |
| UtilsTimer.Timer.constructor | src/Utils/timer.h:8 | Neither started nor paused; reads 0 at every clock value. |
| UtilsTimer.Timer.Start | src/Utils/timer.h:10-14 | Started, not paused; the reading at `t` is `t - now`. |
| UtilsTimer.Timer.Stop | src/Utils/timer.h:16-21 | All four fields reset; reads 0. |
| UtilsTimer.Timer.Pause | src/Utils/timer.h:23-28 | A running timer freezes at its reading at `now`; otherwise nothing changes. Paused implies started. |
| UtilsTimer.Timer.Unpause | src/Utils/timer.h:30-36 | A paused timer resumes from its frozen reading; otherwise nothing changes. |
| UtilsTimer.Timer.GetTicksRaw | src/Utils/timer.h:39-48 | 0 when stopped; the frozen value while paused; while running, the start plus the reading is `now` modulo 2^64. |
| UtilsTimer.Timer.IsStarted | src/Utils/timer.h:65 | A timer that is not started reads 0 at every clock value. |
| UtilsTimer.Timer.IsPaused | src/Utils/timer.h:66 | A paused valid timer is started, and its reading is the same at every clock value. |
| UtilsTimer.PauseSkipsPausedTime | src/Utils/timer.h:10-48 | Started at t0, paused at t1, resumed at t2, read at t3: (t1 - t0) + (t3 - t2). |
| UtilsTimer.PausedReadingFrozen | src/Utils/timer.h:23-42 | While paused the reading stays, and a second pause changes nothing. |
| LegacyTimer.Timer.constructor | timer.h:8 | Neither started nor paused; reads 0. |
| LegacyTimer.Timer.Start | timer.h:10-14 | Clears the pause and records the start; reads `t - now`. |
| LegacyTimer.Timer.Stop | timer.h:16-21 | All four fields reset; reads 0. |
| LegacyTimer.Timer.Pause | timer.h:23-29 | Freezes at `now - start` and zeroes the start. |
| LegacyTimer.Timer.Unpause | timer.h:31-37 | Tests only the paused flag; since paused implies started it resumes from the frozen reading. |
| LegacyTimer.Timer.GetTicks | timer.h:39-48 | 0 when stopped; the frozen value while paused; while running, the start plus the reading is `now` modulo 2^64. |
| LegacyTimer.Timer.IsStarted | timer.h:50 | A timer that is not started reads 0 at every clock value. |
| LegacyTimer.Timer.IsPaused | timer.h:51 | A paused valid timer is started with start 0, and its reading is the same at every clock value. |
| LegacyTimer.ReadingAcrossPause | timer.h:10-48 | A reading across a pause counts only running time, modulo 2^64. |
| SnakeHeadComponent.Opposite | Games/Snake/Components/SnakeHead.h:47-50 | The reversing direction, never the direction itself. |
| SnakeHeadComponent.OppositeIsInvolution | Games/Snake/Components/SnakeHead.h:47-50 | Reversing twice gives the direction back. |
| SnakeHeadComponent.Vector | Games/Snake/Components/SnakeHead.h:56-64 | A unit vector on one axis, vertical exactly for Up and Down. |
| SnakeHeadComponent.SnakeHead.GetDirectionVector | Games/Snake/Components/SnakeHead.h:56-64 | A unit vector on one axis, vertical exactly when the current direction is Up or Down. |
| SnakeHeadComponent.VectorsOfOpposites | Games/Snake/Components/SnakeHead.h:56-64 | Opposite directions give negated vectors, distinct directions distinct ones. |
| SnakeHeadComponent.SnakeHead.constructor | Games/Snake/Components/SnakeHead.h:27-29 | Current and next direction equal the given one, timer 0, no pending segments. |
| SnakeHeadComponent.SnakeHead.Clone | Games/Snake/Components/SnakeHead.h:32-34 | A new head with the same current direction and interval, the rest reset. |
| SnakeHeadComponent.SnakeHead.SetDirection | Games/Snake/Components/SnakeHead.h:45-54 | The reverse is ignored; any other direction becomes the next one; the current direction never changes; next never becomes the reverse of current. |
| GameStateComponent.StateNamesDistinct | Games/Snake/Components/GameState.h:67-75 | Every screen has its own name, never "UNKNOWN". |
| GameStateComponent.StateName | Games/Snake/Components/GameState.h:67-75 | Every screen's name is non-empty and is not "UNKNOWN". |
| GameStateComponent.GameState.GetStateString | Games/Snake/Components/GameState.h:67-75 | The name is not "UNKNOWN", and no screen but the current one has it. |
| GameStateComponent.GameState.constructor | Games/Snake/Components/GameState.h:28-30 | PLAYING, score 0, high score 0, level 1, flag clear. |
| GameStateComponent.GameState.Clone | Games/Snake/Components/GameState.h:33-35 | A new object with every modelled field copied. |
| GameStateComponent.GameState.AddScore | Games/Snake/Components/GameState.h:46-52 | The score moves by the points; beating the high score raises it and sets the flag; the high score never drops and stays at least the score. |
| GameStateComponent.GameState.ResetGame | Games/Snake/Components/GameState.h:54-60 | Score 0, level 1, flag clear, PLAYING; the high score kept. |
| GameStateComponent.GameState.NextLevel | Games/Snake/Components/GameState.h:62-65 | The level rises by exactly one; nothing else modelled changes. |
| GameStateComponent.CheckLevelProgression | Games/Snake/Systems/GameLogicSystem.cpp:139-146 | One level more exactly when the score reaches `level * 50`; score, high score, screen and new-high-score flag stay. |
| GameStateComponent.HighScoreSurvivesReset | Games/Snake/Components/GameState.h:46-60 | A high score of 30 survives a restart; scoring 40 raises it and sets the flag again. |
| SnakeInputSystem.DirectionKeysRoundTrip | Games/Snake/Systems/InputSystem.cpp:92-108 | Each direction's arrow key and WASD key map back to it. |
| SnakeInputSystem.OtherKeysSteerRight | Games/Snake/Systems/InputSystem.cpp:106-107 | Every other key means Right. |
| SnakeInputSystem.SpaceTogglesPause | Games/Snake/Systems/InputSystem.cpp:59-68 | SPACE twice returns to PLAYING or PAUSED. |
| SnakeInputSystem.GameOverExits | Games/Snake/Systems/InputSystem.cpp:58-83 | GAME_OVER is left only by R (to PLAYING) or Q (to MENU). |
| SnakeInputSystem.MenuExits | Games/Snake/Systems/InputSystem.cpp:58-83 | MENU is left only by SPACE, to PLAYING. |
| SnakeInputSystem.NoKeyEndsTheGame | Games/Snake/Systems/InputSystem.cpp:58-89 | No key leads into GAME_OVER, and Q never starts play. |
| SnakeInputSystem.Steered | Games/Snake/Systems/InputSystem.cpp:46-49 | The head's next direction is the request or the old one, never the reverse of current if it was not before. |
| SnakeInputSystem.PendingTurnKept | Games/Snake/Systems/InputSystem.cpp:47 | Asking for the current direction keeps a pending turn. |
| SnakeInputSystem.InputSystem.constructor | Games/Snake/Systems/InputSystem.h:35-36 | Named "InputSystem", enabled, both entity ids invalid. |
| SnakeInputSystem.InputSystem.SetSnakeHeadEntity | Games/Snake/Systems/InputSystem.h:31 | Sets only the head id. |
| SnakeInputSystem.InputSystem.SetGameStateEntity | Games/Snake/Systems/InputSystem.h:32 | Sets only the game-state id. |
| SnakeInputSystem.InputSystem.Head | Games/Snake/Systems/InputSystem.cpp:30-33 | A head only when the stored id is valid and the lookup found one. |
| SnakeInputSystem.InputSystem.State | Games/Snake/Systems/InputSystem.cpp:37-39 | A game state only when the stored id is valid and the lookup found one. |
| SnakeInputSystem.InputSystem.ProcessEvent | Games/Snake/Systems/InputSystem.cpp:22-27 | Any other event changes neither component. On key-down the head steers on the screen as it was, then the screen moves as `ControlTransition` says; R after a game over restarts the counters, otherwise score, level and flag stay; the high score never changes; the head's direction, timer, interval and growth never change; a missing component id leaves that object unchanged. |
| SnakeInputSystem.InputSystem.HandleSnakeMovement | Games/Snake/Systems/InputSystem.cpp:29-50 | Steers the head as `Steered` says when there is no game state or it is PLAYING; otherwise nothing. Only the next direction can change: current direction, move timer, interval and growth stay; with no head id the object is unchanged. |
| SnakeInputSystem.InputSystem.HandleGameControls | Games/Snake/Systems/InputSystem.cpp:52-90 | The screen changes as `ControlTransition` says; R in GAME_OVER resets score, level and flag, any other key keeps them; the high score is untouched; with no game-state id the object is unchanged. |
| SnakeInputSystem.InputSystem.Update | Games/Snake/Systems/InputSystem.cpp:7-12 | It has no modifies clause, so it changes nothing, enabled or not. |
| SnakeInputSystem.GetDirectionFromKey | Games/Snake/Systems/InputSystem.cpp:92-109 | A direction other than Right comes only from that direction's arrow key or letter key. |
| SnakeInputSystem.ControlTransition | Games/Snake/Systems/InputSystem.cpp:52-90 | Only SPACE, R and Q change the screen, and PLAYING is left only by SPACE, for PAUSED. |
| SnakeInputSystem.SpaceWhilePlaying | Games/Snake/Systems/InputSystem.cpp:22-68 | SPACE while playing pauses and, read as a movement key, also turns the head Right. |
| SnakeInputSystem.PausedIgnoresArrows | Games/Snake/Systems/InputSystem.cpp:41-44 | While paused an arrow does not steer; SPACE then resumes. |
| SnakeInputSystem.ReversalAndPendingTurn | Games/Snake/Systems/InputSystem.cpp:46-49 | Down while facing up is ignored; W after a pending Left keeps Left. |
| SnakeInputSystem.RestartAfterGameOver | Games/Snake/Systems/InputSystem.cpp:70-75 | R does nothing while playing; after a game over it restarts with score 0 and the high score kept. |
| SnakeInputSystem.NoGameStateSteersAlways | Games/Snake/Systems/InputSystem.cpp:36-44 | Without a bound game state the head steers even if some game state is paused. |

## Left out

- ComponentStore.ComponentArray.InsertData: requires `e < MAX_ENTITIES`, since the source indexes `mEntityToIndex[entity]` unchecked and an id out of range is undefined behaviour.
- ComponentStore.ComponentArray.InsertData: in the 0 generation it also requires room when the entity's entry is 0, since appending past `MAX_ENTITIES` would write out of bounds.
- ComponentStore.ComponentArray.RemoveData, EntityDestroyed, HasData, GetData: require `e < MAX_ENTITIES` for the same reason.
- ComponentStore.ComponentArray.HasData: for the 0 generation the contract only says that a true answer points below size, because that generation keeps no abstraction map (see Findings).
- EntityManagement.EntityManager.AddComponent: requires `e < MAX_ENTITIES`, since the manager indexes the signature array unchecked; the same holds for RemoveComponent, GetComponent and HasComponent.
- EntityManagement.EntityManager.RegisterComponentType: the source has no ceiling check and the 65th type writes out of range; the model returns the error `TooManyComponentTypes` and changes nothing.
- The manager is composed only with the `MAX_ENTITIES`-marker storage. The 0-marker generation is modelled on its own, as `ComponentArray.ZeroSentinel` and the `Zero…` lemmas.
- The `IComponentArray` virtual interface is left out. Its storages are held as values in the manager's slot array, one payload type `V` for all slots. So `GetComponentArray` and pointer aliasing of storages are not modelled.
- ComponentStore.ComponentArray.GetData, ComponentStore.ComponentArray.GetComponents and EntityManagement.EntityManager.GetComponent: return values, not `T*` into the dense array. Writes through the returned pointer are not modelled, nor is the pointer being invalidated, or coming to point at another entity's data, after a later swap-remove.
- The null-storage branch of `AddComponent`/`GetComponent` is left out. It cannot be reached once a type is registered, because registering always creates the storage.
- `typeid`/`std::type_index` are left out: they become type parameter tags.
- `GetComponentTypeName`, `GetTypeName`, `GetTypeNameStatic`, `PrintSystemInfo` and the console output of `Initialize`/`Shutdown` are left out: they are names and printing.
- `Clone`'s heap allocation through `Component*` is modelled as a new Dafny object. The virtual dispatch is left out.
- Systems.SystemManager.UpdateSystems: returns the systems it would update instead of calling their `Update`, which is user code; the `EntityManager&` and `deltaTime` arguments are left out.
- Systems.SystemManager.InitializeAllSystems and ShutdownAllSystems: likewise return the visited systems; the default hooks are empty methods.
- Systems.SystemManager.EnableSystem: requires the registry invariant, so that the execution list holds distinct objects.
- `OnEntityDestroyed` is an empty method with no modifies clause: it changes nothing.
- Floating point is left out:
  - `GetElapsedSeconds` and `GetElapsedMilliseconds`;
  - `GameState.gameSpeed`;
  - the arithmetic on `moveTimer`/`moveInterval`, which are only stored, as `real`;
  - the speed-up in `GameLogicSystem`.
- SnakeHeadComponent.SnakeHead.GetDirectionVector: returns integers instead of writing float out-parameters.
- SDL is left out:
  - the clock becomes the `now` parameter;
  - the mouse position and delta, and `IsMouseInRect`;
  - `GetKeyState`, which has no effect;
  - `SDL_Log` and `logUnorderedMap`.
- Input.InputManager.FeedEvent: an up event for a key or button with no entry dereferences `end()` in the source. The model reports it through `anomaly` and leaves the map unchanged; the same holds for LegacyInput.InputManager.FeedEvent.
- LegacyInput.InputManager: `mPrevEvent` is never written by the source and is left out.
- GameStateComponent.GameState.AddScore: requires the new score to fit in `int`, since signed overflow is undefined behaviour in C++; NextLevel likewise requires `level < INT32_MAX`.
- GameStateComponent.CheckLevelProgression: requires `level * 50` to fit in `int`.
- GameStateComponent.CheckLevelProgression: models only the level rule, not the snake speed-up.
- `GetStateString`'s "UNKNOWN" default is not modelled: the screen datatype has no fifth value.
- SnakeInputSystem.InputSystem.ProcessEvent: the entity-manager lookups are parameters. ESCAPE and `Update` do nothing in the source and do nothing here.
- The SDL key-code values are those of SDL3 (`SDLK_UP` = 0x40000052 and so on).

## Findings

| source | as written | input that shows it | evidently intended | confidence | as-written member | corrected member |
|---|---|---|---|---|---|---|
| ECS/ComponentArray.h:35-36 | The absent marker is 0, and so is the first dense index. The first entity inserted into an empty storage gets entry 0 and reads as absent. | A new storage, `InsertData(1, p)`, then `HasData(1)` is false and `GetComponent(1)` is null. The unit test at tests/unit/test_component_array.cpp:59-60 expects true; it is built against the `MAX_ENTITIES` generation, so it documents the interface both share, not a test of this file. | A marker no dense index can take, as in `src/ECS/ComponentArray.h`, which uses `MAX_ENTITIES`. The entity is then held after insert. | not executed | ComponentStore.ZeroFirstInsertHidden | ComponentStore.InsertKeepsPacked |
| ECS/ComponentArray.h:28-38 | Because the entity in slot 0 reads as absent, inserting it again appends a second slot. The storage then holds that entity twice and `mSize` counts it twice. | A new storage, `InsertData(1, p)`, then `InsertData(1, q)`: `mSize` is 2, and slots 0 and 1 both belong to entity 1. | Re-inserting a held entity overwrites its value in place, with size unchanged. | not executed | ComponentStore.ZeroReinsertDuplicates | ComponentStore.InsertKeepsPacked |

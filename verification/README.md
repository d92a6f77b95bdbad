# Entity containers

This project models the two generic containers of `Java/util`. Both are written in Dafny and their contracts are proved.

- `Util_List<T extends Entity>` is an `ArrayList` of entities. It adds lookup by id, a bounds-checked read, removals that raise `NoSuchElementException`, and an index-based `computeIfAbsent` / `computeIfPresent` / `compute` / `merge` family.
- `Util_Map<T extends Entity>` is a `HashMap` from key to entity. It offers the `java.util.Map` operations, and its `removeEntity` raises `NoSuchElementException` on a key with no entry.

Both containers are modelled functionally. A container state is an immutable `seq<T>` (`EntityList`) or `map<K, T>` (`EntityMap`). Each Java method becomes a pure function of the state before the call. Some Java methods both answer and mutate. Their model returns a `Step`, which pairs the Java return value with the state after the call. A method that throws returns `Failure(error)` from `Results`, where the error is named after the Java exception. That failure carries no new state, so the caller's container stays as it was.

Entity equality (Java `equals`, used by `containsEntity`, `indexOf`, `lastIndexOf`, `removeEntity`, the bulk removals and `containsValue`) is Dafny's `==`. This assumes the entities' `equals` is a true equivalence that does not change while the entity is stored; how it relates to `getId` is not modelled, since the two are never used together.

A Java `null` result is `Option.None`, and stored entities are never null. The producer, remapper, predicate and mapper arguments are pure Dafny functions, and those that may answer `null` return `Option<T>`. The `Entity` type is not part of this model. Its `getId()` accessor is passed as a function `getId: T -> I`, where the id type `I` has decidable equality.

Files:

- `results.dfy`: `Option`, `Error` and `Result`.
- `entity_list.dfy`: the ordered container (module `EntityList`). It also holds three reference descriptions of how one call changes a list: `ReplacedAt`, `RemovedAt` and `Appended`. They are stated position by position, independently of the slicing the operations use.
- `list_properties.dfy`: lemmas relating the list operations to each other (module `ListProperties`).
- `entity_map.dfy`: the keyed container (module `EntityMap`), with the reference descriptions `StoredAt` and `DroppedAt`.
- `map_properties.dfy`: lemmas relating the map operations to each other (module `MapProperties`).

Two behaviours of the code are modelled as written:

- Out of range, the list compute family appends at the end and ignores the requested index. `ListProperties.ComputeAppendIgnoresIndex` shows that the new entity can be read back at the requested index only when that index was `size()`. `ListProperties.ComputeIfAbsentTwice` shows that repeating `computeIfAbsent` at any other out-of-range index appends a second copy.
- `getEntityByIndex` answers null out of range. Its documentation comment announces an `IndexOutOfBoundsException`, but the code never raises one, and `EntityList.GetEntityByIndex` follows the code.
- `subList` with `from > to` raises `IllegalArgumentException`, not an index error. The check order and the exceptions are those of `ArrayList.subList`, to which the method delegates.

## Model

| member | source | states |
|---|---|---|
| EntityList.AddEntity | Java/util/Util_List.java:21-27 | the new entity is appended: the length grows by one and every earlier position is unchanged |
| EntityList.AddAllEntities | Java/util/Util_List.java:29-35 | the other list follows the old contents position for position, in its own order |
| EntityList.SetEntity | Java/util/Util_List.java:37-45 | succeeds exactly on a valid index and then replaces only that position; otherwise raises an index error for that index |
| EntityList.ReplaceAllEntities | Java/util/Util_List.java:47-53 | same length, every position holds the operator applied to the old entity there |
| EntityList.GetEntityById | Java/util/Util_List.java:56-66 | absent iff no entity has the id; otherwise answers an entity with that id at a position before which no entity has it |
| EntityList.SubList | Java/util/Util_List.java:85-93 | succeeds iff 0 <= from <= to <= size, then holds positions from..to-1; from < 0 or to > size is an index error; from > to is an illegal argument |
| EntityList.IndexOf | Java/util/Util_List.java:132-139 | -1 iff the entity is not contained; otherwise a position holding it with no equal entity before it |
| EntityList.LastIndexOf | Java/util/Util_List.java:141-148 | -1 iff the entity is not contained; otherwise a position holding it with no equal entity after it |
| EntityList.RemoveEntity | Java/util/Util_List.java:160-171 | succeeds iff the entity is contained, removing exactly the position indexOf names; otherwise raises not-found |
| EntityList.RemoveEntityAt | Java/util/Util_List.java:173-184 | succeeds iff the index is in range, answering the entity there and removing only that position; otherwise raises not-found |
| EntityList.RemoveAllEntities | Java/util/Util_List.java:186-193 | every occurrence of an entity in the collection is dropped and every other occurrence kept, so each entity's count is zero or its original count; answers true iff some entity was in the collection, iff the list changed |
| EntityList.RetainAllEntities | Java/util/Util_List.java:195-202 | every occurrence of an entity in the collection is kept and every other occurrence dropped, so each entity's count is its original count or zero; answers true iff some entity was not in the collection, iff the list changed |
| EntityList.FilterEntities | Java/util/Util_List.java:300-309 | survivors are entities of the list satisfying the predicate, every satisfying entity survives, and the list is unchanged iff all satisfy it |
| EntityList.FilterCounts | Java/util/Util_List.java:300-309 | filtering keeps every occurrence of a satisfying entity and no occurrence of any other one |
| EntityList.GetEntityIds | Java/util/Util_List.java:68-70 | one id per entity, position for position, and every listed id finds an entity through getEntityById |
| EntityList.GetEntityByIndex | Java/util/Util_List.java:78-83 | present exactly for an index in 0..size-1, and then the entity at that index; absent, not an exception, otherwise |
| EntityList.ContainsEntity | Java/util/Util_List.java:109-111 | holds exactly when some index holds an equal entity |
| EntityList.Size | Java/util/Util_List.java:118-120 | exactly the indices below the size can be read with getEntityByIndex |
| EntityList.IsEmpty | Java/util/Util_List.java:126-128 | holds exactly when no index can be read |
| EntityList.Clear | Java/util/Util_List.java:207-209 | afterwards no index can be read |
| EntityList.MapEntities | Java/util/Util_List.java:311-321 | same length, each position holds the mapped entity of the same position |
| EntityList.ComputeIfAbsent | Java/util/Util_List.java:343-360 | in range: answers the entity there and changes nothing; out of range: answers f(index), appends it when non-absent, otherwise changes nothing |
| EntityList.ComputeIfPresent | Java/util/Util_List.java:362-381 | out of range: absent, nothing changes; in range: answers f(index, old), a non-absent result replaces only that position and an absent one removes it |
| EntityList.Compute | Java/util/Util_List.java:383-401 | always answers f(index, current or absent); in range replaces or removes that position; out of range appends a non-absent result or changes nothing |
| EntityList.Merge | Java/util/Util_List.java:403-426 | in range: f(old, v) replaces the position, or removes it when absent; out of range: answers v and appends it when non-absent |
| ListProperties.SetThenGet | Java/util/Util_List.java:78-83 | after setEntity on a valid index getEntityByIndex reads the new entity there, the size is the same and other indices read as before; out of range setEntity is an index error |
| ListProperties.GetByIndexIsUnitSlice | Java/util/Util_List.java:78-83 | the permissive read is present exactly when the strict one-element subList succeeds, and agrees with it |
| ListProperties.SubListSplit | Java/util/Util_List.java:85-93 | subList(0, k) followed by subList(k, size) gives back the whole list |
| ListProperties.GetEntityByIdIsFindFirst | Java/util/Util_List.java:61-66 | getEntityById equals filter-on-id followed by findFirst |
| ListProperties.GetEntityByIdIffIdListed | Java/util/Util_List.java:61-70 | getEntityById finds something exactly when the id occurs among getEntityIds |
| ListProperties.IndexOfMeetsLastIndexOf | Java/util/Util_List.java:132-148 | indexOf never exceeds lastIndexOf, and for a contained entity they coincide exactly when it occurs once |
| ListProperties.AddThenRemoveAt | Java/util/Util_List.java:173-184 | addEntity grows the size by one, and removing the last index then gives back that entity and the original list |
| ListProperties.RemoveAtShrinks | Java/util/Util_List.java:173-184 | a successful removal by index shrinks the size by one; a failed one had an out-of-range index |
| ListProperties.RemoveEntityIsRemoveAtIndexOf | Java/util/Util_List.java:160-171 | removal by value is not-found when indexOf is -1 and otherwise leaves the same list as removal at indexOf |
| ListProperties.AddThenRemoveEntity | Java/util/Util_List.java:160-171 | removing by value an entity just added, and not present before, restores the list |
| ListProperties.FilterConcat | Java/util/Util_List.java:300-309 | filtering distributes over concatenation, so the original order is kept |
| ListProperties.RemoveAllRetainAllPartition | Java/util/Util_List.java:186-202 | every occurrence ends up in exactly one of removeAll(c) and retainAll(c): their sizes add up to the size and their multisets to the list's multiset |
| ListProperties.RemoveAllKeepsOrder | Java/util/Util_List.java:186-193 | removeAll(c) distributes over concatenation and keeps a single entity exactly when it is not in c, so the survivors keep their order |
| ListProperties.RetainAllKeepsOrder | Java/util/Util_List.java:195-202 | retainAll(c) distributes over concatenation and keeps a single entity exactly when it is in c, so the survivors keep their order |
| ListProperties.FilterMapCommute | Java/util/Util_List.java:300-321 | filter-then-map equals map-then-filter when the mapper preserves the predicate |
| ListProperties.ClearEmpties | Java/util/Util_List.java:204-209 | after clear the list is empty, every read is absent and every removal by index is not-found |
| ListProperties.ComputeIfPresentIsCompute | Java/util/Util_List.java:362-401 | computeIfPresent equals compute with a remapper that leaves absent alone |
| ListProperties.ComputeIfAbsentIsCompute | Java/util/Util_List.java:343-401 | computeIfAbsent equals compute with a remapper that keeps a present entity and asks the producer otherwise |
| ListProperties.MergeIsCompute | Java/util/Util_List.java:383-426 | merge equals compute with a remapper that combines a present entity with the value and falls back to the value |
| ListProperties.ComputeAppendIgnoresIndex | Java/util/Util_List.java:389-401 | an out-of-range compute result lands at position size, so it reads back at the requested index only when that index was size |
| ListProperties.ComputeIfAbsentTwice | Java/util/Util_List.java:343-360 | repeating an out-of-range computeIfAbsent changes nothing at index size but appends a second copy at any other index |
| EntityMap.GetValueByKey | Java/util/Util_Map.java:68-70 | absent exactly when the key has no entry, otherwise the entity stored under it |
| EntityMap.ContainsKey | Java/util/Util_Map.java:120-122 | holds exactly when getValueByKey finds an entity |
| EntityMap.ContainsValue | Java/util/Util_Map.java:129-131 | holds exactly when some key holds an equal entity |
| EntityMap.Size | Java/util/Util_Map.java:145-147 | the number of keys with an entry; zero exactly when there is none |
| EntityMap.IsEmpty | Java/util/Util_Map.java:153-155 | holds exactly when no key has an entry |
| EntityMap.Clear | Java/util/Util_Map.java:194-196 | afterwards no key has an entry |
| EntityMap.GetOrDefault | Java/util/Util_Map.java:72-80 | the fallback when the key has no entry, the stored entity otherwise |
| EntityMap.Put | Java/util/Util_Map.java:33-41 | answers the previous entity or absent; afterwards the key holds the new entity and every other key is unchanged |
| EntityMap.AddAllEntities | Java/util/Util_Map.java:25-31 | keys are the union; the other map wins on shared keys, the rest keep their entities |
| EntityMap.PutIfAbsent | Java/util/Util_Map.java:43-51 | answers the previous entity; an existing entry is untouched, a missing one is stored with nothing else changed |
| EntityMap.Replace | Java/util/Util_Map.java:53-61 | answers the previous entity; a missing key changes nothing, an existing one is overwritten with nothing else changed |
| EntityMap.RemoveEntity | Java/util/Util_Map.java:166-179 | succeeds iff the key has an entry, answering it and dropping only that key; otherwise raises not-found |
| EntityMap.Remove | Java/util/Util_Map.java:181-189 | answers true iff the key currently holds the given entity, then drops only that key; otherwise nothing changes; never fails |
| EntityMap.ComputeIfAbsent | Java/util/Util_Map.java:267-277 | a present key answers its entity and nothing changes; otherwise answers f(key), stored when non-absent |
| EntityMap.ComputeIfPresent | Java/util/Util_Map.java:279-287 | a missing key answers absent and nothing changes; otherwise f(key, old) is stored, or the key dropped when absent |
| EntityMap.Compute | Java/util/Util_Map.java:289-297 | answers f(key, current or absent); non-absent is stored, absent leaves the key without an entry, other keys unchanged |
| EntityMap.Merge | Java/util/Util_Map.java:299-310 | a missing key stores and answers the value; otherwise f(old, value) is stored, or the key dropped when absent |
| MapProperties.PutThenGet | Java/util/Util_Map.java:63-70 | after put, getValueByKey reads the new entity at the key and the old reading at every other key |
| MapProperties.GetOrDefaultIsGetOr | Java/util/Util_Map.java:72-80 | getOrDefault is getValueByKey with absent read as the fallback |
| MapProperties.ContainsValueIffSomeKey | Java/util/Util_Map.java:124-131 | containsValue holds exactly when some key reads back that entity |
| MapProperties.SizeAfterPutAndRemove | Java/util/Util_Map.java:140-147 | put grows the size by one exactly for a new key; a successful removeEntity shrinks it by one |
| MapProperties.PutThenRemoveEntity | Java/util/Util_Map.java:166-179 | removeEntity after put answers the put entity and leaves the map without the key, which is the original map when the key was new |
| MapProperties.RemoveIfEqualAgreesWithRemoveEntity | Java/util/Util_Map.java:181-189 | remove(k, v) against a different stored entity answers false and changes nothing; when it removes it leaves what removeEntity(k) leaves |
| MapProperties.ClearEmpties | Java/util/Util_Map.java:191-196 | after clear the map is empty, every read is absent and removeEntity is not-found |
| MapProperties.ComputeIfPresentIsCompute | Java/util/Util_Map.java:279-297 | computeIfPresent equals compute with a remapper that leaves absent alone |
| MapProperties.ComputeIfAbsentIsCompute | Java/util/Util_Map.java:267-297 | computeIfAbsent equals compute with a remapper that keeps a present entity and asks the producer otherwise |
| MapProperties.MergeIsCompute | Java/util/Util_Map.java:289-310 | merge equals compute with a remapper that combines a present entity with the value and stores the value otherwise |
| MapProperties.PutsAreComputes | Java/util/Util_Map.java:33-61 | put, putIfAbsent and replace leave the same entries as compute, computeIfAbsent and computeIfPresent with a remapper answering the value |
| MapProperties.ComputeIfAbsentTwice | Java/util/Util_Map.java:267-277 | once computeIfAbsent has stored an entity, a second call answers it, changes nothing and ignores its producer |
| MapProperties.ComputeIfPresentToAbsentRemoves | Java/util/Util_Map.java:279-287 | a remapper answering absent makes computeIfPresent drop the key, shrinking the size by one |

`Util_Map.addEntity` is the entries part of `EntityMap.Put`.

## Left out

- Printing and the `loop*` helpers of both classes: console output only, with no effect on the container.
- `getIterator`, `getListIterator` and `getSpliterator`: stateful cursor objects of the Java library.
- `sortEntities`: it delegates to the library sort, whose code is not part of this model.
- `equals` and `hashCode` of `Util_List`: they depend on Java hashing, and `equals` compares with the inner list rather than with another `Util_List`.
- `toArray` of both classes: a snapshot of an immutable sequence is that sequence.
- `getKeys` and `getValues` of `Util_Map`: they work on a parameter map, not on the container. HashMap iteration order is also left out.
- Null entities and null map values are not modelled. The Java quirk that `removeEntity` removes a key mapped to null and still throws is therefore not modelled either.
- EntityMap.Merge: the value is never absent, because `HashMap.merge` rejects a null value with an exception, which is not modelled.
- Remappers that mutate the container while they run, and exceptions thrown by the functional arguments.
- Java `int` overflow of sizes and indices: all integers are unbounded.
- "Does not invoke the function" cannot be observed in a pure model. It is stated instead as "the answer and the new state do not depend on the function".
- EntityList.SubList: the result is a copy. The live view `ArrayList.subList` returns is not modelled: writes through the view reach the container, and later structural changes to the container invalidate the view.
- EntityList.RemoveEntity: the Java method returns `true` on every successful call, so the model returns only the new list.

# Generational slot storage of Argon, in Dafny

This project models the generational slot-storage library of the Argon engine. It has three pieces.

- **`SlotMap<ObjType, NUM_OBJECTS_PER_PAGE>`** is a paged object pool. It hands out `(index, generation)` handles.
  - A redirect table does two jobs. For a free index it holds the next free index; these links form a free list rooted at `m_head` and ending at the capacity. For a live index it holds the dense position of the value.
  - Values are kept gap-free in pages of 64 by swap-with-last on erase.
  - A backwards mapping sends each dense position back to its index.
  - The generation of an index is bumped on erase, which makes old handles invalid.
- **`SlotGenerator`** issues identities only. It uses the same paged free list and generations, but stores no values.
- **`SparseStorage<TData>`** keeps a dense vector of values keyed by generator handles. A paged redirection table maps each key index to an entry of dense position and generation. Pages are allocated lazily. `INVALID_INDEX` (0xFFFFFF) marks an entry with nothing assigned.

## How the model is built

Each structure is a `class` whose fields match the source's members:
- `seq` fields for vectors;
- `array` pages for the `unique_ptr` pages, and `array?` for redirection pages that may be missing.

Ghost fields give the abstract view:
- `Dense`/`Entries`: the pages read as one sequence;
- `FreeList`: the free indices in list order;
- `Contents`: the live handles and their values;
- `Issued`: every handle the structure has returned.

`Valid()` ties the concrete fields to that view. The invariant itself is stated and proved on plain values: module `SlotMapTable` for SlotMap, `SlotGeneratorTable` for the generator and `SparseTable` for SparseStorage. Each state-changing method does its value-level reasoning in one lemma (`AllocMap`, `EraseMap`, `AcquireGen`, `ReleaseGen`, `AssignStore`, `EraseStore`, …). It then writes the fields, and `Commit` re-establishes `Valid()`.

The four places where the source breaks its own invariant are handled the same way. The classes implement the evidently intended behaviour, and a `// Deviation:` comment marks each one. Module `Findings` models the code as written, with a concrete input that shows each defect.

Deviations from the source:
- `SlotMap::erase` writes the backwards mapping at the hole's dense position, not at `slot.m_index`.
- `SlotGenerator::release` stores the old head into the freed entry.
- `SparseStorage` keeps an `owners` vector: the key index of each dense position. `erase` uses it to redirect the entry of the value it moves.
- `_prepareRedirectionMemory` only ever grows the table.

The `AR_ASSERT`/`AR_CRITICAL` checks of a handle's validity or a key's presence are `requires` clauses. The two internal checks, `m_head <= capacity` in `allocate` (slot_map.hpp:303) and `m_size != 0` in `erase` (slot_map.hpp:350), are not demanded of callers: they are `assert` statements that are proved to hold.

## Model

| member | source | states |
|---|---|---|
| Slots.SameSlot | sources/data_structures/include/data_structures/slot_map.hpp:272-275 | `Slot::operator==` holds exactly when both handles are equal as values |
| Slots.DifferentSlot | sources/data_structures/include/data_structures/slot_map.hpp:278-281 | `Slot::operator!=` holds exactly when the handles differ |
| Slots.DefaultSlot | sources/data_structures/include/data_structures/slot_map.hpp:263-266 | `Slot()` has index 0xFFFFFF (`INVALID_INDEX`) and generation 0, as does the generator's `Slot()` |
| FreeLists.FreshEntries | sources/data_structures/include/data_structures/slot_map.hpp:392-397 | the 64 entries a new page adds after capacity `cap` have generation 0 and entry `i` is linked to `cap + i + 1`, the last one to the new capacity |
| Slots.SwapRemove | sources/data_structures/include/data_structures/slot_map.hpp:353-356 | swap-and-pop leaves one element fewer, puts the last element at the hole and keeps every other position |
| FreeLists.FollowFreeList | sources/data_structures/include/data_structures/slot_map.hpp:133-135 | following `k` links from the `j`-th free index gives the `(j+k)`-th free index, or the capacity after the last |
| FreeLists.FollowFree | sources/data_structures/include/data_structures/slot_map.hpp:133-135 | from the head, `k` links reach the `k`-th free index, and `|free|` links reach the capacity |
| SlotMapTable.FreeChainAcyclic | sources/data_structures/include/data_structures/slot_map.hpp:301-304 | the head is at most the capacity, and the free list visits capacity−size distinct indices below the capacity before reaching the capacity |
| SlotMapTable.GrowTable | sources/data_structures/include/data_structures/slot_map.hpp:374-398 | a new page adds 64 redirect entries, each linked to the next index and the last to the new capacity; the fresh indices extend the free list and the table invariant holds |
| SlotMapTable.GrowView | sources/data_structures/include/data_structures/slot_map.hpp:374-398 | the fresh entries hold no value, so every live handle keeps its value |
| SlotMapTable.AllocTable | sources/data_structures/include/data_structures/slot_map.hpp:311-324 | taking the head for dense position `size` keeps the redirect/backwards inverse and the free chain; the head's old link becomes the new head |
| SlotMapTable.AllocView | sources/data_structures/include/data_structures/slot_map.hpp:311-326 | the head's current handle was neither live nor issued; after allocation it is live and holds the new value |
| SlotMapTable.EraseInverse | sources/data_structures/include/data_structures/slot_map.hpp:356-361 | moving the back value into the hole, retargeting its redirect entry and writing the backwards mapping at the hole keeps the two mappings inverse |
| SlotMapTable.EraseUnused | sources/data_structures/include/data_structures/slot_map.hpp:357-362 | after erase, the erased index and every other free index hold no value |
| SlotMapTable.EraseLinks | sources/data_structures/include/data_structures/slot_map.hpp:360-362 | the erased index is linked to the old head, and the other links are kept |
| SlotMapTable.EraseDistinct | sources/data_structures/include/data_structures/slot_map.hpp:360-362 | pushing the erased index keeps the free list free of repetition |
| SlotMapTable.EraseTable | sources/data_structures/include/data_structures/slot_map.hpp:341-365 | erasing a live index keeps the whole table invariant, with size decreased by one |
| SlotMapTable.EraseLive | sources/data_structures/include/data_structures/slot_map.hpp:357-361 | after erase the live handles are exactly the old ones minus the erased handle |
| SlotMapTable.EraseHeld | sources/data_structures/include/data_structures/slot_map.hpp:356-357 | every surviving handle, including the one whose value moved, still refers to its value |
| SlotMapTable.EraseView | sources/data_structures/include/data_structures/slot_map.hpp:341-365 | erase keeps the handle invariant: liveness, values, and that issued handles are stale exactly when erased |
| SlotMapTable.GrowMap | sources/data_structures/include/data_structures/slot_map.hpp:374-398 | `_pushDirectPage` keeps the whole invariant, with the head unchanged and the fresh indices at the end of the free list |
| SlotMapTable.AllocMap | sources/data_structures/include/data_structures/slot_map.hpp:311-326 | `allocate` with a free index keeps the whole invariant: the new handle is fresh, maps to the value, sits at dense position `size`, and the head's link is the new head |
| SlotMapTable.EraseMap | sources/data_structures/include/data_structures/slot_map.hpp:341-365 | `erase` keeps the whole invariant: the dense values are swap-removed, the index heads the free list with generation + 1, and the erased handle is dropped |
| SlotMapTable.UpdateMap | sources/data_structures/include/data_structures/slot_map.hpp:329-338 | writing a new value through `at` keeps the whole invariant: only the handle's dense value changes, and no other live handle shares its position |
| SlotMapModel.Iterator.constructor | sources/data_structures/include/data_structures/slot_map.hpp:146-150 | an iterator is a page array and a dense position |
| SlotMapModel.Iterator.Next | sources/data_structures/include/data_structures/slot_map.hpp:198-202 | `operator++` advances the position by exactly one |
| SlotMapModel.Iterator.SamePosition | sources/data_structures/include/data_structures/slot_map.hpp:63-64 | `operator==`/`!=` compare the dense positions only |
| SlotMapModel.SlotMap.constructor | sources/data_structures/include/data_structures/slot_map.hpp:284-289 | a new map is valid and empty, with head 0, one page, and free list 0..63 |
| SlotMapModel.SlotMap.Capacity | sources/data_structures/include/data_structures/slot_map.hpp:301 | the capacity is a whole number of 64-value pages, one per direct page |
| SlotMapModel.SlotMap.IsSlotValid | sources/data_structures/include/data_structures/slot_map.hpp:367-371 | `isSlotValid` holds only for an index inside the redirect table; ValidIffLive gives its meaning |
| SlotMapModel.SlotMap.Size | sources/data_structures/include/data_structures/slot_map.hpp:102 | `size()` is the length of the dense region, and size plus the free indices is the capacity |
| SlotMapModel.SlotMap.PageNumber | sources/data_structures/include/data_structures/slot_map.hpp:401-404 | `_getPageNumber` names the page that holds the index's dense position |
| SlotMapModel.SlotMap.PageOffset | sources/data_structures/include/data_structures/slot_map.hpp:406-410 | `_getPageOffset` is the place within that page, so page·64 + offset is the dense position |
| SlotMapModel.SlotMap.ValidIffLive | sources/data_structures/include/data_structures/slot_map.hpp:368-371 | for an issued handle, `isSlotValid` holds exactly when the handle is live |
| SlotMapModel.SlotMap.NoAliasing | sources/data_structures/include/data_structures/slot_map.hpp:368-371 | two valid issued handles with the same index are the same handle |
| SlotMapModel.SlotMap.DefaultSlotInvalid | sources/data_structures/include/data_structures/slot_map.hpp:263-269 | `Slot()` is never valid while the capacity stays within the 24-bit index range |
| SlotMapModel.SlotMap.ValidSlotNonEmpty | sources/data_structures/include/data_structures/slot_map.hpp:350-351 | a valid issued handle means size ≠ 0, so the underflow check in `erase` never fires |
| SlotMapModel.SlotMap.LiveValueIsDense | sources/data_structures/include/data_structures/slot_map.hpp:330-337 | a live handle's redirect entry names a dense position below size, which holds its value |
| SlotMapModel.SlotMap.DenseValueIsLive | sources/data_structures/include/data_structures/slot_map.hpp:317-322 | each dense position holds the value of exactly one live handle, found through the backwards mapping |
| SlotMapModel.SlotMap.FreeListAcyclic | sources/data_structures/include/data_structures/slot_map.hpp:133-135 | on the concrete redirect table, the free list from `m_head` is acyclic and ends at the capacity |
| SlotMapModel.SlotMap.PushDirectPage | sources/data_structures/include/data_structures/slot_map.hpp:374-384 | exactly one page is added, the redirect and backwards tables grow by 64 fresh entries, and nothing live changes |
| SlotMapModel.SlotMap.AppendPage | sources/data_structures/include/data_structures/slot_map.hpp:376 | a fresh page goes after the existing ones, which are untouched |
| SlotMapModel.SlotMap.RefitRedirectSlots | sources/data_structures/include/data_structures/slot_map.hpp:387-398 | the loop appends 64 entries with generation 0, entry `i` linked to `i + 1` |
| SlotMapModel.SlotMap.StoreNext | sources/data_structures/include/data_structures/slot_map.hpp:314-315 | constructing the value at dense position `size` extends the held dense values by it |
| SlotMapModel.SlotMap.MoveLastInto | sources/data_structures/include/data_structures/slot_map.hpp:353-356 | moving the back value into the hole leaves the pages holding the swap-removed dense values |
| SlotMapModel.SlotMap.Allocate | sources/data_structures/include/data_structures/slot_map.hpp:296-327 | the handle is the old head with that entry's generation (0 on a new page); it is fresh and valid; the value is appended at dense position old size; size grows by 1; `at` gives the value; a page is added exactly when head = capacity; the handle's redirect entry points at dense position old size and `backwards` there points back; the free list loses its first index, after the new page's indices are appended when one is added, and the head is its new first index; every earlier handle keeps its validity |
| SlotMapModel.SlotMap.At | sources/data_structures/include/data_structures/slot_map.hpp:329-338 | `at` of a valid issued handle returns the value the handle holds |
| SlotMapModel.SlotMap.Update | sources/data_structures/include/data_structures/slot_map.hpp:329-338 | a write through the reference `at` returns: the handle now refers to the new value, stored at its dense position; the other handles, the tables, size and head are unchanged |
| SlotMapModel.SlotMap.IteratorReads | sources/data_structures/include/data_structures/slot_map.hpp:152-157 | `operator*` of an iterator over the map's pages, below `size()`, reads the dense value at its position |
| SlotMapModel.SlotMap.Erase | sources/data_structures/include/data_structures/slot_map.hpp:340-365 | the handle is removed from the live set and all others keep their values and validity; the dense values are swap-removed at the handle's position; the entry becomes (old head, generation + 1) and the index heads the free list; the redirect entry of the index whose value sat at position size − 1 now names the hole, and `backwards` at the hole names that index; nothing else in either table changes; size drops by 1; the handle is invalid afterwards |
| SlotMapModel.SlotMap.Begin | sources/data_structures/include/data_structures/slot_map.hpp:104-106 | `begin()` is dense position 0 of the pages |
| SlotMapModel.SlotMap.End | sources/data_structures/include/data_structures/slot_map.hpp:108-110 | `end()` is dense position `size` |
| SlotMapModel.SlotMap.Values | sources/data_structures/include/data_structures/slot_map.hpp:104-110 | walking from `begin()` to `end()` visits exactly the dense values in order: `size()` elements |
| SlotGeneratorTable.GrowGen | sources/data_structures/src/sparse_storage.cpp:58-67 | a new page puts its 64 fresh indices, linked in increasing order, at the end of the free list and keeps the invariant |
| SlotGeneratorTable.GrowDistinct | sources/data_structures/src/sparse_storage.cpp:63-66 | the fresh indices are new, so the free list stays repetition-free |
| SlotGeneratorTable.GrowLinks | sources/data_structures/src/sparse_storage.cpp:63-66 | the last old free link (the old capacity) now names the first fresh index, and the fresh links run on to the new capacity |
| SlotGeneratorTable.GrowIssued | sources/data_structures/src/sparse_storage.cpp:58-67 | no issued handle names a fresh index |
| SlotGeneratorTable.AcquireGen | sources/data_structures/src/sparse_storage.cpp:28-34 | the head is the first free index, its current handle was never issued, and taking it makes the head's link the new head |
| SlotGeneratorTable.ReleaseGen | sources/data_structures/src/sparse_storage.cpp:41-48 | releasing a valid issued handle (generation + 1, entry linked to the old head) pushes its index on the free list and keeps the invariant |
| SlotGeneratorTable.ReleaseKeepsOthers | sources/data_structures/src/sparse_storage.cpp:44-45 | releasing one handle leaves the validity of every other issued handle unchanged |
| SlotGeneratorTable.AcquireAfterRelease | sources/data_structures/src/sparse_storage.cpp:28-34 | the acquire right after `release(s)` takes `s.index` with generation `s.generation + 1` and restores the head found by `release` |
| SlotGeneratorTable.GrowUntouched | sources/data_structures/src/sparse_storage.cpp:58-67 | with no releases, every entry `i` stays `(i + 1, 0)` as pages are added |
| SlotGeneratorModel.SlotGenerator.Capacity | sources/data_structures/src/sparse_storage.cpp:23 | the capacity is a whole number of 64-slot pages, one per memory page |
| SlotGeneratorModel.SlotGenerator.constructor | sources/data_structures/src/sparse_storage.cpp:13-17 | a new generator has head 0 and one page whose entry `i` is linked to `i + 1` with generation 0 |
| SlotGeneratorModel.SlotGenerator.IsValid | sources/data_structures/src/sparse_storage.cpp:51-56 | a valid handle's index is below pages·64 |
| SlotGeneratorModel.SlotGenerator.IsValidIsCurrent | sources/data_structures/src/sparse_storage.cpp:51-56 | `isValid` holds exactly when the index is in the table and the entry's generation equals the handle's |
| SlotGeneratorModel.SlotGenerator.AllIsValidIsCurrent | sources/data_structures/src/sparse_storage.cpp:51-56 | `isValid` holds exactly for the handles whose index is in the table with the handle's generation, for all handles at once |
| SlotGeneratorModel.SlotGenerator.ValidIsAcquired | sources/data_structures/src/sparse_storage.cpp:44-56 | a valid issued handle names an index that is not on the free list |
| SlotGeneratorModel.SlotGenerator.DefaultSlotInvalid | sources/data_structures/src/sparse_storage.cpp:7-11 | `Slot()` (INVALID_INDEX, generation 0) is not valid while the capacity is within 24 bits |
| SlotGeneratorModel.SlotGenerator.AllocatePage | sources/data_structures/src/sparse_storage.cpp:58-67 | one page is added; its entries are `(base + i + 1, 0)`; the fresh indices go to the end of the free list; the head is unchanged |
| SlotGeneratorModel.SlotGenerator.FreshPage | sources/data_structures/src/sparse_storage.cpp:61-66 | the loop fills the new page so that entry `i` is linked to `base + i + 1`, with generation 0 |
| SlotGeneratorModel.SlotGenerator.Acquire | sources/data_structures/src/sparse_storage.cpp:21-35 | returns the old head with that entry's generation (0 on a new page); the handle is new and valid; a page is added exactly when head = pages·64, and then the entries are the old ones followed by the fresh page's; the free list loses its first index, after the new page's indices are appended when one is added; every earlier handle keeps its validity; on an untouched table it returns `(head, 0)` and the head advances by one |
| SlotGeneratorModel.SlotGenerator.TakeHead | sources/data_structures/src/sparse_storage.cpp:28-34 | the head entry is handed out with its generation, and its link becomes the head |
| SlotGeneratorModel.SlotGenerator.Release | sources/data_structures/src/sparse_storage.cpp:37-49 | the entry gets generation + 1 and is linked to the old head; the index becomes the head; the released handle is invalid afterwards and every other issued handle keeps its validity |
| SparseTable.ErasedEntries | sources/data_structures/include/data_structures/sparse_storage.hpp:193-198 | the erase writes keep the table's length |
| SparseTable.GrowStore | sources/data_structures/include/data_structures/sparse_storage.hpp:223-238 | absent or freshly allocated default pages change no key |
| SparseTable.AssignStore | sources/data_structures/include/data_structures/sparse_storage.hpp:157-171 | `assign` keeps the invariant: the key's entry names the new last position with the key's generation, and a key with the same index and an older generation is dropped |
| SparseTable.EraseStore | sources/data_structures/include/data_structures/sparse_storage.hpp:185-200 | `erase` keeps the invariant, drops exactly the erased key, and leaves its entry as `(INVALID_INDEX, generation + 1)` |
| SparseTable.EraseOwned | sources/data_structures/include/data_structures/sparse_storage.hpp:193-199 | after the swap-and-pop, every assigned entry still names a position it owns |
| SparseTable.EraseLive | sources/data_structures/include/data_structures/sparse_storage.hpp:193-199 | after erase, every other assigned key, including the one whose value moved, keeps its value |
| SparseTable.Reassigned | sources/data_structures/include/data_structures/sparse_storage.hpp:157-171 | after `assign(s, v)` the key `s` holds `v`; every other key kept has another index and its old value; every key with another index is kept |
| SparseTable.UpdateStore | sources/data_structures/include/data_structures/sparse_storage.hpp:202-210 | writing a new value through `at` keeps the invariant: only the key's dense value changes, since the owner map gives distinct keys distinct positions |
| SparseStorageModel.Iterator.constructor | sources/data_structures/include/data_structures/sparse_storage.hpp:111 | an iterator is the storage and a position |
| SparseStorageModel.Iterator.Next | sources/data_structures/include/data_structures/sparse_storage.hpp:88 | `operator++` advances the position by exactly one |
| SparseStorageModel.Iterator.SamePosition | sources/data_structures/include/data_structures/sparse_storage.hpp:105-106 | `operator==`/`!=` compare the positions only |
| SparseStorageModel.SparseStorage.constructor | sources/data_structures/include/data_structures/sparse_storage.hpp:120 | a new storage has no pages, no values and no keys |
| SparseStorageModel.SparseStorage.Has | sources/data_structures/include/data_structures/sparse_storage.hpp:174-183 | `has` is false for any index past the last page |
| SparseStorageModel.SparseStorage.HasIsHolds | sources/data_structures/include/data_structures/sparse_storage.hpp:174-183 | `has` is false past the last page, false on an absent page (which reads as default entries), and otherwise true exactly when the entry is assigned with the key's generation |
| SparseStorageModel.SparseStorage.HasIffAssigned | sources/data_structures/include/data_structures/sparse_storage.hpp:174-183 | `has` holds exactly for the assigned keys |
| SparseStorageModel.SparseStorage.AllHasIffAssigned | sources/data_structures/include/data_structures/sparse_storage.hpp:174-183 | `has` holds exactly for the assigned keys, for all keys at once |
| SparseStorageModel.SparseStorage.DefaultSlotAbsent | sources/data_structures/include/data_structures/sparse_storage.hpp:174-183 | `Slot()` is never present while the table covers fewer than 2^24 − 1 indices |
| SparseStorageModel.SparseStorage.At | sources/data_structures/include/data_structures/sparse_storage.hpp:202-220 | `at` of a present key returns the value assigned to it |
| SparseStorageModel.SparseStorage.Update | sources/data_structures/include/data_structures/sparse_storage.hpp:202-210 | a write through the reference `at` returns: the key now holds the new value at its dense position; no entry and no other key changes |
| SparseStorageModel.SparseStorage.IteratorReadsKey | sources/data_structures/include/data_structures/sparse_storage.hpp:81 | `operator*` at the position a present key's entry names reads that key's value |
| SparseStorageModel.SparseStorage.Size | sources/data_structures/include/data_structures/sparse_storage.hpp:130 | `size()` is the storage length, and no smaller than the number of assigned keys |
| SparseStorageModel.SparseStorage.AssignedAtMostStored | sources/data_structures/include/data_structures/sparse_storage.hpp:130 | distinct assigned keys name distinct dense positions, so there are at most `size()` of them |
| SparseStorageModel.SparseStorage.PrepareRedirectionMemory | sources/data_structures/include/data_structures/sparse_storage.hpp:222-238 | afterwards the key's page exists and is allocated; the table has max(old, pageNum + 1) pages; other pages are kept; the new entries are default; no key changes |
| SparseStorageModel.SparseStorage.GrowTable | sources/data_structures/include/data_structures/sparse_storage.hpp:227-231 | resizing up appends absent pages and keeps the existing ones |
| SparseStorageModel.SparseStorage.AllocateRedirectPage | sources/data_structures/include/data_structures/sparse_storage.hpp:233-237 | the absent page becomes a fresh default page; no other page changes |
| SparseStorageModel.SparseStorage.Assign | sources/data_structures/include/data_structures/sparse_storage.hpp:155-171 | for a key not present: afterwards `has` holds, `at` returns the value, and the value is appended to the storage (so size + 1, in assignment order); the entry is `(old size, generation)`; an older-generation key with the same index is dropped; `has` of every key with another index is unchanged |
| SparseStorageModel.SparseStorage.Erase | sources/data_structures/include/data_structures/sparse_storage.hpp:185-200 | for a present key: the storage is swap-removed at its position; it is no longer present; every other key keeps its value and its `has`; its entry is `(INVALID_INDEX, generation + 1)` |
| SparseStorageModel.SparseStorage.EraseEntries | sources/data_structures/include/data_structures/sparse_storage.hpp:193-198 | all entry writes of `erase`: the key's entry is emptied with generation + 1 and the entry that named the last position now names the vacated one; returns that position |
| SparseStorageModel.SparseStorage.ClearEntry | sources/data_structures/include/data_structures/sparse_storage.hpp:193-196 | returns the entry's dense position and writes `(INVALID_INDEX, generation + 1)` |
| SparseStorageModel.SparseStorage.RedirectOwner | sources/data_structures/include/data_structures/sparse_storage.hpp:198 | the entry that named the back position is made to name the hole |
| SparseStorageModel.SparseStorage.Begin | sources/data_structures/include/data_structures/sparse_storage.hpp:132-134 | `begin()` is position 0 of the storage |
| SparseStorageModel.SparseStorage.End | sources/data_structures/include/data_structures/sparse_storage.hpp:136-138 | `end()` is position `size()` |
| SparseStorageModel.SparseStorage.Values | sources/data_structures/include/data_structures/sparse_storage.hpp:130-138 | walking from `begin()` to `end()` yields exactly the storage, `size()` elements, in storage order |
| Findings.SlotMapEraseAsWritten | sources/data_structures/include/data_structures/slot_map.hpp:353-364 | as written, `erase` writes the backwards mapping at the external index |
| Findings.SlotMapEraseBreaksInverse | sources/data_structures/include/data_structures/slot_map.hpp:357-358 | on a valid two-entry table, the as-written erase breaks the redirect/backwards inverse |
| Findings.SlotMapFresh | sources/data_structures/include/data_structures/slot_map.hpp:284-289 | a new map's tables: 64 entries, size 0, head 0 |
| Findings.SlotMapAllocate | sources/data_structures/include/data_structures/slot_map.hpp:311-324 | `allocate` with a free head returns (head, its generation), moves the head along its link and maps head and dense position `size` to each other |
| Findings.SlotMapEraseFromNewMap | sources/data_structures/include/data_structures/slot_map.hpp:357-358 | from a new map, allocate, allocate, erase the first, allocate, then erase `Slot(1, 0)` as written: the tables are inverse before and not after |
| Findings.GeneratorReleaseAsWritten | sources/data_structures/src/sparse_storage.cpp:41-48 | as written, `release` bumps the generation but leaves the entry's old link in place |
| Findings.GeneratorAcquire | sources/data_structures/src/sparse_storage.cpp:28-34 | `acquire` with a free head, as written: the head's handle with its generation, and the head follows its link |
| Findings.GeneratorReleaseReissues | sources/data_structures/src/sparse_storage.cpp:44-48 | acquire, acquire, release, acquire, acquire hands out `Slot(1, 0)` twice as written, and index 2 when the link is stored |
| Findings.SparseEraseAsWritten | sources/data_structures/include/data_structures/sparse_storage.hpp:193-199 | as written, `erase` changes only the erased key's entry |
| Findings.SparseEraseLosesMovedKey | sources/data_structures/include/data_structures/sparse_storage.hpp:198 | as written, the moved key names a position past the new end; with the owner fix-up it names its value |
| Findings.PreparedPageCountAsWritten | sources/data_structures/include/data_structures/sparse_storage.hpp:225-231 | as written, the page count becomes pageNum + 1 when the index is within the capacity, and is unchanged otherwise |
| Findings.PrepareAsWrittenDropsPages | sources/data_structures/include/data_structures/sparse_storage.hpp:227-231 | as written, touching a lower page shrinks the table |
| Findings.PrepareAsWrittenSkipsGrowth | sources/data_structures/include/data_structures/sparse_storage.hpp:227-233 | as written, an index beyond the capacity leaves its page missing |
| Findings.PrepareAsWrittenExamples | sources/data_structures/include/data_structures/sparse_storage.hpp:227-231 | three pages with index 5 become one page, and one page with index 1000 stays one page |

## Left out

- Memory mechanics become plain value assignment:
  - placement-new, explicit destructor calls and move-assignment;
  - `unique_ptr` pages;
  - `std::vector` growth and reallocation.
- The 24-bit index and 40-bit generation bit-fields are unbounded `nat`s.
  - Generation wrap-around at 2^40 is not modelled.
  - Truncation of indices above 2^24 − 1 is not modelled.
  - The lemmas about `Slot()` assume the capacity stays within 24 bits.
- The `static_assert` on the size of `Slot` is a compile-time check.
- `NUM_OBJECTS_PER_PAGE` is fixed at its default, 64. The mutable `s_numObjectPerPage` is that same constant.
- `SlotMap::Iterator`: only construction, `operator*`, `operator++` and `operator==`/`!=` are modelled. These make the begin-to-end walk. `--`, `+=`, `-=`, `+`, `-`, `[]`, `->` and the ordering operators are left out. So is `SparseStorage::Iterator`'s random-access arithmetic.
- `cbegin`/`cend` and the const overloads are left out. They are the same walk.
- `SlotMap::allocate` and `SparseStorage::assign` take the constructed value rather than constructor arguments. Perfect forwarding is a C++ mechanism.
- SlotMapModel.Iterator.Get and SparseStorageModel.Iterator.Get: `operator*` returns a mutable reference; the model only reads through it. Writes through the reference `at` returns are `Update`; writes through an iterator are not modelled.
- SlotMapModel.SlotMap.At: requires the handle to be one this map issued, not only `isSlotValid`.
  - `Slot`'s fields are private, so only `allocate` and `Slot()` create handles.
  - A handle from another map that happens to match a free index's generation is outside the model.
- SlotMapModel.SlotMap.Erase: requires an issued handle, for the same reason. On a free index, the source's erase would corrupt the free list.
- SlotGeneratorModel.SlotGenerator.Release: requires an issued handle, for the same reason.
- SparseStorageModel.SparseStorage.Assign: requires fewer than 2^24 − 1 stored values. The entry's 24-bit index must hold the new dense position without colliding with `INVALID_INDEX`.
- SparseStorageModel.SparseStorage.Erase: states the erased key's entry and the live keys. It does not state the moved key's redirected entry. `SparseTable.ErasedEntries` and `SparseTable.EraseStore` give that entry on values.
- The two `Iterator.Get` functions have no `ensures` of their own: `SlotMapModel.SlotMap.IteratorReads` and `SparseStorageModel.SparseStorage.IteratorReadsKey` state what they read.
- Some helpers need no row because they model nothing of their own:
  - `Commit`, `Load`, `LoadEntry`, `StoreAt`, `StoreEntry` and `PagesHoldPrefix` carry frame and page-layout facts.
  - `PagePosition` carries the arithmetic of an index's page and offset.
  - `Range`, `Distinct` and `InjectionBound` carry facts about index sequences and their count.
- `SlotGenerator`'s `m_head` is a 32-bit value. Wrap-around is never reached below 2^24 indices.

## Findings

| source | as written | input that shows it | evidently intended | confidence | as-written member | corrected member |
|---|---|---|---|---|---|---|
| sources/data_structures/include/data_structures/slot_map.hpp:358 | `m_backwardsMapping[slot.m_index] = m_backwardsMapping[m_size - 1]` writes at the external index | new map: allocate → (0,0), allocate → (1,0), erase (0,0), allocate → (0,1), erase (1,0): dense position 0 now holds index 0's value but maps back to the freed index 1 | write at the hole, `m_backwardsMapping[m_redirect[slot.m_index].m_index]` | not executed | Findings.SlotMapEraseAsWritten, Findings.SlotMapEraseBreaksInverse, Findings.SlotMapEraseFromNewMap | SlotMapModel.SlotMap.Erase, SlotMapTable.EraseMap |
| sources/data_structures/src/sparse_storage.cpp:47 | `slot.m_index = m_head` writes the free-list link into the by-value parameter | fresh generator: acquire → (0,0), acquire → (1,0), release (0,0), acquire → (0,1), acquire → (1,0) again while (1,0) is live | `internalSlot.m_index = m_head` | not executed | Findings.GeneratorReleaseAsWritten, Findings.GeneratorReleaseReissues | SlotGeneratorModel.SlotGenerator.Release, SlotGeneratorTable.ReleaseGen |
| sources/data_structures/include/data_structures/sparse_storage.hpp:198 | the back value moves into the hole, but the entry of the key that owned it is not redirected | keys (0,0) → 10 and (1,0) → 20, erase (0,0): key (1,0) still present but names position 1 of a one-element storage | redirect the moved key's entry to the hole (needs a position-to-key map) | not executed | Findings.SparseEraseAsWritten, Findings.SparseEraseLosesMovedKey | SparseStorageModel.SparseStorage.Erase, SparseTable.EraseStore |
| sources/data_structures/include/data_structures/sparse_storage.hpp:227-231 | `resize(pageNum + 1)` whenever `slot.m_index <= size` | 3 pages, index 5: shrinks to 1 page; 1 page, index 1000: no growth, and page 15 is then accessed out of range | grow only, to at least `pageNum + 1` pages | not executed | Findings.PreparedPageCountAsWritten, Findings.PrepareAsWrittenDropsPages, Findings.PrepareAsWrittenSkipsGrowth | SparseStorageModel.SparseStorage.PrepareRedirectionMemory |

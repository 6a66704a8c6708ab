# Vector and HashTable, verified in Dafny

This project models the two in-memory data structures of the repository and proves what they promise.

- **`Vector`** (code/vector.py) is a growable array of integers.
  - It is a backing store plus a `length`. Capacity doubles when `push` or `insert` finds the store full, and halves when `pop` or `delete` leaves at most a quarter of it in use.
  - The model is an immutable value `Vector(buffer, length)`. Its abstract content is `Elems(v) == buffer[..length]`, and every operation returns the new value.
  - IndexError is modelled as `Err(IndexError)`. A call that raises leaves the vector as it was, which matches the source for every modelled case.
- **`HashTable`** (code/hashtable.py) is an open-addressing map from string keys to values.
  - It is a fixed row of slots with linear probing and no wrap-around. `remove` deletes by backward shift and leaves no tombstones.
  - The model is a `seq<Slot<V>>`, and operations return the new table.
  - Reading a slot past the end raises IndexError in the source. This is `Err(RanOffEnd)`.
  - The MD5 hash is a parameter `hash: string -> nat`.
  - The step from a hexadecimal digest to a home slot is modelled separately in `Digest`.

Modules:

- `Wrappers`: `Option` and `Result`.
- `Vectors`: the vector operations as functions, with contracts against `Elems`.
- `VectorLoops`: the source's loops (the copy in `_resize`, the shifts of `insert` and `delete`, the scans of `find` and `remove`). Each is written slot by slot and proved equal to the corresponding function.
- `VectorRuns`: sequences of calls. It covers the invariants every call keeps, the round trips, the usage scenarios at the end of code/vector.py, and the consequences of the missing shrink floor.
- `HashTable`: the probe, `exists`, `get`, `add`, `remove` with backward shift, and `remove` exactly as written.
- `HashTableLoops`: the probe loop and the `remove` loop as the source writes them, proved equal to the functions.
- `HashTableProps`: the probe invariant and what it guarantees. `add` acts as a map update and `remove` as a map deletion, and both keep the invariant.
- `Digest`: the digest prefix read as a base-16 number, and the range of home slots this gives.

The shrink floor is a parameter `minCapacity` of `pop`, `delete` and `remove`:

- `minCapacity == 0` is the code as written: it halves whenever `length <= capacity / 4`, however small the store already is.
- `minCapacity == 16` is a lower bound on halving at the capacity `__init__` starts with (code/vector.py:7): capacity never shrinks below 16. Without a floor the capacity can reach 0, and `push` then raises (see Findings).

The source divides in floating point (`len(self.array) / 4`, `int(len(self.array) / 2)`). The model writes `4 * length <= capacity`, which is the same test, and `capacity / 2`, which is what `int` gives, because it truncates and capacities are never negative. Every capacity a vector can reach is zero or a power of two (`VectorRuns.NewVectorRunKeepsShape`), so the halving is also exact.

`remove` on the hash table may empty the slot and move entries before it reads past the end and raises (see Findings). `HashTableLoops.RemoveScan` gives the table that is left behind.

## Model

| member | source | states |
|---|---|---|
| Vectors.New | code/vector.py:6-8 | a new vector is valid, holds no elements and has capacity 16 |
| Vectors.Size | code/vector.py:20-21 | the size is the number of elements of the abstract content |
| Vectors.Capacity | code/vector.py:23-24 | the capacity bounds the number of elements of a valid vector |
| Vectors.IsEmpty | code/vector.py:26-27 | true exactly when the abstract content is empty |
| Vectors.Resize | code/vector.py:10-18 | raises exactly when the new capacity is below the length; otherwise the store has the new capacity, the elements are unchanged and the slots past them are zero |
| Vectors.GrowIfFull | code/vector.py:39-40 | the elements are unchanged and the capacity doubles exactly when the store was full |
| Vectors.ShrinkIfSparse | code/vector.py:68-69 | the elements are unchanged and the capacity follows the halving rule for the length left |
| Vectors.At | code/vector.py:29-33 | raises exactly when the index is not below the size; otherwise returns that element of the abstract content |
| Vectors.Push | code/vector.py:35-43 | raises only on a store of capacity 0; otherwise the content becomes `s + [x]` and the capacity doubles exactly when the store was full |
| Vectors.Insert | code/vector.py:45-56 | for an index up to the size: raises only on capacity 0; otherwise the content becomes `s[..i] + [x] + s[i..]`, with the doubling rule of push |
| Vectors.Prepend | code/vector.py:58-59 | raises only on capacity 0; otherwise the content becomes `[x] + s` |
| Vectors.Pop | code/vector.py:61-71 | raises exactly on an empty vector; otherwise the old content is the new content plus the returned item, and the capacity follows the halving rule for the new length |
| Vectors.Delete | code/vector.py:73-83 | raises exactly when the index is not below the size; otherwise the content becomes `s[..i] + s[i+1..]`, with the halving rule of pop |
| Vectors.IndexFrom | code/vector.py:89-93 | the scan from position i returns -1 exactly when x does not occur from i on, else the first position from i holding x |
| Vectors.Find | code/vector.py:85-93 | -1 exactly when x is not in the content; otherwise the least index holding x |
| Vectors.WithoutConcat | code/vector.py:95-100 | filtering x out of a concatenation filters each part |
| Vectors.WithoutAbsent | code/vector.py:95-100 | filtering out an absent x changes nothing |
| Vectors.WithoutDeleteFirst | code/vector.py:95-100 | deleting the first occurrence of x and then filtering equals filtering |
| Vectors.Remove | code/vector.py:95-100 | the content becomes s with every x filtered out and the order otherwise kept; find then returns -1; the capacity never grows and never falls below a floor it started at |
| VectorLoops.ResizeCopy | code/vector.py:10-18 | the element-by-element copy into a zeroed store computes `Resize` |
| VectorLoops.GrowStep | code/vector.py:39-40 | the doubling step through the copy loop computes `GrowIfFull` |
| VectorLoops.ShrinkStep | code/vector.py:68-69 | the halving step through the copy loop computes `ShrinkIfSparse` |
| VectorLoops.InsertShift | code/vector.py:45-56 | the top-down shift loop followed by the write computes `Insert` |
| VectorLoops.PushStep | code/vector.py:35-43 | grow, then write past the end: computes `Push` |
| VectorLoops.PopStep | code/vector.py:61-71 | computes `Pop`, including the halving |
| VectorLoops.DeleteShift | code/vector.py:73-83 | the bottom-up shift loop followed by the halving step computes `Delete` |
| VectorLoops.FindScan | code/vector.py:85-93 | the front-to-back scan computes `Find` |
| VectorLoops.RemoveLoop | code/vector.py:95-100 | the find/delete loop terminates and computes `Remove` |
| VectorRuns.Apply | code/vector.py:35-100 | one call keeps the vector valid and never takes the capacity below a floor it started at |
| VectorRuns.Run | code/vector.py:35-100 | a sequence of calls keeps the vector valid |
| VectorRuns.RemoveKeepsShape | code/vector.py:95-100 | remove keeps the capacity zero or a power of two |
| VectorRuns.ApplyKeepsShape | code/vector.py:39-83 | every call keeps the capacity zero or a power of two |
| VectorRuns.RunKeepsInvariant | code/vector.py:6-100 | after any sequence of calls the length stays within the capacity and the capacity stays zero or a power of two |
| VectorRuns.NewVectorRunKeepsShape | code/vector.py:6-100 | from a new vector of 16 slots, every sequence of calls leaves the capacity zero or a power of two |
| VectorRuns.PushPopRoundTrip | code/vector.py:35-71 | push x then pop returns x and restores the content |
| VectorRuns.InsertDeleteRoundTrip | code/vector.py:45-83 | insert at i then delete at i restores the content |
| VectorRuns.PushAllAppends | code/vector.py:35-43 | on a positive capacity every push succeeds and the items are appended in order |
| VectorRuns.PushAllUntilFull | code/vector.py:39-40 | pushes keep the capacity while there is room, and the push that finds the store full doubles it |
| VectorRuns.PushAllGrows | code/vector.py:35-43 | any number of pushes on a positive capacity succeed, and the capacity ends at the first doubling that holds every element, never beyond it |
| VectorRuns.PopNSplit | code/vector.py:61-71 | popping as many times as t is long from a vector holding s + t leaves s and yields t last first |
| VectorRuns.PopNTakesSuffix | code/vector.py:61-71 | n pops take the last n elements, last first, and leave the rest |
| VectorRuns.PushAllPopNReverses | code/vector.py:140-157 | pushing a sequence and popping as many times yields the sequence reversed and the original content |
| VectorRuns.PopNAboveQuarter | code/vector.py:68-69 | pops that leave more than a quarter of the store in use keep the capacity |
| VectorRuns.SeventeenPushesDouble | code/vector.py:195-213 | seventeen pushes onto an empty vector whose capacity is a power of two up to 16 (the scenario has one slot left here) give capacity 32 and hold the items in order |
| VectorRuns.NinePopsHalve | code/vector.py:215-225 | from 17 elements in 32 slots, eight pops keep 32 slots and the ninth halves the capacity to 16 |
| VectorRuns.PushInsertPopScenario | code/vector.py:146-157 | push 1, push 3, insert 2 at 1, then three pops yield 3, 2, 1 and an empty vector |
| VectorRuns.UnflooredRoundHalves | code/vector.py:68-69 | as written, a push/pop round on an empty vector halves the capacity |
| VectorRuns.UnflooredRoundsHalve | code/vector.py:68-69 | as written, n push/pop rounds halve the capacity n times |
| VectorRuns.NoSlotsIsPermanent | code/vector.py:39-42 | a vector with no slots keeps no slots whatever is called |
| VectorRuns.UnflooredVectorLosesAllSlots | code/vector.py:61-71 | as written, five push/pop rounds take a new vector to capacity 0, after which push and prepend always raise |
| VectorRuns.FlooredVectorStaysUsable | code/vector.py:61-83 | with a positive floor the capacity never drops below it and push and prepend never raise |
| VectorRuns.NewVectorKeepsInitialCapacity | code/vector.py:6-8 | with the floor 16, a new vector keeps at least 16 slots whatever is called |
| HashTable.New | code/hashtable.py:6-8 | a new table has the given number of slots and holds no key |
| HashTable.Probe | code/hashtable.py:20-27 | the probe stops at the first slot from its start that is empty or holds the key, having passed only slots holding other keys; it raises exactly when every slot from its start to the end holds another key |
| HashTable.Exists | code/hashtable.py:20-32 | raises exactly when the probe runs off the end; true only when the key is stored |
| HashTable.Get | code/hashtable.py:45-57 | raises exactly when the probe runs off the end; returns a value exactly when exists is true, and that value is stored under the key |
| HashTable.Add | code/hashtable.py:34-43 | raises exactly when the probe runs off the end; otherwise writes (k, v) into one slot that is empty or held k, and changes no other slot |
| HashTable.Compact | code/hashtable.py:72-87 | corrected (as written: `HashTable.CompactAsWritten`): the backward shift keeps the length and the slots before the hole, and leaves an empty slot at or after the hole |
| HashTable.Remove | code/hashtable.py:60-87 | corrected (as written: `HashTable.RemoveAsWritten`): raises exactly when the probe runs off the end; otherwise keeps the number of slots |
| HashTable.CompactAsWritten | code/hashtable.py:72-87 | the shift as written raises exactly when the occupied run from the scan start reaches the last slot, and otherwise agrees with `Compact` |
| HashTable.RemoveAsWritten | code/hashtable.py:60-87 | remove as written raises exactly when the probe runs off the end or the occupied run after the emptied slot reaches the last slot, and otherwise agrees with `Remove` |
| HashTableLoops.ProbeScan | code/hashtable.py:21-27 | the probe loop as written computes `Probe` |
| HashTableLoops.RemoveScan | code/hashtable.py:60-87 | the remove loop as written raises exactly when `RemoveAsWritten` does; it leaves the table the corrected `Remove` produces, or the table unchanged when the probe raises |
| HashTableProps.ProbeEndsAt | code/hashtable.py:21-24 | the probe ends on the first slot that is empty or holds the key |
| HashTableProps.ProbeFindsKey | code/hashtable.py:21-24 | under the probe invariant, the probe for a stored key ends on its slot |
| HashTableProps.KeyOnlyAtProbeEnd | code/hashtable.py:21-24 | under the probe invariant, a stored key sits only where its probe ends |
| HashTableProps.NewTableIsEmpty | code/hashtable.py:6-8 | a new table satisfies the probe invariant and reports absent every key whose home lies inside the table |
| HashTableProps.ExistsIffStored | code/hashtable.py:20-32 | under the probe invariant, exists is true exactly when some slot holds the key, and false for an absent key when the probe finds room |
| HashTableProps.GetIffHolds | code/hashtable.py:45-57 | under the probe invariant, get returns v exactly when (k, v) is stored, and None for an absent key when the probe finds room |
| HashTableProps.AddThenGet | code/hashtable.py:34-43 | after add(k, v), exists(k) is true and get(k) returns v |
| HashTableProps.AddKeepsChains | code/hashtable.py:37-43 | writing into the slot the probe ends on keeps every chain intact |
| HashTableProps.AddKeepsValid | code/hashtable.py:34-43 | add keeps the probe invariant and key uniqueness; (k, v) is the only entry for k and every other key keeps its entries |
| HashTableProps.AddTwice | code/hashtable.py:37-43 | add(k, v1) then add(k, v2) rewrites the same slot; get(k) returns v2 and no other value is stored for k |
| HashTableProps.ShiftStopRestores | code/hashtable.py:78 | a scan that stops at an empty slot or the end, with only chains through the hole broken, leaves every chain intact |
| HashTableProps.ShiftMoveKeepsState | code/hashtable.py:81-85 | moving an entry whose home is at or before the hole into it leaves only chains through the new hole broken |
| HashTableProps.CompactRestoresChains | code/hashtable.py:76-87 | from a hole where only chains through the hole are broken, the backward shift re-establishes every chain |
| HashTableProps.MoveKeepsEntries | code/hashtable.py:81-85 | moving an entry into the empty hole keeps the stored entries and key uniqueness |
| HashTableProps.CompactKeepsEntries | code/hashtable.py:76-87 | the backward shift keeps the stored entries and key uniqueness |
| HashTableProps.CompactMovesNothing | code/hashtable.py:72-87 | when every chain is intact, the shift after an empty slot moves nothing |
| HashTableProps.ClearStartsShift | code/hashtable.py:69-72 | emptying a slot of a valid table leaves only the chains through that slot broken |
| HashTableProps.ClearKeepsOthers | code/hashtable.py:69-70 | emptying the slot the probe found keeps every other key's entries |
| HashTableProps.ClearDropsKey | code/hashtable.py:60-69 | under the probe invariant, emptying the slot the probe found leaves the key stored nowhere |
| HashTableProps.RemoveKeepsValid | code/hashtable.py:60-87 | remove keeps the probe invariant and key uniqueness, leaves the key absent so exists is false, and keeps every other key's entries |
| HashTableProps.RemovedStaysAbsent | code/hashtable.py:72-87 | a table with the same entries as one without the key does not hold the key |
| HashTableProps.ProbeReachesEmpty | code/hashtable.py:21-32 | a probe for an absent key with an empty slot ahead ends on an empty slot |
| HashTableProps.RemoveAbsentIsNoop | code/hashtable.py:69-70 | under the probe invariant, removing an absent key leaves the table unchanged |
| HashTableProps.RemoveOfLastSlotRaises | code/hashtable.py:72-78 | as written, removing the key in the last slot raises, while the corrected remove succeeds and drops the key |
| HashTableProps.RemoveAtLastSlotRaises | code/hashtable.py:72-78 | concrete case: a one-slot table holding "First" raises on remove as written, and the corrected remove empties it |
| HashTableProps.SelfTestScenario | code/hashtable.py:89-99 | the usage scenario on any table where both keys' homes fit: absent before add, 13 after add, 14 after the second add, absent after the corrected remove; the remove as written raises exactly when the home of "First" is the last slot and otherwise gives the same table |
| Digest.HexValue | code/hashtable.py:16 | a numeral of n hexadecimal digits denotes a number below 16^n |
| Digest.HexRoundTrip | code/hashtable.py:14-16 | reading back the w-digit numeral of a number below 16^w gives the number |
| Digest.ParseHex | code/hashtable.py:16 | parsing fails exactly on the empty string or a non-digit; otherwise the value is below 16 to the number of digits |
| Digest.HashIndex | code/hashtable.py:10-18 | the home from m digest bytes is defined exactly when m is positive and the prefix is hexadecimal, and lies below 256^m |
| Digest.EverySlotIsAHome | code/hashtable.py:10-18 | every slot of a table of 256^m slots is the home of the digest that begins with its numeral |
| Digest.HomeFitsReferenceTable | code/hashtable.py:7-18 | with two bytes of a 32-digit hexadecimal digest, every home lies inside the 65536-slot table |

## Left out

- MD5 and UTF-8 encoding in `_hash` (code/hashtable.py:12-14) are a foreign library call. The hash is the parameter `hash`, and `Digest` models only the step after the digest.
- The `type(item) is not int` checks (code/vector.py:36-37, 46-47, 86-87) are vacuous on a typed `seq<int>`.
- Python's negative indices are left out: indices are `nat`.
- Vectors.Insert: requires `i <= Size(v)`. The source has no bounds check. An index past the length writes past the end of the content, or raises when it reaches the capacity. `VectorRuns.Apply` treats such a call as doing nothing.
- Floating-point division in the shrink test is written as integer arithmetic. Rounding of doubles for capacities above 2^53 is not modelled.
- The hash table's capacity is the length of the sequence. The reference 65536 is `HashTable.ReferenceCapacity`.
- A home index at or past the table's length is not excluded. The probe then raises at once, as the source's read of `table[idx]` would.
- The dead `idx == 65536` test (code/hashtable.py:26-27 and its copies) is left out. The read of `table[65536]` in the loop condition has already raised.
- HashTable.RemoveAsWritten: on error it returns only the error, not the table left behind. `HashTableLoops.RemoveScan` states that table.
- Python `int(s, 16)` also accepts a sign, surrounding whitespace, underscores and a `0x` prefix. A hexadecimal digest contains none of these, so `Digest.ParseHex` accepts digits only.
- The two self-tests (code/vector.py:102-225, code/hashtable.py:89-99) are stated as scenario lemmas, not as a program.

## Findings

| source | as written | input that shows it | evidently intended | confidence | as-written member | corrected member |
|---|---|---|---|---|---|---|
| code/vector.py:68-69 | `pop` and `delete` halve whenever `length <= capacity / 4`, with no lower bound, so the capacity can reach 0; `push` then resizes to `0 * 2` and the write raises IndexError | a new vector followed by five rounds of `push(0); pop()`: capacity 16, 8, 4, 2, 1, 0, after which every `push` and `prepend` raises | capacity never shrinks below the initial 16 | not executed | VectorRuns.UnflooredVectorLosesAllSlots | VectorRuns.FlooredVectorStaysUsable |
| code/hashtable.py:72-78 | `remove` reads `table[idx + 1]` and `table[new_idx]` without a bound check, so it raises IndexError when the occupied run after the emptied slot reaches the last slot, after it has already emptied the slot | a key whose home is the last slot, added to a new table and then removed; equally a one-slot table holding "First" with every home 0 | the shift stops at the end of the table and `remove` succeeds | not executed | HashTableProps.RemoveOfLastSlotRaises | HashTableProps.RemoveKeepsValid |

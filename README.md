# Open-addressing hash table (src/hash_table.c), modelled in Dafny

The repository is a string-to-string hash table in C. Its slots form one
array. Collisions are resolved by double hashing: the probe for a key at
attempt `i` visits slot `(h1 + i * (h2 + 1)) % size`, where `h1` and `h2`
are positional string hashes with multipliers 151 and 199. Deleting a key
leaves a tombstone, so probe chains through the deleted slot stay intact.
The table grows when the load (`count * 100 / size`) is above 70 and shrinks
when it is below 10. It resizes by reinserting every live entry into a
scratch table of the new base size and then taking over that table's fields.
The number of slots is meant to be the least prime at or above the base
size; the model makes it so (the source reads an unset field there, see
"Findings").

The model has six modules:

- `Primes`: the least prime at or above `n`. The routine lives in a header
  that is not part of this model, so it is defined by a search whose
  termination rests on Euclid's argument.
- `Hashing`: `ht_hash`, written as the recursion of its loop and proved equal
  to a base-`a` numeral of the character codes reduced mod `m`; and
  `ht_get_hash`, with its periodicity and its degenerate case.
- `Probing`: slots as a datatype (`Empty`, `Tombstone`, `Occupied`) and the
  probe read on a slot sequence. It defines where the probe for a key stops,
  what a search finds, and the layout invariant `Stored` that ties slots to
  the key/value map they represent. It also holds the single-slot update
  lemmas the table's methods use.
- `HashTable`: the table as a class whose fields (`size`, `baseSize`,
  `count`, the slot array `items`) change in place, with a ghost `contents`
  map. Every public operation of the source except destroying a table
  (`ht_del_hash_table`) is a method proved against `contents`. `Valid()`
  says:
  - the slot count is the least prime at or above the base size;
  - every entry sits where its own probe stops, so each key occupies at most
    one slot, reachable before any empty slot;
  - every key of `contents` is found by a search;
  - `count` equals both the number of keys and the number of occupied slots.
- `Findings`: the source's two defects, as written, next to inputs that
  expose them.
- `Demo`: the run of main.c, and two keys whose probe never leaves one slot.

Every probe loop of the source runs until it meets an empty slot (or, for
insert and search, the key). Here each loop is bounded by `size` attempts;
`Hashing.ProbeRepeats` shows that the unbounded loop reaches no slot the
bounded one misses (`Probing.NeverStops`, `Probing.NeverEmpty`). A
bounded loop that ends without stopping is therefore a source loop that
never ends, and the operation reports `false`. Each `false` is tied to that
case:
- a search reports `false` exactly when the key's probe stops nowhere, and
  changes nothing;
- an insertion reports `false` when the key's probe into the current
  slots stops nowhere (exactly then, when no grow comes first); the map is as it was, though a grow that
  finished before the probe may have rebuilt the table;
- a deletion reports `false` when its probe meets no empty slot, having
  already turned the key's entry into a tombstone as the source has before
  it spins, or when the shrink before it fails;
- a rebuild (`ht_resize`, and the grow or shrink inside an insertion or a
  deletion) reports `false` with a ghost witness, a `HashTable.Jam`. The
  witness is the slots of a valid, tombstone-free table of at least the
  requested base size. They hold part of the entries, and the probe of one
  further entry's key stops nowhere in them, so the source's reinsertion
  loop never ends. `HashTable.JamCause` shows that a jam needs at least two
  keys. It also needs either a degenerate step for the jammed key or more
  keys than slots. A grow can therefore fail only on a degenerate step.

This happens when tombstones leave no empty slot on a key's probe. It also
happens when the second hash is `size - 1`, which makes the probe step a
multiple of `size`. In a new table, once "4" is stored, searching for or
inserting "i" never stops in the source (`Demo.CyclingProbe`), and neither
does deleting "4" (`Demo.CyclingDelete`).

The delete loop at src/hash_table.c:181-192 keeps scanning after it
tombstones a match, until it meets an empty slot. The model follows the
code (`HashTable.Sweep`), so a deletion reports success exactly when the
key's probe meets an empty slot (`Probing.MeetsEmpty`).

## Model

| member | source | states |
|---|---|---|
| Primes.NextPrime | src/hash_table.c:27 | `next_prime(n)` is a prime at least `n`, and no number in `[n, result)` is prime, so it is the least such prime |
| Primes.NextPrimeMonotone | src/hash_table.c:27 | a larger base size never yields fewer slots |
| Hashing.HashFrom | src/hash_table.c:60-63 | every step of the hash loop keeps the running value below `m` |
| Hashing.Hash | src/hash_table.c:57-65 | `ht_hash` returns a bucket index in `[0, m)` |
| Hashing.HashFromValue | src/hash_table.c:60-63 | the loop from index `i` with running value `acc` ends at `(acc + numeral of s[i..]) % m`; reducing mod `m` after every step loses nothing |
| Hashing.HashIsNumeral | src/hash_table.c:57-65 | `ht_hash(s, a, m)` is the base-`a` numeral of the character codes of `s`, most significant first, reduced mod `m` |
| Hashing.GetHash | src/hash_table.c:68-73 | `ht_get_hash` returns an index in `[0, num_buckets)` |
| Hashing.FirstProbe | src/hash_table.c:68-73 | attempt 0 probes the slot named by the first hash |
| Hashing.ProbeRepeats | src/hash_table.c:68-73 | the probe is periodic in `num_buckets`: attempt `i` probes the same slot as attempt `i % num_buckets`, so an unbounded probe reaches nothing the first `num_buckets` attempts miss |
| Hashing.DegenerateStep | src/hash_table.c:72 | when the second hash is `num_buckets - 1`, every attempt probes the first hash's slot |
| Hashing.ProbeInjective | src/hash_table.c:68-73 | for a prime `num_buckets` and a second hash below `num_buckets - 1`, the first `num_buckets` attempts probe pairwise different slots (Euclid's lemma, `Primes.PrimeDividesFactor`) |
| Hashing.ProbeReaches | src/hash_table.c:68-73 | under the same conditions every slot is probed by one of the first `num_buckets` attempts |
| Probing.Slot | src/hash_table.c:12 | a slot is a NULL pointer (`Empty`), the address of the shared deleted-item sentinel (`Tombstone`), or a live item (`Occupied`); the three cases tested at src/hash_table.c:83 and :130 |
| Probing.Halts | src/hash_table.c:129-132 | the probe for a key stops at an attempt whose slot is NULL or a live item with that key; the same condition ends the loops at src/hash_table.c:154-157 |
| Probing.Stop | src/hash_table.c:154-163 | the first attempt at which the probe for a key meets an empty slot or the key itself; every earlier attempt met a tombstone or another key; `None` when no attempt below the slot count stops |
| Probing.Where | src/hash_table.c:125-141 | the slot where the probe for a key stops, present exactly when the probe stops |
| Probing.Lookup | src/hash_table.c:148-165 | what `ht_search` returns: the value of the live item where the probe stops, which holds the key, and nothing when that slot is empty or no attempt stops |
| Probing.Stored | src/hash_table.c:125-144 | the layout `ht_insert` and `ht_delete` keep: every live item sits where its own key's probe stops and is in the map with its value, and every key of the map is found by a search |
| Probing.EmptyFrom | src/hash_table.c:181 | the first attempt at or after `from` whose slot is NULL, the only condition that ends the loop of `ht_delete`; every earlier attempt met a non-empty slot; `None` when no attempt below the slot count meets one |
| Probing.MeetsEmptyKept | src/hash_table.c:186-187 | writing a tombstone over a live item (or any non-empty slot over a non-empty slot) leaves every probe meeting an empty slot exactly as before |
| Probing.NeverEmpty | src/hash_table.c:181 | a probe that meets no empty slot within the slot count meets none at any attempt, so the loop of `ht_delete` never ends |
| Probing.NeverStops | src/hash_table.c:129-141 | a probe that does not stop within the slot count stops at no attempt, so the loops of `ht_insert` and `ht_search` never end |
| Probing.OwnSlot | src/hash_table.c:129-136 | in a valid layout, the probe for a stored key stops at that key's own entry, holding its value |
| Probing.OnlySlot | src/hash_table.c:183-187 | in a valid layout, a search finds a key exactly when the map holds it, and the only slot holding the key is where its probe stops, so the delete loop tombstones at most that one |
| Probing.EmptyStops | src/hash_table.c:181 | meeting an empty slot at some attempt means the probe stops there or earlier, and that it meets an empty slot |
| Probing.LookupAgrees | src/hash_table.c:148-165 | in a valid layout, a search finds the stored value of a present key and nothing for an absent key |
| Probing.OtherKeyKept | src/hash_table.c:155-161 | writing a tombstone or another key into a slot where a key's probe does not stop leaves that key's stop and search unchanged |
| Probing.StoredAfterPlace | src/hash_table.c:129-143 | the slot where the probe stops is empty or holds the key; writing the entry there keeps the layout invariant for the updated map, and the key's probe then stops there |
| Probing.PlaceKeeps | src/hash_table.c:125-144 | writing the entry where the probe stops keeps the full representation; that slot was empty exactly when the key was absent, and only then does the count grow by one |
| Probing.StoredAfterRemove | src/hash_table.c:181-187 | a present key's probe stops at its own entry; tombstoning it keeps the layout invariant for the map without the key |
| Probing.RemoveKeeps | src/hash_table.c:178-193 | tombstoning a present key's entry keeps the full representation with one entry and one count fewer |
| Probing.OccupancyUpdate | src/hash_table.c:143-144 | overwriting one slot changes the number of occupied slots by what left and what came |
| Probing.CopyStep | src/hash_table.c:81-86 | visiting slot `i` of a rebuild adds exactly that slot's live entry, which was not copied before, and nothing for an empty slot or a tombstone |
| Probing.StuckMeansFull | src/hash_table.c:129-141 | in tombstone-free slots of prime count, a probe with a non-degenerate step that stops nowhere has passed every slot, so the slots hold at least as many distinct keys as there are slots |
| Probing.CopiedAll | src/hash_table.c:81-86 | once every slot has been visited, the rebuild holds exactly the old map |
| HashTable.Table.Sized | src/hash_table.c:24-31 | a new table of base size `base`: `next_prime(base)` slots, all empty, count 0, empty map |
| HashTable.Table.New | src/hash_table.c:32 | `ht_new`: a valid empty table of the initial base size |
| HashTable.Table.Valid | src/hash_table.c:24-31 | the table invariant: the slot count is the least prime at or above the base size, the slots keep the layout of `Probing.Stored` for the map, and `count` equals both the number of keys and the number of live items |
| HashTable.Jams | src/hash_table.c:82-85 | what a failed rebuild met: the tombstone-free slots of a valid table of at least the requested base size, holding part of the entries being reinserted, where the probe of one more of their keys stops nowhere, so the reinsertion at src/hash_table.c:84 never ends |
| HashTable.JamCause | src/hash_table.c:68-86 | a jam needs at least two keys, and either the jammed key's second hash is the slot count less one or there are more keys than slots in a table of the requested base size |
| HashTable.InitialSize | src/hash_table.c:32 | a new table has 53 slots |
| HashTable.Table.Search | src/hash_table.c:148-165 | changes nothing; returns the stored value of a present key and nothing for an absent key; reports `false` exactly when the probe never stops (the source's loop never ends), which never happens for a present key |
| HashTable.Table.Put | src/hash_table.c:123-144 | the probe for the key stops at its own entry or at the first empty slot (skipping tombstones and other keys); the entry is written exactly there; the map gains or updates the key; the count grows by one exactly when the key was new; the layout stays valid; when no attempt stops, nothing changes |
| HashTable.Table.Unlink | src/hash_table.c:177-192 | the key's own entry, and no other slot, becomes a tombstone exactly when the key was present; the map loses the key; the occupied slots are the count less one for a removal; reports whether the probe met an empty slot, before and after the change alike |
| HashTable.Sweep | src/hash_table.c:178-192 | the loop of `ht_delete` on the slot array: the key's entry, if a search would find it, becomes a tombstone and no other slot changes; it reports whether the probe met an empty slot, where the source's loop ends |
| HashTable.Table.Remove | src/hash_table.c:177-193 | the key's entry becomes a tombstone and nothing else changes; the map loses the key; the count drops by one only when the key was present; the table stays valid; reports whether the probe met an empty slot |
| HashTable.Table.Insert | src/hash_table.c:116-145 | grows first when the load is above 70; on success the map gains or updates the key and every other key keeps its value; on failure the map is unchanged; without growth, success means the probe stopped, and the entry lands where it stopped; every failure comes with a jam for the old keys and the new one: at double the base size after a load above 70 (a degenerate step when the grow itself failed), and at the current base size when the slots held no tombstone; growth after a failed probe leaves the key unfindable; a tombstone-free table stays so |
| HashTable.Table.Delete | src/hash_table.c:171-194 | shrinks first when the load is below 10 and half the base size is not below the initial one: on success after that shrink the slot array is fresh and the base size at least half; success means the map lost the key and the probe met an empty slot; failure means a needed shrink could not finish (map unchanged, with a jam at half the base size) or the probe meets no empty slot, so the source's loop never ends (map already without the key); without a rebuild, success is exactly meeting an empty slot and only the key's entry became a tombstone; the count always equals the number of entries |
| HashTable.Table.DeleteAsWritten | src/hash_table.c:171-194 | the source's unconditional decrement: once the loop ends, the map has lost the key, but the count becomes the old number of entries less one even when the key was absent; without a rebuild the loop ends exactly when the probe meets an empty slot; a failed shrink comes with a jam at half the base size; after a successful shrink the slot array is fresh and the base size at least half |
| HashTable.Table.Resize | src/hash_table.c:76-101 | below the initial base size nothing changes; otherwise the map is unchanged, the table is valid with a fresh slot array of at least the requested base size and no tombstone; on failure the table is unchanged and a jam witnesses a reinsertion that never ends, whose key has a degenerate step or whose entries outnumber the slots of the requested base size; a table of fewer than two entries always resizes |
| HashTable.Table.Rebuild | src/hash_table.c:80-86 | a fresh valid table of at least the requested base size into which every live slot has been reinserted; on success it represents exactly the old map; its slots hold no tombstone; on failure it returns a jam for the old map's keys at the requested base size |
| HashTable.Table.Transfer | src/hash_table.c:82-85 | reinserting the entry of slot `i` into the scratch table extends what it holds by exactly that entry and keeps it free of tombstones; on failure it returns a jam at the scratch table's base size |
| HashTable.Table.Adopt | src/hash_table.c:88-98 | the table takes over the scratch table's base size, count, size and slot array, and is valid |
| HashTable.Table.ResizeUp | src/hash_table.c:104-107 | the map is unchanged; on success the base size at least doubles and the new slots hold no tombstone; on failure the table is unchanged and the jammed key's second hash is the slot count less one |
| HashTable.Table.ResizeDown | src/hash_table.c:110-113 | the map is unchanged; a half below the initial base size changes nothing; otherwise the base size becomes at least half; on failure a jam at half the base size |
| HashTable.ShrinkFloor | src/hash_table.c:77-79 | however many shrinks happen, a table never has fewer slots than a new one |
| Findings.SizeAsWritten | src/hash_table.c:27 | the slot count as written: the least prime at or above whatever the unset `size` field held, whatever the base size |
| Findings.UninitialisedSizeAsWritten | src/hash_table.c:24-31 | with 0 in the unset field, a new table gets 2 slots where its base size asks for 53 |
| Findings.DeleteAbsentAsWritten | src/hash_table.c:193 | deleting an absent key from a new table, as written, leaves count -1 while no slot is occupied |
| Findings.DeleteAbsent | src/hash_table.c:171-194 | the corrected delete on the same input keeps the table valid with count 0 |
| Demo.LandsAt | src/hash_table.c:125-126 | when the key's first probe meets an empty slot, the probe stops there |
| Demo.InsertAt | main.c:10-12 | an insertion whose first probe meets an empty slot succeeds and writes exactly that slot |
| Demo.Populate | main.c:10-12 | the three insertions of main.c succeed and store "foo", "name" and "number" with their values |
| Demo.Update | main.c:19 | updating a present key at low load succeeds, keeps the count and uses up no empty slot |
| Demo.DeleteAtInitialBase | main.c:26 | a deletion from a table at the initial base size is never held up by a shrink: the map loses the key, no empty slot is used up, and it finishes exactly when the key's probe meets an empty slot |
| Demo.MainProbesStop | main.c:23-27 | while slots 14 and 34 are empty, the probe for "not" stops and the probe for "foo" stops and meets an empty slot |
| Demo.MainScenario | main.c:7-27 | the searches of main.c return "bar", "ruofeng", "barr", nothing for "not", and nothing for "foo" after its deletion; every search and the deletion finish |
| Demo.CyclingKeys | src/hash_table.c:68-73 | in 53 buckets, both hashes of "4" and of "i" are 52, so every attempt of either key probes slot 52 |
| Demo.CycleNeverStops | src/hash_table.c:129-141 | once slot 52 holds "4", the probe for "i" stops nowhere |
| Demo.CyclingProbe | src/hash_table.c:125-165 | in a new table, inserting "4" succeeds; then searching for and inserting "i" both report that the probe never stops (the source's loops never end), leaving only "4" |
| Demo.CycleMeetsNoEmpty | src/hash_table.c:181 | once slot 52 holds "4", the probe for "4" meets no empty slot |
| Demo.CyclingDelete | src/hash_table.c:171-194 | in a new table holding only "4", deleting it turns slot 52 of the 53 into a tombstone, empties the map and reports failure, because the source's delete loop never ends |

## Left out

- Memory management is not modelled: `ht_new_item`, `ht_del_item` and `ht_del_hash_table` (allocation, `strdup`, `free`). Keys and values are string values, and a table is dropped rather than freed. This also leaves out that `ht_del_hash_table` after a resize frees the shared static tombstone sentinel that the old array may hold.
- Floating point in `ht_hash` (src/hash_table.c:61-62) is replaced by exact integer powers. `pow(199, 7)` is about 1.24e16, which is above 2^53, so a double may round it. The second hash of a key of 8 or more characters, and the first hash from 9 characters on, may differ from the exact value modelled here. The product `(long)pow(a, e) * s[i]` also overflows a 64-bit `long` from 9 characters on. Neither is modelled.
- Character codes: a Dafny `char` is one code point, read as a non-negative digit. A C key contributes one digit per byte of its UTF-8 encoding, and its `s[i]` is a `char`, which may be signed for bytes above 127. Keys outside ASCII therefore hash differently here.
- `prime.h` is not part of this model. `next_prime` is modelled by its contract, the least prime at or above `n`, computed by a search.
- `HT_INITIAL_BASE_SIZE` is defined outside the files modelled here; its value is taken as 50.
- Unbounded probe loops: each loop is bounded by `size` attempts. Where the source's loop never ends, `Search`, `Insert`, `Delete` and a rebuild return `false`, with the witness described above; the state they then leave is one the source never reaches.
- Fixed-width integers: `int` arithmetic in the source is modelled as unbounded. `attempt * (hash_b + 1)` in `ht_get_hash` (src/hash_table.c:72) overflows a 32-bit `int` once the slot count exceeds 46340. `count * 100` in the load (src/hash_table.c:118, :173) overflows above 21,474,836 entries. Neither is modelled.
- NUL-terminated keys: the source's keys end at their first NUL character (`strlen` at src/hash_table.c:59, `strcmp` at :132, :156 and :183). Keys here are arbitrary character sequences, and one containing '\0' is compared in full.
- A tombstone is never reused for a new entry, because the source does not reuse one either.
- HashTable.Table.Resize: states a base size of at least the requested one, not exactly it. A nested grow of the scratch table during the rebuild cannot be ruled out without a bound on the next prime (Bertrand's postulate).
- HashTable.Table.ResizeUp: states a base size of at least double, not exactly double, for the same reason.
- HashTable.Table.ResizeDown: states a base size of at least half, not exactly half, for the same reason. Its failure is not narrowed to a degenerate step as a grow's is. Ruling out more entries than slots at half the base size under a load below 10 needs the same bound.
- HashTable.Table.Delete: after a shrink, states a base size of at least half, not exactly half, for the same reason as `ResizeDown`; so does `DeleteAsWritten`.
- HashTable.Table.Insert: when the grow succeeds and the probe into the grown table then stops nowhere, the jam is stated but its step is not shown to be degenerate, for the same reason.
- The `printf` output of main.c and its final `ht_del_hash_table` are not modelled. The scenario's search results are proved instead.

## Findings

| source | as written | input that shows it | evidently intended | confidence | as-written member | corrected member |
|---|---|---|---|---|---|---|
| src/hash_table.c:27 | `ht_new_sized` computes the slot count as `next_prime(ht->size)`, reading a field that `malloc` left unset | a fresh allocation holding 0 there: the new table gets 2 slots, where base size 50 asks for 53 | `next_prime(base_size)` | high; not executed | Findings.UninitialisedSizeAsWritten | HashTable.Table.Sized |
| src/hash_table.c:193 | `ht_delete` decrements `count` whether or not it removed an entry | deleting "absent" from a new table: `count` becomes -1 while no slot is occupied | decrement only when an entry was tombstoned | high; not executed | Findings.DeleteAbsentAsWritten | HashTable.Table.Delete |

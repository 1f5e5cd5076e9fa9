# Pokémon record store — a Dafny model

The service keeps its Pokémon stat sheets in one process-wide dictionary,
`pokemonsLists`, built at start-up from a list read from a JSON file
(`list_pokemons`). Six HTTP handlers count, list, get, create, replace and
delete records in that dictionary. A seventh handler collects the distinct
type labels and returns them sorted. This project models that store and
those handlers and proves what each one does.

- `records.dfy` (module `Records`): the record (`Pokemon`, with the eleven
  fields of the dataclass, `evolutionId` optional) and the handlers' outcomes
  (`Ok(record)`, `NotFound`, `Conflict(id)`).
- `store.dfy` (module `Store`): class `PokemonStore`. Its field `pokemons`
  is the live dictionary. Its field `order` holds the dictionary's keys in
  Python's iteration order, which is insertion order. Its `const loaded`
  is the start-up list, which no handler writes. `Valid()` says that `order`
  lists each key of `pokemons` exactly once. `Listed()` is what listing
  all records yields. Create, replace and delete are methods that change
  the fields in place. Count and get are functions that read them. List-all
  and the distinct-types handler are methods with the source's loops.
- `collation.dfy` (module `Collation`): Python's string order (code point by
  code point, a proper prefix first) and its order laws. Also an in-place
  insertion sort on an array of labels, standing for `list.sort()`, and the
  fact that a strictly ascending list is determined by its elements.
- `sequences.dfy` (module `Sequences`): no-duplicates, element sets,
  `IndexOf`, and removing an element from a sequence.
- `scenarios.dfy` (module `Scenarios`): clients that rely only on the
  contracts. One walks through seeding with Bulbasaur. One shows the
  key-versus-id divergence. One shows the sorted labels surviving any writes.

Two quirks of the code are kept on purpose:

- **Keys and ids diverge.** The initial keys are the 1-based positions in
  the loaded list, not the entries' `id` fields. Create keys a record by
  its own `id`, which may be any integer. Replace stores the body under the
  path id without comparing it to the body's `id`.
- **Distinct types reads the start-up list.** `get_all_types` iterates
  `list_pokemons`, the list loaded at start-up (main.py:96), not the live
  `pokemonsLists`. So creates, replaces and deletes never change its answer.

## Model

| member | source | states |
|---|---|---|
| `Store.InitialOrder` | main.py:11 | the comprehension inserts keys 1, 2, …, n in that order: the result has length n and position i holds i + 1 |
| `Store.InitialEntries` | main.py:11 | the start-up dictionary has exactly the keys 1..n, and key i + 1 holds the i-th loaded entry, whatever that entry's own id is |
| `Store.PokemonStore.constructor` | main.py:8-11 | start-up builds a valid store whose map and key order are the ones above, keeps the loaded list, and counts as many records as were loaded |
| `Store.PokemonStore.Count` | main.py:48-50 | the count is the number of keys, and it equals the length of the list-all answer |
| `Store.Listing` | main.py:53-58 | listing a key order yields one record per key, in that order: position i holds the record stored under the i-th key |
| `Store.PokemonStore.ListAll` | main.py:53-58 | the loop returns as many records as the count, position i holding the record under the i-th key in iteration order |
| `Store.PokemonStore.Get` | main.py:61-65 | answers `Ok` exactly when the key is stored, with the stored record, and `NotFound` otherwise; it changes nothing |
| `Store.PokemonStore.GetIsListed` | main.py:53-65 | a key can be got exactly when it is in the iteration order, and the record got is the one listed at that key's place |
| `Store.PokemonStore.Create` | main.py:68-75 | a taken id gives `Conflict(id)` and changes nothing; otherwise the map gains exactly `id ↦ record`, the key goes last in the order, the count grows by one, the listing gains the record at its end, and a get on that id returns it |
| `Store.ListingAppend` | main.py:74 | inserting a new key at the end of the order appends its record to the listing and leaves the rest of the listing as it was |
| `Store.PokemonStore.Replace` | main.py:78-83 | an absent key gives `NotFound` and changes nothing; otherwise only that key's record changes, to the body, even when the body's id differs, and the key order, count and listing positions stay |
| `Store.ListingReplace` | main.py:82 | overwriting a listed key's record changes the listing at that key's position only |
| `Store.PokemonStore.Delete` | main.py:85-91 | an absent key gives `NotFound` and changes nothing; otherwise it answers with the record stored there, removes only that key from the map and from the order, the count drops by one, the listing loses exactly that record, and a later get on the key gives `NotFound` |
| `Store.RemoveKey` | main.py:90 | removing a key from the map and from its place in the order keeps the two in step, is the same as filtering the key out of the order, and removes exactly its record from the listing |
| `Store.ListingRemove` | main.py:90 | dropping one position of a duplicate-free key order drops the record at that position from the listing |
| `Sequences.WithoutAt` | main.py:90 | in a duplicate-free order, filtering a key out removes exactly its one position and keeps the others in order |
| `Sequences.DistinctCard` | main.py:50 | a duplicate-free key order has as many distinct keys as positions, which is why the count equals the listing's length |
| `Store.HasLabelExtend` | main.py:96-99 | scanning one more record adds exactly that record's labels to the labels seen so far |
| `Store.PokemonStore.AllTypes` | main.py:93-101 | the answer is strictly ascending, so sorted and without duplicates, and a label is in it exactly when some record of the start-up list carries it |
| `Collation.SortLabels` | main.py:100 | sorting in place leaves the labels in ascending order and is a permutation of what was there |
| `Collation.SinkLabel` | main.py:100 | one insertion step: with the prefix before position i sorted, the prefix through i is sorted afterwards, and the array is a permutation of what it was |
| `Collation.BelowIrreflexive` | main.py:100 | no label sorts before itself |
| `Collation.BelowAsymmetric` | main.py:100 | two labels never sort before each other both ways |
| `Collation.BelowTotal` | main.py:100 | of two different labels one sorts before the other |
| `Collation.NotAboveTransitive` | main.py:100 | "not after" is transitive, so sorted order is consistent |
| `Sequences.PermutationKeepsNoDup` | main.py:98-100 | sorting a list collected without duplicates leaves it without duplicates |
| `Collation.AscendingDistinct` | main.py:98-100 | a sorted list without duplicates is strictly ascending |
| `Collation.StrictlyAscendingUnique` | main.py:93-101 | two strictly ascending lists with the same labels are equal, so the answer depends only on the set of labels of the start-up list |
| `Scenarios.BulbasaurScenario` | main.py:48-101 | seeded with Bulbasaur: total 1, creating a second record with id 1 answers `Conflict(1)`, creating one with id 2 answers `Ok` with it, the labels are `["Grass", "Poison"]`, delete of key 1 answers Bulbasaur and key 1 is then not found |
| `Scenarios.KeyIdDivergence` | main.py:11-83 | a record loaded first with id 25 is found under key 1 and not under 25, and a replace under key 1 may store a record with id 7 |
| `Scenarios.TypesUnaffectedByWrites` | main.py:93-101 | the sorted labels are identical before and after a create, a replace and a delete |

## Left out

- Reading `pokemons.json` (main.py:8-9) is not modelled. The loaded list is the constructor's parameter. A missing or malformed file is a fatal start-up failure, not store behaviour.
- FastAPI routing, `HTTPException`, status codes and the `detail` texts (main.py:4, 33, 48-93) are not modelled. Outcomes are the `Outcome` datatype: 404 is `NotFound` and 409 is `Conflict(id)`. The count handler's `{"total": n}` wrapper is the number n.
- The `Path(ge=1)` validation of path ids (main.py:62, 79, 86) is a precondition `id >= 1` on get, replace and delete. The framework answers 422 before the handler runs otherwise. Create has no such bound, so a record created with an id below 1 is stored but cannot be got, replaced or deleted.
- Store.PokemonStore.Create: states that a get returns the created record only for ids of at least 1, because get cannot be called with a smaller id.
- The CORS middleware (main.py:35-44) is framework configuration and is not modelled.
- The `asdict` / `Pokemon(**dict)` conversions (main.py:57, 65, 74, 82, 89) and the framework's body validation are not modelled. The store holds the record datatype directly.
- Concurrent requests are not modelled. The model is sequential: each handler runs to completion.
- `list.sort()` is Python's Timsort. The model sorts by insertion. Both leave a list in ascending order as a permutation of the input. On a duplicate-free list, as here, that fixes the result uniquely.
- String comparison is by Unicode code point, as Python compares `str`. No locale collation applies.

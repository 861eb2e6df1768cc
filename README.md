# AsyncECS core in Dafny

This project models the sequential core of AsyncECS, a small entity/component
store written in C++. It covers the following pieces.

- **Bitflag** (`bitflag.dfy`): a growable set of flags packed into bytes. The
  class keeps the byte buffer (`seq<bv8>`), the size and the enabled-flag
  counter. A ghost flag sequence `Flags` describes the buffer; `Valid` ties the
  two together bit by bit. The model covers construction, copy, `at`, `set`,
  `resize`, the byte-wise `operator&`, `operator!` and stream output.
- **Component** (`component.dfy`): a component has a type tag (`kind`), a
  payload and a revision counter that starts at 0. `clone` copies all three.
- **Entity** (`entity.dfy`): an entity has an id, a signature bitflag and a
  tag-indexed vector of component slots. The model covers `has(tag)`,
  `has(bitflag)`, `get(bitflag)`, `get<Ts...>`, `insert`, `remove` and the
  revision-checked `update`.
- **View** (`view.dfy`): the read-only snapshot a query returns, with the
  column indexing of its types and both `select` lookups.
- **Registry** (`registry.dfy`): the map from entity ids to entities, the
  file-static id counter (an `IdCounter` object), and `createEntity`,
  `insert`, `update`, `remove`, `remove(id)` and the query `get<Ts...>`.
  Each registry method is specified against `Snapshot()`, the ghost map from
  ids to each entity's signature flags and slots. Queries are specified by
  the function `Queried` on that map.
- **Sizes** and **Bytes** (`sizes.dfy`, `bytes.dfy`) hold the `size_t`
  wrap-around and the bit facts about `bv8` that the bitflag proofs use.
- The unit-test scenarios of the repository are methods and lemmas whose
  contracts state what the tests observe (`registry_scenario.dfy` and the
  scenario sections of the other files).

A C++ type is identified with its tag: `StringComponent` is tag 1 and
`IntComponent` is tag 2, as in `main.cpp`. A query lists its types as a
sequence of tags.

The model follows the code as written:

- `operator&` is modelled byte by byte (`AndFlags`). The name `has`, which the
  tests use for it, suggests a test that the signature has every flag of the
  query; the code does not perform that test, and
  `Bitflags.AndIsNotSuperset` exhibits the difference.
- Two expectations of `tests/bitflagTests.cpp` do not hold for the code as
  written: line 48 and line 76. `Bitflags.AndWithinByte` and
  `Bitflags.AndTwoBytes` state the code's results at those lines.

## Model

| member | source | states |
|---|---|---|
| Sizes.Inc | entity.cpp:88 | `++` on a `size_t` revision adds one, and wraps from 2^64-1 to 0 |
| Sizes.Dec | bitflag.cpp:68 | `--` on the `size_t` counter subtracts one, and wraps from 0 to 2^64-1 |
| Sizes.IncDecWrap | bitflag.cpp:67-68 | applying ++ or -- to a wrapped counter equals wrapping the exact count after the step, so an exact count stands for the `size_t` one |
| Sizes.IncDecInverse | bitflag.cpp:67-68 | ++ and -- undo each other on every `size_t` value, including at the wrap |
| Bytes.SetBit | bitflag.cpp:67 | `byte \|= 1 << r` sets bit r and keeps the other bits |
| Bytes.ClearBit | bitflag.cpp:68 | `byte &= ~(1 << r)` clears bit r and keeps the other bits |
| Bytes.LowMaskStep | bitflag.cpp:127-131 | each pass of the mask loop adds the next bit to the low mask |
| Bytes.MaskedEqual | bitflag.cpp:132-134 | two bytes are equal under the low mask of k bits exactly when their low k bits agree |
| Bytes.AndNonZero | bitflag.cpp:115 | `x & y` is non-zero exactly when some bit is set in both bytes |
| Bitflags.ByteCount | bitflag.cpp:18-20 | the buffer has enough bytes for n flags and no spare byte |
| Bitflags.Cleared | bitflag.cpp:21 | the zeroed buffer holds n flags, all cleared |
| Bitflags.Resized | bitflag.cpp:74-87 | after resizing to n, the flags below the old size are kept and the rest are cleared |
| Bitflags.Render | bitflag.h:24-29 | the stream output has one '1' or '0' per flag, in position order |
| Bitflags.Store | bitflag.cpp:62-68 | the written byte has bit r equal to the value and every other bit unchanged |
| Bitflags.EncodesUpdate | bitflag.cpp:59-70 | storing the bit of position pos in its byte changes flag pos and no other flag |
| Bitflags.DecodeKeeps | bitflag.cpp:79 | a reallocation that keeps the leading bytes keeps the flags those bytes hold |
| Bitflags.FullByteVerdict | bitflag.cpp:109-118 | the byte test of `operator&` (both bytes zero, or some common bit) is `FullByteOk` on the flags |
| Bitflags.LastByteVerdict | bitflag.cpp:123-134 | the masked comparison of the last byte is the equality of the remaining flags (`LastByteMatches`) |
| Bitflags.Bitflag.constructor | bitflag.cpp:13-22 | a new bitflag of size n (1 by default, bitflag.h:13) has n cleared flags and a count of 0 |
| Bitflags.Bitflag.Copy | bitflag.cpp:24-34 | the copy has the size, count, bytes and flags of the original |
| Bitflags.Bitflag.At | bitflag.cpp:48-57 | `at(pos)` is flag pos, for pos below the size |
| Bitflags.Bitflag.Written | bitflag.h:24-29 | the output is the rendering of the flags |
| Bitflags.Bitflag.EnabledFlagsCount | bitflag.cpp:89 | while the counter is exact and the size fits a `size_t`, `enabled_flags_count()` is the number of set flags |
| Bitflags.Bitflag.Set | bitflag.cpp:59-70 | only flag pos changes, to value; the count goes up by one on set and down by one on clear, whatever the flag held before; the reported `size_t` count is the old one after `++` or `--`, wrapping at 0 and 2^64-1 |
| Bitflags.Bitflag.Resize | bitflag.cpp:74-87 | the flags are `Resized`; growing decrements the count once per new flag, shrinking leaves it; the reported `size_t` count drops by the growth modulo 2^64 |
| Bitflags.Bitflag.Reallocate | bitflag.cpp:76-81 | after the `realloc` the size is n, the flags both sizes share are kept and the count is untouched |
| Bitflags.Bitflag.ClearFrom | bitflag.cpp:82-85 | the loop of `resize` clears every flag from the old size on, keeps those below it, and decrements the count once per flag |
| Bitflags.Bitflag.And | bitflag.cpp:91-135 | the byte-wise loop returns `AndFlags` of the two flag sequences |
| Bitflags.Bitflag.Not | bitflag.cpp:137-144 | a fresh bitflag of the same size with every flag negated; its count gains one per flag set by the flip and loses one per flag cleared |
| Bitflags.Bitflag.FlipAll | bitflag.cpp:140-142 | the loop of `!` negates every flag of the copy and moves its count by one per flag flipped |
| Bitflags.Bitflag.Flip | bitflag.cpp:141 | `set(i, !at(i))` negates flag i alone and moves the count by one towards the new value |
| Bitflags.SetAndClear | tests/bitflagTests.cpp:5-17 | the output after each set and clear is the one the test expects |
| Bitflags.ResizedFromFour | tests/bitflagTests.cpp:19-25 | a four-flag bitflag with flag 3 set prints 0001, and 00010000000 once grown to eleven flags |
| Bitflags.SetAfterResize | tests/bitflagTests.cpp:19-31 | the output after growing to 11 flags, clearing and setting is the one the test expects |
| Bitflags.Reverse | tests/bitflagTests.cpp:33-40 | `!` of 000100 is 111011 |
| Bitflags.AndWithinByte | tests/bitflagTests.cpp:42-65 | the code's result for each single-byte query of the test; the empty query gives false, where line 48 expects true |
| Bitflags.AndTwoBytes | tests/bitflagTests.cpp:67-86 | the code's result for each two-byte query of the test; the query at line 76 gives false, where the test expects true |
| Bitflags.NegatedInvolutive | bitflag.cpp:137-144 | negating twice gives back the flags |
| Bitflags.NegatedOnes | bitflag.cpp:140-142 | negation turns k set flags among n into n-k |
| Bitflags.OppositeSetsCancel | bitflag.cpp:67-68 | a set followed by a clear, or a clear followed by a set, gives back every `size_t` count, including across the wrap |
| Bitflags.NotKeepsCountExact | bitflag.cpp:137-144 | when the count is exact before `!`, it is exact after it |
| Bitflags.AndWithinOneByte | bitflag.cpp:123-134 | for a query of at most 8 flags, `&` holds exactly when the query equals the matching prefix of the signature |
| Bitflags.AndReflexive | bitflag.cpp:91-135 | every non-empty bitflag matches itself |
| Bitflags.AndOnlyInspectsPrefix | bitflag.cpp:94 | `&` depends only on the first rhs.size flags of the left side |
| Bitflags.AndIsNotSuperset | bitflag.cpp:91-135 | `&` can reject a superset of the query and accept a non-superset |
| Components.Component.constructor | component.h:19 | a new component has revision 0 |
| Components.Component.ClonePrivateData | component.cpp:7-10 | the target gets this component's revision; nothing else changes |
| Components.Component.Clone | main.cpp:32-37 | a fresh component of the same type, payload and revision |
| Entities.Grown | entity.cpp:47-50 | the signature size after `insert(tag)` exceeds tag, never shrinks, and is unchanged when already above tag |
| Entities.Padded | entity.cpp:49 | the grown slot vector keeps the old slots and fills the new ones with null |
| Entities.Gathered | entity.h:35-46 | one slot per requested tag, in the order the tags are listed |
| Entities.Entity.constructor | entity.cpp:5-7 | a new entity has the given id, one cleared flag and no slots |
| Entities.Entity.HasTag | entity.cpp:9-17 | with the corrected guard: true exactly when the flag of t is set, and exactly when slot t holds a component |
| Entities.Entity.HasSignature | entity.cpp:19-23 | true exactly when the signature is at least as long as the query and `&` holds; false instead of the failed assertion |
| Entities.Entity.Get | entity.cpp:25-41 | the loop collects `Selected`: the slots of the tags set in both the query and the signature, in ascending order |
| Entities.Entity.Typed | entity.h:24-32 | one slot per listed tag, which is non-null exactly when the entity has that tag |
| Entities.Entity.Insert | entity.cpp:43-58 | accepted exactly when the tag is free; grows both vectors to tag+1 when needed; on success, slot tag is comp and the flag is set; on refusal nothing changes; afterwards the entity has the tag |
| Entities.Entity.Remove | entity.cpp:60-73 | accepted exactly when the entity had the tag; the slot is nulled and the flag cleared; the size is kept; afterwards the entity lacks the tag |
| Entities.Entity.Update | entity.cpp:75-90 | accepted exactly when the tag is held and comp's revision equals the stored one; comp then replaces the slot and its revision is incremented; otherwise nothing changes |
| Entities.HasTagAsWritten | entity.cpp:12-16 | the code's guard fails its assertion exactly when t equals the signature size, and otherwise answers like `HasTag` |
| Entities.HasSignatureAsWritten | entity.cpp:22 | the code fails the assertion of `&` exactly when the signature is shorter than the query, and otherwise answers `Admits` |
| Entities.InsertExitAsWritten | entity.cpp:52-58 | as written, `insert` runs off its end exactly when it accepts, and otherwise returns false |
| Entities.UpdateExitAsWritten | entity.cpp:78-90 | as written, `update` runs off its end exactly when it accepts, and otherwise returns false |
| Entities.NewEntityHasTagFails | entity.cpp:12-16 | `has(1)` on a new entity fails its assertion |
| Entities.NewEntityQueryFails | entity.cpp:22 | `has(bf)` of a new entity against the query of tag 1 fails its assertion, while the entity does not match |
| Entities.SelectedTagTwo | tests/entityTests.cpp:22-24 | the query of tag 2 alone selects slot 2 when the entity has tag 2, and nothing otherwise |
| Entities.TagTwoQuery | tests/entityTests.cpp:22-23 | the test's query bitflag has three flags, only flag 2 set |
| Entities.EntityWithComponent | tests/entityTests.cpp:18-20 | after the insert, the entity has tag 2 and holds comp there |
| Entities.InsertGetRemove | tests/entityTests.cpp:80-89 | tag 2 is absent, then present after the insert; `get` finds one component; the remove succeeds; the tag is absent again |
| Entities.TwoClones | tests/entityTests.cpp:53-66 | both clients' clones carry the stored component's revision, with numbers 10 and 20 |
| Entities.StaleUpdate | tests/entityTests.cpp:53-78 | of two clones taken at the same revision, the first update is accepted and the second refused; `get` then sees the first client's data |
| Entities.SelectedComponents | entity.cpp:33-39 | `get(bf)` returns no null, and returns exactly the stored components under tags set in both bitflags |
| Entities.SelectedCount | entity.cpp:33-39 | `get(bf)` returns one component per tag set in both bitflags, also for a query longer than the signature whose extra flags are clear |
| Registries.Inserted | entity.cpp:43-58 | the entity state after `insert` stays consistent and has the tag; it holds comp when the tag was free, and is unchanged otherwise |
| Registries.Removed | entity.cpp:60-73 | the entity state after `remove` stays consistent and lacks the tag; all other slots and both sizes are unchanged |
| Registries.Step | registry.h:48-53 | one `fillBitflag` step grows the query to `Grown(size, tag)` |
| Registries.FilledFlags | registry.h:47-62 | `fillBitflag` keeps the flags it found and sets exactly the listed tags; it grows only as far as the largest listed tag |
| Registries.QueryFlags | registry.h:25-26 | the query bitflag has at least one flag and covers every listed tag; its set flags are exactly the listed tags, and its last flag is listed unless it is the default one |
| Registries.FillBitflag | registry.h:47-62 | the method leaves the flags `Filled` from the flags it found |
| Registries.Ascending | registry.h:35 | the ids in the order `std::map` visits them: all the keys, strictly ascending |
| Registries.AdmittedMembers | registry.h:35-41 | the view lists exactly the ids whose entity the query admits |
| Registries.AdmittedAscending | registry.h:35-41 | the listed ids stay in ascending order |
| Registries.NewEntityAdmitsNothing | entity.cpp:19-23 | a new entity matches no query that sets a flag |
| Registries.AdmitsCovers | registry.h:38-40 | an entity the query admits has a slot for every requested tag, so `get<Ts...>` on it stays in range |
| Registries.CollectedLength | registry.h:64-79 | `collectData` contributes one resource per requested type per listed entity |
| Registries.CollectedCell | registry.h:64-79 | the resource at row r, column k is row r's entity's slot of the k-th requested type |
| Registries.QueriedShape | registry.h:24-44 | the view of `get<Ts...>` keeps the requested types, lists exactly the admitted ids in ascending order, and has one resource per type per entity |
| Registries.QueriedSelect | registry.h:24-44 | for a listed id and every type T, the `select<T>(id)` offset is in range; for a requested T it holds entity id's slot of T, and for any other T the slot of the first requested type (column 0) |
| Registries.IdCounter.constructor | registry.cpp:5 | the shared id counter starts at 0 |
| Registries.Registry.constructor | registry.h:82 | a new registry has no entities and draws ids from the shared counter |
| Registries.Registry.CreateEntity | registry.cpp:11-17 | returns the counter's value and increments the counter; adds a fresh entity under that id with the default signature; the other entries are unchanged |
| Registries.Registry.Emplace | registry.cpp:14-16 | stores the entity under its id and increments the counter; the snapshot gains that entity's state |
| Registries.Registry.Insert | registry.cpp:19-31 | false for an unknown id; otherwise the entity's `insert` verdict; that entity's state becomes `Inserted`, and the others are unchanged |
| Registries.Registry.Update | registry.cpp:33-45 | false for an unknown id; otherwise accepted exactly when the entity holds the tag at comp's revision; on success comp replaces the slot and its revision is incremented; otherwise nothing changes |
| Registries.Registry.Remove | registry.cpp:47-59 | false for an unknown id; otherwise true exactly when the entity held the tag; that entity's state becomes `Removed`, and the others are unchanged |
| Registries.Registry.RemoveEntity | registry.cpp:61-65 | erases the entity of id and keeps all others |
| Registries.Registry.Get | registry.h:24-44 | returns `Queried` of the snapshot and changes nothing |
| Registries.QueryBitflag | registry.h:25-26 | a fresh bitflag whose flags are the query of the listed tags |
| Registries.Assemble | registry.h:35-43 | walking the copied map in key order builds the view `Queried` |
| Views.IndexFromLast | view.h:75-88 | after indexing, a listed type's index is the position of its last occurrence; an unlisted type keeps its index |
| Views.Cast | view.h:47 | the cast is the component when it has the requested type, and null otherwise |
| Views.FirstIndex | view.h:33-40 | the search stops at the first row of the id |
| Views.View.RowsApart | view.h:18-46 | with `mNumOfComponentsPerEntity` types per row, every column lies inside the row, so a cell of an earlier row comes before every cell of a later one |
| Views.RowMajor | view.h:46 | row-major offsets `row * width + column` with the column below the width are ordered by row |
| Views.View.Column | view.h:69-96 | a listed type's column is its last position in the type list; an unlisted type's column is 0 (the static initialiser) |
| Views.View.Select | view.h:30-48 | null for an absent id; otherwise the cast resource at the first row of id, in column T |
| Views.View.SelectWhere | view.h:51-64 | the loop builds `Chosen`: the first matching row of each id wins |
| Views.ColumnOfListed | view.h:84-88 | with no repeated type, the i-th type gets column i |
| Views.ChosenKeys | view.h:54-61 | the map's keys are exactly the ids with a row whose component satisfies the predicate |
| Views.ChosenFirst | view.h:61 | each id maps to its first row's component that satisfies the predicate |
| Views.TwoRows | tests/viewTests.cpp:9-40 | in the two-row view, each lookup finds its entity's component of the requested type |
| RegistryScenarios.QueriesOfTags | tests/registrySyncOperationsTests.cpp:30-34 | the query of tag 1 is 01 and the query of tags 1 and 2 is 011 |
| RegistryScenarios.PairAdmitted | tests/registrySyncOperationsTests.cpp:30-38 | both entities are listed, 0 then 1, by both queries of the test |
| RegistryScenarios.NamesView | tests/registrySyncOperationsTests.cpp:30-32 | the one-type view lists 0 and 1 with their names |
| RegistryScenarios.BothView | tests/registrySyncOperationsTests.cpp:34-38 | the two-type view lists 0 and 1 with name and number each |
| RegistryScenarios.Furnish | tests/registrySyncOperationsTests.cpp:25-28 | the two inserts into a new entity leave it with tags 1 and 2 holding the name and the number |
| RegistryScenarios.Populated | tests/registrySyncOperationsTests.cpp:11-28 | the registry after the two creations and four inserts holds exactly the pair of entities |
| RegistryScenarios.Names | tests/registrySyncOperationsTests.cpp:30-32 | the one-type view yields both names |
| RegistryScenarios.Lookup | tests/registrySyncOperationsTests.cpp:34-38 | the two-type view yields both numbers and both names |
| RegistryScenarios.AcceptedUpdate | tests/registrySyncOperationsTests.cpp:45 | the first update is accepted; the registry then holds the update, at revision 1 |
| RegistryScenarios.RefusedUpdate | tests/registrySyncOperationsTests.cpp:46 | the faulty update at the stale revision is refused and changes nothing |
| RegistryScenarios.CloneUpdates | tests/registrySyncOperationsTests.cpp:40-46 | the renamed clone is accepted, the faulty one refused, and the registry holds the renamed clone |
| RegistryScenarios.SyncOperations | tests/registrySyncOperationsTests.cpp:9-54 | every expectation of the test: both names, then both numbers and names, then an accepted and a refused update, then the updated name |

## Left out

- Mutexes, threads and the lock handling are not modelled; every operation runs to completion alone. `registry::insert`, `update` and `remove(id, tag)` return false for an unknown id while still holding the registry mutex (registry.cpp:23-24). That only matters with concurrency, so the model omits it.
- The reactive system, notifications, subscriptions, `main.cpp`'s driver and the asynchronous registry tests are not part of this model.
- The tag registration (`Tag<T>()`, `ECS_COMPONENT`, `mNextAvailableTag`) is not modelled. A type is identified with its tag, and a component carries its type's tag as `kind`. The tests' `tag_t<T>()`, `str()`, `has()` and `view::get<T>(id)` are not declared by the headers, so the scenarios use `Tag<T>()`, `<<`, `&` and `select<T>(id)` instead.
- Entity ids, tags and bitflag sizes are unbounded naturals; the `size_t` and `unsigned int` widths only matter beyond 2^32 tags or 2^64 entities. Revisions wrap at 2^64 (`Sizes.Inc`).
- Bitflags.Bitflag.EnabledFlagsCount: the counter is kept as an exact integer and read as its residue modulo 2^64, which is how `++` and `--` on a `size_t` behave (`Sizes.IncDecWrap`). Growing a bitflag decrements it once per new flag, so it can go below zero; the count of set flags is promised only while the counter is exact.
- The padding bits of the last byte are left free: `Valid` constrains only the bits of flags below the size, as `realloc` leaves the rest undefined.
- Bitflags.Bitflag.And: requires a non-empty right-hand side. With size 0, `bytes - 1` wraps around and the loop reads past the buffer; that case is not modelled.
- Entities.Entity.Insert: components are non-null. The code also accepts a null `component_ptr`, which sets the flag over a null slot, so `Consistent` (a slot holds a component exactly when its flag is set) holds in the model only.
- Registries.Registry.Insert: components are non-null, for the same reason as `Entities.Entity.Insert`.
- Registries.Inserted: components are non-null, for the same reason as `Entities.Entity.Insert`.
- Entities.Entity.Insert: requires that slot tag exist when the signature is already above tag. A new entity has one flag but no slots, so the code's `mResources[0] = comp` writes out of range there; that case is not modelled.
- Registries.Registry.RemoveEntity: requires the id to be present, since `erase(find(id))` of an absent id is undefined. The code also falls off the end of this `bool` function; the model returns nothing.
- Entities.Entity.HasTag, Entities.Entity.HasSignature, Entities.Entity.Insert and Entities.Entity.Update model the corrected behaviour listed under Findings; the as-written members beside them state the code's own outcome.
- The entity copy constructor is declared (entity.h:14) but has no definition in the source, so it is not modelled.
- Registries.Ascending: the visit order of `std::map` is modelled as a ghost choice of the least remaining key; it is a specification function, not executable code.
- Views.View.Select: requires that the offset of the found row be in range, because `operator[]` is unchecked there; views built by `Registries.Registry.Get` satisfy this for every id they list and every type (`Registries.QueriedSelect`).

## Findings

| source | as written | input that shows it | evidently intended | confidence | as-written member | corrected member |
|---|---|---|---|---|---|---|
| entity.cpp:12 | the guard `size() < t` lets t equal to the size through to `at(t)`, whose assertion `pos < size()` fails | a new entity (one flag) asked `has(1)` | `size() <= t`, as `insert`, `remove` and `update` use: answer false | high, not executed | Entities.NewEntityHasTagFails | Entities.Entity.HasTag |
| entity.cpp:22 | `mBitflag & bf` asserts that the signature is at least as long as the query, and `registry::get` calls it for every entity | a registry holding a new entity, queried with `get<StringComponent>()` (query of two flags) | the entity does not match: answer false | high, not executed | Entities.NewEntityQueryFails | Entities.Entity.HasSignature |
| entity.cpp:52-58 | an accepted `insert` runs off the end of a `bool` function without a return | `insert(2, comp)` on a new entity | return true | high, not executed | Entities.InsertExitAsWritten | Entities.Entity.Insert |
| entity.cpp:78-90 | an accepted `update` runs off the end of a `bool` function without a return | an `update` with a clone at the stored revision | return true | high, not executed | Entities.UpdateExitAsWritten | Entities.Entity.Update |

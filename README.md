# 4becs (unsafe variant): component identifiers, entity masks and component maps

This project models the header-only entity-component scheme in
`4becs_old/src/4becs_unsafe.hpp`. It covers four parts, and proves what each one promises.

- **Identifier allocator.** `becs::CompRegistry::getbit` hands out one 64-bit word per component type. The low `IDX_BITS` bits hold an index and exactly one higher bit is set. The `COMP` macro caches the word in the type's static member `b`.
- **Entity storage.** `Ent` holds a mask of `MAX_IDX + 1` words, absent until the first install, and a map from identifiers to owned components.
- **Install.** `incl` releases the old mask and takes a zeroed one. `setmaskbit` ORs each listed type's bit-field into the word at its index. `setComps` stores a fresh component under each listed identifier.
- **Queries and teardown.** `has` ANDs one mask word with the type's bit-field. `get` reads the map when `has` holds. `FREECOMPS` releases every component in the map and then the mask.

Modules:

- `Ids` (`Ids.dfy`) holds the constants for `IDX_BITS = 2`, the packing of a cursor `(idx, bit)` into a word, and its decoding.
- `Registry` (`Registry.dfy`) holds the cursor as a sequence of `getbit` calls (`Step`, `Run`, `NthId`). It also holds the class `CompRegistry`, whose fields are the two statics and the per-type cache.
- `Mask` (`Mask.dfy`) describes on values the mask an install produces, the test `has` performs on it, and the map `setComps` leaves.
- `Entity` (`Entity.dfy`) holds the classes `Comp` and `Ent`, with an `array?<bv64>` mask and a `map` of components. It has the methods `SetMaskBit`, `SetComps`, `Ent.Incl` and `Ent.FreeComps`, and the read-only `Ent.Has` and `Ent.Get`.

Releasing memory is recorded in a ghost set `freed` of released objects.

## Model

| member | source | states |
|---|---|---|
| Ids.ConstantsAgree | 4becs_old/src/4becs_unsafe.hpp:47-50 | MAX_IDX is `(1 << IDX_BITS) - 1`, BF_BITS is `64 - IDX_BITS`, the mask has MAX_IDX + 1 words, and the capacity is `(MAX_IDX + 1) * BF_BITS` = 248 |
| Ids.Pack | 4becs_old/src/4becs_unsafe.hpp:74-75 | the word `getbit` returns for the cursor `(idx, bit)`; its fields are stated by `PackFields` |
| Ids.Slot | 4becs_old/src/4becs_unsafe.hpp:115 | the index field `C::b & MAX_IDX`, used as the mask index, is below MAX_IDX + 1 |
| Ids.High | 4becs_old/src/4becs_unsafe.hpp:141 | the bit-field `C::b & ~MAX_IDX` has no index bit set |
| Ids.PackFields | 4becs_old/src/4becs_unsafe.hpp:74-75 | the word `idx \| 1 << (IDX_BITS + bit)` has exactly one bit set above the index field, its index field is `idx`, and its bit-field is `1 << (IDX_BITS + bit)` |
| Ids.Unpack | 4becs_old/src/4becs_unsafe.hpp:52 | a word decodes to a cursor exactly when it has one bit above the index field, and the decoded cursor is one `getbit` can pack |
| Ids.UnpackPack | 4becs_old/src/4becs_unsafe.hpp:74-75 | decoding a packed cursor gives back `(idx, bit)` |
| Ids.PackUnpack | 4becs_old/src/4becs_unsafe.hpp:74-75 | every well-formed identifier is the packing of the cursor it decodes to |
| Ids.PackInjective | 4becs_old/src/4becs_unsafe.hpp:74-75 | two cursors pack to the same word exactly when they are equal |
| Ids.OverlapMeansEqual | 4becs_old/src/4becs_unsafe.hpp:115 | two well-formed identifiers with the same index have overlapping bit-fields exactly when they are the same identifier |
| Registry.Step | 4becs_old/src/4becs_unsafe.hpp:64-79 | a call fails exactly at the cursor `(MAX_IDX, BF_BITS)`, and then leaves the cursor unchanged; otherwise the cursor stays in range |
| Registry.RunIssued | 4becs_old/src/4becs_unsafe.hpp:65-76 | after `n <= 248` calls the cursor has handed out exactly `n` identifiers |
| Registry.RunStuck | 4becs_old/src/4becs_unsafe.hpp:69-73 | after 248 or more calls the cursor stands at `(MAX_IDX, BF_BITS)` |
| Registry.Capacity | 4becs_old/src/4becs_unsafe.hpp:69-73 | `NthId(n)`, the result of the (n+1)-th call, is a word exactly when `n < 248`; the 249th call, `NthId(248)`, trips the assertion |
| Registry.PackedIssued | 4becs_old/src/4becs_unsafe.hpp:65-76 | the cursor packed by `NthId(n)` is the one that has handed out `n` identifiers |
| Registry.NthIdLexicographic | 4becs_old/src/4becs_unsafe.hpp:65-76 | for `n < 248`, `NthId(n)` packs index `n / 62` and bit `n % 62`: the cursor runs through the bits of index 0, then those of index 1, and so on |
| Registry.RunAt | 4becs_old/src/4becs_unsafe.hpp:65-76 | every reachable cursor is the one reached after exactly as many calls as it has handed out identifiers |
| Registry.NthIdInjective | 4becs_old/src/4becs_unsafe.hpp:57 | two successful calls return the same word exactly when they are the same call |
| Registry.NthIdWellFormed | 4becs_old/src/4becs_unsafe.hpp:74-75 | every successful call returns a well-formed identifier that decodes to a cursor |
| Registry.FirstCall | 4becs_old/src/4becs_unsafe.hpp:65-76 | `NthId(0)`, the first call, returns `4` (index 0, bit 0) |
| Registry.FirstWordFull | 4becs_old/src/4becs_unsafe.hpp:65-76 | `NthId(61)`, the 62nd call, returns `1 << 63`, the last bit of index 0 |
| Registry.SecondWordOpens | 4becs_old/src/4becs_unsafe.hpp:69-75 | `NthId(62)`, the 63rd call, returns `5`, which decodes to index 1, bit 0 |
| Registry.SecondWordFills | 4becs_old/src/4becs_unsafe.hpp:65-76 | `NthId(69)`, the 70th call, returns `1 \| 1 << 9` (index 1, bit 7) |
| Registry.LastCall | 4becs_old/src/4becs_unsafe.hpp:65-76 | `NthId(247)`, the 248th call, returns `3 \| 1 << 63`, the last bit of index MAX_IDX |
| Registry.UncheckedStep | 4becs_old/src/4becs_unsafe.hpp:68-76 | `getbit` with the assertion compiled out: after the rollover the bit advances by one, and nothing stops the index passing MAX_IDX |
| Registry.UncheckedAgrees | 4becs_old/src/4becs_unsafe.hpp:68-76 | wherever the checked call hands out a word, the unchecked call hands out the same word and leaves the same cursor |
| Registry.UncheckedCollision | 4becs_old/src/4becs_unsafe.hpp:68-76 | the first 248 calls leave the cursor at `(MAX_IDX, BF_BITS)`; from there the unchecked 249th call returns `4`, the same word as `NthId(0)` |
| Registry.MemoisedExtend | 4becs_old/src/4becs_unsafe.hpp:85 | caching the next call's word for a new type keeps the cache equal to "type number k holds the word of call k" |
| Registry.CacheStep | 4becs_old/src/4becs_unsafe.hpp:85 | the first request of a type gets call `\|order\|`'s result; on success the cursor has made one more call and the cache stays consistent with the type cached, on failure the cursor has not moved |
| Registry.MemoisedIdsUnique | 4becs_old/src/4becs_unsafe.hpp:85 | two cached types hold the same word exactly when they are the same type |
| Registry.MemoisedIdsWellFormed | 4becs_old/src/4becs_unsafe.hpp:85 | every cached word is a well-formed identifier |
| Registry.CompRegistry.constructor | 4becs_old/src/4becs_unsafe.hpp:65-66 | the cursor starts at `(0, 0)` with nothing cached |
| Registry.CompRegistry.GetBit | 4becs_old/src/4becs_unsafe.hpp:64-79 | the returned word and the new cursor are those of one `Step` from the old cursor |
| Registry.CompRegistry.IdFor | 4becs_old/src/4becs_unsafe.hpp:85 | a type that asked before gets its cached word and nothing changes; a new type gets the word of the next call, and that word is cached for it |
| Registry.CompRegistry.FirstRequest | 4becs_old/src/4becs_unsafe.hpp:85 | the first request of a type makes one call and caches its word on success |
| Mask.ZeroMask | 4becs_old/src/4becs_unsafe.hpp:132 | the fresh mask has MAX_IDX + 1 words, all zero |
| Mask.OrBits | 4becs_old/src/4becs_unsafe.hpp:141 | `setmaskbit` over a list, on values: the mask keeps MAX_IDX + 1 words; its words are stated by `MaskOfWord` |
| Mask.MaskOf | 4becs_old/src/4becs_unsafe.hpp:131-133 | the mask a fresh install leaves has MAX_IDX + 1 words; its membership is stated by `MaskOfMembership` |
| Mask.SetBitAt | 4becs_old/src/4becs_unsafe.hpp:141 | one `setmaskbit` step ORs the bit-field into the word at the id's index and changes no other word |
| Mask.MaskOfWord | 4becs_old/src/4becs_unsafe.hpp:140-142 | word `s` of the installed mask is the OR of the bit-fields of the listed ids whose index is `s` |
| Mask.IndexBitsClear | 4becs_old/src/4becs_unsafe.hpp:141 | the index bits of every installed mask word are zero |
| Mask.UnusedSlotZero | 4becs_old/src/4becs_unsafe.hpp:131-133 | a word whose index no listed type uses is zero; with no types listed the whole mask is zero |
| Mask.ListedIsSet | 4becs_old/src/4becs_unsafe.hpp:115 | every listed id with a non-empty bit-field passes the `has` test, whatever else is listed |
| Mask.MaskOfMembership | 4becs_old/src/4becs_unsafe.hpp:113-116 | for well-formed identifiers, the `has` test on the installed mask succeeds exactly for the listed ids |
| Mask.Overwrite | 4becs_old/src/4becs_unsafe.hpp:147 | `setComps` over a list, on values: every old key is still present |
| Mask.OverwriteKeys | 4becs_old/src/4becs_unsafe.hpp:146-148 | after `setComps` the keys are the old keys plus the listed ids; nothing is removed |
| Mask.OverwriteKeeps | 4becs_old/src/4becs_unsafe.hpp:146-148 | an unlisted key keeps its old component |
| Mask.OverwriteLastWins | 4becs_old/src/4becs_unsafe.hpp:147 | a listed id ends with the component made at its last listing |
| Entity.SetMaskBit | 4becs_old/src/4becs_unsafe.hpp:139-142 | the array ends as the old words with each listed bit-field ORed in, in list order |
| Entity.SetComps | 4becs_old/src/4becs_unsafe.hpp:145-148 | the map ends as the old map with a fresh, distinct component written under each listed id in list order |
| Entity.Ent.constructor | 4becs_old/src/4becs_unsafe.hpp:103-105 | a new entity has no mask and an empty map |
| Entity.Ent.Has | 4becs_old/src/4becs_unsafe.hpp:113-116 | `has` is false when the entity has no mask; it may only read a mask that has not been released; its exact answer is stated by `HasInstalled` |
| Entity.Ent.Get | 4becs_old/src/4becs_unsafe.hpp:121-126 | `get` returns a component only when `has` holds, and then it is the map's entry for the id |
| Entity.Ent.HasInstalled | 4becs_old/src/4becs_unsafe.hpp:113-116 | `has` is false with no mask; for well-formed ids it holds exactly for the ids of the latest install |
| Entity.Ent.HasExactlyInstalled | 4becs_old/src/4becs_unsafe.hpp:113-116 | for every well-formed id at once: `has` holds exactly for the ids of the latest install |
| Entity.Ent.GetInstalled | 4becs_old/src/4becs_unsafe.hpp:121-126 | `get` returns the stored component for the latest install's ids and null for every other id |
| Entity.Ent.Incl | 4becs_old/src/4becs_unsafe.hpp:130-134 | the old mask is released; the new mask is fresh and equals the install of the listed ids; the map is merged with fresh, pairwise distinct components; afterwards `has` holds exactly for the listed types, including none installed only earlier |
| Entity.Ent.FreeComps | 4becs_old/src/4becs_unsafe.hpp:97-99 | every component in the map is released, whatever its mask bit, and then the mask; the map and the mask field are left as they were, so an entity that had a mask can no longer be queried |

## Left out

- `IDX_BITS` is fixed at 2 (capacity 248), as in the header. Other widths are not modelled, and neither are the capacity comments on line 46 for widths 3 to 5.
- The `calloc` failure path and its `std::cerr` message: allocation always succeeds in the model.
- The `static_cast<C*>` in `get` and the component payloads: components are opaque handles of class `Comp`.
- The virtual destructors of `Comp` and `Ent`: `Ent.FreeComps` is the teardown the `Ent` destructor runs, and releasing an object means adding it to `freed`.
- The static-initialisation order and the `inline static const` mechanics of `COMP`: a type asks `IdFor` once per name and gets the cached word afterwards.
- Component types are identified by name (`TypeName`). The map key is the type's word wrapped as `CompId`.
- Registry.CompRegistry.GetBit: the source increments `idx` before the assertion aborts the process. The model returns `Err(CapacityExceeded)` and leaves the cursor at `(MAX_IDX, BF_BITS)`, because nothing runs after the abort.
- Entity.Ent.Get: `operator[]` would insert a null entry for a missing key. The model never inserts, and `GetInstalled` proves that `has` only holds for keys already present.
- Entity.Ent.FreeComps: the map is not cleared and the mask pointer is not reset, because the code does neither. So after teardown the entity does not return to a "no components" state: `has` would read the released mask (undefined behaviour in C++), and `get` would then read released components. Nothing after teardown answers "no components". The model makes `Has` and `Get` require `Usable()`, meaning any mask is not yet released, and `FreeComps` proves that an entity with a mask is no longer `Usable()`.
- Entity.Ent.Incl: a component overwritten in the map by a later install is neither released nor tracked. Leak and double-free reasoning beyond the `freed` set is not modelled.

## Findings

| source | as written | input that shows it | evidently intended | confidence | as-written member | corrected member |
|---|---|---|---|---|---|---|
| 4becs_old/src/4becs_unsafe.hpp:68-76 | the `assert` on line 72 is the only guard against running past MAX_IDX; with NDEBUG the rollover goes ahead and ORs index 4 into the word | the 249th `getbit` call with NDEBUG defined: `idx` becomes 4 and the word is `4 \| 1 << 2 == 4`, the same word as the first call | the capacity check fails every time and never hands out a word already in use | medium; not executed | Registry.UncheckedCollision | Registry.NthIdInjective |

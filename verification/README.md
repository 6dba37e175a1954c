# A verified model of a trace-driven cache simulator

This project models the core of a trace-driven cache simulator written in C.
The simulator keeps one set-associative cache, or a split pair of
instruction and data caches. It replays memory accesses (data load, data
store, instruction fetch) against them and keeps two blocks of counters,
one per stream: accesses, misses, replacements, words fetched on demand
and words copied back. Replacement is LRU. Writes are either write-back or
write-through, with write-allocate or no-write-allocate.

The model has one module per part of the simulator:

- `Address` (address.dfy) splits an unsigned 32-bit byte address into
  tag, set index and block offset. The C code's masks and shifts are
  stated by their arithmetic meaning, so `x >> n` becomes `x / 2^n` and
  `x & ((1 << n) - 1)` becomes `x % 2^n`.
- `LineStore` (lines.dfy) holds one set as a sequence of lines, most
  recently used first. A line is a tag and a dirty bit. The list
  operations are lookup, insert at the head, delete, promote to the head
  and evict the tail.
- `LinkedSet` (links.dfy) is the pointer-level list. Nodes sit in a heap
  map and carry `prev`/`next` links. `insert`, `delete` and the lookup
  loop are modelled at this level. The lemmas show that they are exactly
  the `LineStore` sequence operations.
- `Statistics` (stats.dfy) holds the counters of one stream.
- `AccessHandlers` (handlers.dfy) models `data_load`, `data_store` and
  `instruction_load`, each acting on one set and one block of counters.
  `instruction_load` differs from `data_load` only in the counters it
  updates, so one `Load` function models both. The dispatcher passes in
  the right block.
- `Configuration` (config.dfy) models `set_cache_param` as an update to
  an immutable configuration record. It also models C's truncating
  integer division.
- `CacheModel` (cache.dfy) models `perform_init`, `init_cache`,
  `perform_access` and its dispatch, and the traces of accesses built from
  it. It also models `perform_flush` and `flush`, as loops over the sets.
- `Recency` (recency.dfy) is an independent reference for LRU. It defines
  the most-recently-used order of a stream of tags directly. It proves
  that the handlers' promote and evict steps leave a set holding exactly
  the `assoc` most recent distinct tags. A load misses exactly when its
  tag is not among them.
- `Scenarios` (scenarios.dfy) works out small concrete cases.

Printing, memory management and the build-time constants are left out or
become parameters (see below). Every counter, tag and size is an
unbounded integer.

Some behaviours of the code are easy to misread. The model keeps each one
as the code has it:

- **Offset width is in bytes.** The offset width is log2 of the block
  size in *bytes*, while the set count is computed from the block size
  in *words* (code/cache.c:88-90). Take a 64-byte direct-mapped cache
  with 16-byte blocks. Byte address 16 then falls in set 1, not set 0
  (`Scenarios.FieldsOf16`). So loading 0, then 16, then 0 gives two
  misses and one hit, with no replacement.
- **No-write-allocate stores cost one word.** Under write-back with
  no-write-allocate, a store miss still copies one word back
  (code/cache.c:211, 262). So write-back traffic is not only evictions
  and the final flush.
- **Instruction fetches pay their own evictions.** When an instruction
  fetch evicts a dirty line, the block written back is charged to the
  *instruction* counters (code/cache.c:315-317). A dirty line can only
  be there in a unified cache.
- **Write-through allocating misses pay twice.** Under write-through with
  write-allocate, a store miss pays a whole-block demand fetch *and* one
  copied-back word (code/cache.c:240-247).
- **Flush charges the data counters.** `flush` adds the write-backs of
  both caches of a split organisation to the *data* counters
  (code/cache.c:385).

## Model

| member | source | states |
|---|---|---|
| Address.SetIndex | code/cache.c:89-92 | The set index is the block number `addr / 2^offsetBits` taken modulo `2^setBits`, so it is always below the number of sets. |
| Address.Tag | code/cache.c:328-341 | The tag is the address with its low `setBits + offsetBits` bits dropped, i.e. `addr / 2^(setBits + offsetBits)`. |
| Address.TagOfBlock | code/cache.c:336-339 | The tag is the block number divided by the number of sets; together with `SetIndex` this makes tag and index the quotient and remainder of the block number. |
| Address.Recompose | code/cache.c:336-339 | Tag, set index and block offset, each shifted back into place and added, give back the original address. |
| Address.SameBlockIff | code/cache.c:353-354 | Two addresses get the same set index and the same tag if and only if they lie in the same block. |
| Address.TagBound | code/cache.c:338-339 | With `setBits + offsetBits < 32`, the tag of a 32-bit address fits in the remaining `32 - setBits - offsetBits` bits. |
| Address.Log2OfPow2 | code/cache.c:89-90 | For a power of two, the base-2 logarithm is exact: `2^Log2(n) == n`. |
| LineStore.Find | code/cache.c:152-159 | The lookup finds the first line, from the head, whose tag matches; it finds nothing exactly when the tag is not resident. |
| LineStore.Insert | code/cache.c:428-441 | Inserting puts the line at the head in front of all old lines, which keep their order. |
| LineStore.Delete | code/cache.c:406-423 | Deleting position i removes that line; the lines before it keep their positions and those after it move up by one. |
| LineStore.MoveToFront | code/cache.c:160-163 | A hit's delete-then-insert puts the hit line at the head; the lines in front of it move back one place, the lines behind it stay put, and the set keeps the same lines (as a multiset). |
| LineStore.DropTail | code/cache.c:179 | Evicting drops exactly the tail line and keeps every other line in place. |
| LineStore.SetHeadDirty | code/cache.c:230-234 | Only the head's dirty bit changes; its tag and every other line stay. |
| LineStore.MoveToFrontValid | code/cache.c:160-163 | Promotion keeps the set within the associativity and free of duplicate tags, and leaves the same tags resident. |
| LineStore.InsertValid | code/cache.c:170-173 | Inserting a non-resident tag into a set with room keeps the set valid. |
| LineStore.DropTailValid | code/cache.c:174-181 | Evicting the tail keeps the set valid and makes no tag resident that was not resident before. |
| LineStore.SetHeadDirtyValid | code/cache.c:230-234 | Changing the head's dirty bit keeps the set valid. |
| LinkedSet.InsertPrepends | code/cache.c:428-441 | `insert` of an unlinked node gives a well-formed list whose node sequence is the old one with the node in front, and whose lines are `LineStore.Insert` of the old lines. |
| LinkedSet.InsertNode | code/cache.c:428-441 | `insert` makes the item the head and, in an empty list, the tail too; the item points forward to the old head, which points back to the item; no other node changes. |
| LinkedSet.DeleteNode | code/cache.c:406-423 | `delete` moves the head past the item when it has no predecessor and the tail when it has no successor; every node other than its two neighbours is unchanged. |
| LinkedSet.DeleteEffect | code/cache.c:406-423 | `delete` relinks the item's predecessor to its successor and back, or moves the head or tail pointer past the item; no other node changes. |
| LinkedSet.DeleteRemoves | code/cache.c:406-423 | `delete` of the node at position i of a well-formed list gives a well-formed list of the remaining nodes in their old order. |
| LinkedSet.DeleteKeepsLines | code/cache.c:406-423 | The lines of the list after `delete` are `LineStore.Delete` of its old lines. |
| LinkedSet.Allocate | code/cache.c:167-169 | A fresh node holding the new line is added to the heap. |
| LinkedSet.AllocateKeeps | code/cache.c:167-169 | Allocating a fresh node leaves the list and its lines unchanged. |
| LinkedSet.PromoteIsMoveToFront | code/cache.c:160-163 | On the pointer list, `delete` then `insert` of the matching node yields a well-formed list whose lines are `LineStore.MoveToFront` of the old lines. |
| LinkedSet.EvictIsDropTail | code/cache.c:174-181 | On a full set, `delete` of the tail then `insert` of a fresh node yields the lines of `LineStore.Insert(LineStore.DropTail(old), new line)`. |
| LinkedSet.FillIsInsert | code/cache.c:170-173 | In a set with room, `insert` of a fresh node yields the lines of `LineStore.Insert(old, new line)`. |
| LinkedSet.Lookup | code/cache.c:149-159 | Walking `set_contents` nodes from the head returns the node of the first line with the tag, or none exactly when `LineStore.Find` finds none. |
| AccessHandlers.Fill | code/cache.c:170-181 | The shared install step: the new line becomes the head; a set with room just grows, while a full set loses its tail, counting one replacement and one block of write-back exactly when the tail was dirty. |
| AccessHandlers.Load | code/cache.c:132-185 | A load (or instruction fetch) counts one access. On a hit it promotes the line and changes no other counter. On a miss it counts a miss, fetches one block and installs a clean line as `Fill` describes. |
| AccessHandlers.Store | code/cache.c:191-266 | A store counts one access. A hit promotes the line: dirty under write-back, or clean with one word copied back under write-through. A write-allocate miss fetches the block and installs the line (dirty, or clean plus one word under write-through). A no-write-allocate miss leaves the set alone and counts one miss and one copied-back word. |
| AccessHandlers.LoadCompulsoryIsFill | code/cache.c:138-146 | The empty-set path of a load gives the same set and counters as the ordinary miss path. |
| AccessHandlers.StoreCompulsoryIsFill | code/cache.c:196-209 | The empty-set path of a write-allocate store gives the same set and counters as the ordinary miss path. |
| AccessHandlers.InstalledValid | code/cache.c:170-181 | Installing a non-resident tag keeps the set within the associativity and free of duplicate tags, and leaves the tag resident; a clean line in a clean set leaves it clean. |
| AccessHandlers.LoadKeepsValid | code/cache.c:164-182 | A load keeps its set valid, leaves the loaded tag resident, and never makes a clean set dirty. |
| AccessHandlers.StoreKeepsValid | code/cache.c:236-259 | A store keeps its set valid; the tag is resident afterwards if and only if it was a hit or the cache allocates on writes; under write-through a clean set stays clean. |
| AccessHandlers.FetchedConsistent | code/cache.c:165-166 | Counting a miss together with a one-block fetch keeps the counters consistent, and the fetch grows by exactly one block per miss. |
| AccessHandlers.LoadStats | code/cache.c:136-181 | A load only raises counters, keeps them consistent, fetches exactly one block per miss, and copies back either nothing or one whole block. |
| AccessHandlers.StoreStats | code/cache.c:195-263 | A store only raises counters and keeps them consistent. |
| AccessHandlers.WriteThroughStoreCostsOneWord | code/cache.c:227-247 | Under write-through, on a set with no dirty line, every store (hit or miss, allocating or not) copies back exactly one word. |
| AccessHandlers.WriteBackStoreCost | code/cache.c:252-256 | Under write-back with write-allocate, a store copies back nothing or one whole block, and a whole block only when it evicts a dirty tail. |
| AccessHandlers.StoreTagsLikeLoad | code/cache.c:236-259 | Under write-allocate, a store leaves the set with the same tags in the same order as a load of that tag would; only dirty bits differ. |
| Configuration.CDiv | code/cache.c:42 | C's integer division truncates toward zero: the quotient times the divisor is the largest multiple not beyond the dividend, on the dividend's side of zero. |
| Configuration.Initial | code/cache.c:14-22 | Before any directive the organisation is unified, all three sizes are the default cache size, the block size, associativity and policies are the defaults, and the words per block are the default block size divided (truncating) by the word size. |
| Configuration.SetCacheParam | code/cache.c:34-76 | An unknown parameter is a failure carrying its code. Each value parameter sets its field, and a block size also sets the words per block to the value divided (truncating) by the word size. A size parameter alone decides the organisation, split unless it is the unified size. Each toggle sets its policy. Every field the parameter does not name, the word size included, keeps its value. |
| Configuration.ApplyAll | code/cache.c:34-76 | A run of directives fails if and only if one of them has an unknown parameter. |
| Configuration.LastValueWins | code/cache.c:39-58 | After a run of directives each value field holds the value of the last directive that set it, or its old value if none did. |
| Configuration.SplitFollowsLastSize | code/cache.c:44-55 | The organisation after a run is decided by the last size directive: split unless it was the unified size. |
| Configuration.PoliciesFollowLastToggle | code/cache.c:59-70 | The write policy and the allocation policy after a run are each decided by the last directive of their pair. |
| Configuration.WordsPerBlockFollowsBlockSize | code/cache.c:40-43 | The words per block always equal the block size in bytes divided by the word size. |
| Configuration.SetTwice | code/cache.c:39-70 | Setting a known parameter twice is the same as setting it once to the second value. |
| Configuration.TogglesOverride | code/cache.c:59-70 | Each policy toggle overrides its partner: only the last of the two counts. |
| CacheModel.PerformInit | code/cache.c:80-102 | A new cache has every set empty, the configured associativity, `size / word size / (assoc * words per block)` sets, and an offset as wide as log2 of the block size in bytes. Its sets fit in its capacity in words. |
| CacheModel.NumSetsFor | code/cache.c:86-88 | For a non-negative size, the set count is the largest number of sets of `assoc * words per block` words that fits in the size in words. |
| CacheModel.InitCache | code/cache.c:106-128 | Initialisation builds the configured organisation with empty clean caches: split builds the instruction cache from the instruction size and the data cache from the data size, unified builds one cache from the unified size. It zeroes both blocks of counters and takes the policies from the configuration; the result satisfies the run invariant. |
| CacheModel.HandlerFor | code/cache.c:355-359 | Kind 0 selects the data load, 1 the data store and 2 the instruction fetch, each if and only if; any other kind selects none. |
| CacheModel.Handle | code/cache.c:362-369 | A handler run changes only the set the address selects, keeps layout and associativity, and counts one access. The selected set and the counters become those of a store of the address's tag when the handler is the data store, and of a load of that tag otherwise. |
| CacheModel.PerformAccess | code/cache.c:345-371 | Kinds 0 and 1 change only the data counters and, when split, only the data cache. Kind 2 changes only the instruction counters and, when split, only the instruction cache. Each counts exactly one access, only the selected set changes, and any other kind changes nothing. The cache the kind targets and the counters it is charged to become exactly what its handler computes from them. |
| CacheModel.HandleKeepsValid | code/cache.c:170-181 | Every handler run keeps every set valid, and loads, fetches and write-through stores keep a clean cache clean. |
| CacheModel.HandleStats | code/cache.c:136-181 | Every handler run only raises counters and keeps them consistent; loads and fetches keep the fetches at exactly one block per miss. |
| CacheModel.PerformAccessKeepsValid | code/cache.c:345-371 | Every access keeps the run invariant. Sets stay valid and counters consistent, instruction misses fetch one block each, a split instruction cache never holds a dirty line, and write-through never leaves a dirty line. No counter ever decreases. |
| CacheModel.RunKeepsValid | code/cache.c:345-371 | The run invariant holds after any trace of accesses, and no counter decreases. |
| CacheModel.RunCountsAccesses | code/cache.c:136 | Over a trace, the two access counters together grow by exactly the number of accesses whose kind is 0, 1 or 2. |
| CacheModel.DirtyIn | code/cache.c:383-388 | The number of dirty lines of a set is at most its size, and zero exactly when no line is dirty. |
| CacheModel.DirtyInSets | code/cache.c:381-389 | The number of dirty lines of a cache is zero exactly when every set is clean. |
| CacheModel.FlushSet | code/cache.c:383-388 | The inner flush loop adds one block for each dirty line of the set. |
| CacheModel.PerformFlush | code/cache.c:375-390 | Flushing a cache adds one block of copied-back words for each of its dirty lines and changes no other counter. |
| CacheModel.Flush | code/cache.c:392-402 | `flush` charges the data counters one block per dirty line of every cache in use. It changes no line, no instruction counter and no other data counter. |
| CacheModel.FlushCountsOnlyDirtyData | code/cache.c:395-400 | In a valid run the split instruction cache contributes nothing to the flush, and under write-through nothing is flushed at all. |
| Recency.LoadStep | code/cache.c:148-183 | One load takes a set that holds the `assoc` most recent tags to one that holds the `assoc` most recent tags including the new one, and misses exactly when the tag was not among them. |
| Recency.LoadsFollowRecency | code/cache.c:132-185 | After loads of a stream into an empty set, the set holds exactly the `assoc` most recently used distinct tags, most recent first, and stays valid. The misses are exactly the loads whose tag was not among the `assoc` most recent before it, and every load counts one access. |
| Scenarios.DirectMappedInitial | code/cache.c:80-102 | A 64-byte direct-mapped cache with 16-byte blocks starts with four empty sets, a 2-bit index and a 4-bit offset. |
| Scenarios.FieldsOf0 | code/cache.c:89-92 | In that layout byte address 0 is in set 0 with tag 0. |
| Scenarios.FieldsOf16 | code/cache.c:89-92 | In that layout byte address 16 is in set 1 with tag 0. |
| Scenarios.FieldsOf64 | code/cache.c:89-92 | In that layout byte address 64 is in set 0 with tag 1. |
| Scenarios.ReloadHits | code/cache.c:148-163 | Two loads of one tag into an empty direct-mapped set give one miss, one fetched block and one hit. |
| Scenarios.ConflictThrashes | code/cache.c:164-181 | Alternating two tags in a direct-mapped set misses every time and replaces twice. |
| Scenarios.WriteThroughStores | code/cache.c:227-247 | Under write-through with write-allocate and one-word blocks, a store miss fetches one word and copies one back; a second store to it hits and copies one more. |

## Left out

- `dump_settings` and `print_stats` only print. Their miss and hit rates
  are floating-point divisions. The traffic totals are the helper
  `Statistics.TotalTraffic`.
- `malloc` is a fresh key in the node heap (`LinkedSet.Allocate`). The
  lines evicted by the code are never freed, and the model does not
  represent freeing either.
- `exit(-1)` in the default branch of `set_cache_param` becomes a
  `Failure` result.
- `cache.h` and `main.h` are not part of this model. This has three
  consequences:
  - `LOG2` is taken to be the exact base-2 logarithm (`Address.Log2`).
  - `WORD_SIZE` and the `DEFAULT_*` constants are fields of a
    `Defaults` record and of the configuration.
  - The numeric codes of the `CACHE_PARAM_*` parameters are a datatype,
    whose `Unknown(code)` case stands for the default branch.
- The code's geometry is defined only under these conditions, which are
  the preconditions `GeometryOk` and `Layout.Valid`:
  - the associativity is at least 1;
  - the words per block are at least 1;
  - the block size is at least 1 byte;
  - there is at least one set;
  - the set count is a power of two;
  - the block size is a power of two;
  - `setBits + offsetBits < 32`.

  Outside them the code divides by zero (`cache.c:88`), takes `LOG2` of
  zero, or builds masks and a shift in `calc_tag` that are ill-defined or
  undefined in C. The model does not describe those cases.
- 32-bit `int` counters, tags and sizes are unbounded integers. Overflow
  of the counters on very long traces is not modelled. Neither is the
  conversion of a tag of 2^31 or more to a negative `int` in `calc_tag`.
- `LinkedSet.Lookup` walks the list for `set_contents` nodes.
  `set_contents` is taken equal to the length of the list, as the code
  always keeps it. A counter out of step with the list is not modelled.
- The handlers are given the selected set directly; the C code's
  separate `LRU_head`/`LRU_tail`/`set_contents` arrays are one sequence
  of sets. The pointer-level list is proved equal to the sequence
  operations in `LinkedSet` and is not used by the dispatcher.
- Changing the configuration after `init_cache` is not modelled. The
  handlers and the flush take the policy and the block size in words
  from the state that `InitCache` built.

# a-memory-library, modelled in Dafny

This project models the allocation core of a-memory-library, a C library of
memory helpers, and proves properties of the model. There are four parts:

- **The arena pool** (`ArenaPool`, `PoolFacts`, `PoolStrings`). The pool is a
  bump allocator over a chain of blocks. The model covers:
  - the aligned, unaligned and min/max reservations;
  - growth by a new block, `clear` and `destroy`;
  - the `size`/`used` counters and the nested pools carved from a parent;
  - the string routines: `strdup`/`strndup`/`dup`, `split`/`split2`, and the
    block layouts of the `strdupa` family.
- **The size-class block allocator** (`BlockAllocator`). It has 43 size
  classes, a hand-written binary decision tree from size to class, and one
  LIFO free list per class, drawing on a pool.
- **The growable buffer** (`GrowableBuffer`). This is a byte array with a
  length, a size and a NUL after the content. It grows by
  `length + 50 + size/8`. It can live on the heap, in a pool, or (for size 0)
  in the buffer's own `size` field.
- **The debug ledger** (`Tracker`). It is the list of live allocations that
  `_aml_malloc_d`, `_aml_free_d` and `_aml_realloc_d` keep, together with:
  - the byte and allocation totals;
  - the back-reference check that catches double frees;
  - the nearest-allocation scan printed for a bad pointer;
  - the rename plan of the log rotation in `save_old_log`.

Conventions used throughout:
- Memory is not modelled byte by byte. Addresses are natural numbers.
- The system allocator is an oracle parameter: `nextBlock` in the pool and
  `node` in the ledger. Each call that needs fresh memory receives the
  word-aligned address that `malloc` (or the parent pool) returns.
- Operations are pure functions over immutable records.
- A call that would `abort()` or dereference NULL in C returns an `Abort`
  value that names the failure.
- `size_t` wrap-around is modelled in the size arithmetic the source
  depends on: the rounding and root capacity in `_aml_pool_init`, and the
  unchecked product in `aml_pool_calloc`. Pointer sums and the `used`
  counter are unbounded; "## Left out" says where that differs from C.
- `common.dfy` holds the machine constants and C-string helpers (`Machine`),
  and the `Option`/`Result` types (`Outcomes`).

The pool's `init` comment says the headers come out of an "even multiple of
4096". The code tests bit 12 instead. The model follows the code, and the
described behaviour is modelled beside it (`IntendedRootCapacity`).

There is a second point where the code and its description differ. After
`aml_pool_clear`, `used` is the root capacity plus the headers. Right after
`_aml_pool_init` it is the rounded size plus the headers. The two differ
whenever init reduced the root. The model follows the code, and
`PoolFacts.ClearUsedAfterReducedInit` exhibits the difference.

## Model

| member | source | states |
|---|---|---|
| ArenaPool.RoundedSize | src/aml_pool.c:44-48 | the size rounded up to the least multiple of 8 that is at least the input; a size within 7 of 2^64 wraps to 0 |
| ArenaPool.RootCapacity | src/aml_pool.c:57-59 | with bit 12 clear the root loses both headers (wrapping modulo 2^64 when it is smaller); with bit 12 set it keeps the whole rounded size |
| ArenaPool.Init | src/aml_pool.c:41-90 | size 0 aborts; otherwise one block whose capacity is RootCapacity, cursor at its start and word aligned, size 0, used = rounded + headers, minimum growth = rounded, no parent |
| ArenaPool.IntendedRootCapacity | src/aml_pool.c:55-59 | the capacity the comment describes: a page multiple pays for the headers out of its own pages, anything else keeps its size; never above the rounded size |
| ArenaPool.IntendedInit | src/aml_pool.c:41-90 | init with the intended capacity: same abort cases, valid, used = rounded + headers, root no larger than the rounded size |
| ArenaPool.PoolInit | src/aml_pool.c:94-116 | header and root are one aligned reservation from the parent (whose new state is returned); the root is never reduced; the child records its parent |
| ArenaPool.SetMinimumGrowthSize | src/aml_pool.c:27-31 | 0 aborts; any other value is stored and nothing else changes |
| ArenaPool.AllocGrow | src/aml_pool.c:150-175 | chains one block of max(len, minimum growth) at the oracle address behind the old current; cursor = start + len; used grows by node header + capacity; size absorbs the old leftover only when the old current was not the root |
| ArenaPool.UAlloc | include/a-memory-library/impl/aml_pool.h:73-85 | when curp + len < endp the old cursor is returned, the cursor moves by exactly len, at least one byte stays free and nothing else changes; otherwise it is growth |
| ArenaPool.Alloc | include/a-memory-library/impl/aml_pool.h:117-132 | the result is always a multiple of 8; on the fast path it is the cursor rounded up, inside the current block, and only the cursor changes; otherwise growth |
| ArenaPool.MinMaxAlloc | include/a-memory-library/impl/aml_pool.h:87-115 | three cases: len fits and is granted; else min_len fits and min_len <= granted < len with one byte left and no new block; else growth reporting len |
| ArenaPool.Zalloc | include/a-memory-library/impl/aml_pool.h:134-141 | the aligned reservation of alloc, holding len zero bytes |
| ArenaPool.Calloc | include/a-memory-library/impl/aml_pool.h:143-147 | zero bytes of length num_items*size modulo 2^64, from the aligned alloc of that length |
| ArenaPool.Udup | include/a-memory-library/impl/aml_pool.h:149-159 | an unaligned reservation of len + 1 bytes holding the data and then a NUL |
| ArenaPool.Strdup | include/a-memory-library/impl/aml_pool.h:161-166 | udup of the string up to its first NUL: the copy is NUL-free and terminated |
| ArenaPool.Strndup | include/a-memory-library/impl/aml_pool.h:168-176 | copies min(strlen, length) bytes and a NUL, in an unaligned reservation of that many bytes plus one |
| ArenaPool.Dup | include/a-memory-library/impl/aml_pool.h:178-187 | an aligned reservation of exactly len bytes holding the data, with no terminator |
| ArenaPool.ChainNodes | src/aml_pool.c:121-126 | the nodes freed while walking prev from the current block: every growth block, newest first, never the root |
| ArenaPool.Clear | src/aml_pool.c:119-139 | back to the root alone, cursor at its start, size 0, used = root capacity + headers; growth blocks are freed newest first only when the pool has no parent |
| ArenaPool.Destroy | src/aml_pool.c:141-148 | a pool without a parent frees every growth block and then the header with the root; a nested pool frees nothing |
| PoolFacts.UsedExceedsSize | include/a-memory-library/aml_pool.h:141-145 | under the bookkeeping invariant, aml_pool_used is strictly greater than aml_pool_size |
| PoolFacts.AllocGrowKeepsAccounts | src/aml_pool.c:150-175 | growth preserves the bookkeeping invariant |
| PoolFacts.UAllocKeepsAccounts | include/a-memory-library/impl/aml_pool.h:73-85 | ualloc preserves the bookkeeping invariant |
| PoolFacts.AllocKeepsAccounts | include/a-memory-library/impl/aml_pool.h:117-132 | alloc preserves the bookkeeping invariant |
| PoolFacts.MinMaxAllocKeepsAccounts | include/a-memory-library/impl/aml_pool.h:87-115 | min_max_alloc preserves the bookkeeping invariant |
| PoolFacts.ClearRestoresAccounts | src/aml_pool.c:119-139 | clear re-establishes the bookkeeping from any valid state, and size() then equals the root capacity |
| PoolFacts.InitAccounted | src/aml_pool.c:57-83 | init satisfies the bookkeeping invariant unless the root capacity wrapped around |
| PoolFacts.PoolInitAccounted | src/aml_pool.c:94-116 | a nested pool succeeds for every size below the wrap point and satisfies the bookkeeping invariant |
| PoolFacts.InitUnderflow | src/aml_pool.c:57-61 | a rounded size below the 64 header bytes has bit 12 clear, so the root capacity wraps to 2^64 - 64 + rounded, the system request is smaller than the headers, and size() exceeds used() |
| PoolFacts.PageBitIsNotPageMultiple | src/aml_pool.c:55-61 | 4096 is a page multiple yet is not reduced (it costs 4096 + 64 bytes); 1024 is not a page multiple yet is reduced |
| PoolFacts.IntendedInitAccounted | src/aml_pool.c:55-61 | with the intended capacity every init satisfies the bookkeeping, used() exceeds size(), and a page multiple costs exactly its own size |
| PoolFacts.ClearUsedAfterReducedInit | src/aml_pool.c:119-139 | for init(1024), used is 1024 + 64 after init but 1024 after clear |
| PoolFacts.UAllocMayBeUnaligned | include/a-memory-library/aml_pool.h:98-107 | after one byte, ualloc hands out an odd address while alloc skips to the next multiple of 8 |
| PoolFacts.CallocProductWraps | include/a-memory-library/impl/aml_pool.h:143-147 | 2^32 items of 2^32 bytes wrap to an empty reservation |
| PoolFacts.NoGrowthWhileFits | include/a-memory-library/impl/aml_pool.h:73-85 | ualloc requests whose total stays short of the block end add no block, move the cursor by their sum and leave size and used alone |
| PoolFacts.ClearThenReuse | include/a-memory-library/aml_pool.h:35-41 | after clear, requests totalling less than the root capacity are served from the root's start with no growth |
| PoolStrings.TokensShape | src/aml_pool.c:286-292 | splitting yields one piece more than the number of delimiters, and no piece contains the delimiter |
| PoolStrings.JoinTokens | src/aml_pool.c:301-309 | joining the pieces with the delimiter gives back the string |
| PoolStrings.TokensJoin | src/aml_pool.c:301-309 | splitting a join of delimiter-free pieces gives back those pieces |
| PoolStrings.NonEmptyKeeps | src/aml_pool.c:335-339 | the compaction of split2 keeps exactly the non-empty pieces and never more pieces than it was given |
| PoolStrings.SplitScan | src/aml_pool.c:296-310 | the scan that cuts the string at every delimiter produces exactly the reference pieces |
| PoolStrings.Split | src/aml_pool.c:279-312 | NULL yields {NULL} and 0 with no reservation; otherwise count = delimiters + 1, a NULL-terminated array of the pieces, none holding the delimiter, joining back to the input, in one aligned reservation of 8*(count+1) bytes |
| PoolStrings.Split2 | src/aml_pool.c:328-342 | split2 with the NULL test on `num_splits` that split has (see Findings): the non-empty pieces of split, in order and NULL-terminated, with their count; the pool is as split left it |
| PoolStrings.Split2AsWritten | src/aml_pool.c:328-342 | split2 as written: a NULL `num_splits` aborts with a NULL dereference; otherwise the non-empty pieces, their count and the pool of split |
| PoolStrings.SplitString | src/aml_pool.c:314-317 | strdup of the string, then split of the copy: the pieces of the input, from two reservations |
| PoolStrings.SplitScenario | src/aml_pool.c:299 | "a,,b" splits into "a", "" and "b", and split2 keeps "a" and "b" |
| PoolStrings.CountBytesInArray | src/aml_alloc.c:312-322 | bytes for one slot per string plus the NULL slot and every string with its NUL; the slot count is written to n |
| PoolStrings.PoolCountBytesInArray | src/aml_pool.c:204-213 | the same byte count, but the slot count stays at the caller's 0 |
| PoolStrings.StrdupaLayoutDisjoint | src/aml_pool.c:215-234 | with the right slot count, the copies start after the whole pointer array, follow each other without overlap, and end exactly at the end of the reservation |
| PoolStrings.StrdupaAsWritten | src/aml_pool.c:204-234 | strdupa as written: the reservation has the right byte count, but the copies are laid out from slot 0, so a non-empty array has its first copy begin at offset 0, inside the slot that should point at it |
| PoolStrings.Strdupa | src/aml_pool.c:215-234 | NULL yields NULL; otherwise one aligned reservation of the counted bytes, with copies laid out after every slot |
| PoolStrings.CountBytesInArrayN | src/aml_pool.c:236-243 | n + 1 pointer slots plus the first n strings with their NULs; asking for more strings than the array holds reads through the NULL slot and aborts |
| PoolStrings.Strdupan | src/aml_pool.c:245-264 | NULL yields NULL; n beyond the strings aborts with a NULL dereference; otherwise one aligned reservation holding n + 1 slots and then the first n strings, laid out one after the other |
| PoolStrings.Strdupa2 | src/aml_pool.c:266-276 | NULL yields NULL; otherwise an aligned reservation of one slot per pointer up to the first NULL plus one, holding those same pointer values (the strings are shared, not copied) and then NULL |
| PoolStrings.Strdupa2RoundTrip | src/aml_pool.c:266-276 | read back as a NULL-terminated array, the copy is the array it was made from: same length up to its NULL and the same pointers |
| BlockAllocator.TableShape | include/a-memory-library/extras/impl/aml_block_allocator.h:14-58 | 43 classes, each a multiple of the 10-byte node, strictly increasing, all below 2^32, from 0 up to 167772160 |
| BlockAllocator.ClassSize | include/a-memory-library/extras/impl/aml_block_allocator.h:60-62 | a class's size is a multiple of the node size, larger than the class before it, and at most the last class |
| BlockAllocator.Id | include/a-memory-library/extras/impl/aml_block_allocator.h:64-238 | succeeds exactly for sizes up to the last class and aborts above it; the class it returns holds the size and the class below it does not |
| BlockAllocator.IdIsLeastClass | include/a-memory-library/extras/impl/aml_block_allocator.h:64-238 | the decision tree returns the same class as a linear scan for the least class that holds the size |
| BlockAllocator.IdOfClassSize | include/a-memory-library/extras/impl/aml_block_allocator.h:60-238 | the class of a class's own size is that class |
| BlockAllocator.IdMonotone | include/a-memory-library/extras/impl/aml_block_allocator.h:64-238 | a larger size never gets a smaller class |
| BlockAllocator.Init | include/a-memory-library/extras/impl/aml_block_allocator.h:260-266 | one zeroed, aligned reservation holding the handle and 44 list heads, all lists empty |
| BlockAllocator.AllocByIdAsWritten | include/a-memory-library/extras/impl/aml_block_allocator.h:268-277 | an empty list dereferences NULL; a non-empty list is ignored and fresh pool bytes are handed out |
| BlockAllocator.AllocById | include/a-memory-library/extras/impl/aml_block_allocator.h:268-277 | a non-empty list gives up its head, the other lists stay and the pool is untouched; an empty list takes an aligned block of the class size from the pool |
| BlockAllocator.AllocBlock | include/a-memory-library/extras/impl/aml_block_allocator.h:279-286 | size 0 gives NULL and changes nothing; an oversize request aborts; otherwise a block of the size's class, which holds the size; this is over the corrected `AllocById` (see Findings): as written, the first request of a class dereferences a NULL list head |
| BlockAllocator.Release | include/a-memory-library/extras/impl/aml_block_allocator.h:288-296 | NULL changes nothing; otherwise the block heads its class's list in front of the old head, the other lists and the pool are unchanged, and one more block is free |
| BlockAllocator.ReleaseThenAlloc | include/a-memory-library/extras/impl/aml_block_allocator.h:279-296 | releasing a block and then asking for the same size returns that block and restores the lists; this is over the corrected `AllocById` (see Findings): as written, the first request of a class dereferences a NULL list head |
| BlockAllocator.ReleaseThenAllocSameClass | include/a-memory-library/extras/impl/aml_block_allocator.h:279-296 | a block released under one size is handed out for any size of the same class; this is over the corrected `AllocById` (see Findings): as written, the first request of a class dereferences a NULL list head |
| BlockAllocator.AsWrittenFirstAllocFails | include/a-memory-library/extras/impl/aml_block_allocator.h:260-277 | as written, the first request of any class on a fresh allocator dereferences NULL |
| BlockAllocator.AsWrittenNeverReuses | include/a-memory-library/extras/impl/aml_block_allocator.h:268-296 | as written, a released block is never handed out again: the request after a release takes fresh pool bytes and the list keeps the block |
| GrowableBuffer.Init | src/aml_buffer.c:36-46 | an empty, terminated buffer of the given size; size 0 uses the struct's size field as its array, any other size a heap array |
| GrowableBuffer.PoolInit | include/a-memory-library/impl/aml_buffer.h:31-39 | an empty, terminated, pool-backed buffer with size = initial_size and an array of initial_size + 1 bytes |
| GrowableBuffer.Clear | include/a-memory-library/impl/aml_buffer.h:41-44 | empty content, terminated, with the same array |
| GrowableBuffer.GrownSize | include/a-memory-library/impl/aml_buffer.h:53 | the grown size exceeds the request by at least 50 and is at least an eighth of the old size |
| GrowableBuffer.Grow | include/a-memory-library/impl/aml_buffer.h:52-63 | the content and length are kept, the size becomes GrownSize and exceeds the request; a pool buffer stays in the pool and any other buffer moves to the heap |
| GrowableBuffer.GrowAsWritten | include/a-memory-library/impl/aml_buffer.h:52-63 | the heap branch is Grow; the pool branch reads past the array and is reported as an out-of-bounds read |
| GrowableBuffer.GrowAsWrittenOverreads | include/a-memory-library/impl/aml_buffer.h:61 | the len + 1 bytes duplicated are more than the size + 1 bytes of the array, for every pool buffer and request |
| GrowableBuffer.Reserve | src/aml_buffer.c:56-57 | growth happens only when the need exceeds the size; afterwards the size covers the need and the content is kept; this is over the corrected `Grow` (see Findings): as written, growing a pool-backed buffer over-reads |
| GrowableBuffer.ShrinkBy | include/a-memory-library/impl/aml_buffer.h:65-72 | length becomes max(length - n, 0), the content is the matching prefix, and the terminator is rewritten |
| GrowableBuffer.Resize | include/a-memory-library/impl/aml_buffer.h:74-84 | length becomes exactly the request, the common prefix of the old content is kept, the size only grows, and growth happens only beyond the size; this is over the corrected `Grow` (see Findings): as written, growing a pool-backed buffer over-reads |
| GrowableBuffer.AppendAlloc | include/a-memory-library/impl/aml_buffer.h:86-106 | the returned offset is the length padded to a multiple of 8; length = offset + n; the old content is kept; this is over the corrected `Grow` (see Findings): as written, growing a pool-backed buffer over-reads |
| GrowableBuffer.AppendUalloc | include/a-memory-library/impl/aml_buffer.h:108-119 | the returned offset is the old length with no padding; length grows by n; the old content is kept; this is over the corrected `Grow` (see Findings): as written, growing a pool-backed buffer over-reads |
| GrowableBuffer.Append | src/aml_buffer.c:55-66 | content = old content ++ bytes, terminated; no growth when length + n <= size; this is over the corrected `Grow` (see Findings): as written, growing a pool-backed buffer over-reads |
| GrowableBuffer.Appends | include/a-memory-library/impl/aml_buffer.h:128-130 | appends the string up to its first NUL; this is over the corrected `Grow` (see Findings): as written, growing a pool-backed buffer over-reads |
| GrowableBuffer.Appendc | include/a-memory-library/impl/aml_buffer.h:132-144 | content = old content ++ [ch], terminated; this is over the corrected `Grow` (see Findings): as written, growing a pool-backed buffer over-reads |
| GrowableBuffer.Appendn | include/a-memory-library/impl/aml_buffer.h:146-162 | n <= 0 changes nothing; otherwise n copies of ch are appended; this is over the corrected `Grow` (see Findings): as written, growing a pool-backed buffer over-reads |
| GrowableBuffer.Reallocate | include/a-memory-library/impl/aml_buffer.h:164-173 | a fresh array of GrownSize with the length kept, with the pool-or-heap rule of grow |
| GrowableBuffer.Alloc | include/a-memory-library/impl/aml_buffer.h:175-185 | length = the request, terminated; the bytes are kept only when no reallocation happened |
| GrowableBuffer.Set | include/a-memory-library/impl/aml_buffer.h:187-198 | the content becomes exactly the given bytes; no growth when they fit |
| GrowableBuffer.Sets | include/a-memory-library/impl/aml_buffer.h:205-207 | the content becomes the string up to its first NUL |
| GrowableBuffer.Setc | include/a-memory-library/impl/aml_buffer.h:209-211 | the content becomes the single byte |
| GrowableBuffer.SetnAsWritten | include/a-memory-library/impl/aml_buffer.h:213-216 | with n <= 0 the length drops to 0 but the array is untouched, so no terminator is written; for n > 0 this is over the corrected `Grow` (see Findings): as written, growing a pool-backed buffer over-reads |
| GrowableBuffer.SetnAsWrittenLeavesStaleByte | include/a-memory-library/impl/aml_buffer.h:213-216 | after appending "x", setn(.., 0) leaves length 0 with data[0] still 'x' |
| GrowableBuffer.Setn | include/a-memory-library/impl/aml_buffer.h:213-216 | the content becomes n copies of ch, or empty for n <= 0, always terminated; this is over the corrected `Grow` (see Findings): as written, growing a pool-backed buffer over-reads |
| GrowableBuffer.Appendvf | src/aml_buffer.c:68-93 | a formatter failure aborts; otherwise the formatted text is appended, in place when it is shorter than size - length, else after growth to length + n; this is over the corrected `Grow` (see Findings): as written, growing a pool-backed buffer over-reads |
| GrowableBuffer.Setvf | include/a-memory-library/impl/aml_buffer.h:218-222 | a formatter failure aborts; otherwise the content becomes exactly the formatted text; this is over the corrected `Grow` (see Findings): as written, growing a pool-backed buffer over-reads |
| GrowableBuffer.AppendvfIsAppend | src/aml_buffer.c:68-93 | formatting into the buffer gives the same content as appending the formatted text; this is over the corrected `Grow` (see Findings): as written, growing a pool-backed buffer over-reads |
| GrowableBuffer.DestroyAsWritten | src/aml_buffer.c:48-53 | a pool buffer frees nothing; a heap buffer frees array and struct; a size-field buffer frees a pointer into the struct |
| GrowableBuffer.Destroy | src/aml_buffer.c:48-53 | the array is freed exactly when it is on the heap, and the struct exactly when the buffer is not pool-backed |
| GrowableBuffer.DestroyAsWrittenAfterEmptyInit | src/aml_buffer.c:39-53 | destroy straight after init(0) frees a non-heap pointer; the intended destroy frees only the struct |
| GrowableBuffer.AppendAssociative | src/aml_buffer.c:55-66 | two appends give the content of one append of the concatenation; this is over the corrected `Grow` (see Findings): as written, growing a pool-backed buffer over-reads |
| GrowableBuffer.AppendThenShrink | include/a-memory-library/impl/aml_buffer.h:65-72 | shrinking by what was just appended restores the content; this is over the corrected `Grow` (see Findings): as written, growing a pool-backed buffer over-reads |
| GrowableBuffer.AppendcIsAppend | include/a-memory-library/impl/aml_buffer.h:132-144 | appendc gives the content of an append of one byte; this is over the corrected `Grow` (see Findings): as written, growing a pool-backed buffer over-reads |
| GrowableBuffer.AppendnIsAppend | include/a-memory-library/impl/aml_buffer.h:146-162 | appendn gives the content of an append of the repeated byte; this is over the corrected `Grow` (see Findings): as written, growing a pool-backed buffer over-reads |
| GrowableBuffer.AppendAllConcat | src/aml_buffer.c:55-66 | growth never loses content: any run of appends yields the old content followed by every piece; this is over the corrected `Grow` (see Findings): as written, growing a pool-backed buffer over-reads |
| Tracker.InitLedger | src/aml_alloc.c:145-158 | an existing ledger is kept; otherwise a new one with no records and zero totals, which is consistent |
| Tracker.AppendKeepsConsistent | src/aml_alloc.c:226-235 | appending a record with a fresh payload and stamping it live keeps totals, distinctness and the stamp invariant |
| Tracker.Malloc | src/aml_alloc.c:203-238 | len 0 returns NULL and changes nothing; otherwise one record (length negated when custom) goes at the tail, totals grow by one and by len, and the payload is owned; consistency is kept |
| Tracker.Closest | src/aml_alloc.c:447-461 | the scan picks a record with the least distance to the pointer, and the first such record |
| Tracker.Diagnose | src/aml_alloc.c:439-473 | the report names a listed record at least distance, reports that distance, and says "behind" iff the pointer is below its payload; nothing is named for an empty list |
| Tracker.Free | src/aml_alloc.c:500-524 | NULL changes nothing; an unowned pointer aborts with the diagnosis; otherwise exactly its record leaves the list, the rest keep their order, the totals drop by one and by its magnitude, and the pointer is no longer owned |
| Tracker.Realloc | src/aml_alloc.c:476-498 | NULL is malloc; an unowned pointer aborts; otherwise min(old length, len) bytes are copied, a record for len replaces the old one (none for len 0, which returns NULL), and the totals move by the difference |
| Tracker.Move | src/aml_alloc.c:480-497 | for an owned pointer: the new record goes at the tail, the old record leaves the list with the others in order, min(old length, len) bytes are copied, the totals move by len minus the old length, and the old pointer is no longer owned |
| Tracker.FreeAfterMalloc | src/aml_alloc.c:500-524 | freeing what was just allocated restores the records and both totals |
| Tracker.DoubleFreeRejected | src/aml_alloc.c:439-524 | a second free of the same pointer aborts |
| Tracker.ForeignPointerRejected | src/aml_alloc.c:439-473 | a pointer never handed out aborts, naming the nearest allocation when there is one |
| Tracker.AllOnesBelowIff | src/aml_alloc.c:85-93 | the test (saves & (2^ix - 1)) == 2^ix - 1 holds exactly when saves ends in at least ix one bits |
| Tracker.SaveOldLog | src/aml_alloc.c:82-110 | num = min(trailing one bits, 31) renames, from generation num-1 -> num down to the log itself -> 1, each targeting the name the previous rename vacated |

## Left out

- Threads, the mutex, the condition variable, the timed wait and the background dump loop of the ledger: their point is concurrency.
- File and console output: `fopen`, `fprintf`, `rename`, `ctime`, the dump and error text, and the log file's name. The rotation is modelled as the plan of (from, to) generations.
- `vsnprintf` formatting: `aml_pool_strdupvf`/`strdupf`, `splitf`/`split2f`, and the formatting inside `aml_buffer_appendvf`. The formatted text is an input, and `None` stands for a negative return.
- `_AML_DEBUG_` statistics (`cur_size`, `max_size`, `max_length`, the dump callbacks), and the pool header fields they add. The header size is that of a build without them.
- The allocator constructor and destructor hooks, `aml_allocator_destroy`, and the ledger's wrappers `_aml_calloc_d`, `_aml_strdup_d`, `_aml_strdupf_d` and the `_aml_strdupa*_d` duplicators. Only `count_bytes_in_array` of that file is modelled; it serves as the corrected slot count.
- Pool save/restore markers and `aml_buffer_detach`: they are declared but have no definition in these files.
- A failing system `malloc`, which aborts: the oracle always returns a fresh, word-aligned block.
- Memory contents in general: uninitialised bytes read as NUL, and the ledger and the pool do not track payload bytes.
- ArenaPool.PoolInit: the parent pool's state is returned, but growth of a nested pool takes its blocks from the oracle and does not advance the parent.
- GrowableBuffer.Grow: the buffer does not carry its pool's state, so pool-backed growth is not threaded back into the pool.
- Tracker.Free: a foreign pointer's header is modelled as carrying no live stamp. In C, reading it is undefined, and a stray match of the back-reference is not modelled.
- ArenaPool.Init: `endp = curp + block_size` and `used = rounded + 64` are not taken modulo 2^64, because addresses and counters are unbounded. After an init whose root capacity wraps (a rounded size below 64), C's `endp` lies 56 bytes below the cursor, so every later request takes the growth path; the model's `endp` lies 2^64 - 56 bytes above it, and requests are served from the root. `used` wraps in C only for rounded sizes within 64 of 2^64. The wrapping init itself is a finding, and the corrected `ArenaPool.IntendedInit` never wraps.
- ArenaPool.Clear: `used = (endp - curp) + 64` is not taken modulo 2^64. After an init whose root capacity wraps, C's clear sets `used` to the rounded size (8 for `_aml_pool_init(8)`), while the model gives 2^64 + 8.
- GrowableBuffer.Append: the bytes to append are a value, while in C they are a pointer. Appending part of the buffer's own content reads the heap array that growth has just freed; the model copies the content as it was.
- GrowableBuffer.Set: for the same reason, setting a heap buffer from its own content after it reallocates reads the freed array; the model copies the content as it was.
- Wrap-around of 64-bit pointer arithmetic in `curp + len < endp` and in the buffer's size formula: addresses and sizes are unbounded there.
- BlockAllocator.Tbl: the size table is a function of the class id rather than a constant sequence. It holds the same 43 values.

## Findings

| source | as written | input that shows it | evidently intended | confidence | as-written member | corrected member |
|---|---|---|---|---|---|---|
| include/a-memory-library/extras/impl/aml_block_allocator.h:270-276 | `alloc_by_id` pops the list when its head is NULL and takes fresh pool bytes when it is not | the first `alloc` of any class on a fresh allocator | take fresh bytes when the list is empty, otherwise pop its head | high, not executed | BlockAllocator.AllocByIdAsWritten | BlockAllocator.AllocById |
| src/aml_pool.c:57-61 | the root loses the headers when bit 12 of the rounded size is clear, and the subtraction wraps below 64 | `_aml_pool_init(8)`: root capacity 2^64 - 56, malloc of 8 bytes, then a 64-byte memset | reduce only whole page multiples, never below the headers | high, not executed | PoolFacts.InitUnderflow | ArenaPool.IntendedInit |
| src/aml_pool.c:204-222 | the pool's `count_bytes_in_array` never writes `*n`, so `strdupa` starts the copies at `r + 0` | `aml_pool_strdupa(pool, {"a", NULL})`: slot 0 receives `r` itself, and the copy "a\0" then overwrites that slot | `*n` = number of strings + 1, as in the ledger's copy of the function | high, not executed | PoolStrings.StrdupaAsWritten | PoolStrings.Strdupa |
| include/a-memory-library/impl/aml_buffer.h:61 | the pool branch of grow duplicates `len + 1` bytes from an array of `size + 1` | any growth of a pool buffer, since len = length + 50 + size/8 > size | duplicate the `length + 1` bytes in use into a new `len + 1` array | high, not executed | GrowableBuffer.GrowAsWritten | GrowableBuffer.Grow |
| include/a-memory-library/impl/aml_buffer.h:213-216 | `setn` with n <= 0 sets length 0 but writes no terminator | append "x", then `setn(h, 'y', 0)`: data is still "x" with length 0 | clear the buffer (length 0, data[0] = 0) before appending | high, not executed | GrowableBuffer.SetnAsWritten | GrowableBuffer.Setn |
| src/aml_buffer.c:39-53 | `destroy` frees `data` even when it points at the struct's own `size` field | `aml_buffer_destroy(aml_buffer_init(0))` | free `data` only when it is a heap block | high, not executed | GrowableBuffer.DestroyAsWritten | GrowableBuffer.Destroy |
| src/aml_pool.c:339 | `_aml_pool_split2` writes `*num_splits` with no NULL test, while `_aml_pool_split` tests it and its documentation allows NULL | `aml_pool_split2(pool, NULL, ',', "a,b")` | skip the write when `num_splits` is NULL, as `_aml_pool_split` does at lines 282-283 and 293-294 | medium, not executed | PoolStrings.Split2AsWritten | PoolStrings.Split2 |

The member named in each as-written cell has a companion lemma that shows
the discrepancy on the input given:
- `BlockAllocator.AsWrittenFirstAllocFails` and `BlockAllocator.AsWrittenNeverReuses`;
- `ArenaPool.Init` together with `PoolFacts.PageBitIsNotPageMultiple`;
- `PoolStrings.StrdupaAsWritten`, whose contract places the first copy at offset 0;
- `GrowableBuffer.GrowAsWrittenOverreads`;
- `GrowableBuffer.SetnAsWrittenLeavesStaleByte`;
- `GrowableBuffer.DestroyAsWrittenAfterEmptyInit`;
- `PoolStrings.Split2AsWritten`, whose contract aborts for a NULL count pointer.

The proved properties of the corrected members are in
`BlockAllocator.ReleaseThenAlloc`, `PoolFacts.IntendedInitAccounted`,
`PoolStrings.StrdupaLayoutDisjoint`, `PoolStrings.NonEmptyKeeps` (the pieces
`PoolStrings.Split2` keeps), `GrowableBuffer.AppendAllConcat` and
`GrowableBuffer.Setn`'s own contract.

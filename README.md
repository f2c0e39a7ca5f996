# memory-helpers in Dafny

A model of the two allocation-free memory primitives of memory-helpers:

- **The ring buffer** (`src/ring_buffer.c`) is a circular byte queue over one arena of `buffer_len * pointer_size` bytes. It has a `head` write cursor and a `tail` read cursor, and a `round_complete` flag that tells a full ring from an empty one when the two cursors meet.
- **The block pool** (`src/memory_pool.c`, with the layouts of `include/memory_pool.h`) carves one arena into slots. Each slot has a 16-byte `struct entry_s` header. A single-probe cursor, `next_free_location`, names the slot the next allocation claims.

Files:

- `limits.dfy` (module `Limits`) holds the ranges 2^32 and 2^64 of the C integer types whose arithmetic wraps.
- `wrappers.dfy` holds `Option`. A NULL address is `None`.
- `ring_buffer.dfy` (module `RingBuffer`) holds the class `Ring`.
  - The arena is an `array<bv8>`.
  - `Contents()` is the sequence of unread bytes, oldest first.
  - `Write` and `Read` are proved against it: a write appends, a read removes a prefix. Both are all or nothing.
- `pool_sizing.dfy` (module `PoolSizing`) holds the `size_t` arithmetic of `init_pool` and `mpool_align`, on `bv64`: the next-power-of-two bit trick, the alignment, and `total_size`.
- `memory_pool.dfy` (module `MemoryPool`) holds:
  - the pool's allocation state machine on values: `Alloc`, `Free`, `Probe` and `Wipe` over a map from offsets to headers;
  - the class `Pool`, whose methods are proved against those functions;
  - lemmas about runs of calls.

Addresses are modelled as offsets from `buffer_start` or `storage_begin`, not as absolute addresses.

Where the code and its description disagree, the model follows the code. There is one exception: `init_pool` and `reset_pool` zero the pool's own fields instead of its arena. The model takes the evidently intended zeroing of the arena instead (see "## Left out"), and the pool behaviour below is the code's with that zeroing.

- `buffer_end` is the offset of the ring's **last** byte (`size - 1`). That byte is never written, so a ring of `size` bytes queues at most `size - 1`, and `free + filled == size - 1`, not `size`. With the ring of `rb_new(8, 1)`, after writing 5 bytes and reading 3, only 5 bytes are free, and a 6-byte write is refused (`SmallRingScenario`).
- With the arena zeroed as intended, how many blocks a pool yields depends on `total_size` and the slot stride `block_size + 16`, not on `amount_entries`:
  - `init_pool(4, 100)` yields three blocks;
  - `init_pool(1, 1)` yields four;
  - `init_pool(4, 16)` yields four.
- An allocation returns `mem + POINTER_OFFSET` on a `struct entry_s*`, i.e. 128 bytes past the header. A free clears `is_use` at `ptr - 2 * cache_size`, so it finds the header only when `cache_size` is 64 (`FreeFindsHeaderIff`). Otherwise it clears a flag elsewhere.
- A free never moves a NULL cursor: once exhausted, the pool stays exhausted until `reset_pool` (`ExhaustedUntilReset`, `ExhaustedScenario`).
- `amount_entries` is `uint32_t` in `src/memory_pool.c`, but `int32_t` in the prototype of `include/memory_pool.h`. The `.c` type is used.
- `switch_next_entry` receives `block_size` as a `uint32_t`, so the stride uses `block_size mod 2^32`.
- The diagnostic counters `alloc_calls`, `free_calls`, `read_calls` and `write_calls` wrap modulo 2^64. The pool's counters are modelled as if `_DEBUG` were set.
- `CacheLineSize()` is a parameter of `InitPool`.

## Model

| member | source | states |
|---|---|---|
| RingBuffer.New | src/ring_buffer.c:18-38 | NULL exactly when either argument is 0. Otherwise a fresh, zero-filled, valid ring of `buffer_len * pointer_size` bytes, with `buffer_end == size - 1`, both cursors at `buffer_start`, nothing unread and the counters 0. |
| RingBuffer.Ring.constructor | src/ring_buffer.c:22-35 | The arena is allocated and zero-filled. `buffer_end` is `size - 1` and both cursors are at `buffer_start`. |
| RingBuffer.Ring.IsFull | src/ring_buffer.c:46-52 | For a valid ring, true iff all `size - 1` usable bytes are unread. |
| RingBuffer.Ring.IsEmpty | src/ring_buffer.c:60-66 | For a valid ring, true iff nothing is unread. An empty ring is never full. |
| RingBuffer.Ring.FreeSpace | src/ring_buffer.c:205-219 | For a valid ring, it equals `size - 1` minus the unread count and lies in `0..size-1`. The "whole buffer is free" branch is never taken. |
| RingBuffer.Ring.FilledSpace | src/ring_buffer.c:227-236 | For a valid ring, it equals the number of unread bytes, and filled + free == `size - 1`. |
| RingBuffer.Ring.Write | src/ring_buffer.c:76-128 | It returns 0 and changes nothing for a non-positive size, a full ring, or more bytes than are free. Otherwise it returns size and appends exactly `data[..size]` to the unread bytes. It moves head forward with wrap-around, keeps tail, sets `round_complete` iff the run reaches `buffer_end`, rewrites only the bytes of that run, and counts the call mod 2^64. A write of exactly the free space leaves the ring full. |
| RingBuffer.Ring.PutAtHead | src/ring_buffer.c:94-127 | The copy phase of rb_write. The buffer becomes the old buffer with `data[..count]` copied in at head, wrapping at `buffer_end`. The head and `round_complete` it returns are those of the advanced cursor. |
| RingBuffer.Ring.CopyIn | src/ring_buffer.c:97 | A memcpy into the arena: the bytes at `at..at+|src|` become `src` and the others are kept. |
| RingBuffer.OverwriteAppends | src/ring_buffer.c:94-127 | If d fits in the free space, copying d in at head and advancing head gives valid cursors, and the unread bytes become the old unread bytes followed by d. |
| RingBuffer.OverwriteAppendsAt | src/ring_buffer.c:102-121 | The k-th unread byte after such a copy is the k-th byte of old-unread followed by d. |
| RingBuffer.OverwriteAt | src/ring_buffer.c:102-121 | After the two-part copy, byte i holds `d[i - at]` in the run up to `buffer_end`, or `d[i + n - at]` in the run continued from `buffer_start`. Every other byte, including the one at `buffer_end`, is kept. |
| RingBuffer.UnreadAt | src/ring_buffer.c:157-187 | The k-th unread byte lies k bytes after tail, wrapping at `buffer_end`. |
| RingBuffer.SpliceAt | src/ring_buffer.c:97 | After a copy of d in at `at`, byte i is `d[i - at]` inside the copied run and the old byte elsewhere. |
| RingBuffer.Ring.Read | src/ring_buffer.c:138-197 | It returns 0 with no bytes and changes nothing on an empty ring, or when more bytes are asked for than are unread. Otherwise it returns size and the size oldest unread bytes, in order, and drops them from the unread bytes. It moves tail forward with wrap-around, clears `round_complete` iff tail wraps, keeps head and the arena, and counts the call mod 2^64. A read of exactly the filled space leaves the ring empty. |
| RingBuffer.Ring.TakeFront | src/ring_buffer.c:157-196 | The copy phase of rb_read. It delivers the count oldest unread bytes and returns tail advanced by count with wrap-around; `round_complete` stays set only if tail does not wrap. |
| RingBuffer.ConsumeFront | src/ring_buffer.c:157-196 | Advancing tail by k, with k at most the unread count, gives valid cursors, and the unread bytes become the old ones without their first k. |
| RingBuffer.FrontBytes | src/ring_buffer.c:168-187 | The k oldest unread bytes are one run from tail, or the run from tail to `buffer_end` followed by a run from `buffer_start`. |
| RingBuffer.Ring.Reset | src/ring_buffer.c:243-250 | Both cursors go to `buffer_start` and `round_complete` is cleared, so the ring is empty. The arena bytes and counters are kept. |
| RingBuffer.SmallRingScenario | src/ring_buffer.c:18-236 | For `rb_new(8, 1)`: writing 5 bytes returns 5; reading 3 returns 3 and `[1, 2, 3]`; free space is then 5, and a 6-byte write returns 0. |
| PoolSizing.Align | src/memory_pool.c:18-20 | The result is a multiple of 8, and (without wrap) the least multiple of 8 that is at least the input. |
| PoolSizing.AlignIdempotent | src/memory_pool.c:18-20 | Aligning twice equals aligning once. |
| PoolSizing.NextPowerOfTwo | src/memory_pool.c:40-47 | For 1 ≤ x ≤ 2^32, the bit trick (decrement, smear the top bit down by shifts of 1 to 16, increment) gives a power of two that is at least x and at most 2^32, and half of it is below x: the smallest power of two not below x. |
| PoolSizing.SmearGivesPower | src/memory_pool.c:40-47 | For 1 ≤ x ≤ 2^32 the smeared `x - 1` plus one is a power of two. |
| PoolSizing.SmearCovers | src/memory_pool.c:40-47 | For 1 ≤ x ≤ 2^32 the smeared `x - 1` plus one lies between x and 2^32. |
| PoolSizing.SmearTight | src/memory_pool.c:40-47 | For 1 ≤ x ≤ 2^32 half of the smeared `x - 1` plus one is below x. |
| PoolSizing.NextPowerOfTwoStopsAt32Bits | src/memory_pool.c:40-47 | Because the shifts stop at 16, the input 2^32 + 1 gives 2^33 - 1, which is not a power of two. |
| PoolSizing.PaddedSize | src/memory_pool.c:40-48 | For a block size up to 2^32 - 16, `padded_size` is the smallest power of two not below block + 16, and at most 2^32. |
| PoolSizing.TotalSize | src/memory_pool.c:56 | `total_size` is a multiple of 8, and it is not zero for any block size up to 2^32 - 16. |
| MemoryPool.InitPool | src/memory_pool.c:30-67 | It returns -1 and changes nothing when `amount_entries` or `ptr_size` is 0, and -2 for a NULL pool. Otherwise it returns 0 and sets: `padded_size` to the power-of-two padding; `block_size`; `entries`; `total_size` to the aligned size of padding + block + one header per entry; `cache_size`; `storage_end` at `total_size`. It also leaves a zeroed arena, the cursor at `storage_begin` and zero counters. The pool is then valid whenever `total_size` is not zero, in particular for every block size up to 2^32 - 16. |
| MemoryPool.Pool.Setup | src/memory_pool.c:48-64 | The assignments of `init_pool` once the sizes are known: every sizing field is set, the arena is zeroed, the cursor is at `storage_begin`, the counters are 0, and the pool is valid when `total_size` is not zero. |
| MemoryPool.Pool.constructor | include/memory_pool.h:20-33 | A zeroed `memory_pool_s` with a NULL cursor. |
| MemoryPool.Pool.SwitchNextEntry | src/memory_pool.c:103-124 | The cursor becomes the single probe: the slot `amount + 16` bytes on if that lies before `storage_end`, else `storage_begin`, provided it is free; otherwise NULL. Headers and layout are unchanged and `alloc_calls` is counted. With the block size as the amount, the cursor stays on the slot grid. |
| MemoryPool.Pool.MallocRef | src/memory_pool.c:133-147 | The new state and result are `Alloc` of the old state. It keeps the pool valid and the layout unchanged, and counts the call only when the cursor was not NULL. |
| MemoryPool.Candidate | src/memory_pool.c:104-114 | The slot `switch_next_entry` probes always lies inside a non-empty arena. It is either `storage_begin` or lies after the cursor. |
| MemoryPool.Probe | src/memory_pool.c:103-124 | A single probe, never a scan. The result is NULL exactly when the candidate's header is in use, whatever other slots are free. Otherwise it is the candidate itself, a free slot inside the arena. |
| MemoryPool.Claim | src/memory_pool.c:141-144 | The header at the cursor records the size, is_use and the payload 128 bytes on, and every other header is kept. |
| MemoryPool.Alloc | src/memory_pool.c:133-147 | A NULL cursor gives NULL and changes nothing. Otherwise: the result is the slot's payload, 128 bytes past its header; that header records is_use, the size and the payload; every other header is kept; the cursor is the probe for the next slot. |
| MemoryPool.Pool.FreeRef | src/memory_pool.c:155-164 | The new state is `Free` of the old state. The cursor and layout are unchanged, and `free_calls` is counted only for a non-NULL pointer. |
| MemoryPool.Free | src/memory_pool.c:155-164 | A NULL pointer changes nothing, and no free moves the cursor. |
| MemoryPool.Release | src/memory_pool.c:159-160 | Only the header `2 * cache_size` bytes before ptr changes, and only its is_use is cleared. |
| MemoryPool.FreeFindsHeaderIff | src/memory_pool.c:144-160 | Freeing the block just allocated at c clears c's in-use flag iff `2 * cache_size` equals the 128-byte payload offset. |
| MemoryPool.Pool.Reset | src/memory_pool.c:85-95 | Every header inside the arena is cleared, the cursor is at `storage_begin`, and the counters are 0. The pool stays valid with its layout unchanged. |
| MemoryPool.Wipe | src/memory_pool.c:89 | Every header inside the arena reads as zeroed, and headers outside it are kept. |
| MemoryPool.ProbeStaysOnGrid | src/memory_pool.c:105-123 | A probe from a cursor on the grid of stride `amount + 16` gives NULL or another slot start on that grid inside the arena. |
| MemoryPool.ProbeDoesNotScan | src/memory_pool.c:105-123 | In a 296-byte arena of 116-byte slots, with slot 116 taken and slot 232 free, the probe from slot 0 gives NULL: it does not scan on. |
| MemoryPool.FreshStep | src/memory_pool.c:133-147 | After k allocations from a fresh arena, one more allocation claims slot k when it lies before `storage_end`, and moves the cursor to slot k + 1, or to NULL once the probe wraps onto the taken slot 0. |
| MemoryPool.FreshRun | src/memory_pool.c:103-147 | From a free arena with the cursor at `storage_begin`, the j-th of m allocations returns the payload of slot `j * (block + 16)` while that slot starts before `storage_end`, and NULL after. Exactly the slots handed out are in use. |
| MemoryPool.FreshPtrsExtend | src/memory_pool.c:146 | Extending the pointers of a fresh run by the next allocation's pointer keeps them as `FreshRun` describes. |
| MemoryPool.ExhaustedUntilReset | src/memory_pool.c:137-164 | From a NULL cursor, any sequence of allocations and frees leaves the cursor NULL, and every allocation returns NULL. |
| MemoryPool.FourEntriesOf100Bytes | src/memory_pool.c:40-56 | `init_pool(4, 100)` gives `total_size` 296, and four allocations give 128, 244, 360 and NULL. |
| MemoryPool.FourEntriesOf16Bytes | src/memory_pool.c:40-56 | `init_pool(4, 16)` gives `total_size` 112, and five allocations give 128, 160, 192, 224 and NULL. |
| MemoryPool.OneEntryOf1Byte | src/memory_pool.c:40-56 | `init_pool(1, 1)` gives `total_size` 56, and five allocations give 128, 145, 162, 179 and NULL. |
| MemoryPool.FourEntriesScenario | src/memory_pool.c:30-147 | Through the `Pool` methods, `init_pool(4, 100)` returns 0, and four `malloc_ref(10)` calls return 128, 244, 360 and NULL. |
| MemoryPool.ExhaustedScenario | src/memory_pool.c:30-164 | With `init_pool(1, 16)` and a 64-byte cache line: the first two allocations return 128 and 160. After freeing the first, a third returns NULL; after `reset_pool`, the next returns 128 again. |

## Left out

- `printf` diagnostics are output only and have no effect on state.
- `rb_release` and `free_pool` are left out. They only return memory to the platform allocator, and arena lifetime and deallocation are not modelled.
- The platform allocators (`malloc`, `_aligned_malloc`) are modelled as always succeeding: the NULL return of `malloc` in `rb_new` and a failed arena allocation are not modelled. The arena's alignment to `padded_size` is not modelled either.
- `CacheLineSize()` is a foreign call. Its value is the `cacheSize` parameter of `InitPool`.
- The exported wrappers `malloc_ref` and `free_ref`, and the `DISABLE_MEMORY_POOLING` pass-through macros, are left out: the model is of `_malloc_ref_internal` and `_free_ref_internal`.
- MemoryPool.Pool.MallocRef: requires a size below 2^32, the `uint32_t` of `_malloc_ref_internal`; the `size_t` to `uint32_t` truncation in `malloc_ref` is not modelled.
- The NULL checks on the pool in `_malloc_ref_internal`, `_free_ref_internal` and `reset_pool`, and on rb or data in the ring functions, are not modelled: methods are called on an existing object. A NULL pool is modelled only in `InitPool`.
- RingBuffer.New: requires the product `buffer_len * pointer_size` to be below 2^32 and not 1. It does not model the `unsigned int` wrap of the product. A 1-byte ring, whose `buffer_end` would be its start, is excluded.
- RingBuffer.Ring.Read: requires a non-negative size. `rb_read` does not reject a negative size, and a negative size would make `memcpy` read out of bounds.
- RingBuffer.Ring.Write: requires `size <= |data|`: the caller's data must hold the bytes to copy, as the `memcpy` demands.
- `init_pool` (line 61) and `reset_pool` (line 89) pass `&storage_begin`, the address of the pool's first field, to `memset`. As written they zero `total_size` bytes starting at the `memory_pool` structure itself, not the arena. That includes `storage_begin`, so the following assignment (line 63 or 90) makes `next_free_location` NULL. The literal code therefore hands out no block at all: every `_malloc_ref_internal` returns NULL at lines 137-139. The model instead zeroes the arena, as evidently intended, which is what `MemoryPool.InitPool`, `MemoryPool.Pool.Reset` and everything built on them promise. The overwrite of the pool structure and of the memory after it is not modelled.
- `free_pool` passes `&storage_begin` to `_aligned_free`. It is not part of this model.
- Payload bytes are not modelled: headers are a map from offsets. A free whose `ptr - 2 * cache_size` is off the slot grid clears a header recorded at that offset, and does not model a partial overwrite of the bytes of neighbouring headers or payloads. A claimed slot's payload may extend past `storage_end`; this overrun of the arena is not modelled.
- MemoryPool.Alloc, MemoryPool.Probe: a slot's 16-byte header, and the `is_use` byte the probe reads, may lie partly or wholly past `storage_end`. The model treats that memory as zeroed headers. In `init_pool(1, 1)` the fourth slot's header, at bytes 51 to 66 of a 56-byte arena, is written past the arena. In `init_pool(2, 10)`, an 80-byte arena with 26-byte slots, the probe after the third allocation reads `is_use` at byte 82. That is memory beyond the allocated arena, whose contents the C code does not determine. The model reads a free header there, so its fourth allocation succeeds.
- Addresses are offsets: `uintptr_t` overflow of absolute addresses is not modelled.
- PoolSizing.TotalSize: is proved aligned and non-zero, but has no general bound relating it to one slot or to the entry count; `MemoryPool.InitPool` sets `total_size` to it. Such bounds are proved only for the concrete layouts above (`FourEntriesOf100Bytes`, `FourEntriesOf16Bytes`, `OneEntryOf1Byte`).
- MemoryPool.Pool.Reset: keeps headers recorded outside the arena, which a stray free may have created; the zeroing covers only the `total_size` bytes of the arena.
- The ring's byte copies are modelled as `CopyIn` (a `forall` assignment) and as sequence slices. The `memory` output buffer of `rb_read` is a returned sequence, not an array the caller passes.
- Concurrency: both primitives are single-threaded, and nothing about concurrent use is modelled.

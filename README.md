# Fixed-size memory pool

A Dafny model of the allocator in `memory_pool.cpp`, with proofs about it. The allocator has two layers:

- **`MemoryPool`** hands out fixed-size chunks. It carves chunks from large blocks obtained with `new char[]` and keeps returned chunks on an intrusive LIFO free list.
- **`TypedMemoryPool<T>`** owns one `MemoryPool` sized for `T`. It constructs objects in the chunks (`make`) and destroys them (`destroy`).

The model has four modules.

- **`Sizing`** (`sizing.dfy`) holds the pure arithmetic:
  - the effective chunk size (`getAssignment` applied to `max(sizeof(Chunk*), chunk_size)`);
  - the block size;
  - the padding that places a block's first chunk on a chunk boundary;
  - the bounds of a block's chunk region.

  Each defective formula appears twice: once exactly as written, with a lemma that exhibits the defect, and once corrected, with the intended property proved.
- **`Pool`** (`memory_pool.dfy`) is the `MemoryPool` class. Its fields are the sizes, the block list `blocks` (newest first), the cursors `currentChunk` and `lastChunk`, and the free list `freeChunks` (head first). Ghost state records two things: the set of slots lent out, and, for every slot ever carved, the block it came from.

  The invariant `Valid()` states:
  - the blocks do not overlap;
  - the cursors bound the virgin tail of the newest block;
  - every carved slot is either on the free list (once) or outstanding, never both;
  - no carved slot lies in the virgin region;
  - every carved slot is a chunk-aligned slot inside its block.

  Every operation except the destructor's block walk preserves `Valid()`, and each states its new state exactly.
- **`TypedPool`** (`typed_memory_pool.dfy`) is `TypedMemoryPool<T>`. The value each live object was built from is kept in a ghost map whose keys are exactly the pool's outstanding slots. Whether `T`'s constructor or destructor throws is a boolean input.
- **`Scenarios`** (`scenarios.dfy`) runs short call sequences on fresh pools:
  - the first allocation;
  - LIFO reuse after `deallocate`;
  - reuse of the slot a failed `make` gave back;
  - a second block reserved exactly when the first block's `chunks_per_block_` slots are used up.

Addresses are unbounded naturals, and 0 is the null pointer. The target is a 64-bit machine, where a `Chunk*` and a `Block*` are 8 bytes. `new char[block_size_]` is not modelled: the address it returns is a parameter (`newBlock`) of the operations that may reserve a block. The caller must supply a non-null block that overlaps none of the pool's blocks, which is the guarantee `operator new` gives.

The pool class uses the corrected chunk-size rounding and the corrected block size (see Findings). For the typed pool the rounding correction makes no difference. `sizeof(T)` is a positive multiple of the power-of-two `alignof(T)`, so both roundings give `max(8, sizeof(T))`. The typed constructor's contract states this.

## Model

| member | source | states |
|---|---|---|
| Sizing.GetAssignment | memory_pool.cpp:54-59 | `getAssignment` as written: an aligned size is kept; otherwise the result is the size with its remainder dropped and its quotient added, `size - size % align + size / align`, which is not a round-up |
| Sizing.GetAssignmentKeepsMultiples | memory_pool.cpp:54-57 | a size that is already a multiple of the alignment is returned unchanged |
| Sizing.ChunkSizeAsWritten | memory_pool.cpp:82 | the constructor's chunk size as written: `max(8, request)` when that is aligned, and 0 when both the request and the pointer width are below the alignment |
| Sizing.GetAssignmentMisrounds | memory_pool.cpp:58 | the as-written rounding is wrong: 12 bytes at alignment 8 become 9 bytes, which is unaligned and smaller than the request; the constructor's chunk size for an 8-byte request at alignment 16 is 0 |
| Sizing.RoundUp | memory_pool.cpp:54-59 | the corrected rounding: the result is a multiple of the alignment, at least the size and less than one alignment above it; an aligned size is returned unchanged |
| Sizing.ChunkSize | memory_pool.cpp:82 | the corrected chunk size holds a free-list link (at least 8 bytes), is at least the requested size, is a multiple of the alignment, and is less than one alignment above `max(8, request)` |
| Sizing.ChunkSizeAgreesOnMultiples | memory_pool.cpp:54-57 | when `max(8, request)` is already aligned, the as-written and corrected chunk sizes both equal it |
| Sizing.TypedChunkSizeExact | memory_pool.cpp:82 | for a positive size that is a multiple of a power-of-two alignment, the as-written and corrected chunk sizes both equal `max(8, size)` |
| Sizing.BlockSizeAsWritten | memory_pool.cpp:87 | `block_size_` as written, rearranged as the 8-byte header, `chunks_per_block_` chunks and one extra byte per chunk; what this size does and does not hold is proved in Sizing.WrittenRegionFitsIff |
| Sizing.BlockSize | memory_pool.cpp:86-87 | `block_size_` as the comment intends, rearranged as the 8-byte header, `chunks_per_block_` chunks and one extra chunk for the alignment padding; that this size always holds the chunk region is proved in Sizing.RegionFitsBlock |
| Sizing.Padding | memory_pool.cpp:106-107 | the padding after a block's header is between 1 and one chunk, and the first chunk lands on a multiple of the chunk size |
| Sizing.RegionStart | memory_pool.cpp:103-110 | the first chunk of a block is chunk-aligned and lies strictly after the 8-byte header, at most one chunk further on |
| Sizing.RegionEnd | memory_pool.cpp:111 | the end of a block's region is chunk-aligned and exactly `chunks_per_block_` chunks past its start |
| Sizing.RegionFitsBlock | memory_pool.cpp:86-87 | with one extra chunk reserved per block, as the comment intends, the whole chunk region lies inside the block wherever the block is placed |
| Sizing.WrittenRegionFitsIff | memory_pool.cpp:87 | with the as-written block size, the region fits inside the block if and only if the padding is at most `chunks_per_block_` bytes |
| Sizing.WrittenRegionOverruns | memory_pool.cpp:87 | when the header ends on a chunk boundary and there are fewer chunks per block than bytes per chunk, the region overruns the as-written block |
| Sizing.WrittenRegionOverrunsAt16 | memory_pool.cpp:87 | a 12-byte chunk with 10 chunks per block, in a 16-byte aligned block at address 16, overruns the as-written block |
| Pool.MemoryPool.constructor | memory_pool.cpp:77-94 | sizes fixed (corrected chunk size and block size), no block, null cursors, empty free list, invariant established |
| Pool.MemoryPool.AllocateBlock | memory_pool.cpp:97-112 | the new block is prepended to the block list; the first chunk is chunk-aligned with padding of 1 to `chunk_size_` bytes; the region holds exactly `chunks_per_block_` chunks and lies inside the block; free list and outstanding slots unchanged; invariant kept |
| Pool.MemoryPool.Allocate | memory_pool.cpp:115-134 | the result is the next slot: the free-list head if there is one (popped; blocks and cursors unchanged), otherwise the virgin cursor (advanced by one chunk), after reserving a new block only when the region is exhausted; the result is non-null, aligned and not already outstanding; invariant kept |
| Pool.MemoryPool.PopFreeList | memory_pool.cpp:117-123 | the free-list head is returned, its link becomes the new head, nothing else changes |
| Pool.MemoryPool.CarveVirgin | memory_pool.cpp:128-133 | the cursor slot is returned and the cursor moves on by exactly `chunk_size_`; blocks, last chunk and free list unchanged |
| Pool.MemoryPool.Deallocate | memory_pool.cpp:137-142 | null changes nothing; otherwise the slot becomes the free-list head with the old list as its tail; blocks and cursors unchanged; invariant kept |
| Pool.MemoryPool.ReleaseBlocks | memory_pool.cpp:145-152 | the destructor's walk visits each block once, newest first, in link order, and leaves the block list empty |
| Pool.MemoryPool.SlotStatesDisjoint | memory_pool.cpp:115-142 | no slot is both free and outstanding, and a slot in the virgin region is neither |
| Pool.MemoryPool.OutstandingSlotsDisjoint | memory_pool.cpp:115-142 | two different outstanding slots do not overlap |
| Pool.MemoryPool.OutstandingSlotInBlock | memory_pool.cpp:97-134 | every outstanding slot lies inside one of the pool's blocks, past its header |
| Pool.StateAfterNewBlock | memory_pool.cpp:97-112 | reserving a non-overlapping block and pointing the cursors at its region keeps the pool invariant |
| Pool.StateAfterPop | memory_pool.cpp:117-123 | popping the free-list head into the outstanding set keeps the invariant; the head is non-null, aligned and not outstanding |
| Pool.StateAfterCarve | memory_pool.cpp:128-133 | carving the cursor slot keeps the invariant; the slot is non-null, aligned and not outstanding |
| Pool.StateAfterPush | memory_pool.cpp:137-142 | pushing an outstanding slot onto the free list keeps the invariant |
| TypedPool.TypedMemoryPool.constructor | memory_pool.cpp:155-158 | the pool is built from `sizeof(T)` and `alignof(T)`; its chunk size is `max(8, sizeof(T))` under both roundings; there are no live objects |
| TypedPool.TypedMemoryPool.Make | memory_pool.cpp:161-173 | if construction throws, the result is null, no object exists and the slot `allocate` produced is back at the free-list head; otherwise the result is exactly the slot `allocate` produced, non-null and aligned, now holding a new object; in both cases the free list, blocks and cursor are stated as `allocate` (then `deallocate`) leaves them |
| TypedPool.TypedMemoryPool.ConstructInSlot | memory_pool.cpp:163-166 | the successful `make`: the object occupies the slot `allocate` produced, with the pool changed exactly as by `allocate` |
| TypedPool.TypedMemoryPool.ConstructionThrows | memory_pool.cpp:163-171 | the failing `make`: the allocated slot is the free-list head, no object is added, and an old non-empty free list is restored exactly; with an empty old free list the cursor stays one chunk past the returned slot |
| TypedPool.TypedMemoryPool.Destroy | memory_pool.cpp:176-184 | null changes nothing; otherwise the object is gone and its slot becomes the free-list head whether or not the destructor throws; blocks and cursors unchanged |
| Scenarios.FirstAllocation | memory_pool.cpp:90-93 | a fresh pool's first `allocate` reserves exactly one block and returns its first chunk boundary, which is aligned and lies inside that block |
| Scenarios.ReuseAfterDeallocate | memory_pool.cpp:115-142 | `deallocate(p)` followed by `allocate()` returns `p` and reserves no further block |
| Scenarios.AllocationBeyondOneBlock | memory_pool.cpp:125-133 | on a fresh pool with no `deallocate`, the first `chunks_per_block_` allocations use one block, and the next reserves a second block and returns its first slot |
| Scenarios.AllocateRemaining | memory_pool.cpp:125-133 | with an empty free list, `left` allocations use up exactly the `left` remaining virgin slots of the newest block without reserving a block |
| Scenarios.MakeAfterFailedMake | memory_pool.cpp:161-173 | after a `make` whose constructor throws, the next `make` uses the same slot (the first slot of the only block) |

## Left out

- `main`, `DummyPoint` and the `printf` calls (the destructor's debug print included): they are a demonstration driver and output.
- Real memory:
  - `new char[]` is modelled by a parameter. Neither it nor `delete[]` is modelled.
  - The `reinterpret_cast` storage of links inside blocks and chunks is not modelled. Links are sequence order: `blocks[i + 1]` is the block that `blocks[i]` points to, and `freeChunks[i + 1]` is the free chunk that `freeChunks[i]` points to.
  - The contents of constructed objects are not modelled. A `T` is represented only by the value it was made from.
- Pool.MemoryPool.ReleaseBlocks: the model returns the sequence of blocks it frees; it does not express that their memory is actually returned to the system.
- `uintptr_t` and pointer wrap-around: addresses are unbounded naturals, so the case of a block placed at the very top of the address space is not modelled.
- `size_t` overflow: sizes are unbounded naturals, so a `block_size_` (line 87) or chunk size too large for 64 bits does not wrap in the model.
- `std::bad_alloc` from `new char[]` is not modelled; the model assumes allocation succeeds. Exceptions not derived from `std::exception` pass straight through the `catch` clauses. A throwing constructor or destructor is therefore modelled as one that throws a `std::exception`. Since C++11 a destructor is implicitly `noexcept`, so an exception from `ptr->~T()` (line 180) calls `std::terminate` and the `catch` on line 181 is never reached. The `destructionFails` input of `Destroy` therefore models only a `T` whose destructor is declared `noexcept(false)`.
- `std::unique_ptr` ownership, `std::forward` and the variadic constructor arguments: `make` receives the value to construct from.
- The `blockSize` parameter of `allocateBlock` is unused by the source and is not modelled.
- Threads: the pool is single-threaded.
- Pool.MemoryPool.constructor: it uses Sizing.ChunkSize and Sizing.BlockSize, the corrected formulas, not the as-written ones. The as-written versions are modelled and their defects proved in `Sizing` (see Findings).
- TypedPool.TypedMemoryPool.constructor: the typed pool inherits the corrected block size `8 + chunk_size_ * (n + 1)`, not line 87's `8 + (chunk_size_ + 1) * n`. For a 12-byte `T` with 10 chunks per block the model's block is 140 bytes where the source's is 138, so the overrun in the second Findings row is shown in `Sizing`, not by the typed pool.
- Pool.MemoryPool.constructor: the precondition requires a non-zero alignment and at least one chunk per block. The source checks neither. With alignment 0 `getAssignment` divides by zero. With 0 chunks per block every `allocate` reserves a new block and returns `current_chunk_ == last_chunk_`, a slot outside the block's chunk region. These inputs are not modelled.
- Pool.MemoryPool.SlotStatesDisjoint: the invariant guarantees that a slot is in at most one of the free list, the virgin region and the outstanding set. It does not guarantee that every chunk boundary of a block's region is in one of them, so the invariant alone does not rule out a leaked slot. Coverage of the older blocks' regions is not modelled.
- Pool.MemoryPool.Deallocate: the precondition requires a null pointer or an outstanding slot. The source is undefined for a foreign pointer or a double free.

## Findings

| source | as written | input that shows it | evidently intended | confidence | as-written member | corrected member |
|---|---|---|---|---|---|---|
| memory_pool.cpp:58 | `chunk_size / chunk_alignment * (chunk_alignment + 1)` | size 12, alignment 8 gives 9, which is unaligned and smaller than 12. `MemoryPool(8, 16, n)` gets chunk size 0 | round up to the next multiple of the alignment: `(size / align + 1) * align` | high, by proof; not executed | Sizing.GetAssignmentMisrounds | Sizing.RoundUp |
| memory_pool.cpp:87 | `sizeof(Block*) + (chunk_size_ + 1) * initial_chunks_per_block`: one extra byte per chunk | a 12-byte `T` with 10 chunks per block gives a 138-byte block. For a 16-byte aligned block at address 16, the padding is 12 and the region ends at 156, 2 bytes past the block's end at 154 | reserve one extra chunk, as the comment on line 86 says: `sizeof(Block*) + chunk_size_ * (initial_chunks_per_block + 1)` | high, by proof; not executed | Sizing.WrittenRegionOverrunsAt16 | Sizing.RegionFitsBlock |

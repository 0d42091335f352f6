/** Short call sequences on freshly constructed pools, with what the pools
    promise about them: the first `allocate` of a fresh pool reserves exactly
    one block and hands out its first slot, a deallocated slot is the next
    one allocated, and a slot given back by a failed `make` is the one the
    next `make` uses. */
module Scenarios {
  import opened Sizing
  import opened Pool
  import opened TypedPool

  /** A fresh pool holds no block, so its first `allocate` reserves the
      block at `newBlock` and returns the first chunk boundary past its
      header. */
  method FirstAllocation(request: nat, align: nat, chunksPerBlock: nat, newBlock: nat)
    returns (p: nat, blockCount: nat)
    requires align > 0 && chunksPerBlock >= 1 && newBlock > 0
    ensures blockCount == 1
    ensures p == RegionStart(newBlock, ChunkSize(request, align))
    ensures p % align == 0
    ensures newBlock + PointerWidth < p
    ensures p + ChunkSize(request, align) <= newBlock + BlockSize(ChunkSize(request, align), chunksPerBlock)
  {
    var pool := new MemoryPool(request, align, chunksPerBlock);
    p := pool.Allocate(newBlock);
    blockCount := |pool.blocks|;
    RegionFitsBlock(newBlock, pool.chunkSize, chunksPerBlock);
    MulAtLeast(chunksPerBlock, pool.chunkSize);
  }

  /** LIFO reuse: `deallocate(p)` followed by `allocate()` returns `p`
      again, and no second block is reserved even when one is offered. */
  method ReuseAfterDeallocate(request: nat, align: nat, chunksPerBlock: nat, newBlock: nat, spareBlock: nat)
    returns (p: nat, q: nat, blockCount: nat)
    requires align > 0 && chunksPerBlock >= 1 && newBlock > 0
    requires FitsBeside(spareBlock, [newBlock], BlockSize(ChunkSize(request, align), chunksPerBlock))
    ensures p > 0 && q == p
    ensures blockCount == 1
  {
    var pool := new MemoryPool(request, align, chunksPerBlock);
    p := pool.Allocate(newBlock);
    pool.Deallocate(p);
    q := pool.Allocate(spareBlock);
    blockCount := |pool.blocks|;
  }

  /** A `make` whose constructor throws returns null; the next `make`
      constructs its object in exactly the slot the failed one allocated,
      the first slot of the only block. */
  method MakeAfterFailedMake<T>(first: T, second: T, valueSize: nat, valueAlignment: nat,
                                chunksPerBlock: nat, newBlock: nat, spareBlock: nat)
    returns (failed: nat, obj: nat, blockCount: nat)
    requires valueSize > 0 && IsPowerOfTwo(valueAlignment) && valueSize % valueAlignment == 0
    requires chunksPerBlock >= 1 && newBlock > 0
    requires FitsBeside(spareBlock, [newBlock], BlockSize(Max(PointerWidth, valueSize), chunksPerBlock))
    ensures failed == 0
    ensures obj == RegionStart(newBlock, Max(PointerWidth, valueSize))
    ensures blockCount == 1
  {
    var pool := new TypedMemoryPool<T>(valueSize, valueAlignment, chunksPerBlock);
    failed := pool.Make(first, true, newBlock);
    obj := pool.Make(second, false, spareBlock);
    blockCount := |pool.pool.blocks|;
  }

  /** Without a `deallocate` in between, the first `chunks_per_block_`
      allocations of a fresh pool are carved from one block, and the next
      one reserves a second block and returns that block's first slot. */
  method AllocationBeyondOneBlock(request: nat, align: nat, chunksPerBlock: nat,
                                  firstBlock: nat, secondBlock: nat)
    returns (countBefore: nat, countAfter: nat, p: nat)
    requires align > 0 && chunksPerBlock >= 1 && firstBlock > 0
    requires FitsBeside(secondBlock, [firstBlock], BlockSize(ChunkSize(request, align), chunksPerBlock))
    ensures countBefore == 1 && countAfter == 2
    ensures p == RegionStart(secondBlock, ChunkSize(request, align))
  {
    var pool := new MemoryPool(request, align, chunksPerBlock);
    var q := pool.Allocate(firstBlock);
    StepsLeft(chunksPerBlock - 1, pool.chunkSize);
    AllocateRemaining(pool, chunksPerBlock - 1, secondBlock);
    countBefore := |pool.blocks|;
    p := pool.Allocate(secondBlock);
    countAfter := |pool.blocks|;
  }

  /** Allocates the `left` virgin slots that remain in the newest block of
      a pool with an empty free list; afterwards the virgin region is
      exhausted and no block has been added. */
  method AllocateRemaining(pool: MemoryPool, left: nat, spareBlock: nat)
    requires pool.Valid() && pool.freeChunks == []
    requires pool.lastChunk == pool.currentChunk + left * pool.chunkSize
    requires pool.AcceptableBlock(spareBlock)
    modifies pool
    ensures pool.Valid() && pool.freeChunks == [] && pool.blocks == old(pool.blocks)
    ensures pool.currentChunk == pool.lastChunk == old(pool.lastChunk)
  {
    var k := left;
    while k > 0
      invariant pool.Valid() && pool.freeChunks == [] && pool.blocks == old(pool.blocks)
      invariant pool.lastChunk == pool.currentChunk + k * pool.chunkSize
      invariant pool.lastChunk == old(pool.lastChunk)
      decreases k
    {
      StepsLeft(k - 1, pool.chunkSize);
      var q := pool.Allocate(spareBlock);
      k := k - 1;
    }
  }

  /** `k + 1` chunks are one chunk more than `k` chunks. */
  lemma StepsLeft(k: nat, chunkSize: nat)
    requires chunkSize > 0
    ensures (k + 1) * chunkSize == k * chunkSize + chunkSize
    ensures (k + 1) * chunkSize > 0
  {
  }
}

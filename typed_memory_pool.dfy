/** `TypedMemoryPool<T>`: one owned `MemoryPool` sized for `T`, with object
    construction and destruction layered on its slots.

    The value a `T` is constructed from is kept abstractly, per slot, in
    `objects`; whether `T`'s constructor or destructor throws is an input. */
module TypedPool {
  import opened Sizing
  import opened Pool

  class TypedMemoryPool<T> {
    /** `memory_pool_`: the untyped pool this one owns. */
    const pool: MemoryPool
    /** The live objects: each slot that holds a constructed `T`, with the
        value it was constructed from. */
    ghost var objects: map<nat, T>

    /** Every outstanding slot of the owned pool holds a live object and no
        other slot does. */
    ghost predicate Valid()
      reads this, pool
    {
      pool.Valid() && objects.Keys == pool.outstanding
    }

    /** `TypedMemoryPool(initial_chunks_per_block)` builds its pool from
        `sizeof(T)` and `alignof(T)`. In C++ the size is a positive multiple
        of the alignment, which is a power of two, so the chunk size is
        `max(sizeof(Chunk*), sizeof(T))` under the as-written rounding too. */
    constructor (valueSize: nat, valueAlignment: nat, initialChunksPerBlock: nat)
      requires valueSize > 0 && IsPowerOfTwo(valueAlignment) && valueSize % valueAlignment == 0
      requires initialChunksPerBlock >= 1
      ensures Valid() && fresh(pool)
      ensures pool.chunkSize == Max(PointerWidth, valueSize) == ChunkSizeAsWritten(valueSize, valueAlignment)
      ensures pool.alignment == valueAlignment && pool.chunksPerBlock == initialChunksPerBlock
      ensures pool.blocks == [] && pool.currentChunk == 0 && pool.lastChunk == 0
      ensures pool.freeChunks == [] && objects == map[]
    {
      TypedChunkSizeExact(valueSize, valueAlignment);
      pool := new MemoryPool(valueSize, valueAlignment, initialChunksPerBlock);
      objects := map[];
    }

    /** `make`: takes a slot from the pool and constructs a `T` from `value`
        in it. If the constructor throws (`constructionFails`) the result is
        null and the slot goes straight back to the head of the free list;
        otherwise the result is exactly the slot `allocate` produced, now
        holding a live object. `newBlock` is the block `allocate` reserves if
        it needs one. */
    method Make(value: T, constructionFails: bool, newBlock: nat) returns (obj: nat)
      requires Valid() && pool.AcceptableBlock(newBlock)
      modifies this, pool
      ensures Valid()
      ensures constructionFails ==>
        && obj == 0 && objects == old(objects)
        && pool.freeChunks != [] && pool.freeChunks[0] == old(pool.NextSlot(newBlock))
      ensures constructionFails && old(pool.freeChunks) != [] ==>
        && pool.freeChunks == old(pool.freeChunks) && pool.blocks == old(pool.blocks)
        && pool.currentChunk == old(pool.currentChunk) && pool.lastChunk == old(pool.lastChunk)
      ensures constructionFails && old(pool.freeChunks) == [] ==>
        && pool.freeChunks == [old(pool.NextSlot(newBlock))]
        && pool.currentChunk == old(pool.NextSlot(newBlock)) + pool.chunkSize
        && pool.blocks == (if old(pool.currentChunk) < old(pool.lastChunk) then old(pool.blocks)
                           else [newBlock] + old(pool.blocks))
      ensures !constructionFails ==>
        && obj == old(pool.NextSlot(newBlock)) && obj != 0 && obj % pool.alignment == 0
        && obj !in old(objects) && objects == old(objects)[obj := value]
      ensures !constructionFails && old(pool.freeChunks) != [] ==>
        && pool.freeChunks == old(pool.freeChunks)[1..] && pool.blocks == old(pool.blocks)
        && pool.currentChunk == old(pool.currentChunk) && pool.lastChunk == old(pool.lastChunk)
      ensures !constructionFails && old(pool.freeChunks) == [] ==>
        && pool.freeChunks == [] && pool.currentChunk == obj + pool.chunkSize
        && pool.blocks == (if old(pool.currentChunk) < old(pool.lastChunk) then old(pool.blocks)
                           else [newBlock] + old(pool.blocks))
    {
      if constructionFails {
        ConstructionThrows(newBlock);
        obj := 0;
      } else {
        obj := ConstructInSlot(value, newBlock);
      }
    }

    /** The successful branch of `make`: the allocated slot now holds an
        object built from `value`. */
    method ConstructInSlot(value: T, newBlock: nat) returns (obj: nat)
      requires Valid() && pool.AcceptableBlock(newBlock)
      modifies this, pool
      ensures Valid()
      ensures obj == old(pool.NextSlot(newBlock)) && obj != 0 && obj % pool.alignment == 0
      ensures obj !in old(objects) && objects == old(objects)[obj := value]
      ensures old(pool.freeChunks) != [] ==>
        && pool.freeChunks == old(pool.freeChunks)[1..] && pool.blocks == old(pool.blocks)
        && pool.currentChunk == old(pool.currentChunk) && pool.lastChunk == old(pool.lastChunk)
      ensures old(pool.freeChunks) == [] ==>
        && pool.freeChunks == [] && pool.currentChunk == obj + pool.chunkSize
        && pool.blocks == (if old(pool.currentChunk) < old(pool.lastChunk) then old(pool.blocks)
                           else [newBlock] + old(pool.blocks))
    {
      obj := pool.Allocate(newBlock);
      objects := objects[obj := value];
    }

    /** The failing branch of `make`: the constructor throws, the slot is
        handed back with `deallocate`, and no object exists. */
    method ConstructionThrows(newBlock: nat)
      requires Valid() && pool.AcceptableBlock(newBlock)
      modifies pool
      ensures Valid() && objects == old(objects)
      ensures pool.freeChunks != [] && pool.freeChunks[0] == old(pool.NextSlot(newBlock))
      ensures old(pool.freeChunks) != [] ==>
        && pool.freeChunks == old(pool.freeChunks) && pool.blocks == old(pool.blocks)
        && pool.currentChunk == old(pool.currentChunk) && pool.lastChunk == old(pool.lastChunk)
      ensures old(pool.freeChunks) == [] ==>
        && pool.freeChunks == [old(pool.NextSlot(newBlock))]
        && pool.currentChunk == old(pool.NextSlot(newBlock)) + pool.chunkSize
        && pool.blocks == (if old(pool.currentChunk) < old(pool.lastChunk) then old(pool.blocks)
                           else [newBlock] + old(pool.blocks))
    {
      ghost var live := pool.outstanding;
      var mem := pool.Allocate(newBlock);
      pool.Deallocate(mem);
      assert pool.outstanding == live;
    }

    /** `destroy`: a null pointer changes nothing. Otherwise the object's
        destructor runs and, whether or not it throws (`destructionFails`,
        which the handler swallows), the slot becomes the head of the free
        list. */
    method Destroy(obj: nat, destructionFails: bool)
      requires Valid() && (obj == 0 || obj in objects)
      modifies this, pool
      ensures Valid()
      ensures obj == 0 ==> objects == old(objects) && pool.freeChunks == old(pool.freeChunks)
      ensures obj != 0 ==> objects == old(objects) - {obj} && pool.freeChunks == [obj] + old(pool.freeChunks)
      ensures pool.blocks == old(pool.blocks)
      ensures pool.currentChunk == old(pool.currentChunk) && pool.lastChunk == old(pool.lastChunk)
    {
      if obj != 0 {
        objects := objects - {obj};
        pool.Deallocate(obj);
      }
    }
  }
}

/** The untyped fixed-size pool `MemoryPool`: a list of blocks, the virgin
    region of the newest block, and an intrusive LIFO free list.

    Addresses are naturals and 0 is the null pointer. The memory that
    `new char[block_size_]` returns is a parameter of the operations that
    may need a new block. */
module Pool {
  import opened Sizing

  class MemoryPool {
    /** `chunk_size_`: bytes per slot. */
    const chunkSize: nat
    /** The `chunk_alignment` the pool was constructed with. */
    ghost const alignment: nat
    /** `chunks_per_block_`. */
    const chunksPerBlock: nat
    /** `block_size_`: bytes reserved per block. */
    const blockSize: nat

    /** The block list headed by `current_block_`: blocks[0] is the newest
        block and blocks[i + 1] is the block that blocks[i]'s header links to. */
    var blocks: seq<nat>
    /** `current_chunk_`: the next virgin slot. */
    var currentChunk: nat
    /** `last_chunk_`: one past the last slot of the newest block. */
    var lastChunk: nat
    /** The free list headed by `free_chunks_`: freeChunks[0] is the head and
        freeChunks[i + 1] is the link stored in slot freeChunks[i]. */
    var freeChunks: seq<nat>

    /** Slots lent to callers and not yet returned. */
    ghost var outstanding: set<nat>
    /** Every slot ever taken from a virgin region, with the block it lies in. */
    ghost var carved: map<nat, nat>

    /** The pool's invariant: the sizes are consistent, the blocks do not
        overlap, the cursors bound the virgin tail of the newest block, and
        every carved slot is in exactly one of the free list and the
        outstanding set and outside the virgin region. */
    ghost predicate Valid()
      reads this
    {
      && SizesValid(chunkSize, alignment, chunksPerBlock, blockSize)
      && StateValid(chunkSize, chunksPerBlock, blockSize, blocks, currentChunk, lastChunk,
                    freeChunks, outstanding, carved)
    }

    /** What `new char[block_size_]` may return: a non-null range that
        overlaps no block the pool already holds. */
    ghost predicate AcceptableBlock(newBlock: nat)
      reads this
    {
      FitsBeside(newBlock, blocks, blockSize)
    }

    /** The slot the next `allocate` hands out, where `newBlock` is the block
        it would reserve if it needs one. */
    ghost function NextSlot(newBlock: nat): nat
      reads this
      requires chunkSize > 0
    {
      if freeChunks != [] then freeChunks[0]
      else if currentChunk < lastChunk then currentChunk
      else RegionStart(newBlock, chunkSize)
    }

    /** `MemoryPool(chunk_size, chunk_alignment, initial_chunks_per_block)`:
        fixes the sizes and starts with no block, null cursors and an empty
        free list. The chunk size uses the corrected rounding. */
    constructor (chunkSizeRequest: nat, chunkAlignment: nat, initialChunksPerBlock: nat)
      requires chunkAlignment > 0 && initialChunksPerBlock >= 1
      ensures Valid()
      ensures chunkSize == ChunkSize(chunkSizeRequest, chunkAlignment)
      ensures alignment == chunkAlignment && chunksPerBlock == initialChunksPerBlock
      ensures blockSize == BlockSize(chunkSize, chunksPerBlock)
      ensures blocks == [] && currentChunk == 0 && lastChunk == 0
      ensures freeChunks == [] && outstanding == {} && carved == map[]
    {
      chunkSize := ChunkSize(chunkSizeRequest, chunkAlignment);
      alignment := chunkAlignment;
      chunksPerBlock := initialChunksPerBlock;
      blockSize := BlockSize(ChunkSize(chunkSizeRequest, chunkAlignment), initialChunksPerBlock);
      blocks := [];
      currentChunk := 0;
      lastChunk := 0;
      freeChunks := [];
      outstanding := {};
      carved := map[];
    }

    /** `allocateBlock`: links the block at `newBlock` in front of the block
        list and points the cursors at its chunk region, which starts on the
        first chunk boundary after the header (padding of 1 to `chunkSize`
        bytes) and holds exactly `chunksPerBlock` slots. */
    method AllocateBlock(newBlock: nat)
      requires Valid() && AcceptableBlock(newBlock)
      modifies this
      ensures Valid()
      ensures blocks == [newBlock] + old(blocks)
      ensures 1 <= currentChunk - (newBlock + PointerWidth) <= chunkSize
      ensures currentChunk % chunkSize == 0
      ensures lastChunk - currentChunk == chunksPerBlock * chunkSize
      ensures currentChunk < lastChunk <= newBlock + blockSize
      ensures freeChunks == old(freeChunks) && outstanding == old(outstanding) && carved == old(carved)
    {
      StateAfterNewBlock(chunkSize, chunksPerBlock, blockSize, blocks, currentChunk, lastChunk,
                         freeChunks, outstanding, carved, newBlock);
      blocks := [newBlock] + blocks;
      var firstChunk := newBlock + PointerWidth;
      var padding := Padding(firstChunk, chunkSize);
      currentChunk := firstChunk + padding;
      lastChunk := firstChunk + padding + chunksPerBlock * chunkSize;
    }

    /** `allocate`: pops the free list if it is non-empty; otherwise carves
        the next virgin slot, reserving the block at `newBlock` first when
        the virgin region is exhausted. The slot is fresh among the
        outstanding ones and aligned. */
    method Allocate(newBlock: nat) returns (p: nat)
      requires Valid() && AcceptableBlock(newBlock)
      modifies this
      ensures Valid()
      ensures p == old(NextSlot(newBlock))
      ensures p > 0 && p % chunkSize == 0 && p % alignment == 0
      ensures p !in old(outstanding) && outstanding == old(outstanding) + {p}
      ensures old(freeChunks) != [] ==>
        && freeChunks == old(freeChunks)[1..]
        && blocks == old(blocks) && currentChunk == old(currentChunk) && lastChunk == old(lastChunk)
      ensures old(freeChunks) == [] ==> freeChunks == [] && currentChunk == p + chunkSize
      ensures old(freeChunks) == [] && old(currentChunk) < old(lastChunk) ==>
        blocks == old(blocks) && lastChunk == old(lastChunk)
      ensures old(freeChunks) == [] && old(currentChunk) >= old(lastChunk) ==>
        && blocks == [newBlock] + old(blocks)
        && lastChunk - currentChunk + chunkSize == chunksPerBlock * chunkSize
    {
      if freeChunks != [] {
        p := PopFreeList();
        return;
      }
      if currentChunk >= lastChunk {
        AllocateBlock(newBlock);
      }
      p := CarveVirgin();
    }

    /** The first step of `allocate`: the head of the free list is handed
        out and its link becomes the new head. */
    method PopFreeList() returns (p: nat)
      requires Valid() && freeChunks != []
      modifies this
      ensures Valid()
      ensures p == old(freeChunks[0]) && freeChunks == old(freeChunks[1..])
      ensures p > 0 && p % chunkSize == 0 && p % alignment == 0
      ensures p !in old(outstanding) && outstanding == old(outstanding) + {p}
      ensures blocks == old(blocks) && currentChunk == old(currentChunk) && lastChunk == old(lastChunk)
      ensures carved == old(carved)
    {
      StateAfterPop(chunkSize, chunksPerBlock, blockSize, blocks, currentChunk, lastChunk,
                    freeChunks, outstanding, carved);
      p := freeChunks[0];
      freeChunks := freeChunks[1..];
      outstanding := outstanding + {p};
      MultipleOfDivisor(p, chunkSize, alignment);
    }

    /** The last step of `allocate`: the slot at `current_chunk_` is handed
        out and the cursor moves on by one chunk. */
    method CarveVirgin() returns (p: nat)
      requires Valid() && currentChunk < lastChunk
      modifies this
      ensures Valid()
      ensures p == old(currentChunk) && currentChunk == p + chunkSize
      ensures p > 0 && p % chunkSize == 0 && p % alignment == 0
      ensures p !in old(outstanding) && outstanding == old(outstanding) + {p}
      ensures blocks == old(blocks) && lastChunk == old(lastChunk) && freeChunks == old(freeChunks)
      ensures carved == old(carved)[p := blocks[0]]
    {
      StateAfterCarve(chunkSize, chunksPerBlock, blockSize, blocks, currentChunk, lastChunk,
                      freeChunks, outstanding, carved);
      p := currentChunk;
      MultipleOfDivisor(p, chunkSize, alignment);
      currentChunk := p + chunkSize;
      outstanding := outstanding + {p};
      carved := carved[p := blocks[0]];
    }

    /** `deallocate`: a null pointer changes nothing; otherwise the slot
        becomes the head of the free list, in front of the old list. */
    method Deallocate(p: nat)
      requires Valid() && (p == 0 || p in outstanding)
      modifies this
      ensures Valid()
      ensures p == 0 ==> freeChunks == old(freeChunks) && outstanding == old(outstanding)
      ensures p != 0 ==> freeChunks == [p] + old(freeChunks) && outstanding == old(outstanding) - {p}
      ensures blocks == old(blocks) && currentChunk == old(currentChunk) && lastChunk == old(lastChunk)
      ensures carved == old(carved)
    {
      if p != 0 {
        StateAfterPush(chunkSize, chunksPerBlock, blockSize, blocks, currentChunk, lastChunk,
                       freeChunks, outstanding, carved, p);
        freeChunks := [p] + freeChunks;
        outstanding := outstanding - {p};
      }
    }

    /** The destructor's walk: follows the block list from its head and
        releases every block, each exactly once, newest first. */
    method ReleaseBlocks() returns (released: seq<nat>)
      requires BlocksDisjoint(blocks, blockSize) && blockSize > 0
      modifies this
      ensures released == old(blocks) && blocks == []
      ensures forall i, j :: 0 <= i < j < |released| ==> released[i] != released[j]
      ensures freeChunks == old(freeChunks)
      ensures currentChunk == old(currentChunk) && lastChunk == old(lastChunk)
    {
      BlocksDistinct(blocks, blockSize);
      ghost var all := blocks;
      released := [];
      while blocks != []
        invariant released + blocks == all
        invariant freeChunks == old(freeChunks)
        invariant currentChunk == old(currentChunk) && lastChunk == old(lastChunk)
        decreases |blocks|
      {
        var next := blocks[1..];
        released := released + [blocks[0]];
        blocks := next;
      }
    }

    /** A slot is in at most one of the free list, the virgin region and the
        outstanding set. */
    lemma SlotStatesDisjoint(c: nat)
      requires Valid()
      ensures !(c in freeChunks && c in outstanding)
      ensures currentChunk <= c < lastChunk ==> c !in freeChunks && c !in outstanding
    {
      if c in freeChunks || c in outstanding {
        assert c in carved;
      }
    }

    /** Two different outstanding slots do not overlap. */
    lemma OutstandingSlotsDisjoint(a: nat, b: nat)
      requires Valid() && a in outstanding && b in outstanding && a != b
      ensures a + chunkSize <= b || b + chunkSize <= a
    {
      assert a in carved && b in carved;
      if a < b {
        MultiplesApart(a, b, chunkSize);
      } else {
        MultiplesApart(b, a, chunkSize);
      }
    }

    /** Every outstanding slot is a whole chunk inside one of the pool's
        blocks, behind that block's header. */
    lemma OutstandingSlotInBlock(c: nat)
      requires Valid() && c in outstanding
      ensures exists i :: 0 <= i < |blocks| && blocks[i] + PointerWidth < c && c + chunkSize <= blocks[i] + blockSize
    {
      assert c in carved;
      var b := carved[c];
      var i :| 0 <= i < |blocks| && blocks[i] == b;
    }
  }

  // -----------------------------------------------------------------------
  // The parts of the pool's invariant, over the values of its fields

  /** The sizes fixed by the constructor: a chunk holds at least a pointer
      and is a multiple of the alignment, a block holds at least one chunk,
      and the block size leaves a chunk of slack for the padding. */
  ghost predicate SizesValid(chunkSize: nat, alignment: nat, chunksPerBlock: nat, blockSize: nat)
  {
    && chunkSize >= PointerWidth && alignment > 0 && chunkSize % alignment == 0
    && chunksPerBlock >= 1
    && blockSize == BlockSize(chunkSize, chunksPerBlock)
  }

  /** The part of the invariant that the operations change. */
  ghost predicate StateValid(chunkSize: nat, chunksPerBlock: nat, blockSize: nat,
                             blocks: seq<nat>, current: nat, last: nat,
                             free: seq<nat>, outstanding: set<nat>, carved: map<nat, nat>)
  {
    && blockSize == BlockSize(chunkSize, chunksPerBlock)
    && BlocksDisjoint(blocks, blockSize)
    && CursorsValid(blocks, current, last, chunkSize, chunksPerBlock)
    && SlotsPartitioned(carved, free, outstanding)
    && SlotsPlaced(carved, blocks, current, last, chunkSize, blockSize)
  }

  /** Distinct blocks occupy disjoint address ranges, none at null. */
  ghost predicate BlocksDisjoint(blocks: seq<nat>, blockSize: nat)
  {
    && (forall i :: 0 <= i < |blocks| ==> blocks[i] > 0)
    && (forall i, j :: 0 <= i < j < |blocks| ==>
          blocks[i] + blockSize <= blocks[j] || blocks[j] + blockSize <= blocks[i])
  }

  /** A non-null block at `newBlock` overlaps none of `blocks`. */
  ghost predicate FitsBeside(newBlock: nat, blocks: seq<nat>, blockSize: nat)
  {
    newBlock > 0 &&
    forall b :: b in blocks ==> newBlock + blockSize <= b || b + blockSize <= newBlock
  }

  /** Without blocks both cursors are null; otherwise they delimit the
      not-yet-carved tail of the newest block's chunk region, on a chunk
      boundary. */
  ghost predicate CursorsValid(blocks: seq<nat>, current: nat, last: nat, chunkSize: nat, chunksPerBlock: nat)
  {
    && chunkSize > 0
    && current <= last
    && (blocks == [] ==> current == 0 && last == 0)
    && (blocks != [] ==>
          && RegionStart(blocks[0], chunkSize) <= current
          && last == RegionEnd(blocks[0], chunkSize, chunksPerBlock)
          && current % chunkSize == 0)
  }

  /** Every carved slot is either on the free list or outstanding, never
      both, and the free list holds no slot twice. */
  ghost predicate SlotsPartitioned(carved: map<nat, nat>, free: seq<nat>, outstanding: set<nat>)
  {
    && (forall c :: c in carved <==> c in free || c in outstanding)
    && (forall c :: c in outstanding ==> c !in free)
    && (forall i, j :: 0 <= i < j < |free| ==> free[i] != free[j])
  }

  /** Every carved slot is a whole chunk inside the chunk area of the block
      it was carved from, on a chunk boundary, and outside the virgin region
      `[current, last)`. */
  ghost predicate SlotsPlaced(carved: map<nat, nat>, blocks: seq<nat>, current: nat, last: nat, chunkSize: nat, blockSize: nat)
  {
    chunkSize > 0 &&
    forall c :: c in carved ==>
      && carved[c] in blocks
      && carved[c] + PointerWidth < c
      && c + chunkSize <= carved[c] + blockSize
      && c % chunkSize == 0
      && !(current <= c < last)
  }

  /** Linking a block that overlaps none of the others keeps the blocks
      pairwise disjoint. */
  lemma BlocksDisjointPrepend(newBlock: nat, blocks: seq<nat>, blockSize: nat)
    requires BlocksDisjoint(blocks, blockSize) && FitsBeside(newBlock, blocks, blockSize)
    ensures BlocksDisjoint([newBlock] + blocks, blockSize)
  {
    var bs := [newBlock] + blocks;
    forall j | 0 < j < |bs|
      ensures bs[0] + blockSize <= bs[j] || bs[j] + blockSize <= bs[0]
    {
      assert bs[j] == blocks[j - 1];
      assert blocks[j - 1] in blocks;
    }
  }

  /** Disjoint ranges of positive size start at distinct addresses. */
  lemma BlocksDistinct(blocks: seq<nat>, blockSize: nat)
    requires BlocksDisjoint(blocks, blockSize) && blockSize > 0
    ensures forall i, j :: 0 <= i < j < |blocks| ==> blocks[i] != blocks[j]
  {
  }

  /** A new block's chunk region meets no slot carved from the older blocks,
      so pointing the cursors at it keeps every carved slot in place. */
  lemma PlacedAfterNewBlock(carved: map<nat, nat>, blocks: seq<nat>, current: nat, last: nat,
                            chunkSize: nat, chunksPerBlock: nat, newBlock: nat)
    requires chunkSize > 0
    requires SlotsPlaced(carved, blocks, current, last, chunkSize, BlockSize(chunkSize, chunksPerBlock))
    requires FitsBeside(newBlock, blocks, BlockSize(chunkSize, chunksPerBlock))
    ensures SlotsPlaced(carved, [newBlock] + blocks, RegionStart(newBlock, chunkSize),
                        RegionEnd(newBlock, chunkSize, chunksPerBlock), chunkSize, BlockSize(chunkSize, chunksPerBlock))
  {
    RegionFitsBlock(newBlock, chunkSize, chunksPerBlock);
    forall c | c in carved
      ensures carved[c] in [newBlock] + blocks
      ensures !(RegionStart(newBlock, chunkSize) <= c < RegionEnd(newBlock, chunkSize, chunksPerBlock))
    {
      assert carved[c] in blocks;
    }
  }

  /** The slot at the cursor is a whole chunk inside the newest block, and
      moving the cursor on by one chunk keeps the cursors valid. */
  lemma CursorsAfterCarve(blocks: seq<nat>, current: nat, last: nat, chunkSize: nat, chunksPerBlock: nat)
    requires CursorsValid(blocks, current, last, chunkSize, chunksPerBlock) && current < last
    ensures blocks != [] && blocks[0] + PointerWidth < current
    ensures current + chunkSize <= last <= blocks[0] + BlockSize(chunkSize, chunksPerBlock)
    ensures CursorsValid(blocks, current + chunkSize, last, chunkSize, chunksPerBlock)
  {
    MultiplesApart(current, last, chunkSize);
    RegionFitsBlock(blocks[0], chunkSize, chunksPerBlock);
    AddMultiple(current, 1, chunkSize);
  }

  /** Carving the slot at the cursor keeps every carved slot in place,
      the new one included, and the new one was not carved before. */
  lemma PlacedAfterCarve(carved: map<nat, nat>, blocks: seq<nat>, current: nat, last: nat,
                         chunkSize: nat, blockSize: nat)
    requires SlotsPlaced(carved, blocks, current, last, chunkSize, blockSize)
    requires blocks != [] && blocks[0] + PointerWidth < current && current + chunkSize <= blocks[0] + blockSize
    requires current % chunkSize == 0 && current < last
    ensures current !in carved
    ensures SlotsPlaced(carved[current := blocks[0]], blocks, current + chunkSize, last, chunkSize, blockSize)
  {
  }

  /** Popping the free list moves its head, a carved slot that was not
      outstanding, to the outstanding set. */
  lemma PartitionedAfterPop(carved: map<nat, nat>, free: seq<nat>, outstanding: set<nat>)
    requires SlotsPartitioned(carved, free, outstanding) && free != []
    ensures free[0] in carved && free[0] !in outstanding
    ensures SlotsPartitioned(carved, free[1..], outstanding + {free[0]})
  {
    forall c | c in free
      ensures c == free[0] || c in free[1..]
    {
      var i :| 0 <= i < |free| && free[i] == c;
      if i > 0 {
        assert free[1..][i - 1] == c;
      }
    }
    forall c | c in free[1..]
      ensures c != free[0] && c in free
    {
      var i :| 0 <= i < |free[1..]| && free[1..][i] == c;
      assert free[i + 1] == c;
    }
  }

  /** Pushing an outstanding slot onto the free list keeps the partition. */
  lemma PartitionedAfterPush(carved: map<nat, nat>, free: seq<nat>, outstanding: set<nat>, p: nat)
    requires SlotsPartitioned(carved, free, outstanding) && p in outstanding
    ensures SlotsPartitioned(carved, [p] + free, outstanding - {p})
  {
    var f := [p] + free;
    forall i, j | 0 <= i < j < |f|
      ensures f[i] != f[j]
    {
      assert f[j] == free[j - 1];
      if i > 0 {
        assert f[i] == free[i - 1];
      } else {
        assert free[j - 1] in free;
      }
    }
  }

  /** Carving a slot that was never carved adds it to the outstanding set. */
  lemma PartitionedAfterCarve(carved: map<nat, nat>, free: seq<nat>, outstanding: set<nat>, p: nat, block: nat)
    requires SlotsPartitioned(carved, free, outstanding) && p !in carved
    ensures p !in outstanding
    ensures SlotsPartitioned(carved[p := block], free, outstanding + {p})
  {
  }

  // -----------------------------------------------------------------------
  // Each operation preserves the invariant

  /** `allocateBlock` keeps the invariant: the new block overlaps no other,
      and its chunk region meets no carved slot. It yields exactly
      `chunksPerBlock` virgin slots, inside the new block. */
  lemma StateAfterNewBlock(chunkSize: nat, chunksPerBlock: nat, blockSize: nat,
                           blocks: seq<nat>, current: nat, last: nat,
                           free: seq<nat>, outstanding: set<nat>, carved: map<nat, nat>, newBlock: nat)
    requires StateValid(chunkSize, chunksPerBlock, blockSize, blocks, current, last, free, outstanding, carved)
    requires chunksPerBlock >= 1 && FitsBeside(newBlock, blocks, blockSize)
    ensures StateValid(chunkSize, chunksPerBlock, blockSize, [newBlock] + blocks,
                       RegionStart(newBlock, chunkSize), RegionEnd(newBlock, chunkSize, chunksPerBlock),
                       free, outstanding, carved)
    ensures RegionStart(newBlock, chunkSize) < RegionEnd(newBlock, chunkSize, chunksPerBlock) <= newBlock + blockSize
  {
    RegionFitsBlock(newBlock, chunkSize, chunksPerBlock);
    MulAtLeast(chunksPerBlock, chunkSize);
    BlocksDisjointPrepend(newBlock, blocks, blockSize);
    PlacedAfterNewBlock(carved, blocks, current, last, chunkSize, chunksPerBlock, newBlock);
  }

  /** The free-list step of `allocate` keeps the invariant and hands out a
      slot that was not outstanding. */
  lemma StateAfterPop(chunkSize: nat, chunksPerBlock: nat, blockSize: nat,
                      blocks: seq<nat>, current: nat, last: nat,
                      free: seq<nat>, outstanding: set<nat>, carved: map<nat, nat>)
    requires StateValid(chunkSize, chunksPerBlock, blockSize, blocks, current, last, free, outstanding, carved)
    requires free != []
    ensures free[0] !in outstanding && free[0] > 0 && free[0] % chunkSize == 0
    ensures StateValid(chunkSize, chunksPerBlock, blockSize, blocks, current, last,
                       free[1..], outstanding + {free[0]}, carved)
  {
    PartitionedAfterPop(carved, free, outstanding);
  }

  /** The virgin-region step of `allocate` keeps the invariant and hands out
      a slot that was never handed out before. */
  lemma StateAfterCarve(chunkSize: nat, chunksPerBlock: nat, blockSize: nat,
                        blocks: seq<nat>, current: nat, last: nat,
                        free: seq<nat>, outstanding: set<nat>, carved: map<nat, nat>)
    requires StateValid(chunkSize, chunksPerBlock, blockSize, blocks, current, last, free, outstanding, carved)
    requires current < last
    ensures blocks != [] && current !in outstanding && current > 0 && current % chunkSize == 0
    ensures StateValid(chunkSize, chunksPerBlock, blockSize, blocks, current + chunkSize, last,
                       free, outstanding + {current}, carved[current := blocks[0]])
  {
    CursorsAfterCarve(blocks, current, last, chunkSize, chunksPerBlock);
    PlacedAfterCarve(carved, blocks, current, last, chunkSize, blockSize);
    PartitionedAfterCarve(carved, free, outstanding, current, blocks[0]);
  }

  /** `deallocate` of an outstanding slot keeps the invariant. */
  lemma StateAfterPush(chunkSize: nat, chunksPerBlock: nat, blockSize: nat,
                       blocks: seq<nat>, current: nat, last: nat,
                       free: seq<nat>, outstanding: set<nat>, carved: map<nat, nat>, p: nat)
    requires StateValid(chunkSize, chunksPerBlock, blockSize, blocks, current, last, free, outstanding, carved)
    requires p in outstanding
    ensures StateValid(chunkSize, chunksPerBlock, blockSize, blocks, current, last,
                       [p] + free, outstanding - {p}, carved)
  {
    PartitionedAfterPush(carved, free, outstanding, p);
  }
}

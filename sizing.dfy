/** Sizing arithmetic of the memory pool: the effective chunk size, the size
    of a block, and where the first chunk of a block is placed.

    Addresses and sizes are unbounded naturals; the target is a 64-bit
    machine, so a `Chunk*` and a `Block*` are 8 bytes wide. */
module Sizing {

  /** sizeof(Chunk*) == sizeof(Block*) on the modelled 64-bit target. */
  const PointerWidth: nat := 8

  function Max(a: nat, b: nat): (r: nat)
    ensures r >= a && r >= b && (r == a || r == b)
  {
    if a >= b then a else b
  }

  /** Alignments as C++ defines them: powers of two. */
  ghost predicate IsPowerOfTwo(n: nat)
    decreases n
  {
    n == 1 || (n > 1 && n % 2 == 0 && IsPowerOfTwo(n / 2))
  }

  // ---------------------------------------------------------------------
  // The chunk size

  /** `getAssignment` exactly as written: keep a multiple of the alignment,
      otherwise return `size / align * (align + 1)`. */
  function GetAssignment(size: nat, align: nat): (r: nat)
    requires align > 0
    ensures size % align == 0 ==> r == size
    ensures size % align != 0 ==> r == size - size % align + size / align
  {
    if size % align == 0 then size else size / align * (align + 1)
  }

  /** The effective chunk size as the constructor computes it. */
  function ChunkSizeAsWritten(request: nat, align: nat): (r: nat)
    requires align > 0
    ensures Max(PointerWidth, request) % align == 0 ==> r == Max(PointerWidth, request)
    ensures request < align && PointerWidth < align ==> r == 0
  {
    GetAssignment(Max(PointerWidth, request), align)
  }

  /** The as-written rounding keeps a size that is already aligned. */
  lemma GetAssignmentKeepsMultiples(size: nat, align: nat)
    requires align > 0 && size % align == 0
    ensures GetAssignment(size, align) == size
  {
  }

  /** The as-written rounding is not a rounding: 12 bytes at alignment 8
      become 9 bytes, which is neither aligned nor large enough, and 8 bytes
      at alignment 16 become 0 bytes. */
  lemma GetAssignmentMisrounds()
    ensures GetAssignment(12, 8) == 9 && 9 % 8 != 0 && 9 < 12
    ensures ChunkSizeAsWritten(8, 16) == 0
  {
  }

  /** The conventional rounding up to the next multiple of `align`: the least
      multiple of `align` that is at least `size`. */
  function RoundUp(size: nat, align: nat): (r: nat)
    requires align > 0
    ensures r % align == 0
    ensures size <= r < size + align
    ensures size % align == 0 ==> r == size
  {
    if size % align == 0 then size
    else
      var q := size / align;
      DivMod(size, align);
      MultipleExact(q + 1, align);
      (q + 1) * align
  }

  /** The effective chunk size with the rounding corrected: at least one
      pointer, at least the request, and a multiple of the alignment. */
  function ChunkSize(request: nat, align: nat): (r: nat)
    requires align > 0
    ensures r >= PointerWidth && r >= request
    ensures r % align == 0
    ensures r < Max(PointerWidth, request) + align
  {
    RoundUp(Max(PointerWidth, request), align)
  }

  /** Where the as-written rounding keeps its argument, the corrected one
      computes the same chunk size. */
  lemma ChunkSizeAgreesOnMultiples(request: nat, align: nat)
    requires align > 0 && Max(PointerWidth, request) % align == 0
    ensures ChunkSizeAsWritten(request, align) == ChunkSize(request, align) == Max(PointerWidth, request)
  {
  }

  /** A power of two below 8 divides 8. */
  lemma SmallPowerOfTwoDividesPointerWidth(n: nat)
    requires IsPowerOfTwo(n) && n < PointerWidth
    ensures PointerWidth % n == 0
  {
  }

  /** What the typed pool passes in (`sizeof(T)`, `alignof(T)`) always has
      the size a multiple of the power-of-two alignment, so the defective
      branch of `getAssignment` is never reached from it, and both roundings
      give `max(sizeof(Chunk*), sizeof(T))`. */
  lemma TypedChunkSizeExact(size: nat, align: nat)
    requires size > 0 && IsPowerOfTwo(align) && size % align == 0
    ensures align > 0
    ensures ChunkSizeAsWritten(size, align) == ChunkSize(size, align) == Max(PointerWidth, size)
  {
    assert align > 0;
    if size < PointerWidth {
      DivMod(size, align);
      MulAtLeast(size / align, align);
      SmallPowerOfTwoDividesPointerWidth(align);
    }
    ChunkSizeAgreesOnMultiples(size, align);
  }

  // ---------------------------------------------------------------------
  // Block layout: an 8-byte link to the previous block, then padding up to
  // a multiple of the chunk size, then the chunks.

  /** `block_size_` exactly as written: the comment reserves one extra chunk
      for the padding, the formula one extra byte per chunk. */
  function BlockSizeAsWritten(chunkSize: nat, chunksPerBlock: nat): (r: nat)
    ensures r == PointerWidth + chunksPerBlock * chunkSize + chunksPerBlock
  {
    PointerWidth + (chunkSize + 1) * chunksPerBlock
  }

  /** `block_size_` with one extra chunk of slack, as the comment intends. */
  function BlockSize(chunkSize: nat, chunksPerBlock: nat): (r: nat)
    ensures r == PointerWidth + chunksPerBlock * chunkSize + chunkSize
  {
    PointerWidth + chunkSize * (chunksPerBlock + 1)
  }

  /** The padding from the first byte after the block's header to the first
      chunk: always between 1 and a whole chunk, and it lands on a multiple
      of the chunk size. */
  function Padding(address: nat, chunkSize: nat): (r: nat)
    requires chunkSize > 0
    ensures 1 <= r <= chunkSize
    ensures (address + r) % chunkSize == 0
  {
    DivMod(address, chunkSize);
    MultipleExact(address / chunkSize + 1, chunkSize);
    chunkSize - address % chunkSize
  }

  /** Address of the first chunk of the block at `base` (`current_chunk_`
      right after `allocateBlock`). */
  function RegionStart(base: nat, chunkSize: nat): (r: nat)
    requires chunkSize > 0
    ensures r % chunkSize == 0
    ensures base + PointerWidth < r <= base + PointerWidth + chunkSize
  {
    base + PointerWidth + Padding(base + PointerWidth, chunkSize)
  }

  /** Address one past the last chunk of the block at `base`
      (`last_chunk_` right after `allocateBlock`). */
  function RegionEnd(base: nat, chunkSize: nat, chunksPerBlock: nat): (r: nat)
    requires chunkSize > 0
    ensures r - RegionStart(base, chunkSize) == chunksPerBlock * chunkSize
    ensures r % chunkSize == 0
  {
    var s := RegionStart(base, chunkSize);
    AddMultiple(s, chunksPerBlock, chunkSize);
    s + chunksPerBlock * chunkSize
  }

  /** With the corrected block size the chunk region of a block lies inside
      the block, wherever the block is placed. */
  lemma RegionFitsBlock(base: nat, chunkSize: nat, chunksPerBlock: nat)
    requires chunkSize > 0
    ensures base + PointerWidth < RegionStart(base, chunkSize)
    ensures RegionEnd(base, chunkSize, chunksPerBlock) <= base + BlockSize(chunkSize, chunksPerBlock)
  {
    assert chunkSize * (chunksPerBlock + 1) == chunksPerBlock * chunkSize + chunkSize;
  }

  /** With the as-written block size the chunk region fits inside the block
      exactly when the padding is at most one byte per chunk. */
  lemma WrittenRegionFitsIff(base: nat, chunkSize: nat, chunksPerBlock: nat)
    requires chunkSize > 0
    ensures RegionEnd(base, chunkSize, chunksPerBlock) <= base + BlockSizeAsWritten(chunkSize, chunksPerBlock)
        <==> Padding(base + PointerWidth, chunkSize) <= chunksPerBlock
  {
    assert (chunkSize + 1) * chunksPerBlock == chunksPerBlock * chunkSize + chunksPerBlock;
  }

  /** When the first byte after the header already sits on a chunk boundary
      the padding is a whole chunk, so with fewer chunks per block than bytes
      per chunk the region overruns the as-written block. The demonstration's
      own typed pool (a 12-byte point, 10 chunks per block) is such a case
      for a 16-byte aligned block at address 16: its region ends at 156,
      the block at 154. */
  lemma WrittenRegionOverrunsAt16()
    ensures RegionEnd(16, 12, 10) > 16 + BlockSizeAsWritten(12, 10)
  {
    WrittenRegionOverruns(16, 12, 10);
  }

  lemma WrittenRegionOverruns(base: nat, chunkSize: nat, chunksPerBlock: nat)
    requires chunksPerBlock < chunkSize && (base + PointerWidth) % chunkSize == 0
    ensures Padding(base + PointerWidth, chunkSize) == chunkSize
    ensures RegionEnd(base, chunkSize, chunksPerBlock) > base + BlockSizeAsWritten(chunkSize, chunksPerBlock)
  {
    WrittenRegionFitsIff(base, chunkSize, chunksPerBlock);
  }

  // ---------------------------------------------------------------------
  // Facts about multiples used by the pool's invariant

  /** Euclidean division by a positive divisor. */
  lemma DivMod(a: nat, m: nat)
    requires m > 0
    ensures a == a / m * m + a % m && 0 <= a % m < m
  {
  }

  lemma MulAtLeast(x: int, m: nat)
    requires m > 0 && x >= 1
    ensures x * m >= m
  {
  }

  /** Quotient and remainder are determined by the division equation. */
  lemma DivModUnique(a: nat, m: nat, q: int, r: int)
    requires m > 0 && a == q * m + r && 0 <= r < m
    ensures a / m == q && a % m == r
  {
    var d := a / m;
    DivMod(a, m);
    if q > d { MulAtLeast(q - d, m); }
    else if d > q { MulAtLeast(d - q, m); }
  }

  lemma MultipleExact(k: nat, m: nat)
    requires m > 0
    ensures (k * m) % m == 0 && (k * m) / m == k
  {
    DivModUnique(k * m, m, k, 0);
  }

  /** Adding `k` steps of `m` to a multiple of `m` gives a multiple of `m`. */
  lemma AddMultiple(a: nat, k: nat, m: nat)
    requires m > 0 && a % m == 0
    ensures (a + k * m) % m == 0
  {
    DivMod(a, m);
    assert a + k * m == (a / m + k) * m;
    MultipleExact(a / m + k, m);
  }

  /** Two distinct multiples of `m` are at least `m` apart, so the `m`-byte
      slots starting at them do not overlap. */
  lemma MultiplesApart(a: nat, b: nat, m: nat)
    requires m > 0 && a % m == 0 && b % m == 0 && a < b
    ensures a + m <= b
  {
    DivMod(a, m);
    DivMod(b, m);
    var qa, qb := a / m, b / m;
    assert b - a == (qb - qa) * m;
    if qb > qa {
      MulAtLeast(qb - qa, m);
    }
  }

  /** A multiple of the chunk size is a multiple of every divisor of it,
      in particular of the alignment. */
  lemma MultipleOfDivisor(c: nat, m: nat, d: nat)
    requires m > 0 && d > 0 && c % m == 0 && m % d == 0
    ensures c % d == 0
  {
    DivMod(c, m);
    DivMod(m, d);
    var k, j := c / m, m / d;
    assert c == k * (j * d);
    assert c == (k * j) * d;
    MultipleExact(k * j, d);
  }
}

/**
 * The public face of pool_allocator.h: a handle (`pool_allocator<T, S>`) carries
 * only its preferred slab capacity; every handle of one (element type,
 * thread-safety flag) pair works on the same shared `Pool`. The element type
 * is represented by its size and by the pool object it selects.
 */
module Handles {
  import opened Engine
  import opened Pools

  /** `default_block_size`. */
  const DefaultBlockSize: nat := 256

  /** `std::numeric_limits<ptrdiff_t>::max()` for a 64-bit `ptrdiff_t`. */
  const PtrdiffMax: nat := 0x7FFF_FFFF_FFFF_FFFF

  /** The largest slab capacity `_compute_block_size` admits for elements of `elementSize` bytes. */
  function MaxBlockSize(elementSize: nat): nat
    requires 1 <= elementSize
  {
    PtrdiffMax / elementSize
  }

  /**
   * `_compute_block_size`: 0 selects the default capacity, a capacity beyond
   * `max(ptrdiff_t) / sizeof(T)` is clamped to it, any other is kept.
   */
  function ComputeBlockSize(blockSize: nat, elementSize: nat): (r: nat)
    requires 1 <= elementSize <= PtrdiffMax
    ensures r >= 1
    ensures blockSize == 0 ==> r == DefaultBlockSize
    ensures 1 <= blockSize <= MaxBlockSize(elementSize) ==> r == blockSize
    ensures blockSize > MaxBlockSize(elementSize) ==> r == MaxBlockSize(elementSize)
  {
    if blockSize == 0 then DefaultBlockSize
    else if blockSize > MaxBlockSize(elementSize) then MaxBlockSize(elementSize)
    else blockSize
  }

  /**
   * For any element type small enough that the default capacity is admitted,
   * normalising an already normalised capacity changes nothing; so the
   * converting constructor's second normalisation is harmless within one type.
   */
  lemma ComputeBlockSizeIdempotent(blockSize: nat, elementSize: nat)
    requires 1 <= elementSize <= PtrdiffMax / DefaultBlockSize
    ensures ComputeBlockSize(ComputeBlockSize(blockSize, elementSize), elementSize)
         == ComputeBlockSize(blockSize, elementSize)
    ensures ComputeBlockSize(blockSize, elementSize) <= MaxBlockSize(elementSize)
  {
    DivAtLeast(PtrdiffMax / DefaultBlockSize, DefaultBlockSize, 1);
    assert elementSize * DefaultBlockSize <= PtrdiffMax;
    DivAtLeast(PtrdiffMax, elementSize, DefaultBlockSize);
  }

  /** `c <= a / b` whenever `c * b <= a`. */
  lemma DivAtLeast(a: nat, b: nat, c: nat)
    requires b >= 1 && c * b <= a
    ensures c <= a / b
  {
    var q := a / b;
    assert a < (q + 1) * b;
    MulMonotone(q + 1, c, b);
  }

  /** Multiplying by the same factor keeps the order. */
  lemma MulMonotone(x: nat, y: nat, b: nat)
    ensures x <= y ==> x * b <= y * b
  {
  }

  /** What `allocate` gives its caller: a pointer, or the `std::bad_alloc` it throws. */
  datatype AllocResult = Allocated(p: Ptr) | BadAlloc

  class Handle {
    /** The shared state of this handle's (element type, thread-safety flag) pair. */
    const pool: Pool
    /** `sizeof(T)`. */
    const elementSize: nat
    /** `_m_block_size`: the capacity of slabs this handle creates. */
    var blockSize: nat

    /** `pool_allocator(block_size)`: normalise the capacity and count one more live handle. */
    constructor (pool: Pool, elementSize: nat, blockSize: nat)
      requires pool.Valid() && 1 <= elementSize <= PtrdiffMax
      modifies pool
      ensures this.pool == pool && this.elementSize == elementSize
      ensures this.blockSize == ComputeBlockSize(blockSize, elementSize) && this.blockSize >= 1
      ensures pool.Valid() && pool.State() == IncHandles(old(pool.State()))
    {
      this.pool := pool;
      this.elementSize := elementSize;
      this.blockSize := ComputeBlockSize(blockSize, elementSize);
      new;
      pool.IncSharedCounter();
    }

    /**
     * The copy constructor, and equally the move constructor (the source gives
     * both the same body): take the other handle's capacity as it is and count
     * one more live handle.
     */
    constructor Copy(other: Handle)
      requires other.pool.Valid()
      modifies other.pool
      ensures pool == other.pool && elementSize == other.elementSize && blockSize == other.blockSize
      ensures pool.Valid() && pool.State() == IncHandles(old(other.pool.State()))
    {
      pool := other.pool;
      elementSize := other.elementSize;
      blockSize := other.blockSize;
      new;
      pool.IncSharedCounter();
    }

    /**
     * The converting constructor from a handle of another element type: that
     * handle's capacity is normalised again for this element size, and this
     * pair's pool counts one more live handle.
     */
    constructor Convert(other: Handle, pool: Pool, elementSize: nat)
      requires pool.Valid() && 1 <= elementSize <= PtrdiffMax
      modifies pool
      ensures this.pool == pool && this.elementSize == elementSize
      ensures blockSize == ComputeBlockSize(other.blockSize, elementSize)
      ensures pool.Valid() && pool.State() == IncHandles(old(pool.State()))
    {
      this.pool := pool;
      this.elementSize := elementSize;
      this.blockSize := ComputeBlockSize(other.blockSize, elementSize);
      new;
      pool.IncSharedCounter();
    }

    /** Copy and move assignment: only the capacity is copied; the live-handle count is untouched. */
    method Assign(other: Handle)
      requires other.pool == pool && other.elementSize == elementSize
      modifies this
      ensures blockSize == old(other.blockSize)
    {
      blockSize := other.blockSize;
    }

    /** `swap`: exchange the capacities of two handles of one pair. */
    method Swap(other: Handle)
      requires other.pool == pool && other.elementSize == elementSize
      modifies this, other
      ensures blockSize == old(other.blockSize) && other.blockSize == old(blockSize)
    {
      blockSize, other.blockSize := other.blockSize, blockSize;
    }

    /** `~pool_allocator`: one live handle fewer, and possibly the retired slabs freed. */
    method Destroy()
      requires pool.Valid() && pool.handles > 0
      modifies pool
      ensures pool.Valid() && pool.State() == DecHandles(old(pool.State()))
    {
      pool.DecSharedCounter();
    }

    /**
     * `allocate(n)`: a request of 0 returns `Null` without touching the pool;
     * otherwise the engine's answer, with a `Null` from the engine turned into
     * `BadAlloc`.
     */
    method Allocate(n: nat, systemHasMemory: bool) returns (r: AllocResult)
      requires pool.Valid()
      modifies pool
      ensures pool.Valid()
      ensures n == 0 ==> r == Allocated(Null) && pool.State() == old(pool.State())
      ensures n > 0 ==>
        var (p, st) := Engine.Acquire(old(pool.State()), n, blockSize, systemHasMemory);
        pool.State() == st && r == (if p == Null then BadAlloc else Allocated(p))
    {
      if n == 0 {
        return Allocated(Null);
      }
      var p := pool.Acquire(n, blockSize, systemHasMemory);
      if p == Null {
        return BadAlloc;
      }
      return Allocated(p);
    }

    /**
     * `deallocate(p, n)`: a null pointer or a count of 0 is ignored; otherwise
     * the engine releases the span. `found` is the condition the source
     * asserts: false only when no active slab owned `p`, and then nothing changed.
     */
    method Deallocate(p: Ptr, n: nat) returns (found: bool)
      requires pool.Valid() && ReleaseContract(pool.State(), p, n)
      modifies pool
      ensures pool.Valid()
      ensures p == Null || n == 0 ==> found && pool.State() == old(pool.State())
      ensures p != Null && n > 0 ==> (found, pool.State()) == Engine.Release(old(pool.State()), p, n)
      ensures !found ==> pool.State() == old(pool.State())
    {
      found := true;
      if p != Null && n > 0 {
        found := pool.Release(p, n);
      }
    }
  }

  /** `operator==`: any two handles of the same pair compare equal, whatever their capacities. */
  function Equal(a: Handle, b: Handle): (r: bool)
    requires a.pool == b.pool && a.elementSize == b.elementSize
    ensures r
  {
    true
  }
}

/**
 * One slab of the pool (the private `_node` class of pool_allocator.h): a
 * fixed-capacity run of element slots handed out by a bump cursor. Offsets are
 * counted in elements from the start of the slab's storage; the raw bytes
 * themselves are not modelled.
 */
module Slabs {
  import opened Wrappers

  /** One more than the largest value of the source's `size_t` (64 bits). */
  const SizeLimit: int := 0x1_0000_0000_0000_0000

  /**
   * `capacity` is `_m_block_size`, `use` is `_m_use_counter` and `cursor` is
   * `_m_current_free_index`.
   */
  datatype Slab = Slab(capacity: nat, use: nat, cursor: nat)
  {
    /** The slab invariant: `use <= cursor <= capacity`, and a slab holds at least one slot. */
    predicate Sound() {
      1 <= capacity && use <= cursor <= capacity
    }

    /**
     * The room test of `acquire`, with the precondition `n <= capacity` checked
     * instead of assumed. It means exactly that the span `[cursor, cursor + n)`
     * lies inside the slab.
     */
    predicate Fits(n: nat)
      ensures Fits(n) <==> cursor + n <= capacity
    {
      n <= capacity && cursor <= capacity - n
    }

    /**
     * The room test of `acquire` as the source evaluates it: `capacity - n` is
     * computed in `size_t`, so it wraps around when `n > capacity`.
     */
    predicate FitsAsWritten(n: nat)
      requires capacity < SizeLimit && n < SizeLimit
    {
      cursor <= (capacity - n) % SizeLimit
    }

    /**
     * `acquire(n)`: on room, hands out the `n` slots at the cursor and bumps both
     * counters; otherwise returns no offset and leaves the slab as it was.
     */
    function Acquire(n: nat): (r: (Slab, Option<nat>))
      requires n > 0
      ensures r.1.Some? <==> cursor + n <= capacity
      ensures r.1.Some? ==> r.1.value == cursor && r.1.value + n <= capacity
      ensures r.1.Some? ==> r.0 == Slab(capacity, use + n, cursor + n)
      ensures r.1.None? ==> r.0 == this
      ensures Sound() ==> r.0.Sound()
    {
      if Fits(n) then (Slab(capacity, use + n, cursor + n), Some(cursor)) else (this, None)
    }

    /**
     * `acquire(n)` as the source evaluates it: the wrapping room test, and both
     * counters bumped by `+=` in `size_t`, so they wrap around too.
     */
    function AcquireAsWritten(n: nat): (r: (Slab, Option<nat>))
      requires 0 < n < SizeLimit && capacity < SizeLimit
      ensures r.1.Some? <==> FitsAsWritten(n)
      ensures r.1.Some? ==> r.1.value == cursor && r.0.capacity == capacity
      ensures r.1.Some? ==> r.0.use < SizeLimit && (r.0.use - use - n) % SizeLimit == 0
      ensures r.1.Some? ==> r.0.cursor < SizeLimit && (r.0.cursor - cursor - n) % SizeLimit == 0
      ensures r.1.None? ==> r.0 == this
    {
      if FitsAsWritten(n) then (Slab(capacity, (use + n) % SizeLimit, (cursor + n) % SizeLimit), Some(cursor))
      else (this, None)
    }

    /**
     * `release(p, n)` for the slot at `offset`: the slab claims the pointer iff it
     * lies inside its storage. A claimed release gives back `n` uses and pulls the
     * cursor back to `offset` only when the span was the tail `[offset, cursor)`.
     * The source asserts `use >= n` and `capacity - offset >= n` for a claimed
     * pointer; those are this function's requires.
     */
    function Release(offset: nat, n: nat): (r: (Slab, bool))
      requires offset < capacity ==> n <= use && n <= capacity - offset
      ensures r.1 <==> offset < capacity
      ensures r.0.capacity == capacity && r.0.cursor <= cursor
      ensures r.1 ==> r.0.use + n == use
      ensures r.1 && offset + n == cursor ==> r.0.cursor == offset
      ensures r.1 && offset + n != cursor ==> r.0.cursor == cursor
      ensures !r.1 ==> r.0 == this
      ensures Sound() ==> r.0.Sound()
    {
      if offset < capacity then
        (Slab(capacity, use - n, if offset + n == cursor then offset else cursor), true)
      else
        (this, false)
    }

    /** The cursor reset that `attach` performs whenever a slab moves onto a list. */
    function Reset(): (r: Slab)
      ensures r.capacity == capacity && r.use == use && r.cursor == 0
      ensures use == 0 && 1 <= capacity ==> r.Sound()
    {
      Slab(capacity, use, 0)
    }
  }

  /** A freshly created slab (`_node::allocate` then the `_node` constructor). */
  function New(capacity: nat): (r: Slab)
    ensures r.capacity == capacity && r.use == 0 && r.cursor == 0
    ensures 1 <= capacity ==> r.Sound()
  {
    Slab(capacity, 0, 0)
  }

  /** An acquire immediately followed by the release of the same span restores the slab exactly. */
  lemma AcquireReleaseRoundTrip(s: Slab, n: nat)
    requires s.Sound() && n > 0 && s.Fits(n)
    ensures s.Acquire(n).1.Some?
    ensures var (s1, off) := s.Acquire(n);
            off.value < s1.capacity && n <= s1.use && n <= s1.capacity - off.value &&
            s1.Release(off.value, n) == (s, true)
  {
  }

  /**
   * Wherever the source's precondition `n <= capacity` holds, the corrected
   * room test agrees with the wrapping test the source evaluates.
   */
  lemma FitsAgreesAsWritten(s: Slab, n: nat)
    requires s.capacity < SizeLimit && n <= s.capacity
    ensures s.Fits(n) <==> s.FitsAsWritten(n)
  {
    assert (s.capacity - n) % SizeLimit == s.capacity - n;
  }

  /** A value below `2^64` is its own `size_t` representation. */
  lemma SmallModulo(x: nat)
    requires x < SizeLimit
    ensures x % SizeLimit == x
  {
  }

  /** On a sound slab no smaller than the request, the source's `acquire` is the corrected one. */
  lemma AcquireAgreesAsWritten(s: Slab, n: nat)
    requires s.Sound() && 0 < n <= s.capacity < SizeLimit
    ensures s.AcquireAsWritten(n) == s.Acquire(n)
  {
    FitsAgreesAsWritten(s, n);
    if s.Fits(n) {
      SmallModulo(s.use + n);
      SmallModulo(s.cursor + n);
      assert s.AcquireAsWritten(n) == (Slab(s.capacity, s.use + n, s.cursor + n), Some(s.cursor));
    } else {
      assert s.AcquireAsWritten(n) == (s, None);
    }
  }

  /**
   * The room test as written lets through any request larger than the slab:
   * the span handed out, `[cursor, cursor + n)`, runs past the end of the
   * storage. While `cursor + n` stays below 2^64 the cursor itself is left past
   * the end; beyond that the `size_t` addition wraps it around.
   */
  lemma OversizedRequestOverrunsAsWritten(s: Slab, n: nat)
    requires s.Sound() && s.capacity < n < SizeLimit
    ensures s.FitsAsWritten(n) && !s.Fits(n)
    ensures s.AcquireAsWritten(n).1 == Some(s.cursor)
    ensures s.cursor + n > s.capacity
    ensures s.cursor + n < SizeLimit ==> s.AcquireAsWritten(n).0.cursor > s.capacity
    ensures s.cursor + n >= SizeLimit ==> s.AcquireAsWritten(n).0.cursor == s.cursor + n - SizeLimit
  {
    assert (s.capacity - n) % SizeLimit == s.capacity - n + SizeLimit;
  }

  /**
   * A concrete instance: a 256-slot slab holding one slot, asked for 300 slots.
   * As written it hands out offset 1 and leaves the cursor at 301; the
   * corrected acquire refuses.
   */
  lemma OversizedRequestExample()
    ensures Slab(256, 1, 1).AcquireAsWritten(300) == (Slab(256, 301, 301), Some(1))
    ensures Slab(256, 1, 1).Acquire(300) == (Slab(256, 1, 1), None)
  {
    OversizedRequestOverrunsAsWritten(Slab(256, 1, 1), 300);
  }

  /** The wrap-around case: the cursor comes back below the capacity although the span overran it. */
  lemma OversizedRequestWrapsAsWritten()
    ensures Slab(256, 200, 200).AcquireAsWritten(SizeLimit - 100) == (Slab(256, 100, 100), Some(200))
  {
    OversizedRequestOverrunsAsWritten(Slab(256, 200, 200), SizeLimit - 100);
  }
}

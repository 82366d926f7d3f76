# pool_allocator — a verified model of the slab pool engine

`pool_allocator<T, THREAD_SAFE>` is a C++ allocator for fixed-size elements.
Every handle of one (element type, thread-safety flag) pair shares one static
pool made of slabs (`_node`). Each slab is a fixed-capacity run of element slots
handed out by a bump cursor. The pool keeps two singly linked lists of slabs:
the active list `_sm_node_used` and the retired list `_sm_node_freed`. It also
counts the live handles in `_sm_shared_counter`.

- `allocate(n)` takes `n` slots from the first active slab with room. When no
  active slab has room, it reuses a retired slab of a suitable size or creates a
  new slab.
- `deallocate(p, n)` gives the slots back to the slab that owns `p`. A slab
  whose use counter drops to 0 moves to the retired list.
- When the last handle is destroyed, every retired slab goes back to the system.

The model has seven modules:

- `Wrappers` (wrappers.dfy): the `Option` datatype.
- `Slabs` (slabs.dfy): the `_node` bump allocator as a datatype `Slab(capacity,
  use, cursor)`, with `Acquire`, `Release` and the cursor `Reset` done by
  `attach`.
- `Engine` (engine.dfy): the pool state as a value. Slabs sit in an
  index-based arena, the two lists are sequences of slab ids with the head at
  index 0, and a pointer is `At(slab, offset)`. The module holds the functions
  that specify `_acquire`, `_acquire_node`, `_match_free_node`, `_release`,
  `_inc_shared_counter`, `_dec_shared_counter` and `_deallocate_list`. It also
  holds the invariant `Valid`: every slab is on exactly one of the active list,
  the retired list and the set of slabs given back to the system, and every
  slab on one of the two lists keeps `use <= cursor <= capacity`. A slab given
  back to the system has no storage left, so its record is not constrained. Lemmas prove that each operation
  keeps `Valid`.
- `Pools` (pools.dfy): the static state as a `Pool` class. Its methods walk and
  relink the lists with `while` loops, and each is proved to produce exactly
  the state its `Engine` function describes.
- `Accounting` (accounting.dfy): what the pool promises over a history of calls.
  The outstanding allocations are a sequence of blocks. The pool keeps each
  active slab's use counter equal to its outstanding slots, and it keeps the
  outstanding spans disjoint and below the cursor. So no slot is handed out
  twice, and `deallocate` of an outstanding pair always finds its slab. A
  history is a sequence of calls (`allocate`, `deallocate` of an outstanding
  pair, handle creation and destruction) folded from the zero-initialised
  pool by `Step` and `Run`, and the accounting holds after every history. The
  module also proves the `allocate`-then-`deallocate` round trip.
- `Handles` (handles.dfy): `_compute_block_size` and the public handle, with its
  constructors, assignments, `swap`, destructor, `allocate`, `deallocate` and
  `operator==`.
- `Scenarios` (scenarios.dfy): concrete runs from a fresh pool.

System allocation failure is the boolean parameter `systemHasMemory`: `false`
means `_aligned_malloc` returned null. The round trip restores the pool exactly
when an active slab or the first slab of the retired list served the request.
When it needed a later retired slab, that slab ends up at the front of the
retired list. When it needed a new slab, the new slab stays on the retired list.
In every case the active list and every pre-existing slab are as before.

The room test of `_node::acquire` is computed in `size_t`, so a request larger
than a slab passes it (see "## Findings"). `Slabs.Slab.AcquireAsWritten` and
`Engine.AcquireAsWritten` model the code as written, including the 64-bit wrap
of both `+=` updates. The rest of the model uses the corrected test
`cursor + n <= capacity`, and the two agree whenever no active slab is smaller
than the request.

## Model

| member | source | states |
|---|---|---|
| Slabs.Slab.Fits | pool_allocator.h:147 | the corrected room test holds iff `cursor + n <= capacity` |
| Slabs.Slab.Acquire | pool_allocator.h:144-154 | succeeds iff `cursor + n <= capacity`; on success returns the old cursor as offset, adds `n` to use and cursor, and keeps `use <= cursor <= capacity`; on failure returns no offset and leaves the slab unchanged |
| Slabs.Slab.AcquireAsWritten | pool_allocator.h:144-154 | `acquire` exactly as the source computes it in 64-bit `size_t`: succeeds iff the wrapping test `cursor <= capacity - n` passes; on success returns the old cursor, keeps the capacity and advances both the use counter and the cursor by `n` modulo `2^64`; on failure leaves the slab unchanged |
| Slabs.Slab.Release | pool_allocator.h:157-170 | claims the offset iff it lies in `[0, capacity)`; a claim subtracts `n` from use and moves the cursor back to the offset only when the span was the tail; a miss changes nothing; keeps `use <= cursor <= capacity` under the two asserted conditions |
| Slabs.Slab.Reset | pool_allocator.h:130-134 | `attach` zeroes the cursor and nothing else; an empty slab stays sound |
| Slabs.New | pool_allocator.h:141-143 | a new slab has the requested capacity, use 0 and cursor 0, and is sound |
| Slabs.AcquireReleaseRoundTrip | pool_allocator.h:144-170 | an `acquire(n)` that fits, followed by the `release` of the same offset and `n`, keeps the asserted contract and restores the slab exactly |
| Slabs.FitsAgreesAsWritten | pool_allocator.h:147 | for a request no larger than the slab, the wrapping test and the corrected test agree |
| Slabs.AcquireAgreesAsWritten | pool_allocator.h:144-154 | on a sound slab no smaller than the request, `acquire` as written gives exactly the corrected result |
| Slabs.OversizedRequestOverrunsAsWritten | pool_allocator.h:144-154 | for any sound slab and `capacity < n < 2^64` the wrapping test admits the request and hands out the old cursor, although `cursor + n` exceeds the capacity; the new cursor lies past the end while `cursor + n < 2^64` and is `cursor + n - 2^64` otherwise |
| Slabs.OversizedRequestExample | pool_allocator.h:144-154 | a 256-slot slab with cursor 1 asked for 300: the source as written hands out offset 1 and leaves cursor 301; the corrected acquire refuses and changes nothing |
| Slabs.OversizedRequestWrapsAsWritten | pool_allocator.h:150-151 | a 256-slot slab with cursor 200 asked for `2^64 - 100` slots: as written it hands out offset 200 and the cursor wraps to 100 |
| Engine.Empty | pool_allocator.h:315-317 | the zero-initialised static state has empty lists and no handles, and is valid |
| Engine.RemoveAtMembers | pool_allocator.h:126-129 | unlinking the element at index `k` (`detach`, or the head update) keeps the list duplicate-free and removes exactly that slab |
| Engine.PrependMembers | pool_allocator.h:130-134 | `attach` to the front of a list adds exactly that slab and keeps the list duplicate-free |
| Engine.IndexOfFirst | pool_allocator.h:190-196 | the list walk stops at the first element that satisfies the test; every element before it fails the test; `None` means no element passes |
| Engine.IndexOfFirstSameVerdicts | pool_allocator.h:190-196 | two tests that give the same verdict on every element of a list make the walk stop at the same place |
| Engine.MatchFreeNode | pool_allocator.h:206-209 | the quotient test `0 < capacity / n < 3` holds iff `n <= capacity < 3n` |
| Engine.QuotientOneOrTwo | pool_allocator.h:207-208 | in integer division, `c / n` is 1 or 2 iff `n <= c < 3n` |
| Engine.Eligible | pool_allocator.h:215 | a retired slab serves a request of `n` iff `n == 1` or `n <= capacity < 3n` |
| Engine.AcquireNode | pool_allocator.h:210-234 | on success the chosen slab is pushed to the front of the active list and can hold `n` slots; fails iff no retired slab is eligible and the system has no memory, and then nothing changes |
| Engine.TakeFrom | pool_allocator.h:200 | `acquire` on the chosen slab hands out a span iff the slab has room; the span starts at the slab's old cursor and lies within its capacity; on success the new state is the old one with only that slab's use and cursor advanced by `n`; a refusal changes nothing |
| Engine.Acquire | pool_allocator.h:189-205 | a span handed out lies in an active slab within its capacity; when some active slab has room, the span comes from the active list and the list is unchanged (the full contract is in `Engine.AcquireKeepsValid` and the three `Engine.AcquireFrom` lemmas) |
| Engine.AcquireAsWritten | pool_allocator.h:189-205 | `_acquire` with the wrapping room test: whenever some active slab passes that test it serves the request and the active list is unchanged |
| Engine.AcquireAsWrittenAgrees | pool_allocator.h:189-205 | when no active slab is smaller than the request, `_acquire` as written and the corrected `_acquire` give the same span and the same pool, so the discrepancy needs an oversized request |
| Engine.ActiveVerdictsAgree | pool_allocator.h:190-196 | when no active slab is smaller than the request, the walk over the active list picks the same slab under both room tests |
| Engine.Release | pool_allocator.h:235-255 | requires `Engine.ReleaseContract`, the two conditions `_node::release` asserts at lines 161-162; reports success iff some active slab owns `p`; on failure nothing changes |
| Engine.IncHandles | pool_allocator.h:287-290 | the live-handle count grows by one; the slab records, both lists and the dropped slabs are unchanged; the invariant is kept |
| Engine.DecHandles | pool_allocator.h:291-298 | the count drops by one and the arena and active list are untouched; when the count reaches 0 the retired list is empty; otherwise only the count changes |
| Engine.DeallocateFreed | pool_allocator.h:299-305 | afterwards the retired list is empty and the slabs given back to the system are the old ones plus every retired slab; the arena, the active list and the count are untouched |
| Engine.AcquireKeepsValid | pool_allocator.h:189-234 | `_acquire` keeps every slab on exactly one list and `use <= cursor <= capacity`; it fails iff no active slab fits, no retired slab is eligible and the system has no memory, and then changes nothing; on success the span ends at the cursor of an active slab, an active slab with room is used without list changes, otherwise the slab comes from the retired list or is new and is pushed to the front; no other pre-existing slab changes |
| Engine.AcquireStaysValid | pool_allocator.h:189-234 | `_acquire` keeps the pool invariant |
| Engine.AcquireFromActive | pool_allocator.h:190-196 | the first active slab with room serves the request at its cursor, and the lists stay unchanged |
| Engine.AcquireFromRetired | pool_allocator.h:198-224 | the first eligible retired slab is unlinked, pushed to the front of the active list with its cursor reset, and serves the request at offset 0 |
| Engine.AcquireFromSystem | pool_allocator.h:198-233 | with no eligible retired slab, a new slab of `max(preferred, n)` slots is pushed to the front of the active list and serves the request at offset 0 |
| Engine.ReleaseKeepsValid | pool_allocator.h:235-255 | under the asserted deallocate contract `_release` keeps the invariant; it succeeds iff an active slab owns `p`; only that slab changes; it moves to the front of the retired list, with its cursor reset, exactly when its use reaches 0; other list memberships are unchanged |
| Engine.ReleaseStaysValid | pool_allocator.h:235-255 | `_release` keeps the pool invariant |
| Engine.DecHandlesKeepsValid | pool_allocator.h:291-305 | one handle fewer; when none is left, every retired slab goes back to the system and the retired list is empty; otherwise the retired list is kept; the active list and slab records never change; the invariant is kept |
| Pools.Pool.constructor | pool_allocator.h:315-317 | the zero-initialised static state |
| Pools.Pool.Acquire | pool_allocator.h:189-205 | the loop over the active list and the follow-up through `AcquireNode` produce exactly `Engine.Acquire` and keep the invariant |
| Pools.Pool.AcquireNode | pool_allocator.h:210-234 | the loop over the retired list, with unlinking at the head or after a predecessor, produces exactly `Engine.AcquireNode` |
| Pools.Pool.Release | pool_allocator.h:235-255 | the loop over the active list, with unlinking at the head or after a predecessor, produces exactly `Engine.Release` and keeps the invariant |
| Pools.Pool.IncSharedCounter | pool_allocator.h:287-290 | the state becomes `Engine.IncHandles` of the old state |
| Pools.Pool.DecSharedCounter | pool_allocator.h:291-298 | the state becomes `Engine.DecHandles` of the old state |
| Pools.Pool.DeallocateFreedList | pool_allocator.h:299-305 | the loop gives every retired slab back to the system and then empties the list |
| Accounting.EmptyAccounted | pool_allocator.h:315-317 | the zero-initialised pool accounts for the empty set of outstanding allocations |
| Accounting.HandlesKeepAccounted | pool_allocator.h:287-298 | creating a handle, and destroying one while any exists, keep the accounting, including when the last handle gives the retired slabs back |
| Accounting.AllocateAccounted | pool_allocator.h:189-205 | on a pool that accounts for its outstanding allocations, a failed allocation changes nothing; a successful one returns a span disjoint from every outstanding one, and the pool then accounts for it too |
| Accounting.DeallocateAccounted | pool_allocator.h:235-255 | releasing any outstanding pair meets `Engine.ReleaseContract` (the asserts at lines 161-162), always finds its slab, and leaves the pool accounting for the rest |
| Accounting.HistoryAccounted | pool_allocator.h:189-305 | after any history of calls from the zero-initialised pool, the pool accounts for exactly the allocations still outstanding: their spans are disjoint, below their slab's cursor, and each active slab's use is their total |
| Accounting.AccountedExtend | pool_allocator.h:144-154 | a span taken at the cursor of an active slab extends the accounting and overlaps no outstanding span |
| Accounting.AccountedShrink | pool_allocator.h:157-170 | giving back an outstanding span shrinks the accounting |
| Accounting.RemainingStayActive | pool_allocator.h:240-248 | a slab retired by a release holds no other outstanding span |
| Accounting.UseOfRemove | pool_allocator.h:163 | removing one outstanding allocation lowers only its own slab's count, by its size |
| Accounting.UseOfZero | pool_allocator.h:240 | a slab's use is 0 iff no outstanding allocation lies in it |
| Accounting.AllocateDeallocateRoundTrip | pool_allocator.h:189-255 | allocate followed by deallocate of the returned pair always finds its slab and restores the active list, the dropped slabs, the handle count and every pre-existing slab; it restores the whole pool when the serving slab was already active, and otherwise leaves the serving slab at the front of the retired list, which holds the old retired slabs plus that one |
| Accounting.RoundTripActiveOutcome | pool_allocator.h:190-196 | the round trip statement for a request served by an active slab |
| Accounting.RoundTripRetiredOutcome | pool_allocator.h:214-224 | the round trip statement for a request served by a retired slab |
| Accounting.RoundTripSystemOutcome | pool_allocator.h:229-233 | the round trip statement for a request served by a new slab |
| Accounting.NoSlabNoSpan | pool_allocator.h:198-204 | with no active slab with room, no eligible retired slab and no system memory, `_acquire` hands out nothing |
| Accounting.RoundTripActive | pool_allocator.h:144-170 | served by an active slab, the round trip restores the pool exactly |
| Accounting.RoundTripRetired | pool_allocator.h:214-248 | served by a retired slab, the round trip only moves that slab to the front of the retired list |
| Accounting.RetiredHeadRoundTrip | pool_allocator.h:214-248 | served by the first slab of the retired list, the round trip restores the pool exactly |
| Accounting.RoundTripSystem | pool_allocator.h:229-248 | served by a new slab, the round trip leaves that slab, empty, at the front of the retired list |
| Accounting.RoundTripFront | pool_allocator.h:240-248 | releasing the single span of the slab at the head of the active list retires the slab |
| Handles.ComputeBlockSize | pool_allocator.h:178-187 | 0 becomes 256; a capacity above `max(ptrdiff_t) / sizeof(T)` is clamped to it; any other is kept; the result is at least 1 |
| Handles.ComputeBlockSizeIdempotent | pool_allocator.h:178-187 | when the default capacity is admitted for the element size, normalising twice equals normalising once, and the result never exceeds the maximum |
| Handles.Handle.constructor | pool_allocator.h:43-47 | the capacity is normalised and the live-handle count grows by one |
| Handles.Handle.Copy | pool_allocator.h:48-67 | copy and move construction take the capacity unchanged and count one more live handle |
| Handles.Handle.Convert | pool_allocator.h:53-58 | conversion from another element type normalises the capacity again for this element size and counts one more live handle |
| Handles.Handle.Assign | pool_allocator.h:59-71 | copy and move assignment copy the capacity only |
| Handles.Handle.Swap | pool_allocator.h:95-97 | the two capacities are exchanged |
| Handles.Handle.Destroy | pool_allocator.h:72-74 | the state becomes `Engine.DecHandles` of the old state |
| Handles.Handle.Allocate | pool_allocator.h:75-86 | `allocate(0)` returns null and leaves the pool unchanged; otherwise the pool follows `Engine.Acquire`, and a null from the engine becomes `bad_alloc` |
| Handles.Handle.Deallocate | pool_allocator.h:87-94 | a null pointer or `n == 0` is a no-op that counts as found; otherwise the pool follows `Engine.Release`; not found means nothing changed |
| Handles.Equal | pool_allocator.h:321-324 | any two handles of the same pair compare equal |
| Scenarios.FirstRequestCreatesSlab | pool_allocator.h:189-234 | from a fresh pool, the first request of `n` creates slab 0 of `max(preferred, n)` slots and takes offset 0 |
| Scenarios.SingleSlabServes | pool_allocator.h:189-196 | with room left in the only active slab, a request is served at its cursor |
| Scenarios.FifthRequestCreatesSecondSlab | pool_allocator.h:189-234 | with the only slab full, a second slab is created at the front of the active list |
| Scenarios.FiveSingleSlotRequests | pool_allocator.h:189-234 | from a fresh pool with preferred capacity 4, five one-slot requests take offsets 0 to 3 of slab 0 and then offset 0 of a new slab 1 |
| Scenarios.RetireEmptiedSlab | pool_allocator.h:235-255 | releasing a slab's only span retires it with its cursor reset |
| Scenarios.AllocateThenRetire | pool_allocator.h:189-255 | from a fresh pool, `allocate(3)` and then `deallocate` of that span leave the new slab retired and empty |
| Scenarios.ReleaseLeavesHole | pool_allocator.h:157-170 | releasing a span that is not the tail leaves the cursor in place |
| Scenarios.HoleClosesWhenSlabEmpties | pool_allocator.h:157-170 | releasing the remaining span empties the slab, which is retired with cursor 0 |
| Scenarios.TwoSpansReleasedInOrder | pool_allocator.h:157-255 | from a fresh pool, two spans of 2 released in allocation order: the first release leaves a hole, the second retires the slab |
| Scenarios.OutOfMemory | pool_allocator.h:198-204 | with no slab and no system memory, the engine returns null and changes nothing |
| Scenarios.RetireFullSlab | pool_allocator.h:235-255 | with one handle, a slab filled by one request and given back is retired with its cursor reset |
| Scenarios.RetiredSlabReused | pool_allocator.h:206-224 | a retired slab of 8 slots serves a request of 3 |
| Scenarios.RetiredSlabTooLarge | pool_allocator.h:206-234 | a retired slab of 8 slots does not serve a request of 2, so a new slab is created |
| Scenarios.ReuseAfterRetire | pool_allocator.h:206-234 | from a fresh pool: the 8-slot slab, once retired, is reused for 3 slots but not for 2 |
| Scenarios.OversizedRequestAfterSmallOne | pool_allocator.h:145-147 | from a fresh pool, `allocate(1)` then `allocate(300)` with preferred capacity 256: as written the 256-slot slab serves offset 1 and its cursor becomes 301, past its end; the corrected engine creates a 300-slot slab instead |

## Left out

- The mutex, `_lock` and the `THREAD_SAFE` choice (pool_allocator.h:272-286, 306-311): the model is single-threaded, so it says nothing about concurrent calls.
- `_node::allocate`, `_node::deallocate`, `_aligned_malloc` and `_aligned_free` (pool_allocator.h:111-125, 256-271). The byte size of a `_node`, its layout and the alignment of the returned pointers are not modelled. Creating a slab appends a record to the arena and may fail through `systemHasMemory`. Freeing a slab moves its id into `dropped`.
- Slab records are replaced in the arena instead of being mutated through a `_node*`, and the intrusive `_m_next` links are sequences. The model therefore does not capture pointer aliasing or the byte addresses of slots.
- `construct` and `destroy` (pool_allocator.h:98-106): placement construction, with no pool bookkeeping.
- `rebind`, the `propagate_*` and `is_always_equal` typedefs, `operator!=` (pool_allocator.h:326-329) and the MSVC pragmas: type-level plumbing.
- The per-type static state: a handle names its pool explicitly. `sizeof(T)` is a parameter, and `ptrdiff_t` is taken as 64 bits.
- test.cpp, a timing driver with no engine logic.
- Slabs.Slab.Acquire: counters are unbounded naturals. This corrected acquire never wraps, since it admits only `cursor + n <= capacity`. The `size_t` wrap of the source is modelled separately by `Slabs.Slab.AcquireAsWritten`.
- Slabs.Slab.Release: the two conditions the source `assert`s at lines 161-162 (use at least `n`, and `n` slots left from the offset) are requires. In a build with `NDEBUG`, a caller that breaks them makes `_m_use_counter -= _n` wrap; that is not modelled. `Accounting.DeallocateAccounted` proves that every outstanding pair meets them.
- Engine.Release: the same two conditions, as `Engine.ReleaseContract`, are a requires.
- Engine.DecHandles: the `assert(_sm_shared_counter)` at line 293 is a requires. In a build with `NDEBUG`, `--_sm_shared_counter` at zero would wrap; that is not modelled.
- Pools.Pool.DecSharedCounter: the same assert at line 293 is a requires.
- Handles.Handle.Destroy: requires a positive live-handle count, which is the assert at line 293 and holds for every handle that was constructed.
- Handles.Handle.Deallocate: requires `Engine.ReleaseContract`, the asserts at lines 161-162. A `false` result stands for the failing `assert(_founded)` of a debug build.
- Engine.IncHandles: `_sm_shared_counter` is an unbounded natural, so its 64-bit wrap-around is not modelled.
- Handles.ComputeBlockSizeIdempotent: holds only for element sizes up to `max(ptrdiff_t) / 256`. For larger elements the default of 256 is itself above the maximum, and a second normalisation clamps it.

## Findings

| source | as written | input that shows it | evidently intended | confidence | as-written member | corrected member |
|---|---|---|---|---|---|---|
| pool_allocator.h:145-147 | `_acquire` offers every request to every active slab. `acquire` tests `_m_current_free_index <= _m_block_size - _n` in `size_t`, so when `n > capacity` the subtraction wraps and the test passes (a build without `NDEBUG` stops at the assert on line 145 instead) | preferred capacity 256, `allocate(1)` then `allocate(300)`: the second call is served by the 256-slot slab at offset 1, and its cursor becomes 301 | a slab that is too small refuses the request, so the request falls through to `_acquire_node` | not executed | Scenarios.OversizedRequestAfterSmallOne | Slabs.Slab.Acquire |

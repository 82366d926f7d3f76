/**
 * Concrete runs of the engine from a fresh pool, worked out on the `Engine`
 * functions: filling one slab, the retirement of a slab whose last span comes
 * back, the hole left by releasing a span that is not the tail, the reuse
 * ratio, the failure that `allocate` turns into `std::bad_alloc`, and the
 * oversized request that the source's wrapping room test lets through.
 * Each run is chained from `Empty()` through the results of the steps before.
 */
module Scenarios {
  import opened Wrappers
  import opened Slabs
  import opened Engine

  /** A pool whose only slab is slab 0, active. */
  function OneActive(s: Slab, handles: nat): State {
    State([s], [0], [], {}, handles)
  }

  /** A pool whose only slab is slab 0, retired. */
  function OneRetired(s: Slab, handles: nat): State {
    State([s], [], [0], {}, handles)
  }

  /** The first request on a pool without slabs creates slab 0 of `max(preferred, n)` slots and takes offset 0. */
  lemma FirstRequestCreatesSlab(n: nat, preferred: nat, handles: nat)
    requires n > 0
    ensures var cap := if n < preferred then preferred else n;
            Acquire(Empty().(handles := handles), n, preferred, true) == (At(0, 0), OneActive(Slab(cap, n, n), handles))
  {
    var st := Empty().(handles := handles);
    var cap := if n < preferred then preferred else n;
    var mid := State([New(cap)], [0], [], {}, handles);
    assert st.arena + [New(cap)] == mid.arena && [0] + st.used == mid.used;
    assert AcquireNode(st, n, preferred, true) == (Some(0), mid);
    assert mid.arena[0 := Slab(cap, n, n)] == [Slab(cap, n, n)];
  }

  /** With room left in the only active slab, a request is served at its cursor. */
  lemma SingleSlabServes(s: Slab, n: nat, preferred: nat, handles: nat)
    requires n > 0 && s.cursor + n <= s.capacity
    ensures Acquire(OneActive(s, handles), n, preferred, true)
         == (At(0, s.cursor), OneActive(Slab(s.capacity, s.use + n, s.cursor + n), handles))
  {
    var st := OneActive(s, handles);
    assert FitsAt(st.arena, n)(st.used[0]);
    assert IndexOfFirst(st.used, FitsAt(st.arena, n)) == Some(0);
    assert st.arena[0 := Slab(s.capacity, s.use + n, s.cursor + n)] == [Slab(s.capacity, s.use + n, s.cursor + n)];
  }

  /** The fifth single-slot request finds slab 0 full and creates slab 1 at the front of the active list. */
  lemma FifthRequestCreatesSecondSlab()
    ensures Acquire(OneActive(Slab(4, 4, 4), 0), 1, 4, true)
         == (At(1, 0), State([Slab(4, 4, 4), Slab(4, 1, 1)], [1, 0], [], {}, 0))
  {
    var s4 := OneActive(Slab(4, 4, 4), 0);
    assert !FitsAt(s4.arena, 1)(s4.used[0]);
    assert IndexOfFirst(s4.used, FitsAt(s4.arena, 1)) == None;
    var mid := State([Slab(4, 4, 4), New(4)], [1, 0], [], {}, 0);
    assert s4.arena + [New(4)] == mid.arena && [1] + s4.used == mid.used;
    assert AcquireNode(s4, 1, 4, true) == (Some(1), mid);
    assert mid.arena[1 := Slab(4, 1, 1)] == [Slab(4, 4, 4), Slab(4, 1, 1)];
  }

  /** Preferred capacity 4: five single-slot requests fill slab 0 at offsets 0 to 3, then open slab 1. */
  lemma FiveSingleSlotRequests()
    ensures var (p1, s1) := Acquire(Empty(), 1, 4, true);
            var (p2, s2) := Acquire(s1, 1, 4, true);
            var (p3, s3) := Acquire(s2, 1, 4, true);
            var (p4, s4) := Acquire(s3, 1, 4, true);
            var (p5, s5) := Acquire(s4, 1, 4, true);
            && [p1, p2, p3, p4, p5] == [At(0, 0), At(0, 1), At(0, 2), At(0, 3), At(1, 0)]
            && s4 == OneActive(Slab(4, 4, 4), 0)
            && s5 == State([Slab(4, 4, 4), Slab(4, 1, 1)], [1, 0], [], {}, 0)
  {
    assert Empty().(handles := 0) == Empty();
    FirstRequestCreatesSlab(1, 4, 0);
    SingleSlabServes(Slab(4, 1, 1), 1, 4, 0);
    SingleSlabServes(Slab(4, 2, 2), 1, 4, 0);
    SingleSlabServes(Slab(4, 3, 3), 1, 4, 0);
    FifthRequestCreatesSecondSlab();
  }

  /** `deallocate(p, 3)` of the only span of a slab retires it with its cursor reset. */
  lemma RetireEmptiedSlab()
    ensures Release(OneActive(Slab(256, 3, 3), 0), At(0, 0), 3) == (true, OneRetired(Slab(256, 0, 0), 0))
  {
    var s1 := OneActive(Slab(256, 3, 3), 0);
    assert ClaimsAt(s1.arena, At(0, 0))(s1.used[0]);
    assert IndexOfFirst(s1.used, ClaimsAt(s1.arena, At(0, 0))) == Some(0);
    assert RemoveAt(s1.used, 0) == [] && [0] + s1.freed == [0];
    assert s1.arena[0 := Slab(256, 0, 0)] == [Slab(256, 0, 0)];
  }

  /** `allocate(3)` on a fresh pool, then `deallocate` of that span: the new slab ends up retired. */
  lemma AllocateThenRetire()
    ensures var (p, s1) := Acquire(Empty(), 3, 256, true);
            p == At(0, 0) && Release(s1, p, 3) == (true, OneRetired(Slab(256, 0, 0), 0))
  {
    assert Empty().(handles := 0) == Empty();
    FirstRequestCreatesSlab(3, 256, 0);
    RetireEmptiedSlab();
  }

  /** Releasing the first of two spans of 2 leaves a hole: use 2, cursor still 4. */
  lemma ReleaseLeavesHole()
    ensures Release(OneActive(Slab(256, 4, 4), 0), At(0, 0), 2) == (true, OneActive(Slab(256, 2, 4), 0))
  {
    var s2 := OneActive(Slab(256, 4, 4), 0);
    assert ClaimsAt(s2.arena, At(0, 0))(s2.used[0]);
    assert IndexOfFirst(s2.used, ClaimsAt(s2.arena, At(0, 0))) == Some(0);
    assert s2.arena[0 := Slab(256, 2, 4)] == [Slab(256, 2, 4)];
  }

  /** Releasing the second span then empties the slab, which is retired with its cursor reset. */
  lemma HoleClosesWhenSlabEmpties()
    ensures Release(OneActive(Slab(256, 2, 4), 0), At(0, 2), 2) == (true, OneRetired(Slab(256, 0, 0), 0))
  {
    var s3 := OneActive(Slab(256, 2, 4), 0);
    assert ClaimsAt(s3.arena, At(0, 2))(s3.used[0]);
    assert IndexOfFirst(s3.used, ClaimsAt(s3.arena, At(0, 2))) == Some(0);
    assert s3.arena[0].Release(2, 2).0 == Slab(256, 0, 2);
    assert RemoveAt(s3.used, 0) == [] && [0] + s3.freed == [0];
    assert s3.arena[0 := Slab(256, 0, 0)] == [Slab(256, 0, 0)];
  }

  /**
   * Two spans of 2 from a fresh pool, released in allocation order: the first
   * release leaves a hole, the second empties and retires the slab.
   */
  lemma TwoSpansReleasedInOrder()
    ensures var (p1, s1) := Acquire(Empty(), 2, 256, true);
            var (p2, s2) := Acquire(s1, 2, 256, true);
            && p1 == At(0, 0) && p2 == At(0, 2)
            && ReleaseContract(s2, p1, 2)
            && var (f3, s3) := Release(s2, p1, 2);
            && f3 && s3 == OneActive(Slab(256, 2, 4), 0)
            && Release(s3, p2, 2) == (true, OneRetired(Slab(256, 0, 0), 0))
  {
    assert Empty().(handles := 0) == Empty();
    FirstRequestCreatesSlab(2, 256, 0);
    SingleSlabServes(Slab(256, 2, 2), 2, 256, 0);
    ReleaseLeavesHole();
    HoleClosesWhenSlabEmpties();
  }

  /** With no slab to use and no memory from the system, the engine returns `Null` and changes nothing. */
  lemma OutOfMemory()
    ensures Acquire(Empty(), 1, 256, false) == (Null, Empty())
  {
  }

  /**
   * With one live handle, an 8-slot slab filled by one request and given back
   * is retired with its cursor reset.
   */
  lemma RetireFullSlab()
    ensures var (p, s1) := Acquire(IncHandles(Empty()), 8, 8, true);
            p == At(0, 0) && Release(s1, p, 8) == (true, OneRetired(Slab(8, 0, 0), 1))
  {
    FirstRequestCreatesSlab(8, 8, 1);
    var s1 := OneActive(Slab(8, 8, 8), 1);
    assert ClaimsAt(s1.arena, At(0, 0))(s1.used[0]);
    assert IndexOfFirst(s1.used, ClaimsAt(s1.arena, At(0, 0))) == Some(0);
    assert RemoveAt(s1.used, 0) == [] && [0] + s1.freed == [0];
    assert s1.arena[0 := Slab(8, 0, 0)] == [Slab(8, 0, 0)];
  }

  /** The retired 8-slot slab serves a request of 3 (8 < 9) ... */
  lemma RetiredSlabReused()
    ensures Acquire(OneRetired(Slab(8, 0, 0), 1), 3, 256, true) == (At(0, 0), OneActive(Slab(8, 3, 3), 1))
  {
    var st := OneRetired(Slab(8, 0, 0), 1);
    assert EligibleAt(st.arena, 3)(st.freed[0]);
    assert IndexOfFirst(st.freed, EligibleAt(st.arena, 3)) == Some(0);
    assert RemoveAt(st.freed, 0) == [];
    var mid := State([Slab(8, 0, 0)], [0], [], {}, 1);
    assert st.arena[0 := st.arena[0].Reset()] == mid.arena;
    assert [0] + st.used == mid.used;
    assert AcquireNode(st, 3, 256, true) == (Some(0), mid);
    assert mid.arena[0 := Slab(8, 3, 3)] == [Slab(8, 3, 3)];
  }

  /** ... but not a request of 2 (8 >= 6): a new slab is created instead. */
  lemma RetiredSlabTooLarge()
    ensures Acquire(OneRetired(Slab(8, 0, 0), 1), 2, 256, true)
         == (At(1, 0), State([Slab(8, 0, 0), Slab(256, 2, 2)], [1], [0], {}, 1))
  {
    var st := OneRetired(Slab(8, 0, 0), 1);
    assert !EligibleAt(st.arena, 2)(st.freed[0]);
    assert IndexOfFirst(st.freed, EligibleAt(st.arena, 2)) == None;
    var mid := State([Slab(8, 0, 0), New(256)], [1], [0], {}, 1);
    assert st.arena + [New(256)] == mid.arena && [1] + st.used == mid.used;
    assert AcquireNode(st, 2, 256, true) == (Some(1), mid);
    assert mid.arena[1 := Slab(256, 2, 2)] == [Slab(8, 0, 0), Slab(256, 2, 2)];
  }

  /** The whole reuse run from a fresh pool: retire the 8-slot slab, then reuse it for 3 slots but not for 2. */
  lemma ReuseAfterRetire()
    ensures var (p, s1) := Acquire(IncHandles(Empty()), 8, 8, true);
            && Release(s1, p, 8).0
            && var s2 := Release(s1, p, 8).1;
            && Acquire(s2, 3, 256, true) == (At(0, 0), OneActive(Slab(8, 3, 3), 1))
            && Acquire(s2, 2, 256, true).0 == At(1, 0)
  {
    RetireFullSlab();
    RetiredSlabReused();
    RetiredSlabTooLarge();
  }

  /**
   * The oversized request, reached from a fresh pool: after `allocate(1)` with
   * preferred capacity 256, `allocate(300)` as written is served by the
   * 256-slot slab at offset 1 and leaves its cursor at 301, past the end of
   * its storage; the corrected engine creates a 300-slot slab instead.
   */
  lemma OversizedRequestAfterSmallOne()
    ensures var (p1, s1) := Acquire(Empty(), 1, 256, true);
            && p1 == At(0, 0) && s1 == OneActive(Slab(256, 1, 1), 0)
            && AcquireAsWritten(s1, 300, 256, true) == (At(0, 1), OneActive(Slab(256, 301, 301), 0))
            && s1.arena[0].cursor + 300 > s1.arena[0].capacity
            && Acquire(s1, 300, 256, true) == (At(1, 0), State([Slab(256, 1, 1), Slab(300, 300, 300)], [1, 0], [], {}, 0))
  {
    assert Empty().(handles := 0) == Empty();
    FirstRequestCreatesSlab(1, 256, 0);
    var s1 := OneActive(Slab(256, 1, 1), 0);
    OversizedRequestExample();
    assert FitsAtAsWritten(s1.arena, 300)(s1.used[0]);
    assert IndexOfFirst(s1.used, FitsAtAsWritten(s1.arena, 300)) == Some(0);
    assert s1.arena[0 := Slab(256, 301, 301)] == [Slab(256, 301, 301)];
    assert !FitsAt(s1.arena, 300)(s1.used[0]);
    assert IndexOfFirst(s1.used, FitsAt(s1.arena, 300)) == None;
    var mid := State([Slab(256, 1, 1), New(300)], [1, 0], [], {}, 0);
    assert s1.arena + [New(300)] == mid.arena && [1] + s1.used == mid.used;
    assert AcquireNode(s1, 300, 256, true) == (Some(1), mid);
    assert mid.arena[1 := Slab(300, 300, 300)] == [Slab(256, 1, 1), Slab(300, 300, 300)];
  }
}

/**
 * The shared pool state of pool_allocator.h as an object: the `static inline`
 * members `_sm_node_used`, `_sm_node_freed` and `_sm_shared_counter`, and the
 * engine routines that walk and relink those lists in place. Every method is
 * proved to produce exactly the state the matching `Engine` function describes,
 * so the lemmas of `Engine` and `Accounting` apply to it.
 */
module Pools {
  import opened Wrappers
  import opened Slabs
  import opened Engine

  class Pool {
    /** Every slab created so far, indexed by slab id. */
    var arena: seq<Slab>
    /** `_sm_node_used`: the active list, head first. */
    var used: seq<SlabId>
    /** `_sm_node_freed`: the retired list, head first. */
    var freed: seq<SlabId>
    /** The slabs already given back to the system. */
    var dropped: set<SlabId>
    /** `_sm_shared_counter`: the number of live handles. */
    var handles: nat

    function State(): State
      reads this
    {
      Engine.State(arena, used, freed, dropped, handles)
    }

    ghost predicate Valid()
      reads this
    {
      Engine.Valid(State())
    }

    /** The zero-initialised static state. */
    constructor ()
      ensures State() == Empty() && Valid()
    {
      arena, used, freed, dropped, handles := [], [], [], {}, 0;
    }

    /**
     * `_acquire(n)`: walk the active list front to back and take the span from
     * the first slab with room; otherwise obtain a slab from `AcquireNode` and
     * take the span from it. `Null` only when no slab could be obtained.
     */
    method Acquire(n: nat, preferred: nat, systemHasMemory: bool) returns (p: Ptr)
      requires Valid() && n > 0
      modifies this
      ensures Valid()
      ensures (p, State()) == Engine.Acquire(old(State()), n, preferred, systemHasMemory)
    {
      AcquireStaysValid(State(), n, preferred, systemHasMemory);
      var i := 0;
      while i < |used|
        invariant 0 <= i <= |used|
        invariant State() == old(State())
        invariant forall j :: 0 <= j < i ==> !FitsAt(arena, n)(used[j])
      {
        var id := used[i];
        assert id in used;
        var (s, off) := arena[id].Acquire(n);
        if off.Some? {
          arena := arena[id := s];
          return At(id, off.value);
        }
        i := i + 1;
      }
      var node := AcquireNode(n, preferred, systemHasMemory);
      if node.Some? {
        var id := node.value;
        var (s, off) := arena[id].Acquire(n);
        if off.Some? {
          arena := arena[id := s];
          return At(id, off.value);
        }
      }
      return Null;
    }

    /**
     * `_acquire_node(n)`: walk the retired list for the first slab eligible for
     * `n`, unlink it (at the head, or after its predecessor) and attach it to
     * the front of the active list; failing that, create a slab of
     * `max(preferred, n)` slots and attach it. `None` when the system has no
     * memory for a new slab.
     */
    method AcquireNode(n: nat, preferred: nat, systemHasMemory: bool) returns (node: Option<SlabId>)
      requires Valid() && n > 0
      modifies this
      ensures (node, State()) == Engine.AcquireNode(old(State()), n, preferred, systemHasMemory)
    {
      var k := 0;
      while k < |freed|
        invariant 0 <= k <= |freed|
        invariant State() == old(State())
        invariant forall j :: 0 <= j < k ==> !EligibleAt(arena, n)(freed[j])
      {
        var id := freed[k];
        assert id in freed;
        if n == 1 || MatchFreeNode(arena[id].capacity, n) {
          ghost var st0 := State();
          assert EligibleAt(st0.arena, n)(st0.freed[k]);
          assert IndexOfFirst(st0.freed, EligibleAt(st0.arena, n)) == Some(k);
          if k == 0 {
            freed := freed[1..];
            assert freed == RemoveAt(st0.freed, 0);
          } else {
            freed := freed[..k] + freed[k + 1..];
          }
          used := [id] + used;
          arena := arena[id := arena[id].Reset()];
          assert State() == st0.(arena := st0.arena[id := st0.arena[id].Reset()], used := [id] + st0.used,
                                 freed := RemoveAt(st0.freed, k));
          return Some(id);
        }
        k := k + 1;
      }
      if !systemHasMemory {
        return None;
      }
      var id := |arena|;
      arena := arena + [New(if n < preferred then preferred else n)];
      used := [id] + used;
      return Some(id);
    }

    /**
     * `_release(p, n)`: walk the active list for the slab owning `p` and give
     * the span back to it; if that empties the slab, unlink it (at the head, or
     * after its predecessor) and attach it to the front of the retired list.
     * Reports whether any active slab owned `p`.
     */
    method Release(p: Ptr, n: nat) returns (found: bool)
      requires Valid() && ReleaseContract(State(), p, n)
      modifies this
      ensures Valid()
      ensures (found, State()) == Engine.Release(old(State()), p, n)
    {
      ReleaseStaysValid(State(), p, n);
      var i := 0;
      while i < |used|
        invariant 0 <= i <= |used|
        invariant State() == old(State())
        invariant forall j :: 0 <= j < i ==> !ClaimsAt(arena, p)(used[j])
      {
        var id := used[i];
        assert id in used;
        // A slab owns exactly the pointers into its own storage.
        if p.At? && p.slab == id {
          var (s, claimed) := arena[id].Release(p.offset, n);
          if claimed {
            ghost var st0 := State();
            assert ClaimsAt(st0.arena, p)(st0.used[i]);
            assert IndexOfFirst(st0.used, ClaimsAt(st0.arena, p)) == Some(i);
            if s.use == 0 {
              if i == 0 {
                used := used[1..];
                assert used == RemoveAt(st0.used, 0);
              } else {
                used := used[..i] + used[i + 1..];
              }
              freed := [id] + freed;
              arena := arena[id := s.Reset()];
              assert State() == st0.(arena := st0.arena[id := s.Reset()], used := RemoveAt(st0.used, i),
                                     freed := [id] + st0.freed);
            } else {
              arena := arena[id := s];
              assert State() == st0.(arena := st0.arena[id := s]);
            }
            return true;
          }
        }
        i := i + 1;
      }
      return false;
    }

    /** `_inc_shared_counter`. */
    method IncSharedCounter()
      requires Valid()
      modifies this
      ensures Valid() && State() == IncHandles(old(State()))
    {
      handles := handles + 1;
    }

    /**
     * `_dec_shared_counter`: one handle fewer; when none is left and the
     * retired list is not empty, every retired slab goes back to the system.
     */
    method DecSharedCounter()
      requires Valid() && handles > 0
      modifies this
      ensures Valid() && State() == DecHandles(old(State()))
    {
      DecHandlesKeepsValid(State());
      handles := handles - 1;
      if handles == 0 && freed != [] {
        DeallocateFreedList();
      }
    }

    /** `_deallocate_list(_sm_node_freed)`: free the retired slabs one by one, then empty the list. */
    method DeallocateFreedList()
      modifies this
      ensures State() == DeallocateFreed(old(State()))
    {
      var k := 0;
      while k < |freed|
        invariant 0 <= k <= |freed|
        invariant freed == old(freed) && arena == old(arena) && used == old(used) && handles == old(handles)
        invariant dropped == old(dropped) + (set id | id in freed[..k])
      {
        assert freed[..k + 1] == freed[..k] + [freed[k]];
        dropped := dropped + {freed[k]};
        k := k + 1;
      }
      assert freed[..k] == freed;
      freed := [];
    }
  }
}

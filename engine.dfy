/**
 * The allocation engine of pool_allocator.h as functions on an explicit pool
 * state. In the source this state is `static inline` per (element type,
 * thread-safety flag) pair; here it is a value, and the `Pools.Pool` class
 * holds it as fields. Slabs live in an index-based arena, the two intrusive
 * singly linked lists become sequences of slab ids (index 0 is the list head),
 * and a pointer is a slab id with an element offset.
 */
module Engine {
  import opened Wrappers
  import opened Slabs

  type SlabId = nat

  /** A pointer handed out by the pool: `Null`, or `offset` slots into slab `slab`. */
  datatype Ptr = Null | At(slab: SlabId, offset: nat)

  /**
   * `arena` holds every slab ever created; `used` is `_sm_node_used` (active
   * slabs), `freed` is `_sm_node_freed` (retired slabs), `dropped` holds the
   * slabs already returned to the system, and `handles` is `_sm_shared_counter`.
   */
  datatype State = State(arena: seq<Slab>, used: seq<SlabId>, freed: seq<SlabId>,
                         dropped: set<SlabId>, handles: nat)

  /** The zero-initialised static state. */
  function Empty(): (st: State)
    ensures Valid(st) && st.used == [] && st.freed == [] && st.handles == 0
  {
    State([], [], [], {}, 0)
  }

  predicate Distinct(s: seq<SlabId>) {
    forall i, j :: 0 <= i < j < |s| ==> s[i] != s[j]
  }

  /** A slab id lies on exactly one of the active list, the retired list and the dropped set. */
  predicate OnExactlyOne(used: seq<SlabId>, freed: seq<SlabId>, dropped: set<SlabId>, id: SlabId) {
    (id in used || id in freed || id in dropped) &&
    !(id in used && id in freed) &&
    !(id in used && id in dropped) &&
    !(id in freed && id in dropped)
  }

  /**
   * The pool invariant: every slab in the arena is on exactly one list (or was
   * given back), no list repeats a slab, every active slab is sound and holds
   * at least one slot in use, and every retired slab is sound, empty and has
   * its cursor reset.
   */
  predicate Valid(st: State) {
    (forall id :: id in st.used ==> id < |st.arena| && st.arena[id].Sound() && st.arena[id].use > 0) &&
    (forall id :: id in st.freed ==> id < |st.arena| && st.arena[id].Sound() && st.arena[id].use == 0 && st.arena[id].cursor == 0) &&
    (forall id :: id in st.dropped ==> id < |st.arena|) &&
    (forall id: SlabId :: id < |st.arena| ==> OnExactlyOne(st.used, st.freed, st.dropped, id)) &&
    Distinct(st.used) && Distinct(st.freed)
  }

  /** `s` without its element at index `k` (a `detach`, from the head or via a predecessor). */
  function RemoveAt<T>(s: seq<T>, k: nat): (r: seq<T>)
    requires k < |s|
    ensures |r| == |s| - 1
    ensures forall j :: 0 <= j < k ==> r[j] == s[j]
    ensures forall j :: k <= j < |r| ==> r[j] == s[j + 1]
  {
    s[..k] + s[k + 1..]
  }

  lemma RemoveAtMembers(s: seq<SlabId>, k: nat)
    requires k < |s| && Distinct(s)
    ensures Distinct(RemoveAt(s, k))
    ensures forall x :: x in RemoveAt(s, k) <==> x in s && x != s[k]
  {
    var r := RemoveAt(s, k);
    forall x ensures x in r <==> x in s && x != s[k] {
      if x in r {
        var j :| 0 <= j < |r| && r[j] == x;
        if j < k { assert s[j] == x; } else { assert s[j + 1] == x; }
      }
      if x in s && x != s[k] {
        var j :| 0 <= j < |s| && s[j] == x;
        if j < k { assert r[j] == x; } else { assert r[j - 1] == x; }
      }
    }
  }

  /**
   * The list walk shared by every engine loop: the index of the first element
   * satisfying `p`, or `None` when no element does.
   */
  function IndexOfFirst<T>(s: seq<T>, p: T -> bool): (r: Option<nat>)
    ensures r.Some? ==> r.value < |s| && p(s[r.value])
    ensures r.Some? ==> forall j :: 0 <= j < r.value ==> !p(s[j])
    ensures r.None? ==> forall j :: 0 <= j < |s| ==> !p(s[j])
  {
    if s == [] then None
    else if p(s[0]) then Some(0)
    else match IndexOfFirst(s[1..], p)
      case None => None
      case Some(k) => Some(k + 1)
  }

  /**
   * `_match_free_node`: the quotient `capacity / n` is 1 or 2, which says
   * exactly that the slab holds the request and wastes less than twice it.
   */
  predicate MatchFreeNode(capacity: nat, n: nat)
    requires n > 0
    ensures MatchFreeNode(capacity, n) <==> n <= capacity < 3 * n
  {
    QuotientOneOrTwo(capacity, n);
    var d := capacity / n;
    d > 0 && d < 3
  }

  /** The quotient `c / n` is 1 or 2 iff `n <= c < 3n`. */
  lemma QuotientOneOrTwo(c: nat, n: nat)
    requires n > 0
    ensures 0 < c / n < 3 <==> n <= c < 3 * n
  {
    var d, m := c / n, c % n;
    assert c == d * n + m && 0 <= m < n;
    if d == 0 {
      assert c < n;
    } else if d < 3 {
      assert n <= d * n <= 2 * n;
    } else {
      assert d * n >= 3 * n;
    }
  }

  /** The reuse rule of `_acquire_node`: a retired slab serves a request of `n` iff this holds. */
  predicate Eligible(capacity: nat, n: nat)
    requires n > 0
    ensures Eligible(capacity, n) <==> n == 1 || n <= capacity < 3 * n
  {
    n == 1 || MatchFreeNode(capacity, n)
  }

  /** The slab with this id has room for `n` slots. */
  function FitsAt(arena: seq<Slab>, n: nat): SlabId -> bool {
    (id: SlabId) => id < |arena| && arena[id].Fits(n)
  }

  /** The slab with this id may be reused for a request of `n` slots. */
  function EligibleAt(arena: seq<Slab>, n: nat): SlabId -> bool
    requires n > 0
  {
    (id: SlabId) => id < |arena| && Eligible(arena[id].capacity, n)
  }

  /** The slab with this id owns the storage `p` points into. */
  function ClaimsAt(arena: seq<Slab>, p: Ptr): SlabId -> bool {
    (id: SlabId) => id < |arena| && p.At? && p.slab == id && p.offset < arena[id].capacity
  }

  /**
   * `_acquire_node(n)`: move the first eligible retired slab to the front of the
   * active list (its cursor reset), or else create a slab of `max(preferred, n)`
   * slots at the front of the active list; `None` when the system has no memory.
   */
  function AcquireNode(st: State, n: nat, preferred: nat, systemHasMemory: bool): (r: (Option<SlabId>, State))
    requires n > 0
    ensures r.0.Some? ==> r.0.value < |r.1.arena| && r.1.used == [r.0.value] + st.used
    ensures r.0.Some? && Valid(st) ==> n <= r.1.arena[r.0.value].capacity
    ensures r.0.None? <==> IndexOfFirst(st.freed, EligibleAt(st.arena, n)).None? && !systemHasMemory
    ensures r.0.None? ==> r.1 == st
  {
    match IndexOfFirst(st.freed, EligibleAt(st.arena, n))
    case Some(k) =>
      var id := st.freed[k];
      assert id in st.freed;
      (Some(id), st.(arena := st.arena[id := st.arena[id].Reset()],
                     used := [id] + st.used,
                     freed := RemoveAt(st.freed, k)))
    case None =>
      if systemHasMemory then
        var id := |st.arena|;
        (Some(id), st.(arena := st.arena + [New(if n < preferred then preferred else n)],
                       used := [id] + st.used))
      else
        (None, st)
  }

  /** Take `n` slots from slab `id` (the final `acquire` of `_acquire`). */
  function TakeFrom(st: State, id: SlabId, n: nat): (r: (Ptr, State))
    requires id < |st.arena| && n > 0
    ensures r.0.At? <==> st.arena[id].Fits(n)
    ensures r.0.At? ==> r.0.slab == id && r.0.offset + n <= st.arena[id].capacity
    ensures r.0.At? ==> r.1.used == st.used && r.1.freed == st.freed && |r.1.arena| == |st.arena|
    ensures r.0 == Null ==> r.1 == st
    ensures r.0.At? ==> r.0.offset == st.arena[id].cursor
    ensures r.0.At? ==> r.1 == st.(arena := st.arena[id := Slab(st.arena[id].capacity, st.arena[id].use + n, st.arena[id].cursor + n)])
  {
    var (s, off) := st.arena[id].Acquire(n);
    match off
    case Some(o) => (At(id, o), st.(arena := st.arena[id := s]))
    case None => (Null, st)
  }

  /**
   * `_acquire(n)`: the first active slab with room serves the request; only if
   * none has room is a slab obtained from `_acquire_node`.
   */
  function Acquire(st: State, n: nat, preferred: nat, systemHasMemory: bool): (r: (Ptr, State))
    requires n > 0
    ensures r.0.At? ==> r.0.slab in r.1.used && r.0.slab < |r.1.arena| && r.0.offset + n <= r.1.arena[r.0.slab].capacity
    ensures IndexOfFirst(st.used, FitsAt(st.arena, n)).Some? ==> r.0.At? && r.1.used == st.used
  {
    match IndexOfFirst(st.used, FitsAt(st.arena, n))
    case Some(i) => TakeFrom(st, st.used[i], n)
    case None =>
      var (node, st1) := AcquireNode(st, n, preferred, systemHasMemory);
      match node
      case None => (Null, st1)
      case Some(id) => TakeFrom(st1, id, n)
  }

  /** The slab with this id passes the room test of `acquire` as the source evaluates it. */
  function FitsAtAsWritten(arena: seq<Slab>, n: nat): SlabId -> bool {
    (id: SlabId) => id < |arena| && arena[id].capacity < SizeLimit && n < SizeLimit && arena[id].FitsAsWritten(n)
  }

  /**
   * `_acquire(n)` as written: the active list is walked with the wrapping room
   * test, so the first active slab that passes it serves the request even when
   * the slab is smaller than `n`.
   */
  function AcquireAsWritten(st: State, n: nat, preferred: nat, systemHasMemory: bool): (r: (Ptr, State))
    requires 0 < n < SizeLimit
    ensures IndexOfFirst(st.used, FitsAtAsWritten(st.arena, n)).Some? ==> r.0.At? && r.1.used == st.used
  {
    match IndexOfFirst(st.used, FitsAtAsWritten(st.arena, n))
    case Some(i) =>
      var id := st.used[i];
      var (s, off) := st.arena[id].AcquireAsWritten(n);
      (At(id, off.value), st.(arena := st.arena[id := s]))
    case None =>
      var (node, st1) := AcquireNode(st, n, preferred, systemHasMemory);
      match node
      case None => (Null, st1)
      case Some(id) => TakeFrom(st1, id, n)
  }

  /** The list walk depends only on the verdicts of the test on the list's own elements. */
  lemma {:induction false} IndexOfFirstSameVerdicts<T>(s: seq<T>, p: T -> bool, q: T -> bool)
    requires forall j :: 0 <= j < |s| ==> p(s[j]) == q(s[j])
    ensures IndexOfFirst(s, p) == IndexOfFirst(s, q)
  {
    if s != [] {
      IndexOfFirstSameVerdicts(s[1..], p, q);
    }
  }

  /**
   * The source's `_acquire` behaves as the corrected one whenever no active
   * slab is smaller than the request: the discrepancy needs an oversized request.
   */
  lemma AcquireAsWrittenAgrees(st: State, n: nat, preferred: nat, systemHasMemory: bool)
    requires Valid(st) && 0 < n < SizeLimit
    requires forall id :: id in st.used ==> id < |st.arena| && n <= st.arena[id].capacity < SizeLimit
    ensures AcquireAsWritten(st, n, preferred, systemHasMemory) == Acquire(st, n, preferred, systemHasMemory)
  {
    ActiveVerdictsAgree(st, n);
    match IndexOfFirst(st.used, FitsAt(st.arena, n))
    case Some(i) =>
      var id := st.used[i];
      assert id in st.used;
      AcquireAgreesAsWritten(st.arena[id], n);
    case None =>
  }

  /** No active slab smaller than the request: both room tests pick the same active slab. */
  lemma ActiveVerdictsAgree(st: State, n: nat)
    requires 0 < n < SizeLimit
    requires forall id :: id in st.used ==> id < |st.arena| && n <= st.arena[id].capacity < SizeLimit
    ensures IndexOfFirst(st.used, FitsAt(st.arena, n)) == IndexOfFirst(st.used, FitsAtAsWritten(st.arena, n))
  {
    forall j | 0 <= j < |st.used|
      ensures FitsAt(st.arena, n)(st.used[j]) == FitsAtAsWritten(st.arena, n)(st.used[j])
    {
      var id := st.used[j];
      assert id in st.used;
      FitsAgreesAsWritten(st.arena[id], n);
    }
    IndexOfFirstSameVerdicts(st.used, FitsAt(st.arena, n), FitsAtAsWritten(st.arena, n));
  }

  /**
   * What `_node::release` asserts of its caller: if an active slab owns `p`, it
   * has at least `n` slots in use and `n` slots remain from `p` to its end.
   */
  predicate ReleaseContract(st: State, p: Ptr, n: nat) {
    p.At? && p.slab in st.used && p.slab < |st.arena| && p.offset < st.arena[p.slab].capacity ==>
      n <= st.arena[p.slab].use && n <= st.arena[p.slab].capacity - p.offset
  }

  /**
   * `_release(p, n)`: the first active slab owning `p` gives back the span; if it
   * is then empty it moves from the active list to the front of the retired list.
   */
  function Release(st: State, p: Ptr, n: nat): (r: (bool, State))
    requires ReleaseContract(st, p, n)
    ensures r.0 <==> IndexOfFirst(st.used, ClaimsAt(st.arena, p)).Some?
    ensures !r.0 ==> r.1 == st
  {
    match IndexOfFirst(st.used, ClaimsAt(st.arena, p))
    case None => (false, st)
    case Some(i) =>
      var id := st.used[i];
      var (s, _) := st.arena[id].Release(p.offset, n);
      if s.use == 0 then
        (true, st.(arena := st.arena[id := s.Reset()],
                   used := RemoveAt(st.used, i),
                   freed := [id] + st.freed))
      else
        (true, st.(arena := st.arena[id := s]))
  }

  /** `_inc_shared_counter`. */
  function IncHandles(st: State): (r: State)
    ensures r.handles == st.handles + 1
    ensures r.arena == st.arena && r.used == st.used && r.freed == st.freed && r.dropped == st.dropped
    ensures Valid(st) ==> Valid(r)
  {
    st.(handles := st.handles + 1)
  }

  /** `_deallocate_list` on the retired list: every retired slab goes back to the system. */
  function DeallocateFreed(st: State): (r: State)
    ensures r.freed == [] && forall id :: id in r.dropped <==> id in st.dropped || id in st.freed
    ensures r.arena == st.arena && r.used == st.used && r.handles == st.handles
  {
    st.(dropped := st.dropped + (set id | id in st.freed), freed := [])
  }

  /** `_dec_shared_counter`: the last handle going away frees the retired slabs. */
  function DecHandles(st: State): (r: State)
    requires st.handles > 0
    ensures r.handles + 1 == st.handles && r.arena == st.arena && r.used == st.used
    ensures r.handles == 0 ==> r.freed == []
    ensures r.handles > 0 ==> r == st.(handles := r.handles)
  {
    var st1 := st.(handles := st.handles - 1);
    if st1.handles == 0 && st1.freed != [] then DeallocateFreed(st1) else st1
  }

  // ----- The invariant is kept by every engine operation -----

  /** Membership after `attach` of `id` to the front of a list. */
  lemma PrependMembers(id: SlabId, s: seq<SlabId>)
    requires Distinct(s) && id !in s
    ensures Distinct([id] + s)
    ensures forall x :: x in [id] + s <==> x == id || x in s
  {
    var r := [id] + s;
    forall i, j | 0 <= i < j < |r| ensures r[i] != r[j] {
      if i == 0 { assert r[j] == s[j - 1]; assert s[j - 1] in s; }
    }
  }

  /**
   * `_acquire` keeps the pool invariant. It fails, leaving the pool untouched,
   * exactly when no active slab has room, no retired slab is eligible and the
   * system has no memory. On success the pointer lies in an active slab, below
   * its cursor, and no other slab that already existed is changed.
   */
  lemma AcquireKeepsValid(st: State, n: nat, preferred: nat, systemHasMemory: bool)
    requires Valid(st) && n > 0
    ensures var (p, st2) := Acquire(st, n, preferred, systemHasMemory);
      && Valid(st2)
      && (p == Null <==> IndexOfFirst(st.used, FitsAt(st.arena, n)).None?
                         && IndexOfFirst(st.freed, EligibleAt(st.arena, n)).None? && !systemHasMemory)
      && (p == Null ==> st2 == st)
      && (p.At? ==> p.slab in st2.used && p.slab < |st2.arena| && p.offset + n == st2.arena[p.slab].cursor)
      && (p.At? ==> st2.arena[p.slab].use == n + (if p.slab < |st.arena| && p.slab in st.used then st.arena[p.slab].use else 0))
      && (p.At? && p.slab in st.used ==>
            st2.used == st.used && st2.freed == st.freed && p.offset == st.arena[p.slab].cursor)
      && (p.At? && p.slab !in st.used ==>
            st2.used == [p.slab] + st.used && p.offset == 0 && (p.slab in st.freed || p.slab == |st.arena|) &&
            forall id :: id in st2.freed <==> id in st.freed && id != p.slab)
      && |st.arena| <= |st2.arena| <= |st.arena| + 1
      && (forall id :: 0 <= id < |st.arena| && p != Null && id != p.slab ==> st2.arena[id] == st.arena[id])
      && st2.dropped == st.dropped && st2.handles == st.handles
  {
    match IndexOfFirst(st.used, FitsAt(st.arena, n))
    case Some(i) =>
      AcquireFromActive(st, n, preferred, systemHasMemory, i);
    case None =>
      match IndexOfFirst(st.freed, EligibleAt(st.arena, n))
      case Some(k) =>
        AcquireFromRetired(st, n, preferred, systemHasMemory, k);
      case None =>
        if systemHasMemory {
          AcquireFromSystem(st, n, preferred);
        }
  }

  /** The invariant alone, as the `Pools.Pool` methods need it. */
  lemma AcquireStaysValid(st: State, n: nat, preferred: nat, systemHasMemory: bool)
    requires Valid(st) && n > 0
    ensures Valid(Acquire(st, n, preferred, systemHasMemory).1)
  {
    AcquireKeepsValid(st, n, preferred, systemHasMemory);
  }

  /** `_acquire` served by the active slab at index `i` of the active list. */
  lemma AcquireFromActive(st: State, n: nat, preferred: nat, systemHasMemory: bool, i: nat)
    requires Valid(st) && n > 0 && IndexOfFirst(st.used, FitsAt(st.arena, n)) == Some(i)
    ensures var id := st.used[i];
      && id in st.used && id < |st.arena|
      && var s := st.arena[id];
      && var st2 := st.(arena := st.arena[id := Slab(s.capacity, s.use + n, s.cursor + n)]);
      && Acquire(st, n, preferred, systemHasMemory) == (At(id, s.cursor), st2)
      && Valid(st2)
  {
    var id := st.used[i];
    assert id in st.used;
    var s := st.arena[id];
    var st2 := st.(arena := st.arena[id := Slab(s.capacity, s.use + n, s.cursor + n)]);
    assert Valid(st2) by {
      forall x: SlabId | x < |st2.arena| ensures OnExactlyOne(st2.used, st2.freed, st2.dropped, x) {
        assert OnExactlyOne(st.used, st.freed, st.dropped, x);
      }
    }
  }

  /** `_acquire` served by reusing the retired slab at index `k` of the retired list. */
  lemma AcquireFromRetired(st: State, n: nat, preferred: nat, systemHasMemory: bool, k: nat)
    requires Valid(st) && n > 0
    requires IndexOfFirst(st.used, FitsAt(st.arena, n)).None?
    requires IndexOfFirst(st.freed, EligibleAt(st.arena, n)) == Some(k)
    ensures var id := st.freed[k];
      && id in st.freed && id !in st.used && id < |st.arena|
      && var st2 := st.(arena := st.arena[id := Slab(st.arena[id].capacity, n, n)],
                        used := [id] + st.used, freed := RemoveAt(st.freed, k));
      && Acquire(st, n, preferred, systemHasMemory) == (At(id, 0), st2)
      && Valid(st2)
      && forall x :: x in st2.freed <==> x in st.freed && x != id
  {
    var id := st.freed[k];
    assert id in st.freed;
    var st2 := st.(arena := st.arena[id := Slab(st.arena[id].capacity, n, n)],
                   used := [id] + st.used, freed := RemoveAt(st.freed, k));
    PrependMembers(id, st.used);
    RemoveAtMembers(st.freed, k);
    var mid := st.(arena := st.arena[id := st.arena[id].Reset()], used := [id] + st.used,
                   freed := RemoveAt(st.freed, k));
    assert AcquireNode(st, n, preferred, systemHasMemory) == (Some(id), mid);
    assert mid.arena[id].Fits(n);
    assert mid.arena[id].Acquire(n) == (Slab(st.arena[id].capacity, n, n), Some(0));
    assert mid.(arena := mid.arena[id := Slab(st.arena[id].capacity, n, n)]) == st2;
    assert Valid(st2) by {
      forall x: SlabId | x < |st2.arena| ensures OnExactlyOne(st2.used, st2.freed, st2.dropped, x) {
        assert OnExactlyOne(st.used, st.freed, st.dropped, x);
      }
    }
  }

  /** `_acquire` served by a slab newly obtained from the system. */
  lemma AcquireFromSystem(st: State, n: nat, preferred: nat)
    requires Valid(st) && n > 0
    requires IndexOfFirst(st.used, FitsAt(st.arena, n)).None?
    requires IndexOfFirst(st.freed, EligibleAt(st.arena, n)).None?
    ensures var id := |st.arena|;
      && var cap := if n < preferred then preferred else n;
      && var st2 := st.(arena := st.arena + [Slab(cap, n, n)], used := [id] + st.used);
      && Acquire(st, n, preferred, true) == (At(id, 0), st2)
      && Valid(st2)
      && id !in st.used && id !in st.freed
  {
    var id := |st.arena|;
    var cap := if n < preferred then preferred else n;
    var st2 := st.(arena := st.arena + [Slab(cap, n, n)], used := [id] + st.used);
    assert id !in st.used && id !in st.freed;
    PrependMembers(id, st.used);
    var mid := st.(arena := st.arena + [New(cap)], used := [id] + st.used);
    assert AcquireNode(st, n, preferred, true) == (Some(id), mid);
    assert mid.arena[id].Acquire(n) == (Slab(cap, n, n), Some(0));
    assert mid.(arena := mid.arena[id := Slab(cap, n, n)]) == st2;
    assert Valid(st2) by {
      forall x: SlabId | x < |st2.arena| ensures OnExactlyOne(st2.used, st2.freed, st2.dropped, x) {
        if x < id { assert OnExactlyOne(st.used, st.freed, st.dropped, x); }
        else { assert x !in st.freed && x !in st.dropped; }
      }
    }
  }

  /**
   * `_release` keeps the pool invariant when its caller keeps the contract that
   * `_node::release` asserts. It reports success iff some active slab owns `p`;
   * then only that slab changes, and it moves to the front of the retired list
   * exactly when its last slot in use was given back.
   */
  lemma ReleaseKeepsValid(st: State, p: Ptr, n: nat)
    requires Valid(st) && ReleaseContract(st, p, n)
    ensures var (found, st2) := Release(st, p, n);
      && Valid(st2)
      && (found <==> p.At? && p.slab in st.used && p.offset < st.arena[p.slab].capacity)
      && (!found ==> st2 == st)
      && |st2.arena| == |st.arena|
      && (forall id :: 0 <= id < |st.arena| && (p.At? ==> id != p.slab) ==> st2.arena[id] == st.arena[id])
      && (found ==> st2.arena[p.slab].use + n == st.arena[p.slab].use)
      && (found ==> st2.arena[p.slab] == (var s := st.arena[p.slab].Release(p.offset, n).0;
                                         if s.use == 0 then s.Reset() else s))
      && (found ==> forall id :: id != p.slab ==> (id in st2.used <==> id in st.used))
      && (found && n == st.arena[p.slab].use ==> st2.freed == [p.slab] + st.freed && p.slab !in st2.used)
      && (found && n < st.arena[p.slab].use ==> st2.freed == st.freed && st2.used == st.used)
      && st2.dropped == st.dropped && st2.handles == st.handles
  {
    var (found, st2) := Release(st, p, n);
    match IndexOfFirst(st.used, ClaimsAt(st.arena, p))
    case None =>
    case Some(i) =>
      var id := st.used[i];
      assert id in st.used && id == p.slab;
      var (s, _) := st.arena[id].Release(p.offset, n);
      if s.use == 0 {
        assert st2 == st.(arena := st.arena[id := s.Reset()], used := RemoveAt(st.used, i), freed := [id] + st.freed);
        assert id !in st.freed;
        PrependMembers(id, st.freed);
        RemoveAtMembers(st.used, i);
        assert Valid(st2) by {
          forall x: SlabId | x < |st2.arena| ensures OnExactlyOne(st2.used, st2.freed, st2.dropped, x) {
            assert OnExactlyOne(st.used, st.freed, st.dropped, x);
          }
        }
      } else {
        assert st2 == st.(arena := st.arena[id := s]);
        assert Valid(st2) by {
          forall x: SlabId | x < |st2.arena| ensures OnExactlyOne(st2.used, st2.freed, st2.dropped, x) {
            assert OnExactlyOne(st.used, st.freed, st.dropped, x);
          }
        }
      }
  }

  /** The invariant alone, as the `Pools.Pool` methods need it. */
  lemma ReleaseStaysValid(st: State, p: Ptr, n: nat)
    requires Valid(st) && ReleaseContract(st, p, n)
    ensures Valid(Release(st, p, n).1)
  {
    ReleaseKeepsValid(st, p, n);
  }

  /**
   * `_dec_shared_counter` keeps the pool invariant and never touches the active
   * list or any slab record; when the last handle goes, every retired slab is
   * given back to the system and the retired list is empty.
   */
  lemma DecHandlesKeepsValid(st: State)
    requires Valid(st) && st.handles > 0
    ensures var st2 := DecHandles(st);
      && Valid(st2)
      && st2.handles == st.handles - 1
      && st2.used == st.used && st2.arena == st.arena
      && (st2.handles == 0 ==> st2.freed == [] && forall id :: id in st.freed ==> id in st2.dropped)
      && (st2.handles > 0 ==> st2.freed == st.freed && st2.dropped == st.dropped)
      && (forall id :: id in st2.dropped <==> id in st.dropped || (st2.handles == 0 && id in st.freed))
  {
    var st1 := st.(handles := st.handles - 1);
    if st1.handles == 0 && st1.freed != [] {
      var st2 := DeallocateFreed(st1);
      assert Valid(st2) by {
        forall x: SlabId | x < |st2.arena| ensures OnExactlyOne(st2.used, st2.freed, st2.dropped, x) {
          assert OnExactlyOne(st.used, st.freed, st.dropped, x);
        }
      }
    } else {
      assert Valid(st1) by {
        forall x: SlabId | x < |st1.arena| ensures OnExactlyOne(st1.used, st1.freed, st1.dropped, x) {
          assert OnExactlyOne(st.used, st.freed, st.dropped, x);
        }
      }
    }
  }
}

/**
 * What the pool promises its callers over a whole history of calls. A history
 * is summed up by the sequence of allocations still outstanding (each a
 * `(pointer, n)` pair that `allocate(n)` returned and `deallocate` has not yet
 * received). The engine keeps every slab's use counter equal to the slots
 * outstanding in it, keeps outstanding spans below the cursor and pairwise
 * disjoint, and so never hands out a slot that is still live.
 */
module Accounting {
  import opened Wrappers
  import opened Slabs
  import opened Engine

  /** One outstanding allocation: `size` slots from `offset` in slab `slab`. */
  datatype Block = Block(slab: SlabId, offset: nat, size: nat)

  /** The slots outstanding in slab `id`. */
  function UseOf(blocks: seq<Block>, id: SlabId): nat {
    if blocks == [] then 0
    else
      var last := blocks[|blocks| - 1];
      UseOf(blocks[..|blocks| - 1], id) + (if last.slab == id then last.size else 0)
  }

  /** Two allocations share no slot. */
  predicate Disjoint(a: Block, b: Block) {
    a.slab != b.slab || a.offset + a.size <= b.offset || b.offset + b.size <= a.offset
  }

  /**
   * The pool state `st` accounts exactly for the outstanding allocations
   * `blocks`: each lies in an active slab below its cursor, no two overlap, and
   * each active slab's use counter is the number of its slots outstanding.
   */
  predicate Accounted(st: State, blocks: seq<Block>) {
    Valid(st) &&
    (forall i :: 0 <= i < |blocks| ==> blocks[i].size > 0 && blocks[i].slab in st.used) &&
    (forall i :: 0 <= i < |blocks| ==>
       blocks[i].slab < |st.arena| && blocks[i].offset + blocks[i].size <= st.arena[blocks[i].slab].cursor) &&
    (forall i, j :: 0 <= i < j < |blocks| ==> Disjoint(blocks[i], blocks[j])) &&
    (forall id :: id in st.used ==> id < |st.arena| && st.arena[id].use == UseOf(blocks, id))
  }

  lemma {:induction false} UseOfConcat(a: seq<Block>, b: seq<Block>, id: SlabId)
    ensures UseOf(a + b, id) == UseOf(a, id) + UseOf(b, id)
    decreases |b|
  {
    if b == [] {
      assert a + b == a;
    } else {
      assert (a + b)[..|a + b| - 1] == a + b[..|b| - 1];
      UseOfConcat(a, b[..|b| - 1], id);
    }
  }

  /** Taking one allocation out lowers its slab's count by its size and no other. */
  lemma UseOfRemove(blocks: seq<Block>, k: nat, id: SlabId)
    requires k < |blocks|
    ensures UseOf(blocks, id) == UseOf(RemoveAt(blocks, k), id) + (if blocks[k].slab == id then blocks[k].size else 0)
  {
    assert blocks == blocks[..k] + [blocks[k]] + blocks[k + 1..];
    UseOfConcat(blocks[..k] + [blocks[k]], blocks[k + 1..], id);
    UseOfConcat(blocks[..k], [blocks[k]], id);
    UseOfConcat(blocks[..k], blocks[k + 1..], id);
    assert [blocks[k]][..0] == [];
  }

  /** With no empty allocations, a slab counts zero slots iff no allocation lies in it. */
  lemma {:induction false} UseOfZero(blocks: seq<Block>, id: SlabId)
    requires forall i :: 0 <= i < |blocks| ==> blocks[i].size > 0
    ensures UseOf(blocks, id) == 0 <==> forall i :: 0 <= i < |blocks| ==> blocks[i].slab != id
    decreases |blocks|
  {
    if blocks != [] {
      var init := blocks[..|blocks| - 1];
      UseOfZero(init, id);
      assert forall i :: 0 <= i < |init| ==> init[i] == blocks[i];
    }
  }

  /** The zero-initialised pool accounts for the empty history. */
  lemma EmptyAccounted()
    ensures Accounted(Empty(), [])
  {
  }

  /**
   * Creating or destroying a handle keeps the accounting: the active slabs and
   * every slab record are untouched, and the retired slabs the last handle
   * gives back to the system hold no outstanding allocation.
   */
  lemma HandlesKeepAccounted(st: State, blocks: seq<Block>)
    requires Accounted(st, blocks)
    ensures Accounted(IncHandles(st), blocks)
    ensures st.handles > 0 ==> Accounted(DecHandles(st), blocks)
  {
    if st.handles > 0 {
      DecHandlesKeepsValid(st);
    }
  }

  /**
   * `allocate(n)` on an accounted pool: a failure leaves the pool as it was; a
   * success returns a span that overlaps no outstanding allocation, and the
   * pool accounts for the outstanding allocations plus the new one.
   */
  lemma AllocateAccounted(st: State, blocks: seq<Block>, n: nat, preferred: nat, systemHasMemory: bool)
    requires Accounted(st, blocks) && n > 0
    ensures var (p, st2) := Acquire(st, n, preferred, systemHasMemory);
      && (p == Null ==> st2 == st)
      && (p.At? ==> var b := Block(p.slab, p.offset, n);
                    && (forall i :: 0 <= i < |blocks| ==> Disjoint(blocks[i], b))
                    && Accounted(st2, blocks + [b]))
  {
    AcquireKeepsValid(st, n, preferred, systemHasMemory);
    var (p, st2) := Acquire(st, n, preferred, systemHasMemory);
    if p.At? {
      AccountedExtend(st, st2, blocks, Block(p.slab, p.offset, n));
    }
  }

  /**
   * The accounting step behind `AllocateAccounted`: a new span at the cursor of
   * an active slab, or at offset 0 of a slab that just joined the active list,
   * extends the outstanding allocations.
   */
  lemma AccountedExtend(st: State, st2: State, blocks: seq<Block>, b: Block)
    requires Accounted(st, blocks) && Valid(st2) && b.size > 0
    requires b.slab in st2.used && b.slab < |st2.arena| && b.offset + b.size == st2.arena[b.slab].cursor
    requires forall id :: id in st.used ==> id in st2.used
    requires forall id :: id in st2.used ==> id in st.used || id == b.slab
    requires forall id :: id in st.used && id != b.slab ==> st2.arena[id] == st.arena[id]
    requires b.slab in st.used ==>
               b.offset == st.arena[b.slab].cursor && st2.arena[b.slab].use == st.arena[b.slab].use + b.size
    requires b.slab !in st.used ==> st2.arena[b.slab].use == b.size
    ensures forall i :: 0 <= i < |blocks| ==> Disjoint(blocks[i], b)
    ensures Accounted(st2, blocks + [b])
  {
    var blocks2 := blocks + [b];
    if b.slab !in st.used {
      forall i | 0 <= i < |blocks| ensures blocks[i].slab != b.slab {
        assert blocks[i].slab in st.used;
      }
      UseOfZero(blocks, b.slab);
    }
    forall i | 0 <= i < |blocks| ensures Disjoint(blocks[i], b) {
      assert blocks[i].slab in st.used;
    }
    forall id | id in st2.used ensures id < |st2.arena| && st2.arena[id].use == UseOf(blocks2, id) {
      assert blocks2[..|blocks2| - 1] == blocks;
    }
    forall i | 0 <= i < |blocks2|
      ensures blocks2[i].slab < |st2.arena| && blocks2[i].offset + blocks2[i].size <= st2.arena[blocks2[i].slab].cursor
    {
      if i < |blocks| {
        assert blocks2[i] == blocks[i];
        assert blocks[i].slab in st.used;
      }
    }
    forall i | 0 <= i < |blocks2| ensures blocks2[i].size > 0 && blocks2[i].slab in st2.used {
      if i < |blocks| {
        assert blocks2[i] == blocks[i];
      }
    }
  }

  /**
   * `deallocate(p, n)` with a pair that is outstanding: the pair keeps the
   * contract `_node::release` asserts, some active slab owns it, and the pool
   * then accounts for the outstanding allocations without it.
   */
  lemma DeallocateAccounted(st: State, blocks: seq<Block>, k: nat)
    requires Accounted(st, blocks) && k < |blocks|
    ensures var b := blocks[k];
      && var p := At(b.slab, b.offset);
      && ReleaseContract(st, p, b.size)
      && Release(st, p, b.size).0
      && Accounted(Release(st, p, b.size).1, RemoveAt(blocks, k))
  {
    var b := blocks[k];
    var p := At(b.slab, b.offset);
    UseOfRemove(blocks, k, b.slab);
    assert ReleaseContract(st, p, b.size);
    ReleaseKeepsValid(st, p, b.size);
    var (found, st2) := Release(st, p, b.size);
    AccountedShrink(st, st2, blocks, k);
  }

  /**
   * The accounting step behind `DeallocateAccounted`: once an outstanding span
   * is given back (its slab's count lowered by its size, the cursor pulled back
   * only over a tail span, the slab leaving the active list only when its count
   * reaches 0), the pool accounts for the rest.
   */
  lemma AccountedShrink(st: State, st2: State, blocks: seq<Block>, k: nat)
    requires Accounted(st, blocks) && k < |blocks| && Valid(st2)
    requires var b := blocks[k];
      && |st2.arena| == |st.arena|
      && (forall id :: 0 <= id < |st.arena| && id != b.slab ==> st2.arena[id] == st.arena[id])
      && (forall id :: id != b.slab ==> (id in st2.used <==> id in st.used))
      && st2.arena[b.slab].use + b.size == st.arena[b.slab].use
      && (b.slab in st2.used ==>
            st2.arena[b.slab].cursor == (if b.offset + b.size == st.arena[b.slab].cursor then b.offset else st.arena[b.slab].cursor))
      && (st2.arena[b.slab].use > 0 ==> b.slab in st2.used)
    ensures Accounted(st2, RemoveAt(blocks, k))
  {
    var b := blocks[k];
    var rest := RemoveAt(blocks, k);
    UseOfRemove(blocks, k, b.slab);
    RemainingStayActive(st, st2, blocks, k);
    forall i | 0 <= i < |rest|
      ensures rest[i].slab < |st2.arena| && rest[i].offset + rest[i].size <= st2.arena[rest[i].slab].cursor
    {
      var j := if i < k then i else i + 1;
      assert rest[i] == blocks[j];
      assert Disjoint(blocks[j], b) by {
        if j < k { assert Disjoint(blocks[j], blocks[k]); } else { assert Disjoint(blocks[k], blocks[j]); }
      }
    }
    forall i, j | 0 <= i < j < |rest| ensures Disjoint(rest[i], rest[j]) {
      var i' := if i < k then i else i + 1;
      var j' := if j < k then j else j + 1;
      assert rest[i] == blocks[i'] && rest[j] == blocks[j'];
    }
    forall id | id in st2.used ensures id < |st2.arena| && st2.arena[id].use == UseOf(rest, id) {
      UseOfRemove(blocks, k, id);
    }
  }

  /** After the release of `blocks[k]`, every other outstanding span still lies on an active slab. */
  lemma RemainingStayActive(st: State, st2: State, blocks: seq<Block>, k: nat)
    requires Accounted(st, blocks) && k < |blocks|
    requires forall id :: id != blocks[k].slab ==> (id in st2.used <==> id in st.used)
    requires blocks[k].slab < |st2.arena| && st2.arena[blocks[k].slab].use + blocks[k].size == st.arena[blocks[k].slab].use
    requires st2.arena[blocks[k].slab].use > 0 ==> blocks[k].slab in st2.used
    ensures var rest := RemoveAt(blocks, k);
      forall i :: 0 <= i < |rest| ==> rest[i].size > 0 && rest[i].slab in st2.used
  {
    var b := blocks[k];
    var rest := RemoveAt(blocks, k);
    UseOfRemove(blocks, k, b.slab);
    forall i | 0 <= i < |rest| ensures rest[i].size > 0 && rest[i].slab in st2.used {
      var j := if i < k then i else i + 1;
      assert rest[i] == blocks[j];
      if rest[i].slab == b.slab && st2.arena[b.slab].use == 0 {
        UseOfZero(rest, b.slab);
        assert false;
      }
    }
  }

  /** One call a history can make on the pool. */
  datatype Call =
    | Alloc(n: nat, preferred: nat, systemHasMemory: bool)  // `allocate(n)` by a handle of capacity `preferred`
    | Dealloc(k: nat)                                        // `deallocate` of the `k`-th outstanding pair
    | NewHandle                                              // any constructor
    | DropHandle                                             // the destructor

  /**
   * One call applied to the pool and its outstanding allocations. A call the
   * source forbids or ignores (`allocate(0)`, a `deallocate` of a pair that is
   * not outstanding, destroying a handle that does not exist) changes nothing.
   */
  function Step(st: State, blocks: seq<Block>, c: Call): (State, seq<Block>) {
    match c
    case Alloc(n, preferred, systemHasMemory) =>
      if n == 0 then (st, blocks)
      else
        var (p, st2) := Acquire(st, n, preferred, systemHasMemory);
        if p.At? then (st2, blocks + [Block(p.slab, p.offset, n)]) else (st2, blocks)
    case Dealloc(k) =>
      if k < |blocks| && ReleaseContract(st, At(blocks[k].slab, blocks[k].offset), blocks[k].size) then
        (Release(st, At(blocks[k].slab, blocks[k].offset), blocks[k].size).1, RemoveAt(blocks, k))
      else (st, blocks)
    case NewHandle => (IncHandles(st), blocks)
    case DropHandle => if st.handles > 0 then (DecHandles(st), blocks) else (st, blocks)
  }

  /** The pool and its outstanding allocations after a history of calls from the zero-initialised state. */
  function Run(calls: seq<Call>): (State, seq<Block>) {
    if calls == [] then (Empty(), [])
    else
      var (st, blocks) := Run(calls[..|calls| - 1]);
      Step(st, blocks, calls[|calls| - 1])
  }

  /**
   * After any history of calls the pool accounts for exactly the allocations
   * still outstanding: no live slot has been handed out twice, and every
   * outstanding pair can still be given back.
   */
  lemma {:induction false} HistoryAccounted(calls: seq<Call>)
    ensures Accounted(Run(calls).0, Run(calls).1)
  {
    if calls == [] {
      EmptyAccounted();
    } else {
      HistoryAccounted(calls[..|calls| - 1]);
      var (st, blocks) := Run(calls[..|calls| - 1]);
      match calls[|calls| - 1]
      case Alloc(n, preferred, systemHasMemory) =>
        if n > 0 {
          AllocateAccounted(st, blocks, n, preferred, systemHasMemory);
        }
      case Dealloc(k) =>
        if k < |blocks| {
          DeallocateAccounted(st, blocks, k);
        }
      case NewHandle =>
        HandlesKeepAccounted(st, blocks);
      case DropHandle =>
        HandlesKeepAccounted(st, blocks);
    }
  }

  /**
   * `allocate(n)` immediately followed by `deallocate` of the returned pair puts
   * the active list and every pre-existing slab back as they were. A span taken
   * from an active slab leaves the whole pool exactly as before. A span that
   * needed a slab from the retired list or from the system leaves that slab at
   * the front of the retired list, which otherwise holds the same slabs as
   * before.
   */
  lemma AllocateDeallocateRoundTrip(st: State, n: nat, preferred: nat, systemHasMemory: bool)
    requires Valid(st) && n > 0
    ensures var (p, st1) := Acquire(st, n, preferred, systemHasMemory);
      p.At? ==>
        && ReleaseContract(st1, p, n)
        && var (found, st2) := Release(st1, p, n);
        && found
        && st2.used == st.used && st2.dropped == st.dropped && st2.handles == st.handles
        && |st.arena| <= |st2.arena| && st2.arena[..|st.arena|] == st.arena
        && (p.slab in st.used ==> st2 == st)
        && (p.slab !in st.used ==>
              st2.freed[0] == p.slab && forall id :: id in st2.freed <==> id in st.freed || id == p.slab)
  {
    match IndexOfFirst(st.used, FitsAt(st.arena, n))
    case Some(i) =>
      RoundTripActiveOutcome(st, n, preferred, systemHasMemory, i);
    case None =>
      match IndexOfFirst(st.freed, EligibleAt(st.arena, n))
      case Some(k) =>
        RoundTripRetiredOutcome(st, n, preferred, systemHasMemory, k);
      case None =>
        if systemHasMemory {
          RoundTripSystemOutcome(st, n, preferred);
        } else {
          NoSlabNoSpan(st, n, preferred);
        }
  }

  /**
   * The outcome `AllocateDeallocateRoundTrip` promises, stated once so that
   * each way `_acquire` can serve the request is proved on its own.
   */
  ghost predicate RoundTripOutcome(st: State, n: nat, preferred: nat, systemHasMemory: bool)
    requires n > 0
  {
    var (p, st1) := Acquire(st, n, preferred, systemHasMemory);
    p.At? ==>
      && ReleaseContract(st1, p, n)
      && var (found, st2) := Release(st1, p, n);
      && found
      && st2.used == st.used && st2.dropped == st.dropped && st2.handles == st.handles
      && |st.arena| <= |st2.arena| && st2.arena[..|st.arena|] == st.arena
      && (p.slab in st.used ==> st2 == st)
      && (p.slab !in st.used ==>
            st2.freed[0] == p.slab && forall id :: id in st2.freed <==> id in st.freed || id == p.slab)
  }

  /** The round trip when an active slab has room. */
  lemma RoundTripActiveOutcome(st: State, n: nat, preferred: nat, systemHasMemory: bool, i: nat)
    requires Valid(st) && n > 0 && IndexOfFirst(st.used, FitsAt(st.arena, n)) == Some(i)
    ensures RoundTripOutcome(st, n, preferred, systemHasMemory)
  {
    RoundTripActive(st, n, preferred, systemHasMemory, i);
  }

  /** The round trip when the request reuses the `k`-th retired slab. */
  lemma RoundTripRetiredOutcome(st: State, n: nat, preferred: nat, systemHasMemory: bool, k: nat)
    requires Valid(st) && n > 0
    requires IndexOfFirst(st.used, FitsAt(st.arena, n)).None?
    requires IndexOfFirst(st.freed, EligibleAt(st.arena, n)) == Some(k)
    ensures RoundTripOutcome(st, n, preferred, systemHasMemory)
  {
    RoundTripRetired(st, n, preferred, systemHasMemory, k);
    RetiredMovedToFront(st, k);
  }

  /**
   * Moving the retired slab at index `k` to the front touches only the retired
   * list; stated apart so that no `_acquire` term is in scope when it is proved.
   */
  lemma RetiredMovedToFront(st: State, k: nat)
    requires k < |st.freed|
    ensures var st2 := st.(freed := [st.freed[k]] + RemoveAt(st.freed, k));
      && st2.used == st.used && st2.dropped == st.dropped && st2.handles == st.handles
      && |st.arena| <= |st2.arena| && st2.arena[..|st.arena|] == st.arena
      && st2.freed[0] == st.freed[k]
  {
    assert st.arena[..|st.arena|] == st.arena;
  }

  /** The round trip when the request needs a new slab from the system. */
  lemma RoundTripSystemOutcome(st: State, n: nat, preferred: nat)
    requires Valid(st) && n > 0
    requires IndexOfFirst(st.used, FitsAt(st.arena, n)).None?
    requires IndexOfFirst(st.freed, EligibleAt(st.arena, n)).None?
    ensures RoundTripOutcome(st, n, preferred, true)
  {
    RoundTripSystem(st, n, preferred);
  }

  /** With no active slab with room, no eligible retired slab and no memory, `_acquire` hands out nothing. */
  lemma NoSlabNoSpan(st: State, n: nat, preferred: nat)
    requires n > 0
    requires IndexOfFirst(st.used, FitsAt(st.arena, n)).None?
    requires IndexOfFirst(st.freed, EligibleAt(st.arena, n)).None?
    ensures Acquire(st, n, preferred, false).0 == Null
  {
    assert AcquireNode(st, n, preferred, false) == (None, st);
  }

  /** The round trip through a reused retired slab: it ends up at the front of the retired list. */
  lemma RoundTripRetired(st: State, n: nat, preferred: nat, systemHasMemory: bool, k: nat)
    requires Valid(st) && n > 0
    requires IndexOfFirst(st.used, FitsAt(st.arena, n)).None?
    requires IndexOfFirst(st.freed, EligibleAt(st.arena, n)) == Some(k)
    ensures var (p, st1) := Acquire(st, n, preferred, systemHasMemory);
      && p == At(st.freed[k], 0)
      && ReleaseContract(st1, p, n)
      && Release(st1, p, n) == (true, st.(freed := [st.freed[k]] + RemoveAt(st.freed, k)))
      && st.freed[k] !in st.used
      && forall id :: id in [st.freed[k]] + RemoveAt(st.freed, k) <==> id in st.freed
  {
    AcquireFromRetired(st, n, preferred, systemHasMemory, k);
    var id := st.freed[k];
    var cap := st.arena[id].capacity;
    assert st.arena[id] == New(cap) && n <= cap;
    var st1 := st.(arena := st.arena[id := Slab(cap, n, n)],
                   used := [id] + st.used, freed := RemoveAt(st.freed, k));
    RoundTripFront(st1, id, n);
    RestoreRetired(st.arena, id, n);
    assert st1.used[1..] == st.used;
    RemoveAtMembers(st.freed, k);
  }

  /** Served by the head of the retired list, the round trip restores the pool exactly. */
  lemma RetiredHeadRoundTrip(st: State, n: nat, preferred: nat, systemHasMemory: bool)
    requires Valid(st) && n > 0
    requires IndexOfFirst(st.used, FitsAt(st.arena, n)).None?
    requires IndexOfFirst(st.freed, EligibleAt(st.arena, n)) == Some(0)
    ensures var (p, st1) := Acquire(st, n, preferred, systemHasMemory);
      && p == At(st.freed[0], 0)
      && ReleaseContract(st1, p, n)
      && Release(st1, p, n) == (true, st)
  {
    RoundTripRetired(st, n, preferred, systemHasMemory, 0);
    HeadBack(st, st.freed);
  }

  lemma HeadBack(st: State, f: seq<SlabId>)
    requires |f| > 0 && f == st.freed
    ensures st.(freed := [f[0]] + RemoveAt(f, 0)) == st
  {
    assert [f[0]] + RemoveAt(f, 0) == f;
  }

  /** Claiming `n` slots of an empty slab and giving them back leaves the arena as it was. */
  lemma RestoreRetired(arena: seq<Slab>, id: SlabId, n: nat)
    requires id < |arena| && arena[id] == New(arena[id].capacity) && 0 < n <= arena[id].capacity
    ensures var a1 := arena[id := Slab(arena[id].capacity, n, n)];
      a1[id := a1[id].Release(0, n).0.Reset()] == arena
  {
  }

  /** The round trip through a slab newly obtained from the system: it ends up retired. */
  lemma RoundTripSystem(st: State, n: nat, preferred: nat)
    requires Valid(st) && n > 0
    requires IndexOfFirst(st.used, FitsAt(st.arena, n)).None?
    requires IndexOfFirst(st.freed, EligibleAt(st.arena, n)).None?
    ensures var (p, st1) := Acquire(st, n, preferred, true);
      && p == At(|st.arena|, 0)
      && ReleaseContract(st1, p, n)
      && Release(st1, p, n) ==
         (true, st.(arena := st.arena + [New(if n < preferred then preferred else n)], freed := [|st.arena|] + st.freed))
      && |st.arena| !in st.used
      && (st.arena + [New(if n < preferred then preferred else n)])[..|st.arena|] == st.arena
  {
    AcquireFromSystem(st, n, preferred);
    var id := |st.arena|;
    var cap := if n < preferred then preferred else n;
    var st1 := st.(arena := st.arena + [Slab(cap, n, n)], used := [id] + st.used);
    assert Acquire(st, n, preferred, true) == (At(id, 0), st1);
    RoundTripFront(st1, id, n);
    assert st1.arena[id].Release(0, n).0.Reset() == New(cap);
    assert st1.arena[id := New(cap)] == st.arena + [New(cap)] by {
      ReplaceLast(st.arena, Slab(cap, n, n), New(cap));
    }
    assert st1.used[1..] == st.used;
    assert st1.(arena := st.arena + [New(cap)], used := st.used, freed := [id] + st1.freed)
        == st.(arena := st.arena + [New(cap)], freed := [id] + st.freed);
  }

  lemma ReplaceLast(a: seq<Slab>, x: Slab, y: Slab)
    ensures (a + [x])[|a| := y] == a + [y]
  {
  }

  /** The round trip through an active slab that had room: the pool is restored exactly. */
  lemma RoundTripActive(st: State, n: nat, preferred: nat, systemHasMemory: bool, i: nat)
    requires Valid(st) && n > 0 && IndexOfFirst(st.used, FitsAt(st.arena, n)) == Some(i)
    ensures var (p, st1) := Acquire(st, n, preferred, systemHasMemory);
      p.At? && ReleaseContract(st1, p, n) && Release(st1, p, n) == (true, st)
  {
    AcquireFromActive(st, n, preferred, systemHasMemory, i);
    var id := st.used[i];
    var s := st.arena[id];
    var st1 := st.(arena := st.arena[id := Slab(s.capacity, s.use + n, s.cursor + n)]);
    var p := At(id, s.cursor);
    assert ClaimsAt(st1.arena, p)(st1.used[i]);
    forall j | 0 <= j < i ensures !ClaimsAt(st1.arena, p)(st1.used[j]) {
      assert st.used[j] != st.used[i];
    }
    assert IndexOfFirst(st1.used, ClaimsAt(st1.arena, p)) == Some(i);
    assert st1.arena[id].Release(s.cursor, n).0 == s;
    assert st1.arena[id := s] == st.arena;
  }

  /**
   * Releasing the whole of a slab that was just attached to the front of the
   * active list and filled from offset 0 moves it to the front of the retired list.
   */
  lemma RoundTripFront(st1: State, id: SlabId, n: nat)
    requires |st1.used| > 0 && st1.used[0] == id && id < |st1.arena| && n > 0
    requires st1.arena[id].use == n && st1.arena[id].cursor == n && n <= st1.arena[id].capacity
    ensures ReleaseContract(st1, At(id, 0), n)
    ensures Release(st1, At(id, 0), n) ==
            (true, st1.(arena := st1.arena[id := st1.arena[id].Release(0, n).0.Reset()],
                        used := st1.used[1..], freed := [id] + st1.freed))
  {
    assert IndexOfFirst(st1.used, ClaimsAt(st1.arena, At(id, 0))) == Some(0);
    assert RemoveAt(st1.used, 0) == st1.used[1..];
  }
}

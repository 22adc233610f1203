/**
 * The memory that crosses the module boundary: an abstract heap of blocks,
 * each tagged with the routine that allocated it, so that every release can
 * be checked against the allocation it ends.
 *
 * Block identities are never reused (a bump counter hands them out), which
 * is what lets a second release of the same block be told apart from a
 * release of a new one.
 */
module MarshalHeap {
  import opened Bytes

  /** SMAMalloc/SMAFree, or the array forms of new/delete. */
  datatype Routine = Sma | NewArray

  /** A pointer: null, or the identity of a block. */
  datatype Ptr = Null | Addr(id: nat)

  /** What a block holds. */
  datatype Cell =
    | Chars(bytes: Text)                                  // char[]
    | Slots(ptrs: seq<Ptr>)                               // char*[]
    | ParamNode(name: Ptr, value: Ptr, next: Ptr)         // GFModuleEventParam
    | EventRecord(eventId: Ptr, triggerId: Ptr, params: Ptr)  // GFModuleEvent

  datatype Block = Block(routine: Routine, cell: Cell)

  /** A release that does not end a live allocation by its own routine. */
  datatype Fault =
    | Mismatch(block: nat, allocatedBy: Routine, freedBy: Routine)
    | BadFree(block: nat)

  type Live = map<nat, Block>

  /** The identity a pointer names, as a set: empty for null. */
  function PtrIds(p: Ptr): (s: set<nat>)
    ensures p.Null? ==> s == {}
    ensures p.Addr? ==> s == {p.id}
  {
    if p.Addr? then {p.id} else {}
  }

  /** The identities named by a sequence of pointers. */
  function Ids(ps: seq<Ptr>): set<nat>
  {
    set k | 0 <= k < |ps| && ps[k].Addr? :: ps[k].id
  }

  /** No block is named twice (null may repeat). */
  predicate Distinct(ps: seq<Ptr>)
  {
    forall i, j :: 0 <= i < j < |ps| && ps[i].Addr? ==> ps[i] != ps[j]
  }

  /** `p` points at a live character block that holds a NUL. */
  predicate HoldsCString(live: Live, p: Ptr)
  {
    p.Addr? && p.id in live && live[p.id].cell.Chars? && 0 in live[p.id].cell.bytes
  }

  /** A `const char*` that may be read: null, or a live C string. */
  predicate Readable(live: Live, p: Ptr)
  {
    p.Null? || HoldsCString(live, p)
  }

  /** QString::fromUtf8 of a `const char*`: the bytes before the NUL; null reads as empty. */
  function ReadCString(live: Live, p: Ptr): (t: Text)
    requires Readable(live, p)
    ensures NulFree(t)
    ensures p.Addr? ==> t == CString(live[p.id].cell.bytes)
  {
    if p.Null? then [] else CString(live[p.id].cell.bytes)
  }

  /** The texts read from each pointer of `ps`, in order. */
  function ReadAll(live: Live, ps: seq<Ptr>): (ts: seq<Text>)
    requires forall k :: 0 <= k < |ps| ==> Readable(live, ps[k])
    ensures |ts| == |ps| && forall k :: 0 <= k < |ps| ==> ts[k] == ReadCString(live, ps[k])
  {
    if ps == [] then [] else ReadAll(live, ps[..|ps| - 1]) + [ReadCString(live, ps[|ps| - 1])]
  }

  /**
   * What releasing `p` through `routine` records: nothing for null or for a
   * live block of that routine; a mismatch for a live block of the other
   * routine; a bad free for a block that is not live (released already).
   */
  function FreeFaults(live: Live, p: Ptr, routine: Routine): (fs: seq<Fault>)
    ensures fs == [] <==> p.Null? || (p.id in live && live[p.id].routine == routine)
    ensures |fs| <= 1
  {
    if p.Null? then []
    else if p.id !in live then [BadFree(p.id)]
    else if live[p.id].routine != routine then [Mismatch(p.id, live[p.id].routine, routine)]
    else []
  }

  /** The faults recorded by releasing `ps` one after another through `routine`. */
  function FaultsOf(live: Live, ps: seq<Ptr>, routine: Routine): seq<Fault>
  {
    if ps == [] then []
    else
      var init := ps[..|ps| - 1];
      FaultsOf(live, init, routine) + FreeFaults(live - Ids(init), ps[|ps| - 1], routine)
  }

  /**
   * `live` and `faults` are what releasing `ps` one after another through
   * `routine` makes of `live0` and `faults0`.
   */
  predicate Released(live: Live, faults: seq<Fault>, live0: Live, faults0: seq<Fault>, ps: seq<Ptr>, routine: Routine)
  {
    live == live0 - Ids(ps) && faults == faults0 + FaultsOf(live0, ps, routine)
  }

  /** The identities named by two sequences together. */
  lemma IdsConcat(a: seq<Ptr>, b: seq<Ptr>)
    ensures Ids(a + b) == Ids(a) + Ids(b)
  {
    var ab := a + b;
    forall id | id in Ids(a) + Ids(b) ensures id in Ids(ab) {
      if id in Ids(a) {
        var k :| 0 <= k < |a| && a[k].Addr? && a[k].id == id;
        assert ab[k] == a[k];
      } else {
        var k :| 0 <= k < |b| && b[k].Addr? && b[k].id == id;
        assert ab[|a| + k] == b[k];
      }
    }
  }

  /** A sequence names the block each of its pointers names. */
  lemma InIds(ps: seq<Ptr>, k: nat)
    requires k < |ps| && ps[k].Addr?
    ensures ps[k].id in Ids(ps)
  {
  }

  /** The identity a single pointer names. */
  lemma IdsSingle(p: Ptr)
    ensures Ids([p]) == PtrIds(p)
  {
    assert [p][0] == p;
  }

  /** One more release after the releases `done`: the next state, from the state after `done`. */
  lemma ReleasedSnoc(live: Live, faults: seq<Fault>, live0: Live, faults0: seq<Fault>, done: seq<Ptr>, p: Ptr, routine: Routine)
    requires Released(live, faults, live0, faults0, done, routine)
    ensures Released(live - PtrIds(p), faults + FreeFaults(live, p, routine), live0, faults0, done + [p], routine)
  {
    var ps := done + [p];
    assert ps[..|done|] == done;
    IdsConcat(done, [p]);
    IdsSingle(p);
  }

  lemma IdsStep(ps: seq<Ptr>, k: nat)
    requires k < |ps|
    ensures Ids(ps[..k + 1]) == Ids(ps[..k]) + PtrIds(ps[k])
  {
    var a, b := ps[..k + 1], ps[..k];
    assert forall i :: 0 <= i < k ==> a[i] == b[i];
    assert a[k] == ps[k];
  }

  lemma FaultsStep(live: Live, ps: seq<Ptr>, routine: Routine, k: nat)
    requires k < |ps|
    ensures FaultsOf(live, ps[..k + 1], routine)
         == FaultsOf(live, ps[..k], routine) + FreeFaults(live - Ids(ps[..k]), ps[k], routine)
  {
    assert ps[..k + 1][..k] == ps[..k];
  }

  /** Releasing other blocks leaves a readable string readable, with the same text. */
  lemma ReadAfterRelease(live: Live, gone: set<nat>, p: Ptr)
    requires Readable(live, p) && (p.Addr? ==> p.id !in gone)
    ensures Readable(live - gone, p) && ReadCString(live - gone, p) == ReadCString(live, p)
  {
  }

  /**
   * Releasing the k-th pointer of a distinct sequence after the first k: it
   * was not released yet, the live blocks lose its block, and the faults
   * grow by what that one release records.
   */
  lemma ReleaseNext(live: Live, faults: seq<Fault>, ps: seq<Ptr>, routine: Routine, k: nat)
    requires k < |ps| && Distinct(ps)
    ensures ps[k].Addr? ==> ps[k].id !in Ids(ps[..k])
    ensures (live - Ids(ps[..k])) - PtrIds(ps[k]) == live - Ids(ps[..k + 1])
    ensures faults + FaultsOf(live, ps[..k], routine) + FreeFaults(live - Ids(ps[..k]), ps[k], routine)
         == faults + FaultsOf(live, ps[..k + 1], routine)
  {
    assert forall i :: 0 <= i < k ==> ps[..k][i] == ps[i];
    IdsStep(ps, k);
    FaultsStep(live, ps, routine, k);
  }

  /** Dropping the last pointer keeps the rest distinct, and the last names no earlier block. */
  lemma DistinctInit(ps: seq<Ptr>)
    requires ps != [] && Distinct(ps)
    ensures Distinct(ps[..|ps| - 1])
    ensures ps[|ps| - 1].Addr? ==> ps[|ps| - 1].id !in Ids(ps[..|ps| - 1])
  {
    var init := ps[..|ps| - 1];
    assert forall i :: 0 <= i < |init| ==> init[i] == ps[i];
  }

  /** A pointer naming no earlier block extends a distinct sequence to a distinct one. */
  lemma DistinctSnoc(ps: seq<Ptr>)
    requires ps != [] && Distinct(ps[..|ps| - 1])
    requires ps[|ps| - 1].Addr? ==> ps[|ps| - 1].id !in Ids(ps[..|ps| - 1])
    ensures Distinct(ps)
  {
    var init := ps[..|ps| - 1];
    forall i, j | 0 <= i < j < |ps| && ps[i].Addr? ensures ps[i] != ps[j] {
      assert init[i] == ps[i];
      if j < |ps| - 1 {
        assert init[j] == ps[j];
      } else {
        assert ps[i].id in Ids(init);
      }
    }
  }

  /** Each named block is live and was allocated by `routine`. */
  predicate OwnedBy(live: Live, ps: seq<Ptr>, routine: Routine)
  {
    forall k :: 0 <= k < |ps| && ps[k].Addr? ==> ps[k].id in live && live[ps[k].id].routine == routine
  }

  /**
   * A release sequence that records no fault names no block twice and names
   * only live blocks of the releasing routine.
   */
  lemma {:induction false} FaultFreeOnlyIfOwned(live: Live, ps: seq<Ptr>, routine: Routine)
    requires FaultsOf(live, ps, routine) == []
    ensures Distinct(ps) && OwnedBy(live, ps, routine)
  {
    if ps != [] {
      var init, last := ps[..|ps| - 1], ps[|ps| - 1];
      assert FaultsOf(live, init, routine) == [];
      FaultFreeOnlyIfOwned(live, init, routine);
      assert FreeFaults(live - Ids(init), last, routine) == [];
      DistinctSnoc(ps);
      forall k | 0 <= k < |ps| && ps[k].Addr? ensures ps[k].id in live && live[ps[k].id].routine == routine {
        if k < |ps| - 1 { assert init[k] == ps[k]; }
      }
    }
  }

  /**
   * Releasing distinct live blocks, each through the routine that allocated
   * it, records no fault: every block freed once, by its own routine.
   */
  lemma {:induction false} FaultFreeIfOwned(live: Live, ps: seq<Ptr>, routine: Routine)
    requires Distinct(ps) && OwnedBy(live, ps, routine)
    ensures FaultsOf(live, ps, routine) == []
  {
    if ps != [] {
      var init, last := ps[..|ps| - 1], ps[|ps| - 1];
      DistinctInit(ps);
      assert OwnedBy(live, init, routine) by {
        forall k | 0 <= k < |init| && init[k].Addr? ensures init[k].id in live && live[init[k].id].routine == routine {
          assert init[k] == ps[k];
        }
      }
      FaultFreeIfOwned(live, init, routine);
    }
  }

  /**
   * Releasing distinct live blocks that another routine allocated records one
   * mismatch per block, in order.
   */
  lemma {:induction false} FaultsOfMismatched(live: Live, ps: seq<Ptr>, owner: Routine, routine: Routine)
    requires owner != routine && Distinct(ps)
    requires forall k :: 0 <= k < |ps| ==> ps[k].Addr? && ps[k].id in live && live[ps[k].id].routine == owner
    ensures var fs := FaultsOf(live, ps, routine);
      |fs| == |ps| && forall k :: 0 <= k < |ps| ==> fs[k] == Mismatch(ps[k].id, owner, routine)
  {
    if ps != [] {
      var init := ps[..|ps| - 1];
      DistinctInit(ps);
      FaultsOfMismatched(live, init, owner, routine);
    }
  }

  /** The process heap as the marshaling helpers see it. */
  class Allocator {
    /** The live blocks. */
    var live: Live
    /** The identity the next allocation gets. */
    var next: nat
    /** Every faulty release so far, in order. */
    var faults: seq<Fault>

    /** Every live block has an identity below the counter. */
    ghost predicate Valid()
      reads this
    {
      forall id :: id in live ==> id < next
    }

    constructor ()
      ensures Valid() && live == map[] && faults == [] && next == 0
    {
      live, next, faults := map[], 0, [];
    }

    /** An allocation through `routine`, holding `cell`; it never fails. */
    method Alloc(routine: Routine, cell: Cell) returns (p: Ptr)
      requires Valid()
      modifies this
      ensures Valid()
      ensures p == Addr(old(next)) && next == old(next) + 1
      ensures live == old(live)[p.id := Block(routine, cell)] && faults == old(faults)
    {
      p := Addr(next);
      live := live[next := Block(routine, cell)];
      next := next + 1;
    }

    /** A write into a live block: its contents change, its routine does not. */
    method Store(p: Ptr, cell: Cell)
      requires Valid() && p.Addr? && p.id in live
      modifies this
      ensures Valid()
      ensures live == old(live)[p.id := Block(old(live)[p.id].routine, cell)]
      ensures next == old(next) && faults == old(faults)
    {
      live := live[p.id := Block(live[p.id].routine, cell)];
    }

    /** A release through `routine`: the block, if any, is no longer live, and a fault is recorded if it was not a live block of that routine. */
    method Free(p: Ptr, routine: Routine)
      requires Valid()
      modifies this
      ensures Valid()
      ensures live == old(live) - PtrIds(p)
      ensures faults == old(faults) + FreeFaults(old(live), p, routine)
      ensures next == old(next)
    {
      faults := faults + FreeFaults(live, p, routine);
      live := live - PtrIds(p);
    }
  }
}

/**
 * The allocator of kernel/kalloc.c as an object: `refCount` is the global
 * `ref_count[]` table, updated in place; `freeList` is the chain headed by
 * `kmem.freelist`, as frame numbers with the head first; `halted` is set
 * where the C code calls `panic`, which never returns, so no operation is
 * called on a halted allocator. Each of those panics fires before the
 * operation has changed anything, so a halting call changes nothing else.
 *
 * Kalloc, Kfree and IncrementPageRef are specified by the step functions
 * of FramePool they implement, and keep FramePool.Inv for the ghost `pool`
 * of frames that initialization has handed over. The constructor and Kinit
 * establish that invariant; FreeRange is specified by FramePool.SeedRange,
 * and FramePool.SeedRangeKeepsInv is its invariant.
 */
module Kalloc {
  import opened MemLayout
  import opened FramePool

  class Allocator {
    const layout: Layout
    const refCount: array<int>
    var freeList: seq<nat>
    var halted: bool
    ghost var pool: set<nat>

    function State(): Mem
      reads this, refCount
    {
      Mem(refCount[..], freeList, halted)
    }

    ghost predicate Valid()
      reads this, refCount
    {
      WellFormed(layout, State())
    }

    ghost predicate PoolInvariant()
      reads this, refCount
    {
      Inv(layout, State(), pool)
    }

    /** The allocator as the kernel image starts: a zeroed table, an empty
        free list, and no frame handed over yet. */
    constructor (kernelEnd: nat, phystop: nat)
      requires Layout(kernelEnd, phystop).Valid()
      ensures layout == Layout(kernelEnd, phystop) && fresh(refCount)
      ensures Valid() && PoolInvariant() && pool == {}
      ensures State() == Mem(seq(layout.TableSize(), _ => 0), [], false)
    {
      layout := Layout(kernelEnd, phystop);
      refCount := new int[phystop / PGSIZE](_ => 0);
      freeList := [];
      halted := false;
      pool := {};
    }

    /** kinit: hand every page of [PGROUNDUP(end), PHYSTOP) to the free list. */
    method Kinit()
      requires Valid() && State() == Mem(seq(layout.TableSize(), _ => 0), [], false) && pool == {}
      modifies this, refCount
      ensures State() == Booted(layout)
      ensures pool == FrameRange(layout.FirstFrame(), layout.TableSize())
      ensures PoolInvariant()
    {
      ghost var m0 := State();
      FreeRange(layout.kernelEnd, layout.phystop);
      SeedRangeShape(m0, layout.FirstFrame(), layout.TableSize());
      assert refCount[..] == seq(layout.TableSize(), _ => 0);
      BootedInv(layout);
    }

    /**
     * freerange: for each whole page from PGROUNDUP(paStart) up to paEnd,
     * give it one owner and release it, so that kfree links it into the
     * free list (see FramePool.SeedRange; FramePool.SeedRangeKeepsInv is
     * the pool invariant). kinit is its only caller, on [end, PHYSTOP);
     * the requires keep its writes inside the table.
     */
    method FreeRange(paStart: nat, paEnd: nat)
      requires Valid() && !halted
      requires layout.kernelEnd <= paStart && paEnd <= layout.phystop
      modifies this, refCount
      ensures Valid() && !halted
      ensures State() == SeedRange(old(State()), PgRoundUp(paStart) / PGSIZE, paEnd / PGSIZE)
      ensures pool == old(pool) + FrameRange(PgRoundUp(paStart) / PGSIZE, paEnd / PGSIZE)
    {
      var lo, hi := PgRoundUp(paStart) / PGSIZE, paEnd / PGSIZE;
      RoundUpIsLeast(layout.kernelEnd, PgRoundUp(paStart));
      AtMostTopInTable(layout, paEnd);
      ghost var m0 := State();
      var p := PgRoundUp(paStart);
      ghost var cur: nat := lo;
      while p + PGSIZE <= paEnd
        invariant Valid() && !halted && pool == old(pool)
        invariant p == cur * PGSIZE && layout.FirstFrame() <= lo <= cur
        invariant cur <= hi ==> State() == SeedRange(m0, lo, cur)
        invariant cur > hi ==> cur == lo && State() == m0
        decreases paEnd - p
      {
        StepFits(cur, paEnd);
        SeedThenRelease(layout, m0, lo, cur);
        refCount[p / PGSIZE] := 1;
        Kfree(p);
        p := p + PGSIZE;
        cur := cur + 1;
      }
      StepFits(cur, paEnd);
      pool := pool + FrameRange(lo, hi);
    }

    /**
     * increment_page_ref: one more owner for the frame holding `pa`. Halts
     * when `pa` is at or above the top of memory or the frame has no owner.
     */
    method IncrementPageRef(pa: nat)
      requires Valid() && !halted
      modifies this, refCount
      ensures Valid() && pool == old(pool)
      ensures State() == IncrementStep(layout, old(State()), pa)
      ensures halted <==> pa >= layout.phystop || old(refCount[pa / PGSIZE]) < 1
      ensures old(PoolInvariant()) ==> PoolInvariant()
    {
      if PoolInvariant() {
        IncrementPreservesInv(layout, State(), pool, pa);
      }
      var pageNumber := pa / PGSIZE;
      if pa >= layout.phystop {
        halted := true;
        return;
      }
      BelowTopInTable(layout, pa);
      if refCount[pageNumber] < 1 {
        halted := true;
        return;
      }
      refCount[pageNumber] := refCount[pageNumber] + 1;
    }

    /**
     * kfree: release one owner of the page at `pa`; when it was the last,
     * push the page on the head of the free list. Halts on an unaligned
     * address, one inside the kernel image or at or above the top of
     * memory, and on a page that has no owner (a double release).
     */
    method Kfree(pa: nat)
      requires Valid() && !halted
      modifies this, refCount
      ensures Valid() && pool == old(pool)
      ensures State() == KfreeStep(layout, old(State()), pa)
      ensures halted <==> !layout.KfreeAccepts(pa) || old(refCount[pa / PGSIZE]) < 1
      ensures old(PoolInvariant()) ==> PoolInvariant()
    {
      if PoolInvariant() {
        KfreePreservesInv(layout, State(), pool, pa);
      }
      if pa % PGSIZE != 0 || pa < layout.kernelEnd || pa >= layout.phystop {
        halted := true;
        return;
      }
      var pageNumber := pa / PGSIZE;
      BelowTopInTable(layout, pa);
      if refCount[pageNumber] < 1 {
        halted := true;
        return;
      }
      refCount[pageNumber] := refCount[pageNumber] - 1;
      var currentRefCount := refCount[pageNumber];
      if currentRefCount > 0 {
        return;
      }
      freeList := [pageNumber] + freeList;
    }

    /**
     * kalloc: take the page at the head of the free list, give it one owner
     * and return its address, or return 0 when the list is empty. Halts if
     * the head page already has an owner, which the pool invariant rules out.
     */
    method Kalloc() returns (pa: nat)
      requires Valid() && !halted
      modifies this, refCount
      ensures Valid() && pool == old(pool)
      ensures (State(), pa) == KallocStep(layout, old(State()))
      ensures old(freeList) == [] ==> pa == 0 && State() == old(State())
      ensures old(freeList) != [] && !halted ==>
                && pa == old(freeList[0]) * PGSIZE
                && freeList == old(freeList[1..])
                && refCount[..] == old(refCount[..])[old(freeList[0]) := 1]
      ensures old(PoolInvariant()) ==> PoolInvariant() && !halted
    {
      if PoolInvariant() {
        KallocPreservesInv(layout, State(), pool);
      }
      if freeList == [] {
        return 0;
      }
      var r := freeList[0];
      if refCount[r] != 0 {
        halted := true;
        return 0;
      }
      refCount[r] := 1;
      freeList := freeList[1..];
      pa := r * PGSIZE;
    }
  }
}

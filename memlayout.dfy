/**
 * Physical memory layout seen by the page-frame allocator: the page size,
 * the two boundary addresses (the end of the kernel image and the top of
 * physical memory) and the arithmetic that turns addresses into frame
 * numbers, indices of the reference-count table.
 */
module MemLayout {

  /** Bytes per page (and per frame). */
  const PGSIZE: nat := 4096

  /** The first page boundary at or above address `a`. */
  function PgRoundUp(a: nat): (r: nat)
    ensures r % PGSIZE == 0
    ensures a <= r < a + PGSIZE
  {
    (a + PGSIZE - 1) / PGSIZE * PGSIZE
  }

  /** No page boundary lies in [a, PgRoundUp(a)): the rounded address is the least one. */
  lemma RoundUpIsLeast(a: nat, pa: nat)
    requires pa % PGSIZE == 0 && a <= pa
    ensures PgRoundUp(a) <= pa
  {
    var k := pa / PGSIZE;
    assert pa == k * PGSIZE;
    assert (a + PGSIZE - 1) / PGSIZE <= k;
  }

  /**
   * The boundaries of the managed range: `kernelEnd` is the first address
   * after the kernel image (supplied by the linker), `phystop` the top of
   * physical memory. The reference-count table has one entry per page
   * below `phystop`.
   */
  datatype Layout = Layout(kernelEnd: nat, phystop: nat) {

    /** Platform assumptions: the kernel image starts above address 0 and ends
        below the top of memory, and the top of memory is page-aligned. */
    predicate Valid() {
      0 < kernelEnd <= phystop && phystop % PGSIZE == 0
    }

    /** Number of entries of the reference-count table (PHYSTOP/PGSIZE). */
    function TableSize(): nat {
      phystop / PGSIZE
    }

    /** Frame number of the first page the allocator hands out. */
    function FirstFrame(): nat {
      PgRoundUp(kernelEnd) / PGSIZE
    }

    /** Frames in [PGROUNDUP(end), PHYSTOP): the ones the allocator manages. */
    predicate Managed(f: nat) {
      FirstFrame() <= f < TableSize()
    }

    /** The address check at the head of kfree: page-aligned, not inside the
        kernel image, below the top of memory. */
    predicate KfreeAccepts(pa: nat) {
      pa % PGSIZE == 0 && kernelEnd <= pa < phystop
    }
  }

  /** An address below the top of memory names an entry of the table. */
  lemma BelowTopInTable(l: Layout, pa: nat)
    requires l.Valid() && pa < l.phystop
    ensures pa / PGSIZE < l.TableSize()
  {
    var n := l.phystop / PGSIZE;
    assert l.phystop == n * PGSIZE;
    assert (pa / PGSIZE) * PGSIZE <= pa < n * PGSIZE;
  }

  /** An address at or below the top of memory is at most one entry past the table. */
  lemma AtMostTopInTable(l: Layout, pa: nat)
    requires l.Valid() && pa <= l.phystop
    ensures pa / PGSIZE <= l.TableSize()
  {
    if pa < l.phystop {
      BelowTopInTable(l, pa);
    }
  }

  /** The top of memory itself is one entry past the end of the table. */
  lemma TopIsPastTable(l: Layout, pa: nat)
    requires l.Valid() && pa <= l.phystop
    ensures pa / PGSIZE >= l.TableSize() <==> pa == l.phystop
  {
    if pa < l.phystop {
      BelowTopInTable(l, pa);
    }
  }

  /** kfree's address check accepts exactly the base addresses of managed frames. */
  lemma {:induction false} KfreeAcceptsManaged(l: Layout, pa: nat)
    requires l.Valid()
    ensures l.KfreeAccepts(pa) <==> pa % PGSIZE == 0 && l.Managed(pa / PGSIZE)
  {
    if l.KfreeAccepts(pa) {
      RoundUpIsLeast(l.kernelEnd, pa);
      BelowTopInTable(l, pa);
      assert PgRoundUp(l.kernelEnd) / PGSIZE <= pa / PGSIZE;
    }
    if pa % PGSIZE == 0 && l.Managed(pa / PGSIZE) {
      var k := pa / PGSIZE;
      assert pa == k * PGSIZE;
      assert PgRoundUp(l.kernelEnd) == l.FirstFrame() * PGSIZE;
      assert l.kernelEnd <= PgRoundUp(l.kernelEnd) <= pa;
      assert l.phystop == l.TableSize() * PGSIZE;
      assert pa < l.phystop;
    }
  }

  /** The base address of a managed frame is nonzero, passes kfree's check and
      maps back to the same frame. */
  lemma FrameBaseAccepted(l: Layout, f: nat)
    requires l.Valid() && l.Managed(f)
    ensures f * PGSIZE > 0
    ensures (f * PGSIZE) / PGSIZE == f && (f * PGSIZE) % PGSIZE == 0
    ensures l.KfreeAccepts(f * PGSIZE)
  {
    assert PgRoundUp(l.kernelEnd) >= l.kernelEnd > 0;
    KfreeAcceptsManaged(l, f * PGSIZE);
  }

  /** The stepping test of freerange, `p + PGSIZE <= end`, for a page-aligned `p`. */
  lemma StepFits(f: nat, a: nat)
    ensures (f + 1) * PGSIZE <= a <==> f < a / PGSIZE
  {
    var n := a / PGSIZE;
    assert n * PGSIZE <= a < (n + 1) * PGSIZE;
    if f < n {
      assert (f + 1) * PGSIZE <= n * PGSIZE;
    } else {
      assert (f + 1) * PGSIZE >= (n + 1) * PGSIZE;
    }
  }
}

/**
 * The allocator's state as a value, and each operation of kernel/kalloc.c
 * as a step function on it. `counts` is the reference-count table indexed
 * by frame number, `free` the free list as frame numbers with its head at
 * index 0, and `halted` records that the operation reached `panic`.
 *
 * The lemmas here are the properties of the allocator that span several
 * calls: the pool invariant each step preserves, allocate/release round
 * trips, copy-on-write sharing, the fatal double release, and what
 * initialization hands out.
 */
module FramePool {
  import opened MemLayout

  datatype Mem = Mem(counts: seq<int>, free: seq<nat>, halted: bool)

  predicate NoDup(s: seq<nat>) {
    forall i, j :: 0 <= i < j < |s| ==> s[i] != s[j]
  }

  /** Pushing a frame that is not on the list keeps the list duplicate-free. */
  lemma PushKeepsNoDup(s: seq<nat>, f: nat)
    requires NoDup(s) && f !in s
    ensures NoDup([f] + s)
  {
    var t := [f] + s;
    forall i, j | 0 <= i < j < |t| ensures t[i] != t[j] {
      assert t[j] == s[j - 1];
      if i > 0 {
        assert t[i] == s[i - 1];
      }
    }
  }

  /** Structural facts every operation keeps, whatever its caller does: the
      table covers every page below the top of memory, only managed frames
      are ever linked into the free list, and no count is negative. */
  ghost predicate WellFormed(l: Layout, m: Mem) {
    && l.Valid()
    && |m.counts| == l.TableSize()
    && (forall i :: 0 <= i < |m.free| ==> l.Managed(m.free[i]))
    && (forall f :: 0 <= f < |m.counts| ==> m.counts[f] >= 0)
  }

  /** `r` differs from `m` in the count of frame `f` at most. */
  ghost predicate OnlyFrameChanged(m: Mem, r: Mem, f: nat) {
    |r.counts| == |m.counts| &&
    forall g :: 0 <= g < |m.counts| && g != f ==> r.counts[g] == m.counts[g]
  }

  /** Frames lo, lo+1, ..., hi-1 (see DescendingHoldsRange). */
  ghost function FrameRange(lo: nat, hi: nat): set<nat> {
    set f | f in Descending(lo, hi)
  }

  /**
   * The pool invariant. `pool` is the set of frames initialization has
   * handed to the allocator so far. A pool frame has count 0 exactly when it
   * is on the free list; a frame outside the pool has count 0 and is not on
   * the list; the list holds each frame at most once.
   */
  ghost predicate Inv(l: Layout, m: Mem, pool: set<nat>) {
    && WellFormed(l, m)
    && (forall f :: f in pool ==> l.Managed(f) && (m.counts[f] == 0 <==> f in m.free))
    && (forall f :: 0 <= f < |m.counts| && f !in pool ==> m.counts[f] == 0)
    && (forall i :: 0 <= i < |m.free| ==> m.free[i] in pool)
    && NoDup(m.free)
  }

  // ---------------------------------------------------------------------
  // The operations

  /**
   * kalloc: pop the head of the free list, halt if it is already owned,
   * otherwise give it one owner and return its address; return 0 when the
   * list is empty.
   */
  function KallocStep(l: Layout, m: Mem): (r: (Mem, nat))
    requires WellFormed(l, m) && !m.halted
    ensures WellFormed(l, r.0)
    ensures r.1 == 0 <==> m.free == [] || r.0.halted
    ensures r.0.halted <==> m.free != [] && m.counts[m.free[0]] != 0
    ensures r.1 != 0 ==>
              && r.1 % PGSIZE == 0 && l.Managed(r.1 / PGSIZE)
              && r.1 / PGSIZE == m.free[0] && r.0.free == m.free[1..]
              && m.counts[r.1 / PGSIZE] == 0 && r.0.counts[r.1 / PGSIZE] == 1
              && OnlyFrameChanged(m, r.0, r.1 / PGSIZE)
    ensures r.1 == 0 ==> r.0.counts == m.counts && r.0.free == m.free
  {
    if m.free == [] then (m, 0)
    else
      var f := m.free[0];
      if m.counts[f] != 0 then (m.(halted := true), 0)
      else
        FrameBaseAccepted(l, f);
        (m.(counts := m.counts[f := 1], free := m.free[1..]), f * PGSIZE)
  }

  /**
   * kfree: halt on an address kfree's check rejects or on a frame nobody
   * owns; otherwise drop one owner, and link the frame at the head of the
   * free list when that was the last one.
   */
  function KfreeStep(l: Layout, m: Mem, pa: nat): (r: Mem)
    requires WellFormed(l, m) && !m.halted
    ensures WellFormed(l, r)
    ensures OnlyFrameChanged(m, r, pa / PGSIZE)
    ensures r.halted <==> !l.KfreeAccepts(pa) || m.counts[pa / PGSIZE] < 1
    ensures !r.halted ==>
              && l.KfreeAccepts(pa) && pa / PGSIZE < |m.counts|
              && m.counts[pa / PGSIZE] >= 1
              && r.counts[pa / PGSIZE] == m.counts[pa / PGSIZE] - 1
              && r.free == (if r.counts[pa / PGSIZE] == 0 then [pa / PGSIZE] + m.free else m.free)
    ensures r.halted ==> r.counts == m.counts && r.free == m.free
  {
    if !l.KfreeAccepts(pa) then m.(halted := true)
    else
      var f := pa / PGSIZE;
      KfreeAcceptsManaged(l, pa);
      if m.counts[f] < 1 then m.(halted := true)
      else
        var c := m.counts[f] - 1;
        if c > 0 then m.(counts := m.counts[f := c])
        else m.(counts := m.counts[f := c], free := [f] + m.free)
  }

  /**
   * increment_page_ref: add an owner to a frame that already has one; halt
   * on an address at or above the top of memory or on a frame nobody owns.
   * The address is not checked for alignment or against the kernel image:
   * the frame is the page that contains it.
   */
  function IncrementStep(l: Layout, m: Mem, pa: nat): (r: Mem)
    requires WellFormed(l, m) && !m.halted
    ensures WellFormed(l, r)
    ensures OnlyFrameChanged(m, r, pa / PGSIZE) && r.free == m.free
    ensures r.halted <==> pa >= l.phystop || m.counts[pa / PGSIZE] < 1
    ensures !r.halted ==>
              && pa / PGSIZE < |m.counts|
              && m.counts[pa / PGSIZE] >= 1
              && r.counts[pa / PGSIZE] == m.counts[pa / PGSIZE] + 1
    ensures r.halted ==> r.counts == m.counts
  {
    if pa >= l.phystop then m.(halted := true)
    else
      var f := pa / PGSIZE;
      BelowTopInTable(l, pa);
      if m.counts[f] < 1 then m.(halted := true)
      else m.(counts := m.counts[f := m.counts[f] + 1])
  }

  /** What the guard of increment_page_ref does as written: it tests
      `pa > PHYSTOP`, so for `pa == PHYSTOP` it goes on to read the count of
      a frame one past the end of the table. */
  datatype GuardedRead = Reads(mem: Mem) | ReadsPastTable(index: nat)

  function IncrementStepAsWritten(l: Layout, m: Mem, pa: nat): (r: GuardedRead)
    requires WellFormed(l, m) && !m.halted
    ensures r.ReadsPastTable? <==> pa == l.phystop
    ensures r.ReadsPastTable? ==> r.index == |m.counts|
  {
    if pa > l.phystop then Reads(m.(halted := true))
    else
      var f := pa / PGSIZE;
      TopIsPastTable(l, pa);
      if f >= |m.counts| then ReadsPastTable(f)
      else if m.counts[f] < 1 then Reads(m.(halted := true))
      else Reads(m.(counts := m.counts[f := m.counts[f] + 1]))
  }

  /** The corrected guard differs from the one as written on exactly one
      address, the top of memory, where the code as written reads outside
      the table and the corrected step halts. */
  lemma IncrementGuardCorrection(l: Layout, m: Mem, pa: nat)
    requires WellFormed(l, m) && !m.halted
    ensures pa != l.phystop ==> IncrementStepAsWritten(l, m, pa) == Reads(IncrementStep(l, m, pa))
    ensures pa == l.phystop ==> IncrementStep(l, m, pa).halted
  {
    if pa < l.phystop {
      TopIsPastTable(l, pa);
    }
  }

  // ---------------------------------------------------------------------
  // The pool invariant is preserved

  /** Under the invariant kalloc never finds an owned frame on the list, so
      its corruption check never fires. */
  lemma KallocPreservesInv(l: Layout, m: Mem, pool: set<nat>)
    requires Inv(l, m, pool) && !m.halted
    ensures !KallocStep(l, m).0.halted
    ensures Inv(l, KallocStep(l, m).0, pool)
  {
    if m.free != [] {
      var f := m.free[0];
      var r := KallocStep(l, m).0;
      assert f in pool;
      assert r.free == m.free[1..];
      forall g | g in pool
        ensures r.counts[g] == 0 <==> g in r.free
      {
        if g == f {
          assert f !in m.free[1..] by {
            forall i | 1 <= i < |m.free| ensures m.free[i] != f {
              assert m.free[0] != m.free[i];
            }
          }
        } else {
          assert g in m.free <==> g in r.free by {
            assert m.free == [f] + r.free;
          }
        }
      }
    }
  }

  lemma KfreePreservesInv(l: Layout, m: Mem, pool: set<nat>, pa: nat)
    requires Inv(l, m, pool) && !m.halted
    ensures Inv(l, KfreeStep(l, m, pa), pool)
  {
    var r := KfreeStep(l, m, pa);
    if !r.halted {
      var f := pa / PGSIZE;
      KfreeAcceptsManaged(l, pa);
      assert f in pool && f !in m.free;
      if r.counts[f] == 0 {
        assert r == m.(counts := m.counts[f := 0], free := [f] + m.free);
        PushKeepsNoDup(m.free, f);
      } else {
        assert r == m.(counts := m.counts[f := r.counts[f]]);
      }
    }
  }

  /** A frame with an owner is in the pool and off the list, and stays so. */
  lemma IncrementPreservesInv(l: Layout, m: Mem, pool: set<nat>, pa: nat)
    requires Inv(l, m, pool) && !m.halted
    ensures Inv(l, IncrementStep(l, m, pa), pool)
  {
    var r := IncrementStep(l, m, pa);
    if !r.halted {
      assert pa / PGSIZE in pool;
    }
  }

  // ---------------------------------------------------------------------
  // Properties over several calls

  /** Releasing the frame kalloc just returned restores the allocator exactly. */
  lemma KallocKfreeRoundTrip(l: Layout, m: Mem, pool: set<nat>)
    requires Inv(l, m, pool) && !m.halted && m.free != []
    ensures KallocStep(l, m).1 != 0
    ensures KfreeStep(l, KallocStep(l, m).0, KallocStep(l, m).1) == m
  {
    KallocPreservesInv(l, m, pool);
    var (r, pa) := KallocStep(l, m);
    var f := m.free[0];
    FrameBaseAccepted(l, f);
    assert r.counts[f := 0] == m.counts;
    assert [f] + m.free[1..] == m.free;
  }

  /** LIFO reuse: after the last owner releases a frame, the next kalloc
      returns that same frame, and the allocator is back where it was. */
  lemma KfreeKallocReuse(l: Layout, m: Mem, pa: nat)
    requires WellFormed(l, m) && !m.halted
    requires l.KfreeAccepts(pa) && m.counts[pa / PGSIZE] == 1
    ensures !KfreeStep(l, m, pa).halted && pa / PGSIZE in KfreeStep(l, m, pa).free
    ensures KallocStep(l, KfreeStep(l, m, pa)) == (m, pa)
  {
    var f := pa / PGSIZE;
    KfreeAcceptsManaged(l, pa);
    var r := KfreeStep(l, m, pa);
    assert r.free == [f] + m.free;
    assert r.counts[f := 1] == m.counts;
    assert f * PGSIZE == pa;
  }

  /** Adding an owner and then releasing one leaves the allocator unchanged. */
  lemma IncrementKfreeRoundTrip(l: Layout, m: Mem, pa: nat)
    requires WellFormed(l, m) && !m.halted
    requires l.KfreeAccepts(pa) && m.counts[pa / PGSIZE] >= 1
    ensures !IncrementStep(l, m, pa).halted
    ensures KfreeStep(l, IncrementStep(l, m, pa), pa) == m
  {
    var f := pa / PGSIZE;
    KfreeAcceptsManaged(l, pa);
    var r := IncrementStep(l, m, pa);
    assert r.counts[f := m.counts[f]] == m.counts;
  }

  /** Copy-on-write sharing: a frame raised to two owners survives the first
      release (still owned, not on the list) and is freed by the second. */
  lemma SharedFrameNeedsTwoReleases(l: Layout, m: Mem, pool: set<nat>, pa: nat)
    requires Inv(l, m, pool) && !m.halted
    requires l.KfreeAccepts(pa) && m.counts[pa / PGSIZE] == 1
    ensures var m1 := IncrementStep(l, m, pa);
            && !m1.halted && m1.counts[pa / PGSIZE] == 2
            && var m2 := KfreeStep(l, m1, pa);
            && !m2.halted && m2.counts[pa / PGSIZE] == 1 && pa / PGSIZE !in m2.free
            && var m3 := KfreeStep(l, m2, pa);
            && !m3.halted && m3.counts[pa / PGSIZE] == 0 && m3.free == [pa / PGSIZE] + m.free
  {
    var f := pa / PGSIZE;
    KfreeAcceptsManaged(l, pa);
    IncrementKfreeRoundTrip(l, m, pa);
    assert f in pool;
  }

  /** Releasing a single-owner frame twice reaches the fatal path. */
  lemma DoubleReleaseHalts(l: Layout, m: Mem, pa: nat)
    requires WellFormed(l, m) && !m.halted
    requires l.KfreeAccepts(pa) && m.counts[pa / PGSIZE] == 1
    ensures !KfreeStep(l, m, pa).halted
    ensures KfreeStep(l, KfreeStep(l, m, pa), pa).halted
  {
    KfreeAcceptsManaged(l, pa);
  }

  /** Adding an owner to a frame on the free list (or outside the pool)
      reaches the fatal path: a free frame cannot be resurrected. */
  lemma IncrementOfFreeFrameHalts(l: Layout, m: Mem, pool: set<nat>, pa: nat)
    requires Inv(l, m, pool) && !m.halted
    requires pa / PGSIZE in m.free || pa / PGSIZE !in pool
    ensures IncrementStep(l, m, pa).halted
  {
    if pa < l.phystop {
      BelowTopInTable(l, pa);
      assert pa / PGSIZE in pool ==> m.counts[pa / PGSIZE] == 0;
    }
  }

  /** kalloc never hands out a frame that has an owner, so two allocations
      never return the same frame while the first is still held. */
  lemma KallocNeverReturnsOwnedFrame(l: Layout, m: Mem, pool: set<nat>, f: nat)
    requires Inv(l, m, pool) && !m.halted
    requires f < |m.counts| && m.counts[f] >= 1
    ensures KallocStep(l, m).1 != f * PGSIZE
  {
    var pa := KallocStep(l, m).1;
    if pa != 0 {
      var h := m.free[0];
      assert h in pool && h != f;
      FrameBaseAccepted(l, h);
    }
  }

  // ---------------------------------------------------------------------
  // Initialization and exhaustion

  /** hi-1, hi-2, ..., lo: the free list freerange builds by pushing the
      frames lo, ..., hi-1 in increasing order. */
  function Descending(lo: nat, hi: nat): (s: seq<nat>)
    decreases hi
  {
    if hi <= lo then [] else [hi - 1] + Descending(lo, hi - 1)
  }

  lemma {:induction false} DescendingAt(lo: nat, hi: nat)
    ensures |Descending(lo, hi)| == if hi <= lo then 0 else hi - lo
    ensures forall i :: 0 <= i < |Descending(lo, hi)| ==> Descending(lo, hi)[i] == hi - 1 - i
  {
    if hi > lo {
      DescendingAt(lo, hi - 1);
    }
  }

  /** The list freerange builds holds each frame of [lo, hi) exactly once. */
  lemma DescendingHoldsRange(lo: nat, hi: nat)
    ensures NoDup(Descending(lo, hi))
    ensures forall f :: f in Descending(lo, hi) <==> lo <= f < hi
  {
    DescendingAt(lo, hi);
    var s := Descending(lo, hi);
    forall f | lo <= f < hi ensures f in s {
      assert s[hi - 1 - f] == f;
    }
  }

  /** What freerange does to the frames lo, ..., hi-1, in that order: each
      ends with count 0 and is pushed on the head of the list. */
  function SeedRange(m: Mem, lo: nat, hi: nat): (r: Mem)
    requires hi <= |m.counts|
    ensures |r.counts| == |m.counts| && r.halted == m.halted
    decreases hi
  {
    if hi <= lo then m
    else
      var s := SeedRange(m, lo, hi - 1);
      s.(counts := s.counts[hi - 1 := 0], free := [hi - 1] + s.free)
  }

  /** Seeding [lo, hi) zeroes exactly those counts and puts those frames,
      highest first, in front of the old list. */
  lemma {:induction false} SeedRangeShape(m: Mem, lo: nat, hi: nat)
    requires hi <= |m.counts|
    ensures SeedRange(m, lo, hi).free == Descending(lo, hi) + m.free
    ensures forall g :: 0 <= g < |m.counts| ==>
              SeedRange(m, lo, hi).counts[g] == if lo <= g < hi then 0 else m.counts[g]
    decreases hi
  {
    if hi > lo {
      SeedRangeShape(m, lo, hi - 1);
      assert [hi - 1] + (Descending(lo, hi - 1) + m.free) == Descending(lo, hi) + m.free;
    }
  }

  /** One round of freerange's loop, on frame `cur` after the frames lo, ...,
      cur-1: give it one owner and release it. The release succeeds and the
      result is the state with lo, ..., cur seeded. */
  lemma SeedThenRelease(l: Layout, m0: Mem, lo: nat, cur: nat)
    requires cur < |m0.counts| && WellFormed(l, SeedRange(m0, lo, cur)) && !m0.halted
    requires lo <= cur && l.Managed(cur)
    ensures (cur * PGSIZE) / PGSIZE == cur
    ensures var m := SeedRange(m0, lo, cur);
            && WellFormed(l, m.(counts := m.counts[cur := 1]))
            && KfreeStep(l, m.(counts := m.counts[cur := 1]), cur * PGSIZE) == SeedRange(m0, lo, cur + 1)
  {
    FrameBaseAccepted(l, cur);
  }

  lemma FrameRangeStep(lo: nat, hi: nat)
    requires lo <= hi
    ensures FrameRange(lo, hi + 1) == FrameRange(lo, hi) + {hi}
  {
  }

  /** Linking a frame from outside the pool into the free list, with count 0,
      keeps the invariant of the pool that it joins. */
  lemma AdoptKeepsInv(l: Layout, m: Mem, pool: set<nat>, f: nat)
    requires Inv(l, m, pool) && l.Managed(f) && f !in pool
    ensures Inv(l, m.(counts := m.counts[f := 0], free := [f] + m.free), pool + {f})
  {
    var r := m.(counts := m.counts[f := 0], free := [f] + m.free);
    assert f !in m.free;
    assert r.counts == m.counts;
    PushKeepsNoDup(m.free, f);
  }

  /** freerange's loop seeding one more frame, `hi`, from outside the pool. */
  lemma SeedOneKeepsInv(l: Layout, m: Mem, pool: set<nat>, lo: nat, hi: nat)
    requires lo <= hi < |m.counts| && l.Managed(hi) && hi !in pool
    requires Inv(l, SeedRange(m, lo, hi), pool + FrameRange(lo, hi))
    ensures Inv(l, SeedRange(m, lo, hi + 1), pool + FrameRange(lo, hi + 1))
  {
    var s := SeedRange(m, lo, hi);
    assert SeedRange(m, lo, hi + 1) == s.(counts := s.counts[hi := 0], free := [hi] + s.free);
    FrameRangeStep(lo, hi);
    DescendingHoldsRange(lo, hi);
    AdoptKeepsInv(l, s, pool + FrameRange(lo, hi), hi);
    assert pool + FrameRange(lo, hi + 1) == pool + FrameRange(lo, hi) + {hi};
  }

  /** freerange over managed frames not yet in the pool keeps the pool
      invariant, with those frames added to the pool. */
  lemma {:induction false} SeedRangeKeepsInv(l: Layout, m: Mem, pool: set<nat>, lo: nat, hi: nat)
    requires Inv(l, m, pool) && l.FirstFrame() <= lo && hi <= l.TableSize()
    requires forall g :: lo <= g < hi ==> g !in pool
    ensures Inv(l, SeedRange(m, lo, hi), pool + FrameRange(lo, hi))
    decreases hi
  {
    if hi <= lo {
      assert FrameRange(lo, hi) == {};
    } else {
      SeedRangeKeepsInv(l, m, pool, lo, hi - 1);
      SeedOneKeepsInv(l, m, pool, lo, hi - 1);
    }
  }

  /** The state kinit leaves behind: every count 0 and every managed frame on
      the list, highest first. */
  function Booted(l: Layout): (m: Mem)
    requires l.Valid()
    ensures WellFormed(l, m) && !m.halted
  {
    DescendingAt(l.FirstFrame(), l.TableSize());
    Mem(seq(l.TableSize(), _ => 0), Descending(l.FirstFrame(), l.TableSize()), false)
  }

  /** After initialization every managed frame is in the pool, has count 0
      and is on the free list exactly once, and the list is as long as the
      managed range. */
  lemma BootedInv(l: Layout)
    requires l.Valid()
    ensures Inv(l, Booted(l), FrameRange(l.FirstFrame(), l.TableSize()))
    ensures l.FirstFrame() <= l.TableSize()
    ensures |Booted(l).free| == l.TableSize() - l.FirstFrame()
  {
    RoundUpIsLeast(l.kernelEnd, l.phystop);
    DescendingHoldsRange(l.FirstFrame(), l.TableSize());
    DescendingAt(l.FirstFrame(), l.TableSize());
  }

  /** Run kalloc `k` times (stopping at a halt) and collect what it returns. */
  function Drain(l: Layout, m: Mem, k: nat): (r: (Mem, seq<nat>))
    requires WellFormed(l, m) && !m.halted
    ensures WellFormed(l, r.0)
    decreases k
  {
    if k == 0 then (m, [])
    else
      var (m1, pa) := KallocStep(l, m);
      if m1.halted then (m1, [pa])
      else
        var (m2, rest) := Drain(l, m1, k - 1);
        (m2, [pa] + rest)
  }

  /** Under the invariant, as many kalloc calls as the list is long return
      the listed frames' addresses in list order, and the next one returns 0. */
  lemma {:induction false} DrainReturnsFreeList(l: Layout, m: Mem, pool: set<nat>)
    requires Inv(l, m, pool) && !m.halted
    ensures var (r, addrs) := Drain(l, m, |m.free|);
            && !r.halted && r.free == [] && Inv(l, r, pool)
            && |addrs| == |m.free|
            && (forall i :: 0 <= i < |addrs| ==> addrs[i] == m.free[i] * PGSIZE)
            && KallocStep(l, r).1 == 0
    decreases |m.free|
  {
    if m.free != [] {
      KallocPreservesInv(l, m, pool);
      var (m1, pa) := KallocStep(l, m);
      assert m1.free == m.free[1..];
      DrainReturnsFreeList(l, m1, pool);
    }
  }

  /** Initialization followed by exhaustion: kalloc returns every managed
      page exactly once, highest first, and then returns 0. */
  lemma BootedAllocatesEveryFrame(l: Layout)
    requires l.Valid()
    ensures l.FirstFrame() <= l.TableSize()
    ensures var (r, addrs) := Drain(l, Booted(l), l.TableSize() - l.FirstFrame());
            && |addrs| == l.TableSize() - l.FirstFrame()
            && (forall i :: 0 <= i < |addrs| ==> addrs[i] == (l.TableSize() - 1 - i) * PGSIZE)
            && !r.halted && KallocStep(l, r).1 == 0
  {
    BootedInv(l);
    DescendingAt(l.FirstFrame(), l.TableSize());
    DrainReturnsFreeList(l, Booted(l), FrameRange(l.FirstFrame(), l.TableSize()));
  }
}

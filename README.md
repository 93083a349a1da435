# Page-frame allocator of xv6 with copy-on-write reference counts

This project models the physical page allocator of an xv6 kernel that
supports copy-on-write fork (`kernel/kalloc.c`). The allocator hands out
whole 4096-byte frames between the end of the kernel image and the top of
physical memory. It keeps a singly linked free list threaded through the free
frames themselves, and a table `ref_count[]` with one owner count per frame.
`kalloc` pops the head of the list and gives the frame one owner.
`increment_page_ref` adds an owner when a page becomes shared.
`kfree` removes one owner and links the frame back onto the list when the
last owner is gone. `kinit`/`freerange` seed the list with every page above
the kernel. Any inconsistency ends in `panic`.

Three modules:

- `MemLayout` (`memlayout.dfy`): the page size, the two boundary addresses
  (`Layout(kernelEnd, phystop)`), page rounding, and the address-to-frame
  arithmetic with its range facts.
- `FramePool` (`frame_pool.dfy`): the allocator state as a value
  `Mem(counts, free, halted)` and each operation as a step function on it.
  It also holds the pool invariant `Inv` that every step preserves, and the
  properties that span several calls: round trips, LIFO reuse, copy-on-write
  sharing, the fatal double release, and what initialization hands out.
- `Kalloc` (`kalloc.dfy`): the allocator as an object, class `Allocator`.
  - The reference-count table is an `array<int>` updated in place.
  - The free list is a `seq<nat>` of frame numbers, head first.
  - `halted` records a `panic`.
  - A ghost set `pool` holds the frames initialization has handed over.
  - `FreeRange` is the loop of `freerange`, with its invariants.
  - The contracts of `Kalloc`, `Kfree` and `IncrementPageRef` tie their new
    state to the matching step function of `FramePool`. `FreeRange` is tied
    to `FramePool.SeedRange` and `Kinit` to `FramePool.Booted`. The
    constructor gives its state explicitly, with a freshly allocated table.
  - `Kalloc`, `Kfree` and `IncrementPageRef` state that they keep the pool
    invariant. The constructor and `Kinit` establish it. For `FreeRange` the
    invariant is the lemma `FramePool.SeedRangeKeepsInv`.

`panic` never returns. Each `panic` here fires before its operation has
changed anything, so a call that reaches one sets `halted` and leaves the
rest of the state as it was. No operation is called on a halted allocator.

## Model

| member | source | states |
|---|---|---|
| MemLayout.PgRoundUp | kernel/kalloc.c:38 | PGROUNDUP yields a page-aligned address in `[a, a + PGSIZE)` |
| MemLayout.RoundUpIsLeast | kernel/kalloc.c:38 | no page boundary lies between `a` and PGROUNDUP(a): every aligned address at or above `a` is at or above the rounded one |
| MemLayout.BelowTopInTable | kernel/kalloc.c:12 | every address below PHYSTOP has its frame number inside `ref_count[PHYSTOP/PGSIZE]` |
| MemLayout.TopIsPastTable | kernel/kalloc.c:12 | among addresses up to PHYSTOP, only PHYSTOP itself maps past the end of the table |
| MemLayout.Layout.KfreeAccepts | kernel/kalloc.c:68 | kfree's address check: page-aligned, not below `end`, below PHYSTOP. Its meaning in frames is stated by MemLayout.KfreeAcceptsManaged |
| MemLayout.KfreeAcceptsManaged | kernel/kalloc.c:68 | kfree's address check accepts exactly the base addresses of the frames in `[PGROUNDUP(end), PHYSTOP)` |
| MemLayout.FrameBaseAccepted | kernel/kalloc.c:42-43 | the base address of a managed frame is nonzero, maps back to its frame and passes kfree's check |
| MemLayout.StepFits | kernel/kalloc.c:39 | for an aligned `p`, the test `p + PGSIZE <= pa_end` holds exactly when p's frame is below `pa_end / PGSIZE` |
| FramePool.KallocStep | kernel/kalloc.c:98-120 | halts exactly when the list is non-empty and its head is already owned. Returns 0 exactly when the list is empty or it halted, and then the table and list are unchanged. Otherwise it returns the aligned base address of the old head, a managed frame whose count goes from 0 to 1 while every other count stays the same, and the list loses its head |
| FramePool.KfreeStep | kernel/kalloc.c:62-93 | halts exactly when the address check fails or the frame has no owner. Without a halt, the address passed the check, the frame had at least one owner and now has one fewer, and the frame is pushed on the head of the list exactly when its count reached 0. A halt changes no count and no list entry. No other frame's count changes |
| FramePool.IncrementStep | kernel/kalloc.c:47-56 | halts exactly when `pa >= PHYSTOP` or the frame has no owner. Without a halt, the frame is in the table, had at least one owner and gains one. A halt changes nothing. The free list never changes. Uses the corrected guard `pa >= PHYSTOP` |
| FramePool.IncrementStepAsWritten | kernel/kalloc.c:50-51 | the guard as written lets through exactly one out-of-range address, `pa == PHYSTOP`, whose frame index equals the table length |
| FramePool.IncrementGuardCorrection | kernel/kalloc.c:51 | the guard as written and the corrected guard agree on every address except PHYSTOP, where the corrected step halts |
| FramePool.KallocPreservesInv | kernel/kalloc.c:104-114 | under the pool invariant kalloc's corruption panic never fires, and the invariant still holds afterwards |
| FramePool.KfreePreservesInv | kernel/kalloc.c:68-92 | kfree keeps the pool invariant: a count of 0 means the frame is on the list, and the list has no duplicates |
| FramePool.IncrementPreservesInv | kernel/kalloc.c:50-54 | increment_page_ref keeps the pool invariant |
| FramePool.KallocKfreeRoundTrip | kernel/kalloc.c:62-120 | freeing the frame kalloc just returned restores the allocator state exactly |
| FramePool.KfreeKallocReuse | kernel/kalloc.c:81-113 | LIFO reuse: once the last owner frees a frame, the next kalloc returns that same frame and restores the state |
| FramePool.IncrementKfreeRoundTrip | kernel/kalloc.c:47-82 | adding an owner and then removing one leaves the state unchanged |
| FramePool.SharedFrameNeedsTwoReleases | kernel/kalloc.c:47-93 | a frame raised to two owners is still owned and off the list after one kfree, and is pushed on the list after the second |
| FramePool.DoubleReleaseHalts | kernel/kalloc.c:74-76 | freeing a single-owner frame twice reaches the panic |
| FramePool.IncrementOfFreeFrameHalts | kernel/kalloc.c:51-53 | adding an owner to a frame that is on the free list, or was never handed over, reaches the panic |
| FramePool.KallocNeverReturnsOwnedFrame | kernel/kalloc.c:106-112 | under the pool invariant kalloc never returns a frame that currently has an owner |
| FramePool.SeedRange | kernel/kalloc.c:39-44 | the effect of freerange's loop, one frame at a time. Its own contract keeps the table length and the halted flag. The closed form is FramePool.SeedRangeShape |
| FramePool.SeedRangeShape | kernel/kalloc.c:39-44 | seeding `[lo, hi)` leaves exactly those frames with count 0 and puts them on the list highest first, in front of the old list |
| FramePool.SeedThenRelease | kernel/kalloc.c:42-43 | one round of freerange's loop: setting the count to 1 and calling kfree succeeds and seeds one more frame |
| FramePool.SeedRangeKeepsInv | kernel/kalloc.c:35-45 | freerange over managed frames not yet handed over keeps the pool invariant, with those frames added to the pool |
| FramePool.Booted | kernel/kalloc.c:28-33 | the state kinit leaves: a well-formed running allocator, every count 0 and every managed frame listed, highest first. Its properties are FramePool.BootedInv and FramePool.BootedAllocatesEveryFrame |
| FramePool.BootedInv | kernel/kalloc.c:28-33 | after kinit every managed frame has count 0, appears exactly once on the list, and the list is as long as the managed range |
| FramePool.DrainReturnsFreeList | kernel/kalloc.c:98-120 | under the invariant, calling kalloc as many times as the list is long returns each listed frame's address in list order, and the next call returns 0 |
| FramePool.BootedAllocatesEveryFrame | kernel/kalloc.c:28-120 | after kinit, repeated kalloc returns every managed page exactly once, highest first, then 0, without a panic |
| Kalloc.Allocator.constructor | kernel/kalloc.c:12-26 | a freshly allocated, zero-initialized table of PHYSTOP/PGSIZE entries and an empty free list |
| Kalloc.Allocator.Kinit | kernel/kalloc.c:28-33 | ends in the booted state: every managed frame handed over and free, with the pool invariant established |
| Kalloc.Allocator.FreeRange | kernel/kalloc.c:35-45 | the loop in place on the table: the new state is the old one with the frames of `[PGROUNDUP(pa_start), pa_end)` seeded, and those frames join the pool |
| Kalloc.Allocator.IncrementPageRef | kernel/kalloc.c:47-56 | the table updated in place as IncrementStep says. It halts exactly when `pa >= PHYSTOP` or the frame has no owner, and keeps the pool invariant |
| Kalloc.Allocator.Kfree | kernel/kalloc.c:62-93 | the table and list updated as KfreeStep says. It halts exactly when the address check fails or the frame has no owner, and keeps the pool invariant |
| Kalloc.Allocator.Kalloc | kernel/kalloc.c:98-120 | returns 0 with nothing changed on an empty list. Otherwise it returns the head's address, the list loses its head, and only the head's count becomes 1. Under the pool invariant it never halts and keeps the invariant |

## Left out

- Locks (`kmem.lock`, lines 49, 55, 72, 79, 89, 92, 104, 115) and concurrency. Each operation is modelled as one atomic step. kfree releases the lock between the decrement and the push, so the interleavings that opens up are not modelled.
- The `memset` junk fills (lines 85 and 118): page contents are not modelled.
- The `struct run` links stored inside the free pages (lines 19-21, 87-91). The list is a sequence of frame numbers, so aliasing between a free page's contents and the list is not captured.
- `panic` is the `halted` flag. The console message and the machine stop are not modelled. Every operation requires a running allocator.
- `memlayout.h`, `riscv.h` and `kernel.ld` are not part of this model. `PHYSTOP` and `end` are the parameters `phystop` and `kernelEnd`. The model assumes `0 < kernelEnd <= phystop` and that `phystop` is page-aligned, as the xv6 platform guarantees. `PGSIZE` is 4096.
- Pointer and integer widths: addresses are unbounded naturals, and the `int page_number` truncation in lines 50, 66 and 102 is not modelled, since every index used is below `PHYSTOP/PGSIZE`.
- FramePool.IncrementStep: owner counts are unbounded integers. The C `int` of `ref_count` (line 12) would overflow at 2^31 - 1 owners on `+= 1` (line 54), and the model does not capture that wrap.
- Kalloc.Allocator.FreeRange: its requires keep every write inside the table (`end <= pa_start`, `pa_end <= PHYSTOP`). The only call site, kinit, meets them. Its ensures do not state the pool invariant. That property is FramePool.SeedRangeKeepsInv, and Kinit uses FramePool.BootedInv.
- Kalloc.Allocator.Kinit: it starts from the zeroed table and empty list of a freshly loaded kernel image, and `initlock` (line 31) is not modelled.

## Findings

| source | as written | input that shows it | evidently intended | confidence | as-written member | corrected member |
|---|---|---|---|---|---|---|
| kernel/kalloc.c:51 | `if(pa>PHYSTOP \|\| ref_count[page_number]<1)` | `pa == PHYSTOP`: the guard lets it through, and `ref_count[PHYSTOP/PGSIZE]` is read one entry past the end of the table, and incremented when the value read is at least 1 | `pa>=PHYSTOP`, as in kfree's check at line 68 | high; not executed | FramePool.IncrementStepAsWritten | FramePool.IncrementStep |

# Reference-counted physical page allocator

A Dafny model of `kernel/kalloc.c`, the physical page allocator of an xv6
kernel extended with copy-on-write fork. Physical memory from the end of the
kernel image (`end`) up to `PHYSTOP` is cut into 4096-byte pages. Free pages
sit on a LIFO free list, and each page has a 32-bit share count in
`kmem.refCount`, indexed by `addr2index`. `kalloc` pops a page and counts it.
`incref` adds a sharer. `decref` and `kfree` drop one, and the page goes back
on the free list when its count reaches 0.

The model has three modules:

- `PageLayout` (`layout.dfy`) holds the page size and the layout constants.
  `KERNBASE`, `PHYSTOP` and `end` are parameters, with their ordering stated
  in `Layout.Valid`. It also holds `PGROUNDUP`, `addr2index` (with its 32-bit
  cast written out), and the proof that managed pages get distinct,
  in-bounds slots.
- `RefCountSpec` (`refcount.dfy`) gives the allocator state as a value: the
  counts and the free list as a sequence of page slots. Each operation is a
  transition on that value. A panic is a `Fatal` result. Unsigned wrap-around
  is written out as arithmetic modulo 2^32. This module also holds the
  allocator's invariant and the lemmas about it: a managed page is on the
  free list exactly once when its count is 0, and not at all otherwise.
- `Allocator` (`kmem.dfy`) is the imperative `kmem` object. The counts are an
  `array` updated in place, and the free list is pushed and popped. Each
  method is proved equal to its `RefCountSpec` transition, and a panic
  leaves the state as it was when the check failed.

The code is lenient in three places, and the model follows it:

- When `kalloc` finds a page whose count is not 0, it prints a message and
  increments the count all the same. It does not fail, and it does not set
  the count to 1.
- `kfree` on a page whose count is 0 does not fail. The count wraps to
  2^32 - 1 and is forced back to 0, and the page is pushed again. When the
  page is already free, this double free breaks the invariant; see
  `RefCountSpec.Kfree` under "Left out" for what it does to the list.
- `getref` does no address check.

## Model

| member | source | states |
|---|---|---|
| `PageLayout.Layout.Addr2Index` | kernel/kalloc.c:26-28 | for a page-aligned address in `[end, PHYSTOP)` the slot is below `(PHYSTOP-KERNBASE)>>PGSHIFT` and maps back to that address |
| `PageLayout.Addr2IndexInjective` | kernel/kalloc.c:24-28 | every address kfree/incref/decref accept gets a managed, in-bounds slot, and distinct pages get distinct slots |
| `PageLayout.ManagedIffIndex` | kernel/kalloc.c:65-66 | an aligned address in `[KERNBASE, PHYSTOP)` passes the kfree address check iff its slot is at or above the slot of `PGROUNDUP(end)` |
| `PageLayout.SlotOfAligned` | kernel/kalloc.c:27 | on aligned addresses neither the round-up nor the 32-bit cast of addr2index changes the slot, which is at most the page count |
| `PageLayout.PgRoundUp` | kernel/kalloc.c:51 | PGROUNDUP gives a page-aligned address no smaller than its input and less than one page above it |
| `RefCountSpec.Dec32` | kernel/kalloc.c:79 | unsigned decrement of a count: one less, except that 0 wraps to 2^32 - 1 |
| `RefCountSpec.Inc32` | kernel/kalloc.c:135 | unsigned increment of a count: one more, except that 2^32 - 1 wraps to 0 |
| `RefCountSpec.Kfree` | kernel/kalloc.c:60-91 | panics iff the address is unaligned, below `end` or at/after `PHYSTOP`; with a count above 1 it decrements it and leaves the list; otherwise the count ends at 0 (also after the wrap from 0) and the page is pushed at the head; no other count changes |
| `RefCountSpec.Kalloc` | kernel/kalloc.c:96-125 | with an empty free list returns 0 and changes nothing; otherwise returns the old head's (nonzero, managed) address, leaves the old tail as the list, changes only that page's count and increments it with 32-bit wrap (0 becomes 1) |
| `RefCountSpec.Incref` | kernel/kalloc.c:127-143 | panics on a bad address; on a good one panics iff the count is 0 and otherwise succeeds, returning and storing the old count plus one (with 32-bit wrap), changing no other count and not the free list |
| `RefCountSpec.Decref` | kernel/kalloc.c:144-164 | panics on a bad address; on a good one panics iff the count is 0 and otherwise succeeds, returning the old count minus one; if that is 0 the page is at the head of the free list, else the list is unchanged; no other count changes |
| `RefCountSpec.Getref` | kernel/kalloc.c:165-172 | under the invariant, a managed page's count reads 0 exactly when the page is on the free list |
| `RefCountSpec.RefCountInit` | kernel/kalloc.c:29-36 | every slot holds 1 |
| `RefCountSpec.FreeRange` | kernel/kalloc.c:47-54 | kfree of each whole page from the start up to the end, in address order, never panics and keeps the state well formed |
| `RefCountSpec.FreeRangeFrom` | kernel/kalloc.c:51-53 | once the pages below slot k are freed, freerange over the rest leaves every managed slot at 0, every other slot at 1 and the free list holding each managed slot once, highest first |
| `RefCountSpec.KinitEstablishesInv` | kernel/kalloc.c:37-44 | after kinit every whole page from `PGROUNDUP(end)` to `PHYSTOP` has count 0 and is on the free list exactly once, every other slot has count 1, and the invariant holds |
| `RefCountSpec.KfreePreservesInv` | kernel/kalloc.c:74-88 | kfree of a page whose count is at least 1 keeps the invariant |
| `RefCountSpec.KfreeOfFreePageDuplicates` | kernel/kalloc.c:78-88 | kfree of a page whose count is already 0 (a double free) breaks the invariant; in the model's list this shows as the page being listed twice |
| `RefCountSpec.KallocPreservesInv` | kernel/kalloc.c:101-124 | kalloc keeps the invariant; the page it returns had count 0 and afterwards has count exactly 1 and is off the free list |
| `RefCountSpec.IncrefPreservesInv` | kernel/kalloc.c:134-139 | incref keeps the invariant when the count does not wrap |
| `RefCountSpec.DecrefPreservesInv` | kernel/kalloc.c:151-161 | decref keeps the invariant: a page that reaches 0 is put on the free list once |
| `RefCountSpec.AllocThenFree` | kernel/kalloc.c:74-88 | kalloc followed by kfree, or by decref (which returns 0), gives back exactly the state before |
| `RefCountSpec.ShareAndRelease` | kernel/kalloc.c:127-164 | a fresh page shared twice reaches count 3; three decrefs return 2, 1, 0; only the last frees the page, and the allocator ends where it started |
| `Allocator.Kmem.Kinit` | kernel/kalloc.c:37-44 | the constructed allocator is in the kinit state and satisfies the invariant |
| `Allocator.Kmem.RefCountInit` | kernel/kalloc.c:29-36 | the loop leaves every count at 1 and the free list unchanged |
| `Allocator.Kmem.FreeRange` | kernel/kalloc.c:47-54 | the loop of kfree calls ends in the state given by `RefCountSpec.FreeRange` |
| `Allocator.Kmem.Kfree` | kernel/kalloc.c:60-91 | the in-place update equals `RefCountSpec.Kfree`; a panic changes nothing; on a page with count at least 1 the invariant is kept |
| `Allocator.Kmem.Kalloc` | kernel/kalloc.c:96-125 | the pop and the count update equal `RefCountSpec.Kalloc`, address included; the invariant is kept |
| `Allocator.Kmem.Incref` | kernel/kalloc.c:127-143 | the in-place increment equals `RefCountSpec.Incref`; a panic changes nothing; the invariant is kept unless the count wraps |
| `Allocator.Kmem.Decref` | kernel/kalloc.c:144-164 | the decrement and the nested kfree equal `RefCountSpec.Decref`; a panic changes nothing; the invariant is kept |
| `Allocator.Kmem.Getref` | kernel/kalloc.c:165-172 | returns the stored count and changes nothing; on a valid allocator a managed page reads 0 exactly when it is free |

## Left out

- Spinlocks (`kmem.lock`, `cowlock`) and `initlock` are left out. Each call is modelled as one atomic step. The model therefore does not capture the races from the split critical sections in `kalloc` (pop under one lock, count under another) and in `decref` (the decrement and the nested `kfree` are separate). Concurrent callers are not modelled.
- The `memset` junk fills (1 on free, 5 on alloc) are left out. They write page contents, and the model has no page contents.
- A free page is not reinterpreted as a `struct run` node. The free list is a sequence of page slots, and `kalloc` turns the head slot back into its address.
- `printf` diagnostics are left out. `panic` becomes a `Fatal` result that leaves the state unchanged, because every panic check comes before any write.
- `KERNBASE`, `PHYSTOP` and `end` come from the memory-layout header and the linker. Here they are parameters.
- `PageLayout.Layout.Addr2Index` requires `pa >= KERNBASE`. The 64-bit wrap of the subtraction below `KERNBASE` is not modelled, and every caller except `getref` has already checked `pa >= end >= KERNBASE`.
- `RefCountSpec.Getref`: the C code does no range check, so a slot outside the array is an out-of-bounds read. The model requires the slot to be in bounds and does not say what happens outside them.
- `RefCountSpec.FreeRange` requires `PGROUNDUP(start) >= end` and `end <= PHYSTOP`. This replaces the panic that its first `kfree` would raise. Its only caller, `kinit`, passes `end` and `PHYSTOP`.
- `RefCountSpec.IncrefPreservesInv` requires the count to be below 2^32 - 1. The wrap itself is modelled: `Inc32` takes 2^32 - 1 to 0, which would leave a live page with count 0 that is not on the free list.
- `RefCountSpec.KfreePreservesInv` requires a count of at least 1. A double `kfree` of a free page is accepted by the code and breaks the invariant, as `RefCountSpec.KfreeOfFreePageDuplicates` states.
- `RefCountSpec.Kfree` and `RefCountSpec.KfreeOfFreePageDuplicates`: the free list as a sequence is exact only while the freed page is not already on the list. In the kernel the link is written into the freed page itself. A double free therefore makes the list cyclic, and the pages after the page's old position are no longer reachable. The model does not capture this. It shows the page listed twice, with the rest of the list intact.

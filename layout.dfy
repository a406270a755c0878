/**
 * Physical memory layout seen by the page allocator: the page size, the
 * managed range [KERNBASE, PHYSTOP), the first address after the kernel
 * image (`end`), and the address <-> refcount-slot arithmetic of addr2index.
 */
module PageLayout {

  const PGSIZE: nat := 4096
  const PGSHIFT: nat := 12

  /** 2^32: counts are C `uint`, 32 bits wide. */
  const UINT_MOD: nat := 0x1_0000_0000
  /** 2^64: addresses are `uint64`. */
  const UINT64_MOD: nat := 0x1_0000_0000_0000_0000

  /** A C `uint` value. */
  type uint = x: int | 0 <= x < UINT_MOD

  /** PGROUNDUP: the smallest multiple of PGSIZE that is at least `a`. */
  function PgRoundUp(a: nat): (r: nat)
    ensures r % PGSIZE == 0
    ensures a <= r < a + PGSIZE
  {
    ((a + PGSIZE - 1) / PGSIZE) * PGSIZE
  }

  /**
   * The machine's layout constants. In the kernel KERNBASE and PHYSTOP come
   * from the memory-layout header and `end` from the linker script; here they
   * are parameters whose ordering is stated by Valid().
   */
  datatype Layout = Layout(kernbase: nat, phystop: nat, end: nat)
  {
    predicate Valid()
    {
      0 < kernbase && kernbase % PGSIZE == 0 && phystop % PGSIZE == 0 &&
      kernbase <= end <= phystop && phystop < UINT64_MOD &&
      (phystop - kernbase) / PGSIZE < UINT_MOD
    }

    /** Length of the refCount array: (PHYSTOP - KERNBASE) >> PGSHIFT. */
    function NPages(): nat
    {
      if kernbase <= phystop then (phystop - kernbase) / PGSIZE else 0
    }

    /**
     * The address check shared by kfree, incref and decref: each panics
     * unless this holds.
     */
    predicate Managed(pa: int)
    {
      pa % PGSIZE == 0 && end <= pa < phystop
    }

    /** Address of the page in refcount slot `i`. */
    function PageAddr(i: nat): nat
    {
      kernbase + i * PGSIZE
    }

    /**
     * addr2index: the refcount slot of the page holding `pa`, with the final
     * cast to 32-bit `uint` written out. The 64-bit subtraction would wrap
     * below KERNBASE, so the model takes only addresses from KERNBASE on.
     */
    function Addr2Index(pa: nat): (r: nat)
      requires kernbase <= pa
      ensures Valid() && Managed(pa) ==> r < NPages() && PageAddr(r) == pa
    {
      ((PgRoundUp(pa) - kernbase) / PGSIZE) % UINT_MOD
    }

    /** Slot of the first page freerange hands to kfree: PGROUNDUP(end). */
    function FirstFree(): nat
      requires kernbase <= end
    {
      Addr2Index(PgRoundUp(end))
    }

    /** Slots of the pages the allocator manages: those kfree accepts. */
    predicate ManagedIndex(i: int)
      requires kernbase <= end
    {
      FirstFree() <= i < NPages()
    }
  }

  /**
   * Every refcount access is in bounds and addr2index tells pages apart:
   * a managed address maps to a managed slot, and two distinct managed
   * addresses map to two distinct slots.
   */
  lemma Addr2IndexInjective(L: Layout, pa: nat, pb: nat)
    requires L.Valid() && L.Managed(pa) && L.Managed(pb)
    ensures L.ManagedIndex(L.Addr2Index(pa)) && L.ManagedIndex(L.Addr2Index(pb))
    ensures pa != pb ==> L.Addr2Index(pa) != L.Addr2Index(pb)
  {
    ManagedIffIndex(L, pa);
    ManagedIffIndex(L, pb);
  }

  /** A page-aligned address in [KERNBASE, PHYSTOP) is managed iff its slot is. */
  lemma ManagedIffIndex(L: Layout, pa: nat)
    requires L.Valid() && L.kernbase <= pa < L.phystop && pa % PGSIZE == 0
    ensures L.Managed(pa) <==> L.ManagedIndex(L.Addr2Index(pa))
  {
    var up := PgRoundUp(L.end);
    assert up % PGSIZE == 0 && L.end <= up < L.end + PGSIZE;
    SlotOfAligned(L, up);
    SlotOfAligned(L, pa);
    DivMonotone(L.kernbase, up, pa);
    if L.end <= pa {
      assert up <= pa;
    }
  }

  /** On aligned addresses up to PHYSTOP neither the rounding nor the cast changes anything. */
  lemma SlotOfAligned(L: Layout, pa: nat)
    requires L.Valid() && L.kernbase <= pa <= L.phystop && pa % PGSIZE == 0
    ensures L.Addr2Index(pa) == (pa - L.kernbase) / PGSIZE <= L.NPages()
  {
    assert PgRoundUp(pa) == pa;
    DivMonotone(L.kernbase, pa, L.phystop);
  }

  /** For multiples of PGSIZE above a common base, slot order is address order. */
  lemma DivMonotone(base: nat, x: nat, y: nat)
    requires base % PGSIZE == 0 && x % PGSIZE == 0 && y % PGSIZE == 0
    requires base <= x && base <= y
    ensures (x - base) / PGSIZE <= (y - base) / PGSIZE <==> x <= y
  {
    var qx, qy := (x - base) / PGSIZE, (y - base) / PGSIZE;
    assert x - base == qx * PGSIZE;
    assert y - base == qy * PGSIZE;
  }

  /** PageAddr and Addr2Index are inverse on managed slots. */
  lemma PageAddrManaged(L: Layout, i: nat)
    requires L.Valid() && L.ManagedIndex(i)
    ensures L.Managed(L.PageAddr(i)) && L.Addr2Index(L.PageAddr(i)) == i
  {
    var pa := L.PageAddr(i);
    assert pa % PGSIZE == 0;
    assert pa < L.phystop by {
      assert L.phystop - L.kernbase == L.NPages() * PGSIZE;
    }
    SlotOfAligned(L, pa);
    ManagedIffIndex(L, pa);
  }
}

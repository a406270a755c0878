/**
 * The allocator as the kernel runs it: the `kmem` singleton with its
 * refcount array updated in place and its free list relinked by push and
 * pop. Every method is proved against the matching transition of
 * RefCountSpec, so the invariant and sequence lemmas proved there carry
 * over to these methods.
 */
module Allocator {
  import opened PageLayout
  import opened RefCountSpec

  class Kmem {
    const layout: Layout
    /** refCount[addr2index(pa)] is the share count of the page at pa. */
    var refCount: array<uint>
    /** Slots of the free pages, head first. */
    var freelist: seq<nat>

    /** The allocator's state as a value. */
    ghost function Abs(): State
      reads this, refCount
    {
      State(refCount[..], freelist)
    }

    ghost predicate WellFormed()
      reads this, refCount
    {
      RefCountSpec.WellFormed(layout, Abs())
    }

    /** The free-list / refcount invariant holds. */
    ghost predicate Valid()
      reads this, refCount
    {
      Inv(layout, Abs())
    }

    /**
     * kinit: refCountInit, then freerange(end, PHYSTOP). The array starts
     * zeroed and the list empty, as the static `kmem` does.
     */
    constructor Kinit(L: Layout)
      requires L.Valid()
      ensures layout == L && fresh(refCount)
      ensures Abs() == KinitState(L)
      ensures Valid()
    {
      layout := L;
      refCount := new uint[L.NPages()](_ => 0);
      freelist := [];
      new;
      RefCountInit();
      FreeRange(L.end, L.phystop);
      KinitEstablishesInv(L);
    }

    /** refCountInit: set every slot to 1, so that freerange's kfree takes each to 0. */
    method RefCountInit()
      requires WellFormed()
      modifies refCount
      ensures Abs() == RefCountSpec.RefCountInit(layout).(freelist := freelist)
      ensures WellFormed()
    {
      var i := 0;
      while i < layout.NPages()
        invariant 0 <= i <= refCount.Length
        invariant forall k :: 0 <= k < i ==> refCount[k] == 1
      {
        refCount[i] := 1;
        i := i + 1;
      }
    }

    /** freerange: kfree every whole page from PGROUNDUP(paStart) up to paEnd, in address order. */
    method FreeRange(paStart: nat, paEnd: nat)
      requires WellFormed() && layout.end <= PgRoundUp(paStart) && paEnd <= layout.phystop
      modifies this`freelist, refCount
      ensures WellFormed()
      ensures Abs() == RefCountSpec.FreeRange(layout, old(Abs()), PgRoundUp(paStart), paEnd)
    {
      var p := PgRoundUp(paStart);
      while p + PGSIZE <= paEnd
        invariant layout.end <= p && p % PGSIZE == 0
        invariant WellFormed()
        invariant RefCountSpec.FreeRange(layout, Abs(), p, paEnd)
               == RefCountSpec.FreeRange(layout, old(Abs()), PgRoundUp(paStart), paEnd)
        decreases paEnd - p
      {
        ghost var before := Abs();
        var _ := Kfree(p);
        assert Abs() == RefCountSpec.Kfree(layout, before, p).value;
        p := p + PGSIZE;
      }
    }

    /**
     * kfree: panics on an unaligned address or one outside [end, PHYSTOP).
     * A count above 1 is only decremented; otherwise the count is
     * decremented, forced to 0 if that wrapped, and the page is pushed on
     * the free list.
     */
    method Kfree(pa: nat) returns (r: Result<()>)
      requires WellFormed()
      modifies this`freelist, refCount
      ensures WellFormed()
      ensures old(Valid()) && layout.Managed(pa) && old(refCount[layout.Addr2Index(pa)]) >= 1 ==> Valid()
      ensures var spec := RefCountSpec.Kfree(layout, old(Abs()), pa);
        (spec.Fatal? ==> r == Fatal(spec.fault) && Abs() == old(Abs())) &&
        (spec.Ok? ==> r == Ok(()) && Abs() == spec.value)
    {
      if pa % PGSIZE != 0 || pa < layout.end || pa >= layout.phystop {
        return Fatal(BadAddress);
      }
      Addr2IndexInjective(layout, pa, pa);
      var i := layout.Addr2Index(pa);
      if refCount[i] > 1 {
        refCount[i] := refCount[i] - 1;
      } else {
        refCount[i] := (refCount[i] - 1) % UINT_MOD;
        if refCount[i] != 0 {
          refCount[i] := 0;
        }
        freelist := [i] + freelist;
      }
      r := Ok(());
      if old(Valid()) && old(refCount[i]) >= 1 {
        KfreePreservesInv(layout, old(Abs()), pa);
      }
    }

    /**
     * kalloc: pop the head of the free list and increment its count; return
     * its address, or 0 when the list is empty.
     */
    method Kalloc() returns (pa: nat)
      requires WellFormed()
      modifies this`freelist, refCount
      ensures WellFormed()
      ensures (Abs(), pa) == RefCountSpec.Kalloc(layout, old(Abs()))
      ensures old(Valid()) ==> Valid()
    {
      if freelist == [] {
        return 0;
      }
      var i := freelist[0];
      freelist := freelist[1..];
      if refCount[i] == 0 {
        refCount[i] := refCount[i] + 1;
      } else {
        // an allocated page that was not free: counted all the same
        refCount[i] := (refCount[i] + 1) % UINT_MOD;
      }
      PageAddrManaged(layout, i);
      pa := layout.PageAddr(i);
      if old(Valid()) {
        KallocPreservesInv(layout, old(Abs()));
      }
    }

    /** incref: panics on a bad address or a zero count; returns the new count. */
    method Incref(pa: nat) returns (r: Result<uint>)
      requires WellFormed()
      modifies refCount
      ensures WellFormed()
      ensures old(Valid()) && layout.Managed(pa) && old(refCount[layout.Addr2Index(pa)]) < UINT_MOD - 1 ==> Valid()
      ensures match RefCountSpec.Incref(layout, old(Abs()), pa)
        case Ok((t, n)) => r == Ok(n) && Abs() == t
        case Fatal(f) => r == Fatal(f) && Abs() == old(Abs())
    {
      if pa % PGSIZE != 0 || pa < layout.end || pa >= layout.phystop {
        return Fatal(BadAddress);
      }
      Addr2IndexInjective(layout, pa, pa);
      var i := layout.Addr2Index(pa);
      if refCount[i] == 0 {
        return Fatal(ZeroCount);
      }
      refCount[i] := (refCount[i] + 1) % UINT_MOD;
      r := Ok(refCount[i]);
      if old(Valid()) && old(refCount[i]) < UINT_MOD - 1 {
        IncrefPreservesInv(layout, old(Abs()), pa);
      }
    }

    /**
     * decref: panics on a bad address or a zero count; decrements the count
     * and frees the page when it reaches 0; returns the new count.
     */
    method Decref(pa: nat) returns (r: Result<uint>)
      requires WellFormed()
      modifies this`freelist, refCount
      ensures WellFormed()
      ensures old(Valid()) ==> Valid()
      ensures match RefCountSpec.Decref(layout, old(Abs()), pa)
        case Ok((t, n)) => r == Ok(n) && Abs() == t
        case Fatal(f) => r == Fatal(f) && Abs() == old(Abs())
    {
      if pa % PGSIZE != 0 || pa < layout.end || pa >= layout.phystop {
        return Fatal(BadAddress);
      }
      Addr2IndexInjective(layout, pa, pa);
      var i := layout.Addr2Index(pa);
      if refCount[i] == 0 {
        return Fatal(ZeroCount);
      }
      refCount[i] := refCount[i] - 1;
      var count := refCount[i];
      if count == 0 {
        var _ := Kfree(PgRoundUp(pa));
      }
      r := Ok(count);
      if old(Valid()) {
        DecrefPreservesInv(layout, old(Abs()), pa);
      }
    }

    /**
     * getref: read the page's count. On a valid allocator a managed page
     * reads 0 exactly when it is on the free list.
     */
    method Getref(pa: nat) returns (count: uint)
      requires WellFormed() && layout.kernbase <= pa && layout.Addr2Index(pa) < refCount.Length
      ensures count == RefCountSpec.Getref(layout, Abs(), pa)
      ensures Valid() && layout.Managed(pa) ==> (count == 0 <==> layout.Addr2Index(pa) in freelist)
    {
      count := refCount[layout.Addr2Index(pa)];
    }
  }
}

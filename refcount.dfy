/**
 * The allocator's state as a value, and each operation of kernel/kalloc.c as
 * a transition on it. This is the specification the imperative Kmem class is
 * proved against; the lemmas here state what the operations promise: the
 * free-list / refcount invariant, the effect of each call, and the
 * allocate/share/release sequences the copy-on-write fork relies on.
 */
module RefCountSpec {
  import opened PageLayout

  /** Why the kernel panics. */
  datatype Fault = BadAddress | ZeroCount

  /** A call either returns or halts the kernel with a panic. */
  datatype Result<T> = Ok(value: T) | Fatal(fault: Fault)

  /**
   * kmem: one 32-bit count per page slot, and the free list, head first,
   * holding the slot of each free page.
   */
  datatype State = State(refCount: seq<uint>, freelist: seq<nat>)

  /** Unsigned `c - 1` on a 32-bit count. */
  function Dec32(c: uint): (r: uint)
    ensures c > 0 ==> r == c - 1
    ensures c == 0 ==> r == UINT_MOD - 1
  {
    (c - 1) % UINT_MOD
  }

  /** Unsigned `c + 1` on a 32-bit count. */
  function Inc32(c: uint): (r: uint)
    ensures c < UINT_MOD - 1 ==> r == c + 1
    ensures c == UINT_MOD - 1 ==> r == 0
  {
    (c + 1) % UINT_MOD
  }

  /** Shape facts every reachable state has: one count per slot, only managed pages free. */
  ghost predicate WellFormed(L: Layout, s: State)
  {
    L.Valid() && |s.refCount| == L.NPages() &&
    forall k :: 0 <= k < |s.freelist| ==> L.ManagedIndex(s.freelist[k])
  }

  /**
   * The allocator's invariant: a managed page is on the free list exactly
   * once when its count is 0, and not at all otherwise.
   */
  ghost predicate Inv(L: Layout, s: State)
  {
    WellFormed(L, s) &&
    forall i :: L.ManagedIndex(i) ==>
      multiset(s.freelist)[i] == if s.refCount[i] == 0 then 1 else 0
  }

  /**
   * kfree: panics on a bad address; above 1 it only decrements the count;
   * otherwise it decrements (wrapping 0 round to 2^32 - 1), forces a nonzero
   * result back to 0 and pushes the page on the free list.
   */
  function Kfree(L: Layout, s: State, pa: nat): (r: Result<State>)
    requires WellFormed(L, s)
    ensures r.Ok? <==> L.Managed(pa)
    ensures r.Ok? ==>
      var i := L.Addr2Index(pa);
      var c := s.refCount[i];
      WellFormed(L, r.value) && L.ManagedIndex(i) &&
      (forall j :: 0 <= j < |s.refCount| && j != i ==> r.value.refCount[j] == s.refCount[j]) &&
      if c > 1 then r.value.refCount[i] == c - 1 && r.value.freelist == s.freelist
      else r.value.refCount[i] == 0 && r.value.freelist == [i] + s.freelist
  {
    if !L.Managed(pa) then Fatal(BadAddress)
    else
      Addr2IndexInjective(L, pa, pa);
      var i := L.Addr2Index(pa);
      var c := s.refCount[i];
      if c > 1 then Ok(State(s.refCount[i := Dec32(c)], s.freelist))
      else
        var d := Dec32(c);
        var z := if d != 0 then 0 else d;
        Ok(State(s.refCount[i := z], [i] + s.freelist))
  }

  /**
   * kalloc: pops the head of the free list and increments its count (a
   * count that was not 0 is incremented all the same); returns the page's
   * address, or 0 when the list is empty.
   */
  function Kalloc(L: Layout, s: State): (r: (State, nat))
    requires WellFormed(L, s)
    ensures WellFormed(L, r.0)
    ensures s.freelist == [] ==> r == (s, 0)
    ensures s.freelist != [] ==>
      var i := s.freelist[0];
      var c := s.refCount[i];
      r.1 != 0 && L.Managed(r.1) && L.Addr2Index(r.1) == i &&
      r.0.freelist == s.freelist[1..] &&
      |r.0.refCount| == |s.refCount| &&
      (forall j :: 0 <= j < |s.refCount| && j != i ==> r.0.refCount[j] == s.refCount[j]) &&
      r.0.refCount[i] == Inc32(c) && (c < UINT_MOD - 1 ==> r.0.refCount[i] == c + 1)
  {
    if s.freelist == [] then (s, 0)
    else
      var i := s.freelist[0];
      PageAddrManaged(L, i);
      (State(s.refCount[i := Inc32(s.refCount[i])], s.freelist[1..]), L.PageAddr(i))
  }

  /** incref: panics on a bad address or a zero count; otherwise returns the incremented count. */
  function Incref(L: Layout, s: State, pa: nat): (r: Result<(State, uint)>)
    requires WellFormed(L, s)
    ensures !L.Managed(pa) ==> r == Fatal(BadAddress)
    ensures L.Managed(pa) ==>
      var i := L.Addr2Index(pa);
      var c := s.refCount[i];
      L.ManagedIndex(i) &&
      if c == 0 then r == Fatal(ZeroCount)
      else
        r.Ok? &&
        var (t, n) := r.value;
        WellFormed(L, t) && t.freelist == s.freelist && t.refCount[i] == n &&
        n == Inc32(c) && (c < UINT_MOD - 1 ==> n == c + 1) &&
        forall j :: 0 <= j < |s.refCount| && j != i ==> t.refCount[j] == s.refCount[j]
  {
    if !L.Managed(pa) then Fatal(BadAddress)
    else
      Addr2IndexInjective(L, pa, pa);
      var i := L.Addr2Index(pa);
      if s.refCount[i] == 0 then Fatal(ZeroCount)
      else
        var n := Inc32(s.refCount[i]);
        Ok((State(s.refCount[i := n], s.freelist), n))
  }

  /**
   * decref: panics on a bad address or a zero count; otherwise decrements
   * the count and, when it reaches 0, hands the page to kfree.
   */
  function Decref(L: Layout, s: State, pa: nat): (r: Result<(State, uint)>)
    requires WellFormed(L, s)
    ensures !L.Managed(pa) ==> r == Fatal(BadAddress)
    ensures L.Managed(pa) ==>
      var i := L.Addr2Index(pa);
      var c := s.refCount[i];
      L.ManagedIndex(i) &&
      if c == 0 then r == Fatal(ZeroCount)
      else
        r.Ok? &&
        var (t, n) := r.value;
        WellFormed(L, t) && n == c - 1 && t.refCount[i] == n &&
        (n == 0 ==> t.freelist == [i] + s.freelist) &&
        (n != 0 ==> t.freelist == s.freelist) &&
        forall j :: 0 <= j < |s.refCount| && j != i ==> t.refCount[j] == s.refCount[j]
  {
    if !L.Managed(pa) then Fatal(BadAddress)
    else
      Addr2IndexInjective(L, pa, pa);
      var i := L.Addr2Index(pa);
      if s.refCount[i] == 0 then Fatal(ZeroCount)
      else
        var n := Dec32(s.refCount[i]);
        var t := State(s.refCount[i := n], s.freelist);
        if n == 0 then
          assert PgRoundUp(pa) == pa;
          Ok((Kfree(L, t, PgRoundUp(pa)).value, n))
        else Ok((t, n))
  }

  /**
   * getref: the page's count. There is no address check; the slot must be
   * inside the array. On a valid state the answer is 0 exactly for the
   * managed pages that are on the free list.
   */
  function Getref(L: Layout, s: State, pa: nat): (r: uint)
    requires WellFormed(L, s) && L.kernbase <= pa && L.Addr2Index(pa) < |s.refCount|
    ensures Inv(L, s) && L.Managed(pa) ==> (r == 0 <==> L.Addr2Index(pa) in s.freelist)
  {
    if L.Managed(pa) then
      Addr2IndexInjective(L, pa, pa);
      s.refCount[L.Addr2Index(pa)]
    else s.refCount[L.Addr2Index(pa)]
  }

  /** refCountInit: every slot set to 1, on a still-empty free list. */
  function RefCountInit(L: Layout): (s: State)
    requires L.Valid()
    ensures WellFormed(L, s)
    ensures forall i :: 0 <= i < L.NPages() ==> s.refCount[i] == 1
  {
    State(seq(L.NPages(), _ => 1), [])
  }

  /** freerange: kfree each whole page from `p` up to `e`, in address order. */
  function FreeRange(L: Layout, s: State, p: nat, e: nat): (r: State)
    requires WellFormed(L, s) && L.end <= p && p % PGSIZE == 0 && e <= L.phystop
    ensures WellFormed(L, r)
    decreases e - p
  {
    if p + PGSIZE <= e then FreeRange(L, Kfree(L, s, p).value, p + PGSIZE, e)
    else s
  }

  /** kinit: refCountInit, then freerange(end, PHYSTOP). */
  function KinitState(L: Layout): State
    requires L.Valid()
  {
    FreeRange(L, RefCountInit(L), PgRoundUp(L.end), L.phystop)
  }

  // ---------------------------------------------------------------------------
  // kinit

  /** The slots hi-1, hi-2, ..., lo: the free list after freeing lo .. hi-1 in order. */
  function Desc(lo: nat, hi: nat): seq<nat>
    decreases hi
  {
    if hi <= lo then [] else [hi - 1] + Desc(lo, hi - 1)
  }

  lemma {:induction false} DescContents(lo: nat, hi: nat)
    ensures forall k :: 0 <= k < |Desc(lo, hi)| ==> lo <= Desc(lo, hi)[k] < hi
    ensures forall i :: multiset(Desc(lo, hi))[i] == if lo <= i < hi then 1 else 0
    decreases hi
  {
    if hi > lo {
      DescContents(lo, hi - 1);
    }
  }

  /** Counts once slots FirstFree() .. k-1 have been freed: 0 there, 1 elsewhere. */
  function InitCounts(L: Layout, k: nat): seq<uint>
    requires L.Valid()
  {
    seq(L.NPages(), i => if L.FirstFree() <= i < k then 0 else 1)
  }

  lemma RoundUpEndBelowPhystop(L: Layout)
    requires L.Valid()
    ensures PgRoundUp(L.end) <= L.phystop
    ensures PgRoundUp(L.end) == L.PageAddr(L.FirstFree())
    ensures L.FirstFree() <= L.NPages()
  {
    SlotOfAligned(L, PgRoundUp(L.end));
  }

  /** freerange from slot k on, after slots FirstFree() .. k-1 are already free. */
  lemma {:induction false} FreeRangeFrom(L: Layout, k: nat)
    requires L.Valid() && L.FirstFree() <= k <= L.NPages()
    ensures
      var s := State(InitCounts(L, k), Desc(L.FirstFree(), k));
      WellFormed(L, s) && L.end <= L.PageAddr(k) &&
      FreeRange(L, s, L.PageAddr(k), L.phystop) ==
        State(InitCounts(L, L.NPages()), Desc(L.FirstFree(), L.NPages()))
    decreases L.NPages() - k
  {
    var lo := L.FirstFree();
    var s := State(InitCounts(L, k), Desc(lo, k));
    DescContents(lo, k);
    RoundUpEndBelowPhystop(L);
    assert L.PageAddr(k) - L.PageAddr(lo) == (k - lo) * PGSIZE;
    assert WellFormed(L, s);
    if k < L.NPages() {
      PageAddrManaged(L, k);
      var t := Kfree(L, s, L.PageAddr(k)).value;
      assert t.freelist == Desc(lo, k + 1);
      assert t.refCount == InitCounts(L, k + 1);
      assert L.PageAddr(k) + PGSIZE == L.PageAddr(k + 1);
      FreeRangeFrom(L, k + 1);
    } else {
      assert L.PageAddr(k) == L.phystop by {
        assert L.phystop - L.kernbase == L.NPages() * PGSIZE;
      }
    }
  }

  /**
   * After kinit every managed page has count 0 and is on the free list
   * exactly once (highest address at the head), every other slot holds 1,
   * and the invariant holds.
   */
  lemma KinitEstablishesInv(L: Layout)
    requires L.Valid()
    ensures var s := KinitState(L);
      Inv(L, s) &&
      (forall i :: L.ManagedIndex(i) ==> s.refCount[i] == 0 && multiset(s.freelist)[i] == 1) &&
      (forall i :: 0 <= i < L.NPages() && !L.ManagedIndex(i) ==> s.refCount[i] == 1) &&
      s.freelist == Desc(L.FirstFree(), L.NPages())
  {
    var lo := L.FirstFree();
    RoundUpEndBelowPhystop(L);
    assert RefCountInit(L) == State(InitCounts(L, lo), Desc(lo, lo));
    FreeRangeFrom(L, lo);
    DescContents(lo, L.NPages());
  }

  // ---------------------------------------------------------------------------
  // Preservation of the invariant

  lemma MultisetTail(fl: seq<nat>)
    requires fl != []
    ensures forall j :: multiset(fl[1..])[j] == multiset(fl)[j] - (if j == fl[0] then 1 else 0)
  {
    assert fl == [fl[0]] + fl[1..];
  }

  /** kfree on a page that is in use (count at least 1) keeps the invariant. */
  lemma KfreePreservesInv(L: Layout, s: State, pa: nat)
    requires Inv(L, s) && L.Managed(pa)
    requires s.refCount[L.Addr2Index(pa)] >= 1
    ensures Inv(L, Kfree(L, s, pa).value)
  {
    var t := Kfree(L, s, pa).value;
    var i := L.Addr2Index(pa);
    forall j | L.ManagedIndex(j)
      ensures multiset(t.freelist)[j] == if t.refCount[j] == 0 then 1 else 0
    {
      if j != i {
        assert t.refCount[j] == s.refCount[j];
      }
    }
  }

  /**
   * kfree on a page that is already free (a double free) breaks the
   * invariant, which is why KfreePreservesInv excludes it. In this model of
   * the list the page shows up twice; see the README for what the linked
   * list in the kernel does instead.
   */
  lemma KfreeOfFreePageDuplicates(L: Layout, s: State, pa: nat)
    requires Inv(L, s) && L.Managed(pa)
    requires s.refCount[L.Addr2Index(pa)] == 0
    ensures multiset(Kfree(L, s, pa).value.freelist)[L.Addr2Index(pa)] == 2
    ensures !Inv(L, Kfree(L, s, pa).value)
  {
    var i := L.Addr2Index(pa);
    assert L.ManagedIndex(i);
    assert multiset(s.freelist)[i] == 1;
  }

  /**
   * kalloc keeps the invariant. The page it returns was free (count 0), and
   * afterwards has count exactly 1 and is no longer on the free list.
   */
  lemma KallocPreservesInv(L: Layout, s: State)
    requires Inv(L, s)
    ensures var (t, pa) := Kalloc(L, s);
      Inv(L, t) &&
      (pa != 0 ==>
        var i := L.Addr2Index(pa);
        s.refCount[i] == 0 && t.refCount[i] == 1 && i !in t.freelist)
  {
    var (t, pa) := Kalloc(L, s);
    if s.freelist != [] {
      var i := s.freelist[0];
      assert L.ManagedIndex(i);
      assert s.refCount[i] == 0 by {
        assert i in multiset(s.freelist);
      }
      MultisetTail(s.freelist);
      forall j | L.ManagedIndex(j)
        ensures multiset(t.freelist)[j] == if t.refCount[j] == 0 then 1 else 0
      {
        if j != i {
          assert t.refCount[j] == s.refCount[j];
        }
      }
      assert multiset(t.freelist)[i] == 0;
    }
  }

  /** incref keeps the invariant, as long as the count does not wrap round to 0. */
  lemma IncrefPreservesInv(L: Layout, s: State, pa: nat)
    requires Inv(L, s) && L.Managed(pa) && Incref(L, s, pa).Ok?
    requires s.refCount[L.Addr2Index(pa)] < UINT_MOD - 1
    ensures Inv(L, Incref(L, s, pa).value.0)
  {
    var t := Incref(L, s, pa).value.0;
    var i := L.Addr2Index(pa);
    forall j | L.ManagedIndex(j)
      ensures multiset(t.freelist)[j] == if t.refCount[j] == 0 then 1 else 0
    {
      if j != i {
        assert t.refCount[j] == s.refCount[j];
      }
    }
  }

  /** decref keeps the invariant: a page whose count reaches 0 is freed once. */
  lemma DecrefPreservesInv(L: Layout, s: State, pa: nat)
    requires Inv(L, s) && Decref(L, s, pa).Ok?
    ensures Inv(L, Decref(L, s, pa).value.0)
  {
    var t := Decref(L, s, pa).value.0;
    var i := L.Addr2Index(pa);
    assert multiset(s.freelist)[i] == 0;
    forall j | L.ManagedIndex(j)
      ensures multiset(t.freelist)[j] == if t.refCount[j] == 0 then 1 else 0
    {
      if j != i {
        assert t.refCount[j] == s.refCount[j];
      }
    }
  }

  // ---------------------------------------------------------------------------
  // Sequences of calls

  /**
   * Allocating a page and releasing it again, by kfree or by decref, gives
   * back exactly the state before: count 0 and the page at the head of the
   * free list, ready for the next kalloc.
   */
  lemma AllocThenFree(L: Layout, s: State)
    requires Inv(L, s) && s.freelist != []
    ensures var (t, pa) := Kalloc(L, s);
      Kfree(L, t, pa) == Ok(s) && Decref(L, t, pa) == Ok((s, 0))
  {
    var (t, pa) := Kalloc(L, s);
    KallocPreservesInv(L, s);
    var i := s.freelist[0];
    assert s.freelist == [i] + s.freelist[1..];
    assert Kfree(L, t, pa).value.refCount == s.refCount;
    assert Decref(L, t, pa).value.0.refCount == s.refCount;
  }

  /**
   * Copy-on-write sharing: a freshly allocated page shared twice reaches
   * count 3; three releases give 2, 1 and 0, only the last puts the page
   * back on the free list, and the allocator is back where it started.
   */
  lemma ShareAndRelease(L: Layout, s: State)
    requires Inv(L, s) && s.freelist != []
    ensures var (s1, pa) := Kalloc(L, s);
      var i := L.Addr2Index(pa);
      s1.refCount[i] == 1 &&
      Incref(L, s1, pa).Ok? && Incref(L, s1, pa).value.1 == 2 &&
      var s2 := Incref(L, s1, pa).value.0;
      Incref(L, s2, pa).Ok? && Incref(L, s2, pa).value.1 == 3 &&
      var s3 := Incref(L, s2, pa).value.0;
      Decref(L, s3, pa).Ok? && Decref(L, s3, pa).value.1 == 2 &&
      var s4 := Decref(L, s3, pa).value.0;
      Decref(L, s4, pa).Ok? && Decref(L, s4, pa).value.1 == 1 &&
      var s5 := Decref(L, s4, pa).value.0;
      i !in s5.freelist &&
      Decref(L, s5, pa) == Ok((s, 0))
  {
    var (s1, pa) := Kalloc(L, s);
    KallocPreservesInv(L, s);
    var i := L.Addr2Index(pa);
    var s2 := Incref(L, s1, pa).value.0;
    var s3 := Incref(L, s2, pa).value.0;
    var s4 := Decref(L, s3, pa).value.0;
    var s5 := Decref(L, s4, pa).value.0;
    assert s5.freelist == s1.freelist;
    assert s5.refCount == s1.refCount;
    assert s5 == s1;
    AllocThenFree(L, s);
  }
}

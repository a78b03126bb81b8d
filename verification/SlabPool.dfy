/**
 * slab_alloc and slab_free over the tiers they update in place (kernel/kmalloc.c). The
 * linked list of a tier's pages is a sequence, newest page first.
 */
module SlabPool {
  import opened Slab
  import HeapList
  import Heap
  import PageBits

  /** The pointer lies in no slab page, or in an object that is allocated. */
  predicate FreesLive(tiers: seq<seq<Page>>, ptr: nat)
    requires AllShaped(tiers)
  {
    var c := FindTier(tiers, ptr);
    c < TIERS ==>
      var p := tiers[c][FindIn(tiers[c], c, ptr)];
      RangeInPage(p, c, ptr);
      p.bits[SlotOf(p, c, ptr)]
  }

  class Pool {
    const heap: HeapList.KernelHeap
    var tiers: seq<seq<Page>>

    ghost function State(): Slabs
      reads this, heap, heap.pmm
    {
      Slabs(tiers, heap.State())
    }

    ghost predicate Valid()
      reads this, heap, heap.pmm, heap.pmm.bitmap
    {
      heap.Valid() && Inv(State())
    }

    constructor (heap: HeapList.KernelHeap)
      requires heap.Valid()
      ensures this.heap == heap
      ensures Valid() && State() == Slabs([[], [], [], [], []], heap.State())
    {
      this.heap := heap;
      tiers := [[], [], [], [], []];
    }

    method FindTierFor(size: nat) returns (c: nat)
      ensures c == TierFor(size)
    {
      c := 0;
      while c < TIERS && Size(c) < size
        invariant c <= TIERS && TierFor(size) == TierFor(size, c)
      {
        c := c + 1;
      }
    }

    method FindRoom(c: nat) returns (i: nat)
      requires Valid() && c < TIERS
      ensures i == FirstRoom(tiers[c], c)
    {
      i := 0;
      while i < |tiers[c]| && tiers[c][i].used >= Total(c)
        invariant i <= |tiers[c]| && FirstRoom(tiers[c], c) == FirstRoom(tiers[c], c, i)
      {
        i := i + 1;
      }
    }

    /** slab_new_page: a blank page at the head of the tier. */
    method NewPage(c: nat) returns (ok: bool)
      requires Valid() && c < TIERS
      modifies this, heap.pmm`used, heap.pmm`Bits, heap.pmm.bitmap
      ensures Valid()
      ensures var f := PageBits.FirstFree(old(heap.pmm.Bits));
              && ok == (f < |old(heap.pmm.Bits)|)
              && (!ok ==> State() == old(State()))
              && (ok ==> State() == Slabs(PushPage(old(tiers), c, Blank(f)),
                                          old(heap.State()).(bits := old(heap.pmm.Bits)[f := true])))
    {
      ghost var s, f := State(), PageBits.FirstFree(heap.pmm.Bits);
      ghost var bits := heap.pmm.Bits;
      if f < |bits| {
        assert f > 0;
        BlankOk(f, c);
        PushKeeps(s, c, Blank(f), f);
      }
      var addr := heap.pmm.AllocPage();
      if addr == 0 {
        assert f == |bits|;
        return false;
      }
      assert addr / PAGE == f;
      tiers := tiers[c := [Blank(addr / PAGE)] + tiers[c]];
      return true;
    }

    /** Lowest clear bit of the page's word, below its object count. */
    method FindBit(p: Page, c: nat) returns (b: nat)
      requires c < TIERS && Shaped(p)
      ensures b == FirstClear(p.bits, Total(c))
    {
      b := 0;
      while b < SLOTS && b < Total(c) && p.bits[b]
        invariant b <= Total(c) && FirstClear(p.bits, Total(c)) == FirstClear(p.bits, Total(c), b)
      {
        b := b + 1;
      }
    }

    /** An allocation from one page of a tier that has room. */
    method AllocFrom(c: nat, i: nat) returns (ptr: nat)
      requires Valid() && c < TIERS && i < |tiers[c]| && tiers[c][i].used < Total(c)
      modifies this`tiers
      ensures var p := old(tiers)[c][i];
              && Shaped(p) && FirstClear(p.bits, Total(c)) < Total(c)
              && tiers == Put(old(tiers), c, i, Occupy(p, FirstClear(p.bits, Total(c))))
              && ptr == Addr(Object(c, p.page, FirstClear(p.bits, Total(c))))
    {
      assert Has(tiers, c, i) && PageOk(At(tiers, c, i), c);
      var p := tiers[c][i];
      RoomHasSlot(p, c);
      var b := FindBit(p, c);
      tiers := tiers[c := tiers[c][i := Page(p.page, p.used + 1, p.bits[b := true])]];
      ptr := p.page * PAGE + HEADER + b * Size(c);
    }

    method Alloc(size: nat) returns (ptr: int)
      requires Valid() && size < Heap.WORD
      modifies this, heap, heap.pmm`used, heap.pmm`Bits, heap.pmm.bitmap
      ensures Valid() <==> Unobstructed(old(State()), size)
      ensures State() == AfterAlloc(old(State()), size)
      ensures ptr == AllocResult(old(State()), size)
    {
      AllocKeeps(State(), size);
      var c := FindTierFor(size);
      if c == TIERS {
        ptr := heap.Malloc(size);
        return;
      }
      var i := FindRoom(c);
      if i == |tiers[c]| {
        ptr := AllocNew(c);
      } else {
        ptr := AllocFrom(c, i);
      }
    }

    method AllocNew(c: nat) returns (ptr: nat)
      requires Valid() && c < TIERS
      modifies this, heap.pmm`used, heap.pmm`Bits, heap.pmm.bitmap
      ensures heap.Valid()
      ensures var f := PageBits.FirstFree(old(heap.pmm.Bits));
              && (f == |old(heap.pmm.Bits)| ==> ptr == 0 && State() == old(State()))
              && (f < |old(heap.pmm.Bits)| ==>
                    && ptr == Addr(Object(c, f, 0))
                    && State() == Slabs(PushPage(old(tiers), c, Occupy(Blank(f), 0)),
                                        old(heap.State()).(bits := old(heap.pmm.Bits)[f := true])))
    {
      var ok := NewPage(c);
      if !ok {
        return 0;
      }
      ghost var t, f := old(tiers), PageBits.FirstFree(old(heap.pmm.Bits));
      BlankOk(f, c);
      ptr := AllocFrom(c, 0);
      PutHead(t, c, Blank(f), Occupy(Blank(f), 0));
    }

    /** slab_free, for any pointer that does not fall through to the heap with a forged header: the allocator
        stays in order exactly when what is freed was allocated. */
    method Free(ptr: nat)
      requires Valid()
      requires AllShaped(tiers) && ptr != 0 && FindTier(tiers, ptr) == TIERS ==> heap.MayFree(ptr)
      modifies this, heap
      ensures AllShaped(old(tiers))
      ensures State() == if ptr == 0 then old(State()) else AfterFree(old(State()), ptr)
      ensures Valid() <==> ptr == 0 || FreesLive(old(tiers), ptr)
    {
      PagesShaped(tiers);
      if ptr != 0 {
        FreeFound(ptr);
      }
    }

    method FreeFound(ptr: nat)
      requires Valid() && ptr != 0 && AllShaped(tiers)
      requires FindTier(tiers, ptr) == TIERS ==> heap.MayFree(ptr)
      modifies this, heap
      ensures State() == AfterFree(old(State()), ptr)
      ensures Valid() <==> FreesLive(old(tiers), ptr)
    {
      var c, i := Locate(ptr);
      if c < TIERS {
        FreeSlot(c, i, ptr);
      } else {
        FreeInHeap(ptr);
      }
    }

    method FreeInHeap(ptr: nat)
      requires Valid() && AllShaped(tiers) && FindTier(tiers, ptr) == TIERS
      requires ptr != 0 && heap.MayFree(ptr)
      modifies heap
      ensures Valid() && State() == AfterFree(old(State()), ptr)
    {
      HeapFreeKeeps(State(), ptr);
      heap.Free(ptr);
    }

    method Locate(ptr: nat) returns (c: nat, i: nat)
      requires Valid()
      ensures c == FindTier(tiers, ptr)
      ensures c < TIERS ==> i == FindIn(tiers[c], c, ptr)
    {
      c, i := 0, 0;
      while c < TIERS
        invariant c <= TIERS && FindTier(tiers, ptr) == FindTier(tiers, ptr, c)
      {
        i := FindPage(c, ptr);
        if i < |tiers[c]| {
          return;
        }
        c := c + 1;
      }
    }

    method FindPage(c: nat, ptr: nat) returns (i: nat)
      requires Valid() && c < TIERS
      ensures i == FindIn(tiers[c], c, ptr)
    {
      i := 0;
      while i < |tiers[c]| && !InRange(tiers[c][i], c, ptr)
        invariant i <= |tiers[c]| && FindIn(tiers[c], c, ptr) == FindIn(tiers[c], c, ptr, i)
      {
        i := i + 1;
      }
    }

    method FreeSlot(c: nat, i: nat, ptr: nat)
      requires Valid() && AllShaped(tiers)
      requires FindTier(tiers, ptr) == c < TIERS && i == FindIn(tiers[c], c, ptr)
      modifies this`tiers
      ensures State() == AfterFree(old(State()), ptr)
      ensures Valid() <==> FreesLive(old(tiers), ptr)
    {
      SlotFacts(State(), c, i, ptr);
      var p := tiers[c][i];
      var idx := (ptr - (p.page * PAGE + HEADER)) / Size(c);
      tiers := tiers[c := tiers[c][i := Vacate(p, idx)]];
    }
  }

  lemma SlotFacts(s: Slabs, c: nat, i: nat, ptr: nat)
    requires Inv(s) && AllShaped(s.tiers)
    requires FindTier(s.tiers, ptr) == c < TIERS && i == FindIn(s.tiers[c], c, ptr)
    ensures Inv(AfterFree(s, ptr)) <==> FreesLive(s.tiers, ptr)
    ensures var p := s.tiers[c][i];
            && InRange(p, c, ptr) && SlotOf(p, c, ptr) < SLOTS && Shaped(p)
            && AfterFree(s, ptr) == s.(tiers := s.tiers[c := s.tiers[c][i := Vacate(p, SlotOf(p, c, ptr))]])
  {
    var p := s.tiers[c][i];
    RangeInPage(p, c, ptr);
    var k := SlotOf(p, c, ptr);
    assert Has(s.tiers, c, i) && PageOk(At(s.tiers, c, i), c);
    VacateOk(p, c, k);
    var q := Vacate(p, k);
    var t := Put(s.tiers, c, i, q);
    if p.bits[k] {
      PutKeeps(s, c, i, q);
    } else {
      assert Has(t, c, i) && At(t, c, i) == q;
    }
  }

  lemma PutHead(tiers: seq<seq<Page>>, c: nat, p: Page, q: Page)
    requires c < |tiers|
    ensures Has(PushPage(tiers, c, p), c, 0)
    ensures Put(PushPage(tiers, c, p), c, 0, q) == PushPage(tiers, c, q)
  {
    assert ([p] + tiers[c])[0 := q] == [q] + tiers[c];
  }

  lemma BlankOk(f: nat, c: nat)
    requires c < TIERS
    ensures PageOk(Blank(f), c) && FirstClear(Blank(f).bits, Total(c)) == 0
  {
    PopcountFull(Blank(f).bits, 0);
  }
}

/**
 * Slab pages as values: five tiers of one-page pools, each with a 64-bit occupancy word
 * (kernel/kmalloc.c). Requests above 256 bytes go to the kernel heap.
 */
module Slab {
  import opened PageBits
  import Heap
  import HeapRuns

  const TIERS: nat := 5
  const HEADER: nat := 32
  const SLOTS: nat := 64
  const PAGE: nat := 4096

  function Size(tier: nat): nat
    requires tier < TIERS
  {
    match tier
    case 0 => 16
    case 1 => 32
    case 2 => 64
    case 3 => 128
    case 4 => 256
  }

  /** Objects in a page of the tier. */
  function Total(tier: nat): nat
    requires tier < TIERS
  {
    var n := (PAGE - HEADER) / Size(tier);
    if n > SLOTS then SLOTS else n
  }

  datatype Page = Page(page: nat, used: nat, bits: seq<bool>)

  /** One tier's pages, newest first, in each of five tiers; the rest of the allocator below them. */
  datatype Slabs = Slabs(tiers: seq<seq<Page>>, store: HeapRuns.Store)

  /** A slot of a slab page, as its client knows it. */
  datatype Object = Object(tier: nat, page: nat, slot: nat)

  predicate Proper(o: Object) {
    o.tier < TIERS && o.slot < Total(o.tier)
  }

  function Addr(o: Object): nat
    requires o.tier < TIERS
  {
    o.page * PAGE + HEADER + o.slot * Size(o.tier)
  }

  // ----- Occupancy words -----

  function Popcount(bits: seq<bool>): (n: nat)
    ensures n <= |bits|
  {
    if bits == [] then 0 else (if bits[0] then 1 else 0) + Popcount(bits[1..])
  }

  lemma {:induction false} PopcountSet(bits: seq<bool>, k: nat, b: bool)
    requires k < |bits| && bits[k] != b
    ensures Popcount(bits[k := b]) == if b then Popcount(bits) + 1 else Popcount(bits) - 1
    decreases |bits|
  {
    if k == 0 {
      assert bits[k := b][1..] == bits[1..];
    } else {
      assert bits[k := b][1..] == bits[1..][k - 1 := b];
      PopcountSet(bits[1..], k - 1, b);
    }
  }

  lemma {:induction false} PopcountFull(bits: seq<bool>, n: nat)
    requires n <= |bits| && forall i :: 0 <= i < |bits| ==> bits[i] == (i < n)
    ensures Popcount(bits) == n
    decreases |bits|
  {
    if bits != [] {
      PopcountFull(bits[1..], if n == 0 then 0 else n - 1);
    }
  }

  /** Lowest clear bit below `n`, or `n`. */
  function FirstClear(bits: seq<bool>, n: nat, from: nat := 0): (k: nat)
    requires from <= n <= |bits|
    ensures from <= k <= n
    ensures k < n ==> !bits[k]
    ensures forall j :: from <= j < k ==> bits[j]
    decreases n - from
  {
    if from == n || !bits[from] then from else FirstClear(bits, n, from + 1)
  }

  // ----- Operations -----

  /** Smallest tier that holds `size`, or TIERS. */
  function TierFor(size: nat, from: nat := 0): (c: nat)
    requires from <= TIERS
    ensures from <= c <= TIERS
    ensures c < TIERS ==> size <= Size(c)
    ensures forall d :: from <= d < c ==> Size(d) < size
    decreases TIERS - from
  {
    if from == TIERS || Size(from) >= size then from else TierFor(size, from + 1)
  }

  /** First page of the tier with room, or the length of the list. */
  function FirstRoom(pages: seq<Page>, tier: nat, from: nat := 0): (i: nat)
    requires tier < TIERS && from <= |pages|
    ensures from <= i <= |pages|
    ensures i < |pages| ==> pages[i].used < Total(tier)
    ensures forall j :: from <= j < i ==> pages[j].used >= Total(tier)
    decreases |pages| - from
  {
    if from == |pages| || pages[from].used < Total(tier) then from else FirstRoom(pages, tier, from + 1)
  }

  function Blank(page: nat): Page {
    Page(page, 0, seq(SLOTS, _ => false))
  }

  predicate Shaped(p: Page) {
    |p.bits| == SLOTS
  }

  function Occupy(p: Page, k: nat): Page
    requires Shaped(p) && k < SLOTS
  {
    Page(p.page, p.used + 1, p.bits[k := true])
  }

  /** The count is a 32-bit word. */
  function Vacate(p: Page, k: nat): Page
    requires Shaped(p) && k < SLOTS
  {
    Page(p.page, (p.used + 0xFFFF_FFFF) % 0x1_0000_0000, p.bits[k := false])
  }

  // ----- Invariant -----

  /** The used count is the number of set bits, all of them below the page's object count. */
  ghost predicate PageOk(p: Page, tier: nat)
    requires tier < TIERS
  {
    && Shaped(p)
    && p.used == Popcount(p.bits)
    && forall k :: Total(tier) <= k < SLOTS ==> !p.bits[k]
  }

  predicate Has(tiers: seq<seq<Page>>, c: int, i: int) {
    0 <= c < |tiers| && 0 <= i < |tiers[c]|
  }

  function At(tiers: seq<seq<Page>>, c: int, i: int): Page
    requires Has(tiers, c, i)
  {
    tiers[c][i]
  }

  /** The page is one the page manager gave out, and not to the heap. */
  predicate Held(p: Page, store: HeapRuns.Store) {
    0 < p.page < |store.bits| && store.bits[p.page] && p.page !in store.grant
  }

  ghost predicate PagesOk(tiers: seq<seq<Page>>) {
    |tiers| == TIERS && forall c, i :: Has(tiers, c, i) ==> PageOk(At(tiers, c, i), c)
  }

  predicate AllShaped(tiers: seq<seq<Page>>) {
    |tiers| == TIERS && forall c, i | 0 <= c < |tiers| && 0 <= i < |tiers[c]| :: Shaped(tiers[c][i])
  }

  ghost predicate Distinct(tiers: seq<seq<Page>>) {
    forall c, i, d, j :: Has(tiers, c, i) && Has(tiers, d, j) && At(tiers, c, i).page == At(tiers, d, j).page
                         ==> c == d && i == j
  }

  ghost predicate AllHeld(tiers: seq<seq<Page>>, store: HeapRuns.Store) {
    forall c, i :: Has(tiers, c, i) ==> Held(At(tiers, c, i), store)
  }

  ghost predicate Inv(s: Slabs) {
    && PagesOk(s.tiers)
    && Distinct(s.tiers)
    && AllHeld(s.tiers, s.store)
    && HeapRuns.Laws(s.store)
  }

  ghost predicate HeapSound(s: Slabs) {
    Heap.Sound(s.store.blocks, s.store.grant)
  }

  /** The object is allocated. */
  ghost predicate Live(tiers: seq<seq<Page>>, o: Object) {
    exists i :: Has(tiers, o.tier, i) && Shaped(At(tiers, o.tier, i))
                && At(tiers, o.tier, i).page == o.page && o.slot < SLOTS && At(tiers, o.tier, i).bits[o.slot]
  }

  // ----- Live objects in memory -----

  lemma LiveProper(tiers: seq<seq<Page>>, o: Object)
    requires PagesOk(tiers) && Live(tiers, o)
    ensures Proper(o)
  {
    var i :| Has(tiers, o.tier, i) && At(tiers, o.tier, i).page == o.page && At(tiers, o.tier, i).bits[o.slot];
    assert PageOk(At(tiers, o.tier, i), o.tier);
  }

  /** An object lies in its page behind the header, on a 16-byte boundary. */
  lemma ObjectInPage(o: Object)
    requires Proper(o)
    ensures o.page * PAGE + HEADER <= Addr(o) && Addr(o) + Size(o.tier) <= (o.page + 1) * PAGE
    ensures Addr(o) % 16 == 0
    ensures Addr(o) / PAGE == o.page
  {
    OffsetFits(o);
    PageArithmetic(o.page, HEADER + o.slot * Size(o.tier));
  }

  lemma OffsetFits(o: Object)
    requires Proper(o)
    ensures var off := HEADER + o.slot * Size(o.tier);
            off % 16 == 0 && off + Size(o.tier) <= PAGE
  {
    assert Total(0) == 64 && Total(1) == 64 && Total(2) == 63 && Total(3) == 31 && Total(4) == 15;
    assert o.tier == 0 || o.tier == 1 || o.tier == 2 || o.tier == 3 || o.tier == 4;
  }

  lemma PageArithmetic(page: nat, off: nat)
    requires off % 16 == 0 && off < PAGE
    ensures (page * PAGE + off) % 16 == 0
    ensures (page * PAGE + off) / PAGE == page
  {
    var k := off / 16;
    assert page * PAGE + off == 16 * (256 * page + k);
  }

  /** No two live objects share a byte. */
  lemma ObjectsApart(s: Slabs, o: Object, q: Object)
    requires Inv(s) && Live(s.tiers, o) && Live(s.tiers, q) && o != q
    ensures o.tier < TIERS && q.tier < TIERS
    ensures Addr(o) + Size(o.tier) <= Addr(q) || Addr(q) + Size(q.tier) <= Addr(o)
  {
    LiveProper(s.tiers, o);
    LiveProper(s.tiers, q);
    ObjectInPage(o);
    ObjectInPage(q);
    if o.page == q.page {
      var i :| Has(s.tiers, o.tier, i) && At(s.tiers, o.tier, i).page == o.page;
      var j :| Has(s.tiers, q.tier, j) && At(s.tiers, q.tier, j).page == q.page;
      assert o.tier == q.tier;
      SlotsApart(o, q);
    }
  }

  lemma SlotsApart(o: Object, q: Object)
    requires o.tier == q.tier < TIERS && o.page == q.page && o.slot != q.slot
    ensures Addr(o) + Size(o.tier) <= Addr(q) || Addr(q) + Size(q.tier) <= Addr(o)
  {
    assert o.tier == 0 || o.tier == 1 || o.tier == 2 || o.tier == 3 || o.tier == 4;
  }

  // ----- Finding the page of a pointer -----

  predicate InRange(p: Page, c: nat, ptr: nat)
    requires c < TIERS
  {
    p.page * PAGE + HEADER <= ptr < p.page * PAGE + HEADER + Total(c) * Size(c)
  }

  /** First page of the tier whose objects include the address, or the length of the list. */
  function FindIn(pages: seq<Page>, c: nat, ptr: nat, from: nat := 0): (i: nat)
    requires c < TIERS && from <= |pages|
    ensures from <= i <= |pages|
    ensures i < |pages| ==> InRange(pages[i], c, ptr)
    ensures forall j :: from <= j < i ==> !InRange(pages[j], c, ptr)
    decreases |pages| - from
  {
    if from == |pages| || InRange(pages[from], c, ptr) then from else FindIn(pages, c, ptr, from + 1)
  }

  /** First tier with such a page, or TIERS. */
  function FindTier(tiers: seq<seq<Page>>, ptr: nat, from: nat := 0): (c: nat)
    requires |tiers| == TIERS && from <= TIERS
    ensures from <= c <= TIERS
    ensures c < TIERS ==> FindIn(tiers[c], c, ptr) < |tiers[c]|
    ensures forall d :: from <= d < c ==> FindIn(tiers[d], d, ptr) == |tiers[d]|
    decreases TIERS - from
  {
    if from == TIERS || FindIn(tiers[from], from, ptr) < |tiers[from]| then from
    else FindTier(tiers, ptr, from + 1)
  }

  function SlotOf(p: Page, c: nat, ptr: nat): (k: nat)
    requires c < TIERS && InRange(p, c, ptr)
  {
    (ptr - (p.page * PAGE + HEADER)) / Size(c)
  }

  lemma SlotOfObject(o: Object, p: Page)
    requires Proper(o) && p.page == o.page
    ensures InRange(p, o.tier, Addr(o)) && SlotOf(p, o.tier, Addr(o)) == o.slot
  {
    assert o.tier == 0 || o.tier == 1 || o.tier == 2 || o.tier == 3 || o.tier == 4;
  }

  lemma RangeInPage(p: Page, c: nat, ptr: nat)
    requires c < TIERS && InRange(p, c, ptr)
    ensures ptr / PAGE == p.page && SlotOf(p, c, ptr) < Total(c) <= SLOTS
  {
    assert c == 0 || c == 1 || c == 2 || c == 3 || c == 4;
  }

  /** The search for a live object's address ends at the page and slot that hold it. */
  lemma FreeReaches(tiers: seq<seq<Page>>, o: Object)
    requires PagesOk(tiers) && Distinct(tiers) && Live(tiers, o)
    ensures Proper(o) && FindTier(tiers, Addr(o)) == o.tier
    ensures var p := tiers[o.tier][FindIn(tiers[o.tier], o.tier, Addr(o))];
            p.page == o.page && SlotOf(p, o.tier, Addr(o)) == o.slot && Shaped(p) && p.bits[o.slot]
  {
    LiveProper(tiers, o);
    ObjectInPage(o);
    var i :| Has(tiers, o.tier, i) && At(tiers, o.tier, i).page == o.page && At(tiers, o.tier, i).bits[o.slot];
    SlotOfObject(o, At(tiers, o.tier, i));
    var c := FindTier(tiers, Addr(o));
    var j := FindIn(tiers[c], c, Addr(o));
    RangeInPage(tiers[c][j], c, Addr(o));
    assert At(tiers, c, j).page == o.page;
  }

  // ----- One page -----

  /** A page whose count is below its total has a clear bit for the scan to find. */
  lemma RoomHasSlot(p: Page, c: nat)
    requires c < TIERS && PageOk(p, c)
    ensures p.used < Total(c) <==> FirstClear(p.bits, Total(c)) < Total(c)
  {
    var k := FirstClear(p.bits, Total(c));
    if k == Total(c) {
      PopcountFull(p.bits, Total(c));
    } else {
      PopcountBelow(p.bits, Total(c), k);
    }
  }

  lemma {:induction false} PopcountBelow(bits: seq<bool>, n: nat, k: nat)
    requires k < n <= |bits| && !bits[k]
    requires forall i :: n <= i < |bits| ==> !bits[i]
    ensures Popcount(bits) < n
    decreases |bits|
  {
    if k > 0 {
      PopcountBelow(bits[1..], n - 1, k - 1);
    } else {
      PopcountAtMost(bits[1..], n - 1);
    }
  }

  lemma {:induction false} PopcountAtMost(bits: seq<bool>, n: nat)
    requires n <= |bits|
    requires forall i :: n <= i < |bits| ==> !bits[i]
    ensures Popcount(bits) <= n
    decreases |bits|
  {
    if bits != [] {
      PopcountAtMost(bits[1..], if n == 0 then 0 else n - 1);
    }
  }

  lemma OccupyOk(p: Page, c: nat, k: nat)
    requires c < TIERS && PageOk(p, c) && k < Total(c) && !p.bits[k]
    ensures PageOk(Occupy(p, k), c)
  {
    PopcountSet(p.bits, k, true);
  }

  /** Freeing a slot keeps the count right exactly when the slot was allocated. */
  lemma VacateOk(p: Page, c: nat, k: nat)
    requires c < TIERS && PageOk(p, c) && k < Total(c)
    ensures PageOk(Vacate(p, k), c) <==> p.bits[k]
  {
    if p.bits[k] {
      PopcountSet(p.bits, k, false);
    } else {
      assert p.bits[k := false] == p.bits;
    }
  }

  /** Freeing an object twice: the count is no longer the number of set bits.  If it was the page's only object,
      the count is the largest 32-bit word, and the page, empty as it is, looks full to the search for room. */
  lemma DoubleFree(p: Page, c: nat, k: nat)
    requires c < TIERS && PageOk(p, c) && k < Total(c) && p.bits[k]
    ensures
      var freed := Vacate(Vacate(p, k), k);
      && !PageOk(freed, c)
      && (p.used == 1 ==> freed.used == 0xFFFF_FFFF && Popcount(freed.bits) == 0 && FirstRoom([freed], c) == 1)
  {
    PopcountSet(p.bits, k, false);
    VacateOk(p, c, k);
    VacateOk(Vacate(p, k), c, k);
    assert Vacate(p, k).bits[k := false] == Vacate(p, k).bits;
  }

  // ----- The whole allocator -----

  function Put(tiers: seq<seq<Page>>, c: nat, i: nat, p: Page): seq<seq<Page>>
    requires Has(tiers, c, i)
  {
    tiers[c := tiers[c][i := p]]
  }

  function PushPage(tiers: seq<seq<Page>>, c: nat, p: Page): seq<seq<Page>>
    requires c < |tiers|
  {
    tiers[c := [p] + tiers[c]]
  }

  ghost function AfterAlloc(s: Slabs, size: nat): Slabs
    requires PagesOk(s.tiers)
  {
    var c := TierFor(size);
    if c == TIERS then s.(store := HeapRuns.AfterMalloc(s.store, size))
    else
      var i, f := FirstRoom(s.tiers[c], c), FirstFree(s.store.bits);
      if i < |s.tiers[c]| then
        assert Has(s.tiers, c, i) && PageOk(At(s.tiers, c, i), c);
        var k := FirstClear(s.tiers[c][i].bits, Total(c));
        if k < Total(c) then s.(tiers := Put(s.tiers, c, i, Occupy(s.tiers[c][i], k))) else s
      else if f < |s.store.bits| then
        Slabs(PushPage(s.tiers, c, Occupy(Blank(f), 0)), s.store.(bits := s.store.bits[f := true]))
      else s
  }

  /** The object a request of slab size is given; its page is `|bits|` when there is none. */
  ghost function Handed(s: Slabs, size: nat): Object
    requires PagesOk(s.tiers) && TierFor(size) < TIERS
  {
    var c := TierFor(size);
    var i := FirstRoom(s.tiers[c], c);
    if i < |s.tiers[c]| then
      assert Has(s.tiers, c, i) && PageOk(At(s.tiers, c, i), c);
      Object(c, s.tiers[c][i].page, FirstClear(s.tiers[c][i].bits, Total(c)))
    else Object(c, FirstFree(s.store.bits), 0)
  }

  /** No page of the tier has room and the page manager has none to give. */
  predicate Exhausted(s: Slabs, size: nat)
    requires |s.tiers| == TIERS && TierFor(size) < TIERS
  {
    var c := TierFor(size);
    FirstRoom(s.tiers[c], c) == |s.tiers[c]| && FirstFree(s.store.bits) == |s.store.bits|
  }

  ghost function AllocResult(s: Slabs, size: nat): nat
    requires PagesOk(s.tiers)
  {
    if TierFor(size) == TIERS then HeapRuns.MallocResult(s.store, size)
    else if Exhausted(s, size) then 0
    else Addr(Handed(s, size))
  }

  function AfterFree(s: Slabs, ptr: nat): Slabs
    requires AllShaped(s.tiers)
  {
    var c := FindTier(s.tiers, ptr);
    if c == TIERS then s.(store := HeapRuns.AfterFree(s.store, ptr))
    else
      var i := FindIn(s.tiers[c], c, ptr);
      RangeInPage(s.tiers[c][i], c, ptr);
      assert Has(s.tiers, c, i) && Shaped(At(s.tiers, c, i));
      s.(tiers := Put(s.tiers, c, i, Vacate(s.tiers[c][i], SlotOf(s.tiers[c][i], c, ptr))))
  }

  // ----- Replacing one page, adding one page -----

  lemma PutKeeps(s: Slabs, c: nat, i: nat, p: Page)
    requires Inv(s) && Has(s.tiers, c, i) && p.page == s.tiers[c][i].page && PageOk(p, c)
    ensures Inv(s.(tiers := Put(s.tiers, c, i, p)))
  {
    var t := Put(s.tiers, c, i, p);
    forall d, j | Has(t, d, j)
      ensures Has(s.tiers, d, j)
      ensures At(t, d, j) == if d == c && j == i then p else At(s.tiers, d, j)
      ensures At(t, d, j).page == At(s.tiers, d, j).page
    {
    }
    assert Held(At(s.tiers, c, i), s.store);
  }

  lemma PushDistinct(tiers: seq<seq<Page>>, c: nat, p: Page)
    requires Distinct(tiers) && c < |tiers|
    requires forall d, j :: Has(tiers, d, j) ==> At(tiers, d, j).page != p.page
    ensures Distinct(PushPage(tiers, c, p))
  {
    var t := PushPage(tiers, c, p);
    forall a, i, b, j | Has(t, a, i) && Has(t, b, j) && At(t, a, i).page == At(t, b, j).page
      ensures a == b && i == j
    {
      var i', j' := if a == c then i - 1 else i, if b == c then j - 1 else j;
      assert i' >= 0 ==> Has(tiers, a, i') && At(tiers, a, i') == At(t, a, i);
      assert j' >= 0 ==> Has(tiers, b, j') && At(tiers, b, j') == At(t, b, j);
    }
  }

  lemma PushKeeps(s: Slabs, c: nat, p: Page, f: nat)
    requires Inv(s) && c < TIERS && PageOk(p, c) && p.page == f < |s.store.bits| && !s.store.bits[f]
    ensures Inv(Slabs(PushPage(s.tiers, c, p), s.store.(bits := s.store.bits[f := true])))
  {
    var t := PushPage(s.tiers, c, p);
    var store := s.store.(bits := s.store.bits[f := true]);
    assert HeapRuns.Allowed(s.store, HeapRuns.Others(store.bits));
    HeapRuns.StepLaws(s.store, HeapRuns.Others(store.bits));
    forall d, j | Has(s.tiers, d, j)
      ensures At(s.tiers, d, j).page != f
    {
      assert Held(At(s.tiers, d, j), s.store);
    }
    PushDistinct(s.tiers, c, p);
    forall d, j | Has(t, d, j)
      ensures Held(At(t, d, j), store) && PageOk(At(t, d, j), d)
    {
      if d == c && j > 0 {
        assert Has(s.tiers, c, j - 1) && Held(At(s.tiers, c, j - 1), s.store);
      } else if d != c {
        assert Has(s.tiers, d, j) && Held(At(s.tiers, d, j), s.store);
      }
    }
  }

  /** A request of slab size writes no heap header; a larger one keeps clear of the others or not. */
  ghost predicate Unobstructed(s: Slabs, size: nat) {
    TierFor(size) == TIERS ==> HeapRuns.Unobstructed(s.store, HeapRuns.Malloc(size))
  }

  /** An allocation keeps the invariant exactly when it writes no heap header over another, which on a
      sound heap it never does; and it keeps a sound heap sound. */
  lemma AllocKeeps(s: Slabs, size: nat)
    requires Inv(s) && size < Heap.WORD
    ensures Inv(AfterAlloc(s, size)) <==> Unobstructed(s, size)
    ensures HeapSound(s) ==> Unobstructed(s, size) && HeapSound(AfterAlloc(s, size))
  {
    var c := TierFor(size);
    if c == TIERS {
      MallocKeeps(s, size);
    } else {
      SmallAllocKeeps(s, size);
    }
  }

  lemma SmallAllocKeeps(s: Slabs, size: nat)
    requires Inv(s) && TierFor(size) < TIERS
    ensures Inv(AfterAlloc(s, size))
    ensures HeapSound(s) ==> HeapSound(AfterAlloc(s, size))
  {
    var c := TierFor(size);
    var i, f := FirstRoom(s.tiers[c], c), FirstFree(s.store.bits);
    if i < |s.tiers[c]| {
      assert Has(s.tiers, c, i) && PageOk(At(s.tiers, c, i), c);
      var p := s.tiers[c][i];
      RoomHasSlot(p, c);
      OccupyOk(p, c, FirstClear(p.bits, Total(c)));
      PutKeeps(s, c, i, Occupy(p, FirstClear(p.bits, Total(c))));
    } else if f < |s.store.bits| {
      PopcountFull(Blank(f).bits, 0);
      OccupyOk(Blank(f), c, 0);
      PushKeeps(s, c, Occupy(Blank(f), 0), f);
    }
  }

  lemma MallocKeeps(s: Slabs, size: nat)
    requires Inv(s) && size < Heap.WORD
    ensures Inv(s.(store := HeapRuns.AfterMalloc(s.store, size))) <==>
            HeapRuns.Unobstructed(s.store, HeapRuns.Malloc(size))
    ensures HeapSound(s) ==>
              && HeapRuns.Unobstructed(s.store, HeapRuns.Malloc(size))
              && HeapSound(s.(store := HeapRuns.AfterMalloc(s.store, size)))
  {
    var op := HeapRuns.Malloc(size);
    var t := HeapRuns.AfterMalloc(s.store, size);
    HeapRuns.StepLaws(s.store, op);
    if HeapSound(s) {
      HeapRuns.StepSound(s.store, op);
    }
    forall d, j | Has(s.tiers, d, j)
      ensures Held(At(s.tiers, d, j), t)
    {
      MallocHolds(s.store, size, At(s.tiers, d, j));
    }
  }

  lemma MallocHolds(store: HeapRuns.Store, size: nat, p: Page)
    requires HeapRuns.Laws(store) && Held(p, store)
    ensures Held(p, HeapRuns.AfterMalloc(store, size))
  {
    var n := Heap.Round(size);
    if HeapRuns.CanGrow(store, n) {
      HeapRuns.FreshRun(store, Heap.Pages(n));
    }
  }

  // ----- What clients see -----

  lemma LiveAt(tiers: seq<seq<Page>>, c: nat, i: nat, k: nat)
    requires PagesOk(tiers) && Distinct(tiers) && Has(tiers, c, i) && k < SLOTS
    ensures Live(tiers, Object(c, At(tiers, c, i).page, k)) <==> At(tiers, c, i).bits[k]
  {
    assert PageOk(At(tiers, c, i), c);
  }

  /** Writing one bit of one page's word changes the life of one object. */
  lemma PutLive(tiers: seq<seq<Page>>, c: nat, i: nat, p: Page, k: nat, b: bool, o: Object)
    requires PagesOk(tiers) && Distinct(tiers) && Has(tiers, c, i) && k < SLOTS
    requires p.page == tiers[c][i].page && PageOk(p, c) && p.bits == tiers[c][i].bits[k := b]
    ensures Live(Put(tiers, c, i, p), o) <==>
            if o == Object(c, p.page, k) then b else Live(tiers, o)
  {
    var t := Put(tiers, c, i, p);
    if o.tier == c && o.page == p.page {
      assert At(t, c, i) == p && PageOk(At(tiers, c, i), c);
      if o.slot < SLOTS {
        LiveAt(tiers, c, i, o.slot);
        forall j | Has(t, c, j) && At(t, c, j).page == p.page
          ensures j == i
        {
          assert Has(tiers, c, j) && At(tiers, c, j).page == At(t, c, j).page;
        }
      }
    } else {
      forall j
        ensures Has(t, o.tier, j) <==> Has(tiers, o.tier, j)
        ensures Has(t, o.tier, j) && At(t, o.tier, j).page == o.page ==> At(t, o.tier, j) == At(tiers, o.tier, j)
        ensures Has(tiers, o.tier, j) && At(tiers, o.tier, j).page == o.page ==>
                  At(t, o.tier, j) == At(tiers, o.tier, j)
      {
      }
    }
  }

  /** A new page brings its one object to life and no other. */
  lemma PushLive(tiers: seq<seq<Page>>, c: nat, f: nat, o: Object)
    requires |tiers| == TIERS && c < TIERS
    ensures Live(PushPage(tiers, c, Occupy(Blank(f), 0)), o) <==> o == Object(c, f, 0) || Live(tiers, o)
  {
    var p := Occupy(Blank(f), 0);
    var t := PushPage(tiers, c, p);
    assert Has(t, c, 0) && At(t, c, 0) == p;
    if Live(tiers, o) {
      var j :| Has(tiers, o.tier, j) && Shaped(At(tiers, o.tier, j)) && At(tiers, o.tier, j).page == o.page
               && o.slot < SLOTS && At(tiers, o.tier, j).bits[o.slot];
      var j' := if o.tier == c then j + 1 else j;
      assert Has(t, o.tier, j') && At(t, o.tier, j') == At(tiers, o.tier, j);
    }
    if Live(t, o) && o != Object(c, f, 0) {
      var j :| Has(t, o.tier, j) && Shaped(At(t, o.tier, j)) && At(t, o.tier, j).page == o.page
               && o.slot < SLOTS && At(t, o.tier, j).bits[o.slot];
      var j' := if o.tier == c then j - 1 else j;
      assert Has(tiers, o.tier, j') && At(t, o.tier, j) == At(tiers, o.tier, j');
    }
  }

  /** Exactly one object, big enough and not in use before, comes to life. */
  ghost predicate AddsOne(s: Slabs, size: nat, o: Object)
    requires PagesOk(s.tiers) && TierFor(size) < TIERS
  {
    var q := Handed(s, size);
    && Proper(q) && size <= Size(q.tier)
    && !Live(s.tiers, q)
    && (Live(AfterAlloc(s, size).tiers, o) <==> o == q || Live(s.tiers, o))
  }

  /** A slab-size request is refused only when no page is left anywhere. */
  lemma AllocAddsOne(s: Slabs, size: nat, o: Object)
    requires Inv(s) && TierFor(size) < TIERS
    ensures AllocResult(s, size) == 0 <==> Exhausted(s, size)
    ensures Exhausted(s, size) ==> AfterAlloc(s, size) == s
    ensures !Exhausted(s, size) ==> AddsOne(s, size, o)
  {
    var c := TierFor(size);
    if FirstRoom(s.tiers[c], c) < |s.tiers[c]| {
      AllocInRoom(s, size, o);
    } else if FirstFree(s.store.bits) < |s.store.bits| {
      AllocInNewPage(s, size, o);
    }
  }

  lemma AllocInRoom(s: Slabs, size: nat, o: Object)
    requires Inv(s) && TierFor(size) < TIERS
    requires FirstRoom(s.tiers[TierFor(size)], TierFor(size)) < |s.tiers[TierFor(size)]|
    ensures AddsOne(s, size, o)
  {
    var c := TierFor(size);
    var i := FirstRoom(s.tiers[c], c);
    assert Has(s.tiers, c, i) && PageOk(At(s.tiers, c, i), c);
    var p := s.tiers[c][i];
    RoomHasSlot(p, c);
    var k := FirstClear(p.bits, Total(c));
    OccupyOk(p, c, k);
    LiveAt(s.tiers, c, i, k);
    PutLive(s.tiers, c, i, Occupy(p, k), k, true, o);
  }

  lemma AllocInNewPage(s: Slabs, size: nat, o: Object)
    requires Inv(s) && TierFor(size) < TIERS
    requires FirstRoom(s.tiers[TierFor(size)], TierFor(size)) == |s.tiers[TierFor(size)]|
    requires FirstFree(s.store.bits) < |s.store.bits|
    ensures AddsOne(s, size, o)
  {
    var c, f := TierFor(size), FirstFree(s.store.bits);
    NewPageUnused(s, Object(c, f, 0));
    PushLive(s.tiers, c, f, o);
  }

  lemma NewPageUnused(s: Slabs, o: Object)
    requires Inv(s) && o.page < |s.store.bits| && !s.store.bits[o.page]
    ensures !Live(s.tiers, o)
  {
    forall i | Has(s.tiers, o.tier, i)
      ensures At(s.tiers, o.tier, i).page != o.page
    {
      assert Held(At(s.tiers, o.tier, i), s.store);
    }
  }

  /** Freeing a live object ends its life and no other's, and keeps the invariant. */
  lemma FreeRemovesOne(s: Slabs, q: Object, o: Object)
    requires Inv(s) && Live(s.tiers, q)
    ensures Proper(q) && AllShaped(s.tiers)
    ensures Inv(AfterFree(s, Addr(q)))
    ensures Live(AfterFree(s, Addr(q)).tiers, o) <==> o != q && Live(s.tiers, o)
    ensures AfterFree(s, Addr(q)).store == s.store
  {
    PagesShaped(s.tiers);
    FreeReaches(s.tiers, q);
    var c := q.tier;
    var i := FindIn(s.tiers[c], c, Addr(q));
    var p := s.tiers[c][i];
    assert Has(s.tiers, c, i) && PageOk(At(s.tiers, c, i), c);
    VacateOk(p, c, q.slot);
    PutKeeps(s, c, i, Vacate(p, q.slot));
    PutLive(s.tiers, c, i, Vacate(p, q.slot), q.slot, false, o);
  }

  /** A live heap block's pointer lies in no slab page, so the search falls through to kfree. */
  lemma HeapPointerFallsThrough(s: Slabs, b: nat)
    requires Inv(s) && HeapSound(s) && b < |s.store.blocks| && s.store.blocks[b].size > 0
    ensures FindTier(s.tiers, s.store.blocks[b].Payload()) == TIERS
  {
    var ptr := s.store.blocks[b].Payload();
    assert s.store.blocks[b].Holds(ptr);
    assert Heap.Covered(s.store.blocks, ptr);
    forall d: nat, j | Has(s.tiers, d, j)
      ensures !InRange(s.tiers[d][j], d, ptr)
    {
      assert Held(At(s.tiers, d, j), s.store);
      if InRange(s.tiers[d][j], d, ptr) {
        RangeInPage(s.tiers[d][j], d, ptr);
      }
    }
    assert forall d: nat, j :: Has(s.tiers, d, j) ==> !InRange(s.tiers[d][j], d, ptr);
  }

  /** A pointer outside every slab page goes to the heap, which leaves the slabs alone. */
  lemma HeapFreeKeeps(s: Slabs, ptr: nat)
    requires Inv(s) && AllShaped(s.tiers) && FindTier(s.tiers, ptr) == TIERS
    ensures Inv(AfterFree(s, ptr))
  {
    HeapRuns.StepLaws(s.store, HeapRuns.Free(ptr));
    var t := HeapRuns.AfterFree(s.store, ptr);
    assert t.bits == s.store.bits && t.grant == s.store.grant;
    forall c, i | Has(s.tiers, c, i)
      ensures Held(At(s.tiers, c, i), t)
    {
      assert Held(At(s.tiers, c, i), s.store);
    }
  }

  /** Freeing at once what was allocated in an existing page restores the allocator. */
  lemma FreeUndoesAlloc(s: Slabs, size: nat)
    requires Inv(s) && TierFor(size) < TIERS
    requires FirstRoom(s.tiers[TierFor(size)], TierFor(size)) < |s.tiers[TierFor(size)]|
    ensures Inv(AfterAlloc(s, size)) && AllShaped(AfterAlloc(s, size).tiers)
    ensures AfterFree(AfterAlloc(s, size), AllocResult(s, size)) == s
  {
    var c := TierFor(size);
    var i := FirstRoom(s.tiers[c], c);
    var p := s.tiers[c][i];
    assert Has(s.tiers, c, i) && PageOk(At(s.tiers, c, i), c);
    var t, o := AfterAlloc(s, size), Handed(s, size);
    SmallAllocKeeps(s, size);
    AllocAddsOne(s, size, o);
    PagesShaped(t.tiers);
    RoomHasSlot(p, c);
    assert t.tiers == Put(s.tiers, c, i, Occupy(p, o.slot));
    FreeOfTaken(s, t, c, i, o);
  }

  lemma VacateUndoes(p: Page, k: nat)
    requires Shaped(p) && k < SLOTS && !p.bits[k] && p.used == Popcount(p.bits)
    ensures Vacate(Occupy(p, k), k) == p
  {
    assert p.bits[k := true][k := false] == p.bits;
  }

  lemma FreeOfTaken(s: Slabs, t: Slabs, c: nat, i: nat, o: Object)
    requires PagesOk(s.tiers) && Inv(t) && AllShaped(t.tiers) && Has(s.tiers, c, i)
    requires o.tier == c && Proper(o) && o.page == At(s.tiers, c, i).page
    requires Shaped(At(s.tiers, c, i)) && !At(s.tiers, c, i).bits[o.slot]
    requires t == s.(tiers := Put(s.tiers, c, i, Occupy(At(s.tiers, c, i), o.slot)))
    ensures AfterFree(t, Addr(o)) == s
  {
    var p := At(s.tiers, c, i);
    assert Has(t.tiers, c, i) && At(t.tiers, c, i) == Occupy(p, o.slot);
    assert Live(t.tiers, o);
    FreeReaches(t.tiers, o);
    var j := FindIn(t.tiers[c], c, Addr(o));
    assert At(t.tiers, c, i).page == At(t.tiers, c, j).page;
    assert j == i;
    assert PageOk(p, c);
    VacateUndoes(p, o.slot);
    assert t.tiers[c][i := p] == s.tiers[c];
    assert t.tiers[c := s.tiers[c]] == s.tiers;
  }

  lemma PagesShaped(tiers: seq<seq<Page>>)
    requires PagesOk(tiers)
    ensures AllShaped(tiers)
  {
    forall c, i | 0 <= c < |tiers| && 0 <= i < |tiers[c]|
      ensures Shaped(tiers[c][i])
    {
      assert PageOk(At(tiers, c, i), c);
    }
  }

  // ----- Sizes in bytes -----

  /** Requests up to 256 bytes go to the smallest of the five sizes that holds them, so that at most half of an
      object above 16 bytes is wasted; larger ones go to the heap. */
  lemma TierIs(size: nat)
    ensures TierFor(size) < 5 <==> size <= 256
    ensures size <= 256 ==>
      var n := Size(TierFor(size));
      n in {16, 32, 64, 128, 256} && n >= size && (n == 16 || n < 2 * size)
  {
    var c := TierFor(size);
    assert c == 0 || c == 1 || c == 2 || c == 3 || c == 4 || c == TIERS;
    if 0 < c { assert Size(c - 1) < size; }
  }

  /** A page holds as many objects behind its 32-byte header as there is room for, at most 64. */
  lemma PageHolds(tier: nat)
    requires tier < 5
    ensures var n, size := Total(tier), Size(tier);
            0 < n <= 64 && 32 + n * size <= 4096 && (n == 64 || 32 + (n + 1) * size > 4096)
  {
    assert tier == 0 || tier == 1 || tier == 2 || tier == 3 || tier == 4;
  }

  /** A request of slab size fails exactly when every object of every page of its size is taken and no page
      is free; otherwise its bytes lie in one page behind the header, on a 16-byte boundary. */
  lemma SmallRequest(s: Slabs, size: nat)
    requires Inv(s) && TierFor(size) < TIERS
    ensures AllocResult(s, size) == 0 <==>
      FreeCount(s.store.bits) == 0 &&
      forall i, k :: 0 <= i < |s.tiers[TierFor(size)]| && 0 <= k < Total(TierFor(size)) ==>
        At(s.tiers, TierFor(size), i).bits[k]
    ensures AllocResult(s, size) != 0 ==>
      var at := AllocResult(s, size);
      && at % 16 == 0 && 32 <= at % 4096 && at % 4096 + size <= 4096
      && (at % 4096 - 32) % Size(TierFor(size)) == 0
  {
    var c := TierFor(size);
    NoneFree(s.store.bits);
    AllocAddsOne(s, size, Handed(s, size));
    ExhaustedIs(s, size, c);
    if AllocResult(s, size) != 0 {
      HandedProper(s, size);
      var o := Handed(s, size);
      ObjectInPage(o);
      OffsetFits(o);
      PageOffset(o.page, HEADER + o.slot * Size(o.tier));
      SlotOffset(o.tier, o.slot);
    }
  }

  lemma SlotOffset(tier: nat, slot: nat)
    requires tier < TIERS
    ensures (slot * Size(tier)) % Size(tier) == 0
  {
    match tier
    case 0 => assert (slot * 16) % 16 == 0;
    case 1 => assert (slot * 32) % 32 == 0;
    case 2 => assert (slot * 64) % 64 == 0;
    case 3 => assert (slot * 128) % 128 == 0;
    case 4 => assert (slot * 256) % 256 == 0;
  }

  lemma PageOffset(page: nat, off: nat)
    requires off < 4096
    ensures (4096 * page + off) % 4096 == off
  {
  }

  lemma HandedProper(s: Slabs, size: nat)
    requires Inv(s) && TierFor(size) < TIERS && !Exhausted(s, size)
    ensures Proper(Handed(s, size)) && Size(Handed(s, size).tier) >= size
  {
    var c := TierFor(size);
    PageHolds(c);
    var i := FirstRoom(s.tiers[c], c);
    if i < |s.tiers[c]| {
      assert Has(s.tiers, c, i) && PageOk(At(s.tiers, c, i), c);
      RoomHasSlot(s.tiers[c][i], c);
    }
  }

  lemma ExhaustedIs(s: Slabs, size: nat, c: nat)
    requires Inv(s) && c == TierFor(size) < TIERS
    ensures (forall i :: 0 <= i < |s.tiers[c]| ==> s.tiers[c][i].used >= Total(c)) <==>
      forall i, k :: 0 <= i < |s.tiers[c]| && 0 <= k < Total(c) ==> At(s.tiers, c, i).bits[k]
    ensures Exhausted(s, size) <==>
      FirstFree(s.store.bits) == |s.store.bits| && forall i :: 0 <= i < |s.tiers[c]| ==> s.tiers[c][i].used >= Total(c)
  {
    forall i | 0 <= i < |s.tiers[c]|
      ensures s.tiers[c][i].used >= Total(c) <==> forall k :: 0 <= k < Total(c) ==> At(s.tiers, c, i).bits[k]
    {
      assert Has(s.tiers, c, i) && PageOk(At(s.tiers, c, i), c);
      RoomHasSlot(At(s.tiers, c, i), c);
    }
  }
}

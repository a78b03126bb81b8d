/** sys_mmap and sys_munmap over the page tables. */
module Mmap {
  import opened Options
  import opened PageBits
  import opened PageTables
  import opened Access
  import opened AddressSpaces
  import opened Demand
  import opened Sets
  import opened Vmm

  const WORD: nat := 0x1_0000_0000_0000_0000

  /** `(length + 0xFFF) / 0x1000` in 64-bit arithmetic. */
  function PageCount(length: nat): nat {
    (length + 0xFFF) % WORD / 0x1000
  }

  ghost predicate RangeUnmapped(vm: Vm, root: nat, v: nat, n: nat) {
    forall w: Vpn :: v <= w < v + n ==> FrameAt(vm, root, w).None?
  }

  /** Every last-level table of the range exists already. */
  ghost predicate TablesReady(vm: Vm, root: nat, v: nat, n: nat) {
    forall w: Vpn :: v <= w < v + n ==> TableAt(vm, root, PtOf(w)).Some?
  }

  /** Every page of the range maps to a page that was free in `vm0`. */
  ghost predicate AllFresh(vm0: Vm, vm: Vm, root: nat, v: nat, n: nat) {
    forall w: Vpn :: v <= w < v + n ==>
      && FrameAt(vm, root, w).Some?
      && FrameAt(vm, root, w).value < |vm0.bits|
      && !vm0.bits[FrameAt(vm, root, w).value]
  }

  ghost predicate SameOutside(vm0: Vm, vm: Vm, root: nat, v: nat, n: nat) {
    forall w: Vpn :: !(v <= w < v + n) ==> FrameAt(vm, root, w) == FrameAt(vm0, root, w)
  }

  // ----- What a range costs -----

  /** The pages of the range, in the order they are mapped. */
  ghost function Pages(v: nat, n: nat): seq<Vpn>
    requires v + n <= 0x8_0000_0000
  {
    seq(n, i requires 0 <= i < n => v + i)
  }

  /** Free pages it takes to map the first `k` pages of the range: each turn takes one, whether or not its page
      was mapped before, and a missing table is paid for once. */
  ghost function Cost(vm: Vm, root: nat, v: nat, k: nat): nat
    requires v + k <= 0x8_0000_0000
  {
    k + |Lacking(vm, root, Visited(Pages(v, k)))|
  }

  lemma PagesMore(v: nat, k: nat)
    requires v + k < 0x8_0000_0000
    ensures Pages(v, k + 1) == Pages(v, k) + [v + k]
  {
  }

  lemma CostNone(vm: Vm, root: nat, v: nat)
    requires v <= 0x8_0000_0000
    ensures Visited(Pages(v, 0)) == {} && Cost(vm, root, v, 0) == 0
  {
    assert Visited(Pages(v, 0)) == {};
    assert Lacking(vm, root, {}) == {};
  }

  lemma CostGrows(vm: Vm, root: nat, v: nat, i: nat, j: nat)
    requires i <= j && v + j <= 0x8_0000_0000
    ensures Cost(vm, root, v, i) + (j - i) <= Cost(vm, root, v, j)
  {
    forall w | w in Visited(Pages(v, i))
      ensures w in Visited(Pages(v, j))
    {
      assert Pages(v, j)[w - v] == w;
    }
    SubsetSize(Lacking(vm, root, Visited(Pages(v, i))), Lacking(vm, root, Visited(Pages(v, j))));
  }

  /** How many pages of the range the free pages cover. */
  ghost function Covered(vm: Vm, root: nat, v: nat, n: nat): (b: nat)
    requires v + n <= 0x8_0000_0000
    ensures b <= n && Cost(vm, root, v, b) <= FreeCount(vm.bits)
    ensures forall k :: b < k <= n ==> FreeCount(vm.bits) < Cost(vm, root, v, k)
  {
    if n == 0 then
      CostNone(vm, root, v);
      0
    else if Cost(vm, root, v, n) <= FreeCount(vm.bits) then n
    else Covered(vm, root, v, n - 1)
  }

  lemma CoveredIs(vm: Vm, root: nat, v: nat, n: nat, b: nat)
    requires b <= n && v + n <= 0x8_0000_0000
    requires Cost(vm, root, v, b) <= FreeCount(vm.bits)
    requires b < n ==> FreeCount(vm.bits) < Cost(vm, root, v, b + 1)
    ensures Covered(vm, root, v, n) == b
  {
    hide Cost, FreeCount;
    var c := Covered(vm, root, v, n);
    if b < c { CostGrows(vm, root, v, b + 1, c); }
  }

  // ----- What a range loses -----

  /** The frames that the first `k` pages of the range had. */
  ghost function OldFrames(vm: Vm, root: nat, v: nat, k: nat): set<nat> {
    set w: Vpn | v <= w < v + k && FrameAt(vm, root, w).Some? :: FrameAt(vm, root, w).value
  }

  lemma OldFramesMore(vm: Vm, root: nat, v: nat, k: nat)
    requires v + k < 0x8_0000_0000
    ensures OldFrames(vm, root, v, k + 1) ==
            OldFrames(vm, root, v, k) + match FrameAt(vm, root, v + k) case None => {} case Some(f) => {f}
  {
    var w: Vpn := v + k;
    var one := match FrameAt(vm, root, w) case None => {} case Some(f) => {f};
    forall x | x in OldFrames(vm, root, v, k) + one
      ensures x in OldFrames(vm, root, v, k + 1)
    {
      if x in one { assert FrameAt(vm, root, w) == Some(x); }
    }
  }

  /** `lost` is the frames that the first `k` pages had, and `strays` pages more that were free. */
  ghost predicate Loses(vm0: Vm, root: nat, v: nat, k: nat, strays: nat, lost: set<nat>) {
    var was := OldFrames(vm0, root, v, k);
    && was <= lost && |lost - was| == strays
    && (forall x :: x in lost && x !in was ==> x < |vm0.bits| && !vm0.bits[x])
  }

  // ----- What sys_mmap does to any range -----

  /** All of it told from the state before, where `b` is how many pages of the range the free pages cover.  The
      whole range: success, and every page is fresh.  All but the last page and some of its tables: success is
      reported, and the last page is not mapped.  Otherwise failure, and the first `b` pages are unmapped, those
      that were mapped before included.  Other mappings stay.  Lost are the frames that the first `b` pages had,
      and the page taken in vain if the free pages ran out on a page's tables. */
  ghost predicate MmapDone(vm0: Vm, vm: Vm, root: nat, v: nat, n: nat, ok: bool, base: set<nat>, lost: set<nat>)
    requires v + n <= 0x8_0000_0000
  {
    var free, b := FreeCount(vm0.bits), Covered(vm0, root, v, n);
    && Accounted(vm, root, base, lost) && |vm.bits| == |vm0.bits|
    && (ok <==> b == n || (b == n - 1 && free > Cost(vm0, root, v, b)))
    && SameOutside(vm0, vm, root, v, b)
    && (if ok then AllFresh(vm0, vm, root, v, b) else RangeUnmapped(vm, root, v, b))
    && (b < n && free > Cost(vm0, root, v, b) ==> FrameAt(vm0, root, v + b).None?)
    && Loses(vm0, root, v, b, if b < n && free > Cost(vm0, root, v, b) then 1 else 0, lost)
    && (TablesReady(vm0, root, v, n) ==> SameTables(vm0, vm, root) && lost == OldFrames(vm0, root, v, b))
  }

  /** The state after `k` turns that each backed their page. */
  ghost predicate Mapped(vm0: Vm, vm: Vm, root: nat, v: nat, k: nat, base: set<nat>, lost: set<nat>)
    requires v + k <= 0x8_0000_0000
  {
    && Accounted(vm, root, base, lost) && Keeps(vm0, vm)
    && SameOutside(vm0, vm, root, v, k) && AllFresh(vm0, vm, root, v, k)
    && HasWays(vm0, vm, root, Visited(Pages(v, k)))
    && FreeCount(vm.bits) + Cost(vm0, root, v, k) == FreeCount(vm0.bits)
    && lost == OldFrames(vm0, root, v, k)
  }

  /** The same with one more turn, which ran out of pages for its tables. */
  ghost predicate Spent(vm0: Vm, vm: Vm, root: nat, v: nat, k: nat, base: set<nat>, lost: set<nat>)
    requires v + k < 0x8_0000_0000
  {
    && Accounted(vm, root, base, lost) && |vm.bits| == |vm0.bits|
    && SameOutside(vm0, vm, root, v, k) && AllFresh(vm0, vm, root, v, k)
    && FrameAt(vm0, root, v + k).None?
    && Cost(vm0, root, v, k) < FreeCount(vm0.bits) < Cost(vm0, root, v, k + 1)
    && FreeCount(vm.bits) == 0
    && Loses(vm0, root, v, k, 1, lost)
  }

  ghost predicate Keeps(vm0: Vm, vm: Vm) {
    |vm.bits| == |vm0.bits| && forall x :: 0 <= x < |vm0.bits| && vm0.bits[x] ==> vm.bits[x]
  }

  /** The loop's state after `k` turns that all got a page; `spent` if the last one lost it. */
  ghost predicate MapLoop(vm0: Vm, vm: Vm, root: nat, v: nat, n: nat, k: nat, spent: bool, base: set<nat>,
                          lost: set<nat>)
    requires k <= n && v + n <= 0x8_0000_0000
  {
    && (if spent then k > 0 && Spent(vm0, vm, root, v, k - 1, base, lost) else Mapped(vm0, vm, root, v, k, base, lost))
    && (TablesReady(vm0, root, v, n) ==> !spent && SameTables(vm0, vm, root))
  }

  lemma LoopBooks(vm0: Vm, vm: Vm, root: nat, v: nat, n: nat, k: nat, spent: bool, base: set<nat>, lost: set<nat>)
    requires k <= n && v + n <= 0x8_0000_0000 && MapLoop(vm0, vm, root, v, n, k, spent, base, lost)
    ensures Accounted(vm, root, base, lost) && |vm.bits| == |vm0.bits|
  {
  }

  lemma MapLoopStart(vm: Vm, root: nat, v: nat, n: nat, base: set<nat>)
    requires Accounted(vm, root, base, {}) && v + n <= 0x8_0000_0000
    ensures MapLoop(vm, vm, root, v, n, 0, false, base, {})
  {
    CostNone(vm, root, v);
    assert forall q :: !OnSomeWay({}, q);
    assert OldFrames(vm, root, v, 0) == {};
  }

  /** The cost of one more page, seen from the state in which its turn comes. */
  lemma CostOneMore(vm0: Vm, vm: Vm, root: nat, v: nat, k: nat)
    requires v + k < 0x8_0000_0000 && HasWays(vm0, vm, root, Visited(Pages(v, k)))
    ensures Cost(vm0, root, v, k + 1) == Cost(vm0, root, v, k) + 1 + Missing(vm, root, v + k)
    ensures Visited(Pages(v, k + 1)) == Visited(Pages(v, k)) + {v + k}
  {
    PagesMore(v, k);
    VisitedMore(Pages(v, k), v + k);
    LackingOneMore(vm0, vm, root, Visited(Pages(v, k)), v + k);
    MissingIsAbsent(vm, root, PtOf(v + k));
  }

  lemma MappedStep(vm0: Vm, vm: Vm, vm': Vm, page: Option<nat>, root: nat, v: nat, k: nat, base: set<nat>,
                   lost: set<nat>, lost': set<nat>)
    requires v + k < 0x8_0000_0000 && Mapped(vm0, vm, root, v, k, base, lost) && page.Some?
    requires FreshStep(vm, vm', page, root, v + k, base, lost, lost')
    requires FreeCount(vm.bits) >= 1 + Missing(vm, root, v + k)
    ensures Mapped(vm0, vm', root, v, k + 1, base, lost')
  {
    hide Accounted, HasWays, GainsTables, Cost, OldFrames, AllFresh, Keeps, SameOutside, MapsOne, FreshLoss, FrameAt;
    TurnCost(vm, vm', page, root, v + k);
    TurnLoss(vm0, vm, page, root, v, k);
    CostOneMore(vm0, vm, root, v, k);
    WaysStep(vm0, vm, vm', root, Visited(Pages(v, k)), v + k);
    OldFramesMore(vm0, root, v, k);
    FreshMore(vm0, vm, vm', page, root, v, k);
  }

  lemma TurnCost(vm: Vm, vm': Vm, page: Option<nat>, root: nat, w: Vpn)
    requires MapsOne(vm, vm', page, root, w) && FreeCount(vm.bits) >= 1 + Missing(vm, root, w)
    ensures FreeCount(vm'.bits) == FreeCount(vm.bits) - 1 - Missing(vm, root, w)
  {
  }

  lemma TurnLoss(vm0: Vm, vm: Vm, page: Option<nat>, root: nat, v: nat, k: nat)
    requires v + k < 0x8_0000_0000 && SameOutside(vm0, vm, root, v, k) && page.Some?
    requires FreeCount(vm.bits) >= 1 + Missing(vm, root, v + k)
    ensures FreshLoss(vm, page, root, v + k) == match FrameAt(vm0, root, v + k) case None => {} case Some(f) => {f}
  {
  }

  lemma WaysStep(vm0: Vm, vm: Vm, vm': Vm, root: nat, pages: set<Vpn>, w: Vpn)
    requires HasWays(vm0, vm, root, pages) && GainsTables(vm, vm', root, PtOf(w))
    ensures HasWays(vm0, vm', root, pages + {w})
  {
    MoreWays(pages, w);
  }

  /** One more page, mapped to a page that was free: fresh pages stay fresh. */
  lemma FreshMore(vm0: Vm, vm: Vm, vm': Vm, page: Option<nat>, root: nat, v: nat, k: nat)
    requires v + k < 0x8_0000_0000 && MapsOne(vm, vm', page, root, v + k) && page.Some? && Keeps(vm0, vm)
    requires SameOutside(vm0, vm, root, v, k) && AllFresh(vm0, vm, root, v, k)
    requires FreeCount(vm.bits) >= 1 + Missing(vm, root, v + k)
    ensures Keeps(vm0, vm') && SameOutside(vm0, vm', root, v, k + 1) && AllFresh(vm0, vm', root, v, k + 1)
  {
  }

  lemma SpentStep(vm0: Vm, vm: Vm, vm': Vm, page: Option<nat>, root: nat, v: nat, k: nat, base: set<nat>,
                  lost: set<nat>, lost': set<nat>)
    requires v + k < 0x8_0000_0000 && Mapped(vm0, vm, root, v, k, base, lost) && page.Some?
    requires FreshStep(vm, vm', page, root, v + k, base, lost, lost')
    requires FreeCount(vm.bits) < 1 + Missing(vm, root, v + k)
    ensures Spent(vm0, vm', root, v, k, base, lost')
  {
    CostOneMore(vm0, vm, root, v, k);
    MappedLacksNone(vm, root, v + k);
    StrayIsNew(vm0, vm, root, v, k, page.value, base, lost);
    assert lost' - lost == {page.value};
  }

  /** A mapped page lacks no table. */
  lemma MappedLacksNone(vm: Vm, root: nat, w: Vpn)
    ensures FrameAt(vm, root, w).Some? ==> Missing(vm, root, w) == 0
  {
  }

  lemma StrayIsNew(vm0: Vm, vm: Vm, root: nat, v: nat, k: nat, page: nat, base: set<nat>, lost: set<nat>)
    requires v + k < 0x8_0000_0000 && Mapped(vm0, vm, root, v, k, base, lost)
    requires page < |vm.bits| && !vm.bits[page]
    ensures page !in lost && !vm0.bits[page]
  {
    assert Share(vm, root, base, lost, page);
  }

  lemma ReadyStep(vm0: Vm, vm: Vm, vm': Vm, page: Option<nat>, root: nat, v: nat, n: nat, k: nat,
                  base: set<nat>, lost: set<nat>, lost': set<nat>)
    requires v + n <= 0x8_0000_0000 && k < n && FreshStep(vm, vm', page, root, v + k, base, lost, lost')
    requires TablesReady(vm0, root, v, n) && SameTables(vm0, vm, root)
    ensures Missing(vm, root, v + k) == 0 && SameTables(vm0, vm', root)
  {
    var w: Vpn := v + k;
    assert TableAt(vm0, root, PtOf(w)).Some?;
  }

  lemma MapLoopStep(vm0: Vm, vm: Vm, vm': Vm, page: Option<nat>, root: nat, v: nat, n: nat, k: nat, spent: bool,
                    base: set<nat>, lost: set<nat>, lost': set<nat>)
      returns (spent': bool)
    requires v + n <= 0x8_0000_0000 && k < n && MapLoop(vm0, vm, root, v, n, k, spent, base, lost)
    requires FreshStep(vm, vm', page, root, v + k, base, lost, lost')
    ensures page.Some? ==> MapLoop(vm0, vm', root, v, n, k + 1, spent', base, lost')
    ensures page.None? ==> vm' == vm && lost' == lost && FreeCount(vm.bits) == 0
  {
    spent' := spent;
    if page.None? {
      assert lost + {} == lost;
    } else if FreeCount(vm.bits) >= 1 + Missing(vm, root, v + k) {
      MappedStep(vm0, vm, vm', page, root, v, k, base, lost, lost');
      if TablesReady(vm0, root, v, n) { ReadyStep(vm0, vm, vm', page, root, v, n, k, base, lost, lost'); }
    } else {
      spent' := true;
      SpentStep(vm0, vm, vm', page, root, v, k, base, lost, lost');
      if TablesReady(vm0, root, v, n) { ReadyStep(vm0, vm, vm', page, root, v, n, k, base, lost, lost'); }
    }
  }

  lemma MapLoopEnd(vm0: Vm, vm: Vm, root: nat, v: nat, n: nat, spent: bool, base: set<nat>, lost: set<nat>)
    requires v + n <= 0x8_0000_0000 && MapLoop(vm0, vm, root, v, n, n, spent, base, lost)
    ensures MmapDone(vm0, vm, root, v, n, true, base, lost)
  {
    hide Accounted, AllFresh, SameOutside, SameTables, HasWays, TablesReady, Loses, MmapDone, Cost, OldFrames;
    if spent {
      DoneAt(vm0, vm, root, v, n, n - 1, true, base, lost);
    } else {
      LosesNone(vm0, root, v, n, lost);
      DoneAt(vm0, vm, root, v, n, n, true, base, lost);
    }
  }

  lemma LosesNone(vm0: Vm, root: nat, v: nat, k: nat, lost: set<nat>)
    requires lost == OldFrames(vm0, root, v, k)
    ensures Loses(vm0, root, v, k, 0, lost)
  {
    assert lost - lost == {};
  }

  /** The outcome, given how many pages are covered. */
  lemma DoneAt(vm0: Vm, vm: Vm, root: nat, v: nat, n: nat, b: nat, ok: bool, base: set<nat>, lost: set<nat>)
    requires b <= n && v + n <= 0x8_0000_0000
    requires Cost(vm0, root, v, b) <= FreeCount(vm0.bits) && (b < n ==> FreeCount(vm0.bits) < Cost(vm0, root, v, b + 1))
    requires ok <==> b == n || (b == n - 1 && FreeCount(vm0.bits) > Cost(vm0, root, v, b))
    requires Accounted(vm, root, base, lost) && |vm.bits| == |vm0.bits|
    requires SameOutside(vm0, vm, root, v, b)
    requires if ok then AllFresh(vm0, vm, root, v, b) else RangeUnmapped(vm, root, v, b)
    requires b < n && FreeCount(vm0.bits) > Cost(vm0, root, v, b) ==> FrameAt(vm0, root, v + b).None?
    requires Loses(vm0, root, v, b, if b < n && FreeCount(vm0.bits) > Cost(vm0, root, v, b) then 1 else 0, lost)
    requires TablesReady(vm0, root, v, n) ==> SameTables(vm0, vm, root) && lost == OldFrames(vm0, root, v, b)
    ensures MmapDone(vm0, vm, root, v, n, ok, base, lost)
  {
    hide Accounted, AllFresh, SameOutside, SameTables, TablesReady, Loses, Cost, OldFrames, RangeUnmapped;
    CoveredIs(vm0, root, v, n, b);
  }

  // ----- Contents and rights -----

  /** Pages in use at the start keep their bytes, and the frames that the first `k` pages of the range have hold
      zeros. */
  ghost predicate Zeroed(vm0: Vm, vm: Vm, root: nat, v: nat, k: nat) {
    && |vm.data| == |vm0.data| == |vm0.bits|
    && (forall x :: 0 <= x < |vm0.bits| && vm0.bits[x] ==> vm.data[x] == vm0.data[x])
    && (forall w: Vpn :: v <= w < v + k && FrameAt(vm, root, w).Some? && FrameAt(vm, root, w).value < |vm.data| ==>
          vm.data[FrameAt(vm, root, w).value] == ZeroBytes())
  }

  lemma ZeroedStep(vm0: Vm, vm: Vm, vm': Vm, page: Option<nat>, root: nat, v: nat, k: nat)
    requires v + k < 0x8_0000_0000 && MapsOne(vm, vm', page, root, v + k) && page.Some?
    requires Zeroed(vm0, vm, root, v, k) && OwnsFrames(vm, root) && Keeps(vm0, vm)
    ensures Zeroed(vm0, vm', root, v, k + 1)
  {
    MappedLacksNone(vm, root, v + k);
  }

  // ----- The rollback -----

  /** After `b` turns of the rollback the first `b` pages of the range are unmapped. */
  ghost predicate RolledBack(vm0: Vm, vm1: Vm, vm: Vm, root: nat, v: nat, b: nat, base: set<nat>, lost: set<nat>) {
    && Accounted(vm, root, base, lost) && |vm.bits| == |vm0.bits|
    && SameTables(vm1, vm, root)
    && (forall w: Vpn :: FrameAt(vm, root, w) == if v <= w < v + b then None else FrameAt(vm1, root, w))
  }

  lemma RollbackStep(vm0: Vm, vm1: Vm, vm: Vm, vm': Vm, root: nat, v: nat, b: nat, base: set<nat>, lost: set<nat>)
    requires v + b < 0x8_0000_0000 && RolledBack(vm0, vm1, vm, root, v, b, base, lost)
    requires Releases(vm, vm', root, v + b) && Accounted(vm', root, base, lost)
    ensures RolledBack(vm0, vm1, vm', root, v, b + 1, base, lost)
  {
  }

  method RollBack(m: Mmu, root: nat, v: nat, k: nat, ghost vm0: Vm, ghost base: set<nat>, ghost lost: set<nat>)
    requires m.Valid() && v + k <= 0x8_0000_0000
    requires Accounted(m.State(), root, base, lost) && |m.State().bits| == |vm0.bits|
    modifies m, m.pmm, m.pmm.bitmap
    ensures m.Valid() && RolledBack(vm0, old(m.State()), m.State(), root, v, k, base, lost)
    ensures KeepsOpen(old(m.State()), m.State(), root)
  {
    hide AllOpen;
    ghost var vm1 := m.State();
    for b := 0 to k
      invariant m.Valid() && RolledBack(vm0, vm1, m.State(), root, v, b, base, lost)
      invariant KeepsOpen(vm1, m.State(), root)
    {
      ghost var vm := m.State();
      if AllOpen(vm, root) { ReleaseOpen(vm, root, v + b); }
      ReleaseFrames(vm, root, v + b);
      ReleaseAccounted(vm, root, v + b, base, lost);
      m.Release(root, v + b);
      RollbackStep(vm0, vm1, vm, m.State(), root, v, b, base, lost);
    }
  }

  lemma MapLoopAborted(vm0: Vm, vm1: Vm, vm: Vm, root: nat, v: nat, n: nat, k: nat, spent: bool, base: set<nat>,
                       lost: set<nat>)
    requires k < n && v + n <= 0x8_0000_0000
    requires MapLoop(vm0, vm1, root, v, n, k, spent, base, lost) && FreeCount(vm1.bits) == 0
    requires RolledBack(vm0, vm1, vm, root, v, k, base, lost)
    ensures MmapDone(vm0, vm, root, v, n, false, base, lost)
  {
    hide Accounted, AllFresh, SameOutside, HasWays, TablesReady, Loses, MmapDone, Cost, OldFrames;
    if spent {
      Undone(vm0, vm1, vm, root, v, k - 1, k, base, lost);
      DoneAt(vm0, vm, root, v, n, k - 1, false, base, lost);
    } else {
      CostGrows(vm0, root, v, k, k + 1);
      LosesNone(vm0, root, v, k, lost);
      Undone(vm0, vm1, vm, root, v, k, k, base, lost);
      DoneAt(vm0, vm, root, v, n, k, false, base, lost);
    }
  }

  /** The rollback of `k` turns of which `b` backed their page. */
  lemma Undone(vm0: Vm, vm1: Vm, vm: Vm, root: nat, v: nat, b: nat, k: nat, base: set<nat>, lost: set<nat>)
    requires b <= k <= b + 1 && v + k <= 0x8_0000_0000 && SameOutside(vm0, vm1, root, v, b)
    requires k > b ==> FrameAt(vm0, root, v + b).None?
    requires RolledBack(vm0, vm1, vm, root, v, k, base, lost)
    ensures SameOutside(vm0, vm, root, v, b) && RangeUnmapped(vm, root, v, b)
  {
    hide Accounted, SameTables, FrameAt;
  }

  // ----- The methods -----

  /** One turn of the mapping loop. */
  method Turn(m: Mmu, root: nat, v: nat, n: nat, k: nat, ghost vm0: Vm, ghost vm: Vm, ghost spent: bool,
              ghost base: set<nat>, ghost lost: set<nat>)
      returns (got: bool, ghost vm': Vm, ghost spent': bool, ghost lost': set<nat>)
    requires m.Valid() && m.State() == vm && v + n <= 0x8_0000_0000 && k < n
    requires MapLoop(vm0, vm, root, v, n, k, spent, base, lost)
    modifies m, m.pmm, m.pmm.bitmap
    ensures m.Valid() && m.State() == vm'
    ensures got ==> MapLoop(vm0, vm', root, v, n, k + 1, spent', base, lost')
    ensures !got ==> vm' == vm && spent' == spent && lost' == lost && FreeCount(vm.bits) == 0
    ensures KeepsOpen(vm, vm', root)
    ensures got && Zeroed(vm0, vm, root, v, k) && Keeps(vm0, vm) ==>
      Zeroed(vm0, vm', root, v, k + 1) && Keeps(vm0, vm')
  {
    hide Zeroed, Keeps, KeepsOpen, MapLoop, Share;
    LoopBooks(vm0, vm, root, v, n, k, spent, base, lost);
    var page;
    page, vm', lost' := m.MapFreshBooked(root, v + k, TABLE_FLAGS, vm, base, lost);
    spent' := MapLoopStep(vm0, vm, vm', page, root, v, n, k, spent, base, lost, lost');
    got := page.Some?;
    if !got { spent' := spent; }
    if got && Zeroed(vm0, vm, root, v, k) && Keeps(vm0, vm) {
      ZeroedStep(vm0, vm, vm', page, root, v, k);
      KeepsMore(vm0, vm, vm', page, root, v + k);
    }
  }

  lemma KeepsMore(vm0: Vm, vm: Vm, vm': Vm, page: Option<nat>, root: nat, v: Vpn)
    requires MapsOne(vm, vm', page, root, v) && Keeps(vm0, vm)
    ensures Keeps(vm0, vm')
  {
  }

  lemma ZeroedStart(vm: Vm, root: nat, v: nat)
    requires Sized(vm)
    ensures Zeroed(vm, vm, root, v, 0) && Keeps(vm, vm)
  {
  }

  /** Maps fresh pages over any range, undoing its own work if a page cannot be had. */
  method MapRange(m: Mmu, root: nat, v: nat, n: nat, ghost vm0: Vm, ghost base: set<nat>)
      returns (ok: bool, ghost vm: Vm, ghost lost: set<nat>)
    requires m.Valid() && v + n <= 0x8_0000_0000
    requires m.State() == vm0 && Accounted(vm0, root, base, {})
    modifies m, m.pmm, m.pmm.bitmap
    ensures m.Valid() && m.State() == vm && MmapDone(vm0, vm, root, v, n, ok, base, lost)
    ensures KeepsOpen(vm0, vm, root) && (ok ==> Zeroed(vm0, vm, root, v, n))
    ensures n == 0 ==> ok && vm == vm0
  {
    hide AllOpen, Zeroed, Keeps, MmapDone, MapLoop, Accounted;
    ghost var spent := false;
    vm, lost := vm0, {};
    MapLoopStart(vm0, root, v, n, base);
    ZeroedStart(vm0, root, v);
    for k := 0 to n
      invariant m.Valid() && m.State() == vm && MapLoop(vm0, vm, root, v, n, k, spent, base, lost)
      invariant KeepsOpen(vm0, vm, root) && Zeroed(vm0, vm, root, v, k) && Keeps(vm0, vm)
      invariant k == 0 ==> vm == vm0
    {
      var got;
      got, vm, spent, lost := Turn(m, root, v, n, k, vm0, vm, spent, base, lost);
      if !got {
        LoopBooks(vm0, vm, root, v, n, k, spent, base, lost);
        RollBack(m, root, v, k, vm0, base, lost);
        MapLoopAborted(vm0, vm, m.State(), root, v, n, k, spent, base, lost);
        return false, m.State(), lost;
      }
    }
    MapLoopEnd(vm0, vm, root, v, n, spent, base, lost);
    ok := true;
  }

  // ----- In bytes -----

  /** `x` lies in a page that a call on `length` bytes at `addr` deals with: the page of `addr`, and as many after
      it as it takes for `length` bytes counted from the start of that page. */
  predicate Reached(addr: nat, length: nat, x: nat) {
    addr / 4096 <= x / 4096 && 4096 * (x / 4096 - addr / 4096) < length
  }

  lemma ReachedIsInRange(addr: nat, length: nat, x: nat)
    requires length + 0xFFF < 0x1_0000_0000_0000_0000
    ensures Reached(addr, length, x) <==> addr / 4096 <= x / 4096 < addr / 4096 + PageCount(length)
  {
    var n, d := PageCount(length), x / 4096 - addr / 4096;
    assert 0x1000 * n <= length + 0xFFF < 0x1000 * n + 0x1000;
    if d < n { assert 4096 * d + 4096 <= 4096 * n; } else { assert 4096 * n <= 4096 * d; }
  }

  /** From a page boundary, these are exactly the pages that share a byte with the range. */
  lemma AlignedReach(addr: nat, length: nat, x: nat)
    requires addr % 4096 == 0
    ensures Reached(addr, length, x) <==> exists y: nat :: addr <= y < addr + length && y / 4096 == x / 4096
    ensures addr <= x < addr + length ==> Reached(addr, length, x)
  {
    var a, p := addr / 4096, x / 4096;
    assert addr == 4096 * a && 4096 * p <= x < 4096 * p + 4096;
    if Reached(addr, length, x) {
      assert 4096 * p / 4096 == p;
      assert addr <= 4096 * p < addr + length;
    }
    forall y: nat | addr <= y < addr + length && y / 4096 == p
      ensures Reached(addr, length, x)
    {
      assert 4096 * p <= y < 4096 * p + 4096;
      assert 4096 * a < 4096 * (p + 1);
    }
  }

  /** From elsewhere, the pages reached hold the whole range if and only if what precedes `addr` in its page leaves
      room for it. */
  lemma UnalignedReach(addr: nat, length: nat, k: nat)
    requires 0 < length && 4096 * (k - 1) < length <= 4096 * k
    ensures (forall x: nat :: addr <= x < addr + length ==> Reached(addr, length, x)) <==>
      addr % 4096 + length <= 4096 * k
  {
    var a := addr / 4096;
    assert addr == 4096 * a + addr % 4096;
    var last := addr + length - 1;
    assert 4096 * (last / 4096) <= last < 4096 * (last / 4096) + 4096;
    if addr % 4096 + length <= 4096 * k {
      forall x: nat | addr <= x < addr + length
        ensures Reached(addr, length, x)
      {
        assert 4096 * (x / 4096) <= x < 4096 * (x / 4096) + 4096;
        assert 4096 * a < 4096 * (x / 4096 + 1);
        assert 4096 * (x / 4096) < 4096 * (a + k);
      }
    } else {
      assert 4096 * (last / 4096 + 1) > 4096 * (a + k);
      assert !Reached(addr, length, last);
    }
  }

  /** The byte reads as zero, from a page that was free before. */
  ghost predicate FreshByte(vm0: Vm, vm: Vm, root: nat, x: nat) {
    var phys := Translate(vm, root, x);
    && phys % 4096 == x % 4096 && 0 < phys / 4096 < |vm0.bits| == |vm.data|
    && !vm0.bits[phys / 4096] && vm.data[phys / 4096][phys % 4096] == 0
  }

  /** Every byte reached is fresh, and every other address means what it did. */
  ghost predicate BytesMapped(vm0: Vm, vm: Vm, root: nat, addr: nat, length: nat) {
    forall x: nat :: x < USER_END ==>
      if Reached(addr, length, x) then FreshByte(vm0, vm, root, x)
      else Translate(vm, root, x) == Translate(vm0, root, x)
  }

  /** The free pages cover the pages reached and the tables they lack. */
  ghost predicate Suffices(vm: Vm, root: nat, addr: nat, length: nat) {
    exists k: nat :: 4096 * (k - 1) < length <= 4096 * k && addr / 4096 + k <= 0x8_0000_0000
                     && Cost(vm, root, addr / 4096, k) <= FreeCount(vm.bits)
  }

  lemma CountIs(length: nat, k: nat)
    requires length + 0xFFF < 0x1_0000_0000_0000_0000 && 4096 * (k - 1) < length <= 4096 * k
    ensures PageCount(length) == k
  {
    var n := PageCount(length);
    assert 0x1000 * n <= length + 0xFFF < 0x1000 * n + 0x1000;
  }

  /** What a call that has its pages does, in bytes. */
  lemma MmapBytes(vm0: Vm, vm: Vm, root: nat, addr: nat, length: nat, ok: bool, base: set<nat>, lost: set<nat>)
    requires 0 < length && length + 0xFFF < 0x1_0000_0000_0000_0000
    requires addr / 4096 + PageCount(length) <= 0x8_0000_0000 && Suffices(vm0, root, addr, length)
    requires WellFormed(vm0, root)
    requires MmapDone(vm0, vm, root, addr / 4096, PageCount(length), ok, base, lost)
    requires ok ==> Zeroed(vm0, vm, root, addr / 4096, PageCount(length))
    ensures ok && BytesMapped(vm0, vm, root, addr, length)
  {
    var v, n := addr / 4096, PageCount(length);
    var k: nat :| 4096 * (k - 1) < length <= 4096 * k && v + k <= 0x8_0000_0000
                  && Cost(vm0, root, v, k) <= FreeCount(vm0.bits);
    CountIs(length, k);
    hide Cost, FreeCount, Accounted, WellFormed, FrameAt, Translate, Loses;
    CoveredIs(vm0, root, v, n, n);
    forall x: nat | x < USER_END
      ensures if Reached(addr, length, x) then FreshByte(vm0, vm, root, x)
              else Translate(vm, root, x) == Translate(vm0, root, x)
    {
      ReachedIsInRange(addr, length, x);
      ByteOf(vm0, vm, root, v, n, x, base, lost);
    }
  }

  lemma ByteOf(vm0: Vm, vm: Vm, root: nat, v: nat, n: nat, x: nat, base: set<nat>, lost: set<nat>)
    requires x < USER_END && WellFormed(vm0, root) && Sized(vm0) && Accounted(vm, root, base, lost)
    requires SameOutside(vm0, vm, root, v, n) && AllFresh(vm0, vm, root, v, n) && Zeroed(vm0, vm, root, v, n)
    ensures if v <= x / 4096 < v + n then FreshByte(vm0, vm, root, x)
            else Translate(vm, root, x) == Translate(vm0, root, x)
  {
    hide WellFormed, Translate, FrameAt, PtOf;
    var w: Vpn := x / 4096;
    TranslateIsFrame(vm, root, x);
    TranslateIsFrame(vm0, root, x);
    if v <= w < v + n {
      PageAndOffset(FrameAt(vm, root, w).value, x % 4096);
      assert Sized(vm0) && OwnsFrames(vm, root);
    } else {
      assert FrameAt(vm, root, w) == FrameAt(vm0, root, w);
    }
  }

  lemma PageAndOffset(f: nat, o: nat)
    requires o < 4096
    ensures (f * 4096 + o) / 4096 == f && (f * 4096 + o) % 4096 == o
  {
  }

  // ----- The system calls -----

  /** The first address of the range sys_mmap uses. */
  function MmapBase(addr: nat, heapEnd: nat): nat {
    if addr == 0 then heapEnd + 0x100000 else addr
  }

  /** sys_mmap for a process whose CR3 is `root` and whose heap ends at `heapEnd`; the range it maps
      lies in the lower half.  Returns the address, or -1. */
  method SysMmap(m: Mmu, root: nat, addr: nat, length: nat, heapEnd: nat) returns (r: int, ghost lost: set<nat>)
    requires m.Valid()
    requires root != 0 ==> WellFormed(m.State(), root) && OwnsFrames(m.State(), root)
    requires MmapBase(addr, heapEnd) + PageCount(length) * 0x1000 <= USER_END
    modifies m, m.pmm, m.pmm.bitmap
    ensures m.Valid()
    ensures root == 0 || length == 0 ==> r == -1 && m.State() == old(m.State())
    ensures r == -1 || r == if addr == 0 then heapEnd + 0x100000 else addr
    ensures root != 0 && length != 0 ==>
              MmapDone(old(m.State()), m.State(), root, MmapBase(addr, heapEnd) / 4096, PageCount(length), r != -1,
                       Elsewhere(old(m.State()), root), lost)
    // in bytes: with free pages enough the call succeeds and every byte is fresh
    ensures var start := if addr == 0 then heapEnd + 0x100000 else addr;
            root != 0 && 0 < length && length + 0xFFF < 0x1_0000_0000_0000_0000
              && Suffices(old(m.State()), root, start, length) ==>
              r == start && BytesMapped(old(m.State()), m.State(), root, start, length)
    // the sum wraps: success is reported and nothing is mapped
    ensures root != 0 && length < 0x1_0000_0000_0000_0000 <= length + 0xFFF ==>
              r != -1 && m.State() == old(m.State())
    // in a space whose entries are all open they still are, so that every page mapped is the user's to write
    ensures AllOpen(old(m.State()), root) ==> AllOpen(m.State(), root) && AllWritable(m.State(), root)
  {
    hide AllOpen, AllWritable, MmapDone, Zeroed, Suffices, BytesMapped, Accounted, FrameAt;
    if AllOpen(m.State(), root) { OpenIsWritable(m.State(), root); }
    if root == 0 { return -1, {}; }
    OwnedIsUsed(m.State(), root);
    if length == 0 { return -1, {}; }
    var start := MmapBase(addr, heapEnd);
    var ok;
    ghost var vm0, vm := m.State(), m.State();
    ok, vm, lost := MapRange(m, root, start / 4096, PageCount(length), vm0, Elsewhere(vm0, root));
    if AllOpen(vm, root) { OpenIsWritable(vm, root); }
    if length + 0xFFF < 0x1_0000_0000_0000_0000 && Suffices(vm0, root, start, length) {
      MmapBytes(vm0, vm, root, start, length, ok, Elsewhere(vm0, root), lost);
    }
    if !ok { return -1, lost; }
    return start, lost;
  }

  /** What sys_munmap promises: the range is unmapped, every frame it had is free, and nothing else
      changes. */
  ghost predicate MunmapDone(vm0: Vm, vm: Vm, root: nat, v: nat, n: nat) {
    && WellFormed(vm, root) && OwnsFrames(vm, root)
    && SameTables(vm0, vm, root) && |vm.bits| == |vm0.bits| && |vm.mem| == |vm.data| && vm.data == vm0.data
    && (forall w: Vpn :: FrameAt(vm, root, w) == if v <= w < v + n then None else FrameAt(vm0, root, w))
    && (forall x :: 0 <= x < |vm.bits| ==> (vm.bits[x] <==> vm0.bits[x] && !FrameOfRange(vm0, root, v, n, x)))
  }

  ghost predicate FrameOfRange(vm: Vm, root: nat, v: nat, n: nat, x: nat) {
    exists w: Vpn :: v <= w < v + n && FrameAt(vm, root, w) == Some(x)
  }

  lemma FrameOfRangeStep(vm: Vm, root: nat, v: nat, n: nat, x: nat)
    requires v + n < 0x8_0000_0000
    ensures FrameOfRange(vm, root, v, n + 1, x) <==>
      FrameOfRange(vm, root, v, n, x) || FrameAt(vm, root, v + n) == Some(x)
  {
  }

  lemma MunmapStep(vm0: Vm, vm: Vm, vm': Vm, root: nat, v: nat, k: nat)
    requires v + k < 0x8_0000_0000 && MunmapDone(vm0, vm, root, v, k)
    requires Releases(vm, vm', root, v + k) && OwnsFrames(vm', root)
    ensures MunmapDone(vm0, vm', root, v, k + 1)
  {
    assert FrameAt(vm, root, v + k) == FrameAt(vm0, root, v + k);
    forall x: nat | x < |vm.bits|
      ensures vm'.bits[x] <==> vm0.bits[x] && !FrameOfRange(vm0, root, v, k + 1, x)
    {
      FrameOfRangeStep(vm0, root, v, k, x);
    }
  }

  lemma MunmapNone(vm: Vm, root: nat, v: nat)
    requires WellFormed(vm, root) && OwnsFrames(vm, root)
    ensures MunmapDone(vm, vm, root, v, 0)
  {
  }

  /** One turn of the unmapping loop. */
  method UnmapTurn(m: Mmu, root: nat, v: nat, k: nat, ghost vm0: Vm)
    requires m.Valid() && v + k < 0x8_0000_0000 && MunmapDone(vm0, m.State(), root, v, k)
    modifies m, m.pmm, m.pmm.bitmap
    ensures m.Valid() && MunmapDone(vm0, m.State(), root, v, k + 1)
    ensures KeepsOpen(old(m.State()), m.State(), root)
  {
    hide AllOpen;
    ghost var vm := m.State();
    if AllOpen(vm, root) { ReleaseOpen(vm, root, v + k); }
    ReleaseFrames(vm, root, v + k);
    ReleaseOwns(vm, root, v + k);
    m.Release(root, v + k);
    MunmapStep(vm0, vm, m.State(), root, v, k);
  }

  method SysMunmap(m: Mmu, root: nat, addr: nat, length: nat) returns (r: int)
    requires m.Valid()
    requires root != 0 ==> WellFormed(m.State(), root) && OwnsFrames(m.State(), root)
    requires addr + PageCount(length) * 0x1000 <= USER_END
    modifies m, m.pmm, m.pmm.bitmap
    ensures m.Valid()
    ensures root == 0 ==> r == -1 && m.State() == old(m.State())
    ensures root != 0 ==> r == 0 && MunmapDone(old(m.State()), m.State(), root, addr / 4096, PageCount(length))
    // in bytes, and where the sum wraps
    ensures root != 0 && length + 0xFFF < 0x1_0000_0000_0000_0000 ==>
              BytesUnmapped(old(m.State()), m.State(), root, addr, length)
    ensures root != 0 && length < 0x1_0000_0000_0000_0000 <= length + 0xFFF ==> m.State() == old(m.State())
    ensures KeepsOpen(old(m.State()), m.State(), root)
  {
    hide AllOpen, BytesUnmapped, FrameAt, MunmapDone;
    if root == 0 { return -1; }
    var n, v := PageCount(length), addr / 4096;
    ghost var vm0 := m.State();
    MunmapNone(vm0, root, v);
    for k := 0 to n
      invariant m.Valid() && MunmapDone(vm0, m.State(), root, v, k)
      invariant KeepsOpen(vm0, m.State(), root) && (k == 0 ==> m.State() == vm0)
    {
      UnmapTurn(m, root, v, k, vm0);
    }
    if length + 0xFFF < 0x1_0000_0000_0000_0000 { MunmapBytes(vm0, m.State(), root, addr, length); }
    return 0;
  }

  /** No byte reached is mapped, and every other address means what it did. */
  ghost predicate BytesUnmapped(vm0: Vm, vm: Vm, root: nat, addr: nat, length: nat) {
    forall x: nat :: x < USER_END ==>
      Translate(vm, root, x) == if Reached(addr, length, x) then 0 else Translate(vm0, root, x)
  }

  lemma MunmapBytes(vm0: Vm, vm: Vm, root: nat, addr: nat, length: nat)
    requires length + 0xFFF < 0x1_0000_0000_0000_0000 && WellFormed(vm0, root)
    requires MunmapDone(vm0, vm, root, addr / 4096, PageCount(length))
    ensures BytesUnmapped(vm0, vm, root, addr, length)
  {
    forall x: nat | x < USER_END
      ensures Translate(vm, root, x) == if Reached(addr, length, x) then 0 else Translate(vm0, root, x)
    {
      ReachedIsInRange(addr, length, x);
      TranslateIsFrame(vm0, root, x);
      TranslateIsFrame(vm, root, x);
    }
  }

  // ---- Laws ----

  /** Over an unmapped range the cost is what a walk over its pages needs. */
  lemma CostOfUnmapped(vm: Vm, root: nat, v: nat, n: nat, k: nat)
    requires k <= n && v + n <= 0x8_0000_0000 && RangeUnmapped(vm, root, v, n)
    ensures Cost(vm, root, v, k) == NeedOf(vm, root, Pages(v, k))
  {
    UnmappedCount(vm, root, v, n, k);
  }

  lemma {:induction false} UnmappedCount(vm: Vm, root: nat, v: nat, n: nat, k: nat)
    requires k <= n && v + n <= 0x8_0000_0000 && RangeUnmapped(vm, root, v, n)
    ensures |Unmapped(vm, root, Visited(Pages(v, k)))| == k
    decreases k
  {
    if k == 0 {
      assert Unmapped(vm, root, Visited(Pages(v, 0))) == {};
    } else {
      UnmappedCount(vm, root, v, n, k - 1);
      PagesMore(v, k - 1);
      VisitedMore(Pages(v, k - 1), v + k - 1);
      UnmappedMore(vm, root, Visited(Pages(v, k - 1)), v + k - 1);
    }
  }

  /** The outcome of an mmap, told from the free pages and the tables the range lacks: all its pages fresh, or
      success reported with the last page unmapped, or failure. */
  lemma MmapOutcome(vm0: Vm, vm: Vm, root: nat, v: nat, n: nat, ok: bool, base: set<nat>, lost: set<nat>)
    requires 0 < n && v + n <= 0x8_0000_0000 && MmapDone(vm0, vm, root, v, n, ok, base, lost)
    ensures
      var free, need, less := FreeCount(vm0.bits), Cost(vm0, root, v, n), Cost(vm0, root, v, n - 1);
      && (ok && AllFresh(vm0, vm, root, v, n) <==> free >= need)
      && (ok && FrameAt(vm, root, v + n - 1).None? <==> less < free < need)
      && (!ok <==> free <= less)
  {
    CoveredSplit(vm0, root, v, n);
    LastPage(vm0, vm, root, v, n, ok, base, lost);
  }

  /** Where success and a missing last page come from. */
  lemma LastPage(vm0: Vm, vm: Vm, root: nat, v: nat, n: nat, ok: bool, base: set<nat>, lost: set<nat>)
    requires 0 < n && v + n <= 0x8_0000_0000 && MmapDone(vm0, vm, root, v, n, ok, base, lost)
    ensures ok && AllFresh(vm0, vm, root, v, n) <==> Covered(vm0, root, v, n) == n
    ensures ok && FrameAt(vm, root, v + n - 1).None? <==> ok && Covered(vm0, root, v, n) == n - 1
  {
    LastIsFresh(vm0, vm, root, v, n);
    if Covered(vm0, root, v, n) == n - 1 {
      assert FrameAt(vm, root, v + n - 1) == FrameAt(vm0, root, v + n - 1);
    }
  }

  lemma CoveredSplit(vm: Vm, root: nat, v: nat, n: nat)
    requires 0 < n && v + n <= 0x8_0000_0000
    ensures
      var free, b := FreeCount(vm.bits), Covered(vm, root, v, n);
      && Cost(vm, root, v, n - 1) < Cost(vm, root, v, n)
      && (b == n <==> free >= Cost(vm, root, v, n))
      && (b == n - 1 && free > Cost(vm, root, v, b) <==> Cost(vm, root, v, n - 1) < free < Cost(vm, root, v, n))
  {
    CostGrows(vm, root, v, n - 1, n);
    var b := Covered(vm, root, v, n);
    if b < n - 1 { CostGrows(vm, root, v, b + 1, n - 1); }
  }

  lemma LastIsFresh(vm0: Vm, vm: Vm, root: nat, v: nat, n: nat)
    requires 0 < n && v + n <= 0x8_0000_0000
    ensures AllFresh(vm0, vm, root, v, n) ==> FrameAt(vm, root, v + n - 1).Some?
  {
  }

  /** Over a range that was unmapped at most one page is lost. */
  lemma UnmappedLosesOne(vm0: Vm, root: nat, v: nat, n: nat, strays: nat, lost: set<nat>)
    requires RangeUnmapped(vm0, root, v, n) && Loses(vm0, root, v, n, strays, lost)
    ensures |lost| == strays
  {
    assert OldFrames(vm0, root, v, n) == {};
    assert lost - {} == lost;
  }

  /** What a failed mmap does to the range: it leaves every mapping as it was if and only if the pages its turns
      had got to were unmapped; a page that was mapped is unmapped, and its frame is lost. */
  lemma FailedMmapMappings(vm0: Vm, vm: Vm, root: nat, v: nat, n: nat, base: set<nat>, lost: set<nat>)
    requires v + n <= 0x8_0000_0000 && MmapDone(vm0, vm, root, v, n, false, base, lost)
    ensures
      var b := Covered(vm0, root, v, n);
      && (SameFrames(vm0, vm, root) <==> RangeUnmapped(vm0, root, v, b))
      && (forall w: Vpn :: v <= w < v + b && FrameAt(vm0, root, w).Some? ==>
            FrameAt(vm, root, w).None? && FrameAt(vm0, root, w).value in lost)
  {
    var b := Covered(vm0, root, v, n);
    if SameFrames(vm0, vm, root) {
      forall w: Vpn | v <= w < v + b
        ensures FrameAt(vm0, root, w).None?
      {
        assert FrameAt(vm, root, w).None?;
      }
    }
  }

  /** With its tables in place, a failed mmap leaves the bitmap as it was, and if its range was unmapped the
      mappings too. */
  lemma FailedMmapRestores(vm0: Vm, vm: Vm, root: nat, v: nat, n: nat, lost: set<nat>)
    requires v + n <= 0x8_0000_0000
    requires WellFormed(vm0, root) && OwnsFrames(vm0, root)
    requires TablesReady(vm0, root, v, n) && MmapDone(vm0, vm, root, v, n, false, Elsewhere(vm0, root), lost)
    ensures vm.bits == vm0.bits
    ensures RangeUnmapped(vm0, root, v, n) ==> SameFrames(vm0, vm, root)
  {
    var b := Covered(vm0, root, v, n);
    if RangeUnmapped(vm0, root, v, n) { FailedMmapMappings(vm0, vm, root, v, n, Elsewhere(vm0, root), lost); }
    OwnedIsUsed(vm0, root);
    forall x: nat | x < |vm0.bits|
      ensures vm.bits[x] == vm0.bits[x]
    {
      assert Share(vm0, root, Elsewhere(vm0, root), {}, x) && Share(vm, root, Elsewhere(vm0, root), lost, x);
      SameIsTable(vm0, vm, root, x);
      FramesLeft(vm0, vm, root, v, b, x);
    }
  }

  lemma FramesLeft(vm0: Vm, vm: Vm, root: nat, v: nat, b: nat, x: nat)
    requires SameOutside(vm0, vm, root, v, b) && RangeUnmapped(vm, root, v, b)
    ensures IsFrame(vm, root, x) || x in OldFrames(vm0, root, v, b) <==> IsFrame(vm0, root, x)
  {
    if w: Vpn :| FrameAt(vm, root, w) == Some(x) {
      assert FrameAt(vm0, root, w) == Some(x);
    }
    if w: Vpn :| FrameAt(vm0, root, w) == Some(x) {
      if v <= w < v + b {
        assert x in OldFrames(vm0, root, v, b);
      } else {
        assert FrameAt(vm, root, w) == Some(x);
      }
    }
  }

  /** A space just created, with one to three pages left: mmap of one page reports success and maps nothing. */
  lemma FreshSpaceLosesPage(vm0: Vm, vm: Vm, root: nat, v: Vpn, ok: bool, base: set<nat>, lost: set<nat>)
    requires forall p: Path :: !p.Root? ==> TableAt(vm0, root, p).None?
    requires 1 <= FreeCount(vm0.bits) <= 3 && MmapDone(vm0, vm, root, v, 1, ok, base, lost)
    ensures ok && FrameAt(vm, root, v).None? && |lost| == 1
  {
    NothingMapped(vm0, root, v);
    OnePageCost(vm0, root, v);
    UnmappedLosesOne(vm0, root, v, 0, 1, lost);
  }

  lemma OnePageCost(vm: Vm, root: nat, v: Vpn)
    requires forall p: Path :: !p.Root? ==> TableAt(vm, root, p).None?
    ensures Cost(vm, root, v, 0) == 0 && Cost(vm, root, v, 1) == 4
  {
    CostNone(vm, root, v);
    assert Pages(v, 1) == [v] && Visited([v]) == {v};
    WayToPt(PtOf(v));
    LackingAll(vm, root, v);
  }

  lemma NothingMapped(vm: Vm, root: nat, v: Vpn)
    requires forall p: Path :: !p.Root? ==> TableAt(vm, root, p).None?
    ensures RangeUnmapped(vm, root, v, 1)
  {
    assert TableAt(vm, root, PtOf(v)).None?;
  }

  /** That state exists, and any mmap of one page from it loses the page. */
  lemma SmallMachineLosesPage(vm0: Vm, root: nat, vm: Vm, ok: bool, lost: set<nat>)
    requires (vm0, root) == SmallMachine()
    requires MmapDone(vm0, vm, root, 0x400, 1, ok, Elsewhere(vm0, root), lost)
    ensures WellFormed(vm0, root) && OwnsFrames(vm0, root) && RangeUnmapped(vm0, root, 0x400, 1)
    ensures ok && FrameAt(vm, root, 0x400).None?
  {
    SmallMachineState();
    NothingMapped(vm0, root, 0x400);
    FreshSpaceLosesPage(vm0, vm, root, 0x400, ok, Elsewhere(vm0, root), lost);
  }

  /** A seven-page machine: page 0x400 of a new space is mapped, and one page is left. */
  ghost function CrowdedMachine(): (Vm, nat) {
    var start := Vm([true] + seq(6, _ => false), seq(7, _ => ZeroTable()), seq(7, _ => ZeroBytes()));
    var (vm1, root) := CreateSpace(start, 0);
    (MapFresh(vm1, root, 0x400, TABLE_FLAGS).0, root)
  }

  lemma SixFree(bits: seq<bool>)
    requires bits == [true] + seq(6, _ => false)
    ensures FreeCount(bits) == 6
  {
    assert FreeSet(bits) == {1, 2, 3, 4, 5, 6};
  }

  lemma CreateTakesOne(vm: Vm, current: nat)
    requires Sized(vm) && FreeCount(vm.bits) > 0
    ensures FreeCount(CreateSpace(vm, current).0.bits) == FreeCount(vm.bits) - 1
  {
    NoneFree(vm.bits);
    SetBit(vm.bits, FirstFree(vm.bits));
  }

  lemma CrowdedMachineState()
    ensures
      var (vm0, root) := CrowdedMachine();
      && WellFormed(vm0, root) && OwnsFrames(vm0, root) && FreeCount(vm0.bits) == 1
      && FrameAt(vm0, root, 0x400).Some? && TableAt(vm0, root, PtOf(0x400)).Some?
  {
    var start := Vm([true] + seq(6, _ => false), seq(7, _ => ZeroTable()), seq(7, _ => ZeroBytes()));
    SixFree(start.bits);
    CreateTakesOne(start, 0);
    CreateAccounted(start, 0);
    var (vm1, root) := CreateSpace(start, 0);
    var v: Vpn := 0x400;
    forall p: Path | !p.Root?
      ensures TableAt(vm1, root, p).None?
    {
      NoTableBelow(vm1, root, p);
    }
    ThreeMissing(vm1, root, v);
    MapFreshFrames(vm1, root, v, TABLE_FLAGS);
    MapFreshAccounted(vm1, root, v, TABLE_FLAGS, UsedSet(start.bits), {});
    assert FrameAt(MapFresh(vm1, root, v, TABLE_FLAGS).0, root, v).Some?;
  }

  lemma ThreeMissing(vm: Vm, root: nat, v: Vpn)
    requires forall p: Path :: !p.Root? ==> TableAt(vm, root, p).None?
    ensures Missing(vm, root, v) == 3
  {
    var p := PtOf(v);
    assert Parent(p) == Pd(p.i, p.j) && Parent(Parent(p)) == Pdpt(p.i) && Parent(Pdpt(p.i)) == Root;
    assert MissingTables(vm, root, Pdpt(p.i)) == 1 + MissingTables(vm, root, Root);
    assert MissingTables(vm, root, Pd(p.i, p.j)) == 1 + MissingTables(vm, root, Pdpt(p.i));
  }

  /** One page left and the table there: mmap of two pages, of which the first was mapped, fails and takes that
      mapping with it.  The bitmap is as it was, so the frame is lost.  CrowdedMachineState has such a state. */
  lemma FailedMmapDestroys(vm0: Vm, root: nat, vm: Vm, v: Vpn, ok: bool, lost: set<nat>)
    requires v + 2 <= 0x8_0000_0000 && WellFormed(vm0, root) && OwnsFrames(vm0, root) && FreeCount(vm0.bits) == 1
    requires FrameAt(vm0, root, v).Some? && TableAt(vm0, root, PtOf(v)).Some? && PtOf(v + 1) == PtOf(v)
    requires MmapDone(vm0, vm, root, v, 2, ok, Elsewhere(vm0, root), lost)
    ensures !ok && vm.bits == vm0.bits && FrameAt(vm, root, v).None? && FrameAt(vm0, root, v).value in lost
  {
    assert TablesReady(vm0, root, v, 2) by {
      forall w: Vpn | v <= w < v + 2
        ensures TableAt(vm0, root, PtOf(w)).Some?
      {
        assert w == v || w == v + 1;
      }
    }
    hide Accounted, WellFormed, OwnsFrames, TablesReady, Cost, Loses, SameTables, FrameAt;
    ReadyCost(vm0, root, v, 2, 1);
    ReadyCost(vm0, root, v, 2, 2);
    CoveredIs(vm0, root, v, 2, 1);
    FailedMmapRestores(vm0, vm, root, v, 2, lost);
    FailedMmapMappings(vm0, vm, root, v, 2, Elsewhere(vm0, root), lost);
  }

  /** With its tables in place, a range costs its pages. */
  lemma ReadyCost(vm: Vm, root: nat, v: nat, n: nat, k: nat)
    requires k <= n && v + n <= 0x8_0000_0000 && TablesReady(vm, root, v, n)
    ensures Cost(vm, root, v, k) == k
  {
    forall w: Vpn, q | v <= w < v + n && q in WayTo(PtOf(w))
      ensures TableAt(vm, root, q).Some?
    {
      WayExists(vm, root, PtOf(w), q);
    }
    assert Lacking(vm, root, Visited(Pages(v, k))) == {};
  }

  lemma MunmapAccounted(vm1: Vm, vm2: Vm, root: nat, v: nat, n: nat, base: set<nat>, lost: set<nat>)
    requires Accounted(vm1, root, base, lost) && MunmapDone(vm1, vm2, root, v, n)
    ensures Accounted(vm2, root, base, lost)
  {
    forall x: nat | x < |vm1.bits|
      ensures Share(vm2, root, base, lost, x)
    {
      assert Share(vm1, root, base, lost, x);
      SameIsTable(vm1, vm2, root, x);
      FramesAfterMunmap(vm1, vm2, root, v, n, x);
    }
  }

  lemma FramesAfterMunmap(vm1: Vm, vm2: Vm, root: nat, v: nat, n: nat, x: nat)
    requires WellFormed(vm1, root) && OwnsFrames(vm1, root) && MunmapDone(vm1, vm2, root, v, n)
    ensures IsFrame(vm2, root, x) <==> IsFrame(vm1, root, x) && !FrameOfRange(vm1, root, v, n, x)
    ensures FrameOfRange(vm1, root, v, n, x) ==> IsFrame(vm1, root, x) && !IsTable(vm1, root, x)
  {
    if w: Vpn :| v <= w < v + n && FrameAt(vm1, root, w) == Some(x) {
      forall u: Vpn ensures FrameAt(vm2, root, u) != Some(x) {
        assert FrameAt(vm1, root, u) == Some(x) ==> u == w;
      }
    } else if w: Vpn :| FrameAt(vm1, root, w) == Some(x) {
      assert FrameAt(vm2, root, w) == Some(x);
    }
    if w: Vpn :| FrameAt(vm2, root, w) == Some(x) {
      assert FrameAt(vm1, root, w) == Some(x);
    }
  }

  /** munmap undoes mmap: every mapping is as before, and the pages still in use beyond those at the
      start are the tables that were created and at most one lost page; with the tables in place the
      bitmap itself is restored. */
  lemma MunmapUndoesMmap(vm0: Vm, vm1: Vm, vm2: Vm, root: nat, v: nat, n: nat, lost: set<nat>)
    requires v + n <= 0x8_0000_0000
    requires WellFormed(vm0, root) && OwnsFrames(vm0, root) && RangeUnmapped(vm0, root, v, n)
    requires MmapDone(vm0, vm1, root, v, n, true, Elsewhere(vm0, root), lost) && MunmapDone(vm1, vm2, root, v, n)
    ensures SameFrames(vm0, vm2, root)
    ensures Accounted(vm2, root, Elsewhere(vm0, root), lost) && |lost| <= 1
    ensures TablesReady(vm0, root, v, n) ==> vm2.bits == vm0.bits && SameTables(vm0, vm2, root)
  {
    var b := Covered(vm0, root, v, n);
    MunmapAccounted(vm1, vm2, root, v, n, Elsewhere(vm0, root), lost);
    assert OldFrames(vm0, root, v, b) == {};
    assert lost - {} == lost;
    if TablesReady(vm0, root, v, n) {
      OwnedIsUsed(vm0, root);
      SameBooks(vm0, vm2, root);
    }
  }

  /** The bitmap is determined by the tables, the frames and the pages used elsewhere. */
  lemma SameBooks(vm: Vm, vm': Vm, root: nat)
    requires Accounted(vm, root, Elsewhere(vm, root), {}) && Accounted(vm', root, Elsewhere(vm, root), {})
    requires SameTables(vm, vm', root) && SameFrames(vm, vm', root) && |vm'.bits| == |vm.bits|
    ensures vm'.bits == vm.bits
  {
    forall x: nat | x < |vm.bits|
      ensures vm'.bits[x] == vm.bits[x]
    {
      assert Share(vm, root, Elsewhere(vm, root), {}, x) && Share(vm', root, Elsewhere(vm, root), {}, x);
      SameIsTable(vm, vm', root, x);
      SameIsFrame(vm, vm', root, x);
    }
  }
}

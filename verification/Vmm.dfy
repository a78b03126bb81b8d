/** The memory manager as the kernel runs it: the page bitmap and physical memory changed in place. */
module Vmm {
  import opened Options
  import opened PageBits
  import PT = PageTables
  import opened PageTables
  import AS = AddressSpaces
  import opened AddressSpaces
  import opened Teardown
  import opened Access
  import Pmm

  class Mmu {
    const pmm: Pmm.Pmm
    var mem: seq<Table>
    var data: seq<Bytes>

    ghost function State(): Vm
      reads this, pmm
    {
      Vm(pmm.Bits, mem, data)
    }

    ghost predicate Valid()
      reads this, pmm, pmm.bitmap
    {
      pmm.Valid() && Sized(State())
    }

    constructor (pmm: Pmm.Pmm, mem: seq<Table>, data: seq<Bytes>)
      requires pmm.Valid() && Sized(Vm(pmm.Bits, mem, data))
      ensures Valid() && this.pmm == pmm && State() == Vm(pmm.Bits, mem, data)
    {
      this.pmm, this.mem, this.data := pmm, mem, data;
    }

    method AllocZeroed() returns (r: Option<nat>)
      requires Valid()
      modifies this, pmm, pmm.bitmap
      ensures Valid() && (State(), r) == PT.AllocZeroed(old(State()))
    {
      var addr := pmm.AllocPage();
      if addr == 0 { return None; }
      var n := addr / 4096;
      mem := mem[n := ZeroTable()];
      data := data[n := ZeroBytes()];
      return Some(n);
    }

    method FreePage(page: nat)
      requires Valid() && page > 0
      modifies this, pmm, pmm.bitmap
      ensures Valid() && State() == AS.FreePage(old(State()), page)
    {
      pmm.FreePage(page * 4096);
    }

    /** vmm_create_address_space, with CR3 given as `current`. */
    method CreateSpace(current: nat) returns (root: nat)
      requires Valid()
      modifies this, pmm, pmm.bitmap
      ensures Valid() && (State(), root) == AS.CreateSpace(old(State()), current)
    {
      var n := AllocZeroed();
      if n.None? { return 0; }
      root := n.value;
      ghost var cleared := State();
      for i := 256 to 512
        invariant Valid() && root < |mem|
        invariant pmm.Bits == cleared.bits && data == cleared.data && |mem| == |cleared.mem|
        invariant forall t :: 0 <= t < |mem| && t != root ==> mem[t] == cleared.mem[t]
        invariant forall j: Ix ::
          mem[root][j] == if 256 <= j < i then EntryOf(cleared, current, j) else cleared.mem[root][j]
      {
        var e := if current < |mem| then mem[current][i] else ABSENT;
        mem := mem[root := mem[root][i := e]];
      }
      assert mem[root] == KernelHalf(cleared, current);
      assert mem == cleared.mem[root := KernelHalf(cleared, current)];
    }

    /** One level of vmm_map_page. */
    method EnsureTable(t: nat, idx: Ix) returns (r: Option<nat>)
      requires Valid() && t < |mem|
      modifies this, pmm, pmm.bitmap
      ensures Valid() && (State(), r) == PT.EnsureTable(old(State()), t, idx)
    {
      if !Present(mem[t][idx]) {
        var n := AllocZeroed();
        if n.None? { return None; }
        mem := mem[t := mem[t][idx := Entry(n.value, TABLE_FLAGS)]];
        return n;
      }
      return Some(mem[t][idx].frame);
    }

    method MapPage(root: nat, v: Vpn, frame: nat, flags: Flags)
      requires Valid() && (root != 0 ==> WellFormed(State(), root))
      modifies this, pmm, pmm.bitmap
      ensures Valid() && State() == PT.MapPage(old(State()), root, v, frame, flags)
      ensures root != 0 ==>
        Enters(old(State()), State(), root, v, EnoughForMap(old(State()), root, v),
               Entry(frame, Flags(true, flags.rw, flags.user, flags.huge, flags.rest)))
    {
      hide Enters;
      if root == 0 { return; }
      MapPageEnters(State(), root, v, frame, flags);
      MapPageInRange(State(), root, v);
      var p := PtOf(v);
      var t1 := EnsureTable(root, p.i);
      if t1.None? { return; }
      var t2 := EnsureTable(t1.value, p.j);
      if t2.None? { return; }
      var t3 := EnsureTable(t2.value, p.k);
      if t3.None? { return; }
      mem := mem[t3.value := mem[t3.value][LeafIx(v) := Entry(frame, WithPresent(flags))]];
    }

    method UnmapPage(root: nat, v: Vpn)
      requires Valid() && (root != 0 ==> WellFormed(State(), root))
      modifies this
      ensures Valid() && State() == PT.UnmapPage(old(State()), root, v)
    {
      if root == 0 { return; }
      var p := PtOf(v);
      ghost var vm := State();
      assert TableAt(vm, root, Root) == Some(root);
      var pml4e := mem[root][p.i];
      if !Present(pml4e) { return; }
      assert TableAt(vm, root, Pdpt(p.i)) == Some(pml4e.frame);
      var pdpte := mem[pml4e.frame][p.j];
      if !Present(pdpte) { return; }
      assert TableAt(vm, root, Pd(p.i, p.j)) == Some(pdpte.frame);
      var pde := mem[pdpte.frame][p.k];
      if !Present(pde) { return; }
      assert TableAt(vm, root, p) == Some(pde.frame);
      mem := mem[pde.frame := mem[pde.frame][LeafIx(v) := ABSENT]];
    }

    /** One table read; a page number past the end of memory reads as absent. */
    method ReadEntry(t: nat, idx: Ix) returns (e: Entry)
      ensures e == EntryOf(State(), t, idx)
    {
      if t >= |mem| { return ABSENT; }
      return mem[t][idx];
    }

    /** vmm_translate. */
    method Translate(root: nat, virt: nat) returns (phys: nat)
      ensures phys == PT.Translate(State(), root, virt)
    {
      if root == 0 { return virt; }
      var pml4e := ReadEntry(root, virt / 0x80_0000_0000 % 512);
      if !Present(pml4e) { return 0; }
      var pdpte := ReadEntry(pml4e.frame, virt / 0x4000_0000 % 512);
      if !Present(pdpte) { return 0; }
      if Huge(pdpte) { return OrGigabyte(pdpte.frame * 4096, virt); }
      var pde := ReadEntry(pdpte.frame, virt / 0x20_0000 % 512);
      if !Present(pde) { return 0; }
      if Huge(pde) { return pde.frame * 4096 / 0x20_0000 * 0x20_0000 + virt % 0x20_0000; }
      var pte := ReadEntry(pde.frame, virt / 0x1000 % 512);
      if !Present(pte) { return 0; }
      return pte.frame * 4096 + virt % 4096;
    }

    /** Take, clear and map a page at `v`. */
    method MapFresh(root: nat, v: Vpn, flags: Flags) returns (n: Option<nat>)
      requires Valid() && WellFormed(State(), root)
      modifies this, pmm, pmm.bitmap
      ensures Valid()
      ensures State() == AS.MapFresh(old(State()), root, v, flags).0
      ensures n == AS.MapFresh(old(State()), root, v, flags).1
    {
      AllocKeepsTree(State(), root);
      n := AllocZeroed();
      if n.Some? { MapPage(root, v, n.value, flags); }
    }

    /** The same, stated through what it does to the mappings and the books. */
    method MapFreshBooked(root: nat, v: Vpn, flags: Flags, ghost vm: Vm, ghost base: set<nat>, ghost lost: set<nat>)
        returns (n: Option<nat>, ghost vm': Vm, ghost lost': set<nat>)
      requires Valid() && State() == vm && Accounted(vm, root, base, lost)
      modifies this, pmm, pmm.bitmap
      ensures Valid() && State() == vm'
      ensures FreshStep(vm, vm', n, root, v, base, lost, lost')
      ensures ForUser(flags) ==> KeepsOpen(vm, vm', root)
    {
      hide AllOpen;
      if ForUser(flags) && AllOpen(vm, root) { MapFreshOpen(vm, root, v, flags); }
      MapFreshStep(vm, root, v, flags, base, lost);
      lost' := lost + Leak(vm, root, v);
      n := MapFresh(root, v, flags);
      vm' := State();
    }

    /** One page of munmap. */
    method Release(root: nat, v: Vpn)
      requires Valid() && WellFormed(State(), root) && OwnsFrames(State(), root)
      modifies this, pmm, pmm.bitmap
      ensures Valid() && State() == AS.Release(old(State()), root, v)
    {
      ghost var vm := State();
      var phys := Translate(root, v * 4096);
      ReleasePhys(vm, root, v);
      if phys != 0 {
        UnmapPage(root, v);
        FreePage(phys / 4096);
      }
    }

    // ---- vmm_destroy_address_space: the four nested loops, one method per level ----

    method FreeOne(page: nat, ghost start: seq<bool>, ghost gone: set<nat>)
      requires Valid() && 0 < page < |start| && pmm.Bits == Reclaim(start, gone)
      modifies this, pmm, pmm.bitmap
      ensures Valid() && mem == old(mem) && data == old(data)
      ensures pmm.Bits == Reclaim(start, gone + {page})
    {
      ReclaimOne(start, gone, page);
      FreePage(page);
    }

    /** Frees the frames of one last-level table, then the table; each page exactly once. */
    method DestroyPt(root: nat, ghost vm: Vm, ghost p: Path, pt: nat) returns (ghost frees: nat)
      requires Valid() && mem == vm.mem && |vm.bits| == |mem|
      requires WellFormed(vm, root) && OwnsFrames(vm, root)
      requires p.Pt? && TableAt(vm, root, p) == Some(pt)
      modifies this, pmm, pmm.bitmap
      ensures Valid() && mem == old(mem) && data == old(data)
      ensures pmm.Bits == Reclaim(old(pmm.Bits), Subtree(vm, root, p))
      ensures frees == |Subtree(vm, root, p)|
    {
      ghost var start := pmm.Bits;
      frees := 0;
      assert pmm.Bits == Reclaim(start, Region(vm, root, p, 0));
      for l := 0 to 512
        invariant Valid() && mem == vm.mem && data == old(data)
        invariant pmm.Bits == Reclaim(start, Region(vm, root, p, l))
        invariant frees == |Region(vm, root, p, l)|
      {
        LeafStep(vm, root, p, l);
        LeafEntry(vm, root, p, l);
        if Present(mem[pt][l]) {
          FreeOne(mem[pt][l].frame, start, Region(vm, root, p, l));
          frees := frees + 1;
        }
      }
      TableNotBelow(vm, root, p);
      FreeOne(pt, start, Region(vm, root, p, 512));
      frees := frees + 1;
    }

    /** The page-directory level. */
    method DestroyPd(root: nat, ghost vm: Vm, ghost p: Path, t: nat) returns (ghost frees: nat)
      requires Valid() && mem == vm.mem && |vm.bits| == |mem|
      requires WellFormed(vm, root) && OwnsFrames(vm, root)
      requires p.Pd? && TableAt(vm, root, p) == Some(t)
      modifies this, pmm, pmm.bitmap
      ensures Valid() && mem == old(mem) && data == old(data)
      ensures pmm.Bits == Reclaim(old(pmm.Bits), Subtree(vm, root, p))
      ensures frees == |Subtree(vm, root, p)|
    {
      ghost var start := pmm.Bits;
      frees := 0;
      assert pmm.Bits == Reclaim(start, Region(vm, root, p, 0));
      for k := 0 to 512
        invariant Valid() && mem == vm.mem && data == old(data)
        invariant pmm.Bits == Reclaim(start, Region(vm, root, p, k))
        invariant frees == |Region(vm, root, p, k)|
      {
        RegionStep(vm, root, p, k);
        ChildEntry(vm, root, p, k);
        if Present(mem[t][k]) && !Huge(mem[t][k]) {
          ReclaimMore(start, Region(vm, root, p, k), Subtree(vm, root, Child(p, k)));
          ghost var below := DestroyPt(root, vm, Child(p, k), mem[t][k].frame);
          frees := frees + below;
        }
      }
      TableNotBelow(vm, root, p);
      FreeOne(t, start, Region(vm, root, p, 512));
      frees := frees + 1;
    }

    /** The page-directory-pointer level. */
    method DestroyPdpt(root: nat, ghost vm: Vm, ghost p: Path, t: nat) returns (ghost frees: nat)
      requires Valid() && mem == vm.mem && |vm.bits| == |mem|
      requires WellFormed(vm, root) && OwnsFrames(vm, root)
      requires p.Pdpt? && TableAt(vm, root, p) == Some(t)
      modifies this, pmm, pmm.bitmap
      ensures Valid() && mem == old(mem) && data == old(data)
      ensures pmm.Bits == Reclaim(old(pmm.Bits), Subtree(vm, root, p))
      ensures frees == |Subtree(vm, root, p)|
    {
      ghost var start := pmm.Bits;
      frees := 0;
      assert pmm.Bits == Reclaim(start, Region(vm, root, p, 0));
      for k := 0 to 512
        invariant Valid() && mem == vm.mem && data == old(data)
        invariant pmm.Bits == Reclaim(start, Region(vm, root, p, k))
        invariant frees == |Region(vm, root, p, k)|
      {
        RegionStep(vm, root, p, k);
        ChildEntry(vm, root, p, k);
        if Present(mem[t][k]) && !Huge(mem[t][k]) {
          ReclaimMore(start, Region(vm, root, p, k), Subtree(vm, root, Child(p, k)));
          ghost var below := DestroyPd(root, vm, Child(p, k), mem[t][k].frame);
          frees := frees + below;
        }
      }
      TableNotBelow(vm, root, p);
      FreeOne(t, start, Region(vm, root, p, 512));
      frees := frees + 1;
    }

    /** Frees every page the space owns, each exactly once, and no other page; entries 256-511 of the
        root are not followed. */
    method DestroySpace(root: nat) returns (ghost frees: nat)
      requires Valid()
      requires root != 0 ==> WellFormed(State(), root) && OwnsFrames(State(), root)
      modifies this, pmm, pmm.bitmap
      ensures Valid() && mem == old(mem) && data == old(data)
      ensures root == 0 ==> pmm.Bits == old(pmm.Bits) && frees == 0
      ensures root != 0 ==> pmm.Bits == Reclaim(old(pmm.Bits), Owned(old(State()), root))
      ensures root != 0 ==> frees == |Owned(old(State()), root)|
    {
      hide Region, Owned, Reclaim, OwnsFrames;
      frees := 0;
      if root == 0 { return; }
      ghost var vm := State();
      ghost var start := pmm.Bits;
      assert TableAt(vm, root, Root) == Some(root);
      RegionNone(vm, root, Root);
      ReclaimNone(start);
      for i := 0 to 256
        invariant Valid() && mem == vm.mem && data == vm.data
        invariant pmm.Bits == Reclaim(start, Region(vm, root, Root, i))
        invariant frees == |Region(vm, root, Root, i)|
      {
        RegionStep(vm, root, Root, i);
        ChildEntry(vm, root, Root, i);
        if Present(mem[root][i]) {
          ReclaimMore(start, Region(vm, root, Root, i), Subtree(vm, root, Child(Root, i)));
          ghost var below := DestroyPdpt(root, vm, Child(Root, i), mem[root][i].frame);
          frees := frees + below;
        }
      }
      RegionRootIsOwned(vm, root);
      FreeOne(root, start, Region(vm, root, Root, 256));
      frees := frees + 1;
    }
  }
}

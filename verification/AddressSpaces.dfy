/** Ownership of pages by an address space, and the life of one from creation to destruction. */
module AddressSpaces {
  import opened Options
  import opened PageBits
  import opened PageTables

  ghost predicate IsFrame(vm: Vm, root: nat, page: nat) {
    exists v: Vpn :: FrameAt(vm, root, v) == Some(page)
  }

  /** Mapped frames are allocated pages, are not tables, and are each mapped once. */
  ghost predicate OwnsFrames(vm: Vm, root: nat) {
    && (forall v: Vpn :: FrameAt(vm, root, v).Some? ==>
          && 0 < FrameAt(vm, root, v).value < |vm.bits|
          && vm.bits[FrameAt(vm, root, v).value]
          && !IsTable(vm, root, FrameAt(vm, root, v).value))
    && (forall v: Vpn, w: Vpn ::
          FrameAt(vm, root, v).Some? && FrameAt(vm, root, v) == FrameAt(vm, root, w) ==> v == w)
  }

  ghost predicate OwnedPage(vm: Vm, root: nat, x: nat) {
    IsTable(vm, root, x) || IsFrame(vm, root, x)
  }

  ghost function Owned(vm: Vm, root: nat): set<nat> {
    set x: nat | x < |vm.bits| && OwnedPage(vm, root, x)
  }

  /** A page is in use exactly when it belongs to others, is owned here or was leaked, never two of these. */
  ghost predicate Share(vm: Vm, root: nat, base: set<nat>, leaked: set<nat>, x: nat)
    requires x < |vm.bits|
  {
    && (vm.bits[x] <==> x in base || x in leaked || OwnedPage(vm, root, x))
    && !(x in base && x in leaked)
    && !(x in base && OwnedPage(vm, root, x))
    && !(x in leaked && OwnedPage(vm, root, x))
  }

  /** Conservation: the pages in use are the pages in use elsewhere (`base`), the pages this space
      owns, and the pages it has lost track of (`leaked`), with no overlap. */
  ghost predicate Accounted(vm: Vm, root: nat, base: set<nat>, leaked: set<nat>) {
    && WellFormed(vm, root) && OwnsFrames(vm, root)
    && (forall x :: x in base ==> x < |vm.bits|)
    && (forall x :: x in leaked ==> x < |vm.bits|)
    && (forall x: nat :: x < |vm.bits| ==> Share(vm, root, base, leaked, x))
  }

  /** The pages in use that this space does not own. */
  ghost function Elsewhere(vm: Vm, root: nat): set<nat> {
    set x: nat | x < |vm.bits| && vm.bits[x] && !OwnedPage(vm, root, x)
  }

  lemma OwnedIsUsed(vm: Vm, root: nat)
    requires WellFormed(vm, root) && OwnsFrames(vm, root)
    ensures Accounted(vm, root, Elsewhere(vm, root), {})
  {
  }

  // ---- vmm_create_address_space ----

  /** A cleared page whose upper half is copied from the running address space `current`. */
  function CreateSpace(vm: Vm, current: nat): (r: (Vm, nat))
    requires Sized(vm)
    ensures Sized(r.0) && |r.0.bits| == |vm.bits|
  {
    var (vm1, n) := AllocZeroed(vm);
    if n.None? then (vm, 0)
    else (Vm(vm1.bits, vm1.mem[n.value := KernelHalf(vm1, current)], vm1.data), n.value)
  }

  function KernelHalf(vm: Vm, current: nat): (t: Table)
    ensures forall i: Ix :: t[i] == if i < 256 then ABSENT else EntryOf(vm, current, i)
  {
    seq(512, i requires 0 <= i < 512 => if i < 256 then ABSENT else EntryOf(vm, current, i))
  }

  lemma {:induction false} CreatedTables(vm: Vm, root: nat, p: Path)
    requires forall i: Ix :: i < 256 ==> !Present(EntryOf(vm, root, i))
    ensures TableAt(vm, root, p) == if p.Root? then Some(root) else None
    decreases Level(p)
  {
    if !p.Root? { CreatedTables(vm, root, Parent(p)); }
  }

  lemma CreateAccounted(vm: Vm, current: nat)
    requires Sized(vm) && FreeCount(vm.bits) > 0
    ensures
      var (vm', root) := CreateSpace(vm, current);
      && root > 0
      && Accounted(vm', root, UsedSet(vm.bits), {})
      && Owned(vm', root) == {root}
      && (forall v: Vpn :: FrameAt(vm', root, v).None?)
      && (forall i: Ix :: 256 <= i ==> EntryOf(vm', root, i) == EntryOf(AllocZeroed(vm).0, current, i))
  {
    var (vm', root) := CreateSpace(vm, current);
    NoneFree(vm.bits);
    forall i: Ix | i < 256 ensures !Present(EntryOf(vm', root, i)) {}
    forall p ensures TableAt(vm', root, p) == if p.Root? then Some(root) else None {
      CreatedTables(vm', root, p);
    }
    assert TableAt(vm', root, Root) == Some(root);
    assert Owned(vm', root) == {root};
  }

  // ---- Mapping a fresh page and releasing a page ----

  /** Take a page, clear it and map it at `v`: the client step of process_create, exec and mmap. */
  function MapFresh(vm: Vm, root: nat, v: Vpn, flags: Flags): (r: (Vm, Option<nat>))
    requires Sized(vm)
    ensures Sized(r.0)
  {
    var (vm1, n) := AllocZeroed(vm);
    if n.None? then (vm, None) else (MapPage(vm1, root, v, n.value, flags), n)
  }

  function FreePage(vm: Vm, page: nat): Vm {
    if page < |vm.bits| then Vm(vm.bits[page := false], vm.mem, vm.data) else vm
  }

  /** One page of munmap: translate, and if mapped, unmap and free the frame. */
  function Release(vm: Vm, root: nat, v: Vpn): Vm
    requires Sized(vm)
  {
    var phys := Translate(vm, root, v * 4096);
    if phys == 0 then vm else FreePage(UnmapPage(vm, root, v), phys / 4096)
  }

  /** Taking a page changes no table and no mapping. */
  lemma AllocKeepsTree(vm: Vm, root: nat)
    requires WellFormed(vm, root)
    ensures
      var (vm', n) := AllocZeroed(vm);
      && WellFormed(vm', root)
      && (forall p :: TableAt(vm', root, p) == TableAt(vm, root, p))
      && SameFrames(vm, vm', root)
      && (n.Some? ==> !IsTable(vm', root, n.value))
      && (n.None? <==> FreeCount(vm.bits) == 0)
      && FreeCount(vm'.bits) == FreeCount(vm.bits) - (if n.Some? then 1 else 0)
  {
    NoneFree(vm.bits);
    var (vm', n) := AllocZeroed(vm);
    if n.Some? {
      SetBit(vm.bits, n.value);
      SameTree(vm, vm', root);
    }
  }

  /** What MapFresh leaks: the page it took if the map ran out of tables, or the frame it replaced. */
  ghost function Leak(vm: Vm, root: nat, v: Vpn): set<nat>
    requires Sized(vm)
  {
    var (vm1, n) := AllocZeroed(vm);
    if n.None? then {}
    else if !EnoughForMap(vm1, root, v) then {n.value}
    else if FrameAt(vm, root, v).Some? then {FrameAt(vm, root, v).value}
    else {}
  }

  /** A fresh map is lossless exactly when no page is free at all, or the target is unmapped and the
      free pages cover the frame and the missing tables. */
  lemma LeakFree(vm: Vm, root: nat, v: Vpn)
    requires WellFormed(vm, root)
    ensures Leak(vm, root, v) == {} <==>
      || FreeCount(vm.bits) == 0
      || (FrameAt(vm, root, v).None? && FreeCount(vm.bits) >= 1 + Missing(vm, root, v))
  {
    AllocKeepsTree(vm, root);
    MissingSame(vm, AllocZeroed(vm).0, root, PtOf(v));
  }

  lemma {:induction false} MissingSame(vm: Vm, vm': Vm, root: nat, p: Path)
    requires forall q :: TableAt(vm', root, q) == TableAt(vm, root, q)
    ensures MissingTables(vm', root, p) == MissingTables(vm, root, p)
    decreases Level(p)
  {
    if !p.Root? { MissingSame(vm, vm', root, Parent(p)); }
  }

  /** What a fresh map does: it gets a page exactly when one is free, and that page becomes the frame
      of `v` exactly when the free pages also cover the missing tables. */
  ghost predicate MapsOne(vm: Vm, vm': Vm, n: Option<nat>, root: nat, v: Vpn) {
    var enough := FreeCount(vm.bits) >= 1 + Missing(vm, root, v);
    && WellFormed(vm', root)
    && |vm'.bits| == |vm.bits|
    && (forall x :: 0 <= x < |vm.bits| && vm.bits[x] ==> vm'.bits[x])
    && (n.Some? <==> FreeCount(vm.bits) > 0)
    && (n.None? ==> vm' == vm)
    && (n.Some? ==> 0 < n.value < |vm.bits| && !vm.bits[n.value])
    && Sized(vm) && (forall x :: 0 <= x < |vm.bits| && vm.bits[x] ==> vm'.data[x] == vm.data[x])
    && (n.Some? ==> vm'.data[n.value] == ZeroBytes())
    && (forall w: Vpn :: FrameAt(vm', root, w) == if w == v && enough then n else FrameAt(vm, root, w))
    && FreeCount(vm'.bits) == if enough then FreeCount(vm.bits) - 1 - Missing(vm, root, v) else 0
  }

  lemma MapFreshFrames(vm: Vm, root: nat, v: Vpn, flags: Flags)
    requires WellFormed(vm, root)
    ensures MapsOne(vm, MapFresh(vm, root, v, flags).0, MapFresh(vm, root, v, flags).1, root, v)
  {
    AllocKeepsTree(vm, root);
    var (vm1, n) := AllocZeroed(vm);
    MissingSame(vm, vm1, root, PtOf(v));
    if n.Some? {
      MapPageCorrect(vm1, root, v, n.value, flags);
    }
  }

  /** `vm1` is `vm` with page `n` taken, and `vm2` is `vm1` after mapping `v` to `n` (if `done`). */
  ghost predicate MapsFresh(vm: Vm, vm1: Vm, vm2: Vm, root: nat, v: Vpn, n: nat, done: bool) {
    && WellFormed(vm, root) && OwnsFrames(vm, root)
    && 0 < n < |vm.bits| && !vm.bits[n] && vm1.bits == vm.bits[n := true]
    && (forall p :: TableAt(vm1, root, p) == TableAt(vm, root, p))
    && WellFormed(vm2, root) && KeepsPages(vm1, vm2, root) && TakesTablesOnly(vm1, vm2, root)
    && (forall w: Vpn :: FrameAt(vm2, root, w) == if done && w == v then Some(n) else FrameAt(vm, root, w))
  }

  lemma TablesAfterMap(vm: Vm, vm1: Vm, vm2: Vm, root: nat, v: Vpn, n: nat, done: bool, x: nat)
    requires MapsFresh(vm, vm1, vm2, root, v, n, done)
    ensures IsTable(vm2, root, x) <==>
      IsTable(vm, root, x) || (x < |vm.bits| && vm2.bits[x] && !vm.bits[x] && x != n)
  {
    if IsTable(vm, root, x) {
      var p :| TableAt(vm, root, p) == Some(x);
      assert TableAt(vm2, root, p) == Some(x);
    }
    if IsTable(vm2, root, x) {
      var p :| TableAt(vm2, root, p) == Some(x);
      assert TableAt(vm1, root, p).Some? ==> TableAt(vm, root, p) == Some(x);
    }
  }

  lemma OwnsAfterMap(vm: Vm, vm1: Vm, vm2: Vm, root: nat, v: Vpn, n: nat, done: bool)
    requires MapsFresh(vm, vm1, vm2, root, v, n, done)
    ensures OwnsFrames(vm2, root)
  {
    forall w: Vpn | FrameAt(vm2, root, w).Some?
      ensures !IsTable(vm2, root, FrameAt(vm2, root, w).value)
    {
      TablesAfterMap(vm, vm1, vm2, root, v, n, done, FrameAt(vm2, root, w).value);
    }
  }

  lemma FramesAfterMap(vm: Vm, vm1: Vm, vm2: Vm, root: nat, v: Vpn, n: nat, done: bool, x: nat)
    requires MapsFresh(vm, vm1, vm2, root, v, n, done)
    ensures IsFrame(vm2, root, x) <==>
      (done && x == n) || (IsFrame(vm, root, x) && !(done && FrameAt(vm, root, v) == Some(x)))
  {
    if IsFrame(vm2, root, x) {
      var w: Vpn :| FrameAt(vm2, root, w) == Some(x);
      assert w != v ==> FrameAt(vm, root, w) == Some(x);
    }
    if IsFrame(vm, root, x) {
      var w: Vpn :| FrameAt(vm, root, w) == Some(x);
      assert w != v ==> FrameAt(vm2, root, w) == Some(x);
    }
    if done {
      assert FrameAt(vm2, root, v) == Some(n);
    }
  }

  lemma MapFreshMaps(vm: Vm, root: nat, v: Vpn, flags: Flags)
    requires WellFormed(vm, root) && OwnsFrames(vm, root) && AllocZeroed(vm).1.Some?
    ensures
      var (vm1, n) := AllocZeroed(vm);
      MapsFresh(vm, vm1, MapPage(vm1, root, v, n.value, flags), root, v, n.value, EnoughForMap(vm1, root, v))
  {
    AllocKeepsTree(vm, root);
    var (vm1, n) := AllocZeroed(vm);
    MapPageCorrect(vm1, root, v, n.value, flags);
  }

  lemma MapFreshAccounted(vm: Vm, root: nat, v: Vpn, flags: Flags, base: set<nat>, leaked: set<nat>)
    requires Accounted(vm, root, base, leaked)
    ensures Accounted(MapFresh(vm, root, v, flags).0, root, base, leaked + Leak(vm, root, v))
  {
    var (vm1, n) := AllocZeroed(vm);
    if n.Some? {
      MapFreshMaps(vm, root, v, flags);
      MapsFreshAccounted(vm, vm1, MapPage(vm1, root, v, n.value, flags), root, v, n.value,
                         EnoughForMap(vm1, root, v), base, leaked);
    } else {
      assert leaked + {} == leaked;
    }
  }

  lemma MapsFreshAccounted(vm: Vm, vm1: Vm, vm2: Vm, root: nat, v: Vpn, n: nat, done: bool, base: set<nat>,
                           leaked: set<nat>)
    requires MapsFresh(vm, vm1, vm2, root, v, n, done)
    requires Accounted(vm, root, base, leaked)
    ensures
      var lost := if !done then {n} else if FrameAt(vm, root, v).Some? then {FrameAt(vm, root, v).value} else {};
      Accounted(vm2, root, base, leaked + lost)
  {
    OwnsAfterMap(vm, vm1, vm2, root, v, n, done);
    var lost := if !done then {n} else if FrameAt(vm, root, v).Some? then {FrameAt(vm, root, v).value} else {};
    forall x: nat | x < |vm.bits|
      ensures Share(vm2, root, base, leaked + lost, x)
    {
      assert Share(vm, root, base, leaked, x);
      TablesAfterMap(vm, vm1, vm2, root, v, n, done, x);
      FramesAfterMap(vm, vm1, vm2, root, v, n, done, x);
      assert FrameAt(vm, root, v) == Some(x) ==> IsFrame(vm, root, x) && !IsTable(vm, root, x);
    }
  }

  ghost predicate SameTables(vm: Vm, vm': Vm, root: nat) {
    forall p :: TableAt(vm', root, p) == TableAt(vm, root, p)
  }

  lemma {:induction false} EnsurePathReady(vm: Vm, root: nat, p: Path)
    requires WellFormed(vm, root) && TableAt(vm, root, p).Some?
    ensures EnsurePath(vm, root, p) == (vm, TableAt(vm, root, p))
    decreases Level(p)
  {
    if !p.Root? {
      ParentExists(vm, root, p);
      EnsurePathReady(vm, root, Parent(p));
      ParentInRange(vm, root, p);
    }
  }

  lemma ParentInRange(vm: Vm, root: nat, p: Path)
    requires WellFormed(vm, root) && !p.Root? && TableAt(vm, root, Parent(p)).Some?
    ensures TableAt(vm, root, Parent(p)).value < |vm.mem|
  {
  }

  /** Where the last-level table exists, a map takes no table page. */
  lemma MapFreshReady(vm: Vm, root: nat, v: Vpn, flags: Flags)
    requires WellFormed(vm, root) && TableAt(vm, root, PtOf(v)).Some?
    ensures SameTables(vm, MapFresh(vm, root, v, flags).0, root)
    ensures Missing(vm, root, v) == 0
  {
    AllocKeepsTree(vm, root);
    var (vm1, n) := AllocZeroed(vm);
    if n.Some? {
      EnsurePathReady(vm1, root, PtOf(v));
      MapPageUnfold(vm1, root, v, n.value, flags);
      LeafWrite(vm1, root, v, Entry(n.value, WithPresent(flags)));
    }
  }

  // ---- Tables on the way to a page ----

  /** The tables on the way to `p`, itself included. */
  ghost function WayTo(p: Path): set<Path>
    decreases Level(p)
  {
    if p.Root? then {} else WayTo(Parent(p)) + {p}
  }

  /** `vm'` has the tables of `vm` and those on the way to `p`. */
  ghost predicate GainsTables(vm: Vm, vm': Vm, root: nat, p: Path) {
    forall q :: TableAt(vm', root, q).Some? <==> TableAt(vm, root, q).Some? || q in WayTo(p)
  }

  lemma {:induction false} EnsurePathGains(vm: Vm, root: nat, p: Path)
    requires WellFormed(vm, root) && EnsurePath(vm, root, p).1.Some?
    ensures GainsTables(vm, EnsurePath(vm, root, p).0, root, p)
    decreases Level(p)
  {
    if !p.Root? {
      var (vm1, t) := EnsurePath(vm, root, Parent(p));
      EnsurePathGains(vm, root, Parent(p));
      EnsurePathGrows(vm, root, Parent(p));
      LevelGains(vm, vm1, root, p);
    }
  }

  lemma LevelGains(vm: Vm, vm1: Vm, root: nat, p: Path)
    requires WellFormed(vm1, root) && !p.Root? && TableAt(vm1, root, Parent(p)).Some?
    requires GainsTables(vm, vm1, root, Parent(p))
    requires EnsureTable(vm1, TableAt(vm1, root, Parent(p)).value, Last(p)).1.Some?
    ensures GainsTables(vm, EnsureTable(vm1, TableAt(vm1, root, Parent(p)).value, Last(p)).0, root, p)
  {
    EnsureGrows(vm1, root, Parent(p), Last(p));
    assert Child(Parent(p), Last(p)) == p;
  }

  /** A fresh map that succeeds adds exactly the tables on the way to its page. */
  lemma MapFreshGains(vm: Vm, root: nat, v: Vpn, flags: Flags)
    requires WellFormed(vm, root) && FreeCount(vm.bits) >= 1 + Missing(vm, root, v)
    ensures GainsTables(vm, MapFresh(vm, root, v, flags).0, root, PtOf(v))
  {
    AllocKeepsTree(vm, root);
    var (vm1, n) := AllocZeroed(vm);
    MissingSame(vm, vm1, root, PtOf(v));
    MapGains(vm1, root, v, n.value, flags);
  }

  lemma MapGains(vm: Vm, root: nat, v: Vpn, frame: nat, flags: Flags)
    requires WellFormed(vm, root) && EnoughForMap(vm, root, v)
    ensures GainsTables(vm, MapPage(vm, root, v, frame, flags), root, PtOf(v))
  {
    var p := PtOf(v);
    var (mid, t) := EnsurePath(vm, root, p);
    MapPageUnfold(vm, root, v, frame, flags);
    EnsurePathGrows(vm, root, p);
    EnsurePathGains(vm, root, p);
    EnsurePathInRange(vm, root, p);
    LeafWrite(mid, root, v, Entry(frame, WithPresent(flags)));
  }

  /** What a fresh map that gets page `n` loses: that page if its tables cannot be had, else the frame that was
      mapped before. */
  ghost function FreshLoss(vm: Vm, n: Option<nat>, root: nat, v: Vpn): set<nat> {
    if n.None? then {}
    else if FreeCount(vm.bits) < 1 + Missing(vm, root, v) then {n.value}
    else if FrameAt(vm, root, v).Some? then {FrameAt(vm, root, v).value}
    else {}
  }

  /** A fresh map together with its books: `lost'` is `lost` and exactly what this map loses. */
  ghost predicate FreshStep(vm: Vm, vm': Vm, n: Option<nat>, root: nat, v: Vpn, base: set<nat>, lost: set<nat>,
                            lost': set<nat>) {
    && MapsOne(vm, vm', n, root, v)
    && Accounted(vm', root, base, lost')
    && lost' == lost + FreshLoss(vm, n, root, v)
    && (TableAt(vm, root, PtOf(v)).Some? ==> SameTables(vm, vm', root))
    && (FreeCount(vm.bits) >= 1 + Missing(vm, root, v) ==> GainsTables(vm, vm', root, PtOf(v)))
  }

  lemma MapFreshStep(vm: Vm, root: nat, v: Vpn, flags: Flags, base: set<nat>, lost: set<nat>)
    requires Accounted(vm, root, base, lost)
    ensures FreshStep(vm, MapFresh(vm, root, v, flags).0, MapFresh(vm, root, v, flags).1, root, v, base,
                      lost, lost + Leak(vm, root, v))
  {
    MapFreshFrames(vm, root, v, flags);
    MapFreshAccounted(vm, root, v, flags, base, lost);
    LeakIsLoss(vm, root, v);
    if TableAt(vm, root, PtOf(v)).Some? { MapFreshReady(vm, root, v, flags); }
    if FreeCount(vm.bits) >= 1 + Missing(vm, root, v) { MapFreshGains(vm, root, v, flags); }
  }

  lemma LeakIsLoss(vm: Vm, root: nat, v: Vpn)
    requires WellFormed(vm, root)
    ensures Leak(vm, root, v) == FreshLoss(vm, AllocZeroed(vm).1, root, v)
  {
    AllocKeepsTree(vm, root);
    MissingSame(vm, AllocZeroed(vm).0, root, PtOf(v));
  }

  lemma FreeKeepsTree(vm: Vm, root: nat, page: nat)
    requires WellFormed(vm, root) && 0 < page < |vm.bits| && !IsTable(vm, root, page)
    ensures
      var vm' := FreePage(vm, page);
      && WellFormed(vm', root) && SameFrames(vm, vm', root)
      && (forall p :: TableAt(vm', root, p) == TableAt(vm, root, p))
  {
    forall p | TableAt(vm, root, p).Some?
      ensures TableAt(vm, root, p).value != page
    {
      assert TableAt(vm, root, p) == Some(TableAt(vm, root, p).value);
    }
    SameTree(vm, FreePage(vm, page), root);
  }

  lemma ReleaseUnfold(vm: Vm, root: nat, v: Vpn)
    requires WellFormed(vm, root) && OwnsFrames(vm, root)
    ensures Release(vm, root, v) ==
      match FrameAt(vm, root, v) case None => vm case Some(f) => FreePage(UnmapPage(vm, root, v), f)
  {
    TranslateIsFrame(vm, root, v * 4096);
  }

  lemma ReleasePhys(vm: Vm, root: nat, v: Vpn)
    requires WellFormed(vm, root) && OwnsFrames(vm, root)
    ensures
      var phys := Translate(vm, root, v * 4096);
      phys != 0 ==> phys / 4096 > 0 && Release(vm, root, v) == FreePage(UnmapPage(vm, root, v), phys / 4096)
  {
    TranslateIsFrame(vm, root, v * 4096);
  }

  /** What releasing `v` does: it frees exactly its frame and removes exactly its mapping. */
  ghost predicate Releases(vm: Vm, vm': Vm, root: nat, v: Vpn) {
    var f := FrameAt(vm, root, v);
    && WellFormed(vm', root)
    && (f.Some? ==> f.value < |vm.bits|)
    && vm'.bits == (if f.Some? then vm.bits[f.value := false] else vm.bits)
    && vm'.data == vm.data
    && (forall p :: TableAt(vm', root, p) == TableAt(vm, root, p))
    && (forall w: Vpn :: FrameAt(vm', root, w) == if w == v then None else FrameAt(vm, root, w))
  }

  lemma UnmapThenFree(vm: Vm, root: nat, v: Vpn)
    requires WellFormed(vm, root) && OwnsFrames(vm, root) && FrameAt(vm, root, v).Some?
    ensures Releases(vm, FreePage(UnmapPage(vm, root, v), FrameAt(vm, root, v).value), root, v)
  {
    var f := FrameAt(vm, root, v);
    UnmapPageCorrect(vm, root, v);
    var mid := UnmapPage(vm, root, v);
    SameIsTable(vm, mid, root, f.value);
    FreeKeepsTree(mid, root, f.value);
  }

  lemma ReleaseFrames(vm: Vm, root: nat, v: Vpn)
    requires WellFormed(vm, root) && OwnsFrames(vm, root)
    ensures Releases(vm, Release(vm, root, v), root, v)
  {
    ReleaseUnfold(vm, root, v);
    if FrameAt(vm, root, v).Some? {
      UnmapThenFree(vm, root, v);
    }
  }

  lemma SameIsTable(vm: Vm, vm': Vm, root: nat, x: nat)
    requires forall p :: TableAt(vm', root, p) == TableAt(vm, root, p)
    ensures IsTable(vm', root, x) <==> IsTable(vm, root, x)
  {
    if IsTable(vm, root, x) {
      var p :| TableAt(vm, root, p) == Some(x);
      assert TableAt(vm', root, p) == Some(x);
    }
    if IsTable(vm', root, x) {
      var p :| TableAt(vm', root, p) == Some(x);
      assert TableAt(vm, root, p) == Some(x);
    }
  }

  lemma SameIsFrame(vm: Vm, vm': Vm, root: nat, x: nat)
    requires SameFrames(vm, vm', root)
    ensures IsFrame(vm', root, x) <==> IsFrame(vm, root, x)
  {
    if w: Vpn :| FrameAt(vm, root, w) == Some(x) { assert FrameAt(vm', root, w) == Some(x); }
    if w: Vpn :| FrameAt(vm', root, w) == Some(x) { assert FrameAt(vm, root, w) == Some(x); }
  }

  lemma ReleaseOwns(vm: Vm, root: nat, v: Vpn)
    requires WellFormed(vm, root) && OwnsFrames(vm, root)
    ensures OwnsFrames(Release(vm, root, v), root)
  {
    ReleaseFrames(vm, root, v);
    var vm' := Release(vm, root, v);
    forall w: Vpn | FrameAt(vm', root, w).Some?
      ensures vm'.bits[FrameAt(vm', root, w).value] && !IsTable(vm', root, FrameAt(vm', root, w).value)
    {
      SameIsTable(vm, vm', root, FrameAt(vm, root, w).value);
      assert FrameAt(vm, root, w) != FrameAt(vm, root, v);
    }
  }

  lemma ReleaseAccounted(vm: Vm, root: nat, v: Vpn, base: set<nat>, leaked: set<nat>)
    requires Accounted(vm, root, base, leaked)
    ensures Accounted(Release(vm, root, v), root, base, leaked)
  {
    ReleaseFrames(vm, root, v);
    ReleaseOwns(vm, root, v);
    var vm' := Release(vm, root, v);
    forall x: nat | x < |vm.bits|
      ensures Share(vm', root, base, leaked, x)
    {
      assert Share(vm, root, base, leaked, x);
      SameIsTable(vm, vm', root, x);
      FramesAfterRelease(vm, vm', root, v, x);
      assert FrameAt(vm, root, v) == Some(x) ==> IsFrame(vm, root, x) && !IsTable(vm, root, x);
    }
  }

  lemma FramesAfterRelease(vm: Vm, vm': Vm, root: nat, v: Vpn, x: nat)
    requires OwnsFrames(vm, root) && Releases(vm, vm', root, v)
    ensures IsFrame(vm', root, x) <==> IsFrame(vm, root, x) && FrameAt(vm, root, v) != Some(x)
  {
    if w: Vpn :| FrameAt(vm', root, w) == Some(x) {
      assert FrameAt(vm, root, w) == Some(x);
    }
    if w: Vpn :| FrameAt(vm, root, w) == Some(x) {
      assert w != v ==> FrameAt(vm', root, w) == Some(x);
    }
  }

  // ---- Whole lives ----

  /** A step of the process, which backs a page with fresh memory or gives it back, or anything that other users
      of the page manager do in between. */
  datatype Op = MapOp(v: Vpn, flags: Flags) | ReleaseOp(v: Vpn) | Others(vm: Vm)

  /** Others leave the tables of this space alone and do not free pages that it owns or has lost. */
  ghost predicate Allowed(vm: Vm, root: nat, op: Op, leaked: set<nat>) {
    op.Others? ==>
      && Sized(op.vm) && |op.vm.bits| == |vm.bits| && AgreeOnTables(vm, op.vm, root)
      && (forall x: nat :: x < |vm.bits| && (OwnedPage(vm, root, x) || x in leaked) ==> op.vm.bits[x])
  }

  ghost function Step(vm: Vm, root: nat, op: Op): (r: (Vm, set<nat>))
    requires Sized(vm)
  {
    match op
    case MapOp(v, flags) => (MapFresh(vm, root, v, flags).0, Leak(vm, root, v))
    case ReleaseOp(v) => (Release(vm, root, v), {})
    case Others(vm') => (vm', {})
  }

  /** What others hold after a step. */
  ghost function BaseAfter(vm: Vm, root: nat, op: Op, base: set<nat>, leaked: set<nat>): set<nat> {
    if op.Others? then
      set x: nat | x < |op.vm.bits| && op.vm.bits[x] && !OwnedPage(vm, root, x) && x !in leaked
    else base
  }

  lemma StepAccounted(vm: Vm, root: nat, op: Op, base: set<nat>, leaked: set<nat>)
    requires Accounted(vm, root, base, leaked) && Allowed(vm, root, op, leaked)
    ensures Accounted(Step(vm, root, op).0, root, BaseAfter(vm, root, op, base, leaked), leaked + Step(vm, root, op).1)
    ensures leaked !! Step(vm, root, op).1
  {
    match op
    case MapOp(v, flags) =>
      MapFreshAccounted(vm, root, v, flags, base, leaked);
      forall x | x in leaked ensures x !in Leak(vm, root, v) {
        assert Share(vm, root, base, leaked, x);
        assert FrameAt(vm, root, v) == Some(x) ==> IsFrame(vm, root, x);
      }
    case ReleaseOp(v) =>
      ReleaseAccounted(vm, root, v, base, leaked);
      assert leaked + {} == leaked;
    case Others(vm') =>
      OthersAccounted(vm, vm', root, base, leaked);
      assert leaked + {} == leaked;
  }

  lemma OthersAccounted(vm: Vm, vm': Vm, root: nat, base: set<nat>, leaked: set<nat>)
    requires Accounted(vm, root, base, leaked) && Allowed(vm, root, Others(vm'), leaked)
    ensures Accounted(vm', root, BaseAfter(vm, root, Others(vm'), base, leaked), leaked)
  {
    forall p | TableAt(vm, root, p).Some?
      ensures vm'.bits[TableAt(vm, root, p).value]
    {
      assert OwnedPage(vm, root, TableAt(vm, root, p).value);
    }
    SameTree(vm, vm', root);
    forall v: Vpn | FrameAt(vm', root, v).Some?
      ensures vm'.bits[FrameAt(vm', root, v).value] && !IsTable(vm', root, FrameAt(vm', root, v).value)
    {
      assert IsFrame(vm, root, FrameAt(vm, root, v).value);
      SameIsTable(vm, vm', root, FrameAt(vm, root, v).value);
    }
    forall x: nat | x < |vm.bits|
      ensures Share(vm', root, BaseAfter(vm, root, Others(vm'), base, leaked), leaked, x)
    {
      assert Share(vm, root, base, leaked, x);
      SameIsTable(vm, vm', root, x);
      SameIsFrame(vm, vm', root, x);
    }
  }

  /** A map in another address space is such a step. */
  lemma OtherMapIsAllowed(vm: Vm, root: nat, other: nat, v: Vpn, frame: nat, flags: Flags, base: set<nat>,
                          leaked: set<nat>)
    requires Accounted(vm, root, base, leaked) && WellFormed(vm, other) && DisjointTables(vm, other, root)
    ensures Allowed(vm, root, Others(MapPage(vm, other, v, frame, flags)), leaked)
  {
    var vm' := MapPage(vm, other, v, frame, flags);
    MapPageCorrect(vm, other, v, frame, flags);
    forall x: nat | x < |vm.bits| && (OwnedPage(vm, root, x) || x in leaked)
      ensures vm'.bits[x]
    {
      assert Share(vm, root, base, leaked, x);
    }
  }

  ghost predicate AllAllowed(vm: Vm, root: nat, ops: seq<Op>, base: set<nat>, leaked: set<nat>)
    requires Accounted(vm, root, base, leaked)
    decreases |ops|
  {
    ops == [] ||
    (Allowed(vm, root, ops[0], leaked) &&
     (StepAccounted(vm, root, ops[0], base, leaked);
      var (vm1, lost) := Step(vm, root, ops[0]);
      AllAllowed(vm1, root, ops[1..], BaseAfter(vm, root, ops[0], base, leaked), leaked + lost)))
  }

  predicate NoOthers(ops: seq<Op>) {
    forall i :: 0 <= i < |ops| ==> !ops[i].Others?
  }

  /** The books after a run: memory, what others hold, and what this space has lost. */
  datatype Books = Books(vm: Vm, base: set<nat>, leaked: set<nat>)

  /** Every run of steps keeps the books balanced. */
  ghost function Run(vm: Vm, root: nat, ops: seq<Op>, base: set<nat>, leaked: set<nat>): (r: Books)
    requires Accounted(vm, root, base, leaked) && AllAllowed(vm, root, ops, base, leaked)
    ensures Accounted(r.vm, root, r.base, r.leaked)
    ensures leaked <= r.leaked
    ensures |r.vm.bits| == |vm.bits|
    ensures NoOthers(ops) ==> r.base == base
    decreases |ops|
  {
    if ops == [] then Books(vm, base, leaked)
    else
      StepAccounted(vm, root, ops[0], base, leaked);
      StepLength(vm, root, ops[0], leaked);
      var (vm1, lost) := Step(vm, root, ops[0]);
      Run(vm1, root, ops[1..], BaseAfter(vm, root, ops[0], base, leaked), leaked + lost)
  }

  /** Before each map of the run: nothing was free, or the target was unmapped and the free pages
      covered the frame and its missing tables. */
  ghost predicate Lossless(vm: Vm, root: nat, ops: seq<Op>, base: set<nat>, leaked: set<nat>)
    requires Accounted(vm, root, base, leaked) && AllAllowed(vm, root, ops, base, leaked)
    decreases |ops|
  {
    ops == [] ||
    (StepAccounted(vm, root, ops[0], base, leaked);
     var (vm1, lost) := Step(vm, root, ops[0]);
     && (ops[0].MapOp? ==>
          || FreeCount(vm.bits) == 0
          || (FrameAt(vm, root, ops[0].v).None? && FreeCount(vm.bits) >= 1 + Missing(vm, root, ops[0].v)))
     && Lossless(vm1, root, ops[1..], BaseAfter(vm, root, ops[0], base, leaked), leaked + lost))
  }

  lemma {:induction false} LosslessRuns(vm: Vm, root: nat, ops: seq<Op>, base: set<nat>, leaked: set<nat>)
    requires Accounted(vm, root, base, leaked) && AllAllowed(vm, root, ops, base, leaked)
    ensures Run(vm, root, ops, base, leaked).leaked == leaked <==> Lossless(vm, root, ops, base, leaked)
    decreases |ops|
  {
    if ops != [] {
      StepAccounted(vm, root, ops[0], base, leaked);
      var (vm1, lost) := Step(vm, root, ops[0]);
      var base1 := BaseAfter(vm, root, ops[0], base, leaked);
      if ops[0].MapOp? { LeakFree(vm, root, ops[0].v); }
      LosslessRuns(vm1, root, ops[1..], base1, leaked + lost);
      assert lost == {} ==> leaked + lost == leaked;
      if lost != {} {
        var x :| x in lost;
        assert x in Run(vm1, root, ops[1..], base1, leaked + lost).leaked;
      }
    }
  }

  /** The bitmap with the pages of `gone` cleared. */
  function Reclaim(bits: seq<bool>, gone: set<nat>): (r: seq<bool>)
    ensures |r| == |bits| && forall i: nat :: i < |bits| ==> r[i] == (bits[i] && i !in gone)
  {
    seq(|bits|, i requires 0 <= i < |bits| => bits[i] && i !in gone)
  }

  lemma ReclaimOne(bits: seq<bool>, gone: set<nat>, page: nat)
    requires page < |bits|
    ensures Reclaim(bits, gone)[page := false] == Reclaim(bits, gone + {page})
  {
  }

  lemma ReclaimMore(bits: seq<bool>, gone: set<nat>, more: set<nat>)
    ensures Reclaim(Reclaim(bits, gone), more) == Reclaim(bits, gone + more)
  {
  }

  /** Create, run any steps with any others in between, destroy: in use are then exactly the pages that others
      hold and those leaked, and no page leaked if and only if every map of the run was lossless.  Without
      others the bitmap is back to its starting value but for the leaked pages. */
  lemma Lifecycle(vm: Vm, current: nat, ops: seq<Op>)
    requires Sized(vm) && FreeCount(vm.bits) > 0
    ensures
      var (vm1, root) := CreateSpace(vm, current);
      var start := UsedSet(vm.bits);
      && Accounted(vm1, root, start, {})
      && (AllAllowed(vm1, root, ops, start, {}) ==>
            var r := Run(vm1, root, ops, start, {});
            var final := Reclaim(r.vm.bits, Owned(r.vm, root));
            && UsedSet(final) == r.base + r.leaked && r.base !! r.leaked
            && (UsedSet(final) == r.base <==> Lossless(vm1, root, ops, start, {}))
            && (NoOthers(ops) ==> r.base == start && (final == vm.bits <==> Lossless(vm1, root, ops, start, {}))))
  {
    CreateAccounted(vm, current);
    var (vm1, root) := CreateSpace(vm, current);
    var start := UsedSet(vm.bits);
    if AllAllowed(vm1, root, ops, start, {}) {
      var r := Run(vm1, root, ops, start, {});
      LosslessRuns(vm1, root, ops, start, {});
      DestroyLeaves(r.vm, root, r.base, r.leaked);
      SameUsed(Reclaim(r.vm.bits, Owned(r.vm, root)), vm.bits);
      assert r.leaked != {} ==> exists x :: x in r.leaked;
    }
  }

  lemma SameUsed(bits: seq<bool>, bits': seq<bool>)
    requires |bits| == |bits'|
    ensures bits == bits' <==> UsedSet(bits) == UsedSet(bits')
  {
    if UsedSet(bits) == UsedSet(bits') {
      forall i: nat | i < |bits|
        ensures bits[i] == bits'[i]
      {
        assert i in UsedSet(bits) <==> i in UsedSet(bits');
      }
    }
  }

  lemma StepLength(vm: Vm, root: nat, op: Op, leaked: set<nat>)
    requires Sized(vm) && Allowed(vm, root, op, leaked)
    ensures |Step(vm, root, op).0.bits| == |vm.bits|
  {
  }

  /** Giving back all a space owns leaves what others hold and what it lost. */
  lemma DestroyLeaves(vm: Vm, root: nat, base: set<nat>, leaked: set<nat>)
    requires Accounted(vm, root, base, leaked)
    ensures UsedSet(Reclaim(vm.bits, Owned(vm, root))) == base + leaked && base !! leaked
  {
    var final := Reclaim(vm.bits, Owned(vm, root));
    forall x: nat | x < |vm.bits|
      ensures final[x] <==> x in base || x in leaked
      ensures !(x in base && x in leaked)
    {
      assert Share(vm, root, base, leaked, x);
    }
    assert UsedSet(final) == base + leaked;
  }
}

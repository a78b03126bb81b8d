/** What the entries of the page tables say: where they point and with which rights. */
module Access {
  import opened Options
  import opened PageBits
  import opened PageTables
  import opened AddressSpaces

  /** Entry `idx` of the table at `p`; where there is no table there is no entry. */
  function Slot(vm: Vm, root: nat, p: Path, idx: Ix): Entry {
    match TableAt(vm, root, p)
    case None => ABSENT
    case Some(t) => EntryOf(vm, t, idx)
  }

  ghost predicate SameSlots(vm: Vm, vm': Vm, root: nat) {
    forall p, idx: Ix :: Slot(vm', root, p, idx) == Slot(vm, root, p, idx)
  }

  /** Present, writable, for the user, and nothing else. */
  predicate Open(e: Entry) {
    e.flags == Flags(true, true, true, false, 0)
  }

  /** The entry is as it was, or it is a new link to a table of the user half: absent before, open now. */
  ghost predicate Linked(vm: Vm, vm': Vm, root: nat, p: Path, idx: Ix) {
    || Slot(vm', root, p, idx) == Slot(vm, root, p, idx)
    || (HasChild(p, idx) && !Present(Slot(vm, root, p, idx)) && Open(Slot(vm', root, p, idx)))
  }

  ghost predicate AddsLinks(vm: Vm, vm': Vm, root: nat) {
    forall p, idx: Ix :: Linked(vm, vm', root, p, idx)
  }

  lemma AddsLinksTransitive(a: Vm, b: Vm, c: Vm, root: nat)
    requires AddsLinks(a, b, root) && AddsLinks(b, c, root)
    ensures AddsLinks(a, c, root)
  {
    hide Slot;
    forall p, idx: Ix
      ensures Linked(a, c, root, p, idx)
    {
      assert Linked(a, b, root, p, idx) && Linked(b, c, root, p, idx);
    }
  }

  // ---- One map ----

  lemma InstallSlots(vm: Vm, vm': Vm, root: nat, q: Path, idx: Ix, n: nat)
    requires Installed(vm, vm', root, q, idx, n)
    ensures AddsLinks(vm, vm', root)
  {
    forall p, j: Ix
      ensures Slot(vm', root, p, j) ==
        if p == q && j == idx then Entry(n, Flags(true, true, true, false, 0)) else Slot(vm, root, p, j)
    {
      TableAtAfterInstall(vm, vm', root, q, idx, n, p);
      if TableAt(vm, root, p).Some? {
        EntryAfterInstall(vm, vm', root, q, idx, n, p, j);
      }
    }
  }

  lemma EnsureSlots(vm: Vm, root: nat, q: Path, idx: Ix)
    requires WellFormed(vm, root) && TableAt(vm, root, q).Some? && HasChild(q, idx)
    ensures AddsLinks(vm, EnsureTable(vm, TableAt(vm, root, q).value, idx).0, root)
  {
    var t := TableAt(vm, root, q).value;
    var (vm', r) := EnsureTable(vm, t, idx);
    if !Present(vm.mem[t][idx]) && r.Some? {
      InstallSlots(vm, vm', root, q, idx, r.value);
    }
  }

  lemma AddsNone(vm: Vm, root: nat)
    ensures AddsLinks(vm, vm, root)
  {
  }

  lemma {:induction false} EnsurePathSlots(vm: Vm, root: nat, p: Path)
    requires WellFormed(vm, root)
    ensures AddsLinks(vm, EnsurePath(vm, root, p).0, root)
    decreases Level(p)
  {
    hide Linked, AddsLinks, KeepsPages, TakesTablesOnly, SameFrames, MissingTables;
    if p.Root? {
      AddsNone(vm, root);
    } else {
      var (vm1, t) := EnsurePath(vm, root, Parent(p));
      EnsurePathSlots(vm, root, Parent(p));
      EnsurePathGrows(vm, root, Parent(p));
      if t.Some? {
        assert Child(Parent(p), Last(p)) == p;
        EnsureSlots(vm1, root, Parent(p), Last(p));
        AddsLinksTransitive(vm, vm1, EnsureTable(vm1, t.value, Last(p)).0, root);
      }
    }
  }

  lemma LeafSlots(vm: Vm, root: nat, v: Vpn, e: Entry)
    requires WellFormed(vm, root) && TableAt(vm, root, PtOf(v)).Some?
    ensures
      var vm' := SetEntry(vm, TableAt(vm, root, PtOf(v)).value, LeafIx(v), e);
      forall p, idx: Ix :: Slot(vm', root, p, idx) ==
        if p == PtOf(v) && idx == LeafIx(v) then e else Slot(vm, root, p, idx)
  {
    forall p {
      TableAtAfterLeaf(vm, root, v, e, p);
    }
  }

  /** The entry of `v` is `e` if `done`; all others are as they were or new links. */
  ghost predicate Enters(vm: Vm, vm': Vm, root: nat, v: Vpn, done: bool, e: Entry) {
    forall p, idx: Ix ::
      if done && p == PtOf(v) && idx == LeafIx(v) then Slot(vm', root, p, idx) == e else Linked(vm, vm', root, p, idx)
  }

  /** vmm_map_page, entry by entry.  With pages for its tables, the entry of `v` is the frame with the flags asked
      for and the present bit.  The entries of all other pages are as before, those of the kernel's half of the
      root too; what else is new are links to new tables, present, writable and for the user. */
  lemma MapPageEnters(vm: Vm, root: nat, v: Vpn, frame: nat, flags: Flags)
    requires WellFormed(vm, root)
    ensures Enters(vm, MapPage(vm, root, v, frame, flags), root, v, EnoughForMap(vm, root, v),
                   Entry(frame, Flags(true, flags.rw, flags.user, flags.huge, flags.rest)))
  {
    hide Linked, AddsLinks, KeepsPages, TakesTablesOnly, SameFrames, FreeCount, MapPage, EnsurePath, TableAt, PtOf;
    hide Enters;
    var p := PtOf(v);
    MapPageUnfold(vm, root, v, frame, flags);
    EnsurePathGrows(vm, root, p);
    EnsurePathInRange(vm, root, p);
    EnsurePathSlots(vm, root, p);
    var mid := EnsurePath(vm, root, p).0;
    if EnoughForMap(vm, root, v) {
      LeafEnters(vm, mid, root, v, Entry(frame, WithPresent(flags)));
    } else {
      NothingEnters(vm, mid, root, v, Entry(frame, WithPresent(flags)));
    }
  }

  lemma NothingEnters(vm: Vm, mid: Vm, root: nat, v: Vpn, e: Entry)
    requires AddsLinks(vm, mid, root)
    ensures Enters(vm, mid, root, v, false, e)
  {
  }

  lemma LeafEnters(vm: Vm, mid: Vm, root: nat, v: Vpn, e: Entry)
    requires AddsLinks(vm, mid, root) && WellFormed(mid, root) && TableAt(mid, root, PtOf(v)).Some?
    ensures Enters(vm, SetEntry(mid, TableAt(mid, root, PtOf(v)).value, LeafIx(v), e), root, v, true, e)
  {
    LeafSlots(mid, root, v, e);
    hide Slot, TableAt, PtOf;
    var vm' := SetEntry(mid, TableAt(mid, root, PtOf(v)).value, LeafIx(v), e);
    forall p, idx: Ix | !(p == PtOf(v) && idx == LeafIx(v))
      ensures Linked(vm, vm', root, p, idx)
    {
      assert Linked(vm, mid, root, p, idx);
    }
  }

  /** What the processor checks for a user's write to page `v`: all four entries on the way are present, writable
      and for the user. */
  predicate Usable(e: Entry) {
    e.flags.present && e.flags.rw && e.flags.user
  }

  predicate UserWritable(vm: Vm, root: nat, v: Vpn) {
    var p := PtOf(v);
    && Usable(Slot(vm, root, Root, p.i))
    && Usable(Slot(vm, root, Pdpt(p.i), p.j))
    && Usable(Slot(vm, root, Pd(p.i, p.j), p.k))
    && Usable(Slot(vm, root, p, LeafIx(v)))
  }

  /** A map at another page keeps that, whatever its flags and whether or not it has pages enough; so does one at
      the page itself with rights to write for the user. */
  lemma MapKeepsWritable(vm: Vm, root: nat, v: Vpn, frame: nat, flags: Flags, w: Vpn)
    requires WellFormed(vm, root) && UserWritable(vm, root, w)
    requires v != w || (flags.rw && flags.user)
    ensures UserWritable(MapPage(vm, root, v, frame, flags), root, w)
  {
    hide MapPage, Enters, UserWritable;
    MapPageEnters(vm, root, v, frame, flags);
    EntersWritable(vm, MapPage(vm, root, v, frame, flags), root, v, EnoughForMap(vm, root, v),
                   Entry(frame, Flags(true, flags.rw, flags.user, flags.huge, flags.rest)), w);
  }

  lemma EntersWritable(vm: Vm, vm': Vm, root: nat, v: Vpn, done: bool, e: Entry, w: Vpn)
    requires Enters(vm, vm', root, v, done, e) && UserWritable(vm, root, w) && (v != w || Usable(e))
    ensures UserWritable(vm', root, w)
  {
    hide Slot;
    var p := PtOf(w);
    if p == PtOf(v) && LeafIx(w) == LeafIx(v) { VpnDetermined(v, w); }
    assert Linked(vm, vm', root, Root, p.i);
    assert Linked(vm, vm', root, Pdpt(p.i), p.j);
    assert Linked(vm, vm', root, Pd(p.i, p.j), p.k);
  }

  // ---- Taking and giving back pages ----

  lemma AgreeingSlots(vm: Vm, vm': Vm, root: nat)
    requires AgreeOnTables(vm, vm', root)
    ensures SameSlots(vm, vm', root)
  {
    forall p {
      SameTableAt(vm, vm', root, p);
    }
  }

  lemma AllocSlots(vm: Vm, root: nat)
    requires WellFormed(vm, root)
    ensures SameSlots(vm, AllocZeroed(vm).0, root)
  {
    AgreeingSlots(vm, AllocZeroed(vm).0, root);
  }

  /** A page given back has no entry any more; nothing else changes in the tables. */
  lemma ReleaseSlots(vm: Vm, root: nat, v: Vpn)
    requires WellFormed(vm, root) && OwnsFrames(vm, root)
    ensures
      forall p, idx: Ix :: Slot(Release(vm, root, v), root, p, idx) ==
        if FrameAt(vm, root, v).Some? && p == PtOf(v) && idx == LeafIx(v) then Entry(0, ABSENT.flags)
        else Slot(vm, root, p, idx)
  {
    ReleaseUnfold(vm, root, v);
    if FrameAt(vm, root, v).Some? {
      var mid := UnmapPage(vm, root, v);
      UnmapIsLeafWrite(vm, root, v);
      LeafSlots(vm, root, v, ABSENT);
      AgreeingSlots(mid, FreePage(mid, FrameAt(vm, root, v).value), root);
    }
  }

  lemma UnmapIsLeafWrite(vm: Vm, root: nat, v: Vpn)
    requires WellFormed(vm, root) && TableAt(vm, root, PtOf(v)).Some?
    ensures UnmapPage(vm, root, v) == SetEntry(vm, TableAt(vm, root, PtOf(v)).value, LeafIx(v), ABSENT)
  {
    var p := PtOf(v);
    assert TableAt(vm, root, Root) == Some(root);
    assert Parent(p) == Pd(p.i, p.j) && Parent(Pd(p.i, p.j)) == Pdpt(p.i) && Parent(Pdpt(p.i)) == Root;
  }

  // ---- A space all of whose pages the user may write ----

  /** Every present entry of the user half is open. */
  ghost predicate AllOpen(vm: Vm, root: nat) {
    forall p: Path, idx: Ix ::
      (p.Pt? || HasChild(p, idx)) && Present(Slot(vm, root, p, idx)) ==> Open(Slot(vm, root, p, idx))
  }

  ghost predicate KeepsOpen(vm: Vm, vm': Vm, root: nat) {
    AllOpen(vm, root) ==> AllOpen(vm', root)
  }

  /** In such a space every mapped page is the user's to write. */
  lemma MappedIsWritable(vm: Vm, root: nat, v: Vpn)
    requires AllOpen(vm, root) && FrameAt(vm, root, v).Some?
    ensures UserWritable(vm, root, v)
  {
    var p := PtOf(v);
    assert Parent(p) == Pd(p.i, p.j) && Parent(Pd(p.i, p.j)) == Pdpt(p.i) && Parent(Pdpt(p.i)) == Root;
    assert TableAt(vm, root, Root) == Some(root) && TableAt(vm, root, Pd(p.i, p.j)).Some?;
    assert TableAt(vm, root, Pdpt(p.i)).Some?;
    assert Present(Slot(vm, root, Root, p.i)) && Present(Slot(vm, root, Pdpt(p.i), p.j));
    assert Present(Slot(vm, root, Pd(p.i, p.j), p.k)) && Present(Slot(vm, root, p, LeafIx(v)));
  }

  /** Every mapped page is the user's to write. */
  ghost predicate AllWritable(vm: Vm, root: nat) {
    forall v: Vpn :: FrameAt(vm, root, v).Some? ==> UserWritable(vm, root, v)
  }

  lemma OpenIsWritable(vm: Vm, root: nat)
    requires AllOpen(vm, root)
    ensures AllWritable(vm, root)
  {
    forall v: Vpn | FrameAt(vm, root, v).Some?
      ensures UserWritable(vm, root, v)
    {
      MappedIsWritable(vm, root, v);
    }
  }

  /** The flags that exec, mmap and process_create pass: writable, for the user, and nothing else. */
  predicate ForUser(flags: Flags) {
    Flags(true, flags.rw, flags.user, flags.huge, flags.rest) == Flags(true, true, true, false, 0)
  }

  lemma EntersOpen(vm: Vm, vm': Vm, root: nat, v: Vpn, done: bool, e: Entry)
    requires AllOpen(vm, root) && Enters(vm, vm', root, v, done, e) && Open(e)
    ensures AllOpen(vm', root)
  {
    hide Slot, PtOf;
    forall p: Path, idx: Ix | (p.Pt? || HasChild(p, idx)) && Present(Slot(vm', root, p, idx))
      ensures Open(Slot(vm', root, p, idx))
    {
      if done && p == PtOf(v) && idx == LeafIx(v) {
      } else {
        assert Linked(vm, vm', root, p, idx);
      }
    }
  }

  lemma SameSlotsOpen(vm: Vm, vm': Vm, root: nat)
    requires AllOpen(vm, root) && SameSlots(vm, vm', root)
    ensures AllOpen(vm', root)
  {
    hide Slot;
  }

  /** A fresh map with such flags and a release keep a space that way. */
  lemma MapFreshOpen(vm: Vm, root: nat, v: Vpn, flags: Flags)
    requires WellFormed(vm, root) && AllOpen(vm, root) && ForUser(flags)
    ensures AllOpen(MapFresh(vm, root, v, flags).0, root)
  {
    hide Slot, AllOpen;
    AllocKeepsTree(vm, root);
    AllocSlots(vm, root);
    var (vm1, n) := AllocZeroed(vm);
    SameSlotsOpen(vm, vm1, root);
    if n.Some? {
      MapPageEnters(vm1, root, v, n.value, flags);
      EntersOpen(vm1, MapPage(vm1, root, v, n.value, flags), root, v, EnoughForMap(vm1, root, v),
                 Entry(n.value, Flags(true, flags.rw, flags.user, flags.huge, flags.rest)));
    }
  }

  lemma ReleaseOpen(vm: Vm, root: nat, v: Vpn)
    requires WellFormed(vm, root) && OwnsFrames(vm, root) && AllOpen(vm, root)
    ensures AllOpen(Release(vm, root, v), root)
  {
    hide Slot, WellFormed, OwnsFrames, Release;
    ReleaseSlots(vm, root, v);
    assert !Present(Entry(0, ABSENT.flags));
  }

  /** A new space is that way: it has no present entry in the user half. */
  lemma CreateOpen(vm: Vm, current: nat)
    requires Sized(vm) && FreeCount(vm.bits) > 0
    ensures AllOpen(CreateSpace(vm, current).0, CreateSpace(vm, current).1)
  {
    var (vm', root) := CreateSpace(vm, current);
    NoneFree(vm.bits);
    forall i: Ix | i < 256 ensures !Present(EntryOf(vm', root, i)) {}
    forall p {
      CreatedTables(vm', root, p);
    }
  }

  // ---- Over whole runs ----

  predicate MapsForUser(ops: seq<Op>) {
    forall i :: 0 <= i < |ops| && ops[i].MapOp? ==> ForUser(ops[i].flags)
  }

  lemma StepOpen(vm: Vm, root: nat, op: Op, base: set<nat>, leaked: set<nat>)
    requires Accounted(vm, root, base, leaked) && Allowed(vm, root, op, leaked) && AllOpen(vm, root)
    requires op.MapOp? ==> ForUser(op.flags)
    ensures AllOpen(Step(vm, root, op).0, root)
  {
    hide AllOpen, SameSlots;
    match op
    case MapOp(v, flags) => MapFreshOpen(vm, root, v, flags);
    case ReleaseOp(v) => ReleaseOpen(vm, root, v);
    case Others(vm') =>
      AgreeingSlots(vm, vm', root);
      SameSlotsOpen(vm, vm', root);
  }

  lemma SameSlotsWritable(vm: Vm, vm': Vm, root: nat, v: Vpn)
    requires SameSlots(vm, vm', root) && UserWritable(vm, root, v)
    ensures UserWritable(vm', root, v)
  {
    hide Slot;
  }

  lemma ReleaseWritable(vm: Vm, root: nat, w: Vpn, v: Vpn)
    requires WellFormed(vm, root) && OwnsFrames(vm, root) && UserWritable(vm, root, v) && w != v
    ensures UserWritable(Release(vm, root, w), root, v)
  {
    hide Slot, WellFormed, OwnsFrames, Release;
    ReleaseSlots(vm, root, w);
    if PtOf(v) == PtOf(w) && LeafIx(v) == LeafIx(w) { VpnDetermined(v, w); }
  }

  /** Every step keeps a page the user may write that way, but for a release of that page and a map there without
      such rights. */
  lemma StepKeepsWritable(vm: Vm, root: nat, op: Op, base: set<nat>, leaked: set<nat>, v: Vpn)
    requires Accounted(vm, root, base, leaked) && Allowed(vm, root, op, leaked) && UserWritable(vm, root, v)
    requires op != ReleaseOp(v)
    requires op.MapOp? && op.v == v ==> op.flags.rw && op.flags.user
    ensures UserWritable(Step(vm, root, op).0, root, v)
  {
    hide UserWritable, SameSlots;
    match op
    case MapOp(w, flags) =>
      AllocKeepsTree(vm, root);
      AllocSlots(vm, root);
      var (vm1, n) := AllocZeroed(vm);
      SameSlotsWritable(vm, vm1, root, v);
      if n.Some? { MapKeepsWritable(vm1, root, w, n.value, flags, v); }
    case ReleaseOp(w) => ReleaseWritable(vm, root, w, v);
    case Others(vm') =>
      AgreeingSlots(vm, vm', root);
      SameSlotsWritable(vm, vm', root, v);
  }

  lemma {:induction false} RunOpen(vm: Vm, root: nat, ops: seq<Op>, base: set<nat>, leaked: set<nat>)
    requires Accounted(vm, root, base, leaked) && AllAllowed(vm, root, ops, base, leaked) && MapsForUser(ops)
    requires AllOpen(vm, root)
    ensures AllOpen(Run(vm, root, ops, base, leaked).vm, root)
    decreases |ops|
  {
    hide AllOpen;
    if ops != [] {
      StepAccounted(vm, root, ops[0], base, leaked);
      StepOpen(vm, root, ops[0], base, leaked);
      var (vm1, lost) := Step(vm, root, ops[0]);
      RunOpen(vm1, root, ops[1..], BaseAfter(vm, root, ops[0], base, leaked), leaked + lost);
    }
  }

  /** Create a space and run any steps in it, with any others in between: every page mapped at the end is the
      user's to write. */
  lemma LifeWritable(vm: Vm, current: nat, ops: seq<Op>)
    requires Sized(vm) && FreeCount(vm.bits) > 0 && MapsForUser(ops)
    ensures
      var (vm1, root) := CreateSpace(vm, current);
      Accounted(vm1, root, UsedSet(vm.bits), {}) &&
      (AllAllowed(vm1, root, ops, UsedSet(vm.bits), {}) ==>
         AllWritable(Run(vm1, root, ops, UsedSet(vm.bits), {}).vm, root))
  {
    hide AllOpen;
    CreateAccounted(vm, current);
    CreateOpen(vm, current);
    var (vm1, root) := CreateSpace(vm, current);
    if AllAllowed(vm1, root, ops, UsedSet(vm.bits), {}) {
      RunOpen(vm1, root, ops, UsedSet(vm.bits), {});
      OpenIsWritable(Run(vm1, root, ops, UsedSet(vm.bits), {}).vm, root);
    }
  }
}

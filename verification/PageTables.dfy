/** Four-level page tables stored in physical pages, as values.

    A table pointer is the number of the page that holds the table.  A 64-bit entry is split at
    bit 12 into the page number it points to and its flag bits.  Each physical page is seen
    through two views, as 512 entries (`mem`) and as 4096 bytes (`data`); `WellFormed` and
    `OwnsFrames` keep the pages used as tables apart from the pages used as data. */
module PageTables {
  import opened Options
  import opened PageBits

  type Ix = n: nat | n < 512
  type UserIx = n: nat | n < 256
  /** Lower-half virtual page number: a virtual address below 2^47, divided by 4096. */
  type Vpn = n: nat | n < 0x8_0000_0000
  const USER_END: nat := 0x8000_0000_0000

  /** Bits 0, 1, 2 and 7 of an entry, and the other low bits, which the kernel never examines. */
  datatype Flags = Flags(present: bool, rw: bool, user: bool, huge: bool, rest: nat)
  datatype Entry = Entry(frame: nat, flags: Flags)

  /** PML4_PRESENT | PML4_RW | PML4_USER. */
  const TABLE_FLAGS := Flags(true, true, true, false, 0)
  /** PML4_RW | PML4_USER. */
  const USER_RW := Flags(false, true, true, false, 0)
  const ABSENT := Entry(0, Flags(false, false, false, false, 0))

  function WithPresent(f: Flags): Flags {
    Flags(true, f.rw, f.user, f.huge, f.rest)
  }

  type Table = t: seq<Entry> | |t| == 512 witness seq(512, _ => ABSENT)

  function ZeroTable(): (t: Table)
    ensures forall i :: 0 <= i < 512 ==> t[i] == ABSENT
  {
    seq(512, _ => ABSENT)
  }

  newtype byte = x: int | 0 <= x < 256
  type Bytes = s: seq<byte> | |s| == 4096 witness seq(4096, _ => 0)

  function ZeroBytes(): (b: Bytes)
    ensures forall i :: 0 <= i < 4096 ==> b[i] == 0
  {
    seq(4096, _ => 0)
  }

  /** The page bitmap and physical memory. */
  datatype Vm = Vm(bits: seq<bool>, mem: seq<Table>, data: seq<Bytes>)

  predicate Present(e: Entry) {
    e.flags.present
  }

  predicate Huge(e: Entry) {
    e.flags.huge
  }

  predicate Sized(vm: Vm) {
    |vm.mem| == |vm.bits| && |vm.data| == |vm.bits| && |vm.bits| > 0 && vm.bits[0]
  }

  // ---- The tree of user tables ----

  /** Position of a table below the root: the indices that lead to it. */
  datatype Path =
    | Root
    | Pdpt(i: UserIx)
    | Pd(i: UserIx, j: Ix)
    | Pt(i: UserIx, j: Ix, k: Ix)

  function Level(p: Path): nat {
    match p case Root => 0 case Pdpt(_) => 1 case Pd(_, _) => 2 case Pt(_, _, _) => 3
  }

  function Parent(p: Path): Path
    requires !p.Root?
  {
    match p case Pdpt(_) => Root case Pd(i, _) => Pdpt(i) case Pt(i, j, _) => Pd(i, j)
  }

  function Last(p: Path): Ix
    requires !p.Root?
  {
    match p case Pdpt(i) => i case Pd(_, j) => j case Pt(_, _, k) => k
  }

  predicate HasChild(p: Path, idx: Ix) {
    !p.Pt? && (p.Root? ==> idx < 256)
  }

  function Child(p: Path, idx: Ix): (c: Path)
    requires HasChild(p, idx)
    ensures !c.Root? && Parent(c) == p && Last(c) == idx
  {
    match p case Root => Pdpt(idx) case Pdpt(i) => Pd(i, idx) case Pd(i, j) => Pt(i, j, idx)
  }

  function EntryOf(vm: Vm, t: nat, idx: Ix): Entry {
    if t < |vm.mem| then vm.mem[t][idx] else ABSENT
  }

  /** The page holding the table at `p`, found by following present entries from the root. */
  function TableAt(vm: Vm, root: nat, p: Path): Option<nat>
    decreases Level(p)
  {
    if p.Root? then Some(root)
    else
      match TableAt(vm, root, Parent(p))
      case None => None
      case Some(t) =>
        var e := EntryOf(vm, t, Last(p));
        if Present(e) then Some(e.frame) else None
  }

  /** Every user table sits in an allocated page other than page 0, no two paths share a table,
      and no entry above the last level claims a huge page. */
  ghost predicate WellFormed(vm: Vm, root: nat) {
    && Sized(vm)
    && (forall p :: TableAt(vm, root, p).Some? ==>
          0 < TableAt(vm, root, p).value < |vm.bits| && vm.bits[TableAt(vm, root, p).value])
    && (forall p, q :: TableAt(vm, root, p).Some? && TableAt(vm, root, p) == TableAt(vm, root, q) ==> p == q)
    && (forall p: Path :: (p.Pdpt? || p.Pd?) && TableAt(vm, root, p).Some? ==>
          NoHuge(vm, TableAt(vm, root, p).value))
  }

  predicate NoHuge(vm: Vm, t: nat) {
    forall idx: Ix :: !Huge(EntryOf(vm, t, idx))
  }

  // ---- Virtual pages ----

  function PtOf(v: Vpn): Path {
    Pt(v / 0x800_0000, v / 0x4_0000 % 512, v / 512 % 512)
  }

  function LeafIx(v: Vpn): Ix {
    v % 512
  }

  lemma VpnDetermined(v: Vpn, w: Vpn)
    requires PtOf(v) == PtOf(w) && LeafIx(v) == LeafIx(w)
    ensures v == w
  {
    VpnFromPath(v);
    VpnFromPath(w);
  }

  /** The four indices make up the page number. */
  lemma VpnFromPath(v: Vpn)
    ensures var p := PtOf(v); v == p.i * 0x800_0000 + p.j * 0x4_0000 + p.k * 512 + LeafIx(v)
  {
    var a, b, c := v / 512, v / 0x4_0000, v / 0x800_0000;
    assert v == a * 512 + v % 512;
    assert a == b * 512 + a % 512 by { DivTwice(v, 512); }
    assert b == c * 512 + b % 512 by { DivTwice(v, 0x4_0000); }
  }

  lemma DivTwice(x: nat, n: nat)
    requires n == 512 || n == 0x4_0000
    ensures x / n == x / (n * 512) * 512 + x / n % 512
  {
    assert x / n / 512 == x / (n * 512);
  }

  /** The physical page that virtual page `v` maps to, if any. */
  function FrameAt(vm: Vm, root: nat, v: Vpn): Option<nat> {
    match TableAt(vm, root, PtOf(v))
    case None => None
    case Some(t) =>
      var e := EntryOf(vm, t, LeafIx(v));
      if Present(e) then Some(e.frame) else None
  }

  // ---- vmm_translate ----

  /** The walk of vmm_translate, for any 64-bit address; 0 means "not mapped". */
  function Translate(vm: Vm, root: nat, virt: nat): nat {
    if root == 0 then virt else
    var pml4e := EntryOf(vm, root, virt / 0x80_0000_0000 % 512);
    if !Present(pml4e) then 0 else
    var pdpte := EntryOf(vm, pml4e.frame, virt / 0x4000_0000 % 512);
    if !Present(pdpte) then 0 else
    if Huge(pdpte) then OrGigabyte(pdpte.frame * 4096, virt) else
    var pde := EntryOf(vm, pdpte.frame, virt / 0x20_0000 % 512);
    if !Present(pde) then 0 else
    if Huge(pde) then pde.frame * 4096 / 0x20_0000 * 0x20_0000 + virt % 0x20_0000 else
    var pte := EntryOf(vm, pde.frame, virt / 0x1000 % 512);
    if !Present(pte) then 0 else
    pte.frame * 4096 + virt % 4096
  }

  /** `(entry & ~0x1FFFFFFF) | (virt & 0x3FFFFFFF)`: the two operands share bit 29. */
  function OrGigabyte(word: nat, virt: nat): nat {
    var base, low := word / 0x2000_0000 * 0x2000_0000, virt % 0x4000_0000;
    if base / 0x2000_0000 % 2 == 1 && low / 0x2000_0000 == 1 then base + low - 0x2000_0000 else base + low
  }

  /** The four index fields of an address are those of its page. */
  lemma IndexSplit(virt: nat)
    requires virt < USER_END
    ensures virt / 0x80_0000_0000 % 512 == PtOf(virt / 4096).i
    ensures virt / 0x4000_0000 % 512 == PtOf(virt / 4096).j
    ensures virt / 0x20_0000 % 512 == PtOf(virt / 4096).k
    ensures virt / 0x1000 % 512 == LeafIx(virt / 4096)
  {
  }

  /** On a well-formed tree the walk returns the mapped frame plus the page offset. */
  lemma TranslateIsFrame(vm: Vm, root: nat, virt: nat)
    requires WellFormed(vm, root) && virt < USER_END
    ensures Translate(vm, root, virt) ==
      match FrameAt(vm, root, virt / 4096) case None => 0 case Some(f) => f * 4096 + virt % 4096
  {
    var v: Vpn := virt / 4096;
    var p := PtOf(v);
    IndexSplit(virt);
    assert TableAt(vm, root, Root) == Some(root);
    assert Parent(p) == Pd(p.i, p.j) && Parent(Pd(p.i, p.j)) == Pdpt(p.i) && Parent(Pdpt(p.i)) == Root;
    var a := TableAt(vm, root, Pdpt(p.i));
    if a.Some? {
      assert !Huge(EntryOf(vm, a.value, p.j));
      var b := TableAt(vm, root, Pd(p.i, p.j));
      if b.Some? {
        assert !Huge(EntryOf(vm, b.value, p.k));
      }
    }
  }

  /** A huge page of 2 MB keeps the low 21 bits of the address and takes the others from its entry. */
  lemma HugePageTranslates(vm: Vm, root: nat, virt: nat)
    requires root != 0
    requires
      var pml4e := EntryOf(vm, root, virt / 0x80_0000_0000 % 512);
      var pdpte := EntryOf(vm, pml4e.frame, virt / 0x4000_0000 % 512);
      var pde := EntryOf(vm, pdpte.frame, virt / 0x20_0000 % 512);
      Present(pml4e) && Present(pdpte) && !Huge(pdpte) && Present(pde) && Huge(pde)
    ensures
      var pdpte := EntryOf(vm, EntryOf(vm, root, virt / 0x80_0000_0000 % 512).frame, virt / 0x4000_0000 % 512);
      var pde, phys := EntryOf(vm, pdpte.frame, virt / 0x20_0000 % 512), Translate(vm, root, virt);
      phys % 0x20_0000 == virt % 0x20_0000 && phys / 0x20_0000 == pde.frame / 512
  {
    var pdpte := EntryOf(vm, EntryOf(vm, root, virt / 0x80_0000_0000 % 512).frame, virt / 0x4000_0000 % 512);
    var base := EntryOf(vm, pdpte.frame, virt / 0x20_0000 % 512).frame * 4096 / 0x20_0000;
    SumParts(base, virt % 0x20_0000);
  }

  /** One of 1 GB keeps the low 29 bits of the address and takes those from bit 30 up from its entry; bit 29 is set
      where either has it, because the two masks of the code overlap there. */
  lemma GigabytePageTranslates(vm: Vm, root: nat, virt: nat)
    requires root != 0
    requires
      var pml4e := EntryOf(vm, root, virt / 0x80_0000_0000 % 512);
      var pdpte := EntryOf(vm, pml4e.frame, virt / 0x4000_0000 % 512);
      Present(pml4e) && Present(pdpte) && Huge(pdpte)
    ensures
      var pdpte := EntryOf(vm, EntryOf(vm, root, virt / 0x80_0000_0000 % 512).frame, virt / 0x4000_0000 % 512);
      var word, phys := pdpte.frame * 4096, Translate(vm, root, virt);
      && phys % 0x2000_0000 == virt % 0x2000_0000
      && phys / 0x4000_0000 == word / 0x4000_0000
      && (phys / 0x2000_0000 % 2 == 1 <==> word / 0x2000_0000 % 2 == 1 || virt / 0x2000_0000 % 2 == 1)
  {
    var pdpte := EntryOf(vm, EntryOf(vm, root, virt / 0x80_0000_0000 % 512).frame, virt / 0x4000_0000 % 512);
    GigabyteParts(pdpte.frame * 4096, virt);
  }

  lemma SumParts(q: nat, r: nat)
    requires r < 0x20_0000
    ensures (q * 0x20_0000 + r) / 0x20_0000 == q && (q * 0x20_0000 + r) % 0x20_0000 == r
  {
  }

  lemma GigabyteParts(word: nat, virt: nat)
    ensures OrGigabyte(word, virt) % 0x2000_0000 == virt % 0x2000_0000
    ensures OrGigabyte(word, virt) / 0x4000_0000 == word / 0x4000_0000
    ensures OrGigabyte(word, virt) / 0x2000_0000 % 2 == 1 <==>
      word / 0x2000_0000 % 2 == 1 || virt / 0x2000_0000 % 2 == 1
  {
    var w, v, l := word / 0x2000_0000, virt / 0x2000_0000, virt % 0x2000_0000;
    HalfGigabytes(word);
    HalfGigabytes(virt);
    var both := if w % 2 == 1 || v % 2 == 1 then 1 else 0;
    ThreeParts(w / 2, both, l);
    ThreeParts(w / 2, w % 2, 0);
    ThreeParts(0, v % 2, l);
    assert OrGigabyte(word, virt) == w / 2 * 0x4000_0000 + both * 0x2000_0000 + l;
  }

  /** A word in units of 1 GB, its bit 29 and its low 29 bits. */
  lemma HalfGigabytes(x: nat)
    ensures x / 0x2000_0000 == x / 0x4000_0000 * 2 + x / 0x2000_0000 % 2
    ensures x % 0x4000_0000 == x / 0x2000_0000 % 2 * 0x2000_0000 + x % 0x2000_0000
  {
  }

  lemma ThreeParts(q: nat, b: nat, l: nat)
    requires b <= 1 && l < 0x2000_0000
    ensures var x := q * 0x4000_0000 + b * 0x2000_0000 + l;
            x % 0x2000_0000 == l && x / 0x4000_0000 == q && x / 0x2000_0000 % 2 == b && x / 0x2000_0000 == 2 * q + b
  {
  }

  function PhysOf(f: Option<nat>): nat {
    if f.Some? then f.value * 4096 else 0
  }

  lemma TranslatePage(vm: Vm, root: nat, v: Vpn)
    requires WellFormed(vm, root)
    ensures Translate(vm, root, v * 4096) == PhysOf(FrameAt(vm, root, v))
  {
    hide WellFormed, Translate, FrameAt;
    assert v * 4096 < USER_END && v * 4096 / 4096 == v && v * 4096 % 4096 == 0;
    TranslateIsFrame(vm, root, v * 4096);
  }

  // ---- Allocation and table creation ----

  /** pmm_alloc_page followed by clearing the page. */
  function AllocZeroed(vm: Vm): (r: (Vm, Option<nat>))
    requires Sized(vm)
    ensures Sized(r.0)
    ensures r.1.Some? ==> 0 < r.1.value < |vm.bits| && !vm.bits[r.1.value]
    ensures r.1.None? ==> r.0 == vm
  {
    var n := FirstFree(vm.bits);
    if n == |vm.bits| then (vm, None)
    else (Vm(vm.bits[n := true], vm.mem[n := ZeroTable()], vm.data[n := ZeroBytes()]), Some(n))
  }

  function SetEntry(vm: Vm, t: nat, idx: Ix, e: Entry): Vm
    requires t < |vm.mem|
  {
    Vm(vm.bits, vm.mem[t := vm.mem[t][idx := e]], vm.data)
  }

  /** One level of vmm_map_page: follow entry `idx` of table `t`, creating the next table if absent. */
  function EnsureTable(vm: Vm, t: nat, idx: Ix): (r: (Vm, Option<nat>))
    requires Sized(vm)
    ensures Sized(r.0)
    ensures |r.0.bits| == |vm.bits|
  {
    if t >= |vm.mem| then (vm, None)
    else if Present(vm.mem[t][idx]) then (vm, Some(vm.mem[t][idx].frame))
    else
      var (vm1, n) := AllocZeroed(vm);
      if n.None? then (vm, None)
      else (SetEntry(vm1, t, idx, Entry(n.value, TABLE_FLAGS)), n)
  }

  // ---- What creating tables leaves alone ----

  ghost predicate IsTable(vm: Vm, root: nat, page: nat) {
    exists p :: TableAt(vm, root, p) == Some(page)
  }

  ghost predicate SameFrames(vm: Vm, vm': Vm, root: nat) {
    forall v: Vpn :: FrameAt(vm', root, v) == FrameAt(vm, root, v)
  }

  /** Every table stays where it was, and every other page in use keeps its contents. */
  ghost predicate KeepsPages(vm: Vm, vm': Vm, root: nat) {
    && Sized(vm) && Sized(vm') && |vm'.bits| == |vm.bits|
    && (forall p :: TableAt(vm, root, p).Some? ==> TableAt(vm', root, p) == TableAt(vm, root, p))
    && (forall x :: 0 <= x < |vm.bits| && vm.bits[x] ==> vm'.bits[x] && vm'.data[x] == vm.data[x])
    && (forall x :: 0 <= x < |vm.bits| && vm.bits[x] && !IsTable(vm, root, x) ==> vm'.mem[x] == vm.mem[x])
  }

  /** The pages taken are exactly the new tables, and they were free before. */
  ghost predicate TakesTablesOnly(vm: Vm, vm': Vm, root: nat) {
    && |vm'.bits| == |vm.bits|
    && (forall x :: 0 <= x < |vm.bits| && vm'.bits[x] && !vm.bits[x] ==> IsTable(vm', root, x))
    && (forall p :: TableAt(vm', root, p).Some? && TableAt(vm, root, p).None? ==>
          TableAt(vm', root, p).value < |vm.bits| && !vm.bits[TableAt(vm', root, p).value])
  }

  ghost predicate Grows(vm: Vm, vm': Vm, root: nat) {
    && WellFormed(vm, root) && WellFormed(vm', root)
    && SameFrames(vm, vm', root)
    && KeepsPages(vm, vm', root)
    && TakesTablesOnly(vm, vm', root)
  }

  lemma GrowsReflexive(vm: Vm, root: nat)
    requires WellFormed(vm, root)
    ensures Grows(vm, vm, root)
  {
  }

  lemma GrowsTransitive(a: Vm, b: Vm, c: Vm, root: nat)
    requires Grows(a, b, root) && Grows(b, c, root)
    ensures Grows(a, c, root)
  {
    forall x | 0 <= x < |a.bits| && c.bits[x] && !a.bits[x]
      ensures IsTable(c, root, x)
    {
      if b.bits[x] {
        var p :| TableAt(b, root, p) == Some(x);
        assert TableAt(c, root, p) == Some(x);
      }
    }
    forall x | 0 <= x < |a.bits| && a.bits[x] && !IsTable(a, root, x)
      ensures c.mem[x] == a.mem[x]
    {
      forall p
        ensures TableAt(b, root, p) != Some(x)
      {
        assert TableAt(a, root, p) != Some(x);
      }
    }
  }

  /** `vm'` is `vm` with a fresh empty table `n` hung below entry `idx` of the table at `q`. */
  ghost predicate Installed(vm: Vm, vm': Vm, root: nat, q: Path, idx: Ix, n: nat) {
    && WellFormed(vm, root)
    && HasChild(q, idx) && TableAt(vm, root, q).Some?
    && !Present(EntryOf(vm, TableAt(vm, root, q).value, idx))
    && 0 < n < |vm.bits| && !vm.bits[n]
    && vm' == SetEntry(Vm(vm.bits[n := true], vm.mem[n := ZeroTable()], vm.data[n := ZeroBytes()]),
                       TableAt(vm, root, q).value, idx, Entry(n, TABLE_FLAGS))
  }

  lemma EntryAfterInstall(vm: Vm, vm': Vm, root: nat, q: Path, idx: Ix, n: nat, p: Path, j: Ix)
    requires Installed(vm, vm', root, q, idx, n) && TableAt(vm, root, p).Some?
    ensures
      var t := TableAt(vm, root, p).value;
      EntryOf(vm', t, j) == if p == q && j == idx then Entry(n, TABLE_FLAGS) else EntryOf(vm, t, j)
  {
  }

  lemma {:induction false} TableAtAfterInstall(vm: Vm, vm': Vm, root: nat, q: Path, idx: Ix, n: nat, p: Path)
    requires Installed(vm, vm', root, q, idx, n)
    ensures TableAt(vm', root, p) == if p == Child(q, idx) then Some(n) else TableAt(vm, root, p)
    decreases Level(p)
  {
    if !p.Root? {
      var pp := Parent(p);
      TableAtAfterInstall(vm, vm', root, q, idx, n, pp);
      if TableAt(vm, root, pp).Some? {
        EntryAfterInstall(vm, vm', root, q, idx, n, pp, Last(p));
        if pp == q && Last(p) == idx { assert p == Child(q, idx); }
      }
    }
  }

  lemma InstallKeepsShape(vm: Vm, vm': Vm, root: nat, q: Path, idx: Ix, n: nat)
    requires Installed(vm, vm', root, q, idx, n)
    ensures WellFormed(vm', root)
    ensures SameFrames(vm, vm', root)
  {
    forall p
      ensures TableAt(vm', root, p) == if p == Child(q, idx) then Some(n) else TableAt(vm, root, p)
    {
      TableAtAfterInstall(vm, vm', root, q, idx, n, p);
    }
    forall p: Path | (p.Pdpt? || p.Pd?) && TableAt(vm', root, p).Some?
      ensures NoHuge(vm', TableAt(vm', root, p).value)
    {
      if p != Child(q, idx) {
        assert NoHuge(vm, TableAt(vm, root, p).value);
        forall j: Ix { EntryAfterInstall(vm, vm', root, q, idx, n, p, j); }
      }
    }
    forall v: Vpn
      ensures FrameAt(vm', root, v) == FrameAt(vm, root, v)
    {
      if TableAt(vm, root, PtOf(v)).Some? {
        EntryAfterInstall(vm, vm', root, q, idx, n, PtOf(v), LeafIx(v));
      }
    }
  }

  lemma InstallGrows(vm: Vm, vm': Vm, root: nat, q: Path, idx: Ix, n: nat)
    requires Installed(vm, vm', root, q, idx, n)
    ensures Grows(vm, vm', root)
    ensures TableAt(vm', root, Child(q, idx)) == Some(n)
    ensures forall p :: p != Child(q, idx) ==> TableAt(vm', root, p) == TableAt(vm, root, p)
    ensures FreeCount(vm'.bits) == FreeCount(vm.bits) - 1
  {
    InstallKeepsShape(vm, vm', root, q, idx, n);
    SetBit(vm.bits, n);
    forall p
      ensures TableAt(vm', root, p) == if p == Child(q, idx) then Some(n) else TableAt(vm, root, p)
    {
      TableAtAfterInstall(vm, vm', root, q, idx, n, p);
    }
    InstallKeepsPages(vm, vm', root, q, idx, n);
  }

  lemma InstallKeepsPages(vm: Vm, vm': Vm, root: nat, q: Path, idx: Ix, n: nat)
    requires Installed(vm, vm', root, q, idx, n)
    requires forall p :: TableAt(vm', root, p) == if p == Child(q, idx) then Some(n) else TableAt(vm, root, p)
    requires TableAt(vm, root, Child(q, idx)).None?
    ensures KeepsPages(vm, vm', root) && TakesTablesOnly(vm, vm', root)
  {
    assert IsTable(vm, root, TableAt(vm, root, q).value);
    assert TableAt(vm', root, Child(q, idx)) == Some(n);
  }

  /** One level of the map: the next table exists afterwards unless no page was free. */
  lemma EnsureGrows(vm: Vm, root: nat, q: Path, idx: Ix)
    requires WellFormed(vm, root) && TableAt(vm, root, q).Some? && HasChild(q, idx)
    ensures
      var (vm', r) := EnsureTable(vm, TableAt(vm, root, q).value, idx);
      var c := Child(q, idx);
      && Grows(vm, vm', root)
      && r == TableAt(vm', root, c)
      && (r.None? <==> TableAt(vm, root, c).None? && FreeCount(vm.bits) == 0)
      && (forall p :: p != c ==> TableAt(vm', root, p) == TableAt(vm, root, p))
      && FreeCount(vm'.bits) == FreeCount(vm.bits) - (if TableAt(vm, root, c).None? && r.Some? then 1 else 0)
  {
    var t := TableAt(vm, root, q).value;
    var (vm', r) := EnsureTable(vm, t, idx);
    assert EntryOf(vm, t, idx) == vm.mem[t][idx];
    NoneFree(vm.bits);
    if !Present(vm.mem[t][idx]) && r.Some? {
      InstallGrows(vm, vm', root, q, idx, r.value);
    } else {
      GrowsReflexive(vm, root);
    }
  }

  // ---- vmm_map_page and vmm_unmap_page ----

  function MapPage(vm: Vm, root: nat, v: Vpn, frame: nat, flags: Flags): (r: Vm)
    requires Sized(vm)
    ensures Sized(r)
  {
    if root == 0 then vm else
    var p := PtOf(v);
    var (vm1, t1) := EnsureTable(vm, root, p.i);
    if t1.None? then vm1 else
    var (vm2, t2) := EnsureTable(vm1, t1.value, p.j);
    if t2.None? then vm2 else
    var (vm3, t3) := EnsureTable(vm2, t2.value, p.k);
    if t3.None? || t3.value >= |vm3.mem| then vm3 else
    SetEntry(vm3, t3.value, LeafIx(v), Entry(frame, WithPresent(flags)))
  }

  function UnmapPage(vm: Vm, root: nat, v: Vpn): (r: Vm)
    requires Sized(vm)
    ensures Sized(r)
  {
    if root == 0 then vm else
    var p := PtOf(v);
    var pml4e := EntryOf(vm, root, p.i);
    if !Present(pml4e) then vm else
    var pdpte := EntryOf(vm, pml4e.frame, p.j);
    if !Present(pdpte) then vm else
    var pde := EntryOf(vm, pdpte.frame, p.k);
    if !Present(pde) || pde.frame >= |vm.mem| then vm else
    SetEntry(vm, pde.frame, LeafIx(v), ABSENT)
  }

  lemma {:induction false} TableAtAfterLeaf(vm: Vm, root: nat, v: Vpn, e: Entry, p: Path)
    requires WellFormed(vm, root) && TableAt(vm, root, PtOf(v)).Some?
    ensures TableAt(SetEntry(vm, TableAt(vm, root, PtOf(v)).value, LeafIx(v), e), root, p) == TableAt(vm, root, p)
    decreases Level(p)
  {
    if !p.Root? {
      TableAtAfterLeaf(vm, root, v, e, Parent(p));
      assert Parent(p) != PtOf(v);
    }
  }

  /** Writing one last-level entry changes the mapping of one virtual page. */
  lemma LeafWrite(vm: Vm, root: nat, v: Vpn, e: Entry)
    requires WellFormed(vm, root) && TableAt(vm, root, PtOf(v)).Some?
    ensures
      var vm' := SetEntry(vm, TableAt(vm, root, PtOf(v)).value, LeafIx(v), e);
      && WellFormed(vm', root)
      && (forall p :: TableAt(vm', root, p) == TableAt(vm, root, p))
      && (forall w: Vpn :: FrameAt(vm', root, w) ==
            if w == v then (if Present(e) then Some(e.frame) else None) else FrameAt(vm, root, w))
  {
    var t := TableAt(vm, root, PtOf(v)).value;
    var vm' := SetEntry(vm, t, LeafIx(v), e);
    forall p
      ensures TableAt(vm', root, p) == TableAt(vm, root, p)
    {
      TableAtAfterLeaf(vm, root, v, e, p);
    }
    forall p: Path | (p.Pdpt? || p.Pd?) && TableAt(vm', root, p).Some?
      ensures NoHuge(vm', TableAt(vm', root, p).value)
    {
      assert NoHuge(vm, TableAt(vm, root, p).value);
      assert TableAt(vm, root, p).value != t;
      forall j: Ix
        ensures EntryOf(vm', TableAt(vm, root, p).value, j) == EntryOf(vm, TableAt(vm, root, p).value, j)
      {
      }
    }
    forall w: Vpn
      ensures FrameAt(vm', root, w) ==
        if w == v then (if Present(e) then Some(e.frame) else None) else FrameAt(vm, root, w)
    {
      if TableAt(vm, root, PtOf(w)) == Some(t) && LeafIx(w) == LeafIx(v) {
        VpnDetermined(v, w);
      }
    }
  }

  /** How many tables on the way to `p`, itself included, do not exist yet. */
  function MissingTables(vm: Vm, root: nat, p: Path): nat
    decreases Level(p)
  {
    if p.Root? || TableAt(vm, root, p).Some? then 0 else 1 + MissingTables(vm, root, Parent(p))
  }

  function Missing(vm: Vm, root: nat, v: Vpn): nat {
    MissingTables(vm, root, PtOf(v))
  }

  predicate EnoughForMap(vm: Vm, root: nat, v: Vpn) {
    FreeCount(vm.bits) >= Missing(vm, root, v)
  }

  /** The tables down to `p`, created level by level. */
  function EnsurePath(vm: Vm, root: nat, p: Path): (r: (Vm, Option<nat>))
    requires Sized(vm)
    ensures Sized(r.0) && |r.0.bits| == |vm.bits|
    decreases Level(p)
  {
    if p.Root? then (vm, Some(root))
    else
      var (vm1, t) := EnsurePath(vm, root, Parent(p));
      if t.None? then (vm1, None) else EnsureTable(vm1, t.value, Last(p))
  }

  lemma MapPageUnfold(vm: Vm, root: nat, v: Vpn, frame: nat, flags: Flags)
    requires WellFormed(vm, root)
    ensures
      var (mid, t) := EnsurePath(vm, root, PtOf(v));
      MapPage(vm, root, v, frame, flags) ==
        if t.None? || t.value >= |mid.mem| then mid
        else SetEntry(mid, t.value, LeafIx(v), Entry(frame, WithPresent(flags)))
  {
    var p := PtOf(v);
    assert TableAt(vm, root, Root) == Some(root);
    assert EnsurePath(vm, root, Root) == (vm, Some(root));
    assert EnsurePath(vm, root, Pdpt(p.i)) == EnsureTable(vm, root, p.i);
    var (vm1, t1) := EnsureTable(vm, root, p.i);
    assert EnsurePath(vm, root, Pd(p.i, p.j)) ==
      if t1.None? then (vm1, None) else EnsureTable(vm1, t1.value, p.j);
  }

  lemma {:induction false} EnsurePathGrows(vm: Vm, root: nat, p: Path)
    requires WellFormed(vm, root)
    ensures
      var (vm', r) := EnsurePath(vm, root, p);
      var need := MissingTables(vm, root, p);
      && Grows(vm, vm', root)
      && r == TableAt(vm', root, p)
      && (r.Some? <==> FreeCount(vm.bits) >= need)
      && FreeCount(vm'.bits) == (if r.Some? then FreeCount(vm.bits) - need else 0)
      && (forall q :: Level(q) > Level(p) ==> TableAt(vm', root, q) == TableAt(vm, root, q))
    decreases Level(p)
  {
    hide KeepsPages, TakesTablesOnly, SameFrames, FreeCount;
    if p.Root? {
      GrowsReflexive(vm, root);
    } else {
      var (vm1, t) := EnsurePath(vm, root, Parent(p));
      EnsurePathGrows(vm, root, Parent(p));
      assert TableAt(vm1, root, p) == TableAt(vm, root, p);
      if t.Some? {
        EnsureGrows(vm1, root, Parent(p), Last(p));
        assert Child(Parent(p), Last(p)) == p;
        GrowsTransitive(vm, vm1, EnsureTable(vm1, t.value, Last(p)).0, root);
        if TableAt(vm, root, p).Some? { ParentExists(vm, root, p); }
      }
    }
  }

  /** Every table the map steps through is a physical page. */
  lemma MapPageInRange(vm: Vm, root: nat, v: Vpn)
    requires WellFormed(vm, root)
    ensures
      var p := PtOf(v);
      var (vm1, t1) := EnsureTable(vm, root, p.i);
      && 0 < root < |vm.mem|
      && (t1.Some? ==>
            t1.value < |vm1.mem| &&
            var (vm2, t2) := EnsureTable(vm1, t1.value, p.j);
            (t2.Some? ==>
               t2.value < |vm2.mem| &&
               var (vm3, t3) := EnsureTable(vm2, t2.value, p.k);
               (t3.Some? ==> t3.value < |vm3.mem|)))
  {
    var p := PtOf(v);
    assert TableAt(vm, root, Root) == Some(root);
    assert EnsurePath(vm, root, Root) == (vm, Some(root));
    assert EnsurePath(vm, root, Pdpt(p.i)) == EnsureTable(vm, root, p.i);
    EnsurePathInRange(vm, root, Pdpt(p.i));
    var (vm1, t1) := EnsureTable(vm, root, p.i);
    if t1.Some? {
      assert EnsurePath(vm, root, Pd(p.i, p.j)) == EnsureTable(vm1, t1.value, p.j);
      EnsurePathInRange(vm, root, Pd(p.i, p.j));
      EnsurePathInRange(vm, root, p);
    }
  }

  lemma EnsurePathInRange(vm: Vm, root: nat, p: Path)
    requires WellFormed(vm, root)
    ensures
      var (vm', r) := EnsurePath(vm, root, p);
      r.Some? ==> r.value < |vm'.mem|
  {
    EnsurePathGrows(vm, root, p);
  }

  lemma ParentExists(vm: Vm, root: nat, p: Path)
    requires !p.Root? && TableAt(vm, root, p).Some?
    ensures TableAt(vm, root, Parent(p)).Some?
    ensures MissingTables(vm, root, Parent(p)) == 0
  {
  }

  /** vmm_map_page: exactly when the free pages cover the missing tables, page `v` maps to `frame`;
      no other page changes, and the tree invariant survives either way. */
  lemma MapPageCorrect(vm: Vm, root: nat, v: Vpn, frame: nat, flags: Flags)
    requires WellFormed(vm, root)
    ensures
      var vm' := MapPage(vm, root, v, frame, flags);
      && WellFormed(vm', root)
      && KeepsPages(vm, vm', root)
      && TakesTablesOnly(vm, vm', root)
      && (forall w: Vpn :: FrameAt(vm', root, w) ==
            if w == v && EnoughForMap(vm, root, v) then Some(frame) else FrameAt(vm, root, w))
      && FreeCount(vm'.bits) ==
           if EnoughForMap(vm, root, v) then FreeCount(vm.bits) - Missing(vm, root, v) else 0
  {
    MapPageUnfold(vm, root, v, frame, flags);
    EnsurePathGrows(vm, root, PtOf(v));
    var (mid, _) := EnsurePath(vm, root, PtOf(v));
    if EnoughForMap(vm, root, v) {
      var e := Entry(frame, WithPresent(flags));
      assert Present(e);
      LeafWrite(mid, root, v, e);
      var t := TableAt(mid, root, PtOf(v)).value;
      var vm' := MapPage(vm, root, v, frame, flags);
      assert TableAt(vm', root, PtOf(v)) == Some(t);
      forall x | 0 <= x < |vm.bits| && vm.bits[x] && !IsTable(vm, root, x)
        ensures vm'.mem[x] == vm.mem[x]
      {
        assert TableAt(vm, root, PtOf(v)) != Some(x);
      }
      forall x | 0 <= x < |vm.bits| && vm'.bits[x] && !vm.bits[x]
        ensures IsTable(vm', root, x)
      {
        var p :| TableAt(mid, root, p) == Some(x);
        assert TableAt(vm', root, p) == Some(x);
      }
    }
  }

  /** The same at the level of addresses, as vmm_translate sees them. */
  lemma MapPageTranslates(vm: Vm, root: nat, v: Vpn, frame: nat, flags: Flags)
    requires WellFormed(vm, root)
    ensures forall x: nat :: x < USER_END ==>
      Translate(MapPage(vm, root, v, frame, flags), root, x) ==
        if x / 4096 == v && EnoughForMap(vm, root, v) then frame * 4096 + x % 4096 else Translate(vm, root, x)
  {
    var vm' := MapPage(vm, root, v, frame, flags);
    MapPageCorrect(vm, root, v, frame, flags);
    forall x: nat | x < USER_END
      ensures Translate(vm', root, x) ==
        if x / 4096 == v && EnoughForMap(vm, root, v) then frame * 4096 + x % 4096 else Translate(vm, root, x)
    {
      TranslateIsFrame(vm, root, x);
      TranslateIsFrame(vm', root, x);
    }
  }

  /** vmm_unmap_page removes the mapping of `v` and nothing else; no page is freed. */
  lemma UnmapPageCorrect(vm: Vm, root: nat, v: Vpn)
    requires WellFormed(vm, root)
    ensures
      var vm' := UnmapPage(vm, root, v);
      && WellFormed(vm', root)
      && vm'.bits == vm.bits && vm'.data == vm.data
      && (forall p :: TableAt(vm', root, p) == TableAt(vm, root, p))
      && KeepsPages(vm, vm', root)
      && (forall w: Vpn :: FrameAt(vm', root, w) == if w == v then None else FrameAt(vm, root, w))
  {
    var p := PtOf(v);
    assert TableAt(vm, root, Root) == Some(root);
    assert Parent(p) == Pd(p.i, p.j) && Parent(Pd(p.i, p.j)) == Pdpt(p.i) && Parent(Pdpt(p.i)) == Root;
    assert TableAt(vm, root, Pdpt(p.i)).Some? <==> Present(EntryOf(vm, root, p.i));
    if TableAt(vm, root, p).Some? {
      LeafWrite(vm, root, v, ABSENT);
    }
  }

  // ---- Steps that leave the tables alone ----

  /** Two memories that agree on every user table describe the same tree and the same mapping. */
  lemma {:induction false} SameTableAt(vm: Vm, vm': Vm, root: nat, p: Path)
    requires AgreeOnTables(vm, vm', root)
    ensures TableAt(vm', root, p) == TableAt(vm, root, p)
    decreases Level(p)
  {
    if !p.Root? {
      SameTableAt(vm, vm', root, Parent(p));
    }
  }

  ghost predicate AgreeOnTables(vm: Vm, vm': Vm, root: nat) {
    forall q :: TableAt(vm, root, q).Some? ==>
      forall j: Ix :: EntryOf(vm', TableAt(vm, root, q).value, j) == EntryOf(vm, TableAt(vm, root, q).value, j)
  }

  lemma SameTree(vm: Vm, vm': Vm, root: nat)
    requires WellFormed(vm, root) && AgreeOnTables(vm, vm', root)
    requires Sized(vm') && |vm'.bits| == |vm.bits|
    requires forall p :: TableAt(vm, root, p).Some? ==> vm'.bits[TableAt(vm, root, p).value]
    ensures WellFormed(vm', root)
    ensures forall p :: TableAt(vm', root, p) == TableAt(vm, root, p)
    ensures SameFrames(vm, vm', root)
  {
    forall p ensures TableAt(vm', root, p) == TableAt(vm, root, p) { SameTableAt(vm, vm', root, p); }
    forall p: Path | (p.Pdpt? || p.Pd?) && TableAt(vm', root, p).Some?
      ensures NoHuge(vm', TableAt(vm', root, p).value)
    {
      assert NoHuge(vm, TableAt(vm, root, p).value);
    }
  }

  ghost predicate DisjointTables(vm: Vm, root: nat, other: nat) {
    forall p :: TableAt(vm, other, p).Some? ==> !IsTable(vm, root, TableAt(vm, other, p).value)
  }

  /** Isolation: a step on one address space that keeps foreign pages leaves every table and every
      mapping of another address space as they were. */
  lemma OtherSpaceUntouched(vm: Vm, vm': Vm, root: nat, other: nat)
    requires WellFormed(vm, root) && WellFormed(vm, other) && DisjointTables(vm, root, other)
    requires KeepsPages(vm, vm', root)
    ensures WellFormed(vm', other) && SameFrames(vm, vm', other)
    ensures forall p :: TableAt(vm', other, p) == TableAt(vm, other, p)
  {
    SameTree(vm, vm', other);
  }

  /** Mapping in one address space never changes what another translates. */
  lemma MapPageIsolated(vm: Vm, root: nat, other: nat, v: Vpn, frame: nat, flags: Flags, x: nat)
    requires WellFormed(vm, root) && WellFormed(vm, other) && DisjointTables(vm, root, other)
    requires x < USER_END
    ensures
      var vm' := MapPage(vm, root, v, frame, flags);
      && WellFormed(vm', other) && DisjointTables(vm', root, other)
      && Translate(vm', other, x) == Translate(vm, other, x)
  {
    var vm' := MapPage(vm, root, v, frame, flags);
    MapPageCorrect(vm, root, v, frame, flags);
    OtherSpaceUntouched(vm, vm', root, other);
    TranslateIsFrame(vm, other, x);
    TranslateIsFrame(vm', other, x);
    forall p | TableAt(vm', other, p).Some?
      ensures !IsTable(vm', root, TableAt(vm', other, p).value)
    {
      var t := TableAt(vm, other, p).value;
      forall q ensures TableAt(vm', root, q) != Some(t) {
        assert TableAt(vm, root, q) != Some(t);
      }
    }
  }
}

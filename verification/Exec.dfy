/** Loading an ELF image: elf_load into flat memory, and the page-by-page loader of sys_exec. */
module Exec {
  import opened Options
  import opened PageBits
  import opened PageTables
  import opened Access
  import opened AddressSpaces
  import opened Demand
  import opened Vmm

  const WORD: nat := 0x1_0000_0000_0000_0000
  const PT_LOAD: nat := 1
  /** The size of a file is a 32-bit word. */
  const FILE_END: nat := 0x1_0000_0000

  /** The fields of a program header that the loaders use. */
  datatype Seg = Seg(kind: nat, offset: nat, vaddr: nat, filesz: nat, memsz: nat)

  // ---- The meaning of a segment ----

  /** The segment's file bytes lie inside the image. */
  predicate InImage(image: seq<byte>, s: Seg) {
    s.offset + s.filesz <= |image|
  }

  /** Byte `x` of memory after loading segment `s` over a memory that held `b` there. */
  function SegByte(image: seq<byte>, s: Seg, x: nat, b: byte): byte
    requires InImage(image, s)
  {
    if s.vaddr <= x < s.vaddr + s.filesz then image[s.offset + (x - s.vaddr)]
    else if s.vaddr <= x < s.vaddr + s.memsz then 0
    else b
  }

  predicate Loaded(image: seq<byte>, s: Seg) {
    s.kind == PT_LOAD && InImage(image, s)
  }

  /** The check exec makes, in 64-bit arithmetic. */
  predicate Accepts(image: seq<byte>, s: Seg) {
    s.kind == PT_LOAD && (s.offset + s.filesz) % WORD <= |image|
  }

  predicate IsWords(s: Seg) {
    s.offset < WORD && s.vaddr < WORD && s.filesz < WORD && s.memsz < WORD
  }

  /** A segment that passes the check lies inside the image exactly when the check does not wrap. */
  lemma AcceptedInImage(image: seq<byte>, s: Seg)
    requires |image| < WORD && Accepts(image, s)
    ensures InImage(image, s) <==> s.offset + s.filesz < WORD
  {
  }

  /** A segment that passes the check and starts one byte before the image. */
  lemma WrappedSegment(image: seq<byte>)
    requires 1 <= |image| < WORD
    ensures
      var s := Seg(PT_LOAD, WORD - 1, 0x400000, 2, 2);
      IsWords(s) && Accepts(image, s) && !InImage(image, s)
  {
    assert (WORD - 1 + 2) % WORD == 1;
  }

  /** Byte `x` after loading the first `k` segments in order. */
  function ElfByte(image: seq<byte>, segs: seq<Seg>, k: nat, x: nat, b: byte): byte
    requires k <= |segs|
  {
    if k == 0 then b
    else
      var prev := ElfByte(image, segs, k - 1, x, b);
      if Loaded(image, segs[k - 1]) then SegByte(image, segs[k - 1], x, prev) else prev
  }

  /** elf_load: copy the file bytes, then clear up to the memory size, segment by segment. */
  method ElfLoad(memory: array<byte>, image: seq<byte>, segs: seq<Seg>)
    requires forall i :: 0 <= i < |segs| && segs[i].kind == PT_LOAD ==>
      && InImage(image, segs[i])
      && segs[i].vaddr + segs[i].filesz <= memory.Length && segs[i].vaddr + segs[i].memsz <= memory.Length
    modifies memory
    ensures forall x: nat :: x < memory.Length ==> memory[x] == ElfByte(image, segs, |segs|, x, old(memory[x]))
  {
    for i := 0 to |segs|
      invariant forall x: nat :: x < memory.Length ==> memory[x] == ElfByte(image, segs, i, x, old(memory[x]))
    {
      if segs[i].kind == PT_LOAD {
        LoadSegment(memory, image, segs[i]);
      }
    }
  }

  method LoadSegment(memory: array<byte>, image: seq<byte>, s: Seg)
    requires InImage(image, s) && s.vaddr + s.filesz <= memory.Length && s.vaddr + s.memsz <= memory.Length
    modifies memory
    ensures forall x: nat :: x < memory.Length ==> memory[x] == SegByte(image, s, x, old(memory[x]))
  {
    for j := 0 to s.filesz
      invariant forall x: nat :: x < memory.Length ==>
        memory[x] == if s.vaddr <= x < s.vaddr + j then image[s.offset + (x - s.vaddr)] else old(memory[x])
    {
      memory[s.vaddr + j] := image[s.offset + j];
    }
    var j := s.filesz;
    while j < s.memsz
      invariant s.filesz <= j && (j <= s.memsz || j == s.filesz)
      invariant forall x: nat :: x < memory.Length ==>
        memory[x] ==
          if s.vaddr <= x < s.vaddr + s.filesz then image[s.offset + (x - s.vaddr)]
          else if s.vaddr <= x < s.vaddr + j then 0
          else old(memory[x])
    {
      memory[s.vaddr + j] := 0;
      j := j + 1;
    }
  }

  // ---- One page of the exec loader ----

  /** memcpy or memset of `src` over `dst` from position `at`. */
  function Overwrite(dst: Bytes, at: nat, src: seq<byte>): (r: Bytes)
    requires at + |src| <= 4096
    ensures forall k :: 0 <= k < 4096 ==> r[k] == if at <= k < at + |src| then src[k - at] else dst[k]
  {
    dst[..at] + src + dst[at + |src|..]
  }

  /** A segment with its end in the lower half and an offset whose check does not wrap. */
  predicate Placed(s: Seg) {
    s.vaddr + s.memsz <= USER_END && s.offset + s.filesz < WORD
  }

  /** The page behind the last one that exec visits for a segment. */
  function EndPage(s: Seg): nat {
    (s.vaddr + s.memsz + 0xFFF) / 4096
  }

  function CopyPart(dst: Bytes, image: seq<byte>, s: Seg, segOff: nat): (r: Bytes)
    requires InImage(image, s)
  {
    if segOff < s.filesz then
      var n := if s.filesz - segOff > 4096 then 4096 else s.filesz - segOff;
      Overwrite(dst, 0, image[s.offset + segOff..s.offset + segOff + n])
    else dst
  }

  function ZeroPart(dst: Bytes, s: Seg, segOff: nat): (r: Bytes)
    requires segOff < WORD && s.memsz <= USER_END
  {
    var endOff0 := (segOff + 4096) % WORD;
    var endOff := if endOff0 > s.memsz then s.memsz else endOff0;
    if endOff > s.filesz then
      var zstart := if segOff > s.filesz then segOff else s.filesz;
      if zstart < endOff then Overwrite(dst, zstart - segOff, seq(endOff - zstart, _ => 0)) else dst
    else dst
  }

  /** The bytes of the page at address `page` after exec has processed it for segment `s`. */
  function PageBytes(dst: Bytes, image: seq<byte>, s: Seg, page: nat): (r: Bytes)
    requires InImage(image, s) && Placed(s) && page <= USER_END
  {
    var segOff := SegOff(s, page);
    ZeroPart(CopyPart(dst, image, s, segOff), s, segOff)
  }

  /** `page - p_vaddr` in 64-bit arithmetic. */
  function SegOff(s: Seg, page: nat): (r: nat)
    requires s.vaddr <= USER_END && page < WORD
    ensures r < WORD
    ensures s.vaddr <= page ==> r == page - s.vaddr
    ensures page < s.vaddr ==> r == page + WORD - s.vaddr
  {
    (page + WORD - s.vaddr) % WORD
  }

  lemma CopyPartByte(dst: Bytes, image: seq<byte>, s: Seg, segOff: nat, k: nat)
    requires InImage(image, s) && k < 4096
    ensures CopyPart(dst, image, s, segOff)[k] ==
      if segOff + k < s.filesz then image[s.offset + segOff + k] else dst[k]
  {
  }

  lemma ZeroPartByte(dst: Bytes, s: Seg, segOff: nat, k: nat)
    requires segOff + 4096 < WORD && s.memsz <= USER_END && k < 4096
    ensures ZeroPart(dst, s, segOff)[k] == if s.filesz <= segOff + k < s.memsz then 0 else dst[k]
  {
    assert (segOff + 4096) % WORD == segOff + 4096;
  }

  lemma PageBytesAligned(dst: Bytes, image: seq<byte>, s: Seg, page: nat, k: nat)
    requires InImage(image, s) && Placed(s) && s.vaddr <= page <= USER_END && k < 4096
    ensures PageBytes(dst, image, s, page)[k] == SegByte(image, s, page + k, dst[k])
  {
    var segOff := SegOff(s, page);
    CopyPartByte(dst, image, s, segOff, k);
    ZeroPartByte(CopyPart(dst, image, s, segOff), s, segOff, k);
  }

  /** The first page of a segment that does not start on a page boundary is left as it was: the
      offset wraps around and neither the copy nor the clear takes place. */
  lemma PageBytesBeforeStart(dst: Bytes, image: seq<byte>, s: Seg, page: nat)
    requires InImage(image, s) && |image| < FILE_END && Placed(s) && page < s.vaddr < page + 4096
    ensures PageBytes(dst, image, s, page) == dst
  {
    var segOff := SegOff(s, page);
    assert (segOff + 4096) % WORD == segOff + 4096 - WORD;
  }

  /** The bytes that exec leaves out: those on the first page of a segment that does not begin a page, and those
      of a file part that goes beyond the pages of the memory part. */
  predicate Drops(s: Seg, x: nat) {
    (s.vaddr % 4096 != 0 && x / 4096 == s.vaddr / 4096) || x / 4096 >= EndPage(s)
  }

  /** What exec stores at `x` for segment `s`. */
  function ExecByte(image: seq<byte>, s: Seg, x: nat, b: byte): byte
    requires InImage(image, s)
  {
    if Drops(s, x) then b else SegByte(image, s, x, b)
  }

  lemma FirstPage(s: Seg, page: nat, k: nat)
    requires page % 4096 == 0 && s.vaddr / 4096 * 4096 <= page && k < 4096
    ensures page < s.vaddr ==> s.vaddr < page + 4096
    ensures page < s.vaddr <==> s.vaddr % 4096 != 0 && (page + k) / 4096 == s.vaddr / 4096
  {
    assert (page + k) / 4096 == page / 4096;
  }

  lemma PageBytesIsExec(dst: Bytes, image: seq<byte>, s: Seg, page: nat, k: nat)
    requires InImage(image, s) && |image| < FILE_END && Placed(s) && k < 4096
    requires page % 4096 == 0 && s.vaddr / 4096 <= page / 4096 < EndPage(s)
    ensures PageBytes(dst, image, s, page)[k] == ExecByte(image, s, page + k, dst[k])
  {
    FirstPage(s, page, k);
    if page < s.vaddr {
      PageBytesBeforeStart(dst, image, s, page);
    } else {
      PageBytesAligned(dst, image, s, page, k);
    }
  }

  // ---- The process's view of its memory ----

  /** The byte a process sees at `x`; unmapped addresses count as zero. */
  function View(vm: Vm, root: nat, x: nat): byte
    requires x < USER_END
  {
    match FrameAt(vm, root, x / 4096)
    case None => 0
    case Some(f) => if f < |vm.data| then vm.data[f][x % 4096] else 0
  }

  ghost predicate SameView(vm: Vm, vm': Vm, root: nat) {
    forall x: nat :: x < USER_END ==> View(vm', root, x) == View(vm, root, x)
  }

  /** Backing a page with fresh zeros does not change what the process sees. */
  lemma MapKeepsView(vm: Vm, vm': Vm, page: Option<nat>, root: nat, v: Vpn)
    requires WellFormed(vm, root) && OwnsFrames(vm, root) && FrameAt(vm, root, v).None?
    requires MapsOne(vm, vm', page, root, v)
    ensures SameView(vm, vm', root)
  {
    forall x: nat | x < USER_END
      ensures View(vm', root, x) == View(vm, root, x)
    {
      var f := FrameAt(vm, root, x / 4096);
      if f.Some? { assert vm.bits[f.value]; }
    }
  }

  function SetData(vm: Vm, f: nat, b: Bytes): Vm
    requires f < |vm.data|
  {
    Vm(vm.bits, vm.mem, vm.data[f := b])
  }

  lemma SetDataKeepsTree(vm: Vm, root: nat, f: nat, b: Bytes)
    requires WellFormed(vm, root) && OwnsFrames(vm, root) && f < |vm.data|
    ensures
      var vm' := SetData(vm, f, b);
      && WellFormed(vm', root) && OwnsFrames(vm', root) && SameFrames(vm, vm', root)
      && (forall p :: TableAt(vm', root, p) == TableAt(vm, root, p))
  {
    var vm' := SetData(vm, f, b);
    SameTree(vm, vm', root);
    forall v: Vpn | FrameAt(vm', root, v).Some?
      ensures !IsTable(vm', root, FrameAt(vm', root, v).value)
    {
      SameIsTable(vm, vm', root, FrameAt(vm, root, v).value);
    }
  }

  /** Page `v` now shows what exec writes there for segment `s`, every other page is as before; bytes on the
      page `gone` are not spoken of. */
  ghost predicate ShowsPages(vm: Vm, vm': Vm, root: nat, image: seq<byte>, s: Seg, v: nat, n: nat, gone: int)
    requires InImage(image, s)
  {
    forall x: nat :: x < USER_END && x / 4096 != gone ==>
      View(vm', root, x) ==
        if v <= x / 4096 < v + n then ExecByte(image, s, x, View(vm, root, x)) else View(vm, root, x)
  }

  lemma WritePage(vm: Vm, root: nat, image: seq<byte>, s: Seg, v: Vpn)
    requires WellFormed(vm, root) && OwnsFrames(vm, root) && FrameAt(vm, root, v).Some?
    requires InImage(image, s) && |image| < FILE_END && Placed(s) && s.vaddr / 4096 <= v < EndPage(s)
    ensures
      var f := FrameAt(vm, root, v).value;
      f < |vm.data| &&
      ShowsPages(vm, SetData(vm, f, PageBytes(vm.data[f], image, s, v * 4096)), root, image, s, v, 1, -1)
  {
    var f := FrameAt(vm, root, v).value;
    var b := PageBytes(vm.data[f], image, s, v * 4096);
    var vm' := SetData(vm, f, b);
    SetDataView(vm, root, v, f, b);
    forall x: nat | x < USER_END
      ensures View(vm', root, x) ==
        if v <= x / 4096 < v + 1 then ExecByte(image, s, x, View(vm, root, x)) else View(vm, root, x)
    {
      if x / 4096 == v { PageByteIsExec(vm.data[f], image, s, v, x); }
    }
  }

  /** Writing to the frame of page `v` changes what is seen on that page and nowhere else. */
  lemma SetDataView(vm: Vm, root: nat, v: Vpn, f: nat, b: Bytes)
    requires WellFormed(vm, root) && OwnsFrames(vm, root) && FrameAt(vm, root, v) == Some(f)
    ensures f < |vm.data|
    ensures forall x: nat :: x < USER_END ==>
              View(SetData(vm, f, b), root, x) == if x / 4096 == v then b[x % 4096] else View(vm, root, x)
    ensures forall x: nat :: x < USER_END && x / 4096 == v ==> View(vm, root, x) == vm.data[f][x % 4096]
  {
    SetDataKeepsTree(vm, root, f, b);
    forall x: nat | x < USER_END && x / 4096 != v
      ensures View(SetData(vm, f, b), root, x) == View(vm, root, x)
    {
      OtherFrame(vm, root, v, x / 4096);
    }
  }

  lemma PageByteIsExec(dst: Bytes, image: seq<byte>, s: Seg, v: Vpn, x: nat)
    requires InImage(image, s) && |image| < FILE_END && Placed(s) && s.vaddr / 4096 <= v < EndPage(s)
    requires x / 4096 == v
    ensures PageBytes(dst, image, s, v * 4096)[x % 4096] == ExecByte(image, s, x, dst[x % 4096])
  {
    hide PageBytes, ExecByte, EndPage;
    assert v * 4096 % 4096 == 0 && v * 4096 / 4096 == v;
    assert x == v * 4096 + x % 4096;
    PageBytesIsExec(dst, image, s, v * 4096, x % 4096);
  }

  lemma OtherFrame(vm: Vm, root: nat, v: Vpn, w: Vpn)
    requires OwnsFrames(vm, root) && FrameAt(vm, root, v).Some? && w != v
    ensures FrameAt(vm, root, w).None? || FrameAt(vm, root, w).value != FrameAt(vm, root, v).value
  {
  }

  // ---- The loader of sys_exec ----

  ghost predicate Sound(vm: Vm, root: nat) {
    WellFormed(vm, root) && OwnsFrames(vm, root)
  }

  /** The pages in use that neither others had at the start nor the process owns. */
  ghost function LostPages(vm0: Vm, vm: Vm, root: nat): set<nat> {
    set x: nat | x < |vm.bits| && vm.bits[x] && x !in Elsewhere(vm0, root) && !OwnedPage(vm, root, x)
  }

  /** The books since the state `vm0`: mappings that were there stay, and lost is at most the one page of `gone`. */
  ghost predicate Booked(vm0: Vm, vm: Vm, root: nat, gone: int) {
    && Accounted(vm, root, Elsewhere(vm0, root), LostPages(vm0, vm, root))
    && |LostPages(vm0, vm, root)| == (if gone < 0 then 0 else 1)
    && (forall w: Vpn :: FrameAt(vm0, root, w).Some? ==> FrameAt(vm, root, w) == FrameAt(vm0, root, w))
  }

  /** Pages that are not on the tour look as they did. */
  ghost predicate Spares(vm0: Vm, vm: Vm, root: nat, tour: seq<Vpn>) {
    forall x: nat :: x < USER_END && x / 4096 !in tour ==> View(vm, root, x) == View(vm0, root, x)
  }

  /** The state after the tour so far. */
  ghost predicate Walked(vm0: Vm, vm: Vm, root: nat, tour: seq<Vpn>, gone: int) {
    Toured(vm0, vm, root, tour, gone) && Booked(vm0, vm, root, gone) && Spares(vm0, vm, root, tour)
  }

  lemma LostIs(vm0: Vm, vm: Vm, root: nat, lost: set<nat>)
    requires Accounted(vm, root, Elsewhere(vm0, root), lost)
    ensures LostPages(vm0, vm, root) == lost
  {
    forall x: nat | x < |vm.bits|
      ensures x in LostPages(vm0, vm, root) <==> x in lost
    {
      assert Share(vm, root, Elsewhere(vm0, root), lost, x);
    }
  }

  lemma BookedStart(vm: Vm, root: nat)
    requires Sound(vm, root)
    ensures Booked(vm, vm, root, -1)
  {
    OwnedIsUsed(vm, root);
    LostIs(vm, vm, root, {});
  }

  /** A fresh map of an unmapped page, the first to run short. */
  lemma BookedFresh(vm0: Vm, vm: Vm, vm': Vm, page: Option<nat>, root: nat, v: Vpn, gone': int, lost': set<nat>)
    requires Booked(vm0, vm, root, -1) && page.Some? && FrameAt(vm, root, v).None?
    requires FreshStep(vm, vm', page, root, v, Elsewhere(vm0, root), LostPages(vm0, vm, root), lost')
    requires gone' < 0 <==> FreeCount(vm.bits) >= 1 + Missing(vm, root, v)
    ensures Booked(vm0, vm', root, gone')
  {
    LostIs(vm0, vm', root, lost');
    assert LostPages(vm0, vm, root) == {};
    assert lost' == FreshLoss(vm, page, root, v);
  }

  lemma BookedSetData(vm0: Vm, vm: Vm, root: nat, gone: int, f: nat, b: Bytes)
    requires Booked(vm0, vm, root, gone) && f < |vm.data|
    ensures Booked(vm0, SetData(vm, f, b), root, gone)
  {
    var vm' := SetData(vm, f, b);
    SetDataKeepsTree(vm, root, f, b);
    forall x: nat | x < |vm.bits|
      ensures Share(vm', root, Elsewhere(vm0, root), LostPages(vm0, vm, root), x)
    {
      assert Share(vm, root, Elsewhere(vm0, root), LostPages(vm0, vm, root), x);
      SameIsTable(vm, vm', root, x);
      SameIsFrame(vm, vm', root, x);
    }
    LostIs(vm0, vm', root, LostPages(vm0, vm, root));
  }

  /** The page that the tour lost, or -1. */
  ghost function GonePage(tour: seq<Vpn>, gone: int): int
    requires gone < |tour|
  {
    if gone < 0 then -1 else tour[gone]
  }

  /** `vm'` is `vm` with page `v` visited: backed by `page`, or lost and `page` mapped nowhere. */
  ghost predicate Backed(vm0: Vm, vm: Vm, vm': Vm, page: nat, root: nat, tour: seq<Vpn>, v: Vpn, gone: int) {
    && Sound(vm', root) && SameView(vm, vm', root)
    && page < |vm'.data| && gone <= |tour|
    && Walked(vm0, vm', root, tour + [v], gone)
    && (FrameAt(vm', root, v) == Some(page) || (gone == |tour| && !IsFrame(vm', root, page)))
  }

  lemma FreshIsBacked(vm0: Vm, vm: Vm, vm': Vm, page: Option<nat>, root: nat, tour: seq<Vpn>, v: Vpn, gone: int,
                      lost': set<nat>)
      returns (gone': int)
    requires Sound(vm, root) && FrameAt(vm, root, v).None?
    requires Walked(vm0, vm, root, tour, gone) && gone < |tour| && page.Some?
    requires FreshStep(vm, vm', page, root, v, Elsewhere(vm0, root), LostPages(vm0, vm, root), lost')
    ensures gone < 0 && Backed(vm0, vm, vm', page.value, root, tour, v, gone')
  {
    MapKeepsView(vm, vm', page, root, v);
    gone' := TourFresh(vm0, vm, vm', page, root, tour, gone, v);
    BookedFresh(vm0, vm, vm', page, root, v, gone', lost');
    SparesMore(vm0, vm, vm', root, tour, v);
    if FrameAt(vm', root, v) != page { NotAFrame(vm, vm', page, root, v); }
  }

  /** A page taken in vain is mapped nowhere. */
  lemma NotAFrame(vm: Vm, vm': Vm, page: Option<nat>, root: nat, v: Vpn)
    requires Sound(vm, root) && page.Some? && MapsOne(vm, vm', page, root, v) && FrameAt(vm', root, v) != page
    ensures !IsFrame(vm', root, page.value)
  {
    forall w: Vpn ensures FrameAt(vm', root, w) != page {
      assert FrameAt(vm, root, w).Some? ==> vm.bits[FrameAt(vm, root, w).value];
    }
  }

  lemma SparesMore(vm0: Vm, vm: Vm, vm': Vm, root: nat, tour: seq<Vpn>, v: Vpn)
    requires Spares(vm0, vm, root, tour)
    requires forall x: nat :: x < USER_END && x / 4096 != v ==> View(vm', root, x) == View(vm, root, x)
    ensures Spares(vm0, vm', root, tour + [v])
  {
  }

  lemma MappedIsBacked(vm0: Vm, vm: Vm, root: nat, tour: seq<Vpn>, v: Vpn, gone: int)
    requires Sound(vm, root) && Walked(vm0, vm, root, tour, gone) && gone < |tour|
    requires FrameAt(vm, root, v).Some?
    ensures Backed(vm0, vm, vm, FrameAt(vm, root, v).value, root, tour, v, gone)
  {
    TourMapped(vm0, vm, root, tour, gone, v);
    SparesMore(vm0, vm, vm, root, tour, v);
  }

  lemma UnmappedIsZero(vm: Vm, root: nat, v: Vpn)
    requires Sound(vm, root)
    ensures PhysOf(FrameAt(vm, root, v)) == 0 <==> FrameAt(vm, root, v).None?
    ensures FrameAt(vm, root, v).Some? ==> PhysOf(FrameAt(vm, root, v)) / 4096 == FrameAt(vm, root, v).value
  {
  }

  /** Makes sure page `v` is backed, if a page can be had; returns the physical page to write to. */
  method Back(m: Mmu, root: nat, v: Vpn, ghost vm0: Vm, ghost vm: Vm, ghost tour: seq<Vpn>, ghost gone: int)
      returns (page: Option<nat>, ghost vm': Vm, ghost gone': int)
    requires m.Valid() && m.State() == vm && Sound(vm, root)
    requires Walked(vm0, vm, root, tour, gone) && gone < |tour|
    modifies m, m.pmm, m.pmm.bitmap
    ensures m.Valid() && m.State() == vm'
    ensures page.Some? ==> Backed(vm0, vm, vm', page.value, root, tour, v, gone')
    ensures page.None? ==> vm' == vm && FrameAt(vm, root, v).None? && FreeCount(vm.bits) == 0
    ensures gone >= 0 ==> gone' == gone
    ensures KeepsOpen(vm, vm', root)
  {
    hide AllOpen;
    TranslatePage(vm, root, v);
    UnmappedIsZero(vm, root, v);
    var phys := m.Translate(root, v * 4096);
    vm', gone' := vm, gone;
    if phys != 0 {
      MappedIsBacked(vm0, vm, root, tour, v, gone);
      return Some(phys / 4096), vm', gone';
    }
    ghost var lost;
    page, vm', lost := m.MapFreshBooked(root, v, USER_RW, vm, Elsewhere(vm0, root), LostPages(vm0, vm, root));
    if page.Some? {
      gone' := FreshIsBacked(vm0, vm, vm', page, root, tour, v, gone, lost);
    }
  }

  lemma SetDataOpen(vm: Vm, root: nat, f: nat, b: Bytes)
    requires f < |vm.data|
    ensures KeepsOpen(vm, SetData(vm, f, b), root)
  {
    var vm' := SetData(vm, f, b);
    AgreeingSlots(vm, vm', root);
    if AllOpen(vm, root) { SameSlotsOpen(vm, vm', root); }
  }

  lemma WriteElsewhere(vm: Vm, root: nat, f: nat, b: Bytes)
    requires Sound(vm, root) && f < |vm.data| && !IsFrame(vm, root, f)
    ensures Sound(SetData(vm, f, b), root) && SameView(vm, SetData(vm, f, b), root)
  {
    SetDataKeepsTree(vm, root, f, b);
    forall x: nat | x < USER_END
      ensures View(SetData(vm, f, b), root, x) == View(vm, root, x)
    {
      assert FrameAt(vm, root, x / 4096) != Some(f);
    }
  }

  lemma WalkedSetData(vm0: Vm, vm: Vm, root: nat, tour: seq<Vpn>, v: Vpn, gone: int, f: nat, b: Bytes)
    requires Sound(vm, root) && f < |vm.data| && Walked(vm0, vm, root, tour + [v], gone)
    requires forall x: nat :: x < USER_END && x / 4096 != v ==>
               View(SetData(vm, f, b), root, x) == View(vm, root, x)
    ensures Sound(SetData(vm, f, b), root) && Walked(vm0, SetData(vm, f, b), root, tour + [v], gone)
  {
    SetDataKeepsTree(vm, root, f, b);
    BookedSetData(vm0, vm, root, gone, f, b);
  }

  /** Whichever way the page was backed, writing to it shows the segment's bytes on every page not lost. */
  lemma WriteBacked(vm0: Vm, vm: Vm, vm1: Vm, vm': Vm, page: nat, root: nat, tour: seq<Vpn>, gone: int,
                    image: seq<byte>, s: Seg, v: Vpn)
    requires Sound(vm, root) && Backed(vm0, vm, vm1, page, root, tour, v, gone)
    requires InImage(image, s) && |image| < FILE_END && Placed(s) && s.vaddr / 4096 <= v < EndPage(s)
    requires vm' == SetData(vm1, page, PageBytes(vm1.data[page], image, s, v * 4096))
    ensures Sound(vm', root) && Walked(vm0, vm', root, tour + [v], gone)
    ensures ShowsPages(vm, vm', root, image, s, v, 1, GonePage(tour + [v], gone))
  {
    var b := PageBytes(vm1.data[page], image, s, v * 4096);
    if FrameAt(vm1, root, v) == Some(page) {
      WritePage(vm1, root, image, s, v);
    } else {
      WriteElsewhere(vm1, root, page, b);
    }
    WalkedSetData(vm0, vm1, root, tour, v, gone, page, b);
  }

  /** Page `v` has been loaded for segment `s`, as the next page of the tour. */
  ghost predicate PageDone(vm0: Vm, vm: Vm, vm': Vm, root: nat, image: seq<byte>, s: Seg, tour: seq<Vpn>, v: Vpn,
                           gone: int, gone': int)
    requires InImage(image, s)
  {
    && Sound(vm', root)
    && Walked(vm0, vm', root, tour + [v], gone') && gone' <= |tour|
    && ShowsPages(vm, vm', root, image, s, v, 1, GonePage(tour + [v], gone'))
    && (gone >= 0 ==> gone' == gone)
  }

  ghost predicate NoPageFor(vm: Vm, root: nat, v: Vpn) {
    FrameAt(vm, root, v).None? && FreeCount(vm.bits) == 0
  }

  /** One page of one segment; false when no page could be had. */
  method LoadPage(m: Mmu, root: nat, image: seq<byte>, s: Seg, v: Vpn, ghost vm0: Vm, ghost vm: Vm,
                  ghost tour: seq<Vpn>, ghost gone: int)
      returns (ok: bool, ghost vm': Vm, ghost gone': int)
    requires m.Valid() && m.State() == vm && Sound(vm, root)
    requires Walked(vm0, vm, root, tour, gone) && gone < |tour|
    requires InImage(image, s) && |image| < FILE_END && Placed(s) && s.vaddr / 4096 <= v < EndPage(s)
    modifies m, m.pmm, m.pmm.bitmap
    ensures m.Valid() && m.State() == vm' && Sound(vm', root)
    ensures ok ==> PageDone(vm0, vm, vm', root, image, s, tour, v, gone, gone')
    ensures !ok ==> vm' == vm && NoPageFor(vm, root, v)
    ensures KeepsOpen(vm, vm', root)
  {
    hide Sound, Walked, ShowsPages, SameView, IsFrame, PageBytes, AllOpen;
    var page;
    page, vm', gone' := Back(m, root, v, vm0, vm, tour, gone);
    if page.None? { return false, vm', gone; }
    var f := page.value;
    ghost var vm1 := vm';
    m.data := m.data[f := PageBytes(m.data[f], image, s, v * 4096)];
    vm' := SetData(vm1, f, PageBytes(vm1.data[f], image, s, v * 4096));
    WriteBacked(vm0, vm, vm1, vm', f, root, tour, gone', image, s, v);
    SetDataOpen(vm1, root, f, PageBytes(vm1.data[f], image, s, v * 4096));
    ok := true;
  }

  /** Pages a segment touches, from the page of its first byte to its rounded-up end. */
  function SegPages(s: Seg): nat
    requires Placed(s)
  {
    EndPage(s) - s.vaddr / 4096
  }

  /** The pages of a segment in the order exec visits them. */
  ghost function SegTour(s: Seg): seq<Vpn>
    requires Placed(s)
  {
    seq(SegPages(s), i requires 0 <= i < SegPages(s) => s.vaddr / 4096 + i)
  }

  /** Outside the pages of a segment its meaning is the identity. */
  lemma OutsidePages(image: seq<byte>, s: Seg, x: nat, b: byte)
    requires InImage(image, s) && Placed(s)
    requires !(s.vaddr / 4096 <= x / 4096 < s.vaddr / 4096 + SegPages(s))
    ensures ExecByte(image, s, x, b) == b
  {
    assert s.vaddr <= x ==> s.vaddr / 4096 <= x / 4096;
  }

  lemma ShowsMore(vm0: Vm, vm: Vm, vm': Vm, root: nat, image: seq<byte>, s: Seg, v: nat, k: nat, gone: int, gone': int)
    requires InImage(image, s) && (gone >= 0 ==> gone' == gone)
    requires ShowsPages(vm0, vm, root, image, s, v, k, gone) && ShowsPages(vm, vm', root, image, s, v + k, 1, gone')
    ensures ShowsPages(vm0, vm', root, image, s, v, k + 1, gone')
  {
  }

  /** What the process sees has changed by segment `s` and nothing else. */
  ghost predicate ShowsSegment(vm: Vm, vm': Vm, root: nat, image: seq<byte>, s: Seg, gone: int)
    requires InImage(image, s)
  {
    forall x: nat :: x < USER_END && x / 4096 != gone ==>
      View(vm', root, x) == ExecByte(image, s, x, View(vm, root, x))
  }

  lemma SegmentShown(vm: Vm, vm': Vm, root: nat, image: seq<byte>, s: Seg, gone: int)
    requires InImage(image, s) && Placed(s)
    requires ShowsPages(vm, vm', root, image, s, s.vaddr / 4096, SegPages(s), gone)
    ensures ShowsSegment(vm, vm', root, image, s, gone)
  {
    forall x: nat | x < USER_END && x / 4096 != gone
      ensures View(vm', root, x) == ExecByte(image, s, x, View(vm, root, x))
    {
      if !(s.vaddr / 4096 <= x / 4096 < s.vaddr / 4096 + SegPages(s)) {
        OutsidePages(image, s, x, View(vm, root, x));
      }
    }
  }

  /** The page loop is stuck at entry `j` of the tour: that page is unmapped and no page is free. */
  ghost predicate StuckAt(vm0: Vm, vm: Vm, root: nat, tour: seq<Vpn>, j: nat, gone: int) {
    j < |tour| && gone < j && Walked(vm0, vm, root, tour[..j], gone) && NoPageFor(vm, root, tour[j])
  }

  lemma TourExtends(before: seq<Vpn>, s: Seg, k: nat)
    requires Placed(s) && k < SegPages(s)
    ensures before + SegTour(s)[..k] + [s.vaddr / 4096 + k] == before + SegTour(s)[..k + 1]
    ensures (before + SegTour(s))[..|before| + k] == before + SegTour(s)[..k]
    ensures (before + SegTour(s))[|before| + k] == s.vaddr / 4096 + k
  {
  }

  /** The state of the page loop of segment `s` before its `k`-th page, in a tour that began before it. */
  ghost predicate InSegment(vm0: Vm, start: Vm, vm: Vm, root: nat, image: seq<byte>, s: Seg, before: seq<Vpn>,
                            k: nat, gone0: int, gone: int)
    requires InImage(image, s) && Placed(s) && k <= SegPages(s)
  {
    var tour := before + SegTour(s)[..k];
    && Sound(vm, root)
    && Walked(vm0, vm, root, tour, gone) && gone < |tour|
    && (gone0 >= 0 ==> gone == gone0)
    && ShowsPages(start, vm, root, image, s, s.vaddr / 4096, k, GonePage(tour, gone))
  }

  lemma InSegmentStep(vm0: Vm, start: Vm, vm: Vm, vm': Vm, root: nat, image: seq<byte>, s: Seg, before: seq<Vpn>,
                      k: nat, next: nat, gone0: int, gone: int, gone': int)
    requires InImage(image, s) && Placed(s) && k < SegPages(s) && next == k + 1
    requires InSegment(vm0, start, vm, root, image, s, before, k, gone0, gone)
    requires PageDone(vm0, vm, vm', root, image, s, before + SegTour(s)[..k], s.vaddr / 4096 + k, gone, gone')
    ensures InSegment(vm0, start, vm', root, image, s, before, next, gone0, gone')
  {
    var tour, w: Vpn := before + SegTour(s)[..k], s.vaddr / 4096 + k;
    TourExtends(before, s, k);
    ShowsMore(start, vm, vm', root, image, s, s.vaddr / 4096, k, GonePage(tour, gone), GonePage(tour + [w], gone'));
  }

  /** One turn of that loop. */
  method SegmentTurn(m: Mmu, root: nat, image: seq<byte>, s: Seg, k: nat, ghost vm0: Vm, ghost start: Vm,
                     ghost vm: Vm, ghost before: seq<Vpn>, ghost gone0: int, ghost gone: int)
      returns (ok: bool, next: nat, ghost vm': Vm, ghost gone': int, ghost at: nat)
    requires InImage(image, s) && |image| < FILE_END && Placed(s) && k < SegPages(s)
    requires m.Valid() && m.State() == vm && InSegment(vm0, start, vm, root, image, s, before, k, gone0, gone)
    modifies m, m.pmm, m.pmm.bitmap
    ensures m.Valid() && m.State() == vm' && Sound(vm', root)
    ensures ok ==> next == k + 1 && InSegment(vm0, start, vm', root, image, s, before, next, gone0, gone')
    ensures !ok ==> StuckAt(vm0, vm', root, before + SegTour(s), at, gone')
    ensures KeepsOpen(vm, vm', root)
  {
    hide Walked, ShowsPages, Sound, PageDone, StuckAt, AllOpen;
    next, at := k + 1, |before| + k;
    ok, vm', gone' := LoadPage(m, root, image, s, s.vaddr / 4096 + k, vm0, vm, before + SegTour(s)[..k], gone);
    if ok {
      InSegmentStep(vm0, start, vm, vm', root, image, s, before, k, next, gone0, gone, gone');
    } else {
      gone' := gone;
      StuckHere(vm0, start, vm, vm', root, image, s, before, k, at, gone0, gone);
    }
  }

  lemma StuckHere(vm0: Vm, start: Vm, vm: Vm, vm': Vm, root: nat, image: seq<byte>, s: Seg, before: seq<Vpn>,
                  k: nat, at: nat, gone0: int, gone: int)
    requires InImage(image, s) && Placed(s) && k < SegPages(s) && at == |before| + k && vm' == vm
    requires InSegment(vm0, start, vm, root, image, s, before, k, gone0, gone)
    requires NoPageFor(vm, root, s.vaddr / 4096 + k)
    ensures StuckAt(vm0, vm', root, before + SegTour(s), at, gone)
  {
    var tour, w: Vpn := before + SegTour(s)[..k], s.vaddr / 4096 + k;
    TourExtends(before, s, k);
    StuckIn(vm0, vm', root, tour, w, before + SegTour(s), at, gone);
  }

  lemma StuckIn(vm0: Vm, vm: Vm, root: nat, tour: seq<Vpn>, w: Vpn, whole: seq<Vpn>, at: nat, gone: int)
    requires at < |whole| && whole[..at] == tour && whole[at] == w
    requires Walked(vm0, vm, root, tour, gone) && FrameAt(vm, root, w).None? && FreeCount(vm.bits) == 0
    ensures StuckAt(vm0, vm, root, whole, at, gone)
  {
  }

  lemma InSegmentStart(vm0: Vm, start: Vm, root: nat, image: seq<byte>, s: Seg, before: seq<Vpn>, gone0: int)
    requires InImage(image, s) && Placed(s) && Sound(start, root)
    requires Walked(vm0, start, root, before, gone0) && gone0 < |before|
    ensures InSegment(vm0, start, start, root, image, s, before, 0, gone0, gone0)
  {
    assert before + SegTour(s)[..0] == before;
  }

  lemma InSegmentEnd(vm0: Vm, start: Vm, vm: Vm, root: nat, image: seq<byte>, s: Seg, before: seq<Vpn>, gone0: int,
                     gone: int)
    requires InImage(image, s) && Placed(s)
    requires InSegment(vm0, start, vm, root, image, s, before, SegPages(s), gone0, gone)
    ensures Sound(vm, root) && SegmentDone(vm0, start, vm, root, image, s, before, gone0, gone)
  {
    assert SegTour(s)[..SegPages(s)] == SegTour(s);
    SegmentShown(start, vm, root, image, s, GonePage(before + SegTour(s), gone));
  }

  /** The state after the page loop of segment `s`. */
  ghost predicate SegmentDone(vm0: Vm, start: Vm, vm: Vm, root: nat, image: seq<byte>, s: Seg, before: seq<Vpn>,
                              gone0: int, gone: int)
    requires InImage(image, s) && Placed(s)
  {
    var tour := before + SegTour(s);
    && Sound(vm, root)
    && Walked(vm0, vm, root, tour, gone) && gone < |tour|
    && (gone0 >= 0 ==> gone == gone0)
    && ShowsSegment(start, vm, root, image, s, GonePage(tour, gone))
  }

  /** The page loop for one segment, as a stretch of the tour that began before it. */
  method LoadSegmentPages(m: Mmu, root: nat, image: seq<byte>, s: Seg, ghost vm0: Vm, ghost start: Vm,
                          ghost before: seq<Vpn>, ghost gone0: int)
      returns (ok: bool, ghost vm: Vm, ghost gone: int, ghost at: nat)
    requires m.Valid() && m.State() == start && Sound(start, root)
    requires Walked(vm0, start, root, before, gone0) && gone0 < |before|
    requires InImage(image, s) && |image| < FILE_END && Placed(s)
    modifies m, m.pmm, m.pmm.bitmap
    ensures m.Valid() && m.State() == vm && Sound(vm, root)
    ensures ok ==> at == SegPages(s) && InSegment(vm0, start, vm, root, image, s, before, at, gone0, gone)
    ensures !ok ==> StuckAt(vm0, vm, root, before + SegTour(s), at, gone)
    ensures KeepsOpen(start, vm, root)
  {
    hide AllOpen;
    vm, gone, at := start, gone0, 0;
    InSegmentStart(vm0, start, root, image, s, before, gone0);
    var k := 0;
    ok := true;
    while k < SegPages(s) && ok
      invariant k <= SegPages(s) && m.Valid() && m.State() == vm && Sound(vm, root)
      invariant ok ==> InSegment(vm0, start, vm, root, image, s, before, k, gone0, gone)
      invariant !ok ==> StuckAt(vm0, vm, root, before + SegTour(s), at, gone)
      invariant KeepsOpen(start, vm, root)
      decreases SegPages(s) - k, ok
    {
      var next;
      ok, next, vm, gone, at := SegmentTurn(m, root, image, s, k, vm0, start, vm, before, gone0, gone);
      if ok { k := next; }
    }
    if ok { at := k; }
  }

  /** Byte `x` after exec has processed the first `k` segments. */
  function ExecAll(image: seq<byte>, segs: seq<Seg>, k: nat, x: nat, b: byte): byte
    requires k <= |segs|
  {
    if k == 0 then b
    else
      var prev := ExecAll(image, segs, k - 1, x, b);
      if Loaded(image, segs[k - 1]) then ExecByte(image, segs[k - 1], x, prev) else prev
  }

  ghost predicate AllPlaced(image: seq<byte>, segs: seq<Seg>) {
    forall i :: 0 <= i < |segs| && Accepts(image, segs[i]) ==> Placed(segs[i])
  }

  /** The pages of the first `k` segments in the order exec visits them. */
  ghost function Tour(image: seq<byte>, segs: seq<Seg>, k: nat): seq<Vpn>
    requires k <= |segs| && AllPlaced(image, segs)
  {
    if k == 0 then []
    else Tour(image, segs, k - 1) + if Accepts(image, segs[k - 1]) then SegTour(segs[k - 1]) else []
  }

  lemma {:induction false} TourPrefix(image: seq<byte>, segs: seq<Seg>, i: nat, j: nat)
    requires i <= j <= |segs| && AllPlaced(image, segs)
    ensures Tour(image, segs, i) <= Tour(image, segs, j)
    decreases j
  {
    if i < j { TourPrefix(image, segs, i, j - 1); }
  }

  /** The process sees, except on the page `gone`, the bytes of the first `k` segments. */
  ghost predicate ShowsAll(vm0: Vm, vm: Vm, root: nat, image: seq<byte>, segs: seq<Seg>, k: nat, gone: int)
    requires k <= |segs|
  {
    forall x: nat :: x < USER_END && x / 4096 != gone ==>
      View(vm, root, x) == ExecAll(image, segs, k, x, View(vm0, root, x))
  }

  /** The free pages run out on the tables of the page they reach, and its page is taken in vain. */
  ghost predicate Short(vm0: Vm, root: nat, tour: seq<Vpn>) {
    var b := Reach(vm0, root, tour);
    b < |tour| && FreeCount(vm0.bits) > NeedOf(vm0, root, tour[..b])
  }

  /** Whatever comes behind the page that the free pages reach is mapped, or on the tour before it. */
  ghost predicate RestIsThere(vm0: Vm, root: nat, tour: seq<Vpn>) {
    var b := Reach(vm0, root, tour);
    forall i :: b < i < |tour| ==> FrameAt(vm0, root, tour[i]).Some? || tour[i] in tour[..b]
  }

  /** What the PT_LOAD loop of sys_exec comes to, told from the state before, where the free pages reach `b` pages
      along the tour.  All of it: 0, and the process sees all segments.  Short of the tables of one page, with
      nothing else left to map: 0 all the same, and the process sees the segments elsewhere.  Otherwise: -1.
      Mapped, in each case, are the pages that were and the first `b` of the tour; a page is lost exactly in the
      second case or when the free pages run out on a page's tables; pages not on the tour look as before. */
  ghost predicate ExecDone(vm0: Vm, vm: Vm, root: nat, image: seq<byte>, segs: seq<Seg>, r: int)
    requires AllPlaced(image, segs)
  {
    var tour := Tour(image, segs, |segs|);
    var b, short := Reach(vm0, root, tour), Short(vm0, root, tour);
    && (r == 0 || r == -1)
    && (r == 0 <==> b == |tour| || (short && RestIsThere(vm0, root, tour)))
    && (forall w: Vpn :: FrameAt(vm, root, w).Some? <==> FrameAt(vm0, root, w).Some? || w in tour[..b])
    && Booked(vm0, vm, root, if short then b else -1)
    && Spares(vm0, vm, root, tour)
    && (r == 0 ==> ShowsAll(vm0, vm, root, image, segs, |segs|, if short then tour[b] else -1))
  }

  lemma ExecEnds(vm0: Vm, vm: Vm, root: nat, image: seq<byte>, segs: seq<Seg>, i: nat, gone: int, r: int)
    requires AllPlaced(image, segs) && i == |segs| && r == 0 && Loading(vm0, vm, root, image, segs, i, gone)
    ensures ExecDone(vm0, vm, root, image, segs, r)
  {
    ReachAtEnd(vm0, vm, root, Tour(image, segs, |segs|), gone);
  }

  lemma ReachAtEnd(vm0: Vm, vm: Vm, root: nat, tour: seq<Vpn>, gone: int)
    requires Toured(vm0, vm, root, tour, gone) && gone < |tour|
    ensures Reach(vm0, root, tour) == if gone < 0 then |tour| else gone
    ensures Short(vm0, root, tour) <==> gone >= 0
    ensures gone >= 0 ==> RestIsThere(vm0, root, tour)
    ensures forall w: Vpn ::
              FrameAt(vm, root, w).Some? <==> FrameAt(vm0, root, w).Some? || w in tour[..Reach(vm0, root, tour)]
  {
    hide HasWays, NeedOf;
    assert tour[..|tour|] == tour;
    TourEnds(vm0, vm, root, tour, gone);
    ReachIs(vm0, root, tour, if gone < 0 then |tour| else gone);
  }

  lemma ReachWhenStuck(vm0: Vm, vm: Vm, root: nat, tour: seq<Vpn>, j: nat, gone: int)
    requires j < |tour| && Toured(vm0, vm, root, tour[..j], gone) && gone < j
    requires FrameAt(vm, root, tour[j]).None? && FreeCount(vm.bits) == 0
    ensures Reach(vm0, root, tour) == if gone < 0 then j else gone
    ensures Short(vm0, root, tour) <==> gone >= 0
    ensures gone >= 0 ==> !RestIsThere(vm0, root, tour)
    ensures forall w: Vpn ::
              FrameAt(vm, root, w).Some? <==> FrameAt(vm0, root, w).Some? || w in tour[..Reach(vm0, root, tour)]
  {
    hide HasWays, FreeCount, Missing;
    var b := if gone < 0 then j else gone;
    Shortfall(vm0, vm, root, tour, j, gone);
    ReachIs(vm0, root, tour, b);
    assert gone >= 0 ==> tour[..j][..gone] == tour[..gone] && tour[..j][..gone + 1] == tour[..gone + 1];
  }

  lemma ExecStuck(vm0: Vm, vm: Vm, root: nat, image: seq<byte>, segs: seq<Seg>, i: nat, j: nat, gone: int)
    requires i <= |segs| && AllPlaced(image, segs)
    requires StuckAt(vm0, vm, root, Tour(image, segs, i), j, gone)
    ensures ExecDone(vm0, vm, root, image, segs, -1)
  {
    var tour := Tour(image, segs, |segs|);
    TourPrefix(image, segs, i, |segs|);
    assert tour[..j] == Tour(image, segs, i)[..j];
    ReachWhenStuck(vm0, vm, root, tour, j, gone);
  }

  lemma ShowsNext(vm0: Vm, vm: Vm, vm': Vm, root: nat, image: seq<byte>, segs: seq<Seg>, i: nat, gone: int, gone': int)
    requires i < |segs| && Loaded(image, segs[i]) && (gone >= 0 ==> gone' == gone)
    requires ShowsAll(vm0, vm, root, image, segs, i, gone) && ShowsSegment(vm, vm', root, image, segs[i], gone')
    ensures ShowsAll(vm0, vm', root, image, segs, i + 1, gone')
  {
  }

  lemma ShowsSkip(vm0: Vm, vm: Vm, root: nat, image: seq<byte>, segs: seq<Seg>, i: nat, gone: int)
    requires i < |segs| && !Loaded(image, segs[i]) && ShowsAll(vm0, vm, root, image, segs, i, gone)
    ensures ShowsAll(vm0, vm, root, image, segs, i + 1, gone)
  {
  }

  /** The state of the PT_LOAD loop before segment `i`. */
  ghost predicate Loading(vm0: Vm, vm: Vm, root: nat, image: seq<byte>, segs: seq<Seg>, i: nat, gone: int)
    requires i <= |segs| && AllPlaced(image, segs)
  {
    var tour := Tour(image, segs, i);
    && Sound(vm, root)
    && Walked(vm0, vm, root, tour, gone) && gone < |tour|
    && ShowsAll(vm0, vm, root, image, segs, i, GonePage(tour, gone))
  }

  lemma LoadingNext(vm0: Vm, vm: Vm, vm': Vm, root: nat, image: seq<byte>, segs: seq<Seg>, i: nat,
                    next: nat, gone: int, gone': int)
    requires i < |segs| && AllPlaced(image, segs) && Accepts(image, segs[i]) && InImage(image, segs[i])
    requires next == i + 1
    requires Loading(vm0, vm, root, image, segs, i, gone)
    requires SegmentDone(vm0, vm, vm', root, image, segs[i], Tour(image, segs, i), gone, gone')
    ensures Loading(vm0, vm', root, image, segs, next, gone')
  {
    hide Walked, ShowsAll, ShowsSegment, Sound, ExecAll, SegTour;
    var tour := Tour(image, segs, i);
    assert Tour(image, segs, i + 1) == tour + SegTour(segs[i]);
    assert Loaded(image, segs[i]);
    assert gone >= 0 ==> (tour + SegTour(segs[i]))[gone] == tour[gone];
    ShowsNext(vm0, vm, vm', root, image, segs, i, GonePage(tour, gone), GonePage(tour + SegTour(segs[i]), gone'));
  }

  lemma LoadingSkip(vm0: Vm, vm: Vm, root: nat, image: seq<byte>, segs: seq<Seg>, i: nat, next: nat, gone: int)
    requires i < |segs| && AllPlaced(image, segs) && |image| < WORD && !Accepts(image, segs[i]) && next == i + 1
    requires Loading(vm0, vm, root, image, segs, i, gone)
    ensures Loading(vm0, vm, root, image, segs, next, gone)
  {
    NotAccepted(image, segs[i]);
    ShowsSkip(vm0, vm, root, image, segs, i, GonePage(Tour(image, segs, i), gone));
    assert Tour(image, segs, i + 1) == Tour(image, segs, i);
  }

  /** One turn of that loop. */
  method LoadNext(m: Mmu, root: nat, image: seq<byte>, segs: seq<Seg>, i: nat, ghost vm0: Vm, ghost vm: Vm,
                  ghost gone: int)
      returns (ok: bool, next: nat, ghost vm': Vm, ghost gone': int)
    requires i < |segs| && AllPlaced(image, segs) && |image| < FILE_END
    requires m.Valid() && m.State() == vm && Loading(vm0, vm, root, image, segs, i, gone)
    modifies m, m.pmm, m.pmm.bitmap
    ensures m.Valid() && m.State() == vm' && Sound(vm', root)
    ensures ok ==> next == i + 1 && Loading(vm0, vm', root, image, segs, next, gone')
    ensures !ok ==> ExecDone(vm0, vm', root, image, segs, -1)
    ensures KeepsOpen(vm, vm', root)
  {
    hide Walked, ShowsAll, ShowsSegment, Sound, SegmentDone, InSegment, ExecDone, StuckAt, AllOpen;
    ok, next, vm', gone' := true, i + 1, vm, gone;
    if segs[i].kind == PT_LOAD && (segs[i].offset + segs[i].filesz) % WORD <= |image| {
      AcceptedInImage(image, segs[i]);
      ghost var tour, at := Tour(image, segs, i), 0;
      ok, vm', gone', at := LoadSegmentPages(m, root, image, segs[i], vm0, vm, tour, gone);
      if ok {
        InSegmentEnd(vm0, vm, vm', root, image, segs[i], tour, gone, gone');
        LoadingNext(vm0, vm, vm', root, image, segs, i, next, gone, gone');
      } else {
        ExecStuck(vm0, vm', root, image, segs, next, at, gone');
      }
    } else {
      LoadingSkip(vm0, vm, root, image, segs, i, next, gone);
    }
  }

  lemma LoadingStart(vm: Vm, root: nat, image: seq<byte>, segs: seq<Seg>)
    requires AllPlaced(image, segs) && Sound(vm, root)
    ensures Loading(vm, vm, root, image, segs, 0, -1)
  {
    TourStart(vm, root);
    BookedStart(vm, root);
  }

  /** The PT_LOAD loop of sys_exec: 0 on success, -1 when memory runs out. */
  method ExecLoad(m: Mmu, root: nat, image: seq<byte>, segs: seq<Seg>, ghost vm0: Vm)
      returns (r: int, ghost vm: Vm)
    requires m.Valid() && m.State() == vm0 && Sound(vm0, root)
    requires |image| < FILE_END && AllPlaced(image, segs)
    modifies m, m.pmm, m.pmm.bitmap
    ensures m.Valid() && m.State() == vm && Sound(vm, root)
    ensures ExecDone(vm0, vm, root, image, segs, r)
    // in a space whose entries are all open they still are, so that every page mapped is the user's to write
    ensures AllOpen(vm0, root) ==> AllOpen(vm, root) && AllWritable(vm, root)
  {
    hide AllOpen, AllWritable;
    ghost var gone := -1;
    vm := vm0;
    LoadingStart(vm0, root, image, segs);
    var i, ok := 0, true;
    r := -1;
    while i < |segs| && ok
      invariant i <= |segs| && m.Valid() && m.State() == vm && Sound(vm, root)
      invariant ok ==> Loading(vm0, vm, root, image, segs, i, gone)
      invariant !ok ==> ExecDone(vm0, vm, root, image, segs, r)
      invariant KeepsOpen(vm0, vm, root)
      decreases |segs| - i, ok
    {
      var next;
      ok, next, vm, gone := LoadNext(m, root, image, segs, i, vm0, vm, gone);
      if ok { i := next; }
    }
    if ok {
      r := 0;
      ExecEnds(vm0, vm, root, image, segs, i, gone, r);
    }
    if AllOpen(vm, root) { OpenIsWritable(vm, root); }
  }

  // ---- What a load comes to, segment by segment ----

  /** The free pages reach all along the tour. */
  ghost predicate ReachesAll(vm0: Vm, root: nat, image: seq<byte>, segs: seq<Seg>)
    requires AllPlaced(image, segs)
  {
    Reach(vm0, root, Tour(image, segs, |segs|)) == |Tour(image, segs, |segs|)|
  }

  /** Page `w` is one that segment `s` has memory on: from the page its memory starts in up to its end. */
  predicate OnPage(s: Seg, w: nat) {
    s.vaddr / 4096 <= w && 4096 * w < s.vaddr + s.memsz
  }

  lemma SegTourHas(s: Seg, w: Vpn)
    requires Placed(s)
    ensures w in SegTour(s) <==> OnPage(s, w)
  {
    var e := (s.vaddr + s.memsz + 0xFFF) / 4096;
    assert 4096 * e <= s.vaddr + s.memsz + 0xFFF < 4096 * e + 4096;
    if OnPage(s, w) {
      assert 4096 * w < 4096 * e;
      assert SegTour(s)[w - s.vaddr / 4096] == w;
    }
    if w in SegTour(s) {
      assert w < EndPage(s) == e;
      assert 4096 * (w + 1) <= 4096 * e;
    }
  }

  /** A PT_LOAD header whose file bytes lie in the image. */
  predicate IsLoad(image: seq<byte>, s: Seg) {
    s.kind == 1 && s.offset + s.filesz <= |image|
  }

  lemma {:induction false} TourHas(image: seq<byte>, segs: seq<Seg>, k: nat, w: Vpn)
    requires k <= |segs| && AllPlaced(image, segs) && |image| < 0x1_0000_0000
    ensures w in Tour(image, segs, k) <==> exists i :: 0 <= i < k && IsLoad(image, segs[i]) && OnPage(segs[i], w)
    decreases k
  {
    if k > 0 {
      hide SegTour, OnPage, Placed, EndPage;
      TourHas(image, segs, k - 1, w);
      LoadsAre(image, segs, k - 1);
      if Accepts(image, segs[k - 1]) { SegTourHas(segs[k - 1], w); }
    }
  }

  lemma LoadsAre(image: seq<byte>, segs: seq<Seg>, i: nat)
    requires i < |segs| && AllPlaced(image, segs) && |image| < 0x1_0000_0000
    ensures Accepts(image, segs[i]) <==> IsLoad(image, segs[i])
    ensures Loaded(image, segs[i]) <==> IsLoad(image, segs[i])
    ensures Accepts(image, segs[i]) ==> Placed(segs[i])
  {
    if Accepts(image, segs[i]) { AcceptedInImage(image, segs[i]); }
    if IsLoad(image, segs[i]) { assert segs[i].offset + segs[i].filesz < WORD; }
  }

  /** With pages for all, exec succeeds, and mapped are then the pages that were and every page on which some
      PT_LOAD segment has memory, whether or not it has file bytes. */
  lemma ExecMaps(vm0: Vm, vm: Vm, root: nat, image: seq<byte>, segs: seq<Seg>, r: int, w: Vpn)
    requires AllPlaced(image, segs) && |image| < 0x1_0000_0000 && ReachesAll(vm0, root, image, segs)
    requires ExecDone(vm0, vm, root, image, segs, r)
    ensures r == 0
    ensures FrameAt(vm, root, w).Some? <==>
      FrameAt(vm0, root, w).Some? || exists i :: 0 <= i < |segs| && IsLoad(image, segs[i]) && OnPage(segs[i], w)
  {
    TourHas(image, segs, |segs|, w);
    var tour := Tour(image, segs, |segs|);
    assert tour[..|tour|] == tour;
  }

  /** And the process sees, where no later PT_LOAD segment lies, the bytes of the segment: file bytes up to
      p_filesz, zeros behind them up to p_memsz.  Only the first page of a segment that does not begin a page is
      not spoken of. */
  lemma ExecShows(vm0: Vm, vm: Vm, root: nat, image: seq<byte>, segs: seq<Seg>, r: int, i: nat, x: nat)
    requires AllPlaced(image, segs) && |image| < 0x1_0000_0000 && ReachesAll(vm0, root, image, segs)
    requires ExecDone(vm0, vm, root, image, segs, r)
    requires i < |segs| && IsLoad(image, segs[i]) && x < USER_END
    requires segs[i].vaddr <= x < segs[i].vaddr + segs[i].memsz
    requires segs[i].vaddr % 4096 == 0 || x / 4096 != segs[i].vaddr / 4096
    requires forall j :: i < j < |segs| && IsLoad(image, segs[j]) ==>
               x < segs[j].vaddr || (x >= segs[j].vaddr + segs[j].filesz && x >= segs[j].vaddr + segs[j].memsz)
    ensures View(vm, root, x) ==
      if x < segs[i].vaddr + segs[i].filesz then image[segs[i].offset + (x - segs[i].vaddr)] else 0
  {
    hide ExecDone, Drops, LastKept, View;
    LoadsAre(image, segs, i);
    NotDropped(segs[i], x);
    KeptIs(image, segs, |segs|, i, x);
    ExecAllIsLastKept(image, segs, |segs|, x, View(vm0, root, x));
    ShownAt(vm0, vm, root, image, segs, r, x);
  }

  lemma ShownAt(vm0: Vm, vm: Vm, root: nat, image: seq<byte>, segs: seq<Seg>, r: int, x: nat)
    requires AllPlaced(image, segs) && ReachesAll(vm0, root, image, segs) && x < USER_END
    requires ExecDone(vm0, vm, root, image, segs, r)
    ensures View(vm, root, x) == ExecAll(image, segs, |segs|, x, View(vm0, root, x))
  {
    hide Booked, Spares, View, Reach, NeedOf, RestIsThere;
  }

  lemma NotDropped(s: Seg, x: nat)
    requires s.vaddr <= x < s.vaddr + s.memsz && (s.vaddr % 4096 == 0 || x / 4096 != s.vaddr / 4096)
    ensures !Drops(s, x)
  {
    if x / 4096 >= EndPage(s) { BeyondEnd(s, x); }
  }

  lemma {:induction false} KeptIs(image: seq<byte>, segs: seq<Seg>, k: nat, i: nat, x: nat)
    requires i < k <= |segs| && AllPlaced(image, segs) && |image| < 0x1_0000_0000
    requires Loaded(image, segs[i]) && Touches(segs[i], x) && !Drops(segs[i], x)
    requires forall j :: i < j < |segs| && IsLoad(image, segs[j]) ==>
               x < segs[j].vaddr || (x >= segs[j].vaddr + segs[j].filesz && x >= segs[j].vaddr + segs[j].memsz)
    ensures LastKept(image, segs, k, x) == i
    decreases k
  {
    LoadsAre(image, segs, k - 1);
    if k - 1 > i { KeptIs(image, segs, k - 1, i, x); }
  }

  /** From a new space with one page left, exec of a one-byte program reports success, and the byte is nowhere. */
  lemma ExecLosesByte(vm0: Vm, root: nat, vm: Vm, r: int)
    requires (vm0, root) == SmallMachine()
    requires var segs := [Seg(PT_LOAD, 0, 0x400000, 1, 1)];
             AllPlaced([7], segs) && ExecDone(vm0, vm, root, [7], segs, r)
    ensures r == 0 && FrameAt(vm, root, 0x400).None? && View(vm, root, 0x400000) == 0
    ensures ExecAll([7], [Seg(PT_LOAD, 0, 0x400000, 1, 1)], 1, 0x400000, 0) == 7
  {
    var segs := [Seg(PT_LOAD, 0, 0x400000, 1, 1)];
    SmallMachineState();
    OnePageTour([7], segs, segs[0], 0x400);
    OneLost(vm0, vm, root, [7], segs, 0x400, r);
    OneSegment([7], segs, 0x400000);
  }

  lemma OneLost(vm0: Vm, vm: Vm, root: nat, image: seq<byte>, segs: seq<Seg>, w: Vpn, r: int)
    requires |segs| == 1 && AllPlaced(image, segs) && Tour(image, segs, 1) == [w]
    requires FreeCount(vm0.bits) == 1 && forall p: Path :: !p.Root? ==> TableAt(vm0, root, p).None?
    requires ExecDone(vm0, vm, root, image, segs, r)
    ensures r == 0 && FrameAt(vm, root, w).None?
  {
    OnePageNeed(vm0, root, w);
    assert [w][..0] == [] && [w][..1] == [w];
    ReachIs(vm0, root, [w], 0);
  }

  lemma OnePageTour(image: seq<byte>, segs: seq<Seg>, s: Seg, w: Vpn)
    requires segs == [s] && AllPlaced(image, segs) && Accepts(image, s) && Placed(s)
    requires SegPages(s) == 1 && s.vaddr / 4096 == w
    ensures Tour(image, segs, 1) == [w]
  {
    assert SegTour(s) == [w];
    assert Tour(image, segs, 0) == [];
  }

  lemma OneSegment(image: seq<byte>, segs: seq<Seg>, x: nat)
    requires segs == [Seg(PT_LOAD, 0, 0x400000, 1, 1)] && image == [7] && x == 0x400000
    ensures ExecAll(image, segs, 1, x, 0) == 7
  {
    assert ExecAll(image, segs, 0, x, 0) == 0;
  }

  lemma NotAccepted(image: seq<byte>, s: Seg)
    requires |image| < WORD && !Accepts(image, s)
    ensures !Loaded(image, s)
  {
  }

  // ---- exec against elf_load ----

  /** On page-aligned segments whose file part is no larger than their memory part the two loaders agree at
      every byte. */
  lemma {:induction false} ExecIsElf(image: seq<byte>, segs: seq<Seg>, k: nat, x: nat, b: byte)
    requires k <= |segs|
    requires forall i :: 0 <= i < k && Loaded(image, segs[i]) ==>
               segs[i].vaddr % 4096 == 0 && segs[i].filesz <= segs[i].memsz
    ensures ExecAll(image, segs, k, x, b) == ElfByte(image, segs, k, x, b)
  {
    if k > 0 {
      ExecIsElf(image, segs, k - 1, x, b);
      if x / 4096 >= EndPage(segs[k - 1]) { BeyondEnd(segs[k - 1], x); }
    }
  }

  lemma BeyondEnd(s: Seg, x: nat)
    requires x / 4096 >= EndPage(s)
    ensures x >= s.vaddr + s.memsz
  {
  }

  predicate Touches(s: Seg, x: nat) {
    s.vaddr <= x < s.vaddr + s.filesz || s.vaddr <= x < s.vaddr + s.memsz
  }

  /** The last of the first `k` loaded segments with a byte at `x`, or -1. */
  function LastOver(image: seq<byte>, segs: seq<Seg>, k: nat, x: nat): (i: int)
    requires k <= |segs|
    ensures -1 <= i < k && (i >= 0 ==> Loaded(image, segs[i]) && Touches(segs[i], x))
  {
    if k == 0 then -1
    else if Loaded(image, segs[k - 1]) && Touches(segs[k - 1], x) then k - 1
    else LastOver(image, segs, k - 1, x)
  }

  /** The last of them whose byte at `x` exec does not leave out, or -1. */
  function LastKept(image: seq<byte>, segs: seq<Seg>, k: nat, x: nat): (i: int)
    requires k <= |segs|
    ensures -1 <= i < k && (i >= 0 ==> Loaded(image, segs[i]) && Touches(segs[i], x) && !Drops(segs[i], x))
  {
    if k == 0 then -1
    else if Loaded(image, segs[k - 1]) && Touches(segs[k - 1], x) && !Drops(segs[k - 1], x) then k - 1
    else LastKept(image, segs, k - 1, x)
  }

  /** The byte at `x` of segment `i`, or what was there. */
  function ByteOf(image: seq<byte>, segs: seq<Seg>, i: int, x: nat, b: byte): byte
    requires i < |segs| && (i >= 0 ==> InImage(image, segs[i]))
  {
    if i < 0 then b else SegByte(image, segs[i], x, b)
  }

  lemma {:induction false} ElfByteIsLast(image: seq<byte>, segs: seq<Seg>, k: nat, x: nat, b: byte)
    requires k <= |segs|
    ensures ElfByte(image, segs, k, x, b) == ByteOf(image, segs, LastOver(image, segs, k, x), x, b)
  {
    if k > 0 { ElfByteIsLast(image, segs, k - 1, x, b); }
  }

  lemma {:induction false} ExecAllIsLastKept(image: seq<byte>, segs: seq<Seg>, k: nat, x: nat, b: byte)
    requires k <= |segs|
    ensures ExecAll(image, segs, k, x, b) == ByteOf(image, segs, LastKept(image, segs, k, x), x, b)
  {
    if k > 0 { ExecAllIsLastKept(image, segs, k - 1, x, b); }
  }

  lemma {:induction false} LastIsKept(image: seq<byte>, segs: seq<Seg>, k: nat, x: nat)
    requires k <= |segs|
    requires LastOver(image, segs, k, x) >= 0 ==> !Drops(segs[LastOver(image, segs, k, x)], x)
    ensures LastKept(image, segs, k, x) == LastOver(image, segs, k, x)
  {
    if k > 0 && LastOver(image, segs, k, x) != k - 1 { LastIsKept(image, segs, k - 1, x); }
  }

  /** For a list of segments over any memory `before`, exec gives elf_load's bytes everywhere if and only if every
      byte that the last segment over it leaves out is the same in the segment below it, or in memory. */
  lemma ExecAgreesExactly(image: seq<byte>, segs: seq<Seg>, before: nat -> byte)
    ensures
      (forall x: nat ::
         ExecAll(image, segs, |segs|, x, before(x)) == ElfByte(image, segs, |segs|, x, before(x))) <==>
      (forall x: nat ::
         var last := LastOver(image, segs, |segs|, x);
         last >= 0 && Drops(segs[last], x) ==>
           SegByte(image, segs[last], x, 0) == ByteOf(image, segs, LastKept(image, segs, |segs|, x), x, before(x)))
  {
    forall x: nat
      ensures ExecAll(image, segs, |segs|, x, before(x)) == ElfByte(image, segs, |segs|, x, before(x)) <==>
        var last := LastOver(image, segs, |segs|, x);
        last >= 0 && Drops(segs[last], x) ==>
          SegByte(image, segs[last], x, 0) == ByteOf(image, segs, LastKept(image, segs, |segs|, x), x, before(x))
    {
      ElfByteIsLast(image, segs, |segs|, x, before(x));
      ExecAllIsLastKept(image, segs, |segs|, x, before(x));
      var last := LastOver(image, segs, |segs|, x);
      if !(last >= 0 && Drops(segs[last], x)) {
        LastIsKept(image, segs, |segs|, x);
      }
    }
  }

  /** A segment one byte past a page boundary, loaded over fresh pages, loses its first page. */
  lemma UnalignedLosesBytes()
    ensures
      var s := Seg(PT_LOAD, 0, 0x400001, 1, 1);
      ExecAll([7], [s], 1, 0x400001, 0) == 0 && ElfByte([7], [s], 1, 0x400001, 0) == 7
  {
    var s := Seg(PT_LOAD, 0, 0x400001, 1, 1);
    var prev := ExecAll([7], [s], 0, 0x400001, 0);
    var prev2 := ElfByte([7], [s], 0, 0x400001, 0);
    assert Loaded([7], s);
  }

  /** A segment with one byte of memory and more than a page of file: exec loads its first page only. */
  lemma LongFileLosesBytes(image: seq<byte>)
    requires |image| == 4097 && image[4096] == 7
    ensures
      var s := Seg(PT_LOAD, 0, 0x400000, 4097, 1);
      ExecAll(image, [s], 1, 0x401000, 0) == 0 && ElfByte(image, [s], 1, 0x401000, 0) == 7
  {
    var s := Seg(PT_LOAD, 0, 0x400000, 4097, 1);
    var prev := ExecAll(image, [s], 0, 0x401000, 0);
    var prev2 := ElfByte(image, [s], 0, 0x401000, 0);
    assert Loaded(image, s) && EndPage(s) == 0x401;
  }
}

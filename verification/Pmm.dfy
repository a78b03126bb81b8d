/** Physical page manager: a byte-packed bitmap with one bit per 4 KB page (1 = in use). */
module Pmm {
  import opened PageBits

  const PAGE_SIZE: nat := 4096
  /** 64 GB of 4 KB pages. */
  const PMM_MAX_PAGES: nat := 0x100_0000
  const BITMAP_BYTES: nat := 0x20_0000
  const E820_MAX: nat := 256
  const MEM_START: nat := 0x100000
  const WORD: nat := 0x1_0000_0000_0000_0000

  newtype u64 = x: int | 0 <= x < 0x1_0000_0000_0000_0000

  /** A firmware memory-map entry; type 1 means available memory. */
  datatype E820 = E820(base: u64, length: u64, kind: nat)

  function Mask(k: nat): bv8
    requires k < 8
  {
    match k
    case 0 => 0x01
    case 1 => 0x02
    case 2 => 0x04
    case 3 => 0x08
    case 4 => 0x10
    case 5 => 0x20
    case 6 => 0x40
    case 7 => 0x80
  }

  predicate TestBit(byte: bv8, k: nat)
    requires k < 8
  {
    byte & Mask(k) != 0
  }

  lemma MaskBits(byte: bv8, k: nat, j: nat)
    requires k < 8 && j < 8
    ensures TestBit(byte | Mask(k), j) == (j == k || TestBit(byte, j))
    ensures TestBit(byte & !Mask(k), j) == (j != k && TestBit(byte, j))
  {
  }

  lemma AllOnes(j: nat)
    requires j < 8
    ensures TestBit(0xFF, j)
  {
  }

  /** The firmware entries before the all-zero terminator, at most E820_MAX of them. */
  function EntryCount(map820: seq<E820>, from: nat := 0): (n: nat)
    requires from <= |map820|
    ensures from <= n <= |map820|
    decreases |map820| - from
  {
    if from == |map820| || from >= E820_MAX || (map820[from].base == 0 && map820[from].length == 0) then from
    else EntryCount(map820, from + 1)
  }

  /** Highest end address among the first `n` entries, in 64-bit arithmetic. */
  function MaxEnd(map820: seq<E820>, n: nat): nat
    requires n <= |map820|
  {
    if n == 0 then 0
    else
      var end := (map820[n - 1].base as nat + map820[n - 1].length as nat) % WORD;
      if end > MaxEnd(map820, n - 1) then end else MaxEnd(map820, n - 1)
  }

  /** First page and page count that an available entry contributes, after clamping at 1 MB. */
  function PageInterval(e: E820): (r: (nat, nat)) {
    var start, len := e.base as nat, e.length as nat;
    if start < MEM_START then
      if (start + len) % WORD <= MEM_START then (0, 0)
      else (MEM_START / PAGE_SIZE, (len + WORD - (MEM_START - start)) % WORD / PAGE_SIZE)
    else
      (start / PAGE_SIZE, len / PAGE_SIZE)
  }

  predicate Contributes(e: E820, page: int) {
    e.kind == 1 && PageInterval(e).0 <= page < PageInterval(e).0 + PageInterval(e).1
  }

  /** Some one of the first `n` entries makes `page` available. */
  predicate AvailableIn(map820: seq<E820>, n: nat, page: int)
    requires n <= |map820|
  {
    n > 0 && (Contributes(map820[n - 1], page) || AvailableIn(map820, n - 1, page))
  }

  lemma AvailableInExists(map820: seq<E820>, n: nat, page: int)
    requires n <= |map820|
    ensures AvailableIn(map820, n, page) <==> exists k :: 0 <= k < n && Contributes(map820[k], page)
  {
  }

  /** An available page starts no more than a page before usable memory and ends inside it, also for
      entries whose end wraps around the address space. */
  lemma ContributedPagesAreMemory(e: E820, page: nat)
    requires Contributes(e, page)
    ensures page >= MEM_START / PAGE_SIZE
    ensures (page + 1) * PAGE_SIZE > e.base as nat
    ensures (page + 1) * PAGE_SIZE <= e.base as nat + e.length as nat
    ensures e.base as nat % PAGE_SIZE == 0 ==> e.base as nat <= page * PAGE_SIZE
  {
  }

  // ---- The same in addresses ----

  /** An available entry covers page `page`: the whole page lies at or above 1 MB and inside the entry. An
      entry from 1 MB up counts from the start of its first page, and may run past the end of the address
      space; an entry from below 1 MB counts only if it does not. */
  predicate Covers(e: E820, page: int) {
    var base, length := e.base as int, e.length as int;
    && e.kind == 1 && page >= 256
    && if base >= 0x100000 then base - base % 4096 <= 4096 * page && 4096 * (page + 1) <= base - base % 4096 + length
       else 4096 * (page + 1) <= base + length < 0x1_0000_0000_0000_0000
  }

  /** The entries the firmware listed: `n` of them, up to the first that is all zero, at most 256. */
  predicate Listed(map820: seq<E820>, n: nat) {
    && n <= |map820| && n <= 256
    && (forall k :: 0 <= k < n ==> map820[k].base != 0 || map820[k].length != 0)
    && (n == |map820| || n == 256 || (map820[n].base == 0 && map820[n].length == 0))
  }

  /** Where the entry ends, in 64-bit arithmetic. */
  function EndOf(e: E820): nat {
    (e.base as nat + e.length as nat) % 0x1_0000_0000_0000_0000
  }

  /** `top` is the highest end of the first `n` entries: at least every end, and the end of one of them. */
  predicate HighestEnd(map820: seq<E820>, n: nat, top: nat)
    requires n <= |map820|
  {
    && (forall k :: 0 <= k < n ==> EndOf(map820[k]) <= top)
    && (if n == 0 then top == 0 else exists k :: 0 <= k < n && EndOf(map820[k]) == top)
  }

  /** The pages start-up takes from an entry are exactly those it covers. */
  lemma ContributesExactly(e: E820, page: int)
    requires page >= 256
    ensures Contributes(e, page) <==> Covers(e, page)
  {
    var start, len := e.base as nat, e.length as nat;
    if start >= MEM_START {
      assert start == 4096 * (start / 4096) + start % 4096 && len == 4096 * (len / 4096) + len % 4096;
    } else {
      var rest := len - (MEM_START - start);
      if rest >= 0 { assert rest == 4096 * (rest / 4096) + rest % 4096; }
    }
  }

  /** For an entry that starts on a page boundary and does not wrap, these are the pages at or above 1 MB that
      lie wholly inside it. */
  lemma AlignedEntry(e: E820, page: int)
    requires e.kind == 1 && e.base as int % 4096 == 0
    requires e.base as int + e.length as int < 0x1_0000_0000_0000_0000
    ensures Contributes(e, page) && page >= 256 <==>
      page >= 256 && e.base as int <= 4096 * page && 4096 * (page + 1) <= e.base as int + e.length as int
  {
    if page >= 256 { ContributesExactly(e, page); }
  }

  lemma AvailableExactly(map820: seq<E820>, n: nat, page: int)
    requires n <= |map820| && page >= 256
    ensures AvailableIn(map820, n, page) <==> exists k :: 0 <= k < n && Covers(map820[k], page)
  {
    AvailableInExists(map820, n, page);
    forall k | 0 <= k < n
      ensures Contributes(map820[k], page) <==> Covers(map820[k], page)
    {
      ContributesExactly(map820[k], page);
    }
  }

  lemma {:induction false} EntryCountExactly(map820: seq<E820>, from: nat)
    requires from <= |map820| && from <= 256
    requires forall k :: 0 <= k < from ==> map820[k].base != 0 || map820[k].length != 0
    ensures Listed(map820, EntryCount(map820, from))
    decreases |map820| - from
  {
    if EntryCount(map820, from) != from { EntryCountExactly(map820, from + 1); }
  }

  lemma {:induction false} MaxEndExactly(map820: seq<E820>, n: nat)
    requires n <= |map820|
    ensures HighestEnd(map820, n, MaxEnd(map820, n))
  {
    if n > 0 {
      MaxEndExactly(map820, n - 1);
      assert MaxEnd(map820, n) == EndOf(map820[n - 1]) || MaxEnd(map820, n) == MaxEnd(map820, n - 1);
    }
  }

  ghost predicate BitAt(bitmap: array<bv8>, i: nat)
    requires i < 8 * bitmap.Length
    reads bitmap
  {
    TestBit(bitmap[i / 8], i % 8)
  }

  ghost predicate PackedIn(a: seq<bv8>, bits: seq<bool>) {
    |bits| <= 8 * |a| && forall i: nat :: i < |bits| ==> bits[i] == TestBit(a[i / 8], i % 8)
  }

  /** Setting or clearing one bit of one byte. */
  lemma OneBit(a: seq<bv8>, bits: seq<bool>, bit: nat, b: bv8, val: bool)
    requires PackedIn(a, bits) && bit < |bits|
    requires forall j: nat :: j < 8 ==> TestBit(b, j) == if j == bit % 8 then val else TestBit(a[bit / 8], j)
    ensures PackedIn(a[bit / 8 := b], bits[bit := val])
  {
    hide TestBit, Mask;
    forall i: nat | i < |bits|
      ensures bits[bit := val][i] == TestBit(a[bit / 8 := b][i / 8], i % 8)
    {
      assert i / 8 == bit / 8 && i % 8 == bit % 8 ==> i == bit;
    }
  }

  lemma ByteChange(byte: bv8, k: nat, b: bv8, val: bool)
    requires k < 8 && b == if val then byte | Mask(k) else byte & !Mask(k)
    ensures forall j: nat :: j < 8 ==> TestBit(b, j) == if j == k then val else TestBit(byte, j)
  {
    forall j: nat | j < 8
      ensures TestBit(b, j) == if j == k then val else TestBit(byte, j)
    {
      MaskBits(byte, k, j);
    }
  }

  class Pmm {
    const bitmap: array<bv8>
    var total: nat
    var used: nat
    var memEnd: nat
    /** The bitmap below `total` as booleans. */
    ghost var Bits: seq<bool>

    ghost predicate Packed()
      reads this, bitmap
    {
      && |Bits| == total <= 8 * bitmap.Length
      && forall i: nat {:trigger BitAt(bitmap, i)} :: i < total ==> Bits[i] == BitAt(bitmap, i)
    }

    ghost predicate Valid()
      reads this, bitmap
    {
      Packed() && used == |UsedSet(Bits)|
    }

    constructor ()
      ensures Valid() && fresh(bitmap) && Bits == []
      ensures bitmap.Length == BITMAP_BYTES && memEnd == 0
    {
      bitmap := new bv8[BITMAP_BYTES];
      total, used, memEnd, Bits := 0, 0, 0, [];
    }

    method BmTest(bit: nat) returns (b: bool)
      requires Packed() && bit < total
      ensures b == Bits[bit]
    {
      b := TestBit(bitmap[bit / 8], bit % 8);
      assert b == BitAt(bitmap, bit);
    }

    /** `Packed` as a fact about values. */
    lemma AsValues()
      requires Packed()
      ensures PackedIn(bitmap[..], Bits)
    {
      forall i: nat | i < |Bits|
        ensures Bits[i] == TestBit(bitmap[..][i / 8], i % 8)
      {
        assert BitAt(bitmap, i) == Bits[i];
      }
    }

    method BmSet(bit: nat)
      requires Packed() && bit < total
      modifies this`Bits, bitmap
      ensures Packed() && Bits == old(Bits)[bit := true]
    {
      ghost var before, bits := bitmap[..], Bits;
      AsValues();
      bitmap[bit / 8] := bitmap[bit / 8] | Mask(bit % 8);
      Bits := Bits[bit := true];
      ByteChange(before[bit / 8], bit % 8, bitmap[bit / 8], true);
      OneBit(before, bits, bit, bitmap[bit / 8], true);
      forall i: nat | i < total
        ensures Bits[i] == BitAt(bitmap, i)
      {
        assert Bits[i] == TestBit(before[bit / 8 := bitmap[bit / 8]][i / 8], i % 8);
      }
    }

    method BmClear(bit: nat)
      requires Packed() && bit < total
      modifies this`Bits, bitmap
      ensures Packed() && Bits == old(Bits)[bit := false]
    {
      ghost var before, bits := bitmap[..], Bits;
      AsValues();
      bitmap[bit / 8] := bitmap[bit / 8] & !Mask(bit % 8);
      Bits := Bits[bit := false];
      ByteChange(before[bit / 8], bit % 8, bitmap[bit / 8], false);
      OneBit(before, bits, bit, bitmap[bit / 8], false);
      forall i: nat | i < total
        ensures Bits[i] == BitAt(bitmap, i)
      {
        assert Bits[i] == TestBit(before[bit / 8 := bitmap[bit / 8]][i / 8], i % 8);
      }
    }

    /** Lowest run of `count` free pages; -1 only when there is no such run. */
    method FindContiguous(count: nat) returns (r: int)
      requires Valid() && count > 0
      ensures r == -1 <==> !HasRun(Bits, count)
      ensures r != -1 ==> r == LowestRun(Bits, count)
    {
      var run, start := 0, 0;
      for i := 0 to total
        invariant run < count
        invariant run > 0 ==> start == i - run
        invariant run <= i && forall k :: i - run <= k < i ==> !Bits[k]
        invariant i - run > 0 ==> Bits[i - run - 1]
        invariant forall s :: s + count <= i ==> !RunFree(Bits, s, count)
      {
        var b := BmTest(i);
        if !b {
          if run == 0 { start := i; }
          run := run + 1;
          if run >= count {
            assert start > 0 ==> Bits[start - 1];
            assert RunFree(Bits, start, count) && IsLowestRun(Bits, start, count);
            return start;
          }
          assert i + 1 - run > 0 ==> Bits[i + 1 - run - 1];
        } else {
          run := 0;
        }
      }
      return -1;
    }

    /** pmm_init: mark everything used, clear the available entries, keep the first megabyte used. */
    method Init(map820: seq<E820>)
      requires Valid() && bitmap.Length == BITMAP_BYTES && memEnd == 0
      modifies this, bitmap
      ensures Valid() && Listed(map820, EntryCount(map820))
      ensures forall p :: 0 <= p < total ==>
        (!Bits[p] <==> p >= 256 && exists k :: 0 <= k < EntryCount(map820) && Covers(map820[k], p))
      ensures HighestEnd(map820, EntryCount(map820), memEnd)
      ensures total == if memEnd / 4096 > 0x100_0000 then 0x100_0000 else memEnd / 4096
      ensures total > 0 ==> Bits[0]
    {
      hide AvailableIn, EntryCount, MaxEnd, Covers;
      EntryCountExactly(map820, 0);
      var count := FindExtent(map820);
      MaxEndExactly(map820, count);
      total := memEnd / PAGE_SIZE;
      if total > PMM_MAX_PAGES { total := PMM_MAX_PAGES; }
      MarkAll();
      ClearAvailable(map820, count);
      MarkLowPages();
      forall p | 256 <= p < total
        ensures AvailableIn(map820, count, p) <==> exists k :: 0 <= k < count && Covers(map820[k], p)
      {
        AvailableExactly(map820, count, p);
      }
      CountUsed();
    }

    method FindExtent(map820: seq<E820>) returns (count: nat)
      requires memEnd == 0
      modifies this`memEnd
      ensures count == EntryCount(map820) && memEnd == MaxEnd(map820, count)
    {
      count := 0;
      while count < E820_MAX && count < |map820|
        invariant count <= |map820|
        invariant EntryCount(map820) == EntryCount(map820, count)
        invariant memEnd == MaxEnd(map820, count)
      {
        if map820[count].base == 0 && map820[count].length == 0 { break; }
        var end := (map820[count].base as nat + map820[count].length as nat) % WORD;
        if end > memEnd { memEnd := end; }
        count := count + 1;
      }
    }

    method MarkAll()
      requires total <= 8 * bitmap.Length
      modifies this`Bits, bitmap
      ensures Packed() && Bits == seq(total, _ => true)
    {
      for i := 0 to bitmap.Length
        invariant forall k :: 0 <= k < i ==> bitmap[k] == 0xFF
      {
        bitmap[i] := 0xFF;
      }
      Bits := seq(total, _ => true);
      forall i: nat | i < total
        ensures BitAt(bitmap, i)
      {
        AllOnes(i % 8);
      }
    }

    method ClearAvailable(map820: seq<E820>, count: nat)
      requires Packed() && Bits == seq(total, _ => true) && count <= |map820|
      modifies this`Bits, bitmap
      ensures Packed() && forall p :: 0 <= p < total ==> (!Bits[p] <==> AvailableIn(map820, count, p))
    {
      for i := 0 to count
        invariant Packed() && forall p :: 0 <= p < total ==> (!Bits[p] <==> AvailableIn(map820, i, p))
      {
        if map820[i].kind == 1 {
          var (first, pages) := PageInterval(map820[i]);
          ClearPages(first, pages);
        }
      }
    }

    method CountUsed()
      requires Packed()
      modifies this`used
      ensures Valid()
    {
      used := 0;
      for i := 0 to total
        invariant used == |UsedSet(Bits[..i])|
      {
        var b := BmTest(i);
        assert UsedSet(Bits[..i + 1]) == UsedSet(Bits[..i]) + if b then {i} else {};
        if b { used := used + 1; }
      }
      assert Bits[..total] == Bits;
    }

    method ClearPages(first: nat, pages: nat)
      requires Packed()
      modifies this`Bits, bitmap
      ensures Packed() && Bits == Fill(old(Bits), first, pages, false)
    {
      for j := 0 to pages
        invariant Packed() && Bits == Fill(old(Bits), first, j, false)
      {
        if first + j < total { BmClear(first + j); }
      }
    }

    method MarkLowPages()
      requires Packed()
      modifies this`Bits, bitmap
      ensures Packed() && Bits == Fill(old(Bits), 0, MEM_START / PAGE_SIZE, true)
    {
      var i := 0;
      while i < MEM_START / PAGE_SIZE && i < total
        invariant 0 <= i <= MEM_START / PAGE_SIZE
        invariant Packed() && Bits == Fill(old(Bits), 0, i, true)
      {
        BmSet(i);
        i := i + 1;
      }
    }

    /** Takes the lowest free page and returns its address; 0 when no page is free. */
    method AllocPage() returns (addr: nat)
      requires Valid()
      modifies this`used, this`Bits, bitmap
      ensures Valid()
      ensures FirstFree(old(Bits)) == total ==> addr == 0 && Bits == old(Bits)
      ensures FirstFree(old(Bits)) < total ==>
        addr == FirstFree(old(Bits)) * PAGE_SIZE && Bits == old(Bits)[FirstFree(old(Bits)) := true]
    {
      for i := 0 to total
        invariant Valid() && Bits == old(Bits) && FirstFree(Bits) == FirstFree(Bits, i)
      {
        var b := BmTest(i);
        if !b {
          TakePage(i);
          return i * PAGE_SIZE;
        }
      }
      return 0;
    }

    /** Takes the lowest wholly free run of `count` pages; fails only when none exists. */
    method AllocPages(count: nat) returns (addr: nat)
      requires Valid()
      modifies this`used, this`Bits, bitmap
      ensures Valid()
      ensures count == 0 || !HasRun(old(Bits), count) ==> addr == 0 && Bits == old(Bits)
      ensures count > 0 && HasRun(old(Bits), count) ==>
        && addr == LowestRun(old(Bits), count) * PAGE_SIZE
        && Bits == Fill(old(Bits), LowestRun(old(Bits), count), count, true)
      ensures total == old(total)
      ensures count > 0 && HasRun(old(Bits), count) ==>
        forall p :: 0 <= p < total ==>
          if addr / 4096 <= p < addr / 4096 + count then !old(Bits[p]) && Bits[p] else Bits[p] == old(Bits[p])
    {
      if count == 0 { return 0; }
      if count == 1 {
        SinglePageRun(Bits);
        addr := AllocPage();
        return;
      }
      var start := FindContiguous(count);
      if start == -1 { return 0; }
      for i := 0 to count
        invariant Valid() && Bits == Fill(old(Bits), start, i, true)
      {
        FillStep(old(Bits), start, i, true);
        TakePage(start + i);
      }
      return start * PAGE_SIZE;
    }

    method TakePage(bit: nat)
      requires Valid() && bit < total && !Bits[bit]
      modifies this`used, this`Bits, bitmap
      ensures Valid() && Bits == old(Bits)[bit := true]
    {
      SetBit(Bits, bit);
      BmSet(bit);
      used := used + 1;
    }

    method DropPage(bit: nat)
      requires Valid()
      modifies this`used, this`Bits, bitmap
      ensures Valid() && Bits == if bit < total then old(Bits)[bit := false] else old(Bits)
    {
      if bit < total {
        var b := BmTest(bit);
        if b {
          ClearBit(Bits, bit);
          BmClear(bit);
          used := used - 1;
        }
      }
    }

    /** Frees the page holding `addr`; an address out of range or already free changes nothing. */
    method FreePage(addr: nat)
      requires Valid()
      modifies this`used, this`Bits, bitmap
      ensures Valid()
      ensures addr / PAGE_SIZE < total ==> Bits == old(Bits)[addr / PAGE_SIZE := false]
      ensures addr / PAGE_SIZE >= total ==> Bits == old(Bits)
    {
      DropPage(addr / PAGE_SIZE);
    }

    method FreePages(addr: nat, count: nat)
      requires Valid()
      modifies this`used, this`Bits, bitmap
      ensures Valid() && Bits == Fill(old(Bits), addr / PAGE_SIZE, count, false) && total == old(total)
      ensures forall p :: 0 <= p < total ==> Bits[p] == (old(Bits[p]) && !(addr / 4096 <= p < addr / 4096 + count))
    {
      var pg := addr / PAGE_SIZE;
      for i := 0 to count
        invariant Valid() && Bits == Fill(old(Bits), pg, i, false)
      {
        FillStep(old(Bits), pg, i, false);
        DropPage(pg + i);
      }
    }

    /** pmm_get_free_pages counts exactly the clear bits. */
    method GetFreePages() returns (n: nat)
      requires Valid()
      ensures n == FreeCount(Bits)
    {
      UsedPlusFree(Bits);
      n := total - used;
    }
  }

  lemma {:induction false} UsedPlusFree(bits: seq<bool>)
    ensures |UsedSet(bits)| + FreeCount(bits) == |bits|
  {
    if |bits| > 0 {
      UsedPlusFree(bits[..|bits| - 1]);
      OneMoreBit(bits);
    } else {
      assert UsedSet(bits) == {} && FreeSet(bits) == {};
    }
  }

  lemma OneMoreBit(bits: seq<bool>)
    requires |bits| > 0
    ensures
      var last := |bits| - 1;
      && |UsedSet(bits)| == |UsedSet(bits[..last])| + (if bits[last] then 1 else 0)
      && |FreeSet(bits)| == |FreeSet(bits[..last])| + (if bits[last] then 0 else 1)
  {
    var last := |bits| - 1;
    assert UsedSet(bits) == UsedSet(bits[..last]) + if bits[last] then {last} else {};
    assert FreeSet(bits) == FreeSet(bits[..last]) + if bits[last] then {} else {last};
  }

  /** Allocating a run and freeing it is the identity on the bitmap. */
  lemma AllocThenFree(bits: seq<bool>, start: nat, count: nat)
    requires RunFree(bits, start, count)
    ensures Fill(Fill(bits, start, count, true), start, count, false) == bits
  {
  }
}

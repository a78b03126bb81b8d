/**
 * How large the blocks are that kmalloc hands out, what it leaves free, and when it asks for pages
 * (kernel/kmalloc.c), in bytes.
 */
module HeapSizes {
  import opened PageBits
  import opened Heap
  import opened HeapRuns

  /** The first listed block that is free and large enough. */
  ghost predicate FirstServing(bs: seq<Block>, size: nat, i: nat) {
    && i < |bs| && bs[i].free && bs[i].size >= size
    && forall j :: 0 <= j < i ==> !(bs[j].free && bs[j].size >= size)
  }

  ghost predicate NoneServing(bs: seq<Block>, size: nat) {
    forall j :: 0 <= j < |bs| ==> !(bs[j].free && bs[j].size >= size)
  }

  /** `n` is `size` rounded up to 16. */
  predicate Rounded(size: nat, n: nat) {
    n % 16 == 0 && size <= n < size + 16
  }

  lemma RoundIs(size: nat, n: nat)
    requires Rounded(size, n) && size + 15 < 0x1_0000_0000_0000_0000
    ensures Round(size) == n
  {
    var q := (size + 15) / 16;
    assert (size + 15) % WORD == size + 15;
    assert q * 16 <= size + 15 < q * 16 + 16;
    assert n == n / 16 * 16;
  }

  /** Sizes in the list are multiples of 16, so rounding the request changes no fit. */
  lemma FitsServes(bs: seq<Block>, size: nat, n: nat)
    requires Aligned(bs) && Rounded(size, n)
    ensures forall j :: 0 <= j < |bs| ==> (Fits(bs[j], n) <==> bs[j].free && bs[j].size >= size)
  {
    forall j | 0 <= j < |bs|
      ensures Fits(bs[j], n) <==> bs[j].free && bs[j].size >= size
    {
      assert AlignedBlock(bs[j]);
      SixteenApart(bs[j].size, size, n);
    }
  }

  lemma SixteenApart(b: nat, size: nat, n: nat)
    requires b % 16 == 0 && Rounded(size, n)
    ensures b >= n <==> b >= size
  {
    assert b == 16 * (b / 16) && n == 16 * (n / 16);
  }

  lemma FirstIs(bs: seq<Block>, size: nat, n: nat)
    requires Aligned(bs) && Rounded(size, n)
    ensures var i := FirstFit(bs, n); if i < |bs| then FirstServing(bs, size, i) else NoneServing(bs, size)
    ensures forall i: nat :: FirstServing(bs, size, i) ==> i == FirstFit(bs, n)
  {
    FitsServes(bs, size, n);
    var f := FirstFit(bs, n);
    forall i: nat | FirstServing(bs, size, i)
      ensures i == f
    {
      assert Fits(bs[i], n);
    }
  }

  /** A request that a listed block can serve takes the first such block. With 80 bytes to spare the block is
      cut to exactly the rounded size, and a free block with the rest, less its 48-byte header, begins where
      it ends; with less it is handed out whole, fewer than 80 bytes larger. No page is taken. */
  lemma MallocServed(s: Store, size: nat, n: nat, i: nat)
    requires Shape(s) && 0 < size && size + 15 < 0x1_0000_0000_0000_0000 && Rounded(size, n)
    requires FirstServing(s.blocks, size, i)
    ensures MallocResult(s, size) == s.blocks[i].addr + 48
    ensures
      var b, r := s.blocks[i], AfterMalloc(s, size);
      && (r.bits, r.grant, r.regions) == (s.bits, s.grant, s.regions)
      && r.blocks == s.blocks[..i]
           + (if b.size >= n + 80 then [Block(b.addr, n, false), Block(b.addr + 48 + n, b.size - n - 48, true)]
              else [Block(b.addr, b.size, false)])
           + s.blocks[i + 1..]
    ensures Handed(s, size).size < n + 80
    ensures s.blocks[i].size >= n + 80 ==> Handed(s, size).size == n
  {
    RoundIs(size, n);
    FirstIs(s.blocks, size, n);
  }

  /** The same as a relation: what becomes of the list and the pointer when a listed block serves. */
  ghost predicate ServedInBytes(s: Store, size: nat, r: Store, ptr: int) {
    forall n: nat, i: nat :: Rounded(size, n) && FirstServing(s.blocks, size, i) ==>
      var b := s.blocks[i];
      && ptr == b.addr + 48
      && r.blocks == s.blocks[..i]
           + (if b.size >= n + 80 then [Block(b.addr, n, false), Block(b.addr + 48 + n, b.size - n - 48, true)]
              else [Block(b.addr, b.size, false)])
           + s.blocks[i + 1..]
  }

  lemma MallocInBytes(s: Store, size: nat)
    requires Shape(s) && 0 < size && size + 15 < 0x1_0000_0000_0000_0000
    ensures ServedInBytes(s, size, AfterMalloc(s, size), MallocResult(s, size))
  {
    hide Shape, AfterMalloc, MallocResult;
    forall n: nat, i: nat | Rounded(size, n) && FirstServing(s.blocks, size, i)
      ensures var b := s.blocks[i];
              && MallocResult(s, size) == b.addr + 48
              && AfterMalloc(s, size).blocks == s.blocks[..i]
                   + (if b.size >= n + 80 then [Block(b.addr, n, false), Block(b.addr + 48 + n, b.size - n - 48, true)]
                      else [Block(b.addr, b.size, false)])
                   + s.blocks[i + 1..]
    {
      MallocServed(s, size, n, i);
    }
  }

  /** So a request that fits in what an earlier one left of its block is served without taking pages. */
  lemma RestServes(s: Store, size: nat, n: nat, i: nat, size': nat, n': nat)
    requires Shape(s) && 0 < size && size + 15 < 0x1_0000_0000_0000_0000 && Rounded(size, n)
    requires FirstServing(s.blocks, size, i) && s.blocks[i].size >= n + 80
    requires 0 < size' <= s.blocks[i].size - n - 48 && Rounded(size', n') && size' + 15 < 0x1_0000_0000_0000_0000
    ensures
      var r := AfterMalloc(s, size);
      && MallocResult(r, size') != 0
      && (AfterMalloc(r, size').bits, AfterMalloc(r, size').grant) == (s.bits, s.grant)
  {
    MallocServed(s, size, n, i);
    var r := AfterMalloc(s, size);
    RoundIs(size, n);
    RoundIs(size', n');
    FirstIs(s.blocks, size, n);
    TakeLaws(s.blocks, i, n);
    FitsServes(r.blocks, size', n');
    assert r.blocks[i + 1] == Block(s.blocks[i].addr + 48 + n, s.blocks[i].size - n - 48, true);
    assert Fits(r.blocks[i + 1], n');
  }

  /** `k` is the least number of pages that hold the request and a header. */
  predicate LeastPages(size: nat, k: nat) {
    4096 * (k - 1) < size + 48 <= 4096 * k
  }

  lemma PagesIs(size: nat, n: nat, k: nat)
    requires 0 < size < 0x10_0000_0000 && Rounded(size, n) && LeastPages(size, k)
    ensures Round(size) == n && Pages(n) == k > 0
  {
    RoundIs(size, n);
    SixteenUp(size + 48, n + 48, k);
    assert n + 4143 < WORD;
  }

  lemma SixteenUp(size: nat, n: nat, k: nat)
    requires Rounded(size, n) && k > 0 && 4096 * (k - 1) < size <= 4096 * k
    ensures (n + 4095) / 4096 == k
  {
    var a := n / 16;
    assert n == 16 * a && 16 * a < 16 * (256 * k + 1);
    assert a <= 256 * k;
    PageQuotient(n + 4095, k);
  }

  lemma PageQuotient(x: nat, k: nat)
    requires 4096 * k <= x < 4096 * k + 4096
    ensures x / 4096 == k
  {
  }

  /** A request that no listed block can serve takes the lowest run of the least number of pages that hold it,
      whole, and fails without a trace when there is no such run. */
  lemma MallocGrows(s: Store, size: nat, n: nat, k: nat)
    requires Shape(s) && 0 < size < 0x10_0000_0000 && Rounded(size, n) && LeastPages(size, k)
    requires NoneServing(s.blocks, size)
    ensures !HasRun(s.bits, k) ==> MallocResult(s, size) == 0 && AfterMalloc(s, size) == s
    ensures HasRun(s.bits, k) ==>
      var p, r := LowestRun(s.bits, k), AfterMalloc(s, size);
      && MallocResult(s, size) == 4096 * p + 48
      && r.blocks == [Block(4096 * p, 4096 * k - 48, false)] + s.blocks
      && r.regions == s.regions + 1
      && (forall q :: 0 <= q < |s.bits| ==> r.bits[q] == (s.bits[q] || p <= q < p + k))
      && (forall q :: q in r.grant <==> q in s.grant || p <= q < p + k)
  {
    PagesIs(size, n, k);
    FirstIs(s.blocks, size, n);
  }

  /** No request from 64 GB up to 48 bytes short of a word is ever granted. */
  lemma HugeFails(s: Store, size: nat)
    requires Shape(s) && 0x10_0000_0000 <= size <= 0x1_0000_0000_0000_0000 - 48
    ensures MallocResult(s, size) == 0 && AfterMalloc(s, size) == s
  {
    var n := Round(size);
    var i := FirstFit(s.blocks, n);
    UsedBound(s.bits, s.grant);
    if i < |s.blocks| {
      SizeBelowSum(s.blocks, i);
    } else if CanGrow(s, n) {
      RequestMet(s, size);
    }
  }

  /** A machine whose one free page was taken by a request of 16 bytes and freed again. */
  lemma WholePageFreed()
    ensures var s0 := Start([true, false]);
            var s2 := AfterFree(AfterMalloc(s0, 16), 4144);
            && MallocResult(s0, 16) == 4144
            && Shape(s2) && s2.blocks == [Block(4096, 4048, true)]
  {
    hide Round, AfterMalloc, MallocResult;
    var s0 := Start([true, false]);
    SinglePageRun(s0.bits);
    assert FirstFree(s0.bits, 1) == 1;
    MallocGrows(s0, 16, 16, 1);
    var s1 := AfterMalloc(s0, 16);
    assert s1.blocks == [Block(4096, 4048, false)];
    StepLaws(s0, Malloc(16));
    StepLaws(s1, Free(4144));
    assert Owner(s1.blocks, 4144) == 0;
    CoalesceFixed([Block(4096, 4048, true)]);
  }

  /** On it, after that, two requests of the same size share the page, the second 64 bytes behind the first. */
  lemma OnePageIsShared()
    ensures var s2 := AfterFree(AfterMalloc(Start([true, false]), 16), 4144);
            var s3 := AfterMalloc(s2, 16);
            && MallocResult(s2, 16) == 4144 && MallocResult(s3, 16) == 4208
            && AfterMalloc(s3, 16).blocks ==
               [Block(4096, 16, false), Block(4160, 16, false), Block(4224, 3920, true)]
  {
    hide Round, AfterMalloc, MallocResult, AfterFree;
    WholePageFreed();
    var s2 := AfterFree(AfterMalloc(Start([true, false]), 16), 4144);
    MallocServed(s2, 16, 16, 0);
    var s3 := AfterMalloc(s2, 16);
    assert s3.blocks == [Block(4096, 16, false), Block(4160, 3984, true)];
    StepLaws(s2, Malloc(16));
    MallocServed(s3, 16, 16, 1);
  }
}

/**
 * Runs of kmalloc and kfree (kernel/kmalloc.c), however often the heap grows.
 *
 * The code keeps its list in memory, so the list is only as good as its headers are apart.
 * A call that writes a new header over a listed one ends the list; the laws hold in a run
 * exactly as long as no call does. Calls on a sound heap never do, and a heap stays sound
 * as long as every free merges neighbours in memory, which one region guarantees and
 * several regions do not.
 */
module HeapRuns {
  import opened PageBits
  import opened Heap
  import opened Sets
  import Pmm

  /** The heap and the page bitmap below it; `grant` is the pages taken, `regions` how often it grew. */
  datatype Store = Store(blocks: seq<Block>, bits: seq<bool>, grant: set<nat>, regions: nat)

  /** `Others` stands for anything other parts of the kernel do to the page bitmap. */
  datatype Op = Malloc(size: nat) | Free(ptr: nat) | Others(bits: seq<bool>)

  predicate Within(start: nat, count: nat, p: nat) {
    start <= p < start + count
  }

  function Interval(start: nat, count: nat): set<nat> {
    set p: nat | p < start + count && Within(start, count, p)
  }

  /** The block a client pointer belongs to, or `|bs|`. */
  function Owner(bs: seq<Block>, ptr: nat, from: nat := 0): (i: nat)
    requires from <= |bs|
    ensures from <= i <= |bs|
    ensures i < |bs| ==> bs[i].Payload() == ptr
    ensures i == |bs| ==> forall j :: from <= j < |bs| ==> bs[j].Payload() != ptr
    decreases |bs| - from
  {
    if from == |bs| || bs[from].Payload() == ptr then from else Owner(bs, ptr, from + 1)
  }

  /** The block that a region of `k` pages becomes. */
  ghost function Region(bits: seq<bool>, k: nat): Block
    requires k > 0 && HasRun(bits, k)
  {
    Block(LowestRun(bits, k) * PAGE, k * PAGE - HEADER, false)
  }

  ghost function Grown(s: Store, k: nat): Store
    requires k > 0 && HasRun(s.bits, k)
  {
    var p := LowestRun(s.bits, k);
    Store([Region(s.bits, k)] + s.blocks,
          Fill(s.bits, p, k, true), s.grant + Interval(p, k), s.regions + 1)
  }

  ghost predicate CanGrow(s: Store, n: nat) {
    Pages(n) > 0 && HasRun(s.bits, Pages(n))
  }

  ghost function AfterMalloc(s: Store, size: nat): Store {
    var n := Round(size);
    var i := FirstFit(s.blocks, n);
    if size == 0 then s
    else if i < |s.blocks| then s.(blocks := Take(s.blocks, i, n))
    else if CanGrow(s, n) then Grown(s, Pages(n))
    else s
  }

  /** The pointer kmalloc returns, 0 for none. */
  ghost function MallocResult(s: Store, size: nat): nat {
    var n := Round(size);
    var i := FirstFit(s.blocks, n);
    if size == 0 then 0
    else if i < |s.blocks| then s.blocks[i].Payload()
    else if CanGrow(s, n) then LowestRun(s.bits, Pages(n)) * PAGE + HEADER
    else 0
  }

  /** A pointer to nothing live is ignored. */
  function AfterFree(s: Store, ptr: nat): Store {
    var i := Owner(s.blocks, ptr);
    if i < |s.blocks| && !s.blocks[i].free then s.(blocks := Freed(s.blocks, i)) else s
  }

  ghost function Step(s: Store, op: Op): Store {
    match op
    case Malloc(size) => AfterMalloc(s, size)
    case Free(ptr) => AfterFree(s, ptr)
    case Others(bits) => s.(bits := bits)
  }

  ghost function Run(s: Store, ops: seq<Op>): Store
    decreases |ops|
  {
    if ops == [] then s else Run(Step(s, ops[0]), ops[1..])
  }

  // ----- What every run keeps -----

  /** Page 0 is never handed out, so a pointer of 0 always means failure. */
  predicate BitsOk(bits: seq<bool>) {
    |bits| <= Pmm.PMM_MAX_PAGES && (|bits| > 0 ==> bits[0])
  }

  /** No block's address reaches this, in a list whose regions come from the page manager. */
  const TOP: nat := Pmm.PMM_MAX_PAGES * PAGE

  /** What can be said of sizes, flags and pages alone. */
  ghost predicate Shape(s: Store) {
    && Sum(s.blocks) == PAGE * |s.grant|
    && Aligned(s.blocks)
    && NoFreePairs(s.blocks)
    && Near(s.blocks, TOP)
    && s.grant <= UsedSet(s.bits)
    && BitsOk(s.bits)
    && (s.regions == 0 ==> s.blocks == [])
    && (s.regions <= 1 ==> InOrder(s.blocks))
  }

  /** The laws of the list: its shape, and headers that do not overwrite each other. */
  ghost predicate Laws(s: Store) {
    Shape(s) && HeadersApart(s.blocks)
  }

  /** The header that the call writes, if it writes one, keeps clear of every other header in the list. */
  ghost predicate Unobstructed(s: Store, op: Op) {
    op.Malloc? && op.size != 0 ==>
      var n := Round(op.size);
      var i := FirstFit(s.blocks, n);
      if i < |s.blocks| then SplitClear(s.blocks, i, n)
      else
        CanGrow(s, n) ==>
          forall j :: 0 <= j < |s.blocks| ==> HeadersDisjoint(Region(s.bits, Pages(n)), s.blocks[j])
  }

  ghost predicate AllUnobstructed(s: Store, ops: seq<Op>)
    decreases |ops|
  {
    ops != [] ==> Unobstructed(s, ops[0]) && AllUnobstructed(Step(s, ops[0]), ops[1..])
  }

  /** The laws hold in every state of the run. */
  ghost predicate LawfulThroughout(s: Store, ops: seq<Op>)
    decreases |ops|
  {
    Laws(s) && (ops != [] ==> LawfulThroughout(Step(s, ops[0]), ops[1..]))
  }

  /** Sizes are 64-bit words; other kernel code leaves the heap's pages in use. */
  ghost predicate Allowed(s: Store, op: Op) {
    match op
    case Malloc(size) => size < WORD
    case Free(_) => true
    case Others(bits) => s.grant <= UsedSet(bits) && BitsOk(bits)
  }

  ghost predicate AllAllowed(s: Store, ops: seq<Op>)
    decreases |ops|
  {
    ops != [] ==> Allowed(s, ops[0]) && AllAllowed(Step(s, ops[0]), ops[1..])
  }

  lemma {:induction false} IntervalSize(start: nat, count: nat)
    ensures |Interval(start, count)| == count
    decreases count
  {
    if count == 0 {
      assert Interval(start, 0) == {};
    } else {
      IntervalSize(start, count - 1);
      assert Interval(start, count) == Interval(start, count - 1) + {start + count - 1};
    }
  }

  lemma UsedBound(bits: seq<bool>, grant: set<nat>)
    requires grant <= UsedSet(bits)
    ensures |grant| <= |bits|
  {
    IntervalSize(0, |bits|);
    SubsetSize(grant, Interval(0, |bits|));
  }

  lemma CarveAligned(b: Block, n: nat)
    requires Fits(b, n) && n % 16 == 0 && AlignedBlock(b)
    ensures Aligned(Carve(b, n))
  {
    var i, j, k := b.addr / 16, b.size / 16, n / 16;
    assert b.addr == 16 * i && b.size == 16 * j && n == 16 * k;
    assert b.addr + HEADER + n == 16 * (i + 3 + k);
    assert b.size - n - HEADER == 16 * (j - k - 3);
  }

  lemma TakeLaws(bs: seq<Block>, i: nat, n: nat)
    requires i < |bs| && Fits(bs[i], n) && n % 16 == 0 && Aligned(bs)
    ensures Sum(Take(bs, i, n)) == Sum(bs)
    ensures Aligned(Take(bs, i, n))
  {
    var pre, c, post := bs[..i], Carve(bs[i], n), bs[i + 1..];
    CarveAligned(bs[i], n);
    assert bs == pre + [bs[i]] + post;
    CarveSum(bs[i], n);
    SumConcat(pre + [bs[i]], post);
    SumConcat(pre, [bs[i]]);
    SumConcat(pre + c, post);
    SumConcat(pre, c);
  }

  /** A run of free pages lies outside the grant and above page 0. */
  lemma FreshRun(s: Store, k: nat)
    requires k > 0 && HasRun(s.bits, k) && s.grant <= UsedSet(s.bits) && BitsOk(s.bits)
    ensures LowestRun(s.bits, k) > 0
    ensures s.grant !! Interval(LowestRun(s.bits, k), k)
    ensures s.grant + Interval(LowestRun(s.bits, k), k) <= UsedSet(Fill(s.bits, LowestRun(s.bits, k), k, true))
    ensures |s.grant + Interval(LowestRun(s.bits, k), k)| == |s.grant| + k
  {
    var p := LowestRun(s.bits, k);
    assert !s.bits[p];
    IntervalSize(p, k);
    forall x | x in s.grant
      ensures x !in Interval(p, k) && x in UsedSet(Fill(s.bits, p, k, true))
    {
      assert s.bits[x];
    }
  }

  lemma PushLaws(b: Block, bs: seq<Block>)
    requires AlignedBlock(b) && !b.free && Aligned(bs) && NoFreePairs(bs)
    requires b.addr < TOP && Near(bs, TOP)
    ensures Sum([b] + bs) == b.Total() + Sum(bs)
    ensures Aligned([b] + bs) && NoFreePairs([b] + bs) && Near([b] + bs, TOP)
    ensures bs == [] ==> InOrder([b] + bs)
  {
    var r := [b] + bs;
    assert r[1..] == bs;
    assert forall i :: 0 < i < |r| ==> r[i] == bs[i - 1];
    NearHigher(bs, TOP, TOP + b.Total());
  }

  lemma GrownShape(s: Store, k: nat)
    requires Shape(s) && k > 0 && HasRun(s.bits, k)
    ensures Shape(Grown(s, k))
  {
    var p := LowestRun(s.bits, k);
    FreshRun(s, k);
    RegionAligned(p, k);
    RegionBelow(s.bits, k);
    PushLaws(Region(s.bits, k), s.blocks);
  }

  lemma RegionBelow(bits: seq<bool>, k: nat)
    requires k > 0 && HasRun(bits, k) && BitsOk(bits)
    ensures Region(bits, k).addr < TOP
  {
    assert RunFree(bits, LowestRun(bits, k), k);
  }

  lemma RegionAligned(p: nat, k: nat)
    requires p > 0 && k > 0
    ensures AlignedBlock(Block(p * PAGE, k * PAGE - HEADER, false))
  {
    assert p * PAGE == 16 * (256 * p);
    assert k * PAGE - HEADER == 16 * (256 * k - 3);
  }

  lemma TakeShape(s: Store, i: nat, n: nat)
    requires Shape(s) && i < |s.blocks| && Fits(s.blocks[i], n) && n % 16 == 0
    ensures Shape(s.(blocks := Take(s.blocks, i, n)))
  {
    TakeLaws(s.blocks, i, n);
    TakeNoPairs(s.blocks, i, n);
    NearTake(s.blocks, i, n, TOP);
    if s.regions <= 1 {
      TakeInOrder(s.blocks, i, n);
    }
  }

  lemma FreeShape(s: Store, i: nat)
    requires Shape(s) && i < |s.blocks| && !s.blocks[i].free
    ensures Shape(s.(blocks := Freed(s.blocks, i)))
  {
    FreeLaws(s.blocks, i);
    NearRelease(s.blocks, i, TOP);
    NearCoalesce(Release(s.blocks, i), TOP);
    if s.regions <= 1 {
      FreedInOrder(s.blocks, i);
    }
  }

  /** A call keeps the laws of the list exactly when the header it writes keeps clear of the others. */
  lemma StepLaws(s: Store, op: Op)
    requires Laws(s) && Allowed(s, op)
    ensures Shape(Step(s, op))
    ensures Laws(Step(s, op)) <==> Unobstructed(s, op)
  {
    match op
    case Malloc(size) =>
      var n := Round(size);
      var i := FirstFit(s.blocks, n);
      if size != 0 && i < |s.blocks| {
        TakeShape(s, i, n);
        TakeHeaders(s.blocks, i, n);
      } else if size != 0 && CanGrow(s, n) {
        GrownShape(s, Pages(n));
        PushHeaders(Region(s.bits, Pages(n)), s.blocks);
      }
    case Free(ptr) =>
      var i := Owner(s.blocks, ptr);
      if i < |s.blocks| && !s.blocks[i].free {
        FreeShape(s, i);
        FreedHeaders(s.blocks, i);
      }
    case Others(_) =>
  }

  lemma FreeLaws(bs: seq<Block>, i: nat)
    requires i < |bs| && Aligned(bs)
    ensures Sum(Freed(bs, i)) == Sum(bs)
    ensures Aligned(Freed(bs, i)) && NoFreePairs(Freed(bs, i))
  {
    var r := Release(bs, i);
    assert bs == bs[0..|bs|] && r == r[0..|r|];
    SumRelease(bs, i, 0, |bs|);
    SumPositive(bs);
    SumPositive(r);
    assert forall j :: 0 <= j < |bs| ==> AlignedBlock(bs[j]);
    CoalesceSum(r);
    CoalesceNoPairs(r);
  }

  lemma SumPositive(bs: seq<Block>)
    requires bs != []
    ensures Sum(bs) >= HEADER
  {
  }

  // ----- When the blocks stay apart in memory -----

  /** Nothing a caller does but freeing can hurt, and freeing only when the merge is not in place. */
  predicate Safe(s: Store, op: Op) {
    op.Free? ==>
      var i := Owner(s.blocks, op.ptr);
      i < |s.blocks| && !s.blocks[i].free ==> MergesInPlace(s.blocks, i)
  }

  ghost predicate AllSafe(s: Store, ops: seq<Op>)
    decreases |ops|
  {
    ops != [] ==> Safe(s, ops[0]) && AllSafe(Step(s, ops[0]), ops[1..])
  }

  lemma GrownSound(s: Store, k: nat)
    requires Shape(s) && Sound(s.blocks, s.grant) && k > 0 && HasRun(s.bits, k)
    ensures Sound(Grown(s, k).blocks, Grown(s, k).grant)
  {
    var p, b := LowestRun(s.bits, k), Region(s.bits, k);
    FreshRun(s, k);
    forall x: nat
      ensures Covered([b], x) <==> x / PAGE in Interval(p, k)
      ensures Covered([b] + s.blocks, x) <==> Covered([b], x) || Covered(s.blocks, x)
    {
      assert Covered([b], x) <==> [b][0].Holds(x);
      CoveredConcat([b], s.blocks, x);
    }
    ApartConcat([b], s.blocks);
  }

  /** An operation on a sound heap leaves it sound exactly when it is safe, and never obstructs a header. */
  lemma StepSound(s: Store, op: Op)
    requires Laws(s) && Allowed(s, op) && Sound(s.blocks, s.grant)
    ensures Sound(Step(s, op).blocks, Step(s, op).grant) <==> Safe(s, op)
    ensures Unobstructed(s, op)
  {
    match op
    case Malloc(size) =>
      var n := Round(size);
      var i := FirstFit(s.blocks, n);
      if size != 0 && i < |s.blocks| {
        TakeSound(s.blocks, i, n, s.grant);
      } else if size != 0 && CanGrow(s, n) {
        GrownSound(s, Pages(n));
      }
      ApartHeaders(Step(s, op).blocks);
      StepLaws(s, op);
    case Free(ptr) =>
      var i := Owner(s.blocks, ptr);
      if i < |s.blocks| && !s.blocks[i].free {
        FreedSound(s.blocks, i, s.grant);
      }
    case Others(_) =>
  }

  function Start(bits: seq<bool>): Store {
    Store([], bits, {}, 0)
  }

  /** The laws hold throughout a run exactly when no call of it writes a header over another. */
  lemma {:induction false} RunLaws(s: Store, ops: seq<Op>)
    requires Laws(s) && AllAllowed(s, ops)
    ensures LawfulThroughout(s, ops) <==> AllUnobstructed(s, ops)
    ensures AllUnobstructed(s, ops) ==> Laws(Run(s, ops))
    decreases |ops|
  {
    if ops != [] {
      StepLaws(s, ops[0]);
      if Unobstructed(s, ops[0]) {
        RunLaws(Step(s, ops[0]), ops[1..]);
      }
    }
  }

  lemma {:induction false} RegionsGrow(s: Store, ops: seq<Op>)
    ensures Run(s, ops).regions >= s.regions
    decreases |ops|
  {
    if ops != [] {
      RegionsGrow(Step(s, ops[0]), ops[1..]);
    }
  }

  lemma {:induction false} RunSound(s: Store, ops: seq<Op>)
    requires Laws(s) && AllAllowed(s, ops) && Sound(s.blocks, s.grant) && AllSafe(s, ops)
    ensures Sound(Run(s, ops).blocks, Run(s, ops).grant)
    ensures AllUnobstructed(s, ops) && Laws(Run(s, ops))
    decreases |ops|
  {
    if ops != [] {
      StepLaws(s, ops[0]);
      StepSound(s, ops[0]);
      RunSound(Step(s, ops[0]), ops[1..]);
    }
  }

  lemma {:induction false} OneRegionIsSafe(s: Store, ops: seq<Op>)
    requires Laws(s) && AllAllowed(s, ops) && Sound(s.blocks, s.grant) && Run(s, ops).regions <= 1
    ensures AllSafe(s, ops)
    decreases |ops|
  {
    if ops != [] {
      RegionsGrow(s, ops);
      FirstIsSafe(s, ops[0]);
      StepLaws(s, ops[0]);
      StepSound(s, ops[0]);
      OneRegionIsSafe(Step(s, ops[0]), ops[1..]);
    }
  }

  lemma FirstIsSafe(s: Store, op: Op)
    requires Laws(s) && s.regions <= 1
    ensures Safe(s, op)
  {
    if op.Free? {
      var i := Owner(s.blocks, op.ptr);
      if i < |s.blocks| && !s.blocks[i].free {
        FreedInOrder(s.blocks, i);
      }
    }
  }

  /** A heap that grew at most once: in every run the laws hold and the blocks tile the region in list order. */
  lemma GrownOnce(bits: seq<bool>, ops: seq<Op>)
    requires BitsOk(bits) && AllAllowed(Start(bits), ops)
    requires Run(Start(bits), ops).regions <= 1
    ensures LawfulThroughout(Start(bits), ops)
    ensures var s := Run(Start(bits), ops);
            Laws(s) && InOrder(s.blocks) && Sound(s.blocks, s.grant)
  {
    OneRegionIsSafe(Start(bits), ops);
    RunSound(Start(bits), ops);
    RunLaws(Start(bits), ops);
  }

  // ----- What clients see -----

  lemma LiveConcat(a: seq<Block>, b: seq<Block>)
    ensures Live(a + b) == Live(a) + Live(b)
  {
    forall c | c in Live(a) + Live(b)
      ensures c in Live(a + b)
    {
      if c in Live(a) {
        var i :| 0 <= i < |a| && !a[i].free && a[i] == c;
        assert (a + b)[i] == c;
      } else {
        var i :| 0 <= i < |b| && !b[i].free && b[i] == c;
        assert (a + b)[|a| + i] == c;
      }
    }
  }

  lemma LiveMiddle(pre: seq<Block>, mid: seq<Block>, post: seq<Block>)
    ensures Live(pre + mid + post) == Live(pre + post) + Live(mid)
  {
    LiveConcat(pre + mid, post);
    LiveConcat(pre, mid);
    LiveConcat(pre, post);
  }

  /** The block kmalloc hands out, when it hands one out. */
  ghost function Handed(s: Store, size: nat): Block
    requires MallocResult(s, size) != 0
  {
    var n := Round(size);
    var i := FirstFit(s.blocks, n);
    if i < |s.blocks| then Carve(s.blocks[i], n)[0]
    else Region(s.bits, Pages(n))
  }

  lemma CarveLive(b: Block, n: nat)
    requires Fits(b, n)
    ensures Live([b]) == {} && Live(Carve(b, n)) == {Carve(b, n)[0]}
  {
    assert Carve(b, n)[0] in Live(Carve(b, n));
  }

  lemma TakeLive(bs: seq<Block>, i: nat, n: nat)
    requires i < |bs| && Fits(bs[i], n) && Apart(bs)
    ensures Live(Take(bs, i, n)) == Live(bs) + {Carve(bs[i], n)[0]}
    ensures forall b :: b in Live(bs) ==> Disjoint(b, Carve(bs[i], n)[0])
  {
    var pre, b, post := bs[..i], bs[i], bs[i + 1..];
    assert bs == pre + [b] + post;
    LiveMiddle(pre, [b], post);
    LiveMiddle(pre, Carve(b, n), post);
    CarveLive(b, n);
  }

  lemma PushLive(b: Block, bs: seq<Block>)
    requires !b.free && Apart([b] + bs)
    ensures Live([b] + bs) == Live(bs) + {b}
    ensures forall c :: c in Live(bs) ==> Disjoint(c, b)
  {
    LiveConcat([b], bs);
    assert [b][0] in Live([b]);
    var r := [b] + bs;
    forall j | 0 <= j < |bs|
      ensures Disjoint(b, bs[j])
    {
      assert Disjoint(r[0], r[j + 1]);
    }
  }

  /** kmalloc adds one live block and leaves every other as it was; a failure changes nothing. */
  lemma MallocAddsOne(s: Store, size: nat)
    requires Laws(s) && Sound(s.blocks, s.grant) && size < WORD
    ensures MallocResult(s, size) == 0 ==> AfterMalloc(s, size) == s
    ensures MallocResult(s, size) != 0 ==>
              && Handed(s, size).Payload() == MallocResult(s, size)
              && Live(AfterMalloc(s, size).blocks) == Live(s.blocks) + {Handed(s, size)}
              && forall b :: b in Live(s.blocks) ==> Disjoint(b, Handed(s, size))
  {
    if MallocResult(s, size) != 0 {
      var n := Round(size);
      var i := FirstFit(s.blocks, n);
      if i < |s.blocks| {
        TakeLive(s.blocks, i, n);
      } else {
        GrownSound(s, Pages(n));
        PushLive(Handed(s, size), s.blocks);
      }
    }
  }

  lemma LiveOwner(bs: seq<Block>, i: nat)
    requires i < |bs| && !bs[i].free && Apart(bs)
    ensures (set b | b in Live(bs) && b.Payload() == bs[i].Payload()) == {bs[i]}
    ensures bs[i] !in Live(bs[..i] + bs[i + 1..])
  {
    forall j | 0 <= j < |bs| && j != i
      ensures bs[j].addr != bs[i].addr
    {
      assert Disjoint(bs[if i < j then i else j], bs[if i < j then j else i]);
    }
  }

  lemma LiveAround(bs: seq<Block>, i: nat)
    requires i < |bs| && !bs[i].free
    ensures var lo, hi := First(bs, i), Last(bs, i) + 1;
            Live(bs[..lo] + bs[hi..]) == Live(bs[..i] + bs[i + 1..])
  {
    var lo, hi := First(bs, i), Last(bs, i) + 1;
    LiveConcat(bs[..lo], bs[lo..i]);
    LiveConcat(bs[i + 1..hi], bs[hi..]);
    LiveConcat(bs[..lo], bs[hi..]);
    LiveConcat(bs[..i], bs[i + 1..]);
    assert bs[..lo] + bs[lo..i] == bs[..i];
    assert bs[i + 1..hi] + bs[hi..] == bs[i + 1..];
    assert Live(bs[lo..i]) == {} && Live(bs[i + 1..hi]) == {};
  }

  /** kfree removes the one live block it was given and leaves every other as it was. */
  lemma FreeRemovesOne(s: Store, ptr: nat)
    requires Laws(s) && Apart(s.blocks)
    ensures Live(AfterFree(s, ptr).blocks) == Live(s.blocks) - set b | b in Live(s.blocks) && b.Payload() == ptr
  {
    var bs := s.blocks;
    var i := Owner(bs, ptr);
    if i < |bs| && !bs[i].free {
      var lo, hi := First(bs, i), Last(bs, i) + 1;
      var f := Fused(bs[lo..hi]);
      FreedIs(bs, i);
      LiveMiddle(bs[..lo], [f], bs[hi..]);
      assert Live([f]) == {};
      assert bs == bs[..i] + [bs[i]] + bs[i + 1..];
      LiveMiddle(bs[..i], [bs[i]], bs[i + 1..]);
      assert Live([bs[i]]) == {bs[i]} by {
        assert [bs[i]][0] in Live([bs[i]]);
      }
      LiveAround(bs, i);
      LiveOwner(bs, i);
    } else {
      NoLiveOwner(bs, ptr);
    }
  }

  lemma NoLiveOwner(bs: seq<Block>, ptr: nat)
    requires Apart(bs)
    requires Owner(bs, ptr) < |bs| ==> bs[Owner(bs, ptr)].free
    ensures forall b :: b in Live(bs) ==> b.Payload() != ptr
  {
    var i := Owner(bs, ptr);
    if i < |bs| {
      forall j | 0 <= j < |bs| && !bs[j].free
        ensures bs[j].Payload() != ptr
      {
        assert Disjoint(bs[if i < j then i else j], bs[if i < j then j else i]);
      }
    }
  }

  /** A granted request is met unless its size wraps when the header is added to it. */
  lemma RequestMet(s: Store, size: nat)
    requires Shape(s) && size < WORD && MallocResult(s, size) != 0
    ensures Handed(s, size).size >= size <==> size <= WORD - HEADER
  {
    var n := Round(size);
    var i := FirstFit(s.blocks, n);
    UsedBound(s.bits, s.grant);
    if i < |s.blocks| {
      SizeBelowSum(s.blocks, i);
    }
  }

  /** A request of almost 2^64 bytes, granted with one page. */
  lemma RequestNotMet()
    ensures var s, size := Start([true, false]), WORD - 32;
            MallocResult(s, size) == PAGE + HEADER && Handed(s, size).size == 4048 < size
  {
    var s, size := Start([true, false]), WORD - 32;
    SinglePageRun(s.bits);
    assert FirstFree(s.bits, 1) == 1;
    assert Round(size) == size && Pages(size) == 1;
  }

  // ----- Two regions are enough to lose soundness -----

  /** Pages 1, 2 and 3 are free; three requests that fill a page each grow the heap three times. */
  function ThreePages(): Store {
    Start([true, false, false, false])
  }

  function OutOfOrder(): seq<Op> {
    [Malloc(4048), Malloc(4048), Malloc(4048), Free(4096 + HEADER), Free(8192 + HEADER)]
  }

  lemma OnePage(s: Store, f: nat)
    requires forall i :: 0 <= i < |s.blocks| ==> !s.blocks[i].free
    requires f < |s.bits| && !s.bits[f] && forall i :: 0 <= i < f ==> s.bits[i]
    ensures AfterMalloc(s, 4048) ==
            Store([Block(f * PAGE, 4048, false)] + s.blocks, s.bits[f := true], s.grant + {f}, s.regions + 1)
  {
    SinglePageRun(s.bits);
    assert Interval(f, 1) == {f};
  }

  lemma ThreeGrowths()
    ensures Run(ThreePages(), OutOfOrder()[..3]) ==
            Store([Block(12288, 4048, false), Block(8192, 4048, false), Block(4096, 4048, false)],
                  [true, true, true, true], {1, 2, 3}, 3)
  {
    var s := ThreePages();
    OnePage(s, 1);
    var s1 := AfterMalloc(s, 4048);
    assert s1.bits == [true, true, false, false];
    OnePage(s1, 2);
    var s2 := AfterMalloc(s1, 4048);
    assert s2.bits == [true, true, true, false];
    OnePage(s2, 3);
    var m := OutOfOrder()[..3];
    assert m == [Malloc(4048), Malloc(4048), Malloc(4048)];
    assert m[1..] == [Malloc(4048), Malloc(4048)] && m[1..][1..] == [Malloc(4048)];
  }

  lemma {:induction false} RunSplit(s: Store, a: seq<Op>, b: seq<Op>)
    ensures Run(s, a + b) == Run(Run(s, a), b)
    decreases |a|
  {
    if a == [] {
      assert a + b == b;
    } else {
      assert (a + b)[1..] == a[1..] + b;
      RunSplit(Step(s, a[0]), a[1..], b);
    }
  }

  lemma FreeThird(s: Store, a: Block, b: Block, c: Block)
    requires s.blocks == [a, b, c] && !a.free && !b.free && !c.free
    requires a.addr > b.addr > c.addr
    ensures AfterFree(s, c.Payload()).blocks == [a, b, Block(c.addr, c.size, true)]
  {
    assert Owner(s.blocks, c.Payload(), 2) == 2;
    assert Owner(s.blocks, c.Payload()) == 2;
    CoalesceFixed(Release(s.blocks, 2));
  }

  lemma FreeSecond(s: Store, a: Block, b: Block, c: Block)
    requires s.blocks == [a, b, c] && !a.free && !b.free && c.free
    requires a.addr > b.addr > c.addr
    ensures AfterFree(s, b.Payload()).blocks == [a, Block(b.addr, b.size + HEADER + c.size, true)]
  {
    assert Owner(s.blocks, b.Payload(), 1) == 1;
    assert Owner(s.blocks, b.Payload()) == 1;
    var r := Block(b.addr, b.size, true);
    assert Release(s.blocks, 1) == [a] + ([r, c] + []);
    CoalesceCons(a, [r, c] + []);
    FuseFront([r, c], []);
    SumFew([r, c]);
  }

  /** Freeing the two lower pages, lowest first, merges them the wrong way round. */
  lemma MergedBackwards()
    ensures Run(ThreePages(), OutOfOrder()) ==
            Store([Block(12288, 4048, false), Block(8192, 8144, true)], [true, true, true, true], {1, 2, 3}, 3)
  {
    var ops := OutOfOrder();
    var frees := [Free(4096 + HEADER), Free(8192 + HEADER)];
    ThreeGrowths();
    assert ops == ops[..3] + frees;
    RunSplit(ThreePages(), ops[..3], frees);
    var s := Run(ThreePages(), ops[..3]);
    var a, b, c := s.blocks[0], s.blocks[1], s.blocks[2];
    FreeThird(s, a, b, c);
    FreeSecond(AfterFree(s, c.Payload()), a, b, Block(c.addr, c.size, true));
    assert frees[1..] == [frees[1]];
  }

  lemma Overlaid(s: Store, c: Block, b: Block)
    requires s.blocks == [c, b] && !c.free && b.free && b.size >= 4048 + HEADER + MIN_SPLIT
    requires c.addr == b.addr + PAGE
    ensures !Apart(s.blocks)
    ensures AfterMalloc(s, 4048).blocks ==
            [c, Block(b.addr, 4048, false), Block(c.addr, b.size - PAGE, true)]
  {
    assert !Disjoint(s.blocks[0], s.blocks[1]);
    assert Round(4048) == 4048;
    assert FirstFit(s.blocks, 4048, 1) == 1;
    assert FirstFit(s.blocks, 4048) == 1;
  }

  lemma StillLawful(s: Store, c: Block, b: Block)
    requires s.blocks == [c, b] && c == Block(12288, 4048, false) && b == Block(8192, 8144, true)
    requires s.bits == [true, true, true, true] && s.grant == {1, 2, 3} && s.regions == 3
    ensures Laws(s)
  {
    SumFew(s.blocks);
    assert s.blocks[1..] == [b] && [b][1..] == [];
    assert Near([b], TOP + c.Total());
    assert |s.grant| == 3;
  }

  lemma ListEnds(s: Store, c: Block, b: Block)
    requires Laws(s) && s.blocks == [c, b] && c == Block(12288, 4048, false) && b == Block(8192, 8144, true)
    ensures !HeadersApart(AfterMalloc(s, 4048).blocks) && !Unobstructed(s, Malloc(4048))
  {
    Overlaid(s, c, b);
    var bs := AfterMalloc(s, 4048).blocks;
    assert !HeadersDisjoint(bs[0], bs[2]);
    StepLaws(s, Malloc(4048));
  }

  /** The same-sized request after that writes a free header over the live third page, and the laws end. */
  lemma RegionsCollide()
    ensures var s := Run(ThreePages(), OutOfOrder());
            && Laws(s) && !Sound(s.blocks, s.grant) && !Unobstructed(s, Malloc(4048))
            && var bs := AfterMalloc(s, 4048).blocks;
            && !HeadersApart(bs)
            && |bs| == 3 && bs[0] in Live(s.blocks) && bs[2].free && bs[2].addr == bs[0].addr
  {
    MergedBackwards();
    var s := Run(ThreePages(), OutOfOrder());
    Collided(s, s.blocks[0], s.blocks[1]);
  }

  lemma Collided(s: Store, c: Block, b: Block)
    requires s.blocks == [c, b] && c == Block(12288, 4048, false) && b == Block(8192, 8144, true)
    requires s.bits == [true, true, true, true] && s.grant == {1, 2, 3} && s.regions == 3
    ensures Laws(s) && !Sound(s.blocks, s.grant) && !Unobstructed(s, Malloc(4048))
    ensures var bs := AfterMalloc(s, 4048).blocks;
            && !HeadersApart(bs)
            && |bs| == 3 && bs[0] in Live(s.blocks) && bs[2].free && bs[2].addr == bs[0].addr
  {
    StillLawful(s, c, b);
    Overlaid(s, c, b);
    ListEnds(s, c, b);
  }
}

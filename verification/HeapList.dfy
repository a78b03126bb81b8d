/**
 * The heap as the code keeps it: headers stored in the memory they manage, linked both
 * ways through `next` and `prev` (kernel/kmalloc.c). Every operation is proved to do to
 * the linked list what `HeapRuns` says it does to the list of blocks, for kmalloc exactly
 * when the header it writes keeps clear of the others.
 */
module HeapList {
  import opened Heap
  import opened HeapRuns
  import opened HeapSizes
  import PageBits
  import Pmm

  const MAGIC: int := 0xDEAD_BEEF_CAFE_0000

  /** Eight-byte words by address. */
  type Memory = imap<int, int>

  ghost predicate Total(m: Memory) {
    forall a: int :: a in m
  }

  // Offsets of the header's fields.
  const SIZE: int := 8
  const FREE: int := 16
  const NEXT: int := 24
  const PREV: int := 32

  function Flag(free: bool): int {
    if free then 1 else 0
  }

  ghost predicate HeaderAt(m: Memory, b: Block, next: int, prev: int)
    requires Total(m)
  {
    && m[b.addr] == MAGIC
    && m[b.addr + SIZE] == b.size
    && m[b.addr + FREE] == Flag(b.free)
    && m[b.addr + NEXT] == next
    && m[b.addr + PREV] == prev
  }

  function AddrAt(bs: seq<Block>, i: int): int {
    if 0 <= i < |bs| then bs[i].addr else 0
  }

  ghost predicate Linked(m: Memory, bs: seq<Block>, i: int)
    requires Total(m) && 0 <= i < |bs|
  {
    HeaderAt(m, bs[i], AddrAt(bs, i + 1), AddrAt(bs, i - 1))
  }

  /** The headers in memory spell out `bs`: `next` and `prev` are each other's inverse. */
  ghost predicate Chain(m: Memory, bs: seq<Block>)
    requires Total(m)
  {
    forall i :: 0 <= i < |bs| ==> Linked(m, bs, i)
  }

  /** The words of live payloads are as they were. */
  ghost predicate PayloadsKept(m: Memory, m': Memory, bs: seq<Block>)
    requires Total(m) && Total(m')
  {
    forall i, x :: 0 <= i < |bs| && !bs[i].free && bs[i].Payload() <= x < bs[i].End() ==> m'[x] == m[x]
  }

  // ----- Memory after each list surgery -----

  ghost predicate SameOutside(m: Memory, m': Memory, lo: int, hi: int)
    requires Total(m) && Total(m')
  {
    forall x :: lo <= x < hi || m'[x] == m[x]
  }

  function WriteHeader(m: Memory, a: int, size: int, free: bool, next: int, prev: int): Memory {
    m[a := MAGIC][a + SIZE := size][a + FREE := Flag(free)][a + NEXT := next][a + PREV := prev]
  }

  function WriteBack(m: Memory, next: int, prev: int): Memory {
    if next != 0 then m[next + PREV := prev] else m
  }

  /** Memory after the block at `cur` gives up its rest: both of its neighbours' links and its own fields. */
  function SplitTail(m: Memory, cur: int, n: int, next: int): Memory {
    var split := cur + HEADER + n;
    WriteBack(m, next, split)[cur + NEXT := split][cur + SIZE := n][cur + FREE := Flag(false)]
  }

  lemma WriteHeaderEffect(m: Memory, m': Memory, b: Block, next: int, prev: int)
    requires Total(m) && m' == WriteHeader(m, b.addr, b.size, b.free, next, prev)
    ensures Total(m') && HeaderAt(m', b, next, prev) && SameOutside(m, m', b.addr, b.addr + HEADER)
  {
  }

  /** Outside the two headers and the back link of the next block, nothing changes. */
  ghost predicate SplitOnly(m: Memory, m': Memory, cur: int, split: int, next: int)
    requires Total(m) && Total(m')
  {
    forall x :: m'[x] == m[x] || cur <= x < cur + HEADER || split <= x < split + HEADER
                || (next != 0 && x == next + PREV)
  }

  /** The block has become two, and the next block points back at the second. */
  ghost predicate IsSplit(m: Memory, m': Memory, b: Block, n: nat, next: int, prev: int)
    requires Total(m) && b.free && b.size >= n + HEADER + MIN_SPLIT
  {
    && Total(m')
    && HeaderAt(m', Carve(b, n)[0], b.addr + HEADER + n, prev)
    && HeaderAt(m', Carve(b, n)[1], next, b.addr)
    && (next != 0 ==> m'[next + PREV] == b.addr + HEADER + n)
    && SplitOnly(m, m', b.addr, b.addr + HEADER + n, next)
  }

  lemma SplitEffect(m: Memory, m1: Memory, m': Memory, b: Block, n: nat, next: int, prev: int)
    requires Total(m) && HeaderAt(m, b, next, prev)
    requires b.addr > 0 && b.free && b.size >= n + HEADER + MIN_SPLIT
    requires next != 0 ==> next + HEADER <= b.addr || b.addr + HEADER <= next
    requires next != 0 ==> next + HEADER <= b.addr + HEADER + n || b.addr + HEADER + n + HEADER <= next
    requires Total(m1) && HeaderAt(m1, Carve(b, n)[1], next, b.addr)
    requires SameOutside(m, m1, b.addr + HEADER + n, b.addr + HEADER + n + HEADER)
    requires m' == SplitTail(m1, b.addr, n, next)
    ensures IsSplit(m, m', b, n, next, prev)
  {
  }

  /** A header away from every changed word is as it was. */
  lemma Away(m: Memory, m': Memory, b: Block, next: int, prev: int)
    requires Total(m) && Total(m') && HeaderAt(m, b, next, prev)
    requires forall x :: b.addr <= x < b.addr + HEADER ==> m'[x] == m[x]
    ensures HeaderAt(m', b, next, prev)
  {
  }

  /** The header of the next block differs in its back link alone. */
  lemma BackLink(m: Memory, m': Memory, b: Block, next: int, prev: int)
    requires Total(m) && Total(m') && HeaderAt(m, b, next, prev)
    requires forall x :: b.addr <= x < b.addr + HEADER && x != b.addr + PREV ==> m'[x] == m[x]
    ensures HeaderAt(m', b, next, m'[b.addr + PREV])
  {
  }

  lemma DisjointAt(bs: seq<Block>, i: nat, j: nat)
    requires Apart(bs) && i < |bs| && j < |bs| && i != j
    ensures Disjoint(bs[i], bs[j])
  {
    if j < i {
      assert Disjoint(bs[j], bs[i]);
    }
  }

  /** Where the new header keeps clear of the others, a split turns the list into the list that was meant. */
  lemma SplitChain(m: Memory, m1: Memory, m': Memory, bs: seq<Block>, i: nat, n: nat)
    requires Total(m) && Chain(m, bs) && Aligned(bs)
    requires i < |bs| && Fits(bs[i], n) && bs[i].size >= n + HEADER + MIN_SPLIT
    requires HeadersApart(Take(bs, i, n))
    requires Total(m1) && HeaderAt(m1, Carve(bs[i], n)[1], AddrAt(bs, i + 1), bs[i].addr)
    requires SameOutside(m, m1, bs[i].addr + HEADER + n, bs[i].addr + HEADER + n + HEADER)
    requires m' == SplitTail(m1, bs[i].addr, n, AddrAt(bs, i + 1))
    ensures Total(m') && Chain(m', Take(bs, i, n))
    ensures Apart(bs) ==> PayloadsKept(m, m', bs)
  {
    var t := Take(bs, i, n);
    assert AlignedBlock(bs[i]);
    assert Linked(m, bs, i);
    if i + 1 < |bs| {
      assert t[i + 2] == bs[i + 1];
      HeadersAt(t, i, i + 2);
      HeadersAt(t, i + 1, i + 2);
    }
    SplitEffect(m, m1, m', bs[i], n, AddrAt(bs, i + 1), AddrAt(bs, i - 1));
    SplitLinked(m, m', bs, i, n);
    if Apart(bs) {
      SplitPayloads(m, m', bs, i, n);
    }
  }

  lemma SplitLinked(m: Memory, m': Memory, bs: seq<Block>, i: nat, n: nat)
    requires Total(m) && Chain(m, bs) && Aligned(bs)
    requires i < |bs| && Fits(bs[i], n) && bs[i].size >= n + HEADER + MIN_SPLIT
    requires HeadersApart(Take(bs, i, n))
    requires IsSplit(m, m', bs[i], n, AddrAt(bs, i + 1), AddrAt(bs, i - 1))
    ensures Total(m') && Chain(m', Take(bs, i, n))
  {
    var t := Take(bs, i, n);
    assert i + 1 < |bs| ==> AlignedBlock(bs[i + 1]);
    forall k | 0 <= k < |t|
      ensures Linked(m', t, k)
    {
      if k != i && k != i + 1 {
        SplitOther(m, m', bs, i, n, if k < i then k else k - 1);
      }
    }
  }

  lemma SplitPayloads(m: Memory, m': Memory, bs: seq<Block>, i: nat, n: nat)
    requires Total(m) && Total(m') && Apart(bs)
    requires i < |bs| && Fits(bs[i], n) && bs[i].size >= n + HEADER + MIN_SPLIT
    requires SplitOnly(m, m', bs[i].addr, bs[i].addr + HEADER + n, AddrAt(bs, i + 1))
    ensures PayloadsKept(m, m', bs)
  {
    forall j, x | 0 <= j < |bs| && !bs[j].free && bs[j].Payload() <= x < bs[j].End()
      ensures m'[x] == m[x]
    {
      DisjointAt(bs, i, j);
      if i + 1 < |bs| && i + 1 != j {
        DisjointAt(bs, i + 1, j);
      }
    }
  }

  lemma SplitOther(m: Memory, m': Memory, bs: seq<Block>, i: nat, n: nat, j: nat)
    requires Total(m) && Total(m') && Chain(m, bs) && Aligned(bs)
    requires i < |bs| && j < |bs| && i != j && Fits(bs[i], n) && bs[i].size >= n + HEADER + MIN_SPLIT
    requires HeadersApart(Take(bs, i, n))
    requires SplitOnly(m, m', bs[i].addr, bs[i].addr + HEADER + n, AddrAt(bs, i + 1))
    requires i + 1 < |bs| ==> m'[bs[i + 1].addr + PREV] == bs[i].addr + HEADER + n
    ensures var k := if j < i then j else j + 1;
            var t := Take(bs, i, n);
            k < |t| && t[k] == bs[j] && Linked(m', t, k)
  {
    var t := Take(bs, i, n);
    var c, k := bs[j], if j < i then j else j + 1;
    assert t[k] == c;
    HeadersAt(t, i, k);
    HeadersAt(t, i + 1, k);
    assert Linked(m, bs, j);
    if j == i + 1 {
      BackLink(m, m', c, AddrAt(bs, j + 1), AddrAt(bs, j - 1));
    } else {
      if i + 1 < |bs| {
        assert t[i + 2] == bs[i + 1];
        HeadersAt(t, i + 2, k);
      }
      Away(m, m', c, AddrAt(bs, j + 1), AddrAt(bs, j - 1));
    }
  }

  /** Flipping the free flag of one block. */
  lemma FlagChain(m: Memory, m': Memory, bs: seq<Block>, i: nat, free: bool)
    requires Total(m) && Chain(m, bs) && HeadersApart(bs) && i < |bs|
    requires m' == m[bs[i].addr + FREE := Flag(free)]
    ensures Total(m') && Chain(m', bs[i := Block(bs[i].addr, bs[i].size, free)])
  {
    var t := bs[i := Block(bs[i].addr, bs[i].size, free)];
    forall k | 0 <= k < |t|
      ensures Linked(m', t, k)
    {
      assert Linked(m, bs, k);
      if k != i {
        HeadersAt(bs, i, k);
        Away(m, m', bs[k], AddrAt(bs, k + 1), AddrAt(bs, k - 1));
      }
    }
  }

  /** Pushing a new block at the head. */
  lemma PushChain(m: Memory, m1: Memory, m': Memory, b: Block, bs: seq<Block>)
    requires Total(m) && Chain(m, bs) && Aligned(bs) && HeadersApart([b] + bs)
    requires Total(m1) && HeaderAt(m1, b, AddrAt(bs, 0), 0)
    requires SameOutside(m, m1, b.addr, b.addr + HEADER)
    requires m' == WriteBack(m1, AddrAt(bs, 0), b.addr)
    ensures Total(m') && Chain(m', [b] + bs)
  {
    var t := [b] + bs;
    assert bs != [] ==> AlignedBlock(bs[0]);
    forall k | 0 <= k < |t|
      ensures Linked(m', t, k)
    {
      if k > 0 {
        assert Linked(m, bs, k - 1);
        assert HeadersDisjoint(t[0], t[k]);
        if k == 1 {
          BackLink(m, m', bs[0], AddrAt(bs, 1), AddrAt(bs, -1));
        } else {
          assert HeadersDisjoint(t[1], t[k]);
          Away(m, m', bs[k - 1], AddrAt(bs, k), AddrAt(bs, k - 2));
        }
      } else if bs != [] {
        assert HeadersDisjoint(t[0], t[1]);
      }
    }
  }

  lemma PushPayloads(m: Memory, m1: Memory, m': Memory, b: Block, bs: seq<Block>)
    requires Total(m) && Total(m1) && Apart([b] + bs)
    requires SameOutside(m, m1, b.addr, b.addr + HEADER)
    requires m' == WriteBack(m1, AddrAt(bs, 0), b.addr)
    ensures Total(m') && PayloadsKept(m, m', bs)
  {
    var t := [b] + bs;
    forall j, x | 0 <= j < |bs| && !bs[j].free && bs[j].Payload() <= x < bs[j].End()
      ensures m'[x] == m[x]
    {
      assert Disjoint(t[0], t[j + 1]);
      if j > 0 {
        assert Disjoint(t[1], t[j + 1]);
      }
    }
  }

  // ----- A list in memory has its headers apart -----

  /** Equal addresses would have equal successors, down to the end of the list. */
  lemma {:induction false} NoRepeats(m: Memory, bs: seq<Block>, i: nat, j: nat)
    requires Total(m) && Chain(m, bs) && Aligned(bs) && i < j < |bs|
    ensures bs[i].addr != bs[j].addr
    decreases |bs| - j
  {
    if bs[i].addr == bs[j].addr {
      assert Linked(m, bs, i) && Linked(m, bs, j);
      assert AddrAt(bs, i + 1) == AddrAt(bs, j + 1);
      assert AlignedBlock(bs[i + 1]);
      if j + 1 < |bs| {
        NoRepeats(m, bs, i + 1, j + 1);
      }
    }
  }

  /** Headers 16 or 32 bytes apart would need the magic word in a flag or in a link. */
  lemma ChainApart(m: Memory, bs: seq<Block>)
    requires Total(m) && Chain(m, bs) && Aligned(bs)
    requires forall i :: 0 <= i < |bs| ==> bs[i].addr < MAGIC
    ensures HeadersApart(bs)
  {
    forall i, j | 0 <= i < j < |bs|
      ensures HeadersDisjoint(bs[i], bs[j])
    {
      NoRepeats(m, bs, i, j);
      assert Linked(m, bs, i) && Linked(m, bs, j);
      assert AlignedBlock(bs[i]) && AlignedBlock(bs[j]);
    }
  }

  /** For a list of the right shape, being spelled out in memory implies that its headers are apart. */
  lemma ShapeApart(m: Memory, s: Store)
    requires Total(m) && Shape(s) && Chain(m, s.blocks)
    ensures HeadersApart(s.blocks)
  {
    UsedBound(s.bits, s.grant);
    forall i | 0 <= i < |s.blocks|
      ensures s.blocks[i].addr < MAGIC
    {
      NearBound(s.blocks, TOP, i);
    }
    ChainApart(m, s.blocks);
  }

  /** The collision in memory: the split's own writes cut the list off behind the live third page. */
  lemma SplitBreaksList(m: Memory, m': Memory)
    requires Total(m) && Chain(m, [Block(12288, 4048, false), Block(8192, 8144, true)])
    requires m' == SplitTail(WriteHeader(m, 12288, 4048, true, 0, 8192), 8192, 4048, 0)
    ensures Total(m') && m'[12288] == MAGIC && m'[12288 + NEXT] == 0 && m'[12288 + FREE] == Flag(true)
    ensures var bs := [Block(12288, 4048, false), Block(8192, 8144, true)];
            Fits(bs[1], 4048) && !Chain(m', Take(bs, 1, 4048))
  {
    var bs := [Block(12288, 4048, false), Block(8192, 8144, true)];
    var t := Take(bs, 1, 4048);
    assert t[0] == bs[0];
    assert !Linked(m', t, 0);
  }

  function MergeAt(bs: seq<Block>, k: nat): seq<Block>
    requires k + 1 < |bs|
  {
    bs[..k] + [Merge(bs[k], bs[k + 1])] + bs[k + 2..]
  }

  /** Absorbing the next block: its header stays in memory, out of the list. */
  lemma MergeChain(m: Memory, m': Memory, bs: seq<Block>, k: nat)
    requires Total(m) && Chain(m, bs) && Aligned(bs) && HeadersApart(bs) && k + 1 < |bs|
    requires var m1 := m[bs[k].addr + SIZE := bs[k].size + HEADER + bs[k + 1].size];
             m' == WriteBack(m1[bs[k].addr + NEXT := AddrAt(bs, k + 2)], AddrAt(bs, k + 2), bs[k].addr)
    ensures Total(m') && Chain(m', MergeAt(bs, k))
  {
    var t := MergeAt(bs, k);
    assert k + 2 < |bs| ==> AlignedBlock(bs[k + 2]) && HeadersDisjoint(bs[k], bs[k + 2]);
    forall j | 0 <= j < |t|
      ensures Linked(m', t, j)
    {
      if j == k {
        assert Linked(m, bs, k);
      } else {
        MergeOther(m, m', bs, k, if j < k then j else j + 1);
      }
    }
  }

  lemma MergeOther(m: Memory, m': Memory, bs: seq<Block>, k: nat, j: nat)
    requires Total(m) && Total(m') && Chain(m, bs) && HeadersApart(bs) && k + 1 < |bs|
    requires j < |bs| && j != k && j != k + 1
    requires SplitOnly(m, m', bs[k].addr, bs[k].addr, AddrAt(bs, k + 2))
    requires k + 2 < |bs| ==> m'[bs[k + 2].addr + PREV] == bs[k].addr
    ensures var i := if j < k then j else j - 1;
            i < |MergeAt(bs, k)| && Linked(m', MergeAt(bs, k), i)
  {
    var t := MergeAt(bs, k);
    assert Linked(m, bs, j);
    HeadersAt(bs, k, j);
    assert t[if j < k then j else j - 1] == bs[j];
    if j == k + 2 {
      BackLink(m, m', bs[j], AddrAt(bs, j + 1), AddrAt(bs, j - 1));
    } else {
      if k + 2 < |bs| {
        HeadersAt(bs, k + 2, j);
      }
      Away(m, m', bs[j], AddrAt(bs, j + 1), AddrAt(bs, j - 1));
    }
  }

  lemma MergeAtKeeps(bs: seq<Block>, k: nat)
    requires k + 1 < |bs| && HeadersApart(bs) && Aligned(bs)
    ensures HeadersApart(MergeAt(bs, k)) && Aligned(MergeAt(bs, k))
  {
    var t := MergeAt(bs, k);
    assert AlignedBlock(bs[k]) && AlignedBlock(bs[k + 1]);
    forall i, j | 0 <= i < j < |t|
      ensures HeadersDisjoint(t[i], t[j])
    {
      assert HeadersDisjoint(bs[if i <= k then i else i + 1], bs[if j <= k then j else j + 1]);
    }
    forall i | 0 <= i < |t|
      ensures AlignedBlock(t[i])
    {
      assert i != k ==> AlignedBlock(bs[if i <= k then i else i + 1]);
    }
  }

  /** Where the merging pass stands: what is behind the cursor is final. */
  ghost predicate Midway(start: seq<Block>, bs: seq<Block>, k: nat) {
    k <= |bs| && bs[..k] + Coalesce(bs[k..]) == Coalesce(start)
  }

  lemma MergeStep(start: seq<Block>, bs: seq<Block>, k: nat)
    requires Midway(start, bs, k) && k + 1 < |bs| && bs[k].free && bs[k + 1].free
    ensures Midway(start, MergeAt(bs, k), k)
  {
    var t := MergeAt(bs, k);
    var rest := bs[k..];
    assert t[..k] == bs[..k];
    assert t[k..] == [Merge(rest[0], rest[1])] + rest[2..];
  }

  lemma SkipStep(start: seq<Block>, bs: seq<Block>, k: nat)
    requires Midway(start, bs, k) && k < |bs| && !(bs[k].free && k + 1 < |bs| && bs[k + 1].free)
    ensures Midway(start, bs, k + 1)
  {
    assert bs[k..] == [bs[k]] + bs[k + 1..];
    CoalesceCons(bs[k], bs[k + 1..]);
    assert bs[..k] + ([bs[k]] + Coalesce(bs[k + 1..])) == bs[..k + 1] + Coalesce(bs[k + 1..]);
  }

  /** Every header the pass may still write belongs to a block of the list it started from. */
  ghost predicate Among(bs: seq<Block>, start: seq<Block>) {
    forall i :: 0 <= i < |bs| ==> exists j :: 0 <= j < |start| && start[j].addr == bs[i].addr
  }

  lemma MergeAmong(bs: seq<Block>, start: seq<Block>, k: nat)
    requires Among(bs, start) && k + 1 < |bs|
    ensures Among(MergeAt(bs, k), start)
  {
    var t := MergeAt(bs, k);
    forall i | 0 <= i < |t|
      ensures exists j :: 0 <= j < |start| && start[j].addr == t[i].addr
    {
      assert t[i].addr == bs[if i <= k then i else i + 1].addr;
    }
  }

  /** A write inside some block's header reaches no payload of a list whose blocks lie apart. */
  lemma HeaderWrite(m: Memory, m': Memory, start: seq<Block>, a: int, o: int, v: int)
    requires Total(m) && m' == m[a + o := v] && Apart(start) && 0 <= o < HEADER
    requires exists j :: 0 <= j < |start| && start[j].addr == a
    ensures PayloadsKept(m, m', start)
  {
    var j :| 0 <= j < |start| && start[j].addr == a;
    forall i, x | 0 <= i < |start| && !start[i].free && start[i].Payload() <= x < start[i].End()
      ensures m'[x] == m[x]
    {
      if i != j {
        DisjointAt(start, j, i);
      }
    }
  }

  class KernelHeap {
    const pmm: Pmm.Pmm
    var mem: Memory
    var head: int
    var used: nat
    var total: nat
    ghost var blocks: seq<Block>
    ghost var grant: set<nat>
    ghost var regions: nat

    ghost function State(): Store
      reads this, pmm
    {
      Store(blocks, pmm.Bits, grant, regions)
    }

    ghost predicate Valid()
      reads this, pmm, pmm.bitmap
    {
      && pmm.Valid()
      && Laws(State())
      && Total(mem)
      && Chain(mem, blocks)
      && head == AddrAt(blocks, 0)
      && total == Sum(blocks)
    }

    constructor (pmm: Pmm.Pmm, mem: Memory)
      requires pmm.Valid() && BitsOk(pmm.Bits) && Total(mem)
      ensures this.pmm == pmm && this.mem == mem
      ensures Valid() && State() == Start(pmm.Bits)
    {
      this.pmm, this.mem := pmm, mem;
      head, used, total := 0, 0, 0;
      blocks, grant, regions := [], {}, 0;
    }

    /** A client writes one word of memory it was given. */
    method Write(x: int, v: int, ghost i: nat)
      requires Valid() && Apart(blocks)
      requires i < |blocks| && !blocks[i].free && blocks[i].Payload() <= x < blocks[i].End()
      modifies this`mem
      ensures Valid() && mem == old(mem)[x := v]
    {
      mem := mem[x := v];
      forall k | 0 <= k < |blocks|
        ensures Linked(mem, blocks, k)
      {
        assert Linked(old(mem), blocks, k);
        if k != i {
          DisjointAt(blocks, i, k);
        }
        Away(old(mem), mem, blocks[k], AddrAt(blocks, k + 1), AddrAt(blocks, k - 1));
      }
    }

    /** First block that fits, from the head; `cur == 0` when there is none. */
    method Search(n: nat) returns (cur: int, ghost i: nat)
      requires Valid()
      ensures i == FirstFit(blocks, n) && cur == AddrAt(blocks, FirstFit(blocks, n))
    {
      cur, i := head, 0;
      while cur != 0 && mem[cur] == MAGIC && !(mem[cur + FREE] != 0 && mem[cur + SIZE] >= n)
        invariant i <= |blocks| && cur == AddrAt(blocks, i)
        invariant FirstFit(blocks, n) == FirstFit(blocks, n, i)
        decreases |blocks| - i
      {
        assert Linked(mem, blocks, i);
        cur, i := mem[cur + NEXT], i + 1;
      }
      if i < |blocks| {
        assert Linked(mem, blocks, i) && AlignedBlock(blocks[i]);
      }
    }

    method Split(cur: int, n: nat, ghost i: nat)
      requires Valid() && i < |blocks| && cur == blocks[i].addr && Fits(blocks[i], n)
      requires blocks[i].size >= n + HEADER + MIN_SPLIT
      modifies this`mem
      ensures Total(mem)
      ensures HeadersApart(Take(blocks, i, n)) ==> Chain(mem, Take(blocks, i, n))
      ensures Apart(blocks) && HeadersApart(Take(blocks, i, n)) ==> PayloadsKept(old(mem), mem, blocks)
    {
      assert Linked(mem, blocks, i);
      var split := cur + HEADER + n;
      var next := mem[cur + NEXT];
      mem := WriteHeader(mem, split, mem[cur + SIZE] - n - HEADER, true, next, cur);
      ghost var m1 := mem;
      WriteHeaderEffect(old(mem), m1, Carve(blocks[i], n)[1], next, cur);
      mem := SplitTail(mem, cur, n, next);
      if HeadersApart(Take(blocks, i, n)) {
        SplitChain(old(mem), m1, mem, blocks, i, n);
      }
    }

    /** kmalloc, on any heap whose list is in order. The list stays in order, that is, memory spells out
        the list that was meant, exactly when the new header keeps clear of the others. */
    method Malloc(size: nat) returns (ptr: int)
      requires Valid() && size < WORD
      modifies this, pmm`used, pmm`Bits, pmm.bitmap
      ensures State() == AfterMalloc(old(State()), size)
      ensures ptr == MallocResult(old(State()), size)
      ensures 0 < size && size + 15 < 0x1_0000_0000_0000_0000 ==> ServedInBytes(old(State()), size, State(), ptr)
      ensures Total(mem) && (Chain(mem, blocks) <==> Unobstructed(old(State()), Op.Malloc(size)))
      ensures Valid() <==> Unobstructed(old(State()), Op.Malloc(size))
      ensures used == if ptr == 0 then old(used) else (old(used) + Round(size)) % WORD
      ensures Sound(old(blocks), old(grant)) ==> Valid() && PayloadsKept(old(mem), mem, old(blocks))
    {
      hide ServedInBytes;
      if size == 0 {
        return 0;
      }
      if size + 15 < 0x1_0000_0000_0000_0000 { MallocInBytes(State(), size); }
      MallocHeaders(State(), size);
      ghost var t, b := Plan(State(), size);
      ptr := Serve(Round(size), t, b);
    }

    /** kmalloc of a rounded request; `t` is the state that results, `b` the block when the heap grows. */
    method Serve(n: nat, ghost t: Store, ghost b: Block) returns (ptr: int)
      requires Valid() && n % 16 == 0 && Planned(State(), n, t, b)
      modifies this, pmm`used, pmm`Bits, pmm.bitmap
      ensures State() == t && ptr == Granted(old(State()), n, b)
      ensures Total(mem) && (Chain(mem, blocks) <==> HeadersApart(blocks)) && (Valid() <==> HeadersApart(blocks))
      ensures used == if ptr == 0 then old(used) else (old(used) + n) % WORD
      ensures Sound(old(blocks), old(grant)) ==> PayloadsKept(old(mem), mem, old(blocks))
    {
      var cur;
      ghost var i;
      cur, i := Search(n);
      if cur != 0 {
        ptr := TakeBlock(cur, n, i);
      } else {
        ptr := GrowBy(n, Pages(n), b, t);
      }
    }

    /** Splits the block if the rest is worth keeping and marks it allocated. */
    method Cut(cur: int, n: nat, ghost i: nat)
      requires Valid() && i < |blocks| && cur == blocks[i].addr && Fits(blocks[i], n)
      requires blocks[i].size + HEADER + MIN_SPLIT < WORD
      modifies this`mem
      ensures Total(mem)
      ensures HeadersApart(Take(blocks, i, n)) ==> Chain(mem, Take(blocks, i, n))
      ensures Apart(blocks) && HeadersApart(Take(blocks, i, n)) ==> PayloadsKept(old(mem), mem, blocks)
    {
      assert Linked(mem, blocks, i);
      if mem[cur + SIZE] >= (n + HEADER + MIN_SPLIT) % WORD {
        Split(cur, n, i);
      } else {
        mem := mem[cur + FREE := Flag(false)];
        FlagChain(old(mem), mem, blocks, i, false);
        if Apart(blocks) {
          HeaderWrite(old(mem), mem, blocks, cur, FREE, Flag(false));
        }
        assert Take(blocks, i, n) == blocks[i := Block(cur, blocks[i].size, false)];
      }
    }

    method TakeBlock(cur: int, n: nat, ghost i: nat) returns (ptr: int)
      requires Valid() && i < |blocks| && cur == blocks[i].addr && Fits(blocks[i], n)
      requires n % 16 == 0
      modifies this
      ensures State() == old(State()).(blocks := Take(old(blocks), i, n))
      ensures Total(mem) && (Chain(mem, blocks) <==> HeadersApart(blocks)) && (Valid() <==> HeadersApart(blocks))
      ensures ptr == cur + HEADER && used == (old(used) + n) % WORD
      ensures Sound(old(blocks), grant) ==> PayloadsKept(old(mem), mem, old(blocks))
    {
      UsedBound(pmm.Bits, grant);
      SizeBelowSum(blocks, i);
      ghost var t := Take(blocks, i, n);
      ghost var s := State().(blocks := t);
      TakeShape(State(), i, n);
      TakeFacts(blocks, i, n, grant);
      Cut(cur, n, i);
      blocks := t;
      if Chain(mem, t) {
        ShapeApart(mem, s);
      }
      used := (used + n) % WORD;
      ptr := cur + HEADER;
    }

    /** heap_grow's list work: the region becomes one free block at the head. */
    method Push(block: nat, pages: nat, ghost b: Block)
      requires pages > 0 && b == Block(block, pages * PAGE - HEADER, true)
      requires Total(mem) && Chain(mem, blocks) && Aligned(blocks) && head == AddrAt(blocks, 0)
      modifies this`mem, this`head, this`total
      ensures Total(mem) && head == block && total == old(total) + pages * PAGE
      ensures HeadersApart([b] + blocks) ==> Chain(mem, [b] + blocks)
      ensures Apart([b] + blocks) ==> PayloadsKept(old(mem), mem, blocks)
    {
      mem := WriteHeader(mem, block, pages * PAGE - HEADER, true, head, 0);
      ghost var m1 := mem;
      WriteHeaderEffect(old(mem), m1, b, head, 0);
      mem := WriteBack(mem, head, block);
      if HeadersApart([b] + blocks) {
        PushChain(old(mem), m1, mem, b, blocks);
      }
      if Apart([b] + blocks) {
        PushPayloads(old(mem), m1, mem, b, blocks);
      }
      head := block;
      total := total + pages * PAGE;
    }

    /** The heap grows by a region for the request, and the new block `b` is the request's; `g` is the
        state that results. */
    method GrowBy(n: nat, pages: nat, ghost b: Block, ghost g: Store) returns (ptr: int)
      requires Valid()
      requires pages > 0 && PageBits.HasRun(pmm.Bits, pages) ==> IsGrown(State(), pages, b, g)
      modifies this, pmm`used, pmm`Bits, pmm.bitmap
      ensures (ptr != 0) == (pages > 0 && PageBits.HasRun(old(pmm.Bits), pages))
      ensures ptr != 0 ==> State() == g && ptr == b.Payload() && used == (old(used) + n) % WORD
      ensures ptr == 0 ==> State() == old(State()) && used == old(used)
      ensures Total(mem) && (Chain(mem, blocks) <==> HeadersApart(blocks)) && (Valid() <==> HeadersApart(blocks))
      ensures Sound(old(blocks), old(grant)) ==> PayloadsKept(old(mem), mem, old(blocks))
    {
      var block := TakeRegion(pages);
      if block == 0 {
        return 0;
      }
      ptr := Install(block, pages, n, b, g);
    }

    /** Pages for a region from the page manager; 0 when it has no such run. */
    method TakeRegion(pages: nat) returns (block: nat)
      requires pmm.Valid() && Shape(State())
      modifies pmm`used, pmm`Bits, pmm.bitmap
      ensures pmm.Valid()
      ensures (block != 0) == (pages > 0 && PageBits.HasRun(old(pmm.Bits), pages))
      ensures block == 0 ==> pmm.Bits == old(pmm.Bits)
      ensures block != 0 ==>
                && block == PageBits.LowestRun(old(pmm.Bits), pages) * PAGE
                && pmm.Bits == PageBits.Fill(old(pmm.Bits), PageBits.LowestRun(old(pmm.Bits), pages), pages, true)
    {
      if pages > 0 && PageBits.HasRun(pmm.Bits, pages) {
        FreshRun(State(), pages);
      }
      block := pmm.AllocPages(pages);
    }

    /** The new block is free for as long as it takes kmalloc to claim it. */
    method PushUsed(block: nat, pages: nat, ghost b: Block)
      requires pages > 0 && b == Block(block, pages * PAGE - HEADER, false)
      requires Total(mem) && Chain(mem, blocks) && Aligned(blocks) && head == AddrAt(blocks, 0)
      modifies this`mem, this`head, this`total
      ensures Total(mem) && head == block && total == old(total) + pages * PAGE
      ensures HeadersApart([b] + blocks) ==> Chain(mem, [b] + blocks)
      ensures Apart([b] + blocks) ==> PayloadsKept(old(mem), mem, blocks)
    {
      ghost var f := Block(block, pages * PAGE - HEADER, true);
      FlagApart(b, f, blocks);
      Push(block, pages, f);
      ghost var m1 := mem;
      mem := mem[block + FREE := Flag(false)];
      if HeadersApart([b] + blocks) {
        FlagChain(m1, mem, [f] + blocks, 0, false);
        assert ([f] + blocks)[0 := b] == [b] + blocks;
      }
      if Apart([b] + blocks) {
        NewFlag(m1, mem, f, blocks);
      }
    }

    /** Links the region's block in and books it; `g` is the state that results. */
    method Install(block: nat, pages: nat, n: nat, ghost b: Block, ghost g: Store) returns (ptr: int)
      requires pages > 0 && b == Block(block, pages * PAGE - HEADER, false)
      requires g.blocks == [b] + blocks && g.bits == pmm.Bits
      requires Shape(g) && Sum(g.blocks) == Sum(blocks) + pages * PAGE
      requires pmm.Valid() && Aligned(blocks)
      requires Total(mem) && Chain(mem, blocks) && head == AddrAt(blocks, 0) && total == Sum(blocks)
      modifies this
      ensures State() == g && ptr == block + HEADER > 0 && used == (old(used) + n) % WORD
      ensures Total(mem) && (Chain(mem, blocks) <==> HeadersApart(blocks)) && (Valid() <==> HeadersApart(blocks))
      ensures Apart(g.blocks) ==> PayloadsKept(old(mem), mem, old(blocks))
    {
      hide Shape, Near;
      PushUsed(block, pages, b);
      blocks, grant, regions := g.blocks, g.grant, g.regions;
      if Chain(mem, g.blocks) {
        ShapeApart(mem, g);
      }
      used := (used + n) % WORD;
      ptr := block + HEADER;
    }

    /** Absorbs the block after the cursor. */
    method AbsorbNext(cur: int, ghost bs: seq<Block>, ghost k: nat, ghost start: seq<Block>)
      requires Total(mem) && Chain(mem, bs) && Aligned(bs) && HeadersApart(bs)
      requires k + 1 < |bs| && cur == bs[k].addr && Among(bs, start)
      modifies this`mem
      ensures Total(mem) && Chain(mem, MergeAt(bs, k))
      ensures Apart(start) ==> PayloadsKept(old(mem), mem, start)
    {
      assert Linked(mem, bs, k) && Linked(mem, bs, k + 1);
      ghost var m0 := mem;
      var next := mem[cur + NEXT];
      mem := mem[cur + SIZE := mem[cur + SIZE] + HEADER + mem[next + SIZE]];
      ghost var m1 := mem;
      NextKept(bs, k);
      mem := mem[cur + NEXT := mem[next + NEXT]];
      ghost var m2 := mem;
      mem := WriteBack(mem, mem[cur + NEXT], cur);
      MergeChain(m0, mem, bs, k);
      if Apart(start) {
        MergePayloads(m0, m1, m2, mem, bs, k, start, m1[cur + SIZE], m2[cur + NEXT]);
      }
    }

    /** Whether the block under the cursor and the one after it are both free. */
    function MergesHere(cur: int, ghost cs: seq<Block>, ghost k: nat): (r: bool)
      requires Total(mem) && Chain(mem, cs) && Aligned(cs) && k < |cs| && cur == cs[k].addr
      reads this
      ensures r == (k + 1 < |cs| && cs[k].free && cs[k + 1].free)
      ensures mem[cur + NEXT] == AddrAt(cs, k + 1)
      ensures k + 1 < |cs| ==> mem[cur + NEXT] > 0 && mem[mem[cur + NEXT]] == MAGIC
    {
      GenuinePair(mem, cs, k);
      mem[cur + FREE] != 0 && mem[cur + NEXT] != 0 && mem[mem[cur + NEXT] + FREE] != 0
    }

    /** One turn of the merging pass that merges. */
    method Absorb(cur: int, ghost bs: seq<Block>, ghost cs: seq<Block>, ghost k: nat, ghost start: seq<Block>)
      returns (ghost t: seq<Block>)
      requires Total(mem) && Chain(mem, cs) && Aligned(cs) && HeadersApart(cs)
      requires Midway(bs, cs, k) && Among(cs, start)
      requires k + 1 < |cs| && cur == cs[k].addr && cs[k].free && cs[k + 1].free
      modifies this`mem
      ensures Total(mem) && Chain(mem, t) && Aligned(t) && HeadersApart(t)
      ensures Midway(bs, t, k) && Among(t, start)
      ensures |t| == |cs| - 1 && cur == AddrAt(t, k) && cur > 0 && mem[cur] == MAGIC
      ensures Apart(start) ==> PayloadsKept(old(mem), mem, start)
    {
      t := MergeAt(cs, k);
      MergeStep(bs, cs, k);
      MergeAtKeeps(cs, k);
      MergeAmong(cs, start, k);
      AbsorbNext(cur, cs, k, start);
      Genuine(mem, t, k);
    }

    /** The merging pass over the whole list. */
    method MergeAll(ghost bs: seq<Block>, ghost start: seq<Block>)
      requires Total(mem) && Chain(mem, bs) && Aligned(bs) && HeadersApart(bs)
      requires head == AddrAt(bs, 0) && Among(bs, start)
      modifies this`mem
      ensures Total(mem) && Chain(mem, Coalesce(bs)) && HeadersApart(Coalesce(bs))
      ensures Apart(start) ==> PayloadsKept(old(mem), mem, start)
    {
      var cur := head;
      ghost var cs, k := bs, 0;
      assert bs[..0] + Coalesce(bs[0..]) == Coalesce(bs);
      if bs != [] {
        Genuine(mem, bs, 0);
      }
      while cur != 0 && mem[cur] == MAGIC
        invariant Total(mem) && Chain(mem, cs) && Aligned(cs) && HeadersApart(cs)
        invariant Midway(bs, cs, k) && cur == AddrAt(cs, k)
        invariant k < |cs| ==> cur > 0 && mem[cur] == MAGIC
        invariant Among(cs, start)
        invariant Apart(start) ==> PayloadsKept(old(mem), mem, start)
        decreases |cs| - k
      {
        if MergesHere(cur, cs, k) {
          cs := Absorb(cur, bs, cs, k, start);
        } else {
          SkipStep(bs, cs, k);
          cur, k := mem[cur + NEXT], k + 1;
        }
      }
      assert cs[..k] + Coalesce(cs[k..]) == cs;
    }

    /** The pointer does not have a forged header of a live block in front of it. */
    ghost predicate MayFree(ptr: int)
      requires Total(mem)
      reads this
    {
      mem[ptr - HEADER] == MAGIC && mem[ptr - HEADER + FREE] == 0 ==> ptr >= 0 && Owner(blocks, ptr) < |blocks|
    }

    method Free(ptr: int)
      requires Valid()
      requires ptr != 0 ==> MayFree(ptr)
      modifies this
      ensures Valid()
      ensures State() == if ptr > 0 then AfterFree(old(State()), ptr) else old(State())
      ensures Apart(old(blocks)) ==> PayloadsKept(old(mem), mem, old(blocks))
    {
      if ptr == 0 {
        return;
      }
      ghost var i := if ptr > 0 then Owner(blocks, ptr) else |blocks|;
      assert i < |blocks| ==> Linked(mem, blocks, i);
      var block := ptr - HEADER;
      if mem[block] != MAGIC || mem[block + FREE] != 0 {
        return;
      }
      StepLaws(State(), Op.Free(ptr));
      used := (used + WORD - mem[block + SIZE]) % WORD;
      ReleaseBlock(block, i);
    }

    method ReleaseBlock(block: int, ghost i: nat)
      requires Valid() && i < |blocks| && block == blocks[i].addr && !blocks[i].free
      requires Laws(State().(blocks := Freed(blocks, i)))
      modifies this`mem, this`blocks
      ensures Valid() && State() == old(State()).(blocks := Freed(old(blocks), i))
      ensures Apart(old(blocks)) ==> PayloadsKept(old(mem), mem, old(blocks))
    {
      ghost var start, r := blocks, Release(blocks, i);
      ghost var t := Coalesce(r);
      ReleaseKeeps(start, i);
      mem := mem[block + FREE := Flag(true)];
      FlagChain(old(mem), mem, blocks, i, true);
      if Apart(start) {
        HeaderWrite(old(mem), mem, start, block, FREE, Flag(true));
      }
      MergeAll(r, start);
      blocks := t;
    }
  }

  lemma MergePayloads(m0: Memory, m1: Memory, m2: Memory, m3: Memory, bs: seq<Block>, k: nat, start: seq<Block>,
                      v: int, w: int)
    requires k < |bs| && Among(bs, start) && Apart(start)
    requires Total(m0) && m1 == m0[bs[k].addr + SIZE := v]
    requires m2 == m1[bs[k].addr + NEXT := w]
    requires m3 == WriteBack(m2, AddrAt(bs, k + 2), bs[k].addr)
    ensures Total(m3) && PayloadsKept(m0, m3, start)
  {
    HeaderWrite(m0, m1, start, bs[k].addr, SIZE, v);
    HeaderWrite(m1, m2, start, bs[k].addr, NEXT, w);
    if k + 2 < |bs| && bs[k + 2].addr != 0 {
      HeaderWrite(m2, m3, start, bs[k + 2].addr, PREV, bs[k].addr);
    }
  }

  lemma Genuine(m: Memory, bs: seq<Block>, k: nat)
    requires Total(m) && Chain(m, bs) && Aligned(bs) && k < |bs|
    ensures bs[k].addr > 0 && Linked(m, bs, k)
  {
    assert AlignedBlock(bs[k]);
  }

  lemma GenuinePair(m: Memory, bs: seq<Block>, k: nat)
    requires Total(m) && Chain(m, bs) && Aligned(bs) && k < |bs|
    ensures Linked(m, bs, k)
    ensures k + 1 < |bs| ==> bs[k + 1].addr > 0 && Linked(m, bs, k + 1)
  {
    Genuine(m, bs, k);
    if k + 1 < |bs| {
      Genuine(m, bs, k + 1);
    }
  }

  lemma NextKept(bs: seq<Block>, k: nat)
    requires HeadersApart(bs) && k + 1 < |bs|
    ensures HeadersDisjoint(bs[k], bs[k + 1])
  {
  }

  lemma ReleaseKeeps(bs: seq<Block>, i: nat)
    requires i < |bs| && Aligned(bs) && HeadersApart(bs)
    ensures Aligned(Release(bs, i)) && HeadersApart(Release(bs, i)) && Among(Release(bs, i), bs)
    ensures Sum(Freed(bs, i)) == Sum(bs) && AddrAt(Freed(bs, i), 0) == AddrAt(bs, 0)
  {
    var r := Release(bs, i);
    CoalesceFirst(r);
    assert forall k :: 0 <= k < |bs| ==> AlignedBlock(bs[k]);
    forall k, j | 0 <= k < j < |r|
      ensures HeadersDisjoint(r[k], r[j])
    {
      assert HeadersDisjoint(bs[k], bs[j]);
    }
    FreeLaws(bs, i);
  }

  lemma MallocHeaders(s: Store, size: nat)
    requires Laws(s) && size < WORD
    ensures HeadersApart(AfterMalloc(s, size).blocks) <==> Unobstructed(s, Op.Malloc(size))
    ensures Sound(s.blocks, s.grant) ==> Unobstructed(s, Op.Malloc(size))
  {
    StepLaws(s, Op.Malloc(size));
    if Sound(s.blocks, s.grant) {
      StepSound(s, Op.Malloc(size));
    }
  }

  /** What linking in a region of `pages` pages needs to know of the state it leads to. */
  ghost predicate IsGrown(s: Store, pages: nat, b: Block, g: Store) {
    && pages > 0 && PageBits.HasRun(s.bits, pages)
    && b == Block(PageBits.LowestRun(s.bits, pages) * PAGE, pages * PAGE - HEADER, false)
    && g.blocks == [b] + s.blocks
    && g.bits == PageBits.Fill(s.bits, PageBits.LowestRun(s.bits, pages), pages, true)
    && Shape(g) && Sum(g.blocks) == Sum(s.blocks) + pages * PAGE
    && (Sound(s.blocks, s.grant) ==> Apart(g.blocks))
  }

  lemma InstallFacts(s: Store, pages: nat, b: Block, g: Store)
    requires Shape(s) && pages > 0 && PageBits.HasRun(s.bits, pages)
    requires b == Region(s.bits, pages) && g == Grown(s, pages)
    ensures IsGrown(s, pages, b, g)
  {
    GrownShape(s, pages);
    SumConcat([b], s.blocks);
    if Sound(s.blocks, s.grant) {
      GrownSound(s, pages);
    }
  }

  /** `t` is where a request of `n` leads from `s`, by a fit, by growth with block `b`, or by refusal. */
  ghost predicate Planned(s: Store, n: nat, t: Store, b: Block) {
    var i := FirstFit(s.blocks, n);
    if i < |s.blocks| then t == s.(blocks := Take(s.blocks, i, n))
    else if CanGrow(s, n) then IsGrown(s, Pages(n), b, t)
    else t == s
  }

  ghost function Granted(s: Store, n: nat, b: Block): int {
    var i := FirstFit(s.blocks, n);
    if i < |s.blocks| then s.blocks[i].Payload() else if CanGrow(s, n) then b.Payload() else 0
  }

  lemma Plan(s: Store, size: nat) returns (t: Store, b: Block)
    requires Shape(s) && size != 0
    ensures t == AfterMalloc(s, size) && Planned(s, Round(size), t, b)
    ensures Granted(s, Round(size), b) == MallocResult(s, size)
  {
    var n := Round(size);
    t, b := AfterMalloc(s, size), Block(0, 0, false);
    if FirstFit(s.blocks, n) == |s.blocks| && CanGrow(s, n) {
      b := Region(s.bits, Pages(n));
      InstallFacts(s, Pages(n), b, t);
    }
  }

  lemma TakeFacts(bs: seq<Block>, i: nat, n: nat, grant: set<nat>)
    requires i < |bs| && Fits(bs[i], n) && Aligned(bs) && n % 16 == 0
    ensures AddrAt(Take(bs, i, n), 0) == AddrAt(bs, 0) && Sum(Take(bs, i, n)) == Sum(bs)
    ensures Sound(bs, grant) ==> HeadersApart(Take(bs, i, n))
  {
    TakeLaws(bs, i, n);
    if Sound(bs, grant) {
      TakeSound(bs, i, n, grant);
      ApartHeaders(Take(bs, i, n));
    }
  }

  /** Overlaps do not depend on the flag. */
  lemma FlagApart(b: Block, f: Block, bs: seq<Block>)
    requires f.addr == b.addr && f.size == b.size
    ensures Apart([b] + bs) ==> Apart([f] + bs)
    ensures HeadersApart([b] + bs) ==> HeadersApart([f] + bs)
  {
    var t, u := [b] + bs, [f] + bs;
    if Apart(t) {
      forall i, j | 0 <= i < j < |t|
        ensures Disjoint(u[i], u[j])
      {
        assert Disjoint(t[i], t[j]);
      }
    }
    if HeadersApart(t) {
      forall i, j | 0 <= i < j < |t|
        ensures HeadersDisjoint(u[i], u[j])
      {
        assert HeadersDisjoint(t[i], t[j]);
      }
    }
  }

  lemma NewFlag(m: Memory, m': Memory, b: Block, bs: seq<Block>)
    requires Total(m) && m' == m[b.addr + FREE := Flag(false)] && Apart([b] + bs)
    ensures PayloadsKept(m, m', bs)
  {
    var t := [b] + bs;
    forall j, x | 0 <= j < |bs| && !bs[j].free && bs[j].Payload() <= x < bs[j].End()
      ensures m'[x] == m[x]
    {
      assert Disjoint(t[0], t[j + 1]);
    }
  }
}

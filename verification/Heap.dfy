/**
 * The kernel heap as values: a list of blocks in list order, carved out of page runs
 * taken from the physical page manager (kernel/kmalloc.c).
 *
 * A block is a 48-byte header followed by `size` usable bytes. Two facts about the code
 * shape this file. Regions are pushed at the head of the list, so list order is address
 * order only while there is one region; and freeing merges list neighbours without
 * looking at their addresses.
 */
module Heap {
  const HEADER: nat := 48
  const MIN_SPLIT: nat := 32
  const PAGE: nat := 4096
  const WORD: nat := 0x1_0000_0000_0000_0000

  datatype Block = Block(addr: nat, size: nat, free: bool) {
    function Total(): nat {
      HEADER + size
    }

    function End(): nat {
      addr + HEADER + size
    }

    function Payload(): nat {
      addr + HEADER
    }

    predicate Holds(x: nat) {
      addr <= x < End()
    }
  }

  // ----- Properties of a block list -----

  function Sum(bs: seq<Block>): nat {
    if bs == [] then 0 else bs[0].Total() + Sum(bs[1..])
  }

  lemma SumConcat(a: seq<Block>, b: seq<Block>)
    ensures Sum(a + b) == Sum(a) + Sum(b)
  {
    if a == [] {
      assert a + b == b;
    } else {
      assert (a + b)[1..] == a[1..] + b;
      SumConcat(a[1..], b);
    }
  }

  lemma SizeBelowSum(bs: seq<Block>, i: nat)
    requires i < |bs|
    ensures bs[i].Total() <= Sum(bs)
  {
    if i > 0 {
      SizeBelowSum(bs[1..], i - 1);
    }
  }

  ghost predicate NoFreePairs(bs: seq<Block>) {
    forall i :: 0 <= i < |bs| - 1 ==> !(bs[i].free && bs[i + 1].free)
  }

  predicate AlignedBlock(b: Block) {
    b.addr > 0 && b.addr % 16 == 0 && b.size % 16 == 0
  }

  ghost predicate Aligned(bs: seq<Block>) {
    forall i :: 0 <= i < |bs| ==> AlignedBlock(bs[i])
  }

  predicate Disjoint(b: Block, c: Block) {
    b.End() <= c.addr || c.End() <= b.addr
  }

  ghost predicate Apart(bs: seq<Block>) {
    forall i, j :: 0 <= i < j < |bs| ==> Disjoint(bs[i], bs[j])
  }

  ghost predicate Covered(bs: seq<Block>, x: nat) {
    exists i :: 0 <= i < |bs| && bs[i].Holds(x)
  }

  ghost predicate SameBytes(a: seq<Block>, b: seq<Block>) {
    forall x: nat :: Covered(a, x) <==> Covered(b, x)
  }

  /** No two blocks share a byte, and together they hold the granted pages and nothing else. */
  ghost predicate Sound(bs: seq<Block>, grant: set<nat>) {
    Apart(bs) && forall x: nat :: Covered(bs, x) <==> x / PAGE in grant
  }

  predicate HeadersDisjoint(b: Block, c: Block) {
    b.addr + HEADER <= c.addr || c.addr + HEADER <= b.addr
  }

  /** No two headers overlap, whatever the blocks behind them do. */
  ghost predicate HeadersApart(bs: seq<Block>) {
    forall i, j {:trigger HeadersDisjoint(bs[i], bs[j])} :: 0 <= i < j < |bs| ==> HeadersDisjoint(bs[i], bs[j])
  }

  /** A bound on addresses that even misplaced merges keep: each block starts below `top` plus what the
      blocks before it in the list add up to. */
  ghost predicate Near(bs: seq<Block>, top: nat) {
    bs != [] ==> bs[0].addr < top && Near(bs[1..], top + bs[0].Total())
  }

  /** Each block ends where the next one in the list begins. */
  ghost predicate InOrder(bs: seq<Block>) {
    forall i :: 0 <= i < |bs| - 1 ==> bs[i].End() == bs[i + 1].addr
  }

  /** The allocated blocks, as a client knows them. */
  ghost function Live(bs: seq<Block>): set<Block> {
    set i | 0 <= i < |bs| && !bs[i].free :: bs[i]
  }

  // ----- Operations on a block list -----

  /** A request rounded up to 16 bytes in 64-bit arithmetic. */
  function Round(size: nat): nat {
    (size + 15) % WORD / 16 * 16
  }

  /** Pages asked of the page manager for a rounded request, in 64-bit arithmetic. */
  function Pages(n: nat): nat {
    (n + HEADER + PAGE - 1) % WORD / PAGE
  }

  predicate Fits(b: Block, n: nat) {
    b.free && b.size >= n
  }

  function FirstFit(bs: seq<Block>, n: nat, from: nat := 0): (i: nat)
    requires from <= |bs|
    ensures from <= i <= |bs|
    ensures forall j :: from <= j < i ==> !Fits(bs[j], n)
    ensures i < |bs| ==> Fits(bs[i], n)
    decreases |bs| - from
  {
    if from == |bs| || Fits(bs[from], n) then from else FirstFit(bs, n, from + 1)
  }

  /** What becomes of a free block that serves a request: it is split when the rest is worth keeping. */
  function Carve(b: Block, n: nat): seq<Block>
    requires Fits(b, n)
  {
    if b.size >= n + HEADER + MIN_SPLIT then
      [Block(b.addr, n, false), Block(b.addr + HEADER + n, b.size - n - HEADER, true)]
    else
      [Block(b.addr, b.size, false)]
  }

  function Take(bs: seq<Block>, i: nat, n: nat): seq<Block>
    requires i < |bs| && Fits(bs[i], n)
  {
    bs[..i] + Carve(bs[i], n) + bs[i + 1..]
  }

  function Merge(b: Block, c: Block): Block {
    Block(b.addr, b.size + HEADER + c.size, b.free)
  }

  /** One pass over the list that merges every free block with the free blocks after it. */
  function Coalesce(bs: seq<Block>): seq<Block>
    decreases |bs|
  {
    if |bs| < 2 then bs
    else if bs[0].free && bs[1].free then Coalesce([Merge(bs[0], bs[1])] + bs[2..])
    else [bs[0]] + Coalesce(bs[1..])
  }

  function Release(bs: seq<Block>, i: nat): seq<Block>
    requires i < |bs|
  {
    bs[i := Block(bs[i].addr, bs[i].size, true)]
  }

  function Freed(bs: seq<Block>, i: nat): seq<Block>
    requires i < |bs|
  {
    Coalesce(Release(bs, i))
  }

  // ----- What the merging pass does after one release -----

  lemma {:induction false} CoalesceFixed(bs: seq<Block>)
    requires NoFreePairs(bs)
    ensures Coalesce(bs) == bs
  {
    if |bs| >= 2 {
      assert !(bs[0].free && bs[1].free);
      CoalesceFixed(bs[1..]);
    }
  }

  lemma {:induction false} CoalesceFirst(bs: seq<Block>)
    requires bs != []
    ensures Coalesce(bs) != [] && Coalesce(bs)[0].addr == bs[0].addr && Coalesce(bs)[0].free == bs[0].free
    decreases |bs|
  {
    if |bs| >= 2 && bs[0].free && bs[1].free {
      CoalesceFirst([Merge(bs[0], bs[1])] + bs[2..]);
    }
  }

  /** After the pass no two neighbours are free. */
  lemma {:induction false} CoalesceNoPairs(bs: seq<Block>)
    ensures NoFreePairs(Coalesce(bs))
    decreases |bs|
  {
    if |bs| >= 2 && bs[0].free && bs[1].free {
      CoalesceNoPairs([Merge(bs[0], bs[1])] + bs[2..]);
    } else if |bs| >= 2 {
      CoalesceFirst(bs[1..]);
      CoalesceNoPairs(bs[1..]);
      var r := Coalesce(bs[1..]);
      forall i | 0 <= i < |r|
        ensures !(([bs[0]] + r)[i].free && r[i].free)
      {
        if i > 0 {
          var x, y := r[i - 1], r[i];
          assert !(x.free && y.free);
        }
      }
    }
  }

  /** The pass gains and loses no byte, and keeps alignment. */
  lemma {:induction false} CoalesceSum(bs: seq<Block>)
    ensures Sum(Coalesce(bs)) == Sum(bs)
    ensures Aligned(bs) ==> Aligned(Coalesce(bs))
    decreases |bs|
  {
    if |bs| >= 2 && bs[0].free && bs[1].free {
      var merged := [Merge(bs[0], bs[1])] + bs[2..];
      assert merged[1..] == bs[2..] == bs[1..][1..];
      assert Aligned(bs) ==> Aligned(merged) by {
        if Aligned(bs) {
          assert AlignedBlock(bs[0]) && AlignedBlock(bs[1]);
        }
      }
      CoalesceSum(merged);
    } else if |bs| >= 2 {
      CoalesceSum(bs[1..]);
      assert ([bs[0]] + Coalesce(bs[1..]))[1..] == Coalesce(bs[1..]);
    }
  }

  lemma CoalesceCons(b: Block, rest: seq<Block>)
    requires rest != [] ==> !(b.free && rest[0].free)
    ensures Coalesce([b] + rest) == [b] + Coalesce(rest)
  {
    var bs := [b] + rest;
    assert bs[1..] == rest;
    if rest != [] {
      assert bs[1] == rest[0];
    }
  }

  lemma {:induction false} CoalescePrefix(pre: seq<Block>, rest: seq<Block>)
    requires NoFreePairs(pre)
    requires pre != [] && rest != [] ==> !(pre[|pre| - 1].free && rest[0].free)
    ensures Coalesce(pre + rest) == pre + Coalesce(rest)
  {
    if pre == [] {
      assert pre + rest == rest;
    } else {
      var p, q := pre[0], pre[1..];
      assert pre + rest == [p] + (q + rest);
      if |pre| > 1 {
        assert q[0] == pre[1];
      }
      CoalescePrefix(q, rest);
      CoalesceCons(p, q + rest);
    }
  }

  function First(bs: seq<Block>, i: nat): nat
    requires i < |bs|
  {
    if i > 0 && bs[i - 1].free then i - 1 else i
  }

  function Last(bs: seq<Block>, i: nat): nat
    requires i < |bs|
  {
    if i + 1 < |bs| && bs[i + 1].free then i + 1 else i
  }

  /** One free block over all of `bs`, wherever its members lie: what the pass leaves behind. */
  function Fused(bs: seq<Block>): Block
    requires bs != []
  {
    Block(bs[0].addr, Sum(bs) - HEADER, true)
  }

  /** Releasing a block fuses it with its free list neighbours and touches nothing else. */
  lemma FreedIs(bs: seq<Block>, i: nat)
    requires NoFreePairs(bs) && i < |bs| && !bs[i].free
    ensures var lo, hi := First(bs, i), Last(bs, i) + 1;
            Freed(bs, i) == bs[..lo] + [Fused(bs[lo..hi])] + bs[hi..]
  {
    hide Coalesce, Sum, NoFreePairs;
    var lo, hi := First(bs, i), Last(bs, i) + 1;
    var r := Release(bs, i);
    var mid, post := r[lo..hi], bs[hi..];
    ReleasedMiddle(bs, i);
    assert r == bs[..lo] + (mid + post);
    assert (mid + post)[0] == r[lo];
    CoalescePrefix(bs[..lo], mid + post);
    FuseFront(mid, post);
    SumRelease(bs, i, lo, hi);
  }

  /** The run of free blocks around a released block is a run: what borders it is not free. */
  lemma ReleasedMiddle(bs: seq<Block>, i: nat)
    requires NoFreePairs(bs) && i < |bs| && !bs[i].free
    ensures var lo, hi := First(bs, i), Last(bs, i) + 1;
            && (forall k :: lo <= k < hi ==> Release(bs, i)[k].free)
            && (lo > 0 ==> !bs[lo - 1].free)
            && (hi < |bs| ==> !bs[hi].free)
            && NoFreePairs(bs[..lo]) && NoFreePairs(bs[hi..])
  {
    var lo, hi := First(bs, i), Last(bs, i) + 1;
    if lo > 0 {
      var x, y := bs[lo - 1], bs[lo];
      assert !(x.free && y.free);
    }
    if hi < |bs| {
      var x, y := bs[hi - 1], bs[hi];
      assert !(x.free && y.free);
    }
  }

  lemma SumRelease(bs: seq<Block>, i: nat, lo: nat, hi: nat)
    requires lo <= i < hi <= |bs|
    ensures Fused(Release(bs, i)[lo..hi]) == Fused(bs[lo..hi])
  {
    var s, t := bs[lo..hi], Release(bs, i)[lo..hi];
    var k := i - lo;
    assert s == s[..k] + ([s[k]] + s[k + 1..]);
    assert t == s[..k] + ([t[k]] + s[k + 1..]);
    SumConcat(s[..k], [s[k]] + s[k + 1..]);
    SumConcat(s[..k], [t[k]] + s[k + 1..]);
  }

  lemma {:induction false} FuseFront(mid: seq<Block>, post: seq<Block>)
    requires mid != [] && forall i :: 0 <= i < |mid| ==> mid[i].free
    requires NoFreePairs(post) && (post != [] ==> !post[0].free)
    ensures Coalesce(mid + post) == [Fused(mid)] + post
    decreases |mid|
  {
    var bs := mid + post;
    if |mid| == 1 {
      assert NoFreePairs(bs);
      CoalesceFixed(bs);
      assert mid[0] == Fused(mid);
    } else {
      var rest := [Merge(mid[0], mid[1])] + mid[2..];
      assert rest[1..] == mid[2..] == mid[1..][1..];
      assert Sum(rest) == Sum(mid);
      assert [Merge(bs[0], bs[1])] + bs[2..] == rest + post;
      FuseFront(rest, post);
    }
  }

  /** Freeing what a kmalloc that did not grow the heap has just returned restores the list. */
  lemma FreeUndoesTake(bs: seq<Block>, i: nat, n: nat)
    requires NoFreePairs(bs) && i < |bs| && Fits(bs[i], n)
    ensures NoFreePairs(Take(bs, i, n)) && !Take(bs, i, n)[i].free
    ensures Freed(Take(bs, i, n), i) == bs
  {
    var t := Take(bs, i, n);
    var c := Carve(bs[i], n);
    TakeNoPairs(bs, i, n);
    FreedIs(t, i);
    assert t[i] == c[0];
    assert i > 0 ==> t[i - 1] == bs[i - 1] && !bs[i - 1].free;
    assert i + |c| < |t| ==> t[i + |c|] == bs[i + 1] && !bs[i + 1].free;
    var hi := Last(t, i) + 1;
    assert t[i..hi] == c;
    CarveSum(bs[i], n);
    assert t[hi..] == bs[i + 1..];
  }

  lemma CarveSum(b: Block, n: nat)
    requires Fits(b, n)
    ensures Sum(Carve(b, n)) == b.Total()
  {
    var c := Carve(b, n);
    if |c| == 2 {
      assert c[1..] == [c[1]];
      assert Sum([c[1]]) == c[1].Total();
    }
  }

  lemma TakeNoPairs(bs: seq<Block>, i: nat, n: nat)
    requires NoFreePairs(bs) && i < |bs| && Fits(bs[i], n)
    ensures NoFreePairs(Take(bs, i, n))
  {
    var t := Take(bs, i, n);
    var c := Carve(bs[i], n);
    forall k | 0 <= k < |t| - 1
      ensures !(t[k].free && t[k + 1].free)
    {
      if k >= i + |c| {
        assert t[k] == bs[k - |c| + 1] && t[k + 1] == bs[k - |c| + 2];
      } else if k == i + |c| - 1 {
        assert t[k + 1] == bs[i + 1];
      } else if k + 1 < i {
        assert t[k] == bs[k] && t[k + 1] == bs[k + 1];
      }
    }
  }

  // ----- Bytes: which lists hold the same memory -----

  lemma CoveredConcat(a: seq<Block>, b: seq<Block>, x: nat)
    ensures Covered(a + b, x) <==> Covered(a, x) || Covered(b, x)
  {
    if i :| 0 <= i < |a| && a[i].Holds(x) {
      assert (a + b)[i].Holds(x);
    }
    if i :| 0 <= i < |b| && b[i].Holds(x) {
      assert (a + b)[|a| + i].Holds(x);
    }
  }

  ghost predicate Clear(a: seq<Block>, b: seq<Block>) {
    forall x: nat :: !(Covered(a, x) && Covered(b, x))
  }

  lemma DisjointBytes(b: Block, c: Block)
    ensures Disjoint(b, c) <==> forall x: nat :: !(b.Holds(x) && c.Holds(x))
  {
    if !Disjoint(b, c) {
      var x := if b.addr < c.addr then c.addr else b.addr;
      assert b.Holds(x) && c.Holds(x);
    }
  }

  lemma ApartConcat(a: seq<Block>, b: seq<Block>)
    ensures Apart(a + b) <==> Apart(a) && Apart(b) && Clear(a, b)
  {
    if Apart(a + b) {
      ApartSplits(a, b);
    }
    if Apart(a) && Apart(b) && Clear(a, b) {
      forall i, j | 0 <= i < j < |a + b|
        ensures Disjoint((a + b)[i], (a + b)[j])
      {
        if i < |a| <= j {
          DisjointBytes(a[i], b[j - |a|]);
          assert forall x: nat :: a[i].Holds(x) ==> Covered(a, x);
          assert forall x: nat :: b[j - |a|].Holds(x) ==> Covered(b, x);
        }
      }
    }
  }

  lemma ApartSplits(a: seq<Block>, b: seq<Block>)
    requires Apart(a + b)
    ensures Apart(a) && Apart(b) && Clear(a, b)
  {
    var s := a + b;
    forall i, j | 0 <= i < j < |a|
      ensures Disjoint(a[i], a[j])
    {
      assert Disjoint(s[i], s[j]);
    }
    forall i, j | 0 <= i < j < |b|
      ensures Disjoint(b[i], b[j])
    {
      assert Disjoint(s[|a| + i], s[|a| + j]);
    }
    forall i, j | 0 <= i < |a| && 0 <= j < |b|
      ensures Disjoint(a[i], b[j])
    {
      assert Disjoint(s[i], s[|a| + j]);
    }
  }

  lemma Middle(pre: seq<Block>, mid: seq<Block>, post: seq<Block>)
    ensures forall x: nat :: Covered(pre + mid + post, x) <==> Covered(mid, x) || Covered(pre + post, x)
    ensures Apart(pre + mid + post) <==> Apart(mid) && Apart(pre + post) && Clear(mid, pre + post)
  {
    forall x: nat
      ensures Covered(pre + mid + post, x) <==> Covered(mid, x) || Covered(pre + post, x)
      ensures Covered(pre + mid, x) <==> Covered(pre, x) || Covered(mid, x)
      ensures Covered(pre + post, x) <==> Covered(pre, x) || Covered(post, x)
    {
      CoveredConcat(pre + mid, post, x);
      CoveredConcat(pre, mid, x);
      CoveredConcat(pre, post, x);
    }
    ApartConcat(pre + mid, post);
    ApartConcat(pre, mid);
    ApartConcat(pre, post);
  }

  /** Replacing part of a sound list leaves it sound exactly when the part holds the same bytes. */
  lemma SwapSound(pre: seq<Block>, mid: seq<Block>, swap: seq<Block>, post: seq<Block>, grant: set<nat>)
    requires Sound(pre + mid + post, grant)
    requires Apart(swap)
    ensures Sound(pre + swap + post, grant) <==> SameBytes(mid, swap)
  {
    Middle(pre, mid, post);
    Middle(pre, swap, post);
  }

  lemma CarveSame(b: Block, n: nat)
    requires Fits(b, n)
    ensures Apart(Carve(b, n)) && SameBytes([b], Carve(b, n))
  {
    var c := Carve(b, n);
    forall x: nat
      ensures Covered([b], x) <==> Covered(c, x)
    {
      assert Covered([b], x) <==> [b][0].Holds(x);
      if b.Holds(x) {
        assert c[0].Holds(x) || c[|c| - 1].Holds(x);
      }
    }
  }

  lemma TakeSound(bs: seq<Block>, i: nat, n: nat, grant: set<nat>)
    requires Sound(bs, grant) && i < |bs| && Fits(bs[i], n)
    ensures Sound(Take(bs, i, n), grant)
  {
    assert bs == bs[..i] + [bs[i]] + bs[i + 1..];
    CarveSame(bs[i], n);
    SwapSound(bs[..i], [bs[i]], Carve(bs[i], n), bs[i + 1..], grant);
  }

  /** The blocks, starting at the first, lie end to end in memory. */
  predicate EndToEnd(mid: seq<Block>) {
    match |mid|
    case 2 => mid[0].End() == mid[1].addr
    case 3 =>
      || (mid[0].End() == mid[1].addr && mid[1].End() == mid[2].addr)
      || (mid[0].End() == mid[2].addr && mid[2].End() == mid[1].addr)
    case _ => true
  }

  /** What a caller can check before freeing block `i`: the blocks to be merged are neighbours in memory too. */
  predicate MergesInPlace(bs: seq<Block>, i: nat)
    requires i < |bs|
  {
    EndToEnd(bs[First(bs, i)..Last(bs, i) + 1])
  }

  lemma CoveredFew(mid: seq<Block>, x: nat)
    requires 1 <= |mid| <= 3
    ensures Covered(mid, x) <==>
            mid[0].Holds(x) || (|mid| > 1 && mid[1].Holds(x)) || (|mid| > 2 && mid[2].Holds(x))
  {
  }

  lemma SumFew(mid: seq<Block>)
    requires 1 <= |mid| <= 3
    ensures Sum(mid) == mid[0].Total()
                        + (if |mid| > 1 then mid[1].Total() else 0)
                        + (if |mid| > 2 then mid[2].Total() else 0)
  {
    assert Sum(mid) == mid[0].Total() + Sum(mid[1..]);
    if |mid| > 1 {
      assert mid[1..][1..] == mid[2..];
      assert Sum(mid[1..]) == mid[1].Total() + Sum(mid[2..]);
      if |mid| > 2 {
        assert Sum(mid[2..]) == mid[2].Total() + Sum(mid[2..][1..]);
      }
    }
  }

  lemma FusedSame(mid: seq<Block>)
    requires 1 <= |mid| <= 3 && Apart(mid)
    ensures SameBytes(mid, [Fused(mid)]) <==> EndToEnd(mid)
  {
    var f := Fused(mid);
    SumFew(mid);
    forall x: nat
      ensures Covered(mid, x) <==>
              mid[0].Holds(x) || (|mid| > 1 && mid[1].Holds(x)) || (|mid| > 2 && mid[2].Holds(x))
      ensures Covered([f], x) <==> f.Holds(x)
    {
      CoveredFew(mid, x);
      CoveredFew([f], x);
    }
    if SameBytes(mid, [f]) {
      SameImpliesChain(mid);
    }
  }

  /** Only blocks lying end to end hold the bytes of one block as long as all of them. */
  lemma SameImpliesChain(mid: seq<Block>)
    requires 1 <= |mid| <= 3 && Apart(mid)
    requires SameBytes(mid, [Fused(mid)])
    ensures EndToEnd(mid)
  {
    var f := Fused(mid);
    SumFew(mid);
    if |mid| > 1 {
      var x := mid[0].End();
      CoveredFew(mid, x);
      assert [f][0].Holds(x);
      assert Disjoint(mid[0], mid[1]);
      ChainMember(mid, 1);
      if |mid| == 3 {
        ChainMember(mid, 2);
        var k := if mid[1].Holds(x) then 1 else 2;
        var y := mid[k].End();
        CoveredFew(mid, y);
        assert [f][0].Holds(y);
        assert Disjoint(mid[0], mid[2]) && Disjoint(mid[1], mid[2]);
      }
    }
  }

  lemma ChainMember(mid: seq<Block>, k: nat)
    requires 0 < k < |mid| <= 3 && Apart(mid)
    requires SameBytes(mid, [Fused(mid)])
    ensures mid[0].End() <= mid[k].addr
  {
    assert mid[k].Holds(mid[k].addr);
    assert Covered([Fused(mid)], mid[k].addr);
    assert Disjoint(mid[0], mid[k]);
  }

  /** Freeing keeps the heap sound exactly when the merged blocks are neighbours in memory. */
  lemma FreedSound(bs: seq<Block>, i: nat, grant: set<nat>)
    requires NoFreePairs(bs) && i < |bs| && !bs[i].free
    requires Sound(bs, grant)
    ensures Sound(Freed(bs, i), grant) <==> MergesInPlace(bs, i)
  {
    var lo, hi := First(bs, i), Last(bs, i) + 1;
    var pre, mid, post := bs[..lo], bs[lo..hi], bs[hi..];
    assert bs == pre + mid + post;
    FreedIs(bs, i);
    Middle(pre, mid, post);
    FusedSame(mid);
    SwapSound(pre, mid, [Fused(mid)], post, grant);
  }

  /** With one region the list is in address order, so every merge is in place and keeps the order. */
  lemma FreedInOrder(bs: seq<Block>, i: nat)
    requires NoFreePairs(bs) && i < |bs| && !bs[i].free && InOrder(bs)
    ensures MergesInPlace(bs, i)
    ensures InOrder(Freed(bs, i)) && Freed(bs, i) != []
  {
    var lo, hi := First(bs, i), Last(bs, i) + 1;
    var mid := bs[lo..hi];
    FreedIs(bs, i);
    SumFew(mid);
    var r := Freed(bs, i);
    forall k | 0 <= k < |r| - 1
      ensures r[k].End() == r[k + 1].addr
    {
      if k + 1 < lo {
        assert r[k] == bs[k] && r[k + 1] == bs[k + 1];
      } else if k > lo {
        assert r[k] == bs[k - lo - 1 + hi] && r[k + 1] == bs[k - lo + hi];
      } else if k == lo {
        assert r[k + 1] == bs[hi];
      } else {
        assert r[k] == bs[k] && r[k + 1].addr == bs[k + 1].addr;
      }
    }
  }

  lemma TakeInOrder(bs: seq<Block>, i: nat, n: nat)
    requires i < |bs| && Fits(bs[i], n) && InOrder(bs)
    ensures InOrder(Take(bs, i, n)) && Take(bs, i, n) != []
  {
    var r := Take(bs, i, n);
    var c := Carve(bs[i], n);
    forall k | 0 <= k < |r| - 1
      ensures r[k].End() == r[k + 1].addr
    {
      if k >= i + |c| {
        assert r[k] == bs[k - |c| + 1] && r[k + 1] == bs[k - |c| + 2];
      } else if k == i + |c| - 1 {
        assert r[k + 1] == bs[i + 1];
      } else if k + 1 <= i {
        assert r[k] == bs[k] && r[k + 1].addr == bs[k + 1].addr;
      }
    }
  }

  /** In a list in address order, first fit is lowest fit. */
  lemma FirstFitIsLowest(bs: seq<Block>, n: nat, j: nat)
    requires InOrder(bs) && j < |bs| && Fits(bs[j], n)
    ensures FirstFit(bs, n) <= j && bs[FirstFit(bs, n)].addr <= bs[j].addr
  {
    Ascending(bs, FirstFit(bs, n), j);
  }

  lemma {:induction false} Ascending(bs: seq<Block>, i: nat, j: nat)
    requires InOrder(bs) && i <= j < |bs|
    ensures bs[i].addr <= bs[j].addr
    decreases j - i
  {
    if i < j {
      Ascending(bs, i + 1, j);
    }
  }

  // ----- Headers -----

  lemma ApartHeaders(bs: seq<Block>)
    requires Apart(bs)
    ensures HeadersApart(bs)
  {
    forall i, j | 0 <= i < j < |bs|
      ensures HeadersDisjoint(bs[i], bs[j])
    {
      assert Disjoint(bs[i], bs[j]);
    }
  }

  lemma HeadersAt(bs: seq<Block>, i: nat, j: nat)
    requires HeadersApart(bs) && i < |bs| && j < |bs| && i != j
    ensures HeadersDisjoint(bs[i], bs[j])
  {
    if j < i {
      assert HeadersDisjoint(bs[j], bs[i]);
    }
  }

  /** What a caller can check before block `i` serves a request: the header that a split would write
      keeps clear of every other header in the list. */
  ghost predicate SplitClear(bs: seq<Block>, i: nat, n: nat)
    requires i < |bs| && Fits(bs[i], n)
  {
    |Carve(bs[i], n)| == 2 ==>
      forall j :: 0 <= j < |bs| && j != i ==> HeadersDisjoint(Carve(bs[i], n)[1], bs[j])
  }

  lemma TakeHeaders(bs: seq<Block>, i: nat, n: nat)
    requires HeadersApart(bs) && i < |bs| && Fits(bs[i], n)
    ensures HeadersApart(Take(bs, i, n)) <==> SplitClear(bs, i, n)
  {
    var t, c := Take(bs, i, n), Carve(bs[i], n);
    if SplitClear(bs, i, n) {
      forall k, j | 0 <= k < j < |t|
        ensures HeadersDisjoint(t[k], t[j])
      {
        var k', j' := if k <= i then k else k - |c| + 1, if j <= i then j else j - |c| + 1;
        if |c| == 1 || (k != i + 1 && j != i + 1) {
          assert HeadersDisjoint(bs[k'], bs[j']);
        }
      }
    }
    if HeadersApart(t) && |c| == 2 {
      forall j | 0 <= j < |bs| && j != i
        ensures HeadersDisjoint(c[1], bs[j])
      {
        HeadersAt(t, i + 1, if j < i then j else j + 1);
      }
    }
  }

  lemma FreedHeaders(bs: seq<Block>, i: nat)
    requires HeadersApart(bs) && NoFreePairs(bs) && i < |bs| && !bs[i].free
    ensures HeadersApart(Freed(bs, i))
  {
    var lo, hi := First(bs, i), Last(bs, i) + 1;
    FreedIs(bs, i);
    var r := Freed(bs, i);
    forall k, j | 0 <= k < j < |r|
      ensures HeadersDisjoint(r[k], r[j])
    {
      var k', j' := if k <= lo then k else k - lo - 1 + hi, if j <= lo then j else j - lo - 1 + hi;
      assert r[k].addr == bs[k'].addr && r[j].addr == bs[j'].addr;
      assert HeadersDisjoint(bs[k'], bs[j']);
    }
  }

  lemma PushHeaders(b: Block, bs: seq<Block>)
    requires HeadersApart(bs)
    ensures HeadersApart([b] + bs) <==> forall j :: 0 <= j < |bs| ==> HeadersDisjoint(b, bs[j])
  {
    var t := [b] + bs;
    if HeadersApart(t) {
      forall j | 0 <= j < |bs|
        ensures HeadersDisjoint(b, bs[j])
      {
        assert HeadersDisjoint(t[0], t[j + 1]);
      }
    }
    if forall j :: 0 <= j < |bs| ==> HeadersDisjoint(b, bs[j]) {
      forall k, j | 0 <= k < j < |t|
        ensures HeadersDisjoint(t[k], t[j])
      {
        assert k > 0 ==> HeadersDisjoint(bs[k - 1], bs[j - 1]);
      }
    }
  }

  // ----- Bounds on addresses -----

  lemma {:induction false} NearConcat(a: seq<Block>, b: seq<Block>, top: nat)
    ensures Near(a + b, top) <==> Near(a, top) && Near(b, top + Sum(a))
    decreases |a|
  {
    if a == [] {
      assert a + b == b;
    } else {
      assert (a + b)[1..] == a[1..] + b;
      NearConcat(a[1..], b, top + a[0].Total());
    }
  }

  lemma {:induction false} NearHigher(bs: seq<Block>, top: nat, higher: nat)
    requires Near(bs, top) && top <= higher
    ensures Near(bs, higher)
    decreases |bs|
  {
    if bs != [] {
      NearHigher(bs[1..], top + bs[0].Total(), higher + bs[0].Total());
    }
  }

  lemma {:induction false} NearBound(bs: seq<Block>, top: nat, i: nat)
    requires Near(bs, top) && i < |bs|
    ensures bs[i].addr < top + Sum(bs)
    decreases |bs|
  {
    if i > 0 {
      NearBound(bs[1..], top + bs[0].Total(), i - 1);
    }
  }

  lemma NearTake(bs: seq<Block>, i: nat, n: nat, top: nat)
    requires Near(bs, top) && i < |bs| && Fits(bs[i], n)
    ensures Near(Take(bs, i, n), top)
  {
    var pre, b, post := bs[..i], bs[i], bs[i + 1..];
    var c := Carve(b, n);
    assert bs == pre + ([b] + post);
    NearConcat(pre, [b] + post, top);
    NearConcat([b], post, top + Sum(pre));
    assert Sum([b]) == b.Total();
    CarveSum(b, n);
    assert Near(c, top + Sum(pre)) by {
      assert |c| == 2 ==> c[1..] == [c[1]];
    }
    NearConcat(c, post, top + Sum(pre));
    assert Take(bs, i, n) == pre + (c + post);
    NearConcat(pre, c + post, top);
  }

  lemma {:induction false} NearCoalesce(bs: seq<Block>, top: nat)
    requires Near(bs, top)
    ensures Near(Coalesce(bs), top)
    decreases |bs|
  {
    if |bs| >= 2 && bs[0].free && bs[1].free {
      var merged := [Merge(bs[0], bs[1])] + bs[2..];
      assert merged[1..] == bs[1..][1..];
      assert Near(bs[1..], top + bs[0].Total());
      NearCoalesce(merged, top);
    } else if |bs| >= 2 {
      NearCoalesce(bs[1..], top + bs[0].Total());
      assert ([bs[0]] + Coalesce(bs[1..]))[1..] == Coalesce(bs[1..]);
    }
  }

  lemma {:induction false} NearRelease(bs: seq<Block>, i: nat, top: nat)
    requires Near(bs, top) && i < |bs|
    ensures Near(Release(bs, i), top)
    decreases |bs|
  {
    var r := Release(bs, i);
    if i == 0 {
      assert r[1..] == bs[1..];
    } else {
      assert r[1..] == Release(bs[1..], i - 1);
      NearRelease(bs[1..], i - 1, top + bs[0].Total());
    }
  }
}

/** The pages of an address space, sorted by the entry of a table through which they are reached. */
module Teardown {
  import opened Options
  import opened PageBits
  import opened PageTables
  import opened AddressSpaces

  /** A page of the space: the table at `p`, or the frame mapped at `v`. */
  datatype Node = AtTable(p: Path) | AtFrame(v: Vpn)

  function PageAt(vm: Vm, root: nat, n: Node): Option<nat> {
    match n case AtTable(p) => TableAt(vm, root, p) case AtFrame(v) => FrameAt(vm, root, v)
  }

  /** The way from the root to `q` passes through entry `idx` of the table at `p`. */
  predicate Passes(q: Path, p: Path, idx: Ix)
    decreases Level(q)
  {
    !q.Root? && ((Parent(q) == p && Last(q) == idx) || Passes(Parent(q), p, idx))
  }

  predicate Through(n: Node, p: Path, idx: Ix) {
    match n
    case AtTable(q) => Passes(q, p, idx)
    case AtFrame(v) => (PtOf(v) == p && LeafIx(v) == idx) || Passes(PtOf(v), p, idx)
  }

  /** Pages reached through one of the first `n` entries of the table at `p`. */
  ghost function Region(vm: Vm, root: nat, p: Path, n: nat): set<nat> {
    set x: nat | x < |vm.bits| && InRegion(vm, root, p, n, x)
  }

  ghost predicate InRegion(vm: Vm, root: nat, p: Path, n: nat, x: nat) {
    exists node: Node, idx: Ix :: idx < n && Through(node, p, idx) && PageAt(vm, root, node) == Some(x)
  }

  lemma RegionNone(vm: Vm, root: nat, p: Path)
    ensures Region(vm, root, p, 0) == {}
  {
  }

  lemma ReclaimNone(bits: seq<bool>)
    ensures Reclaim(bits, {}) == bits
  {
  }

  /** The table at `p` together with everything below it. */
  ghost function Subtree(vm: Vm, root: nat, p: Path): set<nat> {
    if TableAt(vm, root, p).Some? then Region(vm, root, p, 512) + {TableAt(vm, root, p).value} else {}
  }

  lemma {:induction false} PassesIsBelow(q: Path, p: Path, idx: Ix)
    requires Passes(q, p, idx)
    ensures Level(q) > Level(p)
    decreases Level(q)
  {
    if Parent(q) != p || Last(q) != idx { PassesIsBelow(Parent(q), p, idx); }
  }

  lemma ThroughUnique(n: Node, p: Path, a: Ix, b: Ix)
    requires Through(n, p, a) && Through(n, p, b)
    ensures a == b
  {
    match n
    case AtTable(q) => PassesUnique(q, p, a, b);
    case AtFrame(v) =>
      if Passes(PtOf(v), p, a) { PassesIsBelow(PtOf(v), p, a); }
      if Passes(PtOf(v), p, b) { PassesIsBelow(PtOf(v), p, b); }
      if PtOf(v) != p { PassesUnique(PtOf(v), p, a, b); }
  }

  lemma {:induction false} PassesUnique(q: Path, p: Path, a: Ix, b: Ix)
    requires Passes(q, p, a) && Passes(q, p, b)
    ensures a == b
    decreases Level(q)
  {
    if Passes(Parent(q), p, a) { PassesIsBelow(Parent(q), p, a); }
    if Passes(Parent(q), p, b) { PassesIsBelow(Parent(q), p, b); }
    if Parent(q) != p { PassesUnique(Parent(q), p, a, b); }
  }

  /** Everything through entry `idx` of `p` is the child there or lies below the child. */
  ghost predicate Within(n: Node, c: Path) {
    n == AtTable(c) || exists j: Ix :: Through(n, c, j)
  }

  lemma ThroughChild(n: Node, p: Path, idx: Ix)
    requires HasChild(p, idx)
    ensures Through(n, p, idx) <==> Within(n, Child(p, idx))
  {
    var c := Child(p, idx);
    var q := if n.AtTable? then n.p else PtOf(n.v);
    if Through(n, p, idx) && n != AtTable(c) {
      if q == c {
        assert Through(n, c, LeafIx(n.v));
      } else {
        assert Passes(q, p, idx);
        var j := PassesUp(q, p, idx);
        assert Through(n, c, j);
      }
    }
    if j: Ix :| Through(n, c, j) {
      if q == c { assert Parent(q) == p && Last(q) == idx; } else { PassesDown(q, p, idx, j); }
    }
  }

  lemma {:induction false} PassesUp(q: Path, p: Path, idx: Ix) returns (j: Ix)
    requires HasChild(p, idx) && Passes(q, p, idx) && q != Child(p, idx)
    ensures Passes(q, Child(p, idx), j)
    decreases Level(q)
  {
    if Parent(q) == Child(p, idx) {
      j := Last(q);
    } else {
      assert Passes(Parent(q), p, idx);
      j := PassesUp(Parent(q), p, idx);
    }
  }

  lemma {:induction false} PassesDown(q: Path, p: Path, idx: Ix, j: Ix)
    requires HasChild(p, idx) && Passes(q, Child(p, idx), j)
    ensures Passes(q, p, idx)
    decreases Level(q)
  {
    if Parent(q) == Child(p, idx) {
      assert Passes(Parent(q), p, idx);
    } else {
      PassesDown(Parent(q), p, idx, j);
    }
  }

  lemma {:induction false} PassesExists(vm: Vm, root: nat, q: Path, p: Path, idx: Ix)
    requires Passes(q, p, idx) && TableAt(vm, root, q).Some?
    ensures TableAt(vm, root, p).Some?
    decreases Level(q)
  {
    if Parent(q) != p || Last(q) != idx { PassesExists(vm, root, Parent(q), p, idx); }
  }

  /** No two places hold the same page. */
  lemma PageAtDistinct(vm: Vm, root: nat, m: Node, n: Node, x: nat)
    requires WellFormed(vm, root) && OwnsFrames(vm, root)
    requires PageAt(vm, root, m) == Some(x) && PageAt(vm, root, n) == Some(x)
    ensures m == n
  {
    if m.AtTable? { assert IsTable(vm, root, x); }
    if n.AtTable? { assert IsTable(vm, root, x); }
  }

  lemma InSubtree(vm: Vm, root: nat, p: Path, x: nat)
    requires WellFormed(vm, root) && OwnsFrames(vm, root) && x < |vm.bits|
    ensures x in Subtree(vm, root, p) <==>
      exists m: Node :: Within(m, p) && PageAt(vm, root, m) == Some(x)
  {
    if m: Node :| Within(m, p) && PageAt(vm, root, m) == Some(x) {
      if m != AtTable(p) {
        var j: Ix :| Through(m, p, j);
        if m.AtTable? { PassesExists(vm, root, m.p, p, j); }
        else if PtOf(m.v) != p { PassesExists(vm, root, PtOf(m.v), p, j); }
        assert InRegion(vm, root, p, 512, x);
      }
    }
    if x in Subtree(vm, root, p) {
      if x == TableAt(vm, root, p).value {
        assert Within(AtTable(p), p) && PageAt(vm, root, AtTable(p)) == Some(x);
      } else {
        var m: Node, j: Ix :| j < 512 && Through(m, p, j) && PageAt(vm, root, m) == Some(x);
        assert Within(m, p);
      }
    }
  }

  /** One more entry of a table: its subtree joins the region, and shares no page with it. */
  lemma RegionStep(vm: Vm, root: nat, p: Path, n: Ix)
    requires WellFormed(vm, root) && OwnsFrames(vm, root) && HasChild(p, n)
    ensures Region(vm, root, p, n + 1) == Region(vm, root, p, n) + Subtree(vm, root, Child(p, n))
    ensures Region(vm, root, p, n) !! Subtree(vm, root, Child(p, n))
  {
    var c := Child(p, n);
    forall x: nat | x < |vm.bits|
      ensures InRegion(vm, root, p, n + 1, x) <==> InRegion(vm, root, p, n, x) || x in Subtree(vm, root, c)
      ensures !(InRegion(vm, root, p, n, x) && x in Subtree(vm, root, c))
    {
      InSubtree(vm, root, c, x);
      if m: Node, idx: Ix :| idx < n + 1 && Through(m, p, idx) && PageAt(vm, root, m) == Some(x) {
        if idx == n { ThroughChild(m, p, n); }
      }
      if x in Subtree(vm, root, c) {
        var m: Node :| Within(m, c) && PageAt(vm, root, m) == Some(x);
        ThroughChild(m, p, n);
        assert Through(m, p, n);
        if m2: Node, idx: Ix :| idx < n && Through(m2, p, idx) && PageAt(vm, root, m2) == Some(x) {
          PageAtDistinct(vm, root, m, m2, x);
          ThroughUnique(m, p, n, idx);
        }
      }
    }
  }

  function VpnAt(p: Path, l: Ix): Vpn
    requires p.Pt?
  {
    p.i * 0x800_0000 + p.j * 0x4_0000 + p.k * 512 + l
  }

  lemma VpnAtInverse(p: Path, l: Ix)
    requires p.Pt?
    ensures PtOf(VpnAt(p, l)) == p && LeafIx(VpnAt(p, l)) == l
  {
    var v := VpnAt(p, l);
    assert v / 512 == p.i * 0x4_0000 + p.j * 512 + p.k;
    assert v / 0x4_0000 == v / 512 / 512;
    assert v / 0x4_0000 == p.i * 512 + p.j;
    assert v / 0x800_0000 == v / 0x4_0000 / 512;
  }

  function AsSet(f: Option<nat>): set<nat> {
    if f.Some? then {f.value} else {}
  }

  lemma ThroughLeaf(n: Node, p: Path, l: Ix)
    requires p.Pt?
    ensures Through(n, p, l) <==> n == AtFrame(VpnAt(p, l))
  {
    VpnAtInverse(p, l);
    match n
    case AtTable(q) => if Passes(q, p, l) { PassesIsBelow(q, p, l); }
    case AtFrame(v) =>
      if Passes(PtOf(v), p, l) { PassesIsBelow(PtOf(v), p, l); }
      if PtOf(v) == p && LeafIx(v) == l { VpnDetermined(v, VpnAt(p, l)); }
  }

  lemma LeafEntry(vm: Vm, root: nat, p: Path, l: Ix)
    requires WellFormed(vm, root) && OwnsFrames(vm, root) && p.Pt? && TableAt(vm, root, p).Some?
    ensures
      var e := vm.mem[TableAt(vm, root, p).value][l];
      && AsSet(FrameAt(vm, root, VpnAt(p, l))) == (if Present(e) then {e.frame} else {})
      && (Present(e) ==> 0 < e.frame < |vm.bits|)
  {
    VpnAtInverse(p, l);
    assert FrameAt(vm, root, VpnAt(p, l)).Some? ==> FrameAt(vm, root, VpnAt(p, l)).value < |vm.bits|;
  }

  lemma ChildEntry(vm: Vm, root: nat, p: Path, idx: Ix)
    requires WellFormed(vm, root) && TableAt(vm, root, p).Some? && HasChild(p, idx)
    ensures
      var e := vm.mem[TableAt(vm, root, p).value][idx];
      && TableAt(vm, root, Child(p, idx)) == (if Present(e) then Some(e.frame) else None)
      && (!p.Root? ==> !Huge(e))
      && (Present(e) ==> 0 < e.frame < |vm.bits|)
  {
    var t := TableAt(vm, root, p).value;
    assert EntryOf(vm, t, idx) == vm.mem[t][idx];
    assert Parent(Child(p, idx)) == p;
    if !p.Root? { assert NoHuge(vm, t); }
  }

  /** The same for an entry of a last-level table: its frame joins the region. */
  lemma LeafStep(vm: Vm, root: nat, p: Path, l: Ix)
    requires WellFormed(vm, root) && OwnsFrames(vm, root) && p.Pt?
    ensures
      var f := AsSet(FrameAt(vm, root, VpnAt(p, l)));
      && Region(vm, root, p, l + 1) == Region(vm, root, p, l) + f
      && Region(vm, root, p, l) !! f
  {
    var v := VpnAt(p, l);
    var f := AsSet(FrameAt(vm, root, v));
    ThroughLeaf(AtFrame(v), p, l);
    forall x: nat | x < |vm.bits|
      ensures InRegion(vm, root, p, l + 1, x) <==> InRegion(vm, root, p, l, x) || x in f
      ensures !(InRegion(vm, root, p, l, x) && x in f)
    {
      if m: Node, idx: Ix :| idx < l + 1 && Through(m, p, idx) && PageAt(vm, root, m) == Some(x) {
        if idx == l { ThroughLeaf(m, p, l); }
      }
      if x in f {
        assert PageAt(vm, root, AtFrame(v)) == Some(x);
        if m: Node, idx: Ix :| idx < l && Through(m, p, idx) && PageAt(vm, root, m) == Some(x) {
          PageAtDistinct(vm, root, m, AtFrame(v), x);
          ThroughUnique(m, p, l, idx);
        }
      }
    }
  }

  /** The table at `p` is not among the pages below it. */
  lemma TableNotBelow(vm: Vm, root: nat, p: Path)
    requires WellFormed(vm, root) && OwnsFrames(vm, root) && TableAt(vm, root, p).Some?
    ensures TableAt(vm, root, p).value !in Region(vm, root, p, 512)
  {
    var t := TableAt(vm, root, p).value;
    if InRegion(vm, root, p, 512, t) {
      var m: Node, idx: Ix :| idx < 512 && Through(m, p, idx) && PageAt(vm, root, m) == Some(t);
      PageAtDistinct(vm, root, m, AtTable(p), t);
      PassesIsBelow(p, p, idx);
    }
  }

  lemma {:induction false} PassesRoot(q: Path)
    requires !q.Root?
    ensures exists idx: Ix :: idx < 256 && Passes(q, Root, idx)
    decreases Level(q)
  {
    if Parent(q).Root? {
      assert Passes(q, Root, Last(q));
    } else {
      PassesRoot(Parent(q));
      var idx: Ix :| idx < 256 && Passes(Parent(q), Root, idx);
      assert Passes(q, Root, idx);
    }
  }

  /** The root and everything through its first 256 entries is exactly what the space owns. */
  lemma RegionRootIsOwned(vm: Vm, root: nat)
    requires WellFormed(vm, root) && OwnsFrames(vm, root)
    ensures Owned(vm, root) == Region(vm, root, Root, 256) + {root}
    ensures root !in Region(vm, root, Root, 256)
  {
    assert TableAt(vm, root, Root) == Some(root);
    TableNotBelow(vm, root, Root);
    forall x: nat | x < |vm.bits|
      ensures InRegion(vm, root, Root, 256, x) || x == root <==> IsTable(vm, root, x) || IsFrame(vm, root, x)
      ensures InRegion(vm, root, Root, 256, x) ==> InRegion(vm, root, Root, 512, x)
    {
      if q: Path :| TableAt(vm, root, q) == Some(x) {
        if q.Root? {} else {
          PassesRoot(q);
          var idx: Ix :| idx < 256 && Passes(q, Root, idx);
          assert Through(AtTable(q), Root, idx) && PageAt(vm, root, AtTable(q)) == Some(x);
        }
      }
      if v: Vpn :| FrameAt(vm, root, v) == Some(x) {
        PassesRoot(PtOf(v));
        var idx: Ix :| idx < 256 && Passes(PtOf(v), Root, idx);
        assert Through(AtFrame(v), Root, idx) && PageAt(vm, root, AtFrame(v)) == Some(x);
      }
      if m: Node, idx: Ix :| idx < 256 && Through(m, Root, idx) && PageAt(vm, root, m) == Some(x) {
        match m
        case AtTable(q) => assert IsTable(vm, root, x);
        case AtFrame(v) => assert IsFrame(vm, root, x);
      }
    }
  }
}

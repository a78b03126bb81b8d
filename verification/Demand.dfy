/**
 * How many pages it takes to back a set of virtual pages, counted in the state before, and what
 * becomes of a walk over pages that backs each unmapped one with a fresh page: the common part of
 * mmap (kernel/syscall.c:482-497) and of the page loop of exec (kernel/syscall.c:313-321).
 */
module Demand {
  import opened Options
  import opened PageBits
  import opened PageTables
  import opened AddressSpaces
  import opened Sets

  // ----- Tables on the way to a page -----

  ghost function Absent(vm: Vm, root: nat, p: Path): set<Path> {
    set q | q in WayTo(p) && TableAt(vm, root, q).None?
  }

  lemma {:induction false} WayIsShallow(p: Path, q: Path)
    requires q in WayTo(p)
    ensures 0 < Level(q) <= Level(p)
    decreases Level(p)
  {
    if q != p {
      WayIsShallow(Parent(p), q);
    }
  }

  lemma {:induction false} WayExists(vm: Vm, root: nat, p: Path, q: Path)
    requires TableAt(vm, root, p).Some? && q in WayTo(p)
    ensures TableAt(vm, root, q).Some?
    decreases Level(p)
  {
    if q != p {
      ParentExists(vm, root, p);
      WayExists(vm, root, Parent(p), q);
    }
  }

  /** The missing tables of a page, as a count and as a set. */
  lemma {:induction false} MissingIsAbsent(vm: Vm, root: nat, p: Path)
    ensures MissingTables(vm, root, p) == |Absent(vm, root, p)|
    decreases Level(p)
  {
    if p.Root? {
      assert Absent(vm, root, p) == {};
    } else if TableAt(vm, root, p).Some? {
      forall q | q in WayTo(p)
        ensures TableAt(vm, root, q).Some?
      {
        WayExists(vm, root, p, q);
      }
      assert Absent(vm, root, p) == {};
    } else {
      MissingIsAbsent(vm, root, Parent(p));
      var rest := Absent(vm, root, Parent(p));
      if p in rest {
        WayIsShallow(Parent(p), p);
      }
      assert Absent(vm, root, p) == rest + {p};
    }
  }

  // ----- The pages a set of virtual pages needs -----

  ghost function Unmapped(vm: Vm, root: nat, pages: set<Vpn>): set<Vpn> {
    set w | w in pages && FrameAt(vm, root, w).None?
  }

  /** The tables that the pages lack, each counted once. */
  ghost function Lacking(vm: Vm, root: nat, pages: set<Vpn>): set<Path> {
    set w, q | w in pages && q in WayTo(PtOf(w)) && TableAt(vm, root, q).None? :: q
  }

  ghost function Need(vm: Vm, root: nat, pages: set<Vpn>): nat {
    |Unmapped(vm, root, pages)| + |Lacking(vm, root, pages)|
  }

  lemma NeedMonotone(vm: Vm, root: nat, few: set<Vpn>, many: set<Vpn>)
    requires few <= many
    ensures Need(vm, root, few) <= Need(vm, root, many)
  {
    SubsetSize(Unmapped(vm, root, few), Unmapped(vm, root, many));
    SubsetSize(Lacking(vm, root, few), Lacking(vm, root, many));
  }

  lemma NeedGrows(vm: Vm, root: nat, pages: set<Vpn>, w: Vpn)
    requires FrameAt(vm, root, w).None? && w !in pages
    ensures Need(vm, root, pages) < Need(vm, root, pages + {w})
  {
    UnmappedMore(vm, root, pages, w);
    SubsetSize(Lacking(vm, root, pages), Lacking(vm, root, pages + {w}));
  }

  lemma UnmappedMore(vm: Vm, root: nat, pages: set<Vpn>, w: Vpn)
    requires FrameAt(vm, root, w).None? && w !in pages
    ensures |Unmapped(vm, root, pages + {w})| == |Unmapped(vm, root, pages)| + 1
  {
    assert Unmapped(vm, root, pages + {w}) == Unmapped(vm, root, pages) + {w};
  }

  /** A page lacks all the tables on its way in a space that has none. */
  lemma LackingAll(vm: Vm, root: nat, w: Vpn)
    requires forall p: Path :: !p.Root? ==> TableAt(vm, root, p).None?
    ensures Lacking(vm, root, {w}) == WayTo(PtOf(w))
  {
    forall q
      ensures q in Lacking(vm, root, {w}) <==> q in WayTo(PtOf(w))
    {
      if q in WayTo(PtOf(w)) {
        WayIsShallow(PtOf(w), q);
        assert w in {w};
      }
    }
  }

  ghost predicate OnSomeWay(pages: set<Vpn>, q: Path) {
    exists w :: w in pages && q in WayTo(PtOf(w))
  }

  /** `vm` has the tables of `vm0` and those on the way to `pages`. */
  ghost predicate HasWays(vm0: Vm, vm: Vm, root: nat, pages: set<Vpn>) {
    forall q :: TableAt(vm, root, q).Some? <==> TableAt(vm0, root, q).Some? || OnSomeWay(pages, q)
  }

  /** `vm` is `vm0` with all of `pages` backed, at the cost `Need` gives. */
  ghost predicate Backs(vm0: Vm, vm: Vm, root: nat, pages: set<Vpn>) {
    && (forall w: Vpn :: FrameAt(vm, root, w).Some? <==> FrameAt(vm0, root, w).Some? || w in pages)
    && HasWays(vm0, vm, root, pages)
    && FreeCount(vm.bits) + Need(vm0, root, pages) == FreeCount(vm0.bits)
  }

  lemma MappedHasTable(vm: Vm, root: nat, w: Vpn)
    requires FrameAt(vm, root, w).Some?
    ensures forall q :: q in WayTo(PtOf(w)) ==> TableAt(vm, root, q).Some?
  {
    forall q | q in WayTo(PtOf(w))
      ensures TableAt(vm, root, q).Some?
    {
      WayExists(vm, root, PtOf(w), q);
    }
  }

  /** One more page needs nothing if it is backed already, and otherwise itself and its missing tables. */
  lemma NeedOneMore(vm0: Vm, vm: Vm, root: nat, pages: set<Vpn>, w: Vpn)
    requires Backs(vm0, vm, root, pages)
    ensures Need(vm0, root, pages + {w}) ==
            Need(vm0, root, pages) + if FrameAt(vm, root, w).Some? then 0 else 1 + Missing(vm, root, w)
  {
    var more := pages + {w};
    if w in pages {
      assert more == pages;
    } else if FrameAt(vm0, root, w).Some? {
      MappedHasTable(vm0, root, w);
      assert Unmapped(vm0, root, more) == Unmapped(vm0, root, pages);
      assert Lacking(vm0, root, more) == Lacking(vm0, root, pages);
    } else {
      assert Unmapped(vm0, root, more) == Unmapped(vm0, root, pages) + {w};
      LackingOneMore(vm0, vm, root, pages, w);
      MissingIsAbsent(vm, root, PtOf(w));
    }
  }

  lemma LackingOneMore(vm0: Vm, vm: Vm, root: nat, pages: set<Vpn>, w: Vpn)
    requires HasWays(vm0, vm, root, pages)
    ensures |Lacking(vm0, root, pages + {w})| == |Lacking(vm0, root, pages)| + |Absent(vm, root, PtOf(w))|
  {
    var was, gained := Lacking(vm0, root, pages), Absent(vm, root, PtOf(w));
    forall q
      ensures q in Lacking(vm0, root, pages + {w}) <==> q in was || q in gained
      ensures !(q in was && q in gained)
    {
      assert OnSomeWay(pages, q) && TableAt(vm0, root, q).None? <==> q in was;
    }
    assert Lacking(vm0, root, pages + {w}) == was + gained;
  }

  // ----- A tour that backs pages one by one -----

  ghost function Visited(tour: seq<Vpn>): set<Vpn> {
    set w | w in tour
  }

  ghost function NeedOf(vm: Vm, root: nat, tour: seq<Vpn>): nat {
    Need(vm, root, Visited(tour))
  }

  lemma VisitedMore(tour: seq<Vpn>, w: Vpn)
    ensures Visited(tour + [w]) == Visited(tour) + {w}
  {
  }

  lemma NeedOfPrefix(vm: Vm, root: nat, tour: seq<Vpn>, i: nat, j: nat)
    requires i <= j <= |tour|
    ensures NeedOf(vm, root, tour[..i]) <= NeedOf(vm, root, tour[..j])
  {
    assert tour[..i] == tour[..j][..i];
    NeedMonotone(vm, root, Visited(tour[..i]), Visited(tour[..j]));
  }

  /** What a caller can tell beforehand: the free pages run out on the tables of the `k`-th page of the tour,
      a first visit to an unmapped page, and every later page is mapped or was visited before. */
  ghost predicate LosesPage(vm0: Vm, root: nat, tour: seq<Vpn>, k: int) {
    && 0 <= k < |tour| && FrameAt(vm0, root, tour[k]).None? && tour[k] !in tour[..k]
    && NeedOf(vm0, root, tour[..k]) < FreeCount(vm0.bits) < NeedOf(vm0, root, tour[..k + 1])
    && (forall i :: k < i < |tour| ==> FrameAt(vm0, root, tour[i]).Some? || tour[i] in tour[..k])
  }

  /** The free pages have run out on page `tour[k]`, which stays unmapped. */
  ghost predicate Stranded(vm0: Vm, vm: Vm, root: nat, tour: seq<Vpn>, k: int) {
    && LosesPage(vm0, root, tour, k)
    && FreeCount(vm.bits) == 0
    && (forall w: Vpn :: FrameAt(vm, root, w).Some? <==> FrameAt(vm0, root, w).Some? || w in tour[..k])
  }

  /** After the tour so far: `k` is -1 and every page is backed, or the `k`-th page was lost. */
  ghost predicate Toured(vm0: Vm, vm: Vm, root: nat, tour: seq<Vpn>, k: int) {
    if k < 0 then Backs(vm0, vm, root, Visited(tour)) else Stranded(vm0, vm, root, tour, k)
  }

  lemma TourStart(vm: Vm, root: nat)
    ensures Toured(vm, vm, root, [], -1)
  {
    assert Unmapped(vm, root, Visited([])) == {} && Lacking(vm, root, Visited([])) == {};
  }

  /** A page that is backed already costs nothing. */
  lemma TourMapped(vm0: Vm, vm: Vm, root: nat, tour: seq<Vpn>, k: int, w: Vpn)
    requires Toured(vm0, vm, root, tour, k) && FrameAt(vm, root, w).Some?
    ensures Toured(vm0, vm, root, tour + [w], k)
  {
    var more := tour + [w];
    VisitedMore(tour, w);
    if k < 0 {
      NeedOneMore(vm0, vm, root, Visited(tour), w);
      SameWays(vm0, vm, root, Visited(tour), w);
    } else {
      assert more[..k] == tour[..k] && more[..k + 1] == tour[..k + 1] && more[k] == tour[k];
      forall i | k < i < |more|
        ensures FrameAt(vm0, root, more[i]).Some? || more[i] in more[..k]
      {
        assert i < |tour| ==> more[i] == tour[i];
      }
    }
  }

  lemma SameWays(vm0: Vm, vm: Vm, root: nat, pages: set<Vpn>, w: Vpn)
    requires HasWays(vm0, vm, root, pages) && FrameAt(vm, root, w).Some?
    ensures HasWays(vm0, vm, root, pages + {w})
  {
    MappedHasTable(vm, root, w);
    MoreWays(pages, w);
  }

  lemma MoreWays(pages: set<Vpn>, w: Vpn)
    ensures forall q :: OnSomeWay(pages + {w}, q) <==> OnSomeWay(pages, q) || q in WayTo(PtOf(w))
  {
    forall q
      ensures OnSomeWay(pages + {w}, q) <==> OnSomeWay(pages, q) || q in WayTo(PtOf(w))
    {
      if OnSomeWay(pages, q) {
        var u :| u in pages && q in WayTo(PtOf(u));
        assert u in pages + {w};
      }
      if q in WayTo(PtOf(w)) {
        assert w in pages + {w};
      }
    }
  }

  /** A fresh map that gets its page either backs `w` or strands the tour there. */
  lemma TourFresh(vm0: Vm, vm: Vm, vm': Vm, page: Option<nat>, root: nat, tour: seq<Vpn>, k: int, w: Vpn)
      returns (k': int)
    requires Toured(vm0, vm, root, tour, k) && FrameAt(vm, root, w).None?
    requires MapsOne(vm, vm', page, root, w) && page.Some?
    requires FreeCount(vm.bits) >= 1 + Missing(vm, root, w) ==> GainsTables(vm, vm', root, PtOf(w))
    ensures k < 0
    ensures Toured(vm0, vm', root, tour + [w], k')
    ensures k' == if FreeCount(vm.bits) >= 1 + Missing(vm, root, w) then -1 else |tour|
  {
    if FreeCount(vm.bits) >= 1 + Missing(vm, root, w) {
      k' := -1;
      TourBacked(vm0, vm, vm', page, root, tour, w);
    } else {
      k' := |tour|;
      TourStranded(vm0, vm, vm', page, root, tour, w);
    }
  }

  lemma TourBacked(vm0: Vm, vm: Vm, vm': Vm, page: Option<nat>, root: nat, tour: seq<Vpn>, w: Vpn)
    requires Backs(vm0, vm, root, Visited(tour)) && FrameAt(vm, root, w).None?
    requires MapsOne(vm, vm', page, root, w) && page.Some? && FreeCount(vm.bits) >= 1 + Missing(vm, root, w)
    requires GainsTables(vm, vm', root, PtOf(w))
    ensures Backs(vm0, vm', root, Visited(tour + [w]))
  {
    VisitedMore(tour, w);
    NeedOneMore(vm0, vm, root, Visited(tour), w);
    MoreWays(Visited(tour), w);
  }

  lemma TourStranded(vm0: Vm, vm: Vm, vm': Vm, page: Option<nat>, root: nat, tour: seq<Vpn>, w: Vpn)
    requires Backs(vm0, vm, root, Visited(tour)) && FrameAt(vm, root, w).None?
    requires MapsOne(vm, vm', page, root, w) && page.Some? && FreeCount(vm.bits) < 1 + Missing(vm, root, w)
    ensures Stranded(vm0, vm', root, tour + [w], |tour|)
  {
    VisitedMore(tour, w);
    NeedOneMore(vm0, vm, root, Visited(tour), w);
    LosesLast(vm0, root, tour, w);
    assert (tour + [w])[..|tour|] == tour;
  }

  lemma LosesLast(vm: Vm, root: nat, tour: seq<Vpn>, w: Vpn)
    requires FrameAt(vm, root, w).None? && w !in tour
    requires NeedOf(vm, root, tour) < FreeCount(vm.bits) < NeedOf(vm, root, tour + [w])
    ensures LosesPage(vm, root, tour + [w], |tour|)
  {
    var more, k := tour + [w], |tour|;
    assert more[..k] == tour && more[..k + 1] == more && more[k] == w;
  }

  /** When no page can be had for an unmapped page, the whole tour is beyond what the free pages allow:
      they do not cover it, and it is not one that only loses a page. */
  lemma TourFails(vm0: Vm, vm: Vm, root: nat, tour: seq<Vpn>, j: nat, k: int)
    requires j < |tour| && Toured(vm0, vm, root, tour[..j], k)
    requires FrameAt(vm, root, tour[j]).None? && FreeCount(vm.bits) == 0
    ensures FreeCount(vm0.bits) < NeedOf(vm0, root, tour)
    ensures forall i :: !LosesPage(vm0, root, tour, i)
  {
    hide Toured, LosesPage, NeedOf;
    Shortfall(vm0, vm, root, tour, j, k);
    NoOtherLoss(vm0, root, tour, if k < 0 then j else k);
  }

  lemma NoOtherLoss(vm0: Vm, root: nat, tour: seq<Vpn>, b: nat)
    requires b < |tour| && !LosesPage(vm0, root, tour, b)
    requires NeedOf(vm0, root, tour[..b]) <= FreeCount(vm0.bits) < NeedOf(vm0, root, tour[..b + 1])
    ensures FreeCount(vm0.bits) < NeedOf(vm0, root, tour)
    ensures forall i :: !LosesPage(vm0, root, tour, i)
  {
    NeedOfPrefix(vm0, root, tour, b + 1, |tour|);
    assert tour[..|tour|] == tour;
    forall i
      ensures !LosesPage(vm0, root, tour, i)
    {
      if 0 <= i < b {
        NeedOfPrefix(vm0, root, tour, i + 1, b);
      } else if b < i < |tour| {
        NeedOfPrefix(vm0, root, tour, b + 1, i);
      }
    }
  }

  /** Where the pages ran out: before the `b`-th page there were enough, with it there are not. */
  lemma Shortfall(vm0: Vm, vm: Vm, root: nat, tour: seq<Vpn>, j: nat, k: int)
    requires j < |tour| && Toured(vm0, vm, root, tour[..j], k)
    requires FrameAt(vm, root, tour[j]).None? && FreeCount(vm.bits) == 0
    ensures var b := if k < 0 then j else k;
            && b < |tour|
            && NeedOf(vm0, root, tour[..b]) <= FreeCount(vm0.bits) < NeedOf(vm0, root, tour[..b + 1])
            && !LosesPage(vm0, root, tour, b)
  {
    if k < 0 {
      assert tour[..j + 1] == tour[..j] + [tour[j]];
      ShortOfOneMore(vm0, vm, root, tour[..j], tour[j]);
    } else {
      StrandedBefore(vm0, vm, root, tour, j, k);
    }
  }

  /** A tour stranded at page `k` cannot get past a later page that is neither mapped nor visited before. */
  lemma StrandedBefore(vm0: Vm, vm: Vm, root: nat, tour: seq<Vpn>, j: nat, k: nat)
    requires j < |tour| && Stranded(vm0, vm, root, tour[..j], k) && FrameAt(vm, root, tour[j]).None?
    ensures k < j
    ensures NeedOf(vm0, root, tour[..k]) <= FreeCount(vm0.bits) < NeedOf(vm0, root, tour[..k + 1])
    ensures !LosesPage(vm0, root, tour, k)
  {
    assert tour[..j][..k] == tour[..k] && tour[..j][..k + 1] == tour[..k + 1];
    assert tour[j] !in tour[..k] && FrameAt(vm0, root, tour[j]).None?;
  }

  lemma ShortOfOneMore(vm0: Vm, vm: Vm, root: nat, tour: seq<Vpn>, w: Vpn)
    requires Backs(vm0, vm, root, Visited(tour)) && FrameAt(vm, root, w).None? && FreeCount(vm.bits) == 0
    ensures NeedOf(vm0, root, tour) == FreeCount(vm0.bits) < NeedOf(vm0, root, tour + [w])
  {
    VisitedMore(tour, w);
    NeedOneMore(vm0, vm, root, Visited(tour), w);
  }

  /** The two ways to get through a tour exclude each other, and a tour got through is one of them. */
  lemma TourEnds(vm0: Vm, vm: Vm, root: nat, tour: seq<Vpn>, k: int)
    requires Toured(vm0, vm, root, tour, k)
    ensures k < 0 <==> FreeCount(vm0.bits) >= NeedOf(vm0, root, tour)
    ensures k >= 0 ==> LosesPage(vm0, root, tour, k)
    ensures forall i :: LosesPage(vm0, root, tour, i) ==> i == k
  {
    assert tour[..|tour|] == tour;
    forall i | LosesPage(vm0, root, tour, i)
      ensures i == k
    {
      NeedOfPrefix(vm0, root, tour, i + 1, |tour|);
      if k >= 0 {
        if i < k {
          NeedOfPrefix(vm0, root, tour, i + 1, k);
        } else if i > k {
          NeedOfPrefix(vm0, root, tour, k + 1, i);
        }
      }
    }
    if k >= 0 {
      NeedOfPrefix(vm0, root, tour, k + 1, |tour|);
    }
  }

  /** How far along the tour the free pages reach. */
  ghost function Reach(vm: Vm, root: nat, tour: seq<Vpn>, n: nat := |tour|): (b: nat)
    requires n <= |tour|
    ensures b <= n && NeedOf(vm, root, tour[..b]) <= FreeCount(vm.bits)
    ensures forall k :: b < k <= n ==> FreeCount(vm.bits) < NeedOf(vm, root, tour[..k])
  {
    if n == 0 then
      NeedOfNone(vm, root);
      0
    else if NeedOf(vm, root, tour[..n]) <= FreeCount(vm.bits) then n
    else Reach(vm, root, tour, n - 1)
  }

  lemma NeedOfNone(vm: Vm, root: nat)
    ensures NeedOf(vm, root, []) == 0
  {
    assert Unmapped(vm, root, Visited([])) == {} && Lacking(vm, root, Visited([])) == {};
  }

  lemma ReachIs(vm: Vm, root: nat, tour: seq<Vpn>, b: nat)
    requires b <= |tour| && NeedOf(vm, root, tour[..b]) <= FreeCount(vm.bits)
    requires b < |tour| ==> FreeCount(vm.bits) < NeedOf(vm, root, tour[..b + 1])
    ensures Reach(vm, root, tour) == b
  {
    var c := Reach(vm, root, tour);
    if b < c { NeedOfPrefix(vm, root, tour, b + 1, c); }
  }

  // ----- A space that is short of pages -----

  lemma WayToPt(p: Path)
    requires p.Pt?
    ensures |WayTo(p)| == 3
  {
    assert WayTo(Root) == {};
    assert WayTo(Pdpt(p.i)) == {Pdpt(p.i)};
    assert WayTo(Pd(p.i, p.j)) == {Pdpt(p.i), Pd(p.i, p.j)};
    assert WayTo(p) == {Pdpt(p.i), Pd(p.i, p.j), p};
  }

  /** In a space without tables one page takes four. */
  lemma OnePageNeed(vm: Vm, root: nat, w: Vpn)
    requires forall p: Path :: !p.Root? ==> TableAt(vm, root, p).None?
    ensures FrameAt(vm, root, w).None? && NeedOf(vm, root, []) == 0 && NeedOf(vm, root, [w]) == 4
  {
    assert TableAt(vm, root, PtOf(w)).None?;
    assert Visited([]) == {} && Visited([w]) == {w};
    assert Unmapped(vm, root, {}) == {} && Lacking(vm, root, {}) == {};
    assert Unmapped(vm, root, {w}) == {w};
    WayToPt(PtOf(w));
    LackingAll(vm, root, w);
  }

  /** Three pages, of which page 1 becomes the root and page 2 is left. */
  ghost function SmallMachine(): (Vm, nat) {
    CreateSpace(Vm([true, false, false], seq(3, _ => ZeroTable()), seq(3, _ => ZeroBytes())), 0)
  }

  lemma SmallMachineState()
    ensures
      var (vm0, root) := SmallMachine();
      && WellFormed(vm0, root) && OwnsFrames(vm0, root) && FreeCount(vm0.bits) == 1
      && forall p: Path :: !p.Root? ==> TableAt(vm0, root, p).None?
  {
    var start := Vm([true, false, false], seq(3, _ => ZeroTable()), seq(3, _ => ZeroBytes()));
    var (vm0, root) := SmallMachine();
    assert 1 in FreeSet(start.bits);
    CreateAccounted(start, 0);
    forall p: Path | !p.Root?
      ensures TableAt(vm0, root, p).None?
    {
      NoTableBelow(vm0, root, p);
    }
    assert FirstFree(start.bits, 1) == 1 && vm0.bits == [true, true, false];
    assert FreeSet(vm0.bits) == {2};
  }

  lemma NoTableBelow(vm: Vm, root: nat, p: Path)
    requires Owned(vm, root) == {root} && WellFormed(vm, root) && !p.Root?
    ensures TableAt(vm, root, p).None?
  {
    assert TableAt(vm, root, Root) == Some(root);
    if TableAt(vm, root, p).Some? {
      assert IsTable(vm, root, TableAt(vm, root, p).value);
      assert TableAt(vm, root, p).value in Owned(vm, root);
    }
  }
}

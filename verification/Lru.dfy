/** The replacement policy of the cluster cache, against the request history. */
module Lru {
  import opened Sets

  const AGE_MAX: nat := 0xFFFF_FFFF
  /** The clock and the ages are 32-bit words. */
  const WORD32: nat := 0x1_0000_0000

  /** Cluster number, time of last request and validity of one cache entry. */
  datatype Slot = Slot(cluster: nat, age: nat, valid: bool)

  predicate Holds(s: Slot, c: nat) {
    s.valid && s.cluster == c
  }

  /** First valid slot with cluster `c`, or the number of slots. */
  function Find(slots: seq<Slot>, c: nat, i: nat := 0): (r: nat)
    requires i <= |slots|
    ensures i <= r <= |slots|
    ensures r < |slots| ==> Holds(slots[r], c)
    ensures forall j :: i <= j < r ==> !Holds(slots[j], c)
    decreases |slots| - i
  {
    if i == |slots| || Holds(slots[i], c) then i else Find(slots, c, i + 1)
  }

  /** The search for an entry to replace: the first invalid one, else the first of least age below
      the initial bound. */
  function Victim(slots: seq<Slot>, i: nat := 0, best: nat := 0, bestAge: nat := AGE_MAX): (r: nat)
    requires i <= |slots| && best < |slots|
    ensures r < |slots|
    decreases |slots| - i
  {
    if i == |slots| then best
    else if !slots[i].valid then i
    else if slots[i].age < bestAge then Victim(slots, i + 1, i, slots[i].age)
    else Victim(slots, i + 1, best, bestAge)
  }

  /** A request for cluster `c` when the clock shows `clock`, which then wraps or goes on by one. */
  function Touch(slots: seq<Slot>, clock: nat, c: nat): (r: seq<Slot>)
    requires |slots| > 0
    ensures |r| == |slots|
  {
    var f := Find(slots, c);
    var at := if f < |slots| then f else Victim(slots);
    slots[at := Slot(c, (clock + 1) % WORD32, true)]
  }

  /** The cache after the requests of `h`, from `n` empty entries. */
  function After(n: nat, h: seq<nat>): (r: seq<Slot>)
    requires n > 0
    ensures |r| == n
  {
    if h == [] then seq(n, _ => Slot(0, 0, false))
    else Touch(After(n, h[..|h| - 1]), |h| - 1, h[|h| - 1])
  }

  predicate Unique(slots: seq<Slot>) {
    forall i, j :: 0 <= i < j < |slots| && slots[i].valid && slots[j].valid ==> slots[i].cluster != slots[j].cluster
  }

  ghost function Cached(slots: seq<Slot>): set<nat> {
    set i | 0 <= i < |slots| && slots[i].valid :: slots[i].cluster
  }

  lemma CachedMember(slots: seq<Slot>, c: nat)
    ensures c in Cached(slots) <==> Find(slots, c) < |slots|
  {
    var f := Find(slots, c);
    if f < |slots| { assert slots[f].cluster == c; }
  }

  // ---- The history ----

  /** Position of the last request for `c`, or -1. */
  function Last(h: seq<nat>, c: nat): (r: int)
    ensures -1 <= r < |h|
    ensures r >= 0 ==> h[r] == c
    ensures r >= 0 <==> c in h
  {
    if h == [] then -1 else if h[|h| - 1] == c then |h| - 1 else
      assert h == h[..|h| - 1] + [h[|h| - 1]];
      Last(h[..|h| - 1], c)
  }

  /** The distinct clusters requested since the last request for `c`. */
  ghost function Newer(h: seq<nat>, c: nat): set<nat> {
    set d | d in h && Last(h, d) > Last(h, c)
  }

  /** Among the `n` most recently requested distinct clusters. */
  ghost predicate Recent(n: nat, h: seq<nat>, c: nat) {
    c in h && |Newer(h, c)| < n
  }

  lemma LastSnoc(h: seq<nat>, x: nat, c: nat)
    ensures Last(h + [x], c) == if c == x then |h| else Last(h, c)
    ensures c in h + [x] <==> c == x || c in h
  {
    assert (h + [x])[..|h|] == h;
  }

  lemma NewerSnoc(h: seq<nat>, x: nat, c: nat)
    requires c in h && c != x
    ensures Newer(h + [x], c) == Newer(h, c) + {x}
    ensures Newer(h + [x], x) == {}
  {
    forall d ensures d in Newer(h + [x], c) <==> d in Newer(h, c) + {x} {
      LastSnoc(h, x, d);
      LastSnoc(h, x, c);
    }
    forall d ensures d !in Newer(h + [x], x) {
      LastSnoc(h, x, d);
      LastSnoc(h, x, x);
    }
  }

  lemma LastDistinct(h: seq<nat>, c: nat, d: nat)
    requires c in h && d in h && c != d
    ensures Last(h, c) != Last(h, d)
  {
  }

  /** A more recent cluster has fewer newer ones. */
  lemma NewerNested(h: seq<nat>, c: nat, d: nat)
    requires c in h && d in Newer(h, c)
    ensures Newer(h, d) + {d} <= Newer(h, c)
    ensures |Newer(h, d)| < |Newer(h, c)|
  {
    assert d !in Newer(h, d);
    SubsetSize(Newer(h, d) + {d}, Newer(h, c));
  }

  // ---- Counting entries ----

  lemma CachedSnoc(rest: seq<Slot>, s: Slot)
    requires Unique(rest + [s])
    ensures Unique(rest)
    ensures Cached(rest + [s]) == Cached(rest) + (if s.valid then {s.cluster} else {})
    ensures s.valid ==> s.cluster !in Cached(rest)
  {
    var slots := rest + [s];
    assert forall i :: 0 <= i < |rest| ==> rest[i] == slots[i];
    assert slots[|rest|] == s;
    forall c ensures c in Cached(slots) <==> c in Cached(rest) + (if s.valid then {s.cluster} else {}) {
      if c in Cached(rest) {
        var i :| 0 <= i < |rest| && rest[i].valid && rest[i].cluster == c;
        assert slots[i].valid && slots[i].cluster == c;
      }
      if s.valid && c == s.cluster { assert slots[|rest|].valid; }
    }
  }

  predicate AllValid(slots: seq<Slot>) {
    forall i :: 0 <= i < |slots| ==> slots[i].valid
  }

  lemma CachedSnocSize(rest: seq<Slot>, s: Slot)
    requires Unique(rest + [s])
    ensures Unique(rest)
    ensures |Cached(rest + [s])| == |Cached(rest)| + if s.valid then 1 else 0
    ensures AllValid(rest + [s]) <==> AllValid(rest) && s.valid
  {
    CachedSnoc(rest, s);
    var slots := rest + [s];
    assert forall i :: 0 <= i < |rest| ==> rest[i] == slots[i];
    assert slots[|rest|] == s;
  }

  lemma {:induction false} CachedSize(slots: seq<Slot>)
    requires Unique(slots)
    ensures |Cached(slots)| <= |slots|
    ensures |Cached(slots)| == |slots| <==> AllValid(slots)
  {
    if slots == [] {
      assert Cached(slots) == {};
    } else {
      var n := |slots| - 1;
      var rest, s := slots[..n], slots[n];
      assert slots == rest + [s];
      CachedSnocSize(rest, s);
      CachedSize(rest);
    }
  }

  // ---- What the victim search finds ----

  ghost predicate IsVictim(slots: seq<Slot>, v: nat)
    requires v < |slots|
  {
    if !AllValid(slots) then !slots[v].valid
    else forall j :: 0 <= j < |slots| ==> slots[v].age <= slots[j].age
  }

  lemma {:induction false} VictimScan(slots: seq<Slot>, i: nat, best: nat, bestAge: nat)
    requires i <= |slots| && best < |slots|
    requires forall j :: 0 <= j < i ==> slots[j].valid && bestAge <= slots[j].age
    requires (i == 0 && best == 0 && bestAge == AGE_MAX) || (best < i && slots[best].age == bestAge)
    requires forall j :: 0 <= j < |slots| ==> slots[j].age <= AGE_MAX
    ensures IsVictim(slots, Victim(slots, i, best, bestAge))
    decreases |slots| - i
  {
    if i < |slots| && slots[i].valid {
      if slots[i].age < bestAge { VictimScan(slots, i + 1, i, slots[i].age); }
      else { VictimScan(slots, i + 1, best, bestAge); }
    }
  }

  // ---- Exactly the most recent clusters ----

  ghost predicate Tracks(slots: seq<Slot>, h: seq<nat>) {
    && |slots| > 0 && Unique(slots)
    && (forall i :: 0 <= i < |slots| && slots[i].valid ==>
          slots[i].cluster in h && slots[i].age == Last(h, slots[i].cluster) + 1)
    && (forall i :: 0 <= i < |slots| ==> slots[i].age <= |h|)
    && (forall c :: c in Cached(slots) <==> Recent(|slots|, h, c))
    && (AllValid(slots) || forall c :: c in h ==> c in Cached(slots))
  }

  /** Whatever was requested after a cached cluster is cached. */
  lemma NewerIsCached(slots: seq<Slot>, h: seq<nat>, c: nat)
    requires Tracks(slots, h) && c in Cached(slots)
    ensures Newer(h, c) <= Cached(slots) - {c}
  {
    forall d | d in Newer(h, c) ensures d in Cached(slots) - {c} {
      NewerNested(h, c, d);
    }
  }

  lemma CachedAfterWrite(slots: seq<Slot>, at: nat, x: nat, age: nat)
    requires at < |slots| && Unique(slots)
    requires Find(slots, x) == at || Find(slots, x) == |slots|
    ensures
      var r := slots[at := Slot(x, age, true)];
      && Unique(r)
      && Cached(r) == Cached(slots) - (if slots[at].valid then {slots[at].cluster} else {}) + {x}
  {
    var r := slots[at := Slot(x, age, true)];
    var gone := if slots[at].valid then {slots[at].cluster} else {};
    forall c ensures c in Cached(r) <==> c in Cached(slots) - gone + {x} {
      if c in Cached(r) && c != x {
        var i :| 0 <= i < |r| && r[i].valid && r[i].cluster == c;
        assert slots[i].valid && slots[i].cluster == c;
      }
      if c in Cached(slots) - gone {
        var i :| 0 <= i < |slots| && slots[i].valid && slots[i].cluster == c;
        assert r[i].valid && r[i].cluster == c;
      }
      if c == x { assert r[at].valid && r[at].cluster == x; }
    }
  }

  /** The parts of `Tracks` that concern single entries survive a request. */
  lemma AgesAfter(slots: seq<Slot>, h: seq<nat>, x: nat, at: nat)
    requires Tracks(slots, h) && at < |slots|
    requires Find(slots, x) == at || Find(slots, x) == |slots|
    ensures
      var r := slots[at := Slot(x, |h| + 1, true)];
      && (forall i :: 0 <= i < |r| && r[i].valid ==>
            r[i].cluster in h + [x] && r[i].age == Last(h + [x], r[i].cluster) + 1)
      && (forall i :: 0 <= i < |r| ==> r[i].age <= |h + [x]|)
  {
    var r := slots[at := Slot(x, |h| + 1, true)];
    forall i | 0 <= i < |r| && r[i].valid
      ensures r[i].cluster in h + [x] && r[i].age == Last(h + [x], r[i].cluster) + 1
    {
      LastSnoc(h, x, r[i].cluster);
      assert i != at ==> r[i] == slots[i] && r[i].cluster != x;
    }
  }

  /** A request for a cached cluster: the same clusters are recent. */
  lemma HitKeepsRecent(slots: seq<Slot>, h: seq<nat>, x: nat, c: nat)
    requires Tracks(slots, h) && x in Cached(slots)
    ensures Recent(|slots|, h + [x], c) <==> c in Cached(slots)
  {
    LastSnoc(h, x, c);
    if c == x {
      NewerOfLast(h, x);
    } else if c in h {
      NewerSnoc(h, x, c);
      if x !in Newer(h, c) {
        LastDistinct(h, x, c);
        assert c in Newer(h, x);
        NewerNested(h, x, c);
      } else {
        assert Newer(h, c) + {x} == Newer(h, c);
      }
    }
  }

  lemma NewerOfLast(h: seq<nat>, x: nat)
    ensures Newer(h + [x], x) == {}
  {
    forall d ensures d !in Newer(h + [x], x) {
      LastSnoc(h, x, d);
      LastSnoc(h, x, x);
    }
  }

  /** A miss with room left: every cluster ever requested stays cached. */
  lemma RoomKeepsRecent(slots: seq<Slot>, h: seq<nat>, x: nat, c: nat)
    requires Tracks(slots, h) && x !in Cached(slots) && !AllValid(slots)
    ensures Recent(|slots|, h + [x], c) <==> c in Cached(slots) + {x}
  {
    LastSnoc(h, x, c);
    if c == x {
      NewerOfLast(h, x);
    } else if c in h {
      NewerSnoc(h, x, c);
      NewerIsCached(slots, h, c);
      CachedSize(slots);
      SubsetSize(Newer(h, c), Cached(slots) - {c});
    }
  }

  /** A miss in a full cache: exactly the least recently requested cluster stops being recent. */
  lemma EvictionKeepsRecent(slots: seq<Slot>, h: seq<nat>, x: nat, v: nat, c: nat)
    requires Tracks(slots, h) && x !in Cached(slots) && AllValid(slots)
    requires v < |slots| && IsVictim(slots, v)
    ensures Recent(|slots|, h + [x], c) <==> c in Cached(slots) - {slots[v].cluster} + {x}
  {
    var oldest := slots[v].cluster;
    LastSnoc(h, x, c);
    assert oldest in Cached(slots) by { assert slots[v].valid; }
    CachedSize(slots);
    if c == x {
      NewerOfLast(h, x);
    } else if c in h {
      NewerSnoc(h, x, c);
      if c in Cached(slots) {
        NewerIsCached(slots, h, c);
        assert x !in Newer(h, c);
        if c == oldest {
          OldestHasAllNewer(slots, h, v);
        } else {
          VictimIsOlder(slots, h, v, c);
          SubsetSize(Newer(h, c), Cached(slots) - {c} - {oldest});
        }
      } else {
        SubsetSize(Newer(h, c), Newer(h, c) + {x});
      }
    }
  }

  lemma VictimIsOlder(slots: seq<Slot>, h: seq<nat>, v: nat, c: nat)
    requires Tracks(slots, h) && AllValid(slots) && v < |slots| && IsVictim(slots, v)
    requires c in Cached(slots) && c != slots[v].cluster
    ensures Last(h, slots[v].cluster) < Last(h, c)
  {
    var i :| 0 <= i < |slots| && slots[i].valid && slots[i].cluster == c;
    LastDistinct(h, slots[v].cluster, c);
  }

  lemma OldestHasAllNewer(slots: seq<Slot>, h: seq<nat>, v: nat)
    requires Tracks(slots, h) && AllValid(slots) && v < |slots| && IsVictim(slots, v)
    ensures Newer(h, slots[v].cluster) == Cached(slots) - {slots[v].cluster}
  {
    var oldest := slots[v].cluster;
    assert slots[v].valid;
    NewerIsCached(slots, h, oldest);
    forall d | d in Cached(slots) - {oldest} ensures d in Newer(h, oldest) {
      VictimIsOlder(slots, h, v, d);
    }
  }

  lemma TouchTracks(slots: seq<Slot>, h: seq<nat>, x: nat)
    requires Tracks(slots, h) && |h| < AGE_MAX
    ensures Tracks(Touch(slots, |h|, x), h + [x])
  {
    hide Last, Recent, Victim;
    var f := Find(slots, x);
    var at := if f < |slots| then f else Victim(slots);
    var r := slots[at := Slot(x, |h| + 1, true)];
    assert Touch(slots, |h|, x) == r;
    AgesAfter(slots, h, x, at);
    CachedAfterWrite(slots, at, x, |h| + 1);
    forall c ensures c in Cached(r) <==> Recent(|r|, h + [x], c) {
      TouchKeepsRecent(slots, h, x, at, c);
    }
    if !AllValid(r) { RoomKeepsAll(slots, h, x, at, r); }
  }

  /** Unless the cache is full, the entry written is invalid or holds the cluster already. */
  lemma RoomIsUsed(slots: seq<Slot>, h: seq<nat>, x: nat, at: nat)
    requires Tracks(slots, h) && |h| < AGE_MAX && !AllValid(slots)
    requires at == if Find(slots, x) < |slots| then Find(slots, x) else Victim(slots)
    ensures slots[at].valid ==> slots[at].cluster == x
  {
    VictimScan(slots, 0, 0, AGE_MAX);
  }

  /** Whichever way the request goes, the cached clusters are the recent ones. */
  lemma TouchKeepsRecent(slots: seq<Slot>, h: seq<nat>, x: nat, at: nat, c: nat)
    requires Tracks(slots, h) && |h| < AGE_MAX
    requires at == if Find(slots, x) < |slots| then Find(slots, x) else Victim(slots)
    ensures Recent(|slots|, h + [x], c) <==>
              c in Cached(slots) - (if slots[at].valid then {slots[at].cluster} else {}) + {x}
  {
    CachedMember(slots, x);
    if Find(slots, x) < |slots| {
      HitKeepsRecent(slots, h, x, c);
    } else {
      VictimScan(slots, 0, 0, AGE_MAX);
      if AllValid(slots) { EvictionKeepsRecent(slots, h, x, at, c); } else { RoomKeepsRecent(slots, h, x, c); }
    }
  }

  lemma RoomKeepsAll(slots: seq<Slot>, h: seq<nat>, x: nat, at: nat, r: seq<Slot>)
    requires Tracks(slots, h) && |h| < AGE_MAX
    requires at == if Find(slots, x) < |slots| then Find(slots, x) else Victim(slots)
    requires r == slots[at := Slot(x, |h| + 1, true)] && !AllValid(r)
    requires Cached(r) == Cached(slots) - (if slots[at].valid then {slots[at].cluster} else {}) + {x}
    ensures forall c :: c in h + [x] ==> c in Cached(r)
  {
    var i :| 0 <= i < |r| && !r[i].valid;
    assert !slots[i].valid;
    RoomIsUsed(slots, h, x, at);
  }

  /** In runs of requests alone, before the clock wraps, the valid entries are exactly the `n` most
      recently requested distinct clusters. */
  lemma {:induction false} CacheIsMostRecent(n: nat, h: seq<nat>)
    requires n > 0 && |h| <= AGE_MAX
    ensures Tracks(After(n, h), h)
    ensures forall c :: c in Cached(After(n, h)) <==> Recent(n, h, c)
  {
    if h == [] {
      assert Cached(After(n, h)) == {};
    } else {
      var prefix, x := h[..|h| - 1], h[|h| - 1];
      assert h == prefix + [x];
      CacheIsMostRecent(n, prefix);
      TouchTracks(After(n, prefix), prefix, x);
    }
  }

  /** Every eviction removes the least recently requested cluster, and ages are pairwise distinct. */
  lemma EvictsLeastRecent(n: nat, h: seq<nat>, c: nat)
    requires n > 0 && |h| < AGE_MAX
    ensures
      var slots := After(n, h);
      var v := Victim(slots);
      && (AllValid(slots) && c in Cached(slots) && c != slots[v].cluster ==> Last(h, slots[v].cluster) < Last(h, c))
      && (forall i, j :: 0 <= i < j < n && slots[i].valid && slots[j].valid ==> slots[i].age != slots[j].age)
  {
    var slots := After(n, h);
    var v := Victim(slots);
    CacheIsMostRecent(n, h);
    VictimScan(slots, 0, 0, AGE_MAX);
    if AllValid(slots) && c in Cached(slots) && c != slots[v].cluster { VictimIsOlder(slots, h, v, c); }
    forall i, j | 0 <= i < j < n && slots[i].valid && slots[j].valid
      ensures slots[i].age != slots[j].age
    {
      LastDistinct(h, slots[i].cluster, slots[j].cluster);
    }
  }

  // ---- When the clock has wrapped ----

  /** What an age says of the history, however long it is: the time of the last request as a 32-bit word. */
  ghost predicate Aged(slots: seq<Slot>, h: seq<nat>) {
    && |slots| > 0 && Unique(slots)
    && (forall i :: 0 <= i < |slots| ==> slots[i].age <= AGE_MAX)
    && (forall i :: 0 <= i < |slots| && slots[i].valid ==>
          slots[i].cluster in h && slots[i].age == (Last(h, slots[i].cluster) + 1) % WORD32)
    && (h != [] ==> h[|h| - 1] in Cached(slots))
  }

  lemma TouchAges(slots: seq<Slot>, h: seq<nat>, x: nat)
    requires Aged(slots, h)
    ensures Aged(Touch(slots, |h|, x), h + [x])
  {
    hide Last, Victim;
    var f := Find(slots, x);
    var at := if f < |slots| then f else Victim(slots);
    CachedAfterWrite(slots, at, x, (|h| + 1) % WORD32);
    StampsAfter(slots, h, x, at);
    assert (h + [x])[|h + [x]| - 1] == x;
  }

  lemma StampsAfter(slots: seq<Slot>, h: seq<nat>, x: nat, at: nat)
    requires Aged(slots, h) && at < |slots|
    requires Find(slots, x) == at || Find(slots, x) == |slots|
    ensures
      var r := slots[at := Slot(x, (|h| + 1) % WORD32, true)];
      && (forall i :: 0 <= i < |r| && r[i].valid ==>
            r[i].cluster in h + [x] && r[i].age == (Last(h + [x], r[i].cluster) + 1) % WORD32)
      && (forall i :: 0 <= i < |r| ==> r[i].age <= AGE_MAX)
  {
    var r := slots[at := Slot(x, (|h| + 1) % WORD32, true)];
    forall i | 0 <= i < |r| && r[i].valid
      ensures r[i].cluster in h + [x] && r[i].age == (Last(h + [x], r[i].cluster) + 1) % WORD32
    {
      LastSnoc(h, x, r[i].cluster);
      assert i != at ==> r[i] == slots[i] && r[i].cluster != x;
    }
  }

  /** This holds after every history. */
  lemma {:induction false} AgesOfHistory(n: nat, h: seq<nat>)
    requires n > 0
    ensures Aged(After(n, h), h)
  {
    if h != [] {
      var prefix, x := h[..|h| - 1], h[|h| - 1];
      assert h == prefix + [x];
      AgesOfHistory(n, prefix);
      TouchAges(After(n, prefix), prefix, x);
    }
  }

  /** The cluster was last requested since the clock last showed 0. */
  ghost predicate SinceWrap(h: seq<nat>, c: nat) {
    (Last(h, c) + 1) / WORD32 == |h| / WORD32
  }

  /** The least recently requested of the cached clusters is the one a full cache gives up. */
  ghost predicate GivesUpOldest(slots: seq<Slot>, h: seq<nat>)
    requires |slots| > 0
  {
    forall c :: c in Cached(slots) ==> Last(h, slots[Victim(slots)].cluster) <= Last(h, c)
  }

  lemma Epochs(t: nat, now: nat)
    requires t <= now < t + WORD32
    ensures if t / WORD32 == now / WORD32 then t % WORD32 <= now % WORD32
            else t / WORD32 + 1 == now / WORD32 && t % WORD32 > now % WORD32
  {
  }

  lemma SameEpoch(t: nat, u: nat)
    requires t / WORD32 == u / WORD32
    ensures t % WORD32 <= u % WORD32 <==> t <= u
  {
  }

  lemma LaterEpoch(t: nat, u: nat, now: nat)
    requires t <= now < t + WORD32 && u <= now < u + WORD32
    requires t % WORD32 <= now % WORD32 && u / WORD32 != now / WORD32
    ensures t / WORD32 == now / WORD32 && u < t
  {
    Epochs(t, now);
    Epochs(u, now);
  }

  /** The age of a cached cluster. */
  lemma AgeOfCached(slots: seq<Slot>, h: seq<nat>, v: nat, c: nat)
    requires Aged(slots, h) && AllValid(slots) && v < |slots| && IsVictim(slots, v) && c in Cached(slots)
    ensures slots[v].cluster in Cached(slots)
    ensures (Last(h, slots[v].cluster) + 1) % WORD32 <= (Last(h, c) + 1) % WORD32
  {
    assert slots[v].valid;
    var i :| 0 <= i < |slots| && slots[i].valid && slots[i].cluster == c;
    assert slots[v].age <= slots[i].age;
  }

  lemma OlderInEpoch(h: seq<nat>, c: nat, d: nat)
    requires SinceWrap(h, c) && SinceWrap(h, d) && (Last(h, c) + 1) % WORD32 <= (Last(h, d) + 1) % WORD32
    ensures Last(h, c) <= Last(h, d)
  {
    SameEpoch(Last(h, c) + 1, Last(h, d) + 1);
  }

  /** In a full cache of which every entry has been requested within the last 2^32 requests, the least recently
      requested cluster is given up if and only if every cached cluster was requested since the clock wrapped. */
  lemma LruExactly(n: nat, h: seq<nat>)
    requires n > 0 && AllValid(After(n, h))
    requires forall c :: c in Cached(After(n, h)) ==> |h| - Last(h, c) <= WORD32
    ensures GivesUpOldest(After(n, h), h) <==> forall c :: c in Cached(After(n, h)) ==> SinceWrap(h, c)
  {
    var slots := After(n, h);
    var v := Victim(slots);
    AgesOfHistory(n, h);
    VictimScan(slots, 0, 0, AGE_MAX);
    hide Aged, Last, IsVictim, AllValid, After, Cached, Victim, SinceWrap;
    if forall c :: c in Cached(slots) ==> SinceWrap(h, c) {
      forall c | c in Cached(slots)
        ensures Last(h, slots[v].cluster) <= Last(h, c)
      {
        AgeOfCached(slots, h, v, c);
        OlderInEpoch(h, slots[v].cluster, c);
      }
    } else {
      var c :| c in Cached(slots) && !SinceWrap(h, c);
      StaleIsKept(slots, h, v, c);
    }
  }

  lemma NewestIsYounger(slots: seq<Slot>, h: seq<nat>, v: nat)
    requires Aged(slots, h) && AllValid(slots) && v < |slots| && IsVictim(slots, v)
    ensures slots[v].cluster in Cached(slots)
    ensures (Last(h, slots[v].cluster) + 1) % WORD32 <= |h| % WORD32
  {
    assert slots[0].valid && h != [];
    AgeOfCached(slots, h, v, h[|h| - 1]);
  }

  /** An entry from before the wrap is kept, and one requested since is given up. */
  lemma StaleIsKept(slots: seq<Slot>, h: seq<nat>, v: nat, c: nat)
    requires Aged(slots, h) && AllValid(slots) && v < |slots| && IsVictim(slots, v)
    requires c in Cached(slots) && !SinceWrap(h, c)
    requires forall d :: d in Cached(slots) ==> |h| - Last(h, d) <= WORD32
    ensures SinceWrap(h, slots[v].cluster) && Last(h, slots[v].cluster) > Last(h, c)
  {
    hide Aged, Last, IsVictim, AllValid;
    NewestIsYounger(slots, h, v);
    LaterEpoch(Last(h, slots[v].cluster) + 1, Last(h, c) + 1, |h|);
  }
}

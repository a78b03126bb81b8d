/** The write-back cluster cache in front of the disk. */
module FileCache {
  import opened Lru

  const FCACHE_ENTRIES: nat := 256

  /** The 4096 bytes of a cluster. */
  type Data = seq<bv8>
  function ZeroData(): Data {
    seq(4096, _ => 0)
  }

  datatype Entry = Entry(slot: Slot, dirty: bool, data: Data)

  /** First sector of a cluster, cut to 32 bits as the driver call does. */
  function Lba(c: nat): nat {
    c * 8 % WORD32
  }

  /** No two of the clusters in use lie in the same sectors. */
  ghost predicate NoAlias(use: iset<nat>) {
    forall c, d :: c in use && d in use && Lba(c) == Lba(d) ==> c == d
  }

  /** Two clusters lie in the same sectors exactly when they are congruent modulo 2^29. */
  lemma SameSectors(c: nat, d: nat)
    ensures Lba(c) == Lba(d) <==> c % 0x2000_0000 == d % 0x2000_0000
  {
    LbaOf(c);
    LbaOf(d);
  }

  lemma LbaOf(c: nat)
    ensures Lba(c) == c % 0x2000_0000 * 8
  {
    assert c * 8 == c % 0x2000_0000 * 8 + c / 0x2000_0000 * WORD32;
  }

  /** So clusters of a disk of less than 2^32 sectors never do. */
  lemma SmallDiskHasNoAlias(use: iset<nat>)
    requires forall c :: c in use ==> c < 0x2000_0000
    ensures NoAlias(use)
  {
    forall c, d | c in use && d in use && Lba(c) == Lba(d)
      ensures c == d
    {
      SameSectors(c, d);
    }
  }

  function OnDisk(disk: map<nat, Data>, c: nat): Data {
    if Lba(c) in disk then disk[Lba(c)] else ZeroData()
  }

  function Slots(es: seq<Entry>): (r: seq<Slot>)
    ensures |r| == |es| && forall i :: 0 <= i < |es| ==> r[i] == es[i].slot
  {
    seq(|es|, i requires 0 <= i < |es| => es[i].slot)
  }

  /** What a client of the cache sees: the cached bytes if there are any, else the disk's. */
  function View(es: seq<Entry>, disk: map<nat, Data>, c: nat): Data {
    var f := Find(Slots(es), c);
    if f < |es| then es[f].data else OnDisk(disk, c)
  }

  /** At most one valid entry per cluster, all of them clusters in use, and clean entries agree with the disk. */
  ghost predicate Coherent(es: seq<Entry>, disk: map<nat, Data>, use: iset<nat>) {
    && NoAlias(use)
    && Unique(Slots(es))
    && (forall i :: 0 <= i < |es| && es[i].slot.valid ==> es[i].slot.cluster in use)
    && (forall i :: 0 <= i < |es| && es[i].slot.valid && !es[i].dirty ==>
          es[i].data == OnDisk(disk, es[i].slot.cluster))
  }

  ghost predicate SameView(es: seq<Entry>, disk: map<nat, Data>, es': seq<Entry>, disk': map<nat, Data>,
                           use: iset<nat>) {
    forall c :: c in use ==> View(es', disk', c) == View(es, disk, c)
  }

  /** With one valid entry per cluster, the view of a cached cluster is that entry. */
  lemma ViewOfEntry(es: seq<Entry>, disk: map<nat, Data>, i: nat)
    requires Unique(Slots(es)) && i < |es| && es[i].slot.valid
    ensures View(es, disk, es[i].slot.cluster) == es[i].data
  {
    var f := Find(Slots(es), es[i].slot.cluster);
    assert Slots(es)[i].valid;
    assert Holds(Slots(es)[i], es[i].slot.cluster);
  }

  lemma ViewOfAbsent(es: seq<Entry>, disk: map<nat, Data>, c: nat)
    requires forall i :: 0 <= i < |es| && es[i].slot.valid ==> es[i].slot.cluster != c
    ensures View(es, disk, c) == OnDisk(disk, c)
  {
    var f := Find(Slots(es), c);
  }

  /** Writing entry `i` back, if it is valid and dirty. */
  function WriteBack(es: seq<Entry>, disk: map<nat, Data>, i: nat): map<nat, Data>
    requires i < |es|
  {
    if es[i].slot.valid && es[i].dirty then disk[Lba(es[i].slot.cluster) := es[i].data] else disk
  }

  /** Afterwards the disk holds the view of that cluster, and is unchanged elsewhere. */
  lemma WriteBackEffect(es: seq<Entry>, disk: map<nat, Data>, i: nat, c: nat, use: iset<nat>)
    requires Coherent(es, disk, use) && i < |es| && c in use
    ensures OnDisk(WriteBack(es, disk, i), c) ==
      if Holds(es[i].slot, c) then es[i].data else OnDisk(disk, c)
  {
  }

  /** For any clusters at all: a write-back changes on disk exactly the clusters in the same sectors. */
  lemma WriteBackReaches(es: seq<Entry>, disk: map<nat, Data>, i: nat, d: nat)
    requires i < |es|
    ensures OnDisk(WriteBack(es, disk, i), d) ==
      if es[i].slot.valid && es[i].dirty && es[i].slot.cluster % 0x2000_0000 == d % 0x2000_0000 then es[i].data
      else OnDisk(disk, d)
  {
    SameSectors(es[i].slot.cluster, d);
  }

  /** An empty cache but for cluster `c`, written to. */
  function Holding(c: nat, data: Data): (es: seq<Entry>)
    ensures |es| == FCACHE_ENTRIES && es[0] == Entry(Slot(c, 1, true), true, data)
    ensures forall i :: 0 < i < |es| ==> !es[i].slot.valid
  {
    seq(FCACHE_ENTRIES, _ => EmptyEntry())[0 := Entry(Slot(c, 1, true), true, data)]
  }

  function EmptyEntry(): Entry {
    Entry(Slot(0, 0, false), false, ZeroData())
  }

  /** Of two clusters in the same sectors one is not safe from the other: writing back the cached one changes
      what clients see of the other, unless it happens to hold the same bytes. */
  lemma AliasSpoils(c: nat, d: nat, data: Data, disk: map<nat, Data>)
    requires c != d && c % 0x2000_0000 == d % 0x2000_0000 && data != OnDisk(disk, d)
    ensures View(Holding(c, data), WriteBack(Holding(c, data), disk, 0), d) != View(Holding(c, data), disk, d)
  {
    var es := Holding(c, data);
    WriteBackReaches(es, disk, 0, d);
    ViewOfAbsent(es, disk, d);
    ViewOfAbsent(es, WriteBack(es, disk, 0), d);
  }

  // ---- fcache_get ----

  /** A hit: only the age changes. */
  lemma HitKeepsView(es: seq<Entry>, disk: map<nat, Data>, i: nat, age: nat, use: iset<nat>)
    requires Coherent(es, disk, use) && i < |es| && es[i].slot.valid
    ensures
      var e := es[i];
      var es' := es[i := Entry(Slot(e.slot.cluster, age, true), e.dirty, e.data)];
      Coherent(es', disk, use) && SameView(es, disk, es', disk, use)
  {
    var e := es[i];
    var es' := es[i := Entry(Slot(e.slot.cluster, age, true), e.dirty, e.data)];
    forall c ensures View(es', disk, c) == View(es, disk, c) { SameEntriesView(es, es', disk, c, 0); }
  }

  lemma {:induction false} SameEntriesView(es: seq<Entry>, es': seq<Entry>, disk: map<nat, Data>, c: nat, i: nat)
    requires |es'| == |es| && i <= |es|
    requires forall j :: 0 <= j < |es| ==>
      es'[j].data == es[j].data && (Holds(es'[j].slot, c) <==> Holds(es[j].slot, c))
    ensures Find(Slots(es'), c, i) == Find(Slots(es), c, i)
    ensures i == 0 ==> View(es', disk, c) == View(es, disk, c)
    decreases |es| - i
  {
    if i < |es| { SameEntriesView(es, es', disk, c, i + 1); }
  }

  /** A miss that replaces entry `v` by cluster `c` with bytes `data`. */
  function Replace(es: seq<Entry>, v: nat, c: nat, age: nat, data: Data): (r: seq<Entry>)
    requires v < |es|
    ensures |r| == |es|
  {
    es[v := Entry(Slot(c, age, true), false, data)]
  }

  lemma MissViews(es: seq<Entry>, disk: map<nat, Data>, v: nat, c: nat, age: nat, data: Data, d: nat, use: iset<nat>)
    requires Coherent(es, disk, use) && v < |es| && c in use && d in use && Find(Slots(es), c) == |es|
    ensures
      View(Replace(es, v, c, age, data), WriteBack(es, disk, v), d) ==
        if d == c then data else View(es, disk, d)
  {
    var es', disk' := Replace(es, v, c, age, data), WriteBack(es, disk, v);
    WriteBackEffect(es, disk, v, d, use);
    NotCached(es, c);
    assert Unique(Slots(es'));
    if d == c {
      ViewOfEntry(es', disk', v);
    } else if i :| 0 <= i < |es| && es[i].slot.valid && es[i].slot.cluster == d {
      ViewOfEntry(es, disk, i);
      if i == v { NoOther(es, v, d); ViewOfAbsent(es', disk', d); }
      else { assert es'[i] == es[i]; ViewOfEntry(es', disk', i); }
    } else {
      ViewOfAbsent(es, disk, d);
      ViewOfAbsent(es', disk', d);
    }
  }

  lemma NotCached(es: seq<Entry>, c: nat)
    requires Find(Slots(es), c) == |es|
    ensures forall i :: 0 <= i < |es| && es[i].slot.valid ==> es[i].slot.cluster != c
  {
    forall i | 0 <= i < |es| && es[i].slot.valid ensures es[i].slot.cluster != c {
      assert !Holds(Slots(es)[i], c);
    }
  }

  lemma AbsentNotFound(es: seq<Entry>, c: nat)
    requires forall i :: 0 <= i < |es| && es[i].slot.valid ==> es[i].slot.cluster != c
    ensures Find(Slots(es), c) == |es|
  {
  }

  lemma NoOther(es: seq<Entry>, v: nat, d: nat)
    requires Unique(Slots(es)) && v < |es| && es[v].slot.valid && es[v].slot.cluster == d
    ensures forall i :: 0 <= i < |es| && i != v && es[i].slot.valid ==> es[i].slot.cluster != d
  {
    forall i | 0 <= i < |es| && i != v && es[i].slot.valid ensures es[i].slot.cluster != d {
      assert Slots(es)[i].valid && Slots(es)[v].valid;
    }
  }

  /** A miss is invisible if and only if the bytes put in the cache are those on the disk. */
  lemma MissIsTransparent(es: seq<Entry>, disk: map<nat, Data>, v: nat, c: nat, age: nat, data: Data, use: iset<nat>)
    requires Coherent(es, disk, use) && v < |es| && c in use && Find(Slots(es), c) == |es|
    ensures
      var es', disk' := Replace(es, v, c, age, data), WriteBack(es, disk, v);
      && (SameView(es, disk, es', disk', use) <==> data == OnDisk(disk, c))
      && (data == OnDisk(disk, c) ==> Coherent(es', disk', use))
  {
    var es', disk' := Replace(es, v, c, age, data), WriteBack(es, disk, v);
    NotCached(es, c);
    ViewOfAbsent(es, disk, c);
    forall d | d in use ensures View(es', disk', d) == if d == c then data else View(es, disk, d) {
      MissViews(es, disk, v, c, age, data, d, use);
    }
    assert View(es', disk', c) == data;
    if data == OnDisk(disk, c) {
      WriteBackEffect(es, disk, v, c, use);
      forall i | 0 <= i < |es| && es'[i].slot.valid && !es'[i].dirty
        ensures es'[i].data == OnDisk(disk', es'[i].slot.cluster)
      {
        if i != v {
          WriteBackEffect(es, disk, v, es[i].slot.cluster, use);
          if es[v].slot.valid { NoOther(es, v, es[v].slot.cluster); }
        }
      }
    }
  }

  /** A failed read of a cluster whose bytes on disk are ones: clients see zeros. */
  lemma FailedReadShowsZeros(use: iset<nat>)
    requires 0 in use && NoAlias(use)
    ensures
      var es, disk := seq(FCACHE_ENTRIES, _ => EmptyEntry()), map[0 := seq(4096, _ => 1)];
      && Coherent(es, disk, use) && Find(Slots(es), 0) == |es| && View(es, disk, 0)[0] == 1
      && !SameView(es, disk, Replace(es, 0, 0, 1, ZeroData()), WriteBack(es, disk, 0), use)
  {
    var es, disk := seq(FCACHE_ENTRIES, _ => EmptyEntry()), map[0 := seq(4096, _ => 1)];
    AbsentNotFound(es, 0);
    ViewOfAbsent(es, disk, 0);
    assert OnDisk(disk, 0)[0] == 1 && ZeroData()[0] == 0;
    MissIsTransparent(es, disk, 0, 0, 1, ZeroData(), use);
  }

  // ---- invalidate and flush ----

  lemma DropKeepsView(es: seq<Entry>, disk: map<nat, Data>, i: nat, use: iset<nat>)
    requires Coherent(es, disk, use) && i < |es| && es[i].slot.valid
    ensures
      var e := es[i];
      var es' := es[i := Entry(Slot(e.slot.cluster, e.slot.age, false), e.dirty, e.data)];
      Coherent(es', WriteBack(es, disk, i), use) && SameView(es, disk, es', WriteBack(es, disk, i), use)
  {
    var e := es[i];
    var es' := es[i := Entry(Slot(e.slot.cluster, e.slot.age, false), e.dirty, e.data)];
    var disk' := WriteBack(es, disk, i);
    var k := e.slot.cluster;
    NoOther(es, i, k);
    forall c | c in use ensures View(es', disk', c) == View(es, disk, c) {
      WriteBackEffect(es, disk, i, c, use);
      if c == k {
        ViewOfEntry(es, disk, i);
        ViewOfAbsent(es', disk', c);
      } else if j :| 0 <= j < |es| && es[j].slot.valid && es[j].slot.cluster == c {
        assert es'[j] == es[j];
        ViewOfEntry(es, disk, j);
        ViewOfEntry(es', disk', j);
      } else {
        ViewOfAbsent(es, disk, c);
        ViewOfAbsent(es', disk', c);
      }
    }
    forall j | 0 <= j < |es| && es'[j].slot.valid && !es'[j].dirty
      ensures es'[j].data == OnDisk(disk', es'[j].slot.cluster)
    {
      WriteBackEffect(es, disk, i, es[j].slot.cluster, use);
    }
  }

  /** Marks entry `i` clean after its write-back. */
  function Cleaned(es: seq<Entry>, i: nat): (r: seq<Entry>)
    requires i < |es|
    ensures |r| == |es|
  {
    if es[i].slot.valid && es[i].dirty then es[i := Entry(es[i].slot, false, es[i].data)] else es
  }

  lemma CleanKeepsView(es: seq<Entry>, disk: map<nat, Data>, i: nat, use: iset<nat>)
    requires Coherent(es, disk, use) && i < |es|
    ensures Coherent(Cleaned(es, i), WriteBack(es, disk, i), use)
    ensures SameView(es, disk, Cleaned(es, i), WriteBack(es, disk, i), use)
  {
    var es', disk' := Cleaned(es, i), WriteBack(es, disk, i);
    assert Slots(es') == Slots(es);
    forall c | c in use ensures View(es', disk', c) == View(es, disk, c) {
      WriteBackEffect(es, disk, i, c, use);
      if Holds(es[i].slot, c) { ViewOfEntry(es, disk, i); ViewOfEntry(es', disk', i); }
    }
    forall j | 0 <= j < |es| && es'[j].slot.valid && !es'[j].dirty
      ensures es'[j].data == OnDisk(disk', es'[j].slot.cluster)
    {
      WriteBackEffect(es, disk, i, es[j].slot.cluster, use);
      if es[i].slot.valid { NoOther(es, i, es[i].slot.cluster); }
    }
  }

  /** With nothing dirty, the disk is the view. */
  lemma CleanDiskIsView(es: seq<Entry>, disk: map<nat, Data>, c: nat, use: iset<nat>)
    requires Coherent(es, disk, use) && forall i :: 0 <= i < |es| && es[i].slot.valid ==> !es[i].dirty
    ensures OnDisk(disk, c) == View(es, disk, c)
  {
    var f := Find(Slots(es), c);
  }

  lemma StoreView(es: seq<Entry>, disk: map<nat, Data>, i: nat, data: Data, c: nat, use: iset<nat>)
    requires Coherent(es, disk, use) && i < |es| && es[i].slot.valid
    ensures
      var es' := es[i := Entry(es[i].slot, true, data)];
      Coherent(es', disk, use) && View(es', disk, c) == if c == es[i].slot.cluster then data else View(es, disk, c)
  {
    var es' := es[i := Entry(es[i].slot, true, data)];
    assert Slots(es') == Slots(es);
    if c == es[i].slot.cluster { ViewOfEntry(es', disk, i); }
  }

  lemma {:induction false} SameViewTrans(a: seq<Entry>, da: map<nat, Data>, b: seq<Entry>, db: map<nat, Data>,
                                          c: seq<Entry>, dc: map<nat, Data>, use: iset<nat>)
    requires SameView(a, da, b, db, use) && SameView(b, db, c, dc, use)
    ensures SameView(a, da, c, dc, use)
  {
  }

  class Cache {
    const entries: array<Entry>
    var clock: nat
    var disk: map<nat, Data>

    /** The clusters that clients ask for. */
    ghost const use: iset<nat>

    ghost predicate Valid()
      reads this, entries
    {
      entries.Length == FCACHE_ENTRIES && Coherent(entries[..], disk, use)
    }

    /** fcache_init over a given disk. */
    constructor (disk: map<nat, Data>, ghost use: iset<nat>)
      requires NoAlias(use)
      ensures this.use == use
      ensures Valid() && fresh(entries) && entries.Length == 256 && this.disk == disk && clock == 0
      ensures Slots(entries[..]) == After(FCACHE_ENTRIES, [])
      ensures forall c :: View(entries[..], disk, c) == OnDisk(disk, c)
    {
      var a := new Entry[FCACHE_ENTRIES](_ => EmptyEntry());
      entries := a;
      this.disk, clock, this.use := disk, 0, use;
      new;
      forall c ensures View(entries[..], disk, c) == OnDisk(disk, c) {
        ViewOfAbsent(entries[..], disk, c);
      }
    }

    method FindEntry(c: nat) returns (i: nat)
      ensures i == Find(Slots(entries[..]), c)
    {
      for k := 0 to entries.Length
        invariant Find(Slots(entries[..]), c) == Find(Slots(entries[..]), c, k)
      {
        if entries[k].slot.valid && entries[k].slot.cluster == c { return k; }
      }
      return entries.Length;
    }

    method FindVictim() returns (v: nat)
      requires entries.Length > 0
      ensures v < entries.Length && v == Victim(Slots(entries[..]))
    {
      v := 0;
      var age := AGE_MAX;
      for k := 0 to entries.Length
        invariant v < entries.Length
        invariant Victim(Slots(entries[..])) == Victim(Slots(entries[..]), k, v, age)
      {
        if !entries[k].slot.valid { return k; }
        if entries[k].slot.age < age { age, v := entries[k].slot.age, k; }
      }
    }

    /** fcache_get; `readOk` says whether the disk read of a miss succeeds.  The call is invisible to
        clients if and only if it hits, the read succeeds, or the disk holds zeros there anyway. */
    method Get(c: nat, readOk: bool) returns (slot: nat)
      requires Valid() && c in use
      modifies this, entries
      ensures slot < 256 == entries.Length && Holds(entries[slot].slot, c)
      ensures
        var faithful :=
          Find(Slots(old(entries[..])), c) < FCACHE_ENTRIES || readOk || OnDisk(old(disk), c) == ZeroData();
        && (SameView(old(entries[..]), old(disk), entries[..], disk, use) <==> faithful)
        && (faithful ==> Valid() && entries[slot].data == View(old(entries[..]), old(disk), c))
      ensures clock == (old(clock) + 1) % WORD32
      ensures Slots(entries[..]) == Touch(Slots(old(entries[..])), old(clock), c)
    {
      ghost var es, d := entries[..], disk;
      clock := (clock + 1) % WORD32;
      var i := FindEntry(c);
      if i < entries.Length {
        HitKeepsView(es, d, i, clock, use);
        ViewOfEntry(es, d, i);
        entries[i] := Entry(Slot(entries[i].slot.cluster, clock, true), entries[i].dirty, entries[i].data);
        assert entries[..] == es[i := Entry(Slot(es[i].slot.cluster, clock, true), es[i].dirty, es[i].data)];
        return i;
      }
      var v := FindVictim();
      if entries[v].slot.valid && entries[v].dirty {
        disk := disk[Lba(entries[v].slot.cluster) := entries[v].data];
      }
      WriteBackEffect(es, d, v, c, use);
      NotCached(es, c);
      var data := if readOk then OnDisk(disk, c) else ZeroData();
      MissIsTransparent(es, d, v, c, clock, data, use);
      ViewOfAbsent(es, d, c);
      entries[v] := Entry(Slot(c, clock, true), false, data);
      assert entries[..] == Replace(es, v, c, clock, data);
      return v;
    }

    /** The client step: write through the returned buffer and mark the entry dirty. */
    method Store(slot: nat, data: Data)
      requires Valid() && slot < entries.Length && entries[slot].slot.valid
      modifies entries
      ensures Valid()
      ensures forall c ::
        View(entries[..], disk, c) ==
          if c == old(entries[slot].slot.cluster) then data else View(old(entries[..]), disk, c)
    {
      ghost var es := entries[..];
      entries[slot] := Entry(entries[slot].slot, true, data);
      assert entries[..] == es[slot := Entry(es[slot].slot, true, data)];
      forall c ensures Coherent(entries[..], disk, use) && View(entries[..], disk, c) ==
        if c == es[slot].slot.cluster then data else View(es, disk, c)
      {
        StoreView(es, disk, slot, data, c, use);
      }
    }

    method Invalidate(c: nat)
      requires Valid() && c in use
      modifies this`disk, entries
      ensures Valid() && SameView(old(entries[..]), old(disk), entries[..], disk, use)
      ensures Find(Slots(entries[..]), c) == FCACHE_ENTRIES && OnDisk(disk, c) == View(old(entries[..]), old(disk), c)
    {
      ghost var es, d := entries[..], disk;
      var i := FindEntry(c);
      if i < entries.Length {
        DropKeepsView(es, d, i, use);
        if entries[i].dirty { disk := disk[Lba(c) := entries[i].data]; }
        var e := entries[i];
        entries[i] := Entry(Slot(e.slot.cluster, e.slot.age, false), e.dirty, e.data);
        assert entries[..] == es[i := Entry(Slot(es[i].slot.cluster, es[i].slot.age, false), es[i].dirty, es[i].data)];
        NoOther(es, i, c);
        AbsentNotFound(entries[..], c);
      }
      assert View(entries[..], disk, c) == View(es, d, c);
    }

    method Flush()
      requires Valid()
      modifies this`disk, entries
      ensures Valid() && SameView(old(entries[..]), old(disk), entries[..], disk, use)
      ensures Slots(entries[..]) == Slots(old(entries[..]))
      ensures forall c :: c in use ==> OnDisk(disk, c) == View(old(entries[..]), old(disk), c)
    {
      ghost var es0, d0 := entries[..], disk;
      for i := 0 to entries.Length
        invariant Valid() && SameView(es0, d0, entries[..], disk, use) && Slots(entries[..]) == Slots(es0)
        invariant forall j :: 0 <= j < i && entries[j].slot.valid ==> !entries[j].dirty
      {
        ghost var es, d := entries[..], disk;
        CleanKeepsView(es, d, i, use);
        if entries[i].slot.valid && entries[i].dirty {
          disk := disk[Lba(entries[i].slot.cluster) := entries[i].data];
          entries[i] := Entry(entries[i].slot, false, entries[i].data);
        }
        assert entries[..] == Cleaned(es, i) && disk == WriteBack(es, d, i);
        SameViewTrans(es0, d0, es, d, entries[..], disk, use);
      }
      forall c | c in use ensures OnDisk(disk, c) == View(es0, d0, c) {
        CleanDiskIsView(entries[..], disk, c, use);
      }
    }

    /** fcache_invalidate_all: the cache is empty and the disk is what clients saw. */
    method InvalidateAll()
      requires Valid()
      modifies this`disk, entries
      ensures Valid() && SameView(old(entries[..]), old(disk), entries[..], disk, use)
      ensures forall i :: 0 <= i < entries.Length ==> !entries[i].slot.valid
      ensures forall c :: c in use ==> OnDisk(disk, c) == View(old(entries[..]), old(disk), c)
    {
      ghost var es0, d0 := entries[..], disk;
      Flush();
      ghost var d := disk;
      for i := 0 to entries.Length
        invariant entries.Length == FCACHE_ENTRIES && disk == d
        invariant forall j :: 0 <= j < i ==> !entries[j].slot.valid
      {
        var e := entries[i];
        entries[i] := Entry(Slot(e.slot.cluster, e.slot.age, false), e.dirty, e.data);
      }
      forall c | c in use ensures View(entries[..], disk, c) == View(es0, d0, c) {
        ViewOfAbsent(entries[..], disk, c);
      }
    }
  }

  // ---- Whole runs ----

  datatype Op = Read(c: nat) | Write(c: nat, data: Data) | Drop(c: nat) | FlushAll | DropAll

  ghost predicate OpInUse(op: Op, use: iset<nat>) {
    (op.Read? || op.Write? || op.Drop?) ==> op.c in use
  }

  /** What a plain memory of clusters would hold at `c` after the operations. */
  function Expected(ops: seq<Op>, c: nat, init: Data): Data {
    if ops == [] then init
    else
      var last := ops[|ops| - 1];
      if last.Write? && last.c == c then last.data else Expected(ops[..|ops| - 1], c, init)
  }

  /** The view of (es, disk) is what the operations make of the view of (es0, disk0). */
  ghost predicate Matches(es0: seq<Entry>, disk0: map<nat, Data>, ops: seq<Op>, es: seq<Entry>, disk: map<nat, Data>,
                          use: iset<nat>) {
    forall c :: c in use ==> View(es, disk, c) == Expected(ops, c, View(es0, disk0, c))
  }

  ghost predicate Performed(es: seq<Entry>, disk: map<nat, Data>, op: Op, es': seq<Entry>, disk': map<nat, Data>,
                            use: iset<nat>) {
    forall c :: c in use ==>
      View(es', disk', c) == if op.Write? && op.c == c then op.data else View(es, disk, c)
  }

  lemma MatchesStep(es0: seq<Entry>, disk0: map<nat, Data>, ops: seq<Op>, op: Op,
                    es: seq<Entry>, disk: map<nat, Data>, es': seq<Entry>, disk': map<nat, Data>, use: iset<nat>)
    requires Matches(es0, disk0, ops, es, disk, use) && Performed(es, disk, op, es', disk', use)
    ensures Matches(es0, disk0, ops + [op], es', disk', use)
  {
    assert (ops + [op])[..|ops|] == ops;
  }

  lemma MatchesNone(es: seq<Entry>, disk: map<nat, Data>, use: iset<nat>)
    ensures Matches(es, disk, [], es, disk, use)
  {
  }

  lemma MatchesAt(es0: seq<Entry>, disk0: map<nat, Data>, ops: seq<Op>, es: seq<Entry>, disk: map<nat, Data>,
                  use: iset<nat>, c: nat)
    requires Matches(es0, disk0, ops, es, disk, use) && c in use
    ensures View(es, disk, c) == Expected(ops, c, View(es0, disk0, c))
  {
  }

  method Perform(cache: Cache, op: Op) returns (data: Data)
    requires cache.Valid() && OpInUse(op, cache.use)
    modifies cache, cache.entries
    ensures cache.Valid()
    ensures op.Read? ==> data == View(old(cache.entries[..]), old(cache.disk), op.c)
    ensures Performed(old(cache.entries[..]), old(cache.disk), op, cache.entries[..], cache.disk, cache.use)
  {
    data := [];
    match op
    case Read(c) =>
      var slot := cache.Get(c, true);
      data := cache.entries[slot].data;
    case Write(c, d) =>
      var slot := cache.Get(c, true);
      cache.Store(slot, d);
    case Drop(c) => cache.Invalidate(c);
    case FlushAll => cache.Flush();
    case DropAll => cache.InvalidateAll();
  }

  /** Runs any operations on a reliable disk: every read returns what a plain memory would, evictions and
      write-backs notwithstanding. */
  method Replay(cache: Cache, ops: seq<Op>) returns (got: seq<Data>)
    requires cache.Valid() && forall i :: 0 <= i < |ops| ==> OpInUse(ops[i], cache.use)
    modifies cache, cache.entries
    ensures cache.Valid() && |got| == |ops|
    ensures Matches(old(cache.entries[..]), old(cache.disk), ops, cache.entries[..], cache.disk, cache.use)
    ensures forall i :: 0 <= i < |ops| && ops[i].Read? ==>
      got[i] == Expected(ops[..i], ops[i].c, View(old(cache.entries[..]), old(cache.disk), ops[i].c))
  {
    hide Matches, Performed, View, Coherent;
    got := [];
    ghost var es0, disk0 := cache.entries[..], cache.disk;
    MatchesNone(es0, disk0, cache.use);
    for i := 0 to |ops|
      invariant cache.Valid() && |got| == i
      invariant Matches(es0, disk0, ops[..i], cache.entries[..], cache.disk, cache.use)
      invariant forall j :: 0 <= j < i && ops[j].Read? ==>
        got[j] == Expected(ops[..j], ops[j].c, View(es0, disk0, ops[j].c))
    {
      ghost var es, disk := cache.entries[..], cache.disk;
      if ops[i].Read? { MatchesAt(es0, disk0, ops[..i], es, disk, cache.use, ops[i].c); }
      var data := Perform(cache, ops[i]);
      got := got + [data];
      MatchesStep(es0, disk0, ops[..i], ops[i], es, disk, cache.entries[..], cache.disk, cache.use);
      assert ops[..i] + [ops[i]] == ops[..i + 1];
    }
    assert ops[..|ops|] == ops;
  }
}

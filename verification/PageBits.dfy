/** Page bitmaps as values: which physical pages are in use. */
module PageBits {

  function UsedSet(bits: seq<bool>): set<nat> {
    set i: nat | i < |bits| && bits[i]
  }

  function FreeSet(bits: seq<bool>): set<nat> {
    set i: nat | i < |bits| && !bits[i]
  }

  function FreeCount(bits: seq<bool>): nat {
    |FreeSet(bits)|
  }

  /** The lowest free page at or after `from`, or `|bits|` when there is none. */
  function FirstFree(bits: seq<bool>, from: nat := 0): (r: nat)
    requires from <= |bits|
    ensures from <= r <= |bits|
    ensures forall i :: from <= i < r ==> bits[i]
    ensures r < |bits| ==> !bits[r]
    decreases |bits| - from
  {
    if from == |bits| || !bits[from] then from else FirstFree(bits, from + 1)
  }

  predicate RunFree(bits: seq<bool>, start: int, count: nat) {
    0 <= start && start + count <= |bits| && forall i :: start <= i < start + count ==> !bits[i]
  }

  ghost predicate HasRun(bits: seq<bool>, count: nat) {
    exists s :: RunFree(bits, s, count)
  }

  ghost predicate IsLowestRun(bits: seq<bool>, s: nat, count: nat) {
    RunFree(bits, s, count) && forall t :: RunFree(bits, t, count) ==> s <= t
  }

  lemma LowestRunExists(bits: seq<bool>, count: nat, s: int)
    requires RunFree(bits, s, count)
    ensures exists t :: IsLowestRun(bits, t, count)
    decreases s
  {
    if t :| RunFree(bits, t, count) && t < s {
      LowestRunExists(bits, count, t);
    } else {
      assert IsLowestRun(bits, s, count);
    }
  }

  /** Start of the lowest run of `count` free pages. */
  ghost function LowestRun(bits: seq<bool>, count: nat): (s: nat)
    requires HasRun(bits, count)
    ensures IsLowestRun(bits, s, count)
  {
    var w :| RunFree(bits, w, count);
    LowestRunExists(bits, count, w);
    var s :| IsLowestRun(bits, s, count);
    s
  }

  lemma SinglePageRun(bits: seq<bool>)
    ensures HasRun(bits, 1) <==> FirstFree(bits) < |bits|
    ensures HasRun(bits, 1) ==> LowestRun(bits, 1) == FirstFree(bits)
    ensures HasRun(bits, 1) ==> Fill(bits, LowestRun(bits, 1), 1, true) == bits[FirstFree(bits) := true]
  {
    var f := FirstFree(bits);
    if f < |bits| {
      assert RunFree(bits, f, 1);
    }
    if HasRun(bits, 1) {
      var s := LowestRun(bits, 1);
      assert !bits[s];
    }
  }

  lemma FillStep(bits: seq<bool>, start: nat, i: nat, b: bool)
    ensures Fill(bits, start, i + 1, b) ==
      if start + i < |bits| then Fill(bits, start, i, b)[start + i := b] else Fill(bits, start, i, b)
  {
  }

  function Fill(bits: seq<bool>, start: nat, count: nat, b: bool): (r: seq<bool>)
    ensures |r| == |bits|
    ensures forall i :: 0 <= i < |bits| ==> r[i] == if start <= i < start + count then b else bits[i]
  {
    seq(|bits|, i requires 0 <= i < |bits| => if start <= i < start + count then b else bits[i])
  }

  lemma SetBit(bits: seq<bool>, i: nat)
    requires i < |bits| && !bits[i]
    ensures UsedSet(bits[i := true]) == UsedSet(bits) + {i}
    ensures FreeSet(bits[i := true]) == FreeSet(bits) - {i}
    ensures |UsedSet(bits[i := true])| == |UsedSet(bits)| + 1
    ensures FreeCount(bits[i := true]) == FreeCount(bits) - 1
  {
    assert UsedSet(bits[i := true]) == UsedSet(bits) + {i};
    assert FreeSet(bits) == FreeSet(bits[i := true]) + {i};
  }

  lemma ClearBit(bits: seq<bool>, i: nat)
    requires i < |bits| && bits[i]
    ensures UsedSet(bits[i := false]) == UsedSet(bits) - {i}
    ensures |UsedSet(bits[i := false])| == |UsedSet(bits)| - 1
    ensures FreeCount(bits[i := false]) == FreeCount(bits) + 1
  {
    assert UsedSet(bits) == UsedSet(bits[i := false]) + {i};
    assert FreeSet(bits[i := false]) == FreeSet(bits) + {i};
  }

  /** The allocator reports failure exactly when nothing is free. */
  lemma NoneFree(bits: seq<bool>)
    ensures FirstFree(bits) == |bits| <==> FreeCount(bits) == 0
  {
    if FirstFree(bits) < |bits| {
      assert FirstFree(bits) in FreeSet(bits);
    } else {
      assert FreeSet(bits) == {};
    }
  }
}

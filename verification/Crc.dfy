/** CRC-32 (reflected, polynomial 0xEDB88320) as the boot code computes it bit by bit.

    A 32-bit register is the sequence of its bits, bit 0 first, and a byte the sequence of its eight
    bits, so that XOR and shifts are taken bit by bit. */
module Crc {

  type Reg = r: seq<bool> | |r| == 32 witness seq(32, _ => false)
  type Byte = b: seq<bool> | |b| == 8 witness seq(8, _ => false)

  function Pow2(i: nat): (r: nat)
    ensures r > 0
  {
    if i == 0 then 1 else 2 * Pow2(i - 1)
  }

  /** The bits of 0xEDB88320. */
  function Poly(): Reg {
    seq(32, i requires 0 <= i => 0xEDB88320 / Pow2(i) % 2 == 1)
  }

  /** All that the laws below need of the polynomial: its bit 31 is set. */
  lemma PolyTop()
    ensures Poly()[31]
  {
    assert Pow2(8) == 0x100;
    assert Pow2(16) == 0x1_0000;
    assert Pow2(24) == 0x100_0000;
    assert Pow2(31) == 0x8000_0000;
  }

  function Zero(): (r: Reg)
    ensures forall i :: 0 <= i < 32 ==> !r[i]
  {
    seq(32, _ => false)
  }

  function Ones(): (r: Reg)
    ensures forall i :: 0 <= i < 32 ==> r[i]
  {
    seq(32, _ => true)
  }

  function Not(x: Reg): (r: Reg)
    ensures forall i :: 0 <= i < 32 ==> r[i] == !x[i]
  {
    seq(32, i requires 0 <= i < 32 => !x[i])
  }

  function Xor(x: Reg, y: Reg): (r: Reg)
    ensures forall i :: 0 <= i < 32 ==> r[i] == (x[i] != y[i])
  {
    seq(32, i requires 0 <= i < 32 => x[i] != y[i])
  }

  /** A byte as the low bits of a register. */
  function Widen(b: Byte): (r: Reg)
    ensures forall i :: 0 <= i < 32 ==> r[i] == (i < 8 && b[i])
  {
    seq(32, i requires 0 <= i < 32 => i < 8 && b[i])
  }

  function ShiftRight(x: Reg): (r: Reg)
    ensures forall i :: 0 <= i < 32 ==> r[i] == (i < 31 && x[i + 1])
  {
    seq(32, i requires 0 <= i < 32 => i < 31 && x[i + 1])
  }

  /** `POLY & -(crc & 1)`. */
  function PolyIf(p: Reg, low: bool): (r: Reg)
    ensures forall i :: 0 <= i < 32 ==> r[i] == (low && p[i])
  {
    seq(32, i requires 0 <= i < 32 => low && p[i])
  }

  /** One turn of the inner loop. */
  function Shift(p: Reg, x: Reg): (r: Reg)
    ensures forall i :: 0 <= i < 32 ==> r[i] == ((i < 31 && x[i + 1]) != (x[0] && p[i]))
  {
    Xor(ShiftRight(x), PolyIf(p, x[0]))
  }

  function Iterate<T>(f: T -> T, x: T, k: nat): T {
    if k == 0 then x else f(Iterate(f, x, k - 1))
  }

  lemma {:induction false} IterateAdd<T>(f: T -> T, x: T, j: nat, k: nat)
    ensures Iterate(f, x, j + k) == Iterate(f, Iterate(f, x, j), k)
  {
    if k > 0 { IterateAdd(f, x, j, k - 1); }
  }

  lemma {:induction false} IterateFixed<T>(f: T -> T, x: T, k: nat)
    requires f(x) == x
    ensures Iterate(f, x, k) == x
  {
    if k > 0 { IterateFixed(f, x, k - 1); }
  }

  function Turn(p: Reg): Reg -> Reg {
    x => Shift(p, x)
  }

  /** `k` turns of the inner loop. */
  function ShiftBy(p: Reg, x: Reg, k: nat): Reg {
    Iterate(Turn(p), x, k)
  }

  function Absorb(p: Reg, crc: Reg, b: Byte): Reg {
    ShiftBy(p, Xor(crc, Widen(b)), |b|)
  }

  /** The register after a whole message. */
  function Register(p: Reg, crc: Reg, data: seq<Byte>): Reg {
    if data == [] then crc else Absorb(p, Register(p, crc, data[..|data| - 1]), data[|data| - 1])
  }

  function Crc32(data: seq<Byte>): Reg {
    Not(Register(Poly(), Ones(), data))
  }

  /** hash_crc32 and snapshot_crc32. */
  method HashCrc32(data: seq<Byte>) returns (r: Reg)
    ensures r == Crc32(data)
  {
    var crc: Reg := Ones();
    for i := 0 to |data|
      invariant crc == Register(Poly(), Ones(), data[..i])
    {
      assert data[..i + 1][..i] == data[..i];
      crc := Xor(crc, Widen(data[i]));
      ghost var start := crc;
      for j := 0 to 8
        invariant crc == ShiftBy(Poly(), start, j)
      {
        crc := Xor(ShiftRight(crc), PolyIf(Poly(), crc[0]));
      }
    }
    assert data[..|data|] == data;
    return Not(crc);
  }

  // ---- The register update is a bijection ----

  /** The inverse turn: the top bit tells whether the polynomial was added. */
  function Unshift(p: Reg, y: Reg): (x: Reg)
    requires p[31]
    ensures Shift(p, x) == y
  {
    var x: Reg := seq(32, i requires 0 <= i < 32 => if i == 0 then y[31] else y[i - 1] != (y[31] && p[i - 1]));
    assert Shift(p, x) == y;
    x
  }

  lemma UnshiftShift(p: Reg, x: Reg)
    requires p[31]
    ensures Unshift(p, Shift(p, x)) == x
  {
    var y := Shift(p, x);
    assert y[31] == x[0];
    assert forall i :: 0 < i < 32 ==> Unshift(p, y)[i] == x[i];
  }

  lemma ShiftInjective(p: Reg, x: Reg, y: Reg)
    requires p[31]
    ensures Shift(p, x) == Shift(p, y) <==> x == y
  {
    UnshiftShift(p, x);
    UnshiftShift(p, y);
  }

  lemma {:induction false} ShiftByInjective(p: Reg, x: Reg, y: Reg, k: nat)
    requires p[31]
    ensures ShiftBy(p, x, k) == ShiftBy(p, y, k) <==> x == y
  {
    if k > 0 {
      ShiftByInjective(p, x, y, k - 1);
      ShiftInjective(p, ShiftBy(p, x, k - 1), ShiftBy(p, y, k - 1));
    }
  }

  function UnshiftBy(p: Reg, y: Reg, k: nat): (x: Reg)
    requires p[31]
    ensures ShiftBy(p, x, k) == y
    decreases k
  {
    if k == 0 then y else UnshiftBy(p, Unshift(p, y), k - 1)
  }

  lemma XorCancel(x: Reg, y: Reg, z: Reg)
    ensures Xor(x, z) == Xor(y, z) <==> x == y
    ensures Xor(Xor(x, z), z) == x
  {
    if Xor(x, z) == Xor(y, z) {
      assert forall i :: 0 <= i < 32 ==> Xor(x, z)[i] == Xor(y, z)[i];
      assert x == y;
    }
  }

  /** For a fixed byte the update takes every register value, and takes it once. */
  lemma AbsorbBijective(p: Reg, b: Byte, x: Reg, y: Reg)
    requires p[31]
    ensures Absorb(p, x, b) == Absorb(p, y, b) <==> x == y
    ensures Absorb(p, Xor(UnshiftBy(p, y, |b|), Widen(b)), b) == y
  {
    ShiftByInjective(p, Xor(x, Widen(b)), Xor(y, Widen(b)), |b|);
    XorCancel(x, y, Widen(b));
    XorCancel(UnshiftBy(p, y, |b|), y, Widen(b));
  }

  // ---- Linearity ----

  lemma ShiftLinear(p: Reg, x: Reg, y: Reg)
    ensures Shift(p, Xor(x, y)) == Xor(Shift(p, x), Shift(p, y))
  {
    assert forall i :: 0 <= i < 32 ==> Shift(p, Xor(x, y))[i] == Xor(Shift(p, x), Shift(p, y))[i];
  }

  lemma {:induction false} ShiftByLinear(p: Reg, x: Reg, y: Reg, k: nat)
    ensures ShiftBy(p, Xor(x, y), k) == Xor(ShiftBy(p, x, k), ShiftBy(p, y, k))
  {
    if k > 0 {
      ShiftByLinear(p, x, y, k - 1);
      ShiftLinear(p, ShiftBy(p, x, k - 1), ShiftBy(p, y, k - 1));
    }
  }

  function XorByte(a: Byte, b: Byte): (r: Byte)
    ensures forall i :: 0 <= i < 8 ==> r[i] == (a[i] != b[i])
  {
    seq(8, i requires 0 <= i < 8 => a[i] != b[i])
  }

  /** Bytewise XOR of two messages of one length. */
  function XorData(a: seq<Byte>, b: seq<Byte>): (r: seq<Byte>)
    requires |a| == |b|
    ensures |r| == |a| && forall i :: 0 <= i < |a| ==> r[i] == XorByte(a[i], b[i])
  {
    seq(|a|, i requires 0 <= i < |a| => XorByte(a[i], b[i]))
  }

  lemma AbsorbLinear(p: Reg, x: Reg, y: Reg, a: Byte, b: Byte)
    ensures Absorb(p, Xor(x, y), XorByte(a, b)) == Xor(Absorb(p, x, a), Absorb(p, y, b))
  {
    assert Xor(Xor(x, y), Widen(XorByte(a, b))) == Xor(Xor(x, Widen(a)), Xor(y, Widen(b)));
    ShiftByLinear(p, Xor(x, Widen(a)), Xor(y, Widen(b)), |a|);
  }

  /** The register is linear in start value and message together. */
  lemma {:induction false} RegisterLinear(p: Reg, x: Reg, y: Reg, a: seq<Byte>, b: seq<Byte>)
    requires |a| == |b|
    ensures Register(p, Xor(x, y), XorData(a, b)) == Xor(Register(p, x, a), Register(p, y, b))
    decreases |a|
  {
    if a != [] {
      var n := |a| - 1;
      RegisterLinear(p, x, y, a[..n], b[..n]);
      assert XorData(a, b)[..n] == XorData(a[..n], b[..n]);
      AbsorbLinear(p, Register(p, x, a[..n]), Register(p, y, b[..n]), a[n], b[n]);
    }
  }

  /** CRC-32 is affine: the XOR of two messages' CRCs depends on the XOR of the messages alone. */
  lemma CrcAffine(a: seq<Byte>, b: seq<Byte>)
    requires |a| == |b|
    ensures Xor(Crc32(a), Crc32(b)) == Register(Poly(), Zero(), XorData(a, b))
  {
    var p := Poly();
    RegisterLinear(p, Ones(), Ones(), a, b);
    XorSelf(Ones());
    XorNots(Register(p, Ones(), a), Register(p, Ones(), b));
  }

  lemma XorNots(x: Reg, y: Reg)
    ensures Xor(Not(x), Not(y)) == Xor(x, y)
  {
  }

  // ---- Error detection ----

  lemma {:induction false} RegisterConcat(p: Reg, crc: Reg, a: seq<Byte>, b: seq<Byte>)
    ensures Register(p, crc, a + b) == Register(p, Register(p, crc, a), b)
    decreases |b|
  {
    if b == [] {
      assert a + b == a;
    } else {
      var n := |b| - 1;
      assert (a + b)[..|a + b| - 1] == a + b[..n];
      RegisterConcat(p, crc, a, b[..n]);
    }
  }

  /** The same bytes keep different registers different. */
  lemma {:induction false} RegisterInjective(p: Reg, x: Reg, y: Reg, data: seq<Byte>)
    requires p[31]
    ensures Register(p, x, data) == Register(p, y, data) <==> x == y
    decreases |data|
  {
    if data != [] {
      var n := |data| - 1;
      RegisterInjective(p, x, y, data[..n]);
      AbsorbBijective(p, data[n], Register(p, x, data[..n]), Register(p, y, data[..n]));
    }
  }

  /** Up to four bytes as one register, first byte in the low bits. */
  function Pack(w: seq<Byte>): Reg
    requires |w| <= 4
  {
    seq(32, i requires 0 <= i < 32 => i / 8 < |w| && w[i / 8][i % 8])
  }

  /** Bits above position `k` survive `k` turns of a register whose low `k` bits are clear, `k` places down. */
  lemma {:induction false} ClearLowShift(p: Reg, x: Reg, k: nat)
    requires k <= 32 && forall i :: 0 <= i < k ==> !x[i]
    ensures forall i :: 0 <= i < 32 ==> ShiftBy(p, x, k)[i] == (i + k < 32 && x[i + k])
  {
    if k > 0 {
      ClearLowShift(p, x, k - 1);
      assert !ShiftBy(p, x, k - 1)[0];
    }
  }

  lemma ShiftZero(p: Reg)
    ensures Shift(p, Zero()) == Zero()
  {
  }

  /** From a zero register, absorbing up to four bytes is shifting out their packed bits. */
  lemma {:induction false} AbsorbPacked(p: Reg, w: seq<Byte>)
    requires |w| <= 4
    ensures Register(p, Zero(), w) == ShiftBy(p, Pack(w), 8 * |w|)
  {
    if w == [] {
      PackEmpty();
    } else {
      var n := |w| - 1;
      AbsorbPacked(p, w[..n]);
      assert w == w[..n] + [w[n]];
      AbsorbPackedLast(p, w[..n], w[n]);
    }
  }

  lemma PackEmpty()
    ensures Pack([]) == Zero()
  {
  }

  lemma AbsorbPackedLast(p: Reg, init: seq<Byte>, last: Byte)
    requires |init| < 4 && Register(p, Zero(), init) == ShiftBy(p, Pack(init), 8 * |init|)
    ensures Register(p, Zero(), init + [last]) == ShiftBy(p, Pack(init + [last]), 8 * |init + [last]|)
  {
    PackLast(p, init, last);
    RegisterSnoc(p, Zero(), init, last);
    AbsorbOne(p, Register(p, Zero(), init), Pack(init), HighByte(|init|, last), Pack(init + [last]), last,
              8 * |init|, 8 * |init + [last]|);
  }

  lemma RegisterSnoc(p: Reg, crc: Reg, init: seq<Byte>, last: Byte)
    ensures Register(p, crc, init + [last]) == Absorb(p, Register(p, crc, init), last)
  {
    var w := init + [last];
    assert w[..|w| - 1] == init && w[|w| - 1] == last;
  }

  lemma AbsorbOne(p: Reg, r: Reg, low: Reg, high: Reg, all: Reg, last: Byte, k: nat, total: nat)
    requires r == ShiftBy(p, low, k) && all == Xor(low, high) && ShiftBy(p, high, k) == Widen(last)
    requires total == k + 8
    ensures Absorb(p, r, last) == ShiftBy(p, all, total)
  {
    ShiftByLinear(p, low, high, k);
    IterateAdd(Turn(p), all, k, |last|);
  }

  /** A byte placed above `n` others. */
  function HighByte(n: nat, b: Byte): Reg {
    seq(32, i requires 0 <= i < 32 => i / 8 == n && b[i % 8])
  }

  /** It packs by XOR, and has moved down to the low bits after `8 * n` turns. */
  lemma PackLast(p: Reg, init: seq<Byte>, last: Byte)
    requires |init| < 4
    ensures Pack(init + [last]) == Xor(Pack(init), HighByte(|init|, last))
    ensures ShiftBy(p, HighByte(|init|, last), 8 * |init|) == Widen(last)
  {
    var n := |init|;
    var w := init + [last];
    var high := HighByte(n, last);
    forall i | 0 <= i < 32 ensures Pack(w)[i] == Xor(Pack(init), high)[i] {
      if i / 8 < n { assert w[i / 8] == init[i / 8]; }
    }
    assert forall i :: 0 <= i < 8 * n ==> i / 8 < n;
    ClearLowShift(p, high, 8 * n);
    forall i | 0 <= i < 32 ensures ShiftBy(p, high, 8 * n)[i] == Widen(last)[i] {
      if i + 8 * n < 32 { assert (i + 8 * n) / 8 == i / 8 + n && (i + 8 * n) % 8 == i % 8; }
    }
  }

  /** A change confined to four consecutive bytes always changes the CRC. */
  lemma BurstDetected(pre: seq<Byte>, a: seq<Byte>, b: seq<Byte>, post: seq<Byte>)
    requires |a| == |b| <= 4 && a != b
    ensures Crc32(pre + a + post) != Crc32(pre + b + post)
  {
    var p := Poly();
    PolyTop();
    var s := Register(p, Ones(), pre);
    var ra, rb := Register(p, s, a), Register(p, s, b);
    RegisterConcat(p, Ones(), pre, a);
    RegisterConcat(p, Ones(), pre, b);
    RegisterConcat(p, Ones(), pre + a, post);
    RegisterConcat(p, Ones(), pre + b, post);
    RegisterInjective(p, ra, rb, post);
    DifferentWords(p, s, a, b);
    NotInjective(Register(p, ra, post), Register(p, rb, post));
  }

  lemma NotInjective(x: Reg, y: Reg)
    requires x != y
    ensures Not(x) != Not(y)
  {
    var i :| 0 <= i < 32 && x[i] != y[i];
    assert Not(x)[i] != Not(y)[i];
  }

  lemma DifferentWords(p: Reg, s: Reg, a: seq<Byte>, b: seq<Byte>)
    requires p[31]
    requires |a| == |b| <= 4 && a != b
    ensures Register(p, s, a) != Register(p, s, b)
  {
    RegisterLinear(p, s, s, a, b);
    XorSelf(s);
    var w := XorData(a, b);
    AbsorbPacked(p, w);
    PackNonZero(a, b);
    ShiftZero(p);
    IterateFixed(Turn(p), Zero(), 8 * |w|);
    ShiftByInjective(p, Pack(w), Zero(), 8 * |w|);
    XorSelf(Register(p, s, a));
  }

  lemma XorSelf(x: Reg)
    ensures Xor(x, x) == Zero()
  {
  }

  lemma PackNonZero(a: seq<Byte>, b: seq<Byte>)
    requires |a| == |b| <= 4 && a != b
    ensures Pack(XorData(a, b)) != Zero()
  {
    var w := XorData(a, b);
    var j :| 0 <= j < |a| && a[j] != b[j];
    var i :| 0 <= i < 8 && a[j][i] != b[j][i];
    assert w[j][i];
    assert (8 * j + i) / 8 == j && (8 * j + i) % 8 == i;
    assert Pack(w)[8 * j + i];
  }
}

/** CRC-32 as it is defined: the remainder of dividing the message, as a polynomial over the two-element
    field, by the generator.

    A polynomial is the sequence of its coefficients, that of the highest power first.  The message gives its
    bits in order, the lowest bit of each byte first, so that bit `i` of the register stands for the power
    `31 - i`. */
module CrcDivision {
  import opened Crc

  /** The powers of the generator. */
  const POWERS: set<int> := {0, 1, 2, 4, 5, 7, 8, 10, 11, 12, 16, 22, 23, 26, 32}

  /** The coefficient `i` places from the top of the generator. */
  predicate Generator(i: int) {
    32 - i in POWERS
  }

  /** What long division by the generator leaves of a polynomial: while a power above 31 is there, the generator
      is taken away from the top if its coefficient is set. */
  function Remainder(h: seq<bool>): (r: Reg)
    requires |h| >= 32
    decreases |h|
  {
    if |h| == 32 then h
    else
      Remainder(seq(|h| - 1, i requires 0 <= i < |h| - 1 => h[i + 1] != (h[0] && Generator(i + 1))))
  }

  /** The bits of a message in the order they are sent. */
  function BitsOf(data: seq<Byte>): (r: seq<bool>)
    ensures |r| == 8 * |data|
  {
    if data == [] then [] else BitsOf(data[..|data| - 1]) + data[|data| - 1]
  }

  /** The message times the 32nd power, with the first 32 coefficients added to `start`. */
  function Dividend(start: Reg, bits: seq<bool>): (h: seq<bool>)
    ensures |h| == |bits| + 32
    ensures forall i :: 0 <= i < |h| ==> h[i] == ((i < |bits| && bits[i]) != (i < 32 && start[i]))
  {
    seq(|bits| + 32, i requires 0 <= i < |bits| + 32 => (i < |bits| && bits[i]) != (i < 32 && start[i]))
  }

  // ---- The register bit by bit ----

  function Flip(r: Reg, b: bool): (x: Reg)
    ensures forall i :: 0 <= i < 32 ==> x[i] == (r[i] != (i == 0 && b))
  {
    seq(32, i requires 0 <= i < 32 => r[i] != (i == 0 && b))
  }

  function Feed(p: Reg, r: Reg, bits: seq<bool>): Reg
    decreases |bits|
  {
    if bits == [] then r else Shift(p, Flip(Feed(p, r, bits[..|bits| - 1]), bits[|bits| - 1]))
  }

  lemma {:induction false} FeedConcat(p: Reg, r: Reg, a: seq<bool>, b: seq<bool>)
    ensures Feed(p, r, a + b) == Feed(p, Feed(p, r, a), b)
    decreases |b|
  {
    if b == [] {
      assert a + b == a;
    } else {
      assert (a + b)[..|a + b| - 1] == a + b[..|b| - 1];
      FeedConcat(p, r, a, b[..|b| - 1]);
    }
  }

  /** The first `k` bits of a byte as the low bits of a register. */
  function Low(b: Byte, k: nat): (r: Reg)
    requires k <= 8
    ensures forall i :: 0 <= i < 32 ==> r[i] == (i < k && b[i])
  {
    seq(32, i requires 0 <= i < 32 => i < k && b[i])
  }

  /** Bit `k` of a byte in its place. */
  function One(b: Byte, k: nat): (r: Reg)
    requires k < 8
    ensures forall i :: 0 <= i < 32 ==> r[i] == (i == k && b[k])
  {
    seq(32, i requires 0 <= i < 32 => i == k && b[k])
  }

  lemma LowMore(p: Reg, r: Reg, x: Reg, b: Byte, k: nat)
    requires k < 8
    ensures Xor(r, Low(b, k + 1)) == Xor(Xor(r, Low(b, k)), One(b, k))
    ensures Xor(x, ShiftBy(p, One(b, k), k)) == Flip(x, b[k])
  {
    ClearLowShift(p, One(b, k), k);
  }

  /** Taking a byte's bits one at a time comes to the same as adding the byte first. */
  lemma {:induction false} FeedByte(p: Reg, r: Reg, b: Byte, k: nat)
    requires k <= 8
    ensures Feed(p, r, b[..k]) == ShiftBy(p, Xor(r, Low(b, k)), k)
    decreases k
  {
    if k == 0 {
      assert Xor(r, Low(b, 0)) == r;
    } else {
      hide Shift, Xor, Low, One, Flip;
      FeedByte(p, r, b, k - 1);
      assert b[..k][..k - 1] == b[..k - 1] && b[..k][k - 1] == b[k - 1];
      ShiftByLinear(p, Xor(r, Low(b, k - 1)), One(b, k - 1), k - 1);
      LowMore(p, r, ShiftBy(p, Xor(r, Low(b, k - 1)), k - 1), b, k - 1);
    }
  }

  lemma {:induction false} RegisterIsFeed(p: Reg, r: Reg, data: seq<Byte>)
    ensures Register(p, r, data) == Feed(p, r, BitsOf(data))
    decreases |data|
  {
    if data != [] {
      var init, last := data[..|data| - 1], data[|data| - 1];
      RegisterIsFeed(p, r, init);
      FeedConcat(p, r, BitsOf(init), last);
      hide Shift, Xor, ShiftBy, Feed;
      FeedByte(p, Register(p, r, init), last, 8);
      assert last[..8] == last && Low(last, 8) == Widen(last);
    }
  }

  // ---- The register and the division ----

  lemma PowerValues(k: nat, w: nat)
    requires Pow2(k) == w
    ensures Pow2(k + 1) == 2 * w && Pow2(k + 2) == 4 * w && Pow2(k + 3) == 8 * w && Pow2(k + 4) == 16 * w
  {
    assert Pow2(k + 1) == 2 * w && Pow2(k + 2) == 4 * w && Pow2(k + 3) == 8 * w;
  }

  /** Four bits of the polynomial, from the power of two at which they begin. */
  lemma FourBits(k: nat, w: nat)
    requires k + 4 <= 32 && Pow2(k) == w
    ensures Pow2(k + 4) == 16 * w
    ensures Poly()[k] == (0xEDB88320 / w % 2 == 1) && Poly()[k + 1] == (0xEDB88320 / (2 * w) % 2 == 1)
    ensures Poly()[k + 2] == (0xEDB88320 / (4 * w) % 2 == 1) && Poly()[k + 3] == (0xEDB88320 / (8 * w) % 2 == 1)
  {
    PowerValues(k, w);
  }

  /** The polynomial of the code is the generator without its top power. */
  lemma PolyIsGenerator()
    ensures forall i :: 0 <= i < 32 ==> Poly()[i] == Generator(i + 1)
  {
    hide Poly, Pow2;
    PowerOfNone();
    FourBits(0, 1);
    FourBits(4, 0x10);
    FourBits(8, 0x100);
    FourBits(12, 0x1000);
    FourBits(16, 0x1_0000);
    FourBits(20, 0x10_0000);
    FourBits(24, 0x100_0000);
    FourBits(28, 0x1000_0000);
  }

  lemma PowerOfNone()
    ensures Pow2(0) == 1
  {
  }

  /** One bit fed in is one step of the division. */
  lemma DividendStep(r: Reg, bits: seq<bool>)
    requires bits != []
    ensures var h := Dividend(r, bits);
            Dividend(Shift(Poly(), Flip(r, bits[0])), bits[1..]) ==
              seq(|h| - 1, i requires 0 <= i < |h| - 1 => h[i + 1] != (h[0] && Generator(i + 1)))
  {
    hide Poly;
    PolyIsGenerator();
  }

  lemma {:induction false} FeedIsRemainder(r: Reg, bits: seq<bool>)
    ensures Feed(Poly(), r, bits) == Remainder(Dividend(r, bits))
    decreases |bits|
  {
    if bits == [] {
      assert Dividend(r, bits) == r;
    } else {
      var b, rest := bits[0], bits[1..];
      var next := Shift(Poly(), Flip(r, b));
      hide Shift, Poly, Dividend, Generator;
      assert bits == [b] + rest && [b][..0] == [];
      FeedConcat(Poly(), r, [b], rest);
      assert Feed(Poly(), r, [b][..0]) == r && Feed(Poly(), r, [b]) == next;
      FeedIsRemainder(next, rest);
      DividendStep(r, bits);
    }
  }

  /** CRC-32: the message with 32 zeros behind it and its first 32 bits inverted, divided by the generator; the
      result is the remainder, inverted. */
  lemma CrcIsRemainder(data: seq<Byte>, i: nat)
    requires i < 32
    ensures var ones := seq(32, _ => true);
            Crc32(data)[i] == !Remainder(Dividend(ones, BitsOf(data)))[i]
  {
    var ones: Reg := seq(32, _ => true);
    assert ones == Ones();
    RegisterIsFeed(Poly(), ones, data);
    FeedIsRemainder(ones, BitsOf(data));
  }
}

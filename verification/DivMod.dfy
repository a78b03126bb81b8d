/**
 * 64-bit division for a 32-bit target: a shift-subtract loop on unsigned words
 * and the signed wrappers that call it (lib/divmod64.c).
 *
 * Words are naturals below 2^64; shifts, the bit test, the bitwise or, the casts
 * and the negations are written out on them, truncating where the machine does.
 */
module DivMod {
  const TwoTo63: int := 0x8000_0000_0000_0000
  const TwoTo64: int := 0x1_0000_0000_0000_0000

  type U64 = n: nat | n < TwoTo64
  type I64 = n: int | -TwoTo63 <= n < TwoTo63

  // ----- Machine operations -----

  function ShiftLeft(x: U64): U64 {
    x * 2 % TwoTo64
  }

  function ShiftRight(x: U64): U64 {
    x / 2
  }

  predicate TopBitSet(x: U64) {
    x / TwoTo63 % 2 == 1
  }

  /** Bitwise or, digit by digit. */
  function Or(x: nat, y: nat): nat {
    if x == 0 && y == 0 then 0
    else 2 * Or(x / 2, y / 2) + (if x % 2 == 1 || y % 2 == 1 then 1 else 0)
  }

  /** Bit pattern of a signed word. */
  function Unsigned(x: I64): U64 {
    x % TwoTo64
  }

  /** Two's-complement reading of a word. */
  function Signed(x: U64): I64 {
    if x < TwoTo63 then x else x - TwoTo64
  }

  function NegateUnsigned(x: U64): U64 {
    (TwoTo64 - x) % TwoTo64
  }

  /** Negation of a signed word as two's complement hardware performs it. */
  function NegateSigned(x: I64): (r: I64)
    ensures r == if x == -TwoTo63 then x else -x
  {
    Signed(NegateUnsigned(Unsigned(x)))
  }

  // ----- Powers of two -----

  ghost predicate PowerOfTwo(x: nat) {
    x == 1 || (x > 0 && x % 2 == 0 && PowerOfTwo(x / 2))
  }

  lemma OrZero(x: nat)
    ensures Or(x, 0) == x
  {
  }

  /** Setting a bit in a word that is zero up to and including it is addition. */
  lemma {:induction false} OrIsSum(q: nat, bit: nat)
    requires PowerOfTwo(bit)
    requires q % (2 * bit) == 0
    ensures Or(q, bit) == q + bit
  {
    if bit == 1 {
      OrZero(q / 2);
    } else {
      HalfDivides(q, bit);
      OrIsSum(q / 2, bit / 2);
    }
  }

  lemma HalfDivides(q: nat, bit: nat)
    requires bit > 0 && bit % 2 == 0
    requires q % (2 * bit) == 0
    ensures q % 2 == 0 && q / 2 % (2 * (bit / 2)) == 0
  {
    var k := q / (2 * bit);
    assert q == 2 * (bit * k);
    assert q / 2 == bit * k;
    MultipleMod(bit, k);
  }

  lemma MultipleMod(d: nat, k: nat)
    requires d > 0
    ensures d * k % d == 0
  {
    DivModUnique(d * k, d, k, 0);
  }

  lemma AtLeastOnce(d: nat, k: int)
    requires k >= 1
    ensures d * k >= d
    ensures d * k >= k * (if d == 0 then 0 else 1)
  {
  }

  lemma Distribute(d: int, a: int, b: int)
    ensures d * (a + b) == d * a + d * b
    ensures d * (a - b) == d * a - d * b
  {
  }

  /** Quotient and remainder are determined by the division equation. */
  lemma DivModUnique(n: nat, d: nat, q: nat, r: nat)
    requires d > 0 && n == d * q + r && r < d
    ensures q == n / d && r == n % d
  {
    EqualQuotients(d, q, r, n / d, n % d);
  }

  lemma EqualQuotients(d: nat, q: int, r: int, q': int, r': int)
    requires 0 <= r < d && 0 <= r' < d
    requires d * q + r == d * q' + r'
    ensures q == q' && r == r'
  {
    Distribute(d, q', q);
    Distribute(d, q, q');
    if q < q' {
      AtLeastOnce(d, q' - q);
    } else if q' < q {
      AtLeastOnce(d, q - q');
    }
  }

  // ----- Unsigned division -----

  /** Between two rounds: what has been subtracted is counted in the quotient. */
  ghost predicate Partial(n: nat, d: nat, q: nat, rem: nat, shifted: nat, bit: nat) {
    && PowerOfTwo(bit)
    && shifted == d * bit
    && n == d * q + rem
    && rem < 2 * shifted
    && q % (2 * bit) == 0
  }

  lemma SubtractStep(n: nat, d: nat, q: nat, rem: nat, shifted: nat, bit: nat)
    requires Partial(n, d, q, rem, shifted, bit)
    requires rem >= shifted
    ensures Or(q, bit) == q + bit
    ensures n == d * (q + bit) + (rem - shifted)
    ensures (q + bit) % bit == 0
  {
    OrIsSum(q, bit);
    Distribute(d, q, bit);
    KeepStep(q, bit);
    NextMultiple(q, bit);
  }

  lemma NextMultiple(q: nat, bit: nat)
    requires bit > 0 && q % bit == 0
    ensures (q + bit) % bit == 0
  {
    var k := q / bit;
    assert q == bit * k;
    Distribute(bit, k, 1);
    MultipleMod(bit, k + 1);
  }

  lemma KeepStep(q: nat, bit: nat)
    requires bit > 0 && q % (2 * bit) == 0
    ensures q % bit == 0
  {
    var k := q / (2 * bit);
    assert q == bit * (2 * k);
    MultipleMod(bit, 2 * k);
  }

  lemma HalveStep(d: nat, shifted: nat, bit: nat)
    requires PowerOfTwo(bit) && shifted == d * bit && bit > 1
    ensures shifted / 2 == d * (bit / 2)
    ensures shifted % 2 == 0
  {
    assert bit == 2 * (bit / 2);
    assert shifted == 2 * (d * (bit / 2));
  }

  lemma ShiftBoth(divisor: U64, shifted: U64, bit: U64)
    requires PowerOfTwo(bit) && shifted == divisor * bit && 0 < bit <= shifted && !TopBitSet(shifted)
    ensures ShiftLeft(shifted) == 2 * shifted && ShiftLeft(bit) == 2 * bit
    ensures PowerOfTwo(ShiftLeft(bit)) && ShiftLeft(shifted) == divisor * ShiftLeft(bit)
  {
    assert 2 * bit / 2 == bit;
    DoubleProduct(divisor, bit);
  }

  lemma DoubleProduct(a: int, b: int)
    ensures a * (2 * b) == 2 * (a * b)
  {
  }

  /** Shifts the divisor until its top bit is set; no shift drops a bit. */
  method Normalise(divisor: U64) returns (shifted: U64, bit: U64)
    requires divisor != 0
    ensures PowerOfTwo(bit) && shifted == divisor * bit
    ensures TwoTo63 <= shifted
  {
    shifted, bit := divisor, 1;
    while !TopBitSet(shifted)
      invariant PowerOfTwo(bit) && shifted == divisor * bit
      invariant 0 < bit <= shifted
      decreases TwoTo64 - shifted
    {
      ShiftBoth(divisor, shifted, bit);
      shifted, bit := ShiftLeft(shifted), ShiftLeft(bit);
    }
  }

  method UDivMod64(dividend: U64, divisor: U64) returns (quot: U64, rem: U64)
    ensures divisor == 0 ==> quot == 0 && rem == 0
    ensures divisor != 0 ==>
              && dividend == divisor * quot + rem
              && rem < divisor
  {
    if divisor == 0 {
      return 0, 0;
    }
    if divisor == 1 {
      return dividend, 0;
    }
    if dividend < divisor {
      return 0, dividend;
    }
    if dividend == divisor {
      return 1, 0;
    }
    quot, rem := Subtract(dividend, divisor);
  }

  method Subtract(dividend: U64, divisor: U64) returns (quot: U64, rem: U64)
    requires divisor != 0
    ensures dividend == divisor * quot + rem
    ensures rem < divisor
  {
    var shifted, bit := Normalise(divisor);
    var q: nat := 0;
    rem := dividend;
    var more := true;
    while more
      invariant more ==> Partial(dividend, divisor, q, rem, shifted, bit)
      invariant !more ==> dividend == divisor * q + rem && rem < divisor
      invariant q <= dividend
      decreases more, bit
    {
      if rem >= shifted {
        SubtractStep(dividend, divisor, q, rem, shifted, bit);
        rem := rem - shifted;
        q := Or(q, bit);
      } else {
        KeepStep(q, bit);
      }
      QuotientBounded(dividend, divisor, q, rem);
      assert rem < shifted && q % bit == 0;
      if bit > 1 {
        HalveStep(divisor, shifted, bit);
      }
      shifted, bit := ShiftRight(shifted), ShiftRight(bit);
      more := bit != 0;
    }
    quot := q;
  }

  lemma QuotientBounded(n: nat, d: nat, q: nat, r: nat)
    requires d > 0 && n == d * q + r
    ensures q <= n
  {
    if q > 0 {
      AtLeastOnce(d, q);
    }
  }

  method UDiv(dividend: U64, divisor: U64) returns (quot: U64)
    ensures quot == if divisor == 0 then 0 else dividend / divisor
  {
    var rem;
    quot, rem := UDivMod64(dividend, divisor);
    if divisor != 0 {
      DivModUnique(dividend, divisor, quot, rem);
    }
  }

  method UMod(dividend: U64, divisor: U64) returns (rem: U64)
    ensures rem == if divisor == 0 then 0 else dividend % divisor
  {
    var quot;
    quot, rem := UDivMod64(dividend, divisor);
    if divisor != 0 {
      DivModUnique(dividend, divisor, quot, rem);
    }
  }

  // ----- Signed division -----

  function Abs(x: int): nat {
    if x < 0 then -x else x
  }

  /** Division as section 6.5.5 of ISO C11 has it: truncation toward zero. */
  ghost predicate Truncates(n: int, d: int, q: int, r: int) {
    && n == d * q + r
    && Abs(r) < Abs(d)
    && (r > 0 ==> n > 0)
    && (r < 0 ==> n < 0)
  }

  lemma SignOut(d: int, q: int)
    ensures d * -q == -(d * q)
    ensures -d * q == -(d * q)
  {
  }

  /** The value the signed wrappers pass to the unsigned division. */
  function Magnitude(x: I64): (m: U64)
    ensures m == Abs(x)
  {
    if x < 0 then NegateUnsigned(Unsigned(x)) else Unsigned(x)
  }

  /** The quotient truncation asks for. */
  function TruncatedQuotient(n: int, d: int): int
    requires d != 0
  {
    var q := Abs(n) / Abs(d);
    if (n < 0) != (d < 0) then -q else q
  }

  function TruncatedRemainder(n: int, d: int): int
    requires d != 0
  {
    var r := Abs(n) % Abs(d);
    if n < 0 then -r else r
  }

  /** The two numbers above meet both of C's requirements. */
  lemma TruncatedTruncates(n: int, d: int)
    requires d != 0
    ensures Truncates(n, d, TruncatedQuotient(n, d), TruncatedRemainder(n, d))
  {
    var a, b := Abs(n), Abs(d);
    var q, r := Euclid(a, b);
    EuclideanTruncates(n, d, q, r);
  }

  lemma Euclid(a: nat, b: nat) returns (q: int, r: int)
    requires b > 0
    ensures q == a / b && r == a % b && 0 <= q && 0 <= r < b && a == b * q + r
  {
    q, r := a / b, a % b;
  }

  lemma EuclideanTruncates(n: int, d: int, q: int, r: int)
    requires 0 <= q && 0 <= r < Abs(d)
    requires Abs(n) == Abs(d) * q + r
    ensures Truncates(n, d, if (n < 0) != (d < 0) then -q else q, if n < 0 then -r else r)
  {
    SignOut(d, q);
    assert Abs(d) * q >= 0;
  }

  /** No other two numbers do. */
  lemma TruncatesUnique(n: int, d: int, q: int, r: int)
    requires d != 0
    requires Truncates(n, d, q, r)
    ensures q == TruncatedQuotient(n, d) && r == TruncatedRemainder(n, d)
  {
    var a, b := Abs(n), Abs(d);
    var s := if (n < 0) == (d < 0) then q else -q;
    SignOut(b, q);
    SignOut(d, q);
    assert a == b * s + Abs(r);
    QuotientsAgree(a, b, s, Abs(r));
  }

  lemma QuotientsAgree(a: nat, b: nat, s: int, r: nat)
    requires r < b && a == b * s + r
    ensures s == a / b && r == a % b
  {
    EqualQuotients(b, s, r, a / b, a % b);
  }

  /** The truncated quotient is a word unless the smallest word is divided by -1. */
  lemma QuotientFits(n: I64, d: I64)
    requires d != 0
    ensures -TwoTo63 <= TruncatedQuotient(n, d) <= TwoTo63
    ensures TruncatedQuotient(n, d) == TwoTo63 <==> n == -TwoTo63 && d == -1
  {
    var a, b := Abs(n), Abs(d);
    QuotientBelow(a, b);
  }

  lemma QuotientBelow(a: nat, b: nat)
    requires b > 0
    ensures b == 1 ==> a / b == a
    ensures a / b <= a
    ensures b > 1 && a > 0 ==> a / b < a
  {
    var q := a / b;
    assert a == b * q + a % b;
    if q > 0 {
      AtLeastOnce(b, q);
      if b > 1 {
        AtLeastOnce(b - 1, q);
        Distribute(q, b - 1, 1);
      }
    }
  }

  /** The wrapper truncates, except for the one quotient that is not a word. */
  method Div(dividend: I64, divisor: I64) returns (quot: I64)
    ensures divisor == 0 ==> quot == 0
    ensures divisor != 0 ==>
              (quot == TruncatedQuotient(dividend, divisor) <==> !(dividend == -TwoTo63 && divisor == -1))
    ensures dividend == -TwoTo63 && divisor == -1 ==> quot == -TwoTo63
  {
    var neg := (dividend < 0) != (divisor < 0);
    var q := UDiv(Magnitude(dividend), Magnitude(divisor));
    if divisor != 0 {
      QuotientFits(dividend, divisor);
    }
    quot := if neg then NegateSigned(Signed(q)) else Signed(q);
  }

  method Mod(dividend: I64, divisor: I64) returns (rem: I64)
    ensures divisor == 0 ==> rem == 0
    ensures divisor != 0 ==> rem == TruncatedRemainder(dividend, divisor)
  {
    var r := UMod(Magnitude(dividend), Magnitude(divisor));
    assert r < TwoTo63;
    rem := if dividend < 0 then NegateSigned(Signed(r)) else Signed(r);
  }
}

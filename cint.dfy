/** The C `int` of the programs: 32 bits, two's complement.  Signed overflow is
    undefined behaviour (ISO/IEC 9899:2011 section 6.5 paragraph 5), so members
    that do arithmetic on `int32` exclude it with preconditions.

    Bitwise operators work on the two's-complement bit pattern of a value, here
    read as an unsigned number in [0, 2^32).  `And` and `Xor` define the bitwise
    operators on such numbers one bit at a time (lowest bit first). */
module CInt {

  newtype int32 = x: int | -0x8000_0000 <= x < 0x8000_0000

  const INT_MIN: int := -0x8000_0000
  const INT_MAX: int := 0x7FFF_FFFF
  const TWO_32: int := 0x1_0000_0000

  /** `x` is representable as a C `int`. */
  predicate InRange(x: int) {
    INT_MIN <= x <= INT_MAX
  }

  /** An object holding one `int`: what `int *` points to.  Two pointers are
      aliases exactly when they are the same `Cell`. */
  class Cell {
    var value: int32

    constructor (v: int32)
      ensures value == v
    {
      value := v;
    }
  }

  function Pow2(k: nat): (p: nat)
    ensures p >= 1
  {
    if k == 0 then 1 else 2 * Pow2(k - 1)
  }

  lemma {:induction false} Pow2Add(a: nat, b: nat)
    ensures Pow2(a + b) == Pow2(a) * Pow2(b)
  {
    if a > 0 { Pow2Add(a - 1, b); }
  }

  lemma Pow2Values()
    ensures Pow2(31) == 0x8000_0000 && Pow2(32) == TWO_32
  {
    assert Pow2(8) == 256;
    Pow2Add(8, 8);
    Pow2Add(16, 8);
    Pow2Add(24, 7);
    Pow2Add(31, 1);
  }

  // ---------------------------------------------------------------------
  // Bit patterns

  /** The two's-complement bit pattern of `x` as an unsigned 32-bit number:
      the only number below 2^32 congruent to `x` modulo 2^32. */
  function Bits(x: int32): (u: nat)
    ensures u < TWO_32 && (u - x as int) % TWO_32 == 0
    ensures (x < 0) == (u >= 0x8000_0000)
  {
    if x >= 0 then x as int else x as int + TWO_32
  }

  /** The `int` whose bit pattern is `u`. */
  function OfBits(u: nat): (x: int32)
    requires u < TWO_32
    ensures Bits(x) == u
  {
    if u < 0x8000_0000 then u as int32 else (u - TWO_32) as int32
  }

  lemma OfBitsOfBits(x: int32)
    ensures OfBits(Bits(x)) == x
  {
  }

  /** Decrementing a nonzero `int` decrements its bit pattern (no borrow out of the top bit). */
  lemma BitsPred(x: int32)
    requires x != 0 && x as int != INT_MIN
    ensures Bits(x - 1) == Bits(x) - 1
  {
  }

  // ---------------------------------------------------------------------
  // Bitwise operators on unsigned numbers

  /** Bitwise AND. */
  function And(a: nat, b: nat): (r: nat)
    ensures r <= a && r <= b
  {
    if a == 0 || b == 0 then 0
    else 2 * And(a / 2, b / 2) + (if a % 2 == 1 && b % 2 == 1 then 1 else 0)
  }

  /** Bitwise exclusive OR. */
  function Xor(a: nat, b: nat): (r: nat)
    ensures r <= a + b
    decreases a + b
  {
    if a == 0 && b == 0 then 0
    else 2 * Xor(a / 2, b / 2) + (if a % 2 != b % 2 then 1 else 0)
  }

  /** Number of 1 bits. */
  function PopCount(u: nat): (n: nat)
    ensures n <= u && (n == 0 <==> u == 0)
  {
    if u == 0 then 0 else u % 2 + PopCount(u / 2)
  }

  /** The bit-by-bit recurrence holds for every pair, zeroes included. */
  lemma AndStep(a: nat, b: nat)
    ensures And(a, b) == 2 * And(a / 2, b / 2) + (if a % 2 == 1 && b % 2 == 1 then 1 else 0)
  {
  }

  lemma XorStep(a: nat, b: nat)
    ensures Xor(a, b) == 2 * Xor(a / 2, b / 2) + (if a % 2 != b % 2 then 1 else 0)
  {
  }

  lemma {:induction false} AndSelf(a: nat)
    ensures And(a, a) == a
  {
    if a > 0 { AndSelf(a / 2); }
  }

  lemma AndLowBit(a: nat)
    ensures And(a, 1) == a % 2
  {
    AndStep(a, 1);
  }

  /** AND with a mask of k ones keeps the low k bits, so it is the identity below 2^k. */
  lemma {:induction false} AndOnes(a: nat, k: nat)
    requires a < Pow2(k)
    ensures And(a, Pow2(k) - 1) == a
  {
    if k > 0 && a > 0 {
      AndOnes(a / 2, k - 1);
      AndStep(a, Pow2(k) - 1);
    }
  }

  lemma {:induction false} XorBound(a: nat, b: nat, k: nat)
    requires a < Pow2(k) && b < Pow2(k)
    ensures Xor(a, b) < Pow2(k)
  {
    if a + b > 0 {
      XorBound(a / 2, b / 2, k - 1);
    }
  }

  lemma XorZero(a: nat)
    ensures Xor(a, 0) == a && Xor(0, a) == a
  {
    if a > 0 { XorZero(a / 2); }
  }

  lemma {:induction false} XorSelf(a: nat)
    ensures Xor(a, a) == 0
  {
    if a > 0 { XorSelf(a / 2); }
  }

  lemma {:induction false} XorComm(a: nat, b: nat)
    ensures Xor(a, b) == Xor(b, a)
    decreases a + b
  {
    if a + b > 0 { XorComm(a / 2, b / 2); }
  }

  /** XORing with the same value twice gives back the original. */
  lemma {:induction false} XorCancel(a: nat, b: nat)
    ensures Xor(Xor(a, b), b) == a
    decreases a + b
  {
    if a + b > 0 {
      XorCancel(a / 2, b / 2);
      var x := Xor(a, b);
      XorStep(a, b);
      assert x / 2 == Xor(a / 2, b / 2);
      XorStep(x, b);
    }
  }

  /** XOR with k ones is the k-bit complement. */
  lemma {:induction false} XorOnes(a: nat, k: nat)
    requires a < Pow2(k)
    ensures Xor(a, Pow2(k) - 1) == Pow2(k) - 1 - a
  {
    if k > 0 {
      XorOnes(a / 2, k - 1);
      XorStep(a, Pow2(k) - 1);
    }
  }

  /** The value of the lowest set bit of a positive number. */
  function LowBit(u: nat): (b: nat)
    requires u > 0
    ensures 1 <= b <= u
  {
    if u % 2 == 1 then 1 else 2 * LowBit(u / 2)
  }

  /** `u & (u - 1)` is `u` with its lowest set bit taken away. */
  lemma {:induction false} ClearsLowBit(u: nat)
    requires u > 0
    ensures And(u, u - 1) == u - LowBit(u)
  {
    AndStep(u, u - 1);
    var h := u / 2;
    if u % 2 == 1 {
      AndSelf(h);
      Halves(h);
      assert u - 1 == 2 * h && (u - 1) / 2 == h && (u - 1) % 2 == 0;
      assert And(u, u - 1) == 2 * h;
    } else {
      ClearsLowBit(h);
      Halves(h - 1);
      assert u - 1 == 2 * (h - 1) + 1 && (u - 1) / 2 == h - 1;
      assert And(u, u - 1) == 2 * And(h, h - 1);
      assert LowBit(u) == 2 * LowBit(h);
    }
  }

  /** Kernighan's step: `u & (u - 1)` clears exactly the lowest set bit of `u`, so one set
      bit fewer remains. */
  lemma {:induction false} ClearLowestSetBit(u: nat)
    requires u > 0
    ensures And(u, u - 1) == u - LowBit(u)
    ensures PopCount(And(u, u - 1)) == PopCount(u) - 1
  {
    ClearsLowBit(u);
    AndStep(u, u - 1);
    var r := And(u, u - 1);
    var h := u / 2;
    if u % 2 == 1 {
      AndSelf(h);
      Halves(h);
      assert r == u - 1 && u - 1 == 2 * h;
      PopCountEven(u - 1);
      assert PopCount(u) == 1 + PopCount(h);
    } else {
      ClearLowestSetBit(h);
      Halves(h - 1);
      assert u - 1 == 2 * (h - 1) + 1;
      assert r == 2 * And(h, h - 1);
      Halves(And(h, h - 1));
      PopCountEven(r);
      PopCountEven(u);
    }
  }

  lemma Halves(x: nat)
    ensures (2 * x) / 2 == x && (2 * x) % 2 == 0 && (2 * x + 1) / 2 == x
  {
  }

  /** An even number has the bits of its half. */
  lemma PopCountEven(r: nat)
    requires r % 2 == 0
    ensures PopCount(r) == PopCount(r / 2)
  {
  }

  /** `u & (u - 1)` is zero exactly for the powers of two. */
  lemma {:induction false} PowerOfTwoCriterion(u: nat)
    requires u > 0
    ensures And(u, u - 1) == 0 <==> exists k: nat :: u == Pow2(k)
  {
    if And(u, u - 1) == 0 {
      var k := PowerOfTwoLog(u);
    } else if exists k: nat :: u == Pow2(k) {
      var k: nat :| u == Pow2(k);
      AndOfPowerOfTwo(k);
    }
  }

  lemma {:induction false} PowerOfTwoLog(u: nat) returns (k: nat)
    requires u > 0 && And(u, u - 1) == 0
    ensures u == Pow2(k)
  {
    AndStep(u, u - 1);
    if u == 1 {
      k := 0;
    } else if u % 2 == 1 {
      AndSelf(u / 2);
      assert false;
    } else {
      assert (u - 1) / 2 == u / 2 - 1;
      var j := PowerOfTwoLog(u / 2);
      k := j + 1;
    }
  }

  lemma {:induction false} AndOfPowerOfTwo(k: nat)
    ensures And(Pow2(k), Pow2(k) - 1) == 0
  {
    if k > 0 {
      AndOfPowerOfTwo(k - 1);
      AndStep(Pow2(k), Pow2(k) - 1);
    }
  }

  /** AND of two numbers with the same top bit k keeps that bit. */
  lemma {:induction false} AndKeepsTopBit(a: nat, b: nat, k: nat)
    requires Pow2(k) <= a < 2 * Pow2(k) && Pow2(k) <= b < 2 * Pow2(k)
    ensures Pow2(k) <= And(a, b)
  {
    if k > 0 {
      AndKeepsTopBit(a / 2, b / 2, k - 1);
      AndStep(a, b);
    }
  }

  lemma {:induction false} PopCountBound(u: nat, k: nat)
    requires u < Pow2(k)
    ensures PopCount(u) <= k
  {
    if u > 0 { PopCountBound(u / 2, k - 1); }
  }

  // ---------------------------------------------------------------------
  // The C operators on int32

  /** `x & y` */
  function BitAnd(x: int32, y: int32): (r: int32)
    ensures Bits(r) == And(Bits(x), Bits(y))
  {
    OfBits(And(Bits(x), Bits(y)))
  }

  /** `x ^ y` */
  function BitXor(x: int32, y: int32): (r: int32)
    ensures Bits(r) == Xor(Bits(x), Bits(y))
  {
    Pow2Values();
    XorBound(Bits(x), Bits(y), 32);
    OfBits(Xor(Bits(x), Bits(y)))
  }

  /** `(x ^ y) ^ y == x`: the step the XOR swap relies on. */
  lemma BitXorCancel(x: int32, y: int32)
    ensures BitXor(BitXor(x, y), y) == x
    ensures BitXor(y, BitXor(x, y)) == x
  {
    XorCancel(Bits(x), Bits(y));
    XorComm(Bits(y), Xor(Bits(x), Bits(y)));
    OfBitsOfBits(x);
  }

  lemma BitXorComm(x: int32, y: int32)
    ensures BitXor(x, y) == BitXor(y, x)
  {
    XorComm(Bits(x), Bits(y));
  }

  lemma BitXorSelf(x: int32)
    ensures BitXor(x, x) == 0
  {
    XorSelf(Bits(x));
  }

  lemma BitXorZero(x: int32)
    ensures BitXor(x, 0) == x && BitXor(0, x) == x
  {
    XorZero(Bits(x));
    OfBitsOfBits(x);
  }

  /** `-1` is the all-ones mask: AND with it is the identity. */
  lemma BitAndMinusOne(x: int32)
    ensures BitAnd(x, -1) == x && BitAnd(x, 0) == 0
  {
    Pow2Values();
    AndOnes(Bits(x), 32);
    OfBitsOfBits(x);
  }
}

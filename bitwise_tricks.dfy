/** The bit tricks of loopholes/03_bitwise_tricks.c on a 32-bit two's-complement `int`. */
module BitwiseTricks {
  import opened CInt
  import opened Results

  datatype Fault = SignedOverflow

  /** `is_power_of_two`: n is positive and has no bit in common with its predecessor,
      as the C truth value 1 or 0.  The positivity test short-circuits, so the
      predecessor is only formed for n > 0. */
  function IsPowerOfTwo(n: int32): (r: int32)
    ensures r == 0 || r == 1
    ensures r == 1 <==> exists k: nat :: n as int == Pow2(k)
  {
    if n > 0 then
      PowerOfTwoCriterion(n as int);
      if BitAnd(n, n - 1) == 0 then 1 else 0
    else
      0
  }

  lemma PowerOfTwoExamples()
    ensures IsPowerOfTwo(1) == 1 && IsPowerOfTwo(2) == 1 && IsPowerOfTwo(4) == 1
    ensures IsPowerOfTwo(8) == 1 && IsPowerOfTwo(16) == 1
    ensures IsPowerOfTwo(3) == 0 && IsPowerOfTwo(5) == 0 && IsPowerOfTwo(7) == 0
    ensures forall n: int32 :: n <= 0 ==> IsPowerOfTwo(n) == 0
  {
    assert Pow2(0) == 1 && Pow2(1) == 2 && Pow2(2) == 4 && Pow2(3) == 8 && Pow2(4) == 16;
    NotPowerOfTwo(3, 2);
    NotPowerOfTwo(5, 3);
    NotPowerOfTwo(7, 3);
  }

  /** A number strictly between 2^(k-1) and 2^k is no power of two. */
  lemma NotPowerOfTwo(u: nat, k: nat)
    requires 0 < k && Pow2(k - 1) < u < Pow2(k)
    ensures forall j: nat :: u != Pow2(j)
  {
    forall j: nat ensures u != Pow2(j) {
      if j < k { Pow2Monotone(j, k - 1); } else { Pow2Monotone(k, j); }
    }
  }

  lemma {:induction false} Pow2Monotone(i: nat, j: nat)
    requires i <= j
    ensures Pow2(i) <= Pow2(j)
  {
    if i < j { Pow2Monotone(i, j - 1); }
  }

  /** `count_set_bits` exactly as written: Kernighan's loop, which clears the lowest set bit
      by and-ing n with its predecessor, run on the signed `int`.
      For a negative argument the sign bit is never cleared before every lower bit is, so
      the loop reaches n == INT_MIN and then evaluates INT_MIN - 1, a signed overflow; that
      undefined step is the `Err` outcome here. */
  method CountSetBits(n: int32) returns (r: Result<int32, Fault>)
    ensures r.Err? <==> n < 0
    ensures r.Ok? ==> r.value as int == PopCount(Bits(n))
  {
    Pow2Values();
    PopCountBound(Bits(n), 32);
    var m := n;
    var count: int32 := 0;
    while m != 0
      invariant (m < 0) == (n < 0)
      invariant 0 <= count as int && count as int + PopCount(Bits(m)) == PopCount(Bits(n))
      decreases PopCount(Bits(m))
    {
      if m as int == INT_MIN {
        return Err(SignedOverflow);
      }
      BitsPred(m);
      ClearLowestSetBit(Bits(m));
      if m < 0 {
        AndKeepsTopBit(Bits(m), Bits(m - 1), 31);
      }
      m := BitAnd(m, m - 1);
      count := count + 1;
    }
    return Ok(count);
  }

  /** `count_set_bits` with the loop run on the unsigned bit pattern, which is defined for
      every `int` and counts all 32 bits of a negative one. */
  method CountSetBitsUnsigned(n: int32) returns (count: int32)
    ensures count as int == PopCount(Bits(n))
  {
    Pow2Values();
    PopCountBound(Bits(n), 32);
    var u := Bits(n);
    count := 0;
    while u != 0
      invariant 0 <= count as int && count as int + PopCount(u) == PopCount(Bits(n))
      decreases u
    {
      ClearLowestSetBit(u);
      u := And(u, u - 1);
      count := count + 1;
    }
  }

  lemma PopCountExamples()
    ensures PopCount(1) == 1 && PopCount(2) == 1 && PopCount(4) == 1 && PopCount(8) == 1
    ensures PopCount(16) == 1 && PopCount(3) == 2 && PopCount(5) == 2 && PopCount(7) == 3
    ensures PopCount(Bits(-1)) == 32
  {
    Pow2Values();
    OnesPopCount(32);
  }

  lemma {:induction false} OnesPopCount(k: nat)
    ensures PopCount(Pow2(k) - 1) == k
  {
    if k > 0 {
      OnesPopCount(k - 1);
      assert (Pow2(k) - 1) / 2 == Pow2(k - 1) - 1;
    }
  }

  /** `xor_swap`: the three XOR assignments, skipped when both pointers are the same. */
  method XorSwap(a: Cell, b: Cell)
    modifies a, b
    ensures a != b ==> a.value == old(b.value) && b.value == old(a.value)
    ensures a == b ==> a.value == old(a.value)
  {
    if a != b {
      XorSwapSteps(a.value, b.value);
      a.value := BitXor(a.value, b.value);
      b.value := BitXor(b.value, a.value);
      a.value := BitXor(a.value, b.value);
    }
  }

  /** The values the three XOR steps produce on two distinct cells holding x and y. */
  lemma XorSwapSteps(x: int32, y: int32)
    ensures var a1 := BitXor(x, y);
            var b1 := BitXor(y, a1);
            var a2 := BitXor(a1, b1);
            b1 == x && a2 == y
  {
    var a1 := BitXor(x, y);
    BitXorCancel(x, y);
    BitXorComm(x, y);
    BitXorCancel(y, x);
  }

  /** `is_even`: the negated lowest bit, 1 for even and 0 for odd, negatives included. */
  function IsEven(n: int32): (r: int32)
    ensures r == 0 || r == 1
    ensures r == 1 <==> n as int % 2 == 0
  {
    AndLowBit(Bits(n));
    if BitAnd(n, 1) == 0 then 1 else 0
  }

  /** The right shift of x by 31 places on a 32-bit `int`: all sign bits, 0 or -1.  This is the arithmetic shift the
      comment documents; for a negative `x` C leaves the result implementation-defined
      (ISO/IEC 9899:2011 section 6.5.7 paragraph 5). */
  function SignMask(x: int32): (mask: int32)
    ensures mask == 0 || mask == -1
    ensures mask == -1 <==> x < 0
  {
    if x < 0 then -1 else 0
  }

  /** `abs_no_branch`: the sign mask added to x, then xor-ed with the mask.  The addition
      overflows for INT_MIN. */
  function AbsNoBranch(x: int32): (r: int32)
    requires x as int != INT_MIN
    ensures r as int == if x < 0 then -(x as int) else x as int
  {
    var mask := SignMask(x);
    AbsMask(x, mask);
    BitXor(x + mask, mask)
  }

  /** Why the mask gives the magnitude: for negative x, x - 1 xor-ed with all ones is its
      complement, -x; for nonnegative x the mask is 0 and the xor keeps x. */
  lemma AbsMask(x: int32, mask: int32)
    requires x as int != INT_MIN && mask == SignMask(x)
    ensures BitXor(x + mask, mask) as int == if x < 0 then -(x as int) else x as int
  {
    if x < 0 {
      Pow2Values();
      XorOnes(Bits(x - 1), 32);
    } else {
      BitXorZero(x);
    }
  }

  /** main's four calls, one argument at a time. */
  lemma AbsExamples(x: int32)
    requires x == -5 || x == -10 || x == 15 || x == -20
    ensures x == -5 ==> AbsNoBranch(x) == 5
    ensures x == -10 ==> AbsNoBranch(x) == 10
    ensures x == 15 ==> AbsNoBranch(x) == 15
    ensures x == -20 ==> AbsNoBranch(x) == 20
  {
  }

  /** The truth value of x < y negated: an all-ones mask when x < y, zero otherwise. */
  function LessMask(x: int32, y: int32): (mask: int32)
    ensures mask == -1 <==> x < y
    ensures mask == 0 <==> !(x < y)
  {
    if x < y then -1 else 0
  }

  /** `min_no_branch`: y, xor-ed with the difference bits x xor y when the mask of x < y
      lets them through. */
  function MinNoBranch(x: int32, y: int32): (r: int32)
    ensures r <= x && r <= y
    ensures r == x || r == y
  {
    BitAndMinusOne(BitXor(x, y));
    BitXorCancel(x, y);
    BitXorZero(y);
    BitXor(y, BitAnd(BitXor(x, y), LessMask(x, y)))
  }

  /** `max_no_branch`: x, xor-ed with the difference bits x xor y when the mask of x < y
      lets them through. */
  function MaxNoBranch(x: int32, y: int32): (r: int32)
    ensures r >= x && r >= y
    ensures r == x || r == y
  {
    BitAndMinusOne(BitXor(x, y));
    BitXorComm(x, y);
    BitXorCancel(y, x);
    BitXorZero(x);
    BitXor(x, BitAnd(BitXor(x, y), LessMask(x, y)))
  }

  /** Between them, the two branchless selections return exactly the two arguments. */
  lemma MinMaxPair(x: int32, y: int32)
    ensures multiset{MinNoBranch(x, y), MaxNoBranch(x, y)} == multiset{x, y}
  {
  }

  lemma MinMaxExamples()
    ensures MinNoBranch(5, 10) == 5 && MaxNoBranch(5, 10) == 10
    ensures MinNoBranch(15, 3) == 3 && MaxNoBranch(15, 3) == 15
  {
  }

  /** The swap demonstrated in main: a = 5, b = 10 become a = 10, b = 5. */
  method XorSwapExample() returns (a: int32, b: int32)
    ensures a == 10 && b == 5
  {
    var ca := new Cell(5);
    var cb := new Cell(10);
    XorSwap(ca, cb);
    a, b := ca.value, cb.value;
  }
}

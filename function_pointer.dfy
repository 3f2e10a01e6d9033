/** The four arithmetic functions of temp_function_pointer.c and the calls made
    through the `operation` function pointer. */
module FunctionPointer {
  import opened CInt

  function Abs(x: int): (r: int)
    ensures r >= 0 && (r == x || r == -x)
  {
    if x < 0 then -x else x
  }

  /** Euclid's division of naturals, the facts C's truncation is built from. */
  lemma NatDivision(n: int, d: int)
    requires n >= 0 && d > 0
    ensures n == (n / d) * d + n % d && 0 <= n % d < d
    ensures 0 <= n / d <= n
  {
    var q := n / d;
    assert q * d >= q * 1;
  }

  lemma NegateProduct(x: int, y: int)
    ensures (-x) * y == -(x * y) && x * (-y) == -(x * y)
  {
  }

  /** C's `/` on a nonzero divisor: the quotient truncated toward zero (ISO/IEC 9899:2011
      section 6.5.5 paragraph 6), unlike Dafny's Euclidean `/`.  The remainder a - q * b
      is smaller than the divisor and has the sign of the dividend. */
  function TruncDiv(a: int, b: int): (q: int)
    requires b != 0
    ensures Abs(q) <= Abs(a)
    ensures a >= 0 ==> 0 <= a - q * b < Abs(b)
    ensures a < 0 ==> -Abs(b) < a - q * b <= 0
  {
    var n, d := Abs(a), Abs(b);
    NatDivision(n, d);
    var m := n / d;
    NegateProduct(m, d);
    if (a >= 0) == (b > 0) then
      m
    else
      NegateProduct(-m, d);
      -m
  }

  /** `add`; the sum must be an `int`. */
  function Add(a: int32, b: int32): (r: int32)
    requires InRange(a as int + b as int)
    ensures r as int == a as int + b as int
  {
    a + b
  }

  /** `subtract`; the difference must be an `int`. */
  function Subtract(a: int32, b: int32): (r: int32)
    requires InRange(a as int - b as int)
    ensures r as int == a as int - b as int
  {
    a - b
  }

  /** `multiply`; the product must be an `int`. */
  function Multiply(a: int32, b: int32): (r: int32)
    requires InRange(a as int * b as int)
    ensures r as int == a as int * b as int
  {
    a * b
  }

  /** `divide`: 0 for a zero divisor, otherwise the truncated quotient.  INT_MIN / -1
      overflows. */
  function Divide(a: int32, b: int32): (q: int32)
    requires !(a as int == INT_MIN && b == -1)
    ensures b == 0 ==> q == 0
    ensures b != 0 && a >= 0 ==> 0 <= a as int - q as int * b as int < Abs(b as int)
    ensures b != 0 && a < 0 ==> -Abs(b as int) < a as int - q as int * b as int <= 0
  {
    if b == 0 then 0
    else
      var q := TruncDiv(a as int, b as int);
      QuotientFits(a, b, q);
      q as int32
  }

  /** Only INT_MIN / -1 has a truncated quotient outside the `int` range. */
  lemma QuotientFits(a: int32, b: int32, q: int)
    requires b != 0 && !(a as int == INT_MIN && b == -1)
    requires Abs(q) <= Abs(a as int)
    requires a >= 0 ==> 0 <= a as int - q * b as int < Abs(b as int)
    requires a < 0 ==> -Abs(b as int) < a as int - q * b as int <= 0
    ensures InRange(q)
  {
  }

  /** Subtraction undoes addition. */
  lemma AddSubtractInverse(a: int32, b: int32)
    requires InRange(a as int + b as int)
    ensures Subtract(Add(a, b), b) == a
  {
  }

  /** Division by a nonzero divisor undoes multiplication exactly. */
  lemma MultiplyDivideInverse(a: int32, b: int32)
    requires b != 0 && InRange(a as int * b as int)
    ensures Divide(Multiply(a, b), b) == a
  {
    var p := Multiply(a, b);
    assert !(p as int == INT_MIN && b == -1) by {
      if b == -1 { NegateProduct(a as int, 1); }
    }
    ExactQuotient(a as int, b as int, Divide(p, b) as int);
  }

  /** A quotient of a * b by b whose remainder is smaller than b in size is a itself. */
  lemma ExactQuotient(a: int, b: int, q: int)
    requires b != 0 && Abs(a * b - q * b) < Abs(b)
    ensures q == a
  {
    var diff := a - q;
    Distribute(a, q, b);
    if diff != 0 {
      ProductAtLeast(Abs(diff), Abs(b));
      AbsProduct(diff, b);
    }
  }

  lemma Distribute(x: int, y: int, z: int)
    ensures (x - y) * z == x * z - y * z
  {
  }

  lemma AbsProduct(x: int, y: int)
    ensures Abs(x * y) == Abs(x) * Abs(y)
  {
    NegateProduct(x, y);
    NegateProduct(-x, y);
  }

  lemma ProductAtLeast(x: int, y: int)
    requires x >= 1 && y >= 0
    ensures x * y >= y
  {
    assert (x - 1) * y >= 0;
  }

  /** Truncation, not flooring: -7 / 2 is -3 in C, while Dafny's own -7 / 2 is -4. */
  lemma DivideTruncates()
    ensures Divide(-7, 2) == -3 && (-7) / 2 == -4
    ensures Divide(7, -2) == -3 && Divide(-7, -2) == 3
    ensures Divide(42, 0) == 0
  {
  }

  /** main: `operation` is pointed at each function in turn and called with x = 10, y = 5. */
  method OperationDemo() returns (sum: int32, difference: int32, product: int32, quotient: int32)
    ensures sum == 15 && difference == 5 && product == 50 && quotient == 2
  {
    var x: int32, y: int32 := 10, 5;
    assert InRange(x as int + y as int) && InRange(x as int - y as int) && InRange(x as int * y as int);
    var operation: (int32, int32) --> int32 := Add;
    sum := operation(x, y);
    operation := Subtract;
    difference := operation(x, y);
    operation := Multiply;
    product := operation(x, y);
    operation := Divide;
    quotient := operation(x, y);
  }
}

/** The three swaps of loopholes/01_pointer_swap_trick.c.  A pointer `int *` is a
    `Cell`; two pointers to the same variable are the same `Cell`. */
module PointerSwap {
  import opened CInt
  import BitwiseTricks

  /** `swap_incorrect`: the XOR swap on the by-value parameters.  The locals do end up
      exchanged (the values it prints before returning), but Dafny parameters, like C
      ones, are copies: nothing the caller can see changes. */
  method SwapIncorrect(a: int32, b: int32) returns (localA: int32, localB: int32)
    ensures localA == b && localB == a
  {
    localA, localB := a, b;
    BitwiseTricks.XorSwapSteps(a, b);
    BitXorCancel(a, b);
    localA := BitXor(localA, localB);
    localB := BitXor(localA, localB);
    localA := BitXor(localA, localB);
  }

  /** `swap_correct`: the three XOR steps through both pointers, with no alias check.
      On two distinct cells it exchanges them; on one cell the first step already
      stores x ^ x == 0, and so does every later one. */
  method SwapCorrect(a: Cell, b: Cell)
    modifies a, b
    ensures a != b ==> a.value == old(b.value) && b.value == old(a.value)
    ensures a == b ==> a.value == 0
  {
    BitXorComm(a.value, b.value);
    BitwiseTricks.XorSwapSteps(a.value, b.value);
    BitXorCancel(a.value, b.value);
    BitXorSelf(a.value);
    BitXorSelf(0);
    a.value := BitXor(a.value, b.value);
    b.value := BitXor(a.value, b.value);
    a.value := BitXor(a.value, b.value);
  }

  /** `swap_temp`: through a temporary; correct whether or not the cells alias. */
  method SwapTemp(a: Cell, b: Cell)
    modifies a, b
    ensures a != b ==> a.value == old(b.value) && b.value == old(a.value)
    ensures a == b ==> a.value == old(a.value)
  {
    var temp := a.value;
    a.value := b.value;
    b.value := temp;
  }

  /** The sequence in main: x = 5, y = 10; `swap_incorrect(x, y)` leaves them, `swap_correct`
      exchanges them, `swap_temp` exchanges them back. */
  method SwapSequence() returns (afterIncorrect: (int32, int32), afterCorrect: (int32, int32),
                                 afterTemp: (int32, int32))
    ensures afterIncorrect == (5, 10)
    ensures afterCorrect == (10, 5)
    ensures afterTemp == (5, 10)
  {
    var x := new Cell(5);
    var y := new Cell(10);
    var _, _ := SwapIncorrect(x.value, y.value);
    afterIncorrect := (x.value, y.value);
    SwapCorrect(x, y);
    afterCorrect := (x.value, y.value);
    SwapTemp(x, y);
    afterTemp := (x.value, y.value);
  }

  /** Passing the same pointer twice: `swap_correct` zeroes the variable, `swap_temp` keeps it. */
  method SelfSwap(v: int32) returns (viaXor: int32, viaTemp: int32)
    ensures viaXor == 0
    ensures viaTemp == v
  {
    var c := new Cell(v);
    SwapCorrect(c, c);
    viaXor := c.value;
    c.value := v;
    SwapTemp(c, c);
    viaTemp := c.value;
  }
}

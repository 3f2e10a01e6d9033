/** The array queries and the in-place reversal declared in
    practice/code-practice/beginner/02_array_operations.c.  Every routine takes
    the array and its element count `size`. */
module ArrayOperations {
  import opened CInt
  import opened Results
  import opened Seqs

  /** The mathematical sum of the elements, added left to right. */
  function Sum(s: seq<int32>): (total: int)
    ensures |s| * INT_MIN <= total <= |s| * INT_MAX
  {
    if s == [] then 0 else Sum(s[..|s| - 1]) + s[|s| - 1] as int
  }

  /** Number of even elements; C's remainder-by-2 test agrees with Dafny's for negatives too,
      since both remainders are zero exactly for multiples of 2. */
  function CountEven(s: seq<int32>): (n: nat)
    ensures n <= |s|
  {
    if s == [] then 0 else CountEven(s[..|s| - 1]) + (if s[|s| - 1] % 2 == 0 then 1 else 0)
  }

  /** `findMax`; an empty array has no maximum. */
  method FindMax(arr: array<int32>, size: int32) returns (r: Option<int32>)
    requires 0 <= size as int <= arr.Length
    ensures r.None? <==> size == 0
    ensures r.Some? ==> r.value in arr[..size] && forall k :: 0 <= k < size ==> arr[k] <= r.value
  {
    if size == 0 {
      return None;
    }
    var max := arr[0];
    ghost var at: int := 0;
    var i := 1;
    while i < size as int
      invariant 1 <= i <= size as int
      invariant 0 <= at < i && arr[at] == max
      invariant forall k :: 0 <= k < i ==> arr[k] <= max
    {
      if arr[i] > max {
        max := arr[i];
        at := i;
      }
      i := i + 1;
    }
    assert arr[..size][at] == max;
    return Some(max);
  }

  /** `findMin`; an empty array has no minimum. */
  method FindMin(arr: array<int32>, size: int32) returns (r: Option<int32>)
    requires 0 <= size as int <= arr.Length
    ensures r.None? <==> size == 0
    ensures r.Some? ==> r.value in arr[..size] && forall k :: 0 <= k < size ==> r.value <= arr[k]
  {
    if size == 0 {
      return None;
    }
    var min := arr[0];
    ghost var at: int := 0;
    var i := 1;
    while i < size as int
      invariant 1 <= i <= size as int
      invariant 0 <= at < i && arr[at] == min
      invariant forall k :: 0 <= k < i ==> min <= arr[k]
    {
      if arr[i] < min {
        min := arr[i];
        at := i;
      }
      i := i + 1;
    }
    assert arr[..size][at] == min;
    return Some(min);
  }

  /** `calculateSum`: every running total must be an `int`. */
  method CalculateSum(arr: array<int32>, size: int32) returns (sum: int32)
    requires 0 <= size as int <= arr.Length
    requires forall k :: 0 <= k <= size as int ==> InRange(Sum(arr[..k]))
    ensures sum as int == Sum(arr[..size])
  {
    sum := 0;
    var i := 0;
    while i < size as int
      invariant 0 <= i <= size as int
      invariant sum as int == Sum(arr[..i])
    {
      assert arr[..i + 1][..i] == arr[..i];
      assert InRange(Sum(arr[..i + 1]));
      sum := sum + arr[i];
      i := i + 1;
    }
  }

  /** `countEvenOdd`: the two counts written through the out-pointers. */
  method CountEvenOdd(arr: array<int32>, size: int32) returns (even: int32, odd: int32)
    requires 0 <= size as int <= arr.Length
    ensures even as int == CountEven(arr[..size])
    ensures even as int + odd as int == size as int
  {
    even, odd := 0, 0;
    var i := 0;
    while i < size as int
      invariant 0 <= i <= size as int
      invariant even as int == CountEven(arr[..i]) && even as int + odd as int == i
    {
      assert arr[..i + 1][..i] == arr[..i];
      if arr[i] % 2 == 0 {
        even := even + 1;
      } else {
        odd := odd + 1;
      }
      i := i + 1;
    }
  }

  /** `reverseArray`: swaps from both ends through a temporary; elements at or beyond
      `size` stay as they are. */
  method ReverseArray(arr: array<int32>, size: int32)
    requires 0 <= size as int <= arr.Length
    modifies arr
    ensures arr[..size] == Reverse(old(arr[..size]))
    ensures arr[size..] == old(arr[size..])
  {
    var n := size as int;
    var i := 0;
    while i < n / 2
      invariant 0 <= i <= n / 2
      invariant forall k :: 0 <= k < i ==> arr[k] == old(arr[n - 1 - k]) && arr[n - 1 - k] == old(arr[k])
      invariant forall k :: i <= k < n - i ==> arr[k] == old(arr[k])
      invariant arr[n..] == old(arr[n..])
    {
      var temp := arr[i];
      arr[i] := arr[n - 1 - i];
      arr[n - 1 - i] := temp;
      i := i + 1;
    }
    ghost var was := old(arr[..n]);
    ReverseIff(was, arr[..n]);
  }

  /** Reversing an array of 0 or 1 elements changes nothing. */
  lemma ReverseShort(s: seq<int32>)
    requires |s| <= 1
    ensures Reverse(s) == s
  {
  }

  /** One element is both the maximum and the minimum. */
  method SingleElement(arr: array<int32>) returns (max: Option<int32>, min: Option<int32>)
    requires arr.Length == 1
    ensures max == Some(arr[0]) && min == Some(arr[0])
  {
    max := FindMax(arr, 1);
    min := FindMin(arr, 1);
  }

  /** A fresh array holding `s`, as the initialised local array of a C program. */
  method ArrayOf(s: seq<int32>) returns (arr: array<int32>)
    ensures fresh(arr) && arr[..] == s
  {
    arr := new int32[|s|](i requires 0 <= i < |s| => s[i]);
  }

  /** The documented example array. */
  const Example: seq<int32> := [5, 2, 8, 1, 9, 3, 7, 4, 6]

  /** Maximum 9 and minimum 1 on the example array. */
  method MaxMinExample() returns (max: Option<int32>, min: Option<int32>)
    ensures max == Some(9) && min == Some(1)
  {
    var arr := ArrayOf(Example);
    assert arr[..9] == Example;
    max := FindMax(arr, 9);
    min := FindMin(arr, 9);
    assert arr[4] == 9 && arr[3] == 1;
  }

  /** Sum 45 on the example array. */
  method SumExample() returns (sum: int32)
    ensures sum == 45
  {
    var arr := ArrayOf(Example);
    assert arr[..9] == Example;
    PrefixSums(Example);
    sum := CalculateSum(arr, 9);
  }

  /** Four even and five odd elements in the example array. */
  method EvenOddExample() returns (even: int32, odd: int32)
    ensures even == 4 && odd == 5
  {
    var arr := ArrayOf(Example);
    assert arr[..9] == Example;
    EvenCount(Example);
    even, odd := CountEvenOdd(arr, 9);
  }

  /** The example array reversed is [6, 4, 7, 3, 9, 1, 8, 2, 5]. */
  method ReverseExample() returns (reversed: seq<int32>)
    ensures reversed == [6, 4, 7, 3, 9, 1, 8, 2, 5]
  {
    var arr := ArrayOf(Example);
    assert arr[..9] == Example;
    ReverseArray(arr, 9);
    assert arr[..] == arr[..9];
    reversed := arr[..];
    ReverseIff(Example, [6, 4, 7, 3, 9, 1, 8, 2, 5]);
  }

  /** Extending a prefix by one element adds that element to the sum. */
  lemma SumStep(s: seq<int32>, k: nat)
    requires k < |s|
    ensures Sum(s[..k + 1]) == Sum(s[..k]) + s[k] as int
  {
    assert s[..k + 1][..k] == s[..k];
  }

  lemma CountStep(s: seq<int32>, k: nat)
    requires k < |s|
    ensures CountEven(s[..k + 1]) == CountEven(s[..k]) + (if s[k] % 2 == 0 then 1 else 0)
  {
    assert s[..k + 1][..k] == s[..k];
  }

  /** With no negative element every running total lies between 0 and the full sum. */
  lemma {:induction false} NonnegativePrefixSums(s: seq<int32>)
    requires forall i :: 0 <= i < |s| ==> 0 <= s[i]
    ensures forall k :: 0 <= k <= |s| ==> 0 <= Sum(s[..k]) <= Sum(s)
  {
    if s != [] {
      var t := s[..|s| - 1];
      NonnegativePrefixSums(t);
      forall k | 0 <= k <= |s| ensures 0 <= Sum(s[..k]) <= Sum(s) {
        if k < |s| {
          assert t[..k] == s[..k];
        } else {
          assert s[..k] == s;
        }
      }
    }
  }

  lemma PrefixSums(s: seq<int32>)
    requires s == [5, 2, 8, 1, 9, 3, 7, 4, 6]
    ensures Sum(s) == 45 && forall k :: 0 <= k <= |s| ==> InRange(Sum(s[..k]))
  {
    assert s[..0] == [];
    SumStep(s, 0); SumStep(s, 1); SumStep(s, 2); SumStep(s, 3); SumStep(s, 4);
    SumStep(s, 5); SumStep(s, 6); SumStep(s, 7); SumStep(s, 8);
    assert s[..9] == s;
    NonnegativePrefixSums(s);
  }

  lemma EvenCount(s: seq<int32>)
    requires s == [5, 2, 8, 1, 9, 3, 7, 4, 6]
    ensures CountEven(s) == 4
  {
    assert s[..0] == [];
    CountStep(s, 0); CountStep(s, 1); CountStep(s, 2); CountStep(s, 3); CountStep(s, 4);
    CountStep(s, 5); CountStep(s, 6); CountStep(s, 7); CountStep(s, 8);
    assert s[..9] == s;
  }
}

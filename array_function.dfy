/** `doubleArray` of temp_array_function.c: an array passed as a pointer is
    modified in place, so the caller sees the change. */
module ArrayFunction {
  import opened CInt

  /** `s` with each of its first n elements doubled and the others as they were. */
  function Doubled(s: seq<int32>, n: int): (r: seq<int32>)
    requires n <= |s|
    requires forall i :: 0 <= i < n ==> InRange(2 * (s[i] as int))
    ensures |r| == |s|
    ensures forall i :: 0 <= i < |s| ==> r[i] as int == if i < n then 2 * (s[i] as int) else s[i] as int
    decreases |s|
  {
    if s == [] then []
    else if 0 < n then
      assert InRange(2 * (s[0] as int));
      [2 * s[0]] + Doubled(s[1..], n - 1)
    else
      [s[0]] + Doubled(s[1..], n - 1)
  }

  /** `doubleArray`: each element at i = 0 .. size - 1 is doubled in place.  A size of 0 or less runs no
      iteration; no index at or beyond `size` is touched; no doubled element may overflow. */
  method DoubleArray(arr: array<int32>, size: int32)
    requires size as int <= arr.Length
    requires forall i :: 0 <= i < size ==> InRange(2 * (arr[i] as int))
    modifies arr
    ensures arr[..] == Doubled(old(arr[..]), size as int)
  {
    var i: int32 := 0;
    while i < size
      invariant 0 <= i <= if size < 0 then 0 else size
      invariant forall k :: 0 <= k < i ==> arr[k] as int == 2 * (old(arr[k]) as int)
      invariant forall k :: i as int <= k < arr.Length ==> arr[k] == old(arr[k])
    {
      arr[i] := arr[i] * 2;
      i := i + 1;
    }
  }

  /** Doubling zero elements changes nothing. */
  lemma DoubledNone(s: seq<int32>)
    ensures Doubled(s, 0) == s
  {
  }

  /** Doubling then halving element by element restores the original prefix. */
  lemma DoubledHalves(s: seq<int32>, n: int)
    requires 0 <= n <= |s|
    requires forall i :: 0 <= i < n ==> InRange(2 * (s[i] as int))
    ensures forall i :: 0 <= i < n ==> Doubled(s, n)[i] / 2 == s[i]
    ensures Doubled(s, n)[n..] == s[n..]
  {
  }

  /** main: {1, 2, 3, 4, 5} becomes {2, 4, 6, 8, 10}. */
  method DoubleArrayExample() returns (numbers: array<int32>)
    ensures numbers[..] == [2, 4, 6, 8, 10]
  {
    numbers := new int32[5];
    numbers[0], numbers[1], numbers[2], numbers[3], numbers[4] := 1, 2, 3, 4, 5;
    DoubleArray(numbers, numbers.Length as int32);
    assert numbers[..] == Doubled([1, 2, 3, 4, 5], 5);
  }
}

/** Order reversal of a sequence: the reference definition behind every in-place
    reversal of the programs (arrays, C strings and the linked list). */
module Seqs {

  function Reverse<T>(s: seq<T>): (r: seq<T>)
    ensures |r| == |s|
  {
    if s == [] then [] else Reverse(s[1..]) + [s[0]]
  }

  /** The element at position k of the reversal is the k-th from the end. */
  lemma {:induction false} ReverseAt<T>(s: seq<T>, k: nat)
    requires k < |s|
    ensures |Reverse(s)| == |s| && Reverse(s)[k] == s[|s| - 1 - k]
  {
    ReverseLength(s[1..]);
    if k < |s| - 1 {
      ReverseAt(s[1..], k);
    }
  }

  lemma {:induction false} ReverseLength<T>(s: seq<T>)
    ensures |Reverse(s)| == |s|
  {
    if s != [] { ReverseLength(s[1..]); }
  }

  /** Elementwise characterisation: a sequence is the reversal of `s` exactly when
      it has the length of `s` and holds its elements back to front. */
  lemma ReverseIff<T>(s: seq<T>, r: seq<T>)
    ensures r == Reverse(s) <==> |r| == |s| && forall k :: 0 <= k < |s| ==> r[k] == s[|s| - 1 - k]
  {
    ReverseLength(s);
    forall k | 0 <= k < |s| { ReverseAt(s, k); }
  }

  /** Reversal is its own inverse. */
  lemma ReverseReverse<T>(s: seq<T>)
    ensures Reverse(Reverse(s)) == s
  {
    ReverseLength(s);
    ReverseIff(s, Reverse(s));
    ReverseIff(Reverse(s), s);
  }
}

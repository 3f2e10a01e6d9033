/** The singly linked list of practice/code-practice/advanced/01_linked_list_implementation.c:
    a chain of `Node`s owned by a `LinkedList` that caches its length in `size`.
    Positions are counted from 0 at the head.  Each list keeps, as ghost state, the sequence
    of its nodes from the head on (`Nodes`), the values they hold (`Contents`) and the
    objects it owns (`Repr`); `Valid()` ties them to the pointers. */
module SinglyLinked {
  import opened CInt
  import opened Results
  import opened Seqs

  /** Why a delete or a positional insert did nothing. */
  datatype ListError = EmptyList | InvalidPosition

  // ---------------------------------------------------------------------
  // The list operations on sequences

  /** `s` with `x` placed at position p, the elements from p on moved up by one. */
  function InsertAt<T>(s: seq<T>, x: T, p: nat): (r: seq<T>)
    requires p <= |s|
    ensures |r| == |s| + 1 && r[p] == x
    ensures forall i :: 0 <= i < p ==> r[i] == s[i]
    ensures forall i :: p < i < |r| ==> r[i] == s[i - 1]
  {
    s[..p] + [x] + s[p..]
  }

  /** `s` without its element at position p, the later elements moved down by one. */
  function RemoveAt<T>(s: seq<T>, p: nat): (r: seq<T>)
    requires p < |s|
    ensures |r| == |s| - 1
    ensures forall i :: 0 <= i < p ==> r[i] == s[i]
    ensures forall i :: p <= i < |r| ==> r[i] == s[i + 1]
  {
    s[..p] + s[p + 1..]
  }

  /** The position of the first occurrence of `x`, if any. */
  function IndexOf(s: seq<int32>, x: int32): (r: Option<nat>)
    ensures r.Some? ==> r.value < |s| && s[r.value] == x
  {
    if s == [] then None
    else if s[0] == x then Some(0)
    else match IndexOf(s[1..], x)
      case None => None
      case Some(i) => Some(i + 1)
  }

  /** `IndexOf` finds exactly the first occurrence, and nothing when there is none. */
  lemma {:induction false} IndexOfIff(s: seq<int32>, x: int32, r: Option<nat>)
    ensures IndexOf(s, x) == r <==>
            match r
            case None => x !in s
            case Some(i) => i < |s| && s[i] == x && x !in s[..i]
  {
    if s != [] && s[0] != x {
      IndexOfIff(s[1..], x, None);
      assert s == [s[0]] + s[1..];
      match r
      case None =>
      case Some(i) =>
        if 0 < i <= |s| {
          IndexOfIff(s[1..], x, Some(i - 1));
          assert s[..i] == [s[0]] + s[1..][..i - 1];
        }
    }
  }

  /** Removing what was inserted gives back the original list. */
  lemma RemoveInsert<T>(s: seq<T>, x: T, p: nat)
    requires p <= |s|
    ensures RemoveAt(InsertAt(s, x, p), p) == s
  {
    assert RemoveAt(InsertAt(s, x, p), p) == s[..p] + s[p..];
  }

  /** Putting back what was removed gives back the original list. */
  lemma InsertRemove<T>(s: seq<T>, p: nat)
    requires p < |s|
    ensures InsertAt(RemoveAt(s, p), s[p], p) == s
  {
    var t := RemoveAt(s, p);
    assert t[..p] == s[..p] && t[p..] == s[p + 1..];
    assert s == s[..p] + [s[p]] + s[p + 1..];
  }

  /** Inserting at 0 or at the length is inserting at the front or at the end; removing at
      0 or at the last position is removing the first or the last element. */
  lemma {:induction false} Ends<T>(s: seq<T>, x: T)
    ensures InsertAt(s, x, 0) == [x] + s && InsertAt(s, x, |s|) == s + [x]
    ensures s != [] ==> RemoveAt(s, 0) == s[1..] && RemoveAt(s, |s| - 1) == s[..|s| - 1]
  {
    assert s[..0] == [] && s[0..] == s && s[..|s|] == s && s[|s|..] == [];
    if s != [] {
      assert s[|s| - 1 + 1..] == [];
    }
  }

  /** No element occurs twice. */
  ghost predicate Distinct<T>(s: seq<T>)
  {
    forall i, j :: 0 <= i < j < |s| ==> s[i] != s[j]
  }

  /** A new element keeps a sequence free of repetitions wherever it is inserted. */
  lemma DistinctInsert<T>(s: seq<T>, x: T, p: nat)
    requires Distinct(s) && x !in s && p <= |s|
    ensures Distinct(InsertAt(s, x, p))
  {
    var r := InsertAt(s, x, p);
    forall i, j | 0 <= i < j < |r| ensures r[i] != r[j] {
      if i == p {
        assert r[j] == s[j - 1];
      } else if j == p {
        assert r[i] == s[i];
      }
    }
  }

  /** A new element in front keeps a sequence free of repetitions. */
  lemma DistinctPrepend<T>(x: T, s: seq<T>)
    requires Distinct(s) && x !in s
    ensures Distinct([x] + s)
  {
  }

  /** A new element at the end keeps a sequence free of repetitions. */
  lemma DistinctAppend<T>(s: seq<T>, x: T)
    requires Distinct(s) && x !in s
    ensures Distinct(s + [x])
  {
  }

  /** Removing an element keeps a sequence free of repetitions, and that element is gone. */
  lemma DistinctRemove<T>(s: seq<T>, p: nat)
    requires Distinct(s) && p < |s|
    ensures Distinct(RemoveAt(s, p)) && s[p] !in RemoveAt(s, p)
  {
    var r := RemoveAt(s, p);
    forall i | 0 <= i < |r| ensures r[i] != s[p] {
      if i < p { assert r[i] == s[i]; } else { assert r[i] == s[i + 1]; }
    }
  }

  /** Reversal keeps a sequence free of repetitions. */
  lemma DistinctReverse<T>(s: seq<T>)
    requires Distinct(s)
    ensures Distinct(Reverse(s))
  {
    ReverseIff(s, Reverse(s));
  }

  /** Dropping the first or the last element keeps a sequence free of repetitions. */
  lemma DistinctEnds<T>(s: seq<T>)
    requires Distinct(s) && s != []
    ensures Distinct(s[1..]) && Distinct(s[..|s| - 1])
    ensures s[0] !in s[1..] && s[|s| - 1] !in s[..|s| - 1]
  {
  }

  // ---------------------------------------------------------------------
  // The structures

  class Node {
    var data: int32
    var next: Node?

    /** `createNode`: a node holding `data` with no successor. */
    constructor (data: int32)
      ensures this.data == data && next == null
    {
      this.data := data;
      next := null;
    }
  }

  /** The node that follows position i of a list laid out as `nodes`: the next entry, or
      null after the last one. */
  function Successor(nodes: seq<Node>, i: nat): (n: Node?)
    requires i < |nodes|
    ensures n == null <==> i == |nodes| - 1
  {
    if i + 1 < |nodes| then nodes[i + 1] else null
  }

  class LinkedList {
    var head: Node?
    var size: int32
    ghost var Contents: seq<int32>
    ghost var Nodes: seq<Node>
    ghost var Repr: set<object>

    /** Following `next` from `head` visits Nodes in order and reaches null after exactly
        `size` nodes, each node once; the values on the way are Contents. */
    ghost predicate Valid()
      reads this, Repr
      ensures Valid() ==> this in Repr && |Contents| == size as int
    {
      this in Repr &&
      (forall i :: 0 <= i < |Nodes| ==> Nodes[i] in Repr) &&
      |Nodes| == |Contents| == size as int &&
      head == (if Nodes == [] then null else Nodes[0]) &&
      (forall i {:trigger Nodes[i].data} :: 0 <= i < |Nodes| ==> Nodes[i].data == Contents[i]) &&
      (forall i {:trigger Nodes[i].next} :: 0 <= i < |Nodes| ==> Nodes[i].next == Successor(Nodes, i)) &&
      Distinct(Nodes)
    }

    /** `createList`: no head and size 0. */
    constructor ()
      ensures Valid() && fresh(Repr)
      ensures Contents == [] && head == null && size == 0
    {
      head := null;
      size := 0;
      Contents := [];
      Nodes := [];
      Repr := {this};
    }

    /** `isEmpty`: 1 exactly for the list without nodes. */
    method IsEmpty() returns (r: int32)
      requires Valid()
      ensures r == 0 || r == 1
      ensures r == 1 <==> Contents == []
      ensures r == 1 <==> size == 0
    {
      r := if head == null then 1 else 0;
    }

    /** `getLength`: counts the nodes from the head to null; the count is the cached size. */
    method GetLength() returns (n: int32)
      requires Valid()
      ensures n as int == |Contents| && n == size
    {
      n := 0;
      var current := head;
      while current != null
        invariant 0 <= n as int <= |Nodes|
        invariant current == if n as int < |Nodes| then Nodes[n] else null
        decreases |Nodes| - n as int
      {
        n := n + 1;
        current := current.next;
      }
    }

    /** The traversal of `displayList`, collecting the values it would print. */
    method Elements() returns (s: seq<int32>)
      requires Valid()
      ensures s == Contents
    {
      s := [];
      var current := head;
      while current != null
        invariant |s| <= |Nodes| && s == Contents[..|s|]
        invariant current == if |s| < |Nodes| then Nodes[|s|] else null
        decreases |Nodes| - |s|
      {
        s := s + [current.data];
        current := current.next;
      }
    }

    /** `searchElement`: the position of the first node holding `data`, if any. */
    method SearchElement(data: int32) returns (r: Option<nat>)
      requires Valid()
      ensures r == IndexOf(Contents, data)
    {
      var current := head;
      var i := 0;
      while current != null
        invariant 0 <= i <= |Nodes|
        invariant current == if i < |Nodes| then Nodes[i] else null
        invariant data !in Contents[..i]
        decreases |Nodes| - i
      {
        if current.data == data {
          IndexOfIff(Contents, data, Some(i));
          return Some(i);
        }
        assert Contents[..i + 1] == Contents[..i] + [Contents[i]];
        current := current.next;
        i := i + 1;
      }
      assert Contents[..i] == Contents;
      IndexOfIff(Contents, data, None);
      return None;
    }

    /** `insertAtBeginning`: a new node in front of the old head. */
    method InsertAtBeginning(data: int32)
      requires Valid() && size as int < INT_MAX
      modifies this
      ensures Valid() && fresh(Repr - old(Repr))
      ensures Contents == [data] + old(Contents) && size as int == old(size) as int + 1
    {
      var node := new Node(data);
      node.next := head;
      head := node;
      size := size + 1;
      DistinctPrepend(node, Nodes);
      Nodes := [node] + Nodes;
      Contents := [data] + Contents;
      Repr := Repr + {node};
    }

    /** The walk of `insertAtEnd`: from the head along `next` to the node whose `next` is
        null. */
    method LastNode() returns (last: Node)
      requires Valid() && head != null
      ensures last == Nodes[|Nodes| - 1] && last.next == null
    {
      last := head;
      ghost var k := 0;
      while last.next != null
        invariant 0 <= k < |Nodes| && last == Nodes[k]
        invariant last.next == Successor(Nodes, k)
        decreases |Nodes| - k
      {
        last := last.next;
        k := k + 1;
      }
    }

    /** The walk of `insertAtPosition` and `deleteFromPosition`: `position - 1` steps along
        `next` from the head, to the node after which the change is made. */
    method NodeBefore(position: int32) returns (previous: Node)
      requires Valid() && 1 <= position && position as int <= |Nodes|
      ensures previous == Nodes[position - 1]
    {
      previous := head;
      var i: int32 := 1;
      while i < position
        invariant 1 <= i <= position && previous == Nodes[i - 1]
        invariant previous.next == Successor(Nodes, i as int - 1)
      {
        previous := previous.next;
        i := i + 1;
      }
    }

    /** `insertAtEnd`: walks to the last node and links a new node after it. */
    method InsertAtEnd(data: int32)
      requires Valid() && size as int < INT_MAX
      modifies Repr
      ensures Valid() && fresh(Repr - old(Repr))
      ensures Contents == old(Contents) + [data] && size as int == old(size) as int + 1
    {
      var node := new Node(data);
      if head != null {
        var last := LastNode();
        last.next := node;
      } else {
        head := node;
      }
      size := size + 1;
      DistinctAppend(Nodes, node);
      Nodes := Nodes + [node];
      Contents := Contents + [data];
      Repr := Repr + {node};
    }

    /** `insertAtPosition`: a new node at `position`, which must lie in 0 .. size; any other
        position is refused and leaves the list as it was. */
    method InsertAtPosition(data: int32, position: int32) returns (r: Result<(), ListError>)
      requires Valid() && (0 <= position as int <= size as int ==> size as int < INT_MAX)
      modifies Repr
      ensures Valid() && fresh(Repr - old(Repr))
      ensures r.Err? <==> position < 0 || position as int > |old(Contents)|
      ensures r.Err? ==> r.error == InvalidPosition && Contents == old(Contents)
      ensures r.Ok? ==> Contents == InsertAt(old(Contents), data, position as nat) && size as int == old(size) as int + 1
    {
      if position < 0 || position > size {
        return Err(InvalidPosition);
      }
      if position == 0 {
        Ends(Contents, data);
        InsertAtBeginning(data);
        return Ok(());
      }
      var previous := NodeBefore(position);
      LinkAfter(previous, data, position as nat);
      return Ok(());
    }

    /** The splice of `insertAtPosition`: a new node between `previous`, at position p - 1,
        and its successor. */
    method LinkAfter(previous: Node, data: int32, ghost p: nat)
      requires Valid() && size as int < INT_MAX
      requires 1 <= p <= |Nodes| && previous == Nodes[p - 1]
      modifies Repr
      ensures Valid() && fresh(Repr - old(Repr))
      ensures Contents == InsertAt(old(Contents), data, p) && size as int == old(size) as int + 1
    {
      ghost var nodes := Nodes;
      var node := new Node(data);
      node.next := previous.next;
      previous.next := node;
      size := size + 1;
      DistinctInsert(nodes, node, p);
      Nodes := InsertAt(nodes, node, p);
      Contents := InsertAt(Contents, data, p);
      Repr := Repr + {node};
    }

    /** `deleteFromBeginning`: unlinks the head and returns its value. */
    method DeleteFromBeginning() returns (r: Result<int32, ListError>)
      requires Valid()
      modifies this
      ensures Valid() && Repr <= old(Repr)
      ensures old(Contents) == [] ==> r == Err(EmptyList) && Contents == old(Contents)
      ensures old(Contents) != [] ==> r == Ok(old(Contents)[0]) && Contents == old(Contents)[1..]
      ensures old(Contents) != [] ==> size as int == old(size) as int - 1
    {
      if head == null {
        return Err(EmptyList);
      }
      var node := head;
      head := node.next;
      size := size - 1;
      DistinctEnds(Nodes);
      Nodes := Nodes[1..];
      Contents := Contents[1..];
      Repr := Repr - {node};
      return Ok(node.data);
    }

    /** `deleteFromEnd`: walks to the node before the last, cuts the last one off and
        returns its value. */
    method DeleteFromEnd() returns (r: Result<int32, ListError>)
      requires Valid()
      modifies Repr
      ensures Valid() && Repr <= old(Repr)
      ensures old(Contents) == [] ==> r == Err(EmptyList) && Contents == old(Contents)
      ensures old(Contents) != [] ==>
                r == Ok(old(Contents)[|old(Contents)| - 1]) && Contents == old(Contents)[..|old(Contents)| - 1]
      ensures old(Contents) != [] ==> size as int == old(size) as int - 1
    {
      if head == null {
        return Err(EmptyList);
      }
      var last: Node;
      if head.next == null {
        last := head;
        head := null;
      } else {
        var previous := head;
        ghost var k := 0;
        while previous.next.next != null
          invariant 0 <= k < |Nodes| - 1 && previous == Nodes[k] && previous.next == Nodes[k + 1]
          invariant previous.next.next == Successor(Nodes, k + 1)
          decreases |Nodes| - k
        {
          previous := previous.next;
          k := k + 1;
        }
        last := previous.next;
        previous.next := null;
      }
      size := size - 1;
      DistinctEnds(Nodes);
      Nodes := Nodes[..|Nodes| - 1];
      Contents := Contents[..|Contents| - 1];
      Repr := Repr - {last};
      return Ok(last.data);
    }

    /** `deleteFromPosition`: unlinks the node at `position`, which must lie in
        0 .. size - 1, and returns its value; any other position is refused and leaves the
        list as it was. */
    method DeleteFromPosition(position: int32) returns (r: Result<int32, ListError>)
      requires Valid()
      modifies Repr
      ensures Valid() && Repr <= old(Repr)
      ensures r.Err? <==> position < 0 || position as int >= |old(Contents)|
      ensures r.Err? ==> r.error == InvalidPosition && Contents == old(Contents)
      ensures r.Ok? ==> r.value == old(Contents)[position] && Contents == RemoveAt(old(Contents), position as nat)
      ensures r.Ok? ==> size as int == old(size) as int - 1
    {
      if position < 0 || position >= size {
        return Err(InvalidPosition);
      }
      if position == 0 {
        Ends(Contents, 0);
        r := DeleteFromBeginning();
        return;
      }
      var previous := NodeBefore(position);
      var p := position as int;
      ghost var nodes := Nodes;
      var target := previous.next;
      previous.next := target.next;
      size := size - 1;
      DistinctRemove(nodes, p);
      Nodes := RemoveAt(nodes, p);
      Contents := RemoveAt(Contents, p);
      Repr := Repr - {target};
      return Ok(target.data);
    }

    /** `reverseList`: turns every `next` around with three rolling pointers (previous,
        current, next); the nodes and the size stay. */
    method ReverseList()
      requires Valid()
      modifies Repr
      ensures Valid() && Repr == old(Repr) && size == old(size)
      ensures Contents == Reverse(old(Contents))
    {
      ghost var nodes := Nodes;
      ghost var k := 0;
      var previous: Node? := null;
      var current := head;
      while current != null
        invariant 0 <= k <= |nodes|
        invariant current == if k < |nodes| then nodes[k] else null
        invariant previous == if k == 0 then null else nodes[k - 1]
        invariant forall i {:trigger nodes[i].next} :: 0 < i < k ==> nodes[i].next == nodes[i - 1]
        invariant 0 < k ==> nodes[0].next == null
        invariant forall i {:trigger nodes[i].next} :: k <= i < |nodes| ==> nodes[i].next == Successor(nodes, i)
        invariant forall i {:trigger nodes[i].data} :: 0 <= i < |nodes| ==> nodes[i].data == old(nodes[i].data)
        invariant Repr == old(Repr) && Contents == old(Contents) && Nodes == nodes && size == old(size)
        decreases |nodes| - k
      {
        var next := current.next;
        current.next := previous;
        previous := current;
        current := next;
        k := k + 1;
      }
      head := previous;
      ReverseIff(nodes, Reverse(nodes));
      ReverseIff(Contents, Reverse(Contents));
      DistinctReverse(nodes);
      Nodes := Reverse(nodes);
      Contents := Reverse(Contents);
    }

    /** `freeList`: releases every node, leaving an empty list. */
    method FreeList()
      requires Valid()
      modifies this
      ensures Valid() && Repr == {this}
      ensures Contents == [] && head == null && size == 0
    {
      head := null;
      size := 0;
      Nodes := [];
      Contents := [];
      Repr := {this};
    }
  }

  /** Reversing a list twice gives back the list it was. */
  method ReverseTwice(list: LinkedList)
    requires list.Valid()
    modifies list.Repr
    ensures list.Valid() && list.Repr == old(list.Repr)
    ensures list.Contents == old(list.Contents)
  {
    list.ReverseList();
    list.ReverseList();
    ReverseReverse(old(list.Contents));
  }

  /** The documented example: 10, 20, 30 and 40 appended to a new list give
      10 -> 20 -> 30 -> 40 of length 4, 30 is found at position 2, and the reversed list
      is 40 -> 30 -> 20 -> 10. */
  method ExampleUsage() returns (length: int32, found: Option<nat>, reversed: seq<int32>)
    ensures length == 4 && found == Some(2) && reversed == [40, 30, 20, 10]
  {
    var list := new LinkedList();
    list.InsertAtEnd(10);
    list.InsertAtEnd(20);
    list.InsertAtEnd(30);
    list.InsertAtEnd(40);
    assert list.Contents == [10, 20, 30, 40];
    length := list.GetLength();
    found := list.SearchElement(30);
    ExampleFacts(list.Contents);
    list.ReverseList();
    reversed := list.Elements();
  }

  /** On 10 -> 20 -> 30 -> 40, 30 first occurs at position 2, and the reversal is
      40 -> 30 -> 20 -> 10. */
  lemma ExampleFacts(s: seq<int32>)
    requires s == [10, 20, 30, 40]
    ensures IndexOf(s, 30) == Some(2) && Reverse(s) == [40, 30, 20, 10]
  {
    IndexOfIff(s, 30, Some(2));
    ReverseIff(s, [40, 30, 20, 10]);
  }

  /** Deleting from 40 -> 30 -> 20 -> 10: position 1 yields 30, the end yields 10, the
      front yields 40, and 20 is what remains. */
  method DeleteExample() returns (middle: Result<int32, ListError>, last: Result<int32, ListError>,
                                  first: Result<int32, ListError>, rest: seq<int32>)
    ensures middle == Ok(30) && last == Ok(10) && first == Ok(40) && rest == [20]
  {
    var list := new LinkedList();
    list.InsertAtBeginning(10);
    list.InsertAtBeginning(20);
    list.InsertAtBeginning(30);
    list.InsertAtBeginning(40);
    assert list.Contents == [40, 30, 20, 10];
    middle := list.DeleteFromPosition(1);
    assert list.Contents == [40, 20, 10];
    last := list.DeleteFromEnd();
    first := list.DeleteFromBeginning();
    rest := list.Elements();
  }

  /** The error cases: an empty list has nothing to delete, and a position outside the
      list is refused, leaving it empty. */
  method ErrorExample() returns (fromFront: Result<int32, ListError>, fromEnd: Result<int32, ListError>,
                                 atPosition: Result<int32, ListError>, insert: Result<(), ListError>,
                                 empty: int32)
    ensures fromFront == Err(EmptyList) && fromEnd == Err(EmptyList)
    ensures atPosition == Err(InvalidPosition) && insert == Err(InvalidPosition)
    ensures empty == 1
  {
    var list := new LinkedList();
    fromFront := list.DeleteFromBeginning();
    fromEnd := list.DeleteFromEnd();
    atPosition := list.DeleteFromPosition(0);
    insert := list.InsertAtPosition(5, 1);
    empty := list.IsEmpty();
  }
}

/**
 * Code written against `dsa::doubly_linked_list` from outside the class: the
 * free `operator+`, the iteration loops the iterators are made for, and the
 * stack and queue disciplines the list combines.
 */
module ListClients {
  import opened DoublyLinkedLists

  /**
   * The free `operator+(lhs, rhs)`: copies `lhs`, appends `rhs` to the copy
   * and returns the result by value (a second copy). Neither operand
   * changes, and `lhs` may be `rhs`.
   */
  method Concat<T(==)>(lhs: DoublyLinkedList<T>, rhs: DoublyLinkedList<T>) returns (r: DoublyLinkedList<T>)
    requires lhs.Valid() && rhs.Valid()
    ensures fresh(r) && fresh(r.Repr) && r.Valid()
    ensures r.Contents == lhs.Contents + rhs.Contents
    ensures r.defaultValue == lhs.defaultValue
  {
    var result := new DoublyLinkedList.Copy(lhs);
    result.Append(rhs);
    r := new DoublyLinkedList.Copy(result);
  }

  /**
   * `for (it = begin(); it != end(); ++it)`: visits every element once, in
   * iteration order, on every list including the empty one.
   */
  method ForwardTraversal<T(==)>(list: DoublyLinkedList<T>) returns (visited: seq<T>)
    requires list.Valid()
    ensures visited == list.Contents
  {
    var it := list.Begin();
    var stop := list.End();
    visited := [];
    ghost var i := 0;
    while it.NotEqual(stop)
      invariant it != stop && stop.node == null
      invariant 0 <= i <= |list.Contents|
      invariant it.node == list.NodeAt(i)
      invariant visited == list.Contents[..i]
      decreases |list.Contents| - i
    {
      list.Neighbours(i);
      visited := visited + [it.Value()];
      it.Increment();
      i := i + 1;
    }
  }

  /**
   * `for (it = rbegin(); it != rend(); ++it)`: visits every element once,
   * from the last to the first.
   */
  method ReverseTraversal<T(==)>(list: DoublyLinkedList<T>) returns (visited: seq<T>)
    requires list.Valid()
    ensures |visited| == |list.Contents|
    ensures forall k :: 0 <= k < |visited| ==> visited[k] == list.Contents[|list.Contents| - 1 - k]
  {
    var it := list.RBegin();
    var stop := list.REnd();
    visited := [];
    ghost var i := 0;
    while it.NotEqual(stop)
      invariant it != stop && stop.node == null
      invariant 0 <= i <= |list.Contents|
      invariant it.node == list.NodeAt(|list.Contents| - 1 - i)
      invariant |visited| == i
      invariant forall k :: 0 <= k < i ==> visited[k] == list.Contents[|list.Contents| - 1 - k]
      decreases |list.Contents| - i
    {
      list.Neighbours(|list.Contents| - 1 - i);
      visited := visited + [it.Value()];
      it.Increment();
      i := i + 1;
    }
  }

  /**
   * Iterators on two elements of a list compare equal exactly when the
   * elements do, wherever they stand: two positions holding the same value
   * are `==`, so `it != end()` is the only comparison that tells positions apart.
   */
  lemma IteratorsCompareValues<T>(list: DoublyLinkedList<T>, a: ListIterator<T>, b: ListIterator<T>, i: int, j: int)
    requires list.Valid()
    requires 0 <= i < |list.Contents| && 0 <= j < |list.Contents|
    requires a.node == list.NodeAt(i) && b.node == list.NodeAt(j)
    ensures a.Equal(b) <==> list.Contents[i] == list.Contents[j]
  {
  }

  /** `push_back` then `pop_front` hands back the element and restores the list: a stack. */
  method StackRoundTrip<T(==)>(list: DoublyLinkedList<T>, x: T) returns (y: T)
    requires list.Valid()
    modifies list, list.Repr
    ensures list.Valid() && y == x && list.Contents == old(list.Contents)
  {
    list.PushBack(x);
    y := list.PopFront();
  }

  /** `push_front` then `pop_back` hands back the element and restores the list: a stack at the other end. */
  method OtherEndStackRoundTrip<T(==)>(list: DoublyLinkedList<T>, x: T) returns (y: T)
    requires list.Valid()
    modifies list, list.Repr
    ensures list.Valid() && y == x && list.Contents == old(list.Contents)
  {
    list.PushFront(x);
    y := list.PopBack();
  }

  /**
   * `push_back` then `pop_back`: the element that leaves is the oldest one
   * and the new one waits at the end, a queue. On an empty list the new
   * element is also the oldest, so it comes straight back.
   */
  method QueueStep<T(==)>(list: DoublyLinkedList<T>, x: T) returns (y: T)
    requires list.Valid()
    modifies list, list.Repr
    ensures list.Valid()
    ensures y == (old(list.Contents) + [x])[0]
    ensures list.Contents == (old(list.Contents) + [x])[1..]
  {
    list.PushBack(x);
    y := list.PopBack();
  }

  /** A copy compares `==` to the list it was copied from. */
  method CopyEqualsOriginal<T(==)>(list: DoublyLinkedList<T>) returns (equal: bool)
    requires list.Valid()
    ensures equal
  {
    var copy := new DoublyLinkedList.Copy(list);
    equal := copy.Equal(list);
  }

  /** A copy owns fresh nodes: growing it leaves the original as it was. */
  method CopyIsIndependent<T(==)>(list: DoublyLinkedList<T>, x: T) returns (copy: DoublyLinkedList<T>)
    requires list.Valid()
    ensures fresh(copy) && copy.Valid() && list.Valid()
    ensures copy.Contents == list.Contents + [x]
    ensures !copy.Equal(list)
  {
    copy := new DoublyLinkedList.Copy(list);
    copy.PushBack(x);
    assert |copy.Contents| != |list.Contents|;
  }

  /** Pushing 1, 2, 3 at the back and popping from the front yields 3, 2, 1, then the default. */
  method PushBackPopFrontOrder() returns (a: int, b: int, c: int, d: int)
    ensures a == 3 && b == 2 && c == 1 && d == 0
  {
    var list := new DoublyLinkedList(0);
    list.PushBack(1);
    list.PushBack(2);
    list.PushBack(3);
    a := list.PopFront();
    b := list.PopFront();
    c := list.PopFront();
    d := list.PopFront();
  }

  /** Pushing 1, 2, 3 at the back and popping from the back yields 1, 2, 3, then the default. */
  method PushBackPopBackOrder() returns (a: int, b: int, c: int, d: int)
    ensures a == 1 && b == 2 && c == 3 && d == 0
  {
    var list := new DoublyLinkedList(0);
    list.PushBack(1);
    list.PushBack(2);
    list.PushBack(3);
    a := list.PopBack();
    b := list.PopBack();
    c := list.PopBack();
    d := list.PopBack();
  }

  /** On an empty list, `end()` and `rend()` as written have no node to start from. */
  method EmptyListEnds() returns (end: Option<Node?<int>>, rend: Option<Node?<int>>)
    ensures end == None && rend == None
  {
    var list := new DoublyLinkedList(0);
    end := list.EndNodeAsWritten();
    rend := list.REndNodeAsWritten();
  }
}

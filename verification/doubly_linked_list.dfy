/**
 * `dsa::doubly_linked_list<T>`: a chain of nodes linked both ways, with the
 * two ends kept in the fields `back` and `front` and the element count in
 * `nodes`.
 *
 * The header's naming is the opposite of what one may expect: iteration
 * starts at `back` (`first()`) and follows `next` to `front` (`last()`). In
 * this model `Contents` is the iteration order, so `push_back` appends,
 * `push_front` prepends, `pop_front` removes the LAST element and
 * `pop_back` the FIRST.
 */
module DoublyLinkedLists {

  datatype Option<T> = None | Some(value: T)

  /** `doubly_linked_node`: one element and the links to its neighbours. */
  class Node<T> {
    var item: T
    var previous: Node?<T>
    var next: Node?<T>

    constructor (item: T)
      ensures this.item == item && previous == null && next == null
    {
      this.item := item;
      previous := null;
      next := null;
    }
  }

  class DoublyLinkedList<T(==)> {
    var front: Node?<T>
    var back: Node?<T>
    var nodes: nat
    /** The value-initialised element `T()`, returned by a pop or peek on an empty list. */
    const defaultValue: T

    /** The elements in iteration order, from `back` to `front`. */
    ghost var Contents: seq<T>
    /** The nodes holding `Contents`, in the same order. */
    ghost var Chain: seq<Node<T>>
    /** The nodes this list owns. */
    ghost var Repr: set<Node<T>>

    /** The node at position `i` of the chain, null past either end. */
    ghost function NodeAt(i: int): Node?<T>
      reads this
    {
      if 0 <= i < |Chain| then Chain[i] else null
    }

    /**
     * The class invariant: `nodes` counts the chain; `back` and `front`
     * are its two ends (both null exactly when it is empty); the nodes are
     * distinct and owned; neighbours point at each other.
     */
    ghost predicate Valid()
      reads this, Repr
    {
      Linked(front, back, nodes, Contents, Chain, Repr)
    }

    /** `Valid` over the values of the list's fields, so that it survives moving them to another list. */
    static ghost predicate Linked(front: Node?<T>, back: Node?<T>, nodes: nat, contents: seq<T>, chain: seq<Node<T>>, repr: set<Node<T>>)
      reads repr
    {
      && (forall i :: 0 <= i < |chain| ==> chain[i] in repr)
      && |chain| == |contents| == nodes
      && back == (if 0 < |chain| then chain[0] else null)
      && front == (if 0 < |chain| then chain[|chain| - 1] else null)
      && (forall i, j :: 0 <= i < j < |chain| ==> chain[i] != chain[j])
      && (forall i :: 0 <= i < |chain| ==> chain[i].item == contents[i])
      && (forall i :: 0 <= i < |chain| - 1 ==> chain[i].next == chain[i + 1])
      && (forall i :: 0 < i < |chain| ==> chain[i].previous == chain[i - 1])
      && (|chain| > 0 ==> chain[|chain| - 1].next == null && chain[0].previous == null)
    }

    /** The default constructor: an empty list. */
    constructor (defaultValue: T)
      ensures Valid() && fresh(Repr)
      ensures Contents == [] && this.defaultValue == defaultValue
    {
      this.defaultValue := defaultValue;
      front, back, nodes := null, null, 0;
      Contents, Chain, Repr := [], [], {};
    }

    function Size(): (r: nat)
      reads this, Repr
      requires Valid()
      ensures r == |Contents|
    {
      nodes
    }

    function Empty(): (r: bool)
      reads this, Repr
      requires Valid()
      ensures r <==> Contents == []
    {
      front == null && back == null && nodes == 0
    }

    method PushFront(item: T)
      requires Valid()
      modifies this, Repr
      ensures Valid() && fresh(Repr - old(Repr)) && old(Repr) <= Repr
      ensures Contents == [item] + old(Contents)
    {
      var newNode := new Node(item);
      if Empty() {
        back := newNode;
        front := newNode;
      } else {
        assert back == Chain[0];
        newNode.next := back;
        back.previous := newNode;
        back := newNode;
      }
      nodes := nodes + 1;
      Contents, Chain, Repr := [item] + Contents, [newNode] + Chain, Repr + {newNode};
    }

    method PushBack(item: T)
      requires Valid()
      modifies this, Repr
      ensures Valid() && fresh(Repr - old(Repr)) && old(Repr) <= Repr
      ensures Contents == old(Contents) + [item]
    {
      var newNode := new Node(item);
      if Empty() {
        front := newNode;
        back := newNode;
      } else {
        assert front == Chain[nodes - 1];
        newNode.previous := front;
        front.next := newNode;
        front := newNode;
      }
      nodes := nodes + 1;
      Contents, Chain, Repr := Contents + [item], Chain + [newNode], Repr + {newNode};
    }

    method PopFront() returns (item: T)
      requires Valid()
      modifies this, Repr
      ensures Valid() && Repr <= old(Repr)
      ensures old(Contents) == [] ==> item == defaultValue && Contents == []
      ensures old(Contents) != [] ==>
        && item == old(Contents)[|old(Contents)| - 1]
        && Contents == old(Contents)[..|old(Contents)| - 1]
    {
      if Empty() {
        return defaultValue;
      }
      assert front == Chain[nodes - 1];
      assert front.previous == NodeAt(nodes - 2);
      item := front.item;
      var previousNode := front.previous;
      front.previous := null;
      if previousNode != null {
        previousNode.next := null;
        front := previousNode;
      } else {
        front := null;
        back := null;
      }
      nodes := nodes - 1;
      Contents, Chain, Repr := Contents[..nodes], Chain[..nodes], Repr - {Chain[nodes]};
    }

    method PopBack() returns (item: T)
      requires Valid()
      modifies this, Repr
      ensures Valid() && Repr <= old(Repr)
      ensures old(Contents) == [] ==> item == defaultValue && Contents == []
      ensures old(Contents) != [] ==> item == old(Contents)[0] && Contents == old(Contents)[1..]
    {
      if Empty() {
        return defaultValue;
      }
      assert back == Chain[0];
      assert back.next == NodeAt(1);
      item := back.item;
      var nextNode := back.next;
      back.next := null;
      if nextNode != null {
        nextNode.previous := null;
        back := nextNode;
      } else {
        front := null;
        back := null;
      }
      nodes := nodes - 1;
      Contents, Chain, Repr := Contents[1..], Chain[1..], Repr - {Chain[0]};
    }

    /** `pop_front` without the result; a no-op on an empty list. */
    method BlankPopFront()
      requires Valid()
      modifies this, Repr
      ensures Valid() && Repr <= old(Repr)
      ensures old(Contents) == [] ==> Contents == []
      ensures old(Contents) != [] ==> Contents == old(Contents)[..|old(Contents)| - 1]
    {
      if !Empty() {
        assert front == Chain[nodes - 1];
        assert front.previous == NodeAt(nodes - 2);
        var previousNode := front.previous;
        front.previous := null;
        if previousNode != null {
          previousNode.next := null;
          front := previousNode;
        } else {
          front := null;
          back := null;
        }
        nodes := nodes - 1;
        Contents, Chain, Repr := Contents[..nodes], Chain[..nodes], Repr - {Chain[nodes]};
      }
    }

    method Clear()
      requires Valid()
      modifies this, Repr
      ensures Valid() && Contents == [] && Repr <= old(Repr)
    {
      while !Empty()
        invariant Valid() && Repr <= old(Repr)
        decreases nodes
      {
        BlankPopFront();
      }
    }

    /** The last element of the iteration order, or `T()` on an empty list. */
    function PeekFront(): (r: T)
      reads this, Repr
      requires Valid()
      ensures Contents == [] ==> r == defaultValue
      ensures Contents != [] ==> r == Contents[|Contents| - 1]
    {
      if Empty() then defaultValue else front.item
    }

    /** The first element of the iteration order, or `T()` on an empty list. */
    function PeekBack(): (r: T)
      reads this, Repr
      requires Valid()
      ensures Contents == [] ==> r == defaultValue
      ensures Contents != [] ==> r == Contents[0]
    {
      if Empty() then defaultValue else back.item
    }

    /** The copy constructor: walks `other` from `back` along `next`, pushing each element at the back. */
    constructor Copy(other: DoublyLinkedList<T>)
      requires other.Valid()
      ensures Valid() && fresh(Repr)
      ensures Contents == other.Contents && defaultValue == other.defaultValue
    {
      defaultValue := other.defaultValue;
      front, back, nodes := null, null, 0;
      Contents, Chain, Repr := [], [], {};
      new;
      var node := other.back;
      ghost var i := 0;
      while node != null
        invariant Valid() && fresh(Repr)
        invariant 0 <= i <= |other.Contents|
        invariant node == other.NodeAt(i)
        invariant Contents == other.Contents[..i]
        decreases |other.Contents| - i
      {
        PushBack(node.item);
        node := node.next;
        i := i + 1;
      }
    }

    /**
     * The move constructor: takes over `other`'s nodes; moving the two
     * shared pointers out of `other` leaves it empty.
     */
    constructor Move(other: DoublyLinkedList<T>)
      requires other.Valid()
      modifies other
      ensures Valid() && Repr == old(other.Repr)
      ensures Contents == old(other.Contents) && defaultValue == other.defaultValue
      ensures other.Valid() && other.Contents == [] && other.Repr == {}
    {
      defaultValue := other.defaultValue;
      front, back, nodes := other.front, other.back, other.nodes;
      Contents, Chain, Repr := other.Contents, other.Chain, other.Repr;
      new;
      other.front, other.back, other.nodes := null, null, 0;
      other.Contents, other.Chain, other.Repr := [], [], {};
    }

    /**
     * `+=`: walks `rhs` from `back` along `next`, pushing each element at
     * the back of this list. `rhs` must be another list: appending a list
     * to itself never ends, since the walk reaches the nodes it appends.
     */
    method Append(rhs: DoublyLinkedList<T>)
      requires Valid() && rhs.Valid()
      requires rhs != this && Repr !! rhs.Repr
      modifies this, Repr
      ensures Valid() && fresh(Repr - old(Repr)) && old(Repr) <= Repr
      ensures Contents == old(Contents) + rhs.Contents
      ensures rhs.Valid() && Repr !! rhs.Repr
    {
      if !rhs.Empty() {
        var node := rhs.back;
        ghost var i := 0;
        while node != null
          invariant Valid() && fresh(Repr - old(Repr)) && old(Repr) <= Repr
          invariant rhs.Valid() && Repr !! rhs.Repr
          invariant 0 <= i <= |rhs.Contents|
          invariant node == rhs.NodeAt(i)
          invariant Contents == old(Contents) + rhs.Contents[..i]
          decreases |rhs.Contents| - i
        {
          PushBack(node.item);
          node := node.next;
          i := i + 1;
        }
      }
    }

    /** Member `+`: appends exactly as `+=` does and returns this list itself. */
    method Plus(rhs: DoublyLinkedList<T>) returns (r: DoublyLinkedList<T>)
      requires Valid() && rhs.Valid()
      requires rhs != this && Repr !! rhs.Repr
      modifies this, Repr
      ensures r == this
      ensures Valid() && fresh(Repr - old(Repr)) && old(Repr) <= Repr
      ensures Contents == old(Contents) + rhs.Contents
      ensures rhs.Valid() && Repr !! rhs.Repr
    {
      Append(rhs);
      r := this;
    }

    /**
     * `equals(node1, node2)`: walks both chains in step along `next`,
     * comparing items. Entered at the same position `k` of both lists, it
     * is true exactly when the two lists agree from `k` to their ends.
     */
    function EqualsFrom(rhs: DoublyLinkedList<T>, node1: Node?<T>, node2: Node?<T>, ghost k: nat): (r: bool)
      reads this, Repr, rhs, rhs.Repr
      requires Valid() && rhs.Valid()
      requires k <= |Contents| && k <= |rhs.Contents|
      requires node1 == NodeAt(k) && node2 == rhs.NodeAt(k)
      ensures r <==> Contents[k..] == rhs.Contents[k..]
      decreases |Contents| - k
    {
      if node1 == null && node2 == null then true
      else if node1 == null || node2 == null then
        assert |Contents[k..]| != |rhs.Contents[k..]|;
        false
      else if node1.item == node2.item then
        assert Contents[k..] == [Contents[k]] + Contents[k + 1..];
        assert rhs.Contents[k..] == [rhs.Contents[k]] + rhs.Contents[k + 1..];
        EqualsFrom(rhs, node1.next, node2.next, k + 1)
      else
        assert Contents[k..][0] != rhs.Contents[k..][0];
        false
    }

    /** `==`: the two lists hold equal elements in the same order. */
    function Equal(rhs: DoublyLinkedList<T>): (r: bool)
      reads this, Repr, rhs, rhs.Repr
      requires Valid() && rhs.Valid()
      ensures r <==> Contents == rhs.Contents
    {
      assert Contents[0..] == Contents && rhs.Contents[0..] == rhs.Contents;
      EqualsFrom(rhs, back, rhs.back, 0)
    }

    /** `!=`: the negation of `==`. */
    function NotEqual(rhs: DoublyLinkedList<T>): (r: bool)
      reads this, Repr, rhs, rhs.Repr
      requires Valid() && rhs.Valid()
      ensures r <==> Contents != rhs.Contents
    {
      !Equal(rhs)
    }

    /** `first()`: the node of the first element in iteration order, null when empty. */
    function First(): (r: Node?<T>)
      reads this, Repr
      requires Valid()
      ensures r == NodeAt(0)
      ensures r != null ==> r in Repr && r.item == Contents[0]
    {
      back
    }

    /** `last()`: the node of the last element in iteration order, null when empty. */
    function Last(): (r: Node?<T>)
      reads this, Repr
      requires Valid()
      ensures r == NodeAt(|Contents| - 1)
      ensures r != null ==> r in Repr && r.item == Contents[|Contents| - 1]
    {
      front
    }

    /**
     * `next(current)`: dereferences `current`, which must not be null. From
     * the node at position `i` it reaches position `i + 1`, or null past the
     * last element.
     */
    function Next(current: Node<T>, ghost i: nat): (r: Node?<T>)
      reads this, Repr
      requires Valid() && i < |Contents| && current == NodeAt(i)
      ensures r == NodeAt(i + 1)
      ensures r != null ==> r in Repr && r.item == Contents[i + 1]
    {
      current.next
    }

    /**
     * `previous(current)`: dereferences `current`, which must not be null.
     * From the node at position `i` it reaches position `i - 1`, or null
     * before the first element.
     */
    function Previous(current: Node<T>, ghost i: nat): (r: Node?<T>)
      reads this, Repr
      requires Valid() && i < |Contents| && current == NodeAt(i)
      ensures r == NodeAt(i - 1)
      ensures r != null ==> r in Repr && r.item == Contents[i - 1]
    {
      current.previous
    }

    /** Stepping along the chain moves one position in `Contents`. */
    lemma Neighbours(i: int)
      requires Valid() && 0 <= i < |Contents|
      ensures NodeAt(i) != null && NodeAt(i) in Repr && NodeAt(i).item == Contents[i]
      ensures NodeAt(i).next == NodeAt(i + 1) && NodeAt(i).previous == NodeAt(i - 1)
    {
    }

    /**
     * The node that `end()` starts from, as written: `next(last())`. On an
     * empty list `last()` is null and `next` dereferences it, which is
     * `None` here; otherwise it is the null node past the last element.
     */
    function EndNodeAsWritten(): (r: Option<Node?<T>>)
      reads this, Repr
      requires Valid()
      ensures r == None <==> Contents == []
      ensures r != None ==> r.value == NodeAt(|Contents|)
    {
      var last := Last();
      if last == null then None else Some(Next(last, |Contents| - 1))
    }

    /**
     * The node that `rend()` starts from, as written: `previous(first())`,
     * with `None` for the null dereference on an empty list.
     */
    function REndNodeAsWritten(): (r: Option<Node?<T>>)
      reads this, Repr
      requires Valid()
      ensures r == None <==> Contents == []
      ensures r != None ==> r.value == NodeAt(-1)
    {
      var first := First();
      if first == null then None else Some(Previous(first, 0))
    }

    /** `begin()`: an iterator at the first element, or past the end of an empty list. */
    method Begin() returns (it: ListIterator<T>)
      requires Valid()
      ensures fresh(it) && it.node == NodeAt(0)
    {
      it := new ListIterator(First());
    }

    /**
     * `end()`: an iterator past the last element. Its node is null on every
     * list, so it is built directly from null rather than from `next(last())`.
     */
    method End() returns (it: ListIterator<T>)
      requires Valid()
      ensures fresh(it) && it.node == NodeAt(|Contents|) && it.node == null
    {
      it := new ListIterator(null);
    }

    /** `rbegin()`: a reverse iterator at the last element, or past the end of an empty list. */
    method RBegin() returns (it: ReverseListIterator<T>)
      requires Valid()
      ensures fresh(it) && it.node == NodeAt(|Contents| - 1)
    {
      it := new ReverseListIterator(Last());
    }

    /** `rend()`: a reverse iterator before the first element, built from null on every list. */
    method REnd() returns (it: ReverseListIterator<T>)
      requires Valid()
      ensures fresh(it) && it.node == NodeAt(-1) && it.node == null
    {
      it := new ReverseListIterator(null);
    }

    /** The friend `swap`: exchanges the two lists' ends and counts. */
    static method Swap(first: DoublyLinkedList<T>, second: DoublyLinkedList<T>)
      requires first.Valid() && second.Valid()
      modifies first, second
      ensures first.Valid() && second.Valid()
      ensures first.Contents == old(second.Contents) && second.Contents == old(first.Contents)
      ensures first.Repr == old(second.Repr) && second.Repr == old(first.Repr)
    {
      // Swapping a list with itself changes nothing.
      if first != second {
        var front, back, nodes := first.front, first.back, first.nodes;
        ghost var contents, chain, repr := first.Contents, first.Chain, first.Repr;
        first.Take(second.front, second.back, second.nodes, second.Contents, second.Chain, second.Repr);
        second.Take(front, back, nodes, contents, chain, repr);
      }
    }

    /** Makes this list hold a chain that some list held: one half of `swap`. */
    method Take(front: Node?<T>, back: Node?<T>, nodes: nat, ghost contents: seq<T>, ghost chain: seq<Node<T>>, ghost repr: set<Node<T>>)
      requires Linked(front, back, nodes, contents, chain, repr)
      modifies this
      ensures Valid() && Contents == contents && Repr == repr
    {
      this.front, this.back, this.nodes := front, back, nodes;
      Contents, Chain, Repr := contents, chain, repr;
    }
  }

  /**
   * `iterator_impl`: a position in a list, as the node it stands on (null
   * past the end). `++` follows `next`, `--` follows `previous`.
   */
  class ListIterator<T(==)> {
    var node: Node?<T>

    constructor (node: Node?<T>)
      ensures this.node == node
    {
      this.node := node;
    }

    /** Prefix `++`. */
    method Increment()
      requires node != null
      modifies this
      ensures node == old(node.next)
    {
      node := node.next;
    }

    /** Postfix `++`: steps this iterator and returns a copy of where it stood. */
    method PostIncrement() returns (r: ListIterator<T>)
      requires node != null
      modifies this
      ensures fresh(r) && r.node == old(node) && node == old(node.next)
    {
      r := new ListIterator(node);
      Increment();
    }

    /** Prefix `--`. */
    method Decrement()
      requires node != null
      modifies this
      ensures node == old(node.previous)
    {
      node := node.previous;
    }

    /** Postfix `--`: steps this iterator back and returns a copy of where it stood. */
    method PostDecrement() returns (r: ListIterator<T>)
      requires node != null
      modifies this
      ensures fresh(r) && r.node == old(node) && node == old(node.previous)
    {
      r := new ListIterator(node);
      Decrement();
    }

    /** `*`: the element the iterator stands on. */
    function Value(): (r: T)
      reads this, node
      requires node != null
      ensures r == node.item
    {
      node.item
    }

    /**
     * `==`: two iterators past the end are equal, an iterator on an element
     * never equals one past the end, and two iterators on elements are
     * equal when their ELEMENTS are equal (the nodes' `==` compares items).
     * The left iterator must not be past the end when the right one is not:
     * the source dereferences it then.
     */
    function Equal(it: ListIterator<T>): (r: bool)
      reads this, it, node, it.node
      requires node == null ==> it.node == null
      ensures it.node == null ==> (r <==> node == null)
      ensures it.node != null ==> (r <==> node.item == it.node.item)
    {
      if node == null && it.node == null then true
      else if it.node == null then false
      else node.item == it.node.item
    }

    /** `!=`: the negation of `==`. */
    function NotEqual(it: ListIterator<T>): (r: bool)
      reads this, it, node, it.node
      requires node == null ==> it.node == null
      ensures r <==> !Equal(it)
    {
      !Equal(it)
    }
  }

  /**
   * `reverse_iterator_impl`: a position walked the other way: `++` follows
   * `previous` and `--` follows `next`.
   */
  class ReverseListIterator<T(==)> {
    var node: Node?<T>

    constructor (node: Node?<T>)
      ensures this.node == node
    {
      this.node := node;
    }

    /** Prefix `++`. */
    method Increment()
      requires node != null
      modifies this
      ensures node == old(node.previous)
    {
      node := node.previous;
    }

    /** Postfix `++`: steps this iterator and returns a copy of where it stood. */
    method PostIncrement() returns (r: ReverseListIterator<T>)
      requires node != null
      modifies this
      ensures fresh(r) && r.node == old(node) && node == old(node.previous)
    {
      r := new ReverseListIterator(node);
      Increment();
    }

    /** Prefix `--`. */
    method Decrement()
      requires node != null
      modifies this
      ensures node == old(node.next)
    {
      node := node.next;
    }

    /** Postfix `--`: steps this iterator back and returns a copy of where it stood. */
    method PostDecrement() returns (r: ReverseListIterator<T>)
      requires node != null
      modifies this
      ensures fresh(r) && r.node == old(node) && node == old(node.next)
    {
      r := new ReverseListIterator(node);
      Decrement();
    }

    /** `*`: the element the iterator stands on. */
    function Value(): (r: T)
      reads this, node
      requires node != null
      ensures r == node.item
    {
      node.item
    }

    /** `==`, with the same value comparison as the forward iterator's. */
    function Equal(it: ReverseListIterator<T>): (r: bool)
      reads this, it, node, it.node
      requires node == null ==> it.node == null
      ensures it.node == null ==> (r <==> node == null)
      ensures it.node != null ==> (r <==> node.item == it.node.item)
    {
      if node == null && it.node == null then true
      else if it.node == null then false
      else node.item == it.node.item
    }

    /** `!=`: the negation of `==`. */
    function NotEqual(it: ReverseListIterator<T>): (r: bool)
      reads this, it, node, it.node
      requires node == null ==> it.node == null
      ensures r <==> !Equal(it)
    {
      !Equal(it)
    }
  }
}

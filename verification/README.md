# Doubly linked list and two in-place sorts, modelled in Dafny

This project models three components of the Data-Structures-Algorithms C++ repository:

- `dsa::doubly_linked_list<T>`: a two-ended list of heap nodes linked both ways. It has:
  - push, pop and peek at both ends, `clear`, `size` and `empty`;
  - structural `==`, deep copy, move, `+=`, the member and free `+`, and the friend `swap`;
  - forward and reverse iterators with `begin`/`end`/`rbegin`/`rend`.
- `dsa::insertionsort(data, size)`: insertion sort on a raw array.
- `Sorts::bubblesort(data, size)`: bubble sort on a raw array.

Files:

- `doubly_linked_list.dfy` (module `DoublyLinkedLists`) holds the list and its two iterator classes.
  - A list is a class with the source's three fields: `front`, `back` and `nodes`.
  - Each node is a class with `item`, `previous` and `next`.
  - The ghost `Contents` is the element sequence in iteration order. The ghost `Chain` is the nodes in that order. The ghost `Repr` is the set of owned nodes.
  - `Valid()` ties the links to `Chain`. Every list operation is proved against `Contents`, and `Next`/`Previous` against positions in it.
  - An iterator holds only a node. Its members are stated over that node; `Neighbours` and the traversal methods in `ListClients` turn nodes into positions of `Contents`.
- `list_clients.dfy` (module `ListClients`) holds code written against the list from outside:
  - the free `operator+`;
  - the `begin()…end()` and `rbegin()…rend()` loops;
  - the stack and queue disciplines;
  - copy independence;
  - concrete push/pop scenarios.
- `sort_spec.dfy` (module `SortSpec`) is the reference the sorts are proved against.
  - `Sort` is a sequence insertion sort.
  - `Sorted` means non-decreasing.
  - `StablePermutation` means every group of equal-key elements keeps its relative order.
  - The lemmas show that `Sort` is sorted, stable and a permutation. They also show it is the only sequence with those properties.
- `insertion_sort.dfy` and `bubble_sort.dfy` are the two sorts as methods on an `array?`. Each is proved to leave `data[..size]` equal to `Sort(old(data[..size]))` and to leave the cells past `size` unchanged.

Conventions:

- **Iteration order.** Iteration starts at the node in the field `back` (`first()`) and follows `next` to the node in `front` (`last()`). So over the iteration sequence:
  - `push_back` appends and `push_front` prepends;
  - `pop_front` removes and returns the LAST element;
  - `pop_back` removes and returns the FIRST element.

  The repository's unit tests (Tests/doubly_linked_list_test.cpp:245-343) expect the opposite pairing. They expect `push_back` then `pop_front` to return elements in insertion order. The header gives them in reverse. The model follows the header. `ListClients.PushBackPopFrontOrder` shows the order the header produces.
- **`T()`.** The value-initialised element is the constant `defaultValue`, given to the list's constructor.
- **Element order.** The sorts compare elements with `<` and `>`. The model compares them through a key function `key: T -> int`, standing for a strict weak order on the elements of any one input. This makes stability meaningful: elements with equal keys may still differ.

## Model

| member | source | states |
|---|---|---|
| DoublyLinkedLists.Node.constructor | DataStructuresAlgorithms/lists/doubly_linked_list.hpp:35-38 | a new node holds the item and has no neighbours |
| DoublyLinkedLists.DoublyLinkedList.constructor | DataStructuresAlgorithms/lists/doubly_linked_list.hpp:304 | a new list is valid and empty |
| DoublyLinkedLists.DoublyLinkedList.Size | DataStructuresAlgorithms/lists/doubly_linked_list.hpp:509-513 | `size()` is the number of elements |
| DoublyLinkedLists.DoublyLinkedList.Empty | DataStructuresAlgorithms/lists/doubly_linked_list.hpp:515-521 | `empty()` holds exactly when the list has no elements |
| DoublyLinkedLists.DoublyLinkedList.PushFront | DataStructuresAlgorithms/lists/doubly_linked_list.hpp:380-399 | prepends the item to the iteration sequence, keeps the link invariant, and only adds one fresh node |
| DoublyLinkedLists.DoublyLinkedList.PushBack | DataStructuresAlgorithms/lists/doubly_linked_list.hpp:401-420 | appends the item to the iteration sequence, keeps the link invariant, and only adds one fresh node |
| DoublyLinkedLists.DoublyLinkedList.PopFront | DataStructuresAlgorithms/lists/doubly_linked_list.hpp:422-448 | on a non-empty list, removes and returns the last element and keeps the rest in order; on an empty list, returns `T()` and the list stays empty |
| DoublyLinkedLists.DoublyLinkedList.PopBack | DataStructuresAlgorithms/lists/doubly_linked_list.hpp:450-476 | on a non-empty list, removes and returns the first element and keeps the rest in order; on an empty list, returns `T()` and the list stays empty |
| DoublyLinkedLists.DoublyLinkedList.BlankPopFront | DataStructuresAlgorithms/lists/doubly_linked_list.hpp:597-618 | removes the last element when there is one; otherwise does nothing |
| DoublyLinkedLists.DoublyLinkedList.Clear | DataStructuresAlgorithms/lists/doubly_linked_list.hpp:478-485 | ends valid and empty; the loop terminates because each step shrinks `nodes` |
| DoublyLinkedLists.DoublyLinkedList.PeekFront | DataStructuresAlgorithms/lists/doubly_linked_list.hpp:487-496 | the last element, or `T()` on an empty list, without changing anything |
| DoublyLinkedLists.DoublyLinkedList.PeekBack | DataStructuresAlgorithms/lists/doubly_linked_list.hpp:498-507 | the first element, or `T()` on an empty list, without changing anything |
| DoublyLinkedLists.DoublyLinkedList.Copy | DataStructuresAlgorithms/lists/doubly_linked_list.hpp:307-316 | the copy holds the same sequence in nodes that are all fresh, so it shares none with the original |
| DoublyLinkedLists.DoublyLinkedList.Move | DataStructuresAlgorithms/lists/doubly_linked_list.hpp:318-324 | the new list takes over the source's sequence and nodes; the source is left valid and empty |
| DoublyLinkedLists.DoublyLinkedList.Append | DataStructuresAlgorithms/lists/doubly_linked_list.hpp:340-356 | `a += b` makes `a` hold `old(a) + b` and leaves `b` valid and unchanged (requires `b` to be another list) |
| DoublyLinkedLists.DoublyLinkedList.Plus | DataStructuresAlgorithms/lists/doubly_linked_list.hpp:334-338 | member `a + b` changes `a` exactly as `+=` does and returns `a` itself |
| DoublyLinkedLists.DoublyLinkedList.Swap | DataStructuresAlgorithms/lists/doubly_linked_list.hpp:370-378 | the two lists exchange sequences and nodes, and both stay valid; swapping a list with itself changes nothing |
| DoublyLinkedLists.DoublyLinkedList.Take | DataStructuresAlgorithms/lists/doubly_linked_list.hpp:375-377 | given the fields of a valid chain, the list becomes valid and holds that chain's sequence and nodes |
| DoublyLinkedLists.DoublyLinkedList.EqualsFrom | DataStructuresAlgorithms/lists/doubly_linked_list.hpp:620-643 | walking both chains in step from position k gives true exactly when the two sequences agree from k to their ends, lengths included |
| DoublyLinkedLists.DoublyLinkedList.Equal | DataStructuresAlgorithms/lists/doubly_linked_list.hpp:358-362 | `==` holds exactly when the two iteration sequences are equal |
| DoublyLinkedLists.DoublyLinkedList.NotEqual | DataStructuresAlgorithms/lists/doubly_linked_list.hpp:364-368 | `!=` holds exactly when the two iteration sequences differ |
| DoublyLinkedLists.DoublyLinkedList.First | DataStructuresAlgorithms/lists/doubly_linked_list.hpp:645-649 | the node of the first element in iteration order, or null |
| DoublyLinkedLists.DoublyLinkedList.Last | DataStructuresAlgorithms/lists/doubly_linked_list.hpp:651-655 | the node of the last element in iteration order, or null |
| DoublyLinkedLists.DoublyLinkedList.Next | DataStructuresAlgorithms/lists/doubly_linked_list.hpp:657-661 | from the node at position i of a valid list, `next` reaches position i+1, or null past the last element |
| DoublyLinkedLists.DoublyLinkedList.Previous | DataStructuresAlgorithms/lists/doubly_linked_list.hpp:663-667 | from the node at position i of a valid list, `previous` reaches position i-1, or null before the first element |
| DoublyLinkedLists.DoublyLinkedList.Neighbours | DataStructuresAlgorithms/lists/doubly_linked_list.hpp:657-667 | in a valid list, following `next` or `previous` from the node at position i reaches position i+1 or i-1 (null past either end), and that node holds element i |
| DoublyLinkedLists.DoublyLinkedList.EndNodeAsWritten | DataStructuresAlgorithms/lists/doubly_linked_list.hpp:529-533 | `next(last())` dereferences null exactly when the list is empty; otherwise it is the null past the last element |
| DoublyLinkedLists.DoublyLinkedList.REndNodeAsWritten | DataStructuresAlgorithms/lists/doubly_linked_list.hpp:541-545 | `previous(first())` dereferences null exactly when the list is empty; otherwise it is the null before the first element |
| DoublyLinkedLists.DoublyLinkedList.Begin | DataStructuresAlgorithms/lists/doubly_linked_list.hpp:523-527 | `begin()` stands at position 0 (past the end when the list is empty) |
| DoublyLinkedLists.DoublyLinkedList.End | DataStructuresAlgorithms/lists/doubly_linked_list.hpp:529-533 | `end()` stands past the last element on every list, the empty one included |
| DoublyLinkedLists.DoublyLinkedList.RBegin | DataStructuresAlgorithms/lists/doubly_linked_list.hpp:535-539 | `rbegin()` stands at the last position |
| DoublyLinkedLists.DoublyLinkedList.REnd | DataStructuresAlgorithms/lists/doubly_linked_list.hpp:541-545 | `rend()` stands before the first element on every list, the empty one included |
| DoublyLinkedLists.ListIterator.constructor | DataStructuresAlgorithms/lists/doubly_linked_list.hpp:80-83 | the iterator stands on the given node |
| DoublyLinkedLists.ListIterator.Increment | DataStructuresAlgorithms/lists/doubly_linked_list.hpp:108-114 | prefix `++` moves to `next` |
| DoublyLinkedLists.ListIterator.PostIncrement | DataStructuresAlgorithms/lists/doubly_linked_list.hpp:116-123 | postfix `++` moves to `next` and returns a fresh iterator at the old node |
| DoublyLinkedLists.ListIterator.Decrement | DataStructuresAlgorithms/lists/doubly_linked_list.hpp:125-131 | prefix `--` moves to `previous` |
| DoublyLinkedLists.ListIterator.PostDecrement | DataStructuresAlgorithms/lists/doubly_linked_list.hpp:133-140 | postfix `--` moves to `previous` and returns a fresh iterator at the old node |
| DoublyLinkedLists.ListIterator.Value | DataStructuresAlgorithms/lists/doubly_linked_list.hpp:142-146 | `*it` is the item of the node it stands on |
| DoublyLinkedLists.ListIterator.Equal | DataStructuresAlgorithms/lists/doubly_linked_list.hpp:154-169 | two iterators past the end are equal; an iterator on an element never equals one past the end; otherwise the ITEMS are compared; a left iterator past the end with a right one on an element is excluded |
| DoublyLinkedLists.ListIterator.NotEqual | DataStructuresAlgorithms/lists/doubly_linked_list.hpp:171-175 | `!=` is the negation of `==` |
| DoublyLinkedLists.ReverseListIterator.constructor | DataStructuresAlgorithms/lists/doubly_linked_list.hpp:196-199 | the reverse iterator stands on the given node |
| DoublyLinkedLists.ReverseListIterator.Increment | DataStructuresAlgorithms/lists/doubly_linked_list.hpp:219-225 | reverse prefix `++` moves to `previous` |
| DoublyLinkedLists.ReverseListIterator.PostIncrement | DataStructuresAlgorithms/lists/doubly_linked_list.hpp:227-234 | reverse postfix `++` moves to `previous` and returns a fresh iterator at the old node |
| DoublyLinkedLists.ReverseListIterator.Decrement | DataStructuresAlgorithms/lists/doubly_linked_list.hpp:236-242 | reverse prefix `--` moves to `next` |
| DoublyLinkedLists.ReverseListIterator.PostDecrement | DataStructuresAlgorithms/lists/doubly_linked_list.hpp:244-251 | reverse postfix `--` moves to `next` and returns a fresh iterator at the old node |
| DoublyLinkedLists.ReverseListIterator.Value | DataStructuresAlgorithms/lists/doubly_linked_list.hpp:253-257 | `*it` is the item of the node it stands on |
| DoublyLinkedLists.ReverseListIterator.Equal | DataStructuresAlgorithms/lists/doubly_linked_list.hpp:265-280 | the same value comparison as the forward iterator's `==` |
| DoublyLinkedLists.ReverseListIterator.NotEqual | DataStructuresAlgorithms/lists/doubly_linked_list.hpp:282-286 | `!=` is the negation of `==` |
| ListClients.Concat | DataStructuresAlgorithms/lists/doubly_linked_list.hpp:675-682 | free `lhs + rhs` returns a fresh valid list holding `lhs` then `rhs`, changes neither operand, and allows `lhs` to be `rhs` |
| ListClients.ForwardTraversal | DataStructuresAlgorithms/lists/doubly_linked_list.hpp:523-533 | the loop from `begin()` while `!= end()` with `++` visits exactly the iteration sequence, on every list |
| ListClients.ReverseTraversal | DataStructuresAlgorithms/lists/doubly_linked_list.hpp:535-545 | the loop from `rbegin()` while `!= rend()` with `++` visits the iteration sequence reversed |
| ListClients.IteratorsCompareValues | DataStructuresAlgorithms/lists/doubly_linked_list.hpp:154-169 | two iterators on elements of a list are `==` exactly when their elements are equal, so two different positions holding equal values compare equal |
| ListClients.StackRoundTrip | DataStructuresAlgorithms/lists/doubly_linked_list.hpp:401-448 | `push_back(x)` then `pop_front()` returns x and restores the list, which makes that pair a stack |
| ListClients.OtherEndStackRoundTrip | DataStructuresAlgorithms/lists/doubly_linked_list.hpp:380-476 | `push_front(x)` then `pop_back()` returns x and restores the list |
| ListClients.QueueStep | DataStructuresAlgorithms/lists/doubly_linked_list.hpp:401-476 | `push_back(x)` then `pop_back()` returns the first element of `old + [x]` and leaves the rest of it, which makes that pair a queue; on an empty list it returns x and leaves the list empty |
| ListClients.CopyIsIndependent | DataStructuresAlgorithms/lists/doubly_linked_list.hpp:307-316 | pushing onto a copy leaves the original unchanged, and the two then compare unequal |
| ListClients.CopyEqualsOriginal | DataStructuresAlgorithms/lists/doubly_linked_list.hpp:358-362 | a copy compares `==` to its original |
| ListClients.PushBackPopFrontOrder | DataStructuresAlgorithms/lists/doubly_linked_list.hpp:401-448 | pushing 1, 2, 3 at the back and then popping the front gives 3, 2, 1, then `T()` |
| ListClients.PushBackPopBackOrder | DataStructuresAlgorithms/lists/doubly_linked_list.hpp:401-476 | pushing 1, 2, 3 at the back and then popping the back gives 1, 2, 3, then `T()` |
| ListClients.EmptyListEnds | DataStructuresAlgorithms/lists/doubly_linked_list.hpp:529-545 | on an empty list, `end()` and `rend()` as written have no node to step from |
| SortSpec.InsertAt | DataStructuresAlgorithms/sorts/insertion_sort.hpp:21-30 | dropping the lifted element where the shifting loop stops (after the last element not larger, before the larger ones) is exactly `Insert` |
| SortSpec.InsertSorted | DataStructuresAlgorithms/sorts/insertion_sort.hpp:19-30 | inserting into a sorted prefix keeps it sorted |
| SortSpec.InsertStable | DataStructuresAlgorithms/sorts/insertion_sort.hpp:23-24 | because the shift stops at an equal key, inserting never reorders equal-key elements |
| SortSpec.SortIsSorted | DataStructuresAlgorithms/sorts/insertion_sort.hpp:17-31 | the reference sort is non-decreasing |
| SortSpec.SortIsStable | DataStructuresAlgorithms/sorts/insertion_sort.hpp:17-31 | the reference sort is a stable permutation of its input |
| SortSpec.StablePermutationIsPermutation | Sorts/BubbleSort.hpp:20-23 | keeping every key group in order keeps every element with its multiplicity |
| SortSpec.SwapDistinctKeysIsStable | Sorts/BubbleSort.hpp:20-23 | exchanging two neighbours with different keys keeps every key group in order |
| SortSpec.SortedStableUnique | Sorts/BubbleSort.hpp:16-25 | two sorted sequences with the same key groups in the same order are equal |
| SortSpec.SortCharacterization | Sorts/BubbleSort.hpp:16-25 | any sorted stable rearrangement of a sequence is its reference sort |
| SortSpec.SortOfSortedIsIdentity | Sorts/BubbleSort.hpp:20 | a sequence that is already sorted is its own sort |
| SortSpec.SortProperties | DataStructuresAlgorithms/sorts/insertion_sort.hpp:11-33 | the reference sort is sorted, stable and a permutation, and leaves sorted input as it is |
| InsertionSort.InsertionSort | DataStructuresAlgorithms/sorts/insertion_sort.hpp:11-33 | for non-null data: `data[..size]` becomes the stable sort of its old contents (so it is sorted and a permutation, and sorted input is unchanged), nothing past `size` changes, and size 0 or 1 changes nothing |
| InsertionSort.InsertCurrent | DataStructuresAlgorithms/sorts/insertion_sort.hpp:19-30 | one outer step turns `data[..idx+1]` into `Insert(data[..idx], data[idx])` and leaves the rest as it was |
| BubbleSort.Swap | Sorts/BubbleSort.hpp:22 | exchanges two cells and changes nothing else |
| BubbleSort.BubbleSort | Sorts/BubbleSort.hpp:13-26 | for non-null data: `data[..size]` becomes sorted, a stable permutation equal to the reference sort (so sorted input is unchanged), nothing past `size` changes, and size 0 or 1 changes nothing; null data is allowed only with size 0 or 1, the sizes at which the source never reads it |
| BubbleSort.BubblePass | Sorts/BubbleSort.hpp:18-24 | one pass moves the largest of the first m cells to position m-1, so the ordered, largest suffix grows by one; it keeps every key group in order |
| BubbleSort.PassStep | Sorts/BubbleSort.hpp:20-23 | one comparison, with a swap only when the left key is strictly greater, keeps the pass invariant and the order within each key group |
| BubbleSort.PassEnd | Sorts/BubbleSort.hpp:18-24 | at the end of a pass the sorted suffix starts one cell earlier |

## Left out

- Copy assignment `operator=` (DataStructuresAlgorithms/lists/doubly_linked_list.hpp:326-332) is not modelled. It calls `this->swap(*this, rhs)`, but the class declares `swap` only as a friend, not a member, so the call names nothing once the template is instantiated. The friend `swap` itself is modelled as `Swap`.
- `operator->` (:148-152, :259-262) is not modelled. It returns a node pointer as `T*`.
- Iterator conversion from mutable to const, iterator `swap`, and the trait typedefs are not modelled (:85-106, :201-217).
- The `const` overloads and the `c`-prefixed `cbegin`/`cend`/`crbegin`/`crend` (:547-593) are not modelled separately. `begin`/`rbegin` and their variants do what `Begin`/`RBegin` do. The `const` `end`/`rend` and `cend`/`crend` build from `next(last())`/`previous(first())` as written, so they behave as the two "## Findings" rows describe (`EndNodeAsWritten`/`REndNodeAsWritten`), not as the corrected `End`/`REnd`.
- Writing through a dereferenced iterator is not modelled. `Value` only reads.
- Ownership through `std::shared_ptr` is replaced by the ghost `Repr` set. The model does not cover reference counts, node release on removal and destruction, or the two strong links per neighbour pair. A popped node simply leaves `Repr`.
- DoublyLinkedLists.DoublyLinkedList.Size: `nodes` is a `std::size_t` in the source; the model uses an unbounded `nat`, so the count never wraps.
- DoublyLinkedLists.DoublyLinkedList.Append: requires `rhs` to be another list. Appending a list to itself never terminates in the source: the walk along `next` reaches the nodes it has just appended.
- DoublyLinkedLists.DoublyLinkedList.Plus: requires `rhs` to be another list, for the same reason as `Append`.
- Iterators are not tied to a list. Their contracts speak of nodes, and `Neighbours` turns those into positions of a valid list. Invalidating an iterator by changing the list is left to the caller, as in the source.
- InsertionSort.InsertionSort and BubbleSort.BubbleSort compare elements through an integer key rather than an arbitrary `operator<`/`operator>`.
- BubbleSort.Swap stands for the `swap(data, i, j)` of the repository's `Sort.hpp`, which is not part of this model. It is assumed to exchange the two cells and do nothing else.
- The C++ `size - 1` in `bubblesort`'s inner bound would wrap for `size == 0`. The model evaluates it only inside the outer loop, which never runs when `size == 0`, as in the source.
- quick_sort.hpp, the tree node, the hash table and the unit test file are not part of this model.

## Findings

| source | as written | input that shows it | evidently intended | confidence | as-written member | corrected member |
|---|---|---|---|---|---|---|
| DataStructuresAlgorithms/lists/doubly_linked_list.hpp:529-533 | `end()` builds its iterator from `next(last())`, which dereferences the last node | a default-constructed (empty) list: `last()` is null, so `end()` dereferences null, and a `begin()`/`end()` loop over an empty list is undefined | `end()` stands past the last element on every list (a null node), so iterating an empty list visits nothing | not executed | DoublyLinkedLists.DoublyLinkedList.EndNodeAsWritten | DoublyLinkedLists.DoublyLinkedList.End |
| DataStructuresAlgorithms/lists/doubly_linked_list.hpp:541-545 | `rend()` builds its iterator from `previous(first())`, which dereferences the first node | a default-constructed (empty) list: `first()` is null, so `rend()` dereferences null | `rend()` stands before the first element on every list (a null node) | not executed | DoublyLinkedLists.DoublyLinkedList.REndNodeAsWritten | DoublyLinkedLists.DoublyLinkedList.REnd |

/**
 * `Sorts::bubblesort(data, size)`: `size` passes over the first `size` cells
 * of `data`, each comparing every pair of neighbours from the left and
 * exchanging the pair when the left one is strictly greater.
 */
module BubbleSort {
  import opened SortSpec

  /** The cells from `m` on are in order. */
  ghost predicate SortedFrom<T>(s: seq<T>, m: nat, key: T -> int)
  {
    forall p, q :: m <= p < q < |s| ==> key(s[p]) <= key(s[q])
  }

  /** No cell before `m` is greater than a cell from `m` on. */
  ghost predicate PartitionedAt<T>(s: seq<T>, m: nat, key: T -> int)
  {
    forall p, q :: 0 <= p < m <= q < |s| ==> key(s[p]) <= key(s[q])
  }

  /**
   * The `swap(data, i, j)` that the source takes from its `Sort.hpp`
   * (Sort.hpp is not part of this model): it exchanges `data[i]` and
   * `data[j]` and touches nothing else.
   */
  method Swap<T>(data: array<T>, i: nat, j: nat)
    requires i < data.Length && j < data.Length
    modifies data
    ensures data[..] == old(data[..])[i := old(data[j])][j := old(data[i])]
  {
    data[i], data[j] := data[j], data[i];
  }

  /**
   * `data` is the raw pointer of the source and `size` the number of cells
   * it points to; the source reads `data` only when `size >= 2`, so only then
   * must it be non-null. The element order is `key(x) > key(y)` for the
   * source's `x > y`.
   */
  method BubbleSort<T>(data: array?<T>, size: nat, key: T -> int)
    requires data == null ==> size <= 1
    requires data != null ==> size <= data.Length
    modifies data
    ensures data != null ==> Sorted(data[..size], key)
    ensures data != null ==> StablePermutation(old(data[..size]), data[..size], key)
    ensures data != null ==> multiset(data[..size]) == multiset(old(data[..size]))
    ensures data != null ==> data[size..] == old(data[size..])
    ensures data != null ==> data[..size] == Sort(old(data[..size]), key)
    ensures data != null && Sorted(old(data[..size]), key) ==> data[..size] == old(data[..size])
    ensures data != null && size <= 1 ==> data[..] == old(data[..])
  {
    var idx := 0;
    while idx < size
      invariant 0 <= idx <= size
      invariant data != null ==> SortedFrom(data[..size], size - idx, key)
      invariant data != null ==> PartitionedAt(data[..size], size - idx, key)
      invariant data != null ==> StablePermutation(old(data[..size]), data[..size], key)
      invariant data != null ==> data[size..] == old(data[size..])
    {
      BubblePass(data, size, size - idx, key);
      idx := idx + 1;
    }
    if data != null {
      assert Sorted(data[..size], key);
      SortCharacterization(old(data[..size]), data[..size], key);
      SortProperties(old(data[..size]), key);
    }
  }

  /**
   * One pass of the outer loop, entered with the cells from `m` on in
   * order and no smaller than any cell before `m`: the pass carries the
   * largest of the first `m` cells to position `m - 1`, so afterwards the
   * cells from `m - 1` on are in order and are the largest.
   */
  method BubblePass<T>(data: array?<T>, size: nat, m: nat, key: T -> int)
    requires data == null ==> size <= 1
    requires data != null ==> size <= data.Length
    requires 1 <= m <= size
    requires data != null ==> SortedFrom(data[..size], m, key) && PartitionedAt(data[..size], m, key)
    modifies data
    ensures data != null ==> SortedFrom(data[..size], m - 1, key) && PartitionedAt(data[..size], m - 1, key)
    ensures data != null ==> StablePermutation(old(data[..size]), data[..size], key)
    ensures data != null ==> data[size..] == old(data[size..])
  {
    var shiftIdx := 0;
    // `size - 1` cannot wrap here: the caller's loop runs only when size >= 1.
    while shiftIdx < size - 1
      invariant 0 <= shiftIdx <= size - 1
      invariant data != null ==> PassInvariant(data[..size], shiftIdx, m, key)
      invariant data != null ==> StablePermutation(old(data[..size]), data[..size], key)
      invariant data != null ==> data[size..] == old(data[size..])
    {
      ghost var before := data[..size];
      PassStep(before, shiftIdx, m, key);
      if key(data[shiftIdx]) > key(data[shiftIdx + 1]) {
        Swap(data, shiftIdx, shiftIdx + 1);
        assert data[..size] == before[shiftIdx := before[shiftIdx + 1]][shiftIdx + 1 := before[shiftIdx]];
      }
      shiftIdx := shiftIdx + 1;
    }
    if data != null {
      PassEnd(data[..size], m, key);
    }
  }

  /** No cell up to `top` is greater than the cell at `top`. */
  ghost predicate MaxAt<T>(s: seq<T>, top: nat, key: T -> int)
    requires top < |s|
  {
    forall k :: 0 <= k <= top ==> key(s[k]) <= key(s[top])
  }

  /**
   * What holds before the comparison at `j` in a pass bounded by `m`: the
   * suffix from `m` is still ordered and on top, and the cell at `j` (or,
   * once `j` has entered the suffix, the cell at `m - 1`) is the largest so far.
   */
  ghost predicate PassInvariant<T>(s: seq<T>, j: nat, m: nat, key: T -> int)
  {
    && j < |s| && 1 <= m <= |s|
    && SortedFrom(s, m, key) && PartitionedAt(s, m, key)
    && MaxAt(s, if j < m then j else m - 1, key)
  }

  /** One comparison of the pass keeps its invariant and every key group's order. */
  lemma PassStep<T>(s: seq<T>, j: nat, m: nat, key: T -> int)
    requires PassInvariant(s, j, m, key) && j + 1 < |s|
    ensures var t := if key(s[j]) > key(s[j + 1]) then s[j := s[j + 1]][j + 1 := s[j]] else s;
      PassInvariant(t, j + 1, m, key) && StablePermutation(s, t, key)
  {
    if key(s[j]) > key(s[j + 1]) {
      assert j + 1 < m;
      var t := s[j := s[j + 1]][j + 1 := s[j]];
      SwapDistinctKeysIsStable(s, j, key);
      forall p, q | 0 <= p < m <= q < |t| ensures key(t[p]) <= key(t[q]) {
        assert t[q] == s[q];
      }
      assert MaxAt(t, j + 1, key);
    }
  }

  /** At the end of the pass the boundary moves one cell to the left. */
  lemma PassEnd<T>(s: seq<T>, m: nat, key: T -> int)
    requires |s| >= 1 && PassInvariant(s, |s| - 1, m, key)
    ensures SortedFrom(s, m - 1, key) && PartitionedAt(s, m - 1, key)
  {
  }
}

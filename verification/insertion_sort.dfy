/**
 * `dsa::insertionsort(data, size)`: sorts the first `size` cells of `data`
 * in place. Each element in turn is lifted out, the larger elements before
 * it are shifted one cell to the right, and it is dropped into the gap.
 */
module InsertionSort {
  import opened SortSpec

  /**
   * `data` is the raw pointer of the source (it may be null) and `size` the
   * number of cells it points to. The element order is `key(x) < key(y)`
   * for the source's `x < y`.
   */
  method InsertionSort<T>(data: array?<T>, size: nat, key: T -> int)
    requires data != null ==> size <= data.Length
    modifies data
    ensures data != null ==> data[..size] == Sort(old(data[..size]), key)
    ensures data != null ==> data[size..] == old(data[size..])
    ensures data != null ==> Sorted(data[..size], key)
    ensures data != null ==> StablePermutation(old(data[..size]), data[..size], key)
    ensures data != null ==> multiset(data[..size]) == multiset(old(data[..size]))
    ensures data != null && Sorted(old(data[..size]), key) ==> data[..size] == old(data[..size])
    ensures data != null && size <= 1 ==> data[..] == old(data[..])
  {
    if data != null {
      ghost var orig := data[..];
      var idx := 1;
      while idx < size
        invariant 1 <= idx && (size == 0 || idx <= size)
        invariant size > 0 ==> data[..idx] == Sort(orig[..idx], key)
        invariant size > 0 ==> data[idx..] == orig[idx..]
        invariant size == 0 ==> data[..] == orig
      {
        InsertCurrent(data, idx, key);
        assert orig[..idx + 1] == orig[..idx] + [orig[idx]];
        idx := idx + 1;
      }
      assert data[size..] == orig[size..];
      assert orig[..size] == old(data[..size]);
      SortProperties(orig[..size], key);
    }
  }

  /**
   * One pass of the outer loop: `current = data[idx]` is lifted out, the
   * cells before it holding a strictly larger element move one to the
   * right, and `current` lands in the gap.
   */
  method InsertCurrent<T>(data: array<T>, idx: nat, key: T -> int)
    requires idx < data.Length
    modifies data
    ensures data[..idx + 1] == Insert(old(data[..idx]), old(data[idx]), key)
    ensures data[idx + 1..] == old(data[idx + 1..])
  {
    var current := data[idx];
    var insertPos := idx;
    ghost var p := data[..idx];
    while insertPos != 0 && key(current) < key(data[insertPos - 1])
      invariant 0 <= insertPos <= idx
      invariant forall k :: 0 <= k < insertPos ==> data[k] == p[k]
      invariant forall k :: insertPos < k <= idx ==> data[k] == p[k - 1]
      invariant data[idx + 1..] == old(data[idx + 1..])
      invariant forall j :: insertPos <= j < idx ==> key(current) < key(p[j])
      decreases insertPos
    {
      data[insertPos] := data[insertPos - 1];
      insertPos := insertPos - 1;
    }
    data[insertPos] := current;
    InsertAt(p, current, key, insertPos);
    assert data[..idx + 1] == p[..insertPos] + [current] + p[insertPos..];
  }
}

/**
 * The reference definition shared by the two in-place sorts: what "sorted",
 * "stable" and "permutation" mean for a sequence whose elements are compared
 * through an integer key (the source compares elements with `operator<` and
 * `operator>`; on the elements of any one input, a strict weak order can be
 * written as such a key).
 */
module SortSpec {

  /** Non-decreasing by key. */
  ghost predicate Sorted<T>(s: seq<T>, key: T -> int)
  {
    forall i, j :: 0 <= i < j < |s| ==> key(s[i]) <= key(s[j])
  }

  /** The elements of `s` whose key is `k`, in their order in `s`. */
  function KeyFilter<T>(s: seq<T>, key: T -> int, k: int): (r: seq<T>)
    ensures |r| <= |s|
  {
    if s == [] then []
    else if key(s[0]) == k then [s[0]] + KeyFilter(s[1..], key, k)
    else KeyFilter(s[1..], key, k)
  }

  /**
   * `t` is a rearrangement of `s` that keeps every group of equal-key
   * elements in its original relative order: the definition of a stable
   * sort's result, minus sortedness.
   */
  ghost predicate StablePermutation<T>(s: seq<T>, t: seq<T>, key: T -> int)
  {
    forall k :: KeyFilter(s, key, k) == KeyFilter(t, key, k)
  }

  /**
   * Inserts `x` into `p` after every element whose key is not larger than
   * `x`'s, scanning from the back as the shifting loop of insertion sort does.
   */
  function Insert<T>(p: seq<T>, x: T, key: T -> int): (r: seq<T>)
    ensures |r| == |p| + 1
  {
    if p == [] then [x]
    else if key(x) < key(p[|p| - 1]) then Insert(p[..|p| - 1], x, key) + [p[|p| - 1]]
    else p + [x]
  }

  /** Sequence insertion sort: the stable sort of `s`. */
  function Sort<T>(s: seq<T>, key: T -> int): (r: seq<T>)
    ensures |r| == |s|
  {
    if s == [] then [] else Insert(Sort(s[..|s| - 1], key), s[|s| - 1], key)
  }

  // ---------------------------------------------------------------------
  // KeyFilter

  lemma {:induction false} KeyFilterAppend<T>(s: seq<T>, t: seq<T>, key: T -> int, k: int)
    ensures KeyFilter(s + t, key, k) == KeyFilter(s, key, k) + KeyFilter(t, key, k)
  {
    if s != [] {
      assert (s + t)[0] == s[0] && (s + t)[1..] == s[1..] + t;
      KeyFilterAppend(s[1..], t, key, k);
    } else {
      assert s + t == t;
    }
  }

  lemma {:induction false} KeyFilterMembers<T>(s: seq<T>, key: T -> int, k: int, x: T)
    requires x in KeyFilter(s, key, k)
    ensures x in s && key(x) == k
  {
    if s != [] && !(key(s[0]) == k && x == s[0]) {
      KeyFilterMembers(s[1..], key, k, x);
    }
  }

  /** Every occurrence of `x` in `s` is kept by the filter for `x`'s own key. */
  lemma {:induction false} KeyFilterCount<T>(s: seq<T>, key: T -> int, x: T)
    ensures multiset(KeyFilter(s, key, key(x)))[x] == multiset(s)[x]
  {
    if s != [] {
      KeyFilterCount(s[1..], key, x);
      assert s == [s[0]] + s[1..];
    }
  }

  /** Keeping every key group in order keeps every element with its multiplicity. */
  lemma StablePermutationIsPermutation<T>(s: seq<T>, t: seq<T>, key: T -> int)
    requires StablePermutation(s, t, key)
    ensures multiset(s) == multiset(t)
  {
    forall x ensures multiset(s)[x] == multiset(t)[x] {
      KeyFilterCount(s, key, x);
      KeyFilterCount(t, key, x);
      assert KeyFilter(s, key, key(x)) == KeyFilter(t, key, key(x));
    }
  }

  /** Exchanging two neighbours whose keys differ keeps every key group in order. */
  lemma SwapDistinctKeysIsStable<T>(s: seq<T>, j: nat, key: T -> int)
    requires j + 1 < |s| && key(s[j]) != key(s[j + 1])
    ensures StablePermutation(s, s[j := s[j + 1]][j + 1 := s[j]], key)
  {
    var t := s[j := s[j + 1]][j + 1 := s[j]];
    assert s == s[..j] + [s[j], s[j + 1]] + s[j + 2..];
    assert t == s[..j] + [s[j + 1], s[j]] + s[j + 2..];
    forall k ensures KeyFilter(s, key, k) == KeyFilter(t, key, k) {
      KeyFilterAppend(s[..j] + [s[j], s[j + 1]], s[j + 2..], key, k);
      KeyFilterAppend(s[..j], [s[j], s[j + 1]], key, k);
      KeyFilterAppend(s[..j] + [s[j + 1], s[j]], s[j + 2..], key, k);
      KeyFilterAppend(s[..j], [s[j + 1], s[j]], key, k);
      KeyFilterAppend([s[j]], [s[j + 1]], key, k);
      KeyFilterAppend([s[j + 1]], [s[j]], key, k);
      assert [s[j], s[j + 1]] == [s[j]] + [s[j + 1]];
      assert [s[j + 1], s[j]] == [s[j + 1]] + [s[j]];
    }
  }

  // ---------------------------------------------------------------------
  // Insert and Sort

  /**
   * Where the shifting loop of insertion sort stops: every element from
   * `pos` on has a larger key than `x`, the one before `pos` (if any) does
   * not. Putting `x` there is `Insert`.
   */
  lemma {:induction false} InsertAt<T>(p: seq<T>, x: T, key: T -> int, pos: nat)
    requires pos <= |p|
    requires pos == 0 || key(p[pos - 1]) <= key(x)
    requires forall j :: pos <= j < |p| ==> key(x) < key(p[j])
    ensures Insert(p, x, key) == p[..pos] + [x] + p[pos..]
  {
    if pos < |p| {
      var q := p[..|p| - 1];
      InsertAt(q, x, key, pos);
      assert q[..pos] == p[..pos];
      assert p[pos..] == q[pos..] + [p[|p| - 1]];
    } else if p != [] {
      assert p[..pos] == p;
    }
  }

  lemma {:induction false} InsertSorted<T>(p: seq<T>, x: T, key: T -> int)
    requires Sorted(p, key)
    ensures Sorted(Insert(p, x, key), key)
    ensures forall i :: 0 <= i < |Insert(p, x, key)| ==> Insert(p, x, key)[i] in p + [x]
  {
    if p != [] && key(x) < key(p[|p| - 1]) {
      var q := p[..|p| - 1];
      InsertSorted(q, x, key);
      var r := Insert(q, x, key);
      forall i | 0 <= i < |r| ensures key(r[i]) <= key(p[|p| - 1]) {
        assert r[i] in q + [x];
      }
    }
  }

  lemma {:induction false} InsertStable<T>(p: seq<T>, x: T, key: T -> int)
    ensures StablePermutation(p + [x], Insert(p, x, key), key)
  {
    if p != [] && key(x) < key(p[|p| - 1]) {
      var q := p[..|p| - 1];
      var y := p[|p| - 1];
      InsertStable(q, x, key);
      assert p + [x] == q + [y] + [x];
      forall k ensures KeyFilter(p + [x], key, k) == KeyFilter(Insert(p, x, key), key, k) {
        KeyFilterAppend(q + [y], [x], key, k);
        KeyFilterAppend(q, [y], key, k);
        KeyFilterAppend(q, [x], key, k);
        KeyFilterAppend(Insert(q, x, key), [y], key, k);
      }
    }
  }

  /** The reference sort orders by key. */
  lemma {:induction false} SortIsSorted<T>(s: seq<T>, key: T -> int)
    ensures Sorted(Sort(s, key), key)
  {
    if s != [] {
      SortIsSorted(s[..|s| - 1], key);
      InsertSorted(Sort(s[..|s| - 1], key), s[|s| - 1], key);
    }
  }

  /** The reference sort is stable (and so a permutation). */
  lemma {:induction false} SortIsStable<T>(s: seq<T>, key: T -> int)
    ensures StablePermutation(s, Sort(s, key), key)
    ensures multiset(Sort(s, key)) == multiset(s)
  {
    if s != [] {
      var q := s[..|s| - 1];
      var x := s[|s| - 1];
      SortIsStable(q, key);
      InsertStable(Sort(q, key), x, key);
      assert s == q + [x];
      forall k ensures KeyFilter(s, key, k) == KeyFilter(Sort(s, key), key, k) {
        KeyFilterAppend(q, [x], key, k);
        KeyFilterAppend(Sort(q, key), [x], key, k);
      }
    }
    StablePermutationIsPermutation(s, Sort(s, key), key);
  }

  /**
   * There is only one sorted, stable rearrangement of a sequence: two sorted
   * sequences with the same key groups in the same orders are equal.
   */
  lemma {:induction false} SortedStableUnique<T>(s: seq<T>, t: seq<T>, key: T -> int)
    requires Sorted(s, key) && Sorted(t, key)
    requires StablePermutation(s, t, key)
    ensures s == t
  {
    StablePermutationIsPermutation(s, t, key);
    assert |s| == |multiset(s)| == |multiset(t)| == |t|;
    if s != [] {
      var a, b := s[0], t[0];
      assert b in KeyFilter(t, key, key(b));
      KeyFilterMembers(s, key, key(b), b);
      assert a in KeyFilter(s, key, key(a));
      KeyFilterMembers(t, key, key(a), a);
      assert key(a) == key(b);
      assert KeyFilter(s, key, key(a))[0] == a;
      assert KeyFilter(t, key, key(a))[0] == b;
      assert KeyFilter(s, key, key(a)) == KeyFilter(t, key, key(a));
      assert a == b;
      forall k ensures KeyFilter(s[1..], key, k) == KeyFilter(t[1..], key, k) {
        assert KeyFilter(s, key, k) == KeyFilter(t, key, k);
        if k == key(a) {
          assert KeyFilter(s, key, k) == [a] + KeyFilter(s[1..], key, k);
          assert KeyFilter(t, key, k) == [a] + KeyFilter(t[1..], key, k);
          assert KeyFilter(s[1..], key, k) == KeyFilter(s, key, k)[1..];
          assert KeyFilter(t[1..], key, k) == KeyFilter(t, key, k)[1..];
        } else {
          assert KeyFilter(s, key, k) == KeyFilter(s[1..], key, k);
          assert KeyFilter(t, key, k) == KeyFilter(t[1..], key, k);
        }
      }
      SortedStableUnique(s[1..], t[1..], key);
      assert s == [a] + s[1..] && t == [b] + t[1..];
    }
  }

  /** Any sorted, stable rearrangement of `s` is the reference sort of `s`. */
  lemma SortCharacterization<T>(s: seq<T>, t: seq<T>, key: T -> int)
    requires Sorted(t, key) && StablePermutation(s, t, key)
    ensures t == Sort(s, key)
  {
    SortIsSorted(s, key);
    SortIsStable(s, key);
    SortedStableUnique(t, Sort(s, key), key);
  }

  /** A sequence that is already sorted is its own sort. */
  lemma SortOfSortedIsIdentity<T>(s: seq<T>, key: T -> int)
    requires Sorted(s, key)
    ensures Sort(s, key) == s
  {
    SortCharacterization(s, s, key);
  }

  /** Everything a caller of a sort that computes `Sort` may rely on. */
  lemma SortProperties<T>(s: seq<T>, key: T -> int)
    ensures Sorted(Sort(s, key), key)
    ensures StablePermutation(s, Sort(s, key), key)
    ensures multiset(Sort(s, key)) == multiset(s)
    ensures Sorted(s, key) ==> Sort(s, key) == s
  {
    SortIsSorted(s, key);
    SortIsStable(s, key);
    if Sorted(s, key) {
      SortOfSortedIsIdentity(s, key);
    }
  }
}

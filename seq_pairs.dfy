/**
 * Pair-with-sum on an ascending array: the two-pointer scan
 * (PairWithSum_Sorted) as a function, with the facts that any pair it finds
 * sums to the target and that it finds one whenever one exists.
 */
module SeqPairs {
  import opened SeqOrder
  import opened Wrappers

  /** Some two distinct positions `i < j` of `s` hold values summing to `k`. */
  ghost predicate HasPairWithSum(s: seq<int>, k: int, lo: int, hi: int) {
    exists i, j :: lo <= i < j <= hi && 0 <= i && j < |s| && s[i] + s[j] == k
  }

  /** The two-pointer scan over `[lo, hi]`. */
  function TwoPointer(s: seq<int>, k: int, lo: nat, hi: nat): Option<(int, int)>
    requires hi < |s|
    decreases hi - lo
  {
    if lo >= hi then None
    else if s[lo] + s[hi] == k then Some((s[lo], s[hi]))
    else if s[lo] + s[hi] < k then TwoPointer(s, k, lo + 1, hi)
    else TwoPointer(s, k, lo, hi - 1)
  }

  /**
   * What `PairWithSum_Sorted` returns: nothing when the array is not ascending
   * (or empty), otherwise the scan over the whole array.
   */
  ghost function PairWithSumSorted(s: seq<int>, k: int): Option<(int, int)> {
    if s == [] || !Sorted(s) then None else TwoPointer(s, k, 0, |s| - 1)
  }

  /** A pair the scan returns occupies two positions of the window, in order, and sums to `k`. */
  lemma {:induction false} TwoPointerSound(s: seq<int>, k: int, lo: nat, hi: nat)
    requires hi < |s|
    ensures var r := TwoPointer(s, k, lo, hi);
            r.Some? ==> r.value.0 + r.value.1 == k &&
                        exists i, j :: lo <= i < j <= hi && s[i] == r.value.0 && s[j] == r.value.1
    decreases hi - lo
  {
    if lo < hi && s[lo] + s[hi] != k {
      if s[lo] + s[hi] < k {
        TwoPointerSound(s, k, lo + 1, hi);
      } else {
        TwoPointerSound(s, k, lo, hi - 1);
      }
    }
  }

  /** On ascending input the scan misses no pair inside its window. */
  lemma {:induction false} TwoPointerComplete(s: seq<int>, k: int, lo: nat, hi: nat)
    requires hi < |s| && Sorted(s) && HasPairWithSum(s, k, lo, hi)
    ensures TwoPointer(s, k, lo, hi).Some?
    decreases hi - lo
  {
    var i, j :| lo <= i < j <= hi && 0 <= i && j < |s| && s[i] + s[j] == k;
    if s[lo] + s[hi] < k {
      // s[lo] pairs with nothing: even the largest partner is too small
      assert i != lo by {
        assert s[j] <= s[hi];
      }
      assert HasPairWithSum(s, k, lo + 1, hi);
      TwoPointerComplete(s, k, lo + 1, hi);
    } else if s[lo] + s[hi] > k {
      // s[hi] pairs with nothing: even the smallest partner is too large
      assert j != hi by {
        assert s[lo] <= s[i];
      }
      assert HasPairWithSum(s, k, lo, hi - 1);
      TwoPointerComplete(s, k, lo, hi - 1);
    }
  }

  /**
   * `PairWithSum_Sorted` returns a pair exactly when the array is ascending
   * and two of its positions sum to `k`, and every returned pair is such a pair.
   */
  lemma {:induction false} PairWithSumSortedSpec(s: seq<int>, k: int)
    ensures PairWithSumSorted(s, k).Some? <==> Sorted(s) && HasPairWithSum(s, k, 0, |s| - 1)
    ensures var r := PairWithSumSorted(s, k);
            r.Some? ==> r.value.0 + r.value.1 == k &&
                        exists i, j :: 0 <= i < j < |s| && s[i] == r.value.0 && s[j] == r.value.1
  {
    if s != [] {
      TwoPointerSound(s, k, 0, |s| - 1);
      if Sorted(s) && HasPairWithSum(s, k, 0, |s| - 1) {
        TwoPointerComplete(s, k, 0, |s| - 1);
      }
    }
  }

  /** The worked example: in [10, 20, 30, 40] the pair summing to 50 found first is (10, 40). */
  lemma {:induction false} PairWithSumSortedExample()
    ensures PairWithSumSorted([10, 20, 30, 40], 50) == Some((10, 40))
  {
    assert Sorted([10, 20, 30, 40]);
  }

  /** An unsorted array is refused even when it holds a pair. */
  lemma {:induction false} PairWithSumSortedRefusesUnsorted()
    ensures PairWithSumSorted([40, 10], 50) == None
  {
    var s := [40, 10];
    assert s[0] > s[1];
  }
}

/**
 * The read-only loops over the live contents: binary search, the aggregates,
 * the order check, the pairwise minimum/maximum scan and both pair-with-sum
 * searches. Each takes the live contents as a sequence and is proved against
 * a specification function or states its promise outright.
 */
module ArraySearch {
  import opened Wrappers
  import opened SeqOrder
  import opened SeqPairs

  /**
   * `BinarySearchLoop` of the growable containers over the half-open window
   * `[l, h)`: a reported index always holds `key`, and on ascending contents
   * the key is found whenever it is present.
   */
  method BinarySearch(s: seq<int>, key: int) returns (r: Option<nat>)
    ensures r.Some? ==> r.value < |s| && s[r.value] == key
    ensures Sorted(s) ==> (r.None? <==> key !in s)
  {
    var l, h := 0, |s|;
    while l < h
      invariant 0 <= l <= h <= |s|
      invariant Sorted(s) ==> forall k :: 0 <= k < |s| && s[k] == key ==> l <= k < h
    {
      var mid := l + (h - l) / 2;
      if key == s[mid] {
        return Some(mid);
      } else if key < s[mid] {
        h := mid;
      } else {
        l := mid + 1;
      }
    }
    return None;
  }

  /**
   * `BinarySearchLoop` of the fixed-capacity container over the closed window
   * `[l, h]` with signed indices: -1 when the key is not found.
   */
  method LegacyBinarySearch(s: seq<int>, key: int) returns (r: int)
    ensures r == -1 || (0 <= r < |s| && s[r] == key)
    ensures Sorted(s) ==> (r == -1 <==> key !in s)
  {
    var l, h := 0, |s| - 1;
    while l <= h
      invariant 0 <= l && h < |s| && l <= h + 1
      invariant Sorted(s) ==> forall k :: 0 <= k < |s| && s[k] == key ==> l <= k <= h
    {
      var mid := l + (h - l) / 2;
      if key == s[mid] {
        return mid;
      } else if key < s[mid] {
        h := mid - 1;
      } else {
        l := mid + 1;
      }
    }
    return -1;
  }

  /** `Max`: the running maximum from `A[0]`. */
  method MaxOf(s: seq<int>) returns (m: int)
    requires s != []
    ensures m == SeqMax(s)
  {
    m := s[0];
    var i := 1;
    while i < |s|
      invariant 1 <= i <= |s| && m == SeqMax(s[..i])
    {
      assert s[..i + 1][..i] == s[..i];
      if s[i] > m {
        m := s[i];
      }
      i := i + 1;
    }
    assert s[..i] == s;
  }

  /** `Min`: the running minimum from `A[0]`. */
  method MinOf(s: seq<int>) returns (m: int)
    requires s != []
    ensures m == SeqMin(s)
  {
    m := s[0];
    var i := 1;
    while i < |s|
      invariant 1 <= i <= |s| && m == SeqMin(s[..i])
    {
      assert s[..i + 1][..i] == s[..i];
      if s[i] < m {
        m := s[i];
      }
      i := i + 1;
    }
    assert s[..i] == s;
  }

  /** `Sum`: the running total. */
  method SumOf(s: seq<int>) returns (total: int)
    ensures total == Sum(s)
  {
    total := 0;
    var i := 0;
    while i < |s|
      invariant i <= |s| && total == Sum(s[..i])
    {
      assert s[..i + 1][..i] == s[..i];
      total := total + s[i];
      i := i + 1;
    }
    assert s[..i] == s;
  }

  /** The templated `Sum`: 0 when empty, otherwise the running total seeded with `A[0]`. */
  method SumFromFirst(s: seq<int>) returns (total: int)
    ensures total == Sum(s)
  {
    if |s| == 0 {
      return 0;
    }
    total := s[0];
    var i := 1;
    assert s[..1] == [s[0]];
    while i < |s|
      invariant 1 <= i <= |s| && total == Sum(s[..i])
    {
      assert s[..i + 1][..i] == s[..i];
      total := total + s[i];
      i := i + 1;
    }
    assert s[..i] == s;
  }

  /** `isSorted`: every adjacent pair is in order. */
  method IsAscending(s: seq<int>) returns (b: bool)
    ensures b == Sorted(s)
  {
    AdjacentSortedIsSorted(s);
    var i := 0;
    while i + 1 < |s|
      invariant i <= |s| && forall k :: 0 <= k < i && k + 1 < |s| ==> s[k] <= s[k + 1]
    {
      if s[i] > s[i + 1] {
        return false;
      }
      i := i + 1;
    }
    return true;
  }

  /** The smallest value is the one present value no larger than any other. */
  lemma {:induction false} MinAt(s: seq<int>, m: int)
    requires s != [] && m in s && forall k :: 0 <= k < |s| ==> m <= s[k]
    ensures SeqMin(s) == m
  {
  }

  /** The largest value is the one present value no smaller than any other. */
  lemma {:induction false} MaxAt(s: seq<int>, m: int)
    requires s != [] && m in s && forall k :: 0 <= k < |s| ==> s[k] <= m
    ensures SeqMax(s) == m
  {
  }

  /**
   * `FindMinMax`: the elements are taken in pairs, the smaller of each pair
   * compared with the running minimum and the larger with the running
   * maximum; an even length seeds both from the first pair, an odd one from
   * `A[0]`.
   */
  method MinMaxScan(s: seq<int>) returns (r: Option<(int, int)>)
    ensures r.None? <==> s == []
    ensures r.Some? ==> r.value == (SeqMin(s), SeqMax(s))
  {
    if |s| == 0 {
      return None;
    }
    if |s| == 1 {
      return Some((s[0], s[0]));
    }
    var lo, hi, i;
    if |s| % 2 == 0 {
      if s[0] < s[1] {
        lo, hi := s[0], s[1];
      } else {
        lo, hi := s[1], s[0];
      }
      i := 2;
    } else {
      lo, hi := s[0], s[0];
      i := 1;
    }
    while i < |s| - 1
      invariant 1 <= i <= |s| && (|s| - i) % 2 == 0
      invariant lo in s[..i] && hi in s[..i]
      invariant forall k :: 0 <= k < i ==> lo <= s[k] <= hi
    {
      if s[i] < s[i + 1] {
        if s[i] < lo {
          lo := s[i];
        }
        if s[i + 1] > hi {
          hi := s[i + 1];
        }
      } else {
        if s[i + 1] < lo {
          lo := s[i + 1];
        }
        if s[i] > hi {
          hi := s[i];
        }
      }
      assert s[..i + 2] == s[..i] + [s[i], s[i + 1]];
      i := i + 2;
    }
    assert s[..i] == s;
    MinAt(s, lo);
    MaxAt(s, hi);
    return Some((lo, hi));
  }

  /**
   * `PairWithSum_Sorted`: refuse unsorted contents, then close two indices
   * in from both ends until their values sum to `k`.
   */
  method PairSortedScan(s: seq<int>, k: int) returns (r: Option<(int, int)>)
    ensures r == PairWithSumSorted(s, k)
  {
    var sorted := IsAscending(s);
    if !sorted || |s| == 0 {
      return None;
    }
    var low, high := 0, |s| - 1;
    while low < high
      invariant low <= high < |s|
      invariant TwoPointer(s, k, low, high) == TwoPointer(s, k, 0, |s| - 1)
      decreases high - low
    {
      var sum := s[low] + s[high];
      if sum == k {
        return Some((s[low], s[high]));
      } else if sum < k {
        low := low + 1;
      } else {
        high := high - 1;
      }
    }
    return None;
  }

  /**
   * `PairWithSum_Hashing`: remember the values seen so far and stop at the
   * first element whose complement was seen. The pair returned is
   * `(complement, element)`; `None` exactly when no two positions sum to `k`.
   */
  method PairHashScan(s: seq<int>, k: int) returns (r: Option<(int, int)>)
    ensures r.None? <==> !HasPairWithSum(s, k, 0, |s| - 1)
    ensures r.Some? ==>
              exists j :: 0 <= j < |s| && r.value == (k - s[j], s[j]) && k - s[j] in s[..j] &&
                          !HasPairWithSum(s[..j], k, 0, j - 1)
  {
    var seen: set<int> := {};
    var i := 0;
    while i < |s|
      invariant i <= |s|
      invariant seen == set p | 0 <= p < i :: s[p]
      invariant !HasPairWithSum(s[..i], k, 0, i - 1)
    {
      var complement := k - s[i];
      if complement in seen {
        assert complement in s[..i];
        return Some((complement, s[i]));
      }
      NoPairExtends(s, k, i);
      seen := seen + {s[i]};
      i := i + 1;
    }
    assert s[..i] == s;
    return None;
  }

  /** A prefix without a pair keeps none when the next element's complement is absent from it. */
  lemma {:induction false} NoPairExtends(s: seq<int>, k: int, i: nat)
    requires i < |s| && !HasPairWithSum(s[..i], k, 0, i - 1)
    requires forall p :: 0 <= p < i ==> s[p] != k - s[i]
    ensures !HasPairWithSum(s[..i + 1], k, 0, i)
  {
    var t := s[..i + 1];
    forall p, q | 0 <= p < q <= i ensures t[p] + t[q] != k {
      if q < i {
        assert t[p] == s[..i][p] && t[q] == s[..i][q];
      }
    }
  }
}

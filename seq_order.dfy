/**
 * Specification functions for the live prefix `A[0..length)` of the container,
 * viewed as a sequence: sortedness, positional insertion and removal, reversal,
 * sorted insertion and the sign partition, with the lemmas that the container's
 * in-place algorithms rely on.
 */
module SeqOrder {

  /** Ascending (non-decreasing) order, the precondition of the sorted algorithms. */
  ghost predicate Sorted(s: seq<int>) {
    forall i, j :: 0 <= i < j < |s| ==> s[i] <= s[j]
  }

  /** Strictly ascending order: sorted and without internal duplicates. */
  ghost predicate StrictlySorted(s: seq<int>) {
    forall i, j :: 0 <= i < j < |s| ==> s[i] < s[j]
  }

  /** Every adjacent pair in order, which is what `isSorted` inspects. */
  ghost predicate AdjacentSorted(s: seq<int>) {
    forall i :: 0 <= i < |s| - 1 ==> s[i] <= s[i + 1]
  }

  /** Checking adjacent pairs is enough: the two notions of order coincide. */
  lemma {:induction false} AdjacentSortedIsSorted(s: seq<int>)
    ensures AdjacentSorted(s) <==> Sorted(s)
  {
    if AdjacentSorted(s) && |s| > 1 {
      AdjacentSortedIsSorted(s[1..]);
      assert AdjacentSorted(s[1..]);
      forall i, j | 0 <= i < j < |s| ensures s[i] <= s[j] {
        if i > 0 {
          assert s[1..][i - 1] <= s[1..][j - 1];
        } else if j > 1 {
          assert s[0] <= s[1] && s[1..][0] <= s[1..][j - 1];
        }
      }
    }
  }

  /** `s` with `x` placed at position `index` and the tail shifted right. */
  function InsertAt(s: seq<int>, index: nat, x: int): (r: seq<int>)
    requires index <= |s|
    ensures |r| == |s| + 1 && r[index] == x
  {
    s[..index] + [x] + s[index..]
  }

  /** `s` with the slot at `index` removed and the tail shifted left. */
  function RemoveAt(s: seq<int>, index: nat): (r: seq<int>)
    requires index < |s|
    ensures |r| == |s| - 1
  {
    s[..index] + s[index + 1..]
  }

  /** Insertion keeps the old elements and adds exactly `x`. */
  lemma {:induction false} InsertAtMultiset(s: seq<int>, index: nat, x: int)
    requires index <= |s|
    ensures multiset(InsertAt(s, index, x)) == multiset(s) + multiset{x}
  {
    assert s == s[..index] + s[index..];
  }

  /** Removal keeps every other element and drops exactly the removed one. */
  lemma {:induction false} RemoveAtMultiset(s: seq<int>, index: nat)
    requires index < |s|
    ensures multiset(RemoveAt(s, index)) + multiset{s[index]} == multiset(s)
  {
    assert s == s[..index] + [s[index]] + s[index + 1..];
  }

  /** Concatenation is associative. */
  lemma {:induction false} ConcatAssoc<T>(a: seq<T>, b: seq<T>, c: seq<T>)
    ensures (a + b) + c == a + (b + c)
  {
  }

  /** The mirror image of a sequence. */
  function Reversed<T>(s: seq<T>): seq<T> {
    if s == [] then [] else Reversed(s[1..]) + [s[0]]
  }

  /** Position `k` of the mirror image holds position `|s| - 1 - k` of the original. */
  lemma {:induction false} ReversedAt<T>(s: seq<T>, k: nat)
    requires k < |s|
    ensures |Reversed(s)| == |s| && Reversed(s)[k] == s[|s| - 1 - k]
  {
    if |s| == 1 {
    } else if k < |s| - 1 {
      ReversedAt(s[1..], k);
    } else {
      ReversedAt(s[1..], 0);
    }
  }

  /** Characterises the mirror image by its length and positions. */
  lemma {:induction false} ReversedIff<T>(s: seq<T>, r: seq<T>)
    ensures r == Reversed(s) <==>
              (|r| == |s| && forall k :: 0 <= k < |s| ==> r[k] == s[|s| - 1 - k])
  {
    if |s| == 0 {
    } else {
      ReversedAt(s, 0);
    }
    forall k | 0 <= k < |s| ensures |Reversed(s)| == |s| && Reversed(s)[k] == s[|s| - 1 - k] {
      ReversedAt(s, k);
    }
  }

  /** Reversing twice restores the original: the round trip of both reversals. */
  lemma {:induction false} ReverseTwice<T>(s: seq<T>)
    ensures Reversed(Reversed(s)) == s
  {
    ReversedIff(s, Reversed(s));
    ReversedIff(Reversed(s), Reversed(Reversed(s)));
  }

  /** Reversal is a permutation. */
  lemma {:induction false} ReversedMultiset<T>(s: seq<T>)
    ensures multiset(Reversed(s)) == multiset(s)
  {
    if s != [] {
      ReversedMultiset(s[1..]);
      assert s == [s[0]] + s[1..];
    }
  }

  /**
   * Where `InsertSort` places `x`: scanning back from the end, past every
   * element greater than `x`.
   */
  function InsertionPoint(s: seq<int>, x: int): (p: nat)
    ensures p <= |s|
    ensures forall k :: p <= k < |s| ==> s[k] > x
    ensures p > 0 ==> s[p - 1] <= x
  {
    if s == [] || s[|s| - 1] <= x then |s| else InsertionPoint(s[..|s| - 1], x)
  }

  /** The contents after `InsertSort(x)`. */
  function InsertSorted(s: seq<int>, x: int): seq<int> {
    InsertAt(s, InsertionPoint(s, x), x)
  }

  /** Sorted insertion adds exactly `x` to the multiset of elements. */
  lemma {:induction false} InsertSortedMultiset(s: seq<int>, x: int)
    ensures multiset(InsertSorted(s, x)) == multiset(s) + multiset{x}
    ensures |InsertSorted(s, x)| == |s| + 1
  {
    InsertAtMultiset(s, InsertionPoint(s, x), x);
  }

  /** An ascending array stays ascending after `InsertSort`. */
  lemma {:induction false} InsertSortedKeepsOrder(s: seq<int>, x: int)
    requires Sorted(s)
    ensures Sorted(InsertSorted(s, x))
  {
    var p := InsertionPoint(s, x);
    var r := InsertSorted(s, x);
    InsertAtElements(s, p, x);
    forall i, j | 0 <= i < j < |r| ensures r[i] <= r[j] {
      if j < p {
        assert r[i] == s[i] && r[j] == s[j];
      } else if j == p {
        assert r[i] == s[i] && s[i] <= s[p - 1];
      } else if i < p {
        assert r[i] == s[i] && r[j] == s[j - 1];
      } else if i == p {
        assert r[j] == s[j - 1];
      } else {
        assert r[i] == s[i - 1] && r[j] == s[j - 1];
      }
    }
  }

  /** Insertion keeps the elements before `index` and shifts the rest one slot right. */
  lemma {:induction false} InsertAtElements(s: seq<int>, index: nat, x: int)
    requires index <= |s|
    ensures forall k :: 0 <= k < index ==> InsertAt(s, index, x)[k] == s[k]
    ensures forall k :: index < k <= |s| ==> InsertAt(s, index, x)[k] == s[k - 1]
  {
  }

  /** Every negative value precedes every non-negative value. */
  ghost predicate NegativesFirst(s: seq<int>) {
    forall i, j :: 0 <= i < j < |s| && s[j] < 0 ==> s[i] < 0
  }

  /** The sum of the elements, without fixed-width overflow. */
  function Sum(s: seq<int>): int {
    if s == [] then 0 else Sum(s[..|s| - 1]) + s[|s| - 1]
  }

  /** The smallest element. */
  function SeqMin(s: seq<int>): (m: int)
    requires s != []
    ensures m in s && forall k :: 0 <= k < |s| ==> m <= s[k]
  {
    if |s| == 1 then s[0]
    else
      var m := SeqMin(s[..|s| - 1]);
      if s[|s| - 1] < m then s[|s| - 1] else m
  }

  /** The largest element. */
  function SeqMax(s: seq<int>): (m: int)
    requires s != []
    ensures m in s && forall k :: 0 <= k < |s| ==> s[k] <= m
  {
    if |s| == 1 then s[0]
    else
      var m := SeqMax(s[..|s| - 1]);
      if s[|s| - 1] > m then s[|s| - 1] else m
  }

  /** Dropping the first element keeps a sequence sorted. */
  lemma {:induction false} SortedTail(s: seq<int>)
    requires Sorted(s) && s != []
    ensures Sorted(s[1..])
  {
    forall i, j | 0 <= i < j < |s| - 1 ensures s[1..][i] <= s[1..][j] {
      assert s[1..][i] == s[i + 1] && s[1..][j] == s[j + 1];
    }
  }

  /** Two sorted arrangements of the same elements are the same sequence. */
  lemma {:induction false} SortedUnique(x: seq<int>, y: seq<int>)
    requires Sorted(x) && Sorted(y) && multiset(x) == multiset(y)
    ensures x == y
  {
    if x != [] {
      assert |y| == |multiset(y)| == |x|;
      SortedSameHead(x, y);
      MultisetTail(x);
      MultisetTail(y);
      SortedTail(x);
      SortedTail(y);
      SortedUnique(x[1..], y[1..]);
      forall k | 0 <= k < |x| ensures x[k] == y[k] {
        if k > 0 {
          assert x[k] == x[1..][k - 1] && y[k] == y[1..][k - 1];
        }
      }
    }
  }

  /** Two non-empty sorted arrangements of the same elements start alike. */
  lemma {:induction false} SortedSameHead(x: seq<int>, y: seq<int>)
    requires Sorted(x) && Sorted(y) && multiset(x) == multiset(y) && x != [] && y != []
    ensures x[0] == y[0]
  {
    assert x[0] in multiset(y) && y[0] in multiset(x);
    var i :| 0 <= i < |y| && y[i] == x[0];
    var j :| 0 <= j < |x| && x[j] == y[0];
    assert y[0] <= y[i] && x[0] <= x[j];
  }

  /** The tail holds the elements less one copy of the head. */
  lemma {:induction false} MultisetTail(x: seq<int>)
    requires x != []
    ensures multiset(x[1..]) == multiset(x) - multiset{x[0]}
  {
    assert x == [x[0]] + x[1..];
  }

  /** Index of the first occurrence of `v` in `s`. */
  function FirstIndex(s: seq<int>, v: int): (k: nat)
    requires v in s
    ensures k < |s| && s[k] == v && v !in s[..k]
  {
    if s[0] == v then 0
    else
      assert v in s[1..];
      var k := FirstIndex(s[1..], v);
      assert s[..k + 1] == [s[0]] + s[1..][..k];
      k + 1
  }

  /** The first occurrence is the only position holding `v` with no earlier copy. */
  lemma {:induction false} FirstIndexAt(s: seq<int>, v: int, i: nat)
    requires i < |s| && s[i] == v && v !in s[..i]
    ensures FirstIndex(s, v) == i
  {
  }

  /** `s` with the elements at positions `i` and `j` exchanged (`swap(&A[i], &A[j])`). */
  function Swap<T>(s: seq<T>, i: nat, j: nat): (r: seq<T>)
    requires i < |s| && j < |s|
    ensures |r| == |s| && r[i] == s[j] && r[j] == s[i]
    ensures forall k :: 0 <= k < |s| && k != i && k != j ==> r[k] == s[k]
  {
    s[i := s[j]][j := s[i]]
  }

  /** Exchanging two elements is a permutation. */
  lemma {:induction false} SwapMultiset<T>(s: seq<T>, i: nat, j: nat)
    requires i < |s| && j < |s|
    ensures multiset(Swap(s, i, j)) == multiset(s)
  {
  }
}

/**
 * The in-place loops every generation of the container runs over its buffer:
 * copying into a new buffer, shifting for positional insertion and removal,
 * the transposing linear search, both reversals, sorted insertion and the
 * sign partition. Each works on the live prefix `a[..n]` of a buffer `a` and
 * is proved against the specification functions of `SeqOrder`.
 */
module ArrayEdits {
  import opened Wrappers
  import opened SeqOrder

  /** The capacity `resize` grows to. */
  function Grown(size: nat): (r: nat)
    ensures r > size
    ensures size == 0 ==> r == 10
    ensures size > 0 ==> r == 2 * size
  {
    if size == 0 then 10 else 2 * size
  }

  /** The capacity a requested size gets: 10 when 0 is asked for. */
  function Capacity(sz: nat): (r: nat)
    ensures r > 0 && (sz > 0 ==> r == sz)
  {
    if sz > 0 then sz else 10
  }

  /** The element-by-element copy done by `resize` and the copy operations. */
  method CopyPrefix(src: array<int>, dst: array<int>, n: nat)
    requires n <= src.Length && n <= dst.Length && src != dst
    modifies dst
    ensures dst[..n] == src[..n]
    ensures dst[n..] == old(dst[n..])
  {
    var i := 0;
    while i < n
      invariant i <= n
      invariant dst[..i] == src[..i]
      invariant dst[n..] == old(dst[n..])
    {
      dst[i] := src[i];
      i := i + 1;
    }
  }

  /**
   * `Insert`'s loop: shift `a[index..n)` one slot right, from the end, then
   * store `x` at `index`. The slot `a[n]` must exist.
   */
  method ShiftInsert(a: array<int>, n: nat, index: nat, x: int)
    requires n < a.Length && index <= n
    modifies a
    ensures a[..n + 1] == InsertAt(old(a[..n]), index, x)
    ensures a[n + 1..] == old(a[n + 1..])
  {
    ghost var b := a[..];
    var i := n;
    while i > index
      invariant index <= i <= n
      invariant forall k :: 0 <= k < i ==> a[k] == b[k]
      invariant forall k :: i < k <= n ==> a[k] == b[k - 1]
      invariant forall k :: n < k < a.Length ==> a[k] == b[k]
    {
      a[i] := a[i - 1];
      i := i - 1;
    }
    a[index] := x;
    InsertedAt(b, a[..], n, index, x);
  }

  /** The state `ShiftInsert` leaves, in terms of slices and `InsertAt`. */
  lemma {:induction false} InsertedAt(b: seq<int>, after: seq<int>, n: nat, index: nat, x: int)
    requires index <= n < |b| && |after| == |b| && after[index] == x
    requires forall k :: 0 <= k < index ==> after[k] == b[k]
    requires forall k :: index < k <= n ==> after[k] == b[k - 1]
    requires forall k :: n < k < |b| ==> after[k] == b[k]
    ensures after[..n + 1] == InsertAt(b[..n], index, x)
    ensures after[n + 1..] == b[n + 1..]
  {
    InsertAtElements(b[..n], index, x);
  }

  /** `Delete`'s loop: shift `a(index..n)` one slot left; `a[n - 1]` keeps its old value. */
  method ShiftDelete(a: array<int>, n: nat, index: nat)
    requires index < n <= a.Length
    modifies a
    ensures a[..n - 1] == RemoveAt(old(a[..n]), index)
    ensures a[n - 1..] == old(a[n - 1..])
  {
    var i := index;
    while i < n - 1
      invariant index <= i <= n - 1
      invariant forall k :: 0 <= k < index ==> a[k] == old(a[k])
      invariant forall k :: index <= k < i ==> a[k] == old(a[k + 1])
      invariant forall k :: i <= k < a.Length ==> a[k] == old(a[k])
    {
      a[i] := a[i + 1];
      i := i + 1;
    }
    assert forall k :: 0 <= k < n - 1 ==> a[k] == RemoveAt(old(a[..n]), index)[k];
  }

  /**
   * The transposing `LinearSearch` of the growable containers: the first
   * occurrence of `key` is swapped one step towards the front and its new
   * position is returned; an occurrence at the front stays and 0 is returned.
   */
  method TransposeSearch(a: array<int>, n: nat, key: int) returns (r: Option<nat>)
    requires n <= a.Length
    modifies a
    ensures key !in old(a[..n]) ==> r == None && a[..] == old(a[..])
    ensures key in old(a[..n]) ==>
              var f := FirstIndex(old(a[..n]), key);
              r == Some(if f == 0 then 0 else f - 1) &&
              a[..] == if f == 0 then old(a[..]) else Swap(old(a[..]), f - 1, f)
  {
    var i := 0;
    while i < n
      invariant i <= n && key !in a[..i] && a[..] == old(a[..])
    {
      if a[i] == key {
        assert a[..n][..i] == a[..i];
        FirstIndexAt(a[..n], key, i);
        if i > 0 {
          a[i], a[i - 1] := a[i - 1], a[i];
          return Some(i - 1);
        }
        return Some(0);
      }
      assert a[..i + 1] == a[..i] + [a[i]];
      i := i + 1;
    }
    assert a[..n] == a[..i];
    return None;
  }

  /**
   * The `LinearSearch` of the fixed-capacity container: a match at the front
   * is passed over; the first match after it is swapped one step forward and
   * its position before the swap is returned; -1 when there is none.
   */
  method LegacyTransposeSearch(a: array<int>, n: nat, key: int) returns (r: int)
    requires 0 < n <= a.Length
    modifies a
    ensures key !in old(a[1..n]) ==> r == -1 && a[..] == old(a[..])
    ensures key in old(a[1..n]) ==>
              var f := FirstIndex(old(a[1..n]), key) + 1;
              r == f && a[..] == Swap(old(a[..]), f - 1, f)
  {
    var i := 0;
    while i < n
      invariant i <= n && a[..] == old(a[..])
      invariant key !in a[1..if i == 0 then 1 else i]
    {
      if a[i] == key && i > 0 {
        assert a[1..n][..i - 1] == a[1..i];
        FirstIndexAt(a[1..n], key, i - 1);
        a[i], a[i - 1] := a[i - 1], a[i];
        return i;
      }
      if i > 0 {
        assert a[1..i + 1] == a[1..i] + [a[i]];
      }
      i := i + 1;
    }
    return -1;
  }

  /** `Reverse`: fill a scratch buffer back to front, then copy it over the live prefix. */
  method ReverseWithScratch(a: array<int>, n: nat)
    requires n <= a.Length
    modifies a
    ensures a[..n] == Reversed(old(a[..n]))
    ensures a[n..] == old(a[n..])
  {
    if n == 0 {
      return;
    }
    var b := new int[n];
    var i := 0;
    while i < n
      invariant i <= n
      invariant forall k :: 0 <= k < i ==> b[k] == a[n - 1 - k]
      invariant a[..] == old(a[..])
    {
      b[i] := a[n - 1 - i];
      i := i + 1;
    }
    CopyPrefix(b, a, n);
    ReversedIff(old(a[..n]), a[..n]);
  }

  /** `ReverseInPlace`: swap the ends and walk inwards until the indices meet. */
  method ReverseInPlace<T>(a: array<T>, n: nat)
    requires n <= a.Length
    modifies a
    ensures a[..n] == Reversed(old(a[..n]))
    ensures a[n..] == old(a[n..])
  {
    if n < 2 {
      ReversedIff(a[..n], a[..n]);
      return;
    }
    var i, j := 0, n - 1;
    while i < j
      invariant 0 <= i && j < n && i + j == n - 1 && i <= j + 1
      invariant forall k :: 0 <= k < i ==> a[k] == old(a[n - 1 - k])
      invariant forall k :: j < k < n ==> a[k] == old(a[n - 1 - k])
      invariant forall k :: i <= k <= j ==> a[k] == old(a[k])
      invariant a[n..] == old(a[n..])
    {
      a[i], a[j] := a[j], a[i];
      i, j := i + 1, j - 1;
    }
    ReversedIff(old(a[..n]), a[..n]);
  }

  /**
   * `InsertSort`'s loop: move every element greater than `x` one slot right,
   * scanning back from the end, and drop `x` into the hole. The slot `a[n]`
   * must exist.
   */
  method InsertSortedShift(a: array<int>, n: nat, x: int)
    requires n < a.Length
    modifies a
    ensures a[..n + 1] == InsertSorted(old(a[..n]), x)
    ensures a[n + 1..] == old(a[n + 1..])
  {
    ghost var b := a[..];
    var i := n;
    while i > 0 && a[i - 1] > x
      invariant 0 <= i <= n
      invariant forall k :: 0 <= k < i ==> a[k] == b[k]
      invariant forall k :: i < k <= n ==> a[k] == b[k - 1]
      invariant forall k :: n < k < a.Length ==> a[k] == b[k]
      invariant forall k :: i <= k < n ==> b[k] > x
    {
      a[i] := a[i - 1];
      i := i - 1;
    }
    a[i] := x;
    ShiftedInsert(b, a[..], n, i, x);
  }

  /** The state `InsertSortedShift` leaves, in terms of slices and `InsertSorted`. */
  lemma {:induction false} ShiftedInsert(b: seq<int>, after: seq<int>, n: nat, i: nat, x: int)
    requires i <= n < |b| && |after| == |b|
    requires after[i] == x
    requires forall k :: 0 <= k < i ==> after[k] == b[k]
    requires forall k :: i < k <= n ==> after[k] == b[k - 1]
    requires forall k :: n < k < |b| ==> after[k] == b[k]
    requires forall k :: i <= k < n ==> b[k] > x
    requires i > 0 ==> b[i - 1] <= x
    ensures after[..n + 1] == InsertSorted(b[..n], x)
    ensures after[n + 1..] == b[n + 1..]
  {
    var s := b[..n];
    InsertionPointUnique(s, x, i);
    var r := InsertAt(s, i, x);
    assert r == s[..i] + [x] + s[i..];
    forall k | 0 <= k <= n ensures after[k] == r[k] {
      if k < i {
        assert r[k] == s[..i][k] == s[k];
      } else if k > i {
        assert r[k] == s[i..][k - i - 1] == s[k - 1];
      }
    }
    assert after[..n + 1] == r;
    forall k | n + 1 <= k < |b| ensures after[k] == b[k] {
    }
    assert after[n + 1..] == b[n + 1..];
  }

  /**
   * `Rearrange` of the growable containers: two indices close in from both
   * ends, each stopping before the other, and a misplaced pair is swapped.
   */
  method Rearrange(a: array<int>, n: nat)
    requires n <= a.Length
    modifies a
    ensures multiset(a[..n]) == multiset(old(a[..n]))
    ensures NegativesFirst(a[..n])
    ensures a[n..] == old(a[n..])
  {
    if n < 2 {
      return;
    }
    var i, j := 0, n - 1;
    while i < j
      invariant 0 <= i <= j < n
      invariant forall k :: 0 <= k < i ==> a[k] < 0
      invariant forall k :: j < k < n ==> a[k] >= 0
      invariant multiset(a[..n]) == multiset(old(a[..n]))
      invariant a[n..] == old(a[n..])
      decreases 2 * (j - i) + (if a[i] >= 0 then 1 else 0) + (if a[j] < 0 then 1 else 0)
    {
      i := ScanUp(a, i, j);
      j := ScanDown(a, i, j);
      if i < j {
        SwapPrefix(a, n, i, j);
      }
    }
  }

  /**
   * `Rearrange` of the fixed-capacity container: the indices are signed and
   * each inner scan is bounded by the array, not by the other index.
   */
  method LegacyRearrange(a: array<int>, n: nat)
    requires n <= a.Length
    modifies a
    ensures multiset(a[..n]) == multiset(old(a[..n]))
    ensures NegativesFirst(a[..n])
    ensures a[n..] == old(a[n..])
  {
    var i: int, j: int := 0, n - 1;
    while i < j
      invariant 0 <= i <= n && -1 <= j < n && i <= j + 1
      invariant forall k :: 0 <= k < i ==> a[k] < 0
      invariant forall k :: j < k < n ==> a[k] >= 0
      invariant multiset(a[..n]) == multiset(old(a[..n]))
      invariant a[n..] == old(a[n..])
      decreases if i < j then 2 * (j - i) + (if a[i] >= 0 then 1 else 0) + (if a[j] < 0 then 1 else 0) else 0
    {
      i, j := LegacyRearrangePass(a, n, i, j);
    }
  }

  /** One pass of the fixed-capacity `Rearrange` loop: both scans, then the swap of a misplaced pair. */
  method LegacyRearrangePass(a: array<int>, n: nat, i0: int, j0: int) returns (i: int, j: int)
    requires n <= a.Length && 0 <= i0 < j0 < n
    requires forall k :: 0 <= k < i0 ==> a[k] < 0
    requires forall k :: j0 < k < n ==> a[k] >= 0
    modifies a
    ensures 0 <= i <= n && -1 <= j < n && i <= j + 1 && i0 <= i && j <= j0
    ensures forall k :: 0 <= k < i ==> a[k] < 0
    ensures forall k :: j < k < n ==> a[k] >= 0
    ensures multiset(a[..n]) == multiset(old(a[..n]))
    ensures a[n..] == old(a[n..])
    ensures i < j ==> a[i] < 0 && a[j] >= 0
    ensures i == i0 && j == j0 ==> old(a[i0]) >= 0 && old(a[j0]) < 0
  {
    if j0 + 1 < n {
      assert a[j0 + 1] >= 0;
    }
    i := ScanUp(a, i0, n);
    if i > 0 {
      assert a[i - 1] < 0;
    }
    j := ScanDown(a, -1, j0);
    if i < j {
      SwapPrefix(a, n, i, j);
    }
  }

  /** An inner scan of `Rearrange`: advance from `lo` past negative elements, stopping at `hi`. */
  method ScanUp(a: array<int>, lo: nat, hi: nat) returns (i: nat)
    requires lo <= hi <= a.Length
    ensures lo <= i <= hi
    ensures forall k :: lo <= k < i ==> a[k] < 0
    ensures i < hi ==> a[i] >= 0
  {
    i := lo;
    while i < hi && a[i] < 0
      invariant lo <= i <= hi
      invariant forall k :: lo <= k < i ==> a[k] < 0
    {
      i := i + 1;
    }
  }

  /** The other inner scan: retreat from `hi` past non-negative elements, stopping at `lo`. */
  method ScanDown(a: array<int>, lo: int, hi: int) returns (j: int)
    requires -1 <= lo <= hi < a.Length
    ensures lo <= j <= hi
    ensures forall k :: j < k <= hi ==> a[k] >= 0
    ensures lo < j ==> a[j] < 0
  {
    j := hi;
    while j > lo && a[j] >= 0
      invariant lo <= j <= hi
      invariant forall k :: j < k <= hi ==> a[k] >= 0
    {
      j := j - 1;
    }
  }

  /** The insertion point is the one position with only greater elements after it and none before it. */
  lemma {:induction false} InsertionPointUnique(s: seq<int>, x: int, i: nat)
    requires i <= |s|
    requires forall k :: i <= k < |s| ==> s[k] > x
    requires i > 0 ==> s[i - 1] <= x
    ensures InsertionPoint(s, x) == i
  {
  }

  /** `swap(&A[i], &A[j])` inside the live prefix, as `Rearrange` uses it. */
  method SwapPrefix(a: array<int>, n: nat, i: nat, j: nat)
    requires i < j < n <= a.Length
    modifies a
    ensures a[..n] == Swap(old(a[..n]), i, j)
    ensures multiset(a[..n]) == multiset(old(a[..n]))
    ensures a[n..] == old(a[n..])
    ensures a[i] == old(a[j]) && a[j] == old(a[i])
    ensures forall k :: 0 <= k < a.Length && k != i && k != j ==> a[k] == old(a[k])
  {
    a[i], a[j] := a[j], a[i];
    SwapMultiset(old(a[..n]), i, j);
  }
}

/**
 * The two-pointer set algebra over two ascending arrays, as functions on the
 * live contents. Each function takes one step of the two-pointer loop per
 * recursive call, so that a loop's state `(i, j, k)` corresponds to the
 * output written so far followed by the function applied to `a[i..]`, `b[j..]`.
 */
module SeqSetOps {
  import opened SeqOrder
  import opened Wrappers

  /** `Merge`: ties are taken from the receiver (`A[i] <= arr2.A[j]`). */
  function Merge(a: seq<int>, b: seq<int>): seq<int>
    decreases |a| + |b|
  {
    if a == [] then b
    else if b == [] then a
    else if a[0] <= b[0] then [a[0]] + Merge(a[1..], b)
    else [b[0]] + Merge(a, b[1..])
  }

  /** The fixed-capacity `Merge`: ties are taken from the argument (`A[i] < arr2.A[j]`). */
  function LegacyMerge(a: seq<int>, b: seq<int>): seq<int>
    decreases |a| + |b|
  {
    if a == [] then b
    else if b == [] then a
    else if a[0] < b[0] then [a[0]] + LegacyMerge(a[1..], b)
    else [b[0]] + LegacyMerge(a, b[1..])
  }

  /** `Union`: on equal keys one copy is written and both sides advance. */
  function Union(a: seq<int>, b: seq<int>): seq<int>
    decreases |a| + |b|
  {
    if a == [] then b
    else if b == [] then a
    else if a[0] < b[0] then [a[0]] + Union(a[1..], b)
    else if b[0] < a[0] then [b[0]] + Union(a, b[1..])
    else [a[0]] + Union(a[1..], b[1..])
  }

  /** `Intersection`: only equal keys are written. */
  function Intersection(a: seq<int>, b: seq<int>): seq<int>
    decreases |a| + |b|
  {
    if a == [] || b == [] then []
    else if a[0] < b[0] then Intersection(a[1..], b)
    else if b[0] < a[0] then Intersection(a, b[1..])
    else [a[0]] + Intersection(a[1..], b[1..])
  }

  /** `Difference` (receiver minus argument): equal keys are skipped on both sides. */
  function Difference(a: seq<int>, b: seq<int>): seq<int>
    decreases |a| + |b|
  {
    if a == [] then []
    else if b == [] then a
    else if a[0] < b[0] then [a[0]] + Difference(a[1..], b)
    else if b[0] < a[0] then Difference(a, b[1..])
    else Difference(a[1..], b[1..])
  }

  /**
   * `Difference` of the `int` container as written: its copy-remaining loop
   * never advances `i`, so whenever the argument runs out first the loop does
   * not terminate. `None` stands for that non-terminating run.
   */
  function DifferenceAsWritten(a: seq<int>, b: seq<int>): Option<seq<int>>
    decreases |a| + |b|
  {
    if a == [] then Some([])
    else if b == [] then None
    else if a[0] < b[0] then
      match DifferenceAsWritten(a[1..], b)
      case Some(r) => Some([a[0]] + r)
      case None => None
    else if b[0] < a[0] then DifferenceAsWritten(a, b[1..])
    else DifferenceAsWritten(a[1..], b[1..])
  }

  /** Every element is at least `m`. */
  ghost predicate AllAtLeast(s: seq<int>, m: int) {
    forall k :: 0 <= k < |s| ==> m <= s[k]
  }

  /** A sorted sequence is bounded below by its first element. */
  lemma {:induction false} SortedHeadIsLeast(s: seq<int>)
    requires Sorted(s) && s != []
    ensures AllAtLeast(s, s[0])
  {
  }

  /** Elements of a sequence are elements of its multiset, so bounds carry over. */
  lemma {:induction false} AllAtLeastByMultiset(s: seq<int>, t: seq<int>, m: int)
    requires multiset(s) <= multiset(t) && AllAtLeast(t, m)
    ensures AllAtLeast(s, m)
  {
    forall k | 0 <= k < |s| ensures m <= s[k] {
      assert s[k] in multiset(s);
      assert s[k] in multiset(t);
    }
  }

  /** A head no greater than every element of a sorted tail gives a sorted sequence. */
  lemma {:induction false} ConsSorted(x: int, s: seq<int>)
    requires Sorted(s) && AllAtLeast(s, x)
    ensures Sorted([x] + s)
  {
  }

  /** `Merge` writes every element of both operands exactly once: `n + m` slots. */
  lemma {:induction false} MergeMultiset(a: seq<int>, b: seq<int>)
    ensures multiset(Merge(a, b)) == multiset(a) + multiset(b)
    ensures |Merge(a, b)| == |a| + |b|
    decreases |a| + |b|
  {
    if a != [] && b != [] {
      if a[0] <= b[0] {
        MergeMultiset(a[1..], b);
        assert Merge(a, b) == [a[0]] + Merge(a[1..], b);
        assert a == [a[0]] + a[1..];
        assert multiset(a) == multiset([a[0]]) + multiset(a[1..]);
      } else {
        MergeMultiset(a, b[1..]);
        assert Merge(a, b) == [b[0]] + Merge(a, b[1..]);
        assert b == [b[0]] + b[1..];
        assert multiset(b) == multiset([b[0]]) + multiset(b[1..]);
      }
    }
  }

  /** `Merge` of two ascending operands is ascending. */
  lemma {:induction false} MergeSorted(a: seq<int>, b: seq<int>)
    requires Sorted(a) && Sorted(b)
    ensures Sorted(Merge(a, b))
    decreases |a| + |b|
  {
    if a != [] && b != [] {
      SortedHeadIsLeast(a);
      SortedHeadIsLeast(b);
      if a[0] <= b[0] {
        SortedTail(a);
        MergeSorted(a[1..], b);
        MergeMultiset(a[1..], b);
        assert AllAtLeast(a[1..] + b, a[0]);
        assert multiset(a[1..] + b) == multiset(a[1..]) + multiset(b);
        AllAtLeastByMultiset(Merge(a[1..], b), a[1..] + b, a[0]);
        ConsSorted(a[0], Merge(a[1..], b));
      } else {
        SortedTail(b);
        MergeSorted(a, b[1..]);
        MergeMultiset(a, b[1..]);
        assert AllAtLeast(a + b[1..], b[0]);
        assert multiset(a + b[1..]) == multiset(a) + multiset(b[1..]);
        AllAtLeastByMultiset(Merge(a, b[1..]), a + b[1..], b[0]);
        ConsSorted(b[0], Merge(a, b[1..]));
      }
    }
  }

  /** The fixed-capacity `Merge` also writes every element of both operands exactly once. */
  lemma {:induction false} LegacyMergeMultiset(a: seq<int>, b: seq<int>)
    ensures multiset(LegacyMerge(a, b)) == multiset(a) + multiset(b)
    ensures |LegacyMerge(a, b)| == |a| + |b|
    decreases |a| + |b|
  {
    if a != [] && b != [] {
      if a[0] < b[0] {
        LegacyMergeMultiset(a[1..], b);
        assert LegacyMerge(a, b) == [a[0]] + LegacyMerge(a[1..], b);
        assert a == [a[0]] + a[1..];
        assert multiset(a) == multiset([a[0]]) + multiset(a[1..]);
      } else {
        LegacyMergeMultiset(a, b[1..]);
        assert LegacyMerge(a, b) == [b[0]] + LegacyMerge(a, b[1..]);
        assert b == [b[0]] + b[1..];
        assert multiset(b) == multiset([b[0]]) + multiset(b[1..]);
      }
    }
  }

  /** The fixed-capacity `Merge` of two ascending operands is ascending. */
  lemma {:induction false} LegacyMergeSorted(a: seq<int>, b: seq<int>)
    requires Sorted(a) && Sorted(b)
    ensures Sorted(LegacyMerge(a, b))
    decreases |a| + |b|
  {
    if a != [] && b != [] {
      SortedHeadIsLeast(a);
      SortedHeadIsLeast(b);
      if a[0] < b[0] {
        SortedTail(a);
        LegacyMergeSorted(a[1..], b);
        LegacyMergeMultiset(a[1..], b);
        assert AllAtLeast(a[1..] + b, a[0]);
        assert multiset(a[1..] + b) == multiset(a[1..]) + multiset(b);
        AllAtLeastByMultiset(LegacyMerge(a[1..], b), a[1..] + b, a[0]);
        ConsSorted(a[0], LegacyMerge(a[1..], b));
      } else {
        SortedTail(b);
        LegacyMergeSorted(a, b[1..]);
        LegacyMergeMultiset(a, b[1..]);
        assert AllAtLeast(a + b[1..], b[0]);
        assert multiset(a + b[1..]) == multiset(a) + multiset(b[1..]);
        AllAtLeastByMultiset(LegacyMerge(a, b[1..]), a + b[1..], b[0]);
        ConsSorted(b[0], LegacyMerge(a, b[1..]));
      }
    }
  }

  /**
   * On ascending operands the tie-breaking rule cannot be observed in the
   * result: both merges produce the same sequence.
   */
  lemma {:induction false} MergeTieBreakInvisibleWhenSorted(a: seq<int>, b: seq<int>)
    requires Sorted(a) && Sorted(b)
    ensures Merge(a, b) == LegacyMerge(a, b)
  {
    MergeSorted(a, b);
    LegacyMergeSorted(a, b);
    MergeMultiset(a, b);
    LegacyMergeMultiset(a, b);
    SortedUnique(Merge(a, b), LegacyMerge(a, b));
  }

  /** On operands that are not ascending the two tie-breaking rules differ. */
  lemma {:induction false} MergeTieBreakVisibleWhenUnsorted()
    ensures Merge([2, 1], [2, 0]) == [2, 1, 2, 0]
    ensures LegacyMerge([2, 1], [2, 0]) == [2, 0, 2, 1]
  {
    assert [2, 1][1..] == [1];
    assert [2, 0][1..] == [0];
    assert [1][1..] == [] && [0][1..] == [];
  }

  /** Every value of either operand appears in the union and nothing else does. */
  lemma {:induction false} UnionElements(a: seq<int>, b: seq<int>)
    ensures forall x :: x in Union(a, b) <==> x in a || x in b
    decreases |a| + |b|
  {
    if a != [] && b != [] {
      assert a == [a[0]] + a[1..] && b == [b[0]] + b[1..];
      if a[0] < b[0] {
        UnionElements(a[1..], b);
      } else if b[0] < a[0] {
        UnionElements(a, b[1..]);
      } else {
        UnionElements(a[1..], b[1..]);
      }
    }
  }

  /** The union never writes more than `n + m` values. */
  lemma {:induction false} UnionLength(a: seq<int>, b: seq<int>)
    ensures |Union(a, b)| <= |a| + |b|
    ensures |a| <= |Union(a, b)| && |b| <= |Union(a, b)|
    decreases |a| + |b|
  {
    if a != [] && b != [] {
      if a[0] < b[0] {
        UnionLength(a[1..], b);
      } else if b[0] < a[0] {
        UnionLength(a, b[1..]);
      } else {
        UnionLength(a[1..], b[1..]);
      }
    }
  }

  /** Every element exceeds `m`. */
  ghost predicate AllAbove(s: seq<int>, m: int) {
    forall k :: 0 <= k < |s| ==> m < s[k]
  }

  /** A head below every element of a strictly ascending tail keeps it strictly ascending. */
  lemma {:induction false} ConsStrictlySorted(x: int, s: seq<int>)
    requires StrictlySorted(s) && AllAbove(s, x)
    ensures StrictlySorted([x] + s)
  {
  }

  /** Lower bounds shared by both operands hold for the union. */
  lemma {:induction false} UnionBounds(a: seq<int>, b: seq<int>, m: int)
    ensures AllAtLeast(a, m) && AllAtLeast(b, m) ==> AllAtLeast(Union(a, b), m)
    ensures AllAbove(a, m) && AllAbove(b, m) ==> AllAbove(Union(a, b), m)
  {
    UnionElements(a, b);
    var u := Union(a, b);
    forall k | 0 <= k < |u| ensures u[k] in a || u[k] in b {
      var x := u[k];
      assert x in u;
    }
  }

  /**
   * Strictly ascending operands give a strictly ascending union: a value that
   * occurs in both operands is written once.
   */
  lemma {:induction false} UnionStrictlySorted(a: seq<int>, b: seq<int>)
    requires StrictlySorted(a) && StrictlySorted(b)
    ensures StrictlySorted(Union(a, b))
    decreases |a| + |b|
  {
    if a != [] && b != [] {
      var a', b' := a[1..], b[1..];
      assert StrictlySorted(a') && StrictlySorted(b');
      if a[0] < b[0] {
        UnionStrictlySorted(a', b);
        UnionBounds(a', b, a[0]);
        ConsStrictlySorted(a[0], Union(a', b));
      } else if b[0] < a[0] {
        UnionStrictlySorted(a, b');
        UnionBounds(a, b', b[0]);
        ConsStrictlySorted(b[0], Union(a, b'));
      } else {
        UnionStrictlySorted(a', b');
        UnionBounds(a', b', a[0]);
        ConsStrictlySorted(a[0], Union(a', b'));
      }
    }
  }

  /** The union of two ascending operands is ascending. */
  lemma {:induction false} UnionSorted(a: seq<int>, b: seq<int>)
    requires Sorted(a) && Sorted(b)
    ensures Sorted(Union(a, b))
    decreases |a| + |b|
  {
    if a != [] && b != [] {
      var a', b' := a[1..], b[1..];
      SortedTail(a);
      SortedTail(b);
      if a[0] < b[0] {
        UnionSorted(a', b);
        UnionBounds(a', b, a[0]);
        ConsSorted(a[0], Union(a', b));
      } else if b[0] < a[0] {
        UnionSorted(a, b');
        UnionBounds(a, b', b[0]);
        ConsSorted(b[0], Union(a, b'));
      } else {
        UnionSorted(a', b');
        UnionBounds(a', b', a[0]);
        ConsSorted(a[0], Union(a', b'));
      }
    }
  }

  /** Each value written by `Intersection` consumes one slot of each operand. */
  lemma {:induction false} IntersectionLength(a: seq<int>, b: seq<int>)
    ensures |Intersection(a, b)| <= |a| && |Intersection(a, b)| <= |b|
    decreases |a| + |b|
  {
    if a != [] && b != [] {
      if a[0] < b[0] {
        IntersectionLength(a[1..], b);
      } else if b[0] < a[0] {
        IntersectionLength(a, b[1..]);
      } else {
        IntersectionLength(a[1..], b[1..]);
      }
    }
  }

  /** Every value in the intersection occurs in both operands. */
  lemma {:induction false} IntersectionSound(a: seq<int>, b: seq<int>)
    ensures forall x :: x in Intersection(a, b) ==> x in a && x in b
    ensures multiset(Intersection(a, b)) <= multiset(a)
    decreases |a| + |b|
  {
    if a != [] && b != [] {
      assert a == [a[0]] + a[1..] && b == [b[0]] + b[1..];
      if a[0] < b[0] {
        IntersectionSound(a[1..], b);
      } else if b[0] < a[0] {
        IntersectionSound(a, b[1..]);
      } else {
        IntersectionSound(a[1..], b[1..]);
      }
    }
  }

  /** On ascending operands every common value reaches the intersection. */
  lemma {:induction false} IntersectionComplete(a: seq<int>, b: seq<int>, x: int)
    requires Sorted(a) && Sorted(b)
    requires x in a && x in b
    ensures x in Intersection(a, b)
    decreases |a| + |b|
  {
    SortedTail(a);
    SortedTail(b);
    assert a == [a[0]] + a[1..] && b == [b[0]] + b[1..];
    if a[0] < b[0] {
      assert x != a[0];
      IntersectionComplete(a[1..], b, x);
    } else if b[0] < a[0] {
      assert x != b[0];
      IntersectionComplete(a, b[1..], x);
    } else if x != a[0] {
      IntersectionComplete(a[1..], b[1..], x);
    }
  }

  /** The intersection of an ascending receiver is ascending. */
  lemma {:induction false} IntersectionSorted(a: seq<int>, b: seq<int>)
    requires Sorted(a)
    ensures Sorted(Intersection(a, b))
    decreases |a| + |b|
  {
    if a != [] && b != [] {
      SortedTail(a);
      if a[0] < b[0] {
        IntersectionSorted(a[1..], b);
      } else if b[0] < a[0] {
        IntersectionSorted(a, b[1..]);
      } else {
        var t := Intersection(a[1..], b[1..]);
        IntersectionSorted(a[1..], b[1..]);
        IntersectionSound(a[1..], b[1..]);
        assert forall k :: 0 <= k < |t| ==> t[k] in t;
      }
    }
  }

  /** Every value in the difference comes from the receiver, in order. */
  lemma {:induction false} DifferenceSound(a: seq<int>, b: seq<int>)
    ensures multiset(Difference(a, b)) <= multiset(a)
    ensures forall x :: x in Difference(a, b) ==> x in a
    decreases |a| + |b|
  {
    if a != [] && b != [] {
      assert a == [a[0]] + a[1..];
      if a[0] < b[0] {
        DifferenceSound(a[1..], b);
      } else if b[0] < a[0] {
        DifferenceSound(a, b[1..]);
      } else {
        DifferenceSound(a[1..], b[1..]);
      }
    }
    forall x | x in Difference(a, b) ensures x in a {
      assert x in multiset(Difference(a, b));
    }
  }

  /** The difference of an ascending receiver is ascending. */
  lemma {:induction false} DifferenceSorted(a: seq<int>, b: seq<int>)
    requires Sorted(a)
    ensures Sorted(Difference(a, b))
    decreases |a| + |b|
  {
    if a != [] && b != [] {
      SortedTail(a);
      if a[0] < b[0] {
        var t := Difference(a[1..], b);
        DifferenceSorted(a[1..], b);
        DifferenceSound(a[1..], b);
        assert forall k :: 0 <= k < |t| ==> t[k] in t;
      } else if b[0] < a[0] {
        DifferenceSorted(a, b[1..]);
      } else {
        DifferenceSorted(a[1..], b[1..]);
      }
    }
  }

  /** On ascending operands a receiver value absent from the argument survives. */
  lemma {:induction false} DifferenceComplete(a: seq<int>, b: seq<int>, x: int)
    requires Sorted(a) && Sorted(b)
    requires x in a && x !in b
    ensures x in Difference(a, b)
    decreases |a| + |b|
  {
    if b != [] {
      SortedTail(a);
      SortedTail(b);
      assert a == [a[0]] + a[1..] && b == [b[0]] + b[1..];
      if a[0] < b[0] {
        if x != a[0] {
          DifferenceComplete(a[1..], b, x);
        }
      } else if b[0] < a[0] {
        DifferenceComplete(a, b[1..], x);
      } else {
        assert x != a[0];
        DifferenceComplete(a[1..], b[1..], x);
      }
    }
  }

  /**
   * `Difference` and `Intersection` move their pointers identically, so
   * together they account for every element of the receiver exactly once.
   */
  lemma {:induction false} DifferenceIntersectionPartition(a: seq<int>, b: seq<int>)
    ensures multiset(Difference(a, b)) + multiset(Intersection(a, b)) == multiset(a)
    decreases |a| + |b|
  {
    if a != [] && b != [] {
      assert a == [a[0]] + a[1..];
      if a[0] < b[0] {
        DifferenceIntersectionPartition(a[1..], b);
      } else if b[0] < a[0] {
        DifferenceIntersectionPartition(a, b[1..]);
      } else {
        DifferenceIntersectionPartition(a[1..], b[1..]);
      }
    }
  }

  /**
   * For a receiver without internal duplicates, nothing in the difference
   * occurs in the (ascending) argument.
   */
  lemma {:induction false} DifferenceExcludes(a: seq<int>, b: seq<int>, x: int)
    requires StrictlySorted(a) && Sorted(b)
    requires x in Difference(a, b)
    ensures x !in b
  {
    DifferenceSound(a, b);
    DifferenceIntersectionPartition(a, b);
    StrictlySortedOnce(a, x);
    assert multiset(Difference(a, b))[x] >= 1;
    assert x !in Intersection(a, b);
    forall y | y in a && y in b ensures y in Intersection(a, b) {
      StrictlySortedIsSorted(a);
      IntersectionComplete(a, b, y);
    }
  }

  /** A strictly ascending sequence is ascending. */
  lemma {:induction false} StrictlySortedIsSorted(s: seq<int>)
    requires StrictlySorted(s)
    ensures Sorted(s)
  {
  }

  /** A strictly ascending sequence holds each value at most once. */
  lemma {:induction false} StrictlySortedOnce(s: seq<int>, x: int)
    requires StrictlySorted(s)
    ensures multiset(s)[x] <= 1
  {
    if s != [] {
      var t := s[1..];
      assert s == [s[0]] + t;
      assert forall k :: 0 <= k < |t| ==> s[0] < t[k];
      StrictlySortedOnce(t, x);
    }
  }

  /** Where the copy loop does terminate, the `int` container agrees with `Difference`. */
  lemma {:induction false} DifferenceAsWrittenAgrees(a: seq<int>, b: seq<int>)
    ensures DifferenceAsWritten(a, b).Some? ==> DifferenceAsWritten(a, b).value == Difference(a, b)
    ensures |b| == 0 ==> (DifferenceAsWritten(a, b).Some? <==> a == [])
    decreases |a| + |b|
  {
    if a != [] && b != [] {
      if a[0] < b[0] {
        DifferenceAsWrittenAgrees(a[1..], b);
      } else if b[0] < a[0] {
        DifferenceAsWrittenAgrees(a, b[1..]);
      } else {
        DifferenceAsWrittenAgrees(a[1..], b[1..]);
      }
    }
  }

  /** A receiver outlasting the argument makes the `int` container's copy loop run forever. */
  lemma {:induction false} DifferenceAsWrittenDiverges()
    ensures DifferenceAsWritten([1, 3, 5], [3]).None?
    ensures Difference([1, 3, 5], [3]) == [1, 5]
  {
    assert [1, 3, 5][1..] == [3, 5];
    assert [3, 5][1..] == [5];
    assert [3][1..] == [];
  }

  /** The worked example: A = [1,3,5], B = [3,4,5]. */
  lemma {:induction false} SetAlgebraExample()
    ensures Union([1, 3, 5], [3, 4, 5]) == [1, 3, 4, 5]
    ensures Intersection([1, 3, 5], [3, 4, 5]) == [3, 5]
    ensures Difference([1, 3, 5], [3, 4, 5]) == [1]
    ensures Merge([1, 3, 5], [3, 4, 5]) == [1, 3, 3, 4, 5, 5]
  {
    var a, b := [1, 3, 5], [3, 4, 5];
    assert a[1..] == [3, 5] && a[1..][1..] == [5] && a[1..][1..][1..] == [];
    assert b[1..] == [4, 5] && b[1..][1..] == [5] && b[1..][1..][1..] == [];
  }
}

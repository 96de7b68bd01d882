/**
 * The two-pointer loops of the set operations, writing into the buffer of a
 * freshly allocated result container. Each returns the number of elements
 * written and is proved to write exactly the corresponding function of
 * `SeqSetOps`; the capacity each generation allocates is the precondition.
 */
module ArraySetOps {
  import opened SeqOrder
  import opened SeqSetOps

  /** Writing one more element extends the written prefix by that element. */
  lemma {:induction false} WrittenPrefix(before: seq<int>, after: seq<int>, k: nat, v: int)
    requires k < |before| == |after| && after == before[k := v]
    ensures after[..k + 1] == before[..k] + [v]
  {
  }

  /** Dropping the head of a suffix moves the suffix one step on. */
  lemma {:induction false} SuffixStep(s: seq<int>, i: nat)
    requires i < |s|
    ensures s[i..] == [s[i]] + s[i + 1..] && s[i..][1..] == s[i + 1..]
  {
  }

  /**
   * Write `v` at position `k`: the head of the pending output moves to the
   * written output, and the whole output is unchanged.
   */
  method Emit(out: array<int>, k: nat, v: int, ghost pending: seq<int>, ghost whole: seq<int>)
    requires k < out.Length && out[..k] + ([v] + pending) == whole
    modifies out
    ensures out[..k + 1] + pending == whole
  {
    ghost var before := out[..];
    out[k] := v;
    WrittenPrefix(before, out[..], k, v);
    assert out[..k + 1] + pending == before[..k] + ([v] + pending);
  }

  /** A copy-remaining loop: append `src[i..]` after the `k` elements already written. */
  method CopyRest(src: seq<int>, i: nat, out: array<int>, k: nat) returns (k': nat)
    requires i <= |src| && k + (|src| - i) <= out.Length
    modifies out
    ensures k' == k + (|src| - i) && out[..k'] == old(out[..k]) + src[i..]
  {
    var p := i;
    k' := k;
    while p < |src|
      invariant i <= p <= |src| && k' == k + (p - i)
      invariant out[..k'] == old(out[..k]) + src[i..p]
    {
      ghost var before := out[..];
      out[k'] := src[p];
      WrittenPrefix(before, out[..], k', src[p]);
      assert src[i..p + 1] == src[i..p] + [src[p]];
      p, k' := p + 1, k' + 1;
    }
    assert src[i..p] == src[i..];
  }

  /** `Difference` never writes more elements than the receiver holds. */
  lemma {:induction false} DifferenceLength(x: seq<int>, y: seq<int>)
    ensures |Difference(x, y)| <= |x|
    decreases |x| + |y|
  {
    if x != [] && y != [] {
      if x[0] < y[0] {
        DifferenceLength(x[1..], y);
      } else if y[0] < x[0] {
        DifferenceLength(x, y[1..]);
      } else {
        DifferenceLength(x[1..], y[1..]);
      }
    }
  }

  /** Once one operand is exhausted, the rest of the output is the other operand. */
  lemma {:induction false} ExhaustedOperand(a: seq<int>, b: seq<int>)
    requires a == [] || b == []
    ensures Merge(a, b) == a + b && LegacyMerge(a, b) == a + b && Union(a, b) == a + b
    ensures Difference(a, b) == a
  {
  }

  /** One step of the `Merge` loop. */
  lemma {:induction false} MergeStep(x: seq<int>, y: seq<int>, i: nat, j: nat)
    requires i < |x| && j < |y|
    ensures Merge(x[i..], y[j..]) ==
              if x[i] <= y[j] then [x[i]] + Merge(x[i + 1..], y[j..])
              else [y[j]] + Merge(x[i..], y[j + 1..])
  {
    SuffixStep(x, i);
    SuffixStep(y, j);
  }

  /** `Merge` into a buffer of capacity `n + m`: ties are taken from the receiver. */
  method MergeInto(x: seq<int>, y: seq<int>, out: array<int>) returns (k: nat)
    requires |x| + |y| <= out.Length
    modifies out
    ensures k == |x| + |y| && out[..k] == Merge(x, y)
  {
    var i, j;
    i, j, k := MergeLoop(x, y, out, Merge(x, y));
    ExhaustedOperand(x[i..], y[j..]);
    ghost var done := out[..k];
    k := CopyRest(x, i, out, k);
    k := CopyRest(y, j, out, k);
    ConcatAssoc(done, x[i..], y[j..]);
  }

  /** The two-pointer loop of `Merge`, until one operand is exhausted. */
  method MergeLoop(x: seq<int>, y: seq<int>, out: array<int>, ghost whole: seq<int>) returns (i: nat, j: nat, k: nat)
    requires |x| + |y| <= out.Length && Merge(x[0..], y[0..]) == whole
    modifies out
    ensures i <= |x| && j <= |y| && (i == |x| || j == |y|) && k == i + j
    ensures out[..k] + Merge(x[i..], y[j..]) == whole
  {
    i, j, k := 0, 0, 0;
    while i < |x| && j < |y|
      invariant i <= |x| && j <= |y| && k == i + j
      invariant out[..k] + Merge(x[i..], y[j..]) == whole
      decreases |x| - i + |y| - j
    {
      i, j := MergeVisit(x, y, out, i, j, k, whole);
      k := k + 1;
    }
  }

  /** One iteration of the `Merge` loop: write the smaller head, the receiver's on a tie. */
  method MergeVisit(x: seq<int>, y: seq<int>, out: array<int>, i0: nat, j0: nat, k: nat, ghost whole: seq<int>)
    returns (i: nat, j: nat)
    requires i0 < |x| && j0 < |y| && k < out.Length
    requires out[..k] + Merge(x[i0..], y[j0..]) == whole
    modifies out
    ensures i + j == i0 + j0 + 1 && i <= |x| && j <= |y|
    ensures out[..k + 1] + Merge(x[i..], y[j..]) == whole
  {
    MergeStep(x, y, i0, j0);
    i, j := i0, j0;
    if x[i] <= y[j] {
      Emit(out, k, x[i], Merge(x[i + 1..], y[j..]), whole);
      i := i + 1;
    } else {
      Emit(out, k, y[j], Merge(x[i..], y[j + 1..]), whole);
      j := j + 1;
    }
  }

  /** One step of the fixed-capacity `Merge` loop. */
  lemma {:induction false} LegacyMergeStep(x: seq<int>, y: seq<int>, i: nat, j: nat)
    requires i < |x| && j < |y|
    ensures LegacyMerge(x[i..], y[j..]) ==
              if x[i] < y[j] then [x[i]] + LegacyMerge(x[i + 1..], y[j..])
              else [y[j]] + LegacyMerge(x[i..], y[j + 1..])
  {
    SuffixStep(x, i);
    SuffixStep(y, j);
  }

  /** The fixed-capacity `Merge`: ties are taken from the argument. */
  method LegacyMergeInto(x: seq<int>, y: seq<int>, out: array<int>) returns (k: nat)
    requires |x| + |y| <= out.Length
    modifies out
    ensures k == |x| + |y| && out[..k] == LegacyMerge(x, y)
  {
    var i, j;
    i, j, k := LegacyMergeLoop(x, y, out, LegacyMerge(x, y));
    ExhaustedOperand(x[i..], y[j..]);
    ghost var done := out[..k];
    k := CopyRest(x, i, out, k);
    k := CopyRest(y, j, out, k);
    ConcatAssoc(done, x[i..], y[j..]);
  }

  /** The two-pointer loop of the fixed-capacity `Merge`, until one operand is exhausted. */
  method LegacyMergeLoop(x: seq<int>, y: seq<int>, out: array<int>, ghost whole: seq<int>) returns (i: nat, j: nat, k: nat)
    requires |x| + |y| <= out.Length && LegacyMerge(x[0..], y[0..]) == whole
    modifies out
    ensures i <= |x| && j <= |y| && (i == |x| || j == |y|) && k == i + j
    ensures out[..k] + LegacyMerge(x[i..], y[j..]) == whole
  {
    i, j, k := 0, 0, 0;
    while i < |x| && j < |y|
      invariant i <= |x| && j <= |y| && k == i + j
      invariant out[..k] + LegacyMerge(x[i..], y[j..]) == whole
      decreases |x| - i + |y| - j
    {
      i, j := LegacyMergeVisit(x, y, out, i, j, k, whole);
      k := k + 1;
    }
  }

  /** One iteration of the fixed-capacity `Merge` loop: write the smaller head, the argument's on a tie. */
  method LegacyMergeVisit(x: seq<int>, y: seq<int>, out: array<int>, i0: nat, j0: nat, k: nat, ghost whole: seq<int>)
    returns (i: nat, j: nat)
    requires i0 < |x| && j0 < |y| && k < out.Length
    requires out[..k] + LegacyMerge(x[i0..], y[j0..]) == whole
    modifies out
    ensures i + j == i0 + j0 + 1 && i <= |x| && j <= |y|
    ensures out[..k + 1] + LegacyMerge(x[i..], y[j..]) == whole
  {
    LegacyMergeStep(x, y, i0, j0);
    i, j := i0, j0;
    if x[i] < y[j] {
      Emit(out, k, x[i], LegacyMerge(x[i + 1..], y[j..]), whole);
      i := i + 1;
    } else {
      Emit(out, k, y[j], LegacyMerge(x[i..], y[j + 1..]), whole);
      j := j + 1;
    }
  }

  /** One step of the `Union` loop. */
  lemma {:induction false} UnionStep(x: seq<int>, y: seq<int>, i: nat, j: nat)
    requires i < |x| && j < |y|
    ensures Union(x[i..], y[j..]) ==
              if x[i] < y[j] then [x[i]] + Union(x[i + 1..], y[j..])
              else if y[j] < x[i] then [y[j]] + Union(x[i..], y[j + 1..])
              else [x[i]] + Union(x[i + 1..], y[j + 1..])
  {
    SuffixStep(x, i);
    SuffixStep(y, j);
  }

  /** `Union` into a buffer of capacity `n + m`: equal keys are written once. */
  method UnionInto(x: seq<int>, y: seq<int>, out: array<int>) returns (k: nat)
    requires |x| + |y| <= out.Length
    modifies out
    ensures k <= out.Length && out[..k] == Union(x, y)
  {
    var i, j;
    i, j, k := UnionLoop(x, y, out, Union(x, y));
    ExhaustedOperand(x[i..], y[j..]);
    ghost var done := out[..k];
    k := CopyRest(x, i, out, k);
    k := CopyRest(y, j, out, k);
    ConcatAssoc(done, x[i..], y[j..]);
  }

  /** The two-pointer loop of `Union`, until one operand is exhausted. */
  method UnionLoop(x: seq<int>, y: seq<int>, out: array<int>, ghost whole: seq<int>) returns (i: nat, j: nat, k: nat)
    requires |x| + |y| <= out.Length && Union(x[0..], y[0..]) == whole
    modifies out
    ensures i <= |x| && j <= |y| && (i == |x| || j == |y|) && k <= i + j
    ensures out[..k] + Union(x[i..], y[j..]) == whole
  {
    i, j, k := 0, 0, 0;
    while i < |x| && j < |y|
      invariant i <= |x| && j <= |y| && k <= i + j
      invariant out[..k] + Union(x[i..], y[j..]) == whole
      decreases |x| - i + |y| - j
    {
      i, j := UnionVisit(x, y, out, i, j, k, whole);
      k := k + 1;
    }
  }

  /** One iteration of the `Union` loop: write the smaller head, or a shared key once. */
  method UnionVisit(x: seq<int>, y: seq<int>, out: array<int>, i0: nat, j0: nat, k: nat, ghost whole: seq<int>)
    returns (i: nat, j: nat)
    requires i0 < |x| && j0 < |y| && k < out.Length
    requires out[..k] + Union(x[i0..], y[j0..]) == whole
    modifies out
    ensures i0 + j0 < i + j && i <= |x| && j <= |y|
    ensures out[..k + 1] + Union(x[i..], y[j..]) == whole
  {
    UnionStep(x, y, i0, j0);
    i, j := i0, j0;
    if x[i] < y[j] {
      Emit(out, k, x[i], Union(x[i + 1..], y[j..]), whole);
      i := i + 1;
    } else if y[j] < x[i] {
      Emit(out, k, y[j], Union(x[i..], y[j + 1..]), whole);
      j := j + 1;
    } else {
      Emit(out, k, x[i], Union(x[i + 1..], y[j + 1..]), whole);
      i, j := i + 1, j + 1;
    }
  }

  /** One step of the `Intersection` loop. */
  lemma {:induction false} IntersectionStep(x: seq<int>, y: seq<int>, i: nat, j: nat)
    requires i < |x| && j < |y|
    ensures Intersection(x[i..], y[j..]) ==
              if x[i] < y[j] then Intersection(x[i + 1..], y[j..])
              else if y[j] < x[i] then Intersection(x[i..], y[j + 1..])
              else [x[i]] + Intersection(x[i + 1..], y[j + 1..])
  {
    SuffixStep(x, i);
    SuffixStep(y, j);
  }

  /**
   * `Intersection` into a buffer whose capacity covers the shorter operand
   * (the growable containers) or both (the fixed-capacity one).
   */
  method IntersectionInto(x: seq<int>, y: seq<int>, out: array<int>) returns (k: nat)
    requires |x| <= out.Length || |y| <= out.Length
    modifies out
    ensures k <= out.Length && out[..k] == Intersection(x, y)
  {
    IntersectionLength(x, y);
    var i, j := 0, 0;
    k := 0;
    while i < |x| && j < |y|
      invariant i <= |x| && j <= |y|
      invariant k + |Intersection(x[i..], y[j..])| == |Intersection(x, y)|
      invariant out[..k] + Intersection(x[i..], y[j..]) == Intersection(x, y)
    {
      IntersectionStep(x, y, i, j);
      if x[i] < y[j] {
        i := i + 1;
      } else if y[j] < x[i] {
        j := j + 1;
      } else {
        Emit(out, k, x[i], Intersection(x[i + 1..], y[j + 1..]), Intersection(x, y));
        i, j, k := i + 1, j + 1, k + 1;
      }
    }
  }

  /** One step of the `Difference` loop. */
  lemma {:induction false} DifferenceStep(x: seq<int>, y: seq<int>, i: nat, j: nat)
    requires i < |x| && j < |y|
    ensures Difference(x[i..], y[j..]) ==
              if x[i] < y[j] then [x[i]] + Difference(x[i + 1..], y[j..])
              else if y[j] < x[i] then Difference(x[i..], y[j + 1..])
              else Difference(x[i + 1..], y[j + 1..])
  {
    SuffixStep(x, i);
    SuffixStep(y, j);
  }

  /**
   * `Difference` (receiver minus argument) into a buffer of capacity at least
   * `n`, with the copy-remaining loop advancing its index.
   */
  method DifferenceInto(x: seq<int>, y: seq<int>, out: array<int>) returns (k: nat)
    requires |x| <= out.Length
    modifies out
    ensures k <= out.Length && out[..k] == Difference(x, y)
  {
    DifferenceLength(x, y);
    var i, j := 0, 0;
    k := 0;
    while i < |x| && j < |y|
      invariant i <= |x| && j <= |y|
      invariant k + |Difference(x[i..], y[j..])| == |Difference(x, y)|
      invariant out[..k] + Difference(x[i..], y[j..]) == Difference(x, y)
    {
      DifferenceStep(x, y, i, j);
      if x[i] < y[j] {
        Emit(out, k, x[i], Difference(x[i + 1..], y[j..]), Difference(x, y));
        i, k := i + 1, k + 1;
      } else if y[j] < x[i] {
        j := j + 1;
      } else {
        i, j := i + 1, j + 1;
      }
    }
    ExhaustedOperand(x[i..], y[j..]);
    k := CopyRest(x, i, out, k);
  }
}

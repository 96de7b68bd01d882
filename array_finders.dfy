/**
 * The missing-element and duplicate finders as loops over the live contents.
 * A finder that prints returns the sequence of what it prints, in order
 * (the hashing duplicate finder, whose print order is the hash table's,
 * returns a map). Each is proved equal to its specification function in
 * `SeqMissing` or `SeqDuplicates`, whose own lemmas say what is reported.
 */
module ArrayFinders {
  import opened Wrappers
  import opened SeqOrder
  import opened SeqMissing
  import opened SeqDuplicates
  import ArraySearch

  /** `FindSingleMissingElementSorted`: the first index whose `A[i] - i` departs from `A[0]`. */
  method FirstGapScan(s: seq<int>) returns (r: Option<int>)
    ensures r == FirstGap(s)
  {
    if |s| == 0 {
      return None;
    }
    var d := s[0];
    var i := 0;
    while i < |s|
      invariant i <= |s| && FirstGapFrom(s, i, d) == FirstGap(s)
    {
      if s[i] - i != d {
        return Some(i + d);
      }
      i := i + 1;
    }
    return None;
  }

  /**
   * `FindMultipleMissingElementsSorted`: at each index whose difference has
   * grown, print the values up to `A[i] - 1` while raising the difference.
   */
  method MissingSortedScan(s: seq<int>) returns (out: seq<int>)
    ensures out == MissingSorted(s)
  {
    out := [];
    if |s| == 0 {
      return;
    }
    var d := s[0];
    var i := 0;
    while i < |s|
      invariant i <= |s|
      invariant out + MissingFrom(s, i, d) == MissingSorted(s)
    {
      out, d := MissingVisit(s, i, d, out);
      i := i + 1;
    }
  }

  /** One index of the sorted scan: print the values up to `A[i] - 1` when the difference has grown. */
  method MissingVisit(s: seq<int>, i: nat, d0: int, out0: seq<int>) returns (out: seq<int>, d: int)
    requires i < |s|
    ensures out + MissingFrom(s, i + 1, d) == out0 + MissingFrom(s, i, d0)
  {
    var top := s[i] - i;
    if d0 < top {
      out, d := PrintGap(out0, i, d0, top);
      assert d == top && out == out0 + Range(i + d0, s[i]);
      MissingStepGap(s, i, d0);
      ConcatAssoc(out0, Range(i + d0, s[i]), MissingFrom(s, i + 1, top));
    } else {
      out, d := out0, d0;
      MissingStepNone(s, i, d0);
    }
  }

  /** The inner loop of the sorted scan: print `i + d` while raising `d` to `top`. */
  method PrintGap(out0: seq<int>, i: int, d0: int, top: int) returns (out: seq<int>, d: int)
    ensures d == if d0 < top then top else d0
    ensures out == out0 + Range(i + d0, i + d)
  {
    out, d := out0, d0;
    while d < top
      invariant d0 <= d && (d0 < top ==> d <= top) && (top <= d0 ==> d == d0)
      invariant out == out0 + Range(i + d0, i + d)
    {
      RangeSnoc(i + d0, i + d);
      out := out + [i + d];
      d := d + 1;
    }
  }

  /** A step of the difference scan at an index whose difference has grown. */
  lemma {:induction false} MissingStepGap(s: seq<int>, i: nat, d: int)
    requires i < |s| && d < s[i] - i
    ensures MissingFrom(s, i, d) == Range(i + d, s[i]) + MissingFrom(s, i + 1, s[i] - i)
  {
  }

  /** A step of the difference scan at an index whose difference has not grown. */
  lemma {:induction false} MissingStepNone(s: seq<int>, i: nat, d: int)
    requires i < |s| && s[i] - i <= d
    ensures MissingFrom(s, i, d) == MissingFrom(s, i + 1, d)
  {
  }

  /**
   * `FindMultipleMissingElementsHash`: mark each element's slot in a
   * presence table spanning `[min, max]`, then print the unmarked slots.
   */
  method HashMissingScan(s: seq<int>) returns (out: seq<int>)
    ensures out == HashMissing(s)
  {
    out := [];
    if |s| == 0 {
      return;
    }
    var lo := ArraySearch.MinOf(s);
    var hi := ArraySearch.MaxOf(s);
    if lo == -1 || hi == -1 {
      return;
    }
    if lo == hi {
      return;
    }
    var span := hi - lo + 1;
    var present := new bool[span];
    MarkPresent(s, lo, present);
    out := CollectAbsent(s, lo, present);
  }

  /** Clear the presence table, then set the slot `v - lo` of every element `v` that falls in it. */
  method MarkPresent(s: seq<int>, lo: int, present: array<bool>)
    modifies present
    ensures forall p :: 0 <= p < present.Length ==> (present[p] <==> lo + p in s)
  {
    var span := present.Length;
    var i := 0;
    while i < span
      invariant i <= span
      invariant forall p :: 0 <= p < i ==> !present[p]
    {
      present[i] := false;
      i := i + 1;
    }
    i := 0;
    while i < |s|
      invariant i <= |s|
      invariant forall p :: 0 <= p < span ==> (present[p] <==> lo + p in s[..i])
    {
      assert s[..i + 1] == s[..i] + [s[i]];
      if lo <= s[i] < lo + span {
        present[s[i] - lo] := true;
      }
      i := i + 1;
    }
    assert s[..i] == s;
  }

  /** Print the values of the unmarked slots, in slot order. */
  method CollectAbsent(s: seq<int>, lo: int, present: array<bool>) returns (out: seq<int>)
    requires forall p :: 0 <= p < present.Length ==> (present[p] <==> lo + p in s)
    ensures out == Absent(s, lo, lo + present.Length)
  {
    out := [];
    var p := 0;
    while p < present.Length
      invariant p <= present.Length
      invariant out == Absent(s, lo, lo + p)
    {
      if !present[p] {
        out := out + [p + lo];
      }
      p := p + 1;
    }
  }

  /**
   * `FindSingleMissingElementUnsortedOptimal`: the XOR of all elements with
   * every integer from `min` to `min + length`; `None` for an empty array.
   */
  method XorScan(s: seq<int>) returns (r: Option<int>)
    ensures r.None? <==> s == []
    ensures s != [] ==> r == Some(XorMissing(s))
  {
    if |s| == 0 {
      return None;
    }
    var lo := ArraySearch.MinOf(s);
    var acc: nat := 0;
    var i := 0;
    while i < |s|
      invariant i <= |s| && acc == XorAll(s[..i])
    {
      assert s[..i + 1][..i] == s[..i];
      acc := Xor(acc, Bits(s[i]));
      i := i + 1;
    }
    assert s[..i] == s;
    var expected: nat := 0;
    var cur := lo;
    while cur <= lo + |s|
      invariant lo <= cur <= lo + |s| + 1
      invariant expected == XorAll(Range(lo, cur))
    {
      RangeSnoc(lo, cur);
      XorAllSnoc(Range(lo, cur), cur);
      expected := Xor(expected, Bits(cur));
      cur := cur + 1;
    }
    return Some(Signed(Xor(acc, expected)));
  }

  /**
   * `FindDuplicatesSorted`: at each pair of equal neighbours, extend the run
   * and print its value and length, then jump past it.
   */
  method SortedDuplicatesScan(s: seq<int>) returns (out: seq<(int, nat)>)
    ensures out == SortedDuplicates(s)
  {
    out := [];
    if |s| < 2 {
      return;
    }
    var i := 0;
    while i < |s| - 1
      invariant i <= |s|
      invariant out + RunsFrom(s, i) == SortedDuplicates(s)
      decreases |s| - i
    {
      if s[i] == s[i + 1] {
        var count: nat := 2;
        var j := i + 2;
        while j < |s| && s[j] == s[i]
          invariant i + 2 <= j <= |s| && count == j - i
          invariant forall k :: i <= k < j ==> s[k] == s[i]
        {
          count := count + 1;
          j := j + 1;
        }
        RunEndAt(s, i, j);
        out := out + [(s[i], count)];
        i := j;
      } else {
        i := i + 1;
      }
    }
  }

  /** The end of a run is the one index after a block of copies of `s[i]` that does not continue it. */
  lemma {:induction false} RunEndAt(s: seq<int>, i: nat, j: nat)
    requires i < j <= |s|
    requires forall k :: i <= k < j ==> s[k] == s[i]
    requires j < |s| ==> s[j] != s[i]
    ensures RunEnd(s, i) == j
  {
  }

  /**
   * `FindDuplicatesHashing`: count every value in a frequency table, then
   * report the entries counted more than once. Returns the reported table.
   */
  method HashDuplicatesScan(s: seq<int>) returns (r: map<int, nat>)
    ensures forall v :: v in r <==> Occurrences(s, v) > 1
    ensures forall v :: v in r ==> r[v] == Occurrences(s, v)
  {
    if |s| < 2 {
      assert forall v :: Occurrences(s, v) <= 1 by {
        if |s| == 1 {
          assert s == [s[0]];
        }
      }
      return map[];
    }
    var freq: map<int, nat> := map[];
    var i := 0;
    while i < |s|
      invariant i <= |s|
      invariant forall v :: v in freq <==> v in s[..i]
      invariant forall v :: v in freq ==> freq[v] == Occurrences(s[..i], v)
    {
      assert s[..i + 1] == s[..i] + [s[i]];
      var c := if s[i] in freq then freq[s[i]] else 0;
      freq := freq[s[i] := c + 1];
      i := i + 1;
    }
    assert s[..i] == s;
    r := map v | v in freq && freq[v] > 1 :: freq[v];
  }

  /**
   * `FindDuplicatesUnsorted_BruteForce` on a scratch copy: each unmarked
   * element is counted against the later ones, whose copies are overwritten
   * with `sentinel`, and reported as `(A[i], count)` when seen more than once.
   * With `skipLast` the outer loop stops before the last element, as in the
   * `int` container; the report is the same.
   */
  method BruteDuplicatesScan(s: seq<int>, sentinel: int, skipLast: bool) returns (out: seq<(int, nat)>)
    ensures out == BruteDuplicates(s, sentinel)
  {
    out := [];
    if |s| < 2 {
      BruteDuplicatesShort(s, sentinel);
      return;
    }
    var n := |s|;
    var temp := ScratchCopy(s);
    var bound := if skipLast then n - 1 else n;
    assert temp[0..] == s;
    out := VisitAll(temp, s, sentinel, bound, BruteDuplicates(s, sentinel));
  }

  /** The outer loop of the brute force over positions `[0, bound)`. */
  method VisitAll(temp: array<int>, s: seq<int>, sentinel: int, bound: nat, ghost whole: seq<(int, nat)>)
    returns (out: seq<(int, nat)>)
    requires |s| - 1 <= bound <= |s| && temp[..] == s
    requires BruteDuplicates(temp[0..], sentinel) == whole
    modifies temp
    ensures out == whole
  {
    out := [];
    var i := 0;
    while i < bound
      invariant i <= bound && Unmarked(temp[..], s, i, sentinel)
      invariant out + BruteDuplicates(temp[i..], sentinel) == whole
    {
      out := VisitHead(temp, i, s, sentinel, out, whole);
      i := i + 1;
    }
    BruteDuplicatesShort(temp[i..], sentinel);
  }

  /**
   * One pass of the outer loop of the brute force: an unmarked `temp[i]` has
   * its later copies counted and marked, and `(A[i], count)` is appended to
   * the report when the count exceeds one.
   */
  method VisitHead(temp: array<int>, i: nat, s: seq<int>, sentinel: int, out: seq<(int, nat)>, ghost whole: seq<(int, nat)>)
    returns (out': seq<(int, nat)>)
    requires i < |s| && Unmarked(temp[..], s, i, sentinel)
    requires out + BruteDuplicates(temp[i..], sentinel) == whole
    modifies temp
    ensures Unmarked(temp[..], s, i + 1, sentinel)
    ensures out' + BruteDuplicates(temp[i + 1..], sentinel) == whole
  {
    ghost var before := temp[..];
    assert temp[i..] == before[i..];
    out' := out;
    if temp[i] != sentinel {
      var count := MarkLater(temp, i, sentinel);
      MarkedSlices(before, temp[..], i, sentinel);
      BruteVisit(before, temp[..], s, i, sentinel, count, out, whole);
      if count > 1 {
        out' := out' + [(s[i], count)];
      }
      assert out' == out + if count > 1 then [(s[i], count)] else [];
      assert temp[i + 1..] == temp[..][i + 1..];
    } else {
      BruteSkip(before, s, i, sentinel, out, whole);
      assert temp[i + 1..] == before[i + 1..];
    }
  }

  /** From position `i` on, the scratch copy holds either the original element or the sentinel. */
  ghost predicate Unmarked(t: seq<int>, s: seq<int>, i: nat, sentinel: int) {
    |t| == |s| && i <= |t| && forall k :: i <= k < |t| ==> t[k] == sentinel || t[k] == s[k]
  }

  /**
   * Visiting an unmarked head: after its later copies are marked, the head
   * (which is the original element) has been reported when counted more than
   * once, and the rest of the report comes from the marked remainder.
   */
  lemma {:induction false} BruteVisit(before: seq<int>, after: seq<int>, s: seq<int>, i: nat, sentinel: int, count: nat,
                                      out0: seq<(int, nat)>, whole: seq<(int, nat)>)
    requires i < |s| && Unmarked(before, s, i, sentinel) && before[i] != sentinel
    requires out0 + BruteDuplicates(before[i..], sentinel) == whole
    requires |after| == |before| && after[..i + 1] == before[..i + 1]
    requires after[i + 1..] == Mark(before[i + 1..], after[i], sentinel)
    requires count == 1 + Occurrences(before[i + 1..], after[i])
    ensures Unmarked(after, s, i + 1, sentinel)
    ensures (out0 + if count > 1 then [(s[i], count)] else []) + BruteDuplicates(after[i + 1..], sentinel) == whole
  {
    assert after[i] == before[i] by {
      assert after[..i + 1][i] == before[..i + 1][i];
    }
    var t := before[i..];
    assert t[0] == before[i] && t[1..] == before[i + 1..];
    forall k | i + 1 <= k < |after| ensures after[k] == sentinel || after[k] == s[k] {
      assert after[k] == after[i + 1..][k - i - 1];
    }
    BruteAdvance(out0, t, sentinel, count, after[i + 1..], whole);
  }

  /** Passing over a marked head keeps the whole report. */
  lemma {:induction false} BruteSkip(before: seq<int>, s: seq<int>, i: nat, sentinel: int, out0: seq<(int, nat)>, whole: seq<(int, nat)>)
    requires i < |s| && Unmarked(before, s, i, sentinel) && before[i] == sentinel
    requires out0 + BruteDuplicates(before[i..], sentinel) == whole
    ensures Unmarked(before, s, i + 1, sentinel)
    ensures out0 + BruteDuplicates(before[i + 1..], sentinel) == whole
  {
    assert before[i..][1..] == before[i + 1..];
  }

  /** Reporting an unmarked head and marking its later copies keeps the whole report. */
  lemma {:induction false} BruteAdvance(out0: seq<(int, nat)>, t: seq<int>, sentinel: int, count: nat, rest: seq<int>, whole: seq<(int, nat)>)
    requires out0 + BruteDuplicates(t, sentinel) == whole
    requires t != [] && t[0] != sentinel && count == 1 + Occurrences(t[1..], t[0])
    requires rest == Mark(t[1..], t[0], sentinel)
    ensures (out0 + if count > 1 then [(t[0], count)] else []) + BruteDuplicates(rest, sentinel) == whole
  {
    var head: seq<(int, nat)> := if count > 1 then [(t[0], count)] else [];
    var r := BruteDuplicates(rest, sentinel);
    BruteHeadStep(t, sentinel, count, rest);
    ConcatAssoc(out0, head, r);
  }

  /** One step of the brute force on an unmarked head. */
  lemma {:induction false} BruteHeadStep(t: seq<int>, sentinel: int, count: nat, rest: seq<int>)
    requires t != [] && t[0] != sentinel && count == 1 + Occurrences(t[1..], t[0])
    requires rest == Mark(t[1..], t[0], sentinel)
    ensures BruteDuplicates(t, sentinel) == (if count > 1 then [(t[0], count)] else []) + BruteDuplicates(rest, sentinel)
  {
  }

  /** The scratch copy the brute force marks. */
  method ScratchCopy(s: seq<int>) returns (temp: array<int>)
    ensures fresh(temp) && temp[..] == s
  {
    temp := new int[|s|];
    var i := 0;
    while i < |s|
      invariant i <= |s| && temp[..i] == s[..i]
    {
      temp[i] := s[i];
      assert temp[..i + 1] == temp[..i] + [s[i]];
      i := i + 1;
    }
    assert temp[..] == temp[..i];
  }

  /**
   * The inner loop of the brute force: count the copies of `temp[i]` after
   * position `i` and overwrite each with `sentinel`.
   */
  method MarkLater(temp: array<int>, i: nat, sentinel: int) returns (count: nat)
    requires i < temp.Length
    modifies temp
    ensures forall k :: 0 <= k <= i ==> temp[k] == old(temp[k])
    ensures forall k :: i < k < temp.Length ==>
              temp[k] == if old(temp[k]) == old(temp[i]) then sentinel else old(temp[k])
    ensures count == 1 + Occurrences(old(temp[i + 1..]), old(temp[i]))
  {
    ghost var b := temp[..];
    var n := temp.Length;
    var x := temp[i];
    count := 1;
    var j := i + 1;
    while j < n
      invariant i + 1 <= j <= n
      invariant forall k :: 0 <= k < n ==> temp[k] == if i < k < j && b[k] == x then sentinel else b[k]
      invariant count == 1 + Occurrences(b[i + 1..j], x)
    {
      OccurrencesSnoc(b, i + 1, j, x);
      assert temp[j] == b[j];
      if x == temp[j] {
        count := count + 1;
        temp[j] := sentinel;
      }
      j := j + 1;
    }
    assert b[i + 1..j] == old(temp[i + 1..]);
  }

  /** Counting one more element of `t`. */
  lemma {:induction false} OccurrencesSnoc(t: seq<int>, lo: nat, m: nat, x: int)
    requires lo <= m < |t|
    ensures Occurrences(t[lo..m + 1], x) == Occurrences(t[lo..m], x) + if t[m] == x then 1 else 0
  {
    assert t[lo..m + 1] == t[lo..m] + [t[m]];
  }

  /** The pointwise account of `MarkLater` in terms of slices and `Mark`. */
  lemma {:induction false} MarkedSlices(before: seq<int>, after: seq<int>, i: nat, sentinel: int)
    requires |after| == |before| && i < |before|
    requires forall k :: 0 <= k <= i ==> after[k] == before[k]
    requires forall k :: i < k < |before| ==> after[k] == if before[k] == before[i] then sentinel else before[k]
    ensures after[..i + 1] == before[..i + 1]
    ensures after[i + 1..] == Mark(before[i + 1..], after[i], sentinel)
  {
  }

  /** Fewer than two elements report nothing. */
  lemma {:induction false} BruteDuplicatesShort(s: seq<int>, sentinel: int)
    requires |s| < 2
    ensures BruteDuplicates(s, sentinel) == []
  {
    if |s| == 1 {
      assert s[1..] == [];
    }
  }
}

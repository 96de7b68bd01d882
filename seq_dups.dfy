/**
 * Duplicate detection on the live contents: the run scan over an ascending
 * array (FindDuplicatesSorted) and the sentinel-marking brute force
 * (FindDuplicatesUnsorted_BruteForce). Each function gives the
 * `(value, occurrences)` pairs the routine reports, in report order.
 */
module SeqDuplicates {
  import opened SeqOrder

  /** How often `v` occurs in `s`. */
  function Occurrences(s: seq<int>, v: int): nat {
    multiset(s)[v]
  }

  // ---------------------------------------------------------------------
  // Run scan over an ascending array (FindDuplicatesSorted)
  // ---------------------------------------------------------------------

  /** One past the last index of the run of equal values starting at `i`. */
  function RunEnd(s: seq<int>, i: nat): (j: nat)
    requires i < |s|
    ensures i < j <= |s|
    ensures forall k :: i <= k < j ==> s[k] == s[i]
    ensures j < |s| ==> s[j] != s[i]
    decreases |s| - i
  {
    if i + 1 < |s| && s[i + 1] == s[i] then RunEnd(s, i + 1) else i + 1
  }

  /**
   * The pairs reported by the run scan from index `i`: a run of two or more
   * equal values is reported once with its length, then the scan jumps past it.
   */
  function RunsFrom(s: seq<int>, i: nat): seq<(int, nat)>
    requires i <= |s|
    decreases |s| - i
  {
    if i + 1 >= |s| then []
    else if s[i] == s[i + 1] then
      var j := RunEnd(s, i);
      [(s[i], j - i)] + RunsFrom(s, j)
    else RunsFrom(s, i + 1)
  }

  /** The pairs `FindDuplicatesSorted` prints, in order. */
  function SortedDuplicates(s: seq<int>): seq<(int, nat)> {
    RunsFrom(s, 0)
  }

  /** A sequence of copies of one value holds that value as often as it is long. */
  lemma {:induction false} ConstantOccurrences(t: seq<int>, x: int, v: int)
    requires forall k :: 0 <= k < |t| ==> t[k] == x
    ensures Occurrences(t, v) == if v == x then |t| else 0
  {
    if t != [] {
      assert t == [t[0]] + t[1..];
      ConstantOccurrences(t[1..], x, v);
    }
  }

  /** On an ascending array, a run starting at `i` holds every copy of `s[i]` from `i` on. */
  lemma {:induction false} RunCountsAll(s: seq<int>, i: nat, v: int)
    requires Sorted(s) && i < |s|
    ensures var j := RunEnd(s, i);
            Occurrences(s[i..], v) == (if v == s[i] then j - i else 0) + Occurrences(s[j..], v)
  {
    var j := RunEnd(s, i);
    assert s[i..] == s[i..j] + s[j..];
    ConstantOccurrences(s[i..j], s[i], v);
  }

  /** Past the run starting at `i`, every value exceeds `s[i]`. */
  lemma {:induction false} RunEndAbove(s: seq<int>, i: nat)
    requires Sorted(s) && i < |s|
    ensures forall k :: RunEnd(s, i) <= k < |s| ==> s[i] < s[k]
  {
    var j := RunEnd(s, i);
    forall k | j <= k < |s| ensures s[i] < s[k] {
      assert s[i] <= s[j] <= s[k];
    }
  }

  /**
   * What the run scan from index `i` reports: exactly the values occurring at
   * least twice in `s[i..]`, each with its number of occurrences, ascending.
   */
  ghost predicate RunsReport(s: seq<int>, i: nat)
    requires i <= |s|
  {
    var r := RunsFrom(s, i);
    (forall v, c :: (v, c) in r <==> c == Occurrences(s[i..], v) && c > 1) &&
    forall p, q :: 0 <= p < q < |r| ==> r[p].0 < r[q].0
  }

  /** The scan reports nothing once fewer than two elements remain. */
  lemma {:induction false} RunsReportShort(s: seq<int>, i: nat)
    requires i <= |s| && i + 1 >= |s|
    ensures RunsReport(s, i)
  {
    forall v ensures Occurrences(s[i..], v) <= 1 {
      if i < |s| {
        ConstantOccurrences(s[i..], s[i], v);
      }
    }
  }

  /** Reporting a run and jumping past it keeps the report exact. */
  lemma {:induction false} RunsReportRun(s: seq<int>, i: nat)
    requires Sorted(s) && i + 1 < |s| && s[i] == s[i + 1]
    requires RunsReport(s, RunEnd(s, i))
    ensures RunsReport(s, i)
  {
    var j := RunEnd(s, i);
    var rest := RunsFrom(s, j);
    var r := RunsFrom(s, i);
    assert r == [(s[i], j - i)] + rest;
    RunEndAbove(s, i);
    assert s[i] !in s[j..];
    RunMembers(s, i);
    RunHeadBelow(s, i);
    ConsAscending((s[i], j - i), rest);
  }

  /** A pair below every value of an ascending report extends it at the front. */
  lemma {:induction false} ConsAscending(h: (int, nat), rest: seq<(int, nat)>)
    requires forall p :: 0 <= p < |rest| ==> h.0 < rest[p].0
    requires forall p, q :: 0 <= p < q < |rest| ==> rest[p].0 < rest[q].0
    ensures var r := [h] + rest;
            forall p, q :: 0 <= p < q < |r| ==> r[p].0 < r[q].0
  {
  }

  /** The pairs after a run's report are those of the rest of the array. */
  lemma {:induction false} RunMembers(s: seq<int>, i: nat)
    requires Sorted(s) && i + 1 < |s| && s[i] == s[i + 1]
    requires RunsReport(s, RunEnd(s, i))
    requires s[i] !in s[RunEnd(s, i)..]
    ensures forall v, c :: (v, c) in RunsFrom(s, i) <==> c == Occurrences(s[i..], v) && c > 1
  {
    var j := RunEnd(s, i);
    var rest := RunsFrom(s, j);
    assert RunsFrom(s, i) == [(s[i], j - i)] + rest;
    forall v, c ensures (v, c) in [(s[i], j - i)] + rest <==> c == Occurrences(s[i..], v) && c > 1 {
      RunCountsAll(s, i, v);
      RunMemberAt(s, i, j, rest, v, c);
    }
  }

  /** One pair of `RunMembers`: the run's own pair, or a pair of the rest. */
  lemma {:induction false} RunMemberAt(s: seq<int>, i: nat, j: nat, rest: seq<(int, nat)>, v: int, c: nat)
    requires i + 1 < j <= |s| && s[i] !in s[j..]
    requires (v, c) in rest <==> c == Occurrences(s[j..], v) && c > 1
    requires Occurrences(s[i..], v) == (if v == s[i] then j - i else 0) + Occurrences(s[j..], v)
    ensures (v, c) in [(s[i], j - i)] + rest <==> c == Occurrences(s[i..], v) && c > 1
  {
    if v == s[i] {
      assert Occurrences(s[j..], v) == 0;
    }
  }

  /** A run's value is below every value reported after it. */
  lemma {:induction false} RunHeadBelow(s: seq<int>, i: nat)
    requires Sorted(s) && i + 1 < |s| && s[i] == s[i + 1]
    requires RunsReport(s, RunEnd(s, i))
    ensures forall p :: 0 <= p < |RunsFrom(s, RunEnd(s, i))| ==> s[i] < RunsFrom(s, RunEnd(s, i))[p].0
  {
    var j := RunEnd(s, i);
    var rest := RunsFrom(s, j);
    RunEndAbove(s, i);
    forall p | 0 <= p < |rest| ensures s[i] < rest[p].0 {
      assert rest[p] in rest;
      assert rest[p].0 in s[j..];
    }
  }

  /** Skipping a value that occurs once keeps the report exact. */
  lemma {:induction false} RunsReportSkip(s: seq<int>, i: nat)
    requires Sorted(s) && i + 1 < |s| && s[i] != s[i + 1]
    requires RunsReport(s, i + 1)
    ensures RunsReport(s, i)
  {
    assert s[i..] == [s[i]] + s[i + 1..];
    forall k | i + 1 <= k < |s| ensures s[k] != s[i] {
      assert s[i] <= s[i + 1] <= s[k];
    }
    assert s[i] !in s[i + 1..];
  }

  /** From any index the run scan's report is exact, by induction on the remaining length. */
  lemma {:induction false} RunsFromSpec(s: seq<int>, i: nat)
    requires Sorted(s) && i <= |s|
    ensures RunsReport(s, i)
    decreases |s| - i
  {
    if i + 1 >= |s| {
      RunsReportShort(s, i);
    } else if s[i] == s[i + 1] {
      RunsFromSpec(s, RunEnd(s, i));
      RunsReportRun(s, i);
    } else {
      RunsFromSpec(s, i + 1);
      RunsReportSkip(s, i);
    }
  }

  /**
   * On an ascending array the run scan reports exactly the values occurring
   * two or more times, each once with its number of occurrences, in ascending order.
   */
  lemma {:induction false} SortedDuplicatesSpec(s: seq<int>)
    requires Sorted(s)
    ensures forall v, c :: (v, c) in SortedDuplicates(s) <==> c == Occurrences(s, v) && c > 1
    ensures var r := SortedDuplicates(s);
            forall p, q :: 0 <= p < q < |r| ==> r[p].0 < r[q].0
  {
    RunsFromSpec(s, 0);
    assert s[0..] == s;
  }

  /** The run scan on [1, 2, 2, 3, 3, 3]. */
  lemma {:induction false} SortedDuplicatesExample()
    ensures SortedDuplicates([1, 2, 2, 3, 3, 3]) == [(2, 2), (3, 3)]
  {
    var s := [1, 2, 2, 3, 3, 3];
    assert RunEnd(s, 1) == 3;
    assert RunEnd(s, 3) == 6;
  }

  // ---------------------------------------------------------------------
  // Sentinel-marking brute force (FindDuplicatesUnsorted_BruteForce)
  // ---------------------------------------------------------------------

  /** `t` with every copy of `x` overwritten by the sentinel. */
  function Mark(t: seq<int>, x: int, sentinel: int): (r: seq<int>)
    ensures |r| == |t|
    ensures forall k :: 0 <= k < |t| ==> r[k] == if t[k] == x then sentinel else t[k]
  {
    if t == [] then [] else [if t[0] == x then sentinel else t[0]] + Mark(t[1..], x, sentinel)
  }

  /**
   * The pairs the brute force reports from the scratch copy `t`: an unmarked
   * head is counted against the rest, its later copies are marked, and it is
   * reported when it occurs more than once.
   */
  function BruteDuplicates(t: seq<int>, sentinel: int): seq<(int, nat)>
    decreases |t|
  {
    if t == [] then []
    else if t[0] == sentinel then BruteDuplicates(t[1..], sentinel)
    else
      var c := 1 + Occurrences(t[1..], t[0]);
      (if c > 1 then [(t[0], c)] else []) + BruteDuplicates(Mark(t[1..], t[0], sentinel), sentinel)
  }

  /** Marking removes every copy of `x` and leaves other non-sentinel counts alone. */
  lemma {:induction false} MarkOccurrences(t: seq<int>, x: int, sentinel: int, v: int)
    requires v != sentinel
    ensures Occurrences(Mark(t, x, sentinel), v) == if v == x then 0 else Occurrences(t, v)
  {
    if t != [] {
      MarkOccurrences(t[1..], x, sentinel, v);
      assert t == [t[0]] + t[1..];
      assert Mark(t, x, sentinel) == [Mark(t, x, sentinel)[0]] + Mark(t[1..], x, sentinel);
    }
  }

  /** For values other than the head and the sentinel, marking the tail keeps first positions one step behind. */
  lemma {:induction false} MarkFirstIndex(t: seq<int>, sentinel: int, v: int)
    requires t != [] && v != sentinel && v != t[0] && v in Mark(t[1..], t[0], sentinel)
    ensures v in t && FirstIndex(t, v) == FirstIndex(Mark(t[1..], t[0], sentinel), v) + 1
  {
    var m := Mark(t[1..], t[0], sentinel);
    var k := FirstIndex(m, v);
    assert t[k + 1] == v;
    forall p | 0 <= p < k + 1 ensures t[p] != v {
      if p > 0 {
        assert m[p - 1] != v;
      }
    }
    assert v !in t[..k + 1];
  }

  /**
   * What the brute force reports from scratch copy `t`: exactly the
   * non-sentinel values occurring more than once, each with its number of
   * occurrences, in order of first occurrence.
   */
  ghost predicate BruteReport(t: seq<int>, sentinel: int) {
    var r := BruteDuplicates(t, sentinel);
    (forall v, c :: (v, c) in r <==> v != sentinel && c == Occurrences(t, v) && c > 1) &&
    (forall p :: 0 <= p < |r| ==> r[p].0 in t) &&
    forall p, q :: 0 <= p < q < |r| ==> FirstIndex(t, r[p].0) < FirstIndex(t, r[q].0)
  }

  /** A sentinel head is skipped without changing the report. */
  lemma {:induction false} BruteReportSkip(t: seq<int>, sentinel: int)
    requires t != [] && t[0] == sentinel && BruteReport(t[1..], sentinel)
    ensures BruteReport(t, sentinel)
  {
    assert t == [t[0]] + t[1..];
    var r := BruteDuplicates(t[1..], sentinel);
    forall p | 0 <= p < |r| ensures r[p].0 in t && FirstIndex(t, r[p].0) == FirstIndex(t[1..], r[p].0) + 1 {
      var v := r[p].0;
      assert r[p] in r;
      var k := FirstIndex(t[1..], v);
      assert t[..k + 1] == [t[0]] + t[1..][..k];
    }
  }

  /** Counting and marking an unmarked head keeps the report exact. */
  lemma {:induction false} BruteReportHead(t: seq<int>, sentinel: int)
    requires t != [] && t[0] != sentinel
    requires BruteReport(Mark(t[1..], t[0], sentinel), sentinel)
    ensures BruteReport(t, sentinel)
  {
    var x := t[0];
    var rest := BruteDuplicates(Mark(t[1..], x, sentinel), sentinel);
    var c := 1 + Occurrences(t[1..], x);
    var head: seq<(int, nat)> := if c > 1 then [(x, c)] else [];
    assert BruteDuplicates(t, sentinel) == head + rest;
    BruteHeadMembers(t, sentinel);
    BruteHeadFirst(t, sentinel);
    AppendFirstOrder(t, head, rest);
  }

  /** The pairs reported from `t` are those of its head and of the marked tail. */
  lemma {:induction false} BruteHeadMembers(t: seq<int>, sentinel: int)
    requires t != [] && t[0] != sentinel
    requires var m := Mark(t[1..], t[0], sentinel);
             forall v, c :: (v, c) in BruteDuplicates(m, sentinel) <==> v != sentinel && c == Occurrences(m, v) && c > 1
    ensures forall v, n :: (v, n) in BruteDuplicates(t, sentinel) <==> v != sentinel && n == Occurrences(t, v) && n > 1
  {
    var x := t[0];
    var m := Mark(t[1..], x, sentinel);
    var rest := BruteDuplicates(m, sentinel);
    var c := 1 + Occurrences(t[1..], x);
    var head: seq<(int, nat)> := if c > 1 then [(x, c)] else [];
    var r := BruteDuplicates(t, sentinel);
    assert r == head + rest;
    BruteHeadCounts(t, sentinel);
    forall v, n ensures (v, n) in r <==> v != sentinel && n == Occurrences(t, v) && n > 1 {
      BruteMemberAt(x, sentinel, c, head, rest, v, n, Occurrences(t, v), Occurrences(m, v));
    }
  }

  /** One pair of `BruteReportHead`: the head's own pair, or a pair of the marked rest. */
  lemma {:induction false} BruteMemberAt(x: int, sentinel: int, c: nat, head: seq<(int, nat)>, rest: seq<(int, nat)>,
                      v: int, n: nat, inT: nat, inM: nat)
    requires x != sentinel && head == if c > 1 then [(x, c)] else []
    requires (v, n) in rest <==> v != sentinel && n == inM && n > 1
    requires v == x ==> inT == c
    requires v != sentinel ==> inM == if v == x then 0 else inT
    ensures (v, n) in head + rest <==> v != sentinel && n == inT && n > 1
  {
  }

  /**
   * Prefixing at most one pair whose value is `t`'s head keeps the report in
   * order of first occurrence, given that every later value first occurs after the head.
   */
  lemma {:induction false} AppendFirstOrder(t: seq<int>, head: seq<(int, nat)>, rest: seq<(int, nat)>)
    requires t != [] && |head| <= 1 && (|head| == 1 ==> head[0].0 == t[0])
    requires forall p :: 0 <= p < |rest| ==> rest[p].0 in t && 0 < FirstIndex(t, rest[p].0)
    requires forall p, q :: 0 <= p < q < |rest| ==> FirstIndex(t, rest[p].0) < FirstIndex(t, rest[q].0)
    ensures var r := head + rest;
            (forall p :: 0 <= p < |r| ==> r[p].0 in t) &&
            forall p, q :: 0 <= p < q < |r| ==> FirstIndex(t, r[p].0) < FirstIndex(t, r[q].0)
  {
    AppendFirstMembers(t, head, rest);
    AppendFirstSorted(t, head, rest);
  }

  /** Every value of the prefixed report occurs in `t`. */
  lemma {:induction false} AppendFirstMembers(t: seq<int>, head: seq<(int, nat)>, rest: seq<(int, nat)>)
    requires t != [] && |head| <= 1 && (|head| == 1 ==> head[0].0 == t[0])
    requires forall p :: 0 <= p < |rest| ==> rest[p].0 in t
    ensures var r := head + rest;
            forall p :: 0 <= p < |r| ==> r[p].0 in t
  {
    var r := head + rest;
    forall p | 0 <= p < |r| ensures r[p].0 in t {
      if p >= |head| {
        assert r[p] == rest[p - |head|];
      }
    }
  }

  /** The prefixed report is in order of first occurrence in `t`. */
  lemma {:induction false} AppendFirstSorted(t: seq<int>, head: seq<(int, nat)>, rest: seq<(int, nat)>)
    requires t != [] && |head| <= 1 && (|head| == 1 ==> head[0].0 == t[0])
    requires forall p :: 0 <= p < |rest| ==> rest[p].0 in t && 0 < FirstIndex(t, rest[p].0)
    requires forall p, q :: 0 <= p < q < |rest| ==> FirstIndex(t, rest[p].0) < FirstIndex(t, rest[q].0)
    ensures var r := head + rest;
            (forall p :: 0 <= p < |r| ==> r[p].0 in t) &&
            forall p, q :: 0 <= p < q < |r| ==> FirstIndex(t, r[p].0) < FirstIndex(t, r[q].0)
  {
    AppendFirstMembers(t, head, rest);
    var r := head + rest;
    forall p, q | 0 <= p < q < |r| ensures FirstIndex(t, r[p].0) < FirstIndex(t, r[q].0) {
      if p < |head| {
        assert r[q] == rest[q - |head|];
      } else {
        assert r[p] == rest[p - |head|] && r[q] == rest[q - |head|];
      }
    }
  }

  /** After marking, counts of the head drop to zero and other counts match the whole copy. */
  lemma {:induction false} BruteHeadCounts(t: seq<int>, sentinel: int)
    requires t != [] && t[0] != sentinel
    ensures forall v :: v != sentinel ==>
              Occurrences(Mark(t[1..], t[0], sentinel), v) == if v == t[0] then 0 else Occurrences(t, v)
    ensures Occurrences(t, t[0]) == 1 + Occurrences(t[1..], t[0])
  {
    assert t == [t[0]] + t[1..];
    forall v | v != sentinel
      ensures Occurrences(Mark(t[1..], t[0], sentinel), v) == if v == t[0] then 0 else Occurrences(t, v)
    {
      MarkOccurrences(t[1..], t[0], sentinel, v);
    }
  }

  /** Values reported after the head first occur after it, one position later than in the marked tail. */
  lemma {:induction false} BruteHeadFirst(t: seq<int>, sentinel: int)
    requires t != [] && t[0] != sentinel
    requires BruteReport(Mark(t[1..], t[0], sentinel), sentinel)
    ensures var rest := BruteDuplicates(Mark(t[1..], t[0], sentinel), sentinel);
            forall p :: 0 <= p < |rest| ==>
              rest[p].0 != t[0] && rest[p].0 in t &&
              0 < FirstIndex(t, rest[p].0) == FirstIndex(Mark(t[1..], t[0], sentinel), rest[p].0) + 1
    ensures var rest := BruteDuplicates(Mark(t[1..], t[0], sentinel), sentinel);
            forall p, q :: 0 <= p < q < |rest| ==> FirstIndex(t, rest[p].0) < FirstIndex(t, rest[q].0)
  {
    var m := Mark(t[1..], t[0], sentinel);
    var rest := BruteDuplicates(m, sentinel);
    BruteHeadCounts(t, sentinel);
    forall p | 0 <= p < |rest|
      ensures rest[p].0 != t[0] && rest[p].0 in t && 0 < FirstIndex(t, rest[p].0) == FirstIndex(m, rest[p].0) + 1
    {
      assert rest[p] in rest;
      MarkFirstIndex(t, sentinel, rest[p].0);
    }
    FirstOrderShift(t, m, rest);
  }

  /** First positions that all move one step keep their order. */
  lemma {:induction false} FirstOrderShift(t: seq<int>, m: seq<int>, rest: seq<(int, nat)>)
    requires forall p :: 0 <= p < |rest| ==> rest[p].0 in m
    requires forall p :: 0 <= p < |rest| ==> rest[p].0 in t && FirstIndex(t, rest[p].0) == FirstIndex(m, rest[p].0) + 1
    requires forall p, q :: 0 <= p < q < |rest| ==> FirstIndex(m, rest[p].0) < FirstIndex(m, rest[q].0)
    ensures forall p, q :: 0 <= p < q < |rest| ==> FirstIndex(t, rest[p].0) < FirstIndex(t, rest[q].0)
  {
  }

  /** The brute force's report is exact, by induction on the scratch copy. */
  lemma {:induction false} BruteDuplicatesSpec(t: seq<int>, sentinel: int)
    ensures BruteReport(t, sentinel)
    decreases |t|
  {
    if t != [] {
      if t[0] == sentinel {
        BruteDuplicatesSpec(t[1..], sentinel);
        BruteReportSkip(t, sentinel);
      } else {
        BruteDuplicatesSpec(Mark(t[1..], t[0], sentinel), sentinel);
        BruteReportHead(t, sentinel);
      }
    }
  }

  /** The sentinel is never reported, however often it occurs. */
  lemma {:induction false} BruteDuplicatesSentinel()
    ensures BruteDuplicates([0, 0, 5, 5], 0) == [(5, 2)]
    ensures BruteDuplicates([-1, -1, 5, 5], -1) == [(5, 2)]
    ensures BruteDuplicates([0, 0, 5, 5], -1) == [(0, 2), (5, 2)]
  {
    assert [0, 0, 5, 5][1..] == [0, 5, 5];
    assert [-1, -1, 5, 5][1..] == [-1, 5, 5];
    assert Mark([0, 5, 5], 0, -1) == [-1, 5, 5];
    assert Mark([5], 5, 0) == [0];
    assert Mark([5], 5, -1) == [-1];
  }
}

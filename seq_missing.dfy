/**
 * Missing-element detection on the live contents: the difference method on
 * sorted input (single and multiple), the presence-table method on unsorted
 * input, and the XOR method. Each function says what the corresponding
 * routine returns or prints.
 */
module SeqMissing {
  import opened SeqOrder
  import opened Wrappers

  /** The integers `lo, lo + 1, ..., hi - 1`. */
  function Range(lo: int, hi: int): (r: seq<int>)
    ensures |r| == if lo < hi then hi - lo else 0
    ensures forall k :: 0 <= k < |r| ==> r[k] == lo + k
  {
    if lo < hi then seq(hi - lo, k => lo + k) else []
  }

  /** Membership in a range is the interval test. */
  lemma {:induction false} RangeElements(lo: int, hi: int, v: int)
    ensures v in Range(lo, hi) <==> lo <= v < hi
  {
    if lo <= v < hi {
      assert Range(lo, hi)[v - lo] == v;
    }
  }

  /** A range is strictly ascending. */
  lemma {:induction false} RangeStrictlySorted(lo: int, hi: int)
    ensures StrictlySorted(Range(lo, hi))
  {
  }

  /** A range grows at the top one value at a time. */
  lemma {:induction false} RangeSnoc(lo: int, hi: int)
    requires lo <= hi
    ensures Range(lo, hi + 1) == Range(lo, hi) + [hi]
  {
  }

  /** A range shrinks at the bottom one value at a time. */
  lemma {:induction false} RangeCons(lo: int, hi: int)
    requires lo < hi
    ensures Range(lo, hi) == [lo] + Range(lo + 1, hi)
  {
  }

  // ---------------------------------------------------------------------
  // Difference method, single missing element (FindSingleMissingElementSorted)
  // ---------------------------------------------------------------------

  /** The scan from index `i` for the first `A[i] - i` that differs from `d`. */
  function FirstGapFrom(s: seq<int>, i: nat, d: int): Option<int>
    requires i <= |s|
    decreases |s| - i
  {
    if i == |s| then None
    else if s[i] - i != d then Some(i + d)
    else FirstGapFrom(s, i + 1, d)
  }

  /** The value `FindSingleMissingElementSorted` returns. */
  function FirstGap(s: seq<int>): Option<int> {
    if s == [] then None else FirstGapFrom(s, 0, s[0])
  }

  /** Every integer in `[lo, hi]` occurs in `s`. */
  ghost predicate Covers(s: seq<int>, lo: int, hi: int) {
    forall w :: lo <= w <= hi ==> w in s
  }

  /** Past a prefix that is exactly `d, d+1, ...`, the scan finds the first break. */
  lemma {:induction false} FirstGapFromSpec(s: seq<int>, i: nat, d: int)
    requires StrictlySorted(s) && 0 < i <= |s|
    requires forall j :: 0 <= j < i ==> s[j] == d + j
    ensures FirstGapFrom(s, i, d).None? ==> forall j :: 0 <= j < |s| ==> s[j] == d + j
    ensures FirstGapFrom(s, i, d).Some? ==>
              exists g :: 0 < g < |s| && FirstGapFrom(s, i, d).value == d + g &&
                          s[g] > d + g && forall j :: 0 <= j < g ==> s[j] == d + j
    decreases |s| - i
  {
    if i < |s| {
      if s[i] - i != d {
        assert s[i] > s[i - 1] == d + i - 1;
        assert FirstGapFrom(s, i, d).value == d + i;
      } else {
        FirstGapFromSpec(s, i + 1, d);
      }
    }
  }

  /**
   * On strictly ascending input the difference method returns the least
   * integer missing from `[A[0], A[length-1]]`, or nothing when that range is
   * complete.
   */
  lemma {:induction false} FirstGapIsLeastMissing(s: seq<int>)
    requires StrictlySorted(s) && s != []
    ensures FirstGap(s).None? <==> Covers(s, s[0], s[|s| - 1])
    ensures FirstGap(s).Some? ==>
              var v := FirstGap(s).value;
              s[0] < v < s[|s| - 1] && v !in s && Covers(s, s[0], v - 1)
  {
    var d := s[0];
    assert FirstGap(s) == FirstGapFrom(s, 1, d);
    FirstGapFromSpec(s, 1, d);
    if FirstGap(s).None? {
      forall w | d <= w <= s[|s| - 1] ensures w in s {
        assert s[w - d] == w;
      }
    } else {
      var g :| 0 < g < |s| && FirstGap(s).value == d + g &&
               s[g] > d + g && forall j :: 0 <= j < g ==> s[j] == d + j;
      var v := d + g;
      assert s[g] <= s[|s| - 1];
      forall j | 0 <= j < |s| ensures s[j] != v {
        if j < g {
          assert s[j] == d + j;
        } else {
          assert s[g] <= s[j];
        }
      }
      forall w | d <= w <= v - 1 ensures w in s {
        assert s[w - d] == w;
      }
      assert !Covers(s, s[0], s[|s| - 1]) by {
        assert s[0] <= v <= s[|s| - 1] && v !in s;
      }
    }
  }

  /** The worked example: [1, 2, 4, 5] is missing 3. */
  lemma {:induction false} FirstGapExample()
    ensures FirstGap([1, 2, 4, 5]) == Some(3)
  {
  }

  // ---------------------------------------------------------------------
  // Difference method, all missing elements (FindMultipleMissingElementsSorted)
  // ---------------------------------------------------------------------

  /**
   * The values printed from index `i` on, with running difference `d`: a gap
   * at `i` prints `i + d, ..., A[i] - 1` and raises `d` to `A[i] - i`.
   */
  function MissingFrom(s: seq<int>, i: nat, d: int): seq<int>
    requires i <= |s|
    decreases |s| - i
  {
    if i == |s| then []
    else if s[i] - i != d && d < s[i] - i then Range(i + d, s[i]) + MissingFrom(s, i + 1, s[i] - i)
    else MissingFrom(s, i + 1, d)
  }

  /** The values `FindMultipleMissingElementsSorted` prints, in order. */
  function MissingSorted(s: seq<int>): seq<int> {
    if s == [] then [] else MissingFrom(s, 0, s[0])
  }

  /** Concatenating strictly ascending runs separated by a bound stays strictly ascending. */
  lemma {:induction false} AppendStrictlySorted(x: seq<int>, y: seq<int>, m: int)
    requires StrictlySorted(x) && StrictlySorted(y)
    requires forall k :: 0 <= k < |x| ==> x[k] < m
    requires forall k :: 0 <= k < |y| ==> m < y[k]
    ensures StrictlySorted(x + y)
  {
  }

  /** Strictly between two neighbours of an ascending array lies no element. */
  lemma {:induction false} BetweenNeighboursAbsent(s: seq<int>, i: nat, v: int)
    requires StrictlySorted(s) && 0 < i < |s| && s[i - 1] < v < s[i]
    ensures v !in s
  {
    forall j | 0 <= j < |s| ensures s[j] != v {
      if j < i {
        assert s[j] <= s[i - 1];
      } else {
        assert s[i] <= s[j];
      }
    }
  }

  /** One step of the sorted scan prints the values strictly between `A[i-1]` and `A[i]`. */
  lemma {:induction false} MissingFromStep(s: seq<int>, i: nat)
    requires StrictlySorted(s) && 0 < i < |s|
    ensures MissingFrom(s, i, s[i - 1] - (i - 1)) ==
            Range(s[i - 1] + 1, s[i]) + MissingFrom(s, i + 1, s[i] - i)
  {
    assert s[i - 1] < s[i];
  }

  /** The scan from `i` reports exactly the absent values above `A[i-1]`, ascending. */
  lemma {:induction false} MissingFromSpec(s: seq<int>, i: nat)
    requires StrictlySorted(s) && 0 < i <= |s|
    ensures var r := MissingFrom(s, i, s[i - 1] - (i - 1));
            StrictlySorted(r) &&
            (forall k :: 0 <= k < |r| ==> s[i - 1] < r[k]) &&
            forall v :: v in r <==> s[i - 1] < v <= s[|s| - 1] && v !in s
    decreases |s| - i
  {
    if i < |s| {
      var rest := MissingFrom(s, i + 1, s[i] - i);
      var gap := Range(s[i - 1] + 1, s[i]);
      MissingFromStep(s, i);
      assert MissingFrom(s, i, s[i - 1] - (i - 1)) == gap + rest;
      MissingFromSpec(s, i + 1);
      GapThenRest(s, i, gap, rest);
    }
  }

  /** The gap below `A[i]` followed by the later report is the report from `i`. */
  lemma {:induction false} GapThenRest(s: seq<int>, i: nat, gap: seq<int>, rest: seq<int>)
    requires StrictlySorted(s) && 0 < i < |s| && gap == Range(s[i - 1] + 1, s[i])
    requires StrictlySorted(rest) && forall k :: 0 <= k < |rest| ==> s[i] < rest[k]
    requires forall v :: v in rest <==> s[i] < v <= s[|s| - 1] && v !in s
    ensures var r := gap + rest;
            StrictlySorted(r) &&
            (forall k :: 0 <= k < |r| ==> s[i - 1] < r[k]) &&
            forall v :: v in r <==> s[i - 1] < v <= s[|s| - 1] && v !in s
  {
    RangeStrictlySorted(s[i - 1] + 1, s[i]);
    assert s[i - 1] < s[i] <= s[|s| - 1];
    AppendStrictlySorted(gap, rest, s[i]);
    forall v ensures v in gap + rest <==> s[i - 1] < v <= s[|s| - 1] && v !in s {
      MissingFromMember(s, i, gap, rest, v);
    }
  }

  /** One value of `MissingFromSpec`: it lies in the gap below `A[i]` or is reported later. */
  lemma {:induction false} MissingFromMember(s: seq<int>, i: nat, gap: seq<int>, rest: seq<int>, v: int)
    requires StrictlySorted(s) && 0 < i < |s| && gap == Range(s[i - 1] + 1, s[i])
    requires v in rest <==> s[i] < v <= s[|s| - 1] && v !in s
    ensures v in gap + rest <==> s[i - 1] < v <= s[|s| - 1] && v !in s
  {
    RangeElements(s[i - 1] + 1, s[i], v);
    assert s[i - 1] < s[i] <= s[|s| - 1];
    if s[i - 1] < v < s[i] {
      BetweenNeighboursAbsent(s, i, v);
    }
  }

  /**
   * On strictly ascending input the sorted method prints, in ascending order,
   * exactly the integers of `[A[0], A[length-1]]` that are absent.
   */
  lemma {:induction false} MissingSortedIsAbsentRange(s: seq<int>)
    requires StrictlySorted(s) && s != []
    ensures StrictlySorted(MissingSorted(s))
    ensures forall v :: v in MissingSorted(s) <==> s[0] <= v <= s[|s| - 1] && v !in s
  {
    assert MissingSorted(s) == MissingFrom(s, 1, s[0]);
    MissingFromSpec(s, 1);
  }

  /** With duplicates the sorted method can miss a gap: [1, 1, 3] reports nothing although 2 is absent. */
  lemma {:induction false} MissingSortedNeedsDistinct()
    ensures MissingSorted([1, 1, 3]) == []
  {
  }

  // ---------------------------------------------------------------------
  // Presence-table method (FindMultipleMissingElementsHash)
  // ---------------------------------------------------------------------

  /** The values of `[lo, hi)` absent from `s`, ascending. */
  function Absent(s: seq<int>, lo: int, hi: int): seq<int>
    decreases hi - lo
  {
    if hi <= lo then [] else Absent(s, lo, hi - 1) + (if hi - 1 in s then [] else [hi - 1])
  }

  /** `Absent` lists exactly the absent values of the interval, strictly ascending. */
  lemma {:induction false} AbsentSpec(s: seq<int>, lo: int, hi: int)
    ensures StrictlySorted(Absent(s, lo, hi))
    ensures forall v :: v in Absent(s, lo, hi) <==> lo <= v < hi && v !in s
    decreases hi - lo
  {
    if lo < hi {
      AbsentSpec(s, lo, hi - 1);
      var p := Absent(s, lo, hi - 1);
      assert forall k :: 0 <= k < |p| ==> p[k] in p;
    }
  }

  /**
   * What `FindMultipleMissingElementsHash` prints: nothing for an empty array,
   * when the minimum or maximum is -1 (read as a failed lookup), or when all
   * values are equal; otherwise the absent values of `[min, max]`.
   */
  function HashMissing(s: seq<int>): seq<int> {
    if s == [] then []
    else
      var lo, hi := SeqMin(s), SeqMax(s);
      if lo == -1 || hi == -1 then []
      else if lo == hi then []
      else Absent(s, lo, hi + 1)
  }

  /** The presence-table method reports exactly the gaps of `[min, max]`, in order, except for the -1 bail-out. */
  lemma {:induction false} HashMissingSpec(s: seq<int>)
    ensures StrictlySorted(HashMissing(s))
    ensures forall v :: v in HashMissing(s) <==>
              s != [] && SeqMin(s) != -1 && SeqMax(s) != -1 &&
              SeqMin(s) <= v <= SeqMax(s) && v !in s
  {
    if s != [] {
      AbsentSpec(s, SeqMin(s), SeqMax(s) + 1);
    }
  }

  /** An array whose minimum is -1 gets no report even when it has gaps. */
  lemma {:induction false} HashMissingMinusOneQuirk()
    ensures HashMissing([-1, 2]) == []
    ensures MissingSorted([-1, 2]) == [0, 1]
  {
    assert SeqMin([-1, 2]) == -1;
    assert MissingFrom([-1, 2], 1, -1) == Range(0, 2) + MissingFrom([-1, 2], 2, 1);
    assert Range(0, 2) == [0, 1];
  }

  // ---------------------------------------------------------------------
  // XOR method (FindSingleMissingElementUnsortedOptimal)
  // ---------------------------------------------------------------------

  /** Bitwise exclusive or of two non-negative bit patterns. */
  function Xor(a: nat, b: nat): nat
    decreases a + b
  {
    if a == 0 then b
    else if b == 0 then a
    else 2 * Xor(a / 2, b / 2) + (if a % 2 == b % 2 then 0 else 1)
  }

  /** The bit-by-bit reading of `Xor` holds for every pair, zeros included. */
  lemma {:induction false} XorSplit(a: nat, b: nat)
    ensures Xor(a, b) == 2 * Xor(a / 2, b / 2) + (if a % 2 == b % 2 then 0 else 1)
  {
    if a == 0 && b != 0 {
      assert Xor(0, b / 2) == b / 2;
    } else if b == 0 && a != 0 {
      assert Xor(a / 2, 0) == a / 2;
    }
  }

  /** Exclusive or is commutative. */
  lemma {:induction false} XorComm(a: nat, b: nat)
    ensures Xor(a, b) == Xor(b, a)
    decreases a + b
  {
    if a != 0 && b != 0 {
      XorComm(a / 2, b / 2);
    }
  }

  /** Every pattern cancels itself. */
  lemma {:induction false} XorSelf(a: nat)
    ensures Xor(a, a) == 0
    decreases a
  {
    if a != 0 {
      XorSelf(a / 2);
    }
  }

  /** Exclusive or is associative. */
  lemma {:induction false} XorAssoc(a: nat, b: nat, c: nat)
    ensures Xor(Xor(a, b), c) == Xor(a, Xor(b, c))
    decreases a + b + c
  {
    if a + b + c != 0 {
      XorSplit(a, b);
      XorSplit(b, c);
      var ab, bc := Xor(a, b), Xor(b, c);
      XorSplit(ab, c);
      XorSplit(a, bc);
      assert ab / 2 == Xor(a / 2, b / 2);
      assert bc / 2 == Xor(b / 2, c / 2);
      XorAssoc(a / 2, b / 2, c / 2);
    }
  }

  /** XOR-ing a pattern in twice leaves the other operand. */
  lemma {:induction false} XorCancel(x: nat, y: nat, z: nat)
    requires z == Xor(x, y)
    ensures Xor(x, z) == y
  {
    XorAssoc(x, x, y);
    XorSelf(x);
  }

  /** The 32-bit two's-complement pattern of an `int`, read as an unsigned number. */
  function Bits(x: int): (b: nat)
    ensures b < 0x1_0000_0000
  {
    x % 0x1_0000_0000
  }

  /** The 32-bit `int` whose two's-complement pattern is `b`. */
  function Signed(b: nat): int {
    if b < 0x8000_0000 then b else b - 0x1_0000_0000
  }

  /** A value of 32-bit `int` survives the round trip through its bit pattern. */
  lemma {:induction false} SignedBits(x: int)
    requires -0x8000_0000 <= x < 0x8000_0000
    ensures Signed(Bits(x)) == x
  {
  }

  /** The XOR of the bit patterns of all elements. */
  function XorAll(s: seq<int>): nat {
    if s == [] then 0 else Xor(XorAll(s[..|s| - 1]), Bits(s[|s| - 1]))
  }

  /** XOR over a concatenation. */
  lemma {:induction false} XorAllAppend(a: seq<int>, b: seq<int>)
    ensures XorAll(a + b) == Xor(XorAll(a), XorAll(b))
    decreases |b|
  {
    if b == [] {
      assert a + b == a;
    } else {
      var b' := b[..|b| - 1];
      var e := b[|b| - 1];
      assert (a + b)[..|a + b| - 1] == a + b';
      XorAllAppend(a, b');
      XorAssoc(XorAll(a), XorAll(b'), Bits(e));
    }
  }

  /** XOR depends only on the multiset of elements, not their order. */
  lemma {:induction false} XorAllPermutation(a: seq<int>, b: seq<int>)
    requires multiset(a) == multiset(b)
    ensures XorAll(a) == XorAll(b)
    decreases |a|
  {
    if a == [] {
      assert |b| == |multiset(b)| == 0;
    } else {
      var e := a[|a| - 1];
      var a' := a[..|a| - 1];
      assert a == a' + [e];
      assert e in multiset(b);
      var k :| 0 <= k < |b| && b[k] == e;
      var p, q := b[..k], b[k + 1..];
      assert b == p + [e] + q;
      assert multiset(a') == multiset(a) - multiset{e};
      assert multiset(p + q) == multiset(b) - multiset{e};
      XorAllPermutation(a', p + q);
      XorAllAppend(p + [e], q);
      XorAllSnoc(p, e);
      XorAllAppend(p, q);
      XorRotate(XorAll(p), Bits(e), XorAll(q));
    }
  }

  /** A middle operand can be moved to the end. */
  lemma {:induction false} XorRotate(p: nat, e: nat, q: nat)
    ensures Xor(Xor(p, e), q) == Xor(Xor(p, q), e)
  {
    XorAssoc(p, e, q);
    XorComm(e, q);
    XorAssoc(p, q, e);
  }

  /**
   * The value `FindSingleMissingElementUnsortedOptimal` returns for a
   * non-empty array: all elements XOR every integer of `[min, min + length]`.
   */
  function XorMissing(s: seq<int>): int
    requires s != []
  {
    Signed(Xor(XorAll(s), XorAll(Range(SeqMin(s), SeqMin(s) + |s| + 1))))
  }

  /**
   * When the elements are exactly `[min, min + length]` with one value taken
   * out, the XOR method returns that value.
   */
  lemma {:induction false} XorMissingFindsGap(s: seq<int>, v: int)
    requires s != [] && -0x8000_0000 <= v < 0x8000_0000
    requires multiset(s) + multiset{v} == multiset(Range(SeqMin(s), SeqMin(s) + |s| + 1))
    ensures XorMissing(s) == v
  {
    var r := Range(SeqMin(s), SeqMin(s) + |s| + 1);
    XorRecover(s, v, r);
    assert XorMissing(s) == Signed(Xor(XorAll(s), XorAll(r)));
  }

  /** XOR-ing the elements with a sequence that holds them plus `v` recovers `v`. */
  lemma {:induction false} XorRecover(s: seq<int>, v: int, r: seq<int>)
    requires -0x8000_0000 <= v < 0x8000_0000
    requires multiset(s) + multiset{v} == multiset(r)
    ensures Signed(Xor(XorAll(s), XorAll(r))) == v
  {
    XorAllAddOne(s, v, r);
    XorCancel(XorAll(s), Bits(v), XorAll(r));
    SignedBits(v);
  }

  /** A sequence holding the elements of `s` plus `v` XORs to `s`'s pattern with `v`'s XOR-ed in. */
  lemma {:induction false} XorAllAddOne(s: seq<int>, v: int, r: seq<int>)
    requires multiset(s) + multiset{v} == multiset(r)
    ensures XorAll(r) == Xor(XorAll(s), Bits(v))
  {
    assert multiset(s + [v]) == multiset(r);
    XorAllPermutation(s + [v], r);
    XorAllSnoc(s, v);
  }

  /** Appending one element XORs in its pattern. */
  lemma {:induction false} XorAllSnoc(s: seq<int>, v: int)
    ensures XorAll(s + [v]) == Xor(XorAll(s), Bits(v))
  {
    assert (s + [v])[..|s|] == s;
  }

  /**
   * The method trusts its caller: on a range with no gap it reports one past
   * the largest element as missing.
   */
  lemma {:induction false} XorMissingUnchecked()
    ensures XorMissing([1, 2, 3]) == 4
  {
    var s := [1, 2, 3];
    assert s[..2] == [1, 2] && [1, 2][..1] == [1] && [1][..0] == [];
    assert Bits(1) == 1 && Bits(2) == 2 && Bits(3) == 3 && Bits(4) == 4;
    assert Xor(1, 2) == 2 * Xor(0, 1) + 1 == 3;
    assert Xor(3, 3) == 2 * Xor(1, 1) == 0;
    assert XorAll([1]) == 1;
    assert XorAll([1, 2]) == 3;
    assert XorAll(s) == 0;
    assert SeqMin(s) == 1;
    var r := Range(1, 5);
    assert r == [1, 2, 3, 4];
    assert r[..3] == s;
    assert XorAll(r) == Xor(0, 4) == 4;
  }
}

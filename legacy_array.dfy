/**
 * The fixed-capacity container of ArrayCPP/ArrayCPP/main.cpp: a buffer `A`
 * of `size` slots whose first `length` are live. It never grows: `Append`,
 * `Insert` and `InsertSort` refuse when full. Indices are signed, and errors
 * are the sentinels -1 or 0 (plus a printed message, here the `Outcome`).
 */
module LegacyArray {
  import opened Wrappers
  import opened SeqOrder
  import opened SeqSetOps
  import opened SeqMissing
  import opened ArrayEdits
  import ArraySetOps
  import ArraySearch
  import ArrayFinders

  /** What the sentinel-returning queries report: the value, or -1 for none. */
  function OrMinusOne(r: Option<int>): (v: int)
    ensures r.Some? ==> v == r.value
    ensures r.None? ==> v == -1
  {
    if r.Some? then r.value else -1
  }

  class Array {
    var A: array<int>
    var size: nat
    var length: nat

    /** The buffer has `size` slots and the live prefix fits in it. */
    ghost predicate Valid()
      reads this
    {
      A.Length == size && length <= size
    }

    /** The live contents `A[0..length)`. */
    function Elements(): (s: seq<int>)
      reads this, A
      requires Valid()
      ensures |s| == length
    {
      A[..length]
    }

    /** `Array(sz)`: an empty container with `sz` slots, or 10 when `sz` is 0. */
    constructor (sz: nat)
      ensures Valid() && fresh(A)
      ensures Elements() == [] && size == Capacity(sz)
    {
      size := Capacity(sz);
      length := 0;
      A := new int[Capacity(sz)];
    }

    /** The copy constructor: the same contents and capacity in a buffer of its own. */
    constructor Copy(other: Array)
      requires other.Valid()
      ensures Valid() && fresh(A) && size == other.size
      ensures Elements() == other.Elements()
    {
      size := other.size;
      length := other.length;
      var buf := new int[other.size];
      ArrayEdits.CopyPrefix(other.A, buf, other.length);
      A := buf;
    }

    /** `Append`: store `x` after the live contents, or refuse when full. */
    method Append(x: int) returns (r: Outcome)
      requires Valid()
      modifies this, A
      ensures Valid() && A == old(A) && size == old(size)
      ensures r == if old(length) < size then Pass else Fail(Full)
      ensures r.Pass? ==> Elements() == old(Elements()) + [x]
      ensures r.Fail? ==> Elements() == old(Elements()) && A[..] == old(A[..])
    {
      if length < size {
        ghost var before := Elements();
        A[length] := x;
        length := length + 1;
        assert Elements() == before + [x] by {
          assert A[..length - 1] == before;
        }
        return Pass;
      }
      return Fail(Full);
    }

    /** `Insert`: refuse when full or when `index` is outside `[0, length]`; otherwise shift and store. */
    method Insert(index: int, x: int) returns (r: Outcome)
      requires Valid()
      modifies this, A
      ensures Valid() && A == old(A) && size == old(size)
      ensures r == if old(length) >= size then Fail(Full)
                   else if 0 <= index <= old(length) then Pass
                   else Fail(OutOfRange)
      ensures r.Pass? ==> Elements() == InsertAt(old(Elements()), index, x)
      ensures r.Fail? ==> Elements() == old(Elements()) && A[..] == old(A[..])
    {
      if length >= size {
        return Fail(Full);
      }
      if 0 <= index <= length {
        ArrayEdits.ShiftInsert(A, length, index, x);
        length := length + 1;
        return Pass;
      }
      return Fail(OutOfRange);
    }

    /** `Delete`: the removed element, or 0 when empty or the index is not live. */
    method Delete(index: int) returns (x: int)
      requires Valid()
      modifies this, A
      ensures Valid() && A == old(A) && size == old(size)
      ensures 0 <= index < old(length) ==>
                x == old(Elements())[index] && Elements() == RemoveAt(old(Elements()), index)
      ensures !(0 <= index < old(length)) ==> x == 0 && Elements() == old(Elements())
    {
      x := 0;
      if length == 0 {
        return;
      }
      if 0 <= index < length {
        x := A[index];
        ArrayEdits.ShiftDelete(A, length, index);
        length := length - 1;
      }
    }

    /**
     * `LinearSearch`: a match at the front is passed over; the first match
     * after it is swapped one slot towards the front and its position before
     * the swap returned; -1 when there is none. The elements are only permuted.
     */
    method LinearSearch(key: int) returns (r: int)
      requires Valid()
      modifies A
      ensures Valid() && multiset(Elements()) == multiset(old(Elements()))
      ensures |old(Elements())| < 2 || key !in old(Elements())[1..] ==> r == -1 && Elements() == old(Elements())
      ensures |old(Elements())| >= 2 && key in old(Elements())[1..] ==>
                var f := FirstIndex(old(Elements())[1..], key) + 1;
                r == f && Elements() == Swap(old(Elements()), f - 1, f)
    {
      if length == 0 {
        return -1;
      }
      ghost var s := A[..length];
      r := ArrayEdits.LegacyTransposeSearch(A, length, key);
      if key in s[1..] {
        var f := FirstIndex(s[1..], key) + 1;
        assert A[..length] == Swap(s, f - 1, f);
        SwapMultiset(s, f - 1, f);
      } else {
        assert A[..length] == s;
      }
    }

    /** `BinarySearchLoop` over the closed window `[0, length - 1]`: -1 when not found. */
    method BinarySearchLoop(key: int) returns (r: int)
      requires Valid()
      ensures r == -1 || (0 <= r < length && Elements()[r] == key)
      ensures Sorted(Elements()) ==> (r == -1 <==> key !in Elements())
    {
      r := ArraySearch.LegacyBinarySearch(Elements(), key);
    }

    /** `Get`: the live element at `index`, or -1 outside `[0, length)`. */
    function Get(index: int): (r: int)
      reads this, A
      requires Valid()
      ensures 0 <= index < length ==> r == Elements()[index]
      ensures !(0 <= index < length) ==> r == -1
    {
      if 0 <= index < length then A[index] else -1
    }

    /** `Set`: overwrite one live slot, or refuse an index outside `[0, length)`. */
    method Set(index: int, x: int) returns (r: Outcome)
      requires Valid()
      modifies A
      ensures Valid()
      ensures r == if 0 <= index < length then Pass else Fail(OutOfRange)
      ensures r.Pass? ==> Elements() == old(Elements())[index := x]
      ensures r.Fail? ==> Elements() == old(Elements())
    {
      if 0 <= index < length {
        A[index] := x;
        return Pass;
      }
      return Fail(OutOfRange);
    }

    /** `Max`: the largest live element, or -1 when empty. */
    method Max() returns (m: int)
      requires Valid()
      ensures m == if Elements() == [] then -1 else SeqMax(Elements())
    {
      if length == 0 {
        return -1;
      }
      m := ArraySearch.MaxOf(Elements());
    }

    /** `Min`: the smallest live element, or -1 when empty. */
    method Min() returns (m: int)
      requires Valid()
      ensures m == if Elements() == [] then -1 else SeqMin(Elements())
    {
      if length == 0 {
        return -1;
      }
      m := ArraySearch.MinOf(Elements());
    }

    /** `Sum`: the running total from 0. */
    method Sum() returns (total: int)
      requires Valid()
      ensures total == SeqOrder.Sum(Elements())
    {
      total := ArraySearch.SumOf(Elements());
    }

    /** `Reverse` through a scratch buffer. */
    method Reverse()
      requires Valid()
      modifies A
      ensures Valid() && Elements() == Reversed(old(Elements()))
    {
      ArrayEdits.ReverseWithScratch(A, length);
    }

    /** `ReverseInPlace` by swapping from both ends. */
    method ReverseInPlace()
      requires Valid()
      modifies A
      ensures Valid() && Elements() == Reversed(old(Elements()))
    {
      ArrayEdits.ReverseInPlace(A, length);
    }

    /** `InsertSort`: refuse when full; otherwise insert `x` after every element not above it. */
    method InsertSort(x: int) returns (r: Outcome)
      requires Valid()
      modifies this, A
      ensures Valid() && A == old(A) && size == old(size)
      ensures r == if old(length) < size then Pass else Fail(Full)
      ensures r.Pass? ==> Elements() == InsertSorted(old(Elements()), x)
      ensures r.Fail? ==> Elements() == old(Elements()) && A[..] == old(A[..])
    {
      if length >= size {
        return Fail(Full);
      }
      ArrayEdits.InsertSortedShift(A, length, x);
      length := length + 1;
      return Pass;
    }

    /** `isSorted`: 1 when the live contents are ascending, 0 otherwise. */
    method IsSorted() returns (b: int)
      requires Valid()
      ensures b == if Sorted(Elements()) then 1 else 0
    {
      var sorted := ArraySearch.IsAscending(Elements());
      b := if sorted then 1 else 0;
    }

    /** `Rearrange`: a permutation placing every negative element before every other. */
    method Rearrange()
      requires Valid()
      modifies A
      ensures Valid() && multiset(Elements()) == multiset(old(Elements()))
      ensures NegativesFirst(Elements())
    {
      ArrayEdits.LegacyRearrange(A, length);
    }

    /** `Merge` into a new container of capacity `n + m`; ties come from `other` first. */
    method Merge(other: Array) returns (r: Array)
      requires Valid() && other.Valid()
      ensures fresh(r) && fresh(r.A) && r.Valid()
      ensures r.size == Capacity(length + other.length) && r.length == length + other.length
      ensures r.Elements() == LegacyMerge(Elements(), other.Elements())
    {
      r := new Array(length + other.length);
      var k := ArraySetOps.LegacyMergeInto(Elements(), other.Elements(), r.A);
      r.length := length + other.length;
    }

    /** `Union` into a new container of capacity `n + m`. */
    method Union(other: Array) returns (r: Array)
      requires Valid() && other.Valid()
      ensures fresh(r) && fresh(r.A) && r.Valid()
      ensures r.size == Capacity(length + other.length)
      ensures r.Elements() == SeqSetOps.Union(Elements(), other.Elements())
    {
      r := new Array(length + other.length);
      var k := ArraySetOps.UnionInto(Elements(), other.Elements(), r.A);
      r.length := k;
    }

    /** `Intersection` into a new container of capacity `n + m`. */
    method Intersection(other: Array) returns (r: Array)
      requires Valid() && other.Valid()
      ensures fresh(r) && fresh(r.A) && r.Valid()
      ensures r.size == Capacity(length + other.length)
      ensures r.Elements() == SeqSetOps.Intersection(Elements(), other.Elements())
    {
      r := new Array(length + other.length);
      var k := ArraySetOps.IntersectionInto(Elements(), other.Elements(), r.A);
      r.length := k;
    }

    /** `Difference` (this minus `other`) into a new container of capacity `n + m`. */
    method Difference(other: Array) returns (r: Array)
      requires Valid() && other.Valid()
      ensures fresh(r) && fresh(r.A) && r.Valid()
      ensures r.size == Capacity(length + other.length)
      ensures r.Elements() == SeqSetOps.Difference(Elements(), other.Elements())
    {
      r := new Array(length + other.length);
      var k := ArraySetOps.DifferenceInto(Elements(), other.Elements(), r.A);
      r.length := k;
    }

    /** `FindSingleMissingElementSorted`: the first break in the index-value difference, or -1. */
    method FindSingleMissingElementSorted() returns (r: int)
      requires Valid()
      ensures r == OrMinusOne(FirstGap(Elements()))
    {
      var gap := ArrayFinders.FirstGapScan(Elements());
      r := OrMinusOne(gap);
    }

    /**
     * `FindSingleMissingElementUnsortedOptimal`: the XOR method; -1 when
     * empty or when the minimum is -1 (read as a failed `Min`).
     */
    method FindSingleMissingElementUnsortedOptimal() returns (r: int)
      requires Valid()
      ensures Elements() == [] ==> r == -1
      ensures Elements() != [] ==> r == if SeqMin(Elements()) == -1 then -1 else XorMissing(Elements())
    {
      if length == 0 {
        return -1;
      }
      var lo := Min();
      if lo == -1 {
        return -1;
      }
      var x := ArrayFinders.XorScan(Elements());
      r := x.value;
    }

    /** `FindMultipleMissingElementsSorted`: the values it prints, in order. */
    method FindMultipleMissingElementsSorted() returns (out: seq<int>)
      requires Valid()
      ensures out == MissingSorted(Elements())
    {
      out := ArrayFinders.MissingSortedScan(Elements());
    }

    /** `FindMultipleMissingElementsHash`: the values it prints, in order. */
    method FindMultipleMissingElementsHash() returns (out: seq<int>)
      requires Valid()
      ensures out == HashMissing(Elements())
    {
      out := ArrayFinders.HashMissingScan(Elements());
    }
  }
}

/**
 * The `int` growable container (ArrayCPP/ArrayCPP/array.cpp), the same design
 * as the templated one: a buffer `A` of `size` slots whose first `length` are
 * live, null only after a move or a copy of a moved-from container, doubling
 * on demand. Most members repeat the templated container's line for line,
 * as the two source files do. The ones that differ are:
 * - `Delete` reports `EmptyArray` on an empty container before `OutOfRange`;
 * - `Sum` starts from 0 rather than from the first element;
 * - `Difference` allocates `n + m` slots and advances the receiver in its
 *   copy-rest loop, which the source omits;
 * - the brute-force duplicate finder marks with the sentinel -1;
 * - there are no pair-with-sum or min/max queries.
 */
module IntArray {
  import opened Wrappers
  import opened SeqOrder
  import opened SeqSetOps
  import opened SeqMissing
  import opened SeqDuplicates
  import opened ArrayEdits
  import ArraySetOps
  import ArraySearch
  import ArrayFinders

  class Array {
    var A: array?<int>
    var size: nat
    var length: nat

    /** The buffer has `size` slots and the live prefix fits in it. */
    ghost predicate Valid()
      reads this
    {
      (A == null ==> size == 0 && length == 0) &&
      (A != null ==> A.Length == size) &&
      length <= size
    }

    /** The live contents `A[0..length)`. */
    function Elements(): (s: seq<int>)
      reads this, A
      requires Valid()
      ensures |s| == length
    {
      if A == null then [] else A[..length]
    }

    /** `Array(sz)`: an empty container with `sz` slots, or 10 when `sz` is 0. */
    constructor (sz: nat)
      ensures Valid() && fresh(A)
      ensures Elements() == [] && size == Capacity(sz)
    {
      size := Capacity(sz);
      length := 0;
      A := new int[Capacity(sz)];
    }

    /** The copy constructor: the same contents and capacity in a buffer of its own. */
    constructor Copy(other: Array)
      requires other.Valid()
      ensures Valid() && size == other.size
      ensures Elements() == other.Elements()
      ensures A == null || fresh(A)
    {
      size := other.size;
      length := other.length;
      if other.size == 0 {
        A := null;
      } else {
        var buf := new int[other.size];
        ArrayEdits.CopyPrefix(other.A, buf, other.length);
        A := buf;
      }
    }

    /**
     * The move constructor: the contents and buffer are taken over and the
     * source is left empty with no buffer.
     */
    constructor Move(other: Array)
      requires other.Valid()
      modifies other
      ensures Valid() && other.Valid()
      ensures A == old(other.A) && size == old(other.size)
      ensures Elements() == old(other.Elements())
      ensures other.A == null && other.size == 0 && other.length == 0
    {
      A := other.A;
      size := other.size;
      length := other.length;
      new;
      other.A := null;
      other.size := 0;
      other.length := 0;
    }

    /**
     * Copy assignment: a no-op on itself; otherwise the contents and capacity
     * of `other` in a fresh buffer, `other` untouched.
     */
    method CopyAssign(other: Array)
      requires Valid() && other.Valid()
      modifies this
      ensures Valid()
      ensures other == this ==> A == old(A) && size == old(size) && Elements() == old(Elements())
      ensures other != this ==> fresh(A) && size == other.size && Elements() == old(other.Elements())
      ensures other != this ==> other.A == old(other.A) && other.Elements() == old(other.Elements())
    {
      if other == this {
        return;
      }
      var buf := new int[other.size];
      if other.A != null {
        ArrayEdits.CopyPrefix(other.A, buf, other.length);
      }
      A := buf;
      size := other.size;
      length := other.length;
    }

    /**
     * Move assignment: a no-op on itself; otherwise the buffer of `other` is
     * taken over and `other` is left empty with no buffer.
     */
    method MoveAssign(other: Array)
      requires Valid() && other.Valid()
      modifies this, other
      ensures Valid() && other.Valid()
      ensures other == this ==> A == old(A) && size == old(size) && Elements() == old(Elements())
      ensures other != this ==> A == old(other.A) && size == old(other.size) && Elements() == old(other.Elements())
      ensures other != this ==> other.A == null && other.size == 0 && other.length == 0
    {
      if other == this {
        return;
      }
      A, size, length := other.A, other.size, other.length;
      other.A, other.size, other.length := null, 0, 0;
    }

    /** `resize`: a fresh buffer of the grown capacity holding the live contents. */
    method Resize()
      requires Valid()
      modifies this
      ensures Valid() && fresh(A)
      ensures size == Grown(old(size)) && length == old(length)
      ensures Elements() == old(Elements())
    {
      var newA := new int[Grown(size)];
      if A != null {
        ArrayEdits.CopyPrefix(A, newA, length);
      }
      A := newA;
      size := Grown(size);
    }

    /** `Append`: grow when full, then store `x` after the live contents. */
    method Append(x: int)
      requires Valid()
      modifies this, A
      ensures Valid() && length == old(length) + 1
      ensures Elements() == old(Elements()) + [x]
      ensures size == if old(length) >= old(size) then Grown(old(size)) else old(size)
    {
      if length >= size {
        Resize();
      }
      ghost var before := Elements();
      A[length] := x;
      length := length + 1;
      assert Elements() == before + [x] by {
        assert A[..length - 1] == before;
      }
    }

    /**
     * `Insert`: grow when full, and only then check the index, so a refused
     * insertion may already have grown the buffer; the live contents never
     * change on refusal.
     */
    method Insert(index: nat, x: int) returns (r: Outcome)
      requires Valid()
      modifies this, A
      ensures Valid()
      ensures r == if index <= old(length) then Pass else Fail(OutOfRange)
      ensures r.Pass? ==> Elements() == InsertAt(old(Elements()), index, x)
      ensures r.Fail? ==> Elements() == old(Elements())
      ensures size == if old(length) >= old(size) then Grown(old(size)) else old(size)
    {
      if length >= size {
        Resize();
      }
      if index > length {
        return Fail(OutOfRange);
      }
      ArrayEdits.ShiftInsert(A, length, index, x);
      length := length + 1;
      return Pass;
    }

    /**
     * `Delete`: the removed element; `logic_error` on an empty container,
     * checked first, and `out_of_range` when the index is not live.
     */
    method Delete(index: nat) returns (r: Result<int>)
      requires Valid()
      modifies this, A
      ensures Valid() && size == old(size)
      ensures index < old(length) ==> r == Success(old(Elements())[index]) &&
                                      Elements() == RemoveAt(old(Elements()), index)
      ensures old(length) == 0 ==> r == Failure(EmptyArray)
      ensures 0 < old(length) <= index ==> r == Failure(OutOfRange)
      ensures r.Failure? ==> Elements() == old(Elements())
    {
      if length == 0 {
        return Failure(EmptyArray);
      }
      if index >= length {
        return Failure(OutOfRange);
      }
      var x := A[index];
      ArrayEdits.ShiftDelete(A, length, index);
      length := length - 1;
      return Success(x);
    }

    /** `Get`: the live element at `index`, or `None` past the live contents. */
    function Get(index: nat): (r: Option<int>)
      reads this, A
      requires Valid()
      ensures r.None? <==> index >= length
      ensures r.Some? ==> r.value == Elements()[index]
    {
      if index < length then Some(A[index]) else None
    }

    /** `Set`: overwrite one live slot, or `out_of_range`. */
    method Set(index: nat, x: int) returns (r: Outcome)
      requires Valid()
      modifies A
      ensures Valid()
      ensures r == if index < length then Pass else Fail(OutOfRange)
      ensures r.Pass? ==> Elements() == old(Elements())[index := x]
      ensures r.Fail? ==> Elements() == old(Elements())
    {
      if index >= length {
        return Fail(OutOfRange);
      }
      A[index] := x;
      return Pass;
    }

    /**
     * `LinearSearch` with transposition: the first match is swapped one slot
     * towards the front and its new position returned; a match at the front
     * stays. The elements are only ever permuted.
     */
    method LinearSearch(key: int) returns (r: Option<nat>)
      requires Valid()
      modifies A
      ensures Valid() && multiset(Elements()) == multiset(old(Elements()))
      ensures key !in old(Elements()) ==> r == None && Elements() == old(Elements())
      ensures key in old(Elements()) ==>
                var f := FirstIndex(old(Elements()), key);
                r == Some(if f == 0 then 0 else f - 1) &&
                Elements() == if f == 0 then old(Elements()) else Swap(old(Elements()), f - 1, f)
    {
      if A == null {
        return None;
      }
      ghost var s := A[..length];
      r := ArrayEdits.TransposeSearch(A, length, key);
      if key in s {
        var f := FirstIndex(s, key);
        if f > 0 {
          assert A[..length] == Swap(s, f - 1, f);
          SwapMultiset(s, f - 1, f);
        }
      }
    }

    /** `BinarySearchLoop` over `[0, length)`: complete on ascending contents. */
    method BinarySearchLoop(key: int) returns (r: Option<nat>)
      requires Valid()
      ensures r.Some? ==> r.value < length && Elements()[r.value] == key
      ensures Sorted(Elements()) ==> (r.None? <==> key !in Elements())
    {
      r := ArraySearch.BinarySearch(Elements(), key);
    }

    /** `Max`: the largest live element, or `logic_error` when empty. */
    method Max() returns (r: Result<int>)
      requires Valid()
      ensures Elements() == [] ==> r == Failure(EmptyArray)
      ensures Elements() != [] ==> r == Success(SeqMax(Elements()))
    {
      if length == 0 {
        return Failure(EmptyArray);
      }
      var m := ArraySearch.MaxOf(Elements());
      return Success(m);
    }

    /** `Min`: the smallest live element, or `logic_error` when empty. */
    method Min() returns (r: Result<int>)
      requires Valid()
      ensures Elements() == [] ==> r == Failure(EmptyArray)
      ensures Elements() != [] ==> r == Success(SeqMin(Elements()))
    {
      if length == 0 {
        return Failure(EmptyArray);
      }
      var m := ArraySearch.MinOf(Elements());
      return Success(m);
    }

    /** `Sum`: the running total from 0. */
    method Sum() returns (total: int)
      requires Valid()
      ensures total == SeqOrder.Sum(Elements())
    {
      total := ArraySearch.SumOf(Elements());
    }

    /** `isSorted`: whether the live contents are ascending. */
    method IsSorted() returns (b: bool)
      requires Valid()
      ensures b == Sorted(Elements())
    {
      b := ArraySearch.IsAscending(Elements());
    }

    /** `Reverse` through a scratch buffer. */
    method Reverse()
      requires Valid()
      modifies A
      ensures Valid() && Elements() == Reversed(old(Elements()))
    {
      if A != null {
        ArrayEdits.ReverseWithScratch(A, length);
      }
    }

    /** `ReverseInPlace` by swapping from both ends. */
    method ReverseInPlace()
      requires Valid()
      modifies A
      ensures Valid() && Elements() == Reversed(old(Elements()))
    {
      if A != null {
        ArrayEdits.ReverseInPlace(A, length);
      }
    }

    /** `InsertSort`: grow when full, then insert `x` after every element not above it. */
    method InsertSort(x: int)
      requires Valid()
      modifies this, A
      ensures Valid() && Elements() == InsertSorted(old(Elements()), x)
      ensures size == if old(length) >= old(size) then Grown(old(size)) else old(size)
    {
      if length >= size {
        Resize();
      }
      ArrayEdits.InsertSortedShift(A, length, x);
      length := length + 1;
    }

    /** `Rearrange`: a permutation placing every negative element before every other. */
    method Rearrange()
      requires Valid()
      modifies A
      ensures Valid() && multiset(Elements()) == multiset(old(Elements()))
      ensures NegativesFirst(Elements())
    {
      if A != null {
        ArrayEdits.Rearrange(A, length);
      }
    }

    /** `Merge` into a new container of capacity `n + m`; ties come from this container first. */
    method Merge(other: Array) returns (r: Array)
      requires Valid() && other.Valid()
      ensures fresh(r) && fresh(r.A) && r.Valid()
      ensures r.size == Capacity(length + other.length)
      ensures r.Elements() == SeqSetOps.Merge(Elements(), other.Elements())
    {
      r := new Array(length + other.length);
      var k := ArraySetOps.MergeInto(Elements(), other.Elements(), r.A);
      r.length := k;
    }

    /** `Union` into a new container of capacity `n + m`. */
    method Union(other: Array) returns (r: Array)
      requires Valid() && other.Valid()
      ensures fresh(r) && fresh(r.A) && r.Valid()
      ensures r.size == Capacity(length + other.length)
      ensures r.Elements() == SeqSetOps.Union(Elements(), other.Elements())
    {
      r := new Array(length + other.length);
      var k := ArraySetOps.UnionInto(Elements(), other.Elements(), r.A);
      r.length := k;
    }

    /** `Intersection` into a new container of capacity `min(n, m)`. */
    method Intersection(other: Array) returns (r: Array)
      requires Valid() && other.Valid()
      ensures fresh(r) && fresh(r.A) && r.Valid()
      ensures r.size == Capacity(if length <= other.length then length else other.length)
      ensures r.Elements() == SeqSetOps.Intersection(Elements(), other.Elements())
    {
      r := new Array(if length <= other.length then length else other.length);
      var k := ArraySetOps.IntersectionInto(Elements(), other.Elements(), r.A);
      r.length := k;
    }

    /**
     * `Difference` (this minus `other`) into a new container of capacity
     * `n + m`, with the copy-remaining loop advancing its index.
     */
    method Difference(other: Array) returns (r: Array)
      requires Valid() && other.Valid()
      ensures fresh(r) && fresh(r.A) && r.Valid()
      ensures r.size == Capacity(length + other.length)
      ensures r.Elements() == SeqSetOps.Difference(Elements(), other.Elements())
    {
      r := new Array(length + other.length);
      var k := ArraySetOps.DifferenceInto(Elements(), other.Elements(), r.A);
      r.length := k;
    }

    /** `FindSingleMissingElementSorted`: the first break in the index-value difference. */
    method FindSingleMissingElementSorted() returns (r: Option<int>)
      requires Valid()
      ensures r == FirstGap(Elements())
    {
      r := ArrayFinders.FirstGapScan(Elements());
    }

    /** `FindMultipleMissingElementsSorted`: the values it prints, in order. */
    method FindMultipleMissingElementsSorted() returns (out: seq<int>)
      requires Valid()
      ensures out == MissingSorted(Elements())
    {
      out := ArrayFinders.MissingSortedScan(Elements());
    }

    /** `FindSingleMissingElementUnsortedOptimal`: the XOR method; `None` only when empty. */
    method FindSingleMissingElementUnsortedOptimal() returns (r: Option<int>)
      requires Valid()
      ensures r.None? <==> Elements() == []
      ensures Elements() != [] ==> r == Some(XorMissing(Elements()))
    {
      r := ArrayFinders.XorScan(Elements());
    }

    /** `FindMultipleMissingElementsHash`: the values it prints, in order. */
    method FindMultipleMissingElementsHash() returns (out: seq<int>)
      requires Valid()
      ensures out == HashMissing(Elements())
    {
      out := ArrayFinders.HashMissingScan(Elements());
    }

    /** `FindDuplicatesSorted`: the `(value, count)` pairs it prints, in order. */
    method FindDuplicatesSorted() returns (out: seq<(int, nat)>)
      requires Valid()
      ensures out == SortedDuplicates(Elements())
    {
      out := ArrayFinders.SortedDuplicatesScan(Elements());
    }

    /** `FindDuplicatesHashing`: the table of values seen more than once and their counts. */
    method FindDuplicatesHashing() returns (r: map<int, nat>)
      requires Valid()
      ensures forall v :: v in r <==> Occurrences(Elements(), v) > 1
      ensures forall v :: v in r ==> r[v] == Occurrences(Elements(), v)
    {
      r := ArrayFinders.HashDuplicatesScan(Elements());
    }

    /**
     * `FindDuplicatesUnsorted_BruteForce` with the sentinel -1; the outer loop
     * stops before the last element.
     */
    method FindDuplicatesUnsortedBruteForce() returns (out: seq<(int, nat)>)
      requires Valid()
      ensures out == BruteDuplicates(Elements(), -1)
    {
      out := ArrayFinders.BruteDuplicatesScan(Elements(), -1, true);
    }
  }
}

/**
 * The first container (ArrayClass/ArrayClass/main.cpp): a buffer `A` of
 * `size` slots whose first `length` are live, with positional insertion and
 * removal only. `Insert` does no capacity check, so a caller inserting at a
 * valid index must leave a free slot.
 */
module SimpleArray {
  import opened SeqOrder
  import ArrayEdits

  class Array {
    var A: array<int>
    var size: nat
    var length: nat

    /** The buffer has `size` slots and the live prefix fits in it. */
    ghost predicate Valid()
      reads this
    {
      A.Length == size && length <= size
    }

    /** The live contents `A[0..length)`. */
    function Elements(): (s: seq<int>)
      reads this, A
      requires Valid()
      ensures |s| == length
    {
      A[..length]
    }

    /** `Array()`: an empty container with 10 slots. */
    constructor ()
      ensures Valid() && fresh(A)
      ensures Elements() == [] && size == 10
    {
      size := 10;
      A := new int[10];
      length := 0;
    }

    /** `Array(sz)`: an empty container with `sz` slots. */
    constructor Sized(sz: nat)
      ensures Valid() && fresh(A)
      ensures Elements() == [] && size == sz
    {
      size := sz;
      length := 0;
      A := new int[sz];
    }

    /**
     * `Insert`: at an index in `[0, length]`, shift the tail right and store
     * `x`; any other index is ignored.
     */
    method Insert(index: int, x: int)
      requires Valid()
      requires 0 <= index <= length ==> length < size
      modifies this, A
      ensures Valid() && A == old(A) && size == old(size)
      ensures 0 <= index <= old(length) ==> Elements() == InsertAt(old(Elements()), index, x)
      ensures !(0 <= index <= old(length)) ==> Elements() == old(Elements()) && A[..] == old(A[..])
    {
      if 0 <= index <= length {
        ArrayEdits.ShiftInsert(A, length, index, x);
        length := length + 1;
      }
    }

    /** `Delete`: the removed element, or 0 (nothing removed) when the index is not live. */
    method Delete(index: int) returns (x: int)
      requires Valid()
      modifies this, A
      ensures Valid() && A == old(A) && size == old(size)
      ensures 0 <= index < old(length) ==>
                x == old(Elements())[index] && Elements() == RemoveAt(old(Elements()), index)
      ensures !(0 <= index < old(length)) ==> x == 0 && Elements() == old(Elements())
    {
      x := 0;
      if 0 <= index < length {
        x := A[index];
        ArrayEdits.ShiftDelete(A, length, index);
        length := length - 1;
      }
    }
  }
}

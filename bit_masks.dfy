/**
 * `long long` bit masks as used by `find_duplicates_bitwise` in
 * DSA-Project/algo/strings.cpp: single-bit masks, bit tests and setting a bit.
 * Only bits below 64 are addressed, so the sign bit plays no part.
 */
module BitMasks {

  /** The mask with only bit `k` set: `1LL << k`. */
  function Bit(k: nat): (b: bv64)
    requires k < 64
  {
    (1 as bv64) << (k as bv8)
  }

  /** The shifted form of `SetBit`, with the shift amounts as bit-vectors. */
  lemma {:induction false} SetBitShifted(x: bv64, j: bv8, k: bv8)
    requires j < 64 && k < 64
    ensures ((x | (1 << j)) & (1 << k) != 0) <==> (x & (1 << k) != 0 || j == k)
  {
  }

  /** Shift amounts below 64 survive the narrowing to `bv8`. */
  lemma {:induction false} NarrowIndex(j: nat, k: nat)
    requires j < 64 && k < 64
    ensures j as bv8 == k as bv8 <==> j == k
  {
    NarrowRoundTrip(j);
    NarrowRoundTrip(k);
  }

  /** A shift amount below 64 reads back unchanged from `bv8`. */
  lemma {:induction false} NarrowRoundTrip(j: nat)
    requires j < 64
    ensures (j as bv8) as int == j
  {
  }

  /** `x |= 1LL << j` sets bit `j` and leaves every other bit as it was. */
  lemma {:induction false} SetBit(x: bv64, j: nat, k: nat)
    requires j < 64 && k < 64
    ensures (x | Bit(j)) & Bit(k) != 0 <==> x & Bit(k) != 0 || j == k
  {
    SetBitShifted(x, j as bv8, k as bv8);
    NarrowIndex(j, k);
  }

  /** The empty mask has no bit set. */
  lemma {:induction false} NoBits(k: nat)
    requires k < 64
    ensures (0 as bv64) & Bit(k) == 0
  {
  }

  /** The positions of the set bits of `x`. */
  ghost function Members(x: bv64): set<nat> {
    set k: nat | k < 64 && x & Bit(k) != 0
  }

  /** Testing bit `j` asks whether `j` is a member. */
  lemma {:induction false} TestBit(x: bv64, j: nat)
    requires j < 64
    ensures x & Bit(j) != 0 ==> j in Members(x)
    ensures j in Members(x) ==> x & Bit(j) != 0
  {
  }

  /** The empty mask has no members. */
  lemma {:induction false} MembersZero()
    ensures Members(0) == {}
  {
    forall k: nat | k < 64
      ensures (0 as bv64) & Bit(k) == 0
    {
      NoBits(k);
    }
  }

  /** Or-ing in bit `j` adds `j` to the members. */
  lemma {:induction false} MembersSetBit(x: bv64, j: nat)
    requires j < 64
    ensures Members(x | Bit(j)) == Members(x) + {j}
  {
    forall k: nat | k < 64
      ensures (x | Bit(j)) & Bit(k) != 0 <==> x & Bit(k) != 0 || j == k
    {
      SetBit(x, j, k);
    }
  }
}

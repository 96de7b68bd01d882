/**
 * The string routines of DSA-Project/algo/strings.cpp that scan a string:
 * in-place reversal, the palindrome test, the two duplicate-letter finders
 * and the two anagram tests. The finders print; here they return what they
 * would print. `long long` bit masks are `bv64` values.
 */
module Strings {
  import opened SeqOrder
  import opened StringLetters
  import ArrayEdits
  import opened BitMasks

  /** `reverse_string`: swap the ends and walk inwards. */
  method ReverseString(s: array<char>)
    modifies s
    ensures s[..] == Reversed(old(s[..]))
  {
    if s.Length == 0 {
      return;
    }
    ArrayEdits.ReverseInPlace(s, s.Length);
    assert s[..s.Length] == s[..] && old(s[..s.Length]) == old(s[..]);
  }

  /** Reversing twice gives back the original string. */
  lemma {:induction false} ReverseStringRoundTrip(s: seq<char>)
    ensures Reversed(Reversed(s)) == s
  {
    ReverseTwice(s);
  }

  /** `is_palindrome`: compare from both ends until the indices meet. */
  method IsPalindrome(s: seq<char>) returns (b: bool)
    ensures b <==> s == Reversed(s)
  {
    ReversedIff(s, s);
    if |s| == 0 {
      return true;
    }
    var low, high := 0, |s| - 1;
    while low < high
      invariant 0 <= low && high < |s| && low + high == |s| - 1 && low <= high + 1
      invariant forall k :: 0 <= k < low ==> s[k] == s[|s| - 1 - k]
    {
      if s[low] != s[high] {
        return false;
      }
      low, high := low + 1, high - 1;
    }
    assert forall k :: 0 <= k < |s| ==> s[k] == s[|s| - 1 - k] by {
      forall k | 0 <= k < |s|
        ensures s[k] == s[|s| - 1 - k]
      {
        if k > high {
          assert s[|s| - 1 - k] == s[|s| - 1 - (|s| - 1 - k)];
        }
      }
    }
    return true;
  }

  /** Every palindrome is its own anagram under the bitwise test but never under the hashing test. */
  lemma {:induction false} PalindromeAnagrams(s: seq<char>)
    requires s == Reversed(s)
    ensures AnagramsBitwise(s, Reversed(s)) && !AnagramsHash(s, Reversed(s))
  {
    ReversalIsAnagram(s);
  }

  /** The count the frequency map holds for `c`, zero when `c` is not a key. */
  function Get(m: map<char, int>, c: char): int {
    if c in m then m[c] else 0
  }

  /** The lower-cased string grows by one folded character. */
  lemma {:induction false} LowerSnoc(s: seq<char>, i: nat)
    requires i < |s|
    ensures multiset(Lower(s[..i + 1])) == multiset(Lower(s[..i])) + multiset{ToLower(s[i])}
  {
    assert Lower(s[..i + 1]) == Lower(s[..i]) + [ToLower(s[i])];
  }

  /** The folded string grows by one letter, or not at all. */
  lemma {:induction false} FoldedSnoc(s: seq<char>, i: nat)
    requires i < |s|
    ensures Folded(s[..i + 1]) == Folded(s[..i]) + (if IsAlpha(s[i]) then [ToLower(s[i])] else [])
  {
    assert s[..i + 1][..i] == s[..i];
  }

  /** `n` counted up or down. */
  function Delta(up: bool, n: nat): int {
    if up then n as int else -(n as int)
  }

  /** Counting one more character `c` changes its own entry by one and no other. */
  lemma {:induction false} TallyStep(freq: map<char, int>, r: map<char, int>, m: multiset<char>, c: char, up: bool)
    requires forall d :: Get(r, d) == Get(freq, d) + Delta(up, m[d])
    requires forall d :: d in r <==> d in freq || d in m
    ensures var r' := r[c := if up then Get(r, c) + 1 else Get(r, c) - 1];
      (forall d :: Get(r', d) == Get(freq, d) + Delta(up, (m + multiset{c})[d])) &&
      (forall d :: d in r' <==> d in freq || d in m + multiset{c})
  {
  }

  /**
   * `freq_map[tolower(c)]++` (or `--` when `up` is false) for every
   * character `c` of `s`.
   */
  method Tally(freq: map<char, int>, s: seq<char>, up: bool) returns (r: map<char, int>)
    ensures forall c :: Get(r, c) == Get(freq, c) + Delta(up, multiset(Lower(s))[c])
    ensures forall c :: c in r <==> c in freq || c in multiset(Lower(s))
  {
    r := freq;
    var i := 0;
    ghost var m: multiset<char> := multiset{};
    while i < |s|
      invariant i <= |s| && m == multiset(Lower(s[..i]))
      invariant forall c :: Get(r, c) == Get(freq, c) + Delta(up, m[c])
      invariant forall c :: c in r <==> c in freq || c in m
    {
      var c := ToLower(s[i]);
      LowerSnoc(s, i);
      TallyStep(freq, r, m, c, up);
      r := r[c := if up then Get(r, c) + 1 else Get(r, c) - 1];
      m := m + multiset{c};
      i := i + 1;
    }
    assert s[..i] == s;
  }

  /**
   * `find_duplicates_hashing`: count every character after `tolower`, then
   * report each alphabetic key seen more than once, with its count.
   */
  method FindDuplicatesHashing(s: seq<char>) returns (report: map<char, nat>)
    ensures report == HashDuplicateLetters(s)
    ensures forall c :: c in report <==> 'a' <= c <= 'z' && multiset(Folded(s))[c] > 1
    ensures forall c :: c in report ==> report[c] == multiset(Folded(s))[c]
  {
    var freq := Tally(map[], s, true);
    report := map[];
    var keys := freq.Keys;
    while keys != {}
      invariant keys <= freq.Keys
      invariant forall c :: c in report <==> c in freq.Keys - keys && IsAlpha(c) && freq[c] > 1
      invariant forall c :: c in report ==> report[c] == freq[c]
      decreases keys
    {
      var c :| c in keys;
      if freq[c] > 1 && IsAlpha(c) {
        report := report[c := freq[c]];
      }
      keys := keys - {c};
    }
    assert report == HashDuplicateLetters(s);
    forall c
      ensures c in report <==> 'a' <= c <= 'z' && multiset(Folded(s))[c] > 1
      ensures c in report ==> report[c] == multiset(Folded(s))[c]
    {
      HashDuplicateLettersSpec(s, c);
    }
  }

  /** Distinct slots hold distinct letters. */
  lemma {:induction false} LetterInjective(j: nat, k: nat)
    requires j < 26 && k < 26
    ensures Letter(j) == Letter(k) <==> j == k
  {
    assert Letter(j) as int == 'a' as int + j;
    assert Letter(k) as int == 'a' as int + k;
  }

  /**
   * The state of `find_duplicates_bitwise`'s scan after the letters counted
   * in `m`: slot `k` is a member of `seen` when letter `k` was seen, and of
   * `again` when it was seen more than once; nothing from 26 up is a member.
   */
  ghost predicate Marked(seen: set<nat>, again: set<nat>, m: multiset<char>) {
    (forall k :: k in seen ==> k < 26) && (forall k :: k in again ==> k < 26) &&
    (forall k :: 0 <= k < 26 ==> (k in seen <==> m[Letter(k)] >= 1)) &&
    (forall k :: 0 <= k < 26 ==> (k in again <==> m[Letter(k)] >= 2))
  }

  /** One more letter: it joins `again` when it is already in `seen`, then joins `seen`. */
  lemma {:induction false} MarkStep(seen: set<nat>, again: set<nat>, m: multiset<char>, j: nat)
    requires j < 26 && Marked(seen, again, m)
    ensures Marked(seen + {j}, if j in seen then again + {j} else again, m + multiset{Letter(j)})
  {
    forall k | 0 <= k < 26
      ensures (m + multiset{Letter(j)})[Letter(k)] == m[Letter(k)] + (if k == j then 1 else 0)
    {
      LetterInjective(j, k);
    }
  }

  /**
   * The slots `find_duplicates_bitwise` marks while scanning `s`: a letter's
   * slot joins `again` when it is already in `seen`, then joins `seen`.
   */
  ghost function Scan(s: seq<char>): (r: (set<nat>, set<nat>)) {
    if s == [] then ({}, {})
    else
      var (seen, again) := Scan(s[..|s| - 1]);
      var c := s[|s| - 1];
      if IsAlpha(c) then
        var j := LetterIndex(c);
        (seen + {j}, if j in seen then again + {j} else again)
      else (seen, again)
  }

  /** The scan marks exactly the letters seen once and the letters seen twice. */
  lemma {:induction false} ScanMarked(s: seq<char>)
    ensures Marked(Scan(s).0, Scan(s).1, multiset(Folded(s)))
  {
    if s != [] {
      var p := s[..|s| - 1];
      ScanMarked(p);
      FoldedSnoc(s, |s| - 1);
      assert s[..|s| - 1 + 1] == s;
      if IsAlpha(s[|s| - 1]) {
        MarkStep(Scan(p).0, Scan(p).1, multiset(Folded(p)), LetterIndex(s[|s| - 1]));
      }
    }
  }

  /** Scanning one more character. */
  lemma {:induction false} ScanStep(s: seq<char>, i: nat)
    requires i < |s|
    ensures !IsAlpha(s[i]) ==> Scan(s[..i + 1]) == Scan(s[..i])
    ensures IsAlpha(s[i]) ==>
      var j := LetterIndex(s[i]);
      Scan(s[..i + 1]).0 == Scan(s[..i]).0 + {j} &&
      Scan(s[..i + 1]).1 == if j in Scan(s[..i]).0 then Scan(s[..i]).1 + {j} else Scan(s[..i]).1
  {
    assert s[..i + 1][..i] == s[..i];
  }

  /** `x |= 1LL << j`. */
  method SetBitOf(x: bv64, j: nat) returns (y: bv64)
    requires j < 64
    ensures Members(y) == Members(x) + {j}
  {
    y := x | Bit(j);
    MembersSetBit(x, j);
  }

  /** `(x & (1LL << j)) > 0`, for a bit below the sign bit. */
  method IsBitSet(x: bv64, j: nat) returns (b: bool)
    requires j < 63
    ensures b <==> j in Members(x)
  {
    b := x & Bit(j) != 0;
    TestBit(x, j);
  }

  /** The bit loop of `find_duplicates_bitwise`: the members of the two masks follow `Scan`. */
  method MarkBits(s: seq<char>) returns (flags: bv64, duplicates: bv64)
    ensures Members(flags) == Scan(s).0 && Members(duplicates) == Scan(s).1
  {
    flags, duplicates := 0, 0;
    MembersZero();
    var i := 0;
    assert s[..0] == [];
    while i < |s|
      invariant i <= |s|
      invariant Members(flags) == Scan(s[..i]).0 && Members(duplicates) == Scan(s[..i]).1
    {
      ScanStep(s, i);
      if IsAlpha(s[i]) {
        var j := LetterIndex(s[i]);
        var seen := IsBitSet(flags, j);
        if seen {
          duplicates := SetBitOf(duplicates, j);
        }
        flags := SetBitOf(flags, j);
      }
      i := i + 1;
    }
    assert s[..i] == s;
  }

  /**
   * `find_duplicates_bitwise`: one pass marks every letter in `flags` and,
   * when it was already marked, in `duplicates`; the letters whose
   * duplicate bit is set are then listed from 'a' to 'z'.
   */
  method FindDuplicatesBitwise(s: seq<char>) returns (duplicates: bv64, letters: seq<char>)
    ensures forall k :: 0 <= k < 26 ==> (k in Members(duplicates) <==> multiset(Folded(s))[Letter(k)] >= 2)
    ensures forall k :: k in Members(duplicates) ==> k < 26
    ensures letters == DuplicateLetters(multiset(Folded(s)), 26)
  {
    var flags;
    flags, duplicates := MarkBits(s);
    ScanMarked(s);
    letters := [];
    var k := 0;
    while k < 26
      invariant k <= 26
      invariant letters == DuplicateLetters(multiset(Folded(s)), k)
    {
      var again := IsBitSet(duplicates, k);
      if again {
        letters := letters + [Letter(k)];
      }
      k := k + 1;
    }
  }

  /** The last loop of `are_anagrams_hash`: is every count zero? */
  method AllCountsZero(freq: map<char, int>) returns (b: bool)
    ensures b <==> forall c :: c in freq ==> freq[c] == 0
  {
    var keys := freq.Keys;
    while keys != {}
      invariant keys <= freq.Keys
      invariant forall c :: c in freq.Keys - keys ==> freq[c] == 0
      decreases keys
    {
      var c :| c in keys;
      if freq[c] != 0 {
        return false;
      }
      keys := keys - {c};
    }
    return true;
  }

  /**
   * `are_anagrams_hash`: different lengths and identical strings are
   * refused; otherwise count up over `s1` and down over `s2` after
   * `tolower`, and accept when every count is back to zero.
   */
  method AreAnagramsHash(s1: seq<char>, s2: seq<char>) returns (b: bool)
    ensures b <==> AnagramsHash(s1, s2)
  {
    if |s1| != |s2| {
      return false;
    }
    if s1 == s2 {
      return false;
    }
    var freq := Tally(map[], s1, true);
    freq := Tally(freq, s2, false);
    b := AllCountsZero(freq);
    if b {
      assert multiset(Lower(s1)) == multiset(Lower(s2)) by {
        forall c
          ensures multiset(Lower(s1))[c] == multiset(Lower(s2))[c]
        {
          assert Get(freq, c) == 0;
        }
      }
    } else {
      var c :| c in freq && freq[c] != 0;
      assert multiset(Lower(s1))[c] != multiset(Lower(s2))[c];
    }
  }

  /** How many letters of `s` fold to the letter in slot `k`. */
  ghost function LetterCount(s: seq<char>, k: nat): nat
    requires k < 26
  {
    multiset(Folded(s))[Letter(k)]
  }

  /** One more character adds one to its own slot, if it is a letter, and nothing elsewhere. */
  lemma {:induction false} LetterCountSnoc(s: seq<char>, i: nat)
    requires i < |s|
    ensures forall k :: 0 <= k < 26 ==>
      LetterCount(s[..i + 1], k) == LetterCount(s[..i], k) + (if IsAlpha(s[i]) && LetterIndex(s[i]) == k then 1 else 0)
  {
    FoldedSnoc(s, i);
    forall k | 0 <= k < 26
      ensures LetterCount(s[..i + 1], k) == LetterCount(s[..i], k) + (if IsAlpha(s[i]) && LetterIndex(s[i]) == k then 1 else 0)
    {
      if IsAlpha(s[i]) {
        LetterInjective(LetterIndex(s[i]), k);
      }
    }
  }

  /**
   * `char_counts[tolower(c) - 'a']++` (or `--` when `up` is false) for
   * every letter `c` of `s`.
   */
  method TallyLetters(counts: array<int>, s: seq<char>, up: bool)
    requires counts.Length == 26
    modifies counts
    ensures forall k :: 0 <= k < 26 ==> counts[k] == old(counts[k]) + Delta(up, LetterCount(s, k))
  {
    var i := 0;
    while i < |s|
      invariant i <= |s|
      invariant forall k :: 0 <= k < 26 ==> counts[k] == old(counts[k]) + Delta(up, LetterCount(s[..i], k))
    {
      LetterCountSnoc(s, i);
      if IsAlpha(s[i]) {
        var j := LetterIndex(s[i]);
        counts[j] := if up then counts[j] + 1 else counts[j] - 1;
      }
      i := i + 1;
    }
    assert s[..i] == s;
  }

  /**
   * `are_anagrams_bitwise`: different lengths are refused; otherwise count
   * every letter up over `s1` and down over `s2` in a 26-slot table, case
   * folded, and accept when every slot is back to zero.
   */
  method AreAnagramsBitwise(s1: seq<char>, s2: seq<char>) returns (b: bool)
    ensures b <==> AnagramsBitwise(s1, s2)
  {
    if |s1| != |s2| {
      return false;
    }
    var counts := new int[26](_ => 0);
    TallyLetters(counts, s1, true);
    assert forall k :: 0 <= k < 26 ==> counts[k] == LetterCount(s1, k);
    TallyLetters(counts, s2, false);
    assert forall k :: 0 <= k < 26 ==> counts[k] == LetterCount(s1, k) - LetterCount(s2, k);
    var m := FirstNonZero(counts);
    if m < 26 {
      assert LetterCount(s1, m) != LetterCount(s2, m);
      return false;
    }
    forall k | 0 <= k < 26 ensures LetterCount(s1, k) == LetterCount(s2, k) {
      assert counts[k] == 0;
    }
    SameLetterCounts(s1, s2);
    return true;
  }

  /** The first slot of the table that is not zero, or 26 when every slot is. */
  method FirstNonZero(counts: array<int>) returns (m: nat)
    requires counts.Length == 26
    ensures m <= 26 && forall k :: 0 <= k < m ==> counts[k] == 0
    ensures m < 26 ==> counts[m] != 0
  {
    m := 0;
    while m < 26 && counts[m] == 0
      invariant m <= 26
      invariant forall k :: 0 <= k < m ==> counts[k] == 0
    {
      m := m + 1;
    }
  }

  /** Strings whose 26 letter counts agree fold to the same multiset of letters. */
  lemma {:induction false} SameLetterCounts(s1: seq<char>, s2: seq<char>)
    requires forall k :: 0 <= k < 26 ==> LetterCount(s1, k) == LetterCount(s2, k)
    ensures multiset(Folded(s1)) == multiset(Folded(s2))
  {
    forall c
      ensures multiset(Folded(s1))[c] == multiset(Folded(s2))[c]
    {
      if 'a' <= c <= 'z' {
        LetterSlots(c);
        assert LetterCount(s1, LetterIndex(c)) == LetterCount(s2, LetterIndex(c));
      } else {
        assert c !in Folded(s1) && c !in Folded(s2);
      }
    }
  }
}

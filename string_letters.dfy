/**
 * Character classes and case folding in the C locale, and what the letter
 * counting routines of DSA-Project/algo/strings.cpp compute: the two anagram
 * tests and the two duplicate-letter finders.
 */
module StringLetters {
  import opened SeqOrder

  /** `isalpha` in the C locale. */
  predicate IsAlpha(c: char) {
    'a' <= c <= 'z' || 'A' <= c <= 'Z'
  }

  /** `tolower` in the C locale: upper-case letters map to lower case, all else is kept. */
  function ToLower(c: char): (r: char)
    ensures IsAlpha(c) <==> 'a' <= r <= 'z'
    ensures 'a' <= c <= 'z' || !IsAlpha(c) ==> r == c
  {
    if 'A' <= c <= 'Z' then (c as int + 32) as char else c
  }

  /** The string with every character passed through `tolower`. */
  function Lower(s: seq<char>): (r: seq<char>)
    ensures |r| == |s| && forall k :: 0 <= k < |s| ==> r[k] == ToLower(s[k])
  {
    seq(|s|, k requires 0 <= k < |s| => ToLower(s[k]))
  }

  /** The alphabetic characters of `s`, lower-cased, in order. */
  function Folded(s: seq<char>): (r: seq<char>)
    ensures forall k :: 0 <= k < |r| ==> 'a' <= r[k] <= 'z'
  {
    if s == [] then []
    else Folded(s[..|s| - 1]) + (if IsAlpha(s[|s| - 1]) then [ToLower(s[|s| - 1])] else [])
  }

  /** The slot of a letter in a 26-entry table. */
  function LetterIndex(c: char): (k: nat)
    requires IsAlpha(c)
    ensures k < 26 && Letter(k) == ToLower(c)
  {
    ToLower(c) as int - 'a' as int
  }

  /** The lower-case letter in slot `k` of a 26-entry table. */
  function Letter(k: nat): (c: char)
    requires k < 26
    ensures 'a' <= c <= 'z'
  {
    ('a' as int + k) as char
  }

  /** Different slots hold different letters, and every lower-case letter has a slot. */
  lemma {:induction false} LetterSlots(c: char)
    requires 'a' <= c <= 'z'
    ensures IsAlpha(c) && Letter(LetterIndex(c)) == c
  {
  }

  /**
   * `are_anagrams_hash`: equal lengths, not byte-identical, and the same
   * characters up to `tolower`, every character counting.
   */
  ghost predicate AnagramsHash(s1: seq<char>, s2: seq<char>) {
    |s1| == |s2| && s1 != s2 && multiset(Lower(s1)) == multiset(Lower(s2))
  }

  /**
   * `are_anagrams_bitwise`: equal lengths and the same letters up to case;
   * other characters are ignored.
   */
  ghost predicate AnagramsBitwise(s1: seq<char>, s2: seq<char>) {
    |s1| == |s2| && multiset(Folded(s1)) == multiset(Folded(s2))
  }

  /** Folding commutes with reversal on the lower-cased string. */
  lemma {:induction false} LowerReversed(s: seq<char>)
    ensures Lower(Reversed(s)) == Reversed(Lower(s))
  {
    ReversedIff(s, Reversed(s));
    ReversedIff(Lower(s), Lower(Reversed(s)));
  }

  /**
   * A string and its reversal are anagrams under the bitwise test, and
   * under the hashing test unless the string is a palindrome.
   */
  lemma {:induction false} ReversalIsAnagram(s: seq<char>)
    ensures s != Reversed(s) ==> AnagramsHash(s, Reversed(s))
    ensures AnagramsBitwise(s, Reversed(s))
  {
    ReversedIff(s, Reversed(s));
    LowerReversed(s);
    ReversedMultiset(Lower(s));
    HashAgreementImpliesBitwise(s, Reversed(s));
  }

  /** The hashing test refuses identical strings; the bitwise test accepts them. */
  lemma {:induction false} IdenticalStrings(s: seq<char>)
    ensures !AnagramsHash(s, s) && AnagramsBitwise(s, s)
  {
  }

  /** Lower-casing twice is lower-casing once. */
  lemma {:induction false} LowerIdempotent(s: seq<char>)
    ensures Lower(Lower(s)) == Lower(s)
  {
  }

  /**
   * The bitwise test accepts every pair of equal-length strings that agree
   * up to `tolower`, in particular every pair the hashing test accepts.
   */
  lemma {:induction false} HashAgreementImpliesBitwise(s1: seq<char>, s2: seq<char>)
    requires |s1| == |s2| && multiset(Lower(s1)) == multiset(Lower(s2))
    ensures AnagramsBitwise(s1, s2)
  {
    forall c | true
      ensures multiset(Folded(s1))[c] == multiset(Folded(s2))[c]
    {
      LowerAgreesOnLetters(s1, c);
      LowerAgreesOnLetters(s2, c);
      if !('a' <= c <= 'z') {
        assert c !in Folded(s1) && c !in Folded(s2);
      }
    }
    assert multiset(Folded(s1)) == multiset(Folded(s2));
  }

  /** Both tests ignore case: a string is an anagram of its lower-cased self. */
  lemma {:induction false} AnagramsIgnoreCase(s: seq<char>)
    ensures s != Lower(s) ==> AnagramsHash(s, Lower(s))
    ensures AnagramsBitwise(s, Lower(s))
  {
    LowerIdempotent(s);
    HashAgreementImpliesBitwise(s, Lower(s));
  }

  /** Non-letters separate the tests: "a!" and "a?" are anagrams only under the bitwise one. */
  lemma {:induction false} AnagramPoliciesDifferOnPunctuation()
    ensures !AnagramsHash("a!", "a?") && AnagramsBitwise("a!", "a?")
  {
    assert Lower("a!") == ['a', '!'] && Lower("a?") == ['a', '?'];
    assert multiset(['a', '!'])['!'] == 1 && multiset(['a', '?'])['!'] == 0;
    assert "a!"[..1] == "a" && "a?"[..1] == "a";
    assert Folded("a!") == ['a'] && Folded("a?") == ['a'];
  }

  /** What `find_duplicates_hashing` reports: each letter seen twice or more after folding, with its count. */
  ghost function HashDuplicateLetters(s: seq<char>): map<char, nat> {
    map c | c in multiset(Lower(s)) && IsAlpha(c) && multiset(Lower(s))[c] > 1 :: multiset(Lower(s))[c]
  }

  /**
   * Every reported key is a lower-case letter; its count is the number of
   * positions holding it in either case.
   */
  lemma {:induction false} HashDuplicateLettersSpec(s: seq<char>, c: char)
    ensures c in HashDuplicateLetters(s) <==> 'a' <= c <= 'z' && multiset(Folded(s))[c] > 1
    ensures c in HashDuplicateLetters(s) ==> HashDuplicateLetters(s)[c] == multiset(Folded(s))[c]
  {
    LowerAgreesOnLetters(s, c);
  }

  /** On lower-case letters, lower-casing and folding count the same. */
  lemma {:induction false} LowerAgreesOnLetters(s: seq<char>, c: char)
    ensures IsAlpha(c) && multiset(Lower(s))[c] > 0 ==> 'a' <= c <= 'z'
    ensures 'a' <= c <= 'z' ==> multiset(Lower(s))[c] == multiset(Folded(s))[c]
  {
    if s != [] {
      var p := s[..|s| - 1];
      LowerAgreesOnLetters(p, c);
      assert Lower(s) == Lower(p) + [ToLower(s[|s| - 1])];
    }
  }

  /** The letters of `[a, a + n)` seen twice or more, in alphabetical order. */
  function DuplicateLetters(counts: multiset<char>, n: nat): (r: seq<char>)
    requires n <= 26
  {
    if n == 0 then []
    else DuplicateLetters(counts, n - 1) + (if counts[Letter(n - 1)] >= 2 then [Letter(n - 1)] else [])
  }

  /** `DuplicateLetters` lists exactly the letters counted twice, each once, alphabetically. */
  lemma {:induction false} DuplicateLettersSpec(counts: multiset<char>, n: nat)
    requires n <= 26
    ensures forall c :: c in DuplicateLetters(counts, n) <==>
                        'a' <= c < ('a' as int + n) as char && counts[c] >= 2
    ensures forall i, j :: 0 <= i < j < |DuplicateLetters(counts, n)| ==>
                           DuplicateLetters(counts, n)[i] < DuplicateLetters(counts, n)[j]
  {
    if n > 0 {
      DuplicateLettersSpec(counts, n - 1);
      var p := DuplicateLetters(counts, n - 1);
      assert forall k :: 0 <= k < |p| ==> p[k] < Letter(n - 1) by {
        forall k | 0 <= k < |p| ensures p[k] < Letter(n - 1) {
          assert p[k] in p;
        }
      }
    }
  }
}

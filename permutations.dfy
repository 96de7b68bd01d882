/**
 * The two permutation generators of DSA-Project/algo/strings.cpp.
 *
 * `generate_permutations` fixes each position in turn by swapping every
 * later character into it, recursing on the rest and swapping back
 * (`perm_helper`). `generate_permutations_backtracking` fills a scratch
 * string slot by slot with each character not yet used, tracked in a
 * `used` vector (`perm_build_helper`). Both append to a result vector
 * passed by reference; here the vector goes in and comes back out.
 */
module Permutations {
  import opened SeqOrder

  function Factorial(n: nat): (r: nat)
    ensures r >= 1
  {
    if n == 0 then 1 else n * Factorial(n - 1)
  }

  /** One more group of `f`. */
  lemma {:induction false} MulSucc(n: nat, f: nat)
    ensures (n + 1) * f == f + n * f
  {
  }

  // ---------------------------------------------------------------------
  // Swapping generator

  /**
   * The strings `perm_helper(s, low, |s| - 1, result)` appends, in order:
   * with `low` the last position, `s` itself; otherwise, for each `i` from
   * `low` up, those of `s` with positions `low` and `i` swapped, from
   * `low + 1`.
   */
  function SwapPerms(s: seq<char>, low: nat): seq<seq<char>>
    requires low < |s|
    decreases |s| - low, 1
  {
    if low == |s| - 1 then [s] else SwapPermsFrom(s, low, low)
  }

  /** The iterations `i .. |s| - 1` of `perm_helper`'s loop at position `low`. */
  function SwapPermsFrom(s: seq<char>, low: nat, i: nat): seq<seq<char>>
    requires low < |s| - 1 && low <= i <= |s|
    decreases |s| - low, 0, |s| - i
  {
    if i == |s| then []
    else SwapPerms(Swap(s, low, i), low + 1) + SwapPermsFrom(s, low, i + 1)
  }

  /** Fixing `|s| - low` positions one after another gives `(|s| - low)!` strings. */
  lemma {:induction false} SwapPermsCount(s: seq<char>, low: nat)
    requires low < |s|
    ensures |SwapPerms(s, low)| == Factorial(|s| - low)
    decreases |s| - low, 1
  {
    if low < |s| - 1 {
      SwapPermsFromCount(s, low, low);
    }
  }

  /** Each remaining iteration contributes `(|s| - low - 1)!` strings. */
  lemma {:induction false} SwapPermsFromCount(s: seq<char>, low: nat, i: nat)
    requires low < |s| - 1 && low <= i <= |s|
    ensures |SwapPermsFrom(s, low, i)| == (|s| - i) * Factorial(|s| - low - 1)
    decreases |s| - low, 0, |s| - i
  {
    if i < |s| {
      SwapPermsCount(Swap(s, low, i), low + 1);
      SwapPermsFromCount(s, low, i + 1);
      MulSucc(|s| - i - 1, Factorial(|s| - low - 1));
    }
  }

  /** Every generated string rearranges `s` and keeps its first `low` characters in place. */
  lemma {:induction false} SwapPermsArePermutations(s: seq<char>, low: nat)
    requires low < |s|
    ensures forall p :: p in SwapPerms(s, low) ==> multiset(p) == multiset(s) && |p| == |s| && p[..low] == s[..low]
    decreases |s| - low, 1
  {
    if low < |s| - 1 {
      SwapPermsFromArePermutations(s, low, low);
    }
  }

  /** The same, for the remaining iterations at position `low`. */
  lemma {:induction false} SwapPermsFromArePermutations(s: seq<char>, low: nat, i: nat)
    requires low < |s| - 1 && low <= i <= |s|
    ensures forall p :: p in SwapPermsFrom(s, low, i) ==> multiset(p) == multiset(s) && |p| == |s| && p[..low] == s[..low]
    decreases |s| - low, 0, |s| - i
  {
    if i < |s| {
      var t := Swap(s, low, i);
      SwapPermsArePermutations(t, low + 1);
      SwapPermsFromArePermutations(s, low, i + 1);
      SwapMultiset(s, low, i);
      assert t[..low] == s[..low];
      forall p | p in SwapPerms(t, low + 1)
        ensures p[..low] == s[..low]
      {
        assert p[..low] == p[..low + 1][..low];
      }
    }
  }

  /**
   * `perm_helper`: with `low == high` append the current string; otherwise
   * for each `i` in `[low, high]` swap positions `low` and `i`, recurse
   * from `low + 1`, and swap back. The string is left as it was found.
   */
  method PermHelper(a: array<char>, low: nat, high: nat, result: seq<seq<char>>) returns (out: seq<seq<char>>)
    requires low <= high && high + 1 == a.Length
    modifies a
    decreases high - low
    ensures a[..] == old(a[..])
    ensures out == result + SwapPerms(old(a[..]), low)
  {
    if low == high {
      out := result + [a[..]];
      return;
    }
    ghost var s := a[..];
    out := result;
    var i := low;
    while i <= high
      invariant low <= i <= high + 1
      invariant a[..] == s
      invariant out + SwapPermsFrom(s, low, i) == result + SwapPermsFrom(s, low, low)
      decreases high + 1 - i
    {
      a[low], a[i] := a[i], a[low];
      assert a[..] == Swap(s, low, i);
      out := PermHelper(a, low + 1, high, out);
      a[low], a[i] := a[i], a[low];
      assert a[..] == s;
      i := i + 1;
    }
  }

  /**
   * `generate_permutations`: no strings for the empty input (not even the
   * empty one); otherwise `perm_helper` on a copy from position 0. The
   * result has `|s|!` entries, each a rearrangement of `s`.
   */
  method GeneratePermutations(s: seq<char>) returns (result: seq<seq<char>>)
    ensures s == [] ==> result == []
    ensures s != [] ==> result == SwapPerms(s, 0)
    ensures |result| == if s == [] then 0 else Factorial(|s|)
    ensures forall p :: p in result ==> multiset(p) == multiset(s)
  {
    if s == [] {
      return [];
    }
    var a := new char[|s|](i requires 0 <= i < |s| => s[i]);
    assert a[..] == s;
    result := PermHelper(a, 0, |s| - 1, []);
    SwapPermsCount(s, 0);
    SwapPermsArePermutations(s, 0);
  }

  // ---------------------------------------------------------------------
  // Backtracking generator

  /** The characters of `original` at the positions `used` marks. */
  function Picked(original: seq<char>, used: seq<bool>): multiset<char>
    requires |used| == |original|
  {
    if original == [] then multiset{}
    else (if used[0] then multiset{original[0]} else multiset{}) + Picked(original[1..], used[1..])
  }

  /** The number of positions `used` leaves free. */
  function Free(used: seq<bool>): (n: nat)
    ensures n <= |used|
  {
    if used == [] then 0 else (if used[0] then 0 else 1) + Free(used[1..])
  }

  /** Marking free position `i` picks `original[i]` and frees one position less. */
  lemma {:induction false} MarkUsed(original: seq<char>, used: seq<bool>, i: nat)
    requires |used| == |original| && i < |used| && !used[i]
    ensures Picked(original, used[i := true]) == Picked(original, used) + multiset{original[i]}
    ensures Free(used[i := true]) + 1 == Free(used)
  {
    if i == 0 {
      assert used[i := true][1..] == used[1..];
    } else {
      assert used[i := true][1..] == used[1..][i - 1 := true];
      MarkUsed(original[1..], used[1..], i - 1);
    }
  }

  /** With no position free, every character is picked. */
  lemma {:induction false} AllPicked(original: seq<char>, used: seq<bool>)
    requires |used| == |original| && Free(used) == 0
    ensures Picked(original, used) == multiset(original)
  {
    if original != [] {
      AllPicked(original[1..], used[1..]);
      assert original == [original[0]] + original[1..];
    }
  }

  /** The free positions from `i` on: position `i` itself, then the rest. */
  lemma {:induction false} FreeFrom(used: seq<bool>, i: nat)
    requires i < |used|
    ensures Free(used[i..]) == (if used[i] then 0 else 1) + Free(used[i + 1..])
  {
    assert used[i..][1..] == used[i + 1..];
  }

  /**
   * The strings `perm_build_helper` appends when the slots before
   * `|prefix|` hold `prefix` and `used` marks the characters already
   * placed: the prefix itself once every slot is filled, otherwise, for
   * each free `i` in order, the completions of `prefix + [original[i]]`.
   */
  function Completions(original: seq<char>, prefix: seq<char>, used: seq<bool>): seq<seq<char>>
    requires |used| == |original| && |prefix| <= |original|
    decreases |original| - |prefix|, 1
  {
    if |prefix| == |original| then [prefix] else CompletionsFrom(original, prefix, used, 0)
  }

  /** The iterations `i .. |original| - 1` of `perm_build_helper`'s loop. */
  function CompletionsFrom(original: seq<char>, prefix: seq<char>, used: seq<bool>, i: nat): seq<seq<char>>
    requires |used| == |original| && |prefix| < |original| && i <= |original|
    decreases |original| - |prefix|, 0, |original| - i
  {
    if i == |original| then []
    else
      (if used[i] then [] else Completions(original, prefix + [original[i]], used[i := true]))
      + CompletionsFrom(original, prefix, used, i + 1)
  }

  /**
   * A consistent state: the prefix holds exactly the picked characters and
   * one slot remains per free position.
   */
  ghost predicate Consistent(original: seq<char>, prefix: seq<char>, used: seq<bool>) {
    |used| == |original| && |prefix| <= |original| &&
    Picked(original, used) == multiset(prefix) && Free(used) == |original| - |prefix|
  }

  /** From a consistent state every completion is a rearrangement of `original` extending `prefix`. */
  lemma {:induction false} CompletionsArePermutations(original: seq<char>, prefix: seq<char>, used: seq<bool>)
    requires Consistent(original, prefix, used)
    ensures forall p :: p in Completions(original, prefix, used) ==>
              multiset(p) == multiset(original) && |p| == |original| && p[..|prefix|] == prefix
    decreases |original| - |prefix|, 1
  {
    if |prefix| == |original| {
      AllPicked(original, used);
    } else {
      CompletionsFromArePermutations(original, prefix, used, 0);
    }
  }

  /** The same, for the remaining iterations of the loop. */
  lemma {:induction false} CompletionsFromArePermutations(original: seq<char>, prefix: seq<char>, used: seq<bool>, i: nat)
    requires Consistent(original, prefix, used) && |prefix| < |original| && i <= |original|
    ensures forall p :: p in CompletionsFrom(original, prefix, used, i) ==>
              multiset(p) == multiset(original) && |p| == |original| && p[..|prefix|] == prefix
    decreases |original| - |prefix|, 0, |original| - i
  {
    if i < |original| {
      CompletionsFromArePermutations(original, prefix, used, i + 1);
      if !used[i] {
        var q := prefix + [original[i]];
        MarkUsed(original, used, i);
        CompletionsArePermutations(original, q, used[i := true]);
        forall p | p in Completions(original, q, used[i := true])
          ensures p[..|prefix|] == prefix
        {
          assert p[..|prefix|] == p[..|q|][..|prefix|];
        }
      }
    }
  }

  /** From a consistent state there are `(|original| - |prefix|)!` completions. */
  lemma {:induction false} CompletionsCount(original: seq<char>, prefix: seq<char>, used: seq<bool>)
    requires Consistent(original, prefix, used)
    ensures |Completions(original, prefix, used)| == Factorial(|original| - |prefix|)
    decreases |original| - |prefix|, 1
  {
    if |prefix| < |original| {
      CompletionsFromCount(original, prefix, used, 0);
      assert used[0..] == used;
    }
  }

  /** Each free position from `i` on contributes `(|original| - |prefix| - 1)!` completions. */
  lemma {:induction false} CompletionsFromCount(original: seq<char>, prefix: seq<char>, used: seq<bool>, i: nat)
    requires Consistent(original, prefix, used) && |prefix| < |original| && i <= |original|
    ensures |CompletionsFrom(original, prefix, used, i)| == Free(used[i..]) * Factorial(|original| - |prefix| - 1)
    decreases |original| - |prefix|, 0, |original| - i
  {
    var f := Factorial(|original| - |prefix| - 1);
    if i < |original| {
      CompletionsFromCount(original, prefix, used, i + 1);
      FreeFrom(used, i);
      if !used[i] {
        MarkUsed(original, used, i);
        CompletionsCount(original, prefix + [original[i]], used[i := true]);
        MulSucc(Free(used[i + 1..]), f);
      }
    }
  }

  /**
   * `perm_build_helper`: with every slot filled append the current string;
   * otherwise, for each unused `i`, place `original[i]` in slot `k`, mark it
   * used, recurse on slot `k + 1` and unmark it. Slot `k` keeps the last
   * character placed; the slots before `k` and the marks are as found.
   */
  method PermBuildHelper(original: seq<char>, current: array<char>, used: array<bool>, k: nat,
                         results: seq<seq<char>>) returns (out: seq<seq<char>>)
    requires current.Length == |original| && used.Length == |original| && k <= |original|
    modifies current, used
    decreases |original| - k
    ensures used[..] == old(used[..])
    ensures current[..k] == old(current[..k])
    ensures out == results + Completions(original, old(current[..k]), old(used[..]))
  {
    if k == |original| {
      assert current[..] == current[..k];
      out := results + [current[..]];
      return;
    }
    ghost var prefix, marks := current[..k], used[..];
    out := results;
    var i := 0;
    while i < |original|
      invariant i <= |original|
      invariant used[..] == marks && current[..k] == prefix
      invariant out + CompletionsFrom(original, prefix, marks, i) == results + CompletionsFrom(original, prefix, marks, 0)
    {
      if !used[i] {
        current[k] := original[i];
        used[i] := true;
        assert current[..k + 1] == prefix + [original[i]];
        assert used[..] == marks[i := true];
        out := PermBuildHelper(original, current, used, k + 1, out);
        assert current[..k] == current[..k + 1][..k];
        used[i] := false;
        assert used[..] == marks;
      }
      i := i + 1;
    }
  }

  /** A `used` vector with nothing marked is consistent with the empty prefix. */
  lemma {:induction false} NothingUsed(original: seq<char>, used: seq<bool>)
    requires |used| == |original| && forall j :: 0 <= j < |used| ==> !used[j]
    ensures Consistent(original, [], used)
  {
    if original != [] {
      NothingUsed(original[1..], used[1..]);
    }
  }

  /**
   * `generate_permutations_backtracking`: the empty string alone for the
   * empty input; otherwise `perm_build_helper` from slot 0 with a blank
   * scratch string and nothing used. The result has `|s|!` entries, each a
   * rearrangement of `s`.
   */
  method GeneratePermutationsBacktracking(s: seq<char>) returns (results: seq<seq<char>>)
    ensures s == [] ==> results == [[]]
    ensures results == Completions(s, [], seq(|s|, _ => false))
    ensures |results| == Factorial(|s|)
    ensures forall p :: p in results ==> multiset(p) == multiset(s)
  {
    if s == [] {
      return [[]];
    }
    var current := new char[|s|](_ => ' ');
    var used := new bool[|s|](_ => false);
    assert used[..] == seq(|s|, _ => false);
    NothingUsed(s, used[..]);
    results := PermBuildHelper(s, current, used, 0, []);
    CompletionsCount(s, [], used[..]);
    CompletionsArePermutations(s, [], used[..]);
  }
}

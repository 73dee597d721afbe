/** Substring search on strings, as JavaScript's `String.prototype.includes`. */
module Strings {

  /** `s.includes(needle)`: `needle` occurs somewhere in `s` as a contiguous block. */
  predicate Includes(s: string, needle: string)
    decreases |s|
  {
    needle <= s || (|s| > 0 && Includes(s[1..], needle))
  }

  /** True when `needle` sits in `s` starting at position `i`. */
  predicate OccursAt(s: string, needle: string, i: nat)
  {
    i + |needle| <= |s| && s[i..i + |needle|] == needle
  }

  /** The recursive search agrees with the positional definition of a substring. */
  lemma {:induction false} IncludesIff(s: string, needle: string)
    ensures Includes(s, needle) <==> exists i: nat :: OccursAt(s, needle, i)
  {
    if needle <= s {
      assert OccursAt(s, needle, 0);
    } else if |s| > 0 {
      IncludesIff(s[1..], needle);
      if exists i: nat :: OccursAt(s, needle, i) {
        var i: nat :| OccursAt(s, needle, i);
        assert i != 0;
        assert OccursAt(s[1..], needle, i - 1) by {
          assert s[1..][i - 1..i - 1 + |needle|] == s[i..i + |needle|];
        }
      }
      if exists j: nat :: OccursAt(s[1..], needle, j) {
        var j: nat :| OccursAt(s[1..], needle, j);
        assert s[1..][j..j + |needle|] == s[j + 1..j + 1 + |needle|];
        assert OccursAt(s, needle, j + 1);
      }
    } else {
      assert forall i: nat :: !OccursAt(s, needle, i);
    }
  }

  /** A non-empty needle is never found in a shorter string; in particular not in "". */
  lemma {:induction false} IncludesNeedsRoom(s: string, needle: string)
    requires Includes(s, needle)
    ensures |needle| <= |s|
    decreases |s|
  {
    if !(needle <= s) {
      IncludesNeedsRoom(s[1..], needle);
    }
  }
}

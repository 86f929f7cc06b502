/**
 * Case-insensitive literal substring matching.
 *
 * The role search builds a regular expression from the escaped query with the
 * case-insensitive flag and tests every display name against it. Because the
 * query is escaped, the expression matches exactly the query's characters,
 * anywhere in the name, ignoring case. This module states that test directly:
 * an ASCII lower-casing of characters and a substring search over it.
 */
module RoleText {

  /** ASCII lower-casing: 'A'..'Z' map to 'a'..'z', every other character is kept. */
  function Lower(c: char): (r: char)
    ensures !('A' <= r <= 'Z')
    ensures 'A' <= c <= 'Z' ==> r as int == c as int + 32
    ensures !('A' <= c <= 'Z') ==> r == c
  {
    if 'A' <= c <= 'Z' then (c as int - 'A' as int + 'a' as int) as char else c
  }

  /**
   * Two characters are equal ignoring case exactly when they are equal or one
   * is the capital of the other: case, and nothing but case, is ignored.
   */
  lemma LowerEqIff(a: char, b: char)
    ensures Lower(a) == Lower(b) <==>
      (a == b || ('A' <= a <= 'Z' && b as int == a as int + 32) || ('A' <= b <= 'Z' && a as int == b as int + 32))
  {
  }

  /** Two strings that differ at most in the case of their letters. */
  predicate SameIgnoringCase(a: string, b: string)
  {
    |a| == |b| && forall j :: 0 <= j < |a| ==> Lower(a[j]) == Lower(b[j])
  }

  /** The needle occurs in the haystack at position i, ignoring case. */
  predicate MatchesAt(haystack: string, needle: string, i: nat)
  {
    i + |needle| <= |haystack| &&
    forall j :: 0 <= j < |needle| ==> Lower(haystack[i + j]) == Lower(needle[j])
  }

  /** Reference definition: some position of the haystack starts an occurrence of the needle. */
  ghost predicate OccursCI(haystack: string, needle: string)
  {
    exists i: nat :: MatchesAt(haystack, needle, i)
  }

  /** An occurrence at i + 1 in the haystack is an occurrence at i in its tail. */
  lemma MatchesAtTail(haystack: string, needle: string, i: nat)
    requires |haystack| > 0
    ensures MatchesAt(haystack, needle, i + 1) <==> MatchesAt(haystack[1..], needle, i)
  {
    var tail := haystack[1..];
    assert forall k :: 0 <= k < |tail| ==> tail[k] == haystack[k + 1];
  }

  /** Without an occurrence at position 0, the needle occurs in the haystack exactly when it occurs in its tail. */
  lemma OccursInTail(haystack: string, needle: string)
    requires |haystack| > 0 && !MatchesAt(haystack, needle, 0)
    ensures OccursCI(haystack, needle) <==> OccursCI(haystack[1..], needle)
  {
    if OccursCI(haystack, needle) {
      var i: nat :| MatchesAt(haystack, needle, i);
      assert i != 0;
      MatchesAtTail(haystack, needle, i - 1);
      assert MatchesAt(haystack[1..], needle, i - 1);
    }
    if OccursCI(haystack[1..], needle) {
      var i: nat :| MatchesAt(haystack[1..], needle, i);
      MatchesAtTail(haystack, needle, i);
      assert MatchesAt(haystack, needle, i + 1);
    }
  }

  /**
   * The search the widget runs: try position 0, then the rest of the
   * haystack. It succeeds exactly when the needle occurs somewhere.
   */
  function ContainsCI(haystack: string, needle: string): (b: bool)
    ensures b <==> OccursCI(haystack, needle)
    decreases |haystack|
  {
    if |needle| > |haystack| then
      assert forall i: nat :: !MatchesAt(haystack, needle, i);
      false
    else if MatchesAt(haystack, needle, 0) then
      true
    else
      OccursInTail(haystack, needle);
      ContainsCI(haystack[1..], needle)
  }

  /** Changing the case of letters in the query or in the name never changes the outcome. */
  lemma {:induction false} ContainsCIIgnoresCase(h1: string, h2: string, n1: string, n2: string)
    requires SameIgnoringCase(h1, h2) && SameIgnoringCase(n1, n2)
    ensures ContainsCI(h1, n1) == ContainsCI(h2, n2)
    decreases |h1|
  {
    if |n1| <= |h1| {
      assert MatchesAt(h1, n1, 0) == MatchesAt(h2, n2, 0) by {
        forall j | 0 <= j < |n1|
          ensures Lower(h1[j]) == Lower(h2[j]) && Lower(n1[j]) == Lower(n2[j])
        {
        }
      }
      if |h1| > 0 {
        assert SameIgnoringCase(h1[1..], h2[1..]) by {
          forall j | 0 <= j < |h1| - 1
            ensures Lower(h1[1..][j]) == Lower(h2[1..][j])
          {
            assert h1[1..][j] == h1[j + 1] && h2[1..][j] == h2[j + 1];
          }
        }
        ContainsCIIgnoresCase(h1[1..], h2[1..], n1, n2);
      }
    }
  }

  /**
   * The query is matched literally: a name equal to "a.b*" contains the query
   * "a.b*", while "axbb", which the unescaped pattern a.b* would match, does not.
   */
  lemma MetacharactersAreLiteral()
    ensures ContainsCI("a.b*", "a.b*")
    ensures !ContainsCI("axbb", "a.b*")
  {
    assert MatchesAt("a.b*", "a.b*", 0);
    assert !MatchesAt("axbb", "a.b*", 0) by {
      assert Lower("axbb"[1]) != Lower("a.b*"[1]);
    }
    assert !ContainsCI("xbb", "a.b*");
  }
}

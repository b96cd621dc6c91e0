/**
 * String operations the query relies on: `LOWER(...)` in SQL, `toLowerCase()`
 * in the route, and the pattern `LIKE '%needle%'`.
 */
module Text {

  /** Case folding of one character, restricted to ASCII letters. */
  function LowerChar(c: char): (r: char)
    ensures 'A' <= c <= 'Z' ==> 'a' <= r <= 'z' && r as int == c as int + 32
    ensures !('A' <= c <= 'Z') ==> r == c
  {
    if 'A' <= c <= 'Z' then (c as int + 32) as char else c
  }

  /** `c` and `d` are one character, or an ASCII upper-case letter and its lower-case form. */
  predicate SameUpToCase(c: char, d: char) {
    c == d || ('A' <= c <= 'Z' && d as int == c as int + 32) || ('A' <= d <= 'Z' && c as int == d as int + 32)
  }

  /** Characters that differ only in ASCII letter case fold to the same character. */
  lemma LowerCharIgnoresCase(c: char, d: char)
    requires SameUpToCase(c, d)
    ensures LowerChar(c) == LowerChar(d)
  {
  }

  /** `LOWER(s)`, also used for the route's `search.toLowerCase()`. */
  function Lower(s: string): (r: string)
    ensures |r| == |s|
    ensures forall i :: 0 <= i < |s| ==> r[i] == LowerChar(s[i])
  {
    if s == [] then [] else [LowerChar(s[0])] + Lower(s[1..])
  }

  predicate StartsWith(s: string, prefix: string) {
    |prefix| <= |s| && s[..|prefix|] == prefix
  }

  /** `s LIKE '%needle%'` for a needle without wildcard characters. */
  predicate Contains(s: string, needle: string)
    ensures Contains(s, needle) ==> |needle| <= |s|
    decreases |s|
  {
    StartsWith(s, needle) || (|s| > 0 && Contains(s[1..], needle))
  }

  /** `needle` occurs in `s` starting at offset `k`. */
  predicate OccursAt(s: string, needle: string, k: int) {
    0 <= k && k + |needle| <= |s| && s[k..k + |needle|] == needle
  }

  /** The pattern matches exactly when the needle occurs at some offset of `s`. */
  lemma ContainsIffOccurs(s: string, needle: string)
    ensures Contains(s, needle) <==> exists k :: OccursAt(s, needle, k)
  {
    if exists k :: OccursAt(s, needle, k) {
      var k :| OccursAt(s, needle, k);
      OccursThenContains(s, needle, k);
    }
    if Contains(s, needle) {
      var k := ContainsThenOccurs(s, needle);
    }
  }

  /** An occurrence at any offset makes the pattern match. */
  lemma {:induction false} OccursThenContains(s: string, needle: string, k: int)
    requires OccursAt(s, needle, k)
    ensures Contains(s, needle)
    decreases k
  {
    if k == 0 {
      assert StartsWith(s, needle);
    } else {
      assert s[1..][k - 1..k - 1 + |needle|] == s[k..k + |needle|];
      OccursThenContains(s[1..], needle, k - 1);
    }
  }

  /** A match yields an offset at which the needle occurs. */
  lemma {:induction false} ContainsThenOccurs(s: string, needle: string) returns (k: int)
    requires Contains(s, needle)
    ensures OccursAt(s, needle, k)
    decreases |s|
  {
    if StartsWith(s, needle) {
      k := 0;
    } else {
      var j := ContainsThenOccurs(s[1..], needle);
      assert s[1..][j..j + |needle|] == s[j + 1..j + 1 + |needle|];
      k := j + 1;
    }
  }

  /** `LIKE '%%'` matches every string. */
  lemma ContainsEmpty(s: string)
    ensures Contains(s, "")
  {
    assert StartsWith(s, "");
  }
}

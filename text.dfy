/**
 * Case-insensitive substring tests, the `icontains` lookup of the search
 * query. Case folding is ASCII only: 'A'..'Z' map to 'a'..'z'.
 */
module Text {

  /**
   * Two characters that differ at most in ASCII letter case: equal, or an
   * ASCII letter and its partner of the other case.
   */
  predicate CaseMates(c: char, d: char) {
    || c == d
    || ('A' <= c <= 'Z' && d as int == c as int + 32)
    || ('a' <= c <= 'z' && d as int == c as int - 32)
  }

  /** Two strings that differ at most in ASCII letter case, position by position. */
  predicate SameUpToCase(s: string, t: string) {
    |s| == |t| && forall i :: 0 <= i < |s| ==> CaseMates(s[i], t[i])
  }

  /** The small-letter form of `c`: its case partner if it is a capital, `c` itself otherwise. */
  function LowerChar(c: char): (d: char)
    ensures CaseMates(c, d)
    ensures !('A' <= d <= 'Z')
  {
    if 'A' <= c <= 'Z' then (c as int - 'A' as int + 'a' as int) as char else c
  }

  /** `s` with every ASCII capital replaced by its small letter: the same text up to case, with no capital left. */
  function Lower(s: string): (r: string)
    ensures SameUpToCase(s, r)
    ensures forall i :: 0 <= i < |r| ==> !('A' <= r[i] <= 'Z')
    ensures forall i :: 0 <= i < |s| ==> r[i] == LowerChar(s[i])
  {
    seq(|s|, i requires 0 <= i < |s| => LowerChar(s[i]))
  }

  /** Lower-casing twice is lower-casing once. */
  lemma LowerIdempotent(s: string)
    ensures Lower(Lower(s)) == Lower(s)
  {
  }

  /** `n` occurs in `h` starting at position `k`. */
  ghost predicate OccursAt(n: string, h: string, k: int) {
    0 <= k && k + |n| <= |h| && h[k..k + |n|] == n
  }

  /** An occurrence past the first position of `h` is an occurrence in `h[1..]`, one place earlier. */
  lemma ShiftOccurrence(n: string, h: string)
    requires |h| > 0
    ensures forall k :: 1 <= k ==> (OccursAt(n, h, k) <==> OccursAt(n, h[1..], k - 1))
  {
  }

  /** Whether `n` is a substring of `h`, scanning left to right. */
  function Contains(h: string, n: string): (b: bool)
    ensures b <==> exists k :: OccursAt(n, h, k)
    decreases |h|
  {
    if |n| > |h| then false
    else if h[..|n|] == n then assert OccursAt(n, h, 0); true
    else
      assert !OccursAt(n, h, 0);
      ShiftOccurrence(n, h);
      var b := Contains(h[1..], n);
      assert b ==> exists k :: OccursAt(n, h, k) by {
        if b {
          var k :| OccursAt(n, h[1..], k);
          assert OccursAt(n, h, k + 1);
        }
      }
      b
  }

  /** Being a substring is transitive. */
  lemma {:induction false} ContainsTransitive(h: string, m: string, n: string)
    requires Contains(h, m) && Contains(m, n)
    ensures Contains(h, n)
  {
    var i :| OccursAt(m, h, i);
    var j :| OccursAt(n, m, j);
    var direct, nested := h[i + j..i + j + |n|], h[i..i + |m|][j..j + |n|];
    assert forall t :: 0 <= t < |n| ==> direct[t] == nested[t];
    assert direct == nested;
    assert OccursAt(n, h, i + j);
  }

  /** `n` occurs in `h`, ignoring case. */
  ghost predicate Mentions(h: string, n: string) {
    exists k :: OccursAt(Lower(n), Lower(h), k)
  }

  /** Django's `icontains`: `n` occurs in `h` when both are lower-cased. */
  function IContains(h: string, n: string): (b: bool)
    ensures b <==> Mentions(h, n)
  {
    Contains(Lower(h), Lower(n))
  }

  /** Case-insensitive containment is transitive too. */
  lemma IContainsTransitive(h: string, m: string, n: string)
    requires IContains(h, m) && IContains(m, n)
    ensures IContains(h, n)
  {
    LowerIdempotent(m);
    ContainsTransitive(Lower(h), Lower(m), Lower(n));
  }

  /** Texts that differ only in letter case fold to the same text. */
  lemma LowerIgnoresCase(s: string, t: string)
    requires SameUpToCase(s, t)
    ensures Lower(s) == Lower(t)
  {
  }

  /** Letter case matters neither in the text nor in the query. */
  lemma IContainsIgnoresCase(h: string, h': string, n: string, n': string)
    requires SameUpToCase(h, h') && SameUpToCase(n, n')
    ensures IContains(h, n) == IContains(h', n')
  {
    LowerIgnoresCase(h, h');
    LowerIgnoresCase(n, n');
  }
}

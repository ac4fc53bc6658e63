/** String utilities with the semantics of the JavaScript built-ins the editor relies on. */
module Text {

  /** `s` written `k` times in a row, as `String.prototype.repeat`. */
  function Repeat(s: string, k: nat): (r: string)
    ensures |r| == k * |s|
    ensures forall i :: 0 <= i < |r| ==> r[i] in s
  {
    if k == 0 then [] else s + Repeat(s, k - 1)
  }

  /** Character `i` of `s` written `k` times is character `i mod |s|` of `s`: copy after copy of `s`. */
  lemma {:induction false} RepeatContents(s: string, k: nat)
    ensures forall i :: 0 <= i < |Repeat(s, k)| ==> Repeat(s, k)[i] == s[i % |s|]
  {
    if k > 0 {
      var r, rest := Repeat(s, k), Repeat(s, k - 1);
      RepeatContents(s, k - 1);
      forall i | 0 <= i < |r|
        ensures r[i] == s[i % |s|]
      {
        if i < |s| {
          ModBelow(i, |s|);
        } else {
          assert r[i] == rest[i - |s|];
          ModShift(i, |s|);
        }
      }
    }
  }

  lemma ModBelow(i: int, m: int)
    requires 0 <= i < m
    ensures i % m == i
  {
  }

  lemma ModShift(i: int, m: int)
    requires 0 < m <= i
    ensures (i - m) % m == i % m
  {
    var q, r := i / m, i % m;
    assert i == q * m + r;
    assert i - m == (q - 1) * m + r;
    ModUnique(i - m, m, q - 1, r);
  }

  /** A remainder below `m` is the remainder. */
  lemma ModUnique(x: int, m: int, q: int, r: int)
    requires 0 <= r < m && x == q * m + r
    ensures x % m == r
  {
    var q2, r2 := x / m, x % m;
    assert x == q2 * m + r2;
    if q > q2 {
      MulDiff(q, q2, m);
    } else if q < q2 {
      MulDiff(q2, q, m);
    }
  }

  /** Products by `m` of numbers that differ lie at least `m` apart. */
  lemma MulDiff(a: int, b: int, m: int)
    requires a > b && m > 0
    ensures a * m >= b * m + m
  {
    MulAtLeast(a - b, m);
    assert a * m == (a - b) * m + b * m;
  }

  lemma {:induction false} MulAtLeast(a: int, m: int)
    requires a >= 1 && m > 0
    ensures a * m >= m
    decreases a
  {
    if a > 1 {
      MulAtLeast(a - 1, m);
      assert a * m == (a - 1) * m + m;
    }
  }

  /** A text is its three pieces around two cut points. */
  lemma SplitThree(s: string, i: int, j: int)
    requires 0 <= i <= j <= |s|
    ensures s == s[..i] + s[i..j] + s[j..]
  {
    assert s[..j] == s[..i] + s[i..j];
  }

  /** `pat` starts at index `k` of `s`. */
  predicate Occurs(s: string, pat: string, k: int) {
    0 <= k && k + |pat| <= |s| && s[k..k + |pat|] == pat
  }

  /** A pattern whose first character differs from the text's character at `k` does not start there. */
  lemma NotOccursAt(s: string, pat: string, k: int)
    requires 0 <= k < |s| && |pat| > 0 && s[k] != pat[0]
    ensures !Occurs(s, pat, k)
  {
    if k + |pat| <= |s| {
      assert s[k..k + |pat|][0] != pat[0];
    }
  }

  /** Inside a stretch of `s` equal to `u`, occurrences in `s` are the occurrences in `u`. */
  lemma OccursInside(s: string, u: string, pat: string, a: int, k: int)
    requires 0 <= a <= k && a + |u| <= |s| && s[a..a + |u|] == u
    requires k - a + |pat| <= |u|
    ensures Occurs(s, pat, k) <==> Occurs(u, pat, k - a)
  {
    var x, y := s[k..k + |pat|], u[k - a..k - a + |pat|];
    forall i | 0 <= i < |pat|
      ensures x[i] == y[i]
    {
      assert y[i] == u[k - a + i] == s[a..a + |u|][k - a + i];
    }
    assert x == y;
  }

  /** The largest index `i <= k` at which `pat` occurs in `s`, or -1 when there is none. */
  function FindDown(s: string, pat: string, k: int): (i: int)
    ensures -1 <= i <= (if k < 0 then -1 else k)
    decreases if k < 0 then 0 else k + 1
  {
    if k < 0 then -1
    else if Occurs(s, pat, k) then k
    else FindDown(s, pat, k - 1)
  }

  /**
   * `s.lastIndexOf(pat, from)`: the search starts at `from` clamped into `[0, |s|]`
   * and the result is -1 when `pat` does not occur at or before that position.
   */
  function LastIndexOf(s: string, pat: string, from: int): (i: int)
    ensures -1 <= i <= (if from < 0 then 0 else from)
  {
    var start := if from < 0 then 0 else if from > |s| then |s| else from;
    FindDown(s, pat, start)
  }

  /** The index found is an occurrence. */
  lemma {:induction false} FindDownFinds(s: string, pat: string, k: int)
    ensures FindDown(s, pat, k) == -1 || Occurs(s, pat, FindDown(s, pat, k))
    decreases if k < 0 then 0 else k + 1
  {
    if k >= 0 && !Occurs(s, pat, k) {
      FindDownFinds(s, pat, k - 1);
    }
  }

  /** `lastIndexOf` returns -1 or an index at which `pat` occurs. */
  lemma LastIndexOfFinds(s: string, pat: string, from: int)
    ensures LastIndexOf(s, pat, from) == -1 || Occurs(s, pat, LastIndexOf(s, pat, from))
  {
    var start := if from < 0 then 0 else if from > |s| then |s| else from;
    FindDownFinds(s, pat, start);
  }

  /** Nothing between the index found and the search start is an occurrence. */
  lemma {:induction false} FindDownIsLast(s: string, pat: string, k: int)
    ensures forall j :: FindDown(s, pat, k) < j <= k ==> !Occurs(s, pat, j)
    decreases if k < 0 then 0 else k + 1
  {
    if k >= 0 && !Occurs(s, pat, k) {
      FindDownIsLast(s, pat, k - 1);
    }
  }

  /**
   * `lastIndexOf` finds the last occurrence: none lies after the index found
   * and at or before the search start; -1 means there is none at all there.
   */
  lemma LastIndexOfIsLast(s: string, pat: string, from: int)
    ensures forall j :: LastIndexOf(s, pat, from) < j <= from ==> !Occurs(s, pat, j)
  {
    var start := if from < 0 then 0 else if from > |s| then |s| else from;
    FindDownIsLast(s, pat, start);
  }

  /** Moving the search start down across positions where `pat` does not occur changes nothing. */
  lemma {:induction false} FindDownSkips(s: string, pat: string, a: int, b: int)
    requires -1 <= a <= b
    requires forall j :: a < j <= b ==> !Occurs(s, pat, j)
    ensures FindDown(s, pat, b) == FindDown(s, pat, a)
    decreases b - a
  {
    if a < b {
      FindDownSkips(s, pat, a, b - 1);
    }
  }

  /** The search only looks at the text below `k + |pat|`. */
  lemma {:induction false} FindDownPrefix(s1: string, s2: string, pat: string, k: int, m: int)
    requires 0 <= m && k + |pat| <= m <= |s1| && m <= |s2|
    requires s1[..m] == s2[..m]
    ensures FindDown(s1, pat, k) == FindDown(s2, pat, k)
    decreases if k < 0 then 0 else k + 1
  {
    if k >= 0 {
      assert s1[k..k + |pat|] == s1[..m][k..k + |pat|];
      assert s2[k..k + |pat|] == s2[..m][k..k + |pat|];
      FindDownPrefix(s1, s2, pat, k - 1, m);
    }
  }

  /** `lastIndexOf` agrees on two texts that share the part it can see. */
  lemma LastIndexOfPrefix(s1: string, s2: string, pat: string, from: int, m: int)
    requires (if from < 0 then 0 else from) + |pat| <= m <= |s1| && m <= |s2|
    requires s1[..m] == s2[..m]
    ensures LastIndexOf(s1, pat, from) == LastIndexOf(s2, pat, from)
  {
    var start := if from < 0 then 0 else from;
    FindDownPrefix(s1, s2, pat, start, m);
  }
}

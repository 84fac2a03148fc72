/**
 * The publication-reference test of the candidate-pair filter: do two
 * strings share a contiguous substring of a given length?
 */
module SharedSubstring {

  /** The `n` characters of `s` from position `p` (`s[p:p+n]`). */
  function Window(s: string, p: nat, n: nat): string
    requires p + n <= |s|
  {
    s[p..p + n]
  }

  /** `sub in s` on Python strings: `sub` occurs contiguously somewhere in `s`. */
  predicate Occurs(sub: string, s: string) {
    exists j :: 0 <= j <= |s| - |sub| && Window(s, j, |sub|) == sub
  }

  /** The loop `for i in range(len(s1) - n + 1)` from position `i` on: some later window of `s1` occurs in `s2`. */
  function ScanFrom(s1: string, s2: string, n: nat, i: nat): (found: bool)
    decreases |s1| - i
    ensures found <==> exists p :: i <= p <= |s1| - n && Occurs(Window(s1, p, n), s2)
  {
    if i + n > |s1| then false
    else if Occurs(Window(s1, i, n), s2) then true
    else ScanFrom(s1, s2, n, i + 1)
  }

  /**
   * `has_shared_substring_of_length_n`: false when either string is empty;
   * otherwise true exactly when some length-`n` window of `s1` occurs in `s2`.
   */
  function HasSharedSubstringOfLengthN(s1: string, s2: string, n: nat): (r: bool)
    ensures r <==> s1 != [] && s2 != [] && exists p :: 0 <= p <= |s1| - n && Occurs(Window(s1, p, n), s2)
  {
    if s1 == [] || s2 == [] then false else ScanFrom(s1, s2, n, 0)
  }

  /** Both strings hold the same `n` characters at positions `p` and `q`. */
  ghost predicate CommonAt(s1: string, s2: string, n: nat, p: int, q: int) {
    0 <= p <= |s1| - n && 0 <= q <= |s2| - n && Window(s1, p, n) == Window(s2, q, n)
  }

  /** The test succeeds exactly when both strings are non-empty and hold a common length-`n` substring. */
  lemma SharedIffCommon(s1: string, s2: string, n: nat)
    ensures HasSharedSubstringOfLengthN(s1, s2, n)
            <==> s1 != [] && s2 != [] && exists p, q :: CommonAt(s1, s2, n, p, q)
  {
    if HasSharedSubstringOfLengthN(s1, s2, n) {
      var p :| 0 <= p <= |s1| - n && Occurs(Window(s1, p, n), s2);
      var q :| 0 <= q <= |s2| - n && Window(s2, q, n) == Window(s1, p, n);
      assert CommonAt(s1, s2, n, p, q);
    }
    if s1 != [] && s2 != [] && exists p, q :: CommonAt(s1, s2, n, p, q) {
      var p, q :| CommonAt(s1, s2, n, p, q);
      assert Occurs(Window(s1, p, n), s2);
    }
  }

  /** A string shorter than `n` (in particular an empty one) never shares a length-`n` substring. */
  lemma ShortNeverShares(s1: string, s2: string, n: nat)
    requires |s1| < n || |s2| < n
    ensures !HasSharedSubstringOfLengthN(s1, s2, n)
  {
    SharedIffCommon(s1, s2, n);
  }

  /** The test does not depend on the order of its two arguments. */
  lemma SharedSymmetric(s1: string, s2: string, n: nat)
    ensures HasSharedSubstringOfLengthN(s1, s2, n) == HasSharedSubstringOfLengthN(s2, s1, n)
  {
    SharedIffCommon(s1, s2, n);
    SharedIffCommon(s2, s1, n);
    if exists p, q :: CommonAt(s1, s2, n, p, q) {
      var p, q :| CommonAt(s1, s2, n, p, q);
      assert CommonAt(s2, s1, n, q, p);
    }
    if exists p, q :: CommonAt(s2, s1, n, p, q) {
      var p, q :| CommonAt(s2, s1, n, p, q);
      assert CommonAt(s1, s2, n, q, p);
    }
  }
}

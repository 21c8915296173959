/**
 * The loose email heuristic both auth pages apply with
 * `/\S+@\S+\.\S+/.test(value)`. The regular expression is not anchored, so a
 * value passes when SOME stretch of it has the shape
 * "non-whitespace run, `@`, non-whitespace run, `.`, non-whitespace run".
 * `\S` is every character outside the whitespace set of `JsText`, which
 * includes `@` and `.` themselves.
 */
module EmailPattern {
  import opened JsText

  /** s[lo..hi] is a non-empty run of the kind `\S+` matches. */
  predicate NonSpaceRun(s: string, lo: int, hi: int)
    requires 0 <= lo <= hi <= |s|
  {
    lo < hi && forall k :: lo <= k < hi ==> !IsWhitespace(s[k])
  }

  /**
   * `\S+@\S+\.\S+` matches s[a..e] with its `@` at index i and its `.` at
   * index d.
   */
  ghost predicate MatchSpan(s: string, a: int, i: int, d: int, e: int) {
    && 0 <= a < i && i + 1 < d && d + 1 < e <= |s|
    && NonSpaceRun(s, a, i) && s[i] == '@'
    && NonSpaceRun(s, i + 1, d) && s[d] == '.'
    && NonSpaceRun(s, d + 1, e)
  }

  /** What `RegExp.prototype.test` answers for the pattern: some span of s matches. */
  ghost predicate RegexTest(s: string) {
    exists a, i, d, e :: MatchSpan(s, a, i, d, e)
  }

  /** The shortest match around an `@` at i and a `.` at d: one character before the `@`, one after the `.`. */
  ghost predicate ShortestMatch(s: string, i: int, d: int) {
    0 < i && d + 2 <= |s| && MatchSpan(s, i - 1, i, d, d + 2)
  }

  /**
   * Scanning the run after an `@` from index j: before leaving the run it
   * reaches a `.` that is followed by a non-whitespace character.
   */
  predicate DotAhead(s: string, j: nat)
    decreases |s| - j
  {
    j + 1 < |s| && ((s[j] == '.' && !IsWhitespace(s[j + 1])) || (!IsWhitespace(s[j]) && DotAhead(s, j + 1)))
  }

  /** The pattern matches with its `@` at index i. */
  predicate MatchAt(s: string, i: nat) {
    0 < i && i + 2 < |s| && s[i] == '@' && !IsWhitespace(s[i - 1]) && !IsWhitespace(s[i + 1])
    && DotAhead(s, i + 2)
  }

  /** The pattern matches with its `@` at index i or later. */
  predicate MatchesFrom(s: string, i: nat)
    decreases |s| - i
  {
    i < |s| && (MatchAt(s, i) || MatchesFrom(s, i + 1))
  }

  /** The test as the pages run it: a left-to-right search for an `@` the pattern can match around. */
  predicate MatchesEmailPattern(s: string) {
    MatchesFrom(s, 0)
  }

  lemma {:induction false} DotAheadSound(s: string, j: nat) returns (d: nat)
    requires DotAhead(s, j)
    ensures j <= d && d + 1 < |s| && s[d] == '.' && !IsWhitespace(s[d + 1])
    ensures forall k :: j <= k < d ==> !IsWhitespace(s[k])
    decreases |s| - j
  {
    if s[j] == '.' && !IsWhitespace(s[j + 1]) {
      d := j;
    } else {
      d := DotAheadSound(s, j + 1);
    }
  }

  lemma {:induction false} DotAheadComplete(s: string, j: nat, d: nat)
    requires j <= d && d + 1 < |s| && s[d] == '.' && !IsWhitespace(s[d + 1])
    requires forall k :: j <= k < d ==> !IsWhitespace(s[k])
    ensures DotAhead(s, j)
    decreases d - j
  {
    if j < d {
      DotAheadComplete(s, j + 1, d);
    }
  }

  /** A match found around the `@` at i is a shortest match ending at some `.`. */
  lemma MatchAtSound(s: string, i: nat) returns (d: nat)
    requires MatchAt(s, i)
    ensures ShortestMatch(s, i, d)
  {
    d := DotAheadSound(s, i + 2);
  }

  lemma MatchAtComplete(s: string, i: nat, d: nat)
    requires ShortestMatch(s, i, d)
    ensures MatchAt(s, i)
  {
    DotAheadComplete(s, i + 2, d);
  }

  lemma {:induction false} MatchesFromSound(s: string, i: nat) returns (k: nat)
    requires MatchesFrom(s, i)
    ensures i <= k < |s| && MatchAt(s, k)
    decreases |s| - i
  {
    if MatchAt(s, i) {
      k := i;
    } else {
      k := MatchesFromSound(s, i + 1);
    }
  }

  lemma {:induction false} MatchesFromComplete(s: string, i: nat, k: nat)
    requires i <= k < |s| && MatchAt(s, k)
    ensures MatchesFrom(s, i)
    decreases k - i
  {
    if i < k {
      MatchesFromComplete(s, i + 1, k);
    }
  }

  /** The search agrees with the regular expression on every string, in both directions. */
  lemma MatchesEmailPatternIffRegexTest(s: string)
    ensures MatchesEmailPattern(s) <==> RegexTest(s)
  {
    if MatchesEmailPattern(s) {
      var i := MatchesFromSound(s, 0);
      var d := MatchAtSound(s, i);
      assert MatchSpan(s, i - 1, i, d, d + 2);
    }
    if RegexTest(s) {
      var a, i, d, e :| MatchSpan(s, a, i, d, e);
      assert !IsWhitespace(s[i - 1]);
      assert !IsWhitespace(s[d + 1]);
      assert ShortestMatch(s, i, d);
      MatchAtComplete(s, i, d);
      MatchesFromComplete(s, 0, i);
    }
  }

  /** A shortest match inside a slice is a shortest match at the shifted positions of the whole string. */
  lemma ShortestMatchInSlice(s: string, lo: int, hi: int, i: int, d: int)
    requires 0 <= lo <= hi <= |s| && 0 < i && i + 1 < d && d + 2 <= hi - lo
    ensures ShortestMatch(s[lo..hi], i, d) <==> ShortestMatch(s, i + lo, d + lo)
  {
    var t := s[lo..hi];
    assert forall k :: i - 1 <= k < d + 2 ==> t[k] == s[k + lo];
    assert NonSpaceRun(t, i + 1, d) <==> NonSpaceRun(s, i + 1 + lo, d + lo) by {
      if NonSpaceRun(s, i + 1 + lo, d + lo) {
        forall k | i + 1 <= k < d ensures !IsWhitespace(t[k]) {
          assert t[k] == s[k + lo];
        }
      }
      if NonSpaceRun(t, i + 1, d) {
        forall k | i + 1 + lo <= k < d + lo ensures !IsWhitespace(s[k]) {
          assert s[k] == t[k - lo];
        }
      }
    }
  }

  /** A match in the whole string lies inside any stretch that only whitespace surrounds. */
  lemma MatchStaysInCore(s: string, lo: int, hi: int)
    requires 0 <= lo <= hi <= |s| && AllWhitespace(s, 0, lo) && AllWhitespace(s, hi, |s|)
    requires MatchesEmailPattern(s)
    ensures MatchesEmailPattern(s[lo..hi])
  {
    var i := MatchesFromSound(s, 0);
    var d := MatchAtSound(s, i);
    assert !IsWhitespace(s[i - 1]) && !IsWhitespace(s[d + 1]);
    assert lo <= i - 1 && d + 1 < hi;
    ShortestMatchInSlice(s, lo, hi, i - lo, d - lo);
    MatchAtComplete(s[lo..hi], i - lo, d - lo);
    MatchesFromComplete(s[lo..hi], 0, i - lo);
  }

  /** A match inside a stretch of the string is a match of the whole string. */
  lemma MatchInSliceMatches(s: string, lo: int, hi: int)
    requires 0 <= lo <= hi <= |s| && MatchesEmailPattern(s[lo..hi])
    ensures MatchesEmailPattern(s)
  {
    var t := s[lo..hi];
    var i := MatchesFromSound(t, 0);
    var d := MatchAtSound(t, i);
    ShortestMatchInSlice(s, lo, hi, i, d);
    MatchAtComplete(s, i + lo, d + lo);
    MatchesFromComplete(s, 0, i + lo);
  }

  /** Whitespace around a value never takes part in a match, so trimming does not change the verdict. */
  lemma MatchIgnoresSurroundingWhitespace(s: string)
    ensures MatchesEmailPattern(Trim(s)) <==> MatchesEmailPattern(s)
  {
    var lo := TrimSplit(s);
    var hi := lo + |Trim(s)|;
    if MatchesEmailPattern(s) {
      MatchStaysInCore(s, lo, hi);
    }
    if MatchesEmailPattern(Trim(s)) {
      MatchInSliceMatches(s, lo, hi);
    }
  }

  /** A value that passes holds an `@`, so it is not blank. */
  lemma MatchHasAt(s: string) returns (k: nat)
    requires MatchesEmailPattern(s)
    ensures k < |s| && s[k] == '@'
    ensures !AllWhitespace(s, 0, |s|)
  {
    k := MatchesFromSound(s, 0);
    assert !IsWhitespace(s[k]);
  }

  /** A value without an `@` never passes. */
  lemma NoAtNeverMatches(s: string)
    ensures '@' !in s ==> !MatchesEmailPattern(s)
  {
    if MatchesEmailPattern(s) {
      var k := MatchHasAt(s);
      assert s[k] in s;
    }
  }

  /** The match may sit anywhere in the value: text around an address does not stop it. */
  lemma UnanchoredSample()
    ensures MatchesEmailPattern("mail a@b.co now")
  {
  }

  /** A `.` straight after the `@` leaves the middle run empty, so the value fails. */
  lemma DotRightAfterAtFails()
    ensures !MatchesEmailPattern("ab@.cd")
  {
  }

  /** Whitespace in front of the `@` leaves the first run empty, so the value fails. */
  lemma SpaceBeforeAtFails()
    ensures !MatchesEmailPattern("a @b.c")
  {
  }
}

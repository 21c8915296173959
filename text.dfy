/**
 * The string primitives both auth pages lean on: the whitespace class that
 * `String.prototype.trim`, `trimStart` and the regular expression class `\s`
 * share in ECMAScript, and the three trimming operations.
 */
module JsText {

  /**
   * ECMAScript WhiteSpace and LineTerminator code points (the set behind `\s`
   * and `trim`): TAB, LF, VT, FF, CR, SPACE, NBSP, U+1680, U+2000 to U+200A,
   * U+2028, U+2029, U+202F, U+205F, U+3000 and the byte order mark U+FEFF.
   */
  predicate IsWhitespace(c: char) {
    var n := c as int;
    || 0x09 <= n <= 0x0D || n == 0x20 || n == 0xA0 || n == 0x1680
    || 0x2000 <= n <= 0x200A || n == 0x2028 || n == 0x2029 || n == 0x202F
    || n == 0x205F || n == 0x3000 || n == 0xFEFF
  }

  /**
   * `s.length`: the number of UTF-16 code units, one for each code point up
   * to U+FFFF and two (a surrogate pair) for each code point above it.
   */
  function Utf16Length(s: string): (n: nat)
    ensures |s| <= n <= 2 * |s|
    ensures (forall k :: 0 <= k < |s| ==> s[k] as int < 0x1_0000) ==> n == |s|
  {
    if s == [] then 0 else (if s[0] as int < 0x1_0000 then 1 else 2) + Utf16Length(s[1..])
  }

  /** Every character of s[lo..hi] is whitespace. */
  predicate AllWhitespace(s: string, lo: int, hi: int)
    requires 0 <= lo <= hi <= |s|
  {
    forall k :: lo <= k < hi ==> IsWhitespace(s[k])
  }

  /** How many whitespace characters `s` starts with. */
  function LeadingWhitespace(s: string): (n: nat)
    ensures n <= |s| && AllWhitespace(s, 0, n)
    ensures n == |s| || !IsWhitespace(s[n])
  {
    if s == [] || !IsWhitespace(s[0]) then 0 else 1 + LeadingWhitespace(s[1..])
  }

  /** How many whitespace characters `s` ends with. */
  function TrailingWhitespace(s: string): (n: nat)
    ensures n <= |s| && AllWhitespace(s, |s| - n, |s|)
    ensures n == |s| || !IsWhitespace(s[|s| - n - 1])
  {
    if s == [] || !IsWhitespace(s[|s| - 1]) then 0 else 1 + TrailingWhitespace(s[..|s| - 1])
  }

  /** `s.trimStart()`: drops the leading whitespace and keeps the rest as it is. */
  function TrimStart(s: string): (r: string)
    ensures r == [] || !IsWhitespace(r[0])
  {
    s[LeadingWhitespace(s)..]
  }

  /** `s.trimEnd()`: drops the trailing whitespace and keeps the rest as it is. */
  function TrimEnd(s: string): (r: string)
    ensures r == [] || !IsWhitespace(r[|r| - 1])
  {
    s[..|s| - TrailingWhitespace(s)]
  }

  /** `s.trim()`: drops whitespace at both ends. */
  function Trim(s: string): (r: string)
    ensures |r| <= |s|
    ensures r == [] || (!IsWhitespace(r[0]) && !IsWhitespace(r[|r| - 1]))
  {
    var t := TrimStart(s);
    var r := TrimEnd(t);
    assert r != [] ==> r[0] == t[0];
    r
  }

  /**
   * Where the trimmed string sits in the original: after `lo` whitespace
   * characters and before nothing but whitespace.
   */
  lemma TrimSplit(s: string) returns (lo: nat)
    ensures lo + |Trim(s)| <= |s|
    ensures Trim(s) == s[lo..lo + |Trim(s)|]
    ensures AllWhitespace(s, 0, lo) && AllWhitespace(s, lo + |Trim(s)|, |s|)
  {
    lo := LeadingWhitespace(s);
    var t := s[lo..];
    var r := Trim(s);
    assert r == t[..|t| - TrailingWhitespace(t)];
    assert r == s[lo..lo + |r|];
    assert AllWhitespace(s, lo + |r|, |s|) by {
      forall k | lo + |r| <= k < |s| ensures IsWhitespace(s[k]) {
        assert s[k] == t[k - lo];
      }
    }
  }

  /** JavaScript's `!s.trim()`: the string is empty or holds only whitespace. */
  predicate IsBlank(s: string) {
    Trim(s) == []
  }

  /** A string is blank exactly when every one of its characters is whitespace. */
  lemma BlankIffAllWhitespace(s: string)
    ensures IsBlank(s) <==> AllWhitespace(s, 0, |s|)
  {
    var r := Trim(s);
    var lo := TrimSplit(s);
    if r != [] {
      assert s[lo] == r[0];
    }
  }

  /**
   * Trimming is determined by the shape of the string: whatever whitespace
   * surrounds a core that starts and ends with non-whitespace, the trimmed
   * string is that core.
   */
  lemma {:induction false} TrimOfFramed(a: string, m: string, b: string)
    requires AllWhitespace(a, 0, |a|) && AllWhitespace(b, 0, |b|)
    requires m == [] || (!IsWhitespace(m[0]) && !IsWhitespace(m[|m| - 1]))
    ensures Trim(a + m + b) == m
  {
    var s := a + m + b;
    var t := TrimStart(s);
    if m == [] {
      assert s == a + b;
      assert AllWhitespace(s, 0, |s|) by {
        forall k | 0 <= k < |s| ensures IsWhitespace(s[k]) {
          if k < |a| { assert s[k] == a[k]; } else { assert s[k] == b[k - |a|]; }
        }
      }
      BlankIffAllWhitespace(s);
    } else {
      var i := |s| - |t|;
      assert s[|a|] == m[0];
      assert i <= |a|;
      assert t[0] == s[i];
      assert i == |a|;
      assert t == m + b;
      var r := TrimEnd(t);
      assert t[|m| - 1] == m[|m| - 1];
      assert |r| >= |m|;
      assert |r| > 0 && r[|r| - 1] == t[|r| - 1];
      assert |r| == |m|;
      assert r == t[..|m|] == m;
    }
  }

  /** Two all-whitespace strings joined are all whitespace. */
  lemma WhitespaceConcat(x: string, y: string)
    requires AllWhitespace(x, 0, |x|) && AllWhitespace(y, 0, |y|)
    ensures AllWhitespace(x + y, 0, |x + y|)
  {
    forall k | 0 <= k < |x + y| ensures IsWhitespace((x + y)[k]) {
      if k < |x| { assert (x + y)[k] == x[k]; } else { assert (x + y)[k] == y[k - |x|]; }
    }
  }

  /** A whitespace-only stretch of a string, cut out, is all whitespace. */
  lemma WhitespaceSlice(s: string, lo: int, hi: int)
    requires 0 <= lo <= hi <= |s| && AllWhitespace(s, lo, hi)
    ensures AllWhitespace(s[lo..hi], 0, hi - lo)
  {
    forall k | 0 <= k < hi - lo ensures IsWhitespace(s[lo..hi][k]) {
      assert s[lo..hi][k] == s[lo + k];
    }
  }

  /** Reassociates the five pieces of a padded string; a lemma of its own keeps `TrimIgnoresPadding` cheap. */
  lemma Regroup(p: string, head: string, m: string, tail: string, q: string)
    ensures p + (head + m + tail) + q == (p + head) + m + (tail + q)
  {
  }

  /** Every string is its trimmed value framed by whitespace on both sides. */
  lemma TrimFrame(v: string) returns (head: string, tail: string)
    ensures v == head + Trim(v) + tail
    ensures AllWhitespace(head, 0, |head|) && AllWhitespace(tail, 0, |tail|)
  {
    var lo := TrimSplit(v);
    var hi := lo + |Trim(v)|;
    head, tail := v[0..lo], v[hi..|v|];
    assert v == head + v[lo..hi] + tail;
    WhitespaceSlice(v, 0, lo);
    WhitespaceSlice(v, hi, |v|);
  }

  /** Whitespace placed around a string never changes what `trim` returns. */
  lemma TrimIgnoresPadding(p: string, v: string, q: string)
    requires AllWhitespace(p, 0, |p|) && AllWhitespace(q, 0, |q|)
    ensures Trim(p + v + q) == Trim(v)
  {
    var m := Trim(v);
    var head, tail := TrimFrame(v);
    WhitespaceConcat(p, head);
    WhitespaceConcat(tail, q);
    Regroup(p, head, m, tail, q);
    TrimOfFramed(p + head, m, tail + q);
  }

  /** Trimming what `trimStart` kept gives the same result as trimming the original. */
  lemma TrimAfterTrimStart(s: string)
    ensures Trim(TrimStart(s)) == Trim(s)
  {
    var t := TrimStart(s);
    var p := s[..|s| - |t|];
    assert s == p + t + [];
    TrimIgnoresPadding(p, t, []);
  }
}

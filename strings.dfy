/** The two string operations the explorer applies to user drafts and file
    names: `trim()` and `split('.').pop()`. Strings are sequences of Unicode
    scalar values. */
module Strings {

  /** The characters `String.prototype.trim` strips: the ECMAScript
      WhiteSpace and LineTerminator code points. */
  predicate IsWhitespace(c: char) {
    || c == '\t' || c == '\n' || c == '\U{000B}' || c == '\U{000C}' || c == '\r'
    || c == ' ' || c == '\U{00A0}' || c == '\U{1680}'
    || ('\U{2000}' <= c <= '\U{200A}')
    || c == '\U{2028}' || c == '\U{2029}' || c == '\U{202F}' || c == '\U{205F}'
    || c == '\U{3000}' || c == '\U{FEFF}'
  }

  ghost predicate AllWhitespace(s: string) {
    forall i :: 0 <= i < |s| ==> IsWhitespace(s[i])
  }

  /** `s` is `r` surrounded by whitespace only, and `r` itself neither starts
      nor ends with whitespace. */
  ghost predicate IsTrimOf(r: string, s: string) {
    && (exists k :: 0 <= k <= |s| - |r| && s[k..k + |r|] == r
                  && AllWhitespace(s[..k]) && AllWhitespace(s[k + |r|..]))
    && (r != [] ==> !IsWhitespace(r[0]) && !IsWhitespace(r[|r| - 1]))
  }

  /** The first index at or after `i` whose character is not whitespace,
      or `|s|`. */
  function SkipStart(s: string, i: nat): (k: nat)
    requires i <= |s|
    ensures i <= k <= |s|
    ensures forall j :: i <= j < k ==> IsWhitespace(s[j])
    ensures k < |s| ==> !IsWhitespace(s[k])
    decreases |s| - i
  {
    if i < |s| && IsWhitespace(s[i]) then SkipStart(s, i + 1) else i
  }

  /** The index just past the last character before `j`, and at or after
      `lo`, that is not whitespace, or `lo`. */
  function SkipEnd(s: string, lo: nat, j: nat): (k: nat)
    requires lo <= j <= |s|
    ensures lo <= k <= j
    ensures forall m :: k <= m < j ==> IsWhitespace(s[m])
    ensures k > lo ==> !IsWhitespace(s[k - 1])
    decreases j
  {
    if j > lo && IsWhitespace(s[j - 1]) then SkipEnd(s, lo, j - 1) else j
  }

  /** `s.trim()`. */
  function Trim(s: string): (r: string)
    ensures IsTrimOf(r, s)
    ensures r == [] <==> AllWhitespace(s)
  {
    var a := SkipStart(s, 0);
    var b := SkipEnd(s, a, |s|);
    TrimFacts(s, a, b);
    s[a..b]
  }

  /** What the two skips establish about the slice between them. */
  lemma TrimFacts(s: string, a: nat, b: nat)
    requires a <= b <= |s|
    requires forall j :: 0 <= j < a ==> IsWhitespace(s[j])
    requires a < |s| ==> !IsWhitespace(s[a])
    requires forall m :: b <= m < |s| ==> IsWhitespace(s[m])
    requires b > a ==> !IsWhitespace(s[b - 1])
    ensures IsTrimOf(s[a..b], s)
    ensures s[a..b] == [] <==> AllWhitespace(s)
  {
    var r := s[a..b];
    assert AllWhitespace(s[..a]) by {
      forall i | 0 <= i < a ensures IsWhitespace(s[..a][i]) {
        assert s[..a][i] == s[i];
      }
    }
    assert AllWhitespace(s[b..]) by {
      forall i | 0 <= i < |s| - b ensures IsWhitespace(s[b..][i]) {
        assert s[b..][i] == s[b + i];
      }
    }
    assert s[a..a + |r|] == r && s[a + |r|..] == s[b..];
    if r == [] {
      assert a == b;
    } else {
      assert r[0] == s[a] && r[|r| - 1] == s[b - 1];
      NotAllWhitespace(s, a);
    }
  }

  lemma NotAllWhitespace(s: string, i: int)
    requires 0 <= i < |s| && !IsWhitespace(s[i])
    ensures !AllWhitespace(s)
  {
  }

  /** A string that neither starts nor ends with whitespace is its own trim. */
  lemma TrimUnpadded(s: string)
    requires s != [] ==> !IsWhitespace(s[0]) && !IsWhitespace(s[|s| - 1])
    ensures Trim(s) == s
  {
    if s != [] {
      assert SkipStart(s, 0) == 0;
      assert SkipEnd(s, 0, |s|) == |s|;
    }
    assert s[0..|s|] == s;
  }

  /** A trailing blank after an unpadded string is trimmed away. */
  lemma TrimTrailingBlank(s: string)
    requires s != [] && !IsWhitespace(s[0]) && !IsWhitespace(s[|s| - 1])
    ensures Trim(s + " ") == s
  {
    var t := s + " ";
    assert t[0] == s[0] && t[|t| - 2] == s[|s| - 1];
    assert SkipStart(t, 0) == 0;
    assert SkipEnd(t, 0, |t|) == SkipEnd(t, 0, |s|) == |s|;
    assert t[0..|s|] == s;
  }

  /** `e` is the text after the last `.` of `s`: a suffix of `s` without
      `.`, right after a `.`. */
  predicate IsExtensionOf(e: string, s: string) {
    && '.' !in e && |e| < |s|
    && s[|s| - |e|..] == e && s[|s| - |e| - 1] == '.'
  }

  /** `s.split('.').pop()`: the text after the last `.` of `s`, or all of `s`
      when it has no `.`. */
  function LastSegment(s: string): (r: string)
    ensures '.' !in r
    ensures |r| <= |s| && r == s[|s| - |r|..]
    ensures |r| < |s| ==> s[|s| - |r| - 1] == '.'
    ensures '.' !in s ==> r == s
    ensures '.' in s ==> IsExtensionOf(r, s)
  {
    if s == [] || s[|s| - 1] == '.' then []
    else LastSegment(s[..|s| - 1]) + [s[|s| - 1]]
  }

  /** Whatever precedes it, the last segment of a name ending in `.e`, where
      `e` has no `.`, is `e`. */
  lemma {:induction false} LastSegmentAfterDot(p: string, e: string)
    requires '.' !in e
    ensures LastSegment(p + "." + e) == e
    decreases |e|
  {
    var s := p + "." + e;
    if e != [] {
      var e' := e[..|e| - 1];
      assert s[..|s| - 1] == p + "." + e';
      LastSegmentAfterDot(p, e');
      assert e == e' + [e[|e| - 1]];
    }
  }
}

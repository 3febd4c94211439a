/** JavaScript's `String.prototype.trim` and the line-break test built on it. */
module Trimming {

  /** The characters JavaScript's `String.prototype.trim` removes: white
      space and line terminators. */
  const WhiteSpace: set<char> := {
    ' ', '\t', '\n', '\r', '\U{B}', '\U{C}', '\U{A0}', '\U{1680}',
    '\U{2000}', '\U{2001}', '\U{2002}', '\U{2003}', '\U{2004}', '\U{2005}',
    '\U{2006}', '\U{2007}', '\U{2008}', '\U{2009}', '\U{200A}',
    '\U{2028}', '\U{2029}', '\U{202F}', '\U{205F}', '\U{3000}', '\U{FEFF}'
  }

  predicate IsWhitespace(c: char)
  {
    c in WhiteSpace
  }

  /** The index of the first non-space character of `s` at or after `i`, or `|s|`. */
  function SkipSpaceFrom(s: string, i: nat): (k: nat)
    requires i <= |s|
    ensures i <= k <= |s|
    ensures forall m :: i <= m < k ==> IsWhitespace(s[m])
    ensures k < |s| ==> !IsWhitespace(s[k])
    decreases |s| - i
  {
    if i < |s| && IsWhitespace(s[i]) then SkipSpaceFrom(s, i + 1) else i
  }

  /** The index just past the last non-space character of `s` before `j`, or 0. */
  function SkipSpaceBack(s: string, j: nat): (k: nat)
    requires j <= |s|
    ensures k <= j
    ensures forall m :: k <= m < j ==> IsWhitespace(s[m])
    ensures 0 < k ==> !IsWhitespace(s[k - 1])
  {
    if 0 < j && IsWhitespace(s[j - 1]) then SkipSpaceBack(s, j - 1) else j
  }

  /** `s.trim()`. */
  function Trim(s: string): string
  {
    var a := SkipSpaceFrom(s, 0);
    if a == |s| then "" else s[a..SkipSpaceBack(s, |s|)]
  }

  /** Some non-space character occurs before index `j`. */
  predicate TextBefore(s: string, j: int)
  {
    exists i :: 0 <= i < j && i < |s| && !IsWhitespace(s[i])
  }

  /** Some non-space character occurs after index `j`. */
  predicate TextAfter(s: string, j: int)
  {
    exists k :: 0 <= j < k < |s| && !IsWhitespace(s[k])
  }

  /** Some line break of `s` has text on both sides of it. */
  predicate InnerLineBreak(s: string)
  {
    exists j :: 0 <= j < |s| && s[j] == '\n' && TextBefore(s, j) && TextAfter(s, j)
  }

  /** Where the trimmed text sits inside `s`. */
  lemma TrimBounds(s: string)
    requires SkipSpaceFrom(s, 0) < |s|
    ensures SkipSpaceFrom(s, 0) < SkipSpaceBack(s, |s|)
    ensures Trim(s) == s[SkipSpaceFrom(s, 0)..SkipSpaceBack(s, |s|)]
    ensures !IsWhitespace(s[SkipSpaceFrom(s, 0)]) && !IsWhitespace(s[SkipSpaceBack(s, |s|) - 1])
  {
    var a := SkipSpaceFrom(s, 0);
    assert !IsWhitespace(s[a]);
  }

  /** The trimmed text contains a line break exactly when some line break
      of `s` has text on both sides of it. */
  lemma TrimmedHasLineBreak(s: string)
    ensures '\n' in Trim(s) <==> InnerLineBreak(s)
  {
    if SkipSpaceFrom(s, 0) == |s| {
      forall j | 0 <= j < |s|
        ensures !TextBefore(s, j)
      {
      }
    } else {
      TrimBounds(s);
      if '\n' in Trim(s) {
        BreakInsideText(s, SkipSpaceFrom(s, 0), SkipSpaceBack(s, |s|));
      }
      if InnerLineBreak(s) {
        InnerBreakIsTrimmed(s);
      }
    }
  }

  /** A line break inside a stretch that starts and ends with text is inner. */
  lemma BreakInsideText(s: string, a: int, b: int)
    requires 0 <= a < b <= |s|
    requires !IsWhitespace(s[a]) && !IsWhitespace(s[b - 1])
    requires '\n' in s[a..b]
    ensures InnerLineBreak(s)
  {
    var m := IndexOf(s[a..b], '\n');
    assert s[a + m] == s[a..b][m];
    BreakBetween(s, a, b, a + m);
  }

  /** The index of the first occurrence of `c` in `t`. */
  function IndexOf(t: string, c: char): (i: nat)
    requires c in t
    ensures i < |t| && t[i] == c
  {
    if t[0] == c then 0 else 1 + IndexOf(t[1..], c)
  }

  /** A line break strictly between two non-space characters is inner. */
  lemma BreakBetween(s: string, a: int, b: int, j: int)
    requires 0 <= a <= j < b <= |s|
    requires !IsWhitespace(s[a]) && !IsWhitespace(s[b - 1]) && s[j] == '\n'
    ensures InnerLineBreak(s)
  {
    assert IsWhitespace('\n');
    assert a < j < b - 1;
    assert TextBefore(s, j);
    assert TextAfter(s, j);
  }

  lemma InnerBreakIsTrimmed(s: string)
    requires SkipSpaceFrom(s, 0) < |s|
    requires InnerLineBreak(s)
    ensures '\n' in Trim(s)
  {
    TrimBounds(s);
    var a := SkipSpaceFrom(s, 0);
    var b := SkipSpaceBack(s, |s|);
    var j :| 0 <= j < |s| && s[j] == '\n' && TextBefore(s, j) && TextAfter(s, j);
    var i :| 0 <= i < j && i < |s| && !IsWhitespace(s[i]);
    var k :| 0 <= j < k < |s| && !IsWhitespace(s[k]);
    assert a <= i;
    assert k < b;
    BreakInSlice(s, a, b, j);
  }

  /** A line break at `j` lies in every slice around `j`. */
  lemma BreakInSlice(s: string, a: int, b: int, j: int)
    requires 0 <= a <= j < b <= |s| && s[j] == '\n'
    ensures '\n' in s[a..b]
  {
    assert s[a..b][j - a] == '\n';
  }
}

/** JavaScript string operations the documentation generator relies on:
    `split`, `join`, `trim`, and the derived idioms built from them
    (`split(c).join(d)`, `split('/').pop()`, `split('\n')[0]`). */
module Strings {

  /** `s.split(sep)` for a non-empty separator: the pieces between the
      non-overlapping occurrences of `sep`, found scanning left to right. */
  function Split(s: string, sep: string): (parts: seq<string>)
    requires |sep| > 0
    ensures |parts| >= 1
    decreases |s|
  {
    if |s| < |sep| then [s]
    else if s[..|sep|] == sep then [""] + Split(s[|sep|..], sep)
    else
      var rest := Split(s[1..], sep);
      [[s[0]] + rest[0]] + rest[1..]
  }

  /** `parts.join(sep)`. */
  function Join(parts: seq<string>, sep: string): string
  {
    if |parts| == 0 then ""
    else if |parts| == 1 then parts[0]
    else parts[0] + sep + Join(parts[1..], sep)
  }

  /** `s` with every `c` replaced by `d`, character by character. */
  function ReplaceChar(s: string, c: char, d: char): (r: string)
    ensures |r| == |s|
    ensures forall i :: 0 <= i < |s| ==> r[i] == (if s[i] == c then d else s[i])
  {
    if |s| == 0 then ""
    else [if s[0] == c then d else s[0]] + ReplaceChar(s[1..], c, d)
  }

  /** Splitting and joining again with the same separator gives back the string. */
  lemma {:induction false} JoinSplit(s: string, sep: string)
    requires |sep| > 0
    ensures Join(Split(s, sep), sep) == s
    decreases |s|
  {
    if |s| < |sep| {
    } else if s[..|sep|] == sep {
      JoinSplit(s[|sep|..], sep);
      JoinSplitAtSeparator(s, sep);
    } else {
      JoinSplit(s[1..], sep);
      JoinSplitAtChar(s, sep);
    }
  }

  lemma JoinSplitAtSeparator(s: string, sep: string)
    requires |sep| > 0 && |s| >= |sep| && s[..|sep|] == sep
    requires Join(Split(s[|sep|..], sep), sep) == s[|sep|..]
    ensures Join(Split(s, sep), sep) == s
  {
    var rest := s[|sep|..];
    SplitAtSeparator(s, sep);
    JoinEmptyFirst(Split(rest, sep), sep);
    TakeDrop(s, |sep|);
    assert Join(Split(s, sep), sep) == sep + rest;
  }

  /** A string that starts with the separator splits into an empty piece
      followed by the pieces of the rest. */
  lemma SplitAtSeparator(s: string, sep: string)
    requires |sep| > 0 && |s| >= |sep| && s[..|sep|] == sep
    ensures Split(s, sep) == [""] + Split(s[|sep|..], sep)
  {
  }

  lemma TakeDrop(s: string, n: nat)
    requires n <= |s|
    ensures s == s[..n] + s[n..]
  {
  }

  /** An empty first piece contributes only its separator. */
  lemma JoinEmptyFirst(parts: seq<string>, sep: string)
    requires |parts| >= 1
    ensures Join([""] + parts, sep) == sep + Join(parts, sep)
  {
    var ps := [""] + parts;
    assert ps[0] == "" && ps[1..] == parts;
    assert Join(ps, sep) == ps[0] + sep + Join(ps[1..], sep);
  }

  lemma JoinSplitAtChar(s: string, sep: string)
    requires |sep| > 0 && |s| >= |sep| && s[..|sep|] != sep
    requires Join(Split(s[1..], sep), sep) == s[1..]
    ensures Join(Split(s, sep), sep) == s
  {
    SplitAtChar(s, sep);
    JoinPrependToFirst(s[0], Split(s[1..], sep), sep);
    TakeDrop(s, 1);
    assert s[..1] == [s[0]];
  }

  /** A string that does not start with the separator keeps its first
      character in its first piece. */
  lemma SplitAtChar(s: string, sep: string)
    requires |sep| > 0 && |s| >= |sep| && s[..|sep|] != sep
    ensures var rest := Split(s[1..], sep);
      Split(s, sep) == [[s[0]] + rest[0]] + rest[1..]
  {
  }

  /** Prepending a character to the first piece prepends it to the join. */
  lemma JoinPrependToFirst(x: char, parts: seq<string>, sep: string)
    requires |parts| >= 1
    ensures Join([[x] + parts[0]] + parts[1..], sep) == [x] + Join(parts, sep)
  {
    var ps := [[x] + parts[0]] + parts[1..];
    if |parts| > 1 {
      var tail := Join(parts[1..], sep);
      assert ps[1..] == parts[1..];
      calc {
        Join(ps, sep);
        ([x] + parts[0]) + sep + tail;
        [x] + (parts[0] + sep + tail);
      }
    }
  }

  /** `s.split(c).join(d)` replaces every `c` by `d`. */
  lemma {:induction false} SplitJoinReplaces(s: string, c: char, d: char)
    ensures Join(Split(s, [c]), [d]) == ReplaceChar(s, c, d)
    decreases |s|
  {
    if |s| >= 1 {
      var rest := Split(s[1..], [c]);
      SplitJoinReplaces(s[1..], c, d);
      ReplaceCons(s, c, d);
      if s[0] == c {
        assert s[..1] == [c];
        SplitAtSeparator(s, [c]);
        JoinEmptyFirst(rest, [d]);
      } else {
        assert s[..1] != [c];
        SplitAtChar(s, [c]);
        JoinPrependToFirst(s[0], rest, [d]);
      }
    }
  }

  lemma ReplaceCons(s: string, c: char, d: char)
    requires |s| >= 1
    ensures ReplaceChar(s, c, d) == [if s[0] == c then d else s[0]] + ReplaceChar(s[1..], c, d)
  {
  }

  /** Appending one piece to a join. */
  lemma {:induction false} JoinSnoc(parts: seq<string>, x: string, sep: string)
    ensures Join(parts + [x], sep) == if |parts| == 0 then x else Join(parts, sep) + sep + x
    decreases |parts|
  {
    if |parts| == 0 {
      assert parts + [x] == [x];
    } else if |parts| == 1 {
      assert parts + [x] == [parts[0], x];
      assert [parts[0], x][1..] == [x];
    } else {
      JoinSnoc(parts[1..], x, sep);
      assert (parts + [x])[1..] == parts[1..] + [x];
    }
  }

  /** Joining the same pieces with a shorter separator shortens the text by
      the difference once per separator. */
  lemma {:induction false} JoinSeparatorLength(parts: seq<string>, a: string, b: string)
    requires |parts| > 0
    ensures |Join(parts, a)| - |Join(parts, b)| == (|parts| - 1) * (|a| - |b|)
    decreases |parts|
  {
    if |parts| > 1 {
      JoinSeparatorLength(parts[1..], a, b);
    }
  }

  /** `sep` occurs in `s` starting at index `i`. */
  predicate OccursAt(s: string, sep: string, i: int)
  {
    0 <= i && i + |sep| <= |s| && s[i..i + |sep|] == sep
  }

  /** A string without any occurrence of `sep` splits into itself alone. */
  lemma {:induction false} SplitWithoutSeparator(s: string, sep: string)
    requires |sep| > 0
    requires forall i :: !OccursAt(s, sep, i)
    ensures Split(s, sep) == [s]
    decreases |s|
  {
    if |s| >= |sep| {
      assert !OccursAt(s, sep, 0);
      assert s[0..|sep|] == s[..|sep|];
      forall i
        ensures !OccursAt(s[1..], sep, i)
      {
        if OccursAt(s[1..], sep, i) {
          assert s[1..][i..i + |sep|] == s[i + 1..i + 1 + |sep|];
          assert OccursAt(s, sep, i + 1);
        }
      }
      SplitWithoutSeparator(s[1..], sep);
      assert [s[0]] + s[1..] == s;
    }
  }

  /** Splitting on one character leaves no piece containing it. */
  lemma {:induction false} SplitCharPieces(s: string, c: char)
    ensures forall k :: 0 <= k < |Split(s, [c])| ==> c !in Split(s, [c])[k]
    decreases |s|
  {
    if |s| >= 1 {
      SplitCharPieces(s[1..], c);
      var rest := Split(s[1..], [c]);
      if s[0] == c {
        assert s[..1] == [c];
        SplitAtSeparator(s, [c]);
      } else {
        assert s[..1] != [c];
        SplitAtChar(s, [c]);
      }
    }
  }

  /** Splitting on one character gives more than one piece exactly when it occurs. */
  lemma {:induction false} SplitCharCount(s: string, c: char)
    ensures |Split(s, [c])| > 1 <==> c in s
    decreases |s|
  {
    if |s| >= 1 {
      SplitCharCount(s[1..], c);
      TakeDrop(s, 1);
      assert s[..1] == [s[0]];
      if s[0] == c {
        SplitAtSeparator(s, [c]);
      } else {
        SplitAtChar(s, [c]);
      }
    }
  }

  /** The first piece of a split on one character is the text before its
      first occurrence. */
  lemma {:induction false} SplitCharFirst(s: string, c: char)
    ensures |Split(s, [c])[0]| <= |s|
    ensures Split(s, [c])[0] == s[..|Split(s, [c])[0]|]
    ensures |Split(s, [c])[0]| < |s| ==> s[|Split(s, [c])[0]|] == c
    decreases |s|
  {
    if |s| >= 1 {
      SplitCharFirst(s[1..], c);
      var rest := Split(s[1..], [c]);
      if s[0] == c {
        assert s[..1] == [c];
        SplitAtSeparator(s, [c]);
      } else {
        assert s[..1] != [c];
        SplitAtChar(s, [c]);
        assert s[1..][..|rest[0]|] == s[1..|rest[0]| + 1];
      }
    }
  }

  /** The last piece of a split on one character is the whole text when
      there is one piece, and otherwise the text after some occurrence. */
  lemma {:induction false} SplitCharLast(s: string, c: char)
    ensures |Split(s, [c])| == 1 ==> Split(s, [c])[0] == s
    ensures var parts := Split(s, [c]);
      |parts| > 1 ==> exists k :: 0 <= k < |s| && s[k] == c && parts[|parts| - 1] == s[k + 1..]
    decreases |s|
  {
    var parts := Split(s, [c]);
    if |s| >= 1 {
      var rest := Split(s[1..], [c]);
      SplitCharLast(s[1..], c);
      if s[0] == c {
        assert s[..1] == [c];
        SplitAtSeparator(s, [c]);
        if |rest| > 1 {
          LastAfterShift(s, c, rest);
        } else {
          assert parts[|parts| - 1] == s[0 + 1..];
        }
      } else {
        assert s[..1] != [c];
        SplitAtChar(s, [c]);
        if |rest| > 1 {
          assert parts[|parts| - 1] == rest[|rest| - 1];
          LastAfterShift(s, c, rest);
        } else {
          TakeDrop(s, 1);
          assert s[..1] == [s[0]];
        }
      }
    }
  }

  /** A piece that follows an occurrence of `c` in `s[1..]` follows one in `s`. */
  lemma LastAfterShift(s: string, c: char, rest: seq<string>)
    requires |s| >= 1 && |rest| > 1
    requires exists k :: 0 <= k < |s[1..]| && s[1..][k] == c && rest[|rest| - 1] == s[1..][k + 1..]
    ensures exists k :: 0 <= k < |s| && s[k] == c && rest[|rest| - 1] == s[k + 1..]
  {
    var k' :| 0 <= k' < |s[1..]| && s[1..][k'] == c && rest[|rest| - 1] == s[1..][k' + 1..];
    assert s[k' + 1] == c && rest[|rest| - 1] == s[k' + 1 + 1..];
  }

  /** `s.split('/').pop()`: the text after the last `/`, or all of `s`. */
  function LastSegment(s: string): (r: string)
    ensures '/' !in r
    ensures r == s || exists k :: 0 <= k < |s| && s[k] == '/' && r == s[k + 1..]
    ensures '/' !in s ==> r == s
  {
    var parts := Split(s, "/");
    SplitCharPieces(s, '/');
    SplitCharCount(s, '/');
    SplitCharLast(s, '/');
    parts[|parts| - 1]
  }

  /** `s.split('\n')[0]`: the text before the first line break, or all of `s`. */
  function FirstLine(s: string): (r: string)
    ensures '\n' !in r
    ensures |r| <= |s| && r == s[..|r|]
    ensures |r| < |s| ==> s[|r|] == '\n'
  {
    SplitCharPieces(s, '\n');
    SplitCharFirst(s, '\n');
    Split(s, "\n")[0]
  }
}

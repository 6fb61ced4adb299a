/** String helpers that both the Rust indexer and the Go extractor tools rely on:
    prefix tests, substring search, prefix trimming, splitting off the first
    segment and replace-all (Go's strings.ReplaceAll, Rust's str::replace). */
module Strings {

  /** s starts with p. */
  predicate HasPrefix(s: string, p: string) {
    |p| <= |s| && s[..|p|] == p
  }

  /** sub occurs somewhere in s (Go's strings.Contains). */
  predicate Contains(s: string, sub: string)
    decreases |s|
  {
    HasPrefix(s, sub) || (|s| > 0 && Contains(s[1..], sub))
  }

  /** sub occurs in s starting at position i. */
  predicate OccursAt(s: string, sub: string, i: int) {
    0 <= i <= |s| - |sub| && s[i..i + |sub|] == sub
  }

  /** Contains holds exactly when sub occurs at some position of s. */
  lemma {:induction false} ContainsAt(s: string, sub: string)
    ensures Contains(s, sub) <==> exists i :: OccursAt(s, sub, i)
    decreases |s|
  {
    if HasPrefix(s, sub) {
      assert OccursAt(s, sub, 0);
    } else if |s| == 0 {
    } else {
      ContainsAt(s[1..], sub);
      if exists i :: OccursAt(s, sub, i) {
        var i :| OccursAt(s, sub, i);
        assert i != 0;
        assert s[1..][i - 1..i - 1 + |sub|] == s[i..i + |sub|];
        assert OccursAt(s[1..], sub, i - 1);
      }
      if Contains(s[1..], sub) {
        var i :| OccursAt(s[1..], sub, i);
        assert s[1..][i..i + |sub|] == s[i + 1..i + 1 + |sub|];
        assert OccursAt(s, sub, i + 1);
      }
    }
  }

  /** Go's strings.TrimPrefix: drops p from the front of s when s starts with p. */
  function TrimPrefix(s: string, p: string): (r: string)
    ensures HasPrefix(s, p) ==> s == p + r
    ensures !HasPrefix(s, p) ==> r == s
  {
    if HasPrefix(s, p) then s[|p|..] else s
  }

  /** strings.SplitN(s, [sep], 2)[0]: everything before the first sep, or all
      of s when sep does not occur. */
  function FirstSegment(s: string, sep: char): (r: string)
    ensures sep !in r
    ensures HasPrefix(s, r)
    ensures |r| < |s| ==> s[|r|] == sep
    decreases |s|
  {
    if s == [] then []
    else if s[0] == sep then []
    else [s[0]] + FirstSegment(s[1..], sep)
  }

  /** The first segment of d + [sep] + rest is d when d holds no sep. */
  lemma {:induction false} FirstSegmentOfJoin(d: string, sep: char, rest: string)
    requires sep !in d
    ensures FirstSegment(d + [sep] + rest, sep) == d
    decreases |d|
  {
    if d != [] {
      assert (d + [sep] + rest)[1..] == d[1..] + [sep] + rest;
      FirstSegmentOfJoin(d[1..], sep, rest);
    }
  }

  /** Non-overlapping, left-to-right replacement of every occurrence of pat
      by rep (Go's strings.ReplaceAll and Rust's str::replace for a non-empty
      pattern). */
  function ReplaceAll(s: string, pat: string, rep: string): string
    requires |pat| > 0
    decreases |s|
  {
    if |s| < |pat| then s
    else if s[..|pat|] == pat then rep + ReplaceAll(s[|pat|..], pat, rep)
    else [s[0]] + ReplaceAll(s[1..], pat, rep)
  }

  /** A replacement that is no longer than its pattern never lengthens the text. */
  lemma {:induction false} ReplaceAllNotLonger(s: string, pat: string, rep: string)
    requires |pat| > 0 && |rep| <= |pat|
    ensures |ReplaceAll(s, pat, rep)| <= |s|
    decreases |s|
  {
    if |s| < |pat| {
    } else if s[..|pat|] == pat {
      ReplaceAllNotLonger(s[|pat|..], pat, rep);
    } else {
      ReplaceAllNotLonger(s[1..], pat, rep);
    }
  }

  /** Replacing a one-character pattern by text without that character removes
      every occurrence of it. */
  lemma {:induction false} ReplaceAllRemovesChar(s: string, c: char, rep: string)
    requires c !in rep
    ensures c !in ReplaceAll(s, [c], rep)
    decreases |s|
  {
    if |s| >= 1 {
      if s[..1] == [c] {
        ReplaceAllRemovesChar(s[1..], c, rep);
      } else {
        assert s[0] != c by { assert s[..1] == [s[0]]; }
        ReplaceAllRemovesChar(s[1..], c, rep);
      }
    }
  }

  /** A character absent from both the text and the replacement stays absent. */
  lemma {:induction false} ReplaceAllKeepsAbsent(s: string, pat: string, rep: string, c: char)
    requires |pat| > 0 && c !in s && c !in rep
    ensures c !in ReplaceAll(s, pat, rep)
    decreases |s|
  {
    if |s| < |pat| {
    } else if s[..|pat|] == pat {
      ReplaceAllKeepsAbsent(s[|pat|..], pat, rep, c);
    } else {
      ReplaceAllKeepsAbsent(s[1..], pat, rep, c);
    }
  }
}

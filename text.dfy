/**
 * String helpers the validator relies on: JavaScript's notion of white space
 * and `trim`, prefix/suffix/substring tests, splitting a document into lines
 * the way `split(/\r?\n/)` does, and the two `path` helpers the validator uses
 * (`isAbsolute` and `basename`), reduced to plain string functions.
 */
module Text {

  /** The characters JavaScript's `trim` removes and the regex class `\s` matches. */
  predicate IsSpace(c: char) {
    c == ' ' || c == '\t' || c == '\n' || c == '\r' || c == '\U{000B}' || c == '\U{000C}' ||
    c == '\U{00A0}' || c == '\U{1680}' || ('\U{2000}' <= c <= '\U{200A}') ||
    c == '\U{2028}' || c == '\U{2029}' || c == '\U{202F}' || c == '\U{205F}' ||
    c == '\U{3000}' || c == '\U{FEFF}'
  }

  predicate AllSpace(s: string) {
    forall i :: 0 <= i < |s| ==> IsSpace(s[i])
  }

  /** `s` with its leading white space removed. */
  function TrimStart(s: string): (r: string)
    ensures |r| <= |s| && r == s[|s| - |r|..]
    ensures AllSpace(s[..|s| - |r|])
    ensures r == [] || !IsSpace(r[0])
  {
    if |s| > 0 && IsSpace(s[0]) then
      var r := TrimStart(s[1..]);
      TrimStartStep(s, r);
      r
    else s
  }

  lemma TrimStartStep(s: string, r: string)
    requires |s| > 0 && IsSpace(s[0])
    requires |r| <= |s| - 1 && r == s[1..][|s| - 1 - |r|..] && AllSpace(s[1..][..|s| - 1 - |r|])
    ensures r == s[|s| - |r|..] && AllSpace(s[..|s| - |r|])
  {
    assert s[..|s| - |r|] == [s[0]] + s[1..][..|s| - 1 - |r|];
  }

  /** `s` with its trailing white space removed. */
  function TrimEnd(s: string): (r: string)
    ensures |r| <= |s| && r == s[..|r|]
    ensures AllSpace(s[|r|..])
    ensures r == [] || !IsSpace(r[|r| - 1])
  {
    if |s| > 0 && IsSpace(s[|s| - 1]) then
      var r := TrimEnd(s[..|s| - 1]);
      TrimEndStep(s, r);
      r
    else s
  }

  lemma TrimEndStep(s: string, r: string)
    requires |s| > 0 && IsSpace(s[|s| - 1])
    requires |r| <= |s| - 1 && r == s[..|s| - 1][..|r|] && AllSpace(s[..|s| - 1][|r|..])
    ensures r == s[..|r|] && AllSpace(s[|r|..])
  {
    assert s[|r|..] == s[..|s| - 1][|r|..] + [s[|s| - 1]];
  }

  /** `r` is `s` with white space cut from its ends only: `s[..a]` before it and the rest after it. */
  predicate SpaceCut(s: string, r: string, a: nat) {
    a + |r| <= |s| && r == s[a..a + |r|] && AllSpace(s[..a]) && AllSpace(s[a + |r|..])
  }

  /**
   * JavaScript's `String.prototype.trim`: `s` with only white space cut from
   * its two ends, and no white space left at either end.
   */

  function Trim(s: string): (r: string)
    ensures r == [] <==> AllSpace(s)
    ensures r == [] || (!IsSpace(r[0]) && !IsSpace(r[|r| - 1]))
  {
    var t := TrimStart(s);
    var r := TrimEnd(t);
    TrimBothEnds(s, t, r);
    r
  }

  /** What `trim` keeps is a stretch of `s` with only white space around it. */
  lemma TrimCutsSpace(s: string)
    ensures exists a :: SpaceCut(s, Trim(s), a)
  {
    var t := TrimStart(s);
    TrimBothEnds(s, t, TrimEnd(t));
    assert SpaceCut(s, Trim(s), |s| - |t|);
  }

  /** What `Trim` needs of its two steps: nothing but white space was cut, and a kept end is not white space. */
  lemma TrimBothEnds(s: string, t: string, r: string)
    requires |t| <= |s| && t == s[|s| - |t|..] && AllSpace(s[..|s| - |t|]) && (t == [] || !IsSpace(t[0]))
    requires |r| <= |t| && r == t[..|r|] && AllSpace(t[|r|..]) && (r == [] || !IsSpace(r[|r| - 1]))
    ensures SpaceCut(s, r, |s| - |t|)
    ensures r == [] <==> AllSpace(s)
    ensures r == [] || (!IsSpace(r[0]) && !IsSpace(r[|r| - 1]))
  {
    var cut := |s| - |t|;
    assert r == s[cut..cut + |r|];
    assert s[cut + |r|..] == t[|r|..];
    if r == [] {
      assert t[|r|..] == t;
      assert |t| == 0;
      forall i | 0 <= i < |s| ensures IsSpace(s[i]) {
        assert s[..cut][i] == s[i];
      }
    } else {
      assert r[0] == t[0];
      assert s[cut] == t[0];
    }
  }

  predicate StartsWith(s: string, prefix: string) {
    |prefix| <= |s| && s[..|prefix|] == prefix
  }

  predicate EndsWith(s: string, suffix: string) {
    |suffix| <= |s| && s[|s| - |suffix|..] == suffix
  }

  /** `sub` occurs in `s` starting at index `i`. */
  predicate OccursAt(s: string, sub: string, i: nat) {
    i + |sub| <= |s| && s[i..i + |sub|] == sub
  }

  /** JavaScript's `s.includes(sub)`. */
  predicate Contains(s: string, sub: string) {
    exists i: nat :: i <= |s| && OccursAt(s, sub, i)
  }

  /** Index of the first occurrence of `c` in `s`, or `|s|` when there is none. */
  function IndexOfChar(s: string, c: char): (r: nat)
    ensures r <= |s|
    ensures r < |s| ==> s[r] == c
    ensures forall i :: 0 <= i < r ==> s[i] != c
  {
    if |s| == 0 then 0
    else if s[0] == c then 0
    else 1 + IndexOfChar(s[1..], c)
  }

  /** Drops one carriage return at the end of a line, the optional `\r` of `\r?\n`. */
  function StripCarriageReturn(line: string): string {
    if |line| > 0 && line[|line| - 1] == '\r' then line[..|line| - 1] else line
  }

  /** The lines of `s` as `s.split(/\r?\n/)` gives them: never empty, and no line holds a `\n`. */
  function SplitLines(s: string): (lines: seq<string>)
    ensures |lines| >= 1
    ensures forall k :: 0 <= k < |lines| ==> '\n' !in lines[k]
    decreases |s|
  {
    var i := IndexOfChar(s, '\n');
    if i == |s| then [s]
    else [StripCarriageReturn(s[..i])] + SplitLines(s[i + 1..])
  }

  /** The lines joined with `\n`, as `lines.join("\n")`. */
  function JoinLines(lines: seq<string>): string {
    if |lines| == 0 then ""
    else if |lines| == 1 then lines[0]
    else lines[0] + "\n" + JoinLines(lines[1..])
  }

  /** Splitting a text without carriage returns and joining the lines again gives the text back. */
  lemma {:induction false} JoinSplitLines(s: string)
    requires '\r' !in s
    ensures JoinLines(SplitLines(s)) == s
    decreases |s|
  {
    var i := IndexOfChar(s, '\n');
    if i < |s| {
      var rest := s[i + 1..];
      var line := s[..i];
      NoCarriageReturnInParts(s, i);
      SplitLinesStep(s, i);
      JoinSplitLines(rest);
      JoinFirstLine(line, SplitLines(rest));
      CutAtNewline(s, i);
      calc {
        JoinLines(SplitLines(s));
        JoinLines([line] + SplitLines(rest));
        line + "\n" + JoinLines(SplitLines(rest));
        line + "\n" + rest;
      }
    }
  }

  /** A text is its part before a `\n`, the `\n`, and its part after. */
  lemma CutAtNewline(s: string, i: nat)
    requires i < |s| && s[i] == '\n'
    ensures s == s[..i] + "\n" + s[i + 1..]
  {
  }

  /** The parts of a text without carriage returns have none either, and the first line is kept whole. */
  lemma NoCarriageReturnInParts(s: string, i: nat)
    requires '\r' !in s && i < |s|
    ensures '\r' !in s[i + 1..]
    ensures StripCarriageReturn(s[..i]) == s[..i]
  {
    var rest := s[i + 1..];
    forall k | 0 <= k < |rest| ensures rest[k] != '\r' { assert rest[k] == s[i + 1 + k]; }
    if i > 0 { assert s[..i][i - 1] == s[i - 1]; }
  }

  /** Splitting at the first `\n`. */
  lemma SplitLinesStep(s: string, i: nat)
    requires i == IndexOfChar(s, '\n') && i < |s|
    ensures SplitLines(s) == [StripCarriageReturn(s[..i])] + SplitLines(s[i + 1..])
  {
    var first := StripCarriageReturn(s[..i]);
    var rest := SplitLines(s[i + 1..]);
    assert SplitLines(s) == [first] + rest;
  }

  /** Joining a line in front of at least one more puts a `\n` between them. */
  lemma JoinFirstLine(line: string, more: seq<string>)
    requires |more| >= 1
    ensures JoinLines([line] + more) == line + "\n" + JoinLines(more)
  {
    assert ([line] + more)[1..] == more;
  }

  /** Joining lines that hold no `\n` and do not end in `\r`, then splitting, gives the lines back. */
  lemma {:induction false} SplitJoinLines(lines: seq<string>)
    requires |lines| >= 1
    requires forall k :: 0 <= k < |lines| ==> '\n' !in lines[k]
    requires forall k :: 0 <= k < |lines| ==> !EndsWith(lines[k], "\r")
    ensures SplitLines(JoinLines(lines)) == lines
  {
    var first := lines[0];
    assert !EndsWith(first, "\r");
    assert StripCarriageReturn(first) == first by {
      if |first| > 0 { assert first[|first| - 1..] == [first[|first| - 1]]; }
    }
    if |lines| == 1 {
      assert IndexOfChar(first, '\n') == |first|;
    } else {
      var rest := JoinLines(lines[1..]);
      var s := first + "\n" + rest;
      assert IndexOfChar(s, '\n') == |first| by {
        assert s[|first|] == '\n';
        assert forall j :: 0 <= j < |first| ==> s[j] == first[j];
      }
      assert s[..|first|] == first;
      assert s[|first| + 1..] == rest;
      SplitLinesStep(s, |first|);
      SplitJoinLines(lines[1..]);
    }
  }

  /** The lines joined with `\r\n`, the other line ending `split(/\r?\n/)` accepts. */
  function JoinCrLfLines(lines: seq<string>): string {
    if |lines| == 0 then ""
    else if |lines| == 1 then lines[0]
    else lines[0] + "\r\n" + JoinCrLfLines(lines[1..])
  }

  /**
   * Joining lines that hold no `\n` with `\r\n`, then splitting, gives the
   * lines back: the `\r` of each line ending is dropped with its `\n`, and
   * nothing else is.
   */
  lemma {:induction false} SplitCrLfJoinLines(lines: seq<string>)
    requires |lines| >= 1
    requires forall k :: 0 <= k < |lines| ==> '\n' !in lines[k]
    ensures SplitLines(JoinCrLfLines(lines)) == lines
  {
    var first := lines[0];
    if |lines| == 1 {
      assert IndexOfChar(first, '\n') == |first|;
    } else {
      var rest := JoinCrLfLines(lines[1..]);
      var s := first + "\r\n" + rest;
      assert IndexOfChar(s, '\n') == |first| + 1 by {
        assert s[|first| + 1] == '\n' && s[|first|] == '\r';
        assert forall j :: 0 <= j < |first| ==> s[j] == first[j];
      }
      assert s[..|first| + 1] == first + "\r";
      assert StripCarriageReturn(first + "\r") == first;
      assert s[|first| + 2..] == rest;
      SplitLinesStep(s, |first| + 1);
      SplitCrLfJoinLines(lines[1..]);
    }
  }

  /** `path.isAbsolute` on a POSIX path. */
  predicate IsAbsolutePath(p: string) {
    |p| > 0 && p[0] == '/'
  }

  /** The part of `p` after its last `/`. */
  function LastSegment(p: string): (r: string)
    ensures '/' !in r
    ensures EndsWith(p, r)
    ensures |r| == |p| || p[|p| - |r| - 1] == '/'
  {
    if |p| == 0 then ""
    else if p[|p| - 1] == '/' then ""
    else
      var r := LastSegment(p[..|p| - 1]);
      LastSegmentStep(p, r);
      r + [p[|p| - 1]]
  }

  /** A segment of `p` without its last character, extended by that character, is a segment of `p`. */
  lemma LastSegmentStep(p: string, r: string)
    requires |p| > 0 && p[|p| - 1] != '/'
    requires '/' !in r && EndsWith(p[..|p| - 1], r)
    requires |r| == |p| - 1 || p[..|p| - 1][|p| - 1 - |r| - 1] == '/'
    ensures '/' !in r + [p[|p| - 1]]
    ensures EndsWith(p, r + [p[|p| - 1]])
    ensures |r| + 1 == |p| || p[|p| - |r| - 2] == '/'
  {
    var init := p[..|p| - 1];
    assert init[|init| - |r|..] == r;
    assert p[|p| - |r| - 1..] == init[|init| - |r|..] + [p[|p| - 1]];
  }

  /** `path.basename(p)`: the last segment of `p`. */
  function Basename(p: string): string {
    LastSegment(p)
  }

  /** `path.basename(p, ".md")`: the last segment of `p` without a trailing `.md`. */
  function BasenameWithoutMd(p: string): (r: string)
    ensures EndsWith(LastSegment(p), ".md") ==> r + ".md" == LastSegment(p)
    ensures !EndsWith(LastSegment(p), ".md") ==> r == LastSegment(p)
    ensures '/' !in r
    ensures EndsWith(p, r + ".md") || (EndsWith(p, r) && !EndsWith(r, ".md"))
  {
    var b := LastSegment(p);
    if EndsWith(b, ".md") then b[..|b| - 3] else b
  }
}

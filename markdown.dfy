/**
 * The Markdown line scanners of the validator: the first H1, the first
 * non-blank line, kebab-case ids, H2 lookup and section extraction, and the
 * three code-fence scanners that share one `inFence` toggle.
 *
 * A document is handled as its lines (`Text.SplitLines` of its text). The
 * heading regexes of the source are matched line by line.
 */
module Markdown {
  import opened Text
  import opened Wrappers

  // ---------------------------------------------------------------------------
  // First H1 and first non-empty line
  // ---------------------------------------------------------------------------

  /**
   * The line matches `^#\s+(.+?)\s*$`: `#`, white space, and one more
   * character at least, since `\s+` must leave one for `(.+?)`.
   */
  predicate IsH1Line(line: string) {
    |line| >= 3 && line[0] == '#' && IsSpace(line[1])
  }

  /**
   * The trimmed capture of an H1 line: everything after the `#`, trimmed. A
   * capture made of white space alone trims to "".
   */
  function H1Text(line: string): string
    requires IsH1Line(line)
  {
    Trim(line[1..])
  }

  /** The first index at or after `from` of a line that is an H1, or `|lines|`. */
  function FirstH1Index(lines: seq<string>, from: nat): (r: nat)
    requires from <= |lines|
    ensures from <= r <= |lines|
    ensures r < |lines| ==> IsH1Line(lines[r])
    ensures forall j :: from <= j < r ==> !IsH1Line(lines[j])
    decreases |lines| - from
  {
    if from == |lines| then from
    else if IsH1Line(lines[from]) then from
    else FirstH1Index(lines, from + 1)
  }

  /** `readFirstH1`: the heading text of the first line that is an H1, fenced or not. */
  function ReadFirstH1(lines: seq<string>): (r: Option<string>)
    ensures r.None? <==> forall i :: 0 <= i < |lines| ==> !IsH1Line(lines[i])
    ensures r.Some? ==>
      var i := FirstH1Index(lines, 0);
      i < |lines| && IsH1Line(lines[i]) && r.value == H1Text(lines[i]) &&
      forall j :: 0 <= j < i ==> !IsH1Line(lines[j])
  {
    var i := FirstH1Index(lines, 0);
    if i == |lines| then None else Some(H1Text(lines[i]))
  }

  /**
   * The first index at or after `from` of a line that is not blank, or
   * `|lines|`. A line is blank when it is white space only, which is when
   * `line.trim() === ""` (`Text.Trim`'s contract).
   */
  function FirstNonEmptyIndex(lines: seq<string>, from: nat): (r: nat)
    requires from <= |lines|
    ensures from <= r <= |lines|
    ensures r < |lines| ==> !AllSpace(lines[r])
    ensures forall j :: from <= j < r ==> AllSpace(lines[j])
    decreases |lines| - from
  {
    if from == |lines| then from
    else if !AllSpace(lines[from]) then from
    else FirstNonEmptyIndex(lines, from + 1)
  }

  /** `firstNonEmptyLine`: the first line that is not blank, or null. */
  function FirstNonEmptyLine(lines: seq<string>): (r: Option<string>)
    ensures r.None? <==> forall i :: 0 <= i < |lines| ==> AllSpace(lines[i])
    ensures r.Some? ==>
      var i := FirstNonEmptyIndex(lines, 0);
      i < |lines| && lines[i] == r.value && !AllSpace(r.value) &&
      forall j :: 0 <= j < i ==> AllSpace(lines[j])
  {
    var i := FirstNonEmptyIndex(lines, 0);
    if i == |lines| then None else Some(lines[i])
  }

  // ---------------------------------------------------------------------------
  // Kebab-case ids
  // ---------------------------------------------------------------------------

  predicate IsSegmentChar(c: char) {
    'a' <= c <= 'z' || '0' <= c <= '9'
  }

  /** One `[a-z0-9]+` segment. */
  predicate IsSegment(w: string) {
    |w| > 0 && forall i :: 0 <= i < |w| ==> IsSegmentChar(w[i])
  }

  /**
   * `isKebabCaseId`, the regex `^[a-z0-9]+(?:-[a-z0-9]+)*$` as its two-state
   * matcher: KebabStart expects a segment character, KebabAfterChar has just
   * read one and accepts the end, another segment character or a hyphen.
   */
  predicate IsKebabCaseId(s: string) {
    KebabStart(s)
  }

  predicate KebabStart(t: string)
    decreases |t|, 1
  {
    |t| > 0 && IsSegmentChar(t[0]) && KebabAfterChar(t[1..])
  }

  predicate KebabAfterChar(t: string)
    decreases |t|, 0
  {
    |t| == 0 ||
    (IsSegmentChar(t[0]) && KebabAfterChar(t[1..])) ||
    (t[0] == '-' && KebabStart(t[1..]))
  }

  /** Segments joined by single hyphens. */
  function JoinHyphen(segments: seq<string>): string {
    if |segments| == 0 then ""
    else if |segments| == 1 then segments[0]
    else segments[0] + "-" + JoinHyphen(segments[1..])
  }

  /** `s` cut at every hyphen. */
  function SplitHyphen(s: string): (segments: seq<string>)
    ensures |segments| >= 1
    ensures forall k :: 0 <= k < |segments| ==> '-' !in segments[k]
    ensures JoinHyphen(segments) == s
    decreases |s|
  {
    var i := IndexOfChar(s, '-');
    if i == |s| then
      assert forall j :: 0 <= j < |s| ==> s[j] != '-';
      [s]
    else
      var first := s[..i];
      assert forall j :: 0 <= j < |first| ==> first[j] != '-';
      var rest := SplitHyphen(s[i + 1..]);
      assert s == first + "-" + s[i + 1..];
      [first] + rest
  }

  /** A run of segment characters in front of an accepted tail is accepted after a character. */
  lemma {:induction false} SegmentCharsThenAfterChar(w: string, tail: string)
    requires forall i :: 0 <= i < |w| ==> IsSegmentChar(w[i])
    requires KebabAfterChar(tail)
    ensures KebabAfterChar(w + tail)
    decreases |w|
  {
    if |w| > 0 {
      SegmentCharsThenAfterChar(w[1..], tail);
      var s := w + tail;
      assert s[0] == w[0] && IsSegmentChar(s[0]);
      assert s[1..] == w[1..] + tail;
      assert KebabAfterChar(s[1..]);
    } else {
      assert w + tail == tail;
    }
  }

  /** Joining segments with hyphens gives a kebab-case id. */
  lemma {:induction false} JoinedSegmentsAreKebab(segments: seq<string>)
    requires |segments| >= 1
    requires forall k :: 0 <= k < |segments| ==> IsSegment(segments[k])
    ensures IsKebabCaseId(JoinHyphen(segments))
  {
    var w := segments[0];
    assert IsSegment(w);
    var tail: string;
    if |segments| == 1 {
      tail := "";
      assert JoinHyphen(segments) == w + tail;
    } else {
      var j := JoinHyphen(segments[1..]);
      JoinedSegmentsAreKebab(segments[1..]);
      tail := "-" + j;
      assert tail[0] == '-' && tail[1..] == j;
      assert JoinHyphen(segments) == w + tail;
    }
    assert KebabAfterChar(tail);
    SegmentCharsThenAfterChar(w[1..], tail);
    var s := w + tail;
    assert s[0] == w[0];
    assert s[1..] == w[1..] + tail;
    assert KebabStart(s);
  }

  /** After a segment character, everything before the next hyphen is a segment character and a new segment starts after it. */
  lemma {:induction false} AfterCharShape(t: string)
    requires KebabAfterChar(t)
    ensures forall k :: 0 <= k < IndexOfChar(t, '-') ==> IsSegmentChar(t[k])
    ensures IndexOfChar(t, '-') < |t| ==> KebabStart(t[IndexOfChar(t, '-') + 1..])
    decreases |t|
  {
    if |t| > 0 && t[0] != '-' {
      AfterCharShape(t[1..]);
      var j := IndexOfChar(t[1..], '-');
      assert IndexOfChar(t, '-') == 1 + j;
      assert forall k :: 1 <= k < |t| ==> t[k] == t[1..][k - 1];
      if j < |t| - 1 {
        assert t[1..][j + 1..] == t[j + 2..];
      }
    }
  }

  /** Cutting a kebab-case id at its hyphens gives only non-empty `[a-z0-9]+` segments. */
  lemma {:induction false} KebabSplitsIntoSegments(s: string)
    requires IsKebabCaseId(s)
    ensures forall k :: 0 <= k < |SplitHyphen(s)| ==> IsSegment(SplitHyphen(s)[k])
    decreases |s|
  {
    AfterCharShape(s[1..]);
    var i := IndexOfChar(s, '-');
    assert i == 1 + IndexOfChar(s[1..], '-');
    assert forall k :: 0 <= k < i ==> IsSegmentChar(s[k]) by {
      forall k | 0 <= k < i ensures IsSegmentChar(s[k]) {
        if k > 0 { assert s[k] == s[1..][k - 1]; }
      }
    }
    if i < |s| {
      assert s[1..][IndexOfChar(s[1..], '-') + 1..] == s[i + 1..];
      KebabSplitsIntoSegments(s[i + 1..]);
    }
  }

  /**
   * `isKebabCaseId(s)` holds exactly when `s` is one or more `[a-z0-9]+`
   * segments joined by single hyphens: no empty id, no leading, trailing or
   * doubled hyphen, no upper case.
   */
  lemma KebabCaseIffSegments(s: string)
    ensures IsKebabCaseId(s) <==>
      exists segments: seq<string> ::
        |segments| >= 1 && (forall k :: 0 <= k < |segments| ==> IsSegment(segments[k])) &&
        JoinHyphen(segments) == s
  {
    if IsKebabCaseId(s) {
      KebabSplitsIntoSegments(s);
      var segments := SplitHyphen(s);
      assert |segments| >= 1 && (forall k :: 0 <= k < |segments| ==> IsSegment(segments[k])) &&
        JoinHyphen(segments) == s;
    }
    if exists segments: seq<string> ::
        |segments| >= 1 && (forall k :: 0 <= k < |segments| ==> IsSegment(segments[k])) &&
        JoinHyphen(segments) == s
    {
      var segments: seq<string> :|
        |segments| >= 1 && (forall k :: 0 <= k < |segments| ==> IsSegment(segments[k])) &&
        JoinHyphen(segments) == s;
      JoinedSegmentsAreKebab(segments);
    }
  }

  // ---------------------------------------------------------------------------
  // H2 headings and sections
  // ---------------------------------------------------------------------------

  /** `##`, then white space up to index `k`, then `heading`, then only white space. */
  predicate H2MatchAt(line: string, heading: string, k: nat) {
    3 <= k && k + |heading| <= |line| &&
    line[..2] == "##" && AllSpace(line[2..k]) && OccursAt(line, heading, k) &&
    AllSpace(line[k + |heading|..])
  }

  /** The line matches `^##\s+<heading>\s*$`. */
  predicate IsH2Line(line: string, heading: string) {
    exists k: nat :: k <= |line| && H2MatchAt(line, heading, k)
  }

  /** `hasH2`: some line of the document is the heading `## <heading>`. */
  predicate HasH2(lines: seq<string>, heading: string) {
    exists i :: 0 <= i < |lines| && IsH2Line(lines[i], heading)
  }

  /** A line that starts a level-2 section, whatever its text: it starts with `"## "`. */
  predicate StartsH2(line: string) {
    StartsWith(line, "## ")
  }

  /** The first index at or after `from` whose line is `## <heading>`, or `|lines|`. */
  function FirstHeadingIndex(lines: seq<string>, heading: string, from: nat): (r: nat)
    requires from <= |lines|
    ensures from <= r <= |lines|
    ensures r < |lines| ==> IsH2Line(lines[r], heading)
    ensures forall i :: from <= i < r ==> !IsH2Line(lines[i], heading)
    decreases |lines| - from
  {
    if from == |lines| then from
    else if IsH2Line(lines[from], heading) then from
    else FirstHeadingIndex(lines, heading, from + 1)
  }

  /** The first index at or after `from` whose line starts with `"## "`, or `|lines|`. */
  function NextH2Index(lines: seq<string>, from: nat): (r: nat)
    requires from <= |lines|
    ensures from <= r <= |lines|
    ensures r < |lines| ==> StartsH2(lines[r])
    ensures forall i :: from <= i < r ==> !StartsH2(lines[i])
    decreases |lines| - from
  {
    if from == |lines| then from
    else if StartsH2(lines[from]) then from
    else NextH2Index(lines, from + 1)
  }

  /**
   * The lines of the section `## <heading>`: None when no line is that
   * heading; otherwise the lines from the first such heading up to, not
   * including, the next line that starts with `"## "`, or to the end.
   */
  function SectionLines(lines: seq<string>, heading: string): (r: Option<seq<string>>)
    ensures r.None? <==> forall i :: 0 <= i < |lines| ==> !IsH2Line(lines[i], heading)
    ensures r.Some? ==>
      var start := FirstHeadingIndex(lines, heading, 0);
      var end := start + |r.value|;
      start < end <= |lines| && r.value == lines[start..end] &&
      IsH2Line(r.value[0], heading) &&
      (forall i :: 0 <= i < start ==> !IsH2Line(lines[i], heading)) &&
      (forall j :: 1 <= j < |r.value| ==> !StartsH2(r.value[j])) &&
      (end == |lines| || StartsH2(lines[end]))
  {
    var start := FirstHeadingIndex(lines, heading, 0);
    if start == |lines| then None
    else Some(lines[start..NextH2Index(lines, start + 1)])
  }

  /** `hasH2` and `extractH2Section` agree on whether the heading is present. */
  lemma HasH2IffSection(lines: seq<string>, heading: string)
    ensures HasH2(lines, heading) <==> SectionLines(lines, heading).Some?
  {
  }

  /** What `extractH2Section` returns: the section's lines joined with `\n`, or null. */
  function SectionText(lines: seq<string>, heading: string): Option<string> {
    match SectionLines(lines, heading)
    case None => None
    case Some(section) => Some(JoinLines(section))
  }

  /**
   * `extractH2Section`: one loop finds the first heading line, a second loop
   * the end of the section.
   */
  method ExtractH2Section(lines: seq<string>, heading: string) returns (section: Option<string>)
    ensures section == SectionText(lines, heading)
  {
    var start := -1;
    for i := 0 to |lines|
      invariant start == -1
      invariant forall j :: 0 <= j < i ==> !IsH2Line(lines[j], heading)
    {
      if IsH2Line(lines[i], heading) {
        start := i;
        break;
      }
    }
    if start == -1 {
      return None;
    }
    var end := |lines|;
    for i := start + 1 to |lines|
      invariant end == |lines|
      invariant forall j :: start + 1 <= j < i ==> !StartsH2(lines[j])
    {
      if StartsH2(lines[i]) {
        end := i;
        break;
      }
    }
    section := Some(JoinLines(lines[start..end]));
  }

  // ---------------------------------------------------------------------------
  // Code fences
  // ---------------------------------------------------------------------------

  /** A fence marker: a line that starts with three backticks, whatever follows. */
  predicate IsFenceMarker(line: string) {
    StartsWith(line, "```")
  }

  /** The number of fence markers among the first `n` lines. */
  function FenceCount(lines: seq<string>, n: nat): nat
    requires n <= |lines|
  {
    if n == 0 then 0
    else FenceCount(lines, n - 1) + (if IsFenceMarker(lines[n - 1]) then 1 else 0)
  }

  /** The `inFence` toggle when line `i` is reached: an odd number of markers lie before it. */
  predicate InsideFence(lines: seq<string>, i: nat)
    requires i <= |lines|
  {
    FenceCount(lines, i) % 2 == 1
  }

  /** The `inFence` toggle after the whole document: an odd number of markers. */
  predicate Unclosed(lines: seq<string>) {
    InsideFence(lines, |lines|)
  }

  /** `hasUnclosedFence`: the toggle flips on every marker line. */
  method HasUnclosedFence(lines: seq<string>) returns (inFence: bool)
    ensures inFence <==> FenceCount(lines, |lines|) % 2 == 1
  {
    inFence := false;
    for i := 0 to |lines|
      invariant inFence <==> InsideFence(lines, i)
    {
      if !IsFenceMarker(lines[i]) {
        continue;
      }
      inFence := !inFence;
    }
  }

  /** Line `i` opens a fence (it is a marker met outside one) and declares no language: what follows the backticks is blank. */
  predicate IsBareOpening(lines: seq<string>, i: nat)
    requires i < |lines|
  {
    IsFenceMarker(lines[i]) && !InsideFence(lines, i) && AllSpace(lines[i][3..])
  }

  /** The 1-based numbers of the bare openings among the first `n` lines, in order. */
  function BareOpenings(lines: seq<string>, n: nat): seq<nat>
    requires n <= |lines|
  {
    if n == 0 then []
    else BareOpenings(lines, n - 1) + (if IsBareOpening(lines, n - 1) then [n] else [])
  }

  /**
   * The line numbers `fenceOpeningsWithoutLanguage` reports are strictly
   * increasing, and a number is reported exactly when its line is a bare
   * opening; closing markers are never reported.
   */
  lemma {:induction false} BareOpeningsExactly(lines: seq<string>, n: nat)
    requires n <= |lines|
    ensures forall a, b :: 0 <= a < b < |BareOpenings(lines, n)| ==>
      BareOpenings(lines, n)[a] < BareOpenings(lines, n)[b]
    ensures forall m :: m in BareOpenings(lines, n) <==> 1 <= m <= n && IsBareOpening(lines, m - 1)
    ensures forall m :: m in BareOpenings(lines, n) ==> !InsideFence(lines, m - 1)
  {
    if n > 0 {
      BareOpeningsExactly(lines, n - 1);
      var prev := BareOpenings(lines, n - 1);
      assert forall a :: 0 <= a < |prev| ==> prev[a] <= n - 1 by {
        forall a | 0 <= a < |prev| ensures prev[a] <= n - 1 { assert prev[a] in prev; }
      }
    }
  }

  /** `fenceOpeningsWithoutLanguage`. */
  method FenceOpeningsWithoutLanguage(lines: seq<string>) returns (issues: seq<nat>)
    ensures issues == BareOpenings(lines, |lines|)
  {
    issues := [];
    var inFence := false;
    for i := 0 to |lines|
      invariant inFence <==> InsideFence(lines, i)
      invariant issues == BareOpenings(lines, i)
    {
      var line := lines[i];
      InsideFenceStep(lines, i);
      if !IsFenceMarker(line) {
        continue;
      }
      if !inFence {
        var lang := Trim(line[3..]);
        if lang == "" {
          issues := issues + [i + 1];
        }
        inFence := true;
      } else {
        inFence := false;
      }
    }
  }

  /** The line starts with `#` and a white-space character, `/^#\s+/`. */
  predicate StartsH1(line: string) {
    |line| >= 2 && line[0] == '#' && IsSpace(line[1])
  }

  /** Line `i` is an H1 that `countTopLevelH1OutsideFences` counts. */
  predicate CountedH1(lines: seq<string>, i: nat)
    requires i < |lines|
  {
    !IsFenceMarker(lines[i]) && !InsideFence(lines, i) && StartsH1(lines[i])
  }

  /** The indices among the first `n` lines of H1 lines outside fences. */
  function H1LinesOutsideFences(lines: seq<string>, n: nat): set<nat>
    requires n <= |lines|
  {
    set i: nat | i < n && CountedH1(lines, i)
  }

  /** One more line adds its index exactly when it is a counted H1. */
  lemma H1LinesStep(lines: seq<string>, i: nat)
    requires i < |lines|
    ensures |H1LinesOutsideFences(lines, i + 1)| ==
      |H1LinesOutsideFences(lines, i)| + (if CountedH1(lines, i) then 1 else 0)
  {
    if CountedH1(lines, i) {
      H1LinesGrow(lines, i);
    } else {
      H1LinesKeep(lines, i);
    }
  }

  lemma H1LinesGrow(lines: seq<string>, i: nat)
    requires i < |lines| && CountedH1(lines, i)
    ensures H1LinesOutsideFences(lines, i + 1) == H1LinesOutsideFences(lines, i) + {i}
    ensures i !in H1LinesOutsideFences(lines, i)
  {
  }

  lemma H1LinesKeep(lines: seq<string>, i: nat)
    requires i < |lines| && !CountedH1(lines, i)
    ensures H1LinesOutsideFences(lines, i + 1) == H1LinesOutsideFences(lines, i)
  {
  }

  /** The fence toggle flips exactly on a marker line. */
  lemma InsideFenceStep(lines: seq<string>, i: nat)
    requires i < |lines|
    ensures InsideFence(lines, i + 1) <==> (InsideFence(lines, i) != IsFenceMarker(lines[i]))
  {
    assert FenceCount(lines, i + 1) == FenceCount(lines, i) + (if IsFenceMarker(lines[i]) then 1 else 0);
  }

  /** `countTopLevelH1OutsideFences`. */
  method CountTopLevelH1OutsideFences(lines: seq<string>) returns (count: nat)
    ensures count == |H1LinesOutsideFences(lines, |lines|)|
  {
    var inFence := false;
    count := 0;
    for i := 0 to |lines|
      invariant inFence <==> InsideFence(lines, i)
      invariant count == |H1LinesOutsideFences(lines, i)|
    {
      var line := lines[i];
      H1LinesStep(lines, i);
      InsideFenceStep(lines, i);
      if IsFenceMarker(line) {
        inFence := !inFence;
        continue;
      }
      if inFence {
        continue;
      }
      if StartsH1(line) {
        count := count + 1;
      }
    }
  }
}

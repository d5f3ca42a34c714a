/**
 * The internal-link check of one document: outside code fences, every link
 * to a chapter file must name a path the index knows, with the item's title
 * as its label and a `./` target; a chapter path left visible as plain text
 * is reported as well.
 *
 * Numbers in parentheses are line numbers in `scripts/validate-index.mjs`.
 */
module LinkCheck {
  import opened Text
  import opened Wrappers
  import opened Diagnostics
  import opened Markdown
  import opened Links

  /** `target.startsWith("./") ? `chapters/${target.slice(2)}` : target`. */
  function Canonical(target: string): string {
    if StartsWith(target, "./") then "chapters/" + target[2..] else target
  }

  /** Both spellings of a chapter link name the same file, its `chapters/` path. */
  lemma CanonicalForms(rest: string)
    ensures Canonical("./" + rest) == "chapters/" + rest
    ensures Canonical("chapters/" + rest) == "chapters/" + rest
  {
    assert ("./" + rest)[..2] == "./";
    assert ("./" + rest)[2..] == rest;
    assert ("chapters/" + rest)[..2] == "ch";
  }

  /** A title registered for `canonical` that `!expected` does not reject. */
  predicate KnownTarget(titles: map<string, string>, canonical: string) {
    canonical in titles && titles[canonical] != ""
  }

  /** A captured target holds no white space, so `target.trim()` gives it back unchanged. */
  lemma TrimLinkTarget(target: string)
    requires IsLinkTarget(target)
    ensures Trim(target) == target
  {
    assert !IsSpace(target[0]) && !IsSpace(target[|target| - 1]);
  }

  /**
   * What the check reports for one matched link on line `n` (1-based). The
   * target is used as captured, which is its trimmed form (`TrimLinkTarget`).
   */
  function LinkFindings(ref: ItemRef, titles: map<string, string>, m: LinkMatch, n: nat): Findings {
    var linkLabel := Trim(m.linkLabel);
    var target := m.target;
    var canonical := Canonical(target);
    if !KnownTarget(titles, canonical) then Findings([BrokenLink(ref, target, n)], [])
    else
      var expected := titles[canonical];
      var recommended := "./" + Basename(canonical);
      Findings(Flag(StartsWith(target, "chapters/"), UseRelativeLink(ref, recommended, target, n)),
               Flag(linkLabel != expected, LinkLabelMismatch(ref, expected, recommended, n)))
  }

  /**
   * A link to an unknown path gets one error and nothing else; a link to a
   * known path gets no broken-link error, a warning exactly when its label
   * is not the registered title, and an error exactly when its target
   * starts with `chapters/`.
   */
  lemma LinkFindingsExactly(ref: ItemRef, titles: map<string, string>, m: LinkMatch, n: nat)
    ensures var f := LinkFindings(ref, titles, m, n);
      |f.errors| <= 1 && |f.warnings| <= 1
    ensures var f := LinkFindings(ref, titles, m, n);
      !KnownTarget(titles, Canonical(m.target)) ==> f.errors == [BrokenLink(ref, m.target, n)] && f.warnings == []
    ensures var f := LinkFindings(ref, titles, m, n);
      KnownTarget(titles, Canonical(m.target)) ==>
        (forall d :: d in f.errors ==> d.UseRelativeLink?) &&
        (|f.errors| == 1 <==> StartsWith(m.target, "chapters/")) &&
        (|f.warnings| == 1 <==> Trim(m.linkLabel) != titles[Canonical(m.target)])
  {
    var canonical := Canonical(m.target);
    if KnownTarget(titles, canonical) {
      var recommended := "./" + Basename(canonical);
      var expected := titles[canonical];
      assert LinkFindings(ref, titles, m, n) ==
        Findings(Flag(StartsWith(m.target, "chapters/"), UseRelativeLink(ref, recommended, m.target, n)),
                 Flag(Trim(m.linkLabel) != expected, LinkLabelMismatch(ref, expected, recommended, n)));
    }
  }

  /**
   * `[label](./rest)` and `[label](chapters/rest)` are judged alike: both
   * are broken or both known, they get the same warnings, and only the
   * `chapters/` spelling of a known link gets the error asking for `./`.
   */
  lemma RelativeAndPrefixedAgree(ref: ItemRef, titles: map<string, string>, linkLabel: string,
                                  rest: string, start: nat, end: nat, n: nat)
    ensures var rel := LinkFindings(ref, titles, LinkMatch(linkLabel, "./" + rest, start, end), n);
      var abs := LinkFindings(ref, titles, LinkMatch(linkLabel, "chapters/" + rest, start, end), n);
      rel.warnings == abs.warnings &&
      (KnownTarget(titles, "chapters/" + rest) ==>
        rel.errors == [] && abs.errors == [UseRelativeLink(ref, "./" + Basename("chapters/" + rest), "chapters/" + rest, n)]) &&
      (!KnownTarget(titles, "chapters/" + rest) ==> rel.errors[0].BrokenLink? && abs.errors[0].BrokenLink?)
  {
    CanonicalForms(rest);
    assert !StartsWith("./" + rest, "chapters/") by {
      assert ("./" + rest)[1] == '/';
    }
    assert StartsWith("chapters/" + rest, "chapters/") by {
      assert ("chapters/" + rest)[..9] == "chapters/";
    }
  }

  /** The findings of the first `k` matches of a line. */
  function MatchesFindings(ref: ItemRef, titles: map<string, string>, ms: seq<LinkMatch>, n: nat, k: nat): Findings
    requires k <= |ms|
  {
    if k == 0 then NoFindings
    else MatchesFindings(ref, titles, ms, n, k - 1).Then(LinkFindings(ref, titles, ms[k - 1], n))
  }

  /** The warning for a chapter path the line shows once its links are removed. */
  function RawPathWarning(ref: ItemRef, line: string, n: nat): seq<Diagnostic> {
    match VisibleRawPath(line)
    case None => []
    case Some(raw) => [RawPathShown(ref, raw, n)]
  }

  /** What the check reports for line number `n`: its links, then its raw path. */
  function LineFindings(ref: ItemRef, titles: map<string, string>, line: string, n: nat): Findings {
    var ms := Links.Links(line);
    MatchesFindings(ref, titles, ms, n, |ms|).Then(Findings([], RawPathWarning(ref, line, n)))
  }

  /** Line `i` is scanned for links: it is not a fence marker and lies outside every fence. */
  predicate Scanned(lines: seq<string>, i: nat)
    requires i < |lines|
  {
    !IsFenceMarker(lines[i]) && !InsideFence(lines, i)
  }

  /** What the check reports for the first `i` lines of a document. */
  function LinesFindings(ref: ItemRef, titles: map<string, string>, lines: seq<string>, i: nat): Findings
    requires i <= |lines|
  {
    if i == 0 then NoFindings
    else LinesFindings(ref, titles, lines, i - 1).Then(
      if Scanned(lines, i - 1) then LineFindings(ref, titles, lines[i - 1], i) else NoFindings)
  }

  /** One more line adds its findings when it is scanned and nothing otherwise. */
  lemma LinesFindingsStep(ref: ItemRef, titles: map<string, string>, lines: seq<string>, i: nat)
    requires i < |lines|
    ensures LinesFindings(ref, titles, lines, i + 1) ==
      LinesFindings(ref, titles, lines, i).Then(ScanFindings(ref, titles, lines, i))
  {
  }

  /** A diagnostic of the link check, on line `n` and about `ref`. */
  predicate LinkDiagnosticAt(d: Diagnostic, ref: ItemRef, n: nat) {
    (d.BrokenLink? || d.UseRelativeLink? || d.LinkLabelMismatch? || d.RawPathShown?) &&
    d.item == ref && d.lineNumber == n
  }

  /** Every diagnostic of the first `k` matches of line `n` is a link diagnostic about the item on that line. */
  lemma {:induction false} MatchesFindingsAt(ref: ItemRef, titles: map<string, string>, ms: seq<LinkMatch>, n: nat, k: nat)
    requires k <= |ms|
    ensures forall d :: d in MatchesFindings(ref, titles, ms, n, k).errors ==> LinkDiagnosticAt(d, ref, n)
    ensures forall d :: d in MatchesFindings(ref, titles, ms, n, k).warnings ==> LinkDiagnosticAt(d, ref, n)
  {
    if k > 0 {
      MatchesFindingsAt(ref, titles, ms, n, k - 1);
      var prev := MatchesFindings(ref, titles, ms, n, k - 1);
      var last := LinkFindings(ref, titles, ms[k - 1], n);
      LinkFindingsAt(ref, titles, ms[k - 1], n);
      assert MatchesFindings(ref, titles, ms, n, k) == Findings(prev.errors + last.errors, prev.warnings + last.warnings);
    }
  }

  /** Every diagnostic of one link is a link diagnostic about the item on its line. */
  lemma LinkFindingsAt(ref: ItemRef, titles: map<string, string>, m: LinkMatch, n: nat)
    ensures forall d :: d in LinkFindings(ref, titles, m, n).errors ==> LinkDiagnosticAt(d, ref, n)
    ensures forall d :: d in LinkFindings(ref, titles, m, n).warnings ==> LinkDiagnosticAt(d, ref, n)
  {
  }

  /** Every diagnostic of a line is a link diagnostic about the item on that line. */
  lemma LineFindingsAt(ref: ItemRef, titles: map<string, string>, line: string, n: nat)
    ensures forall d :: d in LineFindings(ref, titles, line, n).errors ==> LinkDiagnosticAt(d, ref, n)
    ensures forall d :: d in LineFindings(ref, titles, line, n).warnings ==> LinkDiagnosticAt(d, ref, n)
  {
    MatchesFindingsAt(ref, titles, Links.Links(line), n, |Links.Links(line)|);
  }

  /** A diagnostic reported on some scanned line among the first `i`. */
  predicate ReportedOnScannedLine(d: Diagnostic, ref: ItemRef, lines: seq<string>, i: nat)
    requires i <= |lines|
  {
    exists n :: 1 <= n <= i && Scanned(lines, n - 1) && LinkDiagnosticAt(d, ref, n)
  }

  /**
   * The scan is fence-aware: every diagnostic it reports carries the number
   * of a line that is neither a fence marker nor inside a fence.
   */
  lemma {:induction false} LinesFindingsOutsideFences(ref: ItemRef, titles: map<string, string>, lines: seq<string>, i: nat)
    requires i <= |lines|
    ensures forall d :: d in LinesFindings(ref, titles, lines, i).errors ==> ReportedOnScannedLine(d, ref, lines, i)
    ensures forall d :: d in LinesFindings(ref, titles, lines, i).warnings ==> ReportedOnScannedLine(d, ref, lines, i)
  {
    if i > 0 {
      LinesFindingsOutsideFences(ref, titles, lines, i - 1);
      var prev := LinesFindings(ref, titles, lines, i - 1);
      var last := if Scanned(lines, i - 1) then LineFindings(ref, titles, lines[i - 1], i) else NoFindings;
      LineFindingsAt(ref, titles, lines[i - 1], i);
      assert LinesFindings(ref, titles, lines, i) == prev.Then(last);
      ReportedOnMoreLines(prev.errors, last.errors, ref, lines, i);
      ReportedOnMoreLines(prev.warnings, last.warnings, ref, lines, i);
    }
  }

  /** Diagnostics of the first `i - 1` lines, followed by those of a scanned line `i`. */
  lemma ReportedOnMoreLines(prev: seq<Diagnostic>, last: seq<Diagnostic>, ref: ItemRef, lines: seq<string>, i: nat)
    requires 1 <= i <= |lines|
    requires forall d :: d in prev ==> ReportedOnScannedLine(d, ref, lines, i - 1)
    requires forall d :: d in last ==> Scanned(lines, i - 1) && LinkDiagnosticAt(d, ref, i)
    ensures forall d :: d in prev + last ==> ReportedOnScannedLine(d, ref, lines, i)
  {
    forall d | d in prev + last ensures ReportedOnScannedLine(d, ref, lines, i) {
      if d in prev {
        var n :| 1 <= n <= i - 1 && Scanned(lines, n - 1) && LinkDiagnosticAt(d, ref, n);
      }
    }
  }


  /** One matched link (412-437). */
  method CheckLink(ref: ItemRef, titles: map<string, string>, m: LinkMatch, n: nat, sink: Sink)
    requires IsLinkTarget(m.target)
    modifies sink
    ensures sink.Current() == old(sink.Current()).Then(LinkFindings(ref, titles, m, n))
  {
    var linkLabel := Trim(m.linkLabel);
    var target := m.target;
    var canonical := Canonical(target);
    if canonical !in titles || titles[canonical] == "" {
      sink.Error(BrokenLink(ref, target, n));
      return;
    }
    var expected := titles[canonical];
    var recommended := "./" + Basename(canonical);
    sink.WarnIf(linkLabel != expected, LinkLabelMismatch(ref, expected, recommended, n));
    sink.ErrorIf(StartsWith(target, "chapters/"), UseRelativeLink(ref, recommended, target, n));
  }

  /** One line outside fences: its links in order, then the raw-path search (410-450). */
  method CheckLine(ref: ItemRef, titles: map<string, string>, line: string, n: nat, sink: Sink)
    modifies sink
    ensures sink.Current() == old(sink.Current()).Then(LineFindings(ref, titles, line, n))
  {
    var ms := Links.Links(line);
    LinksWellFormed(line, 0, false);
    CheckMatches(ref, titles, ms, n, sink);
    ghost var before := sink.Current();
    var rawMatch := VisibleRawPath(line);
    if rawMatch.Some? {
      sink.Warn(RawPathShown(ref, rawMatch.value, n));
    }
    assert sink.Current() == before.Then(Findings([], RawPathWarning(ref, line, n)));
    ThenAssoc(old(sink.Current()), MatchesFindings(ref, titles, ms, n, |ms|), Findings([], RawPathWarning(ref, line, n)));
  }

  /** The `matchAll` loop over the links of one line (412-437). */
  method CheckMatches(ref: ItemRef, titles: map<string, string>, ms: seq<LinkMatch>, n: nat, sink: Sink)
    requires forall i :: 0 <= i < |ms| ==> IsLinkTarget(ms[i].target)
    modifies sink
    ensures sink.Current() == old(sink.Current()).Then(MatchesFindings(ref, titles, ms, n, |ms|))
  {
    for k := 0 to |ms|
      invariant sink.Current() == old(sink.Current()).Then(MatchesFindings(ref, titles, ms, n, k))
    {
      CheckLink(ref, titles, ms[k], n, sink);
      ThenAssoc(old(sink.Current()), MatchesFindings(ref, titles, ms, n, k), LinkFindings(ref, titles, ms[k], n));
    }
  }

  /** The scan of a document's lines with its own `inFence` toggle (400-451). */
  method CheckLinks(ref: ItemRef, titles: map<string, string>, lines: seq<string>, sink: Sink)
    modifies sink
    ensures sink.Current() == old(sink.Current()).Then(LinesFindings(ref, titles, lines, |lines|))
  {
    var inFence := false;
    for i := 0 to |lines|
      invariant inFence <==> InsideFence(lines, i)
      invariant sink.Current() == old(sink.Current()).Then(LinesFindings(ref, titles, lines, i))
    {
      inFence := ScanLine(ref, titles, lines, i, inFence, sink);
      LinesFindingsStep(ref, titles, lines, i);
      ThenAssoc(old(sink.Current()), LinesFindings(ref, titles, lines, i), ScanFindings(ref, titles, lines, i));
    }
  }

  /** What one line of the scan adds: its findings when it is scanned, else nothing. */
  function ScanFindings(ref: ItemRef, titles: map<string, string>, lines: seq<string>, i: nat): Findings
    requires i < |lines|
  {
    if Scanned(lines, i) then LineFindings(ref, titles, lines[i], i + 1) else NoFindings
  }

  /** One turn of the scan: toggle on a marker, skip inside a fence, else check the line. */
  method ScanLine(ref: ItemRef, titles: map<string, string>, lines: seq<string>, i: nat, inFence: bool, sink: Sink)
    returns (nowInFence: bool)
    requires i < |lines|
    requires inFence <==> InsideFence(lines, i)
    modifies sink
    ensures nowInFence <==> InsideFence(lines, i + 1)
    ensures sink.Current() == old(sink.Current()).Then(ScanFindings(ref, titles, lines, i))
  {
    InsideFenceStep(lines, i);
    var line := lines[i];
    if IsFenceMarker(line) || inFence {
      ThenNothing(sink.Current());
      return inFence != IsFenceMarker(line);
    }
    CheckLine(ref, titles, line, i + 1, sink);
    nowInFence := inFence;
  }
}

/**
 * The checks `main` runs on the Markdown document of each item: the path
 * must be a safe relative path (and is expected under `chapters/` with a
 * `.md` extension), the file must exist, its H1 must be there and match the
 * item's title, and its structure, required section, links and headings are
 * checked in turn.
 *
 * The documents are given as a map from path to text; a path that is not a
 * key is a file that cannot be read.
 *
 * Numbers in parentheses are line numbers in `scripts/validate-index.mjs`.
 */
module Documents {
  import opened Text
  import opened Wrappers
  import opened Index
  import opened Diagnostics
  import opened Markdown
  import opened LinkCheck

  /** The section an item with an assignment must have. */
  const AssignmentHeading: string := "課題提出"
  /** The section an item without an assignment must have. */
  const CompletionHeading: string := "完了記録"
  /** The H2 headings every document is expected to have, in the order they are checked. */
  const ExpectedHeadings: seq<string> :=
    ["前提", "この章でできるようになること", "AIに聞いてみよう", "演習", "ふりかえり", "次の章"]

  // ---------------------------------------------------------------------------
  // Specification
  // ---------------------------------------------------------------------------

  /** An absolute path, or one containing `..`, is rejected outright. */
  predicate InvalidRelativePath(p: string) {
    IsAbsolutePath(p) || Contains(p, "..")
  }

  /** The layout the curriculum expects: under `chapters/`, with a `.md` extension. */
  predicate ChapterLayout(p: string) {
    StartsWith(p, "chapters/") && EndsWith(p, ".md")
  }

  /** `feature/${path.basename(item.path, ".md")}`. */
  function BranchName(p: string): string {
    "feature/" + BasenameWithoutMd(p)
  }

  /** `readFirstH1` found a heading whose text is not empty (`!h1` is false). */
  predicate HasH1(lines: seq<string>) {
    ReadFirstH1(lines).Some? && ReadFirstH1(lines).value != ""
  }

  /** The first line that is not blank starts with `"# "`. */
  predicate FirstLineIsH1(lines: seq<string>) {
    FirstNonEmptyLine(lines).Some? && StartsWith(FirstNonEmptyLine(lines).value, "# ")
  }

  /** One warning per reported line number, in order. */
  function FenceWarnings(ref: ItemRef, ns: seq<nat>): seq<Diagnostic> {
    if |ns| == 0 then [] else FenceWarnings(ref, ns[..|ns| - 1]) + [FenceWithoutLanguage(ref, ns[|ns| - 1])]
  }

  /** The warnings about the document's shape: first line, H1 count, bare fences, an unclosed fence. */
  function StructureWarnings(ref: ItemRef, lines: seq<string>): seq<Diagnostic> {
    Flag(!FirstLineIsH1(lines), FirstLineNotH1(ref)) +
    Flag(|H1LinesOutsideFences(lines, |lines|)| != 1, H1CountNotOne(ref)) +
    FenceWarnings(ref, BareOpenings(lines, |lines|)) +
    Flag(Unclosed(lines), UnclosedFence(ref))
  }

  /** The errors of the required section, which depends on `hasAssignment` when it is a boolean. */
  function SectionErrors(ref: ItemRef, hasAssignment: Value, p: string, lines: seq<string>): seq<Diagnostic> {
    if !hasAssignment.Bool? then []
    else if hasAssignment.b then
      match SectionText(lines, AssignmentHeading)
      case None => [MissingSection(ref, AssignmentHeading)]
      case Some(section) => Flag(!Contains(section, BranchName(p)), MissingBranchName(ref, BranchName(p)))
    else Flag(SectionText(lines, CompletionHeading).None?, MissingSection(ref, CompletionHeading))
  }

  /** The warnings for the first `k` expected headings. */
  function HeadingWarnings(ref: ItemRef, lines: seq<string>, k: nat): seq<Diagnostic>
    requires k <= |ExpectedHeadings|
  {
    if k == 0 then []
    else
      var heading := ExpectedHeadings[k - 1];
      HeadingWarnings(ref, lines, k - 1) + Flag(!HasH2(lines, heading), MissingHeading(ref, heading))
  }

  /** What the checks of a readable document report (347-465). */
  function ContentFindings(item: Item, p: string, lines: seq<string>, titles: map<string, string>): Findings {
    if !HasH1(lines) then Findings([MissingH1(RefOf(item))], [])
    else H1Findings(item, ReadFirstH1(lines).value, p, lines, titles)
  }

  /** The title comparison and the structure warnings (353-376). */
  function HeadFindings(item: Item, h1: string, lines: seq<string>): Findings {
    Findings(Flag(IsNonEmptyString(item.title) && h1 != item.title.s, TitleMismatch(RefOf(item), h1)),
             StructureWarnings(RefOf(item), lines))
  }

  /** What is reported once the document's H1 `h1` has been found (353-465). */
  function H1Findings(item: Item, h1: string, p: string, lines: seq<string>, titles: map<string, string>): Findings {
    var ref := RefOf(item);
    HeadFindings(item, h1, lines)
      .Then(Findings(SectionErrors(ref, item.hasAssignment, p, lines), []))
      .Then(LinesFindings(ref, titles, lines, |lines|))
      .Then(Findings([], HeadingWarnings(ref, lines, |ExpectedHeadings|)))
  }

  /** What the document checks report for one item (332-468). */
  function DocumentFindings(item: Item, files: map<string, string>, titles: map<string, string>): Findings {
    var ref := RefOf(item);
    if !IsNonEmptyString(item.path) then NoFindings
    else
      var p := item.path.s;
      if InvalidRelativePath(p) then Findings([InvalidPath(ref)], [])
      else AcceptedPathFindings(item, p, files, titles)
  }

  /** What is reported for an item whose path `p` passed the safety test (340-468). */
  function AcceptedPathFindings(item: Item, p: string, files: map<string, string>, titles: map<string, string>): Findings {
    Findings([], Flag(!ChapterLayout(p), UnexpectedPathLayout(RefOf(item)))).Then(
      if p !in files then Findings([FileNotFound(RefOf(item))], [])
      else ContentFindings(item, p, SplitLines(files[p]), titles))
  }

  /** What the document checks report for the first `n` items. */
  function DocumentsFindings(items: seq<Item>, files: map<string, string>, titles: map<string, string>, n: nat): Findings
    requires n <= |items|
  {
    if n == 0 then NoFindings
    else DocumentsFindings(items, files, titles, n - 1).Then(DocumentFindings(items[n - 1], files, titles))
  }

  // ---------------------------------------------------------------------------
  // Properties
  // ---------------------------------------------------------------------------

  /**
   * The path decides how far the checks go: an item without a path string is
   * skipped, a rejected path gets one error and nothing else, and a missing
   * file or a document without an H1 gets one error and at most the layout
   * warning.
   */
  lemma DocumentEarlyExits(item: Item, files: map<string, string>, titles: map<string, string>)
    ensures !IsNonEmptyString(item.path) ==> DocumentFindings(item, files, titles) == NoFindings
    ensures IsNonEmptyString(item.path) && InvalidRelativePath(item.path.s) ==>
      DocumentFindings(item, files, titles) == Findings([InvalidPath(RefOf(item))], [])
    ensures IsNonEmptyString(item.path) && !InvalidRelativePath(item.path.s) ==>
      DocumentFindings(item, files, titles).warnings[..|Flag(!ChapterLayout(item.path.s), UnexpectedPathLayout(RefOf(item)))|] ==
        Flag(!ChapterLayout(item.path.s), UnexpectedPathLayout(RefOf(item)))
    ensures IsNonEmptyString(item.path) && !InvalidRelativePath(item.path.s) && item.path.s !in files ==>
      DocumentFindings(item, files, titles) ==
        Findings([FileNotFound(RefOf(item))], Flag(!ChapterLayout(item.path.s), UnexpectedPathLayout(RefOf(item))))
    ensures (IsNonEmptyString(item.path) && !InvalidRelativePath(item.path.s) && item.path.s in files &&
      !HasH1(SplitLines(files[item.path.s]))) ==>
      DocumentFindings(item, files, titles) ==
        Findings([MissingH1(RefOf(item))], Flag(!ChapterLayout(item.path.s), UnexpectedPathLayout(RefOf(item))))
  {
  }

  /** A found section holds its heading line, so `!section` never rejects it. */
  lemma SectionTextNonEmpty(lines: seq<string>, heading: string)
    ensures SectionText(lines, heading).Some? ==> SectionText(lines, heading).value != ""
  {
    var r := SectionLines(lines, heading);
    if r.Some? {
      var first := r.value[0];
      assert H2MatchAt(first, heading, FirstMatch(first, heading)) by {
        assert IsH2Line(first, heading);
      }
      var s := r.value;
      if |s| > 1 {
        assert JoinLines(s) == s[0] + "\n" + JoinLines(s[1..]);
      }
    }
  }

  /** Some `k` at which the heading matches, chosen for a line that is the heading. */
  ghost function FirstMatch(line: string, heading: string): (k: nat)
    requires IsH2Line(line, heading)
    ensures k <= |line| && H2MatchAt(line, heading, k)
  {
    var k: nat :| k <= |line| && H2MatchAt(line, heading, k); k
  }

  /**
   * At most one section error: the missing assignment section or its missing
   * branch name when `hasAssignment` is true, the missing completion section
   * when it is false, and nothing when it is not a boolean.
   */
  lemma SectionErrorsExactly(ref: ItemRef, hasAssignment: Value, p: string, lines: seq<string>)
    ensures |SectionErrors(ref, hasAssignment, p, lines)| <= 1
    ensures MissingSection(ref, AssignmentHeading) in SectionErrors(ref, hasAssignment, p, lines) <==>
      hasAssignment == Bool(true) && !HasH2(lines, AssignmentHeading)
    ensures MissingSection(ref, CompletionHeading) in SectionErrors(ref, hasAssignment, p, lines) <==>
      hasAssignment == Bool(false) && !HasH2(lines, CompletionHeading)
    ensures MissingBranchName(ref, BranchName(p)) in SectionErrors(ref, hasAssignment, p, lines) <==>
      hasAssignment == Bool(true) && SectionText(lines, AssignmentHeading).Some? &&
      !Contains(SectionText(lines, AssignmentHeading).value, BranchName(p))
  {
    HasH2IffSection(lines, AssignmentHeading);
    HasH2IffSection(lines, CompletionHeading);
    assert AssignmentHeading != CompletionHeading by {
      assert AssignmentHeading[0] != CompletionHeading[0];
    }
  }

  /** The warnings list the reported line numbers, one each, in order. */
  lemma {:induction false} FenceWarningsExactly(ref: ItemRef, ns: seq<nat>)
    ensures |FenceWarnings(ref, ns)| == |ns|
    ensures forall k :: 0 <= k < |ns| ==> FenceWarnings(ref, ns)[k] == FenceWithoutLanguage(ref, ns[k])
  {
    if |ns| > 0 {
      FenceWarningsExactly(ref, ns[..|ns| - 1]);
    }
  }

  /** A fence warning names a line number the list holds, and every listed number has one. */
  lemma FenceWarningsMembers(ref: ItemRef, ns: seq<nat>)
    ensures forall d :: d in FenceWarnings(ref, ns) ==> d.FenceWithoutLanguage?
    ensures forall n: nat :: FenceWithoutLanguage(ref, n) in FenceWarnings(ref, ns) <==> n in ns
  {
    FenceWarningsExactly(ref, ns);
    var fw := FenceWarnings(ref, ns);
    forall d | d in fw ensures d.FenceWithoutLanguage? {
      var k :| 0 <= k < |fw| && fw[k] == d;
    }
    forall n: nat ensures FenceWithoutLanguage(ref, n) in fw <==> n in ns {
      if n in ns {
        var k :| 0 <= k < |ns| && ns[k] == n;
        assert fw[k] == FenceWithoutLanguage(ref, n);
      }
      if FenceWithoutLanguage(ref, n) in fw {
        var k :| 0 <= k < |fw| && fw[k] == FenceWithoutLanguage(ref, n);
      }
    }
  }

  /** A structure warning comes from one of its four checks. */
  lemma InStructure(ref: ItemRef, lines: seq<string>, x: Diagnostic)
    ensures x in StructureWarnings(ref, lines) <==>
      x in Flag(!FirstLineIsH1(lines), FirstLineNotH1(ref)) ||
      x in Flag(|H1LinesOutsideFences(lines, |lines|)| != 1, H1CountNotOne(ref)) ||
      x in FenceWarnings(ref, BareOpenings(lines, |lines|)) ||
      x in Flag(Unclosed(lines), UnclosedFence(ref))
  {
  }

  /**
   * The first-line warning comes exactly when the first non-blank line does
   * not start with `"# "`, the count warning exactly when not one H1 lies
   * outside fences, and the unclosed warning exactly when the markers are
   * odd in number.
   */
  lemma StructureFlags(ref: ItemRef, lines: seq<string>)
    ensures FirstLineNotH1(ref) in StructureWarnings(ref, lines) <==> !FirstLineIsH1(lines)
    ensures H1CountNotOne(ref) in StructureWarnings(ref, lines) <==> |H1LinesOutsideFences(lines, |lines|)| != 1
    ensures UnclosedFence(ref) in StructureWarnings(ref, lines) <==> Unclosed(lines)
  {
    FenceWarningsMembers(ref, BareOpenings(lines, |lines|));
    InStructure(ref, lines, FirstLineNotH1(ref));
    InStructure(ref, lines, H1CountNotOne(ref));
    InStructure(ref, lines, UnclosedFence(ref));
  }

  /** A fence warning is reported for exactly the bare opening markers, by 1-based line number. */
  lemma StructureFences(ref: ItemRef, lines: seq<string>)
    ensures forall n: nat :: FenceWithoutLanguage(ref, n) in StructureWarnings(ref, lines) <==>
      1 <= n <= |lines| && IsBareOpening(lines, n - 1)
  {
    BareOpeningsExactly(lines, |lines|);
    FenceWarningsMembers(ref, BareOpenings(lines, |lines|));
    forall n: nat ensures FenceWithoutLanguage(ref, n) in StructureWarnings(ref, lines) <==>
      FenceWithoutLanguage(ref, n) in FenceWarnings(ref, BareOpenings(lines, |lines|))
    {
      InStructure(ref, lines, FenceWithoutLanguage(ref, n));
    }
  }

  /** A heading is warned about exactly when it is expected and the document lacks it. */
  lemma {:induction false} HeadingWarningsExactly(ref: ItemRef, lines: seq<string>, k: nat)
    requires k <= |ExpectedHeadings|
    ensures |HeadingWarnings(ref, lines, k)| <= k
    ensures forall d :: d in HeadingWarnings(ref, lines, k) ==> d.MissingHeading? && d.item == ref
    ensures forall h :: MissingHeading(ref, h) in HeadingWarnings(ref, lines, k) <==>
      h in ExpectedHeadings[..k] && !HasH2(lines, h)
  {
    if k > 0 {
      HeadingWarningsExactly(ref, lines, k - 1);
      assert ExpectedHeadings[..k] == ExpectedHeadings[..k - 1] + [ExpectedHeadings[k - 1]];
    }
  }

  // ---------------------------------------------------------------------------
  // The checks
  // ---------------------------------------------------------------------------

  /** One warning per line number of a bare fence opening (369-372). */
  method WarnBareFences(ref: ItemRef, fenceLines: seq<nat>, sink: Sink)
    modifies sink
    ensures sink.warnings == old(sink.warnings) + FenceWarnings(ref, fenceLines)
    ensures sink.errors == old(sink.errors)
  {
    for k := 0 to |fenceLines|
      invariant sink.warnings == old(sink.warnings) + FenceWarnings(ref, fenceLines[..k])
      invariant sink.errors == old(sink.errors)
    {
      assert fenceLines[..k + 1][..k] == fenceLines[..k];
      sink.Warn(FenceWithoutLanguage(ref, fenceLines[k]));
      Regroup2(old(sink.warnings), FenceWarnings(ref, fenceLines[..k]), [FenceWithoutLanguage(ref, fenceLines[k])]);
    }
    assert fenceLines[..|fenceLines|] == fenceLines;
  }

  /** The first-line, H1-count and fence warnings (359-376). */
  method CheckStructure(ref: ItemRef, lines: seq<string>, sink: Sink)
    modifies sink
    ensures sink.warnings == old(sink.warnings) + StructureWarnings(ref, lines)
    ensures sink.errors == old(sink.errors)
  {
    var firstLine := FirstNonEmptyLine(lines);
    sink.WarnIf(!(firstLine.Some? && StartsWith(firstLine.value, "# ")), FirstLineNotH1(ref));
    var h1Count := CountTopLevelH1OutsideFences(lines);
    sink.WarnIf(h1Count != 1, H1CountNotOne(ref));
    var fenceLines := FenceOpeningsWithoutLanguage(lines);
    WarnBareFences(ref, fenceLines, sink);
    var unclosed := HasUnclosedFence(lines);
    sink.WarnIf(unclosed, UnclosedFence(ref));
    Regroup4(old(sink.warnings), Flag(!FirstLineIsH1(lines), FirstLineNotH1(ref)),
      Flag(|H1LinesOutsideFences(lines, |lines|)| != 1, H1CountNotOne(ref)),
      FenceWarnings(ref, BareOpenings(lines, |lines|)), Flag(Unclosed(lines), UnclosedFence(ref)));
  }

  /** The required section and its branch name (378-398). */
  method CheckSection(ref: ItemRef, hasAssignment: Value, p: string, lines: seq<string>, sink: Sink)
    modifies sink
    ensures sink.errors == old(sink.errors) + SectionErrors(ref, hasAssignment, p, lines)
    ensures sink.warnings == old(sink.warnings)
  {
    if !hasAssignment.Bool? {
      return;
    }
    if hasAssignment.b {
      var section := ExtractH2Section(lines, AssignmentHeading);
      SectionTextNonEmpty(lines, AssignmentHeading);
      if section.None? || section.value == "" {
        sink.Error(MissingSection(ref, AssignmentHeading));
      } else {
        var expectedBranch := "feature/" + BasenameWithoutMd(p);
        sink.ErrorIf(!Contains(section.value, expectedBranch), MissingBranchName(ref, expectedBranch));
      }
    } else {
      var section := ExtractH2Section(lines, CompletionHeading);
      SectionTextNonEmpty(lines, CompletionHeading);
      sink.ErrorIf(section.None? || section.value == "", MissingSection(ref, CompletionHeading));
    }
  }

  /** The expected headings, in order (453-465). */
  method CheckHeadings(ref: ItemRef, lines: seq<string>, sink: Sink)
    modifies sink
    ensures sink.warnings == old(sink.warnings) + HeadingWarnings(ref, lines, |ExpectedHeadings|)
    ensures sink.errors == old(sink.errors)
  {
    for k := 0 to |ExpectedHeadings|
      invariant sink.warnings == old(sink.warnings) + HeadingWarnings(ref, lines, k)
      invariant sink.errors == old(sink.errors)
    {
      var heading := ExpectedHeadings[k];
      sink.WarnIf(!HasH2(lines, heading), MissingHeading(ref, heading));
      Regroup2(old(sink.warnings), HeadingWarnings(ref, lines, k), Flag(!HasH2(lines, heading), MissingHeading(ref, heading)));
    }
  }

  /** The checks that follow a found H1 (353-465). */
  method CheckAfterH1(item: Item, h1: string, p: string, lines: seq<string>, titles: map<string, string>, sink: Sink)
    modifies sink
    ensures sink.Current() == old(sink.Current()).Then(H1Findings(item, h1, p, lines, titles))
  {
    var ref := RefOf(item);
    NonEmptyStringIffTrimmed(item.title);
    var mismatch := item.title.Str? && Trim(item.title.s) != "" && h1 != item.title.s;
    sink.ErrorIf(mismatch, TitleMismatch(ref, h1));
    CheckStructure(ref, lines, sink);
    ghost var acc := HeadFindings(item, h1, lines);
    assert sink.Current() == old(sink.Current()).Then(acc);

    ghost var before := sink.Current();
    CheckSection(ref, item.hasAssignment, p, lines, sink);
    ghost var section := Findings(SectionErrors(ref, item.hasAssignment, p, lines), []);
    assert sink.Current() == before.Then(section);
    ThenAssoc(old(sink.Current()), acc, section);
    acc := acc.Then(section);

    before := sink.Current();
    CheckLinks(ref, titles, lines, sink);
    ghost var links := LinesFindings(ref, titles, lines, |lines|);
    ThenAssoc(old(sink.Current()), acc, links);
    acc := acc.Then(links);

    before := sink.Current();
    CheckHeadings(ref, lines, sink);
    ghost var headings := Findings([], HeadingWarnings(ref, lines, |ExpectedHeadings|));
    assert sink.Current() == before.Then(headings);
    ThenAssoc(old(sink.Current()), acc, headings);
    acc := acc.Then(headings);
    assert H1Findings(item, h1, p, lines, titles) == acc;
  }

  /** The checks of a document that could be read (347-465). */
  method CheckContent(item: Item, p: string, markdown: string, titles: map<string, string>, sink: Sink)
    modifies sink
    ensures sink.Current() == old(sink.Current()).Then(ContentFindings(item, p, SplitLines(markdown), titles))
  {
    var lines := SplitLines(markdown);
    var h1 := ReadFirstH1(lines);
    if h1.None? || h1.value == "" {
      sink.Error(MissingH1(RefOf(item)));
      return;
    }
    CheckAfterH1(item, h1.value, p, lines, titles, sink);
  }

  /** The layout warning, the read and the content checks of an accepted path (340-468). */
  method CheckAcceptedPath(item: Item, p: string, files: map<string, string>, titles: map<string, string>, sink: Sink)
    modifies sink
    ensures sink.Current() == old(sink.Current()).Then(AcceptedPathFindings(item, p, files, titles))
  {
    var ref := RefOf(item);
    sink.WarnIf(!(StartsWith(p, "chapters/") && EndsWith(p, ".md")), UnexpectedPathLayout(ref));
    ghost var layout := Findings([], Flag(!ChapterLayout(p), UnexpectedPathLayout(ref)));
    if p !in files {
      sink.Error(FileNotFound(ref));
      return;
    }
    assert sink.Current() == old(sink.Current()).Then(layout);
    CheckContent(item, p, files[p], titles, sink);
    ThenAssoc(old(sink.Current()), layout, ContentFindings(item, p, SplitLines(files[p]), titles));
  }

  /** The checks of one item's document (332-468). */
  method CheckDocument(item: Item, files: map<string, string>, titles: map<string, string>, sink: Sink)
    modifies sink
    ensures sink.Current() == old(sink.Current()).Then(DocumentFindings(item, files, titles))
  {
    NonEmptyStringIffTrimmed(item.path);
    if !item.path.Str? || Trim(item.path.s) == "" {
      ThenNothing(sink.Current());
      return;
    }
    var p := item.path.s;
    if IsAbsolutePath(p) || Contains(p, "..") {
      sink.Error(InvalidPath(RefOf(item)));
      return;
    }
    CheckAcceptedPath(item, p, files, titles, sink);
  }

  /** The loop over the items (332-469). */
  method CheckDocuments(items: seq<Item>, files: map<string, string>, titles: map<string, string>, sink: Sink)
    modifies sink
    ensures sink.Current() == old(sink.Current()).Then(DocumentsFindings(items, files, titles, |items|))
  {
    for i := 0 to |items|
      invariant sink.Current() == old(sink.Current()).Then(DocumentsFindings(items, files, titles, i))
    {
      CheckDocument(items[i], files, titles, sink);
      ThenAssoc(old(sink.Current()), DocumentsFindings(items, files, titles, i), DocumentFindings(items[i], files, titles));
    }
  }
}

/**
 * `main` without its I/O: the parsed index, the documents and the listing of
 * `chapters/` go in; either one of the three fatal outcomes, or the two
 * lists of diagnostics every pass appended to, in the order `main` runs
 * them, come out. The exit code follows from the outcome.
 *
 * Numbers in parentheses are line numbers in `scripts/validate-index.mjs`.
 */
module Validator {
  import opened Wrappers
  import opened Index
  import opened Diagnostics
  import opened Schema
  import opened Prerequisites
  import opened LinkCheck
  import opened Documents
  import opened Orphans

  /** Why `main` stopped before any check ran (119-141). */
  datatype Failure = ReadOrParseFailed | NotAJsonObject | MissingChaptersArray

  /** What a run ends with. */
  datatype Outcome =
    | Fatal(failure: Failure)
    | Report(errors: seq<Diagnostic>, warnings: seq<Diagnostic>)

  /** `process.exitCode`: 1 after a fatal failure or when any error was pushed, else left at 0. */
  function ExitCode(o: Outcome): (code: nat)
    ensures code <= 1
    ensures code == 0 <==> o.Report? && o.errors == []
  {
    if o.Fatal? || |o.errors| > 0 then 1 else 0
  }

  // ---------------------------------------------------------------------------
  // What the passes report
  // ---------------------------------------------------------------------------

  /** The flattened item list. */
  function ItemsOf(chapters: seq<RawUnit>): seq<Item> {
    Flatten(chapters, |chapters|)
  }

  /** The errors of the duplicate ids (`byPath` false) or duplicate paths of the indexed items (257-273). */
  function Duplicates(items: seq<Item>, byPath: bool): seq<Diagnostic> {
    var pairs := KeyedItems(items, |items|, byPath);
    GroupKeysListed(pairs);
    DuplicateErrors(GroupBy(pairs), |GroupBy(pairs).keys|, byPath)
  }

  /** The errors pushed before the cycle search: units, items, duplicates and references (143-287). */
  function ErrorsBeforeCycles(chapters: seq<RawUnit>): seq<Diagnostic> {
    var items := ItemsOf(chapters);
    AllUnitErrors(chapters, |chapters|) + SchemaErrors(items, |items|) +
    Duplicates(items, false) + Duplicates(items, true) +
    ReferenceErrors(items, AllItemIds(items, |items|), |items|)
  }

  /** What the document checks of every item report, with the titles of `pathToTitle` (250-255, 332-467). */
  function AllDocumentFindings(chapters: seq<RawUnit>, files: map<string, string>): Findings {
    var items := ItemsOf(chapters);
    DocumentsFindings(items, files, PathTitles(items, |items|), |items|)
  }

  /** Every warning of a run, in order: ordering, documents, unreferenced files. */
  function AllWarnings(chapters: seq<RawUnit>, files: map<string, string>, listing: Option<seq<DirEntry>>): seq<Diagnostic> {
    var items := ItemsOf(chapters);
    OrderWarnings(OrderMap(items, |items|), items, |items|) +
    AllDocumentFindings(chapters, files).warnings +
    OrphanWarnings(items, listing)
  }

  /**
   * `errors` is what a run reports: the errors before the cycle search, then
   * only errors naming cycles of the prerequisite graph, then the document
   * errors.
   */
  predicate ErrorsAsReported(chapters: seq<RawUnit>, files: map<string, string>, errors: seq<Diagnostic>) {
    var before := ErrorsBeforeCycles(chapters);
    var documents := AllDocumentFindings(chapters, files).errors;
    |before| + |documents| <= |errors| &&
    errors[|errors| - |documents|..] == documents &&
    CyclesAppended(ItemsOf(chapters), before, errors[..|errors| - |documents|])
  }

  // ---------------------------------------------------------------------------
  // The run
  // ---------------------------------------------------------------------------

  /** The checks that need no document: units, items, duplicates, references and ordering (143-303). */
  method CheckIndex(chapters: seq<RawUnit>, sink: Sink) returns (items: seq<Item>)
    requires sink.errors == [] && sink.warnings == []
    modifies sink
    ensures items == ItemsOf(chapters)
    ensures sink.errors == ErrorsBeforeCycles(chapters)
    ensures sink.warnings == OrderWarnings(OrderMap(items, |items|), items, |items|)
  {
    items := FlattenUnits(chapters, sink);
    var ids, paths := ValidateItems(items, sink);
    GroupKeysListed(KeyedItems(items, |items|, false));
    GroupKeysListed(KeyedItems(items, |items|, true));
    ReportDuplicates(ids, false, sink);
    ReportDuplicates(paths, true, sink);
    var allItemIds := AllItemIds(items, |items|);
    CheckReferences(items, allItemIds, sink);
    Regroup5([], AllUnitErrors(chapters, |chapters|), SchemaErrors(items, |items|),
      Duplicates(items, false), Duplicates(items, true), ReferenceErrors(items, allItemIds, |items|));
    CheckOrder(items, sink);
  }

  /** The cycle search, the document checks and the scan for unreferenced files (305-481). */
  method CheckRest(chapters: seq<RawUnit>, items: seq<Item>, files: map<string, string>,
                   listing: Option<seq<DirEntry>>, sink: Sink)
    requires items == ItemsOf(chapters)
    requires sink.errors == ErrorsBeforeCycles(chapters)
    requires sink.warnings == OrderWarnings(OrderMap(items, |items|), items, |items|)
    modifies sink
    ensures ErrorsAsReported(chapters, files, sink.errors)
    ensures sink.warnings == AllWarnings(chapters, files, listing)
  {
    var titles := BuildPathTitles(items);
    DetectCycles(items, sink);
    ghost var afterCycles := sink.errors;
    ghost var docs := AllDocumentFindings(chapters, files);
    CheckDocuments(items, files, titles, sink);
    assert sink.errors == afterCycles + docs.errors;
    assert sink.errors[..|sink.errors| - |docs.errors|] == afterCycles;
    CheckOrphans(items, listing, sink);
  }

  /** Every pass over a usable index, in order, on a fresh pair of lists (143-481). */
  method Run(chapters: seq<RawUnit>, files: map<string, string>, listing: Option<seq<DirEntry>>)
    returns (errors: seq<Diagnostic>, warnings: seq<Diagnostic>)
    ensures ErrorsAsReported(chapters, files, errors)
    ensures warnings == AllWarnings(chapters, files, listing)
  {
    var sink := new Sink();
    var items := CheckIndex(chapters, sink);
    CheckRest(chapters, items, files, listing, sink);
    errors, warnings := sink.errors, sink.warnings;
  }

  /** `main`: the fatal checks of the index, then every pass in order (111-500). */
  method Validate(doc: IndexDocument, files: map<string, string>, listing: Option<seq<DirEntry>>)
    returns (o: Outcome)
    ensures doc.Unreadable? ==> o == Fatal(ReadOrParseFailed)
    ensures doc.NotAnObject? ==> o == Fatal(NotAJsonObject)
    ensures doc.IndexObject? && doc.chapters.None? ==> o == Fatal(MissingChaptersArray)
    ensures doc.IndexObject? && doc.chapters.Some? ==>
      o.Report? &&
      ErrorsAsReported(doc.chapters.value, files, o.errors) &&
      o.warnings == AllWarnings(doc.chapters.value, files, listing)
  {
    match doc
    case Unreadable => return Fatal(ReadOrParseFailed);
    case NotAnObject => return Fatal(NotAJsonObject);
    case IndexObject(chapters) =>
      if chapters.None? {
        return Fatal(MissingChaptersArray);
      }
      var errors, warnings := Run(chapters.value, files, listing);
      o := Report(errors, warnings);
  }

  // ---------------------------------------------------------------------------
  // Properties
  // ---------------------------------------------------------------------------

  /** An index with no units has nothing to check: no errors, so exit code 0, and only the scan can warn. */
  lemma EmptyIndexPasses(files: map<string, string>, listing: Option<seq<DirEntry>>, errors: seq<Diagnostic>)
    requires ErrorsAsReported([], files, errors)
    ensures errors == []
    ensures AllWarnings([], files, listing) == OrphanWarnings([], listing)
    ensures ExitCode(Report(errors, AllWarnings([], files, listing))) == 0
  {
    assert ItemsOf([]) == [];
    assert ErrorsBeforeCycles([]) == [];
    assert AllDocumentFindings([], files) == NoFindings;
    assert errors[..|errors| - |AllDocumentFindings([], files).errors|] == errors;
    CyclesWithoutItems(errors);
  }

  /** Without items there are no edges, so no cycles. */
  lemma NoCyclesWithoutItems(c: seq<Value>)
    ensures !IsCycle([], c)
  {
    if |c| >= 2 {
      assert !Edge([], c[0], c[1]);
    }
  }

  /** Without items no error can be appended as a cycle. */
  lemma CyclesWithoutItems(after: seq<Diagnostic>)
    ensures CyclesAppended([], [], after) <==> after == []
  {
    if |after| > 0 && after[0].PrerequisiteCycle? {
      NoCyclesWithoutItems(after[0].cycle);
    }
  }

  /**
   * A run fails exactly when the index is unusable or some error was
   * reported; warnings alone never fail it.
   */
  lemma WarningsNeverFail(errors: seq<Diagnostic>, w1: seq<Diagnostic>, w2: seq<Diagnostic>)
    ensures ExitCode(Report(errors, w1)) == ExitCode(Report(errors, w2))
    ensures ExitCode(Report(errors, w1)) == 1 <==> |errors| > 0
  {
  }
}

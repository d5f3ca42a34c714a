/**
 * The validator's two append-only lists, `errors` and `warnings`. Each entry
 * is a structured diagnostic carrying the values the source interpolates into
 * its message; the message text itself is not modelled.
 */
module Diagnostics {
  import opened Index

  /** What `formatItemRef` prints of an item: its unit id, its id and its path. */
  datatype ItemRef = ItemRef(unitId: Value, itemId: Value, path: Value)

  function RefOf(it: Item): (r: ItemRef)
    ensures r.unitId == it.unitId && r.itemId == it.itemId && r.path == it.path
  {
    ItemRef(it.unitId, it.itemId, it.path)
  }

  /** The references of a group of items, in order. */
  function RefsOf(items: seq<Item>): (r: seq<ItemRef>)
    ensures |r| == |items| && forall k :: 0 <= k < |items| ==> r[k] == RefOf(items[k])
  {
    seq(|items|, k requires 0 <= k < |items| => RefOf(items[k]))
  }

  datatype Diagnostic =
    // Errors of the unit and item schema checks.
    | UnitMissingId(unitId: Value)
    | UnitIdNotKebab(unitId: Value)
    | UnitMissingTitle(unitId: Value)
    | UnitMissingItems(unitId: Value)
    | ItemMissingId(unitId: Value)
    | ItemIdNotKebab(item: ItemRef)
    | ItemMissingTitle(item: ItemRef)
    | ItemMissingPath(item: ItemRef)
    | BadEstimatedMinutes(item: ItemRef)
    | BadHasAssignment(item: ItemRef)
    | BadPracticeMinutes(item: ItemRef)
    | BadType(item: ItemRef)
    | BadDifficulty(item: ItemRef)
    | BadTags(item: ItemRef)
    | DuplicateTags(item: ItemRef)
    | BadPrerequisites(item: ItemRef)
    | DuplicatePrerequisites(item: ItemRef)
    // Errors of the identity and prerequisite checks.
    | DuplicateId(id: string, group: seq<ItemRef>)
    | DuplicatePath(path: string, group: seq<ItemRef>)
    | SelfPrerequisite(item: ItemRef)
    | UnknownPrerequisite(item: ItemRef, prerequisite: Value)
    | PrerequisiteCycle(cycle: seq<Value>)
    // Errors of the document checks.
    | InvalidPath(item: ItemRef)
    | FileNotFound(item: ItemRef)
    | MissingH1(item: ItemRef)
    | TitleMismatch(item: ItemRef, h1: string)
    | MissingSection(item: ItemRef, heading: string)
    | MissingBranchName(item: ItemRef, branch: string)
    | BrokenLink(item: ItemRef, target: string, lineNumber: nat)
    | UseRelativeLink(item: ItemRef, recommended: string, target: string, lineNumber: nat)
    // Warnings.
    | PrerequisiteAfter(item: ItemRef, prerequisite: Value)
    | UnexpectedPathLayout(item: ItemRef)
    | FirstLineNotH1(item: ItemRef)
    | H1CountNotOne(item: ItemRef)
    | FenceWithoutLanguage(item: ItemRef, lineNumber: nat)
    | UnclosedFence(item: ItemRef)
    | LinkLabelMismatch(item: ItemRef, expectedTitle: string, recommended: string, lineNumber: nat)
    | RawPathShown(item: ItemRef, raw: string, lineNumber: nat)
    | MissingHeading(item: ItemRef, heading: string)
    | UnreferencedFiles(files: seq<string>)

  /** What one check contributes to the two lists, in order. */
  datatype Findings = Findings(errors: seq<Diagnostic>, warnings: seq<Diagnostic>) {
    /** This check's findings followed by those of `next`. */
    function Then(next: Findings): (r: Findings)
      ensures |r.errors| == |errors| + |next.errors| && |r.warnings| == |warnings| + |next.warnings|
    {
      Findings(errors + next.errors, warnings + next.warnings)
    }
  }

  const NoFindings := Findings([], [])

  /** Appending findings in two steps is appending them at once. */
  lemma ThenNothing(a: Findings)
    ensures a.Then(NoFindings) == a
  {
  }

  lemma ThenAssoc(a: Findings, b: Findings, c: Findings)
    ensures a.Then(b).Then(c) == a.Then(b.Then(c))
  {
  }

  /** The one diagnostic of a check that failed, nothing for one that passed. */
  function Flag(failed: bool, d: Diagnostic): seq<Diagnostic> {
    if failed then [d] else []
  }

  lemma InFlag(x: Diagnostic, failed: bool, d: Diagnostic)
    ensures x in Flag(failed, d) <==> failed && x == d
  {
  }

  lemma InFlags2(c1: bool, d1: Diagnostic, c2: bool, d2: Diagnostic)
    ensures forall x :: x in Flag(c1, d1) + Flag(c2, d2) <==> (c1 && x == d1) || (c2 && x == d2)
  {
    forall x ensures x in Flag(c1, d1) + Flag(c2, d2) <==> (c1 && x == d1) || (c2 && x == d2) {
      InFlag(x, c1, d1);
      InFlag(x, c2, d2);
    }
  }

  // Concatenation is associative; stating the regrouping outright keeps the
  // solver from searching for it in the proofs that append to a sink.

  lemma Regroup2(o: seq<Diagnostic>, a: seq<Diagnostic>, b: seq<Diagnostic>)
    ensures o + a + b == o + (a + b)
  {
  }

  lemma Regroup3(o: seq<Diagnostic>, a: seq<Diagnostic>, b: seq<Diagnostic>, c: seq<Diagnostic>)
    ensures o + a + b + c == o + (a + b + c)
  {
  }

  lemma Regroup4(o: seq<Diagnostic>, a: seq<Diagnostic>, b: seq<Diagnostic>, c: seq<Diagnostic>, d: seq<Diagnostic>)
    ensures o + a + b + c + d == o + (a + b + c + d)
  {
  }

  lemma Regroup5(o: seq<Diagnostic>, a: seq<Diagnostic>, b: seq<Diagnostic>, c: seq<Diagnostic>,
                 d: seq<Diagnostic>, e: seq<Diagnostic>)
    ensures o + a + b + c + d + e == o + (a + b + c + d + e)
  {
  }

  /** The shared sink every check appends to. */
  class Sink {
    var errors: seq<Diagnostic>
    var warnings: seq<Diagnostic>

    constructor ()
      ensures errors == [] && warnings == []
    {
      errors, warnings := [], [];
    }

    /** The two lists as a value. */
    function Current(): Findings
      reads this
    {
      Findings(errors, warnings)
    }

    /** `errors.push(d)`. */
    method Error(d: Diagnostic)
      modifies this
      ensures errors == old(errors) + [d] && warnings == old(warnings)
    {
      errors := errors + [d];
    }

    /** `if (failed) errors.push(d)`. */
    method ErrorIf(failed: bool, d: Diagnostic)
      modifies this
      ensures errors == old(errors) + Flag(failed, d) && warnings == old(warnings)
    {
      if failed {
        errors := errors + [d];
      }
    }

    /** `if (failed) warnings.push(d)`. */
    method WarnIf(failed: bool, d: Diagnostic)
      modifies this
      ensures warnings == old(warnings) + Flag(failed, d) && errors == old(errors)
    {
      if failed {
        warnings := warnings + [d];
      }
    }

    /** `warnings.push(d)`. */
    method Warn(d: Diagnostic)
      modifies this
      ensures warnings == old(warnings) + [d] && errors == old(errors)
    {
      warnings := warnings + [d];
    }
  }
}

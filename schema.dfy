/**
 * The first half of `main`: flattening the units into one item list with the
 * unit checks, the per-item schema checks that also build the id and path
 * groups, the duplicate-id and duplicate-path reports, and the path-to-title
 * map the link check uses.
 *
 * Numbers in parentheses are line numbers in `scripts/validate-index.mjs`.
 */
module Schema {
  import opened Text
  import opened Index
  import opened Diagnostics
  import Markdown

  const AllowedTypes: seq<string> := ["guide", "lesson", "hands-on", "project", "reference"]
  const AllowedDifficulties: seq<string> := ["beginner", "intermediate", "advanced"]

  // ---------------------------------------------------------------------------
  // Units and the flattened item list (143-175)
  // ---------------------------------------------------------------------------

  /** The errors one unit raises, in the order the source pushes them (144-158). */
  function UnitErrors(c: RawUnit): seq<Diagnostic> {
    var unitId := UnitIdOf(c);
    (if !IsNonEmptyString(c.id) then [UnitMissingId(unitId)]
     else Flag(!Markdown.IsKebabCaseId(c.id.s), UnitIdNotKebab(unitId))) +
    UnitTail(c)
  }

  /**
   * Each unit error is raised exactly when its check fails; the kebab-case
   * check only runs on an id that is a non-empty string.
   */
  lemma UnitErrorsExactly(c: RawUnit)
    ensures |UnitErrors(c)| <= 3
    ensures UnitMissingId(UnitIdOf(c)) in UnitErrors(c) <==> !IsNonEmptyString(c.id)
    ensures UnitIdNotKebab(UnitIdOf(c)) in UnitErrors(c) <==>
      IsNonEmptyString(c.id) && !Markdown.IsKebabCaseId(c.id.s)
    ensures UnitMissingTitle(UnitIdOf(c)) in UnitErrors(c) <==> !IsNonEmptyString(c.title)
    ensures UnitMissingItems(UnitIdOf(c)) in UnitErrors(c) <==> c.items.None?
  {
    var unitId := UnitIdOf(c);
    var rest := UnitTail(c);
    UnitTailMembers(c);
    if IsNonEmptyString(c.id) {
      InFlag(UnitIdNotKebab(unitId), !Markdown.IsKebabCaseId(c.id.s), UnitIdNotKebab(unitId));
      assert UnitErrors(c) == Flag(!Markdown.IsKebabCaseId(c.id.s), UnitIdNotKebab(unitId)) + rest;
    } else {
      assert UnitErrors(c) == [UnitMissingId(unitId)] + rest;
    }
  }

  /** The title and items checks of a unit. */
  function UnitTail(c: RawUnit): seq<Diagnostic> {
    Flag(!IsNonEmptyString(c.title), UnitMissingTitle(UnitIdOf(c))) + Flag(c.items.None?, UnitMissingItems(UnitIdOf(c)))
  }

  /** The title and items checks raise their own errors exactly when they fail, and no id error. */
  lemma UnitTailMembers(c: RawUnit)
    ensures |UnitTail(c)| <= 2
    ensures UnitMissingId(UnitIdOf(c)) !in UnitTail(c) && UnitIdNotKebab(UnitIdOf(c)) !in UnitTail(c)
    ensures UnitMissingTitle(UnitIdOf(c)) in UnitTail(c) <==> !IsNonEmptyString(c.title)
    ensures UnitMissingItems(UnitIdOf(c)) in UnitTail(c) <==> c.items.None?
  {
    var unitId := UnitIdOf(c);
    InFlags2(!IsNonEmptyString(c.title), UnitMissingTitle(unitId), c.items.None?, UnitMissingItems(unitId));
  }

  /** The items built from the first `n` raw items of a unit. */
  function ItemsOf(unitId: Value, raws: seq<RawItem>, n: nat): (r: seq<Item>)
    requires n <= |raws|
    ensures |r| == n
    ensures forall k :: 0 <= k < n ==> r[k] == ToItem(unitId, raws[k])
  {
    if n == 0 then [] else ItemsOf(unitId, raws, n - 1) + [ToItem(unitId, raws[n - 1])]
  }

  /** The items a unit contributes: none when its `items` is not an array. */
  function UnitItems(c: RawUnit): seq<Item> {
    if c.items.None? then [] else ItemsOf(UnitIdOf(c), c.items.value, |c.items.value|)
  }

  /** The flattened list of the first `n` units, in document order. */
  function Flatten(chapters: seq<RawUnit>, n: nat): seq<Item>
    requires n <= |chapters|
  {
    if n == 0 then [] else Flatten(chapters, n - 1) + UnitItems(chapters[n - 1])
  }

  /** The unit errors of the first `n` units. */
  function AllUnitErrors(chapters: seq<RawUnit>, n: nat): seq<Diagnostic>
    requires n <= |chapters|
  {
    if n == 0 then [] else AllUnitErrors(chapters, n - 1) + UnitErrors(chapters[n - 1])
  }

  /** Flattening more units keeps every item already placed where it was. */
  lemma FlattenExtends(chapters: seq<RawUnit>, m: nat, n: nat, k: nat)
    requires m <= n <= |chapters| && k < |Flatten(chapters, m)|
    ensures k < |Flatten(chapters, n)| && Flatten(chapters, n)[k] == Flatten(chapters, m)[k]
  {
    var j := m;
    while j < n
      invariant m <= j <= n
      invariant k < |Flatten(chapters, j)| && Flatten(chapters, j)[k] == Flatten(chapters, m)[k]
    {
      FlattenKeeps(chapters, j + 1, k);
      j := j + 1;
    }
  }

  /** One more unit keeps every item already placed. */
  lemma FlattenKeeps(chapters: seq<RawUnit>, n: nat, k: nat)
    requires 0 < n <= |chapters| && k < |Flatten(chapters, n - 1)|
    ensures k < |Flatten(chapters, n)| && Flatten(chapters, n)[k] == Flatten(chapters, n - 1)[k]
  {
    assert Flatten(chapters, n) == Flatten(chapters, n - 1) + UnitItems(chapters[n - 1]);
  }

  /**
   * Flattening keeps document order: the `k`-th item of unit `u` is the item
   * at position `|Flatten(chapters, u)| + k` (its sequence index), built from
   * that raw item and its unit's id.
   */
  lemma FlattenPosition(chapters: seq<RawUnit>, u: nat, k: nat)
    requires u < |chapters| && chapters[u].items.Some? && k < |chapters[u].items.value|
    ensures |Flatten(chapters, u)| + k < |Flatten(chapters, |chapters|)|
    ensures Flatten(chapters, |chapters|)[|Flatten(chapters, u)| + k] ==
      ToItem(UnitIdOf(chapters[u]), chapters[u].items.value[k])
  {
    FlattenLastUnit(chapters, u, k);
    FlattenExtends(chapters, u + 1, |chapters|, |Flatten(chapters, u)| + k);
  }

  /** The items of unit `u` follow those of the units before it. */
  lemma FlattenLastUnit(chapters: seq<RawUnit>, u: nat, k: nat)
    requires u < |chapters| && chapters[u].items.Some? && k < |chapters[u].items.value|
    ensures |Flatten(chapters, u)| + k < |Flatten(chapters, u + 1)|
    ensures Flatten(chapters, u + 1)[|Flatten(chapters, u)| + k] ==
      ToItem(UnitIdOf(chapters[u]), chapters[u].items.value[k])
  {
    var before := Flatten(chapters, u);
    var unitItems := UnitItems(chapters[u]);
    assert Flatten(chapters, u + 1) == before + unitItems;
    assert (before + unitItems)[|before| + k] == unitItems[k];
  }

  /** The unit checks of one entry of `chapters` (144-158). */
  method CheckUnit(chapter: RawUnit, sink: Sink)
    modifies sink
    ensures sink.errors == old(sink.errors) + UnitErrors(chapter)
    ensures sink.warnings == old(sink.warnings)
  {
    var unitId := UnitIdOf(chapter);
    ghost var e0 := sink.errors;
    if !IsNonEmptyString(chapter.id) {
      sink.Error(UnitMissingId(unitId));
    } else {
      sink.ErrorIf(!Markdown.IsKebabCaseId(chapter.id.s), UnitIdNotKebab(unitId));
    }
    ghost var idErrors := sink.errors[|e0|..];
    assert sink.errors == e0 + idErrors;
    assert idErrors == (if !IsNonEmptyString(chapter.id) then [UnitMissingId(unitId)]
      else Flag(!Markdown.IsKebabCaseId(chapter.id.s), UnitIdNotKebab(unitId)));
    sink.ErrorIf(!IsNonEmptyString(chapter.title), UnitMissingTitle(unitId));
    sink.ErrorIf(chapter.items.None?, UnitMissingItems(unitId));
    Regroup3(e0, idErrors, Flag(!IsNonEmptyString(chapter.title), UnitMissingTitle(unitId)),
      Flag(chapter.items.None?, UnitMissingItems(unitId)));
  }

  /** The inner loop of `main` over one unit's `items`: one flattened item per entry, in order. */
  method PushUnitItems(items: seq<Item>, unitId: Value, raws: seq<RawItem>) returns (r: seq<Item>)
    ensures r == items + ItemsOf(unitId, raws, |raws|)
  {
    r := items;
    for j := 0 to |raws|
      invariant r == items + ItemsOf(unitId, raws, j)
    {
      r := r + [ToItem(unitId, raws[j])];
    }
  }

  /** One pass of `main`'s loop over `chapters`: the unit checks, then the unit's items pushed. */
  method VisitUnit(chapter: RawUnit, items: seq<Item>, sink: Sink) returns (r: seq<Item>)
    modifies sink
    ensures r == items + UnitItems(chapter)
    ensures sink.errors == old(sink.errors) + UnitErrors(chapter)
    ensures sink.warnings == old(sink.warnings)
  {
    CheckUnit(chapter, sink);
    r := items;
    if chapter.items.Some? {
      r := PushUnitItems(items, UnitIdOf(chapter), chapter.items.value);
    }
  }

  /** `main`'s loop over `chapters`: the unit checks, and the items pushed in order. */
  method FlattenUnits(chapters: seq<RawUnit>, sink: Sink) returns (items: seq<Item>)
    modifies sink
    ensures items == Flatten(chapters, |chapters|)
    ensures sink.errors == old(sink.errors) + AllUnitErrors(chapters, |chapters|)
    ensures sink.warnings == old(sink.warnings)
  {
    items := [];
    for i := 0 to |chapters|
      invariant items == Flatten(chapters, i)
      invariant sink.errors == old(sink.errors) + AllUnitErrors(chapters, i)
      invariant sink.warnings == old(sink.warnings)
    {
      items := VisitUnit(chapters[i], items, sink);
      Regroup2(old(sink.errors), AllUnitErrors(chapters, i), UnitErrors(chapters[i]));
    }
  }

  // ---------------------------------------------------------------------------
  // Per-item schema checks (180-244)
  // ---------------------------------------------------------------------------

  /** `new Set(xs).size !== xs.length`. */
  predicate HasDuplicates(xs: seq<string>) {
    |set x | x in xs| != |xs|
  }

  /** A set built from a sequence has as many elements as the sequence exactly when no element repeats. */
  lemma {:induction false} DuplicatesIffRepeat(xs: seq<string>)
    ensures |set x | x in xs| <= |xs|
    ensures HasDuplicates(xs) <==> exists i, j :: 0 <= i < j < |xs| && xs[i] == xs[j]
  {
    if |xs| > 0 {
      var tail := xs[1..];
      DuplicatesIffRepeat(tail);
      assert (set x | x in xs) == {xs[0]} + (set x | x in tail);
      if xs[0] in tail {
        var j :| 0 <= j < |tail| && tail[j] == xs[0];
        assert xs[0] == xs[j + 1];
        assert (set x | x in xs) == (set x | x in tail);
      } else {
        assert |set x | x in xs| == 1 + |set x | x in tail|;
        if exists i, j :: 0 <= i < j < |xs| && xs[i] == xs[j] {
          var i, j :| 0 <= i < j < |xs| && xs[i] == xs[j];
          assert xs[j] == tail[j - 1];
          assert tail[i - 1] == tail[j - 1];
        }
        forall i, j | 0 <= i < j < |tail| && tail[i] == tail[j]
          ensures exists i', j' :: 0 <= i' < j' < |xs| && xs[i'] == xs[j']
        {
          assert xs[i + 1] == xs[j + 1];
        }
      }
    }
  }

  predicate AllNonEmptyStrings(vs: seq<Value>) {
    forall k :: 0 <= k < |vs| ==> IsNonEmptyString(vs[k])
  }

  /** Every entry trimmed, as `map((t) => t.trim())`. */
  function Trimmed(vs: seq<Value>): (r: seq<string>)
    requires AllNonEmptyStrings(vs)
    ensures |r| == |vs| && forall k :: 0 <= k < |vs| ==> r[k] == Trim(vs[k].s)
  {
    seq(|vs|, k requires 0 <= k < |vs| => Trim(vs[k].s))
  }

  /** An array of non-empty strings; with `requireEntries`, a non-empty one (`tags`). */
  predicate ValidStringList(v: Value, requireEntries: bool) {
    v.Arr? && (!requireEntries || |v.elems| > 0) && AllNonEmptyStrings(v.elems)
  }

  predicate ValidType(v: Value) {
    IsNonEmptyString(v) && v.s in AllowedTypes
  }

  predicate ValidDifficulty(v: Value) {
    IsNonEmptyString(v) && v.s in AllowedDifficulties
  }

  /** The item is added to the id and path groups: both its id and its path are non-empty strings. */
  predicate IsIndexed(it: Item) {
    IsNonEmptyString(it.itemId) && IsNonEmptyString(it.path)
  }

  /** The kebab-case and title checks of an item that has an id (185-190). */
  function IdentityErrors(it: Item): seq<Diagnostic>
    requires IsNonEmptyString(it.itemId)
  {
    Flag(!Markdown.IsKebabCaseId(it.itemId.s), ItemIdNotKebab(RefOf(it))) +
    Flag(!IsNonEmptyString(it.title), ItemMissingTitle(RefOf(it)))
  }

  /** The checks of the five scalar fields (195-223). */
  function ScalarErrors(it: Item): seq<Diagnostic> {
    var ref := RefOf(it);
    Flag(!IsPositiveNumber(it.estimatedMinutes), BadEstimatedMinutes(ref)) +
    Flag(!it.hasAssignment.Bool?, BadHasAssignment(ref)) +
    Flag(!IsNonNegativeNumber(it.practiceMinutes), BadPracticeMinutes(ref)) +
    Flag(!ValidType(it.kind), BadType(ref)) +
    Flag(!ValidDifficulty(it.difficulty), BadDifficulty(ref))
  }

  /** The check of `tags` or `prerequisites`: invalid, or valid with duplicates once trimmed (224-244). */
  function ListErrors(v: Value, requireEntries: bool, bad: Diagnostic, duplicate: Diagnostic): seq<Diagnostic> {
    Flag(!ValidStringList(v, requireEntries), bad) +
    Flag(ValidStringList(v, requireEntries) && HasDuplicates(Trimmed(v.elems)), duplicate)
  }

  /** Every check after the path check. */
  function FieldErrors(it: Item): seq<Diagnostic> {
    var ref := RefOf(it);
    ScalarErrors(it) +
    ListErrors(it.tags, true, BadTags(ref), DuplicateTags(ref)) +
    ListErrors(it.prerequisites, false, BadPrerequisites(ref), DuplicatePrerequisites(ref))
  }

  /** The errors of one item (180-244). */
  function ItemErrors(it: Item): seq<Diagnostic> {
    if !IsNonEmptyString(it.itemId) then [ItemMissingId(it.unitId)]
    else if !IsNonEmptyString(it.path) then IdentityErrors(it) + [ItemMissingPath(RefOf(it))]
    else IdentityErrors(it) + FieldErrors(it)
  }

  /** The identity errors: each raised exactly when its check fails. */
  lemma IdentityErrorsExactly(it: Item)
    requires IsNonEmptyString(it.itemId)
    ensures forall x :: x in IdentityErrors(it) <==>
      (!Markdown.IsKebabCaseId(it.itemId.s) && x == ItemIdNotKebab(RefOf(it))) ||
      (!IsNonEmptyString(it.title) && x == ItemMissingTitle(RefOf(it)))
    ensures |IdentityErrors(it)| <= 2
  {
    InFlags2(!Markdown.IsKebabCaseId(it.itemId.s), ItemIdNotKebab(RefOf(it)),
      !IsNonEmptyString(it.title), ItemMissingTitle(RefOf(it)));
  }

  /** A list check reports an invalid list, or a valid one holding a repeated entry, and nothing else. */
  lemma InListErrors(v: Value, requireEntries: bool, bad: Diagnostic, duplicate: Diagnostic, x: Diagnostic)
    ensures x in ListErrors(v, requireEntries, bad, duplicate) <==>
      (!ValidStringList(v, requireEntries) && x == bad) ||
      (ValidStringList(v, requireEntries) && HasDuplicates(Trimmed(v.elems)) && x == duplicate)
    ensures |ListErrors(v, requireEntries, bad, duplicate)| <= 1
  {
    InFlag(x, !ValidStringList(v, requireEntries), bad);
    InFlag(x, ValidStringList(v, requireEntries) && HasDuplicates(Trimmed(v.elems)), duplicate);
  }

  /** Membership in the scalar-field errors, for one diagnostic `x`. */
  lemma InScalarErrors(it: Item, x: Diagnostic)
    ensures var ref := RefOf(it);
      x in ScalarErrors(it) <==>
        (!IsPositiveNumber(it.estimatedMinutes) && x == BadEstimatedMinutes(ref)) ||
        (!it.hasAssignment.Bool? && x == BadHasAssignment(ref)) ||
        (!IsNonNegativeNumber(it.practiceMinutes) && x == BadPracticeMinutes(ref)) ||
        (!ValidType(it.kind) && x == BadType(ref)) ||
        (!ValidDifficulty(it.difficulty) && x == BadDifficulty(ref))
    ensures |ScalarErrors(it)| <= 5
  {
    var ref := RefOf(it);
    InFlag(x, !IsPositiveNumber(it.estimatedMinutes), BadEstimatedMinutes(ref));
    InFlag(x, !it.hasAssignment.Bool?, BadHasAssignment(ref));
    InFlag(x, !IsNonNegativeNumber(it.practiceMinutes), BadPracticeMinutes(ref));
    InFlag(x, !ValidType(it.kind), BadType(ref));
    InFlag(x, !ValidDifficulty(it.difficulty), BadDifficulty(ref));
  }

  /** Membership in the field errors, for one diagnostic `x`. */
  lemma InFieldErrors(it: Item, x: Diagnostic)
    ensures var ref := RefOf(it);
      x in FieldErrors(it) <==>
        (!IsPositiveNumber(it.estimatedMinutes) && x == BadEstimatedMinutes(ref)) ||
        (!it.hasAssignment.Bool? && x == BadHasAssignment(ref)) ||
        (!IsNonNegativeNumber(it.practiceMinutes) && x == BadPracticeMinutes(ref)) ||
        (!ValidType(it.kind) && x == BadType(ref)) ||
        (!ValidDifficulty(it.difficulty) && x == BadDifficulty(ref)) ||
        (!ValidStringList(it.tags, true) && x == BadTags(ref)) ||
        (ValidStringList(it.tags, true) && HasDuplicates(Trimmed(it.tags.elems)) && x == DuplicateTags(ref)) ||
        (!ValidStringList(it.prerequisites, false) && x == BadPrerequisites(ref)) ||
        (ValidStringList(it.prerequisites, false) && HasDuplicates(Trimmed(it.prerequisites.elems)) &&
         x == DuplicatePrerequisites(ref))
    ensures |FieldErrors(it)| <= 7
  {
    var ref := RefOf(it);
    var scalars := ScalarErrors(it);
    var tags := ListErrors(it.tags, true, BadTags(ref), DuplicateTags(ref));
    var prerequisites := ListErrors(it.prerequisites, false, BadPrerequisites(ref), DuplicatePrerequisites(ref));
    assert FieldErrors(it) == scalars + tags + prerequisites;
    InScalarErrors(it, x);
    InListErrors(it.tags, true, BadTags(ref), DuplicateTags(ref), x);
    InListErrors(it.prerequisites, false, BadPrerequisites(ref), DuplicatePrerequisites(ref), x);
  }

  /** The checks after the path check: each error raised exactly when its own check fails. */
  lemma FieldErrorsExactly(it: Item)
    ensures BadEstimatedMinutes(RefOf(it)) in FieldErrors(it) <==> !IsPositiveNumber(it.estimatedMinutes)
    ensures BadHasAssignment(RefOf(it)) in FieldErrors(it) <==> !it.hasAssignment.Bool?
    ensures BadPracticeMinutes(RefOf(it)) in FieldErrors(it) <==> !IsNonNegativeNumber(it.practiceMinutes)
    ensures BadType(RefOf(it)) in FieldErrors(it) <==> !ValidType(it.kind)
    ensures BadDifficulty(RefOf(it)) in FieldErrors(it) <==> !ValidDifficulty(it.difficulty)
    ensures BadTags(RefOf(it)) in FieldErrors(it) <==> !ValidStringList(it.tags, true)
    ensures DuplicateTags(RefOf(it)) in FieldErrors(it) <==>
      ValidStringList(it.tags, true) && HasDuplicates(Trimmed(it.tags.elems))
    ensures BadPrerequisites(RefOf(it)) in FieldErrors(it) <==> !ValidStringList(it.prerequisites, false)
    ensures DuplicatePrerequisites(RefOf(it)) in FieldErrors(it) <==>
      ValidStringList(it.prerequisites, false) && HasDuplicates(Trimmed(it.prerequisites.elems))
  {
    var ref := RefOf(it);
    var r := FieldErrors(it);
    InFieldErrors(it, BadEstimatedMinutes(ref));
    assert BadHasAssignment(ref) in r <==> !it.hasAssignment.Bool? by { InFieldErrors(it, BadHasAssignment(ref)); }
    assert BadPracticeMinutes(ref) in r <==> !IsNonNegativeNumber(it.practiceMinutes) by {
      InFieldErrors(it, BadPracticeMinutes(ref));
    }
    assert BadType(ref) in r <==> !ValidType(it.kind) by { InFieldErrors(it, BadType(ref)); }
    assert BadDifficulty(ref) in r <==> !ValidDifficulty(it.difficulty) by { InFieldErrors(it, BadDifficulty(ref)); }
    assert BadTags(ref) in r <==> !ValidStringList(it.tags, true) by { InFieldErrors(it, BadTags(ref)); }
    assert DuplicateTags(ref) in r <==> ValidStringList(it.tags, true) && HasDuplicates(Trimmed(it.tags.elems)) by {
      InFieldErrors(it, DuplicateTags(ref));
    }
    assert BadPrerequisites(ref) in r <==> !ValidStringList(it.prerequisites, false) by {
      InFieldErrors(it, BadPrerequisites(ref));
    }
    assert DuplicatePrerequisites(ref) in r <==>
      ValidStringList(it.prerequisites, false) && HasDuplicates(Trimmed(it.prerequisites.elems)) by {
      InFieldErrors(it, DuplicatePrerequisites(ref));
    }
  }

  /** The field checks never raise an identity or missing-path error, and raise at most seven. */
  lemma FieldErrorsNoIdentity(it: Item)
    ensures ItemIdNotKebab(RefOf(it)) !in FieldErrors(it) && ItemMissingTitle(RefOf(it)) !in FieldErrors(it)
    ensures ItemMissingPath(RefOf(it)) !in FieldErrors(it)
    ensures |FieldErrors(it)| <= 7
  {
    var ref := RefOf(it);
    InFieldErrors(it, ItemIdNotKebab(ref));
    InFieldErrors(it, ItemMissingTitle(ref));
    InFieldErrors(it, ItemMissingPath(ref));
  }

  /** An item without a usable id gives exactly the missing-id error. */
  lemma ItemErrorsMissingId(it: Item)
    requires !IsNonEmptyString(it.itemId)
    ensures ItemErrors(it) == [ItemMissingId(it.unitId)]
  {
  }

  /**
   * An item with an id but without a usable path: the list ends with the
   * missing-path error, after at most the kebab-case and title errors.
   */
  lemma ItemErrorsMissingPath(it: Item)
    requires IsNonEmptyString(it.itemId) && !IsNonEmptyString(it.path)
    ensures var r := ItemErrors(it);
      1 <= |r| <= 3 && r[|r| - 1] == ItemMissingPath(RefOf(it)) &&
      forall d :: d in r ==> d in [ItemIdNotKebab(RefOf(it)), ItemMissingTitle(RefOf(it)), ItemMissingPath(RefOf(it))]
  {
    IdentityErrorsExactly(it);
  }

  /** An indexed item's errors are its identity errors followed by its field errors. */
  lemma ItemErrorsIndexedSplit(it: Item)
    requires IsIndexed(it)
    ensures ItemErrors(it) == IdentityErrors(it) + FieldErrors(it)
  {
  }

  /**
   * An indexed item: the kebab-case and title errors are raised exactly when
   * their checks fail, and there is no missing-path error.
   */
  lemma ItemErrorsIndexedIdentity(it: Item)
    requires IsIndexed(it)
    ensures ItemIdNotKebab(RefOf(it)) in ItemErrors(it) <==> !Markdown.IsKebabCaseId(it.itemId.s)
    ensures ItemMissingTitle(RefOf(it)) in ItemErrors(it) <==> !IsNonEmptyString(it.title)
    ensures ItemMissingPath(RefOf(it)) !in ItemErrors(it)
  {
    ItemErrorsIndexedSplit(it);
    IdentityErrorsMembers(it);
    FieldErrorsNoIdentity(it);
  }

  /** The identity checks raise their own two errors exactly when they fail, and never the missing-path error. */
  lemma IdentityErrorsMembers(it: Item)
    requires IsNonEmptyString(it.itemId)
    ensures ItemIdNotKebab(RefOf(it)) in IdentityErrors(it) <==> !Markdown.IsKebabCaseId(it.itemId.s)
    ensures ItemMissingTitle(RefOf(it)) in IdentityErrors(it) <==> !IsNonEmptyString(it.title)
    ensures ItemMissingPath(RefOf(it)) !in IdentityErrors(it)
  {
    IdentityErrorsExactly(it);
  }

  /** An indexed item raises at most nine errors: two identity errors and seven field errors. */
  lemma ItemErrorsIndexedCount(it: Item)
    requires IsIndexed(it)
    ensures |ItemErrors(it)| <= 9
  {
    ItemErrorsIndexedSplit(it);
    IdentityErrorsExactly(it);
    FieldErrorsNoIdentity(it);
  }

  /**
   * An indexed item: each scalar-field error is raised exactly when its own
   * check fails, whatever the other fields hold.
   */
  lemma ItemErrorsIndexedScalars(it: Item)
    requires IsIndexed(it)
    ensures BadEstimatedMinutes(RefOf(it)) in ItemErrors(it) <==> !IsPositiveNumber(it.estimatedMinutes)
    ensures BadHasAssignment(RefOf(it)) in ItemErrors(it) <==> !it.hasAssignment.Bool?
    ensures BadPracticeMinutes(RefOf(it)) in ItemErrors(it) <==> !IsNonNegativeNumber(it.practiceMinutes)
    ensures BadType(RefOf(it)) in ItemErrors(it) <==> !ValidType(it.kind)
    ensures BadDifficulty(RefOf(it)) in ItemErrors(it) <==> !ValidDifficulty(it.difficulty)
  {
    ItemErrorsIndexedSplit(it);
    IdentityErrorsKinds(it);
    FieldErrorsExactly(it);
  }

  /**
   * An indexed item: each `tags` and `prerequisites` error is raised exactly
   * when its own check fails, whatever the other fields hold.
   */
  lemma ItemErrorsIndexedLists(it: Item)
    requires IsIndexed(it)
    ensures BadTags(RefOf(it)) in ItemErrors(it) <==> !ValidStringList(it.tags, true)
    ensures DuplicateTags(RefOf(it)) in ItemErrors(it) <==>
      ValidStringList(it.tags, true) && HasDuplicates(Trimmed(it.tags.elems))
    ensures BadPrerequisites(RefOf(it)) in ItemErrors(it) <==> !ValidStringList(it.prerequisites, false)
    ensures DuplicatePrerequisites(RefOf(it)) in ItemErrors(it) <==>
      ValidStringList(it.prerequisites, false) && HasDuplicates(Trimmed(it.prerequisites.elems))
  {
    ItemErrorsIndexedSplit(it);
    IdentityErrorsKinds(it);
    FieldErrorsExactly(it);
  }

  /** The identity checks raise only kebab-case and title errors. */
  lemma IdentityErrorsKinds(it: Item)
    requires IsNonEmptyString(it.itemId)
    ensures forall x :: x in IdentityErrors(it) ==> x.ItemIdNotKebab? || x.ItemMissingTitle?
  {
    IdentityErrorsExactly(it);
  }

  /** The schema errors of the first `n` items. */
  function SchemaErrors(items: seq<Item>, n: nat): seq<Diagnostic>
    requires n <= |items|
  {
    if n == 0 then [] else SchemaErrors(items, n - 1) + ItemErrors(items[n - 1])
  }

  /** The checks of `estimatedMinutes`, `hasAssignment`, `practiceMinutes`, `type` and `difficulty` (195-223). */
  method CheckScalarFields(item: Item, sink: Sink)
    modifies sink
    ensures sink.errors == old(sink.errors) + ScalarErrors(item)
    ensures sink.warnings == old(sink.warnings)
  {
    var ref := RefOf(item);
    ghost var e0 := sink.errors;
    sink.ErrorIf(!IsPositiveNumber(item.estimatedMinutes), BadEstimatedMinutes(ref));
    sink.ErrorIf(!item.hasAssignment.Bool?, BadHasAssignment(ref));
    sink.ErrorIf(!IsNonNegativeNumber(item.practiceMinutes), BadPracticeMinutes(ref));
    sink.ErrorIf(!IsNonEmptyString(item.kind) || item.kind.s !in AllowedTypes, BadType(ref));
    sink.ErrorIf(!IsNonEmptyString(item.difficulty) || item.difficulty.s !in AllowedDifficulties, BadDifficulty(ref));
    Regroup5(e0, Flag(!IsPositiveNumber(item.estimatedMinutes), BadEstimatedMinutes(ref)),
      Flag(!item.hasAssignment.Bool?, BadHasAssignment(ref)),
      Flag(!IsNonNegativeNumber(item.practiceMinutes), BadPracticeMinutes(ref)),
      Flag(!ValidType(item.kind), BadType(ref)),
      Flag(!ValidDifficulty(item.difficulty), BadDifficulty(ref)));
  }

  /** The check of `tags` (`requireEntries`) or of `prerequisites` (224-244). */
  method CheckStringList(v: Value, requireEntries: bool, bad: Diagnostic, duplicate: Diagnostic, sink: Sink)
    modifies sink
    ensures sink.errors == old(sink.errors) + ListErrors(v, requireEntries, bad, duplicate)
    ensures sink.warnings == old(sink.warnings)
  {
    if !v.Arr? || (requireEntries && |v.elems| == 0) || !AllNonEmptyStrings(v.elems) {
      assert ListErrors(v, requireEntries, bad, duplicate) == [bad];
      sink.Error(bad);
    } else {
      var normalized := Trimmed(v.elems);
      assert ListErrors(v, requireEntries, bad, duplicate) == Flag(HasDuplicates(normalized), duplicate);
      sink.ErrorIf(HasDuplicates(normalized), duplicate);
    }
  }

  /** The checks of every field after the path (195-244). */
  method CheckFields(item: Item, sink: Sink)
    modifies sink
    ensures sink.errors == old(sink.errors) + FieldErrors(item)
    ensures sink.warnings == old(sink.warnings)
  {
    var ref := RefOf(item);
    ghost var e0 := sink.errors;
    CheckScalarFields(item, sink);
    CheckStringList(item.tags, true, BadTags(ref), DuplicateTags(ref), sink);
    CheckStringList(item.prerequisites, false, BadPrerequisites(ref), DuplicatePrerequisites(ref), sink);
    Regroup3(e0, ScalarErrors(item), ListErrors(item.tags, true, BadTags(ref), DuplicateTags(ref)),
      ListErrors(item.prerequisites, false, BadPrerequisites(ref), DuplicatePrerequisites(ref)));
  }

  /** The kebab-case and title checks of an item that has an id (185-190). */
  method CheckIdentity(item: Item, sink: Sink)
    requires IsNonEmptyString(item.itemId)
    modifies sink
    ensures sink.errors == old(sink.errors) + IdentityErrors(item)
    ensures sink.warnings == old(sink.warnings)
  {
    var ref := RefOf(item);
    NonEmptyStringIffTrimmed(item.title);
    sink.ErrorIf(!Markdown.IsKebabCaseId(item.itemId.s), ItemIdNotKebab(ref));
    sink.ErrorIf(!item.title.Str? || Trim(item.title.s) == "", ItemMissingTitle(ref));
  }

  /** The checks of one item (180-244); the result says whether it goes into the groups. */
  method CheckItem(item: Item, sink: Sink) returns (indexed: bool)
    modifies sink
    ensures indexed == IsIndexed(item)
    ensures sink.errors == old(sink.errors) + ItemErrors(item)
    ensures sink.warnings == old(sink.warnings)
  {
    NonEmptyStringIffTrimmed(item.itemId);
    NonEmptyStringIffTrimmed(item.path);
    if !item.itemId.Str? || Trim(item.itemId.s) == "" {
      sink.Error(ItemMissingId(item.unitId));
      return false;
    }
    CheckIdentity(item, sink);
    if !item.path.Str? || Trim(item.path.s) == "" {
      sink.Error(ItemMissingPath(RefOf(item)));
      Regroup2(old(sink.errors), IdentityErrors(item), [ItemMissingPath(RefOf(item))]);
      return false;
    }
    CheckFields(item, sink);
    Regroup2(old(sink.errors), IdentityErrors(item), FieldErrors(item));
    return true;
  }

  // ---------------------------------------------------------------------------
  // Id and path groups (`idToItems`, `pathToItems`)
  // ---------------------------------------------------------------------------

  /** A JavaScript `Map` from keys to item lists: its keys in insertion order and its entries. */
  datatype Groups = Groups(keys: seq<string>, members: map<string, seq<Item>>)

  const NoGroups := Groups([], map[])

  /** `m.set(k, (m.get(k) ?? []).concat(item))`. */
  function Insert(g: Groups, k: string, it: Item): Groups {
    var group := if k in g.members then g.members[k] else [];
    Groups(if k in g.members then g.keys else g.keys + [k], g.members[k := group + [it]])
  }

  /** The key an indexed item is grouped under. */
  function KeyOf(it: Item, byPath: bool): string
    requires IsIndexed(it)
  {
    if byPath then it.path.s else it.itemId.s
  }

  /** The (key, item) pairs the first `n` items insert into a group map: the indexed items, in order. */
  function KeyedItems(items: seq<Item>, n: nat, byPath: bool): seq<(string, Item)>
    requires n <= |items|
  {
    if n == 0 then []
    else
      var r := KeyedItems(items, n - 1, byPath);
      var it := items[n - 1];
      if IsIndexed(it) then r + [(KeyOf(it, byPath), it)] else r
  }

  /** The pairs hold exactly the indexed items among the first `n`, each under its own key. */
  lemma {:induction false} KeyedItemsAreIndexed(items: seq<Item>, n: nat, byPath: bool)
    requires n <= |items|
    ensures forall e :: e in KeyedItems(items, n, byPath) ==>
      IsIndexed(e.1) && e.0 == KeyOf(e.1, byPath) && exists i :: 0 <= i < n && items[i] == e.1
    ensures forall i :: 0 <= i < n && IsIndexed(items[i]) ==>
      (KeyOf(items[i], byPath), items[i]) in KeyedItems(items, n, byPath)
  {
    if n > 0 {
      KeyedItemsAreIndexed(items, n - 1, byPath);
    }
  }

  /** The map built by inserting the pairs in order. */
  function GroupBy(pairs: seq<(string, Item)>): Groups {
    if |pairs| == 0 then NoGroups
    else
      var last := pairs[|pairs| - 1];
      Insert(GroupBy(pairs[..|pairs| - 1]), last.0, last.1)
  }

  /** The items of the pairs with key `k`, in order. */
  function Select(pairs: seq<(string, Item)>, k: string): seq<Item> {
    if |pairs| == 0 then []
    else
      var last := pairs[|pairs| - 1];
      Select(pairs[..|pairs| - 1], k) + (if last.0 == k then [last.1] else [])
  }

  predicate KeysDistinct(g: Groups) {
    forall i, j :: 0 <= i < j < |g.keys| ==> g.keys[i] != g.keys[j]
  }

  /** The key list and the map agree on which keys there are. */
  ghost predicate KeysListed(g: Groups) {
    forall k :: k in g.keys <==> k in g.members
  }

  /** A key no pair holds selects no item. */
  lemma {:induction false} SelectEmpty(pairs: seq<(string, Item)>, k: string)
    requires forall e :: e in pairs ==> e.0 != k
    ensures Select(pairs, k) == []
  {
    if |pairs| > 0 {
      assert pairs[|pairs| - 1] in pairs;
      assert forall e :: e in pairs[..|pairs| - 1] ==> e in pairs;
      SelectEmpty(pairs[..|pairs| - 1], k);
    }
  }

  /**
   * The group map holds each key once, lists a key exactly when some pair has
   * it, and maps it to every item inserted under it, in insertion order.
   */
  lemma {:induction false} GroupByContents(pairs: seq<(string, Item)>)
    ensures KeysDistinct(GroupBy(pairs)) && KeysListed(GroupBy(pairs))
    ensures forall k :: k in GroupBy(pairs).members <==> exists e :: e in pairs && e.0 == k
    ensures forall k :: k in GroupBy(pairs).members ==> GroupBy(pairs).members[k] == Select(pairs, k)
  {
    if |pairs| > 0 {
      var init := pairs[..|pairs| - 1];
      var last := pairs[|pairs| - 1];
      GroupByContents(init);
      assert forall e :: e in pairs <==> e in init || e == last;
      var g0 := GroupBy(init);
      var g := GroupBy(pairs);
      assert g == Insert(g0, last.0, last.1);
      forall k | k in g.members ensures g.members[k] == Select(pairs, k) {
        assert Select(pairs, k) == Select(init, k) + (if last.0 == k then [last.1] else []);
        if k == last.0 && k !in g0.members {
          forall e | e in init ensures e.0 != k {
            assert e.0 in g0.members;
          }
          SelectEmpty(init, k);
        }
      }
      forall k ensures k in g.members <==> exists e :: e in pairs && e.0 == k {
        if k in g.members && k != last.0 {
          var e :| e in init && e.0 == k;
          assert e in pairs;
        }
        if k !in g.members {
          forall e | e in pairs ensures e.0 != k {
            if e != last {
              assert e in init;
            }
          }
        }
      }
    }
  }

  /** `main`'s loop over `items` (180-248): the item checks and the two group maps. */
  method ValidateItems(items: seq<Item>, sink: Sink) returns (ids: Groups, paths: Groups)
    modifies sink
    ensures sink.errors == old(sink.errors) + SchemaErrors(items, |items|)
    ensures sink.warnings == old(sink.warnings)
    ensures ids == GroupBy(KeyedItems(items, |items|, false))
    ensures paths == GroupBy(KeyedItems(items, |items|, true))
  {
    ids, paths := NoGroups, NoGroups;
    for i := 0 to |items|
      invariant sink.errors == old(sink.errors) + SchemaErrors(items, i)
      invariant sink.warnings == old(sink.warnings)
      invariant ids == GroupBy(KeyedItems(items, i, false))
      invariant paths == GroupBy(KeyedItems(items, i, true))
    {
      var item := items[i];
      var indexed := CheckItem(item, sink);
      Regroup2(old(sink.errors), SchemaErrors(items, i), ItemErrors(item));
      if !indexed {
        continue;
      }
      ghost var idPairs := KeyedItems(items, i, false);
      ghost var pathPairs := KeyedItems(items, i, true);
      assert (idPairs + [(item.itemId.s, item)])[..|idPairs|] == idPairs;
      assert (pathPairs + [(item.path.s, item)])[..|pathPairs|] == pathPairs;
      ids := Insert(ids, item.itemId.s, item);
      paths := Insert(paths, item.path.s, item);
    }
  }

  // ---------------------------------------------------------------------------
  // Duplicate reports (257-273)
  // ---------------------------------------------------------------------------

  /** The error for a key held by more than one item. */
  function DuplicateReport(k: string, group: seq<Item>, byPath: bool): Diagnostic {
    if byPath then DuplicatePath(k, RefsOf(group)) else DuplicateId(k, RefsOf(group))
  }

  /** The duplicate errors for the first `n` keys of a group map, in key order. */
  function DuplicateErrors(g: Groups, n: nat, byPath: bool): seq<Diagnostic>
    requires n <= |g.keys|
    requires forall k :: k in g.keys ==> k in g.members
  {
    if n == 0 then []
    else
      var k := g.keys[n - 1];
      DuplicateErrors(g, n - 1, byPath) +
      (if |g.members[k]| > 1 then [DuplicateReport(k, g.members[k], byPath)] else [])
  }

  /** The loop over the entries of a group map. */
  method ReportDuplicates(g: Groups, byPath: bool, sink: Sink)
    requires forall k :: k in g.keys ==> k in g.members
    modifies sink
    ensures sink.errors == old(sink.errors) + DuplicateErrors(g, |g.keys|, byPath)
    ensures sink.warnings == old(sink.warnings)
  {
    for i := 0 to |g.keys|
      invariant sink.errors == old(sink.errors) + DuplicateErrors(g, i, byPath)
      invariant sink.warnings == old(sink.warnings)
    {
      var k := g.keys[i];
      var group := g.members[k];
      if |group| > 1 {
        sink.Error(DuplicateReport(k, group, byPath));
      }
    }
  }

  /** The key a duplicate report is about. */
  function ReportKey(d: Diagnostic): string
    requires d.DuplicateId? || d.DuplicatePath?
  {
    if d.DuplicateId? then d.id else d.path
  }

  /** Every error among those of the first `n` keys is the report of one of those keys held by more than one item. */
  lemma {:induction false} ReportIndex(g: Groups, n: nat, byPath: bool, d: Diagnostic) returns (i: nat)
    requires n <= |g.keys|
    requires forall k :: k in g.keys ==> k in g.members
    requires d in DuplicateErrors(g, n, byPath)
    ensures i < n && |g.members[g.keys[i]]| > 1
    ensures d == DuplicateReport(g.keys[i], g.members[g.keys[i]], byPath)
  {
    var k := g.keys[n - 1];
    var prev := DuplicateErrors(g, n - 1, byPath);
    assert DuplicateErrors(g, n, byPath) ==
      prev + (if |g.members[k]| > 1 then [DuplicateReport(k, g.members[k], byPath)] else []);
    if d in prev {
      i := ReportIndex(g, n - 1, byPath, d);
    } else {
      i := n - 1;
    }
  }

  /** Each of the first `n` keys held by more than one item is reported among their errors. */
  lemma {:induction false} IndexReported(g: Groups, n: nat, byPath: bool, i: nat)
    requires n <= |g.keys|
    requires forall k :: k in g.keys ==> k in g.members
    requires i < n && |g.members[g.keys[i]]| > 1
    ensures DuplicateReport(g.keys[i], g.members[g.keys[i]], byPath) in DuplicateErrors(g, n, byPath)
  {
    var k := g.keys[n - 1];
    var prev := DuplicateErrors(g, n - 1, byPath);
    assert DuplicateErrors(g, n, byPath) ==
      prev + (if |g.members[k]| > 1 then [DuplicateReport(k, g.members[k], byPath)] else []);
    if i < n - 1 {
      IndexReported(g, n - 1, byPath, i);
    }
  }

  /** With distinct keys, no report is listed twice. */
  lemma {:induction false} DuplicateErrorsDistinct(g: Groups, n: nat, byPath: bool)
    requires n <= |g.keys|
    requires forall k :: k in g.keys ==> k in g.members
    requires KeysDistinct(g)
    ensures forall a, b :: 0 <= a < b < |DuplicateErrors(g, n, byPath)| ==>
      DuplicateErrors(g, n, byPath)[a] != DuplicateErrors(g, n, byPath)[b]
  {
    if n > 0 {
      DuplicateErrorsDistinct(g, n - 1, byPath);
      var k := g.keys[n - 1];
      var prev := DuplicateErrors(g, n - 1, byPath);
      if |g.members[k]| > 1 {
        var cur := DuplicateErrors(g, n, byPath);
        var report := DuplicateReport(k, g.members[k], byPath);
        assert cur == prev + [report];
        forall d | d in prev ensures d != report {
          var i := ReportIndex(g, n - 1, byPath, d);
          assert ReportKey(d) == g.keys[i] != k == ReportKey(report);
        }
        forall a, b | 0 <= a < b < |cur| ensures cur[a] != cur[b] {
          if b == |cur| - 1 {
            assert cur[a] in prev;
          }
        }
      } else {
        assert DuplicateErrors(g, n, byPath) == prev;
      }
    }
  }

  /** Every key of the groups `main` builds has an entry, so their duplicate errors are defined. */
  lemma GroupKeysListed(pairs: seq<(string, Item)>)
    ensures forall k :: k in GroupBy(pairs).keys ==> k in GroupBy(pairs).members
  {
    GroupByContents(pairs);
  }

  /**
   * Over the groups `main` builds, a key gets a duplicate error listing every
   * item inserted under it, in insertion order, exactly when more than one
   * item holds it.
   */
  lemma DuplicateReportIffShared(pairs: seq<(string, Item)>, byPath: bool, k: string)
    ensures forall k :: k in GroupBy(pairs).keys ==> k in GroupBy(pairs).members
    ensures (DuplicateReport(k, Select(pairs, k), byPath) in
      DuplicateErrors(GroupBy(pairs), |GroupBy(pairs).keys|, byPath)) <==> |Select(pairs, k)| > 1
  {
    GroupKeysListed(pairs);
    if |Select(pairs, k)| > 1 {
      SharedKeyReported(pairs, byPath, k);
    }
    if DuplicateReport(k, Select(pairs, k), byPath) in DuplicateErrors(GroupBy(pairs), |GroupBy(pairs).keys|, byPath) {
      ReportedKeyShared(pairs, byPath, k);
    }
  }

  /** A key more than one pair holds is reported. */
  lemma SharedKeyReported(pairs: seq<(string, Item)>, byPath: bool, k: string)
    requires |Select(pairs, k)| > 1
    ensures forall k :: k in GroupBy(pairs).keys ==> k in GroupBy(pairs).members
    ensures DuplicateReport(k, Select(pairs, k), byPath) in
      DuplicateErrors(GroupBy(pairs), |GroupBy(pairs).keys|, byPath)
  {
    var g := GroupBy(pairs);
    GroupKeysListed(pairs);
    SelectedKeyListed(pairs, k);
    var i :| 0 <= i < |g.keys| && g.keys[i] == k;
    GroupMember(pairs, k);
    IndexReported(g, |g.keys|, byPath, i);
  }

  /** A reported key is held by more than one pair. */
  lemma ReportedKeyShared(pairs: seq<(string, Item)>, byPath: bool, k: string)
    requires forall k :: k in GroupBy(pairs).keys ==> k in GroupBy(pairs).members
    requires DuplicateReport(k, Select(pairs, k), byPath) in
      DuplicateErrors(GroupBy(pairs), |GroupBy(pairs).keys|, byPath)
    ensures |Select(pairs, k)| > 1
  {
    var g := GroupBy(pairs);
    var report := DuplicateReport(k, Select(pairs, k), byPath);
    var i := ReportIndex(g, |g.keys|, byPath, report);
    var key := g.keys[i];
    assert ReportKey(report) == k;
    assert ReportKey(DuplicateReport(key, g.members[key], byPath)) == key;
    GroupMember(pairs, key);
  }

  /** A key some pair holds is listed. */
  lemma SelectedKeyListed(pairs: seq<(string, Item)>, k: string)
    requires |Select(pairs, k)| > 0
    ensures k in GroupBy(pairs).keys
  {
    GroupByContents(pairs);
    if k !in GroupBy(pairs).members {
      SelectEmpty(pairs, k);
    }
  }

  /** A listed key maps to the items of its pairs. */
  lemma GroupMember(pairs: seq<(string, Item)>, k: string)
    requires k in GroupBy(pairs).keys
    ensures k in GroupBy(pairs).members && GroupBy(pairs).members[k] == Select(pairs, k)
  {
    GroupByContents(pairs);
  }

  /** Over the groups `main` builds, every duplicate error is the report of a key more than one item holds. */
  lemma DuplicateReportsOnlyShared(pairs: seq<(string, Item)>, byPath: bool)
    ensures forall k :: k in GroupBy(pairs).keys ==> k in GroupBy(pairs).members
    ensures forall d :: d in DuplicateErrors(GroupBy(pairs), |GroupBy(pairs).keys|, byPath) ==>
      (d.DuplicateId? || d.DuplicatePath?) && |Select(pairs, ReportKey(d))| > 1 &&
      d == DuplicateReport(ReportKey(d), Select(pairs, ReportKey(d)), byPath)
  {
    var g := GroupBy(pairs);
    GroupKeysListed(pairs);
    forall d | d in DuplicateErrors(g, |g.keys|, byPath)
      ensures (d.DuplicateId? || d.DuplicatePath?) && |Select(pairs, ReportKey(d))| > 1 &&
        d == DuplicateReport(ReportKey(d), Select(pairs, ReportKey(d)), byPath)
    {
      var i := ReportIndex(g, |g.keys|, byPath, d);
      var k := g.keys[i];
      assert ReportKey(d) == k;
      GroupMember(pairs, k);
    }
  }

  /** Over the groups `main` builds, no duplicate error is reported twice. */
  lemma DuplicateReportsDistinct(pairs: seq<(string, Item)>, byPath: bool)
    ensures forall k :: k in GroupBy(pairs).keys ==> k in GroupBy(pairs).members
    ensures var errs := DuplicateErrors(GroupBy(pairs), |GroupBy(pairs).keys|, byPath);
      forall a, b :: 0 <= a < b < |errs| ==> errs[a] != errs[b]
  {
    var g := GroupBy(pairs);
    GroupByContents(pairs);
    DuplicateErrorsDistinct(g, |g.keys|, byPath);
  }

  // ---------------------------------------------------------------------------
  // Path to title (250-255)
  // ---------------------------------------------------------------------------

  /** `pathToTitle` after the first `n` items: every item whose path and title are strings, the last one winning. */
  function PathTitles(items: seq<Item>, n: nat): map<string, string>
    requires n <= |items|
  {
    if n == 0 then map[]
    else
      var m := PathTitles(items, n - 1);
      var it := items[n - 1];
      if it.path.Str? && it.title.Str? then m[it.path.s := it.title.s] else m
  }

  /** The item sets a title for `path`. */
  predicate Registers(it: Item, path: string) {
    it.path == Str(path) && it.title.Str?
  }

  /**
   * A path has a title exactly when some item with that path has a string
   * title, and the title is the one of the last such item.
   */
  lemma {:induction false} PathTitlesLastWins(items: seq<Item>, n: nat, path: string)
    requires n <= |items|
    ensures path in PathTitles(items, n) <==> exists i :: 0 <= i < n && Registers(items[i], path)
    ensures path in PathTitles(items, n) ==>
      exists i :: 0 <= i < n && Registers(items[i], path) && PathTitles(items, n)[path] == items[i].title.s &&
        forall j :: i < j < n ==> !Registers(items[j], path)
  {
    if n > 0 {
      PathTitlesLastWins(items, n - 1, path);
      if Registers(items[n - 1], path) {
        assert PathTitles(items, n)[path] == items[n - 1].title.s;
      }
    }
  }

  /** The loop that builds `pathToTitle`. */
  method BuildPathTitles(items: seq<Item>) returns (titles: map<string, string>)
    ensures titles == PathTitles(items, |items|)
  {
    titles := map[];
    for i := 0 to |items|
      invariant titles == PathTitles(items, i)
    {
      var item := items[i];
      if item.path.Str? && item.title.Str? {
        titles := titles[item.path.s := item.title.s];
      }
    }
  }
}

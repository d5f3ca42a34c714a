# A verified model of the curriculum index validator

`scripts/validate-index.mjs` checks a curriculum repository. It reads `index.json`, whose `chapters` array lists units, and each unit lists items (lessons). It then checks:

- the index itself: unit and item fields, duplicate ids and paths, prerequisite references, ordering and cycles;
- the Markdown document of every item: path, H1 and title, first line, H1 count, code fences, the required section with its branch name, internal links, raw paths and expected headings;
- `chapters/`, for Markdown files that no item references.

Every finding is pushed to `errors` or `warnings`, and the exit code is 1 when any error was pushed.

The project models all of `main` except its I/O:

- The parsed index is a JSON value model (`Index.Value`).
- The documents are a map from path to text.
- The directory listing is an optional list of entries.
- Each finding is a structured `Diagnostic` carrying the values its message interpolates.
- The two arrays are a `Sink` object whose methods append to them.

Each pass is written twice:

- as a method that works the way the script does (loops, the DFS with its `visiting` and `visited` sets and `stack`, the `inFence` toggle);
- as a function that specifies what the pass reports.

Each method is proved to append exactly what its function says. Lemmas then prove what the functions mean: each error is raised exactly when its check fails, each link match is the one the regular expression finds, and each reported cycle really is a cycle.

Modules, one per file:

- `Wrappers`: `Option`.
- `Text`: `trim`, line splitting and `path.basename`.
- `Index`: JSON values, units and items.
- `Diagnostics`: findings and the sink.
- `Markdown`: the helper functions at the top of the script.
- `Links` and `LinkCheck`: the link regular expressions and the link checks.
- `Schema`: units, items, duplicates and `pathToTitle`.
- `Prerequisites`: references, ordering and cycles.
- `Documents`: the per-document checks.
- `Orphans`: the scan of `chapters/`.
- `Validator`: `main`.

## Model

| member | source | states |
|---|---|---|
| Text.Trim | scripts/validate-index.mjs:17-19 | `trim` gives "" exactly for an all-white-space string; otherwise neither end of the result is white space |
| Text.TrimCutsSpace | scripts/validate-index.mjs:17-19 | what `trim` keeps is a stretch of the input with nothing but white space before and after it |
| Text.SplitLines | scripts/validate-index.mjs:43 | `split(/\r?\n/)` gives at least one line, and no line holds a `\n` |
| Text.SplitCrLfJoinLines | scripts/validate-index.mjs:43 | lines holding no `\n`, joined with `\r\n` and split again, come back unchanged: `\r\n` is one break and its `\r` stays on no line |
| Text.JoinSplitLines | scripts/validate-index.mjs:43 | for a text without carriage returns, joining the split lines with `\n` gives the text back |
| Text.SplitJoinLines | scripts/validate-index.mjs:62 | lines holding no `\n` and not ending in `\r`, joined with `\n` and split again, come back unchanged |
| Text.LastSegment | scripts/validate-index.mjs:385 | the basename holds no `/`, is a suffix of the path, and is the whole path or preceded by `/` |
| Text.BasenameWithoutMd | scripts/validate-index.mjs:385 | `path.basename(p, ".md")` is the last path segment with its `.md` suffix cut off, or the whole segment when it has no such suffix; it holds no `/` |
| Index.NonEmptyStringIffTrimmed | scripts/validate-index.mjs:17-19 | `isNonEmptyString` holds exactly for a string that does not trim to "" |
| Index.UnitIdOf | scripts/validate-index.mjs:145 | a missing or null unit `id` becomes the placeholder `(missing-unit-id)`; any other `id` is kept as it is, so the unit id is never undefined or null |
| Diagnostics.Sink.Error | scripts/validate-index.mjs:113-114 | `errors.push`: one error appended, warnings unchanged |
| Diagnostics.Sink.ErrorIf | scripts/validate-index.mjs:113-114 | an error appended exactly when its check failed, warnings unchanged |
| Diagnostics.Sink.Warn | scripts/validate-index.mjs:113-114 | `warnings.push`: one warning appended, errors unchanged |
| Diagnostics.Sink.WarnIf | scripts/validate-index.mjs:113-114 | a warning appended exactly when its check failed, errors unchanged |
| Markdown.ReadFirstH1 | scripts/validate-index.mjs:5-8 | null exactly when no line is an H1; otherwise the text of the first H1 line, whether or not it is fenced |
| Markdown.FirstNonEmptyLine | scripts/validate-index.mjs:10-15 | null exactly when every line is blank; otherwise the first line that is not blank |
| Markdown.KebabCaseIffSegments | scripts/validate-index.mjs:29-31 | `isKebabCaseId` holds exactly for non-empty `[a-z0-9]+` segments joined by single hyphens |
| Markdown.JoinedSegmentsAreKebab | scripts/validate-index.mjs:29-31 | segments joined by hyphens always pass `isKebabCaseId` |
| Markdown.KebabSplitsIntoSegments | scripts/validate-index.mjs:29-31 | an id that passes, cut at its hyphens, gives only `[a-z0-9]+` segments |
| Markdown.SectionLines | scripts/validate-index.mjs:42-62 | no section exactly when no line is `## <heading>`; otherwise the lines from the first heading line up to, not including, the next line starting with `## ` |
| Markdown.HasH2IffSection | scripts/validate-index.mjs:37-53 | `hasH2` and `extractH2Section` agree on whether the heading is present |
| Markdown.ExtractH2Section | scripts/validate-index.mjs:42-63 | the two loops return the section's lines joined with `\n`, or null |
| Markdown.HasUnclosedFence | scripts/validate-index.mjs:83-91 | true exactly when an odd number of lines start with three backticks |
| Markdown.InsideFenceStep | scripts/validate-index.mjs:86-88 | the `inFence` toggle flips exactly on a marker line |
| Markdown.BareOpeningsExactly | scripts/validate-index.mjs:65-81 | the numbers are increasing and are exactly the 1-based numbers of the marker lines met outside a fence with a blank language; none lies inside a fence |
| Markdown.FenceOpeningsWithoutLanguage | scripts/validate-index.mjs:65-81 | the loop returns exactly those line numbers |
| Markdown.CountTopLevelH1OutsideFences | scripts/validate-index.mjs:93-106 | the count is the number of `^#\s+` lines that are neither markers nor inside a fence |
| Links.TargetEndExactly | scripts/validate-index.mjs:413 | the scan returns `e` exactly when the text from `t` to `e` matches `(?:\.\/\|chapters\/)[^)\s]+?\.md`, with a body of at least one character, and `)` follows; no result means no target is closed there |
| Links.LinkAtExactly | scripts/validate-index.mjs:413 | the scan at `p` returns a match exactly when the line holds `[label](target)` there with no `]` in the label, a non-empty label for the `+` pattern and a target of the target group; no result means the pattern does not match at `p` |
| Links.LinkAtText | scripts/validate-index.mjs:413 | a match covers exactly the text `[label](target)` |
| Links.LinksFromExactly | scripts/validate-index.mjs:412-415 | `matchAll` yields well-formed matches inside the line, left to right, without overlaps, each the pattern's match at its own start, and the pattern matches at no index outside their spans |
| Links.StripKeepsUncovered | scripts/validate-index.mjs:440-443 | the `replace` keeps exactly the text outside the empty-label matches: the pieces between them, in order |
| Links.StripWithoutLinks | scripts/validate-index.mjs:440-443 | a line without matches is left as it is |
| Links.RawPathAt | scripts/validate-index.mjs:444 | a raw path found at `p` starts with `chapters/` or `./`, ends with `.md`, and is the text at `p` |
| Links.RawPathAtExactly | scripts/validate-index.mjs:444 | what the scan at `p` returns is a match of the lazy pattern, and it returns one, no longer than any other match at `p`, whenever the pattern matches there; no result means it does not |
| Links.RawPathFromExactly | scripts/validate-index.mjs:444 | `match` returns the raw path at the leftmost index where the pattern matches, and null only when it matches nowhere |
| Links.NoRawPathBetweenMeans | scripts/validate-index.mjs:444 | "no match in `[lo, hi)`" means that the pattern matches at no index of the range |
| LinkCheck.CanonicalForms | scripts/validate-index.mjs:418 | `./x` becomes `chapters/x`; `chapters/x` is kept |
| LinkCheck.TrimLinkTarget | scripts/validate-index.mjs:417 | trimming a captured target changes nothing |
| LinkCheck.LinkFindingsExactly | scripts/validate-index.mjs:416-436 | unknown target: only the broken-link error; known target: the relative-link error exactly when the target starts with `chapters/`, and the title warning exactly when the trimmed label differs from the title |
| LinkCheck.RelativeAndPrefixedAgree | scripts/validate-index.mjs:418-436 | `./x` and `chapters/x` give the same warnings; for a known target only `chapters/x` draws the relative-link error |
| LinkCheck.LineFindingsAt | scripts/validate-index.mjs:412-449 | every finding of a line names that item and that 1-based line number |
| LinkCheck.LinesFindingsOutsideFences | scripts/validate-index.mjs:402-450 | every link finding of a document names a line that is neither a marker nor inside a fence |
| LinkCheck.CheckLink | scripts/validate-index.mjs:415-436 | the sink gains exactly the findings of one match |
| LinkCheck.CheckMatches | scripts/validate-index.mjs:412-437 | the sink gains the findings of the matches, in order |
| LinkCheck.CheckLine | scripts/validate-index.mjs:412-449 | the sink gains the link findings, then the raw-path warning |
| LinkCheck.ScanLine | scripts/validate-index.mjs:405-449 | one iteration keeps the toggle equal to "inside a fence" and adds the line's findings only when the line is scanned |
| LinkCheck.CheckLinks | scripts/validate-index.mjs:400-451 | the loop adds exactly the findings of the scanned lines, in order |
| Documents.DocumentEarlyExits | scripts/validate-index.mjs:332-352 | no usable path: nothing; invalid path: only that error; unreadable file: the layout warning and the not-found error; no H1: only the missing-H1 error |
| Documents.SectionTextNonEmpty | scripts/validate-index.mjs:381-382 | a found section is never the empty string, so `!section` only rejects a missing one |
| Documents.SectionErrorsExactly | scripts/validate-index.mjs:378-398 | at most one error; the missing-section errors follow `hasAssignment` and `hasH2`; the branch error is raised exactly when the found assignment section lacks `feature/<basename>` |
| Documents.FenceWarningsExactly | scripts/validate-index.mjs:369-372 | one warning per reported line number, in order |
| Documents.FenceWarningsMembers | scripts/validate-index.mjs:369-372 | a fence warning is raised for a line number exactly when the list holds it |
| Documents.StructureFlags | scripts/validate-index.mjs:359-376 | the first-line, H1-count and unclosed-fence warnings are each raised exactly when their checks fail |
| Documents.StructureFences | scripts/validate-index.mjs:369-372 | a fence warning names line `n` exactly when line `n` is a bare fence opening |
| Documents.HeadingWarningsExactly | scripts/validate-index.mjs:453-465 | a heading is warned about exactly when it is expected and missing; there are never more warnings than expected headings |
| Documents.WarnBareFences | scripts/validate-index.mjs:369-372 | the loop appends exactly the fence warnings |
| Documents.CheckStructure | scripts/validate-index.mjs:359-376 | appends exactly the structure warnings |
| Documents.CheckSection | scripts/validate-index.mjs:378-398 | appends exactly the section errors |
| Documents.CheckHeadings | scripts/validate-index.mjs:453-465 | appends exactly the heading warnings |
| Documents.CheckAfterH1 | scripts/validate-index.mjs:353-465 | appends the title, structure, section, link and heading findings, in the source's order |
| Documents.CheckContent | scripts/validate-index.mjs:347-465 | appends exactly what a readable document reports |
| Documents.CheckAcceptedPath | scripts/validate-index.mjs:340-468 | appends the layout warning, then the not-found error or the content findings |
| Documents.CheckDocument | scripts/validate-index.mjs:332-468 | appends exactly the document findings of one item |
| Documents.CheckDocuments | scripts/validate-index.mjs:332-469 | the loop appends the document findings of every item, in order |
| Schema.UnitErrorsExactly | scripts/validate-index.mjs:144-158 | each unit error is raised exactly when its check fails; the kebab check runs only on a usable id; at most three |
| Schema.ItemsOf | scripts/validate-index.mjs:160-173 | one item per raw item, in order, each with the unit's id |
| Schema.FlattenExtends | scripts/validate-index.mjs:143-175 | later units never move the items already pushed |
| Schema.FlattenPosition | scripts/validate-index.mjs:143-175 | the `k`-th item of unit `u` sits right after the items of the units before it |
| Schema.CheckUnit | scripts/validate-index.mjs:144-158 | appends exactly the unit's errors |
| Schema.VisitUnit | scripts/validate-index.mjs:144-174 | appends the unit's errors and pushes its items |
| Schema.FlattenUnits | scripts/validate-index.mjs:143-175 | the loop yields the flattened items and every unit's errors |
| Schema.DuplicatesIffRepeat | scripts/validate-index.mjs:227-229 | the `Set` is smaller than the list exactly when two positions hold the same string |
| Schema.Trimmed | scripts/validate-index.mjs:227 | `map((t) => t.trim())` keeps the length and trims each entry |
| Schema.IdentityErrorsExactly | scripts/validate-index.mjs:185-190 | the kebab-case and title errors are raised exactly when their checks fail, and nothing else |
| Schema.InFieldErrors | scripts/validate-index.mjs:195-244 | a field error is in the list exactly when its own check fails; at most seven |
| Schema.FieldErrorsExactly | scripts/validate-index.mjs:195-244 | each of the nine field errors is raised exactly when its check fails |
| Schema.ItemErrorsMissingId | scripts/validate-index.mjs:181-184 | an item without a usable id gets exactly the missing-id error |
| Schema.ItemErrorsMissingPath | scripts/validate-index.mjs:185-194 | without a usable path, the last error is the missing-path error, after at most the kebab and title errors |
| Schema.ItemErrorsIndexedIdentity | scripts/validate-index.mjs:185-194 | for an indexed item, kebab and title errors exactly when their checks fail, never the missing-path error |
| Schema.ItemErrorsIndexedCount | scripts/validate-index.mjs:180-244 | an indexed item gets at most nine errors |
| Schema.ItemErrorsIndexedScalars | scripts/validate-index.mjs:195-223 | for an indexed item, each scalar error is raised exactly when its check fails, whatever the other fields hold |
| Schema.ItemErrorsIndexedLists | scripts/validate-index.mjs:224-244 | for an indexed item, the `tags` and `prerequisites` errors are raised exactly when their checks fail |
| Schema.CheckScalarFields | scripts/validate-index.mjs:195-223 | appends exactly the scalar-field errors |
| Schema.CheckStringList | scripts/validate-index.mjs:224-244 | appends the invalid-list error or the duplicates error |
| Schema.CheckFields | scripts/validate-index.mjs:195-244 | appends exactly the field errors |
| Schema.CheckIdentity | scripts/validate-index.mjs:185-190 | appends exactly the identity errors |
| Schema.CheckItem | scripts/validate-index.mjs:180-244 | appends exactly the item's errors and says whether the item is grouped |
| Schema.KeyedItemsAreIndexed | scripts/validate-index.mjs:246-247 | exactly the items that pass the id and path checks enter the groups, under their own key |
| Schema.GroupByContents | scripts/validate-index.mjs:246-247 | the `Map` has distinct keys in first-insertion order, holds a key exactly when some item has it, and groups the items in order |
| Schema.ValidateItems | scripts/validate-index.mjs:180-248 | the loop appends every item's errors and builds both group maps |
| Schema.ReportDuplicates | scripts/validate-index.mjs:257-273 | appends exactly the duplicate reports |
| Schema.ReportIndex | scripts/validate-index.mjs:257-273 | every duplicate report comes from a key whose group has more than one item |
| Schema.IndexReported | scripts/validate-index.mjs:257-273 | every key whose group has more than one item is reported |
| Schema.DuplicateErrorsDistinct | scripts/validate-index.mjs:257-273 | with distinct keys, no report is repeated |
| Schema.DuplicateReportIffShared | scripts/validate-index.mjs:257-273 | a key's report is present exactly when more than one item shares the key |
| Schema.DuplicateReportsOnlyShared | scripts/validate-index.mjs:257-273 | every report names a shared key and lists exactly the items that share it, in order |
| Schema.DuplicateReportsDistinct | scripts/validate-index.mjs:257-273 | no key is reported twice |
| Schema.PathTitlesLastWins | scripts/validate-index.mjs:250-255 | a path maps to a title exactly when some item with string path and title has it; the title is the last such item's |
| Schema.BuildPathTitles | scripts/validate-index.mjs:250-255 | the loop builds exactly that map |
| Prerequisites.AllItemIdsMembers | scripts/validate-index.mjs:275 | the set holds exactly the truthy item ids |
| Prerequisites.AllItemIdsDistinct | scripts/validate-index.mjs:275 | each id is held once |
| Prerequisites.AllItemIdsInFirstOrder | scripts/validate-index.mjs:275 | the ids come in the order of their first occurrence |
| Prerequisites.FindItem | scripts/validate-index.mjs:320 | `items.find` returns the first item with the id, and nothing only when none has it |
| Prerequisites.ReferenceError | scripts/validate-index.mjs:279-285 | a self reference gives only the self error; otherwise an unknown id gives the unknown error |
| Prerequisites.EntriesErrorsSound | scripts/validate-index.mjs:278-286 | every error names a listed entry that is the item itself or an unknown id |
| Prerequisites.EntriesErrorsComplete | scripts/validate-index.mjs:278-286 | every listed entry that is the item itself or unknown is reported |
| Prerequisites.CheckItemReferences | scripts/validate-index.mjs:277-286 | appends exactly one item's reference errors |
| Prerequisites.CheckReferences | scripts/validate-index.mjs:276-287 | appends exactly every item's reference errors |
| Prerequisites.OrderMapLastIndex | scripts/validate-index.mjs:290 | an id is in the map exactly when some item has it; it maps to the last such index |
| Prerequisites.BuildOrderMap | scripts/validate-index.mjs:290 | the loop builds exactly that map |
| Prerequisites.OrderWarningExactly | scripts/validate-index.mjs:294-301 | a warning is raised exactly when the prerequisite's id is listed after the item's id |
| Prerequisites.EntriesWarningsExactly | scripts/validate-index.mjs:293-302 | the item's warnings are exactly those of its entries, at most one each |
| Prerequisites.CheckItemOrder | scripts/validate-index.mjs:292-302 | appends exactly one item's ordering warnings |
| Prerequisites.CheckOrder | scripts/validate-index.mjs:289-303 | appends exactly every item's ordering warnings |
| Prerequisites.CyclesAppendedTransitive | scripts/validate-index.mjs:305-330 | appending cycles twice appends cycles |
| Prerequisites.CycleSearch.constructor | scripts/validate-index.mjs:305-307 | the search starts with empty `visiting`, `visited` and `stack` |
| Prerequisites.CycleSearch.Enter | scripts/validate-index.mjs:317-318 | the id joins `visiting` and the top of the stack |
| Prerequisites.CycleSearch.Leave | scripts/validate-index.mjs:325-327 | the id leaves the stack and `visiting` and joins `visited` |
| Prerequisites.CycleSearch.CycleOfStack | scripts/validate-index.mjs:312-313 | the stack from the id's position, with the id appended, is a cycle of the prerequisite graph |
| Prerequisites.CycleSearch.ReportCycle | scripts/validate-index.mjs:311-315 | exactly one error is appended, and it names a cycle |
| Prerequisites.CycleSearch.Dfs | scripts/validate-index.mjs:309-328 | `visited` only grows, the stack and `visiting` are restored, a visited id is skipped, the id ends up visited unless it was on the stack, and only cycle errors are appended |
| Prerequisites.IndexOfValue | scripts/validate-index.mjs:312 | `stack.indexOf` returns the first position of the id |
| Prerequisites.DetectCycles | scripts/validate-index.mjs:305-330 | every error appended names a cycle of the prerequisite graph; warnings unchanged |
| Orphans.NotAfterTotal | scripts/validate-index.mjs:477 | the default sort order compares any two strings |
| Orphans.NotAfterAntisymmetric | scripts/validate-index.mjs:477 | strings that are each not after the other are equal |
| Orphans.NotAfterTransitive | scripts/validate-index.mjs:477 | the order is transitive |
| Orphans.NotAfterReflexive | scripts/validate-index.mjs:477 | the order is reflexive |
| Orphans.SortPathsCorrect | scripts/validate-index.mjs:477 | the sort yields a sorted permutation |
| Orphans.SortedUnique | scripts/validate-index.mjs:477 | two sorted permutations of the same strings are equal, so any correct sort gives this result |
| Orphans.ChapterPathsExactly | scripts/validate-index.mjs:474-476 | the paths are exactly `chapters/<name>` for the listed regular `.md` files |
| Orphans.UnreferencedExactly | scripts/validate-index.mjs:480 | the filter keeps exactly the unreferenced paths and keeps them sorted |
| Orphans.ReferencedIff | scripts/validate-index.mjs:479 | a non-empty path is in the set exactly when some item's `path` is that string |
| Orphans.ExtraFilesExactly | scripts/validate-index.mjs:474-480 | `extra` is sorted and holds exactly the listed `.md` files that no item references |
| Orphans.OrphanWarningsExactly | scripts/validate-index.mjs:471-484 | no warning when the listing fails; otherwise one warning exactly when some listed `.md` file is unreferenced, naming `extra` |
| Orphans.CheckOrphans | scripts/validate-index.mjs:471-484 | appends exactly that warning |
| Validator.ExitCode | scripts/validate-index.mjs:500 | the exit code is 1 exactly when the run stopped on a fatal failure (lines 126, 133 and 139) or pushed an error, and 0 otherwise |
| Validator.CheckIndex | scripts/validate-index.mjs:143-303 | the passes up to ordering leave the errors before the cycle search and the ordering warnings |
| Validator.CheckRest | scripts/validate-index.mjs:305-484 | then come only cycle errors, the document errors, and the document and orphan warnings |
| Validator.Run | scripts/validate-index.mjs:113-484 | the lists are as reported: specified errors with cycle errors in between, and every warning in order |
| Validator.Validate | scripts/validate-index.mjs:112-500 | unreadable, non-object and chapterless indexes stop with their fatal failure; a usable index gives the reported lists |
| Validator.EmptyIndexPasses | scripts/validate-index.mjs:143-500 | an index without units reports no error and exits 0 |
| Validator.NoCyclesWithoutItems | scripts/validate-index.mjs:305-330 | without items there is no cycle |
| Validator.CyclesWithoutItems | scripts/validate-index.mjs:305-330 | without items no cycle error is appended |
| Validator.WarningsNeverFail | scripts/validate-index.mjs:491-500 | warnings do not change the exit code; it is 1 exactly when some error was pushed |

## Left out

- Reading `index.json`, the documents and `chapters/`, and printing: the outcome of each read is an input instead. The index is a parse result or a failure, the documents are a map from path to text, and the listing is an optional list of entries, where none means `readdir` failed. Paths are map keys as written, with no normalisation.
- Message rendering: each diagnostic carries the values its message interpolates, not the text. This includes `formatItemRef` and the `join`s of the duplicate and cycle messages.
- Numbers are `real`s, with a separate infinite case. JSON cannot produce NaN, and floating-point rounding is not modelled.
- The `m` flag of `readFirstH1` and `hasH2` lets `\s+` and `\s*` run across line breaks, and lets `$` match before a `\r`. The model matches each split line on its own.
- Text.BasenameWithoutMd: `path.basename` edge cases, such as trailing slashes and a name equal to `.md` (which Node keeps whole), are not modelled: the model takes the text after the last `/` and cuts a `.md` suffix. `path.isAbsolute` is modelled as a leading `/`.
- `sort()` compares UTF-16 code units. The model compares characters in code-point order, which can differ only for characters outside the Basic Multilingual Plane.
- Prerequisites.DetectCycles: proved sound (every reported error names a real cycle), not complete. That the search reports every cycle it closes is not proved.
- Validator.CheckRest: the document errors are pinned down exactly. The cycle errors between them are stated only as cycles of the prerequisite graph, not as the exact sequence the search produces.
- Validator.Run: inherits the same gap. Its error list is fixed exactly except for the cycle errors, which are stated only as cycles of the prerequisite graph.
- Validator.Validate: inherits the same gap through `Run` for a usable index. The fatal outcomes are stated exactly.
- Reference identity: arrays and objects in `Index.Value` carry a reference tag, and structural equality of two values stands for JavaScript's reference identity. That holds only when distinct parsed arrays and objects carry distinct tags, as a fresh `JSON.parse` result does; the model does not check it.
- Three behaviours of the script worth knowing; the model follows the script:
  - The unreferenced-file scan counts the truthy `path` of every item, not only of valid ones.
  - The exit code is 1 for a fatal failure as well as for errors.
  - `readFirstH1` also finds an H1 inside a code fence.

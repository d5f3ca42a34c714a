/**
 * The scan for Markdown files under `chapters/` that no item references
 * (471-484): the listing's `.md` files become `chapters/<name>` paths, are
 * sorted, and those that no item's path names are reported in one warning.
 *
 * The directory listing is given; `None` stands for a listing that could not
 * be read, which the source ignores.
 *
 * Numbers in parentheses are line numbers in `scripts/validate-index.mjs`.
 */
module Orphans {
  import opened Text
  import opened Wrappers
  import opened Index
  import opened Diagnostics

  /** One entry of the listing of `chapters/`: its name and whether it is a regular file. */
  datatype DirEntry = DirEntry(name: string, isFile: bool)

  // ---------------------------------------------------------------------------
  // The order `Array.prototype.sort` puts strings in
  // ---------------------------------------------------------------------------

  /** `a` sorts no later than `b`: character by character, a prefix first. */
  predicate NotAfter(a: string, b: string) {
    if |a| == 0 then true
    else if |b| == 0 then false
    else if a[0] != b[0] then a[0] < b[0]
    else NotAfter(a[1..], b[1..])
  }

  /** Any two strings are ordered one way or the other. */
  lemma {:induction false} NotAfterTotal(a: string, b: string)
    ensures NotAfter(a, b) || NotAfter(b, a)
  {
    if |a| > 0 && |b| > 0 && a[0] == b[0] {
      NotAfterTotal(a[1..], b[1..]);
    }
  }

  /** Strings ordered both ways are equal. */
  lemma {:induction false} NotAfterAntisymmetric(a: string, b: string)
    requires NotAfter(a, b) && NotAfter(b, a)
    ensures a == b
  {
    if |a| > 0 && |b| > 0 {
      NotAfterAntisymmetric(a[1..], b[1..]);
      assert a == [a[0]] + a[1..] && b == [b[0]] + b[1..];
    }
  }

  lemma {:induction false} NotAfterTransitive(a: string, b: string, c: string)
    requires NotAfter(a, b) && NotAfter(b, c)
    ensures NotAfter(a, c)
  {
    if |a| > 0 && |b| > 0 && |c| > 0 && a[0] == b[0] && b[0] == c[0] {
      NotAfterTransitive(a[1..], b[1..], c[1..]);
    }
  }

  predicate Sorted(s: seq<string>) {
    forall i, j :: 0 <= i < j < |s| ==> NotAfter(s[i], s[j])
  }

  /** `x` placed before the first element it does not come after. */
  function InsertSorted(x: string, s: seq<string>): seq<string> {
    if |s| == 0 then [x]
    else if NotAfter(x, s[0]) then [x] + s
    else [s[0]] + InsertSorted(x, s[1..])
  }

  /** The listing sorted (`.sort()` without a comparator). */
  function SortPaths(s: seq<string>): seq<string> {
    if |s| == 0 then [] else InsertSorted(s[0], SortPaths(s[1..]))
  }

  lemma {:induction false} NotAfterReflexive(a: string)
    ensures NotAfter(a, a)
  {
    if |a| > 0 {
      NotAfterReflexive(a[1..]);
    }
  }

  /** Inserting adds `x` once and keeps everything else. */
  lemma {:induction false} InsertSortedPermutes(x: string, s: seq<string>)
    ensures multiset(InsertSorted(x, s)) == multiset(s) + multiset{x}
  {
    if |s| > 0 && !NotAfter(x, s[0]) {
      InsertSortedPermutes(x, s[1..]);
      assert s == [s[0]] + s[1..];
    }
  }

  /** Inserting into a sorted list keeps it sorted. */
  lemma {:induction false} InsertSortedSorted(x: string, s: seq<string>)
    requires Sorted(s)
    ensures Sorted(InsertSorted(x, s))
  {
    if |s| == 0 {
    } else if NotAfter(x, s[0]) {
      forall j | 0 <= j < |s| ensures NotAfter(x, s[j]) {
        if j > 0 {
          NotAfterTransitive(x, s[0], s[j]);
        }
      }
    } else {
      var rest := s[1..];
      InsertSortedSorted(x, rest);
      InsertSortedPermutes(x, rest);
      var r := InsertSorted(x, rest);
      NotAfterTotal(x, s[0]);
      forall j | 0 <= j < |r| ensures NotAfter(s[0], r[j]) {
        assert r[j] in multiset(r);
        if r[j] != x {
          assert r[j] in multiset(rest);
          var k :| 0 <= k < |rest| && rest[k] == r[j];
          assert s[k + 1] == rest[k];
        }
      }
      assert InsertSorted(x, s) == [s[0]] + r;
    }
  }

  /** The sort orders the paths and keeps each one as often as it was listed. */
  lemma {:induction false} SortPathsCorrect(s: seq<string>)
    ensures Sorted(SortPaths(s))
    ensures multiset(SortPaths(s)) == multiset(s)
  {
    if |s| > 0 {
      SortPathsCorrect(s[1..]);
      InsertSortedSorted(s[0], SortPaths(s[1..]));
      InsertSortedPermutes(s[0], SortPaths(s[1..]));
      assert s == [s[0]] + s[1..];
    }
  }

  /** The least element of a non-empty multiset of strings. */
  lemma SortedHeadIsLeast(s: seq<string>, x: string)
    requires Sorted(s) && |s| > 0 && x in multiset(s)
    ensures NotAfter(s[0], x)
  {
    var k :| 0 <= k < |s| && s[k] == x;
    if k == 0 {
      NotAfterReflexive(x);
    }
  }

  lemma SortedTail(s: seq<string>)
    requires Sorted(s) && |s| > 0
    ensures Sorted(s[1..])
  {
    forall i, j | 0 <= i < j < |s| - 1 ensures NotAfter(s[1..][i], s[1..][j]) {
      assert s[1..][i] == s[i + 1] && s[1..][j] == s[j + 1];
    }
  }

  lemma MultisetTail(s: seq<string>)
    requires |s| > 0
    ensures multiset(s[1..]) == multiset(s) - multiset{s[0]}
  {
    assert s == [s[0]] + s[1..];
  }

  /**
   * There is only one sorted order of a list of strings, so the model's sort
   * agrees with every other correct sort, the source's included.
   */
  lemma {:induction false} SortedUnique(s: seq<string>, t: seq<string>)
    requires Sorted(s) && Sorted(t) && multiset(s) == multiset(t)
    ensures s == t
  {
    assert |t| == |multiset(t)| == |multiset(s)| == |s|;
    if |s| > 0 {
      SortedSameHead(s, t);
      SortedSameTails(s, t);
      SortedUnique(s[1..], t[1..]);
      assert s == [s[0]] + s[1..] && t == [t[0]] + t[1..];
    }
  }

  /** Past a common first string, two sorted orders of the same strings go on as sorted orders of the same strings. */
  lemma SortedSameTails(s: seq<string>, t: seq<string>)
    requires Sorted(s) && Sorted(t) && multiset(s) == multiset(t) && |s| > 0 && |t| > 0 && s[0] == t[0]
    ensures Sorted(s[1..]) && Sorted(t[1..]) && multiset(s[1..]) == multiset(t[1..])
  {
    SortedTail(s);
    SortedTail(t);
    MultisetTail(s);
    MultisetTail(t);
  }

  /** Two sorted orders of the same strings start with the same one. */
  lemma SortedSameHead(s: seq<string>, t: seq<string>)
    requires Sorted(s) && Sorted(t) && multiset(s) == multiset(t) && |s| > 0 && |t| > 0
    ensures s[0] == t[0]
  {
    assert s[0] in multiset(t) && t[0] in multiset(s);
    SortedHeadIsLeast(t, s[0]);
    SortedHeadIsLeast(s, t[0]);
    NotAfterAntisymmetric(s[0], t[0]);
  }

  // ---------------------------------------------------------------------------
  // The scan
  // ---------------------------------------------------------------------------

  /** The entry is a regular file whose name ends in `.md`. */
  predicate IsChapterFile(e: DirEntry) {
    e.isFile && EndsWith(e.name, ".md")
  }

  /** `chapters/<name>` for each `.md` file of the listing, in listing order. */
  function ChapterPaths(entries: seq<DirEntry>): seq<string> {
    if |entries| == 0 then []
    else
      var rest := ChapterPaths(entries[1..]);
      if IsChapterFile(entries[0]) then ["chapters/" + entries[0].name] + rest else rest
  }

  /** `new Set(items.map((i) => i.path).filter(Boolean))`. */
  function ReferencedPaths(items: seq<Item>): set<Value> {
    set i | 0 <= i < |items| && Truthy(items[i].path) :: items[i].path
  }

  /** The paths of `files` the set does not hold, in order. */
  function Unreferenced(files: seq<string>, referenced: set<Value>): seq<string> {
    if |files| == 0 then []
    else
      var rest := Unreferenced(files[1..], referenced);
      if Str(files[0]) in referenced then rest else [files[0]] + rest
  }

  /** `extra`: the sorted chapter files no item references. */
  function ExtraFiles(items: seq<Item>, entries: seq<DirEntry>): seq<string> {
    Unreferenced(SortPaths(ChapterPaths(entries)), ReferencedPaths(items))
  }

  /** The warning of the scan, if any; nothing when the listing could not be read. */
  function OrphanWarnings(items: seq<Item>, listing: Option<seq<DirEntry>>): seq<Diagnostic> {
    if listing.None? then []
    else
      var extra := ExtraFiles(items, listing.value);
      Flag(|extra| > 0, UnreferencedFiles(extra))
  }

  // ---------------------------------------------------------------------------
  // Properties
  // ---------------------------------------------------------------------------

  /** A path is listed exactly when a `.md` file of that name is in the listing. */
  lemma {:induction false} ChapterPathsExactly(entries: seq<DirEntry>)
    ensures forall p :: p in ChapterPaths(entries) <==>
      exists k :: 0 <= k < |entries| && IsChapterFile(entries[k]) && p == "chapters/" + entries[k].name
  {
    if |entries| > 0 {
      ChapterPathsExactly(entries[1..]);
      forall p ensures p in ChapterPaths(entries) <==>
        exists k :: 0 <= k < |entries| && IsChapterFile(entries[k]) && p == "chapters/" + entries[k].name
      {
        if p in ChapterPaths(entries[1..]) {
          var k :| 0 <= k < |entries| - 1 && IsChapterFile(entries[1..][k]) && p == "chapters/" + entries[1..][k].name;
          assert entries[k + 1] == entries[1..][k];
        }
        if exists k :: 0 <= k < |entries| && IsChapterFile(entries[k]) && p == "chapters/" + entries[k].name {
          var k :| 0 <= k < |entries| && IsChapterFile(entries[k]) && p == "chapters/" + entries[k].name;
          if k > 0 {
            assert entries[1..][k - 1] == entries[k];
          }
        }
      }
    }
  }

  /**
   * The filter keeps the order of the paths it keeps, and keeps exactly those
   * the set does not hold.
   */
  lemma {:induction false} UnreferencedExactly(files: seq<string>, referenced: set<Value>)
    ensures forall p :: p in Unreferenced(files, referenced) <==> p in files && Str(p) !in referenced
    ensures Sorted(files) ==> Sorted(Unreferenced(files, referenced))
  {
    if |files| > 0 {
      var rest := files[1..];
      UnreferencedExactly(rest, referenced);
      assert files == [files[0]] + rest;
      if Sorted(files) {
        assert Sorted(rest);
        var r := Unreferenced(rest, referenced);
        forall j | 0 <= j < |r| ensures NotAfter(files[0], r[j]) {
          assert r[j] in rest;
          var k :| 0 <= k < |rest| && rest[k] == r[j];
          assert files[k + 1] == rest[k];
        }
      }
    }
  }

  /** Some item's path is the string `p`. */
  predicate PathReferenced(items: seq<Item>, p: string) {
    exists i :: 0 <= i < |items| && items[i].path == Str(p)
  }

  /** A `.md` file of the listing that no item's path names. */
  predicate UnreferencedChapterFile(items: seq<Item>, e: DirEntry) {
    IsChapterFile(e) && !PathReferenced(items, "chapters/" + e.name)
  }

  /** A path is referenced exactly when some item's path is that string. */
  lemma ReferencedIff(items: seq<Item>, p: string)
    requires p != ""
    ensures Str(p) in ReferencedPaths(items) <==> PathReferenced(items, p)
  {
    if PathReferenced(items, p) {
      var i :| 0 <= i < |items| && items[i].path == Str(p);
      assert Truthy(items[i].path);
    }
  }

  /**
   * The reported files are sorted, and a path is among them exactly when a
   * `.md` file of the listing has it as `chapters/<name>` and no item's path
   * is that string.
   */
  lemma ExtraFilesExactly(items: seq<Item>, entries: seq<DirEntry>)
    ensures Sorted(ExtraFiles(items, entries))
    ensures forall p :: p in ExtraFiles(items, entries) <==>
      (exists k :: 0 <= k < |entries| && IsChapterFile(entries[k]) && p == "chapters/" + entries[k].name) &&
      !PathReferenced(items, p)
  {
    var paths := ChapterPaths(entries);
    var sorted := SortPaths(paths);
    SortPathsCorrect(paths);
    ChapterPathsExactly(entries);
    UnreferencedExactly(sorted, ReferencedPaths(items));
    forall p ensures p in ExtraFiles(items, entries) <==>
      (exists k :: 0 <= k < |entries| && IsChapterFile(entries[k]) && p == "chapters/" + entries[k].name) &&
      !PathReferenced(items, p)
    {
      assert p in sorted <==> p in multiset(sorted);
      assert p in paths <==> p in multiset(paths);
      if p in paths {
        var k :| 0 <= k < |entries| && IsChapterFile(entries[k]) && p == "chapters/" + entries[k].name;
        assert p[0] == 'c';
        ReferencedIff(items, p);
      }
    }
  }

  /**
   * One warning comes exactly when the listing was read and some chapter
   * file is unreferenced; it lists those files, and a listing that could not
   * be read yields nothing.
   */
  lemma OrphanWarningsExactly(items: seq<Item>, listing: Option<seq<DirEntry>>)
    ensures |OrphanWarnings(items, listing)| <= 1
    ensures listing.None? ==> OrphanWarnings(items, listing) == []
    ensures listing.Some? ==>
      (|OrphanWarnings(items, listing)| == 1 <==>
        exists k :: 0 <= k < |listing.value| && UnreferencedChapterFile(items, listing.value[k]))
    ensures forall d :: d in OrphanWarnings(items, listing) ==> d == UnreferencedFiles(ExtraFiles(items, listing.value))
  {
    if listing.Some? {
      var entries := listing.value;
      var extra := ExtraFiles(items, entries);
      ExtraFilesExactly(items, entries);
      if exists k :: 0 <= k < |entries| && UnreferencedChapterFile(items, entries[k]) {
        var k :| 0 <= k < |entries| && UnreferencedChapterFile(items, entries[k]);
        assert "chapters/" + entries[k].name in extra;
      }
      if |extra| > 0 {
        assert extra[0] in extra;
      }
    }
  }

  // ---------------------------------------------------------------------------
  // The check
  // ---------------------------------------------------------------------------

  /** The scan and its warning (471-484). */
  method CheckOrphans(items: seq<Item>, listing: Option<seq<DirEntry>>, sink: Sink)
    modifies sink
    ensures sink.warnings == old(sink.warnings) + OrphanWarnings(items, listing)
    ensures sink.errors == old(sink.errors)
  {
    if listing.None? {
      return;
    }
    var chapterFiles := SortPaths(ChapterPaths(listing.value));
    var extra := Unreferenced(chapterFiles, ReferencedPaths(items));
    sink.WarnIf(|extra| > 0, UnreferencedFiles(extra));
  }
}

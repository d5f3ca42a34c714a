/**
 * The three link regexes of the internal-link check, written as scanners over
 * one line:
 *   - `\[([^\]]+)\]\(((?:\.\/|chapters\/)[^)\s]+?\.md)\)` with `matchAll`
 *     (the links whose labels are checked),
 *   - the same pattern with an empty label allowed, with `replace(…, "")`
 *     (the links removed before looking for raw paths),
 *   - `(?:chapters\/|\.\/)[^\s)]+?\.md` with `match` (the first raw path left).
 *
 * Numbers in parentheses are line numbers in `scripts/validate-index.mjs`.
 */
module Links {
  import opened Text
  import opened Wrappers

  /** One link match: its label and target groups and the span `[start, end)` it covers. */
  datatype LinkMatch = LinkMatch(linkLabel: string, target: string, start: nat, end: nat)

  /** A character of `[^)\s]`. */
  predicate IsTargetChar(c: char) {
    c != ')' && !IsSpace(c)
  }

  /** The length of the target prefix `./` or `chapters/` at index `t`, or 0. */
  function PrefixLength(line: string, t: nat): (k: nat)
    requires t <= |line|
    ensures k == 0 || k == 2 || k == 9
    ensures k == 2 ==> StartsWith(line[t..], "./")
    ensures k == 9 ==> StartsWith(line[t..], "chapters/")
    ensures k == 0 ==> !StartsWith(line[t..], "./") && !StartsWith(line[t..], "chapters/")
  {
    if StartsWith(line[t..], "./") then 2
    else if StartsWith(line[t..], "chapters/") then 9
    else 0
  }

  /** The first index at or after `from` that holds `)` or white space, or `|line|`. */
  function TargetStop(line: string, from: nat): (r: nat)
    requires from <= |line|
    ensures from <= r <= |line|
    ensures r < |line| ==> !IsTargetChar(line[r])
    ensures forall i :: from <= i < r ==> IsTargetChar(line[i])
    decreases |line| - from
  {
    if from == |line| then from
    else if !IsTargetChar(line[from]) then from
    else TargetStop(line, from + 1)
  }

  /**
   * A link target as `(?:\.\/|chapters\/)[^)\s]+?\.md` captures it: a prefix,
   * at least one body character, then `.md`, with no `)` or white space.
   */
  predicate IsLinkTarget(target: string) {
    ((StartsWith(target, "./") && |target| >= 6) || (StartsWith(target, "chapters/") && |target| >= 13)) &&
    EndsWith(target, ".md") &&
    forall i :: 0 <= i < |target| ==> IsTargetChar(target[i])
  }

  /** `TargetStop` stops at the first character outside `[^)\s]`. */
  lemma {:induction false} TargetStopAt(line: string, from: nat, e: nat)
    requires from <= e < |line| && !IsTargetChar(line[e])
    requires forall i :: from <= i < e ==> IsTargetChar(line[i])
    ensures TargetStop(line, from) == e
    decreases e - from
  {
    if from < e {
      TargetStopAt(line, from + 1, e);
    }
  }

  /**
   * `TargetEnd` finds exactly the `)` that closes a link target starting at
   * `t`: it returns `e` if and only if the text from `t` to `e` is a target
   * and `)` follows it. So `None` means no target is closed there.
   */
  lemma TargetEndExactly(line: string, t: nat, e: nat)
    requires t <= |line|
    ensures TargetEnd(line, t) == Some(e) <==> t < e < |line| && line[e] == ')' && IsLinkTarget(line[t..e])
  {
    if t < e < |line| && line[e] == ')' && IsLinkTarget(line[t..e]) {
      TargetEndFinds(line, t, e, line[t..e]);
    }
  }

  /** A target closed by `)` at `e` is found by `TargetEnd`. */
  lemma TargetEndFinds(line: string, t: nat, e: nat, target: string)
    requires t < e < |line| && line[e] == ')' && line[t..e] == target && IsLinkTarget(target)
    ensures TargetEnd(line, t) == Some(e)
  {
    var k := PrefixLength(line, t);
    if StartsWith(target, "./") {
      assert line[t..][..2] == target[..2];
      assert k == 2;
    } else {
      assert line[t..][..9] == target[..9];
      assert line[t..][0] == 'c';
      assert k == 9;
    }
    forall i | t + k <= i < e ensures IsTargetChar(line[i]) {
      assert line[i] == target[i - t];
    }
    TargetStopAt(line, t + k, e);
  }

  /**
   * The end of a link target starting at index `t`: the index of the `)` that
   * closes it. The lazy `[^)\s]+?\.md\)` can only end at the first `)` or
   * white space after the prefix, so the target runs up to there.
   */
  function TargetEnd(line: string, t: nat): (r: Option<nat>)
    requires t <= |line|
    ensures r.Some? ==> t < r.value < |line| && line[r.value] == ')' && IsLinkTarget(line[t..r.value])
  {
    var k := PrefixLength(line, t);
    if k == 0 || t + k > |line| then None
    else
      var e := TargetStop(line, t + k);
      if e < |line| && line[e] == ')' && e - (t + k) >= 4 && EndsWith(line[t..e], ".md") then
        var target := line[t..e];
        assert StartsWith(target, line[t..][..k]) by {
          assert target[..k] == line[t..][..k];
        }
        assert forall i :: 0 <= i < |target| ==> IsTargetChar(target[i]) by {
          forall i | 0 <= i < |target| ensures IsTargetChar(target[i]) {
            assert target[i] == line[t + i];
            if i < k {
              assert line[t + i] == line[t..][..k][i];
            }
          }
        }
        Some(e)
      else None
  }

  /** The five pieces of a matched link put back together give the matched text. */
  lemma LinkText(line: string, p: nat, q: nat, e: nat)
    requires p < q && q + 2 <= e < |line|
    requires line[p] == '[' && line[q] == ']' && line[q + 1] == '(' && line[e] == ')'
    ensures line[p..e + 1] == "[" + line[p + 1..q] + "](" + line[q + 2..e] + ")"
  {
    var lhs := line[p..e + 1];
    var rhs := "[" + line[p + 1..q] + "](" + line[q + 2..e] + ")";
    assert |lhs| == |rhs|;
    forall i | 0 <= i < |lhs| ensures lhs[i] == rhs[i] {
      if i == 0 {
      } else if i < q - p {
        assert rhs[i] == line[p + 1..q][i - 1];
      } else if i < q - p + 2 {
      } else if i < e - p {
        assert rhs[i] == line[q + 2..e][i - (q - p + 2)];
      }
    }
  }

  /**
   * The link pattern tried at index `p` (the label may be empty when
   * `emptyLabel` holds). The label runs to the first `]`, which must be
   * followed by `(` and a target.
   */
  function LinkAt(line: string, p: nat, emptyLabel: bool): (r: Option<LinkMatch>)
    requires p <= |line|
    ensures r.Some? ==> r.value.start == p && p < r.value.end <= |line|
    ensures r.Some? ==> ']' !in r.value.linkLabel && (emptyLabel || |r.value.linkLabel| > 0)
    ensures r.Some? ==> IsLinkTarget(r.value.target)
  {
    if p == |line| || line[p] != '[' then None
    else
      var q := p + 1 + IndexOfChar(line[p + 1..], ']');
      if q + 1 >= |line| || line[q + 1] != '(' || (!emptyLabel && q == p + 1) then None
      else
        match TargetEnd(line, q + 2)
        case None => None
        case Some(e) =>
          var linkLabel := line[p + 1..q];
          assert ']' !in linkLabel by {
            forall i | 0 <= i < |linkLabel| ensures linkLabel[i] != ']' {
              assert linkLabel[i] == line[p + 1..][i];
            }
          }
          Some(LinkMatch(linkLabel, line[q + 2..e], p, e + 1))
  }

  /**
   * The link pattern, read off its text: `m` is a match at `p` when the line
   * holds `[`, the label, `](`, the target and `)` from `p` on, the label has
   * no `]` (and is non-empty unless `emptyLabel`), and the target has the
   * target shape.
   */
  predicate IsLinkMatchAt(line: string, p: nat, emptyLabel: bool, m: LinkMatch) {
    var q := p + 1 + |m.linkLabel|;
    m.start == p && m.end == q + |m.target| + 3 && m.end <= |line| &&
    line[p] == '[' && line[p + 1..q] == m.linkLabel && line[q] == ']' && line[q + 1] == '(' &&
    line[q + 2..m.end - 1] == m.target && line[m.end - 1] == ')' &&
    ']' !in m.linkLabel && (emptyLabel || |m.linkLabel| > 0) && IsLinkTarget(m.target)
  }

  /** `LinkAt` returns `m` exactly when `m` is a match of the pattern at `p`; `None` means there is none. */
  lemma LinkAtExactly(line: string, p: nat, emptyLabel: bool, m: LinkMatch)
    requires p <= |line|
    ensures LinkAt(line, p, emptyLabel) == Some(m) <==> IsLinkMatchAt(line, p, emptyLabel, m)
  {
    if LinkAt(line, p, emptyLabel) == Some(m) {
      LinkAtIsMatch(line, p, emptyLabel);
    }
    if IsLinkMatchAt(line, p, emptyLabel, m) {
      LinkAtFinds(line, p, emptyLabel, m);
    }
  }

  /** What `LinkAt` returns is a match of the pattern. */
  lemma LinkAtIsMatch(line: string, p: nat, emptyLabel: bool)
    requires p <= |line| && LinkAt(line, p, emptyLabel).Some?
    ensures IsLinkMatchAt(line, p, emptyLabel, LinkAt(line, p, emptyLabel).value)
  {
    var q := p + 1 + IndexOfChar(line[p + 1..], ']');
    assert q + 1 < |line| && TargetEnd(line, q + 2).Some?;
    var e := TargetEnd(line, q + 2).value;
    assert LinkAt(line, p, emptyLabel).value == LinkMatch(line[p + 1..q], line[q + 2..e], p, e + 1);
    assert line[q] == line[p + 1..][q - p - 1];
  }

  /** Where the line holds a match of the pattern, `LinkAt` finds it. */
  lemma LinkAtFinds(line: string, p: nat, emptyLabel: bool, m: LinkMatch)
    requires p <= |line| && IsLinkMatchAt(line, p, emptyLabel, m)
    ensures LinkAt(line, p, emptyLabel) == Some(m)
  {
    var q := p + 1 + |m.linkLabel|;
    var e := m.end - 1;
    LabelEnd(line, p, m.linkLabel);
    TargetEndFinds(line, q + 2, e, m.target);
    LinkAtWhen(line, p, emptyLabel, q, e, m);
  }

  /** A label without `]` written after `[` at `p` ends at the first `]`. */
  lemma LabelEnd(line: string, p: nat, linkLabel: string)
    requires p + 1 + |linkLabel| < |line| && line[p + 1..p + 1 + |linkLabel|] == linkLabel
    requires line[p + 1 + |linkLabel|] == ']' && ']' !in linkLabel
    ensures IndexOfChar(line[p + 1..], ']') == |linkLabel|
  {
    var rest := line[p + 1..];
    assert rest[|linkLabel|] == ']';
    forall j | 0 <= j < |linkLabel| ensures rest[j] != ']' {
      assert rest[j] == linkLabel[j];
    }
  }

  /** The branch of `LinkAt` that returns a match. */
  lemma LinkAtWhen(line: string, p: nat, emptyLabel: bool, q: nat, e: nat, m: LinkMatch)
    requires p < |line| && line[p] == '[' && q == p + 1 + IndexOfChar(line[p + 1..], ']')
    requires q + 1 < |line| && line[q + 1] == '(' && (emptyLabel || q != p + 1)
    requires TargetEnd(line, q + 2) == Some(e) && m == LinkMatch(line[p + 1..q], line[q + 2..e], p, e + 1)
    ensures LinkAt(line, p, emptyLabel) == Some(m)
  {
  }

  /** A match covers exactly the text `[label](target)`. */
  lemma LinkAtText(line: string, p: nat, emptyLabel: bool)
    requires p <= |line|
    ensures var r := LinkAt(line, p, emptyLabel);
      r.Some? ==> line[p..r.value.end] == "[" + r.value.linkLabel + "](" + r.value.target + ")"
  {
    var r := LinkAt(line, p, emptyLabel);
    if r.Some? {
      var q := p + 1 + IndexOfChar(line[p + 1..], ']');
      assert q + 1 < |line| && TargetEnd(line, q + 2).Some?;
      var e := TargetEnd(line, q + 2).value;
      assert r.value == LinkMatch(line[p + 1..q], line[q + 2..e], p, e + 1);
      assert line[q] == line[p + 1..][q - p - 1];
      LinkText(line, p, q, e);
    }
  }

  /**
   * Matches of the link pattern as a global regex lists them: inside
   * `[from, n)`, in order and not overlapping, each with a link target and a
   * label without `]` (non-empty unless `emptyLabel`).
   */
  predicate WellFormedMatches(ms: seq<LinkMatch>, from: nat, n: nat, emptyLabel: bool) {
    (forall i :: 0 <= i < |ms| ==> from <= ms[i].start < ms[i].end <= n) &&
    (forall i :: 0 <= i < |ms| ==> IsLinkTarget(ms[i].target)) &&
    (forall i :: 0 <= i < |ms| ==> ']' !in ms[i].linkLabel && (emptyLabel || |ms[i].linkLabel| > 0)) &&
    (forall i :: 0 <= i < |ms| - 1 ==> ms[i].end <= ms[i + 1].start)
  }

  /** A well-formed match in front of well-formed matches that follow it stays well formed. */
  lemma ConsWellFormed(m: LinkMatch, rest: seq<LinkMatch>, from: nat, n: nat, emptyLabel: bool)
    requires from <= m.start < m.end <= n && IsLinkTarget(m.target)
    requires ']' !in m.linkLabel && (emptyLabel || |m.linkLabel| > 0)
    requires WellFormedMatches(rest, m.end, n, emptyLabel)
    ensures WellFormedMatches([m] + rest, from, n, emptyLabel)
  {
    var ms := [m] + rest;
    forall i | 0 <= i < |ms| - 1 ensures ms[i].end <= ms[i + 1].start {
      if i > 0 {
        assert ms[i] == rest[i - 1] && ms[i + 1] == rest[i];
      }
    }
  }

  /** The matches of the link pattern in `line` from index `p` on, left to right, as a global regex finds them. */
  function LinksFrom(line: string, p: nat, emptyLabel: bool): (ms: seq<LinkMatch>)
    requires p <= |line|
    decreases |line| - p
  {
    if p == |line| then []
    else
      var here := LinkAt(line, p, emptyLabel);
      if here.Some? then [here.value] + LinksFrom(line, here.value.end, emptyLabel)
      else LinksFrom(line, p + 1, emptyLabel)
  }

  /**
   * The matches lie inside the rest of the line, in order and without
   * overlapping, each with a link target and a label without `]`.
   */
  lemma {:induction false} LinksWellFormed(line: string, p: nat, emptyLabel: bool)
    requires p <= |line|
    ensures WellFormedMatches(LinksFrom(line, p, emptyLabel), p, |line|, emptyLabel)
    decreases |line| - p
  {
    if p < |line| {
      var q := WellFormedStep(line, p, emptyLabel);
      LinksWellFormed(line, q, emptyLabel);
    }
  }

  /** The list from `p` is well formed when the list from the next position the scan looks at is. */
  lemma WellFormedStep(line: string, p: nat, emptyLabel: bool) returns (q: nat)
    requires p < |line|
    ensures p < q <= |line|
    ensures WellFormedMatches(LinksFrom(line, q, emptyLabel), q, |line|, emptyLabel) ==>
      WellFormedMatches(LinksFrom(line, p, emptyLabel), p, |line|, emptyLabel)
  {
    if LinkAt(line, p, emptyLabel).Some? {
      var m := FirstLink(line, p, emptyLabel);
      q := m.end;
      if WellFormedMatches(LinksFrom(line, q, emptyLabel), q, |line|, emptyLabel) {
        ConsWellFormed(m, LinksFrom(line, q, emptyLabel), p, |line|, emptyLabel);
      }
    } else {
      NoLinkHere(line, p, emptyLabel);
      q := p + 1;
      if WellFormedMatches(LinksFrom(line, q, emptyLabel), q, |line|, emptyLabel) {
        WellFormedLater(LinksFrom(line, q, emptyLabel), p, q, |line|, emptyLabel);
      }
    }
  }

  /** A match at `p` is well formed and heads the list, which resumes at its end. */
  lemma FirstLink(line: string, p: nat, emptyLabel: bool) returns (m: LinkMatch)
    requires p < |line| && LinkAt(line, p, emptyLabel).Some?
    ensures p == m.start < m.end <= |line| && IsLinkTarget(m.target)
    ensures ']' !in m.linkLabel && (emptyLabel || |m.linkLabel| > 0)
    ensures LinksFrom(line, p, emptyLabel) == [m] + LinksFrom(line, m.end, emptyLabel)
  {
    m := LinkAt(line, p, emptyLabel).value;
    LinksFromStep(line, p, emptyLabel);
  }

  /** Without a match at `p` the list is the one from `p + 1`. */
  lemma NoLinkHere(line: string, p: nat, emptyLabel: bool)
    requires p < |line| && LinkAt(line, p, emptyLabel).None?
    ensures LinksFrom(line, p, emptyLabel) == LinksFrom(line, p + 1, emptyLabel)
  {
    LinksFromStep(line, p, emptyLabel);
  }

  /** One step of the scan: a match at `p` is listed and the scan resumes at its end, else it resumes at `p + 1`. */
  lemma LinksFromStep(line: string, p: nat, emptyLabel: bool)
    requires p < |line|
    ensures LinkAt(line, p, emptyLabel).Some? ==>
      LinksFrom(line, p, emptyLabel) ==
        [LinkAt(line, p, emptyLabel).value] + LinksFrom(line, LinkAt(line, p, emptyLabel).value.end, emptyLabel)
    ensures LinkAt(line, p, emptyLabel).None? ==> LinksFrom(line, p, emptyLabel) == LinksFrom(line, p + 1, emptyLabel)
  {
  }

  /** Matches well formed inside `[later, n)` are well formed inside any wider `[from, n)`. */
  lemma WellFormedLater(ms: seq<LinkMatch>, from: nat, later: nat, n: nat, emptyLabel: bool)
    requires from <= later && WellFormedMatches(ms, later, n, emptyLabel)
    ensures WellFormedMatches(ms, from, n, emptyLabel)
  {
  }

  /** Each of `ms` is what the pattern matches at its own start. */
  predicate MatchesAtTheirStarts(line: string, ms: seq<LinkMatch>, emptyLabel: bool) {
    |ms| == 0 ||
    (ms[0].start <= |line| && LinkAt(line, ms[0].start, emptyLabel) == Some(ms[0]) &&
     MatchesAtTheirStarts(line, ms[1..], emptyLabel))
  }

  /** Every match `LinksFrom` lists is a match of the pattern at its own start. */
  lemma {:induction false} LinksAreMatches(line: string, p: nat, emptyLabel: bool)
    requires p <= |line|
    ensures MatchesAtTheirStarts(line, LinksFrom(line, p, emptyLabel), emptyLabel)
    decreases |line| - p
  {
    if p < |line| {
      var here := LinkAt(line, p, emptyLabel);
      if here.Some? {
        var rest := LinksFrom(line, here.value.end, emptyLabel);
        LinksAreMatches(line, here.value.end, emptyLabel);
        ConsMatches(line, here.value, rest, emptyLabel);
        LinksFromStep(line, p, emptyLabel);
        assert LinksFrom(line, p, emptyLabel) == [here.value] + rest;
      } else {
        LinksAreMatches(line, p + 1, emptyLabel);
        LinksFromStep(line, p, emptyLabel);
        assert LinksFrom(line, p, emptyLabel) == LinksFrom(line, p + 1, emptyLabel);
      }
    }
  }

  /** A match of the pattern in front of matches keeps them all matches. */
  lemma ConsMatches(line: string, m: LinkMatch, rest: seq<LinkMatch>, emptyLabel: bool)
    requires m.start <= |line| && LinkAt(line, m.start, emptyLabel) == Some(m)
    requires MatchesAtTheirStarts(line, rest, emptyLabel)
    ensures MatchesAtTheirStarts(line, [m] + rest, emptyLabel)
  {
    assert ([m] + rest)[1..] == rest;
  }

  /** Index `j` lies in none of the spans of `ms`. */
  predicate OutsideMatches(ms: seq<LinkMatch>, j: nat) {
    forall k :: 0 <= k < |ms| ==> !(ms[k].start <= j < ms[k].end)
  }

  /** Outside the spans of `[m] + rest` is outside those of `rest`. */
  lemma OutsideTail(m: LinkMatch, rest: seq<LinkMatch>, j: nat)
    requires OutsideMatches([m] + rest, j)
    ensures !(m.start <= j < m.end) && OutsideMatches(rest, j)
  {
    assert ([m] + rest)[0] == m;
    forall k | 0 <= k < |rest| ensures !(rest[k].start <= j < rest[k].end) {
      assert ([m] + rest)[k + 1] == rest[k];
    }
  }

  /** The scan from `p` skips no match: at an index outside every listed span, the pattern does not match. */
  lemma {:induction false} LinksSkipNothingAt(line: string, p: nat, emptyLabel: bool, j: nat)
    requires p <= j < |line| && OutsideMatches(LinksFrom(line, p, emptyLabel), j)
    ensures LinkAt(line, j, emptyLabel).None?
    decreases |line| - p
  {
    if LinkAt(line, p, emptyLabel).Some? {
      var q := SkipLink(line, p, emptyLabel, j);
      LinksSkipNothingAt(line, q, emptyLabel, j);
    } else if p < j {
      SkipChar(line, p, emptyLabel, j);
      LinksSkipNothingAt(line, p + 1, emptyLabel, j);
    }
  }

  /** Past an index where no link starts, `j` stays outside the later spans. */
  lemma SkipChar(line: string, p: nat, emptyLabel: bool, j: nat)
    requires p <= j < |line| && OutsideMatches(LinksFrom(line, p, emptyLabel), j)
    requires LinkAt(line, p, emptyLabel).None?
    ensures p < j ==> OutsideMatches(LinksFrom(line, p + 1, emptyLabel), j)
  {
    NoLinkHere(line, p, emptyLabel);
  }

  /** An index outside the spans lies beyond the match at `p`, and outside the later spans. */
  lemma SkipLink(line: string, p: nat, emptyLabel: bool, j: nat) returns (q: nat)
    requires p <= j < |line| && OutsideMatches(LinksFrom(line, p, emptyLabel), j)
    requires LinkAt(line, p, emptyLabel).Some?
    ensures p < q <= j && OutsideMatches(LinksFrom(line, q, emptyLabel), j)
  {
    var m := FirstLink(line, p, emptyLabel);
    OutsideTail(m, LinksFrom(line, m.end, emptyLabel), j);
    q := m.end;
  }

  /**
   * `LinksFrom` lists what a global regex finds from `p`: well-formed matches
   * in order without overlaps, each the pattern's match at its own start,
   * and no match at any index outside their spans.
   */
  lemma LinksFromExactly(line: string, p: nat, emptyLabel: bool)
    requires p <= |line|
    ensures WellFormedMatches(LinksFrom(line, p, emptyLabel), p, |line|, emptyLabel)
    ensures MatchesAtTheirStarts(line, LinksFrom(line, p, emptyLabel), emptyLabel)
    ensures forall j :: p <= j < |line| && OutsideMatches(LinksFrom(line, p, emptyLabel), j) ==>
      LinkAt(line, j, emptyLabel).None?
  {
    LinksWellFormed(line, p, emptyLabel);
    LinksAreMatches(line, p, emptyLabel);
    forall j | p <= j < |line| && OutsideMatches(LinksFrom(line, p, emptyLabel), j)
      ensures LinkAt(line, j, emptyLabel).None?
    {
      LinksSkipNothingAt(line, p, emptyLabel, j);
    }
  }

  /** `line.matchAll(…)` for the labelled links of `line`. */
  function Links(line: string): seq<LinkMatch> {
    LinksFrom(line, 0, false)
  }

  /** The text from index `p` on with every match of the empty-label pattern removed. */
  function StripLinksFrom(line: string, p: nat): (r: string)
    requires p <= |line|
    decreases |line| - p
  {
    if p == |line| then ""
    else
      var here := LinkAt(line, p, true);
      if here.Some? then StripLinksFrom(line, here.value.end)
      else [line[p]] + StripLinksFrom(line, p + 1)
  }

  /** The total number of characters the matches cover. */
  function Covered(ms: seq<LinkMatch>): int {
    if |ms| == 0 then 0 else (ms[0].end - ms[0].start) + Covered(ms[1..])
  }

  /** One step of the removal: a match at `p` is skipped whole, any other character is kept. */
  lemma StripLinksFromStep(line: string, p: nat)
    requires p < |line|
    ensures LinkAt(line, p, true).Some? ==>
      StripLinksFrom(line, p) == StripLinksFrom(line, LinkAt(line, p, true).value.end)
    ensures LinkAt(line, p, true).None? ==> StripLinksFrom(line, p) == [line[p]] + StripLinksFrom(line, p + 1)
  {
  }

  /** What a match in front of others covers. */
  lemma CoveredCons(m: LinkMatch, rest: seq<LinkMatch>)
    ensures Covered([m] + rest) == (m.end - m.start) + Covered(rest)
  {
    assert ([m] + rest)[1..] == rest;
  }

  /** Removing the links keeps every other character: the stripped text is as long as the line less what the links cover. */
  lemma {:induction false} StripLength(line: string, p: nat)
    requires p <= |line|
    ensures |StripLinksFrom(line, p)| == |line| - p - Covered(LinksFrom(line, p, true))
    decreases |line| - p
  {
    if p < |line| {
      var q, c := StripNext(line, p);
      StripLength(line, q);
    }
  }

  /**
   * One step of the removal from `p` to the next position `q` it looks at:
   * `c` characters are dropped on the way, and they are what the first link
   * covers when one starts at `p`.
   */
  lemma StripNext(line: string, p: nat) returns (q: nat, c: int)
    requires p < |line|
    ensures p < q <= |line|
    ensures |StripLinksFrom(line, p)| == |StripLinksFrom(line, q)| + (q - p) - c
    ensures Covered(LinksFrom(line, p, true)) == c + Covered(LinksFrom(line, q, true))
  {
    if LinkAt(line, p, true).Some? {
      q := StripSkipsLink(line, p);
      c := q - p;
    } else {
      StripKeepsChar(line, p);
      q, c := p + 1, 0;
    }
  }

  /** A link at `p` is dropped whole, and it is the first match counted from `p`. */
  lemma StripSkipsLink(line: string, p: nat) returns (q: nat)
    requires p < |line| && LinkAt(line, p, true).Some?
    ensures p < q <= |line|
    ensures StripLinksFrom(line, p) == StripLinksFrom(line, q)
    ensures Covered(LinksFrom(line, p, true)) == (q - p) + Covered(LinksFrom(line, q, true))
  {
    var m := LinkAt(line, p, true).value;
    LinksFromStep(line, p, true);
    StripLinksFromStep(line, p);
    q := m.end;
    CoveredCons(m, LinksFrom(line, q, true));
  }

  /** A character where no link starts is kept, and no match starts there. */
  lemma StripKeepsChar(line: string, p: nat)
    requires p < |line| && LinkAt(line, p, true).None?
    ensures |StripLinksFrom(line, p)| == 1 + |StripLinksFrom(line, p + 1)|
    ensures LinksFrom(line, p, true) == LinksFrom(line, p + 1, true)
  {
    LinksFromStep(line, p, true);
    StripLinksFromStep(line, p);
  }

  /** Spans in order inside `[from, n)`: each starts at or after the end of the one before. */
  predicate Spans(ms: seq<LinkMatch>, from: nat, n: nat)
    decreases |ms|
  {
    |ms| == 0 || (from <= ms[0].start <= ms[0].end <= n && Spans(ms[1..], ms[0].end, n))
  }

  /** The text of `line` from `from` on that lies outside the spans of `ms`, piece by piece. */
  function Uncovered(line: string, from: nat, ms: seq<LinkMatch>): string
    requires from <= |line| && Spans(ms, from, |line|)
    decreases |ms|
  {
    if |ms| == 0 then line[from..]
    else line[from..ms[0].start] + Uncovered(line, ms[0].end, ms[1..])
  }

  /** One more character in front of the first span. */
  lemma UncoveredStep(line: string, p: nat, ms: seq<LinkMatch>)
    requires p < |line| && Spans(ms, p + 1, |line|)
    ensures Spans(ms, p, |line|)
    ensures Uncovered(line, p, ms) == [line[p]] + Uncovered(line, p + 1, ms)
  {
    if |ms| == 0 {
      assert line[p..] == [line[p]] + line[p + 1..];
    } else {
      var first := ms[0].start;
      var rest := Uncovered(line, ms[0].end, ms[1..]);
      assert Uncovered(line, p + 1, ms) == line[p + 1..first] + rest;
      assert Uncovered(line, p, ms) == line[p..first] + rest;
      assert line[p..first] == [line[p]] + line[p + 1..first];
    }
  }

  /** A link at `p` heads the list and is dropped whole by the removal. */
  lemma StripFirstLink(line: string, p: nat) returns (m: LinkMatch)
    requires p < |line| && LinkAt(line, p, true).Some?
    ensures p == m.start < m.end <= |line|
    ensures LinksFrom(line, p, true) == [m] + LinksFrom(line, m.end, true)
    ensures StripLinksFrom(line, p) == StripLinksFrom(line, m.end)
  {
    m := LinkAt(line, p, true).value;
    LinksFromStep(line, p, true);
    StripLinksFromStep(line, p);
  }

  /** A character where no link starts is kept by the removal. */
  lemma StripNoLinkHere(line: string, p: nat)
    requires p < |line| && LinkAt(line, p, true).None?
    ensures StripLinksFrom(line, p) == [line[p]] + StripLinksFrom(line, p + 1)
    ensures LinksFrom(line, p, true) == LinksFrom(line, p + 1, true)
  {
    NoLinkHere(line, p, true);
    StripLinksFromStep(line, p);
  }

  /**
   * `replace(…, "")` keeps exactly the text outside the matches: the
   * stripped line is the pieces between them, in order.
   */
  lemma {:induction false} StripKeepsUncovered(line: string, p: nat)
    requires p <= |line|
    ensures Spans(LinksFrom(line, p, true), p, |line|)
    ensures StripLinksFrom(line, p) == Uncovered(line, p, LinksFrom(line, p, true))
    decreases |line| - p
  {
    if p == |line| {
      assert LinksFrom(line, p, true) == [];
    } else {
      var q := UncoveredNext(line, p);
      StripKeepsUncovered(line, q);
    }
  }

  /** One step of `StripKeepsUncovered`: what holds from `q` on holds from `p` on. */
  lemma UncoveredNext(line: string, p: nat) returns (q: nat)
    requires p < |line|
    ensures p < q <= |line|
    ensures (Spans(LinksFrom(line, q, true), q, |line|) &&
             StripLinksFrom(line, q) == Uncovered(line, q, LinksFrom(line, q, true))) ==>
            (Spans(LinksFrom(line, p, true), p, |line|) &&
             StripLinksFrom(line, p) == Uncovered(line, p, LinksFrom(line, p, true)))
  {
    if LinkAt(line, p, true).Some? {
      var m := StripFirstLink(line, p);
      var rest := LinksFrom(line, m.end, true);
      q := m.end;
      assert ([m] + rest)[1..] == rest;
      assert line[p..m.start] == "";
    } else {
      StripNoLinkHere(line, p);
      q := p + 1;
      if Spans(LinksFrom(line, q, true), q, |line|) {
        UncoveredStep(line, p, LinksFrom(line, q, true));
      }
    }
  }

  /** A line without links is left as it is. */
  lemma {:induction false} StripWithoutLinks(line: string, p: nat)
    requires p <= |line| && LinksFrom(line, p, true) == []
    ensures StripLinksFrom(line, p) == line[p..]
    decreases |line| - p
  {
    if p < |line| {
      LinksFromStep(line, p, true);
      StripLinksFromStep(line, p);
      StripWithoutLinks(line, p + 1);
      assert line[p..] == [line[p]] + line[p + 1..];
    }
  }

  /** `line.replace(…, "")` with the empty-label pattern. */
  function StripLinks(line: string): string {
    StripLinksFrom(line, 0)
  }

  /**
   * The lazy `[^\s)]+?\.md` after a raw-path prefix whose body starts at `b`:
   * `j` is the candidate end of the body. The body grows one character at a
   * time while its characters stay in `[^\s)]`, and stops at the first `.md`.
   */
  function RawBodyEnd(s: string, b: nat, j: nat): (r: Option<nat>)
    requires b < j <= |s|
    requires forall i :: b <= i < j - 1 ==> IsTargetChar(s[i])
    ensures r.Some? ==> j <= r.value && r.value + 3 <= |s| && s[r.value..r.value + 3] == ".md"
    ensures r.Some? ==> forall i :: b <= i < r.value ==> IsTargetChar(s[i])
    decreases |s| - j
  {
    if !IsTargetChar(s[j - 1]) then None
    else if j + 3 <= |s| && s[j..j + 3] == ".md" then Some(j)
    else if j == |s| then None
    else RawBodyEnd(s, b, j + 1)
  }

  /** The raw-path pattern tried at index `p`: the matched text, when there is one. */
  function RawPathAt(s: string, p: nat): (r: Option<string>)
    requires p <= |s|
    ensures r.Some? ==> (StartsWith(r.value, "chapters/") || StartsWith(r.value, "./")) && EndsWith(r.value, ".md")
    ensures r.Some? ==> StartsWith(s[p..], r.value)
  {
    var k := if StartsWith(s[p..], "chapters/") then 9 else if StartsWith(s[p..], "./") then 2 else 0;
    if k == 0 || p + k >= |s| then None
    else
      match RawBodyEnd(s, p + k, p + k + 1)
      case None => None
      case Some(e) =>
        var raw := s[p..e + 3];
        assert raw[..k] == s[p..][..k];
        assert raw[|raw| - 3..] == s[e..e + 3];
        assert s[p..][..|raw|] == raw;
        Some(raw)
  }

  /** A body of `[^\s)]` characters from `b` to `e`, at least one long, followed by `.md`. */
  predicate RawBody(s: string, b: nat, e: nat) {
    b < e && e + 3 <= |s| && s[e..e + 3] == ".md" && forall i :: b <= i < e ==> IsTargetChar(s[i])
  }

  /** The raw-path pattern can match at `p` with its body ending at `e`. */
  predicate RawMatchEnd(s: string, p: nat, e: nat)
    requires p <= |s|
  {
    (StartsWith(s[p..], "chapters/") && RawBody(s, p + 9, e)) ||
    (StartsWith(s[p..], "./") && RawBody(s, p + 2, e))
  }

  /** The lazy body search reaches any body end `e` that lies ahead, or stops earlier at a shorter one. */
  lemma {:induction false} RawBodyEndFinds(s: string, b: nat, j: nat, e: nat)
    requires b < j <= e && RawBody(s, b, e)
    requires forall i :: b <= i < j - 1 ==> IsTargetChar(s[i])
    ensures RawBodyEnd(s, b, j).Some? && RawBodyEnd(s, b, j).value <= e
    decreases e - j
  {
    if !(j + 3 <= |s| && s[j..j + 3] == ".md") {
      RawBodyEndFinds(s, b, j + 1, e);
    }
  }

  /**
   * `RawPathAt` is the lazy pattern at `p`: what it returns is a match, and
   * it returns one, no longer than any other, whenever the pattern can
   * match there. So `None` means the pattern does not match at `p`.
   */
  lemma RawPathAtExactly(s: string, p: nat, e: nat)
    requires p <= |s|
    ensures RawPathAt(s, p).Some? ==> RawMatchEnd(s, p, p + |RawPathAt(s, p).value| - 3)
    ensures RawMatchEnd(s, p, e) ==> RawPathAt(s, p).Some? && p + |RawPathAt(s, p).value| - 3 <= e
  {
    if RawPathAt(s, p).Some? {
      RawPathAtIsMatch(s, p);
    }
    if RawMatchEnd(s, p, e) {
      RawPathAtFinds(s, p, e);
    }
  }

  /** The prefix length `RawPathAt` settles on: 9 for `chapters/`, 2 for `./`. */
  lemma RawPrefix(s: string, p: nat) returns (k: nat)
    requires p <= |s|
    ensures k == (if StartsWith(s[p..], "chapters/") then 9 else if StartsWith(s[p..], "./") then 2 else 0)
    ensures k == 9 <==> StartsWith(s[p..], "chapters/")
    ensures k == 2 <==> StartsWith(s[p..], "./")
  {
    if StartsWith(s[p..], "chapters/") {
      assert s[p..][0] == 'c';
      k := 9;
    } else if StartsWith(s[p..], "./") {
      k := 2;
    } else {
      k := 0;
    }
  }

  /** What `RawPathAt` returns is a match of the pattern. */
  lemma RawPathAtIsMatch(s: string, p: nat)
    requires p <= |s| && RawPathAt(s, p).Some?
    ensures RawMatchEnd(s, p, p + |RawPathAt(s, p).value| - 3)
  {
    var k := RawPrefix(s, p);
    var end := RawBodyEnd(s, p + k, p + k + 1).value;
    assert RawPathAt(s, p).value == s[p..end + 3];
    assert RawBody(s, p + k, end);
  }

  /** Where the pattern can match, `RawPathAt` returns a match no longer than it. */
  lemma RawPathAtFinds(s: string, p: nat, e: nat)
    requires p <= |s| && RawMatchEnd(s, p, e)
    ensures RawPathAt(s, p).Some? && p + |RawPathAt(s, p).value| - 3 <= e
  {
    var k := RawPrefix(s, p);
    RawBodyEndFinds(s, p + k, p + k + 1, e);
    RawPathAtWhen(s, p, k, RawBodyEnd(s, p + k, p + k + 1).value);
  }

  /** The branch of `RawPathAt` that returns a match. */
  lemma RawPathAtWhen(s: string, p: nat, k: nat, end: nat)
    requires p <= |s| && k == (if StartsWith(s[p..], "chapters/") then 9 else if StartsWith(s[p..], "./") then 2 else 0)
    requires k != 0 && p + k < |s| && RawBodyEnd(s, p + k, p + k + 1) == Some(end)
    ensures RawPathAt(s, p) == Some(s[p..end + 3])
  {
  }

  /** The first raw path of `s` at or after index `p`: `s.match(…)` when `p` is 0. */
  function RawPathFrom(s: string, p: nat): Option<string>
    requires p <= |s|
    decreases |s| - p
  {
    var here := RawPathAt(s, p);
    if here.Some? then here
    else if p == |s| then None
    else RawPathFrom(s, p + 1)
  }

  /** The raw-path pattern matches at no index in `[lo, hi)`. */
  predicate NoRawPathBetween(s: string, lo: nat, hi: nat)
    requires lo <= hi <= |s| + 1
    decreases hi - lo
  {
    lo == hi || (RawPathAt(s, lo).None? && NoRawPathBetween(s, lo + 1, hi))
  }

  /** No index of `[lo, hi)` matches when `NoRawPathBetween` holds. */
  lemma {:induction false} NoRawPathBetweenAt(s: string, lo: nat, hi: nat, j: nat)
    requires lo <= j < hi <= |s| + 1 && NoRawPathBetween(s, lo, hi)
    ensures RawPathAt(s, j).None?
    decreases j - lo
  {
    if lo < j {
      NoRawPathBetweenAt(s, lo + 1, hi, j);
    }
  }

  /** `NoRawPathBetween` holds when no index of `[lo, hi)` matches. */
  lemma {:induction false} NoRawPathBetweenOfAll(s: string, lo: nat, hi: nat)
    requires lo <= hi <= |s| + 1 && forall j :: lo <= j < hi ==> RawPathAt(s, j).None?
    ensures NoRawPathBetween(s, lo, hi)
    decreases hi - lo
  {
    if lo < hi {
      NoRawPathBetweenOfAll(s, lo + 1, hi);
    }
  }

  /** `NoRawPathBetween` says what its name says. */
  lemma NoRawPathBetweenMeans(s: string, lo: nat, hi: nat)
    requires lo <= hi <= |s| + 1
    ensures NoRawPathBetween(s, lo, hi) <==> (forall j :: lo <= j < hi ==> RawPathAt(s, j).None?)
  {
    if NoRawPathBetween(s, lo, hi) {
      forall j | lo <= j < hi
        ensures RawPathAt(s, j).None?
      {
        NoRawPathBetweenAt(s, lo, hi, j);
      }
    }
    if forall j :: lo <= j < hi ==> RawPathAt(s, j).None? {
      NoRawPathBetweenOfAll(s, lo, hi);
    }
  }

  /**
   * The search finds the pattern at the first index where it matches: what
   * it returns is a `chapters/` or `./` path ending in `.md` matched at some
   * index with no match before it, and nothing is returned only when no
   * index matches.
   */
  lemma {:induction false} RawPathFromExactly(s: string, p: nat)
    requires p <= |s|
    ensures var r := RawPathFrom(s, p);
      r.Some? ==> (StartsWith(r.value, "chapters/") || StartsWith(r.value, "./")) && EndsWith(r.value, ".md")
    ensures var r := RawPathFrom(s, p);
      r.Some? ==> exists i :: p <= i <= |s| && RawPathAt(s, i) == r && NoRawPathBetween(s, p, i)
    ensures RawPathFrom(s, p).None? ==> NoRawPathBetween(s, p, |s| + 1)
    decreases |s| - p
  {
    if RawPathAt(s, p).Some? {
      assert RawPathFrom(s, p) == RawPathAt(s, p);
      assert NoRawPathBetween(s, p, p);
    } else if p < |s| {
      RawPathFromExactly(s, p + 1);
      RawPathFromSkip(s, p);
      var r := RawPathFrom(s, p + 1);
      if r.Some? {
        var i :| p + 1 <= i <= |s| && RawPathAt(s, i) == r && NoRawPathBetween(s, p + 1, i);
        assert NoRawPathBetween(s, p, i);
      } else {
        assert NoRawPathBetween(s, p, |s| + 1);
      }
    } else {
      assert NoRawPathBetween(s, p + 1, |s| + 1);
    }
  }

  /** Where the pattern does not match, the search moves on to the next index. */
  lemma RawPathFromSkip(s: string, p: nat)
    requires p < |s| && RawPathAt(s, p).None?
    ensures RawPathFrom(s, p) == RawPathFrom(s, p + 1)
  {
  }

  /** The raw path `line` still shows once its links are removed, if any. */
  function VisibleRawPath(line: string): Option<string> {
    RawPathFrom(StripLinks(line), 0)
  }
}

/**
 * The prerequisite checks of `main`: references to the item itself or to an
 * unknown id, the ordering warnings (a prerequisite listed later in the
 * index than the item needing it), and the depth-first search that reports
 * prerequisite cycles.
 *
 * Numbers in parentheses are line numbers in `scripts/validate-index.mjs`.
 */
module Prerequisites {
  import opened Wrappers
  import opened Index
  import opened Diagnostics

  // ---------------------------------------------------------------------------
  // `allItemIds` (275)
  // ---------------------------------------------------------------------------

  /**
   * The set `new Set(items.map((i) => i.itemId).filter(Boolean))` after the
   * first `n` items, as the sequence it iterates in: insertion order.
   */
  function AllItemIds(items: seq<Item>, n: nat): seq<Value>
    requires n <= |items|
  {
    if n == 0 then []
    else
      var ids := AllItemIds(items, n - 1);
      var v := items[n - 1].itemId;
      if Truthy(v) && v !in ids then ids + [v] else ids
  }

  /** The set holds the truthy ids of the items and nothing else. */
  lemma {:induction false} AllItemIdsMembers(items: seq<Item>, n: nat)
    requires n <= |items|
    ensures forall v :: v in AllItemIds(items, n) <==> Truthy(v) && exists i :: 0 <= i < n && items[i].itemId == v
  {
    if n > 0 {
      AllItemIdsMembers(items, n - 1);
      var ids := AllItemIds(items, n - 1);
      var v := items[n - 1].itemId;
      assert AllItemIds(items, n) == if Truthy(v) && v !in ids then ids + [v] else ids;
    }
  }

  /** The set holds each id once. */
  lemma {:induction false} AllItemIdsDistinct(items: seq<Item>, n: nat)
    requires n <= |items|
    ensures forall i, j :: 0 <= i < j < |AllItemIds(items, n)| ==> AllItemIds(items, n)[i] != AllItemIds(items, n)[j]
  {
    if n > 0 {
      AllItemIdsDistinct(items, n - 1);
      var ids := AllItemIds(items, n - 1);
      var v := items[n - 1].itemId;
      if Truthy(v) && v !in ids {
        var all := ids + [v];
        assert AllItemIds(items, n) == all;
        forall i, j | 0 <= i < j < |all| ensures all[i] != all[j] {
          if j == |ids| {
            assert all[i] in ids;
          }
        }
      }
    }
  }

  /** An id comes before another in the set when it first appears earlier among the items. */
  lemma {:induction false} AllItemIdsInFirstOrder(items: seq<Item>, n: nat)
    requires n <= |items|
    ensures forall i, j :: 0 <= i < j < |AllItemIds(items, n)| ==>
      FirstIndexOf(items, AllItemIds(items, n)[i]) < FirstIndexOf(items, AllItemIds(items, n)[j])
  {
    if n > 0 {
      AllItemIdsInFirstOrder(items, n - 1);
      var ids := AllItemIds(items, n - 1);
      var v := items[n - 1].itemId;
      if Truthy(v) && v !in ids {
        AllItemIdsMembers(items, n - 1);
        forall i | 0 <= i < n - 1 ensures items[i].itemId != v {
        }
        FirstIndexOfBounds(items, v, n - 1);
        assert FirstIndexOf(items, v) == n - 1;
        var all := ids + [v];
        assert AllItemIds(items, n) == all;
        forall i, j | 0 <= i < j < |all| ensures FirstIndexOf(items, all[i]) < FirstIndexOf(items, all[j]) {
          if j == |ids| {
            assert ids[i] in ids;
            var k :| 0 <= k < n - 1 && items[k].itemId == ids[i];
            FirstIndexOfBounds(items, ids[i], k);
          }
        }
      }
    }
  }

  /** The index of the first item whose id is `v`, or `|items|` when there is none. */
  function FirstIndexOf(items: seq<Item>, v: Value): (r: nat)
    ensures r <= |items|
    ensures r < |items| ==> items[r].itemId == v
    ensures forall i :: 0 <= i < r ==> items[i].itemId != v
  {
    if |items| == 0 then 0
    else if items[0].itemId == v then 0
    else 1 + FirstIndexOf(items[1..], v)
  }

  lemma FirstIndexOfBounds(items: seq<Item>, v: Value, j: nat)
    requires j < |items| && items[j].itemId == v
    ensures FirstIndexOf(items, v) <= j
  {
  }

  // ---------------------------------------------------------------------------
  // Self and unknown references (276-287)
  // ---------------------------------------------------------------------------

  /** The error, if any, for one entry `prereq` of an item's prerequisites. */
  function ReferenceError(item: Item, prereq: Value, ids: seq<Value>): (r: seq<Diagnostic>)
    ensures |r| <= 1
    ensures SelfPrerequisite(RefOf(item)) in r <==> prereq == item.itemId
    ensures UnknownPrerequisite(RefOf(item), prereq) in r <==> prereq != item.itemId && prereq !in ids
    ensures forall d :: d in r ==> d == SelfPrerequisite(RefOf(item)) || d == UnknownPrerequisite(RefOf(item), prereq)
  {
    if prereq == item.itemId then [SelfPrerequisite(RefOf(item))]
    else if prereq !in ids then [UnknownPrerequisite(RefOf(item), prereq)]
    else []
  }

  /** The errors of the first `m` prerequisites of an item. */
  function EntriesErrors(item: Item, ids: seq<Value>, m: nat): seq<Diagnostic>
    requires m <= |PrerequisiteList(item)|
  {
    if m == 0 then []
    else EntriesErrors(item, ids, m - 1) + ReferenceError(item, PrerequisiteList(item)[m - 1], ids)
  }

  /** The reference errors of one item: none when its prerequisites are not an array. */
  function ItemReferenceErrors(item: Item, ids: seq<Value>): seq<Diagnostic> {
    EntriesErrors(item, ids, |PrerequisiteList(item)|)
  }

  /** The reference errors of the first `n` items. */
  function ReferenceErrors(items: seq<Item>, ids: seq<Value>, n: nat): seq<Diagnostic>
    requires n <= |items|
  {
    if n == 0 then [] else ReferenceErrors(items, ids, n - 1) + ItemReferenceErrors(items[n - 1], ids)
  }

  /** An entry the reference check reports: the item's own id, or an id no item has. */
  predicate Reported(item: Item, ids: seq<Value>, prereq: Value) {
    prereq == item.itemId || prereq !in ids
  }

  /** Every reference error of an item is the error of one of its reported entries. */
  lemma {:induction false} EntriesErrorsSound(item: Item, ids: seq<Value>, m: nat)
    requires m <= |PrerequisiteList(item)|
    ensures |EntriesErrors(item, ids, m)| <= m
    ensures forall d :: d in EntriesErrors(item, ids, m) ==>
      (d == SelfPrerequisite(RefOf(item)) && item.itemId in PrerequisiteList(item)) ||
      (d.UnknownPrerequisite? && d.item == RefOf(item) && d.prerequisite in PrerequisiteList(item) &&
       d.prerequisite != item.itemId && d.prerequisite !in ids)
  {
    if m > 0 {
      EntriesErrorsSound(item, ids, m - 1);
      var entries := PrerequisiteList(item);
      var prev := EntriesErrors(item, ids, m - 1);
      var last := ReferenceError(item, entries[m - 1], ids);
      assert entries[m - 1] in entries;
      forall d | d in prev + last
        ensures (d == SelfPrerequisite(RefOf(item)) && item.itemId in entries) ||
          (d.UnknownPrerequisite? && d.item == RefOf(item) && d.prerequisite in entries &&
           d.prerequisite != item.itemId && d.prerequisite !in ids)
      {
        if d !in prev {
          assert d in last;
        }
      }
    }
  }

  /** Every reported entry among the first `m` gets its error, of the one kind that applies. */
  lemma {:induction false} EntriesErrorsComplete(item: Item, ids: seq<Value>, m: nat, k: nat)
    requires k < m <= |PrerequisiteList(item)|
    requires Reported(item, ids, PrerequisiteList(item)[k])
    ensures PrerequisiteList(item)[k] == item.itemId ==> SelfPrerequisite(RefOf(item)) in EntriesErrors(item, ids, m)
    ensures PrerequisiteList(item)[k] != item.itemId ==>
      UnknownPrerequisite(RefOf(item), PrerequisiteList(item)[k]) in EntriesErrors(item, ids, m)
  {
    if k < m - 1 {
      EntriesErrorsComplete(item, ids, m - 1, k);
    }
  }

  /** One item's entries, in order (278-286). */
  method CheckItemReferences(item: Item, ids: seq<Value>, sink: Sink)
    modifies sink
    ensures sink.errors == old(sink.errors) + ItemReferenceErrors(item, ids)
    ensures sink.warnings == old(sink.warnings)
  {
    if !item.prerequisites.Arr? {
      return;
    }
    var entries := item.prerequisites.elems;
    for k := 0 to |entries|
      invariant sink.errors == old(sink.errors) + EntriesErrors(item, ids, k)
      invariant sink.warnings == old(sink.warnings)
    {
      var prereqId := entries[k];
      if prereqId == item.itemId {
        sink.Error(SelfPrerequisite(RefOf(item)));
      } else if prereqId !in ids {
        sink.Error(UnknownPrerequisite(RefOf(item), prereqId));
      }
      Regroup2(old(sink.errors), EntriesErrors(item, ids, k), ReferenceError(item, prereqId, ids));
    }
  }

  /** The loop over the items (276-287). */
  method CheckReferences(items: seq<Item>, ids: seq<Value>, sink: Sink)
    modifies sink
    ensures sink.errors == old(sink.errors) + ReferenceErrors(items, ids, |items|)
    ensures sink.warnings == old(sink.warnings)
  {
    for i := 0 to |items|
      invariant sink.errors == old(sink.errors) + ReferenceErrors(items, ids, i)
      invariant sink.warnings == old(sink.warnings)
    {
      CheckItemReferences(items[i], ids, sink);
      Regroup2(old(sink.errors), ReferenceErrors(items, ids, i), ItemReferenceErrors(items[i], ids));
    }
  }

  // ---------------------------------------------------------------------------
  // Ordering (289-303)
  // ---------------------------------------------------------------------------

  /** `itemIdToOrder` after the first `n` items: every id, falsy ones included, to the index of its last item. */
  function OrderMap(items: seq<Item>, n: nat): map<Value, nat>
    requires n <= |items|
  {
    if n == 0 then map[] else OrderMap(items, n - 1)[items[n - 1].itemId := n - 1]
  }

  /** An id has a position exactly when some item has it, and the position is that of the last such item. */
  lemma {:induction false} OrderMapLastIndex(items: seq<Item>, n: nat, v: Value)
    requires n <= |items|
    ensures v in OrderMap(items, n) <==> exists i :: 0 <= i < n && items[i].itemId == v
    ensures v in OrderMap(items, n) ==>
      var p := OrderMap(items, n)[v];
      p < n && items[p].itemId == v && forall j :: p < j < n ==> items[j].itemId != v
  {
    if n > 0 {
      OrderMapLastIndex(items, n - 1, v);
    }
  }

  /** `new Map(items.map((item, index) => [item.itemId, index]))`. */
  method BuildOrderMap(items: seq<Item>) returns (order: map<Value, nat>)
    ensures order == OrderMap(items, |items|)
  {
    order := map[];
    for i := 0 to |items|
      invariant order == OrderMap(items, i)
    {
      order := order[items[i].itemId := i];
    }
  }

  /** The warning, if any, for one prerequisite entry of an item. */
  function OrderWarning(order: map<Value, nat>, item: Item, prereq: Value): seq<Diagnostic> {
    if prereq in order && item.itemId in order && order[prereq] > order[item.itemId]
    then [PrerequisiteAfter(RefOf(item), prereq)]
    else []
  }

  /** The warnings of the first `m` prerequisites of an item. */
  function EntriesWarnings(order: map<Value, nat>, item: Item, m: nat): seq<Diagnostic>
    requires m <= |PrerequisiteList(item)|
  {
    if m == 0 then []
    else EntriesWarnings(order, item, m - 1) + OrderWarning(order, item, PrerequisiteList(item)[m - 1])
  }

  function ItemOrderWarnings(order: map<Value, nat>, item: Item): seq<Diagnostic> {
    EntriesWarnings(order, item, |PrerequisiteList(item)|)
  }

  /** The ordering warnings of the first `n` items. */
  function OrderWarnings(order: map<Value, nat>, items: seq<Item>, n: nat): seq<Diagnostic>
    requires n <= |items|
  {
    if n == 0 then [] else OrderWarnings(order, items, n - 1) + ItemOrderWarnings(order, items[n - 1])
  }

  /**
   * Over the map `main` builds, an entry of an item of the list is warned
   * about exactly when some item with the entry as its id comes after every
   * item having this item's id; the item's own position is always known.
   */
  lemma OrderWarningExactly(items: seq<Item>, i: nat, prereq: Value)
    requires i < |items|
    ensures items[i].itemId in OrderMap(items, |items|)
    ensures OrderWarning(OrderMap(items, |items|), items[i], prereq) != [] <==> ListedAfter(items, prereq, items[i].itemId)
    ensures OrderWarning(OrderMap(items, |items|), items[i], prereq) != [] ==>
      OrderWarning(OrderMap(items, |items|), items[i], prereq) == [PrerequisiteAfter(RefOf(items[i]), prereq)]
  {
    var order := OrderMap(items, |items|);
    var own := items[i].itemId;
    OrderMapLastIndex(items, |items|, own);
    var pi := order[own];
    OrderMapLastIndex(items, |items|, prereq);
    if prereq in order {
      var pp := order[prereq];
      if pp > pi {
        assert ListedAfter(items, prereq, own) by {
          forall h | 0 <= h < |items| && items[h].itemId == own ensures h < pp {
          }
        }
      } else {
        assert !ListedAfter(items, prereq, own) by {
          forall j | 0 <= j < |items| && items[j].itemId == prereq
            ensures exists h :: 0 <= h < |items| && items[h].itemId == own && !(h < j)
          {
            assert items[pi].itemId == own && j <= pp <= pi;
          }
        }
      }
    }
  }

  /** Some item with id `a` comes after every item with id `b`. */
  predicate ListedAfter(items: seq<Item>, a: Value, b: Value) {
    exists j :: 0 <= j < |items| && items[j].itemId == a &&
      forall h :: 0 <= h < |items| && items[h].itemId == b ==> h < j
  }

  /** The warnings of an item's entries: exactly one per entry whose warning fires, in order. */
  lemma {:induction false} EntriesWarningsExactly(order: map<Value, nat>, item: Item, m: nat)
    requires m <= |PrerequisiteList(item)|
    ensures forall d :: d in EntriesWarnings(order, item, m) <==>
      exists k :: 0 <= k < m && d in OrderWarning(order, item, PrerequisiteList(item)[k])
    ensures |EntriesWarnings(order, item, m)| <= m
  {
    if m > 0 {
      EntriesWarningsExactly(order, item, m - 1);
      var prev := EntriesWarnings(order, item, m - 1);
      var last := OrderWarning(order, item, PrerequisiteList(item)[m - 1]);
      forall d ensures d in prev + last <==>
        exists k :: 0 <= k < m && d in OrderWarning(order, item, PrerequisiteList(item)[k])
      {
        if exists k :: 0 <= k < m && d in OrderWarning(order, item, PrerequisiteList(item)[k]) {
          var k :| 0 <= k < m && d in OrderWarning(order, item, PrerequisiteList(item)[k]);
          if k < m - 1 {
            assert d in prev;
          }
        }
      }
    }
  }

  /** One item's entries (292-302). */
  method CheckItemOrder(order: map<Value, nat>, item: Item, sink: Sink)
    modifies sink
    ensures sink.warnings == old(sink.warnings) + ItemOrderWarnings(order, item)
    ensures sink.errors == old(sink.errors)
  {
    if !item.prerequisites.Arr? {
      return;
    }
    var entries := item.prerequisites.elems;
    for k := 0 to |entries|
      invariant sink.warnings == old(sink.warnings) + EntriesWarnings(order, item, k)
      invariant sink.errors == old(sink.errors)
    {
      var prereqId := entries[k];
      if prereqId !in order || item.itemId !in order {
        continue;
      }
      var prereqOrder := order[prereqId];
      var itemOrder := order[item.itemId];
      if prereqOrder > itemOrder {
        sink.Warn(PrerequisiteAfter(RefOf(item), prereqId));
      }
    }
  }

  /** The ordering check (290-303). */
  method CheckOrder(items: seq<Item>, sink: Sink)
    modifies sink
    ensures sink.warnings == old(sink.warnings) + OrderWarnings(OrderMap(items, |items|), items, |items|)
    ensures sink.errors == old(sink.errors)
  {
    var order := BuildOrderMap(items);
    for i := 0 to |items|
      invariant sink.warnings == old(sink.warnings) + OrderWarnings(order, items, i)
      invariant sink.errors == old(sink.errors)
    {
      CheckItemOrder(order, items[i], sink);
      Regroup2(old(sink.warnings), OrderWarnings(order, items, i), ItemOrderWarnings(order, items[i]));
    }
  }

  // ---------------------------------------------------------------------------
  // Cycles (305-330)
  // ---------------------------------------------------------------------------

  /** `items.find((x) => x.itemId === id)`: the first item with id `id`. */
  function FindItem(items: seq<Item>, id: Value): (r: Option<Item>)
    ensures r.Some? <==> exists i :: 0 <= i < |items| && items[i].itemId == id
    ensures r.Some? ==> r.value == items[FirstIndexOf(items, id)]
  {
    var i := FirstIndexOf(items, id);
    if i < |items| then Some(items[i]) else None
  }

  /** The ids the search goes to from `id`: the prerequisites of the first item with that id. */
  function Successors(items: seq<Item>, id: Value): seq<Value> {
    var found := FindItem(items, id);
    if found.Some? then PrerequisiteList(found.value) else []
  }

  /** An edge of the prerequisite graph the search walks. */
  predicate Edge(items: seq<Item>, a: Value, b: Value) {
    b in Successors(items, a)
  }

  /** A walk along edges. */
  predicate IsPath(items: seq<Item>, p: seq<Value>) {
    forall k :: 0 <= k < |p| - 1 ==> Edge(items, p[k], p[k + 1])
  }

  /** A closed walk: what a reported cycle must be. */
  predicate IsCycle(items: seq<Item>, c: seq<Value>) {
    |c| >= 2 && c[0] == c[|c| - 1] && IsPath(items, c)
  }

  /** Every value the search can be asked about: the items' ids and their prerequisite entries. */
  ghost function Universe(items: seq<Item>): set<Value> {
    (set i | 0 <= i < |items| :: items[i].itemId) +
    (set i, k | 0 <= i < |items| && 0 <= k < |PrerequisiteList(items[i])| :: PrerequisiteList(items[i])[k])
  }

  lemma SuccessorsInUniverse(items: seq<Item>, id: Value, k: nat)
    requires k < |Successors(items, id)|
    ensures Successors(items, id)[k] in Universe(items)
  {
    var i := FirstIndexOf(items, id);
    assert PrerequisiteList(items[i])[k] == Successors(items, id)[k];
  }

  /** `after` is `before` followed by errors that are all cycles of the graph. */
  predicate CyclesAppended(items: seq<Item>, before: seq<Diagnostic>, after: seq<Diagnostic>) {
    |before| <= |after| && after[..|before|] == before &&
    forall k :: |before| <= k < |after| ==> after[k].PrerequisiteCycle? && IsCycle(items, after[k].cycle)
  }

  lemma CyclesAppendedTransitive(items: seq<Item>, a: seq<Diagnostic>, b: seq<Diagnostic>, c: seq<Diagnostic>)
    requires CyclesAppended(items, a, b) && CyclesAppended(items, b, c)
    ensures CyclesAppended(items, a, c)
  {
    assert c[..|a|] == c[..|b|][..|a|];
  }

  /** The state of the search: `visiting`, `visited` and `stack`, and the error list it reports to. */
  class CycleSearch {
    const items: seq<Item>
    ghost const universe: set<Value>
    const sink: Sink
    var visiting: set<Value>
    var visited: set<Value>
    var stack: seq<Value>

    /**
     * `visiting` holds exactly the ids on the stack, each once; the stack is a
     * walk along edges; nothing is both visiting and visited.
     */
    ghost predicate Valid()
      reads this
    {
      universe == Universe(items) &&
      (forall v :: v in visiting <==> v in stack) &&
      (forall i, j :: 0 <= i < j < |stack| ==> stack[i] != stack[j]) &&
      IsPath(items, stack) &&
      visiting * visited == {} &&
      visiting <= universe && visited <= universe
    }

    constructor (items: seq<Item>, sink: Sink)
      ensures this.items == items && this.sink == sink
      ensures visiting == {} && visited == {} && stack == []
      ensures Valid()
    {
      this.items := items;
      this.universe := Universe(items);
      this.sink := sink;
      visiting, visited, stack := {}, {}, [];
    }

    /**
     * `dfs(itemId)`: a visited id is not expanded again; an id on the stack
     * closes a cycle, which is reported; any other id is expanded, its
     * successors searched in order, and it ends visited. The stack and
     * `visiting` are restored on return and `visited` only grows.
     */
    method Dfs(id: Value)
      requires Valid() && id in universe
      requires |stack| > 0 ==> Edge(items, stack[|stack| - 1], id)
      modifies this, sink
      decreases universe - visiting - visited
      ensures Valid()
      ensures stack == old(stack) && visiting == old(visiting)
      ensures old(visited) <= visited
      ensures old(id in visited) ==> visited == old(visited) && sink.errors == old(sink.errors)
      ensures id in visited || old(id in visiting)
      ensures CyclesAppended(items, old(sink.errors), sink.errors)
      ensures sink.warnings == old(sink.warnings)
    {
      if id in visited {
        return;
      }
      if id in visiting {
        ReportCycle(id);
        return;
      }
      ghost var measure := universe - visiting - visited;
      assert id in measure;
      Enter(id);
      assert id !in universe - visiting - visited;
      var next := Successors(items, id);
      for k := 0 to |next|
        invariant Valid()
        invariant stack == old(stack) + [id] && visiting == old(visiting) + {id}
        invariant old(visited) <= visited && id !in visited
        invariant universe - visiting - visited < measure
        invariant CyclesAppended(items, old(sink.errors), sink.errors)
        invariant sink.warnings == old(sink.warnings)
      {
        SuccessorsInUniverse(items, id, k);
        ghost var e1 := sink.errors;
        Dfs(next[k]);
        assert id in visiting && id !in visiting * visited;
        CyclesAppendedTransitive(items, old(sink.errors), e1, sink.errors);
      }
      Leave(id);
    }

    /** An id on the stack reached again: the stack from its first occurrence, closed with it, is reported. */
    method ReportCycle(id: Value)
      requires Valid() && id in visiting
      requires |stack| > 0 ==> Edge(items, stack[|stack| - 1], id)
      modifies sink
      ensures CyclesAppended(items, old(sink.errors), sink.errors)
      ensures |sink.errors| == |old(sink.errors)| + 1
      ensures sink.warnings == old(sink.warnings)
    {
      var start := IndexOfValue(stack, id);
      var cycle := stack[start..] + [id];
      CycleOfStack(start, id);
      sink.Error(PrerequisiteCycle(cycle));
    }

    /** `visiting.add(id); stack.push(id)`. */
    method Enter(id: Value)
      requires Valid() && id in universe && id !in visiting && id !in visited
      requires |stack| > 0 ==> Edge(items, stack[|stack| - 1], id)
      modifies this
      ensures Valid()
      ensures stack == old(stack) + [id] && visiting == old(visiting) + {id} && visited == old(visited)
    {
      visiting := visiting + {id};
      stack := stack + [id];
      assert IsPath(items, stack) by {
        forall k | 0 <= k < |stack| - 1 ensures Edge(items, stack[k], stack[k + 1]) {
          if k < |stack| - 2 {
            assert stack[k] == old(stack)[k] && stack[k + 1] == old(stack)[k + 1];
          }
        }
      }
    }

    /** `stack.pop(); visiting.delete(id); visited.add(id)`. */
    method Leave(id: Value)
      requires Valid() && |stack| > 0 && stack[|stack| - 1] == id && id in universe
      modifies this
      ensures Valid()
      ensures stack == old(stack)[..|old(stack)| - 1] && visiting == old(visiting) - {id}
      ensures visited == old(visited) + {id}
    {
      stack := stack[..|stack| - 1];
      visiting := visiting - {id};
      visited := visited + {id};
      assert forall v :: v in old(stack) <==> v in stack || v == id;
    }

    /** The stack from the first occurrence of `id` on, closed with `id`, is a cycle. */
    lemma CycleOfStack(start: nat, id: Value)
      requires Valid() && |stack| > 0 && Edge(items, stack[|stack| - 1], id)
      requires start < |stack| && stack[start] == id
      ensures IsCycle(items, stack[start..] + [id])
    {
      var c := stack[start..] + [id];
      forall k | 0 <= k < |c| - 1 ensures Edge(items, c[k], c[k + 1]) {
        if k < |c| - 2 {
          assert c[k] == stack[start + k] && c[k + 1] == stack[start + k + 1];
        }
      }
    }
  }

  /** `stack.indexOf(id)` for an id on the stack. */
  function IndexOfValue(s: seq<Value>, v: Value): (r: nat)
    requires v in s
    ensures r < |s| && s[r] == v
    ensures forall i :: 0 <= i < r ==> s[i] != v
  {
    if s[0] == v then 0 else 1 + IndexOfValue(s[1..], v)
  }

  /**
   * `for (const itemId of allItemIds) dfs(itemId)`: every truthy id is
   * searched, and every error reported is a cycle of the prerequisite graph.
   */
  method DetectCycles(items: seq<Item>, sink: Sink)
    modifies sink
    ensures CyclesAppended(items, old(sink.errors), sink.errors)
    ensures sink.warnings == old(sink.warnings)
  {
    var roots := AllItemIds(items, |items|);
    AllItemIdsMembers(items, |items|);
    var search := new CycleSearch(items, sink);
    for r := 0 to |roots|
      invariant search.Valid() && search.items == items && search.sink == sink
      invariant search.stack == [] && search.visiting == {}
      invariant forall q :: 0 <= q < r ==> roots[q] in search.visited
      invariant CyclesAppended(items, old(sink.errors), sink.errors)
      invariant sink.warnings == old(sink.warnings)
    {
      var root := roots[r];
      assert root in Universe(items) by {
        assert root in roots;
        var i :| 0 <= i < |items| && items[i].itemId == root;
      }
      ghost var e1 := sink.errors;
      search.Dfs(root);
      CyclesAppendedTransitive(items, old(sink.errors), e1, sink.errors);
    }
  }
}

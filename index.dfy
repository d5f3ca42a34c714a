/**
 * The curriculum index as the validator sees it after `JSON.parse`: units
 * (`chapters`) holding items whose fields may have any JSON type or be
 * missing. The fields stay loosely typed (`Value`) because checking their
 * types is the validator's job.
 */
module Index {
  import opened Text
  import opened Wrappers

  /**
   * A JSON value, or `Missing` for a field that is absent (`undefined`).
   * Arrays and objects carry a reference tag: `JSON.parse` creates a fresh
   * object for each occurrence, and JavaScript compares objects by identity,
   * so two occurrences are equal here only when their tags are. The index
   * is taken to give distinct occurrences distinct tags.
   */
  datatype Value =
    | Missing
    | Null
    | Bool(b: bool)
    | Num(x: real)
    | Infinite(negative: bool)
    | Str(s: string)
    | Arr(ref: nat, elems: seq<Value>)
    | Obj(ref: nat)

  /** `isNonEmptyString`: a string holding a character other than white space. */
  predicate IsNonEmptyString(v: Value) {
    v.Str? && !AllSpace(v.s)
  }

  /** The predicate is the source's test: a string that does not trim to "". */
  lemma NonEmptyStringIffTrimmed(v: Value)
    ensures IsNonEmptyString(v) <==> v.Str? && Trim(v.s) != ""
  {
  }

  /** `isNonNegativeNumber`: a finite number that is at least 0. */
  predicate IsNonNegativeNumber(v: Value) {
    v.Num? && v.x >= 0.0
  }

  /** `isPositiveNumber`: a finite number above 0. */
  predicate IsPositiveNumber(v: Value) {
    v.Num? && v.x > 0.0
  }

  /** JavaScript truthiness, as `filter(Boolean)` applies it. */
  predicate Truthy(v: Value) {
    match v
    case Missing => false
    case Null => false
    case Bool(b) => b
    case Num(x) => x != 0.0
    case Infinite(_) => true
    case Str(s) => s != ""
    case Arr(_, _) => true
    case Obj(_) => true
  }

  /** The fields of one entry of a unit's `items` array; an entry that is not an object has every field `Missing`. */
  datatype RawItem = RawItem(
    id: Value,
    title: Value,
    path: Value,
    estimatedMinutes: Value,
    practiceMinutes: Value,
    hasAssignment: Value,
    difficulty: Value,
    kind: Value,
    tags: Value,
    prerequisites: Value)

  /**
   * One entry of `chapters`. `items` is None when the field is not an array;
   * an entry that is not an object has `Missing` fields and no items.
   */
  datatype RawUnit = RawUnit(id: Value, title: Value, items: Option<seq<RawItem>>)

  /** The outcome of reading and parsing the index file. */
  datatype IndexDocument =
    | Unreadable
    | NotAnObject
    | IndexObject(chapters: Option<seq<RawUnit>>)

  /** One item of the flattened list: the item's fields and the id of its unit. */
  datatype Item = Item(
    unitId: Value,
    itemId: Value,
    title: Value,
    path: Value,
    estimatedMinutes: Value,
    practiceMinutes: Value,
    hasAssignment: Value,
    difficulty: Value,
    kind: Value,
    tags: Value,
    prerequisites: Value)

  /** `chapter?.id ?? "(missing-unit-id)"`. */
  function UnitIdOf(c: RawUnit): (r: Value)
    ensures !r.Missing? && !r.Null?
    ensures !c.id.Missing? && !c.id.Null? ==> r == c.id
    ensures c.id.Missing? || c.id.Null? ==> r == Str("(missing-unit-id)")
  {
    if c.id.Missing? || c.id.Null? then Str("(missing-unit-id)") else c.id
  }

  /** The record `main` pushes for one raw item of the unit with id `unitId`. */
  function ToItem(unitId: Value, raw: RawItem): Item {
    Item(unitId, raw.id, raw.title, raw.path, raw.estimatedMinutes, raw.practiceMinutes,
         raw.hasAssignment, raw.difficulty, raw.kind, raw.tags, raw.prerequisites)
  }

  /** The prerequisites of an item when they form an array, else none. */
  function PrerequisiteList(it: Item): seq<Value> {
    if it.prerequisites.Arr? then it.prerequisites.elems else []
  }
}

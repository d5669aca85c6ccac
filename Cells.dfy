/**
 * The worksheet grid as values: cell values, the sparse grid of them,
 * merge ranges, and how a coordinate resolves to the anchor (top-left cell)
 * of the merge range that covers it.
 */
module Cells {
  import opened Wrappers
  import opened Strings

  /** A cell value as openpyxl hands it over: `None`, an `int` or a `str`. */
  datatype Value = Empty | Int(i: int) | Str(s: string)

  /** A 1-based (row, column) address. */
  type Coord = (int, int)

  /** The values of a sheet; an address missing from the map holds `None`. */
  type Grid = map<Coord, Value>

  /** `ws.cell(row=r, column=c).value`. */
  function Get(g: Grid, r: int, c: int): Value
  {
    if (r, c) in g then g[(r, c)] else Empty
  }

  /** Python's `str(v)`. */
  function Text(v: Value): string
  {
    match v
    case Empty => "None"
    case Int(i) => IntToString(i)
    case Str(s) => s
  }

  /** Python's truth value of a cell value (`if v:`). */
  predicate Truthy(v: Value)
  {
    match v
    case Empty => false
    case Int(i) => i != 0
    case Str(s) => s != ""
  }

  /** `v is not None and str(v).strip() != ""`: something other than whitespace. */
  predicate NonBlank(v: Value)
  {
    v != Empty && !AllSpace(Text(v))
  }

  /** The definition above is the source's test, and a number is never blank. */
  lemma NonBlankIsStrippedNonEmpty(v: Value)
    ensures NonBlank(v) <==> v != Empty && Strip(Text(v)) != ""
    ensures v.Int? ==> NonBlank(v)
  {
    if v.Int? {
      var t := IntToString(v.i);
      assert !IsSpace(t[0]);
    }
  }

  // ---------------------------------------------------------------------
  // Merge ranges
  // ---------------------------------------------------------------------

  /** A merge range `(min_row, min_col, max_row, max_col)`; its anchor is the top-left cell. */
  datatype Range = Range(minRow: int, minCol: int, maxRow: int, maxCol: int) {

    predicate Covers(r: int, c: int)
    {
      minRow <= r <= maxRow && minCol <= c <= maxCol
    }

    function Anchor(): Coord
    {
      (minRow, minCol)
    }

    /** openpyxl's ranges start at row and column 1 and are never empty. */
    predicate WellFormed()
    {
      1 <= minRow <= maxRow && 1 <= minCol <= maxCol
    }
  }

  /** Two ranges share no cell. */
  predicate Apart(a: Range, b: Range)
  {
    a.maxRow < b.minRow || b.maxRow < a.minRow || a.maxCol < b.minCol || b.maxCol < a.minCol
  }

  /** No two ranges of the sequence overlap (what Excel itself guarantees). */
  predicate NonOverlapping(ms: seq<Range>)
  {
    forall i, j :: 0 <= i < j < |ms| ==> Apart(ms[i], ms[j])
  }

  /** The index of the first range at or after `from` that covers `(r, c)`. */
  function FirstCovering(ms: seq<Range>, r: int, c: int, from: nat): (k: Option<nat>)
    requires from <= |ms|
    ensures k.Some? ==> from <= k.value < |ms| && ms[k.value].Covers(r, c)
    ensures k.Some? ==> forall j :: from <= j < k.value ==> !ms[j].Covers(r, c)
    ensures k.None? ==> forall j :: from <= j < |ms| ==> !ms[j].Covers(r, c)
    decreases |ms| - from
  {
    if from == |ms| then None
    else if ms[from].Covers(r, c) then Some(from)
    else FirstCovering(ms, r, c, from + 1)
  }

  /**
   * Where a merge-safe write of `(r, c)` lands: the anchor of the first range
   * (in sequence order) that covers it, or `(r, c)` itself.
   */
  function MergeTarget(ms: seq<Range>, r: int, c: int): (t: Coord)
    ensures (exists j :: 0 <= j < |ms| && ms[j].Covers(r, c)) ==>
              exists j :: 0 <= j < |ms| && ms[j].Covers(r, c) && t == ms[j].Anchor()
                          && forall i :: 0 <= i < j ==> !ms[i].Covers(r, c)
    ensures (forall j :: 0 <= j < |ms| ==> !ms[j].Covers(r, c)) ==> t == (r, c)
    ensures t.0 <= r && t.1 <= c
  {
    match FirstCovering(ms, r, c, 0)
    case Some(j) => ms[j].Anchor()
    case None => (r, c)
  }

  /**
   * openpyxl keeps every cell of a merge range except its anchor as a
   * read-only `MergedCell`: its value is always `None` and assigning one
   * raises an error.
   */
  predicate IsMergedInterior(ms: seq<Range>, r: int, c: int)
  {
    exists j | 0 <= j < |ms| :: ms[j].Covers(r, c) && (r, c) != ms[j].Anchor()
  }

  /** With non-overlapping ranges a redirected write never lands on a read-only cell. */
  lemma {:induction false} TargetIsWritable(ms: seq<Range>, r: int, c: int)
    requires NonOverlapping(ms)
    ensures !IsMergedInterior(ms, MergeTarget(ms, r, c).0, MergeTarget(ms, r, c).1)
  {
    var t := MergeTarget(ms, r, c);
    match FirstCovering(ms, r, c, 0)
    case None =>
      forall j | 0 <= j < |ms| ensures !(ms[j].Covers(r, c) && (r, c) != ms[j].Anchor()) {
      }
    case Some(k) =>
      forall j | 0 <= j < |ms| && ms[j].Covers(t.0, t.1) ensures t == ms[j].Anchor() {
        assert ms[k].Covers(t.0, t.1);
      }
  }

  /** With non-overlapping ranges, resolving twice is resolving once. */
  lemma {:induction false} TargetIdempotent(ms: seq<Range>, r: int, c: int)
    requires NonOverlapping(ms)
    ensures var t := MergeTarget(ms, r, c); MergeTarget(ms, t.0, t.1) == t
  {
    var t := MergeTarget(ms, r, c);
    match FirstCovering(ms, r, c, 0)
    case None =>
    case Some(k) =>
      assert ms[k].Covers(t.0, t.1);
      match FirstCovering(ms, t.0, t.1, 0)
      case None =>
      case Some(k') =>
        assert ms[k'].Covers(t.0, t.1);
  }

  /** With non-overlapping ranges, a write stays where it is exactly when the cell is not read-only. */
  lemma {:induction false} TargetStaysIffWritable(ms: seq<Range>, r: int, c: int)
    requires NonOverlapping(ms)
    ensures MergeTarget(ms, r, c) == (r, c) <==> !IsMergedInterior(ms, r, c)
  {
    match FirstCovering(ms, r, c, 0)
    case None =>
    case Some(k) =>
      if !IsMergedInterior(ms, r, c) {
        assert ms[k].Covers(r, c);
        assert (r, c) == ms[k].Anchor();
      } else {
        var j :| 0 <= j < |ms| && ms[j].Covers(r, c) && (r, c) != ms[j].Anchor();
        assert ms[k].Covers(r, c);
      }
  }
}

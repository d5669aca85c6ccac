/**
 * A worksheet as openpyxl presents it to the formatter: cell values, fills,
 * merge ranges and the used dimensions, with the in-place operations of the
 * core (plain and merge-safe writes, copying the table body, highlighting
 * marked rows, and moving the "Stand" footer cell).
 */
module Worksheet {
  import opened Wrappers
  import opened Strings
  import opened Cells

  /** A fill style (openpyxl's `PatternFill`), opaque to the core. */
  datatype Fill = Fill(token: nat)

  function Max(a: int, b: int): int { if a < b then b else a }
  function Min(a: int, b: int): int { if a < b then a else b }

  /**
   * What openpyxl guarantees of a loaded sheet: `max_row`/`max_column` are at
   * least 1 and cover every cell and every merge range, ranges are well formed,
   * and the read-only cells of a merge range hold no value.
   */
  ghost predicate Consistent(cells: Grid, merges: seq<Range>, maxRow: int, maxCol: int)
  {
    && maxRow >= 1 && maxCol >= 1
    && (forall k :: k in cells ==> 1 <= k.0 <= maxRow && 1 <= k.1 <= maxCol)
    && (forall j :: 0 <= j < |merges| ==>
          merges[j].WellFormed() && merges[j].maxRow <= maxRow && merges[j].maxCol <= maxCol)
    && (forall k :: k in cells && IsMergedInterior(merges, k.0, k.1) ==> cells[k] == Empty)
  }

  // ---------------------------------------------------------------------
  // Specification of the row highlighting
  // ---------------------------------------------------------------------

  /** `v in (1, 2, "1", "2")`. */
  predicate IsMarker(v: Value)
  {
    v == Int(1) || v == Int(2) || v == Str("1") || v == Str("2")
  }

  /** The cells of rows `1..rows` whose marker cell holds a marker, across columns `1..cols`. */
  function MarkedCells(g: Grid, markCol: int, rows: int, cols: int): set<Coord>
  {
    set r, c | 1 <= r <= rows && 1 <= c <= cols && IsMarker(Get(g, r, markCol)) :: (r, c)
  }

  /** The fills after highlighting: the marked cells get `f`, every other fill stays. */
  function Highlighted(fills: map<Coord, Fill>, g: Grid, markCol: int, f: Fill, rows: int, cols: int)
    : map<Coord, Fill>
  {
    var m := MarkedCells(g, markCol, rows, cols);
    map k | k in fills.Keys + m :: if k in m then f else fills[k]
  }

  lemma MarkedCellsMembership(g: Grid, markCol: int, rows: int, cols: int, r: int, c: int)
    ensures (r, c) in MarkedCells(g, markCol, rows, cols) <==>
              1 <= r <= rows && 1 <= c <= cols && IsMarker(Get(g, r, markCol))
  {
    if 1 <= r <= rows && 1 <= c <= cols && IsMarker(Get(g, r, markCol)) {
      assert (r, c) in MarkedCells(g, markCol, rows, cols);
    }
  }

  /**
   * Row highlighting as a whole: a row in `1..rows` whose marker cell holds
   * 1, 2, "1" or "2" has fill `f` in every column `1..cols`; every other cell
   * keeps exactly the fill it had (or keeps having none).
   */
  lemma HighlightedAt(fills: map<Coord, Fill>, g: Grid, markCol: int, f: Fill, rows: int, cols: int, r: int, c: int)
    ensures var h := Highlighted(fills, g, markCol, f, rows, cols);
      && (1 <= r <= rows && 1 <= c <= cols && IsMarker(Get(g, r, markCol)) ==> (r, c) in h && h[(r, c)] == f)
      && (!(1 <= r <= rows && 1 <= c <= cols && IsMarker(Get(g, r, markCol))) ==>
            ((r, c) in h <==> (r, c) in fills) && ((r, c) in fills ==> h[(r, c)] == fills[(r, c)]))
  {
    MarkedCellsMembership(g, markCol, rows, cols, r, c);
  }

  /** Highlighting twice gives the same fills as highlighting once. */
  lemma HighlightIdempotent(fills: map<Coord, Fill>, g: Grid, markCol: int, f: Fill, rows: int, cols: int)
    ensures var once := Highlighted(fills, g, markCol, f, rows, cols);
      Highlighted(once, g, markCol, f, rows, cols) == once
  {
    var once := Highlighted(fills, g, markCol, f, rows, cols);
    var twice := Highlighted(once, g, markCol, f, rows, cols);
    var m := MarkedCells(g, markCol, rows, cols);
    assert twice.Keys == once.Keys;
    forall k | k in once ensures twice[k] == once[k] {
      if k in m { assert twice[k] == f && once[k] == f; }
    }
  }

  // ---------------------------------------------------------------------
  // Specification of the "Stand" relocation
  // ---------------------------------------------------------------------

  /** The largest column in `1..hi` of row `row` whose cell is non-blank. */
  function LastNonBlankCol(g: Grid, row: int, hi: int): (r: Option<int>)
    ensures r.Some? ==> 1 <= r.value <= hi && NonBlank(Get(g, row, r.value))
    ensures r.Some? ==> forall c :: r.value < c <= hi ==> !NonBlank(Get(g, row, c))
    ensures r.None? ==> forall c :: 1 <= c <= hi ==> !NonBlank(Get(g, row, c))
    decreases hi
  {
    if hi < 1 then None
    else if NonBlank(Get(g, row, hi)) then Some(hi)
    else LastNonBlankCol(g, row, hi - 1)
  }

  /** `not v or "Stand" not in str(v)` fails: the cell holds a "Stand" text. */
  predicate IsStand(v: Value)
  {
    Truthy(v) && Contains(Text(v), "Stand")
  }

  lemma StandIsNonBlank(v: Value)
    requires IsStand(v)
    ensures NonBlank(v)
  {
    StandTextIsNotSpace(Text(v));
  }

  lemma StandTextIsNotSpace(s: string)
    requires Contains(s, "Stand")
    ensures !AllSpace(s)
  {
    var i: nat :| i <= |s| && OccursAt(s, "Stand", i);
    assert s[i] == "Stand"[0];
  }

  /** The columns searched for the last occupied cell of the footer row. */
  const StandSearchWidth := 80

  /**
   * The column a "Stand" cell at `(row, fromCol)` moves to, or `None` when
   * nothing moves: the last occupied column of the row among 1..80, or, when
   * that is `fromCol` itself, the nearest occupied column to its left (and
   * `fromCol` when there is none).
   */
  function StandTarget(g: Grid, row: int, fromCol: int): Option<int>
  {
    if !IsStand(Get(g, row, fromCol)) then None
    else
      match LastNonBlankCol(g, row, StandSearchWidth)
      case None => None
      case Some(last) =>
        Some(if last == fromCol then LastNonBlankCol(g, row, fromCol - 1).GetOr(fromCol) else last)
  }

  /**
   * The target is the right-most occupied column of 1..80 other than the
   * "Stand" cell itself; it is the "Stand" cell only when no other column of
   * 1..80 is occupied. Nothing moves exactly when the cell holds no "Stand"
   * text or nothing in 1..80 is occupied.
   */
  lemma {:induction false} StandTargetSpec(g: Grid, row: int, fromCol: int)
    requires fromCol >= 1
    ensures StandTarget(g, row, fromCol).None? <==>
      !IsStand(Get(g, row, fromCol)) || forall c :: 1 <= c <= StandSearchWidth ==> !NonBlank(Get(g, row, c))
    ensures StandTarget(g, row, fromCol).Some? ==>
      var t := StandTarget(g, row, fromCol).value;
      && 1 <= t <= StandSearchWidth
      && NonBlank(Get(g, row, t))
      && (forall c :: t < c <= StandSearchWidth && c != fromCol ==> !NonBlank(Get(g, row, c)))
      && (t == fromCol ==> forall c :: 1 <= c <= StandSearchWidth && c != fromCol ==> !NonBlank(Get(g, row, c)))
  {
    var v := Get(g, row, fromCol);
    if IsStand(v) {
      StandIsNonBlank(v);
      var last := LastNonBlankCol(g, row, StandSearchWidth);
      if last.Some? && last.value == fromCol {
        var left := LastNonBlankCol(g, row, fromCol - 1);
        assert left.Some? ==> left.value < fromCol;
      }
    }
  }

  // ---------------------------------------------------------------------
  // Specification of the body copy
  // ---------------------------------------------------------------------

  /** The table body: rows `6..rows`, columns `1..cols`. */
  predicate InBody(r: int, c: int, rows: int, cols: int)
  {
    6 <= r <= rows && 1 <= c <= cols
  }

  /** The body can be written: no cell of it is a read-only member of a merge range. */
  predicate BodyWritable(ms: seq<Range>, rows: int, cols: int)
  {
    forall r, c | 6 <= r <= rows && 1 <= c <= cols :: !IsMergedInterior(ms, r, c)
  }

  // ---------------------------------------------------------------------
  // The sheet
  // ---------------------------------------------------------------------

  class Sheet {
    var cells: Grid
    var fills: map<Coord, Fill>
    const merges: seq<Range>
    var maxRow: int
    var maxCol: int

    ghost predicate Valid()
      reads this
    {
      Consistent(cells, merges, maxRow, maxCol)
    }

    constructor (cells: Grid, fills: map<Coord, Fill>, merges: seq<Range>, maxRow: int, maxCol: int)
      requires Consistent(cells, merges, maxRow, maxCol)
      ensures Valid()
      ensures this.cells == cells && this.fills == fills && this.merges == merges
      ensures this.maxRow == maxRow && this.maxCol == maxCol
    {
      this.cells := cells;
      this.fills := fills;
      this.merges := merges;
      this.maxRow := maxRow;
      this.maxCol := maxCol;
    }

    /**
     * `ws.cell(row=r, column=c).value = v`: the cell is created if need be
     * (so the dimensions grow to cover it) and takes `v`, unless it is a
     * read-only member of a merge range, where openpyxl raises instead.
     */
    method WriteCell(r: int, c: int, v: Value) returns (ok: bool)
      requires Valid() && r >= 1 && c >= 1
      modifies this
      ensures Valid()
      ensures ok == !IsMergedInterior(merges, r, c)
      ensures cells == if ok then old(cells)[(r, c) := v] else old(cells)
      ensures fills == old(fills)
      ensures maxRow == Max(old(maxRow), r) && maxCol == Max(old(maxCol), c)
    {
      maxRow := Max(maxRow, r);
      maxCol := Max(maxCol, c);
      ok := !IsMergedInterior(merges, r, c);
      if ok {
        cells := cells[(r, c) := v];
      }
    }

    /**
     * `set_value_merge_safe`: a write that lands inside a merge range goes to
     * the anchor of the first such range, any other write to the cell itself.
     * It fails only when that anchor is itself a read-only cell of another,
     * overlapping range.
     */
    method SetValueMergeSafe(row: int, col: int, v: Value) returns (ok: bool)
      requires Valid() && row >= 1 && col >= 1
      modifies this
      ensures Valid()
      ensures var t := MergeTarget(merges, row, col);
        && ok == !IsMergedInterior(merges, t.0, t.1)
        && cells == if ok then old(cells)[t := v] else old(cells)
      ensures fills == old(fills)
      ensures maxRow == Max(old(maxRow), row) && maxCol == Max(old(maxCol), col)
    {
      // `ws.cell(row=row, column=col)` creates the addressed cell first.
      maxRow := Max(maxRow, row);
      maxCol := Max(maxCol, col);
      var i := 0;
      while i < |merges|
        invariant 0 <= i <= |merges|
        invariant Valid()
        invariant cells == old(cells) && fills == old(fills)
        invariant maxRow == Max(old(maxRow), row) && maxCol == Max(old(maxCol), col)
        invariant FirstCovering(merges, row, col, i) == FirstCovering(merges, row, col, 0)
      {
        if merges[i].Covers(row, col) {
          ok := WriteCell(merges[i].minRow, merges[i].minCol, v);
          return;
        }
        i := i + 1;
      }
      ok := WriteCell(row, col, v);
    }

    /**
     * The body copy of the table builders: for every row `1..R` and column
     * `1..C`, with `R`, `C` the smaller of the two sheets' dimensions, a cell
     * in row 6 or below takes the value of the same cell of `raw`. It stops
     * with an error at the first body cell that is a read-only merge member.
     */
    method CopyBodyFrom(raw: Sheet) returns (ok: bool)
      requires Valid() && raw.Valid() && raw != this
      modifies this
      ensures Valid()
      ensures fills == old(fills) && maxRow == old(maxRow) && maxCol == old(maxCol)
      ensures var rows := Min(raw.maxRow, maxRow); var cols := Min(raw.maxCol, maxCol);
        && (ok <==> BodyWritable(merges, rows, cols))
        && (ok ==> forall r, c ::
              Get(cells, r, c) == (if InBody(r, c, rows, cols) then Get(raw.cells, r, c) else Get(old(cells), r, c)))
        && (!ok ==> forall r, c ::
              (Get(cells, r, c) == Get(old(cells), r, c) ||
               (InBody(r, c, rows, cols) && Get(cells, r, c) == Get(raw.cells, r, c))))
    {
      var rows := Min(raw.maxRow, maxRow);
      var cols := Min(raw.maxCol, maxCol);
      ok := true;
      for r := 1 to rows + 1
        invariant Valid()
        invariant fills == old(fills) && maxRow == old(maxRow) && maxCol == old(maxCol)
        invariant forall rr, cc :: Get(cells, rr, cc) ==
                    if Copied(rr, cc, r, 1, cols) then Get(raw.cells, rr, cc) else Get(old(cells), rr, cc)
        invariant forall rr, cc :: 6 <= rr < r && 1 <= cc <= cols ==> !IsMergedInterior(merges, rr, cc)
      {
        ok := CopyBodyRow(raw, r, cols);
        if !ok {
          return;
        }
      }
    }

    /**
     * One row of the body copy: in row `r`, when it is row 6 or below, column
     * `c` of `1..cols` takes the value of `raw`'s cell, left to right; it stops
     * at the first read-only merge member. Rows above 6 are left alone.
     */
    method CopyBodyRow(raw: Sheet, r: int, cols: int) returns (ok: bool)
      requires Valid() && raw != this && 1 <= r <= maxRow && 0 <= cols <= maxCol
      modifies this
      ensures Valid()
      ensures fills == old(fills) && maxRow == old(maxRow) && maxCol == old(maxCol)
      ensures ok <==> (r >= 6 ==> forall cc :: 1 <= cc <= cols ==> !IsMergedInterior(merges, r, cc))
      ensures ok ==> forall rr, cc :: (Get(cells, rr, cc) ==
                if rr == r && r >= 6 && 1 <= cc <= cols then Get(raw.cells, rr, cc) else Get(old(cells), rr, cc))
      ensures !ok ==> forall rr, cc ::
                (Get(cells, rr, cc) == Get(old(cells), rr, cc) ||
                 (rr == r && 1 <= cc <= cols && Get(cells, rr, cc) == Get(raw.cells, rr, cc)))
    {
      ok := true;
      for c := 1 to cols + 1
        invariant Valid()
        invariant fills == old(fills) && maxRow == old(maxRow) && maxCol == old(maxCol)
        invariant forall rr, cc :: Get(cells, rr, cc) ==
                    if rr == r && r >= 6 && 1 <= cc < c then Get(raw.cells, rr, cc) else Get(old(cells), rr, cc)
        invariant r >= 6 ==> forall cc :: 1 <= cc < c ==> !IsMergedInterior(merges, r, cc)
      {
        if r >= 6 {
          var w := WriteCell(r, c, Get(raw.cells, r, c));
          if !w {
            ok := false;
            return;
          }
        }
      }
    }

    /**
     * `mark_cells_with_1_or_2`: with the dimensions read once up front, every
     * row whose cell in column `markCol` holds 1, 2, "1" or "2" gets `fill`
     * in each of its columns.
     */
    method MarkCellsWith1Or2(markCol: int, fill: Fill)
      requires Valid() && markCol >= 1
      modifies this`fills
      ensures Valid()
      ensures cells == old(cells) && maxRow == old(maxRow) && maxCol == old(maxCol)
      ensures fills == Highlighted(old(fills), cells, markCol, fill, maxRow, maxCol)
    {
      var rows := maxRow;
      var cols := maxCol;
      for r := 1 to rows + 1
        invariant forall k :: k in fills <==> k in old(fills) || Marked(k, r, markCol, cols)
        invariant forall k :: k in fills ==>
                    fills[k] == if Marked(k, r, markCol, cols) then fill else old(fills)[k]
      {
        var v := Get(cells, r, markCol);
        if IsMarker(v) {
          FillRow(r, cols, fill);
        }
      }
      forall k | k in fills || k in Highlighted(old(fills), cells, markCol, fill, rows, cols)
        ensures k in fills && k in Highlighted(old(fills), cells, markCol, fill, rows, cols)
        ensures fills[k] == Highlighted(old(fills), cells, markCol, fill, rows, cols)[k]
      {
        MarkedCellsMembership(cells, markCol, rows, cols, k.0, k.1);
      }
    }

    /** Columns `1..cols` of row `r` get `fill`; every other fill stays. */
    method FillRow(r: int, cols: int, fill: Fill)
      requires cols >= 0
      modifies this`fills
      ensures forall k :: k in fills <==> k in old(fills) || (k.0 == r && 1 <= k.1 <= cols)
      ensures forall k :: k in fills ==>
                fills[k] == if k.0 == r && 1 <= k.1 <= cols then fill else old(fills)[k]
    {
      for c := 1 to cols + 1
        invariant forall k :: k in fills <==> k in old(fills) || (k.0 == r && 1 <= k.1 < c)
        invariant forall k :: k in fills ==>
                    fills[k] == if k.0 == r && 1 <= k.1 < c then fill else old(fills)[k]
      {
        fills := fills[(r, c) := fill];
      }
    }

    /** Row-major progress of the body copy: the cells before `(r, c)` in rows 6 and below. */
    ghost predicate Copied(rr: int, cc: int, r: int, c: int, cols: int)
    {
      6 <= rr && 1 <= cc <= cols && (rr < r || (rr == r && cc < c))
    }

    /** Progress of the highlighting: the cells of the marked rows above row `r`. */
    ghost predicate Marked(k: Coord, r: int, markCol: int, cols: int)
      reads this
    {
      1 <= k.0 < r && 1 <= k.1 <= cols && IsMarker(Get(cells, k.0, markCol))
    }

    /**
     * `find_last_nonempty_col_in_row`: the largest column in `1..maxSearch`
     * whose cell of row `row` is non-blank, or `None`.
     */
    method FindLastNonemptyColInRow(row: int, maxSearch: int) returns (last: Option<int>)
      requires row >= 1
      ensures last == LastNonBlankCol(cells, row, maxSearch)
      ensures last.Some? ==> 1 <= last.value <= maxSearch && NonBlank(Get(cells, row, last.value))
      ensures last.Some? ==> forall c :: last.value < c <= maxSearch ==> !NonBlank(Get(cells, row, c))
      ensures last.None? <==> forall c :: 1 <= c <= maxSearch ==> !NonBlank(Get(cells, row, c))
    {
      last := None;
      var c := 1;
      while c <= maxSearch
        invariant 1 <= c <= Max(maxSearch, 0) + 1
        invariant last == LastNonBlankCol(cells, row, c - 1)
      {
        var v := Get(cells, row, c);
        if NonBlank(v) {
          last := Some(c);
        }
        c := c + 1;
      }
    }

    /**
     * `move_stand_to_last_col`: a "Stand" text at `(standRow, fromCol)` moves
     * to the column `StandTarget` names; `fromCol` is cleared unless it is that
     * column. Nothing else changes.
     */
    method MoveStandToLastCol(standRow: int, fromCol: int)
      requires Valid() && standRow >= 1 && fromCol >= 1
      modifies this
      ensures Valid()
      ensures fills == old(fills) && maxRow == old(maxRow) && maxCol == old(maxCol)
      ensures match StandTarget(old(cells), standRow, fromCol)
        case None => cells == old(cells)
        case Some(t) =>
          cells == old(cells)[(standRow, fromCol) := Empty][(standRow, t) := Get(old(cells), standRow, fromCol)]
    {
      var v := Get(cells, standRow, fromCol);
      if !IsStand(v) {
        return;
      }
      var last := FindLastNonemptyColInRow(standRow, StandSearchWidth);
      if last.None? {
        return;
      }
      var target := last.value;
      if target == fromCol {
        target := NearestLeftNonBlank(standRow, fromCol);
      }
      assert StandTarget(cells, standRow, fromCol) == Some(target);
      StandIsNonBlank(v);
      MoveValue(standRow, fromCol, target, v);
    }

    /**
     * The leftward scan of `move_stand_to_last_col`: the nearest column left
     * of `fromCol` whose cell is non-blank, or `fromCol` when there is none.
     */
    method NearestLeftNonBlank(row: int, fromCol: int) returns (target: int)
      requires fromCol >= 1
      ensures target == LastNonBlankCol(cells, row, fromCol - 1).GetOr(fromCol)
      ensures target == fromCol || (1 <= target < fromCol && NonBlank(Get(cells, row, target)))
    {
      target := fromCol;
      var c := fromCol - 1;
      while c > 0
        invariant 0 <= c < fromCol
        invariant forall c' :: c < c' < fromCol ==> !NonBlank(Get(cells, row, c'))
      {
        if NonBlank(Get(cells, row, c)) {
          target := c;
          return;
        }
        c := c - 1;
      }
    }

    /**
     * The two writes that move a value: `(row, fromCol)` is cleared, then
     * `(row, target)` takes `v`. Both cells hold a value, so neither is a
     * read-only merge member and the dimensions already cover them.
     */
    method MoveValue(row: int, fromCol: int, target: int, v: Value)
      requires Valid() && row >= 1 && fromCol >= 1 && target >= 1
      requires Get(cells, row, fromCol) == v && v != Empty && Get(cells, row, target) != Empty
      modifies this
      ensures Valid()
      ensures fills == old(fills) && maxRow == old(maxRow) && maxCol == old(maxCol)
      ensures cells == old(cells)[(row, fromCol) := Empty][(row, target) := v]
    {
      assert (row, fromCol) in cells && (row, target) in cells;
      var cleared := WriteCell(row, fromCol, Empty);
      var moved := WriteCell(row, target, v);
    }
  }
}

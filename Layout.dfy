/**
 * The sheet-level part of the table builders: the header rows and the
 * period label written merge-safely into the layout template, the body
 * copied from the raw sheet, and the annual external variant of Table 1,
 * which re-labels and highlights the raw sheet itself.
 */
module Layout {
  import opened Wrappers
  import opened Strings
  import opened Cells
  import opened PeriodLabel
  import opened Worksheet
  import opened Naming

  /** `re.fullmatch(r"\d{4}.*", s)`: four digits, then anything but a line feed. */
  predicate StartsWithYearDigits(s: string)
  {
    && |s| >= 4
    && (forall i :: 0 <= i < 4 ==> IsDigit(s[i]))
    && (forall i :: 4 <= i < |s| ==> s[i] != '\n')
  }

  /**
   * Table 2: raw A3 is the second line of a two-line title when it is
   * truthy, not blank, and does not read as a year.
   */
  predicate IsTitleContinuation(v: Value)
  {
    Truthy(v) && Strip(Text(v)) != "" && !StartsWithYearDigits(Strip(Text(v)))
  }

  /** What a table builder reads from the raw sheet for the header rows. */
  datatype Header = Header(a1: Value, a2: Value, a3: Value, continued: bool, period: string)

  /** Raw A1..A3, whether A3 continues a Table 2 title, and the period label. */
  function HeaderOf(kind: TableKind, raw: Grid): Header
  {
    var a3 := Get(raw, 3, 1);
    Header(Get(raw, 1, 1), Get(raw, 2, 1), a3, kind == T2 && IsTitleContinuation(a3), FindPeriodText(raw))
  }

  /**
   * The template row of the period label: row 5 (internal) or 3 (external)
   * for Tables 1, 3 and 5; row 4 for Table 2 internal, and for Table 2
   * external row 4 below a title continuation, else row 3. The label never
   * lands on the title continuation written to row 3.
   */
  function PeriodRow(kind: TableKind, internal: bool, continued: bool): (row: int)
    ensures 3 <= row <= 5
    ensures continued && kind == T2 ==> row == 4
  {
    if kind == T2 then (if internal || continued then 4 else 3)
    else if internal then 5 else 3
  }

  /** One merge-safe write `set_value_merge_safe(ws, row, col, value)`. */
  datatype Write = Write(row: int, col: int, value: Value)

  /** The merge-safe writes a builder issues before copying the body, in order. */
  function HeaderPlan(kind: TableKind, internal: bool, h: Header): seq<Write>
  {
    TitlePlan(h) + [Write(PeriodRow(kind, internal, h.continued), 1, Str(h.period))]
  }

  /** The title rows: raw A1 and A2, then for Table 2 a title continuation in A3. */
  function TitlePlan(h: Header): seq<Write>
  {
    [Write(1, 1, h.a1), Write(2, 1, h.a2)] + (if h.continued then [Write(3, 1, h.a3)] else [])
  }

  /** A merge-safe write on a grid: `None` when its redirected target is read-only. */
  function MergeSafeWrite(g: Grid, ms: seq<Range>, w: Write): Option<Grid>
  {
    var t := MergeTarget(ms, w.row, w.col);
    if IsMergedInterior(ms, t.0, t.1) then None else Some(g[t := w.value])
  }

  /** A sequence of merge-safe writes, stopping at the first that fails. */
  function ApplyWrites(g: Grid, ms: seq<Range>, ws: seq<Write>): Option<Grid>
    decreases |ws|
  {
    if ws == [] then Some(g)
    else match MergeSafeWrite(g, ms, ws[0])
      case None => None
      case Some(h) => ApplyWrites(h, ms, ws[1..])
  }

  /** `ApplyWrites` after its first write. */
  lemma ApplyStep(g: Grid, ms: seq<Range>, ws: seq<Write>, ok: bool, g': Grid)
    requires ws != [] && MergeSafeWrite(g, ms, ws[0]) == (if ok then Some(g') else None)
    ensures ApplyWrites(g, ms, ws) == if ok then ApplyWrites(g', ms, ws[1..]) else None
  {
  }

  /** The writes of `ws` made in place, one after another. */
  function Overlay(g: Grid, ws: seq<Write>): Grid
    decreases |ws|
  {
    if ws == [] then g else Overlay(g[(ws[0].row, ws[0].col) := ws[0].value], ws[1..])
  }

  /**
   * When no write addresses a read-only cell and the ranges do not overlap,
   * every merge-safe write lands on the addressed cell itself.
   */
  lemma {:induction false} ApplyInPlace(g: Grid, ms: seq<Range>, ws: seq<Write>)
    requires NonOverlapping(ms)
    requires forall i :: 0 <= i < |ws| ==> !IsMergedInterior(ms, ws[i].row, ws[i].col)
    ensures ApplyWrites(g, ms, ws) == Some(Overlay(g, ws))
    decreases |ws|
  {
    if ws != [] {
      var w := ws[0];
      TargetStaysIffWritable(ms, w.row, w.col);
      assert MergeSafeWrite(g, ms, w) == Some(g[(w.row, w.col) := w.value]);
      ApplyInPlace(g[(w.row, w.col) := w.value], ms, ws[1..]);
    }
  }

  /**
   * Header placement: with non-overlapping ranges and none of A1..A5 a
   * read-only merge member, the header writes succeed; A1 and A2 take raw
   * A1 and A2, a Table 2 title continuation goes to A3, the period label to
   * column A of `PeriodRow`, and every other cell is as in the template.
   */
  lemma HeaderPlacement(kind: TableKind, internal: bool, g: Grid, ms: seq<Range>, h: Header)
    requires NonOverlapping(ms)
    requires forall r :: 1 <= r <= 5 ==> !IsMergedInterior(ms, r, 1)
    requires h.continued ==> kind == T2
    ensures var out := ApplyWrites(g, ms, HeaderPlan(kind, internal, h));
      var pr := PeriodRow(kind, internal, h.continued);
      && out.Some?
      && Get(out.value, 1, 1) == h.a1
      && Get(out.value, 2, 1) == h.a2
      && (h.continued ==> Get(out.value, 3, 1) == h.a3)
      && Get(out.value, pr, 1) == Str(h.period)
      && (forall r, c :: !(c == 1 && (r == 1 || r == 2 || r == pr || (h.continued && r == 3))) ==>
            Get(out.value, r, c) == Get(g, r, c))
  {
    var plan := HeaderPlan(kind, internal, h);
    var pr := PeriodRow(kind, internal, h.continued);
    var w1, w2, wp := Write(1, 1, h.a1), Write(2, 1, h.a2), Write(pr, 1, Str(h.period));
    ApplyInPlace(g, ms, plan);
    var g1 := g[(1, 1) := h.a1];
    var g2 := g1[(2, 1) := h.a2];
    var tail := if h.continued then [Write(3, 1, h.a3), wp] else [wp];
    assert plan == [w1, w2] + tail;
    assert Overlay(g, plan) == Overlay(g1, plan[1..]);
    assert plan[1..][1..] == tail;
    assert Overlay(g1, plan[1..]) == Overlay(g2, tail);
    if h.continued {
      var g3 := g2[(3, 1) := h.a3];
      assert Overlay(g2, tail) == Overlay(g3, [wp]);
      assert Overlay(g3, [wp]) == g3[(pr, 1) := wp.value];
    } else {
      assert Overlay(g2, tail) == g2[(pr, 1) := wp.value];
    }
  }

  /**
   * A Table 2 title continuation in raw A3 is also what the period label is
   * read from: the label written below it repeats the stripped continuation
   * text, whatever the raw sheet holds in A4.
   */
  lemma ContinuationIsAlsoLabel(raw: Grid)
    requires IsTitleContinuation(Get(raw, 3, 1))
    ensures FindPeriodText(raw) == Strip(Text(Get(raw, 3, 1)))
  {
    var s := Strip(Text(Get(raw, 3, 1)));
    assert IsFourDigits(s) ==> StartsWithYearDigits(s);
  }

  /** A year in raw A3 is never a title continuation, so the external Table 2 label goes to row 3. */
  lemma YearIsNotContinuation(internal: bool, raw: Grid)
    requires IsFourDigits(Strip(Text(Get(raw, 3, 1))))
    ensures !IsTitleContinuation(Get(raw, 3, 1))
    ensures PeriodRow(T2, internal, HeaderOf(T2, raw).continued) == if internal then 4 else 3
  {
  }

  /**
   * The header writes of a table builder, in the order of `HeaderPlan`: raw
   * A1 and A2, for Table 2 a title continuation in raw A3, then the period
   * label. The first write that hits a read-only merge member aborts.
   */
  method WriteHeader(kind: TableKind, internal: bool, h: Header, out: Sheet) returns (ok: bool)
    requires out.Valid()
    modifies out
    ensures out.Valid() && out.fills == old(out.fills)
    ensures var header := ApplyWrites(old(out.cells), out.merges, HeaderPlan(kind, internal, h));
      && (ok <==> header.Some?)
      && (ok ==> out.cells == header.value)
      && (ok ==> out.maxRow == Max(old(out.maxRow), PeriodRow(kind, internal, h.continued)))
      && (ok ==> out.maxCol == old(out.maxCol))
  {
    var pr := Write(PeriodRow(kind, internal, h.continued), 1, Str(h.period));
    ok := WriteTitleRows(h, [pr], out);
    if ok {
      ghost var g := out.cells;
      ok := WriteStep(pr, [], out);
      assert ApplyWrites(g, out.merges, [pr]) == if ok then Some(out.cells) else None;
    }
  }

  /**
   * The title-row writes of `TitlePlan`, followed in the plan by `rest`: what
   * `rest` yields from the new cells is what the whole plan yields from the
   * old ones.
   */
  method WriteTitleRows(h: Header, ghost rest: seq<Write>, out: Sheet) returns (ok: bool)
    requires out.Valid()
    modifies out
    ensures out.Valid() && out.fills == old(out.fills)
    ensures ApplyWrites(old(out.cells), out.merges, TitlePlan(h) + rest) ==
              if ok then ApplyWrites(out.cells, out.merges, rest) else None
    ensures ok ==> out.maxRow == Max(old(out.maxRow), if h.continued then 3 else 2)
    ensures ok ==> out.maxCol == old(out.maxCol)
  {
    var w3 := Write(3, 1, h.a3);
    ghost var afterA2 := (if h.continued then [w3] else []) + rest;
    ghost var afterA1 := [Write(2, 1, h.a2)] + afterA2;
    assert TitlePlan(h) + rest == [Write(1, 1, h.a1)] + afterA1;
    ok := WriteStep(Write(1, 1, h.a1), afterA1, out);
    if ok {
      ok := WriteStep(Write(2, 1, h.a2), afterA2, out);
      if ok && h.continued {
        assert afterA2 == [w3] + rest;
        ok := WriteStep(w3, rest, out);
      }
    }
  }

  /**
   * One `set_value_merge_safe` of a plan: what the rest of the plan yields
   * from the new cells is what the whole plan yields from the old ones.
   */
  method WriteStep(w: Write, ghost rest: seq<Write>, out: Sheet) returns (ok: bool)
    requires out.Valid() && w.row >= 1 && w.col >= 1
    modifies out
    ensures out.Valid() && out.fills == old(out.fills)
    ensures ApplyWrites(old(out.cells), out.merges, [w] + rest) ==
              if ok then ApplyWrites(out.cells, out.merges, rest) else None
    ensures out.maxRow == Max(old(out.maxRow), w.row) && out.maxCol == Max(old(out.maxCol), w.col)
  {
    ghost var g := out.cells;
    ok := out.SetValueMergeSafe(w.row, w.col, w.value);
    ApplyStep(g, out.merges, [w] + rest, ok, out.cells);
    assert ([w] + rest)[1..] == rest;
  }

  /**
   * `build_table{1,2,3,5}_workbook` for one sheet pair: the header writes into
   * the template `out`, then the body copy from `raw`, bounded by both sheets'
   * dimensions as they stand after the header writes.
   */
  method BuildSheet(kind: TableKind, internal: bool, raw: Sheet, out: Sheet) returns (ok: bool)
    requires raw.Valid() && out.Valid() && raw != out
    modifies out
    ensures out.Valid() && out.fills == old(out.fills)
    ensures var header := ApplyWrites(old(out.cells), out.merges, HeaderPlan(kind, internal, HeaderOf(kind, raw.cells)));
      var rows := Min(raw.maxRow, Max(old(out.maxRow), PeriodRow(kind, internal, HeaderOf(kind, raw.cells).continued)));
      var cols := Min(raw.maxCol, old(out.maxCol));
      && (ok <==> header.Some? && BodyWritable(out.merges, rows, cols))
      && (ok ==> out.maxRow == Max(old(out.maxRow), PeriodRow(kind, internal, HeaderOf(kind, raw.cells).continued)))
      && (ok ==> out.maxCol == old(out.maxCol))
      && (ok ==> forall r, c ::
            Get(out.cells, r, c) == (if InBody(r, c, rows, cols) then Get(raw.cells, r, c) else Get(header.value, r, c)))
  {
    ok := WriteHeader(kind, internal, HeaderOf(kind, raw.cells), out);
    if !ok {
      return;
    }
    ok := out.CopyBodyFrom(raw);
  }

  /** Table 1 highlights rows marked in column G. */
  const Table1MarkerColumn := 7

  /**
   * The annual external Table 1 output: the raw sheet itself as loaded with
   * its formulas (`ws`), its A3 set merge-safely to the label computed from
   * the cached values (`values`) when that label is not empty, then its
   * marked rows highlighted by column G.
   */
  method BuildTable1Annual(ws: Sheet, values: Grid, fill: Fill) returns (ok: bool)
    requires ws.Valid()
    modifies ws
    ensures ws.Valid()
    ensures var caption := FindPeriodText(values);
      var t := MergeTarget(ws.merges, 3, 1);
      && (ok <==> caption == "" || !IsMergedInterior(ws.merges, t.0, t.1))
      && (ok ==> ws.cells == if caption == "" then old(ws.cells) else old(ws.cells)[t := Str(caption)])
      && (ok ==> ws.maxRow == (if caption == "" then old(ws.maxRow) else Max(old(ws.maxRow), 3)))
      && ws.maxCol == old(ws.maxCol)
      && (ok ==> ws.fills == Highlighted(old(ws.fills), ws.cells, Table1MarkerColumn, fill, ws.maxRow, ws.maxCol))
      && (!ok ==> ws.fills == old(ws.fills) && ws.cells == old(ws.cells))
  {
    var caption := FindPeriodText(values);
    if caption != "" {
      ok := ws.SetValueMergeSafe(3, 1, Str(caption));
      if !ok {
        return;
      }
    }
    ok := true;
    ws.MarkCellsWith1Or2(Table1MarkerColumn, fill);
  }
}

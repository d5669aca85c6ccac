# VÖ-Tabellen formatter: a verified model of its core

`vo_tabellen_gui.py` turns raw statistical workbooks ("Tabelle 1, 2, 3 and 5")
into a public (`_g`) and an internal (`_INTERN`) publication by writing the raw
header, period label and table body into fixed layout templates. This project
models, in Dafny, the part of that program that does not touch files or the GUI:

- **File names** (`Naming.dfy`): the period token a file name carries
  (`YYYY-MM`, `YYYY-Qn`, `YYYY-Hn`, `YYYY-JJ`) and the three-step search that
  finds it; the annual test and year of a token; the input filter; and the
  dispatch from prefix to table kind.
- **String primitives** (`Strings.dfy`): Python's `strip`, `str(int)`,
  substring tests, ASCII `lower`, and the POSIX `basename` and `splitext`.
- **Period label** (`PeriodLabel.dfy`): A3 of the raw sheet, or the first
  non-blank cell of A1..A10, with a bare year turned into "Jahr YYYY".
- **Cells and merges** (`Cells.dfy`): cell values (`None`, `int`, `str`),
  merge ranges, and where a merge-safe write lands.
- **The worksheet** (`Worksheet.dfy`): a `Sheet` class with the cell map, the
  fill map, the merge ranges and the used dimensions. Its methods are the
  source's in-place operations: the merge-safe write, the body copy, row
  highlighting, the search for the last occupied column, and the "Stand"
  footer move. Each method is proved against a specification function, and
  lemmas state what the source promises about those functions.
- **Layout** (`Layout.dfy`): the sheet-level part of
  `build_table1/2/3/5_workbook`, in one method parameterised by the table
  kind and variant, and the annual public Table 1 output, which relabels and
  highlights the raw sheet itself.

openpyxl behaviour that the model makes explicit:

- Every cell of a merge range except its top-left anchor is a read-only
  `MergedCell`. It reads as `None`, and assigning to it raises an error.
  `WriteCell` returns `ok == false` in that case, and every builder stops at
  the first such failure, as the exception would stop it.
- Writing a cell grows `max_row`/`max_column` to cover it. The body copy of a
  builder is bounded by the dimensions *after* the header writes.
- The annual public Table 1 output highlights rows by the G column of the
  sheet as loaded *with formulas*. The period label comes from the sheet as
  loaded with cached values. `BuildTable1Annual` takes both.

Two things the code does that a reader may not expect, both modelled as
written:

- For Table 2, when raw A3 is a title continuation, `find_period_text` still
  reads A3 (it always does). The row below the continuation therefore repeats
  the continuation text (`Layout.ContinuationIsAlsoLabel`).
- The period label is raw A3, else the first non-blank cell of A1..A10.

## Model

| member | source | states |
|---|---|---|
| Strings.Strip | vo_tabellen_gui.py:126-135 | `str.strip()`: the result is the input without its leading and trailing whitespace (Python's `isspace` set). It neither starts nor ends with whitespace, and it is empty exactly when the input is all whitespace. |
| Strings.StripIdempotent | vo_tabellen_gui.py:142-146 | Stripping twice is stripping once, so the extra `strip()` calls in `find_period_text` change nothing. |
| Strings.IntToStringFourDigits | vo_tabellen_gui.py:144-145 | `str(i)` of an integer year matches `\d{4}` exactly when 1000 <= i <= 9999. |
| Strings.IsFourDigits | vo_tabellen_gui.py:97 | Definition of `re.fullmatch(r"\d{4}", s)`: exactly four ASCII digits. The same test is at lines 102 and 144. |
| Strings.Contains | vo_tabellen_gui.py:209 | Definition of Python's `t in s` for strings: `t` occurs at some position of `s`. The same test is at lines 106 and 371. |
| Strings.StartsWith | vo_tabellen_gui.py:459 | Definition of `s.startswith(t)`, used by the filter here and by the dispatch at lines 485-491. |
| Strings.EndsWith | vo_tabellen_gui.py:452-455 | Definition of `s.endswith(t)`, used by the filter's `.xlsx`, `_g.xlsx` and `_INTERN.xlsx` tests and at line 104. |
| Strings.IntToString | vo_tabellen_gui.py:132 | Definition of `str(i)` for an `int`: a `-` for negatives, then the decimal digits without leading zeros. It is never empty and holds no whitespace. |
| Strings.Lower | vo_tabellen_gui.py:452 | Definition of `.lower()` with ASCII letters folded. The properties the filter and `period_is_jj` rely on are in `LowerEndsWithJJ` and `PeriodIsJJ`. |
| Strings.Basename | vo_tabellen_gui.py:454 | `os.path.basename`: the suffix after the last `/`; it contains no `/`. |
| Strings.BasenameAppend | vo_tabellen_gui.py:454-457 | A slash-free tail appended to a path stays in its base name. |
| Strings.ExtensionDot | vo_tabellen_gui.py:85 | Definition of where `splitext` cuts: a dot with no `.` or `/` after it, preceded in its path component by a character other than `.` and `/`. |
| Strings.SplitExtRoot | vo_tabellen_gui.py:85 | `os.path.splitext(...)[0]`: a prefix of the name. A shorter result ends right before an `ExtensionDot`. The name comes back whole exactly when it has no `ExtensionDot`, so leading dots (".bashrc") and a dot before the last `/` are kept. |
| Strings.RootOfExtended | vo_tabellen_gui.py:85 | Removing a one-dot extension like `.xlsx` gives back exactly the name in front of it. |
| Naming.Prefix | vo_tabellen_gui.py:48-54 | Definition of the `Tabelle-N-Land` prefix of each table kind. The constant `RelevantPrefixes` lists them in the order of `RELEVANT_PREFIXES`. |
| Naming.IsPeriodSuffix | vo_tabellen_gui.py:86 | Definition of the alternation `(?:\d{2}|Q\d|H\d|JJ)` on the two characters after the dash. |
| Naming.TokenAt | vo_tabellen_gui.py:86 | Definition of `\d{4}-(?:…)` matching the seven characters from position `i`. The same token pattern is used at lines 89 and 93. |
| Naming.IsToken | vo_tabellen_gui.py:86 | Definition of a whole period token: seven characters that match the token pattern from position 0. |
| Naming.MatchesAt | vo_tabellen_gui.py:89-93 | Definition of where `_(TOKEN)_` (line 89) and `(20\d{2}-…)` (line 93) match, at a given position. |
| Naming.TrailingToken | vo_tabellen_gui.py:86-88 | `_(TOKEN)$`: a token preceded by `_` that ends the stem, or ends it just before a final line feed. `None` exactly when neither exists. |
| Naming.FirstMatch | vo_tabellen_gui.py:89-94 | The leftmost position at or after `from` where the pattern matches, or `None` when it matches nowhere. |
| Naming.Stem | vo_tabellen_gui.py:85 | `splitext(basename(filename))[0]`: a slash-free prefix of the base name. |
| Naming.ParsePeriodFromFilename | vo_tabellen_gui.py:84-94 | `parse_period_from_filename` runs the stem parser on `Stem(filename)`. The result is "" or a period token, and a token occurs in the stem. The lemma rows below state which token. |
| Naming.ParsePeriodOfStem | vo_tabellen_gui.py:84-94 | The three searches on the stem: the result is "" or a well-formed period token, and a non-empty result occurs in the stem. |
| Naming.ParsePeriodPriority | vo_tabellen_gui.py:84-94 | On any stem, a trailing `_TOKEN` wins. The result is "" exactly when none of the three searches matches anywhere. |
| Naming.ParsePeriodEnclosed | vo_tabellen_gui.py:89-91 | Without a trailing token, the leftmost `_TOKEN_` gives the result. |
| Naming.ParsePeriodYear20 | vo_tabellen_gui.py:92-94 | Without either, the leftmost token whose year starts with "20" gives the result. |
| Naming.ParsePeriodOfConventionalName | vo_tabellen_gui.py:84-88 | `parse_period_from_filename` of `<front>_<token>.xlsx`, with a slash-free front, gives back `token`. |
| Naming.PeriodIsJJ | vo_tabellen_gui.py:96-97 | True exactly when the period's last two characters are each `J` or `j`, or its stripped text is four digits. |
| Naming.TokenIsJJ | vo_tabellen_gui.py:96-97 | A period token is annual exactly when its suffix is "JJ". |
| Naming.BeforeDash | vo_tabellen_gui.py:105-107 | `s.split("-")[0]`: the longest prefix without `-`. |
| Naming.YearFromPeriod | vo_tabellen_gui.py:99-108 | For stripped text containing `-`, the part before the first `-`; otherwise the stripped text itself. |
| Naming.YearOfToken | vo_tabellen_gui.py:99-108 | The year of a period token is its first four characters, and a bare year is its own year. |
| Naming.IsRelevantFile | vo_tabellen_gui.py:451-461 | Definition of `is_relevant_file`: lower-cased `.xlsx` ending, no `_g.xlsx`/`_INTERN.xlsx` base name, one of the four prefixes. Its properties are the three lemmas below. |
| Naming.DispatchKind | vo_tabellen_gui.py:485-494 | The kind returned is one whose prefix the base name starts with. `None` exactly when no relevant prefix matches. |
| Naming.RelevantFileIsDispatched | vo_tabellen_gui.py:451-461 | Every file the filter accepts reaches a handler, never the "not implemented" branch. |
| Naming.OutputsAreNotRelevant | vo_tabellen_gui.py:451-457 | The tool's own outputs `<base>_g.xlsx` and `<base>_INTERN.xlsx` never pass the input filter. |
| Naming.ConventionalNameIsRelevant | vo_tabellen_gui.py:451-461 | `<Tabelle-N-Land>_<token>.xlsx` passes the filter and is dispatched to table kind N. |
| Naming.IsAnnualBase | vo_tabellen_gui.py:209 | Definition of `"-JJ" in base`, which picks Table 1's annual handling. Its relation to the period token is the next row. |
| Naming.AnnualBaseAgreesWithToken | vo_tabellen_gui.py:209 | For a conventional base name, `"-JJ" in base` holds exactly when `period_is_jj(token)` does. |
| Cells.Get | vo_tabellen_gui.py:127 | Definition of `ws.cell(row=r, column=c).value` on the cell map: a missing address reads as `None`. This read is used by every builder. |
| Cells.Range.Covers | vo_tabellen_gui.py:117 | Definition of `cell.coordinate in mr`: the cell lies within the rows and the columns of the range. |
| Cells.Text | vo_tabellen_gui.py:132 | Definition of `str(v)`: "None", the decimal form of an `int`, or the string itself. |
| Cells.Truthy | vo_tabellen_gui.py:371 | Definition of `if v:` for a cell value: `None`, `0` and "" are false. The same test is at line 263. |
| Cells.NonBlankIsStrippedNonEmpty | vo_tabellen_gui.py:131-132 | "Not None and `str(v).strip()` non-empty" is the blank test the model uses, and an integer is never blank. |
| Cells.IsMergedInterior | vo_tabellen_gui.py:117-119 | Definition of a read-only `MergedCell`: covered by a range but not its anchor. Writing one fails, both at the redirected write here and at the body copy on line 203. |
| Cells.FirstCovering | vo_tabellen_gui.py:115-117 | The index of the first range in sequence order that covers the cell, or `None` when none does. |
| Cells.MergeTarget | vo_tabellen_gui.py:110-121 | The anchor of the first covering range, or the addressed cell when none covers it. It never lies below or to the right of the addressed cell. |
| Cells.TargetIsWritable | vo_tabellen_gui.py:115-119 | With non-overlapping ranges, a redirected write never lands on a read-only cell. |
| Cells.TargetIdempotent | vo_tabellen_gui.py:115-119 | With non-overlapping ranges, resolving the target twice gives the same cell. |
| Cells.TargetStaysIffWritable | vo_tabellen_gui.py:110-121 | With non-overlapping ranges, a write stays on the addressed cell exactly when that cell is not read-only. |
| PeriodLabel.FirstNonBlankRow | vo_tabellen_gui.py:129-134 | The first row in range whose column-A cell is non-blank, or `None` when all are blank. |
| PeriodLabel.ExtractPeriodText | vo_tabellen_gui.py:126-135 | Stripped text of the guessed cell when it is not `None`. Otherwise the stripped text of the first non-blank cell of A1..A10, otherwise "". The result is always its own strip. |
| PeriodLabel.FindPeriodText | vo_tabellen_gui.py:137-146 | A four-digit label becomes "Jahr " + label; any other label is returned unchanged. |
| PeriodLabel.NumericYearLabel | vo_tabellen_gui.py:137-146 | A3 holding the integer year y (1000..9999) gives "Jahr y". |
| PeriodLabel.PaddedYearLabel | vo_tabellen_gui.py:137-146 | A3 text such as " 2025" gives "Jahr 2025". |
| PeriodLabel.TextLabelKept | vo_tabellen_gui.py:137-146 | Any other A3 that is not `None` gives its stripped text. |
| PeriodLabel.EmptyLabel | vo_tabellen_gui.py:126-146 | The label is "" exactly when A3 is blank text, or when A3 is `None` and A1..A10 are all blank. |
| Worksheet.Consistent | vo_tabellen_gui.py:157-158 | Definition of the facts openpyxl keeps about a sheet. `max_row` and `max_column` are at least 1 and cover every stored cell and every merge range. Every range is well formed, and every merge interior in the map holds `None`. |
| Worksheet.Sheet.Valid | vo_tabellen_gui.py:196-197 | Definition of a well-formed `Sheet`: its fields satisfy `Consistent`. Every `Sheet` method that writes values, and `MarkCellsWith1Or2`, requires it and keeps it. So the dimensions the body copy reads (lines 196-197) always cover the sheet. |
| Worksheet.IsMarker | vo_tabellen_gui.py:161 | Definition of `v in (1, 2, "1", "2")` for the values the model has. |
| Worksheet.MarkedCells | vo_tabellen_gui.py:157-163 | Definition: the cells of rows 1..max_row and columns 1..max_col whose row has a marker in the marker column. |
| Worksheet.Highlighted | vo_tabellen_gui.py:152-163 | Definition of the fills after `mark_cells_with_1_or_2`, as a map. `HighlightedAt` states it cell by cell. |
| Worksheet.HighlightedAt | vo_tabellen_gui.py:152-163 | A row in 1..maxRow whose marker cell is 1, 2, "1" or "2" has the fill in every column 1..maxCol. Every other cell keeps exactly its old fill, or keeps having none. |
| Worksheet.HighlightIdempotent | vo_tabellen_gui.py:152-163 | Highlighting twice gives the same fills as highlighting once. |
| Worksheet.LastNonBlankCol | vo_tabellen_gui.py:358-364 | The largest column in 1..hi whose cell is non-blank, or `None` when all are blank. |
| Worksheet.IsStand | vo_tabellen_gui.py:370-371 | Definition of the "Stand" test: the value is truthy and its text contains "Stand". |
| Worksheet.StandIsNonBlank | vo_tabellen_gui.py:370-372 | A cell that passes the "Stand" test is non-blank. So when `from_col <= 80` the last-occupied search finds a column, and the final clear and write meet `MoveValue`'s precondition that both cells hold values. |
| Worksheet.StandTarget | vo_tabellen_gui.py:366-386 | Definition of the target column of the "Stand" move, or `None` when the function returns early. `StandTargetSpec` states what it is. |
| Worksheet.StandTargetSpec | vo_tabellen_gui.py:366-386 | Nothing moves exactly when the cell fails the "Stand" test or columns 1..80 are all blank. Otherwise the target is non-blank, in 1..80, and the right-most occupied column other than `from_col`. It is `from_col` only when no other column is occupied. |
| Worksheet.Sheet.WriteCell | vo_tabellen_gui.py:202-203 | `ws.cell(r, c).value = v`: fails exactly on a read-only merge member. Otherwise only (r, c) changes. The dimensions grow to cover (r, c). |
| Worksheet.Sheet.SetValueMergeSafe | vo_tabellen_gui.py:110-121 | The value lands on `MergeTarget` (first covering range wins), and nothing else changes. It fails only when that anchor is read-only. The addressed cell's coordinates grow the dimensions. |
| Worksheet.Sheet.CopyBodyFrom | vo_tabellen_gui.py:196-203 | On success, every cell with 6 <= r <= min rows and 1 <= c <= min cols holds raw's value, and every other cell (header rows, beyond the bounds) is unchanged. It succeeds exactly when no body cell is read-only. |
| Worksheet.Sheet.FillRow | vo_tabellen_gui.py:162-163 | Columns 1..cols of the row get the fill; every other cell keeps exactly its old fill, or keeps having none. |
| Worksheet.Sheet.CopyBodyRow | vo_tabellen_gui.py:199-203 | For a row at 6 or below, columns 1..cols take raw's values and no other cell changes. It succeeds exactly when none of those cells is read-only. Rows above 6 are left alone. |
| Worksheet.Sheet.MarkCellsWith1Or2 | vo_tabellen_gui.py:152-163 | The new fills are `Highlighted` of the old (see `HighlightedAt`). Values and dimensions are unchanged. |
| Worksheet.Sheet.FindLastNonemptyColInRow | vo_tabellen_gui.py:358-364 | Returns `LastNonBlankCol`: the largest non-blank column <= max_search, or `None`. |
| Worksheet.Sheet.MoveStandToLastCol | vo_tabellen_gui.py:366-386 | When `StandTarget` names column t, `from_col` is cleared and t receives the "Stand" value. Otherwise nothing changes. At most those two cells of the row change, and fills and dimensions stay. |
| Worksheet.Sheet.NearestLeftNonBlank | vo_tabellen_gui.py:378-383 | The leftward scan returns `LastNonBlankCol` of the columns left of `from_col`, or `from_col` when they are all blank. |
| Worksheet.Sheet.MoveValue | vo_tabellen_gui.py:385-386 | Clearing `from_col` and then writing the target leaves exactly those two updates, in that order, and keeps fills and dimensions when both cells hold values. |
| Layout.StartsWithYearDigits | vo_tabellen_gui.py:263 | Definition of `re.fullmatch(r"\d{4}.*", s)`: four digits, then no line feed. |
| Layout.IsTitleContinuation | vo_tabellen_gui.py:262-263 | Definition of Table 2's test that raw A3 continues the title: truthy, not blank, and not starting like a year. |
| Layout.HeaderOf | vo_tabellen_gui.py:257-263 | Definition of what a builder reads from raw A1..A3, with the period label and the Table 2 continuation flag. Its properties are in `YearIsNotContinuation`, `ContinuationIsAlsoLabel` and `HeaderPlacement`. |
| Layout.TitlePlan | vo_tabellen_gui.py:257-264 | Definition of the title writes in order: A1, A2, then A3 for a continuation. |
| Layout.HeaderPlan | vo_tabellen_gui.py:257-278 | Definition of every header write in order: the title writes, then the label at column A of `PeriodRow` (lines 182-190 for Tables 1, 3 and 5). |
| Layout.MergeSafeWrite | vo_tabellen_gui.py:110-121 | Definition of one `set_value_merge_safe` on values: write at `MergeTarget`, or fail when that cell is read-only. |
| Layout.ApplyWrites | vo_tabellen_gui.py:182-190 | Definition of a sequence of merge-safe writes that stops at the first failure, as the raised error stops a builder. |
| Layout.PeriodRow | vo_tabellen_gui.py:262-278 | The label row lies in 3..5, and is row 4 whenever a Table 2 continuation occupies row 3. |
| Layout.ApplyInPlace | vo_tabellen_gui.py:110-121 | With non-overlapping ranges and no read-only cell addressed, a sequence of merge-safe writes is plain in-place writes. |
| Layout.HeaderPlacement | vo_tabellen_gui.py:257-278 | A1 and A2 take raw A1 and A2. A Table 2 continuation goes to A3, the period label to column A of `PeriodRow`, and every other template cell is untouched. Requires disjoint ranges and A1..A5 not read-only. |
| Layout.ContinuationIsAlsoLabel | vo_tabellen_gui.py:257-265 | When raw A3 is a Table 2 title continuation, the period label is the continuation's own stripped text. |
| Layout.YearIsNotContinuation | vo_tabellen_gui.py:262-278 | A year in raw A3 is never a continuation, so the public Table 2 label goes to row 3 and the internal one to row 4. |
| Layout.WriteHeader | vo_tabellen_gui.py:182-190 | The header writes succeed exactly when `ApplyWrites` of the header plan does, and then leave exactly its grid. The dimensions grow to the label row. |
| Layout.WriteTitleRows | vo_tabellen_gui.py:257-264 | The A1, A2 and (for a Table 2 continuation) A3 writes: the rest of the plan yields from the new cells what the whole plan yields from the old. The dimensions grow to the last title row. |
| Layout.WriteStep | vo_tabellen_gui.py:110-121 | One merge-safe write of a plan: the rest of the plan yields from the new cells what the whole plan yields from the old, and a failure makes the whole plan fail. |
| Layout.BuildSheet | vo_tabellen_gui.py:169-205 | On success, the body cells hold raw's values and every other cell is as after the header writes. It succeeds exactly when the header writes and the body are writable. The body bounds use the dimensions after the header writes. |
| Layout.BuildTable1Annual | vo_tabellen_gui.py:219-232 | A3 gets the label, merge-safely, when the label is not empty. Then rows marked in column G are highlighted. |

## Left out

- The `Logger`, the tkinter GUI (`browse_dir`, `_run`, `start_gui`) and `process_input_folder`: file I/O, clocks, directory listing and user interface. Only the filter and the prefix dispatch of the batch loop are modelled.
- The `process_tableN_file` functions: path joining and `save`. Only the Table 1 annual decision (`"-JJ" in base`) is modelled, as `Naming.IsAnnualBase`.
- Workbook loading (`load_workbook`, `data_only`), sheet selection by name with a fallback to the active sheet, and the Table 5 loop that pairs raw and layout sheets by name or index. A `Sheet` stands for an already loaded sheet.
- The Table 5 call `move_stand_to_last_col(ws_out, 143, 10)` for sheets whose name contains "5.5" or "XML-Tab5-Land". It is a caller detail; the move itself is `MoveStandToLastCol`.
- `normalize_path`: its result depends on the platform's `os.path.normpath`.
- `copy_cell_value`: it is not called anywhere in the program.
- `parse_period_from_filename`, `period_is_jj` and `year_from_period` (lines 84, 96 and 99) are defined but never called. No builder depends on them: Table 1's annual choice at line 209 tests `"-JJ" in base` directly. They are modelled, with their properties, as functions of their own.
- openpyxl styles: a fill is an opaque token, and other styles, column widths and formulas are not represented.
- Cell values other than `None`, `int` and `str`: floats, booleans and dates. In particular `True in (1, 2)` and `1.0 in (1, 2)` hold in Python and would mark a row.
- Reading a cell with `ws.cell(...)` also creates it in openpyxl and can grow the dimensions. The model grows the dimensions on writes only.
- Unicode beyond ASCII in `\d`, `upper()` and `lower()`, and the Windows rules of `os.path`: the model uses ASCII digits and letters and POSIX paths.
- Worksheet.Sheet.CopyBodyFrom: after a failed copy it states only that each cell is unchanged or holds raw's value, not exactly which prefix of the body was copied before the error.
- Layout.BuildSheet: after a failure it states only that the sheet is still consistent and its fills unchanged, not the partial header or body state the error leaves behind.
- Layout.HeaderPlacement: proved only for templates whose ranges do not overlap and whose A1..A5 are not read-only cells; for other templates only `WriteHeader`'s contract in terms of `ApplyWrites` applies.

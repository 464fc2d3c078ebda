/**
 * `auto.py`: the pass over the Riddles worksheet. Every riddle row that lacks
 * a grading prompt gets an "AI: " prompt, and then the riddle cell of every
 * complete row is rewritten as rich text, with its case label in bold italics.
 *
 * Both loops are the per-row write loop of `Formatting`. They run over the
 * 0-based rows from `Formatting.FirstDataRow` (row 3 of the sheet) to the
 * last row, one write per row that has something to write.
 */
module Auto {
  import opened Wrappers
  import opened Text
  import opened Sheet
  import opened Formatting

  /** `generate_grading_logic(question, answer)`: the model's stripped reply to the riddle and its answer. */
  type Logic = (string, string) -> string

  /** The 0-based column of the riddle cell, E (`startColumnIndex: 4`). */
  const RiddleCol: nat := 4

  /** The 0-based column of the grading prompt, F (`update_cell(row_number, 6, ...)`). */
  const PromptCol: nat := 5

  datatype Format = Format(bold: bool, italic: bool)

  const Plain := Format(false, false)
  const BoldItalic := Format(true, true)

  /** A `textFormatRuns` entry: `format` holds from `start` up to the start of the next run. */
  datatype FormatRun = FormatRun(start: nat, format: Format)

  /** One `updateCells` request: `text` in the cell at 1-based (`row`, `col`), with its format runs. */
  datatype RichCell = RichCell(row: Pos, col: Pos, text: string, runs: seq<FormatRun>)

  // ---------------------------------------------------------------------
  // The riddle cell (`write_riddle_with_formatting`).

  /** `len(cells) >= 4 and all(cells[:4])`: case number, teaser, question and answer all given. */
  predicate RowComplete(cells: seq<string>) {
    |cells| >= 4 && forall j :: 0 <= j < 4 ==> cells[j] != ""
  }

  /** `f"(Case No. {case_no}):"` */
  function CaseText(caseNo: string): string {
    "(Case No. " + caseNo + "):"
  }

  /** `teaser.upper().strip()` */
  function TeaserUpper(teaser: string): string {
    Strip(Upper(teaser))
  }

  /** `full_text` with `start_case` and `end_case`, the span of the case label in it. */
  datatype Riddle = Riddle(text: string, startCase: nat, endCase: nat)

  /** `full_text`, `start_case = len(teaser_upper) + 1` and `end_case = start_case + len(case_text)`. */
  function RiddleOf(caseNo: string, teaser: string, question: string): (r: Riddle)
    ensures 1 <= r.startCase <= r.endCase < |r.text|
  {
    var t := TeaserUpper(teaser);
    var c := CaseText(caseNo);
    Riddle(t + " " + c + " " + question, |t| + 1, |t| + 1 + |c|)
  }

  /**
   * The riddle text is the upper-cased teaser, a space, the case label, a
   * space and the question; the case label occupies exactly
   * `[start_case, end_case)`, and the case number can be read back from inside it.
   */
  lemma RiddleSpans(caseNo: string, teaser: string, question: string)
    ensures var r := RiddleOf(caseNo, teaser, question);
      && r.text[..r.startCase - 1] == TeaserUpper(teaser) && r.text[r.startCase - 1] == ' '
      && r.text[r.startCase..r.endCase] == CaseText(caseNo)
      && r.text[r.endCase] == ' ' && r.text[r.endCase + 1..] == question
      && r.text[r.startCase + 10..r.endCase - 2] == caseNo
  {
    var t := TeaserUpper(teaser);
    var c := CaseText(caseNo);
    var rest := c + (" " + question);
    var text := RiddleOf(caseNo, teaser, question).text;
    assert text == t + " " + c + " " + question;
    assert text == (t + " ") + rest;
    assert text[..|t|] == t;
    assert text[|t| + 1..] == rest;
    assert rest[..|c|] == c;
    assert rest[|c| + 1..] == question;
    assert text[|t| + 1 + |c| + 1..] == rest[|c| + 1..];
    assert text[|t| + 1..|t| + 1 + |c|] == rest[..|c|];
    assert c == "(Case No. " + (caseNo + "):");
    assert c[10..|c| - 2] == caseNo;
    assert text[|t| + 11..|t| + |c| - 1] == c[10..|c| - 2];
  }

  /** The format runs of a riddle: bold italics from `start_case`, plain again from `end_case`. */
  function RiddleRuns(r: Riddle): seq<FormatRun> {
    [FormatRun(r.startCase, BoldItalic), FormatRun(r.endCase, Plain)]
  }

  /**
   * The format at character `k` under runs listed by increasing start: that
   * of the last run starting at or before `k`, and plain before the first run.
   */
  function FormatAt(runs: seq<FormatRun>, k: nat): Format
    decreases |runs|
  {
    if |runs| == 0 then Plain
    else if runs[|runs| - 1].start <= k then runs[|runs| - 1].format
    else FormatAt(runs[..|runs| - 1], k)
  }

  /** Exactly the characters of the case label are bold and italic; the teaser and the question stay plain. */
  lemma CaseLabelEmphasised(caseNo: string, teaser: string, question: string, k: nat)
    requires k < |RiddleOf(caseNo, teaser, question).text|
    ensures var r := RiddleOf(caseNo, teaser, question);
      FormatAt(RiddleRuns(r), k) == if r.startCase <= k < r.endCase then BoldItalic else Plain
  {
    var r := RiddleOf(caseNo, teaser, question);
    var runs := RiddleRuns(r);
    var first := runs[..1];
    assert first == [FormatRun(r.startCase, BoldItalic)];
    assert first[..0] == [];
    assert FormatAt(first, k) == if r.startCase <= k then BoldItalic else Plain;
    assert FormatAt(runs, k) == if r.endCase <= k then Plain else FormatAt(first, k);
  }

  /** The request `write_riddle_with_formatting(row)` sends for the row's cells, or None when it skips the row. */
  function RiddleRequest(cells: seq<string>, row: Pos): (q: Option<RichCell>)
    ensures q.Some? <==> RowComplete(cells)
    ensures q.Some? ==> q.value.row == row && q.value.col == RiddleCol + 1
  {
    if !RowComplete(cells) then None
    else
      var r := RiddleOf(cells[0], cells[1], cells[2]);
      Some(RichCell(row, RiddleCol + 1, r.text, RiddleRuns(r)))
  }

  /** The first four cells of 0-based row `i` are all non-empty. */
  predicate CompleteAt(g: Grid, i: nat) {
    forall j :: 0 <= j < 4 ==> CellAt(g, i, j) != ""
  }

  /**
   * `row_values` drops only trailing empty cells, so a row is complete exactly
   * when its first four cells in the grid are non-empty, and then those are
   * the cells read.
   */
  lemma RowValuesComplete(g: Grid, row: Pos)
    ensures RowComplete(RowValues(g, row)) <==> CompleteAt(g, row - 1)
    ensures RowComplete(RowValues(g, row)) ==> forall j :: 0 <= j < 4 ==> RowValues(g, row)[j] == CellAt(g, row - 1, j)
  {
    var cells := RowValues(g, row);
    if row <= |g| {
      var full := g[row - 1];
      assert cells == TrimEmptyTail(full);
      forall j | 0 <= j < |cells| ensures cells[j] == CellAt(g, row - 1, j) {
        assert cells[j] == full[..|cells|][j] == full[j];
      }
      if CompleteAt(g, row - 1) {
        assert CellAt(g, row - 1, 3) != "";
        assert full[3] != "";
        assert |cells| > 3;
      }
    } else {
      assert CellAt(g, row - 1, 0) == "";
    }
  }

  /** The request for 0-based row `i` depends only on its first four cells. */
  lemma RequestByCells(h: Grid, g: Grid, i: nat)
    requires forall j :: 0 <= j < 4 ==> CellAt(h, i, j) == CellAt(g, i, j)
    ensures RiddleRequest(RowValues(h, i + 1), i + 1) == RiddleRequest(RowValues(g, i + 1), i + 1)
  {
    RowValuesComplete(h, i + 1);
    RowValuesComplete(g, i + 1);
    if CompleteAt(g, i) {
      assert RowValues(h, i + 1)[0] == RowValues(g, i + 1)[0];
      assert RowValues(h, i + 1)[1] == RowValues(g, i + 1)[1];
      assert RowValues(h, i + 1)[2] == RowValues(g, i + 1)[2];
    }
  }

  /** The request `write_riddle_with_formatting` sends for 0-based row `i` of `g`, if any. */
  function RowRequest(g: Grid, i: nat): Option<RichCell> {
    RiddleRequest(RowValues(g, i + 1), i + 1)
  }

  /** The riddle text written in each 0-based row of the grid `g`, if the row is complete. */
  function RiddleAt(g: Grid): RowFix {
    (i: nat) => var q := RowRequest(g, i); if q.Some? then Some(q.value.text) else None
  }

  /** The request each 0-based row sends, if any. */
  type RowRequests = nat -> Option<RichCell>

  /** The requests `write_riddle_with_formatting` sends for the rows of `g`. */
  function RequestAt(g: Grid): RowRequests {
    (i: nat) => RowRequest(g, i)
  }

  /** A request sent or not, as a list of one or none. */
  function Sent(q: Option<RichCell>): seq<RichCell> {
    if q.Some? then [q.value] else []
  }

  /** The requests of a loop over the 0-based rows from `FirstDataRow` up to `n`, in row order. */
  function SentUpTo(req: RowRequests, n: nat): seq<RichCell>
    decreases n
  {
    if n <= FirstDataRow then [] else SentUpTo(req, n - 1) + Sent(req(n - 1))
  }

  /** The requests of the riddle loop over the rows of `g` up to 0-based row `n`. */
  function RiddleRequests(g: Grid, n: nat): seq<RichCell> {
    SentUpTo(RequestAt(g), n)
  }

  /** Each request the loop sends is that of a row it covers, and is for that row. */
  lemma {:induction false} SentFromRow(req: RowRequests, n: nat, k: nat)
    requires forall i: nat :: req(i).Some? ==> req(i).value.row == i + 1
    requires k < |SentUpTo(req, n)|
    ensures var q := SentUpTo(req, n)[k];
      FirstDataRow < q.row <= n && req(q.row - 1) == Some(q)
    decreases n
  {
    assert n > FirstDataRow;
    var prev := SentUpTo(req, n - 1);
    assert SentUpTo(req, n) == prev + Sent(req(n - 1));
    if k < |prev| {
      SentFromRow(req, n - 1, k);
      assert SentUpTo(req, n)[k] == prev[k];
    } else {
      assert req(n - 1).Some? && SentUpTo(req, n)[k] == req(n - 1).value;
    }
  }

  /** Every row the loop covers that has a request gets it sent. */
  lemma {:induction false} SentEveryRow(req: RowRequests, n: nat, i: nat)
    requires FirstDataRow <= i < n && req(i).Some?
    ensures req(i).value in SentUpTo(req, n)
    decreases n
  {
    var prev := SentUpTo(req, n - 1);
    assert SentUpTo(req, n) == prev + Sent(req(n - 1));
    if i < n - 1 {
      SentEveryRow(req, n - 1, i);
    }
  }

  /** The loop sends its requests in increasing row order, so no row twice. */
  lemma {:induction false} SentInRowOrder(req: RowRequests, n: nat, k: nat, l: nat)
    requires forall i: nat :: req(i).Some? ==> req(i).value.row == i + 1
    requires k < l < |SentUpTo(req, n)|
    ensures SentUpTo(req, n)[k].row < SentUpTo(req, n)[l].row
    decreases n
  {
    assert n > FirstDataRow;
    var prev := SentUpTo(req, n - 1);
    var qs := SentUpTo(req, n);
    assert qs == prev + Sent(req(n - 1));
    assert qs[k] == prev[k];
    if l < |prev| {
      SentInRowOrder(req, n - 1, k, l);
      assert qs[l] == prev[l];
    } else {
      SentFromRow(req, n - 1, k);
      assert req(n - 1).Some? && qs[l] == req(n - 1).value;
    }
  }

  /** Each request the riddle loop sends is the riddle of a complete row it covers. */
  lemma RiddleRequestsFromRows(g: Grid, n: nat, k: nat)
    requires k < |RiddleRequests(g, n)|
    ensures var q := RiddleRequests(g, n)[k];
      FirstDataRow < q.row <= n && CompleteAt(g, q.row - 1) && Some(q) == RiddleRequest(RowValues(g, q.row), q.row)
  {
    var req := RequestAt(g);
    var q := RiddleRequests(g, n)[k];
    assert q == SentUpTo(req, n)[k];
    SentFromRow(req, n, k);
    var row: nat := q.row;
    var i: nat := row - 1;
    assert req(i) == Some(q);
    assert i + 1 == row;
    assert req(i) == RiddleRequest(RowValues(g, row), row);
    RowValuesComplete(g, row);
  }

  /** Every complete row the riddle loop covers gets a request. */
  lemma RiddleRequestsCoverRows(g: Grid, n: nat, i: nat)
    requires FirstDataRow <= i < n && CompleteAt(g, i)
    ensures exists k :: 0 <= k < |RiddleRequests(g, n)| && RiddleRequests(g, n)[k].row == i + 1
  {
    var req := RequestAt(g);
    var qs := RiddleRequests(g, n);
    RowValuesComplete(g, i + 1);
    assert req(i) == RiddleRequest(RowValues(g, i + 1), i + 1);
    SentEveryRow(req, n, i);
    var k :| 0 <= k < |qs| && qs[k] == req(i).value;
  }

  /** The riddle loop sends its requests in increasing row order. */
  lemma RiddleRequestsInOrder(g: Grid, n: nat)
    ensures var qs := RiddleRequests(g, n);
      forall k, l :: 0 <= k < l < |qs| ==> qs[k].row < qs[l].row
  {
    var qs := RiddleRequests(g, n);
    forall k, l | 0 <= k < l < |qs| ensures qs[k].row < qs[l].row {
      SentInRowOrder(RequestAt(g), n, k, l);
    }
  }

  /** Loops whose rows send the same requests send the same list. */
  lemma {:induction false} SentSame(req: RowRequests, req': RowRequests, n: nat)
    requires forall i :: FirstDataRow <= i < n ==> req(i) == req'(i)
    ensures SentUpTo(req, n) == SentUpTo(req', n)
    decreases n
  {
    if n > FirstDataRow {
      SentSame(req, req', n - 1);
    }
  }

  /** Grids that agree on the first four columns get the same requests. */
  lemma RequestsByCells(h: Grid, g: Grid, n: nat)
    requires forall i, j :: 0 <= j < 4 ==> CellAt(h, i, j) == CellAt(g, i, j)
    ensures RiddleRequests(h, n) == RiddleRequests(g, n)
  {
    forall i | FirstDataRow <= i < n ensures RequestAt(h)(i) == RequestAt(g)(i) {
      RequestByCells(h, g, i);
    }
    SentSame(RequestAt(h), RequestAt(g), n);
  }

  /** The grid the riddle loop leaves over the rows of `g`. */
  function Riddled(g: Grid): Grid {
    FixedGrid(g, RiddleAt(g), RiddleCol, |g|)
  }

  /**
   * The cells after the riddle loop: a complete data row holds its riddle
   * text in column E, and every other cell is as before.
   */
  lemma RiddleCells(g: Grid, i: nat, j: nat)
    ensures CellAt(Riddled(g), i, j) ==
      if j == RiddleCol && FirstDataRow <= i < |g| && CompleteAt(g, i)
      then RiddleOf(CellAt(g, i, 0), CellAt(g, i, 1), CellAt(g, i, 2)).text
      else CellAt(g, i, j)
  {
    FixedGridCells(g, RiddleAt(g), RiddleCol, |g|, i, j);
    RiddleOfRow(g, i);
  }

  /** The riddle text of 0-based row `i`, in terms of the row's cells. */
  lemma RiddleOfRow(g: Grid, i: nat)
    ensures RiddleAt(g)(i) ==
      if CompleteAt(g, i) then Some(RiddleOf(CellAt(g, i, 0), CellAt(g, i, 1), CellAt(g, i, 2)).text) else None
  {
    RowValuesComplete(g, i + 1);
    var cells := RowValues(g, i + 1);
    assert RiddleAt(g)(i) == if RowComplete(cells) then Some(RiddleOf(cells[0], cells[1], cells[2]).text) else None;
  }

  // ---------------------------------------------------------------------
  // The grading prompts (`populate_ai_grading_prompts`).

  /**
   * The prompt written in 0-based row `i` of the snapshot `rows`: "AI: " and
   * the generated logic when the question (C) and the answer (D) are given
   * and the prompt (F) is blank; a short row reads its missing cells as "".
   */
  function PromptAt(rows: Grid, logic: Logic): RowFix {
    (i: nat) =>
      if i < |rows| && CellAt(rows, i, 2) != "" && CellAt(rows, i, 3) != "" && Strip(CellAt(rows, i, PromptCol)) == ""
      then Some("AI: " + logic(CellAt(rows, i, 2), CellAt(rows, i, 3)))
      else None
  }

  /** The `update_cell` calls of `populate_ai_grading_prompts` over the snapshot `rows`. */
  function PromptOps(rows: Grid, logic: Logic): seq<WriteOp> {
    Fixes(PromptAt(rows, logic), PromptCol, |rows|)
  }

  /** The grid after the prompts are written. */
  function Prompted(rows: Grid, logic: Logic): Grid {
    FixedGrid(rows, PromptAt(rows, logic), PromptCol, |rows|)
  }

  /**
   * Every prompt write is one cell of column F, in a data row whose question
   * and answer are given and whose prompt is blank, and holds "AI: " and the
   * logic generated for that row.
   */
  lemma PromptWrites(rows: Grid, logic: Logic)
    ensures var ops := PromptOps(rows, logic);
      forall k :: 0 <= k < |ops| ==>
        var i := ops[k].row - 1;
        FirstDataRow <= i < |rows| && CellAt(rows, i, 2) != "" && CellAt(rows, i, 3) != ""
        && IsBlank(CellAt(rows, i, PromptCol))
        && ops[k] == WriteOp(i + 1, PromptCol + 1, [["AI: " + logic(CellAt(rows, i, 2), CellAt(rows, i, 3))]])
  {
    var at := PromptAt(rows, logic);
    var ops := PromptOps(rows, logic);
    FixesRows(at, PromptCol, |rows|);
    forall k | 0 <= k < |ops|
      ensures var i := ops[k].row - 1;
        FirstDataRow <= i < |rows| && CellAt(rows, i, 2) != "" && CellAt(rows, i, 3) != ""
        && IsBlank(CellAt(rows, i, PromptCol))
        && ops[k] == WriteOp(i + 1, PromptCol + 1, [["AI: " + logic(CellAt(rows, i, 2), CellAt(rows, i, 3))]])
    {
      assert ops[k] == Fixes(at, PromptCol, |rows|)[k];
      var i := ops[k].row - 1;
      assert at(i).Some?;
      StripEmptyIffBlank(CellAt(rows, i, PromptCol));
    }
  }

  /**
   * The cells after the prompts are written: a data row with its question and
   * answer and a blank prompt holds "AI: " and the generated logic in column
   * F; every other cell is as before.
   */
  lemma PromptCells(rows: Grid, logic: Logic, i: nat, j: nat)
    ensures CellAt(Prompted(rows, logic), i, j) ==
      if j == PromptCol && FirstDataRow <= i < |rows| && CellAt(rows, i, 2) != "" && CellAt(rows, i, 3) != ""
        && IsBlank(CellAt(rows, i, PromptCol))
      then "AI: " + logic(CellAt(rows, i, 2), CellAt(rows, i, 3))
      else CellAt(rows, i, j)
  {
    FixedGridCells(rows, PromptAt(rows, logic), PromptCol, |rows|, i, j);
    StripEmptyIffBlank(CellAt(rows, i, PromptCol));
  }

  /** After the pass every data row with a question and an answer has a non-blank prompt. */
  lemma PromptsFilled(rows: Grid, logic: Logic, i: nat)
    requires FirstDataRow <= i < |rows| && CellAt(rows, i, 2) != "" && CellAt(rows, i, 3) != ""
    ensures !IsBlank(CellAt(Prompted(rows, logic), i, PromptCol))
  {
    PromptCells(rows, logic, i, PromptCol);
    var p := CellAt(Prompted(rows, logic), i, PromptCol);
    if IsBlank(CellAt(rows, i, PromptCol)) {
      assert p[0] == 'A' && !IsSpace(p[0]);
    }
  }

  /** A loop none of whose rows has a fix writes nothing. */
  lemma {:induction false} NoFixesNoWrites(at: RowFix, c: nat, n: nat)
    requires forall i :: FirstDataRow <= i < n ==> at(i).None?
    ensures Fixes(at, c, n) == []
    decreases n
  {
    if n > FirstDataRow {
      NoFixesNoWrites(at, c, n - 1);
      assert at(n - 1).None?;
      assert Fixes(at, c, n) == Fixes(at, c, n - 1) + RowWrite(at, c, n - 1);
    }
  }

  /** Running the pass again on its own result writes nothing, whatever the generator answers. */
  lemma PromptsIdempotent(rows: Grid, logic: Logic, logic': Logic)
    ensures PromptOps(Prompted(rows, logic), logic') == []
  {
    var after := Prompted(rows, logic);
    var at' := PromptAt(after, logic');
    forall i | FirstDataRow <= i < |after| ensures at'(i).None? {
      PromptCells(rows, logic, i, 2);
      PromptCells(rows, logic, i, 3);
      if CellAt(after, i, 2) != "" && CellAt(after, i, 3) != "" {
        assert i < |rows|;
        PromptsFilled(rows, logic, i);
        StripEmptyIffBlank(CellAt(after, i, PromptCol));
      }
    }
    NoFixesNoWrites(at', PromptCol, |after|);
  }

  /** Writing the prompts leaves the case number, teaser, question and answer of every row as they were. */
  lemma PromptsKeepRiddles(rows: Grid, logic: Logic, n: nat)
    ensures RiddleRequests(Prompted(rows, logic), n) == RiddleRequests(rows, n)
  {
    forall i, j | 0 <= j < 4 ensures CellAt(Prompted(rows, logic), i, j) == CellAt(rows, i, j) {
      PromptCells(rows, logic, i, j);
    }
    RequestsByCells(Prompted(rows, logic), rows, n);
  }

  /** Writes to rows inside the grid keep its number of rows. */
  lemma {:induction false} FixedGridLength(g: Grid, at: RowFix, c: nat, n: nat)
    requires forall i :: FirstDataRow <= i < n && at(i).Some? ==> i < |g|
    ensures |FixedGrid(g, at, c, n)| == |g|
    decreases n
  {
    if n > FirstDataRow {
      var h := FixedGrid(g, at, c, n - 1);
      FixedGridLength(g, at, c, n - 1);
      if at(n - 1).Some? {
        WriteBlockSpec(h, n - 1, c, [[at(n - 1).value]]);
      }
    }
  }

  /** The writes of the loop up to row `i` leave the first four cells of row `i` alone. */
  lemma RowUntouched(g: Grid, at: RowFix, c: nat, i: nat)
    requires c >= 4
    ensures forall j :: 0 <= j < 4 ==> CellAt(FixedGrid(g, at, c, i), i, j) == CellAt(g, i, j)
  {
    forall j | 0 <= j < 4 ensures CellAt(FixedGrid(g, at, c, i), i, j) == CellAt(g, i, j) {
      FixedGridCells(g, at, c, i, i, j);
    }
  }

  // ---------------------------------------------------------------------
  // The methods.

  /** The spreadsheet holding the Riddles worksheet, with the rich-text requests sent to it. */
  class Spreadsheet {
    var requests: seq<RichCell>

    constructor ()
      ensures requests == []
    {
      requests := [];
    }

    /** `sheet.batch_update({'requests': [updateCells]})`: the cell of `ws` takes the text, and the request is logged. */
    method UpdateRichCell(ws: Worksheet, q: RichCell)
      modifies this, ws
      ensures ws.grid == ApplyOp(old(ws.grid), WriteOp(q.row, q.col, [[q.text]]))
      ensures ws.writes == old(ws.writes)
      ensures requests == old(requests) + [q]
    {
      ws.grid := ApplyOp(ws.grid, WriteOp(q.row, q.col, [[q.text]]));
      requests := requests + [q];
    }
  }

  /** `write_riddle_with_formatting(row)`: the row's cells read live, and the request sent unless the row is skipped. */
  method WriteRiddleWithFormatting(book: Spreadsheet, ws: Worksheet, row: Pos) returns (q: Option<RichCell>)
    modifies book, ws
    ensures q == RiddleRequest(RowValues(old(ws.grid), row), row)
    ensures ws.grid == if q.Some? then ApplyOp(old(ws.grid), WriteOp(row, RiddleCol + 1, [[q.value.text]])) else old(ws.grid)
    ensures ws.writes == old(ws.writes)
    ensures book.requests == old(book.requests) + Sent(q)
  {
    var cells := RowValues(ws.grid, row);
    q := RiddleRequest(cells, row);
    if q.Some? {
      book.UpdateRichCell(ws, q.value);
    } else {
      assert book.requests + [] == book.requests;
    }
  }

  /**
   * A turn of the riddle loop at 0-based row `i`, on the grid `h` the earlier
   * turns left: the row reads as in `g`, so it sends the request it has in `g`.
   */
  lemma RiddleTurn(g: Grid, i: nat, h: Grid)
    requires FirstDataRow <= i && h == FixedGrid(g, RiddleAt(g), RiddleCol, i)
    ensures RowRequest(h, i) == RowRequest(g, i)
    ensures var q := RowRequest(g, i);
      && FixedGrid(g, RiddleAt(g), RiddleCol, i + 1) ==
        (if q.Some? then ApplyOp(h, WriteOp(i + 1, RiddleCol + 1, [[q.value.text]])) else h)
      && RiddleRequests(g, i + 1) == RiddleRequests(g, i) + Sent(q)
  {
    var at := RiddleAt(g);
    var q := RowRequest(g, i);
    assert at(i) == if q.Some? then Some(q.value.text) else None;
    assert RequestAt(g)(i) == q;
    RowUntouched(g, at, RiddleCol, i);
    RequestByCells(h, g, i);
    FixedGridStep(g, at, RiddleCol, i);
  }

  /** One turn of the riddle loop, at 0-based row `i`, carrying the loop's state to row `i + 1`. */
  method FormatRow(book: Spreadsheet, ws: Worksheet, g: Grid, i: nat, ghost r0: seq<RichCell>)
    requires FirstDataRow <= i
    requires ws.grid == FixedGrid(g, RiddleAt(g), RiddleCol, i) && book.requests == r0 + RiddleRequests(g, i)
    modifies book, ws
    ensures ws.grid == FixedGrid(g, RiddleAt(g), RiddleCol, i + 1) && book.requests == r0 + RiddleRequests(g, i + 1)
    ensures ws.writes == old(ws.writes)
  {
    RiddleTurn(g, i, ws.grid);
    var q := WriteRiddleWithFormatting(book, ws, i + 1);
    assert book.requests == r0 + (RiddleRequests(g, i) + Sent(q));
  }

  /** The riddle loop of `format_and_populate_all`, over the rows of `ws` from row 3 on. */
  method FormatRows(book: Spreadsheet, ws: Worksheet)
    modifies book, ws
    ensures ws.grid == Riddled(old(ws.grid))
    ensures ws.writes == old(ws.writes)
    ensures book.requests == old(book.requests) + RiddleRequests(old(ws.grid), |old(ws.grid)|)
  {
    var g := ws.grid;
    if |g| <= FirstDataRow {
      assert book.requests + [] == book.requests;
      return;
    }
    for i := FirstDataRow to |g|
      invariant ws.grid == FixedGrid(g, RiddleAt(g), RiddleCol, i)
      invariant ws.writes == old(ws.writes)
      invariant book.requests == old(book.requests) + RiddleRequests(g, i)
    {
      FormatRow(book, ws, g, i, old(book.requests));
    }
  }

  /** One turn of the prompt loop, at 0-based row `i` of the snapshot `rows`. */
  method PromptRow(ws: Worksheet, rows: Grid, logic: Logic, i: nat, ghost at: RowFix)
    requires at == PromptAt(rows, logic)
    requires i < |rows|
    modifies ws
    ensures ws.grid == if at(i).Some? then ApplyOp(old(ws.grid), WriteOp(i + 1, PromptCol + 1, [[at(i).value]])) else old(ws.grid)
    ensures ws.writes == old(ws.writes) + RowWrite(at, PromptCol, i)
  {
    var row := rows[i];
    var question := if |row| > 2 then row[2] else "";
    var answer := if |row| > 3 then row[3] else "";
    var prompt := if |row| > 5 then row[5] else "";
    assert question == CellAt(rows, i, 2) && answer == CellAt(rows, i, 3) && prompt == CellAt(rows, i, PromptCol);
    if question == "" || answer == "" {
      assert ws.writes + [] == ws.writes;
      return;
    }
    if Strip(prompt) != "" {
      assert ws.writes + [] == ws.writes;
      return;
    }
    var generated := logic(question, answer);
    ws.UpdateCell(i + 1, PromptCol + 1, "AI: " + generated);
  }

  /** `populate_ai_grading_prompts()`: one `update_cell` per data row of the snapshot that needs a prompt. */
  method PopulateAiGradingPrompts(ws: Worksheet, logic: Logic)
    modifies ws
    ensures ws.writes == old(ws.writes) + PromptOps(old(ws.grid), logic)
    ensures ws.grid == Prompted(old(ws.grid), logic)
  {
    var rows := ws.grid;
    ghost var at := PromptAt(rows, logic);
    if |rows| <= FirstDataRow {
      assert Fixes(at, PromptCol, |rows|) == [];
      assert ws.writes + [] == ws.writes;
    } else {
      PromptRows(ws, rows, logic, at);
    }
  }

  /** The loop of `populate_ai_grading_prompts` over the rows from row 3 of the snapshot `rows`, which `ws` still holds. */
  method PromptRows(ws: Worksheet, rows: Grid, logic: Logic, ghost at: RowFix)
    requires at == PromptAt(rows, logic)
    requires ws.grid == rows && |rows| > FirstDataRow
    modifies ws
    ensures ws.writes == old(ws.writes) + Fixes(at, PromptCol, |rows|)
    ensures ws.grid == FixedGrid(rows, at, PromptCol, |rows|)
  {
    for i := FirstDataRow to |rows|
      invariant ws.writes == old(ws.writes) + Fixes(at, PromptCol, i)
      invariant ws.grid == FixedGrid(rows, at, PromptCol, i)
    {
      PromptStep(ws, rows, logic, i, at, old(ws.writes));
    }
  }

  /** A turn of the prompt loop carries the loop's state from row `i` to row `i + 1`. */
  method PromptStep(ws: Worksheet, rows: Grid, logic: Logic, i: nat, ghost at: RowFix, ghost w0: seq<WriteOp>)
    requires at == PromptAt(rows, logic)
    requires FirstDataRow <= i < |rows|
    requires ws.writes == w0 + Fixes(at, PromptCol, i) && ws.grid == FixedGrid(rows, at, PromptCol, i)
    modifies ws
    ensures ws.writes == w0 + Fixes(at, PromptCol, i + 1) && ws.grid == FixedGrid(rows, at, PromptCol, i + 1)
  {
    ghost var done := Fixes(at, PromptCol, i);
    FixedGridStep(rows, at, PromptCol, i);
    PromptRow(ws, rows, logic, i, at);
    assert ws.writes == w0 + (done + RowWrite(at, PromptCol, i));
  }

  /**
   * `format_and_populate_all()`: the prompts first, then the riddle cells of
   * the grid as the prompts left it. The riddle requests are those of the
   * grid before the pass, since the prompts touch only column F.
   */
  method FormatAndPopulateAll(book: Spreadsheet, ws: Worksheet, logic: Logic)
    modifies book, ws
    ensures ws.writes == old(ws.writes) + PromptOps(old(ws.grid), logic)
    ensures book.requests == old(book.requests) + RiddleRequests(old(ws.grid), |old(ws.grid)|)
    ensures ws.grid == Riddled(Prompted(old(ws.grid), logic))
  {
    ghost var g := ws.grid;
    PopulateAiGradingPrompts(ws, logic);
    FixedGridLength(g, PromptAt(g, logic), PromptCol, |g|);
    PromptsKeepRiddles(g, logic, |g|);
    FormatRows(book, ws);
  }
}

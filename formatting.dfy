/**
 * `src/modules/formatting.py`: in-place clean-ups of one column of the
 * Submissions worksheet, one `update_cell` call per cell that changes.
 */
module Formatting {
  import opened Wrappers
  import opened Text
  import opened Collections
  import opened Sheet
  import FirstNames
  import LastNames

  /** What a clean-up does with a stripped cell: the value to write, or None to leave it. */
  type Fix = string -> Option<string>

  /** The 0-based index of the first row a clean-up looks at: below the header and the template row. */
  const FirstDataRow: nat := 2

  /** The three ways a clean-up ends: `rows[0]` raises on an empty sheet, the header is missing, or the cells were fixed. */
  datatype Cleanup = NoRows | NoColumn | Cleaned(updated: nat)

  /** The value a clean-up writes at each 0-based row of its column, if any. */
  type RowFix = nat -> Option<string>

  /** The fix of each row of the grid; a row too short to reach column `c`, or past the grid, is skipped. */
  function CellFixes(rows: Grid, c: nat, fix: Fix): RowFix {
    (i: nat) => if i < |rows| && c < |rows[i]| then fix(Strip(rows[i][c])) else None
  }

  /** The `update_cell` call of 0-based row `i`, column `c`, if it has a fix. */
  function RowWrite(at: RowFix, c: nat, i: nat): seq<WriteOp> {
    if at(i).Some? then [WriteOp(i + 1, c + 1, [[at(i).value]])] else []
  }

  /** The `update_cell` calls of the loop over the 0-based rows from `FirstDataRow` up to `n`. */
  function Fixes(at: RowFix, c: nat, n: nat): seq<WriteOp>
    decreases n
  {
    if n <= FirstDataRow then [] else Fixes(at, c, n - 1) + RowWrite(at, c, n - 1)
  }

  lemma FixesSnoc(at: RowFix, c: nat, n: nat)
    requires n > FirstDataRow
    ensures Fixes(at, c, n) == Fixes(at, c, n - 1) + RowWrite(at, c, n - 1)
  {
  }

  /** Every write is a single cell of the column, at a data row below `n` that has a fix, holding the fix. */
  lemma {:induction false} FixesRows(at: RowFix, c: nat, n: nat)
    ensures var ops := Fixes(at, c, n);
      forall k :: 0 <= k < |ops| ==>
           FirstDataRow + 1 <= ops[k].row <= n && at(ops[k].row - 1).Some?
           && ops[k] == WriteOp(ops[k].row, c + 1, [[at(ops[k].row - 1).value]])
    decreases n
  {
    if n > FirstDataRow {
      FixesRows(at, c, n - 1);
      var prev := Fixes(at, c, n - 1);
      var ops := Fixes(at, c, n);
      FixesSnoc(at, c, n);
      forall k | 0 <= k < |ops|
        ensures FirstDataRow + 1 <= ops[k].row <= n && at(ops[k].row - 1).Some?
          && ops[k] == WriteOp(ops[k].row, c + 1, [[at(ops[k].row - 1).value]])
      {
        if k < |prev| {
          assert ops[k] == prev[k];
        } else {
          assert ops[k] == WriteOp(n, c + 1, [[at(n - 1).value]]);
        }
      }
    }
  }

  /** Every write goes into the column, at a data row below `n`. */
  lemma {:induction false} FixesBounds(at: RowFix, c: nat, n: nat)
    ensures var ops := Fixes(at, c, n);
      forall k :: 0 <= k < |ops| ==> FirstDataRow + 1 <= ops[k].row <= n && ops[k].col == c + 1
    decreases n
  {
    if n > FirstDataRow {
      FixesBounds(at, c, n - 1);
      FixesSnoc(at, c, n);
    }
  }

  /** The writes go in row order, so no row is written twice. */
  lemma {:induction false} FixesOrdered(at: RowFix, c: nat, n: nat)
    ensures var ops := Fixes(at, c, n);
      forall k, k' :: 0 <= k < k' < |ops| ==> ops[k].row < ops[k'].row
    decreases n
  {
    if n > FirstDataRow {
      FixesOrdered(at, c, n - 1);
      FixesBounds(at, c, n - 1);
      var prev := Fixes(at, c, n - 1);
      var ops := Fixes(at, c, n);
      FixesSnoc(at, c, n);
      forall k, k' | 0 <= k < k' < |ops| ensures ops[k].row < ops[k'].row {
        assert k < |prev| && ops[k] == prev[k];
        if k' < |prev| {
          assert ops[k'] == prev[k'];
        } else {
          assert ops[k'].row == n;
        }
      }
    }
  }

  /**
   * Data row `i` (0-based) is written exactly when it lies below `n` and has a
   * fix, and every write to it holds the fixed value.
   */
  lemma {:induction false} FixesAt(at: RowFix, c: nat, n: nat, i: nat)
    ensures var ops := Fixes(at, c, n);
      (FirstDataRow <= i < n && at(i).Some? ==> WriteOp(i + 1, c + 1, [[at(i).value]]) in ops)
      && forall k :: 0 <= k < |ops| && ops[k].row == i + 1 ==>
           FirstDataRow <= i < n && at(i).Some? && ops[k] == WriteOp(i + 1, c + 1, [[at(i).value]])
    decreases n
  {
    if n > FirstDataRow {
      FixesAt(at, c, n - 1, i);
      FixesBounds(at, c, n - 1);
      var prev := Fixes(at, c, n - 1);
      var ops := Fixes(at, c, n);
      FixesSnoc(at, c, n);
      if FirstDataRow <= i < n && at(i).Some? {
        if i < n - 1 {
          assert WriteOp(i + 1, c + 1, [[at(i).value]]) in prev;
        } else {
          assert ops[|ops| - 1] == WriteOp(i + 1, c + 1, [[at(i).value]]);
        }
      }
      forall k | 0 <= k < |ops| && ops[k].row == i + 1
        ensures FirstDataRow <= i < n && at(i).Some? && ops[k] == WriteOp(i + 1, c + 1, [[at(i).value]])
      {
        if k < |prev| {
          assert ops[k] == prev[k];
        } else {
          assert ops[k] == WriteOp(n, c + 1, [[at(n - 1).value]]);
        }
      }
    }
  }

  /**
   * Reading the grid after the writes: a data row with a fix holds the fixed
   * value in the column, and every other cell is as before.
   */
  lemma FixesCells(at: RowFix, c: nat, n: nat, g: Grid, i: nat, j: nat)
    ensures CellAt(ApplyOps(g, Fixes(at, c, n)), i, j) ==
      if j == c && FirstDataRow <= i < n && at(i).Some? then at(i).value else CellAt(g, i, j)
  {
    FixedGridApplies(g, at, c, n);
    FixedGridCells(g, at, c, n, i, j);
  }

  /** Writes confined to rows with a fix that lie inside the grid keep its shape. */
  lemma FixesKeepShape(at: RowFix, c: nat, n: nat, g: Grid)
    requires forall i :: FirstDataRow <= i < n && at(i).Some? ==> i < |g| && c < |g[i]|
    ensures SameShape(ApplyOps(g, Fixes(at, c, n)), g)
  {
    var ops := Fixes(at, c, n);
    FixesRows(at, c, n);
    assert CellWritesInside(g, ops) by {
      forall k | 0 <= k < |ops|
        ensures |ops[k].values| == 1 && |ops[k].values[0]| == 1
          && ops[k].row - 1 < |g| && ops[k].col - 1 < |g[ops[k].row - 1]|
      {
        assert ops[k] == Fixes(at, c, n)[k];
        var i: nat := ops[k].row - 1;
        assert FirstDataRow <= i < n && at(i).Some?;
        assert i < |g| && c < |g[i]|;
        assert ops[k] == WriteOp(i + 1, c + 1, [[at(i).value]]);
      }
    }
    CellWritesKeepShape(g, ops);
  }

  /** The writes of the loop over the whole grid. */
  function ColumnOps(rows: Grid, c: nat, fix: Fix): seq<WriteOp> {
    Fixes(CellFixes(rows, c, fix), c, |rows|)
  }

  /** The grid after the loop's writes to the 0-based rows from `FirstDataRow` up to `n`, one after another. */
  function FixedGrid(g: Grid, at: RowFix, c: nat, n: nat): Grid
    decreases n
  {
    if n <= FirstDataRow then g
    else
      var h := FixedGrid(g, at, c, n - 1);
      if at(n - 1).Some? then ApplyOp(h, WriteOp(n, c + 1, [[at(n - 1).value]])) else h
  }

  /** One more turn of the loop, counted from the row it handles. */
  lemma FixedGridStep(g: Grid, at: RowFix, c: nat, i: nat)
    requires FirstDataRow <= i
    ensures Fixes(at, c, i + 1) == Fixes(at, c, i) + RowWrite(at, c, i)
    ensures FixedGrid(g, at, c, i + 1) ==
      if at(i).Some? then ApplyOp(FixedGrid(g, at, c, i), WriteOp(i + 1, c + 1, [[at(i).value]])) else FixedGrid(g, at, c, i)
  {
  }

  /** `FixedGrid` is the grid the loop's write calls leave. */
  lemma {:induction false} FixedGridApplies(g: Grid, at: RowFix, c: nat, n: nat)
    ensures FixedGrid(g, at, c, n) == ApplyOps(g, Fixes(at, c, n))
    decreases n
  {
    if n > FirstDataRow {
      FixedGridApplies(g, at, c, n - 1);
      FixesSnoc(at, c, n);
      var prev := Fixes(at, c, n - 1);
      if at(n - 1).Some? {
        var op := WriteOp(n, c + 1, [[at(n - 1).value]]);
        assert Fixes(at, c, n) == prev + [op];
        ApplyOpsSnoc(g, prev, op);
      } else {
        assert Fixes(at, c, n) == prev + [];
        assert prev + [] == prev;
      }
    }
  }

  /** The cells of `FixedGrid`: the fixed value in the column at a data row below `n` with a fix, the old cell elsewhere. */
  lemma {:induction false} FixedGridCells(g: Grid, at: RowFix, c: nat, n: nat, i: nat, j: nat)
    ensures CellAt(FixedGrid(g, at, c, n), i, j) ==
      if j == c && FirstDataRow <= i < n && at(i).Some? then at(i).value else CellAt(g, i, j)
    decreases n
  {
    if n > FirstDataRow {
      var h := FixedGrid(g, at, c, n - 1);
      FixedGridCells(g, at, c, n - 1, i, j);
      if at(n - 1).Some? {
        CellOpCellAt(h, n, c + 1, at(n - 1).value, i, j);
      }
    }
  }

  /** The fix the loop computes for 0-based row `i` of the snapshot: none for a row too short to reach column `c`. */
  method ReadFix(rows: Grid, c: nat, fix: Fix, i: nat) returns (r: Option<string>)
    requires i < |rows|
    ensures r == CellFixes(rows, c, fix)(i)
  {
    r := None;
    if |rows[i]| >= c + 1 {
      r := fix(Strip(rows[i][c]));
    }
  }

  /** One turn of the clean-up loop: row `i` of the snapshot `rows` is written back fixed, if it has a fix. */
  method FixRow(ws: Worksheet, rows: Grid, c: nat, fix: Fix, i: nat, ghost at: RowFix) returns (wrote: nat)
    requires at == CellFixes(rows, c, fix)
    requires i < |rows|
    modifies ws
    ensures ws.grid == if at(i).Some? then ApplyOp(old(ws.grid), WriteOp(i + 1, c + 1, [[at(i).value]])) else old(ws.grid)
    ensures ws.writes == old(ws.writes) + RowWrite(at, c, i) && wrote == |RowWrite(at, c, i)|
  {
    var r := ReadFix(rows, c, fix, i);
    if r.Some? {
      ws.UpdateCell(i + 1, c + 1, r.value);
      wrote := 1;
    } else {
      wrote := 0;
    }
  }

  /** The loop over the data rows of the snapshot `rows`, which `ws` still holds. */
  method RewriteRows(ws: Worksheet, rows: Grid, c: nat, fix: Fix, ghost at: RowFix) returns (updated: nat)
    requires at == CellFixes(rows, c, fix)
    requires ws.grid == rows && |rows| > FirstDataRow
    modifies ws
    ensures updated == |Fixes(at, c, |rows|)|
    ensures ws.writes == old(ws.writes) + Fixes(at, c, |rows|)
    ensures ws.grid == FixedGrid(rows, at, c, |rows|)
  {
    updated := 0;
    for i := FirstDataRow to |rows|
      invariant updated == |Fixes(at, c, i)|
      invariant ws.writes == old(ws.writes) + Fixes(at, c, i)
      invariant ws.grid == FixedGrid(rows, at, c, i)
    {
      ghost var done := Fixes(at, c, i);
      FixedGridStep(rows, at, c, i);
      var wrote := FixRow(ws, rows, c, fix, i, at);
      assert ws.writes == old(ws.writes) + (done + RowWrite(at, c, i));
      updated := updated + wrote;
    }
  }

  /**
   * The loop of a clean-up over a snapshot of the grid: one `update_cell` per
   * fixed cell, and the number of cells updated.
   */
  method RewriteColumn(ws: Worksheet, c: nat, fix: Fix) returns (updated: nat)
    modifies ws
    ensures var ops := ColumnOps(old(ws.grid), c, fix);
      updated == |ops|
      && ws.writes == old(ws.writes) + ops && ws.grid == ApplyOps(old(ws.grid), ops)
  {
    var rows := ws.grid;
    ghost var at := CellFixes(rows, c, fix);
    FixedGridApplies(rows, at, c, |rows|);
    if |rows| > FirstDataRow {
      updated := RewriteRows(ws, rows, c, fix, at);
    } else {
      assert Fixes(at, c, |rows|) == [];
      assert ws.writes + [] == ws.writes;
      updated := 0;
    }
  }

  /** The writes a clean-up of the column headed `header` makes. */
  function CleanupOps(g: Grid, header: string, fix: Fix): seq<WriteOp> {
    if |g| == 0 || header !in g[0] then [] else ColumnOps(g, IndexOf(g[0], header), fix)
  }

  function CleanupResult(g: Grid, header: string, fix: Fix): Cleanup {
    if |g| == 0 then NoRows
    else if header !in g[0] then NoColumn
    else Cleaned(|CleanupOps(g, header, fix)|)
  }

  /** The clean-up of the column under the first header cell equal to `header`. */
  method Reformat(ws: Worksheet, header: string, fix: Fix) returns (r: Cleanup)
    modifies ws
    ensures r == CleanupResult(old(ws.grid), header, fix)
    ensures ws.writes == old(ws.writes) + CleanupOps(old(ws.grid), header, fix)
    ensures ws.grid == ApplyOps(old(ws.grid), CleanupOps(old(ws.grid), header, fix))
  {
    var rows := ws.grid;
    if |rows| == 0 {
      assert ws.writes + [] == ws.writes;
      return NoRows;
    }
    var headers := rows[0];
    if header !in headers {
      assert ws.writes + [] == ws.writes;
      return NoColumn;
    }
    var c := IndexOf(headers, header);
    var updated := RewriteColumn(ws, c, fix);
    r := Cleaned(updated);
  }

  /**
   * A missing header, or an empty sheet, means no writes and nothing counted;
   * otherwise every write goes below the template row, into the column of the
   * first header cell equal to `header`, and the count is the number of writes.
   */
  lemma CleanupTargets(g: Grid, header: string, fix: Fix)
    ensures |g| == 0 || header !in g[0] ==> CleanupOps(g, header, fix) == [] && !CleanupResult(g, header, fix).Cleaned?
    ensures forall k :: 0 <= k < |CleanupOps(g, header, fix)| ==>
      CleanupOps(g, header, fix)[k].row >= FirstDataRow + 1
      && CleanupOps(g, header, fix)[k].col == IndexOf(g[0], header) + 1
      && g[0][CleanupOps(g, header, fix)[k].col - 1] == header
    ensures CleanupResult(g, header, fix).Cleaned? ==> CleanupResult(g, header, fix).updated == |CleanupOps(g, header, fix)|
  {
    if |g| > 0 && header in g[0] {
      var c := IndexOf(g[0], header);
      var ops := CleanupOps(g, header, fix);
      assert ops == Fixes(CellFixes(g, c, fix), c, |g|);
      FixesBounds(CellFixes(g, c, fix), c, |g|);
      forall k | 0 <= k < |ops|
        ensures ops[k].row >= FirstDataRow + 1 && ops[k].col == c + 1 && g[0][ops[k].col - 1] == header
      {
        assert ops[k].col - 1 == c;
      }
    }
  }

  // ---------------------------------------------------------------------
  // The column clean-ups with a normaliser

  /** `reformat_column_with_function`'s test: write `normalize(raw)` when it differs from `raw`. */
  function ColumnFix(normalize: string -> string): Fix {
    (raw: string) => if raw != normalize(raw) then Some(normalize(raw)) else None
  }

  /**
   * A data row long enough to hold the column is written exactly when the
   * normalised stripped cell differs from the stripped cell, and then with the
   * normalised value; a row the normaliser leaves alone gets no write at all.
   */
  lemma ColumnFixWrites(rows: Grid, c: nat, normalize: string -> string, i: nat)
    requires FirstDataRow <= i < |rows| && c < |rows[i]|
    ensures var raw := Strip(rows[i][c]);
      var ops := ColumnOps(rows, c, ColumnFix(normalize));
      (WriteOp(i + 1, c + 1, [[normalize(raw)]]) in ops <==> normalize(raw) != raw)
      && (normalize(raw) == raw ==> forall k :: 0 <= k < |ops| ==> ops[k].row != i + 1)
  {
    var at := CellFixes(rows, c, ColumnFix(normalize));
    var ops := ColumnOps(rows, c, ColumnFix(normalize));
    assert ops == Fixes(at, c, |rows|);
    FixesAt(at, c, |rows|, i);
    var raw := Strip(rows[i][c]);
    assert at(i) == ColumnFix(normalize)(raw);
    if normalize(raw) != raw {
      assert at(i) == Some(normalize(raw));
    } else {
      assert at(i) == None;
    }
  }

  /** `reformat_column_with_function(ws, header_name, normalize_fn)` */
  method ReformatColumnWithFunction(ws: Worksheet, header: string, normalize: string -> string) returns (r: Cleanup)
    modifies ws
    ensures r == CleanupResult(old(ws.grid), header, ColumnFix(normalize))
    ensures ws.writes == old(ws.writes) + CleanupOps(old(ws.grid), header, ColumnFix(normalize))
    ensures ws.grid == ApplyOps(old(ws.grid), CleanupOps(old(ws.grid), header, ColumnFix(normalize)))
  {
    r := Reformat(ws, header, ColumnFix(normalize));
  }

  /** `reformat_first_names`, on the Submissions worksheet: the same loop with `normalize_first_name`. */
  method ReformatFirstNames(ws: Worksheet) returns (r: Cleanup)
    modifies ws
    ensures var fix := ColumnFix(FirstNames.NormalizeFirstName);
      r == CleanupResult(old(ws.grid), "First Name", fix)
      && ws.writes == old(ws.writes) + CleanupOps(old(ws.grid), "First Name", fix)
      && ws.grid == ApplyOps(old(ws.grid), CleanupOps(old(ws.grid), "First Name", fix))
  {
    r := Reformat(ws, "First Name", ColumnFix(FirstNames.NormalizeFirstName));
  }

  /** `reformat_last_initials`, on the Submissions worksheet. */
  method ReformatLastInitials(ws: Worksheet) returns (r: Cleanup)
    modifies ws
    ensures var fix := ColumnFix(LastNames.NormalizeLastInitial);
      r == CleanupResult(old(ws.grid), "Last Name Initial", fix)
      && ws.writes == old(ws.writes) + CleanupOps(old(ws.grid), "Last Name Initial", fix)
      && ws.grid == ApplyOps(old(ws.grid), CleanupOps(old(ws.grid), "Last Name Initial", fix))
  {
    r := ReformatColumnWithFunction(ws, "Last Name Initial", LastNames.NormalizeLastInitial);
  }

  // ---------------------------------------------------------------------
  // Running a clean-up twice

  /** A fix whose values are stripped and left alone by the fix itself. */
  ghost predicate Settles(fix: Fix) {
    forall s :: fix(s).Some? ==> Strip(fix(s).value) == fix(s).value && fix(fix(s).value).None?
  }

  /** A loop none of whose rows has a fix writes nothing. */
  lemma {:induction false} FixesNone(at: RowFix, c: nat, n: nat)
    requires forall i :: FirstDataRow <= i < n ==> at(i).None?
    ensures Fixes(at, c, n) == []
    decreases n
  {
    if n > FirstDataRow {
      FixesNone(at, c, n - 1);
      FixesSnoc(at, c, n);
      assert RowWrite(at, c, n - 1) == [];
    }
  }

  /** After a first pass of a settling fix, data row `i` has no fix left. */
  lemma SecondPassRowSettled(rows: Grid, c: nat, fix: Fix, i: nat)
    requires Settles(fix) && FirstDataRow <= i
    ensures CellFixes(ApplyOps(rows, ColumnOps(rows, c, fix)), c, fix)(i).None?
  {
    var at := CellFixes(rows, c, fix);
    FixesKeepShape(at, c, |rows|, rows);
    var g := ApplyOps(rows, ColumnOps(rows, c, fix));
    if i < |g| && c < |g[i]| {
      FixesCells(at, c, |rows|, rows, i, c);
      assert CellAt(g, i, c) == g[i][c];
      assert CellAt(rows, i, c) == rows[i][c];
      assert at(i) == fix(Strip(rows[i][c]));
    }
  }

  /** A second pass of a settling fix over the grid the first pass left writes nothing. */
  lemma SecondPassWritesNothing(rows: Grid, c: nat, fix: Fix)
    requires Settles(fix)
    ensures ColumnOps(ApplyOps(rows, ColumnOps(rows, c, fix)), c, fix) == []
  {
    var g := ApplyOps(rows, ColumnOps(rows, c, fix));
    var at' := CellFixes(g, c, fix);
    forall i | FirstDataRow <= i < |g| ensures at'(i).None? {
      SecondPassRowSettled(rows, c, fix, i);
    }
    FixesNone(at', c, |g|);
  }

  /** The last-initial clean-up settles: its values are one upper-case letter or "", which it leaves alone. */
  lemma LastInitialsSettle()
    ensures Settles(ColumnFix(LastNames.NormalizeLastInitial))
  {
    var fix := ColumnFix(LastNames.NormalizeLastInitial);
    forall s | fix(s).Some? ensures Strip(fix(s).value) == fix(s).value && fix(fix(s).value).None? {
      var v := LastNames.NormalizeLastInitial(s);
      if v != "" {
        assert Strip(v) == v by {
          assert !IsSpace(v[0]) by {
            assert IsAsciiUpper(v[0]);
          }
          StripSpec(v);
        }
        assert LastNames.NormalizeLastInitial(v) == v;
      } else {
        assert LastNames.NormalizeLastInitial(v) == v;
      }
    }
  }

  // ---------------------------------------------------------------------
  // The timestamp clean-up

  /** Template text that marks the instructions row's timestamp cell. */
  predicate IsTemplateText(raw: string) {
    Contains(raw, "(Autopopulated)") || Contains(raw, "(Required)")
  }

  /**
   * `reformat_submission_timestamps`'s test; `restamp` is `parser.parse`
   * followed by `strftime("%m/%d/%Y %I:%M %p")`, None when parsing raises.
   * Empty cells, template text and unparseable cells are skipped, and only a
   * changed value is written.
   */
  function TimestampFix(restamp: string -> Option<string>): Fix {
    (raw: string) =>
      if raw == "" || IsTemplateText(raw) then None
      else match restamp(raw)
        case None => None
        case Some(t) => if t != raw then Some(t) else None
  }

  /**
   * A data row long enough to hold the column is written exactly when its
   * stripped cell is non-empty, not template text, parses, and formats to a
   * different text, and then with the formatted text.
   */
  lemma TimestampFixWrites(rows: Grid, c: nat, restamp: string -> Option<string>, i: nat)
    requires FirstDataRow <= i < |rows| && c < |rows[i]|
    ensures var raw := Strip(rows[i][c]);
      var ops := ColumnOps(rows, c, TimestampFix(restamp));
      (forall k :: 0 <= k < |ops| && ops[k].row == i + 1 ==>
         raw != "" && !IsTemplateText(raw) && restamp(raw).Some? && restamp(raw).value != raw
         && ops[k] == WriteOp(i + 1, c + 1, [[restamp(raw).value]]))
      && (raw != "" && !IsTemplateText(raw) && restamp(raw).Some? && restamp(raw).value != raw ==>
            WriteOp(i + 1, c + 1, [[restamp(raw).value]]) in ops)
  {
    var at := CellFixes(rows, c, TimestampFix(restamp));
    var ops := ColumnOps(rows, c, TimestampFix(restamp));
    assert ops == Fixes(at, c, |rows|);
    FixesAt(at, c, |rows|, i);
    var raw := Strip(rows[i][c]);
    assert at(i) == TimestampFix(restamp)(raw);
    if raw != "" && !IsTemplateText(raw) && restamp(raw).Some? && restamp(raw).value != raw {
      assert at(i) == Some(restamp(raw).value);
    } else {
      assert at(i) == None;
    }
  }

  /** `reformat_submission_timestamps`, on the Submissions worksheet. */
  method ReformatSubmissionTimestamps(ws: Worksheet, restamp: string -> Option<string>) returns (r: Cleanup)
    modifies ws
    ensures var fix := TimestampFix(restamp);
      r == CleanupResult(old(ws.grid), "Timestamp", fix)
      && ws.writes == old(ws.writes) + CleanupOps(old(ws.grid), "Timestamp", fix)
      && ws.grid == ApplyOps(old(ws.grid), CleanupOps(old(ws.grid), "Timestamp", fix))
  {
    r := Reformat(ws, "Timestamp", TimestampFix(restamp));
  }
}

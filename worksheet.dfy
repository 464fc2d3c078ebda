/**
 * An in-memory worksheet: the grid `get_all_values()` returns, and the
 * writes (`update`, `update_cell`, `batch_update`) issued against it.
 * Rows and columns in the write operations are 1-based, as in the Sheets API.
 */
module Sheet {
  import opened Wrappers

  type Grid = seq<seq<string>>

  /** A 1-based row or column number. */
  type Pos = n: nat | n >= 1 witness 1

  /** One write call: `values` placed with its top-left cell at (`row`, `col`). */
  datatype WriteOp = WriteOp(row: Pos, col: Pos, values: Grid)

  /** `row + [""] * (n - len(row))` */
  function PadRow(row: seq<string>, n: nat): (r: seq<string>)
    ensures |r| == if |row| < n then n else |row|
    ensures forall j :: 0 <= j < |row| ==> r[j] == row[j]
    ensures forall j :: |row| <= j < |r| ==> r[j] == ""
  {
    if |row| < n then row + seq(n - |row|, _ => "") else row
  }

  /** The cell at 0-based (`r`, `c`), reading a missing cell as "". */
  function CellAt(g: Grid, r: nat, c: nat): string {
    if r < |g| && c < |g[r]| then g[r][c] else ""
  }

  /** The row without its trailing empty cells, as the Sheets API returns a row. */
  function TrimEmptyTail(row: seq<string>): (r: seq<string>)
    ensures |r| <= |row| && r == row[..|r|]
    ensures |r| > 0 ==> r[|r| - 1] != ""
    ensures forall j :: |r| <= j < |row| ==> row[j] == ""
    decreases |row|
  {
    if |row| == 0 || row[|row| - 1] != "" then row else TrimEmptyTail(row[..|row| - 1])
  }

  /** `ws.row_values(row)` for a 1-based `row`: [] past the last row. */
  function RowValues(g: Grid, row: nat): seq<string> {
    if 1 <= row <= |g| then TrimEmptyTail(g[row - 1]) else []
  }

  /** `row` with `vals` written from 0-based column `c0`. */
  function SetSegment(row: seq<string>, c0: nat, vals: seq<string>): seq<string> {
    var p := PadRow(row, c0 + |vals|);
    p[..c0] + vals + p[c0 + |vals|..]
  }

  /** The written columns hold `vals`, the other columns of the row keep their cells, and the row is padded with "". */
  lemma SetSegmentSpec(row: seq<string>, c0: nat, vals: seq<string>)
    ensures var r := SetSegment(row, c0, vals);
      |r| >= |row| && |r| >= c0 + |vals|
      && (forall j :: 0 <= j < |vals| ==> r[c0 + j] == vals[j])
      && (forall j :: 0 <= j < |row| && !(c0 <= j < c0 + |vals|) ==> r[j] == row[j])
      && (forall j :: |row| <= j < |r| && !(c0 <= j < c0 + |vals|) ==> r[j] == "")
  {
  }

  /** Row `i` of the grid after writing `values` with its top-left cell at 0-based (`r0`, `c0`). */
  function RowAfter(g: Grid, r0: nat, c0: nat, values: Grid, i: nat): seq<string> {
    var row := if i < |g| then g[i] else [];
    if r0 <= i < r0 + |values| then SetSegment(row, c0, values[i - r0]) else row
  }

  function RowsAfter(g: Grid, r0: nat, c0: nat, values: Grid, n: nat): Grid
    decreases n
  {
    if n == 0 then [] else RowsAfter(g, r0, c0, values, n - 1) + [RowAfter(g, r0, c0, values, n - 1)]
  }

  /** The grid after writing `values` with its top-left cell at 0-based (`r0`, `c0`). */
  function WriteBlock(g: Grid, r0: nat, c0: nat, values: Grid): Grid {
    RowsAfter(g, r0, c0, values, if |g| < r0 + |values| then r0 + |values| else |g|)
  }

  lemma {:induction false} RowsAfterSpec(g: Grid, r0: nat, c0: nat, values: Grid, n: nat)
    ensures |RowsAfter(g, r0, c0, values, n)| == n
    ensures forall i :: 0 <= i < n ==> RowsAfter(g, r0, c0, values, n)[i] == RowAfter(g, r0, c0, values, i)
    decreases n
  {
    if n > 0 {
      RowsAfterSpec(g, r0, c0, values, n - 1);
    }
  }

  /** The block write keeps every row of the grid, adds rows up to the block's last, and row `i` becomes `RowAfter`. */
  lemma WriteBlockSpec(g: Grid, r0: nat, c0: nat, values: Grid)
    ensures |WriteBlock(g, r0, c0, values)| == if |g| < r0 + |values| then r0 + |values| else |g|
    ensures forall i :: 0 <= i < |WriteBlock(g, r0, c0, values)| ==>
      WriteBlock(g, r0, c0, values)[i] == RowAfter(g, r0, c0, values, i)
  {
    RowsAfterSpec(g, r0, c0, values, if |g| < r0 + |values| then r0 + |values| else |g|);
  }

  /** Reading any cell after a block write: the written value inside the block, the old cell elsewhere. */
  lemma WriteBlockCellAt(g: Grid, r0: nat, c0: nat, values: Grid, i: nat, j: nat)
    ensures CellAt(WriteBlock(g, r0, c0, values), i, j) ==
      if r0 <= i < r0 + |values| && c0 <= j < c0 + |values[i - r0]| then values[i - r0][j - c0]
      else CellAt(g, i, j)
  {
    var h := WriteBlock(g, r0, c0, values);
    WriteBlockSpec(g, r0, c0, values);
    if r0 <= i < r0 + |values| {
      var row := if i < |g| then g[i] else [];
      assert h[i] == SetSegment(row, c0, values[i - r0]);
      SetSegmentSpec(row, c0, values[i - r0]);
      if c0 <= j < c0 + |values[i - r0]| {
        assert h[i][c0 + (j - c0)] == values[i - r0][j - c0];
      }
    } else if i < |h| {
      assert h[i] == RowAfter(g, r0, c0, values, i);
    }
  }

  /** A block written just below the last row is appended to the grid. */
  lemma WriteBelowAppends(g: Grid, rows: Grid)
    ensures WriteBlock(g, |g|, 0, rows) == g + rows
  {
    var h := WriteBlock(g, |g|, 0, rows);
    WriteBlockSpec(g, |g|, 0, rows);
    forall i | 0 <= i < |h| ensures h[i] == (g + rows)[i] {
      if i >= |g| {
        var row := rows[i - |g|];
        assert SetSegment([], 0, row) == row;
      }
    }
  }

  /**
   * Grid `g'` and write log `w'` are `g` and `w` after the optional write `r`:
   * unchanged when there is none, the block written and the call logged when there is one.
   */
  predicate AfterOptionalWrite(g: Grid, w: seq<WriteOp>, r: Option<WriteOp>, g': Grid, w': seq<WriteOp>) {
    match r
    case None => g' == g && w' == w
    case Some(op) => g' == ApplyOp(g, op) && w' == w + [op]
  }

  /** The grid after the write call `op`, whose row and column are 1-based. */
  function ApplyOp(g: Grid, op: WriteOp): Grid {
    WriteBlock(g, op.row - 1, op.col - 1, op.values)
  }

  /** A single-cell write call at 1-based (`r + 1`, `c + 1`) is the block write at 0-based (`r`, `c`). */
  lemma ApplyCellOp(h: Grid, r: nat, c: nat, v: string)
    ensures ApplyOp(h, WriteOp(r + 1, c + 1, [[v]])) == WriteBlock(h, r, c, [[v]])
  {
    var op := WriteOp(r + 1, c + 1, [[v]]);
    assert op.row - 1 == r && op.col - 1 == c && op.values == [[v]];
  }

  /** The write call `r` makes, if any. */
  function OptOps(r: Option<WriteOp>): seq<WriteOp> {
    match r
    case None => []
    case Some(op) => [op]
  }

  /** The grid after the optional write `r`. */
  function ApplyOpt(g: Grid, r: Option<WriteOp>): Grid {
    match r
    case None => g
    case Some(op) => ApplyOp(g, op)
  }

  /** The grid after the writes in `ops`, one after another. */
  function ApplyOps(g: Grid, ops: seq<WriteOp>): Grid
    decreases |ops|
  {
    if |ops| == 0 then g else ApplyOp(ApplyOps(g, ops[..|ops| - 1]), ops[|ops| - 1])
  }

  lemma ApplyOpsSnoc(g: Grid, ops: seq<WriteOp>, op: WriteOp)
    ensures ApplyOps(g, ops + [op]) == ApplyOp(ApplyOps(g, ops), op)
  {
    var ops' := ops + [op];
    var n := |ops'|;
    assert ops'[..n - 1] == ops;
    assert ops'[n - 1] == op;
  }

  /**
   * The cell at 0-based (`i`, `j`) after the writes in `ops`: the value the
   * last write covering it put there, or the old cell when none covers it.
   */
  function CellAfterOps(g: Grid, ops: seq<WriteOp>, i: nat, j: nat): string
    decreases |ops|
  {
    if |ops| == 0 then CellAt(g, i, j)
    else
      var op := ops[|ops| - 1];
      var r0, c0 := op.row - 1, op.col - 1;
      if r0 <= i < r0 + |op.values| && c0 <= j < c0 + |op.values[i - r0]| then op.values[i - r0][j - c0]
      else CellAfterOps(g, ops[..|ops| - 1], i, j)
  }

  /** Reading a cell of the grid after a sequence of writes. */
  lemma {:induction false} ApplyOpsCellAt(g: Grid, ops: seq<WriteOp>, i: nat, j: nat)
    ensures CellAt(ApplyOps(g, ops), i, j) == CellAfterOps(g, ops, i, j)
    decreases |ops|
  {
    if |ops| > 0 {
      var init, op := ops[..|ops| - 1], ops[|ops| - 1];
      var h := ApplyOps(g, init);
      assert ApplyOps(g, ops) == ApplyOp(h, op);
      ApplyOpsCellAt(g, init, i, j);
      ApplyOpCellAt(h, op, i, j);
    }
  }

  /** Reading a cell after one write call: the written value inside its block, the old cell elsewhere. */
  lemma ApplyOpCellAt(h: Grid, op: WriteOp, i: nat, j: nat)
    ensures CellAt(ApplyOp(h, op), i, j) ==
      var r0, c0 := op.row - 1, op.col - 1;
      if r0 <= i < r0 + |op.values| && c0 <= j < c0 + |op.values[i - r0]| then op.values[i - r0][j - c0]
      else CellAt(h, i, j)
  {
    var r0, c0 := op.row - 1, op.col - 1;
    assert ApplyOp(h, op) == WriteBlock(h, r0, c0, op.values);
    WriteBlockCellAt(h, r0, c0, op.values, i, j);
  }

  /** Reading a cell after a single-cell write call: that cell reads the new value, every other cell as before. */
  lemma CellOpCellAt(h: Grid, row: Pos, col: Pos, v: string, i: nat, j: nat)
    ensures CellAt(ApplyOp(h, WriteOp(row, col, [[v]])), i, j) == if i + 1 == row && j + 1 == col then v else CellAt(h, i, j)
  {
    ApplyOpCellAt(h, WriteOp(row, col, [[v]]), i, j);
  }

  /** Every write is a single cell inside the rows and columns the grid already has. */
  predicate CellWritesInside(g: Grid, ops: seq<WriteOp>) {
    forall k :: 0 <= k < |ops| ==>
      |ops[k].values| == 1 && |ops[k].values[0]| == 1
      && ops[k].row - 1 < |g| && ops[k].col - 1 < |g[ops[k].row - 1]|
  }

  /** The two grids have the same number of rows, and each row the same number of cells. */
  predicate SameShape(h: Grid, g: Grid) {
    |h| == |g| && forall i :: 0 <= i < |g| ==> |h[i]| == |g[i]|
  }

  /** One single-cell write inside the grid keeps its shape. */
  lemma CellWriteKeepsShape(h: Grid, op: WriteOp)
    requires |op.values| == 1 && |op.values[0]| == 1
    requires op.row - 1 < |h| && op.col - 1 < |h[op.row - 1]|
    ensures SameShape(ApplyOp(h, op), h)
  {
    var r0, c0 := op.row - 1, op.col - 1;
    var h' := WriteBlock(h, r0, c0, op.values);
    WriteBlockSpec(h, r0, c0, op.values);
    forall i | 0 <= i < |h| ensures |h'[i]| == |h[i]| {
      if i == r0 {
        assert h'[i] == SetSegment(h[i], c0, op.values[0]);
      }
    }
  }

  /** Single-cell writes inside the grid keep its shape. */
  lemma {:induction false} CellWritesKeepShape(g: Grid, ops: seq<WriteOp>)
    requires CellWritesInside(g, ops)
    ensures SameShape(ApplyOps(g, ops), g)
    decreases |ops|
  {
    if |ops| > 0 {
      var init, op := ops[..|ops| - 1], ops[|ops| - 1];
      assert CellWritesInside(g, init) by {
        forall k | 0 <= k < |init| ensures init[k] == ops[k] { }
      }
      CellWritesKeepShape(g, init);
      var h := ApplyOps(g, init);
      assert ApplyOps(g, ops) == ApplyOp(h, op);
      CellWriteKeepsShape(h, op);
    }
  }

  /** Two optional writes, one after the other, are the writes of their logged calls. */
  lemma ApplyTwoOpt(g: Grid, a: Option<WriteOp>, b: Option<WriteOp>)
    ensures ApplyOps(g, OptOps(a) + OptOps(b)) == ApplyOpt(ApplyOpt(g, a), b)
  {
    ApplyOneOpt(g, a);
    match b
    case None =>
      assert OptOps(a) + OptOps(b) == OptOps(a);
    case Some(op) =>
      assert OptOps(a) + OptOps(b) == OptOps(a) + [op];
      ApplyOpsSnoc(g, OptOps(a), op);
  }

  lemma ApplyOneOpt(g: Grid, a: Option<WriteOp>)
    ensures ApplyOps(g, OptOps(a)) == ApplyOpt(g, a)
  {
    if a.Some? {
      var ops := [a.value];
      assert ops[..0] == [];
    }
  }

  class Worksheet {
    var grid: Grid
    var writes: seq<WriteOp>

    constructor (g: Grid)
      ensures grid == g && writes == []
    {
      grid := g;
      writes := [];
    }

    /** `ws.update(range starting at (row, col), values)` */
    method Update(row: nat, col: nat, values: Grid)
      requires row >= 1 && col >= 1
      modifies this
      ensures grid == WriteBlock(old(grid), row - 1, col - 1, values)
      ensures writes == old(writes) + [WriteOp(row, col, values)]
    {
      grid := WriteBlock(grid, row - 1, col - 1, values);
      writes := writes + [WriteOp(row, col, values)];
    }

    /** `ws.batch_update(ranges)`: the ranges written in order. */
    method BatchUpdate(ops: seq<WriteOp>)
      modifies this
      ensures grid == ApplyOps(old(grid), ops)
      ensures writes == old(writes) + ops
    {
      grid := ApplyOps(grid, ops);
      writes := writes + ops;
    }

    /** `ws.update(...)` when there is something to write, nothing otherwise. */
    method UpdateOpt(r: Option<WriteOp>)
      modifies this
      ensures AfterOptionalWrite(old(grid), old(writes), r, grid, writes)
    {
      if r.Some? {
        Update(r.value.row, r.value.col, r.value.values);
      }
    }

    /** `ws.append_rows(rows)`: the rows land below the last row, as one logged block write. */
    method AppendRows(rows: Grid)
      modifies this
      ensures grid == old(grid) + rows
      ensures writes == old(writes) + [WriteOp(|old(grid)| + 1, 1, rows)]
    {
      WriteBelowAppends(grid, rows);
      Update(|grid| + 1, 1, rows);
    }

    /** `ws.update_cell(row, col, value)` */
    method UpdateCell(row: nat, col: nat, value: string)
      requires row >= 1 && col >= 1
      modifies this
      ensures grid == ApplyOp(old(grid), WriteOp(row, col, [[value]]))
      ensures writes == old(writes) + [WriteOp(row, col, [[value]])]
    {
      Update(row, col, [[value]]);
    }
  }
}

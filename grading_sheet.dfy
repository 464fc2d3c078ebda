/**
 * `src/modules/grading.py`, the parts that read and write worksheets:
 * `populate_ai_grading_prompts` (one grading prompt per playable Games row,
 * written in contiguous column blocks) and `grade_submissions_for_sheet`
 * (one AI grade and confidence per ungraded submission, written as one block).
 */
module GradingSheet {
  import opened Wrappers
  import opened Text
  import opened Sheet
  import opened Grading

  // ---------------------------------------------------------------------
  // Coalescing pending writes into contiguous blocks.

  /** A value to write into the grading column at 1-based row `row`. */
  datatype Pending = Pending(row: nat, value: string)

  /** Rows `start` to `end` (inclusive) receive `values`, one per row. */
  datatype Block = Block(start: nat, end: nat, values: seq<string>)

  predicate RowsIncreasing(ps: seq<Pending>) {
    forall i, j :: 0 <= i < j < |ps| ==> ps[i].row < ps[j].row
  }

  /** A block covers exactly as many rows as it has values. */
  predicate Contiguous(b: Block) {
    |b.values| > 0 && b.end == b.start + |b.values| - 1
  }

  /** Later blocks start after a gap: no two blocks could be merged. */
  predicate Separated(bs: seq<Block>) {
    forall i, j :: 0 <= i < j < |bs| ==> bs[i].end + 1 < bs[j].start
  }

  /** The block's writes, row by row. */
  function Expand(b: Block): (r: seq<Pending>)
    ensures |r| == |b.values|
  {
    seq(|b.values|, j requires 0 <= j < |b.values| => Pending(b.start + j, b.values[j]))
  }

  /** The writes of all blocks, in order. */
  function Flatten(bs: seq<Block>): seq<Pending>
    decreases |bs|
  {
    if |bs| == 0 then [] else Flatten(bs[..|bs| - 1]) + Expand(bs[|bs| - 1])
  }

  lemma FlattenSnoc(bs: seq<Block>, b: Block)
    ensures Flatten(bs + [b]) == Flatten(bs) + Expand(b)
  {
    assert (bs + [b])[..|bs|] == bs;
  }

  lemma ExpandSnoc(start: nat, e1: nat, e2: nat, vs: seq<string>, v: string)
    ensures Expand(Block(start, e1, vs + [v])) == Expand(Block(start, e2, vs)) + [Pending(start + |vs|, v)]
  {
  }

  /**
   * The state of the coalescing loop after the first `k` writes: closed
   * blocks, and the open run `start`..`end` holding `buf`.
   */
  predicate RunState(pending: seq<Pending>, k: nat, blocks: seq<Block>, start: nat, end: nat, buf: seq<string>) {
    1 <= k <= |pending|
    && end == pending[k - 1].row && |buf| > 0 && end == start + |buf| - 1
    && (forall b :: 0 <= b < |blocks| ==> Contiguous(blocks[b]))
    && Separated(blocks)
    && (forall b :: 0 <= b < |blocks| ==> blocks[b].end + 1 < start)
    && Flatten(blocks) + Expand(Block(start, end, buf)) == pending[..k]
  }

  /** The next write continues the open run. */
  lemma ExtendRun(pending: seq<Pending>, k: nat, blocks: seq<Block>, start: nat, end: nat, buf: seq<string>)
    requires RunState(pending, k, blocks, start, end, buf) && k < |pending|
    requires pending[k].row == end + 1
    ensures RunState(pending, k + 1, blocks, start, pending[k].row, buf + [pending[k].value])
  {
    var r, val := pending[k].row, pending[k].value;
    assert pending[..k + 1] == pending[..k] + [Pending(r, val)];
    ExpandSnoc(start, r, end, buf, val);
    assert Flatten(blocks) + Expand(Block(start, r, buf + [val]))
        == (Flatten(blocks) + Expand(Block(start, end, buf))) + [Pending(r, val)];
  }

  /** The next write starts a new run after a gap: the open run is closed. */
  lemma CloseRun(pending: seq<Pending>, k: nat, blocks: seq<Block>, start: nat, end: nat, buf: seq<string>)
    requires RunState(pending, k, blocks, start, end, buf) && k < |pending|
    requires RowsIncreasing(pending) && pending[k].row != end + 1
    ensures RunState(pending, k + 1, blocks + [Block(start, end, buf)], pending[k].row, pending[k].row, [pending[k].value])
  {
    var r, val := pending[k].row, pending[k].value;
    assert pending[k - 1].row < r;
    var blocks' := blocks + [Block(start, end, buf)];
    assert pending[..k + 1] == pending[..k] + [Pending(r, val)];
    FlattenSnoc(blocks, Block(start, end, buf));
    assert Expand(Block(r, r, [val])) == [Pending(r, val)];
    forall b | 0 <= b < |blocks'| ensures Contiguous(blocks'[b]) && blocks'[b].end + 1 < r {
      if b < |blocks| {
        assert blocks'[b] == blocks[b];
      }
    }
    forall i, j | 0 <= i < j < |blocks'| ensures blocks'[i].end + 1 < blocks'[j].start {
      assert blocks'[i] == blocks[i];
      if j < |blocks| {
        assert blocks'[j] == blocks[j];
      }
    }
  }

  /**
   * The coalescing loop of `populate_ai_grading_prompts` over writes sorted by
   * row: maximal runs of consecutive rows become one block each, and the
   * blocks together hold exactly the pending writes, in order.
   */
  method CoalesceBlocks(pending: seq<Pending>) returns (blocks: seq<Block>)
    requires |pending| > 0 && RowsIncreasing(pending)
    ensures |blocks| > 0
    ensures forall b :: 0 <= b < |blocks| ==> Contiguous(blocks[b])
    ensures Separated(blocks)
    ensures Flatten(blocks) == pending
  {
    blocks := [];
    var start: nat := pending[0].row;
    var end: nat := start;
    var buf := [pending[0].value];
    var k := 1;
    assert Expand(Block(start, end, buf)) == pending[..1];
    while k < |pending|
      invariant RunState(pending, k, blocks, start, end, buf)
    {
      var r: nat, val := pending[k].row, pending[k].value;
      if r == end + 1 {
        ExtendRun(pending, k, blocks, start, end, buf);
        end := r;
        buf := buf + [val];
      } else {
        CloseRun(pending, k, blocks, start, end, buf);
        blocks := blocks + [Block(start, end, buf)];
        start := r;
        end := r;
        buf := [val];
      }
      k := k + 1;
    }
    CloseAll(pending, blocks, start, end, buf);
    blocks := blocks + [Block(start, end, buf)];
  }

  /** At the end of the writes the open run is closed too. */
  lemma CloseAll(pending: seq<Pending>, blocks: seq<Block>, start: nat, end: nat, buf: seq<string>)
    requires RunState(pending, |pending|, blocks, start, end, buf)
    ensures var blocks' := blocks + [Block(start, end, buf)];
      (forall b :: 0 <= b < |blocks'| ==> Contiguous(blocks'[b]))
      && Separated(blocks') && Flatten(blocks') == pending
  {
    var blocks' := blocks + [Block(start, end, buf)];
    FlattenSnoc(blocks, Block(start, end, buf));
    assert pending[..|pending|] == pending;
    forall b | 0 <= b < |blocks'| ensures Contiguous(blocks'[b]) {
      if b < |blocks| {
        assert blocks'[b] == blocks[b];
      }
    }
    forall i, j | 0 <= i < j < |blocks'| ensures blocks'[i].end + 1 < blocks'[j].start {
      assert blocks'[i] == blocks[i];
      if j < |blocks| {
        assert blocks'[j] == blocks[j];
      }
    }
  }

  // ---------------------------------------------------------------------
  // Writing blocks into one column.

  /** `[[v] for v in values]` */
  function Column(vs: seq<string>): (g: Grid)
    ensures |g| == |vs| && forall j :: 0 <= j < |vs| ==> g[j] == [vs[j]]
  {
    seq(|vs|, j requires 0 <= j < |vs| => [vs[j]])
  }

  /** The ranges `{col}{start}:{col}{end}` of `batch_update`, 0-based column `col`. */
  function ColumnOps(col: nat, bs: seq<Block>): (ops: seq<WriteOp>)
    requires forall b :: 0 <= b < |bs| ==> bs[b].start >= 1
    ensures |ops| == |bs|
    decreases |bs|
  {
    if |bs| == 0 then []
    else
      var last := bs[|bs| - 1];
      ColumnOps(col, bs[..|bs| - 1]) + [WriteOp(last.start, col + 1, Column(last.values))]
  }

  /** Some write goes to 1-based row `r`. */
  predicate RowListed(ps: seq<Pending>, r: nat) {
    exists k :: 0 <= k < |ps| && ps[k].row == r
  }

  /**
   * `h` is `g` with every pending value in column `col` of its row and every
   * other cell as it was.
   */
  ghost predicate ColumnWritten(g: Grid, h: Grid, col: nat, ps: seq<Pending>) {
    (forall k :: 0 <= k < |ps| && ps[k].row >= 1 ==> CellAt(h, ps[k].row - 1, col) == ps[k].value)
    && (forall i: nat, j: nat :: (j != col || !RowListed(ps, i + 1)) ==> CellAt(h, i, j) == CellAt(g, i, j))
  }

  lemma {:induction false} FlattenRows(bs: seq<Block>)
    requires forall b :: 0 <= b < |bs| ==> Contiguous(bs[b])
    requires Separated(bs)
    ensures |bs| > 0 ==> forall k :: 0 <= k < |Flatten(bs)| ==>
      bs[0].start <= Flatten(bs)[k].row <= bs[|bs| - 1].end
    decreases |bs|
  {
    if |bs| > 1 {
      var n := |bs| - 1;
      FlattenRows(bs[..n]);
      assert bs[..n][0] == bs[0] && bs[..n][n - 1] == bs[n - 1];
      assert bs[n - 1].end + 1 < bs[n].start;
      assert bs[0].start <= bs[n].start;
    }
  }

  /** The cells after writing one column block over `h'`. */
  lemma ColumnBlockCell(h': Grid, col: nat, b: Block, i: nat, j: nat)
    requires Contiguous(b) && b.start >= 1
    ensures CellAt(WriteBlock(h', b.start - 1, col, Column(b.values)), i, j) ==
      if j == col && b.start <= i + 1 <= b.end then b.values[i + 1 - b.start] else CellAt(h', i, j)
  {
    WriteBlockCellAt(h', b.start - 1, col, Column(b.values), i, j);
  }

  /** The writes of the leading blocks all lie above the last block. */
  lemma PriorRowsBelow(bs: seq<Block>, last: Block)
    requires forall b :: 0 <= b < |bs| ==> Contiguous(bs[b])
    requires Separated(bs + [last])
    ensures forall k :: 0 <= k < |Flatten(bs)| ==> Flatten(bs)[k].row < last.start
  {
    assert Separated(bs) by {
      forall i, j | 0 <= i < j < |bs| ensures bs[i].end + 1 < bs[j].start {
        assert (bs + [last])[i] == bs[i] && (bs + [last])[j] == bs[j];
      }
    }
    FlattenRows(bs);
    if |bs| > 0 {
      assert (bs + [last])[|bs| - 1] == bs[|bs| - 1] && (bs + [last])[|bs|] == last;
    }
  }

  /** Applying the block writes of `bs + [last]` is applying those of `bs`, then writing `last`. */
  lemma ColumnOpsSnoc(g: Grid, col: nat, bs: seq<Block>, last: Block)
    requires forall b :: 0 <= b < |bs| ==> bs[b].start >= 1
    requires last.start >= 1
    ensures ApplyOps(g, ColumnOps(col, bs + [last])) ==
      ApplyOp(ApplyOps(g, ColumnOps(col, bs)), WriteOp(last.start, col + 1, Column(last.values)))
  {
    var op := WriteOp(last.start, col + 1, Column(last.values));
    var ops := ColumnOps(col, bs);
    ColumnOpsAppend(col, bs, last);
    ApplyOpsSnoc(g, ops, op);
  }

  /** The column block's write call puts its values from 0-based row `start - 1` of 0-based column `col`. */
  lemma ColumnOpIsBlock(h: Grid, col: nat, last: Block)
    requires last.start >= 1
    ensures ApplyOp(h, WriteOp(last.start, col + 1, Column(last.values))) == WriteBlock(h, last.start - 1, col, Column(last.values))
  {
    var op := WriteOp(last.start, col + 1, Column(last.values));
    assert op.col - 1 == col;
  }

  lemma ColumnOpsAppend(col: nat, bs: seq<Block>, last: Block)
    requires forall b :: 0 <= b < |bs| ==> bs[b].start >= 1
    requires last.start >= 1
    ensures ColumnOps(col, bs + [last]) == ColumnOps(col, bs) + [WriteOp(last.start, col + 1, Column(last.values))]
  {
    var bs' := bs + [last];
    assert bs'[..|bs'| - 1] == bs;
    assert bs'[|bs'| - 1] == last;
  }

  /** Writing the blocks of a coalesced list one after another writes each value into its row of the column. */
  lemma {:induction false} ColumnBlocksWrite(g: Grid, col: nat, bs: seq<Block>)
    requires forall b :: 0 <= b < |bs| ==> Contiguous(bs[b]) && bs[b].start >= 1
    requires Separated(bs)
    ensures ColumnWritten(g, ApplyOps(g, ColumnOps(col, bs)), col, Flatten(bs))
    decreases |bs|
  {
    if |bs| > 0 {
      var n := |bs| - 1;
      var init, last := bs[..n], bs[n];
      assert bs == init + [last];
      assert Separated(init) by {
        forall i, j | 0 <= i < j < |init| ensures init[i].end + 1 < init[j].start {
          assert init[i] == bs[i] && init[j] == bs[j];
        }
      }
      ColumnBlocksWrite(g, col, init);
      ColumnOpsSnoc(g, col, init, last);
      ColumnOpIsBlock(ApplyOps(g, ColumnOps(col, init)), col, last);
      PriorRowsBelow(init, last);
      ColumnBlocksStep(g, ApplyOps(g, ColumnOps(col, init)), col, Flatten(init), last);
      FlattenSnoc(init, last);
    }
  }

  lemma RowListedConcat(a: seq<Pending>, b: seq<Pending>, r: nat)
    ensures RowListed(a + b, r) <==> RowListed(a, r) || RowListed(b, r)
  {
    if RowListed(a, r) {
      var k :| 0 <= k < |a| && a[k].row == r;
      assert (a + b)[k] == a[k];
    }
    if RowListed(b, r) {
      var k :| 0 <= k < |b| && b[k].row == r;
      assert (a + b)[|a| + k] == b[k];
    }
    if RowListed(a + b, r) {
      var k :| 0 <= k < |a + b| && (a + b)[k].row == r;
      if k < |a| { assert (a + b)[k] == a[k]; } else { assert (a + b)[k] == b[k - |a|]; }
    }
  }

  lemma ExpandListed(b: Block, r: nat)
    requires Contiguous(b)
    ensures RowListed(Expand(b), r) <==> b.start <= r <= b.end
  {
    if b.start <= r <= b.end {
      assert Expand(b)[r - b.start].row == r;
    }
  }

  /** After one more block, every value written so far is in its cell. */
  lemma StepWritten(g: Grid, h': Grid, col: nat, prior: seq<Pending>, last: Block)
    requires Contiguous(last) && last.start >= 1
    requires ColumnWritten(g, h', col, prior)
    requires forall k :: 0 <= k < |prior| ==> prior[k].row < last.start
    ensures var h := WriteBlock(h', last.start - 1, col, Column(last.values));
      var all := prior + Expand(last);
      forall k :: 0 <= k < |all| && all[k].row >= 1 ==> CellAt(h, all[k].row - 1, col) == all[k].value
  {
    var h := WriteBlock(h', last.start - 1, col, Column(last.values));
    var ex := Expand(last);
    var all := prior + ex;
    forall k | 0 <= k < |all| && all[k].row >= 1
      ensures CellAt(h, all[k].row - 1, col) == all[k].value
    {
      if k >= |prior| {
        var j := k - |prior|;
        assert all[k] == ex[j] == Pending(last.start + j, last.values[j]);
        ExpandedCellWritten(h', col, last, j);
      } else {
        assert all[k] == prior[k];
        ColumnBlockCell(h', col, last, prior[k].row - 1, col);
      }
    }
  }

  /** The block's value `j` lands in its row of the column. */
  lemma ExpandedCellWritten(h': Grid, col: nat, last: Block, j: nat)
    requires Contiguous(last) && last.start >= 1 && j < |last.values|
    ensures CellAt(WriteBlock(h', last.start - 1, col, Column(last.values)), last.start + j - 1, col) == last.values[j]
  {
    var i := last.start + j - 1;
    assert i + 1 - last.start == j;
    ColumnBlockCell(h', col, last, i, col);
  }

  /** After one more block, every cell outside the written rows of the column is as it was. */
  lemma StepKept(g: Grid, h': Grid, col: nat, prior: seq<Pending>, last: Block)
    requires Contiguous(last) && last.start >= 1
    requires ColumnWritten(g, h', col, prior)
    ensures var h := WriteBlock(h', last.start - 1, col, Column(last.values));
      forall i: nat, j: nat :: (j != col || !RowListed(prior + Expand(last), i + 1)) ==> CellAt(h, i, j) == CellAt(g, i, j)
  {
    var h := WriteBlock(h', last.start - 1, col, Column(last.values));
    forall i: nat, j: nat | j != col || !RowListed(prior + Expand(last), i + 1)
      ensures CellAt(h, i, j) == CellAt(g, i, j)
    {
      ColumnBlockCell(h', col, last, i, j);
      RowListedConcat(prior, Expand(last), i + 1);
      ExpandListed(last, i + 1);
    }
  }

  /** One more block on top of a column already written with `prior`. */
  lemma ColumnBlocksStep(g: Grid, h': Grid, col: nat, prior: seq<Pending>, last: Block)
    requires Contiguous(last) && last.start >= 1
    requires ColumnWritten(g, h', col, prior)
    requires forall k :: 0 <= k < |prior| ==> prior[k].row < last.start
    ensures ColumnWritten(g, WriteBlock(h', last.start - 1, col, Column(last.values)), col, prior + Expand(last))
  {
    StepWritten(g, h', col, prior, last);
    StepKept(g, h', col, prior, last);
  }

  // ---------------------------------------------------------------------
  // `populate_ai_grading_prompts`

  /** The Games columns the prompt pass reads; only the grading column is required. */
  datatype PromptColumns = PromptColumns(game: Option<nat>, question: Option<nat>, answer: Option<nat>, grading: nat)

  function PromptColumnsOf(headers: seq<string>): (r: Option<PromptColumns>)
    ensures r.Some? <==> IdxOf(headers, GradingNames).Some?
  {
    var g := IdxOf(headers, GradingNames);
    if g.None? then None
    else Some(PromptColumns(IdxOf(headers, ["Game"]), IdxOf(headers, ["Question"]), IdxOf(headers, AnswerNames), g.value))
  }

  /** `row[idx].strip() if idx is not None else ""` */
  function OptField(row: seq<string>, c: Option<nat>): string {
    if c.Some? then Field(row, c.value) else ""
  }

  /**
   * The write for Games row `rowNumber`: none without a question or an
   * answer, none when the guidance already starts with "ai:" (any case), none
   * when the rubric comes back empty; otherwise the rubric after the existing
   * guidance, on an "AI: " line.
   */
  function PromptFor(row: seq<string>, rowNumber: nat, cols: PromptColumns, rubric: Rubric): (r: Option<Pending>)
    ensures r.Some? ==> r.value.row == rowNumber
  {
    var game := OptField(row, cols.game);
    var question := OptField(row, cols.question);
    var answer := OptField(row, cols.answer);
    var existing := Field(row, cols.grading);
    if question == "" || answer == "" || HasAiMarker(existing) then None
    else
      var logic := GenerateGradingLogic(game, question, answer, existing, rubric);
      if logic == "" then None
      else Some(Pending(rowNumber, WrittenPrompt(existing, logic)))
  }

  function PromptEntries(rows: seq<seq<string>>, cols: PromptColumns, rubric: Rubric): (r: seq<Option<Pending>>)
    ensures |r| == |rows|
    ensures forall k :: 0 <= k < |rows| ==> r[k] == PromptFor(rows[k], k + 1, cols, rubric)
  {
    seq(|rows|, k requires 0 <= k < |rows| => PromptFor(rows[k], k + 1, cols, rubric))
  }

  /** `pending`: the writes for the Games rows from 3 on, in row order. */
  function PendingPrompts(rows: seq<seq<string>>, cols: PromptColumns, rubric: Rubric): seq<Pending> {
    if |rows| < 3 then [] else Somes(PromptEntries(rows, cols, rubric)[2..])
  }

  lemma {:induction false} SomesRows(xs: seq<Option<Pending>>, base: nat)
    requires forall k :: 0 <= k < |xs| && xs[k].Some? ==> xs[k].value.row == base + k
    ensures RowsIncreasing(Somes(xs))
    ensures forall k :: 0 <= k < |Somes(xs)| ==> base <= Somes(xs)[k].row < base + |xs|
    decreases |xs|
  {
    if |xs| > 0 {
      var m := |xs| - 1;
      SomesRows(xs[..m], base);
    }
  }

  /**
   * The pending writes are in strictly increasing row order, all within rows
   * 3 to the last, and a row has one exactly when its own row calls for it.
   */
  lemma PendingPromptsSpec(rows: seq<seq<string>>, cols: PromptColumns, rubric: Rubric)
    ensures RowsIncreasing(PendingPrompts(rows, cols, rubric))
    ensures forall k :: 0 <= k < |PendingPrompts(rows, cols, rubric)| ==>
      3 <= PendingPrompts(rows, cols, rubric)[k].row <= |rows|
    ensures forall p :: p in PendingPrompts(rows, cols, rubric) <==>
      3 <= p.row <= |rows| && PromptFor(rows[p.row - 1], p.row, cols, rubric) == Some(p)
  {
    if |rows| >= 3 {
      var all := PromptEntries(rows, cols, rubric);
      var xs := all[2..];
      SomesRows(xs, 3);
      forall p: Pending ensures p in Somes(xs) <==> 3 <= p.row <= |rows| && PromptFor(rows[p.row - 1], p.row, cols, rubric) == Some(p) {
        PendingMember(rows, cols, rubric, p);
      }
    }
  }

  lemma PendingMember(rows: seq<seq<string>>, cols: PromptColumns, rubric: Rubric, p: Pending)
    requires |rows| >= 3
    ensures p in Somes(PromptEntries(rows, cols, rubric)[2..]) <==>
      3 <= p.row <= |rows| && PromptFor(rows[p.row - 1], p.row, cols, rubric) == Some(p)
  {
    var all := PromptEntries(rows, cols, rubric);
    var xs := all[2..];
    SomesAt(xs, 3, p);
    if 3 <= p.row <= |rows| {
      var k := p.row - 3;
      assert xs[k] == all[p.row - 1];
    }
  }

  /** When entry `k` can only be the write for row `base + k`, a write is kept exactly when its row's entry is it. */
  lemma SomesAt(xs: seq<Option<Pending>>, base: nat, p: Pending)
    requires forall k :: 0 <= k < |xs| && xs[k].Some? ==> xs[k].value.row == base + k
    ensures p in Somes(xs) <==> base <= p.row < base + |xs| && xs[p.row - base] == Some(p)
  {
    SomesSpec(xs);
    if p in Somes(xs) {
      var k :| 0 <= k < |xs| && xs[k] == Some(p);
      assert p.row - base == k;
    }
  }

  /** The loop over Games rows 3 to the last that collects `pending`. */
  method CollectPendingPrompts(rows: seq<seq<string>>, cols: PromptColumns, rubric: Rubric) returns (pending: seq<Pending>)
    ensures pending == PendingPrompts(rows, cols, rubric)
  {
    pending := [];
    if |rows| < 3 {
      return;
    }
    ghost var xs := PromptEntries(rows, cols, rubric);
    var rowNumber := 3;
    while rowNumber <= |rows|
      invariant 3 <= rowNumber <= |rows| + 1
      invariant pending == Somes(xs[2..rowNumber - 1])
    {
      SomesSnoc(xs, 2, rowNumber - 1);
      var p := PromptFor(rows[rowNumber - 1], rowNumber, cols, rubric);
      if p.Some? {
        pending := pending + [p.value];
      }
      rowNumber := rowNumber + 1;
    }
    SliceToEnd(xs, 2);
  }

  /**
   * `populate_ai_grading_prompts()`: nothing changes for an empty sheet or one
   * without a grading column; otherwise every pending prompt lands in the
   * grading column of its row and every other cell keeps its value.
   */
  method PopulateAiGradingPrompts(games: Worksheet, rubric: Rubric)
    modifies games
    ensures old(games.grid) == [] || PromptColumnsOf(old(games.grid)[0]).None? ==>
      games.grid == old(games.grid) && games.writes == old(games.writes)
    ensures old(games.grid) != [] && PromptColumnsOf(old(games.grid)[0]).Some? ==>
      var cols := PromptColumnsOf(old(games.grid)[0]).value;
      ColumnWritten(old(games.grid), games.grid, cols.grading, PendingPrompts(old(games.grid), cols, rubric))
    ensures old(games.writes) <= games.writes
  {
    var rows := games.grid;
    if |rows| == 0 {
      return;
    }
    var colsOpt := PromptColumnsOf(rows[0]);
    if colsOpt.None? {
      return;
    }
    var cols := colsOpt.value;
    var pending := CollectPendingPrompts(rows, cols, rubric);
    if |pending| == 0 {
      return;
    }
    // Rows were collected in increasing order, so sorting by row leaves `pending` as it is.
    PendingPromptsSpec(rows, cols, rubric);
    var blocks := CoalesceBlocks(pending);
    assert forall b :: 0 <= b < |blocks| ==> blocks[b].start >= 1 by {
      forall b | 0 <= b < |blocks| ensures blocks[b].start >= 1 {
        assert Expand(blocks[b])[0].row == blocks[b].start;
        FlattenHas(blocks, b);
      }
    }
    var ops := ColumnOps(cols.grading, blocks);
    games.BatchUpdate(ops);
    ColumnBlocksWrite(rows, cols.grading, blocks);
  }

  /** The first write of each block is among the flattened writes. */
  lemma FlattenHas(bs: seq<Block>, b: nat)
    requires b < |bs| && |bs[b].values| > 0
    ensures Expand(bs[b])[0] in Flatten(bs)
    decreases |bs|
  {
    if b < |bs| - 1 {
      FlattenHas(bs[..|bs| - 1], b);
    }
  }

  // ---------------------------------------------------------------------
  // `grade_submissions_for_sheet`: header repair.

  const GradeColumns: seq<string> := ["AI Grade", "AI Confidence", "Override"]

  /** `col in {(h or "").strip() for h in headers}` */
  predicate HasHeader(headers: seq<string>, col: string) {
    exists j :: 0 <= j < |headers| && Strip(headers[j]) == col
  }

  /** The columns of `cols` that are missing, in order. */
  function MissingFrom(headers: seq<string>, cols: seq<string>): (r: seq<string>)
    ensures forall c :: c in r <==> c in cols && !HasHeader(headers, c)
    decreases |cols|
  {
    if |cols| == 0 then []
    else
      var last := cols[|cols| - 1];
      MissingFrom(headers, cols[..|cols| - 1]) + (if HasHeader(headers, last) then [] else [last])
  }

  /**
   * The header-repair loop: each of "AI Grade", "AI Confidence" and "Override"
   * that no trimmed header equals is appended, in that order.
   */
  method RepairHeaders(headers: seq<string>) returns (repaired: seq<string>, changed: bool)
    ensures repaired == headers + MissingFrom(headers, GradeColumns)
    ensures changed <==> |MissingFrom(headers, GradeColumns)| > 0
  {
    repaired := headers;
    changed := false;
    var k := 0;
    while k < |GradeColumns|
      invariant 0 <= k <= |GradeColumns|
      invariant repaired == headers + MissingFrom(headers, GradeColumns[..k])
      invariant changed <==> |MissingFrom(headers, GradeColumns[..k])| > 0
    {
      var col := GradeColumns[k];
      assert GradeColumns[..k + 1][..k] == GradeColumns[..k];
      if !HasHeader(headers, col) {
        repaired := repaired + [col];
        changed := true;
      }
      k := k + 1;
    }
    assert GradeColumns[..k] == GradeColumns;
  }

  lemma HasHeaderExtend(headers: seq<string>, extra: seq<string>, c: string)
    requires HasHeader(headers, c) || (c in extra && Strip(c) == c)
    ensures HasHeader(headers + extra, c)
  {
    if HasHeader(headers, c) {
      var j :| 0 <= j < |headers| && Strip(headers[j]) == c;
      assert (headers + extra)[j] == headers[j];
    } else {
      var j :| 0 <= j < |extra| && extra[j] == c;
      assert (headers + extra)[|headers| + j] == c;
    }
  }

  /** After the repair all three columns are present, so a second repair appends nothing. */
  lemma RepairComplete(headers: seq<string>)
    ensures forall c :: c in GradeColumns ==> HasHeader(headers + MissingFrom(headers, GradeColumns), c)
    ensures MissingFrom(headers + MissingFrom(headers, GradeColumns), GradeColumns) == []
  {
    var extra := MissingFrom(headers, GradeColumns);
    forall c | c in GradeColumns ensures HasHeader(headers + extra, c) {
      assert Strip("AI Grade") == "AI Grade" by { AsciiTrimmed("AI Grade"); }
      assert Strip("AI Confidence") == "AI Confidence" by { AsciiTrimmed("AI Confidence"); }
      assert Strip("Override") == "Override" by { AsciiTrimmed("Override"); }
      HasHeaderExtend(headers, extra, c);
    }
    MissingFromNone(headers + extra, GradeColumns);
  }

  lemma {:induction false} MissingFromNone(headers: seq<string>, cols: seq<string>)
    requires forall c :: c in cols ==> HasHeader(headers, c)
    ensures MissingFrom(headers, cols) == []
    decreases |cols|
  {
    if |cols| > 0 {
      var n := |cols| - 1;
      assert cols[n] in cols;
      forall c | c in cols[..n] ensures HasHeader(headers, c) {
        assert c in cols;
      }
      MissingFromNone(headers, cols[..n]);
    }
  }

  /** A string with non-space characters at both ends is its own strip. */
  lemma AsciiTrimmed(s: string)
    requires |s| > 0 && !IsSpace(s[0]) && !IsSpace(s[|s| - 1])
    ensures Strip(s) == s
  {
    StripOfStripped(s);
  }

  // ---------------------------------------------------------------------
  // `grade_submissions_for_sheet`: grouping the index by game.

  /** `by_game.get(key, [])` */
  function Lookup(byGame: map<string, seq<GameEntry>>, key: string): seq<GameEntry> {
    if key in byGame then byGame[key] else []
  }

  lemma {:induction false} GamesNamedSnoc(index: seq<GameEntry>, e: GameEntry, key: string)
    ensures GamesNamed(index + [e], key) == GamesNamed(index, key) + (if Lower(Strip(e.game)) == key then [e] else [])
    decreases |index|
  {
    if |index| == 0 {
      assert GamesNamed([e], key) == (if Lower(Strip(e.game)) == key then [e] else []) + GamesNamed([], key);
    } else {
      assert (index + [e])[1..] == index[1..] + [e];
      GamesNamedSnoc(index[1..], e, key);
    }
  }

  /** The `by_game.setdefault(key, []).append(r)` loop: each key lists its entries in index order. */
  method GroupByGame(index: seq<GameEntry>) returns (byGame: map<string, seq<GameEntry>>)
    ensures forall key :: Lookup(byGame, key) == GamesNamed(index, key)
  {
    byGame := map[];
    var k := 0;
    while k < |index|
      invariant 0 <= k <= |index|
      invariant forall key :: Lookup(byGame, key) == GamesNamed(index[..k], key)
    {
      var e := index[k];
      var key := Lower(Strip(e.game));
      GroupStep(index, k, byGame);
      byGame := byGame[key := Lookup(byGame, key) + [e]];
      k := k + 1;
    }
    assert index[..k] == index;
  }

  /** Appending entry `k` under its key keeps every key's list equal to its entries among the first `k + 1`. */
  lemma GroupStep(index: seq<GameEntry>, k: nat, before: map<string, seq<GameEntry>>)
    requires k < |index|
    requires forall key :: Lookup(before, key) == GamesNamed(index[..k], key)
    ensures var key := Lower(Strip(index[k].game));
      var after := before[key := Lookup(before, key) + [index[k]]];
      forall key' :: Lookup(after, key') == GamesNamed(index[..k + 1], key')
  {
    var e := index[k];
    var key := Lower(Strip(e.game));
    var after := before[key := Lookup(before, key) + [e]];
    assert index[..k + 1] == index[..k] + [e];
    forall key' ensures Lookup(after, key') == GamesNamed(index[..k + 1], key') {
      GamesNamedSnoc(index[..k], e, key');
      if key' != key {
        assert Lookup(after, key') == Lookup(before, key');
      }
    }
  }

  // ---------------------------------------------------------------------
  // `grade_submissions_for_sheet`: one submission row.

  /** The submission columns; all five must be present. */
  datatype SubColumns = SubColumns(game: nat, ts: nat, answer: nat, grade: nat, conf: nat)

  function SubColumnsOf(headers: seq<string>): (r: Option<SubColumns>)
    ensures r.Some? ==> r.value.grade < |headers| && r.value.conf < |headers|
  {
    var game := IdxOf(headers, ["Game"]);
    var ts := IdxOf(headers, ["Timestamp"]);
    var answer := IdxOf(headers, ["Answer"]);
    var grade := IdxOf(headers, ["AI Grade"]);
    var conf := IdxOf(headers, ["AI Confidence"]);
    if game.None? || ts.None? || answer.None? || grade.None? || conf.None? then None
    else Some(SubColumns(game.value, ts.value, answer.value, grade.value, conf.value))
  }

  /** The calls the grading pass makes outside the sheets: the rubric and grader models, the date parser, float rounding. */
  datatype Oracles = Oracles(rubric: Rubric, grader: Grader, parse: DateParser, fractional: (string, string) -> string)

  /**
   * The model's reply to the grading request built from a prompt and the
   * raw answer, or `None` when the call raises (the request text around the
   * two is not modelled).
   */
  type Grader = (string, string) -> Option<string>

  /**
   * The Games window a submission row is graded against, with its trimmed
   * answer: none when it already has an AI grade, lacks a game, timestamp or
   * answer, has an unparseable timestamp or falls in no window of its game.
   */
  function WindowFor(row: seq<string>, cols: SubColumns, index: seq<GameEntry>, parse: DateParser): (r: Option<(GameEntry, string)>)
    ensures r.Some? ==> r.value.0 in index
  {
    var gameType := Field(row, cols.game);
    var tsRaw := Field(row, cols.ts);
    var answer := Field(row, cols.answer);
    if Field(row, cols.grade) != "" || gameType == "" || tsRaw == "" || answer == "" then None
    else
      match ParseDtSafe(parse, tsRaw)
      case None => None
      case Some(t) =>
        match FirstContaining(GamesNamed(index, Lower(gameType)), t)
        case None => None
        case Some(e) => Some((e, answer))
  }

  /** The window found through `by_game` is the one `find_game_for_submission` picks for the row's game and time. */
  lemma WindowForIsFind(row: seq<string>, cols: SubColumns, index: seq<GameEntry>, parse: DateParser)
    requires Field(row, cols.grade) == "" && Field(row, cols.answer) != "" && Field(row, cols.ts) != ""
    ensures (WindowFor(row, cols, index, parse).Some? ==>
      FindGameForSubmission(Field(row, cols.game), ParseDtSafe(parse, Field(row, cols.ts)), index) == Some(WindowFor(row, cols, index, parse).value.0))
    ensures (WindowFor(row, cols, index, parse).None? ==>
      FindGameForSubmission(Field(row, cols.game), ParseDtSafe(parse, Field(row, cols.ts)), index).None?)
  {
    var gameType := Field(row, cols.game);
    var t := ParseDtSafe(parse, Field(row, cols.ts));
    if gameType != "" && t.Some? {
      StripIdempotent(if cols.game < |row| then row[cols.game] else "");
      GroupedLookupIsFind(gameType, t.value, index);
    }
  }

  /** `not grading_prompt or not grading_prompt.lower().startswith("ai:")` */
  predicate NeedsPrompt(e: GameEntry) {
    e.grading == "" || !HasAiMarker(e.grading)
  }

  /** The prompt regenerated for a window, as written back to the Games sheet. */
  function RegeneratedPrompt(e: GameEntry, rubric: Rubric): string {
    WrittenPrompt(e.grading, GenerateGradingLogic(e.game, e.question, e.answer, e.grading, rubric))
  }

  /** `grading_prompt.strip()` as handed to the grading model. */
  function GraderPrompt(e: GameEntry, rubric: Rubric): string {
    if NeedsPrompt(e) then RegeneratedPrompt(e, rubric) else Strip(e.grading)
  }

  /** `grade_submission_entry`, with a failed call read as ("Uncertain", "N/A"). */
  function GradeFor(prompt: string, answer: string, grader: Grader, fractional: (string, string) -> string): (r: (string, string))
    ensures r.0 == "Correct" || r.0 == "Incorrect" || r.0 == "Uncertain"
  {
    match grader(prompt, answer)
    case None => ("Uncertain", "N/A")
    case Some(text) => ParseGradeConfidence(text, fractional)
  }

  /** One entry of `out_updates`. */
  datatype GradeUpdate = GradeUpdate(row: nat, grade: string, confidence: string)

  /** The Games write and the grade a submission row leads to. */
  datatype RowOutcome = RowOutcome(repair: Option<WriteOp>, update: Option<GradeUpdate>)

  function OutcomeFor(row: seq<string>, i: nat, cols: SubColumns, index: seq<GameEntry>, env: Oracles): (r: RowOutcome)
    ensures r.update.Some? ==> r.update.value.row == i
    ensures r.repair.Some? ==> r.update.Some?
  {
    match WindowFor(row, cols, index, env.parse)
    case None => RowOutcome(None, None)
    case Some((e, answer)) =>
      var repair := if NeedsPrompt(e) then Some(WriteOp(e.rowNumber, e.gradingCol, [[RegeneratedPrompt(e, env.rubric)]])) else None;
      var gc := GradeFor(GraderPrompt(e, env.rubric), answer, env.grader, env.fractional);
      RowOutcome(repair, Some(GradeUpdate(i, gc.0, gc.1)))
  }

  /** A row is graded exactly when it falls into a window, and its grade is one of the three values. */
  lemma OutcomeForSpec(row: seq<string>, i: nat, cols: SubColumns, index: seq<GameEntry>, env: Oracles)
    ensures OutcomeFor(row, i, cols, index, env).update.Some? <==> WindowFor(row, cols, index, env.parse).Some?
    ensures OutcomeFor(row, i, cols, index, env).update.Some? ==>
      OutcomeFor(row, i, cols, index, env).update.value.row == i
      && ValidGrade(OutcomeFor(row, i, cols, index, env).update.value.grade)
  {
  }

  /**
   * `out_updates` once the loop has passed sheet row `n`: one grade per
   * graded row from 3 to `n`, in row order.
   */
  function GradedUpTo(rows: seq<seq<string>>, cols: SubColumns, index: seq<GameEntry>, env: Oracles, n: nat): seq<GradeUpdate>
    requires n <= |rows|
    decreases n
  {
    if n < 3 then []
    else
      var o := OutcomeFor(rows[n - 1], n, cols, index, env);
      GradedUpTo(rows, cols, index, env, n - 1) + (if o.update.Some? then [o.update.value] else [])
  }

  /** The `update_cell` writes to the Games sheet once the loop has passed sheet row `n`, in the order they are issued. */
  function RepairsUpTo(rows: seq<seq<string>>, cols: SubColumns, index: seq<GameEntry>, env: Oracles, n: nat): seq<WriteOp>
    requires n <= |rows|
    decreases n
  {
    if n < 3 then []
    else
      var o := OutcomeFor(rows[n - 1], n, cols, index, env);
      RepairsUpTo(rows, cols, index, env, n - 1) + (if o.repair.Some? then [o.repair.value] else [])
  }

  /** `out_updates` after the whole loop. */
  function GradeUpdates(rows: seq<seq<string>>, cols: SubColumns, index: seq<GameEntry>, env: Oracles): seq<GradeUpdate> {
    GradedUpTo(rows, cols, index, env, |rows|)
  }

  /** The prompt writes to the Games sheet after the whole loop. */
  function PromptRepairs(rows: seq<seq<string>>, cols: SubColumns, index: seq<GameEntry>, env: Oracles): seq<WriteOp> {
    RepairsUpTo(rows, cols, index, env, |rows|)
  }

  predicate UpdateRowsIncreasing(us: seq<GradeUpdate>) {
    forall i, j :: 0 <= i < j < |us| ==> us[i].row < us[j].row
  }

  predicate UpdateListed(us: seq<GradeUpdate>, r: nat) {
    exists k :: 0 <= k < |us| && us[k].row == r
  }

  predicate ValidGrade(g: string) {
    g == "Correct" || g == "Incorrect" || g == "Uncertain"
  }

  /**
   * Up to row `n`, the grades are in strictly increasing row order within rows
   * 3 to `n`, each is one of the three values, and a row is graded exactly when
   * it falls into a window.
   */
  lemma {:induction false} GradedUpToSpec(rows: seq<seq<string>>, cols: SubColumns, index: seq<GameEntry>, env: Oracles, n: nat)
    requires n <= |rows|
    ensures var us := GradedUpTo(rows, cols, index, env, n);
      UpdateRowsIncreasing(us)
      && (forall k :: 0 <= k < |us| ==> 3 <= us[k].row <= n && ValidGrade(us[k].grade))
      && (forall r :: 3 <= r <= n ==> (UpdateListed(us, r) <==> WindowFor(rows[r - 1], cols, index, env.parse).Some?))
    decreases n
  {
    if n >= 3 {
      GradedUpToSpec(rows, cols, index, env, n - 1);
      var o := OutcomeFor(rows[n - 1], n, cols, index, env);
      OutcomeForSpec(rows[n - 1], n, cols, index, env);
      AppendUpdate(rows, cols, index, env.parse, GradedUpTo(rows, cols, index, env, n - 1), o.update, n);
    }
  }

  /**
   * Appending row `n`'s grade, if it has one, to the grades of rows 3 to
   * `n - 1` keeps them ordered and listing exactly the rows with a window.
   */
  lemma AppendUpdate(rows: seq<seq<string>>, cols: SubColumns, index: seq<GameEntry>, parse: DateParser,
                     prev: seq<GradeUpdate>, x: Option<GradeUpdate>, n: nat)
    requires 3 <= n <= |rows|
    requires UpdateRowsIncreasing(prev)
    requires forall k :: 0 <= k < |prev| ==> 3 <= prev[k].row <= n - 1 && ValidGrade(prev[k].grade)
    requires forall r :: 3 <= r <= n - 1 ==> (UpdateListed(prev, r) <==> WindowFor(rows[r - 1], cols, index, parse).Some?)
    requires x.Some? ==> x.value.row == n && ValidGrade(x.value.grade)
    requires x.Some? <==> WindowFor(rows[n - 1], cols, index, parse).Some?
    ensures var us := prev + (if x.Some? then [x.value] else []);
      UpdateRowsIncreasing(us)
      && (forall k :: 0 <= k < |us| ==> 3 <= us[k].row <= n && ValidGrade(us[k].grade))
      && (forall r :: 3 <= r <= n ==> (UpdateListed(us, r) <==> WindowFor(rows[r - 1], cols, index, parse).Some?))
  {
    var us := prev + (if x.Some? then [x.value] else []);
    forall r | 3 <= r <= n ensures UpdateListed(us, r) <==> WindowFor(rows[r - 1], cols, index, parse).Some? {
      if UpdateListed(us, r) {
        var k :| 0 <= k < |us| && us[k].row == r;
        if k < |prev| {
          assert prev[k] == us[k];
        }
      }
      if r < n && UpdateListed(prev, r) {
        var k :| 0 <= k < |prev| && prev[k].row == r;
        assert us[k] == prev[k];
      }
      if r == n && x.Some? {
        assert us[|prev|].row == n;
      }
    }
  }

  /** The grades are in strictly increasing row order within rows 3 to the last, and each is one of the three values. */
  lemma GradeUpdatesOrdered(rows: seq<seq<string>>, cols: SubColumns, index: seq<GameEntry>, env: Oracles)
    ensures var us := GradeUpdates(rows, cols, index, env);
      UpdateRowsIncreasing(us)
      && (forall k :: 0 <= k < |us| ==> 3 <= us[k].row <= |rows|)
      && (forall k :: 0 <= k < |us| ==> ValidGrade(us[k].grade))
  {
    GradedUpToSpec(rows, cols, index, env, |rows|);
  }

  /** A row from 3 on is graded exactly when it has no AI grade yet and falls into a window. */
  lemma GradeUpdatesRows(rows: seq<seq<string>>, cols: SubColumns, index: seq<GameEntry>, env: Oracles)
    ensures forall r :: 3 <= r <= |rows| ==>
      (UpdateListed(GradeUpdates(rows, cols, index, env), r) <==> WindowFor(rows[r - 1], cols, index, env.parse).Some?)
  {
    GradedUpToSpec(rows, cols, index, env, |rows|);
  }

  /** A graded row's AI grade is non-blank, so once it is written a later run skips that row. */
  lemma GradedRowsAreSkippedLater(row: seq<string>, cols: SubColumns, index: seq<GameEntry>, parse: DateParser, grade: string)
    requires grade == "Correct" || grade == "Incorrect" || grade == "Uncertain"
    requires cols.grade < |row| && row[cols.grade] == grade
    ensures WindowFor(row, cols, index, parse).None?
  {
    AsciiTrimmed(grade);
  }

  // ---------------------------------------------------------------------
  // `grade_submissions_for_sheet`: the block of grades.

  /** `min(r for (r, _, _) in out_updates)` */
  function MinRow(us: seq<GradeUpdate>): (m: nat)
    requires |us| > 0
    ensures forall k :: 0 <= k < |us| ==> m <= us[k].row
    ensures UpdateListed(us, m)
    decreases |us|
  {
    if |us| == 1 then us[0].row
    else
      var rest := MinRow(us[1..]);
      assert UpdateListed(us, rest) by {
        var k :| 0 <= k < |us[1..]| && us[1..][k].row == rest;
        assert us[k + 1].row == rest;
      }
      if us[0].row <= rest then us[0].row else rest
  }

  /** `max(r for (r, _, _) in out_updates)` */
  function MaxRow(us: seq<GradeUpdate>): (m: nat)
    requires |us| > 0
    ensures forall k :: 0 <= k < |us| ==> us[k].row <= m
    ensures UpdateListed(us, m)
    decreases |us|
  {
    if |us| == 1 then us[0].row
    else
      var rest := MaxRow(us[1..]);
      assert UpdateListed(us, rest) by {
        var k :| 0 <= k < |us[1..]| && us[1..][k].row == rest;
        assert us[k + 1].row == rest;
      }
      if us[0].row >= rest then us[0].row else rest
  }

  lemma UpdateListedSnoc(us: seq<GradeUpdate>, k: nat, x: nat)
    requires k < |us|
    ensures UpdateListed(us[..k + 1], x) <==> UpdateListed(us[..k], x) || us[k].row == x
  {
    if UpdateListed(us[..k], x) {
      var j :| 0 <= j < k && us[..k][j].row == x;
      assert us[..k + 1][j] == us[..k][j];
    }
    if UpdateListed(us[..k + 1], x) {
      var j :| 0 <= j < k + 1 && us[..k + 1][j].row == x;
      if j < k { assert us[..k][j] == us[..k + 1][j]; }
    }
    assert us[..k + 1][k] == us[k];
  }

  /** The loop that puts each grade and confidence into its row of the block, over the initial rows `filler`. */
  method FillGradeBlock(updates: seq<GradeUpdate>, minRow: nat, filler: Grid) returns (block: Grid)
    requires UpdateRowsIncreasing(updates)
    requires forall k :: 0 <= k < |updates| ==> minRow <= updates[k].row < minRow + |filler|
    ensures |block| == |filler|
    ensures forall k :: 0 <= k < |updates| ==>
      block[updates[k].row - minRow] == [updates[k].grade, updates[k].confidence]
    ensures forall r :: 0 <= r < |filler| && !UpdateListed(updates, minRow + r) ==> block[r] == filler[r]
  {
    block := filler;
    var k := 0;
    while k < |updates|
      invariant 0 <= k <= |updates| && |block| == |filler|
      invariant forall k' :: 0 <= k' < k ==>
        block[updates[k'].row - minRow] == [updates[k'].grade, updates[k'].confidence]
      invariant forall r :: 0 <= r < |filler| && !UpdateListed(updates[..k], minRow + r) ==> block[r] == filler[r]
    {
      var u := updates[k];
      forall x: nat ensures UpdateListed(updates[..k + 1], x) <==> UpdateListed(updates[..k], x) || u.row == x {
        UpdateListedSnoc(updates, k, x);
      }
      block := block[u.row - minRow := [u.grade, u.confidence]];
      k := k + 1;
    }
    assert updates[..k] == updates;
  }

  /**
   * The block as `grade_submissions_for_sheet` builds it: one row per sheet
   * row from the lowest to the highest graded row, with the grade and
   * confidence in the graded rows and two empty cells in every other row.
   */
  method BuildGradeBlock(updates: seq<GradeUpdate>) returns (block: Grid)
    requires |updates| > 0 && UpdateRowsIncreasing(updates)
    ensures |block| == MaxRow(updates) - MinRow(updates) + 1
    ensures forall k :: 0 <= k < |updates| ==>
      block[updates[k].row - MinRow(updates)] == [updates[k].grade, updates[k].confidence]
    ensures forall r :: MinRow(updates) <= r <= MaxRow(updates) && !UpdateListed(updates, r) ==>
      block[r - MinRow(updates)] == ["", ""]
  {
    var lo, hi := MinRow(updates), MaxRow(updates);
    var blank: Grid := seq(hi - lo + 1, _ => ["", ""]);
    block := FillGradeBlock(updates, lo, blank);
    forall r | lo <= r <= hi && !UpdateListed(updates, r) ensures block[r - lo] == ["", ""] {
      assert lo + (r - lo) == r;
    }
  }

  /**
   * Writing the block as built over the sheet empties the AI grade of a row
   * inside the block's span that was skipped because it was already graded
   * (for example a graded row 4 between newly graded rows 3 and 5): `lo` is
   * the lowest graded row and `block[r - lo]` the pair of empty cells the
   * block holds for row `r`.
   */
  lemma BlankFillClearsGradedRow(g: Grid, col: nat, lo: nat, block: Grid, r: nat)
    requires 1 <= lo <= r < lo + |block|
    requires block[r - lo] == ["", ""]
    requires CellAt(g, r - 1, col) != ""
    ensures CellAt(WriteBlock(g, lo - 1, col, block), r - 1, col) == ""
    ensures CellAt(WriteBlock(g, lo - 1, col, block), r - 1, col) != CellAt(g, r - 1, col)
  {
    var r0, i := lo - 1, r - 1;
    assert i - r0 == r - lo;
    WriteBlockCellAt(g, r0, col, block, i, col);
    BlockRowKept(block, i - r0, ["", ""], col, col);
  }

  /**
   * `h` is `g` after the block write of the grades over the rows `lo` to
   * `hi`: each graded row holds its grade and confidence in columns `col` and
   * `col + 1`, every other row of the span holds "" in both, and every cell
   * outside those two columns of the span is as it was.
   */
  ghost predicate GradesBlankFilled(g: Grid, h: Grid, col: nat, us: seq<GradeUpdate>, lo: nat, hi: nat) {
    GradedCellsHeld(h, col, us) && SpanBlanked(h, col, us, lo, hi) && OutsideSpanKept(g, h, col, lo, hi)
  }

  ghost predicate GradedCellsHeld(h: Grid, col: nat, us: seq<GradeUpdate>) {
    forall k :: 0 <= k < |us| && us[k].row >= 1 ==>
      CellAt(h, us[k].row - 1, col) == us[k].grade && CellAt(h, us[k].row - 1, col + 1) == us[k].confidence
  }

  ghost predicate SpanBlanked(h: Grid, col: nat, us: seq<GradeUpdate>, lo: nat, hi: nat) {
    forall i: nat :: lo <= i + 1 <= hi && !UpdateListed(us, i + 1) ==>
      CellAt(h, i, col) == "" && CellAt(h, i, col + 1) == ""
  }

  ghost predicate OutsideSpanKept(g: Grid, h: Grid, col: nat, lo: nat, hi: nat) {
    forall i: nat, j: nat :: ((j != col && j != col + 1) || !(lo <= i + 1 <= hi)) ==> CellAt(h, i, j) == CellAt(g, i, j)
  }

  /**
   * Writing the blank-filled block: the graded rows take their grade and
   * confidence, the other rows of the span are emptied in both columns, and
   * nothing else changes.
   */
  lemma BlankBlockWrite(g: Grid, col: nat, us: seq<GradeUpdate>, lo: nat, hi: nat, block: Grid)
    requires 1 <= lo && hi == lo + |block| - 1
    requires forall k :: 0 <= k < |us| ==> lo <= us[k].row
    requires forall k :: 0 <= k < |us| ==> us[k].row <= hi
    requires forall k :: 0 <= k < |us| ==> block[us[k].row - lo] == [us[k].grade, us[k].confidence]
    requires forall r :: lo <= r <= hi && !UpdateListed(us, r) ==> block[r - lo] == ["", ""]
    ensures GradesBlankFilled(g, WriteBlock(g, lo - 1, col, block), col, us, lo, hi)
  {
    var h := WriteBlock(g, lo - 1, col, block);
    forall k | 0 <= k < |us| && us[k].row >= 1
      ensures CellAt(h, us[k].row - 1, col) == us[k].grade && CellAt(h, us[k].row - 1, col + 1) == us[k].confidence
    {
      GradedRowCells(g, col, lo, block, us[k]);
    }
    assert GradedCellsHeld(h, col, us);
    BlankSpanWrite(g, col, us, lo, hi, block);
    BlankOutsideWrite(g, col, us, lo, hi, block);
  }

  lemma BlankSpanWrite(g: Grid, col: nat, us: seq<GradeUpdate>, lo: nat, hi: nat, block: Grid)
    requires 1 <= lo && hi == lo + |block| - 1
    requires forall r :: lo <= r <= hi && !UpdateListed(us, r) ==> block[r - lo] == ["", ""]
    ensures SpanBlanked(WriteBlock(g, lo - 1, col, block), col, us, lo, hi)
  {
    var h := WriteBlock(g, lo - 1, col, block);
    forall i: nat | lo <= i + 1 <= hi && !UpdateListed(us, i + 1)
      ensures CellAt(h, i, col) == "" && CellAt(h, i, col + 1) == ""
    {
      BlankRowCells(g, col, lo, block, i);
    }
    assert SpanBlanked(h, col, us, lo, hi);
  }

  lemma BlankOutsideWrite(g: Grid, col: nat, us: seq<GradeUpdate>, lo: nat, hi: nat, block: Grid)
    requires 1 <= lo && hi == lo + |block| - 1
    requires forall k :: 0 <= k < |us| ==> lo <= us[k].row
    requires forall k :: 0 <= k < |us| ==> us[k].row <= hi
    requires forall k :: 0 <= k < |us| ==> block[us[k].row - lo] == [us[k].grade, us[k].confidence]
    requires forall r :: lo <= r <= hi && !UpdateListed(us, r) ==> block[r - lo] == ["", ""]
    ensures OutsideSpanKept(g, WriteBlock(g, lo - 1, col, block), col, lo, hi)
  {
    BlankBlockPairs(us, lo, hi, block);
    forall i: nat, j: nat | (j != col && j != col + 1) || !(lo <= i + 1 <= hi)
      ensures CellAt(WriteBlock(g, lo - 1, col, block), i, j) == CellAt(g, i, j)
    {
      PairBlockCell(g, col, lo, hi, block, i, j);
    }
  }

  lemma MinRowPositive(us: seq<GradeUpdate>)
    requires |us| > 0
    requires forall k :: 0 <= k < |us| ==> us[k].row >= 1
    ensures MinRow(us) >= 1
  {
    var k :| 0 <= k < |us| && us[k].row == MinRow(us);
  }

  lemma BlankRowCells(g: Grid, col: nat, lo: nat, block: Grid, i: nat)
    requires 1 <= lo <= i + 1 < lo + |block|
    requires block[i + 1 - lo] == ["", ""]
    ensures CellAt(WriteBlock(g, lo - 1, col, block), i, col) == ""
    ensures CellAt(WriteBlock(g, lo - 1, col, block), i, col + 1) == ""
  {
    var r0 := lo - 1;
    assert i - r0 == i + 1 - lo;
    WriteBlockCellAt(g, r0, col, block, i, col);
    WriteBlockCellAt(g, r0, col, block, i, col + 1);
  }

  /** A block whose rows are all pairs changes only its two columns. */
  lemma PairBlockCell(g: Grid, col: nat, lo: nat, hi: nat, block: Grid, i: nat, j: nat)
    requires 1 <= lo && hi == lo + |block| - 1
    requires forall d :: 0 <= d < |block| ==> |block[d]| == 2
    requires (j != col && j != col + 1) || !(lo <= i + 1 <= hi)
    ensures CellAt(WriteBlock(g, lo - 1, col, block), i, j) == CellAt(g, i, j)
  {
    WriteBlockCellAt(g, lo - 1, col, block, i, j);
    if lo - 1 <= i < lo - 1 + |block| {
      assert |block[i - (lo - 1)]| == 2;
    }
  }

  /** Each row of the span is a graded pair or a blank pair. */
  lemma BlankBlockPairs(us: seq<GradeUpdate>, lo: nat, hi: nat, block: Grid)
    requires 1 <= lo && hi == lo + |block| - 1
    requires forall k :: 0 <= k < |us| ==> lo <= us[k].row
    requires forall k :: 0 <= k < |us| ==> us[k].row <= hi
    requires forall k :: 0 <= k < |us| ==> block[us[k].row - lo] == [us[k].grade, us[k].confidence]
    requires forall r :: lo <= r <= hi && !UpdateListed(us, r) ==> block[r - lo] == ["", ""]
    ensures forall d :: 0 <= d < |block| ==> |block[d]| == 2
  {
    forall d | 0 <= d < |block| ensures |block[d]| == 2 {
      var r := lo + d;
      if UpdateListed(us, r) {
        var k :| 0 <= k < |us| && us[k].row == r;
        assert block[us[k].row - lo] == block[d];
      } else {
        assert block[r - lo] == block[d];
      }
    }
  }

  /**
   * The block with each row that gets no grade holding its current AI grade
   * and confidence, so that writing it changes only the graded rows.
   */
  method BuildGradeBlockKeeping(updates: seq<GradeUpdate>, g: Grid, col: nat) returns (block: Grid)
    requires |updates| > 0 && UpdateRowsIncreasing(updates) && MinRow(updates) >= 1
    ensures |block| == MaxRow(updates) - MinRow(updates) + 1
    ensures forall k :: 0 <= k < |updates| ==>
      block[updates[k].row - MinRow(updates)] == [updates[k].grade, updates[k].confidence]
    ensures forall r :: MinRow(updates) <= r <= MaxRow(updates) && !UpdateListed(updates, r) ==>
      block[r - MinRow(updates)] == [CellAt(g, r - 1, col), CellAt(g, r - 1, col + 1)]
  {
    var lo, hi := MinRow(updates), MaxRow(updates);
    var current: Grid := seq(hi - lo + 1, r requires 0 <= r < hi - lo + 1 =>
      [CellAt(g, lo - 1 + r, col), CellAt(g, lo - 1 + r, col + 1)]);
    block := FillGradeBlock(updates, lo, current);
    forall r | lo <= r <= hi && !UpdateListed(updates, r)
      ensures block[r - lo] == [CellAt(g, r - 1, col), CellAt(g, r - 1, col + 1)]
    {
      assert lo + (r - lo) == r;
    }
  }

  /**
   * `h` is `g` with each grade and confidence in columns `col` and `col + 1`
   * of its row and every other cell as it was.
   */
  ghost predicate GradesWritten(g: Grid, h: Grid, col: nat, us: seq<GradeUpdate>) {
    (forall k :: 0 <= k < |us| && us[k].row >= 1 ==>
      CellAt(h, us[k].row - 1, col) == us[k].grade && CellAt(h, us[k].row - 1, col + 1) == us[k].confidence)
    && (forall i: nat, j: nat :: ((j != col && j != col + 1) || !UpdateListed(us, i + 1)) ==> CellAt(h, i, j) == CellAt(g, i, j))
  }

  /** Writing the block that keeps the current cells changes exactly the graded rows' two cells. */
  lemma KeepingBlockWrite(g: Grid, col: nat, us: seq<GradeUpdate>, lo: nat, block: Grid)
    requires lo >= 1
    requires forall k :: 0 <= k < |us| ==> lo <= us[k].row < lo + |block|
    requires forall k :: 0 <= k < |us| ==> block[us[k].row - lo] == [us[k].grade, us[k].confidence]
    requires forall r :: lo <= r < lo + |block| && !UpdateListed(us, r) ==>
      block[r - lo] == [CellAt(g, r - 1, col), CellAt(g, r - 1, col + 1)]
    ensures GradesWritten(g, WriteBlock(g, lo - 1, col, block), col, us)
  {
    var h := WriteBlock(g, lo - 1, col, block);
    forall k | 0 <= k < |us| && us[k].row >= 1
      ensures CellAt(h, us[k].row - 1, col) == us[k].grade && CellAt(h, us[k].row - 1, col + 1) == us[k].confidence
    {
      GradedRowCells(g, col, lo, block, us[k]);
    }
    forall i: nat, j: nat | (j != col && j != col + 1) || !UpdateListed(us, i + 1)
      ensures CellAt(h, i, j) == CellAt(g, i, j)
    {
      KeepingBlockCell(g, col, us, lo, block, i, j);
    }
  }

  lemma GradedRowCells(g: Grid, col: nat, lo: nat, block: Grid, u: GradeUpdate)
    requires 1 <= lo <= u.row < lo + |block|
    requires block[u.row - lo] == [u.grade, u.confidence]
    ensures CellAt(WriteBlock(g, lo - 1, col, block), u.row - 1, col) == u.grade
    ensures CellAt(WriteBlock(g, lo - 1, col, block), u.row - 1, col + 1) == u.confidence
  {
    var r0, i := lo - 1, u.row - 1;
    assert i - r0 == u.row - lo;
    WriteBlockCellAt(g, r0, col, block, i, col);
    WriteBlockCellAt(g, r0, col, block, i, col + 1);
  }

  lemma KeepingBlockCell(g: Grid, col: nat, us: seq<GradeUpdate>, lo: nat, block: Grid, i: nat, j: nat)
    requires lo >= 1
    requires forall k :: 0 <= k < |us| ==> lo <= us[k].row < lo + |block|
    requires forall k :: 0 <= k < |us| ==> block[us[k].row - lo] == [us[k].grade, us[k].confidence]
    requires forall r :: lo <= r < lo + |block| && !UpdateListed(us, r) ==>
      block[r - lo] == [CellAt(g, r - 1, col), CellAt(g, r - 1, col + 1)]
    requires (j != col && j != col + 1) || !UpdateListed(us, i + 1)
    ensures CellAt(WriteBlock(g, lo - 1, col, block), i, j) == CellAt(g, i, j)
  {
    var r0 := lo - 1;
    WriteBlockCellAt(g, r0, col, block, i, j);
    if r0 <= i < r0 + |block| {
      var d := i - r0;
      if UpdateListed(us, i + 1) {
        var k :| 0 <= k < |us| && us[k].row == i + 1;
        assert us[k].row - lo == d;
        BlockRowKept(block, d, [us[k].grade, us[k].confidence], col, j);
      } else {
        var r := i + 1;
        assert r - lo == d && r - 1 == i;
        assert block[r - lo] == [CellAt(g, r - 1, col), CellAt(g, r - 1, col + 1)];
        BlockRowKept(block, d, [CellAt(g, i, col), CellAt(g, i, col + 1)], col, j);
      }
    }
  }

  /** A two-cell row of the block covers exactly the columns `col` and `col + 1`. */
  lemma BlockRowKept(block: Grid, d: nat, row: seq<string>, col: nat, j: nat)
    requires d < |block| && block[d] == row && |row| == 2
    ensures col <= j < col + |block[d]| <==> j == col || j == col + 1
    ensures j == col ==> block[d][j - col] == row[0]
    ensures j == col + 1 ==> block[d][j - col] == row[1]
  {
  }

  // ---------------------------------------------------------------------
  // `grade_submissions_for_sheet`: the whole pass.

  /** The submissions grid once the header row holds all three grading columns. */
  function WithHeaders(g: Grid): (r: Grid)
    requires g != []
    ensures |r| == |g|
  {
    var missing := MissingFrom(g[0], GradeColumns);
    if missing == [] then g
    else
      WriteBlockSpec(g, 0, 0, [g[0] + missing]);
      WriteBlock(g, 0, 0, [g[0] + missing])
  }

  /** The repair appends the missing columns to the header row and leaves every other row alone. */
  lemma WithHeadersSpec(g: Grid)
    requires g != []
    ensures WithHeaders(g)[0] == g[0] + MissingFrom(g[0], GradeColumns)
    ensures forall i :: 1 <= i < |g| ==> WithHeaders(g)[i] == g[i]
    ensures forall c :: c in GradeColumns ==> HasHeader(WithHeaders(g)[0], c)
  {
    var h := g[0] + MissingFrom(g[0], GradeColumns);
    if MissingFrom(g[0], GradeColumns) != [] {
      var w := WriteBlock(g, 0, 0, [h]);
      WriteBlockSpec(g, 0, 0, [h]);
      assert w[0] == SetSegment(g[0], 0, h);
      assert PadRow(g[0], |h|) == g[0] + seq(|h| - |g[0]|, _ => "");
      assert SetSegment(g[0], 0, h) == h;
    }
    RepairComplete(g[0]);
  }

  /**
   * The checks at the head of the loop body, in order: an existing AI grade,
   * a missing game, timestamp or answer, an unparseable timestamp, and no
   * window of the row's game containing it each skip the row.
   */
  method FindWindow(row: seq<string>, cols: SubColumns, byGame: map<string, seq<GameEntry>>,
                    ghost index: seq<GameEntry>, parse: DateParser) returns (window: Option<(GameEntry, string)>)
    requires forall key :: Lookup(byGame, key) == GamesNamed(index, key)
    ensures window == WindowFor(row, cols, index, parse)
  {
    if Field(row, cols.grade) != "" {
      return None;
    }
    var gameType := Field(row, cols.game);
    var tsRaw := Field(row, cols.ts);
    var answer := Field(row, cols.answer);
    if gameType == "" || tsRaw == "" || answer == "" {
      return None;
    }
    var t := ParseDtSafe(parse, tsRaw);
    if t.None? {
      return None;
    }
    var candidates := Lookup(byGame, Lower(gameType));
    var found := FirstContaining(candidates, t.value);
    if found.None? {
      return None;
    }
    return Some((found.value, answer));
  }

  lemma OutcomeForNoWindow(row: seq<string>, i: nat, cols: SubColumns, index: seq<GameEntry>, env: Oracles)
    requires WindowFor(row, cols, index, env.parse).None?
    ensures OutcomeFor(row, i, cols, index, env) == RowOutcome(None, None)
  {
  }

  lemma OutcomeForWindow(row: seq<string>, i: nat, cols: SubColumns, index: seq<GameEntry>, env: Oracles, e: GameEntry, answer: string)
    requires WindowFor(row, cols, index, env.parse) == Some((e, answer))
    ensures OutcomeFor(row, i, cols, index, env).repair ==
      if NeedsPrompt(e) then Some(WriteOp(e.rowNumber, e.gradingCol, [[RegeneratedPrompt(e, env.rubric)]])) else None
    ensures OutcomeFor(row, i, cols, index, env).update ==
      var gc := GradeFor(GraderPrompt(e, env.rubric), answer, env.grader, env.fractional);
      Some(GradeUpdate(i, gc.0, gc.1))
  {
  }

  /**
   * The rest of one pass of the loop over submission row `i`, once its
   * window is found: when the window has no
   * "AI:" prompt the regenerated one is written back to its Games cell, and
   * the row's grade, if it gets one, is returned.
   */
  method GradeRow(row: seq<string>, i: nat, cols: SubColumns, window: Option<(GameEntry, string)>,
                  ghost index: seq<GameEntry>, games: Worksheet, env: Oracles, ghost outcome: RowOutcome)
    returns (update: Option<GradeUpdate>, written: Option<WriteOp>)
    requires window == WindowFor(row, cols, index, env.parse)
    requires outcome == OutcomeFor(row, i, cols, index, env)
    modifies games
    ensures update == outcome.update && written == outcome.repair
    ensures AfterOptionalWrite(old(games.grid), old(games.writes), written, games.grid, games.writes)
  {
    if window.None? {
      OutcomeForNoWindow(row, i, cols, index, env);
      return None, None;
    }
    var (e, answer) := window.value;
    var prompt := Strip(e.grading);
    written := None;
    if NeedsPrompt(e) {
      prompt := RegeneratedPrompt(e, env.rubric);
      written := Some(WriteOp(e.rowNumber, e.gradingCol, [[prompt]]));
    }
    WriteRepair(games, written);
    var gc := GradeFor(prompt, answer, env.grader, env.fractional);
    update := Some(GradeUpdate(i, gc.0, gc.1));
    OutcomeForWindow(row, i, cols, index, env, e, answer);
  }

  /** `ws.update_cell(row, col, prompt)` for a one-cell prompt repair, when there is one. */
  method WriteRepair(games: Worksheet, r: Option<WriteOp>)
    requires r.Some? ==> |r.value.values| == 1 && |r.value.values[0]| == 1
    modifies games
    ensures AfterOptionalWrite(old(games.grid), old(games.writes), r, games.grid, games.writes)
  {
    if r.Some? {
      var op := r.value;
      assert op.values[0] == [op.values[0][0]];
      assert op.values == [[op.values[0][0]]];
      games.UpdateCell(op.row, op.col, op.values[0][0]);
    }
  }

  /** The header repair: the header row is rewritten, as one `update("A1", [headers])`, only when a column was missing. */
  method RepairSubmissionHeaders(sub: Worksheet)
    requires sub.grid != []
    modifies sub
    ensures sub.grid == WithHeaders(old(sub.grid))
  {
    var repaired, changed := RepairHeaders(sub.grid[0]);
    if changed {
      sub.Update(1, 1, [repaired]);
    }
  }

  /**
   * The loop over the submission rows from 3 on: it collects the grades in
   * row order and issues each Games prompt write as it goes.
   */
  method GradeRows(rows: Grid, cols: SubColumns, byGame: map<string, seq<GameEntry>>,
                   ghost index: seq<GameEntry>, games: Worksheet, env: Oracles) returns (outs: seq<GradeUpdate>)
    requires forall key :: Lookup(byGame, key) == GamesNamed(index, key)
    modifies games
    ensures outs == GradeUpdates(rows, cols, index, env)
    ensures games.grid == ApplyOps(old(games.grid), PromptRepairs(rows, cols, index, env))
    ensures games.writes == old(games.writes) + PromptRepairs(rows, cols, index, env)
  {
    outs := [];
    if |rows| < 3 {
      return;
    }
    ghost var g0, w0 := games.grid, games.writes;
    assert w0 + [] == w0;
    var n := 2;
    while n < |rows|
      invariant 2 <= n <= |rows|
      invariant outs == GradedUpTo(rows, cols, index, env, n)
      invariant games.grid == ApplyOps(g0, RepairsUpTo(rows, cols, index, env, n))
      invariant games.writes == w0 + RepairsUpTo(rows, cols, index, env, n)
    {
      var i := n + 1;
      ghost var o := OutcomeFor(rows[i - 1], i, cols, index, env);
      var window := FindWindow(rows[i - 1], cols, byGame, index, env.parse);
      ghost var grid, writes := games.grid, games.writes;
      var u, written := GradeRow(rows[i - 1], i, cols, window, index, games, env, o);
      RepairsUpToSnoc(rows, cols, index, env, i, o);
      GradedUpToSnoc(rows, cols, index, env, i, o);
      OpsStep(g0, w0, RepairsUpTo(rows, cols, index, env, n), RepairsUpTo(rows, cols, index, env, i), written,
              grid, writes, games.grid, games.writes);
      if u.Some? {
        outs := outs + [u.value];
      }
      n := i;
    }
  }

  lemma RepairsUpToSnoc(rows: seq<seq<string>>, cols: SubColumns, index: seq<GameEntry>, env: Oracles, i: nat, o: RowOutcome)
    requires 3 <= i <= |rows| && o == OutcomeFor(rows[i - 1], i, cols, index, env)
    ensures RepairsUpTo(rows, cols, index, env, i) ==
      RepairsUpTo(rows, cols, index, env, i - 1) + (if o.repair.Some? then [o.repair.value] else [])
  {
  }

  lemma GradedUpToSnoc(rows: seq<seq<string>>, cols: SubColumns, index: seq<GameEntry>, env: Oracles, i: nat, o: RowOutcome)
    requires 3 <= i <= |rows| && o == OutcomeFor(rows[i - 1], i, cols, index, env)
    ensures GradedUpTo(rows, cols, index, env, i) ==
      GradedUpTo(rows, cols, index, env, i - 1) + (if o.update.Some? then [o.update.value] else [])
  {
  }

  /** One turn of the grading loop extends the Games grid and write log by the row's repair, if it has one. */
  lemma OpsStep(g0: Grid, w0: seq<WriteOp>, done: seq<WriteOp>, next: seq<WriteOp>, r: Option<WriteOp>,
                grid: Grid, writes: seq<WriteOp>, grid': Grid, writes': seq<WriteOp>)
    requires grid == ApplyOps(g0, done) && writes == w0 + done
    requires next == done + (if r.Some? then [r.value] else [])
    requires AfterOptionalWrite(grid, writes, r, grid', writes')
    ensures grid' == ApplyOps(g0, next) && writes' == w0 + next
  {
    match r
    case None =>
      assert next == done;
    case Some(op) =>
      assert next == done + [op];
      OpsStepWrite(g0, w0, done, op, grid, writes, grid', writes');
  }

  lemma OpsStepWrite(g0: Grid, w0: seq<WriteOp>, done: seq<WriteOp>, op: WriteOp,
                     grid: Grid, writes: seq<WriteOp>, grid': Grid, writes': seq<WriteOp>)
    requires grid == ApplyOps(g0, done) && writes == w0 + done
    requires grid' == ApplyOp(grid, op) && writes' == writes + [op]
    ensures grid' == ApplyOps(g0, done + [op]) && writes' == w0 + (done + [op])
  {
    var next := done + [op];
    ApplyOpsSnoc(g0, done, op);
    assert (w0 + done) + [op] == w0 + next;
  }

  /**
   * The single block write of the grades, from the lowest to the highest
   * graded row, as `grade_submissions_for_sheet` builds it: every row of the
   * span that was not graded on this run is written with two empty cells.
   */
  method WriteGrades(sub: Worksheet, outs: seq<GradeUpdate>, col: nat)
    requires UpdateRowsIncreasing(outs)
    requires forall k :: 0 <= k < |outs| ==> outs[k].row >= 1
    modifies sub
    ensures outs == [] ==> sub.grid == old(sub.grid)
    ensures outs != [] ==> GradesBlankFilled(old(sub.grid), sub.grid, col, outs, MinRow(outs), MaxRow(outs))
  {
    if |outs| == 0 {
      return;
    }
    var rows := sub.grid;
    var lo := MinRow(outs);
    MinRowPositive(outs);
    var block := BuildGradeBlock(outs);
    BlankBlockWrite(rows, col, outs, lo, MaxRow(outs), block);
    sub.Update(lo, col + 1, block);
  }

  /**
   * `grade_submissions_for_sheet`: after the header repair, the Games sheet
   * receives every regenerated prompt in row order, and the submissions sheet
   * holds each new grade and confidence in its row, two empty cells in every
   * other row between the lowest and the highest graded row, and every other
   * cell as it was.
   */
  method GradeSubmissionsForSheet(sub: Worksheet, games: Worksheet, env: Oracles)
    requires sub != games
    modifies sub, games
    ensures old(sub.grid) == [] ==> sub.grid == old(sub.grid) && games.grid == old(games.grid)
    ensures old(sub.grid) != [] ==>
      var rows := WithHeaders(old(sub.grid));
      var index := GamesIndex(old(games.grid), env.parse);
      if SubColumnsOf(rows[0]).None? || index == [] then
        sub.grid == rows && games.grid == old(games.grid) && games.writes == old(games.writes)
      else
        var cols := SubColumnsOf(rows[0]).value;
        var ops := PromptRepairs(rows, cols, index, env);
        games.grid == ApplyOps(old(games.grid), ops)
        && games.writes == old(games.writes) + ops
        && var us := GradeUpdates(rows, cols, index, env);
        (us == [] ==> sub.grid == rows)
        && (us != [] ==> GradesBlankFilled(rows, sub.grid, cols.grade, us, MinRow(us), MaxRow(us)))
  {
    if |sub.grid| == 0 {
      return;
    }
    RepairSubmissionHeaders(sub);
    var rows := sub.grid;
    var colsOpt := SubColumnsOf(rows[0]);
    if colsOpt.None? {
      return;
    }
    var cols := colsOpt.value;
    var index := BuildGamesIndex(games.grid, env.parse);
    if |index| == 0 {
      return;
    }
    GamesIndexEntries(old(games.grid), env.parse);
    var byGame := GroupByGame(index);
    var outs := GradeRows(rows, cols, byGame, index, games, env);
    GradeUpdatesOrdered(rows, cols, index, env);
    WriteGrades(sub, outs, cols.grade);
  }
}

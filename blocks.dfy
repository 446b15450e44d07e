/**
 * block_matrix: one matrix from a grid of blocks, joining the blocks of each
 * grid row side by side and then stacking the joined rows.
 */
module Blocks {
  import opened Exprs

  /**
   * `a.row_join(b)`: b's columns to the right of a's. The heights must agree,
   * except that a matrix without columns joins anything (it contributes nothing).
   */
  function RowJoin(a: Matrix<Expr>, b: Matrix<Expr>): Result<Matrix<Expr>>
  {
    if |a| != |b| then (if Width(a) == 0 then Ok(b) else Err(ShapeMismatch))
    else Ok(seq(|a|, i requires 0 <= i < |a| => a[i] + b[i]))
  }

  /**
   * `a.col_join(b)`: b's rows below a's. The widths must agree, except that a
   * matrix without rows joins anything.
   */
  function ColJoin(a: Matrix<Expr>, b: Matrix<Expr>): Result<Matrix<Expr>>
  {
    if Width(a) != Width(b) then (if |a| == 0 then Ok(b) else Err(ShapeMismatch))
    else Ok(a + b)
  }

  // block_matrix as written: `sp.Matrix.row_join(*row)` and `sp.Matrix.col_join(*rows)`
  // pass every block to a join that takes the matrix and exactly one partner.

  /** `sp.Matrix.row_join(*row)`: a TypeError unless the row holds exactly two blocks. */
  function RowJoinCall(row: seq<Matrix<Expr>>): Result<Matrix<Expr>>
  {
    if |row| != 2 then Err(WrongArity) else RowJoin(row[0], row[1])
  }

  /** The joined grid rows, in order; the first row that fails decides the error. */
  function JoinedRowsAsWritten(blocks: seq<seq<Matrix<Expr>>>): Result<seq<Matrix<Expr>>>
  {
    if |blocks| == 0 then Ok([])
    else match RowJoinCall(blocks[0])
      case Err(e) => Err(e)
      case Ok(first) =>
        match JoinedRowsAsWritten(blocks[1..])
        case Err(e) => Err(e)
        case Ok(rest) => Ok([first] + rest)
  }

  /** block_matrix exactly as the source writes it. */
  function BlockMatrixAsWritten(blocks: seq<seq<Matrix<Expr>>>): Result<Matrix<Expr>>
  {
    match JoinedRowsAsWritten(blocks)
    case Err(e) => Err(e)
    case Ok(rows) => if |rows| != 2 then Err(WrongArity) else ColJoin(rows[0], rows[1])
  }

  // block_matrix as intended: any number of blocks per row and of rows, joined
  // left to right and top to bottom, as `hstack` and `vstack` do.

  /** The blocks of a row joined left to right; no block gives the empty matrix. */
  function HStack(row: seq<Matrix<Expr>>): Result<Matrix<Expr>>
  {
    if |row| == 0 then Ok([])
    else if |row| == 1 then Ok(row[0])
    else match HStack(row[..|row| - 1])
      case Err(e) => Err(e)
      case Ok(left) => RowJoin(left, row[|row| - 1])
  }

  /** Matrices stacked top to bottom; none gives the empty matrix. */
  function VStack(ms: seq<Matrix<Expr>>): Result<Matrix<Expr>>
  {
    if |ms| == 0 then Ok([])
    else if |ms| == 1 then Ok(ms[0])
    else match VStack(ms[..|ms| - 1])
      case Err(e) => Err(e)
      case Ok(top) => ColJoin(top, ms[|ms| - 1])
  }

  /** Every grid row joined side by side; the first row that fails decides the error. */
  function JoinedRows(blocks: seq<seq<Matrix<Expr>>>): Result<seq<Matrix<Expr>>>
  {
    if |blocks| == 0 then Ok([])
    else match HStack(blocks[0])
      case Err(e) => Err(e)
      case Ok(first) =>
        match JoinedRows(blocks[1..])
        case Err(e) => Err(e)
        case Ok(rest) => Ok([first] + rest)
  }

  /** block_matrix: the joined rows stacked. */
  function BlockMatrix(blocks: seq<seq<Matrix<Expr>>>): Result<Matrix<Expr>>
  {
    match JoinedRows(blocks)
    case Err(e) => Err(e)
    case Ok(rows) => VStack(rows)
  }

  // Geometry of the intended composition.

  /** The columns of the first k blocks of a grid row: where block k starts. */
  function ColumnsBefore(row: seq<Matrix<Expr>>, k: nat): nat
    requires k <= |row|
  {
    if k == 0 then 0 else ColumnsBefore(row, k - 1) + Width(row[k - 1])
  }

  /** The rows of the first k matrices of a stack: where matrix k starts. */
  function RowsBefore(ms: seq<Matrix<Expr>>, k: nat): nat
    requires k <= |ms|
  {
    if k == 0 then 0 else RowsBefore(ms, k - 1) + |ms[k - 1]|
  }

  /** The width of a grid row once joined: the sum of its blocks' widths. */
  function RowWidth(row: seq<Matrix<Expr>>): nat
  {
    ColumnsBefore(row, |row|)
  }

  /** The rows of the first k grid rows, each as tall as its first block. */
  function GridRowsBefore(blocks: seq<seq<Matrix<Expr>>>, k: nat): nat
    requires k <= |blocks|
    requires forall bi :: 0 <= bi < |blocks| ==> |blocks[bi]| > 0
  {
    if k == 0 then 0 else GridRowsBefore(blocks, k - 1) + |blocks[k - 1][0]|
  }

  /** Every block of a grid row is h tall and rectangular. */
  predicate UniformHeight(row: seq<Matrix<Expr>>, h: nat)
  {
    forall k :: 0 <= k < |row| ==> IsShape(row[k], h, Width(row[k]))
  }

  /**
   * A grid the join accepts: every grid row holds blocks of one positive
   * height, and every joined row has the same width.
   */
  predicate Compatible(blocks: seq<seq<Matrix<Expr>>>)
  {
    (forall bi :: 0 <= bi < |blocks| ==>
      |blocks[bi]| > 0 && |blocks[bi][0]| > 0 && UniformHeight(blocks[bi], |blocks[bi][0]|)) &&
    (forall bi, bk :: 0 <= bi < |blocks| && 0 <= bk < |blocks| ==>
      RowWidth(blocks[bi]) == RowWidth(blocks[bk]))
  }

  lemma {:induction false} ColumnsBeforePrefix(row: seq<Matrix<Expr>>, n: nat, k: nat)
    requires k <= n <= |row|
    ensures ColumnsBefore(row[..n], k) == ColumnsBefore(row, k)
  {
    if k > 0 {
      ColumnsBeforePrefix(row, n, k - 1);
      assert row[..n][k - 1] == row[k - 1];
    }
  }

  lemma {:induction false} ColumnsBeforeMonotone(row: seq<Matrix<Expr>>, k: nat, j: nat)
    requires k < j <= |row|
    ensures ColumnsBefore(row, k) + Width(row[k]) <= ColumnsBefore(row, j)
  {
    if j > k + 1 {
      ColumnsBeforeMonotone(row, k, j - 1);
    }
  }

  lemma {:induction false} RowsBeforePrefix(ms: seq<Matrix<Expr>>, n: nat, k: nat)
    requires k <= n <= |ms|
    ensures RowsBefore(ms[..n], k) == RowsBefore(ms, k)
  {
    if k > 0 {
      RowsBeforePrefix(ms, n, k - 1);
      assert ms[..n][k - 1] == ms[k - 1];
    }
  }

  lemma {:induction false} RowsBeforeMonotone(ms: seq<Matrix<Expr>>, k: nat, j: nat)
    requires k < j <= |ms|
    ensures RowsBefore(ms, k) + |ms[k]| <= RowsBefore(ms, j)
  {
    if j > k + 1 {
      RowsBeforeMonotone(ms, k, j - 1);
    }
  }

  /** Two h-row matrices side by side: a's columns, then b's. */
  lemma RowJoinSpec(a: Matrix<Expr>, b: Matrix<Expr>, h: nat, wa: nat, wb: nat)
    requires h > 0 && IsShape(a, h, wa) && IsShape(b, h, wb)
    ensures RowJoin(a, b).Ok? && IsShape(RowJoin(a, b).value, h, wa + wb)
    ensures forall r, c :: 0 <= r < h && 0 <= c < wa ==> RowJoin(a, b).value[r][c] == a[r][c]
    ensures forall r, c :: 0 <= r < h && 0 <= c < wb ==> RowJoin(a, b).value[r][wa + c] == b[r][c]
  {
  }

  /** Joining blocks of one height h gives an h-row matrix as wide as the blocks together. */
  lemma {:induction false} HStackShape(row: seq<Matrix<Expr>>, h: nat)
    requires |row| > 0 && h > 0 && UniformHeight(row, h)
    ensures HStack(row).Ok? && IsShape(HStack(row).value, h, RowWidth(row))
  {
    var n := |row|;
    if n == 1 {
      assert ColumnsBefore(row, 1) == ColumnsBefore(row, 0) + Width(row[0]);
    } else {
      var prefix := row[..n - 1];
      assert UniformHeight(prefix, h) by {
        forall k | 0 <= k < |prefix| ensures IsShape(prefix[k], h, Width(prefix[k])) {
          assert prefix[k] == row[k];
        }
      }
      HStackShape(prefix, h);
      ColumnsBeforePrefix(row, n - 1, n - 1);
      RowJoinSpec(HStack(prefix).value, row[n - 1], h, RowWidth(prefix), Width(row[n - 1]));
      assert HStack(row) == RowJoin(HStack(prefix).value, row[n - 1]);
    }
  }

  /** Block k's entry (r, c) lands at column (widths of the blocks before k) + c. */
  lemma {:induction false} HStackAt(row: seq<Matrix<Expr>>, h: nat, k: nat, r: nat, c: nat)
    requires h > 0 && UniformHeight(row, h) && k < |row| && r < h && c < Width(row[k])
    ensures HStack(row).Ok? && IsShape(HStack(row).value, h, RowWidth(row))
    ensures ColumnsBefore(row, k) + c < RowWidth(row)
    ensures HStack(row).value[r][ColumnsBefore(row, k) + c] == row[k][r][c]
  {
    HStackShape(row, h);
    ColumnsBeforeMonotone(row, k, |row|);
    var n := |row|;
    if n > 1 {
      var prefix := row[..n - 1];
      assert UniformHeight(prefix, h) by {
        forall j | 0 <= j < |prefix| ensures IsShape(prefix[j], h, Width(prefix[j])) {
          assert prefix[j] == row[j];
        }
      }
      HStackShape(prefix, h);
      ColumnsBeforePrefix(row, n - 1, n - 1);
      RowJoinSpec(HStack(prefix).value, row[n - 1], h, RowWidth(prefix), Width(row[n - 1]));
      assert HStack(row) == RowJoin(HStack(prefix).value, row[n - 1]);
      if k < n - 1 {
        assert prefix[k] == row[k];
        HStackAt(prefix, h, k, r, c);
        ColumnsBeforePrefix(row, n - 1, k);
      }
    }
  }

  /** Stacking matrices of one width w, none empty, gives one w-wide matrix as tall as they are together. */
  lemma {:induction false} VStackShape(ms: seq<Matrix<Expr>>, w: nat)
    requires forall k :: 0 <= k < |ms| ==> |ms[k]| > 0 && IsShape(ms[k], |ms[k]|, w)
    ensures VStack(ms).Ok? && IsShape(VStack(ms).value, RowsBefore(ms, |ms|), w)
  {
    var n := |ms|;
    if n > 1 {
      var prefix := ms[..n - 1];
      VStackShape(prefix, w);
      RowsBeforePrefix(ms, n - 1, n - 1);
      RowsBeforeMonotone(ms, 0, n - 1);
    }
  }

  /** Matrix k's row r lands at row (heights of the matrices before k) + r. */
  lemma {:induction false} VStackAt(ms: seq<Matrix<Expr>>, w: nat, k: nat, r: nat)
    requires forall k :: 0 <= k < |ms| ==> |ms[k]| > 0 && IsShape(ms[k], |ms[k]|, w)
    requires k < |ms| && r < |ms[k]|
    ensures VStack(ms).Ok? && IsShape(VStack(ms).value, RowsBefore(ms, |ms|), w)
    ensures RowsBefore(ms, k) + r < RowsBefore(ms, |ms|)
    ensures VStack(ms).value[RowsBefore(ms, k) + r] == ms[k][r]
  {
    VStackShape(ms, w);
    RowsBeforeMonotone(ms, k, |ms|);
    var n := |ms|;
    if n > 1 {
      var prefix := ms[..n - 1];
      VStackShape(prefix, w);
      RowsBeforePrefix(ms, n - 1, n - 1);
      RowsBeforeMonotone(ms, 0, n - 1);
      var top := VStack(prefix).value;
      assert VStack(ms).value == top + ms[n - 1];
      if k < n - 1 {
        assert prefix[k] == ms[k];
        VStackAt(prefix, w, k, r);
        RowsBeforePrefix(ms, n - 1, k);
      }
    }
  }

  lemma {:induction false} JoinedRowsOk(blocks: seq<seq<Matrix<Expr>>>)
    requires forall bi :: 0 <= bi < |blocks| ==> HStack(blocks[bi]).Ok?
    ensures JoinedRows(blocks).Ok? && |JoinedRows(blocks).value| == |blocks|
    ensures forall bi :: 0 <= bi < |blocks| ==> JoinedRows(blocks).value[bi] == HStack(blocks[bi]).value
  {
    if |blocks| > 0 {
      JoinedRowsOk(blocks[1..]);
      forall bi | 0 < bi < |blocks|
        ensures JoinedRows(blocks).value[bi] == HStack(blocks[bi]).value
      {
        assert blocks[1..][bi - 1] == blocks[bi];
      }
    }
  }

  /** The joined rows of a compatible grid: one per grid row, each as tall as its blocks, all equally wide. */
  lemma JoinedRowsSpec(blocks: seq<seq<Matrix<Expr>>>, w: nat)
    requires Compatible(blocks) && (|blocks| > 0 ==> w == RowWidth(blocks[0]))
    ensures JoinedRows(blocks).Ok? && |JoinedRows(blocks).value| == |blocks|
    ensures forall bi :: 0 <= bi < |blocks| ==>
      HStack(blocks[bi]).Ok? && JoinedRows(blocks).value[bi] == HStack(blocks[bi]).value &&
      |JoinedRows(blocks).value[bi]| == |blocks[bi][0]| > 0 &&
      IsShape(JoinedRows(blocks).value[bi], |blocks[bi][0]|, w)
    ensures forall k :: 0 <= k <= |blocks| ==> RowsBefore(JoinedRows(blocks).value, k) == GridRowsBefore(blocks, k)
  {
    forall bi | 0 <= bi < |blocks| ensures HStack(blocks[bi]).Ok? && IsShape(HStack(blocks[bi]).value, |blocks[bi][0]|, w) {
      HStackShape(blocks[bi], |blocks[bi][0]|);
    }
    JoinedRowsOk(blocks);
    var rows := JoinedRows(blocks).value;
    forall k | 0 <= k <= |blocks| ensures RowsBefore(rows, k) == GridRowsBefore(blocks, k) {
      GridRowsAgree(blocks, rows, k);
    }
  }

  lemma {:induction false} GridRowsAgree(blocks: seq<seq<Matrix<Expr>>>, rows: seq<Matrix<Expr>>, k: nat)
    requires forall bi :: 0 <= bi < |blocks| ==> |blocks[bi]| > 0
    requires |rows| == |blocks| && k <= |blocks|
    requires forall bi :: 0 <= bi < |blocks| ==> |rows[bi]| == |blocks[bi][0]|
    ensures RowsBefore(rows, k) == GridRowsBefore(blocks, k)
  {
    if k > 0 {
      GridRowsAgree(blocks, rows, k - 1);
    }
  }

  /**
   * A compatible grid composes: the result is as tall as the grid rows
   * together and as wide as any joined row.
   */
  lemma BlockMatrixShape(blocks: seq<seq<Matrix<Expr>>>)
    requires Compatible(blocks) && |blocks| > 0
    ensures BlockMatrix(blocks).Ok?
    ensures IsShape(BlockMatrix(blocks).value, GridRowsBefore(blocks, |blocks|), RowWidth(blocks[0]))
  {
    var w := RowWidth(blocks[0]);
    JoinedRowsSpec(blocks, w);
    VStackShape(JoinedRows(blocks).value, w);
  }

  /**
   * In a composed compatible grid, block (bi, bj)'s entry (r, c) sits at row
   * (heights of the grid rows above) + r and column (widths of the blocks to
   * its left) + c.
   */
  lemma BlockMatrixAt(blocks: seq<seq<Matrix<Expr>>>, bi: nat, bj: nat, r: nat, c: nat)
    requires Compatible(blocks)
    requires bi < |blocks| && bj < |blocks[bi]| && r < |blocks[bi][bj]| && c < Width(blocks[bi][bj])
    ensures BlockMatrix(blocks).Ok?
    ensures GridRowsBefore(blocks, bi) + r < |BlockMatrix(blocks).value|
    ensures ColumnsBefore(blocks[bi], bj) + c < |BlockMatrix(blocks).value[GridRowsBefore(blocks, bi) + r]|
    ensures BlockMatrix(blocks).value[GridRowsBefore(blocks, bi) + r][ColumnsBefore(blocks[bi], bj) + c]
      == blocks[bi][bj][r][c]
  {
    var w := RowWidth(blocks[0]);
    JoinedRowsSpec(blocks, w);
    var rows := JoinedRows(blocks).value;
    VStackShape(rows, w);
    VStackAt(rows, w, bi, r);
    HStackAt(blocks[bi], |blocks[bi][0]|, bj, r, c);
  }

  // The finding: the join as written takes exactly one partner.

  lemma RowJoinOneRow(x: seq<Expr>, y: seq<Expr>)
    ensures RowJoin([x], [y]) == Ok([x + y])
  {
    var joined := seq(1, i requires 0 <= i < 1 => [x][i] + [y][i]);
    assert joined[0] == x + y;
    assert joined == [x + y];
  }

  lemma HStackPair(row: seq<Matrix<Expr>>)
    requires |row| == 2
    ensures HStack(row) == RowJoinCall(row)
  {
    assert row[..1] == [row[0]];
  }

  lemma VStackPair(ms: seq<Matrix<Expr>>)
    requires |ms| == 2
    ensures VStack(ms) == ColJoin(ms[0], ms[1])
  {
    assert ms[..1] == [ms[0]];
  }

  /** On a 2 x 2 grid the source's composition is the intended one. */
  lemma AsWrittenAgreesOnTwoByTwo(blocks: seq<seq<Matrix<Expr>>>)
    requires |blocks| == 2 && |blocks[0]| == 2 && |blocks[1]| == 2
    ensures BlockMatrixAsWritten(blocks) == BlockMatrix(blocks)
  {
    HStackPair(blocks[0]);
    HStackPair(blocks[1]);
    var tail := blocks[1..];
    assert tail[0] == blocks[1] && tail[1..] == [];
    assert JoinedRowsAsWritten(tail) == JoinedRows(tail);
    assert JoinedRowsAsWritten(blocks) == JoinedRows(blocks);
    if JoinedRows(blocks).Ok? {
      VStackPair(JoinedRows(blocks).value);
    }
  }

  /** Any other grid makes the source raise TypeError, or an earlier error. */
  lemma AsWrittenRejectsOtherGrids(blocks: seq<seq<Matrix<Expr>>>)
    requires |blocks| != 2 || exists bi :: 0 <= bi < |blocks| && |blocks[bi]| != 2
    ensures BlockMatrixAsWritten(blocks).Err?
  {
    if JoinedRowsAsWritten(blocks).Ok? {
      AsWrittenRowsArity(blocks);
    }
  }

  lemma {:induction false} AsWrittenRowsArity(blocks: seq<seq<Matrix<Expr>>>)
    requires JoinedRowsAsWritten(blocks).Ok?
    ensures |JoinedRowsAsWritten(blocks).value| == |blocks|
    ensures forall bi :: 0 <= bi < |blocks| ==> |blocks[bi]| == 2
  {
    if |blocks| > 0 {
      AsWrittenRowsArity(blocks[1..]);
      forall bi | 0 < bi < |blocks| ensures |blocks[bi]| == 2 {
        assert blocks[1..][bi - 1] == blocks[bi];
      }
    }
  }

  /**
   * The input that shows it: one grid row of three 1 x 1 blocks. The source
   * raises TypeError; the intended composition is the 1 x 3 matrix.
   */
  lemma OneByThreeCounterexample(a: Expr, b: Expr, c: Expr)
    ensures BlockMatrixAsWritten([[[[a]], [[b]], [[c]]]]) == Err(WrongArity)
    ensures BlockMatrix([[[[a]], [[b]], [[c]]]]) == Ok([[a, b, c]])
  {
    var row := [[[a]], [[b]], [[c]]];
    HStackPair(row[..2]);
    RowJoinOneRow([a], [b]);
    assert row[..2] == [[[a]], [[b]]];
    assert [a] + [b] == [a, b];
    assert HStack(row[..2]) == Ok([[a, b]]);
    RowJoinOneRow([a, b], [c]);
    assert [a, b] + [c] == [a, b, c];
    assert row[..|row| - 1] == row[..2];
    assert HStack(row) == Ok([[a, b, c]]);
    var blocks := [row];
    assert blocks[0] == row && blocks[1..] == [];
    assert JoinedRows(blocks[1..]) == Ok([]);
    assert JoinedRows(blocks) == Ok([[[a, b, c]]] + []);
  }

  /** Four 1 x 1 blocks in a 2 x 2 grid give the 2 x 2 matrix of their entries. */
  lemma TwoByTwoExample(a: Expr, b: Expr, c: Expr, d: Expr)
    ensures BlockMatrixAsWritten([[[[a]], [[b]]], [[[c]], [[d]]]]) == Ok([[a, b], [c, d]])
  {
    var blocks := [[[[a]], [[b]]], [[[c]], [[d]]]];
    RowJoinOneRow([a], [b]);
    RowJoinOneRow([c], [d]);
    assert [a] + [b] == [a, b] && [c] + [d] == [c, d];
    var tail := blocks[1..];
    assert tail == [[[[c]], [[d]]]];
    assert tail[0] == [[[c]], [[d]]] && tail[1..] == [];
    assert RowJoinCall(tail[0]) == Ok([[c, d]]);
    assert JoinedRowsAsWritten(tail[1..]) == Ok([]);
    assert [[[c, d]]] + [] == [[[c, d]]];
    assert JoinedRowsAsWritten(tail) == Ok([[[c, d]]]);
    assert RowJoinCall(blocks[0]) == Ok([[a, b]]);
    assert [[[a, b]]] + [[[c, d]]] == [[[a, b]], [[c, d]]];
    assert JoinedRowsAsWritten(blocks) == Ok([[[a, b]], [[c, d]]]);
    assert [[a, b]] + [[c, d]] == [[a, b], [c, d]];
  }
}

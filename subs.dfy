/**
 * matrix_subs: the flat (from, to) correspondence that a symbolic
 * substitution pass takes, built from matrix pairs position by position,
 * skipping the cells where the `from` matrix holds the zero expression.
 */
module Subs {
  import opened Exprs
  import Construct

  /** One (from_matrix, to_matrix) pair. */
  datatype SubPair = SubPair(from: Matrix<Expr>, to: Matrix<Expr>)

  /**
   * The two call shapes the code accepts: `matrix_subs(A, B)`, a bare pair
   * wrapped into a one-element sequence, and `matrix_subs((A, B), (C, D), ...)`,
   * any number of pairs.
   */
  datatype SubsCall =
    | BarePair(a: Matrix<Expr>, b: Matrix<Expr>)
    | PairSequence(pairs: seq<SubPair>)

  /** The nonzero cells of row i, from column j on, left to right. */
  function RowNonzero(row: seq<Expr>, i: nat, j: nat): (r: seq<Pos>)
    ensures forall k :: 0 <= k < |r| ==> r[k].row == i && j <= r[k].col < |row| && row[r[k].col] != Zero
    decreases |row| - j
  {
    if j >= |row| then []
    else (if row[j] != Zero then [Pos(i, j)] else []) + RowNonzero(row, i, j + 1)
  }

  /** The nonzero cells of rows i and below, in row-major order. */
  function NonzeroFrom(a: Matrix<Expr>, i: nat): (r: seq<Pos>)
    ensures forall k :: 0 <= k < |r| ==>
      i <= r[k].row && InBounds(a, r[k]) && a[r[k].row][r[k].col] != Zero
    decreases |a| - i
  {
    if i >= |a| then [] else RowNonzero(a[i], i, 0) + NonzeroFrom(a, i + 1)
  }

  /** The cells the comprehension keeps: `if sub[0][i, j] != 0`, rows then columns. */
  function NonzeroPositions(a: Matrix<Expr>): seq<Pos>
  {
    NonzeroFrom(a, 0)
  }

  /** Every kept cell of `from` exists in `to`: otherwise `sub[1][i, j]` raises IndexError. */
  predicate Fits(p: SubPair)
  {
    var cells := NonzeroPositions(p.from);
    forall k :: 0 <= k < |cells| ==> InBounds(p.to, cells[k])
  }

  /** The correspondence of one pair, one (from, to) entry pair per kept cell. */
  function PairSubs(p: SubPair): seq<(Expr, Expr)>
    requires Fits(p)
  {
    var cells := NonzeroPositions(p.from);
    seq(|cells|, k requires 0 <= k < |cells| =>
      (p.from[cells[k].row][cells[k].col], p.to[cells[k].row][cells[k].col]))
  }

  /** The correspondences of all pairs, in argument order. */
  function SequenceSubs(ps: seq<SubPair>): seq<(Expr, Expr)>
    requires forall k :: 0 <= k < |ps| ==> Fits(ps[k])
  {
    if |ps| == 0 then [] else PairSubs(ps[0]) + SequenceSubs(ps[1..])
  }

  /** The pairs a call stands for, after the bare-pair wrapping. */
  function CallPairs(call: SubsCall): seq<SubPair>
  {
    match call
    case BarePair(a, b) => [SubPair(a, b)]
    case PairSequence(ps) => ps
  }

  /** matrix_subs over the call shapes the code accepts. */
  function MatrixSubs(call: SubsCall): Result<seq<(Expr, Expr)>>
  {
    var ps := CallPairs(call);
    if forall k :: 0 <= k < |ps| ==> Fits(ps[k]) then Ok(SequenceSubs(ps))
    else Err(IndexOutOfRange)
  }

  // The kept cells are exactly the nonzero ones, in row-major order.

  lemma {:induction false} RowNonzeroExact(row: seq<Expr>, i: nat, j: nat)
    ensures forall c :: j <= c < |row| && row[c] != Zero ==> Pos(i, c) in RowNonzero(row, i, j)
    ensures forall k1, k2 :: 0 <= k1 < k2 < |RowNonzero(row, i, j)| ==>
      RowNonzero(row, i, j)[k1].col < RowNonzero(row, i, j)[k2].col
    decreases |row| - j
  {
    if j < |row| {
      RowNonzeroExact(row, i, j + 1);
    }
  }

  lemma {:induction false} NonzeroFromExact(a: Matrix<Expr>, i: nat)
    ensures forall p: Pos :: i <= p.row && InBounds(a, p) && a[p.row][p.col] != Zero ==> p in NonzeroFrom(a, i)
    ensures forall k1, k2 :: 0 <= k1 < k2 < |NonzeroFrom(a, i)| ==>
      Before(NonzeroFrom(a, i)[k1], NonzeroFrom(a, i)[k2])
    decreases |a| - i
  {
    if i < |a| {
      NonzeroFromExact(a, i + 1);
      RowNonzeroExact(a[i], i, 0);
      var head, tail := RowNonzero(a[i], i, 0), NonzeroFrom(a, i + 1);
      assert NonzeroFrom(a, i) == head + tail;
      forall p: Pos | i <= p.row && InBounds(a, p) && a[p.row][p.col] != Zero
        ensures p in NonzeroFrom(a, i)
      {
        if p.row == i {
          assert p == Pos(i, p.col);
          assert p in head;
        } else {
          assert p in tail;
        }
      }
    }
  }

  /**
   * The comprehension keeps a cell exactly when it lies in the matrix and
   * holds a nonzero entry, and visits the kept cells in row-major order.
   */
  lemma NonzeroPositionsExact(a: Matrix<Expr>)
    ensures forall p: Pos :: p in NonzeroPositions(a) <==> InBounds(a, p) && a[p.row][p.col] != Zero
    ensures forall k1, k2 :: 0 <= k1 < k2 < |NonzeroPositions(a)| ==>
      Before(NonzeroPositions(a)[k1], NonzeroPositions(a)[k2])
  {
    NonzeroFromExact(a, 0);
  }

  /** The cells of `a` holding a nonzero entry. */
  ghost function NonzeroCells(a: Matrix<Expr>): set<Pos>
  {
    set i: nat, j: nat | i < |a| && j < |a[i]| && a[i][j] != Zero :: Pos(i, j)
  }

  lemma {:induction false} IncreasingCard(s: seq<Pos>)
    requires forall k1, k2 :: 0 <= k1 < k2 < |s| ==> Before(s[k1], s[k2])
    ensures |set p | p in s| == |s|
  {
    if |s| > 0 {
      var t := s[1..];
      IncreasingCard(t);
      assert (set p | p in s) == {s[0]} + (set p | p in t);
      assert s[0] !in t by {
        forall k | 0 <= k < |t| ensures t[k] != s[0] {
          assert Before(s[0], s[k + 1]);
        }
      }
    }
  }

  /** Fitting means: `to` has every cell where `from` is nonzero. */
  lemma FitsExact(p: SubPair)
    ensures Fits(p) <==>
      forall q :: InBounds(p.from, q) && p.from[q.row][q.col] != Zero ==> InBounds(p.to, q)
  {
    NonzeroPositionsExact(p.from);
    var cells := NonzeroPositions(p.from);
    if forall q :: InBounds(p.from, q) && p.from[q.row][q.col] != Zero ==> InBounds(p.to, q) {
      forall k | 0 <= k < |cells| ensures InBounds(p.to, cells[k]) {
        assert cells[k] in cells;
      }
    }
    if Fits(p) {
      forall q | InBounds(p.from, q) && p.from[q.row][q.col] != Zero ensures InBounds(p.to, q) {
        assert q in cells;
        var k :| 0 <= k < |cells| && cells[k] == q;
      }
    }
  }

  /** Cell q of the pair contributes the entry pair (x, y). */
  predicate CorrespondsAt(p: SubPair, q: Pos, x: Expr, y: Expr)
  {
    InBounds(p.from, q) && p.from[q.row][q.col] != Zero && InBounds(p.to, q) &&
    x == p.from[q.row][q.col] && y == p.to[q.row][q.col]
  }

  /**
   * One pair yields one (from, to) pair per nonzero cell of `from`: as many as
   * there are such cells, and exactly the entry pairs found there.
   */
  lemma PairSubsExact(p: SubPair)
    requires Fits(p)
    ensures |PairSubs(p)| == |NonzeroCells(p.from)|
    ensures forall x, y :: (x, y) in PairSubs(p) <==> exists q :: CorrespondsAt(p, q, x, y)
  {
    var cells := NonzeroPositions(p.from);
    NonzeroPositionsExact(p.from);
    IncreasingCard(cells);
    assert (set q | q in cells) == NonzeroCells(p.from) by {
      forall q | q in NonzeroCells(p.from) ensures q in cells {
        var i: nat, j: nat :| i < |p.from| && j < |p.from[i]| && p.from[i][j] != Zero && q == Pos(i, j);
      }
    }
    var r := PairSubs(p);
    forall x, y | (x, y) in r ensures exists q :: CorrespondsAt(p, q, x, y) {
      var k :| 0 <= k < |r| && r[k] == (x, y);
      assert CorrespondsAt(p, cells[k], x, y);
    }
    forall x, y | exists q :: CorrespondsAt(p, q, x, y) ensures (x, y) in r {
      var q :| CorrespondsAt(p, q, x, y);
      assert q in cells;
      var k :| 0 <= k < |cells| && cells[k] == q;
      assert r[k] == (x, y);
    }
  }

  /** Several pairs contribute their correspondences in argument order. */
  lemma {:induction false} SequenceSubsAppend(ps: seq<SubPair>, qs: seq<SubPair>)
    requires forall k :: 0 <= k < |ps| ==> Fits(ps[k])
    requires forall k :: 0 <= k < |qs| ==> Fits(qs[k])
    ensures SequenceSubs(ps + qs) == SequenceSubs(ps) + SequenceSubs(qs)
  {
    if |ps| == 0 {
      assert ps + qs == qs;
    } else {
      assert (ps + qs)[1..] == ps[1..] + qs;
      SequenceSubsAppend(ps[1..], qs);
    }
  }

  /** `matrix_subs(A, B)` gives what `matrix_subs((A, B))` gives. */
  lemma BarePairAsSequence(a: Matrix<Expr>, b: Matrix<Expr>)
    ensures MatrixSubs(BarePair(a, b)) == MatrixSubs(PairSequence([SubPair(a, b)]))
    ensures MatrixSubs(BarePair(a, b)).Ok? ==>
      MatrixSubs(BarePair(a, b)).value == PairSubs(SubPair(a, b))
  {
    var ps := [SubPair(a, b)];
    if Fits(SubPair(a, b)) {
      assert ps[1..] == [];
      assert SequenceSubs(ps) == PairSubs(ps[0]) + SequenceSubs([]);
      assert PairSubs(ps[0]) + [] == PairSubs(ps[0]);
    }
  }

  /**
   * The call fails with IndexError exactly when some pair's `to` matrix lacks
   * a cell where its `from` matrix is nonzero; in particular never when the
   * two matrices of every pair have the same shape.
   */
  lemma MatrixSubsFails(call: SubsCall)
    ensures MatrixSubs(call).Err? <==>
      exists k, q :: 0 <= k < |CallPairs(call)| && InBounds(CallPairs(call)[k].from, q) &&
        CallPairs(call)[k].from[q.row][q.col] != Zero && !InBounds(CallPairs(call)[k].to, q)
    ensures MatrixSubs(call).Err? ==> MatrixSubs(call).error == IndexOutOfRange
  {
    var ps := CallPairs(call);
    forall k | 0 <= k < |ps| ensures Fits(ps[k]) <==>
      forall q :: InBounds(ps[k].from, q) && ps[k].from[q.row][q.col] != Zero ==> InBounds(ps[k].to, q)
    {
      FitsExact(ps[k]);
    }
  }

  /** Two matrices of one shape always fit. */
  lemma SameShapeFits(p: SubPair, n: nat, m: nat)
    requires IsShape(p.from, n, m) && IsShape(p.to, n, m)
    ensures Fits(p)
  {
    FitsExact(p);
  }

  // The counts for a diagonal `from` and for a `from` without zero entries.

  ghost function DiagonalCells(k: nat): set<Pos>
  {
    set r: nat | r < k :: Pos(r, r)
  }

  lemma {:induction false} DiagonalCellsSize(k: nat)
    ensures |DiagonalCells(k)| == k
  {
    if k == 0 {
      assert DiagonalCells(k) == {};
    } else {
      DiagonalCellsSize(k - 1);
      assert DiagonalCells(k) == DiagonalCells(k - 1) + {Pos(k - 1, k - 1)};
    }
  }

  /** A diagonal `from` matrix yields one pair per diagonal cell, whatever `to` holds. */
  lemma DiagonalSubsCount(name: string, m: nat, b: Matrix<Expr>)
    requires IsShape(b, m, m)
    ensures Fits(SubPair(Construct.DiagonalMatrix(name, m), b))
    ensures |PairSubs(SubPair(Construct.DiagonalMatrix(name, m), b))| == m
  {
    var a := Construct.DiagonalMatrix(name, m);
    SameShapeFits(SubPair(a, b), m, m);
    PairSubsExact(SubPair(a, b));
    assert NonzeroCells(a) == DiagonalCells(m) by {
      forall q | q in NonzeroCells(a) ensures q in DiagonalCells(m) {
        assert q.row == q.col;
      }
      forall q | q in DiagonalCells(m) ensures q in NonzeroCells(a) {
        assert a[q.row][q.col] != Zero;
      }
    }
    DiagonalCellsSize(m);
  }

  lemma {:induction false} FullRow(row: seq<Expr>, i: nat, j: nat)
    requires j <= |row|
    requires forall c :: 0 <= c < |row| ==> row[c] != Zero
    ensures |RowNonzero(row, i, j)| == |row| - j
    ensures forall k :: 0 <= k < |row| - j ==> RowNonzero(row, i, j)[k] == Pos(i, j + k)
    decreases |row| - j
  {
    if j < |row| {
      FullRow(row, i, j + 1);
    }
  }

  lemma {:induction false} FullRowsLength(a: Matrix<Expr>, n: nat, m: nat, i: nat)
    requires IsShape(a, n, m) && i <= n
    requires forall r, c :: 0 <= r < n && 0 <= c < m ==> a[r][c] != Zero
    ensures |NonzeroFrom(a, i)| == (n - i) * m
    decreases n - i
  {
    if i < n {
      FullRowsLength(a, n, m, i + 1);
      FullRow(a[i], i, 0);
      ShiftRow(n - i, m);
    }
  }

  /** The offset of row r's first cell when counting from row i, m cells per row. */
  function RowOffset(i: nat, r: nat, m: nat): nat
    requires i <= r
    decreases r - i
  {
    if r == i then 0 else m + RowOffset(i + 1, r, m)
  }

  lemma {:induction false} RowOffsetIsProduct(i: nat, r: nat, m: nat)
    requires i <= r
    ensures RowOffset(i, r, m) == (r - i) * m
    decreases r - i
  {
    if r > i {
      RowOffsetIsProduct(i + 1, r, m);
      ShiftRow(r - i, m);
    }
  }

  lemma {:induction false} FullRowsAt(a: Matrix<Expr>, n: nat, m: nat, i: nat, r: nat, c: nat)
    requires IsShape(a, n, m) && i <= r < n && c < m
    requires forall r, c :: 0 <= r < n && 0 <= c < m ==> a[r][c] != Zero
    ensures RowOffset(i, r, m) + c < |NonzeroFrom(a, i)|
    ensures NonzeroFrom(a, i)[RowOffset(i, r, m) + c] == Pos(r, c)
    decreases n - i
  {
    if r == i {
      FullRowHead(a, n, m, i, c);
    } else {
      FullRowsAt(a, n, m, i + 1, r, c);
      FullRowTail(a, n, m, i, RowOffset(i + 1, r, m) + c);
    }
  }

  lemma FullRowHead(a: Matrix<Expr>, n: nat, m: nat, i: nat, c: nat)
    requires IsShape(a, n, m) && i < n && c < m
    requires forall r, c :: 0 <= r < n && 0 <= c < m ==> a[r][c] != Zero
    ensures c < |NonzeroFrom(a, i)| && NonzeroFrom(a, i)[c] == Pos(i, c)
  {
    FullRow(a[i], i, 0);
    var head, tail := RowNonzero(a[i], i, 0), NonzeroFrom(a, i + 1);
    assert NonzeroFrom(a, i) == head + tail;
    assert head[c] == Pos(i, 0 + c);
  }

  lemma FullRowTail(a: Matrix<Expr>, n: nat, m: nat, i: nat, k: nat)
    requires IsShape(a, n, m) && i < n
    requires forall r, c :: 0 <= r < n && 0 <= c < m ==> a[r][c] != Zero
    requires k < |NonzeroFrom(a, i + 1)|
    ensures m + k < |NonzeroFrom(a, i)| && NonzeroFrom(a, i)[m + k] == NonzeroFrom(a, i + 1)[k]
  {
    FullRow(a[i], i, 0);
    var head, tail := RowNonzero(a[i], i, 0), NonzeroFrom(a, i + 1);
    assert NonzeroFrom(a, i) == head + tail;
    AppendAt(head, tail, k);
  }

  lemma AppendAt(head: seq<Pos>, tail: seq<Pos>, k: nat)
    requires k < |tail|
    ensures (head + tail)[|head| + k] == tail[k]
  {
  }

  /**
   * A `from` matrix without zero entries yields all n * m pairs, the pair of
   * cell (i, j) at row-major offset i * m + j.
   */
  lemma FullSubs(a: Matrix<Expr>, b: Matrix<Expr>, n: nat, m: nat, i: nat, j: nat)
    requires IsShape(a, n, m) && IsShape(b, n, m) && i < n && j < m
    requires forall i, j :: 0 <= i < n && 0 <= j < m ==> a[i][j] != Zero
    ensures Fits(SubPair(a, b))
    ensures |PairSubs(SubPair(a, b))| == n * m
    ensures i * m + j < n * m && PairSubs(SubPair(a, b))[i * m + j] == (a[i][j], b[i][j])
  {
    SameShapeFits(SubPair(a, b), n, m);
    FullRowsLength(a, n, m, 0);
    FullRowsAt(a, n, m, 0, i, j);
    RowOffsetIsProduct(0, i, m);
    RowMajorBound(i, n, m, j);
  }
}

/**
 * construct_explicit_matrix: an n x m grid of fresh unknowns, optionally
 * diagonal (zeros off the diagonal) or symmetric (each below-diagonal cell
 * aliases the unknown mirrored above the diagonal).
 */
module Construct {
  import opened Exprs

  /** The unknown created for row r, column c (0-based): named with 1-based indices. */
  function Unknown(name: string, r: nat, c: nat): Expr
  {
    Sym(name, r + 1, c + 1)
  }

  /** The plain grid: a distinct unknown in every cell. */
  function PlainMatrix(name: string, n: nat, m: nat): (M: Matrix<Expr>)
    ensures IsShape(M, n, m)
    ensures forall r1, c1, r2, c2 ::
      (0 <= r1 < n && 0 <= c1 < m && 0 <= r2 < n && 0 <= c2 < m && M[r1][c1] == M[r2][c2]) ==>
      r1 == r2 && c1 == c2
  {
    seq(n, r requires 0 <= r => seq(m, c requires 0 <= c => Unknown(name, r, c)))
  }

  /** The m x m diagonal grid `sp.diag` builds from m diagonal unknowns. */
  function DiagonalMatrix(name: string, m: nat): (M: Matrix<Expr>)
    ensures IsShape(M, m, m)
    ensures forall r, c :: 0 <= r < m && 0 <= c < m && r != c ==> M[r][c] == Zero
    ensures forall k :: 0 <= k < m ==> M[k][k] == PlainMatrix(name, m, m)[k][k]
  {
    seq(m, r requires 0 <= r => seq(m, c => if r == c then Unknown(name, r, r) else Zero))
  }

  /**
   * The closed form of the symmetric grid: the cell on or above the diagonal
   * nearest to (r, c) in the mirror decides its unknown.
   */
  function SymmetricMatrix(name: string, n: nat): (M: Matrix<Expr>)
    ensures IsShape(M, n, n)
    ensures forall r, c :: 0 <= r < n && 0 <= c < n ==> M[r][c] == M[c][r]
    ensures forall r, c :: 0 <= r <= c < n ==> M[r][c] == PlainMatrix(name, n, n)[r][c]
  {
    seq(n, r requires 0 <= r => seq(n, c requires 0 <= c => if r <= c then Unknown(name, r, c) else Unknown(name, c, r)))
  }

  /**
   * construct_explicit_matrix. Fails exactly when a square structure is asked
   * of a non-square shape; otherwise diagonal wins over symmetric, and the
   * symmetric grid is made from the plain one by overwriting, in place, every
   * cell below the diagonal with the unknown mirrored above it.
   */
  method ConstructExplicitMatrix(name: string, n: nat, m: nat, symmetric: bool, diagonal: bool)
    returns (r: Result<Matrix<Expr>>)
    ensures r.Err? <==> n != m && (diagonal || symmetric)
    ensures r.Err? ==> r.error == NotSquare
    ensures r.Ok? && diagonal ==> r.value == DiagonalMatrix(name, m)
    ensures r.Ok? && !diagonal && symmetric ==> r.value == SymmetricMatrix(name, n)
    ensures r.Ok? && !diagonal && !symmetric ==> r.value == PlainMatrix(name, n, m)
  {
    if n != m && (diagonal || symmetric) {
      return Err(NotSquare);
    }
    if diagonal {
      return Ok(DiagonalMatrix(name, m));
    }
    var matrix := new Expr[n, m]((j, i) requires 0 <= j && 0 <= i => Unknown(name, j, i));
    if symmetric {
      var i := 1;
      while i < m
        invariant 1 <= i && (i <= m || m == 0)
        invariant forall p, q :: 0 <= p < n && 0 <= q < m ==>
          matrix[p, q] == if q < p < i then Unknown(name, q, p) else Unknown(name, p, q)
      {
        var j := 0;
        while j < i
          invariant 0 <= j <= i
          invariant forall p, q :: 0 <= p < n && 0 <= q < m ==>
            matrix[p, q] == if q < p < i || (p == i && q < j) then Unknown(name, q, p) else Unknown(name, p, q)
        {
          matrix[i, j] := matrix[j, i];
          j := j + 1;
        }
        i := i + 1;
      }
      assert Rows(matrix) == SymmetricMatrix(name, n) by {
        var M, S := Rows(matrix), SymmetricMatrix(name, n);
        forall p | 0 <= p < n ensures M[p] == S[p] { }
      }
    } else {
      assert Rows(matrix) == PlainMatrix(name, n, m) by {
        var M, P := Rows(matrix), PlainMatrix(name, n, m);
        forall p | 0 <= p < n ensures M[p] == P[p] { }
      }
    }
    return Ok(Rows(matrix));
  }

  // Counting the distinct unknowns of each form.

  /** The unknowns of row r in columns lo .. hi - 1. */
  ghost function RowBand(name: string, r: nat, lo: nat, hi: nat): set<Expr>
  {
    set c: nat | lo <= c < hi :: Unknown(name, r, c)
  }

  lemma {:induction false} RowBandSize(name: string, r: nat, lo: nat, hi: nat)
    requires lo <= hi
    ensures |RowBand(name, r, lo, hi)| == hi - lo
    decreases hi - lo
  {
    if lo < hi {
      RowBandSize(name, r, lo + 1, hi);
      assert RowBand(name, r, lo, hi) == {Unknown(name, r, lo)} + RowBand(name, r, lo + 1, hi);
    } else {
      assert RowBand(name, r, lo, hi) == {};
    }
  }

  /** The unknowns of the first k rows of the plain grid with m columns. */
  ghost function PlainRows(name: string, k: nat, m: nat): set<Expr>
  {
    set r: nat, c: nat | r < k && c < m :: Unknown(name, r, c)
  }

  lemma {:induction false} PlainRowsSize(name: string, k: nat, m: nat)
    ensures |PlainRows(name, k, m)| == k * m
  {
    if k == 0 {
      assert PlainRows(name, k, m) == {};
    } else {
      PlainRowsSize(name, k - 1, m);
      RowBandSize(name, k - 1, 0, m);
      assert PlainRows(name, k, m) == PlainRows(name, k - 1, m) + RowBand(name, k - 1, 0, m);
      assert PlainRows(name, k - 1, m) !! RowBand(name, k - 1, 0, m);
      ShiftRow(k, m);
    }
  }

  /** The plain n x m grid holds n * m distinct unknowns. */
  lemma PlainSymbolCount(name: string, n: nat, m: nat)
    ensures |Entries(PlainMatrix(name, n, m))| == n * m
  {
    var M := PlainMatrix(name, n, m);
    assert Entries(M) == PlainRows(name, n, m) by {
      forall x | x in PlainRows(name, n, m) ensures x in Entries(M) {
        var r: nat, c: nat :| r < n && c < m && x == Unknown(name, r, c);
        assert M[r][c] == x;
      }
    }
    PlainRowsSize(name, n, m);
  }

  /** The unknowns on or above the diagonal in the first k rows of an n x n grid. */
  ghost function UpperRows(name: string, k: nat, n: nat): set<Expr>
  {
    set r: nat, c: nat | r < k && r <= c < n :: Unknown(name, r, c)
  }

  lemma {:induction false} UpperRowsSize(name: string, k: nat, n: nat)
    requires k <= n
    ensures 2 * |UpperRows(name, k, n)| == k * (2 * n - k + 1)
  {
    if k == 0 {
      assert UpperRows(name, k, n) == {};
    } else {
      UpperRowsSize(name, k - 1, n);
      RowBandSize(name, k - 1, k - 1, n);
      assert UpperRows(name, k, n) == UpperRows(name, k - 1, n) + RowBand(name, k - 1, k - 1, n);
      assert UpperRows(name, k - 1, n) !! RowBand(name, k - 1, k - 1, n);
      assert k * (2 * n - k + 1) == (k - 1) * (2 * n - (k - 1) + 1) + 2 * (n - (k - 1));
    }
  }

  /** The symmetric n x n grid holds n(n+1)/2 distinct unknowns. */
  lemma SymmetricSymbolCount(name: string, n: nat)
    ensures |Entries(SymmetricMatrix(name, n))| == n * (n + 1) / 2
  {
    var M := SymmetricMatrix(name, n);
    assert Entries(M) == UpperRows(name, n, n) by {
      forall x | x in UpperRows(name, n, n) ensures x in Entries(M) {
        var r: nat, c: nat :| r < n && r <= c < n && x == Unknown(name, r, c);
        assert M[r][c] == x;
      }
    }
    UpperRowsSize(name, n, n);
  }

  /** The diagonal unknowns of the first k rows. */
  ghost function DiagonalSymbols(name: string, k: nat): set<Expr>
  {
    set r: nat | r < k :: Unknown(name, r, r)
  }

  lemma {:induction false} DiagonalSymbolsSize(name: string, k: nat)
    ensures |DiagonalSymbols(name, k)| == k
  {
    if k == 0 {
      assert DiagonalSymbols(name, k) == {};
    } else {
      DiagonalSymbolsSize(name, k - 1);
      assert DiagonalSymbols(name, k) == DiagonalSymbols(name, k - 1) + {Unknown(name, k - 1, k - 1)};
    }
  }

  /**
   * The diagonal m x m grid holds exactly m distinct unknowns; its only other
   * entry is zero, present as soon as there is an off-diagonal cell.
   */
  lemma DiagonalSymbolCount(name: string, m: nat)
    ensures |Entries(DiagonalMatrix(name, m)) - {Zero}| == m
    ensures Zero in Entries(DiagonalMatrix(name, m)) <==> m >= 2
  {
    var M := DiagonalMatrix(name, m);
    assert Entries(M) - {Zero} == DiagonalSymbols(name, m) by {
      forall x | x in DiagonalSymbols(name, m) ensures x in Entries(M) {
        var r: nat :| r < m && x == Unknown(name, r, r);
        assert M[r][r] == x;
      }
    }
    DiagonalSymbolsSize(name, m);
    if m >= 2 {
      assert M[0][1] == Zero;
    }
  }
}

/**
 * The symbolic vocabulary shared by every part of the model: expressions,
 * matrices of them, the errors the operations raise, and the two lookups
 * (`list.index` and row-major flattening) the source leans on.
 */
module Exprs {

  /** A symbolic expression, seen only as far as this core looks into one. */
  datatype Expr =
    | Zero                                  // the literal zero expression
    | Sym(base: string, row: nat, col: nat)  // the unknown <base>_<row><col>
    | Op(head: string, args: seq<Expr>)      // any other expression, opaque here

  /** The exceptions the operations of the core raise. */
  datatype Error =
    | NotSquare        // ValueError: symmetric or diagonal asked of an n x m grid, n != m
    | IndexOutOfRange  // IndexError: a matrix indexed outside its shape
    | KeyNotFound      // ValueError: `list.index` of a value the list does not hold
    | EmptyIteration   // ValueError: `np.nditer` over an array with no element
    | ShapeMismatch    // ShapeError: joining matrices whose heights or widths differ
    | WrongArity       // TypeError: a join called with other than one partner
    | NoIndexMethod    // AttributeError: a one-dimensional numpy array has no `index`

  datatype Result<T> = Ok(value: T) | Err(error: Error)

  datatype Option<T> = None | Some(value: T)

  /** A matrix as its rows, each row as its entries. */
  type Matrix<T> = seq<seq<T>>

  /** `m` has `rows` rows of `cols` entries each. */
  predicate IsShape<T>(m: Matrix<T>, rows: nat, cols: nat)
  {
    |m| == rows && forall i :: 0 <= i < rows ==> |m[i]| == cols
  }

  /** The number of columns; a matrix without rows has none. */
  function Width<T>(m: Matrix<T>): nat
  {
    if |m| == 0 then 0 else |m[0]|
  }

  /** Every row has the same length, as every sympy or numpy matrix does. */
  predicate Rectangular<T>(m: Matrix<T>)
  {
    IsShape(m, |m|, Width(m))
  }

  /** The matrix has no cell, so `np.nditer` refuses to iterate over it. */
  predicate NoCells<T>(m: Matrix<T>)
  {
    |m| == 0 || Width(m) == 0
  }

  /** No element occurs twice. */
  predicate Distinct<T(==)>(s: seq<T>)
  {
    forall a, b :: 0 <= a < b < |s| ==> s[a] != s[b]
  }

  /** The contents of a two-dimensional array, row by row. */
  function Rows<T>(a: array2<T>): (M: Matrix<T>)
    reads a
    ensures IsShape(M, a.Length0, a.Length1)
    ensures forall i, j :: 0 <= i < a.Length0 && 0 <= j < a.Length1 ==> M[i][j] == a[i, j]
  {
    seq(a.Length0, i requires 0 <= i < a.Length0 reads a =>
      seq(a.Length1, j requires 0 <= j < a.Length1 reads a => a[i, j]))
  }


  /** A cell of a matrix. */
  datatype Pos = Pos(row: nat, col: nat)

  /** Row-major order on cells: `p` is visited before `q`. */
  predicate Before(p: Pos, q: Pos)
  {
    p.row < q.row || (p.row == q.row && p.col < q.col)
  }

  /** `p` is a cell of `m`. */
  predicate InBounds<T>(m: Matrix<T>, p: Pos)
  {
    p.row < |m| && p.col < |m[p.row]|
  }

  /** The set of entries of a matrix. */
  function Entries<T>(m: Matrix<T>): set<T>
  {
    set i, j | 0 <= i < |m| && 0 <= j < |m[i]| :: m[i][j]
  }

  /** The index `list.index` returns: the first position holding `x`, or none. */
  function IndexOf<T(==)>(s: seq<T>, x: T): (r: Option<nat>)
    ensures r.Some? <==> x in s
    ensures r.Some? ==> r.value < |s| && s[r.value] == x && x !in s[..r.value]
  {
    if |s| == 0 then None
    else if s[0] == x then Some(0)
    else match IndexOf(s[1..], x)
      case None => None
      case Some(k) =>
        assert s[..k + 1] == [s[0]] + s[1..][..k];
        Some(k + 1)
  }

  /** The entries of a matrix in row-major order (`sp.flatten` of its rows). */
  function Flatten<T>(m: Matrix<T>): seq<T>
  {
    if |m| == 0 then [] else m[0] + Flatten(m[1..])
  }

  /** Flattening a matrix of `w` columns yields `w` entries per row. */
  lemma {:induction false} FlattenLength(m: Matrix<Expr>, w: nat)
    requires IsShape(m, |m|, w)
    ensures |Flatten(m)| == |m| * w
  {
    if |m| > 0 {
      FlattenLength(m[1..], w);
      ShiftRow(|m|, w);
    }
  }

  /** Entry (i, j) lands at the row-major offset i * w + j. */
  lemma {:induction false} FlattenAt(m: Matrix<Expr>, w: nat, i: nat, j: nat)
    requires IsShape(m, |m|, w) && i < |m| && j < w
    ensures |Flatten(m)| == |m| * w && i * w + j < |m| * w
    ensures Flatten(m)[i * w + j] == m[i][j]
  {
    FlattenLength(m, w);
    RowMajorBound(i, |m|, w, j);
    var tail := m[1..];
    assert Flatten(m) == m[0] + Flatten(tail);
    if i > 0 {
      assert IsShape(tail, |tail|, w);
      FlattenAt(tail, w, i - 1, j);
      var k := (i - 1) * w + j;
      ShiftRow(i, w);
      assert i * w + j == |m[0]| + k;
      assert tail[i - 1] == m[i];
    } else {
      assert 0 * w + j == j;
    }
  }

  lemma RowMajorBound(i: nat, n: nat, w: nat, j: nat)
    requires i < n && j < w
    ensures i * w + j < n * w
  {
    assert i * w <= (n - 1) * w;
    ShiftRow(n, w);
  }

  lemma ShiftRow(i: nat, w: nat)
    requires i > 0
    ensures i * w == w + (i - 1) * w
  {
  }

  /** Flattening keeps exactly the entries of the matrix. */
  lemma {:induction false} FlattenEntries(m: Matrix<Expr>)
    ensures forall x :: x in Flatten(m) <==> x in Entries(m)
  {
    if |m| > 0 {
      var tail := m[1..];
      FlattenEntries(tail);
      assert Flatten(m) == m[0] + Flatten(tail);
      forall x | x in Entries(m) ensures x in Flatten(m) {
        var i, j :| 0 <= i < |m| && 0 <= j < |m[i]| && m[i][j] == x;
        if i > 0 {
          assert m[1..][i - 1][j] == x;
        }
      }
      forall x | x in Flatten(m) ensures x in Entries(m) {
        if x in m[0] {
          var j :| 0 <= j < |m[0]| && m[0][j] == x;
        } else {
          assert x in Flatten(tail);
          assert x in Entries(tail);
          var i, j :| 0 <= i < |tail| && 0 <= j < |tail[i]| && tail[i][j] == x;
          assert m[i + 1][j] == x;
        }
      }
    }
  }
}

/**
 * matrix_callable_from_vector_trajectory: the closure that turns an
 * interpolated state vector back into a matrix laid out like `raveled`.
 * The interpolation itself happens outside this core; what the closure
 * receives from it at a call is an opaque input here.
 */
module Trajectory {
  import opened Exprs

  /** The `unraveled` argument as the caller may pass it. */
  datatype Keys =
    | KeyList(items: seq<Expr>)     // a list or tuple
    | KeyVector(items: seq<Expr>)   // a one-dimensional numpy array
    | KeyGrid(grid: Matrix<Expr>)   // a numpy array of two dimensions

  /**
   * The keys the closure searches, as the source leaves them: a matrix-shaped
   * array is flattened row by row, a list is kept, and a one-dimensional array
   * is kept too, although it has no `index` for the later lookup to call.
   */
  function UnravelAsWritten(keys: Keys): (r: Result<seq<Expr>>)
    ensures r.Err? <==> keys.KeyVector?
    ensures r.Err? ==> r.error == NoIndexMethod
    ensures keys.KeyList? ==> r == Ok(keys.items)
    ensures keys.KeyGrid? ==> r.Ok? && forall x :: x in r.value <==> x in Entries(keys.grid)
  {
    match keys
    case KeyList(items) => Ok(items)
    case KeyVector(_) => Err(NoIndexMethod)
    case KeyGrid(grid) => FlattenEntries(grid); Ok(Flatten(grid))
  }

  /** The keys as a searchable sequence, a one-dimensional array taken as the list of its items. */
  function Unravel(keys: Keys): (r: seq<Expr>)
    ensures !keys.KeyGrid? ==> r == keys.items
    ensures keys.KeyGrid? ==> forall x :: x in r <==> x in Entries(keys.grid)
  {
    match keys
    case KeyGrid(grid) => FlattenEntries(grid); Flatten(grid)
    case _ => keys.items
  }

  /** A matrix-shaped key array is searched in row-major order. */
  lemma UnravelGridAt(grid: Matrix<Expr>, i: nat, j: nat)
    requires Rectangular(grid) && i < |grid| && j < Width(grid)
    ensures |Unravel(KeyGrid(grid))| == |grid| * Width(grid)
    ensures i * Width(grid) + j < |grid| * Width(grid)
    ensures Unravel(KeyGrid(grid))[i * Width(grid) + j] == grid[i][j]
  {
    FlattenAt(grid, Width(grid), i, j);
  }

  /** Wherever the source can search its keys, it searches the same ones as the corrected model. */
  lemma UnravelAgrees(keys: Keys)
    requires !keys.KeyVector?
    ensures UnravelAsWritten(keys) == Ok(Unravel(keys))
  {
  }

  /** What the closure captures: the searchable keys and the layout of the result. */
  datatype MatrixTrajectory = MatrixTrajectory(unraveled: seq<Expr>, raveled: Matrix<Expr>)

  /**
   * The closure built by matrix_callable_from_vector_trajectory; the sample
   * times and values go to the interpolator, which is not part of this model.
   */
  function MatrixCallableFromVectorTrajectory(keys: Keys, raveled: Matrix<Expr>): (c: MatrixTrajectory)
    ensures c.raveled == raveled
    ensures forall x :: x in c.unraveled <==> x in Unravel(keys)
  {
    MatrixTrajectory(Unravel(keys), raveled)
  }

  /** A call argument: one time, or a list of times. */
  datatype TimeArg = Scalar(t: real) | Times(ts: seq<real>)

  /** Only a list of more than one time yields a stack of matrices. */
  predicate IsBatch(t: TimeArg)
  {
    t.Times? && |t.ts| > 1
  }

  /**
   * What the interpolator hands back for a call: one value per component, or,
   * for a batch, per component the values at each of the times.
   */
  datatype Interpolated = Point(x: seq<real>) | Track(xs: seq<seq<real>>)

  /** The value of a call: one matrix, or one matrix per time. */
  datatype CallValue = Frame(m: Matrix<real>) | Frames(ms: seq<Matrix<real>>)

  /** Every key of the layout occurs among the searchable keys. */
  predicate KeysPresent(keys: seq<Expr>, raveled: Matrix<Expr>)
  {
    forall i, j :: 0 <= i < |raveled| && 0 <= j < |raveled[i]| ==> raveled[i][j] in keys
  }

  /** The component a present key reads: the first index of the key (`list.index`). */
  function Slot(keys: seq<Expr>, k: Expr): (idx: nat)
    requires k in keys
    ensures idx < |keys| && keys[idx] == k
    ensures forall p :: 0 <= p < idx ==> keys[p] != k
  {
    var idx := IndexOf(keys, k).value;
    assert forall p :: 0 <= p < idx ==> keys[..idx][p] == keys[p];
    idx
  }

  /**
   * The matrix a single-time call fills: every cell holds the component of
   * the vector that its key selects.
   */
  function Gather<V>(keys: seq<Expr>, raveled: Matrix<Expr>, v: seq<V>): (m: Matrix<V>)
    requires Rectangular(raveled) && KeysPresent(keys, raveled) && |v| == |keys|
    ensures IsShape(m, |raveled|, Width(raveled))
  {
    seq(|raveled|, i requires 0 <= i < |raveled| =>
      seq(Width(raveled), j requires 0 <= j < Width(raveled) => v[Slot(keys, raveled[i][j])]))
  }

  /** Cell (i, j) holds the component at the first index of its key. */
  lemma GatherAt<V>(keys: seq<Expr>, raveled: Matrix<Expr>, v: seq<V>, i: nat, j: nat)
    requires Rectangular(raveled) && KeysPresent(keys, raveled) && |v| == |keys|
    requires i < |raveled| && j < Width(raveled)
    ensures IndexOf(keys, raveled[i][j]).Some?
    ensures Gather(keys, raveled, v)[i][j] == v[IndexOf(keys, raveled[i][j]).value]
  {
  }

  /** Cells that share a key receive the same value: aliasing is rebuilt. */
  lemma AliasedCellsAgree<V>(keys: seq<Expr>, raveled: Matrix<Expr>, v: seq<V>, i: nat, j: nat, p: nat, q: nat)
    requires Rectangular(raveled) && KeysPresent(keys, raveled) && |v| == |keys|
    requires i < |raveled| && j < Width(raveled) && p < |raveled| && q < Width(raveled)
    requires raveled[i][j] == raveled[p][q]
    ensures Gather(keys, raveled, v)[i][j] == Gather(keys, raveled, v)[p][q]
  {
  }

  /** With duplicate-free keys, a cell keyed by keys[k] reads exactly component k. */
  lemma GatherDistinct<V>(keys: seq<Expr>, raveled: Matrix<Expr>, v: seq<V>, i: nat, j: nat, k: nat)
    requires Rectangular(raveled) && KeysPresent(keys, raveled) && |v| == |keys|
    requires Distinct(keys)
    requires i < |raveled| && j < Width(raveled) && k < |keys| && raveled[i][j] == keys[k]
    ensures Gather(keys, raveled, v)[i][j] == v[k]
  {
  }

  /** The values of every component at the k-th requested time. */
  function TimeSlice(xs: seq<seq<real>>, count: nat, k: nat): (x: seq<real>)
    requires k < count && forall c :: 0 <= c < |xs| ==> |xs[c]| == count
    ensures |x| == |xs|
    ensures forall c :: 0 <= c < |xs| ==> x[c] == xs[c][k]
  {
    seq(|xs|, c requires 0 <= c < |xs| => xs[c][k])
  }

  /** The stack a batch call fills: time slice k is the single-time matrix at time k. */
  function GatherOver(keys: seq<Expr>, raveled: Matrix<Expr>, xs: seq<seq<real>>, count: nat): (ms: seq<Matrix<real>>)
    requires Rectangular(raveled) && KeysPresent(keys, raveled) && |xs| == |keys|
    requires forall c :: 0 <= c < |xs| ==> |xs[c]| == count
    ensures |ms| == count
    ensures forall k :: 0 <= k < count ==> IsShape(ms[k], |raveled|, Width(raveled))
  {
    seq(count, k requires 0 <= k < count => Gather(keys, raveled, TimeSlice(xs, count, k)))
  }

  /** In the stack, time leads: out[k][i][j] is component idx at time k. */
  lemma GatherOverAt(keys: seq<Expr>, raveled: Matrix<Expr>, xs: seq<seq<real>>, count: nat, k: nat, i: nat, j: nat)
    requires Rectangular(raveled) && KeysPresent(keys, raveled) && |xs| == |keys|
    requires forall c :: 0 <= c < |xs| ==> |xs[c]| == count
    requires k < count && i < |raveled| && j < Width(raveled)
    ensures GatherOver(keys, raveled, xs, count)[k][i][j] == xs[Slot(keys, raveled[i][j])][k]
  {
    var x := TimeSlice(xs, count, k);
    assert GatherOver(keys, raveled, xs, count)[k] == Gather(keys, raveled, x);
  }

  /** The contents of a three-dimensional array, slice by slice. */
  function Slices(a: array3<real>): (ms: seq<Matrix<real>>)
    reads a
    ensures |ms| == a.Length0
  {
    seq(a.Length0, k requires 0 <= k < a.Length0 reads a =>
      seq(a.Length1, i requires 0 <= i < a.Length1 reads a =>
        seq(a.Length2, j requires 0 <= j < a.Length2 reads a => a[k, i, j])))
  }

  /**
   * The fill loop of a single-time call: cell by cell in row-major order, the
   * key is looked up and the component it selects copied in; a key missing
   * from the searchable keys stops the call.
   */
  method FillMatrix(c: MatrixTrajectory, x: seq<real>) returns (r: Result<Matrix<real>>)
    requires Rectangular(c.raveled) && |x| == |c.unraveled|
    ensures r.Err? <==> !KeysPresent(c.unraveled, c.raveled)
    ensures r.Err? ==> r.error == KeyNotFound
    ensures r.Ok? ==> KeysPresent(c.unraveled, c.raveled) && r.value == Gather(c.unraveled, c.raveled, x)
  {
    var rows, cols := |c.raveled|, Width(c.raveled);
    var out := new real[rows, cols];
    var i := 0;
    while i < rows
      invariant 0 <= i <= rows
      invariant forall p, q :: 0 <= p < i && 0 <= q < cols ==>
        c.raveled[p][q] in c.unraveled && out[p, q] == x[Slot(c.unraveled, c.raveled[p][q])]
    {
      var j := 0;
      while j < cols
        invariant 0 <= j <= cols
        invariant forall p, q :: (0 <= p < i || p == i) && 0 <= q < cols && (p < i || q < j) ==>
          c.raveled[p][q] in c.unraveled && out[p, q] == x[Slot(c.unraveled, c.raveled[p][q])]
      {
        var key := c.raveled[i][j];
        match IndexOf(c.unraveled, key)
        case None =>
          return Err(KeyNotFound);
        case Some(idx) =>
          out[i, j] := x[idx];
        j := j + 1;
      }
      i := i + 1;
    }
    assert Rows(out) == Gather(c.unraveled, c.raveled, x) by {
      var M, G := Rows(out), Gather(c.unraveled, c.raveled, x);
      forall p | 0 <= p < rows ensures M[p] == G[p] { }
    }
    return Ok(Rows(out));
  }

  /**
   * The fill loop of a batch call: the same walk over the cells, writing for
   * each cell the whole run of the selected component along the time axis.
   */
  method FillStack(c: MatrixTrajectory, count: nat, xs: seq<seq<real>>) returns (r: Result<seq<Matrix<real>>>)
    requires Rectangular(c.raveled) && |xs| == |c.unraveled|
    requires forall k :: 0 <= k < |xs| ==> |xs[k]| == count
    ensures r.Err? <==> !KeysPresent(c.unraveled, c.raveled)
    ensures r.Err? ==> r.error == KeyNotFound
    ensures r.Ok? ==> KeysPresent(c.unraveled, c.raveled) && r.value == GatherOver(c.unraveled, c.raveled, xs, count)
  {
    var rows, cols := |c.raveled|, Width(c.raveled);
    var out := new real[count, rows, cols];
    var i := 0;
    while i < rows
      invariant 0 <= i <= rows
      invariant forall p, q :: 0 <= p < i && 0 <= q < cols ==> c.raveled[p][q] in c.unraveled
      invariant forall k, p, q :: 0 <= k < count && 0 <= p < i && 0 <= q < cols ==>
        out[k, p, q] == xs[Slot(c.unraveled, c.raveled[p][q])][k]
    {
      var j := 0;
      while j < cols
        invariant 0 <= j <= cols
        invariant forall p, q :: (0 <= p < i || p == i) && 0 <= q < cols && (p < i || q < j) ==>
          c.raveled[p][q] in c.unraveled
        invariant forall k, p, q :: 0 <= k < count && (0 <= p < i || p == i) && 0 <= q < cols && (p < i || q < j) ==>
          out[k, p, q] == xs[Slot(c.unraveled, c.raveled[p][q])][k]
      {
        var key := c.raveled[i][j];
        match IndexOf(c.unraveled, key)
        case None =>
          return Err(KeyNotFound);
        case Some(idx) =>
          FillRun(out, i, j, xs[idx]);
        j := j + 1;
      }
      i := i + 1;
    }
    var keys := c.unraveled;
    assert Slices(out) == GatherOver(keys, c.raveled, xs, count) by {
      var S, G := Slices(out), GatherOver(keys, c.raveled, xs, count);
      forall k | 0 <= k < count ensures S[k] == G[k] {
        forall p | 0 <= p < rows ensures S[k][p] == G[k][p] {
          forall q | 0 <= q < cols ensures S[k][p][q] == G[k][p][q] {
            GatherOverAt(keys, c.raveled, xs, count, k, p, q);
          }
        }
      }
    }
    return Ok(Slices(out));
  }

  /** `matrix_result[..., i, j] = run`: one cell, at every time. */
  method FillRun(out: array3<real>, i: nat, j: nat, run: seq<real>)
    requires i < out.Length1 && j < out.Length2 && |run| == out.Length0
    modifies out
    ensures forall k, p, q :: 0 <= k < out.Length0 && 0 <= p < out.Length1 && 0 <= q < out.Length2 ==>
      out[k, p, q] == if p == i && q == j then run[k] else old(out[k, p, q])
  {
    var k := 0;
    while k < out.Length0
      invariant 0 <= k <= out.Length0
      invariant forall t, p, q :: 0 <= t < out.Length0 && 0 <= p < out.Length1 && 0 <= q < out.Length2 ==>
        out[t, p, q] == if p == i && q == j && t < k then run[t] else old(out[t, p, q])
    {
      out[k, i, j] := run[k];
      k := k + 1;
    }
  }

  /**
   * The interpolator's output fits a call over n keys: one value per key, and
   * in a batch, per key one value for each requested time.
   */
  predicate ShapedFor(n: nat, t: TimeArg, v: Interpolated)
  {
    if IsBatch(t) then v.Track? && |v.xs| == n && forall k :: 0 <= k < |v.xs| ==> |v.xs[k]| == |t.ts|
    else v.Point? && |v.x| == n
  }

  /** What one call of the closure returns, as a value. */
  function Outcome(c: MatrixTrajectory, t: TimeArg, v: Interpolated): Result<CallValue>
    requires Rectangular(c.raveled) && ShapedFor(|c.unraveled|, t, v)
  {
    if NoCells(c.raveled) then Err(EmptyIteration)
    else if !KeysPresent(c.unraveled, c.raveled) then Err(KeyNotFound)
    else if IsBatch(t) then Ok(Frames(GatherOver(c.unraveled, c.raveled, v.xs, |t.ts|)))
    else Ok(Frame(Gather(c.unraveled, c.raveled, v.x)))
  }

  /**
   * One call of `matrix_callable`. A layout without cells is refused by the
   * iterator before anything is looked up; otherwise a list of more than one
   * time fills a stack with time as the leading axis, and any other argument
   * fills a single matrix. The interpolator's output is taken as given, one
   * entry per searchable key, and the closure changes nothing, so equal
   * arguments give equal values.
   */
  method Call(c: MatrixTrajectory, t: TimeArg, v: Interpolated) returns (r: Result<CallValue>)
    requires Rectangular(c.raveled) && ShapedFor(|c.unraveled|, t, v)
    ensures r.Err? <==> NoCells(c.raveled) || !KeysPresent(c.unraveled, c.raveled)
    ensures r.Err? ==> r.error == if NoCells(c.raveled) then EmptyIteration else KeyNotFound
    ensures r.Ok? && IsBatch(t) ==> r.value == Frames(GatherOver(c.unraveled, c.raveled, v.xs, |t.ts|))
    ensures r.Ok? && !IsBatch(t) ==> r.value == Frame(Gather(c.unraveled, c.raveled, v.x))
    ensures r == Outcome(c, t, v)
  {
    if NoCells(c.raveled) {
      return Err(EmptyIteration);
    }
    if IsBatch(t) {
      var stack := FillStack(c, |t.ts|, v.xs);
      match stack
      case Err(e) => return Err(e);
      case Ok(ms) => return Ok(Frames(ms));
    } else {
      var matrix := FillMatrix(c, v.x);
      match matrix
      case Err(e) => return Err(e);
      case Ok(m) => return Ok(Frame(m));
    }
  }

  /**
   * Each time slice of a batch call is what a single-time call returns for
   * the values at that time.
   */
  lemma BatchSliceIsSingleCall(c: MatrixTrajectory, xs: seq<seq<real>>, count: nat, k: nat)
    requires Rectangular(c.raveled) && KeysPresent(c.unraveled, c.raveled) && |xs| == |c.unraveled|
    requires forall p :: 0 <= p < |xs| ==> |xs[p]| == count
    requires k < count
    ensures GatherOver(c.unraveled, c.raveled, xs, count)[k] == Gather(c.unraveled, c.raveled, TimeSlice(xs, count, k))
  {
  }
  /**
   * A call of the closure exactly as the source builds it. The iterator
   * refuses a layout without cells first; then the first lookup calls `index`
   * on the keys, which a one-dimensional array does not have. Any other keys
   * give what the closure built from them returns.
   */
  function CallAsWritten(keys: Keys, raveled: Matrix<Expr>, t: TimeArg, v: Interpolated): (r: Result<CallValue>)
    requires Rectangular(raveled) && ShapedFor(|Unravel(keys)|, t, v)
    ensures NoCells(raveled) ==> r == Err(EmptyIteration)
    ensures !NoCells(raveled) && keys.KeyVector? ==> r == Err(NoIndexMethod)
    ensures !keys.KeyVector? ==> r == Outcome(MatrixCallableFromVectorTrajectory(keys, raveled), t, v)
  {
    if NoCells(raveled) then Err(EmptyIteration)
    else match UnravelAsWritten(keys)
      case Err(e) => Err(e)
      case Ok(unraveled) => Outcome(MatrixTrajectory(unraveled, raveled), t, v)
  }

  /**
   * One key `a` in a one-dimensional array and the 1 x 1 layout [[a]]: the
   * call as written raises AttributeError, while the closure over the same
   * keys fills the layout with the interpolated value. With an empty layout
   * the iterator's ValueError comes first.
   */
  lemma VectorKeysCounterexample(a: Expr, t: real, x: real)
    ensures CallAsWritten(KeyVector([a]), [[a]], Scalar(t), Point([x])) == Err(NoIndexMethod)
    ensures Outcome(MatrixCallableFromVectorTrajectory(KeyVector([a]), [[a]]), Scalar(t), Point([x])) == Ok(Frame([[x]]))
    ensures CallAsWritten(KeyVector([a]), [], Scalar(t), Point([x])) == Err(EmptyIteration)
  {
    var c := MatrixCallableFromVectorTrajectory(KeyVector([a]), [[a]]);
    assert c.unraveled == [a];
    assert KeysPresent(c.unraveled, c.raveled);
    assert Slot([a], a) == 0;
    var g := Gather(c.unraveled, c.raveled, [x]);
    assert |g| == 1 && |g[0]| == 1 && g[0][0] == x;
    assert g[0] == [x];
    assert g == [[x]];
  }

  /** Row-major offset k of a matrix with w columns and n rows is a cell of it. */
  lemma RowMajorSplit(k: nat, w: nat, n: nat) returns (row: nat, col: nat)
    requires w > 0 && k < n * w
    ensures row < n && col < w && row * w + col == k
  {
    row, col := k / w, k % w;
    if row >= n {
      MulMonotone(n, row, w);
    }
  }

  /** Multiplying by a natural number keeps the order. */
  lemma {:induction false} MulMonotone(a: nat, b: nat, w: nat)
    requires a <= b
    ensures a * w <= b * w
    decreases b - a
  {
    if a < b {
      MulMonotone(a + 1, b, w);
    }
  }

  /** A smaller row-major offset is an earlier cell. */
  lemma RowMajorBefore(r1: nat, s1: nat, r2: nat, s2: nat, w: nat)
    requires s1 < w && s2 < w && r1 * w + s1 < r2 * w + s2
    ensures Before(Pos(r1, s1), Pos(r2, s2))
  {
    if r1 > r2 {
      MulMonotone(r2 + 1, r1, w);
    } else if r1 == r2 {
      assert s1 < s2;
    }
  }

  /**
   * Searching the row-major unravelling of a key array finds a key at the
   * offset of the first cell of the array that holds it.
   */
  lemma FirstGridSlot(g: Matrix<Expr>, r: nat, s: nat)
    requires Rectangular(g) && r < |g| && s < Width(g)
    requires forall p: Pos :: Before(p, Pos(r, s)) && InBounds(g, p) ==> g[p.row][p.col] != g[r][s]
    ensures r * Width(g) + s < |Unravel(KeyGrid(g))|
    ensures g[r][s] in Unravel(KeyGrid(g)) && Slot(Unravel(KeyGrid(g)), g[r][s]) == r * Width(g) + s
  {
    var w := Width(g);
    var flat := Unravel(KeyGrid(g));
    UnravelGridAt(g, r, s);
    var idx := Slot(flat, g[r][s]);
    if idx < r * w + s {
      var r1, s1 := RowMajorSplit(idx, w, |g|);
      UnravelGridAt(g, r1, s1);
      RowMajorBefore(r1, s1, r, s, w);
      assert InBounds(g, Pos(r1, s1));
      assert false;
    }
  }

  /**
   * A single-time call on the closure built from a key array of two
   * dimensions fills cell (i, j) with the component at the row-major offset
   * of the first cell of the array that holds the cell's key.
   */
  lemma GridKeysSelectFirstCell(g: Matrix<Expr>, raveled: Matrix<Expr>, t: real, x: seq<real>,
                                i: nat, j: nat, r: nat, s: nat)
    requires Rectangular(g) && Rectangular(raveled)
    requires KeysPresent(Unravel(KeyGrid(g)), raveled) && |x| == |Unravel(KeyGrid(g))|
    requires i < |raveled| && j < Width(raveled)
    requires r < |g| && s < Width(g) && g[r][s] == raveled[i][j]
    requires forall p: Pos :: Before(p, Pos(r, s)) && InBounds(g, p) ==> g[p.row][p.col] != raveled[i][j]
    ensures r * Width(g) + s < |x|
    ensures var out := Outcome(MatrixCallableFromVectorTrajectory(KeyGrid(g), raveled), Scalar(t), Point(x));
      out.Ok? && out.value.Frame? && out.value.m[i][j] == x[r * Width(g) + s]
  {
    FirstGridSlot(g, r, s);
  }
}

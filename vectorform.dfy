/**
 * system_from_matrix_DE: a matrix differential equation dX/dt = F over a
 * matrix of unknowns X becomes a vector one, over the distinct unknowns of
 * X, ready to hand to the dynamical-system constructor.
 */
module VectorForm {
  import opened Exprs
  import Trajectory

  /** What is handed to DynamicalSystem: the vector right-hand side, the state, the inputs and the constants. */
  datatype VectorSystem = VectorSystem(
    derivative: seq<Expr>,
    state: seq<Expr>,
    inputs: Option<seq<Expr>>,
    constants: map<Expr, Expr>)

  /**
   * `list(set(sp.flatten(...)))`: the distinct entries of the state matrix,
   * in an order the set leaves unspecified; any order may come out.
   */
  method Deduplicate(matVar: Matrix<Expr>) returns (vars: seq<Expr>)
    ensures Distinct(vars)
    ensures forall x :: x in vars <==> x in Entries(matVar)
  {
    FlattenEntries(matVar);
    var left := set x | x in Flatten(matVar);
    vars := [];
    while left != {}
      invariant Distinct(vars)
      invariant forall x :: x in Entries(matVar) <==> x in vars || x in left
      invariant forall x :: x in vars ==> x !in left
      decreases |left|
    {
      var x :| x in left;
      vars := vars + [x];
      left := left - {x};
    }
  }

  /** Every cell of the derivative matrix is a cell of the state matrix too. */
  predicate Covers(matDE: Matrix<Expr>, matVar: Matrix<Expr>)
  {
    forall i, j :: 0 <= i < |matDE| && 0 <= j < |matDE[i]| ==> InBounds(matVar, Pos(i, j))
  }

  /**
   * The last cell before (i, j), walking `w` columns per row in row-major
   * order, whose state entry is `x`.
   */
  function LastCell(matVar: Matrix<Expr>, w: nat, x: Expr, i: nat, j: nat): Option<Pos>
    requires j <= w
    decreases i, j
  {
    if j == 0 then (if i == 0 then None else LastCell(matVar, w, x, i - 1, w))
    else if InBounds(matVar, Pos(i, j - 1)) && matVar[i][j - 1] == x then Some(Pos(i, j - 1))
    else LastCell(matVar, w, x, i, j - 1)
  }

  /**
   * LastCell finds a cell before (i, j) holding `x` with no such cell after
   * it, and finds none only when no cell before (i, j) holds `x`.
   */
  lemma {:induction false} LastCellSpec(matVar: Matrix<Expr>, w: nat, x: Expr, i: nat, j: nat)
    requires j <= w
    ensures var r := LastCell(matVar, w, x, i, j);
      r.Some? ==> (Before(r.value, Pos(i, j)) && r.value.col < w && InBounds(matVar, r.value) &&
                   matVar[r.value.row][r.value.col] == x)
    ensures var r := LastCell(matVar, w, x, i, j);
      r.Some? ==> forall q: Pos :: Before(r.value, q) && Before(q, Pos(i, j)) && q.col < w && InBounds(matVar, q) ==>
        matVar[q.row][q.col] != x
    ensures LastCell(matVar, w, x, i, j).None? ==>
      forall q: Pos :: Before(q, Pos(i, j)) && q.col < w && InBounds(matVar, q) ==> matVar[q.row][q.col] != x
    decreases i, j
  {
    if j == 0 {
      if i > 0 {
        LastCellSpec(matVar, w, x, i - 1, w);
      }
    } else if !(InBounds(matVar, Pos(i, j - 1)) && matVar[i][j - 1] == x) {
      LastCellSpec(matVar, w, x, i, j - 1);
    }
  }

  /** The derivative entry at a cell, or the zero the vector starts with. */
  function ValueAt(matDE: Matrix<Expr>, p: Option<Pos>): Expr
  {
    if p.Some? && InBounds(matDE, p.value) then matDE[p.value.row][p.value.col] else Zero
  }

  /**
   * The vector right-hand side the scatter loop leaves: slot k holds the
   * derivative at the last cell whose state entry is state[k].
   */
  function Scatter(matDE: Matrix<Expr>, matVar: Matrix<Expr>, state: seq<Expr>): (v: seq<Expr>)
    ensures |v| == |state|
  {
    seq(|state|, k requires 0 <= k < |state| => ValueAt(matDE, LastCell(matVar, Width(matDE), state[k], |matDE|, 0)))
  }

  /** Visiting cell (i, j) makes it the last cell seen for its own entry and for no other. */
  lemma LastCellStep(matVar: Matrix<Expr>, w: nat, x: Expr, i: nat, j: nat)
    requires j < w && InBounds(matVar, Pos(i, j))
    ensures LastCell(matVar, w, x, i, j + 1) ==
      if matVar[i][j] == x then Some(Pos(i, j)) else LastCell(matVar, w, x, i, j)
  {
  }

  /**
   * The scatter loop of system_from_matrix_DE over a deduplicated state:
   * the cells of the derivative matrix in row-major order, each derivative
   * written into the slot of its cell's state entry, so that a later cell
   * overwrites an earlier one with the same entry. A cell outside the state
   * matrix stops the loop.
   */
  method ScatterDerivatives(matDE: Matrix<Expr>, matVar: Matrix<Expr>, state: seq<Expr>) returns (r: Result<seq<Expr>>)
    requires Rectangular(matDE)
    requires Distinct(state) && forall x :: x in state <==> x in Entries(matVar)
    ensures r.Err? <==> !Covers(matDE, matVar)
    ensures r.Err? ==> r.error == IndexOutOfRange
    ensures r.Ok? ==> r.value == Scatter(matDE, matVar, state)
  {
    var rows, cols := |matDE|, Width(matDE);
    var vecDE := new Expr[|state|](_ => Zero);
    var i := 0;
    while i < rows
      invariant 0 <= i <= rows
      invariant forall p, q :: 0 <= p < i && 0 <= q < cols ==> InBounds(matVar, Pos(p, q))
      invariant forall k :: 0 <= k < |state| ==> vecDE[k] == ValueAt(matDE, LastCell(matVar, cols, state[k], i, 0))
    {
      var j := 0;
      while j < cols
        invariant 0 <= j <= cols
        invariant forall p, q :: (0 <= p < i || p == i) && 0 <= q < cols && (p < i || q < j) ==> InBounds(matVar, Pos(p, q))
        invariant forall k :: 0 <= k < |state| ==> vecDE[k] == ValueAt(matDE, LastCell(matVar, cols, state[k], i, j))
      {
        if !InBounds(matVar, Pos(i, j)) {
          return Err(IndexOutOfRange);
        }
        var x := matVar[i][j];
        assert x in Entries(matVar);
        var idx := IndexOf(state, x).value;
        vecDE[idx] := matDE[i][j];
        forall k | 0 <= k < |state|
          ensures vecDE[k] == ValueAt(matDE, LastCell(matVar, cols, state[k], i, j + 1))
        {
          LastCellStep(matVar, cols, state[k], i, j);
        }
        j := j + 1;
      }
      i := i + 1;
    }
    assert vecDE[..] == Scatter(matDE, matVar, state);
    return Ok(vecDE[..]);
  }

  /**
   * system_from_matrix_DE: deduplicate the state, refuse a derivative matrix
   * without cells, scatter the derivatives, and hand on the inputs and the
   * constants unchanged.
   */
  method SystemFromMatrixDE(matDE: Matrix<Expr>, matVar: Matrix<Expr>, matInput: Option<seq<Expr>>,
                            constants: map<Expr, Expr>) returns (r: Result<VectorSystem>)
    requires Rectangular(matDE)
    ensures r.Err? <==> NoCells(matDE) || !Covers(matDE, matVar)
    ensures r.Err? ==> r.error == if NoCells(matDE) then EmptyIteration else IndexOutOfRange
    ensures r.Ok? ==> Distinct(r.value.state) && forall x :: x in r.value.state <==> x in Entries(matVar)
    ensures r.Ok? ==> r.value.derivative == Scatter(matDE, matVar, r.value.state)
    ensures r.Ok? ==> r.value.inputs == matInput && r.value.constants == constants
  {
    var state := Deduplicate(matVar);
    if NoCells(matDE) {
      return Err(EmptyIteration);
    }
    var derivative := ScatterDerivatives(matDE, matVar, state);
    match derivative
    case Err(e) => return Err(e);
    case Ok(vecDE) => return Ok(VectorSystem(vecDE, state, matInput, constants));
  }

  /** Where several cells share a state entry, the last of them in row-major order sets the slot. */
  lemma ScatterLastWins(matDE: Matrix<Expr>, matVar: Matrix<Expr>, state: seq<Expr>, k: nat, p: Pos)
    requires Rectangular(matDE) && k < |state|
    requires InBounds(matDE, p) && InBounds(matVar, p) && matVar[p.row][p.col] == state[k]
    requires forall q: Pos :: Before(p, q) && InBounds(matDE, q) && InBounds(matVar, q) ==> matVar[q.row][q.col] != state[k]
    ensures Scatter(matDE, matVar, state)[k] == matDE[p.row][p.col]
  {
    var w := Width(matDE);
    var last := LastCell(matVar, w, state[k], |matDE|, 0);
    LastCellSpec(matVar, w, state[k], |matDE|, 0);
    if last.None? {
      assert false;
    }
    var c := last.value;
    assert InBounds(matDE, c);
    if Before(p, c) {
      assert false;
    } else if Before(c, p) {
      assert false;
    }
  }

  /** A slot whose entry no cell of the derivative matrix visits keeps its zero. */
  lemma ScatterUntouched(matDE: Matrix<Expr>, matVar: Matrix<Expr>, state: seq<Expr>, k: nat)
    requires Rectangular(matDE) && k < |state|
    requires forall p: Pos :: InBounds(matDE, p) && InBounds(matVar, p) ==> matVar[p.row][p.col] != state[k]
    ensures Scatter(matDE, matVar, state)[k] == Zero
  {
    var last := LastCell(matVar, Width(matDE), state[k], |matDE|, 0);
    LastCellSpec(matVar, Width(matDE), state[k], |matDE|, 0);
    if last.Some? {
      assert false;
    }
  }

  /** The derivative gives equal values to cells whose state entries are equal (e.g. a symmetric pair). */
  ghost predicate RespectsAliasing(matDE: Matrix<Expr>, matVar: Matrix<Expr>)
  {
    forall p: Pos, q: Pos ::
      (InBounds(matDE, p) && InBounds(matDE, q) && InBounds(matVar, p) && InBounds(matVar, q) &&
       matVar[p.row][p.col] == matVar[q.row][q.col]) ==> matDE[p.row][p.col] == matDE[q.row][q.col]
  }

  /** A state vector that holds exactly the entries of the state matrix has every key the gather looks up. */
  lemma StateHoldsEveryKey(state: seq<Expr>, matVar: Matrix<Expr>)
    requires forall x :: x in state <==> x in Entries(matVar)
    ensures Trajectory.KeysPresent(state, matVar)
  {
    forall i, j | 0 <= i < |matVar| && 0 <= j < |matVar[i]| ensures matVar[i][j] in state {
      assert matVar[i][j] in Entries(matVar);
    }
  }

  /**
   * Scatter, then gather the vector back through the state matrix as the
   * trajectory closure does: a derivative that respects the aliasing of the
   * state comes back unchanged.
   */
  lemma GatherAfterScatter(matDE: Matrix<Expr>, matVar: Matrix<Expr>, state: seq<Expr>)
    requires Rectangular(matVar) && IsShape(matDE, |matVar|, Width(matVar))
    requires Distinct(state) && forall x :: x in state <==> x in Entries(matVar)
    requires RespectsAliasing(matDE, matVar)
    ensures Trajectory.KeysPresent(state, matVar)
    ensures Trajectory.Gather(state, matVar, Scatter(matDE, matVar, state)) == matDE
  {
    StateHoldsEveryKey(state, matVar);
    var v := Scatter(matDE, matVar, state);
    var G := Trajectory.Gather(state, matVar, v);
    forall i | 0 <= i < |matVar| ensures G[i] == matDE[i] {
      forall j | 0 <= j < Width(matVar) ensures G[i][j] == matDE[i][j] {
        var idx := Trajectory.Slot(state, matVar[i][j]);
        var last := LastCell(matVar, Width(matDE), state[idx], |matDE|, 0);
        LastCellSpec(matVar, Width(matDE), state[idx], |matDE|, 0);
        if last.None? {
          assert Before(Pos(i, j), Pos(|matDE|, 0));
          assert false;
        }
        var c := last.value;
        assert InBounds(matDE, c);
        assert G[i][j] == v[idx] == matDE[c.row][c.col];
      }
    }
  }

  /**
   * Gather a vector over the state into a matrix, then scatter it: every
   * slot gets its own value back.
   */
  lemma ScatterAfterGather(matVar: Matrix<Expr>, state: seq<Expr>, v: seq<Expr>)
    requires Rectangular(matVar)
    requires Distinct(state) && forall x :: x in state <==> x in Entries(matVar)
    requires |v| == |state|
    ensures Trajectory.KeysPresent(state, matVar)
    ensures Scatter(Trajectory.Gather(state, matVar, v), matVar, state) == v
  {
    StateHoldsEveryKey(state, matVar);
    var G := Trajectory.Gather(state, matVar, v);
    var s := Scatter(G, matVar, state);
    forall k | 0 <= k < |state| ensures s[k] == v[k] {
      assert state[k] in Entries(matVar);
      var i, j :| 0 <= i < |matVar| && 0 <= j < |matVar[i]| && matVar[i][j] == state[k];
      var last := LastCell(matVar, Width(G), state[k], |G|, 0);
      LastCellSpec(matVar, Width(G), state[k], |G|, 0);
      if last.None? {
        assert Before(Pos(i, j), Pos(|G|, 0));
        assert false;
      }
      var c := last.value;
      assert InBounds(G, c);
      Trajectory.GatherDistinct(state, matVar, v, c.row, c.col, k);
    }
  }
}

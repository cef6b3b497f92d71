/** The gather and scatter steps shared by the implicit finite-element
  * kernels. `setup` gathers nodal values of an element's support points into
  * the kernel's stack. `complete` adds each element-local row whose global
  * DOF, less the rank offset, falls among this rank's rows into the global
  * right-hand side and into the global CRS matrix, and reports the largest
  * local residual magnitude.
  *
  * Reals are exact. The matrix is modelled as one map per row from global
  * column to value; its keys are the row's sparsity pattern. The CRS matrix
  * class of LvArray is not part of this model: `AddToRow` adds each value to
  * its column when the column is in the pattern and skips it otherwise.
  * `RAJA::atomicAdd` is a plain addition, `fabs` and `fmax` are `Abs` and
  * `FMax` on exact reals (no NaN). */
module GlobalAssembly {

  function Abs(x: real): real {
    if x < 0.0 then -x else x
  }

  function FMax(a: real, b: real): real {
    if a < b then b else a
  }

  /** The three components of a nodal or point-wise vector (`R1Tensor`, `real64[3]`). */
  datatype Vec3 = Vec3(x: real, y: real, z: real)

  // ---------------------------------------------------------------------
  // Gathering nodal values in setup
  // ---------------------------------------------------------------------

  /** The first `a` entries of `nodes` index a field of `size` entries. */
  predicate Indexes(nodes: seq<int>, a: nat, size: int) {
    a <= |nodes| && forall j :: 0 <= j < a ==> 0 <= nodes[j] < size
  }

  /** ... and each indexed entry of `field` has three components. */
  predicate Rows3(nodes: seq<int>, a: nat, field: seq<seq<real>>) {
    Indexes(nodes, a, |field|) && forall j :: 0 <= j < a ==> |field[nodes[j]]| >= 3
  }

  /** The three components of `field` at the first `a` support points. */
  function Gather(nodes: seq<int>, field: seq<seq<real>>, a: nat): (r: seq<seq<real>>)
    requires Rows3(nodes, a, field)
    ensures |r| == a
  {
    if a == 0 then [] else Gather(nodes, field, a - 1) + [field[nodes[a - 1]][..3]]
  }

  lemma {:induction false} GatherAt(nodes: seq<int>, field: seq<seq<real>>, a: nat)
    requires Rows3(nodes, a, field)
    ensures var r := Gather(nodes, field, a);
      forall b :: 0 <= b < a ==> r[b] == field[nodes[b]][..3]
  {
    if a > 0 {
      GatherAt(nodes, field, a - 1);
    }
  }

  /** The entries of `field` at the first `a` support points. */
  function Pick<T>(nodes: seq<int>, field: seq<T>, a: nat): (r: seq<T>)
    requires Indexes(nodes, a, |field|)
    ensures |r| == a
  {
    if a == 0 then [] else Pick(nodes, field, a - 1) + [field[nodes[a - 1]]]
  }

  lemma {:induction false} PickAt<T>(nodes: seq<int>, field: seq<T>, a: nat)
    requires Indexes(nodes, a, |field|)
    ensures var r := Pick(nodes, field, a);
      forall b :: 0 <= b < a ==> r[b] == field[nodes[b]]
  {
    if a > 0 {
      PickAt(nodes, field, a - 1);
    }
  }

  // ---------------------------------------------------------------------
  // Scattering in complete
  // ---------------------------------------------------------------------

  type Row = map<int, real>

  /** Adds `val` to column `col` of `row` when the pattern has it. */
  function AddEntry(row: Row, col: int, val: real): (r: Row)
    ensures r.Keys == row.Keys
  {
    if col in row then row[col := row[col] + val] else row
  }

  /** `addToRow( row, cols, vals, n )`: the entries one after the other. */
  function AddToRow(row: Row, cols: seq<int>, vals: seq<real>): (r: Row)
    requires |vals| == |cols|
    ensures r.Keys == row.Keys
  {
    if |cols| == 0 then row
    else AddEntry(AddToRow(row, cols[..|cols| - 1], vals[..|vals| - 1]), cols[|cols| - 1], vals[|vals| - 1])
  }

  /** The sum of the values given for column `c`. */
  function ColumnTotal(cols: seq<int>, vals: seq<real>, c: int): real
    requires |vals| == |cols|
  {
    if |cols| == 0 then 0.0
    else ColumnTotal(cols[..|cols| - 1], vals[..|vals| - 1], c) + (if cols[|cols| - 1] == c then vals[|vals| - 1] else 0.0)
  }

  /** Every column of the pattern ends up with the sum of the values given
    * for it, whatever their order; the pattern itself never changes. */
  lemma {:induction false} AddToRowAddsColumnTotals(row: Row, cols: seq<int>, vals: seq<real>)
    requires |vals| == |cols|
    ensures var r := AddToRow(row, cols, vals);
      r.Keys == row.Keys && forall c :: c in row ==> r[c] == row[c] + ColumnTotal(cols, vals, c)
  {
    if |cols| > 0 {
      AddToRowAddsColumnTotals(row, cols[..|cols| - 1], vals[..|vals| - 1]);
    }
  }

  /** Two calls in a row add the concatenated lists. */
  lemma {:induction false} AddToRowAppend(row: Row, c1: seq<int>, v1: seq<real>, c2: seq<int>, v2: seq<real>)
    requires |v1| == |c1| && |v2| == |c2|
    ensures AddToRow(row, c1 + c2, v1 + v2) == AddToRow(AddToRow(row, c1, v1), c2, v2)
    decreases |c2|
  {
    if |c2| == 0 {
      assert c1 + c2 == c1 && v1 + v2 == v1;
    } else {
      var n := |c2| - 1;
      assert (c1 + c2)[..|c1 + c2| - 1] == c1 + c2[..n];
      assert (v1 + v2)[..|v1 + v2| - 1] == v1 + v2[..n];
      AddToRowAppend(row, c1, v1, c2[..n], v2[..n]);
    }
  }

  /** `dof - rankOffset` is one of this rank's `numRows` rows. */
  predicate InRange(dof: int, rankOffset: int, numRows: nat) {
    0 <= dof - rankOffset < numRows
  }

  /** The right-hand side once the first `n` local rows are scattered. */
  function ScatterRhs(rhs: seq<real>, dofs: seq<int>, residual: seq<real>, rankOffset: int, numRows: nat, n: nat): (r: seq<real>)
    requires numRows <= |rhs| && n <= |dofs| && n <= |residual|
    ensures |r| == |rhs|
  {
    if n == 0 then rhs
    else
      var prev := ScatterRhs(rhs, dofs, residual, rankOffset, numRows, n - 1);
      var dof := dofs[n - 1] - rankOffset;
      if InRange(dofs[n - 1], rankOffset, numRows) then prev[dof := prev[dof] + residual[n - 1]] else prev
  }

  /** The sum of the residuals of the first `n` local rows aimed at row `j`. */
  function RowTotal(dofs: seq<int>, residual: seq<real>, rankOffset: int, j: int, n: nat): real
    requires n <= |dofs| && n <= |residual|
  {
    if n == 0 then 0.0
    else RowTotal(dofs, residual, rankOffset, j, n - 1) + (if dofs[n - 1] - rankOffset == j then residual[n - 1] else 0.0)
  }

  /** Each of this rank's rows gains exactly the residuals aimed at it, added
    * and never overwritten; every other entry is untouched. */
  lemma {:induction false} ScatterRhsAddsRowTotals(rhs: seq<real>, dofs: seq<int>, residual: seq<real>,
                                                   rankOffset: int, numRows: nat, n: nat)
    requires numRows <= |rhs| && n <= |dofs| && n <= |residual|
    ensures var r := ScatterRhs(rhs, dofs, residual, rankOffset, numRows, n);
      (forall j :: 0 <= j < numRows ==> r[j] == rhs[j] + RowTotal(dofs, residual, rankOffset, j, n))
      && (forall j :: numRows <= j < |rhs| ==> r[j] == rhs[j])
  {
    if n > 0 {
      ScatterRhsAddsRowTotals(rhs, dofs, residual, rankOffset, numRows, n - 1);
    }
  }

  /** With distinct DOFs, a row gains the one residual aimed at it, or
    * nothing. */
  lemma {:induction false} RowTotalOfDistinct(dofs: seq<int>, residual: seq<real>, rankOffset: int, j: int, n: nat)
    requires n <= |dofs| && n <= |residual|
    requires forall i1, i2 :: 0 <= i1 < i2 < n ==> dofs[i1] != dofs[i2]
    ensures (forall i :: 0 <= i < n ==> dofs[i] - rankOffset != j) ==> RowTotal(dofs, residual, rankOffset, j, n) == 0.0
    ensures forall i :: 0 <= i < n && dofs[i] - rankOffset == j ==> RowTotal(dofs, residual, rankOffset, j, n) == residual[i]
  {
    if n > 0 {
      RowTotalOfDistinct(dofs, residual, rankOffset, j, n - 1);
    }
  }

  /** The matrix once the first `n` local rows are scattered, row `i` adding
    * `jacobian[i]` at the columns `cols`. */
  function ScatterMatrix(matrix: seq<Row>, dofs: seq<int>, cols: seq<int>, jacobian: seq<seq<real>>,
                         rankOffset: int, numRows: nat, n: nat): (m: seq<Row>)
    requires numRows <= |matrix| && n <= |dofs| && n <= |jacobian|
    requires forall i :: 0 <= i < n ==> |jacobian[i]| == |cols|
    ensures |m| == |matrix|
  {
    if n == 0 then matrix
    else
      var prev := ScatterMatrix(matrix, dofs, cols, jacobian, rankOffset, numRows, n - 1);
      var dof := dofs[n - 1] - rankOffset;
      if InRange(dofs[n - 1], rankOffset, numRows) then prev[dof := AddToRow(prev[dof], cols, jacobian[n - 1])] else prev
  }

  /** Only the rows some in-range local row aims at change, and no row's
    * pattern changes. */
  lemma {:induction false} ScatterMatrixTouchesOnlyTargets(matrix: seq<Row>, dofs: seq<int>, cols: seq<int>,
                                                           jacobian: seq<seq<real>>, rankOffset: int, numRows: nat, n: nat)
    requires numRows <= |matrix| && n <= |dofs| && n <= |jacobian|
    requires forall i :: 0 <= i < n ==> |jacobian[i]| == |cols|
    ensures var m := ScatterMatrix(matrix, dofs, cols, jacobian, rankOffset, numRows, n);
      (forall j :: 0 <= j < |matrix| ==> m[j].Keys == matrix[j].Keys)
      && forall j :: 0 <= j < |matrix| && (forall i :: 0 <= i < n ==> dofs[i] - rankOffset != j) ==> m[j] == matrix[j]
  {
    if n > 0 {
      ScatterMatrixTouchesOnlyTargets(matrix, dofs, cols, jacobian, rankOffset, numRows, n - 1);
    }
  }

  /** A single local row is added at its row when in range, else dropped. */
  lemma ScatterRhsOne(rhs: seq<real>, dof: int, res: real, rankOffset: int, numRows: nat)
    requires numRows <= |rhs|
    ensures InRange(dof, rankOffset, numRows) ==>
      ScatterRhs(rhs, [dof], [res], rankOffset, numRows, 1) == rhs[dof - rankOffset := rhs[dof - rankOffset] + res]
    ensures !InRange(dof, rankOffset, numRows) ==> ScatterRhs(rhs, [dof], [res], rankOffset, numRows, 1) == rhs
  {
    assert [dof][0] == dof && [res][0] == res;
    assert ScatterRhs(rhs, [dof], [res], rankOffset, numRows, 0) == rhs;
  }

  lemma ScatterMatrixOne(matrix: seq<Row>, dof: int, cols: seq<int>, jac: seq<real>, rankOffset: int, numRows: nat)
    requires numRows <= |matrix| && |jac| == |cols|
    ensures InRange(dof, rankOffset, numRows) ==>
      ScatterMatrix(matrix, [dof], cols, [jac], rankOffset, numRows, 1)
      == matrix[dof - rankOffset := AddToRow(matrix[dof - rankOffset], cols, jac)]
    ensures !InRange(dof, rankOffset, numRows) ==> ScatterMatrix(matrix, [dof], cols, [jac], rankOffset, numRows, 1) == matrix
  {
    assert [dof][0] == dof && [jac][0] == jac;
    assert ScatterMatrix(matrix, [dof], cols, [jac], rankOffset, numRows, 0) == matrix;
  }

  /** `maxForce` after the first `n` local rows: the running `fmax` of the
    * in-range residual magnitudes, from 0. */
  function MaxForce(dofs: seq<int>, residual: seq<real>, rankOffset: int, numRows: nat, n: nat): real
    requires n <= |dofs| && n <= |residual|
  {
    if n == 0 then 0.0
    else
      var prev := MaxForce(dofs, residual, rankOffset, numRows, n - 1);
      if InRange(dofs[n - 1], rankOffset, numRows) then FMax(prev, Abs(residual[n - 1])) else prev
  }

  /** `maxForce` is the largest in-range residual magnitude, or 0 when there
    * is none: never negative, no smaller than any in-range magnitude, and
    * attained by one unless it is 0. Out-of-range rows never enter it. */
  lemma {:induction false} MaxForceIsMax(dofs: seq<int>, residual: seq<real>, rankOffset: int, numRows: nat, n: nat)
    requires n <= |dofs| && n <= |residual|
    ensures var m := MaxForce(dofs, residual, rankOffset, numRows, n);
      m >= 0.0
      && (forall i :: 0 <= i < n && InRange(dofs[i], rankOffset, numRows) ==> Abs(residual[i]) <= m)
      && (m == 0.0 || exists i :: 0 <= i < n && InRange(dofs[i], rankOffset, numRows) && m == Abs(residual[i]))
  {
    if n > 0 {
      MaxForceIsMax(dofs, residual, rankOffset, numRows, n - 1);
    }
  }
}

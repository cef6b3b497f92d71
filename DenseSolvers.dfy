/** Small dense linear solvers
  * (src/coreComponents/denseLinearAlgebra/denseLASolvers.hpp): Cramer's rule
  * for 2x2 and 3x3 systems, back substitution, Gaussian elimination with
  * partial pivoting, and the size dispatch. Arithmetic is over exact reals;
  * `GEOS_ERROR_IF_LT_MSG` aborts, which is modelled as an error result (the
  * pure solvers) or a `false` status (the in-place ones). */
module DenseSolvers {
  import opened Wrappers

  /** `NumericLimits<real64>::epsilon`, the machine epsilon 2^-52. */
  const Epsilon: real := 1.0 / 4503599627370496.0

  function Abs(x: real): real {
    if x < 0.0 then -x else x
  }

  // ---------------------------------------------------------------------
  // Matrices as rows, and what it means to solve a system.

  predicate IsMatrix(M: seq<seq<real>>, n: nat) {
    |M| == n && forall r :: 0 <= r < n ==> |M[r]| == n
  }

  /** `sum_{lo <= k < hi} row[k] * y[k]`, accumulated in ascending `k`. */
  function RangeDot(row: seq<real>, y: seq<real>, lo: nat, hi: nat): real
    requires lo <= hi <= |row| && hi <= |y|
    decreases hi - lo
  {
    if lo == hi then 0.0 else RangeDot(row, y, lo, hi - 1) + row[hi - 1] * y[hi - 1]
  }

  /** `y` solves `M y = c`. */
  predicate Solves(M: seq<seq<real>>, y: seq<real>, c: seq<real>, n: nat)
    requires IsMatrix(M, n) && |y| == n && |c| == n
  {
    forall r :: 0 <= r < n ==> RangeDot(M[r], y, 0, n) == c[r]
  }

  /** Every entry below the diagonal in the first `cols` columns is zero. */
  predicate ZeroBelowDiagonal(M: seq<seq<real>>, n: nat, cols: nat)
    requires IsMatrix(M, n) && cols <= n
  {
    forall r :: 0 <= r < n ==> forall c :: 0 <= c < cols && c < r ==> M[r][c] == 0.0
  }

  /** The first `k` diagonal entries have magnitude at least epsilon. */
  predicate PivotsAtLeast(M: seq<seq<real>>, n: nat, k: nat)
    requires IsMatrix(M, n) && k <= n
  {
    forall r :: 0 <= r < k ==> Abs(M[r][r]) >= Epsilon
  }

  /** `M y = c` and `M0 y = c0` have the same solutions. */
  ghost predicate SameSolutions(M: seq<seq<real>>, c: seq<real>, M0: seq<seq<real>>, c0: seq<real>, n: nat)
    requires IsMatrix(M, n) && IsMatrix(M0, n) && |c| == n && |c0| == n
  {
    forall y: seq<real> | |y| == n :: Solves(M, y, c, n) <==> Solves(M0, y, c0, n)
  }

  /** The rows of a stack matrix. */
  function Rows(A: array2<real>): (M: seq<seq<real>>)
    reads A
    ensures |M| == A.Length0 && forall r :: 0 <= r < A.Length0 ==> |M[r]| == A.Length1
    ensures forall r, c :: 0 <= r < A.Length0 && 0 <= c < A.Length1 ==> M[r][c] == A[r, c]
  {
    seq(A.Length0, r requires 0 <= r < A.Length0 reads A =>
      seq(A.Length1, c requires 0 <= c < A.Length1 reads A => A[r, c]))
  }

  // ---------------------------------------------------------------------
  // Cramer's rule.

  function Det2(A: seq<seq<real>>): real
    requires IsMatrix(A, 2)
  {
    A[0][0] * A[1][1] - A[0][1] * A[1][0]
  }

  /** `solveTwoByTwoSystem`: an error when `|det A| < epsilon`, otherwise
    * Cramer's rule. */
  function SolveTwoByTwo(A: seq<seq<real>>, b: seq<real>): (r: Result<seq<real>>)
    requires IsMatrix(A, 2) && |b| == 2
    ensures r.Err? <==> Abs(Det2(A)) < Epsilon
    ensures r.Ok? ==> |r.value| == 2 && Solves(A, r.value, b, 2)
  {
    var det := Det2(A);
    if Abs(det) < Epsilon then Err("Singular system.")
    else
      var x := [(A[1][1] * b[0] - A[0][1] * b[1]) / det, (A[0][0] * b[1] - A[1][0] * b[0]) / det];
      assert A[0][0] * x[0] + A[0][1] * x[1] == b[0] by {
        assert A[0][0] * (A[1][1] * b[0] - A[0][1] * b[1]) + A[0][1] * (A[0][0] * b[1] - A[1][0] * b[0]) == det * b[0];
      }
      assert A[1][0] * x[0] + A[1][1] * x[1] == b[1] by {
        assert A[1][0] * (A[1][1] * b[0] - A[0][1] * b[1]) + A[1][1] * (A[0][0] * b[1] - A[1][0] * b[0]) == det * b[1];
      }
      Ok(x)
  }

  /** The determinant, by cofactor expansion along the first row. */
  function Det3(A: seq<seq<real>>): real
    requires IsMatrix(A, 3)
  {
    A[0][0] * (A[1][1] * A[2][2] - A[1][2] * A[2][1])
    - A[0][1] * (A[1][0] * A[2][2] - A[1][2] * A[2][0])
    + A[0][2] * (A[1][0] * A[2][1] - A[1][1] * A[2][0])
  }

  /** The determinant of `A` with column `j` replaced by `b`, expanded
    * along the first row. */
  function Det3Replaced(A: seq<seq<real>>, b: seq<real>, j: nat): real
    requires IsMatrix(A, 3) && |b| == 3 && j < 3
  {
    if j == 0 then
      b[0] * (A[1][1] * A[2][2] - A[1][2] * A[2][1])
      - A[0][1] * (b[1] * A[2][2] - A[1][2] * b[2])
      + A[0][2] * (b[1] * A[2][1] - A[1][1] * b[2])
    else if j == 1 then
      A[0][0] * (b[1] * A[2][2] - A[1][2] * b[2])
      - b[0] * (A[1][0] * A[2][2] - A[1][2] * A[2][0])
      + A[0][2] * (A[1][0] * b[2] - b[1] * A[2][0])
    else
      A[0][0] * (A[1][1] * b[2] - b[1] * A[2][1])
      - A[0][1] * (A[1][0] * b[2] - b[1] * A[2][0])
      + b[0] * (A[1][0] * A[2][1] - A[1][1] * A[2][0])
  }

  /** `solveThreeByThreeSystem` as written: the numerators `detX1` and
    * `detX2` mix entries of `A` that belong to no column replacement. */
  function SolveThreeByThreeAsWritten(A: seq<seq<real>>, b: seq<real>): (r: Result<seq<real>>)
    requires IsMatrix(A, 3) && |b| == 3
    ensures r.Err? <==> Abs(Det3(A)) < Epsilon
    ensures r.Ok? ==> |r.value| == 3
  {
    var det := Det3(A);
    if Abs(det) < Epsilon then Err("Singular system.")
    else
      var detX0 := b[0] * (A[1][1] * A[2][2] - A[1][2] * A[2][1])
                   - b[1] * (A[0][1] * A[2][2] - A[0][2] * A[2][1])
                   + b[2] * (A[0][1] * A[1][2] - A[0][2] * A[1][1]);
      var detX1 := A[0][0] * (b[1] * A[2][2] - b[2] * A[2][1])
                   - A[0][1] * (b[0] * A[2][2] - b[2] * A[2][0])
                   + A[0][2] * (b[0] * A[1][2] - b[1] * A[1][0]);
      var detX2 := A[0][0] * (A[1][1] * b[2] - A[1][2] * b[1])
                   - A[0][1] * (A[1][0] * b[2] - A[1][2] * b[0])
                   + A[0][2] * (A[1][0] * b[1] - A[1][1] * b[0]);
      Ok([detX0 / det, detX1 / det, detX2 / det])
  }

  /** With `A` the identity plus a 1 at row 0, column 1, and `b = (1, 1, 1)`,
    * the written solver returns `(0, 0, 1)`, whose image is `(0, 0, 1)`,
    * not `b`; the solution is `(0, 1, 1)`. */
  lemma ThreeByThreeAsWrittenCounterexample()
    ensures var A := [[1.0, 1.0, 0.0], [0.0, 1.0, 0.0], [0.0, 0.0, 1.0]];
            var b := [1.0, 1.0, 1.0];
            && SolveThreeByThreeAsWritten(A, b) == Ok([0.0, 0.0, 1.0])
            && !Solves(A, [0.0, 0.0, 1.0], b, 3)
            && Solves(A, [0.0, 1.0, 1.0], b, 3)
  {
    var A := [[1.0, 1.0, 0.0], [0.0, 1.0, 0.0], [0.0, 0.0, 1.0]];
    var b := [1.0, 1.0, 1.0];
    assert RangeDot(A[0], [0.0, 0.0, 1.0], 0, 3) == 0.0;
    assert RangeDot(A[0], [0.0, 1.0, 1.0], 0, 3) == 1.0;
    assert RangeDot(A[1], [0.0, 1.0, 1.0], 0, 3) == 1.0;
    assert RangeDot(A[2], [0.0, 1.0, 1.0], 0, 3) == 1.0;
  }

  /** `solveThreeByThreeSystem` as intended: an error when `|det A| <
    * epsilon`, otherwise `x_j = det(A with column j replaced by b) / det A`. */
  function SolveThreeByThree(A: seq<seq<real>>, b: seq<real>): (r: Result<seq<real>>)
    requires IsMatrix(A, 3) && |b| == 3
    ensures r.Err? <==> Abs(Det3(A)) < Epsilon
    ensures r.Ok? ==> |r.value| == 3
    ensures r.Ok? ==> forall j :: 0 <= j < 3 ==> r.value[j] == Det3Replaced(A, b, j) / Det3(A)
  {
    var det := Det3(A);
    if Abs(det) < Epsilon then Err("Singular system.")
    else Ok([Det3Replaced(A, b, 0) / det, Det3Replaced(A, b, 1) / det, Det3Replaced(A, b, 2) / det])
  }

  lemma CramerIdentity(a00: real, a01: real, a02: real, a10: real, a11: real, a12: real,
                       a20: real, a21: real, a22: real, b0: real, b1: real, b2: real,
                       det: real, d0: real, d1: real, d2: real)
    requires det == a00 * (a11 * a22 - a12 * a21) - a01 * (a10 * a22 - a12 * a20) + a02 * (a10 * a21 - a11 * a20)
    requires d0 == b0 * (a11 * a22 - a12 * a21) - a01 * (b1 * a22 - a12 * b2) + a02 * (b1 * a21 - a11 * b2)
    requires d1 == a00 * (b1 * a22 - a12 * b2) - b0 * (a10 * a22 - a12 * a20) + a02 * (a10 * b2 - b1 * a20)
    requires d2 == a00 * (a11 * b2 - b1 * a21) - a01 * (a10 * b2 - b1 * a20) + b0 * (a10 * a21 - a11 * a20)
    ensures a00 * d0 + a01 * d1 + a02 * d2 == det * b0
    ensures a10 * d0 + a11 * d1 + a12 * d2 == det * b1
    ensures a20 * d0 + a21 * d1 + a22 * d2 == det * b2
  {
  }

  /** The intended 3x3 solver's result solves the system. */
  lemma ThreeByThreeSolves(A: seq<seq<real>>, b: seq<real>)
    requires IsMatrix(A, 3) && |b| == 3
    ensures SolveThreeByThree(A, b).Ok? ==> Solves(A, SolveThreeByThree(A, b).value, b, 3)
  {
    var r := SolveThreeByThree(A, b);
    if r.Ok? {
      var det := Det3(A);
      var d0, d1, d2 := Det3Replaced(A, b, 0), Det3Replaced(A, b, 1), Det3Replaced(A, b, 2);
      CramerIdentity(A[0][0], A[0][1], A[0][2], A[1][0], A[1][1], A[1][2], A[2][0], A[2][1], A[2][2],
                     b[0], b[1], b[2], det, d0, d1, d2);
      var x := r.value;
      assert x == [d0 / det, d1 / det, d2 / det];
      CramerRows(A, b, x, det, d0, d1, d2);
    }
  }

  /** With the three row identities of Cramer's rule in hand, the quotients
    * solve the system. */
  lemma CramerRows(A: seq<seq<real>>, b: seq<real>, x: seq<real>, det: real, d0: real, d1: real, d2: real)
    requires IsMatrix(A, 3) && |b| == 3 && det != 0.0 && x == [d0 / det, d1 / det, d2 / det]
    requires A[0][0] * d0 + A[0][1] * d1 + A[0][2] * d2 == det * b[0]
    requires A[1][0] * d0 + A[1][1] * d1 + A[1][2] * d2 == det * b[1]
    requires A[2][0] * d0 + A[2][1] * d1 + A[2][2] * d2 == det * b[2]
    ensures Solves(A, x, b, 3)
  {
    CramerRow(A[0], x, d0, d1, d2, det, b[0]);
    CramerRow(A[1], x, d0, d1, d2, det, b[1]);
    CramerRow(A[2], x, d0, d1, d2, det, b[2]);
  }

  lemma CramerRow(row: seq<real>, x: seq<real>, d0: real, d1: real, d2: real, det: real, c: real)
    requires |row| == 3 && det != 0.0 && x == [d0 / det, d1 / det, d2 / det]
    requires row[0] * d0 + row[1] * d1 + row[2] * d2 == det * c
    ensures RangeDot(row, x, 0, 3) == c
  {
    var p, q, t := row[0], row[1], row[2];
    assert RangeDot(row, x, 0, 3) == p * (d0 / det) + q * (d1 / det) + t * (d2 / det);
    assert p * (d0 / det) + q * (d1 / det) + t * (d2 / det) == (p * d0 + q * d1 + t * d2) / det;
  }

  // ---------------------------------------------------------------------
  // Facts about RangeDot.

  lemma {:induction false} RangeDotFront(row: seq<real>, y: seq<real>, lo: nat, hi: nat)
    requires lo < hi <= |row| && hi <= |y|
    ensures RangeDot(row, y, lo, hi) == row[lo] * y[lo] + RangeDot(row, y, lo + 1, hi)
    decreases hi - lo
  {
    if lo + 1 < hi {
      RangeDotFront(row, y, lo, hi - 1);
    }
  }

  lemma {:induction false} RangeDotSplit(row: seq<real>, y: seq<real>, lo: nat, mid: nat, hi: nat)
    requires lo <= mid <= hi <= |row| && hi <= |y|
    ensures RangeDot(row, y, lo, hi) == RangeDot(row, y, lo, mid) + RangeDot(row, y, mid, hi)
    decreases hi - mid
  {
    if mid < hi {
      RangeDotSplit(row, y, lo, mid, hi - 1);
    }
  }

  lemma {:induction false} RangeDotOfZeros(row: seq<real>, y: seq<real>, lo: nat, hi: nat)
    requires lo <= hi <= |row| && hi <= |y|
    requires forall k :: lo <= k < hi ==> row[k] == 0.0
    ensures RangeDot(row, y, lo, hi) == 0.0
    decreases hi - lo
  {
    if lo < hi {
      RangeDotOfZeros(row, y, lo, hi - 1);
    }
  }

  /** Changing `y` outside `[lo, hi)` leaves the partial dot unchanged. */
  lemma {:induction false} RangeDotFrame(row: seq<real>, y: seq<real>, z: seq<real>, lo: nat, hi: nat)
    requires lo <= hi <= |row| && hi <= |y| && hi <= |z|
    requires forall k :: lo <= k < hi ==> y[k] == z[k]
    ensures RangeDot(row, y, lo, hi) == RangeDot(row, z, lo, hi)
    decreases hi - lo
  {
    if lo < hi {
      RangeDotFrame(row, y, z, lo, hi - 1);
    }
  }

  /** A row with a zero prefix only sees the rest of the vector. */
  lemma UpperTriangularSolves(M: seq<seq<real>>, y: seq<real>, c: seq<real>, n: nat)
    requires IsMatrix(M, n) && |y| == n && |c| == n
    requires ZeroBelowDiagonal(M, n, n)
    requires forall r :: 0 <= r < n ==> RangeDot(M[r], y, r, n) == c[r]
    ensures Solves(M, y, c, n)
  {
    forall r | 0 <= r < n
      ensures RangeDot(M[r], y, 0, n) == c[r]
    {
      RangeDotSplit(M[r], y, 0, r, n);
      RangeDotOfZeros(M[r], y, 0, r);
    }
  }

  // ---------------------------------------------------------------------
  // Back substitution.

  /** The inner loop of `solveUpperTriangularSystem`: `b[i]` less the
    * products of row `i` with the entries of `x` after `i`, subtracted in
    * ascending order. */
  method RowRemainder(A: array2<real>, b: array<real>, x: array<real>, i: nat) returns (sum: real)
    requires A.Length0 == A.Length1 == b.Length == x.Length && i < b.Length
    ensures sum == b[i] - RangeDot(Rows(A)[i], x[..], i + 1, b.Length)
  {
    var n := b.Length;
    ghost var M := Rows(A);
    sum := b[i];
    var j := i + 1;
    while j < n
      invariant i + 1 <= j <= n
      invariant sum == b[i] - RangeDot(M[i], x[..], i + 1, j)
    {
      sum := sum - A[i, j] * x[j];
      j := j + 1;
    }
  }

  /** Setting `x[i]` to the remainder over the diagonal solves row `i` and
    * leaves the rows below it solved. */
  lemma BackSubstitutionStep(M: seq<seq<real>>, c: seq<real>, before: seq<real>, after: seq<real>, i: nat, n: nat, sum: real)
    requires IsMatrix(M, n) && |c| == n && |before| == n && i < n && M[i][i] != 0.0
    requires sum == c[i] - RangeDot(M[i], before, i + 1, n)
    requires after == before[i := sum / M[i][i]]
    requires forall r :: i < r < n ==> RangeDot(M[r], before, r, n) == c[r]
    ensures forall r :: i <= r < n ==> RangeDot(M[r], after, r, n) == c[r]
  {
    forall r | i < r < n
      ensures RangeDot(M[r], after, r, n) == c[r]
    {
      RangeDotFrame(M[r], after, before, r, n);
    }
    RangeDotFrame(M[i], after, before, i + 1, n);
    RangeDotFront(M[i], after, i, n);
    var d := M[i][i];
    assert after[i] == sum / d;
    assert d * (sum / d) == sum;
  }

  /** `solveUpperTriangularSystem`: `x` is filled from the last index down,
    * each entry from `b[i]` less the already known part of row `i`, divided
    * by the diagonal. Only the upper triangle of `A` is read. */
  method SolveUpperTriangularSystem(A: array2<real>, b: array<real>, x: array<real>)
    requires A.Length0 == A.Length1 == b.Length == x.Length
    requires forall r :: 0 <= r < b.Length ==> A[r, r] != 0.0
    requires x != b
    modifies x
    ensures forall r :: 0 <= r < b.Length ==> RangeDot(Rows(A)[r], x[..], r, b.Length) == b[r]
  {
    var n := b.Length;
    ghost var M := Rows(A);
    var i := n - 1;
    while i >= 0
      invariant -1 <= i < n
      invariant Rows(A) == M
      invariant forall r :: i < r < n ==> RangeDot(M[r], x[..], r, n) == b[r]
    {
      var sum := RowRemainder(A, b, x, i);
      ghost var before := x[..];
      x[i] := sum / A[i, i];
      BackSubstitutionStep(M, b[..], before, x[..], i, n, sum);
      i := i - 1;
    }
  }

  // ---------------------------------------------------------------------
  // Gaussian elimination.

  /** Step 1.a: the first row `k >= i` with the largest `|A[k][i]|`. */
  method FindPivot(A: array2<real>, i: nat) returns (maxRow: nat)
    requires A.Length0 == A.Length1 && i < A.Length0
    ensures i <= maxRow < A.Length0
    ensures forall k :: i <= k < A.Length0 ==> Abs(A[k, i]) <= Abs(A[maxRow, i])
    ensures forall k :: i <= k < maxRow ==> Abs(A[k, i]) < Abs(A[maxRow, i])
    ensures maxRow == PivotUpTo(Rows(A), A.Length0, i, A.Length0)
  {
    maxRow := i;
    var k := i + 1;
    while k < A.Length0
      invariant i < k <= A.Length0
      invariant maxRow == PivotUpTo(Rows(A), A.Length0, i, k)
    {
      if Abs(A[k, i]) > Abs(A[maxRow, i]) {
        maxRow := k;
      }
      k := k + 1;
    }
  }

  /** Positions `i` and `j` of `s` exchanged: rows of a matrix, or entries of a vector. */
  function Swap<T>(s: seq<T>, i: nat, j: nat): (t: seq<T>)
    requires i < |s| && j < |s|
    ensures |t| == |s|
  {
    s[i := s[j]][j := s[i]]
  }

  /** Exchanging two equations keeps the solutions. */
  lemma SwapKeepsSolutions(M: seq<seq<real>>, c: seq<real>, n: nat, i: nat, j: nat)
    requires IsMatrix(M, n) && |c| == n && i < n && j < n
    ensures IsMatrix(Swap(M, i, j), n)
    ensures SameSolutions(Swap(M, i, j), Swap(c, i, j), M, c, n)
  {
    var S, s := Swap(M, i, j), Swap(c, i, j);
    assert forall r :: 0 <= r < n ==> S[r] == M[if r == j then i else if r == i then j else r];
    assert forall r :: 0 <= r < n ==> s[r] == c[if r == j then i else if r == i then j else r];
    forall y: seq<real> | |y| == n
      ensures Solves(S, y, s, n) <==> Solves(M, y, c, n)
    {
      if Solves(S, y, s, n) {
        forall r | 0 <= r < n
          ensures RangeDot(M[r], y, 0, n) == c[r]
        {
          var r' := if r == j then i else if r == i then j else r;
          assert S[r'] == M[r] && s[r'] == c[r];
        }
      }
    }
  }

  /** Row `r` of `M` less `s` times row `p`. */
  function RowMinus(a: seq<real>, s: real, p: seq<real>): (d: seq<real>)
    requires |a| == |p|
    ensures |d| == |a| && forall k :: 0 <= k < |a| ==> d[k] == a[k] - s * p[k]
  {
    seq(|a|, k requires 0 <= k < |a| => a[k] - s * p[k])
  }

  /** Step 1.c on whole rows: every row below `i` less its multiple
    * `M[r][i] / M[i][i]` of row `i`, and likewise for `c`. */
  function Eliminate(M: seq<seq<real>>, i: nat, n: nat): (E: seq<seq<real>>)
    requires IsMatrix(M, n) && i < n && M[i][i] != 0.0
    ensures IsMatrix(E, n)
  {
    seq(n, r requires 0 <= r < n =>
      if r <= i then M[r] else RowMinus(M[r], M[r][i] / M[i][i], M[i]))
  }

  /** `a` less `s` times `p`. */
  function MinusMultiple(a: real, s: real, p: real): real {
    a - s * p
  }

  /** The right-hand side once rows `i + 1` to `k - 1` are done. */
  function EliminatedRhsUpTo(M: seq<seq<real>>, c: seq<real>, i: nat, k: nat, n: nat): (e: seq<real>)
    requires IsMatrix(M, n) && |c| == n && i < n && M[i][i] != 0.0 && k <= n
    ensures |e| == n
  {
    seq(n, r requires 0 <= r < n => if i < r < k then MinusMultiple(c[r], M[r][i] / M[i][i], c[i]) else c[r])
  }

  function EliminateRhs(M: seq<seq<real>>, c: seq<real>, i: nat, n: nat): (e: seq<real>)
    requires IsMatrix(M, n) && |c| == n && i < n && M[i][i] != 0.0
    ensures |e| == n
  {
    EliminatedRhsUpTo(M, c, i, n, n)
  }

  lemma {:induction false} RangeDotOfRowMinus(a: seq<real>, s: real, p: seq<real>, y: seq<real>, hi: nat)
    requires |a| == |p| && hi <= |a| && hi <= |y|
    ensures RangeDot(RowMinus(a, s, p), y, 0, hi) == RangeDot(a, y, 0, hi) - s * RangeDot(p, y, 0, hi)
  {
    if hi > 0 {
      RangeDotOfRowMinus(a, s, p, y, hi - 1);
      var d := RowMinus(a, s, p);
      assert d[hi - 1] * y[hi - 1] == a[hi - 1] * y[hi - 1] - s * (p[hi - 1] * y[hi - 1]);
    }
  }

  /** One eliminated equation: once `y` satisfies equation `i`, it satisfies
    * the new equation `r` exactly when it satisfies the old one. */
  lemma EliminatedRow(a: seq<real>, p: seq<real>, s: real, y: seq<real>, n: nat, ca: real, cp: real)
    requires |a| == n && |p| == n && |y| == n
    requires RangeDot(p, y, 0, n) == cp
    ensures RangeDot(RowMinus(a, s, p), y, 0, n) == MinusMultiple(ca, s, cp) <==> RangeDot(a, y, 0, n) == ca
  {
    RangeDotOfRowMinus(a, s, p, y, n);
    var da, dp := RangeDot(a, y, 0, n), RangeDot(p, y, 0, n);
    assert RangeDot(RowMinus(a, s, p), y, 0, n) == da - s * dp;
  }

  /** Subtracting multiples of equation `i` from the equations below it keeps
    * the solutions. */
  lemma EliminationKeepsSolutions(M: seq<seq<real>>, c: seq<real>, i: nat, n: nat)
    requires IsMatrix(M, n) && |c| == n && i < n && M[i][i] != 0.0
    ensures SameSolutions(Eliminate(M, i, n), EliminateRhs(M, c, i, n), M, c, n)
  {
    var E, e := Eliminate(M, i, n), EliminateRhs(M, c, i, n);
    forall y: seq<real> | |y| == n
      ensures Solves(E, y, e, n) <==> Solves(M, y, c, n)
    {
      EliminationKeepsSolutionsAt(M, c, i, n, y);
    }
  }

  lemma EliminationKeepsSolutionsAt(M: seq<seq<real>>, c: seq<real>, i: nat, n: nat, y: seq<real>)
    requires IsMatrix(M, n) && |c| == n && i < n && M[i][i] != 0.0 && |y| == n
    ensures Solves(Eliminate(M, i, n), y, EliminateRhs(M, c, i, n), n) <==> Solves(M, y, c, n)
  {
    var E, e := Eliminate(M, i, n), EliminateRhs(M, c, i, n);
    assert forall r :: 0 <= r <= i ==> E[r] == M[r] && e[r] == c[r];
    if RangeDot(M[i], y, 0, n) == c[i] {
      forall r | i < r < n
        ensures RangeDot(E[r], y, 0, n) == e[r] <==> RangeDot(M[r], y, 0, n) == c[r]
      {
        var s := M[r][i] / M[i][i];
        assert E[r] == RowMinus(M[r], s, M[i]) && e[r] == MinusMultiple(c[r], s, c[i]);
        EliminatedRow(M[r], M[i], s, y, n, c[r], c[i]);
      }
    }
  }

  /** After eliminating column `i`, the entries below the pivot are zero,
    * the zeros already below the diagonal in earlier columns stay, and rows
    * up to `i` are unchanged. */
  lemma EliminationZeroesColumn(M: seq<seq<real>>, i: nat, n: nat)
    requires IsMatrix(M, n) && i < n && M[i][i] != 0.0
    requires ZeroBelowDiagonal(M, n, i)
    ensures forall r :: i < r < n ==> Eliminate(M, i, n)[r][i] == 0.0
    ensures ZeroBelowDiagonal(Eliminate(M, i, n), n, i + 1)
    ensures forall r :: 0 <= r <= i ==> Eliminate(M, i, n)[r] == M[r]
  {
    var E := Eliminate(M, i, n);
    forall r | i < r < n
      ensures E[r][i] == 0.0
      ensures forall c :: 0 <= c < i ==> E[r][c] == 0.0
    {
      var s := M[r][i] / M[i][i];
      assert E[r] == RowMinus(M[r], s, M[i]);
      EliminatedRowZeroes(M[r], M[i], s, i, n);
    }
  }

  /** One eliminated row: the pivot column is cancelled, and the zeros that
    * the row and the pivot row share before it stay. */
  lemma EliminatedRowZeroes(a: seq<real>, p: seq<real>, s: real, i: nat, n: nat)
    requires |a| == n && |p| == n && i < n && p[i] != 0.0 && s == a[i] / p[i]
    requires forall c :: 0 <= c < i ==> a[c] == 0.0 && p[c] == 0.0
    ensures RowMinus(a, s, p)[i] == 0.0
    ensures forall c :: 0 <= c < i ==> RowMinus(a, s, p)[c] == 0.0
  {
    var d := RowMinus(a, s, p);
    PivotCancels(a[i], p[i], s);
    forall c | 0 <= c < i
      ensures d[c] == 0.0
    {
      ZeroLessMultipleOfZero(s);
    }
  }

  /** The multiplier `a / p` cancels the entry `a` against the pivot `p`. */
  lemma PivotCancels(a: real, p: real, s: real)
    requires p != 0.0 && s == a / p
    ensures a - s * p == 0.0
  {
  }

  /** A multiple of a zero taken from a zero leaves zero. */
  lemma ZeroLessMultipleOfZero(s: real)
    ensures 0.0 - s * 0.0 == 0.0
  {
  }

  /** Step 1.b as written: rows `i` and `j` exchanged from column `i` on;
    * the columns before `i` stay where they are. */
  function TailSwap(M: seq<seq<real>>, i: nat, j: nat, n: nat): (S: seq<seq<real>>)
    requires IsMatrix(M, n) && i < n && j < n
    ensures IsMatrix(S, n)
  {
    seq(n, r requires 0 <= r < n =>
      seq(n, k requires 0 <= k < n =>
        if k < i then M[r][k] else if r == i then M[j][k] else if r == j then M[i][k] else M[r][k]))
  }

  /** `row` less `s` times `pivot`, from column `from` on. */
  function RowMinusFrom(row: seq<real>, s: real, pivot: seq<real>, from: nat): (d: seq<real>)
    requires |row| == |pivot|
    ensures |d| == |row|
  {
    seq(|row|, q requires 0 <= q < |row| => if q < from then row[q] else row[q] - s * pivot[q])
  }

  /** Step 1.c as written, once rows `i + 1` to `k - 1` are done: each of
    * them less its multiple `M[r][i] / M[i][i]` of row `i`, from column `i`
    * on. */
  function EliminatedUpTo(M: seq<seq<real>>, i: nat, k: nat, n: nat): (E: seq<seq<real>>)
    requires IsMatrix(M, n) && i < n && M[i][i] != 0.0 && k <= n
    ensures IsMatrix(E, n)
  {
    seq(n, r requires 0 <= r < n =>
      if i < r < k then RowMinusFrom(M[r], M[r][i] / M[i][i], M[i], i) else M[r])
  }

  /** Step 1.c as written: every row below `i` updated from column `i` on. */
  function TailEliminate(M: seq<seq<real>>, i: nat, n: nat): (E: seq<seq<real>>)
    requires IsMatrix(M, n) && i < n && M[i][i] != 0.0
    ensures IsMatrix(E, n)
  {
    EliminatedUpTo(M, i, n, n)
  }

  lemma MatrixEquality(M: seq<seq<real>>, T: seq<seq<real>>, n: nat)
    requires IsMatrix(M, n) && IsMatrix(T, n)
    requires forall r, k :: 0 <= r < n && 0 <= k < n ==> M[r][k] == T[r][k]
    ensures M == T
  {
    forall r | 0 <= r < n
      ensures M[r] == T[r]
    {
      assert forall k :: 0 <= k < n ==> M[r][k] == T[r][k];
    }
  }

  method SwapRowTails(A: array2<real>, b: array<real>, i: nat, maxRow: nat)
    requires A.Length0 == A.Length1 == b.Length && i < b.Length && maxRow < b.Length
    modifies A, b
    ensures Rows(A) == TailSwap(old(Rows(A)), i, maxRow, b.Length)
    ensures b[..] == Swap(old(b[..]), i, maxRow)
  {
    var n := b.Length;
    ghost var M := Rows(A);
    var k := i;
    while k < n
      invariant i <= k <= n
      invariant forall r, c :: 0 <= r < n && 0 <= c < n ==>
        A[r, c] == (if c < i || k <= c then M[r][c]
                    else if r == i then M[maxRow][c]
                    else if r == maxRow then M[i][c]
                    else M[r][c])
      invariant b[..] == old(b[..])
    {
      A[i, k], A[maxRow, k] := A[maxRow, k], A[i, k];
      k := k + 1;
    }
    b[i], b[maxRow] := b[maxRow], b[i];
    MatrixEquality(Rows(A), TailSwap(M, i, maxRow, n), n);
  }

  /** The inner loop of step 1.c on row `k`, and its right-hand side: the
    * entries from column `i` on, and `b[k]`, less `scaling` times those of
    * row `i`. */
  method ReduceRow(A: array2<real>, b: array<real>, i: nat, k: nat, scaling: real)
    requires A.Length0 == A.Length1 == b.Length && i < k < A.Length0
    modifies A, b
    ensures Rows(A) == old(Rows(A))[k := RowMinusFrom(old(Rows(A))[k], scaling, old(Rows(A))[i], i)]
    ensures b[..] == old(b[..])[k := MinusMultiple(old(b[k]), scaling, old(b[i]))]
  {
    ghost var M, c := Rows(A), b[..];
    var j := i;
    while j < A.Length1
      invariant i <= j <= A.Length1
      invariant b[..] == c
      invariant forall r, q :: 0 <= r < A.Length0 && 0 <= q < A.Length1 ==>
        A[r, q] == (if r == k && i <= q < j then old(A[k, q]) - scaling * old(A[i, q]) else old(A[r, q]))
    {
      A[k, j] := A[k, j] - scaling * A[i, j];
      j := j + 1;
    }
    MatrixEquality(Rows(A), M[k := RowMinusFrom(M[k], scaling, M[i], i)], A.Length0);
    assert b[k] == c[k] && b[i] == c[i];
    b[k] := b[k] - scaling * b[i];
    assert b[k] == MinusMultiple(c[k], scaling, c[i]);
    assert b[..] == c[k := b[k]];
  }

  /** Step 1.c: for each row below `i`, the scaling is taken from the entry
    * in column `i` before the row is updated. */
  method EliminateBelow(A: array2<real>, b: array<real>, i: nat)
    requires A.Length0 == A.Length1 == b.Length && i < b.Length && A[i, i] != 0.0
    modifies A, b
    ensures Rows(A) == TailEliminate(old(Rows(A)), i, b.Length)
    ensures b[..] == EliminateRhs(old(Rows(A)), old(b[..]), i, b.Length)
  {
    var n := b.Length;
    ghost var M, c := Rows(A), b[..];
    var k := i + 1;
    while k < n
      invariant i + 1 <= k <= n
      invariant Rows(A) == EliminatedUpTo(M, i, k, n)
      invariant b[..] == EliminatedRhsUpTo(M, c, i, k, n)
    {
      var scaling := A[k, i] / A[i, i];
      ghost var E, C := Rows(A), b[..];
      assert E[k] == M[k] && E[i] == M[i] && C[k] == c[k] && C[i] == c[i];
      assert scaling == M[k][i] / M[i][i];
      ReduceRow(A, b, i, k, scaling);
      assert Rows(A) == E[k := RowMinusFrom(M[k], M[k][i] / M[i][i], M[i], i)];
      assert b[..] == C[k := MinusMultiple(c[k], M[k][i] / M[i][i], c[i])];
      k := k + 1;
    }
  }

  /** The first `k` rows, shared with `M`, keep their pivots in `T`. */
  lemma PivotsKept(M: seq<seq<real>>, T: seq<seq<real>>, n: nat, k: nat)
    requires IsMatrix(M, n) && IsMatrix(T, n) && k <= n
    requires PivotsAtLeast(M, n, k) && forall r :: 0 <= r < k ==> T[r] == M[r]
    ensures PivotsAtLeast(T, n, k)
  {
  }

  lemma SameSolutionsReflexive(M: seq<seq<real>>, c: seq<real>, n: nat)
    requires IsMatrix(M, n) && |c| == n
    ensures SameSolutions(M, c, M, c, n)
  {
  }

  lemma SolvesTransfer(M: seq<seq<real>>, c: seq<real>, M0: seq<seq<real>>, c0: seq<real>, n: nat, y: seq<real>)
    requires IsMatrix(M, n) && IsMatrix(M0, n) && |c| == n && |c0| == n && |y| == n
    requires SameSolutions(M, c, M0, c0, n) && Solves(M, y, c, n)
    ensures Solves(M0, y, c0, n)
  {
  }

  lemma SameSolutionsTransitive(M2: seq<seq<real>>, c2: seq<real>, M1: seq<seq<real>>, c1: seq<real>,
                                M0: seq<seq<real>>, c0: seq<real>, n: nat)
    requires IsMatrix(M2, n) && IsMatrix(M1, n) && IsMatrix(M0, n) && |c2| == n && |c1| == n && |c0| == n
    requires SameSolutions(M2, c2, M1, c1, n) && SameSolutions(M1, c1, M0, c0, n)
    ensures SameSolutions(M2, c2, M0, c0, n)
  {
    forall y: seq<real> | |y| == n
      ensures Solves(M2, y, c2, n) <==> Solves(M0, y, c0, n)
    {
      assert Solves(M2, y, c2, n) <==> Solves(M1, y, c1, n);
    }
  }

  /** The tail exchange of step 1.b is a full exchange of the two rows,
    * because their entries before column `i` are zero; it keeps the zeros
    * below the diagonal. */
  lemma FullSwap(M: seq<seq<real>>, n: nat, i: nat, j: nat)
    requires IsMatrix(M, n) && i <= j < n
    requires ZeroBelowDiagonal(M, n, i)
    ensures TailSwap(M, i, j, n) == Swap(M, i, j)
    ensures IsMatrix(Swap(M, i, j), n) && ZeroBelowDiagonal(Swap(M, i, j), n, i)
  {
    var T, S := TailSwap(M, i, j, n), Swap(M, i, j);
    forall r | 0 <= r < n
      ensures T[r] == S[r]
    {
      assert S[r] == (if r == j then M[i] else if r == i then M[j] else M[r]);
      forall k | 0 <= k < n
        ensures T[r][k] == S[r][k]
      {
        if k < i && (r == i || r == j) {
          assert M[i][k] == 0.0 && M[j][k] == 0.0;
        }
      }
    }
    forall r | 0 <= r < n
      ensures forall k :: 0 <= k < i && k < r ==> S[r][k] == 0.0
    {
      assert S[r] == (if r == j then M[i] else if r == i then M[j] else M[r]);
    }
  }

  /** The tail elimination of step 1.c is the whole-row elimination, because
    * row `i` is zero before column `i`. */
  lemma FullElimination(M: seq<seq<real>>, i: nat, n: nat)
    requires IsMatrix(M, n) && i < n && M[i][i] != 0.0
    requires ZeroBelowDiagonal(M, n, i)
    ensures TailEliminate(M, i, n) == Eliminate(M, i, n)
  {
    var T, E := TailEliminate(M, i, n), Eliminate(M, i, n);
    forall r | 0 <= r < n
      ensures T[r] == E[r]
    {
      forall k | 0 <= k < n
        ensures T[r][k] == E[r][k]
      {
        if i < r && k < i {
          assert M[i][k] == 0.0;
        }
      }
    }
  }

  /** The row step 1.a settles on after scanning rows `i` to `k - 1` of
    * column `i`: a later row replaces the current one only when its entry
    * is strictly larger in magnitude. */
  function PivotUpTo(M: seq<seq<real>>, n: nat, i: nat, k: nat): (r: nat)
    requires IsMatrix(M, n) && i < k <= n
    ensures i <= r < k
    ensures forall q :: i <= q < k ==> Abs(M[q][i]) <= Abs(M[r][i])
    ensures forall q :: i <= q < r ==> Abs(M[q][i]) < Abs(M[r][i])
    decreases k
  {
    if k == i + 1 then i
    else
      var m := PivotUpTo(M, n, i, k - 1);
      if Abs(M[k - 1][i]) > Abs(M[m][i]) then k - 1 else m
  }

  /** Column `i` can be eliminated: some entry at or below the diagonal
    * reaches machine epsilon in magnitude. */
  predicate PivotOk(M: seq<seq<real>>, n: nat, i: nat)
    requires IsMatrix(M, n) && i < n
  {
    exists k :: i <= k < n && Abs(M[k][i]) >= Epsilon
  }

  /** One column of step 1 on values: the exchange with the pivot row from
    * column `i` on, then the elimination below the pivot. */
  function ColumnStep(M: seq<seq<real>>, n: nat, i: nat): (E: seq<seq<real>>)
    requires IsMatrix(M, n) && i < n && PivotOk(M, n, i)
    ensures IsMatrix(E, n)
    ensures Abs(E[i][i]) >= Epsilon
  {
    var j := PivotUpTo(M, n, i, n);
    var S := TailSwap(M, i, j, n);
    assert S[i][i] == M[j][i];
    TailEliminate(S, i, n)
  }

  /** Step 1 on values after its first `k` columns: the matrix the column
    * steps leave, or `None` once a column's pivot falls below machine
    * epsilon (the `GEOS_ERROR_IF_LT_MSG` abort). */
  function Stage(M: seq<seq<real>>, n: nat, k: nat): (r: Option<seq<seq<real>>>)
    requires IsMatrix(M, n) && k <= n
    ensures r.Some? ==> IsMatrix(r.value, n)
    decreases k
  {
    if k == 0 then Some(M)
    else
      match Stage(M, n, k - 1)
      case None => None
      case Some(S) => if PivotOk(S, n, k - 1) then Some(ColumnStep(S, n, k - 1)) else None
  }

  /** Gaussian elimination succeeds: no column's pivot falls below machine
    * epsilon. */
  predicate EliminationSucceeds(M: seq<seq<real>>, n: nat)
    requires IsMatrix(M, n)
  {
    Stage(M, n, n).Some?
  }

  /** Once a column has failed, the elimination has failed. */
  lemma {:induction false} FailureIsFinal(M: seq<seq<real>>, n: nat, k: nat, k': nat)
    requires IsMatrix(M, n) && k <= k' <= n && Stage(M, n, k).None?
    ensures Stage(M, n, k').None?
    decreases k' - k
  {
    if k < k' {
      FailureIsFinal(M, n, k, k' - 1);
    }
  }

  /** A column whose entries at and below the diagonal all fall under
    * machine epsilon, once the earlier columns are done, ends the
    * elimination there (and, by `FailureIsFinal`, makes it fail whatever
    * the later columns hold). */
  lemma ColumnFails(M: seq<seq<real>>, n: nat, i: nat, S: seq<seq<real>>)
    requires IsMatrix(M, n) && i < n && Stage(M, n, i) == Some(S)
    requires forall k :: i <= k < n ==> Abs(S[k][i]) < Epsilon
    ensures Stage(M, n, i + 1).None?
  {
    assert !PivotOk(S, n, i);
  }

  /** One column of step 1: pivot search, row exchange, the singularity
    * check and the elimination. It keeps the solutions and adds column `i`
    * to the zeros below the diagonal. */
  method EliminateColumn(A: array2<real>, b: array<real>, i: nat) returns (ok: bool)
    requires A.Length0 == A.Length1 == b.Length && i < b.Length
    requires ZeroBelowDiagonal(Rows(A), b.Length, i) && PivotsAtLeast(Rows(A), b.Length, i)
    modifies A, b
    ensures SameSolutions(Rows(A), b[..], old(Rows(A)), old(b[..]), b.Length)
    ensures ok <==> PivotOk(old(Rows(A)), b.Length, i)
    ensures ok ==> Rows(A) == ColumnStep(old(Rows(A)), b.Length, i)
    ensures ok ==> ZeroBelowDiagonal(Rows(A), b.Length, i + 1) && PivotsAtLeast(Rows(A), b.Length, i + 1)
  {
    var n := b.Length;
    ghost var M0, c0 := Rows(A), b[..];
    var maxRow := FindPivot(A, i);
    SwapRowTails(A, b, i, maxRow);
    FullSwap(M0, n, i, maxRow);
    SwapKeepsSolutions(M0, c0, n, i, maxRow);
    ghost var M1, c1 := Rows(A), b[..];
    PivotsKept(M0, M1, n, i);
    assert A[i, i] == M0[maxRow][i];
    if Abs(A[i, i]) < Epsilon {
      return false;
    }
    EliminateBelow(A, b, i);
    FullElimination(M1, i, n);
    EliminationKeepsSolutions(M1, c1, i, n);
    EliminationZeroesColumn(M1, i, n);
    assert Abs(M1[i][i]) >= Epsilon;
    PivotsKept(M1, Rows(A), n, i + 1);
    SameSolutionsTransitive(Rows(A), b[..], M1, c1, M0, c0, n);
    ok := true;
  }

  /** Step 1 of `solveGaussianElimination`: column by column, stopping with
    * an error at the first pivot below epsilon. It fails exactly when the
    * elimination meets such a pivot; it keeps the solutions, and on success
    * leaves the matrix upper triangular with pivots of magnitude at least
    * epsilon. */
  method Triangularize(A: array2<real>, b: array<real>) returns (ok: bool)
    requires A.Length0 == A.Length1 == b.Length
    modifies A, b
    ensures ok <==> EliminationSucceeds(old(Rows(A)), b.Length)
    ensures ok ==> Stage(old(Rows(A)), b.Length, b.Length) == Some(Rows(A))
    ensures SameSolutions(Rows(A), b[..], old(Rows(A)), old(b[..]), b.Length)
    ensures ok ==> ZeroBelowDiagonal(Rows(A), b.Length, b.Length) && PivotsAtLeast(Rows(A), b.Length, b.Length)
  {
    var n := b.Length;
    ghost var M0, c0 := Rows(A), b[..];
    SameSolutionsReflexive(M0, c0, n);
    var i := 0;
    while i < n
      invariant 0 <= i <= n
      invariant SameSolutions(Rows(A), b[..], M0, c0, n)
      invariant ZeroBelowDiagonal(Rows(A), n, i) && PivotsAtLeast(Rows(A), n, i)
      invariant Stage(M0, n, i) == Some(Rows(A))
    {
      ghost var M1, c1 := Rows(A), b[..];
      var columnOk := EliminateColumn(A, b, i);
      SameSolutionsTransitive(Rows(A), b[..], M1, c1, M0, c0, n);
      if !columnOk {
        FailureIsFinal(M0, n, i + 1, n);
        return false;
      }
      i := i + 1;
    }
    ok := true;
  }

  /** `solveGaussianElimination`: step 1, then back substitution. It fails
    * exactly when step 1 meets a pivot below epsilon; on success `x` solves
    * the original system, and the matrix left behind is upper triangular
    * with pivots of magnitude at least epsilon. */
  method SolveGaussianElimination(A: array2<real>, b: array<real>, x: array<real>) returns (ok: bool)
    requires A.Length0 == A.Length1 == b.Length == x.Length && 0 < b.Length
    requires x != b
    modifies A, b, x
    ensures ok <==> EliminationSucceeds(old(Rows(A)), b.Length)
    ensures ok ==> Solves(old(Rows(A)), x[..], old(b[..]), b.Length)
    ensures ok ==> ZeroBelowDiagonal(Rows(A), b.Length, b.Length)
    ensures ok ==> forall r :: 0 <= r < b.Length ==> Abs(A[r, r]) >= Epsilon
  {
    ghost var M0, c0 := Rows(A), b[..];
    ok := Triangularize(A, b);
    if ok {
      BackSubstitute(A, b, x);
      SolvesTransfer(Rows(A), b[..], M0, c0, b.Length, x[..]);
    }
  }

  /** Step 2 of `solveGaussianElimination`: on the upper triangular system
    * step 1 leaves, back substitution solves the whole system. */
  method BackSubstitute(A: array2<real>, b: array<real>, x: array<real>)
    requires A.Length0 == A.Length1 == b.Length == x.Length && x != b
    requires ZeroBelowDiagonal(Rows(A), b.Length, b.Length) && PivotsAtLeast(Rows(A), b.Length, b.Length)
    modifies x
    ensures Solves(Rows(A), x[..], b[..], b.Length)
  {
    ghost var Mf, cf := Rows(A), b[..];
    SolveUpperTriangularSystem(A, b, x);
    assert Rows(A) == Mf && b[..] == cf;
    UpperTriangularSolves(Mf, x[..], cf, b.Length);
  }

  /** `solve`: a size in 1..9 (the `static_assert`s); 2 and 3 go to Cramer's
    * rule, which leaves `A` and `b` alone, every other size to Gaussian
    * elimination. */
  method Solve(A: array2<real>, b: array<real>, x: array<real>) returns (ok: bool)
    requires A.Length0 == A.Length1 == b.Length == x.Length && 0 < b.Length < 10
    requires x != b
    modifies A, b, x
    ensures ok ==> Solves(old(Rows(A)), x[..], old(b[..]), b.Length)
    ensures b.Length == 2 ==> ok == (Abs(Det2(old(Rows(A)))) >= Epsilon) && unchanged(A, b)
    ensures b.Length == 3 ==> ok == (Abs(Det3(old(Rows(A)))) >= Epsilon) && unchanged(A, b)
    ensures b.Length != 2 && b.Length != 3 ==> ok == EliminationSucceeds(old(Rows(A)), b.Length)
  {
    var n := b.Length;
    if n == 2 {
      var r := SolveTwoByTwo(Rows(A), b[..]);
      ok := r.Ok?;
      if ok {
        x[0], x[1] := r.value[0], r.value[1];
        assert x[..] == r.value;
      }
    } else if n == 3 {
      var r := SolveThreeByThree(Rows(A), b[..]);
      ThreeByThreeSolves(Rows(A), b[..]);
      ok := r.Ok?;
      if ok {
        x[0], x[1], x[2] := r.value[0], r.value[1], r.value[2];
        assert x[..] == r.value;
      }
    } else {
      ok := SolveGaussianElimination(A, b, x);
    }
  }
}

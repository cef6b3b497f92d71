/** Jacobian helpers of the team-kernel quadrature-point functions
  * (src/coreComponents/finiteElement/TeamKernelInterface/QuadraturePointKernelFunctions/QuadratureFunctionsHelper.hpp). */
module QuadratureFunctionsHelper {

  /** A `real64[3][3]`, row by row. */
  datatype Mat3 = Mat3(m00: real, m01: real, m02: real,
                       m10: real, m11: real, m12: real,
                       m20: real, m21: real, m22: real)
  {
    /** Entry `[i][j]`. */
    function At(i: nat, j: nat): real
      requires i < 3 && j < 3
    {
      if i == 0 then (if j == 0 then m00 else if j == 1 then m01 else m02)
      else if i == 1 then (if j == 0 then m10 else if j == 1 then m11 else m12)
      else (if j == 0 then m20 else if j == 1 then m21 else m22)
    }
  }

  /** The signed complementary 2x2 minor of entry (r, c), written with cyclic
    * indices so that the sign comes out by itself. */
  function Cofactor(J: Mat3, r: nat, c: nat): real
    requires r < 3 && c < 3
  {
    var r1, c1 := Next(r), Next(c);
    var r2, c2 := Next(r1), Next(c1);
    J.At(r1, c1) * J.At(r2, c2) - J.At(r1, c2) * J.At(r2, c1)
  }

  /** The next index, cyclically: 0, 1, 2, 0, ... */
  function Next(i: nat): (j: nat)
    requires i < 3
    ensures j < 3
  {
    if i == 2 then 0 else i + 1
  }

  /** `a * b - c * d`, the form in which `adjugate` writes each entry. */
  function Minor(a: real, b: real, c: real, d: real): real {
    (a * b) - (c * d)
  }

  /** `determinant`: the cofactor expansion of the code, along the first
    * column. It equals the expansion along the first row. */
  function Determinant(J: Mat3): real
  {
    J.m00 * Minor(J.m11, J.m22, J.m21, J.m12)
    - J.m10 * Minor(J.m01, J.m22, J.m21, J.m02)
    + J.m20 * Minor(J.m01, J.m12, J.m11, J.m02)
  }

  /** The determinant is the cofactor expansion along the first column, and
    * equally along the first row. */
  lemma DeterminantExpansions(J: Mat3)
    ensures Determinant(J) == J.At(0, 0) * Cofactor(J, 0, 0) + J.At(1, 0) * Cofactor(J, 1, 0) + J.At(2, 0) * Cofactor(J, 2, 0)
    ensures Determinant(J) == J.At(0, 0) * Cofactor(J, 0, 0) + J.At(0, 1) * Cofactor(J, 0, 1) + J.At(0, 2) * Cofactor(J, 0, 2)
  {
  }

  /** The classical adjugate: entry (i, j) is the cofactor of entry (j, i). */
  ghost predicate IsAdjugate(A: Mat3, J: Mat3) {
    && A.At(0, 0) == Cofactor(J, 0, 0) && A.At(0, 1) == Cofactor(J, 1, 0) && A.At(0, 2) == Cofactor(J, 2, 0)
    && A.At(1, 0) == Cofactor(J, 0, 1) && A.At(1, 1) == Cofactor(J, 1, 1) && A.At(1, 2) == Cofactor(J, 2, 1)
    && A.At(2, 0) == Cofactor(J, 0, 2) && A.At(2, 1) == Cofactor(J, 1, 2) && A.At(2, 2) == Cofactor(J, 2, 2)
  }

  /** `adjugate`: the nine entries written into the output array. */
  function Adjugate(J: Mat3): (AdjJ: Mat3)
  {
    Mat3(Minor(J.m11, J.m22, J.m12, J.m21),
         Minor(J.m21, J.m02, J.m01, J.m22),
         Minor(J.m01, J.m12, J.m11, J.m02),
         Minor(J.m20, J.m12, J.m10, J.m22),
         Minor(J.m00, J.m22, J.m02, J.m20),
         Minor(J.m10, J.m02, J.m00, J.m12),
         Minor(J.m10, J.m21, J.m20, J.m11),
         Minor(J.m20, J.m01, J.m00, J.m21),
         Minor(J.m00, J.m11, J.m01, J.m10))
  }

  /** `adjugate` writes the transpose of the cofactor matrix. */
  lemma AdjugateIsCofactorTranspose(J: Mat3)
    ensures IsAdjugate(Adjugate(J), J)
  {
  }

  /** Row 0 of `adj(J) J` is row 0 of `det(J) I`. */
  lemma AdjugateTimesJRow0(J: Mat3)
    ensures Adjugate(J).m00 * J.m00 + Adjugate(J).m01 * J.m10 + Adjugate(J).m02 * J.m20 == Determinant(J)
    ensures Adjugate(J).m00 * J.m01 + Adjugate(J).m01 * J.m11 + Adjugate(J).m02 * J.m21 == 0.0
    ensures Adjugate(J).m00 * J.m02 + Adjugate(J).m01 * J.m12 + Adjugate(J).m02 * J.m22 == 0.0
  {
    AdjugateRowProducts0(J.m00, J.m01, J.m02, J.m10, J.m11, J.m12, J.m20, J.m21, J.m22,
                         Adjugate(J).m00, Adjugate(J).m01, Adjugate(J).m02, Determinant(J),
                         Minor(J.m11, J.m22, J.m21, J.m12), Minor(J.m01, J.m22, J.m21, J.m02), Minor(J.m01, J.m12, J.m11, J.m02));
  }

  /** Row 0 of the product on plain numbers: `a0`, `a1`, `a2` are the entries
    * of row 0 of the adjugate, `d` is the determinant and `c0`, `c1`, `c2` are the
    * minors of its expansion. */
  lemma AdjugateRowProducts0(m00: real, m01: real, m02: real, m10: real, m11: real, m12: real, m20: real, m21: real, m22: real,
                              a0: real, a1: real, a2: real, d: real, c0: real, c1: real, c2: real)
    requires a0 == (m11 * m22) - (m12 * m21) && a1 == (m21 * m02) - (m01 * m22) && a2 == (m01 * m12) - (m11 * m02)
    requires c0 == (m11 * m22) - (m21 * m12) && c1 == (m01 * m22) - (m21 * m02) && c2 == (m01 * m12) - (m11 * m02)
    requires d == m00 * c0 - m10 * c1 + m20 * c2
    ensures a0 * m00 + a1 * m10 + a2 * m20 == d
    ensures a0 * m01 + a1 * m11 + a2 * m21 == 0.0
    ensures a0 * m02 + a1 * m12 + a2 * m22 == 0.0
  {
  }

  /** Row 1 of `adj(J) J` is row 1 of `det(J) I`. */
  lemma AdjugateTimesJRow1(J: Mat3)
    ensures Adjugate(J).m10 * J.m00 + Adjugate(J).m11 * J.m10 + Adjugate(J).m12 * J.m20 == 0.0
    ensures Adjugate(J).m10 * J.m01 + Adjugate(J).m11 * J.m11 + Adjugate(J).m12 * J.m21 == Determinant(J)
    ensures Adjugate(J).m10 * J.m02 + Adjugate(J).m11 * J.m12 + Adjugate(J).m12 * J.m22 == 0.0
  {
    AdjugateRowProducts1(J.m00, J.m01, J.m02, J.m10, J.m11, J.m12, J.m20, J.m21, J.m22,
                         Adjugate(J).m10, Adjugate(J).m11, Adjugate(J).m12, Determinant(J),
                         Minor(J.m11, J.m22, J.m21, J.m12), Minor(J.m01, J.m22, J.m21, J.m02), Minor(J.m01, J.m12, J.m11, J.m02));
  }

  /** Row 1 of the product on plain numbers: `a0`, `a1`, `a2` are the entries
    * of row 1 of the adjugate, `d` is the determinant and `c0`, `c1`, `c2` are the
    * minors of its expansion. */
  lemma AdjugateRowProducts1(m00: real, m01: real, m02: real, m10: real, m11: real, m12: real, m20: real, m21: real, m22: real,
                              a0: real, a1: real, a2: real, d: real, c0: real, c1: real, c2: real)
    requires a0 == (m20 * m12) - (m10 * m22) && a1 == (m00 * m22) - (m02 * m20) && a2 == (m10 * m02) - (m00 * m12)
    requires c0 == (m11 * m22) - (m21 * m12) && c1 == (m01 * m22) - (m21 * m02) && c2 == (m01 * m12) - (m11 * m02)
    requires d == m00 * c0 - m10 * c1 + m20 * c2
    ensures a0 * m00 + a1 * m10 + a2 * m20 == 0.0
    ensures a0 * m01 + a1 * m11 + a2 * m21 == d
    ensures a0 * m02 + a1 * m12 + a2 * m22 == 0.0
  {
  }

  /** Row 2 of `adj(J) J` is row 2 of `det(J) I`. */
  lemma AdjugateTimesJRow2(J: Mat3)
    ensures Adjugate(J).m20 * J.m00 + Adjugate(J).m21 * J.m10 + Adjugate(J).m22 * J.m20 == 0.0
    ensures Adjugate(J).m20 * J.m01 + Adjugate(J).m21 * J.m11 + Adjugate(J).m22 * J.m21 == 0.0
    ensures Adjugate(J).m20 * J.m02 + Adjugate(J).m21 * J.m12 + Adjugate(J).m22 * J.m22 == Determinant(J)
  {
    AdjugateRowProducts2(J.m00, J.m01, J.m02, J.m10, J.m11, J.m12, J.m20, J.m21, J.m22,
                         Adjugate(J).m20, Adjugate(J).m21, Adjugate(J).m22, Determinant(J),
                         Minor(J.m11, J.m22, J.m21, J.m12), Minor(J.m01, J.m22, J.m21, J.m02), Minor(J.m01, J.m12, J.m11, J.m02));
  }

  /** Row 2 of the product on plain numbers: `a0`, `a1`, `a2` are the entries
    * of row 2 of the adjugate, `d` is the determinant and `c0`, `c1`, `c2` are the
    * minors of its expansion. */
  lemma AdjugateRowProducts2(m00: real, m01: real, m02: real, m10: real, m11: real, m12: real, m20: real, m21: real, m22: real,
                              a0: real, a1: real, a2: real, d: real, c0: real, c1: real, c2: real)
    requires a0 == (m10 * m21) - (m20 * m11) && a1 == (m20 * m01) - (m00 * m21) && a2 == (m00 * m11) - (m01 * m10)
    requires c0 == (m11 * m22) - (m21 * m12) && c1 == (m01 * m22) - (m21 * m02) && c2 == (m01 * m12) - (m11 * m02)
    requires d == m00 * c0 - m10 * c1 + m20 * c2
    ensures a0 * m00 + a1 * m10 + a2 * m20 == 0.0
    ensures a0 * m01 + a1 * m11 + a2 * m21 == 0.0
    ensures a0 * m02 + a1 * m12 + a2 * m22 == d
  {
  }

  /** Column 0 of `J adj(J)` is column 0 of `det(J) I`. */
  lemma JTimesAdjugateColumn0(J: Mat3)
    ensures J.m00 * Adjugate(J).m00 + J.m01 * Adjugate(J).m10 + J.m02 * Adjugate(J).m20 == Determinant(J)
    ensures J.m10 * Adjugate(J).m00 + J.m11 * Adjugate(J).m10 + J.m12 * Adjugate(J).m20 == 0.0
    ensures J.m20 * Adjugate(J).m00 + J.m21 * Adjugate(J).m10 + J.m22 * Adjugate(J).m20 == 0.0
  {
    AdjugateColumnProducts0(J.m00, J.m01, J.m02, J.m10, J.m11, J.m12, J.m20, J.m21, J.m22,
                            Adjugate(J).m00, Adjugate(J).m10, Adjugate(J).m20, Determinant(J),
                         Minor(J.m11, J.m22, J.m21, J.m12), Minor(J.m01, J.m22, J.m21, J.m02), Minor(J.m01, J.m12, J.m11, J.m02));
  }

  /** Column 0 of the product on plain numbers: `a0`, `a1`, `a2` are the
    * entries of column 0 of the adjugate, `d` is the determinant and `c0`, `c1`, `c2` are the
    * minors of its expansion. */
  lemma AdjugateColumnProducts0(m00: real, m01: real, m02: real, m10: real, m11: real, m12: real, m20: real, m21: real, m22: real,
                                 a0: real, a1: real, a2: real, d: real, c0: real, c1: real, c2: real)
    requires a0 == (m11 * m22) - (m12 * m21) && a1 == (m20 * m12) - (m10 * m22) && a2 == (m10 * m21) - (m20 * m11)
    requires c0 == (m11 * m22) - (m21 * m12) && c1 == (m01 * m22) - (m21 * m02) && c2 == (m01 * m12) - (m11 * m02)
    requires d == m00 * c0 - m10 * c1 + m20 * c2
    ensures m00 * a0 + m01 * a1 + m02 * a2 == d
    ensures m10 * a0 + m11 * a1 + m12 * a2 == 0.0
    ensures m20 * a0 + m21 * a1 + m22 * a2 == 0.0
  {
  }

  /** Column 1 of `J adj(J)` is column 1 of `det(J) I`. */
  lemma JTimesAdjugateColumn1(J: Mat3)
    ensures J.m00 * Adjugate(J).m01 + J.m01 * Adjugate(J).m11 + J.m02 * Adjugate(J).m21 == 0.0
    ensures J.m10 * Adjugate(J).m01 + J.m11 * Adjugate(J).m11 + J.m12 * Adjugate(J).m21 == Determinant(J)
    ensures J.m20 * Adjugate(J).m01 + J.m21 * Adjugate(J).m11 + J.m22 * Adjugate(J).m21 == 0.0
  {
    AdjugateColumnProducts1(J.m00, J.m01, J.m02, J.m10, J.m11, J.m12, J.m20, J.m21, J.m22,
                            Adjugate(J).m01, Adjugate(J).m11, Adjugate(J).m21, Determinant(J),
                         Minor(J.m11, J.m22, J.m21, J.m12), Minor(J.m01, J.m22, J.m21, J.m02), Minor(J.m01, J.m12, J.m11, J.m02));
  }

  /** Column 1 of the product on plain numbers: `a0`, `a1`, `a2` are the
    * entries of column 1 of the adjugate, `d` is the determinant and `c0`, `c1`, `c2` are the
    * minors of its expansion. */
  lemma AdjugateColumnProducts1(m00: real, m01: real, m02: real, m10: real, m11: real, m12: real, m20: real, m21: real, m22: real,
                                 a0: real, a1: real, a2: real, d: real, c0: real, c1: real, c2: real)
    requires a0 == (m21 * m02) - (m01 * m22) && a1 == (m00 * m22) - (m02 * m20) && a2 == (m20 * m01) - (m00 * m21)
    requires c0 == (m11 * m22) - (m21 * m12) && c1 == (m01 * m22) - (m21 * m02) && c2 == (m01 * m12) - (m11 * m02)
    requires d == m00 * c0 - m10 * c1 + m20 * c2
    ensures m00 * a0 + m01 * a1 + m02 * a2 == 0.0
    ensures m10 * a0 + m11 * a1 + m12 * a2 == d
    ensures m20 * a0 + m21 * a1 + m22 * a2 == 0.0
  {
  }

  /** Column 2 of `J adj(J)` is column 2 of `det(J) I`. */
  lemma JTimesAdjugateColumn2(J: Mat3)
    ensures J.m00 * Adjugate(J).m02 + J.m01 * Adjugate(J).m12 + J.m02 * Adjugate(J).m22 == 0.0
    ensures J.m10 * Adjugate(J).m02 + J.m11 * Adjugate(J).m12 + J.m12 * Adjugate(J).m22 == 0.0
    ensures J.m20 * Adjugate(J).m02 + J.m21 * Adjugate(J).m12 + J.m22 * Adjugate(J).m22 == Determinant(J)
  {
    AdjugateColumnProducts2(J.m00, J.m01, J.m02, J.m10, J.m11, J.m12, J.m20, J.m21, J.m22,
                            Adjugate(J).m02, Adjugate(J).m12, Adjugate(J).m22, Determinant(J),
                         Minor(J.m11, J.m22, J.m21, J.m12), Minor(J.m01, J.m22, J.m21, J.m02), Minor(J.m01, J.m12, J.m11, J.m02));
  }

  /** Column 2 of the product on plain numbers: `a0`, `a1`, `a2` are the
    * entries of column 2 of the adjugate, `d` is the determinant and `c0`, `c1`, `c2` are the
    * minors of its expansion. */
  lemma AdjugateColumnProducts2(m00: real, m01: real, m02: real, m10: real, m11: real, m12: real, m20: real, m21: real, m22: real,
                                 a0: real, a1: real, a2: real, d: real, c0: real, c1: real, c2: real)
    requires a0 == (m01 * m12) - (m11 * m02) && a1 == (m10 * m02) - (m00 * m12) && a2 == (m00 * m11) - (m01 * m10)
    requires c0 == (m11 * m22) - (m21 * m12) && c1 == (m01 * m22) - (m21 * m02) && c2 == (m01 * m12) - (m11 * m02)
    requires d == m00 * c0 - m10 * c1 + m20 * c2
    ensures m00 * a0 + m01 * a1 + m02 * a2 == 0.0
    ensures m10 * a0 + m11 * a1 + m12 * a2 == 0.0
    ensures m20 * a0 + m21 * a1 + m22 * a2 == d
  {
  }

  /** Over exact reals the adjugate is the inverse up to the determinant:
    * `adj(J) J = J adj(J) = det(J) I`, entry by entry. */
  lemma AdjugateIsScaledInverse(J: Mat3)
    ensures Adjugate(J).m00 * J.m00 + Adjugate(J).m01 * J.m10 + Adjugate(J).m02 * J.m20 == Determinant(J)
    ensures Adjugate(J).m00 * J.m01 + Adjugate(J).m01 * J.m11 + Adjugate(J).m02 * J.m21 == 0.0
    ensures Adjugate(J).m00 * J.m02 + Adjugate(J).m01 * J.m12 + Adjugate(J).m02 * J.m22 == 0.0
    ensures Adjugate(J).m10 * J.m00 + Adjugate(J).m11 * J.m10 + Adjugate(J).m12 * J.m20 == 0.0
    ensures Adjugate(J).m10 * J.m01 + Adjugate(J).m11 * J.m11 + Adjugate(J).m12 * J.m21 == Determinant(J)
    ensures Adjugate(J).m10 * J.m02 + Adjugate(J).m11 * J.m12 + Adjugate(J).m12 * J.m22 == 0.0
    ensures Adjugate(J).m20 * J.m00 + Adjugate(J).m21 * J.m10 + Adjugate(J).m22 * J.m20 == 0.0
    ensures Adjugate(J).m20 * J.m01 + Adjugate(J).m21 * J.m11 + Adjugate(J).m22 * J.m21 == 0.0
    ensures Adjugate(J).m20 * J.m02 + Adjugate(J).m21 * J.m12 + Adjugate(J).m22 * J.m22 == Determinant(J)
    ensures J.m00 * Adjugate(J).m00 + J.m01 * Adjugate(J).m10 + J.m02 * Adjugate(J).m20 == Determinant(J)
    ensures J.m10 * Adjugate(J).m00 + J.m11 * Adjugate(J).m10 + J.m12 * Adjugate(J).m20 == 0.0
    ensures J.m20 * Adjugate(J).m00 + J.m21 * Adjugate(J).m10 + J.m22 * Adjugate(J).m20 == 0.0
    ensures J.m00 * Adjugate(J).m01 + J.m01 * Adjugate(J).m11 + J.m02 * Adjugate(J).m21 == 0.0
    ensures J.m10 * Adjugate(J).m01 + J.m11 * Adjugate(J).m11 + J.m12 * Adjugate(J).m21 == Determinant(J)
    ensures J.m20 * Adjugate(J).m01 + J.m21 * Adjugate(J).m11 + J.m22 * Adjugate(J).m21 == 0.0
    ensures J.m00 * Adjugate(J).m02 + J.m01 * Adjugate(J).m12 + J.m02 * Adjugate(J).m22 == 0.0
    ensures J.m10 * Adjugate(J).m02 + J.m11 * Adjugate(J).m12 + J.m12 * Adjugate(J).m22 == 0.0
    ensures J.m20 * Adjugate(J).m02 + J.m21 * Adjugate(J).m12 + J.m22 * Adjugate(J).m22 == Determinant(J)
  {
    AdjugateTimesJRow0(J);
    AdjugateTimesJRow1(J);
    AdjugateTimesJRow2(J);
    JTimesAdjugateColumn0(J);
    JTimesAdjugateColumn1(J);
    JTimesAdjugateColumn2(J);
  }

  const Identity: Mat3 := Mat3(1.0, 0.0, 0.0, 0.0, 1.0, 0.0, 0.0, 0.0, 1.0)

  /** The identity has determinant 1 and is its own adjugate. */
  lemma IdentityDeterminantAndAdjugate()
    ensures Determinant(Identity) == 1.0
    ensures Adjugate(Identity) == Identity
  {
  }

  /** The same matrix as the row-major nested sequence that the generic
    * `computePhysicalGradient` indexes. */
  function ToSeq(M: Mat3): (S: seq<seq<real>>)
    ensures IsMatrix(S, 3, 3)
    ensures forall i, j | 0 <= i < 3 && 0 <= j < 3 :: S[i][j] == M.At(i, j)
  {
    [[M.m00, M.m01, M.m02], [M.m10, M.m11, M.m12], [M.m20, M.m21, M.m22]]
  }

  /** `M` is a `rows x cols` array. */
  predicate IsMatrix(M: seq<seq<real>>, rows: nat, cols: nat) {
    |M| == rows && forall r | 0 <= r < rows :: |M[r]| == cols
  }

  /** `sum_{j < n} AdjJ[j][i] * grad[c][j]`, the inner loop's value after
    * `n` steps. */
  function Contraction(adjJ: seq<seq<real>>, grad: seq<seq<real>>, c: nat, i: nat, n: nat): real
    requires n <= |adjJ| && c < |grad| && n <= |grad[c]|
    requires forall j | 0 <= j < n :: i < |adjJ[j]|
  {
    if n == 0 then 0.0 else Contraction(adjJ, grad, c, i, n - 1) + adjJ[n - 1][i] * grad[c][n - 1]
  }

  /** `grad_phys[c][i] = detJinv * sum_j AdjJ[j][i] * grad[c][j]`. */
  function PhysicalGradient(detJinv: real, adjJ: seq<seq<real>>, grad: seq<seq<real>>,
                            refDim: nat, physDim: nat, numComp: nat): (gradPhys: seq<seq<real>>)
    requires IsMatrix(adjJ, refDim, physDim) && IsMatrix(grad, numComp, refDim)
    ensures IsMatrix(gradPhys, numComp, physDim)
  {
    seq(numComp, c requires 0 <= c < numComp =>
      seq(physDim, i requires 0 <= i < physDim => detJinv * Contraction(adjJ, grad, c, i, refDim)))
  }

  /** `computePhysicalGradient`: three nested loops over components, physical
    * directions and reference directions. */
  method ComputePhysicalGradient(detJinv: real, adjJ: seq<seq<real>>, grad: seq<seq<real>>,
                                 refDim: nat, physDim: nat, numComp: nat)
    returns (gradPhys: seq<seq<real>>)
    requires IsMatrix(adjJ, refDim, physDim) && IsMatrix(grad, numComp, refDim)
    ensures gradPhys == PhysicalGradient(detJinv, adjJ, grad, refDim, physDim, numComp)
  {
    ghost var spec := PhysicalGradient(detJinv, adjJ, grad, refDim, physDim, numComp);
    gradPhys := [];
    var c := 0;
    while c < numComp
      invariant c <= numComp
      invariant gradPhys == spec[..c]
    {
      var row: seq<real> := [];
      var i := 0;
      while i < physDim
        invariant i <= physDim
        invariant row == spec[c][..i]
      {
        var val := 0.0;
        var j := 0;
        while j < refDim
          invariant j <= refDim
          invariant val == Contraction(adjJ, grad, c, i, j)
        {
          val := val + adjJ[j][i] * grad[c][j];
          j := j + 1;
        }
        assert spec[c][i] == detJinv * val;
        assert spec[c][..i + 1] == spec[c][..i] + [spec[c][i]];
        row := row + [detJinv * val];
        i := i + 1;
      }
      assert row == spec[c];
      gradPhys := gradPhys + [row];
      c := c + 1;
    }
  }

  /** `alpha * X + beta * Y`, entry by entry. */
  function Combine(alpha: real, X: seq<seq<real>>, beta: real, Y: seq<seq<real>>, rows: nat, cols: nat): (Z: seq<seq<real>>)
    requires IsMatrix(X, rows, cols) && IsMatrix(Y, rows, cols)
    ensures IsMatrix(Z, rows, cols)
  {
    seq(rows, r requires 0 <= r < rows => seq(cols, k requires 0 <= k < cols => alpha * X[r][k] + beta * Y[r][k]))
  }

  /** The inner sum is linear in `grad`. */
  lemma {:induction false} ContractionLinear(adjJ: seq<seq<real>>, alpha: real, g1: seq<seq<real>>, beta: real, g2: seq<seq<real>>,
                                            refDim: nat, physDim: nat, numComp: nat, c: nat, i: nat, n: nat)
    requires IsMatrix(adjJ, refDim, physDim) && IsMatrix(g1, numComp, refDim) && IsMatrix(g2, numComp, refDim)
    requires c < numComp && i < physDim && n <= refDim
    ensures Contraction(adjJ, Combine(alpha, g1, beta, g2, numComp, refDim), c, i, n)
         == alpha * Contraction(adjJ, g1, c, i, n) + beta * Contraction(adjJ, g2, c, i, n)
  {
    if n > 0 {
      ContractionLinear(adjJ, alpha, g1, beta, g2, refDim, physDim, numComp, c, i, n - 1);
      var g := Combine(alpha, g1, beta, g2, numComp, refDim);
      var x, y1, y2 := adjJ[n - 1][i], g1[c][n - 1], g2[c][n - 1];
      assert g[c][n - 1] == alpha * y1 + beta * y2;
      assert x * (alpha * y1 + beta * y2) == alpha * (x * y1) + beta * (x * y2);
    }
  }

  /** `computePhysicalGradient` is linear in the reference gradient, and
    * therefore sends a zero gradient to zero. */
  lemma PhysicalGradientLinear(detJinv: real, adjJ: seq<seq<real>>, alpha: real, g1: seq<seq<real>>, beta: real, g2: seq<seq<real>>,
                               refDim: nat, physDim: nat, numComp: nat)
    requires IsMatrix(adjJ, refDim, physDim) && IsMatrix(g1, numComp, refDim) && IsMatrix(g2, numComp, refDim)
    ensures PhysicalGradient(detJinv, adjJ, Combine(alpha, g1, beta, g2, numComp, refDim), refDim, physDim, numComp)
         == Combine(alpha, PhysicalGradient(detJinv, adjJ, g1, refDim, physDim, numComp),
                    beta, PhysicalGradient(detJinv, adjJ, g2, refDim, physDim, numComp), numComp, physDim)
  {
    var g := Combine(alpha, g1, beta, g2, numComp, refDim);
    var L := PhysicalGradient(detJinv, adjJ, g, refDim, physDim, numComp);
    var P1 := PhysicalGradient(detJinv, adjJ, g1, refDim, physDim, numComp);
    var P2 := PhysicalGradient(detJinv, adjJ, g2, refDim, physDim, numComp);
    var R := Combine(alpha, P1, beta, P2, numComp, physDim);
    forall c | 0 <= c < numComp
      ensures L[c] == R[c]
    {
      forall i | 0 <= i < physDim
        ensures L[c][i] == R[c][i]
      {
        ContractionLinear(adjJ, alpha, g1, beta, g2, refDim, physDim, numComp, c, i, refDim);
        var s1, s2 := Contraction(adjJ, g1, c, i, refDim), Contraction(adjJ, g2, c, i, refDim);
        assert detJinv * (alpha * s1 + beta * s2) == alpha * (detJinv * s1) + beta * (detJinv * s2);
      }
    }
  }

  /** A zero reference gradient gives a zero physical gradient. */
  lemma PhysicalGradientOfZero(detJinv: real, adjJ: seq<seq<real>>, grad: seq<seq<real>>, refDim: nat, physDim: nat, numComp: nat)
    requires IsMatrix(adjJ, refDim, physDim) && IsMatrix(grad, numComp, refDim)
    requires forall c, j | 0 <= c < numComp && 0 <= j < refDim :: grad[c][j] == 0.0
    ensures forall c, i | 0 <= c < numComp && 0 <= i < physDim ::
      PhysicalGradient(detJinv, adjJ, grad, refDim, physDim, numComp)[c][i] == 0.0
  {
    PhysicalGradientLinear(detJinv, adjJ, 0.0, grad, 0.0, grad, refDim, physDim, numComp);
    var g := Combine(0.0, grad, 0.0, grad, numComp, refDim);
    assert g == grad by {
      forall c | 0 <= c < numComp
        ensures g[c] == grad[c]
      {
      }
    }
  }

  /** For an undistorted element (`AdjJ` the identity, `detJinv = 1`) the
    * physical gradient is the reference gradient. */
  lemma PhysicalGradientOfIdentity(grad: seq<seq<real>>, numComp: nat)
    requires IsMatrix(grad, numComp, 3)
    ensures PhysicalGradient(1.0, ToSeq(Identity), grad, 3, 3, numComp) == grad
  {
    var S := ToSeq(Identity);
    var P := PhysicalGradient(1.0, S, grad, 3, 3, numComp);
    forall c | 0 <= c < numComp
      ensures P[c] == grad[c]
    {
      forall i | 0 <= i < 3
        ensures P[c][i] == grad[c][i]
      {
        assert Contraction(S, grad, c, i, 1) == S[0][i] * grad[c][0];
        assert Contraction(S, grad, c, i, 3) == S[0][i] * grad[c][0] + S[1][i] * grad[c][1] + S[2][i] * grad[c][2];
        if i == 0 {
          assert S[0][i] == 1.0 && S[1][i] == 0.0 && S[2][i] == 0.0;
        } else if i == 1 {
          assert S[0][i] == 0.0 && S[1][i] == 1.0 && S[2][i] == 0.0;
        } else {
          assert S[0][i] == 0.0 && S[1][i] == 0.0 && S[2][i] == 1.0;
        }
      }
    }
  }

  /** `M` transposed. */
  function Transpose(M: Mat3): (T: Mat3)
    ensures forall i, j | 0 <= i < 3 && 0 <= j < 3 :: T.At(i, j) == M.At(j, i)
  {
    Mat3(M.m00, M.m10, M.m20, M.m01, M.m11, M.m21, M.m02, M.m12, M.m22)
  }

  /** `computeStrain`: the symmetric gradient in Voigt order
    * (xx, yy, zz, xy, xz, yz) with engineering shear components. */
  function ComputeStrain(gradPhys: Mat3): (symmStrain: seq<real>)
    ensures |symmStrain| == 6
    ensures forall d | 0 <= d < 3 :: symmStrain[d] == gradPhys.At(d, d)
    ensures symmStrain[3] == 2.0 * ((gradPhys.At(0, 1) + gradPhys.At(1, 0)) / 2.0)
    ensures symmStrain[4] == 2.0 * ((gradPhys.At(0, 2) + gradPhys.At(2, 0)) / 2.0)
    ensures symmStrain[5] == 2.0 * ((gradPhys.At(1, 2) + gradPhys.At(2, 1)) / 2.0)
  {
    [gradPhys.m00, gradPhys.m11, gradPhys.m22,
     gradPhys.m01 + gradPhys.m10, gradPhys.m02 + gradPhys.m20, gradPhys.m12 + gradPhys.m21]
  }

  /** A gradient and its transpose give the same strain. */
  lemma StrainOfTranspose(gradPhys: Mat3)
    ensures ComputeStrain(Transpose(gradPhys)) == ComputeStrain(gradPhys)
  {
  }

  /** A skew-symmetric gradient (a rigid rotation) produces no strain. */
  lemma StrainOfSkewIsZero(W: Mat3)
    requires Transpose(W) == Mat3(-W.m00, -W.m01, -W.m02, -W.m10, -W.m11, -W.m12, -W.m20, -W.m21, -W.m22)
    ensures ComputeStrain(W) == [0.0, 0.0, 0.0, 0.0, 0.0, 0.0]
  {
  }
}

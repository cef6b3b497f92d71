/** The element kernel of the single-phase poromechanics solver with damage
  * (src/coreComponents/physicsSolvers/multiphysics/poromechanicsKernels/SinglePhasePoromechanicsDamage_impl.hpp):
  * the point-wise body force and fluid mass increment, `setup`, `complete`
  * and the launcher that runs them element by element.
  *
  * Each element has `numSupportPoints` nodes and three displacement DOFs per
  * node, so its momentum block has `3 * numSupportPoints` rows; the mass
  * block is one row at the element's pressure DOF. The kernel's stack is the
  * value `Stack`; the quadrature-point kernel, whose body is driven by the
  * constitutive update, is the parameter `step`. */
module PoromechanicsDamage {
  import opened GlobalAssembly

  // ---------------------------------------------------------------------
  // Point-wise terms of smallStrainUpdate
  // ---------------------------------------------------------------------

  function ScaledCopy(v: Vec3, s: real): Vec3 {
    Vec3(s * v.x, s * v.y, s * v.z)
  }

  function Plus(u: Vec3, v: Vec3): Vec3 {
    Vec3(u.x + v.x, u.y + v.y, u.z + v.z)
  }

  /** What the constitutive update and the density fields give at one
    * quadrature point. */
  datatype PointState = PointState(
    porosity: real, porosity_n: real,
    dPorosity_dVolStrain: real, dPorosity_dPressure: real,
    solidDensity: real, dSolidDensity_dPressure: real,
    fluidDensity: real, fluidDensity_n: real, dFluidDensity_dPressure: real)

  datatype BodyForce = BodyForce(bodyForce: Vec3, dBodyForce_dVolStrainIncrement: Vec3, dBodyForce_dPressure: Vec3)

  datatype FluidIncrement = FluidIncrement(fluidMassIncrement: real, dFluidMassIncrement_dVolStrainIncrement: real,
                                           dFluidMassIncrement_dPressure: real)

  function MixtureDensity(porosity: real, solidDensity: real, fluidDensity: real): real {
    (1.0 - porosity) * solidDensity + porosity * fluidDensity
  }

  /** The derivatives of the mixture density `computeBodyForce` forms. */
  function DMixtureDens_dVolStrainIncrement(p: PointState): real {
    p.dPorosity_dVolStrain * (-p.solidDensity + p.fluidDensity)
  }

  function DMixtureDens_dPressure(p: PointState): real {
    p.dPorosity_dPressure * (-p.solidDensity + p.fluidDensity)
    + (1.0 - p.porosity) * p.dSolidDensity_dPressure
    + p.porosity * p.dFluidDensity_dPressure
  }

  /** `computeBodyForce`: gravity scaled by the mixture density and by its
    * two derivatives. */
  function ComputeBodyForce(gravityVector: Vec3, p: PointState): BodyForce {
    BodyForce(ScaledCopy(gravityVector, MixtureDensity(p.porosity, p.solidDensity, p.fluidDensity)),
              ScaledCopy(gravityVector, DMixtureDens_dVolStrainIncrement(p)),
              ScaledCopy(gravityVector, DMixtureDens_dPressure(p)))
  }

  /** `computeFluidIncrement`. */
  function ComputeFluidIncrement(p: PointState): FluidIncrement {
    FluidIncrement(p.porosity * p.fluidDensity - p.porosity_n * p.fluidDensity_n,
                   p.dPorosity_dVolStrain * p.fluidDensity,
                   p.dPorosity_dPressure * p.fluidDensity + p.porosity * p.dFluidDensity_dPressure)
  }

  /** Steps 2 and 3 of `smallStrainUpdate` on the body-force and fluid parts
    * of the stack: the fluid increment is always recomputed, the body force
    * only when the gravity magnitude is positive; otherwise it keeps what
    * the stack held. */
  function SmallStrainUpdate(gravityAcceleration: real, gravityVector: Vec3, p: PointState,
                             bodyForce: BodyForce, fluid: FluidIncrement): (r: (BodyForce, FluidIncrement))
    ensures r.1 == ComputeFluidIncrement(p)
    ensures gravityAcceleration > 0.0 ==> r.0 == ComputeBodyForce(gravityVector, p)
    ensures gravityAcceleration <= 0.0 ==> r.0 == bodyForce
  {
    var bf := if gravityAcceleration > 0.0 then ComputeBodyForce(gravityVector, p) else bodyForce;
    (bf, ComputeFluidIncrement(p))
  }

  /** For a porosity in [0, 1] the mixture density lies between the solid
    * and the fluid density. */
  lemma MixtureDensityBetween(porosity: real, solidDensity: real, fluidDensity: real)
    requires 0.0 <= porosity <= 1.0
    ensures var m := MixtureDensity(porosity, solidDensity, fluidDensity);
      (solidDensity <= fluidDensity ==> solidDensity <= m <= fluidDensity)
      && (fluidDensity <= solidDensity ==> fluidDensity <= m <= solidDensity)
  {
    var m := MixtureDensity(porosity, solidDensity, fluidDensity);
    assert m == solidDensity + porosity * (fluidDensity - solidDensity);
    assert m == fluidDensity + (1.0 - porosity) * (solidDensity - fluidDensity);
    if solidDensity <= fluidDensity {
      ProductNonnegative(porosity, fluidDensity - solidDensity);
      ProductNonnegative(1.0 - porosity, fluidDensity - solidDensity);
    } else {
      ProductNonnegative(porosity, solidDensity - fluidDensity);
      ProductNonnegative(1.0 - porosity, solidDensity - fluidDensity);
    }
  }

  /** The mixture density is linear in porosity: moving the porosity by
    * `dPorosity_dVolStrain * h` moves it by exactly `h` times its
    * volumetric-strain derivative, so the body force's derivative is exact. */
  lemma MixtureDensityVolStrainDerivativeExact(p: PointState, h: real)
    ensures MixtureDensity(p.porosity + p.dPorosity_dVolStrain * h, p.solidDensity, p.fluidDensity)
            == MixtureDensity(p.porosity, p.solidDensity, p.fluidDensity) + h * DMixtureDens_dVolStrainIncrement(p)
  {
    ProductExpansion(1.0 - p.porosity, -p.dPorosity_dVolStrain, p.solidDensity, 0.0, h);
    ProductExpansion(p.porosity, p.dPorosity_dVolStrain, p.fluidDensity, 0.0, h);
  }

  /** Moving pressure by `h`, with porosity and both densities moving along
    * their pressure derivatives, changes the mixture density by `h` times
    * its pressure derivative plus a second-order term only. */
  lemma MixtureDensityPressureDerivative(p: PointState, h: real)
    ensures MixtureDensity(p.porosity + p.dPorosity_dPressure * h,
                           p.solidDensity + p.dSolidDensity_dPressure * h,
                           p.fluidDensity + p.dFluidDensity_dPressure * h)
            == MixtureDensity(p.porosity, p.solidDensity, p.fluidDensity) + h * DMixtureDens_dPressure(p)
               + h * h * p.dPorosity_dPressure * (p.dFluidDensity_dPressure - p.dSolidDensity_dPressure)
  {
    ProductExpansion(1.0 - p.porosity, -p.dPorosity_dPressure, p.solidDensity, p.dSolidDensity_dPressure, h);
    ProductExpansion(p.porosity, p.dPorosity_dPressure, p.fluidDensity, p.dFluidDensity_dPressure, h);
  }

  lemma ProductNonnegative(a: real, b: real)
    requires 0.0 <= a && 0.0 <= b
    ensures 0.0 <= a * b
  {
  }

  /** Nothing changed since the last step, so no fluid mass was gained. */
  lemma FluidIncrementZeroWhenUnchanged(p: PointState)
    requires p.porosity == p.porosity_n && p.fluidDensity == p.fluidDensity_n
    ensures ComputeFluidIncrement(p).fluidMassIncrement == 0.0
  {
  }

  /** The increment is linear in porosity, so its volumetric-strain
    * derivative is exact. */
  lemma FluidIncrementVolStrainDerivativeExact(p: PointState, h: real)
    ensures var f := ComputeFluidIncrement(p);
      ComputeFluidIncrement(p.(porosity := p.porosity + p.dPorosity_dVolStrain * h)).fluidMassIncrement
        == f.fluidMassIncrement + h * f.dFluidMassIncrement_dVolStrainIncrement
  {
    ProductExpansion(p.porosity, p.dPorosity_dVolStrain, p.fluidDensity, 0.0, h);
  }

  /** Moving pressure by `h`, with porosity and fluid density moving along
    * their pressure derivatives, changes the increment by `h` times its
    * pressure derivative plus a second-order term only. */
  lemma FluidIncrementPressureDerivative(p: PointState, h: real)
    ensures var f := ComputeFluidIncrement(p);
      ComputeFluidIncrement(p.(porosity := p.porosity + p.dPorosity_dPressure * h,
                               fluidDensity := p.fluidDensity + p.dFluidDensity_dPressure * h)).fluidMassIncrement
        == f.fluidMassIncrement + h * f.dFluidMassIncrement_dPressure + h * h * p.dPorosity_dPressure * p.dFluidDensity_dPressure
  {
    ProductExpansion(p.porosity, p.dPorosity_dPressure, p.fluidDensity, p.dFluidDensity_dPressure, h);
  }

  lemma ProductExpansion(x: real, dx: real, y: real, dy: real, h: real)
    ensures (x + dx * h) * (y + dy * h) == x * y + h * (dx * y + x * dy) + h * h * dx * dy
  {
  }

  // ---------------------------------------------------------------------
  // The mesh and the stack
  // ---------------------------------------------------------------------

  /** The fields `setup` reads: element-to-node map, displacement DOF
    * numbers, displacements and their increments, pressure DOF numbers. */
  datatype Mesh = Mesh(elemsToNodes: seq<seq<int>>, numSupportPoints: nat, dofNumber: seq<int>,
                       disp: seq<seq<real>>, uhat: seq<seq<real>>, flowDofNumber: seq<int>)

  predicate ElementOk(m: Mesh, nodes: seq<int>) {
    Indexes(nodes, m.numSupportPoints, |m.dofNumber|)
    && Rows3(nodes, m.numSupportPoints, m.disp) && Rows3(nodes, m.numSupportPoints, m.uhat)
  }

  predicate ValidMesh(m: Mesh) {
    |m.flowDofNumber| >= |m.elemsToNodes|
    && forall k :: 0 <= k < |m.elemsToNodes| ==> ElementOk(m, m.elemsToNodes[k])
  }

  /** The element residuals and Jacobians the quadrature loop accumulates. */
  datatype LocalSystem = LocalSystem(
    localResidualMomentum: seq<real>,
    dLocalResidualMomentum_dDisplacement: seq<seq<real>>,
    dLocalResidualMomentum_dPressure: seq<real>,
    localResidualMass: real,
    dLocalResidualMass_dDisplacement: seq<real>,
    dLocalResidualMass_dPressure: real)

  datatype Stack = Stack(localRowDofIndex: seq<int>, localColDofIndex: seq<int>,
                         uLocal: seq<seq<real>>, uhatLocal: seq<seq<real>>,
                         localPressureDofIndex: int, system: LocalSystem)

  /** The local arrays have the sizes of an element with `n` support points. */
  predicate SystemShaped(sys: LocalSystem, n: nat) {
    |sys.localResidualMomentum| == 3 * n
    && |sys.dLocalResidualMomentum_dDisplacement| == 3 * n
    && |sys.dLocalResidualMomentum_dPressure| == 3 * n
    && |sys.dLocalResidualMass_dDisplacement| == 3 * n
    && forall r :: 0 <= r < 3 * n ==> |sys.dLocalResidualMomentum_dDisplacement[r]| == 3 * n
  }

  predicate Shaped(s: Stack, n: nat) {
    |s.localRowDofIndex| == 3 * n && SystemShaped(s.system, n)
  }

  // ---------------------------------------------------------------------
  // setup
  // ---------------------------------------------------------------------

  function NodeDofs(d: int): seq<int> {
    [d, d + 1, d + 2]
  }

  /** The displacement DOF indices of the first `a` support points. */
  function DisplacementDofs(nodes: seq<int>, dofNumber: seq<int>, a: nat): (r: seq<int>)
    requires Indexes(nodes, a, |dofNumber|)
    ensures |r| == 3 * a
  {
    if a == 0 then [] else DisplacementDofs(nodes, dofNumber, a - 1) + NodeDofs(dofNumber[nodes[a - 1]])
  }

  /** The stack once `setup` has run for element `k`. */
  function SetupStack(m: Mesh, k: nat, stack: Stack): Stack
    requires ValidMesh(m) && k < |m.elemsToNodes|
  {
    var nodes := m.elemsToNodes[k];
    var dofs := DisplacementDofs(nodes, m.dofNumber, m.numSupportPoints);
    stack.(localRowDofIndex := dofs, localColDofIndex := dofs,
           uLocal := Gather(nodes, m.disp, m.numSupportPoints),
           uhatLocal := Gather(nodes, m.uhat, m.numSupportPoints),
           localPressureDofIndex := m.flowDofNumber[k])
  }

  /** DOF `3a + i` of the element is component `i` of node `a`'s DOF block. */
  lemma {:induction false} DisplacementDofsAt(nodes: seq<int>, dofNumber: seq<int>, a: nat)
    requires Indexes(nodes, a, |dofNumber|)
    ensures var r := DisplacementDofs(nodes, dofNumber, a);
      forall j :: 0 <= j < 3 * a ==> r[j] == dofNumber[nodes[j / 3]] + j % 3
  {
    if a > 0 {
      DisplacementDofsAt(nodes, dofNumber, a - 1);
      var r := DisplacementDofs(nodes, dofNumber, a);
      forall j | 3 * (a - 1) <= j < 3 * a
        ensures r[j] == dofNumber[nodes[j / 3]] + j % 3
      {
        assert j / 3 == a - 1 && j % 3 == j - 3 * (a - 1);
      }
    }
  }

  /** What `setup` promises: row and column indices are the same list, entry
    * `j` being component `j % 3` of node `j / 3`'s DOF block; the local
    * displacements are the nodes' three components; the pressure DOF is the
    * element's; the local system is left as the stack held it. */
  lemma SetupStackMeaning(m: Mesh, k: nat, stack: Stack)
    requires ValidMesh(m) && k < |m.elemsToNodes|
    ensures var s := SetupStack(m, k, stack); var nodes := m.elemsToNodes[k];
      s.localRowDofIndex == s.localColDofIndex
      && |s.localRowDofIndex| == 3 * m.numSupportPoints
      && (forall j :: 0 <= j < 3 * m.numSupportPoints ==> s.localRowDofIndex[j] == m.dofNumber[nodes[j / 3]] + j % 3)
      && |s.uLocal| == m.numSupportPoints && |s.uhatLocal| == m.numSupportPoints
      && (forall b :: 0 <= b < m.numSupportPoints ==> s.uLocal[b] == m.disp[nodes[b]][..3] && s.uhatLocal[b] == m.uhat[nodes[b]][..3])
      && s.localPressureDofIndex == m.flowDofNumber[k]
      && s.system == stack.system
  {
    var nodes := m.elemsToNodes[k];
    assert ElementOk(m, nodes);
    DisplacementDofsAt(nodes, m.dofNumber, m.numSupportPoints);
    GatherAt(nodes, m.disp, m.numSupportPoints);
    GatherAt(nodes, m.uhat, m.numSupportPoints);
  }

  /** When distinct support points own disjoint blocks of three DOFs, the
    * element's displacement DOFs are pairwise distinct, so each global row
    * receives at most one local row. */
  lemma DisplacementDofsDistinct(nodes: seq<int>, dofNumber: seq<int>, a: nat)
    requires Indexes(nodes, a, |dofNumber|)
    requires forall b1, b2 :: 0 <= b1 < b2 < a ==>
      dofNumber[nodes[b1]] + 3 <= dofNumber[nodes[b2]] || dofNumber[nodes[b2]] + 3 <= dofNumber[nodes[b1]]
    ensures var r := DisplacementDofs(nodes, dofNumber, a);
      forall j1, j2 :: 0 <= j1 < j2 < 3 * a ==> r[j1] != r[j2]
  {
    DisplacementDofsAt(nodes, dofNumber, a);
    var r := DisplacementDofs(nodes, dofNumber, a);
    forall j1, j2 | 0 <= j1 < j2 < 3 * a
      ensures r[j1] != r[j2]
    {
      var b1, b2, i1, i2 := j1 / 3, j2 / 3, j1 % 3, j2 % 3;
      assert j1 == 3 * b1 + i1 && j2 == 3 * b2 + i2;
      assert 0 <= b1 <= b2 < a;
      if b1 == b2 {
        assert i1 != i2;
      } else {
        var d1, d2 := dofNumber[nodes[b1]], dofNumber[nodes[b2]];
        assert d1 + 3 <= d2 || d2 + 3 <= d1;
        assert r[j1] == d1 + i1 && r[j2] == d2 + i2;
      }
    }
  }

  /** `setup`: for each support point and each component, copy the
    * displacement and its increment and write the row and column DOF; then
    * record the element's pressure DOF. Only the stack is written. */
  method Setup(m: Mesh, k: nat, stack: Stack) returns (s: Stack)
    requires ValidMesh(m) && k < |m.elemsToNodes|
    ensures s == SetupStack(m, k, stack)
  {
    var nodes := m.elemsToNodes[k];
    assert ElementOk(m, nodes);
    var rowDofs: seq<int> := [];
    var colDofs: seq<int> := [];
    var uLocal: seq<seq<real>> := [];
    var uhatLocal: seq<seq<real>> := [];
    var a := 0;
    while a < m.numSupportPoints
      invariant 0 <= a <= m.numSupportPoints
      invariant rowDofs == DisplacementDofs(nodes, m.dofNumber, a) && colDofs == rowDofs
      invariant uLocal == Gather(nodes, m.disp, a) && uhatLocal == Gather(nodes, m.uhat, a)
    {
      var localNodeIndex := nodes[a];
      var uRow: seq<real> := [];
      var uhatRow: seq<real> := [];
      var i := 0;
      while i < 3
        invariant 0 <= i <= 3
        invariant uRow == m.disp[localNodeIndex][..i] && uhatRow == m.uhat[localNodeIndex][..i]
        invariant rowDofs == DisplacementDofs(nodes, m.dofNumber, a) + NodeDofs(m.dofNumber[localNodeIndex])[..i]
        invariant colDofs == rowDofs
      {
        assert m.disp[localNodeIndex][..i + 1] == uRow + [m.disp[localNodeIndex][i]];
        assert m.uhat[localNodeIndex][..i + 1] == uhatRow + [m.uhat[localNodeIndex][i]];
        assert NodeDofs(m.dofNumber[localNodeIndex])[..i + 1]
            == NodeDofs(m.dofNumber[localNodeIndex])[..i] + [m.dofNumber[localNodeIndex] + i];
        uRow := uRow + [m.disp[localNodeIndex][i]];
        uhatRow := uhatRow + [m.uhat[localNodeIndex][i]];
        rowDofs := rowDofs + [m.dofNumber[localNodeIndex] + i];
        colDofs := colDofs + [m.dofNumber[localNodeIndex] + i];
        i := i + 1;
      }
      uLocal := uLocal + [uRow];
      uhatLocal := uhatLocal + [uhatRow];
      a := a + 1;
    }
    s := stack.(localRowDofIndex := rowDofs, localColDofIndex := colDofs,
                uLocal := uLocal, uhatLocal := uhatLocal,
                localPressureDofIndex := m.flowDofNumber[k]);
  }

  // ---------------------------------------------------------------------
  // complete
  // ---------------------------------------------------------------------

  /** Each momentum Jacobian row followed by its pressure entry: the two
    * `addToRow` calls of one row together add this at the displacement
    * DOFs followed by the pressure DOF. */
  function Bordered(dDisp: seq<seq<real>>, dPressure: seq<real>): (r: seq<seq<real>>)
    requires |dDisp| == |dPressure|
    ensures |r| == |dPressure|
    ensures forall i :: 0 <= i < |r| ==> r[i] == dDisp[i] + [dPressure[i]]
  {
    seq(|dPressure|, i requires 0 <= i < |dPressure| => dDisp[i] + [dPressure[i]])
  }

  /** The right-hand side after `complete`: the momentum rows, then the mass
    * row at the pressure DOF, each only when in range. */
  function CompleteRhs(rhs: seq<real>, s: Stack, n: nat, rankOffset: int, numRows: nat): (r: seq<real>)
    requires Shaped(s, n) && numRows <= |rhs|
    ensures |r| == |rhs|
  {
    var afterMomentum := ScatterRhs(rhs, s.localRowDofIndex, s.system.localResidualMomentum, rankOffset, numRows, 3 * n);
    ScatterRhs(afterMomentum, [s.localPressureDofIndex], [s.system.localResidualMass], rankOffset, numRows, 1)
  }

  /** The matrix after `complete`: every row, momentum or mass, is added at
    * the displacement DOFs followed by the pressure DOF. */
  function CompleteMatrix(matrix: seq<Row>, s: Stack, n: nat, rankOffset: int, numRows: nat): (r: seq<Row>)
    requires Shaped(s, n) && numRows <= |matrix|
    ensures |r| == |matrix|
  {
    var cols := s.localRowDofIndex + [s.localPressureDofIndex];
    var afterMomentum := ScatterMatrix(matrix, s.localRowDofIndex, cols,
                                       Bordered(s.system.dLocalResidualMomentum_dDisplacement, s.system.dLocalResidualMomentum_dPressure),
                                       rankOffset, numRows, 3 * n);
    ScatterMatrix(afterMomentum, [s.localPressureDofIndex], cols,
                  [s.system.dLocalResidualMass_dDisplacement + [s.system.dLocalResidualMass_dPressure]],
                  rankOffset, numRows, 1)
  }

  /** The value `complete` returns. */
  function CompleteMax(s: Stack, n: nat, rankOffset: int, numRows: nat): real
    requires Shaped(s, n)
  {
    MaxForce(s.localRowDofIndex, s.system.localResidualMomentum, rankOffset, numRows, 3 * n)
  }

  /** Each of this rank's rows gains the momentum residuals aimed at it plus
    * the mass residual when it is the pressure row; rows past `numRows` are
    * untouched. Values are added, never overwritten. */
  lemma CompleteRhsMeaning(rhs: seq<real>, s: Stack, n: nat, rankOffset: int, numRows: nat)
    requires Shaped(s, n) && numRows <= |rhs|
    ensures var r := CompleteRhs(rhs, s, n, rankOffset, numRows);
      (forall j :: 0 <= j < numRows ==>
        r[j] == rhs[j] + RowTotal(s.localRowDofIndex, s.system.localResidualMomentum, rankOffset, j, 3 * n)
                + (if s.localPressureDofIndex - rankOffset == j then s.system.localResidualMass else 0.0))
      && forall j :: numRows <= j < |rhs| ==> r[j] == rhs[j]
  {
    var afterMomentum := ScatterRhs(rhs, s.localRowDofIndex, s.system.localResidualMomentum, rankOffset, numRows, 3 * n);
    ScatterRhsAddsRowTotals(rhs, s.localRowDofIndex, s.system.localResidualMomentum, rankOffset, numRows, 3 * n);
    ScatterRhsAddsRowTotals(afterMomentum, [s.localPressureDofIndex], [s.system.localResidualMass], rankOffset, numRows, 1);
    assert forall j :: RowTotal([s.localPressureDofIndex], [s.system.localResidualMass], rankOffset, j, 1)
                       == 0.0 + (if s.localPressureDofIndex - rankOffset == j then s.system.localResidualMass else 0.0);
  }

  /** A matrix row that neither a displacement DOF nor the pressure DOF aims
    * at is untouched, and no row's sparsity pattern changes. */
  lemma CompleteMatrixTouchesOnlyTargets(matrix: seq<Row>, s: Stack, n: nat, rankOffset: int, numRows: nat)
    requires Shaped(s, n) && numRows <= |matrix|
    ensures var r := CompleteMatrix(matrix, s, n, rankOffset, numRows);
      (forall j :: 0 <= j < |matrix| ==> r[j].Keys == matrix[j].Keys)
      && forall j :: (0 <= j < |matrix| && j != s.localPressureDofIndex - rankOffset
                      && forall i :: 0 <= i < 3 * n ==> s.localRowDofIndex[i] - rankOffset != j) ==> r[j] == matrix[j]
  {
    var cols := s.localRowDofIndex + [s.localPressureDofIndex];
    var jac := Bordered(s.system.dLocalResidualMomentum_dDisplacement, s.system.dLocalResidualMomentum_dPressure);
    var afterMomentum := ScatterMatrix(matrix, s.localRowDofIndex, cols, jac, rankOffset, numRows, 3 * n);
    var massJac := [s.system.dLocalResidualMass_dDisplacement + [s.system.dLocalResidualMass_dPressure]];
    ScatterMatrixTouchesOnlyTargets(matrix, s.localRowDofIndex, cols, jac, rankOffset, numRows, 3 * n);
    ScatterMatrixTouchesOnlyTargets(afterMomentum, [s.localPressureDofIndex], cols, massJac, rankOffset, numRows, 1);
  }

  /** `complete` returns the largest in-range momentum residual magnitude,
    * from 0: never negative, no smaller than any in-range momentum residual,
    * and attained by one unless 0; the mass residual never enters it. */
  lemma CompleteMaxIsMax(s: Stack, n: nat, rankOffset: int, numRows: nat)
    requires Shaped(s, n)
    ensures var f := CompleteMax(s, n, rankOffset, numRows);
      var dofs, res := s.localRowDofIndex, s.system.localResidualMomentum;
      f >= 0.0
      && (forall i :: 0 <= i < 3 * n && InRange(dofs[i], rankOffset, numRows) ==> Abs(res[i]) <= f)
      && (f == 0.0 || exists i :: 0 <= i < 3 * n && InRange(dofs[i], rankOffset, numRows) && f == Abs(res[i]))
  {
    MaxForceIsMax(s.localRowDofIndex, s.system.localResidualMomentum, rankOffset, numRows, 3 * n);
  }

  /** `complete`: the momentum rows, whose largest in-range residual
    * magnitude is returned, then the mass row. */
  method Complete(stack: Stack, n: nat, rankOffset: int, rhs: array<real>, matrix: array<Row>) returns (maxForce: real)
    requires Shaped(stack, n) && matrix.Length <= rhs.Length
    modifies rhs, matrix
    ensures rhs[..] == CompleteRhs(old(rhs[..]), stack, n, rankOffset, matrix.Length)
    ensures matrix[..] == CompleteMatrix(old(matrix[..]), stack, n, rankOffset, matrix.Length)
    ensures maxForce == CompleteMax(stack, n, rankOffset, matrix.Length)
  {
    maxForce := ScatterMomentumRows(stack, n, rankOffset, rhs, matrix);
    ScatterMassRow(stack, n, rankOffset, rhs, matrix);
  }

  /** The momentum loop of `complete`: each in-range row adds its Jacobian
    * row at the displacement DOFs, its residual, and its pressure column,
    * while the largest residual magnitude is tracked. */
  method ScatterMomentumRows(stack: Stack, n: nat, rankOffset: int, rhs: array<real>, matrix: array<Row>) returns (maxForce: real)
    requires Shaped(stack, n) && matrix.Length <= rhs.Length
    modifies rhs, matrix
    ensures rhs[..] == ScatterRhs(old(rhs[..]), stack.localRowDofIndex, stack.system.localResidualMomentum,
                                  rankOffset, matrix.Length, 3 * n)
    ensures matrix[..] == ScatterMatrix(old(matrix[..]), stack.localRowDofIndex, stack.localRowDofIndex + [stack.localPressureDofIndex],
                                        Bordered(stack.system.dLocalResidualMomentum_dDisplacement, stack.system.dLocalResidualMomentum_dPressure),
                                        rankOffset, matrix.Length, 3 * n)
    ensures maxForce == CompleteMax(stack, n, rankOffset, matrix.Length)
  {
    ghost var rhs0, matrix0 := rhs[..], matrix[..];
    var sys := stack.system;
    var rowDofs := stack.localRowDofIndex;
    ghost var cols := rowDofs + [stack.localPressureDofIndex];
    ghost var jac := Bordered(sys.dLocalResidualMomentum_dDisplacement, sys.dLocalResidualMomentum_dPressure);
    var numRows := matrix.Length;
    maxForce := 0.0;
    var localNode := 0;
    while localNode < n
      invariant 0 <= localNode <= n
      invariant rhs[..] == ScatterRhs(rhs0, rowDofs, sys.localResidualMomentum, rankOffset, numRows, 3 * localNode)
      invariant matrix[..] == ScatterMatrix(matrix0, rowDofs, cols, jac, rankOffset, numRows, 3 * localNode)
      invariant maxForce == MaxForce(rowDofs, sys.localResidualMomentum, rankOffset, numRows, 3 * localNode)
    {
      var dim := 0;
      while dim < 3
        invariant 0 <= dim <= 3
        invariant rhs[..] == ScatterRhs(rhs0, rowDofs, sys.localResidualMomentum, rankOffset, numRows, 3 * localNode + dim)
        invariant matrix[..] == ScatterMatrix(matrix0, rowDofs, cols, jac, rankOffset, numRows, 3 * localNode + dim)
        invariant maxForce == MaxForce(rowDofs, sys.localResidualMomentum, rankOffset, numRows, 3 * localNode + dim)
      {
        maxForce := ScatterMomentumRow(stack, n, rankOffset, 3 * localNode + dim, rhs, matrix, rhs0, matrix0, maxForce);
        dim := dim + 1;
      }
      localNode := localNode + 1;
    }
  }

  /** Local row `r` of the momentum loop of `complete`. */
  method ScatterMomentumRow(stack: Stack, n: nat, rankOffset: int, r: nat, rhs: array<real>, matrix: array<Row>,
                            ghost rhs0: seq<real>, ghost matrix0: seq<Row>, maxForce0: real)
    returns (maxForce: real)
    requires Shaped(stack, n) && matrix.Length <= rhs.Length && r < 3 * n
    requires |rhs0| == rhs.Length && |matrix0| == matrix.Length
    requires rhs[..] == ScatterRhs(rhs0, stack.localRowDofIndex, stack.system.localResidualMomentum, rankOffset, matrix.Length, r)
    requires matrix[..] == ScatterMatrix(matrix0, stack.localRowDofIndex, stack.localRowDofIndex + [stack.localPressureDofIndex],
                                         Bordered(stack.system.dLocalResidualMomentum_dDisplacement, stack.system.dLocalResidualMomentum_dPressure),
                                         rankOffset, matrix.Length, r)
    requires maxForce0 == MaxForce(stack.localRowDofIndex, stack.system.localResidualMomentum, rankOffset, matrix.Length, r)
    modifies rhs, matrix
    ensures rhs[..] == ScatterRhs(rhs0, stack.localRowDofIndex, stack.system.localResidualMomentum, rankOffset, matrix.Length, r + 1)
    ensures matrix[..] == ScatterMatrix(matrix0, stack.localRowDofIndex, stack.localRowDofIndex + [stack.localPressureDofIndex],
                                        Bordered(stack.system.dLocalResidualMomentum_dDisplacement, stack.system.dLocalResidualMomentum_dPressure),
                                        rankOffset, matrix.Length, r + 1)
    ensures maxForce == MaxForce(stack.localRowDofIndex, stack.system.localResidualMomentum, rankOffset, matrix.Length, r + 1)
  {
    var sys := stack.system;
    var rowDofs := stack.localRowDofIndex;
    var pressureDof := stack.localPressureDofIndex;
    ghost var jac := Bordered(sys.dLocalResidualMomentum_dDisplacement, sys.dLocalResidualMomentum_dPressure);
    maxForce := maxForce0;
    var dof := rowDofs[r] - rankOffset;
    if 0 <= dof < matrix.Length {
      var row := AddToRow(matrix[dof], rowDofs, sys.dLocalResidualMomentum_dDisplacement[r]);
      rhs[dof] := rhs[dof] + sys.localResidualMomentum[r];
      maxForce := FMax(maxForce, Abs(sys.localResidualMomentum[r]));
      row := AddToRow(row, [pressureDof], [sys.dLocalResidualMomentum_dPressure[r]]);
      AddToRowAppend(matrix[dof], rowDofs, sys.dLocalResidualMomentum_dDisplacement[r], [pressureDof], [sys.dLocalResidualMomentum_dPressure[r]]);
      assert jac[r] == sys.dLocalResidualMomentum_dDisplacement[r] + [sys.dLocalResidualMomentum_dPressure[r]];
      matrix[dof] := row;
    }
  }

  /** The mass row of `complete`, scattered only when the pressure DOF is
    * one of this rank's rows. */
  method ScatterMassRow(stack: Stack, n: nat, rankOffset: int, rhs: array<real>, matrix: array<Row>)
    requires Shaped(stack, n) && matrix.Length <= rhs.Length
    modifies rhs, matrix
    ensures rhs[..] == ScatterRhs(old(rhs[..]), [stack.localPressureDofIndex], [stack.system.localResidualMass],
                                  rankOffset, matrix.Length, 1)
    ensures matrix[..] == ScatterMatrix(old(matrix[..]), [stack.localPressureDofIndex], stack.localRowDofIndex + [stack.localPressureDofIndex],
                                        [stack.system.dLocalResidualMass_dDisplacement + [stack.system.dLocalResidualMass_dPressure]],
                                        rankOffset, matrix.Length, 1)
  {
    var sys := stack.system;
    var rowDofs := stack.localRowDofIndex;
    var pressureDof := stack.localPressureDofIndex;
    var numRows := matrix.Length;
    ScatterRhsOne(rhs[..], pressureDof, sys.localResidualMass, rankOffset, numRows);
    ScatterMatrixOne(matrix[..], pressureDof, rowDofs + [pressureDof],
                     sys.dLocalResidualMass_dDisplacement + [sys.dLocalResidualMass_dPressure], rankOffset, numRows);
    var dof := pressureDof - rankOffset;
    if 0 <= dof < numRows {
      ghost var row0 := matrix[dof];
      matrix[dof] := AddToRow(matrix[dof], rowDofs, sys.dLocalResidualMass_dDisplacement);
      matrix[dof] := AddToRow(matrix[dof], [pressureDof], [sys.dLocalResidualMass_dPressure]);
      rhs[dof] := rhs[dof] + sys.localResidualMass;
      AddToRowAppend(row0, rowDofs, sys.dLocalResidualMass_dDisplacement, [pressureDof], [sys.dLocalResidualMass_dPressure]);
    }
  }

  // ---------------------------------------------------------------------
  // kernelLaunch
  // ---------------------------------------------------------------------

  /** The quadrature loop: `step` at points 0, 1, ..., q - 1 in turn. */
  function Integrate(step: (nat, nat, Stack) -> Stack, k: nat, q: nat, s: Stack): Stack {
    if q == 0 then s else step(k, q - 1, Integrate(step, k, q - 1, s))
  }

  /** The launcher's inputs: the mesh, the quadrature kernel and its number
    * of points, the freshly constructed stack and the rank's DOF offset. */
  datatype Kernel = Kernel(mesh: Mesh, step: (nat, nat, Stack) -> Stack, numQuadraturePointsPerElem: nat,
                           initial: Stack, rankOffset: int)

  /** The quadrature kernel keeps the stack's sizes. */
  ghost predicate ValidKernel(K: Kernel) {
    ValidMesh(K.mesh)
    && SystemShaped(K.initial.system, K.mesh.numSupportPoints)
    && forall k, q, s :: Shaped(s, K.mesh.numSupportPoints) ==> Shaped(K.step(k, q, s), K.mesh.numSupportPoints)
  }

  lemma {:induction false} IntegrateShaped(K: Kernel, k: nat, q: nat, s: Stack)
    requires ValidKernel(K) && Shaped(s, K.mesh.numSupportPoints)
    ensures Shaped(Integrate(K.step, k, q, s), K.mesh.numSupportPoints)
  {
    if q > 0 {
      IntegrateShaped(K, k, q - 1, s);
    }
  }

  /** The stack of element `k` when `complete` runs. */
  function ElementStack(K: Kernel, k: nat): (s: Stack)
    requires ValidKernel(K) && k < |K.mesh.elemsToNodes|
    ensures Shaped(s, K.mesh.numSupportPoints)
  {
    SetupStackMeaning(K.mesh, k, K.initial);
    IntegrateShaped(K, k, K.numQuadraturePointsPerElem, SetupStack(K.mesh, k, K.initial));
    Integrate(K.step, k, K.numQuadraturePointsPerElem, SetupStack(K.mesh, k, K.initial))
  }

  function LaunchRhs(K: Kernel, rhs: seq<real>, numRows: nat, k: nat): (r: seq<real>)
    requires ValidKernel(K) && k <= |K.mesh.elemsToNodes| && numRows <= |rhs|
    ensures |r| == |rhs|
  {
    if k == 0 then rhs
    else CompleteRhs(LaunchRhs(K, rhs, numRows, k - 1), ElementStack(K, k - 1), K.mesh.numSupportPoints, K.rankOffset, numRows)
  }

  function LaunchMatrix(K: Kernel, matrix: seq<Row>, numRows: nat, k: nat): (r: seq<Row>)
    requires ValidKernel(K) && k <= |K.mesh.elemsToNodes| && numRows <= |matrix|
    ensures |r| == |matrix|
  {
    if k == 0 then matrix
    else CompleteMatrix(LaunchMatrix(K, matrix, numRows, k - 1), ElementStack(K, k - 1), K.mesh.numSupportPoints, K.rankOffset, numRows)
  }

  /** `maxResidual` after the first `k` elements: a max-reduction from 0. */
  function LaunchMax(K: Kernel, numRows: nat, k: nat): real
    requires ValidKernel(K) && k <= |K.mesh.elemsToNodes|
  {
    if k == 0 then 0.0
    else FMax(LaunchMax(K, numRows, k - 1), CompleteMax(ElementStack(K, k - 1), K.mesh.numSupportPoints, K.rankOffset, numRows))
  }

  /** The launcher returns the largest value any element's `complete`
    * returned, or 0 when there are no elements: never negative, no smaller
    * than any element's value, attained by one unless 0. */
  lemma {:induction false} LaunchMaxIsMax(K: Kernel, numRows: nat, k: nat)
    requires ValidKernel(K) && k <= |K.mesh.elemsToNodes|
    ensures var m := LaunchMax(K, numRows, k);
      m >= 0.0
      && (forall e :: 0 <= e < k ==> CompleteMax(ElementStack(K, e), K.mesh.numSupportPoints, K.rankOffset, numRows) <= m)
      && (m == 0.0 || exists e :: 0 <= e < k && m == CompleteMax(ElementStack(K, e), K.mesh.numSupportPoints, K.rankOffset, numRows))
  {
    if k > 0 {
      LaunchMaxIsMax(K, numRows, k - 1);
    }
  }

  /** `kernelLaunch` over the first `numElems` elements: for each, a fresh
    * stack, `setup`, the quadrature points in ascending order, `complete`,
    * and a max-reduction of the returned values starting from 0. */
  method KernelLaunch(K: Kernel, numElems: nat, rhs: array<real>, matrix: array<Row>) returns (maxResidual: real)
    requires ValidKernel(K) && numElems <= |K.mesh.elemsToNodes| && matrix.Length <= rhs.Length
    modifies rhs, matrix
    ensures rhs[..] == LaunchRhs(K, old(rhs[..]), matrix.Length, numElems)
    ensures matrix[..] == LaunchMatrix(K, old(matrix[..]), matrix.Length, numElems)
    ensures maxResidual == LaunchMax(K, matrix.Length, numElems)
  {
    ghost var rhs0, matrix0 := rhs[..], matrix[..];
    maxResidual := 0.0;
    var k := 0;
    while k < numElems
      invariant 0 <= k <= numElems
      invariant rhs[..] == LaunchRhs(K, rhs0, matrix.Length, k)
      invariant matrix[..] == LaunchMatrix(K, matrix0, matrix.Length, k)
      invariant maxResidual == LaunchMax(K, matrix.Length, k)
    {
      var stack := Setup(K.mesh, k, K.initial);
      SetupStackMeaning(K.mesh, k, K.initial);
      var q := 0;
      while q < K.numQuadraturePointsPerElem
        invariant 0 <= q <= K.numQuadraturePointsPerElem
        invariant stack == Integrate(K.step, k, q, SetupStack(K.mesh, k, K.initial))
      {
        stack := K.step(k, q, stack);
        q := q + 1;
      }
      assert stack == ElementStack(K, k);
      var f := Complete(stack, K.mesh.numSupportPoints, K.rankOffset, rhs, matrix);
      maxResidual := FMax(maxResidual, f);
      k := k + 1;
    }
  }
}

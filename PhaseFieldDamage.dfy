/** The element kernel of the pressurized phase-field damage solver
  * (src/coreComponents/physicsSolvers/simplePDE/PhaseFieldPressurizedDamageFEMKernels.hpp):
  * the stack constructor, `setup`, the local dissipation of the
  * quadrature-point kernel and `complete`.
  *
  * The damage field has one DOF per node, so an element with
  * `numNodesPerElem` nodes has that many local rows and columns. */
module PhaseFieldDamage {
  import opened GlobalAssembly

  /** The kernel's stack. `localRowDofIndex`, `localColDofIndex`,
    * `localResidual` and `localJacobian` come from the base kernel's stack. */
  datatype Stack = Stack(localRowDofIndex: seq<int>, localColDofIndex: seq<int>,
                         uLocal: seq<seq<real>>, nodalDamageLocal: seq<real>,
                         localResidual: seq<real>, localJacobian: seq<seq<real>>)

  // ---------------------------------------------------------------------
  // StackVariables
  // ---------------------------------------------------------------------

  function Zeros(n: nat): (r: seq<real>)
    ensures |r| == n && forall a :: 0 <= a < n ==> r[a] == 0.0
  {
    if n == 0 then [] else Zeros(n - 1) + [0.0]
  }

  /** The stack constructor: the base part as the base constructor leaves it,
    * and the nodal damage storage holding `numNodesPerElem` zeros. */
  function NewStack(base: Stack, numNodesPerElem: nat): (s: Stack)
    ensures |s.nodalDamageLocal| == numNodesPerElem
    ensures forall a :: 0 <= a < numNodesPerElem ==> s.nodalDamageLocal[a] == 0.0
    ensures s.localRowDofIndex == base.localRowDofIndex && s.localColDofIndex == base.localColDofIndex
    ensures s.localResidual == base.localResidual && s.localJacobian == base.localJacobian
  {
    base.(nodalDamageLocal := Zeros(numNodesPerElem))
  }

  // ---------------------------------------------------------------------
  // setup
  // ---------------------------------------------------------------------

  /** The fields `setup` reads: element-to-node map, damage DOF numbers,
    * displacements and the nodal damage. */
  datatype Mesh = Mesh(elemsToNodes: seq<seq<int>>, numNodesPerElem: nat, dofNumber: seq<int>,
                       disp: seq<seq<real>>, nodalDamage: seq<real>)

  predicate ElementOk(m: Mesh, nodes: seq<int>) {
    Indexes(nodes, m.numNodesPerElem, |m.dofNumber|)
    && Rows3(nodes, m.numNodesPerElem, m.disp)
    && Indexes(nodes, m.numNodesPerElem, |m.nodalDamage|)
  }

  predicate ValidMesh(m: Mesh) {
    forall k :: 0 <= k < |m.elemsToNodes| ==> ElementOk(m, m.elemsToNodes[k])
  }

  /** The stack once `setup` has run for element `k`. */
  function SetupStack(m: Mesh, k: nat, stack: Stack): Stack
    requires ValidMesh(m) && k < |m.elemsToNodes|
  {
    var nodes := m.elemsToNodes[k];
    var dofs := Pick(nodes, m.dofNumber, m.numNodesPerElem);
    stack.(uLocal := Gather(nodes, m.disp, m.numNodesPerElem),
           nodalDamageLocal := Pick(nodes, m.nodalDamage, m.numNodesPerElem),
           localRowDofIndex := dofs, localColDofIndex := dofs)
  }

  /** What `setup` promises: for each node `a` of the element, the row and the
    * column DOF are both the node's DOF number, the local damage is the
    * node's damage and the local displacement its three components; the
    * residual and Jacobian storage is left as it was. */
  lemma SetupStackMeaning(m: Mesh, k: nat, stack: Stack)
    requires ValidMesh(m) && k < |m.elemsToNodes|
    ensures var s := SetupStack(m, k, stack); var nodes := m.elemsToNodes[k];
      s.localRowDofIndex == s.localColDofIndex
      && |s.localRowDofIndex| == m.numNodesPerElem && |s.nodalDamageLocal| == m.numNodesPerElem
      && |s.uLocal| == m.numNodesPerElem
      && (forall a :: 0 <= a < m.numNodesPerElem ==>
            s.localRowDofIndex[a] == m.dofNumber[nodes[a]]
            && s.nodalDamageLocal[a] == m.nodalDamage[nodes[a]]
            && s.uLocal[a] == m.disp[nodes[a]][..3])
      && s.localResidual == stack.localResidual && s.localJacobian == stack.localJacobian
  {
    var nodes := m.elemsToNodes[k];
    assert ElementOk(m, nodes);
    PickAt(nodes, m.dofNumber, m.numNodesPerElem);
    PickAt(nodes, m.nodalDamage, m.numNodesPerElem);
    GatherAt(nodes, m.disp, m.numNodesPerElem);
  }

  /** `setup`: for each node of the element, copy its displacement and its
    * damage and write its DOF number as row and column index. */
  method Setup(m: Mesh, k: nat, stack: Stack) returns (s: Stack)
    requires ValidMesh(m) && k < |m.elemsToNodes|
    ensures s == SetupStack(m, k, stack)
  {
    var nodes := m.elemsToNodes[k];
    assert ElementOk(m, nodes);
    var uLocal: seq<seq<real>> := [];
    var damage: seq<real> := [];
    var rowDofs: seq<int> := [];
    var colDofs: seq<int> := [];
    var a := 0;
    while a < m.numNodesPerElem
      invariant 0 <= a <= m.numNodesPerElem
      invariant uLocal == Gather(nodes, m.disp, a)
      invariant damage == Pick(nodes, m.nodalDamage, a)
      invariant rowDofs == Pick(nodes, m.dofNumber, a) && colDofs == rowDofs
    {
      var localNodeIndex := nodes[a];
      uLocal := uLocal + [m.disp[localNodeIndex][..3]];
      damage := damage + [m.nodalDamage[localNodeIndex]];
      rowDofs := rowDofs + [m.dofNumber[localNodeIndex]];
      colDofs := colDofs + [m.dofNumber[localNodeIndex]];
      a := a + 1;
    }
    s := stack.(uLocal := uLocal, nodalDamageLocal := damage, localRowDofIndex := rowDofs, localColDofIndex := colDofs);
  }

  // ---------------------------------------------------------------------
  // The local dissipation of quadraturePointKernel
  // ---------------------------------------------------------------------

  /** `D`: with the local dissipation option 1, the larger of the energy
    * threshold and the strain energy density; otherwise 0. */
  function LocalDissipation(localDissipationOption: int, threshold: real, strainEnergyDensity: real): real {
    if localDissipationOption == 1 then FMax(threshold, strainEnergyDensity) else 0.0
  }

  /** With option 1, `D` is the least value that is at least both the
    * threshold and the strain energy density; with any other option it is 0. */
  lemma LocalDissipationMeaning(localDissipationOption: int, threshold: real, strainEnergyDensity: real)
    ensures var D := LocalDissipation(localDissipationOption, threshold, strainEnergyDensity);
      (localDissipationOption == 1 ==>
         D >= threshold && D >= strainEnergyDensity && (D == threshold || D == strainEnergyDensity))
      && (localDissipationOption != 1 ==> D == 0.0)
  {
  }

  // ---------------------------------------------------------------------
  // complete
  // ---------------------------------------------------------------------

  /** The local arrays have the sizes of an element with `n` nodes. */
  predicate Shaped(s: Stack, n: nat) {
    |s.localRowDofIndex| == n && |s.localColDofIndex| == n
    && |s.localResidual| == n && |s.localJacobian| == n
    && forall a :: 0 <= a < n ==> |s.localJacobian[a]| == n
  }

  /** `complete`: each in-range local row adds its Jacobian row at the column
    * DOFs and its residual, while the largest residual magnitude is tracked
    * from 0. */
  method Complete(stack: Stack, n: nat, rankOffset: int, rhs: array<real>, matrix: array<Row>) returns (maxForce: real)
    requires Shaped(stack, n) && matrix.Length <= rhs.Length
    modifies rhs, matrix
    ensures rhs[..] == ScatterRhs(old(rhs[..]), stack.localRowDofIndex, stack.localResidual, rankOffset, matrix.Length, n)
    ensures matrix[..] == ScatterMatrix(old(matrix[..]), stack.localRowDofIndex, stack.localColDofIndex, stack.localJacobian,
                                        rankOffset, matrix.Length, n)
    ensures maxForce == MaxForce(stack.localRowDofIndex, stack.localResidual, rankOffset, matrix.Length, n)
  {
    ghost var rhs0, matrix0 := rhs[..], matrix[..];
    var numRows := matrix.Length;
    maxForce := 0.0;
    var a := 0;
    while a < n
      invariant 0 <= a <= n
      invariant rhs[..] == ScatterRhs(rhs0, stack.localRowDofIndex, stack.localResidual, rankOffset, numRows, a)
      invariant matrix[..] == ScatterMatrix(matrix0, stack.localRowDofIndex, stack.localColDofIndex, stack.localJacobian,
                                            rankOffset, numRows, a)
      invariant maxForce == MaxForce(stack.localRowDofIndex, stack.localResidual, rankOffset, numRows, a)
    {
      var dof := stack.localRowDofIndex[a] - rankOffset;
      if 0 <= dof < numRows {
        matrix[dof] := AddToRow(matrix[dof], stack.localColDofIndex, stack.localJacobian[a]);
        rhs[dof] := rhs[dof] + stack.localResidual[a];
        maxForce := FMax(maxForce, Abs(stack.localResidual[a]));
      }
      a := a + 1;
    }
  }

  /** When the element's row DOFs are distinct (distinct nodes have distinct
    * DOF numbers), `complete` adds each in-range local residual to exactly its
    * own global row, and every row no local row aims at keeps its value. */
  lemma CompleteRhsWithDistinctDofs(rhs: seq<real>, s: Stack, n: nat, rankOffset: int, numRows: nat)
    requires Shaped(s, n) && numRows <= |rhs|
    requires forall a1, a2 :: 0 <= a1 < a2 < n ==> s.localRowDofIndex[a1] != s.localRowDofIndex[a2]
    ensures var r := ScatterRhs(rhs, s.localRowDofIndex, s.localResidual, rankOffset, numRows, n);
      (forall a :: 0 <= a < n && InRange(s.localRowDofIndex[a], rankOffset, numRows) ==>
         r[s.localRowDofIndex[a] - rankOffset] == rhs[s.localRowDofIndex[a] - rankOffset] + s.localResidual[a])
      && forall j :: (0 <= j < |rhs| && forall a :: 0 <= a < n ==> s.localRowDofIndex[a] - rankOffset != j) ==> r[j] == rhs[j]
  {
    ScatterRhsAddsRowTotals(rhs, s.localRowDofIndex, s.localResidual, rankOffset, numRows, n);
    forall j | 0 <= j < numRows
      ensures (forall a :: 0 <= a < n ==> s.localRowDofIndex[a] - rankOffset != j) ==>
                RowTotal(s.localRowDofIndex, s.localResidual, rankOffset, j, n) == 0.0
      ensures forall a :: 0 <= a < n && s.localRowDofIndex[a] - rankOffset == j ==>
                RowTotal(s.localRowDofIndex, s.localResidual, rankOffset, j, n) == s.localResidual[a]
    {
      RowTotalOfDistinct(s.localRowDofIndex, s.localResidual, rankOffset, j, n);
    }
  }
}

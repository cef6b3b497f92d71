/** Degree-of-freedom numbering, face selection and the two-point flux
  * stencil of the single-phase finite-volume solver
  * (src/components/core/src/physicsSolvers/FiniteVolume/SinglePhaseFlow_TPFA.cpp).
  *
  * Cells are visited region by region, subregion by subregion, element by
  * element, so the per-cell arrays of the code are `seq<seq<seq<_>>>`
  * indexed `[er][esr][k]`. A ghost rank `< 0` marks a cell owned by this
  * process. */
module SinglePhaseFlowTpfa {

  // ---------------------------------------------------------------------
  // Row ranges across processes
  // ---------------------------------------------------------------------

  /** The sum of `s`, accumulated from the front as the loop does. */
  function Sum(s: seq<int>): int {
    if |s| == 0 then 0 else Sum(s[..|s| - 1]) + s[|s| - 1]
  }

  /** The number of gathered counts that precede process `rank`. */
  function RanksBefore(rank: int, numProcesses: nat): (n: nat)
    ensures n <= numProcesses
  {
    if rank < 0 then 0 else if rank > numProcesses then numProcesses else rank
  }

  /** The loop over the gathered row counts in `SetNumRowsAndTrilinosIndices`:
    * the global row count is the sum of all counts and this process's first
    * row is the sum of the counts of the processes before it. */
  method ComputeRowRange(gather: seq<int>, thisProcess: int) returns (firstLocalRow: int, numGlobalRows: int)
    ensures numGlobalRows == Sum(gather)
    ensures firstLocalRow == Sum(gather[..RanksBefore(thisProcess, |gather|)])
  {
    firstLocalRow := 0;
    numGlobalRows := 0;
    var p := 0;
    while p < |gather|
      invariant 0 <= p <= |gather|
      invariant numGlobalRows == Sum(gather[..p])
      invariant firstLocalRow == Sum(gather[..if p < RanksBefore(thisProcess, |gather|) then p else RanksBefore(thisProcess, |gather|)])
    {
      assert gather[..p + 1][..p] == gather[..p];
      numGlobalRows := numGlobalRows + gather[p];
      if p < thisProcess {
        firstLocalRow := firstLocalRow + gather[p];
      }
      p := p + 1;
    }
    assert gather[..p] == gather;
  }

  /** With non-negative counts, a longer prefix never sums to less. */
  lemma {:induction false} SumPrefixMonotone(s: seq<int>, i: nat, j: nat)
    requires i <= j <= |s|
    requires forall p | 0 <= p < |s| :: s[p] >= 0
    ensures 0 <= Sum(s[..i]) <= Sum(s[..j])
    decreases j
  {
    if i < j {
      SumPrefixMonotone(s, i, j - 1);
      assert s[..j][..j - 1] == s[..j - 1];
    } else if i > 0 {
      SumPrefixMonotone(s, 0, i - 1);
      assert s[..i][..i - 1] == s[..i - 1];
    } else {
      assert s[..0] == [];
    }
  }

  /** Each process's rows `[first, first + count)` lie inside
    * `[0, numGlobalRows)`, and the ranges of two different processes do not
    * overlap. */
  lemma {:induction false} RowRangesPartitionGlobalRows(gather: seq<int>, r1: nat, r2: nat)
    requires r1 < r2 < |gather|
    requires forall p | 0 <= p < |gather| :: gather[p] >= 0
    ensures 0 <= Sum(gather[..r1])
    ensures Sum(gather[..r1]) + gather[r1] <= Sum(gather[..r2])
    ensures Sum(gather[..r2]) + gather[r2] <= Sum(gather)
  {
    SumPrefixStep(gather, r1);
    SumPrefixStep(gather, r2);
    SumPrefixMonotone(gather, r1 + 1, r2);
    SumPrefixMonotone(gather, r2 + 1, |gather|);
    SumPrefixMonotone(gather, 0, r1);
    assert gather[..|gather|] == gather;
  }

  /** One more entry adds that entry to the prefix sum. */
  lemma SumPrefixStep(s: seq<int>, i: nat)
    requires i < |s|
    ensures Sum(s[..i + 1]) == Sum(s[..i]) + s[i]
  {
    assert s[..i + 1][..i] == s[..i];
  }

  // ---------------------------------------------------------------------
  // Cell numbering
  // ---------------------------------------------------------------------

  /** Owned cells (ghost rank `< 0`) of one subregion. */
  function CountOwned(s: seq<int>): nat {
    if |s| == 0 then 0 else CountOwned(s[..|s| - 1]) + (if s[|s| - 1] < 0 then 1 else 0)
  }

  /** Owned cells of a list of subregions. */
  function CountOwned2(s: seq<seq<int>>): nat {
    if |s| == 0 then 0 else CountOwned2(s[..|s| - 1]) + CountOwned(s[|s| - 1])
  }

  /** Owned cells of a list of regions. */
  function CountOwned3(s: seq<seq<seq<int>>>): nat {
    if |s| == 0 then 0 else CountOwned3(s[..|s| - 1]) + CountOwned2(s[|s| - 1])
  }

  /** `g[er][esr][k]` exists. */
  predicate IsCell(g: seq<seq<seq<int>>>, er: int, esr: int, k: int) {
    0 <= er < |g| && 0 <= esr < |g[er]| && 0 <= k < |g[er][esr]|
  }

  /** The owned cells visited before cell `(er, esr, k)`. */
  function OwnedBefore(g: seq<seq<seq<int>>>, er: nat, esr: nat, k: nat): nat
    requires IsCell(g, er, esr, k)
  {
    CountOwned3(g[..er]) + CountOwned2(g[er][..esr]) + CountOwned(g[er][esr][..k])
  }

  /** The index the numbering gives cell `(er, esr, k)`: the next consecutive
    * number from `base` if the cell is owned, `-1` if it is a ghost. */
  function CellIndex(g: seq<seq<seq<int>>>, er: nat, esr: nat, k: nat, base: int): int
    requires IsCell(g, er, esr, k)
  {
    if g[er][esr][k] < 0 then base + OwnedBefore(g, er, esr, k) else -1
  }

  /** `idx` has the shape of `g`. */
  predicate SameShape(idx: seq<seq<seq<int>>>, g: seq<seq<seq<int>>>) {
    |idx| == |g| &&
    (forall er | 0 <= er < |g| :: |idx[er]| == |g[er]|) &&
    (forall er, esr | 0 <= er < |g| && 0 <= esr < |g[er]| :: |idx[er][esr]| == |g[er][esr]|)
  }

  /** `idx` is the numbering of `g` from `base`. */
  ghost predicate IsNumbering(idx: seq<seq<seq<int>>>, g: seq<seq<seq<int>>>, base: int) {
    SameShape(idx, g) &&
    forall er, esr, k | IsCell(g, er, esr, k) :: idx[er][esr][k] == CellIndex(g, er, esr, k, base)
  }

  /** The second cell loop of `SetNumRowsAndTrilinosIndices` (the first loop
    * only writes `-1` everywhere, which the second loop overwrites). */
  method NumberCells(ghostRank: seq<seq<seq<int>>>, firstLocalRow: int, offset: int)
    returns (trilinosIndex: seq<seq<seq<int>>>, localCount: int)
    ensures IsNumbering(trilinosIndex, ghostRank, firstLocalRow + offset)
    ensures localCount == CountOwned3(ghostRank)
  {
    trilinosIndex := [];
    localCount := 0;
    var er := 0;
    while er < |ghostRank|
      invariant 0 <= er <= |ghostRank|
      invariant |trilinosIndex| == er
      invariant localCount == CountOwned3(ghostRank[..er])
      invariant forall e | 0 <= e < er :: |trilinosIndex[e]| == |ghostRank[e]|
      invariant forall e, s | 0 <= e < er && 0 <= s < |ghostRank[e]| :: |trilinosIndex[e][s]| == |ghostRank[e][s]|
      invariant forall e, s, k | 0 <= e < er && IsCell(ghostRank, e, s, k) ::
        trilinosIndex[e][s][k] == CellIndex(ghostRank, e, s, k, firstLocalRow + offset)
    {
      var region;
      region, localCount := NumberRegion(ghostRank, er, firstLocalRow, offset, localCount);
      trilinosIndex := trilinosIndex + [region];
      er := er + 1;
    }
    assert ghostRank[..er] == ghostRank;
  }

  /** One region `er` of the numbering loop. */
  method NumberRegion(ghostRank: seq<seq<seq<int>>>, er: nat, firstLocalRow: int, offset: int, localCount0: int)
    returns (region: seq<seq<int>>, localCount: int)
    requires er < |ghostRank| && localCount0 == CountOwned3(ghostRank[..er])
    ensures |region| == |ghostRank[er]|
    ensures forall s | 0 <= s < |region| :: |region[s]| == |ghostRank[er][s]|
    ensures forall s, k | IsCell(ghostRank, er, s, k) :: region[s][k] == CellIndex(ghostRank, er, s, k, firstLocalRow + offset)
    ensures localCount == CountOwned3(ghostRank[..er + 1])
  {
    region := [];
    localCount := localCount0;
    var esr := 0;
    while esr < |ghostRank[er]|
      invariant 0 <= esr <= |ghostRank[er]|
      invariant |region| == esr
      invariant localCount == CountOwned3(ghostRank[..er]) + CountOwned2(ghostRank[er][..esr])
      invariant forall s | 0 <= s < esr :: |region[s]| == |ghostRank[er][s]|
      invariant forall s, k | 0 <= s < esr && IsCell(ghostRank, er, s, k) ::
        region[s][k] == CellIndex(ghostRank, er, s, k, firstLocalRow + offset)
    {
      var sub;
      sub, localCount := NumberSubregion(ghostRank, er, esr, firstLocalRow, offset, localCount);
      region := region + [sub];
      esr := esr + 1;
    }
    assert ghostRank[er][..esr] == ghostRank[er];
    assert ghostRank[..er + 1][..er] == ghostRank[..er];
  }

  /** One subregion `esr` of region `er` of the numbering loop. */
  method NumberSubregion(ghostRank: seq<seq<seq<int>>>, er: nat, esr: nat, firstLocalRow: int, offset: int,
                         localCount0: int)
    returns (sub: seq<int>, localCount: int)
    requires er < |ghostRank| && esr < |ghostRank[er]|
    requires localCount0 == CountOwned3(ghostRank[..er]) + CountOwned2(ghostRank[er][..esr])
    ensures |sub| == |ghostRank[er][esr]|
    ensures forall j | 0 <= j < |sub| :: sub[j] == CellIndex(ghostRank, er, esr, j, firstLocalRow + offset)
    ensures localCount == CountOwned3(ghostRank[..er]) + CountOwned2(ghostRank[er][..esr + 1])
  {
    sub := [];
    localCount := localCount0;
    var k := 0;
    while k < |ghostRank[er][esr]|
      invariant 0 <= k <= |ghostRank[er][esr]|
      invariant |sub| == k
      invariant localCount == CountOwned3(ghostRank[..er]) + CountOwned2(ghostRank[er][..esr]) + CountOwned(ghostRank[er][esr][..k])
      invariant forall j | 0 <= j < k :: sub[j] == CellIndex(ghostRank, er, esr, j, firstLocalRow + offset)
    {
      assert ghostRank[er][esr][..k + 1][..k] == ghostRank[er][esr][..k];
      if ghostRank[er][esr][k] < 0 {
        sub := sub + [firstLocalRow + localCount + offset];
        localCount := localCount + 1;
      } else {
        sub := sub + [-1];
      }
      k := k + 1;
    }
    assert ghostRank[er][esr][..k] == ghostRank[er][esr];
    assert ghostRank[er][..esr + 1][..esr] == ghostRank[er][..esr];
  }

  /** Ghost cells of one subregion: the count `GetNumberOfGhosts` reports. */
  function CountGhosts(s: seq<int>): nat {
    if |s| == 0 then 0 else CountGhosts(s[..|s| - 1]) + (if s[|s| - 1] >= 0 then 1 else 0)
  }

  /** `numLocalRows` as `SetupSystem` computes it: for each subregion, its
    * size minus its ghosts. */
  function NumLocalRows(g: seq<seq<seq<int>>>): int {
    if |g| == 0 then 0 else NumLocalRows(g[..|g| - 1]) + NumLocalRows2(g[|g| - 1])
  }

  function NumLocalRows2(g: seq<seq<int>>): int {
    if |g| == 0 then 0 else NumLocalRows2(g[..|g| - 1]) + (|g[|g| - 1]| - CountGhosts(g[|g| - 1]))
  }

  lemma {:induction false} OwnedPlusGhosts(s: seq<int>)
    ensures CountOwned(s) + CountGhosts(s) == |s|
  {
    if |s| > 0 {
      OwnedPlusGhosts(s[..|s| - 1]);
    }
  }

  lemma {:induction false} NumLocalRows2IsOwned(g: seq<seq<int>>)
    ensures NumLocalRows2(g) == CountOwned2(g)
  {
    if |g| > 0 {
      NumLocalRows2IsOwned(g[..|g| - 1]);
      OwnedPlusGhosts(g[|g| - 1]);
    }
  }

  /** The assertion `localCount == numLocalRows` that closes
    * `SetNumRowsAndTrilinosIndices` holds: the numbering loop counts exactly
    * the rows `SetupSystem` reserved. */
  lemma {:induction false} LocalCountIsNumLocalRows(g: seq<seq<seq<int>>>)
    ensures CountOwned3(g) == NumLocalRows(g)
  {
    if |g| > 0 {
      LocalCountIsNumLocalRows(g[..|g| - 1]);
      NumLocalRows2IsOwned(g[|g| - 1]);
    }
  }

  lemma {:induction false} CountOwnedMonotone(s: seq<int>, i: nat, j: nat)
    requires i <= j <= |s|
    ensures CountOwned(s[..i]) <= CountOwned(s[..j])
    decreases j
  {
    if i < j {
      CountOwnedMonotone(s, i, j - 1);
      assert s[..j][..j - 1] == s[..j - 1];
    }
  }

  lemma {:induction false} CountOwned2Monotone(s: seq<seq<int>>, i: nat, j: nat)
    requires i <= j <= |s|
    ensures CountOwned2(s[..i]) <= CountOwned2(s[..j])
    decreases j
  {
    if i < j {
      CountOwned2Monotone(s, i, j - 1);
      assert s[..j][..j - 1] == s[..j - 1];
    }
  }

  lemma {:induction false} CountOwned3Monotone(s: seq<seq<seq<int>>>, i: nat, j: nat)
    requires i <= j <= |s|
    ensures CountOwned3(s[..i]) <= CountOwned3(s[..j])
    decreases j
  {
    if i < j {
      CountOwned3Monotone(s, i, j - 1);
      assert s[..j][..j - 1] == s[..j - 1];
    }
  }

  /** An owned cell is followed, within its subregion and within its region,
    * by at least its own count. */
  lemma OwnedCellBounds(g: seq<seq<seq<int>>>, er: nat, esr: nat, k: nat)
    requires IsCell(g, er, esr, k) && g[er][esr][k] < 0
    ensures OwnedBefore(g, er, esr, k) < CountOwned3(g[..er]) + CountOwned2(g[er][..esr + 1])
    ensures OwnedBefore(g, er, esr, k) < CountOwned3(g[..er + 1])
  {
    var s := g[er][esr];
    assert s[..k + 1][..k] == s[..k];
    CountOwnedMonotone(s, k + 1, |s|);
    assert s[..|s|] == s;
    assert g[er][..esr + 1][..esr] == g[er][..esr];
    CountOwned2Monotone(g[er], esr + 1, |g[er]|);
    assert g[er][..|g[er]|] == g[er];
    assert g[..er + 1][..er] == g[..er];
  }

  /** In visiting order the owned cells receive strictly increasing
    * numbers. */
  lemma OwnedBeforeIncreases(g: seq<seq<seq<int>>>, er: nat, esr: nat, k: nat, er': nat, esr': nat, k': nat)
    requires IsCell(g, er, esr, k) && IsCell(g, er', esr', k') && g[er][esr][k] < 0
    requires er < er' || (er == er' && esr < esr') || (er == er' && esr == esr' && k < k')
    ensures OwnedBefore(g, er, esr, k) < OwnedBefore(g, er', esr', k')
  {
    OwnedCellBounds(g, er, esr, k);
    if er < er' {
      CountOwned3Monotone(g, er + 1, er');
    } else if esr < esr' {
      CountOwned2Monotone(g[er], esr + 1, esr');
    } else {
      var s := g[er][esr];
      assert s[..k + 1][..k] == s[..k];
      CountOwnedMonotone(s, k + 1, k');
    }
  }

  /** The numbering gives owned cells distinct numbers in
    * `[base, base + #owned)`, increasing in visiting order, and ghosts `-1`. */
  lemma NumberingIsConsecutive(idx: seq<seq<seq<int>>>, g: seq<seq<seq<int>>>, base: int)
    requires IsNumbering(idx, g, base)
    ensures forall er, esr, k | IsCell(g, er, esr, k) && g[er][esr][k] < 0 ::
      base <= idx[er][esr][k] < base + CountOwned3(g)
    ensures forall er, esr, k | IsCell(g, er, esr, k) && g[er][esr][k] >= 0 :: idx[er][esr][k] == -1
    ensures forall er, esr, k, er', esr', k' |
      IsCell(g, er, esr, k) && IsCell(g, er', esr', k') && g[er][esr][k] < 0 && g[er'][esr'][k'] < 0 &&
      (er < er' || (er == er' && esr < esr') || (er == er' && esr == esr' && k < k')) ::
      idx[er][esr][k] < idx[er'][esr'][k']
  {
    forall er, esr, k | IsCell(g, er, esr, k) && g[er][esr][k] < 0
      ensures base <= idx[er][esr][k] < base + CountOwned3(g)
    {
      OwnedCellBounds(g, er, esr, k);
      CountOwned3Monotone(g, er + 1, |g|);
      assert g[..|g|] == g;
    }
    forall er, esr, k, er', esr', k' |
      IsCell(g, er, esr, k) && IsCell(g, er', esr', k') && g[er][esr][k] < 0 && g[er'][esr'][k'] < 0 &&
      (er < er' || (er == er' && esr < esr') || (er == er' && esr == esr' && k < k'))
      ensures idx[er][esr][k] < idx[er'][esr'][k']
    {
      OwnedBeforeIncreases(g, er, esr, k, er', esr', k');
    }
  }

  // ---------------------------------------------------------------------
  // Face connectors
  // ---------------------------------------------------------------------

  /** The two neighbours of a face: region, subregion and element of each,
    * with region `-1` for a missing neighbour. */
  datatype FaceToElems = FaceToElems(er0: int, esr0: int, ei0: int, er1: int, esr1: int, ei1: int)

  /** `SetSparsityPattern` reads the ghost rank of a face's first neighbour
    * before any check, so that neighbour must exist. */
  predicate FirstNeighbourExists(g: seq<seq<seq<int>>>, f: FaceToElems) {
    IsCell(g, f.er0, f.esr0, f.ei0)
  }

  /** A face is a connector when its first neighbour is owned and both
    * neighbour regions are valid. */
  predicate IsConnector(g: seq<seq<seq<int>>>, f: FaceToElems)
    requires FirstNeighbourExists(g, f)
  {
    g[f.er0][f.esr0][f.ei0] < 0 && f.er0 >= 0 && f.er1 >= 0
  }

  /** The connector faces among the first `n` faces, in face order. */
  function Connectors(g: seq<seq<seq<int>>>, faces: seq<FaceToElems>, n: nat): seq<int>
    requires n <= |faces|
    requires forall f | 0 <= f < |faces| :: FirstNeighbourExists(g, faces[f])
  {
    if n == 0 then []
    else Connectors(g, faces, n - 1) + (if IsConnector(g, faces[n - 1]) then [n - 1] else [])
  }

  /** `resize(n)` of an integer array: the first entries are kept and new
    * ones are zero. */
  function Resize(previous: seq<int>, n: nat): (r: seq<int>)
    ensures |r| == n
    ensures forall i | 0 <= i < n :: r[i] == if i < |previous| then previous[i] else 0
  {
    seq(n, i requires 0 <= i < n => if i < |previous| then previous[i] else 0)
  }

  /** `SetSparsityPattern`: `m_faceConnectors` is resized to the face count
    * and its first `numFaceConnectors` entries are overwritten by the
    * connector faces. (The sparsity insertion itself is a library call.) */
  method SetSparsityPattern(ghostRank: seq<seq<seq<int>>>, faces: seq<FaceToElems>, previous: seq<int>)
    returns (faceConnectors: seq<int>, numFaceConnectors: nat)
    requires forall f | 0 <= f < |faces| :: FirstNeighbourExists(ghostRank, faces[f])
    ensures |faceConnectors| == |faces|
    ensures numFaceConnectors <= |faces|
    ensures faceConnectors[..numFaceConnectors] == Connectors(ghostRank, faces, |faces|)
    ensures faceConnectors[numFaceConnectors..] == Resize(previous, |faces|)[numFaceConnectors..]
  {
    faceConnectors := Resize(previous, |faces|);
    numFaceConnectors := 0;
    var kf := 0;
    while kf < |faces|
      invariant 0 <= numFaceConnectors <= kf <= |faces|
      invariant |faceConnectors| == |faces|
      invariant faceConnectors[..numFaceConnectors] == Connectors(ghostRank, faces, kf)
      invariant faceConnectors[numFaceConnectors..] == Resize(previous, |faces|)[numFaceConnectors..]
    {
      var f := faces[kf];
      if ghostRank[f.er0][f.esr0][f.ei0] < 0 {
        if f.er0 >= 0 && f.er1 >= 0 {
          faceConnectors := faceConnectors[numFaceConnectors := kf];
          numFaceConnectors := numFaceConnectors + 1;
        }
      }
      kf := kf + 1;
    }
  }

  /** The connectors are exactly the faces passing the test, listed once
    * each in increasing face order. */
  lemma {:induction false} ConnectorsAreTheSelectedFaces(g: seq<seq<seq<int>>>, faces: seq<FaceToElems>, n: nat)
    requires n <= |faces|
    requires forall f | 0 <= f < |faces| :: FirstNeighbourExists(g, faces[f])
    ensures forall i | 0 <= i < |Connectors(g, faces, n)| :: 0 <= Connectors(g, faces, n)[i] < n
    ensures forall f | 0 <= f < n :: f in Connectors(g, faces, n) <==> IsConnector(g, faces[f])
    ensures forall i, j | 0 <= i < j < |Connectors(g, faces, n)| :: Connectors(g, faces, n)[i] < Connectors(g, faces, n)[j]
  {
    if n > 0 {
      ConnectorsAreTheSelectedFaces(g, faces, n - 1);
      var c := Connectors(g, faces, n - 1);
      if IsConnector(g, faces[n - 1]) {
        assert Connectors(g, faces, n) == c + [n - 1];
      } else {
        assert Connectors(g, faces, n) == c;
      }
    }
  }

  // ---------------------------------------------------------------------
  // Assembly
  // ---------------------------------------------------------------------

  /** The placeholder constants of the face loop of `Assemble`. */
  const Permeability: real := 0.000000000000000001
  const Viscosity: real := 0.001
  const PoreCompressibility: real := 0.0

  /** `face_weight = L0 / (L0 + L1)`. */
  function FaceWeight(l0: real, l1: real): real
    requires l0 + l1 != 0.0
  {
    l0 / (l0 + l1)
  }

  /** The upwind-free averaging weight lies in `[0, 1]` for non-negative
    * half-distances that are not both zero. */
  lemma FaceWeightInUnitInterval(l0: real, l1: real)
    requires 0.0 <= l0 && 0.0 <= l1 && l0 + l1 > 0.0
    ensures 0.0 <= FaceWeight(l0, l1) <= 1.0
  {
    assert l0 / (l0 + l1) * (l0 + l1) == l0;
  }

  /** The local 2 x 2 face matrix and face right-hand side. */
  datatype FaceSystem = FaceSystem(m00: real, m01: real, m10: real, m11: real, rhs0: real, rhs1: real)

  /** What the face loop reads for one face: the two half-transmissibility
    * lengths, the two densities and pressures, and the bulk modulus of the
    * first neighbour's fluid. */
  datatype FaceData = FaceData(lOverA0: real, lOverA1: real, rho1: real, rho2: real,
                               pressure1: real, pressure2: real, bulkModulus: real)

  predicate WellDefined(d: FaceData) {
    d.lOverA0 + d.lOverA1 != 0.0 && d.bulkModulus != 0.0
  }

  /** The face stencil of `Assemble` (with the gravity terms `dRgdP` at
    * 0). */
  function ComputeFaceSystem(d: FaceData, dt: real): FaceSystem
    requires WellDefined(d)
  {
    var w := FaceWeight(d.lOverA0, d.lOverA1);
    assert d.lOverA0 / Permeability + d.lOverA1 / Permeability == (d.lOverA0 + d.lOverA1) / Permeability;
    var trans := 1.0 / (d.lOverA0 / Permeability + d.lOverA1 / Permeability);
    var rhoav := w * d.rho1 + (1.0 - w) * d.rho2;
    var dP := d.pressure1 - d.pressure2;
    var rhoTrans := rhoav * trans / Viscosity * dt;
    var compressibility := 1.0 / d.bulkModulus;
    var dRdP1 := dP * w * d.rho1 * (compressibility + PoreCompressibility) * trans / Viscosity * dt;
    var dRdP2 := dP * (1.0 - w) * d.rho2 * (compressibility + PoreCompressibility) * trans / Viscosity * dt;
    var dRgdP1, dRgdP2 := 0.0, 0.0;
    FaceSystem(rhoTrans + dRdP1 - rhoTrans * dRgdP1,
               -rhoTrans + dRdP2 - rhoTrans * dRgdP2,
               -rhoTrans - dRdP1 + rhoTrans * dRgdP1,
               rhoTrans - dRdP2 + rhoTrans * dRgdP2,
               rhoTrans * dP,
               -rhoTrans * dP)
  }

  /** Flux conservation: what leaves one cell enters the other, so the two
    * right-hand-side entries are opposite and each matrix column sums to
    * zero; with equal pressures there is no flux and the matrix is the
    * symmetric `rhoTrans [[1, -1], [-1, 1]]`. */
  lemma FaceSystemIsConservative(d: FaceData, dt: real)
    requires WellDefined(d)
    ensures var s := ComputeFaceSystem(d, dt);
      s.rhs0 == -s.rhs1 && s.m00 + s.m10 == 0.0 && s.m01 + s.m11 == 0.0
    ensures d.pressure1 == d.pressure2 ==> var s := ComputeFaceSystem(d, dt);
      s.rhs0 == 0.0 && s.rhs1 == 0.0 && s.m00 == s.m11 && s.m01 == s.m10 && s.m01 == -s.m00
  {
  }

  /** A face contributes when it is not a ghost and has two neighbours. */
  predicate AssemblesFace(faceGhostRank: int, f: FaceToElems) {
    faceGhostRank < 0 && f.er0 >= 0 && f.er1 >= 0
  }

  /** One face's contribution: the face and its local system. */
  datatype FaceContribution = FaceContribution(face: nat, system: FaceSystem)

  /** The contributions of the first `n` faces, in face order. */
  function FaceContributions(faceGhostRank: seq<int>, faces: seq<FaceToElems>, data: seq<FaceData>, dt: real, n: nat)
    : seq<FaceContribution>
    requires n <= |faces| == |faceGhostRank| == |data|
    requires forall f | 0 <= f < |data| :: WellDefined(data[f])
  {
    if n == 0 then []
    else
      var last := if AssemblesFace(faceGhostRank[n - 1], faces[n - 1])
        then [FaceContribution(n - 1, ComputeFaceSystem(data[n - 1], dt))] else [];
      FaceContributions(faceGhostRank, faces, data, dt, n - 1) + last
  }

  /** The face loop of `Assemble`; the scatter into the global system is a
    * library call, so the loop's result is the list of face systems in the
    * order they are summed in. */
  method AssembleFaces(faceGhostRank: seq<int>, faces: seq<FaceToElems>, data: seq<FaceData>, dt: real)
    returns (contributions: seq<FaceContribution>)
    requires |faces| == |faceGhostRank| == |data|
    requires forall f | 0 <= f < |data| :: WellDefined(data[f])
    ensures contributions == FaceContributions(faceGhostRank, faces, data, dt, |faces|)
  {
    contributions := [];
    var kf := 0;
    while kf < |faces|
      invariant 0 <= kf <= |faces|
      invariant contributions == FaceContributions(faceGhostRank, faces, data, dt, kf)
    {
      if faceGhostRank[kf] < 0 {
        var f := faces[kf];
        if f.er0 >= 0 && f.er1 >= 0 {
          contributions := contributions + [FaceContribution(kf, ComputeFaceSystem(data[kf], dt))];
        }
      }
      kf := kf + 1;
    }
  }

  /** The sum of all face right-hand-side entries. */
  function TotalFaceRhs(cs: seq<FaceContribution>): real {
    if |cs| == 0 then 0.0 else TotalFaceRhs(cs[..|cs| - 1]) + cs[|cs| - 1].system.rhs0 + cs[|cs| - 1].system.rhs1
  }

  /** Global conservation: summed over every assembled face, the face fluxes
    * cancel, and only non-ghost faces with two neighbours are assembled. */
  lemma {:induction false} FaceFluxesCancel(faceGhostRank: seq<int>, faces: seq<FaceToElems>, data: seq<FaceData>, dt: real, n: nat)
    requires n <= |faces| == |faceGhostRank| == |data|
    requires forall f | 0 <= f < |data| :: WellDefined(data[f])
    ensures TotalFaceRhs(FaceContributions(faceGhostRank, faces, data, dt, n)) == 0.0
    ensures forall c | c in FaceContributions(faceGhostRank, faces, data, dt, n) ::
      c.face < n && AssemblesFace(faceGhostRank[c.face], faces[c.face])
  {
    if n > 0 {
      FaceFluxesCancel(faceGhostRank, faces, data, dt, n - 1);
      var prev := FaceContributions(faceGhostRank, faces, data, dt, n - 1);
      if AssemblesFace(faceGhostRank[n - 1], faces[n - 1]) {
        var c := FaceContribution(n - 1, ComputeFaceSystem(data[n - 1], dt));
        FaceSystemIsConservative(data[n - 1], dt);
        assert (prev + [c])[..|prev + [c]| - 1] == prev;
      } else {
        assert prev + [] == prev;
      }
    }
  }

  /** The 1 x 1 accumulation system of one cell in the cell loop of
    * `Assemble`. */
  datatype CellSystem = CellSystem(matrix: real, rhs: real)

  /** `elem_matrix(0,0)` and `elem_rhs(0)` for one cell, with the density
    * increment `dRho` from the equation of state. */
  function CellAccumulation(bulkModulus: real, rho: real, volume: real, porosity: real,
                            dPorosity: real, dRho: real, dVolume: real): CellSystem
    requires bulkModulus != 0.0
  {
    CellSystem(1.0 / bulkModulus * rho * volume * porosity,
               ((dPorosity + porosity) * (dRho + rho)) * dVolume
               + (dPorosity * (dRho + rho) + porosity * dRho) * volume)
  }

  /** The accumulation right-hand side is exactly the change of pore fluid
    * mass `(phi + dphi)(rho + drho)(V + dV) - phi rho V`, so it vanishes when
    * nothing changed. */
  lemma CellRhsIsMassChange(bulkModulus: real, rho: real, volume: real, porosity: real,
                            dPorosity: real, dRho: real, dVolume: real)
    requires bulkModulus != 0.0
    ensures CellAccumulation(bulkModulus, rho, volume, porosity, dPorosity, dRho, dVolume).rhs
         == (porosity + dPorosity) * (rho + dRho) * (volume + dVolume) - porosity * rho * volume
    ensures dPorosity == 0.0 && dRho == 0.0 && dVolume == 0.0 ==>
      CellAccumulation(bulkModulus, rho, volume, porosity, dPorosity, dRho, dVolume).rhs == 0.0
  {
    var a, b := porosity + dPorosity, rho + dRho;
    assert a * b * (volume + dVolume) == a * b * dVolume + a * b * volume;
    assert a * b * volume - porosity * rho * volume == (dPorosity * b + porosity * dRho) * volume;
  }

  // ---------------------------------------------------------------------
  // Applying the solution
  // ---------------------------------------------------------------------

  /** The contiguous row map of this process: global rows
    * `[minMyGid, minMyGid + numMyElements)`. */
  datatype RowMap = RowMap(minMyGid: int, numMyElements: nat)

  /** `Epetra_Map::LID`: the local index of a global row, `-1` when the row
    * is not on this process. */
  function Lid(m: RowMap, gid: int): (lid: int)
    ensures -1 <= lid < m.numMyElements
    ensures lid >= 0 <==> m.minMyGid <= gid < m.minMyGid + m.numMyElements
  {
    if m.minMyGid <= gid < m.minMyGid + m.numMyElements then gid - m.minMyGid else -1
  }

  /** The solution index `ApplySystemSolution` reads for a cell, as written:
    * `local_solution[rowMap->LID(trilinosIndex)]`. */
  function SolutionReadIndexAsWritten(m: RowMap, trilinosIndex: int): int {
    Lid(m, trilinosIndex)
  }

  /** For every ghost cell the code as written reads `local_solution[-1]`,
    * one element before the start of the vector. */
  lemma GhostCellReadsBeforeSolution(idx: seq<seq<seq<int>>>, g: seq<seq<seq<int>>>, base: int, m: RowMap,
                                     er: nat, esr: nat, k: nat)
    requires IsNumbering(idx, g, base)
    requires IsCell(g, er, esr, k) && g[er][esr][k] >= 0
    requires m.minMyGid >= 0
    ensures SolutionReadIndexAsWritten(m, idx[er][esr][k]) == -1
  {
  }

  /** A concrete instance: one region with one subregion holding an owned
    * cell and a ghost cell; the ghost's read index is `-1`. */
  lemma GhostCellReadExample()
    ensures var g := [[[-1, 0]]];
      SolutionReadIndexAsWritten(RowMap(0, 1), CellIndex(g, 0, 0, 1, 0)) == -1
  {
  }

  /** The new value of one cell: ghosts (and any row not on this process)
    * keep their pressure, owned cells take their solution entry. */
  function UpdatedValue(m: RowMap, localSolution: seq<real>, trilinosIndex: int, previous: real): real
    requires |localSolution| == m.numMyElements
  {
    var lid := Lid(m, trilinosIndex);
    if lid >= 0 then localSolution[lid] else previous
  }

  /** `fieldVar` has the shape of `idx`. */
  predicate SameShapeReal(field: seq<seq<seq<real>>>, idx: seq<seq<seq<int>>>) {
    |field| == |idx| &&
    (forall er | 0 <= er < |idx| :: |field[er]| == |idx[er]|) &&
    (forall er, esr | 0 <= er < |idx| && 0 <= esr < |idx[er]| :: |field[er][esr]| == |idx[er][esr]|)
  }

  /** `ApplySystemSolution` with the read guarded by `lid >= 0`: every cell
    * whose row is on this process takes its solution entry, the others keep
    * their value. */
  method ApplySystemSolution(fieldVar: seq<seq<seq<real>>>, trilinosIndex: seq<seq<seq<int>>>,
                             m: RowMap, localSolution: seq<real>)
    returns (updated: seq<seq<seq<real>>>)
    requires SameShapeReal(fieldVar, trilinosIndex)
    requires |localSolution| == m.numMyElements
    ensures SameShapeReal(updated, trilinosIndex)
    ensures forall er, esr, k | IsCell(trilinosIndex, er, esr, k) ::
      updated[er][esr][k] == UpdatedValue(m, localSolution, trilinosIndex[er][esr][k], fieldVar[er][esr][k])
  {
    updated := [];
    var er := 0;
    while er < |trilinosIndex|
      invariant 0 <= er <= |trilinosIndex|
      invariant |updated| == er
      invariant forall e | 0 <= e < er :: |updated[e]| == |trilinosIndex[e]|
      invariant forall e, s | 0 <= e < er && 0 <= s < |trilinosIndex[e]| :: |updated[e][s]| == |trilinosIndex[e][s]|
      invariant forall e, s, k | 0 <= e < er && IsCell(trilinosIndex, e, s, k) ::
        updated[e][s][k] == UpdatedValue(m, localSolution, trilinosIndex[e][s][k], fieldVar[e][s][k])
    {
      var region: seq<seq<real>> := [];
      var esr := 0;
      while esr < |trilinosIndex[er]|
        invariant 0 <= esr <= |trilinosIndex[er]|
        invariant |region| == esr
        invariant forall s | 0 <= s < esr :: |region[s]| == |trilinosIndex[er][s]|
        invariant forall s, k | 0 <= s < esr && IsCell(trilinosIndex, er, s, k) ::
          region[s][k] == UpdatedValue(m, localSolution, trilinosIndex[er][s][k], fieldVar[er][s][k])
      {
        var sub: seq<real> := [];
        var k := 0;
        while k < |trilinosIndex[er][esr]|
          invariant 0 <= k <= |trilinosIndex[er][esr]|
          invariant |sub| == k
          invariant forall j | 0 <= j < k ::
            sub[j] == UpdatedValue(m, localSolution, trilinosIndex[er][esr][j], fieldVar[er][esr][j])
        {
          var lid := Lid(m, trilinosIndex[er][esr][k]);
          if lid >= 0 {
            sub := sub + [localSolution[lid]];
          } else {
            sub := sub + [fieldVar[er][esr][k]];
          }
          k := k + 1;
        }
        region := region + [sub];
        esr := esr + 1;
      }
      updated := updated + [region];
      er := er + 1;
    }
  }

  /** The local row of an owned cell. */
  function LocalRow(g: seq<seq<seq<int>>>, er: nat, esr: nat, k: nat): (row: nat)
    requires IsCell(g, er, esr, k)
    ensures g[er][esr][k] < 0 ==> row < CountOwned3(g)
  {
    if g[er][esr][k] < 0 then
      OwnedCellBounds(g, er, esr, k);
      CountOwned3Monotone(g, er + 1, |g|);
      assert g[..|g|] == g;
      OwnedBefore(g, er, esr, k)
    else OwnedBefore(g, er, esr, k)
  }

  /** With the map of this process's rows and the numbering built from its
    * first row, every owned cell takes the solution entry of its own local
    * row, and every ghost keeps its value. */
  lemma OwnedCellsTakeTheirRow(fieldVar: seq<seq<seq<real>>>, idx: seq<seq<seq<int>>>, g: seq<seq<seq<int>>>,
                               firstLocalRow: int, localSolution: seq<real>, er: nat, esr: nat, k: nat)
    requires IsNumbering(idx, g, firstLocalRow)
    requires |localSolution| == CountOwned3(g)
    requires firstLocalRow >= 0
    requires IsCell(g, er, esr, k)
    ensures g[er][esr][k] < 0 ==>
      UpdatedValue(RowMap(firstLocalRow, CountOwned3(g)), localSolution, idx[er][esr][k], 0.0)
        == localSolution[LocalRow(g, er, esr, k)]
    ensures g[er][esr][k] >= 0 ==>
      UpdatedValue(RowMap(firstLocalRow, CountOwned3(g)), localSolution, idx[er][esr][k], 0.0) == 0.0
  {
    assert idx[er][esr][k] == CellIndex(g, er, esr, k, firstLocalRow);
    if g[er][esr][k] < 0 {
      var row := LocalRow(g, er, esr, k);
      assert row == OwnedBefore(g, er, esr, k) && row < CountOwned3(g);
    }
  }
}

/** The kernels of the second-order elastic spectral-element wave solver
  * (src/coreComponents/physicsSolvers/wavePropagation/ElasticWaveEquationSEMKernel.hpp):
  * locating sources and receivers and precomputing their terms, and the
  * absorbing-boundary damping matrix, and the stack set-up of the explicit
  * elastic kernel. The mass matrix launch is `WaveKernels.MassMatrixLaunch`.
  *
  * Elements are visited in order `k = 0 .. size-1` (the forAll loop run
  * sequentially), and within an element targets in index order. */
module ElasticWaveSEM {
  import opened Wrappers
  import opened GlobalAssembly
  import opened WaveKernels

  // ---------------------------------------------------------------------
  // Source terms
  // ---------------------------------------------------------------------

  /** A symmetric 3x3 tensor (`R2SymTensor`) in the Voigt order xx, yy, zz,
    * yz, xz, xy. */
  datatype SymTensor = SymTensor(xx: real, yy: real, zz: real, yz: real, xz: real, xy: real)

  /** The product of a symmetric tensor and a vector: what `Ri_add_symAijBj`
    * adds to its first argument. */
  function SymTimes(a: SymTensor, b: Vec3): Vec3 {
    Vec3(a.xx * b.x + a.xy * b.y + a.xz * b.z,
         a.xy * b.x + a.yy * b.y + a.yz * b.z,
         a.xz * b.x + a.yz * b.y + a.zz * b.z)
  }

  function Dot(u: Vec3, v: Vec3): real {
    u.x * v.x + u.y * v.y + u.z * v.z
  }

  /** `u . (A v) == (A u) . v` written out on the entries. */
  lemma SelfAdjointEntries(ux: real, uy: real, uz: real, vx: real, vy: real, vz: real,
                           xx: real, yy: real, zz: real, yz: real, xz: real, xy: real)
    ensures ux * (xx * vx + xy * vy + xz * vz) + uy * (xy * vx + yy * vy + yz * vz) + uz * (xz * vx + yz * vy + zz * vz)
            == (xx * ux + xy * uy + xz * uz) * vx + (xy * ux + yy * uy + yz * uz) * vy + (xz * ux + yz * uy + zz * uz) * vz
  {
  }

  /** The Voigt storage really stands for a symmetric operator: moving it from
    * one side of a dot product to the other does not change the product. */
  lemma SymTimesIsSelfAdjoint(a: SymTensor, u: Vec3, v: Vec3)
    ensures Dot(u, SymTimes(a, v)) == Dot(SymTimes(a, u), v)
  {
    SelfAdjointEntries(u.x, u.y, u.z, v.x, v.y, v.z, a.xx, a.yy, a.zz, a.yz, a.xz, a.xy);
  }

  /** The component of `v` along axis 0, 1 or 2. */
  function Component(v: Vec3, axis: nat): real {
    if axis == 0 then v.x else if axis == 1 then v.y else v.z
  }

  /** The source term of one node: the force weighted by the node's shape
    * function plus the moment applied to the shape function's gradient. */
  function SourceIncrement(force: Vec3, moment: SymTensor, n: real, gradN: Vec3): (r: Vec3)
    ensures moment == SymTensor(0.0, 0.0, 0.0, 0.0, 0.0, 0.0) ==>
              r == Vec3(force.x * n, force.y * n, force.z * n)
    ensures force == Vec3(0.0, 0.0, 0.0) ==> r == SymTimes(moment, gradN)
  {
    var m := SymTimes(moment, gradN);
    Vec3(force.x * n + m.x, force.y * n + m.y, force.z * n + m.z)
  }

  /** What the location and finite-element helpers answer for element `k`:
    * whether it holds source (receiver) `i` (`locateSourceElement`), and the
    * shape functions (`calcN`) and their gradients (`calcGradN`) of node `q`
    * at the target's reference coordinates. */
  datatype Locator = Locator(sourceFound: (nat, nat) -> bool, receiverFound: (nat, nat) -> bool,
                             sourceN: (nat, nat, nat) -> real, sourceGradN: (nat, nat, nat) -> Vec3,
                             receiverN: (nat, nat, nat) -> real)

  /** The source: the Ricker wavelet of the configured frequency and order, as
    * a function of time, the time step, the force and the moment. */
  datatype Signal = Signal(ricker: real -> real, dt: real, sourceForce: Vec3, sourceMoment: SymTensor)

  /** The element-to-node map of the region, the ghost ranks and the number of
    * nodes per element. */
  datatype Elements = Elements(elemsToNodes: seq<seq<int>>, elemGhostRank: seq<int>, numNodesPerElem: nat)

  predicate HasElement(el: Elements, k: nat) {
    k < |el.elemsToNodes| && k < |el.elemGhostRank| && el.numNodesPerElem <= |el.elemsToNodes[k]|
  }

  predicate ValidElements(el: Elements, size: nat) {
    forall k :: 0 <= k < size ==> HasElement(el, k)
  }

  /** The source term node `q` of element `k` contributes for source `i`. */
  function LocalIncrement(loc: Locator, sig: Signal, k: nat, i: nat, q: nat): Vec3 {
    SourceIncrement(sig.sourceForce, sig.sourceMoment, loc.sourceN(k, i, q), loc.sourceGradN(k, i, q))
  }

  /** A constants row once element `k` has added source `i`'s terms along `axis`. */
  function ConstantsAfter(row: seq<real>, loc: Locator, sig: Signal, k: nat, i: nat, axis: nat): (r: seq<real>)
    ensures |r| == |row|
  {
    seq(|row|, q requires 0 <= q < |row| => row[q] + Component(LocalIncrement(loc, sig, k, i, q), axis))
  }

  // ---------------------------------------------------------------------
  // The source table
  // ---------------------------------------------------------------------

  /** Everything the sources part of the launch writes: `sourceIsAccessible`,
    * `sourceNodeIds`, `sourceConstantsx/y/z` (one row per source) and
    * `sourceValue` (one row per cycle, one column per source). */
  datatype SourceTable = SourceTable(isAccessible: seq<int>, nodeIds: seq<seq<int>>,
                                     constantsx: seq<seq<real>>, constantsy: seq<seq<real>>,
                                     constantsz: seq<seq<real>>, value: seq<seq<real>>)

  /** One row per source in each per-source array. */
  predicate SourceCounts(t: SourceTable) {
    var m := |t.isAccessible|;
    |t.nodeIds| == m && |t.constantsx| == m && |t.constantsy| == m && |t.constantsz| == m
  }

  /** The shapes the arrays are allocated with: rows of `n` node entries and a
    * column per source in every cycle's row. */
  predicate SourceShaped(t: SourceTable, n: nat) {
    var m := |t.isAccessible|;
    SourceCounts(t)
    && (forall i :: 0 <= i < m ==> |t.nodeIds[i]| == n)
    && (forall i :: 0 <= i < m ==> |t.constantsx[i]| == n)
    && (forall i :: 0 <= i < m ==> |t.constantsy[i]| == n)
    && (forall i :: 0 <= i < m ==> |t.constantsz[i]| == n)
    && ValueColumns(t)
  }

  /** A column per source in every cycle's row of `sourceValue`. */
  predicate ValueColumns(t: SourceTable) {
    forall c :: 0 <= c < |t.value| ==> |t.value[c]| == |t.isAccessible|
  }

  /** Element `k` takes source `i`: the flag becomes 1, the node ids become
    * the element's nodes, each constant gains the node's source term and every
    * cycle's value is the wavelet at the cycle's time. */
  function RegisterSourceRow(t: SourceTable, el: Elements, loc: Locator, sig: Signal, k: nat, i: nat): (r: SourceTable)
    requires SourceCounts(t) && HasElement(el, k) && i < |t.isAccessible|
    ensures SourceCounts(r) && |r.isAccessible| == |t.isAccessible| && |r.value| == |t.value|
  {
    SourceTable(t.isAccessible[i := 1],
                t.nodeIds[i := el.elemsToNodes[k][..el.numNodesPerElem]],
                t.constantsx[i := ConstantsAfter(t.constantsx[i], loc, sig, k, i, 0)],
                t.constantsy[i := ConstantsAfter(t.constantsy[i], loc, sig, k, i, 1)],
                t.constantsz[i := ConstantsAfter(t.constantsz[i], loc, sig, k, i, 2)],
                seq(|t.value|, c requires 0 <= c < |t.value| => Put(t.value[c], i, CycleValue(sig.ricker, sig.dt, c))))
  }

  /** The table once element `k` has examined sources `0 .. m-1`. */
  function LocateSourcesUpTo(t: SourceTable, el: Elements, loc: Locator, sig: Signal, k: nat, m: nat): (r: SourceTable)
    requires SourceCounts(t) && HasElement(el, k) && m <= |t.isAccessible|
    ensures SourceCounts(r) && |r.isAccessible| == |t.isAccessible| && |r.value| == |t.value|
  {
    if m == 0 then t
    else
      var s := LocateSourcesUpTo(t, el, loc, sig, k, m - 1);
      if s.isAccessible[m - 1] == 0 && loc.sourceFound(k, m - 1) then RegisterSourceRow(s, el, loc, sig, k, m - 1)
      else s
  }

  /** The table once elements `0 .. k-1` have examined every source. */
  function SourcesAfter(t: SourceTable, el: Elements, loc: Locator, sig: Signal, k: nat): (r: SourceTable)
    requires SourceCounts(t) && ValidElements(el, k)
    ensures SourceCounts(r) && |r.isAccessible| == |t.isAccessible| && |r.value| == |t.value|
  {
    if k == 0 then t
    else LocateSourcesUpTo(SourcesAfter(t, el, loc, sig, k - 1), el, loc, sig, k - 1, |t.isAccessible|)
  }

  /** All that the table holds about source `i`. */
  datatype SourceRow = SourceRow(isAccessible: int, nodeIds: seq<int>, constantsx: seq<real>,
                                 constantsy: seq<real>, constantsz: seq<real>, values: seq<real>)

  function SourceRowOf(t: SourceTable, i: nat): SourceRow
    requires SourceCounts(t) && i < |t.isAccessible|
  {
    SourceRow(t.isAccessible[i], t.nodeIds[i], t.constantsx[i], t.constantsy[i], t.constantsz[i],
              seq(|t.value|, c requires 0 <= c < |t.value| => Entry(t.value[c], i)))
  }

  /** Source `i`'s row once element `k` has taken it. */
  function RegisteredSource(r: SourceRow, el: Elements, loc: Locator, sig: Signal, k: nat, i: nat): SourceRow
    requires HasElement(el, k)
  {
    SourceRow(1, el.elemsToNodes[k][..el.numNodesPerElem],
              ConstantsAfter(r.constantsx, loc, sig, k, i, 0),
              ConstantsAfter(r.constantsy, loc, sig, k, i, 1),
              ConstantsAfter(r.constantsz, loc, sig, k, i, 2),
              seq(|r.values|, c requires 0 <= c < |r.values| => CycleValue(sig.ricker, sig.dt, c)))
  }

  /** Registering a source keeps every array's shape. */
  lemma RegisterSourceRowShaped(t: SourceTable, el: Elements, loc: Locator, sig: Signal, k: nat, i: nat)
    requires SourceShaped(t, el.numNodesPerElem) && HasElement(el, k) && i < |t.isAccessible|
    ensures SourceShaped(RegisterSourceRow(t, el, loc, sig, k, i), el.numNodesPerElem)
  {
  }

  lemma {:induction false} LocateSourcesUpToColumns(t: SourceTable, el: Elements, loc: Locator, sig: Signal, k: nat, m: nat)
    requires SourceCounts(t) && ValueColumns(t) && HasElement(el, k) && m <= |t.isAccessible|
    ensures ValueColumns(LocateSourcesUpTo(t, el, loc, sig, k, m))
  {
    if m > 0 {
      var j: nat := m - 1;
      LocateSourcesUpToColumns(t, el, loc, sig, k, j);
    }
  }

  lemma {:induction false} SourcesAfterColumns(t: SourceTable, el: Elements, loc: Locator, sig: Signal, size: nat)
    requires SourceCounts(t) && ValueColumns(t) && ValidElements(el, size)
    ensures ValueColumns(SourcesAfter(t, el, loc, sig, size))
  {
    if size > 0 {
      var k: nat := size - 1;
      assert HasElement(el, k);
      SourcesAfterColumns(t, el, loc, sig, k);
      LocateSourcesUpToColumns(SourcesAfter(t, el, loc, sig, k), el, loc, sig, k, |t.isAccessible|);
    }
  }

  lemma SourceRowOfRegister(t: SourceTable, el: Elements, loc: Locator, sig: Signal, k: nat, j: nat, i: nat)
    requires SourceCounts(t) && ValueColumns(t) && HasElement(el, k)
    requires j < |t.isAccessible| && i < |t.isAccessible|
    ensures SourceRowOf(RegisterSourceRow(t, el, loc, sig, k, j), i)
              == if i == j then RegisteredSource(SourceRowOf(t, i), el, loc, sig, k, i) else SourceRowOf(t, i)
  {
    var r := RegisterSourceRow(t, el, loc, sig, k, j);
    if i == j {
      assert SourceRowOf(r, i).values == RegisteredSource(SourceRowOf(t, i), el, loc, sig, k, i).values;
    } else {
      assert SourceRowOf(r, i).values == SourceRowOf(t, i).values;
    }
  }

  /** One element's sweep: source `i` is taken by element `k` exactly when it
    * was among the examined ones, its flag was still 0 and `k` locates it;
    * otherwise its row is untouched. */
  lemma {:induction false} SourceRowOfUpTo(t: SourceTable, el: Elements, loc: Locator, sig: Signal, k: nat, m: nat, i: nat)
    requires SourceCounts(t) && ValueColumns(t) && HasElement(el, k)
    requires m <= |t.isAccessible| && i < |t.isAccessible|
    ensures SourceRowOf(LocateSourcesUpTo(t, el, loc, sig, k, m), i)
              == if i < m && SourceRowOf(t, i).isAccessible == 0 && loc.sourceFound(k, i)
                 then RegisteredSource(SourceRowOf(t, i), el, loc, sig, k, i)
                 else SourceRowOf(t, i)
  {
    if m > 0 {
      var j: nat := m - 1;
      var s := LocateSourcesUpTo(t, el, loc, sig, k, j);
      LocateSourcesUpToColumns(t, el, loc, sig, k, j);
      SourceRowOfUpTo(t, el, loc, sig, k, j, i);
      SourceRowOfUpTo(t, el, loc, sig, k, j, j);
      if s.isAccessible[j] == 0 && loc.sourceFound(k, j) {
        SourceRowOfRegister(s, el, loc, sig, k, j, i);
      }
    }
  }

  /** Source `i`'s row after the sweep, given the element that registered it. */
  function AfterSourceSweep(r0: SourceRow, reg: Option<nat>, el: Elements, loc: Locator, sig: Signal, i: nat): SourceRow
    requires reg.Some? ==> HasElement(el, reg.value)
  {
    match reg
    case None => r0
    case Some(e) => RegisteredSource(r0, el, loc, sig, e, i)
  }

  /** One more element in the sweep, on the rows alone. */
  lemma SourceSweepStep(r0: SourceRow, rs: SourceRow, rNew: SourceRow, flag0: int, found: (nat, nat) -> bool,
                        el: Elements, loc: Locator, sig: Signal, k: nat, i: nat)
    requires ValidElements(el, k + 1) && r0.isAccessible == flag0
    requires rs == AfterSourceSweep(r0, Registration(flag0, found, k, i), el, loc, sig, i)
    requires rNew == if rs.isAccessible == 0 && found(k, i) then RegisteredSource(rs, el, loc, sig, k, i) else rs
    ensures rNew == AfterSourceSweep(r0, Registration(flag0, found, k + 1, i), el, loc, sig, i)
  {
    assert HasElement(el, k);
  }

  /** The sources part of the launch: a source whose flag was 0 is taken by
    * the first element that locates it, and its row is that element's
    * registration; a source whose flag was nonzero, or which no element
    * locates, keeps its row. */
  lemma {:induction false} SourcesAfterRows(t: SourceTable, el: Elements, loc: Locator, sig: Signal, size: nat, i: nat)
    requires SourceCounts(t) && ValueColumns(t) && ValidElements(el, size) && i < |t.isAccessible|
    ensures SourceRowOf(SourcesAfter(t, el, loc, sig, size), i)
              == AfterSourceSweep(SourceRowOf(t, i), Registration(t.isAccessible[i], loc.sourceFound, size, i), el, loc, sig, i)
  {
    if size > 0 {
      var k: nat := size - 1;
      var s := SourcesAfter(t, el, loc, sig, k);
      SourcesAfterRows(t, el, loc, sig, k, i);
      SourcesAfterColumns(t, el, loc, sig, k);
      SourceRowOfUpTo(s, el, loc, sig, k, |s.isAccessible|, i);
      SourceSweepStep(SourceRowOf(t, i), SourceRowOf(s, i), SourceRowOf(SourcesAfter(t, el, loc, sig, size), i),
                      t.isAccessible[i], loc.sourceFound, el, loc, sig, k, i);
    }
  }

  // ---------------------------------------------------------------------
  // PrecomputeSourceAndReceiverKernel::launch, sources part
  // ---------------------------------------------------------------------

  /** The source arrays as a table. */
  function SourceState(isAccessible: array<int>, nodeIds: array<seq<int>>, constantsx: array<seq<real>>,
                       constantsy: array<seq<real>>, constantsz: array<seq<real>>, value: array<seq<real>>): SourceTable
    reads isAccessible, nodeIds, constantsx, constantsy, constantsz, value
  {
    SourceTable(isAccessible[..], nodeIds[..], constantsx[..], constantsy[..], constantsz[..], value[..])
  }

  predicate Distinct4(a: array<seq<real>>, b: array<seq<real>>, c: array<seq<real>>, d: array<seq<real>>) {
    a != b && a != c && a != d && b != c && b != d && c != d
  }

  /** Distinct arrays holding a well-shaped source table. */
  predicate SourceArrays(el: Elements, isAccessible: array<int>, nodeIds: array<seq<int>>, constantsx: array<seq<real>>,
                         constantsy: array<seq<real>>, constantsz: array<seq<real>>, value: array<seq<real>>)
    reads isAccessible, nodeIds, constantsx, constantsy, constantsz, value
  {
    Distinct4(constantsx, constantsy, constantsz, value)
    && SourceShaped(SourceState(isAccessible, nodeIds, constantsx, constantsy, constantsz, value), el.numNodesPerElem)
  }

  /** Source `i`'s constants once element `k` has added its terms: the loop
    * over the element's nodes. */
  method SourceConstants(el: Elements, loc: Locator, sig: Signal, k: nat, i: nat,
                         cx0: seq<real>, cy0: seq<real>, cz0: seq<real>)
    returns (ids: seq<int>, cx: seq<real>, cy: seq<real>, cz: seq<real>)
    requires HasElement(el, k)
    requires |cx0| == el.numNodesPerElem && |cy0| == el.numNodesPerElem && |cz0| == el.numNodesPerElem
    ensures ids == el.elemsToNodes[k][..el.numNodesPerElem]
    ensures cx == ConstantsAfter(cx0, loc, sig, k, i, 0)
    ensures cy == ConstantsAfter(cy0, loc, sig, k, i, 1)
    ensures cz == ConstantsAfter(cz0, loc, sig, k, i, 2)
  {
    var n := el.numNodesPerElem;
    ids, cx, cy, cz := [], [], [], [];
    for q := 0 to n
      invariant ids == el.elemsToNodes[k][..q]
      invariant cx == ConstantsAfter(cx0[..q], loc, sig, k, i, 0)
      invariant cy == ConstantsAfter(cy0[..q], loc, sig, k, i, 1)
      invariant cz == ConstantsAfter(cz0[..q], loc, sig, k, i, 2)
    {
      var inc := SourceIncrement(sig.sourceForce, sig.sourceMoment, loc.sourceN(k, i, q), loc.sourceGradN(k, i, q));
      ids := ids + [el.elemsToNodes[k][q]];
      cx := cx + [cx0[q] + inc.x];
      cy := cy + [cy0[q] + inc.y];
      cz := cz + [cz0[q] + inc.z];
      assert cx0[..q + 1] == cx0[..q] + [cx0[q]];
      assert cy0[..q + 1] == cy0[..q] + [cy0[q]];
      assert cz0[..q + 1] == cz0[..q] + [cz0[q]];
    }
    assert cx0[..n] == cx0 && cy0[..n] == cy0 && cz0[..n] == cz0;
  }

  /** Element `k` takes source `isrc`. */
  method RegisterSource(el: Elements, loc: Locator, sig: Signal, k: nat, isrc: nat,
                        isAccessible: array<int>, nodeIds: array<seq<int>>, constantsx: array<seq<real>>,
                        constantsy: array<seq<real>>, constantsz: array<seq<real>>, value: array<seq<real>>)
    requires SourceArrays(el, isAccessible, nodeIds, constantsx, constantsy, constantsz, value)
    requires HasElement(el, k) && isrc < isAccessible.Length
    modifies isAccessible, nodeIds, constantsx, constantsy, constantsz, value
    ensures SourceState(isAccessible, nodeIds, constantsx, constantsy, constantsz, value)
              == RegisterSourceRow(old(SourceState(isAccessible, nodeIds, constantsx, constantsy, constantsz, value)),
                                   el, loc, sig, k, isrc)
    ensures SourceArrays(el, isAccessible, nodeIds, constantsx, constantsy, constantsz, value)
  {
    ghost var t := SourceState(isAccessible, nodeIds, constantsx, constantsy, constantsz, value);
    isAccessible[isrc] := 1;
    var ids, cx, cy, cz := SourceConstants(el, loc, sig, k, isrc, constantsx[isrc], constantsy[isrc], constantsz[isrc]);
    nodeIds[isrc] := ids;
    constantsx[isrc] := cx;
    constantsy[isrc] := cy;
    constantsz[isrc] := cz;
    SourceValues(sig.ricker, sig.dt, isrc, value);
    assert value[..] == RegisterSourceRow(t, el, loc, sig, k, isrc).value;
    RegisterSourceRowShaped(t, el, loc, sig, k, isrc);
  }

  /** The sources loop of element `k`: every source whose flag is still 0 and
    * which `k` locates is taken by `k`. */
  method LocateSources(el: Elements, loc: Locator, sig: Signal, k: nat,
                       isAccessible: array<int>, nodeIds: array<seq<int>>, constantsx: array<seq<real>>,
                       constantsy: array<seq<real>>, constantsz: array<seq<real>>, value: array<seq<real>>)
    requires SourceArrays(el, isAccessible, nodeIds, constantsx, constantsy, constantsz, value)
    requires HasElement(el, k)
    modifies isAccessible, nodeIds, constantsx, constantsy, constantsz, value
    ensures SourceState(isAccessible, nodeIds, constantsx, constantsy, constantsz, value)
              == LocateSourcesUpTo(old(SourceState(isAccessible, nodeIds, constantsx, constantsy, constantsz, value)),
                                   el, loc, sig, k, isAccessible.Length)
    ensures SourceArrays(el, isAccessible, nodeIds, constantsx, constantsy, constantsz, value)
  {
    ghost var t := SourceState(isAccessible, nodeIds, constantsx, constantsy, constantsz, value);
    for isrc := 0 to isAccessible.Length
      invariant SourceState(isAccessible, nodeIds, constantsx, constantsy, constantsz, value)
                  == LocateSourcesUpTo(t, el, loc, sig, k, isrc)
      invariant SourceArrays(el, isAccessible, nodeIds, constantsx, constantsy, constantsz, value)
    {
      if isAccessible[isrc] == 0 {
        var sourceFound := loc.sourceFound(k, isrc);
        if sourceFound {
          RegisterSource(el, loc, sig, k, isrc, isAccessible, nodeIds, constantsx, constantsy, constantsz, value);
        }
      }
    }
  }

  // ---------------------------------------------------------------------
  // The receiver table
  // ---------------------------------------------------------------------

  /** Everything the receivers part of the launch writes: `receiverIsLocal`,
    * `receiverNodeIds` and `receiverConstants`, one row per receiver. */
  datatype ReceiverTable = ReceiverTable(isLocal: seq<int>, nodeIds: seq<seq<int>>, constants: seq<seq<real>>)

  /** One row per receiver in each per-receiver array. */
  predicate ReceiverCounts(t: ReceiverTable) {
    |t.nodeIds| == |t.isLocal| && |t.constants| == |t.isLocal|
  }

  /** A receiver is taken by an element that locates it and is owned by this
    * rank (ghost rank negative). */
  function ReceiverLocated(el: Elements, loc: Locator): (nat, nat) -> bool {
    (e: nat, i: nat) => e < |el.elemGhostRank| && el.elemGhostRank[e] < 0 && loc.receiverFound(e, i)
  }

  /** Receiver `i`'s interpolation weights in element `k`: the shape functions
    * at its reference coordinates. */
  function ReceiverWeights(el: Elements, loc: Locator, k: nat, i: nat): (r: seq<real>)
    ensures |r| == el.numNodesPerElem
  {
    seq(el.numNodesPerElem, a requires 0 <= a < el.numNodesPerElem => loc.receiverN(k, i, a))
  }

  /** Element `k` takes receiver `i`. */
  function RegisterReceiverRow(t: ReceiverTable, el: Elements, loc: Locator, k: nat, i: nat): (r: ReceiverTable)
    requires ReceiverCounts(t) && HasElement(el, k) && i < |t.isLocal|
    ensures ReceiverCounts(r) && |r.isLocal| == |t.isLocal|
  {
    ReceiverTable(t.isLocal[i := 1],
                  t.nodeIds[i := el.elemsToNodes[k][..el.numNodesPerElem]],
                  t.constants[i := ReceiverWeights(el, loc, k, i)])
  }

  /** The table once element `k` has examined receivers `0 .. m-1`. */
  function LocateReceiversUpTo(t: ReceiverTable, el: Elements, loc: Locator, k: nat, m: nat): (r: ReceiverTable)
    requires ReceiverCounts(t) && HasElement(el, k) && m <= |t.isLocal|
    ensures ReceiverCounts(r) && |r.isLocal| == |t.isLocal|
  {
    if m == 0 then t
    else
      var s := LocateReceiversUpTo(t, el, loc, k, m - 1);
      if s.isLocal[m - 1] == 0 && ReceiverLocated(el, loc)(k, m - 1) then RegisterReceiverRow(s, el, loc, k, m - 1)
      else s
  }

  /** The table once elements `0 .. k-1` have examined every receiver. */
  function ReceiversAfter(t: ReceiverTable, el: Elements, loc: Locator, k: nat): (r: ReceiverTable)
    requires ReceiverCounts(t) && ValidElements(el, k)
    ensures ReceiverCounts(r) && |r.isLocal| == |t.isLocal|
  {
    if k == 0 then t
    else LocateReceiversUpTo(ReceiversAfter(t, el, loc, k - 1), el, loc, k - 1, |t.isLocal|)
  }

  /** All that the table holds about receiver `i`. */
  datatype ReceiverRow = ReceiverRow(isLocal: int, nodeIds: seq<int>, constants: seq<real>)

  function ReceiverRowOf(t: ReceiverTable, i: nat): ReceiverRow
    requires i < |t.isLocal| && i < |t.nodeIds| && i < |t.constants|
  {
    ReceiverRow(t.isLocal[i], t.nodeIds[i], t.constants[i])
  }

  /** Receiver `i`'s row after the sweep, given the element that registered it. */
  function AfterReceiverSweep(r0: ReceiverRow, reg: Option<nat>, el: Elements, loc: Locator, i: nat): ReceiverRow
    requires reg.Some? ==> HasElement(el, reg.value)
  {
    match reg
    case None => r0
    case Some(e) => ReceiverRow(1, el.elemsToNodes[e][..el.numNodesPerElem], ReceiverWeights(el, loc, e, i))
  }

  lemma {:induction false} ReceiverRowOfUpTo(t: ReceiverTable, el: Elements, loc: Locator, k: nat, m: nat, i: nat)
    requires ReceiverCounts(t) && HasElement(el, k)
    requires m <= |t.isLocal| && i < |t.isLocal|
    ensures ReceiverRowOf(LocateReceiversUpTo(t, el, loc, k, m), i)
              == if i < m && t.isLocal[i] == 0 && ReceiverLocated(el, loc)(k, i)
                 then AfterReceiverSweep(ReceiverRowOf(t, i), Some(k), el, loc, i)
                 else ReceiverRowOf(t, i)
  {
    if m > 0 {
      var j: nat := m - 1;
      ReceiverRowOfUpTo(t, el, loc, k, j, i);
      ReceiverRowOfUpTo(t, el, loc, k, j, j);
    }
  }

  /** The receivers part of the launch: a receiver whose flag was 0 is taken
    * by the first owned element that locates it, which writes its node ids
    * and weights; any other receiver keeps its row. */
  lemma {:induction false} ReceiversAfterRows(t: ReceiverTable, el: Elements, loc: Locator, size: nat, i: nat)
    requires ReceiverCounts(t) && ValidElements(el, size) && i < |t.isLocal|
    ensures ReceiverRowOf(ReceiversAfter(t, el, loc, size), i)
              == AfterReceiverSweep(ReceiverRowOf(t, i), Registration(t.isLocal[i], ReceiverLocated(el, loc), size, i), el, loc, i)
  {
    if size > 0 {
      var k: nat := size - 1;
      var s := ReceiversAfter(t, el, loc, k);
      assert HasElement(el, k);
      ReceiversAfterRows(t, el, loc, k, i);
      ReceiverRowOfUpTo(s, el, loc, k, |s.isLocal|, i);
    }
  }

  // ---------------------------------------------------------------------
  // PrecomputeSourceAndReceiverKernel::launch, receivers part and launch
  // ---------------------------------------------------------------------

  function ReceiverState(isLocal: array<int>, nodeIds: array<seq<int>>, constants: array<seq<real>>): ReceiverTable
    reads isLocal, nodeIds, constants
  {
    ReceiverTable(isLocal[..], nodeIds[..], constants[..])
  }

  /** The receivers loop of element `k`: every receiver whose flag is still 0,
    * which `k` locates and which `k` owns is taken by `k`. */
  method LocateReceivers(el: Elements, loc: Locator, k: nat,
                         isLocal: array<int>, nodeIds: array<seq<int>>, constants: array<seq<real>>)
    requires ReceiverCounts(ReceiverState(isLocal, nodeIds, constants)) && HasElement(el, k)
    modifies isLocal, nodeIds, constants
    ensures ReceiverState(isLocal, nodeIds, constants)
              == LocateReceiversUpTo(old(ReceiverState(isLocal, nodeIds, constants)), el, loc, k, isLocal.Length)
  {
    ghost var t := ReceiverState(isLocal, nodeIds, constants);
    var n := el.numNodesPerElem;
    for ircv := 0 to isLocal.Length
      invariant ReceiverState(isLocal, nodeIds, constants) == LocateReceiversUpTo(t, el, loc, k, ircv)
    {
      if isLocal[ircv] == 0 {
        var receiverFound := loc.receiverFound(k, ircv);
        if receiverFound && el.elemGhostRank[k] < 0 {
          isLocal[ircv] := 1;
          var ids: seq<int> := [];
          var weights: seq<real> := [];
          for a := 0 to n
            invariant ids == el.elemsToNodes[k][..a]
            invariant weights == ReceiverWeights(el, loc, k, ircv)[..a]
          {
            ids := ids + [el.elemsToNodes[k][a]];
            weights := weights + [loc.receiverN(k, ircv, a)];
            assert weights == ReceiverWeights(el, loc, k, ircv)[..a + 1];
          }
          assert weights == ReceiverWeights(el, loc, k, ircv);
          nodeIds[ircv] := ids;
          constants[ircv] := weights;
        }
      }
    }
  }

  /** The receiver arrays are not source arrays. */
  predicate Separate(sourceIsAccessible: array<int>, sourceNodeIds: array<seq<int>>,
                     sourceConstantsx: array<seq<real>>, sourceConstantsy: array<seq<real>>,
                     sourceConstantsz: array<seq<real>>, sourceValue: array<seq<real>>,
                     receiverIsLocal: array<int>, receiverNodeIds: array<seq<int>>, receiverConstants: array<seq<real>>)
  {
    receiverConstants != sourceConstantsx && receiverConstants != sourceConstantsy
    && receiverConstants != sourceConstantsz && receiverConstants != sourceValue
    && sourceIsAccessible != receiverIsLocal && sourceNodeIds != receiverNodeIds
  }

  /** The sources part of the launch over elements `0 .. size-1`. */
  method LocateAllSources(size: nat, el: Elements, loc: Locator, sig: Signal,
                          isAccessible: array<int>, nodeIds: array<seq<int>>, constantsx: array<seq<real>>,
                          constantsy: array<seq<real>>, constantsz: array<seq<real>>, value: array<seq<real>>)
    requires SourceArrays(el, isAccessible, nodeIds, constantsx, constantsy, constantsz, value)
    requires ValidElements(el, size)
    modifies isAccessible, nodeIds, constantsx, constantsy, constantsz, value
    ensures SourceState(isAccessible, nodeIds, constantsx, constantsy, constantsz, value)
              == SourcesAfter(old(SourceState(isAccessible, nodeIds, constantsx, constantsy, constantsz, value)),
                              el, loc, sig, size)
  {
    ghost var t := SourceState(isAccessible, nodeIds, constantsx, constantsy, constantsz, value);
    for k := 0 to size
      invariant SourceState(isAccessible, nodeIds, constantsx, constantsy, constantsz, value) == SourcesAfter(t, el, loc, sig, k)
      invariant SourceArrays(el, isAccessible, nodeIds, constantsx, constantsy, constantsz, value)
    {
      LocateSources(el, loc, sig, k, isAccessible, nodeIds, constantsx, constantsy, constantsz, value);
    }
  }

  /** The receivers part of the launch over elements `0 .. size-1`. */
  method LocateAllReceivers(size: nat, el: Elements, loc: Locator,
                            isLocal: array<int>, nodeIds: array<seq<int>>, constants: array<seq<real>>)
    requires ReceiverCounts(ReceiverState(isLocal, nodeIds, constants)) && ValidElements(el, size)
    modifies isLocal, nodeIds, constants
    ensures ReceiverState(isLocal, nodeIds, constants)
              == ReceiversAfter(old(ReceiverState(isLocal, nodeIds, constants)), el, loc, size)
  {
    ghost var t := ReceiverState(isLocal, nodeIds, constants);
    for k := 0 to size
      invariant ReceiverState(isLocal, nodeIds, constants) == ReceiversAfter(t, el, loc, k)
    {
      LocateReceivers(el, loc, k, isLocal, nodeIds, constants);
    }
  }

  /** `PrecomputeSourceAndReceiverKernel::launch`. Each element examines the
    * sources, then the receivers; the two parts read and write disjoint
    * arrays, so the launch is the sources sweep over all elements followed
    * by the receivers sweep. */
  method PrecomputeSourceAndReceiver(size: nat, el: Elements, loc: Locator, sig: Signal,
                                     sourceIsAccessible: array<int>, sourceNodeIds: array<seq<int>>,
                                     sourceConstantsx: array<seq<real>>, sourceConstantsy: array<seq<real>>,
                                     sourceConstantsz: array<seq<real>>, sourceValue: array<seq<real>>,
                                     receiverIsLocal: array<int>, receiverNodeIds: array<seq<int>>,
                                     receiverConstants: array<seq<real>>)
    requires SourceArrays(el, sourceIsAccessible, sourceNodeIds, sourceConstantsx, sourceConstantsy,
                          sourceConstantsz, sourceValue)
    requires Separate(sourceIsAccessible, sourceNodeIds, sourceConstantsx, sourceConstantsy, sourceConstantsz, sourceValue,
                      receiverIsLocal, receiverNodeIds, receiverConstants)
    requires ReceiverCounts(ReceiverState(receiverIsLocal, receiverNodeIds, receiverConstants))
    requires ValidElements(el, size)
    modifies sourceIsAccessible, sourceNodeIds, sourceConstantsx, sourceConstantsy, sourceConstantsz, sourceValue
    modifies receiverIsLocal, receiverNodeIds, receiverConstants
    ensures SourceState(sourceIsAccessible, sourceNodeIds, sourceConstantsx, sourceConstantsy, sourceConstantsz, sourceValue)
              == SourcesAfter(old(SourceState(sourceIsAccessible, sourceNodeIds, sourceConstantsx, sourceConstantsy,
                                              sourceConstantsz, sourceValue)), el, loc, sig, size)
    ensures ReceiverState(receiverIsLocal, receiverNodeIds, receiverConstants)
              == ReceiversAfter(old(ReceiverState(receiverIsLocal, receiverNodeIds, receiverConstants)), el, loc, size)
  {
    LocateAllSources(size, el, loc, sig, sourceIsAccessible, sourceNodeIds, sourceConstantsx, sourceConstantsy,
                     sourceConstantsz, sourceValue);
    LocateAllReceivers(size, el, loc, receiverIsLocal, receiverNodeIds, receiverConstants);
  }

  // ---------------------------------------------------------------------
  // DampingMatrixKernel::launch
  // ---------------------------------------------------------------------

  /** The element a boundary face is damped with: the one on its first side,
    * or the one on its second side when the first is absent (negative). */
  function DampingElement(sides: seq<int>): (k: int)
    requires 2 <= |sides|
    ensures k == sides[0] || k == sides[1]
    ensures sides[0] >= 0 ==> k == sides[0]
    ensures sides[0] >= 0 || sides[1] >= 0 ==> k >= 0
  {
    if sides[0] < 0 then sides[1] else sides[0]
  }

  /** Face `f` has both flags and, when damped, its nodes index `size` nodes,
    * it has two sides and the element it is damped with has a medium. */
  predicate DampingFaceOk(faces: BoundaryFaces, facesToElems: seq<seq<int>>, media: Media, size: nat, f: nat) {
    f < |faces.boundaryIndicator| && f < |faces.freeSurfaceIndicator|
    && (IsDamped(faces, f) ==>
          FaceAims(faces, f, size) && f < |facesToElems| && 2 <= |facesToElems[f]|
          && HasMedium(media, DampingElement(facesToElems[f])))
  }

  predicate DampingFacesOk(faces: BoundaryFaces, facesToElems: seq<seq<int>>, media: Media, size: nat, count: nat) {
    forall f: nat :: f < count ==> DampingFaceOk(faces, facesToElems, media, size, f)
  }

  /** The additions of faces `0 .. count-1` along `axis`, in loop order: the
    * damped faces add their node increments; the other faces add nothing. */
  function DampingPairs(faces: BoundaryFaces, facesToElems: seq<seq<int>>, media: Media, sqrt: real -> real,
                        dampingTerm: (nat, nat) -> real, axis: nat, size: nat, count: nat): (r: seq<(int, real)>)
    requires DampingFacesOk(faces, facesToElems, media, size, count) && axis < 3
    ensures InBounds(r, size)
  {
    if count == 0 then []
    else
      var f: nat := count - 1;
      var before := DampingPairs(faces, facesToElems, media, sqrt, dampingTerm, axis, size, f);
      assert DampingFaceOk(faces, facesToElems, media, size, f);
      if IsDamped(faces, f) then
        var k := DampingElement(facesToElems[f]);
        FacePairsInBounds(faces, media, sqrt, dampingTerm, f, k, axis, size);
        InBoundsAppend(before, FacePairs(faces, media, sqrt, dampingTerm, f, k, axis), size);
        before + FacePairs(faces, media, sqrt, dampingTerm, f, k, axis)
      else before
  }

  lemma DampingPairsStep(t: seq<real>, faces: BoundaryFaces, facesToElems: seq<seq<int>>, media: Media,
                         sqrt: real -> real, dampingTerm: (nat, nat) -> real, axis: nat, f: nat)
    requires DampingFacesOk(faces, facesToElems, media, |t|, f + 1) && axis < 3
    ensures var before := AddAt(t, DampingPairs(faces, facesToElems, media, sqrt, dampingTerm, axis, |t|, f));
      var after := AddAt(t, DampingPairs(faces, facesToElems, media, sqrt, dampingTerm, axis, |t|, f + 1));
      DampingFaceOk(faces, facesToElems, media, |t|, f)
      && if IsDamped(faces, f) then
        FaceAims(faces, f, |t|) && HasMedium(media, DampingElement(facesToElems[f]))
        && InBounds(FacePairs(faces, media, sqrt, dampingTerm, f, DampingElement(facesToElems[f]), axis), |t|)
        && after == AddAt(before, FacePairs(faces, media, sqrt, dampingTerm, f, DampingElement(facesToElems[f]), axis))
      else after == before
  {
    assert DampingFaceOk(faces, facesToElems, media, |t|, f);
    var before := DampingPairs(faces, facesToElems, media, sqrt, dampingTerm, axis, |t|, f);
    if IsDamped(faces, f) {
      var k := DampingElement(facesToElems[f]);
      FacePairsInBounds(faces, media, sqrt, dampingTerm, f, k, axis, |t|);
      AddAtAppend(t, before, FacePairs(faces, media, sqrt, dampingTerm, f, k, axis));
    }
  }

  /** `DampingMatrixKernel::launch`: every face on the domain boundary and
    * off the free surface adds, at each of its nodes and along each axis, the
    * density of its element times the impedance `Vp |n_axis| + Vs |n off the
    * axis|` times the face term. */
  method DampingMatrixLaunch(size: nat, faces: BoundaryFaces, facesToElems: seq<seq<int>>, media: Media,
                             sqrt: real -> real, dampingTerm: (nat, nat) -> real,
                             dampingx: array<real>, dampingy: array<real>, dampingz: array<real>)
    requires DampingArrays(dampingx, dampingy, dampingz)
    requires DampingFacesOk(faces, facesToElems, media, dampingx.Length, size)
    modifies dampingx, dampingy, dampingz
    ensures dampingx[..] == AddAt(old(dampingx[..]), DampingPairs(faces, facesToElems, media, sqrt, dampingTerm, 0,
                                                                  dampingx.Length, size))
    ensures dampingy[..] == AddAt(old(dampingy[..]), DampingPairs(faces, facesToElems, media, sqrt, dampingTerm, 1,
                                                                  dampingx.Length, size))
    ensures dampingz[..] == AddAt(old(dampingz[..]), DampingPairs(faces, facesToElems, media, sqrt, dampingTerm, 2,
                                                                  dampingx.Length, size))
  {
    ghost var x0, y0, z0 := dampingx[..], dampingy[..], dampingz[..];
    ghost var n := dampingx.Length;
    for f := 0 to size
      invariant dampingx[..] == AddAt(x0, DampingPairs(faces, facesToElems, media, sqrt, dampingTerm, 0, n, f))
      invariant dampingy[..] == AddAt(y0, DampingPairs(faces, facesToElems, media, sqrt, dampingTerm, 1, n, f))
      invariant dampingz[..] == AddAt(z0, DampingPairs(faces, facesToElems, media, sqrt, dampingTerm, 2, n, f))
    {
      DampingPairsStep(x0, faces, facesToElems, media, sqrt, dampingTerm, 0, f);
      DampingPairsStep(y0, faces, facesToElems, media, sqrt, dampingTerm, 1, f);
      DampingPairsStep(z0, faces, facesToElems, media, sqrt, dampingTerm, 2, f);
      if faces.boundaryIndicator[f] == 1 && faces.freeSurfaceIndicator[f] != 1 {
        var k := facesToElems[f][0];
        if k < 0 {
          k := facesToElems[f][1];
        }
        AddFaceDamping(faces, media, sqrt, dampingTerm, f, k, dampingx, dampingy, dampingz);
      }
    }
  }

  /** Every damped face among `0 .. count-1` is damped with a physical medium
    * and has a non-negative face term. */
  predicate PhysicalDamping(faces: BoundaryFaces, facesToElems: seq<seq<int>>, media: Media,
                            dampingTerm: (nat, nat) -> real, size: nat, count: nat)
    requires DampingFacesOk(faces, facesToElems, media, size, count)
  {
    forall f: nat :: f < count && IsDamped(faces, f) ==>
      DampingFaceOk(faces, facesToElems, media, size, f)
      && PhysicalMedium(media, DampingElement(facesToElems[f]))
      && NonnegativeTerm(dampingTerm, f, faces.numNodesPerFace)
  }

  lemma {:induction false} DampingPairsNonnegative(faces: BoundaryFaces, facesToElems: seq<seq<int>>, media: Media,
                                                   sqrt: real -> real, dampingTerm: (nat, nat) -> real, axis: nat,
                                                   size: nat, count: nat)
    requires DampingFacesOk(faces, facesToElems, media, size, count) && axis < 3 && IsSqrt(sqrt)
    requires PhysicalDamping(faces, facesToElems, media, dampingTerm, size, count)
    ensures NonnegativePairs(DampingPairs(faces, facesToElems, media, sqrt, dampingTerm, axis, size, count))
  {
    if count > 0 {
      var f: nat := count - 1;
      DampingPairsNonnegative(faces, facesToElems, media, sqrt, dampingTerm, axis, size, f);
      if IsDamped(faces, f) {
        var k := DampingElement(facesToElems[f]);
        FacePairsNonnegative(faces, media, sqrt, dampingTerm, f, k, axis);
        NonnegativeAppend(DampingPairs(faces, facesToElems, media, sqrt, dampingTerm, axis, size, f),
                          FacePairs(faces, media, sqrt, dampingTerm, f, k, axis));
      }
    }
  }

  /** With physical media and non-negative face terms, the launch never
    * decreases the damping of a node. */
  lemma DampingNeverDecreases(t: seq<real>, faces: BoundaryFaces, facesToElems: seq<seq<int>>, media: Media,
                              sqrt: real -> real, dampingTerm: (nat, nat) -> real, axis: nat, size: nat)
    requires DampingFacesOk(faces, facesToElems, media, |t|, size) && axis < 3 && IsSqrt(sqrt)
    requires PhysicalDamping(faces, facesToElems, media, dampingTerm, |t|, size)
    ensures var r := AddAt(t, DampingPairs(faces, facesToElems, media, sqrt, dampingTerm, axis, |t|, size));
      forall i :: 0 <= i < |t| ==> r[i] >= t[i]
  {
    var pairs := DampingPairs(faces, facesToElems, media, sqrt, dampingTerm, axis, |t|, size);
    AddAtTotals(t, pairs);
    DampingPairsNonnegative(faces, facesToElems, media, sqrt, dampingTerm, axis, |t|, size);
    forall i | 0 <= i < |t|
      ensures AddAt(t, pairs)[i] >= t[i]
    {
      ContributionNonnegative(i, pairs);
    }
  }

  /** Node `i` is not a node of any damped face among `0 .. count-1`. */
  predicate OffDampedFaces(faces: BoundaryFaces, facesToElems: seq<seq<int>>, media: Media, size: nat, count: nat, i: int)
    requires DampingFacesOk(faces, facesToElems, media, size, count)
  {
    forall f: nat :: f < count && IsDamped(faces, f) ==>
      DampingFaceOk(faces, facesToElems, media, size, f)
      && forall q :: 0 <= q < faces.numNodesPerFace ==> faces.facesToNodes[f][q] != i
  }

  lemma {:induction false} DampingPairsAvoid(faces: BoundaryFaces, facesToElems: seq<seq<int>>, media: Media,
                                             sqrt: real -> real, dampingTerm: (nat, nat) -> real, axis: nat,
                                             size: nat, count: nat, i: int)
    requires DampingFacesOk(faces, facesToElems, media, size, count) && axis < 3
    requires OffDampedFaces(faces, facesToElems, media, size, count, i)
    ensures Avoids(DampingPairs(faces, facesToElems, media, sqrt, dampingTerm, axis, size, count), i)
  {
    if count > 0 {
      var f: nat := count - 1;
      DampingPairsAvoid(faces, facesToElems, media, sqrt, dampingTerm, axis, size, f, i);
      if IsDamped(faces, f) {
        var k := DampingElement(facesToElems[f]);
        FacePairsAvoid(faces, media, sqrt, dampingTerm, f, k, axis, i);
        AvoidsAppend(DampingPairs(faces, facesToElems, media, sqrt, dampingTerm, axis, size, f),
                     FacePairs(faces, media, sqrt, dampingTerm, f, k, axis), i);
      }
    }
  }

  /** A node that is on no damped face keeps its damping: interior nodes and
    * nodes of the free surface are not damped. */
  lemma UndampedNodeKeepsDamping(t: seq<real>, faces: BoundaryFaces, facesToElems: seq<seq<int>>, media: Media,
                                 sqrt: real -> real, dampingTerm: (nat, nat) -> real, axis: nat, size: nat, i: int)
    requires DampingFacesOk(faces, facesToElems, media, |t|, size) && axis < 3 && 0 <= i < |t|
    requires OffDampedFaces(faces, facesToElems, media, |t|, size, i)
    ensures AddAt(t, DampingPairs(faces, facesToElems, media, sqrt, dampingTerm, axis, |t|, size))[i] == t[i]
  {
    var pairs := DampingPairs(faces, facesToElems, media, sqrt, dampingTerm, axis, |t|, size);
    AddAtTotals(t, pairs);
    DampingPairsAvoid(faces, facesToElems, media, sqrt, dampingTerm, axis, |t|, size, i);
    ContributionOfUntouched(i, pairs);
  }

  // ---------------------------------------------------------------------
  // StackVariables and setup of the explicit kernel
  // ---------------------------------------------------------------------

  /** The explicit kernel's stack: the element's node coordinates and its
    * Lame parameters. */
  datatype ElasticStack = ElasticStack(xLocal: seq<seq<real>>, mu: real, lambda: real)

  /** The stack constructor: zero coordinates and zero Lame parameters. */
  function NewStack(numNodesPerElem: nat): (s: ElasticStack)
    ensures |s.xLocal| == numNodesPerElem
    ensures forall a :: 0 <= a < numNodesPerElem ==> s.xLocal[a] == [0.0, 0.0, 0.0]
    ensures s.mu == 0.0 && s.lambda == 0.0
  {
    ElasticStack(seq(numNodesPerElem, a => [0.0, 0.0, 0.0]), 0.0, 0.0)
  }

  /** The stack once `setup` has run for element `k` with coordinates `X`. */
  function SetupStack(el: Elements, X: seq<seq<real>>, media: Media, k: nat): ElasticStack
    requires k < |el.elemsToNodes| && Rows3(el.elemsToNodes[k], el.numNodesPerElem, X) && HasMedium(media, k)
  {
    ElasticStack(Gather(el.elemsToNodes[k], X, el.numNodesPerElem), Mu(media, k), Lambda(media, k))
  }

  /** What `setup` promises: the local coordinates are those of the element's
    * nodes, `mu` is the shear modulus `density * Vs^2` and `lambda + 2 mu` is
    * the P-wave modulus `density * Vp^2`; a non-negative density gives a
    * non-negative `mu`. */
  lemma SetupStackMeaning(el: Elements, X: seq<seq<real>>, media: Media, k: nat)
    requires k < |el.elemsToNodes| && Rows3(el.elemsToNodes[k], el.numNodesPerElem, X) && HasMedium(media, k)
    ensures var s := SetupStack(el, X, media, k);
      |s.xLocal| == el.numNodesPerElem
      && (forall a :: 0 <= a < el.numNodesPerElem ==> s.xLocal[a] == X[el.elemsToNodes[k][a]][..3])
      && s.mu == media.density[k] * Square(media.vs[k])
      && s.lambda + 2.0 * s.mu == media.density[k] * Square(media.vp[k])
      && (media.density[k] >= 0.0 ==> s.mu >= 0.0)
  {
    GatherAt(el.elemsToNodes[k], X, el.numNodesPerElem);
    LameMeaning(media, k);
  }

  /** `setup`: copy the coordinates of each node of element `k`, then set the
    * Lame parameters from the element's density and wave speeds. */
  method Setup(el: Elements, X: seq<seq<real>>, media: Media, k: nat, stack: ElasticStack) returns (s: ElasticStack)
    requires k < |el.elemsToNodes| && Rows3(el.elemsToNodes[k], el.numNodesPerElem, X) && HasMedium(media, k)
    ensures s == SetupStack(el, X, media, k)
  {
    var nodes := el.elemsToNodes[k];
    var xLocal: seq<seq<real>> := [];
    var a := 0;
    while a < el.numNodesPerElem
      invariant 0 <= a <= el.numNodesPerElem
      invariant xLocal == Gather(nodes, X, a)
    {
      var nodeIndex := nodes[a];
      xLocal := xLocal + [X[nodeIndex][..3]];
      a := a + 1;
    }
    var mu := media.density[k] * media.vs[k] * media.vs[k];
    var lambda := media.density[k] * media.vp[k] * media.vp[k] - 2.0 * mu;
    assert mu == Mu(media, k) && lambda == Lambda(media, k);
    s := stack.(xLocal := xLocal, mu := mu, lambda := lambda);
  }
}

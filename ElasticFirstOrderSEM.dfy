/** The kernels of the first-order (velocity-stress) elastic spectral-element
  * wave solver
  * (src/coreComponents/physicsSolvers/wavePropagation/ElasticFirstOrderWaveEquationSEMKernel.hpp):
  * locating sources and receivers and recording where they were found, the
  * absorbing-boundary damping launched element by element, the source
  * injection into the stress and the three phases of the velocity update.
  * The mass matrix launch is the same as the second-order one, which is
  * `WaveKernels.MassMatrixLaunch`.
  *
  * Elements are visited in order `k = 0 .. size-1` (the forAll loop run
  * sequentially), and within an element targets in index order. */
module ElasticFirstOrderSEM {
  import opened Wrappers
  import opened GlobalAssembly
  import opened WaveKernels
  import opened ElasticWaveSEM

  // ---------------------------------------------------------------------
  // The table of located targets
  // ---------------------------------------------------------------------

  /** What one sweep of the launch needs: whether `locateSourceElement`
    * places target `i` in element `k`, the shape function (`calcN`) of node
    * `a` of `k` at the target's reference coordinates, the region being
    * swept, and the Ricker wavelet (as a function of time) with the time
    * step. */
  datatype Sweep = Sweep(found: (nat, nat) -> bool, weight: (nat, nat, nat) -> real,
                         regionIndex: int, ricker: real -> real, dt: real)

  /** Everything one part of the launch writes for its targets: the flag
    * (`sourceIsAccessible`, `receiverIsLocal`), the element and region the
    * target was found in, the node ids and the constants (one row per
    * target), and for sources the wavelet values (one row per cycle, one
    * column per source). The receivers' table has no value rows. */
  datatype Registry = Registry(flag: seq<int>, elem: seq<int>, region: seq<int>, nodeIds: seq<seq<int>>,
                               constants: seq<seq<real>>, value: seq<seq<real>>)

  /** One row per target in each per-target array. */
  predicate RegistryCounts(t: Registry) {
    var m := |t.flag|;
    |t.elem| == m && |t.region| == m && |t.nodeIds| == m && |t.constants| == m
  }

  /** A column per target in every cycle's row of values. */
  predicate CycleColumns(t: Registry) {
    forall c :: 0 <= c < |t.value| ==> |t.value[c]| == |t.flag|
  }

  /** The shape functions of element `k`'s nodes at target `i`. */
  function Weights(el: Elements, w: Sweep, k: nat, i: nat): (r: seq<real>)
    ensures |r| == el.numNodesPerElem
  {
    seq(el.numNodesPerElem, a requires 0 <= a < el.numNodesPerElem => w.weight(k, i, a))
  }

  /** Element `k` takes target `i`: the flag becomes 1, the element and the
    * region are recorded, the node ids become the element's nodes, the
    * constants its shape functions at the target, and every cycle's value the
    * wavelet at the cycle's time. */
  function Register(t: Registry, el: Elements, w: Sweep, k: nat, i: nat): (r: Registry)
    requires RegistryCounts(t) && HasElement(el, k) && i < |t.flag|
    ensures RegistryCounts(r) && |r.flag| == |t.flag| && |r.value| == |t.value|
  {
    Registry(t.flag[i := 1], t.elem[i := k], t.region[i := w.regionIndex],
             t.nodeIds[i := el.elemsToNodes[k][..el.numNodesPerElem]],
             t.constants[i := Weights(el, w, k, i)],
             seq(|t.value|, c requires 0 <= c < |t.value| => Put(t.value[c], i, CycleValue(w.ricker, w.dt, c))))
  }

  /** The table once element `k` has examined targets `0 .. m-1`. */
  function LocateUpTo(t: Registry, el: Elements, w: Sweep, k: nat, m: nat): (r: Registry)
    requires RegistryCounts(t) && HasElement(el, k) && m <= |t.flag|
    ensures RegistryCounts(r) && |r.flag| == |t.flag| && |r.value| == |t.value|
  {
    if m == 0 then t
    else
      var s := LocateUpTo(t, el, w, k, m - 1);
      if s.flag[m - 1] == 0 && w.found(k, m - 1) then Register(s, el, w, k, m - 1) else s
  }

  /** The table once elements `0 .. k-1` have examined every target. */
  function LocatedAfter(t: Registry, el: Elements, w: Sweep, k: nat): (r: Registry)
    requires RegistryCounts(t) && ValidElements(el, k)
    ensures RegistryCounts(r) && |r.flag| == |t.flag| && |r.value| == |t.value|
  {
    if k == 0 then t
    else LocateUpTo(LocatedAfter(t, el, w, k - 1), el, w, k - 1, |t.flag|)
  }

  /** All that the table holds about target `i`. */
  datatype TargetRow = TargetRow(flag: int, elem: int, region: int, nodeIds: seq<int>,
                                 constants: seq<real>, values: seq<real>)

  function RowOf(t: Registry, i: nat): TargetRow
    requires RegistryCounts(t) && i < |t.flag|
  {
    TargetRow(t.flag[i], t.elem[i], t.region[i], t.nodeIds[i], t.constants[i],
              seq(|t.value|, c requires 0 <= c < |t.value| => Entry(t.value[c], i)))
  }

  /** Target `i`'s row once element `k` has taken it. */
  function Registered(r: TargetRow, el: Elements, w: Sweep, k: nat, i: nat): TargetRow
    requires HasElement(el, k)
  {
    TargetRow(1, k, w.regionIndex, el.elemsToNodes[k][..el.numNodesPerElem], Weights(el, w, k, i),
              seq(|r.values|, c requires 0 <= c < |r.values| => CycleValue(w.ricker, w.dt, c)))
  }

  lemma {:induction false} LocateUpToColumns(t: Registry, el: Elements, w: Sweep, k: nat, m: nat)
    requires RegistryCounts(t) && CycleColumns(t) && HasElement(el, k) && m <= |t.flag|
    ensures CycleColumns(LocateUpTo(t, el, w, k, m))
  {
    if m > 0 {
      var j: nat := m - 1;
      LocateUpToColumns(t, el, w, k, j);
    }
  }

  lemma {:induction false} LocatedAfterColumns(t: Registry, el: Elements, w: Sweep, size: nat)
    requires RegistryCounts(t) && CycleColumns(t) && ValidElements(el, size)
    ensures CycleColumns(LocatedAfter(t, el, w, size))
  {
    if size > 0 {
      var k: nat := size - 1;
      assert HasElement(el, k);
      LocatedAfterColumns(t, el, w, k);
      LocateUpToColumns(LocatedAfter(t, el, w, k), el, w, k, |t.flag|);
    }
  }

  lemma RowOfRegister(t: Registry, el: Elements, w: Sweep, k: nat, j: nat, i: nat)
    requires RegistryCounts(t) && CycleColumns(t) && HasElement(el, k) && j < |t.flag| && i < |t.flag|
    ensures RowOf(Register(t, el, w, k, j), i) == if i == j then Registered(RowOf(t, i), el, w, k, i) else RowOf(t, i)
  {
    var r := Register(t, el, w, k, j);
    if i == j {
      assert RowOf(r, i).values == Registered(RowOf(t, i), el, w, k, i).values;
    } else {
      assert RowOf(r, i).values == RowOf(t, i).values;
    }
  }

  /** One element's loop: target `i` is taken by element `k` exactly when it
    * was among the examined ones, its flag was still 0 and `k` locates it;
    * otherwise its row is untouched. */
  lemma {:induction false} RowOfUpTo(t: Registry, el: Elements, w: Sweep, k: nat, m: nat, i: nat)
    requires RegistryCounts(t) && CycleColumns(t) && HasElement(el, k) && m <= |t.flag| && i < |t.flag|
    ensures RowOf(LocateUpTo(t, el, w, k, m), i)
              == if i < m && t.flag[i] == 0 && w.found(k, i) then Registered(RowOf(t, i), el, w, k, i) else RowOf(t, i)
  {
    if m > 0 {
      var j: nat := m - 1;
      var s := LocateUpTo(t, el, w, k, j);
      LocateUpToColumns(t, el, w, k, j);
      RowOfUpTo(t, el, w, k, j, i);
      RowOfUpTo(t, el, w, k, j, j);
      if s.flag[j] == 0 && w.found(k, j) {
        RowOfRegister(s, el, w, k, j, i);
      }
    }
  }

  /** Target `i`'s row after the sweep, given the element that registered it. */
  function AfterSweep(r0: TargetRow, reg: Option<nat>, el: Elements, w: Sweep, i: nat): TargetRow
    requires reg.Some? ==> HasElement(el, reg.value)
  {
    match reg
    case None => r0
    case Some(e) => Registered(r0, el, w, e, i)
  }

  /** One more element in the sweep, on the rows alone. */
  lemma SweepStep(r0: TargetRow, rs: TargetRow, rNew: TargetRow, el: Elements, w: Sweep, k: nat, i: nat)
    requires ValidElements(el, k + 1)
    requires rs == AfterSweep(r0, Registration(r0.flag, w.found, k, i), el, w, i)
    requires rNew == if rs.flag == 0 && w.found(k, i) then Registered(rs, el, w, k, i) else rs
    ensures rNew == AfterSweep(r0, Registration(r0.flag, w.found, k + 1, i), el, w, i)
  {
    assert HasElement(el, k);
  }

  /** One part of the launch over elements `0 .. size-1`: a target whose flag
    * was 0 is taken by the first element that locates it, and its row is that
    * element's registration (flag 1, that element, this region, its nodes,
    * its shape functions at the target, the wavelet at each cycle); a target
    * whose flag was nonzero, or which no element locates, keeps its row. */
  lemma {:induction false} LocatedAfterRows(t: Registry, el: Elements, w: Sweep, size: nat, i: nat)
    requires RegistryCounts(t) && CycleColumns(t) && ValidElements(el, size) && i < |t.flag|
    ensures RowOf(LocatedAfter(t, el, w, size), i)
              == AfterSweep(RowOf(t, i), Registration(t.flag[i], w.found, size, i), el, w, i)
  {
    if size > 0 {
      var k: nat := size - 1;
      var s := LocatedAfter(t, el, w, k);
      LocatedAfterRows(t, el, w, k, i);
      LocatedAfterColumns(t, el, w, k);
      RowOfUpTo(s, el, w, k, |s.flag|, i);
      SweepStep(RowOf(t, i), RowOf(s, i), RowOf(LocatedAfter(t, el, w, size), i), el, w, k, i);
    }
  }

  /** The receivers' sweep: a receiver is taken by an element that locates it
    * and that this rank owns (ghost rank negative). */
  function Owned(el: Elements, w: Sweep): (o: Sweep)
    ensures o.weight == w.weight && o.regionIndex == w.regionIndex
  {
    w.(found := (e: nat, i: nat) => e < |el.elemGhostRank| && el.elemGhostRank[e] < 0 && w.found(e, i))
  }

  // ---------------------------------------------------------------------
  // PrecomputeSourceAndReceiverKernel::launch
  // ---------------------------------------------------------------------

  /** The source arrays as a table. */
  function SourceRegistry(isAccessible: array<int>, elem: array<int>, region: array<int>, nodeIds: array<seq<int>>,
                          constants: array<seq<real>>, value: array<seq<real>>): Registry
    reads isAccessible, elem, region, nodeIds, constants, value
  {
    Registry(isAccessible[..], elem[..], region[..], nodeIds[..], constants[..], value[..])
  }

  /** The receiver arrays as a table, without value rows. */
  function ReceiverRegistry(isLocal: array<int>, elem: array<int>, region: array<int>, nodeIds: array<seq<int>>,
                            constants: array<seq<real>>): Registry
    reads isLocal, elem, region, nodeIds, constants
  {
    Registry(isLocal[..], elem[..], region[..], nodeIds[..], constants[..], [])
  }

  /** Distinct arrays holding one row per target. */
  predicate TargetArrays(flag: array<int>, elem: array<int>, region: array<int>, nodeIds: array<seq<int>>,
                         constants: array<seq<real>>)
    reads flag, elem, region, nodeIds, constants
  {
    flag != elem && flag != region && elem != region
    && RegistryCounts(Registry(flag[..], elem[..], region[..], nodeIds[..], constants[..], []))
  }

  /** What both parts write when element `k` takes target `i`: the flag, the
    * element, the region, and the loop over the element's nodes that copies
    * their ids and shape functions. */
  method WriteTarget(el: Elements, w: Sweep, k: nat, i: nat, flag: array<int>, elem: array<int>, region: array<int>,
                     nodeIds: array<seq<int>>, constants: array<seq<real>>)
    requires TargetArrays(flag, elem, region, nodeIds, constants) && HasElement(el, k) && i < flag.Length
    modifies flag, elem, region, nodeIds, constants
    ensures flag[..] == old(flag[..])[i := 1] && elem[..] == old(elem[..])[i := k]
    ensures region[..] == old(region[..])[i := w.regionIndex]
    ensures nodeIds[..] == old(nodeIds[..])[i := el.elemsToNodes[k][..el.numNodesPerElem]]
    ensures constants[..] == old(constants[..])[i := Weights(el, w, k, i)]
  {
    flag[i] := 1;
    elem[i] := k;
    region[i] := w.regionIndex;
    var ids: seq<int> := [];
    var weights: seq<real> := [];
    for a := 0 to el.numNodesPerElem
      invariant ids == el.elemsToNodes[k][..a]
      invariant weights == Weights(el, w, k, i)[..a]
    {
      ids := ids + [el.elemsToNodes[k][a]];
      weights := weights + [w.weight(k, i, a)];
      assert weights == Weights(el, w, k, i)[..a + 1];
    }
    assert weights == Weights(el, w, k, i);
    nodeIds[i] := ids;
    constants[i] := weights;
  }

  /** Distinct arrays holding a source table. */
  predicate SourceArrays(isAccessible: array<int>, elem: array<int>, region: array<int>, nodeIds: array<seq<int>>,
                         constants: array<seq<real>>, value: array<seq<real>>)
    reads isAccessible, elem, region, nodeIds, constants, value
  {
    TargetArrays(isAccessible, elem, region, nodeIds, constants) && constants != value
    && CycleColumns(SourceRegistry(isAccessible, elem, region, nodeIds, constants, value))
  }

  /** The sources loop of element `k`: every source whose flag is still 0
    * and which `k` locates is taken by `k`. */
  method LocateSources(el: Elements, w: Sweep, k: nat, isAccessible: array<int>, elem: array<int>, region: array<int>,
                       nodeIds: array<seq<int>>, constants: array<seq<real>>, value: array<seq<real>>)
    requires SourceArrays(isAccessible, elem, region, nodeIds, constants, value) && HasElement(el, k)
    modifies isAccessible, elem, region, nodeIds, constants, value
    ensures SourceRegistry(isAccessible, elem, region, nodeIds, constants, value)
              == LocateUpTo(old(SourceRegistry(isAccessible, elem, region, nodeIds, constants, value)), el, w, k,
                            isAccessible.Length)
    ensures SourceArrays(isAccessible, elem, region, nodeIds, constants, value)
  {
    ghost var t := SourceRegistry(isAccessible, elem, region, nodeIds, constants, value);
    for isrc := 0 to isAccessible.Length
      invariant SourceRegistry(isAccessible, elem, region, nodeIds, constants, value) == LocateUpTo(t, el, w, k, isrc)
      invariant SourceArrays(isAccessible, elem, region, nodeIds, constants, value)
    {
      if isAccessible[isrc] == 0 {
        var sourceFound := w.found(k, isrc);
        if sourceFound {
          ghost var s := SourceRegistry(isAccessible, elem, region, nodeIds, constants, value);
          WriteTarget(el, w, k, isrc, isAccessible, elem, region, nodeIds, constants);
          SourceValues(w.ricker, w.dt, isrc, value);
          assert value[..] == Register(s, el, w, k, isrc).value;
        }
      }
    }
  }

  /** The receivers loop of element `k`: every receiver whose flag is still
    * 0, which `k` locates and which this rank owns is taken by `k`. */
  method LocateReceivers(el: Elements, w: Sweep, k: nat, isLocal: array<int>, elem: array<int>, region: array<int>,
                         nodeIds: array<seq<int>>, constants: array<seq<real>>)
    requires TargetArrays(isLocal, elem, region, nodeIds, constants) && HasElement(el, k)
    modifies isLocal, elem, region, nodeIds, constants
    ensures ReceiverRegistry(isLocal, elem, region, nodeIds, constants)
              == LocateUpTo(old(ReceiverRegistry(isLocal, elem, region, nodeIds, constants)), el, Owned(el, w), k,
                            isLocal.Length)
  {
    ghost var t := ReceiverRegistry(isLocal, elem, region, nodeIds, constants);
    for ircv := 0 to isLocal.Length
      invariant ReceiverRegistry(isLocal, elem, region, nodeIds, constants) == LocateUpTo(t, el, Owned(el, w), k, ircv)
      invariant TargetArrays(isLocal, elem, region, nodeIds, constants)
    {
      if isLocal[ircv] == 0 {
        var receiverFound := w.found(k, ircv);
        if receiverFound && el.elemGhostRank[k] < 0 {
          WriteTarget(el, Owned(el, w), k, ircv, isLocal, elem, region, nodeIds, constants);
        }
      }
    }
  }

  /** The sources part of the launch over elements `0 .. size-1`. */
  method LocateAllSources(size: nat, el: Elements, w: Sweep, isAccessible: array<int>, elem: array<int>,
                          region: array<int>, nodeIds: array<seq<int>>, constants: array<seq<real>>,
                          value: array<seq<real>>)
    requires SourceArrays(isAccessible, elem, region, nodeIds, constants, value) && ValidElements(el, size)
    modifies isAccessible, elem, region, nodeIds, constants, value
    ensures SourceRegistry(isAccessible, elem, region, nodeIds, constants, value)
              == LocatedAfter(old(SourceRegistry(isAccessible, elem, region, nodeIds, constants, value)), el, w, size)
  {
    ghost var t := SourceRegistry(isAccessible, elem, region, nodeIds, constants, value);
    for k := 0 to size
      invariant SourceRegistry(isAccessible, elem, region, nodeIds, constants, value) == LocatedAfter(t, el, w, k)
      invariant SourceArrays(isAccessible, elem, region, nodeIds, constants, value)
    {
      LocateSources(el, w, k, isAccessible, elem, region, nodeIds, constants, value);
    }
  }

  /** The receivers part of the launch over elements `0 .. size-1`. */
  method LocateAllReceivers(size: nat, el: Elements, w: Sweep, isLocal: array<int>, elem: array<int>,
                            region: array<int>, nodeIds: array<seq<int>>, constants: array<seq<real>>)
    requires TargetArrays(isLocal, elem, region, nodeIds, constants) && ValidElements(el, size)
    modifies isLocal, elem, region, nodeIds, constants
    ensures ReceiverRegistry(isLocal, elem, region, nodeIds, constants)
              == LocatedAfter(old(ReceiverRegistry(isLocal, elem, region, nodeIds, constants)), el, Owned(el, w), size)
  {
    ghost var t := ReceiverRegistry(isLocal, elem, region, nodeIds, constants);
    for k := 0 to size
      invariant ReceiverRegistry(isLocal, elem, region, nodeIds, constants) == LocatedAfter(t, el, Owned(el, w), k)
      invariant TargetArrays(isLocal, elem, region, nodeIds, constants)
    {
      LocateReceivers(el, w, k, isLocal, elem, region, nodeIds, constants);
    }
  }

  /** No receiver array is a source array. */
  predicate Apart(sourceIsAccessible: array<int>, sourceElem: array<int>, sourceRegion: array<int>,
                  sourceNodeIds: array<seq<int>>, sourceConstants: array<seq<real>>, sourceValue: array<seq<real>>,
                  receiverIsLocal: array<int>, rcvElem: array<int>, receiverRegion: array<int>,
                  receiverNodeIds: array<seq<int>>, receiverConstants: array<seq<real>>)
  {
    var sourceInts := {sourceIsAccessible, sourceElem, sourceRegion};
    receiverIsLocal !in sourceInts && rcvElem !in sourceInts && receiverRegion !in sourceInts
    && receiverNodeIds != sourceNodeIds && receiverConstants != sourceConstants && receiverConstants != sourceValue
  }

  /** `PrecomputeSourceAndReceiverKernel::launch`. Each element examines the
    * sources, then the receivers; the two parts read and write disjoint
    * arrays, so the launch is the sources sweep over all elements followed
    * by the receivers sweep. Both sweeps share the location and the shape
    * functions; receivers are taken only by owned elements. */
  method PrecomputeSourceAndReceiver(size: nat, el: Elements, w: Sweep,
                                     sourceIsAccessible: array<int>, sourceElem: array<int>, sourceRegion: array<int>,
                                     sourceNodeIds: array<seq<int>>, sourceConstants: array<seq<real>>,
                                     sourceValue: array<seq<real>>,
                                     receiverIsLocal: array<int>, rcvElem: array<int>, receiverRegion: array<int>,
                                     receiverNodeIds: array<seq<int>>, receiverConstants: array<seq<real>>)
    requires SourceArrays(sourceIsAccessible, sourceElem, sourceRegion, sourceNodeIds, sourceConstants, sourceValue)
    requires TargetArrays(receiverIsLocal, rcvElem, receiverRegion, receiverNodeIds, receiverConstants)
    requires Apart(sourceIsAccessible, sourceElem, sourceRegion, sourceNodeIds, sourceConstants, sourceValue,
                   receiverIsLocal, rcvElem, receiverRegion, receiverNodeIds, receiverConstants)
    requires ValidElements(el, size)
    modifies sourceIsAccessible, sourceElem, sourceRegion, sourceNodeIds, sourceConstants, sourceValue
    modifies receiverIsLocal, rcvElem, receiverRegion, receiverNodeIds, receiverConstants
    ensures SourceRegistry(sourceIsAccessible, sourceElem, sourceRegion, sourceNodeIds, sourceConstants, sourceValue)
              == LocatedAfter(old(SourceRegistry(sourceIsAccessible, sourceElem, sourceRegion, sourceNodeIds,
                                                 sourceConstants, sourceValue)), el, w, size)
    ensures ReceiverRegistry(receiverIsLocal, rcvElem, receiverRegion, receiverNodeIds, receiverConstants)
              == LocatedAfter(old(ReceiverRegistry(receiverIsLocal, rcvElem, receiverRegion, receiverNodeIds,
                                                   receiverConstants)), el, Owned(el, w), size)
  {
    LocateAllSources(size, el, w, sourceIsAccessible, sourceElem, sourceRegion, sourceNodeIds, sourceConstants,
                     sourceValue);
    LocateAllReceivers(size, el, w, receiverIsLocal, rcvElem, receiverRegion, receiverNodeIds, receiverConstants);
  }

  // ---------------------------------------------------------------------
  // DampingMatrixKernel::launch
  // ---------------------------------------------------------------------

  /** Face `f`, a face of some element, has both flags and, when damped, its
    * nodes index `size` nodes. */
  predicate ElementFaceOk(faces: BoundaryFaces, size: nat, f: int) {
    0 <= f < |faces.boundaryIndicator| && f < |faces.freeSurfaceIndicator|
    && (IsDamped(faces, f) ==> FaceAims(faces, f, size))
  }

  /** Element `e` has a medium and its first `count` faces are well formed. */
  predicate ElementFacesOk(faces: BoundaryFaces, elemsToFaces: seq<seq<int>>, media: Media, size: nat, e: nat, count: nat) {
    e < |elemsToFaces| && count <= |elemsToFaces[e]| && HasMedium(media, e)
    && forall i :: 0 <= i < count ==> ElementFaceOk(faces, size, elemsToFaces[e][i])
  }

  /** Elements `0 .. count-1` each have `facesPerElem` well-formed faces. */
  predicate ElementsFacesOk(faces: BoundaryFaces, elemsToFaces: seq<seq<int>>, media: Media, size: nat,
                            facesPerElem: nat, count: nat) {
    forall e: nat :: e < count ==> ElementFacesOk(faces, elemsToFaces, media, size, e, facesPerElem)
  }

  /** The additions along `axis` of faces `0 .. count-1` of element `e`, in
    * loop order: a damped face adds its node increments with the medium of
    * `e`; any other face adds nothing. */
  function ElementDampingPairs(faces: BoundaryFaces, elemsToFaces: seq<seq<int>>, media: Media, sqrt: real -> real,
                               dampingTerm: (nat, nat) -> real, axis: nat, size: nat, e: nat, count: nat)
    : (r: seq<(int, real)>)
    requires ElementFacesOk(faces, elemsToFaces, media, size, e, count) && axis < 3
    ensures InBounds(r, size)
  {
    if count == 0 then []
    else
      var i: nat := count - 1;
      var before := ElementDampingPairs(faces, elemsToFaces, media, sqrt, dampingTerm, axis, size, e, i);
      var f := elemsToFaces[e][i];
      assert ElementFaceOk(faces, size, f);
      if IsDamped(faces, f) then
        FacePairsInBounds(faces, media, sqrt, dampingTerm, f, e, axis, size);
        InBoundsAppend(before, FacePairs(faces, media, sqrt, dampingTerm, f, e, axis), size);
        before + FacePairs(faces, media, sqrt, dampingTerm, f, e, axis)
      else before
  }

  /** The additions along `axis` of elements `0 .. count-1`. */
  function ElementsDampingPairs(faces: BoundaryFaces, elemsToFaces: seq<seq<int>>, media: Media, sqrt: real -> real,
                                dampingTerm: (nat, nat) -> real, axis: nat, size: nat, facesPerElem: nat, count: nat)
    : (r: seq<(int, real)>)
    requires ElementsFacesOk(faces, elemsToFaces, media, size, facesPerElem, count) && axis < 3
    ensures InBounds(r, size)
  {
    if count == 0 then []
    else
      var e: nat := count - 1;
      assert ElementFacesOk(faces, elemsToFaces, media, size, e, facesPerElem);
      var before := ElementsDampingPairs(faces, elemsToFaces, media, sqrt, dampingTerm, axis, size, facesPerElem, e);
      var mine := ElementDampingPairs(faces, elemsToFaces, media, sqrt, dampingTerm, axis, size, e, facesPerElem);
      InBoundsAppend(before, mine, size);
      before + mine
  }

  lemma ElementDampingStep(t: seq<real>, faces: BoundaryFaces, elemsToFaces: seq<seq<int>>, media: Media,
                           sqrt: real -> real, dampingTerm: (nat, nat) -> real, axis: nat, e: nat, i: nat)
    requires ElementFacesOk(faces, elemsToFaces, media, |t|, e, i + 1) && axis < 3
    ensures var before := AddAt(t, ElementDampingPairs(faces, elemsToFaces, media, sqrt, dampingTerm, axis, |t|, e, i));
      var after := AddAt(t, ElementDampingPairs(faces, elemsToFaces, media, sqrt, dampingTerm, axis, |t|, e, i + 1));
      var f := elemsToFaces[e][i];
      ElementFaceOk(faces, |t|, f)
      && if IsDamped(faces, f) then
        InBounds(FacePairs(faces, media, sqrt, dampingTerm, f, e, axis), |t|)
        && after == AddAt(before, FacePairs(faces, media, sqrt, dampingTerm, f, e, axis))
      else after == before
  {
    var f := elemsToFaces[e][i];
    assert ElementFaceOk(faces, |t|, f);
    if IsDamped(faces, f) {
      FacePairsInBounds(faces, media, sqrt, dampingTerm, f, e, axis, |t|);
      AddAtAppend(t, ElementDampingPairs(faces, elemsToFaces, media, sqrt, dampingTerm, axis, |t|, e, i),
                  FacePairs(faces, media, sqrt, dampingTerm, f, e, axis));
    }
  }

  /** The face loop of element `e`: every face of `e` on the domain boundary
    * and off the free surface adds its node increments with the medium of
    * `e`. */
  method ElementDamping(faces: BoundaryFaces, elemsToFaces: seq<seq<int>>, media: Media, sqrt: real -> real,
                        dampingTerm: (nat, nat) -> real, facesPerElem: nat, e: nat,
                        dampingx: array<real>, dampingy: array<real>, dampingz: array<real>)
    requires DampingArrays(dampingx, dampingy, dampingz)
    requires ElementFacesOk(faces, elemsToFaces, media, dampingx.Length, e, facesPerElem)
    modifies dampingx, dampingy, dampingz
    ensures dampingx[..] == AddAt(old(dampingx[..]), ElementDampingPairs(faces, elemsToFaces, media, sqrt, dampingTerm, 0,
                                                                         dampingx.Length, e, facesPerElem))
    ensures dampingy[..] == AddAt(old(dampingy[..]), ElementDampingPairs(faces, elemsToFaces, media, sqrt, dampingTerm, 1,
                                                                         dampingx.Length, e, facesPerElem))
    ensures dampingz[..] == AddAt(old(dampingz[..]), ElementDampingPairs(faces, elemsToFaces, media, sqrt, dampingTerm, 2,
                                                                         dampingx.Length, e, facesPerElem))
  {
    ghost var x0, y0, z0 := dampingx[..], dampingy[..], dampingz[..];
    ghost var n := dampingx.Length;
    for i := 0 to facesPerElem
      invariant dampingx[..] == AddAt(x0, ElementDampingPairs(faces, elemsToFaces, media, sqrt, dampingTerm, 0, n, e, i))
      invariant dampingy[..] == AddAt(y0, ElementDampingPairs(faces, elemsToFaces, media, sqrt, dampingTerm, 1, n, e, i))
      invariant dampingz[..] == AddAt(z0, ElementDampingPairs(faces, elemsToFaces, media, sqrt, dampingTerm, 2, n, e, i))
    {
      ElementDampingStep(x0, faces, elemsToFaces, media, sqrt, dampingTerm, 0, e, i);
      ElementDampingStep(y0, faces, elemsToFaces, media, sqrt, dampingTerm, 1, e, i);
      ElementDampingStep(z0, faces, elemsToFaces, media, sqrt, dampingTerm, 2, e, i);
      var f := elemsToFaces[e][i];
      if faces.boundaryIndicator[f] == 1 && faces.freeSurfaceIndicator[f] != 1 {
        AddFaceDamping(faces, media, sqrt, dampingTerm, f, e, dampingx, dampingy, dampingz);
      }
    }
  }

  lemma ElementsDampingStep(t: seq<real>, faces: BoundaryFaces, elemsToFaces: seq<seq<int>>, media: Media,
                            sqrt: real -> real, dampingTerm: (nat, nat) -> real, axis: nat, facesPerElem: nat, e: nat)
    requires ElementsFacesOk(faces, elemsToFaces, media, |t|, facesPerElem, e + 1) && axis < 3
    ensures ElementFacesOk(faces, elemsToFaces, media, |t|, e, facesPerElem)
    ensures AddAt(t, ElementsDampingPairs(faces, elemsToFaces, media, sqrt, dampingTerm, axis, |t|, facesPerElem, e + 1))
            == AddAt(AddAt(t, ElementsDampingPairs(faces, elemsToFaces, media, sqrt, dampingTerm, axis, |t|, facesPerElem, e)),
                     ElementDampingPairs(faces, elemsToFaces, media, sqrt, dampingTerm, axis, |t|, e, facesPerElem))
  {
    assert ElementFacesOk(faces, elemsToFaces, media, |t|, e, facesPerElem);
    AddAtAppend(t, ElementsDampingPairs(faces, elemsToFaces, media, sqrt, dampingTerm, axis, |t|, facesPerElem, e),
                ElementDampingPairs(faces, elemsToFaces, media, sqrt, dampingTerm, axis, |t|, e, facesPerElem));
  }

  /** `DampingMatrixKernel::launch` with the face term weighted by the
    * element's density once: each face of each element that is on the
    * domain boundary and off the free surface adds, at each of its nodes and
    * along each axis, the element's density times the impedance
    * `Vp |n_axis| + Vs |n off the axis|` times the face term. */
  method DampingMatrixLaunch(size: nat, faces: BoundaryFaces, elemsToFaces: seq<seq<int>>, facesPerElem: nat,
                             media: Media, sqrt: real -> real, dampingTerm: (nat, nat) -> real,
                             dampingx: array<real>, dampingy: array<real>, dampingz: array<real>)
    requires DampingArrays(dampingx, dampingy, dampingz)
    requires ElementsFacesOk(faces, elemsToFaces, media, dampingx.Length, facesPerElem, size)
    modifies dampingx, dampingy, dampingz
    ensures dampingx[..] == AddAt(old(dampingx[..]), ElementsDampingPairs(faces, elemsToFaces, media, sqrt, dampingTerm, 0,
                                                                          dampingx.Length, facesPerElem, size))
    ensures dampingy[..] == AddAt(old(dampingy[..]), ElementsDampingPairs(faces, elemsToFaces, media, sqrt, dampingTerm, 1,
                                                                          dampingx.Length, facesPerElem, size))
    ensures dampingz[..] == AddAt(old(dampingz[..]), ElementsDampingPairs(faces, elemsToFaces, media, sqrt, dampingTerm, 2,
                                                                          dampingx.Length, facesPerElem, size))
  {
    ghost var x0, y0, z0 := dampingx[..], dampingy[..], dampingz[..];
    ghost var n := dampingx.Length;
    for e := 0 to size
      invariant dampingx[..] == AddAt(x0, ElementsDampingPairs(faces, elemsToFaces, media, sqrt, dampingTerm, 0, n, facesPerElem, e))
      invariant dampingy[..] == AddAt(y0, ElementsDampingPairs(faces, elemsToFaces, media, sqrt, dampingTerm, 1, n, facesPerElem, e))
      invariant dampingz[..] == AddAt(z0, ElementsDampingPairs(faces, elemsToFaces, media, sqrt, dampingTerm, 2, n, facesPerElem, e))
    {
      ElementsDampingStep(x0, faces, elemsToFaces, media, sqrt, dampingTerm, 0, facesPerElem, e);
      ElementsDampingStep(y0, faces, elemsToFaces, media, sqrt, dampingTerm, 1, facesPerElem, e);
      ElementsDampingStep(z0, faces, elemsToFaces, media, sqrt, dampingTerm, 2, facesPerElem, e);
      ElementDamping(faces, elemsToFaces, media, sqrt, dampingTerm, facesPerElem, e, dampingx, dampingy, dampingz);
    }
  }

  /** Every element among `0 .. count-1` has a physical medium, and every
    * damped face of it a non-negative face term. */
  predicate PhysicalElementDamping(faces: BoundaryFaces, elemsToFaces: seq<seq<int>>, media: Media,
                                   dampingTerm: (nat, nat) -> real, size: nat, facesPerElem: nat, count: nat)
    requires ElementsFacesOk(faces, elemsToFaces, media, size, facesPerElem, count)
  {
    forall e: nat :: e < count ==>
      ElementFacesOk(faces, elemsToFaces, media, size, e, facesPerElem) && PhysicalMedium(media, e)
      && forall i :: 0 <= i < facesPerElem && IsDamped(faces, elemsToFaces[e][i]) ==>
           NonnegativeTerm(dampingTerm, elemsToFaces[e][i], faces.numNodesPerFace)
  }

  lemma {:induction false} ElementDampingPairsNonnegative(faces: BoundaryFaces, elemsToFaces: seq<seq<int>>, media: Media,
                                                          sqrt: real -> real, dampingTerm: (nat, nat) -> real, axis: nat,
                                                          size: nat, e: nat, count: nat)
    requires ElementFacesOk(faces, elemsToFaces, media, size, e, count) && axis < 3 && IsSqrt(sqrt)
    requires PhysicalMedium(media, e)
    requires forall i :: 0 <= i < count && IsDamped(faces, elemsToFaces[e][i]) ==>
               NonnegativeTerm(dampingTerm, elemsToFaces[e][i], faces.numNodesPerFace)
    ensures NonnegativePairs(ElementDampingPairs(faces, elemsToFaces, media, sqrt, dampingTerm, axis, size, e, count))
  {
    if count > 0 {
      var i: nat := count - 1;
      ElementDampingPairsNonnegative(faces, elemsToFaces, media, sqrt, dampingTerm, axis, size, e, i);
      var f := elemsToFaces[e][i];
      assert ElementFaceOk(faces, size, f);
      if IsDamped(faces, f) {
        FacePairsNonnegative(faces, media, sqrt, dampingTerm, f, e, axis);
        NonnegativeAppend(ElementDampingPairs(faces, elemsToFaces, media, sqrt, dampingTerm, axis, size, e, i),
                          FacePairs(faces, media, sqrt, dampingTerm, f, e, axis));
      }
    }
  }

  lemma {:induction false} ElementsDampingPairsNonnegative(faces: BoundaryFaces, elemsToFaces: seq<seq<int>>, media: Media,
                                                           sqrt: real -> real, dampingTerm: (nat, nat) -> real,
                                                           axis: nat, size: nat, facesPerElem: nat, count: nat)
    requires ElementsFacesOk(faces, elemsToFaces, media, size, facesPerElem, count) && axis < 3 && IsSqrt(sqrt)
    requires PhysicalElementDamping(faces, elemsToFaces, media, dampingTerm, size, facesPerElem, count)
    ensures NonnegativePairs(ElementsDampingPairs(faces, elemsToFaces, media, sqrt, dampingTerm, axis, size,
                                                  facesPerElem, count))
  {
    if count > 0 {
      var e: nat := count - 1;
      assert ElementFacesOk(faces, elemsToFaces, media, size, e, facesPerElem) && PhysicalMedium(media, e);
      ElementsDampingPairsNonnegative(faces, elemsToFaces, media, sqrt, dampingTerm, axis, size, facesPerElem, e);
      ElementDampingPairsNonnegative(faces, elemsToFaces, media, sqrt, dampingTerm, axis, size, e, facesPerElem);
      NonnegativeAppend(ElementsDampingPairs(faces, elemsToFaces, media, sqrt, dampingTerm, axis, size, facesPerElem, e),
                        ElementDampingPairs(faces, elemsToFaces, media, sqrt, dampingTerm, axis, size, e, facesPerElem));
    }
  }

  /** With physical media and non-negative face terms, the launch never
    * decreases the damping of a node. */
  lemma DampingNeverDecreasesByElement(t: seq<real>, faces: BoundaryFaces, elemsToFaces: seq<seq<int>>, media: Media,
                                       sqrt: real -> real, dampingTerm: (nat, nat) -> real, axis: nat,
                                       facesPerElem: nat, size: nat)
    requires ElementsFacesOk(faces, elemsToFaces, media, |t|, facesPerElem, size) && axis < 3 && IsSqrt(sqrt)
    requires PhysicalElementDamping(faces, elemsToFaces, media, dampingTerm, |t|, facesPerElem, size)
    ensures var r := AddAt(t, ElementsDampingPairs(faces, elemsToFaces, media, sqrt, dampingTerm, axis, |t|,
                                                   facesPerElem, size));
      forall i :: 0 <= i < |t| ==> r[i] >= t[i]
  {
    var pairs := ElementsDampingPairs(faces, elemsToFaces, media, sqrt, dampingTerm, axis, |t|, facesPerElem, size);
    AddAtTotals(t, pairs);
    ElementsDampingPairsNonnegative(faces, elemsToFaces, media, sqrt, dampingTerm, axis, |t|, facesPerElem, size);
    forall i | 0 <= i < |t|
      ensures AddAt(t, pairs)[i] >= t[i]
    {
      ContributionNonnegative(i, pairs);
    }
  }

  /** Node `j` is not a node of any damped face of elements `0 .. count-1`. */
  predicate OffDampedElementFaces(faces: BoundaryFaces, elemsToFaces: seq<seq<int>>, media: Media, size: nat,
                                  facesPerElem: nat, count: nat, j: int)
    requires ElementsFacesOk(faces, elemsToFaces, media, size, facesPerElem, count)
  {
    forall e: nat, i :: e < count && 0 <= i < facesPerElem ==>
      ElementFacesOk(faces, elemsToFaces, media, size, e, facesPerElem)
      && (IsDamped(faces, elemsToFaces[e][i]) ==>
            FaceShape(faces, elemsToFaces[e][i])
            && forall q :: 0 <= q < faces.numNodesPerFace ==> faces.facesToNodes[elemsToFaces[e][i]][q] != j)
  }

  lemma {:induction false} ElementDampingPairsAvoid(faces: BoundaryFaces, elemsToFaces: seq<seq<int>>, media: Media,
                                                    sqrt: real -> real, dampingTerm: (nat, nat) -> real, axis: nat,
                                                    size: nat, e: nat, count: nat, j: int)
    requires ElementFacesOk(faces, elemsToFaces, media, size, e, count) && axis < 3
    requires forall i :: 0 <= i < count && IsDamped(faces, elemsToFaces[e][i]) ==>
               FaceShape(faces, elemsToFaces[e][i])
               && forall q :: 0 <= q < faces.numNodesPerFace ==> faces.facesToNodes[elemsToFaces[e][i]][q] != j
    ensures Avoids(ElementDampingPairs(faces, elemsToFaces, media, sqrt, dampingTerm, axis, size, e, count), j)
  {
    if count > 0 {
      var i: nat := count - 1;
      ElementDampingPairsAvoid(faces, elemsToFaces, media, sqrt, dampingTerm, axis, size, e, i, j);
      var f := elemsToFaces[e][i];
      assert ElementFaceOk(faces, size, f);
      if IsDamped(faces, f) {
        FacePairsAvoid(faces, media, sqrt, dampingTerm, f, e, axis, j);
        AvoidsAppend(ElementDampingPairs(faces, elemsToFaces, media, sqrt, dampingTerm, axis, size, e, i),
                     FacePairs(faces, media, sqrt, dampingTerm, f, e, axis), j);
      }
    }
  }

  lemma {:induction false} ElementsDampingPairsAvoid(faces: BoundaryFaces, elemsToFaces: seq<seq<int>>, media: Media,
                                                     sqrt: real -> real, dampingTerm: (nat, nat) -> real, axis: nat,
                                                     size: nat, facesPerElem: nat, count: nat, j: int)
    requires ElementsFacesOk(faces, elemsToFaces, media, size, facesPerElem, count) && axis < 3
    requires OffDampedElementFaces(faces, elemsToFaces, media, size, facesPerElem, count, j)
    ensures Avoids(ElementsDampingPairs(faces, elemsToFaces, media, sqrt, dampingTerm, axis, size, facesPerElem, count), j)
  {
    if count > 0 {
      var e: nat := count - 1;
      assert ElementFacesOk(faces, elemsToFaces, media, size, e, facesPerElem);
      ElementsDampingPairsAvoid(faces, elemsToFaces, media, sqrt, dampingTerm, axis, size, facesPerElem, e, j);
      ElementDampingPairsAvoid(faces, elemsToFaces, media, sqrt, dampingTerm, axis, size, e, facesPerElem, j);
      AvoidsAppend(ElementsDampingPairs(faces, elemsToFaces, media, sqrt, dampingTerm, axis, size, facesPerElem, e),
                   ElementDampingPairs(faces, elemsToFaces, media, sqrt, dampingTerm, axis, size, e, facesPerElem), j);
    }
  }

  /** A node on no damped face of any element keeps its damping. */
  lemma UndampedNodeKeepsDampingByElement(t: seq<real>, faces: BoundaryFaces, elemsToFaces: seq<seq<int>>, media: Media,
                                          sqrt: real -> real, dampingTerm: (nat, nat) -> real, axis: nat,
                                          facesPerElem: nat, size: nat, j: int)
    requires ElementsFacesOk(faces, elemsToFaces, media, |t|, facesPerElem, size) && axis < 3 && 0 <= j < |t|
    requires OffDampedElementFaces(faces, elemsToFaces, media, |t|, facesPerElem, size, j)
    ensures AddAt(t, ElementsDampingPairs(faces, elemsToFaces, media, sqrt, dampingTerm, axis, |t|, facesPerElem, size))[j]
            == t[j]
  {
    var pairs := ElementsDampingPairs(faces, elemsToFaces, media, sqrt, dampingTerm, axis, |t|, facesPerElem, size);
    AddAtTotals(t, pairs);
    ElementsDampingPairsAvoid(faces, elemsToFaces, media, sqrt, dampingTerm, axis, |t|, facesPerElem, size, j);
    ContributionOfUntouched(j, pairs);
  }

  /** The increment as the launch writes it: `aux` already holds the density
    * times the face term, and the increment multiplies by the density once
    * more. */
  function DampingIncrementAsWritten(density: real, vp: real, vs: real, normal: seq<real>, axis: nat,
                                     sqrt: real -> real, dampingTerm: real): real
    requires 3 <= |normal| && axis < 3
  {
    var aux := density * dampingTerm;
    density * (vp * Abs(normal[axis]) + vs * sqrt(OffAxisSquares(normal, axis))) * aux
  }

  /** As written, the increment is the density times the intended one: the
    * density enters squared. */
  lemma AsWrittenDampingHasDensityTwice(density: real, vp: real, vs: real, normal: seq<real>, axis: nat,
                                        sqrt: real -> real, dampingTerm: real)
    requires 3 <= |normal| && axis < 3
    ensures DampingIncrementAsWritten(density, vp, vs, normal, axis, sqrt, dampingTerm)
            == density * DampingIncrement(density, vp, vs, normal, axis, sqrt, dampingTerm)
  {
    var z := vp * Abs(normal[axis]) + vs * sqrt(OffAxisSquares(normal, axis));
    assert density * z * (density * dampingTerm) == density * (density * z * dampingTerm);
  }

  /** Density 2, `Vp` 1, `Vs` 0, normal along x and face term 1: the launch
    * as written adds 4 to `dampingx` where the second-order kernel adds 2. */
  lemma AsWrittenDampingCounterexample(sqrt: real -> real)
    ensures DampingIncrementAsWritten(2.0, 1.0, 0.0, [1.0, 0.0, 0.0], 0, sqrt, 1.0) == 4.0
    ensures DampingIncrement(2.0, 1.0, 0.0, [1.0, 0.0, 0.0], 0, sqrt, 1.0) == 2.0
  {
    AsWrittenDampingHasDensityTwice(2.0, 1.0, 0.0, [1.0, 0.0, 0.0], 0, sqrt, 1.0);
  }

  /** The damping this model launches carries the density once, as the mass
    * increment `density * massTerm` does: scaling the density by `c` scales
    * it by `c`, so the ratio `damping / mass` of the velocity update does not
    * depend on the density. As written, the same scaling multiplies the
    * damping by `c * c`. */
  lemma DampingScalesWithDensity(c: real, density: real, vp: real, vs: real, normal: seq<real>, axis: nat,
                                 sqrt: real -> real, dampingTerm: real)
    requires 3 <= |normal| && axis < 3
    ensures DampingIncrement(c * density, vp, vs, normal, axis, sqrt, dampingTerm)
            == c * DampingIncrement(density, vp, vs, normal, axis, sqrt, dampingTerm)
    ensures DampingIncrementAsWritten(c * density, vp, vs, normal, axis, sqrt, dampingTerm)
            == c * c * DampingIncrementAsWritten(density, vp, vs, normal, axis, sqrt, dampingTerm)
  {
    var z := vp * Abs(normal[axis]) + vs * sqrt(OffAxisSquares(normal, axis));
    assert c * density * z * dampingTerm == c * (density * z * dampingTerm);
    assert c * density * z * (c * density * dampingTerm) == c * c * (density * z * (density * dampingTerm));
  }

  // ---------------------------------------------------------------------
  // StressComputation::launch
  // ---------------------------------------------------------------------

  /** The stress rate of the isotropic law for the strain rate `e` whose
    * shear entries are engineering rates (`du_y/dx + du_x/dy` and so on):
    * `lambda tr(e)` plus `2 mu e` on the diagonal, `mu e` off it. */
  function Hooke(lambda: real, mu: real, e: SymTensor): SymTensor {
    var diag := lambda * (e.xx + e.yy + e.zz);
    SymTensor(diag + 2.0 * mu * e.xx, diag + 2.0 * mu * e.yy, diag + 2.0 * mu * e.zz,
              mu * e.yz, mu * e.xz, mu * e.xy)
  }

  function Trace(s: SymTensor): real {
    s.xx + s.yy + s.zz
  }

  /** The isotropic law splits as it should: the trace of the stress rate is
    * `3 lambda + 2 mu` (three bulk moduli) times the trace of the strain
    * rate, differences of diagonal entries and the shear entries carry `mu`
    * alone, and a uniaxial rate `e_xx` gives `(lambda + 2 mu) e_xx` along
    * its axis and `lambda e_xx` across it. */
  lemma HookeMeaning(lambda: real, mu: real, e: SymTensor)
    ensures var h := Hooke(lambda, mu, e);
      Trace(h) == (3.0 * lambda + 2.0 * mu) * Trace(e)
      && h.xx - h.yy == 2.0 * mu * (e.xx - e.yy) && h.yy - h.zz == 2.0 * mu * (e.yy - e.zz)
      && h.yz == mu * e.yz && h.xz == mu * e.xz && h.xy == mu * e.xy
      && (e.yy == 0.0 && e.zz == 0.0 ==> h.xx == (lambda + 2.0 * mu) * e.xx && h.yy == lambda * e.xx && h.zz == lambda * e.xx)
  {
  }

  function Scaled(s: SymTensor, c: real): SymTensor {
    SymTensor(c * s.xx, c * s.yy, c * s.zz, c * s.yz, c * s.xz, c * s.xy)
  }

  function Plus(a: SymTensor, b: SymTensor): SymTensor {
    SymTensor(a.xx + b.xx, a.yy + b.yy, a.zz + b.zz, a.yz + b.yz, a.xz + b.xz, a.xy + b.xy)
  }

  function Over(s: SymTensor, m: real): SymTensor
    requires m != 0.0
  {
    SymTensor(s.xx / m, s.yy / m, s.zz / m, s.yz / m, s.xz / m, s.xy / m)
  }

  /** The stress of one node after the time integration: multiplied by the
    * node's mass term, increased by `dt` times the stress rate, divided by the
    * mass term again. */
  function Integrated(s: SymTensor, m: real, dt: real, rate: SymTensor): SymTensor
    requires m != 0.0
  {
    Over(Plus(Scaled(s, m), Scaled(rate, dt)), m)
  }

  /** Dividing `m a + dt b` by `m` leaves `a + (dt / m) b`. */
  lemma CancelMass(m: real, dt: real, a: real, b: real, x: real)
    requires m != 0.0 && x == m * a + dt * b
    ensures x / m == a + (dt / m) * b
  {
    var q := dt / m;
    assert q * m == dt;
    assert m * a + dt * b == m * (a + q * b);
  }

  // The cancellation one component at a time; the six components in one
  // proof are more than the arithmetic solver handles.

  lemma IntegratedXX(s: SymTensor, m: real, dt: real, rate: SymTensor)
    requires m != 0.0
    ensures Integrated(s, m, dt, rate).xx == s.xx + (dt / m) * rate.xx
  {
    CancelMass(m, dt, s.xx, rate.xx, Plus(Scaled(s, m), Scaled(rate, dt)).xx);
  }

  lemma IntegratedYY(s: SymTensor, m: real, dt: real, rate: SymTensor)
    requires m != 0.0
    ensures Integrated(s, m, dt, rate).yy == s.yy + (dt / m) * rate.yy
  {
    CancelMass(m, dt, s.yy, rate.yy, Plus(Scaled(s, m), Scaled(rate, dt)).yy);
  }

  lemma IntegratedZZ(s: SymTensor, m: real, dt: real, rate: SymTensor)
    requires m != 0.0
    ensures Integrated(s, m, dt, rate).zz == s.zz + (dt / m) * rate.zz
  {
    CancelMass(m, dt, s.zz, rate.zz, Plus(Scaled(s, m), Scaled(rate, dt)).zz);
  }

  lemma IntegratedYZ(s: SymTensor, m: real, dt: real, rate: SymTensor)
    requires m != 0.0
    ensures Integrated(s, m, dt, rate).yz == s.yz + (dt / m) * rate.yz
  {
    CancelMass(m, dt, s.yz, rate.yz, Plus(Scaled(s, m), Scaled(rate, dt)).yz);
  }

  lemma IntegratedXZ(s: SymTensor, m: real, dt: real, rate: SymTensor)
    requires m != 0.0
    ensures Integrated(s, m, dt, rate).xz == s.xz + (dt / m) * rate.xz
  {
    CancelMass(m, dt, s.xz, rate.xz, Plus(Scaled(s, m), Scaled(rate, dt)).xz);
  }

  lemma IntegratedXY(s: SymTensor, m: real, dt: real, rate: SymTensor)
    requires m != 0.0
    ensures Integrated(s, m, dt, rate).xy == s.xy + (dt / m) * rate.xy
  {
    CancelMass(m, dt, s.xy, rate.xy, Plus(Scaled(s, m), Scaled(rate, dt)).xy);
  }

  /** The mass term cancels: the integrated stress is the old stress plus
    * `dt / m` times the stress rate. */
  lemma IntegratedMeaning(s: SymTensor, m: real, dt: real, rate: SymTensor)
    requires m != 0.0
    ensures Integrated(s, m, dt, rate) == Plus(s, Scaled(rate, dt / m))
  {
    IntegratedXX(s, m, dt, rate);
    IntegratedYY(s, m, dt, rate);
    IntegratedZZ(s, m, dt, rate);
    IntegratedYZ(s, m, dt, rate);
    IntegratedXZ(s, m, dt, rate);
    IntegratedXY(s, m, dt, rate);
  }

  /** What the stress kernel reads besides the stress and the sources: the
    * media, the mass term of node `i` of element `k` (`computeMassTerm`), the
    * strain rate at node `i` of element `k` that the stiffness callbacks
    * accumulate from the velocity, the time step, the region, the cycle and
    * the number of nodes per element. */
  datatype StressKernel = StressKernel(media: Media, massTerm: (nat, nat) -> real, strainRate: (nat, nat) -> SymTensor,
                                       dt: real, regionIndex: int, cycle: nat, numNodesPerElem: nat)

  /** Element `k`'s mass terms are nonzero, as the divisions need. */
  predicate NonzeroMasses(sk: StressKernel, k: nat) {
    forall i: nat :: i < sk.numNodesPerElem ==> sk.massTerm(k, i) != 0.0
  }

  /** The source table can be read at this cycle and at each node. */
  predicate InjectionShaped(t: Registry, sk: StressKernel) {
    RegistryCounts(t) && CycleColumns(t) && sk.cycle < |t.value|
    && forall isrc :: 0 <= isrc < |t.flag| ==> sk.numNodesPerElem <= |t.constants[isrc]|
  }

  /** Element `k` can be updated: it has a medium, nonzero mass terms, and a
    * row of one stress per node. */
  predicate StressOk(row: seq<SymTensor>, sk: StressKernel, t: Registry, k: nat) {
    |row| == sk.numNodesPerElem && HasMedium(sk.media, k) && NonzeroMasses(sk, k) && InjectionShaped(t, sk)
  }

  /** The stress rate at node `i` of element `k`. */
  function NodeRate(sk: StressKernel, k: nat, i: nat): SymTensor
    requires HasMedium(sk.media, k)
  {
    Hooke(Lambda(sk.media, k), Mu(sk.media, k), sk.strainRate(k, i))
  }

  /** Element `k`'s stress after the time integration, before the sources. */
  function IntegratedRow(row: seq<SymTensor>, sk: StressKernel, t: Registry, k: nat): (r: seq<SymTensor>)
    requires StressOk(row, sk, t, k)
    ensures |r| == |row|
  {
    seq(sk.numNodesPerElem, i requires 0 <= i < sk.numNodesPerElem =>
          Integrated(row[i], sk.massTerm(k, i), sk.dt, NodeRate(sk, k, i)))
  }

  /** Source `isrc` injects into element `k`: it is local, and it was found in
    * element `k` of this region. */
  predicate Injects(t: Registry, regionIndex: int, k: nat, isrc: nat)
    requires RegistryCounts(t) && isrc < |t.flag|
  {
    t.flag[isrc] == 1 && t.elem[isrc] == k && t.region[isrc] == regionIndex
  }

  /** What source `isrc` adds at node `i` of element `k`. */
  function InjectionIncrement(t: Registry, sk: StressKernel, k: nat, isrc: nat, i: nat): real
    requires InjectionShaped(t, sk) && NonzeroMasses(sk, k) && isrc < |t.flag| && i < sk.numNodesPerElem
  {
    sk.dt * (t.constants[isrc][i] * t.value[sk.cycle][isrc]) / sk.massTerm(k, i)
  }

  /** The sum of what sources `0 .. count-1` add at node `i` of element `k`. */
  function Injection(t: Registry, sk: StressKernel, k: nat, i: nat, count: nat): real
    requires InjectionShaped(t, sk) && NonzeroMasses(sk, k) && count <= |t.flag| && i < sk.numNodesPerElem
  {
    if count == 0 then 0.0
    else
      Injection(t, sk, k, i, count - 1)
      + if Injects(t, sk.regionIndex, k, count - 1) then InjectionIncrement(t, sk, k, count - 1, i) else 0.0
  }

  /** A source adds to the three normal stresses alike. */
  function PressureAdd(s: SymTensor, v: real): SymTensor {
    s.(xx := s.xx + v, yy := s.yy + v, zz := s.zz + v)
  }

  /** Source `isrc` injected into a row. */
  function InjectOne(row: seq<SymTensor>, t: Registry, sk: StressKernel, k: nat, isrc: nat): (r: seq<SymTensor>)
    requires InjectionShaped(t, sk) && NonzeroMasses(sk, k) && isrc < |t.flag| && |row| == sk.numNodesPerElem
    ensures |r| == |row|
  {
    seq(sk.numNodesPerElem, i requires 0 <= i < sk.numNodesPerElem =>
          PressureAdd(row[i], InjectionIncrement(t, sk, k, isrc, i)))
  }

  /** The row once sources `0 .. count-1` have been examined. */
  function InjectedRow(row: seq<SymTensor>, t: Registry, sk: StressKernel, k: nat, count: nat): (r: seq<SymTensor>)
    requires InjectionShaped(t, sk) && NonzeroMasses(sk, k) && count <= |t.flag| && |row| == sk.numNodesPerElem
    ensures |r| == |row|
  {
    if count == 0 then row
    else
      var s := InjectedRow(row, t, sk, k, count - 1);
      if Injects(t, sk.regionIndex, k, count - 1) then InjectOne(s, t, sk, k, count - 1) else s
  }

  /** Each node's stress gains, on each normal component, the sum of the
    * increments of the sources that inject into the element; its shear
    * components do not change. */
  lemma {:induction false} InjectedRowTotals(row: seq<SymTensor>, t: Registry, sk: StressKernel, k: nat, count: nat)
    requires InjectionShaped(t, sk) && NonzeroMasses(sk, k) && count <= |t.flag| && |row| == sk.numNodesPerElem
    ensures forall i :: 0 <= i < sk.numNodesPerElem ==>
              InjectedRow(row, t, sk, k, count)[i] == PressureAdd(row[i], Injection(t, sk, k, i, count))
  {
    if count > 0 {
      var j: nat := count - 1;
      InjectedRowTotals(row, t, sk, k, j);
    }
  }

  /** An element no source was found in keeps its stress. */
  lemma {:induction false} NoSourceNoInjection(t: Registry, sk: StressKernel, k: nat, i: nat, count: nat)
    requires InjectionShaped(t, sk) && NonzeroMasses(sk, k) && count <= |t.flag| && i < sk.numNodesPerElem
    requires forall isrc :: 0 <= isrc < count ==> !Injects(t, sk.regionIndex, k, isrc)
    ensures Injection(t, sk, k, i, count) == 0.0
  {
    if count > 0 {
      var j: nat := count - 1;
      NoSourceNoInjection(t, sk, k, i, j);
    }
  }

  /** The sources' sweep and the stress kernel agree: after the sweep over
    * elements `0 .. size-1`, a source that was not local before injects into
    * element `k` of the sweep's region exactly when `k` is the first of those
    * elements that locates it. */
  lemma SweptSourceInjects(t: Registry, el: Elements, w: Sweep, size: nat, i: nat, k: nat)
    requires RegistryCounts(t) && CycleColumns(t) && ValidElements(el, size) && i < |t.flag| && t.flag[i] == 0
    ensures Injects(LocatedAfter(t, el, w, size), w.regionIndex, k, i)
            <==> k < size && w.found(k, i) && forall e: nat :: e < k ==> !w.found(e, i)
  {
    LocatedAfterRows(t, el, w, size, i);
    RegistrationMeaning(0, w.found, size, i, k);
  }

  /** Element `k`'s stress once the kernel has run for it. */
  function ElementStress(row: seq<SymTensor>, sk: StressKernel, t: Registry, k: nat): (r: seq<SymTensor>)
    requires StressOk(row, sk, t, k)
    ensures |r| == |row|
  {
    InjectedRow(IntegratedRow(row, sk, t, k), t, sk, k, |t.flag|)
  }

  /** The closed form of the element update: each node's stress is the old
    * stress plus `dt / m` times the stress rate of the isotropic law with the
    * element's Lame parameters, plus, on the normal components only, the
    * injection of the sources found in this element. */
  lemma ElementStressMeaning(row: seq<SymTensor>, sk: StressKernel, t: Registry, k: nat, i: nat)
    requires StressOk(row, sk, t, k) && i < sk.numNodesPerElem
    ensures ElementStress(row, sk, t, k)[i]
            == PressureAdd(Plus(row[i], Scaled(NodeRate(sk, k, i), sk.dt / sk.massTerm(k, i))),
                           Injection(t, sk, k, i, |t.flag|))
  {
    InjectedRowTotals(IntegratedRow(row, sk, t, k), t, sk, k, |t.flag|);
    IntegratedMeaning(row[i], sk.massTerm(k, i), sk.dt, NodeRate(sk, k, i));
  }

  /** The sources loop of element `k`: each source found in element `k` of
    * this region adds its increment to the three normal stresses of each
    * node. */
  method InjectSources(sk: StressKernel, t: Registry, k: nat, stress: array<seq<SymTensor>>)
    requires k < stress.Length && |stress[k]| == sk.numNodesPerElem && InjectionShaped(t, sk) && NonzeroMasses(sk, k)
    modifies stress
    ensures stress[k] == InjectedRow(old(stress[k]), t, sk, k, |t.flag|)
    ensures forall j :: 0 <= j < stress.Length && j != k ==> stress[j] == old(stress[j])
  {
    ghost var row := stress[k];
    var n := sk.numNodesPerElem;
    for isrc := 0 to |t.flag|
      invariant stress[k] == InjectedRow(row, t, sk, k, isrc)
      invariant forall j :: 0 <= j < stress.Length && j != k ==> stress[j] == old(stress[j])
    {
      if t.flag[isrc] == 1 {
        if t.elem[isrc] == k && t.region[isrc] == sk.regionIndex {
          ghost var before := stress[k];
          for i := 0 to n
            invariant |stress[k]| == n
            invariant forall j :: 0 <= j < n ==>
                        stress[k][j] == if j < i then InjectOne(before, t, sk, k, isrc)[j] else before[j]
            invariant forall j :: 0 <= j < stress.Length && j != k ==> stress[j] == old(stress[j])
          {
            var massLoc := sk.massTerm(k, i);
            var localIncrement := sk.dt * (t.constants[isrc][i] * t.value[sk.cycle][isrc]) / massLoc;
            stress[k] := stress[k][i := PressureAdd(stress[k][i], localIncrement)];
          }
          assert stress[k] == InjectOne(before, t, sk, k, isrc);
        }
      }
    }
  }

  /** The loops of element `k` before the sources: the Lame parameters from
    * the medium, the stress multiplied by the mass terms, the time
    * integration with the isotropic law, and the division by the mass terms. */
  method IntegrateStress(sk: StressKernel, t: Registry, k: nat, stress: array<seq<SymTensor>>,
                         mu: array<real>, lambda: array<real>)
    requires k < stress.Length && k < mu.Length && k < lambda.Length && mu != lambda
    requires StressOk(stress[k], sk, t, k)
    modifies stress, mu, lambda
    ensures stress[k] == IntegratedRow(old(stress[k]), sk, t, k)
    ensures forall j :: 0 <= j < stress.Length && j != k ==> stress[j] == old(stress[j])
    ensures mu[..] == old(mu[..])[k := Mu(sk.media, k)] && lambda[..] == old(lambda[..])[k := Lambda(sk.media, k)]
  {
    var n := sk.numNodesPerElem;
    var media := sk.media;
    var muk := media.density[k] * media.vs[k] * media.vs[k];
    var lambdak := media.density[k] * media.vp[k] * media.vp[k] - 2.0 * muk;
    assert muk == Mu(media, k) && lambdak == Lambda(media, k);
    mu[k] := muk;
    lambda[k] := lambdak;
    var row := stress[k];
    var uelem: seq<SymTensor> := [];
    for i := 0 to n
      invariant |uelem| == i
      invariant forall j :: 0 <= j < i ==> uelem[j] == Scaled(row[j], sk.massTerm(k, j))
    {
      var massLoc := sk.massTerm(k, i);
      uelem := uelem + [Scaled(row[i], massLoc)];
    }
    for i := 0 to n
      invariant |uelem| == n
      invariant forall j :: 0 <= j < n ==>
                  uelem[j] == if j < i then Plus(Scaled(row[j], sk.massTerm(k, j)), Scaled(NodeRate(sk, k, j), sk.dt))
                              else Scaled(row[j], sk.massTerm(k, j))
    {
      var rate := Hooke(lambdak, muk, sk.strainRate(k, i));
      uelem := uelem[i := Plus(uelem[i], Scaled(rate, sk.dt))];
    }
    var newRow: seq<SymTensor> := [];
    for i := 0 to n
      invariant |newRow| == i
      invariant forall j :: 0 <= j < i ==> newRow[j] == IntegratedRow(row, sk, t, k)[j]
    {
      var massLoc := sk.massTerm(k, i);
      newRow := newRow + [Over(uelem[i], massLoc)];
    }
    stress[k] := newRow;
  }

  /** The kernel for element `k`. */
  method StressElement(sk: StressKernel, t: Registry, k: nat, stress: array<seq<SymTensor>>,
                       mu: array<real>, lambda: array<real>)
    requires k < stress.Length && k < mu.Length && k < lambda.Length && mu != lambda
    requires StressOk(stress[k], sk, t, k)
    modifies stress, mu, lambda
    ensures stress[k] == ElementStress(old(stress[k]), sk, t, k)
    ensures forall j :: 0 <= j < stress.Length && j != k ==> stress[j] == old(stress[j])
    ensures mu[..] == old(mu[..])[k := Mu(sk.media, k)] && lambda[..] == old(lambda[..])[k := Lambda(sk.media, k)]
  {
    IntegrateStress(sk, t, k, stress, mu, lambda);
    InjectSources(sk, t, k, stress);
  }

  /** Elements `0 .. size-1` can be updated. */
  predicate StressesOk(sk: StressKernel, t: Registry, stress: seq<seq<SymTensor>>, size: nat) {
    size <= |stress| && (forall k: nat :: k < size ==> HasMedium(sk.media, k))
    && forall k: nat :: k < size ==> StressOk(stress[k], sk, t, k)
  }

  /** `StressComputation::launch`: every element's stress becomes its
    * element update, and its Lame parameters are set from its medium; the
    * other rows keep their values. */
  method StressComputation(size: nat, sk: StressKernel, t: Registry, stress: array<seq<SymTensor>>,
                           mu: array<real>, lambda: array<real>)
    requires StressesOk(sk, t, stress[..], size) && size <= mu.Length && size <= lambda.Length && mu != lambda
    modifies stress, mu, lambda
    ensures forall k :: 0 <= k < size ==> stress[k] == ElementStress(old(stress[k]), sk, t, k)
    ensures forall k :: size <= k < stress.Length ==> stress[k] == old(stress[k])
    ensures forall k :: 0 <= k < size ==> mu[k] == Mu(sk.media, k) && lambda[k] == Lambda(sk.media, k)
    ensures forall k :: size <= k < mu.Length ==> mu[k] == old(mu[k])
    ensures forall k :: size <= k < lambda.Length ==> lambda[k] == old(lambda[k])
  {
    ghost var s0, mu0, lambda0 := stress[..], mu[..], lambda[..];
    for k := 0 to size
      invariant forall j :: 0 <= j < k ==> stress[j] == ElementStress(s0[j], sk, t, j)
      invariant forall j :: k <= j < stress.Length ==> stress[j] == s0[j]
      invariant forall j :: 0 <= j < k ==> mu[j] == Mu(sk.media, j) && lambda[j] == Lambda(sk.media, j)
      invariant forall j :: k <= j < mu.Length ==> mu[j] == mu0[j]
      invariant forall j :: k <= j < lambda.Length ==> lambda[j] == lambda0[j]
    {
      assert StressOk(s0[k], sk, t, k);
      StressElement(sk, t, k, stress, mu, lambda);
    }
  }

  // ---------------------------------------------------------------------
  // VelocityComputation::launch
  // ---------------------------------------------------------------------

  /** What the velocity kernel reads besides the nodal arrays: the element to
    * node map, the number of nodes per element, the force at node `i` of
    * element `k` that the stiffness callbacks accumulate from the element's
    * stress (`flowx`, `flowy`, `flowz`), and the time step. */
  datatype VelocityKernel = VelocityKernel(elemsToNodes: seq<seq<int>>, numNodesPerElem: nat,
                                           flow: (nat, nat) -> Vec3, dt: real)

  /** Every node has a nonzero mass. */
  predicate NonzeroMass(mass: seq<real>) {
    forall a :: 0 <= a < |mass| ==> mass[a] != 0.0
  }

  /** The damping factor of one node: half the time step times its damping
    * per unit mass. */
  function Attenuation(dt: real, damping: real, mass: real): real
    requires mass != 0.0
  {
    (dt / 2.0) * (damping / mass)
  }

  /** No node has `1 + factor` zero, as the last phase's division needs. */
  predicate Divisible(damping: seq<real>, mass: seq<real>, dt: real)
    requires |damping| == |mass| && NonzeroMass(mass)
  {
    forall a :: 0 <= a < |mass| ==> 1.0 + Attenuation(dt, damping[a], mass[a]) != 0.0
  }

  /** One axis of the kernel can run: one damping and one mass per node, the
    * divisions defined, and the nodes of elements `0 .. size-1` among the
    * nodes. */
  predicate VelocityShape(u: seq<real>, damping: seq<real>, mass: seq<real>, vk: VelocityKernel, size: nat) {
    |damping| == |u| && |mass| == |u| && NonzeroMass(mass) && Divisible(damping, mass, vk.dt)
    && Aims(vk.elemsToNodes, size, vk.numNodesPerElem, |u|)
  }

  function PredampedAt(u: seq<real>, damping: seq<real>, mass: seq<real>, dt: real, a: nat): real
    requires |damping| == |u| && |mass| == |u| && NonzeroMass(mass) && a < |u|
  {
    u[a] * (1.0 - Attenuation(dt, damping[a], mass[a]))
  }

  /** The first phase: each node's velocity times `1 - factor`. */
  function Predamped(u: seq<real>, damping: seq<real>, mass: seq<real>, dt: real): (r: seq<real>)
    requires |damping| == |u| && |mass| == |u| && NonzeroMass(mass)
    ensures |r| == |u|
  {
    seq(|u|, a requires 0 <= a < |u| => PredampedAt(u, damping, mass, dt, a))
  }

  function PostdampedAt(u: seq<real>, damping: seq<real>, mass: seq<real>, dt: real, a: nat): real
    requires |damping| == |u| && |mass| == |u| && NonzeroMass(mass) && Divisible(damping, mass, dt) && a < |u|
  {
    u[a] / (1.0 + Attenuation(dt, damping[a], mass[a]))
  }

  /** The last phase: each node's velocity divided by `1 + factor`. */
  function Postdamped(u: seq<real>, damping: seq<real>, mass: seq<real>, dt: real): (r: seq<real>)
    requires |damping| == |u| && |mass| == |u| && NonzeroMass(mass) && Divisible(damping, mass, dt)
    ensures |r| == |u|
  {
    seq(|u|, a requires 0 <= a < |u| => PostdampedAt(u, damping, mass, dt, a))
  }

  /** `dt` times force `f`, divided by mass `m`. */
  function Share(dt: real, f: real, m: real): real
    requires m != 0.0
  {
    (dt * f) / m
  }

  /** What node `i` of element `k` adds along `axis` in the middle phase:
    * `dt` times its force, divided by the mass of its node. */
  function FlowIncrement(vk: VelocityKernel, mass: seq<real>, axis: nat, k: nat, i: nat): real
    requires k < |vk.elemsToNodes| && i < |vk.elemsToNodes[k]| && 0 <= vk.elemsToNodes[k][i] < |mass|
    requires NonzeroMass(mass)
  {
    Share(vk.dt, Component(vk.flow(k, i), axis), mass[vk.elemsToNodes[k][i]])
  }

  /** The additions along `axis` of nodes `0 .. count-1` of element `k`. */
  function ElementFlowPairs(vk: VelocityKernel, mass: seq<real>, axis: nat, k: nat, count: nat): (r: seq<(int, real)>)
    requires Aims(vk.elemsToNodes, k + 1, vk.numNodesPerElem, |mass|) && NonzeroMass(mass)
    requires count <= vk.numNodesPerElem
    ensures |r| == count && InBounds(r, |mass|)
  {
    if count == 0 then []
    else
      var i: nat := count - 1;
      var before := ElementFlowPairs(vk, mass, axis, k, i);
      var added := [(vk.elemsToNodes[k][i], FlowIncrement(vk, mass, axis, k, i))];
      InBoundsAppend(before, added, |mass|);
      before + added
  }

  /** The additions along `axis` of elements `0 .. count-1`. */
  function FlowPairs(vk: VelocityKernel, mass: seq<real>, axis: nat, count: nat): (r: seq<(int, real)>)
    requires Aims(vk.elemsToNodes, count, vk.numNodesPerElem, |mass|) && NonzeroMass(mass)
    ensures InBounds(r, |mass|)
  {
    if count == 0 then []
    else
      var k: nat := count - 1;
      assert Aims(vk.elemsToNodes, k, vk.numNodesPerElem, |mass|);
      var before := FlowPairs(vk, mass, axis, k);
      var mine := ElementFlowPairs(vk, mass, axis, k, vk.numNodesPerElem);
      InBoundsAppend(before, mine, |mass|);
      before + mine
  }

  /** The velocity along `axis` once the three phases have run. */
  function Velocity(u: seq<real>, damping: seq<real>, mass: seq<real>, vk: VelocityKernel, axis: nat, size: nat)
    : (r: seq<real>)
    requires VelocityShape(u, damping, mass, vk, size)
    ensures |r| == |u|
  {
    Postdamped(AddAt(Predamped(u, damping, mass, vk.dt), FlowPairs(vk, mass, axis, size)), damping, mass, vk.dt)
  }

  /** The force along `axis` that nodes `0 .. count-1` of element `k` put on
    * node `a`. */
  function ElementForce(a: int, vk: VelocityKernel, axis: nat, k: nat, count: nat): real
    requires k < |vk.elemsToNodes| && count <= |vk.elemsToNodes[k]|
  {
    if count == 0 then 0.0
    else
      ElementForce(a, vk, axis, k, count - 1)
      + if vk.elemsToNodes[k][count - 1] == a then Component(vk.flow(k, count - 1), axis) else 0.0
  }

  /** The elements `0 .. count-1` have `numNodesPerElem` nodes each. */
  predicate Covers(vk: VelocityKernel, count: nat) {
    count <= |vk.elemsToNodes| && forall e :: 0 <= e < count ==> vk.numNodesPerElem <= |vk.elemsToNodes[e]|
  }

  /** The force along `axis` that elements `0 .. count-1` put on node `a`. */
  function NodeForce(a: int, vk: VelocityKernel, axis: nat, count: nat): real
    requires Covers(vk, count)
  {
    if count == 0 then 0.0
    else NodeForce(a, vk, axis, count - 1) + ElementForce(a, vk, axis, count - 1, vk.numNodesPerElem)
  }

  /** Dividing by the mass distributes over a sum of forces: with `c` the
    * share of force `f` and `d` that of force `g`, `c + d` is the share of
    * `f + g`. */
  lemma DivideSum(dt: real, m: real, f: real, g: real, sum: real, c: real, d: real)
    requires m != 0.0 && c == Share(dt, f, m) && d == Share(dt, g, m) && sum == f + g
    ensures c + d == Share(dt, sum, m)
  {
    assert dt * f + dt * g == dt * sum;
  }

  /** Node `count - 1` of element `k` adds its increment to node `a`'s total
    * exactly when it is node `a`. */
  lemma ElementFlowPairsStep(a: int, vk: VelocityKernel, mass: seq<real>, axis: nat, k: nat, count: nat)
    requires Aims(vk.elemsToNodes, k + 1, vk.numNodesPerElem, |mass|) && NonzeroMass(mass)
    requires 0 < count <= vk.numNodesPerElem
    ensures Contribution(a, ElementFlowPairs(vk, mass, axis, k, count))
            == Contribution(a, ElementFlowPairs(vk, mass, axis, k, count - 1))
               + if vk.elemsToNodes[k][count - 1] == a then FlowIncrement(vk, mass, axis, k, count - 1) else 0.0
  {
    var pairs := ElementFlowPairs(vk, mass, axis, k, count);
    assert pairs[..count - 1] == ElementFlowPairs(vk, mass, axis, k, count - 1);
  }

  lemma {:induction false} ElementFlowContribution(a: int, vk: VelocityKernel, mass: seq<real>, axis: nat, k: nat,
                                                   count: nat)
    requires Aims(vk.elemsToNodes, k + 1, vk.numNodesPerElem, |mass|) && NonzeroMass(mass)
    requires count <= vk.numNodesPerElem && 0 <= a < |mass|
    ensures Contribution(a, ElementFlowPairs(vk, mass, axis, k, count))
            == Share(vk.dt, ElementForce(a, vk, axis, k, count), mass[a])
  {
    if count > 0 {
      var i: nat := count - 1;
      ElementFlowPairsStep(a, vk, mass, axis, k, count);
      ElementFlowContribution(a, vk, mass, axis, k, i);
      if vk.elemsToNodes[k][i] == a {
        DivideSum(vk.dt, mass[a], ElementForce(a, vk, axis, k, i), Component(vk.flow(k, i), axis),
                  ElementForce(a, vk, axis, k, count), Contribution(a, ElementFlowPairs(vk, mass, axis, k, i)),
                  FlowIncrement(vk, mass, axis, k, i));
      }
    }
  }

  lemma {:induction false} FlowContribution(a: int, vk: VelocityKernel, mass: seq<real>, axis: nat, count: nat)
    requires Aims(vk.elemsToNodes, count, vk.numNodesPerElem, |mass|) && NonzeroMass(mass) && 0 <= a < |mass|
    ensures Covers(vk, count)
    ensures Contribution(a, FlowPairs(vk, mass, axis, count)) == Share(vk.dt, NodeForce(a, vk, axis, count), mass[a])
  {
    if count > 0 {
      var k: nat := count - 1;
      assert Aims(vk.elemsToNodes, k, vk.numNodesPerElem, |mass|);
      FlowContribution(a, vk, mass, axis, k);
      ContributionAppend(a, FlowPairs(vk, mass, axis, k), ElementFlowPairs(vk, mass, axis, k, vk.numNodesPerElem));
      ElementFlowContribution(a, vk, mass, axis, k, vk.numNodesPerElem);
      DivideSum(vk.dt, mass[a], NodeForce(a, vk, axis, k), ElementForce(a, vk, axis, k, vk.numNodesPerElem),
                NodeForce(a, vk, axis, count), Contribution(a, FlowPairs(vk, mass, axis, k)),
                Contribution(a, ElementFlowPairs(vk, mass, axis, k, vk.numNodesPerElem)));
    }
  }

  /** Dividing `u (1 - h) + c` by `1 + h` is the trapezoidal step: the change
    * is `c` less `h` times the old plus the new value. */
  lemma TrapezoidStep(u: real, h: real, c: real, p: real, s: real, x: real)
    requires 1.0 + h != 0.0 && p == u * (1.0 - h) && s == p + c && x == s / (1.0 + h)
    ensures x - u == c - h * (u + x)
  {
    assert x * (1.0 + h) == u * (1.0 - h) + c;
  }

  /** The last phase at node `a` after the first phase and a gain `c`. */
  lemma TrapezoidAt(u: seq<real>, damping: seq<real>, mass: seq<real>, dt: real, t: seq<real>, c: real, a: nat)
    requires |damping| == |u| && |mass| == |u| && NonzeroMass(mass) && Divisible(damping, mass, dt)
    requires |t| == |u| && a < |u| && t[a] == PredampedAt(u, damping, mass, dt, a) + c
    ensures PostdampedAt(t, damping, mass, dt, a) - u[a]
            == c - Attenuation(dt, damping[a], mass[a]) * (u[a] + PostdampedAt(t, damping, mass, dt, a))
  {
    TrapezoidStep(u[a], Attenuation(dt, damping[a], mass[a]), c, PredampedAt(u, damping, mass, dt, a), t[a],
                  PostdampedAt(t, damping, mass, dt, a));
  }

  /** Node `a` of the three phases, phase by phase. */
  lemma VelocityAt(u: seq<real>, damping: seq<real>, mass: seq<real>, vk: VelocityKernel, axis: nat,
                   size: nat, a: nat)
    requires VelocityShape(u, damping, mass, vk, size) && a < |u|
    ensures var t := AddAt(Predamped(u, damping, mass, vk.dt), FlowPairs(vk, mass, axis, size));
      t[a] == PredampedAt(u, damping, mass, vk.dt, a) + Contribution(a, FlowPairs(vk, mass, axis, size))
      && Velocity(u, damping, mass, vk, axis, size)[a] == PostdampedAt(t, damping, mass, vk.dt, a)
  {
    AddAtTotals(Predamped(u, damping, mass, vk.dt), FlowPairs(vk, mass, axis, size));
  }

  /** The velocity update is the central-difference step with damping taken
    * at the midpoint: along each axis and at each node, the change of the
    * velocity is `dt` times the force the elements put on the node divided
    * by its mass, less `dt / 2 * damping / mass` times the old plus the new
    * velocity. */
  lemma VelocityMeaning(u: seq<real>, damping: seq<real>, mass: seq<real>, vk: VelocityKernel, axis: nat,
                        size: nat, a: nat)
    requires VelocityShape(u, damping, mass, vk, size) && a < |u|
    ensures Covers(vk, size)
    ensures var r := Velocity(u, damping, mass, vk, axis, size);
      r[a] - u[a] == Share(vk.dt, NodeForce(a, vk, axis, size), mass[a])
                     - Attenuation(vk.dt, damping[a], mass[a]) * (u[a] + r[a])
  {
    var t := AddAt(Predamped(u, damping, mass, vk.dt), FlowPairs(vk, mass, axis, size));
    VelocityAt(u, damping, mass, vk, axis, size, a);
    FlowContribution(a, vk, mass, axis, size);
    TrapezoidAt(u, damping, mass, vk.dt, t, Share(vk.dt, NodeForce(a, vk, axis, size), mass[a]), a);
  }

  /** Without damping a node has no attenuation, so the first and last
    * phases leave it as it is. */
  lemma Undamped(u: seq<real>, damping: seq<real>, mass: seq<real>, dt: real, t: seq<real>, a: nat)
    requires |damping| == |u| && |mass| == |u| && NonzeroMass(mass) && Divisible(damping, mass, dt)
    requires |t| == |u| && a < |u| && damping[a] == 0.0
    ensures PredampedAt(u, damping, mass, dt, a) == u[a] && PostdampedAt(t, damping, mass, dt, a) == t[a]
  {
    assert Attenuation(dt, damping[a], mass[a]) == 0.0;
  }

  /** An undamped node just gains `dt` times its force over its mass. */
  lemma UndampedVelocity(u: seq<real>, damping: seq<real>, mass: seq<real>, vk: VelocityKernel, axis: nat,
                         size: nat, a: nat)
    requires VelocityShape(u, damping, mass, vk, size) && a < |u| && damping[a] == 0.0
    ensures Covers(vk, size)
    ensures Velocity(u, damping, mass, vk, axis, size)[a] == u[a] + Share(vk.dt, NodeForce(a, vk, axis, size), mass[a])
  {
    var t := AddAt(Predamped(u, damping, mass, vk.dt), FlowPairs(vk, mass, axis, size));
    VelocityAt(u, damping, mass, vk, axis, size, a);
    FlowContribution(a, vk, mass, axis, size);
    Undamped(u, damping, mass, vk.dt, t, a);
  }

  /** With a non-negative factor the trapezoidal step without force never
    * grows the value. */
  lemma Contraction(u: real, h: real, x: real)
    requires h >= 0.0 && x - u == 0.0 - h * (u + x)
    ensures Abs(x) <= Abs(u)
  {
    if u + x >= 0.0 {
      ProductNonnegative(h, u + x);
    } else {
      ProductNonnegative(h, -(u + x));
      assert h * -(u + x) == -(h * (u + x));
    }
  }

  lemma AttenuationNonnegative(dt: real, damping: real, mass: real)
    requires dt >= 0.0 && damping >= 0.0 && mass > 0.0
    ensures Attenuation(dt, damping, mass) >= 0.0
  {
    ProductNonnegative(dt / 2.0, damping / mass);
  }

  lemma NoForceNoShare(dt: real, m: real)
    requires m != 0.0
    ensures Share(dt, 0.0, m) == 0.0
  {
  }

  /** A node with non-negative damping, positive mass and no gain in the
    * middle phase is no faster after the last phase than before the first. */
  lemma DampingShrinks(u: seq<real>, damping: seq<real>, mass: seq<real>, dt: real, t: seq<real>, a: nat)
    requires |damping| == |u| && |mass| == |u| && NonzeroMass(mass) && Divisible(damping, mass, dt)
    requires |t| == |u| && a < |u| && t[a] == PredampedAt(u, damping, mass, dt, a)
    requires dt >= 0.0 && damping[a] >= 0.0 && mass[a] > 0.0
    ensures Abs(PostdampedAt(t, damping, mass, dt, a)) <= Abs(u[a])
  {
    var h := Attenuation(dt, damping[a], mass[a]);
    AttenuationNonnegative(dt, damping[a], mass[a]);
    TrapezoidStep(u[a], h, 0.0, PredampedAt(u, damping, mass, dt, a), t[a], PostdampedAt(t, damping, mass, dt, a));
    Contraction(u[a], h, PostdampedAt(t, damping, mass, dt, a));
  }

  /** A node with non-negative damping, positive mass and no force, under a
    * non-negative time step, never speeds up: the absorbing boundary only
    * takes energy out. */
  lemma DampingNeverAmplifies(u: seq<real>, damping: seq<real>, mass: seq<real>, vk: VelocityKernel, axis: nat,
                              size: nat, a: nat)
    requires VelocityShape(u, damping, mass, vk, size) && a < |u|
    requires vk.dt >= 0.0 && damping[a] >= 0.0 && mass[a] > 0.0
    requires Covers(vk, size) && NodeForce(a, vk, axis, size) == 0.0
    ensures Abs(Velocity(u, damping, mass, vk, axis, size)[a]) <= Abs(u[a])
  {
    var t := AddAt(Predamped(u, damping, mass, vk.dt), FlowPairs(vk, mass, axis, size));
    VelocityAt(u, damping, mass, vk, axis, size, a);
    FlowContribution(a, vk, mass, axis, size);
    NoForceNoShare(vk.dt, mass[a]);
    DampingShrinks(u, damping, mass, vk.dt, t, a);
  }

  /** The first phase along one axis: each node's velocity times
    * `1 - dt / 2 * damping / mass`. */
  method DampBefore(dt: real, damping: seq<real>, mass: seq<real>, u: array<real>)
    requires |damping| == u.Length && |mass| == u.Length && NonzeroMass(mass)
    modifies u
    ensures u[..] == Predamped(old(u[..]), damping, mass, dt)
  {
    ghost var u0 := u[..];
    for a := 0 to u.Length
      invariant forall j :: 0 <= j < u.Length ==> u[j] == if j < a then PredampedAt(u0, damping, mass, dt, j) else u0[j]
    {
      u[a] := u[a] * (1.0 - Attenuation(dt, damping[a], mass[a]));
    }
  }

  /** The last phase along one axis: each node's velocity divided by
    * `1 + dt / 2 * damping / mass`. */
  method DampAfter(dt: real, damping: seq<real>, mass: seq<real>, u: array<real>)
    requires |damping| == u.Length && |mass| == u.Length && NonzeroMass(mass) && Divisible(damping, mass, dt)
    modifies u
    ensures u[..] == Postdamped(old(u[..]), damping, mass, dt)
  {
    ghost var u0 := u[..];
    for a := 0 to u.Length
      invariant forall j :: 0 <= j < u.Length ==> u[j] == if j < a then PostdampedAt(u0, damping, mass, dt, j) else u0[j]
    {
      u[a] := u[a] / (1.0 + Attenuation(dt, damping[a], mass[a]));
    }
  }

  lemma FlowNodeStep(vk: VelocityKernel, mass: seq<real>, axis: nat, k: nat, i: nat, t: seq<real>)
    requires Aims(vk.elemsToNodes, k + 1, vk.numNodesPerElem, |mass|) && NonzeroMass(mass)
    requires |t| == |mass| && i < vk.numNodesPerElem
    ensures var before := AddAt(t, ElementFlowPairs(vk, mass, axis, k, i));
      var node := vk.elemsToNodes[k][i];
      AddAt(t, ElementFlowPairs(vk, mass, axis, k, i + 1)) == before[node := before[node] + FlowIncrement(vk, mass, axis, k, i)]
  {
    assert ElementFlowPairs(vk, mass, axis, k, i + 1)[..i] == ElementFlowPairs(vk, mass, axis, k, i);
  }

  /** The atomic addition of node `i` of element `k` along `axis`. */
  method AddFlowNode(vk: VelocityKernel, mass: seq<real>, axis: nat, k: nat, i: nat, u: array<real>,
                     ghost t0: seq<real>)
    requires Aims(vk.elemsToNodes, k + 1, vk.numNodesPerElem, |mass|) && NonzeroMass(mass)
    requires u.Length == |mass| && |t0| == |mass| && i < vk.numNodesPerElem
    requires u[..] == AddAt(t0, ElementFlowPairs(vk, mass, axis, k, i))
    modifies u
    ensures u[..] == AddAt(t0, ElementFlowPairs(vk, mass, axis, k, i + 1))
  {
    FlowNodeStep(vk, mass, axis, k, i, t0);
    var node := vk.elemsToNodes[k][i];
    var localIncrement := FlowIncrement(vk, mass, axis, k, i);
    u[node] := u[node] + localIncrement;
  }

  /** The three nodal velocity arrays, of one length and distinct. */
  predicate VelocityArrays(ux: array<real>, uy: array<real>, uz: array<real>) {
    ux != uy && uy != uz && ux != uz && uy.Length == ux.Length && uz.Length == ux.Length
  }

  /** The node loop of element `k` in the middle phase, along one axis. */
  method ElementFlow(vk: VelocityKernel, mass: seq<real>, axis: nat, k: nat, u: array<real>)
    requires u.Length == |mass|
    requires Aims(vk.elemsToNodes, k + 1, vk.numNodesPerElem, |mass|) && NonzeroMass(mass)
    modifies u
    ensures u[..] == AddAt(old(u[..]), ElementFlowPairs(vk, mass, axis, k, vk.numNodesPerElem))
  {
    ghost var u0 := u[..];
    for i := 0 to vk.numNodesPerElem
      invariant u[..] == AddAt(u0, ElementFlowPairs(vk, mass, axis, k, i))
    {
      AddFlowNode(vk, mass, axis, k, i, u, u0);
    }
  }

  lemma FlowStep(t: seq<real>, vk: VelocityKernel, mass: seq<real>, axis: nat, k: nat)
    requires Aims(vk.elemsToNodes, k + 1, vk.numNodesPerElem, |mass|) && NonzeroMass(mass) && |t| == |mass|
    ensures Aims(vk.elemsToNodes, k, vk.numNodesPerElem, |mass|)
    ensures AddAt(t, FlowPairs(vk, mass, axis, k + 1))
            == AddAt(AddAt(t, FlowPairs(vk, mass, axis, k)), ElementFlowPairs(vk, mass, axis, k, vk.numNodesPerElem))
  {
    assert Aims(vk.elemsToNodes, k, vk.numNodesPerElem, |mass|);
    AddAtAppend(t, FlowPairs(vk, mass, axis, k), ElementFlowPairs(vk, mass, axis, k, vk.numNodesPerElem));
  }

  /** The first `n` of `count` aimed elements are aimed. */
  lemma AimsPrefix(elemsToNodes: seq<seq<int>>, count: nat, n: nat, width: nat, size: nat)
    requires Aims(elemsToNodes, count, width, size) && n <= count
    ensures Aims(elemsToNodes, n, width, size)
  {
  }

  /** `v` is `v0` after the middle phase along `axis` over elements
    * `0 .. k-1`. */
  predicate Flowed(v: seq<real>, v0: seq<real>, vk: VelocityKernel, mass: seq<real>, axis: nat, k: nat) {
    Aims(vk.elemsToNodes, k, vk.numNodesPerElem, |mass|) && NonzeroMass(mass) && |v0| == |mass|
    && v == AddAt(v0, FlowPairs(vk, mass, axis, k))
  }

  /** The middle phase along one axis: every element adds its nodes'
    * increments. */
  method FlowPhase(size: nat, vk: VelocityKernel, mass: seq<real>, axis: nat, u: array<real>)
    requires u.Length == |mass| && NonzeroMass(mass)
    requires Aims(vk.elemsToNodes, size, vk.numNodesPerElem, |mass|)
    modifies u
    ensures u[..] == AddAt(old(u[..]), FlowPairs(vk, mass, axis, size))
  {
    ghost var u0 := u[..];
    for k := 0 to size
      invariant Flowed(u[..], u0, vk, mass, axis, k)
    {
      AimsPrefix(vk.elemsToNodes, size, k + 1, vk.numNodesPerElem, |mass|);
      FlowStep(u0, vk, mass, axis, k);
      ElementFlow(vk, mass, axis, k, u);
    }
  }

  /** `VelocityComputation::launch`: along each axis, the velocity of every
    * node becomes `Velocity` of its old value, which `VelocityMeaning`
    * characterises. */
  method VelocityComputation(size: nat, vk: VelocityKernel, mass: seq<real>,
                             dampingx: seq<real>, dampingy: seq<real>, dampingz: seq<real>,
                             ux: array<real>, uy: array<real>, uz: array<real>)
    requires VelocityArrays(ux, uy, uz)
    requires VelocityShape(ux[..], dampingx, mass, vk, size) && VelocityShape(uy[..], dampingy, mass, vk, size)
    requires VelocityShape(uz[..], dampingz, mass, vk, size)
    modifies ux, uy, uz
    ensures ux[..] == Velocity(old(ux[..]), dampingx, mass, vk, 0, size)
    ensures uy[..] == Velocity(old(uy[..]), dampingy, mass, vk, 1, size)
    ensures uz[..] == Velocity(old(uz[..]), dampingz, mass, vk, 2, size)
  {
    DampBefore(vk.dt, dampingx, mass, ux);
    DampBefore(vk.dt, dampingy, mass, uy);
    DampBefore(vk.dt, dampingz, mass, uz);
    FlowPhase(size, vk, mass, 0, ux);
    FlowPhase(size, vk, mass, 1, uy);
    FlowPhase(size, vk, mass, 2, uz);
    DampAfter(vk.dt, dampingx, mass, ux);
    DampAfter(vk.dt, dampingy, mass, uy);
    DampAfter(vk.dt, dampingz, mass, uz);
  }
}

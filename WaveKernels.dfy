/** Rules shared by the kernels of the two elastic spectral-element wave
  * solvers (ElasticWaveEquationSEMKernel.hpp and
  * ElasticFirstOrderWaveEquationSEMKernel.hpp under
  * src/coreComponents/physicsSolvers/wavePropagation/):
  *  - a source or a receiver is registered by the first element that
  *    locates it and is never examined again;
  *  - the nodal diagonals (mass, damping, the scattered velocity update) are
  *    sums of increments added with `RAJA::atomicAdd`;
  *  - the mass kernel, which both files contain line for line.
  *
  * Each `forAll` is a sequential loop in index order and each atomic
  * addition a plain `+=` on exact reals (the arrays are `real32` in the
  * source). `AddAtOrderIndependent` shows that the order of the additions
  * does not change the result. */
module WaveKernels {
  import opened Wrappers
  import opened GlobalAssembly

  // ---------------------------------------------------------------------
  // Registration at most once
  // ---------------------------------------------------------------------

  /** The first of the elements `0 .. k-1` for which `found(e, i)` holds. */
  function FirstFound(found: (nat, nat) -> bool, k: nat, i: nat): (r: Option<nat>)
    ensures r.Some? ==> r.value < k && found(r.value, i)
  {
    if k == 0 then None
    else if FirstFound(found, k - 1, i).Some? then FirstFound(found, k - 1, i)
    else if found(k - 1, i) then Some(k - 1)
    else None
  }

  /** No element below `k` finds the target exactly when `FirstFound` is
    * `None`, and otherwise no element before the one it names finds it. */
  lemma {:induction false} FirstFoundIsLeast(found: (nat, nat) -> bool, k: nat, i: nat)
    ensures FirstFound(found, k, i).None? <==> forall e: nat :: e < k ==> !found(e, i)
    ensures FirstFound(found, k, i).Some? ==> forall e: nat :: e < FirstFound(found, k, i).value ==> !found(e, i)
  {
    if k > 0 {
      FirstFoundIsLeast(found, k - 1, i);
    }
  }

  /** Once an element has registered the target, later elements leave it with
    * that element. */
  lemma {:induction false} FirstFoundIsStable(found: (nat, nat) -> bool, k: nat, k': nat, i: nat)
    requires k <= k' && FirstFound(found, k, i).Some?
    ensures FirstFound(found, k', i) == FirstFound(found, k, i)
    decreases k' - k
  {
    if k < k' {
      FirstFoundIsStable(found, k, k' - 1, i);
    }
  }

  /** The element that registers target `i` during a sweep over elements
    * `0 .. k-1`. A target whose flag was already nonzero is never examined
    * and so is never registered; otherwise it is the first element that
    * locates it. */
  function Registration(flag0: int, found: (nat, nat) -> bool, k: nat, i: nat): Option<nat> {
    if flag0 == 0 then FirstFound(found, k, i) else None
  }

  /** What a registration means, in both directions: element `e` registers
    * the target exactly when its flag was 0, `e` locates it and no earlier
    * element does; and nothing registers it exactly when its flag was
    * nonzero or no element locates it. */
  lemma RegistrationMeaning(flag0: int, found: (nat, nat) -> bool, k: nat, i: nat, e: nat)
    ensures Registration(flag0, found, k, i) == Some(e) <==>
              flag0 == 0 && e < k && found(e, i) && forall e': nat :: e' < e ==> !found(e', i)
    ensures Registration(flag0, found, k, i).None? <==>
              flag0 != 0 || forall e': nat :: e' < k ==> !found(e', i)
  {
    FirstFoundIsLeast(found, k, i);
    if flag0 == 0 && e < k && found(e, i) && forall e': nat :: e' < e ==> !found(e', i) {
      var r := FirstFound(found, k, i);
      assert r.Some?;
      assert !(r.value < e);
      assert !(r.value > e);
    }
  }

  /** `s` with entry `i` set to `v` when `i` is an index of `s`. */
  function Put<T>(s: seq<T>, i: nat, v: T): (r: seq<T>)
    ensures |r| == |s|
  {
    if i < |s| then s[i := v] else s
  }

  /** Entry `i` of `s`, or 0 past its end. */
  function Entry(s: seq<real>, i: nat): real {
    if i < |s| then s[i] else 0.0
  }

  /** The loop over cycles: column `i` of `sourceValue` becomes the wavelet
    * at each cycle's time. */
  method SourceValues(ricker: real -> real, dt: real, i: nat, value: array<seq<real>>)
    requires forall c :: 0 <= c < value.Length ==> i < |value[c]|
    modifies value
    ensures forall c :: 0 <= c < value.Length ==> i < |old(value[c])| && value[c] == old(value[c])[i := CycleValue(ricker, dt, c)]
  {
    for cycle := 0 to value.Length
      invariant forall c :: 0 <= c < value.Length ==> i < |old(value[c])|
      invariant forall c :: 0 <= c < value.Length ==>
                  value[c] == if c < cycle then old(value[c])[i := CycleValue(ricker, dt, c)] else old(value[c])
    {
      value[cycle] := value[cycle][i := CycleValue(ricker, dt, cycle)];
    }
  }

  /** The value of the source wavelet at the start of cycle `c`. */
  function CycleValue(ricker: real -> real, dt: real, c: nat): real {
    ricker((c as real) * dt)
  }

  // ---------------------------------------------------------------------
  // Nodal accumulation
  // ---------------------------------------------------------------------

  /** Each pair is (node, increment); its node indexes `size` nodes. */
  predicate InBounds(pairs: seq<(int, real)>, size: nat) {
    forall j :: 0 <= j < |pairs| ==> 0 <= pairs[j].0 < size
  }

  /** `t` after `t[node] += increment` for each pair, in order. */
  function AddAt(t: seq<real>, pairs: seq<(int, real)>): (r: seq<real>)
    requires InBounds(pairs, |t|)
    ensures |r| == |t|
    decreases |pairs|
  {
    if |pairs| == 0 then t
    else
      var s := AddAt(t, pairs[..|pairs| - 1]);
      var p := pairs[|pairs| - 1];
      s[p.0 := s[p.0] + p.1]
  }

  /** The sum of the increments aimed at node `i`. */
  function Contribution(i: int, pairs: seq<(int, real)>): real
    decreases |pairs|
  {
    if |pairs| == 0 then 0.0
    else
      var p := pairs[|pairs| - 1];
      Contribution(i, pairs[..|pairs| - 1]) + (if p.0 == i then p.1 else 0.0)
  }

  /** Every node ends with its initial value plus the sum of the increments
    * aimed at it. */
  lemma {:induction false} AddAtTotals(t: seq<real>, pairs: seq<(int, real)>)
    requires InBounds(pairs, |t|)
    ensures forall i :: 0 <= i < |t| ==> AddAt(t, pairs)[i] == t[i] + Contribution(i, pairs)
    decreases |pairs|
  {
    if |pairs| > 0 {
      AddAtTotals(t, pairs[..|pairs| - 1]);
    }
  }

  /** One more pair adds its increment at its node. */
  lemma AddAtSnoc(t: seq<real>, pairs: seq<(int, real)>, p: (int, real))
    requires InBounds(pairs, |t|) && 0 <= p.0 < |t|
    ensures InBounds(pairs + [p], |t|)
    ensures AddAt(t, pairs + [p]) == AddAt(t, pairs)[p.0 := AddAt(t, pairs)[p.0] + p.1]
  {
    InBoundsAppend(pairs, [p], |t|);
    assert (pairs + [p])[..|pairs|] == pairs;
  }

  lemma InBoundsAppend(p1: seq<(int, real)>, p2: seq<(int, real)>, size: nat)
    requires InBounds(p1, size) && InBounds(p2, size)
    ensures InBounds(p1 + p2, size)
  {
    forall j | 0 <= j < |p1 + p2|
      ensures 0 <= (p1 + p2)[j].0 < size
    {
      if j < |p1| {
        assert (p1 + p2)[j] == p1[j];
      } else {
        assert (p1 + p2)[j] == p2[j - |p1|];
      }
    }
  }

  /** Adding two runs of pairs one after the other adds their concatenation. */
  lemma {:induction false} AddAtAppend(t: seq<real>, p1: seq<(int, real)>, p2: seq<(int, real)>)
    requires InBounds(p1, |t|) && InBounds(p2, |t|)
    ensures InBounds(p1 + p2, |t|)
    ensures AddAt(t, p1 + p2) == AddAt(AddAt(t, p1), p2)
    decreases |p2|
  {
    InBoundsAppend(p1, p2, |t|);
    if |p2| == 0 {
      assert p1 + p2 == p1;
    } else {
      var m := |p2| - 1;
      assert (p1 + p2)[..|p1 + p2| - 1] == p1 + p2[..m];
      AddAtAppend(t, p1, p2[..m]);
    }
  }

  /** The contribution of a concatenation is the sum of the contributions. */
  lemma {:induction false} ContributionAppend(i: int, p1: seq<(int, real)>, p2: seq<(int, real)>)
    ensures Contribution(i, p1 + p2) == Contribution(i, p1) + Contribution(i, p2)
    decreases |p2|
  {
    if |p2| == 0 {
      assert p1 + p2 == p1;
    } else {
      var m := |p2| - 1;
      assert (p1 + p2)[..|p1 + p2| - 1] == p1 + p2[..m];
      ContributionAppend(i, p1, p2[..m]);
    }
  }

  /** The order of the atomic additions does not matter: two runs of pairs
    * give the same nodal array in either order. */
  lemma AddAtOrderIndependent(t: seq<real>, p1: seq<(int, real)>, p2: seq<(int, real)>)
    requires InBounds(p1, |t|) && InBounds(p2, |t|)
    ensures InBounds(p1 + p2, |t|) && InBounds(p2 + p1, |t|)
    ensures AddAt(t, p1 + p2) == AddAt(t, p2 + p1)
  {
    InBoundsAppend(p1, p2, |t|);
    InBoundsAppend(p2, p1, |t|);
    AddAtTotals(t, p1 + p2);
    AddAtTotals(t, p2 + p1);
    forall i | 0 <= i < |t|
      ensures AddAt(t, p1 + p2)[i] == AddAt(t, p2 + p1)[i]
    {
      ContributionAppend(i, p1, p2);
      ContributionAppend(i, p2, p1);
    }
  }

  /** No pair aims at node `i`. */
  predicate Avoids(pairs: seq<(int, real)>, i: int) {
    forall j :: 0 <= j < |pairs| ==> pairs[j].0 != i
  }

  /** Every increment is non-negative. */
  predicate NonnegativePairs(pairs: seq<(int, real)>) {
    forall j :: 0 <= j < |pairs| ==> pairs[j].1 >= 0.0
  }

  /** A node no pair aims at receives nothing. */
  lemma {:induction false} ContributionOfUntouched(i: int, pairs: seq<(int, real)>)
    requires Avoids(pairs, i)
    ensures Contribution(i, pairs) == 0.0
    decreases |pairs|
  {
    if |pairs| > 0 {
      ContributionOfUntouched(i, pairs[..|pairs| - 1]);
    }
  }

  /** Non-negative increments give a non-negative contribution. */
  lemma {:induction false} ContributionNonnegative(i: int, pairs: seq<(int, real)>)
    requires NonnegativePairs(pairs)
    ensures Contribution(i, pairs) >= 0.0
    decreases |pairs|
  {
    if |pairs| > 0 {
      ContributionNonnegative(i, pairs[..|pairs| - 1]);
    }
  }

  // ---------------------------------------------------------------------
  // Absorbing-boundary damping increments
  // ---------------------------------------------------------------------

  /** A face is damped when it is on the domain boundary (flag 1) and not on the
    * free surface (flag other than 1). */
  predicate DampedFace(boundaryIndicator: int, freeSurfaceIndicator: int) {
    boundaryIndicator == 1 && freeSurfaceIndicator != 1
  }

  /** `sqrt` is the non-negative square root on non-negative reals. */
  ghost predicate IsSqrt(sqrt: real -> real) {
    forall x: real :: 0.0 <= x ==> 0.0 <= sqrt(x) && Square(sqrt(x)) == x
  }

  function Square(x: real): (r: real)
    ensures r >= 0.0
  {
    x * x
  }

  /** The sum of the squares of the two normal components other than `axis`. */
  function OffAxisSquares(normal: seq<real>, axis: nat): (r: real)
    requires 3 <= |normal| && axis < 3
    ensures r >= 0.0
  {
    if axis == 0 then Square(normal[1]) + Square(normal[2])
    else if axis == 1 then Square(normal[0]) + Square(normal[2])
    else Square(normal[0]) + Square(normal[1])
  }

  /** The damping a face node receives along `axis`: the density times the
    * impedance `Vp |n_axis| + Vs |n off the axis|` times the face term. */
  function DampingIncrement(density: real, vp: real, vs: real, normal: seq<real>, axis: nat,
                            sqrt: real -> real, dampingTerm: real): real
    requires 3 <= |normal| && axis < 3
  {
    density * (vp * Abs(normal[axis]) + vs * sqrt(OffAxisSquares(normal, axis))) * dampingTerm
  }

  /** A physical medium (non-negative density and speeds) and a non-negative
    * face term give a non-negative damping increment. */
  lemma DampingIncrementNonnegative(density: real, vp: real, vs: real, normal: seq<real>, axis: nat,
                                    sqrt: real -> real, dampingTerm: real)
    requires 3 <= |normal| && axis < 3 && IsSqrt(sqrt)
    requires density >= 0.0 && vp >= 0.0 && vs >= 0.0 && dampingTerm >= 0.0
    ensures DampingIncrement(density, vp, vs, normal, axis, sqrt, dampingTerm) >= 0.0
  {
    var t := sqrt(OffAxisSquares(normal, axis));
    assert t >= 0.0;
    ProductNonnegative(vp, Abs(normal[axis]));
    ProductNonnegative(vs, t);
    var impedance := vp * Abs(normal[axis]) + vs * t;
    ProductNonnegative(density, impedance);
    ProductNonnegative(density * impedance, dampingTerm);
  }

  /** Squaring is increasing on the non-negative reals. */
  lemma SquareIncreasing(a: real, b: real)
    requires 0.0 <= a < b
    ensures Square(a) < Square(b)
  {
    ProductNonnegative(a, b - a);
    assert a * (b - a) == a * b - a * a;
    ProductPositive(b - a, b);
    assert (b - a) * b == b * b - a * b;
  }

  /** A square root in the sense of `IsSqrt` maps 0 to 0 and 1 to 1. */
  lemma SqrtOfZeroAndOne(sqrt: real -> real)
    requires IsSqrt(sqrt)
    ensures sqrt(0.0) == 0.0 && sqrt(1.0) == 1.0
  {
    var z, o := sqrt(0.0), sqrt(1.0);
    assert Square(0.0) == 0.0 && Square(1.0) == 1.0;
    if z > 0.0 {
      SquareIncreasing(0.0, z);
    }
    if o < 1.0 {
      SquareIncreasing(o, 1.0);
    } else if o > 1.0 {
      SquareIncreasing(1.0, o);
    }
  }

  lemma ProductPositive(a: real, b: real)
    requires a > 0.0 && b > 0.0
    ensures a * b > 0.0
  {
  }

  /** A face whose normal is a coordinate axis (up to sign) is damped by
    * `density * Vp * term` along that axis, the P-wave impedance, and by
    * `density * Vs * term` along the two other axes, the S-wave impedance. */
  lemma AxisAlignedDamping(density: real, vp: real, vs: real, normal: seq<real>, normalAxis: nat,
                           sqrt: real -> real, dampingTerm: real)
    requires 3 <= |normal| && normalAxis < 3 && IsSqrt(sqrt)
    requires Abs(normal[normalAxis]) == 1.0
    requires forall b :: 0 <= b < 3 && b != normalAxis ==> normal[b] == 0.0
    ensures DampingIncrement(density, vp, vs, normal, normalAxis, sqrt, dampingTerm) == density * vp * dampingTerm
    ensures forall b :: 0 <= b < 3 && b != normalAxis ==>
              DampingIncrement(density, vp, vs, normal, b, sqrt, dampingTerm) == density * vs * dampingTerm
  {
    SqrtOfZeroAndOne(sqrt);
    var n := normal[normalAxis];
    assert Square(n) == 1.0 by {
      if n < 0.0 { assert n == -1.0; } else { assert n == 1.0; }
    }
    assert OffAxisSquares(normal, normalAxis) == 0.0;
    forall b | 0 <= b < 3 && b != normalAxis
      ensures DampingIncrement(density, vp, vs, normal, b, sqrt, dampingTerm) == density * vs * dampingTerm
    {
      assert OffAxisSquares(normal, b) == 1.0;
      assert Abs(normal[b]) == 0.0;
    }
  }

  // ---------------------------------------------------------------------
  // The face loop shared by the damping kernels
  // ---------------------------------------------------------------------

  /** The face fields the damping kernels read. */
  datatype BoundaryFaces = BoundaryFaces(facesToNodes: seq<seq<int>>, boundaryIndicator: seq<int>,
                                         freeSurfaceIndicator: seq<int>, faceNormal: seq<seq<real>>,
                                         numNodesPerFace: nat)

  /** Density and P and S wave speeds per element. */
  datatype Media = Media(density: seq<real>, vp: seq<real>, vs: seq<real>)

  /** Face `f` has both flags, and it is damped. */
  predicate IsDamped(faces: BoundaryFaces, f: int) {
    0 <= f < |faces.boundaryIndicator| && f < |faces.freeSurfaceIndicator|
    && DampedFace(faces.boundaryIndicator[f], faces.freeSurfaceIndicator[f])
  }

  /** Face `f` has a three-component normal and `numNodesPerFace` nodes. */
  predicate FaceShape(faces: BoundaryFaces, f: int) {
    0 <= f < |faces.facesToNodes| && f < |faces.faceNormal| && 3 <= |faces.faceNormal[f]|
    && faces.numNodesPerFace <= |faces.facesToNodes[f]|
  }

  /** Face `f` is shaped and its nodes index `size` nodes. */
  predicate FaceAims(faces: BoundaryFaces, f: int, size: nat) {
    FaceShape(faces, f)
    && forall q :: 0 <= q < faces.numNodesPerFace ==> 0 <= faces.facesToNodes[f][q] < size
  }

  /** Element `k` has a density and both wave speeds. */
  predicate HasMedium(media: Media, k: int) {
    0 <= k < |media.density| && k < |media.vp| && k < |media.vs|
  }

  /** Element `k` is a physical medium: non-negative density and speeds. */
  predicate PhysicalMedium(media: Media, k: int)
    requires HasMedium(media, k)
  {
    media.density[k] >= 0.0 && media.vp[k] >= 0.0 && media.vs[k] >= 0.0
  }

  /** The Lame parameters of element `k`: the shear modulus
    * `mu = density * Vs * Vs` and `lambda = density * Vp * Vp - 2 mu`. */
  function Mu(media: Media, k: int): real
    requires HasMedium(media, k)
  {
    media.density[k] * media.vs[k] * media.vs[k]
  }

  function Lambda(media: Media, k: int): real
    requires HasMedium(media, k)
  {
    media.density[k] * media.vp[k] * media.vp[k] - 2.0 * Mu(media, k)
  }

  /** `mu` is `density * Vs^2`, the S-wave modulus, and `lambda + 2 mu` is
    * `density * Vp^2`, the P-wave modulus; a non-negative density gives a
    * non-negative `mu`. */
  lemma LameMeaning(media: Media, k: int)
    requires HasMedium(media, k)
    ensures Mu(media, k) == media.density[k] * Square(media.vs[k])
    ensures Lambda(media, k) + 2.0 * Mu(media, k) == media.density[k] * Square(media.vp[k])
    ensures media.density[k] >= 0.0 ==> Mu(media, k) >= 0.0
  {
    var rho, vs := media.density[k], media.vs[k];
    assert rho * vs * vs == rho * Square(vs);
    assert media.density[k] * media.vp[k] * media.vp[k] == media.density[k] * Square(media.vp[k]);
    if rho >= 0.0 {
      ProductNonnegative(rho, Square(vs));
    }
  }

  /** The damping node `q` of face `f`, next to element `k`, receives along
    * `axis`; `dampingTerm(f, q)` is the finite element's face term. */
  function FaceIncrement(faces: BoundaryFaces, media: Media, sqrt: real -> real, dampingTerm: (nat, nat) -> real,
                         f: nat, k: int, axis: nat, q: nat): real
    requires f < |faces.faceNormal| && 3 <= |faces.faceNormal[f]| && HasMedium(media, k) && axis < 3
  {
    DampingIncrement(media.density[k], media.vp[k], media.vs[k], faces.faceNormal[f], axis, sqrt, dampingTerm(f, q))
  }

  /** The additions of the first `count` nodes of face `f` along `axis`, in
    * order. */
  function FaceNodePairs(faces: BoundaryFaces, media: Media, sqrt: real -> real, dampingTerm: (nat, nat) -> real,
                         f: nat, k: int, axis: nat, count: nat): (r: seq<(int, real)>)
    requires FaceShape(faces, f) && HasMedium(media, k) && axis < 3 && count <= faces.numNodesPerFace
    ensures |r| == count
  {
    if count == 0 then []
    else
      var q: nat := count - 1;
      FaceNodePairs(faces, media, sqrt, dampingTerm, f, k, axis, q)
      + [(faces.facesToNodes[f][q], FaceIncrement(faces, media, sqrt, dampingTerm, f, k, axis, q))]
  }

  /** The additions of face `f` along `axis`, one per face node. */
  function FacePairs(faces: BoundaryFaces, media: Media, sqrt: real -> real, dampingTerm: (nat, nat) -> real,
                     f: nat, k: int, axis: nat): seq<(int, real)>
    requires FaceShape(faces, f) && HasMedium(media, k) && axis < 3
  {
    FaceNodePairs(faces, media, sqrt, dampingTerm, f, k, axis, faces.numNodesPerFace)
  }

  /** Pair `q` of a face is its `q`-th node with that node's increment. */
  lemma {:induction false} FaceNodePairsAt(faces: BoundaryFaces, media: Media, sqrt: real -> real,
                                           dampingTerm: (nat, nat) -> real, f: nat, k: int, axis: nat, count: nat)
    requires FaceShape(faces, f) && HasMedium(media, k) && axis < 3 && count <= faces.numNodesPerFace
    ensures forall q :: 0 <= q < count ==>
              FaceNodePairs(faces, media, sqrt, dampingTerm, f, k, axis, count)[q]
              == (faces.facesToNodes[f][q], FaceIncrement(faces, media, sqrt, dampingTerm, f, k, axis, q))
  {
    if count > 0 {
      FaceNodePairsAt(faces, media, sqrt, dampingTerm, f, k, axis, count - 1);
    }
  }

  lemma FacePairsInBounds(faces: BoundaryFaces, media: Media, sqrt: real -> real, dampingTerm: (nat, nat) -> real,
                          f: nat, k: int, axis: nat, size: nat)
    requires FaceAims(faces, f, size) && HasMedium(media, k) && axis < 3
    ensures InBounds(FacePairs(faces, media, sqrt, dampingTerm, f, k, axis), size)
  {
    FaceNodePairsAt(faces, media, sqrt, dampingTerm, f, k, axis, faces.numNodesPerFace);
  }

  /** The face term is non-negative at every node of face `f`. */
  predicate NonnegativeTerm(dampingTerm: (nat, nat) -> real, f: nat, numNodesPerFace: nat) {
    forall q: nat :: q < numNodesPerFace ==> dampingTerm(f, q) >= 0.0
  }

  /** A physical medium and a non-negative face term give non-negative
    * additions. */
  lemma FacePairsNonnegative(faces: BoundaryFaces, media: Media, sqrt: real -> real, dampingTerm: (nat, nat) -> real,
                             f: nat, k: int, axis: nat)
    requires FaceShape(faces, f) && HasMedium(media, k) && axis < 3
    requires IsSqrt(sqrt) && PhysicalMedium(media, k) && NonnegativeTerm(dampingTerm, f, faces.numNodesPerFace)
    ensures NonnegativePairs(FacePairs(faces, media, sqrt, dampingTerm, f, k, axis))
  {
    var pairs := FacePairs(faces, media, sqrt, dampingTerm, f, k, axis);
    FaceNodePairsAt(faces, media, sqrt, dampingTerm, f, k, axis, faces.numNodesPerFace);
    forall j | 0 <= j < |pairs|
      ensures pairs[j].1 >= 0.0
    {
      DampingIncrementNonnegative(media.density[k], media.vp[k], media.vs[k], faces.faceNormal[f], axis, sqrt,
                                  dampingTerm(f, j));
    }
  }

  /** A node that is not a node of face `f` receives nothing from it. */
  lemma FacePairsAvoid(faces: BoundaryFaces, media: Media, sqrt: real -> real, dampingTerm: (nat, nat) -> real,
                       f: nat, k: int, axis: nat, i: int)
    requires FaceShape(faces, f) && HasMedium(media, k) && axis < 3
    requires forall q :: 0 <= q < faces.numNodesPerFace ==> faces.facesToNodes[f][q] != i
    ensures Avoids(FacePairs(faces, media, sqrt, dampingTerm, f, k, axis), i)
  {
    FaceNodePairsAt(faces, media, sqrt, dampingTerm, f, k, axis, faces.numNodesPerFace);
  }

  lemma NonnegativeAppend(p1: seq<(int, real)>, p2: seq<(int, real)>)
    requires NonnegativePairs(p1) && NonnegativePairs(p2)
    ensures NonnegativePairs(p1 + p2)
  {
    forall j | 0 <= j < |p1 + p2|
      ensures (p1 + p2)[j].1 >= 0.0
    {
      if j < |p1| {
        assert (p1 + p2)[j] == p1[j];
      } else {
        assert (p1 + p2)[j] == p2[j - |p1|];
      }
    }
  }

  lemma AvoidsAppend(p1: seq<(int, real)>, p2: seq<(int, real)>, i: int)
    requires Avoids(p1, i) && Avoids(p2, i)
    ensures Avoids(p1 + p2, i)
  {
    forall j | 0 <= j < |p1 + p2|
      ensures (p1 + p2)[j].0 != i
    {
      if j < |p1| {
        assert (p1 + p2)[j] == p1[j];
      } else {
        assert (p1 + p2)[j] == p2[j - |p1|];
      }
    }
  }

  /** The atomic addition at node `q` of face `f` along `axis`. */
  method AddFaceNode(faces: BoundaryFaces, media: Media, sqrt: real -> real, dampingTerm: (nat, nat) -> real,
                     f: nat, k: int, axis: nat, q: nat, damping: array<real>, ghost t0: seq<real>)
    requires FaceAims(faces, f, damping.Length) && |t0| == damping.Length && HasMedium(media, k)
    requires axis < 3 && q < faces.numNodesPerFace
    requires InBounds(FaceNodePairs(faces, media, sqrt, dampingTerm, f, k, axis, q), damping.Length)
    requires damping[..] == AddAt(t0, FaceNodePairs(faces, media, sqrt, dampingTerm, f, k, axis, q))
    modifies damping
    ensures InBounds(FaceNodePairs(faces, media, sqrt, dampingTerm, f, k, axis, q + 1), damping.Length)
    ensures damping[..] == AddAt(t0, FaceNodePairs(faces, media, sqrt, dampingTerm, f, k, axis, q + 1))
  {
    var localIncrement := FaceIncrement(faces, media, sqrt, dampingTerm, f, k, axis, q);
    var node := faces.facesToNodes[f][q];
    ghost var pairs := FaceNodePairs(faces, media, sqrt, dampingTerm, f, k, axis, q);
    assert FaceNodePairs(faces, media, sqrt, dampingTerm, f, k, axis, q + 1) == pairs + [(node, localIncrement)];
    AddPair(damping, t0, pairs, node, localIncrement);
  }

  /** `t[node] += increment` on an array that holds `t0` after `pairs`. */
  method AddPair(t: array<real>, ghost t0: seq<real>, ghost pairs: seq<(int, real)>, node: int, increment: real)
    requires |t0| == t.Length && InBounds(pairs, t.Length) && 0 <= node < t.Length
    requires t[..] == AddAt(t0, pairs)
    modifies t
    ensures InBounds(pairs + [(node, increment)], t.Length)
    ensures t[..] == AddAt(t0, pairs + [(node, increment)])
  {
    AddAtSnoc(t0, pairs, (node, increment));
    t[node] := t[node] + increment;
  }

  /** The three nodal damping arrays, of one length and distinct. */
  predicate DampingArrays(dampingx: array<real>, dampingy: array<real>, dampingz: array<real>) {
    dampingx != dampingy && dampingy != dampingz && dampingx != dampingz
    && dampingy.Length == dampingx.Length && dampingz.Length == dampingx.Length
  }

  /** The node loop of one damped face: each face node receives the three
    * damping increments of element `k`. */
  method AddFaceDamping(faces: BoundaryFaces, media: Media, sqrt: real -> real, dampingTerm: (nat, nat) -> real,
                        f: nat, k: int, dampingx: array<real>, dampingy: array<real>, dampingz: array<real>)
    requires DampingArrays(dampingx, dampingy, dampingz)
    requires FaceAims(faces, f, dampingx.Length) && HasMedium(media, k)
    modifies dampingx, dampingy, dampingz
    ensures InBounds(FacePairs(faces, media, sqrt, dampingTerm, f, k, 0), dampingx.Length)
    ensures InBounds(FacePairs(faces, media, sqrt, dampingTerm, f, k, 1), dampingx.Length)
    ensures InBounds(FacePairs(faces, media, sqrt, dampingTerm, f, k, 2), dampingx.Length)
    ensures dampingx[..] == AddAt(old(dampingx[..]), FacePairs(faces, media, sqrt, dampingTerm, f, k, 0))
    ensures dampingy[..] == AddAt(old(dampingy[..]), FacePairs(faces, media, sqrt, dampingTerm, f, k, 1))
    ensures dampingz[..] == AddAt(old(dampingz[..]), FacePairs(faces, media, sqrt, dampingTerm, f, k, 2))
  {
    ghost var x0, y0, z0 := dampingx[..], dampingy[..], dampingz[..];
    FacePairsInBounds(faces, media, sqrt, dampingTerm, f, k, 0, dampingx.Length);
    FacePairsInBounds(faces, media, sqrt, dampingTerm, f, k, 1, dampingx.Length);
    FacePairsInBounds(faces, media, sqrt, dampingTerm, f, k, 2, dampingx.Length);
    ghost var n := dampingx.Length;
    for q := 0 to faces.numNodesPerFace
      invariant InBounds(FaceNodePairs(faces, media, sqrt, dampingTerm, f, k, 0, q), n)
      invariant InBounds(FaceNodePairs(faces, media, sqrt, dampingTerm, f, k, 1, q), n)
      invariant InBounds(FaceNodePairs(faces, media, sqrt, dampingTerm, f, k, 2, q), n)
      invariant dampingx[..] == AddAt(x0, FaceNodePairs(faces, media, sqrt, dampingTerm, f, k, 0, q))
      invariant dampingy[..] == AddAt(y0, FaceNodePairs(faces, media, sqrt, dampingTerm, f, k, 1, q))
      invariant dampingz[..] == AddAt(z0, FaceNodePairs(faces, media, sqrt, dampingTerm, f, k, 2, q))
    {
      AddFaceNode(faces, media, sqrt, dampingTerm, f, k, 0, q, dampingx, x0);
      AddFaceNode(faces, media, sqrt, dampingTerm, f, k, 1, q, dampingy, y0);
      AddFaceNode(faces, media, sqrt, dampingTerm, f, k, 2, q, dampingz, z0);
    }
  }

  // ---------------------------------------------------------------------
  // MassMatrixKernel::launch
  // ---------------------------------------------------------------------

  /** The first `width` nodes of each of the first `count` elements index
    * `size` nodes. */
  predicate Aims(elemsToNodes: seq<seq<int>>, count: nat, width: nat, size: nat) {
    count <= |elemsToNodes|
    && forall k :: 0 <= k < count ==>
         width <= |elemsToNodes[k]| && forall a :: 0 <= a < width ==> 0 <= elemsToNodes[k][a] < size
  }

  /** What quadrature point `q` of element `k` adds to the mass of its node. */
  function MassIncrement(density: seq<real>, massTerm: (nat, nat) -> real, k: nat, q: nat): real
    requires k < |density|
  {
    density[k] * massTerm(k, q)
  }

  /** The additions of element `k`: at its `q`-th node, for `q` below
    * `numQ`, its density times the mass term of quadrature point `q`. */
  function MassElementPairs(elemsToNodes: seq<seq<int>>, density: seq<real>, massTerm: (nat, nat) -> real,
                            numQ: nat, k: nat): seq<(int, real)>
    requires k < |elemsToNodes| && k < |density| && numQ <= |elemsToNodes[k]|
  {
    seq(numQ, q requires 0 <= q < numQ => (elemsToNodes[k][q], MassIncrement(density, massTerm, k, q)))
  }

  /** The additions of elements `0 .. k-1`, in loop order. */
  function MassPairs(elemsToNodes: seq<seq<int>>, density: seq<real>, massTerm: (nat, nat) -> real,
                     numQ: nat, size: nat, k: nat): (r: seq<(int, real)>)
    requires Aims(elemsToNodes, k, numQ, size) && k <= |density|
    ensures InBounds(r, size)
  {
    if k == 0 then []
    else
      var p, e := MassPairs(elemsToNodes, density, massTerm, numQ, size, k - 1),
                  MassElementPairs(elemsToNodes, density, massTerm, numQ, k - 1);
      InBoundsAppend(p, e, size);
      p + e
  }

  /** The mass element `k` gives node `i` from its quadrature points
    * `0 .. q-1`. */
  function ElementMass(i: int, elemsToNodes: seq<seq<int>>, density: seq<real>, massTerm: (nat, nat) -> real,
                       k: nat, q: nat): real
    requires k < |elemsToNodes| && k < |density| && q <= |elemsToNodes[k]|
  {
    if q == 0 then 0.0
    else
      ElementMass(i, elemsToNodes, density, massTerm, k, q - 1)
      + (if elemsToNodes[k][q - 1] == i then MassIncrement(density, massTerm, k, q - 1) else 0.0)
  }

  /** The mass node `i` receives from elements `0 .. k-1`. */
  function NodeMass(i: int, elemsToNodes: seq<seq<int>>, density: seq<real>, massTerm: (nat, nat) -> real,
                    numQ: nat, k: nat): real
    requires k <= |elemsToNodes| && k <= |density| && forall e :: 0 <= e < k ==> numQ <= |elemsToNodes[e]|
  {
    if k == 0 then 0.0
    else NodeMass(i, elemsToNodes, density, massTerm, numQ, k - 1) + ElementMass(i, elemsToNodes, density, massTerm, k - 1, numQ)
  }

  lemma {:induction false} ElementMassIsContribution(i: int, elemsToNodes: seq<seq<int>>, density: seq<real>,
                                                     massTerm: (nat, nat) -> real, k: nat, q: nat)
    requires k < |elemsToNodes| && k < |density| && q <= |elemsToNodes[k]|
    ensures Contribution(i, MassElementPairs(elemsToNodes, density, massTerm, q, k))
            == ElementMass(i, elemsToNodes, density, massTerm, k, q)
  {
    if q > 0 {
      var pairs := MassElementPairs(elemsToNodes, density, massTerm, q, k);
      assert pairs[..q - 1] == MassElementPairs(elemsToNodes, density, massTerm, q - 1, k);
      assert pairs[q - 1] == (elemsToNodes[k][q - 1], MassIncrement(density, massTerm, k, q - 1));
      ElementMassIsContribution(i, elemsToNodes, density, massTerm, k, q - 1);
    }
  }

  lemma {:induction false} NodeMassIsContribution(i: int, elemsToNodes: seq<seq<int>>, density: seq<real>,
                                                  massTerm: (nat, nat) -> real, numQ: nat, size: nat, k: nat)
    requires Aims(elemsToNodes, k, numQ, size) && k <= |density|
    ensures Contribution(i, MassPairs(elemsToNodes, density, massTerm, numQ, size, k))
            == NodeMass(i, elemsToNodes, density, massTerm, numQ, k)
  {
    if k > 0 {
      var before := MassPairs(elemsToNodes, density, massTerm, numQ, size, k - 1);
      var added := MassElementPairs(elemsToNodes, density, massTerm, numQ, k - 1);
      assert MassPairs(elemsToNodes, density, massTerm, numQ, size, k) == before + added;
      NodeMassIsContribution(i, elemsToNodes, density, massTerm, numQ, size, k - 1);
      ContributionAppend(i, before, added);
      ElementMassIsContribution(i, elemsToNodes, density, massTerm, k - 1, numQ);
    }
  }

  /** The mass kernel's result: each node ends with its initial mass plus
    * `density[k] * massTerm(k, q)` summed over every element `k` and
    * quadrature point `q` mapped to that node. */
  lemma MassLaunchTotals(mass: seq<real>, elemsToNodes: seq<seq<int>>, density: seq<real>,
                         massTerm: (nat, nat) -> real, numQ: nat, size: nat)
    requires Aims(elemsToNodes, size, numQ, |mass|) && size <= |density|
    ensures var r := AddAt(mass, MassPairs(elemsToNodes, density, massTerm, numQ, |mass|, size));
      forall i :: 0 <= i < |mass| ==> r[i] == mass[i] + NodeMass(i, elemsToNodes, density, massTerm, numQ, size)
  {
    var pairs := MassPairs(elemsToNodes, density, massTerm, numQ, |mass|, size);
    AddAtTotals(mass, pairs);
    forall i | 0 <= i < |mass|
      ensures AddAt(mass, pairs)[i] == mass[i] + NodeMass(i, elemsToNodes, density, massTerm, numQ, size)
    {
      NodeMassIsContribution(i, elemsToNodes, density, massTerm, numQ, |mass|, size);
    }
  }

  /** Densities and mass terms that are all non-negative. */
  predicate NonnegativeMassTerms(density: seq<real>, massTerm: (nat, nat) -> real, numQ: nat, k: nat)
    requires k <= |density|
  {
    (forall e :: 0 <= e < k ==> density[e] >= 0.0)
    && forall e: nat, q: nat :: e < k && q < numQ ==> massTerm(e, q) >= 0.0
  }

  /** With non-negative densities and mass terms no node's mass decreases. */
  lemma MassNeverDecreases(mass: seq<real>, elemsToNodes: seq<seq<int>>, density: seq<real>,
                           massTerm: (nat, nat) -> real, numQ: nat, size: nat)
    requires Aims(elemsToNodes, size, numQ, |mass|) && size <= |density|
    requires NonnegativeMassTerms(density, massTerm, numQ, size)
    ensures var r := AddAt(mass, MassPairs(elemsToNodes, density, massTerm, numQ, |mass|, size));
      forall i :: 0 <= i < |mass| ==> r[i] >= mass[i]
  {
    var pairs := MassPairs(elemsToNodes, density, massTerm, numQ, |mass|, size);
    AddAtTotals(mass, pairs);
    MassPairsNonnegative(elemsToNodes, density, massTerm, numQ, |mass|, size);
    forall i | 0 <= i < |mass|
      ensures AddAt(mass, pairs)[i] >= mass[i]
    {
      ContributionNonnegative(i, pairs);
    }
  }

  /** A node that no quadrature point of the launched elements sits on keeps
    * its mass. */
  lemma MassOfUnmappedNode(mass: seq<real>, elemsToNodes: seq<seq<int>>, density: seq<real>,
                           massTerm: (nat, nat) -> real, numQ: nat, size: nat, i: int)
    requires Aims(elemsToNodes, size, numQ, |mass|) && size <= |density| && 0 <= i < |mass|
    requires forall k, q :: 0 <= k < size && 0 <= q < numQ ==> elemsToNodes[k][q] != i
    ensures AddAt(mass, MassPairs(elemsToNodes, density, massTerm, numQ, |mass|, size))[i] == mass[i]
  {
    var pairs := MassPairs(elemsToNodes, density, massTerm, numQ, |mass|, size);
    AddAtTotals(mass, pairs);
    MassPairsAim(elemsToNodes, density, massTerm, numQ, |mass|, size, i);
    ContributionOfUntouched(i, pairs);
  }

  lemma {:induction false} MassPairsNonnegative(elemsToNodes: seq<seq<int>>, density: seq<real>,
                                                massTerm: (nat, nat) -> real, numQ: nat, size: nat, k: nat)
    requires Aims(elemsToNodes, k, numQ, size) && k <= |density|
    requires NonnegativeMassTerms(density, massTerm, numQ, k)
    ensures NonnegativePairs(MassPairs(elemsToNodes, density, massTerm, numQ, size, k))
  {
    if k > 0 {
      MassPairsNonnegative(elemsToNodes, density, massTerm, numQ, size, k - 1);
      var before: seq<(int, real)> := MassPairs(elemsToNodes, density, massTerm, numQ, size, k - 1);
      var added: seq<(int, real)> := MassElementPairs(elemsToNodes, density, massTerm, numQ, k - 1);
      forall j | 0 <= j < |before + added|
        ensures (before + added)[j].1 >= 0.0
      {
        if j < |before| {
          assert (before + added)[j] == before[j];
        } else {
          assert (before + added)[j] == added[j - |before|];
          ProductNonnegative(density[k - 1], massTerm(k - 1, j - |before|));
          assert added[j - |before|].1 == MassIncrement(density, massTerm, k - 1, j - |before|);
        }
      }
    }
  }

  lemma {:induction false} MassPairsAim(elemsToNodes: seq<seq<int>>, density: seq<real>,
                                        massTerm: (nat, nat) -> real, numQ: nat, size: nat, k: nat, i: int)
    requires Aims(elemsToNodes, k, numQ, size) && k <= |density|
    requires forall e, q :: 0 <= e < k && 0 <= q < numQ ==> elemsToNodes[e][q] != i
    ensures Avoids(MassPairs(elemsToNodes, density, massTerm, numQ, size, k), i)
  {
    if k > 0 {
      MassPairsAim(elemsToNodes, density, massTerm, numQ, size, k - 1, i);
      var before: seq<(int, real)> := MassPairs(elemsToNodes, density, massTerm, numQ, size, k - 1);
      var added: seq<(int, real)> := MassElementPairs(elemsToNodes, density, massTerm, numQ, k - 1);
      forall j | 0 <= j < |before + added|
        ensures (before + added)[j].0 != i
      {
        if j < |before| {
          assert (before + added)[j] == before[j];
        } else {
          assert (before + added)[j] == added[j - |before|];
        }
      }
    }
  }

  lemma ProductNonnegative(a: real, b: real)
    requires a >= 0.0 && b >= 0.0
    ensures a * b >= 0.0
  {
  }

  /** `MassMatrixKernel::launch`: for each element and each of its quadrature
    * points, add the element's density times the mass term to the mass of
    * the node the point sits on. */
  method MassMatrixLaunch(size: nat, elemsToNodes: seq<seq<int>>, numQuadraturePointsPerElem: nat,
                          density: seq<real>, massTerm: (nat, nat) -> real, mass: array<real>)
    requires Aims(elemsToNodes, size, numQuadraturePointsPerElem, mass.Length) && size <= |density|
    modifies mass
    ensures mass[..] == AddAt(old(mass[..]), MassPairs(elemsToNodes, density, massTerm, numQuadraturePointsPerElem,
                                                       mass.Length, size))
  {
    ghost var mass0 := mass[..];
    for k := 0 to size
      invariant mass[..] == AddAt(mass0, MassPairs(elemsToNodes, density, massTerm, numQuadraturePointsPerElem,
                                                   mass.Length, k))
    {
      AddElementMass(k, elemsToNodes, numQuadraturePointsPerElem, density, massTerm, mass);
      MassPairsStep(mass0, elemsToNodes, density, massTerm, numQuadraturePointsPerElem, k);
    }
  }

  lemma MassPairsStep(mass: seq<real>, elemsToNodes: seq<seq<int>>, density: seq<real>,
                      massTerm: (nat, nat) -> real, numQ: nat, k: nat)
    requires Aims(elemsToNodes, k + 1, numQ, |mass|) && k < |density|
    ensures InBounds(MassElementPairs(elemsToNodes, density, massTerm, numQ, k), |mass|)
    ensures AddAt(mass, MassPairs(elemsToNodes, density, massTerm, numQ, |mass|, k + 1))
            == AddAt(AddAt(mass, MassPairs(elemsToNodes, density, massTerm, numQ, |mass|, k)),
                     MassElementPairs(elemsToNodes, density, massTerm, numQ, k))
  {
    var before := MassPairs(elemsToNodes, density, massTerm, numQ, |mass|, k);
    var added := MassElementPairs(elemsToNodes, density, massTerm, numQ, k);
    assert MassPairs(elemsToNodes, density, massTerm, numQ, |mass|, k + 1) == before + added;
    AddAtAppend(mass, before, added);
  }

  /** The quadrature-point loop of one element of the mass kernel. */
  method AddElementMass(k: nat, elemsToNodes: seq<seq<int>>, numQuadraturePointsPerElem: nat,
                        density: seq<real>, massTerm: (nat, nat) -> real, mass: array<real>)
    requires k < |elemsToNodes| && k < |density| && numQuadraturePointsPerElem <= |elemsToNodes[k]|
    requires forall a :: 0 <= a < numQuadraturePointsPerElem ==> 0 <= elemsToNodes[k][a] < mass.Length
    modifies mass
    ensures InBounds(MassElementPairs(elemsToNodes, density, massTerm, numQuadraturePointsPerElem, k), mass.Length)
    ensures mass[..] == AddAt(old(mass[..]), MassElementPairs(elemsToNodes, density, massTerm, numQuadraturePointsPerElem, k))
  {
    ghost var before := mass[..];
    ghost var pairs := MassElementPairs(elemsToNodes, density, massTerm, numQuadraturePointsPerElem, k);
    assert InBounds(pairs, mass.Length);
    for q := 0 to numQuadraturePointsPerElem
      invariant mass[..] == AddAt(before, pairs[..q])
    {
      var localIncrement := density[k] * massTerm(k, q);
      var node := elemsToNodes[k][q];
      assert pairs[..q + 1][..q] == pairs[..q];
      assert localIncrement == MassIncrement(density, massTerm, k, q);
      assert pairs[q] == (node, localIncrement);
      mass[node] := mass[node] + localIncrement;
    }
    assert pairs[..numQuadraturePointsPerElem] == pairs;
  }
}

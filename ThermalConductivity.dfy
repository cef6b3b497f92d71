/** Input checks and allocation of the volume-weighted multiphase thermal
  * conductivity model
  * (src/coreComponents/constitutive/thermalConductivity/MultiPhaseVolumeWeightedThermalConductivity.cpp). */
module ThermalConductivity {
  import opened Wrappers

  /** The `InputError`s `postProcessInput` can throw. */
  datatype InputError = RockComponentNotPositive | PhaseConductivityNotPositive(phase: nat)

  /** The quadrature-point count `allocateConstitutiveData` allocates: the
    * requested count, capped by the base class maximum. */
  function NumQuadraturePoints(maxNumQuadraturePoints: int, requested: int): (n: int)
    ensures n <= maxNumQuadraturePoints && n <= requested
    ensures n == maxNumQuadraturePoints || n == requested
  {
    if requested < maxNumQuadraturePoints then requested else maxNumQuadraturePoints
  }

  /** The first phase of `phases[from..]` whose conductivity is not strictly
    * positive, if any (the loop of `postProcessInput` throws at the first). */
  function FirstNonPositivePhase(phase: seq<real>, from: nat): (r: Option<nat>)
    requires from <= |phase|
    ensures r.None? <==> forall ip :: from <= ip < |phase| ==> phase[ip] > 0.0
    ensures r.Some? ==> from <= r.value < |phase| && phase[r.value] <= 0.0
                        && forall ip :: from <= ip < r.value ==> phase[ip] > 0.0
    decreases |phase| - from
  {
    if from == |phase| then None
    else if phase[from] <= 0.0 then Some(from)
    else FirstNonPositivePhase(phase, from + 1)
  }

  /** `postProcessInput`: the rock tensor components are checked first, then
    * the conductivity of each fluid phase. */
  function PostProcessInput(rockComponents: seq<real>, phaseConductivity: seq<real>, numFluidPhases: nat): (r: Option<InputError>)
    requires |rockComponents| == 3 && numFluidPhases <= |phaseConductivity|
    ensures r.None? <==> (forall c :: 0 <= c < 3 ==> rockComponents[c] > 0.0)
                         && (forall ip :: 0 <= ip < numFluidPhases ==> phaseConductivity[ip] > 0.0)
    ensures r == Some(RockComponentNotPositive) <==> exists c :: 0 <= c < 3 && rockComponents[c] <= 0.0
    ensures r.Some? && r.value.PhaseConductivityNotPositive? ==>
              r.value.phase < numFluidPhases && phaseConductivity[r.value.phase] <= 0.0
  {
    if rockComponents[0] <= 0.0 || rockComponents[1] <= 0.0 || rockComponents[2] <= 0.0 then
      Some(RockComponentNotPositive)
    else
      match FirstNonPositivePhase(phaseConductivity[..numFluidPhases], 0)
      case None => None
      case Some(ip) => Some(PhaseConductivityNotPositive(ip))
  }

  class MultiPhaseVolumeWeightedThermalConductivity {
    /** The xx, yy and zz components given as input. */
    var rockThermalConductivityComponents: seq<real>
    /** The per-element, per-quadrature-point diagonal tensor. */
    var rockThermalConductivity: array3<real>

    ghost predicate Valid()
      reads this
    {
      |rockThermalConductivityComponents| == 3 && rockThermalConductivity.Length2 == 3
    }

    /** Every entry of the allocated tensor holds the input component of its
      * direction. */
    ghost predicate FilledWithComponents()
      reads this, rockThermalConductivity
      requires Valid()
    {
      forall ei, q, c :: 0 <= ei < rockThermalConductivity.Length0 && 0 <= q < rockThermalConductivity.Length1 && 0 <= c < 3 ==>
        rockThermalConductivity[ei, q, c] == rockThermalConductivityComponents[c]
    }

    constructor (components: seq<real>)
      requires |components| == 3
      ensures Valid() && rockThermalConductivityComponents == components
      ensures rockThermalConductivity.Length0 == 0
    {
      rockThermalConductivityComponents := components;
      rockThermalConductivity := new real[0, 0, 3];
    }

    /** `allocateConstitutiveData` for a parent of `numElems` elements: resize
      * to (numElems, nq, 3) and copy the three components everywhere. */
    method AllocateConstitutiveData(maxNumQuadraturePoints: int, numElems: nat, numConstitutivePointsPerParentIndex: int)
      requires Valid()
      requires 0 <= maxNumQuadraturePoints && 0 <= numConstitutivePointsPerParentIndex
      modifies this`rockThermalConductivity
      ensures Valid() && fresh(rockThermalConductivity)
      ensures rockThermalConductivityComponents == old(rockThermalConductivityComponents)
      ensures rockThermalConductivity.Length0 == numElems
      ensures rockThermalConductivity.Length1 == NumQuadraturePoints(maxNumQuadraturePoints, numConstitutivePointsPerParentIndex)
      ensures FilledWithComponents()
    {
      var nq := NumQuadraturePoints(maxNumQuadraturePoints, numConstitutivePointsPerParentIndex);
      var a := new real[numElems, nq, 3];
      var comps := rockThermalConductivityComponents;
      var ei := 0;
      while ei < numElems
        invariant 0 <= ei <= numElems
        invariant forall e, q, c :: 0 <= e < ei && 0 <= q < nq && 0 <= c < 3 ==> a[e, q, c] == comps[c]
      {
        var q := 0;
        while q < nq
          invariant 0 <= q <= nq
          invariant forall e, q', c :: 0 <= e < ei && 0 <= q' < nq && 0 <= c < 3 ==> a[e, q', c] == comps[c]
          invariant forall q', c :: 0 <= q' < q && 0 <= c < 3 ==> a[ei, q', c] == comps[c]
        {
          a[ei, q, 0] := comps[0];
          a[ei, q, 1] := comps[1];
          a[ei, q, 2] := comps[2];
          q := q + 1;
        }
        ei := ei + 1;
      }
      rockThermalConductivity := a;
    }
  }

  /** `saveConvergedRockFluidState`: the kernel wrapper's `update` (not part of
    * this model, so a parameter) is applied at every element and quadrature
    * point to the converged porosity and phase volume fractions; the result
    * of each call is collected. */
  method SaveConvergedRockFluidState<R>(update: (nat, nat, real, seq<real>) -> R,
                                        numGauss: nat,
                                        convergedPorosity: seq<seq<real>>,
                                        convergedPhaseVolumeFraction: seq<seq<real>>)
    returns (updated: seq<seq<R>>)
    requires |convergedPhaseVolumeFraction| == |convergedPorosity|
    requires forall k :: 0 <= k < |convergedPorosity| ==> |convergedPorosity[k]| >= numGauss
    ensures |updated| == |convergedPorosity|
    ensures forall k :: 0 <= k < |updated| ==> |updated[k]| == numGauss
    ensures forall k, q :: 0 <= k < |updated| && 0 <= q < numGauss ==>
              updated[k][q] == update(k, q, convergedPorosity[k][q], convergedPhaseVolumeFraction[k])
  {
    updated := [];
    var k := 0;
    while k < |convergedPorosity|
      invariant 0 <= k <= |convergedPorosity| && |updated| == k
      invariant forall k' :: 0 <= k' < k ==> |updated[k']| == numGauss
      invariant forall k', q :: 0 <= k' < k && 0 <= q < numGauss ==>
                  updated[k'][q] == update(k', q, convergedPorosity[k'][q], convergedPhaseVolumeFraction[k'])
    {
      var row := [];
      var q := 0;
      while q < numGauss
        invariant 0 <= q <= numGauss && |row| == q
        invariant forall q' :: 0 <= q' < q ==> row[q'] == update(k, q', convergedPorosity[k][q'], convergedPhaseVolumeFraction[k])
      {
        row := row + [update(k, q, convergedPorosity[k][q], convergedPhaseVolumeFraction[k])];
        q := q + 1;
      }
      updated := updated + [row];
      k := k + 1;
    }
  }

  /** `initializeRockFluidState` is `saveConvergedRockFluidState` applied to
    * the initial fields. */
  method InitializeRockFluidState<R>(update: (nat, nat, real, seq<real>) -> R,
                                     numGauss: nat,
                                     initialPorosity: seq<seq<real>>,
                                     initialPhaseVolumeFraction: seq<seq<real>>)
    returns (updated: seq<seq<R>>)
    requires |initialPhaseVolumeFraction| == |initialPorosity|
    requires forall k :: 0 <= k < |initialPorosity| ==> |initialPorosity[k]| >= numGauss
    ensures |updated| == |initialPorosity|
    ensures forall k, q :: 0 <= k < |updated| && 0 <= q < numGauss ==>
              |updated[k]| == numGauss && updated[k][q] == update(k, q, initialPorosity[k][q], initialPhaseVolumeFraction[k])
  {
    updated := SaveConvergedRockFluidState(update, numGauss, initialPorosity, initialPhaseVolumeFraction);
  }
}

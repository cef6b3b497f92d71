/** Input check and allocation of the linear isotropic dispersion model
  * (src/coreComponents/constitutive/dispersion/LinearIsotropicDispersion.cpp). */
module LinearIsotropicDispersion {

  /** `postProcessInput` throws `InputError` exactly when the longitudinal
    * dispersivity is negative; zero is accepted. */
  function PostProcessInputRejects(longitudinalDispersivity: real): (rejected: bool)
    ensures rejected <==> longitudinalDispersivity < 0.0
    ensures longitudinalDispersivity == 0.0 ==> !rejected
  {
    longitudinalDispersivity < 0.0
  }

  class LinearIsotropicDispersion {
    var longitudinalDispersivity: real
    /** (element, quadrature point, direction). The base class fixes one
      * quadrature point and three directions. */
    var dispersivity: array3<real>
    /** (element, quadrature point, phase). */
    var phaseVelocityNorm: array3<real>

    constructor (longitudinal: real)
      ensures longitudinalDispersivity == longitudinal
      ensures dispersivity.Length0 == 0 && dispersivity.Length1 == 0 && dispersivity.Length2 == 3
    {
      longitudinalDispersivity := longitudinal;
      dispersivity := new real[0, 0, 3];
      phaseVelocityNorm := new real[0, 0, 0];
    }

    /** The dispersivity array holds the longitudinal value in every direction
      * at quadrature index 0 of every element. */
    ghost predicate Isotropic()
      reads this, dispersivity
    {
      dispersivity.Length1 >= 1 &&
      forall ei, d :: 0 <= ei < dispersivity.Length0 && 0 <= d < 3 && d < dispersivity.Length2 ==>
        dispersivity[ei, 0, d] == longitudinalDispersivity
    }

    /** `allocateConstitutiveData` for a parent of `numElems` elements and a
      * fluid with `numFluidPhases` phases: the base resize to
      * (numElems, 1, 3), the resize of the phase velocity norm to
      * (numElems, 1, numFluidPhases), then the fill. The innermost loop runs
      * once per direction of the array and writes the same three values each
      * time. */
    method AllocateConstitutiveData(numElems: nat, numFluidPhases: nat)
      modifies this`dispersivity, this`phaseVelocityNorm
      ensures fresh(dispersivity) && fresh(phaseVelocityNorm)
      ensures dispersivity.Length0 == numElems && dispersivity.Length1 == 1 && dispersivity.Length2 == 3
      ensures phaseVelocityNorm.Length0 == numElems && phaseVelocityNorm.Length1 == 1
      ensures phaseVelocityNorm.Length2 == numFluidPhases
      ensures Isotropic()
    {
      var disp := new real[numElems, 1, 3];
      var velocityNorm := new real[numElems, 1, numFluidPhases];
      var value := longitudinalDispersivity;
      var ei := 0;
      while ei < numElems
        invariant 0 <= ei <= numElems
        invariant forall e, d :: 0 <= e < ei && 0 <= d < 3 ==> disp[e, 0, d] == value
      {
        var q := 0;
        while q < 1
          invariant 0 <= q <= 1
          invariant forall e, d :: 0 <= e < ei && 0 <= d < 3 ==> disp[e, 0, d] == value
          invariant q == 1 ==> forall d :: 0 <= d < 3 ==> disp[ei, 0, d] == value
        {
          var ip := 0;
          while ip < disp.Length2
            invariant 0 <= ip <= disp.Length2
            invariant forall e, d :: 0 <= e < ei && 0 <= d < 3 ==> disp[e, 0, d] == value
            invariant ip > 0 ==> forall d :: 0 <= d < 3 ==> disp[ei, q, d] == value
          {
            disp[ei, q, 0] := value;
            disp[ei, q, 1] := value;
            disp[ei, q, 2] := value;
            ip := ip + 1;
          }
          q := q + 1;
        }
        ei := ei + 1;
      }
      dispersivity := disp;
      phaseVelocityNorm := velocityNorm;
    }
  }

  /** `saveConvergedVelocityState`: the kernel wrapper's `update` (not part of
    * this model, so a parameter) is applied at every element and quadrature
    * point to the converged velocity and the phase density. */
  method SaveConvergedVelocityState<V, D, R>(update: (nat, nat, V, D) -> R, numGauss: nat,
                                             convergedVelocity: seq<seq<V>>, phaseDensity: seq<seq<D>>)
    returns (updated: seq<seq<R>>)
    requires |phaseDensity| == |convergedVelocity|
    requires forall k :: 0 <= k < |convergedVelocity| ==> |convergedVelocity[k]| >= numGauss && |phaseDensity[k]| >= numGauss
    ensures |updated| == |convergedVelocity|
    ensures forall k :: 0 <= k < |updated| ==> |updated[k]| == numGauss
    ensures forall k, q :: 0 <= k < |updated| && 0 <= q < numGauss ==>
              updated[k][q] == update(k, q, convergedVelocity[k][q], phaseDensity[k][q])
  {
    updated := [];
    var k := 0;
    while k < |convergedVelocity|
      invariant 0 <= k <= |convergedVelocity| && |updated| == k
      invariant forall k' :: 0 <= k' < k ==> |updated[k']| == numGauss
      invariant forall k', q :: 0 <= k' < k && 0 <= q < numGauss ==>
                  updated[k'][q] == update(k', q, convergedVelocity[k'][q], phaseDensity[k'][q])
    {
      var row := [];
      var q := 0;
      while q < numGauss
        invariant 0 <= q <= numGauss && |row| == q
        invariant forall q' :: 0 <= q' < q ==> row[q'] == update(k, q', convergedVelocity[k][q'], phaseDensity[k][q'])
      {
        row := row + [update(k, q, convergedVelocity[k][q], phaseDensity[k][q])];
        q := q + 1;
      }
      updated := updated + [row];
      k := k + 1;
    }
  }

  /** `initializeVelocityState` is `saveConvergedVelocityState` applied to
    * the initial velocity. */
  method InitializeVelocityState<V, D, R>(update: (nat, nat, V, D) -> R, numGauss: nat,
                                          initialVelocity: seq<seq<V>>, phaseDensity: seq<seq<D>>)
    returns (updated: seq<seq<R>>)
    requires |phaseDensity| == |initialVelocity|
    requires forall k :: 0 <= k < |initialVelocity| ==> |initialVelocity[k]| >= numGauss && |phaseDensity[k]| >= numGauss
    ensures |updated| == |initialVelocity|
    ensures forall k, q :: 0 <= k < |updated| && 0 <= q < numGauss ==>
              |updated[k]| == numGauss && updated[k][q] == update(k, q, initialVelocity[k][q], phaseDensity[k][q])
  {
    updated := SaveConvergedVelocityState(update, numGauss, initialVelocity, phaseDensity);
  }
}

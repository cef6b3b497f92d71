/** The three update kernels of the rate-and-state friction law
  * (src/coreComponents/constitutive/contact/RateAndStateFriction.hpp). */
module RateAndStateFriction {

  /** The contact states of `fields::contact::FractureState`. */
  datatype FractureState = Stick | NewSlip | Slip | Open

  /** The scalar parameters the update object holds for one fracture element. */
  datatype FrictionParameters = FrictionParameters(
    cohesion: real,
    frictionCoefficient: real,
    displacementJumpThreshold: real)

  /** `computeLimitTangentialTractionNorm`: the returned limit and the value
    * written to the derivative out-parameter. */
  datatype LimitTraction = LimitTraction(limit: real, dLimit_dTraction: real)

  function ComputeLimitTangentialTractionNorm(p: FrictionParameters, normalTraction: real): (r: LimitTraction)
    ensures r.dLimit_dTraction == p.frictionCoefficient
    ensures r.limit + normalTraction * p.frictionCoefficient == p.cohesion
  {
    LimitTraction(p.cohesion - normalTraction * p.frictionCoefficient, p.frictionCoefficient)
  }

  /** With a positive friction coefficient the limit strictly decreases as the
    * normal traction grows, and it is affine: moving the traction by `h`
    * moves the limit by `-h` times the derivative output. The derivative
    * output is `+mu`, the opposite of the slope of the returned value. */
  lemma LimitDecreasesWithNormalTraction(p: FrictionParameters, t1: real, t2: real)
    requires p.frictionCoefficient > 0.0 && t1 < t2
    ensures ComputeLimitTangentialTractionNorm(p, t2).limit < ComputeLimitTangentialTractionNorm(p, t1).limit
    ensures ComputeLimitTangentialTractionNorm(p, t2).limit
         == ComputeLimitTangentialTractionNorm(p, t1).limit - (t2 - t1) * ComputeLimitTangentialTractionNorm(p, t1).dLimit_dTraction
  {
    var mu := p.frictionCoefficient;
    var l1 := ComputeLimitTangentialTractionNorm(p, t1).limit;
    var l2 := ComputeLimitTangentialTractionNorm(p, t2).limit;
    assert l1 - l2 == t2 * mu - t1 * mu == (t2 - t1) * mu;
    assert (t2 - t1) * mu > 0.0;
  }

  /** `computeShearTraction` has an empty body: neither out-parameter is
    * written. */
  method ComputeShearTraction(k: int, oldDispJump: seq<real>, dispJump: seq<real>, fractureState: FractureState,
                              tractionVector: array<real>, dTractionVector_dJump: array2<real>)
    ensures tractionVector[..] == old(tractionVector[..])
    ensures forall i, j :: 0 <= i < dTractionVector_dJump.Length0 && 0 <= j < dTractionVector_dJump.Length1 ==>
              dTractionVector_dJump[i, j] == old(dTractionVector_dJump[i, j])
  {
  }

  /** `updateFractureState`: open when the normal jump exceeds minus the
    * threshold, slip otherwise. The traction vector is not consulted. */
  function UpdateFractureState(p: FrictionParameters, dispJump: seq<real>, tractionVector: seq<real>): (s: FractureState)
    requires |dispJump| >= 1
    ensures s == Open <==> dispJump[0] > -p.displacementJumpThreshold
    ensures s == Slip <==> dispJump[0] <= -p.displacementJumpThreshold
  {
    if dispJump[0] > -p.displacementJumpThreshold then Open else Slip
  }

  /** No call produces `Stick` or `NewSlip`, whatever the traction. */
  lemma UpdateFractureStateIsOpenOrSlip(p: FrictionParameters, dispJump: seq<real>, t1: seq<real>, t2: seq<real>)
    requires |dispJump| >= 1
    ensures UpdateFractureState(p, dispJump, t1) != Stick && UpdateFractureState(p, dispJump, t1) != NewSlip
    ensures UpdateFractureState(p, dispJump, t1) == UpdateFractureState(p, dispJump, t2)
  {
  }
}

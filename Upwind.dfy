/** Upwinding of phase mobilities on a two-point flux stencil
  * (src/coreComponents/physicsSolvers/fluidFlow/CompositionalMultiphaseFVMUpwindUtilities.hpp).
  *
  * Support point 0 is the first cell of the connection and support point 1
  * the second. The per-phase potentials that the gravity and capillary
  * physics compute from constitutive data are inputs; the derivatives of
  * the fractional flow and of the fluxes are not modelled. */
module Upwind {
  import opened Wrappers

  /** `DrivingForces`. */
  datatype DrivingForce = Viscous | Gravity | Capillary

  /** The no-flow guard `1e-20` on mobilities. */
  const MobilityThreshold: real := 1.0 / 100000000000000000000.0

  function Abs(x: real): real { if x < 0.0 then -x else x }

  /** The data of one connection that the upwinding reads: per support point
    * `k` and phase `jp`, the phase mobility `phaseMob[k][jp]` and its
    * derivatives; per phase, the potential of the chosen physics; and the
    * total flux. */
  datatype Stencil = Stencil(
    numPhase: nat,
    numComp: nat,
    force: DrivingForce,
    totFlux: real,
    phasePotential: seq<real>,
    phaseMob: seq<seq<real>>,
    dPhaseMobdP: seq<seq<real>>,
    dPhaseMobdC: seq<seq<seq<real>>>)

  predicate WellFormed(s: Stencil) {
    |s.phasePotential| == s.numPhase &&
    |s.phaseMob| == 2 && |s.dPhaseMobdP| == 2 && |s.dPhaseMobdC| == 2 &&
    (forall k | 0 <= k < 2 :: |s.phaseMob[k]| == s.numPhase) &&
    (forall k | 0 <= k < 2 :: |s.dPhaseMobdP[k]| == s.numPhase) &&
    (forall k | 0 <= k < 2 :: |s.dPhaseMobdC[k]| == s.numPhase) &&
    (forall k, jp | 0 <= k < 2 && 0 <= jp < s.numPhase :: |s.dPhaseMobdC[k][jp]| == s.numComp)
  }

  // ---------------------------------------------------------------------
  // Upwind direction
  // ---------------------------------------------------------------------

  /** `UpwindScheme::getUpwindDirection`: a positive potential makes the first
    * cell upstream. */
  function UpwindDirection(pot: real): (dir: nat)
    ensures dir <= 1
    ensures dir == 0 <==> pot > 0.0
  {
    if pot > 0.0 then 0 else 1
  }

  /** The upstream choice of `computePPUPhaseFlux`. */
  function PpuUpstream(potGrad: real): (kUp: nat)
    ensures kUp <= 1
    ensures kUp == 0 <==> potGrad >= 0.0
  {
    if potGrad >= 0.0 then 0 else 1
  }

  /** The two upstream rules agree everywhere except at a zero potential,
    * where the phase-potential flux takes the first cell and the upwind
    * scheme the second. */
  lemma UpwindRulesDisagreeOnlyAtZero(pot: real)
    ensures UpwindDirection(pot) != PpuUpstream(pot) <==> pot == 0.0
    ensures pot == 0.0 ==> UpwindDirection(pot) == 1 && PpuUpstream(pot) == 0
  {
  }

  /** The phase flux of `computePPUPhaseFlux`: the upstream cell's mobility
    * times the potential gradient. */
  function PpuPhaseFlux(potGrad: real, mob0: real, mob1: real): real {
    (if PpuUpstream(potGrad) == 0 then mob0 else mob1) * potGrad
  }

  /** With non-negative mobilities the phase flux never runs against the
    * potential gradient. */
  lemma PpuFluxFollowsGradient(potGrad: real, mob0: real, mob1: real)
    requires 0.0 <= mob0 && 0.0 <= mob1
    ensures potGrad >= 0.0 ==> PpuPhaseFlux(potGrad, mob0, mob1) >= 0.0
    ensures potGrad < 0.0 ==> PpuPhaseFlux(potGrad, mob0, mob1) <= 0.0
  {
  }

  // ---------------------------------------------------------------------
  // Hybrid-upwind potential
  // ---------------------------------------------------------------------

  /** The contribution of phase `jp` to the weighted potential of phase `ip`
    * in `UpwindScheme::potential`: the mobility of the second cell when
    * `ip`'s potential is at least `jp`'s, that of the first cell otherwise. */
  function OtherPhaseTerm(pot: real, potOther: real, mobUp: real, mobDw: real): real {
    if pot - potOther >= 0.0 then mobDw * (potOther - pot) else mobUp * (potOther - pot)
  }

  /** The sum of the contributions of the phases `jp < n` other than `ip`. */
  function WeightedSum(s: Stencil, ip: nat, n: nat): real
    requires WellFormed(s) && ip < s.numPhase && n <= s.numPhase
  {
    if n == 0 then 0.0
    else
      var jp := n - 1;
      WeightedSum(s, ip, n - 1) +
        (if jp != ip
         then OtherPhaseTerm(s.phasePotential[ip], s.phasePotential[jp], s.phaseMob[0][jp], s.phaseMob[1][jp])
         else 0.0)
  }

  /** `UpwindScheme::potential`: adds the contribution of every other phase to
    * `weightedPotential`. */
  method Potential(s: Stencil, ip: nat, weightedPotential: real) returns (result: real)
    requires WellFormed(s) && ip < s.numPhase
    ensures result == weightedPotential + WeightedSum(s, ip, s.numPhase)
  {
    result := weightedPotential;
    var pot := s.phasePotential[ip];
    var jp := 0;
    while jp < s.numPhase
      invariant 0 <= jp <= s.numPhase
      invariant result == weightedPotential + WeightedSum(s, ip, jp)
    {
      if jp != ip {
        var potOther := s.phasePotential[jp];
        var mobUp := s.phaseMob[0][jp];
        var mobDw := s.phaseMob[1][jp];
        result := result + (if pot - potOther >= 0.0 then mobDw * (potOther - pot) else mobUp * (potOther - pot));
      }
      jp := jp + 1;
    }
  }

  /** Each contribution has the sign of `potOther - pot` when mobilities are
    * non-negative. */
  lemma OtherPhaseTermSign(pot: real, potOther: real, mobUp: real, mobDw: real)
    requires 0.0 <= mobUp && 0.0 <= mobDw
    ensures potOther <= pot ==> OtherPhaseTerm(pot, potOther, mobUp, mobDw) <= 0.0
    ensures potOther >= pot ==> OtherPhaseTerm(pot, potOther, mobUp, mobDw) >= 0.0
  {
  }

  predicate NonNegativeMobilities(s: Stencil)
    requires WellFormed(s)
  {
    forall k, jp | 0 <= k < 2 && 0 <= jp < s.numPhase :: s.phaseMob[k][jp] >= 0.0
  }

  /** With non-negative mobilities, the weighted potential of a phase whose
    * potential is the largest is at most 0, that of a phase whose potential
    * is the smallest is at least 0, and it is 0 when all potentials are
    * equal. */
  lemma {:induction false} WeightedSumSign(s: Stencil, ip: nat, n: nat)
    requires WellFormed(s) && ip < s.numPhase && n <= s.numPhase
    requires NonNegativeMobilities(s)
    ensures (forall jp | 0 <= jp < s.numPhase :: s.phasePotential[jp] <= s.phasePotential[ip]) ==> WeightedSum(s, ip, n) <= 0.0
    ensures (forall jp | 0 <= jp < s.numPhase :: s.phasePotential[jp] >= s.phasePotential[ip]) ==> WeightedSum(s, ip, n) >= 0.0
  {
    if n > 0 {
      WeightedSumSign(s, ip, n - 1);
      OtherPhaseTermSign(s.phasePotential[ip], s.phasePotential[n - 1], s.phaseMob[0][n - 1], s.phaseMob[1][n - 1]);
    }
  }

  /** `HybridUpwind<T>::computePotential`: the total flux for viscous forces
    * (the `Viscous` specialisation), otherwise the weighted potential
    * started from 0. */
  function HybridPotential(s: Stencil, ip: nat): real
    requires WellFormed(s) && ip < s.numPhase
  {
    if s.force == Viscous then s.totFlux else WeightedSum(s, ip, s.numPhase)
  }

  /** The upwind direction of phase `ip` under the hybrid scheme. */
  function HybridDirection(s: Stencil, ip: nat): nat
    requires WellFormed(s) && ip < s.numPhase
  {
    UpwindDirection(HybridPotential(s, ip))
  }

  /** Under viscous forces the potential is the total flux whatever the
    * phase, so all phases share one direction, the first cell being
    * upstream exactly when the total flux is positive. */
  lemma ViscousPhasesShareDirection(s: Stencil, ip: nat, jp: nat)
    requires WellFormed(s) && ip < s.numPhase && jp < s.numPhase
    requires s.force == Viscous
    ensures HybridDirection(s, ip) == HybridDirection(s, jp)
    ensures HybridDirection(s, ip) == 0 <==> s.totFlux > 0.0
  {
  }

  /** Under gravity or capillarity, with non-negative mobilities, the phase of
    * largest potential always takes the second cell as upstream. */
  lemma HighestPotentialPhaseFlowsFromSecondCell(s: Stencil, ip: nat)
    requires WellFormed(s) && ip < s.numPhase && s.force != Viscous
    requires NonNegativeMobilities(s)
    requires forall jp | 0 <= jp < s.numPhase :: s.phasePotential[jp] <= s.phasePotential[ip]
    ensures HybridDirection(s, ip) == 1
  {
    WeightedSumSign(s, ip, s.numPhase);
  }

  // ---------------------------------------------------------------------
  // Upwinded mobility and fractional flow
  // ---------------------------------------------------------------------

  /** The outputs of `upwindMobility`. */
  datatype UpwindedMobility = UpwindedMobility(upwindDir: nat, mobility: real, dMobdP: real, dMobdC: seq<real>)

  /** `upwindMobility`: the outputs start at zero and take the upstream
    * cell's mobility and derivatives only when that mobility is above the
    * no-flow guard. */
  function UpwindMobility(s: Stencil, ip: nat): (r: UpwindedMobility)
    requires WellFormed(s) && ip < s.numPhase
    ensures r.upwindDir == HybridDirection(s, ip)
    ensures |r.dMobdC| == s.numComp
    ensures Abs(s.phaseMob[r.upwindDir][ip]) > MobilityThreshold ==>
      r.mobility == s.phaseMob[r.upwindDir][ip] && r.dMobdP == s.dPhaseMobdP[r.upwindDir][ip] &&
      r.dMobdC == s.dPhaseMobdC[r.upwindDir][ip]
    ensures Abs(s.phaseMob[r.upwindDir][ip]) <= MobilityThreshold ==>
      r.mobility == 0.0 && r.dMobdP == 0.0 && forall ic | 0 <= ic < s.numComp :: r.dMobdC[ic] == 0.0
  {
    var dir := HybridDirection(s, ip);
    if Abs(s.phaseMob[dir][ip]) > MobilityThreshold
    then UpwindedMobility(dir, s.phaseMob[dir][ip], s.dPhaseMobdP[dir][ip], s.dPhaseMobdC[dir][ip])
    else UpwindedMobility(dir, 0.0, 0.0, seq(s.numComp, _ => 0.0))
  }

  /** An upwinded mobility is either exactly zero or above the guard. */
  lemma UpwindedMobilityIsZeroOrAboveGuard(s: Stencil, ip: nat)
    requires WellFormed(s) && ip < s.numPhase
    ensures UpwindMobility(s, ip).mobility == 0.0 || Abs(UpwindMobility(s, ip).mobility) > MobilityThreshold
  {
  }

  /** The sum of the upwinded mobilities of the phases `jp < n`. */
  function TotalMobility(s: Stencil, n: nat): real
    requires WellFormed(s) && n <= s.numPhase
  {
    if n == 0 then 0.0 else TotalMobility(s, n - 1) + UpwindMobility(s, n - 1).mobility
  }

  /** The fractional flow of phase `ip`: its upwinded mobility over the total
    * when above the guard, 0 otherwise; `None` when the guard passes but the
    * total mobility is zero, where the code divides by zero. */
  function FractionalFlow(s: Stencil, ip: nat): Option<real>
    requires WellFormed(s) && ip < s.numPhase
  {
    var mainMob := UpwindMobility(s, ip).mobility;
    var totMob := TotalMobility(s, s.numPhase);
    if Abs(mainMob) > MobilityThreshold then
      if totMob == 0.0 then None else Some(mainMob / totMob)
    else Some(0.0)
  }

  /** `computeFractionalFlow` (without derivatives): the loop over phases sums
    * the upwinded mobilities and remembers the main phase's, then divides
    * under the guard. */
  method ComputeFractionalFlow(s: Stencil, ip: nat) returns (kUpMain: int, fractionalFlow: Option<real>)
    requires WellFormed(s) && ip < s.numPhase
    ensures kUpMain == HybridDirection(s, ip)
    ensures fractionalFlow == FractionalFlow(s, ip)
  {
    var mainMob := 0.0;
    var totMob := 0.0;
    kUpMain := -1;
    var jp := 0;
    while jp < s.numPhase
      invariant 0 <= jp <= s.numPhase
      invariant totMob == TotalMobility(s, jp)
      invariant jp <= ip ==> kUpMain == -1 && mainMob == 0.0
      invariant jp > ip ==> kUpMain == HybridDirection(s, ip) && mainMob == UpwindMobility(s, ip).mobility
    {
      var m := UpwindMobility(s, jp);
      totMob := totMob + m.mobility;
      if jp == ip {
        kUpMain := m.upwindDir;
        mainMob := m.mobility;
      }
      jp := jp + 1;
    }
    if Abs(mainMob) > MobilityThreshold {
      if totMob == 0.0 {
        fractionalFlow := None;
      } else {
        fractionalFlow := Some(mainMob / totMob);
      }
    } else {
      fractionalFlow := Some(0.0);
    }
  }

  /** The fractional flow of each phase is its share of the total mobility. */
  lemma FractionalFlowIsShare(s: Stencil, ip: nat)
    requires WellFormed(s) && ip < s.numPhase
    requires TotalMobility(s, s.numPhase) != 0.0
    ensures FractionalFlow(s, ip) == Some(UpwindMobility(s, ip).mobility / TotalMobility(s, s.numPhase))
  {
    UpwindedMobilityIsZeroOrAboveGuard(s, ip);
  }

  /** The sum of the fractional flows of the phases `ip < n`, a missing one
    * counting as 0. */
  function SumOfFractionalFlows(s: Stencil, n: nat): real
    requires WellFormed(s) && n <= s.numPhase
  {
    if n == 0 then 0.0
    else SumOfFractionalFlows(s, n - 1) + (match FractionalFlow(s, n - 1) case Some(f) => f case None => 0.0)
  }

  lemma AddQuotients(a: real, b: real, t: real)
    requires t != 0.0
    ensures a / t + b / t == (a + b) / t
  {
  }

  lemma {:induction false} SumOfFractionalFlowsPrefix(s: Stencil, n: nat)
    requires WellFormed(s) && n <= s.numPhase
    requires TotalMobility(s, s.numPhase) != 0.0
    ensures SumOfFractionalFlows(s, n) == TotalMobility(s, n) / TotalMobility(s, s.numPhase)
  {
    if n > 0 {
      SumOfFractionalFlowsPrefix(s, n - 1);
      FractionalFlowIsShare(s, n - 1);
      AddQuotients(TotalMobility(s, n - 1), UpwindMobility(s, n - 1).mobility, TotalMobility(s, s.numPhase));
    }
  }

  /** Whenever the total mobility is nonzero, the fractional flows of all
    * phases sum to one. */
  lemma FractionalFlowsSumToOne(s: Stencil)
    requires WellFormed(s)
    requires TotalMobility(s, s.numPhase) != 0.0
    ensures SumOfFractionalFlows(s, s.numPhase) == 1.0
  {
    SumOfFractionalFlowsPrefix(s, s.numPhase);
  }

  // ---------------------------------------------------------------------
  // Component fluxes
  // ---------------------------------------------------------------------

  function Sum(s: seq<real>): real {
    if |s| == 0 then 0.0 else Sum(s[..|s| - 1]) + s[|s| - 1]
  }

  /** `computePhaseComponentFlux` (without derivatives): each component flux
    * grows by the phase flux times the upstream cell's fraction of that
    * component in the phase. `phaseCompFrac[k][ip][ic]` is indexed by
    * support point, phase and component. */
  method ComputePhaseComponentFlux(ip: nat, kUp: nat, phaseCompFrac: seq<seq<seq<real>>>, phaseFlux: real,
                                   compFlux: seq<real>)
    returns (updated: seq<real>)
    requires kUp < |phaseCompFrac| && ip < |phaseCompFrac[kUp]|
    requires |phaseCompFrac[kUp][ip]| == |compFlux|
    ensures |updated| == |compFlux|
    ensures forall ic | 0 <= ic < |compFlux| :: updated[ic] == compFlux[ic] + phaseFlux * phaseCompFrac[kUp][ip][ic]
  {
    var y := phaseCompFrac[kUp][ip];
    updated := compFlux;
    var ic := 0;
    while ic < |compFlux|
      invariant 0 <= ic <= |compFlux|
      invariant |updated| == |compFlux|
      invariant forall j | 0 <= j < ic :: updated[j] == compFlux[j] + phaseFlux * y[j]
      invariant forall j | ic <= j < |compFlux| :: updated[j] == compFlux[j]
    {
      updated := updated[ic := updated[ic] + phaseFlux * y[ic]];
      ic := ic + 1;
    }
  }

  lemma {:induction false} SumOfScaledAdd(a: seq<real>, y: seq<real>, f: real, r: seq<real>)
    requires |a| == |y| == |r|
    requires forall i | 0 <= i < |a| :: r[i] == a[i] + f * y[i]
    ensures Sum(r) == Sum(a) + f * Sum(y)
  {
    if |a| > 0 {
      var n := |a| - 1;
      SumOfScaledAdd(a[..n], y[..n], f, r[..n]);
      assert f * Sum(y) == f * Sum(y[..n]) + f * y[n];
    }
  }

  /** Component fluxes split the phase flux: when the upstream phase
    * composition sums to one, the component fluxes together grow by exactly
    * the phase flux. */
  lemma ComponentFluxesSplitPhaseFlux(ip: nat, kUp: nat, phaseCompFrac: seq<seq<seq<real>>>, phaseFlux: real,
                                      compFlux: seq<real>, updated: seq<real>)
    requires kUp < |phaseCompFrac| && ip < |phaseCompFrac[kUp]|
    requires |phaseCompFrac[kUp][ip]| == |compFlux| == |updated|
    requires forall ic | 0 <= ic < |compFlux| :: updated[ic] == compFlux[ic] + phaseFlux * phaseCompFrac[kUp][ip][ic]
    requires Sum(phaseCompFrac[kUp][ip]) == 1.0
    ensures Sum(updated) == Sum(compFlux) + phaseFlux
  {
    SumOfScaledAdd(compFlux, phaseCompFrac[kUp][ip], phaseFlux, updated);
  }
}

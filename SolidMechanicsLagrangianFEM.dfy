/** `SetTimeIntegrationOption` of the Lagrangian solid-mechanics solver
  * (src/coreComponents/physicsSolvers/solidMechanics/SolidMechanicsLagrangianFEM.hpp). */
module SolidMechanicsLagrangianFEM {
  import opened Wrappers

  datatype TimeIntegrationOption = QuasiStatic | ImplicitDynamic | ExplicitDynamic

  /** The input string each option is spelled with. */
  function OptionName(o: TimeIntegrationOption): string {
    match o
    case QuasiStatic => "QuasiStatic"
    case ImplicitDynamic => "ImplicitDynamic"
    case ExplicitDynamic => "ExplicitDynamic"
  }

  /** The if-chain of `SetTimeIntegrationOption`, as a value: the option a
    * string selects, or `None` for the error branch. */
  function ParseTimeIntegrationOption(stringVal: string): (r: Option<TimeIntegrationOption>)
    ensures r.Some? <==> stringVal in {"ExplicitDynamic", "ImplicitDynamic", "QuasiStatic"}
    ensures r.Some? ==> OptionName(r.value) == stringVal
  {
    if stringVal == "ExplicitDynamic" then Some(ExplicitDynamic)
    else if stringVal == "ImplicitDynamic" then Some(ImplicitDynamic)
    else if stringVal == "QuasiStatic" then Some(QuasiStatic)
    else None
  }

  /** Spelling an option and reading it back gives the same option, and the
    * three spellings are distinct. */
  lemma ParseOptionNameRoundTrip(o: TimeIntegrationOption, p: TimeIntegrationOption)
    ensures ParseTimeIntegrationOption(OptionName(o)) == Some(o)
    ensures OptionName(o) == OptionName(p) ==> o == p
  {
  }

  class SolidMechanicsLagrangianFEM {
    var timeIntegrationOption: TimeIntegrationOption

    constructor (initial: TimeIntegrationOption)
      ensures timeIntegrationOption == initial
    {
      timeIntegrationOption := initial;
    }

    /** Sets the option named by `stringVal`. Any other string is the
      * `GEOS_ERROR` branch (`ok == false`), which leaves the option as it
      * was. */
    method SetTimeIntegrationOption(stringVal: string) returns (ok: bool)
      modifies this
      ensures ok <==> ParseTimeIntegrationOption(stringVal).Some?
      ensures ok ==> timeIntegrationOption == ParseTimeIntegrationOption(stringVal).value
      ensures !ok ==> timeIntegrationOption == old(timeIntegrationOption)
      ensures ok ==> OptionName(timeIntegrationOption) == stringVal
    {
      ok := true;
      if stringVal == "ExplicitDynamic" {
        timeIntegrationOption := ExplicitDynamic;
      } else if stringVal == "ImplicitDynamic" {
        timeIntegrationOption := ImplicitDynamic;
      } else if stringVal == "QuasiStatic" {
        timeIntegrationOption := QuasiStatic;
      } else {
        ok := false;
      }
    }
  }
}

# A verified model of the GEOS kernels and utilities

This project models, in Dafny, the parts of the GEOS multiphysics simulator whose logic is indexing, ownership, bookkeeping and exact arithmetic rather than floating-point physics, and proves properties of that model. It has five groups.

- **Element-kernel assembly.**
  - `GlobalAssembly` models the gather (`setup`) and scatter (`complete`) steps the implicit finite-element kernels share. Rows outside the rank's range are skipped, and the result is the largest residual magnitude.
  - `PoromechanicsDamage` and `PhaseFieldDamage` are the two kernels built on those steps, including the launcher that runs `setup`, the quadrature points and `complete` for every element.
  - `WaveKernels`, `ElasticWaveSEM` and `ElasticFirstOrderSEM` model the spectral-element wave kernels:
    - the first-finder registration of sources and receivers;
    - the nodal mass and damping diagonals, accumulated by atomic additions;
    - the source injection into the stress;
    - the three phases of the velocity update.
- **Quadrature and shape functions.**
  - `QuadratureUtilities`: the eight-point Gauss rule on the hexahedron.
  - `QuadratureFunctionsHelper`: the 3x3 determinant and adjugate, the physical gradient and the Voigt strain.
  - `Basis`: the compile-time basis traits, as a datatype with functions by cases.
- **Finite-volume bookkeeping.**
  - `SinglePhaseFlowTpfa`: the TPFA degree-of-freedom numbering, the selection of face connectors, the conservative face stencil and the solution update.
  - `Upwind`: the upwind direction, the mobility guard, the fractional flow and the component fluxes of the compositional solver.
- **Mesh topology builders.**
  - `FaceBlockUtilities`: the fracture face-block maps of the VTK importer.
  - `FractureSplit`: the node splitting, cell rewrite and fracture mesh of the mesh doctor's fracture generator.
- **Utilities.**
  - `BlockVectorView`: the block-vector reductions and updates.
  - `DenseSolvers`: the small dense solvers.
  - `TableLayout` and `Table`: the text table.
  - `Section`: the log section banner.
  - `SolidMechanicsLagrangianFEM`: the time-integration option parser.
  - `RateAndStateFriction`: the rate-and-state friction kernels.
  - `ThermalConductivity` and `LinearIsotropicDispersion`: two constitutive input checks with their allocation.
  - `DataTypes`: the type-name registry.
  - `Wrappers`: the `Option` and `Result` values for error paths.

Several conventions hold across the model:

- `real64` and `real32` are exact reals.
- Each `forAll` is a sequential loop in index order.
- `RAJA::atomicAdd` is `+=`.
- `ReduceMax` is `max`.
- `GEOS_ERROR`, `GEOS_THROW_IF` and failed `assert`s are error results or `false` statuses.
- External finite-element and constitutive helpers are function parameters. Mesh-library and MPI results are input sequences.

Code that changes state in place is modelled imperatively:

- classes with `modifies` frames;
- methods over arrays with loop invariants;
- each such method proved against a specification function whose properties are lemmas.

Pure code is modelled by functions and lemmas.

## Model

| member | source | states |
|---|---|---|
| `DataTypes.Canonical` | src/components/core/src/common/DataTypes.hpp:34-35 | a type is itself as a `std::type_index`, except that `std_size_t` is `uint64` on a platform where `std::size_t` and `std::uint64_t` are one type |
| `DataTypes.TypeNames` | src/components/core/src/common/DataTypes.hpp:122-142 | the fixed table gives a name exactly for the fourteen registered types; any other type is the failing `.at` lookup (`None`); where `std::size_t` is `std::uint64_t` the table's later duplicate key is dropped and no type is named "std_size_t" |
| `DataTypes.TypeNamesInjective` | src/components/core/src/common/DataTypes.hpp:124-141 | every registered type has a name and two registered types share a name exactly when they are the same `std::type_index`: all fourteen names differ without the alias, and with it `std_size_t` and `uint64` are both named "uint64" |
| `DataTypes.Ordinal` | src/components/core/src/common/DataTypes.hpp:144-160 | each enumerator's underlying value is a position below fourteen at which the declaration lists that enumerator |
| `DataTypes.TypeIdsAreTheRegisteredTypes` | src/components/core/src/common/DataTypes.hpp:144-160 | `TypeIDs` has exactly fourteen enumerators, none listed twice, and each stands for a type the name table knows |
| `DataTypes.ValueFor` | src/components/core/src/common/DataTypes.hpp:169-237 | each case hands the lambda a value of the enumerator's own type: numbers equal to 1, arrays of length 1, the empty string |
| `DataTypes.ApplyTypeLambda` | src/components/core/src/common/DataTypes.hpp:164-244 | the lambda is called exactly for the fourteen valid enumerator values, with the value its case constructs; any other value reaches the asserting `default` branch (`None`) |
| `DataTypes.ApplyTypeLambdaMatchesType` | src/components/core/src/common/DataTypes.hpp:164-238 | the lambda always receives a value whose type is the one the enumerator names |
| `SolidMechanicsLagrangianFEM.ParseTimeIntegrationOption` | src/coreComponents/physicsSolvers/solidMechanics/SolidMechanicsLagrangianFEM.hpp:355-373 | an option is selected exactly for the three spellings `ExplicitDynamic`, `ImplicitDynamic`, `QuasiStatic`, and it is the option spelled that way |
| `SolidMechanicsLagrangianFEM.ParseOptionNameRoundTrip` | src/coreComponents/physicsSolvers/solidMechanics/SolidMechanicsLagrangianFEM.hpp:357-368 | reading back an option's spelling gives that option, and the three spellings are distinct |
| `SolidMechanicsLagrangianFEM.SolidMechanicsLagrangianFEM.constructor` | src/coreComponents/physicsSolvers/solidMechanics/SolidMechanicsLagrangianFEM.hpp:355 | the solver starts with the given time-integration option |
| `SolidMechanicsLagrangianFEM.SolidMechanicsLagrangianFEM.SetTimeIntegrationOption` | src/coreComponents/physicsSolvers/solidMechanics/SolidMechanicsLagrangianFEM.hpp:355-373 | a recognised string sets the option it spells; any other string is the error branch and leaves the option unchanged |
| `RateAndStateFriction.ComputeLimitTangentialTractionNorm` | src/coreComponents/constitutive/contact/RateAndStateFriction.hpp:174-179 | the limit plus normal traction times the friction coefficient is the cohesion, and the derivative output is `+mu` |
| `RateAndStateFriction.LimitDecreasesWithNormalTraction` | src/coreComponents/constitutive/contact/RateAndStateFriction.hpp:174-179 | for a positive friction coefficient the limit strictly decreases with normal traction, moving by the traction change times the derivative output |
| `RateAndStateFriction.ComputeShearTraction` | src/coreComponents/constitutive/contact/RateAndStateFriction.hpp:183-191 | neither the traction vector nor its derivative matrix is changed |
| `RateAndStateFriction.UpdateFractureState` | src/coreComponents/constitutive/contact/RateAndStateFriction.hpp:194-208 | the state is `Open` exactly when the normal jump exceeds minus the threshold, and `Slip` exactly otherwise |
| `RateAndStateFriction.UpdateFractureStateIsOpenOrSlip` | src/coreComponents/constitutive/contact/RateAndStateFriction.hpp:194-208 | no call yields `Stick` or `NewSlip`, and the traction vector never affects the state |
| `LinearIsotropicDispersion.PostProcessInputRejects` | src/coreComponents/constitutive/dispersion/LinearIsotropicDispersion.cpp:68-74 | the input is rejected exactly when the longitudinal dispersivity is negative, so zero is accepted |
| `LinearIsotropicDispersion.LinearIsotropicDispersion.constructor` | src/coreComponents/constitutive/dispersion/LinearIsotropicDispersion.cpp:48-52 | a new model holds the given longitudinal dispersivity and empty (0, 0, 3) dispersivity storage |
| `LinearIsotropicDispersion.LinearIsotropicDispersion.AllocateConstitutiveData` | src/coreComponents/constitutive/dispersion/LinearIsotropicDispersion.cpp:48-66 | the dispersivity is resized to (elements, 1, 3), the phase velocity norm to (elements, 1, phases), and all three directions at quadrature index 0 of every element hold the longitudinal value |
| `LinearIsotropicDispersion.SaveConvergedVelocityState` | src/coreComponents/constitutive/dispersion/LinearIsotropicDispersion.cpp:81-93 | the update is applied once at every element and quadrature point, to that point's converged velocity and phase density |
| `LinearIsotropicDispersion.InitializeVelocityState` | src/coreComponents/constitutive/dispersion/LinearIsotropicDispersion.cpp:76-79 | initialising is the converged-state update applied to the initial velocity |
| `ThermalConductivity.NumQuadraturePoints` | src/coreComponents/constitutive/thermalConductivity/MultiPhaseVolumeWeightedThermalConductivity.cpp:57 | the count is the smaller of the base class maximum and the requested count |
| `ThermalConductivity.FirstNonPositivePhase` | src/coreComponents/constitutive/thermalConductivity/MultiPhaseVolumeWeightedThermalConductivity.cpp:83-89 | the loop stops at the first phase whose conductivity is not strictly positive, and finds none exactly when all are positive |
| `ThermalConductivity.PostProcessInput` | src/coreComponents/constitutive/thermalConductivity/MultiPhaseVolumeWeightedThermalConductivity.cpp:74-90 | the input passes exactly when all three rock components and every phase conductivity are strictly positive; a non-positive rock component is reported first, otherwise a non-positive phase |
| `ThermalConductivity.MultiPhaseVolumeWeightedThermalConductivity.constructor` | src/coreComponents/constitutive/thermalConductivity/MultiPhaseVolumeWeightedThermalConductivity.cpp:59 | a new model holds the three input components and empty (0, 0, 3) storage |
| `ThermalConductivity.MultiPhaseVolumeWeightedThermalConductivity.AllocateConstitutiveData` | src/coreComponents/constitutive/thermalConductivity/MultiPhaseVolumeWeightedThermalConductivity.cpp:54-72 | the tensor is resized to (elements, capped quadrature count, 3) and every entry holds the input component of its direction |
| `ThermalConductivity.SaveConvergedRockFluidState` | src/coreComponents/constitutive/thermalConductivity/MultiPhaseVolumeWeightedThermalConductivity.cpp:98-112 | the update is applied once at every element and quadrature point, to the converged porosity there and the element's phase volume fractions |
| `ThermalConductivity.InitializeRockFluidState` | src/coreComponents/constitutive/thermalConductivity/MultiPhaseVolumeWeightedThermalConductivity.cpp:92-96 | initialising is the converged-state update applied to the initial fields |
| `Basis.IsBasisIffSharedUnderTransAndGrad` | src/coreComponents/finiteElement/basis/basis.hpp:201-232 | `is_basis` holds exactly for a `SharedBasis` under any stack of `Trans` and `Grad` wrappers; a `Div` or a bare `BasisTensor` anywhere makes the type a non-basis |
| `Basis.TransposeSwapsCounts` | src/coreComponents/finiteElement/basis/basis.hpp:319-377 | `Trans` swaps the quadrature and degree-of-freedom counts, so transposing twice restores both counts and basis-ness |
| `Basis.TransStackKeepsTraits` | src/coreComponents/finiteElement/basis/basis.hpp:215-377 | any number of `Trans` layers keeps `is_basis`, the dimension and both tensor traits of the wrapped type, and exchanges the quadrature and degree-of-freedom counts once per layer |
| `Basis.TensorTraitsAreComplements` | src/coreComponents/finiteElement/basis/basis.hpp:263-317 | over a `SharedBasis` or `BasisTensor` under any number of `Trans`, `is_tensor_basis` and `is_non_tensor_basis` are complements; over anything else both are false |
| `Basis.BasisSize` | src/coreComponents/finiteElement/basis/basis.hpp:381-392 | `get_basis_size<N>` is defined only for a `BasisTensor` with more than `N` sizes, and is its `N`-th size |
| `Basis.TransStackCapacity` | src/coreComponents/finiteElement/basis/basis.hpp:394-452 | one or more `Trans` layers hold what the wrapped basis holds, except that over `Grad<B>` they hold what `B` holds; over a non-basis they fall back to `DynamicMaxSize` squared |
| `Basis.StaticCapacityUnderTrans` | src/coreComponents/finiteElement/basis/basis.hpp:404-414 | a `SharedBasis` with static `Dofs` and `Q` holds `Dofs * Q` values however many times it is transposed |
| `Basis.GradCapacityUnderTrans` | src/coreComponents/finiteElement/basis/basis.hpp:434-446 | the gradient of a transposed-any-number-of-times non-tensor basis holds `Dim` times its values, and that of a tensor basis the same number |
| `Basis.TransposedGradCapacity` | src/coreComponents/finiteElement/basis/basis.hpp:434-452 | a transposed gradient holds what its basis holds: times the gradient's factor (1 for a tensor basis, `Dim` otherwise) it equals the capacity of the untransposed gradient |
| `Basis.Transpose` | src/coreComponents/finiteElement/basis/basis.hpp:151-169 | all three `transpose` overloads wrap their argument in `Trans` |
| `Basis.DivOf` | src/coreComponents/finiteElement/basis/basis.hpp:185-195 | `div` of a transposed basis is `Trans<Div<B>>`, of anything else `Div<B>` |
| `Basis.GradOfTransNeverResolves` | src/coreComponents/finiteElement/basis/basis.hpp:178-182 | the `Trans<B>` overload of `grad` calls itself on the same argument, so however many calls are followed it never produces a value |
| `Basis.GradOf` | src/coreComponents/finiteElement/basis/basis.hpp:172-182 | the intended `grad`: `Trans<Grad<B>>` for a transposed basis, `Grad<B>` otherwise |
| `Basis.GradOfPreservesTraits` | src/coreComponents/finiteElement/basis/basis.hpp:172-182 | the intended `grad` keeps basis-ness and both counts, and agrees with the written factory on every non-transposed argument |
| `QuadratureUtilities.Bit` | src/coreComponents/physicsSolvers/simplePDE/QuadratureUtilities.hpp:60-62 | the masked and shifted bit of the index is 0 or 1 |
| `QuadratureUtilities.HexGauss8` | src/coreComponents/physicsSolvers/simplePDE/QuadratureUtilities.hpp:57-70 | every point has weight 1 and coordinate `j` is `(2 * bit_j(q) - 1)` times the abscissa, so each coordinate is plus or minus the abscissa |
| `QuadratureUtilities.GetData` | src/coreComponents/physicsSolvers/simplePDE/QuadratureUtilities.hpp:45-84 | `getData` is defined only for the hexahedral eight-point rule, and there it is the helper's point for the same index |
| `QuadratureUtilities.PointIndexOfHexGauss8` | src/coreComponents/physicsSolvers/simplePDE/QuadratureUtilities.hpp:60-68 | the signs of the three coordinates of point `q` read back as the bits of `q`, for each `q` in 0..7 |
| `QuadratureUtilities.HexGauss8Injective` | src/coreComponents/physicsSolvers/simplePDE/QuadratureUtilities.hpp:60-68 | two indices in 0..7 give the same point only if they are equal |
| `QuadratureUtilities.HexGauss8Moments` | src/coreComponents/physicsSolvers/simplePDE/QuadratureUtilities.hpp:59-68 | the eight weights sum to 8 and every coordinate sums to zero over the eight points |
| `QuadratureUtilities.HexGauss8Periodic` | src/coreComponents/physicsSolvers/simplePDE/QuadratureUtilities.hpp:60-62 | only the low three bits of the index matter: `q` and `q + 8` give the same point |
| `QuadratureFunctionsHelper.DeterminantExpansions` | src/coreComponents/finiteElement/TeamKernelInterface/QuadraturePointKernelFunctions/QuadratureFunctionsHelper.hpp:37-43 | the determinant is the cofactor expansion along the first column, and equals the expansion along the first row |
| `QuadratureFunctionsHelper.AdjugateIsCofactorTranspose` | src/coreComponents/finiteElement/TeamKernelInterface/QuadraturePointKernelFunctions/QuadratureFunctionsHelper.hpp:47-58 | entry (i, j) of the written adjugate is the cofactor of entry (j, i) of `J` |
| `QuadratureFunctionsHelper.AdjugateTimesJRow0` | src/coreComponents/finiteElement/TeamKernelInterface/QuadraturePointKernelFunctions/QuadratureFunctionsHelper.hpp:37-58 | row 0 of `adj(J) J` is row 0 of `det(J) I` |
| `QuadratureFunctionsHelper.AdjugateTimesJRow1` | src/coreComponents/finiteElement/TeamKernelInterface/QuadraturePointKernelFunctions/QuadratureFunctionsHelper.hpp:37-58 | row 1 of `adj(J) J` is row 1 of `det(J) I` |
| `QuadratureFunctionsHelper.AdjugateTimesJRow2` | src/coreComponents/finiteElement/TeamKernelInterface/QuadraturePointKernelFunctions/QuadratureFunctionsHelper.hpp:37-58 | row 2 of `adj(J) J` is row 2 of `det(J) I` |
| `QuadratureFunctionsHelper.JTimesAdjugateColumn0` | src/coreComponents/finiteElement/TeamKernelInterface/QuadraturePointKernelFunctions/QuadratureFunctionsHelper.hpp:37-58 | column 0 of `J adj(J)` is column 0 of `det(J) I` |
| `QuadratureFunctionsHelper.JTimesAdjugateColumn1` | src/coreComponents/finiteElement/TeamKernelInterface/QuadraturePointKernelFunctions/QuadratureFunctionsHelper.hpp:37-58 | column 1 of `J adj(J)` is column 1 of `det(J) I` |
| `QuadratureFunctionsHelper.JTimesAdjugateColumn2` | src/coreComponents/finiteElement/TeamKernelInterface/QuadraturePointKernelFunctions/QuadratureFunctionsHelper.hpp:37-58 | column 2 of `J adj(J)` is column 2 of `det(J) I` |
| `QuadratureFunctionsHelper.AdjugateIsScaledInverse` | src/coreComponents/finiteElement/TeamKernelInterface/QuadraturePointKernelFunctions/QuadratureFunctionsHelper.hpp:37-58 | over exact reals `adj(J) J = J adj(J) = det(J) I`, all eighteen entries |
| `QuadratureFunctionsHelper.IdentityDeterminantAndAdjugate` | src/coreComponents/finiteElement/TeamKernelInterface/QuadraturePointKernelFunctions/QuadratureFunctionsHelper.hpp:37-58 | the identity has determinant 1 and is its own adjugate |
| `QuadratureFunctionsHelper.ComputePhysicalGradient` | src/coreComponents/finiteElement/TeamKernelInterface/QuadraturePointKernelFunctions/QuadratureFunctionsHelper.hpp:60-82 | the three nested loops leave `grad_phys[c][i] = detJinv * sum_j AdjJ[j][i] * grad[c][j]` for every component and physical direction |
| `QuadratureFunctionsHelper.ContractionLinear` | src/coreComponents/finiteElement/TeamKernelInterface/QuadraturePointKernelFunctions/QuadratureFunctionsHelper.hpp:74-78 | the accumulated sum over reference directions is linear in the reference gradient |
| `QuadratureFunctionsHelper.PhysicalGradientLinear` | src/coreComponents/finiteElement/TeamKernelInterface/QuadraturePointKernelFunctions/QuadratureFunctionsHelper.hpp:65-82 | the physical gradient of `alpha g1 + beta g2` is `alpha` times that of `g1` plus `beta` times that of `g2` |
| `QuadratureFunctionsHelper.PhysicalGradientOfZero` | src/coreComponents/finiteElement/TeamKernelInterface/QuadraturePointKernelFunctions/QuadratureFunctionsHelper.hpp:65-82 | a zero reference gradient gives a zero physical gradient |
| `QuadratureFunctionsHelper.PhysicalGradientOfIdentity` | src/coreComponents/finiteElement/TeamKernelInterface/QuadraturePointKernelFunctions/QuadratureFunctionsHelper.hpp:65-82 | with the identity as `AdjJ` and `detJinv = 1` the physical gradient is the reference gradient |
| `QuadratureFunctionsHelper.ComputeStrain` | src/coreComponents/finiteElement/TeamKernelInterface/QuadraturePointKernelFunctions/QuadratureFunctionsHelper.hpp:87-95 | Voigt order (xx, yy, zz, xy, xz, yz): the diagonal is copied and each shear entry is twice the symmetric part of its off-diagonal pair |
| `QuadratureFunctionsHelper.StrainOfTranspose` | src/coreComponents/finiteElement/TeamKernelInterface/QuadraturePointKernelFunctions/QuadratureFunctionsHelper.hpp:87-95 | a gradient and its transpose give the same strain |
| `QuadratureFunctionsHelper.StrainOfSkewIsZero` | src/coreComponents/finiteElement/TeamKernelInterface/QuadraturePointKernelFunctions/QuadratureFunctionsHelper.hpp:87-95 | a skew-symmetric gradient (a rigid rotation) gives zero strain |
| `Upwind.UpwindDirection` | src/coreComponents/physicsSolvers/fluidFlow/CompositionalMultiphaseFVMUpwindUtilities.hpp:1019-1064 | the direction is 0 (first cell upstream) exactly when the potential is positive, and 1 otherwise |
| `Upwind.PpuUpstream` | src/coreComponents/physicsSolvers/fluidFlow/CompositionalMultiphaseFVMUpwindUtilities.hpp:191-195 | the phase-potential flux takes the first cell exactly when the potential gradient is at least zero |
| `Upwind.UpwindRulesDisagreeOnlyAtZero` | src/coreComponents/physicsSolvers/fluidFlow/CompositionalMultiphaseFVMUpwindUtilities.hpp:195 | the two upstream rules differ exactly at a zero potential, where the upwind scheme picks the second cell and the phase-potential flux the first |
| `Upwind.PpuFluxFollowsGradient` | src/coreComponents/physicsSolvers/fluidFlow/CompositionalMultiphaseFVMUpwindUtilities.hpp:195-224 | with non-negative mobilities the phase flux (upstream mobility times gradient) never runs against the potential gradient |
| `Upwind.Potential` | src/coreComponents/physicsSolvers/fluidFlow/CompositionalMultiphaseFVMUpwindUtilities.hpp:1070-1117 | the loop adds to `weightedPotential` exactly the contribution of every phase other than `ip`: the second cell's mobility times `potOther - pot` when `pot - potOther >= 0`, the first cell's otherwise |
| `Upwind.OtherPhaseTermSign` | src/coreComponents/physicsSolvers/fluidFlow/CompositionalMultiphaseFVMUpwindUtilities.hpp:1113 | with non-negative mobilities each contribution has the sign of `potOther - pot` |
| `Upwind.WeightedSumSign` | src/coreComponents/physicsSolvers/fluidFlow/CompositionalMultiphaseFVMUpwindUtilities.hpp:1091-1116 | with non-negative mobilities the weighted potential of a phase of largest potential is at most 0, and of one of smallest potential at least 0 |
| `Upwind.ViscousPhasesShareDirection` | src/coreComponents/physicsSolvers/fluidFlow/CompositionalMultiphaseFVMUpwindUtilities.hpp:588-621 | under viscous forces the potential is the total flux for every phase, so all phases share one direction, the first cell being upstream exactly when the total flux is positive |
| `Upwind.HighestPotentialPhaseFlowsFromSecondCell` | src/coreComponents/physicsSolvers/fluidFlow/CompositionalMultiphaseFVMUpwindUtilities.hpp:1135-1190 | under gravity or capillarity, with non-negative mobilities, the phase of largest potential takes the second cell as upstream |
| `Upwind.UpwindMobility` | src/coreComponents/physicsSolvers/fluidFlow/CompositionalMultiphaseFVMUpwindUtilities.hpp:340-408 | the outputs are zero unless the upstream cell's mobility exceeds `1e-20` in magnitude, in which case they are that cell's mobility and derivatives; the direction is the scheme's |
| `Upwind.UpwindedMobilityIsZeroOrAboveGuard` | src/coreComponents/physicsSolvers/fluidFlow/CompositionalMultiphaseFVMUpwindUtilities.hpp:366-407 | an upwinded mobility is either exactly zero or above the guard in magnitude |
| `Upwind.ComputeFractionalFlow` | src/coreComponents/physicsSolvers/fluidFlow/CompositionalMultiphaseFVMUpwindUtilities.hpp:429-550 | the phase loop sums the upwinded mobilities and keeps the main phase's direction and mobility; the result is `mainMob / totMob` above the guard, 0 below it, and the division by a zero total is reported (`None`) |
| `Upwind.FractionalFlowIsShare` | src/coreComponents/physicsSolvers/fluidFlow/CompositionalMultiphaseFVMUpwindUtilities.hpp:529-532 | with a nonzero total mobility each phase's fractional flow is its upwinded mobility over the total |
| `Upwind.SumOfFractionalFlowsPrefix` | src/coreComponents/physicsSolvers/fluidFlow/CompositionalMultiphaseFVMUpwindUtilities.hpp:476-532 | the fractional flows of the first `n` phases sum to their share of the total mobility |
| `Upwind.FractionalFlowsSumToOne` | src/coreComponents/physicsSolvers/fluidFlow/CompositionalMultiphaseFVMUpwindUtilities.hpp:429-550 | whenever the total mobility is nonzero the fractional flows of all phases sum to 1 |
| `Upwind.ComputePhaseComponentFlux` | src/coreComponents/physicsSolvers/fluidFlow/CompositionalMultiphaseFVMUpwindUtilities.hpp:263-300 | each component flux grows by the phase flux times the upstream cell's fraction of that component in the phase |
| `Upwind.SumOfScaledAdd` | src/coreComponents/physicsSolvers/fluidFlow/CompositionalMultiphaseFVMUpwindUtilities.hpp:292-296 | adding `f` times each entry of `y` raises the sum by `f` times the sum of `y` |
| `Upwind.ComponentFluxesSplitPhaseFlux` | src/coreComponents/physicsSolvers/fluidFlow/CompositionalMultiphaseFVMUpwindUtilities.hpp:263-300 | when the upstream composition sums to one, the component fluxes together grow by exactly the phase flux |
| `SectionLayout.RowLengthIsLeastBound` | src/coreComponents/codingUtilities/Section.cpp:44-68 | the row length is at least the minimum width, the footer's width and every description's width, and equals one of them |
| `SectionLayout.RowLengthCoversMargins` | src/coreComponents/codingUtilities/Section.cpp:44-68 | the row length leaves room for the special characters on both sides and one margin, so the widths `begin` derives are never negative |
| `SectionLayout.DescriptionLinesLayout` | src/coreComponents/codingUtilities/Section.cpp:70-81 | the first line is `"- name: "` followed by the first value; each further line is `max(1, len(name) + embeddingName)` spaces followed by its value |
| `SectionLayout.ValuesLineUp` | src/coreComponents/codingUtilities/Section.cpp:70-81 | with an embedding of 4 every further value starts in the column of the first |
| `SectionLayout.BannerCloses` | src/coreComponents/codingUtilities/Section.cpp:89-136 | with the `##` borders and a margin of at least one column, the title line, every description line and the footer line are exactly as long as the `#` lines |
| `SectionLayout.TitleCentred` | src/coreComponents/codingUtilities/Section.cpp:100 | the title sits after half of the padding, rounded down, with spaces before it |
| `Section.Section.constructor` | src/coreComponents/codingUtilities/Section.cpp:25-27 | a new section has minimum width 20, no title and no description |
| `Section.Section.SetName` | src/coreComponents/codingUtilities/Section.cpp:29-32 | sets the title and nothing else |
| `Section.Section.AddDescription` | src/coreComponents/codingUtilities/Section.cpp:34-37 | appends exactly one description at the end and changes nothing else |
| `Section.Section.SetMinWidth` | src/coreComponents/codingUtilities/Section.cpp:39-42 | sets the minimum width and nothing else |
| `Section.Section.ComputeMaxRowSize` | src/coreComponents/codingUtilities/Section.cpp:44-68 | sets the row length to the larger of the minimum width and the footer width, then to the widest description's width if larger; nothing else changes |
| `Section.Section.FormatAndInsertDescriptions` | src/coreComponents/codingUtilities/Section.cpp:70-81 | appends one line per value (the named first line, then the indented ones) after the existing descriptions; `values` must be non-empty |
| `Section.Section.Clear` | src/coreComponents/codingUtilities/Section.cpp:83-87 | empties the descriptions and the title and keeps the widths |
| `Section.Section.Begin` | src/coreComponents/codingUtilities/Section.cpp:89-123 | computes the row length for the current title and descriptions and writes the `#` line, the centred title, the `#` line, then the descriptions, or a blank line when there are none |
| `Section.Section.Banner` | src/coreComponents/codingUtilities/Section.cpp:93-122 | the writing part of `begin` produces exactly the opening banner for the given row length |
| `Section.Section.DescriptionBlock` | src/coreComponents/codingUtilities/Section.cpp:111-122 | the description loop writes each padded description between `##` borders, a newline after each and a blank line after the last |
| `Section.Section.End` | src/coreComponents/codingUtilities/Section.cpp:125-138 | writes `"End : " + title` centred and a `#` line, then clears the title and the descriptions; the widths are kept |
| `TableLayout.Format` | src/coreComponents/codingUtilities/Table.cpp:36-38 | a `GEOS_FMT` width specifier never truncates: the result is as long as the larger of the value and the width |
| `TableLayout.FormatLayout` | src/coreComponents/codingUtilities/Table.cpp:36-38 | the formatted text holds the value unchanged at its offset (after, before or around the padding for `<`, `>`, `^`) and the fill character everywhere else |
| `TableLayout.BuildValueCell` | src/coreComponents/codingUtilities/Table.cpp:32-41 | a value cell is as long as the larger of the value and the cell width |
| `TableLayout.UnlistedAlignmentIsLeft` | src/coreComponents/codingUtilities/Table.cpp:39 | any alignment outside the three listed ones is laid out exactly as `left`, with the value at the start of the cell |
| `TableLayout.SplitLinesJoin` | src/coreComponents/codingUtilities/Table.cpp:89-96 | joining the lines `getline` extracts with `'\n'` gives back the header name, less one final newline |
| `TableLayout.SplitLinesHaveNoNewline` | src/coreComponents/codingUtilities/Table.cpp:89-96 | no extracted header line holds a `'\n'` |
| `TableLayout.PadLines` | src/coreComponents/codingUtilities/Table.cpp:110-113 | a column's header lines are kept as its first lines, and the added lines up to the largest count are all `" "` |
| `TableLayout.LargestCount` | src/coreComponents/codingUtilities/Table.cpp:98-99 | `largestHeaderVectorSize` is at least its initial value and every column's line count, and equals one of them |
| `TableLayout.HeadersEvenedOut` | src/coreComponents/codingUtilities/Table.cpp:105-117 | after padding every column has exactly the largest number of header lines and keeps its own lines first |
| `TableLayout.HeaderColumns` | src/coreComponents/codingUtilities/Table.cpp:43-51 | the header-list constructor makes one column per header |
| `TableLayout.EnabledColumnsKept` | src/coreComponents/codingUtilities/Table.cpp:53-65 | the `ColumnParam` constructor keeps exactly the enabled parameters, each with no values and an empty widest string, and every enabled parameter is kept |
| `TableLayout.EnabledCells` | src/coreComponents/codingUtilities/Table.cpp:71-79 | a stored row has no more cells than the given row |
| `TableLayout.EnabledCellsOfEnabledColumns` | src/coreComponents/codingUtilities/Table.cpp:67-82 | when every column is enabled a row is stored exactly as given |
| `TableLayout.ConstructedColumnsAreEnabled` | src/coreComponents/codingUtilities/Table.cpp:43-65 | both constructors leave only enabled columns |
| `TableLayout.FirstLongestIsLongest` | src/coreComponents/codingUtilities/Table.cpp:140-146 | the string `std::max_element` picks is no shorter than any header line |
| `TableLayout.FirstLongestIsFirst` | src/coreComponents/codingUtilities/Table.cpp:140-146 | the picked string is in the list and every string before it is strictly shorter, so ties go to the earliest |
| `TableLayout.ExtraPerColumn` | src/coreComponents/codingUtilities/Table.cpp:168 | as corrected (see Findings): the extra width per column, rounded up, covers the extra length over all columns and is the least such amount |
| `TableLayout.WidenedWidths` | src/coreComponents/codingUtilities/Table.cpp:170-185 | widening adds the extra width to every column's widest string and the column margin once more to the last |
| `TableLayout.WideningCoversTitle` | src/coreComponents/codingUtilities/Table.cpp:160-186 | with the quotient rounded up, the widened section line is at least as long as the title line |
| `TableLayout.WideningAsWrittenFallsShort` | src/coreComponents/codingUtilities/Table.cpp:167-168 | as written, seven one-character columns under a title line six characters longer than the 41-character section line get no extra width and end one character short |
| `TableLayout.SeparatorPartsLength` | src/coreComponents/codingUtilities/Table.cpp:216-233 | with several columns, the separator parts of the first `k` columns add up to the widths plus the border and column margins, and two more on the last |
| `TableLayout.SeparatorLength` | src/coreComponents/codingUtilities/Table.cpp:208-235 | the section separator is as long as the section line plus its two corners (or the one-column formula), and the top separator has the same length and a `+` at each end |
| `TableLayout.TitleFits` | src/coreComponents/codingUtilities/Table.cpp:188-207 | once the columns are widened as intended, the title row's inner width leaves room for the whole title line |
| `TableLayout.SectionLines` | src/coreComponents/codingUtilities/Table.cpp:253-288 | a section has one line per row, each built from its cells and borders |
| `TableLayout.RowCellsLength` | src/coreComponents/codingUtilities/Table.cpp:256-278 | the cells and inner borders of a row whose cells fit are as long as the column widths plus one column margin between each two columns |
| `TableLayout.RowLineMatchesSeparator` | src/coreComponents/codingUtilities/Table.cpp:253-287 | every row whose cells fit is exactly one character, its newline, longer than the section separator and is a single line, so the frame closes |
| `TableLayout.RowLineIsOneLine` | src/coreComponents/codingUtilities/Table.cpp:255-286 | a drawn row holds exactly one `'\n'` |
| `TableLayout.StoredRows` | src/coreComponents/codingUtilities/Table.cpp:67-82 | `addRowsFromVectors` stores one row per given row, each without the cells of disabled columns |
| `TableLayout.RowAppended` | src/coreComponents/codingUtilities/Table.cpp:295-304 | each stored row appends its cell to the end of every column's values, in order |
| `TableLayout.TitleRowFrame` | src/coreComponents/codingUtilities/Table.cpp:238-246 | a title that fits gives a title line of the top separator's length between two `'\n'` |
| `TableLayout.LongestCovers` | src/coreComponents/codingUtilities/Table.cpp:135-158 | the widest string of a column is no shorter than any of its header lines and any of its stored values |
| `TableLayout.DrawnColumn` | src/coreComponents/codingUtilities/Table.cpp:306-321 | before the separator is built, each column holds its padded split header lines, its values followed by its cells of every stored row, and the first longest of those strings |
| `TableLayout.ColumnFits` | src/coreComponents/codingUtilities/Table.cpp:306-321 | each drawn column has `largestHeaderVectorSize` header lines and a value per stored row, every header line fits its widest string, and the values do too when none holds a `'\n'` |
| `TableLayout.WidenedKeepsFit` | src/coreComponents/codingUtilities/Table.cpp:160-186 | widening only lengthens the widest strings, so cells that fitted still fit |
| `TableLayout.FramedKeepsFit` | src/coreComponents/codingUtilities/Table.cpp:188-207 | cells that fitted before `computeAndBuildSeparator` still fit after it |
| `TableLayout.FramedShape` | src/coreComponents/codingUtilities/Table.cpp:188-207 | `computeAndBuildSeparator` keeps every header row and value row |
| `TableLayout.RowsCloseWhenFit` | src/coreComponents/codingUtilities/Table.cpp:248-293 | when every cell of the first `n` rows fits, each of those rows closes the frame |
| `TableLayout.DrawnFrameCloses` | src/coreComponents/codingUtilities/Table.cpp:306-336 | every header line `draw` writes, and every value line when no value holds a `'\n'`, is as long as the separator lines, and the centred title fits between the title row's borders |
| `TableLayout.DrawingPieces` | src/coreComponents/codingUtilities/Table.cpp:324-333 | the output is the title rows (none for an empty title), then the separator line, the header section and the value section, then a newline |
| `TableLayout.DrawStages` | src/coreComponents/codingUtilities/Table.cpp:317-321 | filling keeps every column's parameter and header splits, padding leaves every column a header line and a value per stored row, and the widest strings are those of the padded columns |
| `TableLayout.DrawnColumnsShape` | src/coreComponents/codingUtilities/Table.cpp:317-321 | every drawn column has `largestHeaderVectorSize` header lines and a value for every stored row |
| `Table.Table.FromHeaders` | src/coreComponents/codingUtilities/Table.cpp:43-51 | the table has one centred, enabled column per header, no rows, no title, and the medium margins |
| `Table.Table.FromParams` | src/coreComponents/codingUtilities/Table.cpp:53-65 | the table has the enabled column parameters as its columns, in order, with no rows, no title, and the medium margins |
| `Table.Table.SetMargin` | src/coreComponents/codingUtilities/Table.cpp:129-133 | the border margin becomes the given value and the column margin twice it plus one, and nothing else changes |
| `Table.Table.SetTitle` | src/coreComponents/codingUtilities/Table.cpp:119-122 | only the title changes |
| `Table.Table.GetTitle` | src/coreComponents/codingUtilities/Table.cpp:124-127 | returns the stored title |
| `Table.Table.AddRowsFromVectors` | src/coreComponents/codingUtilities/Table.cpp:67-82 | appends every given row, without its cells in disabled columns, after the stored rows, and nothing else changes |
| `Table.Table.GetLines` | src/coreComponents/codingUtilities/Table.cpp:89-96 | the `getline` loop collects exactly the lines of `SplitLines` |
| `Table.Table.ParseAndStoreHeaderSections` | src/coreComponents/codingUtilities/Table.cpp:84-103 | appends every column's split first header name and raises the largest count to the tallest split |
| `Table.Table.AdjustHeaderSizesAndStore` | src/coreComponents/codingUtilities/Table.cpp:105-117 | every column's header lines become its split lines padded with `" "` lines up to the largest count; rows, title and margins are unchanged |
| `Table.Table.FindAndSetMaxStringSize` | src/coreComponents/codingUtilities/Table.cpp:135-158 | every column's widest string becomes the first longest of its header lines and its values for the stored rows |
| `Table.Table.LongestCell` | src/coreComponents/codingUtilities/Table.cpp:140-155 | the longest header line, replaced by a value only when strictly longer, is the first longest string of the header lines then the values |
| `Table.Table.ComputeAndSetMaxStringSize` | src/coreComponents/codingUtilities/Table.cpp:160-186 | as corrected (see Findings): every column is widened by the title line's excess shared out and rounded up, the last also by the column margin |
| `Table.Table.FrameTitle` | src/coreComponents/codingUtilities/Table.cpp:188-207 | as corrected (see Findings): the title is centred over its title line and the columns are widened only when the section line is shorter than the title line |
| `Table.Table.ComputeAndBuildSeparator` | src/coreComponents/codingUtilities/Table.cpp:188-236 | as corrected (see Findings): after centring and widening, the section separator is appended and the top separator is the dashed line of the same length |
| `Table.Table.SectionWidth` | src/coreComponents/codingUtilities/Table.cpp:190-203 | the section line length is the sum of the column widths plus the inner column margins and two border margins |
| `Table.Table.BuildSeparator` | src/coreComponents/codingUtilities/Table.cpp:208-234 | the loop appends exactly the separator `Separator` describes, for one column and for several |
| `Table.Table.BuildSectionRows` | src/coreComponents/codingUtilities/Table.cpp:248-293 | appends one line per row of the section and then the separator line unless there were no rows |
| `Table.Table.BuildRowLine` | src/coreComponents/codingUtilities/Table.cpp:255-286 | one row is the left border, the cells and inner borders, and the right border with its newline |
| `Table.Table.BuildRowCells` | src/coreComponents/codingUtilities/Table.cpp:256-278 | the inner loop appends each cell laid out in its column's width and alignment, with a centred `|` between columns |
| `Table.Table.FillColumnsValuesFromCellsRows` | src/coreComponents/codingUtilities/Table.cpp:295-304 | every column gets its cell of every stored row appended to its values, in row order |
| `Table.Table.SizeColumns` | src/coreComponents/codingUtilities/Table.cpp:313-321 | the sizing stages of `draw` leave the drawn columns and return the header line count |
| `Table.Table.Render` | src/coreComponents/codingUtilities/Table.cpp:324-333 | the output is the title row when there is a title, the separator line, the header and value sections and a final newline |
| `Table.Table.Draw` | src/coreComponents/codingUtilities/Table.cpp:306-336 | as corrected (see Findings): `draw` writes the drawing of its framed, drawn columns with the centred title, and leaves a header row and a value row in every column for each line it writes |
| `BlockVectorView.BlockVectorView.constructor` | src/coreComponents/linearAlgebra/utilities/BlockVectorView.hpp:256-258 | the view holds the given blocks, the vectors `setPointer` installs in its `nBlocks` slots |
| `BlockVectorView.BlockVectorView.BlockSize` | src/coreComponents/linearAlgebra/utilities/BlockVectorView.hpp:428-432 | the block size is the number of stored blocks |
| `BlockVectorView.BlockVectorView.GlobalSize` | src/coreComponents/linearAlgebra/utilities/BlockVectorView.hpp:434-443 | the loop sums the global sizes of all blocks |
| `BlockVectorView.BlockVectorView.LocalSize` | src/coreComponents/linearAlgebra/utilities/BlockVectorView.hpp:445-454 | the loop sums the local sizes of all blocks |
| `BlockVectorView.BlockVectorView.Dot` | src/coreComponents/linearAlgebra/utilities/BlockVectorView.hpp:343-353 | the accumulated blockwise dot products equal the sum over blocks of each block's dot product |
| `BlockVectorView.BlockVectorView.Norm2Squared` | src/coreComponents/linearAlgebra/utilities/BlockVectorView.hpp:367-377 | before the final square root, the accumulator holds the sum of the squared block norms |
| `BlockVectorView.BlockVectorView.NormInf` | src/coreComponents/linearAlgebra/utilities/BlockVectorView.hpp:379-388 | the running `fmax` from 0 is the largest block inf-norm |
| `BlockVectorView.BlockVectorView.Copy` | src/coreComponents/linearAlgebra/utilities/BlockVectorView.hpp:297-305 | every block takes the source block's entries and keeps its own global size; the block count is unchanged |
| `BlockVectorView.BlockVectorView.Scale` | src/coreComponents/linearAlgebra/utilities/BlockVectorView.hpp:307-314 | every entry of every block is multiplied by the factor |
| `BlockVectorView.BlockVectorView.Set` | src/coreComponents/linearAlgebra/utilities/BlockVectorView.hpp:325-332 | every entry of every block becomes the value |
| `BlockVectorView.BlockVectorView.Zero` | src/coreComponents/linearAlgebra/utilities/BlockVectorView.hpp:316-323 | every entry of every block becomes 0 |
| `BlockVectorView.BlockVectorView.Axpy` | src/coreComponents/linearAlgebra/utilities/BlockVectorView.hpp:390-399 | every block becomes `alpha*x + this`, computed from the values before the call even when `x` is this view |
| `BlockVectorView.BlockVectorView.Axpby` | src/coreComponents/linearAlgebra/utilities/BlockVectorView.hpp:401-411 | every block becomes `alpha*x + beta*this` |
| `BlockVectorView.BlockVectorView.Axpbypcz` | src/coreComponents/linearAlgebra/utilities/BlockVectorView.hpp:413-426 | every block becomes `alpha*x + beta*y + gamma*this` |
| `BlockVectorView.LocalSizeIsFlatLength` | src/coreComponents/linearAlgebra/utilities/BlockVectorView.hpp:445-454 | the local size is the length of all local entries laid end to end, and no block is longer than it |
| `BlockVectorView.BlocksDotIsFlatDot` | src/coreComponents/linearAlgebra/utilities/BlockVectorView.hpp:343-353 | the block dot product is the dot product of the concatenated vectors |
| `BlockVectorView.BlocksNorm2IsFlatNorm2` | src/coreComponents/linearAlgebra/utilities/BlockVectorView.hpp:367-377 | the squared block 2-norm is the squared 2-norm of the concatenated vector and is never negative, so its square root exists |
| `BlockVectorView.VecNormInfMeaning` | src/coreComponents/linearAlgebra/utilities/BlockVectorView.hpp:132-136 | a vector's inf-norm is non-negative, bounds every entry's magnitude and is 0 or some entry's magnitude |
| `BlockVectorView.BlocksNormInfIsFlatNormInf` | src/coreComponents/linearAlgebra/utilities/BlockVectorView.hpp:379-388 | the block inf-norm is the inf-norm of the concatenated vector: non-negative and at least every entry's magnitude |
| `BlockVectorView.ScaledBlocksFlatten` | src/coreComponents/linearAlgebra/utilities/BlockVectorView.hpp:307-314 | scaling block by block is scaling the concatenated vector, and keeps every block's local and global size |
| `BlockVectorView.SetBlocksFlatten` | src/coreComponents/linearAlgebra/utilities/BlockVectorView.hpp:325-332 | setting block by block sets every entry of the concatenated vector, and keeps every block's local size |
| `BlockVectorView.ZeroedNorms` | src/coreComponents/linearAlgebra/utilities/BlockVectorView.hpp:316-323 | after `zero` both the inf-norm and the 2-norm are 0 |
| `BlockVectorView.AxpbyBlocksFlatten` | src/coreComponents/linearAlgebra/utilities/BlockVectorView.hpp:401-411 | `axpby` block by block is `axpby` on the concatenated vectors, and keeps every block's local size |
| `BlockVectorView.AxpbypczBlocksFlatten` | src/coreComponents/linearAlgebra/utilities/BlockVectorView.hpp:413-426 | `axpbypcz` block by block is `axpbypcz` on the concatenated vectors, and keeps every block's local size |
| `DenseSolvers.SolveTwoByTwo` | src/coreComponents/denseLinearAlgebra/denseLASolvers.hpp:56-68 | the solver fails exactly when the determinant's magnitude is below machine epsilon, and otherwise returns two values that solve the system |
| `DenseSolvers.SolveThreeByThreeAsWritten` | src/coreComponents/denseLinearAlgebra/denseLASolvers.hpp:91-118 | the written 3x3 solver fails exactly when the determinant's magnitude is below machine epsilon, and otherwise returns three values |
| `DenseSolvers.ThreeByThreeAsWrittenCounterexample` | src/coreComponents/denseLinearAlgebra/denseLASolvers.hpp:107-114 | for the identity with an extra 1 at row 0, column 1 and `b = (1, 1, 1)`, the written numerators give `(0, 0, 1)`, which does not solve the system; `(0, 1, 1)` does |
| `DenseSolvers.SolveThreeByThree` | src/coreComponents/denseLinearAlgebra/denseLASolvers.hpp:91-118 | the intended 3x3 solver fails exactly when the determinant's magnitude is below machine epsilon, and otherwise returns, in each entry, the determinant with that column replaced by `b` over the determinant |
| `DenseSolvers.ThreeByThreeSolves` | src/coreComponents/denseLinearAlgebra/denseLASolvers.hpp:91-118 | whenever the intended 3x3 solver succeeds, its result solves the system |
| `DenseSolvers.RowRemainder` | src/coreComponents/denseLinearAlgebra/denseLASolvers.hpp:142-146 | the inner loop leaves `b[i]` less the products of row `i` with the already computed entries after `i` |
| `DenseSolvers.BackSubstitutionStep` | src/coreComponents/denseLinearAlgebra/denseLASolvers.hpp:140-148 | setting `x[i]` to the remainder over the diagonal solves row `i` and keeps the rows below it solved |
| `DenseSolvers.SolveUpperTriangularSystem` | src/coreComponents/denseLinearAlgebra/denseLASolvers.hpp:138-149 | with every diagonal entry nonzero, back substitution leaves an `x` that satisfies every equation read from the upper triangle |
| `DenseSolvers.UpperTriangularSolves` | src/coreComponents/denseLinearAlgebra/denseLASolvers.hpp:138-149 | with zeros below the diagonal, satisfying every equation on the upper triangle solves the whole system |
| `DenseSolvers.PivotUpTo` | src/coreComponents/denseLinearAlgebra/denseLASolvers.hpp:185-192 | the row the scan settles on after rows `i` to `k - 1` lies in that range, its entry in column `i` has the largest magnitude there, and every row before it is strictly smaller, so ties keep the first |
| `DenseSolvers.FindPivot` | src/coreComponents/denseLinearAlgebra/denseLASolvers.hpp:185-192 | the loop returns the row `PivotUpTo` names for the whole column, so the pivot row is at or below `i`, has the largest magnitude and is the first such row |
| `DenseSolvers.SwapRowTails` | src/coreComponents/denseLinearAlgebra/denseLASolvers.hpp:194-199 | the two rows exchange their entries from column `i` on, and the two right-hand sides are exchanged |
| `DenseSolvers.FullSwap` | src/coreComponents/denseLinearAlgebra/denseLASolvers.hpp:194-199 | with zeros below the diagonal before column `i`, the tail exchange is a full row exchange and keeps those zeros |
| `DenseSolvers.SwapKeepsSolutions` | src/coreComponents/denseLinearAlgebra/denseLASolvers.hpp:194-199 | exchanging two equations keeps exactly the same solutions |
| `DenseSolvers.ReduceRow` | src/coreComponents/denseLinearAlgebra/denseLASolvers.hpp:206-211 | row `k` from column `i` on, and `b[k]`, become themselves less `scaling` times row `i` and `b[i]`; nothing else changes |
| `DenseSolvers.EliminateBelow` | src/coreComponents/denseLinearAlgebra/denseLASolvers.hpp:204-212 | every row below `i` is reduced by its own multiple of row `i`, taken before the row is updated |
| `DenseSolvers.FullElimination` | src/coreComponents/denseLinearAlgebra/denseLASolvers.hpp:204-212 | with zeros before column `i` in row `i`, the elimination from column `i` on is the whole-row elimination |
| `DenseSolvers.EliminationKeepsSolutions` | src/coreComponents/denseLinearAlgebra/denseLASolvers.hpp:204-212 | subtracting multiples of equation `i` from the equations below it keeps exactly the same solutions |
| `DenseSolvers.EliminationZeroesColumn` | src/coreComponents/denseLinearAlgebra/denseLASolvers.hpp:204-212 | after the elimination every entry below the pivot is zero, the earlier zeros below the diagonal stay, and rows up to `i` are unchanged |
| `DenseSolvers.ColumnStep` | src/coreComponents/denseLinearAlgebra/denseLASolvers.hpp:185-212 | one column on values, once some entry at or below the diagonal reaches epsilon: the square matrix it leaves has a pivot of magnitude at least epsilon |
| `DenseSolvers.FailureIsFinal` | src/coreComponents/denseLinearAlgebra/denseLASolvers.hpp:201 | once a column has failed the abort stands: no later column count succeeds |
| `DenseSolvers.ColumnFails` | src/coreComponents/denseLinearAlgebra/denseLASolvers.hpp:185-201 | a column whose entries at and below the diagonal all fall below epsilon, once the earlier columns are done, makes the elimination fail at that column |
| `DenseSolvers.EliminateColumn` | src/coreComponents/denseLinearAlgebra/denseLASolvers.hpp:183-213 | one column of step 1 keeps the solutions of the system; it fails exactly when no entry at or below the diagonal reaches epsilon, and on success leaves the matrix `ColumnStep` gives, with column `i` added to the zeros below the diagonal and a pivot of magnitude at least epsilon |
| `DenseSolvers.Triangularize` | src/coreComponents/denseLinearAlgebra/denseLASolvers.hpp:183-213 | step 1 fails exactly when the elimination on values fails, keeps the solutions, and on success leaves the matrix the value stages give, upper triangular with every pivot at least epsilon |
| `DenseSolvers.BackSubstitute` | src/coreComponents/denseLinearAlgebra/denseLASolvers.hpp:215-216 | on an upper triangular matrix with every pivot at least epsilon, step 2 leaves an `x` that solves the system |
| `DenseSolvers.SolveGaussianElimination` | src/coreComponents/denseLinearAlgebra/denseLASolvers.hpp:172-217 | it fails exactly when the elimination on values fails (some column's pivot falls below epsilon); on success `x` solves the original system and the matrix left behind is upper triangular with pivots of magnitude at least epsilon |
| `DenseSolvers.Solve` | src/coreComponents/denseLinearAlgebra/denseLASolvers.hpp:243-281 | as corrected (see Findings): on success `x` solves the original system; for 2x2 and 3x3 systems success is exactly a determinant of magnitude at least epsilon, and `A` and `b` are left unchanged; for other sizes success is exactly the success of the elimination on values |
| `GlobalAssembly.GatherAt` | src/coreComponents/physicsSolvers/simplePDE/PhaseFieldPressurizedDamageFEMKernels.hpp:176-184 | the gathered entry of support point `a` is the three components of the field at its node |
| `GlobalAssembly.PickAt` | src/coreComponents/physicsSolvers/simplePDE/PhaseFieldPressurizedDamageFEMKernels.hpp:185-188 | the picked entry of support point `a` is the field's value at its node |
| `GlobalAssembly.AddToRowAddsColumnTotals` | src/coreComponents/physicsSolvers/simplePDE/PhaseFieldPressurizedDamageFEMKernels.hpp:297-300 | adding a local row leaves every pattern column with its old value plus the sum of the values given for it, in any order, and never changes the pattern |
| `GlobalAssembly.AddToRowAppend` | src/coreComponents/physicsSolvers/simplePDE/PhaseFieldPressurizedDamageFEMKernels.hpp:297-300 | two additions one after the other add the concatenated lists |
| `GlobalAssembly.ScatterRhsAddsRowTotals` | src/coreComponents/physicsSolvers/simplePDE/PhaseFieldPressurizedDamageFEMKernels.hpp:293-304 | each of this rank's right-hand-side rows gains exactly the residuals aimed at it, added and never overwritten, and every other entry is untouched |
| `GlobalAssembly.RowTotalOfDistinct` | src/coreComponents/physicsSolvers/simplePDE/PhaseFieldPressurizedDamageFEMKernels.hpp:293-304 | with distinct DOFs a row gains the one residual aimed at it, or nothing |
| `GlobalAssembly.ScatterMatrixTouchesOnlyTargets` | src/coreComponents/physicsSolvers/simplePDE/PhaseFieldPressurizedDamageFEMKernels.hpp:293-304 | only the matrix rows some in-range local row aims at change, and no row's pattern changes |
| `GlobalAssembly.ScatterRhsOne` | src/coreComponents/physicsSolvers/simplePDE/PhaseFieldPressurizedDamageFEMKernels.hpp:295-302 | one local row is added at its row when its DOF less the rank offset is one of this rank's rows, and dropped otherwise |
| `GlobalAssembly.ScatterMatrixOne` | src/coreComponents/physicsSolvers/simplePDE/PhaseFieldPressurizedDamageFEMKernels.hpp:295-300 | one local Jacobian row is added to its matrix row when in range, and dropped otherwise |
| `GlobalAssembly.MaxForceIsMax` | src/coreComponents/physicsSolvers/simplePDE/PhaseFieldPressurizedDamageFEMKernels.hpp:291-306 | `maxForce` is never negative, no smaller than any in-range residual magnitude, and 0 or one of them; out-of-range rows never enter it |
| `PhaseFieldDamage.NewStack` | src/coreComponents/physicsSolvers/simplePDE/PhaseFieldPressurizedDamageFEMKernels.hpp:140-145 | the stack constructor leaves the base part as the base constructor does and `numNodesPerElem` zeros of nodal damage |
| `PhaseFieldDamage.SetupStackMeaning` | src/coreComponents/physicsSolvers/simplePDE/PhaseFieldPressurizedDamageFEMKernels.hpp:173-190 | after `setup`, for each node of the element the row and the column DOF are both the node's DOF number, the local damage is the node's damage, the local displacement is its three components, and the residual and Jacobian storage is as before |
| `PhaseFieldDamage.Setup` | src/coreComponents/physicsSolvers/simplePDE/PhaseFieldPressurizedDamageFEMKernels.hpp:173-190 | the loop over the element's nodes leaves exactly the stack `setup` specifies |
| `PhaseFieldDamage.LocalDissipationMeaning` | src/coreComponents/physicsSolvers/simplePDE/PhaseFieldPressurizedDamageFEMKernels.hpp:229-234 | with dissipation option 1, `D` is the larger of the energy threshold and the strain energy density; with any other option it is 0 |
| `PhaseFieldDamage.Complete` | src/coreComponents/physicsSolvers/simplePDE/PhaseFieldPressurizedDamageFEMKernels.hpp:287-307 | every in-range local row adds its Jacobian row at the column DOFs and its residual, rows outside this rank are skipped, and the returned `maxForce` is the largest in-range residual magnitude |
| `PhaseFieldDamage.CompleteRhsWithDistinctDofs` | src/coreComponents/physicsSolvers/simplePDE/PhaseFieldPressurizedDamageFEMKernels.hpp:293-304 | with distinct row DOFs, each in-range residual is added to exactly its own global row and every row no local row aims at keeps its value |
| `PoromechanicsDamage.SmallStrainUpdate` | src/coreComponents/physicsSolvers/multiphysics/poromechanicsKernels/SinglePhasePoromechanicsDamage_impl.hpp:128-147 | the fluid mass increment is always recomputed, and the body force is recomputed only when the gravity magnitude is positive; otherwise it keeps what the stack held |
| `PoromechanicsDamage.MixtureDensityBetween` | src/coreComponents/physicsSolvers/multiphysics/poromechanicsKernels/SinglePhasePoromechanicsDamage_impl.hpp:167 | for a porosity in [0, 1] the mixture density lies between the solid and the fluid density |
| `PoromechanicsDamage.MixtureDensityVolStrainDerivativeExact` | src/coreComponents/physicsSolvers/multiphysics/poromechanicsKernels/SinglePhasePoromechanicsDamage_impl.hpp:167-168 | moving the porosity along its volumetric-strain derivative by `h` changes the mixture density by exactly `h` times `dMixtureDens_dVolStrainIncrement` |
| `PoromechanicsDamage.MixtureDensityPressureDerivative` | src/coreComponents/physicsSolvers/multiphysics/poromechanicsKernels/SinglePhasePoromechanicsDamage_impl.hpp:167-172 | moving pressure by `h` changes the mixture density by `h` times `dMixtureDens_dPressure` plus a term of order `h^2` only |
| `PoromechanicsDamage.FluidIncrementZeroWhenUnchanged` | src/coreComponents/physicsSolvers/multiphysics/poromechanicsKernels/SinglePhasePoromechanicsDamage_impl.hpp:195 | with porosity and fluid density unchanged since the last step, the fluid mass increment is 0 |
| `PoromechanicsDamage.FluidIncrementVolStrainDerivativeExact` | src/coreComponents/physicsSolvers/multiphysics/poromechanicsKernels/SinglePhasePoromechanicsDamage_impl.hpp:195-196 | the fluid mass increment moves by exactly `h` times its volumetric-strain derivative |
| `PoromechanicsDamage.FluidIncrementPressureDerivative` | src/coreComponents/physicsSolvers/multiphysics/poromechanicsKernels/SinglePhasePoromechanicsDamage_impl.hpp:195-197 | the fluid mass increment moves by `h` times its pressure derivative plus a term of order `h^2` only |
| `PoromechanicsDamage.DisplacementDofsAt` | src/coreComponents/physicsSolvers/multiphysics/poromechanicsKernels/SinglePhasePoromechanicsDamage_impl.hpp:374-388 | local DOF `3a + i` is component `i` of node `a`'s DOF block |
| `PoromechanicsDamage.SetupStackMeaning` | src/coreComponents/physicsSolvers/multiphysics/poromechanicsKernels/SinglePhasePoromechanicsDamage_impl.hpp:365-391 | after `setup`, row and column indices are one list with entry `j` the DOF of component `j % 3` of node `j / 3`, the local displacements and increments are the nodes' three components, the pressure DOF is the element's, and the local system is as before |
| `PoromechanicsDamage.DisplacementDofsDistinct` | src/coreComponents/physicsSolvers/multiphysics/poromechanicsKernels/SinglePhasePoromechanicsDamage_impl.hpp:374-388 | when distinct support points own disjoint blocks of three DOFs, the element's displacement DOFs are pairwise distinct |
| `PoromechanicsDamage.Setup` | src/coreComponents/physicsSolvers/multiphysics/poromechanicsKernels/SinglePhasePoromechanicsDamage_impl.hpp:365-391 | the two nested loops leave exactly the stack `setup` specifies |
| `PoromechanicsDamage.CompleteRhsMeaning` | src/coreComponents/physicsSolvers/multiphysics/poromechanicsKernels/SinglePhasePoromechanicsDamage_impl.hpp:476-523 | each of this rank's rows gains the momentum residuals aimed at it plus the mass residual when it is the pressure row; rows past `numRows` are untouched, and values are added, never overwritten |
| `PoromechanicsDamage.CompleteMatrixTouchesOnlyTargets` | src/coreComponents/physicsSolvers/multiphysics/poromechanicsKernels/SinglePhasePoromechanicsDamage_impl.hpp:476-523 | a matrix row no displacement DOF and not the pressure DOF aims at is untouched, and no row's sparsity pattern changes |
| `PoromechanicsDamage.CompleteMaxIsMax` | src/coreComponents/physicsSolvers/multiphysics/poromechanicsKernels/SinglePhasePoromechanicsDamage_impl.hpp:480-501 | `complete` returns the largest in-range momentum residual magnitude from 0, attained unless 0; the mass residual never enters it |
| `PoromechanicsDamage.ScatterMomentumRows` | src/coreComponents/physicsSolvers/multiphysics/poromechanicsKernels/SinglePhasePoromechanicsDamage_impl.hpp:485-507 | each in-range momentum row adds its Jacobian row at the displacement DOFs, its residual, and its pressure entry, while the largest residual magnitude is tracked |
| `PoromechanicsDamage.ScatterMassRow` | src/coreComponents/physicsSolvers/multiphysics/poromechanicsKernels/SinglePhasePoromechanicsDamage_impl.hpp:509-521 | the mass row is added at the displacement DOFs and the pressure DOF, with its residual, only when the pressure DOF is one of this rank's rows |
| `PoromechanicsDamage.Complete` | src/coreComponents/physicsSolvers/multiphysics/poromechanicsKernels/SinglePhasePoromechanicsDamage_impl.hpp:476-523 | the momentum rows and then the mass row are scattered as specified, and the momentum maximum is returned |
| `PoromechanicsDamage.IntegrateShaped` | src/coreComponents/physicsSolvers/multiphysics/poromechanicsKernels/SinglePhasePoromechanicsDamage_impl.hpp:546-549 | running the quadrature kernel at every point keeps the stack's array sizes |
| `PoromechanicsDamage.LaunchMaxIsMax` | src/coreComponents/physicsSolvers/multiphysics/poromechanicsKernels/SinglePhasePoromechanicsDamage_impl.hpp:538-552 | the launcher returns the largest value any element's `complete` returned, or 0 when there are no elements |
| `PoromechanicsDamage.KernelLaunch` | src/coreComponents/physicsSolvers/multiphysics/poromechanicsKernels/SinglePhasePoromechanicsDamage_impl.hpp:532-553 | for each element in turn a fresh stack, `setup`, the quadrature points in ascending order and `complete`; the right-hand side, the matrix and the max-reduction end as the element-by-element specification says |
| `ElasticWaveSEM.SymTimesIsSelfAdjoint` | src/coreComponents/physicsSolvers/wavePropagation/ElasticWaveEquationSEMKernel.hpp:160 | the Voigt-stored moment that `Ri_add_symAijBj` applies is a symmetric operator: moving it across a dot product does not change the product |
| `ElasticWaveSEM.SourceIncrement` | src/coreComponents/physicsSolvers/wavePropagation/ElasticWaveEquationSEMKernel.hpp:154-160 | a node's source term is the force weighted by its shape function when the moment is zero, and the moment applied to its shape-function gradient when the force is zero |
| `ElasticWaveSEM.RegisterSourceRowShaped` | src/coreComponents/physicsSolvers/wavePropagation/ElasticWaveEquationSEMKernel.hpp:145-170 | registering a source keeps every source array's shape |
| `ElasticWaveSEM.SourceRowOfRegister` | src/coreComponents/physicsSolvers/wavePropagation/ElasticWaveEquationSEMKernel.hpp:145-170 | registering source `j` changes only source `j`'s row, to the element's registration |
| `ElasticWaveSEM.SourceRowOfUpTo` | src/coreComponents/physicsSolvers/wavePropagation/ElasticWaveEquationSEMKernel.hpp:109-173 | in one element's sweep, source `i` is taken by the element exactly when its flag is still 0 and the element locates it; otherwise its row is untouched |
| `ElasticWaveSEM.SourcesAfterRows` | src/coreComponents/physicsSolvers/wavePropagation/ElasticWaveEquationSEMKernel.hpp:97-173 | over the whole launch, a source whose flag was 0 is taken by the first element that locates it and holds that element's node ids, summed source terms and wavelet values; any other source keeps its row |
| `ElasticWaveSEM.SourcesAfterColumns` | src/coreComponents/physicsSolvers/wavePropagation/ElasticWaveEquationSEMKernel.hpp:166-170 | every cycle's row of `sourceValue` keeps a column per source |
| `ElasticWaveSEM.SourceConstants` | src/coreComponents/physicsSolvers/wavePropagation/ElasticWaveEquationSEMKernel.hpp:152-164 | the node loop records the element's nodes as the source's node ids and adds each node's source term to the three constant rows |
| `ElasticWaveSEM.RegisterSource` | src/coreComponents/physicsSolvers/wavePropagation/ElasticWaveEquationSEMKernel.hpp:136-171 | the arrays end as the registration of the source by the element specifies, and keep their shapes |
| `ElasticWaveSEM.LocateSources` | src/coreComponents/physicsSolvers/wavePropagation/ElasticWaveEquationSEMKernel.hpp:109-173 | the sources loop of one element leaves the arrays as that element's sweep specifies |
| `ElasticWaveSEM.ReceiverWeights` | src/coreComponents/physicsSolvers/wavePropagation/ElasticWaveEquationSEMKernel.hpp:206-214 | a receiver gets one interpolation weight per node of its element |
| `ElasticWaveSEM.ReceiverRowOfUpTo` | src/coreComponents/physicsSolvers/wavePropagation/ElasticWaveEquationSEMKernel.hpp:180-217 | in one element's sweep, receiver `i` is taken exactly when its flag is still 0 and the element both locates it and is owned by this rank |
| `ElasticWaveSEM.ReceiversAfterRows` | src/coreComponents/physicsSolvers/wavePropagation/ElasticWaveEquationSEMKernel.hpp:97-219 | over the whole launch, a receiver whose flag was 0 is taken by the first owned element that locates it, with that element's node ids and shape functions; any other receiver keeps its row |
| `ElasticWaveSEM.LocateReceivers` | src/coreComponents/physicsSolvers/wavePropagation/ElasticWaveEquationSEMKernel.hpp:180-217 | the receivers loop of one element leaves the arrays as that element's sweep specifies |
| `ElasticWaveSEM.LocateAllSources` | src/coreComponents/physicsSolvers/wavePropagation/ElasticWaveEquationSEMKernel.hpp:97-173 | the sources part of the launch over all elements leaves the arrays as the full sweep specifies |
| `ElasticWaveSEM.LocateAllReceivers` | src/coreComponents/physicsSolvers/wavePropagation/ElasticWaveEquationSEMKernel.hpp:97-219 | the receivers part of the launch over all elements leaves the arrays as the full sweep specifies |
| `ElasticWaveSEM.PrecomputeSourceAndReceiver` | src/coreComponents/physicsSolvers/wavePropagation/ElasticWaveEquationSEMKernel.hpp:70-219 | the launch leaves the source arrays as the sources sweep specifies and the receiver arrays as the receivers sweep specifies |
| `ElasticWaveSEM.DampingElement` | src/coreComponents/physicsSolvers/wavePropagation/ElasticWaveEquationSEMKernel.hpp:323-327 | a face is damped with the element on its first side, or the second side's when the first is absent; it is non-negative if either side exists |
| `ElasticWaveSEM.DampingPairsStep` | src/coreComponents/physicsSolvers/wavePropagation/ElasticWaveEquationSEMKernel.hpp:318-363 | one more face adds its node increments along the axis when it is on the domain boundary and off the free surface, and nothing otherwise |
| `ElasticWaveSEM.DampingMatrixLaunch` | src/coreComponents/physicsSolvers/wavePropagation/ElasticWaveEquationSEMKernel.hpp:304-364 | each damping array gains, at every node of every damped face, the element's density times the axis impedance `Vp\|n_axis\| + Vs\|n off the axis\|` times the face term |
| `ElasticWaveSEM.DampingNeverDecreases` | src/coreComponents/physicsSolvers/wavePropagation/ElasticWaveEquationSEMKernel.hpp:318-363 | with non-negative densities, speeds and face terms, the launch never decreases any node's damping |
| `ElasticWaveSEM.UndampedNodeKeepsDamping` | src/coreComponents/physicsSolvers/wavePropagation/ElasticWaveEquationSEMKernel.hpp:321 | a node on no damped face, such as an interior node or one on the free surface only, keeps its damping |
| `ElasticWaveSEM.NewStack` | src/coreComponents/physicsSolvers/wavePropagation/ElasticWaveEquationSEMKernel.hpp:465-472 | the stack constructor zeroes the local coordinates and both Lame parameters |
| `ElasticWaveSEM.SetupStackMeaning` | src/coreComponents/physicsSolvers/wavePropagation/ElasticWaveEquationSEMKernel.hpp:483-497 | after `setup` the local coordinates are those of the element's nodes, `mu` is `density*Vs^2`, `lambda + 2 mu` is `density*Vp^2`, and a non-negative density gives a non-negative `mu` |
| `ElasticWaveSEM.Setup` | src/coreComponents/physicsSolvers/wavePropagation/ElasticWaveEquationSEMKernel.hpp:483-497 | the node loop and the two assignments leave exactly the stack `setup` specifies |
| `ElasticWaveSEM.SourceSweepStep` | src/coreComponents/physicsSolvers/wavePropagation/ElasticWaveEquationSEMKernel.hpp:97-171 | one more element moves a source's row from "registered by the first finder below `k`" to "registered by the first finder below `k + 1`" |
| `ElasticWaveSEM.DampingPairsNonnegative` | src/coreComponents/physicsSolvers/wavePropagation/ElasticWaveEquationSEMKernel.hpp:321-358 | physical media and non-negative face terms give non-negative damping additions over the faces |
| `ElasticWaveSEM.DampingPairsAvoid` | src/coreComponents/physicsSolvers/wavePropagation/ElasticWaveEquationSEMKernel.hpp:321-358 | a node on no damped face receives no damping addition |
| `WaveKernels.FirstFoundIsLeast` | src/coreComponents/physicsSolvers/wavePropagation/ElasticWaveEquationSEMKernel.hpp:97-111 | no element below `k` locates the target exactly when there is no first finder, and no element before the first finder locates it |
| `WaveKernels.FirstFoundIsStable` | src/coreComponents/physicsSolvers/wavePropagation/ElasticWaveEquationSEMKernel.hpp:97-111 | once an element has registered a target, later elements leave it with that element |
| `WaveKernels.RegistrationMeaning` | src/coreComponents/physicsSolvers/wavePropagation/ElasticWaveEquationSEMKernel.hpp:109-145 | element `e` registers a target exactly when its flag was 0, `e` locates it, and no earlier element does; nothing registers it exactly when its flag was nonzero or no element locates it |
| `WaveKernels.SourceValues` | src/coreComponents/physicsSolvers/wavePropagation/ElasticWaveEquationSEMKernel.hpp:166-170 | the cycle loop sets column `i` of every cycle's row of `sourceValue` to the wavelet at `cycle*dt` and changes nothing else |
| `WaveKernels.AddAtTotals` | src/coreComponents/physicsSolvers/wavePropagation/ElasticWaveEquationSEMKernel.hpp:270 | after the atomic additions every node ends with its initial value plus the sum of the increments aimed at it |
| `WaveKernels.AddAtOrderIndependent` | src/coreComponents/physicsSolvers/wavePropagation/ElasticWaveEquationSEMKernel.hpp:270 | the order in which two runs of atomic additions are applied does not change the nodal array |
| `WaveKernels.DampingIncrementNonnegative` | src/coreComponents/physicsSolvers/wavePropagation/ElasticWaveEquationSEMKernel.hpp:342-353 | a non-negative density, speeds and face term give a non-negative damping increment |
| `WaveKernels.AxisAlignedDamping` | src/coreComponents/physicsSolvers/wavePropagation/ElasticWaveEquationSEMKernel.hpp:342-353 | a face whose normal is a coordinate axis is damped by `density*Vp*term` along that axis and by `density*Vs*term` along the other two |
| `WaveKernels.LameMeaning` | src/coreComponents/physicsSolvers/wavePropagation/ElasticWaveEquationSEMKernel.hpp:495-496 | `mu` is `density*Vs^2` and `lambda + 2 mu` is `density*Vp^2`; a non-negative density gives a non-negative `mu` |
| `WaveKernels.FaceNodePairsAt` | src/coreComponents/physicsSolvers/wavePropagation/ElasticWaveEquationSEMKernel.hpp:340-358 | addition `q` of a face is at its `q`-th node with that node's increment |
| `WaveKernels.FacePairsNonnegative` | src/coreComponents/physicsSolvers/wavePropagation/ElasticWaveEquationSEMKernel.hpp:340-358 | a physical medium and a non-negative face term give non-negative additions |
| `WaveKernels.FacePairsAvoid` | src/coreComponents/physicsSolvers/wavePropagation/ElasticWaveEquationSEMKernel.hpp:340-358 | a node that is not a node of the face receives nothing from it |
| `WaveKernels.AddPair` | src/coreComponents/physicsSolvers/wavePropagation/ElasticWaveEquationSEMKernel.hpp:355-357 | one atomic `+=` leaves the array as one more addition in the specification |
| `WaveKernels.AddFaceNode` | src/coreComponents/physicsSolvers/wavePropagation/ElasticWaveEquationSEMKernel.hpp:340-358 | the addition at node `q` of a face extends the array's additions by that node's increment |
| `WaveKernels.AddFaceDamping` | src/coreComponents/physicsSolvers/wavePropagation/ElasticWaveEquationSEMKernel.hpp:340-358 | the node loop of a damped face adds the three damping increments at each of its nodes in turn |
| `WaveKernels.MassLaunchTotals` | src/coreComponents/physicsSolvers/wavePropagation/ElasticWaveEquationSEMKernel.hpp:252-272 | each node ends with its initial mass plus `density[k] * massTerm(k, q)` summed over every element `k` and quadrature point `q` mapped to it |
| `WaveKernels.MassNeverDecreases` | src/coreComponents/physicsSolvers/wavePropagation/ElasticWaveEquationSEMKernel.hpp:267-271 | with non-negative densities and mass terms no node's mass decreases |
| `WaveKernels.MassOfUnmappedNode` | src/coreComponents/physicsSolvers/wavePropagation/ElasticWaveEquationSEMKernel.hpp:267-271 | a node no quadrature point of the launched elements sits on keeps its mass |
| `WaveKernels.MassMatrixLaunch` | src/coreComponents/physicsSolvers/wavePropagation/ElasticWaveEquationSEMKernel.hpp:245-273 | the element loop leaves the mass array as the element-by-element additions specify |
| `WaveKernels.AddElementMass` | src/coreComponents/physicsSolvers/wavePropagation/ElasticWaveEquationSEMKernel.hpp:267-271 | the quadrature-point loop of one element adds its density times each point's mass term at the point's node |
| `WaveKernels.AddAtSnoc` | src/coreComponents/physicsSolvers/wavePropagation/ElasticWaveEquationSEMKernel.hpp:270 | one more atomic addition adds its increment at its node and nowhere else |
| `WaveKernels.AddAtAppend` | src/coreComponents/physicsSolvers/wavePropagation/ElasticWaveEquationSEMKernel.hpp:252-272 | two runs of atomic additions one after the other are the run of their concatenation |
| `WaveKernels.ContributionAppend` | src/coreComponents/physicsSolvers/wavePropagation/ElasticWaveEquationSEMKernel.hpp:252-272 | what a node receives from two runs is the sum of what it receives from each |
| `WaveKernels.ContributionOfUntouched` | src/coreComponents/physicsSolvers/wavePropagation/ElasticWaveEquationSEMKernel.hpp:270 | a node no addition aims at receives nothing |
| `WaveKernels.ContributionNonnegative` | src/coreComponents/physicsSolvers/wavePropagation/ElasticWaveEquationSEMKernel.hpp:270 | non-negative increments give a node a non-negative total |
| `WaveKernels.SqrtOfZeroAndOne` | src/coreComponents/physicsSolvers/wavePropagation/ElasticWaveEquationSEMKernel.hpp:342-353 | the square root of the off-axis components is 0 for a zero and 1 for a unit off-axis part |
| `WaveKernels.FacePairsInBounds` | src/coreComponents/physicsSolvers/wavePropagation/ElasticWaveEquationSEMKernel.hpp:340-358 | the additions of a damped face aim at nodes inside the damping arrays |
| `WaveKernels.ElementMassIsContribution` | src/coreComponents/physicsSolvers/wavePropagation/ElasticWaveEquationSEMKernel.hpp:267-271 | what one element's quadrature loop adds to node `i` is the element's mass for `i` |
| `WaveKernels.NodeMassIsContribution` | src/coreComponents/physicsSolvers/wavePropagation/ElasticWaveEquationSEMKernel.hpp:252-272 | what the element loop adds to node `i` is the mass of `i` summed over the elements |
| `WaveKernels.MassPairsNonnegative` | src/coreComponents/physicsSolvers/wavePropagation/ElasticWaveEquationSEMKernel.hpp:267-271 | non-negative densities and mass terms give non-negative mass additions |
| `WaveKernels.MassPairsAim` | src/coreComponents/physicsSolvers/wavePropagation/ElasticWaveEquationSEMKernel.hpp:270 | a node no quadrature point sits on is aimed at by no mass addition |
| `WaveKernels.MassPairsStep` | src/coreComponents/physicsSolvers/wavePropagation/ElasticWaveEquationSEMKernel.hpp:252-272 | element `k` appends its quadrature-point additions to those of the elements before it |
| `ElasticFirstOrderSEM.Register` | src/coreComponents/physicsSolvers/wavePropagation/ElasticFirstOrderWaveEquationSEMKernel.hpp:126-141 | a registration sets the target's flag to 1, records the element and region, copies the element's nodes and shape functions, and sets every cycle's wavelet value, changing no other target |
| `ElasticFirstOrderSEM.RowOfRegister` | src/coreComponents/physicsSolvers/wavePropagation/ElasticFirstOrderWaveEquationSEMKernel.hpp:126-141 | registering target `j` changes `j`'s row into its registered row and leaves every other row as it was |
| `ElasticFirstOrderSEM.RowOfUpTo` | src/coreComponents/physicsSolvers/wavePropagation/ElasticFirstOrderWaveEquationSEMKernel.hpp:102-145 | after element `k` has examined targets `0 .. m-1`, target `i` is registered by `k` exactly when `i < m`, its flag was 0 and `k` locates it; otherwise its row is unchanged |
| `ElasticFirstOrderSEM.LocateUpToColumns` | src/coreComponents/physicsSolvers/wavePropagation/ElasticFirstOrderWaveEquationSEMKernel.hpp:138-141 | the cycle rows keep one column per source through one element's loop |
| `ElasticFirstOrderSEM.LocatedAfterColumns` | src/coreComponents/physicsSolvers/wavePropagation/ElasticFirstOrderWaveEquationSEMKernel.hpp:93-190 | the cycle rows keep one column per source through the whole sweep |
| `ElasticFirstOrderSEM.SweepStep` | src/coreComponents/physicsSolvers/wavePropagation/ElasticFirstOrderWaveEquationSEMKernel.hpp:93-145 | one more element moves a target's row from "registered by the first finder below `k`" to "registered by the first finder below `k + 1`" |
| `ElasticFirstOrderSEM.LocatedAfterRows` | src/coreComponents/physicsSolvers/wavePropagation/ElasticFirstOrderWaveEquationSEMKernel.hpp:93-190 | after the sweep a target whose flag was 0 carries the registration of the first element that locates it; a target whose flag was nonzero, or which no element locates, keeps its row |
| `ElasticFirstOrderSEM.Owned` | src/coreComponents/physicsSolvers/wavePropagation/ElasticFirstOrderWaveEquationSEMKernel.hpp:167 | the receivers' sweep locates a receiver in `k` exactly when `k` locates it and its ghost rank is negative, with the same shape functions and region |
| `ElasticFirstOrderSEM.WriteTarget` | src/coreComponents/physicsSolvers/wavePropagation/ElasticFirstOrderWaveEquationSEMKernel.hpp:126-136 | the flag becomes 1, the element `k`, the region the sweep's region, and the node ids and constants the element's nodes and shape functions; only target `i` changes |
| `ElasticFirstOrderSEM.LocateSources` | src/coreComponents/physicsSolvers/wavePropagation/ElasticFirstOrderWaveEquationSEMKernel.hpp:102-145 | element `k`'s sources loop leaves the source table as `LocateUpTo` over all sources specifies |
| `ElasticFirstOrderSEM.LocateReceivers` | src/coreComponents/physicsSolvers/wavePropagation/ElasticFirstOrderWaveEquationSEMKernel.hpp:151-187 | element `k`'s receivers loop leaves the receiver table as `LocateUpTo` over all receivers with the ownership test specifies |
| `ElasticFirstOrderSEM.LocateAllSources` | src/coreComponents/physicsSolvers/wavePropagation/ElasticFirstOrderWaveEquationSEMKernel.hpp:93-145 | the sources part of the element loop leaves the source table as `LocatedAfter` specifies |
| `ElasticFirstOrderSEM.LocateAllReceivers` | src/coreComponents/physicsSolvers/wavePropagation/ElasticFirstOrderWaveEquationSEMKernel.hpp:93-190 | the receivers part of the element loop leaves the receiver table as `LocatedAfter` with the ownership test specifies |
| `ElasticFirstOrderSEM.PrecomputeSourceAndReceiver` | src/coreComponents/physicsSolvers/wavePropagation/ElasticFirstOrderWaveEquationSEMKernel.hpp:63-190 | the launch leaves the source table as the sources sweep and the receiver table as the owned receivers sweep specify |
| `ElasticFirstOrderSEM.ElementDampingPairs` | src/coreComponents/physicsSolvers/wavePropagation/ElasticFirstOrderWaveEquationSEMKernel.hpp:288-316 | an element's additions stay inside the node range |
| `ElasticFirstOrderSEM.ElementDampingStep` | src/coreComponents/physicsSolvers/wavePropagation/ElasticFirstOrderWaveEquationSEMKernel.hpp:288-316 | face `i` of element `e` adds its face's node increments when the face is damped, and nothing otherwise |
| `ElasticFirstOrderSEM.ElementDamping` | src/coreComponents/physicsSolvers/wavePropagation/ElasticFirstOrderWaveEquationSEMKernel.hpp:288-316 | as corrected (see Findings): the face loop of element `e` leaves each damping array as the element's additions along that axis specify |
| `ElasticFirstOrderSEM.ElementsDampingStep` | src/coreComponents/physicsSolvers/wavePropagation/ElasticFirstOrderWaveEquationSEMKernel.hpp:286-317 | element `e` appends its face additions to those of the elements before it |
| `ElasticFirstOrderSEM.DampingMatrixLaunch` | src/coreComponents/physicsSolvers/wavePropagation/ElasticFirstOrderWaveEquationSEMKernel.hpp:272-318 | as corrected (see Findings): the launch leaves each damping array as the additions of all elements along that axis specify |
| `ElasticFirstOrderSEM.ElementDampingPairsNonnegative` | src/coreComponents/physicsSolvers/wavePropagation/ElasticFirstOrderWaveEquationSEMKernel.hpp:305-314 | a physical medium and non-negative face terms give an element non-negative damping additions |
| `ElasticFirstOrderSEM.ElementsDampingPairsNonnegative` | src/coreComponents/physicsSolvers/wavePropagation/ElasticFirstOrderWaveEquationSEMKernel.hpp:286-317 | under the same conditions every element's additions are non-negative |
| `ElasticFirstOrderSEM.DampingNeverDecreasesByElement` | src/coreComponents/physicsSolvers/wavePropagation/ElasticFirstOrderWaveEquationSEMKernel.hpp:272-318 | with physical media and non-negative face terms no node's damping decreases |
| `ElasticFirstOrderSEM.ElementDampingPairsAvoid` | src/coreComponents/physicsSolvers/wavePropagation/ElasticFirstOrderWaveEquationSEMKernel.hpp:305-314 | a node on none of an element's damped faces receives nothing from that element |
| `ElasticFirstOrderSEM.ElementsDampingPairsAvoid` | src/coreComponents/physicsSolvers/wavePropagation/ElasticFirstOrderWaveEquationSEMKernel.hpp:286-317 | a node on no damped face of any element receives nothing |
| `ElasticFirstOrderSEM.UndampedNodeKeepsDampingByElement` | src/coreComponents/physicsSolvers/wavePropagation/ElasticFirstOrderWaveEquationSEMKernel.hpp:272-318 | a node on no damped face of any element keeps its damping |
| `ElasticFirstOrderSEM.AsWrittenDampingHasDensityTwice` | src/coreComponents/physicsSolvers/wavePropagation/ElasticFirstOrderWaveEquationSEMKernel.hpp:307-310 | the increment as written is the density times the one with the density taken once |
| `ElasticFirstOrderSEM.AsWrittenDampingCounterexample` | src/coreComponents/physicsSolvers/wavePropagation/ElasticFirstOrderWaveEquationSEMKernel.hpp:307-310 | density 2, `Vp` 1, `Vs` 0, a normal along x and face term 1 give 4 as written and 2 with the density taken once |
| `ElasticFirstOrderSEM.DampingScalesWithDensity` | src/coreComponents/physicsSolvers/wavePropagation/ElasticFirstOrderWaveEquationSEMKernel.hpp:307-310 | with the density taken once the damping scales linearly with the density, as the mass does; as written it scales with its square |
| `ElasticFirstOrderSEM.HookeMeaning` | src/coreComponents/physicsSolvers/wavePropagation/ElasticFirstOrderWaveEquationSEMKernel.hpp:1562-1571 | the stress rate's trace is `3 lambda + 2 mu` times the strain rate's trace, the deviatoric and shear parts carry `2 mu` and `mu`, and a uniaxial rate gives `lambda + 2 mu` along its axis and `lambda` across it |
| `ElasticFirstOrderSEM.IntegratedMeaning` | src/coreComponents/physicsSolvers/wavePropagation/ElasticFirstOrderWaveEquationSEMKernel.hpp:1512-1583 | multiplying by the mass term, adding `dt` times the rate and dividing by the mass term again is adding `dt / m` times the rate |
| `ElasticFirstOrderSEM.InjectedRowTotals` | src/coreComponents/physicsSolvers/wavePropagation/ElasticFirstOrderWaveEquationSEMKernel.hpp:1587-1603 | each node's three normal stresses gain the sum of the increments of the sources found in the element, and its shear stresses do not change |
| `ElasticFirstOrderSEM.NoSourceNoInjection` | src/coreComponents/physicsSolvers/wavePropagation/ElasticFirstOrderWaveEquationSEMKernel.hpp:1589-1591 | an element in which no local source was found gets no injection |
| `ElasticFirstOrderSEM.SweptSourceInjects` | src/coreComponents/physicsSolvers/wavePropagation/ElasticFirstOrderWaveEquationSEMKernel.hpp:1587-1591 | after the sources sweep, a source that was not local injects into element `k` of the region exactly when `k` is the first element that locates it |
| `ElasticFirstOrderSEM.ElementStressMeaning` | src/coreComponents/physicsSolvers/wavePropagation/ElasticFirstOrderWaveEquationSEMKernel.hpp:1481-1603 | each node's stress becomes the old stress plus `dt / m` times the isotropic stress rate with the element's Lame parameters, plus on the normal components the sum of the injected source increments |
| `ElasticFirstOrderSEM.InjectSources` | src/coreComponents/physicsSolvers/wavePropagation/ElasticFirstOrderWaveEquationSEMKernel.hpp:1587-1603 | the sources loop changes only element `k`'s row, into its injected row |
| `ElasticFirstOrderSEM.IntegrateStress` | src/coreComponents/physicsSolvers/wavePropagation/ElasticFirstOrderWaveEquationSEMKernel.hpp:1494-1583 | the loops before the sources set `mu[k]` and `lambda[k]` from the medium and change only element `k`'s stress row, into its integrated row |
| `ElasticFirstOrderSEM.StressElement` | src/coreComponents/physicsSolvers/wavePropagation/ElasticFirstOrderWaveEquationSEMKernel.hpp:1481-1603 | the kernel for element `k` changes only row `k`, into `ElementStress`, and sets `mu[k]`, `lambda[k]` |
| `ElasticFirstOrderSEM.StressComputation` | src/coreComponents/physicsSolvers/wavePropagation/ElasticFirstOrderWaveEquationSEMKernel.hpp:1453-1605 | every launched element's stress becomes its element update and its Lame parameters are set; rows past `size` keep their values |
| `ElasticFirstOrderSEM.ElementFlowContribution` | src/coreComponents/physicsSolvers/wavePropagation/ElasticFirstOrderWaveEquationSEMKernel.hpp:1715-1722 | what one element adds to node `a` is `dt` times the force its nodes put on `a`, divided by `a`'s mass |
| `ElasticFirstOrderSEM.FlowContribution` | src/coreComponents/physicsSolvers/wavePropagation/ElasticFirstOrderWaveEquationSEMKernel.hpp:1656-1723 | what all elements add to node `a` is `dt` times the total force on `a`, divided by its mass |
| `ElasticFirstOrderSEM.VelocityAt` | src/coreComponents/physicsSolvers/wavePropagation/ElasticFirstOrderWaveEquationSEMKernel.hpp:1649-1731 | at each node the three phases are the pre-damping, the force additions and the post-damping in that order |
| `ElasticFirstOrderSEM.VelocityMeaning` | src/coreComponents/physicsSolvers/wavePropagation/ElasticFirstOrderWaveEquationSEMKernel.hpp:1615-1735 | along each axis the change of a node's velocity is `dt` times its force over its mass less `dt/2 * damping / mass` times the old plus the new velocity |
| `ElasticFirstOrderSEM.UndampedVelocity` | src/coreComponents/physicsSolvers/wavePropagation/ElasticFirstOrderWaveEquationSEMKernel.hpp:1649-1731 | a node without damping just gains `dt` times its force over its mass |
| `ElasticFirstOrderSEM.DampingShrinks` | src/coreComponents/physicsSolvers/wavePropagation/ElasticFirstOrderWaveEquationSEMKernel.hpp:1649-1731 | with non-negative damping, positive mass and no gain in between, the two damping phases never increase a node's speed |
| `ElasticFirstOrderSEM.DampingNeverAmplifies` | src/coreComponents/physicsSolvers/wavePropagation/ElasticFirstOrderWaveEquationSEMKernel.hpp:1615-1735 | a node with non-negative damping, positive mass, no force and a non-negative time step is no faster after the launch |
| `ElasticFirstOrderSEM.DampBefore` | src/coreComponents/physicsSolvers/wavePropagation/ElasticFirstOrderWaveEquationSEMKernel.hpp:1649-1654 | the first phase multiplies each node's velocity by `1 - dt/2 * damping / mass` |
| `ElasticFirstOrderSEM.DampAfter` | src/coreComponents/physicsSolvers/wavePropagation/ElasticFirstOrderWaveEquationSEMKernel.hpp:1726-1731 | the last phase divides each node's velocity by `1 + dt/2 * damping / mass` |
| `ElasticFirstOrderSEM.AddFlowNode` | src/coreComponents/physicsSolvers/wavePropagation/ElasticFirstOrderWaveEquationSEMKernel.hpp:1720-1722 | one atomic addition extends the array's additions by one node's increment |
| `ElasticFirstOrderSEM.ElementFlow` | src/coreComponents/physicsSolvers/wavePropagation/ElasticFirstOrderWaveEquationSEMKernel.hpp:1715-1723 | the node loop of element `k` leaves the velocity as the element's additions specify |
| `ElasticFirstOrderSEM.FlowStep` | src/coreComponents/physicsSolvers/wavePropagation/ElasticFirstOrderWaveEquationSEMKernel.hpp:1656-1723 | element `k` appends its node additions to those of the elements before it |
| `ElasticFirstOrderSEM.FlowPhase` | src/coreComponents/physicsSolvers/wavePropagation/ElasticFirstOrderWaveEquationSEMKernel.hpp:1656-1724 | the middle phase leaves the velocity as the additions of all elements specify |
| `ElasticFirstOrderSEM.VelocityComputation` | src/coreComponents/physicsSolvers/wavePropagation/ElasticFirstOrderWaveEquationSEMKernel.hpp:1615-1735 | each of the three velocity arrays becomes `Velocity` of its old value along its axis |
| `SinglePhaseFlowTpfa.ComputeRowRange` | src/components/core/src/physicsSolvers/FiniteVolume/SinglePhaseFlow_TPFA.cpp:400-408 | the global row count is the sum of all processes' counts and this process's first row the sum of the counts of the processes before it |
| `SinglePhaseFlowTpfa.SumPrefixMonotone` | src/components/core/src/physicsSolvers/FiniteVolume/SinglePhaseFlow_TPFA.cpp:403-408 | with non-negative counts a longer prefix never sums to less |
| `SinglePhaseFlowTpfa.RowRangesPartitionGlobalRows` | src/components/core/src/physicsSolvers/FiniteVolume/SinglePhaseFlow_TPFA.cpp:400-408 | each process's rows lie in `[0, numGlobalRows)` and two processes' row ranges do not overlap |
| `SinglePhaseFlowTpfa.NumberCells` | src/components/core/src/physicsSolvers/FiniteVolume/SinglePhaseFlow_TPFA.cpp:411-437 | the numbering gives owned cells consecutive numbers from `firstLocalRow + offset` in visiting order and ghosts `-1`, and counts the owned cells |
| `SinglePhaseFlowTpfa.NumberRegion` | src/components/core/src/physicsSolvers/FiniteVolume/SinglePhaseFlow_TPFA.cpp:420-437 | one region's loop numbers its cells as the whole numbering does and adds its owned cells to the count |
| `SinglePhaseFlowTpfa.NumberSubregion` | src/components/core/src/physicsSolvers/FiniteVolume/SinglePhaseFlow_TPFA.cpp:422-436 | one subregion's loop numbers its cells as the whole numbering does and adds its owned cells to the count |
| `SinglePhaseFlowTpfa.OwnedPlusGhosts` | src/components/core/src/physicsSolvers/FiniteVolume/SinglePhaseFlow_TPFA.cpp:458-460 | a subregion's owned cells and ghosts together are all its cells |
| `SinglePhaseFlowTpfa.LocalCountIsNumLocalRows` | src/components/core/src/physicsSolvers/FiniteVolume/SinglePhaseFlow_TPFA.cpp:439-461 | the count of the numbering loop equals `numLocalRows` as `SetupSystem` computes it, so the closing assertion holds |
| `SinglePhaseFlowTpfa.OwnedBeforeIncreases` | src/components/core/src/physicsSolvers/FiniteVolume/SinglePhaseFlow_TPFA.cpp:420-437 | owned cells later in visiting order have more owned cells before them |
| `SinglePhaseFlowTpfa.NumberingIsConsecutive` | src/components/core/src/physicsSolvers/FiniteVolume/SinglePhaseFlow_TPFA.cpp:411-437 | owned cells get numbers in `[base, base + #owned)`, strictly increasing in visiting order; ghost cells get `-1` |
| `SinglePhaseFlowTpfa.Resize` | src/components/core/src/physicsSolvers/FiniteVolume/SinglePhaseFlow_TPFA.cpp:535 | `resize(n)` keeps the first entries of the array and fills new ones with zero |
| `SinglePhaseFlowTpfa.SetSparsityPattern` | src/components/core/src/physicsSolvers/FiniteVolume/SinglePhaseFlow_TPFA.cpp:511-553 | `m_faceConnectors` has one entry per face, its first `numFaceConnectors` entries are the connector faces in face order, and the rest are the resized old entries |
| `SinglePhaseFlowTpfa.ConnectorsAreTheSelectedFaces` | src/components/core/src/physicsSolvers/FiniteVolume/SinglePhaseFlow_TPFA.cpp:536-552 | the connectors are exactly the faces whose first neighbour is owned and whose two neighbour regions are valid, each listed once, in increasing order |
| `SinglePhaseFlowTpfa.FaceWeightInUnitInterval` | src/components/core/src/physicsSolvers/FiniteVolume/SinglePhaseFlow_TPFA.cpp:683-684 | the face weight `L0 / (L0 + L1)` lies in `[0, 1]` for non-negative lengths not both zero |
| `SinglePhaseFlowTpfa.FaceSystemIsConservative` | src/components/core/src/physicsSolvers/FiniteVolume/SinglePhaseFlow_TPFA.cpp:683-729 | the two face right-hand-side entries are opposite and each column of the face matrix sums to zero; with equal pressures there is no flux and the matrix is `rhoTrans [[1, -1], [-1, 1]]` |
| `SinglePhaseFlowTpfa.AssembleFaces` | src/components/core/src/physicsSolvers/FiniteVolume/SinglePhaseFlow_TPFA.cpp:662-731 | the face loop yields the systems of the non-ghost faces with two neighbours, in face order |
| `SinglePhaseFlowTpfa.FaceFluxesCancel` | src/components/core/src/physicsSolvers/FiniteVolume/SinglePhaseFlow_TPFA.cpp:662-731 | summed over all assembled faces the face right-hand sides cancel, and only non-ghost faces with two neighbours are assembled |
| `SinglePhaseFlowTpfa.CellRhsIsMassChange` | src/components/core/src/physicsSolvers/FiniteVolume/SinglePhaseFlow_TPFA.cpp:621-626 | the cell right-hand side is the change of pore fluid mass `(phi + dphi)(rho + drho)(V + dV) - phi rho V`, zero when nothing changed |
| `SinglePhaseFlowTpfa.Lid` | src/components/core/src/physicsSolvers/FiniteVolume/SinglePhaseFlow_TPFA.cpp:774 | the local index is `-1` exactly for a row not on this process, and otherwise within the local rows |
| `SinglePhaseFlowTpfa.GhostCellReadsBeforeSolution` | src/components/core/src/physicsSolvers/FiniteVolume/SinglePhaseFlow_TPFA.cpp:774-775 | for every ghost cell the code as written reads `local_solution[-1]` |
| `SinglePhaseFlowTpfa.GhostCellReadExample` | src/components/core/src/physicsSolvers/FiniteVolume/SinglePhaseFlow_TPFA.cpp:774-775 | an owned and a ghost cell in one subregion: the ghost's read index is `-1` |
| `SinglePhaseFlowTpfa.ApplySystemSolution` | src/components/core/src/physicsSolvers/FiniteVolume/SinglePhaseFlow_TPFA.cpp:743-779 | as corrected (see Findings): every cell whose row is on this process takes its solution entry, every other cell keeps its value |
| `SinglePhaseFlowTpfa.LocalRow` | src/components/core/src/physicsSolvers/FiniteVolume/SinglePhaseFlow_TPFA.cpp:428 | an owned cell's local row is below the number of owned cells |
| `SinglePhaseFlowTpfa.OwnedCellsTakeTheirRow` | src/components/core/src/physicsSolvers/FiniteVolume/SinglePhaseFlow_TPFA.cpp:768-777 | with this process's row map and numbering, every owned cell takes the solution entry of its own local row and every ghost keeps its value |
| `FaceBlockUtilities.ValidIdsMeaning` | src/coreComponents/mesh/generators/VTKFaceBlockUtilities.cpp:187-194 | an id is kept for a tuple exactly when it is one of its components and is `> -1`, and the list is never longer than the tuple |
| `FaceBlockUtilities.CollocatedNodesInit` | src/coreComponents/mesh/generators/VTKFaceBlockUtilities.cpp:175-196 | each tuple becomes the list of its valid components, in component order |
| `FaceBlockUtilities.BuildCollocatedNodesMap` | src/coreComponents/mesh/generators/VTKFaceBlockUtilities.cpp:208-228 | row `i` of the result holds the collocated nodes of face-block node `i`, in order |
| `FaceBlockUtilities.CollocatedOfNodesMeaning` | src/coreComponents/mesh/generators/VTKFaceBlockUtilities.cpp:272-281 | a node is in the bucket of a 2d element exactly when it is collocated with one of the element's nodes |
| `FaceBlockUtilities.BuildCollocatedNodesOf2dElemsMap` | src/coreComponents/mesh/generators/VTKFaceBlockUtilities.cpp:267-284 | row `e` is the concatenation, in node order, of the collocated lists of `e`'s nodes |
| `FaceBlockUtilities.CountPositiveIffMember` | src/coreComponents/mesh/generators/VTKFaceBlockUtilities.cpp:416-423 | a value occurs in a row exactly when its count there is positive |
| `FaceBlockUtilities.InverseRowMeaning` | src/coreComponents/mesh/generators/VTKFaceBlockUtilities.cpp:416-423 | `f` is in row `e` of the inverse exactly when `e` is in row `f` of the map; inverse rows are non-decreasing and index existing rows |
| `FaceBlockUtilities.InverseRowStrictlyIncreasing` | src/coreComponents/mesh/generators/VTKFaceBlockUtilities.cpp:416-423 | when no row of the map repeats an entry, every inverse row lists distinct rows in increasing order |
| `FaceBlockUtilities.EmplaceInverse` | src/coreComponents/mesh/generators/VTKFaceBlockUtilities.cpp:416-423 | the emplace loop leaves `numRows` rows, row `e` being the inverse row of `e` |
| `FaceBlockUtilities.BuildElem2dToFace2d` | src/coreComponents/mesh/generators/VTKFaceBlockUtilities.cpp:411-425 | the result is the inverse of the 2d face to 2d elements map, with `num2dElements` rows |
| `FaceBlockUtilities.EdgeKey` | src/coreComponents/mesh/generators/VTKFaceBlockUtilities.cpp:325 | `std::minmax` orders the two point ids and keeps the pair |
| `FaceBlockUtilities.EdgeKeyIgnoresOrder` | src/coreComponents/mesh/generators/VTKFaceBlockUtilities.cpp:325 | an edge's key does not depend on the order of its endpoints, and two edges share a key exactly when they have the same endpoints |
| `FaceBlockUtilities.EdgeIdsMeaning` | src/coreComponents/mesh/generators/VTKFaceBlockUtilities.cpp:320-327 | a key is in `face2dIds` exactly when some edge has it, and it maps to the last such edge |
| `FaceBlockUtilities.BuildEdgeIds` | src/coreComponents/mesh/generators/VTKFaceBlockUtilities.cpp:320-327 | the first loop builds `face2dIds` as the successive insertions specify |
| `FaceBlockUtilities.BuildFace2dToElems2d` | src/coreComponents/mesh/generators/VTKFaceBlockUtilities.cpp:314-344 | `None` exactly when some cell edge is not among the edges (where `at` throws); otherwise row `f` lists the cells with an edge resolved to `f`, one row per edge |
| `FaceBlockUtilities.Face2dToElems2dMeaning` | src/coreComponents/mesh/generators/VTKFaceBlockUtilities.cpp:329-341 | each cell listed for a 2d face has an edge with that face's endpoints in either order, and the cells come in increasing order |
| `FaceBlockUtilities.BuildElem2dToEdges` | src/coreComponents/mesh/generators/VTKFaceBlockUtilities.cpp:436-451 | row `e` is `face2dToEdge` applied to each entry of row `e` of the 2d element to 2d face map; rows past that map stay empty |
| `FaceBlockUtilities.InsertSortedMeaning` | src/coreComponents/mesh/generators/VTKFaceBlockUtilities.cpp:626-630 | inserting into a set's sorted contents keeps them strictly increasing and adds exactly the new value |
| `FaceBlockUtilities.SortedUniqueMeaning` | src/coreComponents/mesh/generators/VTKFaceBlockUtilities.cpp:626-630 | the set filled with a face's nodes holds exactly those nodes, strictly increasing |
| `FaceBlockUtilities.NodesOfFacesMeaning` | src/coreComponents/mesh/generators/VTKFaceBlockUtilities.cpp:621-636 | a node is listed for a 2d element exactly when it is a node of one of the element's non-negative faces |
| `FaceBlockUtilities.BuildElem2dToNodes` | src/coreComponents/mesh/generators/VTKFaceBlockUtilities.cpp:615-640 | row `e` lists, face by face, the distinct nodes of each non-negative face of `e` in increasing order; rows past the input stay empty |
| `FaceBlockUtilities.ElementNodes` | src/coreComponents/mesh/generators/VTKFaceBlockUtilities.cpp:621-636 | one element's face loop skips negative faces and appends each other face's sorted distinct nodes |
| `FaceBlockUtilities.SortedNodeSet` | src/coreComponents/mesh/generators/VTKFaceBlockUtilities.cpp:626-630 | the `std::set` of one face's nodes, iterated, is the sorted list of its distinct nodes |
| `FaceBlockUtilities.AppendNodes` | src/coreComponents/mesh/generators/VTKFaceBlockUtilities.cpp:631-634 | the `emplaceBack` loop appends the set's nodes in order |
| `FaceBlockUtilities.MaxValue` | src/coreComponents/mesh/generators/VTKFaceBlockUtilities.cpp:660-661 | the largest global id bounds every id and is one of them |
| `FaceBlockUtilities.MaxOverRanks` | src/coreComponents/mesh/generators/VTKFaceBlockUtilities.cpp:661 | the maximum over ranks bounds every rank's value |
| `FaceBlockUtilities.AsWrittenOffsetCollides` | src/coreComponents/mesh/generators/VTKFaceBlockUtilities.cpp:660-668 | one rank with 3d cell ids 0 and 7 gives the offset 2 as written, and the 2d element of id 5 becomes 7, a 3d cell's id |
| `FaceBlockUtilities.ShiftedIdsExceedCellIds` | src/coreComponents/mesh/generators/VTKFaceBlockUtilities.cpp:652-671 | with the offset one past the largest 3d cell id, every shifted 2d element id exceeds every 3d cell id on every rank |
| `FaceBlockUtilities.BuildLocalToGlobal` | src/coreComponents/mesh/generators/VTKFaceBlockUtilities.cpp:652-671 | as corrected (see Findings): each 2d element's global id is shifted by the offset |
| `FaceBlockUtilities.LocalToGlobalKeepsIdsDistinct` | src/coreComponents/mesh/generators/VTKFaceBlockUtilities.cpp:665-668 | two 2d elements get the same shifted id exactly when they had the same id |
| `FractureSplit.NewIndex.constructor` | src/coreComponents/python/modules/geosx_mesh_doctor/checks/generate_fractures_2.py:188-190 | a fresh `NewIndex` has seen nothing and its last index is `num_nodes - 1` |
| `FractureSplit.NewIndex.Call` | src/coreComponents/python/modules/geosx_mesh_doctor/checks/generate_fractures_2.py:192-198 | an index already seen gets the next index after the last handed out; an unseen index is returned itself and becomes seen |
| `FractureSplit.RunNewIndex` | src/coreComponents/python/modules/geosx_mesh_doctor/checks/generate_fractures_2.py:182-200 | successive calls of one `NewIndex` return the answers `NewIndexOutputs` specifies |
| `FractureSplit.NewIndexOutputsPrefix` | src/coreComponents/python/modules/geosx_mesh_doctor/checks/generate_fractures_2.py:192-198 | the first `k` answers depend only on the first `k` calls |
| `FractureSplit.NewIndexOutputsMeaning` | src/coreComponents/python/modules/geosx_mesh_doctor/checks/generate_fractures_2.py:192-198 | call `k` returns its own index the first time it occurs, and otherwise `num_nodes` plus the number of repeated calls before it |
| `FractureSplit.NewIndexOutputsAreDistinct` | src/coreComponents/python/modules/geosx_mesh_doctor/checks/generate_fractures_2.py:182-198 | when every call is on an existing node, a repeated index gets a new index `>= num_nodes` and no two calls get the same answer unless they are first calls on the same index |
| `FractureSplit.AssignComponent` | src/coreComponents/python/modules/geosx_mesh_doctor/checks/generate_fractures_2.py:208-209 | every cell of a component maps the node to the component's index; every other entry is kept |
| `FractureSplit.SplitAroundNode` | src/coreComponents/python/modules/geosx_mesh_doctor/checks/generate_fractures_2.py:204-209 | the components around one node get the indices `SplitIndex` specifies, one call of `NewIndex` each, and earlier entries are kept |
| `FractureSplit.IdentifySplit` | src/coreComponents/python/modules/geosx_mesh_doctor/checks/generate_fractures_2.py:169-210 | the result maps each cell of each component around each node to that component's index, and holds nothing else |
| `FractureSplit.ExtraBeforeGrows` | src/coreComponents/python/modules/geosx_mesh_doctor/checks/generate_fractures_2.py:200-209 | the duplicates made before a later node include those made for every earlier node |
| `FractureSplit.SplitIndicesAreDistinct` | src/coreComponents/python/modules/geosx_mesh_doctor/checks/generate_fractures_2.py:200-209 | over nodes of the mesh, a component after the first gets a new index `>= num_points`, and two different components never share an index |
| `FractureSplit.IdentifiedSplitIsConsistent` | src/coreComponents/python/modules/geosx_mesh_doctor/checks/generate_fractures_2.py:169-210 | no new index stands for two different nodes, and the added points are `num_points .. num_points + #duplicates - 1` |
| `FractureSplit.ComputeAddedPoints` | src/coreComponents/python/modules/geosx_mesh_doctor/checks/generate_fractures_2.py:260-264 | `added_points` is the set of outputs of the replacements that change a node, in any dictionary order |
| `FractureSplit.CollocatedNodes` | src/coreComponents/python/modules/geosx_mesh_doctor/checks/generate_fractures_2.py:271-281 | every old point maps to itself, every duplicate to an original node replaced by it, and every other point to -1 |
| `FractureSplit.CollocationOfConsistentMapping` | src/coreComponents/python/modules/geosx_mesh_doctor/checks/generate_fractures_2.py:271-281 | when no new index stands for two nodes, each duplicate is collocated with the node it replaces, and every old point that is not a duplicate with itself |
| `FractureSplit.MapIds` | src/coreComponents/python/modules/geosx_mesh_doctor/checks/generate_fractures_2.py:304-308 | each point id becomes the cell's replacement for it, or stays when the cell has none |
| `FractureSplit.EncodeFacesAppend` | src/coreComponents/python/modules/geosx_mesh_doctor/checks/generate_fractures_2.py:294-308 | one more face appends its point count and its ids to the face stream |
| `FractureSplit.MappedFaces` | src/coreComponents/python/modules/geosx_mesh_doctor/checks/generate_fractures_2.py:297-308 | each face of the rewritten cell is the old face with its ids mapped |
| `FractureSplit.RewriteCell` | src/coreComponents/python/modules/geosx_mesh_doctor/checks/generate_fractures_2.py:289-310 | the face stream of a rewritten cell is its face count, then each face's point count and mapped ids |
| `FractureSplit.ParseEncodedFaces` | src/coreComponents/python/modules/geosx_mesh_doctor/checks/generate_fractures_2.py:294-308 | reading `n` faces off an encoded list gives back those faces and the rest |
| `FractureSplit.FaceStreamRoundTrip` | src/coreComponents/python/modules/geosx_mesh_doctor/checks/generate_fractures_2.py:289-310 | the rewritten cell's face stream reads back as its faces with every point id mapped |
| `FractureSplit.CopyPointField` | src/coreComponents/python/modules/geosx_mesh_doctor/checks/generate_fractures_2.py:241-249 | new point tuple `p` is old tuple `collocated_nodes[p]` |
| `FractureSplit.CopiedFieldsFollowTheSplit` | src/coreComponents/python/modules/geosx_mesh_doctor/checks/generate_fractures_2.py:241-249 | with the collocation of a consistent split, each duplicate carries the point data of the node it replaces and every other old point keeps its own |
| `FractureSplit.FractureNodesMeaning` | src/coreComponents/python/modules/geosx_mesh_doctor/checks/generate_fractures_2.py:69-72 | a node is a fracture node exactly when it is a node of some fracture face |
| `FractureSplit.AddCellToNodes` | src/coreComponents/python/modules/geosx_mesh_doctor/checks/generate_fractures_2.py:75-78 | cell `c` joins the set of each of its points that is a fracture node, and no set loses a cell |
| `FractureSplit.BuildNodeToCells` | src/coreComponents/python/modules/geosx_mesh_doctor/checks/generate_fractures_2.py:65-80 | `node_to_cells` has a key for each fracture node some cell uses, and maps it to the cells using it |
| `FractureSplit.CellFractureFacesMeaning` | src/coreComponents/python/modules/geosx_mesh_doctor/checks/generate_fractures_2.py:102-111 | face `i` of a cell is listed exactly when its neighbour's value differs from the cell's and is in `field_values` |
| `FractureSplit.FractureFacesMeaning` | src/coreComponents/python/modules/geosx_mesh_doctor/checks/generate_fractures_2.py:98-111 | a `(cell, face)` pair is listed exactly when the cell's value is in `field_values` and that face is a fracture face of it |
| `FractureSplit.DedupMeaning` | src/coreComponents/python/modules/geosx_mesh_doctor/checks/generate_fractures_2.py:113-122 | the kept faces are faces of the input, with pairwise different node sets, covering every node set of the input |
| `FractureSplit.FacesOf` | src/coreComponents/python/modules/geosx_mesh_doctor/checks/generate_fractures_2.py:114-116 | the point lists of the fracture faces are the cells' faces of each pair |
| `FractureSplit.CellFacesOnFracture` | src/coreComponents/python/modules/geosx_mesh_doctor/checks/generate_fractures_2.py:99-111 | `None` exactly when a face of the cell has two or more neighbours (the `assert` fails); otherwise the cell's fracture faces |
| `FractureSplit.CollectFractureFaces` | src/coreComponents/python/modules/geosx_mesh_doctor/checks/generate_fractures_2.py:98-111 | `None` exactly when some considered cell has a face with two or more neighbours; otherwise all fracture faces in cell order |
| `FractureSplit.DedupFaces` | src/coreComponents/python/modules/geosx_mesh_doctor/checks/generate_fractures_2.py:113-122 | the second loop keeps exactly the faces `Dedup` keeps |
| `FractureSplit.BuildFractureInfo` | src/coreComponents/python/modules/geosx_mesh_doctor/checks/generate_fractures_2.py:83-124 | an error when the field is missing or the neighbour assertion fails; otherwise the deduplicated fracture faces and their `node_to_cells` |
| `FractureSplit.Node3dTo2d` | src/coreComponents/python/modules/geosx_mesh_doctor/checks/generate_fractures_2.py:425-429 | the fracture nodes are numbered by their position, and numbering maps back to the node |
| `FractureSplit.BuildPolygons` | src/coreComponents/python/modules/geosx_mesh_doctor/checks/generate_fractures_2.py:432-437 | an error exactly when a face node has no 2d number (the lookup raises); otherwise each polygon lists its face's 2d numbers |
| `FractureSplit.PolygonsMapBack` | src/coreComponents/python/modules/geosx_mesh_doctor/checks/generate_fractures_2.py:425-437 | each polygon entry is the 2d number of the face's node at that position |
| `FractureSplit.FileCell` | src/coreComponents/python/modules/geosx_mesh_doctor/checks/generate_fractures_2.py:440-443 | a cell's replacements are filed under the 2d number of their smaller end; `None` exactly when that end has no number |
| `FractureSplit.BucketsComplete` | src/coreComponents/python/modules/geosx_mesh_doctor/checks/generate_fractures_2.py:439-443 | once every replacement is filed, `buckets` holds exactly the specified keys and buckets |
| `FractureSplit.BuildBuckets` | src/coreComponents/python/modules/geosx_mesh_doctor/checks/generate_fractures_2.py:439-443 | an error exactly when some replacement's smaller end has no 2d number; otherwise the buckets of the specification |
| `FractureSplit.BucketsPartitionPoints` | src/coreComponents/python/modules/geosx_mesh_doctor/checks/generate_fractures_2.py:439-443 | with a consistent split, every original node in a bucket is that bucket's fracture node, and every duplicate is in the bucket of the node it replaces |
| `FractureSplit.EnumerateSet` | src/coreComponents/python/modules/geosx_mesh_doctor/checks/generate_fractures_2.py:448-450 | a set is enumerated once per element |
| `FractureSplit.MaxBucketSize` | src/coreComponents/python/modules/geosx_mesh_doctor/checks/generate_fractures_2.py:446 | the width bounds every bucket's size and, when there is a bucket, is the size of one of them; with no bucket it is 0 |
| `FractureSplit.CollocatedTable` | src/coreComponents/python/modules/geosx_mesh_doctor/checks/generate_fractures_2.py:445-450 | an error exactly when the bucket keys are not `0 .. num_points - 1` (the assertion) or there are no buckets (`max` of nothing); otherwise each row is its bucket's entries padded with -1 |
| `FractureSplit.ValidIdsOfPadding` | src/coreComponents/python/modules/geosx_mesh_doctor/checks/generate_fractures_2.py:447-450 | the -1 padding is dropped by the reader of `collocated_nodes` |
| `FractureSplit.CollocatedRowsReadBack` | src/coreComponents/python/modules/geosx_mesh_doctor/checks/generate_fractures_2.py:445-450 | a padded row read back by the fracture import lists exactly its bucket, once each |

## Left out

- Floating-point behaviour: `real64` and `real32` are exact reals, so rounding, overflow, `inf` and `NaN` are not modelled. Where the source would divide by zero and produce `inf` or `NaN`, the model returns an error value (the fractional flow with zero total mobility) or requires a nonzero divisor (nodal masses, pivots).
- Concurrency: `forAll` loops run sequentially in index order, `RAJA::atomicAdd` is a plain addition, and `ReduceMax` is `max`. Race freedom is not modelled. `WaveKernels.AddAtOrderIndependent` shows that the order of the additions does not change the sums.
- External finite-element and constitutive helpers are function parameters or inputs, and nothing is proved about their values. These are `calcN`, `getGradN`, `computeMassTerm`, `computeDampingTerm`, `locateSourceElement`, `evaluateRicker`, `smallStrainUpdatePoromechanics`, the constitutive getters, the quadrature-point kernels driven by the constitutive update, and `sqrt`, which is any function satisfying `IsSqrt`.
- MPI is not modelled. `MPI_Comm_rank`, `GatherAll` and `MpiWrapper::max` are replaced by their gathered values, given as sequences.
- Epetra and the LvArray CRS matrix are not modelled. `SumIntoGlobalValues`, `GlobalAssemble`, `Scale` and the sparsity insertion are replaced by per-row maps from column to value, restricted to the sparsity pattern.
- VTK filters and accessors, `networkx.connected_components` and `numpy` are replaced by their results: the mesh connectivity, the connected components and the global ids are inputs.
- Output calls are not modelled: `tqdm`, logging, `print`, `operator<<`, `GEOSX_LOG_RANK` (line 163 of the upwind utilities) and the debug walk `__iterate_through_polyhedron_cells`.
- `ComputeTimeStep` of ElasticFirstOrderWaveEquationSEMKernel.hpp is not modelled. It is a power iteration seeded from the clock and `rand()`, and it uses `sqrt`.
- The derivatives of the upwinded mobilities, of the fractional flow and of the component fluxes are not modelled. Their values are modelled.
- The placeholder geometry of the TPFA solver (`MakeGeometryParameters`) and the `iDot`/`iDot2` stubs are not modelled. The inverse face lengths and the cell volumes are inputs.
- BlockVectorView: `norm2` is modelled as its square, without the final square root. Its `rand` and `print` members are not modelled. The linearity of `dot` in an `axpby` update is not proved.
- DenseSolvers: denseLASolvers.hpp does not compile as written. It has stray semicolons at lines 64 and 101, a `checkSizes(matrix)` call at line 175, a `std::forward< N >` with a missing semicolon at line 216, and a malformed `MODIFY_MATRIX == false` copy branch at lines 265-279. The model follows the evident algorithm, in which Gaussian elimination updates `A` and `b` in place. It does not model the copy branch.
- TableLayout.ExtraPerColumn: as corrected. The source divides the extra length by the column count in integer arithmetic before `std::ceil`, so its per-column share is rounded down and can fall short of the title (see Findings).
- Table.Table.ComputeAndSetMaxStringSize: as corrected. The source widens each column by the rounded-down share of Table.cpp:168, not the rounded-up share.
- Table.Table.FrameTitle: as corrected. Through `computeAndSetMaxStringSize`, the source widens the columns by the rounded-down share.
- Table.Table.ComputeAndBuildSeparator: as corrected. The source's separators are built on columns widened by the rounded-down share, so they can be shorter than the title line.
- Table.Table.Draw: as corrected. The source draws columns widened by the rounded-down share.
- ElasticFirstOrderSEM.ElementDamping: as corrected. The source multiplies each face increment by the density twice (once in `aux` and once in the increment, at ElasticFirstOrderWaveEquationSEMKernel.hpp:307-310); the model applies it once (see Findings).
- ElasticFirstOrderSEM.DampingMatrixLaunch: as corrected. Through the element step, the source's damping arrays carry the density squared.
- SinglePhaseFlowTpfa.ApplySystemSolution: as corrected. The source assigns `local_solution[LID(...)]` to every cell, so a ghost cell, whose `LID` is −1, reads `local_solution[-1]` (SinglePhaseFlow_TPFA.cpp:774-775); the model lets such cells keep their value (see Findings).
- FaceBlockUtilities.BuildLocalToGlobal: as corrected. The source shifts by one more than the largest `GetMaxId()`, which is the last array index (`CellGlobalOffsetAsWritten`); the model shifts by one more than the largest cell id value (`CellGlobalOffset`, see Findings).
- DenseSolvers.Solve: as corrected. For 3x3 systems the source calls the written Cramer solve, whose `x[1]` and `x[2]` numerators pair the wrong entries; the model calls the intended `SolveThreeByThree` (see Findings).
- DenseSolvers.SolveUpperTriangularSystem: requires a nonzero diagonal, which the source does not check. It divides regardless, and the `inf` results are not modelled.
- ElasticFirstOrderSEM.VelocityComputation: requires every nodal mass to be nonzero, which the source assumes but does not check.
- In ElasticFirstOrderSEM, the six stress arrays are rows of a symmetric tensor, and the three velocity arrays are updated one axis at a time. The source updates all three axes in the same loops; because the axes do not interact, the final state is the same.
- In ElasticFirstOrderSEM, the precompute launch is modelled as one sweep over the sources followed by one sweep over the receivers. The source visits both in the same element loop; because the two touch disjoint arrays, the result is the same.
- In ElasticFirstOrderSEM, the element-local velocity contribution `uelem` is folded into the increment added at each node.
- QuadratureFunctionsHelper: `adjugate` and `computeStrain` write their output arrays entry by entry with no loop, so they are modelled as functions returning the array's value.
- FaceBlockUtilities.BuildElem2dToNodes: each row is built as a sorted set and then stored. The source inserts into a `std::set` and then copies it into the row, so the content is the same.
- Section and TableLayout: Section.hpp and Table.hpp are not part of this model. `m_marginBorder`, `m_nbSpecialChar`, `m_embeddingName`, the values of `MarginValue` and `marginTitle` are parameters.
- The `GEOS_FMT` width specifiers are modelled by `TableLayout.Format`: padding is added and nothing is truncated.
- Basis: config.hpp is not part of this model, so `DynamicMaxSize` is a parameter.
- The declaration-only headers, framework registrations and catalogs, the poromechanics task orchestration and the CG solver are not part of this model. They contain no logic of the kinds modelled here, or only calls into external libraries.

## Findings

| source | as written | input that shows it | evidently intended | confidence | as-written member | corrected member |
|---|---|---|---|---|---|---|
| src/coreComponents/finiteElement/basis/basis.hpp:178-182 | the `Trans` wrapper's `grad` returns `grad` of the same `Trans` value, so the recursion never reaches a basis | any `Trans b` | the gradient of the wrapped basis, wrapped in `Trans` | not executed | `Basis.GradOfTransNeverResolves` | `Basis.GradOfPreservesTraits` |
| src/components/core/src/physicsSolvers/FiniteVolume/SinglePhaseFlow_TPFA.cpp:774-775 | each cell's row is `LID(trilinosIndex)`, read from `local_solution` before checking ownership; a ghost cell's index is −1, so the code reads `local_solution[-1]` | one region with one ghost cell (index −1) and one owned cell (index 0), row map of one row starting at 0 | ghost cells are skipped, and each owned cell takes the entry of its own row | not executed | `SinglePhaseFlowTpfa.GhostCellReadExample` | `SinglePhaseFlowTpfa.OwnedCellsTakeTheirRow` |
| src/coreComponents/mesh/generators/VTKFaceBlockUtilities.cpp:660-668 | the offset of the face-mesh ids is one more than the largest `GetMaxId()`, which is the last array index, not the largest id value | one rank with 3d cell ids `[0, 7]`: the offset is 2, and face id 5 becomes 7, which clashes with a cell id | offset by one more than the largest cell id value, so every shifted id exceeds every cell id | not executed | `FaceBlockUtilities.AsWrittenOffsetCollides` | `FaceBlockUtilities.ShiftedIdsExceedCellIds` |
| src/coreComponents/denseLinearAlgebra/denseLASolvers.hpp:107-114 | the numerators of `x[1]` and `x[2]` in the 3x3 Cramer solve pair the wrong entries | A = [[1,1,0],[0,1,0],[0,0,1]], b = (1,1,1): the result is (0,0,1), but the solution is (0,1,1) | Cramer's rule: `x_i` is the determinant of A with column i replaced by b, over det A | not executed | `DenseSolvers.ThreeByThreeAsWrittenCounterexample` | `DenseSolvers.ThreeByThreeSolves` |
| src/coreComponents/codingUtilities/Table.cpp:167-168 | `std::ceil` is applied to an integer quotient, which is already rounded down, so the extra width per column can fall short of the title | seven one-character columns under a title line 47 long, with a separator line 41 long: the widened frame ends at 46 | the quotient rounded up, so the widened columns cover the title | not executed | `TableLayout.WideningAsWrittenFallsShort` | `TableLayout.WideningCoversTitle` |
| src/coreComponents/physicsSolvers/wavePropagation/ElasticFirstOrderWaveEquationSEMKernel.hpp:307-310 | the damping terms are `aux` times the density times the wave speed, but `aux` already includes the density, so the density is applied twice | density 2, Vp 1, Vs 0, face normal along x, damping term 1: the x damping gains 4 instead of 2 | the density applied once, as in the second-order kernel | not executed | `ElasticFirstOrderSEM.AsWrittenDampingCounterexample` | `ElasticFirstOrderSEM.DampingScalesWithDensity` |

/** Compile-time basis traits of the tensor finite-element kernels
  * (src/coreComponents/finiteElement/basis/basis.hpp). Each C++ type becomes a
  * value of `Basis`; each trait struct, with its partial specialisations,
  * becomes a function by cases, the unspecialised primary template being the
  * last case. */
module Basis {
  import opened Wrappers

  /** What the kernel configuration contributes: `get_config_dim`,
    * `get_config_quads` and `is_tensor_config`. */
  datatype KernelConfig = KernelConfig(dim: int, quads: int, isTensor: bool)

  /** The two constants of the tensor library that the traits read:
    * `tensor::Dynamic` and `tensor::DynamicMaxSize`. */
  datatype TensorConstants = TensorConstants(dynamic: int, dynamicMaxSize: int)

  /** The basis types: `SharedBasis<Dofs, Config>`,
    * `BasisTensor<Dim, IsTensor, TensorType>` (with the tensor's sizes), and
    * the three wrappers. */
  datatype Basis =
    | SharedBasis(dofs: int, config: KernelConfig)
    | BasisTensor(dim: int, isTensor: bool, sizes: seq<int>)
    | Trans(inner: Basis)
    | Grad(inner: Basis)
    | Div(inner: Basis)

  /** `is_basis`: specialised for `SharedBasis`, `Trans`, `Grad` and
    * `Trans<Grad<B>>` (which agrees with the `Trans` case). */
  predicate IsBasis(b: Basis) {
    match b
    case SharedBasis(_, _) => true
    case Trans(Grad(x)) => IsBasis(x)
    case Trans(x) => IsBasis(x)
    case Grad(x) => IsBasis(x)
    case _ => false
  }

  /** `get_basis_dim`: -1 unless specialised. */
  function Dim(b: Basis): int {
    match b
    case SharedBasis(_, config) => config.dim
    case BasisTensor(dim, _, _) => dim
    case Trans(x) => Dim(x)
    case _ => -1
  }

  /** `is_tensor_basis`. */
  predicate IsTensorBasis(b: Basis) {
    match b
    case SharedBasis(_, config) => config.isTensor
    case BasisTensor(_, isTensor, _) => isTensor
    case Trans(x) => IsTensorBasis(x)
    case _ => false
  }

  /** `is_non_tensor_basis`. */
  predicate IsNonTensorBasis(b: Basis) {
    match b
    case SharedBasis(_, config) => !config.isTensor
    case BasisTensor(_, isTensor, _) => !isTensor
    case Trans(x) => IsNonTensorBasis(x)
    case _ => false
  }

  /** `get_basis_quads`: the primary template has no definition, so an
    * unspecialised type has no value (`None`, a compile error in C++). */
  function Quads(b: Basis): Option<int> {
    match b
    case SharedBasis(_, config) => Some(config.quads)
    case BasisTensor(_, _, sizes) => if 0 < |sizes| then Some(sizes[0]) else None
    case Trans(x) => Dofs(x)
    case Grad(x) => Quads(x)
    case Div(_) => None
  }

  /** `get_basis_dofs`, likewise undefined unless specialised. */
  function Dofs(b: Basis): Option<int> {
    match b
    case SharedBasis(dofs, _) => Some(dofs)
    case BasisTensor(_, _, sizes) => if 1 < |sizes| then Some(sizes[1]) else None
    case Trans(x) => Quads(x)
    case Grad(x) => Dofs(x)
    case Div(_) => None
  }

  /** `get_basis_size<N>`: defined for `BasisTensor` only. */
  function BasisSize(n: nat, b: Basis): (r: Option<int>)
    ensures r.Some? <==> b.BasisTensor? && n < |b.sizes|
    ensures r.Some? ==> r.value == b.sizes[n]
  {
    if b.BasisTensor? && n < |b.sizes| then Some(b.sizes[n]) else None
  }

  /** `get_basis_capacity`. The primary template gives
    * `DynamicMaxSize * DynamicMaxSize`; the `enable_if` conditions of the
    * specialisations are the guards below. */
  function Capacity(b: Basis, t: TensorConstants): int {
    var fallback := t.dynamicMaxSize * t.dynamicMaxSize;
    match b
    case SharedBasis(dofs, config) =>
      if dofs != t.dynamic && config.quads != t.dynamic then dofs * config.quads
      else if dofs == t.dynamic && config.quads == t.dynamic && config.isTensor then fallback
      else if dofs == t.dynamic && config.quads == t.dynamic then 64 * 64
      else fallback
    case Grad(x) =>
      if IsBasis(x) then (if IsTensorBasis(x) then 1 else Dim(x)) * Capacity(x, t) else fallback
    case Trans(Grad(x)) =>
      if IsBasis(x) then Capacity(x, t) else fallback
    case Trans(x) =>
      if IsBasis(x) then Capacity(x, t) else fallback
    case _ => fallback
  }

  /** The factory `transpose`: all three overloads build `Trans<...>` of
    * their argument. */
  function Transpose(b: Basis): (r: Basis)
    ensures r.Trans? && r.inner == b
  {
    Trans(b)
  }

  /** The factory `div`: `Trans<Div<B>>` for a transposed basis, `Div<B>`
    * otherwise. */
  function DivOf(b: Basis): (r: Basis)
    ensures b.Trans? ==> r == Trans(Div(b.inner))
    ensures !b.Trans? ==> r == Div(b)
  {
    if b.Trans? then Trans(Div(b.inner)) else Div(b)
  }

  /** The factory `grad` as written: the `Trans<B>` overload builds its
    * result from `grad(Bt)` on the same `Trans<B>` argument, which resolves
    * to itself again. `fuel` bounds the number of such self-calls that are
    * followed; `None` means no result was reached. */
  function GradOfAsWritten(b: Basis, fuel: nat): Option<Basis>
    decreases fuel
  {
    if !b.Trans? then Some(Grad(b))
    else if fuel == 0 then None
    else match GradOfAsWritten(b, fuel - 1)
      case None => None
      case Some(_) => Some(Trans(Grad(b.inner)))
  }

  /** However many self-calls are followed, `grad` of a transposed basis
    * never produces a value. */
  lemma {:induction false} GradOfTransNeverResolves(x: Basis, fuel: nat)
    ensures GradOfAsWritten(Trans(x), fuel) == None
    decreases fuel
  {
    if fuel > 0 {
      GradOfTransNeverResolves(x, fuel - 1);
    }
  }

  /** The factory `grad` as evidently intended: `Trans<Grad<B>>` for a
    * transposed basis, `Grad<B>` otherwise. */
  function GradOf(b: Basis): (r: Basis)
    ensures b.Trans? ==> r == Trans(Grad(b.inner))
    ensures !b.Trans? ==> r == Grad(b)
  {
    if b.Trans? then Trans(Grad(b.inner)) else Grad(b)
  }

  /** The intended `grad` keeps basis-ness and both counts, whether or not
    * its argument is transposed, and agrees with the written factory on
    * every argument the latter handles. */
  lemma GradOfPreservesTraits(b: Basis)
    ensures IsBasis(GradOf(b)) == IsBasis(b)
    ensures Quads(GradOf(b)) == Quads(b)
    ensures Dofs(GradOf(b)) == Dofs(b)
    ensures !b.Trans? ==> GradOfAsWritten(b, 0) == Some(GradOf(b))
  {
  }

  /** The type left after stripping every `Trans` and `Grad` wrapper. */
  function Peel(b: Basis): (core: Basis)
    ensures !core.Trans? && !core.Grad?
  {
    match b
    case Trans(x) => Peel(x)
    case Grad(x) => Peel(x)
    case _ => b
  }

  /** `is_basis` holds exactly for a `SharedBasis` under any stack of `Trans`
    * and `Grad` wrappers: a `Div` or a raw `BasisTensor` anywhere in the
    * stack makes the whole type a non-basis. */
  lemma {:induction false} IsBasisIffSharedUnderTransAndGrad(b: Basis)
    ensures IsBasis(b) <==> Peel(b).SharedBasis?
  {
    match b
    case Trans(x) => IsBasisIffSharedUnderTransAndGrad(x);
    case Grad(x) => IsBasisIffSharedUnderTransAndGrad(x);
    case _ =>
  }

  /** Transposition swaps the quadrature-point and degree-of-freedom counts,
    * so transposing twice restores both. */
  lemma TransposeSwapsCounts(b: Basis)
    ensures Quads(Transpose(b)) == Dofs(b) && Dofs(Transpose(b)) == Quads(b)
    ensures Quads(Transpose(Transpose(b))) == Quads(b)
    ensures Dofs(Transpose(Transpose(b))) == Dofs(b)
    ensures IsBasis(Transpose(Transpose(b))) == IsBasis(b)
  {
  }

  /** `b` under `k` layers of `Trans`. */
  function Transposed(k: nat, b: Basis): (r: Basis)
    ensures k > 0 ==> r.Trans?
    decreases k
  {
    if k == 0 then b else Trans(Transposed(k - 1, b))
  }

  /** Any stack of `Trans` keeps basis-ness, the dimension and both tensor
    * traits of what it wraps, and exchanges the two counts once per layer. */
  lemma {:induction false} TransStackKeepsTraits(b: Basis, k: nat)
    ensures IsBasis(Transposed(k, b)) == IsBasis(b)
    ensures Dim(Transposed(k, b)) == Dim(b)
    ensures IsTensorBasis(Transposed(k, b)) == IsTensorBasis(b)
    ensures IsNonTensorBasis(Transposed(k, b)) == IsNonTensorBasis(b)
    ensures Quads(Transposed(k, b)) == (if k % 2 == 0 then Quads(b) else Dofs(b))
    ensures Dofs(Transposed(k, b)) == (if k % 2 == 0 then Dofs(b) else Quads(b))
    decreases k
  {
    if k > 0 {
      TransStackKeepsTraits(b, k - 1);
    }
  }

  /** The type left after stripping the `Trans` wrappers only. */
  function TransBase(b: Basis): (core: Basis)
    ensures !core.Trans?
  {
    if b.Trans? then TransBase(b.inner) else b
  }

  /** Over a `SharedBasis` or `BasisTensor` under any number of `Trans`,
    * `is_tensor_basis` and `is_non_tensor_basis` are complements; over
    * anything else both are false. */
  lemma {:induction false} TensorTraitsAreComplements(b: Basis)
    ensures TransBase(b).SharedBasis? || TransBase(b).BasisTensor? ==> IsTensorBasis(b) != IsNonTensorBasis(b)
    ensures !(TransBase(b).SharedBasis? || TransBase(b).BasisTensor?) ==> !IsTensorBasis(b) && !IsNonTensorBasis(b)
  {
    if b.Trans? {
      TensorTraitsAreComplements(b.inner);
    }
  }

  /** One or more layers of `Trans` hold what the wrapped basis holds,
    * except that over a gradient they hold what the gradient's own argument
    * holds; over a non-basis they fall back to `DynamicMaxSize` squared. */
  lemma {:induction false} TransStackCapacity(b: Basis, k: nat, t: TensorConstants)
    requires k > 0
    ensures Capacity(Transposed(k, b), t) ==
      if !IsBasis(b) then t.dynamicMaxSize * t.dynamicMaxSize
      else if b.Grad? then Capacity(b.inner, t)
      else Capacity(b, t)
    decreases k
  {
    if k > 1 {
      TransStackCapacity(b, k - 1, t);
      TransStackKeepsTraits(b, k - 1);
    }
  }

  /** A static `SharedBasis` holds `Dofs * Q` values, however many times it
    * is transposed. */
  lemma StaticCapacityUnderTrans(dofs: int, config: KernelConfig, k: nat, t: TensorConstants)
    requires dofs != t.dynamic && config.quads != t.dynamic
    ensures Capacity(Transposed(k, SharedBasis(dofs, config)), t) == dofs * config.quads
  {
    if k > 0 {
      TransStackCapacity(SharedBasis(dofs, config), k, t);
    }
  }

  /** The gradient of a non-tensor basis, transposed any number of times,
    * holds `Dim` times as many values; that of a tensor basis holds the same
    * number. */
  lemma GradCapacityUnderTrans(b: Basis, k: nat, t: TensorConstants)
    requires IsBasis(b)
    ensures IsNonTensorBasis(b) ==> Capacity(Grad(Transposed(k, b)), t) == Dim(b) * Capacity(Transposed(k, b), t)
    ensures IsTensorBasis(b) ==> Capacity(Grad(Transposed(k, b)), t) == Capacity(Transposed(k, b), t)
  {
    TransStackKeepsTraits(b, k);
    TensorTraitsAreComplements(b);
  }

  /** `Trans<Grad<B>>` holds what `B` holds, without the gradient's factor:
    * scaled by that factor, it holds what `Grad<B>` holds. */
  lemma TransposedGradCapacity(b: Basis, k: nat, t: TensorConstants)
    requires IsBasis(b) && k > 0
    ensures (if IsTensorBasis(b) then 1 else Dim(b)) * Capacity(Transposed(k, Grad(b)), t) == Capacity(Grad(b), t)
  {
    TransStackCapacity(Grad(b), k, t);
  }
}

/** The eight-point Gauss rule on the reference hexahedron
  * (src/coreComponents/physicsSolvers/simplePDE/QuadratureUtilities.hpp). */
module QuadratureUtilities {
  import opened Wrappers

  /** `Rule`: the only enumerator is `Gauss`. */
  datatype Rule = Gauss

  /** The cell types a `Helper` could be instantiated on. Only the hexahedron
    * has a specialisation. */
  datatype CellType = HexahedronCell | TetrahedronCell | WedgeCell | PyramidCell

  /** `Data`: the weight and the three reference coordinates. */
  datatype Data = Data(wq: real, xiq: seq<real>)

  /** The literal `0.5773502691896257645092`, an approximation of 1/sqrt(3). */
  const GaussAbscissa: real := 0.5773502691896257645092

  /** Bit `j` of the two's-complement representation of `q`. Dafny's `/` and
    * `%` with a positive divisor round toward minus infinity, which is what
    * `(q & 2^j) >> j` computes on a two's-complement int for every sign. */
  function Bit(q: int, j: nat): (b: int)
    ensures b == 0 || b == 1
  {
    (q / Pow2(j)) % 2
  }

  function Pow2(j: nat): (p: int)
    ensures p >= 1
  {
    if j == 0 then 1 else 2 * Pow2(j - 1)
  }

  /** `Helper<HexahedronCell, Gauss, 8>::getData`. */
  function HexGauss8(q: int): (d: Data)
    ensures d.wq == 1.0 && |d.xiq| == 3
    ensures forall j :: 0 <= j < 3 ==> d.xiq[j] == (2 * Bit(q, j) - 1) as real * GaussAbscissa
    ensures forall j :: 0 <= j < 3 ==> d.xiq[j] == GaussAbscissa || d.xiq[j] == -GaussAbscissa
  {
    var a := q % 2;
    var b := (q / 2) % 2;
    var c := (q / 4) % 2;
    Data(1.0, [(2 * a - 1) as real * GaussAbscissa, (2 * b - 1) as real * GaussAbscissa, (2 * c - 1) as real * GaussAbscissa])
  }

  /** `getData<CELL, RULE, N>`: a dispatch to `Helper<CELL, RULE, N>::getData`
    * with the same index. Only the hexahedral eight-point Gauss rule has a
    * helper; any other combination does not compile (`None`). */
  function GetData(cell: CellType, rule: Rule, numPoints: int, quadraturePointIndex: int): (r: Option<Data>)
    ensures r.Some? <==> cell == HexahedronCell && numPoints == 8
    ensures r.Some? ==> r.value == HexGauss8(quadraturePointIndex)
  {
    if cell == HexahedronCell && rule == Gauss && numPoints == 8 then Some(HexGauss8(quadraturePointIndex)) else None
  }

  /** The index a point stands for, read back from the signs of its three
    * coordinates. */
  function PointIndex(d: Data): int
    requires |d.xiq| == 3
  {
    (if d.xiq[0] > 0.0 then 1 else 0) + 2 * (if d.xiq[1] > 0.0 then 1 else 0) + 4 * (if d.xiq[2] > 0.0 then 1 else 0)
  }

  /** Each of the eight points gives its own index back. */
  lemma {:induction false} PointIndexOfHexGauss8(q: int)
    requires 0 <= q < 8
    ensures PointIndex(HexGauss8(q)) == q
  {
    assert GaussAbscissa > 0.0;
    if q == 0 { } else if q == 1 { } else if q == 2 { } else if q == 3 { }
    else if q == 4 { } else if q == 5 { } else if q == 6 { } else { }
  }

  /** Hence the map from 0..7 to points is injective: the sign patterns are
    * distinct. */
  lemma HexGauss8Injective(q1: int, q2: int)
    requires 0 <= q1 < 8 && 0 <= q2 < 8
    ensures HexGauss8(q1) == HexGauss8(q2) ==> q1 == q2
  {
    PointIndexOfHexGauss8(q1);
    PointIndexOfHexGauss8(q2);
  }

  /** Sum of the weights of points `0..n-1`. */
  function WeightSum(n: nat): real {
    if n == 0 then 0.0 else WeightSum(n - 1) + HexGauss8(n - 1).wq
  }

  /** Sum of coordinate `j` over points `0..n-1`. */
  function CoordinateSum(n: nat, j: nat): real
    requires j < 3
  {
    if n == 0 then 0.0 else CoordinateSum(n - 1, j) + HexGauss8(n - 1).xiq[j]
  }

  /** The eight weights add up to 8, the volume of the reference cube
    * [-1, 1]^3, and every coordinate sums to zero over the eight points, so
    * the rule integrates constants and linear functions exactly. */
  lemma {:induction false} HexGauss8Moments()
    ensures WeightSum(8) == 8.0
    ensures forall j :: 0 <= j < 3 ==> CoordinateSum(8, j) == 0.0
  {
    assert Pow2(1) == 2 && Pow2(2) == 4;
    assert WeightSum(8) == 8.0;
    forall j | 0 <= j < 3 ensures CoordinateSum(8, j) == 0.0 {
      var v := GaussAbscissa;
      var s := CoordinateSum(8, j);
      assert j == 0 ==> s == -v + v - v + v - v + v - v + v;
      assert j == 1 ==> s == -v - v + v + v - v - v + v + v;
      assert j == 2 ==> s == -v - v - v - v + v + v + v + v;
    }
  }

  /** Only the low three bits of the index matter: `q` and `q + 8` give the
    * same point. */
  lemma HexGauss8Periodic(q: int)
    ensures HexGauss8(q + 8) == HexGauss8(q)
  {
    assert (q + 8) / 2 == q / 2 + 4;
    assert (q + 8) / 4 == q / 4 + 2;
  }
}

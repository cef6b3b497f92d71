/** A block vector viewed as the sequence of its blocks
  * (src/coreComponents/linearAlgebra/utilities/BlockVectorView.hpp). Every
  * operation loops over the blocks and delegates to the block's own vector
  * operation; the block vectors are modelled by their locally owned values
  * and their global size, and their operations by the elementwise
  * definitions their documentation gives (BLAS naming: `axpy` is
  * `y = alpha*x + y`). */
module BlockVectorView {

  /** One block: the locally owned entries and the size summed over all ranks. */
  datatype Block = Block(local: seq<real>, globalSize: nat)

  function Abs(x: real): real {
    if x < 0.0 then -x else x
  }

  function Max(a: real, b: real): real {
    if a < b then b else a
  }

  // ---------------------------------------------------------------------
  // The block vector's own operations, on its local entries.

  /** `dot` of one block: the sum of the entrywise products. */
  function VecDot(a: seq<real>, b: seq<real>): real
    requires |a| == |b|
  {
    if |a| == 0 then 0.0
    else VecDot(a[..|a| - 1], b[..|b| - 1]) + a[|a| - 1] * b[|b| - 1]
  }

  /** `norm2` of one block, squared. */
  function VecNorm2Squared(a: seq<real>): real {
    VecDot(a, a)
  }

  /** `normInf` of one block: the largest absolute entry, 0 when empty. */
  function VecNormInf(a: seq<real>): real {
    if |a| == 0 then 0.0 else Max(VecNormInf(a[..|a| - 1]), Abs(a[|a| - 1]))
  }

  function VecScale(a: seq<real>, factor: real): (r: seq<real>)
    ensures |r| == |a| && forall k :: 0 <= k < |a| ==> r[k] == factor * a[k]
  {
    seq(|a|, k requires 0 <= k < |a| => factor * a[k])
  }

  function VecSet(n: nat, value: real): (r: seq<real>)
    ensures |r| == n && forall k :: 0 <= k < n ==> r[k] == value
  {
    seq(n, k => value)
  }

  /** `y.axpby(alpha, x, beta)`: `alpha*x + beta*y`. */
  function VecAxpby(alpha: real, x: seq<real>, beta: real, y: seq<real>): (r: seq<real>)
    requires |x| == |y|
    ensures |r| == |y| && forall k :: 0 <= k < |y| ==> r[k] == alpha * x[k] + beta * y[k]
  {
    seq(|y|, k requires 0 <= k < |y| => alpha * x[k] + beta * y[k])
  }

  /** `z.axpbypcz(alpha, x, beta, y, gamma)`: `alpha*x + beta*y + gamma*z`. */
  function VecAxpbypcz(alpha: real, x: seq<real>, beta: real, y: seq<real>, gamma: real, z: seq<real>): (r: seq<real>)
    requires |x| == |z| && |y| == |z|
    ensures |r| == |z| && forall k :: 0 <= k < |z| ==> r[k] == alpha * x[k] + beta * y[k] + gamma * z[k]
  {
    seq(|z|, k requires 0 <= k < |z| => alpha * x[k] + beta * y[k] + gamma * z[k])
  }

  // ---------------------------------------------------------------------
  // Specification of the block operations.

  /** Two block lists with the same number of blocks, block by block of the
    * same local size (the first is what `GEOSX_LAI_ASSERT_EQ` checks, the
    * second what each block operation checks). */
  predicate Conformant(a: seq<Block>, b: seq<Block>) {
    |a| == |b| && forall i :: 0 <= i < |a| ==> |a[i].local| == |b[i].local|
  }

  /** All local entries, block after block. */
  function Flatten(bs: seq<Block>): seq<real> {
    if |bs| == 0 then [] else Flatten(bs[..|bs| - 1]) + bs[|bs| - 1].local
  }

  function SumGlobalSizes(bs: seq<Block>): nat {
    if |bs| == 0 then 0 else SumGlobalSizes(bs[..|bs| - 1]) + bs[|bs| - 1].globalSize
  }

  function SumLocalSizes(bs: seq<Block>): nat {
    if |bs| == 0 then 0 else SumLocalSizes(bs[..|bs| - 1]) + |bs[|bs| - 1].local|
  }

  function BlocksDot(a: seq<Block>, b: seq<Block>): real
    requires Conformant(a, b)
  {
    if |a| == 0 then 0.0
    else BlocksDot(a[..|a| - 1], b[..|b| - 1]) + VecDot(a[|a| - 1].local, b[|b| - 1].local)
  }

  function BlocksNorm2Squared(bs: seq<Block>): real {
    if |bs| == 0 then 0.0 else BlocksNorm2Squared(bs[..|bs| - 1]) + VecNorm2Squared(bs[|bs| - 1].local)
  }

  function BlocksNormInf(bs: seq<Block>): real {
    if |bs| == 0 then 0.0 else Max(BlocksNormInf(bs[..|bs| - 1]), VecNormInf(bs[|bs| - 1].local))
  }

  function ScaledBlocks(bs: seq<Block>, factor: real): (r: seq<Block>)
    ensures |r| == |bs|
  {
    seq(|bs|, i requires 0 <= i < |bs| => Block(VecScale(bs[i].local, factor), bs[i].globalSize))
  }

  function SetBlocks(bs: seq<Block>, value: real): (r: seq<Block>)
    ensures |r| == |bs|
  {
    seq(|bs|, i requires 0 <= i < |bs| => Block(VecSet(|bs[i].local|, value), bs[i].globalSize))
  }

  function AxpbyBlocks(alpha: real, x: seq<Block>, beta: real, y: seq<Block>): (r: seq<Block>)
    requires Conformant(x, y)
    ensures |r| == |y|
  {
    seq(|y|, i requires 0 <= i < |y| => Block(VecAxpby(alpha, x[i].local, beta, y[i].local), y[i].globalSize))
  }

  function AxpbypczBlocks(alpha: real, x: seq<Block>, beta: real, y: seq<Block>, gamma: real, z: seq<Block>): (r: seq<Block>)
    requires Conformant(x, z) && Conformant(y, z)
    ensures |r| == |z|
  {
    seq(|z|, i requires 0 <= i < |z| =>
      Block(VecAxpbypcz(alpha, x[i].local, beta, y[i].local, gamma, z[i].local), z[i].globalSize))
  }

  // ---------------------------------------------------------------------
  // The view.

  class BlockVectorView {
    /** The blocks `m_vectors` points to. */
    var blocks: seq<Block>

    constructor (bs: seq<Block>)
      ensures blocks == bs
    {
      blocks := bs;
    }

    /** `blockSize`: the number of stored blocks. */
    function BlockSize(): (n: nat)
      reads this
      ensures n == |blocks|
    {
      |blocks|
    }

    /** `globalSize`: the sum of the global sizes of the blocks. */
    method GlobalSize() returns (size: nat)
      ensures size == SumGlobalSizes(blocks)
    {
      size := 0;
      var i := 0;
      while i < |blocks|
        invariant 0 <= i <= |blocks|
        invariant size == SumGlobalSizes(blocks[..i])
      {
        assert blocks[..i + 1][..i] == blocks[..i];
        size := size + blocks[i].globalSize;
        i := i + 1;
      }
      assert blocks[..|blocks|] == blocks;
    }

    /** `localSize`: the sum of the local sizes of the blocks. */
    method LocalSize() returns (size: nat)
      ensures size == SumLocalSizes(blocks)
    {
      size := 0;
      var i := 0;
      while i < |blocks|
        invariant 0 <= i <= |blocks|
        invariant size == SumLocalSizes(blocks[..i])
      {
        assert blocks[..i + 1][..i] == blocks[..i];
        size := size + |blocks[i].local|;
        i := i + 1;
      }
      assert blocks[..|blocks|] == blocks;
    }

    /** `dot`: the blockwise dot products, accumulated from 0. */
    method Dot(src: BlockVectorView) returns (accum: real)
      requires Conformant(blocks, src.blocks)
      ensures accum == BlocksDot(blocks, src.blocks)
    {
      accum := 0.0;
      var i := 0;
      while i < |blocks|
        invariant 0 <= i <= |blocks|
        invariant accum == BlocksDot(blocks[..i], src.blocks[..i])
      {
        assert blocks[..i + 1][..i] == blocks[..i];
        assert src.blocks[..i + 1][..i] == src.blocks[..i];
        accum := accum + VecDot(blocks[i].local, src.blocks[i].local);
        i := i + 1;
      }
      assert blocks[..|blocks|] == blocks;
      assert src.blocks[..|src.blocks|] == src.blocks;
    }

    /** `norm2` before its final square root: the squared block norms,
      * accumulated from 0. */
    method Norm2Squared() returns (accum: real)
      ensures accum == BlocksNorm2Squared(blocks)
    {
      accum := 0.0;
      var i := 0;
      while i < |blocks|
        invariant 0 <= i <= |blocks|
        invariant accum == BlocksNorm2Squared(blocks[..i])
      {
        assert blocks[..i + 1][..i] == blocks[..i];
        var temp2 := VecNorm2Squared(blocks[i].local);
        accum := accum + temp2;
        i := i + 1;
      }
      assert blocks[..|blocks|] == blocks;
    }

    /** `normInf`: the running `fmax` of the block norms, from 0. */
    method NormInf() returns (result: real)
      ensures result == BlocksNormInf(blocks)
    {
      result := 0.0;
      var i := 0;
      while i < |blocks|
        invariant 0 <= i <= |blocks|
        invariant result == BlocksNormInf(blocks[..i])
      {
        assert blocks[..i + 1][..i] == blocks[..i];
        result := Max(result, VecNormInf(blocks[i].local));
        i := i + 1;
      }
      assert blocks[..|blocks|] == blocks;
    }

    /** `copy`: block by block, each block takes the entries of the source's. */
    method Copy(src: BlockVectorView)
      requires Conformant(blocks, src.blocks)
      modifies this
      ensures |blocks| == |old(blocks)|
      ensures forall i :: 0 <= i < |blocks| ==>
        blocks[i] == Block(old(src.blocks)[i].local, old(blocks)[i].globalSize)
    {
      var s := src.blocks;
      var i := 0;
      while i < |blocks|
        invariant 0 <= i <= |blocks| == |old(blocks)|
        invariant forall j :: 0 <= j < i ==> blocks[j] == Block(s[j].local, old(blocks)[j].globalSize)
        invariant forall j :: i <= j < |blocks| ==> blocks[j] == old(blocks)[j]
      {
        blocks := blocks[i := Block(s[i].local, blocks[i].globalSize)];
        i := i + 1;
      }
    }

    /** `scale`: every block multiplied by `factor`. */
    method Scale(factor: real)
      modifies this
      ensures blocks == ScaledBlocks(old(blocks), factor)
    {
      var i := 0;
      while i < |blocks|
        invariant 0 <= i <= |blocks| == |old(blocks)|
        invariant forall j :: 0 <= j < i ==> blocks[j] == ScaledBlocks(old(blocks), factor)[j]
        invariant forall j :: i <= j < |blocks| ==> blocks[j] == old(blocks)[j]
      {
        blocks := blocks[i := Block(VecScale(blocks[i].local, factor), blocks[i].globalSize)];
        i := i + 1;
      }
    }

    /** `set`: every entry of every block becomes `value`. */
    method Set(value: real)
      modifies this
      ensures blocks == SetBlocks(old(blocks), value)
    {
      var i := 0;
      while i < |blocks|
        invariant 0 <= i <= |blocks| == |old(blocks)|
        invariant forall j :: 0 <= j < i ==> blocks[j] == SetBlocks(old(blocks), value)[j]
        invariant forall j :: i <= j < |blocks| ==> blocks[j] == old(blocks)[j]
      {
        blocks := blocks[i := Block(VecSet(|blocks[i].local|, value), blocks[i].globalSize)];
        i := i + 1;
      }
    }

    /** `zero`: every entry of every block becomes 0. */
    method Zero()
      modifies this
      ensures blocks == SetBlocks(old(blocks), 0.0)
    {
      var i := 0;
      while i < |blocks|
        invariant 0 <= i <= |blocks| == |old(blocks)|
        invariant forall j :: 0 <= j < i ==> blocks[j] == SetBlocks(old(blocks), 0.0)[j]
        invariant forall j :: i <= j < |blocks| ==> blocks[j] == old(blocks)[j]
      {
        blocks := blocks[i := Block(VecSet(|blocks[i].local|, 0.0), blocks[i].globalSize)];
        i := i + 1;
      }
    }

    /** `axpy`: `this = alpha*x + this`, block by block. The blocks of `x`
      * are read before the loop writes them, so `x` may be this view. */
    method Axpy(alpha: real, x: BlockVectorView)
      requires Conformant(x.blocks, blocks)
      modifies this
      ensures blocks == AxpbyBlocks(alpha, old(x.blocks), 1.0, old(blocks))
    {
      var xs := x.blocks;
      var i := 0;
      while i < |blocks|
        invariant 0 <= i <= |blocks| == |old(blocks)|
        invariant forall j :: 0 <= j < i ==> blocks[j] == AxpbyBlocks(alpha, xs, 1.0, old(blocks))[j]
        invariant forall j :: i <= j < |blocks| ==> blocks[j] == old(blocks)[j]
      {
        blocks := blocks[i := Block(VecAxpby(alpha, xs[i].local, 1.0, blocks[i].local), blocks[i].globalSize)];
        i := i + 1;
      }
    }

    /** `axpby`: `this = alpha*x + beta*this`, block by block. */
    method Axpby(alpha: real, x: BlockVectorView, beta: real)
      requires Conformant(x.blocks, blocks)
      modifies this
      ensures blocks == AxpbyBlocks(alpha, old(x.blocks), beta, old(blocks))
    {
      var xs := x.blocks;
      var i := 0;
      while i < |blocks|
        invariant 0 <= i <= |blocks| == |old(blocks)|
        invariant forall j :: 0 <= j < i ==> blocks[j] == AxpbyBlocks(alpha, xs, beta, old(blocks))[j]
        invariant forall j :: i <= j < |blocks| ==> blocks[j] == old(blocks)[j]
      {
        blocks := blocks[i := Block(VecAxpby(alpha, xs[i].local, beta, blocks[i].local), blocks[i].globalSize)];
        i := i + 1;
      }
    }

    /** `axpbypcz`: `this = alpha*x + beta*y + gamma*this`, block by block. */
    method Axpbypcz(alpha: real, x: BlockVectorView, beta: real, y: BlockVectorView, gamma: real)
      requires Conformant(x.blocks, blocks) && Conformant(y.blocks, blocks)
      modifies this
      ensures blocks == AxpbypczBlocks(alpha, old(x.blocks), beta, old(y.blocks), gamma, old(blocks))
    {
      var xs := x.blocks;
      var ys := y.blocks;
      var i := 0;
      while i < |blocks|
        invariant 0 <= i <= |blocks| == |old(blocks)|
        invariant forall j :: 0 <= j < i ==> blocks[j] == AxpbypczBlocks(alpha, xs, beta, ys, gamma, old(blocks))[j]
        invariant forall j :: i <= j < |blocks| ==> blocks[j] == old(blocks)[j]
      {
        blocks := blocks[i := Block(VecAxpbypcz(alpha, xs[i].local, beta, ys[i].local, gamma, blocks[i].local), blocks[i].globalSize)];
        i := i + 1;
      }
    }
  }

  // ---------------------------------------------------------------------
  // The block operations agree with the same operations on the
  // concatenated vector.

  lemma {:induction false} VecDotAppend(a1: seq<real>, a2: seq<real>, b1: seq<real>, b2: seq<real>)
    requires |a1| == |b1| && |a2| == |b2|
    ensures VecDot(a1 + a2, b1 + b2) == VecDot(a1, b1) + VecDot(a2, b2)
    decreases |a2|
  {
    if |a2| > 0 {
      var n := |a2| - 1;
      assert (a1 + a2)[..|a1 + a2| - 1] == a1 + a2[..n];
      assert (b1 + b2)[..|b1 + b2| - 1] == b1 + b2[..n];
      VecDotAppend(a1, a2[..n], b1, b2[..n]);
    } else {
      assert a1 + a2 == a1 && b1 + b2 == b1;
    }
  }

  lemma {:induction false} VecNormInfAppend(a1: seq<real>, a2: seq<real>)
    ensures VecNormInf(a1 + a2) == Max(VecNormInf(a1), VecNormInf(a2))
    decreases |a2|
  {
    VecNormInfNonNegative(a1);
    if |a2| > 0 {
      var n := |a2| - 1;
      assert (a1 + a2)[..|a1 + a2| - 1] == a1 + a2[..n];
      VecNormInfAppend(a1, a2[..n]);
    } else {
      assert a1 + a2 == a1;
    }
  }

  lemma {:induction false} FlattenLength(bs: seq<Block>)
    ensures |Flatten(bs)| == SumLocalSizes(bs)
  {
    if |bs| > 0 {
      FlattenLength(bs[..|bs| - 1]);
    }
  }

  /** `localSize` is the length of the concatenated local entries. */
  lemma LocalSizeIsFlatLength(bs: seq<Block>)
    ensures |Flatten(bs)| == SumLocalSizes(bs)
    ensures forall i :: 0 <= i < |bs| ==> |bs[i].local| <= SumLocalSizes(bs)
  {
    FlattenLength(bs);
    forall i | 0 <= i < |bs|
      ensures |bs[i].local| <= SumLocalSizes(bs)
    {
      LocalSizeBound(bs, i);
    }
  }

  lemma {:induction false} LocalSizeBound(bs: seq<Block>, i: int)
    requires 0 <= i < |bs|
    ensures |bs[i].local| <= SumLocalSizes(bs)
  {
    if i < |bs| - 1 {
      LocalSizeBound(bs[..|bs| - 1], i);
    }
  }

  /** The block `dot` is the dot product of the concatenated vectors. */
  lemma {:induction false} BlocksDotIsFlatDot(a: seq<Block>, b: seq<Block>)
    requires Conformant(a, b)
    ensures |Flatten(a)| == |Flatten(b)|
    ensures BlocksDot(a, b) == VecDot(Flatten(a), Flatten(b))
  {
    if |a| > 0 {
      var n := |a| - 1;
      BlocksDotIsFlatDot(a[..n], b[..n]);
      VecDotAppend(Flatten(a[..n]), a[n].local, Flatten(b[..n]), b[n].local);
    }
  }

  /** The block `norm2`, squared, is the squared 2-norm of the concatenated
    * vector, and it is never negative. */
  lemma {:induction false} BlocksNorm2IsFlatNorm2(bs: seq<Block>)
    ensures BlocksNorm2Squared(bs) == VecNorm2Squared(Flatten(bs))
    ensures BlocksNorm2Squared(bs) >= 0.0
  {
    if |bs| > 0 {
      var n := |bs| - 1;
      BlocksNorm2IsFlatNorm2(bs[..n]);
      VecDotAppend(Flatten(bs[..n]), bs[n].local, Flatten(bs[..n]), bs[n].local);
      VecNorm2SquaredNonNegative(bs[n].local);
    }
  }

  lemma {:induction false} VecNorm2SquaredNonNegative(a: seq<real>)
    ensures VecNorm2Squared(a) >= 0.0
  {
    if |a| > 0 {
      VecNorm2SquaredNonNegative(a[..|a| - 1]);
    }
  }

  lemma {:induction false} VecNormInfNonNegative(a: seq<real>)
    ensures VecNormInf(a) >= 0.0
  {
    if |a| > 0 {
      VecNormInfNonNegative(a[..|a| - 1]);
    }
  }

  /** The inf-norm of a vector bounds every entry's magnitude and is 0 or
    * the magnitude of some entry. */
  lemma {:induction false} VecNormInfMeaning(a: seq<real>)
    ensures VecNormInf(a) >= 0.0
    ensures forall k :: 0 <= k < |a| ==> Abs(a[k]) <= VecNormInf(a)
    ensures VecNormInf(a) == 0.0 || exists k :: 0 <= k < |a| && VecNormInf(a) == Abs(a[k])
  {
    VecNormInfNonNegative(a);
    if |a| > 0 {
      var n := |a| - 1;
      VecNormInfMeaning(a[..n]);
      assert forall k :: 0 <= k < n ==> a[..n][k] == a[k];
    }
  }

  /** The block `normInf` is the inf-norm of the concatenated vector: never
    * negative, at least every entry's magnitude, and 0 or attained. */
  lemma {:induction false} BlocksNormInfIsFlatNormInf(bs: seq<Block>)
    ensures BlocksNormInf(bs) == VecNormInf(Flatten(bs))
    ensures BlocksNormInf(bs) >= 0.0
    ensures forall k :: 0 <= k < |Flatten(bs)| ==> Abs(Flatten(bs)[k]) <= BlocksNormInf(bs)
  {
    if |bs| > 0 {
      var n := |bs| - 1;
      BlocksNormInfIsFlatNormInf(bs[..n]);
      VecNormInfAppend(Flatten(bs[..n]), bs[n].local);
    }
    VecNormInfMeaning(Flatten(bs));
  }

  lemma VecScaleAppend(a: seq<real>, b: seq<real>, factor: real)
    ensures VecScale(a + b, factor) == VecScale(a, factor) + VecScale(b, factor)
  {
    var l, r := VecScale(a + b, factor), VecScale(a, factor) + VecScale(b, factor);
    assert |l| == |r|;
    forall k | 0 <= k < |l|
      ensures l[k] == r[k]
    {
      if k < |a| {
        assert (a + b)[k] == a[k];
      } else {
        assert (a + b)[k] == b[k - |a|];
      }
    }
  }

  lemma VecAxpbyAppend(alpha: real, x1: seq<real>, x2: seq<real>, beta: real, y1: seq<real>, y2: seq<real>)
    requires |x1| == |y1| && |x2| == |y2|
    ensures VecAxpby(alpha, x1 + x2, beta, y1 + y2) == VecAxpby(alpha, x1, beta, y1) + VecAxpby(alpha, x2, beta, y2)
  {
    var l, r := VecAxpby(alpha, x1 + x2, beta, y1 + y2), VecAxpby(alpha, x1, beta, y1) + VecAxpby(alpha, x2, beta, y2);
    assert |l| == |r|;
    forall k | 0 <= k < |l|
      ensures l[k] == r[k]
    {
      if k < |x1| {
        assert (x1 + x2)[k] == x1[k] && (y1 + y2)[k] == y1[k];
      } else {
        assert (x1 + x2)[k] == x2[k - |x1|] && (y1 + y2)[k] == y2[k - |y1|];
      }
    }
  }

  lemma VecAxpbypczAppend(alpha: real, x1: seq<real>, x2: seq<real>, beta: real, y1: seq<real>, y2: seq<real>,
                          gamma: real, z1: seq<real>, z2: seq<real>)
    requires |x1| == |z1| && |y1| == |z1| && |x2| == |z2| && |y2| == |z2|
    ensures VecAxpbypcz(alpha, x1 + x2, beta, y1 + y2, gamma, z1 + z2)
         == VecAxpbypcz(alpha, x1, beta, y1, gamma, z1) + VecAxpbypcz(alpha, x2, beta, y2, gamma, z2)
  {
    var l := VecAxpbypcz(alpha, x1 + x2, beta, y1 + y2, gamma, z1 + z2);
    var r := VecAxpbypcz(alpha, x1, beta, y1, gamma, z1) + VecAxpbypcz(alpha, x2, beta, y2, gamma, z2);
    assert |l| == |r|;
    forall k | 0 <= k < |l|
      ensures l[k] == r[k]
    {
      if k < |z1| {
        assert (x1 + x2)[k] == x1[k] && (y1 + y2)[k] == y1[k] && (z1 + z2)[k] == z1[k];
      } else {
        assert (x1 + x2)[k] == x2[k - |z1|] && (y1 + y2)[k] == y2[k - |z1|] && (z1 + z2)[k] == z2[k - |z1|];
      }
    }
  }

  /** `scale`, `set` and the `axp*` family, applied block by block, are the
    * same operations on the concatenated vector, and they keep every block's
    * sizes. */
  lemma {:induction false} ScaledBlocksFlatten(bs: seq<Block>, factor: real)
    ensures Flatten(ScaledBlocks(bs, factor)) == VecScale(Flatten(bs), factor)
    ensures Conformant(ScaledBlocks(bs, factor), bs)
    ensures forall i :: 0 <= i < |bs| ==> ScaledBlocks(bs, factor)[i].globalSize == bs[i].globalSize
  {
    if |bs| > 0 {
      var n := |bs| - 1;
      assert ScaledBlocks(bs, factor)[..n] == ScaledBlocks(bs[..n], factor);
      ScaledBlocksFlatten(bs[..n], factor);
      VecScaleAppend(Flatten(bs[..n]), bs[n].local, factor);
    } else {
      assert VecScale([], factor) == [];
    }
  }

  lemma {:induction false} SetBlocksFlatten(bs: seq<Block>, value: real)
    ensures Flatten(SetBlocks(bs, value)) == VecSet(|Flatten(bs)|, value)
    ensures Conformant(SetBlocks(bs, value), bs)
  {
    if |bs| > 0 {
      var n := |bs| - 1;
      assert SetBlocks(bs, value)[..n] == SetBlocks(bs[..n], value);
      SetBlocksFlatten(bs[..n], value);
      assert VecSet(|Flatten(bs[..n])|, value) + VecSet(|bs[n].local|, value) == VecSet(|Flatten(bs)|, value);
    }
  }

  /** After `zero`, the inf-norm and the 2-norm are 0. */
  lemma ZeroedNorms(bs: seq<Block>)
    ensures BlocksNormInf(SetBlocks(bs, 0.0)) == 0.0
    ensures BlocksNorm2Squared(SetBlocks(bs, 0.0)) == 0.0
  {
    var z := SetBlocks(bs, 0.0);
    SetBlocksFlatten(bs, 0.0);
    BlocksNormInfIsFlatNormInf(z);
    BlocksNorm2IsFlatNorm2(z);
    VecNormInfMeaning(Flatten(z));
    ZeroDot(Flatten(z));
  }

  lemma {:induction false} ZeroDot(a: seq<real>)
    requires forall k :: 0 <= k < |a| ==> a[k] == 0.0
    ensures VecDot(a, a) == 0.0
  {
    if |a| > 0 {
      ZeroDot(a[..|a| - 1]);
    }
  }

  lemma {:induction false} AxpbyBlocksFlatten(alpha: real, x: seq<Block>, beta: real, y: seq<Block>)
    requires Conformant(x, y)
    ensures |Flatten(x)| == |Flatten(y)|
    ensures Flatten(AxpbyBlocks(alpha, x, beta, y)) == VecAxpby(alpha, Flatten(x), beta, Flatten(y))
    ensures Conformant(AxpbyBlocks(alpha, x, beta, y), y)
  {
    FlattenConformant(x, y);
    if |y| > 0 {
      var n := |y| - 1;
      assert AxpbyBlocks(alpha, x, beta, y)[..n] == AxpbyBlocks(alpha, x[..n], beta, y[..n]);
      AxpbyBlocksFlatten(alpha, x[..n], beta, y[..n]);
      VecAxpbyAppend(alpha, Flatten(x[..n]), x[n].local, beta, Flatten(y[..n]), y[n].local);
    } else {
      assert VecAxpby(alpha, [], beta, []) == [];
    }
  }

  lemma {:induction false} AxpbypczBlocksFlatten(alpha: real, x: seq<Block>, beta: real, y: seq<Block>, gamma: real, z: seq<Block>)
    requires Conformant(x, z) && Conformant(y, z)
    ensures |Flatten(x)| == |Flatten(z)| && |Flatten(y)| == |Flatten(z)|
    ensures Flatten(AxpbypczBlocks(alpha, x, beta, y, gamma, z))
         == VecAxpbypcz(alpha, Flatten(x), beta, Flatten(y), gamma, Flatten(z))
    ensures Conformant(AxpbypczBlocks(alpha, x, beta, y, gamma, z), z)
  {
    FlattenConformant(x, z);
    FlattenConformant(y, z);
    if |z| > 0 {
      var n := |z| - 1;
      assert AxpbypczBlocks(alpha, x, beta, y, gamma, z)[..n] == AxpbypczBlocks(alpha, x[..n], beta, y[..n], gamma, z[..n]);
      AxpbypczBlocksFlatten(alpha, x[..n], beta, y[..n], gamma, z[..n]);
      VecAxpbypczAppend(alpha, Flatten(x[..n]), x[n].local, beta, Flatten(y[..n]), y[n].local,
                        gamma, Flatten(z[..n]), z[n].local);
    } else {
      assert VecAxpbypcz(alpha, [], beta, [], gamma, []) == [];
    }
  }

  lemma {:induction false} FlattenConformant(a: seq<Block>, b: seq<Block>)
    requires Conformant(a, b)
    ensures |Flatten(a)| == |Flatten(b)|
  {
    if |a| > 0 {
      FlattenConformant(a[..|a| - 1], b[..|b| - 1]);
    }
  }
}

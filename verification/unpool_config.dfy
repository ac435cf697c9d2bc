/**
 * Configuration of the max-unpooling layer: which kernel, pad and stride fields of the
 * unpooling parameter message are accepted, the values the layer resolves from them, and
 * the output-size arithmetic of Reshape.
 */
module UnpoolConfig {
  import opened Wrappers

  /** The fields of the unpooling parameter message read at set-up; an unset optional field is None. */
  datatype UnpoolingParameter = UnpoolingParameter(
    kernelSize: Option<nat>, kernelH: Option<nat>, kernelW: Option<nat>,
    pad: Option<nat>, padH: Option<nat>, padW: Option<nat>,
    stride: Option<nat>, strideH: Option<nat>, strideW: Option<nat>)

  /** What the message's accessors return for an unset `pad` and `stride`. */
  const DefaultPad: nat := 0
  const DefaultStride: nat := 1

  /** The resolved configuration held by the layer. */
  datatype Config = Config(kernelH: nat, kernelW: nat, padH: nat, padW: nat, strideH: nat, strideW: nat)

  /** One constructor per CHECK of the set-up, in the order the checks run. */
  datatype SetupError =
    | KernelFormConflict   // not exactly one of kernel_size and the pair kernel_h, kernel_w
    | KernelPairRequired   // neither kernel_size nor both kernel_h and kernel_w
    | PadFormConflict      // neither "pad_h and pad_w without pad" nor "no pad_h and no pad_w"
    | StrideFormConflict   // the same rule for stride
    | KernelHeightZero
    | KernelWidthZero
    | PadHeightTooLarge    // a pad is nonzero and pad_h >= kernel_h
    | PadWidthTooLarge     // a pad is nonzero and pad_w >= kernel_w

  predicate HasKernelPair(p: UnpoolingParameter) {
    p.kernelH.Some? && p.kernelW.Some?
  }

  /** Exactly one of the symmetric kernel_size and the explicit pair is given. */
  predicate KernelFormOk(p: UnpoolingParameter) {
    p.kernelSize.Some? != HasKernelPair(p)
  }

  /** Either both pad_h and pad_w and no pad, or neither pad_h nor pad_w. */
  predicate PadFormOk(p: UnpoolingParameter) {
    (p.pad.None? && p.padH.Some? && p.padW.Some?) || (p.padH.None? && p.padW.None?)
  }

  /** Either both stride_h and stride_w and no stride, or neither stride_h nor stride_w. */
  predicate StrideFormOk(p: UnpoolingParameter) {
    (p.stride.None? && p.strideH.Some? && p.strideW.Some?) || (p.strideH.None? && p.strideW.None?)
  }

  /** The (height, width) kernel the message selects: kernel_size for both axes if set, else the pair. */
  function SelectedKernel(p: UnpoolingParameter): (nat, nat) {
    if p.kernelSize.Some? then (p.kernelSize.value, p.kernelSize.value)
    else (p.kernelH.GetOr(0), p.kernelW.GetOr(0))
  }

  /** The (height, width) pad the message selects: pad (or its default) for both axes unless pad_h is set. */
  function SelectedPad(p: UnpoolingParameter): (nat, nat) {
    if p.padH.None? then (p.pad.GetOr(DefaultPad), p.pad.GetOr(DefaultPad))
    else (p.padH.value, p.padW.GetOr(DefaultPad))
  }

  /** The (height, width) stride the message selects: stride (or its default) for both axes unless stride_h is set. */
  function SelectedStride(p: UnpoolingParameter): (nat, nat) {
    if p.strideH.None? then (p.stride.GetOr(DefaultStride), p.stride.GetOr(DefaultStride))
    else (p.strideH.value, p.strideW.GetOr(DefaultStride))
  }

  /** A nonzero pad on either axis must be smaller than the kernel on both axes. */
  predicate PadFitsKernel(pad: (nat, nat), kernel: (nat, nat)) {
    pad.0 != 0 || pad.1 != 0 ==> pad.0 < kernel.0 && pad.1 < kernel.1
  }

  /**
   * The layer set-up as a function of the message: the checks in source order, each failing
   * check giving its error, otherwise the resolved configuration.
   */
  function Resolve(p: UnpoolingParameter): (r: Result<Config, SetupError>)
    // accepted exactly when the three forms are well formed, the kernel is positive and the pad fits it
    ensures r.Success? <==>
      KernelFormOk(p) && PadFormOk(p) && StrideFormOk(p) &&
      SelectedKernel(p).0 > 0 && SelectedKernel(p).1 > 0 &&
      PadFitsKernel(SelectedPad(p), SelectedKernel(p))
    // both kernel forms together, or neither, fail the first check
    ensures p.kernelSize.Some? && HasKernelPair(p) ==> r == Failure(KernelFormConflict)
    ensures p.kernelSize.None? && !HasKernelPair(p) ==> r == Failure(KernelFormConflict)
    // the second kernel check can never be the one that fails
    ensures r != Failure(KernelPairRequired)
    // mixing pad with pad_h or pad_w, or giving only one of them, is rejected; likewise stride
    ensures KernelFormOk(p) && (p.padH.Some? || p.padW.Some?) && !(p.pad.None? && p.padH.Some? && p.padW.Some?)
      ==> r == Failure(PadFormConflict)
    ensures KernelFormOk(p) && PadFormOk(p) && (p.strideH.Some? || p.strideW.Some?)
      && !(p.stride.None? && p.strideH.Some? && p.strideW.Some?)
      ==> r == Failure(StrideFormConflict)
    // an accepted configuration has a positive kernel, and a nonzero pad is below the kernel
    ensures r.Success? ==> r.value.kernelH > 0 && r.value.kernelW > 0
    ensures r.Success? && (r.value.padH != 0 || r.value.padW != 0) ==>
      r.value.padH < r.value.kernelH && r.value.padW < r.value.kernelW
    // the resolved values are the ones the message gives
    ensures r.Success? && p.kernelSize.Some? ==>
      r.value.kernelH == p.kernelSize.value && r.value.kernelW == p.kernelSize.value
    ensures r.Success? && p.kernelSize.None? ==>
      r.value.kernelH == p.kernelH.value && r.value.kernelW == p.kernelW.value
    ensures r.Success? && p.padH.None? ==>
      r.value.padH == p.pad.GetOr(DefaultPad) && r.value.padW == p.pad.GetOr(DefaultPad)
    ensures r.Success? && p.padH.Some? ==>
      p.pad.None? && p.padW.Some? && r.value.padH == p.padH.value && r.value.padW == p.padW.value
    ensures r.Success? && p.strideH.None? ==>
      r.value.strideH == p.stride.GetOr(DefaultStride) && r.value.strideW == p.stride.GetOr(DefaultStride)
    ensures r.Success? && p.strideH.Some? ==>
      p.stride.None? && p.strideW.Some? && r.value.strideH == p.strideH.value && r.value.strideW == p.strideW.value
  {
    if p.kernelSize.None? == !HasKernelPair(p) then Failure(KernelFormConflict)
    else if !(p.kernelSize.Some? || HasKernelPair(p)) then Failure(KernelPairRequired)
    else if !PadFormOk(p) then Failure(PadFormConflict)
    else if !StrideFormOk(p) then Failure(StrideFormConflict)
    else
      var kernel := SelectedKernel(p);
      var pad := SelectedPad(p);
      var stride := SelectedStride(p);
      if kernel.0 <= 0 then Failure(KernelHeightZero)
      else if kernel.1 <= 0 then Failure(KernelWidthZero)
      else if (pad.0 != 0 || pad.1 != 0) && !(pad.0 < kernel.0) then Failure(PadHeightTooLarge)
      else if (pad.0 != 0 || pad.1 != 0) && !(pad.1 < kernel.1) then Failure(PadWidthTooLarge)
      else Success(Config(kernel.0, kernel.1, pad.0, pad.1, stride.0, stride.1))
  }

  /** A blob shape: (num, channels, height, width). */
  datatype Shape = Shape(num: int, channels: int, height: int, width: int)

  /** The unpooled extent of one spatial axis: the inverse of the pooling size formula. */
  function UnpooledSize(input: int, stride: int, kernel: int, pad: int): int {
    (input - 1) * stride + kernel - 2 * pad
  }

  /** The top shape Reshape declares for a bottom shape under a configuration: only the spatial extents change. */
  function UnpooledShape(c: Config, bottom: Shape): (r: Shape)
    ensures r.num == bottom.num && r.channels == bottom.channels
  {
    Shape(bottom.num, bottom.channels,
          UnpooledSize(bottom.height, c.strideH, c.kernelH, c.padH),
          UnpooledSize(bottom.width, c.strideW, c.kernelW, c.padW))
  }

  /** Example: a 2 x 2 kernel with stride 2 and no padding unpools a 2 x 2 plane to 4 x 4. */
  lemma UnpooledShapeExample()
    ensures UnpooledShape(Config(2, 2, 0, 0, 2, 2), Shape(1, 1, 2, 2)) == Shape(1, 1, 4, 4)
  {
  }

  /** Integer division rounding up, for a positive divisor. */
  function CeilDiv(a: int, d: int): (q: int)
    requires d > 0
    ensures (q - 1) * d < a <= q * d
  {
    var f := (-a) / d;
    assert -a == d * f + (-a) % d;
    -f
  }

  /**
   * The ceiling-mode pooled extent of one axis, without the pooling layer's clip of a last window
   * that would start inside the padding (which cannot happen when the pad is below the kernel).
   */
  function PooledSize(input: int, stride: int, kernel: int, pad: int): int
    requires stride > 0
  {
    CeilDiv(input + 2 * pad - kernel, stride) + 1
  }

  /** The shape the paired pooling layer produces from a shape. */
  function PooledShape(c: Config, s: Shape): Shape
    requires c.strideH > 0 && c.strideW > 0
  {
    Shape(s.num, s.channels,
          PooledSize(s.height, c.strideH, c.kernelH, c.padH),
          PooledSize(s.width, c.strideW, c.kernelW, c.padW))
  }

  /** Multiplying by a positive factor keeps a strict order. */
  lemma MulStrictlyMonotone(x: int, y: int, d: int)
    requires x < y && d > 0
    ensures x * d < y * d
  {
    var k := y - x;
    assert k * d >= d by { MulAtLeast(k, d); }
    assert y * d == x * d + k * d;
  }

  lemma {:induction false} MulAtLeast(k: nat, d: nat)
    requires k >= 1
    ensures k * d >= d
  {
    if k > 1 {
      MulAtLeast(k - 1, d);
      assert k * d == (k - 1) * d + d;
    }
  }

  /** Pooling an unpooled extent gives back the original extent whenever the stride is positive. */
  lemma PoolingUndoesUnpooling(input: int, stride: int, kernel: int, pad: int)
    requires stride > 0
    ensures UnpooledSize(input, stride, kernel, pad) + 2 * pad - kernel == (input - 1) * stride
    ensures PooledSize(UnpooledSize(input, stride, kernel, pad), stride, kernel, pad) == input
  {
    var a := (input - 1) * stride;
    assert UnpooledSize(input, stride, kernel, pad) + 2 * pad - kernel == a;
    var q := CeilDiv(a, stride);
    // CeilDiv places a in ((q - 1) * stride, q * stride], which a = (input - 1) * stride pins to q = input - 1
    if q - 1 > input - 1 {
      MulStrictlyMonotone(input - 1, q - 1, stride);
      assert false;
    } else if q < input - 1 {
      MulStrictlyMonotone(q, input - 1, stride);
      assert false;
    }
  }

  /** The shape Reshape declares is one the paired pooling layer maps back to the bottom shape. */
  lemma PooledShapeOfUnpooledShape(c: Config, bottom: Shape)
    requires c.strideH > 0 && c.strideW > 0
    ensures PooledShape(c, UnpooledShape(c, bottom)) == bottom
  {
    PoolingUndoesUnpooling(bottom.height, c.strideH, c.kernelH, c.padH);
    PoolingUndoesUnpooling(bottom.width, c.strideW, c.kernelW, c.padW);
  }
}

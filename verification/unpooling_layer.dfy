/**
 * The max-unpooling layer: set-up from the parameter message, the reshape that caches the
 * input and unpooled extents, and the CPU forward (scatter) and backward (gather) passes over
 * flat buffers.
 */
module Unpooling {
  import opened Wrappers
  import opened UnpoolConfig
  import opened ScatterGather

  /** Whether LayerSetUp passed all its CHECKs, and if not, the first that failed. */
  datatype Outcome = Pass | Fail(error: SetupError)

  class UnpoolingLayer {
    // resolved configuration
    var kernelH: nat
    var kernelW: nat
    var padH: nat
    var padW: nat
    var strideH: nat
    var strideW: nat
    // extents cached by Reshape
    var channels: nat
    var height: nat
    var width: nat
    var unpooledHeight: int
    var unpooledWidth: int

    /** The configuration the layer holds. */
    function Cfg(): Config
      reads this
    {
      Config(kernelH, kernelW, padH, padW, strideH, strideW)
    }

    /** Reads kernel, pad and stride from the message, in the order of the source's CHECKs. */
    method LayerSetUp(param: UnpoolingParameter) returns (status: Outcome)
      modifies this`kernelH, this`kernelW, this`padH, this`padW, this`strideH, this`strideW
      ensures status == if Resolve(param).Success? then Pass else Fail(Resolve(param).error)
      ensures status.Pass? ==> Cfg() == Resolve(param).value
    {
      var hasKernelPair := param.kernelH.Some? && param.kernelW.Some?;
      if !(param.kernelSize.None? != !hasKernelPair) {
        return Fail(KernelFormConflict);
      }
      if !(param.kernelSize.Some? || hasKernelPair) {
        return Fail(KernelPairRequired);
      }
      if !((param.pad.None? && param.padH.Some? && param.padW.Some?) || (param.padH.None? && param.padW.None?)) {
        return Fail(PadFormConflict);
      }
      if !((param.stride.None? && param.strideH.Some? && param.strideW.Some?)
           || (param.strideH.None? && param.strideW.None?)) {
        return Fail(StrideFormConflict);
      }
      var kh: nat, kw: nat;
      if param.kernelSize.Some? {
        kh, kw := param.kernelSize.value, param.kernelSize.value;
      } else {
        kh, kw := param.kernelH.value, param.kernelW.value;
      }
      if !(kh > 0) {
        return Fail(KernelHeightZero);
      }
      if !(kw > 0) {
        return Fail(KernelWidthZero);
      }
      var ph: nat, pw: nat;
      if param.padH.None? {
        ph, pw := param.pad.GetOr(DefaultPad), param.pad.GetOr(DefaultPad);
      } else {
        ph, pw := param.padH.value, param.padW.value;
      }
      var sh: nat, sw: nat;
      if param.strideH.None? {
        sh, sw := param.stride.GetOr(DefaultStride), param.stride.GetOr(DefaultStride);
      } else {
        sh, sw := param.strideH.value, param.strideW.value;
      }
      if ph != 0 || pw != 0 {
        if !(ph < kh) {
          return Fail(PadHeightTooLarge);
        }
        if !(pw < kw) {
          return Fail(PadWidthTooLarge);
        }
      }
      kernelH, kernelW, padH, padW, strideH, strideW := kh, kw, ph, pw, sh, sw;
      return Pass;
    }

    /**
     * Caches the bottom extents and the unpooled extents and returns the top shape. The result
     * depends only on the bottom shape and the configuration, which it leaves unchanged, so
     * reshaping again with the same bottom shape gives the same top shape.
     */
    method Reshape(bottom: Shape) returns (top: Shape)
      requires bottom.channels >= 0 && bottom.height >= 0 && bottom.width >= 0
      modifies this
      ensures Cfg() == old(Cfg())
      ensures channels == bottom.channels && height == bottom.height && width == bottom.width
      ensures top == UnpooledShape(Cfg(), bottom)
      ensures unpooledHeight == top.height && unpooledWidth == top.width
    {
      channels := bottom.channels;
      height := bottom.height;
      width := bottom.width;
      unpooledHeight := (height - 1) * strideH + kernelH - 2 * padH;
      unpooledWidth := (width - 1) * strideW + kernelW - 2 * padW;
      top := Shape(bottom.num, channels, unpooledHeight, unpooledWidth);
    }

    /**
     * Zero-fills top, then for every (batch, channel) plane writes each bottom element to the
     * offset its mask entry names inside the same plane of top. The buffers hold the blobs'
     * num * channels planes of height * width (bottom, mask) and of unpooled height * unpooled
     * width (top) elements. The plane sizes are computed as products, and OffsetIsProduct ties them to
     * the Offset form the contracts use.
     */
    method ForwardCpu(num: nat, bottom: array<int>, mask: array<int>, top: array<int>)
      requires unpooledHeight >= 0 && unpooledWidth >= 0
      requires bottom.Length == Offset(Planes(num, channels), Offset(height, width)) && mask.Length == bottom.Length
      requires top.Length == Offset(Planes(num, channels), Offset(unpooledHeight, unpooledWidth))
      requires InRange(mask[..], Offset(unpooledHeight, unpooledWidth))
      requires top != bottom && top != mask
      modifies top
      ensures top[..] == ScatterPlanes(bottom[..], mask[..], Planes(num, channels),
                                       Offset(height, width), Offset(unpooledHeight, unpooledWidth))
    {
      var planeIn: nat := height * width;                        // bottom[0]->offset(0, 1)
      var planeOut: nat := unpooledHeight * unpooledWidth;       // top[0]->offset(0, 1)
      OffsetIsProduct(height, width);
      OffsetIsProduct(unpooledHeight, unpooledWidth);
      ghost var planes := Planes(num, channels);
      ghost var b, m := bottom[..], mask[..];

      ZeroFill(top);
      ForwardStart(top[..], b, m, planeIn, planeOut);
      ScatterBatches(bottom, mask, top, num, channels, height, width, planeIn, planeOut, b, m);
      ScatteredAll(top[..], b, m, planes, planeIn, planeOut);
    }

    /**
     * If propagate_down is false, leaves bottomDiff as it is. Otherwise zero-fills bottomDiff and
     * gathers it through the mask, with the three pointers advanced once per batch item: see
     * BackwardAsWritten.
     */
    method BackwardCpu(num: nat, topDiff: array<int>, propagateDown: bool, mask: array<int>, bottomDiff: array<int>)
      requires propagateDown ==> unpooledHeight >= 0 && unpooledWidth >= 0
      requires propagateDown ==>
        bottomDiff.Length == Offset(Planes(num, channels), Offset(height, width)) && mask.Length == bottomDiff.Length
      requires propagateDown ==> topDiff.Length == Offset(Planes(num, channels), Offset(unpooledHeight, unpooledWidth))
      requires propagateDown ==> InRange(mask[..], Offset(unpooledHeight, unpooledWidth))
      requires bottomDiff != topDiff && bottomDiff != mask
      modifies bottomDiff
      ensures !propagateDown ==> bottomDiff[..] == old(bottomDiff[..])
      ensures propagateDown ==>
        bottomDiff[..] == BackwardAsWritten(topDiff[..], mask[..], num, channels,
                                            Offset(height, width), Offset(unpooledHeight, unpooledWidth))
    {
      if !propagateDown {
        return;
      }
      var planeIn: nat := height * width;                        // bottom[0]->offset(0, 1)
      var planeOut: nat := unpooledHeight * unpooledWidth;       // top[0]->offset(0, 1)
      OffsetIsProduct(height, width);
      OffsetIsProduct(unpooledHeight, unpooledWidth);
      ghost var t, m := topDiff[..], mask[..];
      ZeroFill(bottomDiff);
      BackwardStart(bottomDiff[..], t, m, num, channels, planeIn, planeOut);
      GatherBatches(topDiff, mask, bottomDiff, num, channels, height, width, planeIn, planeOut, t, m);
      GatheredAll(bottomDiff[..], t, m, num, channels, planeIn, planeOut);
    }
  }

  /**
   * The batch loop of the forward pass: the channel loop for batch item n, which leaves the three
   * pointers one plane further on per channel.
   */
  method ScatterBatches(bottom: array<int>, mask: array<int>, top: array<int>, num: nat,
                        channels: nat, height: nat, width: nat, planeIn: nat, planeOut: nat, ghost b: seq<int>, ghost m: seq<int>)
    requires planeIn == Offset(height, width)
    requires bottom[..] == b && mask[..] == m && top != bottom && top != mask
    requires |b| == Offset(Planes(num, channels), planeIn) && top.Length == Offset(Planes(num, channels), planeOut)
    requires ScatteredUpTo(top[..], b, m, 0, planeIn, planeOut)
    modifies top
    ensures ScatteredUpTo(top[..], b, m, Planes(num, channels), planeIn, planeOut)
  {
    ghost var planes := Planes(num, channels);
    var bottomData: nat, topData: nat, bottomMask: nat := 0, 0, 0;
    ghost var p: nat := 0;
    var n := 0;
    while n < num
      invariant n <= num && p == Offset(n, channels)
      invariant bottomData == bottomMask == Offset(p, planeIn) && topData == Offset(p, planeOut)
      invariant bottom[..] == b && mask[..] == m
      invariant ScatteredUpTo(top[..], b, m, p, planeIn, planeOut)
    {
      OffsetMonotone(n + 1, num, channels);
      bottomData, bottomMask, topData :=
        ScatterChannels(bottom, mask, top, bottomData, bottomMask, topData, channels, height, width, planeOut, b, m, planes, p);
      p := p + channels;
      n := n + 1;
    }
  }

  /**
   * The channel loop of the forward pass for one batch item: scatters planes p0 .. p0 + channels - 1,
   * advancing the three pointers by one plane after each, and returns the advanced pointers.
   */
  method ScatterChannels(bottom: array<int>, mask: array<int>, top: array<int>, bottomData0: nat, bottomMask0: nat, topData0: nat,
                         channels: nat, height: nat, width: nat, planeOut: nat,
                         ghost b: seq<int>, ghost m: seq<int>, ghost planes: nat, ghost p0: nat)
    returns (bottomData: nat, bottomMask: nat, topData: nat)
    requires bottom[..] == b && mask[..] == m && top != bottom && top != mask
    requires |b| == Offset(planes, Offset(height, width)) && top.Length == Offset(planes, planeOut) && p0 + channels <= planes
    requires bottomData0 == bottomMask0 == Offset(p0, Offset(height, width)) && topData0 == Offset(p0, planeOut)
    requires ScatteredUpTo(top[..], b, m, p0, Offset(height, width), planeOut)
    modifies top
    ensures bottomData == bottomMask == Offset(p0 + channels, Offset(height, width)) && topData == Offset(p0 + channels, planeOut)
    ensures ScatteredUpTo(top[..], b, m, p0 + channels, Offset(height, width), planeOut)
  {
    ghost var planeIn: nat := Offset(height, width);
    bottomData, bottomMask, topData := bottomData0, bottomMask0, topData0;
    ghost var p := p0;
    var c := 0;
    while c < channels
      invariant c <= channels && p == p0 + c
      invariant bottomData == bottomMask == Offset(p, planeIn) && topData == Offset(p, planeOut)
      invariant bottom[..] == b && mask[..] == m
      invariant ScatteredUpTo(top[..], b, m, p, planeIn, planeOut)
    {
      bottomData, bottomMask, topData :=
        ScatterPlane(bottom, mask, top, bottomData, bottomMask, topData, height, width, planeOut, b, m, planes, p);
      p := p + 1;
      c := c + 1;
    }
  }

  /**
   * One pass of the channel loop of the forward pass: scatters plane p of bottom, whose data
   * starts at bottomData in bottom and bottomMask in mask, into plane p of top, which starts at
   * topData, after the first p planes; then returns the three pointers advanced by one plane.
   */
  method ScatterPlane(bottom: array<int>, mask: array<int>, top: array<int>, bottomData: nat, bottomMask: nat, topData: nat,
                      height: nat, width: nat, planeOut: nat, ghost b: seq<int>, ghost m: seq<int>, ghost planes: nat, ghost p: nat)
    returns (bottomData': nat, bottomMask': nat, topData': nat)
    requires bottom[..] == b && mask[..] == m && top != bottom && top != mask
    requires |b| == Offset(planes, Offset(height, width)) && top.Length == Offset(planes, planeOut) && p < planes
    requires bottomData == bottomMask == Offset(p, Offset(height, width)) && topData == Offset(p, planeOut)
    requires ScatteredUpTo(top[..], b, m, p, Offset(height, width), planeOut)
    modifies top
    ensures bottomData' == bottomMask' == Offset(p + 1, Offset(height, width)) && topData' == Offset(p + 1, planeOut)
    ensures ScatteredUpTo(top[..], b, m, p + 1, Offset(height, width), planeOut)
  {
    ForwardPlaneReady(top[..], b, m, planes, p, Offset(height, width), planeOut);
    ghost var before := top[..];
    UnpoolPlane(bottom, mask, top, bottomData, bottomMask, topData, height, width, planeOut, b, m);
    ForwardPlaneDone(before, top[..], b, m, p, Offset(height, width), planeOut);
    OffsetNext(p, Offset(height, width));
    OffsetNext(p, planeOut);
    var planeIn: nat := height * width;
    OffsetIsProduct(height, width);
    // compute offset
    bottomData' := bottomData + planeIn;
    topData' := topData + planeOut;
    bottomMask' := bottomMask + planeIn;
  }

  /**
   * The ph/pw loops of the forward pass over one (batch, channel) plane: element
   * ph * width + pw of the bottom plane goes to the offset its mask entry names in the same
   * plane of top, which holds zeros on entry. Everything outside the plane is left as it was.
   */
  method UnpoolPlane(bottom: array<int>, mask: array<int>, top: array<int>, bottomData: nat, bottomMask: nat, topData: nat,
                     height: nat, width: nat, planeOut: nat, ghost b: seq<int>, ghost m: seq<int>)
    requires bottom[..] == b && mask[..] == m && top != bottom && top != mask && bottomMask == bottomData
    requires PlaneReady(top[..], b, m, bottomData, topData, Offset(height, width), planeOut)
    modifies top
    ensures PlaneHolds(old(top[..]), top[..], topData,
                       Scatter(b[bottomData..bottomData + Offset(height, width)], m[bottomData..bottomData + Offset(height, width)], planeOut))
  {
    ghost var planeIn: nat := Offset(height, width);
    ghost var bp, mp := b[bottomData..bottomData + planeIn], m[bottomData..bottomData + planeIn];
    ghost var before := top[..];
    ghost var sp := Zeros(planeOut);
    assert ScatterPrefix(sp, bp, mp, planeOut, 0);
    PlaneHoldsStart(before, topData, sp);
    var ph := 0;
    ghost var k: nat := 0;
    while ph < height
      invariant ph <= height && k == Offset(ph, width) && k <= planeIn
      invariant ScatterPrefix(sp, bp, mp, planeOut, k)
      invariant PlaneHolds(before, top[..], topData, sp)
    {
      PlaneFits(ph, height, width);
      OffsetIsProduct(ph, width);
      var pw := 0;
      while pw < width
        invariant pw <= width && k == Offset(ph, width) + pw && k <= planeIn
        invariant ScatterPrefix(sp, bp, mp, planeOut, k)
        invariant PlaneHolds(before, top[..], topData, sp)
      {
        var index := ph * width + pw;
        var maskIndex := mask[bottomMask + index];
        assert mp[k] == maskIndex && bp[k] == bottom[bottomData + index];
        ScatterStep(sp, bp, mp, planeOut, k);
        PlaneHoldsWrite(before, top[..], topData, sp, maskIndex, bp[k]);
        top[topData + maskIndex] := bottom[bottomData + index];
        sp := sp[maskIndex := bp[k]];
        pw := pw + 1;
        k := k + 1;
      }
      ph := ph + 1;
    }
    ScatterPrefixAll(sp, bp, mp, planeOut);
  }

  /**
   * The batch loop of the backward pass: the channel loop for batch item n, then the three
   * pointers advance by one plane, once per batch item.
   */
  method GatherBatches(topDiff: array<int>, mask: array<int>, bottomDiff: array<int>, num: nat,
                       channels: nat, height: nat, width: nat, planeIn: nat, planeOut: nat, ghost t: seq<int>, ghost m: seq<int>)
    requires planeIn == Offset(height, width)
    requires topDiff[..] == t && mask[..] == m && bottomDiff != topDiff && bottomDiff != mask
    requires channels > 0 ==> Offset(num, planeIn) <= |m| && Offset(num, planeOut) <= |t|
    requires GatheredUpTo(bottomDiff[..], t, m, 0, planeIn, planeOut)
    modifies bottomDiff
    ensures GatheredUpTo(bottomDiff[..], t, m, if channels == 0 then 0 else num, planeIn, planeOut)
  {
    var bottomDiffOff: nat, topDiffOff: nat, bottomMask: nat := 0, 0, 0;
    var n := 0;
    while n < num
      invariant n <= num
      invariant bottomDiffOff == bottomMask == Offset(n, planeIn) && topDiffOff == Offset(n, planeOut)
      invariant topDiff[..] == t && mask[..] == m
      invariant GatheredUpTo(bottomDiff[..], t, m, if channels == 0 then 0 else n, planeIn, planeOut)
    {
      GatherChannels(topDiff, mask, bottomDiff, topDiffOff, bottomMask, bottomDiffOff, channels, height, width, planeOut, t, m, num, n);
      OffsetNext(n, planeIn);
      OffsetNext(n, planeOut);
      // compute offset: once per batch item
      bottomDiffOff := bottomDiffOff + planeIn;
      topDiffOff := topDiffOff + planeOut;
      bottomMask := bottomMask + planeIn;
      n := n + 1;
    }
  }

  /**
   * The channel loop of the backward pass for batch item n: the pointers are not advanced inside
   * it, so every channel gathers plane n again.
   */
  method GatherChannels(topDiff: array<int>, mask: array<int>, bottomDiff: array<int>, topDiffOff: nat, bottomMask: nat, bottomDiffOff: nat,
                        channels: nat, height: nat, width: nat, planeOut: nat,
                        ghost t: seq<int>, ghost m: seq<int>, ghost num: nat, ghost n: nat)
    requires topDiff[..] == t && mask[..] == m && bottomDiff != topDiff && bottomDiff != mask
    requires channels > 0 ==> Offset(num, Offset(height, width)) <= |m| && Offset(num, planeOut) <= |t|
    requires n < num && bottomDiffOff == bottomMask == Offset(n, Offset(height, width)) && topDiffOff == Offset(n, planeOut)
    requires GatheredUpTo(bottomDiff[..], t, m, if channels == 0 then 0 else n, Offset(height, width), planeOut)
    modifies bottomDiff
    ensures GatheredUpTo(bottomDiff[..], t, m, if channels == 0 then 0 else n + 1, Offset(height, width), planeOut)
  {
    ghost var cur := Zeros(Offset(height, width));
    if channels > 0 {
      PlaneFits(n, num, Offset(height, width));
      PlaneFits(n, num, planeOut);
      GatherSlotStart(bottomDiff[..], t, m, n, Offset(height, width), planeOut);
    }
    var c := 0;
    while c < channels
      invariant c <= channels
      invariant topDiff[..] == t && mask[..] == m
      invariant channels == 0 ==> bottomDiff[..] == old(bottomDiff[..])
      invariant channels > 0 ==> GatherSlot(bottomDiff[..], t, m, n, cur, Offset(height, width), planeOut)
      invariant c > 0 ==> cur == GatheredPlane(t, m, n, Offset(height, width), planeOut)
    {
      GatherPlane(topDiff, mask, bottomDiff, topDiffOff, bottomMask, bottomDiffOff, height, width, planeOut, t, m, n, cur);
      cur := GatheredPlane(t, m, n, Offset(height, width), planeOut);
      c := c + 1;
    }
    if channels > 0 {
      GatherSlotFinish(bottomDiff[..], t, m, n, Offset(height, width), planeOut);
    }
  }

  /**
   * One pass of the channel loop of the backward pass: gathers plane n of topDiff, which starts
   * at topDiffOff, through plane n of the mask into plane n of bottomDiff, both of which start at
   * bottomMask and bottomDiffOff. Plane n ends up holding its gather whatever it held before.
   */
  method GatherPlane(topDiff: array<int>, mask: array<int>, bottomDiff: array<int>, topDiffOff: nat, bottomMask: nat, bottomDiffOff: nat,
                     height: nat, width: nat, planeOut: nat, ghost t: seq<int>, ghost m: seq<int>, ghost n: nat, ghost cur: seq<int>)
    requires topDiff[..] == t && mask[..] == m && bottomDiff != topDiff && bottomDiff != mask && bottomMask == bottomDiffOff
    requires bottomDiffOff == Offset(n, Offset(height, width)) && topDiffOff == Offset(n, planeOut)
    requires GatherSlot(bottomDiff[..], t, m, n, cur, Offset(height, width), planeOut)
    modifies bottomDiff
    ensures GatherSlot(bottomDiff[..], t, m, n, GatheredPlane(t, m, n, Offset(height, width), planeOut), Offset(height, width), planeOut)
  {
    GatherSlotReady(bottomDiff[..], t, m, n, cur, bottomDiffOff, topDiffOff, Offset(height, width), planeOut);
    ghost var before := bottomDiff[..];
    UnpoolPlaneBackward(topDiff, mask, bottomDiff, topDiffOff, bottomMask, bottomDiffOff, height, width, planeOut, t, m);
    GatherSlotDone(before, bottomDiff[..], t, m, n, cur, bottomDiffOff, topDiffOff, Offset(height, width), planeOut);
  }

  /**
   * The ph/pw loops of the backward pass over one plane: element ph * width + pw of the
   * bottom plane takes the top gradient at the offset its mask entry names in the top plane.
   * Everything outside the plane is left as it was.
   */
  method UnpoolPlaneBackward(topDiff: array<int>, mask: array<int>, bottomDiff: array<int>,
                             topDiffOff: nat, bottomMask: nat, bottomDiffOff: nat, height: nat, width: nat, planeOut: nat,
                             ghost t: seq<int>, ghost m: seq<int>)
    requires topDiff[..] == t && mask[..] == m && bottomDiff != topDiff && bottomDiff != mask && bottomMask == bottomDiffOff
    requires GatherReady(bottomDiff[..], t, m, bottomDiffOff, topDiffOff, Offset(height, width), planeOut)
    modifies bottomDiff
    ensures PrefixHolds(old(bottomDiff[..]), bottomDiff[..], bottomDiffOff,
                        Gather(t[topDiffOff..topDiffOff + planeOut], m[bottomDiffOff..bottomDiffOff + Offset(height, width)]),
                        Offset(height, width))
  {
    ghost var planeIn: nat := Offset(height, width);
    ghost var tp, mp := t[topDiffOff..topDiffOff + planeOut], m[bottomDiffOff..bottomDiffOff + planeIn];
    ghost var gp := Gather(tp, mp);
    ghost var before := bottomDiff[..];
    var ph := 0;
    ghost var k: nat := 0;
    while ph < height
      invariant ph <= height && k == Offset(ph, width) && k <= planeIn
      invariant PrefixHolds(before, bottomDiff[..], bottomDiffOff, gp, k)
    {
      PlaneFits(ph, height, width);
      OffsetIsProduct(ph, width);
      var pw := 0;
      while pw < width
        invariant pw <= width && k == Offset(ph, width) + pw && k <= planeIn
        invariant PrefixHolds(before, bottomDiff[..], bottomDiffOff, gp, k)
      {
        var index := ph * width + pw;
        var maskIndex := mask[bottomMask + index];
        assert mp[k] == maskIndex && gp[k] == tp[maskIndex] == topDiff[topDiffOff + maskIndex];
        PrefixHoldsWrite(before, bottomDiff[..], bottomDiffOff, gp, k);
        bottomDiff[bottomDiffOff + index] := topDiff[topDiffOff + maskIndex];
        pw := pw + 1;
        k := k + 1;
      }
      ph := ph + 1;
    }
  }

  /** caffe_set(count, 0, a): every element of a becomes zero. */
  method ZeroFill(a: array<int>)
    modifies a
    ensures a[..] == Zeros(a.Length)
  {
    var q := 0;
    while q < a.Length
      invariant 0 <= q <= a.Length
      invariant a[..q] == Zeros(q)
    {
      a[q] := 0;
      q := q + 1;
    }
    assert a[..] == a[..q];
  }
}

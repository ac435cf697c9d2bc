/**
 * The scatter and gather of max-unpooling as functions on flat buffers.
 *
 * A buffer of shape (num, channels, h, w) is a flat sequence of num * channels planes of h * w
 * elements, row-major within a plane. The mask holds, for every element of the small input, an
 * offset inside the corresponding plane of the large output.
 */
module ScatterGather {
  import opened Wrappers

  // ---------------------------------------------------------------------------------------------
  // Planes of a flat buffer

  /**
   * The flat offset of plane p when every plane holds `size` elements, i.e. p * size (OffsetIsProduct).
   * Stated by recursion so that reasoning about plane boundaries stays linear.
   */
  function Offset(p: nat, size: nat): nat {
    if p == 0 then 0 else Offset(p - 1, size) + size
  }

  lemma {:induction false} OffsetIsProduct(p: nat, size: nat)
    ensures Offset(p, size) == p * size
  {
    if p > 0 {
      OffsetIsProduct(p - 1, size);
      assert (p - 1) * size + size == p * size;
    }
  }

  lemma {:induction false} OffsetOfUnitPlanes(p: nat)
    ensures Offset(p, 1) == p
  {
    if p > 0 {
      OffsetOfUnitPlanes(p - 1);
    }
  }

  /** The number of (batch, channel) planes of a blob, num * channels (OffsetIsProduct). */
  function Planes(num: nat, channels: nat): (r: nat)
    ensures channels == 1 ==> r == num
  {
    OffsetOfUnitPlanes(num);
    Offset(num, channels)
  }

  /** There are num * channels planes. */
  lemma PlanesIsProduct(num: nat, channels: nat)
    ensures Planes(num, channels) == num * channels
  {
    OffsetIsProduct(num, channels);
  }

  lemma {:induction false} OffsetMonotone(p: nat, q: nat, size: nat)
    requires p <= q
    ensures Offset(p, size) <= Offset(q, size)
    decreases q
  {
    if p < q {
      OffsetMonotone(p, q - 1, size);
    }
  }

  /** One more plane starts one plane further on: the pointer advance by one plane. */
  lemma OffsetNext(p: nat, size: nat)
    ensures Offset(p + 1, size) == Offset(p, size) + size
  {
  }

  /** Plane p ends within the first `planes` planes. */
  lemma PlaneFits(p: nat, planes: nat, size: nat)
    requires p < planes
    ensures Offset(p, size) + size <= Offset(planes, size)
  {
    OffsetMonotone(p + 1, planes, size);
  }

  /** Plane p of a flat buffer whose planes hold `size` elements; empty if the buffer is too short. */
  function Plane(s: seq<int>, p: nat, size: nat): seq<int> {
    if Offset(p, size) + size <= |s| then s[Offset(p, size) .. Offset(p, size) + size] else []
  }

  /** Element j of plane p is element Offset(p, size) + j of the buffer. */
  lemma PlaneAt(s: seq<int>, p: nat, size: nat, j: nat)
    requires Offset(p, size) + size <= |s| && j < size
    ensures |Plane(s, p, size)| == size && Plane(s, p, size)[j] == s[Offset(p, size) + j]
  {
  }

  function Zeros(n: nat): seq<int> {
    seq(n, _ => 0)
  }

  lemma ZerosSplit(a: nat, b: nat)
    ensures Zeros(a + b) == Zeros(a) + Zeros(b)
  {
  }

  /** Every entry of idx is an offset into a plane of `size` elements. */
  ghost predicate InRange(idx: seq<int>, size: nat) {
    forall k :: 0 <= k < |idx| ==> 0 <= idx[k] < size
  }

  /** No offset occurs twice. */
  ghost predicate Distinct(idx: seq<int>) {
    forall i, j :: 0 <= i < j < |idx| ==> idx[i] != idx[j]
  }

  /** Every plane of the mask among the first `planes` has distinct offsets. */
  ghost predicate DistinctPlanes(m: seq<int>, planes: nat, size: nat) {
    forall p :: 0 <= p < planes ==> Distinct(Plane(m, p, size))
  }

  // ---------------------------------------------------------------------------------------------
  // One plane

  /** The last position at which x occurs in s. */
  function LastIndexOf(s: seq<int>, x: int): (r: Option<nat>)
    ensures r.None? <==> x !in s
    ensures r.Some? ==> r.value < |s| && s[r.value] == x
    ensures r.Some? ==> forall k :: r.value < k < |s| ==> s[k] != x
  {
    if |s| == 0 then None
    else if s[|s| - 1] == x then Some(|s| - 1)
    else LastIndexOf(s[..|s| - 1], x)
  }

  /**
   * The value a sequence of writes vals[i] to offsets idx[i], in order of i, leaves at offset j
   * of a zero-filled plane: the last write to j, or zero if nothing writes to j.
   */
  function LastWritten(vals: seq<int>, idx: seq<int>, j: int): int
    requires |vals| == |idx|
  {
    match LastIndexOf(idx, j)
    case None => 0
    case Some(i) => vals[i]
  }

  /** The forward pass on one plane: zero `size` elements, then write vals[i] at idx[i] for i = 0, 1, ... */
  function Scatter(vals: seq<int>, idx: seq<int>, size: nat): (r: seq<int>)
    requires |vals| == |idx| && InRange(idx, size)
    ensures |r| == size
    decreases |idx|
  {
    if |idx| == 0 then Zeros(size)
    else
      var n := |idx| - 1;
      Scatter(vals[..n], idx[..n], size)[idx[n] := vals[n]]
  }

  /** The backward pass on one plane: element i reads offset idx[i]. */
  function Gather(vals: seq<int>, idx: seq<int>): (r: seq<int>)
    requires InRange(idx, |vals|)
    ensures |r| == |idx|
  {
    seq(|idx|, i => if 0 <= i < |idx| then vals[idx[i]] else 0)
  }

  /** Every offset of a scattered plane holds the last value written to it, or zero. */
  lemma {:induction false} ScatterAt(vals: seq<int>, idx: seq<int>, size: nat, j: nat)
    requires |vals| == |idx| && InRange(idx, size) && j < size
    ensures Scatter(vals, idx, size)[j] == LastWritten(vals, idx, j)
    decreases |idx|
  {
    if |idx| > 0 {
      var n := |idx| - 1;
      if idx[n] != j {
        ScatterAt(vals[..n], idx[..n], size, j);
        assert LastIndexOf(idx, j) == LastIndexOf(idx[..n], j);
      }
    }
  }

  /** An offset no mask entry names stays zero. */
  lemma ScatterUntouched(vals: seq<int>, idx: seq<int>, size: nat, j: nat)
    requires |vals| == |idx| && InRange(idx, size) && j < size && j !in idx
    ensures Scatter(vals, idx, size)[j] == 0
  {
    ScatterAt(vals, idx, size, j);
  }

  /** With duplicate offsets the last write wins: the value at the largest i naming j. */
  lemma ScatterLastWriteWins(vals: seq<int>, idx: seq<int>, size: nat, i: nat)
    requires |vals| == |idx| && InRange(idx, size) && i < |idx|
    requires forall k :: i < k < |idx| ==> idx[k] != idx[i]
    ensures Scatter(vals, idx, size)[idx[i]] == vals[i]
  {
    ScatterAt(vals, idx, size, idx[i]);
    var r := LastIndexOf(idx, idx[i]);
    assert r.Some? && r.value >= i;
  }

  /** Gathering a scattered plane through the same distinct offsets gives back the values. */
  lemma GatherScatter(vals: seq<int>, idx: seq<int>, size: nat)
    requires |vals| == |idx| && InRange(idx, size) && Distinct(idx)
    ensures Gather(Scatter(vals, idx, size), idx) == vals
  {
    var s := Scatter(vals, idx, size);
    forall i | 0 <= i < |idx|
      ensures Gather(s, idx)[i] == vals[i]
    {
      ScatterLastWriteWins(vals, idx, size, i);
    }
  }

  // ---------------------------------------------------------------------------------------------
  // All planes

  lemma SliceInRange(m: seq<int>, lo: nat, hi: nat, size: nat)
    requires InRange(m, size) && lo <= hi <= |m|
    ensures InRange(m[lo..hi], size)
  {
    forall k | 0 <= k < hi - lo
      ensures 0 <= m[lo..hi][k] < size
    {
      assert m[lo..hi][k] == m[lo + k];
    }
  }

  lemma PlaneInRange(m: seq<int>, p: nat, inSize: nat, outSize: nat)
    requires InRange(m, outSize)
    ensures InRange(Plane(m, p, inSize), outSize)
  {
  }

  /**
   * The forward pass on the first `planes` planes: plane p of the output is the scatter of
   * plane p of the input through plane p of the mask.
   */
  function ScatterPlanes(b: seq<int>, m: seq<int>, planes: nat, inSize: nat, outSize: nat): (r: seq<int>)
    requires |b| == |m| && Offset(planes, inSize) <= |b| && InRange(m, outSize)
    ensures |r| == Offset(planes, outSize)
  {
    if planes == 0 then []
    else
      PlaneInRange(m, planes - 1, inSize, outSize);
      ScatterPlanes(b, m, planes - 1, inSize, outSize)
        + Scatter(Plane(b, planes - 1, inSize), Plane(m, planes - 1, inSize), outSize)
  }

  /**
   * The per-plane gather over the first `planes` planes: plane p of the result gathers from plane p
   * of t through plane p of the mask.
   */
  function GatherPlanes(t: seq<int>, m: seq<int>, planes: nat, inSize: nat, outSize: nat): (r: seq<int>)
    requires Offset(planes, outSize) <= |t| && Offset(planes, inSize) <= |m| && InRange(m, outSize)
    ensures |r| == Offset(planes, inSize)
  {
    if planes == 0 then []
    else
      PlaneInRange(m, planes - 1, inSize, outSize);
      GatherPlanes(t, m, planes - 1, inSize, outSize)
        + Gather(Plane(t, planes - 1, outSize), Plane(m, planes - 1, inSize))
  }

  /** Appending to a buffer leaves its planes as they were. */
  lemma PlaneOfConcat(s: seq<int>, x: seq<int>, p: nat, size: nat)
    requires Offset(p, size) + size <= |s|
    ensures Plane(s + x, p, size) == Plane(s, p, size)
  {
    var o := Offset(p, size);
    assert (s + x)[o..o + size] == s[o..o + size];
  }

  /** A plane appended right after plane p - 1 becomes plane p. */
  lemma PlaneOfConcatLast(s: seq<int>, x: seq<int>, p: nat, size: nat)
    requires |s| == Offset(p, size) && |x| == size
    ensures Plane(s + x, p, size) == x
  {
    assert (s + x)[|s|..|s| + size] == x;
  }

  /** Each plane of the forward output depends on its own input and mask plane only. */
  lemma {:induction false} ScatterPlanesPlane(b: seq<int>, m: seq<int>, planes: nat, inSize: nat, outSize: nat, p: nat)
    requires |b| == |m| && Offset(planes, inSize) <= |b| && InRange(m, outSize) && p < planes
    ensures InRange(Plane(m, p, inSize), outSize)
    ensures Plane(ScatterPlanes(b, m, planes, inSize, outSize), p, outSize)
         == Scatter(Plane(b, p, inSize), Plane(m, p, inSize), outSize)
  {
    PlaneInRange(m, p, inSize, outSize);
    PlaneInRange(m, planes - 1, inSize, outSize);
    var prev := ScatterPlanes(b, m, planes - 1, inSize, outSize);
    var last := Scatter(Plane(b, planes - 1, inSize), Plane(m, planes - 1, inSize), outSize);
    assert ScatterPlanes(b, m, planes, inSize, outSize) == prev + last;
    if p < planes - 1 {
      ScatterPlanesPlane(b, m, planes - 1, inSize, outSize, p);
      PlaneFits(p, planes - 1, outSize);
      PlaneOfConcat(prev, last, p, outSize);
    } else {
      PlaneOfConcatLast(prev, last, p, outSize);
    }
  }

  /** Each plane of the gathered buffer depends on its own plane of t and of the mask only. */
  lemma {:induction false} GatherPlanesPlane(t: seq<int>, m: seq<int>, planes: nat, inSize: nat, outSize: nat, p: nat)
    requires Offset(planes, outSize) <= |t| && Offset(planes, inSize) <= |m| && InRange(m, outSize) && p < planes
    ensures |Plane(t, p, outSize)| == outSize && InRange(Plane(m, p, inSize), outSize)
    ensures Plane(GatherPlanes(t, m, planes, inSize, outSize), p, inSize)
         == Gather(Plane(t, p, outSize), Plane(m, p, inSize))
  {
    PlaneInRange(m, p, inSize, outSize);
    PlaneFits(p, planes, outSize);
    PlaneInRange(m, planes - 1, inSize, outSize);
    PlaneFits(planes - 1, planes, outSize);
    var prev := GatherPlanes(t, m, planes - 1, inSize, outSize);
    var last := Gather(Plane(t, planes - 1, outSize), Plane(m, planes - 1, inSize));
    assert GatherPlanes(t, m, planes, inSize, outSize) == prev + last;
    if p < planes - 1 {
      GatherPlanesPlane(t, m, planes - 1, inSize, outSize, p);
      PlaneFits(p, planes - 1, inSize);
      PlaneOfConcat(prev, last, p, inSize);
    } else {
      PlaneOfConcatLast(prev, last, p, inSize);
    }
  }

  /** Cutting a buffer after plane p leaves plane p as it was. */
  lemma PlaneOfPrefix(s: seq<int>, p: nat, size: nat, k: nat)
    requires Offset(p, size) + size <= k <= |s|
    ensures Plane(s[..k], p, size) == Plane(s, p, size)
  {
    var o := Offset(p, size);
    assert s[..k][o..o + size] == s[o..o + size];
  }

  /** Two buffers of `planes` planes that agree plane by plane are equal. */
  lemma {:induction false} PlanesEqual(s: seq<int>, t: seq<int>, planes: nat, size: nat)
    requires |s| == Offset(planes, size) && |t| == Offset(planes, size)
    requires forall p :: 0 <= p < planes ==> Plane(s, p, size) == Plane(t, p, size)
    ensures s == t
    decreases planes
  {
    if planes > 0 {
      var k := Offset(planes - 1, size);
      forall p | 0 <= p < planes - 1
        ensures Plane(s[..k], p, size) == Plane(t[..k], p, size)
      {
        PlaneFits(p, planes - 1, size);
        PlaneOfPrefix(s, p, size, k);
        PlaneOfPrefix(t, p, size, k);
      }
      PlanesEqual(s[..k], t[..k], planes - 1, size);
      assert s[k..] == Plane(s, planes - 1, size);
      assert t[k..] == Plane(t, planes - 1, size);
      assert s == s[..k] + s[k..];
      assert t == t[..k] + t[k..];
    }
  }

  /** The per-plane gather undoes the forward scatter when every mask plane has distinct offsets. */
  lemma GatherPlanesScatterPlanes(b: seq<int>, m: seq<int>, planes: nat, inSize: nat, outSize: nat)
    requires |b| == Offset(planes, inSize) && |m| == |b| && InRange(m, outSize)
    requires DistinctPlanes(m, planes, inSize)
    ensures GatherPlanes(ScatterPlanes(b, m, planes, inSize, outSize), m, planes, inSize, outSize) == b
  {
    var s := ScatterPlanes(b, m, planes, inSize, outSize);
    var g := GatherPlanes(s, m, planes, inSize, outSize);
    forall p | 0 <= p < planes
      ensures Plane(g, p, inSize) == Plane(b, p, inSize)
    {
      GatherPlanesPlane(s, m, planes, inSize, outSize, p);
      ScatterPlanesPlane(b, m, planes, inSize, outSize, p);
      PlaneFits(p, planes, inSize);
      GatherScatter(Plane(b, p, inSize), Plane(m, p, inSize), outSize);
    }
    PlanesEqual(g, b, planes, inSize);
  }

  // ---------------------------------------------------------------------------------------------
  // One write at a time: the steps the layer's loops take

  /** sp is the forward pass on one plane after its first k writes. */
  ghost predicate ScatterPrefix(sp: seq<int>, vals: seq<int>, idx: seq<int>, size: nat, k: nat) {
    k <= |vals| == |idx| && InRange(idx, size) && InRange(idx[..k], size) && sp == Scatter(vals[..k], idx[..k], size)
  }

  /** Scattering one more element is one more write. */
  lemma ScatterStep(sp: seq<int>, vals: seq<int>, idx: seq<int>, size: nat, k: nat)
    requires ScatterPrefix(sp, vals, idx, size, k) && k < |idx|
    ensures 0 <= idx[k] < |sp|
    ensures ScatterPrefix(sp[idx[k] := vals[k]], vals, idx, size, k + 1)
  {
    SliceInRange(idx, 0, k + 1, size);
    assert vals[..k + 1][..k] == vals[..k];
    assert idx[..k + 1][..k] == idx[..k];
  }

  /** After all writes, sp is the whole plane's forward pass. */
  lemma ScatterPrefixAll(sp: seq<int>, vals: seq<int>, idx: seq<int>, size: nat)
    requires ScatterPrefix(sp, vals, idx, size, |vals|)
    ensures sp == Scatter(vals, idx, size)
  {
    assert vals[..|vals|] == vals && idx[..|idx|] == idx;
  }

  /** The forward output with its first p planes scattered and the rest still zero. */
  ghost predicate ScatteredUpTo(top: seq<int>, b: seq<int>, m: seq<int>, p: nat, inSize: nat, outSize: nat) {
    |b| == |m| && Offset(p, inSize) <= |b| && InRange(m, outSize) && Offset(p, outSize) <= |top|
    && top == ScatterPlanes(b, m, p, inSize, outSize) + Zeros(|top| - Offset(p, outSize))
  }

  /** The zero-filled forward output has no plane scattered yet. */
  lemma ForwardStart(top: seq<int>, b: seq<int>, m: seq<int>, inSize: nat, outSize: nat)
    requires |b| == |m| && InRange(m, outSize) && top == Zeros(|top|)
    ensures ScatteredUpTo(top, b, m, 0, inSize, outSize)
  {
    assert top == [] + Zeros(|top|);
  }

  /** In a buffer made of a prefix and zeros, the k elements after the prefix are zero. */
  lemma ZerosAfter(top: seq<int>, x: seq<int>, o: nat, k: nat)
    requires o + k <= |top| && |x| == o && top == x + Zeros(|top| - o)
    ensures top[o..o + k] == Zeros(k)
  {
  }

  /**
   * What the forward pass over one plane needs: the input plane at bi and the output plane at ti
   * fit, the input plane's mask entries are in range and the output plane is still zero.
   */
  ghost predicate PlaneReady(top: seq<int>, b: seq<int>, m: seq<int>, bi: nat, ti: nat, inSize: nat, outSize: nat) {
    bi + inSize <= |b| == |m| && ti + outSize <= |top|
    && InRange(m[bi..bi + inSize], outSize) && top[ti..ti + outSize] == Zeros(outSize)
  }

  /** Before plane p of `planes` is scattered, it is ready. */
  lemma ForwardPlaneReady(top: seq<int>, b: seq<int>, m: seq<int>, planes: nat, p: nat, inSize: nat, outSize: nat)
    requires ScatteredUpTo(top, b, m, p, inSize, outSize)
    requires |b| == Offset(planes, inSize) && |top| == Offset(planes, outSize) && p < planes
    ensures PlaneReady(top, b, m, Offset(p, inSize), Offset(p, outSize), inSize, outSize)
  {
    PlaneFits(p, planes, inSize);
    PlaneFits(p, planes, outSize);
    SliceInRange(m, Offset(p, inSize), Offset(p, inSize) + inSize, outSize);
    ZerosAfter(top, ScatterPlanes(b, m, p, inSize, outSize), Offset(p, outSize), outSize);
  }

  /** The scatter of p + 1 planes extends that of p planes by plane p, taken as slices of the buffers. */
  lemma ScatterPlanesNext(b: seq<int>, m: seq<int>, p: nat, inSize: nat, outSize: nat)
    requires |b| == |m| && Offset(p, inSize) + inSize <= |b| && InRange(m, outSize)
    requires InRange(m[Offset(p, inSize)..Offset(p, inSize) + inSize], outSize)
    ensures ScatterPlanes(b, m, p + 1, inSize, outSize)
         == ScatterPlanes(b, m, p, inSize, outSize)
            + Scatter(b[Offset(p, inSize)..Offset(p, inSize) + inSize], m[Offset(p, inSize)..Offset(p, inSize) + inSize], outSize)
  {
    assert Plane(b, p, inSize) == b[Offset(p, inSize)..Offset(p, inSize) + inSize];
    assert Plane(m, p, inSize) == m[Offset(p, inSize)..Offset(p, inSize) + inSize];
  }

  /** top' is top with plane p replaced by the scatter of plane p of b through plane p of the mask. */
  ghost predicate PlaneScatteredInto(top: seq<int>, top': seq<int>, b: seq<int>, m: seq<int>, p: nat, inSize: nat, outSize: nat) {
    Offset(p, inSize) + inSize <= |b| && Offset(p, inSize) + inSize <= |m| && Offset(p, outSize) + outSize <= |top|
    && InRange(m[Offset(p, inSize)..Offset(p, inSize) + inSize], outSize)
    && top' == top[..Offset(p, outSize)]
               + Scatter(b[Offset(p, inSize)..Offset(p, inSize) + inSize], m[Offset(p, inSize)..Offset(p, inSize) + inSize], outSize)
               + top[Offset(p, outSize) + outSize..]
  }

  /**
   * After plane p is scattered in place (top' holds its scatter there and agrees with top
   * elsewhere), the first p + 1 planes are scattered and the rest is still zero.
   */
  lemma ForwardPlaneDone(top: seq<int>, top': seq<int>, b: seq<int>, m: seq<int>, p: nat, inSize: nat, outSize: nat)
    requires ScatteredUpTo(top, b, m, p, inSize, outSize)
    requires PlaneReady(top, b, m, Offset(p, inSize), Offset(p, outSize), inSize, outSize)
    requires PlaneHolds(top, top', Offset(p, outSize),
                        Scatter(b[Offset(p, inSize)..Offset(p, inSize) + inSize], m[Offset(p, inSize)..Offset(p, inSize) + inSize], outSize))
    ensures ScatteredUpTo(top', b, m, p + 1, inSize, outSize)
  {
    PlaneHoldsSplice(top, top', Offset(p, outSize),
                     Scatter(b[Offset(p, inSize)..Offset(p, inSize) + inSize], m[Offset(p, inSize)..Offset(p, inSize) + inSize], outSize));
    ForwardPlaneSpliced(top, top', b, m, p, inSize, outSize);
  }

  /** The same, with plane p spliced into top. */
  lemma ForwardPlaneSpliced(top: seq<int>, top': seq<int>, b: seq<int>, m: seq<int>, p: nat, inSize: nat, outSize: nat)
    requires ScatteredUpTo(top, b, m, p, inSize, outSize)
    requires PlaneScatteredInto(top, top', b, m, p, inSize, outSize)
    ensures ScatteredUpTo(top', b, m, p + 1, inSize, outSize)
  {
    var rest := |top| - Offset(p, outSize) - outSize;
    ScatterPlanesNext(b, m, p, inSize, outSize);
    ZerosSplit(outSize, rest);
    SpliceMiddle(top, top', ScatterPlanes(b, m, p, inSize, outSize), Zeros(outSize), Zeros(rest),
      Scatter(b[Offset(p, inSize)..Offset(p, inSize) + inSize], m[Offset(p, inSize)..Offset(p, inSize) + inSize], outSize),
      Offset(p, outSize), outSize);
  }

  /** The whole forward output: every plane scattered. */
  lemma ScatteredAll(top: seq<int>, b: seq<int>, m: seq<int>, planes: nat, inSize: nat, outSize: nat)
    requires ScatteredUpTo(top, b, m, planes, inSize, outSize) && |top| == Offset(planes, outSize)
    ensures top == ScatterPlanes(b, m, planes, inSize, outSize)
  {
    assert Zeros(0) == [];
  }

  /** The backward output with its first g planes gathered and the rest still zero. */
  ghost predicate GatheredUpTo(d: seq<int>, t: seq<int>, m: seq<int>, g: nat, inSize: nat, outSize: nat) {
    |d| == |m| && Offset(g, inSize) <= |m| && Offset(g, outSize) <= |t| && InRange(m, outSize)
    && d == GatherPlanes(t, m, g, inSize, outSize) + Zeros(|d| - Offset(g, inSize))
  }

  /**
   * The zero-filled backward output has no plane gathered yet, and with at least one channel the
   * first num planes of the buffers fit.
   */
  lemma BackwardStart(d: seq<int>, t: seq<int>, m: seq<int>, num: nat, channels: nat, inSize: nat, outSize: nat)
    requires |t| == Offset(Planes(num, channels), outSize) && |m| == Offset(Planes(num, channels), inSize)
    requires InRange(m, outSize) && d == Zeros(|m|)
    ensures channels > 0 ==> Offset(num, inSize) <= |m| && Offset(num, outSize) <= |t|
    ensures GatheredUpTo(d, t, m, 0, inSize, outSize)
  {
    if channels > 0 {
      BatchesWithinPlanes(num, channels);
      OffsetMonotone(num, Planes(num, channels), inSize);
      OffsetMonotone(num, Planes(num, channels), outSize);
    }
    assert d == [] + Zeros(|d|);
  }

  /**
   * What the backward pass over one plane needs: the plane at di of d and of the mask and the
   * plane at ti of t fit, and the mask plane's entries are in range.
   */
  ghost predicate GatherReady(d: seq<int>, t: seq<int>, m: seq<int>, di: nat, ti: nat, inSize: nat, outSize: nat) {
    |d| == |m| && di + inSize <= |m| && ti + outSize <= |t| && InRange(m[di..di + inSize], outSize)
  }

  /** The gather of n + 1 planes extends that of n planes by the gather of plane n. */
  lemma GatherPlanesNext(t: seq<int>, m: seq<int>, n: nat, inSize: nat, outSize: nat)
    requires Offset(n, inSize) + inSize <= |m| && Offset(n, outSize) + outSize <= |t| && InRange(m, outSize)
    ensures InRange(Plane(m, n, inSize), outSize)
    ensures GatherPlanes(t, m, n + 1, inSize, outSize)
         == GatherPlanes(t, m, n, inSize, outSize) + Gather(Plane(t, n, outSize), Plane(m, n, inSize))
  {
    PlaneInRange(m, n, inSize, outSize);
  }

  /** The gather of plane n of t through plane n of the mask. */
  ghost function GatheredPlane(t: seq<int>, m: seq<int>, n: nat, inSize: nat, outSize: nat): (r: seq<int>)
    requires Offset(n, inSize) + inSize <= |m| && Offset(n, outSize) + outSize <= |t| && InRange(m, outSize)
    ensures |r| == inSize
  {
    PlaneInRange(m, n, inSize, outSize);
    Gather(Plane(t, n, outSize), Plane(m, n, inSize))
  }

  /**
   * The backward output while the channel loop of batch item n runs: the first n planes are
   * gathered, plane n holds cur and the rest is zero.
   */
  ghost predicate GatherSlot(d: seq<int>, t: seq<int>, m: seq<int>, n: nat, cur: seq<int>, inSize: nat, outSize: nat) {
    |d| == |m| && Offset(n, inSize) + inSize <= |m| && Offset(n, outSize) + outSize <= |t| && InRange(m, outSize)
    && |cur| == inSize
    && d == GatherPlanes(t, m, n, inSize, outSize) + cur + Zeros(|d| - Offset(n, inSize) - inSize)
  }

  /** Before the channel loop of batch item n, plane n of the output is still zero. */
  lemma GatherSlotStart(d: seq<int>, t: seq<int>, m: seq<int>, n: nat, inSize: nat, outSize: nat)
    requires GatheredUpTo(d, t, m, n, inSize, outSize)
    requires Offset(n, inSize) + inSize <= |m| && Offset(n, outSize) + outSize <= |t|
    ensures GatherSlot(d, t, m, n, Zeros(inSize), inSize, outSize)
  {
    ZerosSplit(inSize, |d| - Offset(n, inSize) - inSize);
  }

  /** Once plane n holds its gather, the first n + 1 planes are gathered and the rest is zero. */
  lemma GatherSlotFinish(d: seq<int>, t: seq<int>, m: seq<int>, n: nat, inSize: nat, outSize: nat)
    requires Offset(n, inSize) + inSize <= |m| && Offset(n, outSize) + outSize <= |t| && InRange(m, outSize)
    requires GatherSlot(d, t, m, n, GatheredPlane(t, m, n, inSize, outSize), inSize, outSize)
    ensures GatheredUpTo(d, t, m, n + 1, inSize, outSize)
  {
    GatherPlanesNext(t, m, n, inSize, outSize);
  }

  /** With the pointers at plane n, the plane is ready to be gathered. */
  lemma GatherSlotReady(d: seq<int>, t: seq<int>, m: seq<int>, n: nat, cur: seq<int>, di: nat, ti: nat, inSize: nat, outSize: nat)
    requires GatherSlot(d, t, m, n, cur, inSize, outSize) && di == Offset(n, inSize) && ti == Offset(n, outSize)
    ensures GatherReady(d, t, m, di, ti, inSize, outSize)
  {
    SliceInRange(m, di, di + inSize, outSize);
  }

  /**
   * Gathering plane n in place (d' holds its gather there and agrees with d elsewhere) puts the
   * gather of plane n into the slot, whatever the slot held before.
   */
  lemma GatherSlotDone(d: seq<int>, d': seq<int>, t: seq<int>, m: seq<int>, n: nat, cur: seq<int>, di: nat, ti: nat,
                       inSize: nat, outSize: nat)
    requires GatherSlot(d, t, m, n, cur, inSize, outSize) && di == Offset(n, inSize) && ti == Offset(n, outSize)
    requires GatherReady(d, t, m, di, ti, inSize, outSize)
    requires PrefixHolds(d, d', di, Gather(t[ti..ti + outSize], m[di..di + inSize]), inSize)
    ensures GatherSlot(d', t, m, n, GatheredPlane(t, m, n, inSize, outSize), inSize, outSize)
  {
    var y := Gather(t[ti..ti + outSize], m[di..di + inSize]);
    PlaneIsSlice(t, n, outSize, ti);
    PlaneIsSlice(m, n, inSize, di);
    assert y == GatheredPlane(t, m, n, inSize, outSize);
    PrefixHoldsSplice(d, d', di, y);
    SpliceMiddle(d, d', GatherPlanes(t, m, n, inSize, outSize), cur, Zeros(|d| - di - inSize), y, di, inSize);
  }

  /** The backward buffer once the loops end: it is the as-written backward pass. */
  lemma GatheredAll(d: seq<int>, t: seq<int>, m: seq<int>, num: nat, channels: nat, inSize: nat, outSize: nat)
    requires |t| == Offset(Planes(num, channels), outSize) && |m| == Offset(Planes(num, channels), inSize)
    requires GatheredUpTo(d, t, m, if channels == 0 then 0 else num, inSize, outSize)
    ensures d == BackwardAsWritten(t, m, num, channels, inSize, outSize)
  {
    if channels == 0 {
      assert d == [] + Zeros(|d|);
    }
  }

  /** d' holds y in its w elements from o on, and agrees with d everywhere else. */
  ghost predicate PlaneHolds(d: seq<int>, d': seq<int>, o: nat, y: seq<int>) {
    |d'| == |d| && o + |y| <= |d|
    && (forall i :: 0 <= i < |y| ==> d'[o + i] == y[i])
    && (forall j :: 0 <= j < |d| && !(o <= j < o + |y|) ==> d'[j] == d[j])
  }

  /** Before any write, the buffer holds its own plane. */
  lemma PlaneHoldsStart(d: seq<int>, o: nat, y: seq<int>)
    requires o + |y| <= |d| && d[o..o + |y|] == y
    ensures PlaneHolds(d, d, o, y)
  {
    forall i | 0 <= i < |y|
      ensures d[o + i] == y[i]
    {
      assert d[o..o + |y|][i] == d[o + i];
    }
  }

  /** A write at offset j of the plane is a write at offset j of its contents. */
  lemma PlaneHoldsWrite(d: seq<int>, d': seq<int>, o: nat, y: seq<int>, j: nat, v: int)
    requires PlaneHolds(d, d', o, y) && j < |y|
    ensures PlaneHolds(d, d'[o + j := v], o, y[j := v])
  {
  }

  /** Once the plane is complete, the buffer is d with the plane spliced in. */
  lemma PlaneHoldsSplice(d: seq<int>, d': seq<int>, o: nat, y: seq<int>)
    requires PlaneHolds(d, d', o, y)
    ensures d' == d[..o] + y + d[o + |y|..]
  {
    forall j | 0 <= j < |d'|
      ensures d'[j] == (d[..o] + y + d[o + |y|..])[j]
    {
      if o <= j < o + |y| {
        assert d'[o + (j - o)] == y[j - o];
      }
    }
  }

  /** d' holds the first k elements of y from o on, and agrees with d everywhere else. */
  ghost predicate PrefixHolds(d: seq<int>, d': seq<int>, o: nat, y: seq<int>, k: nat) {
    |d'| == |d| && k <= |y| && o + |y| <= |d|
    && (forall i :: 0 <= i < k ==> d'[o + i] == y[i])
    && (forall j :: 0 <= j < |d| && !(o <= j < o + k) ==> d'[j] == d[j])
  }

  /** Writing element k of y at o + k extends the written prefix by one. */
  lemma PrefixHoldsWrite(d: seq<int>, d': seq<int>, o: nat, y: seq<int>, k: nat)
    requires PrefixHolds(d, d', o, y, k) && k < |y|
    ensures PrefixHolds(d, d'[o + k := y[k]], o, y, k + 1)
  {
  }

  /** Once all of y is written, the buffer is d with y spliced in at o. */
  lemma PrefixHoldsSplice(d: seq<int>, d': seq<int>, o: nat, y: seq<int>)
    requires PrefixHolds(d, d', o, y, |y|)
    ensures d' == d[..o] + y + d[o + |y|..]
  {
    PlaneHoldsSplice(d, d', o, y);
  }

  /** Replacing the middle part of a three-part buffer. */
  lemma SpliceMiddle(d: seq<int>, d': seq<int>, a: seq<int>, x: seq<int>, z: seq<int>, y: seq<int>, o: nat, w: nat)
    requires d == a + (x + z) && |a| == o && |x| == w
    requires d' == d[..o] + y + d[o + w..]
    ensures d' == (a + y) + z
  {
    assert d[..|a|] == a;
    assert d[|a| + |x|..] == z;
  }

  /** Plane p is the slice that starts at Offset(p, size). */
  lemma PlaneIsSlice(s: seq<int>, p: nat, size: nat, o: nat)
    requires o == Offset(p, size) && o + size <= |s|
    ensures Plane(s, p, size) == s[o..o + size]
  {
  }

  // ---------------------------------------------------------------------------------------------
  // Element by element

  /** Offset j of plane p of the forward output holds the last input value whose mask entry names j, or zero. */
  lemma ForwardAt(b: seq<int>, m: seq<int>, planes: nat, inSize: nat, outSize: nat, p: nat, j: nat)
    requires |b| == |m| && Offset(planes, inSize) <= |b| && InRange(m, outSize)
    requires p < planes && j < outSize
    ensures Offset(p, outSize) + j < Offset(planes, outSize)
    ensures ScatterPlanes(b, m, planes, inSize, outSize)[Offset(p, outSize) + j]
         == LastWritten(Plane(b, p, inSize), Plane(m, p, inSize), j)
  {
    PlaneFits(p, planes, outSize);
    PlaneFits(p, planes, inSize);
    var s := ScatterPlanes(b, m, planes, inSize, outSize);
    var bp, mp := Plane(b, p, inSize), Plane(m, p, inSize);
    PlaneInRange(m, p, inSize, outSize);
    ScatterPlanesPlane(b, m, planes, inSize, outSize, p);
    ScatterAt(bp, mp, outSize, j);
    PlaneAt(s, p, outSize, j);
  }

  /** The zero fill survives at every output offset that no mask entry of the same plane names. */
  lemma ForwardZeroFill(b: seq<int>, m: seq<int>, planes: nat, inSize: nat, outSize: nat, p: nat, j: nat)
    requires |b| == |m| && Offset(planes, inSize) <= |b| && InRange(m, outSize)
    requires p < planes && j < outSize && j !in Plane(m, p, inSize)
    ensures Offset(p, outSize) + j < Offset(planes, outSize)
    ensures ScatterPlanes(b, m, planes, inSize, outSize)[Offset(p, outSize) + j] == 0
  {
    ForwardAt(b, m, planes, inSize, outSize, p, j);
  }

  /**
   * When the mask plane has distinct offsets, input element i of plane p lands at the offset its
   * mask entry names inside output plane p.
   */
  lemma ForwardScatters(b: seq<int>, m: seq<int>, planes: nat, inSize: nat, outSize: nat, p: nat, i: nat)
    requires |b| == |m| && Offset(planes, inSize) <= |b| && InRange(m, outSize)
    requires p < planes && i < inSize && Distinct(Plane(m, p, inSize))
    ensures Offset(p, inSize) + i < |b| && 0 <= m[Offset(p, inSize) + i] < outSize
    ensures Offset(p, outSize) + m[Offset(p, inSize) + i] < Offset(planes, outSize)
    ensures ScatterPlanes(b, m, planes, inSize, outSize)[Offset(p, outSize) + m[Offset(p, inSize) + i]]
         == b[Offset(p, inSize) + i]
  {
    PlaneFits(p, planes, inSize);
    var bp, mp := Plane(b, p, inSize), Plane(m, p, inSize);
    PlaneAt(b, p, inSize, i);
    PlaneAt(m, p, inSize, i);
    var j := mp[i];
    PlaneInRange(m, p, inSize, outSize);
    ForwardAt(b, m, planes, inSize, outSize, p, j);
    ScatterLastWriteWins(bp, mp, outSize, i);
    ScatterAt(bp, mp, outSize, j);
  }

  // ---------------------------------------------------------------------------------------------
  // Backward as written: pointers advance once per batch item

  /** With at least one channel there are at least as many planes as batch items. */
  lemma {:induction false} BatchesWithinPlanes(num: nat, channels: nat)
    requires channels >= 1
    ensures num <= Planes(num, channels)
  {
    if num > 0 {
      BatchesWithinPlanes(num - 1, channels);
    }
  }

  /**
   * The input gradient Backward leaves. Its pointers advance once per batch item, not once per
   * (batch, channel) plane, so for batch item n every channel iteration gathers into flat plane n,
   * from flat plane n of t through flat plane n of the mask; the planes from num on keep the zero
   * fill. With no channel the loop body never runs and the (empty) buffer is only zero-filled.
   */
  function BackwardAsWritten(t: seq<int>, m: seq<int>, num: nat, channels: nat, inSize: nat, outSize: nat): (r: seq<int>)
    requires |t| == Offset(Planes(num, channels), outSize) && |m| == Offset(Planes(num, channels), inSize)
    requires InRange(m, outSize)
    ensures |r| == |m|
  {
    if channels == 0 then Zeros(|m|)
    else
      BatchesWithinPlanes(num, channels);
      OffsetMonotone(num, Offset(num, channels), outSize);
      OffsetMonotone(num, Offset(num, channels), inSize);
      GatherPlanes(t, m, num, inSize, outSize) + Zeros(|m| - Offset(num, inSize))
  }

  /** With at least one channel, flat plane n < num of the gradient gathers plane n of t through plane n of the mask. */
  lemma BackwardAsWrittenPlane(t: seq<int>, m: seq<int>, num: nat, channels: nat, inSize: nat, outSize: nat, n: nat)
    requires |t| == Offset(Planes(num, channels), outSize) && |m| == Offset(Planes(num, channels), inSize)
    requires InRange(m, outSize) && channels >= 1 && n < num
    ensures |Plane(t, n, outSize)| == outSize && InRange(Plane(m, n, inSize), outSize)
    ensures Plane(BackwardAsWritten(t, m, num, channels, inSize, outSize), n, inSize)
         == Gather(Plane(t, n, outSize), Plane(m, n, inSize))
  {
    BatchesWithinPlanes(num, channels);
    OffsetMonotone(num, Offset(num, channels), outSize);
    OffsetMonotone(num, Offset(num, channels), inSize);
    PlaneFits(n, num, inSize);
    var g := GatherPlanes(t, m, num, inSize, outSize);
    GatherPlanesPlane(t, m, num, inSize, outSize, n);
    assert Plane(BackwardAsWritten(t, m, num, channels, inSize, outSize), n, inSize) == Plane(g, n, inSize);
  }

  /** Element i of flat plane n < num of the gradient reads t at the offset mask element i of plane n names. */
  lemma BackwardAt(t: seq<int>, m: seq<int>, num: nat, channels: nat, inSize: nat, outSize: nat, n: nat, i: nat)
    requires |t| == Offset(Planes(num, channels), outSize) && |m| == Offset(Planes(num, channels), inSize)
    requires InRange(m, outSize) && channels >= 1 && n < num && i < inSize
    ensures Offset(n, inSize) + i < |m| && Offset(n, outSize) + m[Offset(n, inSize) + i] < |t|
    ensures BackwardAsWritten(t, m, num, channels, inSize, outSize)[Offset(n, inSize) + i]
         == t[Offset(n, outSize) + m[Offset(n, inSize) + i]]
  {
    BackwardAsWrittenPlane(t, m, num, channels, inSize, outSize, n);
    BatchesWithinPlanes(num, channels);
    OffsetMonotone(num, Offset(num, channels), outSize);
    OffsetMonotone(num, Offset(num, channels), inSize);
    PlaneFits(n, num, inSize);
    PlaneFits(n, num, outSize);
    var r := BackwardAsWritten(t, m, num, channels, inSize, outSize);
    var pt, pm := Plane(t, n, outSize), Plane(m, n, inSize);
    PlaneAt(m, n, inSize, i);
    assert pm[i] == m[Offset(n, inSize) + i];
    PlaneAt(t, n, outSize, pm[i]);
    PlaneAt(r, n, inSize, i);
    assert r[Offset(n, inSize) + i] == Gather(pt, pm)[i] == pt[pm[i]];
  }

  /** Every gradient element past the first num planes is zero, whatever the channel count. */
  lemma BackwardAsWrittenTailZero(t: seq<int>, m: seq<int>, num: nat, channels: nat, inSize: nat, outSize: nat, q: nat)
    requires |t| == Offset(Planes(num, channels), outSize) && |m| == Offset(Planes(num, channels), inSize)
    requires InRange(m, outSize) && Offset(num, inSize) <= q < |m|
    ensures BackwardAsWritten(t, m, num, channels, inSize, outSize)[q] == 0
  {
  }

  /** With one channel the per-batch advance coincides with the per-plane gather. */
  lemma BackwardAsWrittenOneChannel(t: seq<int>, m: seq<int>, num: nat, inSize: nat, outSize: nat)
    requires |t| == Offset(num, outSize) && |m| == Offset(num, inSize) && InRange(m, outSize)
    ensures BackwardAsWritten(t, m, num, 1, inSize, outSize) == GatherPlanes(t, m, num, inSize, outSize)
  {
    assert Zeros(0) == [];
  }

  /**
   * With one channel and distinct offsets in every mask plane, Backward applied to Forward's
   * output gives back the input.
   */
  lemma RoundTripOneChannel(b: seq<int>, m: seq<int>, num: nat, inSize: nat, outSize: nat)
    requires |b| == Offset(num, inSize) && |m| == |b| && InRange(m, outSize)
    requires DistinctPlanes(m, num, inSize)
    ensures BackwardAsWritten(ScatterPlanes(b, m, num, inSize, outSize), m, num, 1, inSize, outSize) == b
  {
    var s := ScatterPlanes(b, m, num, inSize, outSize);
    BackwardAsWrittenOneChannel(s, m, num, inSize, outSize);
    GatherPlanesScatterPlanes(b, m, num, inSize, outSize);
  }

  /**
   * One batch item, two channels of one element each, both mask entries 0: the per-batch advance
   * gathers plane 0 twice and leaves plane 1 at zero, so Backward of Forward's output is [1, 0],
   * not the input [1, 2]; the per-plane gather gives the input back.
   */
  lemma BackwardAsWrittenLosesChannels()
    ensures InRange([0, 0], 1)
    ensures Offset(Planes(1, 2), 1) == 2
    ensures ScatterPlanes([1, 2], [0, 0], 2, 1, 1) == [1, 2]
    ensures BackwardAsWritten([1, 2], [0, 0], 1, 2, 1, 1) == [1, 0]
    ensures GatherPlanes([1, 2], [0, 0], 2, 1, 1) == [1, 2]
  {
    TwoPlanesOfOne();
    ScatterTwoPlanes();
    GatherTwoPlanes();
    assert Zeros(2 - 1) == [0];
  }

  lemma TwoPlanesOfOne()
    ensures InRange([0, 0], 1) && InRange([0], 1)
    ensures Offset(1, 1) == 1 && Offset(2, 1) == 2
    ensures Plane([1, 2], 0, 1) == [1] && Plane([1, 2], 1, 1) == [2]
    ensures Plane([0, 0], 0, 1) == [0] && Plane([0, 0], 1, 1) == [0]
  {
    forall k | 0 <= k < 2 ensures 0 <= [0, 0][k] < 1 {
    }
    assert Offset(1, 1) == 1;
  }

  lemma ScatterTwoPlanes()
    requires InRange([0, 0], 1) && InRange([0], 1)
    requires Offset(1, 1) == 1 && Offset(2, 1) == 2
    requires Plane([1, 2], 0, 1) == [1] && Plane([1, 2], 1, 1) == [2]
    requires Plane([0, 0], 0, 1) == [0] && Plane([0, 0], 1, 1) == [0]
    ensures ScatterPlanes([1, 2], [0, 0], 2, 1, 1) == [1, 2]
  {
    assert Zeros(1) == [0];
    assert Scatter([1], [0], 1) == [1];
    assert Scatter([2], [0], 1) == [2];
    assert ScatterPlanes([1, 2], [0, 0], 1, 1, 1) == [1];
  }

  lemma GatherTwoPlanes()
    requires InRange([0, 0], 1) && InRange([0], 1)
    requires Offset(1, 1) == 1 && Offset(2, 1) == 2
    requires Plane([1, 2], 0, 1) == [1] && Plane([1, 2], 1, 1) == [2]
    requires Plane([0, 0], 0, 1) == [0] && Plane([0, 0], 1, 1) == [0]
    ensures GatherPlanes([1, 2], [0, 0], 1, 1, 1) == [1]
    ensures GatherPlanes([1, 2], [0, 0], 2, 1, 1) == [1, 2]
  {
    var g1, g2 := Gather([1], [0]), Gather([2], [0]);
    assert |g1| == 1 && g1[0] == 1 && |g2| == 1 && g2[0] == 2;
    assert g1 == [1] && g2 == [2];
  }

  /**
   * A 2 x 2 input unpooled into a 4 x 4 plane (kernel 2, stride 2, no pad), with mask offsets
   * 0, 2, 8 and 10: the plane is zero except for the four inputs at those offsets, and gathering
   * it through the same mask gives the input back.
   */
  lemma ForwardExample()
    ensures InRange([0, 2, 8, 10], 16)
    ensures Scatter([1, 2, 3, 4], [0, 2, 8, 10], 16) == [1, 0, 2, 0, 0, 0, 0, 0, 3, 0, 4, 0, 0, 0, 0, 0]
    ensures Gather([1, 0, 2, 0, 0, 0, 0, 0, 3, 0, 4, 0, 0, 0, 0, 0], [0, 2, 8, 10]) == [1, 2, 3, 4]
  {
    forall k | 0 <= k < 4 ensures 0 <= [0, 2, 8, 10][k] < 16 { }
    assert [1, 2, 3, 4][..3] == [1, 2, 3];
    assert [0, 2, 8, 10][..3] == [0, 2, 8];
    assert [1, 2, 3][..2] == [1, 2];
    assert [0, 2, 8][..2] == [0, 2];
    assert [1, 2][..1] == [1];
    assert [0, 2][..1] == [0];
    assert [1][..0] == [];
    assert [0][..0] == [];
    var s0 := Scatter([], [], 16);
    var s1 := Scatter([1], [0], 16);
    var s2 := Scatter([1, 2], [0, 2], 16);
    var s3 := Scatter([1, 2, 3], [0, 2, 8], 16);
    assert s1 == s0[0 := 1];
    assert s2 == s1[2 := 2];
    assert s3 == s2[8 := 3];
    assert Scatter([1, 2, 3, 4], [0, 2, 8, 10], 16) == s3[10 := 4];
  }
}

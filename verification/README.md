# Max-unpooling layer (video-caffe), modelled in Dafny

This project models the CPU core of video-caffe's `UnpoolingLayer`. That is the layer that undoes
a max-pooling step: it puts every input value back at the position the pooling layer recorded in
its mask, inside a larger output plane that is otherwise zero.

- `wrappers.dfy`: the `Option` and `Result` datatypes.
- `unpool_config.dfy` (module `UnpoolConfig`) covers configuration and shapes.
  - The unpooling parameter message, with each optional field as an `Option`.
  - `Resolve`: the set-up checks as a function from the message to a `Config` or the first failing
    check.
  - The output-size formula of `Reshape`, and a proof that the paired pooling layer's size formula
    maps the unpooled size back to the input size.
- `scatter_gather.dfy` (module `ScatterGather`) holds the specification on flat buffers.
  - A blob of shape (num, channels, h, w) is `num * channels` planes of `h * w` elements.
  - `Offset(p, size)` is the start of plane `p`.
  - `Scatter` is the forward pass on one plane: zero the plane, then write the inputs in order.
  - `Gather` is the backward pass on one plane.
  - `ScatterPlanes` and `GatherPlanes` apply them plane by plane.
  - `BackwardAsWritten` is the backward pass as the code computes it, with its pointers advanced
    once per batch item.
  - The module also proves lemmas about these functions, plus the step lemmas the loops use.
- `unpooling_layer.dfy` (module `Unpooling`) holds the class `UnpoolingLayer`.
  - Its fields are the resolved configuration and the extents that `Reshape` caches.
  - `LayerSetUp`, `Reshape`, `ForwardCpu` and `BackwardCpu` are imperative methods proved
    against the specification.
  - Each level of the nested loops is a method of its own: the channel loop, then the
    `ph`/`pw` loops over one plane.
  - Buffers are `array<int>`. The three data pointers are natural-number offsets into those
    arrays, advanced as the code advances them.

In two places the code does something other than what the layer evidently intends; the model follows the code:

- The backward pass advances its three pointers once per batch item (`unpooling_layer.cpp:134-139`),
  not once per (batch, channel) plane. See Findings.
- A stride of zero is not rejected by the set-up, so `Resolve` accepts it. The pooling inverse
  (`PoolingUndoesUnpooling`) is stated for a positive stride only.

## Model

| member | source | states |
|---|---|---|
| UnpoolConfig.Resolve | src/caffe/layers/unpooling_layer.cpp:19-60 | Accepted exactly when: exactly one kernel form is given, the pad and stride forms are each well formed, both kernel extents are positive, and a nonzero pad is below the kernel on both axes. Each malformed form gives its own error, in check order. The second kernel check can never be the one that fails. An accepted configuration holds the values the message selects, with pad 0 and stride 1 when unset. |
| Unpooling.UnpoolingLayer.LayerSetUp | src/caffe/layers/unpooling_layer.cpp:15-61 | Passes exactly when `Resolve` accepts, and otherwise reports the first failing check. On success the layer holds the resolved kernel, pad and stride. |
| Unpooling.UnpoolingLayer.Reshape | src/caffe/layers/unpooling_layer.cpp:64-76 | Caches the bottom extents and the unpooled extents `(h - 1) * stride + kernel - 2 * pad`. Returns the top shape (num, channels, unpooled height, unpooled width). Leaves the configuration unchanged. |
| UnpoolConfig.PoolingUndoesUnpooling | src/caffe/layers/unpooling_layer.cpp:72-73 | For a positive stride, the max-pooling size formula (ceiling mode, without the padding clip) maps the unpooled extent back to the input extent. |
| UnpoolConfig.PooledShapeOfUnpooledShape | src/caffe/layers/unpooling_layer.cpp:72-75 | Pooling the shape `Reshape` declares gives back the bottom shape. |
| UnpoolConfig.UnpooledShape | src/caffe/layers/unpooling_layer.cpp:74-75 | The top shape keeps the bottom's batch and channel counts. Only the spatial extents change. |
| UnpoolConfig.UnpooledShapeExample | src/caffe/layers/unpooling_layer.cpp:72-75 | Example: with a 2 x 2 kernel, stride 2 and no padding, a (1, 1, 2, 2) bottom gives a (1, 1, 4, 4) top. |
| UnpoolConfig.CeilDiv | src/caffe/layers/unpooling_layer.cpp:72-73 | The quotient rounded up, characterised by `(q - 1) * d < a <= q * d`. The ceiling-mode pooling size formula (without the padding clip) that the unpooled size inverts uses it. |
| ScatterGather.OffsetIsProduct | src/caffe/layers/unpooling_layer.cpp:104-106 | Advancing a pointer by one plane `p` times reaches `p * size`. |
| ScatterGather.PlanesIsProduct | src/caffe/layers/unpooling_layer.cpp:94-95 | The batch and channel loops visit `num * channels` planes. |
| ScatterGather.Scatter | src/caffe/layers/unpooling_layer.cpp:96-101 | The forward pass on one plane has exactly as many elements as the output plane. |
| ScatterGather.ScatterAt | src/caffe/layers/unpooling_layer.cpp:96-101 | Every output offset of a plane holds the value of the last input whose mask entry names it, or zero if none does. |
| ScatterGather.ScatterUntouched | src/caffe/layers/unpooling_layer.cpp:90-101 | An output offset that no mask entry names keeps the zero fill. |
| ScatterGather.ScatterLastWriteWins | src/caffe/layers/unpooling_layer.cpp:97-100 | Where mask entries collide, the input written last wins. |
| ScatterGather.Gather | src/caffe/layers/unpooling_layer.cpp:127-133 | The backward pass on one plane has one element per mask entry. Its partner `GatherScatter` shows that it undoes `Scatter` when the mask offsets are distinct. |
| ScatterGather.GatherScatter | src/caffe/layers/unpooling_layer.cpp:96-131 | On one plane with distinct mask offsets, gathering the scattered plane gives back the input. |
| ScatterGather.ForwardExample | src/caffe/layers/unpooling_layer.cpp:90-101 | Example: a 2 x 2 input [1, 2, 3, 4] with mask [0, 2, 8, 10] unpools to a 4 x 4 plane that is zero except at those offsets. Gathering the plane through the mask gives the input back. |
| ScatterGather.ForwardStart | src/caffe/layers/unpooling_layer.cpp:90 | The zero-filled top buffer has no plane scattered yet, with every later element zero. |
| ScatterGather.ScatterPlanes | src/caffe/layers/unpooling_layer.cpp:94-107 | The forward output over `planes` planes has `planes` output planes of elements. |
| ScatterGather.ScatterPlanesPlane | src/caffe/layers/unpooling_layer.cpp:94-107 | Output plane `p` is the scatter of input plane `p` through mask plane `p`. No other plane affects it. |
| ScatterGather.GatherPlanes | src/caffe/layers/unpooling_layer.cpp:125-139 | The per-plane gather has `planes` input planes of elements. This is the corrected backward pass. |
| ScatterGather.GatherPlanesPlane | src/caffe/layers/unpooling_layer.cpp:125-139 | Plane `p` of the per-plane gather reads plane `p` of the top gradient through mask plane `p` only. |
| ScatterGather.GatherPlanesScatterPlanes | src/caffe/layers/unpooling_layer.cpp:94-139 | If every mask plane has distinct offsets, the per-plane gather of the forward output gives back the forward input. |
| ScatterGather.ForwardAt | src/caffe/layers/unpooling_layer.cpp:94-107 | Element `j` of output plane `p` is the last input of plane `p` whose mask entry is `j`, or zero. |
| ScatterGather.ForwardZeroFill | src/caffe/layers/unpooling_layer.cpp:90-107 | An output offset that no mask entry of its plane names is zero. |
| ScatterGather.ForwardScatters | src/caffe/layers/unpooling_layer.cpp:98-100 | If a mask plane has distinct offsets, input element `i` of plane `p` lands at `Offset(p, out) + mask[Offset(p, in) + i]`. |
| ScatterGather.BackwardStart | src/caffe/layers/unpooling_layer.cpp:121 | The zero-filled bottom gradient has no plane gathered yet. With at least one channel, the first `num` planes of the gradient, mask and top gradient fit their buffers. |
| ScatterGather.BackwardAsWritten | src/caffe/layers/unpooling_layer.cpp:121-139 | The backward output has the bottom's length. |
| ScatterGather.BackwardAsWrittenPlane | src/caffe/layers/unpooling_layer.cpp:125-139 | With at least one channel, flat plane `n < num` of the gradient gathers flat plane `n` of the top gradient through flat plane `n` of the mask. |
| ScatterGather.BackwardAt | src/caffe/layers/unpooling_layer.cpp:129-131 | Element `i` of flat plane `n < num` is `t[Offset(n, out) + mask[Offset(n, in) + i]]`. |
| ScatterGather.BackwardAsWrittenTailZero | src/caffe/layers/unpooling_layer.cpp:121-139 | Every gradient element past the first `num` planes keeps the zero fill. |
| ScatterGather.BackwardAsWrittenOneChannel | src/caffe/layers/unpooling_layer.cpp:125-139 | With one channel the code's backward pass equals the per-plane gather. |
| ScatterGather.RoundTripOneChannel | src/caffe/layers/unpooling_layer.cpp:81-139 | With one channel and distinct mask offsets, the backward pass of the forward output gives back the input. |
| ScatterGather.BackwardAsWrittenLosesChannels | src/caffe/layers/unpooling_layer.cpp:134-139 | Example: one batch item, two channels of one element, mask [0, 0]. The forward pass gives [1, 2] and the backward pass as written gives [1, 0]. The per-plane gather gives [1, 2]. |
| Unpooling.UnpoolingLayer.ForwardCpu | src/caffe/layers/unpooling_layer.cpp:81-109 | Leaves `top` equal to `ScatterPlanes` of the bottom data and mask over all num * channels planes. |
| Unpooling.ScatterBatches | src/caffe/layers/unpooling_layer.cpp:94-107 | The batch loop scatters all `num * channels` planes in order over the zero-filled top buffer. |
| Unpooling.ScatterChannels | src/caffe/layers/unpooling_layer.cpp:95-107 | The channel loop of one batch item scatters its `channels` planes after the ones before. It returns the three pointers advanced by `channels` planes. |
| Unpooling.ScatterPlane | src/caffe/layers/unpooling_layer.cpp:96-106 | One channel iteration extends the scattered prefix of `top` by plane `p` and leaves the rest zero. It returns the three pointers advanced by one plane. |
| Unpooling.UnpoolPlane | src/caffe/layers/unpooling_layer.cpp:96-102 | The `ph`/`pw` loops write the scatter of the current bottom plane into the zeroed top plane. Nothing outside that plane changes. |
| Unpooling.UnpoolingLayer.BackwardCpu | src/caffe/layers/unpooling_layer.cpp:112-140 | Without `propagate_down` the bottom gradient is unchanged. Otherwise it equals `BackwardAsWritten` of the top gradient and mask. |
| Unpooling.GatherBatches | src/caffe/layers/unpooling_layer.cpp:125-139 | The batch loop, advancing the three pointers once per batch item, leaves the first `num` flat planes gathered and the rest zero. With no channel the buffer stays all zero. |
| Unpooling.GatherChannels | src/caffe/layers/unpooling_layer.cpp:126-134 | The channel loop of batch item `n` gathers flat plane `n` on every channel, because the pointers do not move. If there is any channel, the gathered prefix grows to `n + 1` planes. |
| Unpooling.GatherPlane | src/caffe/layers/unpooling_layer.cpp:127-133 | Gathering plane `n` puts its gather into plane `n` of the bottom gradient, whatever that plane held before. The first `n` planes stay gathered and the rest stays zero. |
| Unpooling.UnpoolPlaneBackward | src/caffe/layers/unpooling_layer.cpp:127-133 | The `ph`/`pw` loops write the gather of the current top plane through the mask plane into the current bottom plane. Nothing outside that plane changes. |
| Unpooling.ZeroFill | src/caffe/layers/unpooling_layer.cpp:90 | `caffe_set(count, 0, ...)`: every element becomes zero. |

## Left out

- The GPU and cuDNN paths (`unpooling_layer.cpp:143-147`, and the cuDNN layer's header) are not part of this model.
- `Dtype` values are modelled as mathematical integers; floating-point arithmetic is not modelled.
- The mask is stored as `Dtype` and converted to `int` at `unpooling_layer.cpp:99`. The model takes the mask as integers, so that conversion and its truncation are not modelled.
- Integers are unbounded. The 32-bit `int` arithmetic of the unpooled extents and of the indices is not modelled, and neither is any overflow in it.
- `Blob` and protobuf glue are reduced to plain values.
  - A buffer is an `array<int>` whose length is the blob's count.
  - `num()` is a parameter.
  - `offset(0, 1)` is the product `height * width` or `unpooledHeight * unpooledWidth`. The contracts write it as `Offset(height, width)` and so on, and `OffsetIsProduct` ties the two forms together.
  - `propagate_down` is one boolean, because only its first entry is read.
  - `top[0]->Reshape(...)` is the shape `Reshape` returns.
- The paired pooling layer's clip of a last window that would start inside the padding is not modelled, because the pooling layer's source is not part of this model. The clip cannot fire for an unpooled extent when the pad is below the kernel.
- The default values of `pad` (0) and `stride` (1) are those of Caffe's pooling parameter message. The message definition is not part of this model.
- Unpooling.UnpoolingLayer.LayerSetUp: a failing CHECK aborts the process. The model returns the first failure instead and assigns the fields only when every check passes, so the kernel fields the code assigns before the later checks are not modelled.
- The commented-out checks are not modelled: the 4-axis check (`unpooling_layer.cpp:66-67`), the zero-pad checks (49-50) and the optional bottom mask (87).
- Unpooling.UnpoolingLayer.ForwardCpu and Unpooling.UnpoolingLayer.BackwardCpu require three things the code relies on without checking:
  - nonnegative unpooled extents;
  - buffer lengths that match the blob shapes;
  - every mask entry being an offset inside its output plane.
  The code does not handle an out-of-range mask entry: it writes or reads out of bounds.
- Unpooling.UnpoolingLayer.Reshape requires nonnegative bottom extents, as blob dimensions are.
- The nested loops are split into methods (batch loop, channel loop, then plane loops). The order of operations and the pointer updates are the code's.

## Findings

| source | as written | input that shows it | evidently intended | confidence | as-written member | corrected member |
|---|---|---|---|---|---|---|
| src/caffe/layers/unpooling_layer.cpp:134-139 | The backward pass advances `bottom_diff`, `top_diff` and `bottom_mask` after the channel loop, once per batch item. Every channel therefore re-gathers the same plane, and the planes from `num` on stay zero. | num = 1, channels = 2, h = w = 1, unpooled h = w = 1, bottom [1, 2], mask [0, 0]. The forward output is [1, 2] and the backward pass of it gives [1, 0]. | Advance once per (batch, channel) plane, as the forward pass does (lines 103-106). The backward pass is then the per-plane gather, and it inverts the forward pass when mask offsets are distinct. | high; not executed | ScatterGather.BackwardAsWrittenLosesChannels | ScatterGather.GatherPlanesScatterPlanes |

`BackwardCpu` models the code as written (`BackwardAsWritten`). The per-plane gather `GatherPlanes` is the corrected definition, and its round trip with the forward pass is proved for any number of channels.

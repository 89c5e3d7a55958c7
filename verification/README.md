# A verified model of the TPA kernels

TPA is a process and channel runtime for a tensor accelerator, shipped with detector pipelines
(YOLOv8n, YOLOv5n), a systolic matrix-multiplication kernel and a stereo-depth demo. Its kernels
compute simple things in fast or partial ways: an output pixel from a local patch instead of from
whole maps, a convolution as a blocked product over packed rows, a pool as two passes, an image in
stripes with halos. This project models those kernels, and the process networks around them, and
proves that each fast form computes the simple thing. Sizes, weights and inputs are arbitrary; only
the stereo demo keeps its fixed 96x64 image, 32 disparities and four stripes, which the code pins
by static assertions (depth/stereo_sad_common.h), with arbitrary images.

Code that works in place keeps that form here: the loops fill arrays and are proved against a
specification function, and the theorems are about those functions. Buffers are flat arrays of
n-byte pixels as in the C code; `Buffers.Holds` says that an array holds a given map. The process
networks are state machines over rendezvous, and the theorems quantify over all their runs.

| files | subject |
|---|---|
| Buffers, Bits | flat buffers, bit masks and exclusive or on naturals |
| Conv, C2f, C2fSampled, C2fDense, Needed, Fnv | the YOLOv8n C2f block, sampled and dense |
| DetectHead, DetectSampled, Dfl | the detect head at a point, its receptive field, the box and class decoding |
| Tl8, TensorConv, TensorPack, TensorLayer | the YOLOv5n packed layer engine, its weight layout and its chunked packing |
| MaxPool | the separable 5x5 pool and the cascade of three |
| Arena | the bump arena, with 32-bit wrap-around |
| Matmul, Systolic, SystolicRuns | the blocked tile product and the grid of cells |
| Nms, TopN, Ppm | the demo's box suppression, its top list, and the P6 reader and writer |
| Stereo, StereoNet | the stripe workers and the source, worker and checker network |

`dafny verify dfyconfig.toml` checks everything.

What the model settles that the code does not say:

- The packer of the tensor engine copies each tap in chunks of eight bytes. With channel counts in
  multiples of eight the engine is the zero-padded convolution; with others it is so exactly at the
  output pixels where no absent tap lies within reach of a present one before it
  (`TensorPack.ConvExactly`). The first layer has three channels: its outputs in the first and last
  column and the last row are not always the convolution, and all others always are
  (`TensorPack.FirstLayerExactly`).
- Detection on the sampled map is not detection on the dense map. A head reads exactly the square
  of radius two (`DetectSampled.ReceptiveField`) and a sample computes the square of radius one, so
  the two agree at a point, for all networks, inputs and heads, exactly when the samples cover the
  square around it (`DetectSampled.DetectExactly`). The shipped samples do so at none of their own points
  (`DetectSampled.ShippedSamplesDiffer`).
- Arena blocks are laid out in order exactly when no rounding wraps in 32 bits
  (`Arena.BlocksAreLaidOut`). A granted request that wraps always starts on the first byte of a
  block already handed out (`Arena.WrapOverlaps`), and `Arena.WrappedRequestOverlaps` is such a run.
- A stereo run in which the checker rejects a port before the last leaves the workers after it
  blocked on their sends (`StereoNet.StoppedExactly`); a texture of one colour does that
  (`StereoNet.OneColourBlocks`).
- Reading back a printed P6 image fails exactly when the raster starts with white space or `#`
  (`Ppm.RoundTrip`), and then with the length error, never with another image.
- Suppression with `topk == 0` still returns one box (`Nms.Suppress`), because the length is tested
  after the box is pushed.

## Model

| member | source | states |
|---|---|---|
| Conv.ConvFromPatch | yolov8n/yolov8n_p3_c2f_detect.c:310-342 | the loops over a flagged patch give the convolution over its window, whatever the bytes of invalid entries |
| Conv.Conv1x1Vec | yolov8n/yolov8n_p3_c2f_detect.c:295-308 | a 1x1 layer on one pixel is the convolution whose only tap is that pixel |
| Conv.WeightCounts | yolov8n/yolov8n_p3_c2f_detect.c:310-342 | changing one weight moves an accumulator by the change times the byte the tap shows there, and not at all for a tap off the map; with AccOfZeros this determines every accumulator |
| Conv.AccOfZeros | yolov8n/yolov8n_p3_c2f_detect.c:310-342 | zero weights give zero |
| C2fSampled.Scratch.FillPatch5 | yolov8n/yolov8n_p3_c2f_detect.c:588-614 | the 25 halo entries and flags hold cv1's second half inside the image and nothing outside; the centre's two halves are kept |
| C2fSampled.Scratch.FillPatch3 | yolov8n/yolov8n_p3_c2f_detect.c:616-634 | the nine inner entries hold the first 3x3 layer over the 5x5 patch, nothing outside the image |
| C2fSampled.Scratch.ComputeC2fPoint | yolov8n/yolov8n_p3_c2f_detect.c:572-651 | the output bytes at the given offset are the block recomputed from the halo patch, all other bytes stay |
| C2f.Patch5IsWindow | yolov8n/yolov8n_p3_c2f_detect.c:621-634 | at every in-image inner point the window of the 5x5 patch is the window of the whole zero-padded chunk map |
| C2f.Patch3IsWindow | yolov8n/yolov8n_p3_c2f_detect.c:636-643 | the 3x3 patch of recomputed pixels is the window of the dense first-layer map, zero padding included |
| C2f.LocalIsDense | yolov8n/yolov8n_p3_c2f_detect.c:572-651 | for every size, weight set, input and in-image point the patch computation equals the dense block at that point, at all borders |
| C2f.ResidualAt | yolov8n/yolov8n_p3_c2f_detect.c:640-642 | every channel of the bottleneck is the second 3x3 layer plus the second chunk, saturated to -128 and 127 |
| C2f.BlockAt | yolov8n/yolov8n_p3_c2f_detect.c:640-651 | every output pixel is the layer cv2 over the first half of cv1, its second half and the saturated residual, in this order |
| C2fSampled.FillOutputSentinel | yolov8n/yolov8n_p3_c2f_detect.c:523-535 | the output becomes the sentinel map |
| C2fSampled.SentinelValues | yolov8n/yolov8n_p3_c2f_detect.c:259-265 | the sentinel byte in plain arithmetic on the first row, the first column and the diagonal |
| C2fSampled.RunC2f | yolov8n/yolov8n_p3_c2f_detect.c:653-709 | exactly the needed points hold the dense result, every other pixel the sentinel; the count, the two running hashes and the hash of the whole output are those of the points in order and of the buffer |
| Needed.AddUniquePoint | yolov8n/yolov8n_p3_c2f_detect.c:537-545 | a point is appended unless it is already listed, which needs no free slot; the rest of the list stays |
| Needed.C2fNeededPoints | yolov8n/yolov8n_p3_c2f_detect.c:547-570 | the array receives the needed list and never overflows its nine entries per sample |
| Needed.NeededPointsExact | yolov8n/yolov8n_p3_c2f_detect.c:547-570 | the list has no duplicates, at most nine points per sample, and holds a point if and only if it lies in the clipped 3x3 neighbourhood of a sample |
| Needed.NeededInOrder | yolov8n/yolov8n_p3_c2f_detect.c:547-570 | each sample leaves the list as it is and appends its new points in rising order |
| C2fDense.Scratch.FillMapPatch3 | yolov8n/yolov8n_p3_dense_c2f_detect.c:513-542 | the patch holds the nine pixels around a point, flags clear off the map |
| C2fDense.Scratch.Pass1 | yolov8n/yolov8n_p3_dense_c2f_detect.c:567-582 | the two chunk maps are the halves of cv1 at every point |
| C2fDense.Scratch.Pass2 | yolov8n/yolov8n_p3_dense_c2f_detect.c:584-596 | the second map is the zero-padded 3x3 layer of the first, at every point |
| C2fDense.Scratch.Pass3 | yolov8n/yolov8n_p3_dense_c2f_detect.c:598-615 | the bottleneck map is the next 3x3 layer plus the clamped residual |
| C2fDense.Scratch.Pass4 | yolov8n/yolov8n_p3_dense_c2f_detect.c:617-636 | the output is the block's, and the hashes are those of all pixels in order |
| C2fDense.RunC2fDense | yolov8n/yolov8n_p3_dense_c2f_detect.c:544-665 | the output is the whole-map block; the hash accumulated pixel by pixel equals the hash of the whole buffer |
| C2fDense.SampledAgreesWithDense | yolov8n/yolov8n_p3_c2f_detect.c:653-680 | after both runs a pixel of the sampled output is the dense one if its point was needed and the sentinel otherwise |
| Fnv.StepBijective | yolov8n/yolov8n_p3_dense_c2f_detect.c:189-194 | a hash step is a bijection of the 64-bit words, with its inverse given |
| Fnv.HashI8Bytes | yolov8n/yolov8n_p3_dense_c2f_detect.c:205-210 | the loop folds the bytes into the hash in order |
| Fnv.HashConcat | yolov8n/yolov8n_p3_dense_c2f_detect.c:633-634 | hashing piece by piece is hashing the concatenation |
| Fnv.HashInjective | yolov8n/yolov8n_p3_dense_c2f_detect.c:205-210 | over the same bytes different starting values give different hashes |
| Fnv.OneByteChangesHash | yolov8n/yolov8n_p3_dense_c2f_detect.c:189-210 | buffers of equal length that differ in exactly one byte have different hashes |
| Fnv.KnownHashes | yolov8n/yolov8n_p3_dense_c2f_detect.c:189-194 | the published 64-bit FNV-1a values of nothing and of the letter a |
| Fnv.HashU32Bytes | yolov8n/yolov8n_p3_dense_c2f_detect.c:196-203 | a 32-bit value is hashed as its four bytes, the least significant first |
| Bits.BitOf | yolov8n/yolov8n_p3_dense_c2f_detect.c:189-194 | every bit of the exclusive or, and of the and the arena masks with, from the bits of the operands |
| DetectHead.ConvInputAt | yolov8n/yolov8n_detect_downstream.c:243-275 | the skipping loops give the zero-padded convolution at any position, inside or outside the map |
| DetectHead.FillFirstLayerTaps | yolov8n/yolov8n_detect_downstream.c:277-300 | the nine taps and flags are the first layer's map around the point |
| DetectHead.ConvTapsAt | yolov8n/yolov8n_detect_downstream.c:302-327 | the second layer over flagged taps is its convolution over the window of present taps |
| DetectHead.TapsGiveDense | yolov8n/yolov8n_detect_downstream.c:277-327 | over the taps of a map the second layer gives its whole-map value at the point |
| DetectHead.DetectPoint | yolov8n/yolov8n_detect_downstream.c:581-590 | taps, second layer and final 1x1 layer give the head computed over whole maps and read at the point |
| DetectHead.HeadIsLocal | yolov8n/yolov8n_detect_downstream.c:243-327 | maps that agree within distance two of a point give the same head output there |
| DetectHead.AccumulatorFits | yolov8n/yolov8n_detect_downstream.c:310-325 | with at most 131071 products per filter every partial sum fits int32 |
| DetectHead.AccumulatorOverflows | yolov8n/yolov8n_detect_downstream.c:310-325 | with 131072 products of extreme bytes it does not, so the bound is exact |
| DetectSampled.HeadCanRead | yolov8n/yolov8n_detect_downstream.c:243-327 | every single input value within distance two of a point is the whole output of some head there |
| DetectSampled.ReceptiveField | yolov8n/yolov8n_detect_downstream.c:243-327 | all heads agree on two maps at a point if and only if the maps agree on the clipped square of radius two |
| DetectSampled.DetectOnSampled | yolov8n/yolov8n_p3_c2f_detect.c:828-911 | for one dense map: all heads agree on the sampled and the dense map at a point if and only if each in-image point within distance two was computed or equals its sentinel |
| DetectSampled.DetectExactly | yolov8n/yolov8n_p3_c2f_detect.c:828-911 | over all networks of given channel counts, all inputs and all heads the sampled map gives the dense detection at a point if and only if every in-image point within distance two lies in the clipped 3x3 neighbourhood of some sample |
| DetectSampled.ShippedSamplesDiffer | yolov8n/yolov8n_p3_c2f_detect.c:157-159 | with the eight shipped samples on the 80x80 map it fails at every one of them |
| DetectSampled.RingIsNotComputed | yolov8n/yolov8n_p3_c2f_detect.c:547-570 | of the square of radius two around a sample standing alone the list holds exactly the square of radius one |
| Dfl.DflProjectQ8 | yolov8n/yolov8n_detect_downstream.c:355-369 | no 32-bit wrap; the result is 256 times the weighted mean bin rounded to nearest, at most 15*256 |
| Dfl.NearestUnique | yolov8n/yolov8n_detect_downstream.c:355-369 | being that rounded mean determines the result |
| Dfl.RaisingPulls | yolov8n/yolov8n_detect_downstream.c:355-369 | raising one bin's logit moves the projection towards that bin and never past it, so bin 15 only raises it and bin 0 only lowers it |
| Dfl.FlatLogits | yolov8n/yolov8n_detect_downstream.c:355-369 | equal logits give the middle of the bins, 7.5*256 |
| Dfl.WeightIs | yolov8n/yolov8n_detect_downstream.c:341-353 | a bin's weight is the table's entry for its clipped logit, and grows strictly with it |
| Dfl.WeightsOfOpposites | yolov8n/yolov8n_detect_downstream.c:341-353 | weights of opposite logits multiply to 1.0 within a thousandth |
| Dfl.DecodeBox | yolov8n/yolov8n_detect_downstream.c:473-490 | as long as the axis fits int32 (checked on cell and stride alone), width and height are the sums of opposite sides, between 0 and 7680*stride, and the centre is the mean of the edges rounded towards zero; products wrap in 32 bits otherwise |
| Dfl.PublishBox | yolov8n/yolov8n_detect_downstream.c:497-500 | centre x, centre y, width and height are published in this order at the sample and folded into the box hash as 32-bit words; all other public values stay |
| Dfl.ScoreClasses | yolov8n/yolov8n_detect_downstream.c:502-512 | every class gets the table's score of its logit clipped to -8..8, folded into the class hash in order, and the best class is the first of greatest clipped logit |
| Dfl.SigmoidRises | yolov8n/yolov8n_detect_downstream.c:371-374 | scores are ordered exactly as the clipped logits are |
| Dfl.ScoresOfOpposites | yolov8n/yolov8n_detect_downstream.c:371-374 | scores of opposite logits add up to 1.0 up to one unit, and positive logits score above one half |
| Tl8.RepackTl8 | tools/yolo/gen_yolo_tensor_weights.py:61-80 | fails exactly on the rejected shapes; otherwise the output is, row by row, 16 channels' weights of one filter entry and zero padding |
| Tl8.LayoutByte | tools/yolo/gen_yolo_tensor_weights.py:61-80 | byte by byte: column c of row k of group i is the weight of entry k of channel i*ocBlock+c, or zero padding |
| Tl8.KPaddedIsLeast | tools/yolo/gen_yolo_tensor_weights.py:61-80 | the padded length is the least multiple of the block that covers the filter |
| Tl8.WeightAt | yolov5n/yolov5n_common.c:161-168 | the block address plus row and lane is the weight of the channel and filter entry those indices name |
| Tl8.RepackedWeights | tools/yolo/gen_yolo_tensor_weights.py:61-80 | the address the engine computes is where the generator put that weight |
| TensorLayer.TensorFma | yolov5n/yolov5n_common.c:333-335 | the instruction, taken as exact multiply-accumulate over whole tiles, cleared on the first block |
| TensorLayer.BlockExtendsRowSum | yolov5n/yolov5n_common.c:322-337 | one block of filter entries extends each row's product by exactly those entries |
| TensorLayer.AccumulateBlocks | yolov5n/yolov5n_common.c:322-337 | after all blocks the accumulators hold the full products of the packed rows with the packed weights |
| TensorLayer.RunTensorBlock | yolov5n/yolov5n_common.c:315-340 | sixteen channels of sixteen pixels are written, every other byte of the destination stays |
| TensorLayer.PackConvBlock | yolov5n/yolov5n_common.c:388-424 | for any channel count each packed row is what the chunked copies of its present taps leave over zeros, and the sixteen rows lie one after the other |
| TensorLayer.Pack1x1Block | yolov5n/yolov5n_common.c:342-351 | the same for single pixels |
| TensorConv.PackedRowGivesAcc | yolov5n/yolov5n_common.c:315-424 | a packed row times the packed weights is the direct zero-padded strided convolution, whatever the weights hold in the padded rows |
| TensorPack.PouredIsRow | yolov5n/yolov5n_common.c:217-227 | without a spill the row the chunked copies leave is the taps side by side with zeros for absent ones, up to the end of the filter |
| TensorPack.WholeChunkRow | yolov5n/yolov5n_common.c:388-424 | with channels in multiples of eight it is that row to its end |
| TensorPack.ConvExactly | yolov5n/yolov5n_common.c:388-454 | over all inputs, requantisations and zero-padded weights an output pixel is the convolution if and only if none of its absent taps lies within eight-byte reach of a present tap before it |
| TensorPack.FirstLayerExactly | yolov5n/yolov5n_p0.c:91-137 | for the three-channel 6x6 first layer on its 640x640 input that holds exactly for the columns 1 to 318 and rows 0 to 318 of the 320x320 output |
| TensorLayer.RunConvK | yolov5n/yolov5n_common.c:426-454 | returns -1 exactly on a layer, source or scratch mismatch and then writes nothing; otherwise every covered pixel holds the requantised direct convolution when the channels come in multiples of eight, for other counts the product of the chunk-packed row, which is the convolution wherever nothing spills and the padded weights are zero; all other bytes stay |
| TensorLayer.RunConv1x1 | yolov5n/yolov5n_common.c:353-386 | the same for the 1x1 driver, packing or not: the direct convolution without packing, with channels in multiples of eight, or with zero padded weights |
| TensorLayer.WrittenBytes | yolov5n/yolov5n_common.c:315-454 | byte by byte: the layer's channels of the covered pixels, and the old bytes beside and after them |
| TensorLayer.PointIsConv | yolov5n/yolov5n_common.c:353-454 | with unit strides and no padding the two drivers compute the same image |
| TensorLayer.FilterIsWeights | tools/yolo/gen_yolo_tensor_weights.py:61-80 | with generated weights the filter the engine applies is the caller's slice of the original weights |
| TensorLayer.GeneratedPad | tools/yolo/ptq_yolov5.py:57-85 | weights zero past the filter, as the exporter writes them, stay zero there in the generated layout |
| TensorLayer.EngineIsReference | tools/yolo/gen_yolo_tensor_weights.py:61-80 | generator and engine together: the output pixel is the reference convolution over the original weights at the strided position |
| MaxPool.PoolIsWindowMax | yolov5n/yolov5n_common.c:602-652 | the row pass and the column pass give the maximum of the clipped 5x5 window, attained and an upper bound, at every pixel and channel |
| MaxPool.PoolsCompose | yolov5n/yolov5n_p3.c:208-210 | pooling with radius r a pool of radius s is pooling with radius r+s, at borders too |
| MaxPool.CascadeWindows | yolov5n/yolov5n_p3.c:208-210 | the three chained pools are the windows of radius 2, 4 and 6 of the first map |
| MaxPool.MaxPool5x5 | yolov5n/yolov5n_common.c:602-652 | the eight-lane loops leave the pooled map in the destination, for any channel count: what a chunk writes past a pixel is written over by the next |
| MaxPool.Concat4 | yolov5n/yolov5n_common.c:586-600 | in every output pixel the bytes of the four input pixels one group after the other, in the order of the arguments, for any channel count |
| MaxPool.Sppf | yolov5n/yolov5n_p3.c:208-212 | after the three pools through one shared scratch buffer and the concatenation, byte k of the four channel groups at every pixel is the window maximum of radius 6, 4 and 2 and the map's own value |
| Buffers.VecCopyBytes | yolov5n/yolov5n_common.c:217-221 | writes the source bytes in whole chunks of eight, so up to seven past the length |
| Buffers.VecZeroBytes | yolov5n/yolov5n_common.c:223-227 | zeroes whole chunks of eight |
| Buffers.ChunkCopyIsExact | yolov5n/yolov5n_common.c:217-221 | a copy leaves the bytes past its length alone, whatever the source holds, if and only if the length is a multiple of eight |
| Arena.Hart.ArenaBegin | yolov5n/yolov5n_common.c:69-82 | break and high-water mark become 0 and the limit the declared peak, or the capacity when none is declared; traps exactly when the declared peak exceeds the capacity |
| Arena.Hart.ArenaAlloc | yolov5n/yolov5n_common.c:96-121 | with 32-bit arithmetic: the offset granted and the new break and high-water mark, or a trap that changes nothing |
| Arena.AlignUpRounds | yolov5n/yolov5n_common.c:111 | without wrap the mask rounds up to the next multiple of a power of two |
| Arena.AlignUpStaysAhead | yolov5n/yolov5n_common.c:111 | the offset stays at or after the break if and only if the addition does not wrap |
| Arena.GrantedExactly | yolov5n/yolov5n_common.c:96-121 | a request that does not wrap is served if and only if the block from the next multiple of its alignment ends inside limit and capacity, and then gets that block |
| Arena.HighWaterIsMax | yolov5n/yolov5n_common.c:114-120 | the high-water mark of a served run, wrapping or not, is the greatest break it reached |
| Arena.WrappedRequestOverlaps | yolov5n/yolov5n_common.c:96-121 | a run from an empty arena in which two requests are both granted offset 0 |
| Arena.WrapOverlaps | yolov5n/yolov5n_common.c:96-121 | after any run from an empty arena a granted request whose rounding wraps starts at offset 0, where a block of at least one byte already starts |
| Arena.BlocksAreLaidOut | yolov8n/yolov8n_p5_arena.c:68-93 | for any served run of power-of-two alignments: all blocks are aligned, disjoint, in order and inside the limit, with break and high-water mark at the last end, if and only if no rounding wraps; with 32-bit sizes the blocks are in order at all if and only if none does |
| Arena.GranulesAddUp | yolov8n/yolov8n_p5_arena.c:68-103 | in an arena of any capacity, with sizes in multiples of 64 and alignments dividing 64, the requests are served if and only if the sum of sizes fits, and the break is that sum |
| Matmul.TensorMatmulAcc | kernels/tpa_tensor_matmul.c:275-303 | the blocked loops leave the old tile plus the plain matrix product, for any side that is a multiple of 16 |
| Matmul.BlockProduct | kernels/tpa_tensor_matmul.c:283-297 | one 16x16 block receives its full inner products |
| Matmul.EntryCounts | kernels/tpa_tensor_matmul.c:275-303 | changing entry (r, q) of the left factor moves entry (r, j) of the result by the change times entry (q, j) of the right factor, for all j, and nothing else; with ZeroTimes this determines the product |
| Matmul.ZeroTimes | kernels/tpa_tensor_matmul.c:275-303 | a zero left factor adds nothing |
| Matmul.DiagonalScales | kernels/tpa_tensor_matmul.c:275-303 | a factor u on the diagonal, on either side, adds u times the other factor |
| Matmul.UnitIsNeutral | kernels/tpa_tensor_matmul.c:275-303 | the unit matrix on either side adds the other factor |
| Systolic.SitesKept | kernels/tpa_tensor_matmul.c:386-482 | every rendezvous keeps each cell's tiles those of its round, its accumulator the sum so far, and each link's counts equal at both ends |
| SystolicRuns.InvKept | kernels/tpa_tensor_matmul.c:320-525 | every action of every process keeps the whole invariant, the completion count included |
| SystolicRuns.PartnerIsEarlier | kernels/gen_tpa_tensor_matmul.cmake:86-120 | a process that cannot move waits for one whose next event is strictly earlier in the systolic schedule |
| SystolicRuns.NoDeadlock | kernels/tpa_tensor_matmul.c:320-525 | in a reachable state that is not final some rendezvous or verdict is possible |
| SystolicRuns.RunsAreBounded | kernels/tpa_tensor_matmul.c:320-525 | every run is finite, with an explicit bound |
| SystolicRuns.PassIsSound | kernels/tpa_tensor_matmul.c:502-525 | in every state of every run PASS was given at most once, and only after every cell stopped with the expected sum |
| SystolicRuns.CompleteRun | kernels/tpa_tensor_matmul.c:371-525 | a run that cannot go on has stopped everywhere, each cell holds the sum over rounds of its column's A tile times its row's B tile, and PASS was given exactly when all sums are the expected tile |
| SystolicRuns.OneRoundCounts | kernels/tpa_tensor_matmul.c:275-303 | when only one round's A tile is not zero the sum is the product of that round's tiles |
| SystolicRuns.ConstantFeedsPass | kernels/tpa_tensor_matmul.c:41-43 | with the kernel's constant feeds u and v every complete run leaves rounds*n*u*v in every entry of every cell, and with that as the expected value it passes once and clean |
| Nms.IouRange | yolov5n/yolo_demo.cpp:376-393 | the overlap measure is symmetric and between 0 and 1, for all boxes, inverted ones included |
| Nms.IouOfOverlap | yolov5n/yolo_demo.cpp:376-393 | boxes whose overlap has sides ow and oh, in coordinate differences: the measure is ow*oh over the two areas less ow*oh |
| Nms.IouApart | yolov5n/yolo_demo.cpp:376-393 | in all other cases, boxes apart, empty or inverted, it is 0 |
| Nms.IouOfSelf | yolov5n/yolo_demo.cpp:376-393 | it is 1 for a proper box and itself |
| Nms.KeptPairwise | yolov5n/yolo_demo.cpp:395-422 | kept boxes of one class overlap pairwise by at most the threshold |
| Nms.DroppedHasReason | yolov5n/yolo_demo.cpp:395-422 | every box value that is not kept overlaps a kept one of its class and no lower score above the threshold |
| Nms.GreedyByPosition | yolov5n/yolo_demo.cpp:402-421 | the greedy result is the sorted list without the positions that an earlier kept position of its class overlaps |
| Nms.DroppedByPosition | yolov5n/yolo_demo.cpp:402-421 | every position that is dropped, a duplicate of a kept box included, has such an earlier kept position of no lower score |
| Nms.KeptExactly | yolov5n/yolo_demo.cpp:402-421 | a position is kept if and only if no earlier kept box of its class overlaps it by more than the threshold |
| Nms.Nms | yolov5n/yolo_demo.cpp:395-422 | on any list: the result is a prefix of the kept positions of the sorted list, all of them below the limit, by descending score and pairwise within the threshold in their class; every dropped position has its reason |
| Nms.Suppress | yolov5n/yolo_demo.cpp:402-421 | on the sorted list the dead-flag loops return the first topk boxes of the unlimited greedy result, and one box when topk is 0 |
| TopN.SortAllIsStableSort | yolov5n/yolo_demo.cpp:249-255 | inserting without a bound is the stable descending sort: a permutation, ordered by score, then by pixel |
| TopN.PushIsTakeInsert | yolov5n/yolo_demo.cpp:249-257 | trimming after every insertion gives the first topn of the unbounded list |
| TopN.EntriesExact | yolov5n/yolo_demo.cpp:226-247 | the entries are exactly one for each pixel with a positive score: its first class of greatest score, that class's byte and score |
| TopN.CollectHeadDebug | yolov5n/yolo_demo.cpp:208-261 | the result is the first topn of the stable sort of all pixels' best classes, for any topn, or the size error exactly when the sizes differ |
| Ppm.ParsePpmP6 | yolov5n/draw_ppm_boxes.py:7-55 | the index loops compute the parse, with each error where the code raises it |
| Ppm.TokenExact | yolov5n/draw_ppm_boxes.py:10-33 | a token is the bytes from the first one not skipped to the next white space, '#' or the end, at least one and all ASCII |
| Ppm.CommentIsSkipped | yolov5n/draw_ppm_boxes.py:10-22 | a comment is skipped from its '#' to the line feed after it, whatever it says |
| Ppm.ParseOfTokens | yolov5n/draw_ppm_boxes.py:35-55 | the checks on the four tokens and the raster in their order, each with its error, and the image when all hold |
| Ppm.ParseSound | yolov5n/draw_ppm_boxes.py:35-55 | what is accepted has the tokens P6, width, height and 255 in this order and ends with a raster of that size |
| Ppm.PrintIs | yolov5n/draw_ppm_boxes.py:58-60 | the written bytes, each in its place |
| Ppm.ParseOfPrint | yolov5n/draw_ppm_boxes.py:7-60 | reading back what was printed gives the raster from its first byte that is not skipped, if the length then fits, and otherwise the length error |
| Ppm.RoundTrip | yolov5n/draw_ppm_boxes.py:7-60 | the round trip gives the image back if and only if its raster is empty or starts with neither white space nor '#', and otherwise the length error |
| Stereo.InputPacket.Fill | depth/stereo_sad.c:68-97 | the packet carries every header field of its stripe and the halo rows of both images, zeros after them |
| Stereo.HaloExactly | depth/stereo_sad_common.h:173-196 | the halo of a stripe is its rows and two more on either side, as far as the image goes |
| Stereo.StripeIsLocal | depth/stereo_sad_common.h:198-238 | scenes that agree on the halo rows of a stripe give the same disparities in it |
| Stereo.PacketSuffices | depth/stereo_sad.c:68-158 | what a worker computes from the packet of a stripe is the answer for the whole scene |
| Stereo.InputPacket.CostAt | depth/stereo_sad_common.h:198-217 | on local rows the sum is the whole-image cost of the pixel, and its truncation to 16 bits loses nothing |
| Stereo.CostOfChange | depth/stereo_sad_common.h:198-217 | changing one left pixel changes the cost by the change of its absolute difference to its partner, if it lies in the 5x5 window, and not at all otherwise; with MatchCostsNothing this determines the cost |
| Stereo.MatchCostsNothing | depth/stereo_sad_common.h:198-217 | images that match at a disparity cost nothing there |
| Stereo.InputPacket.BestDisparity | depth/stereo_sad_common.h:219-238 | the lowest disparity of least whole-image cost, and that cost |
| Stereo.BestIsWinner | depth/stereo_sad_common.h:219-238 | it costs least and less than every smaller one, and it is the only such disparity |
| Stereo.OutputPacket.ComputeStripe | depth/stereo_sad.c:121-158 | for any two images the answer has the header of its stripe, the whole-image disparities at valid pixels and 255 elsewhere, and the count of valid pixels |
| Stereo.StripesMakeWhole | depth/stereo_sad_common.h:173-196 | the four stripes side by side are the whole-image map |
| Stereo.OutputPacket.CheckOutput | depth/stereo_sad.c:177-202 | accepts exactly the expected disparities with the right count |
| Stereo.OutputPacket.Accept | depth/stereo_sad.c:160-202 | both checks of the checker together accept exactly the packets with the header of the port's stripe, the expected disparities and their count |
| Stereo.WinnerOfScene | depth/stereo_sad_common.h:119-171 | for any texture the winner of a valid pixel costs nothing, does not exceed the true disparity, and equals it exactly when no smaller one is free |
| Stereo.BandRows | depth/stereo_sad_common.h:119-139 | the disparities of the three bands of rows, and the unchecked rows around their borders |
| Stereo.StripePasses | depth/stereo_sad_common.h:240-247 | a stripe of the scene is the expected one if and only if none of its valid pixels has a free smaller disparity |
| Stereo.StripesCount | depth/stereo_sad_common.h:20 | the stripes hold 3050 valid pixels together |
| StereoNet.InvKept | depth/stereo_sad.c:214-374 | every rendezvous keeps the invariant: what a worker sends is what it made of its own stripe, the checker's counters are those of the accepted ports |
| StereoNet.NoDeadlock | depth/stereo_sad.c:214-374 | in every state of the invariant, broken workers and reached verdicts included, some rendezvous is possible if and only if the source has a stripe left or the checker waits for a worker that has not failed |
| StereoNet.RunsEnd | depth/stereo_sad.c:214-374 | every run can be extended to one that cannot go on |
| StereoNet.StoppedExactly | depth/stereo_sad.c:214-374 | of a run that cannot go on, the end of every process: source stopped, workers done, broken off or blocked on their send. All processes have stopped if and only if the valid packets are exactly those before which every packet was good; with all packets valid, if and only if every port before the last is accepted |
| StereoNet.OneColourBlocks | depth/stereo_sad.c:349-355 | in the demo with a texture of one colour every such run ends with a failure and the three later workers blocked |
| StereoNet.RunInv | depth/stereo_sad.tpp:8-15 | the invariant holds in every state of every run, and a run makes at most two rendezvous per stripe |
| StereoNet.PassIsSound | depth/stereo_sad.c:338-374 | PASS means that the packet checked on every port is its own worker's result for its own stripe, all were accepted, the totals agree and all processes have stopped |
| StereoNet.StuckVerdict | depth/stereo_sad.c:214-374 | a run that cannot go on has passed if and only if every packet is good, still waits if and only if the checker reached an invalid packet, and otherwise has failed |
| StereoNet.DemoStripe | depth/stereo_sad.c:281-295 | the demo's packets are valid in every header field, a worker's result is the stripe's answer, and the checker accepts it exactly when its disparities are the expected ones |
| StereoNet.DemoPasses | depth/stereo_sad.c:214-374 | for any texture every run of the demo that cannot go on has passed if and only if no valid pixel has a free smaller disparity, and all its processes have stopped if and only if that holds in the first three stripes |

## Left out

- Hardware: inline assembly, control registers, cache eviction, fences, the tensor scratchpad and the performance counters. Tensor loads, multiply-accumulates, quantisation and stores are taken as exact matrix operations; the tensor-error exits are not modelled.
- Requantisation, bias, scale, saturation and the activation table are an arbitrary function of channel and accumulator, so every theorem holds for the real one; int32 wrap-around of an accumulator is then part of that function, and `DetectHead.AccumulatorFits` says when there is none.
- The exact tensor paths that use convolution masks, the 3x3 packers of P6, P8 and P10, and the P4, P5, P7 and P9 copies of the same algorithms with other constants.
- TensorLayer.RunConvK: the padded width is a multiple of eight, as all generated layouts have it, and the source can be read to the end of the last chunk, up to seven bytes past the map. Coordinates are unbounded integers, so a wrap of `oy * stride` in 32 bits is not modelled.
- TensorLayer.RunConv1x1: needs source and destination rooms for whole blocks of sixteen pixels, as the code reads and writes them, and room for the last chunk when it packs.
- MaxPool.MaxPool5x5: the scratch buffer is neither source nor destination, and all buffers have room for the last chunk, up to seven bytes past the map.
- The P0 pipeline as a whole: it passes one buffer to `yolov5n_concat2` as input and output.
- C2fSampled.RunC2f: the point count is proved to stay within nine per sample, so the branch that rejects a larger count is not there; the scratch buffers are a given object instead of arena blocks.
- DetectHead.DetectPoint: one branch of the head (box or class) at a time; validity flags are booleans instead of bytes. The same tap idea in the C2f process (fill_detect_taps) is covered by the patch convolution.
- Dfl.PublishBox: the hash of the raw bytes and the copies kept in the summary (first box, point and best class of a sample) are left out.
- The hashes and constants the summaries are compared with, magic numbers and version checks: finite constants.
- Matmul.TensorMatmulAcc: floats are real numbers, so IEEE rounding is not modelled; the kernel's own constants are small integers.
- Systolic.SitesKept: the check of null workspaces and channels, and the start marker, are not part of the state; a tile of the wrong size stops the cell and sets the failure flag.
- Nms.Nms: coordinates and scores are real numbers, and an insertion sort stands for std::sort, whose order of equal scores is unspecified; the contract does not depend on that order.
- TopN.CollectHeadDebug: the sigmoid is an arbitrary function from raw values to real scores.
- Ppm.ParsePpmP6: decoding of the integers follows Python's int() on ASCII, underscores and signs included, without its limit on the number of digits.
- Stereo.InputPacket.Fill: takes the images as functions, so that the result holds for any pair; the padding bytes of the packet headers are left out.
- Systolic and StereoNet: the workspaces of the processes are the values of a state machine instead of objects, because the theorems quantify over all interleavings; the kernels the processes call are imperative.
- StereoNet.PassIsSound: packet lengths and null workspaces are always right here, the received mask is the set of its bits, and the sum of valid pixels is not reduced modulo 2^32 (it is at most 6144).
- The texture hash of the stereo scene: any texture is allowed, and whether the shipped one has a free smaller disparity somewhere is a finite computation.
- `draw_box`, the attention demo, the residual and SiLU tables, argument and file handling, diagnostics, the planner and the scheduler: no property beyond what the modelled parts show, or none visible here.
- Channel internals (`tpa/lib/src/channel.c`): a send and the matching receive are one atomic step, the strictest reading of a rendezvous.

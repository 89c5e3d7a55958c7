// The tensor weight layout of the YOLOv5n engine: blocks of 16 output channels by kBlock
// filter entries, one row of rowStride bytes for every filter entry of a block.
module Tl8 {
  import opened Buffers

  const OC_BLOCK := 16

  /** A tensor layer: geometry, packed weights, and what happens to a finished accumulator
      of channel oc (bias, scale, saturation and the optional table). */
  datatype TLayer = TLayer(
    kH: nat, kW: nat, cIn: nat, strideH: nat, strideW: nat, padH: nat, padW: nat,
    kInner: nat, kPadded: nat, kBlock: nat, kBlocks: nat, ocBlocks: nat, rowStride: nat,
    tl8: seq<int8>, requant: (nat, int) -> int8)
  {
    ghost predicate Valid() {
      && kBlock > 0 && kBlocks > 0 && kPadded == kBlocks * kBlock && kInner <= kPadded
      && OC_BLOCK <= rowStride
      && ocBlocks * kBlocks * (kBlock * rowStride) <= |tl8|
    }
  }

  /** Where a block of weights starts: tl8_wblk. */
  function BlockStart(L: TLayer, ocBlk: nat, kBlk: nat): int {
    (ocBlk * L.kBlocks + kBlk) * (L.kBlock * L.rowStride)
  }

  /** The row of a block that holds filter entry k of its channels. */
  function RowStart(L: TLayer, ocBlk: nat, kBlk: nat, k: nat): int {
    BlockStart(L, ocBlk, kBlk) + k * L.rowStride
  }

  lemma RowInBounds(L: TLayer, ocBlk: nat, kBlk: nat, k: nat)
    requires L.Valid() && ocBlk < L.ocBlocks && kBlk < L.kBlocks && k < L.kBlock
    ensures 0 <= BlockStart(L, ocBlk, kBlk) <= RowStart(L, ocBlk, kBlk, k)
    ensures RowStart(L, ocBlk, kBlk, k) + OC_BLOCK <= RowStart(L, ocBlk, kBlk, k) + L.rowStride <= |L.tl8|
  {
    PointInRange(ocBlk, kBlk, L.ocBlocks, L.kBlocks);
    BlockEnd(ocBlk * L.kBlocks + kBlk, L.ocBlocks * L.kBlocks, L.kBlock * L.rowStride);
    BlockEnd(k, L.kBlock, L.rowStride);
  }

  /** The weight the layer applies to entry k of the packed input of output channel oc. */
  ghost function Weight(L: TLayer, oc: nat, k: nat): int8
    requires L.Valid() && oc < OC_BLOCK * L.ocBlocks && k < L.kPadded
  {
    PointSplit(k, L.kBlocks, L.kBlock);
    RowInBounds(L, oc / OC_BLOCK, k / L.kBlock, k % L.kBlock);
    L.tl8[RowStart(L, oc / OC_BLOCK, k / L.kBlock, k % L.kBlock) + oc % OC_BLOCK]
  }

  /** Splitting a packed index into its block and its place in the block. */
  lemma WeightAt(L: TLayer, ocBlk: nat, c: nat, kBlk: nat, k: nat)
    requires L.Valid() && ocBlk < L.ocBlocks && c < OC_BLOCK && kBlk < L.kBlocks && k < L.kBlock
    ensures 0 <= kBlk * L.kBlock && kBlk * L.kBlock + k < L.kPadded && ocBlk * OC_BLOCK + c < OC_BLOCK * L.ocBlocks
    ensures 0 <= RowStart(L, ocBlk, kBlk, k) && RowStart(L, ocBlk, kBlk, k) + OC_BLOCK <= |L.tl8|
    ensures Weight(L, ocBlk * OC_BLOCK + c, kBlk * L.kBlock + k) == L.tl8[RowStart(L, ocBlk, kBlk, k) + c]
  {
    PointInRange(kBlk, k, L.kBlocks, L.kBlock);
    DivModUnique(ocBlk * OC_BLOCK + c, OC_BLOCK, ocBlk, c);
    RowInBounds(L, ocBlk, kBlk, k);
  }

  // ---- The generator of that layout ----

  function KPadded(kInner: nat, kBlock: nat): (r: nat)
    requires kBlock > 0
    ensures kInner <= r
  {
    var blocks := (kInner + kBlock - 1) / kBlock;
    assert kInner + kBlock - 1 == blocks * kBlock + (kInner + kBlock - 1) % kBlock;
    blocks * kBlock
  }

  /** The padded length is the least multiple of the block that covers the filter. */
  lemma KPaddedIsLeast(kInner: nat, kBlock: nat)
    requires kBlock > 0
    ensures var r := KPadded(kInner, kBlock);
            r % kBlock == 0 && kInner <= r && forall m :: kInner <= m && m % kBlock == 0 ==> r <= m
  {
    var blocks := (kInner + kBlock - 1) / kBlock;
    var r := KPadded(kInner, kBlock);
    DivModUnique(r, kBlock, blocks, 0);
    forall m: int | kInner <= m && m % kBlock == 0 ensures r <= m {
      DivModNat(m, kBlock);
      if m < r {
        WholeBlocksBelow(m / kBlock, blocks, kBlock);
      }
    }
  }

  lemma WholeBlocksBelow(m: nat, n: nat, size: nat)
    requires m * size < n * size
    ensures m * size + size <= n * size
  {
    if m >= n {
      MulBounds(m - n, size);
      assert (m - n) * size == m * size - n * size;
    } else {
      BlockEnd(m, n, size);
    }
  }

  /** The values of one row: the weights of its channels, then zero padding. */
  function RowOf(weights: seq<int8>, kOut: nat, wStride: nat, ocBlock: nat, rowStride: nat, oc0: nat, k: nat): (r: Vec)
    requires oc0 + ocBlock <= kOut && k < wStride && kOut * wStride <= |weights| && ocBlock <= rowStride
    ensures |r| == rowStride
  {
    seq<int8>(rowStride, c requires 0 <= c < rowStride =>
      if c < ocBlock then BlockEnd(oc0 + c, kOut, wStride); weights[(oc0 + c) * wStride + k] else 0)
  }

  /** The inner loop of repack_tl8. */
  method RepackRow(weights: seq<int8>, kOut: nat, wStride: nat, ocBlock: nat, rowStride: nat, oc0: nat, k: nat)
    returns (row: Vec)
    requires oc0 + ocBlock <= kOut && k < wStride && kOut * wStride <= |weights| && ocBlock <= rowStride
    ensures row == RowOf(weights, kOut, wStride, ocBlock, rowStride, oc0, k)
  {
    ghost var want := RowOf(weights, kOut, wStride, ocBlock, rowStride, oc0, k);
    row := [];
    for oc := 0 to ocBlock
      invariant row == want[..oc]
    {
      BlockEnd(oc0 + oc, kOut, wStride);
      row := row + [weights[(oc0 + oc) * wStride + k]];
    }
    for c := ocBlock to rowStride
      invariant row == want[..c]
    {
      row := row + [0];
    }
    assert want[..rowStride] == want;
  }

  lemma HoldsAppend(s: Vec, c: nat, m: seq<Vec>, n: nat)
    requires Holds(s, c, m, n) && |s| == n * c && n < |m| && |m[n]| == c
    ensures |s + m[n]| == (n + 1) * c && Holds(s + m[n], c, m, n + 1)
  {
    var t := s + m[n];
    assert (n + 1) * c == n * c + c;
    forall q | 0 <= q < n + 1 ensures |m[q]| == c && q * c + c <= |t| && Block(t, c, q) == m[q] {
      if q < n {
        BlockEnd(q, n, c);
        assert Block(s, c, q) == m[q];
        assert t[q * c..q * c + c] == s[q * c..q * c + c];
      }
    }
  }

  /** Every row of the layout, in order: output block by output block, entry by entry. */
  ghost function Rows(weights: seq<int8>, kOut: nat, wStride: nat, ocBlock: nat, rowStride: nat, kPadded: nat)
    : (rows: seq<Vec>)
    requires kOut * wStride <= |weights| && 0 < ocBlock <= rowStride && kPadded <= wStride
    ensures |rows| == kOut / ocBlock * kPadded
    ensures forall n :: 0 <= n < |rows| ==> |rows[n]| == rowStride
  {
    seq(kOut / ocBlock * kPadded, n requires 0 <= n < kOut / ocBlock * kPadded =>
      PointSplit(n, kOut / ocBlock, kPadded);
      BlockOfChannels(n / kPadded, kOut, ocBlock);
      RowOf(weights, kOut, wStride, ocBlock, rowStride, n / kPadded * ocBlock, n % kPadded))
  }

  lemma BlockOfChannels(i: nat, kOut: nat, ocBlock: nat)
    requires ocBlock > 0 && i < kOut / ocBlock
    ensures 0 <= i * ocBlock && i * ocBlock + ocBlock <= kOut
  {
    BlockEnd(i, kOut / ocBlock, ocBlock);
    assert kOut == kOut / ocBlock * ocBlock + kOut % ocBlock;
  }

  lemma RowsAt(weights: seq<int8>, kOut: nat, wStride: nat, ocBlock: nat, rowStride: nat, kPadded: nat, i: nat, k: nat)
    requires kOut * wStride <= |weights| && 0 < ocBlock <= rowStride && kPadded <= wStride
    requires i < kOut / ocBlock && k < kPadded
    ensures 0 <= i * kPadded && i * kPadded + k < kOut / ocBlock * kPadded
    ensures 0 <= i * ocBlock && i * ocBlock + ocBlock <= kOut
    ensures Rows(weights, kOut, wStride, ocBlock, rowStride, kPadded)[i * kPadded + k]
         == RowOf(weights, kOut, wStride, ocBlock, rowStride, i * ocBlock, k)
  {
    PointInRange(i, k, kOut / ocBlock, kPadded);
    BlockOfChannels(i, kOut, ocBlock);
  }

  /** Byte c of row k of channel group i: a weight of channel i * ocBlock + c, or padding. */
  lemma LayoutByte(out: Vec, weights: seq<int8>, kOut: nat, wStride: nat, ocBlock: nat, rowStride: nat, kPadded: nat,
                   i: nat, k: nat, c: nat)
    requires kOut * wStride <= |weights| && 0 < ocBlock <= rowStride && kPadded <= wStride
    requires Holds(out, rowStride, Rows(weights, kOut, wStride, ocBlock, rowStride, kPadded), kOut / ocBlock * kPadded)
    requires i < kOut / ocBlock && k < kPadded && c < rowStride
    ensures 0 <= (i * kPadded + k) * rowStride && (i * kPadded + k) * rowStride + c < |out|
    ensures c < ocBlock ==> 0 <= (i * ocBlock + c) * wStride && (i * ocBlock + c) * wStride + k < |weights|
    ensures out[(i * kPadded + k) * rowStride + c]
         == if c < ocBlock then weights[(i * ocBlock + c) * wStride + k] else 0
  {
    RowsAt(weights, kOut, wStride, ocBlock, rowStride, kPadded, i, k);
    var n := i * kPadded + k;
    var at := n * rowStride;
    HoldsAt(out, rowStride, Rows(weights, kOut, wStride, ocBlock, rowStride, kPadded), kOut / ocBlock * kPadded, n);
    MulBounds(n, rowStride);
    assert out[at..at + rowStride][c] == out[at + c];
    if c < ocBlock {
      BlockEnd(i * ocBlock + c, kOut, wStride);
    }
  }

  /** One block of repack_tl8: kBlock rows from filter entry kb on. */
  method RepackBlock(out0: Vec, weights: seq<int8>, kOut: nat, wStride: nat, ocBlock: nat, rowStride: nat, kPadded: nat,
                     ghost i: nat, ob: nat, kb: nat, kBlock: nat, ghost base: nat) returns (out: Vec)
    requires kOut * wStride <= |weights| && 0 < ocBlock <= rowStride && kPadded <= wStride
    requires i < kOut / ocBlock && ob == i * ocBlock && kb + kBlock <= kPadded && base == i * kPadded + kb
    requires Holds(out0, rowStride, Rows(weights, kOut, wStride, ocBlock, rowStride, kPadded), base)
    requires |out0| == base * rowStride
    ensures Holds(out, rowStride, Rows(weights, kOut, wStride, ocBlock, rowStride, kPadded), base + kBlock)
    ensures |out| == (base + kBlock) * rowStride
  {
    ghost var rows := Rows(weights, kOut, wStride, ocBlock, rowStride, kPadded);
    out := out0;
    for k := 0 to kBlock
      invariant Holds(out, rowStride, rows, base + k) && |out| == (base + k) * rowStride
    {
      RowsAt(weights, kOut, wStride, ocBlock, rowStride, kPadded, i, kb + k);
      var row := RepackRow(weights, kOut, wStride, ocBlock, rowStride, ob, kb + k);
      HoldsAppend(out, rowStride, rows, base + k);
      out := out + row;
    }
  }

  /** The blocks of one group of output channels, base rows into the layout. */
  method RepackGroup(out0: Vec, weights: seq<int8>, kOut: nat, wStride: nat, ocBlock: nat, rowStride: nat, kPadded: nat,
                     ghost i: nat, ob: nat, kBlock: nat, ghost kBlocks: nat, ghost base: nat) returns (out: Vec)
    requires kOut * wStride <= |weights| && 0 < ocBlock <= rowStride && kPadded <= wStride
    requires i < kOut / ocBlock && ob == i * ocBlock && kBlock > 0 && kPadded == kBlocks * kBlock
    requires base == i * kPadded && |out0| == base * rowStride
    requires Holds(out0, rowStride, Rows(weights, kOut, wStride, ocBlock, rowStride, kPadded), base)
    ensures |out| == (base + kPadded) * rowStride
    ensures Holds(out, rowStride, Rows(weights, kOut, wStride, ocBlock, rowStride, kPadded), base + kPadded)
  {
    ghost var rows := Rows(weights, kOut, wStride, ocBlock, rowStride, kPadded);
    out := out0;
    var kb := 0;
    ghost var n := 0;
    while kb < kPadded
      invariant n <= kBlocks && kb == n * kBlock && kb <= kPadded
      invariant Holds(out, rowStride, rows, base + kb) && |out| == (base + kb) * rowStride
    {
      WholeBlocks(n, kBlocks, kBlock);
      out := RepackBlock(out, weights, kOut, wStride, ocBlock, rowStride, kPadded, i, ob, kb, kBlock, base + kb);
      kb := kb + kBlock;
      n := n + 1;
    }
  }

  /** The groups one after the other, for accepted shapes. */
  method RepackGroups(weights: seq<int8>, kOut: nat, wStride: nat, ocBlock: nat, rowStride: nat, kPadded: nat,
                      kBlock: nat, ghost kBlocks: nat, ghost groups: nat) returns (out: Vec)
    requires kOut * wStride <= |weights| && 0 < ocBlock <= rowStride && kPadded <= wStride
    requires kBlock > 0 && kPadded == kBlocks * kBlock
    requires groups == kOut / ocBlock && kOut == groups * ocBlock
    ensures Holds(out, rowStride, Rows(weights, kOut, wStride, ocBlock, rowStride, kPadded), groups * kPadded)
  {
    ghost var rows := Rows(weights, kOut, wStride, ocBlock, rowStride, kPadded);
    out := [];
    var ob := 0;
    ghost var i, base := 0, 0;
    while ob < kOut
      invariant i <= groups && ob == i * ocBlock && base == i * kPadded
      invariant |out| == base * rowStride && Holds(out, rowStride, rows, base)
    {
      WholeBlocks(i, groups, ocBlock);
      out := RepackGroup(out, weights, kOut, wStride, ocBlock, rowStride, kPadded, i, ob, kBlock, kBlocks, base);
      NextProduct(i, kPadded);
      ob := ob + ocBlock;
      i := i + 1;
      base := base + kPadded;
    }
    LastBlock(i, groups, ocBlock);
  }

  lemma NextProduct(i: nat, n: nat)
    ensures (i + 1) * n == i * n + n
  {
  }

  lemma WholeBlocks(n: nat, blocks: nat, size: nat)
    requires n * size < blocks * size && size > 0
    ensures n < blocks && n * size + size <= blocks * size && (n + 1) * size == n * size + size
  {
    assert (n - blocks) * size == n * size - blocks * size;
    MulBounds(n - blocks, size);
    BlockEnd(n, blocks, size);
  }

  /** repack_tl8. It fails exactly when the strides cannot cover a block or the padded
      filter, the channels do not split evenly, or a block size is zero. */
  method RepackTl8(weights: seq<int8>, kOut: nat, kInner: nat, wStride: nat, ocBlock: nat, kBlock: nat, rowStride: nat)
    returns (r: Option<Vec>)
    requires kOut * wStride <= |weights|
    ensures r.Some? <==>
              (ocBlock <= rowStride && ocBlock > 0 && kOut % ocBlock == 0 && kBlock > 0
               && KPadded(kInner, kBlock) <= wStride)
    ensures r.Some? ==>
              var kPadded := KPadded(kInner, kBlock);
              Holds(r.value, rowStride, Rows(weights, kOut, wStride, ocBlock, rowStride, kPadded),
                    kOut / ocBlock * kPadded)
  {
    if rowStride < ocBlock || ocBlock == 0 || kOut % ocBlock != 0 || kBlock == 0 {
      return None;
    }
    var kBlocks := (kInner + kBlock - 1) / kBlock;
    var kPadded := KPadded(kInner, kBlock);
    if wStride < kPadded {
      return None;
    }
    ghost var groups := kOut / ocBlock;
    EvenSplit(kOut, ocBlock);
    var out := RepackGroups(weights, kOut, wStride, ocBlock, rowStride, kPadded, kBlock, kBlocks, groups);
    r := Some(out);
  }

  lemma EvenSplit(n: nat, size: nat)
    requires size > 0 && n % size == 0
    ensures 0 <= n / size && n == n / size * size
  {
    DivModNat(n, size);
  }

  lemma LastBlock(n: nat, blocks: nat, size: nat)
    requires n <= blocks && size > 0 && n * size >= blocks * size
    ensures n == blocks
  {
    if n < blocks {
      BlockEnd(n, blocks, size);
    }
  }

  /** The two halves of the toolchain agree: the address the engine computes for entry k of
      channel oc is where the generator put weights[oc * wStride + k]. */
  lemma RepackedWeights(L: TLayer, weights: seq<int8>, kOut: nat, wStride: nat, oc: nat, k: nat)
    requires L.Valid() && kOut == OC_BLOCK * L.ocBlocks && kOut * wStride <= |weights| && L.kPadded <= wStride
    requires Holds(L.tl8, L.rowStride, Rows(weights, kOut, wStride, OC_BLOCK, L.rowStride, L.kPadded),
               kOut / OC_BLOCK * L.kPadded)
    requires oc < kOut && k < L.kPadded
    ensures 0 <= oc * wStride && oc * wStride + k < |weights|
    ensures Weight(L, oc, k) == weights[oc * wStride + k]
  {
    var ob, c, kBlk, kk := oc / OC_BLOCK, oc % OC_BLOCK, k / L.kBlock, k % L.kBlock;
    BlockEnd(oc, kOut, wStride);
    PointSplit(k, L.kBlocks, L.kBlock);
    WeightAt(L, ob, c, kBlk, kk);
    RowsAt(weights, kOut, wStride, OC_BLOCK, L.rowStride, L.kPadded, ob, k);
    var n := ob * L.kPadded + k;
    var rows := Rows(weights, kOut, wStride, OC_BLOCK, L.rowStride, L.kPadded);
    HoldsAt(L.tl8, L.rowStride, rows, kOut / OC_BLOCK * L.kPadded, n);
    RowStartIs(L, ob, kBlk, kk, n);
    assert L.tl8[n * L.rowStride + c] == rows[n][c];
  }

  lemma RowStartIs(L: TLayer, ocBlk: nat, kBlk: nat, k: nat, n: nat)
    requires L.kPadded == L.kBlocks * L.kBlock && n == ocBlk * L.kPadded + (kBlk * L.kBlock + k)
    ensures RowStart(L, ocBlk, kBlk, k) == n * L.rowStride
  {
    var b := ocBlk * L.kBlocks + kBlk;
    assert b * L.kBlock == ocBlk * L.kPadded + kBlk * L.kBlock;
    assert b * (L.kBlock * L.rowStride) == b * L.kBlock * L.rowStride;
    assert (b * L.kBlock + k) * L.rowStride == b * L.kBlock * L.rowStride + k * L.rowStride;
  }
}

// The rows the eight-byte copies of the packer leave, and exactly which output pixels of a
// layer they make the convolution. A copy of c bytes writes whole chunks; what it writes past
// them stays wherever the next tap is skipped.
module TensorPack {
  import opened Buffers
  import opened Conv
  import opened Tl8
  import opened TensorConv

  // ---- One row ----

  /** The sources and the row have room for whole chunks. */
  ghost predicate Fits(src: Vec, froms: seq<Option<nat>>, c: nat, width: nat) {
    && |froms| * c >= 0 && |froms| * c + Spare(c) <= width
    && forall t :: 0 <= t < |froms| && froms[t].Some? ==> froms[t].value + Round8(c) <= |src|
  }

  /** The row after the first n taps: zeros, over which every present tap t wrote its chunks at
      t * c. */
  ghost function Poured(src: Vec, froms: seq<Option<nat>>, c: nat, n: nat, width: nat): (r: Vec)
    requires n <= |froms| && Fits(src, froms, c, width)
    ensures |r| == width
  {
    if n == 0 then Zeros(width) else
      BlockEnd(n - 1, |froms|, c);
      Pour(src, froms[n - 1], Poured(src, froms, c, n - 1, width), (n - 1) * c, c)
  }

  ghost function Pour(src: Vec, from: Option<nat>, row: Vec, at: nat, c: nat): (r: Vec)
    requires from.Some? ==> from.value + Round8(c) <= |src| && at + Round8(c) <= |row|
    ensures |r| == |row|
  {
    if from.Some? then Splice(row, at, src[from.value..from.value + Round8(c)]) else row
  }

  lemma PourAt(src: Vec, from: Option<nat>, row: Vec, at: nat, c: nat, i: nat)
    requires from.Some? ==> from.value + Round8(c) <= |src| && at + Round8(c) <= |row|
    requires i < |row|
    ensures Pour(src, from, row, at, c)[i]
         == if from.Some? && at <= i < at + Round8(c) then src[from.value + (i - at)] else row[i]
  {
  }

  lemma PouredNext(src: Vec, froms: seq<Option<nat>>, c: nat, n: nat, width: nat, at: nat)
    requires n < |froms| && Fits(src, froms, c, width) && at == n * c
    ensures at + Round8(c) <= width
    ensures Poured(src, froms, c, n + 1, width) == Pour(src, froms[n], Poured(src, froms, c, n, width), at, c)
  {
    BlockEnd(n, |froms|, c);
  }

  /** Whether a present tap before tap n writes the byte i of the row. */
  ghost predicate Reaches(froms: seq<Option<nat>>, c: nat, n: nat, i: nat)
    requires n <= |froms|
  {
    exists t :: 0 <= t < n && froms[t].Some? && i < t * c + Round8(c)
  }

  /** Ahead of the taps written so far a byte is zero or within reach of one of them. */
  lemma {:induction false} PouredAhead(src: Vec, froms: seq<Option<nat>>, c: nat, n: nat, width: nat, i: nat)
    requires n <= |froms| && Fits(src, froms, c, width) && n * c <= i < width
    ensures Poured(src, froms, c, n, width)[i] == 0 || Reaches(froms, c, n, i)
  {
    if n > 0 {
      var at := (n - 1) * c;
      BlockEnd(n - 1, n, c);
      PouredNext(src, froms, c, n - 1, width, at);
      PourAt(src, froms[n - 1], Poured(src, froms, c, n - 1, width), at, c, i);
      PouredAhead(src, froms, c, n - 1, width, i);
    }
  }

  /** Once written, or skipped, a tap's place keeps its bytes. */
  lemma {:induction false} PouredStays(src: Vec, froms: seq<Option<nat>>, c: nat, n: nat, width: nat, k: nat, i: nat)
    requires k < n <= |froms| && Fits(src, froms, c, width) && i < k * c + c && i < width
    ensures Poured(src, froms, c, n, width)[i] == Poured(src, froms, c, k + 1, width)[i]
    decreases n
  {
    if k < n - 1 {
      var at := (n - 1) * c;
      BlockEnd(k, n - 1, c);
      PouredNext(src, froms, c, n - 1, width, at);
      PourAt(src, froms[n - 1], Poured(src, froms, c, n - 1, width), at, c, i);
      PouredStays(src, froms, c, n - 1, width, k, i);
    }
  }

  /** No absent tap lies within reach of a present one before it. */
  ghost predicate NoSpill(froms: seq<Option<nat>>, c: nat) {
    forall n :: 0 <= n < |froms| && froms[n].None? ==> !Reaches(froms, c, n, n * c)
  }

  /** With channels in whole chunks nothing ever spills. */
  lemma WholeChunks(froms: seq<Option<nat>>, c: nat)
    requires c % 8 == 0
    ensures NoSpill(froms, c)
  {
    Round8Exact(c);
    forall n, t | 0 <= t < n < |froms| ensures !(n * c < t * c + Round8(c)) {
      BlockEnd(t, n, c);
    }
  }

  lemma SkippedIsZero(src: Vec, froms: seq<Option<nat>>, c: nat, k: nat, width: nat, at: nat, i: nat)
    requires k < |froms| && froms[k].None? && Fits(src, froms, c, width) && NoSpill(froms, c)
    requires at == k * c && at <= i < width
    ensures Poured(src, froms, c, k, width)[i] == 0
  {
    PouredAhead(src, froms, c, k, width, i);
    assert !Reaches(froms, c, k, at);
  }

  /** Without spill each tap's place holds the tap, or zeros. */
  lemma PouredPlace(src: Vec, froms: seq<Option<nat>>, c: nat, width: nat, k: nat, at: nat, i: nat)
    requires k < |froms| && Fits(src, froms, c, width) && NoSpill(froms, c) && at == k * c && at <= i < at + c
    ensures i < width
    ensures Poured(src, froms, c, |froms|, width)[i] == if froms[k].Some? then src[froms[k].value + (i - at)] else 0
  {
    PouredNext(src, froms, c, k, width, at);
    PouredStays(src, froms, c, |froms|, width, k, i);
    PourAt(src, froms[k], Poured(src, froms, c, k, width), at, c, i);
    if froms[k].None? {
      SkippedIsZero(src, froms, c, k, width, at, i);
    }
  }

  lemma PouredTap(src: Vec, froms: seq<Option<nat>>, c: nat, width: nat, k: nat, j: nat)
    requires k < |froms| && j < c && Fits(src, froms, c, width) && NoSpill(froms, c)
    ensures 0 <= k * c && k * c + c <= |froms| * c
    ensures Poured(src, froms, c, |froms|, width)[k * c + j]
         == if froms[k].Some? then src[froms[k].value + j] else 0
  {
    BlockEnd(k, |froms|, c);
    PouredPlace(src, froms, c, width, k, k * c, k * c + j);
  }

  /** The taps the offsets stand for. */
  ghost predicate Named(src: Vec, froms: seq<Option<nat>>, c: nat, taps: seq<Option<Vec>>) {
    && |taps| == |froms|
    && (forall t :: 0 <= t < |froms| && froms[t].Some? ==> froms[t].value + c <= |src|)
    && forall t :: 0 <= t < |froms| ==>
         taps[t] == if froms[t].Some? then Some(src[froms[t].value..froms[t].value + c]) else None
  }

  lemma NamedSizes(src: Vec, froms: seq<Option<nat>>, c: nat, taps: seq<Option<Vec>>)
    requires Named(src, froms, c, taps)
    ensures forall t :: 0 <= t < |taps| && taps[t].Some? ==> |taps[t].value| == c
  {
    forall t | 0 <= t < |taps| && taps[t].Some? ensures |taps[t].value| == c {
      assert froms[t].Some?;
    }
  }

  /** Byte j of tap k of the row the packer should leave. */
  lemma RowTap(taps: seq<Option<Vec>>, c: nat, width: nat, k: nat, j: nat)
    requires forall t :: 0 <= t < |taps| && taps[t].Some? ==> |taps[t].value| == c
    requires k < |taps| && j < c && |taps| * c <= width
    ensures 0 <= k * c && k * c + c <= |taps| * c
    ensures RowOfTaps(taps, c, width)[k * c + j] == if taps[k].Some? then taps[k].value[j] else 0
  {
    var base := k * c;
    BlockEnd(k, |taps|, c);
    RowEntry(taps, c, width, k, base);
    assert RowOfTaps(taps, c, width)[base..base + c][j] == RowOfTaps(taps, c, width)[base + j];
  }

  /** Without spill the row is the taps side by side, up to the end of the filter. */
  lemma PouredIsRow(src: Vec, froms: seq<Option<nat>>, c: nat, width: nat, taps: seq<Option<Vec>>, i: nat)
    requires Fits(src, froms, c, width) && NoSpill(froms, c) && Named(src, froms, c, taps) && i < |froms| * c
    requires forall t :: 0 <= t < |taps| && taps[t].Some? ==> |taps[t].value| == c
    ensures Poured(src, froms, c, |froms|, width)[i] == RowOfTaps(taps, c, width)[i]
  {
    PointSplit(i, |froms|, c);
    var k, j := i / c, i % c;
    PouredTap(src, froms, c, width, k, j);
    RowTap(taps, c, width, k, j);
  }

  /** With channels in whole chunks it is that row to its end, whatever the weights hold there. */
  lemma WholeChunkRow(src: Vec, froms: seq<Option<nat>>, c: nat, width: nat, taps: seq<Option<Vec>>)
    requires Fits(src, froms, c, width) && Named(src, froms, c, taps) && c % 8 == 0
    requires forall t :: 0 <= t < |taps| && taps[t].Some? ==> |taps[t].value| == c
    ensures Poured(src, froms, c, |froms|, width) == RowOfTaps(taps, c, width)
  {
    WholeChunks(froms, c);
    forall i | 0 <= i < width
      ensures Poured(src, froms, c, |froms|, width)[i] == RowOfTaps(taps, c, width)[i]
    {
      if i < |froms| * c {
        PouredIsRow(src, froms, c, width, taps, i);
      } else {
        PouredAhead(src, froms, c, |froms|, width, i);
        NothingPast(froms, c, i);
      }
    }
  }

  lemma NothingPast(froms: seq<Option<nat>>, c: nat, i: nat)
    requires c % 8 == 0 && |froms| * c <= i
    ensures !Reaches(froms, c, |froms|, i)
  {
    Round8Exact(c);
    forall t | 0 <= t < |froms| ensures t * c + Round8(c) <= i {
      BlockEnd(t, |froms|, c);
    }
  }

  // ---- One output pixel ----

  /** The rows of weights past the filter hold zeros, as the exported weights do. */
  ghost predicate PadIsZero(L: TLayer)
    requires L.Valid()
  {
    forall oc, k :: 0 <= oc < OC_BLOCK * L.ocBlocks && L.kInner <= k < L.kPadded ==> Weight(L, oc, k) == 0
  }

  lemma {:induction false} SumsAgree(L: TLayer, row: Vec, row': Vec, oc: nat, base: nat, n: nat)
    requires L.Valid() && oc < OC_BLOCK * L.ocBlocks && base <= n <= L.kPadded && n <= |row| && n <= |row'|
    requires forall i :: base <= i < n ==> row[i] == row'[i] || Weight(L, oc, i) == 0
    ensures RowSum(L, row, oc, n) - RowSum(L, row, oc, base) == RowSum(L, row', oc, n) - RowSum(L, row', oc, base)
    decreases n
  {
    if base < n {
      SumsAgree(L, row, row', oc, base, n - 1);
      assert row[n - 1] == row'[n - 1] || Weight(L, oc, n - 1) == 0;
    }
  }

  /** Rows that agree on the filter's entries make the same pixel. */
  lemma RowsAgree(L: TLayer, row: Vec, row': Vec)
    requires L.Valid() && PadIsZero(L) && |row| == |row'| == L.kPadded
    requires forall i :: 0 <= i < L.kInner ==> row[i] == row'[i]
    ensures RowOut(L, row) == RowOut(L, row')
  {
    forall oc | 0 <= oc < OC_BLOCK * L.ocBlocks
      ensures RowSum(L, row, oc, L.kPadded) == RowSum(L, row', oc, L.kPadded)
    {
      SumsAgree(L, row, row', oc, 0, L.kPadded);
    }
  }

  /** What the engine makes of the poured row is the convolution of the taps. */
  ghost predicate PixelExact(L: TLayer, src: Vec, froms: seq<Option<nat>>, taps: seq<Option<Vec>>)
    requires L.Valid() && |froms| * L.cIn == L.kInner && Fits(src, froms, L.cIn, L.kPadded)
    requires Named(src, froms, L.cIn, taps)
  {
    NamedSizes(src, froms, L.cIn, taps);
    RowOut(L, Poured(src, froms, L.cIn, |froms|, L.kPadded)) == OutVec(L, taps)
  }

  lemma NoSpillIsExact(L: TLayer, src: Vec, froms: seq<Option<nat>>, taps: seq<Option<Vec>>)
    requires L.Valid() && |froms| * L.cIn == L.kInner && Fits(src, froms, L.cIn, L.kPadded)
    requires Named(src, froms, L.cIn, taps) && PadIsZero(L) && NoSpill(froms, L.cIn)
    ensures PixelExact(L, src, froms, taps)
  {
    NamedSizes(src, froms, L.cIn, taps);
    var row, row' := Poured(src, froms, L.cIn, |froms|, L.kPadded), RowOfTaps(taps, L.cIn, L.kPadded);
    forall i | 0 <= i < L.kInner ensures row[i] == row'[i] {
      PouredIsRow(src, froms, L.cIn, L.kPadded, taps, i);
    }
    RowsAgree(L, row, row');
    PackedRowGivesPixel(L, taps);
  }

  // ---- The other direction: a source and weights that show a spill ----

  /** In a source of ones a byte in reach of a present tap is one. */
  lemma {:induction false} OnesReach(src: Vec, froms: seq<Option<nat>>, c: nat, n: nat, width: nat, i: nat)
    requires n <= |froms| && Fits(src, froms, c, width) && n * c <= i < width && Reaches(froms, c, n, i)
    requires forall q :: 0 <= q < |src| ==> src[q] == 1
    ensures Poured(src, froms, c, n, width)[i] == 1
  {
    var at := (n - 1) * c;
    BlockEnd(n - 1, n, c);
    PouredNext(src, froms, c, n - 1, width, at);
    PourAt(src, froms[n - 1], Poured(src, froms, c, n - 1, width), at, c, i);
    if !(froms[n - 1].Some? && i < at + Round8(c)) {
      OnesReach(src, froms, c, n - 1, width, i);
    }
  }

  /** The layer with this shape whose only weight is a one at entry k of channel 0. */
  function OneWeight(L: TLayer, k: nat): (L': TLayer)
    requires L.Valid() && k < L.kPadded && L.ocBlocks > 0
    ensures L'.Valid() && SameShape(L', L)
  {
    var tl8 := seq<int8>(|L.tl8|, i => if i == k * L.rowStride then 1 else 0);
    L.(tl8 := tl8, requant := (oc: nat, acc: int) => if acc == 0 then 0 else 1)
  }

  lemma OneWeightIs(L: TLayer, k: nat, oc: nat, i: nat)
    requires L.Valid() && k < L.kPadded && L.ocBlocks > 0 && oc < OC_BLOCK * L.ocBlocks && i < L.kPadded
    ensures Weight(OneWeight(L, k), oc, i) == if oc == 0 && i == k then 1 else 0
  {
    var L' := OneWeight(L, k);
    var ob, kb, kk := oc / OC_BLOCK, i / L.kBlock, i % L.kBlock;
    PointSplit(i, L.kBlocks, L.kBlock);
    RowInBounds(L', ob, kb, kk);
    var n := ob * L.kPadded + i;
    RowStartIs(L', ob, kb, kk, n);
    if n * L.rowStride + oc % OC_BLOCK == k * L.rowStride {
      DivModUnique(k * L.rowStride, L.rowStride, k, 0);
      DivModUnique(k * L.rowStride, L.rowStride, n, oc % OC_BLOCK);
      MulBounds(ob, L.kPadded);
    }
  }

  /** Its accumulator of channel 0 is the entry itself. */
  lemma OneWeightReads(L: TLayer, k: nat, row: Vec)
    requires L.Valid() && k < L.kPadded && L.ocBlocks > 0 && |row| == L.kPadded
    ensures RowSum(OneWeight(L, k), row, 0, L.kPadded) == row[k] as int
  {
    var L' := OneWeight(L, k);
    var none := seq<int8>(|row|, _ => 0);
    forall i | 0 <= i < L.kPadded ensures Weight(L', 0, i) == if i == k then 1 else 0 {
      OneWeightIs(L, k, 0, i);
    }
    SumsAgree(L', row, none, 0, 0, k);
    SumsAgree(L', row, none, 0, k + 1, L.kPadded);
    ZerosAddNothing(L', none, 0, 0, k);
    ZerosAddNothing(L', none, 0, k + 1, L.kPadded);
  }

  /** A spilt byte of the row. */
  lemma SpiltOne(src: Vec, froms: seq<Option<nat>>, c: nat, width: nat, n: nat, k: nat)
    requires Fits(src, froms, c, width) && c > 0
    requires n < |froms| && froms[n].None? && k == n * c && Reaches(froms, c, n, k)
    requires forall q :: 0 <= q < |src| ==> src[q] == 1
    ensures k < |froms| * c && Poured(src, froms, c, |froms|, width)[k] == 1
  {
    BlockEnd(n, |froms|, c);
    OnesReach(src, froms, c, n, width, k);
    PouredNext(src, froms, c, n, width, k);
    PouredStays(src, froms, c, |froms|, width, n, k);
  }

  /** There the convolution has a zero. */
  lemma SpiltZero(src: Vec, froms: seq<Option<nat>>, c: nat, width: nat, taps: seq<Option<Vec>>, n: nat, k: nat)
    requires Named(src, froms, c, taps) && |taps| * c <= width && c > 0
    requires forall t :: 0 <= t < |taps| && taps[t].Some? ==> |taps[t].value| == c
    requires n < |froms| && froms[n].None? && k == n * c
    ensures k < |taps| * c && RowOfTaps(taps, c, width)[k] == 0
  {
    RowTap(taps, c, width, n, 0);
  }

  lemma SpillPlace(froms: seq<Option<nat>>, c: nat) returns (n: nat, k: nat)
    requires !NoSpill(froms, c)
    ensures c > 0 && n < |froms| && froms[n].None? && k == n * c && Reaches(froms, c, n, k)
  {
    n :| 0 <= n < |froms| && froms[n].None? && Reaches(froms, c, n, n * c);
    k := n * c;
    ReachIsPositive(froms, c, n);
  }

  /** A spill shows in the output of some layer of this shape. */
  lemma SpillShows(L: TLayer, src: Vec, froms: seq<Option<nat>>, taps: seq<Option<Vec>>) returns (L': TLayer)
    requires L.Valid() && |froms| * L.cIn == L.kInner && Fits(src, froms, L.cIn, L.kPadded) && L.ocBlocks > 0
    requires Named(src, froms, L.cIn, taps) && !NoSpill(froms, L.cIn)
    requires forall q :: 0 <= q < |src| ==> src[q] == 1
    ensures L'.Valid() && SameShape(L', L) && PadIsZero(L') && !PixelExact(L', src, froms, taps)
  {
    var c := L.cIn;
    var n, k := SpillPlace(froms, c);
    NamedSizes(src, froms, c, taps);
    SpiltOne(src, froms, c, L.kPadded, n, k);
    SpiltZero(src, froms, c, L.kPadded, taps, n, k);
    L' := OneWeight(L, k);
    OneWeightPads(L, k);
    OneWeightSeparates(L, k, Poured(src, froms, c, |froms|, L.kPadded), taps);
  }

  lemma ReachIsPositive(froms: seq<Option<nat>>, c: nat, n: nat)
    requires n <= |froms| && Reaches(froms, c, n, n * c)
    ensures c > 0
  {
    if c == 0 {
      Round8Exact(0);
      var t :| 0 <= t < n && froms[t].Some? && n * c < t * c + Round8(c);
    }
  }

  lemma OneWeightPads(L: TLayer, k: nat)
    requires L.Valid() && k < L.kInner && L.ocBlocks > 0
    ensures PadIsZero(OneWeight(L, k))
  {
    forall oc, i | 0 <= oc < OC_BLOCK * L.ocBlocks && L.kInner <= i < L.kPadded
      ensures Weight(OneWeight(L, k), oc, i) == 0
    {
      OneWeightIs(L, k, oc, i);
    }
  }

  lemma OneWeightSeparates(L: TLayer, k: nat, row: Vec, taps: seq<Option<Vec>>)
    requires L.Valid() && k < L.kInner && L.ocBlocks > 0 && |row| == L.kPadded && |taps| * L.cIn == L.kInner
    requires forall t :: 0 <= t < |taps| && taps[t].Some? ==> |taps[t].value| == L.cIn
    requires row[k] == 1 && RowOfTaps(taps, L.cIn, L.kPadded)[k] == 0
    ensures RowOut(OneWeight(L, k), row) != OutVec(OneWeight(L, k), taps)
  {
    var L' := OneWeight(L, k);
    OneWeightReads(L, k, row);
    OneWeightReads(L, k, RowOfTaps(taps, L.cIn, L.kPadded));
    PackedRowGivesPixel(L', taps);
    assert RowOut(L', row)[0] == 1 && RowOut(L', RowOfTaps(taps, L.cIn, L.kPadded))[0] == 0;
  }

  // ---- The taps of a layer ----

  /** Where tap (ky, kx) of output pixel (oy, ox) is copied from: pack_conv_block. */
  function FromAt(L: TLayer, h: nat, w: nat, oy: nat, ox: nat, ky: int, kx: int): (from: Option<nat>)
    ensures from.Some? ==> from.value + L.cIn <= h * w * L.cIn
  {
    var (iy, ix) := (oy * L.strideH + ky - L.padH, ox * L.strideW + kx - L.padW);
    if 0 <= iy < h && 0 <= ix < w then
      PointInRange(iy, ix, h, w);
      BlockEnd(iy * w + ix, h * w, L.cIn);
      Some((iy * w + ix) * L.cIn)
    else None
  }

  function Froms(L: TLayer, h: nat, w: nat, oy: nat, ox: nat): (froms: seq<Option<nat>>)
    requires L.kW > 0
    ensures |froms| == L.kH * L.kW
  {
    seq(L.kH * L.kW, t requires 0 <= t < L.kH * L.kW => FromAt(L, h, w, oy, ox, t / L.kW, t % L.kW))
  }

  /** The buffer of a map can be read to the end of the last chunk. */
  predicate RoomyMap(src: Vec, h: nat, w: nat, c: nat) { h * w * c >= 0 && h * w * c + Spare(c) <= |src| }

  ghost predicate Readable(src: Vec, m: seq<Vec>, h: nat, w: nat, c: nat) {
    IsMap(m, h, w, c) && Holds(src, c, m, h * w) && RoomyMap(src, h, w, c)
  }

  /** The packed row has room for the last tap's chunks. */
  predicate RoomyRow(L: TLayer) { L.kH * L.kW * L.cIn >= 0 && L.kH * L.kW * L.cIn + Spare(L.cIn) <= L.kPadded }

  lemma FromsFit(L: TLayer, src: Vec, h: nat, w: nat, oy: nat, ox: nat)
    requires L.kW > 0 && RoomyMap(src, h, w, L.cIn) && RoomyRow(L)
    ensures Fits(src, Froms(L, h, w, oy, ox), L.cIn, L.kPadded)
  {
    var froms := Froms(L, h, w, oy, ox);
    forall t | 0 <= t < |froms| && froms[t].Some? ensures froms[t].value + Round8(L.cIn) <= |src| {
      assert froms[t] == FromAt(L, h, w, oy, ox, t / L.kW, t % L.kW);
    }
  }

  lemma FromsAreTaps(L: TLayer, src: Vec, m: seq<Vec>, h: nat, w: nat, oy: nat, ox: nat)
    requires L.kW > 0 && Readable(src, m, h, w, L.cIn) && RoomyRow(L)
    ensures Fits(src, Froms(L, h, w, oy, ox), L.cIn, L.kPadded)
    ensures Named(src, Froms(L, h, w, oy, ox), L.cIn, Taps(L, m, h, w, oy, ox))
  {
    FromsFit(L, src, h, w, oy, ox);
    var froms, taps := Froms(L, h, w, oy, ox), Taps(L, m, h, w, oy, ox);
    forall t | 0 <= t < |froms|
      ensures froms[t].Some? ==> froms[t].value + L.cIn <= |src|
      ensures taps[t] == if froms[t].Some? then Some(src[froms[t].value..froms[t].value + L.cIn]) else None
    {
      FromIsTap(L, src, m, h, w, oy, ox, t / L.kW, t % L.kW);
    }
  }

  lemma FromIsTap(L: TLayer, src: Vec, m: seq<Vec>, h: nat, w: nat, oy: nat, ox: nat, ky: int, kx: int)
    requires Readable(src, m, h, w, L.cIn)
    ensures var from := FromAt(L, h, w, oy, ox, ky, kx);
            && (from.Some? ==> from.value + L.cIn <= |src|)
            && TapAt(L, m, h, w, oy, ox, ky, kx)
               == if from.Some? then Some(src[from.value..from.value + L.cIn]) else None
  {
    var (iy, ix) := (oy * L.strideH + ky - L.padH, ox * L.strideW + kx - L.padW);
    if 0 <= iy < h && 0 <= ix < w {
      PointInRange(iy, ix, h, w);
      HoldsAt(src, L.cIn, m, h * w, iy * w + ix);
    }
  }

  // ---- Exactly when ----

  /** The layers differ at most in their weights and requantisation. */
  ghost predicate SameShape(L': TLayer, L: TLayer) {
    L'.(tl8 := L.tl8, requant := L.requant) == L
  }

  ghost predicate EngineExact(L: TLayer, src: Vec, m: seq<Vec>, h: nat, w: nat, oy: nat, ox: nat)
    requires L.Valid() && L.kW > 0 && L.kH * L.kW * L.cIn == L.kInner && RoomyRow(L) && Readable(src, m, h, w, L.cIn)
  {
    FromsAreTaps(L, src, m, h, w, oy, ox);
    PixelExact(L, src, Froms(L, h, w, oy, ox), Taps(L, m, h, w, oy, ox))
  }

  /** Over all weights with zero padding, all requantisations and all inputs the engine's pixel
      (oy, ox) is the convolution. */
  ghost predicate AlwaysExact(L: TLayer, h: nat, w: nat, oy: nat, ox: nat)
    requires L.kW > 0 && L.kH * L.kW * L.cIn == L.kInner && RoomyRow(L)
  {
    forall L': TLayer, src: Vec, m: seq<Vec> ::
      L'.Valid() && SameShape(L', L) && PadIsZero(L') && Readable(src, m, h, w, L.cIn) ==>
        EngineExact(L', src, m, h, w, oy, ox)
  }

  /** That holds if and only if no absent tap of the pixel lies within eight-byte reach of a
      present tap before it. */
  lemma ConvExactly(L: TLayer, h: nat, w: nat, oy: nat, ox: nat)
    requires L.Valid() && L.kW > 0 && L.kH * L.kW * L.cIn == L.kInner && RoomyRow(L) && L.ocBlocks > 0
    ensures AlwaysExact(L, h, w, oy, ox) <==> NoSpill(Froms(L, h, w, oy, ox), L.cIn)
  {
    if NoSpill(Froms(L, h, w, oy, ox), L.cIn) {
      forall L': TLayer, src: Vec, m: seq<Vec>
        | L'.Valid() && SameShape(L', L) && PadIsZero(L') && Readable(src, m, h, w, L.cIn)
        ensures EngineExact(L', src, m, h, w, oy, ox)
      {
        FromsAreTaps(L', src, m, h, w, oy, ox);
        SameFroms(L', L, m, h, w, oy, ox);
        NoSpillIsExact(L', src, Froms(L', h, w, oy, ox), Taps(L', m, h, w, oy, ox));
      }
    } else {
      SpillDiffers(L, h, w, oy, ox);
    }
  }

  lemma SameFroms(L': TLayer, L: TLayer, m: seq<Vec>, h: nat, w: nat, oy: nat, ox: nat)
    requires L.kW > 0 && SameShape(L', L) && IsMap(m, h, w, L.cIn)
    ensures Froms(L', h, w, oy, ox) == Froms(L, h, w, oy, ox)
    ensures Taps(L', m, h, w, oy, ox) == Taps(L, m, h, w, oy, ox)
  {
    forall ky: int, kx: int
      ensures FromAt(L', h, w, oy, ox, ky, kx) == FromAt(L, h, w, oy, ox, ky, kx)
      ensures TapAt(L', m, h, w, oy, ox, ky, kx) == TapAt(L, m, h, w, oy, ox, ky, kx)
    {
    }
  }

  lemma SpillDiffers(L: TLayer, h: nat, w: nat, oy: nat, ox: nat)
    requires L.Valid() && L.kW > 0 && L.kH * L.kW * L.cIn == L.kInner && RoomyRow(L) && L.ocBlocks > 0
    requires !NoSpill(Froms(L, h, w, oy, ox), L.cIn)
    ensures !AlwaysExact(L, h, w, oy, ox)
  {
    var src, m := Ones(L, h, w);
    FromsAreTaps(L, src, m, h, w, oy, ox);
    var L' := SpillShows(L, src, Froms(L, h, w, oy, ox), Taps(L, m, h, w, oy, ox));
    SameFroms(L', L, m, h, w, oy, ox);
    assert !EngineExact(L', src, m, h, w, oy, ox);
  }

  /** A readable map of ones. */
  lemma Ones(L: TLayer, h: nat, w: nat) returns (src: Vec, m: seq<Vec>)
    ensures Readable(src, m, h, w, L.cIn) && forall q :: 0 <= q < |src| ==> src[q] == 1
  {
    BlockEnd(0, h * w + 1, L.cIn);
    NextProduct(h * w, L.cIn);
    src, m := seq<int8>(h * w * L.cIn + Spare(L.cIn), _ => 1), seq(h * w, _ => seq<int8>(L.cIn, _ => 1));
    forall q | 0 <= q < h * w ensures q * L.cIn + L.cIn <= |src| && Block(src, L.cIn, q) == m[q] {
      BlockEnd(q, h * w, L.cIn);
    }
  }

  // ---- The first layer of the shipped network ----

  /** layer0 of yolov5n_p0.c: 6x6 taps of three channels, stride 2, padding 2. */
  predicate FirstLayer(L: TLayer) {
    && L.kH == 6 && L.kW == 6 && L.cIn == 3 && L.strideH == 2 && L.strideW == 2 && L.padH == 2 && L.padW == 2
    && L.kInner == 108 && L.kPadded == 128 && L.ocBlocks == 1
  }

  /** On its 640x640 input the engine gives the zero-padded convolution at every pixel of the
      320x320 output except those of the first and last column and of the last row. */
  lemma FirstLayerExactly(L: TLayer, oy: nat, ox: nat)
    requires L.Valid() && FirstLayer(L) && oy < 320 && ox < 320
    ensures L.kH * L.kW * L.cIn == L.kInner && RoomyRow(L)
    ensures AlwaysExact(L, 640, 640, oy, ox) <==> 1 <= ox <= 318 && oy <= 318
  {
    Reach3();
    ConvExactly(L, 640, 640, oy, ox);
    var froms := Froms(L, 640, 640, oy, ox);
    forall t | 0 <= t < 36 ensures froms[t].Some? <==> PresentTap(oy, ox, t / 6, t % 6) {
    }
    FirstLayerSpills(froms, oy, ox);
  }

  predicate PresentTap(oy: nat, ox: nat, ky: int, kx: int) {
    0 <= oy * 2 + ky - 2 < 640 && 0 <= ox * 2 + kx - 2 < 640
  }

  lemma FirstLayerSpills(froms: seq<Option<nat>>, oy: nat, ox: nat)
    requires |froms| == 36 && oy < 320 && ox < 320
    requires forall t :: 0 <= t < 36 ==> (froms[t].Some? <==> PresentTap(oy, ox, t / 6, t % 6))
    ensures NoSpill(froms, 3) <==> 1 <= ox <= 318 && oy <= 318
  {
    if 1 <= ox <= 318 && oy <= 318 {
      InnerPixel(froms, oy, ox);
    } else if ox == 0 {
      SpillAt(froms, 17);
    } else if ox == 319 {
      SpillAt(froms, 15);
    } else {
      SpillAt(froms, 23);
    }
  }

  /** Away from those borders the absent taps, if any, come before all present ones. */
  lemma InnerPixel(froms: seq<Option<nat>>, oy: nat, ox: nat)
    requires |froms| == 36 && 1 <= ox <= 318 && oy <= 318
    requires forall t :: 0 <= t < 36 ==> (froms[t].Some? <==> PresentTap(oy, ox, t / 6, t % 6))
    ensures NoSpill(froms, 3)
  {
    forall n, t | 0 <= t < n < 36 && froms[t].Some? ensures froms[n].Some? {
      assert t / 6 <= n / 6 <= 5 && 0 <= n % 6 <= 5;
      assert PresentTap(oy, ox, n / 6, n % 6);
    }
  }

  lemma SpillAt(froms: seq<Option<nat>>, t: nat)
    requires t + 1 < |froms| && froms[t].Some? && froms[t + 1].None?
    ensures !NoSpill(froms, 3)
  {
    Reach3();
    assert Reaches(froms, 3, t + 1, (t + 1) * 3);
  }

  lemma Reach3()
    ensures Round8(3) == 8
  {
    assert Chunks(3) == 1;
  }
}

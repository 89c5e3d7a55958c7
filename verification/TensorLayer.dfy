// The loops of the YOLOv5n layer engine: im2col packing, the blocked product of one
// 16 x 16 output block, and the two layer drivers.
module TensorLayer {
  import opened Buffers
  import opened Conv
  import opened Tl8
  import opened TensorConv
  import opened TensorPack

  // ---- One 16 x 16 output block ----

  /** tensor_load: rows of cols bytes each, stride bytes apart. */
  function LoadTile(s: Vec, off: nat, rows: nat, stride: nat, cols: nat): (tile: seq<Vec>)
    requires forall r :: 0 <= r < rows ==> TileRowFits(s, off, stride, cols, r)
    ensures |tile| == rows && forall r :: 0 <= r < rows ==> |tile[r]| == cols
  {
    seq(rows, r requires 0 <= r < rows => TileRow(s, off, stride, cols, r))
  }

  function TileRow(s: Vec, off: nat, stride: nat, cols: nat, r: int): (v: Vec)
    requires TileRowFits(s, off, stride, cols, r)
    ensures |v| == cols
  {
    s[off + r * stride..off + r * stride + cols]
  }

  predicate TileRowFits(s: Vec, off: nat, stride: nat, cols: nat, r: int) {
    0 <= off + r * stride && off + r * stride + cols <= |s|
  }

  /** Row a of the left tile times column c of the right tile, first n entries. */
  ghost function TileDot(a: Vec, b: seq<Vec>, c: nat, n: nat): int
    requires n <= |a| && n <= |b| && forall k :: 0 <= k < n ==> c < |b[k]|
  {
    if n == 0 then 0 else TileDot(a, b, c, n - 1) + a[n - 1] as int * b[n - 1][c] as int
  }

  /** The instruction's inner product. */
  method DotProduct(a: Vec, b: seq<Vec>, c: nat, n: nat) returns (sum: int)
    requires n <= |a| && n <= |b| && forall k :: 0 <= k < n ==> c < |b[k]|
    ensures sum == TileDot(a, b, c, n)
  {
    sum := 0;
    for k := 0 to n
      invariant sum == TileDot(a, b, c, k)
    {
      sum := sum + a[k] as int * b[k][c] as int;
    }
  }

  /** tensor_fma over whole tiles: the accumulators are cleared when first is set. */
  method TensorFma(a: seq<Vec>, b: seq<Vec>, n: nat, acc: array2<int>, first: bool)
    requires |a| == PIX_BLOCK && |b| == n && acc.Length0 == PIX_BLOCK && acc.Length1 == OC_BLOCK
    requires forall r :: 0 <= r < |a| ==> |a[r]| == n
    requires forall k :: 0 <= k < |b| ==> |b[k]| == OC_BLOCK
    modifies acc
    ensures forall r, c :: 0 <= r < PIX_BLOCK && 0 <= c < OC_BLOCK ==>
      acc[r, c] == (if first then 0 else old(acc[r, c])) + TileDot(a[r], b, c, n)
  {
    for r := 0 to PIX_BLOCK
      invariant forall i, c :: 0 <= i < r && 0 <= c < OC_BLOCK ==>
        acc[i, c] == (if first then 0 else old(acc[i, c])) + TileDot(a[i], b, c, n)
      invariant forall i, c :: r <= i < PIX_BLOCK && 0 <= c < OC_BLOCK ==> acc[i, c] == old(acc[i, c])
    {
      for c := 0 to OC_BLOCK
        invariant forall i, j :: 0 <= i < PIX_BLOCK && 0 <= j < OC_BLOCK ==>
          acc[i, j] == if i < r || (i == r && j < c)
                       then (if first then 0 else old(acc[i, j])) + TileDot(a[i], b, j, n)
                       else old(acc[i, j])
      {
        var sum := DotProduct(a[r], b, c, n);
        acc[r, c] := (if first then 0 else acc[r, c]) + sum;
      }
    }
  }

  /** One block of filter entries extends the row sums by that block. */
  lemma {:induction false} BlockExtendsRowSum(L: TLayer, row: Vec, a: Vec, b: seq<Vec>, ocBlk: nat, kBlk: nat, c: nat,
                                              base: nat, n: nat)
    requires L.Valid() && ocBlk < L.ocBlocks && kBlk < L.kBlocks && c < OC_BLOCK && n <= L.kBlock
    requires |row| == L.kPadded && |a| == L.kBlock && |b| == L.kBlock
    requires base == kBlk * L.kBlock && base + L.kBlock <= L.kPadded && a == row[base..base + L.kBlock]
    requires forall k :: 0 <= k < L.kBlock ==> |b[k]| == OC_BLOCK && WeightRow(L, b[k], ocBlk, kBlk, k)
    ensures ocBlk * OC_BLOCK + c < OC_BLOCK * L.ocBlocks
    ensures RowSum(L, row, ocBlk * OC_BLOCK + c, base + n)
            == RowSum(L, row, ocBlk * OC_BLOCK + c, base) + TileDot(a, b, c, n)
  {
    if n > 0 {
      BlockExtendsRowSum(L, row, a, b, ocBlk, kBlk, c, base, n - 1);
      WeightAt(L, ocBlk, c, kBlk, n - 1);
      assert WeightRow(L, b[n - 1], ocBlk, kBlk, n - 1);
      assert a[n - 1] == row[base + (n - 1)];
      assert b[n - 1][c] == Weight(L, ocBlk * OC_BLOCK + c, base + (n - 1));
    }
  }

  /** v is row k of a block of the packed weights. */
  ghost predicate WeightRow(L: TLayer, v: Vec, ocBlk: nat, kBlk: nat, k: nat) {
    && 0 <= RowStart(L, ocBlk, kBlk, k) && RowStart(L, ocBlk, kBlk, k) + OC_BLOCK <= |L.tl8|
    && v == L.tl8[RowStart(L, ocBlk, kBlk, k)..RowStart(L, ocBlk, kBlk, k) + OC_BLOCK]
  }

  /** The weight tile of a block. */
  method LoadWeights(L: TLayer, ocBlk: nat, kBlk: nat) returns (b: seq<Vec>)
    requires L.Valid() && ocBlk < L.ocBlocks && kBlk < L.kBlocks
    ensures |b| == L.kBlock
    ensures forall k :: 0 <= k < L.kBlock ==> |b[k]| == OC_BLOCK && WeightRow(L, b[k], ocBlk, kBlk, k)
  {
    RowInBounds(L, ocBlk, kBlk, 0);
    var start := BlockStart(L, ocBlk, kBlk);
    forall k | 0 <= k < L.kBlock
      ensures TileRowFits(L.tl8, start, L.rowStride, OC_BLOCK, k)
      ensures WeightRow(L, TileRow(L.tl8, start, L.rowStride, OC_BLOCK, k), ocBlk, kBlk, k)
    {
      RowInBounds(L, ocBlk, kBlk, k);
    }
    b := LoadTile(L.tl8, start, L.kBlock, L.rowStride, OC_BLOCK);
  }

  lemma InputRow(inBlk: Vec, off: nat, stride: nat, cols: nat, rows: seq<Vec>, r: nat, at: int)
    requires |rows| == PIX_BLOCK && Holds(inBlk, stride, rows, PIX_BLOCK) && off + cols <= stride
    requires r < PIX_BLOCK && at == r * stride
    ensures 0 <= at && off + at + cols <= |inBlk| && |rows[r]| == stride
    ensures inBlk[off + at..off + at + cols] == rows[r][off..off + cols]
  {
    MulBounds(r, stride);
    HoldsAt(inBlk, stride, rows, PIX_BLOCK, r);
    SliceOfSlice(inBlk, at, stride, off, cols);
  }

  /** The input tile: kBlock entries of each of the sixteen packed rows. */
  method LoadInput(inBlk: Vec, off: nat, stride: nat, cols: nat, ghost rows: seq<Vec>) returns (a: seq<Vec>)
    requires |rows| == PIX_BLOCK && Holds(inBlk, stride, rows, PIX_BLOCK) && off + cols <= stride
    ensures |a| == PIX_BLOCK && forall r :: 0 <= r < PIX_BLOCK ==>
              |rows[r]| == stride && a[r] == rows[r][off..off + cols]
  {
    forall r | 0 <= r < PIX_BLOCK
      ensures TileRowFits(inBlk, off, stride, cols, r)
      ensures TileRow(inBlk, off, stride, cols, r) == rows[r][off..off + cols]
    {
      InputRow(inBlk, off, stride, cols, rows, r, r * stride);
    }
    a := LoadTile(inBlk, off, PIX_BLOCK, stride, cols);
  }

  /** The accumulators hold the row sums of the first n entries. */
  ghost predicate Summed(L: TLayer, rows: seq<Vec>, ocBlk: nat, acc: array2<int>, n: nat)
    requires L.Valid() && ocBlk < L.ocBlocks && acc.Length0 == PIX_BLOCK && acc.Length1 == OC_BLOCK
    requires |rows| == PIX_BLOCK && forall r :: 0 <= r < |rows| ==> |rows[r]| == L.kPadded
    requires n <= L.kPadded
    reads acc
  {
    forall r, c :: 0 <= r < PIX_BLOCK && 0 <= c < OC_BLOCK ==>
      acc[r, c] == RowSum(L, rows[r], ocBlk * OC_BLOCK + c, n)
  }

  /** One turn of the block loop of run_tensor_block. */
  method AccumulateBlock(L: TLayer, inBlk: Vec, inStride: nat, ocBlk: nat, kBlk: nat, base: nat, acc: array2<int>,
                         ghost rows: seq<Vec>)
    requires L.Valid() && ocBlk < L.ocBlocks && kBlk < L.kBlocks && inStride == L.kPadded
    requires base == kBlk * L.kBlock && base + L.kBlock <= L.kPadded
    requires acc.Length0 == PIX_BLOCK && acc.Length1 == OC_BLOCK
    requires |rows| == PIX_BLOCK && forall r :: 0 <= r < |rows| ==> |rows[r]| == L.kPadded
    requires Holds(inBlk, inStride, rows, PIX_BLOCK)
    requires kBlk > 0 ==> Summed(L, rows, ocBlk, acc, base)
    modifies acc
    ensures Summed(L, rows, ocBlk, acc, base + L.kBlock)
  {
    var a := LoadInput(inBlk, base, inStride, L.kBlock, rows);
    var b := LoadWeights(L, ocBlk, kBlk);
    TensorFma(a, b, L.kBlock, acc, kBlk == 0);
    forall r, c | 0 <= r < PIX_BLOCK && 0 <= c < OC_BLOCK
      ensures acc[r, c] == RowSum(L, rows[r], ocBlk * OC_BLOCK + c, base + L.kBlock)
    {
      BlockExtendsRowSum(L, rows[r], a[r], b, ocBlk, kBlk, c, base, L.kBlock);
    }
  }

  /** The block loop of run_tensor_block. */
  method AccumulateBlocks(L: TLayer, inBlk: Vec, inStride: nat, ocBlk: nat, acc: array2<int>, ghost rows: seq<Vec>)
    requires L.Valid() && ocBlk < L.ocBlocks && inStride == L.kPadded
    requires acc.Length0 == PIX_BLOCK && acc.Length1 == OC_BLOCK
    requires |rows| == PIX_BLOCK && forall r :: 0 <= r < |rows| ==> |rows[r]| == L.kPadded
    requires Holds(inBlk, inStride, rows, PIX_BLOCK)
    modifies acc
    ensures Summed(L, rows, ocBlk, acc, L.kPadded)
  {
    var base := 0;
    for kBlk := 0 to L.kBlocks
      invariant base == kBlk * L.kBlock <= L.kPadded
      invariant kBlk > 0 ==> Summed(L, rows, ocBlk, acc, base)
    {
      BlockEnd(kBlk, L.kBlocks, L.kBlock);
      AccumulateBlock(L, inBlk, inStride, ocBlk, kBlk, base, acc, rows);
      assert (kBlk + 1) * L.kBlock == base + L.kBlock;
      base := base + L.kBlock;
    }
  }

  // ---- Storing a block ----

  /** The channels of an output pixel finished so far, and the old bytes after them. */
  ghost function Mixed(out: Vec, orig: Vec, n: nat): (v: Vec)
    requires n <= |out| <= |orig|
    ensures |v| == |orig|
  {
    out[..n] + orig[n..]
  }

  ghost predicate Mixable(out: seq<Vec>, orig: seq<Vec>, full: nat, c: nat) {
    && |out| == |orig| && full <= c
    && (forall p :: 0 <= p < |out| ==> |out[p]| == full)
    && (forall p :: 0 <= p < |orig| ==> |orig[p]| == c)
  }

  /** The destination when done[p] channels of pixel p are finished. */
  ghost function MixMap(out: seq<Vec>, orig: seq<Vec>, full: nat, c: nat, done: seq<nat>): (m: seq<Vec>)
    requires Mixable(out, orig, full, c) && |done| == |out|
    requires forall p :: 0 <= p < |done| ==> done[p] <= full
    ensures |m| == |out| && forall p :: 0 <= p < |m| ==> |m[p]| == c
  {
    seq(|out|, p requires 0 <= p < |out| => Mixed(out[p], orig[p], done[p]))
  }

  lemma SpliceInPixel(s: Vec, c: nat, m: seq<Vec>, n: nat, p: nat, o: nat, v: Vec)
    requires Holds(s, c, m, n) && p < n && o + |v| <= c
    ensures 0 <= p * c && p * c + c <= |s| && |m[p]| == c
    ensures Holds(Splice(s, p * c + o, v), c, m[p := Splice(m[p], o, v)], n)
  {
    BlockEnd(p, n, c);
    var at := p * c;
    assert Block(s, c, p) == m[p];
    SpliceTwice(s, at, m[p], o, v);
    HoldsUpdate(s, c, m, n, p, Splice(m[p], o, v));
  }

  lemma SpliceTwice<T>(s: seq<T>, at: nat, b: seq<T>, o: nat, v: seq<T>)
    requires at + |b| <= |s| && s[at..at + |b|] == b && o + |v| <= |b|
    ensures Splice(s, at + o, v) == Splice(s, at, Splice(b, o, v))
  {
    var l, r := Splice(s, at + o, v), Splice(s, at, Splice(b, o, v));
    forall i | 0 <= i < |s| ensures l[i] == r[i] {
      if at <= i < at + |b| {
        assert b[i - at] == s[at..at + |b|][i - at] == s[i];
      }
    }
  }

  lemma MixedStep(out: Vec, orig: Vec, n: nat, k: nat)
    requires n + k <= |out| <= |orig|
    ensures Splice(Mixed(out, orig, n), n, out[n..n + k]) == Mixed(out, orig, n + k)
  {
  }

  /** The requantised values of one accumulator row. */
  method FinishRow(L: TLayer, ocBlk: nat, acc: array2<int>, r: nat, ghost out: Vec) returns (v: Vec)
    requires acc.Length0 == PIX_BLOCK && acc.Length1 == OC_BLOCK && r < PIX_BLOCK
    requires ocBlk * OC_BLOCK + OC_BLOCK <= |out|
    requires forall c :: 0 <= c < OC_BLOCK ==> L.requant(ocBlk * OC_BLOCK + c, acc[r, c]) == out[ocBlk * OC_BLOCK + c]
    ensures v == out[ocBlk * OC_BLOCK..ocBlk * OC_BLOCK + OC_BLOCK]
  {
    v := [];
    for c := 0 to OC_BLOCK
      invariant |v| == c && forall i :: 0 <= i < c ==> v[i] == out[ocBlk * OC_BLOCK + i]
    {
      v := v + [L.requant(ocBlk * OC_BLOCK + c, acc[r, c])];
    }
  }

  /** Storing channels n .. n + |v| of pixel p. */
  method StoreRow(dst: array<int8>, c: nat, p: nat, n: nat, at: nat, v: Vec,
                  ghost out: seq<Vec>, ghost orig: seq<Vec>, ghost full: nat, ghost done: seq<nat>)
    requires Mixable(out, orig, full, c) && |done| == |out| && p < |out| && n + |v| <= full
    requires forall q :: 0 <= q < |done| ==> done[q] <= full
    requires Holds(dst[..], c, MixMap(out, orig, full, c, done), |out|)
    requires at == p * c + n && done[p] == n && v == out[p][n..n + |v|]
    modifies dst
    ensures Holds(dst[..], c, MixMap(out, orig, full, c, done[p := n + |v|]), |out|)
  {
    ghost var m := MixMap(out, orig, full, c, done);
    SpliceInPixel(dst[..], c, m, |out|, p, n, v);
    MixedStep(out[p], orig[p], n, |v|);
    CopyBytes(dst, at, v);
    assert MixMap(out, orig, full, c, done[p := n + |v|]) == m[p := Splice(m[p], n, v)];
  }

  /** Channels finished when the pixel blocks before pix are complete and, in the block at
      pix, the first r rows are one output block ahead of the others. */
  ghost function Progress(count: nat, pix: nat, r: nat, n: nat, full: nat): (done: seq<nat>)
    ensures |done| == count
  {
    seq(count, p requires 0 <= p < count =>
      if p < pix then full else if p < pix + r then n + OC_BLOCK else if p < pix + PIX_BLOCK then n else 0)
  }

  /** Row r of tensor_finish_block_rows. */
  method FinishBlockRow(L: TLayer, dst: array<int8>, dstC: nat, pix: nat, r: nat, ocBlk: nat, acc: array2<int>,
                        ghost rows: seq<Vec>, ghost out: seq<Vec>, ghost orig: seq<Vec>)
    requires L.Valid() && ocBlk < L.ocBlocks && acc.Length0 == PIX_BLOCK && acc.Length1 == OC_BLOCK
    requires |rows| == PIX_BLOCK && forall i :: 0 <= i < |rows| ==> |rows[i]| == L.kPadded
    requires Summed(L, rows, ocBlk, acc, L.kPadded) && r < PIX_BLOCK
    requires Mixable(out, orig, OC_BLOCK * L.ocBlocks, dstC) && pix + PIX_BLOCK <= |out|
    requires out[pix + r] == RowOut(L, rows[r])
    requires Holds(dst[..], dstC, MixMap(out, orig, OC_BLOCK * L.ocBlocks, dstC,
              Progress(|out|, pix, r, ocBlk * OC_BLOCK, OC_BLOCK * L.ocBlocks)), |out|)
    modifies dst
    ensures Holds(dst[..], dstC, MixMap(out, orig, OC_BLOCK * L.ocBlocks, dstC,
              Progress(|out|, pix, r + 1, ocBlk * OC_BLOCK, OC_BLOCK * L.ocBlocks)), |out|)
  {
    var p, n := pix + r, ocBlk * OC_BLOCK;
    ghost var full := OC_BLOCK * L.ocBlocks;
    var v := FinishRow(L, ocBlk, acc, r, out[p]);
    BlockEnd(p, |out|, dstC);
    ghost var done := Progress(|out|, pix, r, n, full);
    assert done[p := n + OC_BLOCK] == Progress(|out|, pix, r + 1, n, full);
    StoreRow(dst, dstC, p, n, p * dstC + n, v, out, orig, full, done);
  }

  /** The destination with every pixel block before pix complete and, in the block at pix,
      the first n channels. */
  ghost predicate Painted(s: Vec, L: TLayer, c: nat, out: seq<Vec>, orig: seq<Vec>, pix: nat, n: nat) {
    && n <= OC_BLOCK * L.ocBlocks
    && Mixable(out, orig, OC_BLOCK * L.ocBlocks, c)
    && Holds(s, c, MixMap(out, orig, OC_BLOCK * L.ocBlocks, c, Progress(|out|, pix, 0, n, OC_BLOCK * L.ocBlocks)),
          |out|)
  }

  lemma BlockDone(count: nat, pix: nat, n: nat, full: nat)
    ensures Progress(count, pix, PIX_BLOCK, n, full) == Progress(count, pix, 0, n + OC_BLOCK, full)
    ensures Progress(count, pix, 0, full, full) == Progress(count, pix + PIX_BLOCK, 0, 0, full)
  {
  }

  /** run_tensor_block: sixteen channels of the sixteen pixels at pix. */
  method RunTensorBlock(L: TLayer, inBlk: Vec, inStride: nat, dst: array<int8>, dstC: nat, pix: nat, ocBlk: nat,
                        acc: array2<int>, ghost rows: seq<Vec>, ghost out: seq<Vec>, ghost orig: seq<Vec>)
    requires L.Valid() && ocBlk < L.ocBlocks && inStride == L.kPadded
    requires acc.Length0 == PIX_BLOCK && acc.Length1 == OC_BLOCK
    requires |rows| == PIX_BLOCK && forall r :: 0 <= r < |rows| ==> |rows[r]| == L.kPadded
    requires Holds(inBlk, inStride, rows, PIX_BLOCK) && pix + PIX_BLOCK <= |out|
    requires forall r :: 0 <= r < PIX_BLOCK ==> out[pix + r] == RowOut(L, rows[r])
    requires Painted(dst[..], L, dstC, out, orig, pix, ocBlk * OC_BLOCK)
    modifies dst, acc
    ensures Painted(dst[..], L, dstC, out, orig, pix, ocBlk * OC_BLOCK + OC_BLOCK)
  {
    AccumulateBlocks(L, inBlk, inStride, ocBlk, acc, rows);
    ghost var n, full := ocBlk * OC_BLOCK, OC_BLOCK * L.ocBlocks;
    for r := 0 to PIX_BLOCK
      invariant Summed(L, rows, ocBlk, acc, L.kPadded)
      invariant Holds(dst[..], dstC, MixMap(out, orig, full, dstC, Progress(|out|, pix, r, n, full)), |out|)
    {
      FinishBlockRow(L, dst, dstC, pix, r, ocBlk, acc, rows, out, orig);
    }
    BlockDone(|out|, pix, n, full);
  }

  /** All channels of sixteen pixels. */
  method RunRowBlock(L: TLayer, inBlk: Vec, inStride: nat, dst: array<int8>, dstC: nat, pix: nat, acc: array2<int>,
                     ghost rows: seq<Vec>, ghost out: seq<Vec>, ghost orig: seq<Vec>)
    requires L.Valid() && inStride == L.kPadded
    requires acc.Length0 == PIX_BLOCK && acc.Length1 == OC_BLOCK
    requires |rows| == PIX_BLOCK && forall r :: 0 <= r < |rows| ==> |rows[r]| == L.kPadded
    requires Holds(inBlk, inStride, rows, PIX_BLOCK) && pix + PIX_BLOCK <= |out|
    requires forall r :: 0 <= r < PIX_BLOCK ==> out[pix + r] == RowOut(L, rows[r])
    requires Painted(dst[..], L, dstC, out, orig, pix, 0)
    modifies dst, acc
    ensures Painted(dst[..], L, dstC, out, orig, pix + PIX_BLOCK, 0)
  {
    for ocBlk := 0 to L.ocBlocks
      invariant Painted(dst[..], L, dstC, out, orig, pix, ocBlk * OC_BLOCK)
    {
      RunTensorBlock(L, inBlk, inStride, dst, dstC, pix, ocBlk, acc, rows, out, orig);
    }
    BlockDone(|out|, pix, 0, OC_BLOCK * L.ocBlocks);
  }

  // ---- Packing ----

  lemma SpliceInside<T>(s: seq<T>, at: nat, b: seq<T>, o: nat, v: seq<T>)
    requires at + |b| <= |s| && o + |v| <= |b|
    ensures Splice(Splice(s, at, b), at + o, v) == Splice(s, at, Splice(b, o, v))
  {
    var l, r := Splice(Splice(s, at, b), at + o, v), Splice(s, at, Splice(b, o, v));
    forall i | 0 <= i < |s| ensures l[i] == r[i] {
    }
  }

  /** One tap of pack_conv_block: skipped outside the map, otherwise copied to its place. */
  method PackTap(L: TLayer, src: Vec, h: nat, w: nat, oy: nat, ox: nat, ky: nat, kx: nat, n: nat,
                 buf: array<int8>, at: nat, ghost froms: seq<Option<nat>>, ghost s0: Vec)
    requires L.kW > 0 && froms == Froms(L, h, w, oy, ox) && Fits(src, froms, L.cIn, L.kPadded)
    requires ky < L.kH && kx < L.kW && n == ky * L.kW + kx && n < |froms|
    requires |s0| == buf.Length && at + L.kPadded <= buf.Length
    requires buf[..] == Splice(s0, at, Poured(src, froms, L.cIn, n, L.kPadded))
    modifies buf
    ensures buf[..] == Splice(s0, at, Poured(src, froms, L.cIn, n + 1, L.kPadded))
  {
    var iy, ix := oy * L.strideH + ky - L.padH, ox * L.strideW + kx - L.padW;
    DivModUnique(n, L.kW, ky, kx);
    assert froms[n] == FromAt(L, h, w, oy, ox, ky, kx);
    PutTap(src, h, w, iy, ix, (iy * w + ix) * L.cIn, n, L.cIn, L.kPadded, buf, at, froms, s0);
  }

  method PutTap(src: Vec, h: nat, w: nat, iy: int, ix: int, from: int, n: nat, c: nat, ghost width: nat,
                buf: array<int8>, at: nat, ghost froms: seq<Option<nat>>, ghost s0: Vec)
    requires Fits(src, froms, c, width) && n < |froms|
    requires if 0 <= iy < h && 0 <= ix < w then from >= 0 && froms[n] == Some(from) else froms[n] == None
    requires |s0| == buf.Length && at + width <= buf.Length
    requires buf[..] == Splice(s0, at, Poured(src, froms, c, n, width))
    modifies buf
    ensures buf[..] == Splice(s0, at, Poured(src, froms, c, n + 1, width))
  {
    var off := n * c;
    ghost var row, next := Poured(src, froms, c, n, width), Poured(src, froms, c, n + 1, width);
    PutPoured(s0, at, src, froms, c, n, width, off);
    if iy < 0 || iy >= h || ix < 0 || ix >= w {
      assert next == row;
      return;
    }
    WriteOver(src, from, c, buf, at + off, Splice(s0, at, row), Splice(s0, at, next));
  }

  method WriteOver(src: Vec, from: nat, c: nat, buf: array<int8>, off: nat, ghost before: Vec, ghost after: Vec)
    requires from + Round8(c) <= |src| && off + Round8(c) <= buf.Length && buf[..] == before
    requires after == Splice(before, off, src[from..from + Round8(c)])
    modifies buf
    ensures buf[..] == after
  {
    VecCopyBytes(buf, off, src, from, c);
  }

  lemma PutPoured(s0: Vec, at: nat, src: Vec, froms: seq<Option<nat>>, c: nat, n: nat, width: nat, off: int)
    requires n < |froms| && Fits(src, froms, c, width) && off == n * c && at + width <= |s0|
    ensures 0 <= off && off + Round8(c) <= width
    ensures var (row, next) := (Poured(src, froms, c, n, width), Poured(src, froms, c, n + 1, width));
            if froms[n].None? then next == row
            else Splice(Splice(s0, at, row), at + off, src[froms[n].value..froms[n].value + Round8(c)])
                 == Splice(s0, at, next)
  {
    MulBounds(n, c);
    PouredNext(src, froms, c, n, width, off);
    if froms[n].Some? {
      var chunks := src[froms[n].value..froms[n].value + Round8(c)];
      SpliceInside(s0, at, Poured(src, froms, c, n, width), off, chunks);
    }
  }

  /** One row ky of taps. */
  method PackTapRow(L: TLayer, src: Vec, h: nat, w: nat, oy: nat, ox: nat, ky: nat, n0: nat,
                    buf: array<int8>, at: nat, ghost froms: seq<Option<nat>>, ghost s0: Vec)
    requires L.kW > 0 && froms == Froms(L, h, w, oy, ox) && Fits(src, froms, L.cIn, L.kPadded)
    requires ky < L.kH && n0 == ky * L.kW <= |froms|
    requires |s0| == buf.Length && at + L.kPadded <= buf.Length
    requires buf[..] == Splice(s0, at, Poured(src, froms, L.cIn, n0, L.kPadded))
    modifies buf
    ensures n0 + L.kW <= |froms|
    ensures buf[..] == Splice(s0, at, Poured(src, froms, L.cIn, n0 + L.kW, L.kPadded))
  {
    BlockEnd(ky, L.kH, L.kW);
    for kx := 0 to L.kW
      invariant buf[..] == Splice(s0, at, Poured(src, froms, L.cIn, n0 + kx, L.kPadded))
    {
      PackTap(L, src, h, w, oy, ox, ky, kx, n0 + kx, buf, at, froms, s0);
    }
  }

  /** Every tap of one packed row, over zeros. */
  method PackTaps(L: TLayer, src: Vec, h: nat, w: nat, oy: nat, ox: nat, buf: array<int8>, at: nat,
                  ghost froms: seq<Option<nat>>, ghost s0: Vec)
    requires L.kW > 0 && froms == Froms(L, h, w, oy, ox) && Fits(src, froms, L.cIn, L.kPadded)
    requires |s0| == buf.Length && at + L.kPadded <= buf.Length
    requires buf[..] == Splice(s0, at, Poured(src, froms, L.cIn, 0, L.kPadded))
    modifies buf
    ensures buf[..] == Splice(s0, at, Poured(src, froms, L.cIn, |froms|, L.kPadded))
  {
    var n := 0;
    for ky := 0 to L.kH
      invariant n == ky * L.kW <= |froms|
      invariant buf[..] == Splice(s0, at, Poured(src, froms, L.cIn, n, L.kPadded))
    {
      PackTapRow(L, src, h, w, oy, ox, ky, n, buf, at, froms, s0);
      NextProduct(ky, L.kW);
      n := n + L.kW;
    }
  }

  /** One row of pack_conv_block: zero fill, then every tap inside the map. */
  method PackRow(L: TLayer, src: Vec, h: nat, w: nat, oy: nat, ox: nat, buf: array<int8>, at: nat)
    requires L.kW > 0 && L.kPadded % 8 == 0 && RoomyRow(L) && RoomyMap(src, h, w, L.cIn)
    requires at + L.kPadded <= buf.Length
    modifies buf
    ensures buf[..] == Splice(old(buf[..]), at, PixelRow(L, src, h, w, oy, ox))
  {
    ghost var s0, froms := buf[..], Froms(L, h, w, oy, ox);
    FromsFit(L, src, h, w, oy, ox);
    Round8Exact(L.kPadded);
    VecZeroBytes(buf, at, L.kPadded);
    PackTaps(L, src, h, w, oy, ox, buf, at, froms, s0);
  }

  /** The packed row of the output pixel at (oy, ox). */
  ghost function PixelRow(L: TLayer, src: Vec, h: nat, w: nat, oy: nat, ox: nat): (row: Vec)
    requires L.kW > 0 && RoomyRow(L) && RoomyMap(src, h, w, L.cIn)
    ensures |row| == L.kPadded
  {
    FromsFit(L, src, h, w, oy, ox);
    Poured(src, Froms(L, h, w, oy, ox), L.cIn, L.kH * L.kW, L.kPadded)
  }

  function RowNo(p: nat, w: nat): nat { if w == 0 then 0 else p / w }

  function ColNo(p: nat, w: nat): nat { if w == 0 then 0 else p % w }

  /** The taps of output pixel p. */
  ghost function TapsOf(L: TLayer, m: seq<Vec>, h: nat, w: nat, dstW: nat, p: nat): (taps: seq<Option<Vec>>)
    requires L.kW > 0 && IsMap(m, h, w, L.cIn)
    ensures |taps| == L.kH * L.kW
    ensures forall t :: 0 <= t < |taps| && taps[t].Some? ==> |taps[t].value| == L.cIn
  {
    Taps(L, m, h, w, RowNo(p, dstW), ColNo(p, dstW))
  }

  /** The packed row of output pixel p. */
  ghost function PackedRow(L: TLayer, src: Vec, h: nat, w: nat, dstW: nat, p: int): (row: Vec)
    requires L.kW > 0 && RoomyRow(L) && RoomyMap(src, h, w, L.cIn) && p >= 0
    ensures |row| == L.kPadded
  {
    PixelRow(L, src, h, w, RowNo(p, dstW), ColNo(p, dstW))
  }

  /** The sixteen packed rows of the pixel block at pix. */
  ghost function PackedRows(L: TLayer, src: Vec, h: nat, w: nat, dstW: nat, pix: nat): (rows: seq<Vec>)
    requires L.kW > 0 && RoomyRow(L) && RoomyMap(src, h, w, L.cIn)
    ensures |rows| == PIX_BLOCK && forall r :: 0 <= r < PIX_BLOCK ==> |rows[r]| == L.kPadded
  {
    var rows := seq(PIX_BLOCK, r requires 0 <= r < PIX_BLOCK => PackedRow(L, src, h, w, dstW, pix + r));
    assert forall r :: 0 <= r < PIX_BLOCK ==> rows[r] == PackedRow(L, src, h, w, dstW, pix + r);
    rows
  }

  /** Row r of pack_conv_block, after the rows before it. */
  method PackNextRow(L: TLayer, src: Vec, h: nat, w: nat, dstW: nat, p: nat, r: nat, buf: array<int8>,
                     ghost rows: seq<Vec>)
    requires L.kW > 0 && L.kPadded % 8 == 0 && RoomyRow(L) && RoomyMap(src, h, w, L.cIn) && dstW > 0
    requires r * L.kPadded >= 0 && r * L.kPadded + L.kPadded <= buf.Length
    requires r < |rows| && rows[r] == PackedRow(L, src, h, w, dstW, p) && Holds(buf[..], L.kPadded, rows, r)
    modifies buf
    ensures Holds(buf[..], L.kPadded, rows, r + 1)
  {
    var at := r * L.kPadded;
    HoldsExtend(buf[..], L.kPadded, rows, r);
    PackRow(L, src, h, w, p / dstW, p % dstW, buf, at);
  }

  /** pack_conv_block. */
  method PackConvBlock(L: TLayer, src: Vec, h: nat, w: nat, dstW: nat, pix: nat, buf: array<int8>)
    requires L.kW > 0 && L.kPadded % 8 == 0 && RoomyRow(L) && RoomyMap(src, h, w, L.cIn) && dstW > 0
    requires PIX_BLOCK * L.kPadded <= buf.Length
    modifies buf
    ensures Holds(buf[..], L.kPadded, PackedRows(L, src, h, w, dstW, pix), PIX_BLOCK)
  {
    ghost var rows := PackedRows(L, src, h, w, dstW, pix);
    for r := 0 to PIX_BLOCK
      invariant Holds(buf[..], L.kPadded, rows, r)
    {
      BlockEnd(r, PIX_BLOCK, L.kPadded);
      PackNextRow(L, src, h, w, dstW, pix + r, r, buf, rows);
    }
  }

  /** What the engine makes of the packed rows, pixel by pixel. */
  ghost function EngineImage(L: TLayer, src: Vec, h: nat, w: nat, dstW: nat, count: nat): (out: seq<Vec>)
    requires L.Valid() && L.kW > 0 && RoomyRow(L) && RoomyMap(src, h, w, L.cIn)
    ensures |out| == count && forall p :: 0 <= p < count ==> |out[p]| == OC_BLOCK * L.ocBlocks
  {
    seq(count, p requires 0 <= p < count => RowOut(L, PackedRow(L, src, h, w, dstW, p)))
  }

  /** The convolution of the map, pixel by pixel. */
  ghost function ConvImage(L: TLayer, m: seq<Vec>, h: nat, w: nat, dstW: nat, count: nat): (out: seq<Vec>)
    requires L.Valid() && L.kW > 0 && IsMap(m, h, w, L.cIn) && L.kH * L.kW * L.cIn == L.kInner
    ensures |out| == count && forall p :: 0 <= p < count ==> |out[p]| == OC_BLOCK * L.ocBlocks
  {
    seq(count, p requires 0 <= p < count => OutVec(L, TapsOf(L, m, h, w, dstW, p)))
  }

  /** The engine's pixel p is the convolution when the channels come in whole chunks, and when
      the padded weights are zero and no copy spills into an absent tap. */
  lemma EnginePixel(L: TLayer, src: Vec, m: seq<Vec>, h: nat, w: nat, dstW: nat, count: nat, p: nat)
    requires L.Valid() && L.kW > 0 && L.kH * L.kW * L.cIn == L.kInner && RoomyRow(L)
    requires Readable(src, m, h, w, L.cIn) && p < count
    requires L.cIn % 8 == 0 || (PadIsZero(L) && NoSpill(Froms(L, h, w, RowNo(p, dstW), ColNo(p, dstW)), L.cIn))
    ensures EngineImage(L, src, h, w, dstW, count)[p] == ConvImage(L, m, h, w, dstW, count)[p]
  {
    var oy, ox := RowNo(p, dstW), ColNo(p, dstW);
    var froms, taps := Froms(L, h, w, oy, ox), Taps(L, m, h, w, oy, ox);
    FromsAreTaps(L, src, m, h, w, oy, ox);
    if L.cIn % 8 == 0 {
      WholeChunkRow(src, froms, L.cIn, L.kPadded, taps);
      PackedRowGivesPixel(L, taps);
    } else {
      NoSpillIsExact(L, src, froms, taps);
    }
  }

  /** The first n pixels take the channels of out, the bytes beside and after them stay. */
  ghost function Overlay(out: seq<Vec>, orig: seq<Vec>, full: nat, n: nat): (r: seq<Vec>)
    requires |out| == |orig| && forall p :: 0 <= p < |out| ==> |out[p]| == full <= |orig[p]|
    ensures |r| == |out|
  {
    seq(|out|, p requires 0 <= p < |out| => if p < n then out[p] + orig[p][full..] else orig[p])
  }

  lemma StartPainted(s: Vec, L: TLayer, c: nat, out: seq<Vec>, orig: seq<Vec>)
    requires Mixable(out, orig, OC_BLOCK * L.ocBlocks, c) && Holds(s, c, orig, |orig|)
    ensures Painted(s, L, c, out, orig, 0, 0)
  {
    var full := OC_BLOCK * L.ocBlocks;
    var mix := MixMap(out, orig, full, c, Progress(|out|, 0, 0, 0, full));
    forall p | 0 <= p < |out| ensures mix[p] == orig[p] {
      assert mix[p] == Mixed(out[p], orig[p], 0);
    }
    assert mix == orig;
  }

  lemma EndPainted(s: Vec, L: TLayer, c: nat, out: seq<Vec>, orig: seq<Vec>, pix: nat)
    requires Painted(s, L, c, out, orig, pix, 0)
    ensures Holds(s, c, Overlay(out, orig, OC_BLOCK * L.ocBlocks, pix), |out|)
  {
    var full := OC_BLOCK * L.ocBlocks;
    var mix := MixMap(out, orig, full, c, Progress(|out|, pix, 0, 0, full));
    forall p | 0 <= p < |out| ensures mix[p] == Overlay(out, orig, full, pix)[p] {
      assert mix[p] == Mixed(out[p], orig[p], if p < pix then full else 0);
    }
    assert mix == Overlay(out, orig, full, pix);
  }

  /** The end of the pixel loop: whole blocks of sixteen that cover n pixels. */
  function Covered(n: nat): (r: nat)
    ensures n <= r < n + PIX_BLOCK && r % PIX_BLOCK == 0
  {
    (n + PIX_BLOCK - 1) / PIX_BLOCK * PIX_BLOCK
  }

  lemma NextBlock(n: nat, pix: nat)
    requires pix % PIX_BLOCK == 0 && pix <= Covered(n)
    ensures pix < n ==> (pix + PIX_BLOCK) % PIX_BLOCK == 0 && pix + PIX_BLOCK <= Covered(n)
    ensures pix >= n ==> pix == Covered(n)
  {
  }

  /** One pixel block of the packed layer. */
  method ConvBlock(L: TLayer, src: Vec, h: nat, w: nat, dst: array<int8>, dstW: nat, dstC: nat, pix: nat,
                   scratch: array<int8>, acc: array2<int>, ghost out: seq<Vec>, ghost orig: seq<Vec>)
    requires L.Valid() && L.kW > 0 && L.kPadded % 8 == 0 && RoomyRow(L) && RoomyMap(src, h, w, L.cIn)
    requires PIX_BLOCK * L.kPadded <= scratch.Length && dstW > 0 && dst != scratch
    requires acc.Length0 == PIX_BLOCK && acc.Length1 == OC_BLOCK
    requires out == EngineImage(L, src, h, w, dstW, |orig|) && pix + PIX_BLOCK <= |orig|
    requires Painted(dst[..], L, dstC, out, orig, pix, 0)
    modifies dst, scratch, acc
    ensures Painted(dst[..], L, dstC, out, orig, pix + PIX_BLOCK, 0)
  {
    ghost var rows := PackedRows(L, src, h, w, dstW, pix);
    PackConvBlock(L, src, h, w, dstW, pix, scratch);
    forall r | 0 <= r < PIX_BLOCK ensures out[pix + r] == RowOut(L, rows[r]) {
      assert rows[r] == PackedRow(L, src, h, w, dstW, pix + r);
    }
    RunRowBlock(L, scratch[..], L.kPadded, dst, dstC, pix, acc, rows, out, orig);
  }

  /** The pixel loop of the packed layer. */
  method ConvBlocks(L: TLayer, src: Vec, h: nat, w: nat, dst: array<int8>, dstW: nat, dstC: nat, nrPix: nat,
                    scratch: array<int8>, acc: array2<int>, ghost orig: seq<Vec>)
    requires L.Valid() && L.kW > 0 && L.kPadded % 8 == 0 && RoomyRow(L) && RoomyMap(src, h, w, L.cIn)
    requires PIX_BLOCK * L.kPadded <= scratch.Length && (nrPix > 0 ==> dstW > 0) && dst != scratch
    requires acc.Length0 == PIX_BLOCK && acc.Length1 == OC_BLOCK && OC_BLOCK * L.ocBlocks <= dstC
    requires Covered(nrPix) <= |orig| && Holds(dst[..], dstC, orig, |orig|)
    modifies dst, scratch, acc
    ensures Holds(dst[..], dstC,
                  Overlay(EngineImage(L, src, h, w, dstW, |orig|), orig, OC_BLOCK * L.ocBlocks, Covered(nrPix)), |orig|)
  {
    ghost var out := EngineImage(L, src, h, w, dstW, |orig|);
    StartPainted(dst[..], L, dstC, out, orig);
    var pix := 0;
    while pix < nrPix
      invariant pix <= Covered(nrPix) && pix % PIX_BLOCK == 0
      invariant Painted(dst[..], L, dstC, out, orig, pix, 0)
    {
      NextBlock(nrPix, pix);
      ConvBlock(L, src, h, w, dst, dstW, dstC, pix, scratch, acc, out, orig);
      pix := pix + PIX_BLOCK;
    }
    NextBlock(nrPix, pix);
    EndPainted(dst[..], L, dstC, out, orig, pix);
  }

  /** What the destination of a driver holds: out on the covered pixels, the old bytes elsewhere. */
  ghost predicate Written(L: TLayer, dst: Vec, dstC: nat, out: seq<Vec>, orig: seq<Vec>, nrPix: nat) {
    && |out| == |orig| && (forall p :: 0 <= p < |out| ==> |out[p]| == OC_BLOCK * L.ocBlocks <= |orig[p]|)
    && Holds(dst, dstC, Overlay(out, orig, OC_BLOCK * L.ocBlocks, Covered(nrPix)), |orig|)
  }

  /** Byte by byte: the layer's channels of the covered pixels, and the old bytes beside and
      after them. */
  lemma WrittenBytes(L: TLayer, dst: Vec, dstC: nat, out: seq<Vec>, orig: seq<Vec>, nrPix: nat, p: nat, c: nat)
    requires Written(L, dst, dstC, out, orig, nrPix) && p < |orig| && |orig[p]| == dstC && c < dstC
    ensures 0 <= p * dstC && p * dstC + c < |dst|
    ensures dst[p * dstC + c] == if p < Covered(nrPix) && c < OC_BLOCK * L.ocBlocks then out[p][c] else orig[p][c]
  {
    var at := p * dstC;
    MulBounds(p, dstC);
    var full := OC_BLOCK * L.ocBlocks;
    var v := Overlay(out, orig, full, Covered(nrPix))[p];
    HoldsAt(dst, dstC, Overlay(out, orig, full, Covered(nrPix)), |orig|, p);
    assert dst[at..at + dstC][c] == dst[at + c];
    assert v[c] == if p < Covered(nrPix) && c < full then out[p][c] else orig[p][c];
  }

  /** yolov5n_run_convk_packed_layer: the destination receives what the engine makes of the
      packed rows, or nothing when the layer does not fit the source or the scratch buffer is
      too small. With channels in whole chunks that is the direct convolution; with others it is
      so at every pixel where no copy spills, if the padded weights are zero. */
  method RunConvK(L: TLayer, src: array<int8>, h: nat, w: nat, srcC: nat, dst: array<int8>, dstH: nat, dstW: nat,
                  dstC: nat, scratch: array<int8>, patchBytes: nat, acc: array2<int>,
                  ghost m: seq<Vec>, ghost orig: seq<Vec>)
    returns (status: int)
    requires L.Valid() && L.kW > 0 && L.kPadded % 8 == 0 && (ConvFits(L, srcC, patchBytes) ==> RoomyRow(L))
    requires src != dst && src != scratch && dst != scratch && patchBytes <= scratch.Length
    requires acc.Length0 == PIX_BLOCK && acc.Length1 == OC_BLOCK && OC_BLOCK * L.ocBlocks <= dstC
    requires Readable(src[..], m, h, w, srcC)
    requires Covered(dstH * dstW) <= |orig| && Holds(dst[..], dstC, orig, |orig|)
    modifies dst, scratch, acc
    ensures status == if ConvFits(L, srcC, patchBytes) then 0 else -1
    ensures status == -1 ==> dst[..] == old(dst[..])
    ensures status == 0 ==>
              Written(L, dst[..], dstC, EngineImage(L, src[..], h, w, dstW, |orig|), orig, dstH * dstW)
    ensures status == 0 && srcC % 8 == 0 ==>
              Written(L, dst[..], dstC, ConvImage(L, m, h, w, dstW, |orig|), orig, dstH * dstW)
    ensures status == 0 && PadIsZero(L) ==>
              forall p :: 0 <= p < |orig| && NoSpill(Froms(L, h, w, RowNo(p, dstW), ColNo(p, dstW)), srcC) ==>
                EngineImage(L, src[..], h, w, dstW, |orig|)[p] == ConvImage(L, m, h, w, dstW, |orig|)[p]
  {
    var nrPix := dstH * dstW;
    if L.cIn != srcC || L.kInner != L.kH * L.kW * srcC || patchBytes < PIX_BLOCK * L.kPadded {
      return -1;
    }
    ConvBlocks(L, src[..], h, w, dst, dstW, dstC, nrPix, scratch, acc, orig);
    ImageIsConv(L, src[..], m, h, w, dstW, |orig|);
    return 0;
  }

  lemma ImageIsConv(L: TLayer, src: Vec, m: seq<Vec>, h: nat, w: nat, dstW: nat, count: nat)
    requires L.Valid() && L.kW > 0 && L.kH * L.kW * L.cIn == L.kInner && RoomyRow(L)
    requires Readable(src, m, h, w, L.cIn)
    ensures L.cIn % 8 == 0 ==> EngineImage(L, src, h, w, dstW, count) == ConvImage(L, m, h, w, dstW, count)
    ensures PadIsZero(L) ==>
              forall p :: 0 <= p < count && NoSpill(Froms(L, h, w, RowNo(p, dstW), ColNo(p, dstW)), L.cIn) ==>
                EngineImage(L, src, h, w, dstW, count)[p] == ConvImage(L, m, h, w, dstW, count)[p]
  {
    forall p | 0 <= p < count
      && (L.cIn % 8 == 0 || (PadIsZero(L) && NoSpill(Froms(L, h, w, RowNo(p, dstW), ColNo(p, dstW)), L.cIn)))
      ensures EngineImage(L, src, h, w, dstW, count)[p] == ConvImage(L, m, h, w, dstW, count)[p]
    {
      EnginePixel(L, src, m, h, w, dstW, count, p);
    }
  }

  /** The layer was made for these channels and its packed rows fit the scratch buffer. */
  predicate ConvFits(L: TLayer, srcC: nat, patchBytes: nat) {
    L.cIn == srcC && L.kInner == L.kH * L.kW * srcC && PIX_BLOCK * L.kPadded <= patchBytes
  }

  // ---- The 1x1 layer ----

  /** The convolution of a 1x1 layer: every pixel is its own only tap. */
  ghost function PointImage(L: TLayer, m: seq<Vec>, count: nat): (out: seq<Vec>)
    requires L.Valid() && L.kInner == L.cIn && count <= |m| && forall p :: 0 <= p < |m| ==> |m[p]| == L.cIn
    ensures |out| == count && forall p :: 0 <= p < count ==> |out[p]| == OC_BLOCK * L.ocBlocks
  {
    seq(count, p requires 0 <= p < count => OutVec(L, [Some(m[p])]))
  }

  /** What the product reads for pixel p: its bytes in the source, or its packed row. */
  ghost function PointRow(L: TLayer, src: Vec, p: nat): (row: Vec)
    requires PointReady(L, src, p + 1)
    ensures |row| == L.kPadded
  {
    BlockEnd(p, p + 1, L.cIn);
    if L.kPadded == L.cIn then src[p * L.cIn..p * L.cIn + L.cIn]
    else
      Round8Least(L.cIn, L.kPadded);
      Poured(src, [Some(p * L.cIn)], L.cIn, 1, L.kPadded)
  }

  /** The first n pixels can be read; when they are packed, in whole chunks. */
  predicate PointReady(L: TLayer, src: Vec, n: nat) {
    && L.cIn <= L.kPadded && 0 <= n * L.cIn <= |src|
    && (L.kPadded != L.cIn ==> L.kPadded % 8 == 0 && n * L.cIn + Spare(L.cIn) <= |src|)
  }

  lemma Round8Least(n: nat, k: nat)
    requires k % 8 == 0 && n <= k
    ensures Round8(n) <= k
  {
  }

  lemma ReadyBefore(L: TLayer, src: Vec, n: nat, p: nat)
    requires PointReady(L, src, n) && p < n
    ensures PointReady(L, src, p + 1) && 0 <= p * L.cIn && p * L.cIn + L.cIn == (p + 1) * L.cIn <= n * L.cIn
  {
    BlockEnd(p, n, L.cIn);
    NextProduct(p, L.cIn);
  }

  /** What the engine makes of the pixels. */
  ghost function PointEngine(L: TLayer, src: Vec, count: nat): (out: seq<Vec>)
    requires L.Valid() && PointReady(L, src, count)
    ensures |out| == count && forall p :: 0 <= p < count ==> |out[p]| == OC_BLOCK * L.ocBlocks
  {
    seq(count, p requires 0 <= p < count =>
      ReadyBefore(L, src, count, p);
      RowOut(L, PointRow(L, src, p)))
  }

  /** It is the convolution when nothing is packed, when the channels come in whole chunks, and
      when the padded weights are zero. */
  lemma PointRowGives(L: TLayer, src: Vec, p: nat, v: Vec)
    requires L.Valid() && L.kInner == L.cIn && PointReady(L, src, p + 1)
    requires 0 <= p * L.cIn && p * L.cIn + L.cIn <= |src| && v == src[p * L.cIn..p * L.cIn + L.cIn]
    requires L.kPadded == L.cIn || L.cIn % 8 == 0 || PadIsZero(L)
    ensures RowOut(L, PointRow(L, src, p)) == OutVec(L, [Some(v)])
  {
    var taps, froms := [Some(v)], [Some(p * L.cIn)];
    if L.kPadded == L.cIn {
      assert Flat(taps, L.cIn, 1) == Flat(taps, L.cIn, 0) + v == v;
      assert RowOfTaps(taps, L.cIn, L.kPadded) == v;
      PackedRowGivesPixel(L, taps);
    } else {
      Round8Least(L.cIn, L.kPadded);
      OneTapFits(L, src, p);
      if L.cIn % 8 == 0 {
        WholeChunkRow(src, froms, L.cIn, L.kPadded, taps);
        PackedRowGivesPixel(L, taps);
      } else {
        NoSpillIsExact(L, src, froms, taps);
      }
    }
  }

  lemma OneTapFits(L: TLayer, src: Vec, p: nat)
    requires PointReady(L, src, p + 1) && L.kPadded != L.cIn
    ensures 0 <= p * L.cIn && p * L.cIn + Round8(L.cIn) <= |src| && Round8(L.cIn) <= L.kPadded
    ensures Fits(src, [Some(p * L.cIn)], L.cIn, L.kPadded)
  {
    Round8Least(L.cIn, L.kPadded);
    ReadyBefore(L, src, p + 1, p);
  }

  ghost function PointRows(L: TLayer, src: Vec, pix: nat): (rows: seq<Vec>)
    requires PointReady(L, src, pix + PIX_BLOCK)
    ensures |rows| == PIX_BLOCK && forall r :: 0 <= r < PIX_BLOCK ==> |rows[r]| == L.kPadded
  {
    var rows := seq(PIX_BLOCK, r requires 0 <= r < PIX_BLOCK =>
      ReadyBefore(L, src, pix + PIX_BLOCK, pix + r);
      PointRow(L, src, pix + r));
    assert forall r :: 0 <= r < PIX_BLOCK ==> |rows[r]| == L.kPadded by {
      forall r | 0 <= r < PIX_BLOCK ensures |rows[r]| == L.kPadded {
        ReadyBefore(L, src, pix + PIX_BLOCK, pix + r);
        assert rows[r] == PointRow(L, src, pix + r);
      }
    }
    rows
  }

  /** Row r of pack_1x1_block. */
  method PackPoint(L: TLayer, src: Vec, p: nat, from: nat, r: nat, at: nat, buf: array<int8>, ghost rows: seq<Vec>)
    requires L.kPadded != L.cIn && PointReady(L, src, p + 1) && from == p * L.cIn
    requires at == r * L.kPadded && at + L.kPadded <= buf.Length
    requires r < |rows| && rows[r] == PointRow(L, src, p) && Holds(buf[..], L.kPadded, rows, r)
    modifies buf
    ensures Holds(buf[..], L.kPadded, rows, r + 1)
  {
    HoldsExtend(buf[..], L.kPadded, rows, r);
    OneTapPoured(L, src, p, from);
    FillPoint(src, from, L.cIn, L.kPadded, at, buf);
  }

  /** A row of zeros with one copy at its front. */
  method FillPoint(src: Vec, from: nat, c: nat, width: nat, at: nat, buf: array<int8>)
    requires width % 8 == 0 && Round8(c) <= width && from + Round8(c) <= |src| && at + width <= buf.Length
    modifies buf
    ensures buf[..] == Splice(old(buf[..]), at, Splice(Zeros(width), 0, src[from..from + Round8(c)]))
  {
    Round8Exact(width);
    OverZeros(buf[..], at, width, src[from..from + Round8(c)]);
    VecZeroBytes(buf, at, width);
    VecCopyBytes(buf, at, src, from, c);
  }

  lemma OverZeros(s: Vec, at: nat, width: nat, v: Vec)
    requires at + width <= |s| && |v| <= width
    ensures Splice(Splice(s, at, Zeros(width)), at, v) == Splice(s, at, Splice(Zeros(width), 0, v))
  {
    SpliceInside(s, at, Zeros(width), 0, v);
  }

  lemma OneTapPoured(L: TLayer, src: Vec, p: nat, from: nat)
    requires L.kPadded != L.cIn && PointReady(L, src, p + 1) && from == p * L.cIn
    ensures from + Round8(L.cIn) <= |src| && Round8(L.cIn) <= L.kPadded
    ensures PointRow(L, src, p) == Splice(Zeros(L.kPadded), 0, src[from..from + Round8(L.cIn)])
    ensures L.kPadded % 8 == 0
  {
    OneTapFits(L, src, p);
    PouredNext(src, [Some(from)], L.cIn, 0, L.kPadded, 0);
  }

  /** pack_1x1_block. */
  method Pack1x1Block(L: TLayer, src: Vec, pix: nat, buf: array<int8>)
    requires L.kPadded != L.cIn && PointReady(L, src, pix + PIX_BLOCK)
    requires PIX_BLOCK * L.kPadded <= buf.Length
    modifies buf
    ensures Holds(buf[..], L.kPadded, PointRows(L, src, pix), PIX_BLOCK)
  {
    ghost var rows := PointRows(L, src, pix);
    for r := 0 to PIX_BLOCK
      invariant Holds(buf[..], L.kPadded, rows, r)
    {
      BlockEnd(r, PIX_BLOCK, L.kPadded);
      ReadyBefore(L, src, pix + PIX_BLOCK, pix + r);
      PackPoint(L, src, pix + r, (pix + r) * L.cIn, r, r * L.kPadded, buf, rows);
    }
  }

  /** Without padding the source itself is the packed block. */
  lemma SourceIsPacked(L: TLayer, src: Vec, pix: nat, from: int)
    requires L.kPadded == L.cIn && PointReady(L, src, pix + PIX_BLOCK) && from == pix * L.cIn
    ensures 0 <= from <= |src| && Holds(src[from..], L.kPadded, PointRows(L, src, pix), PIX_BLOCK)
  {
    var c, rows := L.cIn, PointRows(L, src, pix);
    ReadyBefore(L, src, pix + PIX_BLOCK, pix);
    forall r | 0 <= r < PIX_BLOCK
      ensures 0 <= r * c && r * c + c <= |src[from..]| && Block(src[from..], c, r) == rows[r]
    {
      SourceRow(L, src, pix, from, r, r * c);
    }
    SourceRow(L, src, pix, from, PIX_BLOCK - 1, (PIX_BLOCK - 1) * c);
  }

  lemma SourceRow(L: TLayer, src: Vec, pix: nat, from: nat, r: nat, at: int)
    requires L.kPadded == L.cIn && PointReady(L, src, pix + PIX_BLOCK) && r < PIX_BLOCK
    requires from == pix * L.cIn <= |src| && at == r * L.cIn
    ensures 0 <= at && from + at + L.cIn <= |src| && src[from..][at..at + L.cIn] == PointRows(L, src, pix)[r]
  {
    var p, o := pix + r, from + at;
    MulBounds(r, L.cIn);
    Distributes(pix, r, L.cIn);
    ReadyBefore(L, src, pix + PIX_BLOCK, p);
    PlainRow(L, src, p, o);
    PointRowsAt(L, src, pix, r);
    assert src[from..][at..at + L.cIn] == src[o..o + L.cIn];
  }

  lemma Distributes(a: int, b: int, n: int)
    ensures (a + b) * n == a * n + b * n
  {
  }

  lemma PlainRow(L: TLayer, src: Vec, p: nat, o: nat)
    requires L.kPadded == L.cIn && PointReady(L, src, p + 1) && o == p * L.cIn
    ensures o + L.cIn <= |src| && PointRow(L, src, p) == src[o..o + L.cIn]
  {
    BlockEnd(p, p + 1, L.cIn);
  }

  lemma PointRowsAt(L: TLayer, src: Vec, pix: nat, r: nat)
    requires PointReady(L, src, pix + PIX_BLOCK) && r < PIX_BLOCK
    ensures PointReady(L, src, pix + r + 1) && PointRows(L, src, pix)[r] == PointRow(L, src, pix + r)
  {
    ReadyBefore(L, src, pix + PIX_BLOCK, pix + r);
  }

  /** One pixel block of the 1x1 layer. */
  method PointBlock(L: TLayer, src: Vec, dst: array<int8>, dstC: nat, pix: nat, scratch: array<int8>, acc: array2<int>,
                    ghost out: seq<Vec>, ghost orig: seq<Vec>)
    requires L.Valid() && PointReady(L, src, |out|) && dst != scratch
    requires L.kPadded > L.cIn ==> PIX_BLOCK * L.kPadded <= scratch.Length
    requires acc.Length0 == PIX_BLOCK && acc.Length1 == OC_BLOCK
    requires pix + PIX_BLOCK <= |out| && out == PointEngine(L, src, |out|)
    requires Painted(dst[..], L, dstC, out, orig, pix, 0)
    modifies dst, scratch, acc
    ensures Painted(dst[..], L, dstC, out, orig, pix + PIX_BLOCK, 0)
  {
    ReadyBefore(L, src, |out|, pix + PIX_BLOCK - 1);
    ghost var rows := PointRows(L, src, pix);
    forall r | 0 <= r < PIX_BLOCK ensures out[pix + r] == RowOut(L, rows[r]) {
      ReadyBefore(L, src, |out|, pix + r);
      assert rows[r] == PointRow(L, src, pix + r);
    }
    if L.kPadded != L.cIn {
      Pack1x1Block(L, src, pix, scratch);
      RunRowBlock(L, scratch[..], L.kPadded, dst, dstC, pix, acc, rows, out, orig);
    } else {
      SourceIsPacked(L, src, pix, pix * L.cIn);
      RunRowBlock(L, src[pix * L.cIn..], L.cIn, dst, dstC, pix, acc, rows, out, orig);
    }
  }

  /** The pixel loop of the 1x1 layer. */
  method PointBlocks(L: TLayer, src: Vec, nrPix: nat, dst: array<int8>, dstC: nat, scratch: array<int8>,
                     acc: array2<int>, ghost orig: seq<Vec>)
    requires L.Valid() && PointReady(L, src, |orig|) && dst != scratch
    requires L.kPadded > L.cIn ==> PIX_BLOCK * L.kPadded <= scratch.Length
    requires acc.Length0 == PIX_BLOCK && acc.Length1 == OC_BLOCK && OC_BLOCK * L.ocBlocks <= dstC
    requires Covered(nrPix) <= |orig| && Holds(dst[..], dstC, orig, |orig|)
    modifies dst, scratch, acc
    ensures Holds(dst[..], dstC, Overlay(PointEngine(L, src, |orig|), orig, OC_BLOCK * L.ocBlocks, Covered(nrPix)),
                  |orig|)
  {
    ghost var out := PointEngine(L, src, |orig|);
    StartPainted(dst[..], L, dstC, out, orig);
    var pix := 0;
    while pix < nrPix
      invariant pix <= Covered(nrPix) && pix % PIX_BLOCK == 0
      invariant Painted(dst[..], L, dstC, out, orig, pix, 0)
    {
      NextBlock(nrPix, pix);
      PointBlock(L, src, dst, dstC, pix, scratch, acc, out, orig);
      pix := pix + PIX_BLOCK;
    }
    NextBlock(nrPix, pix);
    EndPainted(dst[..], L, dstC, out, orig, pix);
  }

  /** yolov5n_run_conv1x1_layer. It does not look at the strides and the padding. The result is
      the convolution unless pixels of broken chunks are packed next to weights that are not
      zero. */
  method RunConv1x1(L: TLayer, src: array<int8>, nrPix: nat, srcC: nat, dst: array<int8>, dstC: nat,
                    scratch: array<int8>, packedBytes: nat, acc: array2<int>, ghost m: seq<Vec>, ghost orig: seq<Vec>)
    returns (status: int)
    requires L.Valid() && (PointFits(L, srcC, packedBytes) ==> PointReady(L, src[..], |orig|))
    requires src != dst && src != scratch && dst != scratch && packedBytes <= scratch.Length
    requires acc.Length0 == PIX_BLOCK && acc.Length1 == OC_BLOCK && OC_BLOCK * L.ocBlocks <= dstC
    requires Holds(src[..], srcC, m, |m|)
    requires Covered(nrPix) <= |orig| <= |m| && Holds(dst[..], dstC, orig, |orig|)
    modifies dst, scratch, acc
    ensures status == if PointFits(L, srcC, packedBytes) then 0 else -1
    ensures status == -1 ==> dst[..] == old(dst[..])
    ensures status == 0 ==> Written(L, dst[..], dstC, PointEngine(L, src[..], |orig|), orig, nrPix)
    ensures status == 0 && (L.kPadded == srcC || srcC % 8 == 0 || PadIsZero(L)) ==>
              Written(L, dst[..], dstC, PointImage(L, m, |orig|), orig, nrPix)
  {
    if L.kH != 1 || L.kW != 1 || L.cIn != srcC || L.kInner != srcC {
      return -1;
    }
    if L.kPadded > srcC && packedBytes < PIX_BLOCK * L.kPadded {
      return -1;
    }
    PointBlocks(L, src[..], nrPix, dst, dstC, scratch, acc, orig);
    PointsAreConv(L, src[..], m, |orig|);
    return 0;
  }

  lemma PointsAreConv(L: TLayer, src: Vec, m: seq<Vec>, count: nat)
    requires L.Valid() && L.kInner == L.cIn && PointReady(L, src, count) && count <= |m| && Holds(src, L.cIn, m, |m|)
    ensures L.kPadded == L.cIn || L.cIn % 8 == 0 || PadIsZero(L) ==>
              PointEngine(L, src, count) == PointImage(L, m, count)
  {
    if L.kPadded == L.cIn || L.cIn % 8 == 0 || PadIsZero(L) {
      forall p | 0 <= p < count ensures PointEngine(L, src, count)[p] == PointImage(L, m, count)[p] {
        ReadyBefore(L, src, count, p);
        HoldsAt(src, L.cIn, m, |m|, p);
        PointRowGives(L, src, p, m[p]);
      }
    }
  }

  predicate PointFits(L: TLayer, srcC: nat, packedBytes: nat) {
    && L.kH == 1 && L.kW == 1 && L.cIn == srcC && L.kInner == srcC
    && (L.kPadded > srcC ==> PIX_BLOCK * L.kPadded <= packedBytes)
  }

  /** With unit strides and no padding the two drivers compute the same image. */
  lemma PointIsConv(L: TLayer, m: seq<Vec>, h: nat, w: nat)
    requires L.Valid() && L.kH == 1 && L.kW == 1 && L.kInner == L.cIn && IsMap(m, h, w, L.cIn)
    requires L.strideH == 1 && L.strideW == 1 && L.padH == 0 && L.padW == 0
    ensures L.kH * L.kW * L.cIn == L.kInner && PointImage(L, m, h * w) == ConvImage(L, m, h, w, w, h * w)
  {
    forall p | 0 <= p < h * w ensures PointImage(L, m, h * w)[p] == ConvImage(L, m, h, w, w, h * w)[p] {
      PointSplit(p, h, w);
      assert TapsOf(L, m, h, w, w, p) == [TapAt(L, m, h, w, p / w, p % w, 0, 0)];
    }
  }

  // ---- From the generator's input to the output pixel ----

  /** With weights laid out by the generator the engine applies exactly the caller's filter:
      entry k of channel oc is weights[oc * wStride + k]. */
  lemma FilterIsWeights(L: TLayer, weights: seq<int8>, kOut: nat, wStride: nat, oc: nat)
    requires L.Valid() && kOut == OC_BLOCK * L.ocBlocks && kOut * wStride <= |weights| && L.kPadded <= wStride
    requires Holds(L.tl8, L.rowStride, Rows(weights, kOut, wStride, OC_BLOCK, L.rowStride, L.kPadded),
               kOut / OC_BLOCK * L.kPadded)
    requires oc < kOut
    ensures 0 <= oc * wStride && oc * wStride + L.kInner <= |weights|
    ensures FilterOf(L, oc) == weights[oc * wStride..oc * wStride + L.kInner]
  {
    BlockEnd(oc, kOut, wStride);
    forall k | 0 <= k < L.kInner ensures FilterOf(L, oc)[k] == weights[oc * wStride + k] {
      RepackedWeights(L, weights, kOut, wStride, oc, k);
    }
  }

  /** Weights that are zero past the filter stay so in the layout. */
  lemma GeneratedPad(L: TLayer, weights: seq<int8>, kOut: nat, wStride: nat)
    requires L.Valid() && kOut == OC_BLOCK * L.ocBlocks && kOut * wStride <= |weights| && L.kPadded <= wStride
    requires Holds(L.tl8, L.rowStride, Rows(weights, kOut, wStride, OC_BLOCK, L.rowStride, L.kPadded),
               kOut / OC_BLOCK * L.kPadded)
    requires forall oc, k :: 0 <= oc < kOut && L.kInner <= k < L.kPadded ==> WeightOf(weights, wStride, oc, k) == 0
    ensures PadIsZero(L)
  {
    forall oc, k | 0 <= oc < OC_BLOCK * L.ocBlocks && L.kInner <= k < L.kPadded ensures Weight(L, oc, k) == 0 {
      RepackedWeights(L, weights, kOut, wStride, oc, k);
      assert WeightOf(weights, wStride, oc, k) == 0;
    }
  }

  function WeightOf(weights: seq<int8>, wStride: nat, oc: int, k: int): int8 {
    if 0 <= oc * wStride + k < |weights| then weights[oc * wStride + k] else 0
  }

  /** The layer record of the reference convolution over the original weights. */
  function Reference(L: TLayer, weights: seq<int8>, wStride: nat): Layer {
    Layer(OC_BLOCK * L.ocBlocks, L.cIn, L.kH, L.kW, L.padH, L.padW, wStride, weights, L.requant)
  }

  /** From generator to output: with generated weights the engine's pixel (oy, ox) is the
      reference convolution, over the weights the generator was given, at the position the
      strides lead to. */
  lemma EngineIsReference(L: TLayer, weights: seq<int8>, wStride: nat, m: seq<Vec>, h: nat, w: nat, oy: nat, ox: nat)
    requires L.Valid() && L.kW > 0 && L.kH * L.kW * L.cIn == L.kInner
    requires OC_BLOCK * L.ocBlocks * wStride <= |weights| && L.kPadded <= wStride && IsMap(m, h, w, L.cIn)
    requires var kOut := OC_BLOCK * L.ocBlocks;
             Holds(L.tl8, L.rowStride, Rows(weights, kOut, wStride, OC_BLOCK, L.rowStride, L.kPadded),
                   kOut / OC_BLOCK * L.kPadded)
    ensures Reference(L, weights, wStride).Valid()
    ensures OutVec(L, Taps(L, m, h, w, oy, ox))
            == ConvAt(Reference(L, weights, wStride), m, h, w, oy * L.strideH, ox * L.strideW)
  {
    var ref, kOut := Reference(L, weights, wStride), OC_BLOCK * L.ocBlocks;
    var y, x := oy * L.strideH, ox * L.strideW;
    var taps, window := Taps(L, m, h, w, oy, ox), Window(ref, m, h, w, y, x);
    WindowFits(ref, m, h, w, y, x);
    assert taps == window;
    forall oc | 0 <= oc < kOut ensures FilterOf(L, oc) == Filter(ref, oc) {
      FilterIsWeights(L, weights, kOut, wStride, oc);
    }
  }
}

// The detect head at one point: the first 3x3 layer is evaluated only at the nine taps the
// second one reads, with a validity flag for taps outside the map.
module DetectHead {
  import opened Buffers
  import opened Conv
  import opened C2f
  import opened C2fDense

  /** Two 3x3 layers and a final 1x1 layer, as verify_scale_layers checks them. */
  datatype Head = Head(first: Layer, second: Layer, last: Layer, inC: nat, midC: nat, outC: nat)
  {
    ghost predicate Valid() {
      first.Is3x3(inC, midC) && second.Is3x3(midC, midC) && last.Is1x1(midC, outC)
    }
  }

  /** The head as three whole-map layers, read at one point. */
  ghost function HeadAt(hd: Head, m: seq<Vec>, h: nat, w: nat, p: nat): (v: Vec)
    requires hd.Valid() && IsMap(m, h, w, hd.inC) && p < h * w
    ensures |v| == hd.outC
  {
    ConvVec(hd.last, [Some(DenseConv(hd.second, DenseConv(hd.first, m, h, w), h, w)[p])])
  }

  // ---- The loops ----

  /** One row of taps of conv3x3_input_at: taps outside the input are skipped. */
  method InputRowAcc(L: Layer, input: Vec, h: nat, w: nat, y: int, x: int, oc: nat, ky: nat, row: nat, acc0: int,
                     ghost m: seq<Vec>)
    returns (acc: int)
    requires L.Valid() && oc < L.kOut && IsMap(m, h, w, L.cIn) && Holds(input, L.cIn, m, h * w)
    requires TapsFit(Window(L, m, h, w, y, x), L.cIn)
    requires ky < L.kH && row == ky * L.kW && row + L.kW <= L.kH * L.kW
    requires acc0 == Acc(Window(L, m, h, w, y, x), Filter(L, oc), L.cIn, row)
    ensures acc == Acc(Window(L, m, h, w, y, x), Filter(L, oc), L.cIn, row + L.kW)
  {
    ghost var taps, f := Window(L, m, h, w, y, x), Filter(L, oc);
    acc := acc0;
    var iy := y + ky - L.padH;
    for kx := 0 to L.kW
      invariant acc == Acc(taps, f, L.cIn, row + kx)
    {
      var t := row + kx;
      TapReady(L, taps, oc, ky, kx, t);
      var ix := x + kx - L.padW;
      assert taps[t] == PixelAt(m, h, w, iy, ix);
      var wBase := oc * L.wStride + t * L.cIn;
      acc := AddInputTap(input, h, w, iy, ix, L.w, wBase, L.cIn, acc, m, f, t * L.cIn);
    }
  }

  /** conv3x3_input_at, one filter. */
  method InputAcc(L: Layer, input: Vec, h: nat, w: nat, y: int, x: int, oc: nat, ghost m: seq<Vec>)
    returns (acc: int)
    requires L.Valid() && oc < L.kOut && IsMap(m, h, w, L.cIn) && Holds(input, L.cIn, m, h * w)
    requires TapsFit(Window(L, m, h, w, y, x), L.cIn)
    ensures acc == Acc(Window(L, m, h, w, y, x), Filter(L, oc), L.cIn, L.kH * L.kW)
  {
    ghost var taps, f := Window(L, m, h, w, y, x), Filter(L, oc);
    acc := 0;
    var row := 0;
    for ky := 0 to L.kH
      invariant row == ky * L.kW <= |taps| && acc == Acc(taps, f, L.cIn, row)
    {
      BlockEnd(ky, L.kH, L.kW);
      acc := InputRowAcc(L, input, h, w, y, x, oc, ky, row, acc, m);
      assert (ky + 1) * L.kW == row + L.kW;
      row := row + L.kW;
    }
  }

  method AddInputTap(input: Vec, h: nat, w: nat, iy: int, ix: int, wt: seq<int8>, wBase: nat, c: nat, acc0: int,
                     ghost m: seq<Vec>, ghost f: seq<int8>, ghost fBase: nat)
    returns (acc: int)
    requires IsMap(m, h, w, c) && Holds(input, c, m, h * w)
    requires wBase + c <= |wt| && fBase + c <= |f| && wt[wBase..wBase + c] == f[fBase..fBase + c]
    requires var tap := PixelAt(m, h, w, iy, ix); tap.Some? ==> c <= |tap.value|
    ensures acc == acc0 + TapDot(PixelAt(m, h, w, iy, ix), f, fBase, c)
  {
    if iy < 0 || iy >= h || ix < 0 || ix >= w {
      return acc0;
    }
    PointInRange(iy, ix, h, w);
    HoldsAt(input, c, m, h * w, iy * w + ix);
    var base := (iy * w + ix) * c;
    acc := AddTap(acc0, input[base..base + c], wt, wBase, c, f, fBase);
  }

  method ConvInputAt(L: Layer, input: Vec, h: nat, w: nat, y: int, x: int, out: array<int8>, off: nat,
                     ghost m: seq<Vec>)
    requires L.Valid() && IsMap(m, h, w, L.cIn) && Holds(input, L.cIn, m, h * w)
    requires off + L.kOut <= out.Length
    modifies out
    ensures out[..] == Splice(old(out[..]), off, ConvAt(L, m, h, w, y, x))
  {
    ghost var r := ConvAt(L, m, h, w, y, x);
    WindowFits(L, m, h, w, y, x);
    for oc := 0 to L.kOut
      invariant out[..] == Splice(old(out[..]), off, r[..oc])
    {
      var acc := InputAcc(L, input, h, w, y, x, oc, m);
      SpliceExtend(old(out[..]), off, r[..oc], r[oc]);
      out[off + oc] := L.requant(oc, acc);
      assert r[..oc] + [r[oc]] == r[..oc + 1];
    }
    assert r[..L.kOut] == r;
  }

  /** The first n taps are those of f; nothing is known of the rest. */
  ghost predicate TapsDone(taps: Vec, valid: seq<bool>, c: nat, f: seq<Option<Vec>>, n: nat) {
    && |f| == |valid| && |valid| * c <= |taps| && n <= |f|
    && forall i :: 0 <= i < n ==> PatchEntry(taps, valid, c, i) == f[i]
  }

  lemma TapsDoneSet(taps: Vec, valid: seq<bool>, c: nat, f: seq<Option<Vec>>, n: nat)
    requires TapsDone(taps, valid, c, f, n) && n < |f| && TapsFit(f, c) && (f[n].Some? ==> |f[n].value| == c)
    ensures n * c + c <= |taps|
    ensures f[n].Some? ==> TapsDone(Splice(taps, n * c, f[n].value), valid[n := true], c, f, n + 1)
    ensures f[n].None? ==> TapsDone(taps, valid[n := false], c, f, n + 1)
  {
    BlockEnd(n, |valid|, c);
    var valid' := valid[n := f[n].Some?];
    var taps' := if f[n].Some? then Splice(taps, n * c, f[n].value) else taps;
    forall i | 0 <= i < n + 1
      ensures PatchEntry(taps', valid', c, i) == f[i]
    {
      BlockEnd(i, |valid|, c);
      if f[n].Some? { BlockOfSplice(taps, c, n, i, f[n].value); }
      if i < n { assert PatchEntry(taps, valid, c, i) == f[i]; }
    }
  }

  /** One tap of fill_first_layer_taps. */
  method FillTap(L: Layer, input: Vec, h: nat, w: nat, iy: int, ix: int, tap: nat,
                 taps: array<int8>, valid: array<bool>, ghost m: seq<Vec>, ghost f: seq<Option<Vec>>)
    requires L.Valid() && IsMap(m, h, w, L.cIn) && Holds(input, L.cIn, m, h * w)
    requires tap < 9 && valid.Length == |f| == 9 && TapsFit(f, L.kOut)
    requires f[tap] == if InImage(h, w, iy, ix) then Some(ConvAt(L, m, h, w, iy, ix)) else None
    requires TapsDone(taps[..], valid[..], L.kOut, f, tap)
    modifies taps, valid
    ensures TapsDone(taps[..], valid[..], L.kOut, f, tap + 1)
  {
    TapsDoneSet(taps[..], valid[..], L.kOut, f, tap);
    ghost var v := valid[..];
    valid[tap] := iy >= 0 && iy < h && ix >= 0 && ix < w;
    assert valid[..] == v[tap := InImage(h, w, iy, ix)];
    if valid[tap] {
      ConvInputAt(L, input, h, w, iy, ix, taps, tap * L.kOut, m);
    }
  }

  lemma DensePatchFits(L: Layer, m: seq<Vec>, h: nat, w: nat, cy: nat, cx: nat, tap: nat)
    requires L.Valid() && IsMap(m, h, w, L.cIn) && tap < 9
    ensures var f := MapPatch(DenseConv(L, m, h, w), h, w, cy, cx);
            var (iy, ix) := (cy + tap / 3 - 1, cx + tap % 3 - 1);
            TapsFit(f, L.kOut) && f[tap] == if InImage(h, w, iy, ix) then Some(ConvAt(L, m, h, w, iy, ix)) else None
  {
    MapPatchFits(DenseConv(L, m, h, w), h, w, L.kOut, cy, cx);
    var iy, ix := cy + tap / 3 - 1, cx + tap % 3 - 1;
    if InImage(h, w, iy, ix) {
      PointInRange(iy, ix, h, w);
      assert DenseConv(L, m, h, w)[iy * w + ix] == ConvAt(L, m, h, w, iy, ix);
    }
  }

  method FillFirstLayerTaps(L: Layer, input: Vec, h: nat, w: nat, point: nat, taps: array<int8>, valid: array<bool>,
                            ghost m: seq<Vec>)
    requires L.Valid() && IsMap(m, h, w, L.cIn) && Holds(input, L.cIn, m, h * w) && point < h * w
    requires valid.Length == 9 && taps.Length == 9 * L.kOut
    modifies taps, valid
    ensures w > 0 && 0 <= point / w && 0 <= point % w
    ensures PatchOf(taps[..], valid[..], L.kOut) == MapPatch(DenseConv(L, m, h, w), h, w, point / w, point % w)
  {
    PointSplit(point, h, w);
    var y, x := point / w, point % w;
    ghost var f := MapPatch(DenseConv(L, m, h, w), h, w, y, x);
    for tap := 0 to 9
      invariant TapsDone(taps[..], valid[..], L.kOut, f, tap)
    {
      DensePatchFits(L, m, h, w, y, x, tap);
      FillTap(L, input, h, w, y + tap / 3 - 1, x + tap % 3 - 1, tap, taps, valid, m, f);
    }
    assert forall i :: 0 <= i < 9 ==>
             PatchOf(taps[..], valid[..], L.kOut)[i] == PatchEntry(taps[..], valid[..], L.kOut, i) == f[i];
  }

  /** conv3x3_taps_at, one filter. */
  method TapsAcc(L: Layer, taps: Vec, stride: nat, valid: seq<bool>, oc: nat) returns (acc: int)
    requires L.Valid() && oc < L.kOut && L.cIn <= stride
    requires |valid| == L.kH * L.kW && |valid| * stride <= |taps|
    ensures acc == Acc(PatchOf(taps, valid, stride), Filter(L, oc), L.cIn, |valid|)
  {
    ghost var po, f := PatchOf(taps, valid, stride), Filter(L, oc);
    assert TapsFit(po, L.cIn);
    acc := 0;
    for ky := 0 to L.kH
      invariant ky * L.kW <= |valid| && acc == Acc(po, f, L.cIn, ky * L.kW)
    {
      assert (ky + 1) * L.kW == ky * L.kW + L.kW;
      BlockEnd(ky, L.kH, L.kW);
      for kx := 0 to L.kW
        invariant acc == Acc(po, f, L.cIn, ky * L.kW + kx)
      {
        var tap := ky * L.kW + kx;
        TapReady(L, po, oc, ky, kx, tap);
        BlockEnd(tap, |valid|, stride);
        assert po[tap] == PatchEntry(taps, valid, stride, tap);
        if !valid[tap] {
          continue;
        }
        acc := AddTap(acc, taps[tap * stride..tap * stride + stride], L.w, oc * L.wStride + tap * L.cIn, L.cIn, f,
              tap * L.cIn);
      }
    }
  }

  method ConvTapsAt(L: Layer, taps: Vec, stride: nat, valid: seq<bool>, out: array<int8>)
    requires L.Valid() && L.cIn <= stride && L.kOut <= out.Length
    requires |valid| == L.kH * L.kW && |valid| * stride <= |taps|
    modifies out
    ensures out[..] == Splice(old(out[..]), 0, ConvVec(L, PatchOf(taps, valid, stride)))
  {
    ghost var r := ConvVec(L, PatchOf(taps, valid, stride));
    for oc := 0 to L.kOut
      invariant out[..] == Splice(old(out[..]), 0, r[..oc])
    {
      var acc := TapsAcc(L, taps, stride, valid, oc);
      SpliceExtend(old(out[..]), 0, r[..oc], r[oc]);
      out[oc] := L.requant(oc, acc);
      assert r[..oc] + [r[oc]] == r[..oc + 1];
    }
    assert r[..L.kOut] == r;
  }

  lemma TapsGiveDense(L: Layer, m: seq<Vec>, h: nat, w: nat, c: nat, p: nat)
    requires L.Is3x3(c, c) && IsMap(m, h, w, c) && p < h * w
    ensures w > 0 && 0 <= p / w && 0 <= p % w && TapsFit(MapPatch(m, h, w, p / w, p % w), c)
    ensures ConvVec(L, MapPatch(m, h, w, p / w, p % w)) == DenseConv(L, m, h, w)[p]
  {
    PointSplit(p, h, w);
    MapPatchFits(m, h, w, c, p / w, p % w);
    assert MapPatch(m, h, w, p / w, p % w) == Window(L, m, h, w, p / w, p % w);
  }

  /** One branch of build_summary at one sample point: nine taps, the second layer on
      them, the last layer. It is what the three whole-map layers give at the point. */
  method DetectPoint(hd: Head, input: Vec, h: nat, w: nat, point: nat,
                     taps: array<int8>, valid: array<bool>, mid: array<int8>, raw: array<int8>, ghost m: seq<Vec>)
    requires hd.Valid() && IsMap(m, h, w, hd.inC) && Holds(input, hd.inC, m, h * w) && point < h * w
    requires valid.Length == 9 && taps.Length == 9 * hd.midC && mid.Length == hd.midC && raw.Length == hd.outC
    requires taps !in {mid, raw} && mid != raw
    modifies taps, valid, mid, raw
    ensures raw[..] == HeadAt(hd, m, h, w, point)
  {
    FillFirstLayerTaps(hd.first, input, h, w, point, taps, valid, m);
    TapsGiveDense(hd.second, DenseConv(hd.first, m, h, w), h, w, hd.midC, point);
    ConvTapsAt(hd.second, taps[..], hd.midC, valid[..], mid);
    assert mid[..] == DenseConv(hd.second, DenseConv(hd.first, m, h, w), h, w)[point];
    Conv1x1Vec(hd.last, mid[..], raw, 0);
  }

  // ---- What the head depends on ----

  /** The two maps agree on the pixels within Chebyshev distance r of (y, x). */
  ghost predicate AgreeNear(m: seq<Vec>, m': seq<Vec>, h: nat, w: nat, y: int, x: int, r: nat)
    requires |m| == |m'| == h * w
  {
    forall y', x' :: y - r <= y' <= y + r && x - r <= x' <= x + r ==> SamePixel(m, m', h, w, y', x')
  }

  ghost predicate SamePixel(m: seq<Vec>, m': seq<Vec>, h: nat, w: nat, y: int, x: int)
    requires |m| == |m'| == h * w
  {
    PixelAt(m, h, w, y, x) == PixelAt(m', h, w, y, x)
  }

  /** A 3x3 layer is local: agreement near a pixel is kept, one step less wide. */
  lemma LayerIsLocal(L: Layer, c: nat, c': nat, m: seq<Vec>, m': seq<Vec>, h: nat, w: nat, y: int, x: int, r: nat)
    requires L.Is3x3(c, c') && IsMap(m, h, w, c) && IsMap(m', h, w, c)
    requires AgreeNear(m, m', h, w, y, x, r + 1)
    ensures AgreeNear(DenseConv(L, m, h, w), DenseConv(L, m', h, w), h, w, y, x, r)
  {
    forall y', x' | y - r <= y' <= y + r && x - r <= x' <= x + r
      ensures SamePixel(DenseConv(L, m, h, w), DenseConv(L, m', h, w), h, w, y', x')
    {
      if InImage(h, w, y', x') {
        PointInRange(y', x', h, w);
        var a, b := Window(L, m, h, w, y', x'), Window(L, m', h, w, y', x');
        forall t | 0 <= t < |a| ensures a[t] == b[t] {
          assert SamePixel(m, m', h, w, y' + t / 3 - 1, x' + t % 3 - 1);
        }
        assert a == b;
        assert ConvAt(L, m, h, w, y', x') == ConvAt(L, m', h, w, y', x');
      }
    }
  }

  /** The head at a point depends only on the input within Chebyshev distance 2 of it. */
  lemma HeadIsLocal(hd: Head, m: seq<Vec>, m': seq<Vec>, h: nat, w: nat, p: nat)
    requires hd.Valid() && IsMap(m, h, w, hd.inC) && IsMap(m', h, w, hd.inC) && p < h * w && w > 0
    requires AgreeNear(m, m', h, w, p / w, p % w, 2)
    ensures HeadAt(hd, m, h, w, p) == HeadAt(hd, m', h, w, p)
  {
    PointSplit(p, h, w);
    var a, b := DenseConv(hd.first, m, h, w), DenseConv(hd.first, m', h, w);
    LayerIsLocal(hd.first, hd.inC, hd.midC, m, m', h, w, p / w, p % w, 1);
    LayerIsLocal(hd.second, hd.midC, hd.midC, a, b, h, w, p / w, p % w, 0);
    assert SamePixel(DenseConv(hd.second, a, h, w), DenseConv(hd.second, b, h, w), h, w, p / w, p % w);
  }

  // ---- The 32-bit accumulator ----

  /** After any number of whole taps and ic channels of the next, an accumulator is at
      most 128 * 128 in size per product added. */
  lemma {:induction false} DotBound(v: seq<int8>, f: seq<int8>, base: nat, n: nat)
    requires n <= |v| && base + n <= |f|
    ensures -0x4000 * n <= Dot(v, f, base, n) <= 0x4000 * n
  {
    if n > 0 {
      DotBound(v, f, base, n - 1);
      ProductBound(v[n - 1], f[base + n - 1]);
    }
  }

  lemma ScaleMono(k: nat, a: int, b: int)
    requires a <= b
    ensures k * a <= k * b
  {
    assert k * b == k * a + k * (b - a);
    assert k * (b - a) >= 0;
  }

  lemma ProductBound(a: int8, b: int8)
    ensures -0x4000 <= a as int * b as int <= 0x4000
  {
    var x: int, y: int := a, b;
    var k: nat := if x >= 0 then x else -x;
    ScaleMono(k, -128, y);
    ScaleMono(k, y, 128);
    assert x * y == if x >= 0 then k * y else -(k * y);
  }

  lemma {:induction false} AccBound(taps: seq<Option<Vec>>, f: seq<int8>, c: nat, n: nat)
    requires n <= |taps| && TapsFit(taps, c) && |taps| * c <= |f|
    ensures -0x4000 * (n * c) <= Acc(taps, f, c, n) <= 0x4000 * (n * c)
  {
    if n > 0 {
      AccBound(taps, f, c, n - 1);
      AccStep(taps, f, c, n - 1);
      assert n * c == (n - 1) * c + c;
      if taps[n - 1].Some? {
        DotBound(taps[n - 1].value, f, (n - 1) * c, c);
      }
    }
  }

  ghost predicate FitsInt32(a: int) { -0x8000_0000 <= a < 0x8000_0000 }

  /** No partial sum of a layer can leave int32_t as long as kH * kW * cIn <= 131071. */
  lemma AccumulatorFits(taps: seq<Option<Vec>>, f: seq<int8>, c: nat, n: nat, ic: nat)
    requires n < |taps| && TapsFit(taps, c) && |taps| * c <= |f| && taps[n].Some? && ic <= c
    requires |taps| * c <= 131071
    ensures n * c + c <= |f|
    ensures FitsInt32(Acc(taps, f, c, n) + Dot(taps[n].value, f, n * c, ic))
  {
    BlockEnd(n, |taps|, c);
    AccBound(taps, f, c, n);
    DotBound(taps[n].value, f, n * c, ic);
  }

  /** The bound is exact: with one product more, all of them (-128)*(-128), it overflows. */
  lemma AccumulatorOverflows(taps: seq<Option<Vec>>, f: seq<int8>, c: nat)
    requires TapsFit(taps, c) && |taps| * c <= |f| && |taps| * c > 131071
    requires forall t :: 0 <= t < |taps| ==> taps[t].Some? && forall i :: 0 <= i < c ==> taps[t].value[i] == -128
    requires forall i :: 0 <= i < |f| ==> f[i] == -128
    ensures !FitsInt32(Acc(taps, f, c, |taps|))
  {
    AccExtreme(taps, f, c, |taps|);
  }

  lemma {:induction false} AccExtreme(taps: seq<Option<Vec>>, f: seq<int8>, c: nat, n: nat)
    requires n <= |taps| && TapsFit(taps, c) && |taps| * c <= |f|
    requires forall t :: 0 <= t < |taps| ==> taps[t].Some? && forall i :: 0 <= i < c ==> taps[t].value[i] == -128
    requires forall i :: 0 <= i < |f| ==> f[i] == -128
    ensures Acc(taps, f, c, n) == 0x4000 * (n * c)
  {
    if n > 0 {
      AccExtreme(taps, f, c, n - 1);
      AccStep(taps, f, c, n - 1);
      DotExtreme(taps[n - 1].value, f, (n - 1) * c, c);
      assert n * c == (n - 1) * c + c;
    }
  }

  lemma {:induction false} DotExtreme(v: seq<int8>, f: seq<int8>, base: nat, n: nat)
    requires n <= |v| && base + n <= |f|
    requires forall i :: 0 <= i < n ==> v[i] == -128
    requires forall i :: 0 <= i < |f| ==> f[i] == -128
    ensures Dot(v, f, base, n) == 0x4000 * n
  {
    if n > 0 {
      DotExtreme(v, f, base, n - 1);
    }
  }
}

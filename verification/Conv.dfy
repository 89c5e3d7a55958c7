// The convolution every layer of the detector computes, as one formula over a window
// of optional taps: a tap that falls off the map contributes nothing.
module Conv {
  import opened Buffers

  /** One layer: kOut filters of kH x kW taps over cIn channels, filter oc starting at
      w[oc*wStride], and the requantisation of its 32-bit accumulators. */
  datatype Layer = Layer(
    kOut: nat, cIn: nat, kH: nat, kW: nat, padH: nat, padW: nat,
    wStride: nat, w: seq<int8>, requant: (nat, int) -> int8)
  {
    ghost predicate Valid() {
      && kW > 0
      && kH * kW * cIn <= wStride
      && kOut * wStride <= |w|
    }

    ghost predicate Is3x3(inC: nat, outC: nat) {
      Valid() && kH == 3 && kW == 3 && padH == 1 && padW == 1 && cIn == inC && kOut == outC
    }

    ghost predicate Is1x1(inC: nat, outC: nat) {
      Valid() && kH == 1 && kW == 1 && cIn == inC && kOut == outC
    }
  }

  /** The weights of filter oc. */
  ghost function Filter(L: Layer, oc: nat): (f: seq<int8>)
    requires L.Valid() && oc < L.kOut
    ensures |f| == L.kH * L.kW * L.cIn
  {
    BlockEnd(oc, L.kOut, L.wStride);
    L.w[oc * L.wStride..oc * L.wStride + L.kH * L.kW * L.cIn]
  }

  ghost function Dot(v: seq<int8>, w: seq<int8>, base: nat, n: nat): int
    requires n <= |v| && base + n <= |w|
  {
    if n == 0 then 0 else Dot(v, w, base, n - 1) + v[n - 1] as int * w[base + n - 1] as int
  }

  /** What one tap of c channels adds, its weights starting at w[base]. */
  ghost function TapDot(tap: Option<Vec>, w: seq<int8>, base: nat, c: nat): int
    requires base + c <= |w| && (tap.Some? ==> c <= |tap.value|)
  {
    if tap.Some? then Dot(tap.value, w, base, c) else 0
  }

  ghost predicate TapsFit(taps: seq<Option<Vec>>, c: nat) {
    forall t :: 0 <= t < |taps| && taps[t].Some? ==> c <= |taps[t].value|
  }

  /** The accumulator of a filter after its first n taps. */
  ghost function Acc(taps: seq<Option<Vec>>, f: seq<int8>, c: nat, n: nat): int
    requires n <= |taps| && TapsFit(taps, c) && |taps| * c <= |f|
  {
    if n == 0 then 0 else
      BlockEnd(n - 1, |taps|, c);
      Acc(taps, f, c, n - 1) + TapDot(taps[n - 1], f, (n - 1) * c, c)
  }

  /** The output vector of a layer over one window. */
  ghost function ConvVec(L: Layer, taps: seq<Option<Vec>>): (v: Vec)
    requires L.Valid() && |taps| == L.kH * L.kW && TapsFit(taps, L.cIn)
    ensures |v| == L.kOut
  {
    seq(L.kOut, oc requires 0 <= oc < L.kOut => L.requant(oc, Acc(taps, Filter(L, oc), L.cIn, |taps|)))
  }

  ghost predicate IsMap(m: seq<Vec>, h: nat, w: nat, c: nat) {
    |m| == h * w && forall p :: 0 <= p < |m| ==> |m[p]| == c
  }

  /** The pixel at (y, x), or nothing in the zero padding around the map. */
  ghost function PixelAt(m: seq<Vec>, h: nat, w: nat, y: int, x: int): Option<Vec>
    requires |m| == h * w
  {
    if 0 <= y < h && 0 <= x < w then
      PointInRange(y, x, h, w);
      Some(m[y * w + x])
    else None
  }

  lemma PixelSize(m: seq<Vec>, h: nat, w: nat, c: nat, y: int, x: int)
    requires IsMap(m, h, w, c)
    ensures PixelAt(m, h, w, y, x).Some? ==> |PixelAt(m, h, w, y, x).value| == c
  {
    if 0 <= y < h && 0 <= x < w {
      PointInRange(y, x, h, w);
    }
  }

  /** The taps a layer reads to produce the pixel at (y, x), stride one. */
  ghost function Window(L: Layer, m: seq<Vec>, h: nat, w: nat, y: int, x: int): (taps: seq<Option<Vec>>)
    requires L.Valid() && |m| == h * w
    ensures |taps| == L.kH * L.kW
  {
    seq(L.kH * L.kW, t requires 0 <= t < L.kH * L.kW =>
      PixelAt(m, h, w, y + t / L.kW - L.padH, x + t % L.kW - L.padW))
  }

  lemma WindowFits(L: Layer, m: seq<Vec>, h: nat, w: nat, y: int, x: int)
    requires L.Valid() && IsMap(m, h, w, L.cIn)
    ensures TapsFit(Window(L, m, h, w, y, x), L.cIn)
  {
    forall t | 0 <= t < L.kH * L.kW && Window(L, m, h, w, y, x)[t].Some?
      ensures |Window(L, m, h, w, y, x)[t].value| == L.cIn
    {
      var (ty, tx) := (y + t / L.kW - L.padH, x + t % L.kW - L.padW);
      PointInRange(ty, tx, h, w);
      assert Window(L, m, h, w, y, x)[t].value == m[ty * w + tx];
    }
  }

  /** The pixel of a layer at (y, x). */
  ghost function ConvAt(L: Layer, m: seq<Vec>, h: nat, w: nat, y: int, x: int): (v: Vec)
    requires L.Valid() && IsMap(m, h, w, L.cIn)
    ensures |v| == L.kOut
  {
    WindowFits(L, m, h, w, y, x);
    ConvVec(L, Window(L, m, h, w, y, x))
  }

  /** A whole layer: the zero-padded convolution of the map. */
  ghost function DenseConv(L: Layer, m: seq<Vec>, h: nat, w: nat): (r: seq<Vec>)
    requires L.Valid() && IsMap(m, h, w, L.cIn)
    ensures IsMap(r, h, w, L.kOut)
  {
    seq(h * w, p requires 0 <= p < h * w =>
      PointSplit(p, h, w);
      ConvAt(L, m, h, w, p / w, p % w))
  }

  lemma DenseAt(L: Layer, m: seq<Vec>, h: nat, w: nat, y: nat, x: nat)
    requires L.Valid() && IsMap(m, h, w, L.cIn) && y < h && x < w
    ensures PixelAt(DenseConv(L, m, h, w), h, w, y, x) == Some(ConvAt(L, m, h, w, y, x))
  {
    PointInRange(y, x, h, w);
  }

  // ---- An accumulator is linear in its weights ----

  /** Zero weights give zero. */
  lemma {:induction false} AccOfZeros(taps: seq<Option<Vec>>, f: seq<int8>, c: nat, n: nat)
    requires n <= |taps| && TapsFit(taps, c) && |taps| * c <= |f|
    requires forall i :: 0 <= i < |f| ==> f[i] == 0
    ensures Acc(taps, f, c, n) == 0
  {
    if n > 0 {
      BlockEnd(n - 1, |taps|, c);
      AccOfZeros(taps, f, c, n - 1);
      if taps[n - 1].Some? {
        DotOfZeros(taps[n - 1].value, f, (n - 1) * c, c);
      }
    }
  }

  lemma {:induction false} DotOfZeros(v: seq<int8>, f: seq<int8>, base: nat, n: nat)
    requires n <= |v| && base + n <= |f| && forall i :: 0 <= i < |f| ==> f[i] == 0
    ensures Dot(v, f, base, n) == 0
  {
    if n > 0 {
      DotOfZeros(v, f, base, n - 1);
    }
  }

  lemma {:induction false} DotChange(v: seq<int8>, f: seq<int8>, base: nat, n: nat, j: nat, x: int8)
    requires n <= |v| && base + n <= |f| && j < |f|
    ensures Dot(v, f[j := x], base, n)
         == Dot(v, f, base, n) + if base <= j < base + n then v[j - base] as int * (x as int - f[j] as int) else 0
  {
    if n > 0 {
      DotChange(v, f, base, n - 1, j, x);
    }
  }

  /** Changing the weight of channel k of tap t moves the accumulator by the change times what
      the tap shows there, and not at all when the tap lies off the map. */
  lemma {:induction false} WeightCounts(taps: seq<Option<Vec>>, f: seq<int8>, c: nat, n: nat, t: nat, k: nat, x: int8)
    requires n <= |taps| && TapsFit(taps, c) && |taps| * c <= |f| && t < n && k < c
    ensures 0 <= t * c && t * c + k < |f|
    ensures Acc(taps, f[t * c + k := x], c, n)
         == Acc(taps, f, c, n)
            + if taps[t].Some? then taps[t].value[k] as int * (x as int - f[t * c + k] as int) else 0
  {
    BlockEnd(t, |taps|, c);
    var base, j := (n - 1) * c, t * c + k;
    BlockEnd(n - 1, |taps|, c);
    if taps[n - 1].Some? {
      DotChange(taps[n - 1].value, f, base, c, j, x);
    }
    if t < n - 1 {
      BlockEnd(t, n - 1, c);
      WeightCounts(taps, f, c, n - 1, t, k, x);
    } else {
      AccBefore(taps, f, c, n - 1, j, x);
    }
  }

  /** A weight of a later tap does not count yet. */
  lemma {:induction false} AccBefore(taps: seq<Option<Vec>>, f: seq<int8>, c: nat, n: nat, j: nat, x: int8)
    requires n <= |taps| && TapsFit(taps, c) && |taps| * c <= |f| && n * c <= j < |f|
    ensures Acc(taps, f[j := x], c, n) == Acc(taps, f, c, n)
  {
    if n > 0 {
      var base := (n - 1) * c;
      BlockEnd(n - 1, |taps|, c);
      BlockEnd(n - 1, n, c);
      AccBefore(taps, f, c, n - 1, j, x);
      if taps[n - 1].Some? {
        DotChange(taps[n - 1].value, f, base, c, j, x);
      }
    }
  }

  // ---- The loops that compute it ----

  /** The innermost loop of every convolution: acc += sum of in[ic] * w[base + ic]. */
  method AddTap(acc0: int, v: seq<int8>, w: seq<int8>, base: nat, c: nat, ghost f: seq<int8>, ghost fbase: nat)
    returns (acc: int)
    requires c <= |v| && base + c <= |w| && fbase + c <= |f|
    requires w[base..base + c] == f[fbase..fbase + c]
    ensures acc == acc0 + Dot(v, f, fbase, c)
  {
    acc := acc0;
    for ic := 0 to c
      invariant acc == acc0 + Dot(v, f, fbase, ic)
    {
      assert w[base + ic] == w[base..base + c][ic] == f[fbase + ic];
      acc := acc + v[ic] as int * w[base + ic] as int;
    }
  }

  /** Where tap t of filter oc lies in the weight array. */
  lemma TapWeights(L: Layer, oc: nat, t: nat)
    requires L.Valid() && oc < L.kOut && t < L.kH * L.kW
    ensures 0 <= t * L.cIn && 0 <= oc * L.wStride
    ensures oc * L.wStride + t * L.cIn + L.cIn <= |L.w|
    ensures t * L.cIn + L.cIn <= |Filter(L, oc)|
    ensures L.w[oc * L.wStride + t * L.cIn..oc * L.wStride + t * L.cIn + L.cIn]
         == Filter(L, oc)[t * L.cIn..t * L.cIn + L.cIn]
  {
    BlockEnd(t, L.kH * L.kW, L.cIn);
    BlockEnd(oc, L.kOut, L.wStride);
    SliceOfSlice(L.w, oc * L.wStride, L.kH * L.kW * L.cIn, t * L.cIn, L.cIn);
  }

  lemma AccStep(taps: seq<Option<Vec>>, f: seq<int8>, c: nat, n: nat)
    requires n < |taps| && TapsFit(taps, c) && |taps| * c <= |f|
    ensures n * c + c <= |f|
    ensures Acc(taps, f, c, n + 1) == Acc(taps, f, c, n) + TapDot(taps[n], f, n * c, c)
  {
    BlockEnd(n, |taps|, c);
  }

  /** Everything the loops need about the tap at kernel position (ky, kx). */
  lemma TapReady(L: Layer, taps: seq<Option<Vec>>, oc: nat, ky: nat, kx: nat, t: int)
    requires L.Valid() && oc < L.kOut && ky < L.kH && kx < L.kW && t == ky * L.kW + kx
    requires |taps| == L.kH * L.kW && TapsFit(taps, L.cIn)
    ensures 0 <= t < |taps| && t / L.kW == ky && t % L.kW == kx
    ensures 0 <= t * L.cIn && 0 <= oc * L.wStride && t * L.cIn + L.cIn <= |Filter(L, oc)|
    ensures oc * L.wStride + t * L.cIn + L.cIn <= |L.w|
    ensures L.w[oc * L.wStride + t * L.cIn..oc * L.wStride + t * L.cIn + L.cIn]
         == Filter(L, oc)[t * L.cIn..t * L.cIn + L.cIn]
    ensures Acc(taps, Filter(L, oc), L.cIn, t + 1)
         == Acc(taps, Filter(L, oc), L.cIn, t) + TapDot(taps[t], Filter(L, oc), t * L.cIn, L.cIn)
  {
    PointInRange(ky, kx, L.kH, L.kW);
    TapWeights(L, oc, t);
    AccStep(taps, Filter(L, oc), L.cIn, t);
  }

  method Conv1x1Vec(L: Layer, v: seq<int8>, out: array<int8>, off: nat)
    requires L.Valid() && L.kH == 1 && L.kW == 1 && L.cIn <= |v|
    requires off + L.kOut <= out.Length
    modifies out
    ensures out[..] == Splice(old(out[..]), off, ConvVec(L, [Some(v)]))
  {
    ghost var taps := [Some(v)];
    ghost var r := ConvVec(L, taps);
    for oc := 0 to L.kOut
      invariant out[..] == Splice(old(out[..]), off, r[..oc])
    {
      TapWeights(L, oc, 0);
      ghost var f := Filter(L, oc);
      var acc := AddTap(0, v, L.w, oc * L.wStride, L.cIn, f, 0);
      assert acc == Acc(taps, f, L.cIn, 1) by { assert Acc(taps, f, L.cIn, 0) == 0; }
      SpliceExtend(old(out[..]), off, r[..oc], r[oc]);
      out[off + oc] := L.requant(oc, acc);
      assert r[..oc] + [r[oc]] == r[..oc + 1];
    }
    assert r[..L.kOut] == r;
  }

  // ---- Convolution from a patch with validity flags ----

  /** Entry i of a patch of c-byte pixels, of which only those flagged valid mean anything. */
  ghost function PatchEntry(patch: seq<int8>, valid: seq<bool>, c: nat, i: nat): (r: Option<Vec>)
    requires |valid| * c <= |patch| && i < |valid|
    ensures r.Some? ==> |r.value| == c
  {
    BlockEnd(i, |valid|, c);
    if valid[i] then Some(Block(patch, c, i)) else None
  }

  ghost function PatchOf(patch: seq<int8>, valid: seq<bool>, c: nat): (r: seq<Option<Vec>>)
    requires |valid| * c <= |patch|
    ensures |r| == |valid|
    ensures TapsFit(r, c)
  {
    seq(|valid|, i requires 0 <= i < |valid| => PatchEntry(patch, valid, c, i))
  }

  /** The first n entries of the patch are those of f, the rest are still flagged invalid. */
  ghost predicate PatchHolds(patch: seq<int8>, valid: seq<bool>, c: nat, f: seq<Option<Vec>>, n: nat) {
    && |f| == |valid| && |valid| * c <= |patch|
    && forall i :: 0 <= i < |valid| ==> PatchEntry(patch, valid, c, i) == if i < n then f[i] else None
  }

  lemma PatchSet(patch: seq<int8>, valid: seq<bool>, c: nat, f: seq<Option<Vec>>, n: nat, v: Vec)
    requires PatchHolds(patch, valid, c, f, n) && n < |f| && f[n] == Some(v) && |v| == c
    ensures n * c + c <= |patch|
    ensures PatchHolds(Splice(patch, n * c, v), valid[n := true], c, f, n + 1)
  {
    BlockEnd(n, |valid|, c);
    var patch', valid' := Splice(patch, n * c, v), valid[n := true];
    assert |patch'| == |patch| && |valid'| == |valid|;
    forall i | 0 <= i < |valid'|
      ensures PatchEntry(patch', valid', c, i) == if i < n + 1 then f[i] else None
    {
      BlockEnd(i, |valid|, c);
      BlockOfSplice(patch, c, n, i, v);
      assert PatchEntry(patch, valid, c, i) == if i < n then f[i] else None;
    }
  }

  lemma PatchComplete(patch: seq<int8>, valid: seq<bool>, c: nat, f: seq<Option<Vec>>)
    requires PatchHolds(patch, valid, c, f, |f|)
    ensures PatchOf(patch, valid, c) == f
  {
    forall i | 0 <= i < |valid| ensures PatchOf(patch, valid, c)[i] == f[i] {
      assert PatchEntry(patch, valid, c, i) == f[i];
    }
  }

  /** The tap at kernel position (ky, kx) around the patch pixel (cy, cx). The C code
      computes the coordinates in uint32_t, so one left of or above the patch wraps. */
  ghost function PatchTap(L: Layer, patch: seq<Option<Vec>>, side: nat, cy: nat, cx: nat, ky: nat, kx: nat)
    : (r: Option<Vec>)
    requires |patch| == side * side && TapsFit(patch, L.cIn)
    ensures r.Some? ==> L.cIn <= |r.value|
  {
    var py, px := U32(cy + ky - L.padH), U32(cx + kx - L.padW);
    if py < side && px < side then (PointInRange(py, px, side, side); patch[py * side + px]) else None
  }

  ghost function PatchWindow(L: Layer, patch: seq<Option<Vec>>, side: nat, cy: nat, cx: nat): (taps: seq<Option<Vec>>)
    requires L.Valid() && |patch| == side * side && TapsFit(patch, L.cIn)
    ensures |taps| == L.kH * L.kW && TapsFit(taps, L.cIn)
  {
    var taps := seq(L.kH * L.kW, t requires 0 <= t < L.kH * L.kW =>
      PatchTap(L, patch, side, cy, cx, t / L.kW, t % L.kW));
    assert TapsFit(taps, L.cIn) by {
      forall t | 0 <= t < |taps| && taps[t].Some? ensures L.cIn <= |taps[t].value| {
        var py, px := U32(cy + t / L.kW - L.padH), U32(cx + t % L.kW - L.padW);
        PointInRange(py, px, side, side);
        assert taps[t] == patch[py * side + px];
      }
    }
    taps
  }

  lemma PatchWindowAt(L: Layer, patch: seq<Option<Vec>>, side: nat, cy: nat, cx: nat, ky: nat, kx: nat, t: nat)
    requires L.Valid() && |patch| == side * side && TapsFit(patch, L.cIn)
    requires ky < L.kH && kx < L.kW && t == ky * L.kW + kx
    ensures t < L.kH * L.kW && PatchWindow(L, patch, side, cy, cx)[t] == PatchTap(L, patch, side, cy, cx, ky, kx)
  {
    PointInRange(ky, kx, L.kH, L.kW);
  }

  lemma PatchTapEntry(L: Layer, patch: seq<int8>, side: nat, c: nat, valid: seq<bool>, cy: nat, cx: nat, ky: nat,
                      kx: nat)
    requires |valid| == side * side && |valid| * c <= |patch| && L.cIn <= c
    ensures var tap := PatchTap(L, PatchOf(patch, valid, c), side, cy, cx, ky, kx);
            var py, px := U32(cy + ky - L.padH), U32(cx + kx - L.padW);
            if py < side && px < side then
              0 <= py * side + px < |valid| && tap == PatchEntry(patch, valid, c, py * side + px)
            else tap == None
  {
    var py, px := U32(cy + ky - L.padH), U32(cx + kx - L.padW);
    if py < side && px < side {
      PointInRange(py, px, side, side);
    }
  }

  /** The body of the loop nest below: what patch pixel (py, px) adds under the weights
      at w[wBase], if it lies in the patch and is valid. */
  method AddPatchTap(patch: seq<int8>, side: nat, patchC: nat, valid: seq<bool>, py: nat, px: nat,
                     w: seq<int8>, wBase: nat, c: nat, acc0: int,
                     ghost f: seq<int8>, ghost fBase: nat, ghost tap: Option<Vec>)
    returns (acc: int)
    requires |valid| == side * side && |valid| * patchC <= |patch| && c <= patchC
    requires wBase + c <= |w| && fBase + c <= |f| && w[wBase..wBase + c] == f[fBase..fBase + c]
    requires py < side && px < side ==> 0 <= py * side + px < |valid|
    requires tap == if py < side && px < side then PatchEntry(patch, valid, patchC, py * side + px) else None
    ensures acc == acc0 + TapDot(tap, f, fBase, c)
  {
    acc := acc0;
    if py < side && px < side {
      var idx := py * side + px;
      if valid[idx] {
        BlockEnd(idx, |valid|, patchC);
        acc := AddTap(acc, patch[idx * patchC..idx * patchC + patchC], w, wBase, c, f, fBase);
      }
    }
  }

  /** One tap of a patch row. */
  method PatchTapAcc(L: Layer, patch: seq<int8>, side: nat, patchC: nat, valid: seq<bool>, cy: nat, cx: nat, oc: nat,
                     ky: nat, kx: nat, t: nat, py: nat, acc0: int, ghost taps: seq<Option<Vec>>, ghost f: seq<int8>)
    returns (acc: int)
    requires L.Valid() && L.cIn <= patchC && oc < L.kOut && f == Filter(L, oc)
    requires |valid| == side * side && |valid| * patchC <= |patch|
    requires ky < L.kH && kx < L.kW && t == ky * L.kW + kx < L.kH * L.kW && py == U32(cy + ky - L.padH)
    requires taps == PatchWindow(L, PatchOf(patch, valid, patchC), side, cy, cx) && acc0 == Acc(taps, f, L.cIn, t)
    ensures acc == Acc(taps, f, L.cIn, t + 1)
  {
    TapReady(L, taps, oc, ky, kx, t);
    PatchWindowAt(L, PatchOf(patch, valid, patchC), side, cy, cx, ky, kx, t);
    PatchTapEntry(L, patch, side, patchC, valid, cy, cx, ky, kx);
    var px := U32(cx + kx - L.padW);
    var wBase := oc * L.wStride + t * L.cIn;
    acc := AddPatchTap(patch, side, patchC, valid, py, px, L.w, wBase, L.cIn, acc0, f, t * L.cIn, taps[t]);
  }

  /** Row ky of the taps of one filter. */
  method PatchRowAcc(L: Layer, patch: seq<int8>, side: nat, patchC: nat, valid: seq<bool>, cy: nat, cx: nat, oc: nat,
                     ky: nat, row: nat, acc0: int) returns (acc: int)
    requires L.Valid() && L.cIn <= patchC && oc < L.kOut
    requires |valid| == side * side && |valid| * patchC <= |patch|
    requires ky < L.kH && row == ky * L.kW && row + L.kW <= L.kH * L.kW
    requires acc0 == Acc(PatchWindow(L, PatchOf(patch, valid, patchC), side, cy, cx), Filter(L, oc), L.cIn, row)
    ensures acc == Acc(PatchWindow(L, PatchOf(patch, valid, patchC), side, cy, cx), Filter(L, oc), L.cIn, row + L.kW)
  {
    ghost var po := PatchOf(patch, valid, patchC);
    ghost var taps, f := PatchWindow(L, po, side, cy, cx), Filter(L, oc);
    acc := acc0;
    var py := U32(cy + ky - L.padH);
    for kx := 0 to L.kW
      invariant acc == Acc(taps, f, L.cIn, row + kx)
    {
      acc := PatchTapAcc(L, patch, side, patchC, valid, cy, cx, oc, ky, kx, row + kx, py, acc, taps, f);
    }
  }

  method PatchAcc(L: Layer, patch: seq<int8>, side: nat, patchC: nat, valid: seq<bool>, cy: nat, cx: nat, oc: nat)
    returns (acc: int)
    requires L.Valid() && L.cIn <= patchC && oc < L.kOut
    requires |valid| == side * side && |valid| * patchC <= |patch|
    ensures var taps := PatchWindow(L, PatchOf(patch, valid, patchC), side, cy, cx);
            acc == Acc(taps, Filter(L, oc), L.cIn, |taps|)
  {
    ghost var taps, f := PatchWindow(L, PatchOf(patch, valid, patchC), side, cy, cx), Filter(L, oc);
    acc := 0;
    var row := 0;
    for ky := 0 to L.kH
      invariant row == ky * L.kW <= |taps| && acc == Acc(taps, f, L.cIn, row)
    {
      BlockEnd(ky, L.kH, L.kW);
      acc := PatchRowAcc(L, patch, side, patchC, valid, cy, cx, oc, ky, row, acc);
      assert (ky + 1) * L.kW == row + L.kW;
      row := row + L.kW;
    }
  }

  method ConvFromPatch(L: Layer, patch: seq<int8>, side: nat, patchC: nat, valid: seq<bool>,
                       cy: nat, cx: nat, out: array<int8>, off: nat)
    requires L.Valid() && L.cIn <= patchC
    requires |valid| == side * side && |valid| * patchC <= |patch|
    requires off + L.kOut <= out.Length
    modifies out
    ensures out[..] == Splice(old(out[..]), off,
                              ConvVec(L, PatchWindow(L, PatchOf(patch, valid, patchC), side, cy, cx)))
  {
    ghost var r := ConvVec(L, PatchWindow(L, PatchOf(patch, valid, patchC), side, cy, cx));
    for oc := 0 to L.kOut
      invariant out[..] == Splice(old(out[..]), off, r[..oc])
    {
      var acc := PatchAcc(L, patch, side, patchC, valid, cy, cx, oc);
      SpliceExtend(old(out[..]), off, r[..oc], r[oc]);
      out[off + oc] := L.requant(oc, acc);
      assert r[..oc] + [r[oc]] == r[..oc + 1];
    }
    assert r[..L.kOut] == r;
  }
}

// The layer engine of YOLOv5n: rows of packed input, a blocked matrix product over them,
// and the proof that the result is the direct zero-padded, strided convolution.
module TensorConv {
  import opened Buffers
  import opened Conv
  import opened Tl8

  const PIX_BLOCK := 16

  // ---- The direct convolution ----

  /** The taps of the output pixel at (oy, ox). */
  ghost function Taps(L: TLayer, m: seq<Vec>, h: nat, w: nat, oy: nat, ox: nat): (taps: seq<Option<Vec>>)
    requires L.kW > 0 && IsMap(m, h, w, L.cIn)
    ensures |taps| == L.kH * L.kW
    ensures forall t :: 0 <= t < |taps| && taps[t].Some? ==> |taps[t].value| == L.cIn
  {
    seq(L.kH * L.kW, t requires 0 <= t < L.kH * L.kW =>
      TapAt(L, m, h, w, oy, ox, t / L.kW, t % L.kW))
  }

  ghost function TapAt(L: TLayer, m: seq<Vec>, h: nat, w: nat, oy: nat, ox: nat, ky: int, kx: int): (tap: Option<Vec>)
    requires IsMap(m, h, w, L.cIn)
    ensures tap.Some? ==> |tap.value| == L.cIn
  {
    var (iy, ix) := (oy * L.strideH + ky - L.padH, ox * L.strideW + kx - L.padW);
    PixelSize(m, h, w, L.cIn, iy, ix);
    PixelAt(m, h, w, iy, ix)
  }

  /** The filter of channel oc: the entries a caller gave, without the padded rows. */
  ghost function FilterOf(L: TLayer, oc: nat): (f: seq<int8>)
    requires L.Valid() && oc < OC_BLOCK * L.ocBlocks
    ensures |f| == L.kInner
  {
    seq<int8>(L.kInner, k requires 0 <= k < L.kInner => Weight(L, oc, k))
  }

  /** One output pixel from its taps: every channel's accumulator, requantised. */
  ghost function OutVec(L: TLayer, taps: seq<Option<Vec>>): (v: Vec)
    requires L.Valid() && |taps| * L.cIn == L.kInner
    requires forall t :: 0 <= t < |taps| && taps[t].Some? ==> |taps[t].value| == L.cIn
    ensures |v| == OC_BLOCK * L.ocBlocks
  {
    seq<int8>(OC_BLOCK * L.ocBlocks, oc requires 0 <= oc < OC_BLOCK * L.ocBlocks =>
      L.requant(oc, Acc(taps, FilterOf(L, oc), L.cIn, |taps|)))
  }

  // ---- The packed row ----

  /** The first n taps side by side, zeros where a tap is missing. */
  ghost function Flat(taps: seq<Option<Vec>>, c: nat, n: nat): (f: Vec)
    requires n <= |taps| && forall t :: 0 <= t < |taps| && taps[t].Some? ==> |taps[t].value| == c
    ensures n * c >= 0 && |f| == n * c
  {
    if n == 0 then [] else
      assert (n - 1) * c + c == n * c;
      Flat(taps, c, n - 1) + if taps[n - 1].Some? then taps[n - 1].value else Zeros(c)
  }

  /** A whole row: all taps, then zeros up to the padded width. */
  ghost function RowOfTaps(taps: seq<Option<Vec>>, c: nat, width: nat): (r: Vec)
    requires forall t :: 0 <= t < |taps| && taps[t].Some? ==> |taps[t].value| == c
    requires |taps| * c <= width
    ensures |r| == width
  {
    Flat(taps, c, |taps|) + Zeros(width - |taps| * c)
  }

  // ---- The blocked product computes the convolution ----

  /** The product of the first n entries of a packed row with the weights of channel oc. */
  ghost function RowSum(L: TLayer, row: Vec, oc: nat, n: nat): int
    requires L.Valid() && oc < OC_BLOCK * L.ocBlocks && n <= |row| && n <= L.kPadded
  {
    if n == 0 then 0 else RowSum(L, row, oc, n - 1) + row[n - 1] as int * Weight(L, oc, n - 1) as int
  }

  lemma {:induction false} ZerosAddNothing(L: TLayer, row: Vec, oc: nat, n: nat, k: nat)
    requires L.Valid() && oc < OC_BLOCK * L.ocBlocks && n <= k <= |row| && k <= L.kPadded
    requires forall i :: n <= i < k ==> row[i] == 0
    ensures RowSum(L, row, oc, k) == RowSum(L, row, oc, n)
  {
    if k > n {
      ZerosAddNothing(L, row, oc, n, k - 1);
    }
  }

  lemma {:induction false} TapAddsDot(L: TLayer, row: Vec, oc: nat, v: Vec, base: nat, n: nat)
    requires L.Valid() && oc < OC_BLOCK * L.ocBlocks && n <= |v| && base + n <= L.kInner <= |row|
    requires forall i :: 0 <= i < n ==> row[base + i] == v[i]
    ensures RowSum(L, row, oc, base + n) == RowSum(L, row, oc, base) + Dot(v, FilterOf(L, oc), base, n)
  {
    if n > 0 {
      TapAddsDot(L, row, oc, v, base, n - 1);
      assert row[base + (n - 1)] == v[n - 1];
    }
  }

  /** One more tap of a packed row adds what that tap adds to the accumulator. */
  lemma RowSumTap(L: TLayer, row: Vec, oc: nat, taps: seq<Option<Vec>>, n: nat, base: nat)
    requires L.Valid() && oc < OC_BLOCK * L.ocBlocks
    requires forall t :: 0 <= t < |taps| && taps[t].Some? ==> |taps[t].value| == L.cIn
    requires n < |taps| && base == n * L.cIn && base + L.cIn <= L.kInner <= |row|
    requires row[base..base + L.cIn] == if taps[n].Some? then taps[n].value else Zeros(L.cIn)
    ensures RowSum(L, row, oc, base + L.cIn) == RowSum(L, row, oc, base) + TapDot(taps[n], FilterOf(L, oc), base, L.cIn)
  {
    var v := if taps[n].Some? then taps[n].value else Zeros(L.cIn);
    forall i | 0 <= i < L.cIn ensures row[base + i] == v[i] {
      assert row[base..base + L.cIn][i] == v[i];
    }
    if taps[n].Some? {
      TapAddsDot(L, row, oc, v, base, L.cIn);
    } else {
      forall i | base <= i < base + L.cIn ensures row[i] == 0 {
        assert row[base + (i - base)] == v[i - base];
      }
      ZerosAddNothing(L, row, oc, base, base + L.cIn);
    }
  }

  lemma SliceOfFront<T>(a: seq<T>, b: seq<T>, base: nat, c: nat)
    requires base + c <= |a|
    ensures (a + b)[base..base + c] == a[base..base + c]
  {
  }

  lemma SliceOfBack<T>(a: seq<T>, b: seq<T>)
    ensures (a + b)[|a|..|a| + |b|] == b
  {
  }

  lemma {:induction false} FlatSlice(taps: seq<Option<Vec>>, c: nat, n: nat, k: nat, base: nat)
    requires forall t :: 0 <= t < |taps| && taps[t].Some? ==> |taps[t].value| == c
    requires n < k <= |taps| && base == n * c
    ensures base + c <= |Flat(taps, c, k)|
    ensures Flat(taps, c, k)[base..base + c] == if taps[n].Some? then taps[n].value else Zeros(c)
    decreases k
  {
    BlockEnd(n, k, c);
    if n < k - 1 {
      FlatSlice(taps, c, n, k - 1, base);
      SliceOfFront(Flat(taps, c, k - 1), if taps[k - 1].Some? then taps[k - 1].value else Zeros(c), base, c);
    } else {
      SliceOfBack(Flat(taps, c, k - 1), if taps[k - 1].Some? then taps[k - 1].value else Zeros(c));
    }
  }

  /** Entry n of a packed row. */
  lemma RowEntry(taps: seq<Option<Vec>>, c: nat, width: nat, n: nat, base: nat)
    requires forall t :: 0 <= t < |taps| && taps[t].Some? ==> |taps[t].value| == c
    requires n < |taps| && |taps| * c <= width && base == n * c
    ensures base + c <= |taps| * c
    ensures RowOfTaps(taps, c, width)[base..base + c] == if taps[n].Some? then taps[n].value else Zeros(c)
  {
    BlockEnd(n, |taps|, c);
    FlatSlice(taps, c, n, |taps|, base);
    assert RowOfTaps(taps, c, width)[base..base + c] == Flat(taps, c, |taps|)[base..base + c];
  }

  /** The step of the induction below: tap n and the sums before it. */
  lemma RowSumStep(L: TLayer, row: Vec, oc: nat, taps: seq<Option<Vec>>, n: nat, base: nat)
    requires L.Valid() && oc < OC_BLOCK * L.ocBlocks
    requires forall t :: 0 <= t < |taps| && taps[t].Some? ==> |taps[t].value| == L.cIn
    requires n < |taps| && |taps| * L.cIn == L.kInner && row == RowOfTaps(taps, L.cIn, L.kPadded) && base == n * L.cIn
    ensures base + L.cIn == (n + 1) * L.cIn && base + L.cIn <= L.kInner
    ensures RowSum(L, row, oc, base + L.cIn) - RowSum(L, row, oc, base)
         == Acc(taps, FilterOf(L, oc), L.cIn, n + 1) - Acc(taps, FilterOf(L, oc), L.cIn, n)
  {
    RowEntry(taps, L.cIn, L.kPadded, n, base);
    RowSumTap(L, row, oc, taps, n, base);
  }

  lemma {:induction false} RowSumIsAcc(L: TLayer, row: Vec, oc: nat, taps: seq<Option<Vec>>, n: nat)
    requires L.Valid() && oc < OC_BLOCK * L.ocBlocks
    requires forall t :: 0 <= t < |taps| && taps[t].Some? ==> |taps[t].value| == L.cIn
    requires n <= |taps| && |taps| * L.cIn == L.kInner && row == RowOfTaps(taps, L.cIn, L.kPadded)
    ensures n * L.cIn >= 0 && n * L.cIn <= L.kInner
    ensures RowSum(L, row, oc, n * L.cIn) == Acc(taps, FilterOf(L, oc), L.cIn, n)
  {
    if n > 0 {
      RowSumIsAcc(L, row, oc, taps, n - 1);
      RowSumStep(L, row, oc, taps, n - 1, (n - 1) * L.cIn);
    }
  }

  /** A packed row times the packed weights is the direct convolution, whatever the weights
      hold beyond the filter. */
  lemma PackedRowGivesAcc(L: TLayer, oc: nat, taps: seq<Option<Vec>>)
    requires L.Valid() && oc < OC_BLOCK * L.ocBlocks
    requires forall t :: 0 <= t < |taps| && taps[t].Some? ==> |taps[t].value| == L.cIn
    requires |taps| * L.cIn == L.kInner
    ensures RowSum(L, RowOfTaps(taps, L.cIn, L.kPadded), oc, L.kPadded) == Acc(taps, FilterOf(L, oc), L.cIn, |taps|)
  {
    var row := RowOfTaps(taps, L.cIn, L.kPadded);
    RowSumIsAcc(L, row, oc, taps, |taps|);
    ZerosAddNothing(L, row, oc, L.kInner, L.kPadded);
  }

  /** What the blocked product makes of one packed row. */
  ghost function RowOut(L: TLayer, row: Vec): (v: Vec)
    requires L.Valid() && |row| == L.kPadded
    ensures |v| == OC_BLOCK * L.ocBlocks
  {
    seq<int8>(OC_BLOCK * L.ocBlocks, oc requires 0 <= oc < OC_BLOCK * L.ocBlocks =>
      L.requant(oc, RowSum(L, row, oc, L.kPadded)))
  }

  lemma PackedRowGivesPixel(L: TLayer, taps: seq<Option<Vec>>)
    requires L.Valid() && |taps| * L.cIn == L.kInner
    requires forall t :: 0 <= t < |taps| && taps[t].Some? ==> |taps[t].value| == L.cIn
    ensures RowOut(L, RowOfTaps(taps, L.cIn, L.kPadded)) == OutVec(L, taps)
  {
    forall oc | 0 <= oc < OC_BLOCK * L.ocBlocks
      ensures RowOut(L, RowOfTaps(taps, L.cIn, L.kPadded))[oc] == OutVec(L, taps)[oc]
    {
      PackedRowGivesAcc(L, oc, taps);
    }
  }
}

// The fixed-point decoding of one detect point: the distribution-focal projection of the
// four box sides, the decoded box and the class scores.
module Dfl {
  import opened Buffers
  import opened Fnv

  const REG_MAX := 16
  const CLASSES := 80
  const EXP_LUT_Q12: seq<nat> := [
    554, 712, 914, 1174, 1507, 1935, 2484, 3190,
    4096, 5259, 6753, 8671, 11134, 14296, 18357, 23571,
    30266]
  const SIGMOID_LUT_Q15: seq<nat> := [
    3906, 4851, 5978, 7297, 8812, 10512, 12371, 14346,
    16384, 18421, 20396, 22255, 23955, 25470, 26789, 27916,
    28861]

  function ClippedLutIndex(v: int8): (r: nat)
    ensures r <= 16
    ensures r == v + 8 || (v < -8 && r == 0) || (v > 8 && r == 16)
  {
    var idx: int := v + 8;
    if idx < 0 then 0 else if idx > 16 then 16 else idx
  }

  /** A logit as the table sees it: clipped to -8..8. */
  function Clip(logit: int8): (r: int)
    ensures -8 <= r <= 8
  {
    if logit < -8 then -8 else if logit > 8 then 8 else logit as int
  }

  function Weight(v: int8): (r: nat) {
    EXP_LUT_Q12[ClippedLutIndex(v)]
  }

  lemma WeightRange(v: int8)
    ensures 554 <= Weight(v) <= 30266
  {
  }

  /** A larger logit never weighs less. */
  lemma WeightMono(a: int8, b: int8)
    requires a <= b
    ensures Weight(a) <= Weight(b)
  {
    var i, j := ClippedLutIndex(a), ClippedLutIndex(b);
    assert forall k :: 0 <= k < 16 ==> EXP_LUT_Q12[k] <= EXP_LUT_Q12[k + 1];
    LutMono(i, j);
  }

  lemma {:induction false} LutMono(i: nat, j: nat)
    requires i <= j <= 16
    ensures EXP_LUT_Q12[i] <= EXP_LUT_Q12[j]
    decreases j
  {
    if i < j {
      LutMono(i, j - 1);
    }
  }

  /** The weight is the table's entry for the clipped logit, and grows with it. */
  lemma WeightIs(a: int8, b: int8)
    ensures Weight(a) == EXP_LUT_Q12[Clip(a) + 8]
    ensures Weight(a) < Weight(b) <==> Clip(a) < Clip(b)
  {
    var i, j := ClippedLutIndex(a), ClippedLutIndex(b);
    assert i == Clip(a) + 8 && j == Clip(b) + 8;
    assert forall k :: 0 <= k < 16 ==> EXP_LUT_Q12[k] < EXP_LUT_Q12[k + 1];
    if i < j {
      LutMono(i, j - 1);
    } else {
      LutMono(j, i);
    }
  }

  /** Weights of opposite logits multiply to one, in units of 2^-24, within a thousandth. */
  lemma WeightsOfOpposites(a: int8, b: int8)
    requires Clip(a) == -Clip(b)
    ensures 999 * 0x100_0000 <= 1000 * Weight(a) * Weight(b) <= 1001 * 0x100_0000
  {
    WeightIs(a, b);
    WeightIs(b, a);
    assert forall k :: 0 <= k <= 16 ==>
             999 * 0x100_0000 <= 1000 * EXP_LUT_Q12[k] * EXP_LUT_Q12[16 - k] <= 1001 * 0x100_0000;
    var k := Clip(a) + 8;
    assert Clip(b) + 8 == 16 - k;
  }

  // ---- Sums over the first n bins of one side ----

  ghost function Total(b: Vec, n: nat): nat
    requires n <= |b|
  {
    if n == 0 then 0 else Total(b, n - 1) + Weight(b[n - 1])
  }

  ghost function Weighted(b: Vec, n: nat): nat
    requires n <= |b|
  {
    if n == 0 then 0 else Weighted(b, n - 1) + (n - 1) * Weight(b[n - 1])
  }

  /** r is 256 times the weighted mean bin, rounded to nearest, halves up. */
  ghost predicate NearestQ8(b: Vec, r: nat)
    requires |b| == REG_MAX
  {
    (2 * r - 1) * Total(b, |b|) <= 512 * Weighted(b, |b|) < (2 * r + 1) * Total(b, |b|)
  }

  lemma {:induction false} TotalBounds(b: Vec, n: nat)
    requires n <= |b|
    ensures 554 * n <= Total(b, n) <= 30266 * n
  {
    if n > 0 {
      TotalBounds(b, n - 1);
      WeightRange(b[n - 1]);
    }
  }

  lemma {:induction false} WeightedBound(b: Vec, n: nat)
    requires n <= |b| && n <= 16
    ensures Weighted(b, n) <= 15 * Total(b, n)
  {
    if n > 0 {
      WeightedBound(b, n - 1);
      Scale(n - 1, 15, Weight(b[n - 1]));
    }
  }

  lemma SumBounds(b: Vec, n: nat)
    requires n <= |b| && n <= 16
    ensures 554 * n <= Total(b, n) <= 30266 * n
    ensures Weighted(b, n) <= 15 * Total(b, n) <= 15 * 30266 * n
  {
    TotalBounds(b, n);
    WeightedBound(b, n);
  }

  /** The division is rounding to nearest, and the result stays within bins 0 and 15. */
  lemma RoundedMean(b: Vec)
    requires |b| == REG_MAX
    ensures Total(b, |b|) > 0
    ensures var r := (Weighted(b, |b|) * 256 + Total(b, |b|) / 2) / Total(b, |b|);
            NearestQ8(b, r) && 0 <= r <= 3840
  {
    SumBounds(b, |b|);
    RoundedQuotient(Weighted(b, |b|), Total(b, |b|));
  }

  /** w * 256 / t rounded to nearest, for a mean w / t of at most 15. */
  lemma RoundedQuotient(w: nat, t: nat)
    requires t > 0 && w <= 15 * t
    ensures var r := (w * 256 + t / 2) / t;
            0 <= r <= 3840 && (2 * r - 1) * t <= 512 * w < (2 * r + 1) * t
  {
    var x := w * 256 + t / 2;
    var r := x / t;
    DivBounds(x, t);
    TwiceScaled(r, t);
    QuotientAtMost(x, t, r);
  }

  lemma QuotientAtMost(x: nat, t: nat, r: int)
    requires t > 0 && r * t <= x && x < 3841 * t
    ensures r <= 3840
  {
    if r > 3840 {
      Scale(3841, r, t);
    }
  }

  lemma TwiceScaled(r: int, t: int)
    ensures (2 * r - 1) * t == 2 * (r * t) - t && (2 * r + 1) * t == 2 * (r * t) + t
  {
  }

  lemma DivBounds(x: nat, t: nat)
    requires t > 0
    ensures 0 <= x / t && x / t * t <= x < x / t * t + t
  {
    assert x == x / t * t + x % t;
  }

  /** dfl_project_q8, in uint32_t: nothing wraps, and the result is the rounded mean. */
  method DflProjectQ8(boxRaw: Vec, coord: nat) returns (r: nat)
    requires coord < 4 && |boxRaw| == 4 * REG_MAX
    ensures r <= 3840
    ensures NearestQ8(boxRaw[coord * REG_MAX..coord * REG_MAX + REG_MAX], r)
  {
    var base := coord * REG_MAX;
    ghost var b := boxRaw[base..base + REG_MAX];
    var total, weighted := 0, 0;
    for bin := 0 to REG_MAX
      invariant total == Total(b, bin) && weighted == Weighted(b, bin)
    {
      var weight := Weight(boxRaw[base + bin]);
      SumBounds(b, bin + 1);
      assert b[bin] == boxRaw[base + bin];
      assert total + weight == Total(b, bin + 1) && weighted + bin * weight == Weighted(b, bin + 1);
      total := U32(total + weight);
      weighted := U32(weighted + bin * weight);
    }
    SumBounds(b, |b|);
    RoundedMean(b);
    r := U32(weighted * 256 + total / 2) / total;
  }

  /** NearestQ8 determines its result. */
  lemma NearestUnique(b: Vec, r: nat, s: nat)
    requires |b| == REG_MAX && NearestQ8(b, r) && NearestQ8(b, s)
    ensures r == s
  {
    SumBounds(b, |b|);
    var t := Total(b, |b|);
    if r < s {
      Scale(2 * r + 1, 2 * s - 1, t);
    } else if s < r {
      Scale(2 * s + 1, 2 * r - 1, t);
    }
  }

  /** Equal logits give the middle of the bins, 7.5. */
  lemma FlatLogits(b: Vec, r: nat)
    requires |b| == REG_MAX && (forall i :: 0 <= i < |b| ==> b[i] == b[0]) && NearestQ8(b, r)
    ensures r == 1920
  {
    var w := Weight(b[0]);
    FlatSums(b, |b|);
    var total := 16 * w;
    assert Total(b, |b|) == total && 512 * Weighted(b, |b|) == 3840 * total;
    WeightRange(b[0]);
    if r < 1920 {
      Scale(2 * r + 1, 3839, total);
    } else if r > 1920 {
      Scale(3841, 2 * r - 1, total);
    }
  }

  lemma {:induction false} FlatSums(b: Vec, n: nat)
    requires 0 < n <= |b| && n <= 16 && forall i :: 0 <= i < |b| ==> b[i] == b[0]
    ensures Total(b, n) == n * Weight(b[0]) && 2 * Weighted(b, n) == n * (n - 1) * Weight(b[0])
  {
    var w := Weight(b[0]);
    if n > 1 {
      FlatSums(b, n - 1);
      assert n * w == (n - 1) * w + w;
      NextTriangle(n, w);
    }
  }

  lemma NextTriangle(n: nat, w: nat)
    requires n > 0
    ensures n * (n - 1) * w == (n - 1) * (n - 2) * w + 2 * ((n - 1) * w)
  {
    assert n * (n - 1) == (n - 1) * (n - 2) + 2 * (n - 1);
    assert ((n - 1) * (n - 2) + 2 * (n - 1)) * w == (n - 1) * (n - 2) * w + 2 * (n - 1) * w;
    assert 2 * (n - 1) * w == 2 * ((n - 1) * w);
  }

  lemma {:induction false} SumsAfterRaise(b: Vec, j: nat, v: int8, n: nat)
    requires j < |b| && n <= |b|
    ensures Total(b[j := v], n) == Total(b, n) + if j < n then Weight(v) - Weight(b[j]) else 0
    ensures Weighted(b[j := v], n) == Weighted(b, n) + if j < n then j * (Weight(v) - Weight(b[j])) else 0
  {
    if n > 0 {
      SumsAfterRaise(b, j, v, n - 1);
      Distribute(j, Weight(v), Weight(b[j]));
    }
  }

  lemma Distribute(j: nat, x: nat, y: nat)
    ensures j * x == j * y + j * (x - y)
  {
  }

  /** Raising the logit of bin j pulls the projection towards bin j and never past it. In
      particular bin 15 only pushes it up and bin 0 only down. */
  lemma RaisingPulls(b: Vec, j: nat, v: int8, r: nat, r': nat)
    requires |b| == REG_MAX && j < REG_MAX && b[j] <= v
    requires NearestQ8(b, r) && NearestQ8(b[j := v], r')
    ensures r <= 256 * j ==> r <= r' <= 256 * j
    ensures 256 * j <= r ==> 256 * j <= r' <= r
  {
    WeightMono(b[j], v);
    var d: nat := Weight(v) - Weight(b[j]);
    SumsAfterRaise(b, j, v, |b|);
    SumBounds(b, |b|);
    SumBounds(b[j := v], |b|);
    PullMean(Total(b, |b|), Weighted(b, |b|), d, j, r, r');
  }

  /** The arithmetic of it: weight d added at j to a mean of total t and weighted sum w. */
  lemma PullMean(t: nat, w: nat, d: nat, j: nat, r: nat, r': nat)
    requires t > 0
    requires (2 * r - 1) * t <= 512 * w < (2 * r + 1) * t
    requires (2 * r' - 1) * (t + d) <= 512 * (w + j * d) < (2 * r' + 1) * (t + d)
    ensures r <= 256 * j ==> r <= r' <= 256 * j
    ensures 256 * j <= r ==> 256 * j <= r' <= r
  {
    var c := 256 * j;
    var s, s' := 512 * w, 512 * (w + j * d);
    assert s' == s + (2 * c) * d by {
      assert 512 * (w + j * d) == 512 * w + 512 * (j * d);
      assert (2 * c) * d == 512 * (j * d);
    }
    if r <= c {
      // (2r-1)(t+d) <= s + (2r-1)d <= s'
      if r' < r { Below(t, d, s, s', c, r, r'); }
      if r' > c { Above(t, d, s, s', c, r, r'); }
    }
    if c <= r {
      if r' > r { PastAbove(t, d, s, s', c, r, r'); }
      if r' < c { PastBelow(t, d, s, s', c, r, r'); }
    }
  }

  lemma Scale(a: int, b: int, t: nat)
    requires a <= b
    ensures a * t <= b * t
  {
    assert b * t == a * t + (b - a) * t;
    assert (b - a) * t >= 0;
  }

  lemma Below(t: nat, d: nat, s: int, s': int, c: nat, r: nat, r': nat)
    requires r <= c && r' < r && (2 * r - 1) * t <= s && s' == s + (2 * c) * d
    ensures s' >= (2 * r' + 1) * (t + d)
  {
    Scale(2 * r' + 1, 2 * r - 1, t);
    Scale(2 * r' + 1, 2 * c, d);
    assert (2 * r' + 1) * (t + d) == (2 * r' + 1) * t + (2 * r' + 1) * d;
  }

  lemma Above(t: nat, d: nat, s: int, s': int, c: nat, r: nat, r': nat)
    requires r <= c && c < r' && s < (2 * r + 1) * t && s' == s + (2 * c) * d
    ensures (2 * r' - 1) * (t + d) > s'
  {
    Scale(2 * r + 1, 2 * r' - 1, t);
    Scale(2 * c, 2 * r' - 1, d);
    assert (2 * r' - 1) * (t + d) == (2 * r' - 1) * t + (2 * r' - 1) * d;
  }

  lemma PastAbove(t: nat, d: nat, s: int, s': int, c: nat, r: nat, r': nat)
    requires c <= r && r < r' && s < (2 * r + 1) * t && s' == s + (2 * c) * d
    ensures (2 * r' - 1) * (t + d) > s'
  {
    Scale(2 * r + 1, 2 * r' - 1, t);
    Scale(2 * c, 2 * r' - 1, d);
    assert (2 * r' - 1) * (t + d) == (2 * r' - 1) * t + (2 * r' - 1) * d;
  }

  lemma PastBelow(t: nat, d: nat, s: int, s': int, c: nat, r: nat, r': nat)
    requires c <= r && r' < c && (2 * r - 1) * t <= s && s' == s + (2 * c) * d
    ensures s' >= (2 * r' + 1) * (t + d)
  {
    Scale(2 * r' + 1, 2 * r - 1, t);
    Scale(2 * r' + 1, 2 * c, d);
    assert (2 * r' + 1) * (t + d) == (2 * r' + 1) * t + (2 * r' + 1) * d;
  }

  // ---- Box and classes of one point ----

  /** C's truncating division by two. */
  function Half(v: int): int { if v >= 0 then v / 2 else -((-v) / 2) }

  /** It rounds towards zero. */
  lemma HalfTruncates(v: int)
    ensures v >= 0 ==> 0 <= v - 2 * Half(v) <= 1
    ensures v <= 0 ==> -1 <= v - 2 * Half(v) <= 0
  {
  }

  /** mid is half of sum, rounded towards zero. */
  ghost predicate HalfOf(mid: int, sum: int) {
    (sum >= 0 ==> 0 <= sum - 2 * mid <= 1) && (sum <= 0 ==> -1 <= sum - 2 * mid <= 0)
  }

  datatype Box = Box(cx: int, cy: int, w: int, h: int)

  /** One axis fits the code's int32_t: centre c of the cell and sides of at most 3840, at
      this stride. */
  predicate AxisFits(c: int, stride: nat) { (c + 3840) * stride < 0x4000_0000 }

  /** One axis of the box: the middle of its two edges and its size. */
  method DecodeAxis(c: nat, lo: nat, hi: nat, stride: nat) returns (mid: int, size: int)
    requires 128 <= c && lo <= 3840 && hi <= 3840
    ensures AxisFits(c, stride) ==>
              && 0 <= size == (lo + hi) * stride <= 7680 * stride
              && (c - lo) * stride <= mid <= (c + hi) * stride
              && HalfOf(mid, (2 * c - lo + hi) * stride)
  {
    var a, b := I32((c - lo) * stride), I32((c + hi) * stride);
    mid, size := Half(I32(a + b)), I32(b - a);
    if AxisFits(c, stride) {
      AxisStays(c, lo, hi, stride);
      SideBounds(c, lo, hi, stride);
    }
  }

  /** Nothing wraps on such an axis. */
  lemma AxisStays(c: nat, lo: nat, hi: nat, stride: nat)
    requires lo <= 3840 && hi <= 3840 && AxisFits(c, stride)
    ensures -0x4000_0000 < (c - lo) * stride <= (c + hi) * stride < 0x4000_0000
  {
    Scale(c + hi, c + 3840, stride);
    Scale(-3840, c - lo, stride);
    Scale(3840, c + 3840, stride);
    Scale(c - lo, c + hi, stride);
    assert -3840 * stride == -(3840 * stride);
  }

  /** update_point_outputs, the box: the projections d of left, top, right and bottom
      around the cell centre, in units of stride/256. */
  method DecodeBox(boxRaw: Vec, point: nat, gridW: nat, stride: nat) returns (box: Box, d: seq<nat>)
    requires |boxRaw| == 4 * REG_MAX && gridW > 0
    ensures |d| == 4
    ensures forall i :: 0 <= i < 4 ==> d[i] <= 3840 && NearestQ8(boxRaw[i * REG_MAX..i * REG_MAX + REG_MAX], d[i])
    ensures AxisFits(point % gridW * 256 + 128, stride) ==>
              var x := point % gridW * 256 + 128;
              && 0 <= box.w == (d[0] + d[2]) * stride <= 7680 * stride
              && (x - d[0]) * stride <= box.cx <= (x + d[2]) * stride
              && HalfOf(box.cx, (2 * x - d[0] + d[2]) * stride)
    ensures AxisFits(point / gridW * 256 + 128, stride) ==>
              var y := point / gridW * 256 + 128;
              && 0 <= box.h == (d[1] + d[3]) * stride <= 7680 * stride
              && (y - d[1]) * stride <= box.cy <= (y + d[3]) * stride
              && HalfOf(box.cy, (2 * y - d[1] + d[3]) * stride)
  {
    DivModNat(point, gridW);
    var y, x := point / gridW, point % gridW;
    var left := DflProjectQ8(boxRaw, 0);
    var top := DflProjectQ8(boxRaw, 1);
    var right := DflProjectQ8(boxRaw, 2);
    var bottom := DflProjectQ8(boxRaw, 3);
    d := [left, top, right, bottom];
    var cx, w := DecodeAxis(x * 256 + 128, left, right, stride);
    var cy, h := DecodeAxis(y * 256 + 128, top, bottom, stride);
    box := Box(cx, cy, w, h);
  }

  function BoxValues(box: Box): (v: seq<int>)
    ensures |v| == 4
  {
    [box.cx, box.cy, box.w, box.h]
  }

  /** The same as unsigned words, which is how they are hashed. */
  ghost function Words(v: seq<int>): (r: seq<nat>)
    ensures |r| == |v|
  {
    seq(|v|, i requires 0 <= i < |v| => U32(v[i]))
  }

  lemma HashUpTo(h: Hash, v: seq<nat>, c: nat)
    requires c < |v|
    ensures HashPoints(h, v[..c + 1]) == HashU32(HashPoints(h, v[..c]), v[c])
  {
    PointsGrow(h, v[..c], v[c]);
    assert v[..c] + [v[c]] == v[..c + 1];
  }

  /** update_point_outputs, publishing the box and folding it into the box hash. */
  method PublishBox(box: Box, sampleIdx: nat, boxPublic: array<int>, hash0: Hash) returns (hash: Hash)
    requires sampleIdx * 4 + 4 <= boxPublic.Length
    modifies boxPublic
    ensures boxPublic[..] == Splice(old(boxPublic[..]), sampleIdx * 4, [box.cx, box.cy, box.w, box.h])
    ensures hash == HashPoints(hash0, [U32(box.cx), U32(box.cy), U32(box.w), U32(box.h)])
  {
    var at, v := sampleIdx * 4, BoxValues(box);
    ghost var words := Words(v);
    hash := hash0;
    for c := 0 to 4
      invariant boxPublic[..] == Splice(old(boxPublic[..]), at, v[..c])
      invariant hash == HashPoints(hash0, words[..c])
    {
      SpliceUpTo(old(boxPublic[..]), at, v, c);
      boxPublic[at + c] := v[c];
      HashUpTo(hash0, words, c);
      hash := HashU32(hash, U32(v[c]));
    }
    assert v[..4] == v && words[..4] == words == [U32(box.cx), U32(box.cy), U32(box.w), U32(box.h)];
  }

  lemma SideBounds(c: int, lo: nat, hi: nat, stride: nat)
    requires lo <= 3840 && hi <= 3840
    ensures var (a, b) := ((c - lo) * stride, (c + hi) * stride);
            && 0 <= b - a == (lo + hi) * stride <= 7680 * stride
            && a <= Half(a + b) <= b
            && HalfOf(Half(a + b), (2 * c - lo + hi) * stride)
  {
    var a, b := (c - lo) * stride, (c + hi) * stride;
    assert b - a == (lo + hi) * stride;
    assert a + b == (2 * c - lo + hi) * stride;
    Scale(lo + hi, 7680, stride);
    assert (lo + hi) * stride >= 0;
  }

  function SigmoidQ15(logit: int8): (r: nat)
    ensures 3906 <= r <= 28861
  {
    SIGMOID_LUT_Q15[ClippedLutIndex(logit)]
  }

  lemma {:induction false} SigmoidTableRises(i: nat, j: nat)
    requires i < j <= 16
    ensures SIGMOID_LUT_Q15[i] < SIGMOID_LUT_Q15[j]
    decreases j
  {
    assert forall k :: 0 <= k < 16 ==> SIGMOID_LUT_Q15[k] < SIGMOID_LUT_Q15[k + 1];
    if i < j - 1 {
      SigmoidTableRises(i, j - 1);
    }
    assert SIGMOID_LUT_Q15[j - 1] < SIGMOID_LUT_Q15[j];
  }

  /** Scores are ordered as the clipped logits are. */
  lemma SigmoidRises(a: int8, b: int8)
    ensures SigmoidQ15(a) < SigmoidQ15(b) <==> Clip(a) < Clip(b)
    ensures SigmoidQ15(a) == SigmoidQ15(b) <==> Clip(a) == Clip(b)
  {
    var i, j := ClippedLutIndex(a), ClippedLutIndex(b);
    assert i == Clip(a) + 8 && j == Clip(b) + 8;
    if i < j {
      SigmoidTableRises(i, j);
    } else if j < i {
      SigmoidTableRises(j, i);
    }
  }

  /** Logits of opposite sign have scores that add up to one, in units of 2^-15, up to the
      rounding of one unit; logit 0 scores one half. */
  lemma SigmoidIsSymmetric(i: nat)
    requires i <= 16
    ensures SIGMOID_LUT_Q15[i] + SIGMOID_LUT_Q15[16 - i] == if i == 8 then 32768 else 32767
  {
    assert forall k :: 0 <= k <= 8 ==>
             SIGMOID_LUT_Q15[k] + SIGMOID_LUT_Q15[16 - k] == if k == 8 then 32768 else 32767;
    assert i > 8 ==> SIGMOID_LUT_Q15[16 - i] + SIGMOID_LUT_Q15[16 - (16 - i)] == 32767;
  }

  lemma ScoresOfOpposites(a: int8, b: int8)
    requires Clip(a) == -Clip(b)
    ensures SigmoidQ15(a) + SigmoidQ15(b) == if Clip(a) == 0 then 32768 else 32767
    ensures Clip(a) > 0 ==> SigmoidQ15(a) > 16384
  {
    SigmoidIsSymmetric(ClippedLutIndex(a));
    SigmoidRises(0, a);
  }

  /** The published scores of the classes. */
  ghost function Scores(clsRaw: Vec): (s: seq<nat>)
    ensures |s| == |clsRaw|
  {
    seq(|clsRaw|, c requires 0 <= c < |clsRaw| => SigmoidQ15(clsRaw[c]))
  }

  /** best is the first class of greatest score. */
  ghost predicate IsBestClass(clsRaw: Vec, best: nat) {
    && best < |clsRaw|
    && (forall c :: 0 <= c < |clsRaw| ==> SigmoidQ15(clsRaw[c]) <= SigmoidQ15(clsRaw[best]))
    && (forall c :: 0 <= c < best ==> SigmoidQ15(clsRaw[c]) < SigmoidQ15(clsRaw[best]))
  }

  /** The running maximum over the first n classes. */
  ghost predicate BestSoFar(clsRaw: Vec, n: nat, best: nat, bestScore: nat)
    requires n <= |clsRaw|
  {
    if n == 0 then best == bestScore == 0
    else IsBestClass(clsRaw[..n], best) && bestScore == SigmoidQ15(clsRaw[best])
  }

  lemma BestStep(clsRaw: Vec, n: nat, best: nat, bestScore: nat)
    requires n < |clsRaw| && BestSoFar(clsRaw, n, best, bestScore)
    ensures var score := SigmoidQ15(clsRaw[n]);
            if score > bestScore then BestSoFar(clsRaw, n + 1, n, score) else BestSoFar(clsRaw, n + 1, best, bestScore)
  {
    if n > 0 {
      assert forall c :: 0 <= c < n ==> clsRaw[..n][c] == clsRaw[c];
    }
  }

  /** The same on the logits: best is the first of greatest clipped logit. */
  ghost predicate IsFirstGreatest(clsRaw: Vec, best: nat) {
    && best < |clsRaw|
    && (forall c :: 0 <= c < |clsRaw| ==> Clip(clsRaw[c]) <= Clip(clsRaw[best]))
    && (forall c :: 0 <= c < best ==> Clip(clsRaw[c]) < Clip(clsRaw[best]))
  }

  lemma BestIsFirstGreatest(clsRaw: Vec, best: nat)
    ensures IsBestClass(clsRaw, best) <==> IsFirstGreatest(clsRaw, best)
  {
    if best < |clsRaw| {
      forall c | 0 <= c < |clsRaw|
        ensures SigmoidQ15(clsRaw[c]) <= SigmoidQ15(clsRaw[best]) <==> Clip(clsRaw[c]) <= Clip(clsRaw[best])
        ensures SigmoidQ15(clsRaw[c]) < SigmoidQ15(clsRaw[best]) <==> Clip(clsRaw[c]) < Clip(clsRaw[best])
      {
        SigmoidRises(clsRaw[c], clsRaw[best]);
      }
    }
  }

  lemma PublishedScores(now: seq<nat>, was: seq<nat>, at: nat, clsRaw: Vec)
    requires at + |clsRaw| <= |was| && now == Splice(was, at, Scores(clsRaw))
    ensures forall c :: 0 <= c < |clsRaw| ==> now[at + c] == SIGMOID_LUT_Q15[Clip(clsRaw[c]) + 8]
  {
    forall c | 0 <= c < |clsRaw| ensures now[at + c] == SIGMOID_LUT_Q15[Clip(clsRaw[c]) + 8] {
      assert now[at + c] == Scores(clsRaw)[c];
      assert ClippedLutIndex(clsRaw[c]) == Clip(clsRaw[c]) + 8;
    }
  }

  /** The loop over the classes. */
  method ScoreLoop(clsRaw: Vec, sampleIdx: nat, clsPublic: array<nat>, hash0: Hash) returns (best: nat, hash: Hash)
    requires |clsRaw| == CLASSES && sampleIdx * CLASSES + CLASSES <= clsPublic.Length
    modifies clsPublic
    ensures IsBestClass(clsRaw, best)
    ensures clsPublic[..] == Splice(old(clsPublic[..]), sampleIdx * CLASSES, Scores(clsRaw))
    ensures hash == HashPoints(hash0, Scores(clsRaw))
  {
    var at, bestScore := sampleIdx * CLASSES, 0;
    best, hash := 0, hash0;
    ghost var v := Scores(clsRaw);
    for cls := 0 to CLASSES
      invariant BestSoFar(clsRaw, cls, best, bestScore)
      invariant clsPublic[..] == Splice(old(clsPublic[..]), at, v[..cls])
      invariant hash == HashPoints(hash0, v[..cls])
    {
      BestStep(clsRaw, cls, best, bestScore);
      var score := SigmoidQ15(clsRaw[cls]);
      if score > bestScore {
        bestScore, best := score, cls;
      }
      SpliceUpTo(old(clsPublic[..]), at, v, cls);
      clsPublic[at + cls] := score;
      HashUpTo(hash0, v, cls);
      hash := HashU32(hash, score);
    }
    assert v[..CLASSES] == v && clsRaw[..CLASSES] == clsRaw;
  }

  /** update_point_outputs, the classes: every score is published and hashed, and the best
      class is the first one of greatest score. */
  method ScoreClasses(clsRaw: Vec, sampleIdx: nat, clsPublic: array<nat>, hash0: Hash) returns (best: nat, hash: Hash)
    requires |clsRaw| == CLASSES && sampleIdx * CLASSES + CLASSES <= clsPublic.Length
    modifies clsPublic
    ensures IsBestClass(clsRaw, best) && IsFirstGreatest(clsRaw, best)
    ensures clsPublic[..] == Splice(old(clsPublic[..]), sampleIdx * CLASSES, Scores(clsRaw))
    ensures forall c :: 0 <= c < CLASSES ==>
              clsPublic[sampleIdx * CLASSES + c] == SIGMOID_LUT_Q15[Clip(clsRaw[c]) + 8]
    ensures hash == HashPoints(hash0, Scores(clsRaw))
  {
    best, hash := ScoreLoop(clsRaw, sampleIdx, clsPublic, hash0);
    BestIsFirstGreatest(clsRaw, best);
    PublishedScores(clsPublic[..], old(clsPublic[..]), sampleIdx * CLASSES, clsRaw);
  }
}

// What the detect head sees of a sampled map. Its outputs depend on exactly the inputs within
// distance two, while the sampled map is computed only within distance one of its samples.
module DetectSampled {
  import opened Buffers
  import opened Conv
  import opened C2f
  import opened DetectHead
  import opened C2fSampled
  import opened Needed

  // ---- A head that copies one input value ----

  /** A 3x3 layer whose only weight picks channel k of tap t. */
  function Pick(c: nat, t: nat, k: nat): (L: Layer)
    requires t < 9 && k < c
    ensures L.Is3x3(c, 1)
  {
    Layer(1, c, 3, 3, 1, 1, 9 * c, Unit(9 * c, t * c + k), (oc: nat, acc: int) => ClampI8(acc))
  }

  function Copy(): (L: Layer)
    ensures L.Is1x1(1, 1)
  {
    Layer(1, 1, 1, 1, 0, 0, 1, Unit(1, 0), (oc: nat, acc: int) => ClampI8(acc))
  }

  function Unit(n: nat, j: int): (f: seq<int8>)
    ensures |f| == n
  {
    seq<int8>(n, i => if i == j then 1 else 0)
  }

  lemma {:induction false} DotOfUnit(v: seq<int8>, f: seq<int8>, j: int, base: nat, n: nat)
    requires n <= |v| && base + n <= |f| && f == Unit(|f|, j)
    ensures Dot(v, f, base, n) == if base <= j < base + n then v[j - base] else 0
  {
    if n > 0 {
      DotOfUnit(v, f, j, base, n - 1);
    }
  }

  lemma {:induction false} AccOfUnit(taps: seq<Option<Vec>>, f: seq<int8>, c: nat, t: nat, k: nat, n: nat)
    requires n <= |taps| && TapsFit(taps, c) && |taps| * c <= |f|
    requires t < |taps| && k < c && t * c >= 0 && f == Unit(|f|, t * c + k)
    ensures Acc(taps, f, c, n) == if t < n && taps[t].Some? then taps[t].value[k] else 0
  {
    if n > 0 {
      AccOfUnit(taps, f, c, t, k, n - 1);
      BlockEnd(n - 1, |taps|, c);
      var base := (n - 1) * c;
      if t < n - 1 {
        BlockEnd(t, n - 1, c);
      } else if n - 1 < t {
        BlockEnd(n - 1, t, c);
      }
      if taps[n - 1].Some? {
        DotOfUnit(taps[n - 1].value, f, t * c + k, base, c);
      }
    }
  }

  /** The one value the layer reads off its window. */
  ghost function TapValue(tap: Option<Vec>, k: nat): int8
    requires tap.Some? ==> k < |tap.value|
  {
    if tap.Some? then tap.value[k] else 0
  }

  lemma PickedTap(c: nat, t: nat, k: nat, taps: seq<Option<Vec>>)
    requires t < 9 && k < c && |taps| == 9 && forall i :: 0 <= i < 9 && taps[i].Some? ==> |taps[i].value| == c
    ensures ConvVec(Pick(c, t, k), taps) == [TapValue(taps[t], k)]
  {
    var L := Pick(c, t, k);
    var f := Filter(L, 0);
    assert f == L.w == Unit(9 * c, t * c + k);
    assert t * c >= 0;
    AccOfUnit(taps, f, c, t, k, 9);
  }

  /** Channel k of the input pixel the picked tap falls on. */
  lemma PickedPixel(c: nat, t: nat, k: nat, m: seq<Vec>, h: nat, w: nat, y: int, x: int)
    requires t < 9 && k < c && IsMap(m, h, w, c)
    ensures var tap := PixelAt(m, h, w, y + t / 3 - 1, x + t % 3 - 1);
            (tap.Some? ==> |tap.value| == c) && ConvAt(Pick(c, t, k), m, h, w, y, x) == [TapValue(tap, k)]
  {
    var L := Pick(c, t, k);
    var taps := Window(L, m, h, w, y, x);
    WindowSizes(L, m, h, w, y, x);
    PickedTap(c, t, k, taps);
  }

  lemma WindowSizes(L: Layer, m: seq<Vec>, h: nat, w: nat, y: int, x: int)
    requires L.Is3x3(L.cIn, L.kOut) && IsMap(m, h, w, L.cIn)
    ensures var taps := Window(L, m, h, w, y, x); |taps| == 9 && TapsFit(taps, L.cIn)
    ensures forall t :: 0 <= t < 9 && Window(L, m, h, w, y, x)[t].Some? ==> |Window(L, m, h, w, y, x)[t].value| == L.cIn
    ensures forall t :: 0 <= t < 9 ==> Window(L, m, h, w, y, x)[t] == PixelAt(m, h, w, y + t / 3 - 1, x + t % 3 - 1)
  {
    WindowFits(L, m, h, w, y, x);
    forall t | 0 <= t < 9 && Window(L, m, h, w, y, x)[t].Some? ensures |Window(L, m, h, w, y, x)[t].value| == L.cIn {
      PixelSize(m, h, w, L.cIn, y + t / 3 - 1, x + t % 3 - 1);
    }
  }

  /** A head that reads channel k two steps away: tap t1 of the pixel at tap t2. */
  ghost function PickHead(c: nat, t1: nat, t2: nat, k: nat): (hd: Head)
    requires t1 < 9 && t2 < 9 && k < c
    ensures hd.Valid() && hd.inC == c
  {
    Head(Pick(c, t1, k), Pick(1, t2, 0), Copy(), c, 1, 1)
  }

  lemma CopyVec(v: Vec)
    requires |v| == 1
    ensures ConvVec(Copy(), [Some(v)]) == v
  {
    var taps := [Some(v)];
    var f := Filter(Copy(), 0);
    assert f == Unit(1, 0);
    AccOfUnit(taps, f, 1, 0, 0, 1);
  }

  /** A step of one on both axes is a tap. */
  function TapOf(dy: int, dx: int): (t: nat)
    requires -1 <= dy <= 1 && -1 <= dx <= 1
    ensures t < 9 && t / 3 - 1 == dy && t % 3 - 1 == dx
  {
    (dy + 1) * 3 + dx + 1
  }

  /** What the second layer of a picking head is given. */
  lemma FirstReads(m: seq<Vec>, h: nat, w: nat, c: nat, y: nat, x: nat, k: nat, my: nat, mx: nat, t: nat, v: Vec)
    requires IsMap(m, h, w, c) && k < c && y < h && x < w && my < h && mx < w
    requires t < 9 && t / 3 - 1 == y - my && t % 3 - 1 == x - mx && PixelAt(m, h, w, y, x) == Some(v)
    ensures |v| == c && PixelAt(DenseConv(Pick(c, t, k), m, h, w), h, w, my, mx) == Some([v[k]])
  {
    PickedPixel(c, t, k, m, h, w, my, mx);
    DenseAt(Pick(c, t, k), m, h, w, my, mx);
  }

  /** The taps that lead from the point at (py, px) to the one at (y, x) in two steps. */
  ghost function HeadFor(c: nat, py: nat, px: nat, y: nat, x: nat, k: nat): (hd: Head)
    requires k < c && py - 2 <= y <= py + 2 && px - 2 <= x <= px + 2
    ensures hd.Valid() && hd.inC == c
  {
    var (my, mx) := (Toward(py, y, 1), Toward(px, x, 1));
    PickHead(c, TapOf(y - my, x - mx), TapOf(my - py, mx - px), k)
  }

  /** Every value within distance two of a point is the whole output of some head there. */
  lemma HeadCanRead(m: seq<Vec>, h: nat, w: nat, c: nat, py: nat, px: nat, p: nat, y: nat, x: nat, k: nat, v: Vec)
    requires IsMap(m, h, w, c) && py < h && px < w && p == py * w + px && k < c && p < h * w
    requires y < h && x < w && py - 2 <= y <= py + 2 && px - 2 <= x <= px + 2
    requires PixelAt(m, h, w, y, x) == Some(v)
    ensures |v| == c && HeadAt(HeadFor(c, py, px, y, x, k), m, h, w, p) == [v[k]]
  {
    var (my, mx) := (Toward(py, y, 1), Toward(px, x, 1));
    var (t1, t2) := (TapOf(y - my, x - mx), TapOf(my - py, mx - px));
    FirstReads(m, h, w, c, y, x, k, my, mx, t1, v);
    var a := DenseConv(Pick(c, t1, k), m, h, w);
    FirstReads(a, h, w, 1, my, mx, 0, py, px, t2, [v[k]]);
    LastReads(Pick(c, t1, k), Pick(1, t2, 0), m, h, w, c, py, px, p, [v[k]]);
  }

  lemma LastReads(first: Layer, second: Layer, m: seq<Vec>, h: nat, w: nat, c: nat, py: nat, px: nat, p: nat, v: Vec)
    requires IsMap(m, h, w, c) && py < h && px < w && p == py * w + px && p < h * w && |v| == 1
    requires first.Is3x3(c, 1) && second.Is3x3(1, 1)
    requires PixelAt(DenseConv(second, DenseConv(first, m, h, w), h, w), h, w, py, px) == Some(v)
    ensures HeadAt(Head(first, second, Copy(), c, 1, 1), m, h, w, p) == v
  {
    CopyVec(v);
  }

  // ---- Exactly which inputs matter ----

  /** Every head on c channels gives the same output at p on both maps. */
  ghost predicate HeadsAgree(m: seq<Vec>, m': seq<Vec>, h: nat, w: nat, c: nat, p: nat)
    requires IsMap(m, h, w, c) && IsMap(m', h, w, c) && p < h * w
  {
    forall hd: Head :: hd.Valid() && hd.inC == c ==> HeadAt(hd, m, h, w, p) == HeadAt(hd, m', h, w, p)
  }

  /** The receptive field of the head is the clipped square of radius two: all heads agree
      on two maps if and only if the maps agree there. */
  lemma ReceptiveField(m: seq<Vec>, m': seq<Vec>, h: nat, w: nat, c: nat, p: nat)
    requires IsMap(m, h, w, c) && IsMap(m', h, w, c) && p < h * w && w > 0
    ensures HeadsAgree(m, m', h, w, c, p) <==> AgreeNear(m, m', h, w, p / w, p % w, 2)
  {
    PointSplit(p, h, w);
    if AgreeNear(m, m', h, w, p / w, p % w, 2) {
      forall hd: Head | hd.Valid() && hd.inC == c ensures HeadAt(hd, m, h, w, p) == HeadAt(hd, m', h, w, p) {
        HeadIsLocal(hd, m, m', h, w, p);
      }
    }
    if HeadsAgree(m, m', h, w, c, p) {
      forall y, x | p / w - 2 <= y <= p / w + 2 && p % w - 2 <= x <= p % w + 2 ensures SamePixel(m, m', h, w, y, x) {
        if 0 <= y < h && 0 <= x < w {
          AgreedPixel(m, m', h, w, c, p / w, p % w, p, y, x);
        }
      }
    }
  }

  lemma AgreedPixel(m: seq<Vec>, m': seq<Vec>, h: nat, w: nat, c: nat, py: nat, px: nat, p: nat, y: nat, x: nat)
    requires IsMap(m, h, w, c) && IsMap(m', h, w, c) && py < h && px < w && p == py * w + px && p < h * w
    requires HeadsAgree(m, m', h, w, c, p)
    requires y < h && x < w && py - 2 <= y <= py + 2 && px - 2 <= x <= px + 2
    ensures SamePixel(m, m', h, w, y, x)
  {
    PointInRange(y, x, h, w);
    var a, b := PixelAt(m, h, w, y, x).value, PixelAt(m', h, w, y, x).value;
    forall k | 0 <= k < c ensures a[k] == b[k] {
      HeadCanRead(m, h, w, c, py, px, p, y, x, k, a);
      HeadCanRead(m', h, w, c, py, px, p, y, x, k, b);
      assert HeadAt(HeadFor(c, py, px, y, x, k), m, h, w, p) == HeadAt(HeadFor(c, py, px, y, x, k), m', h, w, p);
    }
    assert a == b;
  }

  // ---- The sampled map ----

  /** The inputs the head reads at p that the sampled run has not computed still equal the
      dense ones. */
  ghost predicate Covered(dense: seq<Vec>, h: nat, w: nat, c: nat, points: seq<nat>, p: nat)
    requires IsMap(dense, h, w, c) && w > 0
  {
    forall q: nat :: q < h * w && WithinTwo(w, p, q) ==> q in points || dense[q] == SentinelMap(h, w, c)[q]
  }

  ghost predicate WithinTwo(w: nat, p: nat, q: nat)
    requires w > 0
  {
    -2 <= q / w - p / w <= 2 && -2 <= q % w - p % w <= 2
  }

  /** Detection at p on the sampled map equals detection on the dense map, for all heads, if
      and only if the points within distance two of p have been computed or hold the
      sentinel by chance. */
  lemma DetectOnSampled(dense: seq<Vec>, h: nat, w: nat, c: nat, points: seq<nat>, p: nat)
    requires IsMap(dense, h, w, c) && w > 0 && p < h * w
    ensures HeadsAgree(Painted(dense, SentinelMap(h, w, c), points), dense, h, w, c, p)
            <==> Covered(dense, h, w, c, points, p)
  {
    var sampled := Painted(dense, SentinelMap(h, w, c), points);
    ReceptiveField(sampled, dense, h, w, c, p);
    if AgreeNear(sampled, dense, h, w, p / w, p % w, 2) {
      forall q: nat | q < h * w && WithinTwo(w, p, q) ensures q in points || dense[q] == SentinelMap(h, w, c)[q] {
        PointSplit(q, h, w);
        assert SamePixel(sampled, dense, h, w, q / w, q % w);
      }
    }
    if Covered(dense, h, w, c, points, p) {
      forall y, x | p / w - 2 <= y <= p / w + 2 && p % w - 2 <= x <= p % w + 2
        ensures SamePixel(sampled, dense, h, w, y, x)
      {
        if 0 <= y < h && 0 <= x < w {
          PointInRange(y, x, h, w);
          assert WithinTwo(w, p, y * w + x);
        }
      }
    }
  }

  /** The points the sampled run computes for one sample leave out the ring at distance two,
      so there detection at the sample needs luck as soon as the ring meets the image. */
  lemma RingIsNotComputed(h: nat, w: nat, p: nat, q: nat)
    requires w > 0 && p < h * w && q < h * w && WithinTwo(w, p, q)
    ensures q in NeededPoints([p], h, w, 1) <==> -1 <= q / w - p / w <= 1 && -1 <= q % w - p % w <= 1
  {
    NeededPointsExact([p], h, w, 1);
    assert Near(h, w, q, [p][0]) <==> -1 <= q / w - p / w <= 1 && -1 <= q % w - p % w <= 1;
  }

  // ---- Which samples suffice ----

  ghost predicate NearSome(h: nat, w: nat, samples: seq<nat>, q: nat)
    requires w > 0
  {
    exists i :: 0 <= i < |samples| && Near(h, w, q, samples[i])
  }

  /** Every image point within distance two of p lies within distance one of a sample. */
  ghost predicate SamplesCover(h: nat, w: nat, samples: seq<nat>, p: nat)
    requires w > 0
  {
    forall q: nat :: q < h * w && WithinTwo(w, p, q) ==> NearSome(h, w, samples, q)
  }

  /** On this network and input every head detects at p on the sampled map what it detects on
      the dense map. */
  ghost predicate DetectsAlike(net: Net, m: seq<Vec>, h: nat, w: nat, samples: seq<nat>, p: nat)
    requires net.Valid() && IsMap(m, h, w, net.inC) && w > 0 && p < h * w
  {
    var dense := DenseC2f(net, m, h, w);
    HeadsAgree(Painted(dense, SentinelMap(h, w, net.outC), NeededPoints(samples, h, w, |samples|)), dense, h, w,
          net.outC, p)
  }

  ghost predicate HasChannels(net: Net, inC: nat, hidden: nat, c: nat) {
    net.Valid() && net.inC == inC && net.hidden == hidden && net.outC == c
  }

  /** The same for all networks of the given channel counts and all inputs. */
  ghost predicate AlwaysAlike(h: nat, w: nat, samples: seq<nat>, p: nat, inC: nat, hidden: nat, c: nat)
    requires w > 0 && p < h * w
  {
    forall net: Net, m: seq<Vec> :: HasChannels(net, inC, hidden, c) && IsMap(m, h, w, inC) ==>
      DetectsAlike(net, m, h, w, samples, p)
  }

  function FlatLayer(cIn: nat, kOut: nat, side: nat, v: int8): (L: Layer)
    requires side > 0
    ensures L.Valid()
  {
    var size := side * side * cIn;
    var pad := if side == 3 then 1 else 0;
    Layer(kOut, cIn, side, side, pad, pad, size, seq<int8>(kOut * size, _ => 0), (oc: nat, acc: int) => v)
  }

  /** A network that answers v everywhere. */
  function FlatNet(inC: nat, hidden: nat, c: nat, v: int8): (net: Net)
    ensures net.Valid() && net.inC == inC && net.hidden == hidden && net.outC == c
  {
    Net(FlatLayer(inC, 2 * hidden, 1, v), FlatLayer(hidden, hidden, 3, v), FlatLayer(hidden, hidden, 3, v),
        FlatLayer(3 * hidden, c, 1, v), inC, hidden, c)
  }

  lemma FlatNetIsFlat(inC: nat, hidden: nat, c: nat, v: int8, m: seq<Vec>, h: nat, w: nat, q: nat)
    requires IsMap(m, h, w, inC) && q < h * w
    ensures DenseC2f(FlatNet(inC, hidden, c, v), m, h, w)[q] == seq<int8>(c, _ => v)
  {
  }

  /** Detection at p on the sampled map agrees with detection on the dense map, for all
      networks, inputs and heads, if and only if the samples cover the square around p. */
  lemma DetectExactly(h: nat, w: nat, samples: seq<nat>, p: nat, inC: nat, hidden: nat, c: nat)
    requires w > 0 && p < h * w && c > 0
    ensures AlwaysAlike(h, w, samples, p, inC, hidden, c) <==> SamplesCover(h, w, samples, p)
  {
    var points := NeededPoints(samples, h, w, |samples|);
    NeededPointsExact(samples, h, w, |samples|);
    assert forall q: nat :: q in points <==> NearSome(h, w, samples, q);
    if SamplesCover(h, w, samples, p) {
      forall net: Net, m: seq<Vec> | HasChannels(net, inC, hidden, c) && IsMap(m, h, w, inC)
        ensures DetectsAlike(net, m, h, w, samples, p)
      {
        DetectOnSampled(DenseC2f(net, m, h, w), h, w, c, points, p);
      }
    } else {
      var q: nat :| q < h * w && WithinTwo(w, p, q) && !NearSome(h, w, samples, q);
      DetectDiffers(h, w, samples, p, q, inC, hidden, c);
    }
  }

  /** A point of the square that no sample covers: some network shows the difference. */
  lemma DetectDiffers(h: nat, w: nat, samples: seq<nat>, p: nat, q: nat, inC: nat, hidden: nat, c: nat)
    requires w > 0 && p < h * w && c > 0 && q < h * w && WithinTwo(w, p, q) && !NearSome(h, w, samples, q)
    ensures !AlwaysAlike(h, w, samples, p, inC, hidden, c)
  {
    var points := NeededPoints(samples, h, w, |samples|);
    NeededPointsExact(samples, h, w, |samples|);
    assert q !in points;
    var v: int8 := if SentinelMap(h, w, c)[q][0] == 0 then 1 else 0;
    var net, m := FlatNet(inC, hidden, c, v), seq(h * w, _ => seq<int8>(inC, _ => 0));
    FlatNetIsFlat(inC, hidden, c, v, m, h, w, q);
    var dense := DenseC2f(net, m, h, w);
    DetectOnSampled(dense, h, w, c, points, p);
    assert dense[q][0] == v != SentinelMap(h, w, c)[q][0];
    assert !DetectsAlike(net, m, h, w, samples, p);
  }

  const SHIPPED_SIDE: nat := 80
  const SHIPPED_SAMPLES: seq<nat> := [0, 1, 79, 80, 1234, 3200, 6321, 6399]

  /** With the shipped sample points detection differs, for some network, at every sample. */
  lemma ShippedSamplesDiffer(i: nat, inC: nat, hidden: nat, c: nat)
    requires i < |SHIPPED_SAMPLES| && c > 0
    ensures !AlwaysAlike(SHIPPED_SIDE, SHIPPED_SIDE, SHIPPED_SAMPLES, SHIPPED_SAMPLES[i], inC, hidden, c)
  {
    var corners := [162, 163, 237, 242, 1396, 3362, 6163, 6237];
    var p, q := SHIPPED_SAMPLES[i], corners[i];
    assert WithinTwo(SHIPPED_SIDE, p, q);
    forall j | 0 <= j < |SHIPPED_SAMPLES| ensures !Near(SHIPPED_SIDE, SHIPPED_SIDE, q, SHIPPED_SAMPLES[j]) {
    }
    DetectDiffers(SHIPPED_SIDE, SHIPPED_SIDE, SHIPPED_SAMPLES, p, q, inC, hidden, c);
  }
}

// The dense run of the C2f block: four passes over all points through whole-map buffers.
module C2fDense {
  import opened Buffers
  import opened Conv
  import opened C2f
  import opened Fnv
  import opened C2fSampled

  /** The nine pixels around (cy, cx), nothing where the map ends. */
  ghost function MapPatch(m: seq<Vec>, h: nat, w: nat, cy: nat, cx: nat): (r: seq<Option<Vec>>)
    requires |m| == h * w
    ensures |r| == 9
  {
    seq(9, i requires 0 <= i < 9 => PixelAt(m, h, w, cy + i / 3 - 1, cx + i % 3 - 1))
  }

  lemma MapPatchFits(m: seq<Vec>, h: nat, w: nat, c: nat, cy: nat, cx: nat)
    requires IsMap(m, h, w, c)
    ensures TapsFit(MapPatch(m, h, w, cy, cx), c)
  {
    forall i | 0 <= i < 9 && MapPatch(m, h, w, cy, cx)[i].Some?
      ensures c <= |MapPatch(m, h, w, cy, cx)[i].value|
    {
      PointInRange(cy + i / 3 - 1, cx + i % 3 - 1, h, w);
    }
  }

  /** A 3x3 layer centred on that patch reads the window of the map. */
  lemma MapPatchIsWindow(L: Layer, m: seq<Vec>, h: nat, w: nat, c: nat, cy: nat, cx: nat)
    requires L.Is3x3(c, c) && IsMap(m, h, w, c)
    ensures TapsFit(MapPatch(m, h, w, cy, cx), c)
    ensures PatchWindow(L, MapPatch(m, h, w, cy, cx), 3, 1, 1) == Window(L, m, h, w, cy, cx)
  {
    MapPatchFits(m, h, w, c, cy, cx);
    var p := MapPatch(m, h, w, cy, cx);
    forall t | 0 <= t < 9
      ensures PatchWindow(L, p, 3, 1, 1)[t] == Window(L, m, h, w, cy, cx)[t]
    {
      var ky, kx := t / 3, t % 3;
      assert PatchTap(L, p, 3, 1, 1, ky, kx) == p[ky * 3 + kx];
    }
  }

  lemma PatchGivesDense(L: Layer, m: seq<Vec>, h: nat, w: nat, c: nat, point: nat)
    requires L.Is3x3(c, c) && IsMap(m, h, w, c) && point < h * w
    ensures w > 0 && 0 <= point / w && 0 <= point % w && TapsFit(MapPatch(m, h, w, point / w, point % w), c)
    ensures ConvVec(L, PatchWindow(L, MapPatch(m, h, w, point / w, point % w), 3, 1, 1)) == DenseConv(L, m, h, w)[point]
  {
    PointSplit(point, h, w);
    MapPatchIsWindow(L, m, h, w, c, point / w, point % w);
  }

  class Scratch {
    const hidden: nat
    const points: nat
    const chunk0Map: array<int8>
    const chunk1Map: array<int8>
    const b0Cv1Map: array<int8>
    const bottleneckMap: array<int8>
    const cv1Tmp: array<int8>
    const conv0Patch3: array<int8>
    const conv1Out: array<int8>
    const cat: array<int8>
    const patch3Valid: array<bool>

    ghost function Bytes(): set<array<int8>> {
      {chunk0Map, chunk1Map, b0Cv1Map, bottleneckMap, cv1Tmp, conv0Patch3, conv1Out, cat}
    }

    ghost predicate Valid() {
      && chunk0Map.Length == points * hidden && chunk1Map.Length == points * hidden
      && b0Cv1Map.Length == points * hidden && bottleneckMap.Length == points * hidden
      && cv1Tmp.Length == 2 * hidden && conv0Patch3.Length == 9 * hidden
      && conv1Out.Length == hidden && cat.Length == 3 * hidden && patch3Valid.Length == 9
      && chunk0Map !in {chunk1Map, b0Cv1Map, bottleneckMap, cv1Tmp, conv0Patch3, conv1Out, cat}
      && chunk1Map !in {b0Cv1Map, bottleneckMap, cv1Tmp, conv0Patch3, conv1Out, cat}
      && b0Cv1Map !in {bottleneckMap, cv1Tmp, conv0Patch3, conv1Out, cat}
      && bottleneckMap !in {cv1Tmp, conv0Patch3, conv1Out, cat}
      && cv1Tmp !in {conv0Patch3, conv1Out, cat}
      && conv0Patch3 !in {conv1Out, cat}
      && conv1Out != cat
    }

    constructor (hidden: nat, points: nat)
      ensures Valid() && this.hidden == hidden && this.points == points
      ensures fresh(Bytes()) && fresh(patch3Valid)
    {
      this.hidden, this.points := hidden, points;
      chunk0Map := new int8[points * hidden];
      chunk1Map := new int8[points * hidden];
      b0Cv1Map := new int8[points * hidden];
      bottleneckMap := new int8[points * hidden];
      cv1Tmp := new int8[2 * hidden];
      conv0Patch3 := new int8[9 * hidden];
      conv1Out := new int8[hidden];
      cat := new int8[3 * hidden];
      patch3Valid := new bool[9];
    }

    /** fill_map_patch3 copies one in-map pixel to patch entry i. */
    method CopyPatchPixel(src: Vec, i: nat, ghost f: seq<Option<Vec>>)
      requires Valid() && |src| == hidden && i < 9 && |f| == 9 && f[i] == Some(src)
      requires PatchHolds(conv0Patch3[..], patch3Valid[..], hidden, f, i)
      modifies conv0Patch3, patch3Valid
      ensures PatchHolds(conv0Patch3[..], patch3Valid[..], hidden, f, i + 1)
    {
      BlockEnd(i, 9, hidden);
      CopyBytes(conv0Patch3, i * hidden, src);
      PatchSet(old(conv0Patch3[..]), old(patch3Valid[..]), hidden, f, i, src);
      patch3Valid[i] := true;
      assert patch3Valid[..] == old(patch3Valid[..])[i := true];
    }

    /** One (y, x) of fill_map_patch3: pixels off the map leave their flag clear. */
    method FillMapPatchStep(src: Vec, h: nat, w: nat, y: int, x: int, i: nat, ghost m: seq<Vec>,
                            ghost f: seq<Option<Vec>>)
      requires Valid() && IsMap(m, h, w, hidden) && Holds(src, hidden, m, h * w)
      requires i < 9 && |f| == 9 && f[i] == PixelAt(m, h, w, y, x)
      requires PatchHolds(conv0Patch3[..], patch3Valid[..], hidden, f, i)
      modifies conv0Patch3, patch3Valid
      ensures PatchHolds(conv0Patch3[..], patch3Valid[..], hidden, f, i + 1)
    {
      if y < 0 || y >= h || x < 0 || x >= w {
        return;
      }
      PointInRange(y, x, h, w);
      var p := y * w + x;
      HoldsAt(src, hidden, m, h * w, p);
      BlockEnd(p, h * w, hidden);
      var base := p * hidden;
      CopyPatchPixel(src[base..base + hidden], i, f);
    }

    method FillMapPatch3(src: Vec, h: nat, w: nat, cy: nat, cx: nat, ghost m: seq<Vec>)
      requires Valid() && IsMap(m, h, w, hidden) && Holds(src, hidden, m, h * w)
      modifies conv0Patch3, patch3Valid
      ensures PatchOf(conv0Patch3[..], patch3Valid[..], hidden) == MapPatch(m, h, w, cy, cx)
    {
      ghost var f := MapPatch(m, h, w, cy, cx);
      for i := 0 to 9
        invariant forall k :: 0 <= k < i ==> !patch3Valid[k]
      {
        patch3Valid[i] := false;
      }
      for dy := -1 to 2
        invariant PatchHolds(conv0Patch3[..], patch3Valid[..], hidden, f, (dy + 1) * 3)
      {
        for dx := -1 to 2
          invariant PatchHolds(conv0Patch3[..], patch3Valid[..], hidden, f, (dy + 1) * 3 + dx + 1)
        {
          var patchIdx := (dy + 1) * 3 + (dx + 1);
          assert f[patchIdx] == PixelAt(m, h, w, cy + dy, cx + dx);
          FillMapPatchStep(src, h, w, cy + dy, cx + dx, patchIdx, m, f);
        }
      }
      PatchComplete(conv0Patch3[..], patch3Valid[..], hidden, f);
    }

    /** First pass: the two halves of cv1_tmp go to the two chunk maps. */
    method SplitChunks(base: nat)
      requires Valid() && base + hidden <= points * hidden
      modifies chunk0Map, chunk1Map
      ensures chunk0Map[..] == Splice(old(chunk0Map[..]), base, cv1Tmp[..hidden])
      ensures chunk1Map[..] == Splice(old(chunk1Map[..]), base, cv1Tmp[hidden..])
    {
      ghost var v0, v1 := cv1Tmp[..hidden], cv1Tmp[hidden..];
      for c := 0 to hidden
        invariant chunk0Map[..] == Splice(old(chunk0Map[..]), base, v0[..c])
        invariant chunk1Map[..] == Splice(old(chunk1Map[..]), base, v1[..c])
      {
        SpliceExtend(old(chunk0Map[..]), base, v0[..c], v0[c]);
        SpliceExtend(old(chunk1Map[..]), base, v1[..c], v1[c]);
        chunk0Map[base + c] := cv1Tmp[c];
        chunk1Map[base + c] := cv1Tmp[hidden + c];
        assert v0[..c] + [v0[c]] == v0[..c + 1];
        assert v1[..c] + [v1[c]] == v1[..c + 1];
      }
      assert v0[..hidden] == v0 && v1[..hidden] == v1;
    }

    /** First pass, one point. */
    method Pass1Point(net: Net, px: Vec, point: nat, ghost m0: seq<Vec>, ghost m1: seq<Vec>)
      requires Valid() && net.Valid() && net.hidden == hidden && |px| == net.inC
      requires point < points && |m0| == |m1| == points
      requires m0[point] == Cv1(net, px)[..hidden] && m1[point] == Cv1(net, px)[hidden..]
      requires Holds(chunk0Map[..], hidden, m0, point) && Holds(chunk1Map[..], hidden, m1, point)
      modifies cv1Tmp, chunk0Map, chunk1Map
      ensures Holds(chunk0Map[..], hidden, m0, point + 1) && Holds(chunk1Map[..], hidden, m1, point + 1)
    {
      Conv1x1Vec(net.cv1, px, cv1Tmp, 0);
      assert cv1Tmp[..] == Cv1(net, px);
      BlockEnd(point, points, hidden);
      HoldsExtend(chunk0Map[..], hidden, m0, point);
      HoldsExtend(chunk1Map[..], hidden, m1, point);
      SplitChunks(point * hidden);
    }

    /** First pass, one point of the input. */
    method Pass1Next(net: Net, input: Vec, h: nat, w: nat, point: nat, ghost m: seq<Vec>)
      requires Valid() && net.Valid() && net.hidden == hidden && points == h * w && point < points
      requires IsMap(m, h, w, net.inC) && Holds(input, net.inC, m, h * w)
      requires Holds(chunk0Map[..], hidden, Chunk0Map(net, m, h, w), point)
      requires Holds(chunk1Map[..], hidden, Chunk1Map(net, m, h, w), point)
      modifies cv1Tmp, chunk0Map, chunk1Map
      ensures Holds(chunk0Map[..], hidden, Chunk0Map(net, m, h, w), point + 1)
      ensures Holds(chunk1Map[..], hidden, Chunk1Map(net, m, h, w), point + 1)
    {
      PointSplit(point, h, w);
      var y, x := point / w, point % w;
      var p := y * w + x;
      HoldsAt(input, net.inC, m, h * w, p);
      BlockEnd(p, h * w, net.inC);
      var inBase := p * net.inC;
      Pass1Point(net, input[inBase..inBase + net.inC], point, Chunk0Map(net, m, h, w), Chunk1Map(net, m, h, w));
    }

    method Pass1(net: Net, input: Vec, h: nat, w: nat)
      requires Valid() && net.Valid() && net.hidden == hidden && points == h * w
      requires h * w * net.inC <= |input|
      modifies cv1Tmp, chunk0Map, chunk1Map
      ensures Holds(chunk0Map[..], hidden, Chunk0Map(net, Pixels(input, net.inC, h * w), h, w), h * w)
      ensures Holds(chunk1Map[..], hidden, Chunk1Map(net, Pixels(input, net.inC, h * w), h, w), h * w)
    {
      ghost var m := Pixels(input, net.inC, h * w);
      for point := 0 to points
        invariant Holds(chunk0Map[..], hidden, Chunk0Map(net, m, h, w), point)
        invariant Holds(chunk1Map[..], hidden, Chunk1Map(net, m, h, w), point)
      {
        Pass1Next(net, input, h, w, point, m);
      }
    }

    /** Second and third pass, the convolution at one point of a held map. */
    method ConvPoint(L: Layer, src: Vec, h: nat, w: nat, point: nat, out: array<int8>, off: nat, ghost m: seq<Vec>)
      requires Valid() && L.Is3x3(hidden, hidden) && point < h * w
      requires IsMap(m, h, w, hidden) && Holds(src, hidden, m, h * w)
      requires out != conv0Patch3 && off + hidden <= out.Length
      modifies conv0Patch3, patch3Valid, out
      ensures out[..] == Splice(old(out[..]), off, DenseConv(L, m, h, w)[point])
    {
      PatchGivesDense(L, m, h, w, hidden, point);
      FillMapPatch3(src, h, w, point / w, point % w, m);
      ConvFromPatch(L, conv0Patch3[..], 3, hidden, patch3Valid[..], 1, 1, out, off);
    }

    method Pass2(net: Net, h: nat, w: nat, ghost m: seq<Vec>)
      requires Valid() && net.Valid() && net.hidden == hidden && points == h * w && IsMap(m, h, w, net.inC)
      requires Holds(chunk1Map[..], hidden, Chunk1Map(net, m, h, w), h * w)
      modifies conv0Patch3, patch3Valid, b0Cv1Map
      ensures Holds(b0Cv1Map[..], hidden, B0Map(net, m, h, w), h * w)
    {
      ghost var r := B0Map(net, m, h, w);
      for point := 0 to points
        invariant Holds(b0Cv1Map[..], hidden, r, point)
      {
        BlockEnd(point, points, hidden);
        HoldsExtend(b0Cv1Map[..], hidden, r, point);
        ConvPoint(net.b0cv1, chunk1Map[..], h, w, point, b0Cv1Map, point * hidden, Chunk1Map(net, m, h, w));
      }
    }

    /** The residual addition at one point. */
    method AddResidual(base: nat, ghost a: Vec, ghost b: Vec)
      requires Valid() && |a| == |b| == hidden
      requires base + hidden <= chunk1Map.Length && base + hidden <= bottleneckMap.Length
      requires conv1Out[..] == a && chunk1Map[base..base + hidden] == b
      modifies bottleneckMap
      ensures bottleneckMap[..] == Splice(old(bottleneckMap[..]), base, AddClamped(a, b))
    {
      ghost var v := AddClamped(a, b);
      for c := 0 to hidden
        invariant bottleneckMap[..] == Splice(old(bottleneckMap[..]), base, v[..c])
      {
        assert conv1Out[c] == a[c] && chunk1Map[base + c] == chunk1Map[base..base + hidden][c] == b[c];
        SpliceUpTo(old(bottleneckMap[..]), base, v, c);
        bottleneckMap[base + c] := ClampI8(conv1Out[c] as int + chunk1Map[base + c] as int);
      }
      assert v[..hidden] == v;
    }

    /** Third pass, one point. */
    method Pass3Point(L: Layer, h: nat, w: nat, point: nat, base: nat, ghost b0: seq<Vec>, ghost chunk1: seq<Vec>)
      requires Valid() && L.Is3x3(hidden, hidden) && points == h * w && point < points && base == point * hidden
      requires IsMap(b0, h, w, hidden) && Holds(b0Cv1Map[..], hidden, b0, h * w)
      requires IsMap(chunk1, h, w, hidden) && Holds(chunk1Map[..], hidden, chunk1, h * w)
      modifies conv0Patch3, patch3Valid, conv1Out, bottleneckMap
      ensures base + hidden <= bottleneckMap.Length
      ensures bottleneckMap[..] == Splice(old(bottleneckMap[..]), base,
                                               AddClamped(DenseConv(L, b0, h, w)[point], chunk1[point]))
    {
      BlockEnd(point, points, hidden);
      ghost var v := DenseConv(L, b0, h, w)[point];
      ConvPoint(L, b0Cv1Map[..], h, w, point, conv1Out, 0, b0);
      assert conv1Out[..] == v;
      HoldsAt(chunk1Map[..], hidden, chunk1, h * w, point);
      AddResidual(base, v, chunk1[point]);
    }

    method Pass3(net: Net, h: nat, w: nat, ghost m: seq<Vec>)
      requires Valid() && net.Valid() && net.hidden == hidden && points == h * w && IsMap(m, h, w, net.inC)
      requires Holds(chunk1Map[..], hidden, Chunk1Map(net, m, h, w), h * w)
      requires Holds(b0Cv1Map[..], hidden, B0Map(net, m, h, w), h * w)
      modifies conv0Patch3, patch3Valid, conv1Out, bottleneckMap
      ensures Holds(bottleneckMap[..], hidden, BottleneckMap(net, m, h, w), h * w)
    {
      ghost var r := BottleneckMap(net, m, h, w);
      for point := 0 to points
        invariant Holds(bottleneckMap[..], hidden, r, point)
      {
        BlockEnd(point, points, hidden);
        HoldsExtend(bottleneckMap[..], hidden, r, point);
        Pass3Point(net.b0cv2, h, w, point, point * hidden, B0Map(net, m, h, w), Chunk1Map(net, m, h, w));
      }
    }

    /** What the first three passes leave for the fourth. */
    ghost predicate PassesDone(net: Net, m: seq<Vec>, h: nat, w: nat)
      requires net.Valid() && IsMap(m, h, w, net.inC)
      reads this, chunk0Map, chunk1Map, bottleneckMap
    {
      && net.hidden == hidden && points == h * w
      && Holds(chunk0Map[..], hidden, Chunk0Map(net, m, h, w), points)
      && Holds(chunk1Map[..], hidden, Chunk1Map(net, m, h, w), points)
      && Holds(bottleneckMap[..], hidden, BottleneckMap(net, m, h, w), points)
    }

    /** Fourth pass, one point: concatenation and cv2. */
    method Pass4Point(net: Net, h: nat, w: nat, point: nat, output: array<int8>, at: nat, ghost m: seq<Vec>)
      requires Valid() && net.Valid() && IsMap(m, h, w, net.inC) && PassesDone(net, m, h, w)
      requires output !in Bytes() && point < points && at + net.outC <= output.Length
      modifies cat, output
      ensures output[..] == Splice(old(output[..]), at, DenseC2f(net, m, h, w)[point])
    {
      BlockEnd(point, points, hidden);
      var base := point * hidden;
      HoldsAt(chunk0Map[..], hidden, Chunk0Map(net, m, h, w), points, point);
      HoldsAt(chunk1Map[..], hidden, Chunk1Map(net, m, h, w), points, point);
      HoldsAt(bottleneckMap[..], hidden, BottleneckMap(net, m, h, w), points, point);
      FillCat(cat, hidden, chunk0Map[base..base + hidden], chunk1Map[base..base + hidden],
            bottleneckMap[base..base + hidden]);
      Conv1x1Vec(net.cv2, cat[..], output, at);
    }

    /** Fourth pass, one more point of the output and of the two hashes. */
    method Pass4Next(net: Net, h: nat, w: nat, point: nat, base: nat, output: array<int8>,
                     sampled0: Hash, pointed0: Hash, ghost m: seq<Vec>, ghost r: seq<Vec>)
      returns (sampled: Hash, pointed: Hash)
      requires Valid() && net.Valid() && IsMap(m, h, w, net.inC) && PassesDone(net, m, h, w)
      requires output !in Bytes() && point < points
      requires base == point * net.outC && base + net.outC <= output.Length
      requires r == DenseC2f(net, m, h, w) && Holds(output[..], net.outC, r, point)
      requires Hashed(r, point, sampled0, pointed0)
      modifies cat, output
      ensures PassesDone(net, m, h, w) && Holds(output[..], net.outC, r, point + 1)
      ensures Hashed(r, point + 1, sampled, pointed)
    {
      HoldsExtend(output[..], net.outC, r, point);
      Pass4Point(net, h, w, point, output, base, m);
      HoldsAt(output[..], net.outC, r, point + 1, point);
      pointed := HashU32(pointed0, point);
      sampled := HashI8Bytes(sampled0, output[base..base + net.outC]);
      HashesGrow(r, point);
    }

    /** Fourth pass: the output, its hash accumulated point by point, and the point hash. */
    method Pass4(net: Net, h: nat, w: nat, output: array<int8>, ghost m: seq<Vec>, ghost r: seq<Vec>)
      returns (sampled: Hash, pointed: Hash)
      requires Valid() && net.Valid() && IsMap(m, h, w, net.inC) && PassesDone(net, m, h, w)
      requires output !in Bytes() && output.Length == points * net.outC && r == DenseC2f(net, m, h, w)
      modifies cat, output
      ensures Holds(output[..], net.outC, r, points)
      ensures sampled == HashBytes(INIT, Flat(r, points)) && pointed == HashPoints(INIT, AllPoints(points))
    {
      sampled, pointed := INIT, INIT;
      for point := 0 to points
        invariant PassesDone(net, m, h, w) && Holds(output[..], net.outC, r, point)
        invariant Hashed(r, point, sampled, pointed)
      {
        BlockEnd(point, points, net.outC);
        sampled, pointed := Pass4Next(net, h, w, point, point * net.outC, output, sampled, pointed, m, r);
      }
    }
  }

  /** The first n pixels of a map, end to end. */
  ghost function Flat(m: seq<Vec>, n: nat): Vec
    requires n <= |m|
  {
    if n == 0 then [] else Flat(m, n - 1) + m[n - 1]
  }

  ghost function AllPoints(n: nat): (s: seq<nat>)
    ensures |s| == n && forall i :: 0 <= i < n ==> s[i] == i
  {
    if n == 0 then [] else AllPoints(n - 1) + [n - 1]
  }

  /** The two hashes of the first n pixels. */
  ghost predicate Hashed(m: seq<Vec>, n: nat, sampled: Hash, pointed: Hash)
    requires n <= |m|
  {
    sampled == HashBytes(INIT, Flat(m, n)) && pointed == HashPoints(INIT, AllPoints(n))
  }

  lemma HashesGrow(m: seq<Vec>, n: nat)
    requires n < |m|
    ensures HashBytes(INIT, Flat(m, n + 1)) == HashBytes(HashBytes(INIT, Flat(m, n)), m[n])
    ensures HashPoints(INIT, AllPoints(n + 1)) == HashU32(HashPoints(INIT, AllPoints(n)), n)
  {
    HashConcat(INIT, Flat(m, n), m[n]);
    PointsGrow(INIT, AllPoints(n), n);
  }

  /** A buffer that holds a map is the map, end to end. */
  lemma {:induction false} FlatIsBuffer(s: Vec, c: nat, m: seq<Vec>, n: nat)
    requires Holds(s, c, m, n)
    ensures n * c <= |s| && Flat(m, n) == s[..n * c]
  {
    if n > 0 {
      var at := (n - 1) * c;
      BlockEnd(n - 1, n, c);
      assert n * c == at + c;
      HoldsFewer(s, c, m, n);
      FlatIsBuffer(s, c, m, n - 1);
      HoldsAt(s, c, m, n, n - 1);
      PrefixGrows(s, at, c);
    }
  }

  lemma HoldsFewer(s: Vec, c: nat, m: seq<Vec>, n: nat)
    requires Holds(s, c, m, n) && n > 0
    ensures Holds(s, c, m, n - 1)
  {
    BlockEnd(n - 1, n, c);
  }

  lemma PrefixGrows<T>(s: seq<T>, at: nat, c: nat)
    requires at + c <= |s|
    ensures s[..at] + s[at..at + c] == s[..at + c]
  {
  }

  lemma FlatIsWhole(s: Vec, c: nat, m: seq<Vec>, n: nat)
    requires Holds(s, c, m, n) && |s| == n * c
    ensures Flat(m, n) == s
  {
    FlatIsBuffer(s, c, m, n);
    assert s[..|s|] == s;
  }

  datatype DenseSummary = DenseSummary(pointCount: nat, outputHash: Hash, sampledHash: Hash, pointHash: Hash)

  /** run_c2f, dense: every pixel of the output is the block's, and the hash accumulated
      pixel by pixel is the hash of the whole output. */
  method RunC2fDense(net: Net, input: Vec, h: nat, w: nat, output: array<int8>, s: Scratch)
    returns (summary: DenseSummary)
    requires net.Valid() && s.Valid() && s.hidden == net.hidden && s.points == h * w && output !in s.Bytes()
    requires h * w * net.inC <= |input| && output.Length == h * w * net.outC
    modifies s.Bytes(), s.patch3Valid, output
    ensures Holds(output[..], net.outC, DenseC2f(net, Pixels(input, net.inC, h * w), h, w), h * w)
    ensures summary.pointCount == h * w
    ensures summary.sampledHash == summary.outputHash == HashBytes(INIT, output[..])
    ensures summary.pointHash == HashPoints(INIT, AllPoints(h * w))
  {
    ghost var m := Pixels(input, net.inC, h * w);
    s.Pass1(net, input, h, w);
    s.Pass2(net, h, w, m);
    s.Pass3(net, h, w, m);
    var sampled, pointed := s.Pass4(net, h, w, output, m, DenseC2f(net, m, h, w));
    var whole := HashI8Bytes(INIT, output[..]);
    FlatIsWhole(output[..], net.outC, DenseC2f(net, m, h, w), h * w);
    summary := DenseSummary(s.points, whole, sampled, pointed);
  }

  /** The two runs of one network on one input agree on every needed point; elsewhere the
      sampled output still shows the sentinel. */
  lemma SampledAgreesWithDense(net: Net, input: Vec, h: nat, w: nat, points: seq<nat>, sampledOut: Vec, denseOut: Vec,
                               p: nat)
    requires net.Valid() && w > 0 && h * w * net.inC <= |input| && p < h * w
    requires Holds(sampledOut, net.outC, Painted(DenseC2f(net, Pixels(input, net.inC, h * w), h, w),
                                                 SentinelMap(h, w, net.outC), points), h * w)
    requires Holds(denseOut, net.outC, DenseC2f(net, Pixels(input, net.inC, h * w), h, w), h * w)
    ensures p * net.outC + net.outC <= |sampledOut| && p * net.outC + net.outC <= |denseOut|
    ensures Block(sampledOut, net.outC, p)
            == if p in points then Block(denseOut, net.outC, p) else Sentinel(w, net.outC, p)
  {
    var dense := DenseC2f(net, Pixels(input, net.inC, h * w), h, w);
    HoldsAt(sampledOut, net.outC, Painted(dense, SentinelMap(h, w, net.outC), points), h * w, p);
    HoldsAt(denseOut, net.outC, dense, h * w, p);
  }
}

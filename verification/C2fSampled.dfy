// The sampled run of the C2f block: compute_c2f_point on the points the detect samples
// need, over one reused scratch record.
module C2fSampled {
  import opened Buffers
  import opened Conv
  import opened C2f
  import opened Needed
  import opened Fnv
  import Bits

  /** The scratch record of the sampled run. Nothing is assumed of its contents: each
      point inherits whatever the previous one left in the buffers. */
  class Scratch {
    const hidden: nat
    const cv1Tmp: array<int8>
    const chunk1Patch5: array<int8>
    const chunk0Center: array<int8>
    const chunk1Center: array<int8>
    const conv0Patch3: array<int8>
    const conv1Out: array<int8>
    const bottleneck: array<int8>
    const cat: array<int8>
    const patch5Valid: array<bool>
    const patch3Valid: array<bool>

    ghost function Bytes(): set<array<int8>> {
      {cv1Tmp, chunk1Patch5, chunk0Center, chunk1Center, conv0Patch3, conv1Out, bottleneck, cat}
    }

    ghost predicate Valid() {
      && cv1Tmp.Length == 2 * hidden && chunk1Patch5.Length == 25 * hidden
      && chunk0Center.Length == hidden && chunk1Center.Length == hidden
      && conv0Patch3.Length == 9 * hidden && conv1Out.Length == hidden
      && bottleneck.Length == hidden && cat.Length == 3 * hidden
      && patch5Valid.Length == 25 && patch3Valid.Length == 9
      && patch5Valid != patch3Valid
      && cv1Tmp !in {chunk1Patch5, chunk0Center, chunk1Center, conv0Patch3, conv1Out, bottleneck, cat}
      && chunk1Patch5 !in {chunk0Center, chunk1Center, conv0Patch3, conv1Out, bottleneck, cat}
      && chunk0Center !in {chunk1Center, conv0Patch3, conv1Out, bottleneck, cat}
      && chunk1Center !in {conv0Patch3, conv1Out, bottleneck, cat}
      && conv0Patch3 !in {conv1Out, bottleneck, cat}
      && conv1Out !in {bottleneck, cat}
      && bottleneck != cat
    }

    constructor (hidden: nat)
      ensures Valid() && this.hidden == hidden
      ensures fresh(Bytes()) && fresh(patch5Valid) && fresh(patch3Valid)
    {
      this.hidden := hidden;
      cv1Tmp := new int8[2 * hidden];
      chunk1Patch5 := new int8[25 * hidden];
      chunk0Center := new int8[hidden];
      chunk1Center := new int8[hidden];
      conv0Patch3 := new int8[9 * hidden];
      conv1Out := new int8[hidden];
      bottleneck := new int8[hidden];
      cat := new int8[3 * hidden];
      patch5Valid := new bool[25];
      patch3Valid := new bool[9];
    }

    /** The centre chunks are those of v. */
    ghost predicate CenterFilled(v: Vec)
      requires |v| == 2 * hidden
      reads chunk0Center, chunk1Center
    {
      chunk0Center[..] == v[..hidden] && chunk1Center[..] == v[hidden..]
    }

    /** Channel c of both chunks at the centre. */
    method KeepCenter(c: nat)
      requires Valid() && c < hidden
      requires chunk0Center[..c] == cv1Tmp[..c] && chunk1Center[..c] == cv1Tmp[hidden..hidden + c]
      modifies chunk0Center, chunk1Center
      ensures chunk0Center[..c + 1] == cv1Tmp[..c + 1] && chunk1Center[..c + 1] == cv1Tmp[hidden..hidden + c + 1]
    {
      chunk0Center[c] := cv1Tmp[c];
      chunk1Center[c] := cv1Tmp[hidden + c];
    }

    /** The copy loop: the second chunk goes to the patch, and at the centre both chunks
        are kept as well. */
    method CopyChunks(patchIdx: nat, center: bool)
      requires Valid() && patchIdx < 25
      modifies chunk1Patch5, chunk0Center, chunk1Center
      ensures patchIdx * hidden + hidden <= chunk1Patch5.Length
      ensures chunk1Patch5[..] == Splice(old(chunk1Patch5[..]), patchIdx * hidden, cv1Tmp[hidden..])
      ensures center ==> CenterFilled(cv1Tmp[..])
      ensures !center ==> chunk0Center[..] == old(chunk0Center[..]) && chunk1Center[..] == old(chunk1Center[..])
    {
      BlockEnd(patchIdx, 25, hidden);
      var base := patchIdx * hidden;
      ghost var v1, p0 := cv1Tmp[hidden..], chunk1Patch5[..];
      for c := 0 to hidden
        invariant chunk1Patch5[..] == Splice(p0, base, v1[..c])
        invariant center ==> chunk0Center[..c] == cv1Tmp[..c] && chunk1Center[..c] == cv1Tmp[hidden..hidden + c]
        invariant !center ==> chunk0Center[..] == old(chunk0Center[..]) && chunk1Center[..] == old(chunk1Center[..])
      {
        if center {
          KeepCenter(c);
        }
        SpliceExtend(p0, base, v1[..c], v1[c]);
        chunk1Patch5[base + c] := cv1Tmp[hidden + c];
        assert v1[..c] + [v1[c]] == v1[..c + 1];
      }
      assert v1[..hidden] == v1;
    }

    /** One in-image (dy, dx) of the first loop nest of compute_c2f_point, over pixel px. */
    method Patch5Cell(net: Net, px: Vec, patchIdx: nat, center: bool, ghost f: seq<Option<Vec>>)
      requires Valid() && net.Valid() && net.hidden == hidden && |px| == net.inC
      requires |f| == 25 && patchIdx < 25 && f[patchIdx] == Some(Cv1(net, px)[hidden..])
      requires PatchHolds(chunk1Patch5[..], patch5Valid[..], hidden, f, patchIdx)
      modifies cv1Tmp, chunk1Patch5, chunk0Center, chunk1Center, patch5Valid
      ensures PatchHolds(chunk1Patch5[..], patch5Valid[..], hidden, f, patchIdx + 1)
      ensures center ==> CenterFilled(Cv1(net, px))
      ensures !center ==> chunk0Center[..] == old(chunk0Center[..]) && chunk1Center[..] == old(chunk1Center[..])
    {
      ghost var v := Cv1(net, px);
      Conv1x1Vec(net.cv1, px, cv1Tmp, 0);
      assert cv1Tmp[..] == v;
      CopyChunks(patchIdx, center);
      PatchSet(old(chunk1Patch5[..]), old(patch5Valid[..]), hidden, f, patchIdx, v[hidden..]);
      patch5Valid[patchIdx] := true;
      assert patch5Valid[..] == old(patch5Valid[..])[patchIdx := true];
    }

    /** One (y, x) of the first loop nest: pixels off the image leave their flag clear. */
    method Patch5Step(net: Net, input: seq<int8>, h: nat, w: nat, y: int, x: int, patchIdx: nat, center: bool,
                      ghost m: seq<Vec>, ghost f: seq<Option<Vec>>)
      requires Valid() && net.Valid() && net.hidden == hidden && IsMap(m, h, w, net.inC)
               && Holds(input, net.inC, m, h * w)
      requires |f| == 25 && patchIdx < 25
      requires InImage(h, w, y, x) ==> 0 <= y * w + x < h * w && f[patchIdx] == Some(Cv1(net, m[y * w + x])[hidden..])
      requires !InImage(h, w, y, x) ==> f[patchIdx] == None && !center
      requires PatchHolds(chunk1Patch5[..], patch5Valid[..], hidden, f, patchIdx)
      modifies cv1Tmp, chunk1Patch5, chunk0Center, chunk1Center, patch5Valid
      ensures PatchHolds(chunk1Patch5[..], patch5Valid[..], hidden, f, patchIdx + 1)
      ensures center ==> CenterFilled(Cv1(net, m[y * w + x]))
      ensures !center ==> chunk0Center[..] == old(chunk0Center[..]) && chunk1Center[..] == old(chunk1Center[..])
    {
      if y < 0 || y >= h || x < 0 || x >= w {
        return;
      }
      var p := y * w + x;
      HoldsAt(input, net.inC, m, h * w, p);
      BlockEnd(p, h * w, net.inC);
      var inBase := p * net.inC;
      Patch5Cell(net, input[inBase..inBase + net.inC], patchIdx, center, f);
    }

    /** Row dy of the first loop nest; f is the patch and c the centre's pixel of cv1. */
    method FillPatch5Row(net: Net, input: seq<int8>, h: nat, w: nat, cy: nat, cx: nat, dy: int,
                         ghost m: seq<Vec>, ghost f: seq<Option<Vec>>, ghost c: Vec)
      requires Valid() && net.Valid() && net.hidden == hidden && IsMap(m, h, w, net.inC)
               && Holds(input, net.inC, m, h * w)
      requires cy < h && cx < w && cy * w + cx < h * w && -2 <= dy <= 2
      requires f == Patch5(net, m, h, w, cy, cx) && c == Cv1(net, m[cy * w + cx])
      requires PatchHolds(chunk1Patch5[..], patch5Valid[..], hidden, f, (dy + 2) * 5)
      requires dy > 0 ==> CenterFilled(c)
      modifies cv1Tmp, chunk1Patch5, chunk0Center, chunk1Center, patch5Valid
      ensures PatchHolds(chunk1Patch5[..], patch5Valid[..], hidden, f, (dy + 3) * 5)
      ensures dy >= 0 ==> CenterFilled(c)
    {
      for dx := -2 to 3
        invariant PatchHolds(chunk1Patch5[..], patch5Valid[..], hidden, f, (dy + 2) * 5 + dx + 2)
        invariant dy > 0 || (dy == 0 && dx > 0) ==> CenterFilled(c)
      {
        FillPatch5At(net, input, h, w, cy, cx, dy, dx, m, f, c);
      }
    }

    method FillPatch5At(net: Net, input: seq<int8>, h: nat, w: nat, cy: nat, cx: nat, dy: int, dx: int,
                        ghost m: seq<Vec>, ghost f: seq<Option<Vec>>, ghost c: Vec)
      requires Valid() && net.Valid() && net.hidden == hidden && IsMap(m, h, w, net.inC)
               && Holds(input, net.inC, m, h * w)
      requires cy < h && cx < w && cy * w + cx < h * w && -2 <= dy <= 2 && -2 <= dx <= 2
      requires f == Patch5(net, m, h, w, cy, cx) && c == Cv1(net, m[cy * w + cx])
      requires PatchHolds(chunk1Patch5[..], patch5Valid[..], hidden, f, (dy + 2) * 5 + dx + 2)
      requires dy > 0 || (dy == 0 && dx > 0) ==> CenterFilled(c)
      modifies cv1Tmp, chunk1Patch5, chunk0Center, chunk1Center, patch5Valid
      ensures PatchHolds(chunk1Patch5[..], patch5Valid[..], hidden, f, (dy + 2) * 5 + dx + 3)
      ensures dy > 0 || (dy == 0 && dx >= 0) ==> CenterFilled(c)
    {
      var y, x, patchIdx := cy + dy, cx + dx, (dy + 2) * 5 + (dx + 2);
      Patch5Entry(net, m, h, w, cy, cx, dy, dx);
      Patch5Step(net, input, h, w, y, x, patchIdx, dy == 0 && dx == 0, m, f);
    }

    method ClearPatch5()
      requires Valid()
      modifies patch5Valid
      ensures forall k :: 0 <= k < 25 ==> !patch5Valid[k]
    {
      for i := 0 to 25
        invariant forall k :: 0 <= k < i ==> !patch5Valid[k]
      {
        patch5Valid[i] := false;
      }
    }

    /** The first loop nest: the 5x5 patch and the centre chunks. */
    method FillPatch5(net: Net, input: seq<int8>, h: nat, w: nat, cy: nat, cx: nat, ghost m: seq<Vec>)
      requires Valid() && net.Valid() && net.hidden == hidden && IsMap(m, h, w, net.inC)
               && Holds(input, net.inC, m, h * w)
      requires cy < h && cx < w && cy * w + cx < h * w
      modifies cv1Tmp, chunk1Patch5, chunk0Center, chunk1Center, patch5Valid
      ensures PatchOf(chunk1Patch5[..], patch5Valid[..], hidden) == Patch5(net, m, h, w, cy, cx)
      ensures CenterFilled(Cv1(net, m[cy * w + cx]))
    {
      ghost var f, c := Patch5(net, m, h, w, cy, cx), Cv1(net, m[cy * w + cx]);
      ClearPatch5();
      for dy := -2 to 3
        invariant PatchHolds(chunk1Patch5[..], patch5Valid[..], hidden, f, (dy + 2) * 5)
        invariant dy > 0 ==> CenterFilled(c)
      {
        FillPatch5Row(net, input, h, w, cy, cx, dy, m, f, c);
      }
      PatchComplete(chunk1Patch5[..], patch5Valid[..], hidden, f);
    }

    method ClearPatch3()
      requires Valid()
      modifies patch3Valid
      ensures forall k :: 0 <= k < 9 ==> !patch3Valid[k]
    {
      for i := 0 to 9
        invariant forall k :: 0 <= k < i ==> !patch3Valid[k]
      {
        patch3Valid[i] := false;
      }
    }

    /** One in-image entry of the 3x3 patch. */
    method Patch3Cell(net: Net, patch3Idx: nat, py: nat, px: nat, ghost f: seq<Option<Vec>>, ghost v: Vec)
      requires Valid() && net.Valid() && net.hidden == hidden
      requires |f| == 9 && patch3Idx < 9 && f[patch3Idx] == Some(v)
      requires var p5 := PatchOf(chunk1Patch5[..], patch5Valid[..], hidden);
               v == ConvVec(net.b0cv1, PatchWindow(net.b0cv1, p5, 5, py, px))
      requires PatchHolds(conv0Patch3[..], patch3Valid[..], hidden, f, patch3Idx)
      modifies conv0Patch3, patch3Valid
      ensures PatchHolds(conv0Patch3[..], patch3Valid[..], hidden, f, patch3Idx + 1)
    {
      BlockEnd(patch3Idx, 9, hidden);
      ConvFromPatch(net.b0cv1, chunk1Patch5[..], 5, hidden, patch5Valid[..], py, px, conv0Patch3, patch3Idx * hidden);
      PatchSet(old(conv0Patch3[..]), old(patch3Valid[..]), hidden, f, patch3Idx, v);
      patch3Valid[patch3Idx] := true;
      assert patch3Valid[..] == old(patch3Valid[..])[patch3Idx := true];
    }

    method FillPatch3At(net: Net, h: nat, w: nat, cy: nat, cx: nat, dy: int, dx: int,
                        ghost p5: seq<Option<Vec>>, ghost f: seq<Option<Vec>>)
      requires Valid() && net.Valid() && net.hidden == hidden && -1 <= dy <= 1 && -1 <= dx <= 1
      requires p5 == PatchOf(chunk1Patch5[..], patch5Valid[..], hidden) && f == Patch3(net, p5, h, w, cy, cx)
      requires PatchHolds(conv0Patch3[..], patch3Valid[..], hidden, f, (dy + 1) * 3 + dx + 1)
      modifies conv0Patch3, patch3Valid
      ensures PatchHolds(conv0Patch3[..], patch3Valid[..], hidden, f, (dy + 1) * 3 + dx + 2)
    {
      var y, x := cy + dy, cx + dx;
      var patch3Idx := (dy + 1) * 3 + (dx + 1);
      Patch3Entry(net, p5, h, w, cy, cx, dy, dx);
      if y < 0 || y >= h || x < 0 || x >= w {
        return;
      }
      Patch3Cell(net, patch3Idx, dy + 2, dx + 2, f, f[patch3Idx].value);
    }

    /** The second loop nest: the first 3x3 convolution, read off the 5x5 patch. */
    method FillPatch3(net: Net, h: nat, w: nat, cy: nat, cx: nat)
      requires Valid() && net.Valid() && net.hidden == hidden
      modifies conv0Patch3, patch3Valid
      ensures var p5 := PatchOf(chunk1Patch5[..], patch5Valid[..], hidden);
              PatchOf(conv0Patch3[..], patch3Valid[..], hidden) == Patch3(net, p5, h, w, cy, cx)
    {
      ghost var p5 := PatchOf(chunk1Patch5[..], patch5Valid[..], hidden);
      ghost var f := Patch3(net, p5, h, w, cy, cx);
      ClearPatch3();
      for dy := -1 to 2
        invariant PatchHolds(conv0Patch3[..], patch3Valid[..], hidden, f, (dy + 1) * 3)
      {
        for dx := -1 to 2
          invariant PatchHolds(conv0Patch3[..], patch3Valid[..], hidden, f, (dy + 1) * 3 + dx + 1)
        {
          FillPatch3At(net, h, w, cy, cx, dy, dx, p5, f);
        }
      }
      PatchComplete(conv0Patch3[..], patch3Valid[..], hidden, f);
    }

    method FillBottleneck(ghost a: Vec, ghost b: Vec)
      requires Valid() && |a| == hidden && |b| == hidden
      requires conv1Out[..] == a && chunk1Center[..] == b
      modifies bottleneck
      ensures bottleneck[..] == AddClamped(a, b)
    {
      for c := 0 to hidden
        invariant bottleneck[..c] == AddClamped(a, b)[..c]
      {
        assert conv1Out[c] == a[c] && chunk1Center[c] == b[c];
        bottleneck[c] := ClampI8(conv1Out[c] as int + chunk1Center[c] as int);
      }
    }

    /** The rest of compute_c2f_point: second convolution, residual, concatenation, cv2. */
    method FinishPoint(net: Net, out: array<int8>, off: nat, ghost v: Vec, ghost p3: seq<Option<Vec>>)
      requires Valid() && net.Valid() && net.hidden == hidden
      requires out !in Bytes() && off + net.outC <= out.Length
      requires |v| == 2 * hidden && CenterFilled(v)
      requires p3 == PatchOf(conv0Patch3[..], patch3Valid[..], hidden)
      modifies conv1Out, bottleneck, cat, out
      ensures out[..] == Splice(old(out[..]), off, FinishVec(net, v, p3))
    {
      ghost var c1 := ConvVec(net.b0cv2, PatchWindow(net.b0cv2, p3, 3, 1, 1));
      ConvFromPatch(net.b0cv2, conv0Patch3[..], 3, hidden, patch3Valid[..], 1, 1, conv1Out, 0);
      assert conv1Out[..] == c1;
      FillBottleneck(c1, v[hidden..]);
      FillCat(cat, hidden, chunk0Center[..], chunk1Center[..], bottleneck[..]);
      Conv1x1Vec(net.cv2, cat[..], out, off);
    }

    /** compute_c2f_point: the vector at one point, whatever the scratch held before. */
    method ComputeC2fPoint(net: Net, input: seq<int8>, h: nat, w: nat, point: nat, out: array<int8>, off: nat)
      requires Valid() && net.Valid() && net.hidden == hidden && h * w * net.inC <= |input|
      requires point < h * w && out !in Bytes() && off + net.outC <= out.Length
      modifies Bytes(), patch5Valid, patch3Valid, out
      ensures out[..] == Splice(old(out[..]), off, LocalC2f(net, Pixels(input, net.inC, h * w), h, w, point))
    {
      PointSplit(point, h, w);
      var cy, cx := point / w, point % w;
      ghost var m := Pixels(input, net.inC, h * w);
      FillPatch5(net, input, h, w, cy, cx, m);
      FillPatch3(net, h, w, cy, cx);
      FinishPoint(net, out, off, Cv1(net, m[point]), PatchOf(conv0Patch3[..], patch3Valid[..], hidden));
    }
  }

  // ---- The whole sampled run ----

  /** c2f_output_sentinel: what a pixel the run does not compute holds. */
  function SentinelByte(y: nat, x: nat, c: nat): int8 {
    U32(y * 11 + x * 29 + c * 5 + Bits.Xor(y, x, 32) * 17 + 73) % 256 - 128
  }

  ghost function Sentinel(w: nat, outC: nat, p: nat): (v: Vec)
    requires w > 0
    ensures |v| == outC
  {
    seq(outC, c requires 0 <= c < outC => SentinelByte(p / w, p % w, c))
  }

  /** The sentinel in plain arithmetic on the first row and column and on the diagonal, where
      the exclusive or is known; a channel further it is five more. */
  lemma SentinelValues(y: nat, c: nat)
    requires y < TWO32
    ensures SentinelByte(y, 0, c) == (28 * y + 5 * c + 73) % 256 - 128
    ensures SentinelByte(0, y, c) == (46 * y + 5 * c + 73) % 256 - 128
    ensures SentinelByte(y, y, c) == (40 * y + 5 * c + 73) % 256 - 128
  {
    assert Bits.Pow2(32) == TWO32 by { Bits.Pow2Values(); }
    Bits.XorZero(y, 32);
    Bits.XorComm(0, y, 32);
    Bits.XorSelf(y, 32);
    LowByte(28 * y + 5 * c + 73);
    LowByte(46 * y + 5 * c + 73);
    LowByte(40 * y + 5 * c + 73);
  }

  lemma LowByte(v: nat)
    ensures U32(v) % 256 == v % 256
  {
    var q, r := v / TWO32, v % TWO32;
    assert v == q * TWO32 + r == (q * 0x100_0000 + r / 256) * 256 + r % 256;
    Bits.ModUnique(v, 256, q * 0x100_0000 + r / 256, r % 256);
  }

  ghost predicate InRange(points: seq<nat>, n: nat) {
    forall i :: 0 <= i < |points| ==> points[i] < n
  }

  /** The pixels of m at the given points, end to end. */
  ghost function Gather(m: seq<Vec>, points: seq<nat>): Vec
    requires InRange(points, |m|)
    decreases |points|
  {
    if points == [] then [] else Gather(m, points[..|points| - 1]) + m[points[|points| - 1]]
  }

  /** Gathering list by list; a point alone gathers its pixel. */
  lemma {:induction false} GatherConcat(m: seq<Vec>, a: seq<nat>, b: seq<nat>)
    requires InRange(a, |m|) && InRange(b, |m|)
    ensures InRange(a + b, |m|) && Gather(m, a + b) == Gather(m, a) + Gather(m, b)
    ensures |b| == 1 ==> Gather(m, b) == m[b[0]]
    decreases |b|
  {
    if b == [] {
      assert a + b == a;
    } else {
      var front := b[..|b| - 1];
      GatherConcat(m, a, front);
      assert (a + b)[..|a + b| - 1] == a + front;
      Associates(Gather(m, a), Gather(m, front), m[b[|b| - 1]]);
      OneGathered(m, b);
    }
  }

  lemma Associates<T>(a: seq<T>, b: seq<T>, c: seq<T>)
    ensures a + b + c == a + (b + c)
  {
  }

  lemma OneGathered(m: seq<Vec>, b: seq<nat>)
    requires InRange(b, |m|)
    ensures |b| == 1 ==> Gather(m, b) == m[b[0]]
  {
    if |b| == 1 {
      assert b[..0] == [] && Gather(m, b[..0]) == [];
    }
  }

  ghost function SentinelMap(h: nat, w: nat, outC: nat): (m: seq<Vec>)
    requires w > 0
    ensures IsMap(m, h, w, outC)
  {
    seq(h * w, p requires 0 <= p < h * w => Sentinel(w, outC, p))
  }

  method FillSentinelPixel(output: array<int8>, y: nat, x: nat, w: nat, outC: nat, ghost p: nat)
    requires x < w && p == y * w + x && p * outC + outC <= output.Length
    modifies output
    ensures output[..] == Splice(old(output[..]), p * outC, Sentinel(w, outC, p))
  {
    DivModUnique(p, w, y, x);
    ghost var v := Sentinel(w, outC, p);
    assert forall c :: 0 <= c < outC ==> v[c] == SentinelByte(y, x, c);
    FillSentinelBytes(output, y, x, (y * w + x) * outC, outC, v);
  }

  method FillSentinelBytes(output: array<int8>, y: nat, x: nat, base: nat, outC: nat, ghost v: Vec)
    requires |v| == outC && base + outC <= output.Length
    requires forall c :: 0 <= c < |v| ==> v[c] == SentinelByte(y, x, c)
    modifies output
    ensures output[..] == Splice(old(output[..]), base, v)
  {
    for c := 0 to outC
      invariant output[..] == Splice(old(output[..]), base, v[..c])
    {
      SpliceExtend(old(output[..]), base, v[..c], v[c]);
      output[base + c] := SentinelByte(y, x, c);
      assert v[..c] + [v[c]] == v[..c + 1];
    }
    assert v[..outC] == v;
  }

  /** Pixel p = y * w + x of the fill, after the pixels before it. */
  method FillNextSentinel(output: array<int8>, h: nat, w: nat, outC: nat, y: nat, x: nat, p: nat)
    requires y < h && x < w && p == y * w + x && p < h * w && output.Length == h * w * outC
    requires Holds(output[..], outC, SentinelMap(h, w, outC), p)
    modifies output
    ensures Holds(output[..], outC, SentinelMap(h, w, outC), p + 1)
  {
    BlockEnd(p, h * w, outC);
    HoldsExtend(output[..], outC, SentinelMap(h, w, outC), p);
    FillSentinelPixel(output, y, x, w, outC, p);
  }

  method FillSentinelRow(output: array<int8>, h: nat, w: nat, outC: nat, y: nat, row: nat)
    requires y < h && w > 0 && row == y * w && output.Length == h * w * outC
    requires Holds(output[..], outC, SentinelMap(h, w, outC), row)
    modifies output
    ensures Holds(output[..], outC, SentinelMap(h, w, outC), row + w)
  {
    for x := 0 to w
      invariant Holds(output[..], outC, SentinelMap(h, w, outC), row + x)
    {
      PointInRange(y, x, h, w);
      FillNextSentinel(output, h, w, outC, y, x, row + x);
    }
  }

  method FillOutputSentinel(output: array<int8>, h: nat, w: nat, outC: nat)
    requires w > 0 && output.Length == h * w * outC
    modifies output
    ensures Holds(output[..], outC, SentinelMap(h, w, outC), h * w)
  {
    var row := 0;
    for y := 0 to h
      invariant row == y * w && Holds(output[..], outC, SentinelMap(h, w, outC), row)
    {
      FillSentinelRow(output, h, w, outC, y, row);
      assert (y + 1) * w == row + w;
      row := row + w;
    }
  }

  /** The output once the given points have been computed. */
  ghost function Painted(dense: seq<Vec>, sentinel: seq<Vec>, points: seq<nat>): (m: seq<Vec>)
    requires |dense| == |sentinel|
    ensures |m| == |dense|
  {
    seq(|dense|, p requires 0 <= p < |dense| => if p in points then dense[p] else sentinel[p])
  }

  /** Computing one more point. */
  lemma PaintPoint(dense: seq<Vec>, sentinel: seq<Vec>, done: seq<nat>, p: nat)
    requires |dense| == |sentinel| && p < |dense| && InRange(done, |dense|)
    ensures Painted(dense, sentinel, done)[p := dense[p]] == Painted(dense, sentinel, done + [p])
    ensures InRange(done + [p], |dense|) && Gather(dense, done + [p]) == Gather(dense, done) + dense[p]
  {
    assert (done + [p])[..|done|] == done;
  }

  datatype Summary = Summary(pointCount: nat, outputHash: Hash, sampledHash: Hash, pointHash: Hash)

  /** The vector of one more point, in its place. */
  method PaintAt(net: Net, input: Vec, h: nat, w: nat, point: nat, output: array<int8>, base: nat, s: Scratch,
                 ghost dense: seq<Vec>, ghost sentinel: seq<Vec>, ghost done: seq<nat>)
    requires net.Valid() && s.Valid() && s.hidden == net.hidden && output !in s.Bytes()
    requires h * w * net.inC <= |input| && dense == DenseC2f(net, Pixels(input, net.inC, h * w), h, w)
    requires point < |dense| == |sentinel| && InRange(done, |dense|) && base == point * net.outC
    requires Holds(output[..], net.outC, Painted(dense, sentinel, done), |dense|)
    modifies s.Bytes(), s.patch5Valid, s.patch3Valid, output
    ensures InRange(done + [point], |dense|)
    ensures Holds(output[..], net.outC, Painted(dense, sentinel, done + [point]), |dense|)
    ensures Gather(dense, done + [point]) == Gather(dense, done) + dense[point]
    ensures base + net.outC <= output.Length && output[base..base + net.outC] == dense[point]
  {
    LocalIsDense(net, Pixels(input, net.inC, h * w), h, w, point);
    PaintPoint(dense, sentinel, done, point);
    HoldsUpdate(output[..], net.outC, Painted(dense, sentinel, done), |dense|, point, dense[point]);
    s.ComputeC2fPoint(net, input, h, w, point, output, base);
    HoldsAt(output[..], net.outC, Painted(dense, sentinel, done + [point]), |dense|, point);
  }

  /** One turn of the point loop: the vector of point and the two running hashes. */
  method RunPoint(net: Net, input: Vec, h: nat, w: nat, point: nat, output: array<int8>, s: Scratch,
                  sampled: Hash, pointed: Hash, ghost dense: seq<Vec>, ghost sentinel: seq<Vec>, ghost done: seq<nat>)
    returns (sampled': Hash, pointed': Hash)
    requires net.Valid() && s.Valid() && s.hidden == net.hidden && output !in s.Bytes()
    requires h * w * net.inC <= |input| && dense == DenseC2f(net, Pixels(input, net.inC, h * w), h, w)
    requires point < |dense| == |sentinel| && InRange(done, |dense|)
    requires Holds(output[..], net.outC, Painted(dense, sentinel, done), |dense|)
    requires sampled == HashBytes(INIT, Gather(dense, done)) && pointed == HashPoints(INIT, done)
    modifies s.Bytes(), s.patch5Valid, s.patch3Valid, output
    ensures InRange(done + [point], |dense|)
    ensures Holds(output[..], net.outC, Painted(dense, sentinel, done + [point]), |dense|)
    ensures sampled' == HashBytes(INIT, Gather(dense, done + [point])) && pointed' == HashPoints(INIT, done + [point])
  {
    BlockEnd(point, |dense|, net.outC);
    var base := point * net.outC;
    PaintAt(net, input, h, w, point, output, base, s, dense, sentinel, done);
    pointed' := HashU32(pointed, point);
    sampled' := HashI8Bytes(sampled, output[base..base + net.outC]);
    PointsGrow(INIT, done, point);
    HashConcat(INIT, Gather(dense, done), dense[point]);
  }

  /** The point loop, over any list of image points. */
  method RunPoints(net: Net, input: Vec, h: nat, w: nat, points: seq<nat>, output: array<int8>, s: Scratch,
                   ghost dense: seq<Vec>, ghost sentinel: seq<Vec>)
    returns (sampled: Hash, pointed: Hash)
    requires net.Valid() && s.Valid() && s.hidden == net.hidden && output !in s.Bytes()
    requires h * w * net.inC <= |input| && dense == DenseC2f(net, Pixels(input, net.inC, h * w), h, w)
    requires InRange(points, |dense|) && |sentinel| == |dense|
    requires Holds(output[..], net.outC, sentinel, |dense|)
    modifies s.Bytes(), s.patch5Valid, s.patch3Valid, output
    ensures Holds(output[..], net.outC, Painted(dense, sentinel, points), |dense|)
    ensures sampled == HashBytes(INIT, Gather(dense, points)) && pointed == HashPoints(INIT, points)
  {
    sampled, pointed := INIT, INIT;
    assert Painted(dense, sentinel, points[..0]) == sentinel;
    for i := 0 to |points|
      invariant InRange(points[..i], |dense|)
      invariant Holds(output[..], net.outC, Painted(dense, sentinel, points[..i]), |dense|)
      invariant sampled == HashBytes(INIT, Gather(dense, points[..i])) && pointed == HashPoints(INIT, points[..i])
    {
      sampled, pointed := RunPoint(net, input, h, w, points[i], output, s, sampled, pointed, dense, sentinel,
            points[..i]);
      assert points[..i] + [points[i]] == points[..i + 1];
    }
    assert points[..|points|] == points;
  }

  /** run_c2f, sampled: exactly the needed points hold what the dense run computes, every
      other pixel still holds the sentinel, and the point list never outgrows its array. */
  method RunC2f(net: Net, input: Vec, h: nat, w: nat, samples: seq<nat>, output: array<int8>, s: Scratch)
    returns (summary: Summary)
    requires net.Valid() && s.Valid() && s.hidden == net.hidden && output !in s.Bytes()
    requires w > 0 && h * w * net.inC <= |input| && output.Length == h * w * net.outC
    modifies s.Bytes(), s.patch5Valid, s.patch3Valid, output
    ensures var dense := DenseC2f(net, Pixels(input, net.inC, h * w), h, w);
            var points := NeededPoints(samples, h, w, |samples|);
            && InRange(points, h * w)
            && Holds(output[..], net.outC, Painted(dense, SentinelMap(h, w, net.outC), points), h * w)
            && summary == Summary(|points|, HashBytes(INIT, output[..]), HashBytes(INIT, Gather(dense, points)),
                  HashPoints(INIT, points))
  {
    var points := new nat[9 * |samples|];
    FillOutputSentinel(output, h, w, net.outC);
    var count := C2fNeededPoints(samples, h, w, points);
    NeededInRange(samples, h, w);
    ghost var dense := DenseC2f(net, Pixels(input, net.inC, h * w), h, w);
    var sampled, pointed := RunPoints(net, input, h, w, points[..count], output, s, dense, SentinelMap(h, w, net.outC));
    var whole := HashI8Bytes(INIT, output[..]);
    summary := Summary(count, whole, sampled, pointed);
  }

  lemma NeededInRange(samples: seq<nat>, h: nat, w: nat)
    requires w > 0
    ensures InRange(NeededPoints(samples, h, w, |samples|), h * w)
  {
    NeededPointsExact(samples, h, w, |samples|);
    var needed := NeededPoints(samples, h, w, |samples|);
    forall i | 0 <= i < |needed| ensures needed[i] < h * w {
      assert needed[i] in needed;
    }
  }
}

// The C2f block of the P3 head: a 1x1 convolution split in two chunks, a bottleneck of
// two zero-padded 3x3 convolutions on the second chunk, and a 1x1 convolution of the
// concatenation. Defined once over whole maps and once from a halo patch around a
// single point; the two definitions agree at every point of every map.
module C2f {
  import opened Buffers
  import opened Conv

  datatype Net = Net(cv1: Layer, b0cv1: Layer, b0cv2: Layer, cv2: Layer, inC: nat, hidden: nat, outC: nat)
  {
    /** What verify_c2f_layers checks before either run, over arbitrary channel counts. */
    ghost predicate Valid() {
      && cv1.Is1x1(inC, 2 * hidden)
      && b0cv1.Is3x3(hidden, hidden)
      && b0cv2.Is3x3(hidden, hidden)
      && cv2.Is1x1(3 * hidden, outC)
    }
  }

  /** The pixels of a flat input. */
  ghost function Pixels(s: seq<int8>, c: nat, n: nat): (m: seq<Vec>)
    requires n * c <= |s|
    ensures |m| == n && Holds(s, c, m, n)
  {
    var m := seq(n, p requires 0 <= p < n => BlockEnd(p, n, c); Block(s, c, p));
    assert forall q :: 0 <= q < n ==> |m[q]| == c && q * c + c <= |s| by {
      forall q | 0 <= q < n ensures |m[q]| == c && q * c + c <= |s| { BlockEnd(q, n, c); }
    }
    m
  }

  // ---- Over whole maps ----

  ghost function Cv1(net: Net, px: Vec): (v: Vec)
    requires net.Valid() && |px| == net.inC
    ensures |v| == 2 * net.hidden
  {
    ConvVec(net.cv1, [Some(px)])
  }

  ghost function Chunk0Map(net: Net, m: seq<Vec>, h: nat, w: nat): (r: seq<Vec>)
    requires net.Valid() && IsMap(m, h, w, net.inC)
    ensures IsMap(r, h, w, net.hidden)
  {
    seq(h * w, p requires 0 <= p < h * w => Cv1(net, m[p])[..net.hidden])
  }

  ghost function Chunk1Map(net: Net, m: seq<Vec>, h: nat, w: nat): (r: seq<Vec>)
    requires net.Valid() && IsMap(m, h, w, net.inC)
    ensures IsMap(r, h, w, net.hidden)
  {
    seq(h * w, p requires 0 <= p < h * w => Cv1(net, m[p])[net.hidden..])
  }

  ghost function B0Map(net: Net, m: seq<Vec>, h: nat, w: nat): (r: seq<Vec>)
    requires net.Valid() && IsMap(m, h, w, net.inC)
    ensures IsMap(r, h, w, net.hidden)
  {
    DenseConv(net.b0cv1, Chunk1Map(net, m, h, w), h, w)
  }

  ghost function AddClamped(a: Vec, b: Vec): (r: Vec)
    requires |a| == |b|
    ensures |r| == |a|
  {
    seq(|a|, c requires 0 <= c < |a| => ClampI8(a[c] as int + b[c] as int))
  }

  ghost function BottleneckMap(net: Net, m: seq<Vec>, h: nat, w: nat): (r: seq<Vec>)
    requires net.Valid() && IsMap(m, h, w, net.inC)
    ensures IsMap(r, h, w, net.hidden)
  {
    var conv1, chunk1 := DenseConv(net.b0cv2, B0Map(net, m, h, w), h, w), Chunk1Map(net, m, h, w);
    seq(h * w, p requires 0 <= p < h * w => AddClamped(conv1[p], chunk1[p]))
  }

  /** The block as the dense run computes it, map by map. */
  ghost function DenseC2f(net: Net, m: seq<Vec>, h: nat, w: nat): (r: seq<Vec>)
    requires net.Valid() && IsMap(m, h, w, net.inC)
    ensures IsMap(r, h, w, net.outC)
  {
    var chunk0, chunk1 := Chunk0Map(net, m, h, w), Chunk1Map(net, m, h, w);
    var bottleneck := BottleneckMap(net, m, h, w);
    seq(h * w, p requires 0 <= p < h * w =>
      ConvVec(net.cv2, [Some(chunk0[p] + chunk1[p] + bottleneck[p])]))
  }

  /** The chunks are the two halves of cv1. */
  lemma ChunksAt(net: Net, m: seq<Vec>, h: nat, w: nat, p: nat, c: nat)
    requires net.Valid() && IsMap(m, h, w, net.inC) && p < h * w && c < net.hidden
    ensures Chunk0Map(net, m, h, w)[p][c] == ConvVec(net.cv1, [Some(m[p])])[c]
    ensures Chunk1Map(net, m, h, w)[p][c] == ConvVec(net.cv1, [Some(m[p])])[net.hidden + c]
  {
  }

  /** The residual connection: the second layer of the bottleneck plus the second chunk,
      saturated to eight bits. */
  lemma ResidualAt(net: Net, m: seq<Vec>, h: nat, w: nat, p: nat, c: nat)
    requires net.Valid() && IsMap(m, h, w, net.inC) && p < h * w && c < net.hidden
    ensures var sum := DenseConv(net.b0cv2, B0Map(net, m, h, w), h, w)[p][c] as int
                       + Cv1(net, m[p])[net.hidden + c] as int;
            BottleneckMap(net, m, h, w)[p][c] as int == if sum < -128 then -128 else if sum > 127 then 127 else sum
  {
  }

  /** One pixel of the block, spelled out: the 1x1 layer cv2 over the three vectors side by
      side, the first half of cv1, its second half, and the saturated residual. */
  lemma BlockAt(net: Net, m: seq<Vec>, h: nat, w: nat, p: nat) returns (cat: Vec)
    requires net.Valid() && IsMap(m, h, w, net.inC) && p < h * w
    ensures |cat| == 3 * net.hidden && DenseC2f(net, m, h, w)[p] == ConvVec(net.cv2, [Some(cat)])
    ensures forall c :: 0 <= c < 2 * net.hidden ==> cat[c] == ConvVec(net.cv1, [Some(m[p])])[c]
    ensures forall c :: 0 <= c < net.hidden ==>
              var sum := DenseConv(net.b0cv2, DenseConv(net.b0cv1, Chunk1Map(net, m, h, w), h, w), h, w)[p][c] as int
                         + ConvVec(net.cv1, [Some(m[p])])[net.hidden + c] as int;
              cat[2 * net.hidden + c] as int == if sum < -128 then -128 else if sum > 127 then 127 else sum
  {
    var bottleneck := BottleneckMap(net, m, h, w)[p];
    cat := Chunk0Map(net, m, h, w)[p] + Chunk1Map(net, m, h, w)[p] + bottleneck;
    forall c | 0 <= c < net.hidden ensures cat[2 * net.hidden + c] == bottleneck[c] {
      ResidualAt(net, m, h, w, p, c);
    }
    forall c | 0 <= c < net.hidden
      ensures var sum := DenseConv(net.b0cv2, DenseConv(net.b0cv1, Chunk1Map(net, m, h, w), h, w), h, w)[p][c] as int
                         + ConvVec(net.cv1, [Some(m[p])])[net.hidden + c] as int;
              cat[2 * net.hidden + c] as int == if sum < -128 then -128 else if sum > 127 then 127 else sum
    {
      ResidualAt(net, m, h, w, p, c);
      assert cat[2 * net.hidden + c] == bottleneck[c];
    }
  }

  // ---- From a halo patch around one point ----

  predicate InImage(h: nat, w: nat, y: int, x: int) { 0 <= y < h && 0 <= x < w }

  /** Entry i of the 5x5 patch of second chunks around (cy, cx). */
  ghost function Patch5At(net: Net, m: seq<Vec>, h: nat, w: nat, cy: nat, cx: nat, i: nat): (r: Option<Vec>)
    requires net.Valid() && IsMap(m, h, w, net.inC)
    ensures r.Some? ==> |r.value| == net.hidden
  {
    var y, x := cy + i / 5 - 2, cx + i % 5 - 2;
    if InImage(h, w, y, x) then (PointInRange(y, x, h, w); Some(Cv1(net, m[y * w + x])[net.hidden..])) else None
  }

  ghost function Patch5(net: Net, m: seq<Vec>, h: nat, w: nat, cy: nat, cx: nat): (r: seq<Option<Vec>>)
    requires net.Valid() && IsMap(m, h, w, net.inC)
    ensures |r| == 25 && TapsFit(r, net.hidden)
  {
    seq(25, i requires 0 <= i < 25 => Patch5At(net, m, h, w, cy, cx, i))
  }

  /** The entry the loops reach at offset (dy, dx). */
  lemma Patch5Entry(net: Net, m: seq<Vec>, h: nat, w: nat, cy: nat, cx: nat, dy: int, dx: int)
    requires net.Valid() && IsMap(m, h, w, net.inC) && -2 <= dy <= 2 && -2 <= dx <= 2
    ensures var (y, x) := (cy + dy, cx + dx);
            && (InImage(h, w, y, x) ==> 0 <= y * w + x < h * w)
            && Patch5(net, m, h, w, cy, cx)[(dy + 2) * 5 + dx + 2]
               == if InImage(h, w, y, x) then Some(Cv1(net, m[y * w + x])[net.hidden..]) else None
  {
    var i := (dy + 2) * 5 + dx + 2;
    assert i / 5 == dy + 2 && i % 5 == dx + 2;
    assert Patch5(net, m, h, w, cy, cx)[i] == Patch5At(net, m, h, w, cy, cx, i);
    if InImage(h, w, cy + dy, cx + dx) {
      PointInRange(cy + dy, cx + dx, h, w);
    }
  }

  /** Entry i of the 3x3 patch of first-convolution outputs, read off the 5x5 patch. */
  ghost function Patch3At(net: Net, p5: seq<Option<Vec>>, h: nat, w: nat, cy: nat, cx: nat, i: nat): (r: Option<Vec>)
    requires net.Valid() && |p5| == 25 && TapsFit(p5, net.hidden)
    ensures r.Some? ==> |r.value| == net.hidden
  {
    if InImage(h, w, cy + i / 3 - 1, cx + i % 3 - 1)
    then Some(ConvVec(net.b0cv1, PatchWindow(net.b0cv1, p5, 5, i / 3 + 1, i % 3 + 1)))
    else None
  }

  ghost function Patch3(net: Net, p5: seq<Option<Vec>>, h: nat, w: nat, cy: nat, cx: nat): (r: seq<Option<Vec>>)
    requires net.Valid() && |p5| == 25 && TapsFit(p5, net.hidden)
    ensures |r| == 9 && TapsFit(r, net.hidden)
  {
    seq(9, i requires 0 <= i < 9 => Patch3At(net, p5, h, w, cy, cx, i))
  }

  /** The entry the loops reach at offset (dy, dx). */
  lemma Patch3Entry(net: Net, p5: seq<Option<Vec>>, h: nat, w: nat, cy: nat, cx: nat, dy: int, dx: int)
    requires net.Valid() && |p5| == 25 && TapsFit(p5, net.hidden) && -1 <= dy <= 1 && -1 <= dx <= 1
    ensures Patch3(net, p5, h, w, cy, cx)[(dy + 1) * 3 + dx + 1]
         == if InImage(h, w, cy + dy, cx + dx)
            then Some(ConvVec(net.b0cv1, PatchWindow(net.b0cv1, p5, 5, dy + 2, dx + 2))) else None
  {
    var i := (dy + 1) * 3 + dx + 1;
    assert i / 3 == dy + 1 && i % 3 == dx + 1;
    assert Patch3(net, p5, h, w, cy, cx)[i] == Patch3At(net, p5, h, w, cy, cx, i);
  }

  /** The block at one point, from the 5x5 neighbourhood of the point alone. */
  ghost function LocalC2f(net: Net, m: seq<Vec>, h: nat, w: nat, p: nat): (v: Vec)
    requires net.Valid() && IsMap(m, h, w, net.inC) && p < h * w
    ensures |v| == net.outC
  {
    PointSplit(p, h, w);
    FinishVec(net, Cv1(net, m[p]), Patch3(net, Patch5(net, m, h, w, p / w, p % w), h, w, p / w, p % w))
  }

  /** The block's output from the two centre chunks v and the 3x3 patch. */
  ghost function FinishVec(net: Net, v: Vec, p3: seq<Option<Vec>>): (r: Vec)
    requires net.Valid() && |v| == 2 * net.hidden && |p3| == 9 && TapsFit(p3, net.hidden)
    ensures |r| == net.outC
  {
    var conv1 := ConvVec(net.b0cv2, PatchWindow(net.b0cv2, p3, 3, 1, 1));
    var bottleneck := AddClamped(conv1, v[net.hidden..]);
    ConvVec(net.cv2, [Some(v[..net.hidden] + v[net.hidden..] + bottleneck)])
  }

  // ---- The two agree ----

  /** One tap of the first convolution: a patch entry is a pixel of the dense map. */
  lemma Patch5Tap(net: Net, m: seq<Vec>, h: nat, w: nat, cy: nat, cx: nat, iy: nat, ix: nat, ky: nat, kx: nat)
    requires net.Valid() && IsMap(m, h, w, net.inC) && iy < 3 && ix < 3 && ky < 3 && kx < 3
    ensures PatchTap(net.b0cv1, Patch5(net, m, h, w, cy, cx), 5, iy + 1, ix + 1, ky, kx)
         == PixelAt(Chunk1Map(net, m, h, w), h, w, cy + iy + ky - 2, cx + ix + kx - 2)
  {
    var i := (iy + ky) * 5 + ix + kx;
    assert i / 5 == iy + ky && i % 5 == ix + kx;
    assert Patch5(net, m, h, w, cy, cx)[i] == Patch5At(net, m, h, w, cy, cx, i);
    var y, x := cy + iy + ky - 2, cx + ix + kx - 2;
    if InImage(h, w, y, x) {
      PointInRange(y, x, h, w);
    }
  }

  /** The patch the first convolution sees is the window of the dense map. */
  lemma Patch5IsWindow(net: Net, m: seq<Vec>, h: nat, w: nat, cy: nat, cx: nat, iy: nat, ix: nat)
    requires net.Valid() && IsMap(m, h, w, net.inC) && iy < 3 && ix < 3
    ensures PatchWindow(net.b0cv1, Patch5(net, m, h, w, cy, cx), 5, iy + 1, ix + 1)
         == Window(net.b0cv1, Chunk1Map(net, m, h, w), h, w, cy + iy - 1, cx + ix - 1)
  {
    var a := PatchWindow(net.b0cv1, Patch5(net, m, h, w, cy, cx), 5, iy + 1, ix + 1);
    var b := Window(net.b0cv1, Chunk1Map(net, m, h, w), h, w, cy + iy - 1, cx + ix - 1);
    forall t | 0 <= t < |a|
      ensures a[t] == b[t]
    {
      Patch5Tap(net, m, h, w, cy, cx, iy, ix, t / 3, t % 3);
    }
  }

  /** One tap of the second convolution, likewise. */
  lemma Patch3Tap(net: Net, m: seq<Vec>, h: nat, w: nat, cy: nat, cx: nat, ky: nat, kx: nat)
    requires net.Valid() && IsMap(m, h, w, net.inC) && ky < 3 && kx < 3
    ensures PatchTap(net.b0cv2, Patch3(net, Patch5(net, m, h, w, cy, cx), h, w, cy, cx), 3, 1, 1, ky, kx)
         == PixelAt(B0Map(net, m, h, w), h, w, cy + ky - 1, cx + kx - 1)
  {
    var p5 := Patch5(net, m, h, w, cy, cx);
    var i := ky * 3 + kx;
    assert i / 3 == ky && i % 3 == kx;
    assert Patch3(net, p5, h, w, cy, cx)[i] == Patch3At(net, p5, h, w, cy, cx, i);
    var y, x := cy + ky - 1, cx + kx - 1;
    if InImage(h, w, y, x) {
      Patch5IsWindow(net, m, h, w, cy, cx, ky, kx);
      DenseAt(net.b0cv1, Chunk1Map(net, m, h, w), h, w, y, x);
    }
  }

  /** The patch the second convolution sees is the window of the first one's dense map. */
  lemma Patch3IsWindow(net: Net, m: seq<Vec>, h: nat, w: nat, cy: nat, cx: nat)
    requires net.Valid() && IsMap(m, h, w, net.inC)
    ensures PatchWindow(net.b0cv2, Patch3(net, Patch5(net, m, h, w, cy, cx), h, w, cy, cx), 3, 1, 1)
         == Window(net.b0cv2, B0Map(net, m, h, w), h, w, cy, cx)
  {
    var a := PatchWindow(net.b0cv2, Patch3(net, Patch5(net, m, h, w, cy, cx), h, w, cy, cx), 3, 1, 1);
    var b := Window(net.b0cv2, B0Map(net, m, h, w), h, w, cy, cx);
    forall t | 0 <= t < |a|
      ensures a[t] == b[t]
    {
      Patch3Tap(net, m, h, w, cy, cx, t / 3, t % 3);
    }
  }

  /** At every point of every map, borders included, the halo patch gives what the
      dense pass gives. */
  lemma LocalIsDense(net: Net, m: seq<Vec>, h: nat, w: nat, p: nat)
    requires net.Valid() && IsMap(m, h, w, net.inC) && p < h * w
    ensures LocalC2f(net, m, h, w, p) == DenseC2f(net, m, h, w)[p]
  {
    PointSplit(p, h, w);
    Patch3IsWindow(net, m, h, w, p / w, p % w);
  }

  /** The concatenation loop both runs share. */
  method FillCat(cat: array<int8>, hidden: nat, chunk0: Vec, chunk1: Vec, bottleneck: Vec)
    requires cat.Length == 3 * hidden && |chunk0| == |chunk1| == |bottleneck| == hidden
    modifies cat
    ensures cat[..] == chunk0 + chunk1 + bottleneck
  {
    for c := 0 to hidden
      invariant forall k :: 0 <= k < c ==> cat[k] == chunk0[k]
      invariant forall k :: hidden <= k < hidden + c ==> cat[k] == chunk1[k - hidden]
      invariant forall k :: 2 * hidden <= k < 2 * hidden + c ==> cat[k] == bottleneck[k - 2 * hidden]
    {
      cat[c] := chunk0[c];
      cat[hidden + c] := chunk1[c];
      cat[2 * hidden + c] := bottleneck[c];
    }
  }
}

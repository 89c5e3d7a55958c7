// The 5x5 stride-1 max-pool of the YOLOv5n engine, computed as a pass along rows and a pass
// along columns, eight channels at a time, and the cascade of three pools of the P3 stage.
module MaxPool {
  import opened Buffers
  import opened Conv

  function MaxI8(a: int8, b: int8): int8 { if a < b then b else a }

  /** The pixel at (y, x). */
  ghost function At(m: seq<Vec>, h: nat, w: nat, c: nat, y: nat, x: nat): (v: Vec)
    requires IsMap(m, h, w, c) && y < h && x < w
    ensures |v| == c
  {
    PointInRange(y, x, h, w);
    m[y * w + x]
  }

  /** Channel k of the pixel at (y, x). */
  ghost function Val(m: seq<Vec>, h: nat, w: nat, c: nat, y: nat, x: nat, k: nat): int8
    requires IsMap(m, h, w, c) && y < h && x < w && k < c
  {
    At(m, h, w, c, y, x)[k]
  }

  // ---- The window maximum ----

  /** v is the greatest value of channel k within distance r of (y, x), clipped to the map. */
  ghost predicate IsWindowMax(m: seq<Vec>, h: nat, w: nat, c: nat, r: nat, y: nat, x: nat, k: nat, v: int8)
    requires IsMap(m, h, w, c) && k < c
  {
    && (exists y', x' :: Near(h, w, r, y, x, y', x') && Val(m, h, w, c, y', x', k) == v)
    && (forall y', x' :: Near(h, w, r, y, x, y', x') ==> Val(m, h, w, c, y', x', k) <= v)
  }

  ghost predicate Near(h: nat, w: nat, r: nat, y: int, x: int, y': int, x': int) {
    0 <= y' < h && 0 <= x' < w && y - r <= y' <= y + r && x - r <= x' <= x + r
  }

  /** p holds at every pixel and channel the clipped window maximum of radius r of m. */
  ghost predicate IsPool(m: seq<Vec>, p: seq<Vec>, h: nat, w: nat, c: nat, r: nat)
    requires IsMap(m, h, w, c) && IsMap(p, h, w, c)
  {
    forall y, x, k :: 0 <= y < h && 0 <= x < w && 0 <= k < c ==>
      IsWindowMax(m, h, w, c, r, y, x, k, Val(p, h, w, c, y, x, k))
  }

  // ---- What the two passes compute ----

  function Lo(x: nat): (r: nat)
    ensures r <= x && (r == 0 || r == x - 2) && x <= r + 2
  {
    if x > 2 then x - 2 else 0
  }

  function Hi(x: nat, w: nat): (r: nat)
    requires x < w
    ensures x <= r < w && r <= x + 2 && (r == x + 2 || r == w - 1)
  {
    if x + 2 >= w then w - 1 else x + 2
  }

  ghost function MaxVec(a: Vec, b: Vec): (r: Vec)
    requires |a| == |b|
    ensures |r| == |a|
  {
    seq<int8>(|a|, l requires 0 <= l < |a| => MaxI8(a[l], b[l]))
  }

  /** Pixel number first + i * step, counted up from first. */
  function Nth(first: nat, step: nat, i: nat): (p: nat) {
    if i == 0 then first else Nth(first, step, i - 1) + step
  }

  lemma {:induction false} NthIs(first: nat, step: nat, i: nat)
    ensures Nth(first, step, i) == first + i * step
  {
    if i > 0 {
      NthIs(first, step, i - 1);
      assert i * step == (i - 1) * step + step;
    }
  }

  /** Going down a column of a w-wide map. */
  lemma NthRow(y: nat, x: nat, w: nat, i: nat)
    ensures y * w >= 0 && Nth(y * w + x, w, i) == (y + i) * w + x
  {
    NthIs(y * w + x, w, i);
    assert (y + i) * w == y * w + i * w;
  }

  /** n pixels of the map, first, first + step, first + 2 * step, ... */
  ghost predicate RunFits(m: seq<Vec>, c: nat, first: nat, step: nat, n: nat) {
    forall i :: 0 <= i < n ==> Nth(first, step, i) < |m| && |m[Nth(first, step, i)]| == c
  }

  /** Their channel by channel maximum. */
  ghost function RunMax(m: seq<Vec>, c: nat, first: nat, step: nat, n: nat): (v: Vec)
    requires n > 0 && RunFits(m, c, first, step, n)
    ensures |v| == c
  {
    var p := Nth(first, step, n - 1);
    if n == 1 then m[p] else MaxVec(RunMax(m, c, first, step, n - 1), m[p])
  }

  lemma RowFits(m: seq<Vec>, h: nat, w: nat, c: nat, y: nat, x: nat)
    requires IsMap(m, h, w, c) && y < h && x < w
    ensures y * w >= 0 && RunFits(m, c, y * w + Lo(x), 1, Hi(x, w) - Lo(x) + 1)
  {
    PointInRange(y, x, h, w);
    var first := y * w + Lo(x);
    forall i | 0 <= i < Hi(x, w) - Lo(x) + 1 ensures Nth(first, 1, i) < |m| {
      PointInRange(y, Lo(x) + i, h, w);
      NthIs(first, 1, i);
    }
  }

  lemma ColFits(m: seq<Vec>, h: nat, w: nat, c: nat, y: nat, x: nat)
    requires IsMap(m, h, w, c) && y < h && x < w
    ensures Lo(y) * w >= 0 && RunFits(m, c, Lo(y) * w + x, w, Hi(y, h) - Lo(y) + 1)
  {
    PointInRange(Lo(y), x, h, w);
    var first := Lo(y) * w + x;
    forall i | 0 <= i < Hi(y, h) - Lo(y) + 1 ensures Nth(first, w, i) < |m| {
      NthRow(Lo(y), x, w, i);
      PointInRange(Lo(y) + i, x, h, w);
    }
  }

  ghost function RowPixel(m: seq<Vec>, h: nat, w: nat, c: nat, y: nat, x: nat): (v: Vec)
    requires IsMap(m, h, w, c) && y < h && x < w
    ensures |v| == c
  {
    RowFits(m, h, w, c, y, x);
    RunMax(m, c, y * w + Lo(x), 1, Hi(x, w) - Lo(x) + 1)
  }

  ghost function ColPixel(m: seq<Vec>, h: nat, w: nat, c: nat, y: nat, x: nat): (v: Vec)
    requires IsMap(m, h, w, c) && y < h && x < w
    ensures |v| == c
  {
    ColFits(m, h, w, c, y, x);
    RunMax(m, c, Lo(y) * w + x, w, Hi(y, h) - Lo(y) + 1)
  }

  ghost function RowPass(m: seq<Vec>, h: nat, w: nat, c: nat): (r: seq<Vec>)
    requires IsMap(m, h, w, c)
    ensures IsMap(r, h, w, c)
  {
    seq(h * w, p requires 0 <= p < h * w => PointSplit(p, h, w); RowPixel(m, h, w, c, p / w, p % w))
  }

  ghost function ColPass(m: seq<Vec>, h: nat, w: nat, c: nat): (r: seq<Vec>)
    requires IsMap(m, h, w, c)
    ensures IsMap(r, h, w, c)
  {
    seq(h * w, p requires 0 <= p < h * w => PointSplit(p, h, w); ColPixel(m, h, w, c, p / w, p % w))
  }

  ghost function PoolMap(m: seq<Vec>, h: nat, w: nat, c: nat): (r: seq<Vec>)
    requires IsMap(m, h, w, c)
    ensures IsMap(r, h, w, c)
  {
    ColPass(RowPass(m, h, w, c), h, w, c)
  }

  // ---- It is the window maximum ----

  lemma {:induction false} RunMaxExact(m: seq<Vec>, c: nat, first: nat, step: nat, n: nat, k: nat)
    requires n > 0 && RunFits(m, c, first, step, n) && k < c
    ensures forall i :: 0 <= i < n ==> m[Nth(first, step, i)][k] <= RunMax(m, c, first, step, n)[k]
    ensures exists i :: 0 <= i < n && m[Nth(first, step, i)][k] == RunMax(m, c, first, step, n)[k]
  {
    var v := RunMax(m, c, first, step, n)[k];
    if n == 1 {
      assert m[Nth(first, step, 0)][k] == v;
    } else {
      RunMaxExact(m, c, first, step, n - 1, k);
      var i :| 0 <= i < n - 1 && m[Nth(first, step, i)][k] == RunMax(m, c, first, step, n - 1)[k];
      assert m[Nth(first, step, i)][k] == v || m[Nth(first, step, n - 1)][k] == v;
    }
  }

  lemma RowMaxExact(m: seq<Vec>, h: nat, w: nat, c: nat, y: nat, x: nat, k: nat)
    requires IsMap(m, h, w, c) && y < h && x < w && k < c
    ensures forall x' :: Lo(x) <= x' <= Hi(x, w) ==> Val(m, h, w, c, y, x', k) <= RowPixel(m, h, w, c, y, x)[k]
    ensures exists x' :: Lo(x) <= x' <= Hi(x, w) && Val(m, h, w, c, y, x', k) == RowPixel(m, h, w, c, y, x)[k]
  {
    var first, n, v := y * w + Lo(x), Hi(x, w) - Lo(x) + 1, RowPixel(m, h, w, c, y, x)[k];
    RowFits(m, h, w, c, y, x);
    RunMaxExact(m, c, first, 1, n, k);
    forall x' | Lo(x) <= x' <= Hi(x, w) ensures Val(m, h, w, c, y, x', k) <= v {
      NthIs(first, 1, x' - Lo(x));
      assert m[Nth(first, 1, x' - Lo(x))][k] <= v;
    }
    var i :| 0 <= i < n && m[Nth(first, 1, i)][k] == v;
    NthIs(first, 1, i);
    assert Val(m, h, w, c, y, Lo(x) + i, k) == v;
  }

  lemma NthInColumn(m: seq<Vec>, h: nat, w: nat, c: nat, y: nat, x: nat, i: nat)
    requires IsMap(m, h, w, c) && y + i < h && x < w
    ensures y * w >= 0 && Nth(y * w + x, w, i) < |m| && m[Nth(y * w + x, w, i)] == At(m, h, w, c, y + i, x)
  {
    NthRow(y, x, w, i);
    PointInRange(y + i, x, h, w);
  }

  lemma ColMaxExact(m: seq<Vec>, h: nat, w: nat, c: nat, y: nat, x: nat, k: nat)
    requires IsMap(m, h, w, c) && y < h && x < w && k < c
    ensures forall y' :: Lo(y) <= y' <= Hi(y, h) ==> Val(m, h, w, c, y', x, k) <= ColPixel(m, h, w, c, y, x)[k]
    ensures exists y' :: Lo(y) <= y' <= Hi(y, h) && Val(m, h, w, c, y', x, k) == ColPixel(m, h, w, c, y, x)[k]
  {
    var first, n, v := Lo(y) * w + x, Hi(y, h) - Lo(y) + 1, ColPixel(m, h, w, c, y, x)[k];
    ColFits(m, h, w, c, y, x);
    RunMaxExact(m, c, first, w, n, k);
    forall y' | Lo(y) <= y' <= Hi(y, h) ensures Val(m, h, w, c, y', x, k) <= v {
      NthInColumn(m, h, w, c, Lo(y), x, y' - Lo(y));
      assert m[Nth(first, w, y' - Lo(y))][k] <= v;
    }
    var i :| 0 <= i < n && m[Nth(first, w, i)][k] == v;
    NthInColumn(m, h, w, c, Lo(y), x, i);
    assert Val(m, h, w, c, Lo(y) + i, x, k) == v;
  }

  lemma PassPixels(m: seq<Vec>, h: nat, w: nat, c: nat, y: nat, x: nat)
    requires IsMap(m, h, w, c) && y < h && x < w
    ensures At(RowPass(m, h, w, c), h, w, c, y, x) == RowPixel(m, h, w, c, y, x)
    ensures At(ColPass(m, h, w, c), h, w, c, y, x) == ColPixel(m, h, w, c, y, x)
  {
    PointInRange(y, x, h, w);
  }

  /** The two separable passes give the maximum of the clipped 5x5 window. */
  lemma PoolIsWindowMax(m: seq<Vec>, h: nat, w: nat, c: nat)
    requires IsMap(m, h, w, c)
    ensures IsPool(m, PoolMap(m, h, w, c), h, w, c, 2)
  {
    forall y, x, k | 0 <= y < h && 0 <= x < w && 0 <= k < c
      ensures IsWindowMax(m, h, w, c, 2, y, x, k, Val(PoolMap(m, h, w, c), h, w, c, y, x, k))
    {
      PoolPixel(m, h, w, c, y, x, k);
    }
  }

  lemma PoolPixel(m: seq<Vec>, h: nat, w: nat, c: nat, y: nat, x: nat, k: nat)
    requires IsMap(m, h, w, c) && y < h && x < w && k < c
    ensures IsWindowMax(m, h, w, c, 2, y, x, k, Val(PoolMap(m, h, w, c), h, w, c, y, x, k))
  {
    var t := RowPass(m, h, w, c);
    var v := Val(PoolMap(m, h, w, c), h, w, c, y, x, k);
    PassPixels(t, h, w, c, y, x);
    ColMaxExact(t, h, w, c, y, x, k);
    forall y', x' | Near(h, w, 2, y, x, y', x') ensures Val(m, h, w, c, y', x', k) <= v {
      PassPixels(m, h, w, c, y', x);
      RowMaxExact(m, h, w, c, y', x, k);
      assert Val(t, h, w, c, y', x, k) <= v;
    }
    var y' :| Lo(y) <= y' <= Hi(y, h) && Val(t, h, w, c, y', x, k) == v;
    PassPixels(m, h, w, c, y', x);
    RowMaxExact(m, h, w, c, y', x, k);
    var x' :| Lo(x) <= x' <= Hi(x, w) && Val(m, h, w, c, y', x', k) == v;
    assert Near(h, w, 2, y, x, y', x');
  }

  /** Pooling a pool widens the window: radius r of radius s of m is radius r + s of m, at
      the borders too. */
  lemma PoolsCompose(m: seq<Vec>, p: seq<Vec>, q: seq<Vec>, h: nat, w: nat, c: nat, s: nat, r: nat)
    requires IsMap(m, h, w, c) && IsMap(p, h, w, c) && IsMap(q, h, w, c)
    requires IsPool(m, p, h, w, c, s) && IsPool(p, q, h, w, c, r)
    ensures IsPool(m, q, h, w, c, r + s)
  {
    forall y, x, k | 0 <= y < h && 0 <= x < w && 0 <= k < c
      ensures IsWindowMax(m, h, w, c, r + s, y, x, k, Val(q, h, w, c, y, x, k))
    {
      ComposePixel(m, p, q, h, w, c, s, r, y, x, k);
    }
  }

  lemma ComposePixel(m: seq<Vec>, p: seq<Vec>, q: seq<Vec>, h: nat, w: nat, c: nat, s: nat, r: nat, y: nat, x: nat,
                     k: nat)
    requires IsMap(m, h, w, c) && IsMap(p, h, w, c) && IsMap(q, h, w, c)
    requires IsPool(m, p, h, w, c, s) && IsPool(p, q, h, w, c, r)
    requires y < h && x < w && k < c
    ensures IsWindowMax(m, h, w, c, r + s, y, x, k, Val(q, h, w, c, y, x, k))
  {
    var v := Val(q, h, w, c, y, x, k);
    assert IsWindowMax(p, h, w, c, r, y, x, k, v);
    forall y', x' | Near(h, w, r + s, y, x, y', x') ensures Val(m, h, w, c, y', x', k) <= v {
      var my, mx := Toward(y, y', r), Toward(x, x', r);
      assert Near(h, w, r, y, x, my, mx) && Near(h, w, s, my, mx, y', x');
      assert IsWindowMax(m, h, w, c, s, my, mx, k, Val(p, h, w, c, my, mx, k));
    }
    var my, mx :| Near(h, w, r, y, x, my, mx) && Val(p, h, w, c, my, mx, k) == v;
    assert IsWindowMax(m, h, w, c, s, my, mx, k, v);
    var y', x' :| Near(h, w, s, my, mx, y', x') && Val(m, h, w, c, y', x', k) == v;
    assert Near(h, w, r + s, y, x, y', x');
  }

  /** The three chained pools are the windows of radius 2, 4 and 6 of the first map. */
  lemma CascadeWindows(m: seq<Vec>, h: nat, w: nat, c: nat)
    requires IsMap(m, h, w, c)
    ensures var p1 := PoolMap(m, h, w, c);
            var p2 := PoolMap(p1, h, w, c);
            var p3 := PoolMap(p2, h, w, c);
            IsPool(m, p1, h, w, c, 2) && IsPool(m, p2, h, w, c, 4) && IsPool(m, p3, h, w, c, 6)
  {
    var p1 := PoolMap(m, h, w, c);
    var p2 := PoolMap(p1, h, w, c);
    var p3 := PoolMap(p2, h, w, c);
    PoolIsWindowMax(m, h, w, c);
    PoolIsWindowMax(p1, h, w, c);
    PoolIsWindowMax(p2, h, w, c);
    PoolsCompose(m, p1, p2, h, w, c, 2, 2);
    PoolsCompose(m, p2, p3, h, w, c, 4, 2);
  }

  // ---- The loops ----

  method VecMaxInplace8(dst: array<int8>, off: nat, src: Vec, ghost was: Vec)
    requires |src| == 8 && off + 8 <= dst.Length && was == dst[off..off + 8]
    modifies dst
    ensures dst[..] == Splice(old(dst[..]), off, MaxVec(was, src))
  {
    ghost var v := MaxVec(was, src);
    for l := 0 to 8
      invariant dst[..] == Splice(old(dst[..]), off, v[..l])
    {
      assert dst[off + l] == old(dst[..])[off + l] == was[l];
      SpliceExtend(old(dst[..]), off, v[..l], v[l]);
      dst[off + l] := MaxI8(dst[off + l], src[l]);
      assert v[..l] + [v[l]] == v[..l + 1];
    }
    assert v[..8] == v;
  }

  /** The eight bytes read at channel ch of every pixel of a run, folded lane by lane; past
      the pixel's last channel they belong to the next one. */
  ghost function LaneMax(src: Vec, c: nat, first: nat, step: nat, n: nat, ch: nat): (v: Vec)
    requires n > 0 && LanesFit(src, c, first, step, n, ch)
    ensures |v| == 8
  {
    var o := Nth(first, step, n - 1) * c + ch;
    assert LaneFits(src, c, Nth(first, step, n - 1), ch);
    if n == 1 then src[o..o + 8] else MaxVec(LaneMax(src, c, first, step, n - 1, ch), src[o..o + 8])
  }

  predicate LaneFits(src: Vec, c: nat, p: nat, ch: nat) { 0 <= p * c && p * c + ch + 8 <= |src| }

  ghost predicate LanesFit(src: Vec, c: nat, first: nat, step: nat, n: nat, ch: nat) {
    forall i :: 0 <= i < n ==> LaneFits(src, c, Nth(first, step, i), ch)
  }

  /** The lanes of the pixel's own channels hold the maximum over the run. */
  lemma {:induction false} LaneIsMax(src: Vec, m: seq<Vec>, c: nat, count: nat, first: nat, step: nat,
                                     n: nat, ch: nat, l: nat)
    requires Holds(src, c, m, count) && |m| == count && n > 0 && RunFits(m, c, first, step, n)
    requires LanesFit(src, c, first, step, n, ch) && l < 8 && ch + l < c
    ensures LaneMax(src, c, first, step, n, ch)[l] == RunMax(m, c, first, step, n)[ch + l]
    decreases n
  {
    var p := Nth(first, step, n - 1);
    LaneOf(src, m, c, count, p, ch, l, p * c);
    if n > 1 {
      LaneIsMax(src, m, c, count, first, step, n - 1, ch, l);
    }
  }

  lemma LaneOf(src: Vec, m: seq<Vec>, c: nat, count: nat, p: nat, ch: nat, l: nat, at: int)
    requires Holds(src, c, m, count) && p < count && LaneFits(src, c, p, ch) && l < 8 && ch + l < c && at == p * c
    ensures src[at + ch..at + ch + 8][l] == m[p][ch + l]
  {
    HoldsAt(src, c, m, count, p);
    assert src[at..at + c][ch + l] == src[at + (ch + l)];
  }

  /** Eight lanes of the maximum over a run of n pixels: copy the first, fold in the others. */
  method MaxLane(src: Vec, c: nat, first: nat, step: nat, n: nat, ch: nat, dst: array<int8>, at: nat)
    requires n > 0 && LanesFit(src, c, first, step, n, ch) && at + 8 <= dst.Length
    modifies dst
    ensures dst[..] == Splice(old(dst[..]), at, LaneMax(src, c, first, step, n, ch))
  {
    ghost var s0 := dst[..];
    var p := first;
    assert p == Nth(first, step, 0) && LaneFits(src, c, Nth(first, step, 0), ch);
    var o := p * c + ch;
    VecCopy8(dst, at, src[o..o + 8]);
    for i := 1 to n
      invariant p == Nth(first, step, i - 1)
      invariant dst[..] == Splice(s0, at, LaneMax(src, c, first, step, i, ch))
    {
      p := p + step;
      assert p == Nth(first, step, i) && LaneFits(src, c, Nth(first, step, i), ch);
      o := p * c + ch;
      ghost var was := LaneMax(src, c, first, step, i, ch);
      SpliceAgain(s0, at, was, MaxVec(was, src[o..o + 8]));
      VecMaxInplace8(dst, at, src[o..o + 8], was);
    }
  }

  lemma SpliceAgain<T>(s: seq<T>, at: nat, u: seq<T>, v: seq<T>)
    requires at + |u| <= |s| && |u| == |v|
    ensures Splice(s, at, u)[at..at + |u|] == u
    ensures Splice(Splice(s, at, u), at, v) == Splice(s, at, v)
  {
  }

  /** The first k channels of a pixel, with the bytes of the chunks from ch on before them. */
  lemma FrontGrows(s: Vec, t: Vec, base: nat, v: Vec, ch: nat, k: nat, lanes: Vec)
    requires base + ch + 8 <= |s| && |lanes| == 8 && t == Splice(s, base + ch, lanes) && ch <= k <= ch + 8 && k <= |v|
    requires s[base..base + ch] == v[..ch]
    requires forall l :: 0 <= l < k - ch ==> lanes[l] == v[ch + l]
    ensures t[..base] == s[..base] && t[base..base + k] == v[..k]
  {
    forall i | 0 <= i < k ensures t[base + i] == v[i] {
      if i < ch {
        assert t[base + i] == s[base + i] == s[base..base + ch][i];
      } else {
        assert t[base + i] == lanes[i - ch];
      }
    }
  }

  /** One pixel of either pass, eight channels at a time. What the last chunk writes past the
      pixel is written over with the next one. */
  method MaxPixel(src: Vec, c: nat, first: nat, step: nat, n: nat, dst: array<int8>, base: nat,
                  ghost m: seq<Vec>, ghost count: nat)
    requires Holds(src, c, m, count) && |m| == count && n > 0 && RunFits(m, c, first, step, n)
    requires count * c >= 0 && count * c + Spare(c) <= |src| && base + Round8(c) <= dst.Length
    modifies dst
    ensures dst[..base] == old(dst[..base]) && dst[base..base + c] == RunMax(m, c, first, step, n)
  {
    ghost var v, chunks, i, done := RunMax(m, c, first, step, n), Chunks(c), 0, 0;
    var ch := 0;
    while ch < c
      invariant i <= chunks && ch == 8 * i && done == Upto(ch, c)
      invariant dst[..base] == old(dst[..base]) && dst[base..base + done] == v[..done]
    {
      assert i < chunks;
      done := MaxNext(src, c, first, step, n, ch, dst, base, m, count, v);
      ch := ch + 8;
      i := i + 1;
    }
    assert done == c && v[..c] == v;
  }

  function Upto(a: nat, b: nat): nat { if a < b then a else b }

  /** The next eight channels of a pixel whose first ch are written. */
  method MaxNext(src: Vec, c: nat, first: nat, step: nat, n: nat, ch: nat, dst: array<int8>, base: nat,
                 ghost m: seq<Vec>, ghost count: nat, ghost v: Vec) returns (ghost done: nat)
    requires Holds(src, c, m, count) && |m| == count && n > 0 && RunFits(m, c, first, step, n)
    requires count * c >= 0 && count * c + Spare(c) <= |src|
    requires v == RunMax(m, c, first, step, n) && ch < c && ch + 8 <= Round8(c) && base + Round8(c) <= dst.Length
    requires dst[base..base + ch] == v[..ch]
    modifies dst
    ensures done == Upto(ch + 8, c) && dst[..base] == old(dst[..base]) && dst[base..base + done] == v[..done]
  {
    LanesInside(src, m, c, count, first, step, n, ch);
    ghost var s, lanes := dst[..], LaneMax(src, c, first, step, n, ch);
    done := Upto(ch + 8, c);
    forall l | 0 <= l < done - ch ensures lanes[l] == v[ch + l] {
      LaneIsMax(src, m, c, count, first, step, n, ch, l);
    }
    MaxLane(src, c, first, step, n, ch, dst, base + ch);
    FrontGrows(s, dst[..], base, v, ch, done, lanes);
  }

  lemma LanesInside(src: Vec, m: seq<Vec>, c: nat, count: nat, first: nat, step: nat, n: nat, ch: nat)
    requires |m| == count && RunFits(m, c, first, step, n) && ch + 8 <= Round8(c)
    requires count * c >= 0 && count * c + Spare(c) <= |src|
    ensures LanesFit(src, c, first, step, n, ch)
  {
    forall i | 0 <= i < n ensures LaneFits(src, c, Nth(first, step, i), ch) {
      BlockEnd(Nth(first, step, i), count, c);
    }
  }

  /** Writing pixel n, whatever happens to the bytes after it. */
  lemma HoldsFront(s: Vec, t: Vec, c: nat, m: seq<Vec>, n: nat, at: int)
    requires Holds(s, c, m, n) && n < |m| && |m[n]| == c && |s| == |t| && at == n * c && 0 <= at && at + c <= |t|
    requires t[..at] == s[..at] && t[at..at + c] == m[n]
    ensures Holds(t, c, m, n + 1)
  {
    assert (n + 1) * c == at + c;
    forall q | 0 <= q < n + 1 ensures q * c + c <= |t| && Block(t, c, q) == m[q] {
      if q < n {
        BlockEnd(q, n, c);
        HoldsAt(s, c, m, n, q);
        assert t[q * c..q * c + c] == t[..at][q * c..q * c + c] == s[q * c..q * c + c];
      }
    }
  }

  lemma PointAt(r: seq<Vec>, h: nat, w: nat, c: nat, y: nat, x: nat, p: nat)
    requires IsMap(r, h, w, c) && y < h && x < w && p == y * w + x
    ensures p < h * w && h * w * c >= p * c + c >= p * c >= 0
    ensures r[p] == At(r, h, w, c, y, x)
  {
    PointInRange(y, x, h, w);
    BlockEnd(p, h * w, c);
  }

  /** A buffer of this length has room for the chunks of a whole map. */
  predicate HasRoom(length: nat, h: nat, w: nat, c: nat) { h * w * c >= 0 && h * w * c + Spare(c) <= length }

  ghost predicate InRoom(src: Vec, m: seq<Vec>, h: nat, w: nat, c: nat) {
    IsMap(m, h, w, c) && Holds(src, c, m, h * w) && HasRoom(|src|, h, w, c)
  }

  /** Pixel (y, x) of the first pass. */
  method RowPoint(src: Vec, h: nat, w: nat, c: nat, y: nat, x: nat, tmp: array<int8>, at: nat, ghost m: seq<Vec>)
    requires InRoom(src, m, h, w, c) && y < h && x < w && at + Round8(c) <= tmp.Length
    modifies tmp
    ensures tmp[..at] == old(tmp[..at]) && tmp[at..at + c] == RowPixel(m, h, w, c, y, x)
  {
    var x0 := if x > 2 then x - 2 else 0;
    var x1 := x + 2;
    if x1 >= w {
      x1 := w - 1;
    }
    RowFits(m, h, w, c, y, x);
    var row := y * w;
    MaxPixel(src, c, row + x0, 1, x1 - x0 + 1, tmp, at, m, h * w);
  }

  /** Pixel (y, x) of the second pass. */
  method ColPoint(tmp: Vec, h: nat, w: nat, c: nat, y: nat, x: nat, dst: array<int8>, at: nat, ghost m: seq<Vec>)
    requires InRoom(tmp, m, h, w, c) && y < h && x < w && at + Round8(c) <= dst.Length
    modifies dst
    ensures dst[..at] == old(dst[..at]) && dst[at..at + c] == ColPixel(m, h, w, c, y, x)
  {
    var y0 := if y > 2 then y - 2 else 0;
    var y1 := y + 2;
    if y1 >= h {
      y1 := h - 1;
    }
    ColFits(m, h, w, c, y, x);
    var row := y0 * w;
    MaxPixel(tmp, c, row + x, w, y1 - y0 + 1, dst, at, m, h * w);
  }

  /** Pixel p = y * w + x of RowPass appended to the pixels before it. */
  method RowNext(src: Vec, h: nat, w: nat, c: nat, y: nat, x: nat, p: nat, tmp: array<int8>, ghost m: seq<Vec>,
                 ghost r: seq<Vec>)
    requires InRoom(src, m, h, w, c) && IsMap(r, h, w, c)
    requires y < h && x < w && p < h * w && p * c >= 0 && p * c + Round8(c) <= tmp.Length
    requires r[p] == RowPixel(m, h, w, c, y, x) && Holds(tmp[..], c, r, p)
    modifies tmp
    ensures Holds(tmp[..], c, r, p + 1)
  {
    ghost var s := tmp[..];
    RowPoint(src, h, w, c, y, x, tmp, p * c, m);
    HoldsFront(s, tmp[..], c, r, p, p * c);
  }

  method RowPassRow(src: Vec, h: nat, w: nat, c: nat, y: nat, tmp: array<int8>, ghost m: seq<Vec>, ghost r: seq<Vec>)
    requires InRoom(src, m, h, w, c) && IsMap(r, h, w, c) && HasRoom(tmp.Length, h, w, c)
    requires y < h && y * w >= 0 && Holds(tmp[..], c, r, y * w)
    requires forall x :: 0 <= x < w ==> At(r, h, w, c, y, x) == RowPixel(m, h, w, c, y, x)
    modifies tmp
    ensures (y + 1) * w >= 0 && Holds(tmp[..], c, r, (y + 1) * w)
  {
    var p := y * w;
    for x := 0 to w
      invariant p == y * w + x && Holds(tmp[..], c, r, p)
    {
      PointAt(r, h, w, c, y, x, p);
      RowNext(src, h, w, c, y, x, p, tmp, m, r);
      p := p + 1;
    }
    assert p == (y + 1) * w;
  }

  /** Pixel p = y * w + x of ColPass appended to the pixels before it. */
  method ColNext(tmp: Vec, h: nat, w: nat, c: nat, y: nat, x: nat, p: nat, dst: array<int8>, ghost m: seq<Vec>,
                 ghost r: seq<Vec>)
    requires InRoom(tmp, m, h, w, c) && IsMap(r, h, w, c)
    requires y < h && x < w && p < h * w && p * c >= 0 && p * c + Round8(c) <= dst.Length
    requires r[p] == ColPixel(m, h, w, c, y, x) && Holds(dst[..], c, r, p)
    modifies dst
    ensures Holds(dst[..], c, r, p + 1)
  {
    ghost var s := dst[..];
    ColPoint(tmp, h, w, c, y, x, dst, p * c, m);
    HoldsFront(s, dst[..], c, r, p, p * c);
  }

  method ColPassRow(tmp: Vec, h: nat, w: nat, c: nat, y: nat, dst: array<int8>, ghost m: seq<Vec>, ghost r: seq<Vec>)
    requires InRoom(tmp, m, h, w, c) && IsMap(r, h, w, c) && HasRoom(dst.Length, h, w, c)
    requires y < h && y * w >= 0 && Holds(dst[..], c, r, y * w)
    requires forall x :: 0 <= x < w ==> At(r, h, w, c, y, x) == ColPixel(m, h, w, c, y, x)
    modifies dst
    ensures (y + 1) * w >= 0 && Holds(dst[..], c, r, (y + 1) * w)
  {
    var p := y * w;
    for x := 0 to w
      invariant p == y * w + x && Holds(dst[..], c, r, p)
    {
      PointAt(r, h, w, c, y, x, p);
      ColNext(tmp, h, w, c, y, x, p, dst, m, r);
      p := p + 1;
    }
    assert p == (y + 1) * w;
  }

  method RowPassLoop(src: Vec, h: nat, w: nat, c: nat, tmp: array<int8>, ghost m: seq<Vec>)
    requires InRoom(src, m, h, w, c) && HasRoom(tmp.Length, h, w, c)
    modifies tmp
    ensures Holds(tmp[..], c, RowPass(m, h, w, c), h * w)
  {
    ghost var r := RowPass(m, h, w, c);
    for y := 0 to h
      invariant y * w >= 0 && Holds(tmp[..], c, r, y * w)
    {
      forall x | 0 <= x < w ensures At(r, h, w, c, y, x) == RowPixel(m, h, w, c, y, x) {
        PassPixels(m, h, w, c, y, x);
      }
      RowPassRow(src, h, w, c, y, tmp, m, r);
    }
  }

  method ColPassLoop(tmp: Vec, h: nat, w: nat, c: nat, dst: array<int8>, ghost m: seq<Vec>)
    requires InRoom(tmp, m, h, w, c) && HasRoom(dst.Length, h, w, c)
    modifies dst
    ensures Holds(dst[..], c, ColPass(m, h, w, c), h * w)
  {
    ghost var r := ColPass(m, h, w, c);
    for y := 0 to h
      invariant y * w >= 0 && Holds(dst[..], c, r, y * w)
    {
      forall x | 0 <= x < w ensures At(r, h, w, c, y, x) == ColPixel(m, h, w, c, y, x) {
        PassPixels(m, h, w, c, y, x);
      }
      ColPassRow(tmp, h, w, c, y, dst, m, r);
    }
  }

  /** yolov5n_maxpool5x5_s1_p2: dst receives the clipped 5x5 window maximum of the map in src. */
  method MaxPool5x5(src: array<int8>, h: nat, w: nat, c: nat, dst: array<int8>, tmp: array<int8>, ghost m: seq<Vec>)
    requires InRoom(src[..], m, h, w, c) && HasRoom(dst.Length, h, w, c) && HasRoom(tmp.Length, h, w, c)
    requires dst != tmp && src != tmp
    modifies dst, tmp
    ensures Holds(dst[..], c, PoolMap(m, h, w, c), h * w)
    ensures IsPool(m, PoolMap(m, h, w, c), h, w, c, 2)
  {
    RowPassLoop(src[..], h, w, c, tmp, m);
    ColPassLoop(tmp[..], h, w, c, dst, RowPass(m, h, w, c));
    PoolIsWindowMax(m, h, w, c);
  }

  // ---- The SPPF stage ----

  /** Four maps side by side in every pixel. */
  ghost function Beside(a: seq<Vec>, b: seq<Vec>, d: seq<Vec>, e: seq<Vec>): (r: seq<Vec>)
    requires |a| == |b| == |d| == |e|
    ensures |r| == |a|
  {
    seq(|a|, i requires 0 <= i < |a| => a[i] + b[i] + d[i] + e[i])
  }

  /** The pixel at at holds a, b, d and e in this order. */
  ghost predicate FourGroups(s: Vec, at: int, each: nat, a: Vec, b: Vec, d: Vec, e: Vec) {
    && |a| == |b| == |d| == |e| == each && 0 <= at && at + 4 * each <= |s|
    && forall k :: 0 <= k < each ==>
         s[at + k] == a[k] && s[at + each + k] == b[k] && s[at + 2 * each + k] == d[k] && s[at + 3 * each + k] == e[k]
  }

  /** Every pixel of the concatenation, group by group. */
  lemma GroupsInOrder(s: Vec, each: nat, a: seq<Vec>, b: seq<Vec>, d: seq<Vec>, e: seq<Vec>, count: nat, p: nat)
    requires |a| == |b| == |d| == |e| == count && Holds(s, 4 * each, Beside(a, b, d, e), count) && p < count
    requires |a[p]| == |b[p]| == |d[p]| == |e[p]| == each
    ensures FourGroups(s, p * (4 * each), each, a[p], b[p], d[p], e[p])
  {
    var at := p * (4 * each);
    HoldsAt(s, 4 * each, Beside(a, b, d, e), count, p);
    MulBounds(p, 4 * each);
    GroupBytes(s, at, each, a[p], b[p], d[p], e[p]);
  }

  lemma GroupBytes(s: Vec, at: nat, each: nat, a: Vec, b: Vec, d: Vec, e: Vec)
    requires |a| == |b| == |d| == |e| == each && at + 4 * each <= |s|
    requires s[at..at + 4 * each] == a + b + d + e
    ensures FourGroups(s, at, each, a, b, d, e)
  {
    var v := s[at..at + 4 * each];
    forall k | 0 <= k < each
      ensures s[at + k] == a[k] && s[at + each + k] == b[k]
      ensures s[at + 2 * each + k] == d[k] && s[at + 3 * each + k] == e[k]
    {
      assert v[k] == a[k] && v[each + k] == b[k] && v[2 * each + k] == d[k] && v[3 * each + k] == e[k];
    }
  }

  /** One input's share of an output pixel of yolov5n_concat4, next to the shares before it. */
  method ConcatShare(src: Vec, from: nat, each: nat, dst: array<int8>, at: nat, ghost base: nat, ghost u: Vec)
    requires from + Round8(each) <= |src| && at + Round8(each) <= dst.Length
    requires at == base + |u| && dst[base..at] == u
    modifies dst
    ensures dst[..base] == old(dst[..base]) && dst[base..at + each] == u + src[from..from + each]
  {
    ghost var s, v := dst[..], src[from..from + Round8(each)];
    VecCopyBytes(dst, at, src, from, each);
    JoinFront(s, base, at, u, v, each);
    assert v[..each] == src[from..from + each];
  }

  lemma JoinFront(s: Vec, base: nat, at: nat, u: Vec, v: Vec, each: nat)
    requires at == base + |u| && at + |v| <= |s| && each <= |v| && s[base..at] == u
    ensures var t := Splice(s, at, v);
            t[..base] == s[..base] && t[base..at + each] == u + v[..each]
  {
    var t := Splice(s, at, v);
    forall i | 0 <= i < |u| + each ensures t[base + i] == (u + v[..each])[i] {
      if i < |u| {
        assert t[base + i] == s[base + i] == s[base..at][i];
      }
    }
  }

  /** One pixel of yolov5n_concat4. */
  method ConcatPixel(a: Vec, b: Vec, d: Vec, e: Vec, from: nat, each: nat, dst: array<int8>, at: nat)
    requires at + 3 * each + Round8(each) <= dst.Length
    requires from + Round8(each) <= |a| && from + Round8(each) <= |b|
    requires from + Round8(each) <= |d| && from + Round8(each) <= |e|
    modifies dst
    ensures dst[..at] == old(dst[..at])
    ensures dst[at..at + 4 * each]
            == a[from..from + each] + b[from..from + each] + d[from..from + each] + e[from..from + each]
  {
    ConcatShare(a, from, each, dst, at, at, []);
    ConcatTwo(b, d, from, each, dst, at + each, at, a[from..from + each]);
    ConcatShare(e, from, each, dst, at + 3 * each, at, dst[at..at + 3 * each]);
  }

  method ConcatTwo(a: Vec, b: Vec, from: nat, each: nat, dst: array<int8>, at: nat, ghost base: nat, ghost u: Vec)
    requires from + Round8(each) <= |a| && from + Round8(each) <= |b| && at + each + Round8(each) <= dst.Length
    requires at == base + |u| && dst[base..at] == u
    modifies dst
    ensures dst[..base] == old(dst[..base])
    ensures dst[base..at + 2 * each] == u + a[from..from + each] + b[from..from + each]
  {
    ConcatShare(a, from, each, dst, at, base, u);
    ConcatShare(b, from, each, dst, at + each, base, u + a[from..from + each]);
  }

  /** Pixel pix of yolov5n_concat4, appended to the pixels before it. */
  method ConcatNext(a: Vec, b: Vec, d: Vec, e: Vec, each: nat, pix: nat, from: nat, dst: array<int8>, at: nat,
                    ghost r: seq<Vec>)
    requires from == pix * each && from + Round8(each) <= |a| && from + Round8(each) <= |b|
    requires from + Round8(each) <= |d| && from + Round8(each) <= |e|
    requires at == pix * (4 * each) && at + 3 * each + Round8(each) <= dst.Length && pix < |r| && |r[pix]| == 4 * each
    requires r[pix] == a[from..from + each] + b[from..from + each] + d[from..from + each] + e[from..from + each]
    requires Holds(dst[..], 4 * each, r, pix)
    modifies dst
    ensures Holds(dst[..], 4 * each, r, pix + 1)
  {
    ghost var s := dst[..];
    ConcatPixel(a, b, d, e, from, each, dst, at);
    HoldsFront(s, dst[..], 4 * each, r, pix, at);
  }

  /** The pixels of a map, and room for the last one's chunks. */
  ghost predicate HoldsRoomy(s: Vec, c: nat, m: seq<Vec>, count: nat) {
    |m| == count && Holds(s, c, m, count) && count * c + Spare(c) <= |s|
  }

  lemma RoomyAt(s: Vec, c: nat, m: seq<Vec>, count: nat, p: nat, at: int)
    requires HoldsRoomy(s, c, m, count) && p < count && at == p * c
    ensures 0 <= at && at + Round8(c) <= |s| && s[at..at + c] == m[p]
  {
    BlockEnd(p, count, c);
    HoldsAt(s, c, m, count, p);
  }

  /** yolov5n_concat4. */
  method Concat4(a: Vec, b: Vec, d: Vec, e: Vec, each: nat, count: nat, dst: array<int8>,
                 ghost ma: seq<Vec>, ghost mb: seq<Vec>, ghost md: seq<Vec>, ghost me: seq<Vec>)
    requires HoldsRoomy(a, each, ma, count) && HoldsRoomy(b, each, mb, count)
    requires HoldsRoomy(d, each, md, count) && HoldsRoomy(e, each, me, count)
    requires count * (4 * each) >= 0 && count * (4 * each) + Spare(each) <= dst.Length
    modifies dst
    ensures Holds(dst[..], 4 * each, Beside(ma, mb, md, me), count)
    ensures forall p :: 0 <= p < count ==> FourGroups(dst[..], p * (4 * each), each, ma[p], mb[p], md[p], me[p])
  {
    ghost var r := Beside(ma, mb, md, me);
    for pix := 0 to count
      invariant Holds(dst[..], 4 * each, r, pix)
    {
      BlockEnd(pix, count, 4 * each);
      var from := pix * each;
      RoomyAt(a, each, ma, count, pix, from);
      RoomyAt(b, each, mb, count, pix, from);
      RoomyAt(d, each, md, count, pix, from);
      RoomyAt(e, each, me, count, pix, from);
      ConcatNext(a, b, d, e, each, pix, from, dst, pix * (4 * each), r);
    }
    forall p | 0 <= p < count
      ensures FourGroups(dst[..], p * (4 * each), each, ma[p], mb[p], md[p], me[p])
    {
      GroupsInOrder(dst[..], each, ma, mb, md, me, count, p);
    }
  }

  /** The four bytes of channel k at pixel (y, x) of the concatenation: the maxima of radius 6,
      4 and 2 around the pixel, and the pixel. */
  ghost predicate ShowsWindows(cat: Vec, m: seq<Vec>, h: nat, w: nat, c: nat, y: nat, x: nat, k: nat)
    requires IsMap(m, h, w, c) && y < h && x < w && k < c
  {
    var at := (y * w + x) * (4 * c);
    && 0 <= at && at + 4 * c <= |cat|
    && IsWindowMax(m, h, w, c, 6, y, x, k, cat[at + k])
    && IsWindowMax(m, h, w, c, 4, y, x, k, cat[at + c + k])
    && IsWindowMax(m, h, w, c, 2, y, x, k, cat[at + 2 * c + k])
    && cat[at + 3 * c + k] == Val(m, h, w, c, y, x, k)
  }

  lemma WindowsShown(cat: Vec, m: seq<Vec>, r2: seq<Vec>, r4: seq<Vec>, r6: seq<Vec>, h: nat, w: nat, c: nat,
                     y: nat, x: nat, k: nat)
    requires IsMap(m, h, w, c) && IsMap(r2, h, w, c) && IsMap(r4, h, w, c) && IsMap(r6, h, w, c)
    requires IsPool(m, r2, h, w, c, 2) && IsPool(m, r4, h, w, c, 4) && IsPool(m, r6, h, w, c, 6)
    requires forall p :: 0 <= p < h * w ==> FourGroups(cat, p * (4 * c), c, r6[p], r4[p], r2[p], m[p])
    requires y < h && x < w && k < c
    ensures ShowsWindows(cat, m, h, w, c, y, x, k)
  {
    PointInRange(y, x, h, w);
    var p := y * w + x;
    assert FourGroups(cat, p * (4 * c), c, r6[p], r4[p], r2[p], m[p]);
    assert Val(r6, h, w, c, y, x, k) == r6[p][k] && Val(r4, h, w, c, y, x, k) == r4[p][k];
    assert Val(r2, h, w, c, y, x, k) == r2[p][k] && Val(m, h, w, c, y, x, k) == m[p][k];
  }

  /** The pooling part of the P3 stage: three chained pools sharing one scratch buffer, then
      the concatenation the next layer reads. Its four channel groups are the windows of
      radius 6, 4 and 2 of the map in a, and that map. */
  method Sppf(a: array<int8>, h: nat, w: nat, c: nat, p1: array<int8>, p2: array<int8>, p3: array<int8>,
              tmp: array<int8>, cat: array<int8>, ghost m: seq<Vec>)
    returns (ghost r2: seq<Vec>, ghost r4: seq<Vec>, ghost r6: seq<Vec>)
    requires InRoom(a[..], m, h, w, c)
    requires a != p1 && a != p2 && a != p3 && a != tmp && a != cat && p1 != p2 && p1 != p3 && p1 != tmp
    requires p1 != cat && p2 != p3 && p2 != tmp && p2 != cat && p3 != tmp && p3 != cat
    requires HasRoom(p1.Length, h, w, c) && HasRoom(p2.Length, h, w, c) && HasRoom(p3.Length, h, w, c)
    requires HasRoom(tmp.Length, h, w, c) && h * w * (4 * c) >= 0 && h * w * (4 * c) + Spare(c) <= cat.Length
    modifies p1, p2, p3, tmp, cat
    ensures IsMap(r2, h, w, c) && IsMap(r4, h, w, c) && IsMap(r6, h, w, c)
    ensures IsPool(m, r2, h, w, c, 2) && IsPool(m, r4, h, w, c, 4) && IsPool(m, r6, h, w, c, 6)
    ensures Holds(cat[..], 4 * c, Beside(r6, r4, r2, m), h * w)
    ensures forall y, x, k :: 0 <= y < h && 0 <= x < w && 0 <= k < c ==> ShowsWindows(cat[..], m, h, w, c, y, x, k)
  {
    r2 := PoolMap(m, h, w, c);
    r4 := PoolMap(r2, h, w, c);
    r6 := PoolMap(r4, h, w, c);
    MaxPool5x5(a, h, w, c, p1, tmp, m);
    MaxPool5x5(p1, h, w, c, p2, tmp, r2);
    MaxPool5x5(p2, h, w, c, p3, tmp, r4);
    Concat4(p3[..], p2[..], p1[..], a[..], c, h * w, cat, r6, r4, r2, m);
    CascadeWindows(m, h, w, c);
    forall y, x, k | 0 <= y < h && 0 <= x < w && 0 <= k < c ensures ShowsWindows(cat[..], m, h, w, c, y, x, k) {
      WindowsShown(cat[..], m, r2, r4, r6, h, w, c, y, x, k);
    }
  }
}

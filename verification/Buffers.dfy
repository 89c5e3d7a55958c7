// Flat byte buffers, as the kernels lay them out: a map of n-byte pixels is one
// array in which pixel p occupies the bytes [p*n, p*n + n).
module Buffers {

  type int8 = x: int | -128 <= x < 128

  type byte = x: int | 0 <= x < 256

  type Vec = seq<int8>

  datatype Option<+T> = None | Some(value: T)

  const TWO32 := 0x1_0000_0000

  /** The value of a C expression of type uint32_t. */
  function U32(x: int): (r: nat)
    ensures r < TWO32
    ensures 0 <= x < TWO32 ==> r == x
    ensures TWO32 <= x < 2 * TWO32 ==> r == x - TWO32
    ensures -TWO32 <= x < 0 ==> r == x + TWO32
  {
    x % TWO32
  }

  /** The value of a C expression of type int32_t, wrapping as the target does. */
  function I32(x: int): (r: int)
    ensures -0x8000_0000 <= r < 0x8000_0000
    ensures -0x8000_0000 <= x < 0x8000_0000 ==> r == x
  {
    (x + 0x8000_0000) % TWO32 - 0x8000_0000
  }

  /** One turn of the wrap, on either side. */
  lemma I32Wraps(x: int)
    ensures 0x8000_0000 <= x < 0x1_8000_0000 ==> I32(x) == x - TWO32
    ensures -0x1_8000_0000 <= x < -0x8000_0000 ==> I32(x) == x + TWO32
  {
  }

  function ClampI8(v: int): (r: int8)
    ensures -128 <= v <= 127 ==> r == v
    ensures v < -128 ==> r == -128
    ensures v > 127 ==> r == 127
  {
    if v < -128 then -128 else if v > 127 then 127 else v
  }

  /** Pixel p of a buffer of n-byte pixels. */
  function Block<T>(s: seq<T>, n: nat, p: nat): (b: seq<T>)
    requires p * n + n <= |s|
    ensures |b| == n
  {
    s[p * n..p * n + n]
  }

  /** s with v written at offset at. */
  function Splice<T>(s: seq<T>, at: nat, v: seq<T>): (r: seq<T>)
    requires at + |v| <= |s|
    ensures |r| == |s|
  {
    s[..at] + v + s[at + |v|..]
  }

  /** The buffer holds the pixels m[0], ..., m[n-1], c bytes each. */
  ghost predicate Holds<T>(s: seq<T>, c: nat, m: seq<seq<T>>, n: nat) {
    && n <= |m|
    && n * c <= |s|
    && (forall q :: 0 <= q < n ==> |m[q]| == c)
    && forall q {:trigger Block(s, c, q)} :: 0 <= q < n ==> q * c + c <= |s| && Block(s, c, q) == m[q]
  }

  lemma BlockEnd(p: nat, q: nat, n: nat)
    requires p < q
    ensures 0 <= p * n && p * n + n <= q * n
  {
    assert q * n == p * n + n + (q - p - 1) * n;
  }

  lemma SpliceExtend<T>(s: seq<T>, at: nat, v: seq<T>, x: T)
    requires at + |v| < |s|
    ensures Splice(s, at, v)[at + |v| := x] == Splice(s, at, v + [x])
  {
  }

  lemma SpliceUpTo<T>(s: seq<T>, at: nat, v: seq<T>, c: nat)
    requires c < |v| && at + |v| <= |s|
    ensures Splice(s, at, v[..c])[at + c := v[c]] == Splice(s, at, v[..c + 1])
  {
    SpliceExtend(s, at, v[..c], v[c]);
    assert v[..c] + [v[c]] == v[..c + 1];
  }

  lemma BlockOfSplice<T>(s: seq<T>, n: nat, p: nat, q: nat, v: seq<T>)
    requires p * n + n <= |s| && q * n + n <= |s| && |v| == n
    ensures Block(Splice(s, p * n, v), n, q) == if p == q then v else Block(s, n, q)
  {
    if p < q {
      BlockEnd(p, q, n);
    } else if q < p {
      BlockEnd(q, p, n);
    }
    SpliceSlice(s, p * n, v, q * n, n);
  }

  /** Reading back after a write: the slice written, or one that does not meet it. */
  lemma SpliceSlice<T>(s: seq<T>, at: nat, v: seq<T>, lo: nat, n: nat)
    requires at + |v| <= |s| && lo + n <= |s|
    requires lo + n <= at || at + |v| <= lo || (lo == at && n == |v|)
    ensures Splice(s, at, v)[lo..lo + n] == if lo == at && n == |v| then v else s[lo..lo + n]
  {
    var r := Splice(s, at, v);
    forall i | 0 <= i < |s|
      ensures r[i] == if at <= i < at + |v| then v[i - at] else s[i]
    {
    }
  }

  /** Writing pixel n extends a map that already holds pixels 0..n. */
  lemma HoldsExtend<T>(s: seq<T>, c: nat, m: seq<seq<T>>, n: nat)
    requires Holds(s, c, m, n) && n < |m| && |m[n]| == c && n * c + c <= |s|
    ensures Holds(Splice(s, n * c, m[n]), c, m, n + 1)
  {
    var s' := Splice(s, n * c, m[n]);
    assert (n + 1) * c == n * c + c;
    forall q | 0 <= q < n + 1
      ensures q * c + c <= |s'| && Block(s', c, q) == m[q]
    {
      if q < n { BlockEnd(q, n, c); }
      BlockOfSplice(s, c, n, q, m[n]);
    }
  }

  /** Rewriting pixel p of a held map. */
  lemma HoldsUpdate<T>(s: seq<T>, c: nat, m: seq<seq<T>>, n: nat, p: nat, v: seq<T>)
    requires Holds(s, c, m, n) && p < n && |v| == c
    ensures p * c + c <= |s|
    ensures Holds(Splice(s, p * c, v), c, m[p := v], n)
  {
    BlockEnd(p, n, c);
    forall q | 0 <= q < n
      ensures q * c + c <= |s| && Block(Splice(s, p * c, v), c, q) == m[p := v][q]
    {
      BlockEnd(q, n, c);
      BlockOfSplice(s, c, p, q, v);
      assert Block(s, c, q) == m[q];
    }
  }

  lemma HoldsAt<T>(s: seq<T>, c: nat, m: seq<seq<T>>, n: nat, q: nat)
    requires Holds(s, c, m, n) && q < n
    ensures q * c + c <= |s| && s[q * c..q * c + c] == m[q] && Block(s, c, q) == m[q]
  {
    BlockEnd(q, n, c);
    assert Block(s, c, q) == m[q];
  }

  lemma SliceOfSlice<T>(s: seq<T>, a: nat, n: nat, b: nat, c: nat)
    requires a + n <= |s| && b + c <= n
    ensures s[a..a + n][b..b + c] == s[a + b..a + b + c]
  {
    var l, r := s[a..a + n][b..b + c], s[a + b..a + b + c];
    assert |l| == |r| == c;
    forall i | 0 <= i < c ensures l[i] == r[i] {
      assert l[i] == s[a..a + n][b + i] == s[a + (b + i)];
    }
  }

  lemma PointInRange(y: nat, x: nat, h: nat, w: nat)
    requires y < h && x < w
    ensures 0 <= y * w && y * w + x < h * w
    ensures (y * w + x) / w == y && (y * w + x) % w == x
  {
    BlockEnd(y, h, w);
    DivModUnique(y * w + x, w, y, x);
  }

  lemma MulBounds(k: int, w: nat)
    ensures k >= 1 ==> k * w >= w
    ensures k <= -1 ==> k * w + w <= 0
    ensures k >= 0 ==> k * w >= 0
  {
    if k >= 1 {
      assert (k - 1) * w >= 0;
    } else if k <= -1 {
      assert (-1 - k) * w >= 0;
    }
  }

  lemma DivModUnique(a: int, w: nat, y: int, x: nat)
    requires x < w && a == y * w + x
    ensures a / w == y && a % w == x
  {
    assert a == a / w * w + a % w && 0 <= a % w < w;
    assert (a / w - y) * w == x - a % w;
    MulBounds(a / w - y, w);
  }

  /** Row and column of a position, in types. */
  lemma DivModNat(a: nat, w: nat)
    requires w > 0
    ensures 0 <= a / w && 0 <= a % w < w
  {
    assert a == a / w * w + a % w;
    MulBounds(a / w, w);
  }

  lemma PointSplit(p: nat, h: nat, w: nat)
    requires p < h * w
    ensures w > 0 && 0 <= p / w < h && 0 <= p % w < w
    ensures p == p / w * w + p % w
  {
    assert w > 0 by { assert w == 0 ==> h * w == 0; }
    assert p == p / w * w + p % w;
    assert (p / w - h) * w + p % w == p - h * w;
    MulBounds(p / w - h, w);
  }

  /** A step of at most r towards the target, leaving at most s. */
  function Toward(from: int, to: int, r: nat): (mid: int)
    ensures from - r <= mid <= from + r
    ensures (from <= mid <= to) || (to <= mid <= from)
    ensures mid == to || mid == from + r || mid == from - r
  {
    if to > from + r then from + r else if to < from - r then from - r else to
  }

  /** The byte copy loops of the kernels. */
  method CopyBytes(dst: array<int8>, off: nat, src: Vec)
    requires off + |src| <= dst.Length
    modifies dst
    ensures dst[..] == Splice(old(dst[..]), off, src)
  {
    for i := 0 to |src|
      invariant dst[..] == Splice(old(dst[..]), off, src[..i])
    {
      SpliceUpTo(old(dst[..]), off, src, i);
      dst[off + i] := src[i];
    }
    assert src[..|src|] == src;
  }

  // ---- The eight-lane copies of the YOLOv5n engine ----

  /** The number of chunks of eight that cover n bytes. */
  function Chunks(n: nat): (k: nat)
    ensures n <= 8 * k < n + 8
  {
    if n == 0 then 0 else if n <= 8 then 1 else 1 + Chunks(n - 8)
  }

  /** n rounded up to whole chunks. */
  function Round8(n: nat): (r: nat)
    ensures n <= r < n + 8
  {
    8 * Chunks(n)
  }

  /** The bytes a chunked copy of n bytes writes past them. */
  function Spare(n: nat): (k: nat)
    ensures k < 8 && n + k == Round8(n)
  {
    Round8(n) - n
  }

  lemma Round8Exact(n: nat)
    ensures Round8(n) == n <==> n % 8 == 0
  {
  }

  method VecCopy8(dst: array<int8>, off: nat, src: Vec)
    requires |src| == 8 && off + 8 <= dst.Length
    modifies dst
    ensures dst[..] == Splice(old(dst[..]), off, src)
  {
    CopyBytes(dst, off, src);
  }

  /** Eight more bytes of v, of which the first o are written. */
  method NextChunk(dst: array<int8>, off: nat, o: nat, chunk: Vec, ghost s0: Vec, ghost v: Vec)
    requires o + 8 <= |v| && off + |v| <= dst.Length == |s0| && chunk == v[o..o + 8]
    requires dst[..] == Splice(s0, off, v[..o])
    modifies dst
    ensures dst[..] == Splice(s0, off, v[..o + 8])
  {
    SpliceNext(s0, off, v, o);
    VecCopy8(dst, off + o, chunk);
  }

  /** vec_copy_bytes: chunks of eight, so a length that is not a multiple of eight copies more
      bytes than it says. */
  method VecCopyBytes(dst: array<int8>, off: nat, src: Vec, from: nat, n: nat)
    requires off + Round8(n) <= dst.Length && from + Round8(n) <= |src|
    modifies dst
    ensures dst[..] == Splice(old(dst[..]), off, src[from..from + Round8(n)])
  {
    ghost var s0, v, chunks, i := dst[..], src[from..from + Round8(n)], Chunks(n), 0;
    var o := 0;
    while o < n
      invariant i <= chunks && o == 8 * i && dst[..] == Splice(s0, off, v[..o])
    {
      assert i < chunks;
      var chunk := src[from + o..from + o + 8];
      assert chunk == v[o..o + 8] by { SliceOfSlice(src, from, Round8(n), o, 8); }
      NextChunk(dst, off, o, chunk, s0, v);
      o := o + 8;
      i := i + 1;
    }
    assert v[..|v|] == v;
  }

  lemma SpliceNext<T>(s: seq<T>, base: nat, v: seq<T>, ch: nat)
    requires ch + 8 <= |v| && base + |v| <= |s|
    ensures Splice(Splice(s, base, v[..ch]), base + ch, v[ch..ch + 8]) == Splice(s, base, v[..ch + 8])
  {
    assert v[..ch] + v[ch..ch + 8] == v[..ch + 8];
  }

  function Zeros(n: nat): (z: Vec)
    ensures |z| == n && forall i :: 0 <= i < n ==> z[i] == 0
  {
    seq<int8>(n, i => 0)
  }

  /** vec_zero_bytes, likewise in chunks of eight. */
  method VecZeroBytes(dst: array<int8>, off: nat, n: nat)
    requires off + Round8(n) <= dst.Length
    modifies dst
    ensures dst[..] == Splice(old(dst[..]), off, Zeros(Round8(n)))
  {
    ghost var s0, z, chunks, i := dst[..], Zeros(Round8(n)), Chunks(n), 0;
    var o := 0;
    while o < n
      invariant i <= chunks && o == 8 * i && dst[..] == Splice(s0, off, z[..o])
    {
      assert i < chunks;
      assert z[o..o + 8] == Zeros(8);
      NextChunk(dst, off, o, Zeros(8), s0, z);
      o := o + 8;
      i := i + 1;
    }
    assert z[..|z|] == z;
  }

  /** A chunked copy of n bytes leaves the bytes after them alone, whatever the source holds
      there, exactly when n is a multiple of eight. */
  lemma ChunkCopyIsExact(row: Vec, off: nat, n: nat)
    requires off + Round8(n) <= |row|
    ensures (forall v: Vec :: |v| == Round8(n) ==> Splice(row, off, v) == Splice(row, off, v[..n])) <==> n % 8 == 0
  {
    Round8Exact(n);
    if n % 8 == 0 {
      forall v: Vec | |v| == Round8(n) ensures Splice(row, off, v) == Splice(row, off, v[..n]) {
        assert v[..n] == v;
      }
    } else {
      var x: int8 := if row[off + n] == 0 then 1 else 0;
      var v := seq<int8>(Round8(n), _ => x);
      assert Splice(row, off, v)[off + n] == x;
      assert Splice(row, off, v[..n])[off + n] == row[off + n];
    }
  }
}

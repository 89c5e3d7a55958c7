// The blocked tile multiplication of the tensor kernel, over exact arithmetic: a tile is
// n x n numbers stored row by row, multiplied in blocks of 16 x 16.
module Matmul {
  import opened Buffers

  type Matrix = seq<real>

  /** Entry (i, j) of an n x n matrix stored row by row. */
  function At(m: Matrix, n: nat, i: nat, j: nat): real
    requires |m| == n * n && i < n && j < n
  {
    PointInRange(i, j, n, n);
    m[i * n + j]
  }

  function Prod(x: real, y: real): real { x * y }

  // ---- Plain matrix multiplication ----

  /** The first k products of row i of a with column j of b. */
  ghost function RowCol(a: Matrix, b: Matrix, n: nat, i: nat, j: nat, k: nat): real
    requires |a| == |b| == n * n && i < n && j < n && k <= n
  {
    if k == 0 then 0.0 else RowCol(a, b, n, i, j, k - 1) + Prod(At(a, n, i, k - 1), At(b, n, k - 1, j))
  }

  /** acc + a*b, entry by entry. */
  ghost function MulAcc(acc: Matrix, a: Matrix, b: Matrix, n: nat): (r: Matrix)
    requires |acc| == |a| == |b| == n * n
    ensures |r| == n * n
  {
    seq(n * n, p requires 0 <= p < n * n => PointSplit(p, n, n); acc[p] + RowCol(a, b, n, p / n, p % n, n))
  }

  lemma MulAccAt(acc: Matrix, a: Matrix, b: Matrix, n: nat, i: nat, j: nat)
    requires |acc| == |a| == |b| == n * n && i < n && j < n
    ensures At(MulAcc(acc, a, b, n), n, i, j) == At(acc, n, i, j) + RowCol(a, b, n, i, j, n)
  {
    PointInRange(i, j, n, n);
  }

  lemma SameMatrix(a: Matrix, b: Matrix, n: nat)
    requires |a| == |b| == n * n
    requires forall i, j :: 0 <= i < n && 0 <= j < n ==> At(a, n, i, j) == At(b, n, i, j)
    ensures a == b
  {
    forall p | 0 <= p < n * n ensures a[p] == b[p] {
      PointSplit(p, n, n);
      assert At(a, n, p / n, p % n) == At(b, n, p / n, p % n);
    }
  }

  // ---- The product is the bilinear one ----

  /** Where entry (p / n, q) of the left and entry (q, p % n) of the right factor lie. */
  lemma EntryPlaces(n: nat, p: nat, q: nat)
    requires p < n * n && q < n
    ensures n > 0 && p / n < n && p % n < n
    ensures 0 <= p / n * n && p / n * n + q < n * n && 0 <= q * n && q * n + p % n < n * n
  {
    PointSplit(p, n, n);
    PointInRange(p / n, q, n, n);
    PointInRange(q, p % n, n, n);
  }

  lemma {:induction false} RowColOfZeros(a: Matrix, b: Matrix, n: nat, i: nat, j: nat, k: nat)
    requires |a| == |b| == n * n && i < n && j < n && k <= n
    requires forall q :: 0 <= q < |a| ==> a[q] == 0.0
    ensures RowCol(a, b, n, i, j, k) == 0.0
  {
    if k > 0 {
      PointInRange(i, k - 1, n, n);
      RowColOfZeros(a, b, n, i, j, k - 1);
    }
  }

  /** A zero left factor adds nothing. */
  lemma ZeroTimes(acc: Matrix, a: Matrix, b: Matrix, n: nat)
    requires |acc| == |a| == |b| == n * n && forall q :: 0 <= q < |a| ==> a[q] == 0.0
    ensures MulAcc(acc, a, b, n) == acc
  {
    forall p | 0 <= p < n * n ensures MulAcc(acc, a, b, n)[p] == acc[p] {
      PointSplit(p, n, n);
      RowColOfZeros(a, b, n, p / n, p % n, n);
    }
  }

  lemma ProdIs(x: real, y: real)
    ensures Prod(x, y) == x * y
  {
  }

  /** One entry written, seen entry by entry. */
  lemma AtChange(a: Matrix, n: nat, i: nat, j: nat, r: nat, q: nat, x: real)
    requires |a| == n * n && i < n && j < n && r < n && q < n
    ensures 0 <= r * n && r * n + q < n * n
    ensures At(a[r * n + q := x], n, i, j) == if i == r && j == q then x else At(a, n, i, j)
  {
    PointInRange(r, q, n, n);
    PointInRange(i, j, n, n);
    SameEntry(n, i, j, r, q);
  }

  /** d is what a factor x instead of y makes of a product with z. */
  ghost predicate Moves(x: real, y: real, z: real, d: real) { Prod(x, z) == Prod(y, z) + d }

  lemma {:induction false} RowColChange(a: Matrix, b: Matrix, n: nat, i: nat, j: nat, k: nat, r: nat, q: nat, x: real,
                                        a': Matrix, d: real)
    requires |a| == |b| == |a'| == n * n && i < n && j < n && k <= n && r < n && q < n
    requires forall c :: 0 <= c < n ==> At(a', n, i, c) == if i == r && c == q then x else At(a, n, i, c)
    requires Moves(x, At(a, n, r, q), At(b, n, q, j), d)
    ensures RowCol(a', b, n, i, j, k) == RowCol(a, b, n, i, j, k) + if i == r && q < k then d else 0.0
  {
    if k > 0 {
      RowColChange(a, b, n, i, j, k - 1, r, q, x, a', d);
      assert At(a', n, i, k - 1) == if i == r && k - 1 == q then x else At(a, n, i, k - 1);
    }
  }

  lemma DifferenceMoves(x: real, y: real, z: real)
    ensures Moves(x, y, z, (x - y) * z)
  {
    TimesDifference(x, y, z);
  }

  lemma SameEntry(n: nat, i: nat, j: nat, r: nat, q: nat)
    requires i < n && j < n && r < n && q < n
    ensures i * n + j == r * n + q <==> i == r && j == q
  {
    DivModUnique(i * n + j, n, i, j);
    DivModUnique(r * n + q, n, r, q);
  }

  lemma TimesDifference(x: real, y: real, z: real)
    ensures x * z == y * z + (x - y) * z
  {
  }

  /** Changing entry (r, q) of the left factor by d moves entry (r, j) of the result by d times
      entry (q, j) of the right factor, for every j, and no other entry. */
  lemma EntryCounts(acc: Matrix, a: Matrix, b: Matrix, n: nat, r: nat, q: nat, x: real, p: nat)
    requires |acc| == |a| == |b| == n * n && r < n && q < n && p < n * n
    ensures 0 <= r * n && r * n + q < n * n && n > 0 && 0 <= q * n && q * n + p % n < n * n
    ensures MulAcc(acc, a[r * n + q := x], b, n)[p]
         == MulAcc(acc, a, b, n)[p] + if p / n == r then (x - a[r * n + q]) * b[q * n + p % n] else 0.0
  {
    EntryPlaces(n, p, q);
    PointInRange(r, q, n, n);
    ChangedEntry(acc, a, b, n, r, q, x, p, (x - a[r * n + q]) * b[q * n + p % n]);
  }

  lemma ChangedEntry(acc: Matrix, a: Matrix, b: Matrix, n: nat, r: nat, q: nat, x: real, p: nat, d: real)
    requires |acc| == |a| == |b| == n * n && r < n && q < n && p < n * n
    requires 0 <= r * n && r * n + q < n * n && n > 0 && 0 <= q * n && q * n + p % n < n * n
    requires d == (x - a[r * n + q]) * b[q * n + p % n]
    ensures MulAcc(acc, a[r * n + q := x], b, n)[p] == MulAcc(acc, a, b, n)[p] + if p / n == r then d else 0.0
  {
    PointSplit(p, n, n);
    DifferenceMoves(x, a[r * n + q], b[q * n + p % n]);
    var i, j := p / n, p % n;
    forall c | 0 <= c < n
      ensures At(a[r * n + q := x], n, i, c) == if i == r && c == q then x else At(a, n, i, c)
    {
      AtChange(a, n, i, c, r, q, x);
    }
    RowColChange(a, b, n, i, j, n, r, q, x, a[r * n + q := x], d);
  }

  /** u on the diagonal, 0.0 elsewhere. */
  ghost function Diagonal(n: nat, u: real): (m: Matrix)
    ensures |m| == n * n
  {
    seq(n * n, p requires 0 <= p < n * n => PointSplit(p, n, n); if p / n == p % n then u else 0.0)
  }

  lemma DiagonalAt(n: nat, u: real, i: nat, j: nat)
    requires i < n && j < n
    ensures At(Diagonal(n, u), n, i, j) == if i == j then u else 0.0
  {
    PointInRange(i, j, n, n);
  }

  lemma ProdZero(y: real)
    ensures Prod(0.0, y) == 0.0 && Prod(y, 0.0) == 0.0
  {
  }

  lemma {:induction false} RowOfDiagonal(d: Matrix, u: real, b: Matrix, n: nat, i: nat, j: nat, k: nat)
    requires |d| == |b| == n * n && i < n && j < n && k <= n && d == Diagonal(n, u)
    ensures RowCol(d, b, n, i, j, k) == if i < k then Prod(u, At(b, n, i, j)) else 0.0
  {
    if k > 0 {
      RowOfDiagonal(d, u, b, n, i, j, k - 1);
      DiagonalAt(n, u, i, k - 1);
      ProdZero(At(b, n, k - 1, j));
    }
  }

  lemma {:induction false} ColOfDiagonal(d: Matrix, u: real, b: Matrix, n: nat, i: nat, j: nat, k: nat)
    requires |d| == |b| == n * n && i < n && j < n && k <= n && d == Diagonal(n, u)
    ensures RowCol(b, d, n, i, j, k) == if j < k then Prod(At(b, n, i, j), u) else 0.0
  {
    if k > 0 {
      ColOfDiagonal(d, u, b, n, i, j, k - 1);
      DiagonalAt(n, u, k - 1, j);
      ProdZero(At(b, n, i, k - 1));
    }
  }

  /** Multiplying by u on the diagonal, on either side, adds u times the other factor. */
  lemma DiagonalScales(acc: Matrix, b: Matrix, n: nat, u: real, p: nat)
    requires |acc| == |b| == n * n && p < n * n
    ensures MulAcc(acc, Diagonal(n, u), b, n)[p] == acc[p] + u * b[p]
    ensures MulAcc(acc, b, Diagonal(n, u), n)[p] == acc[p] + b[p] * u
  {
    PointSplit(p, n, n);
    ProdIs(u, b[p]);
    ProdIs(b[p], u);
    RowOfDiagonal(Diagonal(n, u), u, b, n, p / n, p % n, n);
    ColOfDiagonal(Diagonal(n, u), u, b, n, p / n, p % n, n);
  }

  /** The unit matrix is neutral on either side. */
  lemma UnitIsNeutral(acc: Matrix, b: Matrix, n: nat, p: nat)
    requires |acc| == |b| == n * n && p < n * n
    ensures MulAcc(acc, Diagonal(n, 1.0), b, n)[p] == acc[p] + b[p]
    ensures MulAcc(acc, b, Diagonal(n, 1.0), n)[p] == acc[p] + b[p]
  {
    DiagonalScales(acc, b, n, 1.0, p);
  }

  // ---- Blocks of 16 x 16 ----

  type Tile = seq<seq<real>>

  ghost predicate IsTile(t: Tile) {
    |t| == 16 && forall r :: 0 <= r < 16 ==> |t[r]| == 16
  }

  /** The tile is block (br, bc) of the matrix. */
  ghost predicate IsBlock(t: Tile, m: Matrix, n: nat, br: nat, bc: nat)
    requires |m| == n * n && br * 16 + 16 <= n && bc * 16 + 16 <= n
  {
    IsTile(t) && forall r, c :: 0 <= r < 16 && 0 <= c < 16 ==> t[r][c] == At(m, n, br * 16 + r, bc * 16 + c)
  }

  /** Where row r of a block starts: base + r * rowStride, as the pointer walks. */
  lemma BlockRow(n: nat, br: nat, bc: nat, r: nat)
    requires br * 16 + 16 <= n && bc * 16 + 16 <= n && r < 16
    ensures 0 <= br * 16 * n && 0 <= r * n
    ensures br * 16 * n + bc * 16 + r * n == (br * 16 + r) * n + bc * 16
    ensures br * 16 * n + bc * 16 + r * n + 16 <= n * n
  {
    PointInRange(br * 16 + r, bc * 16 + 15, n, n);
    assert (br * 16 + r) * n == br * 16 * n + r * n;
    assert r * n >= 0 && br * 16 * n >= 0;
  }

  /** A block load: 16 rows of 16 numbers, n apart. */
  method LoadBlock(m: Matrix, n: nat, br: nat, bc: nat) returns (t: Tile)
    requires |m| == n * n && br * 16 + 16 <= n && bc * 16 + 16 <= n
    ensures IsBlock(t, m, n, br, bc)
  {
    t := [];
    for r := 0 to 16
      invariant |t| == r && forall k :: 0 <= k < r ==> |t[k]| == 16
      invariant forall k, c :: 0 <= k < r && 0 <= c < 16 ==> t[k][c] == At(m, n, br * 16 + k, bc * 16 + c)
    {
      BlockRow(n, br, bc, r);
      var base := br * 16 * n + bc * 16;
      t := t + [m[base + r * n..base + r * n + 16]];
    }
  }

  /** A block store; the rest of the matrix keeps its entries. */
  method StoreBlock(dst: array<real>, n: nat, br: nat, bc: nat, t: Tile)
    requires dst.Length == n * n && br * 16 + 16 <= n && bc * 16 + 16 <= n && IsTile(t)
    modifies dst
    ensures forall i, j :: 0 <= i < n && 0 <= j < n ==>
              At(dst[..], n, i, j)
              == if InBlock(i, j, br, bc) then t[i - br * 16][j - bc * 16] else At(old(dst[..]), n, i, j)
  {
    for r := 0 to 16
      invariant forall i, j :: 0 <= i < n && 0 <= j < n ==>
                  At(dst[..], n, i, j) == if InBlock(i, j, br, bc) && i < br * 16 + r then t[i - br * 16][j - bc * 16]
                                          else At(old(dst[..]), n, i, j)
    {
      ghost var before := dst[..];
      StoreRow(dst, n, br, bc, r, t[r]);
      forall i, j | 0 <= i < n && 0 <= j < n
        ensures At(dst[..], n, i, j) == if InBlock(i, j, br, bc) && i < br * 16 + r + 1 then t[i - br * 16][j - bc * 16]
                                        else At(old(dst[..]), n, i, j)
      {
        assert At(before, n, i, j) == if InBlock(i, j, br, bc) && i < br * 16 + r then t[i - br * 16][j - bc * 16]
                                      else At(old(dst[..]), n, i, j);
      }
    }
  }

  predicate InBlock(i: int, j: int, br: nat, bc: nat) {
    br * 16 <= i < br * 16 + 16 && bc * 16 <= j < bc * 16 + 16
  }

  method StoreRow(dst: array<real>, n: nat, br: nat, bc: nat, r: nat, row: seq<real>)
    requires dst.Length == n * n && br * 16 + 16 <= n && bc * 16 + 16 <= n && r < 16 && |row| == 16
    modifies dst
    ensures forall i, j :: 0 <= i < n && 0 <= j < n ==>
              At(dst[..], n, i, j) == if i == br * 16 + r && bc * 16 <= j < bc * 16 + 16 then row[j - bc * 16]
                                      else At(old(dst[..]), n, i, j)
  {
    BlockRow(n, br, bc, r);
    var base := br * 16 * n + bc * 16 + r * n;
    for c := 0 to 16
      invariant forall p :: 0 <= p < n * n ==> dst[p] == if base <= p < base + c then row[p - base] else old(dst[p])
    {
      dst[base + c] := row[c];
    }
    forall i, j | 0 <= i < n && 0 <= j < n
      ensures At(dst[..], n, i, j) == if i == br * 16 + r && bc * 16 <= j < bc * 16 + 16 then row[j - bc * 16]
                                      else At(old(dst[..]), n, i, j)
    {
      RowSpan(n, i, j, br * 16 + r, bc * 16);
    }
  }

  /** Position (i, j) lies in the 16 positions from (row, col) on exactly when it should. */
  lemma RowSpan(n: nat, i: nat, j: nat, row: nat, col: nat)
    requires i < n && j < n && row < n && col + 16 <= n
    ensures 0 <= i * n + j < n * n
    ensures row * n + col <= i * n + j < row * n + col + 16 <==> i == row && col <= j < col + 16
    ensures i == row ==> i * n + j - (row * n + col) == j - col
  {
    PointInRange(i, j, n, n);
    if i < row {
      BlockEnd(i, row, n);
    } else if row < i {
      BlockEnd(row, i, n);
    }
  }

  // ---- The tensor instruction ----

  ghost function TileDot(a: Tile, b: Tile, r: nat, c: nat, k: nat): real
    requires IsTile(a) && IsTile(b) && r < 16 && c < 16 && k <= 16
  {
    if k == 0 then 0.0 else TileDot(a, b, r, c, k - 1) + Prod(a[r][k - 1], b[k - 1][c])
  }

  ghost function FmaEntry(rf: Tile, a: Tile, b: Tile, r: nat, c: nat): real
    requires IsTile(rf) && IsTile(a) && IsTile(b) && r < 16 && c < 16
  {
    rf[r][c] + TileDot(a, b, r, c, 16)
  }

  /** tensor_fma on one block, taken as an exact multiply-accumulate. */
  method TensorFma(rf: Tile, a: Tile, b: Tile) returns (t: Tile)
    requires IsTile(rf) && IsTile(a) && IsTile(b)
    ensures IsTile(t) && forall r, c :: 0 <= r < 16 && 0 <= c < 16 ==> t[r][c] == FmaEntry(rf, a, b, r, c)
  {
    t := [];
    for r := 0 to 16
      invariant |t| == r && forall k :: 0 <= k < r ==> |t[k]| == 16
      invariant forall k, c :: 0 <= k < r && 0 <= c < 16 ==> t[k][c] == FmaEntry(rf, a, b, k, c)
    {
      var row: seq<real> := [];
      for c := 0 to 16
        invariant |row| == c && forall k :: 0 <= k < c ==> row[k] == FmaEntry(rf, a, b, r, k)
      {
        var s := 0.0;
        for k := 0 to 16
          invariant s == TileDot(a, b, r, c, k)
        {
          s := s + Prod(a[r][k], b[k][c]);
        }
        row := row + [rf[r][c] + s];
      }
      t := t + [row];
    }
  }

  /** k products more of the long dot product are k products of the block. */
  lemma {:induction false} BlockDot(lhs: Matrix, rhs: Matrix, n: nat, i: nat, j: nat, bk: nat, a: Tile, b: Tile,
                                    r: nat, c: nat, k: nat)
    requires |lhs| == |rhs| == n * n && i < n && j < n && bk * 16 + 16 <= n && r < 16 && c < 16 && k <= 16
    requires IsTile(a) && IsTile(b)
    requires forall q :: 0 <= q < 16 ==> a[r][q] == At(lhs, n, i, bk * 16 + q) && b[q][c] == At(rhs, n, bk * 16 + q, j)
    ensures RowCol(lhs, rhs, n, i, j, bk * 16 + k) == RowCol(lhs, rhs, n, i, j, bk * 16) + TileDot(a, b, r, c, k)
  {
    if k > 0 {
      BlockDot(lhs, rhs, n, i, j, bk, a, b, r, c, k - 1);
      assert a[r][k - 1] == At(lhs, n, i, bk * 16 + (k - 1)) && b[k - 1][c] == At(rhs, n, bk * 16 + (k - 1), j);
    }
  }

  /** Entry (r, c) of the register block after bk of the inner steps. */
  ghost predicate Accumulated(rf: Tile, acc: Matrix, lhs: Matrix, rhs: Matrix, n: nat, br: nat, bc: nat, k: nat)
    requires |acc| == |lhs| == |rhs| == n * n && br * 16 + 16 <= n && bc * 16 + 16 <= n && k <= n
  {
    && IsTile(rf)
    && forall r, c :: 0 <= r < 16 && 0 <= c < 16 ==>
         rf[r][c] == At(acc, n, br * 16 + r, bc * 16 + c) + RowCol(lhs, rhs, n, br * 16 + r, bc * 16 + c, k)
  }

  lemma AccumulateBlock(rf: Tile, rf': Tile, a: Tile, b: Tile, acc: Matrix, lhs: Matrix, rhs: Matrix, n: nat, br: nat,
                        bc: nat, bk: nat)
    requires |acc| == |lhs| == |rhs| == n * n && br * 16 + 16 <= n && bc * 16 + 16 <= n && bk * 16 + 16 <= n
    requires Accumulated(rf, acc, lhs, rhs, n, br, bc, bk * 16)
    requires IsBlock(a, lhs, n, br, bk) && IsBlock(b, rhs, n, bk, bc)
    requires IsTile(rf') && forall r, c :: 0 <= r < 16 && 0 <= c < 16 ==> rf'[r][c] == FmaEntry(rf, a, b, r, c)
    ensures Accumulated(rf', acc, lhs, rhs, n, br, bc, bk * 16 + 16)
  {
    forall r, c | 0 <= r < 16 && 0 <= c < 16
      ensures rf'[r][c] == At(acc, n, br * 16 + r, bc * 16 + c)
                           + RowCol(lhs, rhs, n, br * 16 + r, bc * 16 + c, bk * 16 + 16)
    {
      BlockDot(lhs, rhs, n, br * 16 + r, bc * 16 + c, bk, a, b, r, c, 16);
      assert rf[r][c] == At(acc, n, br * 16 + r, bc * 16 + c) + RowCol(lhs, rhs, n, br * 16 + r, bc * 16 + c, bk * 16);
    }
  }

  /** One block of the result: load it, accumulate along the inner dimension. */
  method BlockProduct(acc: Matrix, lhs: Matrix, rhs: Matrix, n: nat, blocks: nat, br: nat, bc: nat) returns (rf: Tile)
    requires n == blocks * 16 && |acc| == |lhs| == |rhs| == n * n && br < blocks && bc < blocks
    ensures Accumulated(rf, acc, lhs, rhs, n, br, bc, n)
  {
    rf := LoadBlock(acc, n, br, bc);
    for bk := 0 to blocks
      invariant Accumulated(rf, acc, lhs, rhs, n, br, bc, bk * 16)
    {
      var ab := LoadBlock(lhs, n, br, bk);
      var bb := LoadBlock(rhs, n, bk, bc);
      ghost var before := rf;
      rf := TensorFma(rf, ab, bb);
      AccumulateBlock(before, rf, ab, bb, acc, lhs, rhs, n, br, bc, bk);
    }
  }

  /** Blocks before (br, bc) in the loop order are final, the rest untouched. */
  ghost predicate Progress(now: Matrix, was: Matrix, full: Matrix, n: nat, br: nat, bc: nat)
    requires |now| == |was| == |full| == n * n
  {
    forall i, j :: 0 <= i < n && 0 <= j < n ==>
      At(now, n, i, j)
      == if i < br * 16 || (i < br * 16 + 16 && j < bc * 16) then At(full, n, i, j) else At(was, n, i, j)
  }

  /** tm_tensor_matmul_acc, for any tile size that is a multiple of 16: plain matrix
      multiplication added to the old contents. */
  method TensorMatmulAcc(dst: array<real>, lhs: Matrix, rhs: Matrix, n: nat, blocks: nat)
    requires n == blocks * 16 && dst.Length == n * n && |lhs| == |rhs| == n * n
    modifies dst
    ensures dst[..] == MulAcc(old(dst[..]), lhs, rhs, n)
  {
    ghost var was := dst[..];
    ghost var full := MulAcc(was, lhs, rhs, n);
    for brow := 0 to blocks
      invariant Progress(dst[..], was, full, n, brow, 0)
    {
      for bcol := 0 to blocks
        invariant Progress(dst[..], was, full, n, brow, bcol)
      {
        ghost var now := dst[..];
        var rf := BlockProduct(dst[..], lhs, rhs, n, blocks, brow, bcol);
        StoreBlock(dst, n, brow, bcol, rf);
        ProgressStep(now, dst[..], was, lhs, rhs, n, brow, bcol, rf);
      }
    }
    SameMatrix(dst[..], full, n);
  }

  lemma ProgressStep(now: Matrix, next: Matrix, was: Matrix, lhs: Matrix, rhs: Matrix, n: nat, br: nat, bc: nat,
                     rf: Tile)
    requires |now| == |next| == |was| == |lhs| == |rhs| == n * n && br * 16 + 16 <= n && bc * 16 + 16 <= n
    requires Progress(now, was, MulAcc(was, lhs, rhs, n), n, br, bc)
    requires Accumulated(rf, now, lhs, rhs, n, br, bc, n)
    requires forall i, j :: 0 <= i < n && 0 <= j < n ==>
               At(next, n, i, j) == if InBlock(i, j, br, bc) then rf[i - br * 16][j - bc * 16] else At(now, n, i, j)
    ensures Progress(next, was, MulAcc(was, lhs, rhs, n), n, br, bc + 1)
  {
    var full := MulAcc(was, lhs, rhs, n);
    forall i, j | 0 <= i < n && 0 <= j < n
      ensures At(next, n, i, j)
              == if i < br * 16 || (i < br * 16 + 16 && j < (bc + 1) * 16) then At(full, n, i, j) else At(was, n, i, j)
    {
      MulAccAt(was, lhs, rhs, n, i, j);
      assert At(now, n, i, j)
             == if i < br * 16 || (i < br * 16 + 16 && j < bc * 16) then At(full, n, i, j) else At(was, n, i, j);
      if InBlock(i, j, br, bc) {
        var r, c := i - br * 16, j - bc * 16;
        assert rf[r][c] == At(now, n, br * 16 + r, bc * 16 + c) + RowCol(lhs, rhs, n, br * 16 + r, bc * 16 + c, n);
      }
    }
  }
}

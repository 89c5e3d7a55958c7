// The stereo demo: 5x5 sums of absolute differences, the disparity of least cost at every
// valid pixel, and the split of the image into four stripes with their halo rows.
module Stereo {
  import opened Buffers

  const WIDTH := 96
  const HEIGHT := 64
  const DMAX := 32
  const RADIUS := 2
  const WINDOW := 2 * RADIUS + 1
  const STRIPES := 4
  const STRIPE_H := 16
  const INVALID: byte := 255
  const SEED := 0x5ad96320
  const VALID_PIXELS := 3050
  const INPUT_PIXELS := WIDTH * (STRIPE_H + 2 * RADIUS)
  const OUTPUT_PIXELS := WIDTH * STRIPE_H

  /** A pair of images. */
  datatype Scene = Scene(left: (int, int) -> byte, right: (int, int) -> byte)

  function AbsDiff(a: int, b: int): (r: nat)
    ensures r == 0 <==> a == b
    ensures r >= a - b && r >= b - a && (r == a - b || r == b - a)
  {
    if a > b then a - b else b - a
  }

  predicate InBandGuard(y: int) {
    AbsDiff(y, 21) <= RADIUS || AbsDiff(y, 42) <= RADIUS
  }

  predicate PixelValid(x: int, y: int) {
    && DMAX - 1 + RADIUS <= x < WIDTH - RADIUS
    && RADIUS <= y < HEIGHT - RADIUS
    && !InBandGuard(y)
  }

  // ---- Whole-image winner takes all ----

  /** One window row: the first n columns from x - RADIUS on. */
  ghost function RowCost(s: Scene, x: int, y: int, d: int, n: nat): (r: nat)
    ensures r <= 255 * n
  {
    if n == 0 then 0 else
      RowCost(s, x, y, d, n - 1) + AbsDiff(s.left(x - RADIUS + n - 1, y), s.right(x - RADIUS + n - 1 - d, y))
  }

  /** The first n window rows from y - RADIUS on. */
  ghost function RowsCost(s: Scene, x: int, y: int, d: int, n: nat): (r: nat)
    ensures r <= 255 * WINDOW * n
  {
    if n == 0 then 0 else RowsCost(s, x, y, d, n - 1) + RowCost(s, x, y - RADIUS + n - 1, d, WINDOW)
  }

  ghost function Cost(s: Scene, x: int, y: int, d: int): (r: nat)
    ensures r <= 6375
  {
    RowsCost(s, x, y, d, WINDOW)
  }

  /** The scenes differ at most in the left pixel (px, py). */
  ghost predicate LeftChange(s: Scene, t: Scene, px: int, py: int) {
    forall a, b :: t.right(a, b) == s.right(a, b) && (a != px || b != py ==> t.left(a, b) == s.left(a, b))
  }

  /** How far the left pixel (px, py) moves away from its right partner. */
  ghost predicate MovesBy(s: Scene, t: Scene, px: int, py: int, d: int, change: int) {
    var was: int, now: int, r: int := s.left(px, py), t.left(px, py), s.right(px - d, py);
    change == (if now > r then now - r else r - now) - (if was > r then was - r else r - was)
  }

  lemma {:induction false} RowCostOfChange(s: Scene, t: Scene, x: int, y: int, d: int, n: nat, px: int, py: int,
                                           change: int)
    requires LeftChange(s, t, px, py) && MovesBy(s, t, px, py, d, change)
    ensures RowCost(t, x, y, d, n)
         == RowCost(s, x, y, d, n) + if y == py && x - RADIUS <= px < x - RADIUS + n then change else 0
  {
    if n > 0 {
      RowCostOfChange(s, t, x, y, d, n - 1, px, py, change);
      var a := x - RADIUS + n - 1;
      assert t.right(a - d, y) == s.right(a - d, y) && (a != px || y != py ==> t.left(a, y) == s.left(a, y));
    }
  }

  lemma {:induction false} RowsCostOfChange(s: Scene, t: Scene, x: int, y: int, d: int, n: nat, px: int, py: int,
                                            change: int)
    requires LeftChange(s, t, px, py) && MovesBy(s, t, px, py, d, change)
    ensures RowsCost(t, x, y, d, n)
         == RowsCost(s, x, y, d, n)
            + if x - RADIUS <= px <= x + RADIUS && y - RADIUS <= py < y - RADIUS + n then change else 0
  {
    if n > 0 {
      RowsCostOfChange(s, t, x, y, d, n - 1, px, py, change);
      RowCostOfChange(s, t, x, y - RADIUS + n - 1, d, WINDOW, px, py, change);
    }
  }

  /** Changing one left pixel changes the cost by the change of its absolute difference to its
      partner d columns to the left, when it lies in the 5x5 window, and not at all otherwise. */
  lemma CostOfChange(s: Scene, t: Scene, x: int, y: int, d: int, px: int, py: int, change: int)
    requires LeftChange(s, t, px, py) && MovesBy(s, t, px, py, d, change)
    ensures Cost(t, x, y, d) == Cost(s, x, y, d) + if -2 <= px - x <= 2 && -2 <= py - y <= 2 then change else 0
  {
    RowsCostOfChange(s, t, x, y, d, WINDOW, px, py, change);
  }

  lemma {:induction false} MatchedRow(s: Scene, x: int, y: int, d: int, n: nat)
    requires forall a, b :: s.left(a, b) == s.right(a - d, b)
    ensures RowCost(s, x, y, d, n) == 0
  {
    if n > 0 {
      MatchedRow(s, x, y, d, n - 1);
    }
  }

  lemma {:induction false} MatchedRows(s: Scene, x: int, y: int, d: int, n: nat)
    requires forall a, b :: s.left(a, b) == s.right(a - d, b)
    ensures RowsCost(s, x, y, d, n) == 0
  {
    if n > 0 {
      MatchedRows(s, x, y, d, n - 1);
      MatchedRow(s, x, y - RADIUS + n - 1, d, WINDOW);
    }
  }

  /** Images that match at disparity d cost nothing there. */
  lemma MatchCostsNothing(s: Scene, x: int, y: int, d: int)
    requires forall a, b :: s.left(a, b) == s.right(a - d, b)
    ensures Cost(s, x, y, d) == 0
  {
    MatchedRows(s, x, y, d, WINDOW);
  }

  /** The lowest disparity of least cost among the first n. */
  ghost function Best(s: Scene, x: int, y: int, n: nat): (d: nat)
    requires n > 0
    ensures d < n
  {
    if n == 1 then 0 else
      var b := Best(s, x, y, n - 1);
      if Cost(s, x, y, n - 1) < Cost(s, x, y, b) then n - 1 else b
  }

  /** d costs least, and less than every smaller disparity. */
  ghost predicate IsWinner(s: Scene, x: int, y: int, n: nat, d: nat) {
    && d < n
    && (forall e :: 0 <= e < n ==> Cost(s, x, y, d) <= Cost(s, x, y, e))
    && (forall e :: 0 <= e < d ==> Cost(s, x, y, d) < Cost(s, x, y, e))
  }

  lemma {:induction false} BestIsWinner(s: Scene, x: int, y: int, n: nat)
    requires n > 0
    ensures IsWinner(s, x, y, n, Best(s, x, y, n))
    ensures forall d :: IsWinner(s, x, y, n, d) ==> d == Best(s, x, y, n)
  {
    if n > 1 {
      BestIsWinner(s, x, y, n - 1);
    }
    forall d | IsWinner(s, x, y, n, d) ensures d == Best(s, x, y, n) {
      WinnerUnique(s, x, y, n, d, Best(s, x, y, n));
    }
  }

  lemma WinnerUnique(s: Scene, x: int, y: int, n: nat, a: nat, b: nat)
    requires IsWinner(s, x, y, n, a) && IsWinner(s, x, y, n, b)
    ensures a == b
  {
    var (ca, cb) := (Cost(s, x, y, a), Cost(s, x, y, b));
  }

  /** The disparity of the pixel (x, y) of the image. */
  ghost function Disparity(s: Scene, x: int, y: int): (v: byte) {
    if PixelValid(x, y) then Best(s, x, y, DMAX) else INVALID
  }

  ghost function WholeMap(s: Scene): (m: seq<byte>) {
    seq<byte>(WIDTH * HEIGHT, i requires 0 <= i < WIDTH * HEIGHT => Disparity(s, i % WIDTH, i / WIDTH))
  }

  // ---- Stripes ----

  function StripeY0(stripe: nat): nat { stripe * STRIPE_H }

  function HaloY0(stripe: nat): nat {
    if StripeY0(stripe) > RADIUS then StripeY0(stripe) - RADIUS else 0
  }

  function HaloRows(stripe: nat): int {
    var y1 := StripeY0(stripe) + STRIPE_H + RADIUS;
    (if y1 > HEIGHT then HEIGHT else y1) - HaloY0(stripe)
  }

  /** The halo of a stripe: its rows and two more on either side, as far as the image goes. */
  lemma HaloExactly(k: nat, y: int)
    requires k < STRIPES
    ensures HaloY0(k) <= y < HaloY0(k) + HaloRows(k) <==> 0 <= y < 64 && 16 * k - 2 <= y < 16 * k + 18
  {
  }

  ghost function StripeMap(s: Scene, stripe: nat): (m: seq<byte>)
    ensures |m| == OUTPUT_PIXELS
  {
    seq<byte>(OUTPUT_PIXELS, i requires 0 <= i < OUTPUT_PIXELS => Disparity(s, i % WIDTH, StripeY0(stripe) + i / WIDTH))
  }

  /** The stripes side by side are the whole image. */
  lemma StripesMakeWhole(s: Scene, k: nat)
    requires k < STRIPES
    ensures STRIPES * OUTPUT_PIXELS == |WholeMap(s)|
    ensures WholeMap(s)[k * OUTPUT_PIXELS..k * OUTPUT_PIXELS + OUTPUT_PIXELS] == StripeMap(s, k)
  {
    var off, whole, part := k * OUTPUT_PIXELS, WholeMap(s), StripeMap(s, k);
    forall j | 0 <= j < OUTPUT_PIXELS ensures whole[off + j] == part[j] {
      StripeRow(k, j);
    }
  }

  lemma StripeRow(k: nat, j: nat)
    ensures (k * OUTPUT_PIXELS + j) / WIDTH == StripeY0(k) + j / WIDTH
    ensures (k * OUTPUT_PIXELS + j) % WIDTH == j % WIDTH
  {
    DivModUnique(k * OUTPUT_PIXELS + j, WIDTH, StripeY0(k) + j / WIDTH, j % WIDTH);
  }

  /** The valid pixels among the first n of row y. */
  ghost function ColumnsValid(y: int, n: nat): (r: nat)
    ensures r <= n
  {
    if n == 0 then 0 else ColumnsValid(y, n - 1) + if PixelValid(n - 1, y) then 1 else 0
  }

  /** The valid pixels of the first n rows from y0 on. */
  ghost function ValidCount(y0: nat, n: nat): (r: nat)
    ensures r <= WIDTH * n
  {
    if n == 0 then 0 else ValidCount(y0, n - 1) + ColumnsValid(y0 + n - 1, WIDTH)
  }

  /** Row oy, column x of a stripe. */
  lemma StripeAt(s: Scene, stripe: nat, oy: nat, x: nat, i: nat)
    requires oy < STRIPE_H && x < WIDTH && i == oy * WIDTH + x
    ensures StripeMap(s, stripe)[i] == Disparity(s, x, StripeY0(stripe) + oy)
  {
    assert i / WIDTH == oy && i % WIDTH == x;
  }

  /** The packet image: the halo rows of one image, then zeros. */
  ghost function HaloImage(f: (int, int) -> byte, y0: nat, rows: nat): (m: seq<byte>)
    ensures |m| == INPUT_PIXELS
  {
    seq<byte>(INPUT_PIXELS, i requires 0 <= i < INPUT_PIXELS =>
      if i < rows * WIDTH then f(i % WIDTH, y0 + i / WIDTH) else 0)
  }

  /** Row by row, a packet image shows the rows of f from y0 on. */
  ghost predicate ShowsRows(m: seq<byte>, f: (int, int) -> byte, y0: nat, rows: nat) {
    && |m| == INPUT_PIXELS && rows * WIDTH <= INPUT_PIXELS
    && forall i :: 0 <= i < rows * WIDTH ==> m[i] == f(i % WIDTH, y0 + i / WIDTH)
  }

  /** The contents of an input packet. */
  datatype Packet = Packet(stripe: nat, y0: nat, stripeH: nat, haloY0: nat, haloRows: nat, width: nat, height: nat,
                           dmax: nat, radius: nat, seed: nat, left: seq<byte>, right: seq<byte>)
  {
    /** depth_stereo_sad_input_valid. */
    predicate Valid() {
      && stripe < STRIPES && y0 == StripeY0(stripe) && stripeH == STRIPE_H
      && haloY0 == HaloY0(stripe) && haloRows == HaloRows(stripe)
      && width == WIDTH && height == HEIGHT && dmax == DMAX && radius == RADIUS && seed == SEED
    }
  }

  /** The packet the source fills for stripe k. */
  ghost function PacketOf(s: Scene, k: nat): (p: Packet)
    requires k < STRIPES
    ensures p.Valid()
  {
    Packet(k, StripeY0(k), STRIPE_H, HaloY0(k), HaloRows(k), WIDTH, HEIGHT, DMAX, RADIUS, SEED,
           HaloImage(s.left, HaloY0(k), HaloRows(k)), HaloImage(s.right, HaloY0(k), HaloRows(k)))
  }

  /** The contents of an output packet. */
  datatype Answer = Answer(stripe: nat, y0: nat, stripeH: nat, width: nat, height: nat, dmax: nat, radius: nat,
                           validPixels: nat, disparity: seq<byte>)
  {
    /** depth_stereo_sad_output_valid. */
    predicate Valid(port: nat) {
      && stripe == port && stripe < STRIPES && y0 == StripeY0(stripe) && stripeH == STRIPE_H
      && width == WIDTH && height == HEIGHT && dmax == DMAX && radius == RADIUS
    }
  }

  /** The answer for stripe k of a scene. */
  ghost function AnswerFor(s: Scene, k: nat): Answer {
    Answer(k, StripeY0(k), STRIPE_H, WIDTH, HEIGHT, DMAX, RADIUS, ValidCount(StripeY0(k), STRIPE_H), StripeMap(s, k))
  }

  class InputPacket {
    var stripe: nat
    var y0: nat
    var stripeH: nat
    var haloY0: nat
    var haloRows: nat
    var width: nat
    var height: nat
    var dmax: nat
    var radius: nat
    var seed: nat
    const left: array<byte>
    const right: array<byte>

    constructor ()
      ensures fresh(left) && fresh(right) && left != right
      ensures left.Length == INPUT_PIXELS && right.Length == INPUT_PIXELS
    {
      left := new byte[INPUT_PIXELS](_ => 0);
      right := new byte[INPUT_PIXELS](_ => 0);
    }

    ghost function Value(): Packet
      reads this, left, right
    {
      Packet(stripe, y0, stripeH, haloY0, haloRows, width, height, dmax, radius, seed, left[..], right[..])
    }

    /** depth_stereo_sad_input_valid. */
    predicate HeaderValid()
      reads this
    {
      && stripe < STRIPES && y0 == StripeY0(stripe) && stripeH == STRIPE_H
      && haloY0 == HaloY0(stripe) && haloRows == HaloRows(stripe)
      && width == WIDTH && height == HEIGHT && dmax == DMAX && radius == RADIUS && seed == SEED
    }

    /** A packet whose halo rows show the scene. */
    ghost predicate Carries(s: Scene, k: nat)
      reads this, left, right
    {
      && HeaderValid() && stripe == k
      && ShowsRows(left[..], s.left, haloY0, haloRows) && ShowsRows(right[..], s.right, haloY0, haloRows)
    }

    /** The header of stripe k. */
    method SetHeader(k: nat)
      requires k < STRIPES
      modifies this
      ensures HeaderValid() && stripe == k
    {
      stripe, y0, stripeH := k, StripeY0(k), STRIPE_H;
      haloY0, haloRows := HaloY0(k), HaloRows(k);
      width, height, dmax, radius, seed := WIDTH, HEIGHT, DMAX, RADIUS, SEED;
    }

    /** The halo rows of both images over cleared ones. */
    static method FillHalo(left: array<byte>, right: array<byte>, y0: nat, rows: nat, s: Scene)
      requires left != right && left.Length == right.Length == INPUT_PIXELS && rows * WIDTH <= INPUT_PIXELS
      requires left[..] == HaloImage(s.left, y0, 0) && right[..] == HaloImage(s.right, y0, 0)
      modifies left, right
      ensures left[..] == HaloImage(s.left, y0, rows) && right[..] == HaloImage(s.right, y0, rows)
    {
      for row := 0 to rows
        invariant left[..] == HaloImage(s.left, y0, row) && right[..] == HaloImage(s.right, y0, row)
      {
        FillRow(left, s.left, y0, row);
        FillRow(right, s.right, y0, row);
      }
    }

    /** depth_stereo_sad_fill_input_packet. */
    method Fill(k: nat, s: Scene)
      requires k < STRIPES && left != right && left.Length == INPUT_PIXELS && right.Length == INPUT_PIXELS
      modifies this, left, right
      ensures Value() == PacketOf(s, k) && Carries(s, k)
    {
      Clear(left);
      Clear(right);
      SetHeader(k);
      FillHalo(left, right, haloY0, haloRows, s);
    }

    static method Clear(a: array<byte>)
      requires a.Length == INPUT_PIXELS
      modifies a
      ensures forall f, y0 :: a[..] == HaloImage(f, y0, 0)
    {
      for i := 0 to INPUT_PIXELS
        invariant forall j :: 0 <= j < i ==> a[j] == 0
      {
        a[i] := 0;
      }
    }

    static method FillRow(a: array<byte>, f: (int, int) -> byte, y0: nat, row: nat)
      requires a.Length == INPUT_PIXELS && row * WIDTH + WIDTH <= INPUT_PIXELS && a[..] == HaloImage(f, y0, row)
      modifies a
      ensures a[..] == HaloImage(f, y0, row + 1)
    {
      ghost var was, now := HaloImage(f, y0, row), HaloImage(f, y0, row + 1);
      for x := 0 to WIDTH
        invariant forall i :: 0 <= i < INPUT_PIXELS ==> a[i] == if i < row * WIDTH + x then now[i] else was[i]
      {
        var idx := row * WIDTH + x;
        assert idx / WIDTH == row && idx % WIDTH == x;
        a[idx] := f(x, y0 + row);
      }
    }

    /** depth_stereo_sad_cost_at: the window around (x, local row) of the packet. */
    method CostAt(x: nat, localY: nat, d: nat, ghost s: Scene, ghost y: nat) returns (cost: nat)
      requires Carries(s, stripe) && y == haloY0 + localY
      requires RADIUS <= localY && localY + RADIUS < haloRows && d + RADIUS <= x && x + RADIUS < WIDTH
      ensures cost == Cost(s, x, y, d)
    {
      cost := 0;
      for wy := localY - RADIUS to localY + RADIUS + 1
        invariant cost == RowsCost(s, x, y, d, wy - (localY - RADIUS))
      {
        var row := CostRow(x, wy, d, s);
        cost := cost + row;
      }
      cost := cost % 0x1_0000;
    }

    lemma PixelsAt(s: Scene, x: nat, row: nat, at: nat)
      requires Carries(s, stripe) && x < WIDTH && row < haloRows && at == row * WIDTH + x
      ensures at < left.Length && at < right.Length
      ensures left[at] == s.left(x, haloY0 + row) && right[at] == s.right(x, haloY0 + row)
    {
      assert at / WIDTH == row && at % WIDTH == x;
      assert left[at] == left[..][at] && right[at] == right[..][at];
    }

    /** One pixel of a window row. */
    method CostPixel(wx: nat, wy: nat, d: nat, ghost s: Scene) returns (diff: nat)
      requires Carries(s, stripe) && wy < haloRows && d <= wx < WIDTH
      ensures diff == AbsDiff(s.left(wx, haloY0 + wy), s.right(wx - d, haloY0 + wy))
    {
      var at := wy * WIDTH + wx;
      PixelsAt(s, wx, wy, at);
      PixelsAt(s, wx - d, wy, at - d);
      var lv, rv := left[at], right[at - d];
      diff := if lv > rv then lv - rv else rv - lv;
    }

    /** One window row. */
    method CostRow(x: nat, wy: nat, d: nat, ghost s: Scene) returns (cost: nat)
      requires Carries(s, stripe) && wy < haloRows && d + RADIUS <= x && x + RADIUS < WIDTH
      ensures cost == RowCost(s, x, haloY0 + wy, d, WINDOW)
    {
      cost := 0;
      for wx := x - RADIUS to x + RADIUS + 1
        invariant cost == RowCost(s, x, haloY0 + wy, d, wx - (x - RADIUS))
      {
        var diff := CostPixel(wx, wy, d, s);
        cost := cost + diff;
      }
    }

    /** depth_stereo_sad_best_disparity. */
    method BestDisparity(x: nat, localY: nat, ghost s: Scene, ghost y: nat) returns (bestD: byte, bestCost: nat)
      requires Carries(s, stripe) && y == haloY0 + localY
      requires RADIUS <= localY && localY + RADIUS < haloRows && DMAX - 1 + RADIUS <= x && x + RADIUS < WIDTH
      ensures bestD == Best(s, x, y, DMAX) && bestCost == Cost(s, x, y, bestD)
    {
      var best: nat := TWO32 - 1;
      bestD := 0;
      for d := 0 to DMAX
        invariant LeastSoFar(s, x, y, d, bestD, best)
      {
        var cost := CostAt(x, localY, d, s, y);
        LeastStep(s, x, y, d, bestD, best);
        if cost < best {
          best, bestD := cost, d;
        }
      }
      bestCost := best % 0x1_0000;
    }
  }

  /** The running minimum over the first n disparities. */
  ghost predicate LeastSoFar(s: Scene, x: int, y: int, n: nat, d: nat, cost: nat) {
    if n == 0 then d == 0 && cost == TWO32 - 1 else d == Best(s, x, y, n) && cost == Cost(s, x, y, d)
  }

  lemma LeastStep(s: Scene, x: int, y: int, n: nat, d: nat, cost: nat)
    requires LeastSoFar(s, x, y, n, d, cost)
    ensures var next := Cost(s, x, y, n);
            if next < cost then LeastSoFar(s, x, y, n + 1, n, next) else LeastSoFar(s, x, y, n + 1, d, cost)
  {
  }

  // ---- The worker ----

  class OutputPacket {
    var stripe: nat
    var y0: nat
    var stripeH: nat
    var width: nat
    var height: nat
    var dmax: nat
    var radius: nat
    var validPixels: nat
    const disparity: array<byte>

    constructor ()
      ensures fresh(disparity) && disparity.Length == OUTPUT_PIXELS
    {
      disparity := new byte[OUTPUT_PIXELS](_ => 0);
    }

    /** The header checks of depth_stereo_sad_output_valid. */
    predicate HeaderValid(port: nat)
      reads this
    {
      && stripe == port && stripe < STRIPES && y0 == StripeY0(stripe) && stripeH == STRIPE_H
      && width == WIDTH && height == HEIGHT && dmax == DMAX && radius == RADIUS
    }

    ghost function Value(): Answer
      reads this, disparity
    {
      Answer(stripe, y0, stripeH, width, height, dmax, radius, validPixels, disparity[..])
    }

    /** depth_stereo_sad_compute_stripe. */
    method ComputeStripe(pkt: InputPacket, ghost s: Scene)
      requires pkt.Carries(s, pkt.stripe) && disparity.Length == OUTPUT_PIXELS
      requires pkt.left != disparity && pkt.right != disparity
      modifies this, disparity
      ensures Value() == AnswerFor(s, pkt.stripe)
    {
      for i := 0 to OUTPUT_PIXELS {
        disparity[i] := INVALID;
      }
      stripe, y0, stripeH := pkt.stripe, pkt.y0, STRIPE_H;
      width, height, dmax, radius := WIDTH, HEIGHT, DMAX, RADIUS;
      var count := 0;
      for oy := 0 to STRIPE_H
        invariant HeaderValid(pkt.stripe) && pkt.Carries(s, pkt.stripe)
        invariant count == ValidCount(y0, oy)
        invariant disparity[..oy * WIDTH] == StripeMap(s, stripe)[..oy * WIDTH]
      {
        count := ComputeRow(pkt, oy, count, s);
      }
      validPixels := count;
      assert disparity[..] == disparity[..OUTPUT_PIXELS];
    }

    /** One row of the stripe. */
    method ComputeRow(pkt: InputPacket, oy: nat, count0: nat, ghost s: Scene) returns (count: nat)
      requires pkt.Carries(s, pkt.stripe) && HeaderValid(pkt.stripe) && disparity.Length == OUTPUT_PIXELS
      requires pkt.left != disparity && pkt.right != disparity && oy < STRIPE_H
      requires count0 == ValidCount(y0, oy)
      requires disparity[..oy * WIDTH] == StripeMap(s, stripe)[..oy * WIDTH]
      modifies disparity
      ensures pkt.Carries(s, pkt.stripe)
      ensures count == ValidCount(y0, oy + 1)
      ensures disparity[..(oy + 1) * WIDTH] == StripeMap(s, stripe)[..(oy + 1) * WIDTH]
    {
      count := count0;
      var idx := oy * WIDTH;
      for x := 0 to WIDTH
        invariant idx == oy * WIDTH + x && pkt.Carries(s, pkt.stripe)
        invariant count == ValidCount(y0, oy) + ColumnsValid(y0 + oy, x)
        invariant disparity[..idx] == StripeMap(s, stripe)[..idx]
      {
        count := ComputeNext(pkt, oy, x, idx, count, s);
        idx := idx + 1;
      }
      assert idx == (oy + 1) * WIDTH;
    }

    /** One pixel of the row, after the pixels before it. */
    method ComputeNext(pkt: InputPacket, oy: nat, x: nat, idx: nat, count0: nat, ghost s: Scene) returns (count: nat)
      requires pkt.Carries(s, pkt.stripe) && HeaderValid(pkt.stripe) && disparity.Length == OUTPUT_PIXELS
      requires pkt.left != disparity && pkt.right != disparity
      requires oy < STRIPE_H && x < WIDTH && idx == oy * WIDTH + x
      requires count0 == ValidCount(y0, oy) + ColumnsValid(y0 + oy, x)
               && disparity[..idx] == StripeMap(s, stripe)[..idx]
      modifies disparity
      ensures pkt.Carries(s, pkt.stripe)
      ensures count == ValidCount(y0, oy) + ColumnsValid(y0 + oy, x + 1)
              && disparity[..idx + 1] == StripeMap(s, stripe)[..idx + 1]
    {
      StripeAt(s, stripe, oy, x, idx);
      var disp, valid := ComputePixel(pkt, x, y0 + oy, s);
      count := count0 + if valid then 1 else 0;
      PutNext(disparity, idx, disp, StripeMap(s, stripe));
    }

    static method PutNext(a: array<byte>, idx: nat, v: byte, ghost m: seq<byte>)
      requires idx < a.Length == |m| && a[..idx] == m[..idx] && v == m[idx]
      modifies a
      ensures a[..idx + 1] == m[..idx + 1]
    {
      a[idx] := v;
    }

    /** One pixel: the local row of the packet is the image row less the halo's first row. */
    static method ComputePixel(pkt: InputPacket, x: nat, y: nat, ghost s: Scene) returns (disp: byte, valid: bool)
      requires pkt.Carries(s, pkt.stripe) && pkt.y0 <= y < pkt.y0 + STRIPE_H && x < WIDTH
      ensures disp == Disparity(s, x, y) && valid == PixelValid(x, y)
    {
      disp := INVALID;
      valid := PixelValid(x, y);
      if valid {
        var bestCost;
        disp, bestCost := pkt.BestDisparity(x, y - pkt.haloY0, s, y);
      }
    }

    /** One pixel: its valid count, or nothing when the disparity is another one. */
    method CheckPixel(oy: nat, x: nat, idx: nat, n0: nat) returns (n: Option<nat>)
      requires disparity.Length == OUTPUT_PIXELS && oy < STRIPE_H && x < WIDTH && idx == oy * WIDTH + x
      requires disparity[..idx] == ExpectedMap(y0)[..idx]
      ensures match n
              case Some(k) => k == n0 + (if PixelValid(x, y0 + oy) then 1 else 0)
                              && disparity[..idx + 1] == ExpectedMap(y0)[..idx + 1]
              case None => disparity[..] != ExpectedMap(y0)
    {
      var want := Expected(x, y0 + oy);
      n := Some(if want != INVALID then n0 + 1 else n0);
      ExpectedAt(y0, oy, x, idx);
      if disparity[idx] != want {
        DiffersAt(disparity[..], ExpectedMap(y0), idx);
        n := None;
      } else {
        PrefixNext(disparity[..], ExpectedMap(y0), idx);
      }
    }

    /** Row oy of the check: the number of valid pixels so far, or the first mismatch. */
    method CheckRow(oy: nat, count0: nat) returns (count: Option<nat>)
      requires disparity.Length == OUTPUT_PIXELS && oy < STRIPE_H && count0 == ValidCount(y0, oy)
      requires disparity[..oy * WIDTH] == ExpectedMap(y0)[..oy * WIDTH]
      ensures match count
              case Some(n) => n == ValidCount(y0, oy + 1)
                              && disparity[..(oy + 1) * WIDTH] == ExpectedMap(y0)[..(oy + 1) * WIDTH]
              case None => disparity[..] != ExpectedMap(y0)
    {
      var n, idx := count0, oy * WIDTH;
      for x := 0 to WIDTH
        invariant idx == oy * WIDTH + x && n == count0 + ColumnsValid(y0 + oy, x)
        invariant disparity[..idx] == ExpectedMap(y0)[..idx]
      {
        var next := CheckPixel(oy, x, idx, n);
        if next == None {
          return None;
        }
        n := next.value;
        idx := idx + 1;
      }
      NextRowOf(y0, oy, idx);
      return Some(n);
    }

    /** depth_stereo_sad_check_output: the count is given only when everything matches. */
    method CheckOutput() returns (valid: Option<nat>)
      requires disparity.Length == OUTPUT_PIXELS
      ensures valid == if disparity[..] == ExpectedMap(y0) && validPixels == ValidCount(y0, STRIPE_H)
                       then Some(validPixels) else None
    {
      var count := 0;
      for oy := 0 to STRIPE_H
        invariant count == ValidCount(y0, oy) && disparity[..oy * WIDTH] == ExpectedMap(y0)[..oy * WIDTH]
      {
        var row := CheckRow(oy, count);
        if row.None? {
          return None;
        }
        count := row.value;
      }
      assert disparity[..] == disparity[..OUTPUT_PIXELS];
      if validPixels != count {
        return None;
      }
      return Some(count);
    }

    /** The two checks on the packet received on a port. */
    method Accept(port: nat) returns (valid: Option<nat>)
      requires disparity.Length == OUTPUT_PIXELS
      ensures valid == CheckAnswer(Value(), port)
    {
      if !HeaderValid(port) {
        return None;
      }
      valid := CheckOutput();
    }
  }

  /** What the checker makes of an answer on a port. */
  ghost function CheckAnswer(o: Answer, port: nat): Option<nat> {
    if o.Valid(port) && o.disparity == ExpectedMap(o.y0) && o.validPixels == ValidCount(o.y0, STRIPE_H)
    then Some(o.validPixels) else None
  }

  // ---- A worker sees only its packet ----

  /** The scene a packet shows, dark outside its rows. */
  ghost function SceneIn(p: Packet): Scene {
    Scene((x: int, y: int) => PacketPixel(p.left, p.haloY0, x, y),
          (x: int, y: int) => PacketPixel(p.right, p.haloY0, x, y))
  }

  function PacketPixel(m: seq<byte>, y0: nat, x: int, y: int): byte {
    var i := (y - y0) * WIDTH + x;
    if 0 <= i < |m| then m[i] else 0
  }

  /** What a worker makes of a packet. */
  ghost function Compute(p: Packet): Answer { AnswerFor(SceneIn(p), p.stripe) }

  /** A valid packet of full size carries its own scene, so the worker computes Compute. */
  lemma CarriesItsScene(pkt: InputPacket)
    requires pkt.HeaderValid() && pkt.left.Length == pkt.right.Length == INPUT_PIXELS
    ensures pkt.Carries(SceneIn(pkt.Value()), pkt.stripe)
  {
    var s, y0 := SceneIn(pkt.Value()), pkt.haloY0;
    forall i | 0 <= i < pkt.haloRows * WIDTH
      ensures pkt.left[..][i] == s.left(i % WIDTH, y0 + i / WIDTH)
              && pkt.right[..][i] == s.right(i % WIDTH, y0 + i / WIDTH)
    {
      assert i / WIDTH * WIDTH + i % WIDTH == i;
    }
  }

  /** Two scenes that agree on the rows from y0 on. */
  ghost predicate SameRows(s: Scene, t: Scene, y0: int, rows: nat) {
    forall x, y :: 0 <= x < WIDTH && y0 <= y < y0 + rows ==> SamePixels(s, t, x, y)
  }

  predicate SamePixels(s: Scene, t: Scene, x: int, y: int) {
    s.left(x, y) == t.left(x, y) && s.right(x, y) == t.right(x, y)
  }

  lemma {:induction false} RowCostLocal(s: Scene, t: Scene, x: int, y: int, d: nat, n: nat)
    requires d + RADIUS <= x < WIDTH - RADIUS && n <= WINDOW && SameRows(s, t, y, 1)
    ensures RowCost(s, x, y, d, n) == RowCost(t, x, y, d, n)
  {
    if n > 0 {
      RowCostLocal(s, t, x, y, d, n - 1);
      assert SamePixels(s, t, x - RADIUS + n - 1, y) && SamePixels(s, t, x - RADIUS + n - 1 - d, y);
    }
  }

  lemma {:induction false} RowsCostLocal(s: Scene, t: Scene, x: int, y: int, d: nat, n: nat)
    requires d + RADIUS <= x < WIDTH - RADIUS && n <= WINDOW && SameRows(s, t, y - RADIUS, WINDOW)
    ensures RowsCost(s, x, y, d, n) == RowsCost(t, x, y, d, n)
  {
    if n > 0 {
      RowsCostLocal(s, t, x, y, d, n - 1);
      RowCostLocal(s, t, x, y - RADIUS + n - 1, d, WINDOW);
    }
  }

  lemma {:induction false} BestLocal(s: Scene, t: Scene, x: int, y: int, n: nat)
    requires 0 < n <= DMAX && DMAX - 1 + RADIUS <= x < WIDTH - RADIUS && SameRows(s, t, y - RADIUS, WINDOW)
    ensures Best(s, x, y, n) == Best(t, x, y, n)
  {
    if n > 1 {
      BestLocal(s, t, x, y, n - 1);
      RowsCostLocal(s, t, x, y, n - 1, WINDOW);
      RowsCostLocal(s, t, x, y, Best(s, x, y, n - 1), WINDOW);
    }
  }

  /** The halo suffices: a stripe's disparities depend on the rows of its packet only. */
  lemma StripeIsLocal(s: Scene, t: Scene, k: nat)
    requires k < STRIPES && SameRows(s, t, HaloY0(k), HaloRows(k))
    ensures StripeMap(s, k) == StripeMap(t, k)
  {
    forall i | 0 <= i < OUTPUT_PIXELS ensures StripeMap(s, k)[i] == StripeMap(t, k)[i] {
      var x, y := i % WIDTH, StripeY0(k) + i / WIDTH;
      if PixelValid(x, y) {
        assert HaloY0(k) <= y - RADIUS && y + RADIUS < HaloY0(k) + HaloRows(k);
        BestLocal(s, t, x, y, DMAX);
      }
    }
  }

  /** From the packet filled for stripe k a worker computes the stripe of the whole scene. */
  lemma PacketSuffices(s: Scene, k: nat)
    requires k < STRIPES
    ensures Compute(PacketOf(s, k)) == AnswerFor(s, k)
  {
    var p := PacketOf(s, k);
    var t := SceneIn(p);
    forall x, y | 0 <= x < WIDTH && HaloY0(k) <= y < HaloY0(k) + HaloRows(k) ensures SamePixels(t, s, x, y) {
      var i := (y - HaloY0(k)) * WIDTH + x;
      assert i / WIDTH == y - HaloY0(k) && i % WIDTH == x;
    }
    StripeIsLocal(t, s, k);
  }

  // ---- The synthetic scene ----

  function DisparityY(y: int): (d: nat)
    ensures d < DMAX
  {
    var band := y * 3 / HEIGHT;
    if band == 0 then 6 else if band == 1 then 12 else 18
  }

  /** The three bands of the scene, and the rows around their borders that are not checked. */
  lemma BandRows(y: nat)
    requires y < HEIGHT
    ensures DisparityY(y) == if y <= 21 then 6 else if y <= 42 then 12 else 18
    ensures InBandGuard(y) <==> 19 <= y <= 23 || 40 <= y <= 44
  {
  }

  /** depth_stereo_sad_expected_disparity. */
  function Expected(x: int, y: int): byte {
    if PixelValid(x, y) then DisparityY(y) else INVALID
  }

  ghost function ExpectedMap(y0: nat): (m: seq<byte>)
    ensures |m| == OUTPUT_PIXELS
  {
    seq<byte>(OUTPUT_PIXELS, i requires 0 <= i < OUTPUT_PIXELS => Expected(i % WIDTH, y0 + i / WIDTH))
  }

  lemma PrefixNext<T>(a: seq<T>, b: seq<T>, i: nat)
    requires i < |a| && i < |b| && a[..i] == b[..i] && a[i] == b[i]
    ensures a[..i + 1] == b[..i + 1]
  {
    assert a[..i + 1] == a[..i] + [a[i]] && b[..i + 1] == b[..i] + [b[i]];
  }

  lemma NextRowOf(y0: nat, oy: nat, idx: nat)
    requires idx == oy * WIDTH + WIDTH
    ensures idx == (oy + 1) * WIDTH && ValidCount(y0, oy + 1) == ValidCount(y0, oy) + ColumnsValid(y0 + oy, WIDTH)
  {
  }

  lemma DiffersAt<T>(a: seq<T>, b: seq<T>, i: nat)
    requires i < |a| && i < |b| && a[i] != b[i]
    ensures a != b
  {
  }

  lemma ExpectedAt(y0: nat, oy: nat, x: nat, i: nat)
    requires oy < STRIPE_H && x < WIDTH && i == oy * WIDTH + x
    ensures ExpectedMap(y0)[i] == Expected(x, y0 + oy)
    ensures Expected(x, y0 + oy) != INVALID <==> PixelValid(x, y0 + oy)
  {
    assert i / WIDTH == oy && i % WIDTH == x;
  }

  /** The scene drawn from any texture: the right image is the left one moved by the
      disparity of its row, and noise where that falls off the image. */
  function SceneOf(texture: (int, int, int) -> byte): Scene {
    Scene((x: int, y: int) => texture(x, y, SEED),
          (x: int, y: int) => if x + DisparityY(y) < WIDTH then texture(x + DisparityY(y), y, SEED)
                              else texture(x + 7919, y + 1543, 0x51743dcd))
  }

  /** Around a valid pixel every window row lies in the pixel's own band. */
  lemma WindowInBand(x: int, y: int, wy: int)
    requires PixelValid(x, y) && y - RADIUS <= wy <= y + RADIUS
    ensures DisparityY(wy) == DisparityY(y)
  {
  }

  lemma {:induction false} TrueRowIsFree(texture: (int, int, int) -> byte, x: int, y: int, wy: int, n: nat)
    requires PixelValid(x, y) && y - RADIUS <= wy <= y + RADIUS && n <= WINDOW
    ensures RowCost(SceneOf(texture), x, wy, DisparityY(y), n) == 0
  {
    WindowInBand(x, y, wy);
    if n > 0 {
      TrueRowIsFree(texture, x, y, wy, n - 1);
    }
  }

  lemma {:induction false} TrueRowsAreFree(texture: (int, int, int) -> byte, x: int, y: int, n: nat)
    requires PixelValid(x, y) && n <= WINDOW
    ensures RowsCost(SceneOf(texture), x, y, DisparityY(y), n) == 0
  {
    if n > 0 {
      TrueRowsAreFree(texture, x, y, n - 1);
      TrueRowIsFree(texture, x, y, y - RADIUS + n - 1, WINDOW);
    }
  }

  /** The computed disparity of a valid pixel costs nothing, never exceeds the true one, and
      is the true one exactly when no smaller disparity is free. */
  lemma WinnerOfScene(texture: (int, int, int) -> byte, x: int, y: int)
    requires PixelValid(x, y)
    ensures var s := SceneOf(texture);
            && Cost(s, x, y, DisparityY(y)) == 0
            && Cost(s, x, y, Disparity(s, x, y)) == 0
            && Disparity(s, x, y) <= DisparityY(y)
            && (Disparity(s, x, y) == Expected(x, y) <==> Unambiguous(s, x, y))
  {
    var s := SceneOf(texture);
    TrueRowsAreFree(texture, x, y, WINDOW);
    BestIsWinner(s, x, y, DMAX);
    var b := Disparity(s, x, y);
    assert Cost(s, x, y, b) <= Cost(s, x, y, DisparityY(y));
    if Unambiguous(s, x, y) {
      assert b >= DisparityY(y);
    }
  }

  /** No disparity below the row's own costs nothing. */
  ghost predicate Unambiguous(s: Scene, x: int, y: int) {
    forall d :: 0 <= d < DisparityY(y) ==> Cost(s, x, y, d) > 0
  }

  ghost predicate StripeUnambiguous(s: Scene, stripe: nat) {
    forall i :: 0 <= i < OUTPUT_PIXELS ==> PixelClear(s, i % WIDTH, StripeY0(stripe) + i / WIDTH)
  }

  ghost predicate PixelClear(s: Scene, x: int, y: int) {
    PixelValid(x, y) ==> Unambiguous(s, x, y)
  }

  /** A stripe of the scene passes the check exactly when none of its pixels is ambiguous. */
  lemma StripePasses(texture: (int, int, int) -> byte, stripe: nat)
    ensures StripeMap(SceneOf(texture), stripe) == ExpectedMap(StripeY0(stripe))
            <==> StripeUnambiguous(SceneOf(texture), stripe)
  {
    var s, y0 := SceneOf(texture), StripeY0(stripe);
    var got, want := StripeMap(s, stripe), ExpectedMap(y0);
    forall i | 0 <= i < OUTPUT_PIXELS
      ensures got[i] == want[i] <==> PixelClear(s, i % WIDTH, y0 + i / WIDTH)
    {
      if PixelValid(i % WIDTH, y0 + i / WIDTH) {
        WinnerOfScene(texture, i % WIDTH, y0 + i / WIDTH);
      }
    }
    if StripeUnambiguous(s, stripe) {
      forall i | 0 <= i < OUTPUT_PIXELS ensures got[i] == want[i] {
        assert PixelClear(s, i % WIDTH, y0 + i / WIDTH);
      }
    } else {
      var i :| 0 <= i < OUTPUT_PIXELS && !PixelClear(s, i % WIDTH, y0 + i / WIDTH);
      assert got[i] != want[i];
    }
  }

  function OneColour(v: byte): (int, int, int) -> byte { (x: int, y: int, seed: int) => v }

  lemma {:induction false} OneColourCostsNothing(v: byte, x: int, y: int, d: int, n: nat)
    ensures RowsCost(SceneOf(OneColour(v)), x, y, d, n) == 0
  {
    if n > 0 {
      OneColourCostsNothing(v, x, y, d, n - 1);
      OneColourRow(v, x, y - RADIUS + n - 1, d, WINDOW);
    }
  }

  lemma {:induction false} OneColourRow(v: byte, x: int, y: int, d: int, n: nat)
    ensures RowCost(SceneOf(OneColour(v)), x, y, d, n) == 0
  {
    if n > 0 {
      OneColourRow(v, x, y, d, n - 1);
    }
  }

  /** A texture of one colour is ambiguous in every stripe: disparity 0 is free everywhere. */
  lemma OneColourIsAmbiguous(v: byte, stripe: nat)
    requires stripe < STRIPES
    ensures !StripeUnambiguous(SceneOf(OneColour(v)), stripe)
  {
    var s, y := SceneOf(OneColour(v)), StripeY0(stripe) + 2;
    OneColourCostsNothing(v, 40, y, 0, WINDOW);
    var i := 2 * WIDTH + 40;
    assert i / WIDTH == 2 && i % WIDTH == 40;
    assert Cost(s, 40, y, 0) == 0;
    assert !Unambiguous(s, 40, y);
    assert StripeUnambiguous(s, stripe) ==> PixelClear(s, i % WIDTH, StripeY0(stripe) + i / WIDTH);
  }

  // ---- How many pixels are valid ----

  /** The valid rows among the first n from y0 on. */
  function ValidRows(y0: nat, n: nat): nat {
    if n == 0 then 0 else ValidRows(y0, n - 1) + if RowValid(y0 + n - 1) then 1 else 0
  }

  predicate RowValid(y: int) { RADIUS <= y < HEIGHT - RADIUS && !InBandGuard(y) }

  /** The valid columns left of x in a valid row. */
  function ColumnsLeft(x: nat): nat {
    if x < 33 then 0 else if x > 94 then 61 else x - 33
  }

  lemma {:induction false} ColumnsAre(y: int, x: nat)
    requires x <= WIDTH
    ensures ColumnsValid(y, x) == if RowValid(y) then ColumnsLeft(x) else 0
  {
    if x > 0 {
      ColumnsAre(y, x - 1);
    }
  }

  lemma {:induction false} ValidInRows(y0: nat, n: nat)
    ensures ValidCount(y0, n) == 61 * ValidRows(y0, n)
  {
    if n > 0 {
      ValidInRows(y0, n - 1);
      ColumnsAre(y0 + n - 1, WIDTH);
    }
  }

  /** The valid rows above row y, in closed form. */
  function RowsAbove(y: nat): nat {
    if y <= 2 then 0 else if y <= 19 then y - 2 else if y <= 24 then 17
    else if y <= 40 then y - 7 else if y <= 45 then 33 else if y <= 62 then y - 12 else 50
  }

  lemma {:induction false} ValidRowsAre(y0: nat, n: nat)
    ensures ValidRows(y0, n) == RowsAbove(y0 + n) - RowsAbove(y0)
  {
    if n > 0 {
      ValidRowsAre(y0, n - 1);
    }
  }

  /** A stripe's valid pixels: 61 columns of its valid rows. */
  lemma StripeCount(stripe: nat)
    requires stripe < STRIPES
    ensures ValidCount(StripeY0(stripe), STRIPE_H) == if stripe == 0 || stripe == 3 then 854 else 671
  {
    ValidInRows(StripeY0(stripe), STRIPE_H);
    ValidRowsAre(StripeY0(stripe), STRIPE_H);
  }

  /** The valid pixels of the first n stripes. */
  ghost function StripesTotal(n: nat): nat {
    if n == 0 then 0 else StripesTotal(n - 1) + ValidCount(StripeY0(n - 1), STRIPE_H)
  }

  lemma NextTotal(k: nat)
    requires k < STRIPES
    ensures StripesTotal(k + 1) == StripesTotal(k) + if k == 0 || k == 3 then 854 else 671
  {
    StripeCount(k);
  }

  lemma {:induction false} StripesTotalIs(n: nat)
    requires n <= STRIPES
    ensures StripesTotal(n) == if n == 4 then 3050 else if n == 3 then 2196 else if n == 2 then 1525 else 854 * n
  {
    if n > 0 {
      StripesTotalIs(n - 1);
      NextTotal(n - 1);
    }
  }

  /** All stripes together hold the number of valid pixels the checker expects. */
  lemma StripesCount()
    ensures StripesTotal(STRIPES) == VALID_PIXELS
  {
    StripesTotalIs(STRIPES);
  }
}

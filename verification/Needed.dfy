// The points the sampled run computes: the clipped 3x3 neighbourhoods of the detect
// samples, each point once.
module Needed {
  import opened Buffers
  import opened C2f

  function AddUnique(s: seq<nat>, p: nat): seq<nat> {
    if p in s then s else s + [p]
  }

  /** s after the first k of the nine neighbours of (cy, cx), row by row. */
  ghost function WithNeighbours(s: seq<nat>, h: nat, w: nat, cy: nat, cx: nat, k: nat): seq<nat> {
    if k == 0 then s else
      var r := WithNeighbours(s, h, w, cy, cx, k - 1);
      var y, x := cy + (k - 1) / 3 - 1, cx + (k - 1) % 3 - 1;
      if InImage(h, w, y, x) then (PointInRange(y, x, h, w); AddUnique(r, y * w + x)) else r
  }

  /** The points needed by the first n samples. */
  ghost function NeededPoints(samples: seq<nat>, h: nat, w: nat, n: nat): seq<nat>
    requires w > 0 && n <= |samples|
  {
    if n == 0 then [] else
      DivModNat(samples[n - 1], w);
      WithNeighbours(NeededPoints(samples, h, w, n - 1), h, w, samples[n - 1] / w, samples[n - 1] % w, 9)
  }

  ghost predicate NoDuplicates(s: seq<nat>) {
    forall i, j :: 0 <= i < j < |s| ==> s[i] != s[j]
  }

  /** p is an image point in the 3x3 neighbourhood of sample q. */
  ghost predicate Near(h: nat, w: nat, p: nat, q: nat)
    requires w > 0
  {
    p < h * w && -1 <= p / w - q / w <= 1 && -1 <= p % w - q % w <= 1
  }

  /** p is one of the first k clipped neighbours of (cy, cx). */
  ghost predicate AmongNeighbours(p: nat, h: nat, w: nat, cy: nat, cx: nat, k: nat) {
    exists j :: 0 <= j < k && IsNeighbour(p, h, w, cy, cx, j)
  }

  ghost predicate IsNeighbour(p: nat, h: nat, w: nat, cy: nat, cx: nat, j: nat) {
    var y, x := cy + j / 3 - 1, cx + j % 3 - 1;
    InImage(h, w, y, x) && p == y * w + x
  }

  lemma {:induction false} WithNeighboursMembers(s: seq<nat>, h: nat, w: nat, cy: nat, cx: nat, k: nat)
    ensures var r := WithNeighbours(s, h, w, cy, cx, k);
            && (forall p: nat :: p in r <==> p in s || AmongNeighbours(p, h, w, cy, cx, k))
            && (NoDuplicates(s) ==> NoDuplicates(r))
            && |s| <= |r| <= |s| + k
  {
    if k > 0 {
      WithNeighboursMembers(s, h, w, cy, cx, k - 1);
      forall p: nat
        ensures p in WithNeighbours(s, h, w, cy, cx, k) <==> p in s || AmongNeighbours(p, h, w, cy, cx, k)
      {
        OneNeighbourMore(p, h, w, cy, cx, k);
        NextMember(s, h, w, cy, cx, k, p);
      }
      NextNeighbour(s, h, w, cy, cx, k);
    }
  }

  lemma OneNeighbourMore(p: nat, h: nat, w: nat, cy: nat, cx: nat, k: nat)
    requires k > 0
    ensures AmongNeighbours(p, h, w, cy, cx, k) <==>
            AmongNeighbours(p, h, w, cy, cx, k - 1) || IsNeighbour(p, h, w, cy, cx, k - 1)
  {
  }

  lemma NextMember(s: seq<nat>, h: nat, w: nat, cy: nat, cx: nat, k: nat, p: nat)
    requires k > 0
    ensures p in WithNeighbours(s, h, w, cy, cx, k) <==>
            p in WithNeighbours(s, h, w, cy, cx, k - 1) || IsNeighbour(p, h, w, cy, cx, k - 1)
  {
  }

  lemma NextNeighbour(s: seq<nat>, h: nat, w: nat, cy: nat, cx: nat, k: nat)
    requires k > 0
    ensures var (was, now) := (WithNeighbours(s, h, w, cy, cx, k - 1), WithNeighbours(s, h, w, cy, cx, k));
            |was| <= |now| <= |was| + 1 && (NoDuplicates(was) ==> NoDuplicates(now))
  {
  }

  /** The nine neighbours are the 3x3 neighbourhood, clipped to the image. */
  lemma NeighboursAreNear(p: nat, h: nat, w: nat, q: nat)
    requires w > 0
    ensures AmongNeighbours(p, h, w, q / w, q % w, 9) <==> Near(h, w, p, q)
  {
    if AmongNeighbours(p, h, w, q / w, q % w, 9) {
      var j :| 0 <= j < 9 && IsNeighbour(p, h, w, q / w, q % w, j);
      PointInRange(q / w + j / 3 - 1, q % w + j % 3 - 1, h, w);
    }
    if Near(h, w, p, q) {
      PointSplit(p, h, w);
      var dy, dx := p / w - q / w + 1, p % w - q % w + 1;
      var j := dy * 3 + dx;
      assert j / 3 == dy && j % 3 == dx;
      assert IsNeighbour(p, h, w, q / w, q % w, j);
    }
  }

  /** The list has no duplicates, is exactly the union of the clipped neighbourhoods, and
      never exceeds nine points a sample. */
  lemma {:induction false} NeededPointsExact(samples: seq<nat>, h: nat, w: nat, n: nat)
    requires w > 0 && n <= |samples|
    ensures NoDuplicates(NeededPoints(samples, h, w, n))
    ensures |NeededPoints(samples, h, w, n)| <= 9 * n
    ensures forall p: nat :: p in NeededPoints(samples, h, w, n) <==>
              exists i :: 0 <= i < n && Near(h, w, p, samples[i])
  {
    if n > 0 {
      NeededPointsExact(samples, h, w, n - 1);
      var s := NeededPoints(samples, h, w, n - 1);
      DivModNat(samples[n - 1], w);
      WithNeighboursMembers(s, h, w, samples[n - 1] / w, samples[n - 1] % w, 9);
      forall p: nat
        ensures p in NeededPoints(samples, h, w, n) <==> exists i :: 0 <= i < n && Near(h, w, p, samples[i])
      {
        NeighboursAreNear(p, h, w, samples[n - 1]);
      }
    }
  }

  // ---- The order of the list ----

  ghost predicate Rising(s: seq<nat>, from: nat) {
    forall i, j :: from <= i < j < |s| ==> s[i] < s[j]
  }

  /** Neighbours come row by row, so later ones are greater points. */
  lemma NeighbourOrder(p: nat, q: nat, h: nat, w: nat, cy: nat, cx: nat, j: nat, k: nat)
    requires j < k < 9 && IsNeighbour(p, h, w, cy, cx, j) && IsNeighbour(q, h, w, cy, cx, k)
    ensures p < q
  {
    if j / 3 < k / 3 {
      BlockEnd(cy + j / 3 - 1, cy + k / 3 - 1, w);
    } else {
      assert j / 3 == k / 3 && j % 3 < k % 3;
    }
  }

  /** The first k neighbours of a sample are appended, those not yet listed, in rising order. */
  lemma {:induction false} NeighboursAppend(s: seq<nat>, h: nat, w: nat, cy: nat, cx: nat, k: nat)
    requires k <= 9
    ensures var r := WithNeighbours(s, h, w, cy, cx, k);
            s <= r && Rising(r, |s|) && forall i :: |s| <= i < |r| ==> AmongNeighbours(r[i], h, w, cy, cx, k)
  {
    if k > 0 {
      NeighboursAppend(s, h, w, cy, cx, k - 1);
      var before, r := WithNeighbours(s, h, w, cy, cx, k - 1), WithNeighbours(s, h, w, cy, cx, k);
      forall i | |s| <= i < |r| ensures AmongNeighbours(r[i], h, w, cy, cx, k) {
        if i < |before| {
          var j :| 0 <= j < k - 1 && IsNeighbour(before[i], h, w, cy, cx, j);
          assert IsNeighbour(r[i], h, w, cy, cx, j);
        } else {
          assert IsNeighbour(r[i], h, w, cy, cx, k - 1);
        }
      }
      forall i, j | |s| <= i < j < |r| ensures r[i] < r[j] {
        if j == |before| {
          var m :| 0 <= m < k - 1 && IsNeighbour(before[i], h, w, cy, cx, m);
          assert IsNeighbour(r[j], h, w, cy, cx, k - 1);
          NeighbourOrder(r[i], r[j], h, w, cy, cx, m, k - 1);
        }
      }
    }
  }

  /** Sample by sample: the list so far stays, and the new points of a sample follow in rising
      order. Together with the points it holds this determines the list. */
  lemma NeededInOrder(samples: seq<nat>, h: nat, w: nat, n: nat)
    requires w > 0 && n < |samples|
    ensures NeededPoints(samples, h, w, n) <= NeededPoints(samples, h, w, n + 1)
    ensures Rising(NeededPoints(samples, h, w, n + 1), |NeededPoints(samples, h, w, n)|)
  {
    DivModNat(samples[n], w);
    NeighboursAppend(NeededPoints(samples, h, w, n), h, w, samples[n] / w, samples[n] % w, 9);
  }

  method AddUniquePoint(points: array<nat>, count: nat, point: nat) returns (count': nat)
    requires count <= points.Length && (count < points.Length || point in points[..count])
    modifies points
    ensures count' <= points.Length
    ensures points[..count'] == AddUnique(old(points[..count]), point)
  {
    for i := 0 to count
      invariant point !in points[..i]
    {
      if points[i] == point {
        return count;
      }
    }
    points[count] := point;
    return count + 1;
  }

  /** Neighbour (dy, dx) of (cy, cx), the body of the loops below. */
  method AddNeighbour(h: nat, w: nat, cy: nat, cx: nat, dy: int, dx: int, points: array<nat>, count: nat,
                      ghost s: seq<nat>, ghost k: nat)
    returns (count': nat)
    requires -1 <= dy <= 1 && -1 <= dx <= 1 && k == (dy + 1) * 3 + dx + 1
    requires count < points.Length && points[..count] == WithNeighbours(s, h, w, cy, cx, k)
    modifies points
    ensures count' <= points.Length && count' <= count + 1
    ensures points[..count'] == WithNeighbours(s, h, w, cy, cx, k + 1)
  {
    var y, x := cy + dy, cx + dx;
    assert k / 3 == dy + 1 && k % 3 == dx + 1;
    if y < 0 || y >= h || x < 0 || x >= w {
      return count;
    }
    PointInRange(y, x, h, w);
    count' := AddUniquePoint(points, count, y * w + x);
    assert |points[..count']| <= count + 1;
  }

  /** The nine neighbours of one sample. */
  method AddSample(h: nat, w: nat, cy: nat, cx: nat, points: array<nat>, count0: nat) returns (count: nat)
    requires count0 + 9 <= points.Length
    modifies points
    ensures count <= count0 + 9 && points[..count] == WithNeighbours(old(points[..count0]), h, w, cy, cx, 9)
  {
    count := count0;
    ghost var s := points[..count0];
    for dy := -1 to 2
      invariant count <= count0 + (dy + 1) * 3 && points[..count] == WithNeighbours(s, h, w, cy, cx, (dy + 1) * 3)
    {
      for dx := -1 to 2
        invariant count <= count0 + (dy + 1) * 3 + dx + 1
        invariant points[..count] == WithNeighbours(s, h, w, cy, cx, (dy + 1) * 3 + dx + 1)
      {
        count := AddNeighbour(h, w, cy, cx, dy, dx, points, count, s, (dy + 1) * 3 + dx + 1);
      }
    }
  }

  /** c2f_needed_points: nine slots a sample always suffice. */
  method C2fNeededPoints(samples: seq<nat>, h: nat, w: nat, points: array<nat>) returns (count: nat)
    requires w > 0 && points.Length == 9 * |samples|
    modifies points
    ensures count <= points.Length
    ensures points[..count] == NeededPoints(samples, h, w, |samples|)
  {
    count := 0;
    for i := 0 to |samples|
      invariant count <= 9 * i && points[..count] == NeededPoints(samples, h, w, i)
    {
      DivModNat(samples[i], w);
      count := AddSample(h, w, samples[i] / w, samples[i] % w, points, count);
    }
  }
}

// Greedy non-maximum suppression of the YOLOv5n demo, over exact real coordinates.
module Nms {

  datatype Det = Det(x1: real, y1: real, x2: real, y2: real, score: real, cls: int, stride: nat)

  function Max(a: real, b: real): real { if a < b then b else a }

  function Min(a: real, b: real): real { if b < a then b else a }

  function Area(a: Det): (r: real)
    ensures r >= 0.0
  {
    Product(Max(0.0, a.x2 - a.x1), Max(0.0, a.y2 - a.y1))
  }

  function Product(a: real, b: real): (r: real)
    ensures a >= 0.0 && b >= 0.0 ==> r >= 0.0
  {
    a * b
  }

  function Inter(a: Det, b: Det): (r: real)
    ensures r >= 0.0
  {
    Product(Max(0.0, Min(a.x2, b.x2) - Max(a.x1, b.x1)), Max(0.0, Min(a.y2, b.y2) - Max(a.y1, b.y1)))
  }

  function Iou(a: Det, b: Det): real {
    var denom := Area(a) + Area(b) - Inter(a, b);
    if denom <= 0.0 then 0.0 else Inter(a, b) / denom
  }

  lemma ProductMono(a: real, b: real, c: real, d: real)
    requires 0.0 <= a <= c && 0.0 <= b <= d
    ensures a * b <= c * d
  {
    assert a * b <= c * b by { assert (c - a) * b >= 0.0; }
    assert c * b <= c * d by { assert c * (d - b) >= 0.0; }
  }

  /** One side of the intersection is no longer than that side of the first box. */
  lemma OverlapWithin(a1: real, a2: real, b1: real, b2: real)
    ensures 0.0 <= Max(0.0, Min(a2, b2) - Max(a1, b1)) <= Max(0.0, a2 - a1)
    ensures Min(a2, b2) - Max(a1, b1) == Min(b2, a2) - Max(b1, a1)
  {
  }

  lemma InterWithin(a: Det, b: Det)
    ensures Inter(a, b) == Inter(b, a)
    ensures Inter(a, b) <= Area(a)
  {
    OverlapWithin(a.x1, a.x2, b.x1, b.x2);
    OverlapWithin(a.y1, a.y2, b.y1, b.y2);
    var w, h := Max(0.0, Min(a.x2, b.x2) - Max(a.x1, b.x1)), Max(0.0, Min(a.y2, b.y2) - Max(a.y1, b.y1));
    ProductMono(w, h, Max(0.0, a.x2 - a.x1), Max(0.0, a.y2 - a.y1));
  }

  /** The overlap measure is symmetric and lies between 0 and 1. */
  lemma IouRange(a: Det, b: Det)
    ensures Iou(a, b) == Iou(b, a) && 0.0 <= Iou(a, b) <= 1.0
  {
    InterWithin(a, b);
    InterWithin(b, a);
    var n, d := Inter(a, b), Area(a) + Area(b) - Inter(a, b);
    if d > 0.0 {
      QuotientRange(n, d);
    }
  }

  lemma QuotientRange(n: real, d: real)
    requires 0.0 <= n <= d && d > 0.0
    ensures 0.0 <= n / d <= 1.0
  {
    QuotientNonneg(n, d);
    QuotientNonneg(d - n, d);
    assert n / d + (d - n) / d == 1.0;
  }

  lemma QuotientNonneg(x: real, d: real)
    requires x >= 0.0 && d > 0.0
    ensures x / d >= 0.0
  {
  }

  /** The sides of the overlap of two boxes that meet, in their own coordinates. */
  ghost predicate Overlap(a: Det, b: Det, ow: real, oh: real) {
    && ow == (if a.x2 < b.x2 then a.x2 else b.x2) - (if a.x1 < b.x1 then b.x1 else a.x1)
    && oh == (if a.y2 < b.y2 then a.y2 else b.y2) - (if a.y1 < b.y1 then b.y1 else a.y1)
    && ow > 0.0 && oh > 0.0
  }

  /** Boxes whose overlap has sides ow and oh: the measure is the overlap's area over the area
      the two boxes cover together. */
  lemma IouOfOverlap(a: Det, b: Det, ow: real, oh: real, common: real, union: real)
    requires Overlap(a, b, ow, oh) && common == ow * oh
    requires union == (a.x2 - a.x1) * (a.y2 - a.y1) + (b.x2 - b.x1) * (b.y2 - b.y1) - common
    ensures union > 0.0 && Iou(a, b) == common / union
  {
    assert Inter(a, b) == common && Area(a) + Area(b) - common == union && union > 0.0 by {
      ProductIs(ow, oh);
      ProductIs(a.x2 - a.x1, a.y2 - a.y1);
      ProductIs(b.x2 - b.x1, b.y2 - b.y1);
      OverlapAreas(a, b, ow, oh);
    }
    IouIs(a, b, common, union);
  }

  lemma IouIs(a: Det, b: Det, common: real, union: real)
    requires Inter(a, b) == common && Area(a) + Area(b) - common == union && union > 0.0
    ensures Iou(a, b) == common / union
  {
  }

  lemma OverlapAreas(a: Det, b: Det, ow: real, oh: real)
    requires Overlap(a, b, ow, oh)
    ensures Inter(a, b) == Product(ow, oh)
    ensures Area(a) == Product(a.x2 - a.x1, a.y2 - a.y1) && Area(b) == Product(b.x2 - b.x1, b.y2 - b.y1)
    ensures Area(a) + Area(b) - Inter(a, b) > 0.0
  {
    assert Area(b) == Product(b.x2 - b.x1, b.y2 - b.y1);
    InterWithin(a, b);
    PositiveProduct(b.x2 - b.x1, b.y2 - b.y1);
  }

  lemma PositiveProduct(x: real, y: real)
    requires x > 0.0 && y > 0.0
    ensures Product(x, y) > 0.0
  {
  }

  lemma ProductIs(x: real, y: real)
    ensures Product(x, y) == x * y
  {
  }

  lemma ShareOf(n: real, d: real)
    requires d > 0.0
    ensures n / d * d == n
  {
  }

  /** Boxes that do not meet, or one of which is empty or inverted, have measure 0. */
  lemma IouApart(a: Det, b: Det)
    requires a.x2 <= b.x1 || b.x2 <= a.x1 || a.y2 <= b.y1 || b.y2 <= a.y1
             || a.x2 <= a.x1 || a.y2 <= a.y1 || b.x2 <= b.x1 || b.y2 <= b.y1
    ensures Iou(a, b) == 0.0
  {
    var ow := Max(0.0, Min(a.x2, b.x2) - Max(a.x1, b.x1));
    var oh := Max(0.0, Min(a.y2, b.y2) - Max(a.y1, b.y1));
    assert ow == 0.0 || oh == 0.0;
    assert Inter(a, b) == Product(ow, oh);
    ZeroProduct(ow, oh);
    var d := Area(a) + Area(b) - Inter(a, b);
    if d > 0.0 {
      ShareOf(0.0, d);
    }
  }

  lemma ZeroProduct(x: real, y: real)
    requires x == 0.0 || y == 0.0
    ensures Product(x, y) == 0.0
  {
  }

  /** A box overlaps itself entirely. */
  lemma IouOfSelf(a: Det)
    requires a.x1 < a.x2 && a.y1 < a.y2
    ensures Iou(a, a) == 1.0
  {
    var w, h := a.x2 - a.x1, a.y2 - a.y1;
    var area := w * h;
    IouOfOverlap(a, a, w, h, area, area);
    Whole(area);
  }

  lemma Whole(d: real)
    requires d > 0.0
    ensures d / d == 1.0
  {
  }

  predicate Suppresses(a: Det, b: Det, thresh: real) {
    a.cls == b.cls && Iou(a, b) > thresh
  }

  ghost predicate SortedByScore(ds: seq<Det>) {
    forall i, j :: 0 <= i < j < |ds| ==> ds[i].score >= ds[j].score
  }

  // ---- The textbook algorithm ----

  /** The boxes of ds that k does not suppress. */
  function Survivors(ds: seq<Det>, k: Det, thresh: real): (r: seq<Det>)
    ensures |r| <= |ds|
  {
    if ds == [] then []
    else if Suppresses(k, ds[0], thresh) then Survivors(ds[1..], k, thresh)
    else [ds[0]] + Survivors(ds[1..], k, thresh)
  }

  /** Keep the first box, drop what it suppresses, repeat. */
  function Greedy(ds: seq<Det>, thresh: real): seq<Det>
    decreases |ds|
  {
    if ds == [] then [] else [ds[0]] + Greedy(Survivors(ds[1..], ds[0], thresh), thresh)
  }

  lemma {:induction false} SurvivorsExact(ds: seq<Det>, k: Det, thresh: real)
    ensures forall d :: d in Survivors(ds, k, thresh) <==> d in ds && !Suppresses(k, d, thresh)
    ensures SortedByScore(ds) ==> SortedByScore(Survivors(ds, k, thresh))
  {
    if ds != [] {
      SurvivorsExact(ds[1..], k, thresh);
      var r := Survivors(ds[1..], k, thresh);
      assert ds == [ds[0]] + ds[1..];
      if SortedByScore(ds) {
        forall j | 0 <= j < |r| ensures ds[0].score >= r[j].score {
          assert r[j] in r && r[j] in ds[1..];
        }
      }
    }
  }

  /** Kept boxes come from the input and no kept box suppresses a later one. */
  lemma {:induction false} KeptIndependent(ds: seq<Det>, thresh: real)
    ensures forall d :: d in Greedy(ds, thresh) ==> d in ds
    ensures forall i, j :: 0 <= i < j < |Greedy(ds, thresh)| ==>
            !Suppresses(Greedy(ds, thresh)[i], Greedy(ds, thresh)[j], thresh)
    ensures SortedByScore(ds) ==> SortedByScore(Greedy(ds, thresh))
    decreases |ds|
  {
    if ds != [] {
      var s := Survivors(ds[1..], ds[0], thresh);
      SurvivorsExact(ds[1..], ds[0], thresh);
      KeptIndependent(s, thresh);
      var r := Greedy(s, thresh);
      forall j | 0 <= j < |r|
        ensures !Suppresses(ds[0], r[j], thresh) && (SortedByScore(ds) ==> ds[0].score >= r[j].score)
      {
        assert r[j] in r && r[j] in s && r[j] in ds[1..];
      }
    }
  }

  /** Kept boxes of one class overlap pairwise by at most the threshold. */
  lemma KeptPairwise(ds: seq<Det>, thresh: real, i: nat, j: nat)
    requires i < |Greedy(ds, thresh)| && j < |Greedy(ds, thresh)| && i != j
    requires Greedy(ds, thresh)[i].cls == Greedy(ds, thresh)[j].cls
    ensures Iou(Greedy(ds, thresh)[i], Greedy(ds, thresh)[j]) <= thresh
  {
    KeptIndependent(ds, thresh);
    var g := Greedy(ds, thresh);
    IouRange(g[i], g[j]);
    if i < j {
      assert !Suppresses(g[i], g[j], thresh);
    } else {
      assert !Suppresses(g[j], g[i], thresh);
    }
  }

  /** Every box not kept is suppressed by a kept one that scores no lower. */
  lemma {:induction false} DroppedHasReason(ds: seq<Det>, thresh: real, d: Det)
    requires SortedByScore(ds) && d in ds && d !in Greedy(ds, thresh)
    ensures exists k :: k in Greedy(ds, thresh) && Suppresses(k, d, thresh) && k.score >= d.score
    decreases |ds|
  {
    if Suppresses(ds[0], d, thresh) {
      assert ds[0] in Greedy(ds, thresh);
    } else {
      var s := Survivors(ds[1..], ds[0], thresh);
      SurvivorsExact(ds[1..], ds[0], thresh);
      assert d in ds[1..];
      DroppedHasReason(s, thresh, d);
    }
  }

  // ---- The loop ----

  /** What is left of ds from position i on, once the dead are struck out. */
  ghost function Alive(ds: seq<Det>, dead: seq<bool>, i: nat): seq<Det>
    requires |dead| == |ds| && i <= |ds|
    decreases |ds| - i
  {
    if i == |ds| then [] else if dead[i] then Alive(ds, dead, i + 1) else [ds[i]] + Alive(ds, dead, i + 1)
  }

  ghost predicate Marked(ds: seq<Det>, before: seq<bool>, after: seq<bool>, k: Det, thresh: real, i: nat) {
    && |before| == |after| == |ds|
    && forall p :: i <= p < |ds| ==> after[p] == (before[p] || Suppresses(k, ds[p], thresh))
  }

  lemma {:induction false} MarkingSurvives(ds: seq<Det>, before: seq<bool>, after: seq<bool>, k: Det, thresh: real,
                                           i: nat)
    requires Marked(ds, before, after, k, thresh, i) && i <= |ds|
    ensures Alive(ds, after, i) == Survivors(Alive(ds, before, i), k, thresh)
    decreases |ds| - i
  {
    if i < |ds| {
      MarkingSurvives(ds, before, after, k, thresh, i + 1);
      if !before[i] {
        assert ([ds[i]] + Alive(ds, before, i + 1))[1..] == Alive(ds, before, i + 1);
      }
    }
  }

  lemma {:induction false} AllAlive(ds: seq<Det>, dead: seq<bool>, i: nat)
    requires |dead| == |ds| && i <= |ds| && forall p :: 0 <= p < |ds| ==> !dead[p]
    ensures Alive(ds, dead, i) == ds[i..]
    decreases |ds| - i
  {
    if i < |ds| {
      AllAlive(ds, dead, i + 1);
      assert ds[i..] == [ds[i]] + ds[i + 1..];
    }
  }

  /** The inner loop: strike out what box i suppresses among the later ones. */
  method MarkDead(dets: seq<Det>, i: nat, iouThresh: real, dead: array<bool>)
    requires i < |dets| == dead.Length
    modifies dead
    ensures Marked(dets, old(dead[..]), dead[..], dets[i], iouThresh, i + 1)
  {
    for j := i + 1 to |dets|
      invariant forall p :: i < p < j ==> dead[p] == (old(dead[p]) || Suppresses(dets[i], dets[p], iouThresh))
      invariant forall p :: j <= p < |dets| ==> dead[p] == old(dead[p])
    {
      if dead[j] || dets[i].cls != dets[j].cls {
        continue;
      }
      if Iou(dets[i], dets[j]) > iouThresh {
        dead[j] := true;
      }
    }
  }

  /** One kept box: what the greedy result still owes afterwards. */
  lemma KeepStep(g: seq<Det>, keep: seq<Det>, d: Det, rest: seq<Det>, thresh: real)
    requires g == keep + Greedy([d] + rest, thresh)
    ensures g == keep + [d] + Greedy(Survivors(rest, d, thresh), thresh)
  {
    GreedyHead(d, rest, thresh);
  }

  /** The loops of nms, on a sorted list: the first topk boxes of the greedy result, and with topk == 0
      still the first one, since the length is tested after the box is pushed. */
  method Suppress(dets: seq<Det>, iouThresh: real, topk: nat) returns (keep: seq<Det>)
    requires SortedByScore(dets)
    ensures keep <= Greedy(dets, iouThresh)
    ensures |keep| == if |Greedy(dets, iouThresh)| <= topk then |Greedy(dets, iouThresh)|
                      else if topk == 0 then 1 else topk
  {
    keep := [];
    var dead := new bool[|dets|](_ => false);
    AllAlive(dets, dead[..], 0);
    assert dets[0..] == dets;
    ghost var g := Greedy(dets, iouThresh);
    for i := 0 to |dets|
      invariant g == keep + Greedy(Alive(dets, dead[..], i), iouThresh)
      invariant keep == [] || |keep| < topk
    {
      if dead[i] {
        continue;
      }
      ghost var before := dead[..];
      ghost var rest := Alive(dets, before, i + 1);
      KeepStep(g, keep, dets[i], rest, iouThresh);
      keep := keep + [dets[i]];
      if |keep| >= topk {
        break;
      }
      MarkDead(dets, i, iouThresh, dead);
      MarkingSurvives(dets, before, dead[..], dets[i], iouThresh, i + 1);
    }
  }

  // ---- By position ----

  /** The box at position p is kept: no kept box before it suppresses it. */
  ghost predicate IsKept(ds: seq<Det>, thresh: real, p: nat)
    requires p < |ds|
    decreases p
  {
    forall k :: 0 <= k < p && IsKept(ds, thresh, k) ==> !Suppresses(ds[k], ds[p], thresh)
  }

  /** In so many words: a position is kept if and only if no earlier kept box of its class overlaps
      it by more than the threshold. */
  lemma KeptExactly(ds: seq<Det>, thresh: real, p: nat)
    requires p < |ds|
    ensures IsKept(ds, thresh, p) <==>
            forall k :: 0 <= k < p && IsKept(ds, thresh, k) && ds[k].cls == ds[p].cls ==> Iou(ds[k], ds[p]) <= thresh
  {
  }

  /** The kept boxes from position i on. */
  ghost function KeptFrom(ds: seq<Det>, thresh: real, i: nat): seq<Det>
    requires i <= |ds|
    decreases |ds| - i
  {
    if i == |ds| then [] else (if IsKept(ds, thresh, i) then [ds[i]] else []) + KeptFrom(ds, thresh, i + 1)
  }

  /** From position i on, the dead are those a kept box before i suppresses. */
  ghost predicate DeadBy(ds: seq<Det>, thresh: real, dead: seq<bool>, i: nat) {
    && |dead| == |ds| && i <= |ds|
    && forall p :: i <= p < |ds| ==> (dead[p] <==> SuppressedBefore(ds, thresh, i, p))
  }

  ghost predicate SuppressedBefore(ds: seq<Det>, thresh: real, i: nat, p: nat)
    requires i <= |ds| && p < |ds|
  {
    exists k :: 0 <= k < i && IsKept(ds, thresh, k) && Suppresses(ds[k], ds[p], thresh)
  }

  lemma SuppressedStep(ds: seq<Det>, thresh: real, i: nat, p: nat)
    requires i < |ds| && p < |ds|
    ensures SuppressedBefore(ds, thresh, i + 1, p)
       <==> SuppressedBefore(ds, thresh, i, p) || (IsKept(ds, thresh, i) && Suppresses(ds[i], ds[p], thresh))
  {
  }

  ghost function MarkedBy(ds: seq<Det>, thresh: real, dead: seq<bool>, i: nat): (after: seq<bool>)
    requires |dead| == |ds| && i < |ds|
    ensures Marked(ds, dead, after, ds[i], thresh, i + 1)
  {
    seq(|ds|, p requires 0 <= p < |ds| => dead[p] || Suppresses(ds[i], ds[p], thresh))
  }

  lemma DeadStep(ds: seq<Det>, thresh: real, dead: seq<bool>, i: nat)
    requires DeadBy(ds, thresh, dead, i) && i < |ds|
    ensures dead[i] <==> !IsKept(ds, thresh, i)
    ensures DeadBy(ds, thresh, if dead[i] then dead else MarkedBy(ds, thresh, dead, i), i + 1)
  {
    assert dead[i] <==> SuppressedBefore(ds, thresh, i, i);
    var after := if dead[i] then dead else MarkedBy(ds, thresh, dead, i);
    forall p | i < p < |ds| ensures after[p] <==> SuppressedBefore(ds, thresh, i + 1, p) {
      SuppressedStep(ds, thresh, i, p);
    }
  }

  /** The textbook algorithm keeps exactly the kept positions. */
  lemma {:induction false} GreedyIsKept(ds: seq<Det>, thresh: real, dead: seq<bool>, i: nat)
    requires DeadBy(ds, thresh, dead, i)
    ensures Greedy(Alive(ds, dead, i), thresh) == KeptFrom(ds, thresh, i)
    decreases |ds| - i
  {
    if i < |ds| {
      var after := if dead[i] then dead else MarkedBy(ds, thresh, dead, i);
      DeadStep(ds, thresh, dead, i);
      GreedyStep(ds, thresh, dead, i);
      GreedyIsKept(ds, thresh, after, i + 1);
      KeptStep(ds, thresh, i);
    } else {
      NothingLeft(ds, thresh, dead);
    }
  }

  lemma KeptStep(ds: seq<Det>, thresh: real, i: nat)
    requires i < |ds|
    ensures KeptFrom(ds, thresh, i) == (if IsKept(ds, thresh, i) then [ds[i]] else []) + KeptFrom(ds, thresh, i + 1)
  {
  }

  lemma NothingLeft(ds: seq<Det>, thresh: real, dead: seq<bool>)
    requires |dead| == |ds|
    ensures Greedy(Alive(ds, dead, |ds|), thresh) == KeptFrom(ds, thresh, |ds|) == []
  {
  }

  /** What one position adds to the greedy result. */
  lemma GreedyStep(ds: seq<Det>, thresh: real, dead: seq<bool>, i: nat)
    requires |dead| == |ds| && i < |ds|
    ensures var after := if dead[i] then dead else MarkedBy(ds, thresh, dead, i);
            Greedy(Alive(ds, dead, i), thresh)
              == (if dead[i] then [] else [ds[i]]) + Greedy(Alive(ds, after, i + 1), thresh)
  {
    if !dead[i] {
      MarkingSurvives(ds, dead, MarkedBy(ds, thresh, dead, i), ds[i], thresh, i + 1);
      GreedyHead(ds[i], Alive(ds, dead, i + 1), thresh);
    }
  }

  lemma GreedyHead(d: Det, rest: seq<Det>, thresh: real)
    ensures Greedy([d] + rest, thresh) == [d] + Greedy(Survivors(rest, d, thresh), thresh)
  {
    assert ([d] + rest)[1..] == rest;
  }

  lemma GreedyByPosition(ds: seq<Det>, thresh: real)
    ensures Greedy(ds, thresh) == KeptFrom(ds, thresh, 0)
  {
    var dead := seq(|ds|, _ => false);
    AllAlive(ds, dead, 0);
    assert ds[0..] == ds;
    GreedyIsKept(ds, thresh, dead, 0);
  }

  /** Every dropped position, a duplicate of a kept box included, has an earlier kept one that
      suppresses it and scores no lower. */
  ghost predicate DroppedFor(ds: seq<Det>, thresh: real, p: nat)
    requires p < |ds|
  {
    exists k :: 0 <= k < p && IsKept(ds, thresh, k) && ds[k].score >= ds[p].score
                && ds[k].cls == ds[p].cls && Iou(ds[k], ds[p]) > thresh
  }

  lemma DroppedByPosition(ds: seq<Det>, thresh: real, p: nat)
    requires SortedByScore(ds) && p < |ds| && !IsKept(ds, thresh, p)
    ensures DroppedFor(ds, thresh, p)
  {
    var k :| 0 <= k < p && IsKept(ds, thresh, k) && Suppresses(ds[k], ds[p], thresh);
    assert ds[k].score >= ds[p].score;
  }

  // ---- The whole of nms ----

  /** What std::sort promises with this comparison: a permutation, by descending score. */
  ghost predicate IsSortOf(ds: seq<Det>, dets: seq<Det>) {
    multiset(ds) == multiset(dets) && SortedByScore(ds)
  }

  /** d put behind everything that scores at least as much. */
  function Insert(ds: seq<Det>, d: Det): (r: seq<Det>)
    ensures multiset(r) == multiset(ds) + multiset{d}
  {
    if ds == [] then [d]
    else if ds[0].score < d.score then [d] + ds
    else assert ds == [ds[0]] + ds[1..]; [ds[0]] + Insert(ds[1..], d)
  }

  lemma {:induction false} InsertStaysBelow(ds: seq<Det>, d: Det, top: real)
    requires d.score <= top && forall j :: 0 <= j < |ds| ==> ds[j].score <= top
    ensures forall j :: 0 <= j < |Insert(ds, d)| ==> Insert(ds, d)[j].score <= top
  {
    if ds != [] && ds[0].score >= d.score {
      InsertStaysBelow(ds[1..], d, top);
    }
  }

  lemma {:induction false} InsertKeepsSorted(ds: seq<Det>, d: Det)
    requires SortedByScore(ds)
    ensures SortedByScore(Insert(ds, d))
  {
    if ds != [] && ds[0].score >= d.score {
      InsertKeepsSorted(ds[1..], d);
      InsertStaysBelow(ds[1..], d, ds[0].score);
    }
  }

  method SortByScore(dets: seq<Det>) returns (ds: seq<Det>)
    ensures IsSortOf(ds, dets)
  {
    ds := [];
    for i := 0 to |dets|
      invariant IsSortOf(ds, dets[..i])
    {
      InsertKeepsSorted(ds, dets[i]);
      ds := Insert(ds, dets[i]);
      assert dets[..i + 1] == dets[..i] + [dets[i]];
    }
    assert dets[..|dets|] == dets;
  }

  /** nms, ds being the sorted list: kept boxes are input boxes in descending score, boxes of
      one class among them overlap by at most the threshold, and unless the limit was reached
      they are all the kept positions, every other position being suppressed by an earlier
      kept one. */
  method Nms(dets: seq<Det>, iouThresh: real, topk: nat) returns (keep: seq<Det>, ghost ds: seq<Det>)
    ensures IsSortOf(ds, dets) && keep <= KeptFrom(ds, iouThresh, 0)
    ensures |keep| < topk ==> keep == KeptFrom(ds, iouThresh, 0)
    ensures forall p :: 0 <= p < |ds| && !IsKept(ds, iouThresh, p) ==> DroppedFor(ds, iouThresh, p)
    ensures forall d :: d in keep ==> d in dets
    ensures SortedByScore(keep)
    ensures forall i, j :: 0 <= i < |keep| && 0 <= j < |keep| && i != j && keep[i].cls == keep[j].cls ==>
              Iou(keep[i], keep[j]) <= iouThresh
    ensures |keep| < topk ==> forall d :: d in dets && d !in keep ==> HasReason(keep, d, iouThresh)
    ensures |keep| <= (if topk == 0 then 1 else topk) && (dets != [] ==> keep != [])
  {
    var sorted := SortByScore(dets);
    ds := sorted;
    keep := Suppress(sorted, iouThresh, topk);
    GreedyByPosition(ds, iouThresh);
    forall p | 0 <= p < |ds| && !IsKept(ds, iouThresh, p) ensures DroppedFor(ds, iouThresh, p) {
      DroppedByPosition(ds, iouThresh, p);
    }
    ghost var g := Greedy(ds, iouThresh);
    forall d ensures d in ds <==> d in dets {
      assert d in multiset(ds) <==> d in multiset(dets);
    }
    KeptIndependent(ds, iouThresh);
    forall i, j | 0 <= i < |keep| && 0 <= j < |keep| && i != j && keep[i].cls == keep[j].cls
      ensures Iou(keep[i], keep[j]) <= iouThresh
    {
      assert keep[i] == g[i] && keep[j] == g[j];
      KeptPairwise(ds, iouThresh, i, j);
    }
    if |keep| < topk {
      assert keep == g[..|g|] == g;
      forall d | d in dets && d !in keep ensures HasReason(keep, d, iouThresh) {
        DroppedHasReason(ds, iouThresh, d);
      }
    }
    if dets != [] {
      assert dets[0] in ds;
    }
  }

  ghost predicate HasReason(keep: seq<Det>, d: Det, thresh: real) {
    exists k :: k in keep && k.cls == d.cls && Iou(k, d) > thresh && k.score >= d.score
  }
}

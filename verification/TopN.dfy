// The bounded score list of the demo's head debug: one entry a pixel, the best topn kept.
module TopN {
  import opened Buffers

  datatype Entry = Entry(pix: nat, cls: nat, raw: int8, score: real)

  // ---- The best class of a pixel ----

  /** The first class of greatest score among the first n, if any scores above zero. */
  ghost predicate IsBest(px: Vec, score: int8 -> real, n: nat, best: Option<nat>)
    requires n <= |px|
  {
    match best
    case None => forall c :: 0 <= c < n ==> score(px[c]) <= 0.0
    case Some(b) =>
      && b < n && score(px[b]) > 0.0
      && (forall c :: 0 <= c < n ==> score(px[c]) <= score(px[b]))
      && (forall c :: 0 <= c < b ==> score(px[c]) < score(px[b]))
  }

  method BestClass(px: Vec, score: int8 -> real) returns (best: Option<nat>)
    ensures IsBest(px, score, |px|, best)
    ensures best == Best(px, score, |px|)
  {
    best := None;
    var bestScore := 0.0;
    for c := 0 to |px|
      invariant IsBest(px, score, c, best) && best == Best(px, score, c)
      invariant bestScore == if best.Some? then score(px[best.value]) else 0.0
    {
      var s := score(px[c]);
      if s > bestScore {
        best, bestScore := Some(c), s;
      }
    }
  }

  function Best(px: Vec, score: int8 -> real, n: nat): (r: Option<nat>)
    requires n <= |px|
    ensures r.Some? ==> r.value < n
  {
    if n == 0 then None else
      var r := Best(px, score, n - 1);
      if score(px[n - 1]) > (if r.Some? then score(px[r.value]) else 0.0) then Some(n - 1) else r
  }

  /** The entries of the first n pixels, in pixel order. */
  function Entries(pxs: seq<Vec>, score: int8 -> real, n: nat): (es: seq<Entry>)
    requires n <= |pxs|
    ensures forall i :: 0 <= i < |es| ==> es[i].pix < n
    ensures ByPixel(es)
  {
    if n == 0 then [] else
      var es := Entries(pxs, score, n - 1);
      match Best(pxs[n - 1], score, |pxs[n - 1]|)
      case None => es
      case Some(c) => es + [Entry(n - 1, c, pxs[n - 1][c], score(pxs[n - 1][c]))]
  }

  lemma {:induction false} BestIsFirst(px: Vec, score: int8 -> real, n: nat)
    requires n <= |px|
    ensures IsBest(px, score, n, Best(px, score, n))
  {
    if n > 0 {
      BestIsFirst(px, score, n - 1);
    }
  }

  lemma BestUnique(px: Vec, score: int8 -> real, a: Option<nat>, b: Option<nat>)
    requires IsBest(px, score, |px|, a) && IsBest(px, score, |px|, b)
    ensures a == b
  {
    if a.Some? && b.Some? {
      assert score(px[a.value]) <= score(px[b.value]) <= score(px[a.value]);
    }
  }

  /** e stands for its pixel: the first class of greatest, positive score, with its byte. */
  ghost predicate StandsFor(e: Entry, px: Vec, score: int8 -> real) {
    && IsBest(px, score, |px|, Some(e.cls))
    && e.raw == px[e.cls] && e.score == score(px[e.cls])
  }

  /** The entries are exactly those that stand for one of the pixels; they come in pixel order,
      so a pixel has at most one. */
  lemma {:induction false} EntriesExact(pxs: seq<Vec>, score: int8 -> real, n: nat, e: Entry)
    requires n <= |pxs|
    ensures e in Entries(pxs, score, n) <==> e.pix < n && StandsFor(e, pxs[e.pix], score)
  {
    if n > 0 {
      var px := pxs[n - 1];
      EntriesExact(pxs, score, n - 1, e);
      BestIsFirst(px, score, |px|);
      var es, best := Entries(pxs, score, n - 1), Best(px, score, |px|);
      if e.pix == n - 1 {
        assert e !in es;
        if IsBest(px, score, |px|, Some(e.cls)) {
          BestUnique(px, score, best, Some(e.cls));
        }
      }
    }
  }

  // ---- Insertion ----

  /** std::upper_bound with the descending comparison: the first entry scoring less. */
  function UpperBound(s: seq<Entry>, score: real): (k: nat)
    ensures k <= |s|
    ensures forall i :: 0 <= i < k ==> s[i].score >= score
    ensures k < |s| ==> score > s[k].score
  {
    if s == [] || score > s[0].score then 0 else 1 + UpperBound(s[1..], score)
  }

  function Insert(s: seq<Entry>, e: Entry): seq<Entry> {
    var k := UpperBound(s, e.score);
    s[..k] + [e] + s[k..]
  }

  /** All the entries, inserted one by one with no bound. */
  function SortAll(es: seq<Entry>): seq<Entry>
    decreases |es|
  {
    if es == [] then [] else Insert(SortAll(es[..|es| - 1]), es[|es| - 1])
  }

  ghost predicate Before(a: Entry, b: Entry) {
    a.score > b.score || (a.score == b.score && a.pix < b.pix)
  }

  ghost predicate StrictlyOrdered(s: seq<Entry>) {
    forall i, j :: 0 <= i < j < |s| ==> Before(s[i], s[j])
  }

  ghost predicate ByPixel(es: seq<Entry>) {
    forall i, j :: 0 <= i < j < |es| ==> es[i].pix < es[j].pix
  }

  /** Every entry of s comes from a pixel before pix. */
  ghost predicate AllBefore(s: seq<Entry>, pix: nat) {
    forall i :: 0 <= i < |s| ==> s[i].pix < pix
  }

  lemma {:induction false} SortAllPermutes(es: seq<Entry>)
    ensures multiset(SortAll(es)) == multiset(es)
    decreases |es|
  {
    if es != [] {
      var front, e := es[..|es| - 1], es[|es| - 1];
      SortAllPermutes(front);
      InsertAdds(SortAll(front), e);
      LastOut(es);
    }
  }

  lemma LastOut<T>(s: seq<T>)
    requires s != []
    ensures multiset(s) == multiset(s[..|s| - 1]) + multiset{s[|s| - 1]}
  {
    assert s == s[..|s| - 1] + [s[|s| - 1]];
  }

  lemma {:induction false} SortAllOrders(es: seq<Entry>)
    requires ByPixel(es)
    ensures StrictlyOrdered(SortAll(es))
    decreases |es|
  {
    if es != [] {
      var front, e := es[..|es| - 1], es[|es| - 1];
      FrontByPixel(es);
      SortAllOrders(front);
      SortAllPermutes(front);
      SamePixels(front, SortAll(front), e.pix);
      InsertKeepsOrder(SortAll(front), e);
    }
  }

  /** The unbounded list is the stable descending sort: a permutation, by score, and among
      equal scores the earlier pixel first. */
  lemma SortAllIsStableSort(es: seq<Entry>)
    requires ByPixel(es)
    ensures multiset(SortAll(es)) == multiset(es)
    ensures StrictlyOrdered(SortAll(es))
  {
    SortAllPermutes(es);
    SortAllOrders(es);
  }

  lemma FrontByPixel(es: seq<Entry>)
    requires ByPixel(es) && es != []
    ensures ByPixel(es[..|es| - 1]) && AllBefore(es[..|es| - 1], es[|es| - 1].pix)
  {
  }

  /** A permutation comes from the same pixels. */
  lemma SamePixels(a: seq<Entry>, b: seq<Entry>, pix: nat)
    requires multiset(a) == multiset(b) && AllBefore(a, pix)
    ensures AllBefore(b, pix)
  {
    forall i | 0 <= i < |b| ensures b[i].pix < pix {
      assert b[i] in multiset(a);
    }
  }

  lemma InsertAdds(s: seq<Entry>, e: Entry)
    ensures multiset(Insert(s, e)) == multiset(s) + multiset{e}
  {
    var k := UpperBound(s, e.score);
    assert s == s[..k] + s[k..];
  }

  lemma InsertKeepsOrder(s: seq<Entry>, e: Entry)
    requires StrictlyOrdered(s) && AllBefore(s, e.pix)
    ensures StrictlyOrdered(Insert(s, e))
  {
    var k := UpperBound(s, e.score);
    var r := Insert(s, e);
    forall i, j | 0 <= i < j < |r| ensures Before(r[i], r[j]) {
      InsertAt(s, e, i);
      InsertAt(s, e, j);
      if i < j && i == k {
        assert k == j - 1 || Before(s[k], s[j - 1]);
      }
    }
  }

  /** Where the entries of the longer list come from. */
  lemma InsertAt(s: seq<Entry>, e: Entry, i: nat)
    requires i <= |s|
    ensures var k := UpperBound(s, e.score);
            Insert(s, e)[i] == if i < k then s[i] else if i == k then e else s[i - 1]
  {
  }

  function Take<T>(s: seq<T>, n: nat): (r: seq<T>)
    ensures |r| <= n && r <= s
  {
    if |s| <= n then s else s[..n]
  }

  /** One turn of the list update: insert unless it would fall off, then trim. */
  function Push(top: seq<Entry>, e: Entry, topn: nat): seq<Entry> {
    var k := UpperBound(top, e.score);
    var grown := if k != |top| || |top| < topn then top[..k] + [e] + top[k..] else top;
    if |grown| > topn then grown[..|grown| - 1] else grown
  }

  lemma {:induction false} UpperBoundOfTake(s: seq<Entry>, n: nat, score: real)
    ensures UpperBound(Take(s, n), score) == if UpperBound(s, score) <= n then UpperBound(s, score) else n
  {
    if s != [] && n > 0 && !(score > s[0].score) {
      UpperBoundOfTake(s[1..], n - 1, score);
      assert Take(s, n)[1..] == Take(s[1..], n - 1);
    }
  }

  /** Trimming after every insertion loses nothing: the bounded update of the first topn
      is the first topn of the unbounded update. */
  lemma PushIsTakeInsert(s: seq<Entry>, e: Entry, topn: nat)
    ensures Push(Take(s, topn), e, topn) == Take(Insert(s, e), topn)
  {
    var t := Take(s, topn);
    var k := UpperBound(s, e.score);
    UpperBoundOfTake(s, topn, e.score);
    if k <= topn {
      if k == topn && |t| == topn {
        assert Insert(s, e)[..topn] == t;
      } else {
        InsertIntoFront(s, e, topn, k);
      }
    }
  }

  /** Inserting into the front and trimming, when the place lies in the front. */
  lemma InsertIntoFront(s: seq<Entry>, e: Entry, topn: nat, k: nat)
    requires k <= |s| && k <= topn && (k < topn || |s| < topn)
    ensures var t := Take(s, topn);
            k <= |t| && Take(s[..k] + [e] + s[k..], topn) == Take(t[..k] + [e] + t[k..], topn)
  {
    var t := Take(s, topn);
    assert t[..k] == s[..k];
    assert t[k..] == Take(s[k..], topn - k);
  }

  method PushEntry(top0: seq<Entry>, e: Entry, topn: nat) returns (top: seq<Entry>)
    ensures top == Push(top0, e, topn)
  {
    top := top0;
    var it := UpperBound(top, e.score);
    if it != |top| || |top| < topn {
      top := top[..it] + [e] + top[it..];
    }
    if |top| > topn {
      top := top[..|top| - 1];
    }
  }

  lemma SortAllGrows(es: seq<Entry>, e: Entry)
    ensures SortAll(es + [e]) == Insert(SortAll(es), e)
  {
    assert (es + [e])[..|es|] == es;
  }

  /** The list after the first n pixels. */
  ghost function TopAfter(pxs: seq<Vec>, score: int8 -> real, n: nat, topn: nat): seq<Entry>
    requires n <= |pxs|
  {
    Take(SortAll(Entries(pxs, score, n)), topn)
  }

  /** collect_head_debug: after the last pixel, the first topn of the stable descending
      sort of all entries, for any topn. None stands for the size-mismatch exception. */
  method CollectHeadDebug(cls: Vec, h: nat, w: nat, c: nat, refLen: nat, topn: nat,
                          score: int8 -> real, ghost pxs: seq<Vec>)
    returns (r: Option<seq<Entry>>)
    requires |cls| == refLen ==> |pxs| == h * w && Holds(cls, c, pxs, h * w)
    ensures r.None? <==> |cls| != refLen
    ensures r.Some? ==> r.value == TopAfter(pxs, score, h * w, topn)
  {
    if |cls| != refLen {
      return None;
    }
    var top := CollectPixels(cls, c, h * w, topn, score, pxs);
    return Some(top);
  }

  /** The loop over the pixels. */
  method CollectPixels(cls: Vec, c: nat, nrPix: nat, topn: nat, score: int8 -> real, ghost pxs: seq<Vec>)
    returns (top: seq<Entry>)
    requires |pxs| == nrPix && Holds(cls, c, pxs, nrPix)
    ensures top == TopAfter(pxs, score, nrPix, topn)
  {
    top := [];
    for pix := 0 to nrPix
      invariant top == TopAfter(pxs, score, pix, topn)
    {
      var at := pix * c;
      PixelBytes(cls, c, pxs, nrPix, pix, at);
      top := PushPixel(cls[at..at + c], pix, score, top, topn, pxs);
    }
  }

  lemma PixelBytes(cls: Vec, c: nat, pxs: seq<Vec>, n: nat, pix: nat, at: int)
    requires Holds(cls, c, pxs, n) && pix < n && at == pix * c
    ensures 0 <= at && at + c <= |cls| && cls[at..at + c] == pxs[pix]
  {
    MulBounds(pix, c);
    HoldsAt(cls, c, pxs, n, pix);
  }

  /** One pixel of the loop: its best class, if it has one, goes to the list. */
  method PushPixel(px: Vec, pix: nat, score: int8 -> real, top0: seq<Entry>, topn: nat, ghost pxs: seq<Vec>)
    returns (top: seq<Entry>)
    requires pix < |pxs| && px == pxs[pix] && top0 == TopAfter(pxs, score, pix, topn)
    ensures top == TopAfter(pxs, score, pix + 1, topn)
  {
    top := top0;
    var best := BestClass(px, score);
    if best.Some? {
      var e := Entry(pix, best.value, px[best.value], score(px[best.value]));
      ghost var es := Entries(pxs, score, pix);
      PushIsTakeInsert(SortAll(es), e, topn);
      SortAllGrows(es, e);
      top := PushEntry(top, e, topn);
    }
  }
}

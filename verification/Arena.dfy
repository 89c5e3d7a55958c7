// The per-process bump arena. Sizes and offsets are uint32_t in the code, so the rounding
// up and the end of a block are computed modulo 2^32; a trap ends the process.
module Arena {
  import opened Buffers
  import Bits

  datatype State = State(cap: nat, brk: nat, hi: nat, declaredCap: nat)
  {
    ghost predicate Valid() {
      0 < cap < TWO32 && brk < TWO32 && hi < TWO32 && declaredCap < TWO32
    }

    function Limit(): nat {
      if declaredCap != 0 then declaredCap else cap
    }
  }

  /** What a request leaves: the new state and the offset of the block, or a trap. */
  datatype Outcome = Trap | Granted(st: State, off: nat)

  /** (brk + align - 1) & ~(align - 1) in uint32_t. */
  function AlignUp(brk: nat, align: nat): (r: nat)
    ensures r < TWO32
  {
    Bits.Pow2Values();
    Bits.And(U32(brk + U32(align) - 1), TWO32 - 1 - U32(U32(align) - 1), 32)
  }

  function Alloc(st: State, bytes: nat, align: nat): Outcome {
    var a := if align == 0 then 1 else align;
    var off := AlignUp(st.brk, a);
    var end := U32(off + U32(bytes));
    if end < off || end > st.Limit() || end > st.cap then Trap
    else Granted(st.(brk := end, hi := if end > st.hi then end else st.hi), off)
  }

  function Begin(st: State, peak: nat): State {
    st.(brk := 0, hi := 0, declaredCap := if peak != 0 then peak else st.cap)
  }

  class Hart {
    const base: nat
    const cap: nat
    var brk: nat
    var hi: nat
    var declaredCap: nat

    ghost predicate Valid() reads this { Abs().Valid() }

    ghost function Abs(): State reads this { State(cap, brk, hi, declaredCap) }

    constructor (base: nat, cap: nat)
      requires 0 < cap < TWO32
      ensures Valid() && this.base == base && Abs() == State(cap, 0, 0, 0)
    {
      this.base, this.cap := base, cap;
      brk, hi, declaredCap := 0, 0, 0;
    }

    method ArenaBegin(declaredPeakBytes: nat) returns (trap: bool)
      requires Valid() && declaredPeakBytes < TWO32
      modifies this
      ensures Valid() && Abs() == Begin(old(Abs()), declaredPeakBytes)
      ensures Abs() == State(cap, 0, 0, if declaredPeakBytes > 0 then declaredPeakBytes else cap)
      ensures trap <==> declaredPeakBytes > cap
    {
      brk := 0;
      hi := 0;
      declaredCap := if declaredPeakBytes != 0 then declaredPeakBytes else cap;
      trap := declaredCap > cap;
    }

    method ArenaReset()
      requires Valid()
      modifies this
      ensures Valid() && Abs() == Begin(old(Abs()), 0) == State(cap, 0, 0, cap)
    {
      brk := 0;
      hi := 0;
      declaredCap := cap;
    }

    /** None stands for the trap. */
    method ArenaAlloc(bytes: nat, align0: nat) returns (ptr: Option<nat>)
      requires Valid()
      modifies this
      ensures Valid()
      ensures match Alloc(old(Abs()), bytes, align0)
              case Trap => ptr == None && Abs() == old(Abs())
              case Granted(st, off) => ptr == Some(base + off) && Abs() == st
    {
      var align := align0;
      if align == 0 {
        align := 1;
      }
      var limit := if declaredCap != 0 then declaredCap else cap;
      var off := AlignUp(brk, align);
      var end := U32(off + U32(bytes));
      if end < off || end > limit || end > cap {
        return None;
      }
      brk := end;
      if end > hi {
        hi := end;
      }
      return Some(base + off);
    }
  }

  // ---- One allocation ----

  /** The mask of a power-of-two alignment clears the low bits. */
  lemma AlignUpValue(brk: nat, k: nat, a: nat, x: nat)
    requires k < 32 && a == Bits.Pow2(k) && x == U32(brk + a - 1)
    ensures AlignUp(brk, a) == x - x % a
    ensures RoundedDown(x, a, x - x % a)
  {
    Pow32();
    MaskIs(k);
    MaskedIs(brk, a, x, TWO32 - a);
    Bits.AndHighMask(x, k, 32);
    RoundDown(x, a);
  }

  lemma Pow32()
    ensures Bits.Pow2(32) == TWO32
  {
    Bits.Pow2Values();
  }

  lemma MaskedIs(brk: nat, a: nat, x: nat, mask: nat)
    requires 0 < a < TWO32 && x == U32(brk + a - 1) && mask == TWO32 - a
    ensures AlignUp(brk, a) == Bits.And(x, mask, 32)
  {
    assert U32(a) == a && U32(a - 1) == a - 1;
  }

  /** r is the greatest multiple of a up to x. */
  ghost predicate RoundedDown(x: int, a: nat, r: int) {
    a > 0 && r % a == 0 && r <= x < r + a
  }

  /** Without wrap-around, a power-of-two alignment rounds brk up to its next multiple. */
  lemma AlignUpRounds(brk: nat, align: nat, k: nat)
    requires k < 32 && align == Bits.Pow2(k) && brk + align - 1 < TWO32
    ensures RoundedDown(brk + align - 1, align, AlignUp(brk, align))
    ensures brk <= AlignUp(brk, align) < brk + align
  {
    Rounded(brk, k, align, brk + align - 1);
  }

  lemma Rounded(brk: nat, k: nat, a: nat, x: nat)
    requires k < 32 && a == Bits.Pow2(k) && x == U32(brk + a - 1)
    ensures RoundedDown(x, a, AlignUp(brk, a))
  {
    AlignUpValue(brk, k, a, x);
  }

  lemma MaskIs(k: nat)
    requires k < 32
    ensures Bits.Pow2(k) < TWO32
    ensures U32(Bits.Pow2(k)) == Bits.Pow2(k)
    ensures TWO32 - 1 - U32(U32(Bits.Pow2(k)) - 1) == Bits.Pow2(32) - Bits.Pow2(k)
  {
    Bits.Pow2Values();
    Bits.Pow2Mono(k + 1, 32);
  }

  lemma RoundDown(x: nat, a: nat)
    requires a > 0
    ensures RoundedDown(x, a, x - x % a)
  {
    assert x == x / a * a + x % a;
    Bits.ModUnique(x - x % a, a, x / a, 0);
  }

  /** The block starts at or after brk exactly when brk + align - 1 does not wrap: past
      that the offset falls back below memory already handed out. */
  lemma AlignUpStaysAhead(brk: nat, k: nat)
    requires k < 32 && brk < TWO32
    ensures AlignUp(brk, Bits.Pow2(k)) >= brk <==> brk + Bits.Pow2(k) - 1 < TWO32
  {
    var a := Bits.Pow2(k);
    MaskIs(k);
    AlignUpValue(brk, k, a, U32(brk + a - 1));
  }

  lemma Pow31()
    ensures Bits.Pow2(31) == 0x8000_0000
  {
    Bits.Pow2Values();
    assert Bits.Pow2(32) == 2 * Bits.Pow2(31);
  }

  // ---- A sequence of allocations ----

  datatype Request = Request(bytes: nat, align: nat)

  /** An alignment a caller may ask for; the code reads 0 as 1. */
  ghost predicate IsPowerOfTwo(align: nat) { exists k: nat :: k < 32 && align == Bits.Pow2(k) }

  ghost predicate Asked(rs: seq<Request>) {
    forall i :: 0 <= i < |rs| ==> IsPowerOfTwo(rs[i].align)
  }

  datatype Run = Trapped | Served(st: State, offs: seq<nat>)

  function Allocs(st: State, rs: seq<Request>): Run
    decreases |rs|
  {
    if rs == [] then Served(st, []) else
      match Allocs(st, rs[..|rs| - 1])
      case Trapped => Trapped
      case Served(s, offs) =>
        match Alloc(s, rs[|rs| - 1].bytes, rs[|rs| - 1].align)
        case Trap => Trapped
        case Granted(s', off) => Served(s', offs + [off])
  }

  /** A run of one request more. */
  lemma AllocsStep(st: State, rs: seq<Request>, r: Request)
    ensures Allocs(st, rs + [r]) ==
            match Allocs(st, rs)
            case Trapped => Trapped
            case Served(s, offs) =>
              match Alloc(s, r.bytes, r.align)
              case Trap => Trapped
              case Granted(s', off) => Served(s', offs + [off])
  {
    assert (rs + [r])[..|rs + [r]| - 1] == rs;
  }

  /** The test a caller can make before a request: neither its rounding nor its size wraps. */
  predicate NoWrap(brk: nat, r: Request) {
    brk + r.align - 1 < TWO32 && r.bytes < TWO32
  }

  /** No request of the run wraps, each tested against the break it finds. */
  predicate NeverWraps(st: State, rs: seq<Request>)
    decreases |rs|
  {
    rs == [] || (
      && NeverWraps(st, rs[..|rs| - 1])
      && (Allocs(st, rs[..|rs| - 1]).Served? ==> NoWrap(Allocs(st, rs[..|rs| - 1]).st.brk, rs[|rs| - 1])))
  }

  /** The blocks follow one another without meeting. */
  ghost predicate InOrder(rs: seq<Request>, offs: seq<nat>)
    requires |offs| == |rs|
  {
    forall i, j :: 0 <= i < j < |rs| ==> offs[i] + rs[i].bytes <= offs[j]
  }

  /** Blocks aligned, inside the limit, one after the other, and the break and the high-water
      mark both at the end of the last one. */
  ghost predicate Laid(st: State, rs: seq<Request>, s: State, offs: seq<nat>) {
    && |offs| == |rs|
    && s.cap == st.cap && s.declaredCap == st.declaredCap
    && s.brk == s.hi && s.brk <= st.cap && s.brk <= st.Limit()
    && (forall i :: 0 <= i < |rs| ==> IsAligned(offs[i], rs[i].align) && offs[i] + rs[i].bytes <= s.brk)
    && InOrder(rs, offs)
    && s.brk == if rs == [] then 0 else offs[|rs| - 1] + rs[|rs| - 1].bytes
  }

  ghost predicate IsAligned(off: nat, align: nat) { align > 0 && off % align == 0 }

  /** What a granted request without wrap gets. */
  lemma PlainOffset(st: State, r: Request)
    requires IsPowerOfTwo(r.align) && NoWrap(st.brk, r) && Alloc(st, r.bytes, r.align).Granted?
    ensures var o := Alloc(st, r.bytes, r.align);
            && RoundedDown(st.brk + r.align - 1, r.align, o.off) && st.brk <= o.off < st.brk + r.align
            && o.st.brk == o.off + r.bytes && o.st.brk <= st.Limit() && o.st.brk <= st.cap
  {
    var k: nat :| k < 32 && r.align == Bits.Pow2(k);
    AlignUpRounds(st.brk, r.align, k);
    var off := AlignUp(st.brk, r.align);
  }

  /** Exactly when a request that does not wrap is served: the block that starts at the next
      multiple of the alignment ends inside the declared limit and the capacity. */
  lemma GrantedExactly(st: State, r: Request, off: nat)
    requires st.Valid() && IsPowerOfTwo(r.align) && NoWrap(st.brk, r)
    requires off % r.align == 0 && st.brk <= off < st.brk + r.align
    ensures Alloc(st, r.bytes, r.align).Granted? <==> off + r.bytes <= st.Limit() && off + r.bytes <= st.cap
    ensures Alloc(st, r.bytes, r.align).Granted? ==>
              Alloc(st, r.bytes, r.align).off == off && Alloc(st, r.bytes, r.align).st.brk == off + r.bytes
  {
    var k: nat :| k < 32 && r.align == Bits.Pow2(k);
    AlignUpRounds(st.brk, r.align, k);
    SameMultiple(off, AlignUp(st.brk, r.align), st.brk + r.align - 1, r.align);
  }

  lemma SameMultiple(a: nat, b: nat, x: nat, n: nat)
    requires n > 0 && a % n == 0 && b % n == 0 && a <= x < a + n && b <= x < b + n
    ensures a == b
  {
    DivModNat(a, n);
    DivModNat(b, n);
    if a < b {
      MultiplesApart(a / n, b / n, n);
    } else if b < a {
      MultiplesApart(b / n, a / n, n);
    }
  }

  lemma MultiplesApart(p: nat, q: nat, n: nat)
    requires p * n < q * n
    ensures p * n + n <= q * n
  {
    if p >= q {
      MulBounds(p - q, n);
      assert (p - q) * n == p * n - q * n;
    } else {
      BlockEnd(p, q, n);
    }
  }

  /** Alignment 0 counts as 1. */
  lemma ZeroAlignIsOne(st: State, bytes: nat)
    ensures Alloc(st, bytes, 0) == Alloc(st, bytes, 1)
  {
  }

  /** The break after the first k requests. */
  function BreakAfter(st: State, rs: seq<Request>, k: nat): nat
    requires k <= |rs|
  {
    match Allocs(st, rs[..k])
    case Trapped => 0
    case Served(s, _) => s.brk
  }

  lemma BreakOfFront(st: State, rs: seq<Request>, k: nat)
    requires k < |rs|
    ensures BreakAfter(st, rs, k) == BreakAfter(st, rs[..|rs| - 1], k)
  {
    assert rs[..k] == rs[..|rs| - 1][..k];
  }

  lemma HighWaterStep(st: State, rs: seq<Request>)
    requires rs != [] && Allocs(st, rs).Served?
    ensures var front := rs[..|rs| - 1];
            && Allocs(st, front).Served? && BreakAfter(st, rs, |rs|) == Allocs(st, rs).st.brk
            && var (was, now) := (Allocs(st, front).st.hi, Allocs(st, rs).st);
               now.hi == if now.brk > was then now.brk else was
  {
    assert rs[..|rs|] == rs;
  }

  /** The high-water mark of a served run, wrapping or not, is the greatest break it reached. */
  lemma {:induction false} HighWaterIsMax(st: State, rs: seq<Request>) returns (top: nat)
    requires st.brk == st.hi == 0 && Allocs(st, rs).Served?
    ensures forall k :: 0 <= k <= |rs| ==> BreakAfter(st, rs, k) <= Allocs(st, rs).st.hi
    ensures top <= |rs| && BreakAfter(st, rs, top) == Allocs(st, rs).st.hi
    decreases |rs|
  {
    if rs == [] {
      assert rs[..0] == [];
      return 0;
    }
    HighWaterStep(st, rs);
    top := HighWaterIsMax(st, rs[..|rs| - 1]);
    forall k | 0 <= k < |rs| ensures BreakAfter(st, rs, k) <= Allocs(st, rs[..|rs| - 1]).st.hi {
      BreakOfFront(st, rs, k);
    }
    if Allocs(st, rs).st.brk > Allocs(st, rs[..|rs| - 1]).st.hi {
      top := |rs|;
    } else {
      BreakOfFront(st, rs, top);
    }
  }

  /** One more block after those already laid out. */
  lemma LaidExtends(st: State, rs: seq<Request>, s: State, offs: seq<nat>, r: Request)
    requires Laid(st, rs, s, offs) && IsPowerOfTwo(r.align) && NoWrap(s.brk, r) && Alloc(s, r.bytes, r.align).Granted?
    ensures var o := Alloc(s, r.bytes, r.align); Laid(st, rs + [r], o.st, offs + [o.off])
  {
    var o := Alloc(s, r.bytes, r.align);
    PlainOffset(s, r);
    var rs', offs' := rs + [r], offs + [o.off];
    forall i | 0 <= i < |rs'|
      ensures IsAligned(offs'[i], rs'[i].align) && offs'[i] + rs'[i].bytes <= o.st.brk
    {
      if i < |rs| { assert IsAligned(offs[i], rs[i].align); }
    }
    forall i, j | 0 <= i < j < |rs'|
      ensures offs'[i] + rs'[i].bytes <= offs'[j]
    {
      if j == |rs| { assert IsAligned(offs[i], rs[i].align); }
    }
  }

  /** A rounding that wraps always lands on offset 0. */
  lemma WrapLandsOnZero(brk: nat, align: nat)
    requires brk < TWO32 && IsPowerOfTwo(align) && brk + align - 1 >= TWO32
    ensures brk > 0 && AlignUp(brk, align) == 0
  {
    var k: nat :| k < 32 && align == Bits.Pow2(k);
    MaskIs(k);
    var x := brk + align - 1 - TWO32;
    AlignUpValue(brk, k, align, x);
    Bits.ModUnique(x, align, 0, x);
  }

  /** A rounding that wraps takes back offset 0, behind the block before it. */
  lemma WrapSpoils(st: State, rs: seq<Request>, s: State, offs: seq<nat>, r: Request)
    requires Laid(st, rs, s, offs) && s.brk < TWO32 && IsPowerOfTwo(r.align) && s.brk + r.align - 1 >= TWO32
    requires Alloc(s, r.bytes, r.align).Granted?
    ensures !InOrder(rs + [r], offs + [Alloc(s, r.bytes, r.align).off])
  {
    WrapLandsOnZero(s.brk, r.align);
    var rs', offs', n := rs + [r], offs + [Alloc(s, r.bytes, r.align).off], |rs|;
    assert offs'[n - 1] + rs'[n - 1].bytes > offs'[n];
  }

  lemma LaidPrefix(rs: seq<Request>, offs: seq<nat>, r: Request, off: nat)
    requires |offs| == |rs| && InOrder(rs + [r], offs + [off])
    ensures InOrder(rs, offs)
  {
    forall i, j | 0 <= i < j < |rs| ensures offs[i] + rs[i].bytes <= offs[j] {
      assert (offs + [off])[i] + (rs + [r])[i].bytes <= (offs + [off])[j];
    }
  }

  /** What every served run keeps, laid out or not. */
  lemma {:induction false} ServedRun(st: State, rs: seq<Request>)
    requires st.Valid() && st.brk == st.hi == 0 && Allocs(st, rs).Served?
    ensures var s := Allocs(st, rs).st;
            |Allocs(st, rs).offs| == |rs| && s.Valid() && s.cap == st.cap && s.declaredCap == st.declaredCap
    decreases |rs|
  {
    if rs != [] {
      ServedRun(st, rs[..|rs| - 1]);
    }
  }

  /** Without wrap every served run is laid out. */
  lemma {:induction false} NoWrapLays(st: State, rs: seq<Request>)
    requires st.Valid() && st.brk == st.hi == 0 && Asked(rs) && Allocs(st, rs).Served? && NeverWraps(st, rs)
    ensures Laid(st, rs, Allocs(st, rs).st, Allocs(st, rs).offs)
    decreases |rs|
  {
    if rs != [] {
      var front, r := rs[..|rs| - 1], rs[|rs| - 1];
      assert rs == front + [r] && IsPowerOfTwo(r.align);
      NoWrapLays(st, front);
      LaidExtends(st, front, Allocs(st, front).st, Allocs(st, front).offs, r);
    }
  }

  ghost predicate SmallSizes(rs: seq<Request>) {
    forall i :: 0 <= i < |rs| ==> rs[i].bytes < TWO32
  }

  /** The last request of a served run and the run before it. */
  lemma LastServed(st: State, rs: seq<Request>)
    requires st.Valid() && st.brk == st.hi == 0 && rs != [] && Allocs(st, rs).Served?
    ensures var front, r := rs[..|rs| - 1], rs[|rs| - 1];
            && rs == front + [r] && Allocs(st, front).Served?
            && (Asked(rs) ==> Asked(front) && IsPowerOfTwo(r.align)) && (SmallSizes(rs) ==> SmallSizes(front))
            && var s, offs := Allocs(st, front).st, Allocs(st, front).offs;
               && s.Valid() && |offs| == |front| && Alloc(s, r.bytes, r.align).Granted?
               && Allocs(st, rs).offs == offs + [Alloc(s, r.bytes, r.align).off]
               && (NeverWraps(st, rs) <==> NeverWraps(st, front) && NoWrap(s.brk, r))
  {
    var front, r := rs[..|rs| - 1], rs[|rs| - 1];
    ServedRun(st, front);
    if Asked(rs) {
      assert IsPowerOfTwo(rs[|rs| - 1].align);
    }
  }

  /** With a wrap in its rounding no served run is in order. */
  lemma {:induction false} WrapNeverLays(st: State, rs: seq<Request>)
    requires st.Valid() && st.brk == st.hi == 0 && Asked(rs) && SmallSizes(rs)
    requires Allocs(st, rs).Served? && !NeverWraps(st, rs)
    ensures |Allocs(st, rs).offs| == |rs| && !InOrder(rs, Allocs(st, rs).offs)
    decreases |rs|
  {
    LastServed(st, rs);
    var front, r := rs[..|rs| - 1], rs[|rs| - 1];
    var s, offs := Allocs(st, front).st, Allocs(st, front).offs;
    if NeverWraps(st, front) {
      NoWrapLays(st, front);
      WrapSpoils(st, front, s, offs, r);
    } else {
      WrapNeverLays(st, front);
      var off := Alloc(s, r.bytes, r.align).off;
      if InOrder(rs, offs + [off]) {
        LaidPrefix(front, offs, r, off);
      }
    }
  }

  /** A served run is laid out exactly when none of its requests wraps; with sizes of 32 bits
      its blocks are in order and disjoint exactly then. */
  lemma BlocksAreLaidOut(st: State, rs: seq<Request>)
    requires st.Valid() && st.brk == st.hi == 0 && Asked(rs) && Allocs(st, rs).Served?
    ensures Laid(st, rs, Allocs(st, rs).st, Allocs(st, rs).offs) <==> NeverWraps(st, rs)
    ensures |Allocs(st, rs).offs| == |rs|
    ensures SmallSizes(rs) ==> (InOrder(rs, Allocs(st, rs).offs) <==> NeverWraps(st, rs))
  {
    ServedRun(st, rs);
    if NeverWraps(st, rs) {
      NoWrapLays(st, rs);
    } else if SmallSizes(rs) {
      WrapNeverLays(st, rs);
    }
  }

  lemma ZeroIsAligned(align: nat)
    requires IsPowerOfTwo(align)
    ensures AlignUp(0, align) == 0
  {
    var k: nat :| k < 32 && align == Bits.Pow2(k);
    MaskIs(k);
    AlignUpRounds(0, align, k);
    Bits.ModUnique(AlignUp(0, align), align, 0, AlignUp(0, align));
  }

  /** A run whose break has moved has a block that starts at offset 0. */
  lemma {:induction false} FirstByteTaken(st: State, rs: seq<Request>) returns (i: nat)
    requires st.Valid() && st.brk == st.hi == 0 && Asked(rs) && Allocs(st, rs).Served? && Allocs(st, rs).st.brk > 0
    ensures |Allocs(st, rs).offs| == |rs|
    ensures i < |rs| && rs[i].bytes > 0 && Allocs(st, rs).offs[i] == 0
    decreases |rs|
  {
    ServedRun(st, rs);
    var front, r, offs := rs[..|rs| - 1], rs[|rs| - 1], Allocs(st, rs).offs;
    assert IsPowerOfTwo(r.align);
    ServedRun(st, front);
    if Allocs(st, front).st.brk > 0 {
      i := FirstByteTaken(st, front);
      assert offs[i] == Allocs(st, front).offs[i];
    } else {
      ZeroIsAligned(r.align);
      i := |rs| - 1;
    }
  }

  /** Whenever a rounding wraps and the request is granted, its block starts on the first byte
      of one already handed out. */
  lemma WrapOverlaps(st: State, rs: seq<Request>, r: Request)
    requires st.Valid() && st.brk == st.hi == 0 && Asked(rs + [r]) && Allocs(st, rs + [r]).Served?
    requires Allocs(st, rs).st.brk + r.align - 1 >= TWO32
    ensures |Allocs(st, rs + [r]).offs| == |rs| + 1 && Allocs(st, rs + [r]).offs[|rs|] == 0
    ensures exists i :: 0 <= i < |rs| && rs[i].bytes > 0 && Allocs(st, rs + [r]).offs[i] == 0
  {
    var all := rs + [r];
    assert all[..|all| - 1] == rs && IsPowerOfTwo(all[|rs|].align);
    assert Asked(rs) by {
      forall i | 0 <= i < |rs| ensures IsPowerOfTwo(rs[i].align) {
        assert IsPowerOfTwo(all[i].align);
      }
    }
    ServedRun(st, rs);
    WrapLandsOnZero(Allocs(st, rs).st.brk, r.align);
    var i := FirstByteTaken(st, rs);
    assert Allocs(st, all).offs[i] == 0;
  }

  /** Two requests on a fresh arena, the second of which wraps: both blocks start at 0. */
  lemma WrappedRequestOverlaps()
    ensures Allocs(State(0xffff_ffff, 0, 0, 0), [Request(0x8000_0040, 1), Request(64, 0x8000_0000)])
         == Served(State(0xffff_ffff, 64, 0x8000_0040, 0), [0, 0])
  {
    var st, r, q := State(0xffff_ffff, 0, 0, 0), Request(0x8000_0040, 1), Request(64, 0x8000_0000);
    FirstGrant();
    AllocsStep(st, [], r);
    assert [] + [r] == [r];
    SecondGrant();
    AllocsStep(st, [r], q);
    assert [r] + [q] == [r, q];
  }

  lemma FirstGrant()
    ensures Alloc(State(0xffff_ffff, 0, 0, 0), 0x8000_0040, 1)
         == Granted(State(0xffff_ffff, 0x8000_0040, 0x8000_0040, 0), 0)
  {
    OneByteAligned();
  }

  lemma SecondGrant()
    ensures Alloc(State(0xffff_ffff, 0x8000_0040, 0x8000_0040, 0), 64, 0x8000_0000)
         == Granted(State(0xffff_ffff, 64, 0x8000_0040, 0), 0)
  {
    Pow31();
    AlignUpValue(0x8000_0040, 31, 0x8000_0000, 63);
  }

  lemma OneByteAligned()
    ensures AlignUp(0, 1) == 0
  {
    assert Bits.Pow2(0) == 1;
    AlignUpValue(0, 0, 1, 0);
  }

  ghost function Sum(rs: seq<Request>): nat
    decreases |rs|
  {
    if rs == [] then 0 else Sum(rs[..|rs| - 1]) + rs[|rs| - 1].bytes
  }

  /** Sizes in granules of 64 bytes, alignments up to one granule. */
  ghost predicate Granular(rs: seq<Request>) {
    forall i :: 0 <= i < |rs| ==> IsGranule(rs[i])
  }

  ghost predicate IsGranule(r: Request) {
    IsPowerOfTwo(r.align) && r.bytes < TWO32 && r.bytes % 64 == 0 && r.align > 0 && 64 % r.align == 0
  }

  /** With 64-byte granules no byte is lost to rounding, on an arena of any capacity: the break
      is the sum of the sizes, and a process whose declared peak covers that sum never traps,
      while one that declares less always does. */
  lemma {:induction false} GranulesAddUp(st: State, rs: seq<Request>)
    requires st.Valid() && st.brk == st.hi == 0 && Granular(rs)
    ensures Sum(rs) % 64 == 0
    ensures Allocs(st, rs).Served? <==> Sum(rs) <= st.Limit() && Sum(rs) <= st.cap
    ensures Allocs(st, rs).Served? ==> Allocs(st, rs).st.brk == Sum(rs)
    decreases |rs|
  {
    if rs != [] {
      var front, r := rs[..|rs| - 1], rs[|rs| - 1];
      assert IsGranule(r);
      GranulesAddUp(st, front);
      GranularSum(Sum(front), r.bytes);
      if Allocs(st, front).Served? {
        ServedRun(st, front);
        GranuleAlloc(Allocs(st, front).st, r);
      }
    }
  }

  lemma GranularSum(a: nat, b: nat)
    requires a % 64 == 0 && b % 64 == 0
    ensures (a + b) % 64 == 0
  {
  }

  /** One granule request advances the break by its size, or traps when it does not fit. */
  lemma GranuleAlloc(s: State, r: Request)
    requires s.Valid() && s.brk % 64 == 0 && IsGranule(r)
    ensures Alloc(s, r.bytes, r.align).Granted? <==> s.brk + r.bytes <= s.Limit() && s.brk + r.bytes <= s.cap
    ensures Alloc(s, r.bytes, r.align).Granted? ==> Alloc(s, r.bytes, r.align).st.brk == s.brk + r.bytes
  {
    var k: nat :| k < 32 && r.align == Bits.Pow2(k);
    AlignAtMost64(r.align);
    AlignUpRounds(s.brk, r.align, k);
    NoGap(s.brk, AlignUp(s.brk, r.align), r.align);
  }

  lemma AlignAtMost64(align: nat)
    requires align > 0 && 64 % align == 0
    ensures align <= 64
  {
    if align > 64 {
      Bits.ModUnique(64, align, 0, 64);
    }
  }

  lemma NoGap(brk: nat, off: nat, align: nat)
    requires align > 0 && 64 % align == 0 && brk % 64 == 0
    requires off % align == 0 && brk <= off < brk + align
    ensures off == brk
  {
    var q := 64 / align;
    assert 64 == q * align;
    var m := brk / 64;
    assert brk == m * 64 == (m * q) * align;
    Bits.ModUnique(brk, align, m * q, 0);
    var j := off / align;
    assert off == j * align;
    Bits.ModUnique(off - brk, align, 0, off - brk);
    assert off - brk == (j - m * q) * align;
    Bits.ModUnique(off - brk, align, j - m * q, 0);
  }
}

// Whole runs of the systolic grid: no reachable state is stuck before everything has
// stopped, every run is finite, each cell ends with the sum of its products, and PASS is
// reported once exactly when all of them are as expected.
module SystolicRuns {
  import opened Buffers
  import opened Matmul
  import opened Systolic

  // ---- Sums over the grid ----

  ghost function RowTotal<T>(r: seq<T>, f: T -> nat): nat {
    if r == [] then 0 else f(r[0]) + RowTotal(r[1..], f)
  }

  ghost function Total<T>(m: seq<seq<T>>, f: T -> nat): nat {
    if m == [] then 0 else RowTotal(m[0], f) + Total(m[1..], f)
  }

  lemma {:induction false} RowTotalPut<T>(r: seq<T>, j: nat, x: T, f: T -> nat)
    requires j < |r|
    ensures RowTotal(r[j := x], f) + f(r[j]) == RowTotal(r, f) + f(x)
  {
    if j > 0 {
      RowTotalPut(r[1..], j - 1, x, f);
      assert r[j := x][1..] == r[1..][j - 1 := x];
    } else {
      assert r[j := x][1..] == r[1..];
    }
  }

  lemma {:induction false} TotalPut<T>(m: seq<seq<T>>, i: nat, j: nat, x: T, f: T -> nat)
    requires i < |m| && j < |m[i]|
    ensures Total(Put(m, i, j, x), f) + f(m[i][j]) == Total(m, f) + f(x)
  {
    var p := Put(m, i, j, x);
    if i > 0 {
      TotalPut(m[1..], i - 1, j, x, f);
      assert p[1..] == Put(m[1..], i - 1, j, x);
    } else {
      RowTotalPut(m[0], j, x, f);
      assert p[1..] == m[1..];
    }
  }

  lemma {:induction false} RowTotalZero<T>(r: seq<T>, f: T -> nat)
    ensures RowTotal(r, f) == 0 <==> forall j :: 0 <= j < |r| ==> f(r[j]) == 0
  {
    if r != [] {
      RowTotalZero(r[1..], f);
      assert forall j :: 1 <= j < |r| ==> r[j] == r[1..][j - 1];
    }
  }

  lemma {:induction false} TotalZero<T>(m: seq<seq<T>>, f: T -> nat)
    ensures Total(m, f) == 0 <==> forall i, j :: 0 <= i < |m| && 0 <= j < |m[i]| ==> f(m[i][j]) == 0
  {
    if m != [] {
      TotalZero(m[1..], f);
      RowTotalZero(m[0], f);
      assert forall i :: 1 <= i < |m| ==> m[i] == m[1..][i - 1];
    }
  }

  lemma {:induction false} RowTotalSame<T>(r: seq<T>, f: T -> nat, v: nat)
    requires forall j :: 0 <= j < |r| ==> f(r[j]) == v
    ensures RowTotal(r, f) == |r| * v
  {
    if r != [] {
      RowTotalSame(r[1..], f, v);
      assert |r| * v == v + (|r| - 1) * v;
    }
  }

  lemma {:induction false} TotalSame<T>(m: seq<seq<T>>, f: T -> nat, c: nat, v: nat)
    requires forall i :: 0 <= i < |m| ==> |m[i]| == c
    requires forall i, j :: 0 <= i < |m| && 0 <= j < c ==> f(m[i][j]) == v
    ensures Total(m, f) == |m| * (c * v)
  {
    if m != [] {
      TotalSame(m[1..], f, c, v);
      RowTotalSame(m[0], f, v);
      assert |m| * (c * v) == c * v + (|m| - 1) * (c * v);
    }
  }

  // ---- The completion count ----

  function Unmatched(): Check -> nat { (k: Check) => if k == ReadFailed || k == CheckStopped(true) then 0 else 1 }

  function Pending(): Check -> nat { (k: Check) => if k == ReadFailed then 1 else 0 }

  /** tm_done counts the matching checkers; the one that completes the count owes a PASS
      until it has given it; tm_failed is set only by a mismatch. */
  ghost predicate TallyOk(g: Grid, s: State)
    requires Shaped(g, s)
  {
    && s.done + Total(s.checks, Unmatched()) == g.rows * g.cols
    && s.passes + Total(s.checks, Pending()) == (if s.done == g.rows * g.cols then 1 else 0)
    && (s.failed ==> SomeMismatch(g, s))
  }

  ghost predicate SomeMismatch(g: Grid, s: State)
    requires Shaped(g, s)
  {
    exists i, j :: 0 <= i < g.rows && 0 <= j < g.cols && s.checks[i][j] == CheckStopped(false)
  }

  ghost predicate Inv(g: Grid, s: State)
    requires g.Valid()
  {
    Shaped(g, s) && SitesOk(g, s) && TallyOk(g, s)
  }

  lemma InitInv(g: Grid)
    requires g.Valid()
    ensures Inv(g, Init(g))
  {
    var s := Init(g);
    TotalSame(s.checks, Unmatched(), g.cols, 1);
    TotalSame(s.checks, Pending(), g.cols, 0);
    Positive(g.rows, g.cols);
  }

  lemma Positive(a: nat, b: nat)
    requires a > 0 && b > 0
    ensures a * b > 0
  {
  }

  lemma ResultTally(g: Grid, s: State, i: nat, j: nat)
    requires g.Valid() && Inv(g, s) && Enabled(g, s, Result(i, j))
    ensures TallyOk(g, Apply(g, s, Result(i, j)))
  {
    var r, k := Apply(g, s, Result(i, j)), NewCheck(g, s, s.cells[i][j].acc);
    TotalPut(s.checks, i, j, k, Unmatched());
    TotalPut(s.checks, i, j, k, Pending());
    PutAt(s.checks, i, j, k);
    if r.failed {
      if k == CheckStopped(false) {
        assert r.checks[i][j] == CheckStopped(false);
      } else {
        var p, q :| 0 <= p < g.rows && 0 <= q < g.cols && s.checks[p][q] == CheckStopped(false);
        assert r.checks[p][q] == CheckStopped(false);
      }
    }
  }

  /** When the last look at tm_failed happens, nothing has failed. */
  lemma PendingMeansClean(g: Grid, s: State, i: nat, j: nat)
    requires g.Valid() && Inv(g, s) && i < g.rows && j < g.cols && s.checks[i][j] == ReadFailed
    ensures !s.failed && s.done == g.rows * g.cols && s.passes == 0
  {
    TotalZero(s.checks, Pending());
    assert Pending()(s.checks[i][j]) == 1;
    DoneMeansClean(g, s);
  }

  lemma VerdictTally(g: Grid, s: State, i: nat, j: nat)
    requires g.Valid() && Inv(g, s) && Enabled(g, s, Verdict(i, j))
    ensures TallyOk(g, Apply(g, s, Verdict(i, j)))
  {
    PendingMeansClean(g, s, i, j);
    TotalPut(s.checks, i, j, CheckStopped(true), Unmatched());
    TotalPut(s.checks, i, j, CheckStopped(true), Pending());
  }

  /** Every action keeps the invariant. */
  lemma InvKept(g: Grid, s: State, act: Action)
    requires g.Valid() && Inv(g, s) && Enabled(g, s, act)
    ensures Inv(g, Apply(g, s, act))
  {
    SitesKept(g, s, act);
    OnlyChecksFail(g, s, act);
    match act
    case Result(i, j) => ResultTally(g, s, i, j);
    case Verdict(i, j) => VerdictTally(g, s, i, j);
    case _ => SameChecksTally(g, s, act);
  }

  lemma SameChecksTally(g: Grid, s: State, act: Action)
    requires g.Valid() && Inv(g, s) && Enabled(g, s, act) && !act.Result? && !act.Verdict?
    ensures TallyOk(g, Apply(g, s, act))
  {
    OnlyChecksFail(g, s, act);
    var r := Apply(g, s, act);
    assert r.checks == s.checks && r.done == s.done && r.passes == s.passes;
    if r.failed {
      var p, q :| 0 <= p < g.rows && 0 <= q < g.cols && s.checks[p][q] == CheckStopped(false);
      assert r.checks[p][q] == CheckStopped(false);
    }
  }

  // ---- Deadlock freedom ----

  datatype Proc = FeederA(j: nat) | FeederB(i: nat) | CellAt(i: nat, j: nat) | Checker(i: nat, j: nat)

  ghost predicate Unfinished(g: Grid, s: State, p: Proc)
    requires Shaped(g, s)
  {
    match p
    case FeederA(j) => j < g.cols && s.fa[j] != g.rounds
    case FeederB(i) => i < g.rows && s.fb[i] != g.rounds
    case CellAt(i, j) => i < g.rows && j < g.cols && s.cells[i][j].pc != Stopped
    case Checker(i, j) => i < g.rows && j < g.cols && !s.checks[i][j].CheckStopped?
  }

  function Phase(pc: Pc): nat {
    match pc
    case RecvA => 0
    case RecvB => 1
    case SendSouth => 2
    case SendWest => 3
    case SendResult => 0
    case Stopped => 0
  }

  /** The local time of a cell: four steps to a round. */
  function Clock(c: Cell): nat { 4 * c.round + Phase(c.pc) }

  /** A cell stays in its rounds until it sends its result. */
  predicate RoundOk(g: Grid, c: Cell) {
    if c.pc == SendResult || c.pc == Stopped then c.round == g.rounds else c.round < g.rounds
  }

  /** The cell above one that waits for an A tile. */
  lemma AboveIsEarlier(g: Grid, c: Cell, e: Cell)
    requires RoundOk(g, c) && RoundOk(g, e) && c.pc == RecvA && c.round == SentSouth(e) && e.pc != SendSouth
    ensures e.pc != Stopped && Clock(e) < Clock(c) + 2
  {
  }

  /** The cell east of one that waits for a B tile. */
  lemma EastIsEarlier(g: Grid, c: Cell, e: Cell)
    requires RoundOk(g, c) && RoundOk(g, e) && c.pc == RecvB && c.round == SentWest(e) && e.pc != SendWest
    ensures e.pc != Stopped && Clock(e) < Clock(c) + 2
  {
  }

  /** The cell below one that wants to send south, and the one west of one that wants to
      send west. */
  lemma BelowIsEarlier(g: Grid, c: Cell, e: Cell)
    requires RoundOk(g, c) && RoundOk(g, e) && c.pc == SendSouth && ReceivedA(e) == SentSouth(c) && e.pc != RecvA
    ensures e.pc != Stopped && Clock(e) + 2 < Clock(c)
  {
  }

  lemma WestIsEarlier(g: Grid, c: Cell, e: Cell)
    requires RoundOk(g, c) && RoundOk(g, e) && c.pc == SendWest && ReceivedB(e) == SentWest(c) && e.pc != RecvB
    ensures e.pc != Stopped && Clock(e) + 2 < Clock(c)
  {
  }

  /** When the next event of a process takes place in the systolic schedule: rows further
      south and columns further west run two steps later, rounds four steps apart. */
  ghost function Rank(g: Grid, s: State, p: Proc): int
    requires Shaped(g, s) && Unfinished(g, s, p)
  {
    match p
    case FeederA(j) => 2 * (g.cols - 1 - j) + 4 * s.fa[j]
    case FeederB(i) => 2 * i + 4 * s.fb[i] + 1
    case CellAt(i, j) => 2 * i + 2 * (g.cols - 1 - j) + Clock(s.cells[i][j])
    case Checker(i, j) => 2 * i + 2 * (g.cols - 1 - j) + 4 * g.rounds + 1
  }

  /** The event an unfinished process waits for, or a process that must move earlier. */
  datatype Next = Ready(act: Action) | Behind(p: Proc)

  ghost function Partner(g: Grid, s: State, p: Proc): Next
    requires g.Valid() && Shaped(g, s) && Unfinished(g, s, p)
  {
    match p
    case FeederA(j) => if s.cells[0][j].pc == RecvA then Ready(FeedA(j)) else Behind(CellAt(0, j))
    case FeederB(i) => if s.cells[i][g.cols - 1].pc == RecvB then Ready(FeedB(i)) else Behind(CellAt(i, g.cols - 1))
    case Checker(i, j) => if s.checks[i][j] == ReadFailed then Ready(Verdict(i, j)) else Behind(CellAt(i, j))
    case CellAt(i, j) =>
      match s.cells[i][j].pc
      case RecvA =>
        if i == 0 then Ready(FeedA(j))
        else if s.cells[i - 1][j].pc == SendSouth then Ready(South(i - 1, j)) else Behind(CellAt(i - 1, j))
      case RecvB =>
        if j == g.cols - 1 then Ready(FeedB(i))
        else if s.cells[i][j + 1].pc == SendWest then Ready(West(i, j + 1)) else Behind(CellAt(i, j + 1))
      case SendSouth =>
        if i + 1 < g.rows && s.cells[i + 1][j].pc == RecvA then Ready(South(i, j)) else Behind(CellAt(i + 1, j))
      case SendWest =>
        if j > 0 && s.cells[i][j - 1].pc == RecvB then Ready(West(i, j))
        else Behind(CellAt(i, if j > 0 then j - 1 else 0))
      case _ => Ready(Result(i, j))
  }

  /** A process not ready waits for one whose next event is strictly earlier. */
  ghost predicate PartnerOk(g: Grid, s: State, p: Proc)
    requires g.Valid() && Shaped(g, s) && Unfinished(g, s, p)
  {
    match Partner(g, s, p)
    case Ready(act) => Enabled(g, s, act)
    case Behind(q) => Unfinished(g, s, q) && 0 <= Rank(g, s, q) < Rank(g, s, p)
  }

  lemma PartnerIsEarlier(g: Grid, s: State, p: Proc)
    requires g.Valid() && Inv(g, s) && Unfinished(g, s, p)
    ensures PartnerOk(g, s, p)
  {
    match p
    case FeederA(j) => FeederAPartner(g, s, j);
    case FeederB(i) => FeederBPartner(g, s, i);
    case Checker(i, j) => CheckerPartner(g, s, i, j);
    case CellAt(i, j) => CellPartner(g, s, i, j);
  }

  lemma CheckerPartner(g: Grid, s: State, i: nat, j: nat)
    requires g.Valid() && Shaped(g, s) && SitesOk(g, s) && Unfinished(g, s, Checker(i, j))
    ensures PartnerOk(g, s, Checker(i, j))
  {
    Site(g, s, i, j);
  }

  lemma Site(g: Grid, s: State, i: nat, j: nat)
    requires g.Valid() && Shaped(g, s) && SitesOk(g, s) && i < g.rows && j < g.cols
    ensures CellOk(g, i, j, s.cells[i][j]) && LinksOk(g, s, i, j) && CheckOk(g, i, j, s.cells[i][j], s.checks[i][j])
    ensures ReceivedA(s.cells[i][j]) <= g.rounds && ReceivedB(s.cells[i][j]) <= g.rounds
  {
  }

  lemma SiteRound(g: Grid, s: State, i: nat, j: nat)
    requires g.Valid() && Shaped(g, s) && SitesOk(g, s) && i < g.rows && j < g.cols
    ensures RoundOk(g, s.cells[i][j])
    ensures s.cells[i][j].pc == SendSouth ==> i + 1 < g.rows
    ensures s.cells[i][j].pc == SendWest ==> j > 0
  {
    assert CellOk(g, i, j, s.cells[i][j]);
  }

  lemma SiteLinks(g: Grid, s: State, i: nat, j: nat)
    requires g.Valid() && Shaped(g, s) && SitesOk(g, s) && i < g.rows && j < g.cols
    ensures LinksOk(g, s, i, j)
  {
  }

  lemma FeederAPartner(g: Grid, s: State, j: nat)
    requires g.Valid() && Shaped(g, s) && SitesOk(g, s) && Unfinished(g, s, FeederA(j))
    ensures PartnerOk(g, s, FeederA(j))
  {
    Site(g, s, 0, j);
  }

  lemma FeederBPartner(g: Grid, s: State, i: nat)
    requires g.Valid() && Shaped(g, s) && SitesOk(g, s) && Unfinished(g, s, FeederB(i))
    ensures PartnerOk(g, s, FeederB(i))
  {
    Site(g, s, i, g.cols - 1);
  }

  /** A cell waiting for an A tile: the feeder has it, or the cell above is about to send
      it, or the cell above is earlier in the schedule. */
  lemma RecvAPartner(g: Grid, s: State, i: nat, j: nat)
    requires g.Valid() && Shaped(g, s) && SitesOk(g, s) && i < g.rows && j < g.cols && s.cells[i][j].pc == RecvA
    ensures PartnerOk(g, s, CellAt(i, j))
  {
    if i == 0 {
      RecvATop(g, s, j);
    } else {
      RecvABelow(g, s, i, j);
    }
  }

  lemma RecvATop(g: Grid, s: State, j: nat)
    requires g.Valid() && Shaped(g, s) && SitesOk(g, s) && j < g.cols && s.cells[0][j].pc == RecvA
    ensures PartnerOk(g, s, CellAt(0, j))
  {
    SiteRound(g, s, 0, j);
    SiteLinks(g, s, 0, j);
  }

  lemma RecvABelow(g: Grid, s: State, i: nat, j: nat)
    requires g.Valid() && Shaped(g, s) && SitesOk(g, s) && 0 < i < g.rows && j < g.cols && s.cells[i][j].pc == RecvA
    ensures PartnerOk(g, s, CellAt(i, j))
  {
    SiteRound(g, s, i, j);
    SiteLinks(g, s, i, j);
    SiteRound(g, s, i - 1, j);
    if s.cells[i - 1][j].pc != SendSouth {
      AboveIsEarlier(g, s.cells[i][j], s.cells[i - 1][j]);
    }
  }

  lemma RecvBPartner(g: Grid, s: State, i: nat, j: nat)
    requires g.Valid() && Shaped(g, s) && SitesOk(g, s) && i < g.rows && j < g.cols && s.cells[i][j].pc == RecvB
    ensures PartnerOk(g, s, CellAt(i, j))
  {
    SiteRound(g, s, i, j);
    SiteLinks(g, s, i, j);
    if j + 1 < g.cols {
      SiteRound(g, s, i, j + 1);
      if s.cells[i][j + 1].pc != SendWest {
        EastIsEarlier(g, s.cells[i][j], s.cells[i][j + 1]);
      }
    }
  }

  lemma SendSouthPartner(g: Grid, s: State, i: nat, j: nat)
    requires g.Valid() && Shaped(g, s) && SitesOk(g, s) && i < g.rows && j < g.cols && s.cells[i][j].pc == SendSouth
    ensures PartnerOk(g, s, CellAt(i, j))
  {
    SiteRound(g, s, i, j);
    SiteRound(g, s, i + 1, j);
    SiteLinks(g, s, i + 1, j);
    if s.cells[i + 1][j].pc != RecvA {
      BelowIsEarlier(g, s.cells[i][j], s.cells[i + 1][j]);
    }
  }

  lemma SendWestPartner(g: Grid, s: State, i: nat, j: nat)
    requires g.Valid() && Shaped(g, s) && SitesOk(g, s) && i < g.rows && j < g.cols && s.cells[i][j].pc == SendWest
    ensures PartnerOk(g, s, CellAt(i, j))
  {
    SiteRound(g, s, i, j);
    SiteRound(g, s, i, j - 1);
    SiteLinks(g, s, i, j - 1);
    if s.cells[i][j - 1].pc != RecvB {
      WestIsEarlier(g, s.cells[i][j], s.cells[i][j - 1]);
    }
  }

  lemma CellPartner(g: Grid, s: State, i: nat, j: nat)
    requires g.Valid() && Shaped(g, s) && SitesOk(g, s) && Unfinished(g, s, CellAt(i, j))
    ensures PartnerOk(g, s, CellAt(i, j))
  {
    match s.cells[i][j].pc
    case RecvA => RecvAPartner(g, s, i, j);
    case RecvB => RecvBPartner(g, s, i, j);
    case SendSouth => SendSouthPartner(g, s, i, j);
    case SendWest => SendWestPartner(g, s, i, j);
    case _ => ResultPartner(g, s, i, j);
  }

  lemma ResultPartner(g: Grid, s: State, i: nat, j: nat)
    requires g.Valid() && Shaped(g, s) && SitesOk(g, s) && i < g.rows && j < g.cols && s.cells[i][j].pc == SendResult
    ensures PartnerOk(g, s, CellAt(i, j))
  {
    Site(g, s, i, j);
  }

  /** Following partners back in the schedule reaches a rendezvous that can happen now. */
  lemma {:induction false} SomeoneCanMove(g: Grid, s: State, p: Proc) returns (act: Action)
    requires g.Valid() && Inv(g, s) && Unfinished(g, s, p)
    ensures Enabled(g, s, act)
    decreases Rank(g, s, p)
  {
    PartnerIsEarlier(g, s, p);
    match Partner(g, s, p)
    case Ready(a) => act := a;
    case Behind(q) => act := SomeoneCanMove(g, s, q);
  }

  /** A state that satisfies the invariant is never stuck before every process has stopped. */
  lemma NoDeadlock(g: Grid, s: State)
    requires g.Valid() && Inv(g, s) && !Final(g, s)
    ensures exists act :: Enabled(g, s, act)
  {
    FindUnfinished(g, s);
    var p :| Unfinished(g, s, p);
    var act := SomeoneCanMove(g, s, p);
    assert Enabled(g, s, act);
  }

  lemma FindUnfinished(g: Grid, s: State)
    requires g.Valid() && Shaped(g, s) && !Final(g, s)
    ensures exists p :: Unfinished(g, s, p)
  {
    if j :| 0 <= j < g.cols && s.fa[j] != g.rounds {
      assert Unfinished(g, s, FeederA(j));
    } else if i :| 0 <= i < g.rows && s.fb[i] != g.rounds {
      assert Unfinished(g, s, FeederB(i));
    } else if i, j :| 0 <= i < g.rows && 0 <= j < g.cols && s.cells[i][j].pc != Stopped {
      assert Unfinished(g, s, CellAt(i, j));
    } else {
      var i, j :| 0 <= i < g.rows && 0 <= j < g.cols && !s.checks[i][j].CheckStopped?;
      assert Unfinished(g, s, Checker(i, j));
    }
  }

  // ---- Termination ----

  /** Channel operations a cell has still to complete, at most. */
  function Rem(g: Grid): Cell -> nat {
    (c: Cell) => if c.pc == SendResult then 1
                 else if c.pc == Stopped || c.round >= g.rounds then 0
                 else 4 * (g.rounds - c.round) + 1 - Phase(c.pc)
  }

  function CheckRem(): Check -> nat {
    (k: Check) => match k case WaitTile => 2 case ReadFailed => 1 case CheckStopped(_) => 0
  }

  ghost function Measure(g: Grid, s: State): nat {
    Total(s.cells, Rem(g)) + Total(s.checks, CheckRem())
  }

  lemma OneLess(g: Grid, cells: seq<seq<Cell>>, x: nat, y: nat, d: Cell)
    requires x < |cells| && y < |cells[x]| && Rem(g)(d) < Rem(g)(cells[x][y])
    ensures Total(Put(cells, x, y, d), Rem(g)) < Total(cells, Rem(g))
  {
    TotalPut(cells, x, y, d, Rem(g));
  }

  lemma SouthRem(g: Grid, i: nat, j: nat, c: Cell)
    requires g.Valid() && CellOk(g, i, j, c) && c.pc == SendSouth
    ensures Rem(g)(ToSendWest(g, j, c)) < Rem(g)(c)
  {
  }

  lemma RecvARem(g: Grid, i: nat, j: nat, c: Cell, tile: Matrix)
    requires g.Valid() && CellOk(g, i, j, c) && c.pc == RecvA
    ensures Rem(g)(AfterRecvA(c, tile)) < Rem(g)(c)
  {
  }

  /** Both ends of a rendezvous between two cells come closer to their end. */
  lemma TwoLess(g: Grid, cells: seq<seq<Cell>>, x: nat, y: nat, d: Cell, x': nat, y': nat, f: Cell)
    requires x < |cells| && y < |cells[x]| && x' < |cells| && y' < |cells[x']| && (x != x' || y != y')
    requires Rem(g)(d) < Rem(g)(cells[x][y]) && Rem(g)(f) < Rem(g)(cells[x'][y'])
    ensures Total(Put(Put(cells, x, y, d), x', y', f), Rem(g)) < Total(cells, Rem(g))
  {
    OneLess(g, cells, x, y, d);
    PutAt(cells, x, y, d);
    OneLess(g, Put(cells, x, y, d), x', y', f);
  }

  lemma SouthPair(g: Grid, s: State, i: nat, j: nat)
    requires g.Valid() && Inv(g, s) && Enabled(g, s, South(i, j))
    ensures i + 1 < |s.cells| && j < |s.cells[i]| && j < |s.cells[i + 1]|
    ensures CellOk(g, i, j, s.cells[i][j]) && s.cells[i][j].pc == SendSouth
    ensures CellOk(g, i + 1, j, s.cells[i + 1][j]) && s.cells[i + 1][j].pc == RecvA
  {
    Site(g, s, i, j);
    Site(g, s, i + 1, j);
  }

  lemma SouthDescends(g: Grid, s: State, i: nat, j: nat)
    requires g.Valid() && Inv(g, s) && Enabled(g, s, South(i, j))
    ensures Total(NewCells(g, s, South(i, j)), Rem(g)) < Total(s.cells, Rem(g))
  {
    SouthPair(g, s, i, j);
    var c, e := s.cells[i][j], s.cells[i + 1][j];
    SouthRem(g, i, j, c);
    RecvARem(g, i + 1, j, e, c.a);
    TwoLess(g, s.cells, i, j, ToSendWest(g, j, c), i + 1, j, AfterRecvA(e, c.a));
    SouthCells(g, s, i, j);
  }

  lemma WestRem(g: Grid, i: nat, j: nat, c: Cell)
    requires g.Valid() && CellOk(g, i, j, c) && c.pc == SendWest
    ensures Rem(g)(AfterForward(g, c)) < Rem(g)(c)
  {
  }

  lemma RecvBRem(g: Grid, i: nat, j: nat, c: Cell, tile: Matrix)
    requires g.Valid() && CellOk(g, i, j, c) && c.pc == RecvB
    ensures Rem(g)(AfterRecvB(g, i, j, c, tile)) < Rem(g)(c)
  {
  }

  lemma WestDescends(g: Grid, s: State, i: nat, j: nat)
    requires g.Valid() && Inv(g, s) && Enabled(g, s, West(i, j))
    ensures Total(NewCells(g, s, West(i, j)), Rem(g)) < Total(s.cells, Rem(g))
  {
    Site(g, s, i, j);
    Site(g, s, i, j - 1);
    var c, e := s.cells[i][j], s.cells[i][j - 1];
    WestRem(g, i, j, c);
    RecvBRem(g, i, j - 1, e, c.b);
    TwoLess(g, s.cells, i, j, AfterForward(g, c), i, j - 1, AfterRecvB(g, i, j - 1, e, c.b));
  }

  lemma FeedADescends(g: Grid, s: State, j: nat)
    requires g.Valid() && Inv(g, s) && Enabled(g, s, FeedA(j))
    ensures Total(NewCells(g, s, FeedA(j)), Rem(g)) < Total(s.cells, Rem(g))
  {
    Site(g, s, 0, j);
    RecvARem(g, 0, j, s.cells[0][j], g.a(j, s.fa[j]));
    OneLess(g, s.cells, 0, j, AfterRecvA(s.cells[0][j], g.a(j, s.fa[j])));
  }

  lemma FeedBDescends(g: Grid, s: State, i: nat)
    requires g.Valid() && Inv(g, s) && Enabled(g, s, FeedB(i))
    ensures Total(NewCells(g, s, FeedB(i)), Rem(g)) < Total(s.cells, Rem(g))
  {
    var j := g.cols - 1;
    Site(g, s, i, j);
    RecvBRem(g, i, j, s.cells[i][j], g.b(i, s.fb[i]));
    OneLess(g, s.cells, i, j, AfterRecvB(g, i, j, s.cells[i][j], g.b(i, s.fb[i])));
  }

  lemma ResultDescends(g: Grid, s: State, i: nat, j: nat)
    requires g.Valid() && Inv(g, s) && Enabled(g, s, Result(i, j))
    ensures Total(NewCells(g, s, Result(i, j)), Rem(g)) < Total(s.cells, Rem(g))
  {
    Site(g, s, i, j);
    OneLess(g, s.cells, i, j, s.cells[i][j].(pc := Stopped));
  }

  lemma CellsDescend(g: Grid, s: State, act: Action)
    requires g.Valid() && Inv(g, s) && Enabled(g, s, act) && !act.Verdict?
    ensures Total(NewCells(g, s, act), Rem(g)) < Total(s.cells, Rem(g))
  {
    match act
    case FeedA(j) => FeedADescends(g, s, j);
    case FeedB(i) => FeedBDescends(g, s, i);
    case South(i, j) => SouthDescends(g, s, i, j);
    case West(i, j) => WestDescends(g, s, i, j);
    case Result(i, j) => ResultDescends(g, s, i, j);
  }

  /** Every action uses up some of the measure. */
  lemma MeasureDescends(g: Grid, s: State, act: Action)
    requires g.Valid() && Inv(g, s) && Enabled(g, s, act)
    ensures Measure(g, Apply(g, s, act)) < Measure(g, s)
  {
    match act
    case Verdict(i, j) => TotalPut(s.checks, i, j, CheckStopped(true), CheckRem());
    case Result(i, j) =>
      CellsDescend(g, s, act);
      TotalPut(s.checks, i, j, NewCheck(g, s, s.cells[i][j].acc), CheckRem());
    case _ => CellsDescend(g, s, act);
  }

  lemma InitialMeasure(g: Grid)
    requires g.Valid()
    ensures Measure(g, Init(g)) == g.rows * (g.cols * (4 * g.rounds + 1)) + g.rows * (g.cols * 2)
  {
    TotalSame(Init(g).cells, Rem(g), g.cols, 4 * g.rounds + 1);
    TotalSame(Init(g).checks, CheckRem(), g.cols, 2);
  }

  // ---- Runs ----

  /** ss are the states a run passes through, acts the actions between them. */
  ghost predicate IsRun(g: Grid, ss: seq<State>, acts: seq<Action>) {
    && |ss| == |acts| + 1 && ss[0] == Init(g)
    && forall k :: 0 <= k < |acts| ==> IsStep(g, ss[k], acts[k], ss[k + 1])
  }

  ghost predicate IsStep(g: Grid, s: State, act: Action, s': State) {
    Shaped(g, s) && Enabled(g, s, act) && s' == Apply(g, s, act)
  }

  lemma {:induction false} RunInv(g: Grid, ss: seq<State>, acts: seq<Action>, k: nat)
    requires g.Valid() && IsRun(g, ss, acts) && k < |ss|
    ensures Inv(g, ss[k])
    ensures Measure(g, ss[k]) + k <= Measure(g, Init(g))
  {
    if k == 0 {
      InitInv(g);
    } else {
      RunInv(g, ss, acts, k - 1);
      assert IsStep(g, ss[k - 1], acts[k - 1], ss[k]);
      InvKept(g, ss[k - 1], acts[k - 1]);
      MeasureDescends(g, ss[k - 1], acts[k - 1]);
    }
  }

  /** Every run is finite, with a bound on the number of its actions. */
  lemma RunsAreBounded(g: Grid, ss: seq<State>, acts: seq<Action>)
    requires g.Valid() && IsRun(g, ss, acts)
    ensures |acts| <= g.rows * (g.cols * (4 * g.rounds + 1)) + g.rows * (g.cols * 2)
  {
    RunInv(g, ss, acts, |acts|);
    InitialMeasure(g);
  }

  /** In every state of every run PASS has been given at most once, and never before all
      the checkers have matched. */
  lemma PassIsSound(g: Grid, ss: seq<State>, acts: seq<Action>, k: nat)
    requires g.Valid() && IsRun(g, ss, acts) && k < |ss|
    ensures ss[k].passes <= 1
    ensures Shaped(g, ss[k])
    ensures ss[k].passes == 1 ==> forall i, j :: 0 <= i < g.rows && 0 <= j < g.cols ==>
              ss[k].cells[i][j].pc == Stopped && AccAfter(g, i, j, g.rounds) == g.wanted
  {
    RunInv(g, ss, acts, k);
    var s := ss[k];
    if s.passes == 1 {
      TotalZero(s.checks, Unmatched());
      forall i, j | 0 <= i < g.rows && 0 <= j < g.cols
        ensures s.cells[i][j].pc == Stopped && AccAfter(g, i, j, g.rounds) == g.wanted
      {
        Site(g, s, i, j);
        assert Unmatched()(s.checks[i][j]) == 0;
      }
    }
  }

  /** A run that cannot go on has stopped everywhere; each cell then holds the sum over all
      rounds of its column's A tile times its row's B tile, and PASS has been given exactly
      when every one of these sums is the expected tile. */
  lemma CompleteRun(g: Grid, ss: seq<State>, acts: seq<Action>)
    requires g.Valid() && IsRun(g, ss, acts)
    requires Shaped(g, ss[|acts|]) && forall act :: !Enabled(g, ss[|acts|], act)
    ensures var s := ss[|acts|];
            && Final(g, s)
            && (forall i, j :: 0 <= i < g.rows && 0 <= j < g.cols ==> s.cells[i][j].acc == AccAfter(g, i, j, g.rounds))
            && (s.passes == 1 <==> AllExpected(g))
            && (s.passes == 0 <==> !AllExpected(g))
  {
    var s := ss[|acts|];
    RunInv(g, ss, acts, |acts|);
    StuckIsFinal(g, s);
    TotalZero(s.checks, Pending());
    TotalZero(s.checks, Unmatched());
    forall i, j | 0 <= i < g.rows && 0 <= j < g.cols
      ensures s.cells[i][j].acc == AccAfter(g, i, j, g.rounds)
      ensures Unmatched()(s.checks[i][j]) == 0 <==> AccAfter(g, i, j, g.rounds) == g.wanted
      ensures Pending()(s.checks[i][j]) == 0
    {
      Site(g, s, i, j);
    }
  }

  ghost predicate AllExpected(g: Grid)
    requires g.Valid()
  {
    forall i, j :: 0 <= i < g.rows && 0 <= j < g.cols ==> AccAfter(g, i, j, g.rounds) == g.wanted
  }

  lemma StuckIsFinal(g: Grid, s: State)
    requires g.Valid() && Inv(g, s) && forall act :: !Enabled(g, s, act)
    ensures Final(g, s)
  {
    if !Final(g, s) {
      NoDeadlock(g, s);
    }
  }

  /** The rounds enter the sum each with its own tiles: when every A tile but that of round r is
      zero, the result is the product of round r. */
  lemma {:induction false} OneRoundCounts(g: Grid, i: nat, j: nat, k: nat, r: nat)
    requires g.Valid() && forall q :: q != r ==> g.a(j, q) == ZeroTile(g.n)
    ensures AccAfter(g, i, j, k)
         == if r < k then MulAcc(ZeroTile(g.n), g.a(j, r), g.b(i, r), g.n) else ZeroTile(g.n)
  {
    if k > 0 {
      OneRoundCounts(g, i, j, k - 1, r);
      if r != k - 1 {
        assert g.a(j, k - 1) == ZeroTile(g.n);
        ZeroTimes(AccAfter(g, i, j, k - 1), g.a(j, k - 1), g.b(i, k - 1), g.n);
      }
    }
  }

  // ---- The constants of the kernel ----

  ghost function Constant(n: nat, v: real): (m: Matrix)
    ensures |m| == n * n
  {
    seq(n * n, _ => v)
  }

  lemma ConstantAt(n: nat, v: real, i: nat, j: nat)
    requires i < n && j < n
    ensures At(Constant(n, v), n, i, j) == v
  {
    PointInRange(i, j, n, n);
  }

  /** k times p, as repeated addition. */
  ghost function Times(k: nat, p: real): real {
    if k == 0 then 0.0 else Times(k - 1, p) + p
  }

  lemma {:induction false} TimesIsProduct(k: nat, p: real)
    ensures Times(k, p) == k as real * p
  {
    if k > 0 {
      TimesIsProduct(k - 1, p);
      assert k as real * p == (k - 1) as real * p + p by { assert k as real == (k - 1) as real + 1.0; }
    }
  }

  lemma {:induction false} ConstantRowCol(n: nat, u: real, v: real, p: real, i: nat, j: nat, k: nat)
    requires i < n && j < n && k <= n && p == Prod(u, v)
    ensures RowCol(Constant(n, u), Constant(n, v), n, i, j, k) == Times(k, p)
  {
    if k > 0 {
      ConstantRowCol(n, u, v, p, i, j, k - 1);
      ConstantAt(n, u, i, k - 1);
      ConstantAt(n, v, k - 1, j);
    }
  }

  /** The feeds of the kernel: every A tile all u, every B tile all v. */
  ghost predicate ConstantFeeds(g: Grid, u: real, v: real) {
    && (forall c, r :: g.a(c, r) == Constant(g.n, u))
    && (forall c, r :: g.b(c, r) == Constant(g.n, v))
  }

  lemma ConstantMulAcc(n: nat, w: real, u: real, v: real, p: real)
    requires p == Prod(u, v)
    ensures MulAcc(Constant(n, w), Constant(n, u), Constant(n, v), n) == Constant(n, w + Times(n, p))
  {
    var r := MulAcc(Constant(n, w), Constant(n, u), Constant(n, v), n);
    forall q | 0 <= q < n * n ensures r[q] == w + Times(n, p) {
      PointSplit(q, n, n);
      ConstantRowCol(n, u, v, p, q / n, q % n, n);
    }
  }

  lemma {:induction false} ConstantAcc(g: Grid, u: real, v: real, p: real, i: nat, j: nat, k: nat)
    requires g.Valid() && ConstantFeeds(g, u, v) && p == Prod(u, v)
    ensures AccAfter(g, i, j, k) == Constant(g.n, Times(k, Times(g.n, p)))
  {
    if k == 0 {
      assert ZeroTile(g.n) == Constant(g.n, 0.0);
    } else {
      ConstantAcc(g, u, v, p, i, j, k - 1);
      ConstantMulAcc(g.n, Times(k - 1, Times(g.n, p)), u, v, p);
    }
  }

  lemma ConstantsAllExpected(g: Grid, u: real, v: real, p: real)
    requires g.Valid() && ConstantFeeds(g, u, v) && p == Prod(u, v)
    requires g.wanted == Constant(g.n, Times(g.rounds, Times(g.n, p)))
    ensures AllExpected(g)
  {
    forall i, j | 0 <= i < g.rows && 0 <= j < g.cols ensures AccAfter(g, i, j, g.rounds) == g.wanted {
      ConstantAcc(g, u, v, p, i, j, g.rounds);
    }
  }

  /** With the kernel's constant feeds and expected value rounds * n * u * v, every complete
      run passes, once. */
  lemma ConstantFeedsPass(g: Grid, u: real, v: real, ss: seq<State>, acts: seq<Action>)
    requires g.Valid() && IsRun(g, ss, acts) && ConstantFeeds(g, u, v)
    requires g.wanted == Constant(g.n, g.rounds as real * g.n as real * u * v)
    requires Shaped(g, ss[|acts|]) && forall act :: !Enabled(g, ss[|acts|], act)
    ensures ss[|acts|].passes == 1 && !ss[|acts|].failed
    ensures forall i, j :: 0 <= i < g.rows && 0 <= j < g.cols ==>
              ss[|acts|].cells[i][j].acc == Constant(g.n, g.rounds as real * g.n as real * u * v)
  {
    ConstantSum(g.rounds, g.n, u, v);
    ConstantsAllExpected(g, u, v, Prod(u, v));
    CompleteRun(g, ss, acts);
    RunInv(g, ss, acts, |acts|);
    DoneMeansClean(g, ss[|acts|]);
    forall i, j | 0 <= i < g.rows && 0 <= j < g.cols ensures ss[|acts|].cells[i][j].acc == g.wanted {
      ConstantAcc(g, u, v, Prod(u, v), i, j, g.rounds);
    }
  }

  lemma ConstantSum(rounds: nat, n: nat, u: real, v: real)
    ensures Times(rounds, Times(n, Prod(u, v))) == rounds as real * n as real * u * v
  {
    TimesIsProduct(n, Prod(u, v));
    TimesIsProduct(rounds, Times(n, Prod(u, v)));
    Regroup(rounds as real, n as real, u, v);
  }

  lemma Regroup(a: real, b: real, c: real, d: real)
    ensures a * (b * (c * d)) == a * b * c * d
  {
    assert b * (c * d) == b * c * d;
    assert a * (b * c * d) == a * (b * c) * d;
    assert a * (b * c) == a * b * c;
  }

  /** Once the count is complete no checker has seen a mismatch. */
  lemma DoneMeansClean(g: Grid, s: State)
    requires g.Valid() && Inv(g, s) && s.done == g.rows * g.cols
    ensures !s.failed
  {
    TotalZero(s.checks, Unmatched());
    forall p, q | 0 <= p < g.rows && 0 <= q < g.cols
      ensures s.checks[p][q] != CheckStopped(false)
    {
      assert Unmatched()(s.checks[p][q]) == 0;
    }
  }
}

// The systolic grid of the tensor kernel: feeders, cells and checkers joined by rendezvous
// channels. A's tiles enter at the north of each column and travel south, B's enter at the
// east of each row and travel west; every cell multiplies what passes through it.
module Systolic {
  import opened Buffers
  import opened Matmul

  /** The program: grid size, number of rounds, tile side, the tiles each feeder sends and
      the tile every checker expects. */
  datatype Grid = Grid(rows: nat, cols: nat, rounds: nat, n: nat,
                       a: (nat, nat) -> Matrix, b: (nat, nat) -> Matrix, wanted: Matrix)
  {
    ghost predicate Valid() {
      && rows > 0 && cols > 0 && rounds > 0
      && (forall j, k :: |a(j, k)| == n * n)
      && (forall i, k :: |b(i, k)| == n * n)
    }
  }

  // ---- Processes ----

  /** The channel operation a cell is blocked on, named after the continuation that issued it. */
  datatype Pc = RecvA | RecvB | SendSouth | SendWest | SendResult | Stopped

  datatype Cell = Cell(pc: Pc, round: nat, a: Matrix, b: Matrix, acc: Matrix)

  datatype Check = WaitTile | ReadFailed | CheckStopped(matched: bool)

  ghost function ZeroTile(n: nat): (m: Matrix)
    ensures |m| == n * n
  {
    seq(n * n, _ => 0.0)
  }

  ghost function CellInit(g: Grid): Cell {
    Cell(RecvA, 0, [], [], ZeroTile(g.n))
  }

  ghost function AfterRecvA(c: Cell, tile: Matrix): Cell {
    c.(pc := RecvB, a := tile)
  }

  /** cell_compute and the forwarding chain that follows. A tile of the wrong size stops
      the cell, which the code reports as a failure. */
  ghost function AfterRecvB(g: Grid, i: nat, j: nat, c: Cell, tile: Matrix): Cell {
    if |c.a| != g.n * g.n || |tile| != g.n * g.n || |c.acc| != g.n * g.n then c.(pc := Stopped, b := tile)
    else ToSendSouth(g, i, j, c.(b := tile, acc := MulAcc(c.acc, c.a, tile, g.n)))
  }

  ghost function ToSendSouth(g: Grid, i: nat, j: nat, c: Cell): Cell {
    if i + 1 < g.rows then c.(pc := SendSouth) else ToSendWest(g, j, c)
  }

  ghost function ToSendWest(g: Grid, j: nat, c: Cell): Cell {
    if j > 0 then c.(pc := SendWest) else AfterForward(g, c)
  }

  ghost function AfterForward(g: Grid, c: Cell): Cell {
    c.(round := c.round + 1, pc := if c.round + 1 < g.rounds then RecvA else SendResult)
  }

  // ---- The network ----

  datatype State = State(fa: seq<nat>, fb: seq<nat>, cells: seq<seq<Cell>>, checks: seq<seq<Check>>,
                         done: nat, failed: bool, passes: nat)

  /** One rendezvous, or one checker's last look at tm_failed. */
  datatype Action =
    | FeedA(j: nat) | FeedB(i: nat)
    | South(i: nat, j: nat) | West(i: nat, j: nat)
    | Result(i: nat, j: nat) | Verdict(i: nat, j: nat)

  function Put<T>(m: seq<seq<T>>, i: nat, j: nat, x: T): (r: seq<seq<T>>)
    requires i < |m| && j < |m[i]|
    ensures |r| == |m| && forall k :: 0 <= k < |m| ==> |r[k]| == |m[k]|
  {
    m[i := m[i][j := x]]
  }

  ghost predicate Shaped(g: Grid, s: State) {
    && |s.fa| == g.cols && |s.fb| == g.rows && |s.cells| == |s.checks| == g.rows
    && (forall i :: 0 <= i < g.rows ==> |s.cells[i]| == g.cols)
    && (forall i :: 0 <= i < g.rows ==> |s.checks[i]| == g.cols)
  }

  ghost function Init(g: Grid): (s: State)
    ensures Shaped(g, s)
  {
    State(seq(g.cols, _ => 0), seq(g.rows, _ => 0),
          seq(g.rows, _ => seq(g.cols, _ => CellInit(g))), seq(g.rows, _ => seq(g.cols, _ => WaitTile)),
          0, false, 0)
  }

  /** Both ends of the channel are blocked on it. */
  ghost predicate Enabled(g: Grid, s: State, act: Action)
    requires Shaped(g, s)
  {
    match act
    case FeedA(j) => j < g.cols && g.rows > 0 && s.fa[j] < g.rounds && s.cells[0][j].pc == RecvA
    case FeedB(i) => i < g.rows && g.cols > 0 && s.fb[i] < g.rounds && s.cells[i][g.cols - 1].pc == RecvB
    case South(i, j) => i + 1 < g.rows && j < g.cols && s.cells[i][j].pc == SendSouth && s.cells[i + 1][j].pc == RecvA
    case West(i, j) => i < g.rows && 0 < j < g.cols && s.cells[i][j].pc == SendWest && s.cells[i][j - 1].pc == RecvB
    case Result(i, j) => i < g.rows && j < g.cols && s.cells[i][j].pc == SendResult && s.checks[i][j] == WaitTile
    case Verdict(i, j) => i < g.rows && j < g.cols && s.checks[i][j] == ReadFailed
  }

  /** The cells after an action: sender and receiver both run on. */
  ghost function NewCells(g: Grid, s: State, act: Action): (r: seq<seq<Cell>>)
    requires Shaped(g, s) && Enabled(g, s, act)
    ensures |r| == g.rows && forall i :: 0 <= i < g.rows ==> |r[i]| == g.cols
  {
    match act
    case FeedA(j) => Put(s.cells, 0, j, AfterRecvA(s.cells[0][j], g.a(j, s.fa[j])))
    case FeedB(i) => Put(s.cells, i, g.cols - 1, AfterRecvB(g, i, g.cols - 1, s.cells[i][g.cols - 1], g.b(i, s.fb[i])))
    case South(i, j) =>
      var c := s.cells[i][j];
      Put(Put(s.cells, i, j, ToSendWest(g, j, c)), i + 1, j, AfterRecvA(s.cells[i + 1][j], c.a))
    case West(i, j) =>
      var c := s.cells[i][j];
      Put(Put(s.cells, i, j, AfterForward(g, c)), i, j - 1, AfterRecvB(g, i, j - 1, s.cells[i][j - 1], c.b))
    case Result(i, j) => Put(s.cells, i, j, s.cells[i][j].(pc := Stopped))
    case Verdict(i, j) => s.cells
  }

  /** The checker at (i, j) receives a tile: a mismatch is a failure, a match is counted, and
      the match that completes the count goes on to read tm_failed. */
  ghost function NewCheck(g: Grid, s: State, tile: Matrix): Check {
    if tile != g.wanted then CheckStopped(false)
    else if s.done + 1 == g.rows * g.cols then ReadFailed else CheckStopped(true)
  }

  ghost function Apply(g: Grid, s: State, act: Action): (r: State)
    requires Shaped(g, s) && Enabled(g, s, act)
    ensures Shaped(g, r)
  {
    var cells := NewCells(g, s, act);
    match act
    case FeedA(j) => s.(cells := cells, fa := s.fa[j := s.fa[j] + 1])
    case FeedB(i) =>
      s.(cells := cells, fb := s.fb[i := s.fb[i] + 1], failed := s.failed || cells[i][g.cols - 1].pc == Stopped)
    case South(i, j) => s.(cells := cells)
    case West(i, j) => s.(cells := cells, failed := s.failed || cells[i][j - 1].pc == Stopped)
    case Result(i, j) =>
      var k := NewCheck(g, s, s.cells[i][j].acc);
      s.(cells := cells, checks := Put(s.checks, i, j, k),
         failed := s.failed || k == CheckStopped(false),
         done := if k == CheckStopped(false) then s.done else s.done + 1)
    case Verdict(i, j) =>
      s.(checks := Put(s.checks, i, j, CheckStopped(true)), passes := s.passes + if s.failed then 0 else 1)
  }

  /** Every process has stopped. */
  ghost predicate Final(g: Grid, s: State)
    requires Shaped(g, s)
  {
    && (forall j :: 0 <= j < g.cols ==> s.fa[j] == g.rounds)
    && (forall i :: 0 <= i < g.rows ==> s.fb[i] == g.rounds)
    && (forall i, j :: 0 <= i < g.rows && 0 <= j < g.cols ==> s.cells[i][j].pc == Stopped)
    && (forall i, j :: 0 <= i < g.rows && 0 <= j < g.cols ==> s.checks[i][j].CheckStopped?)
  }

  // ---- The invariant ----

  /** The accumulator of cell (i, j) after k rounds. */
  ghost function AccAfter(g: Grid, i: nat, j: nat, k: nat): (m: Matrix)
    requires g.Valid()
    ensures |m| == g.n * g.n
  {
    if k == 0 then ZeroTile(g.n) else MulAcc(AccAfter(g, i, j, k - 1), g.a(j, k - 1), g.b(i, k - 1), g.n)
  }

  function HasA(c: Cell): bool { c.pc == RecvB || c.pc == SendSouth || c.pc == SendWest }

  function HasB(c: Cell): bool { c.pc == SendSouth || c.pc == SendWest }

  /** How many tiles a cell has received and sent on each of its four links. */
  function ReceivedA(c: Cell): nat { c.round + if HasA(c) then 1 else 0 }

  function ReceivedB(c: Cell): nat { c.round + if HasB(c) then 1 else 0 }

  function SentSouth(c: Cell): nat { c.round + if c.pc == SendWest then 1 else 0 }

  function SentWest(c: Cell): nat { c.round }

  /** A cell holds the tiles of its current round and the sum of the rounds computed. */
  ghost predicate CellOk(g: Grid, i: nat, j: nat, c: Cell)
    requires g.Valid()
  {
    && (if c.pc == SendResult || c.pc == Stopped then c.round == g.rounds else c.round < g.rounds)
    && (c.pc == SendSouth ==> i + 1 < g.rows)
    && (c.pc == SendWest ==> j > 0)
    && (HasA(c) ==> c.a == g.a(j, c.round))
    && (HasB(c) ==> c.b == g.b(i, c.round))
    && c.acc == AccAfter(g, i, j, ReceivedB(c))
  }

  /** What the two incoming links of a cell have delivered is what was sent on them. */
  ghost predicate LinksOk(g: Grid, s: State, i: nat, j: nat)
    requires Shaped(g, s) && i < g.rows && j < g.cols
  {
    && ReceivedA(s.cells[i][j]) == (if i == 0 then s.fa[j] else SentSouth(s.cells[i - 1][j]))
    && ReceivedB(s.cells[i][j]) == (if j == g.cols - 1 then s.fb[i] else SentWest(s.cells[i][j + 1]))
  }

  ghost predicate CheckOk(g: Grid, i: nat, j: nat, c: Cell, k: Check)
    requires g.Valid()
  {
    && (k == WaitTile <==> c.pc != Stopped)
    && (k == ReadFailed ==> c.acc == g.wanted)
    && (k.CheckStopped? ==> (k.matched <==> c.acc == g.wanted))
  }

  ghost predicate CellsOk(g: Grid, cells: seq<seq<Cell>>)
    requires g.Valid()
  {
    && |cells| == g.rows
    && (forall i :: 0 <= i < g.rows ==> |cells[i]| == g.cols)
    && (forall i, j :: 0 <= i < g.rows && 0 <= j < g.cols ==> CellOk(g, i, j, cells[i][j]))
  }

  ghost predicate AllLinksOk(g: Grid, s: State)
    requires Shaped(g, s)
  {
    forall i, j :: 0 <= i < g.rows && 0 <= j < g.cols ==> LinksOk(g, s, i, j)
  }

  ghost predicate ChecksOk(g: Grid, s: State)
    requires g.Valid() && Shaped(g, s)
  {
    forall i, j :: 0 <= i < g.rows && 0 <= j < g.cols ==> CheckOk(g, i, j, s.cells[i][j], s.checks[i][j])
  }

  ghost predicate SitesOk(g: Grid, s: State)
    requires g.Valid() && Shaped(g, s)
  {
    CellsOk(g, s.cells) && AllLinksOk(g, s) && ChecksOk(g, s)
  }

  // ---- What each continuation does to a cell ----

  lemma RecvAStep(g: Grid, i: nat, j: nat, c: Cell)
    requires g.Valid() && CellOk(g, i, j, c) && c.pc == RecvA
    ensures var d := AfterRecvA(c, g.a(j, c.round));
            CellOk(g, i, j, d) && d.pc != Stopped
            && ReceivedA(d) == ReceivedA(c) + 1 && ReceivedB(d) == ReceivedB(c)
            && SentSouth(d) == SentSouth(c) && SentWest(d) == SentWest(c)
  {
  }

  lemma RecvBStep(g: Grid, i: nat, j: nat, c: Cell)
    requires g.Valid() && i < g.rows && CellOk(g, i, j, c) && c.pc == RecvB
    ensures var d := AfterRecvB(g, i, j, c, g.b(i, c.round));
            CellOk(g, i, j, d) && d.pc != Stopped
            && ReceivedA(d) == ReceivedA(c) && ReceivedB(d) == ReceivedB(c) + 1
            && (i + 1 < g.rows ==> SentSouth(d) == SentSouth(c)) && (j > 0 ==> SentWest(d) == SentWest(c))
  {
    assert |c.a| == g.n * g.n && |g.b(i, c.round)| == g.n * g.n;
  }

  lemma SouthStep(g: Grid, i: nat, j: nat, c: Cell)
    requires g.Valid() && CellOk(g, i, j, c) && c.pc == SendSouth
    ensures c.a == g.a(j, c.round)
    ensures var d := ToSendWest(g, j, c);
            CellOk(g, i, j, d) && d.pc != Stopped
            && ReceivedA(d) == ReceivedA(c) && ReceivedB(d) == ReceivedB(c)
            && SentSouth(d) == SentSouth(c) + 1 && (j > 0 ==> SentWest(d) == SentWest(c))
  {
  }

  lemma WestStep(g: Grid, i: nat, j: nat, c: Cell)
    requires g.Valid() && CellOk(g, i, j, c) && c.pc == SendWest
    ensures c.b == g.b(i, c.round)
    ensures var d := AfterForward(g, c);
            CellOk(g, i, j, d) && d.pc != Stopped
            && ReceivedA(d) == ReceivedA(c) && ReceivedB(d) == ReceivedB(c)
            && SentSouth(d) == SentSouth(c) && SentWest(d) == SentWest(c) + 1
  {
  }

  // ---- Every action keeps the sites consistent ----

  lemma PutAt<T>(m: seq<seq<T>>, i: nat, j: nat, x: T)
    requires i < |m| && j < |m[i]|
    ensures forall p, q :: 0 <= p < |m| && 0 <= q < |m[p]| ==>
              Put(m, i, j, x)[p][q] == if p == i && q == j then x else m[p][q]
  {
  }

  lemma CellsPut(g: Grid, cells: seq<seq<Cell>>, i: nat, j: nat, d: Cell)
    requires g.Valid() && CellsOk(g, cells) && i < g.rows && j < g.cols && CellOk(g, i, j, d)
    ensures CellsOk(g, Put(cells, i, j, d))
  {
    PutAt(cells, i, j, d);
  }

  /** Whether an action delivers a tile to cell (i, j), by link, or takes one from it. */
  predicate GetsA(act: Action, i: nat, j: nat) {
    (act.FeedA? && i == 0 && j == act.j) || (act.South? && i == act.i + 1 && j == act.j)
  }

  predicate GetsB(g: Grid, act: Action, i: nat, j: nat) {
    (act.FeedB? && i == act.i && j + 1 == g.cols) || (act.West? && i == act.i && j + 1 == act.j)
  }

  predicate GivesA(act: Action, i: nat, j: nat) { act.South? && i == act.i && j == act.j }

  predicate GivesB(act: Action, i: nat, j: nat) { act.West? && i == act.i && j == act.j }

  function One(b: bool): nat { if b then 1 else 0 }

  /** The counters of cell (i, j) advance by exactly what the action moved. Outgoing links
      that do not exist are not constrained. */
  ghost predicate Moved(g: Grid, act: Action, i: nat, j: nat, c: Cell, d: Cell) {
    && ReceivedA(d) == ReceivedA(c) + One(GetsA(act, i, j))
    && ReceivedB(d) == ReceivedB(c) + One(GetsB(g, act, i, j))
    && (i + 1 < g.rows ==> SentSouth(d) == SentSouth(c) + One(GivesA(act, i, j)))
    && (j > 0 ==> SentWest(d) == SentWest(c) + One(GivesB(act, i, j)))
  }

  ghost predicate AllMoved(g: Grid, s: State, act: Action, cells: seq<seq<Cell>>)
    requires Shaped(g, s)
  {
    && |cells| == g.rows
    && (forall i :: 0 <= i < g.rows ==> |cells[i]| == g.cols)
    && (forall i, j :: 0 <= i < g.rows && 0 <= j < g.cols ==> Moved(g, act, i, j, s.cells[i][j], cells[i][j]))
  }

  /** A cell that no action touches. */
  lemma Unmoved(g: Grid, act: Action, i: nat, j: nat, c: Cell)
    requires !GetsA(act, i, j) && !GetsB(g, act, i, j) && !GivesA(act, i, j) && !GivesB(act, i, j)
    ensures Moved(g, act, i, j, c, c)
  {
  }

  lemma OneMoves(g: Grid, s: State, act: Action, x: nat, y: nat, d: Cell)
    requires g.Valid() && Shaped(g, s) && CellsOk(g, s.cells) && x < g.rows && y < g.cols
    requires CellOk(g, x, y, d) && Moved(g, act, x, y, s.cells[x][y], d)
    requires forall i, j :: 0 <= i < g.rows && 0 <= j < g.cols && (i, j) != (x, y) ==>
               !GetsA(act, i, j) && !GetsB(g, act, i, j) && !GivesA(act, i, j) && !GivesB(act, i, j)
    ensures CellsOk(g, Put(s.cells, x, y, d)) && AllMoved(g, s, act, Put(s.cells, x, y, d))
  {
    CellsPut(g, s.cells, x, y, d);
    PutAt(s.cells, x, y, d);
    var cells := Put(s.cells, x, y, d);
    forall i, j | 0 <= i < g.rows && 0 <= j < g.cols ensures Moved(g, act, i, j, s.cells[i][j], cells[i][j]) {
      if (i, j) != (x, y) { Unmoved(g, act, i, j, s.cells[i][j]); }
    }
  }

  lemma TwoMove(g: Grid, s: State, act: Action, x: nat, y: nat, d: Cell, u: nat, v: nat, e: Cell)
    requires g.Valid() && Shaped(g, s) && CellsOk(g, s.cells) && x < g.rows && y < g.cols && u < g.rows && v < g.cols
    requires (x, y) != (u, v)
    requires CellOk(g, x, y, d) && Moved(g, act, x, y, s.cells[x][y], d)
    requires CellOk(g, u, v, e) && Moved(g, act, u, v, s.cells[u][v], e)
    requires forall i, j :: 0 <= i < g.rows && 0 <= j < g.cols && (i, j) != (x, y) && (i, j) != (u, v) ==>
               !GetsA(act, i, j) && !GetsB(g, act, i, j) && !GivesA(act, i, j) && !GivesB(act, i, j)
    ensures var cells := Put(Put(s.cells, x, y, d), u, v, e); CellsOk(g, cells) && AllMoved(g, s, act, cells)
  {
    var mid := Put(s.cells, x, y, d);
    CellsPut(g, s.cells, x, y, d);
    PutAt(s.cells, x, y, d);
    CellsPut(g, mid, u, v, e);
    PutAt(mid, u, v, e);
    var cells := Put(mid, u, v, e);
    forall i, j | 0 <= i < g.rows && 0 <= j < g.cols ensures Moved(g, act, i, j, s.cells[i][j], cells[i][j]) {
      if (i, j) != (x, y) && (i, j) != (u, v) { Unmoved(g, act, i, j, s.cells[i][j]); }
    }
  }

  lemma FeedAMoves(g: Grid, s: State, j: nat)
    requires g.Valid() && Shaped(g, s) && CellsOk(g, s.cells) && AllLinksOk(g, s) && Enabled(g, s, FeedA(j))
    ensures CellsOk(g, NewCells(g, s, FeedA(j))) && AllMoved(g, s, FeedA(j), NewCells(g, s, FeedA(j)))
  {
    assert CellOk(g, 0, j, s.cells[0][j]) && LinksOk(g, s, 0, j);
    RecvAStep(g, 0, j, s.cells[0][j]);
    OneMoves(g, s, FeedA(j), 0, j, AfterRecvA(s.cells[0][j], g.a(j, s.fa[j])));
  }

  lemma FeedBMoves(g: Grid, s: State, i: nat)
    requires g.Valid() && Shaped(g, s) && CellsOk(g, s.cells) && AllLinksOk(g, s) && Enabled(g, s, FeedB(i))
    ensures CellsOk(g, NewCells(g, s, FeedB(i))) && AllMoved(g, s, FeedB(i), NewCells(g, s, FeedB(i)))
    ensures NewCells(g, s, FeedB(i))[i][g.cols - 1].pc != Stopped
  {
    var j := g.cols - 1;
    assert CellOk(g, i, j, s.cells[i][j]) && LinksOk(g, s, i, j);
    var d := AfterRecvB(g, i, j, s.cells[i][j], g.b(i, s.fb[i]));
    RecvBStep(g, i, j, s.cells[i][j]);
    assert Moved(g, FeedB(i), i, j, s.cells[i][j], d);
    OneMoves(g, s, FeedB(i), i, j, d);
    PutAt(s.cells, i, j, d);
  }

  /** The two ends of a rendezvous on a southward link. */
  lemma SouthEnds(g: Grid, s: State, i: nat, j: nat)
    requires g.Valid() && Shaped(g, s) && CellsOk(g, s.cells) && AllLinksOk(g, s) && Enabled(g, s, South(i, j))
    ensures var c, e := s.cells[i][j], s.cells[i + 1][j];
            var d, f := ToSendWest(g, j, c), AfterRecvA(e, c.a);
            CellOk(g, i, j, d) && CellOk(g, i + 1, j, f) && Moved(g, South(i, j), i, j, c, d)
                && Moved(g, South(i, j), i + 1, j, e, f)
  {
    var c, e := s.cells[i][j], s.cells[i + 1][j];
    assert CellOk(g, i, j, c) && CellOk(g, i + 1, j, e) && LinksOk(g, s, i + 1, j);
    SouthStep(g, i, j, c);
    RecvAStep(g, i + 1, j, e);
    assert e.round == c.round;
  }

  lemma SouthCells(g: Grid, s: State, i: nat, j: nat)
    requires Shaped(g, s) && Enabled(g, s, South(i, j))
    ensures var c, e := s.cells[i][j], s.cells[i + 1][j];
            NewCells(g, s, South(i, j)) == Put(Put(s.cells, i, j, ToSendWest(g, j, c)), i + 1, j, AfterRecvA(e, c.a))
  {
  }

  lemma SouthMoves(g: Grid, s: State, i: nat, j: nat)
    requires g.Valid() && Shaped(g, s) && CellsOk(g, s.cells) && AllLinksOk(g, s) && Enabled(g, s, South(i, j))
    ensures CellsOk(g, NewCells(g, s, South(i, j))) && AllMoved(g, s, South(i, j), NewCells(g, s, South(i, j)))
  {
    SouthEnds(g, s, i, j);
    var c, e := s.cells[i][j], s.cells[i + 1][j];
    var d, f := ToSendWest(g, j, c), AfterRecvA(e, c.a);
    TwoMove(g, s, South(i, j), i, j, d, i + 1, j, f);
    SouthCells(g, s, i, j);
  }

  /** The two ends of a rendezvous on a westward link. */
  lemma WestEnds(g: Grid, s: State, i: nat, j: nat)
    requires g.Valid() && Shaped(g, s) && CellsOk(g, s.cells) && AllLinksOk(g, s) && Enabled(g, s, West(i, j))
    ensures var c, e := s.cells[i][j], s.cells[i][j - 1];
            var d, f := AfterForward(g, c), AfterRecvB(g, i, j - 1, e, c.b);
            && CellOk(g, i, j, d) && CellOk(g, i, j - 1, f) && f.pc != Stopped
            && Moved(g, West(i, j), i, j, c, d) && Moved(g, West(i, j), i, j - 1, e, f)
  {
    var c, e := s.cells[i][j], s.cells[i][j - 1];
    assert CellOk(g, i, j, c) && CellOk(g, i, j - 1, e) && LinksOk(g, s, i, j - 1);
    WestStep(g, i, j, c);
    RecvBStep(g, i, j - 1, e);
    assert e.round == c.round;
  }

  lemma WestMoves(g: Grid, s: State, i: nat, j: nat)
    requires g.Valid() && Shaped(g, s) && CellsOk(g, s.cells) && AllLinksOk(g, s) && Enabled(g, s, West(i, j))
    ensures CellsOk(g, NewCells(g, s, West(i, j))) && AllMoved(g, s, West(i, j), NewCells(g, s, West(i, j)))
    ensures NewCells(g, s, West(i, j))[i][j - 1].pc != Stopped
  {
    WestEnds(g, s, i, j);
    var c, e := s.cells[i][j], s.cells[i][j - 1];
    TwoMove(g, s, West(i, j), i, j, AfterForward(g, c), i, j - 1, AfterRecvB(g, i, j - 1, e, c.b));
  }

  lemma ResultMoves(g: Grid, s: State, i: nat, j: nat)
    requires g.Valid() && Shaped(g, s) && CellsOk(g, s.cells) && Enabled(g, s, Result(i, j))
    ensures CellsOk(g, NewCells(g, s, Result(i, j))) && AllMoved(g, s, Result(i, j), NewCells(g, s, Result(i, j)))
  {
    assert CellOk(g, i, j, s.cells[i][j]);
    OneMoves(g, s, Result(i, j), i, j, s.cells[i][j].(pc := Stopped));
  }

  lemma VerdictMoves(g: Grid, s: State, i: nat, j: nat)
    requires g.Valid() && Shaped(g, s) && CellsOk(g, s.cells) && Enabled(g, s, Verdict(i, j))
    ensures CellsOk(g, NewCells(g, s, Verdict(i, j))) && AllMoved(g, s, Verdict(i, j), NewCells(g, s, Verdict(i, j)))
  {
  }

  lemma CellsMove(g: Grid, s: State, act: Action)
    requires g.Valid() && Shaped(g, s) && CellsOk(g, s.cells) && AllLinksOk(g, s) && Enabled(g, s, act)
    ensures CellsOk(g, NewCells(g, s, act)) && AllMoved(g, s, act, NewCells(g, s, act))
  {
    match act
    case FeedA(j) => FeedAMoves(g, s, j);
    case FeedB(i) => FeedBMoves(g, s, i);
    case South(i, j) => SouthMoves(g, s, i, j);
    case West(i, j) => WestMoves(g, s, i, j);
    case Result(i, j) => ResultMoves(g, s, i, j);
    case Verdict(i, j) => VerdictMoves(g, s, i, j);
  }

  /** Only a checker's mismatch ever fails the program. */
  lemma OnlyChecksFail(g: Grid, s: State, act: Action)
    requires g.Valid() && Shaped(g, s) && CellsOk(g, s.cells) && AllLinksOk(g, s) && Enabled(g, s, act)
    ensures Apply(g, s, act).failed ==> s.failed || act.Result?
  {
    match act
    case FeedB(i) => FeedBMoves(g, s, i);
    case West(i, j) => WestMoves(g, s, i, j);
    case _ =>
  }

  /** Both ends of every link have counted the same rendezvous. */
  lemma LinksKept(g: Grid, s: State, act: Action, r: State)
    requires g.Valid() && Shaped(g, s) && AllLinksOk(g, s) && Shaped(g, r) && AllMoved(g, s, act, r.cells)
    requires (act.South? ==> act.i + 1 < g.rows) && (act.West? ==> act.j < g.cols)
    requires r.fa == if act.FeedA? && act.j < g.cols then s.fa[act.j := s.fa[act.j] + 1] else s.fa
    requires r.fb == if act.FeedB? && act.i < g.rows then s.fb[act.i := s.fb[act.i] + 1] else s.fb
    ensures AllLinksOk(g, r)
  {
    forall i, j | 0 <= i < g.rows && 0 <= j < g.cols ensures LinksOk(g, r, i, j) {
      assert LinksOk(g, s, i, j);
      assert Moved(g, act, i, j, s.cells[i][j], r.cells[i][j]);
      if i > 0 { assert Moved(g, act, i - 1, j, s.cells[i - 1][j], r.cells[i - 1][j]); }
      if j + 1 < g.cols { assert Moved(g, act, i, j + 1, s.cells[i][j + 1], r.cells[i][j + 1]); }
    }
  }

  lemma ChecksKept(g: Grid, s: State, act: Action)
    requires g.Valid() && Shaped(g, s) && SitesOk(g, s) && Enabled(g, s, act)
    requires CellsOk(g, NewCells(g, s, act))
    requires forall i, j :: 0 <= i < g.rows && 0 <= j < g.cols ==> SameStop(s, act, NewCells(g, s, act), i, j)
    ensures ChecksOk(g, Apply(g, s, act))
  {
    var r := Apply(g, s, act);
    forall i, j | 0 <= i < g.rows && 0 <= j < g.cols ensures CheckOk(g, i, j, r.cells[i][j], r.checks[i][j]) {
      assert CheckOk(g, i, j, s.cells[i][j], s.checks[i][j]);
      assert SameStop(s, act, NewCells(g, s, act), i, j);
    }
  }

  /** An action stops a cell only by delivering its result, and then its accumulator stays. */
  ghost predicate SameStop(s: State, act: Action, cells: seq<seq<Cell>>, i: nat, j: nat)
    requires i < |s.cells| && j < |s.cells[i]| && i < |cells| && j < |cells[i]|
  {
    && (cells[i][j].pc == Stopped <==> s.cells[i][j].pc == Stopped || act == Result(i, j))
    && (cells[i][j].pc == Stopped ==> cells[i][j].acc == s.cells[i][j].acc)
  }

  lemma SouthStops(g: Grid, s: State, x: nat, y: nat, i: nat, j: nat)
    requires g.Valid() && Shaped(g, s) && CellsOk(g, s.cells) && AllLinksOk(g, s) && Enabled(g, s, South(x, y))
    requires i < g.rows && j < g.cols
    ensures SameStop(s, South(x, y), NewCells(g, s, South(x, y)), i, j)
  {
    var c, e := s.cells[x][y], s.cells[x + 1][y];
    assert CellOk(g, x, y, c) && CellOk(g, x + 1, y, e);
    SouthStep(g, x, y, c);
    PutAt(s.cells, x, y, ToSendWest(g, y, c));
    PutAt(Put(s.cells, x, y, ToSendWest(g, y, c)), x + 1, y, AfterRecvA(e, c.a));
  }

  lemma WestStops(g: Grid, s: State, x: nat, y: nat, i: nat, j: nat)
    requires g.Valid() && Shaped(g, s) && CellsOk(g, s.cells) && AllLinksOk(g, s) && Enabled(g, s, West(x, y))
    requires i < g.rows && j < g.cols
    ensures SameStop(s, West(x, y), NewCells(g, s, West(x, y)), i, j)
  {
    var c, e := s.cells[x][y], s.cells[x][y - 1];
    WestEnds(g, s, x, y);
    PutAt(s.cells, x, y, AfterForward(g, c));
    PutAt(Put(s.cells, x, y, AfterForward(g, c)), x, y - 1, AfterRecvB(g, x, y - 1, e, c.b));
  }

  lemma FeedStops(g: Grid, s: State, act: Action, i: nat, j: nat)
    requires g.Valid() && Shaped(g, s) && CellsOk(g, s.cells) && AllLinksOk(g, s) && Enabled(g, s, act)
    requires i < g.rows && j < g.cols && (act.FeedA? || act.FeedB?)
    ensures SameStop(s, act, NewCells(g, s, act), i, j)
  {
    match act
    case FeedA(y) => PutAt(s.cells, 0, y, AfterRecvA(s.cells[0][y], g.a(y, s.fa[y])));
    case FeedB(x) =>
      FeedBMoves(g, s, x);
      PutAt(s.cells, x, g.cols - 1, AfterRecvB(g, x, g.cols - 1, s.cells[x][g.cols - 1], g.b(x, s.fb[x])));
  }

  lemma StopsKept(g: Grid, s: State, act: Action, i: nat, j: nat)
    requires g.Valid() && Shaped(g, s) && CellsOk(g, s.cells) && AllLinksOk(g, s) && Enabled(g, s, act)
    requires i < g.rows && j < g.cols
    ensures SameStop(s, act, NewCells(g, s, act), i, j)
  {
    match act
    case South(x, y) => SouthStops(g, s, x, y, i, j);
    case West(x, y) => WestStops(g, s, x, y, i, j);
    case Result(x, y) => PutAt(s.cells, x, y, s.cells[x][y].(pc := Stopped));
    case Verdict(x, y) =>
    case _ => FeedStops(g, s, act, i, j);
  }

  lemma SitesKept(g: Grid, s: State, act: Action)
    requires g.Valid() && Shaped(g, s) && SitesOk(g, s) && Enabled(g, s, act)
    ensures SitesOk(g, Apply(g, s, act))
  {
    CellsMove(g, s, act);
    forall i, j | 0 <= i < g.rows && 0 <= j < g.cols ensures SameStop(s, act, NewCells(g, s, act), i, j) {
      StopsKept(g, s, act, i, j);
    }
    ChecksKept(g, s, act);
    LinksKept(g, s, act, Apply(g, s, act));
  }
}

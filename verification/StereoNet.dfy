// The stereo process network: one source, one worker for every stripe and one checker that
// talk over rendezvous channels. Source port k feeds worker k, worker k feeds checker port k.
module StereoNet {
  import opened Buffers
  import opened Stereo

  /** What the processes compute with: the packet the source fills for a stripe, the worker's
      input check and result, the checker's verdict on the packet of a port (its valid pixels
      when it matches), and the total the checker expects. */
  datatype Net<!P, !O> = Net(stripes: nat, packet: nat -> P, inputValid: P -> bool, compute: P -> O,
                             check: (O, nat) -> Option<nat>, expected: nat)

  datatype Worker<O> = Receiving | Sending(out: O) | Done | Broken

  datatype Verdict = Running | Passed | Failed

  /** nextStripe is the source's; nextPort, mask (its set bits), valid, mismatches and verdict
      are the checker's. seen records the packets the checker has received. */
  datatype State<O> = State(nextStripe: nat, workers: seq<Worker<O>>,
                            nextPort: nat, mask: set<nat>, valid: nat, mismatches: nat, verdict: Verdict,
                            seen: seq<O>)

  datatype Action = Feed(stripe: nat) | Report(port: nat)

  function Init<P, O>(net: Net<P, O>): State<O> {
    State(0, seq(net.stripes, _ => Receiving), 0, {}, 0, 0, Running, [])
  }

  /** The two parties of a rendezvous are both waiting on it. */
  predicate Enabled<P, O>(net: Net<P, O>, s: State<O>, a: Action) {
    match a
    case Feed(k) => s.nextStripe < net.stripes && k == s.nextStripe < |s.workers| && s.workers[k].Receiving?
    case Report(p) => s.verdict.Running? && p == s.nextPort < |s.workers| && s.workers[p].Sending?
  }

  /** (1 << n) - 1 as a set of bits. */
  function AllPorts(n: nat): set<nat> {
    if n == 0 then {} else AllPorts(n - 1) + {n - 1}
  }

  /** The checker after it has received out on its next port. */
  function AfterReceive<P, O>(net: Net<P, O>, s: State<O>, out: O): State<O> {
    match net.check(out, s.nextPort)
    case None => s.(mismatches := s.mismatches + 1, verdict := Failed, seen := s.seen + [out])
    case Some(v) =>
      var t := s.(valid := s.valid + v, mask := s.mask + {s.nextPort}, nextPort := s.nextPort + 1,
            seen := s.seen + [out]);
      if t.nextPort < net.stripes then t
      else if t.mask == AllPorts(net.stripes) && t.valid == net.expected && t.mismatches == 0 then t.(verdict := Passed)
      else t.(verdict := Failed)
  }

  function Step<P, O>(net: Net<P, O>, s: State<O>, a: Action): State<O>
    requires Enabled(net, s, a)
  {
    match a
    case Feed(k) =>
      var pkt := net.packet(k);
      s.(nextStripe := k + 1,
         workers := s.workers[k := if net.inputValid(pkt) then Sending(net.compute(pkt)) else Broken])
    case Report(p) =>
      AfterReceive(net, s.(workers := s.workers[p := Done]), s.workers[p].out)
  }

  // ---- The invariant ----

  /** The result of stripe k, and what the checker makes of it. */
  function Result<P, O>(net: Net<P, O>, k: nat): O { net.compute(net.packet(k)) }

  function Score<P, O>(net: Net<P, O>, k: nat): Option<nat> { net.check(Result(net, k), k) }

  /** The valid pixels of the first n stripes that were accepted. */
  function Total<P, O>(net: Net<P, O>, n: nat): nat {
    if n == 0 then 0 else Total(net, n - 1) + match Score(net, n - 1) case Some(v) => v case None => 0
  }

  ghost predicate WorkerOk<P, O>(net: Net<P, O>, s: State<O>, k: nat)
    requires k < |s.workers|
  {
    match s.workers[k]
    case Receiving => s.nextStripe <= k && |s.seen| <= k
    case Sending(out) => k < s.nextStripe && |s.seen| <= k && net.inputValid(net.packet(k)) && out == Result(net, k)
    case Done => k < s.nextStripe && k < |s.seen|
    case Broken => k < s.nextStripe && |s.seen| <= k && !net.inputValid(net.packet(k))
  }

  ghost predicate CheckerOk<P, O>(net: Net<P, O>, s: State<O>) {
    && |s.seen| <= net.stripes
    && (forall p :: 0 <= p < |s.seen| ==> s.seen[p] == Result(net, p))
    && (forall p :: 0 <= p < |s.seen| ==> net.inputValid(net.packet(p)))
    && (forall p :: 0 <= p < s.nextPort ==> Score(net, p).Some?)
    && s.mask == AllPorts(s.nextPort)
    && s.valid == Total(net, s.nextPort)
    && match s.verdict
       case Running => s.nextPort == |s.seen| < net.stripes && s.mismatches == 0
       case Passed => s.nextPort == |s.seen| == net.stripes && s.mismatches == 0 && s.valid == net.expected
       case Failed =>
         || (s.nextPort == |s.seen| == net.stripes && s.mismatches == 0 && s.valid != net.expected)
         || (s.nextPort + 1 == |s.seen| && s.mismatches == 1 && Score(net, s.nextPort).None?)
  }

  ghost predicate Inv<P, O>(net: Net<P, O>, s: State<O>) {
    && s.nextStripe <= net.stripes && |s.workers| == net.stripes
    && (forall k :: 0 <= k < net.stripes ==> WorkerOk(net, s, k))
    && CheckerOk(net, s)
  }

  lemma InitInv<P, O>(net: Net<P, O>)
    requires net.stripes > 0
    ensures Inv(net, Init(net))
  {
  }

  lemma CheckerKept<P, O>(net: Net<P, O>, s: State<O>, p: nat)
    requires Inv(net, s) && Enabled(net, s, Report(p))
    ensures CheckerOk(net, Step(net, s, Report(p))) && Step(net, s, Report(p)).seen == s.seen + [Result(net, p)]
  {
    assert WorkerOk(net, s, p);
    var t := Step(net, s, Report(p));
    assert s.workers[p].out == Result(net, p);
  }

  lemma InvKept<P, O>(net: Net<P, O>, s: State<O>, a: Action)
    requires Inv(net, s) && Enabled(net, s, a)
    ensures Inv(net, Step(net, s, a))
  {
    var t := Step(net, s, a);
    if a.Report? {
      CheckerKept(net, s, a.port);
    }
    forall k | 0 <= k < net.stripes ensures WorkerOk(net, t, k) {
      assert WorkerOk(net, s, k);
    }
  }

  // ---- Deadlock, termination ----

  /** Exactly when something can move: the source still has a packet to give, or the checker
      is running and the worker of its port has not broken off. */
  lemma NoDeadlock<P, O>(net: Net<P, O>, s: State<O>)
    requires Inv(net, s)
    ensures (exists a :: Enabled(net, s, a)) <==>
            s.nextStripe < net.stripes || (s.verdict.Running? && !s.workers[s.nextPort].Broken?)
  {
    if s.nextStripe < net.stripes {
      assert WorkerOk(net, s, s.nextStripe);
      assert Enabled(net, s, Feed(s.nextStripe));
    } else if s.verdict.Running? {
      assert WorkerOk(net, s, s.nextPort);
      if s.workers[s.nextPort].Sending? {
        assert Enabled(net, s, Report(s.nextPort));
      }
    }
  }

  /** Rendezvous still to come at most. */
  ghost function Measure<P, O>(net: Net<P, O>, s: State<O>): int {
    2 * net.stripes - s.nextStripe - |s.seen|
  }

  lemma MeasureDescends<P, O>(net: Net<P, O>, s: State<O>, a: Action)
    requires Inv(net, s) && Enabled(net, s, a)
    ensures 0 <= Measure(net, Step(net, s, a)) == Measure(net, s) - 1
  {
    InvKept(net, s, a);
  }

  ghost predicate IsRun<P, O>(net: Net<P, O>, run: seq<State<O>>) {
    && |run| > 0 && run[0] == Init(net)
    && forall i :: 0 <= i < |run| - 1 ==> Follows(net, run[i], run[i + 1])
  }

  ghost predicate Follows<P, O>(net: Net<P, O>, s: State<O>, t: State<O>) {
    exists a :: Enabled(net, s, a) && t == Step(net, s, a)
  }

  ghost predicate Stuck<P, O>(net: Net<P, O>, s: State<O>) {
    forall a :: !Enabled(net, s, a)
  }

  lemma FollowsKeeps<P, O>(net: Net<P, O>, s: State<O>, t: State<O>)
    requires Inv(net, s) && Follows(net, s, t)
    ensures Inv(net, t) && 0 <= Measure(net, t) == Measure(net, s) - 1
  {
    var a :| Enabled(net, s, a) && t == Step(net, s, a);
    InvKept(net, s, a);
    MeasureDescends(net, s, a);
  }

  /** Every state of every run satisfies the invariant, and no run makes more than two
      rendezvous for every stripe. */
  lemma {:induction false} RunInv<P, O>(net: Net<P, O>, run: seq<State<O>>, i: nat)
    requires net.stripes > 0 && IsRun(net, run) && i < |run|
    ensures Inv(net, run[i]) && i + Measure(net, run[i]) == 2 * net.stripes && i <= 2 * net.stripes
  {
    if i == 0 {
      InitInv(net);
    } else {
      var j := i - 1;
      RunInv(net, run, j);
      FollowsKeeps(net, run[j], run[j + 1]);
    }
  }

  /** Every run goes on to one that cannot. */
  lemma {:induction false} RunsEnd<P, O>(net: Net<P, O>, run: seq<State<O>>) returns (end: seq<State<O>>)
    requires net.stripes > 0 && IsRun(net, run)
    ensures run <= end && IsRun(net, end) && Stuck(net, end[|end| - 1])
    decreases 2 * net.stripes + 1 - |run|
  {
    var s := run[|run| - 1];
    RunInv(net, run, |run| - 1);
    if Stuck(net, s) {
      return run;
    }
    var a :| Enabled(net, s, a);
    var next := run + [Step(net, s, a)];
    assert Follows(net, s, Step(net, s, a));
    forall i | 0 <= i < |next| - 1 ensures Follows(net, next[i], next[i + 1]) {
      if i < |run| - 1 {
        assert Follows(net, run[i], run[i + 1]);
      }
    }
    RunInv(net, next, |run|);
    end := RunsEnd(net, next);
  }

  // ---- How runs end ----

  /** The packet of stripe k is valid and its result is accepted on port k. */
  ghost predicate Good<P, O>(net: Net<P, O>, k: nat) {
    net.inputValid(net.packet(k)) && Score(net, k).Some?
  }

  /** All stripes before k are good, so the checker gets as far as port k. */
  ghost predicate Reached<P, O>(net: Net<P, O>, k: nat) {
    forall p :: 0 <= p < k ==> Good(net, p)
  }

  /** Where every process is when nothing can move: the source has stopped; a worker with an
      invalid packet has broken off, one whose port the checker reached is done, and every
      other one is blocked on its send; the checker is blocked exactly when it reached a port
      whose worker broke off. */
  ghost predicate EndsAs<P, O>(net: Net<P, O>, s: State<O>) {
    && s.nextStripe == |s.workers| == net.stripes
    && (forall k :: 0 <= k < net.stripes ==> EndOfWorker(net, s.workers[k], k))
    && (s.verdict.Running? <==> exists k :: 0 <= k < net.stripes && Reached(net, k) && !net.inputValid(net.packet(k)))
  }

  ghost predicate EndOfWorker<P, O>(net: Net<P, O>, w: Worker<O>, k: nat) {
    if !net.inputValid(net.packet(k)) then w.Broken?
    else if Reached(net, k) then w.Done?
    else w == Sending(Result(net, k))
  }

  /** How far the checker got in a state where nothing can move. */
  lemma CheckerEnd<P, O>(net: Net<P, O>, s: State<O>)
    requires Inv(net, s) && Stuck(net, s)
    ensures s.nextStripe == net.stripes && Reached(net, s.nextPort)
    ensures s.nextPort < net.stripes ==> !Good(net, s.nextPort)
    ensures s.verdict.Running? <==> s.nextPort < net.stripes && !net.inputValid(net.packet(s.nextPort))
    ensures |s.seen| == if s.nextPort < net.stripes && !s.verdict.Running? then s.nextPort + 1 else s.nextPort
  {
    NoDeadlock(net, s);
    forall p | 0 <= p < s.nextPort ensures Good(net, p) {
      assert Score(net, p).Some?;
    }
    if s.nextPort < net.stripes {
      assert WorkerOk(net, s, s.nextPort);
    }
  }

  lemma EndState<P, O>(net: Net<P, O>, s: State<O>)
    requires Inv(net, s) && Stuck(net, s)
    ensures EndsAs(net, s)
  {
    CheckerEnd(net, s);
    var q := s.nextPort;
    forall k: nat | k < net.stripes
      ensures Reached(net, k) <==> k <= q
      ensures EndOfWorker(net, s.workers[k], k)
    {
      assert WorkerOk(net, s, k);
    }
    if s.verdict.Running? {
      assert Reached(net, q) && !net.inputValid(net.packet(q));
    }
  }

  /** No process is left waiting for a partner that never comes. */
  ghost predicate AllStopped<O>(s: State<O>, n: nat) {
    s.nextStripe == n && !s.verdict.Running? && forall k :: 0 <= k < |s.workers| ==>
        s.workers[k].Done? || s.workers[k].Broken?
  }

  /** Exactly which networks end with every process stopped: the checker must get past every
      port whose worker broke off before it, and no valid packet may come after a bad one. */
  lemma StoppedExactly<P, O>(net: Net<P, O>, run: seq<State<O>>)
    requires net.stripes > 0 && IsRun(net, run) && Stuck(net, run[|run| - 1])
    ensures EndsAs(net, run[|run| - 1])
    ensures AllStopped(run[|run| - 1], net.stripes) <==>
            forall k :: 0 <= k < net.stripes ==> (net.inputValid(net.packet(k)) <==> Reached(net, k))
    ensures (forall k :: 0 <= k < net.stripes ==> net.inputValid(net.packet(k))) ==>
            (AllStopped(run[|run| - 1], net.stripes) <==> Reached(net, net.stripes - 1))
  {
    var s := run[|run| - 1];
    RunInv(net, run, |run| - 1);
    EndState(net, s);
    forall k | 0 <= k < net.stripes
      ensures s.workers[k].Done? || s.workers[k].Broken? <==> (net.inputValid(net.packet(k)) ==> Reached(net, k))
    {
      assert EndOfWorker(net, s.workers[k], k);
    }
  }

  // ---- Verdicts ----

  /** Every packet is valid, every result is accepted on its own port, the totals agree. */
  ghost predicate AllGood<P, O>(net: Net<P, O>) {
    Reached(net, net.stripes) && Total(net, net.stripes) == net.expected
  }

  /** PASS is sound in every reachable state: the packet checked on port p is what a worker
      makes of stripe p, every one of them was accepted, and all processes have stopped. */
  lemma PassIsSound<P, O>(net: Net<P, O>, run: seq<State<O>>, i: nat)
    requires net.stripes > 0 && IsRun(net, run) && i < |run| && run[i].verdict.Passed?
    ensures AllGood(net) && |run[i].seen| == |run[i].workers| == net.stripes
    ensures forall p :: 0 <= p < net.stripes ==> run[i].seen[p] == Result(net, p) && run[i].workers[p].Done?
    ensures AllStopped(run[i], net.stripes)
  {
    RunInv(net, run, i);
    var s := run[i];
    forall p | 0 <= p < net.stripes ensures s.workers[p].Done? && Good(net, p) {
      assert WorkerOk(net, s, p);
      assert Score(net, p).Some?;
    }
    assert WorkerOk(net, s, net.stripes - 1);
  }

  /** A run that cannot go on has passed exactly when everything is good, and has failed at
      the checker exactly when the checker reached a bad result or a wrong total; in the one
      case left a worker reported the failure and the checker waits for it. */
  lemma StuckVerdict<P, O>(net: Net<P, O>, run: seq<State<O>>)
    requires net.stripes > 0 && IsRun(net, run) && Stuck(net, run[|run| - 1])
    ensures run[|run| - 1].verdict.Passed? <==> AllGood(net)
    ensures run[|run| - 1].verdict.Running? <==>
            exists k :: 0 <= k < net.stripes && Reached(net, k) && !net.inputValid(net.packet(k))
  {
    var s := run[|run| - 1];
    RunInv(net, run, |run| - 1);
    EndState(net, s);
    CheckerEnd(net, s);
    if s.verdict.Passed? {
      PassIsSound(net, run, |run| - 1);
    }
  }

  // ---- The demo ----

  /** The network over a scene: the source fills packets, workers compute on their contents. */
  ghost function DemoNet(scene: Scene): (net: Net<Packet, Answer>)
    ensures net.stripes == STRIPES
  {
    Net(STRIPES, (k: nat) => if k < STRIPES then PacketOf(scene, k) else PacketOf(scene, 0), (p: Packet) => p.Valid(),
        (p: Packet) => Compute(p), (o: Answer, port: nat) => CheckAnswer(o, port), VALID_PIXELS)
  }

  /** All packets are valid, a worker's result is the stripe of the whole scene, and it is
      accepted exactly when it is the expected stripe. */
  lemma DemoStripe(scene: Scene, k: nat)
    requires k < STRIPES
    ensures DemoNet(scene).inputValid(DemoNet(scene).packet(k)) && Result(DemoNet(scene), k) == AnswerFor(scene, k)
    ensures Score(DemoNet(scene), k)
         == if StripeMap(scene, k) == ExpectedMap(StripeY0(k)) then Some(ValidCount(StripeY0(k), STRIPE_H)) else None
  {
    PacketSuffices(scene, k);
  }

  /** Totals depend on the scores only. */
  lemma {:induction false} TotalOf<P, O>(net: Net<P, O>, n: nat)
    requires forall k :: 0 <= k < n ==> Score(net, k) == Some(ValidCount(StripeY0(k), STRIPE_H))
    ensures Total(net, n) == StripesTotal(n)
  {
    if n > 0 {
      TotalOf(net, n - 1);
      assert Score(net, n - 1) == Some(ValidCount(StripeY0(n - 1), STRIPE_H));
    }
  }

  lemma DemoTotal(scene: Scene)
    requires Reached(DemoNet(scene), STRIPES)
    ensures Total(DemoNet(scene), STRIPES) == VALID_PIXELS
  {
    var net := DemoNet(scene);
    forall k | 0 <= k < STRIPES ensures Score(net, k) == Some(ValidCount(StripeY0(k), STRIPE_H)) {
      assert Good(net, k);
      DemoStripe(scene, k);
    }
    TotalOf(net, STRIPES);
    StripesCount();
  }

  lemma DemoGood(texture: (int, int, int) -> byte, k: nat)
    requires k < STRIPES
    ensures Good(DemoNet(SceneOf(texture)), k) <==> StripeUnambiguous(SceneOf(texture), k)
  {
    DemoStripe(SceneOf(texture), k);
    StripePasses(texture, k);
  }

  /** Whatever texture the scene is drawn from, every run of the demo that cannot go on has
      passed if and only if no valid pixel has a free disparity below its true one, and all
      its processes have stopped if and only if that holds of the first three stripes. */
  lemma DemoPasses(texture: (int, int, int) -> byte, run: seq<State<Answer>>)
    requires IsRun(DemoNet(SceneOf(texture)), run) && Stuck(DemoNet(SceneOf(texture)), run[|run| - 1])
    ensures run[|run| - 1].verdict.Passed? <==> forall k :: 0 <= k < STRIPES ==> StripeUnambiguous(SceneOf(texture), k)
    ensures AllStopped(run[|run| - 1], STRIPES) <==>
            forall k :: 0 <= k < STRIPES - 1 ==> StripeUnambiguous(SceneOf(texture), k)
  {
    var scene := SceneOf(texture);
    var net := DemoNet(scene);
    StuckVerdict(net, run);
    StoppedExactly(net, run);
    forall k | 0 <= k < STRIPES
      ensures net.inputValid(net.packet(k)) && (Good(net, k) <==> StripeUnambiguous(scene, k))
    {
      DemoStripe(scene, k);
      DemoGood(texture, k);
    }
    if Reached(net, STRIPES) {
      DemoTotal(scene);
    }
  }

  /** Over a texture of one colour the demo fails: the checker stops at port 0 and the other
      three workers stay blocked on their sends. */
  lemma OneColourBlocks(v: byte, run: seq<State<Answer>>, s: State<Answer>)
    requires IsRun(DemoNet(SceneOf(OneColour(v))), run) && s == run[|run| - 1]
             && Stuck(DemoNet(SceneOf(OneColour(v))), s)
    ensures s.verdict.Failed? && |s.workers| == STRIPES && s.workers[0].Done?
    ensures forall k :: 1 <= k < STRIPES ==> s.workers[k].Sending?
  {
    var net := DemoNet(SceneOf(OneColour(v)));
    OneColourIsAmbiguous(v, 0);
    DemoGood(OneColour(v), 0);
    StoppedExactly(net, run);
    StuckVerdict(net, run);
    forall k: nat | k < STRIPES ensures s.workers[k].Sending? <==> k > 0 ensures s.workers[k].Done? <==> k == 0 {
      DemoStripe(SceneOf(OneColour(v)), k);
      assert EndOfWorker(net, s.workers[k], k);
      assert k > 0 ==> !Good(net, 0) && !Reached(net, k);
    }
  }
}

/** When a sealed epoch is ordered in time: exactly when no request saw its own clock step back. */
module GatewayTime {
  import opened Integers
  import opened Types
  import opened Relation
  import opened Gateway
  import opened GatewayProtocol

  // -------------------------------------------------------------------------- readings

  /** The reading that ended request r's ingress message. */
  function IngressEnd(steps: seq<Step>, r: nat): Option<u64> {
    if steps == [] then None
    else
      var last := steps[|steps| - 1];
      if last.ReadIngressEnd? && last.r == r then Some(last.now) else IngressEnd(steps[..|steps| - 1], r)
  }

  /** The reading that started request r's upstream call. */
  function UpstreamStart(steps: seq<Step>, r: nat): Option<u64> {
    if steps == [] then None
    else
      var last := steps[|steps| - 1];
      if last.ReadUpstream? && last.r == r then Some(last.now) else UpstreamStart(steps[..|steps| - 1], r)
  }

  /** Request r did not see the clock step back between these two readings. */
  ghost predicate Forward(steps: seq<Step>, r: nat) {
    IngressEnd(steps, r).Some? && UpstreamStart(steps, r).Some?
    ==> IngressEnd(steps, r).value <= UpstreamStart(steps, r).value
  }

  ghost predicate ForwardEach(steps: seq<Step>) {
    forall r: nat :: Forward(steps, r)
  }

  lemma ReadingsAfter(steps: seq<Step>, step: Step, r: nat)
    ensures IngressEnd(steps + [step], r)
            == if step.ReadIngressEnd? && step.r == r then Some(step.now) else IngressEnd(steps, r)
    ensures UpstreamStart(steps + [step], r)
            == if step.ReadUpstream? && step.r == r then Some(step.now) else UpstreamStart(steps, r)
  {
    assert (steps + [step])[..|steps|] == steps;
  }

  // ------------------------------------------------------------- readings and leaves

  ghost predicate LeafTimes(leaves: seq<GatewayLeaf>, i: nat, j: nat, ingress: Option<u64>, upstream: Option<u64>) {
    && i < |leaves| && j < |leaves|
    && ingress == Some(leaves[i].descriptor.endedAt) && upstream == Some(leaves[j].descriptor.startedAt)
  }

  /** The two readings are the ones the request holds, or has put into its leaves. */
  ghost predicate ReadingsFit(leaves: seq<GatewayLeaf>, at: Progress, ingress: Option<u64>, upstream: Option<u64>) {
    match at
    case Reserved => ingress.None? && upstream.None?
    case Started(_) => ingress.None? && upstream.None?
    case IngressReady(_, t1) => ingress == Some(t1) && upstream.None?
    case IngressDone(i) => i < |leaves| && ingress == Some(leaves[i].descriptor.endedAt) && upstream.None?
    case Upstream(i, t2) => i < |leaves| && ingress == Some(leaves[i].descriptor.endedAt) && upstream == Some(t2)
    case EgressReady(i, t2, _) => i < |leaves| && ingress == Some(leaves[i].descriptor.endedAt) && upstream == Some(t2)
    case EgressDone(i, j) => LeafTimes(leaves, i, j, ingress, upstream)
    case Done(i, j) => LeafTimes(leaves, i, j, ingress, upstream)
    case _ => true
  }

  ghost predicate RequestRead(s: System, steps: seq<Step>, r: nat) {
    if r in s.requests
    then ReadingsFit(s.ledger.leaves, s.requests[r].at, IngressEnd(steps, r), UpstreamStart(steps, r))
    else IngressEnd(steps, r).None? && UpstreamStart(steps, r).None?
  }

  ghost predicate AllRead(s: System, steps: seq<Step>) {
    forall r: nat :: RequestRead(s, steps, r)
  }

  lemma LeavesGrow(config: EpochConfig, s: System, step: Step)
    requires Enabled(s, step)
    ensures s.ledger.leaves <= Next(config, s, step).ledger.leaves
  {
  }

  lemma ReadingsGrow(leaves: seq<GatewayLeaf>, more: seq<GatewayLeaf>, at: Progress, ingress: Option<u64>,
                     upstream: Option<u64>)
    requires ReadingsFit(leaves, at, ingress, upstream) && leaves <= more
    ensures ReadingsFit(more, at, ingress, upstream)
  {
  }

  lemma ReadStep(config: EpochConfig, s: System, steps: seq<Step>, step: Step, r: nat)
    requires RequestRead(s, steps, r) && Enabled(s, step)
    ensures RequestRead(Next(config, s, step), steps + [step], r)
  {
    ReadingsAfter(steps, step, r);
    LeavesGrow(config, s, step);
    if r in s.requests {
      ReadingsGrow(s.ledger.leaves, Next(config, s, step).ledger.leaves, s.requests[r].at,
                   IngressEnd(steps, r), UpstreamStart(steps, r));
    }
  }

  lemma {:induction false} ReadAlong(config: EpochConfig, run: Run, k: nat)
    requires IsRun(config, run) && k < |run.states|
    ensures AllRead(run.states[k], run.steps[..k])
  {
    if k == 0 {
    } else {
      ReadAlong(config, run, k - 1);
      assert Taken(config, run, k - 1);
      assert run.steps[..k] == run.steps[..k - 1] + [run.steps[k - 1]];
      forall r: nat ensures RequestRead(run.states[k], run.steps[..k], r) {
        assert RequestRead(run.states[k - 1], run.steps[..k - 1], r);
        ReadStep(config, run.states[k - 1], run.steps[..k - 1], run.steps[k - 1], r);
      }
    }
  }

  // ------------------------------------------------------------------ the exact condition

  lemma DonePair(s: System, r: nat, steps: seq<Step>)
    requires r in s.requests && s.requests[r].at.Done?
    requires RequestFits(s.ledger, s.requests[r]) && RequestRead(s, steps, r)
    ensures var at, leaves := s.requests[r].at, s.ledger.leaves;
            && at.i < |leaves| && at.j < |leaves| && Partners(leaves[at.i], leaves[at.j])
            && leaves[at.i].descriptor.taskId == s.requests[r].taskId
            && (Forward(steps, r) <==> leaves[at.i].descriptor.endedAt <= leaves[at.j].descriptor.startedAt)
  {
    var at := s.requests[r].at;
    assert at.i in Positions(at) && at.j in Positions(at);
  }

  lemma PairIsRequest(config: EpochConfig, s: System, i: nat, j: nat) returns (r: nat)
    requires Inv(config, s) && AllDone(s)
    requires i < |s.ledger.leaves| && j < |s.ledger.leaves| && Partners(s.ledger.leaves[i], s.ledger.leaves[j])
    ensures r in s.requests && s.requests[r].at == Done(i, j)
  {
    var leaves := s.ledger.leaves;
    assert Owned(s, leaves[i].descriptor.taskId);
    r :| r in s.requests && s.requests[r].taskId == leaves[i].descriptor.taskId;
    OwnsPair(s.ledger, s.requests[r], i, j);
  }

  lemma OwnsPair(ledger: LedgerState, q: Request, i: nat, j: nat)
    requires RequestFits(ledger, q) && q.at.Done?
    requires i < |ledger.leaves| && j < |ledger.leaves| && Partners(ledger.leaves[i], ledger.leaves[j])
    requires q.taskId == ledger.leaves[i].descriptor.taskId
    ensures q.at == Done(i, j)
  {
    assert i in Positions(q.at) && j in Positions(q.at);
  }

  lemma OrderedExactly(config: EpochConfig, s: System, steps: seq<Step>)
    requires Inv(config, s) && AllDone(s) && AllRead(s, steps)
    ensures OrderedInTime(s.ledger.leaves) <==> ForwardEach(steps)
  {
    var leaves := s.ledger.leaves;
    if ForwardEach(steps) {
      forall i, j | 0 <= i < |leaves| && 0 <= j < |leaves| && Partners(leaves[i], leaves[j])
        ensures leaves[i].descriptor.endedAt <= leaves[j].descriptor.startedAt
      {
        var r := PairIsRequest(config, s, i, j);
        assert RequestFits(s.ledger, s.requests[r]) && RequestRead(s, steps, r) && Forward(steps, r);
        DonePair(s, r, steps);
      }
    }
    if OrderedInTime(leaves) {
      forall r: nat ensures Forward(steps, r) {
        assert RequestRead(s, steps, r);
        if r in s.requests {
          assert RequestFits(s.ledger, s.requests[r]);
          DonePair(s, r, steps);
        }
      }
    }
  }

  /** A sealed epoch is ordered in time if and only if each request read a clock at the start of its
      upstream call that was not behind the one it read at the end of its ingress message. */
  lemma SealedOrderExactly(config: EpochConfig, run: Run, k: nat)
    requires IsRun(config, run) && SealsAt(run, k)
    ensures OrderedInTime(run.states[k].ledger.leaves) <==> ForwardEach(run.steps[..k])
  {
    InvAlong(config, run, k);
    SealSucceedsExactly(config, run, k);
    ReadAlong(config, run, k);
    OrderedExactly(config, run.states[k], run.steps[..k]);
  }

  // ---------------------------------------------------------------------- clocks at large

  /** Clock readings never step back along the run. */
  ghost predicate MonotoneClock(run: Run) {
    forall k | 0 <= k < |run.states| - 1 :: ClockStep(run.states[k], run.states[k + 1])
  }

  ghost predicate ClockStep(s: System, t: System) {
    s.clock <= t.clock
  }

  ghost predicate BehindClock(s: System, steps: seq<Step>, r: nat) {
    (IngressEnd(steps, r).Some? ==> IngressEnd(steps, r).value <= s.clock) && Forward(steps, r)
  }

  lemma BehindStep(config: EpochConfig, s: System, steps: seq<Step>, step: Step, r: nat)
    requires Enabled(s, step) && s.clock <= Next(config, s, step).clock
    requires RequestRead(s, steps, r) && BehindClock(s, steps, r)
    ensures BehindClock(Next(config, s, step), steps + [step], r)
  {
    ReadingsAfter(steps, step, r);
  }

  lemma {:induction false} BehindAlong(config: EpochConfig, run: Run, k: nat, r: nat)
    requires IsRun(config, run) && MonotoneClock(run) && k < |run.states|
    ensures BehindClock(run.states[k], run.steps[..k], r)
  {
    if k == 0 {
    } else {
      BehindAlong(config, run, k - 1, r);
      ReadAlong(config, run, k - 1);
      assert Taken(config, run, k - 1) && ClockStep(run.states[k - 1], run.states[k - 1 + 1]);
      assert run.steps[..k] == run.steps[..k - 1] + [run.steps[k - 1]];
      BehindStep(config, run.states[k - 1], run.steps[..k - 1], run.steps[k - 1], r);
    }
  }

  /** So a clock that never steps back is enough. */
  lemma SealedInTimeOrder(config: EpochConfig, run: Run, k: nat)
    requires IsRun(config, run) && MonotoneClock(run) && SealsAt(run, k)
    ensures OrderedInTime(run.states[k].ledger.leaves)
  {
    forall r: nat ensures Forward(run.steps[..k], r) {
      BehindAlong(config, run, k, r);
    }
    SealedOrderExactly(config, run, k);
  }

  /** One undisturbed task and a seal, its second half timed by a clock that was turned back. */
  datatype TurnedBack =
    TurnedBack(config: EpochConfig, taskId: string, early: u64, late: u64, len: u64, content: ContentCommitment)
  {
    function Leaf(direction: Direction): GatewayLeaf {
      var (time, index) := if direction == Ingress then (late, 0) else (early, 1);
      NewLeaf(config, Message(taskId, direction, time, time, len, content), index)
    }

    function Steps(): seq<Step> {
      [Reserve(0, taskId), ReadStart(0, late), ReadIngressEnd(0, late), AppendIngress(0, len, content, Written),
       ReadUpstream(0, early), ReadEgressEnd(0, early), AppendEgress(0, len, content, Written), Release(0), SealCall]
    }

    function At(isSealed: bool, count: nat, at: Progress, clock: u64): System
      requires count <= 2
    {
      var leaves := [Leaf(Ingress), Leaf(Egress)][..count];
      var active := if at.Done? then {} else {taskId};
      System(LedgerState(isSealed, false, leaves, active, Lines(leaves)), map[0 := Request(taskId, at)], clock)
    }

    function States(): seq<System> {
      [START, At(false, 0, Reserved, 0), At(false, 0, Started(late), late),
       At(false, 0, IngressReady(late, late), late),
       At(false, 1, IngressDone(0), late), At(false, 1, Upstream(0, early), early),
       At(false, 1, EgressReady(0, early, early), early), At(false, 2, EgressDone(0, 1), early),
       At(false, 2, Done(0, 1), early), At(true, 2, Done(0, 1), early)]
    }

    ghost predicate Fits() {
      taskId != "" && config.openedAt <= early < late <= config.closedAt
    }
  }

  lemma TurnedBackFirst(b: TurnedBack, k: nat)
    requires b.Fits() && k < 4
    ensures Enabled(b.States()[k], b.Steps()[k]) && Next(b.config, b.States()[k], b.Steps()[k]) == b.States()[k + 1]
  {
  }

  lemma TurnedBackSecond(b: TurnedBack, k: nat)
    requires b.Fits() && 4 <= k < 9
    ensures Enabled(b.States()[k], b.Steps()[k]) && Next(b.config, b.States()[k], b.Steps()[k]) == b.States()[k + 1]
  {
  }

  /** Nor is it enough that every message lies in the epoch: a clock turned back once gives a sealed
      ledger out of order. */
  lemma ClockTurnedBack(b: TurnedBack)
    requires b.Fits()
    ensures var run := Run(b.States(), b.Steps());
            && IsRun(b.config, run) && SealsAt(run, 8) && !MonotoneClock(run)
            && !OrderedInTime(run.states[8].ledger.leaves)
  {
    var run := Run(b.States(), b.Steps());
    forall k | 0 <= k < 9 ensures Taken(b.config, run, k) {
      if k < 4 {
        TurnedBackFirst(b, k);
      } else {
        TurnedBackSecond(b, k);
      }
    }
    assert Partners(run.states[8].ledger.leaves[0], run.states[8].ledger.leaves[1]);
    assert !ClockStep(run.states[4], run.states[4 + 1]);
  }
}

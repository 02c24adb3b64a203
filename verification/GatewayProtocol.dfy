/** All interleavings of task requests, failures, dropped requests and seal calls. */
module GatewayProtocol {
  import opened Integers
  import opened Types
  import opened Commitment
  import opened Relation
  import opened Gateway

  // ---------------------------------------------------------------- requests and steps

  /** Where an accepted request stands.  Positions of its leaves and clock readings ride along. */
  datatype Progress =
    | Reserved
    | Started(t0: u64)
    | IngressReady(t0: u64, t1: u64)
    | IngressDone(i: nat)
    | Upstream(i: nat, t2: u64)
    | EgressReady(i: nat, t2: u64, t3: u64)
    | EgressDone(i: nat, j: nat)
    | Done(i: nat, j: nat)
    | Failed
    | Aborted
    | Dropped

  datatype Request = Request(taskId: string, at: Progress)

  /** The ledger, the requests accepted so far, and the last clock reading taken. */
  datatype System = System(ledger: LedgerState, requests: map<nat, Request>, clock: u64)

  datatype Step =
    | Reserve(r: nat, taskId: string)
    | ReadStart(r: nat, now: u64)
    | ReadIngressEnd(r: nat, now: u64)
    | AppendIngress(r: nat, len: u64, content: ContentCommitment, outcome: WriteOutcome)
    | ReadUpstream(r: nat, now: u64)
    | ReadEgressEnd(r: nat, now: u64)
    | AppendEgress(r: nat, len: u64, content: ContentCommitment, outcome: WriteOutcome)
    | Release(r: nat)
    | Fail(r: nat)
    | Abort(r: nat)
    | Drop(r: nat)
    | SealCall

  predicate InFlight(at: Progress) {
    !at.Done? && !at.Failed? && !at.Aborted? && !at.Dropped?
  }

  function Move(s: System, r: nat, at: Progress): System
    requires r in s.requests
  {
    s.(requests := s.requests[r := s.requests[r].(at := at)])
  }

  function Ticked(s: System, r: nat, now: u64, at: Progress): System
    requires r in s.requests
  {
    Move(s, r, at).(clock := now)
  }

  /** An append either records the leaf, or fails and leaves the task failed. */
  function Appended(config: EpochConfig, s: System, r: nat, m: Message, outcome: WriteOutcome, at: Progress): System
    requires r in s.requests
  {
    var ok := CanAppend(config, s.ledger, m) && outcome == Written;
    Move(s, r, if ok then at else Failed).(ledger := AfterAppend(config, s.ledger, m, outcome))
  }

  /** Which steps a state allows. */
  predicate Enabled(s: System, step: Step) {
    match step
    case Reserve(r, taskId) => r !in s.requests
    case ReadStart(r, _) => r in s.requests && s.requests[r].at.Reserved?
    case ReadIngressEnd(r, _) => r in s.requests && s.requests[r].at.Started?
    case AppendIngress(r, _, _, _) => r in s.requests && s.requests[r].at.IngressReady?
    case ReadUpstream(r, _) => r in s.requests && s.requests[r].at.IngressDone?
    case ReadEgressEnd(r, _) => r in s.requests && s.requests[r].at.Upstream?
    case AppendEgress(r, _, _, _) => r in s.requests && s.requests[r].at.EgressReady?
    case Release(r) => r in s.requests && s.requests[r].at.EgressDone?
    case Fail(r) => r in s.requests && InFlight(s.requests[r].at) && !s.requests[r].at.EgressDone?
    case Abort(r) => r in s.requests && s.requests[r].at.Failed?
    case Drop(r) => r in s.requests && (InFlight(s.requests[r].at) || s.requests[r].at.Failed?)
    case SealCall => true
  }

  /** Each step is one lock region or one local move of one request. */
  function Next(config: EpochConfig, s: System, step: Step): System
    requires Enabled(s, step)
  {
    match step
    case Reserve(r, taskId) =>
      if CanReserve(s.ledger, taskId) then
        System(s.ledger.(active := s.ledger.active + {taskId}), s.requests[r := Request(taskId, Reserved)], s.clock)
      else s
    case ReadStart(r, now) => Ticked(s, r, now, Started(now))
    case ReadIngressEnd(r, now) => Ticked(s, r, now, IngressReady(s.requests[r].at.t0, now))
    case AppendIngress(r, len, content, outcome) =>
      var q := s.requests[r];
      Appended(config, s, r, Message(q.taskId, Ingress, q.at.t0, q.at.t1, len, content), outcome,
               IngressDone(|s.ledger.leaves|))
    case ReadUpstream(r, now) => Ticked(s, r, now, Upstream(s.requests[r].at.i, now))
    case ReadEgressEnd(r, now) => Ticked(s, r, now, EgressReady(s.requests[r].at.i, s.requests[r].at.t2, now))
    case AppendEgress(r, len, content, outcome) =>
      var q := s.requests[r];
      Appended(config, s, r, Message(q.taskId, Egress, q.at.t2, q.at.t3, len, content), outcome,
               EgressDone(q.at.i, |s.ledger.leaves|))
    case Release(r) =>
      var q := s.requests[r];
      Move(s, r, Done(q.at.i, q.at.j)).(ledger := s.ledger.(active := s.ledger.active - {q.taskId}))
    case Fail(r) => Move(s, r, Failed)
    case Abort(r) =>
      Move(s, r, Aborted).(
        ledger := s.ledger.(active := s.ledger.active - {s.requests[r].taskId}, aborted := true))
    case Drop(r) => Move(s, r, Dropped)
    case SealCall => if CanSeal(s.ledger) then s.(ledger := s.ledger.(isSealed := true)) else s
  }

  const START := System(EMPTY_LEDGER, map[], 0)

  /** A run: the states it passes through and the step taken from each. */
  datatype Run = Run(states: seq<System>, steps: seq<Step>)

  ghost predicate IsRun(config: EpochConfig, run: Run) {
    && |run.states| == |run.steps| + 1 && run.states[0] == START
    && forall k | 0 <= k < |run.steps| :: Taken(config, run, k)
  }

  ghost predicate Taken(config: EpochConfig, run: Run, k: nat)
    requires |run.states| == |run.steps| + 1 && k < |run.steps|
  {
    Enabled(run.states[k], run.steps[k]) && run.states[k + 1] == Next(config, run.states[k], run.steps[k])
  }

  /** The seal call at position k answers with a sealed epoch. */
  ghost predicate SealsAt(run: Run, k: nat)
    requires |run.states| == |run.steps| + 1
  {
    k < |run.steps| && run.steps[k].SealCall? && CanSeal(run.states[k].ledger)
  }

  /** The same, of runs that need not be well-shaped. */
  ghost predicate SealsIn(run: Run, k: nat) {
    |run.states| == |run.steps| + 1 && SealsAt(run, k)
  }

  // ------------------------------------------------------------------------ invariant

  /** The positions of the leaves a request has put in the ledger. */
  function Positions(at: Progress): set<nat>
    requires InFlight(at) || at.Done?
  {
    match at
    case IngressDone(i) => {i}
    case Upstream(i, _) => {i}
    case EgressReady(i, _, _) => {i}
    case EgressDone(i, j) => {i, j}
    case Done(i, j) => {i, j}
    case _ => {}
  }

  /** Exactly the leaves at these positions belong to the task. */
  ghost predicate OwnsExactly(leaves: seq<GatewayLeaf>, taskId: string, positions: set<nat>) {
    && (forall k | k in positions :: k < |leaves|)
    && forall k | 0 <= k < |leaves| :: leaves[k].descriptor.taskId == taskId <==> k in positions
  }

  ghost predicate DirectionsFit(leaves: seq<GatewayLeaf>, at: Progress) {
    match at
    case IngressDone(i) => i < |leaves| && leaves[i].descriptor.direction == Ingress
    case Upstream(i, _) => i < |leaves| && leaves[i].descriptor.direction == Ingress
    case EgressReady(i, _, _) => i < |leaves| && leaves[i].descriptor.direction == Ingress
    case EgressDone(i, j) => PairAt(leaves, i, j)
    case Done(i, j) => PairAt(leaves, i, j)
    case _ => true
  }

  ghost predicate PairAt(leaves: seq<GatewayLeaf>, i: nat, j: nat) {
    i < j < |leaves| && leaves[i].descriptor.direction == Ingress && leaves[j].descriptor.direction == Egress
  }

  ghost predicate RequestFits(ledger: LedgerState, q: Request) {
    && q.taskId != ""
    && (InFlight(q.at) || q.at.Failed? || q.at.Dropped? ==> q.taskId in ledger.active)
    && (q.at.Done? ==> UsesTask(ledger.leaves, q.taskId))
    && (q.at.Aborted? ==> ledger.aborted)
    && (InFlight(q.at) || q.at.Done? ==>
          OwnsExactly(ledger.leaves, q.taskId, Positions(q.at)) && DirectionsFit(ledger.leaves, q.at))
  }

  /** The leaf is the one this gateway writes at this position. */
  ghost predicate LeafFits(config: EpochConfig, leaves: seq<GatewayLeaf>, k: nat)
    requires k < |leaves|
  {
    var d := leaves[k].descriptor;
    && d.protocolVersion == PROTOCOL_VERSION && d.gatewayId == config.gatewayId && d.podId == config.podId
    && d.incarnationId == config.incarnationId && d.epochId == config.epochId && d.programId == config.programId
    && d.sequence == AsU64(k) && d.taskId != ""
    && config.openedAt <= d.startedAt <= d.endedAt <= config.closedAt
  }

  ghost predicate Owned(s: System, taskId: string) {
    exists r :: r in s.requests && s.requests[r].taskId == taskId
  }

  /** Some accepted request went wrong, so the epoch can no longer be sealed. */
  ghost predicate Tainted(s: System) {
    s.ledger.aborted || exists r :: r in s.requests && (s.requests[r].at.Failed? || s.requests[r].at.Dropped?)
  }

  function Lines(leaves: seq<GatewayLeaf>): seq<JournalLine> {
    seq(|leaves|, k requires 0 <= k < |leaves| => Record(leaves[k]))
  }

  ghost predicate Inv(config: EpochConfig, s: System) {
    && (forall r | r in s.requests :: RequestFits(s.ledger, s.requests[r]))
    && (forall r, q | r in s.requests && q in s.requests && r != q :: s.requests[r].taskId != s.requests[q].taskId)
    && (forall k | 0 <= k < |s.ledger.leaves| ::
          LeafFits(config, s.ledger.leaves, k) && Owned(s, s.ledger.leaves[k].descriptor.taskId))
    && (s.ledger.isSealed ==> CanSeal(s.ledger))
    && (s.ledger.journal == Lines(s.ledger.leaves) || Tainted(s))
  }

  // ---------------------------------------------------------------- every step keeps it

  lemma StartInv(config: EpochConfig)
    ensures Inv(config, START)
  {
  }

  lemma InFlightMeansOpen(config: EpochConfig, s: System, r: nat)
    requires Inv(config, s) && r in s.requests
    requires InFlight(s.requests[r].at) || s.requests[r].at.Failed? || s.requests[r].at.Dropped?
    ensures s.requests[r].taskId in s.ledger.active && !s.ledger.isSealed && !CanSeal(s.ledger)
  {
  }

  /** Once the epoch is tainted it stays tainted. */
  lemma TaintSticks(config: EpochConfig, s: System, step: Step)
    requires Enabled(s, step) && Tainted(s)
    ensures Tainted(Next(config, s, step))
  {
    var t := Next(config, s, step);
    if !s.ledger.aborted {
      var r :| r in s.requests && (s.requests[r].at.Failed? || s.requests[r].at.Dropped?);
      if step == Abort(r) {
        assert t.ledger.aborted;
      } else if step == Drop(r) {
        assert t.requests[r].at.Dropped?;
      } else {
        assert r in t.requests && t.requests[r].at == s.requests[r].at;
      }
    }
  }

  lemma TaintedNeverSeals(config: EpochConfig, s: System)
    requires Inv(config, s) && Tainted(s)
    ensures !CanSeal(s.ledger)
  {
  }

  lemma OwnedAfter(s: System, t: System, taskId: string)
    requires Owned(s, taskId)
    requires forall r | r in s.requests :: r in t.requests && t.requests[r].taskId == s.requests[r].taskId
    ensures Owned(t, taskId)
  {
  }

  lemma ReserveKeeps(config: EpochConfig, s: System, r: nat, taskId: string)
    requires Inv(config, s) && r !in s.requests && CanReserve(s.ledger, taskId)
    ensures Inv(config, Next(config, s, Reserve(r, taskId)))
  {
    var t := Next(config, s, Reserve(r, taskId));
    forall q | q in s.requests
      ensures s.requests[q].taskId != taskId && RequestFits(t.ledger, t.requests[q])
    {
      assert RequestFits(s.ledger, s.requests[q]);
    }
    assert RequestFits(t.ledger, t.requests[r]);
    forall k | 0 <= k < |t.ledger.leaves|
      ensures LeafFits(config, t.ledger.leaves, k) && Owned(t, t.ledger.leaves[k].descriptor.taskId)
    {
      OwnedAfter(s, t, s.ledger.leaves[k].descriptor.taskId);
    }
    if Tainted(s) {
      TaintSticks(config, s, Reserve(r, taskId));
    }
  }

  /** A step of one open request that leaves the ledger alone. */
  lemma LocalMoveKeeps(config: EpochConfig, s: System, r: nat, at: Progress, t: System)
    requires Inv(config, s) && r in s.requests
    requires InFlight(s.requests[r].at) || s.requests[r].at.Failed?
    requires t.ledger == s.ledger && t.requests == s.requests[r := s.requests[r].(at := at)]
    requires RequestFits(s.ledger, s.requests[r].(at := at))
    requires s.requests[r].at.Failed? ==> at.Dropped?
    ensures Inv(config, t)
  {
    InFlightMeansOpen(config, s, r);
    forall q | q in t.requests ensures RequestFits(t.ledger, t.requests[q]) {
    }
    forall k | 0 <= k < |t.ledger.leaves|
      ensures LeafFits(config, t.ledger.leaves, k) && Owned(t, t.ledger.leaves[k].descriptor.taskId)
    {
      OwnedAfter(s, t, s.ledger.leaves[k].descriptor.taskId);
    }
    if Tainted(s) && !s.ledger.aborted {
      var q :| q in s.requests && (s.requests[q].at.Failed? || s.requests[q].at.Dropped?);
      assert q in t.requests && (t.requests[q].at.Failed? || t.requests[q].at.Dropped?);
    }
  }

  /** Appending a leaf of one task leaves every other task's leaves as they were. */
  lemma OthersKeepLeaves(leaves: seq<GatewayLeaf>, leaf: GatewayLeaf, q: Request)
    requires InFlight(q.at) || q.at.Done?
    requires OwnsExactly(leaves, q.taskId, Positions(q.at)) && DirectionsFit(leaves, q.at)
    requires leaf.descriptor.taskId != q.taskId
    ensures OwnsExactly(leaves + [leaf], q.taskId, Positions(q.at)) && DirectionsFit(leaves + [leaf], q.at)
  {
  }

  lemma GrownRequestFits(ledger: LedgerState, grown: LedgerState, leaf: GatewayLeaf, q: Request)
    requires RequestFits(ledger, q) && leaf.descriptor.taskId != q.taskId
    requires grown == ledger.(leaves := ledger.leaves + [leaf], journal := grown.journal)
    ensures RequestFits(grown, q)
  {
    if q.at.Done? {
      var i :| 0 <= i < |ledger.leaves| && ledger.leaves[i].descriptor.taskId == q.taskId;
      assert grown.leaves[i].descriptor.taskId == q.taskId;
    }
    if InFlight(q.at) || q.at.Done? {
      OthersKeepLeaves(ledger.leaves, leaf, q);
    }
  }

  lemma GrownLeafFits(config: EpochConfig, s: System, m: Message)
    requires Inv(config, s) && CanAppend(config, s.ledger, m) && m.taskId != ""
    ensures var grown := s.ledger.leaves + [NewLeaf(config, m, |s.ledger.leaves|)];
            forall k | 0 <= k < |grown| :: LeafFits(config, grown, k)
  {
  }

  /** A recorded leaf: the request now owns one more position. */
  lemma RecordedKeeps(config: EpochConfig, s: System, r: nat, m: Message, at: Progress)
    requires Inv(config, s) && r in s.requests && InFlight(s.requests[r].at) && InFlight(at)
    requires m.taskId == s.requests[r].taskId && CanAppend(config, s.ledger, m)
    requires Positions(at) == Positions(s.requests[r].at) + {|s.ledger.leaves|}
    requires DirectionsFit(s.ledger.leaves + [NewLeaf(config, m, |s.ledger.leaves|)], at)
    ensures Inv(config, Appended(config, s, r, m, Written, at))
  {
    var t := Appended(config, s, r, m, Written, at);
    InFlightMeansOpen(config, s, r);
    forall q | q in t.requests ensures RequestFits(t.ledger, t.requests[q]) {
      RecordedRequestFits(config, s, r, m, at, q);
    }
    GrownLeafFits(config, s, m);
    forall k | 0 <= k < |t.ledger.leaves| ensures Owned(t, t.ledger.leaves[k].descriptor.taskId) {
      RecordedOwned(config, s, r, m, at, k);
    }
    RecordedJournal(config, s, r, m, at);
  }

  lemma RecordedRequestFits(config: EpochConfig, s: System, r: nat, m: Message, at: Progress, q: nat)
    requires Inv(config, s) && r in s.requests && InFlight(s.requests[r].at) && InFlight(at) && q in s.requests
    requires m.taskId == s.requests[r].taskId && CanAppend(config, s.ledger, m)
    requires Positions(at) == Positions(s.requests[r].at) + {|s.ledger.leaves|}
    requires DirectionsFit(s.ledger.leaves + [NewLeaf(config, m, |s.ledger.leaves|)], at)
    ensures var t := Appended(config, s, r, m, Written, at); RequestFits(t.ledger, t.requests[q])
  {
    var t, leaf := Appended(config, s, r, m, Written, at), NewLeaf(config, m, |s.ledger.leaves|);
    assert RequestFits(s.ledger, s.requests[q]);
    if q != r {
      GrownRequestFits(s.ledger, t.ledger, leaf, s.requests[q]);
    } else {
      assert OwnsExactly(t.ledger.leaves, m.taskId, Positions(at));
    }
  }

  lemma RecordedOwned(config: EpochConfig, s: System, r: nat, m: Message, at: Progress, k: nat)
    requires Inv(config, s) && r in s.requests && m.taskId == s.requests[r].taskId && CanAppend(config, s.ledger, m)
    requires k <= |s.ledger.leaves|
    ensures var t := Appended(config, s, r, m, Written, at);
            k < |t.ledger.leaves| && Owned(t, t.ledger.leaves[k].descriptor.taskId)
  {
    var t := Appended(config, s, r, m, Written, at);
    if k < |s.ledger.leaves| {
      OwnedAfter(s, t, s.ledger.leaves[k].descriptor.taskId);
    } else {
      assert r in t.requests && t.requests[r].taskId == m.taskId;
    }
  }

  lemma RecordedJournal(config: EpochConfig, s: System, r: nat, m: Message, at: Progress)
    requires r in s.requests && InFlight(s.requests[r].at) && InFlight(at) && CanAppend(config, s.ledger, m)
    requires s.ledger.journal == Lines(s.ledger.leaves) || Tainted(s)
    ensures var t := Appended(config, s, r, m, Written, at);
            t.ledger.journal == Lines(t.ledger.leaves) || Tainted(t)
  {
    var t := Appended(config, s, r, m, Written, at);
    if s.ledger.journal == Lines(s.ledger.leaves) {
      assert t.ledger.journal == Lines(t.ledger.leaves);
    } else if !s.ledger.aborted {
      var q :| q in s.requests && (s.requests[q].at.Failed? || s.requests[q].at.Dropped?);
      assert q in t.requests && (t.requests[q].at.Failed? || t.requests[q].at.Dropped?);
    }
  }

  /** A failed append: the ledger keeps its leaves, the journal may have gained a line. */
  lemma UnrecordedKeeps(config: EpochConfig, s: System, r: nat, m: Message, outcome: WriteOutcome, at: Progress)
    requires Inv(config, s) && r in s.requests && InFlight(s.requests[r].at)
    requires !(CanAppend(config, s.ledger, m) && outcome == Written)
    ensures Inv(config, Appended(config, s, r, m, outcome, at))
  {
    var t := Appended(config, s, r, m, outcome, at);
    InFlightMeansOpen(config, s, r);
    forall q | q in t.requests ensures RequestFits(t.ledger, t.requests[q]) {
      assert RequestFits(s.ledger, s.requests[q]);
    }
    forall k | 0 <= k < |t.ledger.leaves|
      ensures LeafFits(config, t.ledger.leaves, k) && Owned(t, t.ledger.leaves[k].descriptor.taskId)
    {
      OwnedAfter(s, t, s.ledger.leaves[k].descriptor.taskId);
    }
    assert t.requests[r].at.Failed?;
  }

  /** What a withdrawing step does: release after the egress, or abort after a failure. */
  ghost predicate Withdraws(s: System, r: nat, at: Progress, t: System) {
    && r in s.requests
    && ((s.requests[r].at.EgressDone? && at == Done(s.requests[r].at.i, s.requests[r].at.j)
         && t.ledger.aborted == s.ledger.aborted)
        || (s.requests[r].at.Failed? && at.Aborted? && t.ledger.aborted))
    && t.requests == s.requests[r := s.requests[r].(at := at)]
    && t.ledger == s.ledger.(active := s.ledger.active - {s.requests[r].taskId}, aborted := t.ledger.aborted)
  }

  lemma WithdrawFits(config: EpochConfig, s: System, r: nat, at: Progress, t: System, q: nat)
    requires Inv(config, s) && Withdraws(s, r, at, t) && q in t.requests
    ensures RequestFits(t.ledger, t.requests[q])
  {
  }

  /** Removing the id of a request that is finished or aborted from the active set. */
  lemma WithdrawKeeps(config: EpochConfig, s: System, r: nat, at: Progress, t: System)
    requires Inv(config, s) && Withdraws(s, r, at, t)
    ensures Inv(config, t)
  {
    InFlightMeansOpen(config, s, r);
    forall q | q in t.requests ensures RequestFits(t.ledger, t.requests[q]) {
      WithdrawFits(config, s, r, at, t, q);
    }
    forall k | 0 <= k < |t.ledger.leaves|
      ensures LeafFits(config, t.ledger.leaves, k) && Owned(t, t.ledger.leaves[k].descriptor.taskId)
    {
      OwnedAfter(s, t, s.ledger.leaves[k].descriptor.taskId);
    }
    if Tainted(s) && !t.ledger.aborted {
      var q :| q in s.requests && (s.requests[q].at.Failed? || s.requests[q].at.Dropped?);
      assert q in t.requests && (t.requests[q].at.Failed? || t.requests[q].at.Dropped?);
    }
  }

  lemma AppendKeeps(config: EpochConfig, s: System, step: Step)
    requires Inv(config, s) && Enabled(s, step) && (step.AppendIngress? || step.AppendEgress?)
    ensures Inv(config, Next(config, s, step))
  {
    var r := step.r;
    var q, n := s.requests[r], |s.ledger.leaves|;
    assert RequestFits(s.ledger, q);
    var m, at :=
      if step.AppendIngress? then Message(q.taskId, Ingress, q.at.t0, q.at.t1, step.len, step.content)
      else Message(q.taskId, Egress, q.at.t2, q.at.t3, step.len, step.content),
      if step.AppendIngress? then IngressDone(n) else EgressDone(q.at.i, n);
    if CanAppend(config, s.ledger, m) && step.outcome == Written {
      RecordedKeeps(config, s, r, m, at);
    } else {
      UnrecordedKeeps(config, s, r, m, step.outcome, at);
    }
  }

  lemma SealKeeps(config: EpochConfig, s: System)
    requires Inv(config, s)
    ensures Inv(config, Next(config, s, SealCall))
  {
  }

  lemma StepKeeps(config: EpochConfig, s: System, step: Step)
    requires Inv(config, s) && Enabled(s, step)
    ensures Inv(config, Next(config, s, step))
  {
    var t := Next(config, s, step);
    match step
    case Reserve(r, taskId) => if CanReserve(s.ledger, taskId) { ReserveKeeps(config, s, r, taskId); }
    case AppendIngress(_, _, _, _) => AppendKeeps(config, s, step);
    case AppendEgress(_, _, _, _) => AppendKeeps(config, s, step);
    case Release(r) => WithdrawKeeps(config, s, r, t.requests[r].at, t);
    case Abort(r) => WithdrawKeeps(config, s, r, Aborted, t);
    case SealCall => SealKeeps(config, s);
    case ReadStart(r, _) => LocalMoveKeeps(config, s, r, t.requests[r].at, t);
    case ReadIngressEnd(r, _) => LocalMoveKeeps(config, s, r, t.requests[r].at, t);
    case ReadUpstream(r, _) => LocalMoveKeeps(config, s, r, t.requests[r].at, t);
    case ReadEgressEnd(r, _) => LocalMoveKeeps(config, s, r, t.requests[r].at, t);
    case Fail(r) => LocalMoveKeeps(config, s, r, Failed, t);
    case Drop(r) => LocalMoveKeeps(config, s, r, Dropped, t);
  }

  lemma {:induction false} InvAlong(config: EpochConfig, run: Run, k: nat)
    requires IsRun(config, run) && k < |run.states|
    ensures Inv(config, run.states[k])
  {
    if k == 0 {
      StartInv(config);
    } else {
      InvAlong(config, run, k - 1);
      assert Taken(config, run, k - 1);
      StepKeeps(config, run.states[k - 1], run.steps[k - 1]);
    }
  }

  // -------------------------------------------------------------------- main theorems

  /** The task of this leaf has exactly one ingress and one egress leaf, ingress first. */
  ghost predicate PairedOnce(leaves: seq<GatewayLeaf>, taskId: string) {
    exists i, j :: PairAt(leaves, i, j) && OwnsExactly(leaves, taskId, {i, j})
  }

  /** What a successful seal hands out. */
  ghost predicate SealedLedger(config: EpochConfig, ledger: LedgerState) {
    && (forall k | 0 <= k < |ledger.leaves| ::
          LeafFits(config, ledger.leaves, k) && PairedOnce(ledger.leaves, ledger.leaves[k].descriptor.taskId))
    && ledger.journal == Lines(ledger.leaves)
  }

  lemma SealableIsPaired(config: EpochConfig, s: System)
    requires Inv(config, s) && CanSeal(s.ledger)
    ensures SealedLedger(config, s.ledger)
  {
  }

  /** In every run, a successful seal pairs every task exactly once, ingress before egress, with
      contiguous sequence numbers and a journal equal to the ledger. */
  lemma SealImpliesPaired(config: EpochConfig, run: Run, k: nat)
    requires IsRun(config, run) && SealsAt(run, k)
    ensures SealedLedger(config, run.states[k].ledger)
  {
    InvAlong(config, run, k);
    SealableIsPaired(config, run.states[k]);
  }

  /** A sealed ledger never changes again. */
  lemma {:induction false} SealedStaysPut(config: EpochConfig, run: Run, k: nat, l: nat)
    requires IsRun(config, run) && k <= l < |run.states| && run.states[k].ledger.isSealed
    ensures run.states[l].ledger == run.states[k].ledger
  {
    if k == l {
    } else {
      SealedStaysPut(config, run, k, l - 1);
      InvAlong(config, run, l - 1);
      assert Taken(config, run, l - 1);
      SealedStep(config, run.states[l - 1], run.steps[l - 1]);
    }
  }

  lemma SealedStep(config: EpochConfig, s: System, step: Step)
    requires Inv(config, s) && Enabled(s, step) && s.ledger.isSealed
    ensures Next(config, s, step).ledger == s.ledger
  {
  }

  /** Every later seal answers with the same leaves, root and signature. */
  lemma SealsAgree(config: EpochConfig, run: Run, k: nat, l: nat, h: Hasher, sign: GatewayRoot -> Signature)
    requires IsRun(config, run) && k <= l && SealsAt(run, k) && SealsAt(run, l)
    ensures SealedResponse(h, sign, config, run.states[k].ledger.leaves)
            == SealedResponse(h, sign, config, run.states[l].ledger.leaves)
  {
    if k < l {
      assert Taken(config, run, k);
      SealedStaysPut(config, run, k + 1, l);
    }
  }

  lemma {:induction false} TaintAlong(config: EpochConfig, run: Run, k: nat, l: nat)
    requires IsRun(config, run) && k <= l < |run.states| && Tainted(run.states[k])
    ensures Tainted(run.states[l])
  {
    if k == l {
    } else {
      TaintAlong(config, run, k, l - 1);
      assert Taken(config, run, l - 1);
      TaintSticks(config, run.states[l - 1], run.steps[l - 1]);
    }
  }

  /** Once a task has failed or been dropped no seal ever succeeds, in particular not between the
      failure and the abort it leads to. */
  lemma NoSealAfterFailure(config: EpochConfig, run: Run, r: nat, k: nat, l: nat)
    requires IsRun(config, run) && k <= l < |run.states| && r in run.states[k].requests
    requires var at := run.states[k].requests[r].at; at.Failed? || at.Dropped? || at.Aborted?
    ensures !SealsAt(run, l)
  {
    InvAlong(config, run, k);
    assert RequestFits(run.states[k].ledger, run.states[k].requests[r]);
    TaintAlong(config, run, k, l);
    InvAlong(config, run, l);
    TaintedNeverSeals(config, run.states[l]);
  }

  // ------------------------------------------------------------------------ journal first

  /** Every leaf of the ledger is on record. */
  ghost predicate AllRecorded(ledger: LedgerState) {
    forall k | 0 <= k < |ledger.leaves| :: Record(ledger.leaves[k]) in ledger.journal
  }

  lemma RecordedStep(config: EpochConfig, s: System, step: Step)
    requires AllRecorded(s.ledger) && Enabled(s, step)
    ensures AllRecorded(Next(config, s, step).ledger)
  {
  }

  /** In every state of every run, also of failed and aborted epochs, the journal has all of the ledger. */
  lemma {:induction false} JournalHasLedger(config: EpochConfig, run: Run, k: nat)
    requires IsRun(config, run) && k < |run.states|
    ensures AllRecorded(run.states[k].ledger)
  {
    if k == 0 {
    } else {
      JournalHasLedger(config, run, k - 1);
      assert Taken(config, run, k - 1);
      RecordedStep(config, run.states[k - 1], run.steps[k - 1]);
    }
  }

  // ------------------------------------------------------------------ when a seal succeeds

  /** Some request still holds this id. */
  ghost predicate Held(s: System, taskId: string) {
    exists r :: r in s.requests && s.requests[r].taskId == taskId
                && !s.requests[r].at.Done? && !s.requests[r].at.Aborted?
  }

  /** Nothing is active, and nothing aborted, without a request behind it. */
  ghost predicate NothingStray(s: System) {
    && (forall id | id in s.ledger.active :: Held(s, id))
    && (s.ledger.aborted ==> exists r :: r in s.requests && s.requests[r].at.Aborted?)
  }

  lemma StrayStep(config: EpochConfig, s: System, step: Step)
    requires NothingStray(s) && Enabled(s, step)
    ensures NothingStray(Next(config, s, step))
  {
    var t := Next(config, s, step);
    forall id | id in t.ledger.active ensures Held(t, id) {
      if id in s.ledger.active {
        var q :| q in s.requests && s.requests[q].taskId == id && !s.requests[q].at.Done? && !s.requests[q].at.Aborted?;
        assert q in t.requests && t.requests[q].taskId == id;
      } else {
        assert step.Reserve? && t.requests[step.r].at.Reserved?;
      }
    }
    if step.Abort? {
      assert t.requests[step.r].at.Aborted?;
    } else if t.ledger.aborted {
      var q :| q in s.requests && s.requests[q].at.Aborted?;
      assert t.requests[q].at.Aborted?;
    }
  }

  lemma {:induction false} StrayAlong(config: EpochConfig, run: Run, k: nat)
    requires IsRun(config, run) && k < |run.states|
    ensures NothingStray(run.states[k])
  {
    if k == 0 {
    } else {
      StrayAlong(config, run, k - 1);
      assert Taken(config, run, k - 1);
      StrayStep(config, run.states[k - 1], run.steps[k - 1]);
    }
  }

  ghost predicate AllDone(s: System) {
    forall r | r in s.requests :: s.requests[r].at.Done?
  }

  /** A seal call succeeds if and only if every accepted request has run to its end. */
  lemma SealSucceedsExactly(config: EpochConfig, run: Run, k: nat)
    requires IsRun(config, run) && k < |run.steps| && run.steps[k].SealCall?
    ensures SealsAt(run, k) <==> AllDone(run.states[k])
  {
    var s := run.states[k];
    InvAlong(config, run, k);
    StrayAlong(config, run, k);
    if s.ledger.active != {} {
      var id :| id in s.ledger.active;
      assert Held(s, id);
    }
    if CanSeal(s.ledger) {
      forall r | r in s.requests ensures s.requests[r].at.Done? {
        assert RequestFits(s.ledger, s.requests[r]);
      }
    }
  }

  // --------------------------------------------------------------- the class does the steps

  /** One step carried out on the shared ledger: the lock regions are its methods, the rest is local. */
  method Perform(l: Ledger, config: EpochConfig, h: Hasher, sign: GatewayRoot -> Signature,
                 requests: map<nat, Request>, clock: u64, step: Step)
    returns (after: map<nat, Request>, now: u64)
    requires Enabled(System(l.State(), requests, clock), step)
    modifies l
    ensures System(l.State(), after, now) == Next(config, System(old(l.State()), requests, clock), step)
  {
    after, now := requests, clock;
    match step
    case Reserve(r, taskId) =>
      var ok := l.ReserveTask(taskId);
      if ok {
        after := requests[r := Request(taskId, Reserved)];
      }
    case AppendIngress(r, len, content, outcome) =>
      var q, index := requests[r], |l.leaves|;
      var ok := l.AppendLeaf(config, Message(q.taskId, Ingress, q.at.t0, q.at.t1, len, content), outcome);
      after := requests[r := q.(at := if ok then IngressDone(index) else Failed)];
    case AppendEgress(r, len, content, outcome) =>
      var q, index := requests[r], |l.leaves|;
      var ok := l.AppendLeaf(config, Message(q.taskId, Egress, q.at.t2, q.at.t3, len, content), outcome);
      after := requests[r := q.(at := if ok then EgressDone(q.at.i, index) else Failed)];
    case Release(r) =>
      l.Release(requests[r].taskId);
      after := requests[r := requests[r].(at := Done(requests[r].at.i, requests[r].at.j))];
    case Abort(r) =>
      l.AbortEpoch(requests[r].taskId);
      after := requests[r := requests[r].(at := Aborted)];
    case SealCall =>
      var answer := l.Seal(h, sign, config);
    case ReadStart(r, time) =>
      after, now := requests[r := requests[r].(at := Started(time))], time;
    case ReadIngressEnd(r, time) =>
      after, now := requests[r := requests[r].(at := IngressReady(requests[r].at.t0, time))], time;
    case ReadUpstream(r, time) =>
      after, now := requests[r := requests[r].(at := Upstream(requests[r].at.i, time))], time;
    case ReadEgressEnd(r, time) =>
      after, now := requests[r := requests[r].(at := EgressReady(requests[r].at.i, requests[r].at.t2, time))], time;
    case Fail(r) =>
      after := requests[r := requests[r].(at := Failed)];
    case Drop(r) =>
      after := requests[r := requests[r].(at := Dropped)];
  }
}

/** What the leaves of a run say: the readings, lengths and contents of the requests' own steps. */
module GatewayRecords {
  import opened Integers
  import opened Types
  import opened Relation
  import opened RelationTheorems
  import opened RelationSemantics
  import opened Gateway
  import opened GatewayProtocol
  import C = GatewayCompleteness

  // ------------------------------------------------------------- one request's two leaves

  /** The leaf says what request r read and appended for its ingress message. */
  ghost predicate IngressRecorded(steps: seq<Step>, r: nat, leaf: GatewayLeaf) {
    var d := leaf.descriptor;
    && d.direction == Ingress && ReadStart(r, d.startedAt) in steps && ReadIngressEnd(r, d.endedAt) in steps
    && AppendIngress(r, d.encodedLen, leaf.content, Written) in steps
  }

  /** And this one for its egress message. */
  ghost predicate EgressRecorded(steps: seq<Step>, r: nat, leaf: GatewayLeaf) {
    var d := leaf.descriptor;
    && d.direction == Egress && ReadUpstream(r, d.startedAt) in steps && ReadEgressEnd(r, d.endedAt) in steps
    && AppendEgress(r, d.encodedLen, leaf.content, Written) in steps
  }

  ghost predicate IngressAt(steps: seq<Step>, r: nat, leaves: seq<GatewayLeaf>, i: nat) {
    i < |leaves| && IngressRecorded(steps, r, leaves[i])
  }

  ghost predicate EgressAt(steps: seq<Step>, r: nat, leaves: seq<GatewayLeaf>, j: nat) {
    j < |leaves| && EgressRecorded(steps, r, leaves[j])
  }

  /** What the request holds, or has put into its leaves, are its own steps' readings and arguments. */
  ghost predicate TrailFits(steps: seq<Step>, r: nat, leaves: seq<GatewayLeaf>, at: Progress) {
    match at
    case Started(t0) => ReadStart(r, t0) in steps
    case IngressReady(t0, t1) => ReadStart(r, t0) in steps && ReadIngressEnd(r, t1) in steps
    case IngressDone(i) => IngressAt(steps, r, leaves, i)
    case Upstream(i, t2) => IngressAt(steps, r, leaves, i) && ReadUpstream(r, t2) in steps
    case EgressReady(i, t2, t3) =>
      IngressAt(steps, r, leaves, i) && ReadUpstream(r, t2) in steps && ReadEgressEnd(r, t3) in steps
    case EgressDone(i, j) => IngressAt(steps, r, leaves, i) && EgressAt(steps, r, leaves, j)
    case Done(i, j) => IngressAt(steps, r, leaves, i) && EgressAt(steps, r, leaves, j)
    case _ => true
  }

  lemma TrailGrows(steps: seq<Step>, more: seq<Step>, r: nat, leaves: seq<GatewayLeaf>, grown: seq<GatewayLeaf>,
                   at: Progress)
    requires TrailFits(steps, r, leaves, at) && steps <= more && leaves <= grown
    ensures TrailFits(more, r, grown, at)
  {
    assert forall step | step in steps :: step in more;
  }

  lemma LeavesKept(config: EpochConfig, s: System, step: Step)
    requires Enabled(s, step)
    ensures s.ledger.leaves <= Next(config, s, step).ledger.leaves
  {
  }

  lemma TrailStep(config: EpochConfig, s: System, steps: seq<Step>, step: Step, r: nat)
    requires Enabled(s, step) && r in s.requests && TrailFits(steps, r, s.ledger.leaves, s.requests[r].at)
    ensures var t := Next(config, s, step);
            r in t.requests && TrailFits(steps + [step], r, t.ledger.leaves, t.requests[r].at)
  {
    var t := Next(config, s, step);
    LeavesKept(config, s, step);
    TrailGrows(steps, steps + [step], r, s.ledger.leaves, t.ledger.leaves, s.requests[r].at);
    assert step in steps + [step];
  }

  ghost predicate AllTrailsFit(s: System, steps: seq<Step>) {
    forall r | r in s.requests :: TrailFits(steps, r, s.ledger.leaves, s.requests[r].at)
  }

  lemma {:induction false} TrailsAlong(config: EpochConfig, run: Run, k: nat)
    requires IsRun(config, run) && k < |run.states|
    ensures AllTrailsFit(run.states[k], run.steps[..k])
  {
    if k == 0 {
    } else {
      TrailsAlong(config, run, k - 1);
      assert Taken(config, run, k - 1);
      var s, t, step := run.states[k - 1], run.states[k], run.steps[k - 1];
      assert run.steps[..k] == run.steps[..k - 1] + [step];
      forall r | r in t.requests ensures TrailFits(run.steps[..k], r, t.ledger.leaves, t.requests[r].at) {
        if r in s.requests {
          TrailStep(config, s, run.steps[..k - 1], step, r);
        }
      }
    }
  }

  /** The two leaves of a request that is done say what its own steps read and appended: length, content and both
      times, for each direction. */
  lemma DoneRecords(config: EpochConfig, run: Run, k: nat, r: nat)
    requires IsRun(config, run) && k < |run.states| && r in run.states[k].requests
    requires run.states[k].requests[r].at.Done?
    ensures var q, leaves := run.states[k].requests[r], run.states[k].ledger.leaves;
            && q.at.i < q.at.j < |leaves|
            && leaves[q.at.i].descriptor.taskId == leaves[q.at.j].descriptor.taskId == q.taskId
            && IngressRecorded(run.steps[..k], r, leaves[q.at.i])
            && EgressRecorded(run.steps[..k], r, leaves[q.at.j])
  {
    TrailsAlong(config, run, k);
    InvAlong(config, run, k);
    var q := run.states[k].requests[r];
    assert RequestFits(run.states[k].ledger, q);
    assert q.at.i in Positions(q.at) && q.at.j in Positions(q.at);
  }

  // -------------------------------------------------------------- each step at most once

  /** How far a request has come. */
  function Stage(at: Progress): nat {
    match at
    case Reserved => 0
    case Started(_) => 1
    case IngressReady(_, _) => 2
    case IngressDone(_) => 3
    case Upstream(_, _) => 4
    case EgressReady(_, _, _) => 5
    case EgressDone(_, _) => 6
    case Done(_, _) => 7
    case Failed => 8
    case Aborted => 9
    case Dropped => 9
  }

  /** The request a step is one of, and the stage it is taken from. */
  ghost predicate TakenFrom(step: Step, r: nat, stage: nat) {
    match step
    case ReadStart(q, _) => q == r && stage == 0
    case ReadIngressEnd(q, _) => q == r && stage == 1
    case AppendIngress(q, _, _, _) => q == r && stage == 2
    case ReadUpstream(q, _) => q == r && stage == 3
    case ReadEgressEnd(q, _) => q == r && stage == 4
    case AppendEgress(q, _, _, _) => q == r && stage == 5
    case _ => false
  }

  lemma StageStep(config: EpochConfig, s: System, step: Step, r: nat)
    requires Enabled(s, step) && r in s.requests
    ensures var t := Next(config, s, step);
            r in t.requests && Stage(s.requests[r].at) <= Stage(t.requests[r].at)
            && forall stage: nat | TakenFrom(step, r, stage) ::
                 Stage(s.requests[r].at) == stage < Stage(t.requests[r].at)
  {
  }

  lemma {:induction false} StageAlong(config: EpochConfig, run: Run, k: nat, l: nat, r: nat)
    requires IsRun(config, run) && k <= l < |run.states| && r in run.states[k].requests
    ensures r in run.states[l].requests
            && Stage(run.states[k].requests[r].at) <= Stage(run.states[l].requests[r].at)
  {
    if k == l {
    } else {
      StageAlong(config, run, k, l - 1, r);
      assert Taken(config, run, l - 1);
      StageStep(config, run.states[l - 1], run.steps[l - 1], r);
    }
  }

  /** A request reads each of its four times, and appends in each direction, at most once; so the steps its leaves
      were recorded from are the only ones of their kind. */
  lemma StepsOnce(config: EpochConfig, run: Run, k: nat, l: nat, r: nat, stage: nat)
    requires IsRun(config, run) && k < |run.steps| && l < |run.steps|
    requires TakenFrom(run.steps[k], r, stage) && TakenFrom(run.steps[l], r, stage)
    ensures k == l
  {
    if k < l {
      LaterStage(config, run, k, l, r, stage);
    } else if l < k {
      LaterStage(config, run, l, k, r, stage);
    }
  }

  lemma LaterStage(config: EpochConfig, run: Run, k: nat, l: nat, r: nat, stage: nat)
    requires IsRun(config, run) && k < l < |run.steps| && TakenFrom(run.steps[k], r, stage)
    ensures !TakenFrom(run.steps[l], r, stage)
  {
    assert Taken(config, run, k) && Taken(config, run, l);
    StageStep(config, run.states[k], run.steps[k], r);
    StageAlong(config, run, k + 1, l, r);
    if TakenFrom(run.steps[l], r, stage) {
      StageStep(config, run.states[l], run.steps[l], r);
    }
  }

  // ------------------------------------------------------------------ the ledger as a whole

  predicate IsAppend(step: Step) {
    step.AppendIngress? || step.AppendEgress?
  }

  /** The appends among these steps, in order. */
  ghost function Appends(steps: seq<Step>): seq<Step> {
    if steps == [] then []
    else
      var last := steps[|steps| - 1];
      Appends(steps[..|steps| - 1]) + if IsAppend(last) then [last] else []
  }

  /** The leaf says what this append was asked to record, for the task of its request. */
  ghost predicate FromAppend(s: System, leaf: GatewayLeaf, step: Step) {
    && IsAppend(step) && step.r in s.requests && leaf.descriptor.taskId == s.requests[step.r].taskId
    && leaf.descriptor.direction == (if step.AppendIngress? then Ingress else Egress)
    && leaf.descriptor.encodedLen == step.len && leaf.content == step.content
  }

  ghost predicate FromAppends(s: System, leaves: seq<GatewayLeaf>, appends: seq<Step>) {
    |leaves| == |appends| && forall n | 0 <= n < |leaves| :: FromAppend(s, leaves[n], appends[n])
  }

  lemma FromAppendLater(config: EpochConfig, s: System, step: Step, leaf: GatewayLeaf, append: Step)
    requires Enabled(s, step) && FromAppend(s, leaf, append)
    ensures FromAppend(Next(config, s, step), leaf, append)
  {
  }

  lemma AppendsNext(steps: seq<Step>, step: Step)
    ensures Appends(steps + [step]) == Appends(steps) + if IsAppend(step) then [step] else []
  {
    assert (steps + [step])[..|steps|] == steps;
  }

  /** An append that does not record its leaf taints the epoch. */
  lemma AppendRecords(config: EpochConfig, s: System, step: Step)
    requires Enabled(s, step) && IsAppend(step) && !Tainted(Next(config, s, step))
    ensures var t, n := Next(config, s, step), |s.ledger.leaves|;
            && |t.ledger.leaves| == n + 1 && t.ledger.leaves[..n] == s.ledger.leaves
            && FromAppend(t, t.ledger.leaves[n], step)
  {
    var t := Next(config, s, step);
    assert step.r in t.requests && !t.requests[step.r].at.Failed?;
  }

  lemma OthersRecordNothing(config: EpochConfig, s: System, step: Step)
    requires Enabled(s, step) && !IsAppend(step)
    ensures Next(config, s, step).ledger.leaves == s.ledger.leaves
  {
  }

  lemma AppendsStep(config: EpochConfig, s: System, steps: seq<Step>, step: Step)
    requires Enabled(s, step) && FromAppends(s, s.ledger.leaves, Appends(steps)) && !Tainted(Next(config, s, step))
    ensures FromAppends(Next(config, s, step), Next(config, s, step).ledger.leaves, Appends(steps + [step]))
  {
    var t := Next(config, s, step);
    AppendsNext(steps, step);
    if IsAppend(step) { AppendRecords(config, s, step); } else { OthersRecordNothing(config, s, step); }
    forall n | 0 <= n < |s.ledger.leaves| ensures FromAppend(t, t.ledger.leaves[n], Appends(steps + [step])[n]) {
      assert t.ledger.leaves[n] == s.ledger.leaves[n];
      FromAppendLater(config, s, step, s.ledger.leaves[n], Appends(steps)[n]);
    }
  }

  lemma {:induction false} LeavesAreAppends(config: EpochConfig, run: Run, k: nat)
    requires IsRun(config, run) && k < |run.states| && !Tainted(run.states[k])
    ensures FromAppends(run.states[k], run.states[k].ledger.leaves, Appends(run.steps[..k]))
  {
    if k == 0 {
    } else {
      assert Taken(config, run, k - 1);
      var s, step := run.states[k - 1], run.steps[k - 1];
      if Tainted(s) { TaintSticks(config, s, step); }
      LeavesAreAppends(config, run, k - 1);
      assert run.steps[..k] == run.steps[..k - 1] + [step];
      AppendsStep(config, s, run.steps[..k - 1], step);
    }
  }

  /** A sealed ledger is the run's appends, all of them and in their order: nothing is lost, added or altered. */
  lemma SealedLeavesAreAppends(config: EpochConfig, run: Run, k: nat)
    requires IsRun(config, run) && SealsAt(run, k)
    ensures FromAppends(run.states[k], run.states[k].ledger.leaves, Appends(run.steps[..k]))
  {
    InvAlong(config, run, k);
    if Tainted(run.states[k]) { TaintedNeverSeals(config, run.states[k]); }
    LeavesAreAppends(config, run, k);
  }

  // -------------------------------------------------------------------------- bit totals

  /** The bytes the run's appends of one direction were asked to record. */
  ghost function AppendedLen(appends: seq<Step>, direction: Direction): nat {
    if appends == [] then 0
    else
      var last := appends[|appends| - 1];
      AppendedLen(appends[..|appends| - 1], direction)
      + match last
        case AppendIngress(_, len, _, _) => if direction == Ingress then len else 0
        case AppendEgress(_, len, _, _) => if direction == Egress then len else 0
        case _ => 0
  }

  lemma {:induction false} TotalIsAppended(s: System, leaves: seq<GatewayLeaf>, appends: seq<Step>,
                                           direction: Direction)
    requires FromAppends(s, leaves, appends)
    ensures TotalLen(leaves, direction) == AppendedLen(appends, direction)
  {
    if leaves == [] {
    } else {
      var n := |leaves| - 1;
      assert FromAppend(s, leaves[n], appends[n]);
      TotalIsAppended(s, leaves[..n], appends[..n], direction);
    }
  }

  /** So `validate_gateway` finds for a sealed epoch eight bits for every byte its requests appended, by direction. */
  lemma SealedBits(c: Primitives, config: EpochConfig, run: Run, k: nat, sign: GatewayRoot -> Signature,
                   policy: MonitoringPolicy, epoch: EpochStatement, key: PublicKey)
    requires IsRun(config, run) && SealsAt(run, k) && C.EpochMatches(config, epoch) && ValidatePolicy(policy).Ok?
    requires config.programId != ""
    requires c.verifyGateway(SealedResponse(c.hasher, sign, config, run.states[k].ledger.leaves).signedRoot, key)
    ensures var leaves, appends := run.states[k].ledger.leaves, Appends(run.steps[..k]);
            var r := ValidateGateway(c, policy, epoch, SealedResponse(c.hasher, sign, config, leaves).signedRoot, key,
                                     leaves);
            && (r.Ok? <==> 8 * AppendedLen(appends, Ingress) <= U64_MAX && 8 * AppendedLen(appends, Egress) <= U64_MAX)
            && (r.Ok? ==> r.value.ingress == 8 * AppendedLen(appends, Ingress)
                          && r.value.egress == 8 * AppendedLen(appends, Egress))
  {
    var leaves, appends := run.states[k].ledger.leaves, Appends(run.steps[..k]);
    SealImpliesPaired(config, run, k);
    SealedLeavesAreAppends(config, run, k);
    TotalIsAppended(run.states[k], leaves, appends, Ingress);
    TotalIsAppended(run.states[k], leaves, appends, Egress);
    C.SealedValidates(c, config, run.states[k].ledger, sign, policy, epoch, key);
  }
}

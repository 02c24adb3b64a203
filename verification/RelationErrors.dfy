/** Which error the evaluators answer with: that of the first constraint that fails. */
module RelationErrors {
  import opened Integers
  import opened Outcomes
  import opened NumberTheory
  import opened Types
  import opened Ordering
  import opened Sampling
  import opened Commitment
  import opened Relation
  import opened RelationTheorems
  import opened RelationSemantics

  // ---------------------------------------------------------------------- the gateway part

  /** The first leaf from k on that does not fit, and why; the totals are those of the ledger up to it. */
  ghost function LeafFailure(leaves: seq<GatewayLeaf>, k: nat, epoch: EpochStatement, gatewayId: string)
    : Option<RelationError>
    requires k <= |leaves|
    decreases |leaves| - k
  {
    if k == |leaves| then None
    else if !DescriptorFits(leaves[k].descriptor, epoch, gatewayId) then Some(Descriptor)
    else if leaves[k].descriptor.sequence != k then Some(Sequence)
    else if 8 * TotalLen(leaves[..k + 1], leaves[k].descriptor.direction) > U64_MAX then Some(AccountingOverflow)
    else LeafFailure(leaves, k + 1, epoch, gatewayId)
  }

  lemma {:induction false} AccountFails(epoch: EpochStatement, gatewayId: string, leaves: seq<GatewayLeaf>, k: nat,
                                        totals: Totals)
    requires k <= |leaves| <= U64_MAX && (totals.ingress, totals.egress) == BitTotals(leaves, k)
    ensures var r, e := AccountFrom(epoch, gatewayId, leaves, k, totals), LeafFailure(leaves, k, epoch, gatewayId);
            && (r.Err? <==> e.Some?) && (r.Err? ==> r.error == e.value)
    decreases |leaves| - k
  {
    if k == |leaves| {
    } else {
      PrefixStep(leaves, k, Ingress);
      PrefixStep(leaves, k, Egress);
      ModSmall(k, TWO_64);
      var next := AccountLeaf(epoch, gatewayId, leaves[k], k, totals);
      if next.Ok? {
        AccountFails(epoch, gatewayId, leaves, k + 1, next.value);
      }
    }
  }

  /** What is wrong with the policy, the epoch and the signed statement, and with the root it signs. */
  ghost function SignedFailure(c: Primitives, policy: MonitoringPolicy, epoch: EpochStatement,
                               signed: SignedGatewayRoot, key: PublicKey, leaves: seq<GatewayLeaf>)
    : Option<RelationError>
  {
    var s := signed.statement;
    if policy.protocolVersion != PROTOCOL_VERSION then Some(ProtocolVersion)
    else if BadLimits(policy) then Some(PolicyInvalid)
    else if epoch.protocolVersion != PROTOCOL_VERSION || epoch.closedAt <= epoch.openedAt then Some(EpochInvalid)
    else if !c.verifyGateway(signed, key) then Some(GatewaySignature)
    else if s.protocolVersion != PROTOCOL_VERSION || s.podId != epoch.podId || s.incarnationId != epoch.incarnationId
            || s.epochId != epoch.epochId then Some(GatewayStatement)
    else if s.leafCount != |leaves| || s.root != MerkleRoot(c.hasher, leaves) then Some(GatewayRootMismatch)
    else None
  }

  ghost predicate BadLimits(policy: MonitoringPolicy) {
    || policy.pod.eraseIntervalNs == 0 || policy.task.sampleDenominator == 0
    || policy.task.sampleNumerator > policy.task.sampleDenominator
  }

  ghost function GatewayFailure(c: Primitives, policy: MonitoringPolicy, epoch: EpochStatement,
                                signed: SignedGatewayRoot, key: PublicKey, leaves: seq<GatewayLeaf>)
    : Option<RelationError>
  {
    var before := SignedFailure(c, policy, epoch, signed, key, leaves);
    if before.Some? then before else LeafFailure(leaves, 0, epoch, signed.statement.gatewayId)
  }

  lemma SignedFails(c: Primitives, policy: MonitoringPolicy, epoch: EpochStatement, signed: SignedGatewayRoot,
                    key: PublicKey, leaves: seq<GatewayLeaf>)
    requires |leaves| <= U64_MAX
    ensures var r, e := ValidateGateway(c, policy, epoch, signed, key, leaves),
                        SignedFailure(c, policy, epoch, signed, key, leaves);
            && (e.Some? ==> r == Err(e.value))
            && (e.None? ==> r == AccountFrom(epoch, signed.statement.gatewayId, leaves, 0, Totals(0, 0)))
  {
    ModSmall(|leaves|, TWO_64);
  }

  lemma GatewayFails(c: Primitives, policy: MonitoringPolicy, epoch: EpochStatement, signed: SignedGatewayRoot,
                     key: PublicKey, leaves: seq<GatewayLeaf>)
    requires |leaves| <= U64_MAX
    ensures var r, e := ValidateGateway(c, policy, epoch, signed, key, leaves),
                        GatewayFailure(c, policy, epoch, signed, key, leaves);
            && (r.Err? <==> e.Some?) && (r.Err? ==> r.error == e.value)
  {
    SignedFails(c, policy, epoch, signed, key, leaves);
    assert leaves[..0] == [];
    AccountFails(epoch, signed.statement.gatewayId, leaves, 0, Totals(0, 0));
  }

  // -------------------------------------------------------------------------- the Pod part

  ghost function PodFailure(c: Primitives, input: PodRelationInput): Option<RelationError> {
    var gateway := GatewayFailure(c, input.policy, input.epoch, input.gatewayRoot, input.gatewayKey, input.leaves);
    var pod, epoch := input.policy.pod, input.epoch;
    if gateway.Some? then gateway
    else if 8 * TotalLen(input.leaves, Ingress) > pod.maxIngressBits then Some(PodIngress)
    else if 8 * TotalLen(input.leaves, Egress) > pod.maxEgressBits then Some(PodEgress)
    else if epoch.closedAt - epoch.openedAt > pod.eraseIntervalNs then Some(ErasureSchedule)
    else if pod.podCapacityPerHour * (epoch.closedAt - epoch.openedAt) >= (pod.maxCompute + 1) * NS_PER_HOUR
    then Some(PodCompute)
    else if !ErasureHolds(epoch, input.erasure.certificate) then Some(ErasureCertificateInvalid)
    else None
  }

  /** `evaluate_pod_relation` refuses with the error of the first constraint that fails. */
  lemma PodRefusesExactly(c: Primitives, input: PodRelationInput)
    requires |input.leaves| <= U64_MAX
    ensures match PodFailure(c, input)
            case None => EvaluatePodRelation(c, input).Ok?
            case Some(error) => EvaluatePodRelation(c, input) == Err(error)
  {
    GatewayFails(c, input.policy, input.epoch, input.gatewayRoot, input.gatewayKey, input.leaves);
    GatewayExact(c, input.policy, input.epoch, input.gatewayRoot, input.gatewayKey, input.leaves);
    FloorBelow(input.policy.pod.podCapacityPerHour * (input.epoch.closedAt - input.epoch.openedAt),
               input.policy.pod.maxCompute);
  }

  // ------------------------------------------------------------------------- the Task part

  /** The first leaf from k on of another program or epoch, or that repeats a direction of its task. */
  ghost function GroupFailure(leaves: seq<GatewayLeaf>, k: nat, programId: string, epochId: Option<string>)
    : Option<RelationError>
    requires k <= |leaves|
    decreases |leaves| - k
  {
    if k == |leaves| then None
    else if !ProgramFits(leaves[k].descriptor, programId, epochId) then Some(Descriptor)
    else if !FreshAt(leaves, k) then Some(TaskCompleteness)
    else GroupFailure(leaves, k + 1, programId, epochId)
  }

  lemma {:induction false} GroupFails(leaves: seq<GatewayLeaf>, k: nat, programId: string, epochId: Option<string>,
                                      g: Grouped)
    requires k <= |leaves| && Holds(g, leaves[..k])
    ensures var r, e := GroupFrom(leaves, programId, epochId, k, g), GroupFailure(leaves, k, programId, epochId);
            && (r.Err? <==> e.Some?) && (r.Err? ==> r.error == e.value)
    decreases |leaves| - k
  {
    if k == |leaves| {
    } else {
      GroupFromUnfolds(leaves, programId, epochId, k, g);
      GroupStepExact(leaves, k, g);
      GroupLeafErrs(g, leaves[k]);
      var step := GroupLeaf(g, leaves[k]);
      if step.Ok? {
        GroupFails(leaves, k + 1, programId, epochId, step.value);
      }
    }
  }

  lemma GroupLeafErrs(g: Grouped, leaf: GatewayLeaf)
    ensures GroupLeaf(g, leaf).Err? ==> GroupLeaf(g, leaf).error == TaskCompleteness
  {
  }

  lemma GroupingFails(leaves: seq<GatewayLeaf>, programId: string, epochId: Option<string>)
    ensures var r, e := GroupFrom(leaves, programId, epochId, 0, EMPTY_GROUPED),
                        GroupFailure(leaves, 0, programId, epochId);
            && (r.Err? <==> e.Some?) && (r.Err? ==> r.error == e.value)
  {
    assert leaves[..0] == [];
    assert Filled(EMPTY_GROUPED, Ingress) == {} && Filled(EMPTY_GROUPED, Egress) == {};
    GroupFails(leaves, 0, programId, epochId, EMPTY_GROUPED);
  }

  /** What is wrong with the program and the auxiliary input. */
  ghost function ProgramFailure(c: Primitives, input: TaskRelationInput): Option<RelationError> {
    if c.programCommitment(input.program) != input.epoch.taskProgramCommitment then Some(TaskProgramCommitment)
    else if input.program.protocolVersion != PROTOCOL_VERSION || input.program.taskListProgram != EXACT_PAIRING_PROGRAM
    then Some(TaskProgramInvalid)
    else if input.policy.task.auxMaxBits != 0 || input.aux != [] || input.epoch.auxCommitment != c.emptyAux
    then Some(AuxiliaryInput)
    else if input.program.maxCompute > input.policy.task.maxCompute then Some(TaskCompute)
    else None
  }

  /** What is wrong with the tasks, before the pairs are looked at. */
  ghost function TasksFailure(policy: TaskPolicy, programId: string, leaves: seq<GatewayLeaf>): Option<RelationError> {
    var group := GroupFailure(leaves, 0, programId, None);
    if group.Some? then group
    else if !EveryLeafPaired(leaves) then Some(TaskCompleteness)
    else if |leaves| > 2 * policy.maxTasks then Some(TaskCount)
    else None
  }

  ghost function HeadFailure(c: Primitives, input: TaskRelationInput): Option<RelationError> {
    var gateway := GatewayFailure(c, input.policy, input.epoch, input.gatewayRoot, input.gatewayKey, input.leaves);
    if gateway.Some? then gateway
    else if ProgramFailure(c, input).Some? then ProgramFailure(c, input)
    else TasksFailure(input.policy.task, input.program.programId, input.leaves)
  }

  /** What is wrong with the two leaves of one task. */
  ghost function PairFailure(policy: TaskPolicy, ingress: GatewayLeaf, egress: GatewayLeaf): Option<RelationError> {
    var i, e := ingress.descriptor, egress.descriptor;
    if i.sequence >= e.sequence || i.endedAt > e.startedAt then Some(TaskOrder)
    else if 8 * i.encodedLen > policy.maxIngressBits then Some(TaskIngress)
    else if 8 * e.encodedLen > policy.maxEgressBits then Some(TaskEgress)
    else None
  }

  ghost predicate PairOkAt(policy: TaskPolicy, leaves: seq<GatewayLeaf>, i: int, j: int) {
    PartnersAt(leaves, i, j) && PairFailure(policy, leaves[i], leaves[j]).None?
  }

  ghost predicate PairFailsAt(policy: TaskPolicy, leaves: seq<GatewayLeaf>, i: int, j: int, error: RelationError) {
    PartnersAt(leaves, i, j) && PairFailure(policy, leaves[i], leaves[j]) == Some(error)
  }

  /** This is wrong with the first task, in the order of the ids, with which something is wrong. */
  ghost predicate FirstPairFails(policy: TaskPolicy, leaves: seq<GatewayLeaf>, error: RelationError) {
    exists i, j ::
      && PairFailsAt(policy, leaves, i, j, error)
      && forall k, l | PartnersAt(leaves, k, l) && Before(leaves[k].descriptor.taskId, leaves[i].descriptor.taskId) ::
           PairOkAt(policy, leaves, k, l)
  }

  /** What `evaluate_task_relation` refuses with. */
  ghost predicate TaskFails(c: Primitives, input: TaskRelationInput, error: RelationError) {
    var head, statements := HeadFailure(c, input), input.sampledStatements;
    if head.Some? then error == head.value
    else if exists i, j :: PartnersAt(input.leaves, i, j) && !PairOkAt(input.policy.task, input.leaves, i, j)
    then FirstPairFails(input.policy.task, input.leaves, error)
    else if exists id :: !(id in statements <==> Chosen(c, input, id)) then error == SampleSet
    else error == ZkTorchBinding && !StatementsHold(c, input)
  }

  lemma {:induction false} PairsFail(policy: TaskPolicy, order: seq<string>, entries: map<string, TaskLeaves>)
    returns (n: nat)
    requires forall id | id in order :: id in entries && entries[id].Complete()
    requires CheckPairs(policy, order, entries).Err?
    ensures n < |order| && CheckPair(policy, entries[order[n]]) == CheckPairs(policy, order, entries)
    ensures forall m | 0 <= m < n :: CheckPair(policy, entries[order[m]]).Ok?
  {
    assert order[0] in order;
    if CheckPair(policy, entries[order[0]]).Ok? {
      var m := PairsFail(policy, order[1..], entries);
      n := m + 1;
    } else {
      n := 0;
    }
  }

  lemma LenWithinTotal(leaves: seq<GatewayLeaf>, k: nat)
    requires TotalsFit(leaves) && k < |leaves|
    ensures 8 * leaves[k].descriptor.encodedLen <= U64_MAX
  {
    var direction := leaves[k].descriptor.direction;
    PrefixStep(leaves, k, direction);
    TotalLenGrows(leaves, k + 1, direction);
  }

  lemma PairChecked(policy: TaskPolicy, leaves: seq<GatewayLeaf>, i: nat, j: nat)
    requires TotalsFit(leaves) && PartnersAt(leaves, i, j)
    ensures var r, e := CheckPair(policy, TaskLeaves(Some(leaves[i]), Some(leaves[j]))),
                        PairFailure(policy, leaves[i], leaves[j]);
            && (r.Err? <==> e.Some?) && (r.Err? ==> r.error == e.value)
  {
    LenWithinTotal(leaves, i);
    LenWithinTotal(leaves, j);
  }

  lemma EarlierPairOk(policy: TaskPolicy, g: Grouped, leaves: seq<GatewayLeaf>, n: nat, k: nat, l: nat)
    requires Slotted(g, leaves) && IsBTree(g) && AllComplete(g) && TotalsFit(leaves)
    requires n < |g.order| && forall m | 0 <= m < n :: CheckPair(policy, g.entries[g.order[m]]).Ok?
    requires PartnersAt(leaves, k, l) && Before(leaves[k].descriptor.taskId, g.order[n])
    ensures PairOkAt(policy, leaves, k, l)
  {
    EntryOfPartners(g, leaves, k, l);
    PairChecked(policy, leaves, k, l);
    var id := leaves[k].descriptor.taskId;
    assert id in g.order;
    var m :| 0 <= m < |g.order| && g.order[m] == id;
    Trichotomy(id, g.order[n]);
    assert m < n;
  }

  lemma FirstPairFailing(policy: TaskPolicy, g: Grouped, leaves: seq<GatewayLeaf>)
    requires Slotted(g, leaves) && Sourced(g, leaves) && IsBTree(g) && AllComplete(g) && TotalsFit(leaves)
    requires CheckPairs(policy, g.order, g.entries).Err?
    ensures FirstPairFails(policy, leaves, CheckPairs(policy, g.order, g.entries).error)
  {
    var n := PairsFail(policy, g.order, g.entries);
    assert g.order[n] in g.order;
    var i, j := PartnersOfEntry(g, leaves, g.order[n]);
    PairChecked(policy, leaves, i, j);
    forall k, l | PartnersAt(leaves, k, l) && Before(leaves[k].descriptor.taskId, leaves[i].descriptor.taskId)
      ensures PairOkAt(policy, leaves, k, l)
    {
      EarlierPairOk(policy, g, leaves, n, k, l);
    }
    assert PairFailsAt(policy, leaves, i, j, CheckPairs(policy, g.order, g.entries).error);
  }

  lemma PairsPass(policy: TaskPolicy, g: Grouped, leaves: seq<GatewayLeaf>, i: nat, j: nat)
    requires Slotted(g, leaves) && IsBTree(g) && AllComplete(g) && TotalsFit(leaves) && PartnersAt(leaves, i, j)
    requires CheckPairs(policy, g.order, g.entries).Ok?
    ensures PairOkAt(policy, leaves, i, j)
  {
    CheckPairsEach(policy, g.order, g.entries);
    EntryOfPartners(g, leaves, i, j);
    PairChecked(policy, leaves, i, j);
  }

  /** The pair loop refuses exactly when some pair is wrong, with what is wrong with the first. */
  lemma PairLoopFails(policy: TaskPolicy, g: Grouped, leaves: seq<GatewayLeaf>)
    requires Slotted(g, leaves) && Sourced(g, leaves) && IsBTree(g) && AllComplete(g) && TotalsFit(leaves)
    ensures var r := CheckPairs(policy, g.order, g.entries);
            && (r.Err? <==> exists i, j :: PartnersAt(leaves, i, j) && !PairOkAt(policy, leaves, i, j))
            && (r.Err? ==> FirstPairFails(policy, leaves, r.error))
  {
    if CheckPairs(policy, g.order, g.entries).Err? {
      FirstPairFailing(policy, g, leaves);
    } else {
      forall i, j | PartnersAt(leaves, i, j) ensures PairOkAt(policy, leaves, i, j) {
        PairsPass(policy, g, leaves, i, j);
      }
    }
  }

  /** The tasks as the evaluator groups and counts them. */
  lemma TasksFail(policy: TaskPolicy, programId: string, leaves: seq<GatewayLeaf>)
    requires |leaves| <= U64_MAX
    ensures var group, e := GroupFrom(leaves, programId, None, 0, EMPTY_GROUPED),
                            TasksFailure(policy, programId, leaves);
            && (group.Err? ==> e == Some(group.error))
            && (group.Ok? ==> Holds(group.value, leaves) && IsBTree(group.value))
            && (group.Ok? && !AllComplete(group.value) ==> e == Some(TaskCompleteness))
            && (group.Ok? && AllComplete(group.value) ==>
                  e == if AsU64(|group.value.order|) > policy.maxTasks then Some(TaskCount) else None)
  {
    var group := GroupFrom(leaves, programId, None, 0, EMPTY_GROUPED);
    GroupingFails(leaves, programId, None);
    GroupExact(leaves, programId, None);
    if group.Ok? {
      GroupFromKeepsBTree(leaves, programId, None, 0, EMPTY_GROUPED);
      CompleteIffPaired(group.value, leaves);
      if AllComplete(group.value) {
        PairedCounts(group.value, leaves);
        ModSmall(|group.value.order|, TWO_64);
      }
    }
  }

  lemma HeaderRefuses(c: Primitives, input: TaskRelationInput)
    ensures var gateway := ValidateGateway(c, input.policy, input.epoch, input.gatewayRoot, input.gatewayKey,
                                           input.leaves);
            && (gateway.Err? ==> PairTasks(c, input) == Err(gateway.error))
            && (gateway.Ok? && ProgramFailure(c, input).Some? ==>
                  PairTasks(c, input) == Err(ProgramFailure(c, input).value))
  {
  }

  /** Past the header, the tasks and then the pairs decide. */
  lemma TasksDecide(c: Primitives, input: TaskRelationInput)
    requires |input.leaves| <= U64_MAX && ProgramFailure(c, input).None?
    requires ValidateGateway(c, input.policy, input.epoch, input.gatewayRoot, input.gatewayKey, input.leaves).Ok?
    ensures var e := TasksFailure(input.policy.task, input.program.programId, input.leaves);
            e.Some? ==> PairTasks(c, input) == Err(e.value)
  {
    TasksFail(input.policy.task, input.program.programId, input.leaves);
  }

  lemma PairsDecide(c: Primitives, input: TaskRelationInput, g: Grouped)
    requires ProgramFailure(c, input).None?
    requires ValidateGateway(c, input.policy, input.epoch, input.gatewayRoot, input.gatewayKey, input.leaves).Ok?
    requires GroupFrom(input.leaves, input.program.programId, None, 0, EMPTY_GROUPED) == Ok(g)
    requires IsBTree(g) && AllComplete(g) && AsU64(|g.order|) <= input.policy.task.maxTasks
    ensures var pairs := CheckPairs(input.policy.task, g.order, g.entries);
            && (pairs.Err? ==> PairTasks(c, input) == Err(pairs.error))
            && (pairs.Ok? ==> PairTasks(c, input).Ok?)
  {
  }

  /** What comes after the head refuses with the first wrong pair, or the statements. */
  lemma TailFails(c: Primitives, input: TaskRelationInput)
    requires |input.leaves| <= U64_MAX && HeadFailure(c, input).None? && EvaluateTaskRelation(c, input).Err?
    ensures TaskFails(c, input, EvaluateTaskRelation(c, input).error)
  {
    GatewayFails(c, input.policy, input.epoch, input.gatewayRoot, input.gatewayKey, input.leaves);
    GatewayExact(c, input.policy, input.epoch, input.gatewayRoot, input.gatewayKey, input.leaves);
    TasksFail(input.policy.task, input.program.programId, input.leaves);
    var g := GroupFrom(input.leaves, input.program.programId, None, 0, EMPTY_GROUPED).value;
    PairsDecide(c, input, g);
    PairLoopFails(input.policy.task, g, input.leaves);
    if PairTasks(c, input).Ok? {
      StatementsFail(c, input);
    }
  }

  lemma StatementsFail(c: Primitives, input: TaskRelationInput)
    requires |input.leaves| <= U64_MAX && PairTasks(c, input).Ok? && EvaluateTaskRelation(c, input).Err?
    ensures var error := EvaluateTaskRelation(c, input).error;
            if exists id :: !(id in input.sampledStatements <==> Chosen(c, input, id)) then error == SampleSet
            else error == ZkTorchBinding && !StatementsHold(c, input)
  {
    AcceptsExactlyDerived(c, input);
    StatementsExact(c, input);
    PairedGroups(c, input);
    var g := PairTasks(c, input).value.grouped;
    var sampled := Sampled(c, input.policy, input.epoch, g);
    forall id ensures id in sampled <==> Chosen(c, input, id) {
      SampledIsChosen(c, input, g, id);
    }
    StatementErrors(c, input, sampled);
  }

  lemma StatementErrors(c: Primitives, input: TaskRelationInput, sampled: seq<string>)
    requires PairTasks(c, input).Ok? && EvaluateTaskRelation(c, input).Err?
    requires sampled == Sampled(c, input.policy, input.epoch, PairTasks(c, input).value.grouped)
    ensures var error := EvaluateTaskRelation(c, input).error;
            if exists id :: !(id in input.sampledStatements <==> id in sampled) then error == SampleSet
            else error == ZkTorchBinding
  {
    var keys := input.sampledStatements.Keys;
    if keys == (set id | id in sampled) {
      assert forall id :: id in input.sampledStatements <==> id in (set id | id in sampled);
      BindErrs(input, PairTasks(c, input).value.grouped.entries, sampled);
    } else {
      assert exists id :: !(id in input.sampledStatements <==> id in sampled);
    }
  }

  lemma {:induction false} BindErrs(input: TaskRelationInput, entries: map<string, TaskLeaves>, sampled: seq<string>)
    requires forall id | id in sampled :: id in entries && entries[id].Complete() && id in input.sampledStatements
    ensures var r := BindStatements(input, entries, sampled); r.Err? ==> r.error == ZkTorchBinding
  {
    if sampled == [] {
    } else {
      assert sampled[0] in sampled;
      BindErrs(input, entries, sampled[1..]);
    }
  }

  /** `evaluate_task_relation` refuses with the error of the first constraint that fails. */
  lemma TaskRefusesExactly(c: Primitives, input: TaskRelationInput)
    requires |input.leaves| <= U64_MAX && EvaluateTaskRelation(c, input).Err?
    ensures TaskFails(c, input, EvaluateTaskRelation(c, input).error)
  {
    if HeadFailure(c, input).Some? {
      HeadRefuses(c, input);
    } else {
      TailFails(c, input);
    }
  }

  lemma HeadRefuses(c: Primitives, input: TaskRelationInput)
    requires |input.leaves| <= U64_MAX && HeadFailure(c, input).Some?
    ensures EvaluateTaskRelation(c, input) == Err(HeadFailure(c, input).value)
  {
    GatewayFails(c, input.policy, input.epoch, input.gatewayRoot, input.gatewayKey, input.leaves);
    HeaderRefuses(c, input);
    if ValidateGateway(c, input.policy, input.epoch, input.gatewayRoot, input.gatewayKey, input.leaves).Ok?
       && ProgramFailure(c, input).None?
    {
      TasksDecide(c, input);
    }
  }

  // ---------------------------------------------------------------------- the deriving side

  ghost function DerivationFailure(policy: MonitoringPolicy, epoch: EpochStatement, program: TaskProgram,
                                   leaves: seq<GatewayLeaf>): Option<RelationError>
  {
    var group := GroupFailure(leaves, 0, program.programId, Some(epoch.epochId));
    if policy.protocolVersion != PROTOCOL_VERSION then Some(ProtocolVersion)
    else if BadLimits(policy) then Some(PolicyInvalid)
    else if program.protocolVersion != PROTOCOL_VERSION || program.taskListProgram != EXACT_PAIRING_PROGRAM
    then Some(TaskProgramInvalid)
    else if group.Some? then group
    else if !EveryLeafPaired(leaves) then Some(TaskCompleteness)
    else None
  }

  /** `sampled_zktorch_statements` succeeds on every well-paired ledger of the program and epoch, and refuses the
      others with the error of the first constraint that fails. */
  lemma DerivationRefusesExactly(c: Primitives, policy: MonitoringPolicy, epoch: EpochStatement, program: TaskProgram,
                                 leaves: seq<GatewayLeaf>)
    ensures match DerivationFailure(policy, epoch, program, leaves)
            case None => SampledZkTorchStatements(c, policy, epoch, program, leaves).Ok?
            case Some(error) => SampledZkTorchStatements(c, policy, epoch, program, leaves) == Err(error)
  {
    GroupedOrFails(leaves, program.programId, Some(epoch.epochId));
  }

  lemma GroupedOrFails(leaves: seq<GatewayLeaf>, programId: string, epochId: Option<string>)
    ensures var r, e := GroupFrom(leaves, programId, epochId, 0, EMPTY_GROUPED),
                        GroupFailure(leaves, 0, programId, epochId);
            && (r.Err? <==> e.Some?) && (r.Err? ==> r.error == e.value)
            && (r.Ok? ==> (AllComplete(r.value) <==> EveryLeafPaired(leaves)))
  {
    GroupingFails(leaves, programId, epochId);
    GroupExact(leaves, programId, epochId);
    if GroupFrom(leaves, programId, epochId, 0, EMPTY_GROUPED).Ok? {
      CompleteIffPaired(GroupFrom(leaves, programId, epochId, 0, EMPTY_GROUPED).value, leaves);
    }
  }
}

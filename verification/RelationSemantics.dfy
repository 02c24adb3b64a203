/** The Pod and Task relations as properties of a ledger, and that the evaluators decide exactly these. */
module RelationSemantics {
  import opened Integers
  import opened Outcomes
  import opened NumberTheory
  import opened Types
  import opened Ordering
  import opened Selections
  import opened Sampling
  import opened Commitment
  import opened MerklePadding
  import opened Relation
  import opened RelationTheorems

  // ------------------------------------------------------------------ the gateway part

  ghost predicate TotalsFit(leaves: seq<GatewayLeaf>) {
    8 * TotalLen(leaves, Ingress) <= U64_MAX && 8 * TotalLen(leaves, Egress) <= U64_MAX
  }

  ghost predicate AllLeavesFit(leaves: seq<GatewayLeaf>, epoch: EpochStatement, gatewayId: string) {
    forall k | 0 <= k < |leaves| :: LeafFits(leaves, k, epoch, gatewayId)
  }

  /** Policy, epoch and signed statement agree, apart from the ledger. */
  ghost predicate HeaderHolds(c: Primitives, policy: MonitoringPolicy, epoch: EpochStatement, signed: SignedGatewayRoot,
                              key: PublicKey)
  {
    var s := signed.statement;
    && policy.protocolVersion == epoch.protocolVersion == s.protocolVersion == PROTOCOL_VERSION
    && policy.pod.eraseIntervalNs > 0 && policy.task.sampleNumerator <= policy.task.sampleDenominator
    && policy.task.sampleDenominator > 0 && epoch.openedAt < epoch.closedAt
    && c.verifyGateway(signed, key)
    && s.podId == epoch.podId && s.incarnationId == epoch.incarnationId && s.epochId == epoch.epochId
  }

  /** The ledger is the one the signed root commits to, in an epoch it fits. */
  ghost predicate GatewayHolds(c: Primitives, policy: MonitoringPolicy, epoch: EpochStatement,
                               signed: SignedGatewayRoot, key: PublicKey, leaves: seq<GatewayLeaf>)
  {
    && HeaderHolds(c, policy, epoch, signed, key)
    && signed.statement.leafCount == |leaves| && signed.statement.root == MerkleRoot(c.hasher, leaves)
    && AllLeavesFit(leaves, epoch, signed.statement.gatewayId) && TotalsFit(leaves)
  }

  lemma ValidateSteps(c: Primitives, policy: MonitoringPolicy, epoch: EpochStatement, signed: SignedGatewayRoot,
                      key: PublicKey, leaves: seq<GatewayLeaf>)
    ensures var r, a := ValidateGateway(c, policy, epoch, signed, key, leaves),
                        AccountFrom(epoch, signed.statement.gatewayId, leaves, 0, Totals(0, 0));
            && (r.Ok? <==> HeaderHolds(c, policy, epoch, signed, key) && signed.statement.leafCount == AsU64(|leaves|)
                           && signed.statement.root == MerkleRoot(c.hasher, leaves) && a.Ok?)
            && (r.Ok? ==> r == a)
  {
  }

  lemma GatewayExact(c: Primitives, policy: MonitoringPolicy, epoch: EpochStatement, signed: SignedGatewayRoot,
                     key: PublicKey, leaves: seq<GatewayLeaf>)
    requires |leaves| <= U64_MAX
    ensures var r := ValidateGateway(c, policy, epoch, signed, key, leaves);
            && (r.Ok? <==> GatewayHolds(c, policy, epoch, signed, key, leaves))
            && (r.Ok? ==> r.value.ingress == 8 * TotalLen(leaves, Ingress)
                          && r.value.egress == 8 * TotalLen(leaves, Egress))
  {
    ValidateSteps(c, policy, epoch, signed, key, leaves);
    AccountExact(epoch, signed.statement.gatewayId, leaves);
    ModSmall(|leaves|, TWO_64);
  }

  // --------------------------------------------------------------------- the Pod part

  const NS_PER_HOUR: int := 3_600_000_000_000

  ghost predicate ErasureHolds(epoch: EpochStatement, e: ErasureCertificate) {
    && e.protocolVersion == PROTOCOL_VERSION && e.logicalPodId == epoch.podId
    && e.oldIncarnationId == epoch.incarnationId != e.newIncarnationId
    && epoch.closedAt <= e.boundaryAt <= e.oldDestroyedAt <= e.newStartedAt
    && e.oldImageDigest != "" && e.newImageDigest != ""
  }

  ghost predicate PodHolds(c: Primitives, input: PodRelationInput) {
    var pod, epoch := input.policy.pod, input.epoch;
    && GatewayHolds(c, input.policy, epoch, input.gatewayRoot, input.gatewayKey, input.leaves)
    && 8 * TotalLen(input.leaves, Ingress) <= pod.maxIngressBits
    && 8 * TotalLen(input.leaves, Egress) <= pod.maxEgressBits
    && epoch.closedAt - epoch.openedAt <= pod.eraseIntervalNs
    && pod.podCapacityPerHour * (epoch.closedAt - epoch.openedAt) < (pod.maxCompute + 1) * NS_PER_HOUR
    && ErasureHolds(epoch, input.erasure.certificate)
  }

  lemma FloorBelow(x: int, m: int)
    ensures x / NS_PER_HOUR <= m <==> x < (m + 1) * NS_PER_HOUR
  {
  }

  /** `evaluate_pod_relation` accepts exactly the inputs of the Pod relation. */
  lemma PodAcceptsExactly(c: Primitives, input: PodRelationInput)
    requires |input.leaves| <= U64_MAX
    ensures EvaluatePodRelation(c, input).Ok? <==> PodHolds(c, input)
  {
    GatewayExact(c, input.policy, input.epoch, input.gatewayRoot, input.gatewayKey, input.leaves);
    FloorBelow(input.policy.pod.podCapacityPerHour * (input.epoch.closedAt - input.epoch.openedAt),
               input.policy.pod.maxCompute);
  }

  // -------------------------------------------------------------------------- pairing

  ghost predicate LeafCapped(policy: TaskPolicy, leaf: GatewayLeaf) {
    8 * leaf.descriptor.encodedLen
    <= if leaf.descriptor.direction == Ingress then policy.maxIngressBits else policy.maxEgressBits
  }

  ghost predicate AllCapped(policy: TaskPolicy, leaves: seq<GatewayLeaf>) {
    forall k | 0 <= k < |leaves| :: LeafCapped(policy, leaves[k])
  }

  ghost predicate PartnersAt(leaves: seq<GatewayLeaf>, i: int, j: int) {
    0 <= i < |leaves| && 0 <= j < |leaves| && Partners(leaves[i], leaves[j])
  }

  /** The ingress leaf of every task stands before its egress leaf. */
  ghost predicate OrderedInLedger(leaves: seq<GatewayLeaf>) {
    forall i, j | PartnersAt(leaves, i, j) :: i < j
  }

  lemma EntryOfPartners(g: Grouped, leaves: seq<GatewayLeaf>, i: nat, j: nat)
    requires Slotted(g, leaves) && PartnersAt(leaves, i, j)
    ensures var id := leaves[i].descriptor.taskId;
            id in g.entries && g.entries[id] == TaskLeaves(Some(leaves[i]), Some(leaves[j]))
  {
    assert SlotOf(g, leaves[i]) == Some(leaves[i]) && SlotOf(g, leaves[j]) == Some(leaves[j]);
  }

  lemma PartnersOfEntry(g: Grouped, leaves: seq<GatewayLeaf>, id: string) returns (i: nat, j: nat)
    requires Sourced(g, leaves) && id in g.entries && g.entries[id].Complete()
    ensures PartnersAt(leaves, i, j) && leaves[i].descriptor.taskId == id
    ensures g.entries[id] == TaskLeaves(Some(leaves[i]), Some(leaves[j]))
  {
    var a, b := g.entries[id].ingress.value, g.entries[id].egress.value;
    assert id in Filled(g, Ingress) && id in Filled(g, Egress);
    assert FromLeaf(g.entries[id].Slot(Ingress).value, leaves, id, Ingress);
    assert FromLeaf(g.entries[id].Slot(Egress).value, leaves, id, Egress);
    i :| 0 <= i < |leaves| && leaves[i] == a;
    j :| 0 <= j < |leaves| && leaves[j] == b;
  }

  lemma PairExact(policy: TaskPolicy, leaves: seq<GatewayLeaf>, i: nat, j: nat)
    requires PartnersAt(leaves, i, j) && Numbered(leaves)
    ensures CheckPair(policy, TaskLeaves(Some(leaves[i]), Some(leaves[j]))).Ok?
            <==> i < j && leaves[i].descriptor.endedAt <= leaves[j].descriptor.startedAt
                 && LeafCapped(policy, leaves[i]) && LeafCapped(policy, leaves[j])
  {
  }

  /** The pair checks decide order in the ledger, order in time, and the caps. */
  lemma PairsExact(policy: TaskPolicy, g: Grouped, leaves: seq<GatewayLeaf>)
    requires Holds(g, leaves) && IsBTree(g) && AllComplete(g) && Numbered(leaves)
    ensures CheckPairs(policy, g.order, g.entries).Ok?
            <==> OrderedInLedger(leaves) && OrderedInTime(leaves) && AllCapped(policy, leaves)
  {
    CheckPairsEach(policy, g.order, g.entries);
    if OrderedInLedger(leaves) && OrderedInTime(leaves) && AllCapped(policy, leaves) {
      forall id | id in g.order ensures CheckPair(policy, g.entries[id]).Ok? {
        var i, j := PartnersOfEntry(g, leaves, id);
        PairExact(policy, leaves, i, j);
      }
    }
    if CheckPairs(policy, g.order, g.entries).Ok? {
      CheckedPairsOrdered(policy, g, leaves);
      CheckedPairsCapped(policy, g, leaves);
    }
  }

  lemma CheckedPairOrdered(policy: TaskPolicy, g: Grouped, leaves: seq<GatewayLeaf>, i: nat, j: nat)
    requires Slotted(g, leaves) && IsBTree(g) && AllComplete(g) && Numbered(leaves) && PartnersAt(leaves, i, j)
    requires CheckPairs(policy, g.order, g.entries).Ok?
    ensures i < j && leaves[i].descriptor.endedAt <= leaves[j].descriptor.startedAt
  {
    CheckPairsEach(policy, g.order, g.entries);
    EntryOfPartners(g, leaves, i, j);
    PairExact(policy, leaves, i, j);
  }

  lemma CheckedPairsOrdered(policy: TaskPolicy, g: Grouped, leaves: seq<GatewayLeaf>)
    requires Slotted(g, leaves) && IsBTree(g) && AllComplete(g) && Numbered(leaves)
    requires CheckPairs(policy, g.order, g.entries).Ok?
    ensures OrderedInLedger(leaves) && OrderedInTime(leaves)
  {
    forall i, j | PartnersAt(leaves, i, j)
      ensures i < j && leaves[i].descriptor.endedAt <= leaves[j].descriptor.startedAt
    {
      CheckedPairOrdered(policy, g, leaves, i, j);
    }
  }

  lemma CheckedPairsCapped(policy: TaskPolicy, g: Grouped, leaves: seq<GatewayLeaf>)
    requires Holds(g, leaves) && IsBTree(g) && AllComplete(g) && CheckPairs(policy, g.order, g.entries).Ok?
    ensures AllCapped(policy, leaves)
  {
    forall k | 0 <= k < |leaves| ensures LeafCapped(policy, leaves[k]) {
      LeavesCapped(policy, g, leaves, k);
    }
  }

  // ------------------------------------------------------------------- the statements

  ghost predicate HasTask(leaves: seq<GatewayLeaf>, id: string) {
    exists k | 0 <= k < |leaves| :: leaves[k].descriptor.taskId == id
  }

  /** The task is in the ledger and sampled. */
  ghost predicate Chosen(c: Primitives, input: TaskRelationInput, id: string) {
    && HasTask(input.leaves, id)
    && c.draw(input.epoch.samplingSeed, input.epoch.epochId, id) < Threshold(input.policy.task)
  }

  /** The statement is about this program, this epoch and the task of these two leaves: its input is what came
      in with the ingress leaf, its output what went out with the egress leaf. */
  ghost predicate Binds(s: ZkTorchStatement, epoch: EpochStatement, program: TaskProgram, ingress: GatewayLeaf,
                        egress: GatewayLeaf)
  {
    && s.protocolVersion == PROTOCOL_VERSION && s.proofSystemVersion == ZKTORCH_VERSION
    && s.epochId == epoch.epochId && s.taskId == ingress.descriptor.taskId == egress.descriptor.taskId
    && s.programId == program.programId && s.architectureDigest == program.architectureDigest
    && s.tensorSpecDigest == program.tensorSpecDigest && s.modelCommitment == program.modelCommitment
    && s.setupDigest == program.setupDigest && s.parameters == program.parameters
    && s.inputCommitment == ingress.content.digest && s.outputCommitment == egress.content.digest
  }

  lemma ExpectedBinds(s: ZkTorchStatement, epoch: EpochStatement, program: TaskProgram, ingress: GatewayLeaf,
                      egress: GatewayLeaf)
    requires ingress.descriptor.taskId == egress.descriptor.taskId
    ensures Binds(s, epoch, program, ingress, egress)
            <==> s == ExpectedStatement(epoch, program, ingress.descriptor.taskId,
                                        TaskLeaves(Some(ingress), Some(egress)))
  {
  }

  /** One statement for each sampled task of the ledger, bound to its two leaves, and no other. */
  ghost predicate StatementsHold(c: Primitives, input: TaskRelationInput) {
    var statements := input.sampledStatements;
    && (forall id :: id in statements <==> Chosen(c, input, id))
    && (forall i, j | PartnersAt(input.leaves, i, j) && input.leaves[i].descriptor.taskId in statements ::
          BoundTo(input, statements[input.leaves[i].descriptor.taskId], i, j))
  }

  ghost predicate BoundTo(input: TaskRelationInput, s: ZkTorchStatement, i: int, j: int)
    requires 0 <= i < |input.leaves| && 0 <= j < |input.leaves|
  {
    Binds(s, input.epoch, input.program, input.leaves[i], input.leaves[j])
  }

  lemma TasksAreEntries(g: Grouped, leaves: seq<GatewayLeaf>, id: string)
    requires Holds(g, leaves) && IsBTree(g)
    ensures id in g.order <==> HasTask(leaves, id)
  {
    if id in g.order {
      var k := EntryHasLeaf(g, leaves, id);
    }
    if HasTask(leaves, id) {
      var k :| 0 <= k < |leaves| && leaves[k].descriptor.taskId == id;
      assert SlotOf(g, leaves[k]) == Some(leaves[k]);
    }
  }

  lemma DerivedMapExact(c: Primitives, input: TaskRelationInput, g: Grouped)
    requires Holds(g, input.leaves) && IsBTree(g) && AllComplete(g)
    ensures input.sampledStatements
            == DerivedMap(input.epoch, input.program, g, Sampled(c, input.policy, input.epoch, g))
            <==> StatementsHold(c, input)
  {
    DerivedKeys(c, input, g);
    HeldExactly(c, input, g, DerivedMap(input.epoch, input.program, g, Sampled(c, input.policy, input.epoch, g)));
  }

  lemma HeldExactly(c: Primitives, input: TaskRelationInput, g: Grouped, derived: map<string, ZkTorchStatement>)
    requires Slotted(g, input.leaves) && Sourced(g, input.leaves) && AllComplete(g)
    requires forall id :: id in derived <==> Chosen(c, input, id)
    requires forall id | id in derived ::
               id in g.entries && derived[id] == ExpectedStatement(input.epoch, input.program, id, g.entries[id])
    ensures input.sampledStatements == derived <==> StatementsHold(c, input)
  {
    DerivedValues(input, g, derived);
    if StatementsHold(c, input) {
      assert derived.Keys == input.sampledStatements.Keys;
      forall id | id in derived ensures input.sampledStatements[id] == derived[id] {
        var i, j := PartnersOfEntry(g, input.leaves, id);
        assert BoundTo(input, input.sampledStatements[input.leaves[i].descriptor.taskId], i, j);
        ExpectedBinds(input.sampledStatements[id], input.epoch, input.program, input.leaves[i], input.leaves[j]);
      }
    }
  }

  lemma DerivedKeys(c: Primitives, input: TaskRelationInput, g: Grouped)
    requires Holds(g, input.leaves) && IsBTree(g) && AllComplete(g)
    ensures forall id ::
              id in DerivedMap(input.epoch, input.program, g, Sampled(c, input.policy, input.epoch, g))
              <==> Chosen(c, input, id)
  {
    forall id ensures id in Sampled(c, input.policy, input.epoch, g) <==> Chosen(c, input, id) {
      SampledIsChosen(c, input, g, id);
    }
  }

  lemma SampledIsChosen(c: Primitives, input: TaskRelationInput, g: Grouped, id: string)
    requires Holds(g, input.leaves) && IsBTree(g)
    ensures id in Sampled(c, input.policy, input.epoch, g) <==> Chosen(c, input, id)
  {
    TasksAreEntries(g, input.leaves, id);
    SelectsBelowThreshold(input.policy.task, c.draw(input.epoch.samplingSeed, input.epoch.epochId, id));
  }

  lemma DerivedValues(input: TaskRelationInput, g: Grouped, derived: map<string, ZkTorchStatement>)
    requires Slotted(g, input.leaves) && AllComplete(g)
    requires forall id | id in derived ::
               id in g.entries && derived[id] == ExpectedStatement(input.epoch, input.program, id, g.entries[id])
    ensures forall i, j | PartnersAt(input.leaves, i, j) && input.leaves[i].descriptor.taskId in derived ::
              BoundTo(input, derived[input.leaves[i].descriptor.taskId], i, j)
  {
    forall i, j | PartnersAt(input.leaves, i, j) && input.leaves[i].descriptor.taskId in derived
      ensures BoundTo(input, derived[input.leaves[i].descriptor.taskId], i, j)
    {
      EntryOfPartners(g, input.leaves, i, j);
      ExpectedBinds(derived[input.leaves[i].descriptor.taskId], input.epoch, input.program, input.leaves[i],
                    input.leaves[j]);
    }
  }

  // ---------------------------------------------------------------- the Task relation

  /** The public parts that do not depend on the ledger. */
  ghost predicate ProgramHolds(c: Primitives, input: TaskRelationInput) {
    && c.programCommitment(input.program) == input.epoch.taskProgramCommitment
    && input.program.protocolVersion == PROTOCOL_VERSION && input.program.taskListProgram == EXACT_PAIRING_PROGRAM
    && input.policy.task.auxMaxBits == 0 && input.aux == [] && input.epoch.auxCommitment == c.emptyAux
    && input.program.maxCompute <= input.policy.task.maxCompute
  }

  /** Every task is one ingress and one later egress leaf of the program, within the per-task limits. */
  ghost predicate LedgerHolds(policy: TaskPolicy, programId: string, leaves: seq<GatewayLeaf>) {
    && (forall k | 0 <= k < |leaves| :: leaves[k].descriptor.programId == programId)
    && NoRepeat(leaves) && EveryLeafPaired(leaves) && |leaves| <= 2 * policy.maxTasks
    && OrderedInLedger(leaves) && OrderedInTime(leaves) && AllCapped(policy, leaves)
  }

  ghost predicate TaskHolds(c: Primitives, input: TaskRelationInput) {
    && GatewayHolds(c, input.policy, input.epoch, input.gatewayRoot, input.gatewayKey, input.leaves)
    && ProgramHolds(c, input) && LedgerHolds(input.policy.task, input.program.programId, input.leaves)
    && StatementsHold(c, input)
  }

  /** Grouping, completeness, count and pair checks together decide the ledger part. */
  lemma LedgerExact(policy: TaskPolicy, programId: string, leaves: seq<GatewayLeaf>)
    requires Numbered(leaves) && |leaves| <= U64_MAX
    ensures var r := GroupFrom(leaves, programId, None, 0, EMPTY_GROUPED);
            && (r.Ok? ==> IsBTree(r.value) && Holds(r.value, leaves))
            && (LedgerHolds(policy, programId, leaves)
                <==> r.Ok? && AllComplete(r.value) && AsU64(|r.value.order|) <= policy.maxTasks
                     && CheckPairs(policy, r.value.order, r.value.entries).Ok?)
  {
    GroupExact(leaves, programId, None);
    var r := GroupFrom(leaves, programId, None, 0, EMPTY_GROUPED);
    if r.Ok? {
      GroupFromKeepsBTree(leaves, programId, None, 0, EMPTY_GROUPED);
      GroupedExact(policy, r.value, leaves);
    }
  }

  lemma GroupedExact(policy: TaskPolicy, g: Grouped, leaves: seq<GatewayLeaf>)
    requires Holds(g, leaves) && IsBTree(g) && Numbered(leaves) && |leaves| <= U64_MAX
    ensures AllComplete(g) && AsU64(|g.order|) <= policy.maxTasks && CheckPairs(policy, g.order, g.entries).Ok?
            <==> EveryLeafPaired(leaves) && |leaves| <= 2 * policy.maxTasks
                 && OrderedInLedger(leaves) && OrderedInTime(leaves) && AllCapped(policy, leaves)
  {
    CompleteIffPaired(g, leaves);
    if AllComplete(g) {
      PairedCounts(g, leaves);
      ModSmall(|g.order|, TWO_64);
      PairsExact(policy, g, leaves);
    }
  }

  lemma FittingIsNumbered(leaves: seq<GatewayLeaf>, epoch: EpochStatement, gatewayId: string)
    requires AllLeavesFit(leaves, epoch, gatewayId) && |leaves| <= U64_MAX
    ensures Numbered(leaves)
  {
    forall k | 0 <= k < |leaves| ensures leaves[k].descriptor.sequence == k {
      assert LeafFits(leaves, k, epoch, gatewayId);
      ModSmall(k, TWO_64);
    }
  }

  lemma PairTasksSteps(c: Primitives, input: TaskRelationInput)
    ensures var g := GroupFrom(input.leaves, input.program.programId, None, 0, EMPTY_GROUPED);
            (g.Ok? ==> IsBTree(g.value)) ==>
            (PairTasks(c, input).Ok?
             <==> ValidateGateway(c, input.policy, input.epoch, input.gatewayRoot, input.gatewayKey, input.leaves).Ok?
                  && ProgramHolds(c, input) && g.Ok? && AllComplete(g.value)
                  && AsU64(|g.value.order|) <= input.policy.task.maxTasks
                  && CheckPairs(input.policy.task, g.value.order, g.value.entries).Ok?)
    ensures PairTasks(c, input).Ok? ==>
              GroupFrom(input.leaves, input.program.programId, None, 0, EMPTY_GROUPED).Ok?
              && PairTasks(c, input).value.grouped
                 == GroupFrom(input.leaves, input.program.programId, None, 0, EMPTY_GROUPED).value
  {
  }

  /** Everything before the statements decides exactly the gateway, program and ledger parts. */
  lemma PairTasksExact(c: Primitives, input: TaskRelationInput)
    requires |input.leaves| <= U64_MAX
    ensures PairTasks(c, input).Ok?
            <==> GatewayHolds(c, input.policy, input.epoch, input.gatewayRoot, input.gatewayKey, input.leaves)
                 && ProgramHolds(c, input) && LedgerHolds(input.policy.task, input.program.programId, input.leaves)
    ensures PairTasks(c, input).Ok? ==> Holds(PairTasks(c, input).value.grouped, input.leaves)
  {
    GatewayExact(c, input.policy, input.epoch, input.gatewayRoot, input.gatewayKey, input.leaves);
    if GatewayHolds(c, input.policy, input.epoch, input.gatewayRoot, input.gatewayKey, input.leaves) {
      FittingIsNumbered(input.leaves, input.epoch, input.gatewayRoot.statement.gatewayId);
      LedgerExact(input.policy.task, input.program.programId, input.leaves);
    }
    PairTasksSteps(c, input);
  }

  /** `evaluate_task_relation` accepts exactly the inputs of the Task relation. */
  lemma TaskAcceptsExactly(c: Primitives, input: TaskRelationInput)
    requires |input.leaves| <= U64_MAX
    ensures EvaluateTaskRelation(c, input).Ok? <==> TaskHolds(c, input)
  {
    AcceptsExactlyDerived(c, input);
    PairTasksExact(c, input);
    if PairTasks(c, input).Ok? {
      StatementsExact(c, input);
    }
  }

  lemma PairedGroups(c: Primitives, input: TaskRelationInput)
    requires |input.leaves| <= U64_MAX && PairTasks(c, input).Ok?
    ensures var g := PairTasks(c, input).value.grouped; Holds(g, input.leaves) && IsBTree(g) && AllComplete(g)
  {
    PairTasksExact(c, input);
  }

  lemma StatementsExact(c: Primitives, input: TaskRelationInput)
    requires |input.leaves| <= U64_MAX && PairTasks(c, input).Ok?
    ensures SampledZkTorchStatements(c, input.policy, input.epoch, input.program, input.leaves)
            == Ok(input.sampledStatements)
            <==> StatementsHold(c, input)
  {
    PairedGroups(c, input);
    DerivationAfterPairing(c, input);
    DerivedMapExact(c, input, PairTasks(c, input).value.grouped);
  }

  // ------------------------------------------------------------------------ the outcomes

  /** `evaluate_pod_relation` reports compliance exactly with audited physical erasure and both bounds signed, and
      the exact bit totals of the ledger; it counts no tasks. */
  lemma PodOutcomeExactly(c: Primitives, input: PodRelationInput)
    requires |input.leaves| <= U64_MAX && EvaluatePodRelation(c, input).Ok?
    ensures var o, pod := EvaluatePodRelation(c, input).value, input.policy.pod;
            && (o.assurance == PaperCompliant
                <==> input.erasure.certificate.kind == AuditedPhysicalErasure
                     && pod.unrecordedChannelBound.Some? && pod.residualStateBound.Some?)
            && o.ingressBits == 8 * TotalLen(input.leaves, Ingress)
            && o.egressBits == 8 * TotalLen(input.leaves, Egress)
            && o.taskCount == 0 && o.sampledTaskIds == []
  {
    GatewayExact(c, input.policy, input.epoch, input.gatewayRoot, input.gatewayKey, input.leaves);
    PodTotals(c, input);
  }

  lemma PodTotals(c: Primitives, input: PodRelationInput)
    requires EvaluatePodRelation(c, input).Ok?
    ensures var o, pod := EvaluatePodRelation(c, input).value, input.policy.pod;
            var a := ValidateGateway(c, input.policy, input.epoch, input.gatewayRoot, input.gatewayKey, input.leaves);
            && a.Ok? && o.ingressBits == a.value.ingress && o.egressBits == a.value.egress
            && o.taskCount == 0 && o.sampledTaskIds == []
            && (o.assurance == PaperCompliant
                <==> input.erasure.certificate.kind == AuditedPhysicalErasure
                     && pod.unrecordedChannelBound.Some? && pod.residualStateBound.Some?)
  {
  }

  lemma {:induction false} KeptAscends(ids: seq<string>, keep: string -> bool, r: seq<string>)
    requires Ascending(ids) && Kept(ids, keep, r)
    ensures Ascending(r) && forall id :: id in r <==> id in ids && keep(id)
  {
    var picks: seq<nat> :| KeptAt(ids, keep, r, picks);
    forall id ensures id in r <==> id in ids && keep(id) {
      if id in r {
        var i :| 0 <= i < |r| && r[i] == id;
        assert picks[i] in picks;
      }
      if id in ids && keep(id) {
        var k :| 0 <= k < |ids| && ids[k] == id;
        assert k in picks;
        var i :| 0 <= i < |picks| && picks[i] == k;
        assert r[i] == id;
      }
    }
  }

  lemma TaskTotals(c: Primitives, input: TaskRelationInput)
    requires EvaluateTaskRelation(c, input).Ok?
    ensures PairTasks(c, input).Ok?
    ensures var o, pod := EvaluateTaskRelation(c, input).value, input.policy.pod;
            var p := PairTasks(c, input).value;
            var a := ValidateGateway(c, input.policy, input.epoch, input.gatewayRoot, input.gatewayKey, input.leaves);
            && a.Ok? && o.ingressBits == a.value.ingress && o.egressBits == a.value.egress
            && o.taskCount == AsU64(|p.grouped.order|)
            && o.sampledTaskIds == Sampled(c, input.policy, input.epoch, p.grouped)
            && (o.assurance == PaperCompliant <==> pod.unrecordedChannelBound.Some? && pod.residualStateBound.Some?)
  {
  }

  /** `evaluate_task_relation` reports compliance exactly with both bounds signed, the exact bit totals, half as many
      tasks as leaves, and in ascending order, each once, the tasks of the ledger drawn below the threshold. */
  lemma TaskOutcomeExactly(c: Primitives, input: TaskRelationInput)
    requires |input.leaves| <= U64_MAX && EvaluateTaskRelation(c, input).Ok?
    ensures var o, pod := EvaluateTaskRelation(c, input).value, input.policy.pod;
            && (o.assurance == PaperCompliant <==> pod.unrecordedChannelBound.Some? && pod.residualStateBound.Some?)
            && o.ingressBits == 8 * TotalLen(input.leaves, Ingress)
            && o.egressBits == 8 * TotalLen(input.leaves, Egress) && 2 * o.taskCount == |input.leaves|
            && Ascending(o.sampledTaskIds) && forall id :: id in o.sampledTaskIds <==> Chosen(c, input, id)
  {
    TaskTotals(c, input);
    AcceptedTotals(c, input);
    GatewayExact(c, input.policy, input.epoch, input.gatewayRoot, input.gatewayKey, input.leaves);
    PairedGroups(c, input);
    var g := PairTasks(c, input).value.grouped;
    SampledAscends(c, input, g);
    forall id ensures id in Sampled(c, input.policy, input.epoch, g) <==> Chosen(c, input, id) {
      SampledIsChosen(c, input, g, id);
    }
  }

  lemma SampledAscends(c: Primitives, input: TaskRelationInput, g: Grouped)
    requires IsBTree(g)
    ensures Ascending(Sampled(c, input.policy, input.epoch, g))
  {
    var seed, epochId, policy := input.epoch.samplingSeed, input.epoch.epochId, input.policy.task;
    SampledExactly(c.draw, seed, epochId, g.order, policy);
    KeptAscends(g.order, DrawsBelow(c.draw, seed, epochId, Threshold(policy)),
                Sampled(c, input.policy, input.epoch, g));
  }
}
